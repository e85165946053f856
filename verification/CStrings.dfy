/** NUL-terminated strings in byte buffers. */
module CStrings {
  import opened Words

  predicate NoNul(s: seq<byte>) {
    forall i :: 0 <= i < |s| ==> s[i] != 0
  }

  /** The string that starts at offset `o`: the bytes before the next NUL. */
  function CStrAt(s: seq<byte>, o: nat): (r: seq<byte>)
    ensures NoNul(r)
    decreases |s| - o
  {
    if o >= |s| || s[o] == 0 then [] else [s[o]] + CStrAt(s, o + 1)
  }

  /** The string at offset `o` ends inside `s`. */
  predicate Terminated(s: seq<byte>, o: nat) {
    o + |CStrAt(s, o)| < |s|
  }

  /** What stands before a NUL is the string there. */
  lemma {:induction false} CStrAtStops(b: seq<byte>, o: nat, s: seq<byte>)
    requires NoNul(s) && o + |s| < |b| && b[o..o + |s|] == s && b[o + |s|] == 0
    ensures CStrAt(b, o) == s
    decreases |s|
  {
    if s != [] {
      assert b[o] == b[o..o + |s|][0];
      assert b[o + 1..o + |s|] == s[1..];
      CStrAtStops(b, o + 1, s[1..]);
    }
  }

  /** A string that ends inside the buffer stands there, with a NUL behind it. */
  lemma {:induction false} CStrAtEnds(b: seq<byte>, o: nat)
    requires Terminated(b, o)
    ensures var s := CStrAt(b, o); b[o..o + |s|] == s && b[o + |s|] == 0
    decreases |b| - o
  {
    if o < |b| && b[o] != 0 {
      CStrAtEnds(b, o + 1);
      assert b[o..o + |CStrAt(b, o)|] == [b[o]] + b[o + 1..o + |CStrAt(b, o)|];
    }
  }

  function Ascii(s: string): seq<byte> {
    seq(|s|, i requires 0 <= i < |s| => s[i] as int % 0x100)
  }
}
