/** Bytes, fixed-width little-endian words, and the 32-bit arithmetic of the C sources. */
module Words {
  type byte = b: int | 0 <= b < 0x100
  type u16 = w: int | 0 <= w < 0x1_0000
  type u32 = w: int | 0 <= w < 0x1_0000_0000

  const MOD32 := 0x1_0000_0000
  const PAGE_SIZE := 0x1000

  datatype Option<+T> = None | Some(value: T)

  datatype Result<+T, +E> = Ok(value: T) | Err(error: E)

  /** `uint32_t` addition: the sum modulo 2^32. */
  function Add32(a: u32, b: u32): u32 {
    if a + b < 0x1_0000_0000 then a + b else a + b - 0x1_0000_0000
  }

  // ----- little-endian words -----

  function Word(s: seq<byte>, o: nat): u32
    requires o + 4 <= |s|
  {
    (s[o] as int) + 0x100 * (s[o + 1] as int) + 0x1_0000 * (s[o + 2] as int) + 0x100_0000 * (s[o + 3] as int)
  }

  function Half(s: seq<byte>, o: nat): u16
    requires o + 2 <= |s|
  {
    (s[o] as int) + 0x100 * (s[o + 1] as int)
  }

  function Bytes32(v: u32): (s: seq<byte>)
    ensures |s| == 4
  {
    [v % 0x100, v / 0x100 % 0x100, v / 0x1_0000 % 0x100, v / 0x100_0000]
  }

  function Bytes16(v: u16): (s: seq<byte>)
    ensures |s| == 2
  {
    [v % 0x100, v / 0x100]
  }

  /** The base-256 digits of a word. */
  lemma WordDigits(v: u32)
    ensures v == v % 0x100 + 0x100 * (v / 0x100 % 0x100) + 0x1_0000 * (v / 0x1_0000 % 0x100)
            + 0x100_0000 * (v / 0x100_0000)
  {
    assert v / 0x1_0000 == v / 0x100 / 0x100;
    assert v / 0x100_0000 == v / 0x1_0000 / 0x100;
  }

  lemma {:induction false} WordOfBytes32(v: u32)
    ensures Word(Bytes32(v), 0) == v
  {
    WordDigits(v);
    var s := Bytes32(v);
    assert (s[0] as int) == v % 0x100 && (s[1] as int) == v / 0x100 % 0x100;
    assert (s[2] as int) == v / 0x1_0000 % 0x100 && (s[3] as int) == v / 0x100_0000;
  }

  /** A word is determined by its bytes, wherever they are stored. */
  lemma {:induction false} WordEncodes(s: seq<byte>, o: nat, v: u32)
    requires o + 4 <= |s| && s[o..o + 4] == Bytes32(v)
    ensures Word(s, o) == v
  {
    var t := s[o..o + 4];
    assert t[0] == s[o] && t[1] == s[o + 1] && t[2] == s[o + 2] && t[3] == s[o + 3];
    WordOfBytes32(v);
  }

  /** The 16-bit fields in a word. */
  lemma WordHalves(b: seq<byte>, o: nat)
    requires o + 4 <= |b|
    ensures Half(b, o) == Word(b, o) % 0x1_0000 && Half(b, o + 2) == Word(b, o) / 0x1_0000
  {
  }

  lemma ZeroWord(b: seq<byte>, o: nat)
    requires o + 4 <= |b| && Word(b, o) == 0
    ensures b[o] == 0 && b[o + 1] == 0 && b[o + 2] == 0 && b[o + 3] == 0
  {
  }

  /** Consecutive 32-bit fields, in order. */
  function Pack(ws: seq<u32>): (s: seq<byte>)
    ensures |s| == 4 * |ws|
  {
    if ws == [] then [] else Bytes32(ws[0]) + Pack(ws[1..])
  }

  lemma {:induction false} WordOfPack(ws: seq<u32>, k: nat)
    requires k < |ws|
    ensures Word(Pack(ws), 4 * k) == ws[k]
  {
    var h, t := Bytes32(ws[0]), Pack(ws[1..]);
    if k == 0 {
      WordEncodes(h + t, 0, ws[0]);
    } else {
      WordOfPack(ws[1..], k - 1);
      WordOfConcat(h, t, 4 * k);
    }
  }

  lemma WordOfConcat(a: seq<byte>, b: seq<byte>, o: nat)
    requires o + 4 <= |a| + |b|
    ensures o + 4 <= |a| ==> Word(a + b, o) == Word(a, o)
    ensures |a| <= o ==> Word(a + b, o) == Word(b, o - |a|)
  {
  }

  lemma HalfOfConcat(a: seq<byte>, b: seq<byte>, o: nat)
    requires o + 2 <= |a| + |b|
    ensures o + 2 <= |a| ==> Half(a + b, o) == Half(a, o)
    ensures |a| <= o ==> Half(a + b, o) == Half(b, o - |a|)
  {
  }

  // ----- buffers -----

  lemma ConcatAssoc<T>(a: seq<T>, b: seq<T>, c: seq<T>)
    ensures a + b + c == a + (b + c)
  {
  }

  lemma SliceOfSlice(s: seq<byte>, a: nat, b: nat, c: nat, d: nat)
    requires a <= b <= |s| && c <= d <= b - a
    ensures s[a..b][c..d] == s[a + c..a + d]
  {
    var t := s[a..b];
    assert forall i :: 0 <= i < d - c ==> t[c..d][i] == t[c + i] == s[a + c + i];
  }

  lemma SliceOfConcat(a: seq<byte>, b: seq<byte>, p: nat, q: nat)
    requires p <= q <= |a| + |b|
    ensures q <= |a| ==> (a + b)[p..q] == a[p..q]
    ensures |a| <= p ==> (a + b)[p..q] == b[p - |a|..q - |a|]
  {
  }

  /** Adjacent pieces found together are found one after the other. */
  lemma SplitSlice(s: seq<byte>, p: nat, a: seq<byte>, b: seq<byte>)
    requires p + |a| + |b| <= |s| && s[p..p + |a| + |b|] == a + b
    ensures s[p..p + |a|] == a
    ensures s[p + |a|..p + |a| + |b|] == b
  {
    var t := s[p..p + |a| + |b|];
    assert forall i :: 0 <= i < |a| ==> s[p + i] == t[i] == a[i];
    assert forall i :: 0 <= i < |b| ==> s[p + |a| + i] == t[|a| + i] == b[i];
  }

  function Zeros(n: nat): (s: seq<byte>)
    ensures |s| == n && forall i :: 0 <= i < n ==> s[i] == 0
  {
    seq(n, _ => 0)
  }

  /** `s` with the bytes `b` stored at offset `o`. */
  function Splice(s: seq<byte>, o: nat, b: seq<byte>): (t: seq<byte>)
    requires o + |b| <= |s|
    ensures |t| == |s|
    ensures forall i :: 0 <= i < |s| ==> t[i] == if o <= i < o + |b| then b[i - o] else s[i]
  {
    s[..o] + b + s[o + |b|..]
  }

  /** Stores a little-endian word into a buffer in place. */
  method Store32(a: array<byte>, o: nat, v: u32)
    requires o + 4 <= a.Length
    modifies a
    ensures a[..] == Splice(old(a[..]), o, Bytes32(v))
  {
    a[o] := v % 0x100;
    a[o + 1] := v / 0x100 % 0x100;
    a[o + 2] := v / 0x1_0000 % 0x100;
    a[o + 3] := v / 0x100_0000;
  }

  // ----- page rounding -----

  /** `align_up(n, PAGE_SIZE)` on `uint32_t`: the sum wraps before the division. */
  function AlignUp32(n: u32): u32 {
    Add32(n, 0xFFF) / 0x1000 * 0x1000
  }

  /** Rounding up to whole pages, without a width limit. */
  function PageUp(n: nat): nat {
    (n + 0xFFF) / 0x1000 * 0x1000
  }

  lemma AlignUpIsPageUp(n: u32)
    ensures n + 0xFFF < MOD32 ==> AlignUp32(n) == PageUp(n)
    ensures AlignUp32(n) % 0x1000 == 0
    ensures n <= PageUp(n) < n + PAGE_SIZE && PageUp(n) % 0x1000 == 0
  {
  }
}
