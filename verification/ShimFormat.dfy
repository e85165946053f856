/**
 * The shim runtime's bounded formatter: `shim_vformat` and the `out_*` writers it uses.
 *
 * On i386 every variadic argument it takes is one 32-bit word, so `l` modifiers change
 * nothing. Strings are found in a snapshot of the address space; the output buffer is apart.
 */
module ShimFormat {
  import opened Words
  import opened CStrings
  import opened Numerals

  const PERCENT: byte := 0x25
  const MINUS: byte := 0x2D

  type i32 = v: int | -0x8000_0000 <= v < 0x8000_0000

  function Signed(w: u32): (v: i32)
    ensures v == w || v + 0x1_0000_0000 == w
  {
    if w < 0x8000_0000 then w else w - 0x1_0000_0000
  }

  // ----- the bounded writer -----

  /** The output buffer's bytes and the running position, which counts past the capacity. */
  datatype Sink = Sink(bytes: seq<byte>, pos: u32)

  /** `out_char` for each character in turn. */
  function Emit(k: Sink, cap: nat, s: seq<byte>): (r: Sink)
    requires cap <= |k.bytes|
    ensures |r.bytes| == |k.bytes|
    decreases |s|
  {
    if s == [] then k
    else
      var m := Emit(k, cap, s[..|s| - 1]);
      Sink(if m.pos < cap then m.bytes[m.pos := s[|s| - 1]] else m.bytes, Add32(m.pos, 1))
  }

  lemma EmitNothing(k: Sink, cap: nat)
    requires cap <= |k.bytes|
    ensures Emit(k, cap, []) == k
  {
  }

  lemma {:induction false} EmitConcat(k: Sink, cap: nat, s: seq<byte>, t: seq<byte>)
    requires cap <= |k.bytes|
    ensures Emit(k, cap, s + t) == Emit(Emit(k, cap, s), cap, t)
  {
    if t == [] {
      assert s + t == s;
    } else {
      var n := |s + t|;
      assert (s + t)[..n - 1] == s + t[..|t| - 1];
      EmitConcat(k, cap, s, t[..|t| - 1]);
    }
  }

  /** What fits below the capacity is stored in place; the rest is only counted. */
  lemma {:induction false} EmitStores(k: Sink, cap: nat, s: seq<byte>)
    requires cap <= |k.bytes| && k.pos + |s| < MOD32
    ensures var r := Emit(k, cap, s);
            && r.pos == k.pos + |s|
            && forall i :: 0 <= i < |k.bytes| ==>
                 r.bytes[i] == if k.pos <= i < k.pos + |s| && i < cap then s[i - k.pos] else k.bytes[i]
  {
    if s != [] {
      EmitStores(k, cap, s[..|s| - 1]);
    }
  }

  /** The closing `buf[pos < bufcap ? pos : bufcap - 1] = 0`. */
  function Close(k: Sink, cap: nat): seq<byte>
    requires cap <= |k.bytes|
  {
    if cap == 0 then k.bytes else k.bytes[(if k.pos < cap then k.pos else cap - 1) := 0]
  }

  // ----- what the formatter means to print -----

  /** A signed decimal numeral. */
  function SignedDecimal(v: int): seq<byte> {
    if v < 0 then [MINUS] + Decimal(-v) else Decimal(v)
  }

  function SignedValue(s: seq<byte>): Option<int> {
    if s == [] then None
    else if s[0] == MINUS then
      match ValueOf(s[1..], 10)
      case None => None
      case Some(d) => Some(0 - d)
    else
      match ValueOf(s, 10)
      case None => None
      case Some(d) => Some(d)
  }

  lemma SignedRoundTrip(v: int)
    ensures SignedValue(SignedDecimal(v)) == Some(v)
  {
    if v < 0 {
      NumeralValue(-v, 10, false);
      assert SignedDecimal(v)[1..] == Decimal(-v);
    } else {
      NumeralValue(v, 10, false);
      NumeralDigits(v, 10, false);
    }
  }

  function NullText(): seq<byte> {
    Ascii("(null)")
  }

  predicate TakesArgument(c: byte) {
    c in {0x64, 0x69, 0x75, 0x78, 0x58, 0x70, 0x63, 0x73} // d i u x X p c s
  }

  /** The text of one conversion `c` applied to the argument word `w`. */
  function Converted(c: byte, w: u32, mem: seq<byte>): seq<byte>
  {
    if c == 0x64 || c == 0x69 then SignedDecimal(Signed(w)) // d, i
    else if c == 0x75 then Decimal(w) // u
    else if c == 0x78 then Numeral(w, 16, false) // x
    else if c == 0x58 then Numeral(w, 16, true) // X
    else if c == 0x70 then [0x30, 0x78] + Numeral(w, 16, false) // p
    else if c == 0x63 then [w % 0x100] // c
    else if c == 0x73 then (if w == 0 then NullText() else CStrAt(mem, w)) // s
    else if c == PERCENT then [PERCENT]
    else [PERCENT, c]
  }

  predicate IsFlag(c: byte) {
    c == MINUS || 0x30 <= c <= 0x39
  }

  const EL: byte := 0x6C

  /** A format string: one NUL, at its end. */
  predicate CString(f: seq<byte>) {
    f != [] && f[|f| - 1] == 0 && forall i :: 0 <= i < |f| - 1 ==> f[i] != 0
  }

  /** Past the `l` modifiers at `i`. */
  function SkipLongs(f: seq<byte>, i: nat): (r: nat)
    requires CString(f) && i < |f|
    ensures i <= r < |f| && f[r] != EL && forall k :: i <= k < r ==> f[k] == EL
    decreases |f| - i
  {
    if f[i] == EL then SkipLongs(f, i + 1) else i
  }

  /** Past the flags and the width at `i`. */
  function SkipFlags(f: seq<byte>, i: nat): (r: nat)
    requires CString(f) && i < |f|
    ensures i <= r < |f| && !IsFlag(f[r]) && forall k :: i <= k < r ==> IsFlag(f[k])
    decreases |f| - i
  {
    if IsFlag(f[i]) then SkipFlags(f, i + 1) else i
  }

  /** The position of the conversion character of the directive whose `%` is at `i`. */
  function ConversionAt(f: seq<byte>, i: nat): (r: nat)
    requires CString(f) && i + 1 < |f|
    ensures i < r < |f|
  {
    SkipFlags(f, SkipLongs(f, i + 1))
  }

  /** The argument words are enough for the directives from `i` on, and those of `%s` are null or name a string. */
  predicate Matching(f: seq<byte>, i: nat, args: seq<u32>, mem: seq<byte>)
    requires CString(f) && i < |f|
    decreases |f| - i
  {
    if f[i] == 0 then true
    else if f[i] != PERCENT then Matching(f, i + 1, args, mem)
    else
      var c := ConversionAt(f, i);
      if f[c] == 0 then true
      else if TakesArgument(f[c]) then args != [] && Accepts(f[c], args[0], mem) && Matching(f, c + 1, args[1..], mem)
      else Matching(f, c + 1, args, mem)
  }

  predicate Accepts(c: byte, w: u32, mem: seq<byte>) {
    c == 0x73 && w != 0 ==> Terminated(mem, w)
  }

  /** The unbounded output for the format from `i` on and the argument words `args`. */
  function Ideal(f: seq<byte>, i: nat, args: seq<u32>, mem: seq<byte>): seq<byte>
    requires CString(f) && i < |f| && Matching(f, i, args, mem)
    decreases |f| - i
  {
    if f[i] == 0 then []
    else if f[i] != PERCENT then [f[i]] + Ideal(f, i + 1, args, mem)
    else
      var c := ConversionAt(f, i);
      if f[c] == 0 then []
      else if TakesArgument(f[c]) then Converted(f[c], args[0], mem) + Ideal(f, c + 1, args[1..], mem)
      else Converted(f[c], 0, mem) + Ideal(f, c + 1, args, mem)
  }

  // ----- the writers -----

  /** `out_char`. */
  method OutChar(buf: array<byte>, cap: u32, pos: u32, c: byte) returns (next: u32)
    requires cap <= buf.Length
    modifies buf
    ensures Sink(buf[..], next) == Emit(Sink(old(buf[..]), pos), cap, [c])
  {
    if pos < cap {
      buf[pos] := c;
    }
    next := Add32(pos, 1);
    assert Emit(Sink(old(buf[..]), pos), cap, []) == Sink(old(buf[..]), pos);
  }

  /** `out_str`, on the string that starts at `s` in memory. */
  method OutStr(buf: array<byte>, cap: u32, pos: u32, mem: seq<byte>, s: nat) returns (next: u32)
    requires cap <= buf.Length && Terminated(mem, s)
    modifies buf
    ensures Sink(buf[..], next) == Emit(Sink(old(buf[..]), pos), cap, CStrAt(mem, s))
  {
    next := pos;
    var i := s;
    ghost var done: seq<byte> := [];
    while mem[i] != 0
      invariant s <= i < |mem|
      invariant i + |CStrAt(mem, i)| < |mem|
      invariant CStrAt(mem, s) == done + CStrAt(mem, i)
      invariant Sink(buf[..], next) == Emit(Sink(old(buf[..]), pos), cap, done)
      decreases |mem| - i
    {
      next := OutChar(buf, cap, next, mem[i]);
      EmitConcat(Sink(old(buf[..]), pos), cap, done, [mem[i]]);
      ConcatAssoc(done, [mem[i]], CStrAt(mem, i + 1));
      done := done + [mem[i]];
      i := i + 1;
    }
    assert done + CStrAt(mem, i) == done;
  }

  /** The digits gathered so far, most significant first. */
  function Backwards(s: seq<byte>): (r: seq<byte>)
    ensures |r| == |s|
  {
    if s == [] then [] else [s[|s| - 1]] + Backwards(s[..|s| - 1])
  }

  function Pow2(n: nat): nat {
    if n == 0 then 1 else 2 * Pow2(n - 1)
  }

  lemma Pow2At32()
    ensures Pow2(32) == MOD32
  {
    assert Pow2(8) == 0x100;
    assert Pow2(16) == 0x1_0000;
    assert Pow2(24) == 0x100_0000;
  }

  /** The digits still to come are followed by those gathered in reverse. */
  predicate DigitsLeft(v: nat, w: nat, base: Base, upper: bool, gathered: seq<byte>) {
    Numeral(v, base, upper) == (if w > 0 then Numeral(w, base, upper) else []) + Backwards(gathered)
  }

  lemma {:induction false} DigitStep(v: nat, w: nat, base: Base, upper: bool, t: seq<byte>)
    requires w > 0 && DigitsLeft(v, w, base, upper, t)
    ensures v / base >= 0 && w / base >= 0
    ensures DigitsLeft(v, w / base, base, upper, t + [DigitChar(w % base, upper)])
  {
    var d := DigitChar(w % base, upper);
    DivLess(w, base);
    DivLess(v, base);
    NumeralSplit(w, base, upper);
    assert (t + [d])[..|t|] == t;
    var high := if w / base > 0 then Numeral(w / base, base, upper) else [];
    ConcatAssoc(high, [d], Backwards(t));
  }

  lemma DigitsStart(v: nat, base: Base, upper: bool)
    ensures DigitsLeft(v, v, base, upper, []) || v == 0
    ensures v == 0 ==> DigitsLeft(0, 0, base, upper, [0x30])
  {
    assert Numeral(v, base, upper) + [] == Numeral(v, base, upper);
    assert [0x30][..0] == [];
  }

  lemma DigitsDone(v: nat, base: Base, upper: bool, t: seq<byte>)
    requires DigitsLeft(v, 0, base, upper, t)
    ensures Numeral(v, base, upper) == Backwards(t)
  {
  }

  lemma BackwardsStep(s: seq<byte>, done: seq<byte>, t: seq<byte>, c: byte)
    requires s == done + Backwards(t + [c])
    ensures s == (done + [c]) + Backwards(t)
  {
    assert (t + [c])[..|t|] == t;
  }

  /** `out_uint`; the digit buffer of 32 characters always suffices. */
  method OutUint(buf: array<byte>, cap: u32, pos: u32, v: u32, base: Base, upper: bool) returns (next: u32)
    requires cap <= buf.Length
    modifies buf
    ensures Sink(buf[..], next) == Emit(Sink(old(buf[..]), pos), cap, Numeral(v, base, upper))
  {
    hide Numeral, DigitsLeft, Backwards, Emit, DigitChar;
    var tmp := new byte[32];
    var n := 0;
    DigitsStart(v, base, upper);
    if v == 0 {
      tmp[n] := 0x30;
      n := n + 1;
      assert tmp[..n] == [0x30];
    } else {
      var w := v;
      Pow2At32();
      assert tmp[..0] == [];
      while w > 0
        invariant 0 <= n <= 32 && 0 <= w < Pow2(32 - n)
        invariant buf[..] == old(buf[..])
        invariant DigitsLeft(v, w, base, upper, tmp[..n])
      {
        DivLess(w, base);
        DigitStep(v, w, base, upper, tmp[..n]);
        ghost var was := tmp[..n];
        tmp[n] := DigitChar(w % base, upper);
        assert tmp[..n + 1] == was + [tmp[n]];
        w := w / base;
        n := n + 1;
      }
    }
    DigitsDone(v, base, upper, tmp[..n]);
    next := pos;
    ghost var done: seq<byte> := [];
    EmitNothing(Sink(old(buf[..]), pos), cap);
    while n > 0
      invariant 0 <= n <= 32
      invariant Numeral(v, base, upper) == done + Backwards(tmp[..n])
      invariant Sink(buf[..], next) == Emit(Sink(old(buf[..]), pos), cap, done)
    {
      n := n - 1;
      assert tmp[..n + 1] == tmp[..n] + [tmp[n]];
      BackwardsStep(Numeral(v, base, upper), done, tmp[..n], tmp[n]);
      next := OutChar(buf, cap, next, tmp[n]);
      EmitConcat(Sink(old(buf[..]), pos), cap, done, [tmp[n]]);
      done := done + [tmp[n]];
    }
    assert tmp[..n] == [];
    assert done + Backwards([]) == done;
  }

  /** `out_int`; the negation of the least value wraps to itself. */
  method OutInt(buf: array<byte>, cap: u32, pos: u32, v: i32) returns (next: u32)
    requires cap <= buf.Length
    modifies buf
    ensures Sink(buf[..], next) == Emit(Sink(old(buf[..]), pos), cap, SignedDecimal(v))
  {
    hide Emit, Numeral;
    if v < 0 {
      next := OutChar(buf, cap, pos, MINUS);
      next := OutUint(buf, cap, next, 0 - v, 10, false);
      EmitConcat(Sink(old(buf[..]), pos), cap, [MINUS], Decimal(0 - v));
    } else {
      next := OutUint(buf, cap, pos, v, 10, false);
    }
  }

  method OutLiteral(buf: array<byte>, cap: u32, pos: u32, s: seq<byte>) returns (next: u32)
    requires cap <= buf.Length && NoNul(s)
    modifies buf
    ensures Sink(buf[..], next) == Emit(Sink(old(buf[..]), pos), cap, s)
  {
    hide Emit, CStrAt;
    assert (s + [0])[0..0 + |s|] == s;
    CStrAtStops(s + [0], 0, s);
    next := OutStr(buf, cap, pos, s + [0], 0);
  }

  /** The branch of `shim_vformat` for the conversion character `c`, with the argument word `w` if it takes one. */
  method OutConversion(buf: array<byte>, cap: u32, pos: u32, c: byte, w: u32, mem: seq<byte>) returns (next: u32)
    requires cap <= buf.Length && Accepts(c, w, mem)
    modifies buf
    ensures Sink(buf[..], next) == Emit(Sink(old(buf[..]), pos), cap, Converted(c, w, mem))
  {
    hide Emit, Numeral, CStrAt, SignedDecimal;
    ghost var k := Sink(buf[..], pos);
    if c == 0x64 || c == 0x69 {
      next := OutInt(buf, cap, pos, Signed(w));
    } else if c == 0x75 {
      next := OutUint(buf, cap, pos, w, 10, false);
    } else if c == 0x78 {
      next := OutUint(buf, cap, pos, w, 16, false);
    } else if c == 0x58 {
      next := OutUint(buf, cap, pos, w, 16, true);
    } else if c == 0x70 {
      next := OutLiteral(buf, cap, pos, [0x30, 0x78]);
      next := OutUint(buf, cap, next, w, 16, false);
      EmitConcat(k, cap, [0x30, 0x78], Numeral(w, 16, false));
    } else if c == 0x63 {
      next := OutChar(buf, cap, pos, w % 0x100);
    } else if c == 0x73 {
      if w == 0 {
        next := OutLiteral(buf, cap, pos, NullText());
      } else {
        next := OutStr(buf, cap, pos, mem, w);
      }
    } else if c == PERCENT {
      next := OutChar(buf, cap, pos, PERCENT);
    } else {
      next := OutChar(buf, cap, pos, PERCENT);
      next := OutChar(buf, cap, next, c);
      EmitConcat(k, cap, [PERCENT], [c]);
      assert [PERCENT] + [c] == [PERCENT, c];
    }
  }

  /** `shim_vformat`. Every read of the format is within its string, terminator included. */
  method VFormat(buf: array<byte>, cap: u32, f: seq<byte>, args: seq<u32>, mem: seq<byte>) returns (length: i32)
    requires cap <= buf.Length && CString(f) && Matching(f, 0, args, mem)
    modifies buf
    ensures var k := Emit(Sink(old(buf[..]), 0), cap, Ideal(f, 0, args, mem));
            buf[..] == Close(k, cap) && length == Signed(k.pos)
  {
    hide Emit, Numeral, Converted, Ideal, Matching;
    var pos: u32 := 0;
    var p, a := 0, 0;
    ghost var k := Sink(buf[..], 0);
    ghost var done: seq<byte> := [];
    EmitNothing(k, cap);
    assert args[0..] == args;
    while f[p] != 0
      invariant 0 <= p < |f| && 0 <= a <= |args|
      invariant Matching(f, p, args[a..], mem)
      invariant Ideal(f, 0, args, mem) == done + Ideal(f, p, args[a..], mem)
      invariant Sink(buf[..], pos) == Emit(k, cap, done)
      decreases |f| - p
    {
      ghost var rest := args[a..];
      if f[p] != PERCENT {
        LiteralStep(f, p, rest, mem, done);
        EmitConcat(k, cap, done, [f[p]]);
        pos := OutChar(buf, cap, pos, f[p]);
        done := done + [f[p]];
      } else {
        ghost var at := p;
        p := p + 1;
        while f[p] == EL
          invariant at < p < |f|
          invariant SkipLongs(f, p) == SkipLongs(f, at + 1)
          decreases |f| - p
        {
          p := p + 1;
        }
        while IsFlag(f[p])
          invariant at < p < |f|
          invariant SkipFlags(f, p) == ConversionAt(f, at)
          decreases |f| - p
        {
          p := p + 1;
        }
        DirectiveStep(f, at, rest, mem, done);
        var c := f[p];
        if c == 0 {
          FormatEnd(f, p, rest, mem);
          p := p - 1;
        } else {
          var w := 0;
          if TakesArgument(c) {
            w := args[a];
            assert args[a..][1..] == args[a + 1..];
            a := a + 1;
          }
          EmitConcat(k, cap, done, Converted(c, w, mem));
          pos := OutConversion(buf, cap, pos, c, w, mem);
          done := done + Converted(c, w, mem);
        }
      }
      p := p + 1;
    }
    FormatEnd(f, p, args[a..], mem);
    assert done + [] == done;
    if cap > 0 {
      buf[if pos < cap then pos else cap - 1] := 0;
    }
    length := Signed(pos);
  }

  lemma FormatEnd(f: seq<byte>, p: nat, args: seq<u32>, mem: seq<byte>)
    requires CString(f) && p < |f| && f[p] == 0
    ensures Matching(f, p, args, mem) && Ideal(f, p, args, mem) == []
  {
  }

  lemma LiteralStep(f: seq<byte>, p: nat, args: seq<u32>, mem: seq<byte>, done: seq<byte>)
    requires CString(f) && p < |f| && f[p] != 0 && f[p] != PERCENT && Matching(f, p, args, mem)
    ensures p + 1 < |f| && Matching(f, p + 1, args, mem)
    ensures done + Ideal(f, p, args, mem) == (done + [f[p]]) + Ideal(f, p + 1, args, mem)
  {
    hide Emit, Converted, CString;
    assert p + 1 < |f| by { TerminatorLast(f); }
    ConcatAssoc(done, [f[p]], Ideal(f, p + 1, args, mem));
  }

  lemma TerminatorLast(f: seq<byte>)
    requires CString(f)
    ensures f[|f| - 1] == 0
  {
  }

  lemma DirectiveStep(f: seq<byte>, p: nat, args: seq<u32>, mem: seq<byte>, done: seq<byte>)
    requires CString(f) && p + 1 < |f| && f[p] == PERCENT && Matching(f, p, args, mem)
    ensures var c := ConversionAt(f, p);
            if f[c] == 0 then c == |f| - 1 && Ideal(f, p, args, mem) == []
            else
              var w := if TakesArgument(f[c]) then 1 else 0;
              && c + 1 < |f| && w <= |args|
              && (w == 1 ==> Accepts(f[c], args[0], mem))
              && Matching(f, c + 1, args[w..], mem)
              && done + Ideal(f, p, args, mem)
                 == (done + Converted(f[c], if w == 1 then args[0] else 0, mem)) + Ideal(f, c + 1, args[w..], mem)
  {
    hide Emit, Converted;
    var c := ConversionAt(f, p);
    if f[c] != 0 {
      var w := if TakesArgument(f[c]) then 1 else 0;
      assert args[0..] == args;
      ConcatAssoc(done, Converted(f[c], if w == 1 then args[0] else 0, mem), Ideal(f, c + 1, args[w..], mem));
    }
  }

  /** The closed buffer, byte by byte. */
  lemma ClosedAt(was: seq<byte>, cap: u32, ideal: seq<byte>, i: nat)
    requires 0 < cap <= |was| && |ideal| < MOD32 && i < |was|
    ensures var n := if |ideal| < cap then |ideal| else cap - 1;
      Close(Emit(Sink(was, 0), cap, ideal), cap)[i] == if i < n then ideal[i] else if i == n then 0 else was[i]
  {
    hide Emit;
    EmitStores(Sink(was, 0), cap, ideal);
  }

  /**
   * The formatter refines the unbounded one: it leaves in the buffer what fits of the ideal
   * output, terminated, and nothing else.
   */
  lemma FormatRefines(was: seq<byte>, cap: u32, ideal: seq<byte>)
    requires 0 < cap <= |was| && |ideal| < MOD32
    ensures var n := if |ideal| < cap then |ideal| else cap - 1;
      Close(Emit(Sink(was, 0), cap, ideal), cap) == ideal[..n] + [0] + was[n + 1..]
  {
    hide Emit, Close;
    var n := if |ideal| < cap then |ideal| else cap - 1;
    var left, right := Close(Emit(Sink(was, 0), cap, ideal), cap), ideal[..n] + [0] + was[n + 1..];
    CloseKeepsLength(Emit(Sink(was, 0), cap, ideal), cap);
    forall i | 0 <= i < |was|
      ensures left[i] == right[i]
    {
      ClosedAt(was, cap, ideal, i);
    }
  }

  lemma CloseKeepsLength(k: Sink, cap: nat)
    requires cap <= |k.bytes|
    ensures |Close(k, cap)| == |k.bytes|
  {
  }

  /** The ideal output's length is what the formatter returns, exactly when it is an `int`. */
  lemma FormatReturns(was: seq<byte>, cap: nat, ideal: seq<byte>)
    requires cap <= |was|
    ensures Signed(Emit(Sink(was, 0), cap, ideal).pos) == |ideal| <==> |ideal| < 0x8000_0000
  {
    if |ideal| < MOD32 {
      EmitStores(Sink(was, 0), cap, ideal);
    }
  }

  /** A format without directives prints itself, whatever the arguments. */
  lemma {:induction false} LiteralFormat(f: seq<byte>, i: nat, args: seq<u32>, mem: seq<byte>)
    requires CString(f) && i < |f| && PERCENT !in f[i..]
    ensures Matching(f, i, args, mem) && Ideal(f, i, args, mem) == f[i..|f| - 1]
    decreases |f| - i
  {
    hide Converted, Accepts, ConversionAt;
    if f[i] != 0 {
      assert f[i] == f[i..][0];
      assert f[i + 1..] == f[i..][1..];
      LiteralFormat(f, i + 1, args, mem);
      assert [f[i]] + f[i + 1..|f| - 1] == f[i..|f| - 1];
    }
  }

  /** 2^31 literal characters. */
  function LongFormat(): (f: seq<byte>)
    ensures |f| == 0x8000_0001
  {
    seq(0x8000_0000, _ => 0x61) + [0]
  }

  /** A format whose output is too long for the result: the formatter returns a negative length. */
  lemma FormatTooLong(was: seq<byte>, cap: nat, mem: seq<byte>)
    requires cap <= |was|
    ensures CString(LongFormat()) && Matching(LongFormat(), 0, [], mem)
    ensures |Ideal(LongFormat(), 0, [], mem)| == 0x8000_0000
    ensures Signed(Emit(Sink(was, 0), cap, Ideal(LongFormat(), 0, [], mem)).pos) == -0x8000_0000
  {
    hide Ideal, Matching, Emit;
    var f := LongFormat();
    assert f[0..] == f && forall k :: 0 <= k < |f| ==> f[k] != PERCENT;
    LiteralFormat(f, 0, [], mem);
    EmitStores(Sink(was, 0), cap, Ideal(f, 0, [], mem));
  }
}
