/** Positional numerals as character sequences, most significant digit first. */
module Numerals {
  import opened Words
  import opened CStrings

  type Base = b: int | 2 <= b <= 16 witness 10

  /** The 16 digits in a letter case. */
  function Alphabet(upper: bool): (s: seq<byte>)
    ensures |s| == 16
  {
    if upper then Ascii("0123456789ABCDEF") else Ascii("0123456789abcdef")
  }

  function DigitChar(d: nat, upper: bool): byte
    requires d < 16
  {
    if d < 10 then 0x30 + d else if upper then 0x41 + (d - 10) else 0x61 + (d - 10)
  }

  function DigitValue(c: byte): Option<nat> {
    if 0x30 <= c <= 0x39 then Some(c - 0x30)
    else if 0x41 <= c <= 0x46 then Some(c - 0x41 + 10)
    else if 0x61 <= c <= 0x66 then Some(c - 0x61 + 10)
    else None
  }

  function Numeral(v: nat, base: Base, upper: bool): (s: seq<byte>)
    ensures |s| > 0
  {
    if v < base then [DigitChar(v, upper)]
    else
      DivLess(v, base);
      Numeral(v / base, base, upper) + [DigitChar(v % base, upper)]
  }

  lemma DivLess(v: nat, base: Base)
    ensures 0 <= v / base <= v && (v > 0 ==> v / base < v)
    ensures v == base * (v / base) + v % base && 0 <= v % base < base
    ensures v / base == 0 <==> v < base
    ensures 2 * (v / base) <= v
  {
    var q := v / base;
    assert v == base * q + v % base;
    if q >= 1 {
      MulAtLeast(base, q);
      assert base * q >= 2 * q;
    }
  }

  /** The last digit of a numeral, and what is before it. */
  lemma {:induction false} NumeralSplit(v: nat, base: Base, upper: bool)
    requires v > 0
    ensures v / base >= 0
    ensures Numeral(v, base, upper)
            == (if v / base > 0 then Numeral(v / base, base, upper) else []) + [DigitChar(v % base, upper)]
  {
    DivLess(v, base);
  }

  /** The number that a digit string denotes, if every character is a digit of the base. */
  function ValueOf(s: seq<byte>, base: Base): Option<nat> {
    if s == [] then Some(0)
    else
      var d := DigitValue(s[|s| - 1]);
      var v := ValueOf(s[..|s| - 1], base);
      if d.None? || d.value >= base || v.None? then None else Some(base * v.value + d.value)
  }

  lemma DigitRoundTrip(d: nat, upper: bool)
    requires d < 16
    ensures DigitValue(DigitChar(d, upper)) == Some(d)
  {
  }

  /** The numeral denotes its number. */
  lemma {:induction false} NumeralValue(v: nat, base: Base, upper: bool)
    ensures ValueOf(Numeral(v, base, upper), base) == Some(v)
  {
    DivLess(v, base);
    var s := Numeral(v, base, upper);
    DigitRoundTrip(v % base, upper);
    if v < base {
      assert s[..0] == [] && v % base == v;
      assert ValueOf([], base) == Some(0);
    } else {
      NumeralValue(v / base, base, upper);
      assert s[..|s| - 1] == Numeral(v / base, base, upper);
    }
  }

  /** No superfluous leading zero. */
  lemma {:induction false} NumeralNoLeadingZero(v: nat, base: Base, upper: bool)
    ensures Numeral(v, base, upper)[0] == 0x30 <==> v == 0
    ensures v == 0 ==> Numeral(v, base, upper) == [0x30]
  {
    DivLess(v, base);
    if v >= base {
      NumeralNoLeadingZero(v / base, base, upper);
    }
  }

  lemma DigitTable(d: nat, upper: bool)
    requires d < 16
    ensures DigitChar(d, upper) == Alphabet(upper)[d]
  {
    var u, l := "0123456789ABCDEF", "0123456789abcdef";
    assert forall i :: 0 <= i < 16 ==> u[i] as int == (if i < 10 then 0x30 + i else 0x37 + i);
    assert forall i :: 0 <= i < 16 ==> l[i] as int == (if i < 10 then 0x30 + i else 0x57 + i);
  }

  predicate IsDigit(c: byte, base: Base, upper: bool) {
    exists d: nat :: d < base && c == DigitChar(d, upper)
  }

  /** A digit string in the given letter case. */
  predicate Digits(s: seq<byte>, base: Base, upper: bool) {
    forall i :: 0 <= i < |s| ==> IsDigit(s[i], base, upper)
  }

  /** The characters of `s` are digits of the base, in the given letter case. */
  predicate InAlphabet(s: seq<byte>, base: Base, upper: bool) {
    forall i :: 0 <= i < |s| ==> s[i] in Alphabet(upper)[..base]
  }

  lemma DigitExact(c: byte, base: Base, upper: bool)
    ensures c in Alphabet(upper)[..base] <==> IsDigit(c, base, upper)
  {
    hide DigitChar, Alphabet;
    if d: nat :| d < base && c == DigitChar(d, upper) {
      DigitTable(d, upper);
      assert Alphabet(upper)[..base][d] == c;
    }
    if d :| 0 <= d < base && c == Alphabet(upper)[..base][d] {
      DigitTable(d, upper);
    }
  }

  lemma AlphabetExact(s: seq<byte>, base: Base, upper: bool)
    ensures InAlphabet(s, base, upper) <==> Digits(s, base, upper)
  {
    hide IsDigit, Alphabet;
    forall i | 0 <= i < |s| ensures s[i] in Alphabet(upper)[..base] <==> IsDigit(s[i], base, upper) {
      DigitExact(s[i], base, upper);
    }
  }

  lemma {:induction false} NumeralDigits(v: nat, base: Base, upper: bool)
    ensures Digits(Numeral(v, base, upper), base, upper)
  {
    DivLess(v, base);
    if v >= base {
      NumeralDigits(v / base, base, upper);
    }
  }

  /** It is the only digit string without leading zeros that denotes the number. */
  lemma {:induction false} NumeralUnique(s: seq<byte>, v: nat, base: Base, upper: bool)
    requires s != [] && Digits(s, base, upper) && (s[0] == 0x30 ==> |s| == 1)
    requires ValueOf(s, base) == Some(v)
    ensures s == Numeral(v, base, upper)
  {
    var n := |s| - 1;
    var d: nat :| d < base && s[n] == DigitChar(d, upper);
    DigitRoundTrip(d, upper);
    var high := ValueOf(s[..n], base).value;
    assert s == s[..n] + [s[n]];
    if n > 0 {
      PositiveValue(s[..n], base, upper);
      NumeralUnique(s[..n], high, base, upper);
    } else {
      assert s[..0] == [];
      assert high == 0;
    }
    hide ValueOf, Digits, DigitChar, DigitValue;
    NumeralStep(base, high, d, upper);
  }

  lemma {:induction false} NumeralStep(base: Base, high: nat, d: nat, upper: bool)
    requires d < base
    ensures high == 0 ==> Numeral(base * high + d, base, upper) == [DigitChar(d, upper)]
    ensures high > 0 ==> Numeral(base * high + d, base, upper) == Numeral(high, base, upper) + [DigitChar(d, upper)]
  {
    if high > 0 {
      MulAtLeast(base, high);
      DivUnique(base * high + d, base, high, d);
    }
  }

  lemma MulAtLeast(base: Base, k: nat)
    requires k > 0
    ensures base * k >= base
  {
  }

  lemma DivUnique(v: nat, base: Base, q: nat, r: nat)
    requires v == base * q + r && r < base
    ensures v / base == q && v % base == r
  {
    DivLess(v, base);
    var k := v / base;
    assert base * (q - k) == v % base - r;
    if q > k {
      MulAtLeast(base, q - k);
    } else if q < k {
      MulAtLeast(base, k - q);
    }
  }

  lemma {:induction false} PositiveValue(s: seq<byte>, base: Base, upper: bool)
    requires s != [] && Digits(s, base, upper) && s[0] != 0x30 && ValueOf(s, base).Some?
    ensures ValueOf(s, base).value > 0
  {
    var n := |s| - 1;
    if n > 0 {
      PositiveValue(s[..n], base, upper);
      MulAtLeast(base, ValueOf(s[..n], base).value);
    }
  }

  /** Decimal, as `%u` prints it. */
  function Decimal(v: nat): seq<byte> {
    Numeral(v, 10, false)
  }

  lemma {:induction false} DecimalShort(v: nat)
    requires v < 100_000
    ensures |Decimal(v)| <= 5 && NoNul(Decimal(v))
  {
    NumeralDigits(v, 10, false);
    NumeralLength(v, 5);
  }

  function Pow10(n: nat): nat {
    if n == 0 then 1 else 10 * Pow10(n - 1)
  }

  lemma {:induction false} NumeralLength(v: nat, n: nat)
    requires v < Pow10(n) && n > 0
    ensures |Decimal(v)| <= n
  {
    if v >= 10 {
      NumeralLength(v / 10, n - 1);
    }
  }

  /** `s` is a numeral of `v` in the base: digits in one letter case, no leading zero, and this value. */
  predicate PlainNumeral(s: seq<byte>, v: nat, base: Base, upper: bool) {
    s != [] && InAlphabet(s, base, upper) && (s[0] == '0' as int ==> |s| == 1) && ValueOf(s, base) == Some(v)
  }

  /** There is exactly one such numeral. */
  lemma PlainNumeralExact(s: seq<byte>, v: nat, base: Base, upper: bool)
    ensures PlainNumeral(s, v, base, upper) <==> s == Numeral(v, base, upper)
  {
    hide Numeral, InAlphabet, Digits, ValueOf;
    AlphabetExact(s, base, upper);
    NumeralValue(v, base, upper);
    NumeralDigits(v, base, upper);
    NumeralNoLeadingZero(v, base, upper);
    if PlainNumeral(s, v, base, upper) {
      NumeralUnique(s, v, base, upper);
    }
  }
}
