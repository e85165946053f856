/** The format strings of `shim_vformat` as a language: what each one prints. */
module FormatLanguage {
  import opened Words
  import opened CStrings
  import opened Numerals
  import opened ShimFormat

  // ----- what one conversion prints -----

  /** `text` is the decimal numeral of `v`, with a minus sign when it is negative. */
  predicate SignedNumeral(text: seq<byte>, v: int) {
    if v < 0 then text != [] && text[0] == '-' as int && PlainNumeral(text[1..], 0 - v, 10, false)
    else PlainNumeral(text, v, 10, false)
  }

  /** The words as which a 32-bit two's complement number is passed. */
  predicate Represents(w: u32, v: int) {
    -0x8000_0000 <= v < 0x8000_0000 && (v == w || v + 0x1_0000_0000 == w)
  }

  /** `text` is the string that ends at the first NUL behind address `a`. */
  predicate StringAtAddress(mem: seq<byte>, a: nat, text: seq<byte>) {
    NoNul(text) && a + |text| < |mem| && mem[a..a + |text|] == text && mem[a + |text|] == 0
  }

  /** The conversions that take an argument. */
  predicate TakesWord(c: byte) {
    c in Ascii("diuxXpcs")
  }

  /** The conversion character `c` with the argument word `w` prints `text`. */
  ghost predicate Prints(c: byte, w: u32, mem: seq<byte>, text: seq<byte>) {
    if c == 'd' as int || c == 'i' as int then exists v: int :: Represents(w, v) && SignedNumeral(text, v)
    else if c == 'u' as int then PlainNumeral(text, w, 10, false)
    else if c == 'x' as int then PlainNumeral(text, w, 16, false)
    else if c == 'X' as int then PlainNumeral(text, w, 16, true)
    else if c == 'p' as int then |text| >= 2 && text[..2] == Ascii("0x") && PlainNumeral(text[2..], w, 16, false)
    else if c == 'c' as int then |text| == 1 && text[0] == w % 0x100
    else if c == 's' as int then (if w == 0 then text == Ascii("(null)") else StringAtAddress(mem, w, text))
    else if c == '%' as int then text == Ascii("%")
    else text == Ascii("%") + [c]
  }

  lemma Literals()
    ensures Ascii("0x") == [0x30, 0x78] && Ascii("%") == [PERCENT]
  {
  }

  lemma SignedNumeralExact(text: seq<byte>, v: int)
    ensures SignedNumeral(text, v) <==> text == SignedDecimal(v)
  {
    hide PlainNumeral, Numeral;
    if v < 0 {
      if text != [] {
        PlainNumeralExact(text[1..], 0 - v, 10, false);
        assert text[0] == MINUS ==> text == [MINUS] + text[1..];
      }
      assert SignedDecimal(v)[1..] == Decimal(0 - v);
    } else {
      PlainNumeralExact(text, v, 10, false);
    }
  }

  lemma SignedExact(w: u32, text: seq<byte>)
    ensures (exists v: int :: Represents(w, v) && SignedNumeral(text, v)) <==> text == SignedDecimal(Signed(w))
  {
    hide SignedNumeral, SignedDecimal;
    var u: int := Signed(w);
    assert Represents(w, u) && forall v: int :: Represents(w, v) ==> v == u;
    SignedNumeralExact(text, u);
  }

  lemma StringExact(mem: seq<byte>, a: nat, text: seq<byte>)
    requires Terminated(mem, a)
    ensures StringAtAddress(mem, a, text) <==> text == CStrAt(mem, a)
  {
    hide CStrAt;
    CStrAtEnds(mem, a);
    if StringAtAddress(mem, a, text) {
      CStrAtStops(mem, a, text);
    }
  }

  lemma PointerExact(w: u32, text: seq<byte>)
    ensures |text| >= 2 && text[..2] == [0x30, 0x78] && PlainNumeral(text[2..], w, 16, false)
       <==> text == [0x30, 0x78] + Numeral(w, 16, false)
  {
    hide PlainNumeral, Numeral;
    var n := Numeral(w, 16, false);
    assert ([0x30, 0x78] + n)[2..] == n && ([0x30, 0x78] + n)[..2] == [0x30, 0x78];
    if |text| >= 2 {
      PlainNumeralExact(text[2..], w, 16, false);
      assert text == text[..2] + text[2..];
    }
  }

  /** Every conversion prints exactly the text that its character stands for. */
  lemma ConvertedExact(c: byte, w: u32, mem: seq<byte>, text: seq<byte>)
    requires c == 's' as int && w != 0 ==> Terminated(mem, w)
    ensures Prints(c, w, mem, text) <==> text == Converted(c, w, mem)
  {
    hide PlainNumeral, Numeral, SignedNumeral, SignedDecimal, Represents, CStrAt, StringAtAddress, Signed, Ascii,
         Terminated;
    Literals();
    if c == 'd' as int || c == 'i' as int {
      SignedExact(w, text);
    } else if c == 'p' as int {
      PointerExact(w, text);
    } else if c == 's' as int {
      if w != 0 {
        StringExact(mem, w, text);
      }
    } else {
      PlainNumeralExact(text, w, 10, false);
      PlainNumeralExact(text, w, 16, false);
      PlainNumeralExact(text, w, 16, true);
    }
  }

  lemma TakesWordExact(c: byte)
    ensures TakesWord(c) <==> TakesArgument(c)
  {
    var s := "diuxXpcs";
    assert forall i :: 0 <= i < 8 ==>
      s[i] as int == [0x64, 0x69, 0x75, 0x78, 0x58, 0x70, 0x63, 0x73][i];
    var t := Ascii(s);
    assert t[0] == 0x64 && t[1] == 0x69 && t[2] == 0x75 && t[3] == 0x78;
    assert t[4] == 0x58 && t[5] == 0x70 && t[6] == 0x63 && t[7] == 0x73;
  }

  // ----- formats -----

  /** A literal character, or a directive with its ignored modifiers, flags and width. */
  datatype Item = Char(c: byte) | Directive(longs: nat, flags: seq<byte>, conv: byte)

  predicate WellSpelled(t: Item) {
    match t
    case Char(c) => c != 0 && c != '%' as int
    case Directive(longs, flags, conv) =>
      && conv != 0 && !FlagChar(conv) && (flags == [] ==> conv != 'l' as int)
      && forall k :: 0 <= k < |flags| ==> FlagChar(flags[k])
  }

  /** A flag or a digit of a width. */
  predicate FlagChar(c: byte) {
    c in Ascii("-0123456789")
  }

  lemma FlagCharExact(c: byte)
    ensures FlagChar(c) <==> IsFlag(c)
  {
    var s := "-0123456789";
    assert forall i :: 0 <= i < 11 ==> s[i] as int == if i == 0 then 0x2D else 0x2F + i;
    if IsFlag(c) {
      assert c == Ascii(s)[if c == 0x2D then 0 else c - 0x2F];
    }
  }

  function Introducer(longs: nat, flags: seq<byte>): seq<byte> {
    ['%' as int] + seq(longs, _ => 'l' as int) + flags
  }

  function Spell(t: Item): seq<byte> {
    match t
    case Char(c) => [c]
    case Directive(longs, flags, conv) => Introducer(longs, flags) + [conv]
  }

  function SpellAll(items: seq<Item>): seq<byte> {
    if items == [] then [] else Spell(items[0]) + SpellAll(items[1..])
  }

  function ItemText(t: Item, args: seq<u32>, mem: seq<byte>): seq<byte> {
    match t
    case Char(c) => [c]
    case Directive(_, _, conv) => Converted(conv, if TakesArgument(conv) && args != [] then args[0] else 0, mem)
  }

  function ItemArgs(t: Item, args: seq<u32>): seq<u32> {
    if t.Directive? && TakesArgument(t.conv) && args != [] then args[1..] else args
  }

  /** What a list of items prints: modifiers, flags and widths have no effect. */
  function Meaning(items: seq<Item>, args: seq<u32>, mem: seq<byte>): seq<byte> {
    if items == [] then []
    else ItemText(items[0], args, mem) + Meaning(items[1..], ItemArgs(items[0], args), mem)
  }

  /** The end of a format: nothing, or a directive that breaks off before its conversion character. */
  ghost predicate Tail(s: seq<byte>) {
    s == [] || exists longs: nat, flags :: BreaksOff(s, longs, flags)
  }

  predicate BreaksOff(s: seq<byte>, longs: nat, flags: seq<byte>) {
    s == Introducer(longs, flags) && forall k :: 0 <= k < |flags| ==> FlagChar(flags[k])
  }

  /** Where a directive's conversion character is found. */
  lemma IntroducerEnds(f: seq<byte>, i: nat, longs: nat, flags: seq<byte>)
    requires CString(f) && i + |Introducer(longs, flags)| < |f|
    requires f[i..i + |Introducer(longs, flags)|] == Introducer(longs, flags)
    requires forall k :: 0 <= k < |flags| ==> FlagChar(flags[k])
    requires !FlagChar(f[i + |Introducer(longs, flags)|])
    requires flags == [] ==> f[i + |Introducer(longs, flags)|] != EL
    ensures f[i] == PERCENT && ConversionAt(f, i) == i + |Introducer(longs, flags)|
  {
    hide FlagChar;
    var s := Introducer(longs, flags);
    var t := f[i..i + |s|];
    FlagCharExact(f[i + |s|]);
    forall k | 0 <= k < |flags| ensures IsFlag(flags[k]) {
      FlagCharExact(flags[k]);
    }
    assert forall k :: 0 <= k < |s| ==> f[i + k] == t[k] == s[k];
    var mid := i + 1 + longs;
    assert forall k :: i + 1 <= k < mid ==> f[k] == s[k - i] == EL;
    assert forall k :: mid <= k < mid + |flags| ==> f[k] == s[k - i] == flags[k - mid];
    assert flags != [] ==> f[mid] == flags[0] && IsFlag(f[mid]);
    assert SkipLongs(f, i + 1) == mid;
    assert SkipFlags(f, mid) == mid + |flags|;
  }

  /** The front of what is left of a format. */
  lemma Front(f: seq<byte>, i: nat, s: seq<byte>, after: seq<byte>)
    requires i <= |f| && f[i..] == s + after
    ensures i + |s| <= |f| && f[i..i + |s|] == s && f[i + |s|..] == after
    ensures after != [] ==> i + |s| < |f| && f[i + |s|] == after[0]
  {
    var rest := f[i..];
    assert rest[..|s|] == s && rest[|s|..] == after;
    assert after != [] ==> rest[|s|] == after[0];
  }

  /** A spelled directive: where its conversion character is. */
  lemma DirectiveFound(f: seq<byte>, i: nat, t: Item, after: seq<byte>)
    requires CString(f) && i < |f| && t.Directive? && WellSpelled(t) && after != []
    requires f[i..] == Spell(t) + after
    ensures f[i] == PERCENT && i + 1 < |f|
    ensures var c := ConversionAt(f, i);
            c + 1 == i + |Spell(t)| < |f| && f[c] == t.conv && f[c + 1..] == after
  {
    hide Introducer, ConversionAt, FlagChar;
    var s := Introducer(t.longs, t.flags);
    Front(f, i, Spell(t), after);
    ConcatAssoc(s, [t.conv], after);
    Front(f, i, s, [t.conv] + after);
    assert ([t.conv] + after)[0] == t.conv;
    IntroducerEnds(f, i, t.longs, t.flags);
  }

  /** One spelled item: its text comes first, the rest follows. */
  lemma ItemStep(f: seq<byte>, i: nat, t: Item, after: seq<byte>, args: seq<u32>, mem: seq<byte>)
    requires CString(f) && i < |f| && Matching(f, i, args, mem)
    requires WellSpelled(t) && after != [] && f[i..] == Spell(t) + after
    ensures var n := i + |Spell(t)|;
            && i < n < |f| && f[n..] == after
            && Matching(f, n, ItemArgs(t, args), mem)
            && Ideal(f, i, args, mem) == ItemText(t, args, mem) + Ideal(f, n, ItemArgs(t, args), mem)
  {
    hide Converted, Introducer, CString, ConversionAt, TakesArgument, Accepts;
    if t.Directive? {
      DirectiveFound(f, i, t, after);
      assert t.conv != 0;
    } else {
      Front(f, i, Spell(t), after);
      assert f[i..i + 1][0] == t.c;
    }
  }

  /** Every list of items, however spelled, prints its meaning; a directive that breaks off prints nothing. */
  lemma {:induction false} FormatMeaning(f: seq<byte>, i: nat, items: seq<Item>, tail: seq<byte>, args: seq<u32>,
                                         mem: seq<byte>)
    requires CString(f) && i < |f| && Matching(f, i, args, mem) && Tail(tail)
    requires forall k :: 0 <= k < |items| ==> WellSpelled(items[k])
    requires f[i..] == SpellAll(items) + (tail + [0])
    ensures Ideal(f, i, args, mem) == Meaning(items, args, mem)
    decreases |items|
  {
    hide Converted, Introducer, Spell, WellSpelled, Matching, CString, ConversionAt, ItemText, ItemArgs;
    if items == [] {
      assert f[i..] == tail + [0];
      TailPrintsNothing(f, i, tail, args, mem);
    } else {
      var after := SpellAll(items[1..]) + (tail + [0]);
      ConcatAssoc(Spell(items[0]), SpellAll(items[1..]), tail + [0]);
      ItemStep(f, i, items[0], after, args, mem);
      FormatMeaning(f, i + |Spell(items[0])|, items[1..], tail, ItemArgs(items[0], args), mem);
    }
  }

  lemma TailPrintsNothing(f: seq<byte>, i: nat, tail: seq<byte>, args: seq<u32>, mem: seq<byte>)
    requires CString(f) && i < |f| && Matching(f, i, args, mem) && Tail(tail) && f[i..] == tail + [0]
    ensures Ideal(f, i, args, mem) == []
  {
    hide Converted, Introducer;
    Front(f, i, tail, [0]);
    if tail != [] {
      var longs: nat, flags :| BreaksOff(tail, longs, flags);
      FlagCharExact(0);
      IntroducerEnds(f, i, longs, flags);
    }
  }

  // ----- whole formats -----

  /** The words that are left for the items behind `t`. */
  function WordsAfter(t: Item, args: seq<u32>): seq<u32> {
    if t.Directive? && TakesWord(t.conv) && args != [] then args[1..] else args
  }

  /** Item `t` prints `text` with the words `args`. */
  ghost predicate ItemPrints(t: Item, args: seq<u32>, mem: seq<byte>, text: seq<byte>) {
    match t
    case Char(c) => text == [c]
    case Directive(_, _, conv) =>
      if TakesWord(conv) then args != [] && Prints(conv, args[0], mem, text) else Prints(conv, 0, mem, text)
  }

  /** The items print `texts`, one each, taking words from the front of `args`. */
  ghost predicate PrintsAll(items: seq<Item>, args: seq<u32>, mem: seq<byte>, texts: seq<seq<byte>>) {
    if items == [] then texts == []
    else
      && texts != [] && ItemPrints(items[0], args, mem, texts[0])
      && PrintsAll(items[1..], WordsAfter(items[0], args), mem, texts[1..])
  }

  function Joined(texts: seq<seq<byte>>): seq<byte> {
    if texts == [] then [] else texts[0] + Joined(texts[1..])
  }

  lemma ItemExact(t: Item, args: seq<u32>, mem: seq<byte>, text: seq<byte>)
    requires WellSpelled(t)
    requires t.Directive? && TakesArgument(t.conv) ==> args != [] && Accepts(t.conv, args[0], mem)
    ensures ItemPrints(t, args, mem, text) <==> text == ItemText(t, args, mem)
    ensures WordsAfter(t, args) == ItemArgs(t, args)
  {
    hide Prints, Converted, TakesWord, TakesArgument, Terminated, WellSpelled;
    if t.Directive? {
      TakesWordExact(t.conv);
      StringTakesWord();
      ConvertedExact(t.conv, if TakesArgument(t.conv) then args[0] else 0, mem, text);
    }
  }

  lemma StringTakesWord()
    ensures TakesArgument('s' as int)
  {
  }

  /** The words suffice for the front item. */
  lemma ItemMatches(f: seq<byte>, i: nat, t: Item, after: seq<byte>, args: seq<u32>, mem: seq<byte>)
    requires CString(f) && i < |f| && Matching(f, i, args, mem)
    requires WellSpelled(t) && after != [] && f[i..] == Spell(t) + after
    ensures t.Directive? && TakesArgument(t.conv) ==> args != [] && Accepts(t.conv, args[0], mem)
  {
    hide Introducer, CString, ConversionAt, TakesArgument, Accepts;
    if t.Directive? {
      DirectiveFound(f, i, t, after);
      assert t.conv != 0;
    }
  }

  /** The unbounded output of a format is one text per item, each the one that the item prints. */
  lemma {:induction false} FormatPrints(f: seq<byte>, i: nat, items: seq<Item>, tail: seq<byte>, args: seq<u32>,
                                        mem: seq<byte>) returns (texts: seq<seq<byte>>)
    requires CString(f) && i < |f| && Matching(f, i, args, mem) && Tail(tail)
    requires forall k :: 0 <= k < |items| ==> WellSpelled(items[k])
    requires f[i..] == SpellAll(items) + (tail + [0])
    ensures PrintsAll(items, args, mem, texts) && Ideal(f, i, args, mem) == Joined(texts)
    decreases |items|
  {
    hide Ideal, Introducer, Spell, WellSpelled, Matching, CString, ConversionAt, ItemText, ItemArgs, ItemPrints,
         WordsAfter, TakesArgument, Accepts;
    if items == [] {
      assert f[i..] == tail + [0];
      TailPrintsNothing(f, i, tail, args, mem);
      texts := [];
    } else {
      var after := SpellAll(items[1..]) + (tail + [0]);
      ConcatAssoc(Spell(items[0]), SpellAll(items[1..]), tail + [0]);
      ItemStep(f, i, items[0], after, args, mem);
      ItemMatches(f, i, items[0], after, args, mem);
      ItemExact(items[0], args, mem, ItemText(items[0], args, mem));
      var rest := FormatPrints(f, i + |Spell(items[0])|, items[1..], tail, ItemArgs(items[0], args), mem);
      texts := [ItemText(items[0], args, mem)] + rest;
      assert texts[1..] == rest;
    }
  }
}
