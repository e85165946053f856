/** Encoding a base-relocation directory, and parsing it back. */
module RelocRoundTrip {
  import opened Words
  import opened PeImage
  import opened PeRelocs

  /** A relocation as it stands in a block: its 4-bit type and its page offset. */
  datatype Entry = Entry(kind: nat, offset: nat)

  datatype PageBlock = PageBlock(pageRva: u32, entries: seq<Entry>)

  predicate ValidEntries(es: seq<Entry>) {
    forall i :: 0 <= i < |es| ==> es[i].kind < 16 && es[i].offset < 0x1000
  }

  predicate ValidBlocks(bs: seq<PageBlock>) {
    forall i :: 0 <= i < |bs| ==>
      bs[i].entries != [] && ValidEntries(bs[i].entries) && 8 + 2 * |bs[i].entries| < MOD32
  }

  function EncodeEntries(es: seq<Entry>): (b: seq<byte>)
    requires ValidEntries(es)
    ensures |b| == 2 * |es|
  {
    if es == [] then [] else Bytes16(es[0].kind * 0x1000 + es[0].offset) + EncodeEntries(es[1..])
  }

  function EncodeBlock(b: PageBlock): (s: seq<byte>)
    requires ValidBlocks([b])
    ensures |s| == 8 + 2 * |b.entries|
  {
    assert b == [b][0];
    Bytes32(b.pageRva) + Bytes32(8 + 2 * |b.entries|) + EncodeEntries(b.entries)
  }

  function Encode(bs: seq<PageBlock>): seq<byte>
    requires ValidBlocks(bs)
  {
    if bs == [] then [] else EncodeBlock(bs[0]) + Encode(bs[1..])
  }

  /** The addresses that the HIGHLOW entries of a page name, in order. */
  function Addresses(pageRva: u32, es: seq<Entry>): seq<u32>
    requires ValidEntries(es)
  {
    if es == [] then []
    else (if es[0].kind == 3 then [Add32(pageRva, es[0].offset)] else []) + Addresses(pageRva, es[1..])
  }

  function AllAddresses(bs: seq<PageBlock>): seq<u32>
    requires ValidBlocks(bs)
  {
    if bs == [] then [] else Addresses(bs[0].pageRva, bs[0].entries) + AllAddresses(bs[1..])
  }

  lemma HalfOfBytes16(raw: seq<byte>, o: nat, v: u16)
    requires o + 2 <= |raw| && raw[o..o + 2] == Bytes16(v)
    ensures Half(raw, o) == v
  {
    var t := raw[o..o + 2];
    assert t[0] == raw[o] && t[1] == raw[o + 1];
  }

  lemma EncodeEntriesStep(es: seq<Entry>, i: nat)
    requires ValidEntries(es) && i < |es|
    ensures EncodeEntries(es[i..]) == Bytes16(es[i].kind * 0x1000 + es[i].offset) + EncodeEntries(es[i + 1..])
  {
    assert es[i..][0] == es[i] && es[i..][1..] == es[i + 1..];
  }

  lemma AddressesStep(es: seq<Entry>, i: nat, pageRva: u32)
    requires ValidEntries(es) && i < |es|
    ensures Addresses(pageRva, es[i..])
         == (if es[i].kind == 3 then [Add32(pageRva, es[i].offset)] else [])
            + Addresses(pageRva, es[i + 1..])
  {
    assert es[i..][0] == es[i] && es[i..][1..] == es[i + 1..];
  }

  /** One encoded entry, read back, and the encoding of those behind it. */
  lemma DecodeEntry(raw: seq<byte>, p: nat, i: nat, es: seq<Entry>)
    requires ValidEntries(es) && i < |es| && p + 2 * |es| <= |raw|
    requires raw[p + 2 * i..p + 2 * |es|] == EncodeEntries(es[i..])
    ensures Half(raw, p + 2 * i) == es[i].kind * 0x1000 + es[i].offset
    ensures raw[p + 2 * (i + 1)..p + 2 * |es|] == EncodeEntries(es[i + 1..])
  {
    hide Bytes16, EncodeEntries, Half;
    EncodeEntriesStep(es, i);
    SplitSlice(raw, p + 2 * i, Bytes16(es[i].kind * 0x1000 + es[i].offset), EncodeEntries(es[i + 1..]));
    HalfOfBytes16(raw, p + 2 * i, es[i].kind * 0x1000 + es[i].offset);
  }

  /** Type and offset are the two parts of an entry. */
  lemma EntryParts(kind: nat, offset: nat)
    requires offset < 0x1000
    ensures (kind * 0x1000 + offset) / 0x1000 == kind && (kind * 0x1000 + offset) % 0x1000 == offset
  {
  }

  lemma {:induction false} DecodeEntries(raw: seq<byte>, p: nat, i: nat, es: seq<Entry>, pageRva: u32)
    requires ValidEntries(es) && i <= |es| && p + 2 * |es| <= |raw|
    requires raw[p + 2 * i..p + 2 * |es|] == EncodeEntries(es[i..])
    ensures HighLows(raw, p, i, |es|, pageRva) == Addresses(pageRva, es[i..])
    decreases |es| - i
  {
    if i < |es| {
      hide Bytes16, EncodeEntries, Half, Addresses, Add32;
      DecodeEntry(raw, p, i, es);
      EntryParts(es[i].kind, es[i].offset);
      AddressesStep(es, i, pageRva);
      DecodeEntries(raw, p, i + 1, es, pageRva);
    } else {
      assert es[i..] == [];
    }
  }

  /** The parts of an encoded block. */
  lemma BlockPieces(raw: seq<byte>, p: nat, b: PageBlock)
    requires ValidBlocks([b]) && p + |EncodeBlock(b)| <= |raw| && raw[p..p + |EncodeBlock(b)|] == EncodeBlock(b)
    ensures ValidEntries(b.entries) && 8 + 2 * |b.entries| < MOD32
    ensures raw[p..p + 4] == Bytes32(b.pageRva) && raw[p + 4..p + 8] == Bytes32(8 + 2 * |b.entries|)
    ensures raw[p + 8..p + 8 + 2 * |b.entries|] == EncodeEntries(b.entries)
  {
    hide Bytes32, EncodeEntries;
    assert b == [b][0];
    var h1, h2, t := Bytes32(b.pageRva), Bytes32(8 + 2 * |b.entries|), EncodeEntries(b.entries);
    ConcatAssoc(h1, h2, t);
    SplitSlice(raw, p, h1, h2 + t);
    SplitSlice(raw, p + 4, h2, t);
  }

  /** One encoded block, read back at its place in the directory. */
  lemma DecodeBlock(g: Geometry, raw: seq<byte>, rva: u32, p: nat, b: PageBlock)
    requires |raw| == g.rawSize && ValidBlocks([b])
    requires p + |EncodeBlock(b)| <= |raw| && raw[p..p + |EncodeBlock(b)|] == EncodeBlock(b)
    requires Translate(g, rva, 8) == Some(p) && 8 + 2 * |b.entries| < MOD32
    ensures BlockAt(g, raw, rva) == Ok(Block(b.pageRva, 8 + 2 * |b.entries|))
    ensures ValidEntries(b.entries)
    ensures HighLows(raw, p + 8, 0, |b.entries|, b.pageRva) == Addresses(b.pageRva, b.entries)
  {
    hide Bytes32, EncodeEntries, Word, HighLows, Addresses, Translate, ValidBlocks, ValidEntries;
    BlockPieces(raw, p, b);
    WordEncodes(raw, p, b.pageRva);
    WordEncodes(raw, p + 4, 8 + 2 * |b.entries|);
    assert b.entries[0..] == b.entries;
    DecodeEntries(raw, p + 8, 0, b.entries, b.pageRva);
  }

  /** The blocks that pass 1 finds in an encoded directory. */
  function Headers(bs: seq<PageBlock>): (hs: seq<Block>)
    requires ValidBlocks(bs)
    ensures |hs| == |bs|
  {
    if bs == [] then [] else [Block(bs[0].pageRva, 8 + 2 * |bs[0].entries|)] + Headers(bs[1..])
  }

  /** The whole directory occupies one translated range, and from `done` on it encodes `bs`. */
  predicate Holds(g: Geometry, raw: seq<byte>, dirRva: u32, dirSize: u32, done: nat, bs: seq<PageBlock>)
    requires |raw| == g.rawSize && ValidBlocks(bs)
  {
    && WellFormed(g) && RawInFile(g)
    && Translate(g, dirRva, dirSize).Some?
    && done + |Encode(bs)| == dirSize
    && var p := Translate(g, dirRva, dirSize).value; raw[p + done..p + dirSize] == Encode(bs)
  }

  lemma HoldsStep(g: Geometry, raw: seq<byte>, dirRva: u32, dirSize: u32, done: nat, bs: seq<PageBlock>)
    requires |raw| == g.rawSize && ValidBlocks(bs) && bs != []
    requires Holds(g, raw, dirRva, dirSize, done, bs)
    ensures var p, n := Translate(g, dirRva, dirSize).value, |bs[0].entries|;
      && ValidBlocks([bs[0]]) && done + 8 + 2 * n <= dirSize
      && raw[p + done..p + done + 8 + 2 * n] == EncodeBlock(bs[0])
      && Holds(g, raw, dirRva, dirSize, done + 8 + 2 * n, bs[1..])
      && Add32(dirRva, done) == dirRva + done && Add32(Add32(dirRva, done), 8) == dirRva + done + 8
      && Translate(g, dirRva + done, 8) == Some(p + done)
      && Translate(g, dirRva + done + 8, 2 * n) == Some(p + done + 8)
  {
    var p, n := Translate(g, dirRva, dirSize).value, |bs[0].entries|;
    var whole, h, t := Encode(bs), EncodeBlock(bs[0]), Encode(bs[1..]);
    assert whole == h + t && ValidBlocks([bs[0]]);
    SplitSlice(raw, p + done, h, t);
    hide Encode, EncodeBlock;
    TranslateAgrees(g, dirRva, dirSize, done, 8);
    TranslateAgrees(g, dirRva, dirSize, done + 8, 2 * n);
  }

  /** Pass 1 on one encoded block. */
  lemma BlocksStep(g: Geometry, raw: seq<byte>, dirRva: u32, dirSize: u32, done: u32, bs: seq<PageBlock>,
                   seen: seq<Block>)
    requires |raw| == g.rawSize && ValidBlocks(bs) && bs != []
    requires Holds(g, raw, dirRva, dirSize, done, bs) && 8 * |seen| + 2 * TotalEntries(seen) <= done
    ensures var size := 8 + 2 * |bs[0].entries|;
      && done + size <= dirSize && ValidBlocks(bs[1..])
      && Holds(g, raw, dirRva, dirSize, done + size, bs[1..])
      && BlocksFrom(g, raw, dirRva, dirSize, done, seen)
         == BlocksFrom(g, raw, dirRva, dirSize, done + size, seen + [Block(bs[0].pageRva, size)])
  {
    hide Translate, Add32, BlockAt, Holds, ValidEntries, HighLows, EncodeBlock, TotalEntries;
    HoldsStep(g, raw, dirRva, dirSize, done, bs);
    HoldsTranslated(g, raw, dirRva, dirSize, done, bs);
    NoCarry(done, 8 + 2 * |bs[0].entries|);
    DecodeBlock(g, raw, dirRva + done, Translate(g, dirRva, dirSize).value + done, bs[0]);
  }

  lemma HoldsTranslated(g: Geometry, raw: seq<byte>, dirRva: u32, dirSize: u32, done: nat, bs: seq<PageBlock>)
    requires |raw| == g.rawSize && ValidBlocks(bs) && Holds(g, raw, dirRva, dirSize, done, bs)
    ensures Translate(g, dirRva, dirSize).Some?
    ensures Translate(g, dirRva, dirSize).value + dirSize <= |raw|
  {
  }

  lemma BlocksEnd(g: Geometry, raw: seq<byte>, dirRva: u32, dirSize: u32, done: u32, seen: seq<Block>)
    requires |raw| == g.rawSize && Holds(g, raw, dirRva, dirSize, done, []) && |seen| <= ROUNDS
    ensures BlocksFrom(g, raw, dirRva, dirSize, done, seen) == Ok(seen + Headers([]))
  {
    assert seen + Headers([]) == seen;
  }

  lemma {:induction false} RoundTripFrom(g: Geometry, raw: seq<byte>, dirRva: u32, dirSize: u32, done: u32,
                                         bs: seq<PageBlock>, seen: seq<Block>)
    requires |raw| == g.rawSize && ValidBlocks(bs)
    requires Holds(g, raw, dirRva, dirSize, done, bs) && 8 * |seen| + 2 * TotalEntries(seen) <= done
    ensures BlocksFrom(g, raw, dirRva, dirSize, done, seen) == Ok(seen + Headers(bs))
    decreases |bs|
  {
    hide BlocksFrom, Holds, TotalEntries;
    if bs == [] {
      BlocksEnd(g, raw, dirRva, dirSize, done, seen);
    } else {
      var b, rest := Block(bs[0].pageRva, 8 + 2 * |bs[0].entries|), bs[1..];
      BlocksStep(g, raw, dirRva, dirSize, done, bs, seen);
      TotalEntriesSnoc(seen, b);
      RoundTripFrom(g, raw, dirRva, dirSize, done + b.size, rest, seen + [b]);
      ConcatAssoc(seen, [b], Headers(rest));
    }
  }

  /** Pass 2 on one encoded block. */
  lemma EntriesStep(g: Geometry, raw: seq<byte>, dirRva: u32, dirSize: u32, done: u32, bs: seq<PageBlock>,
                    all: seq<Block>, k: nat, acc: seq<u32>)
    requires |raw| == g.rawSize && ValidBlocks(bs) && bs != []
    requires Holds(g, raw, dirRva, dirSize, done, bs)
    requires k < |all| && all[k] == Block(bs[0].pageRva, 8 + 2 * |bs[0].entries|)
    ensures ValidEntries(bs[0].entries)
    ensures var size := 8 + 2 * |bs[0].entries|;
      && done + size <= dirSize && ValidBlocks(bs[1..])
      && Holds(g, raw, dirRva, dirSize, done + size, bs[1..])
      && EntriesFrom(g, raw, dirRva, done, all, k, acc)
         == EntriesFrom(g, raw, dirRva, done + size, all, k + 1, acc + Addresses(bs[0].pageRva, bs[0].entries))
  {
    hide Translate, BlockAt, HighLows, Holds, EncodeBlock, Addresses, Add32, ValidEntries;
    HoldsStep(g, raw, dirRva, dirSize, done, bs);
    HoldsTranslated(g, raw, dirRva, dirSize, done, bs);
    NoCarry(done, 8 + 2 * |bs[0].entries|);
    DecodeBlock(g, raw, dirRva + done, Translate(g, dirRva, dirSize).value + done, bs[0]);
  }

  lemma NoCarry(a: u32, b: u32)
    requires a + b < MOD32
    ensures Add32(a, b) == a + b
  {
  }

  lemma EntriesEnd(g: Geometry, raw: seq<byte>, dirRva: u32, consumed: u32, all: seq<Block>, acc: seq<u32>)
    requires |raw| == g.rawSize
    ensures EntriesFrom(g, raw, dirRva, consumed, all, |all|, acc) == Ok(acc + AllAddresses([]))
  {
    assert acc + AllAddresses([]) == acc;
  }

  /** What is left of the headers after the first one. */
  lemma HeadersLeft(bs: seq<PageBlock>, all: seq<Block>, k: nat)
    requires ValidBlocks(bs) && bs != [] && k < |all| && all[k..] == Headers(bs)
    ensures all[k] == Block(bs[0].pageRva, 8 + 2 * |bs[0].entries|)
    ensures all[k + 1..] == Headers(bs[1..])
  {
    assert all[k..][0] == all[k] && all[k + 1..] == all[k..][1..];
  }

  lemma {:induction false} EntriesRoundTrip(g: Geometry, raw: seq<byte>, dirRva: u32, dirSize: u32, done: u32,
                                            bs: seq<PageBlock>,
                                            all: seq<Block>, k: nat, acc: seq<u32>)
    requires |raw| == g.rawSize && ValidBlocks(bs)
    requires Holds(g, raw, dirRva, dirSize, done, bs)
    requires k + |bs| == |all| && all[k..] == Headers(bs)
    ensures EntriesFrom(g, raw, dirRva, done, all, k, acc) == Ok(acc + AllAddresses(bs))
    decreases |bs|
  {
    hide EntriesFrom, Holds, Addresses, Headers, ValidEntries;
    if bs == [] {
      EntriesEnd(g, raw, dirRva, done, all, acc);
    } else {
      HeadersLeft(bs, all, k);
      EntriesStep(g, raw, dirRva, dirSize, done, bs, all, k, acc);
      var rest, here := bs[1..], Addresses(bs[0].pageRva, bs[0].entries);
      EntriesRoundTrip(g, raw, dirRva, dirSize, done + 8 + 2 * |bs[0].entries|, rest, all, k + 1, acc + here);
      ConcatAssoc(acc, here, AllAddresses(rest));
    }
  }

  lemma {:induction false} HeadersCount(bs: seq<PageBlock>)
    requires ValidBlocks(bs) && bs != []
    ensures TotalEntries(Headers(bs)) > 0
  {
    var hs := Headers(bs);
    assert hs[..1] == [hs[0]] && [hs[0]][..0] == [];
    TotalEntriesUpTo(hs, 0);
  }

  /** Relocation round trip: a directory encoded from page blocks of at least one
      entry each (HIGHLOW, ABSOLUTE padding or any other type) inside one raw
      range parses to exactly the HIGHLOW addresses, in order. */
  lemma {:induction false} RelocsRoundTrip(g: Geometry, raw: seq<byte>, dirRva: u32, bs: seq<PageBlock>)
    requires |raw| == g.rawSize && ValidBlocks(bs) && |Encode(bs)| < MOD32
    requires dirRva != 0
    requires Holds(g, raw, dirRva, |Encode(bs)|, 0, bs)
    ensures Relocs(g, raw, dirRva, |Encode(bs)|) == Ok(AllAddresses(bs))
  {
    if bs != [] {
      RoundTripFrom(g, raw, dirRva, |Encode(bs)|, 0, bs, []);
      assert [] + Headers(bs) == Headers(bs);
      HeadersCount(bs);
      assert Headers(bs)[0..] == Headers(bs);
      EntriesRoundTrip(g, raw, dirRva, |Encode(bs)|, 0, bs, Headers(bs), 0, []);
      assert [] + AllAddresses(bs) == AllAddresses(bs);
    }
  }
}
