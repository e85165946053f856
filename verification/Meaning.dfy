/** What a converted file means: the memory its loading builds, against the PE image. */
module Meaning {
  import opened Words
  import opened Elf32
  import opened ElfWriter
  import opened PeImage
  import opened Layout
  import opened Shim
  import opened StubPatch
  import opened Pipeline

  // ----- the PE part of memory -----

  /** Address range and data of the segment of section `k`. */
  predicate ShowsSection(seg: Seg, g: Geometry, raw: seq<byte>, k: nat)
    requires k < |g.sections|
  {
    var s := g.sections[k];
    && seg.vaddr == g.imageBase + s.rva && seg.memsz == s.Extent() && seg.filesz == s.fsize
    && (seg.filesz > 0 ==> seg.data == Some(View(raw, s.fileOff)))
  }

  lemma PeAddress(g: Geometry, raw: seq<byte>, k: nat)
    requires WellFormed(g) && k < |g.sections|
    ensures ShowsSection(PeSegments(g, raw, |g.sections|)[k + 1], g, raw, k)
  {
    PeSegmentAt(g, raw, |g.sections|, k);
    hide PeSegments, NextOffset;
    assert g.sections[k].rva + g.sections[k].Extent() <= g.sizeOfImage;
  }

  lemma PeAddresses(g: Geometry, raw: seq<byte>)
    requires WellFormed(g)
    ensures var segs := PeSegments(g, raw, |g.sections|);
      && segs[0] == HeaderSegment(g, raw)
      && forall k :: 0 < k < |segs| ==> ShowsSection(segs[k], g, raw, k - 1)
  {
    if |g.sections| > 0 {
      PeSegmentAt(g, raw, |g.sections|, 0);
    }
    hide WellFormed, ShowsSection, PeSegments;
    forall k | 0 < k < |g.sections| + 1
      ensures ShowsSection(PeSegments(g, raw, |g.sections|)[k], g, raw, k - 1)
    {
      PeAddress(g, raw, k - 1);
    }
  }

  /** The PE segments' memory is the PE image at ImageBase. */
  lemma PeMemory(g: Geometry, raw: seq<byte>, a: nat)
    requires WellFormed(g) && RawBacked(g) && |raw| == g.rawSize
    requires AllInBuffer(PeSegments(g, raw, |g.sections|))
    ensures SegMemory(PeSegments(g, raw, |g.sections|), a)
         == if a < g.imageBase then None else PeByte(g, raw, a - g.imageBase)
  {
    hide PeSegments, RawBacked, RawDisjoint;
    var segs := PeSegments(g, raw, |g.sections|);
    PeAddresses(g, raw);
    var r := a - g.imageBase;
    if a < g.imageBase {
      SegMemoryNone(segs, a);
    } else if r < g.sizeOfHeaders {
      SegMemoryAt(segs, 0, a);
    } else if k :| 0 <= k < |g.sections| && g.sections[k].rva <= r < g.sections[k].rva + g.sections[k].Extent() {
      PeMemoryInSection(g, raw, k, a);
    } else {
      SegMemoryNone(segs, a);
      SectionPosNone(g, 0, r);
    }
  }

  lemma PeMemoryInSection(g: Geometry, raw: seq<byte>, k: nat, a: nat)
    requires WellFormed(g) && RawBacked(g) && |raw| == g.rawSize && k < |g.sections|
    requires AllInBuffer(PeSegments(g, raw, |g.sections|))
    requires g.sections[k].rva <= a - g.imageBase < g.sections[k].rva + g.sections[k].Extent()
    ensures SegMemory(PeSegments(g, raw, |g.sections|), a) == PeByte(g, raw, a - g.imageBase)
  {
    hide PeSegments, RawBacked, RawDisjoint, PeByte, SegByte;
    var segs := PeSegments(g, raw, |g.sections|);
    PeAddresses(g, raw);
    SectionPosAt(g, 0, k, a - g.imageBase);
    forall j | k + 1 < j < |segs|
      ensures !(segs[j].vaddr <= a < segs[j].vaddr + segs[j].memsz)
    {
      assert g.sections[k].rva + g.sections[k].Extent() <= g.sections[j - 1].rva;
    }
    SegMemoryAt(segs, k + 1, a);
    SectionByte(g, raw, k, segs[k + 1], a);
  }

  lemma SectionByte(g: Geometry, raw: seq<byte>, k: nat, seg: Seg, a: nat)
    requires RawBacked(g) && |raw| == g.rawSize && k < |g.sections| && InBuffer(seg)
    requires ShowsSection(seg, g, raw, k)
    requires var s := g.sections[k];
      && g.sizeOfHeaders <= s.rva <= a - g.imageBase < s.rva + s.Extent()
      && FilePos(g, a - g.imageBase)
         == if a - g.imageBase - s.rva < s.fsize then Some(s.fileOff + (a - g.imageBase - s.rva)) else None
    ensures SegByte(seg, a) == PeByte(g, raw, a - g.imageBase)
  {
    hide FilePos;
    var s := g.sections[k];
    assert s.fileOff + s.fsize <= g.rawSize;
    assert Mapped(g, a - g.imageBase);
  }

  /** An image that ends below the shim's range shows nothing in it. */
  lemma PeEndsBelowShim(g: Geometry, raw: seq<byte>, a: nat)
    requires WellFormed(g)
    requires Add32(g.imageBase, g.sizeOfImage) <= SHIM_MIN_BASE <= a
    requires AllInBuffer(PeSegments(g, raw, |g.sections|))
    ensures SegMemory(PeSegments(g, raw, |g.sections|), a) == None
  {
    PeAddresses(g, raw);
    hide PeSegments;
    SegMemoryNone(PeSegments(g, raw, |g.sections|), a);
  }

  // ----- the patched bytes -----

  /** Slots lie on file-backed bytes. */
  lemma {:induction false} SlotBacked(shim: EmbeddedShim, g: Geometry, refs: seq<ImportRef>, r: nat)
    requires WellFormed(g) && RawInFile(g)
    requires RefsError(shim, g, refs).None?
    requires SlotByte(Slots(shim, refs), r).Some?
    ensures FilePos(g, r).Some?
    decreases |refs|
  {
    if refs != [] {
      assert Slots(shim, refs)[1..] == Slots(shim, refs[1..]);
    }
    if SlotByte(Slots(shim, refs[1..]), r).Some? {
      SlotBacked(shim, g, refs[1..], r);
    } else {
      TranslateAgrees(g, refs[0].iatRva, 4, r - refs[0].iatRva, 1);
    }
  }

  lemma FilePosInRaw(g: Geometry, r: nat)
    requires RawBacked(g) && FilePos(g, r).Some?
    ensures FilePos(g, r).value < g.rawSize
  {
    if r >= g.sizeOfHeaders {
      var k := SectionPosFrom(g, 0, r);
    }
  }

  /** The byte of the PE image at RVA `r` once its import slots hold shim addresses. */
  function LinkedPeByte(p: LoadedPe, shim: EmbeddedShim, r: nat): Option<byte> {
    var slot := SlotByte(Slots(shim, p.Refs()), r);
    if slot.Some? then slot else PeByte(p.g, p.raw, r)
  }

  lemma PatchedPeByte(p: LoadedPe, shim: EmbeddedShim, r: nat)
    requires WellFormed(p.g) && RefsError(shim, p.g, p.Refs()).None?
    ensures PeByte(p.g, Patched(p, shim), r) == LinkedPeByte(p, shim, r)
  {
    if FilePos(p.g, r).Some? {
      FilePosInRaw(p.g, r);
      PatchedAt(shim, p.g, p.Refs(), p.raw, r);
    } else if SlotByte(Slots(shim, p.Refs()), r).Some? {
      SlotBacked(shim, p.g, p.Refs(), r);
    }
  }

  // ----- the shim part -----

  /** The shim's own memory once it has been told the PE entry point. */
  function ShimByte(p: LoadedPe, shim: EmbeddedShim, a: nat): Option<byte> {
    Memory(PokedBlob(shim, p.EntryVa()), Loads(shim.blob), a)
  }

  lemma ShimMemory(p: LoadedPe, shim: EmbeddedShim, a: nat)
    requires AllInBuffer(ShimPart(p, shim))
    ensures SegMemory(ShimPart(p, shim), a) == ShimByte(p, shim, a)
    ensures a < SHIM_MIN_BASE ==> ShimByte(p, shim, a) == None
  {
    var ps, poked := Loads(shim.blob), PokedBlob(shim, p.EntryVa());
    ShimSegmentsCarried(ps, poked, NextFree(PePart(p, shim)));
    MemoryOfSegments(poked, ps, ShimPart(p, shim), a);
    if a < SHIM_MIN_BASE {
      MemoryNone(poked, ps, a);
    }
  }

  // ----- meaning preserved -----

  /** What the conversion assumes of an image without checking it, and the base that the parser checks. */
  predicate Convertible(p: LoadedPe) {
    WellFormed(p.g) && p.g.imageBase != 0
  }

  /** The intended memory: the linked PE image at ImageBase, the shim in its own range. */
  function IntendedByte(p: LoadedPe, shim: EmbeddedShim, a: nat): Option<byte> {
    if a >= SHIM_MIN_BASE then ShimByte(p, shim, a)
    else if a < p.g.imageBase then None
    else LinkedPeByte(p, shim, a - p.g.imageBase)
  }

  lemma PePartMemory(p: LoadedPe, shim: EmbeddedShim, a: nat)
    requires WellFormed(p.g) && Rejects(p, shim).None? && AllInBuffer(PePart(p, shim))
    ensures SegMemory(PePart(p, shim), a)
         == if p.g.imageBase <= a < SHIM_MIN_BASE then LinkedPeByte(p, shim, a - p.g.imageBase) else None
  {
    hide LinkedPeByte, PeSegments, SegMemory, PeByte, Patched, RawBacked, WellFormed;
    PeMemory(p.g, Patched(p, shim), a);
    if a >= SHIM_MIN_BASE {
      PeEndsBelowShim(p.g, Patched(p, shim), a);
    } else if a >= p.g.imageBase {
      PatchedPeByte(p, shim, a - p.g.imageBase);
    }
  }

  lemma FinalMemory(p: LoadedPe, shim: EmbeddedShim, a: nat)
    requires WellFormed(p.g) && Rejects(p, shim).None?
    ensures SegMemory(FinalSegments(p, shim), a) == IntendedByte(p, shim, a)
  {
    hide WellFormed, Rejects, PePart, ShimPart, LinkedPeByte, ShimByte, SegMemory, AllInBuffer;
    PePartInBuffer(p, shim);
    ShimPartInBuffer(p, shim);
    PePartMemory(p, shim, a);
    ShimMemory(p, shim, a);
    SegMemoryConcat(PePart(p, shim), ShimPart(p, shim), a);
  }

  /** The whole conversion preserves meaning: at every address the loaded ELF
      shows the PE image's byte, except for shim addresses in import slots. */
  lemma {:induction false} MeaningPreserved(p: LoadedPe, shim: EmbeddedShim, a: nat)
    requires Convertible(p) && Rejects(p, shim).None?
    ensures Convert(p, shim).Ok?
    ensures LoadedByte(Convert(p, shim).value, a) == IntendedByte(p, shim, a)
  {
    hide WellFormed, Rejects, IntendedByte, FitsFile, FinalSegments, Symbol, WriteElf, LoadedByte, SegMemory;
    FilesFit(p, shim);
    SymbolsFound(p, shim);
    ConversionSucceeds(p, shim);
    WriteThenLoad(Symbol(shim, START).value, FinalSegments(p, shim), a);
    FinalMemory(p, shim, a);
  }

  // ----- import slots -----

  /** No slot patched after slot `k` touches it. */
  predicate LastWriter(refs: seq<ImportRef>, k: nat)
    requires k < |refs|
  {
    forall m :: k < m < |refs| ==> refs[m].iatRva + 4 <= refs[k].iatRva || refs[k].iatRva + 4 <= refs[m].iatRva
  }

  lemma SlotByteIntended(p: LoadedPe, shim: EmbeddedShim, k: nat, i: nat)
    requires WellFormed(p.g) && Rejects(p, shim).None?
    requires k < |p.Refs()| && LastWriter(p.Refs(), k) && i < 4
    ensures var ref := p.Refs()[k];
      && Resolve(shim, ref.dll, ref.fn).Some?
      && IntendedByte(p, shim, p.g.imageBase + ref.iatRva + i) == Some(Bytes32(Resolve(shim, ref.dll, ref.fn).value)[i])
  {
    var refs := p.Refs();
    AllResolved(shim, p.g, refs);
    assert refs[k].iatRva + 4 <= p.g.sizeOfImage by {
      RvaInImage(p.g, refs[k].iatRva, 4);
    }
    assert p.g.imageBase + p.g.sizeOfImage <= SHIM_MIN_BASE;
    hide RefsError, Bytes32, PeByte, WellFormed, Rejects, Resolve;
    SlotHolds(Slots(shim, refs), k, i);
  }

  lemma SlotByteLoaded(p: LoadedPe, shim: EmbeddedShim, k: nat, i: nat)
    requires Convertible(p) && Rejects(p, shim).None?
    requires k < |p.Refs()| && LastWriter(p.Refs(), k) && i < 4
    ensures var ref := p.Refs()[k];
      && Resolve(shim, ref.dll, ref.fn).Some?
      && Convert(p, shim).Ok?
      && LoadedByte(Convert(p, shim).value, p.g.imageBase + ref.iatRva + i)
         == Some(Bytes32(Resolve(shim, ref.dll, ref.fn).value)[i])
  {
    hide FitsFile, Rejects, Resolve, IntendedByte, LastWriter, Bytes32, WellFormed, Convert, LoadedByte;
    SlotByteIntended(p, shim, k, i);
    MeaningPreserved(p, shim, p.g.imageBase + p.Refs()[k].iatRva + i);
  }

  /** Every import was resolved, and each slot that no later slot overlaps reads
      as its shim symbol's address in the running program. */
  lemma {:induction false} SlotsLinked(p: LoadedPe, shim: EmbeddedShim, k: nat)
    requires Convertible(p) && Rejects(p, shim).None?
    requires k < |p.Refs()| && LastWriter(p.Refs(), k)
    ensures var ref := p.Refs()[k];
      && Resolve(shim, ref.dll, ref.fn).Some?
      && Convert(p, shim).Ok?
      && LoadedWord(Convert(p, shim).value, p.g.imageBase + ref.iatRva) == Resolve(shim, ref.dll, ref.fn)
  {
    hide Convertible, Rejects, Resolve, LastWriter, Bytes32, Convert, LoadedByte, LoadedWord;
    var ref := p.Refs()[k];
    SlotByteLoaded(p, shim, k, 0);
    var addr := Resolve(shim, ref.dll, ref.fn).value;
    var f := Convert(p, shim).value;
    forall i | 0 <= i < 4
      ensures LoadedByte(f, p.g.imageBase + ref.iatRva + i) == Some(Bytes32(addr)[i])
    {
      SlotByteLoaded(p, shim, k, i);
    }
    LoadedWordIs(f, p.g.imageBase + ref.iatRva, addr);
  }

  // ----- entry hand-off -----

  /** The load that shows the poked word, and none after it reaches it. */
  lemma PokeLoad(shim: EmbeddedShim) returns (k: nat)
    requires TargetOffset(shim).Some?
    ensures Symbol(shim, ENTRY_TARGET).Some? && HasPhdrs(shim.blob) && k < |Loads(shim.blob)|
    ensures var t, q := Symbol(shim, ENTRY_TARGET).value, Loads(shim.blob)[k];
      && SHIM_MIN_BASE <= q.vaddr <= t && t + 4 <= q.vaddr + q.filesz && q.filesz <= q.memsz
      && TargetOffset(shim) == Some(q.offset + (t - q.vaddr))
      && forall j :: k < j < |Loads(shim.blob)| ==> q.vaddr + q.memsz <= Loads(shim.blob)[j].vaddr
  {
    hide LoadsFrom, ValidSymtabs, SymbolFrom;
    k := PokeInLoad(Loads(shim.blob), shim.blob, Symbol(shim, ENTRY_TARGET).value);
  }

  /** The poked word, read through the loads that show the blob's bytes. */
  lemma PokedWord(p: LoadedPe, shim: EmbeddedShim, i: nat)
    requires TargetOffset(shim).Some? && i < 4
    ensures Symbol(shim, ENTRY_TARGET).Some?
    ensures var t := Symbol(shim, ENTRY_TARGET).value;
      t >= SHIM_MIN_BASE && ShimByte(p, shim, t + i) == Some(Bytes32(p.EntryVa())[i])
  {
    hide Bytes32, Symbol, TargetOffset, PokedBlob, ValidShim, PhdrByte, LoadsFrom;
    var k := PokeLoad(shim);
    var t, ps := Symbol(shim, ENTRY_TARGET).value, Loads(shim.blob);
    PokedAt(shim, p.EntryVa(), ps[k], i);
    MemoryAt(PokedBlob(shim, p.EntryVa()), ps, k, t + i);
  }

  lemma PokedAt(shim: EmbeddedShim, va: u32, q: Phdr, i: nat)
    requires TargetOffset(shim).Some? && i < 4
    requires var t := Symbol(shim, ENTRY_TARGET).value;
      && q.vaddr <= t && t + 4 <= q.vaddr + q.filesz && q.filesz <= q.memsz
      && TargetOffset(shim) == Some(q.offset + (t - q.vaddr))
    ensures PhdrByte(PokedBlob(shim, va), q, Symbol(shim, ENTRY_TARGET).value + i) == Some(Bytes32(va)[i])
  {
    hide Symbol, Bytes32, TargetOffset;
  }

  /** What acceptance says of the shim's symbols. */
  lemma SymbolsFound(p: LoadedPe, shim: EmbeddedShim)
    requires Rejects(p, shim).None?
    ensures Symbol(shim, START).Some? && Symbol(shim, ENTRY_TARGET).Some? && TargetOffset(shim).Some?
  {
    hide Symbol, TargetOffset, RefsError, LayoutRejects;
  }

  lemma TargetByteIntended(p: LoadedPe, shim: EmbeddedShim, i: nat)
    requires Rejects(p, shim).None? && i < 4
    ensures Symbol(shim, ENTRY_TARGET).Some?
    ensures IntendedByte(p, shim, Symbol(shim, ENTRY_TARGET).value + i) == Some(Bytes32(p.EntryVa())[i])
  {
    hide Rejects, Symbol, TargetOffset, ShimByte, LinkedPeByte, Bytes32;
    SymbolsFound(p, shim);
    PokedWord(p, shim, i);
  }

  lemma TargetByteLoaded(p: LoadedPe, shim: EmbeddedShim, i: nat)
    requires Convertible(p) && Rejects(p, shim).None? && i < 4
    ensures Convert(p, shim).Ok? && Symbol(shim, ENTRY_TARGET).Some?
    ensures LoadedByte(Convert(p, shim).value, Symbol(shim, ENTRY_TARGET).value + i) == Some(Bytes32(p.EntryVa())[i])
  {
    hide Convertible, Rejects, Symbol, Convert, LoadedByte, IntendedByte, Bytes32;
    TargetByteIntended(p, shim, i);
    MeaningPreserved(p, shim, Symbol(shim, ENTRY_TARGET).value + i);
  }

  lemma StartLoaded(p: LoadedPe, shim: EmbeddedShim)
    requires Convertible(p) && Rejects(p, shim).None?
    ensures Convert(p, shim).Ok? && HasPhdrs(Convert(p, shim).value)
    ensures Some(EntryOf(Convert(p, shim).value)) == Symbol(shim, START)
  {
    hide Rejects, Symbol, Convert, FitsFile, WellFormed;
    FilesFit(p, shim);
    ConvertedReadsBack(p, shim);
  }

  /** The ELF starts in the shim, which finds the PE entry point in its target word. */
  lemma EntryHandoff(p: LoadedPe, shim: EmbeddedShim)
    requires Convertible(p) && Rejects(p, shim).None?
    ensures Convert(p, shim).Ok? && HasPhdrs(Convert(p, shim).value)
    ensures Some(EntryOf(Convert(p, shim).value)) == Symbol(shim, START)
    ensures Symbol(shim, ENTRY_TARGET).Some?
    ensures LoadedWord(Convert(p, shim).value, Symbol(shim, ENTRY_TARGET).value) == Some(p.EntryVa())
  {
    hide Convertible, Rejects, Symbol, Bytes32, Convert, LoadedByte, LoadedWord;
    StartLoaded(p, shim);
    TargetByteLoaded(p, shim, 0);
    var t: nat, f := Symbol(shim, ENTRY_TARGET).value, Convert(p, shim).value;
    forall i | 0 <= i < 4
      ensures LoadedByte(f, t + i) == Some(Bytes32(p.EntryVa())[i])
    {
      TargetByteLoaded(p, shim, i);
    }
    LoadedWordIs(f, t, p.EntryVa());
  }

  // ----- address-space separation -----

  predicate PageAligned(segs: seq<Seg>) {
    forall k :: 0 <= k < |segs| ==> segs[k].vaddr % 0x1000 == 0
  }

  /** Segments ascend and stay disjoint even with each extent rounded up to whole pages. */
  predicate PagesDisjoint(segs: seq<Seg>) {
    forall i, j :: 0 <= i < j < |segs| ==> PageUp(segs[i].vaddr + segs[i].memsz) <= segs[j].vaddr
  }

  lemma PageUpBelow(n: nat, m: nat)
    requires n <= m && m % 0x1000 == 0
    ensures PageUp(n) <= m
  {
  }

  lemma AlignedSum(a: nat, b: nat)
    requires a % 0x1000 == 0 && b % 0x1000 == 0
    ensures (a + b) % 0x1000 == 0
  {
  }

  lemma PeRange(g: Geometry, raw: seq<byte>, j: nat)
    requires WellFormed(g) && LayoutRejects(g).None? && Add32(g.imageBase, g.sizeOfImage) <= SHIM_MIN_BASE
    requires j <= |g.sections|
    ensures var seg := PeSegments(g, raw, |g.sections|)[j];
      seg.vaddr % 0x1000 == 0 && seg.vaddr + seg.memsz <= SHIM_MIN_BASE
  {
    PeAddresses(g, raw);
    hide PeSegments;
    if j > 0 {
      assert g.sections[j - 1].rva % 0x1000 == 0;
      AlignedSum(g.imageBase, g.sections[j - 1].rva);
    }
  }

  lemma PeOrder(g: Geometry, raw: seq<byte>, i: nat, j: nat)
    requires WellFormed(g) && i < j <= |g.sections|
    ensures var segs := PeSegments(g, raw, |g.sections|); segs[i].vaddr + segs[i].memsz <= segs[j].vaddr
  {
    PeAddresses(g, raw);
    hide PeSegments;
    if i > 0 {
      assert g.sections[i - 1].rva + g.sections[i - 1].Extent() <= g.sections[j - 1].rva;
    }
  }

  lemma PeRanges(g: Geometry, raw: seq<byte>)
    requires WellFormed(g) && LayoutRejects(g).None? && Add32(g.imageBase, g.sizeOfImage) <= SHIM_MIN_BASE
    ensures var segs := PeSegments(g, raw, |g.sections|);
      && PageAligned(segs) && PagesDisjoint(segs)
      && forall k :: 0 <= k < |segs| ==> segs[k].vaddr + segs[k].memsz <= SHIM_MIN_BASE
  {
    var segs := PeSegments(g, raw, |g.sections|);
    hide PeSegments, PageUp, WellFormed, LayoutRejects, Add32;
    forall k | 0 <= k < |segs|
      ensures segs[k].vaddr % 0x1000 == 0 && segs[k].vaddr + segs[k].memsz <= SHIM_MIN_BASE
    {
      PeRange(g, raw, k);
    }
    forall i, j | 0 <= i < j < |segs|
      ensures PageUp(segs[i].vaddr + segs[i].memsz) <= segs[j].vaddr
    {
      PeOrder(g, raw, i, j);
      PageUpBelow(segs[i].vaddr + segs[i].memsz, segs[j].vaddr);
    }
  }

  lemma ShimRange(p: LoadedPe, shim: EmbeddedShim, k: nat)
    requires k < |ShimPart(p, shim)|
    ensures |ShimPart(p, shim)| == |Loads(shim.blob)|
    ensures var seg, q := ShimPart(p, shim)[k], Loads(shim.blob)[k]; seg.vaddr == q.vaddr && seg.memsz == q.memsz
    ensures ShimPart(p, shim)[k].vaddr % 0x1000 == 0 && SHIM_MIN_BASE <= ShimPart(p, shim)[k].vaddr
  {
    var ps, poked := Loads(shim.blob), PokedBlob(shim, p.EntryVa());
    ShimSegmentsCarried(ps, poked, NextFree(PePart(p, shim)));
    hide ShimSegments, LoadsFrom, PePart, ValidSymtabs;
    assert Carries(poked, ps[k], ShimPart(p, shim)[k]);
  }

  lemma ShimOrder(p: LoadedPe, shim: EmbeddedShim, i: nat, j: nat)
    requires i < j < |ShimPart(p, shim)|
    ensures ShimPart(p, shim)[i].vaddr + ShimPart(p, shim)[i].memsz <= ShimPart(p, shim)[j].vaddr
  {
    hide ShimPart, LoadsFrom, ValidSymtabs;
    ShimRange(p, shim, i);
    ShimRange(p, shim, j);
  }

  lemma ShimRanges(p: LoadedPe, shim: EmbeddedShim)
    ensures PageAligned(ShimPart(p, shim)) && PagesDisjoint(ShimPart(p, shim))
    ensures forall k :: 0 <= k < |ShimPart(p, shim)| ==> SHIM_MIN_BASE <= ShimPart(p, shim)[k].vaddr
  {
    var segs := ShimPart(p, shim);
    hide ShimPart, PageUp, ValidShim;
    forall k | 0 <= k < |segs|
      ensures segs[k].vaddr % 0x1000 == 0 && SHIM_MIN_BASE <= segs[k].vaddr
    {
      ShimRange(p, shim, k);
    }
    forall i, j | 0 <= i < j < |segs|
      ensures PageUp(segs[i].vaddr + segs[i].memsz) <= segs[j].vaddr
    {
      ShimOrder(p, shim, i, j);
      PageUpBelow(segs[i].vaddr + segs[i].memsz, segs[j].vaddr);
    }
  }

  lemma JoinRanges(s: seq<Seg>, t: seq<Seg>)
    requires PageAligned(s) && PagesDisjoint(s) && PageAligned(t) && PagesDisjoint(t)
    requires forall k :: 0 <= k < |s| ==> s[k].vaddr + s[k].memsz <= SHIM_MIN_BASE
    requires forall k :: 0 <= k < |t| ==> SHIM_MIN_BASE <= t[k].vaddr
    ensures PageAligned(s + t) && PagesDisjoint(s + t)
  {
    forall i, j | 0 <= i < j < |s + t|
      ensures PageUp((s + t)[i].vaddr + (s + t)[i].memsz) <= (s + t)[j].vaddr
    {
      if i < |s| <= j {
        PageUpBelow(s[i].vaddr + s[i].memsz, SHIM_MIN_BASE);
      }
    }
  }

  /** PE segments, then shim segments: page-aligned, ascending, in separate pages. */
  lemma {:induction false} SegmentsSeparate(p: LoadedPe, shim: EmbeddedShim)
    requires WellFormed(p.g) && Rejects(p, shim).None?
    ensures PageAligned(FinalSegments(p, shim)) && PagesDisjoint(FinalSegments(p, shim))
  {
    PeRanges(p.g, Patched(p, shim));
    hide WellFormed, PagesDisjoint, PageAligned, Patched, ShimPart;
    ShimRanges(p, shim);
    JoinRanges(PePart(p, shim), ShimPart(p, shim));
  }

  // ----- the file offsets fit -----

  /** Segments of separate pages have no more file data than pages between the first and the last. */
  lemma {:induction false} SpanBounded(segs: seq<Seg>)
    requires segs != [] && PageAligned(segs) && PagesDisjoint(segs)
    requires forall k :: 0 <= k < |segs| ==> segs[k].filesz <= segs[k].memsz
    ensures var last := segs[|segs| - 1]; segs[0].vaddr + Span(segs) <= PageUp(last.vaddr + last.memsz)
  {
    hide PageUp;
    var n := |segs| - 1;
    PageUpGrows(segs[n].vaddr, segs[n].filesz, segs[n].memsz);
    if n > 0 {
      SpanBounded(segs[..n]);
      assert PageUp(segs[n - 1].vaddr + segs[n - 1].memsz) <= segs[n].vaddr;
    } else {
      assert segs[..0] == [];
    }
  }

  lemma PageUpGrows(v: nat, a: nat, b: nat)
    requires v % 0x1000 == 0 && a <= b
    ensures v + PageUp(a) <= PageUp(v + b)
  {
  }

  /** No segment has more file data than memory, and all end before the last page. */
  predicate Modest(segs: seq<Seg>) {
    forall k :: 0 <= k < |segs| ==> segs[k].filesz <= segs[k].memsz && segs[k].vaddr + segs[k].memsz <= LAST_PAGE
  }

  lemma PeModest(g: Geometry, raw: seq<byte>)
    requires WellFormed(g) && LayoutRejects(g).None? && Add32(g.imageBase, g.sizeOfImage) <= SHIM_MIN_BASE
    ensures Modest(PeSegments(g, raw, |g.sections|))
  {
    PeAddresses(g, raw);
    PeRanges(g, raw);
    hide PeSegments, WellFormed, LayoutRejects;
  }

  lemma ShimModest(p: LoadedPe, shim: EmbeddedShim)
    ensures Modest(ShimPart(p, shim))
  {
    var ps, poked := Loads(shim.blob), PokedBlob(shim, p.EntryVa());
    ShimSegmentsCarried(ps, poked, NextFree(PePart(p, shim)));
    hide ShimSegments, LoadsFrom, PePart, ValidSymtabs;
    forall k | 0 <= k < |ps|
      ensures ShimPart(p, shim)[k].filesz <= ShimPart(p, shim)[k].memsz
      ensures ShimPart(p, shim)[k].vaddr + ShimPart(p, shim)[k].memsz <= LAST_PAGE
    {
      assert Carries(poked, ps[k], ShimPart(p, shim)[k]);
    }
  }

  lemma FinalModest(p: LoadedPe, shim: EmbeddedShim)
    requires WellFormed(p.g) && Rejects(p, shim).None?
    ensures Modest(FinalSegments(p, shim))
  {
    hide WellFormed, Patched, ShimPart, PeSegments;
    PeModest(p.g, Patched(p, shim));
    ShimModest(p, shim);
  }

  /** The accumulated file offsets of every accepted image fit in 32 bits. */
  lemma FilesFit(p: LoadedPe, shim: EmbeddedShim)
    requires Convertible(p) && Rejects(p, shim).None?
    ensures FitsFile(FinalSegments(p, shim))
  {
    hide WellFormed, Rejects, PagesDisjoint, ShimPart, Span, PageUp;
    var segs := FinalSegments(p, shim);
    SegmentsSeparate(p, shim);
    FinalModest(p, shim);
    FirstAddress(p, shim);
    SpanBounded(segs);
    PageUpBelow(segs[|segs| - 1].vaddr + segs[|segs| - 1].memsz, LAST_PAGE);
  }

  lemma FirstAddress(p: LoadedPe, shim: EmbeddedShim)
    requires Convertible(p) && Rejects(p, shim).None?
    ensures FinalSegments(p, shim)[0].vaddr == p.g.imageBase >= 0x1000
  {
    hide PeSegments, Patched, ShimPart, WellFormed, PatchRejects;
    PeAddresses(p.g, Patched(p, shim));
    BaseAligned(p.g);
    assert FinalSegments(p, shim)[0] == PePart(p, shim)[0];
  }

  lemma BaseAligned(g: Geometry)
    requires LayoutRejects(g).None? && g.imageBase != 0
    ensures g.imageBase >= 0x1000
  {
  }

  /** After layout and shim embedding: file offsets are page-aligned like the addresses,
      ascending and disjoint, and every segment with file data has a buffer. */
  lemma FileLayout(p: LoadedPe, shim: EmbeddedShim)
    requires Convertible(p) && Rejects(p, shim).None?
    ensures var segs := FinalSegments(p, shim);
      && (forall k :: 0 <= k < |segs| ==> segs[k].fileOffset % 0x1000 == 0 && segs[k].vaddr % 0x1000 == 0)
      && (forall k :: 0 <= k < |segs| && segs[k].filesz > 0 ==> segs[k].data.Some?)
      && (forall i, j :: 0 <= i < j < |segs| ==> segs[i].fileOffset + segs[i].filesz <= segs[j].fileOffset)
  {
    hide WellFormed, Rejects, FinalSegments, PagesDisjoint, FitsFile, Chained;
    SegmentsSeparate(p, shim);
    FilesFit(p, shim);
    FinalChained(p, shim);
    ChainedIsOrdered(FinalSegments(p, shim));
  }

  // ----- the range check -----

  /** End of the last section, in whole pages: what SizeOfImage is by the PE/COFF specification
      ("Optional Header Windows-Specific Fields"). */
  function LastPageEnd(g: Geometry): nat
    requires g.sections != []
  {
    var s := g.sections[|g.sections| - 1];
    PageUp(s.rva + s.Extent())
  }

  /** What the range check of `stub_patch_apply` is for: the image's segments lie in separate
      pages, all below the shim. */
  predicate BelowTheShim(segs: seq<Seg>) {
    PagesDisjoint(segs) && forall k :: 0 <= k < |segs| ==> segs[k].vaddr + segs[k].memsz <= SHIM_MIN_BASE
  }

  /** An image that wraps leaves its range: its last segment ends near 2^32, or starts below ImageBase. */
  lemma WrappedImageOutside(g: Geometry, raw: seq<byte>)
    requires Ascending(g) && LayoutRejects(g).None? && LastPageEnd(g) == g.sizeOfImage
    requires g.imageBase + g.sizeOfImage >= MOD32
    ensures !BelowTheShim(PeSegments(g, raw, |g.sections|))
  {
    var n := |g.sections|;
    var s, segs := g.sections[n - 1], PeSegments(g, raw, n);
    PeSegmentAt(g, raw, n, n - 1);
    hide PeSegments;
    assert segs[n].vaddr == Add32(g.imageBase, s.rva) && segs[n].memsz == s.Extent();
    PageUpClose(s.rva + s.Extent());
    if g.imageBase + s.rva >= MOD32 {
      PageUpClose(segs[0].vaddr + segs[0].memsz);
      assert PageUp(segs[0].vaddr + segs[0].memsz) > segs[n].vaddr;
    }
  }

  lemma PageUpClose(n: nat)
    ensures n <= PageUp(n) < n + 0x1000
  {
  }

  /** The range check keeps the image's segments apart and below the shim exactly when
      ImageBase + SizeOfImage does not wrap. */
  lemma RangeCheckExact(g: Geometry, raw: seq<byte>)
    requires g.sizeOfHeaders <= g.rawSize && Ascending(g) && RawDisjoint(g)
    requires LayoutRejects(g).None? && LastPageEnd(g) == g.sizeOfImage
    requires Add32(g.imageBase, g.sizeOfImage) <= SHIM_MIN_BASE
    ensures BelowTheShim(PeSegments(g, raw, |g.sections|)) <==> g.imageBase + g.sizeOfImage < MOD32
  {
    hide PeSegments, LayoutRejects, Ascending, RawDisjoint, PagesDisjoint, PageUp;
    if g.imageBase + g.sizeOfImage < MOD32 {
      PeRanges(g, raw);
    } else {
      WrappedImageOutside(g, raw);
    }
  }

  // ----- the header range -----

  /** With raw data in the file, the laid-out views stay within the buffer exactly when SizeOfHeaders
      does, which nothing checks. */
  lemma HeadersBacked(g: Geometry, raw: seq<byte>)
    requires |raw| == g.rawSize && RawInFile(g)
    ensures AllInBuffer(PeSegments(g, raw, |g.sections|)) <==> g.sizeOfHeaders <= g.rawSize
  {
    if g.sizeOfHeaders <= g.rawSize {
      PeSegmentsInBuffer(g, raw, |g.sections|);
    } else {
      if g.sections != [] {
        PeSegmentAt(g, raw, |g.sections|, 0);
      }
      hide PeSegments;
      assert PeSegments(g, raw, |g.sections|)[0] == HeaderSegment(g, raw);
    }
  }
}
