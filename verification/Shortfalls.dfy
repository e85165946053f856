/** Files that the program receives and on which the code does not do what it is for. */
module Shortfalls {
  import opened Words
  import opened Elf32
  import opened ElfWriter
  import opened PeImage
  import opened PeImports
  import opened PeRelocs
  import opened RelocWalk
  import opened PeReader
  import opened Layout
  import opened Shim
  import opened StubPatch
  import opened Pipeline
  import opened Meaning
  import opened ExampleShim
  import opened ExampleFile

  // ----- when loading ends -----

  /** The relocation directory that the headers name. */
  function RelocDirOf(h: Headers, g: Geometry, raw: seq<byte>): RelocDir
    requires |raw| == g.rawSize
  {
    Dir(g, raw, h.relocDir.rva, h.relocDir.size)
  }

  /** The C loader gets into a loop that it never leaves: it can only be the one over relocation blocks. */
  ghost predicate LoadsForever(h: Headers, g: Geometry, raw: seq<byte>)
    requires |raw| == g.rawSize
  {
    && Imports(g, raw, h.importDir.rva).err.None?
    && h.relocDir.rva != 0 && h.relocDir.size != 0 && RunsForever(RelocDirOf(h, g, raw))
  }

  lemma RelocsOutcome(d: RelocDir)
    ensures Relocs(d.g, d.raw, d.rva, d.size) == Err(Endless) <==> d.rva != 0 && d.size != 0 && RunsForever(d)
    ensures Relocs(d.g, d.raw, d.rva, d.size) == Err(CountOverflow) <==> d.rva != 0 && d.size != 0 && Overflows(d)
  {
    hide BlocksFrom, EntriesFrom, TotalEntries, RunsForever, Overflows;
    EndlessExact(d);
    if Blocks(d).Ok? {
      EntriesFail(d, Blocks(d).value);
    }
  }

  lemma EntriesFail(d: RelocDir, bs: seq<Block>)
    ensures var r := EntriesFrom(d.g, d.raw, d.rva, 0, bs, 0, []); r.Ok? || r == Err(Malformed)
  {
    hide EntriesFrom, AllReadable;
    EntriesMeaning(d, bs, 0);
  }

  lemma TlsFails(g: Geometry, raw: seq<byte>, dirRva: u32, dirSize: u32)
    requires |raw| == g.rawSize
    ensures Tls(g, raw, dirRva, dirSize) != Err(Endless)
  {
    hide CallbacksFrom, Translate;
    if dirRva != 0 && dirSize != 0 {
      var p := Translate(g, dirRva, 24);
      if p.Some? && Word(raw, p.value + 12) >= g.imageBase {
        CallbacksFail(g, raw, Word(raw, p.value + 12) - g.imageBase, []);
      }
    }
  }

  lemma {:induction false} CallbacksFail(g: Geometry, raw: seq<byte>, arrRva: u32, acc: seq<u32>)
    requires |raw| == g.rawSize && |acc| <= MAX_TLS_CALLBACKS
    ensures CallbacksFrom(g, raw, arrRva, acc) != Err(Endless)
    decreases MAX_TLS_CALLBACKS - |acc|
  {
    hide Translate, Word, Add32;
    var p := Translate(g, Add32(arrRva, 4 * |acc|), 4);
    if p.Some? && Word(raw, p.value) >= g.imageBase && |acc| < MAX_TLS_CALLBACKS {
      CallbacksFail(g, raw, arrRva, acc + [Word(raw, p.value) - g.imageBase]);
    }
  }

  /** `Endless` is the outcome of exactly the files on which the C loader never returns. */
  lemma LoadEndless(h: Headers, g: Geometry, raw: seq<byte>)
    requires |raw| == g.rawSize
    ensures Directories(h, g, raw) == Err(Endless) <==> LoadsForever(h, g, raw)
  {
    hide Imports, Relocs, Tls, RunsForever;
    ImportsLimit(g, raw, h.importDir.rva);
    RelocsOutcome(RelocDirOf(h, g, raw));
    TlsFails(g, raw, h.tlsDir.rva, h.tlsDir.size);
  }

  lemma NoImportDirectory(g: Geometry, raw: seq<byte>)
    requires |raw| == g.rawSize
    ensures Imports(g, raw, 0) == Walk([], None)
  {
  }

  // ----- a relocation count that overflows -----

  /** Two blocks; the second one's size takes the cursor to 2^32, which is 0. */
  const TURNING_BLOCKS: seq<u32> := [0x1000, 8, 0x2000, 0xFFFF_FFF8]

  function EmptySection(rva: u32, vsize: u32): Section {
    Section(Zeros(8), rva, vsize, 0, 0, 0x4000_0000)
  }

  function TurningSpec(): Spec {
    Spec(0x40_0000, 0x2000, 368, 0, 352, 16, [EmptySection(0x1000, 0x1000)], Pack(TURNING_BLOCKS))
  }

  lemma TurningFile()
    ensures ValidSpec(TurningSpec()) && WellFormed(GeometryOf(TurningSpec())) && RawInFile(GeometryOf(TurningSpec()))
  {
    hide Pack;
  }

  lemma TurningWords()
    ensures ValidSpec(TurningSpec())
    ensures var f := File(TurningSpec());
      Word(f, 352) == 0x1000 && Word(f, 356) == 8 && Word(f, 360) == 0x2000 && Word(f, 364) == 0xFFFF_FFF8
  {
    hide File, Word, Pack;
    var x := TurningSpec();
    TailWord(x, 0);
    TailWord(x, 4);
    TailWord(x, 8);
    TailWord(x, 12);
    WordOfPack(TURNING_BLOCKS, 0);
    WordOfPack(TURNING_BLOCKS, 1);
    WordOfPack(TURNING_BLOCKS, 2);
    WordOfPack(TURNING_BLOCKS, 3);
  }

  function DirOf(x: Spec): RelocDir
    requires ValidSpec(x)
  {
    Dir(GeometryOf(x), File(x), x.relocRva, x.relocSize)
  }

  lemma TurningHeaders()
    ensures ValidSpec(TurningSpec())
    ensures var d := DirOf(TurningSpec());
      Header(d, 0) == Ok(Block(0x1000, 8)) && Header(d, 8) == Ok(Block(0x2000, 0xFFFF_FFF8))
  {
    hide File, Word, Pack;
    TurningWords();
  }

  /** After two rounds the cursor is back at the first block; after two more the count has overflowed. */
  lemma TurningOverflows()
    ensures ValidSpec(TurningSpec())
    ensures var d := DirOf(TurningSpec());
      CursorAfter(d, 2) == CursorAfter(d, 0) && CountAfter(d, 2) == 0x7FFF_FFF8 && Overflows(d)
  {
    hide File, Header, Pack;
    TurningHeaders();
    var d := DirOf(TurningSpec());
    assert d.size == 16;
    assert CursorAfter(d, 1) == Some(8) && CountAfter(d, 1) == 0;
    assert CursorAfter(d, 2) == Some(0) && CountAfter(d, 2) == 0x7FFF_FFF8;
    assert CursorAfter(d, 3) == Some(8) && CountAfter(d, 3) == 0x7FFF_FFF8;
    assert CursorAfter(d, 4) == Some(0) && CountAfter(d, 4) == 0xFFFF_FFF0;
  }

  /** A well-formed file, accepted up to its relocation directory, on which the C `int` that counts
      relocations overflows. */
  lemma RelocCountOverflows()
    ensures ValidSpec(TurningSpec()) && WellFormed(GeometryOf(TurningSpec())) && RawInFile(GeometryOf(TurningSpec()))
    ensures ParseHeaders(File(TurningSpec())) == Ok(HeadersOf(TurningSpec()))
    ensures Load(File(TurningSpec())) == Err(CountOverflow)
  {
    hide File, Load, Overflows, Imports, Directories, ParseHeaders, WellFormed, RawInFile, ValidSpec, CountAfter,
         CursorAfter;
    var x := TurningSpec();
    TurningFile();
    TurningOverflows();
    FileLoads(x);
    NoImportDirectory(GeometryOf(x), File(x));
    OnlyRelocs(x);
    RelocsOutcome(DirOf(x));
  }

  /** Without imports the relocation directory decides about an error. */
  lemma OnlyRelocs(x: Spec)
    requires ValidSpec(x) && x.importRva == 0
    ensures var r := Relocs(GeometryOf(x), File(x), x.relocRva, x.relocSize);
      r.Err? ==> Directories(HeadersOf(x), GeometryOf(x), File(x)) == Err(r.error)
  {
    hide File, Relocs;
    NoImportDirectory(GeometryOf(x), File(x));
  }

  // ----- a relocation directory that is read for ever -----

  /** Every eight bytes are a block header without entries. */
  function QuietWord(k: nat): u32 {
    if k % 2 == 0 then 0x1000 else 8
  }

  function QuietWords(): (ws: seq<u32>)
    ensures |ws| == 0x2000_0000 && forall k :: 0 <= k < |ws| ==> ws[k] == QuietWord(k)
  {
    seq(0x2000_0000, k requires 0 <= k => QuietWord(k))
  }

  /** Two sections show the same 2 GiB of the file, one after the other over the whole address space. */
  function QuietSpec(): Spec {
    Spec(0x40_0000, 0x2000, 0, 0, 8, 0xFFFF_FFFF,
         [Section(Zeros(8), 0, 0x8000_0000, 392, 0x8000_0000, 0x4000_0000),
          Section(Zeros(8), 0x8000_0000, 0x8000_0000, 392, 0x8000_0000, 0x4000_0000)],
         Pack(QuietWords()))
  }

  lemma QuietValid()
    ensures ValidSpec(QuietSpec()) && |File(QuietSpec())| == GeometryOf(QuietSpec()).rawSize
  {
    hide Pack;
  }

  lemma QuietTail(r: nat)
    requires r < 0x2000_0000
    ensures ValidSpec(QuietSpec()) && 392 + 4 * r + 4 <= |File(QuietSpec())|
    ensures Word(File(QuietSpec()), 392 + 4 * r) == QuietWord(r)
  {
    hide File, Word, Pack;
    QuietValid();
    TailWord(QuietSpec(), 4 * r);
    WordOfPack(QuietWords(), r);
  }

  lemma QuietTranslate(k: nat)
    requires k < 0x2000_0000
    ensures Translate(GeometryOf(QuietSpec()), 8 * k, 8) == Some(392 + 8 * (k % 0x1000_0000))
  {
    hide Pack;
    var g := GeometryOf(QuietSpec());
    assert g.sections[0].rva == 0 && g.sections[1].rva == 0x8000_0000;
    assert TranslateFrom(g, 1, 8 * k, 8) == if k >= 0x1000_0000 then Some(392 + 8 * (k - 0x1000_0000)) else None;
  }

  /** Every multiple of 8 holds the same header. */
  lemma QuietHeader(k: nat)
    requires k < 0x2000_0000
    ensures ValidSpec(QuietSpec()) && Header(DirOf(QuietSpec()), 8 * k) == Ok(Block(0x1000, 8))
  {
    hide File, Word, Pack, Translate, QuietSpec;
    QuietValid();
    var m := if k + 1 < 0x2000_0000 then k + 1 else 0;
    var r := m % 0x1000_0000;
    QuietFields();
    assert Add32(8, 8 * k) == 8 * m;
    QuietTranslate(m);
    QuietTail(2 * r);
    QuietTail(2 * r + 1);
    assert 392 + 4 * (2 * r) == 392 + 8 * r && 392 + 4 * (2 * r + 1) == 392 + 8 * r + 4;
  }

  lemma QuietFields()
    ensures QuietSpec().relocRva == 8 && QuietSpec().relocSize == 0xFFFF_FFFF && QuietSpec().importRva == 0
  {
  }

  /** One quiet round. */
  lemma QuietRound(d: RelocDir, k: nat)
    requires d.size == 0xFFFF_FFFF && CursorAfter(d, k) == Some(8 * (k % 0x2000_0000)) && CountAfter(d, k) == 0
    requires Header(d, 8 * (k % 0x2000_0000)) == Ok(Block(0x1000, 8))
    ensures CursorAfter(d, k + 1) == Some(8 * ((k + 1) % 0x2000_0000)) && CountAfter(d, k + 1) == 0
  {
    hide Header;
  }

  lemma {:induction false} QuietCursor(k: nat)
    ensures ValidSpec(QuietSpec())
    ensures CursorAfter(DirOf(QuietSpec()), k) == Some(8 * (k % 0x2000_0000)) && CountAfter(DirOf(QuietSpec()), k) == 0
  {
    hide Header, QuietSpec, File;
    QuietValid();
    QuietFields();
    if k > 0 {
      hide CursorAfter, CountAfter;
      QuietCursor(k - 1);
      QuietHeader((k - 1) % 0x2000_0000);
      QuietRound(DirOf(QuietSpec()), k - 1);
    }
  }

  /** A file, accepted up to its relocation directory, that the loader never finishes reading; nothing
      undefined happens while it tries. */
  lemma RelocsNeverEnd()
    ensures ValidSpec(QuietSpec())
    ensures ParseHeaders(File(QuietSpec())) == Ok(HeadersOf(QuietSpec()))
    ensures RunsForever(DirOf(QuietSpec()))
    ensures Load(File(QuietSpec())) == Err(Endless)
  {
    hide File, Load, Imports, Directories, ParseHeaders, QuietSpec, CursorAfter, CountAfter;
    var x := QuietSpec();
    QuietValid();
    QuietFields();
    var d := DirOf(x);
    forall k: nat ensures CursorAfter(d, k).Some? && CountAfter(d, k) == 0 {
      QuietCursor(k);
    }
    FileLoads(x);
    OnlyRelocs(x);
    RelocsOutcome(d);
  }

  // ----- conversions that go wrong -----

  /** A file without directories, as the conversion receives it. */
  function Received(x: Spec): (p: LoadedPe)
    requires ValidSpec(x) && x.sizeOfHeaders <= FileSize(x)
  {
    PeFile(GeometryOf(x), [], File(x))
  }

  /** The example shim, with an empty table. */
  function PlainShim(): EmbeddedShim {
    WithTable([])
  }

  lemma NothingToPatch(x: Spec)
    requires ValidSpec(x) && x.sizeOfHeaders <= FileSize(x)
    ensures Received(x).Refs() == [] && RefsError(PlainShim(), GeometryOf(x), Received(x).Refs()) == None
  {
    hide File, WithTable;
  }

  /** Without imports only the layout and the range check can reject. */
  lemma ReceivedAccepted(x: Spec)
    requires ValidSpec(x) && x.sizeOfHeaders <= FileSize(x)
    requires LayoutRejects(GeometryOf(x)).None? && |x.sections| + 2 <= MAX_SEGMENTS
    requires Add32(x.imageBase, x.sizeOfImage) <= SHIM_MIN_BASE
    ensures Rejects(Received(x), PlainShim()) == None
  {
    hide File, WithTable, RefsError, LayoutRejects, TargetOffset, Symbol, Loads, Refs;
    NothingToPatch(x);
    ExampleFacts();
  }

  lemma ExampleFacts()
    ensures var shim := PlainShim();
      && Symbol(shim, START) == Some(LOAD_BASE) && Symbol(shim, ENTRY_TARGET).Some? && TargetOffset(shim).Some?
      && Loads(shim.blob) == [Phdr(1, 0, LOAD_BASE, 0x1234, 228, 0x2000, 7, 0x1000)]
  {
    hide Blob, LoadsFrom, SymbolFrom, ValidSymtabs, HasPhdrs;
    OneLoad();
    BothSymbols();
  }

  /** One section that reaches from below the shim over its whole range, up to ImageBase + 2^32. */
  function WideSpec(): Spec {
    Spec(0x0E00_0000, 0xF300_0000, 352, 0, 0, 0, [EmptySection(0x1000, 0xF2FF_F000)], [])
  }

  lemma WideValid()
    ensures ValidSpec(WideSpec()) && LayoutRejects(GeometryOf(WideSpec())).None?
    ensures var g := GeometryOf(WideSpec());
      && Ascending(g) && RawDisjoint(g) && RawInFile(g) && g.sizeOfHeaders <= g.rawSize
      && LastPageEnd(g) == g.sizeOfImage
      && Add32(g.imageBase, g.sizeOfImage) <= SHIM_MIN_BASE && g.imageBase + g.sizeOfImage >= MOD32
  {
  }

  /** The segments of a received file and of the example shim. */
  lemma ReceivedSegments(x: Spec)
    requires ValidSpec(x) && x.sizeOfHeaders <= FileSize(x)
    ensures var p := Received(x);
      && PePart(p, PlainShim()) == PeSegments(GeometryOf(x), File(x), |x.sections|)
      && ShimPart(p, PlainShim()) == ShimSegments([Phdr(1, 0, LOAD_BASE, 0x1234, 228, 0x2000, 7, 0x1000)],
                                                  PokedBlob(PlainShim(), p.EntryVa()), NextFree(PePart(p, PlainShim())))
      && FinalSegments(p, PlainShim()) == PePart(p, PlainShim()) + ShimPart(p, PlainShim())
  {
    hide File, WithTable, PeSegments, ShimSegments, PokedBlob, NextFree, Loads, RefsError, Refs;
    NothingToPatch(x);
    NothingPatched(PlainShim(), GeometryOf(x), File(x));
    ExampleFacts();
  }

  lemma NothingPatched(shim: EmbeddedShim, g: Geometry, raw: seq<byte>)
    requires |raw| == g.rawSize
    ensures PatchedRaw(shim, g, [], raw) == raw
  {
  }

  lemma WideSegments()
    ensures ValidSpec(WideSpec())
    ensures var segs := FinalSegments(Received(WideSpec()), PlainShim());
      |segs| == 3 && segs[0].filesz == 352 && segs[1].filesz == 0 && segs[2].filesz == 228
      && segs[1].vaddr == 0x0E00_1000 && segs[1].memsz == 0xF2FF_F000 && segs[2].vaddr == LOAD_BASE
  {
    hide File, WithTable, PokedBlob, Patched;
    WideValid();
    ReceivedSegments(WideSpec());
    PeSegmentAt(GeometryOf(WideSpec()), File(WideSpec()), 1, 0);
  }

  lemma ThreeSpans(segs: seq<Seg>)
    requires |segs| == 3
    ensures Span(segs) == PageUp(segs[0].filesz) + PageUp(segs[1].filesz) + PageUp(segs[2].filesz)
  {
    hide PageUp;
    var one, two := segs[..1], segs[..2];
    assert two[..1] == one && one[..0] == [];
    assert Span(one) == PageUp(segs[0].filesz);
    assert Span(two) == Span(one) + PageUp(segs[1].filesz);
  }

  lemma WideFits()
    ensures ValidSpec(WideSpec()) && FitsFile(FinalSegments(Received(WideSpec()), PlainShim()))
  {
    hide FinalSegments, Received, PlainShim, PageUp;
    WideSegments();
    var segs := FinalSegments(Received(WideSpec()), PlainShim());
    ThreeSpans(segs);
    PageUpClose(352);
    PageUpClose(0);
    PageUpClose(228);
  }

  /** A file that is loaded and converted, although its section covers the shim's addresses:
      everything about it is in order, only ImageBase + SizeOfImage wraps. */
  lemma RangeCheckWraps()
    ensures ValidSpec(WideSpec())
    ensures var p, g := Received(WideSpec()), GeometryOf(WideSpec());
      && Load(p.raw) == Ok(Parsed(HeadersOf(WideSpec()), g, [], [], []))
      && Ascending(g) && RawDisjoint(g) && LastPageEnd(g) == g.sizeOfImage
      && Rejects(p, PlainShim()).None? && Convert(p, PlainShim()).Ok?
      && !BelowTheShim(PePart(p, PlainShim()))
    ensures var segs := FinalSegments(Received(WideSpec()), PlainShim());
      |segs| == 3 && segs[1].vaddr <= segs[2].vaddr && segs[2].vaddr + segs[2].memsz <= segs[1].vaddr + segs[1].memsz
  {
    hide File, Load, Rejects, Convert, FinalSegments, PlainShim, FitsFile, LayoutRejects, PeSegments, BelowTheShim;
    WideValid();
    PlainFileLoads(WideSpec());
    ReceivedAccepted(WideSpec());
    WideFits();
    ConversionSucceeds(Received(WideSpec()), PlainShim());
    WrappedImageOutside(GeometryOf(WideSpec()), File(WideSpec()));
    ReceivedSegments(WideSpec());
    WideSegments();
    ShimMemsz();
  }

  lemma ShimMemsz()
    ensures ValidSpec(WideSpec())
    ensures var segs := FinalSegments(Received(WideSpec()), PlainShim()); |segs| == 3 && segs[2].memsz == 0x2000
  {
    hide File, WithTable, PokedBlob, Patched, PeSegments;
    WideValid();
    ReceivedSegments(WideSpec());
  }

  // ----- a file that does not hold its segments -----

  /** The first section's data ends behind 2^32 in the output; the second one's follows from a small offset again. */
  function LongSpec(): Spec {
    Spec(0x40_0000, 0x3000, 392, 0, 0, 0,
         [Section(Zeros(8), 0x1000, 0x1000, 0, 0xFFFF_F000, 0x4000_0000),
          Section(Zeros(8), 0x2000, 0x1000, 0, 1, 0x4000_0000)],
         Zeros(0xFFFF_F000))
  }

  lemma LongValid()
    ensures ValidSpec(LongSpec()) && LayoutRejects(GeometryOf(LongSpec())).None?
    ensures LongSpec().sizeOfHeaders <= FileSize(LongSpec())
            && Add32(LongSpec().imageBase, LongSpec().sizeOfImage) <= SHIM_MIN_BASE
  {
    hide Zeros;
  }

  /** Where the layout puts the data of two such sections. */
  lemma LongOffsets(g: Geometry, raw: seq<byte>)
    requires g.sizeOfHeaders == 392 && |g.sections| == 2 && g.sections[0].fsize == 0xFFFF_F000
             && g.sections[1].fsize == 1
    ensures var segs := PeSegments(g, raw, 2);
      && (forall k :: 0 <= k < 3 ==> segs[k].data.Some?)
      && segs[0].fileOffset == 0x1000 && segs[0].filesz == 392
      && segs[1].fileOffset == 0x2000 && segs[1].filesz == 0xFFFF_F000
      && segs[2].fileOffset == 0x1000 && segs[2].filesz == 1
      && NextFree(segs) == 0x2000
  {
    hide PeSegments;
    PeSegmentAt(g, raw, 2, 0);
    PeSegmentAt(g, raw, 2, 1);
  }

  lemma LongSegments()
    ensures ValidSpec(LongSpec()) && LongSpec().sizeOfHeaders <= FileSize(LongSpec())
    ensures var segs := FinalSegments(Received(LongSpec()), PlainShim());
      && |segs| == 4 && (forall k :: 0 <= k < 4 ==> segs[k].data.Some?)
      && segs[0].fileOffset == 0x1000 && segs[0].filesz == 392
      && segs[1].fileOffset == 0x2000 && segs[1].filesz == 0xFFFF_F000
      && segs[2].fileOffset == 0x1000 && segs[2].filesz == 1
      && segs[3].fileOffset == 0x2000 && segs[3].filesz == 228
  {
    hide File, WithTable, PokedBlob, PePart, ShimPart, PeSegments, NextFree, Zeros;
    LongValid();
    ReceivedSegments(LongSpec());
    LongOffsets(GeometryOf(LongSpec()), File(LongSpec()));
  }

  lemma LongFields()
    ensures LongSpec().importRva == 0 && LongSpec().relocRva == 0 && |LongSpec().sections| == 2
  {
  }

  lemma EmitStep(segs: seq<Seg>, i: nat, cur: u32, out: seq<byte>) returns (next: seq<byte>)
    requires AllInBuffer(segs) && i < |segs| && segs[i].data.Some? && segs[i].filesz > 0 && segs[i].fileOffset >= cur
    ensures EmitFrom(segs, i, cur, out) == EmitFrom(segs, i + 1, Add32(segs[i].fileOffset, segs[i].filesz), next)
  {
    next := out + Zeros(segs[i].fileOffset - cur) + Data(segs[i]);
  }

  lemma LongEmits(segs: seq<Seg>, entry: u32)
    requires AllInBuffer(segs) && |segs| == 4 && forall k :: 0 <= k < 4 ==> segs[k].data.Some?
    requires segs[0].fileOffset == 0x1000 && segs[0].filesz == 392
    requires segs[1].fileOffset == 0x2000 && segs[1].filesz == 0xFFFF_F000
    requires segs[2].fileOffset == 0x1000 && segs[2].filesz == 1
    requires segs[3].fileOffset == 0x2000 && segs[3].filesz == 228
    ensures WriteElf(entry, segs).Ok? && !NoOffsetWrap(segs)
  {
    hide EhdrBytes, PhdrTable, InBuffer, Data, Zeros;
    var out := EhdrBytes(entry, 4) + PhdrTable(segs);
    var start := out;
    out := EmitStep(segs, 0, PhdrsEnd(4), out);
    out := EmitStep(segs, 1, 0x1188, out);
    out := EmitStep(segs, 2, 0x1000, out);
    out := EmitStep(segs, 3, 0x1001, out);
    assert EmitFrom(segs, 0, PhdrsEnd(4), start).Ok?;
  }

  /** A file that is loaded and converted, and whose output does not read back as its segments. */
  lemma WritePositionWraps()
    ensures ValidSpec(LongSpec()) && LongSpec().sizeOfHeaders <= FileSize(LongSpec())
    ensures Load(File(LongSpec())) == Ok(Parsed(HeadersOf(LongSpec()), GeometryOf(LongSpec()), [], [], []))
    ensures var p := Received(LongSpec());
      && Rejects(p, PlainShim()).None? && Chained(FinalSegments(p, PlainShim()))
      && !NoOffsetWrap(FinalSegments(p, PlainShim()))
      && Convert(p, PlainShim()).Ok?
      && !ReadsBack(Convert(p, PlainShim()).value, LOAD_BASE, FinalSegments(p, PlainShim()))
  {
    hide File, Load, Rejects, FinalSegments, LayoutRejects, WriteElf, NoOffsetWrap, ReadsBack, PlainShim, Received,
         LongSpec;
    LongValid();
    LongFields();
    PlainFileLoads(LongSpec());
    ReceivedAccepted(LongSpec());
    LongSegments();
    var p := Received(LongSpec());
    FinalChained(p, PlainShim());
    ExampleFacts();
    LongEmits(FinalSegments(p, PlainShim()), LOAD_BASE);
    WriteExact(LOAD_BASE, FinalSegments(p, PlainShim()));
  }

  // ----- headers that the file does not have -----

  /** SizeOfHeaders names more bytes than the file has. */
  function ShortSpec(): Spec {
    Spec(0x40_0000, 0x3000, 0x2000, 0, 0, 0, [EmptySection(0x2000, 0x1000)], [])
  }

  /** A file that is loaded and passes layout and range check, and whose header segment reaches past
      the end of the buffer. */
  lemma HeadersReachOut()
    ensures ValidSpec(ShortSpec())
    ensures var g, f := GeometryOf(ShortSpec()), File(ShortSpec());
      && Load(f) == Ok(Parsed(HeadersOf(ShortSpec()), g, [], [], []))
      && LayoutRejects(g).None? && PatchRejects(PlainShim(), g, [], |g.sections| + 1).None?
      && !AllInBuffer(PeSegments(g, f, |g.sections|))
  {
    hide File, Load, AllInBuffer, PeSegments, WithTable, Symbol, TargetOffset, Loads;
    var x := ShortSpec();
    ShortValid();
    PlainFileLoads(x);
    ExampleFacts();
    HeadersBacked(GeometryOf(x), File(x));
  }

  lemma ShortValid()
    ensures ValidSpec(ShortSpec()) && RawInFile(GeometryOf(ShortSpec()))
  {
  }
}
