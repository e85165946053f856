/** Every file that tools/mkminipe.py builds, converted with a shim that supports its imports:
    the assumptions of the conversion theorems hold together for an unbounded family of inputs. */
module CompleteRun {
  import opened Words
  import opened Elf32
  import opened ElfWriter
  import opened PeImage
  import opened PeImports
  import opened Layout
  import opened Shim
  import opened StubPatch
  import opened Pipeline
  import opened Meaning
  import opened Acceptance
  import opened MkMiniPe
  import opened RoundTrip
  import opened RoundTripImports
  import opened BuiltProgram
  import opened ExampleShim

  // ----- a table that supports given imports -----

  function TableOf(refs: seq<ImportRef>): (table: seq<ShimEntry>)
    ensures |table| == |refs|
    ensures forall k :: 0 <= k < |refs| ==> table[k] == ShimEntry(refs[k].dll, refs[k].fn, START)
  {
    seq(|refs|, k requires 0 <= k < |refs| => ShimEntry(refs[k].dll, refs[k].fn, START))
  }

  function ShimFor(refs: seq<ImportRef>): EmbeddedShim {
    WithTable(TableOf(refs))
  }

  lemma {:induction false} LookupInTable(refs: seq<ImportRef>, i: nat, k: nat)
    requires i <= k < |refs|
    ensures LookupFrom(TableOf(refs), i, refs[k].dll, refs[k].fn) == Some(START)
    decreases k - i
  {
    if i < k {
      LookupInTable(refs, i + 1, k);
    }
  }

  lemma ResolvedBy(refs: seq<ImportRef>, k: nat)
    requires k < |refs|
    ensures Resolve(ShimFor(refs), refs[k].dll, refs[k].fn) == Some(LOAD_BASE)
  {
    hide LookupFrom, TableOf, SymbolFrom, Blob, ValidShim, ValidSymtabs;
    LookupInTable(refs, 0, k);
    BothSymbols();
  }

  // ----- no import is rejected -----

  lemma {:induction false} NoRefError(shim: EmbeddedShim, g: Geometry, refs: seq<ImportRef>)
    requires forall k :: 0 <= k < |refs| ==>
      Resolve(shim, refs[k].dll, refs[k].fn).Some? && Translate(g, refs[k].iatRva, 4).Some?
    ensures RefsError(shim, g, refs) == None
    decreases |refs|
  {
    hide Symbol, Translate, LookupFrom;
    if refs != [] {
      NoRefError(shim, g, refs[1..]);
    }
  }

  /** Every slot of the built file is readable. */
  lemma SlotReadable(exitCode: u32, dlls: seq<DllSpec>, call: bool, subsystem: u16, i: nat, j: nat)
    requires Buildable(dlls, call) && NamesFit(dlls) && i < |dlls| && j < |dlls[i].ordinals|
    ensures SlotRva(dlls, call, i, j) < MOD32
    ensures Translate(Program(exitCode, dlls, call, subsystem).g, SlotRva(dlls, call, i, j), 4).Some?
  {
    hide Body, BuildWithImports, BuiltText, BuiltAround, PieceAt, Pack, ThunkOffset, Fits, TextGeometry, Translate,
         ExpectedDlls;
    SlotInRange(dlls, call, i, j);
    ProgramLoaded(exitCode, dlls, call, subsystem);
    BuiltIsBuilt(exitCode, dlls, call, subsystem);
    ThunksInBody(exitCode, dlls, call, i);
    ThunkWordRead(BuildWithImports(exitCode, dlls, call, subsystem), BuiltText(dlls, call, subsystem),
                  Body(exitCode, dlls, call),
                  ThunkOffset(dlls, call, i), dlls[i].ordinals, j);
  }

  lemma {:induction false} RefsReadable(exitCode: u32, dlls: seq<DllSpec>, call: bool, subsystem: u16, i: nat)
    requires Buildable(dlls, call) && NamesFit(dlls) && i <= |dlls|
    ensures var p := Program(exitCode, dlls, call, subsystem);
      forall k :: 0 <= k < |Refs(p.imports, i)| ==> Translate(p.g, Refs(p.imports, i)[k].iatRva, 4).Some?
    decreases |dlls| - i
  {
    hide ThunkOffset, DllRefs, Translate, BuildWithImports, ExpectedDlls, BuiltText, TextGeometry, OrdinalName;
    var p := Program(exitCode, dlls, call, subsystem);
    if i < |dlls| {
      RefsReadable(exitCode, dlls, call, subsystem, i + 1);
      BuiltDllCount(dlls, call, i);
      forall j | 0 <= j < |dlls[i].ordinals|
        ensures Translate(p.g, DllRefs(p.imports[i], 0)[j].iatRva, 4).Some?
      {
        BuiltDllRef(dlls, call, i, j);
        SlotReadable(exitCode, dlls, call, subsystem, i, j);
      }
    }
  }

  lemma ImportsAccepted(exitCode: u32, dlls: seq<DllSpec>, call: bool, subsystem: u16)
    requires Buildable(dlls, call) && NamesFit(dlls)
    ensures var p := Program(exitCode, dlls, call, subsystem); RefsError(ShimFor(p.Refs()), p.g, p.Refs()) == None
  {
    hide Program, Refs, Translate, Resolve, ShimFor, RefsError;
    var p := Program(exitCode, dlls, call, subsystem);
    RefsReadable(exitCode, dlls, call, subsystem, 0);
    ProgramImports(exitCode, dlls, call, subsystem);
    forall k | 0 <= k < |p.Refs()|
      ensures Resolve(ShimFor(p.Refs()), p.Refs()[k].dll, p.Refs()[k].fn).Some?
    {
      ResolvedBy(p.Refs(), k);
    }
    NoRefError(ShimFor(p.Refs()), p.g, p.Refs());
  }

  lemma ProgramImports(exitCode: u32, dlls: seq<DllSpec>, call: bool, subsystem: u16)
    requires Buildable(dlls, call) && NamesFit(dlls)
    ensures Program(exitCode, dlls, call, subsystem).imports == ExpectedDlls(dlls, call)
    ensures WellFormed(Program(exitCode, dlls, call, subsystem).g)
    ensures var p, t := Program(exitCode, dlls, call, subsystem), BuiltText(dlls, call, subsystem);
      Fits(t) && p.g == TextGeometry(t, |p.raw|)
  {
    hide BuildWithImports, BuiltText, TextGeometry, WellFormed, Fits;
    ProgramLoaded(exitCode, dlls, call, subsystem);
  }

  // ----- layout and embedding -----

  /** The example shim's symbols and its one load. */
  lemma ShimFacts(table: seq<ShimEntry>)
    ensures var shim := WithTable(table);
      && Symbol(shim, START) == Some(LOAD_BASE) && Symbol(shim, ENTRY_TARGET) == Some(LOAD_BASE + TARGET_OFFSET)
      && TargetOffset(shim) == Some(TARGET_OFFSET)
      && |Loads(shim.blob)| == 1 && Loads(shim.blob)[0].filesz == 228
  {
    hide Blob, LoadsFrom, SymbolFrom, ValidSymtabs, HasPhdrs;
    OneLoad();
    BothSymbols();
  }

  /** The image ends below the shim's range. */
  predicate BelowShim(dlls: seq<DllSpec>, call: bool) {
    IMAGE_BASE + PageUp(TEXT_RVA + DataEnd(dlls, call)) <= SHIM_MIN_BASE
  }

  lemma BuiltGeometry(t: Text, n: nat)
    requires Fits(t)
    ensures LayoutRejects(TextGeometry(t, n)).None?
    ensures var g := TextGeometry(t, n);
      |g.sections| == 1 && g.imageBase == IMAGE_BASE && g.sizeOfImage == PageUp(TEXT_RVA + t.vsize)
      && g.sizeOfHeaders == 0x200 && g.sections[0].fsize == t.fsize && t.fsize <= t.vsize + 0x200
  {
    assert TextGeometry(t, n).sections == [TextSection(t)];
  }

  lemma TextSize(dlls: seq<DllSpec>, call: bool, subsystem: u16)
    requires Buildable(dlls, call)
    ensures BuiltText(dlls, call, subsystem).vsize == DataEnd(dlls, call)
  {
    hide DataEnd;
  }

  /** The only thing that can be wrong with a built file is that it reaches the shim. */
  lemma BuiltAccepted(exitCode: u32, dlls: seq<DllSpec>, call: bool, subsystem: u16)
    requires Buildable(dlls, call) && NamesFit(dlls)
    ensures var p := Program(exitCode, dlls, call, subsystem);
      Rejects(p, ShimFor(p.Refs())) == if BelowShim(dlls, call) then None else Some(PatchFailed(ReachesShim))
  {
    hide Program, Refs, RefsError, Symbol, TargetOffset, LayoutRejects, WellFormed, Fits, TextGeometry, LoadsFrom,
         HasPhdrs, BuiltText, DataEnd, Blob;
    var p := Program(exitCode, dlls, call, subsystem);
    ProgramImports(exitCode, dlls, call, subsystem);
    BuiltGeometry(BuiltText(dlls, call, subsystem), |p.raw|);
    TextSize(dlls, call, subsystem);
    ImportsAccepted(exitCode, dlls, call, subsystem);
    ShimFacts(TableOf(p.Refs()));
    TextLimitExact(DataEnd(dlls, call));
  }

  /** A built file converts, with everything that the theorems assume, exactly when its image
      ends below the shim's range. */
  lemma BuiltConverts(exitCode: u32, dlls: seq<DllSpec>, call: bool, subsystem: u16)
    requires Buildable(dlls, call) && NamesFit(dlls)
    ensures var p := Program(exitCode, dlls, call, subsystem);
            var shim := ShimFor(p.Refs());
      && (Convert(p, shim).Ok? <==> BelowShim(dlls, call))
      && (BelowShim(dlls, call) ==> Rejects(p, shim).None?)
      && Convertible(p)
  {
    hide Program, Refs, FitsFile, FinalSegments, WellFormed, Rejects, BelowShim, ShimFor, WriteElf;
    var p := Program(exitCode, dlls, call, subsystem);
    ProgramImports(exitCode, dlls, call, subsystem);
    BuiltAccepted(exitCode, dlls, call, subsystem);
    if BelowShim(dlls, call) {
      FilesFit(p, ShimFor(p.Refs()));
      ConversionSucceeds(p, ShimFor(p.Refs()));
    }
  }

  /** Every built file that ends below the shim becomes a program that ends in the exit call with the chosen code. */
  lemma BuiltExits(exitCode: u32, dlls: seq<DllSpec>, call: bool, subsystem: u16)
    requires Buildable(dlls, call) && NamesFit(dlls) && BelowShim(dlls, call)
    ensures var p := Program(exitCode, dlls, call, subsystem);
            var r := Convert(p, ShimFor(p.Refs()));
      r.Ok? && ExitsWith(r.value, IMAGE_BASE + TEXT_RVA + ExitOffset(call), exitCode)
  {
    hide Program, Refs, Convertible, Rejects, Convert, ExitsWith, BelowShim, ShimFor;
    BuiltConverts(exitCode, dlls, call, subsystem);
    var p := Program(exitCode, dlls, call, subsystem);
    BuiltProgramExits(exitCode, dlls, call, subsystem, ShimFor(p.Refs()));
  }

  /** Its code is in a segment that is readable and executable and not writable. */
  lemma BuiltExecutable(exitCode: u32, dlls: seq<DllSpec>, call: bool, subsystem: u16)
    requires Buildable(dlls, call) && NamesFit(dlls) && BelowShim(dlls, call)
    ensures var p := Program(exitCode, dlls, call, subsystem);
            var r := Convert(p, ShimFor(p.Refs()));
      r.Ok? && HasPhdrs(r.value) && |Loads(r.value)| == 3 && ReadExecute(Loads(r.value)[1].flags)
  {
    hide Program, Refs, Convertible, Rejects, Convert, BelowShim, LoadsFrom, HasPhdrs, Permits, ReadExecute, ShimFor,
         DataEnd;
    BuiltConverts(exitCode, dlls, call, subsystem);
    TextPermissions(exitCode, dlls, call, subsystem);
    var p := Program(exitCode, dlls, call, subsystem);
    OneShimLoad(p.Refs());
    OutputPermissions(p, ShimFor(p.Refs()), 0, 0);
    TextFlags(Loads(Convert(p, ShimFor(p.Refs())).value)[1].flags);
  }

  lemma OneShimLoad(refs: seq<ImportRef>)
    ensures |Loads(ShimFor(refs).blob)| == 1
  {
    hide WithTable, LoadsFrom;
    ShimFacts(TableOf(refs));
  }

  predicate ReadExecute(flags: u32) {
    flags / 4 % 2 == 1 && flags / 2 % 2 == 0 && flags / 1 % 2 == 1
  }

  lemma TextFlags(flags: u32)
    requires Permits(flags, 0x6000_0020)
    ensures ReadExecute(flags)
  {
    assert 0x6000_0020 / 0x8000_0000 % 2 == 0 && 0x6000_0020 / 0x2000_0000 % 2 == 1
           && 0x6000_0020 / 0x4000_0000 % 2 == 1;
  }

  lemma TextPermissions(exitCode: u32, dlls: seq<DllSpec>, call: bool, subsystem: u16)
    requires Buildable(dlls, call) && NamesFit(dlls)
    ensures var g := Program(exitCode, dlls, call, subsystem).g;
      |g.sections| == 1 && g.sections[0].characteristics == 0x6000_0020
  {
    hide BuildWithImports, BuiltText, WellFormed, Fits;
    ProgramImports(exitCode, dlls, call, subsystem);
  }

  /** The whole way, with nothing assumed but the list: a file built with `call_first_ordinal` is
      converted into a program that enters the shim, is handed the entry code, and calls through
      a slot that holds the address of the shim's function. */
  lemma BuiltRuns(exitCode: u32, dlls: seq<DllSpec>, subsystem: u16)
    requires Buildable(dlls, true) && NamesFit(dlls) && |dlls[0].ordinals| > 0 && BelowShim(dlls, true)
    ensures var p := Program(exitCode, dlls, true, subsystem);
            var r := Convert(p, ShimFor(p.Refs()));
      && r.Ok? && HandsOver(r.value, Some(LOAD_BASE), LOAD_BASE + TARGET_OFFSET, IMAGE_BASE + TEXT_RVA)
      && CallsThrough(r.value, IMAGE_BASE + TEXT_RVA, LOAD_BASE)
  {
    hide Program, Refs, Convertible, Rejects, Convert, HandsOver, CallsThrough, Symbol, Resolve, BelowShim, OrdinalName;
    var p := Program(exitCode, dlls, true, subsystem);
    var shim := ShimFor(p.Refs());
    BuiltConverts(exitCode, dlls, true, subsystem);
    BuiltProgramCalls(exitCode, dlls, subsystem, shim);
    ShimFacts(TableOf(p.Refs()));
    FirstRef(exitCode, dlls, true, subsystem);
    ResolvedBy(p.Refs(), 0);
  }

  lemma FirstRef(exitCode: u32, dlls: seq<DllSpec>, call: bool, subsystem: u16)
    requires Buildable(dlls, call) && NamesFit(dlls) && |dlls| > 0 && |dlls[0].ordinals| > 0
    ensures var refs := Program(exitCode, dlls, call, subsystem).Refs();
      refs != [] && refs[0].dll == dlls[0].name && refs[0].fn == OrdinalName(dlls[0].ordinals[0])
  {
    hide DllRefs, ExpectedDlls, ThunkOffset, BuildWithImports, BuiltText, OrdinalName;
    ProgramImports(exitCode, dlls, call, subsystem);
    BuiltDllRef(dlls, call, 0, 0);
  }
}
