/** A file from tools/mkminipe.py, taken through the parser and the conversion into a loaded program. */
module BuiltProgram {
  import opened Words
  import opened CStrings
  import opened Numerals
  import opened Elf32
  import opened PeImage
  import opened PeImports
  import opened Shim
  import opened StubPatch
  import opened Pipeline
  import opened Meaning
  import opened MkMiniPe
  import opened RoundTrip
  import opened RoundTripImports

  /** The parsed form of the built file; `BuilderRoundTrip` says that `Load` gives it. */
  function Program(exitCode: u32, dlls: seq<DllSpec>, call: bool, subsystem: u16): (p: LoadedPe)
    requires Buildable(dlls, call) && NamesFit(dlls)
  {
    var f, t := BuildWithImports(exitCode, dlls, call, subsystem), BuiltText(dlls, call, subsystem);
    ProgramLoaded(exitCode, dlls, call, subsystem);
    PeFile(TextGeometry(t, |f|), ExpectedDlls(dlls, call), f)
  }

  lemma ProgramLoaded(exitCode: u32, dlls: seq<DllSpec>, call: bool, subsystem: u16)
    requires Buildable(dlls, call) && NamesFit(dlls)
    ensures var f, t := BuildWithImports(exitCode, dlls, call, subsystem), BuiltText(dlls, call, subsystem);
      Fits(t) && |f| == HEADER_SIZE + t.fsize == TextGeometry(t, |f|).rawSize
      && RawBacked(TextGeometry(t, |f|)) && WellFormed(TextGeometry(t, |f|))
  {
    hide Body, BuildWithImports, BuiltText, PieceAt, PeHeader;
    BuiltIsBuilt(exitCode, dlls, call, subsystem);
    BuiltWellFormed(BuildWithImports(exitCode, dlls, call, subsystem), BuiltText(dlls, call, subsystem));
  }

  // ----- the imports that the builder lists -----

  /** RVA of the slot of ordinal `j` of DLL `i`. */
  function SlotRva(dlls: seq<DllSpec>, call: bool, i: nat, j: nat): nat
    requires i < |dlls|
  {
    TEXT_RVA + ThunkOffset(dlls, call, i) + 4 * j
  }

  function ExpectedRef(dlls: seq<DllSpec>, call: bool, i: nat, j: nat): ImportRef
    requires Buildable(dlls, call) && i < |dlls| && j < |dlls[i].ordinals|
  {
    SlotInRange(dlls, call, i, j);
    ImportRef(dlls[i].name, OrdinalName(dlls[i].ordinals[j]), SlotRva(dlls, call, i, j))
  }

  /** Thunk tables lie one after the other. */
  lemma SlotInRange(dlls: seq<DllSpec>, call: bool, i: nat, j: nat)
    requires Buildable(dlls, call) && i < |dlls| && j < |dlls[i].ordinals|
    ensures SlotRva(dlls, call, i, j) + 8 <= TEXT_RVA + ThunkOffset(dlls, call, i + 1) < MOD32
    ensures TEXT_RVA + CodeLen(call) <= SlotRva(dlls, call, i, j)
  {
    hide NameOffset, NameStart;
    OffsetsInRange(dlls, call, i + 1);
    OffsetsBounded(dlls, call, i);
    NamesAfterCode(dlls, call);
  }

  lemma NamesAfterCode(dlls: seq<DllSpec>, call: bool)
    ensures CodeLen(call) <= NameOffset(dlls, call, |dlls|)
  {
  }

  lemma PaddedName(s: seq<byte>, cap: nat)
    requires NoNul(s) && |s| < cap
    ensures CStrAt(Padded(s, cap), 0) == s
  {
    var b := Padded(s, cap);
    assert b[0..0 + |s|] == s && b[|s|] == 0;
    CStrAtStops(b, 0, s);
  }

  lemma {:induction false} DllRefsAre(d: ImportDll, j: nat, m: nat)
    requires j <= m < |d.funcs|
    ensures |DllRefs(d, j)| == |d.funcs| - j
    ensures DllRefs(d, j)[m - j] == ImportRef(CStrAt(d.dllName, 0), CStrAt(d.funcs[m].name, 0), d.funcs[m].iatRva)
    decreases m - j
  {
    if j < m {
      DllRefsAre(d, j + 1, m);
    } else {
      DllRefsCount(d, j);
    }
  }

  lemma {:induction false} DllRefsCount(d: ImportDll, j: nat)
    requires j <= |d.funcs|
    ensures |DllRefs(d, j)| == |d.funcs| - j
    decreases |d.funcs| - j
  {
    if j < |d.funcs| {
      DllRefsCount(d, j + 1);
    }
  }

  lemma BuiltDllRef(dlls: seq<DllSpec>, call: bool, i: nat, j: nat)
    requires Buildable(dlls, call) && NamesFit(dlls) && i < |dlls| && j < |dlls[i].ordinals|
    ensures var refs := DllRefs(ExpectedDlls(dlls, call)[i], 0);
      |refs| == |dlls[i].ordinals| && refs[j] == ExpectedRef(dlls, call, i, j)
  {
    hide ThunkOffset, CStrAt, Padded, DllRefs, OrdinalName;
    var d := ExpectedDlls(dlls, call)[i];
    assert d == ExpectedDll(dlls, call, i);
    SlotInRange(dlls, call, i, j);
    DllRefsAre(d, 0, j);
    PaddedName(dlls[i].name, DLL_NAME_CAP);
    OrdinalIsName(dlls[i].ordinals[j]);
    PaddedName(OrdinalName(dlls[i].ordinals[j]), FUNC_NAME_CAP);
  }

  lemma OrdinalIsName(n: u16)
    ensures NoNul(OrdinalName(n)) && |OrdinalName(n)| < FUNC_NAME_CAP
  {
    DecimalShort(n);
  }

  /** Slots ascend without overlap, from `lo` on. */
  predicate Spaced(refs: seq<ImportRef>, lo: nat) {
    && (forall k :: 0 <= k < |refs| ==> lo <= refs[k].iatRva)
    && (forall k, m :: 0 <= k < m < |refs| ==> refs[k].iatRva + 4 <= refs[m].iatRva)
  }

  lemma JoinSpaced(a: seq<ImportRef>, lo: nat, b: seq<ImportRef>, mid: nat)
    requires Spaced(a, lo) && Spaced(b, mid) && lo <= mid
    requires forall k :: 0 <= k < |a| ==> a[k].iatRva + 4 <= mid
    ensures Spaced(a + b, lo)
  {
  }

  lemma BuiltDllSpaced(dlls: seq<DllSpec>, call: bool, i: nat)
    requires Buildable(dlls, call) && NamesFit(dlls) && i < |dlls|
    ensures var refs := DllRefs(ExpectedDlls(dlls, call)[i], 0);
      && Spaced(refs, TEXT_RVA + ThunkOffset(dlls, call, i))
      && forall k :: 0 <= k < |refs| ==> refs[k].iatRva + 4 <= TEXT_RVA + ThunkOffset(dlls, call, i + 1)
  {
    hide ThunkOffset, DllRefs, ExpectedDlls, OrdinalName;
    var refs := DllRefs(ExpectedDlls(dlls, call)[i], 0);
    BuiltDllCount(dlls, call, i);
    forall k | 0 <= k < |refs|
      ensures refs[k].iatRva == TEXT_RVA + ThunkOffset(dlls, call, i) + 4 * k
      ensures refs[k].iatRva + 4 <= TEXT_RVA + ThunkOffset(dlls, call, i + 1)
    {
      BuiltDllRef(dlls, call, i, k);
      SlotInRange(dlls, call, i, k);
    }
  }

  lemma BuiltDllCount(dlls: seq<DllSpec>, call: bool, i: nat)
    requires Buildable(dlls, call) && NamesFit(dlls) && i < |dlls|
    ensures |DllRefs(ExpectedDlls(dlls, call)[i], 0)| == |dlls[i].ordinals|
  {
    hide DllRefs;
    DllRefsCount(ExpectedDlls(dlls, call)[i], 0);
  }

  lemma {:induction false} BuiltSpaced(dlls: seq<DllSpec>, call: bool, i: nat)
    requires Buildable(dlls, call) && NamesFit(dlls) && i <= |dlls|
    ensures Spaced(Refs(ExpectedDlls(dlls, call), i), TEXT_RVA + ThunkOffset(dlls, call, i))
    decreases |dlls| - i
  {
    hide ThunkOffset, DllRefs, ExpectedDlls, Spaced;
    if i < |dlls| {
      BuiltSpaced(dlls, call, i + 1);
      BuiltDllSpaced(dlls, call, i);
      TablesAscend(dlls, call, i);
      JoinSpaced(DllRefs(ExpectedDlls(dlls, call)[i], 0), TEXT_RVA + ThunkOffset(dlls, call, i),
                 Refs(ExpectedDlls(dlls, call), i + 1), TEXT_RVA + ThunkOffset(dlls, call, i + 1));
    } else {
      NothingSpaced(TEXT_RVA + ThunkOffset(dlls, call, i));
    }
  }

  lemma NothingSpaced(lo: nat)
    ensures Spaced([], lo)
  {
  }

  lemma TablesAscend(dlls: seq<DllSpec>, call: bool, i: nat)
    requires i < |dlls|
    ensures ThunkOffset(dlls, call, i) <= ThunkOffset(dlls, call, i + 1)
  {
  }

  /** Where an import stands in the order of the patching loops. */
  lemma {:induction false} FindRef(imports: seq<ImportDll>, from: nat, i: nat, j: nat) returns (k: nat)
    requires from <= i < |imports| && j < |DllRefs(imports[i], 0)|
    ensures k < |Refs(imports, from)| && Refs(imports, from)[k] == DllRefs(imports[i], 0)[j]
    decreases i - from
  {
    hide DllRefs;
    if from == i {
      k := j;
    } else {
      k := FindRef(imports, from + 1, i, j);
      k := k + |DllRefs(imports[from], 0)|;
    }
  }

  // ----- the built program, converted -----

  /** In the running program every thunk of every DLL holds the shim's address
      for that DLL's `#<ordinal>`, and no conversion succeeds without one. */
  lemma BuiltSlotsLinked(exitCode: u32, dlls: seq<DllSpec>, call: bool, subsystem: u16, shim: EmbeddedShim, i: nat,
                         j: nat)
    requires Buildable(dlls, call) && NamesFit(dlls) && i < |dlls| && j < |dlls[i].ordinals|
    requires var p := Program(exitCode, dlls, call, subsystem); Convertible(p) && Rejects(p, shim).None?
    ensures var p := Program(exitCode, dlls, call, subsystem);
      && Convert(p, shim).Ok?
      && Resolve(shim, dlls[i].name, OrdinalName(dlls[i].ordinals[j])).Some?
      && LoadedWord(Convert(p, shim).value, IMAGE_BASE + SlotRva(dlls, call, i, j))
         == Resolve(shim, dlls[i].name, OrdinalName(dlls[i].ordinals[j]))
  {
    hide Convertible, Rejects, Convert, LoadedWord, Resolve, ThunkOffset, DllRefs, OrdinalName, BuildWithImports,
         ExpectedDlls;
    var p := Program(exitCode, dlls, call, subsystem);
    BuiltDllRef(dlls, call, i, j);
    var k := FindRef(p.imports, 0, i, j);
    BuiltSpaced(dlls, call, 0);
    SlotsLinked(p, shim, k);
  }

  /** No slot covers the entry code. */
  lemma {:induction false} SlotsAbove(shim: EmbeddedShim, refs: seq<ImportRef>, lo: nat, r: nat)
    requires Spaced(refs, lo) && r < lo
    ensures SlotByte(Slots(shim, refs), r) == None
    decreases |refs|
  {
    if refs != [] {
      SlotsAbove(shim, refs[1..], lo, r);
      assert refs[0].iatRva >= lo;
      var addr := Resolve(shim, refs[0].dll, refs[0].fn);
      assert if addr.Some? then Slots(shim, refs)[1..] == Slots(shim, refs[1..])
             else Slots(shim, refs) == Slots(shim, refs[1..]);
    }
  }

  /** Byte `k` of the entry code is where the builder put it, once loaded. */
  lemma CodeLoaded(exitCode: u32, dlls: seq<DllSpec>, call: bool, subsystem: u16, shim: EmbeddedShim, k: nat)
    requires Buildable(dlls, call) && NamesFit(dlls) && k < CodeLen(call)
    requires var p := Program(exitCode, dlls, call, subsystem); Convertible(p) && Rejects(p, shim).None?
    ensures var p := Program(exitCode, dlls, call, subsystem);
      && Convert(p, shim).Ok?
      && LoadedByte(Convert(p, shim).value, IMAGE_BASE + TEXT_RVA + k) == Some(Code(exitCode, dlls, call)[k])
  {
    hide Convertible, Rejects, Convert, LoadedByte, ThunkOffset, Refs, Slots, SlotByte, Spaced, PeByte,
         BuildWithImports, Code;
    var p := Program(exitCode, dlls, call, subsystem);
    BuiltSpaced(dlls, call, 0);
    TablesAfterCode(dlls, call);
    SlotsAbove(shim, p.Refs(), TEXT_RVA + ThunkOffset(dlls, call, 0), TEXT_RVA + k);
    CodeInImage(exitCode, dlls, call, subsystem, k);
    MeaningPreserved(p, shim, IMAGE_BASE + TEXT_RVA + k);
  }

  lemma TablesAfterCode(dlls: seq<DllSpec>, call: bool)
    ensures CodeLen(call) <= ThunkOffset(dlls, call, 0) <= DataEnd(dlls, call)
  {
    OffsetsBounded(dlls, call, 0);
  }

  lemma CodeInImage(exitCode: u32, dlls: seq<DllSpec>, call: bool, subsystem: u16, k: nat)
    requires Buildable(dlls, call) && NamesFit(dlls) && k < CodeLen(call)
    ensures var p := Program(exitCode, dlls, call, subsystem);
      PeByte(p.g, p.raw, TEXT_RVA + k) == Some(Code(exitCode, dlls, call)[k])
  {
    hide Body, BuildWithImports, BuiltText, PieceAt, PeHeader, Code, FilePos, Translate, WellFormed;
    var p, t := Program(exitCode, dlls, call, subsystem), BuiltText(dlls, call, subsystem);
    var code := Code(exitCode, dlls, call);
    BuiltIsBuilt(exitCode, dlls, call, subsystem);
    ProgramLoaded(exitCode, dlls, call, subsystem);
    BodyPieces(exitCode, dlls, call);
    PieceByte(p.raw, t, Body(exitCode, dlls, call), 0, code, k);
    TranslateAgrees(p.g, TEXT_RVA + k, 1, 0, 1);
  }

  lemma EntryIsCode(exitCode: u32, dlls: seq<DllSpec>, call: bool, subsystem: u16)
    requires Buildable(dlls, call) && NamesFit(dlls)
    ensures Program(exitCode, dlls, call, subsystem).EntryVa() == IMAGE_BASE + TEXT_RVA
  {
    hide DataEnd, BuildWithImports, ExpectedDlls;
  }

  /** The loaded file enters the shim at `start`, which jumps through the word at `target` to `va`. */
  predicate HandsOver(f: seq<byte>, start: Option<u32>, target: nat, va: u32) {
    HasPhdrs(f) && Some(EntryOf(f)) == start && LoadedWord(f, target) == Some(va)
  }

  /** The code at `va` in the loaded file calls through a slot that holds `addr`. */
  predicate CallsThrough(f: seq<byte>, va: nat, addr: u32) {
    && LoadedByte(f, va) == Some(0xFF) && LoadedByte(f, va + 1) == Some(0x15)
    && var slot := LoadedWord(f, va + 2);
       slot.Some? && LoadedWord(f, slot.value) == Some(addr)
  }

  /** With `call_first_ordinal`, the running program starts in the shim, is handed the entry code,
      and that code calls through the slot that holds the address of the first DLL's first ordinal. */
  lemma BuiltProgramCalls(exitCode: u32, dlls: seq<DllSpec>, subsystem: u16, shim: EmbeddedShim)
    requires Buildable(dlls, true) && NamesFit(dlls) && |dlls[0].ordinals| > 0
    requires var p := Program(exitCode, dlls, true, subsystem); Convertible(p) && Rejects(p, shim).None?
    ensures var r, addr := Convert(Program(exitCode, dlls, true, subsystem), shim),
                           Resolve(shim, dlls[0].name, OrdinalName(dlls[0].ordinals[0]));
      && r.Ok? && Symbol(shim, ENTRY_TARGET).Some? && addr.Some?
      && HandsOver(r.value, Symbol(shim, START), Symbol(shim, ENTRY_TARGET).value, IMAGE_BASE + TEXT_RVA)
      && CallsThrough(r.value, IMAGE_BASE + TEXT_RVA, addr.value)
  {
    hide Convertible, Rejects, Convert, LoadedByte, LoadedWord, ThunkOffset, Resolve, Symbol, OrdinalName,
         BuildWithImports, ExpectedDlls, Code, DataEnd, Word, Program;
    var p := Program(exitCode, dlls, true, subsystem);
    EntryHandoff(p, shim);
    EntryIsCode(exitCode, dlls, true, subsystem);
    BuiltSlotsLinked(exitCode, dlls, true, subsystem, shim, 0, 0);
    CallCode(exitCode, dlls);
    var f, code := Convert(p, shim).value, Code(exitCode, dlls, true);
    forall k | 0 <= k < CodeLen(true)
      ensures LoadedByte(f, IMAGE_BASE + TEXT_RVA + k) == Some(code[k])
    {
      CodeLoaded(exitCode, dlls, true, subsystem, shim, k);
    }
    assert code[0] == code[..2][0] && code[1] == code[..2][1];
    LoadedWordOf(f, IMAGE_BASE + TEXT_RVA, code, 2);
  }

  /** The code at `va` in the loaded file is mov eax, 1; mov ebx, `code`; int 0x80: the Linux call to exit. */
  predicate ExitsWith(f: seq<byte>, va: nat, code: u32) {
    && LoadedByte(f, va) == Some(0xB8) && LoadedWord(f, va + 1) == Some(1)
    && LoadedByte(f, va + 5) == Some(0xBB) && LoadedWord(f, va + 6) == Some(code)
    && LoadedByte(f, va + 10) == Some(0xCD) && LoadedByte(f, va + 11) == Some(0x80)
  }

  /** Where the entry code stops calling and exits. */
  function ExitOffset(call: bool): nat {
    if call then 6 else 0
  }

  lemma ExitCode(exitCode: u32, dlls: seq<DllSpec>, call: bool)
    requires Buildable(dlls, call)
    ensures var code, o := Code(exitCode, dlls, call), ExitOffset(call);
      && |code| == o + 12 == CodeLen(call)
      && code[o] == 0xB8 && Word(code, o + 1) == 1 && code[o + 5] == 0xBB && Word(code, o + 6) == exitCode
      && code[o + 10] == 0xCD && code[o + 11] == 0x80
  {
    hide ThunkOffset, Bytes32, Word, DataEnd;
    var tail := ExitCodeBytes(exitCode);
    var code, o := Code(exitCode, dlls, call), ExitOffset(call);
    assert code == code[..o] + tail && |code[..o]| == o;
    ExitTail(exitCode);
    WordOfConcat(code[..o], tail, o + 1);
    WordOfConcat(code[..o], tail, o + 6);
  }

  lemma ExitTail(exitCode: u32)
    ensures var t := ExitCodeBytes(exitCode);
      && t[0] == 0xB8 && Word(t, 1) == 1 && t[5] == 0xBB && Word(t, 6) == exitCode && t[10] == 0xCD && t[11] == 0x80
  {
    var t := ExitCodeBytes(exitCode);
    assert t[6..10] == Bytes32(exitCode);
    WordEncodes(t, 6, exitCode);
  }

  /** The running program ends in the exit call with the chosen code. */
  lemma BuiltProgramExits(exitCode: u32, dlls: seq<DllSpec>, call: bool, subsystem: u16, shim: EmbeddedShim)
    requires Buildable(dlls, call) && NamesFit(dlls)
    requires var p := Program(exitCode, dlls, call, subsystem); Convertible(p) && Rejects(p, shim).None?
    ensures var r := Convert(Program(exitCode, dlls, call, subsystem), shim);
      r.Ok? && ExitsWith(r.value, IMAGE_BASE + TEXT_RVA + ExitOffset(call), exitCode)
  {
    hide Convertible, Rejects, Convert, LoadedByte, LoadedWord, ThunkOffset, BuildWithImports, Code, DataEnd, Word,
         Program;
    CodeLoaded(exitCode, dlls, call, subsystem, shim, 0);
    ExitCode(exitCode, dlls, call);
    var f, code := Convert(Program(exitCode, dlls, call, subsystem), shim).value, Code(exitCode, dlls, call);
    forall k | 0 <= k < CodeLen(call)
      ensures LoadedByte(f, IMAGE_BASE + TEXT_RVA + k) == Some(code[k])
    {
      CodeLoaded(exitCode, dlls, call, subsystem, shim, k);
    }
    LoadedWordOf(f, IMAGE_BASE + TEXT_RVA, code, ExitOffset(call) + 1);
    LoadedWordOf(f, IMAGE_BASE + TEXT_RVA, code, ExitOffset(call) + 6);
  }

  lemma LoadedWordOf(f: seq<byte>, a: nat, s: seq<byte>, o: nat)
    requires o + 4 <= |s| && forall k :: 0 <= k < |s| ==> LoadedByte(f, a + k) == Some(s[k])
    ensures LoadedWord(f, a + o) == Some(Word(s, o))
  {
    hide LoadedByte;
    assert LoadedByte(f, a + o + 0) == LoadedByte(f, a + (o + 0));
    assert LoadedByte(f, a + o + 1) == LoadedByte(f, a + (o + 1));
    assert LoadedByte(f, a + o + 2) == LoadedByte(f, a + (o + 2));
    assert LoadedByte(f, a + o + 3) == LoadedByte(f, a + (o + 3));
  }
}
