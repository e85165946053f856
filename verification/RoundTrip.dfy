/** What src/pe_reader.c and src/pe_imports.c make of the files that tools/mkminipe.py builds. */
module RoundTrip {
  import opened Words
  import opened PeImage
  import opened PeImports
  import opened PeReader
  import opened MkMiniPe

  // ----- fields inside pieces -----

  lemma WordIn(f: seq<byte>, p: nat, s: seq<byte>, o: nat)
    requires p + |s| <= |f| && f[p..p + |s|] == s && o + 4 <= |s|
    ensures Word(f, p + o) == Word(s, o)
  {
    var t := f[p..p + |s|];
    assert forall i :: 0 <= i < |s| ==> f[p + i] == t[i];
    assert f[p + o] == s[o] && f[p + o + 1] == s[o + 1] && f[p + o + 2] == s[o + 2] && f[p + o + 3] == s[o + 3];
  }

  lemma HalfIn(f: seq<byte>, p: nat, s: seq<byte>, o: nat)
    requires p + |s| <= |f| && f[p..p + |s|] == s && o + 2 <= |s|
    ensures Half(f, p + o) == Half(s, o)
  {
    var t := f[p..p + |s|];
    assert forall i :: 0 <= i < |s| ==> f[p + i] == t[i];
    assert f[p + o] == s[o] && f[p + o + 1] == s[o + 1];
  }

  lemma HalfOfBytes(v: u16)
    ensures Half(Bytes16(v), 0) == v
  {
  }

  /** Word `k` of a packed group that follows a prefix. */
  lemma PackedWord(a: seq<byte>, ws: seq<u32>, k: nat)
    requires k < |ws|
    ensures Word(a + Pack(ws), |a| + 4 * k) == ws[k]
  {
    WordOfPack(ws, k);
    hide Pack, Word;
    WordOfConcat(a, Pack(ws), |a| + 4 * k);
  }

  lemma DosFields()
    ensures Half(DosHeader(), 0) == 0x5A4D && Word(DosHeader(), 60) == 64
  {
    WordOfConcat([0x4D, 0x5A] + Zeros(58), Bytes32(64), 60);
    WordOfBytes32(64);
  }

  lemma CoffFields()
    ensures Half(CoffHeader(), 0) == 0x014C && Half(CoffHeader(), 2) == 1
    ensures Half(CoffHeader(), 16) == 224 && Half(CoffHeader(), 18) == 0x0102
  {
    var a, b, c := Bytes16(0x014C) + Bytes16(1), Pack([0, 0, 0]), Bytes16(224) + Bytes16(0x0102);
    hide Pack;
    HalfOfConcat(a + b, c, 0);
    HalfOfConcat(a, b, 0);
    HalfOfConcat(a + b, c, 2);
    HalfOfConcat(a, b, 2);
    HalfOfConcat(a + b, c, 16);
    HalfOfConcat(a + b, c, 18);
  }

  lemma SectionFields(t: Text)
    ensures var s := SectionHeader(t);
      && s[..8] == TEXT_NAME
      && Word(s, 8) == t.vsize && Word(s, 12) == TEXT_RVA && Word(s, 16) == t.fsize
      && Word(s, 20) == HEADER_SIZE && Word(s, 36) == TEXT_FLAGS
  {
    var ws := [t.vsize, TEXT_RVA, t.fsize, HEADER_SIZE, 0, 0, 0, TEXT_FLAGS];
    PackedWord(TEXT_NAME, ws, 0);
    PackedWord(TEXT_NAME, ws, 1);
    PackedWord(TEXT_NAME, ws, 2);
    PackedWord(TEXT_NAME, ws, 3);
    PackedWord(TEXT_NAME, ws, 7);
  }

  // ----- the optional header -----

  function OptA(t: Text): (s: seq<byte>)
    requires Fits(t)
    ensures |s| == 40
  {
    [0x0B, 0x01, 1, 0] + Pack([t.fsize, 0, 0, t.entryRva, TEXT_RVA, 0, IMAGE_BASE, 0x1000, 0x200])
  }

  function OptB(t: Text): (s: seq<byte>)
    requires Fits(t)
    ensures |s| == 28
  {
    [0, 0, 0, 0, 0, 0, 0, 0, 4, 0, 0, 0] + Pack([0, SizeOfImage(t), HEADER_SIZE, 0])
  }

  function OptC(t: Text): (s: seq<byte>)
    ensures |s| == 28
  {
    Bytes16(t.subsystem) + Bytes16(0) + Pack([0x10_0000, 0x1000, 0x10_0000, 0x1000, 0, 16])
  }

  lemma OptParts(t: Text)
    requires Fits(t)
    ensures OptionalHeader(t) == OptA(t) + (OptB(t) + (OptC(t) + Pack(DirectoryWords(t))))
  {
    hide Pack, Bytes16;
    ConcatAssoc(OptA(t), OptB(t), OptC(t));
    ConcatAssoc(OptA(t) + OptB(t), OptC(t), Pack(DirectoryWords(t)));
    ConcatAssoc(OptA(t), OptB(t), OptC(t) + Pack(DirectoryWords(t)));
  }

  /** The optional header's fields, wherever it stands in a file. */
  lemma OptFields(f: seq<byte>, o: nat, t: Text)
    requires Fits(t) && o + 224 <= |f| && f[o..o + 224] == OptionalHeader(t)
    ensures f[o..o + 40] == OptA(t) && f[o + 40..o + 68] == OptB(t) && f[o + 68..o + 96] == OptC(t)
    ensures f[o + 96..o + 224] == Pack(DirectoryWords(t))
  {
    OptParts(t);
    hide OptionalHeader, Pack, OptA, OptB, OptC;
    SplitSlice(f, o, OptA(t), OptB(t) + (OptC(t) + Pack(DirectoryWords(t))));
    SplitSlice(f, o + 40, OptB(t), OptC(t) + Pack(DirectoryWords(t)));
    SplitSlice(f, o + 68, OptC(t), Pack(DirectoryWords(t)));
  }

  lemma OptAFields(f: seq<byte>, o: nat, t: Text)
    requires Fits(t) && o + 40 <= |f| && f[o..o + 40] == OptA(t)
    ensures Half(f, o) == 0x010B && Word(f, o + 16) == t.entryRva
    ensures Word(f, o + 28) == IMAGE_BASE && Word(f, o + 32) == 0x1000 && Word(f, o + 36) == 0x200
  {
    var a, ws := [0x0B, 0x01, 1, 0], [t.fsize, 0, 0, t.entryRva, TEXT_RVA, 0, IMAGE_BASE, 0x1000, 0x200];
    PackedWord(a, ws, 3);
    PackedWord(a, ws, 6);
    PackedWord(a, ws, 7);
    PackedWord(a, ws, 8);
    assert Half(OptA(t), 0) == 0x010B;
    hide Word, Half, Pack;
    HalfIn(f, o, OptA(t), 0);
    WordIn(f, o, OptA(t), 16);
    WordIn(f, o, OptA(t), 28);
    WordIn(f, o, OptA(t), 32);
    WordIn(f, o, OptA(t), 36);
  }

  lemma OptBFields(f: seq<byte>, p: nat, t: Text)
    requires Fits(t) && p + 28 <= |f| && f[p..p + 28] == OptB(t)
    ensures Word(f, p + 16) == SizeOfImage(t) && Word(f, p + 20) == HEADER_SIZE
  {
    var a, ws := [0, 0, 0, 0, 0, 0, 0, 0, 4, 0, 0, 0], [0, SizeOfImage(t), HEADER_SIZE, 0];
    PackedWord(a, ws, 1);
    PackedWord(a, ws, 2);
    hide Word, Pack, SizeOfImage;
    WordIn(f, p, OptB(t), 16);
    WordIn(f, p, OptB(t), 20);
  }

  lemma OptCFields(f: seq<byte>, p: nat, t: Text)
    requires p + 28 <= |f| && f[p..p + 28] == OptC(t)
    ensures Half(f, p) == t.subsystem && Word(f, p + 24) == 16
  {
    var a, ws := Bytes16(t.subsystem) + Bytes16(0), [0x10_0000, 0x1000, 0x10_0000, 0x1000, 0, 16];
    PackedWord(a, ws, 5);
    HalfOfConcat(a, Pack(ws), 0);
    HalfOfConcat(Bytes16(t.subsystem), Bytes16(0), 0);
    HalfOfBytes(t.subsystem);
    hide Word, Half, Pack, Bytes16;
    HalfIn(f, p, OptC(t), 0);
    WordIn(f, p, OptC(t), 24);
  }

  lemma DirectoryFields(f: seq<byte>, p: nat, t: Text, k: nat)
    requires p + 128 <= |f| && f[p..p + 128] == Pack(DirectoryWords(t)) && k < 32
    ensures Word(f, p + 4 * k) == if k == 2 then t.importRva else if k == 3 then t.importSize else 0
  {
    WordOfPack(DirectoryWords(t), k);
    hide Pack, Word;
    WordIn(f, p, Pack(DirectoryWords(t)), 4 * k);
  }

  // ----- the parser on a built header -----

  /** `f` starts with the header that describes `t`, and `t`'s text fills the rest. */
  predicate Built(f: seq<byte>, t: Text) {
    Fits(t) && |f| == HEADER_SIZE + t.fsize && f[..HEADER_SIZE] == PeHeader(t)
  }

  lemma HeaderPieces(f: seq<byte>, t: Text)
    requires Built(f, t)
    ensures f[0..64] == DosHeader() && f[64..68] == [0x50, 0x45, 0, 0] && f[68..88] == CoffHeader()
    ensures f[88..312] == OptionalHeader(t) && f[312..352] == SectionHeader(t)
  {
    hide DosHeader, CoffHeader, OptionalHeader, SectionHeader, Fits;
    var e := SectionHeader(t) + Zeros(160);
    var d := OptionalHeader(t) + e;
    var c := CoffHeader() + d;
    var b := [0x50, 0x45, 0, 0] + c;
    assert f[0..512] == DosHeader() + b;
    SplitSlice(f, 0, DosHeader(), b);
    SplitSlice(f, 64, [0x50, 0x45, 0, 0], c);
    SplitSlice(f, 68, CoffHeader(), d);
    SplitSlice(f, 88, OptionalHeader(t), e);
    SplitSlice(f, 312, SectionHeader(t), Zeros(160));
  }

  lemma SignatureWord()
    ensures Word([0x50, 0x45, 0, 0], 0) == 0x0000_4550
  {
  }

  lemma CoffParses(f: seq<byte>, t: Text)
    requires Built(f, t)
    ensures ParseCoff(f) == Ok(68)
    ensures Half(f, 68 + 2) == 1 && Half(f, 68 + 16) == 224
  {
    hide Word, Half, DosHeader, CoffHeader, OptionalHeader, SectionHeader, PeHeader, Fits;
    HeaderPieces(f, t);
    DosFields();
    CoffFields();
    SignatureWord();
    WordIn(f, 64, [0x50, 0x45, 0, 0], 0);
    HalfIn(f, 0, DosHeader(), 0);
    WordIn(f, 0, DosHeader(), 60);
    HalfIn(f, 68, CoffHeader(), 0);
    HalfIn(f, 68, CoffHeader(), 2);
    HalfIn(f, 68, CoffHeader(), 16);
    HalfIn(f, 68, CoffHeader(), 18);
  }

  /** What the parser reads from a built optional header. */
  function ExpectedHeaders(t: Text, n: nat): Headers
    requires Fits(t)
  {
    Headers(Geometry(IMAGE_BASE, t.entryRva, SizeOfImage(t), HEADER_SIZE, [], n),
            t.subsystem, 0x1000, 0x200, 312, 1,
            DataDirectory(t.importRva, t.importSize), DataDirectory(0, 0), DataDirectory(0, 0))
  }

  lemma DirectoriesRead(f: seq<byte>, t: Text, i: nat)
    requires |f| >= 312 && Fits(t) && f[88..312] == OptionalHeader(t) && i < 16
    ensures DirectoryAt(f, 88, i) == if i == 1 then DataDirectory(t.importRva, t.importSize) else DataDirectory(0, 0)
  {
    OptFields(f, 88, t);
    OptCFields(f, 156, t);
    DirectoryFields(f, 184, t, 2 * i);
    DirectoryFields(f, 184, t, 2 * i + 1);
    hide Word, Fits, Pack;
    assert 184 + 4 * (2 * i) == 88 + 96 + 8 * i && 184 + 4 * (2 * i + 1) == 88 + 100 + 8 * i;
  }

  lemma OptionalParses(f: seq<byte>, t: Text)
    requires Built(f, t) && (t.subsystem == 2 || t.subsystem == 3)
    ensures CheckOptional(f, 68) == None
    ensures ReadOptional(f, 68) == ExpectedHeaders(t, |f|)
  {
    hide Word, Half, DirectoryAt, PeHeader, OptionalHeader, OptA, OptB, OptC, Pack, SizeOfImage, DosHeader,
         CoffHeader, SectionHeader, Fits, ParseCoff;
    HeaderPieces(f, t);
    OptFields(f, 88, t);
    OptAFields(f, 88, t);
    OptBFields(f, 128, t);
    OptCFields(f, 156, t);
    DirectoriesRead(f, t, 1);
    DirectoriesRead(f, t, 5);
    DirectoriesRead(f, t, 9);
    DirectoriesRead(f, t, 13);
    DirectoriesRead(f, t, 14);
    CoffParses(f, t);
  }

  function TextSection(t: Text): Section {
    Section(TEXT_NAME, TEXT_RVA, t.vsize, HEADER_SIZE, t.fsize, TEXT_FLAGS)
  }

  /** The geometry of a built file of `n` bytes. */
  function TextGeometry(t: Text, n: nat): Geometry
    requires Fits(t)
  {
    Geometry(IMAGE_BASE, t.entryRva, SizeOfImage(t), HEADER_SIZE, [TextSection(t)], n)
  }

  lemma SectionParses(f: seq<byte>, t: Text)
    requires Built(f, t)
    ensures SectionsFrom(f, 312, 1, []) == Ok([TextSection(t)])
  {
    HeaderPieces(f, t);
    SectionFields(t);
    var s := SectionHeader(t);
    SliceOfSlice(f, 312, 352, 0, 8);
    WordIn(f, 312, s, 8);
    WordIn(f, 312, s, 12);
    WordIn(f, 312, s, 16);
    WordIn(f, 312, s, 20);
    WordIn(f, 312, s, 36);
    hide Word, SectionHeader, PeHeader;
    assert SectionAt(f, 312) == TextSection(t);
    assert SectionsFrom(f, 312, 1, [TextSection(t)]) == Ok([TextSection(t)]);
    assert [] + [TextSection(t)] == [TextSection(t)];
  }

  lemma HeadersParse(f: seq<byte>, t: Text)
    requires Built(f, t) && (t.subsystem == 2 || t.subsystem == 3)
    ensures ParseHeaders(f) == Ok(ExpectedHeaders(t, |f|))
  {
    CoffParses(f, t);
    OptionalParses(f, t);
    hide ParseCoff, CheckOptional, ReadOptional, PeHeader;
  }

  /** A built file is accepted up to its import directory, which decides the rest. */
  lemma BuiltLoads(f: seq<byte>, t: Text)
    requires Built(f, t) && (t.subsystem == 2 || t.subsystem == 3)
    ensures var g := TextGeometry(t, |f|);
      Load(f) == var imports := Imports(g, f, t.importRva);
                 if imports.err.Some? then Err(imports.err.value)
                 else Ok(Parsed(ExpectedHeaders(t, |f|), g, imports.dlls, [], []))
  {
    HeadersParse(f, t);
    SectionParses(f, t);
    hide ParseHeaders, SectionsFrom, Imports, PeHeader;
  }

  /** A built file satisfies everything that the conversion assumes. */
  lemma BuiltWellFormed(f: seq<byte>, t: Text)
    requires Built(f, t)
    ensures WellFormed(TextGeometry(t, |f|)) && RawInFile(TextGeometry(t, |f|))
  {
    var g := TextGeometry(t, |f|);
    assert TextSection(t).rva + TextSection(t).Extent() <= SizeOfImage(t) by {
      FileUpWithinPages(t.vsize);
    }
    hide SizeOfImage, PeHeader, FileUp;
  }

  /** A file built without imports is well-formed and parses to an image without imports. */
  lemma {:induction false} PlainBuildRoundTrip(exitCode: u32, subsystem: u16)
    requires subsystem == 2 || subsystem == 3
    ensures var f, t := Build(exitCode, subsystem), TextOf(12, subsystem, 0, 0);
      && Built(f, t) && WellFormed(TextGeometry(t, |f|)) && RawInFile(TextGeometry(t, |f|))
      && Load(f) == Ok(Parsed(ExpectedHeaders(t, |f|), TextGeometry(t, |f|), [], [], []))
  {
    hide Load, PeHeader, WellFormed, RawInFile, ExpectedHeaders, TextGeometry, ExitCodeBytes, Fits;
    var f, t := Build(exitCode, subsystem), TextOf(12, subsystem, 0, 0);
    TextFits(12, subsystem, 0, 0);
    assert f[..HEADER_SIZE] == PeHeader(t);
    NoImports(TextGeometry(t, |f|), f);
    BuiltLoads(f, t);
    BuiltWellFormed(f, t);
  }

  lemma NoImports(g: Geometry, raw: seq<byte>)
    ensures |raw| == g.rawSize ==> Imports(g, raw, 0) == Walk([], None)
  {
  }

  lemma FileUpWithinPages(n: nat)
    ensures TEXT_RVA + FileUp(n) <= PageUp(TEXT_RVA + n) && n <= FileUp(n)
  {
  }
}
