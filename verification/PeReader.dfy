/** src/pe_reader.c: accepts or rejects a file and fills in the image. */
module PeReader {
  import opened Words
  import opened PeImage
  import opened PeImports
  import opened PeRelocs

  const DIR_IMPORT := 1
  const DIR_BASERELOC := 5
  const DIR_TLS := 9
  const DIR_DELAY_IMPORT := 13
  const DIR_COM_DESCRIPTOR := 14

  predicate HasFlag(c: u16, bit: u16)
    requires bit == 0x0002 || bit == 0x2000
  {
    if bit == 0x0002 then c / 0x0002 % 2 == 1 else c / 0x2000 % 2 == 1
  }

  datatype DataDirectory = DataDirectory(rva: u32, size: u32)

  /** What the optional header tells, with the position of the section table. */
  datatype Headers = Headers(g: Geometry, subsystem: u16, sectionAlignment: u32, fileAlignment: u32,
                             secOff: nat, nSections: u16,
                             importDir: DataDirectory, relocDir: DataDirectory, tlsDir: DataDirectory)

  /** Directory `i` of the optional header at `o`, or nothing past the declared number. */
  function DirectoryAt(raw: seq<byte>, o: nat, i: nat): DataDirectory
    requires o + 224 <= |raw| && i < 16
  {
    if Word(raw, o + 92) > i then DataDirectory(Word(raw, o + 96 + 8 * i), Word(raw, o + 100 + 8 * i))
    else DataDirectory(0, 0)
  }

  /** The DOS and COFF checks: the offset of the COFF header. */
  function ParseCoff(raw: seq<byte>): (r: Result<nat, PeError>)
    ensures r.Ok? ==> r.value + 20 <= |raw|
  {
    if |raw| < 64 then Err(Truncated)
    else if Half(raw, 0) != 0x5A4D then Err(BadDosMagic)
    else
      var lfanew := Word(raw, 60);
      if lfanew >= 0x8000_0000 || lfanew + 4 > |raw| then Err(Malformed)
      else if Word(raw, lfanew) != 0x0000_4550 then Err(BadNtSignature)
      else
        var coff := lfanew + 4;
        if coff + 20 > |raw| then Err(Truncated)
        else if Half(raw, coff) != 0x014C then Err(NotI386)
        else if HasFlag(Half(raw, coff + 18), 0x2000) then Err(IsDll)
        else if !HasFlag(Half(raw, coff + 18), 0x0002) then Err(NotExecutable)
        else Ok(coff)
  }

  /** The optional-header checks behind a COFF header at `coff`. */
  function CheckOptional(raw: seq<byte>, coff: nat): (e: Option<PeError>)
    requires coff + 20 <= |raw|
    ensures e.None? ==> coff + 20 + 224 <= |raw| && Half(raw, coff + 16) >= 224
  {
    var o := coff + 20;
    if Half(raw, coff + 16) < 224 || o + 224 > |raw| then Some(Truncated)
    else if Half(raw, o) == 0x020B then Some(Pe32Plus)
    else if Half(raw, o) != 0x010B then Some(BadOptHdrMagic)
    else if Half(raw, o + 68) != 3 && Half(raw, o + 68) != 2 then Some(UnsupportedSubsystem)
    else if Word(raw, o + 92) > 16 then Some(Malformed)
    else if DirectoryAt(raw, o, DIR_COM_DESCRIPTOR).size != 0 then Some(HasDotnet)
    else if DirectoryAt(raw, o, DIR_DELAY_IMPORT).size != 0 then Some(DelayImports)
    else if Word(raw, o + 28) == 0 then Some(ImageBaseConflict)
    else None
  }

  function ReadOptional(raw: seq<byte>, coff: nat): Headers
    requires coff + 20 + 224 <= |raw|
  {
    var o := coff + 20;
    Headers(Geometry(Word(raw, o + 28), Word(raw, o + 16), Word(raw, o + 56), Word(raw, o + 60), [], |raw|),
            Half(raw, o + 68), Word(raw, o + 32), Word(raw, o + 36),
            o + Half(raw, coff + 16), Half(raw, coff + 2),
            DirectoryAt(raw, o, DIR_IMPORT), DirectoryAt(raw, o, DIR_BASERELOC), DirectoryAt(raw, o, DIR_TLS))
  }

  function ParseHeaders(raw: seq<byte>): (r: Result<Headers, PeError>)
    ensures r.Ok? ==> r.value.g.sections == [] && r.value.g.rawSize == |raw|
    ensures r.Ok? ==> r.value.secOff + 40 * r.value.nSections <= |raw|
  {
    var coff := ParseCoff(raw);
    if coff.Err? then Err(coff.error)
    else
      var e := CheckOptional(raw, coff.value);
      if e.Some? then Err(e.value)
      else
        var h := ReadOptional(raw, coff.value);
        if h.secOff + 40 * h.nSections > |raw| then Err(Truncated) else Ok(h)
  }

  // ----- parse_sections -----

  function SectionAt(raw: seq<byte>, o: nat): Section
    requires o + 40 <= |raw|
  {
    var vsize, fsize := Word(raw, o + 8), Word(raw, o + 16);
    Section(raw[o..o + 8], Word(raw, o + 12), if vsize != 0 then vsize else fsize,
            Word(raw, o + 20), fsize, Word(raw, o + 36))
  }

  /** `acc` and the remaining sections of a table of `n`. */
  function SectionsFrom(raw: seq<byte>, secOff: nat, n: nat, acc: seq<Section>): Result<seq<Section>, PeError>
    requires secOff + 40 * n <= |raw| && |acc| <= n
    decreases n - |acc|
  {
    if |acc| == n then Ok(acc)
    else
      var s := SectionAt(raw, secOff + 40 * |acc|);
      if s.fileOff + s.fsize > |raw| then Err(Malformed) else SectionsFrom(raw, secOff, n, acc + [s])
  }

  method ParseSections(img: Image, raw: seq<byte>, secOff: nat, n: nat) returns (err: Option<PeError>)
    requires secOff + 40 * n <= |raw| && img.sections == []
    modifies img`sections
    ensures var r := SectionsFrom(raw, secOff, n, []);
      && (r.Ok? ==> err == None && img.sections == r.value)
      && (r.Err? ==> err == Some(r.error) && img.sections == [])
  {
    var sections: seq<Section> := [];
    hide SectionAt;
    for i := 0 to n
      invariant i == |sections|
      invariant SectionsFrom(raw, secOff, n, []) == SectionsFrom(raw, secOff, n, sections)
    {
      var s := SectionAt(raw, secOff + 40 * i);
      if s.fileOff + s.fsize > |raw| {
        return Some(Malformed);
      }
      sections := sections + [s];
    }
    img.sections := sections;
    return None;
  }

  /** The section header at `o` describes `s`; a section without a virtual size is as large as its raw data
      (PE/COFF specification, "Section Table (Section Headers)"). */
  predicate SectionIs(raw: seq<byte>, o: nat, s: Section)
    requires o + 40 <= |raw|
  {
    && s.name == raw[o..o + 8]
    && s.vsize == (if Word(raw, o + 8) == 0 then Word(raw, o + 16) else Word(raw, o + 8))
    && s.rva == Word(raw, o + 12) && s.fsize == Word(raw, o + 16) && s.fileOff == Word(raw, o + 20)
    && s.characteristics == Word(raw, o + 36)
  }

  lemma SectionAtExact(raw: seq<byte>, o: nat, s: Section)
    requires o + 40 <= |raw|
    ensures SectionIs(raw, o, s) <==> s == SectionAt(raw, o)
  {
    hide Word;
  }

  /** The table of `n` headers describes `ss`, and all their raw data lies in the file. */
  predicate TableIs(raw: seq<byte>, secOff: nat, n: nat, ss: seq<Section>)
    requires secOff + 40 * n <= |raw|
  {
    && |ss| == n
    && forall i :: 0 <= i < n ==> SectionIs(raw, secOff + 40 * i, ss[i]) && ss[i].fileOff + ss[i].fsize <= |raw|
  }

  lemma {:induction false} SectionsAreTable(raw: seq<byte>, secOff: nat, n: nat, acc: seq<Section>)
    requires secOff + 40 * n <= |raw| && |acc| <= n
    ensures var r := SectionsFrom(raw, secOff, n, acc);
      r.Ok? ==>
        && acc <= r.value && |r.value| == n
        && forall i :: |acc| <= i < n ==>
             r.value[i] == SectionAt(raw, secOff + 40 * i) && r.value[i].fileOff + r.value[i].fsize <= |raw|
    decreases n - |acc|
  {
    hide SectionAt;
    if |acc| < n {
      SectionsAreTable(raw, secOff, n, acc + [SectionAt(raw, secOff + 40 * |acc|)]);
    }
  }

  lemma {:induction false} TableIsSections(raw: seq<byte>, secOff: nat, n: nat, ss: seq<Section>, i: nat)
    requires secOff + 40 * n <= |raw| && TableIs(raw, secOff, n, ss) && i <= n
    ensures SectionsFrom(raw, secOff, n, ss[..i]) == Ok(ss)
    decreases n - i
  {
    hide SectionAt, SectionIs;
    if i < n {
      SectionAtExact(raw, secOff + 40 * i, ss[i]);
      assert ss[..i] + [ss[i]] == ss[..i + 1];
      TableIsSections(raw, secOff, n, ss, i + 1);
    } else {
      assert ss[..i] == ss;
    }
  }

  /** The section table is accepted as `ss` exactly when it describes `ss` and no raw data
      extends past the end of the file. */
  lemma SectionsExact(raw: seq<byte>, secOff: nat, n: nat, ss: seq<Section>)
    requires secOff + 40 * n <= |raw|
    ensures SectionsFrom(raw, secOff, n, []) == Ok(ss) <==> TableIs(raw, secOff, n, ss)
  {
    hide SectionAt, SectionIs, SectionsFrom;
    SectionsAreTable(raw, secOff, n, []);
    var r := SectionsFrom(raw, secOff, n, []);
    if r.Ok? {
      forall i | 0 <= i < n ensures SectionIs(raw, secOff + 40 * i, r.value[i]) {
        SectionAtExact(raw, secOff + 40 * i, r.value[i]);
      }
    }
    if TableIs(raw, secOff, n, ss) {
      TableIsSections(raw, secOff, n, ss, 0);
      assert ss[..0] == [];
    }
  }

  // ----- pe_image_load -----

  /** Everything that loading leaves in the image. */
  datatype Parsed = Parsed(h: Headers, g: Geometry, imports: seq<ImportDll>, relocs: seq<u32>, tlsCallbacks: seq<u32>)

  function Directories(h: Headers, g: Geometry, raw: seq<byte>): Result<Parsed, PeError>
    requires |raw| == g.rawSize
  {
    var imports := Imports(g, raw, h.importDir.rva);
    if imports.err.Some? then Err(imports.err.value)
    else
      var relocs := Relocs(g, raw, h.relocDir.rva, h.relocDir.size);
      if relocs.Err? then Err(relocs.error)
      else
        var tls := Tls(g, raw, h.tlsDir.rva, h.tlsDir.size);
        if tls.Err? then Err(tls.error) else Ok(Parsed(h, g, imports.dlls, relocs.value, tls.value))
  }

  function Load(raw: seq<byte>): Result<Parsed, PeError> {
    var h := ParseHeaders(raw);
    if h.Err? then Err(h.error)
    else
      var sections := SectionsFrom(raw, h.value.secOff, h.value.nSections, []);
      if sections.Err? then Err(sections.error)
      else Directories(h.value, h.value.g.(sections := sections.value), raw)
  }

  /** `img` holds what was parsed. */
  predicate Shows(img: Image, p: Parsed)
    reads img
  {
    && img.imageBase == p.g.imageBase && img.entryRva == p.g.entryRva && img.sizeOfImage == p.g.sizeOfImage
    && img.sizeOfHeaders == p.g.sizeOfHeaders && img.sections == p.g.sections && img.raw.Length == p.g.rawSize
    && img.subsystem == p.h.subsystem && img.sectionAlignment == p.h.sectionAlignment
    && img.fileAlignment == p.h.fileAlignment
    && img.imports == p.imports && img.relocs == p.relocs && img.tlsCallbackRvas == p.tlsCallbacks
  }

  method LoadImage(file: array<byte>) returns (img: Image, err: Option<PeError>)
    ensures fresh(img) && img.raw == file
    ensures var r := Load(file[..]);
      && (r.Ok? ==> err == None && Shows(img, r.value))
      && (r.Err? ==> err == Some(r.error))
  {
    var raw := file[..];
    img := new Image(file);
    err := LoadBytes(img, raw);
  }

  /** `pe_image_load` once the file has been read. */
  method LoadBytes(img: Image, raw: seq<byte>) returns (err: Option<PeError>)
    requires |raw| == img.raw.Length && img.sections == []
    requires img.imports == [] && img.relocs == [] && img.tlsCallbackRvas == []
    modifies img
    ensures img.raw == old(img.raw)
    ensures var r := Load(raw);
      && (r.Ok? ==> err == None && Shows(img, r.value))
      && (r.Err? ==> err == Some(r.error))
  {
    hide ParseCoff, CheckOptional, ReadOptional, SectionsFrom, Imports, Relocs, Tls;
    var coff, e := CheckCoff(raw);
    if e.Some? {
      return e;
    }
    e := CheckOptionalHeader(raw, coff);
    if e.Some? {
      return e;
    }
    var h := ReadOptional(raw, coff);
    StoreHeaders(img, raw, coff);
    if h.secOff + 40 * h.nSections > |raw| {
      return Some(Truncated);
    }
    err := ParseSections(img, raw, h.secOff, h.nSections);
    if err.Some? {
      return;
    }
    err := ParseDirectories(img, raw, h);
  }

  /** The DOS, NT and COFF checks of `pe_image_load`, one after the other. */
  method CheckCoff(raw: seq<byte>) returns (coff: nat, err: Option<PeError>)
    ensures err.None? ==> coff + 20 <= |raw|
    ensures ParseCoff(raw) == if err.None? then Ok(coff) else Err(err.value)
  {
    hide Word, Half, HasFlag;
    if |raw| < 64 {
      return 0, Some(Truncated);
    }
    if Half(raw, 0) != 0x5A4D {
      return 0, Some(BadDosMagic);
    }
    var lfanew := Word(raw, 60);
    if lfanew >= 0x8000_0000 || lfanew + 4 > |raw| {
      return 0, Some(Malformed);
    }
    if Word(raw, lfanew) != 0x0000_4550 {
      return 0, Some(BadNtSignature);
    }
    coff := lfanew + 4;
    if coff + 20 > |raw| {
      return 0, Some(Truncated);
    }
    if Half(raw, coff) != 0x014C {
      return 0, Some(NotI386);
    }
    if HasFlag(Half(raw, coff + 18), 0x2000) {
      return 0, Some(IsDll);
    }
    if !HasFlag(Half(raw, coff + 18), 0x0002) {
      return 0, Some(NotExecutable);
    }
    return coff, None;
  }

  /** The optional-header checks of `pe_image_load`, one after the other. */
  method CheckOptionalHeader(raw: seq<byte>, coff: nat) returns (err: Option<PeError>)
    requires coff + 20 <= |raw|
    ensures err == CheckOptional(raw, coff)
  {
    hide Word, Half;
    var o := coff + 20;
    if Half(raw, coff + 16) < 224 || o + 224 > |raw| {
      return Some(Truncated);
    }
    if Half(raw, o) == 0x020B {
      return Some(Pe32Plus);
    }
    if Half(raw, o) != 0x010B {
      return Some(BadOptHdrMagic);
    }
    if Half(raw, o + 68) != 3 && Half(raw, o + 68) != 2 {
      return Some(UnsupportedSubsystem);
    }
    var n := Word(raw, o + 92);
    if n > 16 {
      return Some(Malformed);
    }
    if n > DIR_COM_DESCRIPTOR && Word(raw, o + 100 + 8 * DIR_COM_DESCRIPTOR) != 0 {
      return Some(HasDotnet);
    }
    if n > DIR_DELAY_IMPORT && Word(raw, o + 100 + 8 * DIR_DELAY_IMPORT) != 0 {
      return Some(DelayImports);
    }
    if Word(raw, o + 28) == 0 {
      return Some(ImageBaseConflict);
    }
    return None;
  }

  /** The fields taken over from the optional header at `coff + 20`. */
  method StoreHeaders(img: Image, raw: seq<byte>, coff: nat)
    requires coff + 20 + 224 <= |raw| == img.raw.Length && img.sections == []
    modifies img`imageBase, img`entryRva, img`sizeOfImage, img`sizeOfHeaders, img`subsystem, img`sectionAlignment,
             img`fileAlignment
    ensures var h := ReadOptional(raw, coff);
      && img.Geo() == h.g && img.subsystem == h.subsystem
      && img.sectionAlignment == h.sectionAlignment && img.fileAlignment == h.fileAlignment
  {
    hide Word, Half, DirectoryAt;
    var o := coff + 20;
    img.imageBase, img.entryRva := Word(raw, o + 28), Word(raw, o + 16);
    img.sizeOfImage, img.sizeOfHeaders := Word(raw, o + 56), Word(raw, o + 60);
    img.subsystem := Half(raw, o + 68);
    img.sectionAlignment, img.fileAlignment := Word(raw, o + 32), Word(raw, o + 36);
  }

  method ParseDirectories(img: Image, raw: seq<byte>, h: Headers) returns (err: Option<PeError>)
    requires |raw| == img.raw.Length && img.imports == [] && img.relocs == [] && img.tlsCallbackRvas == []
    modifies img`imports, img`relocs, img`hasTls, img`tlsHasCallbacks, img`tlsCallbackRvas
    ensures var r := Directories(h, img.Geo(), raw);
      && (r.Ok? ==> err == None && img.imports == r.value.imports && img.relocs == r.value.relocs
                    && img.tlsCallbackRvas == r.value.tlsCallbacks)
      && (r.Err? ==> err == Some(r.error))
  {
    hide Imports, Relocs, Tls;
    err := ParseImports(img, raw, h.importDir.rva);
    if err.Some? {
      return;
    }
    err := ParseRelocs(img, raw, h.relocDir.rva, h.relocDir.size);
    if err.Some? {
      return;
    }
    err := ParseTls(img, raw, h.tlsDir.rva, h.tlsDir.size);
  }

  /** What every accepted file guarantees without further assumptions. */
  lemma LoadGuarantees(raw: seq<byte>)
    requires Load(raw).Ok?
    ensures var p := Load(raw).value;
      p.g.rawSize == |raw| && RawInFile(p.g) && p.g.imageBase != 0 && |p.g.sections| < 0x1_0000
  {
    hide Imports, Relocs, Tls, SectionsFrom, SectionAt, SectionIs;
    var h := ParseHeaders(raw).value;
    SectionsExact(raw, h.secOff, h.nSections, Load(raw).value.g.sections);
  }
}
