/** What a file has to be for src/pe_reader.c to load it, and what is loaded, stated on its bytes
    (PE/COFF specification, "Signature (Image Only)" to "Optional Header Data Directories"). */
module LoadMeaning {
  import opened Words
  import opened PeImage
  import opened PeImports
  import opened PeRelocs
  import opened PeReader
  import opened RelocWalk
  import opened ImportMeaning

  /** The 16-bit field at `o`, or 0 behind the end of the file. */
  function Field16(raw: seq<byte>, o: nat): u16 {
    if o + 2 <= |raw| then Half(raw, o) else 0
  }

  function Field32(raw: seq<byte>, o: nat): u32 {
    if o + 4 <= |raw| then Word(raw, o) else 0
  }

  /** `e_lfanew`: where the NT signature is. */
  function NtOffset(raw: seq<byte>): nat {
    Field32(raw, 0x3C)
  }

  function Characteristics(raw: seq<byte>): u16 {
    Field16(raw, NtOffset(raw) + 22)
  }

  function NumberOfDirectories(raw: seq<byte>): u32 {
    Field32(raw, NtOffset(raw) + 116)
  }

  /** Data directory `i`, empty when there are fewer. */
  function Directory(raw: seq<byte>, i: nat): DataDirectory {
    if i < NumberOfDirectories(raw)
    then DataDirectory(Field32(raw, NtOffset(raw) + 120 + 8 * i), Field32(raw, NtOffset(raw) + 124 + 8 * i))
    else DataDirectory(0, 0)
  }

  /** Where the section table is: behind an optional header of any declared size. */
  function TableOffset(raw: seq<byte>): nat {
    NtOffset(raw) + 24 + Field16(raw, NtOffset(raw) + 20)
  }

  /** A demand on the headers and the error for a file that fails it. */
  datatype Demand = Demand(met: bool, error: PeError)

  /** The demands in the order in which they are made. */
  function Demands(raw: seq<byte>): (ds: seq<Demand>)
    ensures |ds| == 17
  {
    var nt := NtOffset(raw);
    [Demand(|raw| >= 64, Truncated),
     Demand(Field16(raw, 0) == 0x5A4D, BadDosMagic),
     Demand(nt < 0x8000_0000 && nt + 4 <= |raw|, Malformed),
     Demand(Field32(raw, nt) == 0x4550, BadNtSignature),
     Demand(nt + 24 <= |raw|, Truncated),
     Demand(Field16(raw, nt + 4) == 0x014C, NotI386),
     Demand(Characteristics(raw) / 0x2000 % 2 == 0, IsDll),
     Demand(Characteristics(raw) / 2 % 2 == 1, NotExecutable),
     Demand(Field16(raw, nt + 20) >= 224 && nt + 248 <= |raw|, Truncated),
     Demand(Field16(raw, nt + 24) != 0x020B, Pe32Plus)]
    + [Demand(Field16(raw, nt + 24) == 0x010B, BadOptHdrMagic),
       Demand(Field16(raw, nt + 92) == 2 || Field16(raw, nt + 92) == 3, UnsupportedSubsystem),
       Demand(NumberOfDirectories(raw) <= 16, Malformed),
       Demand(Directory(raw, 14).size == 0, HasDotnet),
       Demand(Directory(raw, 13).size == 0, DelayImports),
       Demand(Field32(raw, nt + 52) != 0, ImageBaseConflict),
       Demand(TableOffset(raw) + 40 * Field16(raw, nt + 6) <= |raw|, Truncated)]
  }

  /** The first demand that the file fails. */
  predicate FirstUnmet(raw: seq<byte>, k: nat) {
    k < 17 && !Demands(raw)[k].met && forall j :: 0 <= j < k ==> Demands(raw)[j].met
  }

  predicate AllMet(raw: seq<byte>) {
    forall j :: 0 <= j < 17 ==> Demands(raw)[j].met
  }

  /** The values of the header fields, by their offsets from the NT signature. */
  function HeaderFields(raw: seq<byte>): Headers {
    var nt := NtOffset(raw);
    Headers(Geometry(Field32(raw, nt + 52), Field32(raw, nt + 40), Field32(raw, nt + 80), Field32(raw, nt + 84), [],
                     |raw|),
            Field16(raw, nt + 92), Field32(raw, nt + 56), Field32(raw, nt + 60),
            TableOffset(raw), Field16(raw, nt + 6),
            Directory(raw, 1), Directory(raw, 5), Directory(raw, 9))
  }

  // ----- the parser against these -----

  /** The demands on DOS, NT and COFF headers. */
  lemma CoffExact(raw: seq<byte>)
    ensures var r, ds := ParseCoff(raw), Demands(raw);
      if r.Ok? then r.value == NtOffset(raw) + 4 && forall j :: 0 <= j < 8 ==> ds[j].met
      else exists k :: 0 <= k < 8 && FirstUnmet(raw, k) && ds[k].error == r.error
  {
    hide Word, Half;
    var r, ds := ParseCoff(raw), Demands(raw);
    var k := if !ds[0].met then 0 else if !ds[1].met then 1 else if !ds[2].met then 2 else if !ds[3].met then 3
             else if !ds[4].met then 4 else if !ds[5].met then 5 else if !ds[6].met then 6 else if !ds[7].met then 7
                 else 8;
    assert k < 8 ==> FirstUnmet(raw, k) && r == Err(ds[k].error);
    assert k == 8 ==> r == Ok(NtOffset(raw) + 4);
  }

  lemma DirectoryExact(raw: seq<byte>, i: nat)
    requires NtOffset(raw) + 248 <= |raw| && i < 16
    ensures DirectoryAt(raw, NtOffset(raw) + 24, i) == Directory(raw, i)
  {
    hide Word;
  }

  /** The demands on the optional header. */
  lemma OptionalExact(raw: seq<byte>)
    requires NtOffset(raw) + 24 <= |raw| && forall j :: 0 <= j < 8 ==> Demands(raw)[j].met
    ensures var e, ds := CheckOptional(raw, NtOffset(raw) + 4), Demands(raw);
      if e.None? then forall j :: 0 <= j < 16 ==> ds[j].met
      else exists k :: 0 <= k < 16 && FirstUnmet(raw, k) && ds[k].error == e.value
  {
    hide Word, Half, DirectoryAt, Directory;
    var e, ds := CheckOptional(raw, NtOffset(raw) + 4), Demands(raw);
    if NtOffset(raw) + 248 <= |raw| {
      DirectoryExact(raw, 13);
      DirectoryExact(raw, 14);
    }
    var k := if !ds[8].met then 8 else if !ds[9].met then 9 else if !ds[10].met then 10 else if !ds[11].met then 11
             else if !ds[12].met then 12 else if !ds[13].met then 13 else if !ds[14].met then 14 else if !ds[15].met
                 then 15
             else 16;
    assert k < 16 ==> FirstUnmet(raw, k) && e == Some(ds[k].error);
    assert k == 16 ==> e == None;
  }

  lemma FieldsExact(raw: seq<byte>)
    requires NtOffset(raw) + 248 <= |raw|
    ensures ReadOptional(raw, NtOffset(raw) + 4) == HeaderFields(raw)
  {
    hide Word, Half, DirectoryAt, Directory;
    DirectoryExact(raw, 1);
    DirectoryExact(raw, 5);
    DirectoryExact(raw, 9);
  }

  /** The headers are accepted exactly when all demands are met, with the fields found from the NT
      signature on; otherwise the error is that of the first demand that is not. */
  lemma HeadersExact(raw: seq<byte>)
    ensures var r := ParseHeaders(raw);
      if r.Ok? then AllMet(raw) && r.value == HeaderFields(raw)
      else exists k: nat :: FirstUnmet(raw, k) && Demands(raw)[k].error == r.error
  {
    hide ParseCoff, CheckOptional, ReadOptional, Field16, Field32, Directory;
    CoffExact(raw);
    if ParseCoff(raw).Ok? {
      EnoughForCoff(raw);
      OptionalExact(raw);
      if CheckOptional(raw, NtOffset(raw) + 4).None? {
        EnoughForOptional(raw);
        FieldsExact(raw);
        assert Demands(raw)[16].met <==> TableOffset(raw) + 40 * Field16(raw, NtOffset(raw) + 6) <= |raw|;
        assert Demands(raw)[16].error == Truncated;
        assert !Demands(raw)[16].met ==> FirstUnmet(raw, 16);
      }
    }
  }

  lemma EnoughForCoff(raw: seq<byte>)
    requires forall j :: 0 <= j < 8 ==> Demands(raw)[j].met
    ensures NtOffset(raw) + 24 <= |raw|
  {
    assert Demands(raw)[4].met;
  }

  lemma EnoughForOptional(raw: seq<byte>)
    requires forall j :: 0 <= j < 16 ==> Demands(raw)[j].met
    ensures NtOffset(raw) + 248 <= |raw|
  {
    assert Demands(raw)[8].met;
  }

  // ----- the whole loader -----

  /** The image `p` stands in the file: headers, section table, imports, relocations and callbacks. */
  ghost predicate Stands(raw: seq<byte>, p: Parsed) {
    && AllMet(raw) && p.h == HeaderFields(raw)
    && p.g == p.h.g.(sections := p.g.sections)
    && p.h.secOff + 40 * p.h.nSections <= |raw|
    && TableIs(raw, p.h.secOff, p.h.nSections, p.g.sections)
    && (if p.h.importDir.rva == 0 then p.imports == [] else DirectoryStands(p.g, raw, p.h.importDir.rva, p.imports))
    && RelocsAre(Dir(p.g, raw, p.h.relocDir.rva, p.h.relocDir.size), p.relocs)
    && TlsIs(p.g, raw, p.h.tlsDir.rva, p.h.tlsDir.size, p.tlsCallbacks)
  }

  lemma DirectoriesExact(h: Headers, g: Geometry, raw: seq<byte>, p: Parsed)
    requires |raw| == g.rawSize
    ensures Directories(h, g, raw) == Ok(p) <==>
              && p.h == h && p.g == g
              && (if h.importDir.rva == 0 then p.imports == [] else DirectoryStands(g, raw, h.importDir.rva, p.imports))
              && RelocsAre(Dir(g, raw, h.relocDir.rva, h.relocDir.size), p.relocs)
              && TlsIs(g, raw, h.tlsDir.rva, h.tlsDir.size, p.tlsCallbacks)
  {
    hide Imports, Relocs, Tls, DirectoryStands, RelocsAre, TlsIs;
    ImportsMeaning(g, raw, h.importDir.rva, p.imports);
    RelocsExact(Dir(g, raw, h.relocDir.rva, h.relocDir.size), p.relocs);
    TlsExact(g, raw, h.tlsDir.rva, h.tlsDir.size, p.tlsCallbacks);
  }

  /** A file is loaded as `p` exactly when `p` stands in it. */
  lemma LoadExact(raw: seq<byte>, p: Parsed)
    ensures Load(raw) == Ok(p) <==> Stands(raw, p)
  {
    hide ParseHeaders, SectionsFrom, Directories, AllMet, HeaderFields, TableIs, DirectoryStands, RelocsAre, TlsIs;
    HeadersDecide(raw);
    if ParseHeaders(raw).Ok? {
      var h := ParseHeaders(raw).value;
      SectionsExact(raw, h.secOff, h.nSections, p.g.sections);
      if SectionsFrom(raw, h.secOff, h.nSections, []) == Ok(p.g.sections) {
        DirectoriesExact(h, h.g.(sections := p.g.sections), raw, p);
      } else if SectionsFrom(raw, h.secOff, h.nSections, []).Ok? {
        DirectoriesKeep(h, h.g.(sections := SectionsFrom(raw, h.secOff, h.nSections, []).value), raw);
      }
    }
  }

  lemma HeadersDecide(raw: seq<byte>)
    ensures ParseHeaders(raw).Ok? <==> AllMet(raw)
    ensures ParseHeaders(raw).Ok? ==> ParseHeaders(raw).value == HeaderFields(raw)
  {
    hide ParseHeaders, Demands, HeaderFields;
    HeadersExact(raw);
  }

  lemma DirectoriesKeep(h: Headers, g: Geometry, raw: seq<byte>)
    requires |raw| == g.rawSize
    ensures Directories(h, g, raw).Ok? ==> Directories(h, g, raw).value.g == g
  {
    hide Imports, Relocs, Tls;
  }
}
