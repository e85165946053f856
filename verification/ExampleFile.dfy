/** PE files with chosen header fields and sections, and what src/pe_reader.c makes of them. */
module ExampleFile {
  import opened Words
  import opened PeImage
  import opened PeReader

  /** The fields that matter; there is no TLS directory. */
  datatype Spec = Spec(imageBase: u32, sizeOfImage: u32, sizeOfHeaders: u32, importRva: u32, relocRva: u32,
                       relocSize: u32,
                       sections: seq<Section>, tail: seq<byte>)

  predicate ValidSpec(x: Spec) {
    && x.imageBase != 0 && |x.sections| < 0x1_0000
    && (forall i :: 0 <= i < |x.sections| ==>
          x.sections[i].vsize > 0 && x.sections[i].name == Zeros(8)
          && x.sections[i].fileOff + x.sections[i].fsize <= FileSize(x))
  }

  function FileSize(x: Spec): nat {
    312 + 40 * |x.sections| + |x.tail|
  }

  // ----- the words of the file -----

  const DOS_WORDS: seq<u32> := [0x5A4D, 0, 0, 0, 0, 0, 0, 0, 0, 0, 0, 0, 0, 0, 0, 64]

  function CoffWords(n: u16): (ws: seq<u32>)
    ensures |ws| == 6
  {
    [0x4550, 0x014C + 0x1_0000 * (n as int), 0, 0, 0, 0x0102_00E0]
  }

  function OptWords(x: Spec): (ws: seq<u32>)
    ensures |ws| == 24
  {
    [0x010B, 0, 0, 0, 0x1000, 0, 0, x.imageBase, 0x1000, 0x200, 0, 0]
    + [0, 0, x.sizeOfImage, x.sizeOfHeaders, 0, 3, 0, 0, 0, 0, 0, 16]
  }

  function DirWord(x: Spec, k: nat): u32 {
    if k == 2 then x.importRva else if k == 10 then x.relocRva else if k == 11 then x.relocSize else 0
  }

  function DirWords(x: Spec): (ws: seq<u32>)
    ensures |ws| == 32 && forall k :: 0 <= k < 32 ==> ws[k] == DirWord(x, k)
  {
    seq(32, k requires 0 <= k => DirWord(x, k))
  }

  function SectionWords(s: Section): (ws: seq<u32>)
    ensures |ws| == 10
  {
    [0, 0, s.vsize, s.rva, s.fsize, s.fileOff, 0, 0, 0, s.characteristics]
  }

  function TableWords(ss: seq<Section>): (ws: seq<u32>)
    ensures |ws| == 10 * |ss|
  {
    if ss == [] then [] else TableWords(ss[..|ss| - 1]) + SectionWords(ss[|ss| - 1])
  }

  function HeadWords(x: Spec): (ws: seq<u32>)
    requires ValidSpec(x)
    ensures |ws| == 78
  {
    DOS_WORDS + CoffWords(|x.sections|) + OptWords(x) + DirWords(x)
  }

  function AllWords(x: Spec): (ws: seq<u32>)
    requires ValidSpec(x)
    ensures |ws| == 78 + 10 * |x.sections|
  {
    HeadWords(x) + TableWords(x.sections)
  }

  function File(x: Spec): (f: seq<byte>)
    requires ValidSpec(x)
    ensures |f| == FileSize(x)
  {
    Pack(AllWords(x)) + x.tail
  }

  lemma FileWord(x: Spec, k: nat)
    requires ValidSpec(x) && k < 78 + 10 * |x.sections|
    ensures Word(File(x), 4 * k) == AllWords(x)[k]
  {
    hide Pack, AllWords, Word;
    WordOfPack(AllWords(x), k);
    WordOfConcat(Pack(AllWords(x)), x.tail, 4 * k);
  }

  // ----- headers -----

  lemma CoffParses(x: Spec)
    requires ValidSpec(x)
    ensures ParseCoff(File(x)) == Ok(68)
    ensures Half(File(x), 70) == |x.sections| && Half(File(x), 84) == 224
  {
    hide File, Word, Half;
    FileWord(x, 0);
    FileWord(x, 15);
    FileWord(x, 16);
    FileWord(x, 17);
    FileWord(x, 21);
    WordHalves(File(x), 0);
    WordHalves(File(x), 68);
    WordHalves(File(x), 84);
  }

  lemma OptField(x: Spec, k: nat)
    requires ValidSpec(x) && k < 24
    ensures Word(File(x), 88 + 4 * k) == OptWords(x)[k]
  {
    hide File, Word, OptWords, CoffWords, DirWords, TableWords;
    FileWord(x, 22 + k);
  }

  lemma DirField(x: Spec, i: nat)
    requires ValidSpec(x) && i < 16
    ensures DirectoryAt(File(x), 88, i) == DataDirectory(DirWord(x, 2 * i), DirWord(x, 2 * i + 1))
  {
    hide File, Word, CoffWords, TableWords;
    OptField(x, 23);
    FileWord(x, 46 + 2 * i);
    FileWord(x, 47 + 2 * i);
    assert 4 * (46 + 2 * i) == 88 + 96 + 8 * i && 4 * (47 + 2 * i) == 88 + 100 + 8 * i;
  }

  /** The geometry that the file describes. */
  function GeometryOf(x: Spec): Geometry {
    Geometry(x.imageBase, 0x1000, x.sizeOfImage, x.sizeOfHeaders, x.sections, FileSize(x))
  }

  function HeadersOf(x: Spec): Headers
    requires ValidSpec(x)
  {
    Headers(GeometryOf(x).(sections := []), 3, 0x1000, 0x200, 312, |x.sections|,
            DataDirectory(x.importRva, 0), DataDirectory(x.relocRva, x.relocSize), DataDirectory(0, 0))
  }

  lemma OptionalParses(x: Spec)
    requires ValidSpec(x)
    ensures CheckOptional(File(x), 68) == None
    ensures ReadOptional(File(x), 68) == HeadersOf(x)
  {
    hide File, Word, Half, DirectoryAt, ParseCoff;
    CoffParses(x);
    OptField(x, 0);
    OptField(x, 4);
    OptField(x, 7);
    OptField(x, 8);
    OptField(x, 9);
    OptField(x, 14);
    OptField(x, 15);
    OptField(x, 17);
    OptField(x, 23);
    WordHalves(File(x), 88);
    WordHalves(File(x), 156);
    DirField(x, 1);
    DirField(x, 5);
    DirField(x, 9);
    DirField(x, 13);
    DirField(x, 14);
  }

  lemma HeadersParse(x: Spec)
    requires ValidSpec(x)
    ensures ParseHeaders(File(x)) == Ok(HeadersOf(x))
  {
    hide ParseCoff, CheckOptional, ReadOptional;
    CoffParses(x);
    OptionalParses(x);
  }

  // ----- sections -----

  lemma {:induction false} TableWordAt(ss: seq<Section>, i: nat, j: nat)
    requires i < |ss| && j < 10
    ensures TableWords(ss)[10 * i + j] == SectionWords(ss[i])[j]
  {
    hide SectionWords;
    var n := |ss| - 1;
    if i < n {
      TableWordAt(ss[..n], i, j);
    }
  }

  lemma SectionWordAt(x: Spec, i: nat, j: nat)
    requires ValidSpec(x) && i < |x.sections| && j < 10
    ensures Word(File(x), 312 + 40 * i + 4 * j) == SectionWords(x.sections[i])[j]
  {
    hide File, Word, HeadWords, TableWords, SectionWords;
    TableWordAt(x.sections, i, j);
    FileWord(x, 78 + 10 * i + j);
    assert 4 * (78 + 10 * i + j) == 312 + 40 * i + 4 * j;
  }

  lemma SectionParses(x: Spec, i: nat)
    requires ValidSpec(x) && i < |x.sections|
    ensures SectionAt(File(x), 312 + 40 * i) == x.sections[i]
  {
    hide File, Word;
    var o := 312 + 40 * i;
    SectionWordAt(x, i, 0);
    SectionWordAt(x, i, 1);
    SectionWordAt(x, i, 2);
    SectionWordAt(x, i, 3);
    SectionWordAt(x, i, 4);
    SectionWordAt(x, i, 5);
    SectionWordAt(x, i, 9);
    ZeroWord(File(x), o);
    ZeroWord(File(x), o + 4);
    assert File(x)[o..o + 8] == Zeros(8);
  }

  lemma {:induction false} SectionsParse(x: Spec, n: nat)
    requires ValidSpec(x) && n <= |x.sections|
    ensures SectionsFrom(File(x), 312, |x.sections|, x.sections[..n]) == Ok(x.sections)
    decreases |x.sections| - n
  {
    hide File, SectionAt;
    if n < |x.sections| {
      SectionParses(x, n);
      assert x.sections[..n] + [x.sections[n]] == x.sections[..n + 1];
      SectionsParse(x, n + 1);
    } else {
      assert x.sections[..n] == x.sections;
    }
  }

  /** The file's headers and sections are accepted; its directories decide the rest. */
  lemma FileLoads(x: Spec)
    requires ValidSpec(x)
    ensures ParseHeaders(File(x)) == Ok(HeadersOf(x))
    ensures SectionsFrom(File(x), 312, |x.sections|, []) == Ok(x.sections)
    ensures Load(File(x)) == Directories(HeadersOf(x), GeometryOf(x), File(x))
  {
    hide ParseHeaders, SectionsFrom, File, Directories;
    HeadersParse(x);
    SectionsParse(x, 0);
    assert x.sections[..0] == [];
  }

  /** Without directories the file is accepted as it is. */
  lemma PlainFileLoads(x: Spec)
    requires ValidSpec(x) && x.importRva == 0 && x.relocRva == 0
    ensures Load(File(x)) == Ok(Parsed(HeadersOf(x), GeometryOf(x), [], [], []))
  {
    hide File, Load;
    FileLoads(x);
  }

  /** A word of the tail. */
  lemma TailWord(x: Spec, o: nat)
    requires ValidSpec(x) && o + 4 <= |x.tail|
    ensures Word(File(x), 312 + 40 * |x.sections| + o) == Word(x.tail, o)
  {
    hide Pack, Word, AllWords;
    WordOfConcat(Pack(AllWords(x)), x.tail, 312 + 40 * |x.sections| + o);
  }
}
