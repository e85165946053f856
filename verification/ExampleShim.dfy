/** A small but complete shim: an ELF32 blob with one load and both symbols that the conversion needs. */
module ExampleShim {
  import opened Words
  import opened CStrings
  import opened Elf32
  import opened Shim

  const LOAD_BASE: u32 := 0x0F00_0000
  const TARGET_OFFSET: u32 := 224

  const EHDR_WORDS: seq<u32> := [0x464C_457F, 0x0001_0101, 0, 0, 0x0003_0002, 1, LOAD_BASE, 52, 84, 0, 0x0020_0034,
      0x0028_0001, 2]
  /** A load whose fields all differ. */
  const PHDR_WORDS: seq<u32> := [1, 0, LOAD_BASE, 0x1234, 228, 0x2000, 7, 0x1000]
  const SYMTAB_WORDS: seq<u32> := [0, 2, 0, 0, 164, 32, 1, 0, 4, 16]
  const STRTAB_WORDS: seq<u32> := [0, 3, 0, 0, 196, 28, 0, 0, 1, 0]
  const SYMBOL_WORDS: seq<u32> := [0, 0x0F00_00E0, 4, 0, 21, LOAD_BASE, 0, 0]

  /** ELF header, one program header, a symbol table section and its string table section, two symbols. */
  const HEAD_WORDS: seq<u32> := EHDR_WORDS + PHDR_WORDS + SYMTAB_WORDS + STRTAB_WORDS + SYMBOL_WORDS

  /** The string table and the target word. */
  function Rest(): (s: seq<byte>)
    ensures |s| == 32
  {
    ENTRY_TARGET + [0] + START + [0] + [0, 0, 0, 0]
  }

  function Blob(): (b: seq<byte>)
    ensures |b| == 228
  {
    Pack(HEAD_WORDS) + Rest()
  }

  lemma BlobWord(k: nat)
    requires k < 49
    ensures Word(Blob(), 4 * k) == HEAD_WORDS[k]
  {
    hide Pack;
    WordOfPack(HEAD_WORDS, k);
    WordOfConcat(Pack(HEAD_WORDS), Rest(), 4 * k);
  }

  lemma HeaderFields()
    ensures PhOff(Blob()) == 52 && PhNum(Blob()) == 1 && HasPhdrs(Blob())
    ensures ShOff(Blob()) == 84 && ShNum(Blob()) == 2 && HasShdrs(Blob())
  {
    hide Blob, Word, Half;
    BlobWord(7);
    BlobWord(8);
    BlobWord(11);
    BlobWord(12);
    WordHalves(Blob(), 44);
    WordHalves(Blob(), 48);
  }

  lemma OneLoad()
    ensures HasPhdrs(Blob())
    ensures Loads(Blob()) == [Phdr(1, 0, LOAD_BASE, 0x1234, 228, 0x2000, 7, 0x1000)]
  {
    hide Blob, Word, PhOff, PhNum;
    HeaderFields();
    BlobWord(13);
    BlobWord(14);
    BlobWord(15);
    BlobWord(16);
    BlobWord(17);
    BlobWord(18);
    BlobWord(19);
    BlobWord(20);
    assert LoadsFrom(Blob(), 1) == [];
  }

  // ----- symbols -----

  lemma SymbolSections()
    ensures HasShdrs(Blob()) && ShNum(Blob()) == 2
    ensures ShType(Blob(), 0) == SHT_SYMTAB && ShOffset(Blob(), 0) == 164 && SymCount(Blob(), 0) == 2
            && ShLink(Blob(), 0) == 1
    ensures ShType(Blob(), 1) == 3 && ShOffset(Blob(), 1) == 196
  {
    hide Blob, Word, ShOff, ShNum;
    HeaderFields();
    BlobWord(22);
    BlobWord(25);
    BlobWord(26);
    BlobWord(27);
    BlobWord(32);
    BlobWord(35);
  }

  lemma NamesHaveNoNul()
    ensures NoNul(ENTRY_TARGET) && NoNul(START) && |ENTRY_TARGET| == 20 && |START| == 6
  {
    var t, s := "shim_pe_entry_target", "_start";
    assert forall i :: 0 <= i < |t| ==> t[i] as int % 0x100 != 0;
    assert forall i :: 0 <= i < |s| ==> s[i] as int % 0x100 != 0;
  }

  lemma Names()
    ensures CStrAt(Blob(), 196) == ENTRY_TARGET && CStrAt(Blob(), 217) == START
  {
    hide Pack, CStrAt, Ascii;
    NamesHaveNoNul();
    var b, h, r := Blob(), Pack(HEAD_WORDS), Rest();
    assert forall k :: 0 <= k < 32 ==> b[196 + k] == r[k];
    assert b[196..216] == ENTRY_TARGET && b[216] == r[20] == 0;
    assert b[217..223] == START && b[223] == r[27] == 0;
    CStrAtStops(b, 196, ENTRY_TARGET);
    CStrAtStops(b, 217, START);
  }

  lemma SymbolRecords()
    ensures Word(Blob(), 164) == 0 && Word(Blob(), 168) == LOAD_BASE + TARGET_OFFSET
    ensures Word(Blob(), 180) == 21 && Word(Blob(), 184) == LOAD_BASE
  {
    hide Blob, Word;
    BlobWord(41);
    BlobWord(42);
    BlobWord(45);
    BlobWord(46);
  }

  lemma SymbolsValid()
    ensures ValidSymtabs(Blob())
  {
    hide Blob, Word, ShOff, ShNum, CStrAt, ShType, ShOffset, SymCount, ShLink, Ascii;
    SymbolSections();
    SymbolRecords();
    Names();
    NamesHaveNoNul();
  }

  lemma BothSymbols()
    ensures ValidSymtabs(Blob())
    ensures SymbolFrom(Blob(), 0, ENTRY_TARGET) == Some(LOAD_BASE + TARGET_OFFSET)
    ensures SymbolFrom(Blob(), 0, START) == Some(LOAD_BASE)
  {
    hide Blob, Word, ShOff, ShNum, CStrAt, ShType, ShOffset, SymCount, ShLink, Ascii;
    SymbolSections();
    SymbolRecords();
    Names();
    NamesHaveNoNul();
    SymbolsValid();
    assert SymName(Blob(), 0, 0) == ENTRY_TARGET && SymName(Blob(), 0, 1) == START;
    assert ENTRY_TARGET != START;
    assert SymbolIn(Blob(), 0, 1, START) == Some(LOAD_BASE);
  }

  lemma BlobValid()
    ensures ValidShim(Blob())
  {
    hide Blob, LoadsFrom, SymbolFrom, ValidSymtabs, HasPhdrs;
    OneLoad();
    BothSymbols();
  }

  /** The blob with any table of supported imports. */
  function WithTable(table: seq<ShimEntry>): EmbeddedShim {
    BlobValid();
    ShimData(Blob(), table)
  }
}
