/** Every header field of the files that tools/mkminipe.py builds, the unread ones included. */
module BuilderFields {
  import opened Words
  import opened CStrings
  import opened MkMiniPe
  import opened RoundTrip

  /** The optional header up to its data directories, as 32-bit words. */
  function OptionalWords(t: Text): (ws: seq<u32>)
    requires Fits(t)
    ensures |ws| == 24
  {
    // magic and linker version, code size, entry point, base of code, image base, alignments
    [0x0001_010B, t.fsize, 0, 0, t.entryRva, 0x1000, 0, 0x0040_0000, 0x1000, 0x200]
    // versions, image and header sizes, checksum, subsystem
    + [0, 0, 4, 0, SizeOfImage(t), 0x200, 0, t.subsystem]
    // stack and heap, loader flags, number of directories
    + [0x10_0000, 0x1000, 0x10_0000, 0x1000, 0, 16]
  }

  lemma OptAWord(t: Text, k: nat)
    requires Fits(t) && k < 10
    ensures Word(OptA(t), 4 * k) == OptionalWords(t)[k]
  {
    var a, ws := [0x0B, 0x01, 1, 0], [t.fsize, 0, 0, t.entryRva, TEXT_RVA, 0, IMAGE_BASE, 0x1000, 0x200];
    if k > 0 {
      hide Pack, Word, SizeOfImage;
      PackedWord(a, ws, k - 1);
      assert 4 + 4 * (k - 1) == 4 * k;
    }
  }

  lemma OptBWord(t: Text, k: nat)
    requires Fits(t) && k < 7
    ensures Word(OptB(t), 4 * k) == OptionalWords(t)[10 + k]
  {
    var a, ws := [0, 0, 0, 0, 0, 0, 0, 0, 4, 0, 0, 0], [0, SizeOfImage(t), HEADER_SIZE, 0];
    if k > 2 {
      hide Pack, Word, SizeOfImage;
      PackedWord(a, ws, k - 3);
      assert 12 + 4 * (k - 3) == 4 * k;
    }
  }

  lemma OptCWord(t: Text, k: nat)
    requires Fits(t) && k < 7
    ensures Word(OptC(t), 4 * k) == OptionalWords(t)[17 + k]
  {
    var a, ws := Bytes16(t.subsystem) + Bytes16(0), [0x10_0000, 0x1000, 0x10_0000, 0x1000, 0, 16];
    if k > 0 {
      hide Pack, Word, SizeOfImage, Bytes16;
      PackedWord(a, ws, k - 1);
      assert 4 + 4 * (k - 1) == 4 * k;
    } else {
      hide Pack, SizeOfImage;
    }
  }

  lemma OptionalWord(f: seq<byte>, t: Text, k: nat)
    requires Built(f, t) && k < 24
    ensures Word(f, 88 + 4 * k) == OptionalWords(t)[k]
  {
    hide Word, OptA, OptB, OptC, OptionalWords, OptionalHeader, PeHeader, SectionHeader, DosHeader, CoffHeader, Pack,
         Fits;
    HeaderPieces(f, t);
    OptFields(f, 88, t);
    if k < 10 {
      OptAWord(t, k);
      WordIn(f, 88, OptA(t), 4 * k);
    } else if k < 17 {
      OptBWord(t, k - 10);
      WordIn(f, 128, OptB(t), 4 * (k - 10));
      assert 128 + 4 * (k - 10) == 88 + 4 * k;
    } else {
      OptCWord(t, k - 17);
      WordIn(f, 156, OptC(t), 4 * (k - 17));
      assert 156 + 4 * (k - 17) == 88 + 4 * k;
    }
  }

  lemma SectionName()
    ensures TEXT_NAME == Ascii(".text") + [0, 0, 0]
  {
    var s := ".text";
    assert s[0] as int == 0x2E && s[1] as int == 0x74 && s[2] as int == 0x65 && s[3] as int == 0x78
           && s[4] as int == 0x74;
  }

  lemma FixedParts()
    ensures DosHeader() == Ascii("MZ") + Zeros(58) + Bytes32(64)
    ensures CoffHeader()[4..16] == Zeros(12)
  {
    hide Bytes32;
    var s := "MZ";
    assert s[0] as int == 0x4D && s[1] as int == 0x5A;
    ZeroWords();
    assert CoffHeader()[4..16] == Pack([0, 0, 0]);
  }

  lemma ZeroWords()
    ensures Pack([0, 0, 0]) == Zeros(12)
  {
    assert Bytes32(0) == [0, 0, 0, 0];
    assert [0, 0, 0][1..] == [0, 0] && [0, 0][1..] == [0] && [0][1..] == [];
    assert Pack([0]) == Bytes32(0) + Pack([]);
    assert Pack([0, 0]) == Bytes32(0) + Pack([0]);
  }

  /** Nothing in the headers of a built file is left to chance: the DOS header, the zero fields of the COFF header,
      all words
      of the optional header, and the section's name, unused fields and characteristics. */
  lemma BuilderHeaders(f: seq<byte>, t: Text)
    requires Built(f, t)
    ensures f[0..64] == Ascii("MZ") + Zeros(58) + Bytes32(64) && f[72..84] == Zeros(12)
    ensures forall k :: 0 <= k < 24 ==> Word(f, 88 + 4 * k) == OptionalWords(t)[k]
    ensures f[312..320] == Ascii(".text") + [0, 0, 0] && Word(f, 348) == 0x6000_0020
    ensures Word(f, 336) == 0 && Word(f, 340) == 0 && Word(f, 344) == 0
  {
    hide Word, OptionalWords, OptionalHeader, PeHeader, SectionHeader, DosHeader, CoffHeader, Pack, Fits, Ascii,
         Bytes32;
    HeaderPieces(f, t);
    FixedParts();
    SliceOfSlice(f, 68, 88, 4, 16);
    forall k | 0 <= k < 24 ensures Word(f, 88 + 4 * k) == OptionalWords(t)[k] {
      OptionalWord(f, t, k);
    }
    SectionName();
    SectionRest(f, t);
  }

  lemma SectionRest(f: seq<byte>, t: Text)
    requires Built(f, t)
    ensures f[312..320] == TEXT_NAME && Word(f, 348) == 0x6000_0020
    ensures Word(f, 336) == 0 && Word(f, 340) == 0 && Word(f, 344) == 0
  {
    hide Word, OptionalHeader, PeHeader, DosHeader, CoffHeader, Pack, Fits;
    HeaderPieces(f, t);
    var s, ws := SectionHeader(t), [t.vsize, TEXT_RVA, t.fsize, HEADER_SIZE, 0, 0, 0, TEXT_FLAGS];
    PackedWord(TEXT_NAME, ws, 4);
    PackedWord(TEXT_NAME, ws, 5);
    PackedWord(TEXT_NAME, ws, 6);
    PackedWord(TEXT_NAME, ws, 7);
    SliceOfSlice(f, 312, 352, 0, 8);
    WordIn(f, 312, s, 24);
    WordIn(f, 312, s, 28);
    WordIn(f, 312, s, 32);
    WordIn(f, 312, s, 36);
  }
}
