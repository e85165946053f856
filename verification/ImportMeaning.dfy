/** What the import parser of src/pe_imports.c finds, stated on the bytes of the image
    (PE/COFF specification, "The .idata Section"). */
module ImportMeaning {
  import opened Words
  import opened CStrings
  import opened Numerals
  import opened PeImage
  import opened PeImports

  // ----- names -----

  /** A buffer of `cap` bytes that holds the string `s` and NULs behind it. */
  predicate BufferHolds(buf: seq<byte>, cap: nat, s: seq<byte>) {
    && |buf| == cap && |s| < cap && buf[..|s|] == s
    && forall i :: |s| <= i < cap ==> buf[i] == 0
  }

  /** The buffer holds the string that stands at `rva`, cut at its capacity. */
  ghost predicate NameStands(g: Geometry, raw: seq<byte>, rva: u32, cap: nat, buf: seq<byte>)
    requires |raw| == g.rawSize && cap < 0x1000
  {
    exists s :: |s| < cap && StringAt(g, raw, rva, cap, s) && BufferHolds(buf, cap, s)
  }

  lemma PaddedHolds(buf: seq<byte>, cap: nat, s: seq<byte>)
    requires |s| < cap
    ensures BufferHolds(buf, cap, s) <==> buf == Padded(s, cap)
  {
    if BufferHolds(buf, cap, s) {
      assert buf == buf[..|s|] + buf[|s|..] && buf[|s|..] == Zeros(cap - |s|);
    }
  }

  lemma NameExact(g: Geometry, raw: seq<byte>, rva: u32, cap: nat, buf: seq<byte>)
    requires |raw| == g.rawSize && 0 < cap < 0x1000
    ensures NameStands(g, raw, rva, cap, buf) <==>
              CStr(g, raw, rva, cap).Ok? && buf == Padded(CStr(g, raw, rva, cap).value, cap)
  {
    hide StringAt, BufferHolds, CStrFrom, Padded;
    if CStr(g, raw, rva, cap).Ok? {
      var s := CStr(g, raw, rva, cap).value;
      CStrExact(g, raw, rva, cap, s);
      PaddedHolds(buf, cap, s);
    }
    forall s | |s| < cap && StringAt(g, raw, rva, cap, s) && BufferHolds(buf, cap, s)
      ensures CStr(g, raw, rva, cap) == Ok(s) && buf == Padded(s, cap)
    {
      CStrExact(g, raw, rva, cap, s);
      PaddedHolds(buf, cap, s);
    }
  }

  /** The buffer holds `#` and the decimal numeral of `n`, without leading zeros. */
  ghost predicate OrdinalStands(buf: seq<byte>, n: u16) {
    exists s :: BufferHolds(buf, 128, Ascii("#") + s) && PlainNumeral(s, n, 10, false)
  }

  lemma Hash()
    ensures Ascii("#") == [0x23]
  {
  }

  lemma OrdinalExact(buf: seq<byte>, n: u16)
    ensures OrdinalStands(buf, n) <==> buf == Padded(OrdinalName(n), 128)
  {
    hide BufferHolds, PlainNumeral, Padded, Ascii, Numeral;
    Hash();
    PlainNumeralExact(Decimal(n), n, 10, false);
    PaddedHolds(buf, 128, OrdinalName(n));
    forall s | BufferHolds(buf, 128, Ascii("#") + s) && PlainNumeral(s, n, 10, false)
      ensures Ascii("#") + s == OrdinalName(n)
    {
      PlainNumeralExact(s, n, 10, false);
    }
  }

  // ----- thunks -----

  /** The thunk `w` describes `fn`, patched at `slot`: an ordinal, or a name behind two bytes of hint. */
  ghost predicate FuncStands(g: Geometry, raw: seq<byte>, w: u32, slot: u32, fn: ImportFunc)
    requires |raw| == g.rawSize
  {
    && fn.iatRva == slot
    && if w >= 0x8000_0000 then
         fn.byOrdinal && fn.ordinal == w % 0x1_0000 && OrdinalStands(fn.name, fn.ordinal)
       else
         !fn.byOrdinal && fn.ordinal == 0 && Translate(g, w, 2).Some? && NameStands(g, raw, w + 2, 128, fn.name)
  }

  /** A thunk decodes to `fn` exactly when it describes it. */
  lemma FuncExact(g: Geometry, raw: seq<byte>, w: u32, slot: u32, fn: ImportFunc)
    requires |raw| == g.rawSize
    ensures DecodeThunk(g, raw, w, slot) == Ok(fn) <==> FuncStands(g, raw, w, slot, fn)
  {
    hide Translate, CStr, OrdinalStands, NameStands, Padded, OrdinalName;
    if w >= 0x8000_0000 {
      OrdinalExact(fn.name, w % 0x1_0000);
    } else {
      NameExact(g, raw, w + 2, 128, fn.name);
    }
  }

  /** A hint, a name of at most 127 characters and a NUL in one raw range are imported by that name. */
  lemma HintNameDecodes(g: Geometry, raw: seq<byte>, w: u32, slot: u32, s: seq<byte>)
    requires WellFormed(g) && RawInFile(g) && |raw| == g.rawSize
    requires w < 0x8000_0000 && NoNul(s) && |s| < 128 && Translate(g, w, |s| + 3).Some?
    requires var p := Translate(g, w, |s| + 3).value; raw[p + 2..p + 2 + |s|] == s && raw[p + 2 + |s|] == 0
    ensures exists fn :: DecodeThunk(g, raw, w, slot) == Ok(fn) && BufferHolds(fn.name, 128, s)
                         && !fn.byOrdinal && fn.iatRva == slot
  {
    hide Translate, WellFormed, RawInFile, DecodeThunk, Padded;
    var p := Translate(g, w, |s| + 3).value;
    TranslateAgrees(g, w, |s| + 3, 0, 2);
    forall k | 0 <= k < |s| ensures s[k] != 0 && ByteAt(g, raw, Add32(w + 2, k)) == Some(s[k]) {
      TranslateAgrees(g, w, |s| + 3, 2 + k, 1);
      assert raw[p + 2..p + 2 + |s|][k] == raw[p + 2 + k];
    }
    TranslateAgrees(g, w, |s| + 3, 2 + |s|, 1);
    assert ByteAt(g, raw, Add32(w + 2, |s|)) == Some(0);
    PaddedHolds(Padded(s, 128), 128, s);
    var fn := ImportFunc(Padded(s, 128), 0, false, slot);
    assert NameStands(g, raw, w + 2, 128, fn.name);
    FuncExact(g, raw, w, slot, fn);
  }

  /** Function `k` of a table stands in it. */
  ghost predicate FuncStandsAt(g: Geometry, raw: seq<byte>, table: u32, slots: u32, k: nat, fn: ImportFunc)
    requires |raw| == g.rawSize
  {
    var w := WordAt(g, raw, (table + 4 * k) % 0x1_0000_0000);
    w.Some? && w.value != 0 && FuncStands(g, raw, w.value, (slots + 4 * k) % 0x1_0000_0000, fn)
  }

  /** The look-up table at `table` lists `fs`, whose slots are at `slots`, and ends with a zero. */
  ghost predicate TableStands(g: Geometry, raw: seq<byte>, table: u32, slots: u32, fs: seq<ImportFunc>)
    requires |raw| == g.rawSize
  {
    && |fs| <= 0x4000_0000
    && (forall k :: 0 <= k < |fs| ==> FuncStandsAt(g, raw, table, slots, k, fs[k]))
    && WordAt(g, raw, (table + 4 * |fs|) % 0x1_0000_0000) == Some(0)
  }

  lemma FuncAtExact(g: Geometry, raw: seq<byte>, table: u32, slots: u32, k: nat, fn: ImportFunc)
    requires |raw| == g.rawSize
    ensures ThunkAt(g, raw, table, slots, k, fn) <==> FuncStandsAt(g, raw, table, slots, k, fn)
  {
    hide WordAt, DecodeThunk, FuncStands;
    var w := WordAt(g, raw, EntryRva(table, k));
    if w.Some? {
      FuncExact(g, raw, w.value, EntryRva(slots, k), fn);
    }
  }

  lemma TableExact(g: Geometry, raw: seq<byte>, table: u32, slots: u32, fs: seq<ImportFunc>)
    requires |raw| == g.rawSize
    ensures ThunksFrom(g, raw, table, slots, []) == Ok(fs) <==> TableStands(g, raw, table, slots, fs)
  {
    hide ThunksFrom, ThunkAt, FuncStandsAt, WordAt;
    ThunksExact(g, raw, table, slots, fs);
    forall k | 0 <= k < |fs| ensures ThunkAt(g, raw, table, slots, k, fs[k])
        <==> FuncStandsAt(g, raw, table, slots, k, fs[k]) {
      FuncAtExact(g, raw, table, slots, k, fs[k]);
    }
  }

  // ----- descriptors -----

  /** The five words of the import descriptor at file position `p`. */
  function DescriptorWords(raw: seq<byte>, p: nat): (ws: seq<u32>)
    requires p + 20 <= |raw|
    ensures |ws| == 5
  {
    [Word(raw, p), Word(raw, p + 4), Word(raw, p + 8), Word(raw, p + 12), Word(raw, p + 16)]
  }

  /** The descriptor words `ws` (look-up table, time, forwarder chain, name, address table) describe `dll`:
      the look-up table is the address table unless it is named. */
  ghost predicate DescriptorStands(g: Geometry, raw: seq<byte>, ws: seq<u32>, dll: ImportDll)
    requires |raw| == g.rawSize && |ws| == 5
  {
    && NameStands(g, raw, ws[3], 64, dll.dllName)
    && (ws[2] == 0 || ws[2] == 0xFFFF_FFFF)
    && TableStands(g, raw, if ws[0] == 0 then ws[4] else ws[0], ws[4], dll.funcs)
  }

  /** DLL `k` of the directory stands in it. */
  ghost predicate DllStandsAt(g: Geometry, raw: seq<byte>, dirRva: u32, k: nat, dll: ImportDll)
    requires |raw| == g.rawSize
  {
    var p := Translate(g, (dirRva + 20 * k) % 0x1_0000_0000, 20);
    && p.Some? && DescriptorWords(raw, p.value) != [0, 0, 0, 0, 0]
    && DescriptorStands(g, raw, DescriptorWords(raw, p.value), dll)
  }

  /** The import directory lists `dlls` and ends with a zero descriptor. */
  ghost predicate DirectoryStands(g: Geometry, raw: seq<byte>, dirRva: u32, dlls: seq<ImportDll>)
    requires |raw| == g.rawSize
  {
    && |dlls| <= 0x4000_0000
    && (forall k :: 0 <= k < |dlls| ==> DllStandsAt(g, raw, dirRva, k, dlls[k]))
    && var p := Translate(g, (dirRva + 20 * |dlls|) % 0x1_0000_0000, 20);
       p.Some? && DescriptorWords(raw, p.value) == [0, 0, 0, 0, 0]
  }

  lemma DescriptorExact(g: Geometry, raw: seq<byte>, p: nat, dll: ImportDll)
    requires |raw| == g.rawSize && p + 20 <= |raw|
    ensures DecodeDll(g, raw, ReadDescriptor(raw, p)) == Ok(dll)
            <==> DescriptorStands(g, raw, DescriptorWords(raw, p), dll)
    ensures ReadDescriptor(raw, p) == TERMINATOR <==> DescriptorWords(raw, p) == [0, 0, 0, 0, 0]
  {
    hide Word, CStr, ThunksFrom, NameStands, TableStands, Padded;
    var ws := DescriptorWords(raw, p);
    NameExact(g, raw, ws[3], 64, dll.dllName);
    TableExact(g, raw, if ws[0] == 0 then ws[4] else ws[0], ws[4], dll.funcs);
  }

  lemma DllAtExact(g: Geometry, raw: seq<byte>, dirRva: u32, k: nat, dll: ImportDll)
    requires |raw| == g.rawSize
    ensures DllAt(g, raw, dirRva, k, dll) <==> DllStandsAt(g, raw, dirRva, k, dll)
  {
    hide Translate, DecodeDll, ReadDescriptor, DescriptorStands, DescriptorWords;
    var p := Translate(g, DescriptorRva(dirRva, k), 20);
    if p.Some? {
      DescriptorExact(g, raw, p.value, dll);
    }
  }

  /** The parser succeeds with `dlls` exactly when they stand in the directory, or there is no directory. */
  lemma ImportsMeaning(g: Geometry, raw: seq<byte>, dirRva: u32, dlls: seq<ImportDll>)
    requires |raw| == g.rawSize
    ensures Imports(g, raw, dirRva) == Walk(dlls, None) <==>
              if dirRva == 0 then dlls == [] else DirectoryStands(g, raw, dirRva, dlls)
  {
    hide DllsFrom, DllAt, DllStandsAt, Translate, ReadDescriptor, DescriptorWords, DecodeDll, DescriptorStands;
    if dirRva != 0 {
      ImportsExact(g, raw, dirRva, dlls);
      forall k | 0 <= k < |dlls| ensures DllAt(g, raw, dirRva, k, dlls[k])
          <==> DllStandsAt(g, raw, dirRva, k, dlls[k]) {
        DllAtExact(g, raw, dirRva, k, dlls[k]);
      }
      var p := Translate(g, DescriptorRva(dirRva, |dlls|), 20);
      if p.Some? {
        DescriptorExact(g, raw, p.value, ImportDll([], []));
      }
    }
  }

  /** Why a descriptor is refused: a name that cannot be read comes first, then a forwarder chain. */
  lemma DllRefused(g: Geometry, raw: seq<byte>, p: nat)
    requires |raw| == g.rawSize && p + 20 <= |raw|
    ensures var r, ws := DecodeDll(g, raw, ReadDescriptor(raw, p)), DescriptorWords(raw, p);
      && (r == Err(ForwardedImport) <==>
            (exists buf :: NameStands(g, raw, ws[3], 64, buf)) && ws[2] != 0 && ws[2] != 0xFFFF_FFFF)
      && ((forall buf :: !NameStands(g, raw, ws[3], 64, buf)) ==> r == Err(Malformed))
  {
    hide Word, CStr, ThunksFrom, NameStands, Padded;
    var ws := DescriptorWords(raw, p);
    NameReadable(g, raw, ws[3]);
    ThunkErrors(g, raw, if ws[0] == 0 then ws[4] else ws[0], ws[4], []);
  }

  lemma NameReadable(g: Geometry, raw: seq<byte>, rva: u32)
    requires |raw| == g.rawSize
    ensures (exists buf :: NameStands(g, raw, rva, 64, buf)) <==> CStr(g, raw, rva, 64).Ok?
    ensures CStr(g, raw, rva, 64).Err? ==> CStr(g, raw, rva, 64) == Err(Malformed)
  {
    hide NameStands, CStrFrom, Padded;
    CStrError(g, raw, rva, 64, []);
    if CStr(g, raw, rva, 64).Ok? {
      NameExact(g, raw, rva, 64, Padded(CStr(g, raw, rva, 64).value, 64));
    }
    forall buf | NameStands(g, raw, rva, 64, buf) ensures CStr(g, raw, rva, 64).Ok? {
      NameExact(g, raw, rva, 64, buf);
    }
  }

  lemma {:induction false} ThunkErrors(g: Geometry, raw: seq<byte>, table: u32, slots: u32, acc: seq<ImportFunc>)
    requires |raw| == g.rawSize && |acc| <= MAX_ENTRIES
    ensures var r := ThunksFrom(g, raw, table, slots, acc); r.Ok? || r == Err(Malformed) || r == Err(ArrayLimit)
    decreases MAX_ENTRIES - |acc|
  {
    hide Translate, EntryRva, Word, DecodeThunk;
    var w := WordAt(g, raw, EntryRva(table, |acc|));
    if w.Some? {
      DecodeThunkError(g, raw, w.value, EntryRva(slots, |acc|));
      var fn := DecodeThunk(g, raw, w.value, EntryRva(slots, |acc|));
      if w.value != 0 && |acc| < MAX_ENTRIES && fn.Ok? {
        ThunkErrors(g, raw, table, slots, acc + [fn.value]);
      }
    }
  }
}
