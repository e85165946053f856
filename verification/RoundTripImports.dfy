/** The builder's import tables, parsed back. */
module RoundTripImports {
  import opened Words
  import opened CStrings
  import opened PeImage
  import opened PeImports
  import opened PeReader
  import opened MkMiniPe
  import opened RoundTrip

  /** DLL names that fit the parser's buffer and are C strings. */
  predicate NamesFit(dlls: seq<DllSpec>) {
    forall i :: 0 <= i < |dlls| ==> |dlls[i].name| < DLL_NAME_CAP && NoNul(dlls[i].name)
  }

  // ----- pieces of the tables -----

  lemma {:induction false} NamePiece(dlls: seq<DllSpec>, n: nat, i: nat)
    requires i < n <= |dlls|
    ensures NameStart(dlls, i) + |dlls[i].name| + 1 <= |NameBytes(dlls, n)|
    ensures NameBytes(dlls, n)[NameStart(dlls, i)..NameStart(dlls, i) + |dlls[i].name| + 1] == dlls[i].name + [0]
  {
    var a, b := NameBytes(dlls, n - 1), dlls[n - 1].name + [0];
    if i < n - 1 {
      NamePiece(dlls, n - 1, i);
    }
    SliceOfConcat(a, b, NameStart(dlls, i), NameStart(dlls, i) + |dlls[i].name| + 1);
  }

  lemma {:induction false} ThunkPiece(dlls: seq<DllSpec>, n: nat, i: nat)
    requires i < n <= |dlls|
    ensures ThunkStart(dlls, i) + 4 * (|dlls[i].ordinals| + 1) <= |ThunkBytes(dlls, n)|
    ensures ThunkBytes(dlls, n)[ThunkStart(dlls, i)..ThunkStart(dlls, i) + 4 * (|dlls[i].ordinals| + 1)]
         == Pack(ThunkWords(dlls[i].ordinals))
  {
    hide Pack;
    var a, b := ThunkBytes(dlls, n - 1), Pack(ThunkWords(dlls[n - 1].ordinals));
    if i < n - 1 {
      ThunkPiece(dlls, n - 1, i);
    }
    SliceOfConcat(a, b, ThunkStart(dlls, i), ThunkStart(dlls, i) + 4 * (|dlls[i].ordinals| + 1));
  }

  lemma OffsetsInRange(dlls: seq<DllSpec>, call: bool, i: nat)
    requires Buildable(dlls, call) && i <= |dlls|
    ensures TEXT_RVA + NameOffset(dlls, call, i) < MOD32 && TEXT_RVA + ThunkOffset(dlls, call, i) < MOD32
  {
    OffsetsBounded(dlls, call, i);
  }

  /** Descriptor `i` as the builder writes it. */
  function DescWords(dlls: seq<DllSpec>, call: bool, i: nat): (ws: seq<u32>)
    requires Buildable(dlls, call) && i < |dlls|
    ensures |ws| == 5
  {
    OffsetsInRange(dlls, call, i);
    [0, 0, 0, TEXT_RVA + NameOffset(dlls, call, i), TEXT_RVA + ThunkOffset(dlls, call, i)]
  }

  lemma DescBytesStep(dlls: seq<DllSpec>, call: bool, n: nat)
    requires Buildable(dlls, call) && 0 < n <= |dlls|
    ensures DescBytes(dlls, call, n) == DescBytes(dlls, call, n - 1) + Pack(DescWords(dlls, call, n - 1))
  {
    hide Pack, NameOffset, ThunkOffset;
  }

  lemma {:induction false} DescPiece(dlls: seq<DllSpec>, call: bool, n: nat, i: nat)
    requires Buildable(dlls, call) && i < n <= |dlls|
    ensures DescBytes(dlls, call, n)[20 * i..20 * i + 20] == Pack(DescWords(dlls, call, i))
  {
    hide Pack, DescBytes, DescWords, Buildable;
    DescBytesStep(dlls, call, n);
    if i < n - 1 {
      DescPiece(dlls, call, n - 1, i);
    }
    SliceOfConcat(DescBytes(dlls, call, n - 1), Pack(DescWords(dlls, call, n - 1)), 20 * i, 20 * i + 20);
  }

  // ----- pieces of the body -----

  /** A piece of the text section's data, at offset `o`. */
  predicate PieceAt(b: seq<byte>, o: nat, s: seq<byte>) {
    o + |s| <= |b| && b[o..o + |s|] == s
  }

  lemma PieceOfPiece(b: seq<byte>, o: nat, s: seq<byte>, q: nat, r: seq<byte>)
    requires PieceAt(b, o, s) && PieceAt(s, q, r)
    ensures PieceAt(b, o + q, r)
  {
    SliceOfSlice(b, o, o + |s|, q, q + |r|);
  }

  lemma BodyParts(exitCode: u32, dlls: seq<DllSpec>, call: bool)
    requires Buildable(dlls, call)
    ensures Body(exitCode, dlls, call)
         == Code(exitCode, dlls, call)
            + (DescBytes(dlls, call, |dlls|) + Zeros(20) + (NameBytes(dlls, |dlls|) + ThunkBytes(dlls, |dlls|)))
    ensures NameOffset(dlls, call, 0) == CodeLen(call) + 20 * |dlls| + 20
    ensures ThunkOffset(dlls, call, 0) == NameOffset(dlls, call, 0) + |NameBytes(dlls, |dlls|)|
  {
    hide Code, DescBytes, NameBytes, ThunkBytes, Zeros;
  }

  lemma BodyPieces(exitCode: u32, dlls: seq<DllSpec>, call: bool)
    requires Buildable(dlls, call)
    ensures var b, n := Body(exitCode, dlls, call), |dlls|;
      && PieceAt(b, 0, Code(exitCode, dlls, call))
      && PieceAt(b, CodeLen(call), DescBytes(dlls, call, n))
      && PieceAt(b, CodeLen(call) + 20 * n, Zeros(20))
      && PieceAt(b, NameOffset(dlls, call, 0), NameBytes(dlls, n))
      && PieceAt(b, ThunkOffset(dlls, call, 0), ThunkBytes(dlls, n))
  {
    hide Code, DescBytes, NameBytes, ThunkBytes, Zeros, Body, NameOffset, ThunkOffset, CodeLen, Buildable;
    BodyParts(exitCode, dlls, call);
    var b, n := Body(exitCode, dlls, call), |dlls|;
    var code, desc, names, thunks := Code(exitCode, dlls, call), DescBytes(dlls, call, n), NameBytes(dlls, n),
        ThunkBytes(dlls, n);
    assert b[0..|b|] == b;
    SplitSlice(b, 0, code, desc + Zeros(20) + (names + thunks));
    SplitSlice(b, |code|, desc + Zeros(20), names + thunks);
    SplitSlice(b, |code|, desc, Zeros(20));
    SplitSlice(b, |code| + 20 * n + 20, names, thunks);
  }

  lemma OffsetSums(dlls: seq<DllSpec>, call: bool, i: nat)
    requires i <= |dlls|
    ensures NameOffset(dlls, call, i) == NameOffset(dlls, call, 0) + NameStart(dlls, i)
    ensures ThunkOffset(dlls, call, i) == ThunkOffset(dlls, call, 0) + ThunkStart(dlls, i)
  {
  }

  lemma NameInBody(exitCode: u32, dlls: seq<DllSpec>, call: bool, i: nat)
    requires Buildable(dlls, call) && i < |dlls|
    ensures PieceAt(Body(exitCode, dlls, call), NameOffset(dlls, call, i), dlls[i].name + [0])
  {
    hide Body, NameBytes, PieceAt, NameOffset, ThunkOffset, NameStart, Code, Buildable;
    BodyPieces(exitCode, dlls, call);
    OffsetSums(dlls, call, i);
    NamePiece(dlls, |dlls|, i);
    PieceAtIs(NameBytes(dlls, |dlls|), NameStart(dlls, i), dlls[i].name + [0]);
    PieceOfPiece(Body(exitCode, dlls, call), NameOffset(dlls, call, 0), NameBytes(dlls, |dlls|), NameStart(dlls, i),
                 dlls[i].name + [0]);
  }

  lemma PieceAtIs(b: seq<byte>, o: nat, s: seq<byte>)
    requires o + |s| <= |b| && b[o..o + |s|] == s
    ensures PieceAt(b, o, s)
  {
  }

  lemma ThunksInBody(exitCode: u32, dlls: seq<DllSpec>, call: bool, i: nat)
    requires Buildable(dlls, call) && i < |dlls|
    ensures PieceAt(Body(exitCode, dlls, call), ThunkOffset(dlls, call, i), Pack(ThunkWords(dlls[i].ordinals)))
  {
    hide Body, ThunkBytes, PieceAt, Pack, NameOffset, ThunkOffset, ThunkStart, Code, Buildable;
    BodyPieces(exitCode, dlls, call);
    OffsetSums(dlls, call, i);
    ThunkPiece(dlls, |dlls|, i);
    PieceAtIs(ThunkBytes(dlls, |dlls|), ThunkStart(dlls, i), Pack(ThunkWords(dlls[i].ordinals)));
    PieceOfPiece(Body(exitCode, dlls, call), ThunkOffset(dlls, call, 0), ThunkBytes(dlls, |dlls|),
                 ThunkStart(dlls, i), Pack(ThunkWords(dlls[i].ordinals)));
  }

  lemma DescInBody(exitCode: u32, dlls: seq<DllSpec>, call: bool, i: nat)
    requires Buildable(dlls, call) && i < |dlls|
    ensures PieceAt(Body(exitCode, dlls, call), CodeLen(call) + 20 * i, Pack(DescWords(dlls, call, i)))
  {
    hide Body, DescBytes, PieceAt, Pack, DescWords;
    BodyPieces(exitCode, dlls, call);
    DescPiece(dlls, call, |dlls|, i);
    PieceAtIs(DescBytes(dlls, call, |dlls|), 20 * i, Pack(DescWords(dlls, call, i)));
    PieceOfPiece(Body(exitCode, dlls, call), CodeLen(call), DescBytes(dlls, call, |dlls|), 20 * i,
                 Pack(DescWords(dlls, call, i)));
  }

  // ----- the built file -----

  function BuiltText(dlls: seq<DllSpec>, call: bool, subsystem: u16): Text
    requires Buildable(dlls, call)
  {
    OffsetsBounded(dlls, call, 0);
    TextOf(DataEnd(dlls, call), subsystem, TEXT_RVA + CodeLen(call), DescSize(dlls))
  }

  /** `f` is a built file whose text section holds `body`. */
  predicate BuiltAround(f: seq<byte>, t: Text, body: seq<byte>) {
    Built(f, t) && t.vsize == |body| && PieceAt(f, HEADER_SIZE, body)
  }

  lemma BuiltFits(f: seq<byte>, t: Text, body: seq<byte>)
    requires BuiltAround(f, t, body)
    ensures Fits(t) && TextGeometry(t, |f|).rawSize == |f|
  {
  }

  lemma BuiltIsBuilt(exitCode: u32, dlls: seq<DllSpec>, call: bool, subsystem: u16)
    requires Buildable(dlls, call)
    ensures var f, t := BuildWithImports(exitCode, dlls, call, subsystem), BuiltText(dlls, call, subsystem);
      && BuiltAround(f, t, Body(exitCode, dlls, call))
      && Fits(t) && |f| == HEADER_SIZE + t.fsize
  {
    hide Body, PeHeader, FileUp, Fits, DataEnd;
    OffsetsBounded(dlls, call, 0);
    var body, t := Body(exitCode, dlls, call), BuiltText(dlls, call, subsystem);
    TextFits(|body|, subsystem, TEXT_RVA + CodeLen(call), DescSize(dlls));
    var f := BuildWithImports(exitCode, dlls, call, subsystem);
    var h, z := PeHeader(t), Zeros(FileUp(|body|) - |body|);
    assert f == h + (body + z);
    assert f[0..|f|] == f;
    SplitSlice(f, 0, h, body + z);
    SplitSlice(f, |h|, body, z);
  }

  /** The text section's data translates to the bytes behind the header. */
  lemma TextTranslate(t: Text, n: nat, k: nat, len: u32)
    requires Fits(t) && n == HEADER_SIZE + t.fsize && len > 0 && k + len <= t.vsize
    ensures TEXT_RVA + k < MOD32
    ensures Translate(TextGeometry(t, n), TEXT_RVA + k, len) == Some(HEADER_SIZE + k)
  {
    hide PageUp, FileUp;
    var g := TextGeometry(t, n);
    FileUpWithinPages(t.vsize);
    assert g.sections[0] == TextSection(t);
  }

  /** Reading the image at a piece of the body reads the piece. */
  lemma PieceWord(f: seq<byte>, t: Text, body: seq<byte>, o: nat, s: seq<byte>, k: nat)
    requires BuiltAround(f, t, body)
    requires PieceAt(body, o, s) && k + 4 <= |s|
    ensures TEXT_RVA + o + k < MOD32
    ensures WordAt(TextGeometry(t, |f|), f, TEXT_RVA + o + k) == Some(Word(s, k))
  {
    PieceOfPiece(f, HEADER_SIZE, body, o, s);
    TextTranslate(t, |f|, o + k, 4);
    WordIn(f, HEADER_SIZE + o, s, k);
  }

  lemma PieceByte(f: seq<byte>, t: Text, body: seq<byte>, o: nat, s: seq<byte>, k: nat)
    requires BuiltAround(f, t, body)
    requires PieceAt(body, o, s) && k < |s|
    ensures TEXT_RVA + o + k < MOD32
    ensures ByteAt(TextGeometry(t, |f|), f, TEXT_RVA + o + k) == Some(s[k])
  {
    PieceOfPiece(f, HEADER_SIZE, body, o, s);
    TextTranslate(t, |f|, o + k, 1);
    assert f[HEADER_SIZE + o..HEADER_SIZE + o + |s|][k] == f[HEADER_SIZE + o + k];
  }

  // ----- what the parser should find -----

  function ExpectedFunc(ordinal: u16, iatRva: u32): ImportFunc {
    ImportFunc(Padded(OrdinalName(ordinal), FUNC_NAME_CAP), ordinal, true, iatRva)
  }

  function ExpectedFuncs(ordinals: seq<u16>, thunkRva: u32): (fs: seq<ImportFunc>)
    ensures |fs| == |ordinals|
    ensures forall k :: 0 <= k < |fs| && thunkRva + 4 * k < MOD32 ==>
              fs[k] == ExpectedFunc(ordinals[k], thunkRva + 4 * k)
  {
    seq(|ordinals|, k requires 0 <= k < |ordinals| => ExpectedFunc(ordinals[k], (thunkRva + 4 * k) % 0x1_0000_0000))
  }

  function ExpectedDll(dlls: seq<DllSpec>, call: bool, i: nat): ImportDll
    requires Buildable(dlls, call) && NamesFit(dlls) && i < |dlls|
  {
    OffsetsInRange(dlls, call, i);
    ImportDll(Padded(dlls[i].name, DLL_NAME_CAP),
              ExpectedFuncs(dlls[i].ordinals, TEXT_RVA + ThunkOffset(dlls, call, i)))
  }

  /** Every DLL of the list, in order, with its ordinals as `#<ordinal>` names
      and its slots at the emitted thunks. */
  function ExpectedDlls(dlls: seq<DllSpec>, call: bool): (ds: seq<ImportDll>)
    requires Buildable(dlls, call) && NamesFit(dlls)
    ensures |ds| == |dlls|
    ensures forall i :: 0 <= i < |dlls| ==> ds[i] == ExpectedDll(dlls, call, i)
  {
    seq(|dlls|, i requires 0 <= i < |dlls| => ExpectedDll(dlls, call, i))
  }

  lemma OrdinalDecodes(g: Geometry, raw: seq<byte>, ordinal: u16, iatRva: u32)
    requires |raw| == g.rawSize
    ensures DecodeThunk(g, raw, OrdinalThunk(ordinal), iatRva) == Ok(ExpectedFunc(ordinal, iatRva))
  {
  }

  lemma ThunkTableParses(f: seq<byte>, t: Text, body: seq<byte>, o: nat, ordinals: seq<u16>)
    requires BuiltAround(f, t, body)
    requires PieceAt(body, o, Pack(ThunkWords(ordinals))) && TEXT_RVA + o < MOD32
    ensures ThunksFrom(TextGeometry(t, |f|), f, TEXT_RVA + o, TEXT_RVA + o, [])
            == Ok(ExpectedFuncs(ordinals, TEXT_RVA + o))
  {
    hide Pack, BuiltAround, PieceAt, ThunksFrom, TextGeometry;
    BuiltFits(f, t, body);
    var g, fs, rva := TextGeometry(t, |f|), ExpectedFuncs(ordinals, TEXT_RVA + o), TEXT_RVA + o;
    ThunkWordRead(f, t, body, o, ordinals, |ordinals|);
    forall k | 0 <= k < |fs|
      ensures rva + 4 * k < MOD32 && ThunkAt(g, f, rva, rva, k, fs[k])
    {
      ThunkWordRead(f, t, body, o, ordinals, k);
      OrdinalDecodes(g, f, ordinals[k], rva + 4 * k);
    }
    ThunksExact(g, f, rva, rva, fs);
  }

  lemma ThunkWordRead(f: seq<byte>, t: Text, body: seq<byte>, o: nat, ordinals: seq<u16>, k: nat)
    requires BuiltAround(f, t, body) && k <= |ordinals|
    requires PieceAt(body, o, Pack(ThunkWords(ordinals)))
    ensures TEXT_RVA + o + 4 * k < MOD32
    ensures WordAt(TextGeometry(t, |f|), f, TEXT_RVA + o + 4 * k) == Some(ThunkWords(ordinals)[k])
  {
    hide Pack, PieceAt;
    PieceWord(f, t, body, o, Pack(ThunkWords(ordinals)), 4 * k);
    WordOfPack(ThunkWords(ordinals), k);
  }

  lemma NameParses(f: seq<byte>, t: Text, body: seq<byte>, o: nat, name: seq<byte>)
    requires BuiltAround(f, t, body)
    requires PieceAt(body, o, name + [0]) && |name| < DLL_NAME_CAP && NoNul(name) && TEXT_RVA + o < MOD32
    ensures CStr(TextGeometry(t, |f|), f, TEXT_RVA + o, DLL_NAME_CAP) == Ok(name)
  {
    hide BuiltAround, PieceAt, ByteAt, TextGeometry;
    BuiltFits(f, t, body);
    var g, rva, s := TextGeometry(t, |f|), TEXT_RVA + o, name + [0];
    forall k | 0 <= k <= |name|
      ensures rva + k < MOD32 && ByteAt(g, f, Add32(rva, k)) == Some(s[k])
    {
      PieceByte(f, t, body, o, s, k);
    }
    assert ByteAt(g, f, Add32(rva, |name|)) == Some(s[|name|]);
    forall k | 0 <= k < |name|
      ensures name[k] != 0 && ByteAt(g, f, Add32(rva, k)) == Some(name[k])
    {
      assert s[k] == name[k];
    }
    CStrExact(g, f, rva, DLL_NAME_CAP, name);
  }

  lemma DescriptorPlace(f: seq<byte>, t: Text, body: seq<byte>, o: nat, ws: seq<u32>)
    requires BuiltAround(f, t, body)
    requires |ws| == 5 && PieceAt(body, o, Pack(ws))
    ensures Fits(t) && |f| == HEADER_SIZE + t.fsize && TEXT_RVA + o < MOD32
    ensures PieceAt(f, HEADER_SIZE + o, Pack(ws))
    ensures Translate(TextGeometry(t, |f|), TEXT_RVA + o, 20) == Some(HEADER_SIZE + o)
  {
    hide Pack, PeHeader, Fits, Translate;
    PieceOfPiece(f, HEADER_SIZE, body, o, Pack(ws));
    TextTranslate(t, |f|, o, 20);
  }

  lemma DescriptorRead(f: seq<byte>, t: Text, body: seq<byte>, o: nat, ws: seq<u32>)
    requires BuiltAround(f, t, body)
    requires |ws| == 5 && PieceAt(body, o, Pack(ws))
    ensures TEXT_RVA + o < MOD32
    ensures DescriptorAt(TextGeometry(t, |f|), f, TEXT_RVA + o) == Some(Descriptor(ws[0], ws[1], ws[2], ws[3], ws[4]))
  {
    hide Pack, Word, Built, Translate;
    DescriptorPlace(f, t, body, o, ws);
    forall k | 0 <= k < 5
      ensures Word(f, HEADER_SIZE + o + 4 * k) == ws[k]
    {
      WordOfPack(ws, k);
      WordIn(f, HEADER_SIZE + o, Pack(ws), 4 * k);
    }
    var p := HEADER_SIZE + o;
    assert Word(f, p + 4 * 0) == ws[0] && Word(f, p + 4 * 1) == ws[1] && Word(f, p + 4 * 2) == ws[2];
    assert Word(f, p + 4 * 3) == ws[3] && Word(f, p + 4 * 4) == ws[4];
  }

  lemma ZeroPack()
    ensures Pack([0, 0, 0, 0, 0]) == Zeros(20)
  {
    assert Bytes32(0) == [0, 0, 0, 0];
    var ws: seq<u32> := [0, 0, 0, 0, 0];
    assert ws[1..] == [0, 0, 0, 0] && ws[1..][1..] == [0, 0, 0] && ws[1..][1..][1..] == [0, 0];
    assert Pack([0, 0]) == Bytes32(0) + Bytes32(0) by {
      assert [0, 0][1..] == [0] && [0][1..] == [];
      assert Pack([0]) == Bytes32(0) + Pack([]);
    }
    assert Pack([0, 0, 0]) == Bytes32(0) + Pack([0, 0]);
    assert Pack([0, 0, 0, 0]) == Bytes32(0) + Pack([0, 0, 0]);
  }

  /** The three pieces that describe DLL `i`. */
  lemma DllPieces(exitCode: u32, dlls: seq<DllSpec>, call: bool, subsystem: u16, i: nat)
    requires Buildable(dlls, call) && NamesFit(dlls) && i < |dlls|
    ensures var f, t, body := BuildWithImports(exitCode, dlls, call, subsystem), BuiltText(dlls, call, subsystem),
            Body(exitCode, dlls, call);
      && BuiltAround(f, t, body) && Fits(t) && |f| == HEADER_SIZE + t.fsize
      && PieceAt(body, CodeLen(call) + 20 * i, Pack(DescWords(dlls, call, i)))
      && PieceAt(body, NameOffset(dlls, call, i), dlls[i].name + [0])
      && PieceAt(body, ThunkOffset(dlls, call, i), Pack(ThunkWords(dlls[i].ordinals)))
    ensures TEXT_RVA + NameOffset(dlls, call, i) < MOD32 && TEXT_RVA + ThunkOffset(dlls, call, i) < MOD32
    ensures |dlls[i].name| < DLL_NAME_CAP && NoNul(dlls[i].name)
  {
    hide BuildWithImports, BuiltText, Body, BuiltAround, PieceAt, Pack, NameOffset, ThunkOffset, Fits, DescWords;
    BuiltIsBuilt(exitCode, dlls, call, subsystem);
    DescInBody(exitCode, dlls, call, i);
    NameInBody(exitCode, dlls, call, i);
    ThunksInBody(exitCode, dlls, call, i);
    OffsetsInRange(dlls, call, i);
  }

  /** A descriptor whose name and thunks are known decodes to them. */
  lemma DllDecodes(g: Geometry, f: seq<byte>, nameRva: u32, thunkRva: u32, name: seq<byte>, fs: seq<ImportFunc>)
    requires |f| == g.rawSize && |name| < DLL_NAME_CAP
    requires CStr(g, f, nameRva, DLL_NAME_CAP) == Ok(name) && ThunksFrom(g, f, thunkRva, thunkRva, []) == Ok(fs)
    ensures DecodeDll(g, f, Descriptor(0, 0, 0, nameRva, thunkRva)) == Ok(ImportDll(Padded(name, DLL_NAME_CAP), fs))
  {
    hide CStr, ThunksFrom, Padded;
  }

  lemma DllParses(exitCode: u32, dlls: seq<DllSpec>, call: bool, subsystem: u16, i: nat)
    requires Buildable(dlls, call) && NamesFit(dlls) && i < |dlls|
    ensures var f, t := BuildWithImports(exitCode, dlls, call, subsystem), BuiltText(dlls, call, subsystem);
      var at := TEXT_RVA + CodeLen(call) + 20 * i;
      && Fits(t) && |f| == HEADER_SIZE + t.fsize && at < MOD32
      && DllAt(TextGeometry(t, |f|), f, TEXT_RVA + CodeLen(call), i, ExpectedDll(dlls, call, i))
  {
    hide BuildWithImports, BuiltText, Body, BuiltAround, PieceAt, Pack, NameOffset, ThunkOffset, Fits, Buildable,
         NamesFit;
    hide DescriptorAt, DecodeDll, TextGeometry, CStr, ThunksFrom, Padded, ExpectedFuncs;
    var f, t, body := BuildWithImports(exitCode, dlls, call, subsystem), BuiltText(dlls, call, subsystem),
        Body(exitCode, dlls, call);
    DllPieces(exitCode, dlls, call, subsystem, i);
    BuiltFits(f, t, body);
    var nameRva, thunkRva := TEXT_RVA + NameOffset(dlls, call, i), TEXT_RVA + ThunkOffset(dlls, call, i);
    DescriptorRead(f, t, body, CodeLen(call) + 20 * i, DescWords(dlls, call, i));
    NameParses(f, t, body, NameOffset(dlls, call, i), dlls[i].name);
    ThunkTableParses(f, t, body, ThunkOffset(dlls, call, i), dlls[i].ordinals);
    DllDecodes(TextGeometry(t, |f|), f, nameRva, thunkRva, dlls[i].name, ExpectedFuncs(dlls[i].ordinals, thunkRva));
  }

  lemma TerminatorParses(exitCode: u32, dlls: seq<DllSpec>, call: bool, subsystem: u16)
    requires Buildable(dlls, call)
    ensures var f, t := BuildWithImports(exitCode, dlls, call, subsystem), BuiltText(dlls, call, subsystem);
      var at := TEXT_RVA + CodeLen(call) + 20 * |dlls|;
      && Fits(t) && |f| == HEADER_SIZE + t.fsize && at < MOD32
      && DescriptorAt(TextGeometry(t, |f|), f, at) == Some(TERMINATOR)
  {
    hide BuildWithImports, Body, BuiltText, PieceAt, Pack, BuiltAround, Fits, DescriptorAt;
    BuiltIsBuilt(exitCode, dlls, call, subsystem);
    BodyPieces(exitCode, dlls, call);
    ZeroPack();
    DescriptorRead(BuildWithImports(exitCode, dlls, call, subsystem), BuiltText(dlls, call, subsystem),
                   Body(exitCode, dlls, call),
                   CodeLen(call) + 20 * |dlls|, [0, 0, 0, 0, 0]);
  }

  lemma BuiltImports(exitCode: u32, dlls: seq<DllSpec>, call: bool, subsystem: u16)
    requires Buildable(dlls, call) && NamesFit(dlls)
    ensures var f, t := BuildWithImports(exitCode, dlls, call, subsystem), BuiltText(dlls, call, subsystem);
      && Fits(t) && |f| == HEADER_SIZE + t.fsize
      && Imports(TextGeometry(t, |f|), f, TEXT_RVA + CodeLen(call)) == Walk(ExpectedDlls(dlls, call), None)
  {
    hide BuildWithImports, BuiltText, ExpectedDll, DllAt, Imports, TextGeometry, NamesFit, Buildable, DescriptorAt,
         Fits, BuiltAround, Body;
    var f, t, ds := BuildWithImports(exitCode, dlls, call, subsystem), BuiltText(dlls, call, subsystem),
        ExpectedDlls(dlls, call);
    BuiltIsBuilt(exitCode, dlls, call, subsystem);
    BuiltFits(f, t, Body(exitCode, dlls, call));
    TerminatorParses(exitCode, dlls, call, subsystem);
    var g, dirRva := TextGeometry(t, |f|), TEXT_RVA + CodeLen(call);
    forall i | 0 <= i < |ds|
      ensures dirRva + 20 * i < MOD32 && DllAt(g, f, dirRva, i, ds[i])
    {
      DllParses(exitCode, dlls, call, subsystem, i);
    }
    ImportsExact(g, f, dirRva, ds);
  }

  lemma BuiltParameters(exitCode: u32, dlls: seq<DllSpec>, call: bool, subsystem: u16)
    requires Buildable(dlls, call)
    ensures var f, t := BuildWithImports(exitCode, dlls, call, subsystem), BuiltText(dlls, call, subsystem);
      && Built(f, t) && t.importRva == TEXT_RVA + CodeLen(call) && t.subsystem == subsystem
  {
    hide BuildWithImports, Body, Built;
    BuiltIsBuilt(exitCode, dlls, call, subsystem);
  }

  /** Builder/parser round trip: for any list of DLLs with C-string names of at
      most 63 bytes and 16-bit ordinals that fits in 32 bits, the built file is
      accepted, is well-formed, and parses to exactly that list. */
  lemma BuilderRoundTrip(exitCode: u32, dlls: seq<DllSpec>, call: bool, subsystem: u16)
    requires Buildable(dlls, call) && NamesFit(dlls) && (subsystem == 2 || subsystem == 3)
    ensures var f, t := BuildWithImports(exitCode, dlls, call, subsystem), BuiltText(dlls, call, subsystem);
      && Fits(t)
      && Load(f) == Ok(Parsed(ExpectedHeaders(t, |f|), TextGeometry(t, |f|), ExpectedDlls(dlls, call), [], []))
      && WellFormed(TextGeometry(t, |f|)) && RawInFile(TextGeometry(t, |f|))
  {
    hide BuildWithImports, BuiltText, Load, Imports, PeHeader, ExpectedDlls, Fits, WellFormed, RawInFile, TextGeometry;
    BuiltParameters(exitCode, dlls, call, subsystem);
    BuiltImports(exitCode, dlls, call, subsystem);
    var f, t := BuildWithImports(exitCode, dlls, call, subsystem), BuiltText(dlls, call, subsystem);
    BuiltLoads(f, t);
    BuiltWellFormed(f, t);
  }

  lemma CallCode(exitCode: u32, dlls: seq<DllSpec>)
    requires Buildable(dlls, true)
    ensures var code, v := Code(exitCode, dlls, true), IMAGE_BASE + TEXT_RVA + ThunkOffset(dlls, true, 0);
      v < MOD32 && code[..2] == [0xFF, 0x15] && Word(code, 2) == v
  {
    hide ThunkOffset, Bytes32, Word, DataEnd;
    OffsetsBounded(dlls, true, 0);
    var code, v := Code(exitCode, dlls, true), IMAGE_BASE + TEXT_RVA + ThunkOffset(dlls, true, 0);
    assert code == [0xFF, 0x15] + (Bytes32(v) + ExitCodeBytes(exitCode));
    assert code[2..6] == Bytes32(v) && code[..2] == [0xFF, 0x15];
    WordEncodes(code, 2, v);
  }

  /** With `call_first_ordinal` the entry code is `FF 15` and the address of the
      first slot of the first DLL, where the parser puts its first import. */
  lemma CallOperand(exitCode: u32, dlls: seq<DllSpec>, subsystem: u16)
    requires Buildable(dlls, true) && NamesFit(dlls) && |dlls[0].ordinals| > 0
    ensures var f, t := BuildWithImports(exitCode, dlls, true, subsystem), BuiltText(dlls, true, subsystem);
      && Fits(t) && |f| == HEADER_SIZE + t.fsize && f[HEADER_SIZE..HEADER_SIZE + 2] == [0xFF, 0x15]
      && WordAt(TextGeometry(t, |f|), f, TEXT_RVA + 2) == Some(IMAGE_BASE + ExpectedDlls(dlls, true)[0].funcs[0].iatRva)
  {
    hide BuildWithImports, Body, BuiltText, Pack, Code, Word, ThunkOffset, BuiltAround, TextGeometry, Fits, WordAt;
    var f, t, body := BuildWithImports(exitCode, dlls, true, subsystem), BuiltText(dlls, true, subsystem),
        Body(exitCode, dlls, true);
    BuiltIsBuilt(exitCode, dlls, true, subsystem);
    BuiltFits(f, t, body);
    BodyPieces(exitCode, dlls, true);
    OffsetsInRange(dlls, true, 0);
    CallCode(exitCode, dlls);
    var code := Code(exitCode, dlls, true);
    PieceWord(f, t, body, 0, code, 2);
    CodeInFile(f, t, body, code);
  }

  lemma CodeInFile(f: seq<byte>, t: Text, body: seq<byte>, code: seq<byte>)
    requires BuiltAround(f, t, body) && PieceAt(body, 0, code) && |code| >= 2
    ensures HEADER_SIZE + 2 <= |f| && f[HEADER_SIZE..HEADER_SIZE + 2] == code[..2]
  {
    hide PeHeader, Fits;
    PieceOfPiece(f, HEADER_SIZE, body, 0, code);
    assert f[HEADER_SIZE..HEADER_SIZE + 2] == f[HEADER_SIZE..HEADER_SIZE + |code|][..2];
  }
}
