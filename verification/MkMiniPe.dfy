/** tools/mkminipe.py: hand-emits single-section PE files with computed offsets. */
module MkMiniPe {
  import opened Words

  const IMAGE_BASE: u32 := 0x40_0000
  const TEXT_RVA: u32 := 0x1000
  const HEADER_SIZE: u32 := 0x200

  /** `align_up(n, FILE_ALIGN)`. */
  function FileUp(n: nat): (m: nat)
    ensures n <= m < n + 0x200
  {
    (n + 0x1FF) / 0x200 * 0x200
  }

  /** mov eax, 1; mov ebx, exit_code; int 0x80 */
  function ExitCodeBytes(exitCode: u32): (s: seq<byte>)
    ensures |s| == 12
  {
    [0xB8, 1, 0, 0, 0, 0xBB] + Bytes32(exitCode) + [0xCD, 0x80]
  }

  // ----- _pe_header -----

  function DosHeader(): (s: seq<byte>)
    ensures |s| == 64
  {
    [0x4D, 0x5A] + Zeros(58) + Bytes32(64)
  }

  function CoffHeader(): (s: seq<byte>)
    ensures |s| == 20
  {
    (Bytes16(0x014C) + Bytes16(1)) + Pack([0, 0, 0]) + (Bytes16(224) + Bytes16(0x0102))
  }

  /** The parameters of `_pe_header`. */
  datatype Text = Text(vsize: u32, fsize: u32, entryRva: u32, subsystem: u16, importRva: u32, importSize: u32)

  function SizeOfImage(t: Text): nat {
    PageUp(TEXT_RVA + t.vsize)
  }

  /** The image fits in 32 bits, also at its base address. */
  predicate Fits(t: Text) {
    t.vsize > 0 && t.fsize == FileUp(t.vsize) && IMAGE_BASE + SizeOfImage(t) < MOD32
  }

  function DirectoryWords(t: Text): (ws: seq<u32>)
    ensures |ws| == 32
  {
    [0, 0, t.importRva, t.importSize] + seq(28, _ => 0)
  }

  function OptionalHeader(t: Text): (s: seq<byte>)
    requires Fits(t)
    ensures |s| == 224
  {
    ([0x0B, 0x01, 1, 0] + Pack([t.fsize, 0, 0, t.entryRva, TEXT_RVA, 0, IMAGE_BASE, 0x1000, 0x200]))
    + ([0, 0, 0, 0, 0, 0, 0, 0, 4, 0, 0, 0] + Pack([0, SizeOfImage(t), HEADER_SIZE, 0]))
    + (Bytes16(t.subsystem) + Bytes16(0) + Pack([0x10_0000, 0x1000, 0x10_0000, 0x1000, 0, 16]))
    + Pack(DirectoryWords(t))
  }

  const TEXT_NAME: seq<byte> := [0x2E, 0x74, 0x65, 0x78, 0x74, 0, 0, 0]
  const TEXT_FLAGS: u32 := 0x6000_0020

  function SectionHeader(t: Text): (s: seq<byte>)
    ensures |s| == 40
  {
    TEXT_NAME + Pack([t.vsize, TEXT_RVA, t.fsize, HEADER_SIZE, 0, 0, 0, TEXT_FLAGS])
  }

  function PeHeader(t: Text): (s: seq<byte>)
    requires Fits(t)
    ensures |s| == HEADER_SIZE
  {
    DosHeader() + ([0x50, 0x45, 0, 0] + (CoffHeader() + (OptionalHeader(t) + (SectionHeader(t) + Zeros(160)))))
  }

  // ----- build -----

  const TEXT_LIMIT: nat := 0xFFBF_E000

  /** The largest section with which the image still ends within 32 bits. */
  lemma TextLimitExact(n: nat)
    ensures n <= TEXT_LIMIT <==> IMAGE_BASE + PageUp(TEXT_RVA + n) < MOD32
  {
  }

  function TextOf(n: nat, subsystem: u16, importRva: u32, importSize: u32): Text
    requires 0 < n <= TEXT_LIMIT
  {
    Text(n, FileUp(n), TEXT_RVA, subsystem, importRva, importSize)
  }

  lemma TextFits(n: nat, subsystem: u16, importRva: u32, importSize: u32)
    requires 0 < n <= TEXT_LIMIT
    ensures Fits(TextOf(n, subsystem, importRva, importSize))
  {
  }

  /** A file whose one section holds `body`. */
  function Assemble(body: seq<byte>, subsystem: u16, importRva: u32, importSize: u32): (f: seq<byte>)
    requires 0 < |body| <= TEXT_LIMIT
    ensures |f| == HEADER_SIZE + FileUp(|body|)
  {
    TextFits(|body|, subsystem, importRva, importSize);
    PeHeader(TextOf(|body|, subsystem, importRva, importSize)) + (body + Zeros(FileUp(|body|) - |body|))
  }

  /** `build`: no imports. */
  function Build(exitCode: u32, subsystem: u16): seq<byte> {
    Assemble(ExitCodeBytes(exitCode), subsystem, 0, 0)
  }

  // ----- build_with_imports -----

  /** One DLL to import from, by ordinals only. */
  datatype DllSpec = DllSpec(name: seq<byte>, ordinals: seq<u16>)

  /** Offset of name `i` behind the first name. */
  function NameStart(dlls: seq<DllSpec>, i: nat): nat
    requires i <= |dlls|
  {
    if i == 0 then 0 else NameStart(dlls, i - 1) + |dlls[i - 1].name| + 1
  }

  /** Offset of thunk table `i` behind the first table. */
  function ThunkStart(dlls: seq<DllSpec>, i: nat): nat
    requires i <= |dlls|
  {
    if i == 0 then 0 else ThunkStart(dlls, i - 1) + 4 * (|dlls[i - 1].ordinals| + 1)
  }

  function CodeLen(call: bool): nat {
    if call then 18 else 12
  }

  function DescSize(dlls: seq<DllSpec>): nat {
    20 * (|dlls| + 1)
  }

  function NameOffset(dlls: seq<DllSpec>, call: bool, i: nat): nat
    requires i <= |dlls|
  {
    CodeLen(call) + DescSize(dlls) + NameStart(dlls, i)
  }

  function ThunkOffset(dlls: seq<DllSpec>, call: bool, i: nat): nat
    requires i <= |dlls|
  {
    NameOffset(dlls, call, |dlls|) + ThunkStart(dlls, i)
  }

  function DataEnd(dlls: seq<DllSpec>, call: bool): nat {
    ThunkOffset(dlls, call, |dlls|)
  }

  /** Calling through a slot needs a first DLL, and all offsets fit in 32 bits. */
  predicate Buildable(dlls: seq<DllSpec>, call: bool) {
    (call ==> dlls != []) && DataEnd(dlls, call) <= TEXT_LIMIT
  }

  lemma {:induction false} OffsetsBounded(dlls: seq<DllSpec>, call: bool, i: nat)
    requires i <= |dlls|
    ensures NameStart(dlls, i) <= NameStart(dlls, |dlls|)
    ensures ThunkStart(dlls, i) <= ThunkStart(dlls, |dlls|)
    ensures NameOffset(dlls, call, i) <= ThunkOffset(dlls, call, i) <= DataEnd(dlls, call)
    ensures DataEnd(dlls, call) >= 32
    decreases |dlls| - i
  {
    if i < |dlls| {
      OffsetsBounded(dlls, call, i + 1);
    }
  }

  /** The entry code; `FF 15 abs32` calls through the first slot of the first DLL. */
  function Code(exitCode: u32, dlls: seq<DllSpec>, call: bool): (s: seq<byte>)
    requires Buildable(dlls, call)
    ensures |s| == CodeLen(call)
  {
    if call then
      OffsetsBounded(dlls, call, 0);
      [0xFF, 0x15] + Bytes32(IMAGE_BASE + TEXT_RVA + ThunkOffset(dlls, call, 0)) + ExitCodeBytes(exitCode)
    else ExitCodeBytes(exitCode)
  }

  /** The first `i` import descriptors. */
  function DescBytes(dlls: seq<DllSpec>, call: bool, i: nat): (s: seq<byte>)
    requires Buildable(dlls, call) && i <= |dlls|
    ensures |s| == 20 * i
  {
    if i == 0 then []
    else
      OffsetsBounded(dlls, call, i - 1);
      DescBytes(dlls, call, i - 1)
      + Pack([0, 0, 0, TEXT_RVA + NameOffset(dlls, call, i - 1), TEXT_RVA + ThunkOffset(dlls, call, i - 1)])
  }

  /** The first `i` NUL-terminated names. */
  function NameBytes(dlls: seq<DllSpec>, i: nat): (s: seq<byte>)
    requires i <= |dlls|
    ensures |s| == NameStart(dlls, i)
  {
    if i == 0 then [] else NameBytes(dlls, i - 1) + (dlls[i - 1].name + [0])
  }

  function OrdinalThunk(ordinal: u16): u32 {
    0x8000_0000 + (ordinal as int)
  }

  /** The words of one thunk table. */
  function ThunkWords(ordinals: seq<u16>): (ws: seq<u32>)
    ensures |ws| == |ordinals| + 1
    ensures forall k :: 0 <= k < |ordinals| ==> ws[k] == OrdinalThunk(ordinals[k])
    ensures ws[|ordinals|] == 0
  {
    seq(|ordinals|, k requires 0 <= k < |ordinals| => OrdinalThunk(ordinals[k])) + [0]
  }

  /** The first `i` thunk tables. */
  function ThunkBytes(dlls: seq<DllSpec>, i: nat): (s: seq<byte>)
    requires i <= |dlls|
    ensures |s| == ThunkStart(dlls, i)
  {
    if i == 0 then [] else ThunkBytes(dlls, i - 1) + Pack(ThunkWords(dlls[i - 1].ordinals))
  }

  function Body(exitCode: u32, dlls: seq<DllSpec>, call: bool): (s: seq<byte>)
    requires Buildable(dlls, call)
    ensures |s| == DataEnd(dlls, call)
  {
    Code(exitCode, dlls, call)
    + ((DescBytes(dlls, call, |dlls|) + Zeros(20)) + (NameBytes(dlls, |dlls|) + ThunkBytes(dlls, |dlls|)))
  }

  function BuildWithImports(exitCode: u32, dlls: seq<DllSpec>, call: bool, subsystem: u16): seq<byte>
    requires Buildable(dlls, call)
  {
    OffsetsBounded(dlls, call, 0);
    Assemble(Body(exitCode, dlls, call), subsystem, TEXT_RVA + CodeLen(call), DescSize(dlls))
  }

  /** `build_with_imports`, with its running position and growing lists. */
  method EmitWithImports(exitCode: u32, dlls: seq<DllSpec>, call: bool, subsystem: u16) returns (f: seq<byte>)
    requires Buildable(dlls, call)
    ensures f == BuildWithImports(exitCode, dlls, call, subsystem)
  {
    hide NameOffset, ThunkOffset, Code, DescBytes, NameBytes, ThunkBytes, Pack, Bytes32;
    OffsetsBounded(dlls, call, 0);
    var nameOffsets, thunkOffsets := PlaceTables(dlls, call);
    var tail := ExitCodeBytes(exitCode);
    var code := if call then [0xFF, 0x15] + Bytes32(IMAGE_BASE + TEXT_RVA + thunkOffsets[0]) + tail else tail;
    CodeIs(exitCode, dlls, call, code);
    var tables := EmitTables(dlls, call, nameOffsets, thunkOffsets);
    assert code + tables == Body(exitCode, dlls, call);
    DescriptorsFit(dlls, call);
    f := Assemble(code + tables, subsystem, TEXT_RVA + CodeLen(call), 20 * (|dlls| + 1));
  }

  lemma DescriptorsFit(dlls: seq<DllSpec>, call: bool)
    ensures DescSize(dlls) <= DataEnd(dlls, call)
  {
  }

  lemma CodeIs(exitCode: u32, dlls: seq<DllSpec>, call: bool, code: seq<byte>)
    requires Buildable(dlls, call)
    requires ThunkOffset(dlls, call, 0) <= TEXT_LIMIT
    requires code
          == (if call then [0xFF, 0x15] + Bytes32(IMAGE_BASE + TEXT_RVA + ThunkOffset(dlls, call, 0)) else [])
             + ExitCodeBytes(exitCode)
    ensures code == Code(exitCode, dlls, call)
  {
    hide ThunkOffset, Bytes32;
  }

  /** The offset loops: names behind the descriptors, thunk tables behind the names. */
  method PlaceTables(dlls: seq<DllSpec>, call: bool) returns (nameOffsets: seq<nat>, thunkOffsets: seq<nat>)
    ensures |nameOffsets| == |thunkOffsets| == |dlls|
    ensures forall k :: 0 <= k < |dlls| ==> nameOffsets[k] == NameOffset(dlls, call, k)
    ensures forall k :: 0 <= k < |dlls| ==> thunkOffsets[k] == ThunkOffset(dlls, call, k)
  {
    var pos := CodeLen(call) + 20 * (|dlls| + 1);
    nameOffsets, thunkOffsets := [], [];
    for i := 0 to |dlls|
      invariant pos == NameOffset(dlls, call, i)
      invariant |nameOffsets| == i && forall k :: 0 <= k < i ==> nameOffsets[k] == NameOffset(dlls, call, k)
    {
      nameOffsets := nameOffsets + [pos];
      pos := pos + |dlls[i].name| + 1;
    }
    for i := 0 to |dlls|
      invariant pos == ThunkOffset(dlls, call, i)
      invariant |thunkOffsets| == i && forall k :: 0 <= k < i ==> thunkOffsets[k] == ThunkOffset(dlls, call, k)
    {
      thunkOffsets := thunkOffsets + [pos];
      pos := pos + 4 * (|dlls[i].ordinals| + 1);
    }
  }

  /** The descriptor, name and thunk loops. */
  method EmitTables(dlls: seq<DllSpec>, call: bool, nameOffsets: seq<nat>, thunkOffsets: seq<nat>)
      returns (s: seq<byte>)
    requires Buildable(dlls, call) && |nameOffsets| == |thunkOffsets| == |dlls|
    requires forall k :: 0 <= k < |dlls| ==> nameOffsets[k] == NameOffset(dlls, call, k)
    requires forall k :: 0 <= k < |dlls| ==> thunkOffsets[k] == ThunkOffset(dlls, call, k)
    ensures s == (DescBytes(dlls, call, |dlls|) + Zeros(20)) + (NameBytes(dlls, |dlls|) + ThunkBytes(dlls, |dlls|))
  {
    hide Pack, Bytes32, NameOffset, ThunkOffset, Zeros, ThunkWords;
    var desc: seq<byte> := [];
    for i := 0 to |dlls|
      invariant desc == DescBytes(dlls, call, i)
    {
      OffsetsBounded(dlls, call, i);
      desc := desc + Pack([0, 0, 0, TEXT_RVA + nameOffsets[i], TEXT_RVA + thunkOffsets[i]]);
    }
    desc := desc + Zeros(20);
    var names: seq<byte> := [];
    for i := 0 to |dlls|
      invariant names == NameBytes(dlls, i)
    {
      names := names + (dlls[i].name + [0]);
    }
    var thunks: seq<byte> := [];
    for i := 0 to |dlls|
      invariant thunks == ThunkBytes(dlls, i)
    {
      var ws := EmitThunks(dlls[i].ordinals);
      thunks := thunks + Pack(ws);
    }
    s := desc + (names + thunks);
  }

  method EmitThunks(ordinals: seq<u16>) returns (ws: seq<u32>)
    ensures ws == ThunkWords(ordinals)
  {
    ws := [];
    for j := 0 to |ordinals|
      invariant |ws| == j && forall k :: 0 <= k < j ==> ws[k] == OrdinalThunk(ordinals[k])
    {
      ws := ws + [OrdinalThunk(ordinals[j])];
    }
    ws := ws + [0];
  }
}
