/** src/stub_patch.c: patches import slots in place, embeds the shim and hands over the entry point. */
module StubPatch {
  import opened Words
  import opened CStrings
  import opened Elf32
  import opened ElfWriter
  import opened PeImage
  import opened Layout
  import opened Shim

  datatype PatchError =
    | ReachesShim
    | UnsupportedImport(dll: seq<byte>, fn: seq<byte>)
    | MissingShimSymbol(symbol: seq<byte>)
    | SlotOutOfRange(rva: u32)
    | MissingRequiredSymbols
    | EntryTargetNotInShim
    | TooManySegments

  // ----- import slots -----

  datatype ImportRef = ImportRef(dll: seq<byte>, fn: seq<byte>, iatRva: u32)

  function DllRefs(d: ImportDll, j: nat): (refs: seq<ImportRef>)
    requires j <= |d.funcs|
    decreases |d.funcs| - j
  {
    if j == |d.funcs| then []
    else [ImportRef(CStrAt(d.dllName, 0), CStrAt(d.funcs[j].name, 0), d.funcs[j].iatRva)] + DllRefs(d, j + 1)
  }

  /** Every import from DLL `i` on, in the order of the two nested loops. */
  function Refs(imports: seq<ImportDll>, i: nat): seq<ImportRef>
    requires i <= |imports|
    decreases |imports| - i
  {
    if i == |imports| then [] else DllRefs(imports[i], 0) + Refs(imports, i + 1)
  }

  function RefError(shim: EmbeddedShim, g: Geometry, r: ImportRef): Option<PatchError>
  {
    var symbol := LookupFrom(shim.table, 0, r.dll, r.fn);
    if symbol.None? then Some(UnsupportedImport(r.dll, r.fn))
    else if Symbol(shim, symbol.value).None? then Some(MissingShimSymbol(symbol.value))
    else if Translate(g, r.iatRva, 4).None? then Some(SlotOutOfRange(r.iatRva))
    else None
  }

  function RefsError(shim: EmbeddedShim, g: Geometry, refs: seq<ImportRef>): Option<PatchError>
  {
    if refs == [] then None
    else if RefError(shim, g, refs[0]).Some? then RefError(shim, g, refs[0])
    else RefsError(shim, g, refs[1..])
  }

  /** The raw buffer after patching, up to the first import that fails. */
  function PatchedRaw(shim: EmbeddedShim, g: Geometry, refs: seq<ImportRef>, raw: seq<byte>): (p: seq<byte>)
    requires |raw| == g.rawSize
    ensures |p| == |raw|
    decreases |refs|
  {
    if refs == [] || RefError(shim, g, refs[0]).Some? then raw
    else
      var addr := Resolve(shim, refs[0].dll, refs[0].fn).value;
      var pos := Translate(g, refs[0].iatRva, 4).value;
      PatchedRaw(shim, g, refs[1..], Splice(raw, pos, Bytes32(addr)))
  }

  /** The body of the patching loops: resolve one import and store its address. */
  method PatchOne(img: Image, shim: EmbeddedShim, r: ImportRef) returns (err: Option<PatchError>)
    modifies img.raw
    ensures err == RefError(shim, img.Geo(), r)
    ensures img.raw[..] == PatchedRaw(shim, img.Geo(), [r], old(img.raw[..]))
  {
    var entry := LookupImport(shim.table, r.dll, r.fn);
    if entry.None? {
      return Some(UnsupportedImport(r.dll, r.fn));
    }
    var addr := FindSymbol(shim.blob, entry.value);
    if addr.None? {
      return Some(MissingShimSymbol(entry.value));
    }
    var slot := img.RvaToPtr(r.iatRva, 4);
    if slot.None? {
      return Some(SlotOutOfRange(r.iatRva));
    }
    Store32(img.raw, slot.value, addr.value);
    return None;
  }

  lemma PatchStep(shim: EmbeddedShim, g: Geometry, r: ImportRef, rest: seq<ImportRef>, raw: seq<byte>)
    requires |raw| == g.rawSize
    ensures RefError(shim, g, r).None? ==>
      && RefsError(shim, g, [r] + rest) == RefsError(shim, g, rest)
      && PatchedRaw(shim, g, [r] + rest, raw) == PatchedRaw(shim, g, rest, PatchedRaw(shim, g, [r], raw))
    ensures RefError(shim, g, r).Some? ==>
      && RefsError(shim, g, [r] + rest) == RefError(shim, g, r)
      && PatchedRaw(shim, g, [r] + rest, raw) == raw == PatchedRaw(shim, g, [r], raw)
  {
    assert ([r] + rest)[1..] == rest;
    assert [r][1..] == [];
  }

  method PatchImports(img: Image, shim: EmbeddedShim) returns (err: Option<PatchError>)
    modifies img.raw
    ensures err == RefsError(shim, img.Geo(), Refs(img.imports, 0))
    ensures img.raw[..] == PatchedRaw(shim, img.Geo(), Refs(img.imports, 0), old(img.raw[..]))
  {
    hide RefsError, PatchedRaw, RefError;
    ghost var g, imports := img.Geo(), img.imports;
    ghost var all, raw0 := Refs(imports, 0), img.raw[..];
    for i := 0 to |img.imports|
      invariant RefsError(shim, g, all) == RefsError(shim, g, Refs(imports, i))
      invariant PatchedRaw(shim, g, all, raw0) == PatchedRaw(shim, g, Refs(imports, i), img.raw[..])
    {
      var dll := img.imports[i];
      var dllName := CStrAt(dll.dllName, 0);
      ghost var rest := Refs(imports, i + 1);
      for j := 0 to |dll.funcs|
        invariant RefsError(shim, g, all) == RefsError(shim, g, DllRefs(dll, j) + rest)
        invariant PatchedRaw(shim, g, all, raw0) == PatchedRaw(shim, g, DllRefs(dll, j) + rest, img.raw[..])
      {
        var fn := dll.funcs[j];
        var ref := ImportRef(dllName, CStrAt(fn.name, 0), fn.iatRva);
        ghost var more := DllRefs(dll, j + 1) + rest;
        assert DllRefs(dll, j) + rest == [ref] + more;
        PatchStep(shim, g, ref, more, img.raw[..]);
        err := PatchOne(img, shim, ref);
        if err.Some? {
          return err;
        }
      }
      assert DllRefs(dll, |dll.funcs|) + rest == rest;
    }
    PatchNothing(shim, g, img.raw[..]);
    return None;
  }

  lemma PatchNothing(shim: EmbeddedShim, g: Geometry, raw: seq<byte>)
    requires |raw| == g.rawSize
    ensures RefsError(shim, g, []) == None && PatchedRaw(shim, g, [], raw) == raw
  {
  }

  // ----- embedding the shim -----

  function ShimSegments<B>(ps: seq<Phdr>, buf: B, off: u32): (segs: seq<Segment<B>>)
    ensures |segs| == |ps|
    ensures segs != [] ==> segs[0].fileOffset == off
    decreases |ps|
  {
    if ps == [] then []
    else
      var p := ps[0];
      [Segment(p.vaddr, p.flags, off, p.filesz, p.memsz, if p.filesz > 0 then Some(View(buf, p.offset)) else None)]
      + ShimSegments(ps[1..], buf, AlignUp32(Add32(off, p.filesz)))
  }

  /** File offset for whatever follows the segments so far. */
  function NextFree<B>(segs: seq<Segment<B>>): u32 {
    if segs == [] then PAGE_SIZE else NextOffset(segs[|segs| - 1])
  }

  method EmbedShim(spec: ElfSpec, b: seq<byte>, mutable: array<byte>) returns (err: Option<PatchError>)
    requires HasPhdrs(b) && |spec.segments| <= MAX_SEGMENTS
    modifies spec
    ensures spec.entry == old(spec.entry)
    ensures err == if old(|spec.segments|) + |Loads(b)| > MAX_SEGMENTS then Some(TooManySegments) else None
    ensures err.None? ==>
              spec.segments == old(spec.segments) + ShimSegments(Loads(b), mutable, NextFree(old(spec.segments)))
  {
    hide PhOff, PhNum, ReadPhdr, AlignUp32, ShimSegments;
    var next: u32 := if |spec.segments| > 0 then
                       AlignUp32(Add32(spec.segments[|spec.segments| - 1].fileOffset,
                                       spec.segments[|spec.segments| - 1].filesz))
                     else PAGE_SIZE;
    ghost var all := spec.segments + ShimSegments(Loads(b), mutable, next);
    for i := 0 to PhNum(b)
      invariant spec.entry == old(spec.entry) && |spec.segments| <= MAX_SEGMENTS
      invariant |spec.segments| + |LoadsFrom(b, i)| == old(|spec.segments|) + |Loads(b)|
      invariant spec.segments + ShimSegments(LoadsFrom(b, i), mutable, next) == all
    {
      var p := ReadPhdr(b, PhOff(b) + 32 * i);
      if p.ptype != PT_LOAD {
        continue;
      }
      if |spec.segments| >= MAX_SEGMENTS {
        return Some(TooManySegments);
      }
      var seg := Segment(p.vaddr, p.flags, next, p.filesz, p.memsz,
                         if p.filesz > 0 then Some(View(mutable, p.offset)) else None);
      ShimSegmentsStep(p, LoadsFrom(b, i + 1), mutable, next, spec.segments);
      next := AlignUp32(Add32(next, p.filesz));
      spec.segments := spec.segments + [seg];
    }
    ShimSegmentsNil(mutable, next, spec.segments);
    return None;
  }

  lemma ShimSegmentsStep<B>(p: Phdr, ps: seq<Phdr>, buf: B, off: u32, before: seq<Segment<B>>)
    ensures var seg := Segment(p.vaddr, p.flags, off, p.filesz, p.memsz,
                               if p.filesz > 0 then Some(View(buf, p.offset)) else None);
      before + ShimSegments([p] + ps, buf, off)
      == (before + [seg]) + ShimSegments(ps, buf, AlignUp32(Add32(off, p.filesz)))
  {
    assert ([p] + ps)[1..] == ps;
  }

  lemma ShimSegmentsNil<B>(buf: B, off: u32, before: seq<Segment<B>>)
    ensures before + ShimSegments([], buf, off) == before
  {
  }

  lemma {:induction false} DerefShimSegments(ps: seq<Phdr>, buf: array<byte>, off: u32)
    ensures DerefAll(ShimSegments(ps, buf, off)) == ShimSegments(ps, buf[..], off)
    decreases |ps|
  {
    if ps != [] {
      var next := AlignUp32(Add32(off, ps[0].filesz));
      DerefShimSegments(ps[1..], buf, next);
      assert ShimSegments(ps, buf, off)[1..] == ShimSegments(ps[1..], buf, next);
    }
  }

  // ----- stub_patch_apply -----

  /** File offset of the word that `_start` jumps through. */
  function TargetOffset(shim: EmbeddedShim): (o: Option<nat>)
    ensures o.Some? ==> o.value + 4 <= |shim.blob|
  {
    var target := Symbol(shim, ENTRY_TARGET);
    if target.None? then None
    else
      PokeInFile(shim.blob, target.value);
      PokeOffset(Loads(shim.blob), target.value)
  }

  /** The blob with the PE entry point stored at `shim_pe_entry_target`. */
  function PokedBlob(shim: EmbeddedShim, entryVa: u32): (p: seq<byte>)
    ensures |p| == |shim.blob|
  {
    var o := TargetOffset(shim);
    if o.None? then shim.blob else Splice(shim.blob, o.value, Bytes32(entryVa))
  }

  function PatchRejects(shim: EmbeddedShim, g: Geometry, imports: seq<ImportDll>, nSegments: nat): Option<PatchError>
  {
    if Add32(g.imageBase, g.sizeOfImage) > SHIM_MIN_BASE then Some(ReachesShim)
    else if RefsError(shim, g, Refs(imports, 0)).Some? then RefsError(shim, g, Refs(imports, 0))
    else if Symbol(shim, ENTRY_TARGET).None? || Symbol(shim, START).None? then Some(MissingRequiredSymbols)
    else if TargetOffset(shim).None? then Some(EntryTargetNotInShim)
    else if nSegments + |Loads(shim.blob)| > MAX_SEGMENTS then Some(TooManySegments)
    else None
  }

  /** A private, mutable copy of `s`. */
  method CopyOf(s: seq<byte>) returns (a: array<byte>)
    ensures fresh(a) && a.Length == |s| && a[..] == s
  {
    a := new byte[|s|](i requires 0 <= i < |s| => s[i]);
  }

  /** The segments present before the call are read through their pointers after
      it, so those that point into `img.raw` show the patched bytes. */
  method StubPatchApply(img: Image, spec: ElfSpec, shim: EmbeddedShim) returns (err: Option<PatchError>)
    requires |spec.segments| <= MAX_SEGMENTS
    modifies img.raw, spec
    ensures err == PatchRejects(shim, img.Geo(), img.imports, old(|spec.segments|))
    ensures err.None? ==> img.raw[..] == PatchedRaw(shim, img.Geo(), Refs(img.imports, 0), old(img.raw[..]))
    ensures err.None? ==> spec.entry == Symbol(shim, START).value
    ensures err.None? ==>
              DerefAll(spec.segments) == DerefAll(old(spec.segments))
                + ShimSegments(Loads(shim.blob), PokedBlob(shim, Add32(img.imageBase, img.entryRva)),
                               NextFree(old(spec.segments)))
  {
    hide RefsError, PatchedRaw, SymbolFrom, LoadsFrom, PokeOffset, DerefAll, ShimSegments, Refs, ValidLoads,
         ValidSymtabs;
    if Add32(img.imageBase, img.sizeOfImage) > SHIM_MIN_BASE {
      return Some(ReachesShim);
    }
    err := PatchImports(img, shim);
    if err.Some? {
      return err;
    }
    var mutable := CopyOf(shim.blob);
    var target := FindSymbol(shim.blob, ENTRY_TARGET);
    if target.None? {
      return Some(MissingRequiredSymbols);
    }
    var start := FindSymbol(shim.blob, START);
    if start.None? {
      return Some(MissingRequiredSymbols);
    }
    var entryVa := Add32(img.imageBase, img.entryRva);
    var poked := Poke32(shim.blob, mutable, target.value, entryVa);
    if !poked {
      return Some(EntryTargetNotInShim);
    }
    err := EmbedShim(spec, shim.blob, mutable);
    if err.Some? {
      return err;
    }
    spec.entry := start.value;
    DerefShimSegments(Loads(shim.blob), mutable, NextFree(old(spec.segments)));
    DerefConcat(old(spec.segments), ShimSegments(Loads(shim.blob), mutable, NextFree(old(spec.segments))));
  }

  // ----- what patching means -----

  /** An import slot at RVA `rva` that receives `addr`. */
  datatype Slot = Slot(rva: u32, addr: u32)

  /** The slots of the imports that the shim resolves, in patching order. */
  function Slots(shim: EmbeddedShim, refs: seq<ImportRef>): seq<Slot>
  {
    if refs == [] then []
    else
      var addr := Resolve(shim, refs[0].dll, refs[0].fn);
      (if addr.Some? then [Slot(refs[0].iatRva, addr.value)] else []) + Slots(shim, refs[1..])
  }

  /** The byte that the slots leave at RVA `r`; among overlapping slots the last one decides. */
  function SlotByte(slots: seq<Slot>, r: nat): Option<byte> {
    if slots == [] then None
    else
      var later := SlotByte(slots[1..], r);
      if later.Some? then later
      else if slots[0].rva <= r < slots[0].rva + 4 then Some(Bytes32(slots[0].addr)[r - slots[0].rva])
      else None
  }

  /** Success means every import was resolved and has a readable slot. */
  lemma {:induction false} AllResolved(shim: EmbeddedShim, g: Geometry, refs: seq<ImportRef>)
    requires RefsError(shim, g, refs).None?
    ensures forall k :: 0 <= k < |refs| ==>
              Resolve(shim, refs[k].dll, refs[k].fn).Some? && Translate(g, refs[k].iatRva, 4).Some?
    ensures |Slots(shim, refs)| == |refs|
    ensures forall k :: 0 <= k < |refs| ==>
              Slots(shim, refs)[k] == Slot(refs[k].iatRva, Resolve(shim, refs[k].dll, refs[k].fn).value)
    decreases |refs|
  {
    if refs != [] {
      AllResolved(shim, g, refs[1..]);
    }
  }

  /** A stored word changes the image at exactly the four RVAs of its slot. */
  lemma StoreAtSlot(g: Geometry, raw: seq<byte>, rva: u32, addr: u32, r: nat)
    requires WellFormed(g) && RawInFile(g) && |raw| == g.rawSize
    requires Translate(g, rva, 4).Some?
    requires FilePos(g, r).Some? && FilePos(g, r).value < |raw|
    ensures Splice(raw, Translate(g, rva, 4).value, Bytes32(addr))[FilePos(g, r).value]
         == if rva <= r < rva + 4 then Bytes32(addr)[r - rva] else raw[FilePos(g, r).value]
  {
    var p, q := Translate(g, rva, 4).value, FilePos(g, r).value;
    hide FilePos, Translate;
    if rva <= r < rva + 4 {
      TranslateAgrees(g, rva, 4, r - rva, 1);
    } else if p <= q < p + 4 {
      TranslateAgrees(g, rva, 4, q - p, 1);
      FilePosInjective(g, r, rva + (q - p));
    }
  }

  /** In-place patching, seen at the RVA level: slot bytes where a slot lies,
      and every other raw byte unchanged. */
  lemma {:induction false} PatchedAt(shim: EmbeddedShim, g: Geometry, refs: seq<ImportRef>, raw: seq<byte>, r: nat)
    requires WellFormed(g) && RawInFile(g) && |raw| == g.rawSize
    requires RefsError(shim, g, refs).None?
    requires FilePos(g, r).Some? && FilePos(g, r).value < |raw|
    ensures PatchedRaw(shim, g, refs, raw)[FilePos(g, r).value]
         == var b := SlotByte(Slots(shim, refs), r); if b.Some? then b.value else raw[FilePos(g, r).value]
    decreases |refs|
  {
    if refs != [] {
      var addr := Resolve(shim, refs[0].dll, refs[0].fn).value;
      assert Slots(shim, refs)[1..] == Slots(shim, refs[1..]);
      StoreAtSlot(g, raw, refs[0].iatRva, addr, r);
      hide FilePos, WellFormed, RawInFile;
      PatchedAt(shim, g, refs[1..], Splice(raw, Translate(g, refs[0].iatRva, 4).value, Bytes32(addr)), r);
    }
  }

  /** A slot that no later slot overlaps holds its shim address, byte for byte. */
  lemma {:induction false} SlotHolds(slots: seq<Slot>, k: nat, j: nat)
    requires k < |slots| && j < 4
    requires forall m :: k < m < |slots| ==> slots[m].rva + 4 <= slots[k].rva || slots[k].rva + 4 <= slots[m].rva
    ensures SlotByte(slots, slots[k].rva + j) == Some(Bytes32(slots[k].addr)[j])
    decreases k
  {
    if k == 0 {
      SlotByteNone(slots[1..], slots[0].rva + j);
    } else {
      SlotHolds(slots[1..], k - 1, j);
    }
  }

  lemma {:induction false} SlotByteNone(slots: seq<Slot>, r: nat)
    requires forall k :: 0 <= k < |slots| ==> !(slots[k].rva <= r < slots[k].rva + 4)
    ensures SlotByte(slots, r) == None
  {
    if slots != [] {
      SlotByteNone(slots[1..], r);
    }
  }
}
