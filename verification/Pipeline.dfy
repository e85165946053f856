/** src/main.c: layout, patching and writing in sequence. */
module Pipeline {
  import opened Words
  import opened Elf32
  import opened ElfWriter
  import opened PeImage
  import opened Layout
  import opened Shim
  import opened StubPatch

  datatype ConvertError = LayoutFailed(l: LayoutError) | PatchFailed(p: PatchError) | WriteFailed(w: WriteError)

  /** A parsed file: its geometry, its imports and its bytes. */
  datatype PeFile = PeFile(g: Geometry, imports: seq<ImportDll>, raw: seq<byte>)
  {
    function Refs(): seq<ImportRef> {
      StubPatch.Refs(imports, 0)
    }

    function EntryVa(): u32 {
      Add32(g.imageBase, g.entryRva)
    }
  }

  /** The bytes that layout hands on exist: sections (checked by the parser)
      and headers (not checked anywhere). */
  predicate RawBacked(g: Geometry) {
    g.sizeOfHeaders <= g.rawSize && RawInFile(g)
  }

  type LoadedPe = p: PeFile | |p.raw| == p.g.rawSize && RawBacked(p.g)
    witness PeFile(Geometry(0, 0, 0, 0, [], 0), [], [])

  // ----- the final segment list -----

  /** The raw bytes after every import slot has been patched. */
  function Patched(p: LoadedPe, shim: EmbeddedShim): (b: seq<byte>)
    ensures |b| == |p.raw|
  {
    PatchedRaw(shim, p.g, p.Refs(), p.raw)
  }

  function PePart(p: LoadedPe, shim: EmbeddedShim): (segs: seq<Seg>)
    ensures segs != []
  {
    PeSegments(p.g, Patched(p, shim), |p.g.sections|)
  }

  function ShimPart(p: LoadedPe, shim: EmbeddedShim): seq<Seg> {
    ShimSegments(Loads(shim.blob), PokedBlob(shim, p.EntryVa()), NextFree(PePart(p, shim)))
  }

  function FinalSegments(p: LoadedPe, shim: EmbeddedShim): (segs: seq<Seg>)
    ensures AllInBuffer(segs) && AllHaveData(segs)
  {
    PePartInBuffer(p, shim);
    ShimPartInBuffer(p, shim);
    PePart(p, shim) + ShimPart(p, shim)
  }

  predicate AllHaveData(segs: seq<Seg>) {
    forall k :: 0 <= k < |segs| && segs[k].filesz > 0 ==> segs[k].data.Some?
  }

  lemma {:induction false} PeSegmentsInBuffer(g: Geometry, raw: seq<byte>, n: nat)
    requires RawBacked(g) && |raw| == g.rawSize && n <= |g.sections|
    ensures AllInBuffer(PeSegments(g, raw, n)) && AllHaveData(PeSegments(g, raw, n))
  {
    if n > 0 {
      PeSegmentsInBuffer(g, raw, n - 1);
    }
  }

  lemma PePartInBuffer(p: LoadedPe, shim: EmbeddedShim)
    ensures AllInBuffer(PePart(p, shim)) && AllHaveData(PePart(p, shim))
  {
    PeSegmentsInBuffer(p.g, Patched(p, shim), |p.g.sections|);
  }

  lemma {:induction false} ShimSegmentsCarried(ps: seq<Phdr>, buf: seq<byte>, off: u32)
    requires forall k :: 0 <= k < |ps| ==> ps[k].offset + ps[k].filesz <= |buf|
    ensures AllInBuffer(ShimSegments(ps, buf, off)) && AllHaveData(ShimSegments(ps, buf, off))
    ensures forall k :: 0 <= k < |ps| ==> Carries(buf, ps[k], ShimSegments(ps, buf, off)[k])
    decreases |ps|
  {
    if ps != [] {
      ShimSegmentsCarried(ps[1..], buf, AlignUp32(Add32(off, ps[0].filesz)));
    }
  }

  lemma ShimPartInBuffer(p: LoadedPe, shim: EmbeddedShim)
    ensures AllInBuffer(ShimPart(p, shim)) && AllHaveData(ShimPart(p, shim))
  {
    ShimSegmentsCarried(Loads(shim.blob), PokedBlob(shim, p.EntryVa()), NextFree(PePart(p, shim)));
  }

  // ----- the conversion -----

  function Rejects(p: LoadedPe, shim: EmbeddedShim): Option<ConvertError> {
    var l := LayoutRejects(p.g);
    if l.Some? then Some(LayoutFailed(l.value))
    else
      var e := PatchRejects(shim, p.g, p.imports, |p.g.sections| + 1);
      if e.Some? then Some(PatchFailed(e.value)) else None
  }

  function Convert(p: LoadedPe, shim: EmbeddedShim): Result<seq<byte>, ConvertError> {
    var e := Rejects(p, shim);
    if e.Some? then Err(e.value)
    else
      var w := WriteElf(Symbol(shim, START).value, FinalSegments(p, shim));
      if w.Err? then Err(WriteFailed(w.error)) else Ok(w.value)
  }

  ghost function AsFile(img: Image): PeFile
    reads img, img.raw
  {
    PeFile(img.Geo(), img.imports, img.raw[..])
  }

  /** The conversion part of `main`, on a private copy of the file bytes. */
  method ConvertImage(img: Image, shim: EmbeddedShim) returns (r: Result<seq<byte>, ConvertError>)
    requires RawBacked(img.Geo())
    modifies img
    ensures r == Convert(old(AsFile(img)), shim)
    ensures old(img.raw)[..] == old(img.raw[..])
  {
    var copy := CopyOf(img.raw[..]);
    img.raw := copy;
    assert AsFile(img) == old(AsFile(img));
    hide RawBacked, Rejects, FinalSegments, WriteElf, Symbol;
    var spec, e := BuildSpec(img, shim);
    if e.Some? {
      return Err(e.value);
    }
    ghost var segs := DerefAll(spec.segments);
    hide AllInBuffer, DerefAll;
    var w := Write(spec);
    assert DerefAll(spec.segments) == segs;
    return if w.Err? then Err(WriteFailed(w.error)) else Ok(w.value);
  }

  /** Layout, then patching: afterwards the segments laid out first show the
      patched bytes, because they point into the buffer that was patched. */
  method BuildSpec(img: Image, shim: EmbeddedShim) returns (spec: ElfSpec, err: Option<ConvertError>)
    requires RawBacked(img.Geo())
    modifies img.raw
    ensures fresh(spec)
    ensures err == Rejects(old(AsFile(img)), shim)
    ensures err.None? ==> Some(spec.entry) == Symbol(shim, START)
    ensures err.None? ==> DerefAll(spec.segments) == FinalSegments(old(AsFile(img)), shim)
  {
    hide FirstUnaligned, RefsError, PatchedRaw, Symbol, PeSegments, ShimSegments, DerefAll, RawBacked;
    ghost var p: LoadedPe := AsFile(img);
    spec := new ElfSpec();
    var l := LayoutImage(img, spec);
    if l.Some? {
      return spec, Some(LayoutFailed(l.value));
    }
    ghost var views := spec.segments;
    var e := StubPatchApply(img, spec, shim);
    if e.Some? {
      return spec, Some(PatchFailed(e.value));
    }
    assert DerefAll(spec.segments) == FinalSegments(p, shim) by {
      DerefPeSegments(p.g, img.raw, |p.g.sections|);
      NextFreeDeref(views);
    }
    return spec, None;
  }

  lemma NextFreeDeref(segs: seq<Segment<array<byte>>>)
    ensures NextFree(DerefAll(segs)) == NextFree(segs)
  {
    if segs != [] {
      var n := |segs| - 1;
      assert DerefAll(segs)[n] == Deref(segs[n]);
    }
  }

  // ----- no internal error -----

  /** Shim segments continue the chain, also behind no segment at all. */
  lemma {:induction false} ShimSegmentsChained<B>(before: seq<Segment<B>>, ps: seq<Phdr>, buf: B)
    requires Chained(before)
    ensures Chained(before + ShimSegments(ps, buf, NextFree(before)))
    decreases |ps|
  {
    if ps == [] {
      assert before + ShimSegments(ps, buf, NextFree(before)) == before;
    } else {
      var seg := ShimSegments(ps, buf, NextFree(before))[0];
      ShimSegmentsChained(before + [seg], ps[1..], buf);
      assert before + ShimSegments(ps, buf, NextFree(before))
          == (before + [seg]) + ShimSegments(ps[1..], buf, NextFree(before + [seg]));
    }
  }

  lemma FinalChained(p: LoadedPe, shim: EmbeddedShim)
    ensures Chained(FinalSegments(p, shim))
  {
    PeSegmentsChained(p.g, Patched(p, shim), |p.g.sections|);
    hide PeSegments, Patched;
    ShimSegmentsChained(PePart(p, shim), Loads(shim.blob), PokedBlob(shim, p.EntryVa()));
  }

  /** An accepted image whose file offsets fit in 32 bits is written without any internal error. */
  lemma ConversionSucceeds(p: LoadedPe, shim: EmbeddedShim)
    requires Rejects(p, shim).None? && FitsFile(FinalSegments(p, shim))
    ensures NoOffsetWrap(FinalSegments(p, shim))
    ensures WriteElf(Symbol(shim, START).value, FinalSegments(p, shim)).Ok?
    ensures Convert(p, shim) == Ok(WriteElf(Symbol(shim, START).value, FinalSegments(p, shim)).value)
  {
    FinalChained(p, shim);
    ChainedWrites(Symbol(shim, START).value, FinalSegments(p, shim));
  }

  /** The written file reads back as the final segments, entered at the shim's start. */
  lemma ConvertedReadsBack(p: LoadedPe, shim: EmbeddedShim)
    requires Rejects(p, shim).None? && FitsFile(FinalSegments(p, shim))
    ensures Convert(p, shim).Ok?
    ensures HasPhdrs(Convert(p, shim).value)
    ensures Some(EntryOf(Convert(p, shim).value)) == Symbol(shim, START)
    ensures Loads(Convert(p, shim).value) == PhdrsOf(FinalSegments(p, shim))
  {
    ConversionSucceeds(p, shim);
    WriteReadsBack(Symbol(shim, START).value, FinalSegments(p, shim));
  }
}
