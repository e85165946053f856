/** src/layout.c: PE headers and sections become page-aligned segments at ImageBase. */
module Layout {
  import opened Words
  import opened Elf32
  import opened ElfWriter
  import opened PeImage

  datatype LayoutError = BadSectionCount | ImageBaseUnaligned | SectionUnaligned(index: nat)

  predicate HasBit(c: u32, bit: u32)
    requires bit > 0
  {
    c / bit % 2 == 1
  }

  /** `pe_section_flags_to_elf`. */
  function SectionFlags(c: u32): u32 {
    var flags := (if HasBit(c, 0x4000_0000) then PF_R else 0)
               + (if HasBit(c, 0x8000_0000) then PF_W else 0)
               + (if HasBit(c, 0x2000_0000) then PF_X else 0);
    if flags == 0 then PF_R else flags
  }

  /** Writable and executable exactly as the section says; readable when it says so or asks for nothing. */
  lemma PermissionsKept(c: u32)
    ensures HasBit(SectionFlags(c), PF_W) <==> HasBit(c, 0x8000_0000)
    ensures HasBit(SectionFlags(c), PF_X) <==> HasBit(c, 0x2000_0000)
    ensures HasBit(SectionFlags(c), PF_R) <==>
              HasBit(c, 0x4000_0000) || !(HasBit(c, 0x8000_0000) || HasBit(c, 0x2000_0000))
  {
  }

  // ----- the segment list -----

  /** Where the file data of the next segment starts. */
  function NextOffset<B>(s: Segment<B>): u32 {
    AlignUp32(Add32(s.fileOffset, s.filesz))
  }

  function HeaderSegment<B>(g: Geometry, buf: B): Segment<B> {
    Segment(g.imageBase, PF_R, PAGE_SIZE, g.sizeOfHeaders, g.sizeOfHeaders,
            if g.sizeOfHeaders > 0 then Some(View(buf, 0)) else None)
  }

  function SectionSegment<B>(g: Geometry, s: Section, buf: B, off: u32): Segment<B> {
    Segment(Add32(g.imageBase, s.rva), SectionFlags(s.characteristics), off, s.fsize, s.Extent(),
            if s.fsize > 0 then Some(View(buf, s.fileOff)) else None)
  }

  /** The header segment and the first `n` section segments, all pointing into `buf`. */
  function PeSegments<B>(g: Geometry, buf: B, n: nat): (segs: seq<Segment<B>>)
    requires n <= |g.sections|
    ensures |segs| == n + 1
  {
    if n == 0 then [HeaderSegment(g, buf)]
    else
      var before := PeSegments(g, buf, n - 1);
      before + [SectionSegment(g, g.sections[n - 1], buf, NextOffset(before[n - 1]))]
  }

  // ----- pe_layout_to_elf_spec -----

  function FirstUnaligned(g: Geometry, i: nat): (e: Option<LayoutError>)
    requires i <= |g.sections|
    ensures e.Some? ==>
              && e.value.SectionUnaligned? && i <= e.value.index < |g.sections|
              && g.sections[e.value.index].rva % 0x1000 != 0
              && forall k :: i <= k < e.value.index ==> g.sections[k].rva % 0x1000 == 0
    ensures e.None? <==> forall k :: i <= k < |g.sections| ==> g.sections[k].rva % 0x1000 == 0
    decreases |g.sections| - i
  {
    if i == |g.sections| then None
    else if g.sections[i].rva % 0x1000 != 0 then Some(SectionUnaligned(i))
    else FirstUnaligned(g, i + 1)
  }

  function LayoutRejects(g: Geometry): Option<LayoutError> {
    if |g.sections| == 0 || |g.sections| + 1 > MAX_SEGMENTS then Some(BadSectionCount)
    else if g.imageBase % 0x1000 != 0 then Some(ImageBaseUnaligned)
    else FirstUnaligned(g, 0)
  }

  /** Section `i` is the first at an address that is no multiple of the page size. */
  predicate FirstBad(g: Geometry, i: nat) {
    && i < |g.sections| && g.sections[i].rva % 4096 != 0
    && forall k :: 0 <= k < i ==> g.sections[k].rva % 4096 == 0
  }

  /** The layout accepts 1 to 63 sections at page-aligned addresses; the number comes first, then the base,
      then the first section that is not aligned. */
  lemma LayoutExact(g: Geometry)
    ensures LayoutRejects(g).None? <==>
              && 1 <= |g.sections| <= 63 && g.imageBase % 4096 == 0
              && forall k :: 0 <= k < |g.sections| ==> g.sections[k].rva % 4096 == 0
    ensures LayoutRejects(g) == Some(BadSectionCount) <==> !(1 <= |g.sections| <= 63)
    ensures LayoutRejects(g) == Some(ImageBaseUnaligned) <==> 1 <= |g.sections| <= 63 && g.imageBase % 4096 != 0
    ensures forall i: nat :: LayoutRejects(g) == Some(SectionUnaligned(i)) ==> FirstBad(g, i)
  {
  }

  method LayoutImage(img: Image, spec: ElfSpec) returns (err: Option<LayoutError>)
    modifies spec
    ensures err == LayoutRejects(img.Geo())
    ensures err.None? ==> spec.segments == PeSegments(img.Geo(), img.raw, |img.sections|)
    ensures err.None? ==> spec.entry == Add32(img.imageBase, img.entryRva)
    ensures err.Some? && err.value.SectionUnaligned? ==>
              err.value.index < |img.sections| && spec.segments == PeSegments(img.Geo(), img.raw, err.value.index)
  {
    if |img.sections| == 0 || |img.sections| + 1 > MAX_SEGMENTS {
      return Some(BadSectionCount);
    }
    if img.imageBase % 0x1000 != 0 {
      return Some(ImageBaseUnaligned);
    }
    ghost var g := img.Geo();
    spec.entry := Add32(img.imageBase, img.entryRva);
    var cur: u32 := PAGE_SIZE;
    var seg := Segment(img.imageBase, PF_R, cur, img.sizeOfHeaders, img.sizeOfHeaders,
                       if img.sizeOfHeaders > 0 then Some(View(img.raw, 0)) else None);
    spec.segments := [seg];
    cur := AlignUp32(Add32(cur, seg.filesz));
    for i := 0 to |img.sections|
      invariant spec.segments == PeSegments(g, img.raw, i)
      invariant cur == NextOffset(spec.segments[i])
      invariant spec.entry == Add32(img.imageBase, img.entryRva)
      invariant FirstUnaligned(g, 0) == FirstUnaligned(g, i)
    {
      var s := img.sections[i];
      if s.rva % 0x1000 != 0 {
        return Some(SectionUnaligned(i));
      }
      seg := Segment(Add32(img.imageBase, s.rva), SectionFlags(s.characteristics), cur, s.fsize,
                     if s.vsize > s.fsize then s.vsize else s.fsize,
                     if s.fsize > 0 then Some(View(img.raw, s.fileOff)) else None);
      spec.segments := spec.segments + [seg];
      cur := AlignUp32(Add32(cur, seg.filesz));
    }
    return None;
  }

  lemma {:induction false} PeSegmentAt<B>(g: Geometry, buf: B, n: nat, k: nat)
    requires k < n <= |g.sections|
    ensures PeSegments(g, buf, n)[0] == HeaderSegment(g, buf)
    ensures PeSegments(g, buf, n)[k + 1]
         == SectionSegment(g, g.sections[k], buf, NextOffset(PeSegments(g, buf, n)[k]))
  {
    if k + 1 < n {
      PeSegmentAt(g, buf, n - 1, k);
    } else if n > 1 {
      PeSegmentAt(g, buf, n - 1, 0);
    }
  }

  /** A buffer and its snapshot are laid out alike: reading every segment through
      its pointer gives the layout of the buffer's present contents. */
  lemma {:induction false} DerefPeSegments(g: Geometry, buf: array<byte>, n: nat)
    requires n <= |g.sections|
    ensures DerefAll(PeSegments(g, buf, n)) == PeSegments(g, buf[..], n)
  {
    var live := PeSegments(g, buf, n);
    var snap := PeSegments(g, buf[..], n);
    if n > 0 {
      DerefPeSegments(g, buf, n - 1);
      assert live[..n] == PeSegments(g, buf, n - 1);
      forall k | 0 <= k <= n
        ensures Deref(live[k]) == snap[k]
      {
        if k < n {
          assert Deref(live[k]) == DerefAll(PeSegments(g, buf, n - 1))[k];
        }
      }
    }
  }

  // ----- the file layout shared with stub_patch.c -----

  /** Every segment's data starts at the first page boundary after its predecessor's. */
  predicate Chained<B>(segs: seq<Segment<B>>) {
    && (segs != [] ==> segs[0].fileOffset == PAGE_SIZE)
    && (forall k :: 0 <= k < |segs| - 1 ==> segs[k + 1].fileOffset == NextOffset(segs[k]))
  }

  lemma {:induction false} PeSegmentsChained<B>(g: Geometry, buf: B, n: nat)
    requires n <= |g.sections|
    ensures Chained(PeSegments(g, buf, n))
  {
    if n > 0 {
      PeSegmentsChained(g, buf, n - 1);
      var before := PeSegments(g, buf, n - 1);
      assert forall k :: 0 <= k < n ==> PeSegments(g, buf, n)[k] == before[k];
    }
  }

  /** Pages of file data, without a width limit. */
  function Span<B>(segs: seq<Segment<B>>): nat {
    if segs == [] then 0 else Span(segs[..|segs| - 1]) + PageUp(segs[|segs| - 1].filesz)
  }

  /** The accumulated file offsets stay within 32 bits. */
  predicate FitsFile<B>(segs: seq<Segment<B>>) {
    PAGE_SIZE + Span(segs) < MOD32
  }

  lemma {:induction false} SpanMonotone<B>(segs: seq<Segment<B>>, k: nat)
    requires k <= |segs|
    ensures Span(segs[..k]) <= Span(segs)
  {
    var n := |segs| - 1;
    if k <= n {
      SpanMonotone(segs[..n], k);
      assert segs[..n][..k] == segs[..k];
    } else {
      assert segs[..k] == segs;
    }
  }

  /** The chained offsets are the exact sums when those fit in 32 bits. */
  lemma {:induction false} ChainedOffset<B>(segs: seq<Segment<B>>, k: nat)
    requires Chained(segs) && FitsFile(segs) && k < |segs|
    ensures segs[k].fileOffset == PAGE_SIZE + Span(segs[..k])
    ensures segs[k].fileOffset % 0x1000 == 0
    ensures segs[k].fileOffset + segs[k].filesz <= PAGE_SIZE + Span(segs[..k + 1]) < MOD32
  {
    hide PageUp, AlignUp32;
    SpanMonotone(segs, k + 1);
    assert segs[..k + 1][..k] == segs[..k];
    assert Span(segs[..k + 1]) == Span(segs[..k]) + PageUp(segs[k].filesz);
    AlignUpIsPageUp(segs[k].filesz);
    if k > 0 {
      ChainedOffset(segs, k - 1);
      assert segs[..k][..k - 1] == segs[..k - 1];
      NextOffsetExact(segs[k - 1]);
    } else {
      assert segs[..0] == [];
    }
  }

  lemma NextOffsetExact<B>(s: Segment<B>)
    requires s.fileOffset % 0x1000 == 0 && s.fileOffset + PageUp(s.filesz) < MOD32
    ensures NextOffset(s) == s.fileOffset + PageUp(s.filesz) && NextOffset(s) % 0x1000 == 0
  {
    PageUpShift(s.fileOffset, s.filesz);
    AlignUpIsPageUp(s.filesz);
    AlignUpIsPageUp(s.fileOffset + s.filesz);
  }

  lemma PageUpShift(a: nat, n: nat)
    requires a % 0x1000 == 0
    ensures PageUp(a + n) == a + PageUp(n)
  {
  }

  /** The writer's own promises, derived from the layout: page-aligned offsets,
      congruent to the page-aligned addresses, ascending and disjoint in the
      file, behind the headers. */
  lemma ChainedIsOrdered<B>(segs: seq<Segment<B>>)
    requires Chained(segs) && FitsFile(segs)
    ensures forall k :: 0 <= k < |segs| ==> segs[k].fileOffset % 0x1000 == 0 && segs[k].fileOffset >= PAGE_SIZE
    ensures forall i, j :: 0 <= i < j < |segs| ==> segs[i].fileOffset + segs[i].filesz <= segs[j].fileOffset
    ensures forall k :: 0 <= k < |segs| ==> segs[k].fileOffset + segs[k].filesz < MOD32
  {
    forall k | 0 <= k < |segs|
      ensures segs[k].fileOffset % 0x1000 == 0 && segs[k].fileOffset >= PAGE_SIZE
      ensures segs[k].fileOffset + segs[k].filesz < MOD32
    {
      ChainedOffset(segs, k);
    }
    forall i, j | 0 <= i < j < |segs|
      ensures segs[i].fileOffset + segs[i].filesz <= segs[j].fileOffset
    {
      ChainedOffset(segs, i);
      ChainedOffset(segs, j);
      SpanMonotone(segs[..j], i + 1);
      assert segs[..j][..i + 1] == segs[..i + 1];
    }
  }

  lemma {:induction false} EmitSucceeds(segs: seq<Seg>, i: nat, cur: u32, out: seq<byte>)
    requires AllInBuffer(segs) && i <= |segs|
    requires forall k :: i <= k < |segs| && segs[k].filesz > 0 ==> segs[k].data.Some? && segs[k].fileOffset >= cur
    requires forall j, k :: 0 <= j < k < |segs| ==> segs[j].fileOffset + segs[j].filesz <= segs[k].fileOffset
    ensures EmitFrom(segs, i, cur, out).Ok?
    decreases |segs| - i
  {
    if i < |segs| {
      var s := segs[i];
      if s.filesz == 0 {
        EmitSucceeds(segs, i + 1, cur, out);
      } else {
        EmitSucceeds(segs, i + 1, Add32(s.fileOffset, s.filesz), out + Zeros(s.fileOffset - cur) + Data(s));
      }
    }
  }

  /** None of `elf_write`'s internal-error branches can be reached on a laid-out list. */
  lemma ChainedWrites(entry: u32, segs: seq<Seg>)
    requires Chained(segs) && FitsFile(segs) && AllInBuffer(segs)
    requires 0 < |segs| <= MAX_SEGMENTS
    requires forall k :: 0 <= k < |segs| && segs[k].filesz > 0 ==> segs[k].data.Some?
    ensures NoOffsetWrap(segs)
    ensures WriteElf(entry, segs).Ok?
  {
    ChainedIsOrdered(segs);
    EmitSucceeds(segs, 0, PhdrsEnd(|segs|), EhdrBytes(entry, |segs|) + PhdrTable(segs));
  }
}
