/** src/elf_writer.c: emits a segment list as an ELF32 executable. */
module ElfWriter {
  import opened Words
  import opened Elf32

  datatype WriteError = BadSegmentCount | OverlapsHeaders | OverlappingRanges | NoData

  /** `elf_image_spec_t`: segments whose data pointers reach into live buffers. */
  class ElfSpec {
    var entry: u32
    var segments: seq<Segment<array<byte>>>

    constructor ()
      ensures entry == 0 && segments == []
    {
      entry, segments := 0, [];
    }
  }

  // ----- reading segments through their pointers -----

  ghost function Buffers(segs: seq<Segment<array<byte>>>): set<array<byte>> {
    set k | 0 <= k < |segs| && segs[k].data.Some? :: segs[k].data.value.buf
  }

  /** What a segment holds at this moment. */
  ghost function Deref(s: Segment<array<byte>>): Seg
    reads if s.data.Some? then {s.data.value.buf} else {}
  {
    Segment(s.vaddr, s.flags, s.fileOffset, s.filesz, s.memsz,
            if s.data.Some? then Some(View(s.data.value.buf[..], s.data.value.off)) else None)
  }

  ghost function DerefAll(segs: seq<Segment<array<byte>>>): (r: seq<Seg>)
    reads Buffers(segs)
    ensures |r| == |segs|
    ensures forall k :: 0 <= k < |segs| ==> r[k] == Deref(segs[k])
  {
    if segs == [] then [] else
      assert Buffers(segs[1..]) <= Buffers(segs) by {
        assert forall k :: 0 <= k < |segs| - 1 ==> segs[1..][k] == segs[k + 1];
      }
      [Deref(segs[0])] + DerefAll(segs[1..])
  }

  lemma DerefConcat(s: seq<Segment<array<byte>>>, t: seq<Segment<array<byte>>>)
    ensures DerefAll(s + t) == DerefAll(s) + DerefAll(t)
  {
  }

  // ----- the emitted bytes -----

  function PhdrsEnd(n: nat): nat {
    EHDR_SIZE + 32 * n
  }

  /** The second half of `elf_write`: `out` has been written, segments from `i`
      on remain, and `cur` is the 32-bit file position the code believes in. */
  function EmitFrom(segs: seq<Seg>, i: nat, cur: u32, out: seq<byte>): Result<seq<byte>, WriteError>
    requires AllInBuffer(segs) && i <= |segs|
    decreases |segs| - i
  {
    if i == |segs| then Ok(out)
    else
      var s := segs[i];
      if s.filesz == 0 then EmitFrom(segs, i + 1, cur, out)
      else if s.fileOffset < cur then Err(OverlappingRanges)
      else if s.data.None? then Err(NoData)
      else EmitFrom(segs, i + 1, Add32(s.fileOffset, s.filesz), out + Zeros(s.fileOffset - cur) + Data(s))
  }

  function WriteElf(entry: u32, segs: seq<Seg>): Result<seq<byte>, WriteError>
    requires AllInBuffer(segs)
  {
    if |segs| == 0 || |segs| > MAX_SEGMENTS then Err(BadSegmentCount)
    else if exists i :: 0 <= i < |segs| && segs[i].filesz > 0 && segs[i].fileOffset < PhdrsEnd(|segs|) then
      Err(OverlapsHeaders)
    else EmitFrom(segs, 0, PhdrsEnd(|segs|), EhdrBytes(entry, |segs|) + PhdrTable(segs))
  }

  /** `elf_write`, appending to `out` where the source calls `fwrite`. */
  method Write(spec: ElfSpec) returns (r: Result<seq<byte>, WriteError>)
    requires AllInBuffer(DerefAll(spec.segments))
    ensures r == WriteElf(spec.entry, DerefAll(spec.segments))
  {
    hide EhdrBytes, PhdrTable;
    ghost var segs := DerefAll(spec.segments);
    var n := |spec.segments|;
    if n == 0 || n > MAX_SEGMENTS {
      return Err(BadSegmentCount);
    }
    for i := 0 to n
      invariant forall k :: 0 <= k < i ==> !(segs[k].filesz > 0 && segs[k].fileOffset < PhdrsEnd(n))
    {
      var s := spec.segments[i];
      assert segs[i] == Deref(s);
      if s.filesz > 0 && s.fileOffset < PhdrsEnd(n) {
        return Err(OverlapsHeaders);
      }
    }
    var out := WriteHeaders(spec, segs);
    r := WriteData(spec, segs, out);
    assert DerefAll(spec.segments) == segs;
  }

  /** The header part of `elf_write`. */
  method WriteHeaders(spec: ElfSpec, ghost segs: seq<Seg>) returns (out: seq<byte>)
    requires segs == DerefAll(spec.segments) && |segs| <= MAX_SEGMENTS
    ensures out == EhdrBytes(spec.entry, |segs|) + PhdrTable(segs)
  {
    hide EhdrBytes, PhdrBytes, DerefAll;
    var n := |spec.segments|;
    var ehdr := EhdrBytes(spec.entry, n);
    out := ehdr;
    for i := 0 to n
      invariant out == ehdr + PhdrTable(segs[..i])
    {
      var s := spec.segments[i];
      assert segs[i] == Deref(s);
      out := out + PhdrBytes(Phdr(PT_LOAD, s.fileOffset, s.vaddr, s.vaddr, s.filesz, s.memsz, s.flags, PAGE_SIZE));
      assert segs[..i + 1][..i] == segs[..i];
    }
    assert segs[..n] == segs;
  }

  /** The data loop of `elf_write`. */
  method WriteData(spec: ElfSpec, ghost segs: seq<Seg>, header: seq<byte>) returns (r: Result<seq<byte>, WriteError>)
    requires segs == DerefAll(spec.segments) && |segs| <= MAX_SEGMENTS
    requires AllInBuffer(segs)
    ensures r == EmitFrom(segs, 0, PhdrsEnd(|segs|), header)
  {
    var out := header;
    var cur: u32 := PhdrsEnd(|spec.segments|);
    for i := 0 to |spec.segments|
      invariant EmitFrom(segs, i, cur, out) == EmitFrom(segs, 0, PhdrsEnd(|segs|), header)
    {
      var s := spec.segments[i];
      assert segs[i] == Deref(s);
      if s.filesz == 0 {
        continue;
      }
      if s.fileOffset < cur {
        return Err(OverlappingRanges);
      }
      if s.fileOffset > cur {
        var pad := s.fileOffset - cur;
        ghost var before := out;
        while pad > 0
          invariant 0 <= pad <= s.fileOffset - cur
          invariant out == before + Zeros(s.fileOffset - cur - pad)
        {
          var chunk := if pad > 0x1000 then 0x1000 else pad;
          out := out + Zeros(chunk);
          pad := pad - chunk;
        }
      } else {
        assert out + Zeros(0) == out;
      }
      if s.data.None? {
        return Err(NoData);
      }
      out := out + s.data.value.buf[s.data.value.off..s.data.value.off + s.filesz];
      cur := Add32(s.fileOffset, s.filesz);
    }
    return Ok(out);
  }

  // ----- what an accepted file holds -----

  /** The 32-bit position does not wrap before the last non-empty segment. */
  predicate NoOffsetWrap(segs: seq<Seg>) {
    forall j, k :: 0 <= j < k < |segs| && segs[j].filesz > 0 && segs[k].filesz > 0 ==>
      segs[j].fileOffset + segs[j].filesz < MOD32
  }

  /** None of the segments has data in the file. */
  predicate AllEmpty(segs: seq<Seg>) {
    forall k :: 0 <= k < |segs| ==> segs[k].filesz == 0
  }

  /** File offset `p` belongs to the data of one of the segments from `i` on. */
  ghost predicate InSomeData(segs: seq<Seg>, i: nat, p: nat) {
    exists k :: i <= k < |segs| && segs[k].filesz > 0 && segs[k].fileOffset <= p < segs[k].fileOffset + segs[k].filesz
  }

  /** End of the last non-empty segment, or `start` when there is none. */
  function LastEnd(segs: seq<Seg>, start: nat): nat {
    if segs == [] then start
    else
      var s := segs[|segs| - 1];
      if s.filesz > 0 then s.fileOffset + s.filesz else LastEnd(segs[..|segs| - 1], start)
  }

  /** Beyond `from`, every byte of `f` outside the data of segments from `i` on is zero. */
  ghost predicate GapsZero(f: seq<byte>, segs: seq<Seg>, i: nat, from: nat) {
    forall p :: from <= p < |f| ==> InSomeData(segs, i, p) || f[p] == 0
  }

  /** One emitted segment: the bytes it adds, seen in any file that extends them. */
  lemma EmitOne(segs: seq<Seg>, i: nat, out: seq<byte>, f: seq<byte>)
    requires i < |segs| && InBuffer(segs[i])
    requires segs[i].filesz > 0 && segs[i].data.Some? && segs[i].fileOffset >= |out|
    requires out + Zeros(segs[i].fileOffset - |out|) + Data(segs[i]) <= f
    requires GapsZero(f, segs, i + 1, segs[i].fileOffset + segs[i].filesz)
    ensures out <= f
    ensures Carries(f, PhdrOf(segs[i]), segs[i])
    ensures GapsZero(f, segs, i, |out|)
  {
    var s := segs[i];
    var pad := Zeros(s.fileOffset - |out|);
    var next := out + pad + Data(s);
    assert f[..|next|] == next;
    assert f[s.fileOffset..s.fileOffset + s.filesz] == next[s.fileOffset..s.fileOffset + s.filesz] == Data(s);
    forall p | |out| <= p < |f|
      ensures InSomeData(segs, i, p) || f[p] == 0
    {
      if p < s.fileOffset {
        assert f[p] == next[p] == pad[p - |out|];
      }
    }
  }

  /** The 32-bit position before segment `i`: the end of the last non-empty segment, or of the headers. */
  function PositionBefore(segs: seq<Seg>, i: nat): u32
    requires i <= |segs| <= MAX_SEGMENTS
  {
    if i == 0 then 52 + 32 * |segs|
    else if segs[i - 1].filesz == 0 then PositionBefore(segs, i - 1)
    else Add32(segs[i - 1].fileOffset, segs[i - 1].filesz)
  }

  /** Segment `i` can be emitted: it is empty, or has data and starts at or behind the position. */
  predicate Emittable(segs: seq<Seg>, i: nat)
    requires i < |segs| <= MAX_SEGMENTS
  {
    segs[i].filesz == 0 || (segs[i].data.Some? && segs[i].fileOffset >= PositionBefore(segs, i))
  }

  lemma {:induction false} EmitExact(segs: seq<Seg>, i: nat, out: seq<byte>)
    requires AllInBuffer(segs) && i <= |segs| <= MAX_SEGMENTS
    ensures EmitFrom(segs, i, PositionBefore(segs, i), out).Ok? <==> forall k :: i <= k < |segs| ==> Emittable(segs, k)
    decreases |segs| - i
  {
    if i < |segs| {
      if segs[i].filesz == 0 {
        EmitExact(segs, i + 1, out);
      } else if Emittable(segs, i) {
        EmitExact(segs, i + 1, out + Zeros(segs[i].fileOffset - PositionBefore(segs, i)) + Data(segs[i]));
      }
    }
  }

  /** The writer accepts exactly 1 to 64 segments whose data lies behind the headers and, in 32 bits,
      behind the data before it. */
  lemma WriteAccepts(entry: u32, segs: seq<Seg>)
    requires AllInBuffer(segs)
    ensures WriteElf(entry, segs).Ok? <==>
              && 1 <= |segs| <= 64
              && (forall k :: 0 <= k < |segs| && segs[k].filesz > 0 ==> segs[k].fileOffset >= 52 + 32 * |segs|)
              && (forall k :: 0 <= k < |segs| ==> Emittable(segs, k))
  {
    hide EhdrBytes, PhdrTable, Emittable, EmitFrom, InBuffer;
    if 1 <= |segs| <= 64 {
      EmitExact(segs, 0, EhdrBytes(entry, |segs|) + PhdrTable(segs));
    }
  }

  /** Where the code believes it is after segment `i`, if that still matters. */
  lemma NextPosition(segs: seq<Seg>, i: nat)
    requires NoOffsetWrap(segs) && i < |segs| && segs[i].filesz > 0
    ensures Add32(segs[i].fileOffset, segs[i].filesz) == segs[i].fileOffset + segs[i].filesz || AllEmpty(segs[i + 1..])
  {
  }

  lemma {:induction false} EmitPlaces(segs: seq<Seg>, i: nat, cur: u32, out: seq<byte>)
    requires AllInBuffer(segs) && NoOffsetWrap(segs) && i <= |segs|
    requires cur == |out| || AllEmpty(segs[i..])
    requires EmitFrom(segs, i, cur, out).Ok?
    ensures var f := EmitFrom(segs, i, cur, out).value;
      && out <= f
      && (forall k :: i <= k < |segs| ==> Carries(f, PhdrOf(segs[k]), segs[k]))
      && GapsZero(f, segs, i, |out|)
      && |f| == LastEnd(segs[i..], |out|)
    decreases |segs| - i
  {
    if i < |segs| {
      var s := segs[i];
      var f := EmitFrom(segs, i, cur, out).value;
      LastEndCons(segs[i..], |out|);
      assert segs[i..][1..] == segs[i + 1..];
      if s.filesz == 0 {
        EmitPlaces(segs, i + 1, cur, out);
        assert forall p :: InSomeData(segs, i + 1, p) ==> InSomeData(segs, i, p);
      } else {
        assert segs[i..][0].filesz > 0;
        NextPosition(segs, i);
        EmitPlaces(segs, i + 1, Add32(s.fileOffset, s.filesz), out + Zeros(s.fileOffset - cur) + Data(s));
        EmitOne(segs, i, out, f);
      }
    }
  }

  /** A position that lags behind the file puts all later data too far back. */
  lemma {:induction false} EmitTooLong(segs: seq<Seg>, i: nat, cur: u32, out: seq<byte>)
    requires AllInBuffer(segs) && i <= |segs| && cur <= |out|
    requires EmitFrom(segs, i, cur, out).Ok?
    ensures var n := |EmitFrom(segs, i, cur, out).value|;
      && n >= LastEnd(segs[i..], |out|)
      && ((cur < |out| && !AllEmpty(segs[i..])) || !NoOffsetWrap(segs[i..]) ==> n > LastEnd(segs[i..], |out|))
    decreases |segs| - i
  {
    hide NoOffsetWrap, AllEmpty, LastEnd, InBuffer, Data;
    if i < |segs| {
      var s, rest := segs[i], segs[i + 1..];
      assert segs[i..] == [s] + rest;
      OneMore(s, rest, |out|);
      if s.filesz == 0 {
        EmitTooLong(segs, i + 1, cur, out);
      } else {
        InBufferAt(segs, i);
        var next := out + Zeros(s.fileOffset - cur) + Data(s);
        EmitTooLong(segs, i + 1, Add32(s.fileOffset, s.filesz), next);
        LastEndStart(rest, |next|, s.fileOffset + s.filesz);
      }
    } else {
      NothingLeft(segs[i..], |out|);
    }
  }

  lemma InBufferAt(segs: seq<Seg>, i: nat)
    requires AllInBuffer(segs) && i < |segs|
    ensures InBuffer(segs[i]) && (segs[i].data.Some? ==> |Data(segs[i])| == segs[i].filesz)
  {
  }

  lemma NothingLeft(segs: seq<Seg>, start: nat)
    requires segs == []
    ensures AllEmpty(segs) && NoOffsetWrap(segs) && LastEnd(segs, start) == start
  {
  }

  lemma AllEmptyCons(s: Seg, rest: seq<Seg>)
    ensures AllEmpty([s] + rest) <==> s.filesz == 0 && AllEmpty(rest)
  {
    var all := [s] + rest;
    assert all[0] == s && forall k :: 0 <= k < |rest| ==> all[k + 1] == rest[k];
    if AllEmpty(all) {
      forall k | 0 <= k < |rest| ensures rest[k].filesz == 0 {
        assert all[k + 1].filesz == 0;
      }
    }
  }

  lemma NoOffsetWrapCons(s: Seg, rest: seq<Seg>)
    ensures NoOffsetWrap([s] + rest) <==>
              NoOffsetWrap(rest) && (s.filesz > 0 && !AllEmpty(rest) ==> s.fileOffset + s.filesz < MOD32)
  {
    var all := [s] + rest;
    if NoOffsetWrap(all) {
      forall j, k | 0 <= j < k < |rest| && rest[j].filesz > 0 && rest[k].filesz > 0
        ensures rest[j].fileOffset + rest[j].filesz < MOD32
      {
        assert all[j + 1] == rest[j] && all[k + 1] == rest[k];
      }
      if s.filesz > 0 && !AllEmpty(rest) {
        var k :| 0 <= k < |rest| && rest[k].filesz != 0;
        assert all[0] == s && all[k + 1] == rest[k];
      }
    }
  }

  /** The three notions on a list with one more segment in front. */
  lemma OneMore(s: Seg, rest: seq<Seg>, start: nat)
    ensures LastEnd([s] + rest, start) == LastEnd(rest, if s.filesz > 0 then s.fileOffset + s.filesz else start)
    ensures AllEmpty([s] + rest) <==> s.filesz == 0 && AllEmpty(rest)
    ensures NoOffsetWrap([s] + rest) <==>
              NoOffsetWrap(rest) && (s.filesz > 0 && !AllEmpty(rest) ==> s.fileOffset + s.filesz < MOD32)
  {
    hide LastEnd, AllEmpty, NoOffsetWrap;
    assert ([s] + rest)[1..] == rest;
    LastEndCons([s] + rest, start);
    AllEmptyCons(s, rest);
    NoOffsetWrapCons(s, rest);
  }

  lemma {:induction false} LastEndStart(segs: seq<Seg>, a: nat, b: nat)
    ensures AllEmpty(segs) ==> LastEnd(segs, a) == a && LastEnd(segs, b) == b
    ensures !AllEmpty(segs) ==> LastEnd(segs, a) == LastEnd(segs, b)
  {
    if segs != [] && segs[|segs| - 1].filesz == 0 {
      LastEndStart(segs[..|segs| - 1], a, b);
    }
  }

  lemma {:induction false} LastEndCons(segs: seq<Seg>, start: nat)
    requires segs != []
    ensures LastEnd(segs, start)
         == LastEnd(segs[1..], if segs[0].filesz > 0 then segs[0].fileOffset + segs[0].filesz else start)
  {
    var n := |segs| - 1;
    if n > 0 && segs[n].filesz == 0 {
      LastEndCons(segs[..n], start);
      assert segs[..n][1..] == segs[1..][..n - 1];
    }
  }

  /** `f` is `segs` in a file: the program-header walk gives them back with their
      entry, their data and zeros in between, and nothing follows the last one. */
  ghost predicate ReadsBack(f: seq<byte>, entry: u32, segs: seq<Seg>)
    requires AllInBuffer(segs)
  {
    && Executable(f) && HasPhdrs(f)
    && EntryOf(f) == entry
    && Loads(f) == PhdrsOf(segs)
    && (forall k :: 0 <= k < |segs| ==> Describes(Loads(f)[k], segs[k]))
    && (forall k :: 0 <= k < |segs| ==> Carries(f, PhdrOf(segs[k]), segs[k]))
    && GapsZero(f, segs, 0, PhdrsEnd(|segs|))
    && |f| == LastEnd(segs, PhdrsEnd(|segs|))
  }

  /** Writer/reader round trip: reading an accepted file back with the
      program-header walk returns the same segments and the same entry. */
  lemma WriteReadsBack(entry: u32, segs: seq<Seg>)
    requires AllInBuffer(segs) && NoOffsetWrap(segs)
    requires WriteElf(entry, segs).Ok?
    ensures ReadsBack(WriteElf(entry, segs).value, entry, segs)
  {
    hide NoOffsetWrap, EmitFrom, LastEnd, Executable;
    var head := EhdrBytes(entry, |segs|) + PhdrTable(segs);
    var f := WriteElf(entry, segs).value;
    EmitPlaces(segs, 0, PhdrsEnd(|segs|), head);
    assert segs[0..] == segs;
    assert f[..EHDR_SIZE] == head[..EHDR_SIZE] == EhdrBytes(entry, |segs|);
    assert f[EHDR_SIZE..PhdrsEnd(|segs|)] == head[EHDR_SIZE..PhdrsEnd(|segs|)] == PhdrTable(segs);
    LoadsOfTable(f, entry, segs, 0);
    ReadIdent(f, entry, |segs|);
  }

  lemma ReadsBackLength(f: seq<byte>, entry: u32, segs: seq<Seg>)
    requires AllInBuffer(segs) && ReadsBack(f, entry, segs)
    ensures |f| == LastEnd(segs, PhdrsEnd(|segs|))
  {
  }

  /** A position that wraps before later data makes the file longer than its segments. */
  lemma WrapTooLong(entry: u32, segs: seq<Seg>)
    requires AllInBuffer(segs) && WriteElf(entry, segs).Ok? && !NoOffsetWrap(segs)
    ensures |WriteElf(entry, segs).value| > LastEnd(segs, PhdrsEnd(|segs|))
  {
    hide EmitFrom, NoOffsetWrap, LastEnd, InBuffer, EhdrBytes, PhdrTable;
    assert segs[0..] == segs;
    EmitTooLong(segs, 0, PhdrsEnd(|segs|), EhdrBytes(entry, |segs|) + PhdrTable(segs));
  }

  /** An accepted list reads back exactly when its positions do not wrap. */
  lemma WriteExact(entry: u32, segs: seq<Seg>)
    requires AllInBuffer(segs) && WriteElf(entry, segs).Ok?
    ensures ReadsBack(WriteElf(entry, segs).value, entry, segs) <==> NoOffsetWrap(segs)
  {
    hide WriteElf, NoOffsetWrap, LastEnd, ReadsBack, InBuffer;
    if NoOffsetWrap(segs) {
      WriteReadsBack(entry, segs);
    } else {
      WrapTooLong(entry, segs);
      if ReadsBack(WriteElf(entry, segs).value, entry, segs) {
        ReadsBackLength(WriteElf(entry, segs).value, entry, segs);
      }
    }
  }

  /** Loading an accepted file builds exactly the memory its segments describe. */
  lemma WriteThenLoad(entry: u32, segs: seq<Seg>, a: nat)
    requires AllInBuffer(segs) && NoOffsetWrap(segs)
    requires WriteElf(entry, segs).Ok?
    ensures LoadedByte(WriteElf(entry, segs).value, a) == SegMemory(segs, a)
  {
    hide WriteElf, EmitFrom, PhdrOf, Carries, NoOffsetWrap, Executable;
    WriteReadsBack(entry, segs);
    MemoryOfSegments(WriteElf(entry, segs).value, PhdrsOf(segs), segs, a);
  }
}
