/**
 * The shim runtime's bump allocator over `brk`, and `realloc` by a forward copy whose
 * source and destination ranges may overlap.
 *
 * Pointers are 32-bit words. A pointer value is an index into the address space `mem`;
 * the kernel's answers to `brk` are arguments.
 */
module ShimHeap {
  import opened Words

  const MIB := 0x10_0000

  /** `heap_next` and `heap_limit`; both are 0 before the first request. */
  datatype HeapState = HeapState(next: u32, limit: u32)

  /** What the kernel answers: to `brk(0)`, and to the request for a higher break. */
  datatype Brk = Brk(current: u32, moved: u32)

  /** `(size + 15) & ~15`, at least 16, in 32 bits. */
  function RoundSize(size: u32): u32 {
    var r := Add32(size, 15) / 16 * 16;
    if r == 0 then 16 else r
  }

  /** The whole 16-byte units that a block of `size` bytes takes up. */
  function Units(size: nat): (n: nat)
    ensures size <= n && 0 < n && n % 16 == 0 && n < (if size == 0 then 1 else size) + 16
  {
    if size == 0 then 16 else (size + 15) / 16 * 16
  }

  function Start(s: HeapState, brk: Brk): HeapState {
    if s.next == 0 then HeapState(brk.current, brk.current) else s
  }

  /** The break asked for when `size` more bytes do not fit. */
  function Wanted(s: HeapState, end: u32): u32
    requires end > s.limit
  {
    var need := end - s.limit;
    Add32(s.limit, if need > 0x10_0000 then need else 0x10_0000)
  }

  /** One request: the new state and the block's address, 0 on failure. */
  function Allocate(s: HeapState, size: u32, brk: Brk): (HeapState, u32) {
    var t := Start(s, brk);
    var end := Add32(t.next, RoundSize(size));
    if end <= t.limit then (t.(next := end), t.next)
    else if brk.moved < Wanted(t, end) then (t, 0)
    else (HeapState(end, brk.moved), t.next)
  }

  // ----- one request -----

  /** The kernel grants exactly what is asked for or leaves the break alone, and never below the heap. */
  predicate Honest(s: HeapState, size: u32, brk: Brk) {
    var t := Start(s, brk);
    var end := Add32(t.next, RoundSize(size));
    end > t.limit ==>
      var w := Wanted(t, end);
      brk.moved == t.limit || (brk.moved == w && w > t.limit)
  }

  /** The heap lies at or above 1 MiB, below which no program break is. */
  predicate Placed(s: HeapState) {
    MIB <= s.next <= s.limit
  }

  /** A block at `p` fits between the old allocation mark and the new limit. */
  predicate Sound(s: HeapState, t: HeapState, p: u32, size: u32) {
    p == s.next && p + Units(size) == t.next && t.next <= t.limit && s.limit <= t.limit
  }

  /** Neither the block's end nor the grown break exceeds 32 bits. */
  predicate Fits(s: HeapState, size: u32) {
    && s.next + Units(size) < MOD32
    && (s.next + Units(size) > s.limit ==> s.limit + MIB < MOD32)
  }

  /** A block that is handed out is sound exactly when nothing wrapped. */
  lemma SoundIff(s: HeapState, size: u32, brk: Brk)
    requires Placed(Start(s, brk)) && Honest(s, size, brk)
    requires Allocate(s, size, brk).1 != 0
    ensures Sound(Start(s, brk), Allocate(s, size, brk).0, Allocate(s, size, brk).1, size) <==>
              Fits(Start(s, brk), size)
  {
    RoundIsUnits(size);
  }

  lemma RoundIsUnits(size: u32)
    ensures size <= 0xFFFF_FFF0 ==> RoundSize(size) == Units(size)
    ensures size > 0xFFFF_FFF0 ==> RoundSize(size) == 16 && Units(size) == MOD32
  {
  }

  /** When nothing wraps, whatever the kernel answers: success is sound, failure changes nothing. */
  lemma AllocateStep(s: HeapState, size: u32, brk: Brk)
    requires Placed(Start(s, brk)) && Fits(Start(s, brk), size)
    ensures var (t, p) := Allocate(s, size, brk);
            if p != 0 then Sound(Start(s, brk), t, p, size) else t == Start(s, brk)
  {
    RoundIsUnits(size);
  }

  /**
   * The answer to every request that fits, in plain numbers. The heap starts at the break found by
   * the first request. The block is taken where the last one ended: from what is left below the limit,
   * or after the kernel has moved the break by what is missing, and by at least 1 MiB; otherwise
   * the answer is 0.
   */
  lemma AllocateExact(s: HeapState, size: u32, brk: Brk)
    requires Placed(Start(s, brk)) && Fits(Start(s, brk), size)
    ensures var base, limit := if s.next == 0 then brk.current else s.next, if s.next == 0 then brk.current
            else s.limit;
            var end := base + Units(size);
            var missing := if end - limit > 0x10_0000 then end - limit else 0x10_0000;
            Allocate(s, size, brk) ==
              if end <= limit then (HeapState(end, limit), base)
              else if brk.moved >= limit + missing then (HeapState(end, brk.moved), base)
              else (HeapState(base, limit), 0)
  {
    RoundIsUnits(size);
  }

  /** A kernel that grants exactly what is asked for gets every fitting request answered. */
  lemma GrantedAnswered(s: HeapState, size: u32, brk: Brk)
    requires Placed(Start(s, brk)) && Fits(Start(s, brk), size)
    requires var t := Start(s, brk);
      t.next + Units(size) > t.limit ==> brk.moved == Wanted(t, t.next + Units(size))
    ensures Allocate(s, size, brk).1 == (if s.next == 0 then brk.current else s.next) != 0
  {
    RoundIsUnits(size);
  }

  /** A request for nearly 4 GiB wraps to 16 bytes and succeeds. */
  lemma RoundingWraps(s: HeapState, brk: Brk)
    requires Placed(s) && s.next + 16 <= s.limit
    ensures Allocate(s, 0xFFFF_FFFF, brk) == (s.(next := s.next + 16), s.next)
    ensures !Sound(s, Allocate(s, 0xFFFF_FFFF, brk).0, s.next, 0xFFFF_FFFF)
  {
    RoundIsUnits(0xFFFF_FFFF);
  }

  // ----- a run of requests -----

  datatype Request = Request(size: u32, brk: Brk)

  datatype Block = Block(start: u32, size: u32)

  /** The heap after some requests, the blocks handed out in order, and how often the break moved. */
  datatype Run = Run(heap: HeapState, blocks: seq<Block>, growths: nat)

  const FRESH := Run(HeapState(0, 0), [], 0)

  function Step(run: Run, q: Request): Run {
    var (t, p) := Allocate(run.heap, q.size, q.brk);
    var s := Start(run.heap, q.brk);
    Run(t, if p == 0 then run.blocks else run.blocks + [Block(p, q.size)],
        if t.limit != s.limit then run.growths + 1 else run.growths)
  }

  function RunAll(qs: seq<Request>): Run {
    if qs == [] then FRESH else Step(RunAll(qs[..|qs| - 1]), qs[|qs| - 1])
  }

  /** No request of the run wraps, and the first break is a proper one. */
  predicate RunFits(qs: seq<Request>) {
    qs == [] ||
    var before, q := qs[..|qs| - 1], qs[|qs| - 1];
    && RunFits(before)
    && (before == [] ==> MIB <= q.brk.current)
    && Fits(Start(RunAll(before).heap, q.brk), q.size)
  }

  /** The break found by the first request. */
  function InitialBreak(qs: seq<Request>): u32
    requires qs != []
  {
    qs[0].brk.current
  }

  /** The blocks lie one after the other, from `lo` up to `hi`. */
  predicate Laid(bs: seq<Block>, lo: nat, hi: nat) {
    && lo <= hi
    && (forall i :: 0 <= i < |bs| ==> lo <= bs[i].start && bs[i].start + Units(bs[i].size) <= hi)
    && (forall i, j :: 0 <= i < j < |bs| ==> bs[i].start + Units(bs[i].size) <= bs[j].start)
  }

  /**
   * For every run in which nothing wraps, whatever the kernel answers: blocks are laid out in
   * order without overlap from the initial break to the allocation mark, which never passes the limit.
   */
  lemma {:induction false} BlocksDisjoint(qs: seq<Request>)
    requires qs != [] && RunFits(qs)
    ensures Placed(RunAll(qs).heap)
    ensures Laid(RunAll(qs).blocks, InitialBreak(qs), RunAll(qs).heap.next)
  {
    var before, q := qs[..|qs| - 1], qs[|qs| - 1];
    if before == [] {
      assert RunAll(before) == FRESH;
    } else {
      BlocksDisjoint(before);
      assert InitialBreak(before) == InitialBreak(qs);
    }
    AllocateStep(RunAll(before).heap, q.size, q.brk);
  }

  /** Every growth request is granted. */
  predicate AllGranted(qs: seq<Request>) {
    qs == [] ||
    var before, q := qs[..|qs| - 1], qs[|qs| - 1];
    var t := Start(RunAll(before).heap, q.brk);
    && AllGranted(before)
    && (t.next + Units(q.size) > t.limit ==>
          var missing := t.next + Units(q.size) - t.limit;
          q.brk.moved >= t.limit + (if missing > 0x10_0000 then missing else 0x10_0000))
  }

  /** With such a kernel every request of a fitting run gets its block. */
  lemma {:induction false} EveryRequestAnswered(qs: seq<Request>)
    requires RunFits(qs) && AllGranted(qs)
    ensures |RunAll(qs).blocks| == |qs|
    ensures forall k :: 0 <= k < |qs| ==> RunAll(qs).blocks[k].size == qs[k].size
    ensures qs != [] ==> RunAll(qs).blocks[0].start == InitialBreak(qs)
  {
    hide Allocate, Units, Laid;
    if qs != [] {
      var before, q := qs[..|qs| - 1], qs[|qs| - 1];
      EveryRequestAnswered(before);
      if before != [] {
        BlocksDisjoint(before);
        assert InitialBreak(before) == InitialBreak(qs);
      } else {
        assert RunAll(before) == FRESH;
      }
      AllocateExact(RunAll(before).heap, q.size, q.brk);
    }
  }

  /** Every growth request is granted exactly, or refused. */
  predicate ExactGrants(qs: seq<Request>) {
    qs == [] ||
    var before, q := qs[..|qs| - 1], qs[|qs| - 1];
    && ExactGrants(before)
    && Honest(RunAll(before).heap, q.size, q.brk)
  }

  /** The break never runs more than 1 MiB ahead, so it moves at most once per MiB handed out, plus once. */
  lemma {:induction false} SlackBounded(qs: seq<Request>)
    requires qs != [] && RunFits(qs) && ExactGrants(qs)
    ensures var run, start := RunAll(qs), InitialBreak(qs);
            && start <= run.heap.next <= run.heap.limit <= run.heap.next + MIB
            && run.growths * MIB <= run.heap.limit - start
            && run.growths <= (run.heap.next - start) / MIB + 1
  {
    var before, q := qs[..|qs| - 1], qs[|qs| - 1];
    if before != [] {
      SlackBounded(before);
      BlocksDisjoint(before);
      assert InitialBreak(before) == InitialBreak(qs);
    }
    GrowthStep(RunAll(before).heap, q.size, q.brk);
  }

  /** One request moves the break by at least 1 MiB or not at all. */
  lemma GrowthStep(s: HeapState, size: u32, brk: Brk)
    requires Placed(Start(s, brk)) && Fits(Start(s, brk), size) && Honest(s, size, brk)
    requires Start(s, brk).limit <= Start(s, brk).next + MIB
    ensures var t := Allocate(s, size, brk).0;
            && Start(s, brk).next <= t.next <= t.limit <= t.next + MIB
            && (t.limit == Start(s, brk).limit || t.limit >= Start(s, brk).limit + MIB)
  {
    RoundIsUnits(size);
  }

  // ----- storing into memory -----

  /** Memory with `s` stored from address `a` on, one byte after the other. */
  function Stored(m: seq<byte>, a: u32, s: seq<byte>): (r: seq<byte>)
    requires |m| == MOD32 && |s| <= MOD32
    ensures |r| == MOD32
  {
    if s == [] then m else Stored(m, a, s[..|s| - 1])[Add32(a, |s| - 1) := s[|s| - 1]]
  }

  lemma {:induction false} StoredConcat(m: seq<byte>, a: u32, s: seq<byte>, t: seq<byte>)
    requires |m| == MOD32 && |s| + |t| < MOD32
    ensures Stored(m, a, s + t) == Stored(Stored(m, a, s), Add32(a, |s|), t)
    decreases |t|
  {
    if t == [] {
      assert s + t == s;
    } else {
      var n := |t| - 1;
      StoredConcat(m, a, s, t[..n]);
      assert (s + t)[..|s| + n] == s + t[..n];
    }
  }

  lemma {:induction false} StoredAt(m: seq<byte>, a: u32, s: seq<byte>, k: u32)
    requires |m| == MOD32 && a + |s| <= MOD32
    ensures Stored(m, a, s)[k] == if a <= k < a + |s| then s[k - a] else m[k]
  {
    if s != [] {
      StoredAt(m, a, s[..|s| - 1], k);
    }
  }

  lemma StoredSlice(m: seq<byte>, a: u32, s: seq<byte>)
    requires |m| == MOD32 && a + |s| <= MOD32
    ensures Stored(m, a, s)[a..a + |s|] == s
  {
    hide Stored;
    forall i | 0 <= i < |s| ensures Stored(m, a, s)[a + i] == s[i] {
      StoredAt(m, a, s, a + i);
    }
  }

  /** What is stored into a new block is there, below the limit, and changes no byte below the
      block, where all earlier blocks lie (`NewBlockAbove`). */
  lemma StoredInBlock(qs: seq<Request>, q: Request, m: seq<byte>, s: seq<byte>, a: nat)
    requires RunFits(qs + [q]) && |m| == MOD32 && |s| <= q.size
    requires Allocate(RunAll(qs).heap, q.size, q.brk).1 != 0
    requires a < Allocate(RunAll(qs).heap, q.size, q.brk).1
    ensures var (t, n) := Allocate(RunAll(qs).heap, q.size, q.brk);
            n + q.size <= t.limit && Stored(m, n, s)[n..n + |s|] == s && Stored(m, n, s)[a] == m[a]
  {
    hide Allocate, RunAll, RunFits, Stored, Units;
    var n := Allocate(RunAll(qs).heap, q.size, q.brk).1;
    NewBlockFits(qs, q);
    StoredSlice(m, n, s);
    StoredAt(m, n, s, a);
  }

  // ----- realloc -----

  /** The first `i` steps of `n[i] = p[i]`, each reading what the earlier ones wrote. */
  function CopyForward(m: seq<byte>, p: u32, n: u32, i: u32): (r: seq<byte>)
    requires |m| == MOD32
    ensures |r| == MOD32
  {
    if i == 0 then m
    else
      var w := CopyForward(m, p, n, i - 1);
      w[Add32(n, i - 1) := w[Add32(p, i - 1)]]
  }

  /** `i` reduced by multiples of `d`. */
  function Fold(i: nat, d: nat): (r: nat)
    requires d > 0
    ensures r < d && (i < d ==> r == i)
  {
    if i < d then i else Fold(i - d, d)
  }

  /**
   * Copying upwards by `n - p` repeats the first `n - p` bytes of the source over the whole
   * destination, and touches nothing else.
   */
  lemma {:induction false} CopyRepeats(m: seq<byte>, p: u32, n: u32, size: u32, a: u32)
    requires |m| == MOD32 && p < n && n + size <= MOD32
    ensures CopyForward(m, p, n, size)[a] == if n <= a < n + size then m[p + Fold(a - n, n - p)] else m[a]
  {
    if size > 0 {
      var w := CopyForward(m, p, n, size - 1);
      CopyRepeats(m, p, n, size - 1, a);
      CopyRepeats(m, p, n, size - 1, p + (size - 1));
    }
  }

  /** The process heap: the allocator's two marks and the memory they lie in. */
  class Heap {
    var next: u32
    var limit: u32
    const mem: array<byte>

    constructor (mem: array<byte>)
      ensures State() == FRESH.heap && this.mem == mem
    {
      this.mem := mem;
      next, limit := 0, 0;
    }

    function State(): HeapState reads this {
      HeapState(next, limit)
    }

    /** `shim_heap_alloc`. */
    method Alloc(size: u32, brk: Brk) returns (p: u32)
      modifies this
      ensures (State(), p) == Allocate(old(State()), size, brk)
    {
      var rounded := Add32(size, 15) / 16 * 16;
      if rounded == 0 {
        rounded := 16;
      }
      if next == 0 {
        next := brk.current;
        limit := brk.current;
      }
      if Add32(next, rounded) > limit {
        var need := Add32(next, rounded) - limit;
        var grow := if need > 0x10_0000 then need else 0x10_0000;
        if brk.moved < Add32(limit, grow) {
          return 0;
        }
        limit := brk.moved;
      }
      p := next;
      next := Add32(next, rounded);
    }

    /** `shim_heap_realloc`. */
    method Realloc(p: u32, size: u32, brk: Brk) returns (n: u32)
      requires mem.Length == MOD32
      modifies this, mem
      ensures (State(), n) == Allocate(old(State()), size, brk)
      ensures mem[..] == if n == 0 || p == 0 then old(mem[..]) else CopyForward(old(mem[..]), p, n, size)
    {
      n := Alloc(size, brk);
      if n == 0 {
        return;
      }
      if p != 0 {
        var i := 0;
        while i < size
          invariant 0 <= i <= size
          invariant State() == Allocate(old(State()), size, brk).0
          invariant mem[..] == CopyForward(old(mem[..]), p, n, i)
        {
          mem[Add32(n, i)] := mem[Add32(p, i)];
          i := i + 1;
        }
      }
    }
  }

  /** A block handed out after a run lies below the limit. */
  lemma NewBlockFits(qs: seq<Request>, q: Request)
    requires RunFits(qs + [q])
    ensures var (t, n) := Allocate(RunAll(qs).heap, q.size, q.brk);
            n != 0 ==> n + Units(q.size) <= t.limit
  {
    assert (qs + [q])[..|qs|] == qs;
    if qs != [] {
      BlocksDisjoint(qs);
    }
    AllocateStep(RunAll(qs).heap, q.size, q.brk);
  }

  /** A block handed out after a run lies above all earlier ones and below the limit. */
  lemma {:induction false} NewBlockAbove(qs: seq<Request>, q: Request, b: Block)
    requires RunFits(qs + [q]) && b in RunAll(qs).blocks
    ensures var (t, n) := Allocate(RunAll(qs).heap, q.size, q.brk);
            n != 0 ==> b.start + Units(b.size) <= n && n + Units(q.size) <= t.limit
  {
    assert (qs + [q])[..|qs|] == qs;
    if qs != [] {
      BlocksDisjoint(qs);
      AllocateStep(RunAll(qs).heap, q.size, q.brk);
    }
  }

  /**
   * After any run that nothing wrapped in, reallocating any of its blocks keeps the first
   * `min(old size, new size)` bytes, reads only below the heap limit, repeats the range between
   * the two blocks beyond that, and changes no byte below the new block, where all earlier blocks lie.
   */
  lemma {:induction false} ReallocPreserves(qs: seq<Request>, q: Request, m: seq<byte>, b: Block, i: nat, a: nat)
    requires RunFits(qs + [q]) && |m| == MOD32 && b in RunAll(qs).blocks
    requires Allocate(RunAll(qs).heap, q.size, q.brk).1 != 0
    requires i < q.size && a < Allocate(RunAll(qs).heap, q.size, q.brk).1
    ensures var (t, n) := Allocate(RunAll(qs).heap, q.size, q.brk);
            var after := CopyForward(m, b.start, n, q.size);
            && b.start < n && b.start + i < n + i < t.limit
            && after[n + i] == m[b.start + Fold(i, n - b.start)]
            && (i < b.size ==> after[n + i] == m[b.start + i])
            && after[a] == m[a]
  {
    hide Allocate, CopyForward, RunFits, RunAll, Fold, Units;
    var n := Allocate(RunAll(qs).heap, q.size, q.brk).1;
    NewBlockAbove(qs, q, b);
    CopyRepeats(m, b.start, n, q.size, n + i);
    CopyRepeats(m, b.start, n, q.size, a);
  }
}
