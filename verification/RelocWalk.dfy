/** What the two-pass relocation walk of src/pe_relocs.c finds, and when it ends. */
module RelocWalk {
  import opened Words
  import opened PeImage
  import opened PeRelocs

  // ----- the cursor -----

  /** A relocation directory in an image. */
  datatype Dir = Dir(g: Geometry, raw: seq<byte>, rva: u32, size: u32)

  type RelocDir = d: Dir | |d.raw| == d.g.rawSize witness Dir(Geometry(0, 0, 0, 0, [], 0), [], 0, 0)

  /** The block header at offset `c` of the directory. */
  function Header(d: RelocDir, c: u32): Result<Block, PeError> {
    BlockAt(d.g, d.raw, Add32(d.rva, c))
  }

  /** The C variable `consumed` at the head of the loop after `k` rounds, if the loop gets that far. */
  function CursorAfter(d: RelocDir, k: nat): Option<u32> {
    if k == 0 then Some(0)
    else
      var c := CursorAfter(d, k - 1);
      if c.None? || c.value >= d.size then None
      else
        var b := Header(d, c.value);
        if b.Err? then None else Some(Add32(c.value, b.value.size))
  }

  /** The loop makes only finitely many rounds. */
  ghost predicate Ends(d: RelocDir) {
    exists k: nat :: CursorAfter(d, k).None?
  }

  /** The cursor comes back to an offset where it has been. */
  ghost predicate Returns(d: RelocDir) {
    exists i: nat, j: nat :: i < j && CursorAfter(d, i).Some? && CursorAfter(d, i) == CursorAfter(d, j)
  }

  lemma {:induction false} Earlier(d: RelocDir, i: nat, k: nat)
    requires i <= k && CursorAfter(d, k).Some?
    ensures CursorAfter(d, i).Some?
    ensures i < k ==> CursorAfter(d, i).value < d.size
    decreases k
  {
    hide Header, Add32;
    if i < k {
      Earlier(d, i, k - 1);
    }
  }

  /** Where the cursor is decides where it goes. */
  lemma {:induction false} SameCourse(d: RelocDir, i: nat, j: nat, n: nat)
    requires CursorAfter(d, i) == CursorAfter(d, j)
    ensures CursorAfter(d, i + n) == CursorAfter(d, j + n)
  {
    hide Header, Add32;
    if n > 0 {
      SameCourse(d, i, j, n - 1);
    }
  }

  lemma {:induction false} ReturningRuns(d: RelocDir, i: nat, j: nat, k: nat)
    requires i < j && CursorAfter(d, i).Some? && CursorAfter(d, i) == CursorAfter(d, j)
    ensures CursorAfter(d, k).Some?
    decreases k
  {
    hide Header, Add32, CursorAfter;
    if k <= j {
      Earlier(d, k, j);
    } else {
      SameCourse(d, i, j, k - j);
      ReturningRuns(d, i, j, i + (k - j));
    }
  }

  /** More than `m` numbers below `m` are not all different. */
  lemma {:induction false} Pigeonhole(s: seq<nat>, m: nat) returns (i: nat, j: nat)
    requires |s| > m && forall k :: 0 <= k < |s| ==> s[k] < m
    ensures i < j < |s| && s[i] == s[j]
    decreases m
  {
    assert s[0] < m;
    if k :| 0 <= k < |s| && s[k] == m - 1 {
      if l :| 0 <= l < |s| && l != k && s[l] == m - 1 {
        i, j := if k < l then k else l, if k < l then l else k;
      } else {
        var t := s[..k] + s[k + 1..];
        i, j := Pigeonhole(t, m - 1);
        i, j := if i < k then i else i + 1, if j < k then j else j + 1;
      }
    } else {
      i, j := Pigeonhole(s[..|s| - 1], m - 1);
    }
  }

  function Cursors(d: RelocDir, n: nat): (s: seq<nat>)
    requires n > 0 ==> CursorAfter(d, n - 1).Some?
    ensures |s| == n && forall k :: 0 <= k < n ==> CursorAfter(d, k) == Some(s[k]) && s[k] < MOD32
  {
    if n == 0 then []
    else
      Earlier(d, if n > 1 then n - 2 else 0, n - 1);
      var c: nat := CursorAfter(d, n - 1).value;
      Cursors(d, n - 1) + [c]
  }

  /** A loop that makes 2^32 rounds has returned. */
  lemma LongReturns(d: RelocDir) returns (i: nat, j: nat)
    requires CursorAfter(d, MOD32).Some?
    ensures i < j <= MOD32 && CursorAfter(d, i).Some? && CursorAfter(d, i) == CursorAfter(d, j)
  {
    i, j := Pigeonhole(Cursors(d, MOD32 + 1), MOD32);
  }

  /** The walk ends exactly when its cursor never returns. */
  lemma EndsExact(d: RelocDir)
    ensures Ends(d) <==> !Returns(d)
  {
    if Returns(d) {
      var i: nat, j: nat :| i < j && CursorAfter(d, i).Some? && CursorAfter(d, i) == CursorAfter(d, j);
      forall k: nat ensures CursorAfter(d, k).Some? {
        ReturningRuns(d, i, j, k);
      }
    }
    if !Ends(d) {
      assert CursorAfter(d, MOD32).Some?;
      var i, j := LongReturns(d);
    }
  }

  /** The header that round `k` reads does not take the cursor past 2^32. */
  predicate StepFits(d: RelocDir, k: nat) {
    CursorAfter(d, k).Some? && CursorAfter(d, k).value < d.size && Header(d, CursorAfter(d, k).value).Ok? ==>
      CursorAfter(d, k).value + Header(d, CursorAfter(d, k).value).value.size < MOD32
  }

  lemma {:induction false} Ascends(d: RelocDir, i: nat, j: nat)
    requires forall k: nat :: StepFits(d, k)
    requires i < j && CursorAfter(d, j).Some?
    ensures CursorAfter(d, i).Some? && CursorAfter(d, i).value < CursorAfter(d, j).value
    decreases j
  {
    hide BlockAt;
    Earlier(d, i, j);
    Earlier(d, j - 1, j);
    assert StepFits(d, j - 1);
    if i < j - 1 {
      Ascends(d, i, j - 1);
    }
  }

  /** A walk on which no header reaches past 2^32 ends. */
  lemma FittingEnds(d: RelocDir)
    requires forall k: nat :: StepFits(d, k)
    ensures Ends(d)
  {
    EndsExact(d);
    if Returns(d) {
      var i: nat, j: nat :| i < j && CursorAfter(d, i).Some? && CursorAfter(d, i) == CursorAfter(d, j);
      Ascends(d, i, j);
    }
  }

  // ----- the count -----

  /** The entries counted in the first `k` rounds. */
  function CountAfter(d: RelocDir, k: nat): nat {
    if k == 0 then 0
    else
      var c := CursorAfter(d, k - 1);
      CountAfter(d, k - 1) + (if c.Some? && Header(d, c.value).Ok? then NumEntries(Header(d, c.value).value) else 0)
  }

  /** At some time the count no longer fits the C `int`. */
  ghost predicate Overflows(d: RelocDir) {
    exists k: nat :: CursorAfter(d, k).Some? && CountAfter(d, k) >= 0x8000_0000
  }

  /** The loop never ends, and nothing undefined happens in it. */
  ghost predicate RunsForever(d: RelocDir) {
    !Ends(d) && !Overflows(d)
  }

  lemma {:induction false} CountGrows(d: RelocDir, i: nat, k: nat)
    requires i <= k
    ensures CountAfter(d, i) <= CountAfter(d, k)
    decreases k
  {
    hide Header, NumEntries, CursorAfter;
    if i < k {
      CountGrows(d, i, k - 1);
    }
  }

  /** The same course counts the same entries. */
  lemma {:induction false} SameCount(d: RelocDir, i: nat, j: nat, n: nat)
    requires CursorAfter(d, i) == CursorAfter(d, j)
    ensures CountAfter(d, j + n) - CountAfter(d, j) == CountAfter(d, i + n) - CountAfter(d, i)
  {
    hide Header, NumEntries, CursorAfter;
    if n > 0 {
      SameCount(d, i, j, n - 1);
      SameCourse(d, i, j, n - 1);
    }
  }

  /** The round after `m` more turns of `step` rounds from round `i` on. */
  function Turn(i: nat, step: nat, m: nat): nat {
    if m == 0 then i else Turn(i, step, m - 1) + step
  }

  lemma {:induction false} TurnRange(i: nat, step: nat, m: nat)
    requires 0 < step
    ensures i + m <= Turn(i, step, m)
    ensures step <= MOD32 ==> Turn(i, step, m) <= i + 0x1_0000_0000 * m
  {
    if m > 0 {
      TurnRange(i, step, m - 1);
    }
  }

  /** Every turn counts as many entries as the first one. */
  lemma {:induction false} TurnCounts(d: RelocDir, i: nat, j: nat, m: nat)
    requires i < j && CursorAfter(d, i) == CursorAfter(d, j)
    ensures CountAfter(d, j) == CountAfter(d, i) ==> CountAfter(d, Turn(i, j - i, m)) == CountAfter(d, i)
    ensures CountAfter(d, j) > CountAfter(d, i) ==> CountAfter(d, Turn(i, j - i, m)) >= CountAfter(d, i) + m
  {
    hide Header, NumEntries, CursorAfter, CountAfter;
    if m > 0 {
      TurnCounts(d, i, j, m - 1);
      TurnRange(i, j - i, m - 1);
      SameCount(d, i, j, Turn(i, j - i, m - 1) - i);
    }
  }

  /** A loop that makes so many rounds without an overflow runs for ever. */
  lemma LongRuns(d: RelocDir)
    requires CursorAfter(d, ROUNDS).Some? && CountAfter(d, ROUNDS) < 0x8000_0000
    ensures RunsForever(d)
  {
    hide Header, NumEntries, CursorAfter, CountAfter;
    Earlier(d, MOD32, ROUNDS);
    var i, j := LongReturns(d);
    EndsExact(d);
    CountGrows(d, i, j);
    TurnRange(i, j - i, 0x8000_0000);
    CountGrows(d, Turn(i, j - i, 0x8000_0000), ROUNDS);
    TurnCounts(d, i, j, 0x8000_0000);
    CountGrows(d, i, ROUNDS);
    forall k: nat ensures CountAfter(d, k) < 0x8000_0000 {
      TurnRange(i, j - i, k);
      TurnCounts(d, i, j, k);
      CountGrows(d, k, Turn(i, j - i, k));
    }
  }

  /** The loop is at the same offset twice and has counted nothing in between. */
  predicate ReturnsIdle(d: RelocDir, i: nat, j: nat) {
    && i < j && CursorAfter(d, i).Some? && CursorAfter(d, i) == CursorAfter(d, j)
    && CountAfter(d, i) == CountAfter(d, j) < 0x8000_0000
  }

  /** A loop runs for ever exactly when it returns to an offset without having counted anything in between. */
  lemma ForeverExact(d: RelocDir)
    ensures RunsForever(d) <==> exists i: nat, j: nat :: ReturnsIdle(d, i, j)
  {
    hide Header, NumEntries, CursorAfter, CountAfter;
    EndsExact(d);
    if RunsForever(d) {
      assert CursorAfter(d, MOD32).Some?;
      var i, j := LongReturns(d);
      CountGrows(d, i, j);
      TurnCounts(d, i, j, 0x8000_0000);
      assert CursorAfter(d, Turn(i, j - i, 0x8000_0000)).Some? && CursorAfter(d, j).Some?;
      assert ReturnsIdle(d, i, j);
    }
    if i: nat, j: nat :| ReturnsIdle(d, i, j) {
      forall k: nat ensures CountAfter(d, k) < 0x8000_0000 {
        TurnRange(i, j - i, k);
        TurnCounts(d, i, j, k);
        CountGrows(d, k, Turn(i, j - i, k));
      }
    }
  }

  // ----- pass 1 -----

  function Blocks(d: RelocDir): Result<seq<Block>, PeError> {
    BlocksFrom(d.g, d.raw, d.rva, d.size, 0, [])
  }

  /** The first `|seen|` rounds have read `seen`, and the cursor is at `c`. */
  predicate Reached(d: RelocDir, c: u32, seen: seq<Block>) {
    |seen| <= ROUNDS && CursorAfter(d, |seen|) == Some(c) && TotalEntries(seen) == CountAfter(d, |seen|) < 0x8000_0000
  }

  ghost predicate OverflowsBy(d: RelocDir, n: nat, k: nat) {
    n < k <= ROUNDS && CursorAfter(d, k).Some? && CountAfter(d, k) >= 0x8000_0000
  }

  lemma BlockAtError(d: RelocDir, c: u32)
    ensures Header(d, c).Err? ==> Header(d, c) == Err(Malformed)
  {
  }

  /** One more round. */
  lemma NextRound(d: RelocDir, c: u32, seen: seq<Block>)
    requires Reached(d, c, seen) && c < d.size && |seen| < ROUNDS
    ensures CursorAfter(d, |seen| + 1).Some? <==> Header(d, c).Ok?
    ensures Header(d, c).Ok? ==>
      var b := Header(d, c).value;
      && CursorAfter(d, |seen| + 1) == Some(Add32(c, b.size))
      && CountAfter(d, |seen| + 1) == TotalEntries(seen) + NumEntries(b) == TotalEntries(seen + [b])
  {
    hide BlockAt, Add32, NumEntries;
    if Header(d, c).Ok? {
      TotalEntriesSnoc(seen, Header(d, c).value);
    }
  }

  lemma {:induction false} OutcomeFrom(d: RelocDir, c: u32, seen: seq<Block>)
    requires Reached(d, c, seen)
    ensures var r := BlocksFrom(d.g, d.raw, d.rva, d.size, c, seen);
      && (r == Err(Endless) <==>
            CursorAfter(d, ROUNDS).Some? && CursorAfter(d, ROUNDS).value < d.size
            && CountAfter(d, ROUNDS) < 0x8000_0000)
      && (r == Err(CountOverflow) <==> exists k: nat :: OverflowsBy(d, |seen|, k))
    decreases ROUNDS - |seen|
  {
    hide BlockAt, Add32, NumEntries, CursorAfter, CountAfter, TotalEntries;
    if c >= d.size || |seen| == ROUNDS {
      StopsHere(d, |seen|);
    } else {
      NextRound(d, c, seen);
      BlockAtError(d, c);
      if Header(d, c).Err? {
        StopsAfter(d, |seen|);
      } else {
        var b := Header(d, c).value;
        if CountAfter(d, |seen| + 1) < 0x8000_0000 {
          OutcomeFrom(d, Add32(c, b.size), seen + [b]);
          OverflowLater(d, |seen|, |seen + [b]|);
        } else {
          CountGrows(d, |seen| + 1, ROUNDS);
          assert OverflowsBy(d, |seen|, |seen| + 1);
        }
      }
    }
  }

  lemma StopsHere(d: RelocDir, n: nat)
    requires n <= ROUNDS && CursorAfter(d, n).Some? && (CursorAfter(d, n).value >= d.size || n == ROUNDS)
    ensures n < ROUNDS ==> CursorAfter(d, ROUNDS).None?
    ensures !exists k: nat :: OverflowsBy(d, n, k)
  {
    hide Header, CountAfter, Add32;
    forall k: nat | n < k <= ROUNDS ensures CursorAfter(d, k).None? {
      if CursorAfter(d, k).Some? {
        Earlier(d, n, k);
      }
    }
  }

  lemma StopsAfter(d: RelocDir, n: nat)
    requires n < ROUNDS && CursorAfter(d, n + 1).None?
    ensures CursorAfter(d, ROUNDS).None?
    ensures !exists k: nat :: OverflowsBy(d, n, k)
  {
    hide CursorAfter, CountAfter;
    forall k: nat | n < k <= ROUNDS ensures CursorAfter(d, k).None? {
      if CursorAfter(d, k).Some? {
        Earlier(d, n + 1, k);
      }
    }
  }

  lemma OverflowLater(d: RelocDir, n: nat, m: nat)
    requires m == n + 1 <= ROUNDS && CountAfter(d, m) < 0x8000_0000
    ensures (exists k: nat :: OverflowsBy(d, n, k)) <==> exists k: nat :: OverflowsBy(d, m, k)
  {
    hide CursorAfter, CountAfter;
    if k: nat :| OverflowsBy(d, n, k) {
      assert OverflowsBy(d, m, k);
    }
    if k: nat :| OverflowsBy(d, m, k) {
      assert OverflowsBy(d, n, k);
    }
  }

  /** The outcomes `Endless` and `CountOverflow` stand for exactly the directories on which the
      C loop runs for ever, or its count overflows. */
  lemma EndlessExact(d: RelocDir)
    ensures Blocks(d) == Err(Endless) <==> RunsForever(d)
    ensures Blocks(d) == Err(CountOverflow) <==> Overflows(d)
  {
    hide BlocksFrom, CursorAfter, CountAfter, Header;
    AtFirst(d);
    OutcomeFrom(d, 0, []);
    if !Ends(d) {
      assert CursorAfter(d, ROUNDS).Some? && CursorAfter(d, ROUNDS + 1).Some?;
      Earlier(d, ROUNDS, ROUNDS + 1);
    }
    if CursorAfter(d, ROUNDS).Some? && CountAfter(d, ROUNDS) < 0x8000_0000 {
      LongRuns(d);
    }
    if k: nat :| CursorAfter(d, k).Some? && CountAfter(d, k) >= 0x8000_0000 {
      var l := if k <= ROUNDS then k else ROUNDS;
      Earlier(d, l, k);
      assert OverflowsBy(d, 0, l);
    }
  }

  lemma AtFirst(d: RelocDir)
    ensures Reached(d, 0, []) && CountAfter(d, 0) == 0
  {
  }

  /** The offset behind the first `k` blocks, as the code adds it up. */
  function Offset(bs: seq<Block>, k: nat): u32
    requires k <= |bs|
  {
    if k == 0 then 0 else Add32(Offset(bs, k - 1), bs[k - 1].size)
  }

  /** From offset 0 on, the directory shows the headers `bs`, each within its size. */
  ghost predicate Chain(d: RelocDir, bs: seq<Block>) {
    forall k :: 0 <= k < |bs| ==> Offset(bs, k) < d.size && Header(d, Offset(bs, k)) == Ok(bs[k])
  }

  lemma {:induction false} OffsetPrefix(bs: seq<Block>, cs: seq<Block>, k: nat)
    requires k <= |bs| && bs <= cs
    ensures Offset(cs, k) == Offset(bs, k)
  {
    if k > 0 {
      OffsetPrefix(bs, cs, k - 1);
    }
  }

  lemma {:induction false} ChainCursor(d: RelocDir, bs: seq<Block>, k: nat)
    requires Chain(d, bs) && k <= |bs|
    ensures CursorAfter(d, k) == Some(Offset(bs, k))
  {
    hide BlockAt, Add32;
    if k > 0 {
      ChainCursor(d, bs, k - 1);
    }
  }

  lemma OffsetNext(bs: seq<Block>, b: Block)
    ensures Offset(bs + [b], |bs| + 1) == Add32(Offset(bs, |bs|), b.size)
  {
    hide Add32;
    OffsetPrefix(bs, bs + [b], |bs|);
  }

  lemma ChainExtend(d: RelocDir, bs: seq<Block>, b: Block)
    requires Chain(d, bs) && Offset(bs, |bs|) < d.size && Header(d, Offset(bs, |bs|)) == Ok(b)
    ensures Chain(d, bs + [b]) && Offset(bs + [b], |bs| + 1) == Add32(Offset(bs, |bs|), b.size)
  {
    hide Header, Add32, Offset;
    var cs := bs + [b];
    forall k | 0 <= k < |cs|
      ensures Offset(cs, k) < d.size && Header(d, Offset(cs, k)) == Ok(cs[k])
    {
      OffsetPrefix(bs, cs, k);
    }
    OffsetNext(bs, b);
  }

  /** Pass 1 continues a chain to the end of the directory. */
  lemma {:induction false} BlocksAreChain(d: RelocDir, seen: seq<Block>, bs: seq<Block>)
    requires |seen| <= ROUNDS && Chain(d, seen) && TotalEntries(seen) < 0x8000_0000
    requires BlocksFrom(d.g, d.raw, d.rva, d.size, Offset(seen, |seen|), seen) == Ok(bs)
    ensures Chain(d, bs) && Offset(bs, |bs|) >= d.size && TotalEntries(bs) < 0x8000_0000
    decreases ROUNDS - |seen|
  {
    hide BlockAt, Add32, Chain, TotalEntries, NumEntries;
    var c := Offset(seen, |seen|);
    if c < d.size {
      var b := Header(d, c).value;
      ChainExtend(d, seen, b);
      TotalEntriesSnoc(seen, b);
      BlocksAreChain(d, seen + [b], bs);
    }
  }

  lemma ChainAt(d: RelocDir, bs: seq<Block>, n: nat)
    requires Chain(d, bs) && n < |bs|
    ensures Offset(bs, n) < d.size && Header(d, Offset(bs, n)) == Ok(bs[n])
    ensures Offset(bs, n + 1) == Add32(Offset(bs, n), bs[n].size)
  {
  }

  lemma {:induction false} ChainIsBlocks(d: RelocDir, bs: seq<Block>, n: nat)
    requires Chain(d, bs) && n <= |bs| <= ROUNDS && Offset(bs, |bs|) >= d.size && TotalEntries(bs) < 0x8000_0000
    ensures BlocksFrom(d.g, d.raw, d.rva, d.size, Offset(bs, n), bs[..n]) == Ok(bs)
    decreases |bs| - n
  {
    hide BlockAt, Add32, Chain, TotalEntries, NumEntries;
    if n < |bs| {
      ChainAt(d, bs, n);
      TotalEntriesUpTo(bs, n);
      ChainIsBlocks(d, bs, n + 1);
      assert bs[..n] + [bs[n]] == bs[..n + 1];
    } else {
      assert bs[..n] == bs;
    }
  }

  /** A chain that reaches the end of the directory is no longer than 2^32 blocks. */
  lemma ChainShort(d: RelocDir, bs: seq<Block>)
    requires Chain(d, bs) && Offset(bs, |bs|) >= d.size
    ensures |bs| <= MOD32
  {
    hide Chain, Offset, Returns, Header, Add32;
    ChainCursor(d, bs, |bs|);
    assert CursorAfter(d, |bs| + 1).None?;
    EndsExact(d);
    if |bs| > MOD32 {
      Earlier(d, MOD32, |bs|);
      var i, j := LongReturns(d);
      ReturnsBy(d, i, j);
    }
  }

  lemma ReturnsBy(d: RelocDir, i: nat, j: nat)
    requires i < j && CursorAfter(d, i).Some? && CursorAfter(d, i) == CursorAfter(d, j)
    ensures Returns(d)
  {
  }

  /** Pass 1 succeeds with `bs` exactly when the readable headers from offset 0 on are `bs`, lead
      to the end of the directory, and have fewer than 2^31 entries. */
  lemma BlocksExact(d: RelocDir, bs: seq<Block>)
    ensures Blocks(d) == Ok(bs) <==> Chain(d, bs) && Offset(bs, |bs|) >= d.size && TotalEntries(bs) < 0x8000_0000
  {
    hide BlocksFrom, Chain, NumEntries;
    EmptyChain(d);
    if Blocks(d) == Ok(bs) {
      BlocksAreChain(d, [], bs);
    }
    if Chain(d, bs) && Offset(bs, |bs|) >= d.size && TotalEntries(bs) < 0x8000_0000 {
      ChainShort(d, bs);
      ChainIsBlocks(d, bs, 0);
      assert bs[..0] == [];
    }
  }

  lemma EmptyChain(d: RelocDir)
    ensures Chain(d, [])
  {
  }

  /** Bytes of the blocks, without a width limit. */
  function TotalSize(bs: seq<Block>): nat {
    if bs == [] then 0 else TotalSize(bs[..|bs| - 1]) + bs[|bs| - 1].size
  }

  /** While the sizes fit in 32 bits, offsets are their sums and the counted entries fit an `int`. */
  lemma {:induction false} SizesFit(bs: seq<Block>)
    requires TotalSize(bs) < MOD32
    ensures Offset(bs, |bs|) == TotalSize(bs)
    ensures 2 * TotalEntries(bs) <= TotalSize(bs) && TotalEntries(bs) < 0x8000_0000
  {
    if bs != [] {
      SizesFit(bs[..|bs| - 1]);
      OffsetPrefix(bs[..|bs| - 1], bs, |bs| - 1);
    }
  }

  // ----- both passes -----

  /** File position of the entries of block `k`. */
  function EntriesAt(d: RelocDir, bs: seq<Block>, k: nat): (p: Option<nat>)
    requires k < |bs|
    ensures p.Some? ==> p.value + 2 * NumEntries(bs[k]) <= |d.raw|
  {
    Translate(d.g, Add32(Add32(d.rva, Offset(bs, k)), 8), 2 * NumEntries(bs[k]))
  }

  /** The HIGHLOW addresses of the first `n` blocks, in order. */
  function AddressesOf(d: RelocDir, bs: seq<Block>, n: nat): seq<u32>
    requires n <= |bs| && forall k :: 0 <= k < n ==> EntriesAt(d, bs, k).Some?
  {
    if n == 0 then []
    else
      var here := HighLows(d.raw, EntriesAt(d, bs, n - 1).value, 0, NumEntries(bs[n - 1]), bs[n - 1].pageRva);
      AddressesOf(d, bs, n - 1) + here
  }

  ghost predicate AllReadable(d: RelocDir, bs: seq<Block>) {
    forall k :: 0 <= k < |bs| ==> EntriesAt(d, bs, k).Some?
  }

  lemma {:induction false} EntriesMeaning(d: RelocDir, bs: seq<Block>, k: nat)
    requires k <= |bs| && forall j :: 0 <= j < k ==> EntriesAt(d, bs, j).Some?
    ensures EntriesFrom(d.g, d.raw, d.rva, Offset(bs, k), bs, k, AddressesOf(d, bs, k))
         == if AllReadable(d, bs) then Ok(AddressesOf(d, bs, |bs|)) else Err(Malformed)
    decreases |bs| - k
  {
    hide Translate, Add32, NumEntries, HighLows;
    if k < |bs| && EntriesAt(d, bs, k).Some? {
      EntriesMeaning(d, bs, k + 1);
    }
  }

  /** The relocations of the directory are `rs`: a chain of readable headers leads to its end,
      and unless it has no entries at all, those are readable and name `rs` in order. */
  ghost predicate RelocsAre(d: RelocDir, rs: seq<u32>) {
    if d.rva == 0 || d.size == 0 then rs == []
    else
      exists bs :: Accepted(d, bs) && NamedBy(d, bs, rs)
  }

  /** The blocks that pass 1 accepts, by `BlocksExact`. */
  ghost predicate Accepted(d: RelocDir, bs: seq<Block>) {
    Chain(d, bs) && Offset(bs, |bs|) >= d.size && TotalEntries(bs) < 0x8000_0000
  }

  ghost predicate NamedBy(d: RelocDir, bs: seq<Block>, rs: seq<u32>) {
    if TotalEntries(bs) == 0 then rs == [] else AllReadable(d, bs) && rs == AddressesOf(d, bs, |bs|)
  }

  /** The parser succeeds with `rs` exactly when those are the directory's relocations. */
  lemma RelocsExact(d: RelocDir, rs: seq<u32>)
    ensures Relocs(d.g, d.raw, d.rva, d.size) == Ok(rs) <==> RelocsAre(d, rs)
  {
    hide BlocksFrom, EntriesFrom, TotalEntries, Chain, Offset, AddressesOf, AllReadable;
    if d.rva != 0 && d.size != 0 {
      var r := Blocks(d);
      if r.Ok? {
        BlocksExact(d, r.value);
        NamedExact(d, r.value, rs);
        forall bs | Accepted(d, bs) ensures bs == r.value {
          BlocksExact(d, bs);
        }
      } else {
        forall bs ensures !Accepted(d, bs) {
          BlocksExact(d, bs);
        }
      }
    }
  }

  lemma NamedExact(d: RelocDir, bs: seq<Block>, rs: seq<u32>)
    ensures NamedBy(d, bs, rs) <==>
              (if TotalEntries(bs) == 0 then Ok([]) else EntriesFrom(d.g, d.raw, d.rva, 0, bs, 0, [])) == Ok(rs)
  {
    EntriesMeaning(d, bs, 0);
  }
}
