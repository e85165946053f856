/** The shim runtime's environment block and command line, both written in two passes. */
module ShimEnv {
  import opened Words
  import opened CStrings
  import opened ShimHeap

  const SPACE: byte := 0x20

  /** C strings without their terminators. */
  predicate NoneHasNul(ss: seq<seq<byte>>) {
    forall i :: 0 <= i < |ss| ==> NoNul(ss[i])
  }

  // ----- the environment block -----

  /** Each string with its terminator. */
  function Ended(ss: seq<seq<byte>>): seq<byte> {
    if ss == [] then [] else Ended(ss[..|ss| - 1]) + ss[|ss| - 1] + [0]
  }

  /** The strings one after the other, and one more NUL. */
  function EnvBytes(ss: seq<seq<byte>>): seq<byte> {
    Ended(ss) + [0]
  }

  /** The number of bytes that the first pass counts. */
  function TotalSize(ss: seq<seq<byte>>): (n: nat)
    ensures n >= 1
  {
    if ss == [] then 1 else TotalSize(ss[..|ss| - 1]) + |ss[|ss| - 1]| + 1
  }

  /** The second pass writes exactly the bytes that the first one counted. */
  lemma {:induction false} BlockFills(ss: seq<seq<byte>>)
    ensures |EnvBytes(ss)| == TotalSize(ss)
  {
    if ss != [] {
      BlockFills(ss[..|ss| - 1]);
    }
  }

  lemma {:induction false} TotalGrows(ss: seq<seq<byte>>, n: nat)
    requires n < |ss|
    ensures TotalSize(ss[..n]) + |ss[n]| + 1 == TotalSize(ss[..n + 1]) <= TotalSize(ss)
    decreases |ss|
  {
    if n + 1 < |ss| {
      TotalGrows(ss[..|ss| - 1], n);
      assert ss[..|ss| - 1][..n] == ss[..n] && ss[..|ss| - 1][..n + 1] == ss[..n + 1];
    } else {
      assert ss[..n + 1] == ss;
    }
    assert ss[..n + 1][..n] == ss[..n];
  }

  lemma EndedStep(ss: seq<seq<byte>>, n: nat)
    requires n < |ss|
    ensures Ended(ss[..n + 1]) == Ended(ss[..n]) + ss[n] + [0]
  {
    assert ss[..n + 1][..n] == ss[..n];
  }

  /** The inner copying loop of both second passes. */
  method CopyTo(heap: Heap, p: u32, start: nat, s: seq<byte>) returns (pos: nat)
    requires heap.mem.Length == MOD32 && start + |s| < MOD32
    modifies heap.mem
    ensures pos == start + |s|
    ensures heap.mem[..] == Stored(old(heap.mem[..]), Add32(p, start), s)
  {
    pos := start;
    var j := 0;
    while j < |s|
      invariant 0 <= j <= |s| && pos == start + j
      invariant heap.mem[..] == Stored(old(heap.mem[..]), Add32(p, start), s[..j])
    {
      heap.mem[Add32(p, pos)] := s[j];
      assert s[..j + 1][..j] == s[..j];
      pos := pos + 1;
      j := j + 1;
    }
    assert s[..j] == s;
  }

  /** Storing one more byte. */
  method PutByte(heap: Heap, p: u32, pos: u32, c: byte)
    requires heap.mem.Length == MOD32
    modifies heap.mem
    ensures heap.mem[..] == Stored(old(heap.mem[..]), Add32(p, pos), [c])
  {
    assert Stored(heap.mem[..], Add32(p, pos), []) == heap.mem[..];
    heap.mem[Add32(p, pos)] := c;
  }

  class Environment {
    const envp: seq<seq<byte>>
    const heap: Heap
    var block: u32

    constructor (envp: seq<seq<byte>>, heap: Heap)
      ensures this.envp == envp && this.heap == heap && block == 0
    {
      this.envp, this.heap := envp, heap;
      block := 0;
    }

    /** `shim_env_block`; the answer 0 stands for the static empty string. */
    method EnvBlock(brk: Brk) returns (b: u32)
      requires heap.mem.Length == MOD32 && TotalSize(envp) < MOD32
      modifies this, heap, heap.mem
      ensures b == block && |EnvBytes(envp)| == TotalSize(envp)
      ensures old(block) != 0 ==>
                block == old(block) && heap.State() == old(heap.State()) && heap.mem[..] == old(heap.mem[..])
      ensures old(block) == 0 ==>
                && (heap.State(), b) == Allocate(old(heap.State()), TotalSize(envp), brk)
                && heap.mem[..] == if b == 0 then old(heap.mem[..]) else Stored(old(heap.mem[..]), b, EnvBytes(envp))
    {
      BlockFills(envp);
      if block != 0 {
        return block;
      }
      hide Stored, Allocate;
      var total, n := 1, 0;
      while n < |envp|
        invariant 0 <= n <= |envp| && total == TotalSize(envp[..n]) && block == 0
        invariant heap.State() == old(heap.State()) && heap.mem[..] == old(heap.mem[..])
      {
        TotalGrows(envp, n);
        total := total + |envp[n]| + 1;
        n := n + 1;
      }
      assert envp[..n] == envp;
      b := heap.Alloc(total, brk);
      block := b;
      if b != 0 {
        Fill(b);
      }
    }

    /** The second pass of `shim_env_block`. */
    method Fill(b: u32)
      requires heap.mem.Length == MOD32 && TotalSize(envp) < MOD32 && |EnvBytes(envp)| < MOD32
      modifies heap.mem
      ensures heap.mem[..] == Stored(old(heap.mem[..]), b, EnvBytes(envp))
    {
      hide Stored;
      ghost var m := heap.mem[..];
      var pos, i := 0, 0;
      assert envp[..0] == [] && envp[..|envp|] == envp;
      NothingStored(m, b);
      while i < |envp|
        invariant 0 <= i <= |envp| && pos == |Ended(envp[..i])| && pos + 1 == TotalSize(envp[..i]) < MOD32
        invariant heap.mem[..] == Stored(m, b, Ended(envp[..i]))
      {
        TotalGrows(envp, i);
        EndedStep(envp, i);
        StoredConcat(m, b, Ended(envp[..i]), envp[i]);
        pos := CopyTo(heap, b, pos, envp[i]);
        StoredConcat(m, b, Ended(envp[..i]) + envp[i], [0]);
        PutByte(heap, b, pos, 0);
        pos := pos + 1;
        i := i + 1;
      }
      StoredConcat(m, b, Ended(envp), [0]);
      PutByte(heap, b, pos, 0);
    }
  }

  lemma NothingStored(m: seq<byte>, a: u32)
    requires |m| == MOD32
    ensures Stored(m, a, []) == m
  {
  }

  /** Reads strings from `o` on until an empty one. */
  function ReadStrings(b: seq<byte>, o: nat): (r: seq<seq<byte>>)
    ensures forall i :: 0 <= i < |r| ==> r[i] != []
    decreases |b| - o
  {
    if o >= |b| || b[o] == 0 then []
    else
      var s := CStrAt(b, o);
      [s] + ReadStrings(b, o + |s| + 1)
  }

  /** The strings before the first empty one. */
  function BeforeEmpty(ss: seq<seq<byte>>): (r: seq<seq<byte>>)
    ensures |r| <= |ss| && r == ss[..|r|]
    ensures forall i :: 0 <= i < |r| ==> r[i] != []
    ensures |r| < |ss| ==> ss[|r|] == []
  {
    if ss == [] || ss[0] == [] then [] else [ss[0]] + BeforeEmpty(ss[1..])
  }

  lemma {:induction false} EndedFront(ss: seq<seq<byte>>)
    requires ss != []
    ensures Ended(ss) == ss[0] + [0] + Ended(ss[1..])
  {
    var n := |ss| - 1;
    if n == 0 {
      assert ss[1..] == [] && ss[..0] == [];
    } else {
      var tail := ss[1..];
      EndedFront(ss[..n]);
      assert ss[..n][1..] == tail[..n - 1] && tail[n - 1] == ss[n];
      var a, b := ss[0] + [0], Ended(tail[..n - 1]);
      ConcatAssoc(a, b, ss[n]);
      ConcatAssoc(a, b + ss[n], [0]);
    }
  }

  lemma BytesFront(ss: seq<seq<byte>>)
    requires ss != []
    ensures EnvBytes(ss) == ss[0] + ([0] + EnvBytes(ss[1..]))
  {
    hide Ended;
    EndedFront(ss);
  }

  /** The first string of a block that stands at `o`, and the block behind it. */
  lemma BlockFront(b: seq<byte>, o: nat, ss: seq<seq<byte>>)
    requires NoneHasNul(ss) && ss != [] && o + |EnvBytes(ss)| <= |b| && b[o..o + |EnvBytes(ss)|] == EnvBytes(ss)
    ensures o + |ss[0]| + 1 <= |b| && CStrAt(b, o) == ss[0] && (b[o] == 0 <==> ss[0] == [])
    ensures var n, t := o + |ss[0]| + 1, EnvBytes(ss[1..]); n + |t| <= |b| && b[n..n + |t|] == t
  {
    hide EnvBytes, CStrAt, Ended;
    BytesFront(ss);
    var s, tail := ss[0], EnvBytes(ss[1..]);
    SplitSlice(b, o, s, [0] + tail);
    SplitSlice(b, o + |s|, [0], tail);
    assert b[o + |s|] == b[o + |s|..o + |s| + 1][0] == 0;
    assert s != [] ==> b[o] == b[o..o + |s|][0] == s[0];
    CStrAtStops(b, o, s);
  }

  lemma {:induction false} ReadFrom(b: seq<byte>, o: nat, ss: seq<seq<byte>>)
    requires NoneHasNul(ss) && o + |EnvBytes(ss)| <= |b| && b[o..o + |EnvBytes(ss)|] == EnvBytes(ss)
    ensures ReadStrings(b, o) == BeforeEmpty(ss)
    decreases |ss|
  {
    if ss == [] {
      assert b[o..o + 1][0] == b[o];
    } else {
      hide EnvBytes, CStrAt;
      BlockFront(b, o, ss);
      if ss[0] != [] {
        ReadFrom(b, o + |ss[0]| + 1, ss[1..]);
      }
    }
  }

  /** Reading the block at `p` gives the strings before the first empty one: all of them exactly
      when none is empty. */
  lemma {:induction false} BlockRoundTrip(m: seq<byte>, p: u32, ss: seq<seq<byte>>)
    requires |m| == MOD32 && NoneHasNul(ss) && p + |EnvBytes(ss)| <= MOD32
    ensures ReadStrings(Stored(m, p, EnvBytes(ss)), p) == BeforeEmpty(ss)
    ensures ReadStrings(Stored(m, p, EnvBytes(ss)), p) == ss <==> [] !in ss
  {
    hide Stored, EnvBytes, ReadStrings;
    var s := EnvBytes(ss);
    var b := Stored(m, p, s);
    StoredSlice(m, p, s);
    ReadFrom(b, p, ss);
  }

  // ----- the command line -----

  /** The arguments with one space between each two. */
  function Joined(args: seq<seq<byte>>): seq<byte> {
    if args == [] then []
    else if |args| == 1 then args[0]
    else Joined(args[..|args| - 1]) + [SPACE] + args[|args| - 1]
  }

  lemma {:induction false} JoinedSize(args: seq<seq<byte>>)
    ensures |Joined(args)| + (if args == [] then 1 else 2) == TotalSize(args)
  {
    if |args| > 1 {
      JoinedSize(args[..|args| - 1]);
    } else if |args| == 1 {
      assert args[..0] == [];
    }
  }

  lemma JoinedStep(args: seq<seq<byte>>, n: nat)
    requires n < |args|
    ensures Joined(args[..n + 1]) == (if n == 0 then [] else Joined(args[..n]) + [SPACE]) + args[n]
  {
    assert args[..n + 1][..n] == args[..n];
  }

  /** The command line of `shim_startup_init`: the joined arguments, terminated, in a block of the
      counted size; none when the heap cannot grant it. */
  method CommandLine(heap: Heap, argv: seq<seq<byte>>, brk: Brk) returns (line: u32)
    requires heap.mem.Length == MOD32 && TotalSize(argv) < MOD32
    modifies heap, heap.mem
    ensures |Joined(argv)| < TotalSize(argv)
    ensures (heap.State(), line) == Allocate(old(heap.State()), TotalSize(argv), brk)
    ensures heap.mem[..] == if line == 0 then old(heap.mem[..]) else Stored(old(heap.mem[..]), line, Joined(argv) + [0])
  {
    JoinedSize(argv);
    hide Stored, Allocate;
    var total, i := 1, 0;
    while i < |argv|
      invariant 0 <= i <= |argv| && total == TotalSize(argv[..i])
      invariant heap.State() == old(heap.State()) && heap.mem[..] == old(heap.mem[..])
    {
      TotalGrows(argv, i);
      total := total + |argv[i]| + 1;
      i := i + 1;
    }
    assert argv[..i] == argv;
    line := heap.Alloc(total, brk);
    if line != 0 {
      Join(heap, line, argv);
    }
  }

  /** The second pass over the arguments. */
  method Join(heap: Heap, line: u32, argv: seq<seq<byte>>)
    requires heap.mem.Length == MOD32 && TotalSize(argv) < MOD32 && |Joined(argv)| < TotalSize(argv)
    modifies heap.mem
    ensures heap.mem[..] == Stored(old(heap.mem[..]), line, Joined(argv) + [0])
  {
    hide Stored;
    ghost var m := heap.mem[..];
    var pos, i := 0, 0;
    NothingStored(m, line);
    while i < |argv|
      invariant 0 <= i <= |argv| && pos == |Joined(argv[..i])| && pos + 1 <= TotalSize(argv[..i]) < MOD32
      invariant heap.mem[..] == Stored(m, line, Joined(argv[..i]))
    {
      TotalGrows(argv, i);
      JoinedStep(argv, i);
      JoinedSize(argv[..i]);
      JoinedSize(argv[..i + 1]);
      ghost var before := Joined(argv[..i]);
      if i > 0 {
        StoredConcat(m, line, before, [SPACE]);
        PutByte(heap, line, pos, SPACE);
        before := before + [SPACE];
        pos := pos + 1;
      }
      StoredConcat(m, line, before, argv[i]);
      pos := CopyTo(heap, line, pos, argv[i]);
      assert Joined(argv[..i + 1]) == before + argv[i];
      i := i + 1;
    }
    assert argv[..i] == argv;
    StoredConcat(m, line, Joined(argv), [0]);
    PutByte(heap, line, pos, 0);
  }

  /** The pieces between spaces. */
  function SplitSpaces(s: seq<byte>): (r: seq<seq<byte>>)
    ensures |r| > 0 && forall i :: 0 <= i < |r| ==> ' ' as int !in r[i]
  {
    if s == [] then [[]]
    else
      var r := SplitSpaces(s[..|s| - 1]);
      var c := s[|s| - 1];
      if c == ' ' as int then r + [[]] else r[..|r| - 1] + [r[|r| - 1] + [c]]
  }

  lemma {:induction false} SplitWord(s: seq<byte>, w: seq<byte>)
    requires ' ' as int !in w
    ensures SplitSpaces(s + [' ' as int] + w) == SplitSpaces(s) + [w]
    ensures SplitSpaces(w) == [w]
    decreases |w|
  {
    var t := s + [' ' as int] + w;
    var n := |t| - 1;
    if w == [] {
      assert t[..n] == s && t[n] == ' ' as int;
    } else {
      var v := w[..|w| - 1];
      SplitWord(s, v);
      assert t[..n] == s + [' ' as int] + v && t[n] == w[|w| - 1];
      assert v + [w[|w| - 1]] == w;
      var r := SplitSpaces(s) + [v];
      assert r[..|r| - 1] == SplitSpaces(s);
    }
  }

  lemma {:induction false} WordsSplit(args: seq<seq<byte>>)
    requires args != [] && forall i :: 0 <= i < |args| ==> ' ' as int !in args[i]
    ensures SplitSpaces(Joined(args)) == args
  {
    hide SplitSpaces;
    var n := |args| - 1;
    if n == 0 {
      SplitWord([], args[0]);
    } else {
      SplitWord(Joined(args[..n]), args[n]);
      WordsSplit(args[..n]);
      assert args[..n] + [args[n]] == args;
    }
  }

  /** The program gets its arguments back by splitting at spaces exactly when no argument contains one. */
  lemma {:induction false} CommandLineSplits(args: seq<seq<byte>>)
    ensures SplitSpaces(Joined(args)) == args <==> args != [] && forall i :: 0 <= i < |args| ==> ' ' as int !in args[i]
  {
    if args != [] && forall i :: 0 <= i < |args| ==> ' ' as int !in args[i] {
      WordsSplit(args);
    }
  }
}
