/** src/pe_relocs.c: the two-pass base-relocation parser and the TLS callback walk. */
module PeRelocs {
  import opened Words
  import opened PeImage

  const REL_BASED_ABSOLUTE := 0
  const REL_BASED_HIGHLOW := 3

  // ----- what the directory holds -----

  datatype Block = Block(pageRva: u32, size: u32)

  /** Number of 16-bit entries that follow the 8-byte header. */
  function NumEntries(b: Block): (n: nat)
    ensures b.size >= 8 ==> 8 + 2 * n <= b.size < 8 + 2 * n + 2
  {
    if b.size < 8 then 0 else (b.size - 8) / 2
  }

  function BlockAt(g: Geometry, raw: seq<byte>, rva: u32): (r: Result<Block, PeError>)
    requires |raw| == g.rawSize
    ensures r.Ok? ==> r.value.size >= 8
  {
    var p := Translate(g, rva, 8);
    if p.None? || Word(raw, p.value + 4) < 8 then Err(Malformed)
    else Ok(Block(Word(raw, p.value), Word(raw, p.value + 4)))
  }

  function TotalEntries(bs: seq<Block>): nat {
    if bs == [] then 0 else TotalEntries(bs[..|bs| - 1]) + NumEntries(bs[|bs| - 1])
  }

  /** The first count that the C `int` does not hold. */
  const COUNT_LIMIT := 0x8000_0000

  /** After so many rounds the cursor has gone in a circle so often that the count would have
      overflowed if the circle had any entries. */
  const ROUNDS: nat := 0x8000_0000 * 0x1_0000_0000 + 0x1_0000_0000

  /** Pass 1 from offset `consumed` of the directory on: `seen`, then the blocks found there. */
  function BlocksFrom(g: Geometry, raw: seq<byte>, dirRva: u32, dirSize: u32, consumed: u32,
                      seen: seq<Block>): Result<seq<Block>, PeError>
    requires |raw| == g.rawSize && |seen| <= ROUNDS
    decreases ROUNDS - |seen|
  {
    if consumed >= dirSize then Ok(seen)
    else if |seen| == ROUNDS then Err(Endless)
    else
      var b := BlockAt(g, raw, Add32(dirRva, consumed));
      if b.Err? then Err(b.error)
      else if TotalEntries(seen) + NumEntries(b.value) >= COUNT_LIMIT then Err(CountOverflow)
      else BlocksFrom(g, raw, dirRva, dirSize, Add32(consumed, b.value.size), seen + [b.value])
  }

  /** Addresses of the HIGHLOW entries from index `i` of `n` on, stored at file offset `p`. */
  function HighLows(raw: seq<byte>, p: nat, i: nat, n: nat, pageRva: u32): (rs: seq<u32>)
    requires i <= n && p + 2 * n <= |raw|
    ensures |rs| <= n - i
    decreases n - i
  {
    if i == n then []
    else
      var e := Half(raw, p + 2 * i);
      (if e / 0x1000 == REL_BASED_HIGHLOW then [Add32(pageRva, e % 0x1000)] else [])
      + HighLows(raw, p, i + 1, n, pageRva)
  }

  /** Pass 2 over the blocks from `k` on: `acc`, then the addresses they name. */
  function EntriesFrom(g: Geometry, raw: seq<byte>, dirRva: u32, consumed: u32, bs: seq<Block>, k: nat,
                       acc: seq<u32>): Result<seq<u32>, PeError>
    requires |raw| == g.rawSize && k <= |bs|
    decreases |bs| - k
  {
    if k == |bs| then Ok(acc)
    else
      var n := NumEntries(bs[k]);
      var p := Translate(g, Add32(Add32(dirRva, consumed), 8), 2 * n);
      if p.None? then Err(Malformed)
      else
        var here := HighLows(raw, p.value, 0, n, bs[k].pageRva);
        EntriesFrom(g, raw, dirRva, Add32(consumed, bs[k].size), bs, k + 1, acc + here)
  }

  function Relocs(g: Geometry, raw: seq<byte>, dirRva: u32, dirSize: u32): Result<seq<u32>, PeError>
    requires |raw| == g.rawSize
  {
    if dirRva == 0 || dirSize == 0 then Ok([])
    else
      var bs := BlocksFrom(g, raw, dirRva, dirSize, 0, []);
      if bs.Err? then Err(bs.error)
      else if TotalEntries(bs.value) == 0 then Ok([])
      else EntriesFrom(g, raw, dirRva, 0, bs.value, 0, [])
  }

  // ----- pe_parse_relocs_dir -----

  /** `memcpy` of a block header. */
  method ReadBlock(raw: seq<byte>, p: nat) returns (b: Block)
    requires p + 8 <= |raw|
    ensures b == Block(Word(raw, p), Word(raw, p + 4))
  {
    b := Block(Word(raw, p), Word(raw, p + 4));
  }

  /** A block header that pass 1 accepts. */
  method CheckedBlock(img: Image, raw: seq<byte>, rva: u32) returns (b: Result<Block, PeError>)
    requires |raw| == img.raw.Length
    ensures b == BlockAt(img.Geo(), raw, rva)
  {
    var bp := img.RvaToPtr(rva, 8);
    if bp.None? {
      return Err(Malformed);
    }
    var blk := ReadBlock(raw, bp.value);
    return if blk.size < 8 then Err(Malformed) else Ok(blk);
  }

  /** What pass 1 computes from the blocks. */
  function EntryCount(bs: Result<seq<Block>, PeError>): Result<nat, PeError> {
    if bs.Ok? then Ok(TotalEntries(bs.value)) else Err(bs.error)
  }

  lemma TotalEntriesSnoc(bs: seq<Block>, b: Block)
    ensures TotalEntries(bs + [b]) == TotalEntries(bs) + NumEntries(b)
    ensures TotalEntries([]) == 0
  {
    assert (bs + [b])[..|bs|] == bs;
  }

  /** Pass 1: counts the entries. */
  method CountEntries(img: Image, raw: seq<byte>, dirRva: u32, dirSize: u32) returns (r: Result<nat, PeError>)
    requires |raw| == img.raw.Length
    ensures r == EntryCount(BlocksFrom(img.Geo(), raw, dirRva, dirSize, 0, []))
    ensures r.Ok? ==> r.value < COUNT_LIMIT
  {
    hide BlockAt, Add32, NumEntries, TotalEntries;
    ghost var g := img.Geo();
    var consumed: u32, count := 0, 0;
    var rounds := 0;
    ghost var seen: seq<Block> := [];
    TotalEntriesSnoc([], Block(0, 0));
    while consumed < dirSize
      invariant rounds == |seen| <= ROUNDS
      invariant BlocksFrom(g, raw, dirRva, dirSize, 0, []) == BlocksFrom(g, raw, dirRva, dirSize, consumed, seen)
      invariant count == TotalEntries(seen) < COUNT_LIMIT
      decreases ROUNDS - rounds
    {
      if rounds == ROUNDS {
        return Err(Endless);
      }
      var b := CheckedBlock(img, raw, Add32(dirRva, consumed));
      if b.Err? {
        return Err(b.error);
      }
      if count + NumEntries(b.value) >= COUNT_LIMIT {
        return Err(CountOverflow);
      }
      TotalEntriesSnoc(seen, b.value);
      count := count + NumEntries(b.value);
      seen := seen + [b.value];
      consumed := Add32(consumed, b.value.size);
      rounds := rounds + 1;
    }
    return Ok(count);
  }

  /** Blocks once seen stay at the front of the result. */
  lemma {:induction false} BlocksExtend(g: Geometry, raw: seq<byte>, dirRva: u32, dirSize: u32, consumed: u32,
                                        seen: seq<Block>)
    requires |raw| == g.rawSize && |seen| <= ROUNDS && BlocksFrom(g, raw, dirRva, dirSize, consumed, seen).Ok?
    ensures seen <= BlocksFrom(g, raw, dirRva, dirSize, consumed, seen).value
    decreases ROUNDS - |seen|
  {
    if consumed < dirSize {
      var b := BlockAt(g, raw, Add32(dirRva, consumed)).value;
      hide BlockAt;
      BlocksExtend(g, raw, dirRva, dirSize, Add32(consumed, b.size), seen + [b]);
    }
  }

  /** Pass 2 stands where pass 1 stood after the blocks `bs[..k]`. */
  ghost predicate AtBlock(g: Geometry, raw: seq<byte>, dirRva: u32, dirSize: u32, consumed: u32, bs: seq<Block>, k: nat)
    requires |raw| == g.rawSize
  {
    k <= |bs| && k <= ROUNDS && BlocksFrom(g, raw, dirRva, dirSize, consumed, bs[..k]) == Ok(bs)
  }

  /** Before the end of the directory the next block is one that pass 1 checked. */
  lemma NextBlock(g: Geometry, raw: seq<byte>, dirRva: u32, dirSize: u32, consumed: u32, bs: seq<Block>, k: nat)
    requires |raw| == g.rawSize && AtBlock(g, raw, dirRva, dirSize, consumed, bs, k) && consumed < dirSize
    ensures k < |bs| && BlockAt(g, raw, Add32(dirRva, consumed)) == Ok(bs[k])
    ensures AtBlock(g, raw, dirRva, dirSize, Add32(consumed, bs[k].size), bs, k + 1)
  {
    var b := BlockAt(g, raw, Add32(dirRva, consumed)).value;
    hide BlockAt;
    BlocksExtend(g, raw, dirRva, dirSize, Add32(consumed, b.size), bs[..k] + [b]);
    assert bs[..k + 1] == bs[..k] + [b];
  }

  lemma {:induction false} TotalEntriesUpTo(bs: seq<Block>, k: nat)
    requires k < |bs|
    ensures TotalEntries(bs[..k + 1]) == TotalEntries(bs[..k]) + NumEntries(bs[k])
    ensures TotalEntries(bs[..k + 1]) <= TotalEntries(bs)
  {
    assert bs[..k + 1][..k] == bs[..k];
    if k + 1 < |bs| {
      TotalEntriesUpTo(bs[..|bs| - 1], k);
      assert bs[..|bs| - 1][..k + 1] == bs[..k + 1];
    } else {
      assert bs[..k + 1] == bs;
    }
  }

  /** Pass 2 reads a header without looking at the pointer, so the pointer must be non-null. */
  method UncheckedBlock(img: Image, raw: seq<byte>, rva: u32) returns (b: Block)
    requires |raw| == img.raw.Length && BlockAt(img.Geo(), raw, rva).Ok?
    ensures Ok(b) == BlockAt(img.Geo(), raw, rva)
  {
    var bp := img.RvaToPtr(rva, 8);
    b := ReadBlock(raw, bp.value);
  }

  /** The entry loop of one block: writes behind the first `start` entries of `out`. */
  method FillBlock(raw: seq<byte>, out: array<u32>, start: nat, p: nat, n: nat, pageRva: u32) returns (idx: nat)
    requires p + 2 * n <= |raw| && start + n <= out.Length
    modifies out
    ensures start <= idx <= start + n
    ensures out[..idx] == old(out[..start]) + HighLows(raw, p, 0, n, pageRva)
  {
    ghost var all := out[..start] + HighLows(raw, p, 0, n, pageRva);
    hide Half, Add32;
    idx := start;
    for i := 0 to n
      invariant start <= idx <= start + i
      invariant out[..idx] + HighLows(raw, p, i, n, pageRva) == all
    {
      var e := Half(raw, p + 2 * i);
      var kind, offset := e / 0x1000, e % 0x1000;
      if kind == REL_BASED_ABSOLUTE {
        continue;
      }
      if kind == REL_BASED_HIGHLOW {
        out[idx] := Add32(pageRva, offset);
        idx := idx + 1;
      }
    }
  }

  lemma AtStart(g: Geometry, raw: seq<byte>, dirRva: u32, dirSize: u32, bs: seq<Block>)
    requires |raw| == g.rawSize && BlocksFrom(g, raw, dirRva, dirSize, 0, []) == Ok(bs)
    ensures AtBlock(g, raw, dirRva, dirSize, 0, bs, 0) && TotalEntries(bs[..0]) == 0
  {
  }

  /** Pass 2 over the blocks `bs` of pass 1: no block pointer is null, though
      none is checked, and `idx` stays within the counted size. */
  method FillEntries(img: Image, raw: seq<byte>, dirRva: u32, dirSize: u32, out: array<u32>, ghost bs: seq<Block>)
    returns (err: Option<PeError>, idx: nat)
    requires |raw| == img.raw.Length && BlocksFrom(img.Geo(), raw, dirRva, dirSize, 0, []) == Ok(bs)
    requires out.Length == TotalEntries(bs)
    modifies out
    ensures idx <= out.Length
    ensures EntriesFrom(img.Geo(), raw, dirRva, 0, bs, 0, []) == if err.None? then Ok(out[..idx]) else Err(err.value)
  {
    hide BlockAt, BlocksFrom, TotalEntries, NumEntries, Translate, HighLows, AtBlock;
    ghost var g := img.Geo();
    var consumed: u32, k := 0, 0;
    idx := 0;
    AtStart(g, raw, dirRva, dirSize, bs);
    while consumed < dirSize
      invariant k <= |bs| && AtBlock(g, raw, dirRva, dirSize, consumed, bs, k)
      invariant idx <= TotalEntries(bs[..k]) && idx <= out.Length
      invariant EntriesFrom(g, raw, dirRva, 0, bs, 0, []) == EntriesFrom(g, raw, dirRva, consumed, bs, k, out[..idx])
      decreases |bs| - k
    {
      NextBlock(g, raw, dirRva, dirSize, consumed, bs, k);
      TotalEntriesUpTo(bs, k);
      var blk := UncheckedBlock(img, raw, Add32(dirRva, consumed));
      var n := NumEntries(blk);
      EntrySpace(blk);
      var entries := img.RvaToPtr(Add32(Add32(dirRva, consumed), 8), 2 * n);
      if entries.None? {
        return Some(Malformed), idx;
      }
      idx := FillBlock(raw, out, idx, entries.value, n, blk.pageRva);
      consumed := Add32(consumed, blk.size);
      k := k + 1;
    }
    AllBlocksSeen(g, raw, dirRva, dirSize, consumed, bs, k);
    return None, idx;
  }

  lemma EntrySpace(b: Block)
    ensures 2 * NumEntries(b) < MOD32
  {
  }

  lemma AllBlocksSeen(g: Geometry, raw: seq<byte>, dirRva: u32, dirSize: u32, consumed: u32, bs: seq<Block>, k: nat)
    requires |raw| == g.rawSize && AtBlock(g, raw, dirRva, dirSize, consumed, bs, k) && consumed >= dirSize
    ensures k == |bs|
  {
  }

  method ParseRelocs(img: Image, raw: seq<byte>, dirRva: u32, dirSize: u32) returns (err: Option<PeError>)
    requires |raw| == img.raw.Length && img.relocs == []
    modifies img`relocs
    ensures var r := Relocs(img.Geo(), raw, dirRva, dirSize);
      && (r.Ok? ==> err == None && img.relocs == r.value)
      && (r.Err? ==> err == Some(r.error) && img.relocs == [])
  {
    hide BlocksFrom, EntriesFrom, TotalEntries;
    if dirRva == 0 || dirSize == 0 {
      return None;
    }
    var count := CountEntries(img, raw, dirRva, dirSize);
    if count.Err? {
      return Some(count.error);
    }
    if count.value == 0 {
      return None;
    }
    ghost var bs := BlocksFrom(img.Geo(), raw, dirRva, dirSize, 0, []).value;
    var relocs := new u32[count.value];
    var e, idx := FillEntries(img, raw, dirRva, dirSize, relocs, bs);
    if e.Some? {
      return e;
    }
    img.relocs := relocs[..idx];
    return None;
  }

  // ----- pe_parse_tls_dir -----

  const MAX_TLS_CALLBACKS := 16

  /** The callback walk from index `|acc|` on: `acc`, then the callback RVAs found there. */
  function CallbacksFrom(g: Geometry, raw: seq<byte>, arrRva: u32, acc: seq<u32>): (r: Result<seq<u32>, PeError>)
    requires |raw| == g.rawSize && |acc| <= MAX_TLS_CALLBACKS
    decreases MAX_TLS_CALLBACKS - |acc|
  {
    var p := Translate(g, Add32(arrRva, 4 * |acc|), 4);
    if p.None? then Err(Malformed)
    else
      var cb := Word(raw, p.value);
      if cb == 0 then Ok(acc)
      else if cb < g.imageBase || |acc| >= MAX_TLS_CALLBACKS then Err(Malformed)
      else CallbacksFrom(g, raw, arrRva, acc + [cb - g.imageBase])
  }

  /** Callback RVAs of the TLS directory, none without a directory or a callback array. */
  function Tls(g: Geometry, raw: seq<byte>, dirRva: u32, dirSize: u32): Result<seq<u32>, PeError>
    requires |raw| == g.rawSize
  {
    if dirRva == 0 || dirSize == 0 then Ok([])
    else
      var p := Translate(g, dirRva, 24);
      if p.None? then Err(Malformed)
      else
        var listVa := Word(raw, p.value + 12);
        if listVa == 0 then Ok([])
        else if listVa < g.imageBase then Err(Malformed)
        else CallbacksFrom(g, raw, listVa - g.imageBase, [])
  }

  // ----- what the callback walk finds -----

  /** The array at `arrRva` holds the addresses of the callbacks `cbs`, at most 16, and then a zero. */
  predicate CallbackTableIs(g: Geometry, raw: seq<byte>, arrRva: u32, cbs: seq<u32>)
    requires |raw| == g.rawSize
  {
    && |cbs| <= 16
    && (forall k :: 0 <= k < |cbs| ==> CallbackAt(g, raw, arrRva, k, cbs[k]))
    && WordAt(g, raw, Add32(arrRva, 4 * |cbs|)) == Some(0)
  }

  predicate CallbackAt(g: Geometry, raw: seq<byte>, arrRva: u32, k: nat, cb: u32)
    requires |raw| == g.rawSize && k < MAX_TLS_CALLBACKS
  {
    var w := WordAt(g, raw, Add32(arrRva, 4 * k));
    w.Some? && w.value != 0 && w.value == cb + g.imageBase
  }

  lemma {:induction false} CallbacksOfTable(g: Geometry, raw: seq<byte>, arrRva: u32, cbs: seq<u32>, n: nat)
    requires |raw| == g.rawSize && n <= |cbs| && CallbackTableIs(g, raw, arrRva, cbs)
    ensures CallbacksFrom(g, raw, arrRva, cbs[..n]) == Ok(cbs)
    decreases |cbs| - n
  {
    hide Translate, Add32, Word;
    if n < |cbs| {
      assert CallbackAt(g, raw, arrRva, n, cbs[n]);
      assert cbs[..n] + [cbs[n]] == cbs[..n + 1];
      CallbacksOfTable(g, raw, arrRva, cbs, n + 1);
    } else {
      assert cbs[..n] == cbs;
    }
  }

  lemma {:induction false} CallbacksAreTable(g: Geometry, raw: seq<byte>, arrRva: u32, acc: seq<u32>, cbs: seq<u32>)
    requires |raw| == g.rawSize && |acc| <= MAX_TLS_CALLBACKS && CallbacksFrom(g, raw, arrRva, acc) == Ok(cbs)
    ensures acc <= cbs && |cbs| <= MAX_TLS_CALLBACKS
    ensures forall k :: |acc| <= k < |cbs| ==> CallbackAt(g, raw, arrRva, k, cbs[k])
    ensures WordAt(g, raw, Add32(arrRva, 4 * |cbs|)) == Some(0)
    decreases MAX_TLS_CALLBACKS - |acc|
  {
    hide Translate, Add32, Word;
    var w := WordAt(g, raw, Add32(arrRva, 4 * |acc|)).value;
    if w != 0 {
      CallbacksAreTable(g, raw, arrRva, acc + [w - g.imageBase], cbs);
      assert cbs[|acc|] == w - g.imageBase;
    }
  }

  /** The callback walk succeeds with `cbs` exactly when the array holds them in order and ends there. */
  lemma CallbacksExact(g: Geometry, raw: seq<byte>, arrRva: u32, cbs: seq<u32>)
    requires |raw| == g.rawSize
    ensures CallbacksFrom(g, raw, arrRva, []) == Ok(cbs) <==> CallbackTableIs(g, raw, arrRva, cbs)
  {
    if CallbacksFrom(g, raw, arrRva, []) == Ok(cbs) {
      CallbacksAreTable(g, raw, arrRva, [], cbs);
    }
    if CallbackTableIs(g, raw, arrRva, cbs) {
      CallbacksOfTable(g, raw, arrRva, cbs, 0);
      assert cbs[..0] == [];
    }
  }

  /** What the callback walk makes of the array: its callbacks, or an error exactly when it is none. */
  lemma CallbacksMeaning(g: Geometry, raw: seq<byte>, arrRva: u32)
    requires |raw| == g.rawSize
    ensures var r := CallbacksFrom(g, raw, arrRva, []);
      if r.Ok? then CallbackTableIs(g, raw, arrRva, r.value) else forall cbs :: !CallbackTableIs(g, raw, arrRva, cbs)
  {
    hide CallbacksFrom, CallbackTableIs;
    var r := CallbacksFrom(g, raw, arrRva, []);
    if r.Ok? {
      CallbacksExact(g, raw, arrRva, r.value);
    } else {
      forall cbs ensures !CallbackTableIs(g, raw, arrRva, cbs) {
        CallbacksExact(g, raw, arrRva, cbs);
      }
    }
  }

  /** The callbacks of an image are those of the array that `AddressOfCallBacks`, the fourth
      word of the directory, points to; there are none without a directory or an array. */
  predicate TlsIs(g: Geometry, raw: seq<byte>, dirRva: u32, dirSize: u32, cbs: seq<u32>)
    requires |raw| == g.rawSize
  {
    if dirRva == 0 || dirSize == 0 then cbs == []
    else
      var p := Translate(g, dirRva, 24);
      && p.Some?
      && var va := Word(raw, p.value + 12);
         if va == 0 then cbs == [] else va >= g.imageBase && CallbackTableIs(g, raw, va - g.imageBase, cbs)
  }

  lemma TlsExact(g: Geometry, raw: seq<byte>, dirRva: u32, dirSize: u32, cbs: seq<u32>)
    requires |raw| == g.rawSize
    ensures Tls(g, raw, dirRva, dirSize) == Ok(cbs) <==> TlsIs(g, raw, dirRva, dirSize, cbs)
  {
    hide CallbacksFrom, CallbackTableIs, Translate;
    if dirRva != 0 && dirSize != 0 {
      var p := Translate(g, dirRva, 24);
      if p.Some? && Word(raw, p.value + 12) >= g.imageBase {
        CallbacksExact(g, raw, Word(raw, p.value + 12) - g.imageBase, cbs);
      }
    }
  }

  lemma TlsMeaning(g: Geometry, raw: seq<byte>, dirRva: u32, dirSize: u32)
    requires |raw| == g.rawSize
    ensures var r := Tls(g, raw, dirRva, dirSize);
      if r.Ok? then TlsIs(g, raw, dirRva, dirSize, r.value) else forall cbs :: !TlsIs(g, raw, dirRva, dirSize, cbs)
  {
    hide Tls, TlsIs;
    var r := Tls(g, raw, dirRva, dirSize);
    if r.Ok? {
      TlsExact(g, raw, dirRva, dirSize, r.value);
    } else {
      forall cbs ensures !TlsIs(g, raw, dirRva, dirSize, cbs) {
        TlsExact(g, raw, dirRva, dirSize, cbs);
      }
    }
  }

  // ----- the methods -----

  method ParseTls(img: Image, raw: seq<byte>, dirRva: u32, dirSize: u32) returns (err: Option<PeError>)
    requires |raw| == img.raw.Length && img.tlsCallbackRvas == []
    modifies img`hasTls, img`tlsHasCallbacks, img`tlsCallbackRvas
    ensures var r := Tls(img.Geo(), raw, dirRva, dirSize);
      && (r.Ok? ==> err == None && img.tlsCallbackRvas == r.value)
      && (r.Err? ==> err == Some(r.error))
    ensures if err.None? then TlsIs(img.Geo(), raw, dirRva, dirSize, img.tlsCallbackRvas)
            else forall cbs :: !TlsIs(img.Geo(), raw, dirRva, dirSize, cbs)
    ensures err.None? ==> img.hasTls == (dirRva != 0 && dirSize != 0)
    ensures err.None? && img.hasTls ==>
              Translate(img.Geo(), dirRva, 24).Some?
              && img.tlsHasCallbacks == (Word(raw, Translate(img.Geo(), dirRva, 24).value + 12) != 0)
  {
    hide CallbacksFrom, Translate, Word, TlsIs;
    TlsMeaning(img.Geo(), raw, dirRva, dirSize);
    if dirRva == 0 || dirSize == 0 {
      img.hasTls := false;
      return None;
    }
    var p := img.RvaToPtr(dirRva, 24);
    if p.None? {
      return Some(Malformed);
    }
    var listVa := Word(raw, p.value + 12);
    img.hasTls, img.tlsHasCallbacks := true, listVa != 0;
    if listVa == 0 {
      return None;
    }
    if listVa < img.imageBase {
      return Some(Malformed);
    }
    err := WalkCallbacks(img, raw, listVa - img.imageBase);
  }

  /** The callback loop of `pe_parse_tls_dir`. */
  method WalkCallbacks(img: Image, raw: seq<byte>, arrRva: u32) returns (err: Option<PeError>)
    requires |raw| == img.raw.Length && img.tlsCallbackRvas == []
    modifies img`tlsCallbackRvas
    ensures CallbacksFrom(img.Geo(), raw, arrRva, []) == if err.None? then Ok(img.tlsCallbackRvas) else Err(err.value)
    ensures if err.None? then CallbackTableIs(img.Geo(), raw, arrRva, img.tlsCallbackRvas)
            else forall cbs :: !CallbackTableIs(img.Geo(), raw, arrRva, cbs)
  {
    hide Translate, Word, Add32, CallbackTableIs;
    ghost var g := img.Geo();
    CallbacksMeaning(g, raw, arrRva);
    while true
      invariant |img.tlsCallbackRvas| <= MAX_TLS_CALLBACKS
      invariant CallbacksFrom(g, raw, arrRva, []) == CallbacksFrom(g, raw, arrRva, img.tlsCallbackRvas)
      decreases MAX_TLS_CALLBACKS - |img.tlsCallbackRvas|
    {
      var n := |img.tlsCallbackRvas|;
      var p := img.RvaToPtr(Add32(arrRva, 4 * n), 4);
      if p.None? {
        return Some(Malformed);
      }
      var cb := Word(raw, p.value);
      if cb == 0 {
        break;
      }
      if cb < img.imageBase || n >= MAX_TLS_CALLBACKS {
        return Some(Malformed);
      }
      img.tlsCallbackRvas := img.tlsCallbackRvas + [cb - img.imageBase];
    }
    return None;
  }
}
