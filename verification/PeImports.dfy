/** src/pe_imports.c: the import directory, walked to its terminators into growing arrays. */
module PeImports {
  import opened Words
  import opened PeImage
  import opened Numerals

  const FUNC_NAME_CAP := 128
  const DLL_NAME_CAP := 64
  const ORDINAL_FLAG := 0x8000_0000

  // ----- ensure_capacity -----

  /** The largest capacity that doubling 8 reaches in an `int`. */
  const MAX_ENTRIES := 0x4000_0000

  /** The capacity after `level` doublings. */
  function Capacity(level: nat): (n: nat)
    ensures n >= 8
  {
    if level == 0 then 8 else 2 * Capacity(level - 1)
  }

  lemma {:induction false} CapacityGrows(i: nat, level: nat)
    requires i <= level
    ensures Capacity(i) <= Capacity(level)
    decreases level
  {
    if i < level {
      CapacityGrows(i, level - 1);
    }
  }

  /** 27 doublings give the largest capacity, fewer give at most half of it. */
  lemma CapacityRange(level: nat)
    requires level <= 27
    ensures if level == 27 then Capacity(level) == MAX_ENTRIES else 2 * Capacity(level) <= MAX_ENTRIES
  {
    assert Capacity(7) == 0x400;
    assert Capacity(14) == 0x2_0000;
    assert Capacity(21) == 0x100_0000;
    assert Capacity(26) == 0x2000_0000;
    if level < 27 {
      CapacityGrows(level, 26);
    }
  }

  /** An array that `ensure_capacity` doubles. `moved` counts the elements that
      reallocations have carried over. */
  class GrowArray<T(0)> {
    var items: array<T>
    var count: nat
    ghost var model: seq<T>
    ghost var moved: nat
    ghost var level: nat

    ghost predicate Valid()
      reads this, items
    {
      && count <= items.Length
      && model == items[..count]
      && (items.Length == 0 ==> moved == 0)
      && (items.Length > 0 ==>
            && items.Length == Capacity(level) && level <= 27
            && moved == items.Length - 8 && (items.Length == 8 || items.Length <= 2 * count))
    }

    constructor ()
      ensures Valid() && model == [] && fresh(items)
    {
      items, count, model, moved, level := new T[0], 0, [], 0, 0;
    }

    /** Fails, and changes nothing, when the doubled capacity is no `int` or `realloc` does not grant it. */
    method EnsureCapacity(granted: bool) returns (ok: bool)
      requires Valid()
      modifies this
      ensures Valid() && count == old(count) && model == old(model)
      ensures ok <==> count < old(items.Length) || (granted && count < MAX_ENTRIES)
      ensures ok ==> count < items.Length
      ensures items == old(items) || (ok && fresh(items))
    {
      if count < items.Length {
        return true;
      }
      if items.Length > 0 {
        CapacityRange(level);
      }
      if items.Length > 0x3FFF_FFFF || !granted {
        return false;
      }
      var newCap := if items.Length == 0 then 8 else items.Length * 2;
      var grown := new T[newCap];
      for i := 0 to items.Length
        modifies grown
        invariant grown[..i] == items[..i]
      {
        grown[i] := items[i];
      }
      assert grown[..count] == grown[..items.Length][..count] == items[..count];
      moved := moved + items.Length;
      level := if items.Length == 0 then 0 else level + 1;
      items := grown;
      return true;
    }

    /** Fills the next element, for which there is room. */
    method Append(x: T)
      requires Valid() && count < items.Length
      modifies this, items
      ensures Valid() && model == old(model) + [x] && items == old(items)
    {
      items[count] := x;
      count := count + 1;
      model := model + [x];
    }

    /** Doubling is amortized: fewer than two moves per stored element. */
    lemma MovesAmortized()
      requires Valid() && count > 0
      ensures moved < 2 * count && count <= MAX_ENTRIES
    {
      CapacityRange(level);
    }
  }

  // ----- read_c_string -----

  /** A name buffer: the string, then NULs up to its capacity. */
  function Padded(s: seq<byte>, cap: nat): seq<byte>
    requires |s| <= cap
  {
    s + Zeros(cap - |s|)
  }

  /** `acc` and the bytes behind it up to a NUL, cut at `cap - 1` bytes. */
  function CStrFrom(g: Geometry, raw: seq<byte>, rva: u32, cap: nat, acc: seq<byte>): (r: Result<seq<byte>, PeError>)
    requires |raw| == g.rawSize && |acc| < cap < 0x1000
    ensures r.Ok? ==> |r.value| < cap
    decreases cap - |acc|
  {
    if |acc| + 1 >= cap then Ok(acc)
    else
      var p := Translate(g, Add32(rva, |acc|), 1);
      if p.None? then Err(Malformed)
      else if raw[p.value] == 0 then Ok(acc)
      else CStrFrom(g, raw, rva, cap, acc + [raw[p.value]])
  }

  function CStr(g: Geometry, raw: seq<byte>, rva: u32, cap: nat): Result<seq<byte>, PeError>
    requires |raw| == g.rawSize && 0 < cap < 0x1000
  {
    CStrFrom(g, raw, rva, cap, [])
  }

  /** Copies into a buffer that `memset` has cleared. */
  method ReadCString(img: Image, raw: seq<byte>, rva: u32, out: array<byte>) returns (ok: bool)
    requires |raw| == img.raw.Length && 0 < out.Length < 0x1000
    requires out[..] == Zeros(out.Length)
    modifies out
    ensures var s := CStr(img.Geo(), raw, rva, out.Length);
      ok == s.Ok? && (ok ==> |s.value| <= out.Length && out[..] == Padded(s.value, out.Length))
  {
    ghost var g := img.Geo();
    hide Translate, Add32;
    var i := 0;
    while i + 1 < out.Length
      invariant i < out.Length
      invariant CStrFrom(g, raw, rva, out.Length, []) == CStrFrom(g, raw, rva, out.Length, out[..i])
      invariant out[i..] == Zeros(out.Length - i)
    {
      var p := img.RvaToPtr(Add32(rva, i), 1);
      if p.None? {
        return false;
      }
      out[i] := raw[p.value];
      if out[i] == 0 {
        assert out[..] == out[..i] + Zeros(out.Length - i);
        return true;
      }
      assert out[..i + 1] == out[..i] + [raw[p.value]];
      i := i + 1;
    }
    out[out.Length - 1] := 0;
    assert out[..] == out[..i] + Zeros(out.Length - i);
    return true;
  }

  // ----- thunks -----

  function OrdinalName(n: u16): (s: seq<byte>)
    ensures |s| <= 6
  {
    DecimalShort(n);
    [0x23] + Decimal(n)
  }

  /** One non-zero thunk: an ordinal, or the RVA of a hint and a name. */
  function DecodeThunk(g: Geometry, raw: seq<byte>, thunk: u32, iatRva: u32): Result<ImportFunc, PeError>
    requires |raw| == g.rawSize
  {
    if thunk >= ORDINAL_FLAG then
      Ok(ImportFunc(Padded(OrdinalName(thunk % 0x1_0000), FUNC_NAME_CAP), thunk % 0x1_0000, true, iatRva))
    else if Translate(g, thunk, 2).None? then Err(Malformed)
    else
      var s := CStr(g, raw, Add32(thunk, 2), FUNC_NAME_CAP);
      if s.Err? then Err(s.error) else Ok(ImportFunc(Padded(s.value, FUNC_NAME_CAP), 0, false, iatRva))
  }

  /** Entry `k` of a table of 4-byte entries, in 32 bits. */
  function EntryRva(rva: u32, k: nat): u32 {
    (rva + 4 * k) % 0x1_0000_0000
  }

  /** The thunk walk from index `|acc|` on. */
  function ThunksFrom(g: Geometry, raw: seq<byte>, thunkRva: u32, iatRva: u32,
                      acc: seq<ImportFunc>): Result<seq<ImportFunc>, PeError>
    requires |raw| == g.rawSize && |acc| <= MAX_ENTRIES
    decreases MAX_ENTRIES - |acc|
  {
    var p := Translate(g, EntryRva(thunkRva, |acc|), 4);
    if p.None? then Err(Malformed)
    else if Word(raw, p.value) == 0 then Ok(acc)
    else if |acc| == MAX_ENTRIES then Err(ArrayLimit)
    else
      var fn := DecodeThunk(g, raw, Word(raw, p.value), EntryRva(iatRva, |acc|));
      if fn.Err? then Err(fn.error) else ThunksFrom(g, raw, thunkRva, iatRva, acc + [fn.value])
  }

  method ParseThunk(img: Image, raw: seq<byte>, thunk: u32, iatRva: u32) returns (r: Result<ImportFunc, PeError>)
    requires |raw| == img.raw.Length
    ensures r == DecodeThunk(img.Geo(), raw, thunk, iatRva)
  {
    if thunk >= ORDINAL_FLAG {
      var ordinal := thunk % 0x1_0000;
      return Ok(ImportFunc(Padded(OrdinalName(ordinal), FUNC_NAME_CAP), ordinal, true, iatRva));
    }
    var namep := img.RvaToPtr(thunk, 2);
    if namep.None? {
      return Err(Malformed);
    }
    var name := new byte[FUNC_NAME_CAP](_ => 0);
    CStrError(img.Geo(), raw, Add32(thunk, 2), FUNC_NAME_CAP, []);
    var ok := ReadCString(img, raw, Add32(thunk, 2), name);
    return if ok then Ok(ImportFunc(name[..], 0, false, iatRva)) else Err(Malformed);
  }

  lemma {:induction false} CStrError(g: Geometry, raw: seq<byte>, rva: u32, cap: nat, acc: seq<byte>)
    requires |raw| == g.rawSize && |acc| < cap < 0x1000
    ensures CStrFrom(g, raw, rva, cap, acc).Err? ==> CStrFrom(g, raw, rva, cap, acc) == Err(Malformed)
    decreases cap - |acc|
  {
    if |acc| + 1 < cap {
      var p := Translate(g, Add32(rva, |acc|), 1);
      hide Translate;
      if p.Some? && raw[p.value] != 0 {
        CStrError(g, raw, rva, cap, acc + [raw[p.value]]);
      }
    }
  }

  method WalkThunks(img: Image, raw: seq<byte>, thunkRva: u32, iatRva: u32)
      returns (r: Result<seq<ImportFunc>, PeError>)
    requires |raw| == img.raw.Length
    ensures r == ThunksFrom(img.Geo(), raw, thunkRva, iatRva, [])
  {
    hide Translate, EntryRva, DecodeThunk, Word, Capacity;
    ghost var g := img.Geo();
    var funcs := new GrowArray<ImportFunc>();
    var i := 0;
    while true
      invariant funcs.Valid() && fresh(funcs) && fresh(funcs.items) && i == |funcs.model| <= MAX_ENTRIES
      invariant ThunksFrom(g, raw, thunkRva, iatRva, []) == ThunksFrom(g, raw, thunkRva, iatRva, funcs.model)
      decreases MAX_ENTRIES - i
    {
      var tp := img.RvaToPtr(EntryRva(thunkRva, i), 4);
      if tp.None? {
        return Err(Malformed);
      }
      var thunk := Word(raw, tp.value);
      if thunk == 0 {
        break;
      }
      MostEntries(funcs);
      var ok := funcs.EnsureCapacity(true);
      if !ok {
        return Err(ArrayLimit);
      }
      var fn := ParseThunk(img, raw, thunk, EntryRva(iatRva, i));
      if fn.Err? {
        return Err(fn.error);
      }
      funcs.Append(fn.value);
      i := i + 1;
    }
    return Ok(funcs.items[..funcs.count]);
  }

  // ----- descriptors -----

  datatype Descriptor = Descriptor(originalFirstThunk: u32, timeDateStamp: u32, forwarderChain: u32, name: u32,
                                   firstThunk: u32)

  function ReadDescriptor(raw: seq<byte>, p: nat): Descriptor
    requires p + 20 <= |raw|
  {
    Descriptor(Word(raw, p), Word(raw, p + 4), Word(raw, p + 8), Word(raw, p + 12), Word(raw, p + 16))
  }

  const TERMINATOR := Descriptor(0, 0, 0, 0, 0)

  function ThunkTable(d: Descriptor): u32 {
    if d.originalFirstThunk != 0 then d.originalFirstThunk else d.firstThunk
  }

  function DecodeDll(g: Geometry, raw: seq<byte>, d: Descriptor): Result<ImportDll, PeError>
    requires |raw| == g.rawSize
  {
    var name := CStr(g, raw, d.name, DLL_NAME_CAP);
    if name.Err? then Err(name.error)
    else if d.forwarderChain != 0xFFFF_FFFF && d.forwarderChain != 0 then Err(ForwardedImport)
    else
      var fs := ThunksFrom(g, raw, ThunkTable(d), d.firstThunk, []);
      if fs.Err? then Err(fs.error) else Ok(ImportDll(Padded(name.value, DLL_NAME_CAP), fs.value))
  }

  /** RVA of descriptor `k`, in 32 bits. */
  function DescriptorRva(dirRva: u32, k: nat): u32 {
    (dirRva + 20 * k) % 0x1_0000_0000
  }

  /** The DLLs a walk has parsed when it stops, and why it failed if it did. */
  datatype Walk = Walk(dlls: seq<ImportDll>, err: Option<PeError>)

  /** The descriptor walk from index `|acc|` on. */
  function DllsFrom(g: Geometry, raw: seq<byte>, dirRva: u32, acc: seq<ImportDll>): Walk
    requires |raw| == g.rawSize && |acc| <= MAX_ENTRIES
    decreases MAX_ENTRIES - |acc|
  {
    var p := Translate(g, DescriptorRva(dirRva, |acc|), 20);
    if p.None? then Walk(acc, Some(Malformed))
    else if ReadDescriptor(raw, p.value) == TERMINATOR then Walk(acc, None)
    else if |acc| == MAX_ENTRIES then Walk(acc, Some(ArrayLimit))
    else
      var dll := DecodeDll(g, raw, ReadDescriptor(raw, p.value));
      if dll.Err? then Walk(acc, Some(dll.error)) else DllsFrom(g, raw, dirRva, acc + [dll.value])
  }

  function Imports(g: Geometry, raw: seq<byte>, dirRva: u32): Walk
    requires |raw| == g.rawSize
  {
    if dirRva == 0 then Walk([], None) else DllsFrom(g, raw, dirRva, [])
  }

  /** `parse_one_dll`: makes room, then decodes the DLL and appends it. */
  method ParseOneDll(img: Image, raw: seq<byte>, d: Descriptor, dlls: GrowArray<ImportDll>)
      returns (err: Option<PeError>)
    requires |raw| == img.raw.Length && dlls.Valid()
    modifies dlls, dlls.items
    ensures dlls.Valid() && (dlls.items == old(dlls.items) || fresh(dlls.items))
    ensures var r := if old(|dlls.model|) == MAX_ENTRIES then Err(ArrayLimit) else DecodeDll(img.Geo(), raw, d);
      && (r.Ok? ==> err == None && dlls.model == old(dlls.model) + [r.value])
      && (r.Err? ==> err == Some(r.error) && dlls.model == old(dlls.model))
  {
    hide CStrFrom, ThunksFrom, Capacity;
    MostEntries(dlls);
    var ok := dlls.EnsureCapacity(true);
    if !ok {
      return Some(ArrayLimit);
    }
    var name := new byte[DLL_NAME_CAP](_ => 0);
    CStrError(img.Geo(), raw, d.name, DLL_NAME_CAP, []);
    var read := ReadCString(img, raw, d.name, name);
    if !read {
      return Some(Malformed);
    }
    var dllName := name[..];
    if d.forwarderChain != 0xFFFF_FFFF && d.forwarderChain != 0 {
      return Some(ForwardedImport);
    }
    var fs := WalkThunks(img, raw, ThunkTable(d), d.firstThunk);
    if fs.Err? {
      return Some(fs.error);
    }
    dlls.Append(ImportDll(dllName, fs.value));
    return None;
  }

  lemma MostEntries<T(0)>(a: GrowArray<T>)
    requires a.Valid()
    ensures |a.model| <= a.items.Length <= MAX_ENTRIES
  {
    if a.items.Length > 0 {
      CapacityRange(a.level);
    }
  }

  /** The loop of `pe_parse_imports_dir`. */
  method WalkDlls(img: Image, raw: seq<byte>, dirRva: u32) returns (dlls: GrowArray<ImportDll>, err: Option<PeError>)
    requires |raw| == img.raw.Length
    ensures dlls.Valid() && fresh(dlls) && fresh(dlls.items)
    ensures Walk(dlls.model, err) == DllsFrom(img.Geo(), raw, dirRva, [])
  {
    hide Translate, DecodeDll, ReadDescriptor, DescriptorRva, Capacity;
    ghost var g := img.Geo();
    dlls := new GrowArray<ImportDll>();
    var i := 0;
    while true
      invariant dlls.Valid() && fresh(dlls) && fresh(dlls.items) && i == |dlls.model| <= MAX_ENTRIES
      invariant DllsFrom(g, raw, dirRva, []) == DllsFrom(g, raw, dirRva, dlls.model)
      decreases MAX_ENTRIES - i
    {
      var p := img.RvaToPtr(DescriptorRva(dirRva, i), 20);
      if p.None? {
        return dlls, Some(Malformed);
      }
      var desc := ReadDescriptor(raw, p.value);
      if desc == TERMINATOR {
        break;
      }
      var e := ParseOneDll(img, raw, desc, dlls);
      if e.Some? {
        return dlls, e;
      }
      i := i + 1;
    }
    return dlls, None;
  }

  /** `pe_parse_imports_dir`; a failed walk leaves the DLLs it has parsed. */
  method ParseImports(img: Image, raw: seq<byte>, dirRva: u32) returns (err: Option<PeError>)
    requires |raw| == img.raw.Length && img.imports == []
    modifies img`imports
    ensures Walk(img.imports, err) == Imports(img.Geo(), raw, dirRva)
  {
    hide DllsFrom;
    if dirRva == 0 {
      return None;
    }
    var dlls, e := WalkDlls(img, raw, dirRva);
    img.imports := dlls.items[..dlls.count];
    return e;
  }

  // ----- what the walks decode -----

  /** `s` stands at `rva`: its bytes are readable and not NUL, and a readable
      NUL follows unless `s` already fills the buffer. */
  predicate StringAt(g: Geometry, raw: seq<byte>, rva: u32, cap: nat, s: seq<byte>)
    requires |raw| == g.rawSize && |s| < cap < 0x1000
  {
    && (forall k :: 0 <= k < |s| ==> s[k] != 0 && ByteAt(g, raw, Add32(rva, k)) == Some(s[k]))
    && (|s| == cap - 1 || ByteAt(g, raw, Add32(rva, |s|)) == Some(0))
  }

  lemma {:induction false} CStrOfString(g: Geometry, raw: seq<byte>, rva: u32, cap: nat, s: seq<byte>, n: nat)
    requires |raw| == g.rawSize && n <= |s| < cap < 0x1000
    requires StringAt(g, raw, rva, cap, s)
    ensures CStrFrom(g, raw, rva, cap, s[..n]) == Ok(s)
    decreases |s| - n
  {
    hide Translate, Add32;
    if n < |s| {
      assert ByteAt(g, raw, Add32(rva, n)) == Some(s[n]);
      assert s[..n] + [s[n]] == s[..n + 1];
      CStrOfString(g, raw, rva, cap, s, n + 1);
    } else {
      assert s[..n] == s;
    }
  }

  lemma {:induction false} CStrIsString(g: Geometry, raw: seq<byte>, rva: u32, cap: nat, acc: seq<byte>, s: seq<byte>)
    requires |raw| == g.rawSize && |acc| < cap < 0x1000 && |s| < cap
    requires CStrFrom(g, raw, rva, cap, acc) == Ok(s)
    ensures acc <= s
    ensures forall k :: |acc| <= k < |s| ==> s[k] != 0 && ByteAt(g, raw, Add32(rva, k)) == Some(s[k])
    ensures |s| == cap - 1 || ByteAt(g, raw, Add32(rva, |s|)) == Some(0)
    decreases cap - |acc|
  {
    hide Translate, Add32;
    if |acc| + 1 < cap {
      var b := ByteAt(g, raw, Add32(rva, |acc|));
      if b != Some(0) {
        CStrIsString(g, raw, rva, cap, acc + [b.value], s);
        assert s[|acc|] == b.value;
      }
    }
  }

  /** `read_c_string` yields exactly the string at its RVA, cut at the buffer's capacity. */
  lemma CStrExact(g: Geometry, raw: seq<byte>, rva: u32, cap: nat, s: seq<byte>)
    requires |raw| == g.rawSize && |s| < cap < 0x1000
    ensures CStr(g, raw, rva, cap) == Ok(s) <==> StringAt(g, raw, rva, cap, s)
  {
    if CStr(g, raw, rva, cap) == Ok(s) {
      CStrIsString(g, raw, rva, cap, [], s);
    }
    if StringAt(g, raw, rva, cap, s) {
      CStrOfString(g, raw, rva, cap, s, 0);
      assert s[..0] == [];
    }
  }

  /** Slot `k` of the table at `thunkRva` holds a thunk that decodes to `fn`, patched at `FirstThunk + 4 * k`. */
  predicate ThunkAt(g: Geometry, raw: seq<byte>, thunkRva: u32, iatRva: u32, k: nat, fn: ImportFunc)
    requires |raw| == g.rawSize
  {
    var w := WordAt(g, raw, EntryRva(thunkRva, k));
    w.Some? && w.value != 0 && DecodeThunk(g, raw, w.value, EntryRva(iatRva, k)) == Ok(fn)
  }

  /** The thunk table at `thunkRva` consists of `fs` and a zero thunk. */
  predicate ThunkTableIs(g: Geometry, raw: seq<byte>, thunkRva: u32, iatRva: u32, fs: seq<ImportFunc>)
    requires |raw| == g.rawSize
  {
    && |fs| <= MAX_ENTRIES
    && (forall k :: 0 <= k < |fs| ==> ThunkAt(g, raw, thunkRva, iatRva, k, fs[k]))
    && WordAt(g, raw, EntryRva(thunkRva, |fs|)) == Some(0)
  }

  lemma {:induction false} ThunksOfTable(g: Geometry, raw: seq<byte>, thunkRva: u32, iatRva: u32, fs: seq<ImportFunc>,
                                         n: nat)
    requires |raw| == g.rawSize && n <= |fs| && ThunkTableIs(g, raw, thunkRva, iatRva, fs)
    ensures ThunksFrom(g, raw, thunkRva, iatRva, fs[..n]) == Ok(fs)
    decreases |fs| - n
  {
    hide Translate, EntryRva, Word, DecodeThunk;
    if n < |fs| {
      assert ThunkAt(g, raw, thunkRva, iatRva, n, fs[n]);
      assert fs[..n] + [fs[n]] == fs[..n + 1];
      ThunksOfTable(g, raw, thunkRva, iatRva, fs, n + 1);
    } else {
      assert fs[..n] == fs;
    }
  }

  lemma {:induction false} ThunksAreTable(g: Geometry, raw: seq<byte>, thunkRva: u32, iatRva: u32,
                                          acc: seq<ImportFunc>, fs: seq<ImportFunc>)
    requires |raw| == g.rawSize && |acc| <= MAX_ENTRIES && ThunksFrom(g, raw, thunkRva, iatRva, acc) == Ok(fs)
    ensures acc <= fs && |fs| <= MAX_ENTRIES
    ensures forall k :: |acc| <= k < |fs| ==> ThunkAt(g, raw, thunkRva, iatRva, k, fs[k])
    ensures WordAt(g, raw, EntryRva(thunkRva, |fs|)) == Some(0)
    decreases MAX_ENTRIES - |acc|
  {
    hide Translate, EntryRva, Word, DecodeThunk;
    var w := WordAt(g, raw, EntryRva(thunkRva, |acc|)).value;
    if w != 0 {
      var fn := DecodeThunk(g, raw, w, EntryRva(iatRva, |acc|)).value;
      ThunksAreTable(g, raw, thunkRva, iatRva, acc + [fn], fs);
      assert fs[|acc|] == fn;
    }
  }

  /** The thunk walk succeeds with `fs` exactly when the table holds `fs` in order and ends there. */
  lemma ThunksExact(g: Geometry, raw: seq<byte>, thunkRva: u32, iatRva: u32, fs: seq<ImportFunc>)
    requires |raw| == g.rawSize
    ensures ThunksFrom(g, raw, thunkRva, iatRva, []) == Ok(fs) <==> ThunkTableIs(g, raw, thunkRva, iatRva, fs)
  {
    if ThunksFrom(g, raw, thunkRva, iatRva, []) == Ok(fs) {
      ThunksAreTable(g, raw, thunkRva, iatRva, [], fs);
    }
    if ThunkTableIs(g, raw, thunkRva, iatRva, fs) {
      ThunksOfTable(g, raw, thunkRva, iatRva, fs, 0);
      assert fs[..0] == [];
    }
  }

  function DescriptorAt(g: Geometry, raw: seq<byte>, r: u32): Option<Descriptor>
    requires |raw| == g.rawSize
  {
    var p := Translate(g, r, 20);
    if p.Some? then Some(ReadDescriptor(raw, p.value)) else None
  }

  predicate DllAt(g: Geometry, raw: seq<byte>, dirRva: u32, k: nat, dll: ImportDll)
    requires |raw| == g.rawSize
  {
    var d := DescriptorAt(g, raw, DescriptorRva(dirRva, k));
    d.Some? && d.value != TERMINATOR && DecodeDll(g, raw, d.value) == Ok(dll)
  }

  /** The directory at `dirRva` consists of descriptors of `dlls` and a zero descriptor. */
  predicate DirectoryIs(g: Geometry, raw: seq<byte>, dirRva: u32, dlls: seq<ImportDll>)
    requires |raw| == g.rawSize
  {
    && |dlls| <= MAX_ENTRIES
    && (forall k :: 0 <= k < |dlls| ==> DllAt(g, raw, dirRva, k, dlls[k]))
    && DescriptorAt(g, raw, DescriptorRva(dirRva, |dlls|)) == Some(TERMINATOR)
  }

  lemma {:induction false} DllsOfDirectory(g: Geometry, raw: seq<byte>, dirRva: u32, dlls: seq<ImportDll>, n: nat)
    requires |raw| == g.rawSize && n <= |dlls| && DirectoryIs(g, raw, dirRva, dlls)
    ensures DllsFrom(g, raw, dirRva, dlls[..n]) == Walk(dlls, None)
    decreases |dlls| - n
  {
    hide Translate, ReadDescriptor, DecodeDll, DescriptorRva;
    if n < |dlls| {
      assert DllAt(g, raw, dirRva, n, dlls[n]);
      assert dlls[..n] + [dlls[n]] == dlls[..n + 1];
      DllsOfDirectory(g, raw, dirRva, dlls, n + 1);
    } else {
      assert dlls[..n] == dlls;
    }
  }

  /** Whatever ends the walk, what it has parsed are the DLLs of the first descriptors. */
  lemma {:induction false} DllsAreDirectory(g: Geometry, raw: seq<byte>, dirRva: u32, acc: seq<ImportDll>)
    requires |raw| == g.rawSize && |acc| <= MAX_ENTRIES
    ensures var w := DllsFrom(g, raw, dirRva, acc);
      && acc <= w.dlls && |w.dlls| <= MAX_ENTRIES
      && (forall k :: |acc| <= k < |w.dlls| ==> DllAt(g, raw, dirRva, k, w.dlls[k]))
      && (w.err.None? ==> DescriptorAt(g, raw, DescriptorRva(dirRva, |w.dlls|)) == Some(TERMINATOR))
    decreases MAX_ENTRIES - |acc|
  {
    hide Translate, ReadDescriptor, DecodeDll, DescriptorRva;
    if |acc| < MAX_ENTRIES {
      var d := DescriptorAt(g, raw, DescriptorRva(dirRva, |acc|));
      if d.Some? && d.value != TERMINATOR && DecodeDll(g, raw, d.value).Ok? {
        var dll := DecodeDll(g, raw, d.value).value;
        DllsAreDirectory(g, raw, dirRva, acc + [dll]);
        assert DllsFrom(g, raw, dirRva, acc).dlls[|acc|] == dll;
      }
    }
  }

  /** The directory walk succeeds with `dlls` exactly when the directory holds them in order and
      ends there; a failed walk leaves the DLLs of the first descriptors. */
  lemma ImportsExact(g: Geometry, raw: seq<byte>, dirRva: u32, dlls: seq<ImportDll>)
    requires |raw| == g.rawSize && dirRva != 0
    ensures Imports(g, raw, dirRva) == Walk(dlls, None) <==> DirectoryIs(g, raw, dirRva, dlls)
    ensures forall k :: 0 <= k < |Imports(g, raw, dirRva).dlls| ==>
              DllAt(g, raw, dirRva, k, Imports(g, raw, dirRva).dlls[k])
  {
    DllsAreDirectory(g, raw, dirRva, []);
    if DirectoryIs(g, raw, dirRva, dlls) {
      DllsOfDirectory(g, raw, dirRva, dlls, 0);
      assert dlls[..0] == [];
    }
  }

  // ----- when the walks stop -----

  /** Position `k` of the thunk walk holds a thunk. */
  predicate ThunkThere(g: Geometry, raw: seq<byte>, thunkRva: u32, k: nat)
    requires |raw| == g.rawSize
  {
    var w := WordAt(g, raw, EntryRva(thunkRva, k));
    w.Some? && w.value != 0
  }

  /** Position `k` of the thunk walk holds a thunk that decodes. */
  predicate ThunkGoesOn(g: Geometry, raw: seq<byte>, thunkRva: u32, k: nat)
    requires |raw| == g.rawSize
  {
    ThunkThere(g, raw, thunkRva, k) && DecodeThunk(g, raw, WordAt(g, raw, EntryRva(thunkRva, k)).value, 0).Ok?
  }

  lemma DecodeThunkError(g: Geometry, raw: seq<byte>, thunk: u32, iatRva: u32)
    requires |raw| == g.rawSize
    ensures DecodeThunk(g, raw, thunk, iatRva).Err? ==> DecodeThunk(g, raw, thunk, iatRva) == Err(Malformed)
    ensures DecodeThunk(g, raw, thunk, iatRva).Ok? <==> DecodeThunk(g, raw, thunk, 0).Ok?
  {
    hide Translate, CStrFrom;
    CStrError(g, raw, Add32(thunk, 2), FUNC_NAME_CAP, []);
  }

  lemma WholeTurns(a: nat, n: nat)
    ensures (a + 0x1_0000_0000 * n) % 0x1_0000_0000 == a % 0x1_0000_0000
  {
    assert a == 0x1_0000_0000 * (a / 0x1_0000_0000) + a % 0x1_0000_0000;
  }

  /** After 2^30 steps the cursors are back at their starts. */
  lemma CursorsTurn(rva: u32, k: nat)
    ensures EntryRva(rva, k) == EntryRva(rva, k % 0x4000_0000)
    ensures DescriptorRva(rva, k) == DescriptorRva(rva, k % 0x4000_0000)
  {
    var q, r := k / 0x4000_0000, k % 0x4000_0000;
    assert 4 * k == 4 * r + 0x1_0000_0000 * q && 20 * k == 20 * r + 0x1_0000_0000 * (5 * q);
    WholeTurns(rva + 4 * r, q);
    WholeTurns(rva + 20 * r, 5 * q);
  }

  lemma {:induction false} ThunksLimitFrom(g: Geometry, raw: seq<byte>, thunkRva: u32, iatRva: u32,
                                           acc: seq<ImportFunc>)
    requires |raw| == g.rawSize && |acc| <= MAX_ENTRIES
    ensures ThunksFrom(g, raw, thunkRva, iatRva, acc) == Err(ArrayLimit) <==>
              && (forall k :: |acc| <= k < MAX_ENTRIES ==> ThunkGoesOn(g, raw, thunkRva, k))
              && ThunkThere(g, raw, thunkRva, MAX_ENTRIES)
    ensures ThunksFrom(g, raw, thunkRva, iatRva, acc) != Err(Endless)
    decreases MAX_ENTRIES - |acc|
  {
    hide Translate, EntryRva, Word, DecodeThunk;
    if |acc| < MAX_ENTRIES {
      var w := WordAt(g, raw, EntryRva(thunkRva, |acc|));
      if w.Some? {
        DecodeThunkError(g, raw, w.value, EntryRva(iatRva, |acc|));
      }
      if ThunkGoesOn(g, raw, thunkRva, |acc|) {
        ThunksLimitFrom(g, raw, thunkRva, iatRva, acc + [DecodeThunk(g, raw, w.value, EntryRva(iatRva, |acc|)).value]);
      }
    }
  }

  /** The capacity limit stops the thunk walk exactly when every position that its 32-bit cursor
      can reach holds a thunk that decodes. */
  lemma ThunksLimit(g: Geometry, raw: seq<byte>, thunkRva: u32, iatRva: u32)
    requires |raw| == g.rawSize
    ensures ThunksFrom(g, raw, thunkRva, iatRva, []) == Err(ArrayLimit) <==>
              forall k: nat :: ThunkGoesOn(g, raw, thunkRva, k)
  {
    hide ThunksFrom, WordAt, DecodeThunk, EntryRva;
    ThunksLimitFrom(g, raw, thunkRva, iatRva, []);
    CursorsTurn(thunkRva, MAX_ENTRIES);
    if forall k :: 0 <= k < MAX_ENTRIES ==> ThunkGoesOn(g, raw, thunkRva, k) {
      forall k: nat ensures ThunkGoesOn(g, raw, thunkRva, k) {
        CursorsTurn(thunkRva, k);
        assert ThunkGoesOn(g, raw, thunkRva, k % 0x4000_0000);
      }
      assert ThunkGoesOn(g, raw, thunkRva, MAX_ENTRIES);
    }
  }

  /** Position `k` of the descriptor walk holds a descriptor. */
  predicate DllThere(g: Geometry, raw: seq<byte>, dirRva: u32, k: nat)
    requires |raw| == g.rawSize
  {
    var d := DescriptorAt(g, raw, DescriptorRva(dirRva, k));
    d.Some? && d.value != TERMINATOR
  }

  /** Position `k` of the descriptor walk holds a descriptor with outcome `r`. */
  predicate DllGives(g: Geometry, raw: seq<byte>, dirRva: u32, k: nat, ok: bool, e: PeError)
    requires |raw| == g.rawSize
  {
    && DllThere(g, raw, dirRva, k)
    && var r := DecodeDll(g, raw, DescriptorAt(g, raw, DescriptorRva(dirRva, k)).value);
       if ok then r.Ok? else r == Err(e)
  }

  predicate DllGoesOn(g: Geometry, raw: seq<byte>, dirRva: u32, k: nat)
    requires |raw| == g.rawSize
  {
    DllGives(g, raw, dirRva, k, true, ArrayLimit)
  }

  predicate DllTooLong(g: Geometry, raw: seq<byte>, dirRva: u32, k: nat)
    requires |raw| == g.rawSize
  {
    DllGives(g, raw, dirRva, k, false, ArrayLimit)
  }

  /** Every descriptor that the cursor can reach decodes, or the first that does not has too many thunks. */
  ghost predicate FillsArrays(g: Geometry, raw: seq<byte>, dirRva: u32)
    requires |raw| == g.rawSize
  {
    || (forall k: nat :: DllGoesOn(g, raw, dirRva, k))
    || exists n: nat :: DllTooLong(g, raw, dirRva, n) && forall k: nat :: k < n ==> DllGoesOn(g, raw, dirRva, k)
  }

  lemma {:induction false} DllsLimitFrom(g: Geometry, raw: seq<byte>, dirRva: u32, acc: seq<ImportDll>)
    requires |raw| == g.rawSize && |acc| <= MAX_ENTRIES
    ensures var w := DllsFrom(g, raw, dirRva, acc);
      && |acc| <= |w.dlls| <= MAX_ENTRIES
      && (forall k :: |acc| <= k < |w.dlls| ==> DllGoesOn(g, raw, dirRva, k))
      && (w.err == Some(ArrayLimit) <==>
            if |w.dlls| == MAX_ENTRIES then DllThere(g, raw, dirRva, MAX_ENTRIES)
            else DllTooLong(g, raw, dirRva, |w.dlls|))
      && (|w.dlls| < MAX_ENTRIES ==> !DllGoesOn(g, raw, dirRva, |w.dlls|))
      && w.err != Some(Endless)
    decreases MAX_ENTRIES - |acc|
  {
    hide Translate, ReadDescriptor, DecodeDll, DescriptorRva;
    var d := DescriptorAt(g, raw, DescriptorRva(dirRva, |acc|));
    if |acc| < MAX_ENTRIES && d.Some? && d.value != TERMINATOR {
      DllReturns(g, raw, d.value);
      if DecodeDll(g, raw, d.value).Ok? {
        DllsLimitFrom(g, raw, dirRva, acc + [DecodeDll(g, raw, d.value).value]);
      }
    }
  }

  lemma DllReturns(g: Geometry, raw: seq<byte>, d: Descriptor)
    requires |raw| == g.rawSize
    ensures DecodeDll(g, raw, d) != Err(Endless)
  {
    hide CStrFrom, ThunksFrom;
    CStrError(g, raw, d.name, DLL_NAME_CAP, []);
    ThunksLimitFrom(g, raw, ThunkTable(d), d.firstThunk, []);
  }

  /** The import parser comes back on every file; an array's capacity limit stops it exactly when
      the directory or the first table that does not end fills the whole turn of its cursor. */
  lemma ImportsLimit(g: Geometry, raw: seq<byte>, dirRva: u32)
    requires |raw| == g.rawSize
    ensures Imports(g, raw, dirRva).err != Some(Endless)
    ensures dirRva != 0 ==> (Imports(g, raw, dirRva).err == Some(ArrayLimit) <==> FillsArrays(g, raw, dirRva))
  {
    hide DllsFrom, DllGives, DllThere;
    DllsLimitFrom(g, raw, dirRva, []);
    var n := |DllsFrom(g, raw, dirRva, []).dlls|;
    NotBoth(g, raw, dirRva);
    if n == MAX_ENTRIES {
      forall k: nat ensures DllGoesOn(g, raw, dirRva, k) {
        assert DllGoesOn(g, raw, dirRva, k % 0x4000_0000);
        SameDescriptor(g, raw, dirRva, k);
      }
      SomethingThere(g, raw, dirRva, MAX_ENTRIES);
    }
  }

  lemma SameDescriptor(g: Geometry, raw: seq<byte>, dirRva: u32, k: nat)
    requires |raw| == g.rawSize && DllGoesOn(g, raw, dirRva, k % 0x4000_0000)
    ensures DllGoesOn(g, raw, dirRva, k)
  {
    hide DescriptorAt, DecodeDll, DescriptorRva;
    CursorsTurn(dirRva, k);
  }

  lemma SomethingThere(g: Geometry, raw: seq<byte>, dirRva: u32, k: nat)
    requires |raw| == g.rawSize && DllGoesOn(g, raw, dirRva, k)
    ensures DllThere(g, raw, dirRva, k)
  {
  }

  lemma NotBoth(g: Geometry, raw: seq<byte>, dirRva: u32)
    requires |raw| == g.rawSize
    ensures forall k: nat :: !(DllGoesOn(g, raw, dirRva, k) && DllTooLong(g, raw, dirRva, k))
  {
  }

  /** In a well-formed image the walk ends by the distance to the highest readable RVA:
      the last position of a turn of the cursor lies outside the image. */
  lemma ThunksEnd(g: Geometry, raw: seq<byte>, thunkRva: u32, iatRva: u32)
    requires |raw| == g.rawSize && WellFormed(g)
    ensures ThunksFrom(g, raw, thunkRva, iatRva, []) != Err(ArrayLimit)
  {
    hide ThunksFrom, Translate, DecodeThunk;
    ThunksLimit(g, raw, thunkRva, iatRva);
    var k := (0xFFFF_FFFF - thunkRva) / 4;
    var at := thunkRva + 4 * k;
    assert 0xFFFF_FFFC <= at < MOD32;
    if ThunkGoesOn(g, raw, thunkRva, k) {
      RvaInImage(g, at, 4);
    }
  }

  /** No import directory of a well-formed image reaches a capacity limit. */
  lemma ImportsEnd(g: Geometry, raw: seq<byte>, dirRva: u32)
    requires |raw| == g.rawSize && WellFormed(g) && dirRva != 0
    ensures Imports(g, raw, dirRva).err != Some(ArrayLimit)
  {
    hide Imports, Translate, DecodeDll, ReadDescriptor;
    ImportsLimit(g, raw, dirRva);
    forall n: nat ensures !DllTooLong(g, raw, dirRva, n) {
      var d := DescriptorAt(g, raw, DescriptorRva(dirRva, n));
      if d.Some? {
        DllEnds(g, raw, d.value);
      }
    }
    var k := (0xFFFF_FFFF - dirRva) / 20;
    var at := dirRva + 20 * k;
    assert 0xFFFF_FFEC <= at < MOD32 && DescriptorRva(dirRva, k) == at;
    if DllGoesOn(g, raw, dirRva, k) {
      RvaInImage(g, at, 20);
    }
  }

  lemma DllEnds(g: Geometry, raw: seq<byte>, d: Descriptor)
    requires |raw| == g.rawSize && WellFormed(g)
    ensures DecodeDll(g, raw, d) != Err(ArrayLimit)
  {
    hide WellFormed, CStrFrom, ThunksFrom;
    CStrError(g, raw, d.name, DLL_NAME_CAP, []);
    ThunksEnd(g, raw, ThunkTable(d), d.firstThunk);
  }
}
