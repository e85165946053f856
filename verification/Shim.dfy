/** The embedded shim ELF (`g_shim_blob`) and the table of supported imports
    (src/shim_abi.c), with the look-ups that src/stub_patch.c makes in them. */
module Shim {
  import opened Words
  import opened CStrings
  import opened Elf32

  const SHIM_MIN_BASE: u32 := 0x0F00_0000
  const SHT_SYMTAB := 2

  /** The last page of the address space, which no program maps. */
  const LAST_PAGE: u32 := 0xFFFF_F000

  datatype ShimEntry = ShimEntry(dllName: seq<byte>, funcName: seq<byte>, shimSymbol: seq<byte>)

  datatype ShimData = ShimData(blob: seq<byte>, table: seq<ShimEntry>)

  // ----- names -----

  /** `tolower` in the C locale. */
  function Lower(b: byte): byte {
    if 0x41 <= b <= 0x5A then b + 0x20 else b
  }

  predicate SameIgnoringCase(a: seq<byte>, b: seq<byte>) {
    |a| == |b| && forall i :: 0 <= i < |a| ==> Lower(a[i]) == Lower(b[i])
  }

  /** The same character, or a capital letter and its small form. */
  predicate SameLetter(a: byte, b: byte) {
    || a == b
    || (exists i :: 0 <= i < 26 && a == CAPITALS[i] && b == SMALLS[i])
    || (exists i :: 0 <= i < 26 && a == SMALLS[i] && b == CAPITALS[i])
  }

  const CAPITALS := Ascii("ABCDEFGHIJKLMNOPQRSTUVWXYZ")
  const SMALLS := Ascii("abcdefghijklmnopqrstuvwxyz")

  /** The same text up to the case of its letters. */
  predicate EqualButCase(a: seq<byte>, b: seq<byte>) {
    |a| == |b| && forall i :: 0 <= i < |a| ==> SameLetter(a[i], b[i])
  }

  lemma LetterTables()
    ensures |CAPITALS| == 26 && |SMALLS| == 26
    ensures forall i :: 0 <= i < 26 ==> CAPITALS[i] == 0x41 + i && SMALLS[i] == 0x61 + i
  {
    var c, s := "ABCDEFGHIJKLMNOPQRSTUVWXYZ", "abcdefghijklmnopqrstuvwxyz";
    assert forall i :: 0 <= i < 26 ==> c[i] as int == 0x41 + i && s[i] as int == 0x61 + i;
  }

  lemma LetterExact(a: byte, b: byte)
    ensures Lower(a) == Lower(b) <==> SameLetter(a, b)
  {
    hide Ascii;
    LetterTables();
    if 0x41 <= a <= 0x5A {
      assert a == CAPITALS[a - 0x41] && a + 0x20 == SMALLS[a - 0x41];
    }
    if 0x41 <= b <= 0x5A {
      assert b == CAPITALS[b - 0x41] && b + 0x20 == SMALLS[b - 0x41];
    }
  }

  /** `ci_streq` compares up to the case of letters. */
  lemma CaseExact(a: seq<byte>, b: seq<byte>)
    ensures SameIgnoringCase(a, b) <==> EqualButCase(a, b)
  {
    hide Lower, SameLetter;
    if |a| == |b| {
      forall i | 0 <= i < |a| ensures Lower(a[i]) == Lower(b[i]) <==> SameLetter(a[i], b[i]) {
        LetterExact(a[i], b[i]);
      }
    }
  }

  /** `ci_streq`. */
  method CiStrEq(a: seq<byte>, b: seq<byte>) returns (same: bool)
    ensures same <==> SameIgnoringCase(a, b)
    ensures same <==> EqualButCase(a, b)
  {
    CaseExact(a, b);
    hide Lower, EqualButCase;
    var i := 0;
    while i < |a| && i < |b|
      invariant 0 <= i <= |a| && i <= |b|
      invariant forall k :: 0 <= k < i ==> Lower(a[k]) == Lower(b[k])
    {
      if Lower(a[i]) != Lower(b[i]) {
        return false;
      }
      i := i + 1;
    }
    return i == |a| && i == |b|;
  }

  // ----- shim_lookup_import -----

  function LookupFrom(table: seq<ShimEntry>, i: nat, dll: seq<byte>, fn: seq<byte>): Option<seq<byte>>
    requires i <= |table|
    decreases |table| - i
  {
    if i == |table| then None
    else if SameIgnoringCase(table[i].dllName, dll) && table[i].funcName == fn then Some(table[i].shimSymbol)
    else LookupFrom(table, i + 1, dll, fn)
  }

  /** Entry `k` supports the import. */
  predicate Supports(table: seq<ShimEntry>, k: nat, dll: seq<byte>, fn: seq<byte>) {
    k < |table| && EqualButCase(table[k].dllName, dll) && table[k].funcName == fn
  }

  /** `r` is the symbol of the first entry that supports the import, nothing exactly when none does. */
  ghost predicate FirstSupport(table: seq<ShimEntry>, i: nat, dll: seq<byte>, fn: seq<byte>, r: Option<seq<byte>>) {
    if r.None? then forall k: nat :: i <= k ==> !Supports(table, k, dll, fn)
    else exists k: nat :: i <= k && Supports(table, k, dll, fn) && table[k].shimSymbol == r.value
                          && forall j: nat :: i <= j < k ==> !Supports(table, j, dll, fn)
  }

  /** The look-up finds the first supporting entry. */
  lemma {:induction false} LookupMeaning(table: seq<ShimEntry>, i: nat, dll: seq<byte>, fn: seq<byte>)
    requires i <= |table|
    ensures FirstSupport(table, i, dll, fn, LookupFrom(table, i, dll, fn))
    decreases |table| - i
  {
    hide SameIgnoringCase, EqualButCase;
    if i < |table| {
      CaseExact(table[i].dllName, dll);
      if !Supports(table, i, dll, fn) {
        LookupMeaning(table, i + 1, dll, fn);
      }
    }
  }

  method LookupImport(table: seq<ShimEntry>, dll: seq<byte>, fn: seq<byte>) returns (r: Option<seq<byte>>)
    ensures FirstSupport(table, 0, dll, fn, r)
    ensures r == LookupFrom(table, 0, dll, fn)
  {
    hide SameIgnoringCase, EqualButCase;
    LookupMeaning(table, 0, dll, fn);
    for i := 0 to |table|
      invariant LookupFrom(table, 0, dll, fn) == LookupFrom(table, i, dll, fn)
    {
      var same := CiStrEq(table[i].dllName, dll);
      if same && table[i].funcName == fn {
        return Some(table[i].shimSymbol);
      }
    }
    return None;
  }

  // ----- shim_find_symbol -----

  function ShOff(b: seq<byte>): u32
    requires EHDR_SIZE <= |b|
  {
    Word(b, 32)
  }

  function ShNum(b: seq<byte>): u16
    requires EHDR_SIZE <= |b|
  {
    Half(b, 48)
  }

  predicate HasShdrs(b: seq<byte>) {
    EHDR_SIZE <= |b| && ShOff(b) + 40 * ShNum(b) <= |b|
  }

  function ShType(b: seq<byte>, i: nat): u32
    requires HasShdrs(b) && i < ShNum(b)
  {
    Word(b, ShOff(b) + 40 * i + 4)
  }

  function ShOffset(b: seq<byte>, i: nat): u32
    requires HasShdrs(b) && i < ShNum(b)
  {
    Word(b, ShOff(b) + 40 * i + 16)
  }

  /** Number of 16-byte symbol records in section `i`. */
  function SymCount(b: seq<byte>, i: nat): nat
    requires HasShdrs(b) && i < ShNum(b)
  {
    Word(b, ShOff(b) + 40 * i + 20) / 16
  }

  function ShLink(b: seq<byte>, i: nat): u32
    requires HasShdrs(b) && i < ShNum(b)
  {
    Word(b, ShOff(b) + 40 * i + 24)
  }

  /** If section `i` is a symbol table, its records and their names lie in the blob. */
  predicate ValidSymtab(b: seq<byte>, i: nat)
    requires HasShdrs(b) && i < ShNum(b)
  {
    ShType(b, i) == SHT_SYMTAB ==>
      && ShOffset(b, i) + 16 * SymCount(b, i) <= |b|
      && ShLink(b, i) < ShNum(b)
      && forall j :: 0 <= j < SymCount(b, i) ==>
           Terminated(b, ShOffset(b, ShLink(b, i)) + Word(b, ShOffset(b, i) + 16 * j))
  }

  predicate ValidSymtabs(b: seq<byte>) {
    HasShdrs(b) && forall i :: 0 <= i < ShNum(b) ==> ValidSymtab(b, i)
  }

  function SymName(b: seq<byte>, i: nat, j: nat): seq<byte>
    requires ValidSymtabs(b) && i < ShNum(b) && ShType(b, i) == SHT_SYMTAB && j < SymCount(b, i)
  {
    assert ValidSymtab(b, i);
    CStrAt(b, ShOffset(b, ShLink(b, i)) + Word(b, ShOffset(b, i) + 16 * j))
  }

  function SymValue(b: seq<byte>, i: nat, j: nat): u32
    requires ValidSymtabs(b) && i < ShNum(b) && ShType(b, i) == SHT_SYMTAB && j < SymCount(b, i)
  {
    assert ValidSymtab(b, i);
    Word(b, ShOffset(b, i) + 16 * j + 4)
  }

  function SymbolIn(b: seq<byte>, i: nat, j: nat, name: seq<byte>): Option<u32>
    requires ValidSymtabs(b) && i < ShNum(b) && ShType(b, i) == SHT_SYMTAB && j <= SymCount(b, i)
    decreases SymCount(b, i) - j
  {
    if j == SymCount(b, i) then None
    else if SymName(b, i, j) == name then Some(SymValue(b, i, j))
    else SymbolIn(b, i, j + 1, name)
  }

  function SymbolFrom(b: seq<byte>, i: nat, name: seq<byte>): Option<u32>
    requires ValidSymtabs(b) && i <= ShNum(b)
    decreases ShNum(b) - i
  {
    if i == ShNum(b) then None
    else if ShType(b, i) == SHT_SYMTAB && SymbolIn(b, i, 0, name).Some? then SymbolIn(b, i, 0, name)
    else SymbolFrom(b, i + 1, name)
  }

  method FindSymbol(b: seq<byte>, name: seq<byte>) returns (r: Option<u32>)
    requires ValidSymtabs(b)
    ensures r == SymbolFrom(b, 0, name)
  {
    hide ShType, ShOffset, ShLink, SymCount, SymName, SymValue;
    for i := 0 to ShNum(b)
      invariant SymbolFrom(b, 0, name) == SymbolFrom(b, i, name)
    {
      if ShType(b, i) != SHT_SYMTAB {
        continue;
      }
      for j := 0 to SymCount(b, i)
        invariant SymbolIn(b, i, 0, name) == SymbolIn(b, i, j, name)
      {
        if SymName(b, i, j) == name {
          return Some(SymValue(b, i, j));
        }
      }
    }
    return None;
  }

  /** Symbol `j` of section `i` is called `name`. */
  ghost predicate Named(b: seq<byte>, i: nat, j: nat, name: seq<byte>)
    requires ValidSymtabs(b)
  {
    i < ShNum(b) && ShType(b, i) == SHT_SYMTAB && j < SymCount(b, i) && SymName(b, i, j) == name
  }

  lemma {:induction false} SymbolInMeaning(b: seq<byte>, i: nat, j: nat, name: seq<byte>) returns (k: nat)
    requires ValidSymtabs(b) && i < ShNum(b) && ShType(b, i) == SHT_SYMTAB && j <= SymCount(b, i)
    ensures SymbolIn(b, i, j, name).Some? ==>
              k >= j && Named(b, i, k, name) && SymbolIn(b, i, j, name) == Some(SymValue(b, i, k))
    ensures SymbolIn(b, i, j, name).Some? ==> forall l: nat :: j <= l < k ==> !Named(b, i, l, name)
    ensures SymbolIn(b, i, j, name).None? ==> forall l: nat :: j <= l ==> !Named(b, i, l, name)
    decreases SymCount(b, i) - j
  {
    k := j;
    if j < SymCount(b, i) && SymName(b, i, j) != name {
      k := SymbolInMeaning(b, i, j + 1, name);
    }
  }

  /** A found value belongs to the first symbol of that name, in section order
      and then record order; nothing is found exactly when no symbol has the name. */
  lemma {:induction false} SymbolMeaning(b: seq<byte>, i: nat, name: seq<byte>) returns (k: nat, j: nat)
    requires ValidSymtabs(b) && i <= ShNum(b)
    ensures SymbolFrom(b, i, name).Some? ==>
              k >= i && Named(b, k, j, name) && SymbolFrom(b, i, name) == Some(SymValue(b, k, j))
    ensures SymbolFrom(b, i, name).Some? ==>
              forall m: nat, l: nat :: i <= m && (m < k || (m == k && l < j)) ==> !Named(b, m, l, name)
    ensures SymbolFrom(b, i, name).None? ==> forall m: nat, l: nat :: i <= m ==> !Named(b, m, l, name)
    decreases ShNum(b) - i
  {
    hide ShType, ShOffset, ShLink, SymCount, SymName, SymValue;
    k, j := i, 0;
    if i < ShNum(b) {
      if ShType(b, i) == SHT_SYMTAB {
        j := SymbolInMeaning(b, i, 0, name);
      }
      if !(ShType(b, i) == SHT_SYMTAB && SymbolIn(b, i, 0, name).Some?) {
        k, j := SymbolMeaning(b, i + 1, name);
      }
    }
  }

  // ----- shim_poke32 -----

  /** File offset of the word at `vaddr`, for the first load that covers it. */
  function PokeOffset(ps: seq<Phdr>, vaddr: u32): Option<nat> {
    if ps == [] then None
    else
      var p := ps[0];
      if vaddr >= p.vaddr && Add32(vaddr, 4) <= Add32(p.vaddr, p.filesz) then
        Some(Add32(p.offset, vaddr - p.vaddr))
      else PokeOffset(ps[1..], vaddr)
  }

  /** Loadable parts of the shim: page-aligned, ascending and disjoint, in the
      reserved range, backed by bytes of the blob. */
  predicate ValidLoads(b: seq<byte>)
    requires HasPhdrs(b)
  {
    var ps := Loads(b);
    && (forall k :: 0 <= k < |ps| ==>
          && ps[k].vaddr % 0x1000 == 0
          && SHIM_MIN_BASE <= ps[k].vaddr && ps[k].vaddr + ps[k].memsz <= LAST_PAGE
          && ps[k].filesz <= ps[k].memsz
          && ps[k].offset + ps[k].filesz <= |b|)
    && (forall i, j :: 0 <= i < j < |ps| ==> ps[i].vaddr + ps[i].memsz <= ps[j].vaddr)
  }

  const ENTRY_TARGET := Ascii("shim_pe_entry_target")
  const START := Ascii("_start")

  /** The blob is a valid ELF32 file as the conversion needs it. */
  predicate ValidShim(b: seq<byte>) {
    && |b| < MOD32
    && HasPhdrs(b)
    && ValidSymtabs(b)
    && ValidLoads(b)
    && (SymbolFrom(b, 0, ENTRY_TARGET).Some? ==> SymbolFrom(b, 0, ENTRY_TARGET).value + 4 < MOD32)
  }

  /** What is built into winlift: a valid shim and its table of supported imports. */
  type EmbeddedShim = s: ShimData | ValidShim(s.blob) witness (EmptyShimValid(); ShimData(Zeros(EHDR_SIZE), []))

  lemma EmptyShimValid()
    ensures ValidShim(Zeros(EHDR_SIZE))
  {
    assert Loads(Zeros(EHDR_SIZE)) == [];
  }

  /** The value of the first symbol called `name`. */
  function Symbol(shim: EmbeddedShim, name: seq<byte>): Option<u32> {
    SymbolFrom(shim.blob, 0, name)
  }

  /** The address that the shim offers for an imported function. */
  function Resolve(shim: EmbeddedShim, dll: seq<byte>, fn: seq<byte>): Option<u32> {
    var symbol := LookupFrom(shim.table, 0, dll, fn);
    if symbol.None? then None else Symbol(shim, symbol.value)
  }

  method Poke32(b: seq<byte>, mutable: array<byte>, vaddr: u32, value: u32) returns (ok: bool)
    requires ValidShim(b) && mutable.Length == |b| && vaddr + 4 < MOD32
    modifies mutable
    ensures ok == PokeOffset(Loads(b), vaddr).Some?
    ensures ok ==> PokeOffset(Loads(b), vaddr).value + 4 <= |b|
    ensures mutable[..]
         == if ok then Splice(old(mutable[..]), PokeOffset(Loads(b), vaddr).value, Bytes32(value)) else old(mutable[..])
  {
    PokeInFile(b, vaddr);
    hide PhOff, PhNum, Add32;
    for i := 0 to PhNum(b)
      invariant mutable[..] == old(mutable[..])
      invariant PokeOffset(Loads(b), vaddr) == PokeOffset(LoadsFrom(b, i), vaddr)
    {
      var p := ReadPhdr(b, PhOff(b) + 32 * i);
      if p.ptype != PT_LOAD {
        continue;
      }
      assert LoadsFrom(b, i)[1..] == LoadsFrom(b, i + 1);
      if vaddr >= p.vaddr && Add32(vaddr, 4) <= Add32(p.vaddr, p.filesz) {
        Store32(mutable, Add32(p.offset, vaddr - p.vaddr), value);
        return true;
      }
    }
    return false;
  }

  /** The poked word lies in the file range of one load. */
  lemma {:induction false} PokeInLoad(ps: seq<Phdr>, b: seq<byte>, vaddr: u32) returns (k: nat)
    requires |b| < MOD32 && vaddr + 4 < MOD32
    requires forall k :: 0 <= k < |ps| ==>
      ps[k].vaddr + ps[k].memsz < MOD32 && ps[k].filesz <= ps[k].memsz && ps[k].offset + ps[k].filesz <= |b|
    ensures PokeOffset(ps, vaddr).Some? ==>
      && k < |ps|
      && ps[k].vaddr <= vaddr && vaddr + 4 <= ps[k].vaddr + ps[k].filesz
      && PokeOffset(ps, vaddr) == Some(ps[k].offset + (vaddr - ps[k].vaddr))
      && ps[k].offset + (vaddr - ps[k].vaddr) + 4 <= |b|
  {
    k := 0;
    if ps != [] {
      var p := ps[0];
      if !(vaddr >= p.vaddr && Add32(vaddr, 4) <= Add32(p.vaddr, p.filesz)) {
        k := PokeInLoad(ps[1..], b, vaddr);
        k := k + 1;
      }
    }
  }

  lemma PokeInFile(b: seq<byte>, vaddr: u32)
    requires ValidShim(b) && vaddr + 4 < MOD32
    ensures var o := PokeOffset(Loads(b), vaddr); o.Some? ==> o.value + 4 <= |b|
  {
    var _ := PokeInLoad(Loads(b), b, vaddr);
  }
}
