/** The ELF32 container: segments, program headers, and what a loader builds from them. */
module Elf32 {
  import opened Words

  const EHDR_SIZE := 52
  const PHDR_SIZE := 32
  const PT_LOAD: u32 := 1
  const MAX_SEGMENTS := 64
  const PF_X: u32 := 1
  const PF_W: u32 := 2
  const PF_R: u32 := 4

  /** A pointer into a buffer. `B` is `array<byte>` for a pointer into live
      storage and `seq<byte>` for a snapshot of it. */
  datatype View<+B> = View(buf: B, off: nat)

  datatype Segment<+B> = Segment(vaddr: u32, flags: u32, fileOffset: u32, filesz: u32, memsz: u32,
                                 data: Option<View<B>>)

  type Seg = Segment<seq<byte>>

  datatype Phdr = Phdr(ptype: u32, offset: u32, vaddr: u32, paddr: u32, filesz: u32, memsz: u32, flags: u32, align: u32)

  // ----- segments held in memory -----

  /** The view covers the bytes that the segment takes from it. */
  predicate InBuffer(s: Seg) {
    s.data.Some? ==> s.data.value.off + s.filesz <= |s.data.value.buf|
  }

  predicate AllInBuffer(segs: seq<Seg>) {
    forall k :: 0 <= k < |segs| ==> InBuffer(segs[k])
  }

  function Data(s: Seg): (d: seq<byte>)
    requires InBuffer(s) && s.data.Some?
    ensures |d| == s.filesz
  {
    s.data.value.buf[s.data.value.off..s.data.value.off + s.filesz]
  }

  /** The byte that one segment puts at address `a`: file bytes, then zero fill. */
  function SegByte(s: Seg, a: nat): Option<byte>
    requires InBuffer(s)
  {
    if s.vaddr <= a < s.vaddr + s.memsz then
      if a - s.vaddr < s.filesz && s.data.Some? then Some(Data(s)[a - s.vaddr]) else Some(0)
    else None
  }

  /** The byte at `a` once every segment is mapped in order, later ones over earlier ones. */
  function SegMemory(segs: seq<Seg>, a: nat): Option<byte>
    requires AllInBuffer(segs)
  {
    if segs == [] then None
    else
      var later := SegMemory(segs[1..], a);
      if later.Some? then later else SegByte(segs[0], a)
  }

  lemma {:induction false} SegMemoryConcat(s: seq<Seg>, t: seq<Seg>, a: nat)
    requires AllInBuffer(s) && AllInBuffer(t)
    ensures AllInBuffer(s + t)
    ensures SegMemory(s + t, a) == if SegMemory(t, a).Some? then SegMemory(t, a) else SegMemory(s, a)
  {
    if s == [] {
      assert s + t == t;
    } else {
      assert (s + t)[1..] == s[1..] + t;
      SegMemoryConcat(s[1..], t, a);
    }
  }

  /** Where no segment starts at or below `a` and ends above it, nothing is mapped. */
  lemma {:induction false} SegMemoryNone(segs: seq<Seg>, a: nat)
    requires AllInBuffer(segs)
    requires forall k :: 0 <= k < |segs| ==> !(segs[k].vaddr <= a < segs[k].vaddr + segs[k].memsz)
    ensures SegMemory(segs, a) == None
  {
    if segs != [] {
      SegMemoryNone(segs[1..], a);
    }
  }

  /** A segment that alone covers `a` decides the byte there. */
  lemma {:induction false} SegMemoryAt(segs: seq<Seg>, k: nat, a: nat)
    requires AllInBuffer(segs) && k < |segs|
    requires segs[k].vaddr <= a < segs[k].vaddr + segs[k].memsz
    requires forall j :: k < j < |segs| ==> !(segs[j].vaddr <= a < segs[j].vaddr + segs[j].memsz)
    ensures SegMemory(segs, a) == SegByte(segs[k], a)
  {
    if k == 0 {
      SegMemoryNone(segs[1..], a);
    } else {
      SegMemoryAt(segs[1..], k - 1, a);
    }
  }

  // ----- the file format -----

  function PhdrOf(s: Seg): Phdr {
    Phdr(PT_LOAD, s.fileOffset, s.vaddr, s.vaddr, s.filesz, s.memsz, s.flags, PAGE_SIZE)
  }

  /** The fields of a program header that loads segment `s` (System V gABI, chapter 5, "Program Header"). */
  predicate Describes(p: Phdr, s: Seg) {
    && p.ptype == 1 && p.offset == s.fileOffset && p.vaddr == s.vaddr && p.paddr == s.vaddr
    && p.filesz == s.filesz && p.memsz == s.memsz && p.flags == s.flags && p.align == 0x1000
  }

  /** The program headers that describe `segs`. */
  function PhdrsOf(segs: seq<Seg>): (ps: seq<Phdr>)
    ensures |ps| == |segs|
    ensures forall k :: 0 <= k < |segs| ==> ps[k] == PhdrOf(segs[k])
  {
    if segs == [] then [] else [PhdrOf(segs[0])] + PhdrsOf(segs[1..])
  }

  function EhdrBytes(entry: u32, n: u16): (b: seq<byte>)
    ensures |b| == EHDR_SIZE
  {
    [0x7F, 0x45, 0x4C, 0x46, 1, 1, 1, 0, 0, 0, 0, 0, 0, 0, 0, 0, 2, 0, 3, 0]
    + Pack([1, entry, EHDR_SIZE, 0, 0])
    + (Bytes16(EHDR_SIZE) + Bytes16(PHDR_SIZE) + Bytes16(n) + [0, 0, 0, 0, 0, 0])
  }

  function PhdrBytes(p: Phdr): (b: seq<byte>)
    ensures |b| == PHDR_SIZE
  {
    Pack([p.ptype, p.offset, p.vaddr, p.paddr, p.filesz, p.memsz, p.flags, p.align])
  }

  function PhdrTable(segs: seq<Seg>): (b: seq<byte>)
    ensures |b| == 32 * |segs|
  {
    if segs == [] then [] else PhdrTable(segs[..|segs| - 1]) + PhdrBytes(PhdrOf(segs[|segs| - 1]))
  }

  function ReadPhdr(f: seq<byte>, o: nat): Phdr
    requires o + PHDR_SIZE <= |f|
  {
    Phdr(Word(f, o), Word(f, o + 4), Word(f, o + 8), Word(f, o + 12),
         Word(f, o + 16), Word(f, o + 20), Word(f, o + 24), Word(f, o + 28))
  }

  function EntryOf(f: seq<byte>): u32
    requires EHDR_SIZE <= |f|
  {
    Word(f, 24)
  }

  function PhOff(f: seq<byte>): u32
    requires EHDR_SIZE <= |f|
  {
    Word(f, 28)
  }

  function PhNum(f: seq<byte>): u16
    requires EHDR_SIZE <= |f|
  {
    Half(f, 44)
  }

  predicate HasPhdrs(f: seq<byte>) {
    EHDR_SIZE <= |f| && PhOff(f) + 32 * PhNum(f) <= |f|
  }

  /** The program-header walk: the `PT_LOAD` entries from index `i` on, in table order. */
  function LoadsFrom(f: seq<byte>, i: nat): seq<Phdr>
    requires HasPhdrs(f) && i <= PhNum(f)
    decreases PhNum(f) - i
  {
    if i == PhNum(f) then []
    else
      var p := ReadPhdr(f, PhOff(f) + 32 * i);
      if p.ptype == PT_LOAD then [p] + LoadsFrom(f, i + 1) else LoadsFrom(f, i + 1)
  }

  function Loads(f: seq<byte>): seq<Phdr>
    requires HasPhdrs(f)
  {
    LoadsFrom(f, 0)
  }

  // ----- program loading (System V gABI, chapter 5) -----

  /** The first `p_filesz` bytes come from the file, the rest up to `p_memsz` are zero. */
  function PhdrByte(f: seq<byte>, p: Phdr, a: nat): Option<byte> {
    if p.vaddr <= a < p.vaddr + p.memsz then
      if a - p.vaddr < p.filesz then
        if p.offset + (a - p.vaddr) < |f| then Some(f[p.offset + (a - p.vaddr)]) else None
      else Some(0)
    else None
  }

  function Memory(f: seq<byte>, ps: seq<Phdr>, a: nat): Option<byte> {
    if ps == [] then None
    else
      var later := Memory(f, ps[1..], a);
      if later.Some? then later else PhdrByte(f, ps[0], a)
  }

  /** A little-endian 32-bit i386 executable of the current version,
      with headers of the usual sizes and without sections. */
  predicate Executable(f: seq<byte>) {
    && EHDR_SIZE <= |f|
    && f[..16] == [0x7F, 0x45, 0x4C, 0x46, 1, 1, 1, 0, 0, 0, 0, 0, 0, 0, 0, 0]
    && Half(f, 16) == 2 && Half(f, 18) == 3 && Word(f, 20) == 1
    && Word(f, 32) == 0 && Word(f, 36) == 0 && Half(f, 40) == 52 && Half(f, 42) == 32
    && Half(f, 46) == 0 && Half(f, 48) == 0 && Half(f, 50) == 0
  }

  /** The byte that loading the ELF file `f` leaves at address `a`. */
  function LoadedByte(f: seq<byte>, a: nat): Option<byte> {
    if Executable(f) && HasPhdrs(f) then Memory(f, Loads(f), a) else None
  }

  /** Program header `p` describes segment `s`, and its file range holds the segment's data. */
  predicate Carries(f: seq<byte>, p: Phdr, s: Seg)
    requires InBuffer(s)
  {
    && p.vaddr == s.vaddr && p.memsz == s.memsz && p.filesz == s.filesz
    && (s.filesz > 0 ==>
          && s.data.Some? && p.offset + p.filesz <= |f|
          && f[p.offset..p.offset + p.filesz] == Data(s))
  }

  lemma PhdrByteIsSegByte(f: seq<byte>, p: Phdr, s: Seg, a: nat)
    requires InBuffer(s) && Carries(f, p, s)
    ensures PhdrByte(f, p, a) == SegByte(s, a)
  {
    if s.vaddr <= a < s.vaddr + s.memsz && a - s.vaddr < s.filesz {
      assert f[p.offset..p.offset + p.filesz][a - s.vaddr] == f[p.offset + (a - p.vaddr)];
    }
  }

  /** Loading program headers that carry the segments gives the segments' memory. */
  lemma {:induction false} MemoryOfSegments(f: seq<byte>, ps: seq<Phdr>, segs: seq<Seg>, a: nat)
    requires AllInBuffer(segs) && |ps| == |segs|
    requires forall k :: 0 <= k < |segs| ==> Carries(f, ps[k], segs[k])
    ensures Memory(f, ps, a) == SegMemory(segs, a)
  {
    if segs != [] {
      PhdrByteIsSegByte(f, ps[0], segs[0], a);
      MemoryOfSegments(f, ps[1..], segs[1..], a);
    }
  }

  lemma {:induction false} MemoryNone(f: seq<byte>, ps: seq<Phdr>, a: nat)
    requires forall k :: 0 <= k < |ps| ==> !(ps[k].vaddr <= a < ps[k].vaddr + ps[k].memsz)
    ensures Memory(f, ps, a) == None
  {
    if ps != [] {
      MemoryNone(f, ps[1..], a);
    }
  }

  /** A load that no later one overlaps decides the byte. */
  lemma {:induction false} MemoryAt(f: seq<byte>, ps: seq<Phdr>, k: nat, a: nat)
    requires k < |ps| && PhdrByte(f, ps[k], a).Some?
    requires forall j :: k < j < |ps| ==> !(ps[j].vaddr <= a < ps[j].vaddr + ps[j].memsz)
    ensures Memory(f, ps, a) == PhdrByte(f, ps[k], a)
    decreases k
  {
    if k == 0 {
      MemoryNone(f, ps[1..], a);
    } else {
      MemoryAt(f, ps[1..], k - 1, a);
    }
  }

  /** The little-endian word that a running program reads at `a`. */
  function LoadedWord(f: seq<byte>, a: nat): Option<u32> {
    var b0, b1, b2, b3 := LoadedByte(f, a), LoadedByte(f, a + 1), LoadedByte(f, a + 2), LoadedByte(f, a + 3);
    if b0.Some? && b1.Some? && b2.Some? && b3.Some? then
      Some(Word([b0.value, b1.value, b2.value, b3.value], 0))
    else None
  }

  lemma LoadedWordIs(f: seq<byte>, a: nat, v: u32)
    requires forall i :: 0 <= i < 4 ==> LoadedByte(f, a + i) == Some(Bytes32(v)[i])
    ensures LoadedWord(f, a) == Some(v)
  {
    var bs := Bytes32(v);
    assert LoadedByte(f, a + 0) == Some(bs[0]) && LoadedByte(f, a + 1) == Some(bs[1]);
    assert LoadedByte(f, a + 2) == Some(bs[2]) && LoadedByte(f, a + 3) == Some(bs[3]);
    assert bs == [bs[0], bs[1], bs[2], bs[3]];
    WordOfBytes32(v);
  }

  // ----- reading back what the writer emits -----

  lemma ReadPhdrBytes(f: seq<byte>, o: nat, p: Phdr)
    requires o + PHDR_SIZE <= |f| && f[o..o + PHDR_SIZE] == PhdrBytes(p)
    ensures ReadPhdr(f, o) == p
  {
    var ws := [p.ptype, p.offset, p.vaddr, p.paddr, p.filesz, p.memsz, p.flags, p.align];
    var b := f[o..o + PHDR_SIZE];
    forall k | 0 <= k < 8
      ensures Word(f, o + 4 * k) == ws[k]
    {
      WordOfPack(ws, k);
      assert Word(b, 4 * k) == Word(f, o + 4 * k);
    }
    assert Word(f, o + 4 * 0) == ws[0] && Word(f, o + 4 * 1) == ws[1] && Word(f, o + 4 * 2) == ws[2]
           && Word(f, o + 4 * 3) == ws[3];
    assert Word(f, o + 4 * 4) == ws[4] && Word(f, o + 4 * 5) == ws[5] && Word(f, o + 4 * 6) == ws[6]
           && Word(f, o + 4 * 7) == ws[7];
  }

  lemma {:induction false} PhdrTableAt(segs: seq<Seg>, k: nat)
    requires k < |segs|
    ensures PhdrTable(segs)[32 * k..32 * k + PHDR_SIZE] == PhdrBytes(PhdrOf(segs[k]))
  {
    var n := |segs| - 1;
    if k < n {
      PhdrTableAt(segs[..n], k);
      assert PhdrTable(segs)[32 * k..32 * k + PHDR_SIZE]
          == PhdrTable(segs[..n])[32 * k..32 * k + PHDR_SIZE];
    }
  }

  /** The header fields of any file that starts with the emitted ELF header. */
  lemma ReadEhdr(f: seq<byte>, entry: u32, n: u16)
    requires EHDR_SIZE <= |f| && f[..EHDR_SIZE] == EhdrBytes(entry, n)
    ensures EntryOf(f) == entry && PhOff(f) == EHDR_SIZE && PhNum(f) == n
  {
    var ident := [0x7F, 0x45, 0x4C, 0x46, 1, 1, 1, 0, 0, 0, 0, 0, 0, 0, 0, 0, 2, 0, 3, 0];
    var ws: seq<u32> := [1, entry, EHDR_SIZE, 0, 0];
    var tail := Bytes16(EHDR_SIZE) + Bytes16(PHDR_SIZE) + Bytes16(n) + [0, 0, 0, 0, 0, 0];
    var e := EhdrBytes(entry, n);
    assert e == ident + Pack(ws) + tail;
    WordOfPack(ws, 1);
    WordOfPack(ws, 2);
    WordOfConcat(ident + Pack(ws), tail, 24);
    WordOfConcat(ident + Pack(ws), tail, 28);
    WordOfConcat(ident, Pack(ws), 24);
    WordOfConcat(ident, Pack(ws), 28);
    HalfOfConcat(ident + Pack(ws), tail, 44);
    assert f == e + f[EHDR_SIZE..];
    WordOfConcat(e, f[EHDR_SIZE..], 24);
    WordOfConcat(e, f[EHDR_SIZE..], 28);
    HalfOfConcat(e, f[EHDR_SIZE..], 44);
  }

  lemma FiveWords(ws: seq<u32>)
    requires |ws| == 5
    ensures Pack(ws) == Bytes32(ws[0]) + (Bytes32(ws[1]) + (Bytes32(ws[2]) + (Bytes32(ws[3]) + Bytes32(ws[4]))))
  {
    hide Bytes32;
    var a, b, c, d := ws[1..], ws[2..], ws[3..], ws[4..];
    assert a[1..] == b && b[1..] == c && c[1..] == d && d[1..] == [];
    assert Pack(d) == Bytes32(d[0]) + Pack([]) && Pack(c) == Bytes32(c[0]) + Pack(d);
    assert Pack(b) == Bytes32(b[0]) + Pack(c) && Pack(a) == Bytes32(a[0]) + Pack(b);
  }

  /** The fixed parts of a file that starts with the emitted ELF header. */
  lemma IdentPiece(f: seq<byte>, entry: u32, n: u16)
    requires EHDR_SIZE <= |f| && f[..EHDR_SIZE] == EhdrBytes(entry, n)
    ensures f[..24] == [0x7F, 0x45, 0x4C, 0x46, 1, 1, 1, 0, 0, 0, 0, 0, 0, 0, 0, 0, 2, 0, 3, 0] + Bytes32(1)
    ensures f[32..40] == Bytes32(0) + Bytes32(0)
    ensures f[40..44] == Bytes16(52) + Bytes16(32) && f[46..52] == [0, 0, 0, 0, 0, 0]
  {
    hide Bytes32, Bytes16;
    var ident := [0x7F, 0x45, 0x4C, 0x46, 1, 1, 1, 0, 0, 0, 0, 0, 0, 0, 0, 0, 2, 0, 3, 0];
    var ws: seq<u32> := [1, entry, EHDR_SIZE, 0, 0];
    var e, tail := EhdrBytes(entry, n), Bytes16(EHDR_SIZE) + Bytes16(PHDR_SIZE) + Bytes16(n) + [0, 0, 0, 0, 0, 0];
    FiveWords(ws);
    assert e == ident + Pack(ws) + tail;
    assert f[..24] == e[..24] && f[32..40] == e[32..40] == Pack(ws)[12..20];
    assert f[40..44] == e[40..44] == tail[0..4] && f[46..52] == e[46..52] == tail[6..12];
  }

  lemma ReadIdent(f: seq<byte>, entry: u32, n: u16)
    requires EHDR_SIZE <= |f| && f[..EHDR_SIZE] == EhdrBytes(entry, n)
    ensures Executable(f)
  {
    hide EhdrBytes;
    IdentPiece(f, entry, n);
    var t, u, v, w := f[..24], f[32..40], f[40..44], f[46..52];
    assert f[..16] == t[..16] && f[16] == t[16] && f[17] == t[17] && f[18] == t[18] && f[19] == t[19];
    assert f[20] == t[20] && f[21] == t[21] && f[22] == t[22] && f[23] == t[23];
    assert f[32] == u[0] && f[33] == u[1] && f[34] == u[2] && f[35] == u[3];
    assert f[36] == u[4] && f[37] == u[5] && f[38] == u[6] && f[39] == u[7];
    assert f[40] == v[0] && f[41] == v[1] && f[42] == v[2] && f[43] == v[3];
    assert f[46] == w[0] && f[47] == w[1] && f[48] == w[2] && f[49] == w[3] && f[50] == w[4] && f[51] == w[5];
  }

  /** `f` starts with an ELF header and the program-header table of `segs`. */
  predicate StartsWithHeaders(f: seq<byte>, entry: u32, segs: seq<Seg>) {
    && |segs| < 0x1_0000
    && EHDR_SIZE + 32 * |segs| <= |f|
    && f[..EHDR_SIZE] == EhdrBytes(entry, |segs|)
    && f[EHDR_SIZE..EHDR_SIZE + 32 * |segs|] == PhdrTable(segs)
  }

  lemma TableEntry(f: seq<byte>, entry: u32, segs: seq<Seg>, i: nat)
    requires StartsWithHeaders(f, entry, segs) && i < |segs|
    ensures ReadPhdr(f, EHDR_SIZE + 32 * i) == PhdrOf(segs[i])
  {
    PhdrTableAt(segs, i);
    hide PhdrTable, PhdrBytes, EhdrBytes, ReadPhdr;
    var o := EHDR_SIZE + 32 * i;
    SliceOfSlice(f, EHDR_SIZE, EHDR_SIZE + 32 * |segs|, 32 * i, 32 * i + PHDR_SIZE);
    ReadPhdrBytes(f, o, PhdrOf(segs[i]));
  }

  /** The table walk over a file made of an ELF header, the table and anything after it. */
  lemma {:induction false} LoadsOfTable(f: seq<byte>, entry: u32, segs: seq<Seg>, i: nat)
    requires StartsWithHeaders(f, entry, segs) && i <= |segs|
    ensures HasPhdrs(f) && PhNum(f) == |segs| && PhOff(f) == EHDR_SIZE && EntryOf(f) == entry
    ensures LoadsFrom(f, i) == PhdrsOf(segs[i..])
    decreases |segs| - i
  {
    ReadEhdr(f, entry, |segs|);
    hide PhdrTable, PhdrBytes, EhdrBytes, ReadPhdr, PhOff, PhNum, PhdrOf;
    if i < |segs| {
      LoadsOfTable(f, entry, segs, i + 1);
      TableEntry(f, entry, segs, i);
      assert segs[i..][1..] == segs[i + 1..];
    }
  }
}
