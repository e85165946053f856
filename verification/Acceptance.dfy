/** Which images winlift converts, why it refuses the others, and the program headers of the output. */
module Acceptance {
  import opened Words
  import opened CStrings
  import opened Elf32
  import opened PeImage
  import opened Layout
  import opened Shim
  import opened StubPatch
  import opened Pipeline
  import opened Meaning

  // ----- imports -----

  /** What is wrong with an import: no table entry supports it, the shim lacks the entry's symbol, or
      its slot has no four raw bytes. */
  ghost predicate Faulty(shim: EmbeddedShim, g: Geometry, r: ImportRef, e: PatchError) {
    match e
    case UnsupportedImport(dll, fn) =>
      dll == r.dll && fn == r.fn && forall k: nat :: !Supports(shim.table, k, r.dll, r.fn)
    case MissingShimSymbol(symbol) =>
      FirstSupport(shim.table, 0, r.dll, r.fn, Some(symbol)) && Symbol(shim, symbol).None?
    case SlotOutOfRange(rva) =>
      rva == r.iatRva && Resolve(shim, r.dll, r.fn).Some? && Translate(g, r.iatRva, 4).None?
    case _ => false
  }

  lemma RefErrorExact(shim: EmbeddedShim, g: Geometry, r: ImportRef, e: PatchError)
    ensures RefError(shim, g, r) == Some(e) <==> Faulty(shim, g, r, e)
    ensures RefError(shim, g, r).None? <==> Resolve(shim, r.dll, r.fn).Some? && Translate(g, r.iatRva, 4).Some?
  {
    hide Supports, SymbolFrom, Translate, LookupFrom;
    LookupMeaning(shim.table, 0, r.dll, r.fn);
    if e.MissingShimSymbol? && FirstSupport(shim.table, 0, r.dll, r.fn, Some(e.symbol)) {
      OneSupport(shim.table, r.dll, r.fn, LookupFrom(shim.table, 0, r.dll, r.fn), e.symbol);
    }
  }

  lemma OneSupport(table: seq<ShimEntry>, dll: seq<byte>, fn: seq<byte>, r: Option<seq<byte>>, symbol: seq<byte>)
    requires FirstSupport(table, 0, dll, fn, r) && FirstSupport(table, 0, dll, fn, Some(symbol))
    ensures r == Some(symbol)
  {
    hide EqualButCase;
    var k: nat :| Supports(table, k, dll, fn) && table[k].shimSymbol == symbol
                  && forall j: nat :: 0 <= j < k ==> !Supports(table, j, dll, fn);
    assert r.Some?;
    var l: nat :| Supports(table, l, dll, fn) && table[l].shimSymbol == r.value
                  && forall j: nat :: 0 <= j < l ==> !Supports(table, j, dll, fn);
    assert !(k < l) && !(l < k);
  }

  ghost predicate Sound(shim: EmbeddedShim, g: Geometry, r: ImportRef) {
    Resolve(shim, r.dll, r.fn).Some? && Translate(g, r.iatRva, 4).Some?
  }

  /** The error of the imports is that of the first faulty one. */
  lemma {:induction false} RefsErrorExact(shim: EmbeddedShim, g: Geometry, refs: seq<ImportRef>)
    ensures RefsError(shim, g, refs).None? <==> forall k :: 0 <= k < |refs| ==> Sound(shim, g, refs[k])
    ensures RefsError(shim, g, refs).Some? ==>
      exists k :: 0 <= k < |refs| && Faulty(shim, g, refs[k], RefsError(shim, g, refs).value)
                  && forall j :: 0 <= j < k ==> Sound(shim, g, refs[j])
    decreases |refs|
  {
    hide RefError, Resolve, Translate, Faulty;
    if refs != [] {
      var e := RefsError(shim, g, refs);
      RefsErrorExact(shim, g, refs[1..]);
      RefErrorExact(shim, g, refs[0], if e.Some? then e.value else ReachesShim);
      if Sound(shim, g, refs[0]) {
        if e.Some? {
          var k :| 0 <= k < |refs[1..]| && Faulty(shim, g, refs[1..][k], e.value)
                   && forall j :: 0 <= j < k ==> Sound(shim, g, refs[1..][j]);
          assert refs[k + 1] == refs[1..][k];
          forall j | 0 <= j < k + 1 ensures Sound(shim, g, refs[j]) {
            assert j > 0 ==> refs[j] == refs[1..][j - 1];
          }
        } else {
          forall j | 0 <= j < |refs| ensures Sound(shim, g, refs[j]) {
            assert j > 0 ==> refs[j] == refs[1..][j - 1];
          }
        }
      } else {
        assert Faulty(shim, g, refs[0], e.value);
      }
      forall k | 0 <= k < |refs[1..]| ensures refs[1..][k] == refs[k + 1] {
      }
    }
  }

  // ----- the entry target -----

  /** Some load of the shim holds the word at `a` in its file data. */
  ghost predicate HeldInFile(ps: seq<Phdr>, a: u32) {
    exists k :: 0 <= k < |ps| && ps[k].vaddr <= a && a + 4 <= ps[k].vaddr + ps[k].filesz
  }

  lemma {:induction false} PokeExact(ps: seq<Phdr>, b: seq<byte>, a: u32)
    requires |b| < MOD32 && a + 4 < MOD32
    requires forall k :: 0 <= k < |ps| ==>
      ps[k].vaddr + ps[k].memsz < MOD32 && ps[k].filesz <= ps[k].memsz && ps[k].offset + ps[k].filesz <= |b|
    ensures PokeOffset(ps, a).Some? <==> HeldInFile(ps, a)
    decreases |ps|
  {
    if ps != [] {
      PokeExact(ps[1..], b, a);
      if k :| 0 <= k < |ps| && ps[k].vaddr <= a && a + 4 <= ps[k].vaddr + ps[k].filesz {
        assert k > 0 ==> ps[1..][k - 1] == ps[k];
      }
    }
  }

  lemma TargetExact(shim: EmbeddedShim)
    ensures TargetOffset(shim).Some? <==>
              Symbol(shim, ENTRY_TARGET).Some? && HeldInFile(Loads(shim.blob), Symbol(shim, ENTRY_TARGET).value)
  {
    hide LoadsFrom, SymbolFrom, ValidSymtabs;
    var t := Symbol(shim, ENTRY_TARGET);
    if t.Some? {
      PokeExact(Loads(shim.blob), shim.blob, t.value);
    }
  }

  // ----- acceptance -----

  lemma Names()
    ensures ENTRY_TARGET == Ascii("shim_pe_entry_target") && START == Ascii("_start")
  {
  }

  /** The image ends, as a 32-bit sum, at or below the shim's range. */
  predicate InRange(g: Geometry) {
    (g.imageBase + g.sizeOfImage) % 0x1_0000_0000 <= 0x0F00_0000
  }

  lemma InRangeExact(g: Geometry)
    ensures InRange(g) <==> Add32(g.imageBase, g.sizeOfImage) <= SHIM_MIN_BASE
  {
  }

  /** An image is converted exactly when it has 1 to 63 sections at page-aligned addresses, passes the range
      check, all its imports are resolved and have slots, the shim has its two symbols and holds the
      target word in its file data, and all segments are at most 64. */
  lemma AcceptedExact(p: LoadedPe, shim: EmbeddedShim)
    ensures Rejects(p, shim).None? <==>
              && 1 <= |p.g.sections| <= 63 && p.g.imageBase % 4096 == 0
              && (forall k :: 0 <= k < |p.g.sections| ==> p.g.sections[k].rva % 4096 == 0)
              && InRange(p.g)
              && (forall k :: 0 <= k < |p.Refs()| ==> Sound(shim, p.g, p.Refs()[k]))
              && Symbol(shim, Ascii("_start")).Some? && Symbol(shim, Ascii("shim_pe_entry_target")).Some?
              && HeldInFile(Loads(shim.blob), Symbol(shim, Ascii("shim_pe_entry_target")).value)
              && |p.g.sections| + 1 + |Loads(shim.blob)| <= 64
  {
    hide LayoutRejects, RefsError, Symbol, TargetOffset, LoadsFrom, HeldInFile, Sound, InRange, Refs, Ascii;
    Names();
    LayoutExact(p.g);
    InRangeExact(p.g);
    RefsErrorExact(shim, p.g, p.Refs());
    TargetExact(shim);
  }

  /** The reasons for a refusal, in the order in which they are found. */
  lemma RefusedExact(p: LoadedPe, shim: EmbeddedShim)
    ensures var r := Rejects(p, shim);
      var sound := forall k :: 0 <= k < |p.Refs()| ==> Sound(shim, p.g, p.Refs()[k]);
      var named := Symbol(shim, START).Some? && Symbol(shim, ENTRY_TARGET).Some?;
      if LayoutRejects(p.g).Some? then r == Some(LayoutFailed(LayoutRejects(p.g).value))
      else if !InRange(p.g) then r == Some(PatchFailed(ReachesShim))
      else if !sound then
        r.Some? && r.value.PatchFailed? && exists k :: 0 <= k < |p.Refs()| && Faulty(shim, p.g, p.Refs()[k], r.value.p)
                                                     && forall j :: 0 <= j < k ==> Sound(shim, p.g, p.Refs()[j])
      else if !named then r == Some(PatchFailed(MissingRequiredSymbols))
      else if !HeldInFile(Loads(shim.blob), Symbol(shim, ENTRY_TARGET).value)
          then r == Some(PatchFailed(EntryTargetNotInShim))
      else if |p.g.sections| + 1 + |Loads(shim.blob)| > 64 then r == Some(PatchFailed(TooManySegments))
      else r == None
  {
    hide LayoutRejects, RefsError, Symbol, TargetOffset, LoadsFrom, HeldInFile, Sound, InRange, Refs, Faulty;
    InRangeExact(p.g);
    RefsErrorExact(shim, p.g, p.Refs());
    TargetExact(shim);
  }

  // ----- permissions in the output -----

  /** Readable, writable and executable as the section's characteristics say; readable when they say nothing. */
  predicate Permits(flags: u32, c: u32) {
    && (flags / 2 % 2 == 1 <==> c / 0x8000_0000 % 2 == 1)
    && (flags / 1 % 2 == 1 <==> c / 0x2000_0000 % 2 == 1)
    && (flags / 4 % 2 == 1 <==> c / 0x4000_0000 % 2 == 1 || (c / 0x8000_0000 % 2 == 0 && c / 0x2000_0000 % 2 == 0))
  }

  lemma FlagsPermit(c: u32)
    ensures Permits(SectionFlags(c), c)
  {
  }

  /** The flags of the laid-out segments. */
  lemma SegmentFlags(g: Geometry, raw: seq<byte>, k: nat)
    requires k < |g.sections|
    ensures PeSegments(g, raw, |g.sections|)[0].flags == 4
    ensures Permits(PeSegments(g, raw, |g.sections|)[k + 1].flags, g.sections[k].characteristics)
  {
    hide SectionFlags, Permits;
    PeSegmentAt(g, raw, |g.sections|, k);
    FlagsPermit(g.sections[k].characteristics);
  }

  lemma {:induction false} ShimFlags(ps: seq<Phdr>, buf: seq<byte>, off: u32, k: nat)
    requires k < |ps|
    ensures ShimSegments(ps, buf, off)[k].flags == ps[k].flags
    decreases |ps|
  {
    hide AlignUp32, Add32;
    if k > 0 {
      ShimFlags(ps[1..], buf, AlignUp32(Add32(off, ps[0].filesz)), k - 1);
    }
  }

  /** In the written file the headers are read-only, every section's segment has the section's permissions, and
      every segment of the shim has its own. */
  lemma OutputPermissions(p: LoadedPe, shim: EmbeddedShim, k: nat, j: nat)
    requires Convertible(p) && Rejects(p, shim).None?
    requires k < |p.g.sections| && j < |Loads(shim.blob)|
    ensures Convert(p, shim).Ok? && HasPhdrs(Convert(p, shim).value)
    ensures var ps := Loads(Convert(p, shim).value);
      && |ps| == |p.g.sections| + 1 + |Loads(shim.blob)|
      && ps[0].flags == 4 && Permits(ps[k + 1].flags, p.g.sections[k].characteristics)
      && ps[|p.g.sections| + 1 + j].flags == Loads(shim.blob)[j].flags
  {
    hide WellFormed, Rejects, Convert, Patched, PeSegments, Permits, LoadsFrom, PokedBlob, FitsFile, Symbol;
    FilesFit(p, shim);
    ConvertedReadsBack(p, shim);
    SegmentFlags(p.g, Patched(p, shim), k);
    ShimFlags(Loads(shim.blob), PokedBlob(shim, p.EntryVa()), NextFree(PePart(p, shim)), j);
    assert FinalSegments(p, shim)[k + 1] == PePart(p, shim)[k + 1];
    assert FinalSegments(p, shim)[0] == PePart(p, shim)[0];
    assert FinalSegments(p, shim)[|p.g.sections| + 1 + j] == ShimPart(p, shim)[j];
  }
}
