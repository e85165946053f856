/** include/pe_image.h and `pe_rva_to_ptr`: a parsed PE file and its address translation. */
module PeImage {
  import opened Words

  /** Reasons for rejecting a file (include/diagnostics.h). Three outcomes have no code of their
      own there. `ArrayLimit`: an array has reached the largest capacity that an `int` holds
      (reported like `Malformed`). `CountOverflow`: the `int` that counts relocations overflows,
      and the C standard leaves open what follows. `Endless`: the program never comes back. */
  datatype PeError =
    | Truncated | BadDosMagic | Malformed | BadNtSignature | NotI386 | IsDll | NotExecutable
    | Pe32Plus | BadOptHdrMagic | UnsupportedSubsystem | HasDotnet | DelayImports
    | ImageBaseConflict | ForwardedImport | ArrayLimit | CountOverflow | Endless

  datatype Section = Section(name: seq<byte>, rva: u32, vsize: u32, fileOff: u32, fsize: u32, characteristics: u32)
  {
    /** How far the section reaches in memory: `memsz` in src/layout.c. */
    function Extent(): u32 {
      if vsize > fsize then vsize else fsize
    }
  }

  /** `name` is the 128-byte buffer, NUL-filled after the string. */
  datatype ImportFunc = ImportFunc(name: seq<byte>, ordinal: u16, byOrdinal: bool, iatRva: u32)

  /** `dllName` is the 64-byte buffer, NUL-filled after the string. */
  datatype ImportDll = ImportDll(dllName: seq<byte>, funcs: seq<ImportFunc>)

  /** The fields of a parsed image that address translation and layout read. */
  datatype Geometry = Geometry(imageBase: u32, entryRva: u32, sizeOfImage: u32, sizeOfHeaders: u32,
                               sections: seq<Section>, rawSize: nat)

  // ----- pe_rva_to_ptr -----

  /** The answer for the sections from `i` on: an offset into the raw file, or nothing. */
  function TranslateFrom(g: Geometry, i: nat, rva: u32, len: u32): Option<nat>
    requires i <= |g.sections|
    decreases |g.sections| - i
  {
    if i == |g.sections| then None
    else
      var s := g.sections[i];
      if rva >= s.rva && rva + len <= s.rva + s.vsize then
        var within := rva - s.rva;
        if within >= s.fsize || within + len > s.fsize || s.fileOff + within + len > g.rawSize then None
        else Some(s.fileOff + within)
      else TranslateFrom(g, i + 1, rva, len)
  }

  function Translate(g: Geometry, rva: u32, len: u32): (p: Option<nat>)
    ensures p.Some? ==> p.value + len <= g.rawSize
  {
    if rva < g.sizeOfHeaders then
      if rva + len > g.sizeOfHeaders || rva + len > g.rawSize then None else Some(rva)
    else
      TranslateInFile(g, 0, rva, len);
      TranslateFrom(g, 0, rva, len)
  }

  lemma {:induction false} TranslateInFile(g: Geometry, i: nat, rva: u32, len: u32)
    requires i <= |g.sections|
    ensures var p := TranslateFrom(g, i, rva, len); p.Some? ==> p.value + len <= g.rawSize
    decreases |g.sections| - i
  {
    if i < |g.sections| {
      TranslateInFile(g, i + 1, rva, len);
    }
  }

  /** Section `i` is the first that declares the whole range. */
  predicate FirstHolding(g: Geometry, i: nat, rva: u32, len: u32) {
    && i < |g.sections| && Declares(g.sections[i], rva, len)
    && forall j :: 0 <= j < i ==> !Declares(g.sections[j], rva, len)
  }

  predicate Declares(s: Section, rva: u32, len: u32) {
    s.rva <= rva && rva + len <= s.rva + s.vsize
  }

  lemma {:induction false} TranslateFromExact(g: Geometry, i: nat, rva: u32, len: u32, p: nat)
    requires i <= |g.sections| && forall j :: 0 <= j < i ==> !Declares(g.sections[j], rva, len)
    ensures TranslateFrom(g, i, rva, len) == Some(p)
            <==> exists k :: FirstHolding(g, k, rva, len) && BackedAt(g, k, rva, len, p)
    decreases |g.sections| - i
  {
    if i < |g.sections| {
      if Declares(g.sections[i], rva, len) {
        assert FirstHolding(g, i, rva, len);
      } else {
        TranslateFromExact(g, i + 1, rva, len, p);
      }
    }
  }

  /** The range is within the raw data of section `k`, at file position `p`, and begins there. */
  predicate BackedAt(g: Geometry, k: nat, rva: u32, len: u32, p: nat) {
    && k < |g.sections|
    && var s := g.sections[k];
       s.rva <= rva < s.rva + s.fsize && rva + len <= s.rva + s.fsize
       && p == s.fileOff + (rva - s.rva) && p + len <= g.rawSize
  }

  /** Translation, for any image: within the headers, or within the raw data of the first section
      that declares the whole range. */
  lemma TranslateExact(g: Geometry, rva: u32, len: u32, p: nat)
    ensures Translate(g, rva, len) == Some(p) <==>
              if rva < g.sizeOfHeaders then p == rva && rva + len <= g.sizeOfHeaders && rva + len <= g.rawSize
              else exists k :: FirstHolding(g, k, rva, len) && BackedAt(g, k, rva, len, p)
  {
    hide FirstHolding, BackedAt;
    TranslateFromExact(g, 0, rva, len, p);
  }

  /** `pe_image_t`. */
  class Image {
    var imageBase: u32
    var entryRva: u32
    var sizeOfImage: u32
    var sizeOfHeaders: u32
    var subsystem: u16
    var sectionAlignment: u32
    var fileAlignment: u32
    var sections: seq<Section>
    var imports: seq<ImportDll>
    var relocs: seq<u32>
    var hasTls: bool
    var tlsHasCallbacks: bool
    var tlsCallbackRvas: seq<u32>
    var raw: array<byte>

    /** All fields zero, as after `memset`, around the file's bytes. */
    constructor (file: array<byte>)
      ensures raw == file && Geo() == Geometry(0, 0, 0, 0, [], file.Length)
      ensures imports == [] && relocs == [] && tlsCallbackRvas == [] && !hasTls && !tlsHasCallbacks
    {
      imageBase, entryRva, sizeOfImage, sizeOfHeaders := 0, 0, 0, 0;
      subsystem, sectionAlignment, fileAlignment := 0, 0, 0;
      sections, imports, relocs := [], [], [];
      hasTls, tlsHasCallbacks, tlsCallbackRvas := false, false, [];
      raw := file;
    }

    ghost function Geo(): Geometry
      reads this
    {
      Geometry(imageBase, entryRva, sizeOfImage, sizeOfHeaders, sections, raw.Length)
    }

    method RvaToPtr(rva: u32, len: u32) returns (p: Option<nat>)
      ensures p == Translate(Geo(), rva, len)
      ensures p.Some? ==> p.value + len <= raw.Length
    {
      if rva < sizeOfHeaders {
        if rva + len > sizeOfHeaders {
          return None;
        }
        if rva + len > raw.Length {
          return None;
        }
        return Some(rva);
      }
      for i := 0 to |sections|
        invariant TranslateFrom(Geo(), 0, rva, len) == TranslateFrom(Geo(), i, rva, len)
      {
        var s := sections[i];
        if rva >= s.rva && rva + len <= s.rva + s.vsize {
          var within := rva - s.rva;
          if within >= s.fsize {
            return None;
          }
          if within + len > s.fsize {
            return None;
          }
          if s.fileOff + within + len > raw.Length {
            return None;
          }
          return Some(s.fileOff + within);
        }
      }
      return None;
    }
  }

  // ----- reading through translation -----

  /** The byte at RVA `r`, where the file backs one. */
  function ByteAt(g: Geometry, raw: seq<byte>, r: u32): Option<byte>
    requires |raw| == g.rawSize
  {
    var p := Translate(g, r, 1);
    if p.Some? then Some(raw[p.value]) else None
  }

  function WordAt(g: Geometry, raw: seq<byte>, r: u32): Option<u32>
    requires |raw| == g.rawSize
  {
    var p := Translate(g, r, 4);
    if p.Some? then Some(Word(raw, p.value)) else None
  }

  // ----- what the code relies on -----

  /** Checked by `parse_sections`: raw data ends within the file. */
  predicate RawInFile(g: Geometry) {
    forall i :: 0 <= i < |g.sections| ==> g.sections[i].fileOff + g.sections[i].fsize <= g.rawSize
  }

  /** Headers, then sections, in ascending disjoint ranges inside `SizeOfImage`. */
  predicate Ascending(g: Geometry) {
    && g.sizeOfHeaders <= g.sizeOfImage
    && (forall i :: 0 <= i < |g.sections| ==>
          g.sizeOfHeaders <= g.sections[i].rva && g.sections[i].rva + g.sections[i].Extent() <= g.sizeOfImage)
    && (forall i, j :: 0 <= i < j < |g.sections| ==>
          g.sections[i].rva + g.sections[i].Extent() <= g.sections[j].rva)
  }

  /** The raw ranges of headers and sections share no file byte. */
  predicate RawDisjoint(g: Geometry) {
    && (forall i :: 0 <= i < |g.sections| && g.sections[i].fsize > 0 ==> g.sizeOfHeaders <= g.sections[i].fileOff)
    && (forall i, j :: 0 <= i < j < |g.sections| && g.sections[i].fsize > 0 && g.sections[j].fsize > 0 ==>
          g.sections[i].fileOff + g.sections[i].fsize <= g.sections[j].fileOff
          || g.sections[j].fileOff + g.sections[j].fsize <= g.sections[i].fileOff)
  }

  /** What the conversion needs of a parsed image and does not check. */
  predicate WellFormed(g: Geometry) {
    && g.sizeOfHeaders <= g.rawSize
    && Ascending(g)
    && RawDisjoint(g)
    && g.imageBase + g.sizeOfImage < MOD32
  }

  lemma RvaInImage(g: Geometry, rva: u32, len: u32)
    requires Ascending(g) && Translate(g, rva, len).Some?
    ensures rva + len <= g.sizeOfImage || len == 0
  {
    if rva >= g.sizeOfHeaders {
      var k := TranslateFromSection(g, 0, rva, len);
      assert g.sections[k].rva + g.sections[k].Extent() <= g.sizeOfImage;
    }
  }

  // ----- the image in memory -----

  /** File position of the raw byte shown at RVA `r`, for the sections from `i` on. */
  function SectionPos(g: Geometry, i: nat, r: nat): Option<nat>
    requires i <= |g.sections|
    decreases |g.sections| - i
  {
    if i == |g.sections| then None
    else
      var s := g.sections[i];
      if s.rva <= r < s.rva + s.fsize then Some(s.fileOff + (r - s.rva)) else SectionPos(g, i + 1, r)
  }

  function FilePos(g: Geometry, r: nat): Option<nat> {
    if r < g.sizeOfHeaders then Some(r) else SectionPos(g, 0, r)
  }

  /** RVA `r` lies in the headers or in some section's extent. */
  predicate Mapped(g: Geometry, r: nat) {
    r < g.sizeOfHeaders
    || exists i :: 0 <= i < |g.sections| && g.sections[i].rva <= r < g.sections[i].rva + g.sections[i].Extent()
  }

  /** The byte of the PE image at RVA `r`: raw where file-backed, zero in the
      rest of a section, nothing elsewhere (PE/COFF, "Section Table"). */
  function PeByte(g: Geometry, raw: seq<byte>, r: nat): Option<byte>
    requires |raw| == g.rawSize
  {
    var p := FilePos(g, r);
    if p.Some? && p.value < |raw| then Some(raw[p.value])
    else if Mapped(g, r) then Some(0)
    else None
  }

  lemma {:induction false} SectionPosAt(g: Geometry, i: nat, k: nat, r: nat)
    requires Ascending(g) && i <= k < |g.sections|
    requires g.sections[k].rva <= r < g.sections[k].rva + g.sections[k].Extent()
    ensures SectionPos(g, i, r)
         == if r - g.sections[k].rva >= g.sections[k].fsize then None
            else Some(g.sections[k].fileOff + (r - g.sections[k].rva))
    decreases |g.sections| - i
  {
    if i < k {
      assert g.sections[i].rva + g.sections[i].Extent() <= g.sections[k].rva;
      SectionPosAt(g, i + 1, k, r);
    } else if r - g.sections[k].rva >= g.sections[k].fsize {
      SectionPosNone(g, k + 1, r);
    }
  }

  lemma {:induction false} SectionPosNone(g: Geometry, i: nat, r: nat)
    requires i <= |g.sections|
    requires forall j :: i <= j < |g.sections| ==> !(g.sections[j].rva <= r < g.sections[j].rva + g.sections[j].fsize)
    ensures SectionPos(g, i, r) == None
    decreases |g.sections| - i
  {
    if i < |g.sections| {
      SectionPosNone(g, i + 1, r);
    }
  }

  /** The section that a file position of the section part comes from. */
  lemma {:induction false} SectionPosFrom(g: Geometry, i: nat, r: nat) returns (k: nat)
    requires i <= |g.sections| && SectionPos(g, i, r).Some?
    ensures i <= k < |g.sections|
    ensures g.sections[k].rva <= r < g.sections[k].rva + g.sections[k].fsize
    ensures SectionPos(g, i, r) == Some(g.sections[k].fileOff + (r - g.sections[k].rva))
    decreases |g.sections| - i
  {
    var s := g.sections[i];
    if s.rva <= r < s.rva + s.fsize {
      k := i;
    } else {
      k := SectionPosFrom(g, i + 1, r);
    }
  }

  /** No two RVAs show the same file byte. */
  lemma FilePosInjective(g: Geometry, r1: nat, r2: nat)
    requires WellFormed(g)
    requires FilePos(g, r1).Some? && FilePos(g, r1) == FilePos(g, r2)
    ensures r1 == r2
  {
    if r1 >= g.sizeOfHeaders && r2 >= g.sizeOfHeaders {
      var k1 := SectionPosFrom(g, 0, r1);
      var k2 := SectionPosFrom(g, 0, r2);
    } else if r1 >= g.sizeOfHeaders {
      var k := SectionPosFrom(g, 0, r1);
    } else if r2 >= g.sizeOfHeaders {
      var k := SectionPosFrom(g, 0, r2);
    }
  }

  // ----- translation against the image -----

  lemma {:induction false} TranslateFromSection(g: Geometry, i: nat, rva: u32, len: u32) returns (k: nat)
    requires i <= |g.sections| && TranslateFrom(g, i, rva, len).Some?
    ensures i <= k < |g.sections|
    ensures var s := g.sections[k];
      && s.rva <= rva && rva + len <= s.rva + s.vsize
      && rva - s.rva < s.fsize && rva - s.rva + len <= s.fsize
      && TranslateFrom(g, i, rva, len) == Some(s.fileOff + (rva - s.rva))
    decreases |g.sections| - i
  {
    var s := g.sections[i];
    if rva >= s.rva && rva + len <= s.rva + s.vsize {
      k := i;
    } else {
      k := TranslateFromSection(g, i + 1, rva, len);
    }
  }

  /** The answer for a range inside one section of an ascending table. */
  lemma {:induction false} TranslateFromAt(g: Geometry, i: nat, k: nat, rva: u32, len: u32)
    requires Ascending(g) && i <= k < |g.sections| && len > 0
    requires g.sections[k].rva <= rva && rva + len <= g.sections[k].rva + g.sections[k].vsize
    requires g.sections[k].fileOff + g.sections[k].fsize <= g.rawSize
    ensures TranslateFrom(g, i, rva, len)
         == if rva - g.sections[k].rva + len > g.sections[k].fsize then None
            else Some(g.sections[k].fileOff + (rva - g.sections[k].rva))
    decreases |g.sections| - i
  {
    if i < k {
      assert g.sections[i].rva + g.sections[i].Extent() <= g.sections[k].rva;
      TranslateFromAt(g, i + 1, k, rva, len);
    }
  }

  /** A translated range is what the image shows there, byte by byte, and every
      part of it translates to the matching part of the same raw range. */
  lemma TranslateAgrees(g: Geometry, rva: u32, len: u32, k: nat, m: u32)
    requires WellFormed(g) && RawInFile(g)
    requires Translate(g, rva, len).Some? && m > 0 && k + m <= len
    ensures rva + k < MOD32
    ensures FilePos(g, rva + k) == Some(Translate(g, rva, len).value + k)
    ensures Translate(g, rva + k, m) == Some(Translate(g, rva, len).value + k)
  {
    if rva >= g.sizeOfHeaders {
      var j := TranslateFromSection(g, 0, rva, len);
      SectionPosAt(g, 0, j, rva + k);
      TranslateFromAt(g, 0, j, rva + k, m);
    }
  }

  /** RVA `rva` is one of the first min(vsize, fsize) bytes of section `s`. */
  predicate InPrefix(s: Section, rva: nat) {
    s.rva <= rva && rva < s.rva + s.vsize && rva < s.rva + s.fsize
  }

  lemma {:induction false} TranslateFromNone(g: Geometry, i: nat, rva: u32)
    requires i <= |g.sections|
    requires forall j :: i <= j < |g.sections| ==> !InPrefix(g.sections[j], rva)
    ensures TranslateFrom(g, i, rva, 1) == None
    decreases |g.sections| - i
  {
    if i < |g.sections| {
      TranslateFromNone(g, i + 1, rva);
    }
  }

  /** A single byte translates exactly when it lies in the headers or in the
      file-backed and declared prefix of a section. */
  lemma TranslateByteIff(g: Geometry, rva: u32)
    requires WellFormed(g) && RawInFile(g)
    ensures Translate(g, rva, 1).Some? <==>
            rva < g.sizeOfHeaders || exists i :: 0 <= i < |g.sections| && InPrefix(g.sections[i], rva)
  {
    if rva >= g.sizeOfHeaders {
      if i :| 0 <= i < |g.sections| && InPrefix(g.sections[i], rva) {
        TranslateFromAt(g, 0, i, rva, 1);
      } else {
        TranslateFromNone(g, 0, rva);
      }
    }
  }
}
