# winlift, modelled and proved in Dafny

winlift turns a 32-bit Windows PE executable into a Linux ELF executable without
recompiling it: it parses the file, lays sections out as page-aligned segments at
their original addresses, patches the import slots in place with addresses inside a
precompiled shim, appends the shim's own segments, and writes the file. This project
models that conversion, the parsers, the PE builder in `tools/mkminipe.py`, and the
stateful pieces of the shim's runtime, and proves what they are for.

`dafny verify dfyconfig.toml` checks everything (Dafny 4.11).

## How to read it

Code that changes state is a class or a method with loops, proved equal to a pure
function of its inputs; the laws are lemmas about those functions. Where such a function
decodes or decides something, a lemma whose name ends in `Exact` or `Meaning` states the same in
independent terms: on the bytes of the file, in plain numbers, or with the characters themselves.

| file | models |
|---|---|
| `Words`, `CStrings`, `Numerals` | bytes, little-endian words, 32-bit wrap-around, C strings, positional numerals |
| `Elf32`, `ElfWriter` | segments, program loading, `src/elf_writer.c` |
| `PeImage`, `PeReader` | `pe_rva_to_ptr`, the parsed image, `src/pe_reader.c` |
| `PeImports`, `PeRelocs` | `src/pe_imports.c`, `src/pe_relocs.c` |
| `ImportMeaning`, `LoadMeaning` | which imports stand in an image, and which files are loaded as what, stated on their bytes |
| `RelocWalk`, `RelocRoundTrip` | when the relocation walk ends, what it finds, and encoding a directory |
| `Layout`, `Shim`, `StubPatch` | `src/layout.c`, the shim blob and `src/shim_abi.c`'s look-up, `src/stub_patch.c` |
| `Acceptance` | which images are converted, why the others are not, and the output's permissions |
| `Pipeline`, `Meaning` | `src/main.c`'s sequence and what the converted file means |
| `MkMiniPe`, `RoundTrip`, `RoundTripImports`, `BuilderFields` | `tools/mkminipe.py` and what the parser makes of its files |
| `BuiltProgram` | a built file taken through parser and conversion into a loaded program |
| `FromFile` | from the bytes of a PE file to the loaded memory of its ELF file |
| `ExampleFile`, `Shortfalls` | files with chosen header fields, and those on which the code fails its purpose |
| `ExampleShim`, `CompleteRun` | a concrete shim blob, and every built file converted with it |
| `ShimHeap`, `ShimFormat`, `ShimEnv` | `runtime/shim_startup.c` |
| `FormatLanguage` | what the format strings of `shim_vformat` print |

Four ideas carry the model.

- **Views.** A segment's data is a pointer: a buffer and an offset. `Segment<array<byte>>`
  points into live storage, `Segment<seq<byte>>` into a snapshot, and `DerefAll` reads the
  first as the second. Layout builds views into the image's buffer, patching rewrites that
  buffer afterwards, and the views show the patched bytes because they are the same storage.
- **Loading.** `Elf32.LoadedByte` is the memory that the System V gABI (chapter 5, "Program
  Header" and "Program Loading") builds from a file: the first `p_filesz` bytes from the
  file, zeros up to `p_memsz`. `PeImage.PeByte` is the same for the PE image (PE/COFF
  specification, "Section Table (Section Headers)").
- **Assumptions in one place.** `PeImage.WellFormed` holds what the conversion needs of an
  image and never checks: `SizeOfHeaders` within the file, headers and sections ascending
  and disjoint inside `SizeOfImage`, their raw ranges disjoint, `ImageBase + SizeOfImage`
  below 2^32. `Shim.ValidShim` is what the embedded blob is. Segment count, page alignment,
  raw data within the file, the position of the image below the shim, and that no file offset
  of the output wraps (`Meaning.FilesFit`) follow from the code's own checks.
  `CompleteRun.BuiltConverts` shows that all of this can hold together: every file of the
  builder converts, with a concrete shim, exactly when its image ends below the shim's range.
- **Wrap-around is explicit.** `Add32` is `uint32_t` addition, and every 32-bit cursor in the
  model wraps as in C. Three outcomes stand for what the C code does not report as such, each
  proved to stand for exactly that. `ArrayLimit`: a growing import array has reached the largest
  capacity an `int` holds, and the parser fails (`PeImports.ImportsLimit`). `CountOverflow`: the
  `int` that counts relocations overflows, which the language leaves undefined. `Endless`: the
  relocation loop never ends and nothing undefined happens in it (`RelocWalk.EndlessExact`,
  `Shortfalls.LoadEndless`).

## Where the code falls short of its promise

Each of these is a lemma with the exact condition, a concrete input, or both.

- The relocation walk adds up block sizes in 32 bits. Its cursor comes to an end exactly when it
  never returns to an offset (`RelocWalk.EndsExact`), in particular when no header reaches past
  2^32 (`RelocWalk.FittingEnds`). A cursor that returns either lets the entry count overflow or,
  exactly when it counts nothing in between, runs for ever (`RelocWalk.ForeverExact`).
  `Shortfalls.RelocCountOverflows` is a well-formed file whose count overflows in the fourth round;
  `Shortfalls.RelocsNeverEnd` is a file, with sections that overlap, that the loader never
  finishes reading.
- `SizeOfHeaders` is never compared with the file's size. With raw data in the file, the laid-out
  segments stay within the buffer exactly when it is no larger (`Meaning.HeadersBacked`).
  `Shortfalls.HeadersReachOut` is a file that is loaded and passes layout and patching although it
  is larger.
- The comparison that keeps the image out of the shim's range adds in 32 bits. For an image
  with a proper `SizeOfImage` that passes it, the segments lie in separate pages below the
  shim exactly when `ImageBase + SizeOfImage` does not wrap (`Meaning.RangeCheckExact`).
  `Shortfalls.RangeCheckWraps` is a file that is loaded and converted although its section
  covers the shim.
- `elf_write` keeps its file position in 32 bits. An accepted list of segments reads back
  exactly when no position wraps before the last non-empty segment (`ElfWriter.WriteExact`).
  `Shortfalls.WritePositionWraps` is a file that is loaded and converted, and whose output
  does not hold its segments.
- `shim_heap_alloc` rounds and adds in 32 bits. A block that is handed out is usable exactly
  when neither the rounded size nor the grown break wraps (`ShimHeap.SoundIff`,
  `ShimHeap.RoundingWraps`).
- `shim_vformat` returns the length it promises exactly when that is an `int`
  (`ShimFormat.FormatReturns`); for 2^31 literal characters it is negative
  (`ShimFormat.FormatTooLong`).
- The environment block reads back as the environment exactly when no string is empty
  (`ShimEnv.BlockRoundTrip`), and the command line splits back into the arguments exactly
  when there are some and none contains a space (`ShimEnv.CommandLineSplits`).
- The comment at `src/pe_relocs.c:82-89` says TLS callbacks are run again at process start.
  They are parsed and counted; no code runs them. The model follows the code.

## Model

| member | source | states |
|---|---|---|
| `Meaning.MeaningPreserved` | `src/main.c:82-98` | For every well-formed image that layout and patching accept and every address: loading the written ELF gives the PE image's byte (raw where file-backed, zero in the rest of a section, nothing elsewhere), the shim address byte in import slots, and the shim's own memory in its range. |
| `FromFile.FileMeaning` | `src/main.c:50-98` | For every file that is loaded as a well-formed image: it is converted unless layout or patching rejects it, and then the loaded ELF shows the intended memory at every address. |
| `FromFile.FileLinked` | `src/main.c:50-98` | In the running program made from a file every last-written import slot reads as its symbol's address, and the entry point is handed over. |
| `Meaning.SlotsLinked` | `src/stub_patch.c:76-105` | On success every import is resolved, and in the running program each slot that no later slot overlaps reads as its shim symbol's address. |
| `Meaning.EntryHandoff` | `src/stub_patch.c:117-167` | The ELF enters at the shim's `_start`, and the word `_start` jumps through, read in the loaded program, is ImageBase + AddressOfEntryPoint, although it was stored through a file offset in a private copy. |
| `Meaning.SegmentsSeparate` | `src/stub_patch.c:69-74` | PE and shim segments are page-aligned, ascending and pairwise disjoint even with every extent rounded up to whole pages. |
| `Meaning.FileLayout` | `src/layout.c:39-87` | After layout and shim embedding, file offsets and addresses are page-aligned (hence congruent), file ranges ascend without overlap, and every segment with file data has a buffer. |
| `Meaning.RangeCheckExact` | `src/stub_patch.c:69-74` | For an image whose SizeOfImage is the page end of its last section and that passes the range check, the laid-out segments lie in separate pages and all below the shim if and only if ImageBase + SizeOfImage does not wrap. |
| `Meaning.WrappedImageOutside` | `src/stub_patch.c:69-74` | An image whose ImageBase + SizeOfImage wraps has a segment above the shim's start or pages that overlap. |
| `Meaning.HeadersBacked` | `src/layout.c:58-66` | With raw data in the file, the laid-out views stay within the buffer if and only if SizeOfHeaders is at most the file's size. |
| `Shortfalls.HeadersReachOut` | `src/layout.c:63-65` | A concrete file that is loaded and passes layout and patching, and whose header segment reaches past the end of the buffer. |
| `Meaning.FilesFit` | `src/layout.c:51-87` | The accumulated file offsets of every accepted well-formed image stay below 2^32, because file data is no larger than the separate pages it is mapped to. |
| `Shortfalls.RangeCheckWraps` | `src/stub_patch.c:69-74` | A concrete file, in order but for ImageBase + SizeOfImage, that is loaded and converted although its section covers the shim's load. |
| `Meaning.PeMemory` | `src/layout.c:51-88` | The laid-out segments' memory is the PE image at ImageBase, byte for byte, and nothing below it. |
| `Meaning.PatchedPeByte` | `src/stub_patch.c:76-105` | The image over the patched buffer is the original image with slot bytes replaced: the last writer wins where slots overlap, all other bytes are unchanged. |
| `Meaning.PokedWord` | `src/stub_patch.c:43-59` | The poked word is seen at its address through the shim's loads. |
| `Pipeline.ConvertImage` | `src/main.c:69-98` | The three stages on a private copy produce the specified file or the first stage's error; the loaded file's bytes are left alone. |
| `Pipeline.BuildSpec` | `src/main.c:84-93` | Segments laid out before patching and read through their pointers after it are the layout of the patched bytes, followed by the poked shim's segments. |
| `Shortfalls.WritePositionWraps` | `src/elf_writer.c:79-107` | A concrete file that is loaded, laid out and converted, and whose output does not read back as its segments. |
| `Pipeline.ConversionSucceeds` | `src/elf_writer.c:12-31` | An accepted image whose offsets fit in 32 bits never reaches an internal error of the writer. |
| `Pipeline.ConvertedReadsBack` | `src/main.c:94-99` | The written file's program headers are exactly the final segments, and its entry is the shim's `_start`. |
| `Layout.LayoutImage` | `src/layout.c:33-91` | Rejects in the code's order (section count, base alignment, first unaligned section) or leaves exactly the header and section segments, all pointing into the live image buffer. |
| `Layout.LayoutExact` | `src/layout.c:35-77` | The layout accepts exactly 1 to 63 sections with page-aligned base and addresses; otherwise the number, the base and the first unaligned section are reported in this order. |
| `Acceptance.AcceptedExact` | `src/stub_patch.c:68-170` | An image is converted if and only if it has 1 to 63 page-aligned sections, passes the range comparison, all its imports are resolved and have slots, the shim has `_start` and `shim_pe_entry_target` with the target word in its file data, and all segments are at most 64. |
| `Acceptance.RefusedExact` | `src/stub_patch.c:68-148` | The reason for every refusal, in the order in which the code finds it; for imports, that of the first faulty one. |
| `Acceptance.RefsErrorExact` | `src/stub_patch.c:76-99` | The imports are refused if and only if one is unsupported, lacks its symbol or has no slot, and with the error of the first such one. |
| `Acceptance.OutputPermissions` | `src/elf_writer.c:65-77` | In the written file the headers are read-only, every section's segment is readable, writable and executable as its characteristics say, and the shim's segments keep their flags. |
| `Layout.PermissionsKept` | `src/layout.c:14-21` | A segment is writable or executable if and only if its section is, and readable if the section is or asks for nothing. |
| `Layout.ChainedOffset` | `src/layout.c:51-87` | File offsets are the exact page sums of the preceding data sizes. |
| `Layout.ChainedIsOrdered` | `src/layout.c:47-51` | Offsets are page-aligned, behind the headers, ascending and disjoint in the file. |
| `Layout.ChainedWrites` | `src/elf_writer.c:13-31` | None of the writer's internal-error branches is reachable on a laid-out list of at most 64 segments. |
| `Layout.DerefPeSegments` | `src/layout.c:65-85` | Reading the laid-out views gives the layout of the buffer's present contents, whatever was stored there in between. |
| `StubPatch.StubPatchApply` | `src/stub_patch.c:68-170` | Errors in the code's order; on success the patched buffer, the entry, and the old segments (through their pointers) followed by the shim's segments. |
| `StubPatch.PatchImports` | `src/stub_patch.c:76-105` | The nested loops store every resolved address in (dll, func) order and stop at the first import that fails, leaving the earlier stores in place. |
| `StubPatch.PatchOne` | `src/stub_patch.c:80-103` | One import: unsupported, missing symbol, slot out of range, or its address stored little-endian at the translated slot. |
| `StubPatch.EmbedShim` | `src/stub_patch.c:133-162` | Appends exactly the shim's loads in table order, chained behind the segments so far, or reports that they do not fit. |
| `StubPatch.AllResolved` | `src/stub_patch.c:81-99` | Success means that every import was resolved and had a translatable slot. |
| `StubPatch.StoreAtSlot` | `src/stub_patch.c:95-103` | A stored word changes the image at exactly the four RVAs of its slot. |
| `StubPatch.PatchedAt` | `src/stub_patch.c:76-105` | In-place patching seen by RVA: the last slot that covers it decides, otherwise the raw byte is unchanged, also when the slots lie in the thunk table that was parsed. |
| `StubPatch.SlotHolds` | `src/stub_patch.c:100-103` | A slot that no later slot overlaps keeps the four bytes of its address. |
| `Shim.FindSymbol` | `src/stub_patch.c:20-38` | The search over the blob's symbol tables computes the specified look-up. |
| `Shim.SymbolMeaning` | `src/stub_patch.c:20-38` | A found value belongs to the first symbol of that name in section and record order; nothing is found exactly when no symbol has the name. |
| `Shim.Poke32` | `src/stub_patch.c:43-59` | Changes exactly the four bytes behind the first load that covers the address, or nothing when none does. |
| `Shim.PokeInLoad` | `src/stub_patch.c:46-55` | The poked file offset is the image of the address in a load's file range, although the code compares wrapped sums. |
| `Shim.LookupImport` | `src/shim_abi.c:104-112` | The result is the symbol of the first entry whose DLL name matches ignoring case and whose function name matches exactly, and nothing if and only if no entry does. |
| `Shim.CiStrEq` | `src/shim_abi.c:95-102` | Two names compare equal if and only if they have the same length and agree at every place in the character or, for a letter, up to its case. |
| `Shim.LookupMeaning` | `src/shim_abi.c:104-112` | The same of the table search that resolving an import uses. |
| `ElfWriter.Write` | `src/elf_writer.c:12-116` | The writer's output or error, as a function of the entry and of what the segments' pointers show. |
| `ElfWriter.WriteReadsBack` | `src/elf_writer.c:39-107` | When no file position wraps, reading an accepted file back with the program-header walk gives the same entry and segments, with every field of their headers and their data; it is a valid i386 executable header, all gaps are zero, and the file ends with the last non-empty segment. |
| `ElfWriter.WriteExact` | `src/elf_writer.c:79-107` | An accepted list reads back if and only if no file position wraps before the last non-empty segment. |
| `ElfWriter.WriteAccepts` | `src/elf_writer.c:13-104` | The writer accepts exactly 1 to 64 segments whose data lies behind the headers and, in 32 bits, behind the data before it. |
| `ElfWriter.WriteThenLoad` | `src/elf_writer.c:39-107` | When no file position wraps, loading an accepted file builds exactly the memory that its segments describe. |
| `ElfWriter.EmitPlaces` | `src/elf_writer.c:79-107` | When no position wraps, every segment's data ends up at its declared offset, with zeros in between, in a file that ends with the last of them. |
| `Elf32.LoadsOfTable` | `src/stub_patch.c:141-157` | The program-header walk over a written file visits exactly the written segments. |
| `PeImage.Image.RvaToPtr` | `src/pe_reader.c:47-68` | Address translation, with the code's early answers inside the first matching section. |
| `PeImage.TranslateExact` | `src/pe_reader.c:47-68` | For any image a range translates if and only if it lies within the headers, or within the raw data of the first section that declares all of it. |
| `PeImage.TranslateAgrees` | `src/pe_reader.c:47-68` | A translated range is what the image shows there byte by byte, and every part of it translates to the matching part of the same raw range; the answer depends on no buffer contents, so patching changes no later translation. |
| `PeImage.TranslateByteIff` | `src/pe_reader.c:49-66` | A one-byte query succeeds if and only if the RVA lies in the headers or in the first min(vsize, fsize) bytes of a section. |
| `PeImage.FilePosInjective` | `src/layout.c:51-88` | No two RVAs show the same file byte, so a store through one is seen at no other. |
| `LoadMeaning.LoadExact` | `src/pe_reader.c:106-248` | A file is loaded as an image if and only if the image stands in its bytes: headers found from `e_lfanew` on, the section table behind an optional header of any declared size, and the directories' imports, relocations and callbacks. |
| `LoadMeaning.HeadersExact` | `src/pe_reader.c:111-216` | The headers are accepted if and only if seventeen demands on fields at given offsets from the NT signature are met, with the fields' values; otherwise the error is that of the first demand that is not. |
| `PeReader.LoadImage` | `src/pe_reader.c:106-248` | Loading stores exactly what the file parses to, or returns the first rejection in the code's order; `Endless` only where the C code never returns. |
| `PeReader.LoadBytes` | `src/pe_reader.c:111-242` | The same once the file has been read. |
| `PeReader.ParseSections` | `src/pe_reader.c:70-104` | The section array is the decoded table, or nothing when raw data passes the end of the file. |
| `PeReader.SectionsExact` | `src/pe_reader.c:83-102` | The section table is accepted with a list if and only if its fields are that list's, raw size for a virtual size of 0, and no raw data extends past the end of the file. |
| `PeReader.LoadGuarantees` | `src/pe_reader.c:96-100` | Every accepted file has its sections' raw data within the file and a non-zero base. |
| `PeImports.ImportsExact` | `src/pe_imports.c:113-133` | The directory walk succeeds with a list if and only if the directory holds exactly those DLLs in order and then a zero descriptor; a failed walk leaves the DLLs of the first descriptors. |
| `PeImports.ThunksExact` | `src/pe_imports.c:56-107` | The thunk walk succeeds with a list if and only if the table holds exactly those imports, slot `k` at FirstThunk + 4k, and then a zero thunk. |
| `ImportMeaning.ImportsMeaning` | `src/pe_imports.c:37-133` | The import parser succeeds with a list if and only if the bytes of the directory spell it: five-word descriptors, the look-up table when it is named and else the address table, names of at most 63 and 127 characters in their buffers, ordinals as `#` and a plain decimal numeral, names behind two bytes of hint, slots at FirstThunk + 4k, and zero terminators. |
| `ImportMeaning.FuncExact` | `src/pe_imports.c:74-106` | A thunk decodes to a function if and only if it is an ordinal with this number and name, or points to a readable hint with this name behind it. |
| `ImportMeaning.HintNameDecodes` | `src/pe_imports.c:92-104` | A hint, any name of at most 127 characters and a NUL in one raw range are imported by that name. |
| `ImportMeaning.DllRefused` | `src/pe_imports.c:45-54` | A descriptor is refused as forwarded if and only if its name is readable and its forwarder chain is neither 0 nor all ones; an unreadable name comes first. |
| `PeImports.CStrExact` | `src/pe_imports.c:23-35` | The copied name is the string at the RVA, cut at the buffer's capacity, if and only if its bytes and its terminator are readable. |
| `PeImports.ThunksLimit` | `src/pe_imports.c:59-107` | The capacity limit stops the thunk walk if and only if every position its 32-bit cursor can reach holds a thunk that decodes. |
| `PeImports.ImportsLimit` | `src/pe_imports.c:113-133` | The import parser comes back on every file; an array's capacity limit stops it if and only if every descriptor its cursor can reach decodes, or the first that does not has a thunk table that never ends. |
| `PeImports.ThunksEnd` | `src/pe_imports.c:59-68` | In a well-formed image the thunk walk ends before any capacity limit, by the distance to the highest readable RVA. |
| `PeImports.ImportsEnd` | `src/pe_imports.c:117-131` | So does the directory walk. |
| `Shortfalls.LoadEndless` | `src/pe_reader.c:238-240` | The loader's directory parsers have the outcome `Endless` if and only if the imports succeeded and the relocation walk runs for ever. |
| `PeImports.ParseImports` | `src/pe_imports.c:113-133` | The whole directory stored in the image, or an error and the DLLs parsed before it. |
| `PeImports.WalkDlls` | `src/pe_imports.c:117-131` | The descriptor loop over a growing array computes the specified list and error. |
| `PeImports.ParseOneDll` | `src/pe_imports.c:37-111` | Room in the array, name, forwarder check and thunks of one DLL, with the errors in this order; success appends the DLL and failure leaves the array's elements. |
| `PeImports.WalkThunks` | `src/pe_imports.c:59-107` | The thunk loop over a growing array computes the specified list or error, with the capacity limit before each decoded thunk. |
| `PeImports.ParseThunk` | `src/pe_imports.c:78-104` | One thunk: the synthesized `#<ordinal>`, or the name behind the hint, as `ImportMeaning.FuncExact` states on the bytes. |
| `PeImports.ReadCString` | `src/pe_imports.c:23-35` | Fills a cleared buffer with the string and NULs. |
| `PeImports.GrowArray.EnsureCapacity` | `src/pe_imports.c:13-21` | Makes room for one more and keeps the elements; fails, changing nothing, if and only if the array is full and the doubled capacity is no `int` or is not granted. |
| `PeImports.GrowArray.Append` | `src/pe_imports.c:74-106` | Fills the next element and keeps all earlier ones. |
| `PeImports.GrowArray.MovesAmortized` | `src/pe_imports.c:9-21` | Reallocations have moved fewer than twice as many elements as the array holds, which are at most 2^30. |
| `PeRelocs.ParseRelocs` | `src/pe_relocs.c:8-64` | The relocation list, or an error and no relocations, as `RelocWalk.RelocsExact` characterises it. |
| `RelocWalk.RelocsExact` | `src/pe_relocs.c:8-64` | For every directory, parsing succeeds with a list if and only if readable headers from offset 0 lead to its end with fewer than 2^31 entries and, unless there are none, those are readable and name the list's HIGHLOW addresses in order. |
| `RelocWalk.BlocksExact` | `src/pe_relocs.c:14-28` | Pass 1 accepts a list of blocks if and only if the readable headers of at least 8 bytes from offset 0 on are those blocks, lead to the end of the directory, and have fewer than 2^31 entries. |
| `RelocWalk.EndsExact` | `src/pe_relocs.c:14-28` | The cursor comes to an end if and only if it never returns to an offset where it has been. |
| `RelocWalk.EndlessExact` | `src/pe_relocs.c:14-28` | Pass 1 has the outcome `Endless` if and only if the C loop never ends and its count never overflows, and `CountOverflow` if and only if the count overflows. |
| `RelocWalk.ForeverExact` | `src/pe_relocs.c:13-28` | The loop runs for ever without an overflow if and only if it returns to an offset without having counted an entry in between. |
| `RelocWalk.FittingEnds` | `src/pe_relocs.c:27-27` | When no header on the way reaches past 2^32, the cursor comes to an end. |
| `RelocWalk.SizesFit` | `src/pe_relocs.c:13-27` | While the block sizes sum to less than 2^32, the cursor is their sum and the count fits an `int`. |
| `Shortfalls.RelocCountOverflows` | `src/pe_relocs.c:26-26` | A concrete well-formed file, accepted up to its relocation directory, on which the `int` count overflows in the fourth round. |
| `Shortfalls.RelocsNeverEnd` | `src/pe_relocs.c:27-27` | A concrete file, accepted up to its relocation directory, that the loader never finishes reading; its count stays 0, so nothing undefined happens. |
| `PeRelocs.CountEntries` | `src/pe_relocs.c:14-28` | Pass 1 counts the entries of the blocks it accepts, as an `int`. |
| `PeRelocs.FillEntries` | `src/pe_relocs.c:37-63` | Pass 2 visits exactly the blocks of pass 1: its unchecked pointer is never null and `idx` never exceeds the count. |
| `PeRelocs.NextBlock` | `src/pe_relocs.c:39-43` | Before the end of the directory the next block is one that pass 1 accepted, at the same cursor. |
| `PeRelocs.FillBlock` | `src/pe_relocs.c:49-59` | One block's entries behind what is there, skipping padding and other types. |
| `RelocRoundTrip.RelocsRoundTrip` | `src/pe_relocs.c:8-64` | Any list of page blocks of at least one entry each, with arbitrary padding, encoded in one raw range, parses to exactly its HIGHLOW addresses in order. |
| `PeRelocs.ParseTls` | `src/pe_relocs.c:66-116` | Success leaves the callbacks of the array that the directory points to, none without a directory or an array; failure means that there is no such list. |
| `PeRelocs.WalkCallbacks` | `src/pe_relocs.c:96-114` | Success leaves the list whose addresses the array holds, at most 16 and then a zero; failure means that the array holds no such list. |
| `PeRelocs.TlsExact` | `src/pe_relocs.c:66-116` | The TLS parser succeeds with a list if and only if it is the directory's list of callbacks. |
| `PeRelocs.CallbacksExact` | `src/pe_relocs.c:96-114` | The callback walk succeeds with a list if and only if the words at the array are their addresses, at most 16, and then zero. |
| `MkMiniPe.EmitWithImports` | `tools/mkminipe.py:114-183` | The builder's offset and table loops give the specified file. |
| `MkMiniPe.PlaceTables` | `tools/mkminipe.py:136-147` | Names lie behind the descriptors and thunk tables behind the names. |
| `MkMiniPe.EmitTables` | `tools/mkminipe.py:158-173` | Descriptors, names and thunks as specified for every DLL. |
| `MkMiniPe.TextLimitExact` | `tools/mkminipe.py:54-54` | The largest section with which base plus image size stays below 2^32. |
| `BuilderFields.BuilderHeaders` | `tools/mkminipe.py:35-95` | Every header field of a built file: the DOS header, the COFF header's zero fields, all words of the optional header, and the section's name, unused fields and characteristics. |
| `RoundTrip.BuiltLoads` | `tools/mkminipe.py:35-95` | Every built file's headers are accepted and parse to the builder's parameters. |
| `RoundTrip.BuiltWellFormed` | `tools/mkminipe.py:35-111` | Every built file is well-formed, so the conversion theorems apply to an unbounded family of files. |
| `RoundTrip.PlainBuildRoundTrip` | `tools/mkminipe.py:98-111` | A file built without imports is well-formed, accepted, and parses to an image without imports. |
| `RoundTripImports.BuilderRoundTrip` | `tools/mkminipe.py:114-183` | For any list of DLLs (C-string names of at most 63 bytes, 16-bit ordinals) that fits in 32 bits, the built file is accepted and parses to exactly that list, with `#<ordinal>` names and slots at the emitted thunks. |
| `RoundTripImports.CallOperand` | `tools/mkminipe.py:150-155` | With `call_first_ordinal` the code starts with `FF 15` and the address of the slot that the parser gives to the first import. |
| `BuiltProgram.BuiltSlotsLinked` | `tools/mkminipe.py:169-173` | In the converted and loaded program every emitted thunk of every DLL holds the shim's address for that DLL's `#<ordinal>`. |
| `BuiltProgram.CodeLoaded` | `tools/mkminipe.py:150-155` | The entry code is in memory where the builder put it: no slot overwrites it. |
| `BuiltProgram.BuiltProgramCalls` | `tools/mkminipe.py:122-126` | With `call_first_ordinal`, the loaded program is handed the entry code, whose call operand names a slot that holds the shim's address for the first ordinal. |
| `BuiltProgram.BuiltProgramExits` | `tools/mkminipe.py:24-28` | In the loaded program the entry code ends in the Linux exit call with the chosen code. |
| `CompleteRun.BuiltExits` | `tools/mkminipe.py:98-183` | The same with nothing assumed but that the image ends below the shim. |
| `CompleteRun.BuiltExecutable` | `tools/mkminipe.py:89-91` | Its code is in a segment that is readable and executable and not writable. |
| `CompleteRun.BuiltConverts` | `src/main.c:84-98` | With a concrete shim that supports its imports, a built file meets every assumption of the conversion theorems and converts if and only if its image ends below the shim's range. |
| `CompleteRun.BuiltRuns` | `tools/mkminipe.py:122-126` | With nothing assumed but the list: the converted program enters the shim, is handed the entry code, and calls through a slot that holds the address of a shim function. |
| `ExampleShim.BothSymbols` | `src/stub_patch.c:117-123` | A concrete ELF32 blob has a readable symbol table in which both required symbols are found. |
| `CompleteRun.ShimFacts` | `src/stub_patch.c:117-157` | That blob is a valid shim with both symbols, a target word inside its file data, and one load. |
| `ExampleFile.FileLoads` | `src/pe_reader.c:106-217` | A file with any base, sizes, section table in the file and directories has its headers and sections accepted as chosen. |
| `ShimHeap.Heap.Alloc` | `runtime/shim_startup.c:74-93` | The allocator's new state and answer as a function of the old state, the size and the kernel's answers. |
| `ShimHeap.Heap.Realloc` | `runtime/shim_startup.c:99-110` | A fresh block and the forward byte copy, or nothing changed in memory on failure. |
| `ShimHeap.AllocateExact` | `runtime/shim_startup.c:74-93` | The answer to every fitting request, in plain numbers: the block starts where the last one ended, or at the initial break; when it does not fit below the limit, the break must move by what is missing and by at least 1 MiB, and otherwise the answer is 0 and nothing changes. |
| `ShimHeap.GrantedAnswered` | `runtime/shim_startup.c:83-92` | A kernel that grants exactly what is asked for gets every fitting request answered. |
| `ShimHeap.EveryRequestAnswered` | `runtime/shim_startup.c:74-93` | Over every run with a granting kernel each request gets its block, the first at the initial break. |
| `ShimHeap.SoundIff` | `runtime/shim_startup.c:75-92` | With a kernel that grants exactly or refuses, a block handed out fits below the limit if and only if neither its end nor the grown break wraps. |
| `ShimHeap.AllocateStep` | `runtime/shim_startup.c:83-92` | When nothing wraps, whatever the kernel answers: success is sound, and failed growth leaves the heap unchanged. |
| `ShimHeap.RoundingWraps` | `runtime/shim_startup.c:75-76` | A request for 2^32 - 1 bytes is answered with a 16-byte block. |
| `ShimHeap.BlocksDisjoint` | `runtime/shim_startup.c:74-93` | For every run in which nothing wraps, all blocks ever handed out lie in order without overlap between the initial break and the limit. |
| `ShimHeap.SlackBounded` | `runtime/shim_startup.c:83-88` | When the kernel grants exactly or refuses, the limit runs at most 1 MiB ahead, and the break moves at most once per MiB handed out, plus once. |
| `ShimHeap.NewBlockAbove` | `runtime/shim_startup.c:90-92` | A block handed out after such a run lies above all earlier ones and below the limit. |
| `ShimHeap.StoredInBlock` | `runtime/shim_startup.c:240-249` | What is stored into a new block is there, below the limit, and changes no byte below the block, where all earlier blocks lie. |
| `ShimHeap.CopyRepeats` | `runtime/shim_startup.c:106-107` | The forward copy between overlapping ranges repeats the bytes between the two blocks and touches nothing outside the new one. |
| `ShimHeap.ReallocPreserves` | `runtime/shim_startup.c:99-110` | After any such run, reallocating any of its blocks keeps the first min(old, new) bytes, reads only below the limit, and changes nothing below the new block. |
| `ShimFormat.VFormat` | `runtime/shim_startup.c:160-210` | For every format, matching arguments and capacity, the buffer and the result are those of the unbounded output sent through the bounded writer; the format is read only up to its terminator. |
| `ShimFormat.FormatRefines` | `runtime/shim_startup.c:208-208` | The buffer holds the first min(length, cap - 1) characters of the unbounded output, a NUL, and otherwise what was there. |
| `ShimFormat.FormatReturns` | `runtime/shim_startup.c:209-209` | The result is the unbounded output's length if and only if that is an `int`. |
| `ShimFormat.FormatTooLong` | `runtime/shim_startup.c:209-209` | A format of 2^31 literal characters, for which the result is negative. |
| `ShimFormat.LiteralFormat` | `runtime/shim_startup.c:162-166` | A format without directives prints itself, whatever the arguments. |
| `FormatLanguage.FormatPrints` | `runtime/shim_startup.c:162-207` | Any list of characters and directives, spelled with any `l` modifiers, flags and widths, prints one text per item in order, each the one that its character stands for, with the argument words taken in order; a directive that breaks off at the end prints nothing. |
| `FormatLanguage.FormatMeaning` | `runtime/shim_startup.c:162-207` | The same with the texts as a function of the items. |
| `FormatLanguage.ConvertedExact` | `runtime/shim_startup.c:171-205` | What each conversion prints: a signed or unsigned plain numeral in its base and letter case, `0x` before a pointer, one character, a string or `(null)`, `%`, or `%` and the unknown character. |
| `FormatLanguage.TakesWordExact` | `runtime/shim_startup.c:172-198` | The conversions that take an argument are exactly `diuxXpcs`. |
| `ShimFormat.OutUint` | `runtime/shim_startup.c:136-149` | Emits the numeral of the value; the 32-character digit buffer suffices in every base from 2 to 16. |
| `ShimFormat.OutInt` | `runtime/shim_startup.c:151-158` | Emits the signed decimal numeral. |
| `ShimFormat.OutStr` | `runtime/shim_startup.c:132-134` | Emits the characters before the terminator and reads no further. |
| `ShimFormat.OutChar` | `runtime/shim_startup.c:127-130` | Stores below the capacity, counts always. |
| `ShimFormat.EmitStores` | `runtime/shim_startup.c:127-130` | What fits below the capacity is stored in place, the rest is only counted. |
| `ShimFormat.SignedRoundTrip` | `runtime/shim_startup.c:151-158` | The signed numeral parses back to the value. |
| `Numerals.PlainNumeralExact` | `runtime/shim_startup.c:136-149` | The emitted numeral is the one string of the base's digits in its letter case, without leading zeros, that has the value. |
| `Numerals.NumeralValue` | `runtime/shim_startup.c:140-147` | The emitted numeral denotes the value. |
| `Numerals.NumeralUnique` | `runtime/shim_startup.c:140-147` | It is the only digit string without leading zeros that does. |
| `Numerals.NumeralNoLeadingZero` | `runtime/shim_startup.c:140-141` | It starts with 0 only for the value 0. |
| `ShimEnv.Environment.EnvBlock` | `runtime/shim_startup.c:232-250` | The first call takes a heap block of exactly the counted size and stores the environment there and nothing else; later calls return it, and a failed allocation changes no memory and is retried. |
| `ShimEnv.Environment.Fill` | `runtime/shim_startup.c:242-248` | The second pass stores exactly the bytes that the first one counted. |
| `ShimEnv.BlockFills` | `runtime/shim_startup.c:234-239` | The counted size is the block's size. |
| `ShimEnv.BlockRoundTrip` | `runtime/shim_startup.c:232-250` | Reading the block in memory gives the strings before the first empty one: the whole list if and only if none is empty. |
| `ShimEnv.CommandLine` | `runtime/shim_startup.c:276-287` | Takes a heap block of the counted size and stores the space-joined arguments and a NUL there, within that size, and nothing else. |
| `ShimEnv.CommandLineSplits` | `runtime/shim_startup.c:273-287` | Splitting the command line at spaces gives the arguments back if and only if there are some and none contains a space. |

## Left out

- File I/O, `chmod`, the command line of winlift and its dump mode: the reader takes bytes, the writer returns them.
- `malloc` and `realloc` failure in the converter, short writes, and freeing on error paths.
- Error message text: errors carry only what distinguishes them.
- Memory protection: loading compares bytes, not permissions, and `p_align` is not interpreted beyond the congruence that `Meaning.FileLayout` gives.
- Execution of x86 code, of the program or of the shim; `_start` is only "load the target word and jump".
- Applying base relocations and running TLS callbacks: the code does neither.
- The contents of `src/shim_abi.c`'s table and of the shim blob: both are arbitrary values that satisfy `Shim.ValidShim`.
- The kernel32, msvcrt, user32 and comctl32 stubs, the fake TEB, raw system calls and the exit list: constants and thin wrappers.
- Optional-header fields that neither layout nor patching reads, beyond the checks on them.
- RelocRoundTrip.RelocsRoundTrip: asks for at least one entry per block, because pass 2 rejects an empty block that ends at its section's raw end.
- PeImports.GrowArray.EnsureCapacity: the parsers call it with every growth granted, as `realloc` failure is left out; at the limit the `int` doubling is taken to fail as in two's complement.
- PeRelocs.ParseRelocs: what the program does after the count has overflowed is undefined and not modelled.
- PeReader.LoadBytes: the parsers receive a snapshot of the image's bytes beside the image, since nothing writes the buffer before patching; after a rejection the image's fields are unspecified, as the C code discards it.
- Meaning.MeaningPreserved: requires `WellFormed`, which the code does not check, and a base other than 0, which the parser does.
- Meaning.RangeCheckExact: requires the PE/COFF rule for SizeOfImage, without which a wrapping sum says nothing about the segments.
- MkMiniPe.EmitWithImports: requires what keeps base plus image size below 2^32; beyond it the Python code would fail to pack a field or build an image that is not well-formed.
- ShimHeap.Heap.Realloc: addresses wrap at 2^32 instead of faulting, and unmapped memory is not modelled.
- ShimFormat.VFormat: the format and the argument strings do not overlap the output buffer.
- ShimFormat.FormatRefines: says nothing about outputs of 2^32 characters or more, where the position wraps.
- ShimFormat.OutInt: for the least value the C negation overflows, which the language leaves undefined; the model wraps.
- ShimEnv.Environment.EnvBlock: requires the strings' total size to fit the 32-bit address space they lie in; the strings are values, apart from the memory that is written.
- ShimEnv.CommandLine: the same for the arguments.
