# Proofs about ZLUDA's fatbin reader, name normaliser and kernel metadata

This project models three parts of ZLUDA in Dafny and proves what they are relied on for.

**Fatbins.** CUDA programs carry their GPU code in fatbins: a wrapper leads to one submodule or to a
null-terminated list of them, and a submodule is a buffer of framed entries. The model reads all of
this from an address space, a byte sequence in which a pointer is an index. It covers the entry
iterator, the submodule iterators, the walk over a whole library image, the LZ4 retry loop, and the
removal of zero padding. The main result is `FatbinTraversal.PackedTextsRecovered`: whatever texts a
packer stores, in any mixture of compressions and among entries of other versions and kinds and
entries that cannot be decoded, the PTX consumer collects exactly those, in order.
`FatbinImages.SeveralTexts` and its companions say the same from the bytes of wrapper, list, headers and
entries on.

**Names and declarations.** Function names such as `cuGraphicsD3D11RegisterResource` are split into
segments, joined to a module path, and their declarations are routed to macros.
`Segmentation.SplitIsSegmentation` characterises splitting without reference to the scan, and
`NameRoundTrip.CamelRoundTrip` and `NameRoundTrip.NameRecovered` say exactly when rendering and
splitting undo each other. `PathCollisions.JoinMeetsIff` says when two names get one path, and
`PathCollisions.NameReadBack` reads a name back from its path, given the words that are only used as
suffixes, such as the `v2`, `v3`, `v4`, `ptds` and `ptsz` of the driver API.
`MacroRouting.FunctionDeclarations` routes a whole bindings file and
`MacroRouting.EmissionConserves` shows that nothing is lost or duplicated.

**Kernel metadata.** An ELF file with one section is written in two phases, reserving offsets and
then writing, and read back by section name and version. `KernelMetadata.WriteThenRead` covers
every main ELF file, name, version and payload, in both byte orders.

## Where the code does less than one would expect

- A claimed size of 2^31 or more reaches the LZ4 decoder as a C `int`. `Lz4.OversizedClaimFails` is a
  claim that makes a one-byte stream fail, `Lz4.SmallStreams` and `Lz4.Completeness` give the exact
  condition for success.
- So does the length of the stream itself: one of 2^31 bytes or more becomes a negative length.
- `iterate_modules` numbers submodules only when there is exactly one; the files of a multi-module
  fatbin are numbered from 0 in every submodule. `FatbinTraversal.UnnumberedDistinctIff` says exactly
  when the reported indices are still distinct.
- A file header whose three sizes are all zero is visited forever (`FatbinFiles.TerminationIff`).
- The deflate branch reads `payload_size` bytes, the other two compressed branches `compressed_size`.
- The headers of a version 2 list are not checked for their magic number or version.
- With a default module, a name that is nothing but a module makes `join` panic
  (`FnPaths.JoinPanics`), and the comment "skip cu" notwithstanding, the prefix is cut off by length
  and never compared.
- Different names can get the same path. Underscores are not told apart from the ends of segments:
  `Get_v2` meets `GetV2` (`PathCollisions.UnderscoreCollision`). Abbreviations are not told apart from
  what they stand for: `Memcpy` meets `MemCopy` (`PathCollisions.MemcpyCollision`).
  `PathCollisions.JoinMeetsIff` says exactly which names meet.
- The macro documentation speaks of one override list per function; when several list it, the last
  one gets it (`MacroRouting.LastListedWins`).
- The metadata version is written in the byte order of the main ELF file and read as little-endian, so
  version 1 metadata of a big-endian file is never found (`KernelMetadata.VersionOneRoundTrip`).
- A section name is found by what stands before its first zero byte, and a name that holds a zero byte
  is never found (`Elf.ZeroNameNeverFound`).

## Reading the files

| file | content |
|---|---|
| `Wrappers.dfy`, `Seqs.dfy`, `Bytes.dfy` | options and results, flattening, integers and C structures as bytes |
| `FatbinLayout.dfy` | address space and header layouts |
| `FatbinFiles.dfy` | the entry iterator: termination, tiling, framing round trip |
| `Lz4.dfy`, `FatbinContent.dfy` | decompression, zero padding, content of an entry |
| `FatbinLibrary.dfy`, `FatbinTraversal.dfy` | wrappers, submodules, the walk, its indices and texts |
| `FatbinImages.dfy` | whole fatbins byte by byte, and what walking them reports and delivers |
| `CamelCase.dfy`, `Segmentation.dfy`, `NameRoundTrip.dfy` | splitting, what it means, when it can be undone |
| `FnPaths.dfy`, `PathCollisions.dfy` | joining and the whole normalisation; which names meet, and how a path is read back |
| `MacroRouting.dfy` | routing of declarations |
| `Elf.dfy`, `ElfWriter.dfy`, `KernelMetadata.dfy` | ELF structures, the two-phase writer, metadata objects |
| `MetadataLayout.dfy` | the metadata object byte by byte, and reading any file |

Rust's panics appear as `None`. The libraries behind LZ4, Zstandard, zlib and UTF-8 validation are
function parameters. The address space, the pointers into it and the condition that `unsafe` readers
stay inside it are explicit; `Productive` is the condition under which iterating ends at all. The
`object` crate is not part of this model; the writer and reader follow chapter 4 ("Object Files") of
the System V ABI.

## Model

| member | source | states |
|---|---|---|
| `Bytes.ByteOrder` | cuda_types/src/dark_api.rs:31-64 | Numbers of two, four and eight bytes written out byte by byte: little-endian as the host reads them, and big-endian as an ELF file may hold them. |
| `FatbinLayout.WrapperOffsets` | cuda_types/src/dark_api.rs:31-37 | Magic, version, data pointer and list pointer are the little-endian numbers at offsets 0, 4, 8 and 16. |
| `FatbinLayout.FatbinHeaderOffsets` | cuda_types/src/dark_api.rs:39-45 | Magic, version, header size and files size are the little-endian numbers at offsets 0, 4, 6 and 8. |
| `FatbinLayout.FileHeaderRoundTrip` | cuda_types/src/dark_api.rs:47-64 | Decoding the encoding of a file header gives it back, for all values that fit the declared field widths. |
| `FatbinLayout.FileHeaderBytes` | cuda_types/src/dark_api.rs:47-64 | Every 64 bytes are the encoding of the header they decode to, so the layout has no gaps and ignores no byte. |
| `FatbinLayout.FileHeaderOffsets` | cuda_types/src/dark_api.rs:49-63 | Kind, version, the sizes, flags and claimed size are the little-endian numbers at the C offsets 0, 2, 4, 8, 16, 40 and 56. |
| `FatbinFiles.FatbinFileIterator.constructor` | dark_api/src/fatbin.rs:250-257 | The buffer is the `files_size` bytes after the submodule header. |
| `FatbinFiles.FatbinFileIterator.Next` | dark_api/src/fatbin.rs:259-280 | Returns the item and leaves the buffer that the step functions `NextItem` and `NextBuffer` give for the old buffer, which stays in bounds. |
| `FatbinFiles.TerminationIff` | dark_api/src/fatbin.rs:259-271 | Repeated calls come to an end if and only if no visited header has a zero extent. |
| `FatbinFiles.ProductiveEnds` | dark_api/src/fatbin.rs:259-271 | A productive iteration over a buffer of `len` bytes ends within `len` calls. |
| `FatbinFiles.YieldIsNth` | dark_api/src/fatbin.rs:259-280 | Call number n returns item n, and after the last item every call returns `None`. |
| `FatbinFiles.YieldBound` | dark_api/src/fatbin.rs:259-271 | When every visited header counts itself, iteration ends and yields at most one item per 64 bytes. |
| `FatbinFiles.Tiling` | dark_api/src/fatbin.rs:264-271 | For every buffer and any number of calls, what the calls consumed followed by what remains is the buffer. |
| `FatbinFiles.EntriesInOrder` | dark_api/src/fatbin.rs:263-271 | An entry with a later one behind it is complete and ends before the later one begins; every later buffer ends where the first one did. |
| `FatbinFiles.PayloadsDisjoint` | dark_api/src/fatbin.rs:187-199 | Both payload views of every entry but the last lie inside the buffer and before any later entry's views, and so does the last entry's if it is complete. |
| `FatbinFiles.FramingRoundTrip` | dark_api/src/fatbin.rs:259-280 | Over packed entries, call n returns entry n at the address its predecessors' bytes lead to, the error with its version if that is not 0x101, and `None` from then on. |
| `FatbinFiles.PackedEntryAt` | dark_api/src/fatbin.rs:259-280 | At entry n's position the header and all bytes of entry n are found unchanged, inside the buffer. |
| `FatbinFiles.PackedYield` | dark_api/src/fatbin.rs:259-280 | The items of a packed buffer are exactly one per entry, in order, whatever errors lie in between. |
| `Lz4.DecompressLz4` | dark_api/src/fatbin.rs:285-308 | The loop over a growing buffer returns what retrying with doubled capacities returns. |
| `Lz4.CapacityAt` | dark_api/src/fatbin.rs:286-300 | Attempt k has the first capacity doubled k times, and no capacity after the first exceeds 64 MiB. |
| `Lz4.LastCapacityBound` | dark_api/src/fatbin.rs:296-299 | Attempts stop only where doubling would pass the ceiling; above 32 MiB there is one attempt. |
| `Lz4.AttemptCount` | dark_api/src/fatbin.rs:286-300 | At most 17 attempts, whatever size the header claims. |
| `Lz4.RetryOutcome` | dark_api/src/fatbin.rs:288-307 | The result is the first success among the capacities; it is a failure exactly when all of them fail. |
| `Lz4.LoopOutcome` | dark_api/src/fatbin.rs:285-308 | From the claimed size, but at least 1024, the capacity is doubled while it stays within 67108864 bytes; the first success is returned, and it is a failure exactly when all attempts fail. |
| `Lz4.ToI32Wraps` | dark_api/src/fatbin.rs:292-293 | A length reaches the decoder as the one number in the range of a C `int` that differs from it by a multiple of 2^32. |
| `Lz4.Completeness` | dark_api/src/fatbin.rs:283-308 | A valid stream is decompressed exactly when it is shorter than 2 GiB and `Reaches` holds of claimed and true size; the loop fails otherwise. |
| `Lz4.SmallStreams` | dark_api/src/fatbin.rs:283-308 | What fits into 32 MiB is decompressed exactly when the stream is shorter than 2 GiB and the claim is at most 32 MiB or, cut to a signed 32-bit number, at least the true size; so for every claim below 2^31. |
| `Lz4.OversizedClaimFails` | dark_api/src/fatbin.rs:286-298 | A claim of 2^32 makes the loop fail on a one-byte stream, because the capacity is passed as a C `int`. |
| `Lz4.HonestClaim` | dark_api/src/fatbin.rs:286-305 | A header that tells the truth about a size below 2 GiB is enough for every stream below 2 GiB, and longer streams fail. |
| `FatbinContent.StripSplits` | dark_api/src/fatbin.rs:227-239 | The bytes are the stripped bytes followed by zeros only, and the stripped bytes do not end in zero. |
| `FatbinContent.StripUnique` | dark_api/src/fatbin.rs:227-239 | Stripping a text not ending in zero with any number of zeros behind it gives the text; so stripping is idempotent. |
| `FatbinContent.StripBorrowed` | dark_api/src/fatbin.rs:229-233 | The borrowed loop shrinks the view at its own address to the stripped bytes. |
| `FatbinContent.StripOwned` | dark_api/src/fatbin.rs:234-238 | The owned loop computes the same function. |
| `FatbinContent.GetOrDecompressContent` | dark_api/src/fatbin.rs:201-242 | Content or error as `Content` says; borrowed exactly when none of the three compression bits is set, and then inside the payload view and at its address. |
| `FatbinContent.ContentByFlags` | dark_api/src/fatbin.rs:201-242 | Bits 0x2000, 0x8000 and 0x1000 of the flags choose LZ4, Zstandard or deflate, in this order, and no other bit matters; with the view that is read, the library's result or error, and stripping for kind 1 only. |
| `FatbinContent.EntryViews` | dark_api/src/fatbin.rs:187-199 | For a packed entry the two views are in bounds and delimit the stored payload and the stored compressed bytes. |
| `FatbinContent.DecodedEntry` | dark_api/src/fatbin.rs:187-225 | A stored entry is readable and decodes to what its own bytes decode to, wherever it is put and whether that is a success or an error. |
| `FatbinContent.DecodedStores` | dark_api/src/fatbin.rs:205-225 | An entry that stores some bytes, plainly or in one of the three compressed ways, decodes to them. |
| `FatbinContent.TextRecovered` | dark_api/src/fatbin.rs:201-242 | A PTX text with any zero padding comes back exactly, however it is compressed. |
| `FatbinContent.OtherKindsUntouched` | dark_api/src/fatbin.rs:227-241 | For other kinds, or without stripping, the stored bytes come back with their zeros. |
| `FatbinLibrary.ParseFatbincWrapper` | dark_api/src/fatbin.rs:44-60 | The pointer for a wrapper of magic 0x466243B1 and version 1 or 2; otherwise the error for the null pointer, else the magic, else the version, with the observed and the expected values. |
| `FatbinLibrary.ParseFatbinHeader` | dark_api/src/fatbin.rs:62-74 | The pointer for a header of magic 0xBA55ED50 and version 1, and otherwise the error for the first of the three that is wrong. |
| `FatbinLibrary.PointersAreTheList` | dark_api/src/fatbin.rs:153-166 | The submodule list is the pointers in memory before the first null one, in order. |
| `FatbinLibrary.FatbinSubmoduleIterator.Next` | dark_api/src/fatbin.rs:153-166 | Returns the next pointer of the list and drops it; at the null pointer it returns `None` and stays there. |
| `FatbinLibrary.FatbinIter.Next` | dark_api/src/fatbin.rs:139-144 | A single module is given once, a list from front to back, and then `None` for good. |
| `FatbinLibrary.GetSubmodules` | dark_api/src/fatbin.rs:89-108 | The iterator delivers the checked header of a version 1 wrapper or the unchecked list of a version 2 one; other versions and bad headers are errors. |
| `FatbinLibrary.IterateFatbinHeader` | zluda_common/src/lib.rs:1265-1279 | Reports every item of a submodule once, in order, numbered from 0. |
| `FatbinLibrary.WalkSubmodules` | zluda_common/src/lib.rs:1226-1250 | Reports the files of all remaining submodules and exhausts the iterator. |
| `FatbinLibrary.IterateModules` | zluda_common/src/lib.rs:1217-1262 | The callback sees exactly the events of `Events`, for every kind of image. |
| `FatbinTraversal.WalkReportsAllFiles` | zluda_common/src/lib.rs:1231-1249 | The modules reported are the concatenation of the submodules' files. |
| `FatbinTraversal.WalkEventAt` | zluda_common/src/lib.rs:1226-1249 | File j of submodule a is reported in its place, with both numbers when submodules are numbered and with j alone when they are not. |
| `FatbinTraversal.NumberedDistinct` | zluda_common/src/lib.rs:1229-1248 | With a module index no two reported files share an index. |
| `FatbinTraversal.UnnumberedDistinctIff` | zluda_common/src/lib.rs:1226-1240 | Without one, as for every multi-module wrapper, indices are distinct if and only if at most one submodule has files. |
| `FatbinTraversal.WrapperWalk` | zluda_common/src/lib.rs:1222-1253 | For every readable wrapper: all files, once and in order, and exactly when their indices are distinct. |
| `FatbinTraversal.PushPtx` | zluda/src/impl/module.rs:173-188 | The callback pushes text modules and the UTF-8 contents of PTX files, and nothing else. |
| `FatbinTraversal.CollectPtx` | zluda/src/impl/module.rs:171-189 | Collects exactly the texts of the events, in order. |
| `FatbinTraversal.StoredTextDelivers` | dark_api/src/fatbin.rs:201-242 | A PTX entry of the current version that stores a text, in any of the four ways and with any zero padding, delivers that text. |
| `FatbinTraversal.DeliversOne` | zluda/src/impl/module.rs:173-188 | Every well-framed entry delivers exactly one thing: one text, or nothing for another version or kind, for bytes that do not decompress and for a text that is not UTF-8. |
| `FatbinTraversal.SubmoduleDelivers` | dark_api/src/fatbin.rs:201-280 | From a packed submodule exactly the texts its entries deliver are obtained, in order, skipping the entries that deliver nothing. |
| `FatbinTraversal.PackedTextsRecovered` | dark_api/src/fatbin.rs:89-280 | End to end over a wrapper of either version: the collected texts are exactly the delivered ones, in order, in any mixture of compressions and among entries of any other version or kind and entries that cannot be read. |
| `FatbinTraversal.PlainTextsRecovered` | dark_api/src/fatbin.rs:187-280 | Packing any texts as uncompressed padded PTX entries and reading them back gives the texts. |
| `FatbinImages.SubmoduleWalk` | dark_api/src/fatbin.rs:246-280 | From the 16 bytes of a submodule header at any address: the entries behind `header_size` bytes are reported in order, each under its number, with its own address or its version error, and nothing else is. |
| `FatbinImages.SubmoduleTexts` | zluda/src/impl/module.rs:171-189 | From the same bytes: the texts collected are those the entries deliver, in order. |
| `FatbinImages.SingleWalk` | zluda_common/src/lib.rs:1222-1253 | From the 24 bytes of a version 1 wrapper and the bytes of its submodule: every entry in order, numbered as (0, n). |
| `FatbinImages.SingleTexts` | dark_api/src/fatbin.rs:89-108 | And the texts are those the entries deliver, in order. |
| `FatbinImages.PointersRead` | dark_api/src/fatbin.rs:153-166 | Eight bytes per pointer and then eight zeros are read as that list. |
| `FatbinImages.SeveralWalk` | zluda_common/src/lib.rs:1222-1253 | From the bytes of a version 2 wrapper, its list and all its submodules: the entries of all of them in order, numbered from 0 in each. |
| `FatbinImages.SeveralTexts` | dark_api/src/fatbin.rs:89-280 | And the texts of all of them, in order. |
| `FatbinImages.OtherVersion` | dark_api/src/fatbin.rs:100-106 | A wrapper of another version gives one event without an index: the error with that version and the expected 1 and 2. |
| `FatbinImages.BadSubmodule` | dark_api/src/fatbin.rs:95-99 | So does a version 1 wrapper whose submodule is missing or does not begin with the six bytes of magic and version, with the error for the first that is wrong. |
| `FatbinImages.OtherImages` | zluda_common/src/lib.rs:1258-1260 | Text, ELF files and archives give one event without an index; a text is collected as it is, the others hold none. |
| `CamelCase.ParseSpecial` | cuda_macros/src/lib.rs:409-416 | Takes the longest run of digits and D's and leaves the iterator right behind it. |
| `CamelCase.Split` | cuda_macros/src/lib.rs:403-432 | Returns the segments, or `None` for the panic on a name that begins no segment. |
| `Segmentation.Conservation` | cuda_macros/src/lib.rs:417-431 | The segments concatenate to the ASCII-lowercased name and none of them is empty. |
| `Segmentation.RunShift` | cuda_macros/src/lib.rs:409-424 | A special run takes every character it can, and what is behind it is segmented as if it stood alone. |
| `Segmentation.SameBoundaries` | cuda_macros/src/lib.rs:417-431 | A text and its boundaries admit at most one list of non-empty segments. |
| `Segmentation.SplitIsSegmentation` | cuda_macros/src/lib.rs:403-432 | The result is a given list if and only if that list is the declarative segmentation; the panic happens exactly on a non-empty name that begins no segment. |
| `NameRoundTrip.CamelRoundTrip` | cuda_macros/src/lib.rs:403-432 | Words survive rendering and splitting if and only if no word ending in a digit stands before one starting with `d`. |
| `NameRoundTrip.NameRecovered` | cuda_macros/src/lib.rs:403-432 | The decoder gives the accepted name back if and only if no special run in it is followed by a lowercase `d`. |
| `NameRoundTrip.SplitInjective` | cuda_macros/src/lib.rs:403-432 | On those names splitting is injective. |
| `NameRoundTrip.SplitCollision` | cuda_macros/src/lib.rs:409-416 | `2Dd` and `2DD` have the same segments. |
| `FnPaths.Join` | cuda_macros/src/lib.rs:434-480 | Returns the identifiers of the joined path, or `None` for one of its panics. |
| `FnPaths.JoinPanics` | cuda_macros/src/lib.rs:449-477 | It panics exactly on no segments, or, with a default module, on nothing but the name of a module. |
| `FnPaths.JoinSpells` | cuda_macros/src/lib.rs:462-478 | Two identifiers with a default module and one without; up to the underscore before a digit they spell the expanded segments. |
| `FnPaths.JoinIdentifiers` | cuda_macros/src/lib.rs:448-478 | Every identifier of a joined path is not empty and begins with no digit: it is the text that is joined, with an underscore in front exactly if that begins with a digit. |
| `FnPaths.LeadingModule` | cuda_macros/src/lib.rs:462-467 | With a default module the path is led by the first expanded segment if that is one of the eighteen modules, and else by the default. |
| `FnPaths.NameSpelled` | cuda_macros/src/lib.rs:403-480 | From name to path no character is lost, and the default module leads exactly when the name does not begin with a module. |
| `FnPaths.NormalizeFnImpl` | cuda_macros/src/lib.rs:256-277 | Drops the last path segment, cuts the prefix, splits and joins; the default module is dropped when the parent already is a module. |
| `FnPaths.NormalizeSucceedsIff` | cuda_macros/src/lib.rs:256-277 | Exactly which paths are normalised without a panic. |
| `FnPaths.NormalizeSpells` | cuda_macros/src/lib.rs:256-277 | What comes back: the parents unchanged and identifiers that spell, character for character, the lowercased rest of the name after expansion, led by the default module unless the parent or the name itself is a module. |
| `FnPaths.NormalizeIdentifiers` | cuda_macros/src/lib.rs:256-277 | The same for every path that is normalised: its identifiers are exactly the module and the underscored rest of the name, made identifiers. |
| `PathCollisions.SameTextIff` | cuda_macros/src/lib.rs:469-475 | Two lists of parts join to the same text if and only if they are the same words between underscores. |
| `PathCollisions.JoinMeetsIff` | cuda_macros/src/lib.rs:434-480 | Two lists of segments get the same path if and only if, expanded and led by their module, they are the same words between underscores. It covers the segments of every name (`PathCollisions.NameParts`). |
| `PathCollisions.RejoinIff` | cuda_macros/src/lib.rs:469-475 | Given the words that only occur as suffixes, such as `v2`, the parts can be found again in the words if and only if underscores stand before suffixes only. |
| `PathCollisions.ExpansionMeetsIff` | cuda_macros/src/lib.rs:438-447 | Of all lists of segments with one expansion exactly one is clear, that is, writes out nothing that has an abbreviation; the shortening finds it. |
| `PathCollisions.NameReadBack` | cuda_macros/src/lib.rs:403-480 | A legible name, with its capitals and underscores, is read back from nothing but the identifiers of its path. |
| `PathCollisions.PlainSuffixed` | cuda_macros/src/lib.rs:469-475 | For names without underscores there need not be any suffix words. |
| `PathCollisions.PathsDistinguishNames` | cuda_macros/src/lib.rs:403-480 | Different legible names, with or without suffixes such as `_v2` and with abbreviations, never get the same path. |
| `PathCollisions.UnderscoreCollision` | cuda_macros/src/lib.rs:469-475 | Any two suitable words give different names with the same path, one with an underscore and one without. |
| `PathCollisions.AbbreviationCollision` | cuda_macros/src/lib.rs:438-461 | The names of any two different lists of words with the same expansion get the same path. |
| `PathCollisions.MemcpyCollision` | cuda_macros/src/lib.rs:438-461 | `Memcpy` and `MemCopy` get the same path. |
| `PathCollisions.NormalizeMeetsIff` | cuda_macros/src/lib.rs:256-277 | Two paths normalise to the same one if and only if their parents are equal and the rests of their names behind the prefix spell the same words. |
| `PathCollisions.NormalizeDistinguishes` | cuda_macros/src/lib.rs:256-277 | Paths with legible names that normalise to the same one are equal but for the characters cut off as the prefix. |
| `MacroRouting.LastListedWins` | cuda_macros/src/lib.rs:215-220 | A function is mapped to a macro if and only if that macro lists it and nothing listed later does. |
| `MacroRouting.RouteIs` | cuda_macros/src/lib.rs:212-238 | A function goes to the macro of the last entry that lists it, and to the default macro exactly when none does. |
| `MacroRouting.MacrosAre` | cuda_macros/src/lib.rs:215-220 | The macros with a bucket are those of the entries that list any function. |
| `MacroRouting.LookupFindsMacros` | cuda_macros/src/lib.rs:212-220 | Every macro the lookup leads to has a bucket. |
| `MacroRouting.BucketPositions` | cuda_macros/src/lib.rs:228-238 | A bucket is the in-order subsequence of exactly the declarations routed to its macro. |
| `MacroRouting.ChooseMacro.constructor` | cuda_macros/src/lib.rs:212-226 | Builds both maps so that the invariant holds with all buckets empty. |
| `MacroRouting.ChooseMacro.Add` | cuda_macros/src/lib.rs:228-238 | Keeps the invariant for the declarations so far and this one; the missing-bucket panic cannot happen. |
| `MacroRouting.ChooseMacro.Emit` | cuda_macros/src/lib.rs:150-161 | The default bucket first, then every override bucket once in map order, without the empty ones. |
| `MacroRouting.EmissionConserves` | cuda_macros/src/lib.rs:150-161 | In every map order the emitted items are the declarations as a multiset, and no group is empty. |
| `MacroRouting.GroupPositions` | cuda_macros/src/lib.rs:150-161 | Emission leaves out the groups without items and keeps the others in their order. |
| `MacroRouting.EmittedGroups` | cuda_macros/src/lib.rs:150-161 | The first group is the default macro with what no entry lists, and each later one an override macro with exactly what goes to it, in the order of the declarations. |
| `MacroRouting.SelectedPanics` | cuda_macros/src/lib.rs:114-148 | A bindings file is rejected exactly when it holds an unexpected item; only relaxed bindings may hold other top-level items. |
| `MacroRouting.SelectedFnsPositions` | cuda_macros/src/lib.rs:123-147 | The declarations of a block are its functions in order, without the variadic ones if relaxed, each stripped and completed as the mode asks. |
| `MacroRouting.SelectedPositions` | cuda_macros/src/lib.rs:114-147 | The declarations of a whole file are the kept functions of all its blocks, every one once and in the order of the file, each with the ABI of its own block. |
| `MacroRouting.FunctionDeclarations` | cuda_macros/src/lib.rs:109-163 | A panic exactly for an unexpected item; otherwise the emitted groups hold exactly the declarations of the file, which stand at its kept functions in order. |
| `Elf.FileHeaderRoundTrip` | kernel_metadata/src/lib.rs:79-83 | Parsing an encoded file header gives it back, in either byte order and with any bytes behind it. |
| `Elf.SectionHeaderRoundTrip` | kernel_metadata/src/lib.rs:110-121 | Decoding an encoded section header gives it back. |
| `Elf.FileHeaderAccepted` | kernel_metadata/src/lib.rs:79-83 | A file header is accepted exactly if it has 64 bytes and begins as a 64-bit ELF header of the current version in either byte order, which it fixes. |
| `Elf.FileHeaderOffsets` | kernel_metadata/src/lib.rs:79-104 | The thirteen numbers of a file header are read at their offsets from 16 to 64, in the byte order of the file. |
| `Elf.SectionHeaderOffsets` | kernel_metadata/src/lib.rs:110-121 | The ten numbers of a section header are read at their offsets from 0 to 64. |
| `Elf.ParsedHeaderFits` | kernel_metadata/src/lib.rs:79-83 | Whatever file header is parsed from a file fits its fields, so it can be written again. |
| `Elf.StringFromFinds` | kernel_metadata/src/lib.rs:89 | Reading a string table where a string stands gives that string, up to its first zero byte if it has one. |
| `Elf.StringFromIff` | kernel_metadata/src/lib.rs:127-128 | A string is read from a table exactly where it stands, ends in a zero byte and holds none. |
| `Elf.SectionTable` | kernel_metadata/src/lib.rs:127-128 | The section headers are the 64-byte pieces from the recorded offset on, and are there exactly if the recorded size is 64 and all of them lie in the file. |
| `Elf.NamesTable` | kernel_metadata/src/lib.rs:127-128 | Section names come from the string table, of type 3, whose index is recorded. |
| `Elf.FirstSection` | kernel_metadata/src/lib.rs:127-128 | A lookup gives the first section of a name, not counting index 0, and nothing exactly when there is none. |
| `Elf.ZeroNameNeverFound` | kernel_metadata/src/lib.rs:127-128 | A section name that holds a zero byte is never found, in whatever file. |
| `ElfWriter.PlaceKeepsStrings` | kernel_metadata/src/lib.rs:92-93 | Sharing suffixes in the string table moves no string away from its recorded offset. |
| `ElfWriter.Writer.Reserve` | kernel_metadata/src/lib.rs:91 | Promises the next aligned offset and advances past the part. |
| `ElfWriter.Writer.ReserveSectionHeaders` | kernel_metadata/src/lib.rs:94 | Promises the 8-aligned offset for all section headers counted so far. |
| `ElfWriter.Writer.WriteShstrtab` | kernel_metadata/src/lib.rs:108 | Writes the names, and may only be called when the buffer is where they were promised. |
| `ElfWriter.Writer.WriteNullSectionHeader` | kernel_metadata/src/lib.rs:109 | Pads to the promised offset of the section headers and writes the null one. |
| `KernelMetadata.ReservePhase` | kernel_metadata/src/lib.rs:86-94 | The promises made by the first phase: offsets of names and section headers, and the length of the file. |
| `KernelMetadata.WritePhase` | kernel_metadata/src/lib.rs:95-122 | The second phase writes everything where it was promised and exactly up to the promised length. |
| `KernelMetadata.WriteObject` | kernel_metadata/src/lib.rs:70-124 | The metadata object for the kernel's ELF header, or an error for a bad header or a failed serialisation. |
| `KernelMetadata.ImageSlices` | kernel_metadata/src/lib.rs:91-108 | Version and payload, and the name table, stand at the offsets that were reserved for them. |
| `KernelMetadata.ImageData` | kernel_metadata/src/lib.rs:110-122 | The recorded offsets and sizes delimit exactly version and payload, and exactly the name table. |
| `KernelMetadata.ImageParses` | kernel_metadata/src/lib.rs:95-122 | The written file parses to exactly the headers that were written. |
| `KernelMetadata.HeaderTakenOver` | kernel_metadata/src/lib.rs:95-104 | The object has the byte order, ABI, type, machine and flags of the main ELF file, no entry point and no segments, and ends with its section headers. |
| `KernelMetadata.ImageSectionByName` | kernel_metadata/src/lib.rs:127-128 | Looking up a name finds the metadata, the name table, or nothing. |
| `KernelMetadata.MetadataRoundTrip` | kernel_metadata/src/lib.rs:70-138 | Reading any name at any version after writing any section at any version: the payload exactly when name and version match, the version seen through the main file's byte order and the section name up to its first zero byte. |
| `KernelMetadata.WriteThenRead` | kernel_metadata/src/lib.rs:70-138 | The same for any main ELF file given as bytes and any outcome of serialising: which error comes back, and that otherwise an object is written that reads back. |
| `KernelMetadata.NoMetadataInNames` | kernel_metadata/src/lib.rs:129-136 | The name table never passes for metadata of a version whose low byte is not zero. |
| `KernelMetadata.VersionOneRoundTrip` | kernel_metadata/src/lib.rs:24-33 | At version 1 the payload comes back if and only if the name matches and the main ELF file is little-endian. |
| `MetadataLayout.ObjectSections` | kernel_metadata/src/lib.rs:109-122 | The written object has three sections: one of zeros; one of type 1 at offset 64 with eight bytes more than the payload, alignment 8 and all else zero; one of type 3 behind the payload with alignment 1 and all else zero. |
| `MetadataLayout.ObjectHeader` | kernel_metadata/src/lib.rs:95-104 | Its file header beyond what the main file gives it: version 1, no entry point and no segments, sizes 64 and 64, three sections with names in the third, and nothing behind the section headers. |
| `MetadataLayout.ObjectContents` | kernel_metadata/src/lib.rs:105-109 | Version at offset 64 in the byte order of the file, payload at 72, then the string table, then zeros up to the section headers, fewer than eight. |
| `MetadataLayout.ObjectNames` | kernel_metadata/src/lib.rs:86-93 | The string table holds the name of the section and `.shstrtab` where the section headers say. |
| `MetadataLayout.NamesShare` | kernel_metadata/src/lib.rs:92-93 | It is as short as sharing allows: a name that ends the other one takes no room. |
| `MetadataLayout.ReadFirst` | kernel_metadata/src/lib.rs:126-138 | From any file: the first section of the name, if it holds data inside the file of at least eight bytes whose first eight are the version, little-endian, gives what is behind them, and otherwise nothing. |
| `MetadataLayout.ReadNothing` | kernel_metadata/src/lib.rs:126-129 | Nothing is read where a header or table is broken or no section has the name. |

## Left out

- Lz4.Completeness: for streams of 2 GiB and more, which reach the decoder with a negative length, it is assumed that the decoder rejects such lengths; nothing is claimed for one that does not.
- FatbinFiles.FatbinFileIterator.Next: alignment of header references is not modelled; headers may start at any address.
- FatbinLibrary.IterateModules: nothing is claimed about images whose walk does not end, which are those with a header of zero extent.
- FnPaths.NormalizeFnImpl: the prefix is counted in characters, which is its length in bytes for ASCII names only.
- KernelMetadata.MetadataRoundTrip: payloads of 2^63 bytes and section names of nearly 2^32 bytes, which no address space or string table offset can hold, are excluded, here and in the lemmas about whole objects beside it.
- Failure to allocate the claimed number of bytes, which aborts the program before any decompression.
- The bytes Zstandard may use beyond the claimed capacity when the allocator grants more; the codec is given the claimed size.
- `try_load`, which chooses the kind of a library image from its first bytes and needs C strings; the walk starts from the chosen kind.
- The choice among the collected PTX modules and their compilation.
- The bodies of the LZ4, Zstandard, zlib and UTF-8 libraries, and the serialisation of the metadata payload.
- The ELF library beyond what the writer and reader use here: extended section counts, compressed debug sections and their alternative names, symbol tables, and its diagnostics and debug assertions. Its string table is modelled with its suffix sharing, its buffer as a byte sequence; in which order it writes names that share nothing is the library's choice, and nothing here depends on it.
- Writing the finished object to a stream, and merging it into the kernel's ELF file.
- Parsing macro input and printing tokens: declarations are records, and the separator that is removed from argument lists is not represented.
- The input and output structure macros, the generated bindings and the error-code conversions, which are tables or single branches.
