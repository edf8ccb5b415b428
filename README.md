# SYCL persistent device code cache and scheduler access-mode rules

This project models two parts of the SYCL runtime in Dafny and proves properties of them.

**The persistent device code cache** keeps built device binaries on disk between runs.

- A cache key is made of four things: the device, the input image, the specialization constants and the build options.
- A key is stored under the directory `root/H(device)/H(image)/H(spec consts)/H(options)`. Each `H(...)` is the decimal rendering of a hash.
- Inside that directory, item `i` is the pair of files `i.bin` and `i.src`.
  - `i.bin` holds the count of binaries, then each binary as a (length, bytes) field.
  - `i.src` holds the four key inputs as (length, bytes) fields. Every length is an 8-byte `size_t`.
- A writer takes the lock `i.lock` by exclusive creation before it writes item `i`.
- A reader scans `0, 1, 2, …` and skips locked items and items whose record does not match its key.

Modules:

- `Framing` and `BinaryCodec`: the `size_t` encoding and the `.bin` codec.
- `SourceRecord`: the `.src` codec and its comparator.
- `CacheKeys`, `Decimal` and `Segments`: eligibility and path derivation.
- `FileSystems`: the file map and the input stream.
- `LockItems`: the lock.
- `DeviceCodeCache`: the store and fetch protocols.

**The scheduler's graph builder** has a few small rules over the six accessor access modes:

- which current mode allows a required one;
- the single mode that serves two modes;
- the in-place merge of the modes of requirements on the same memory object;
- marking a memory object record modified on a write;
- the overlap test of two requirements' byte ranges;
- the parsing of the graph-printing options;
- removing a memory object from the builder's list.

These are in modules `AccessModes` and `GraphBuilders`.

How the environment is modelled:

- The file system is a class holding a map from path to bytes and a set of directories. Its methods are single atomic steps: exclusive create, remove, write a whole file, make a directory.
- `std::hash` is a function parameter from bytes to naturals.
- The configuration is a value read once: whether the cache is enabled, the annotations flag, the size thresholds and the root directory.
- The input stream is the bytes not yet extracted plus its fail bit. A read from a failed stream stores nothing. A short read stores what is there and sets the fail bit.
- An allocation throws exactly when the number of elements it asks for exceeds a parameter `maxAlloc`. The same bound applies to the bytes of one binary or one record field, and to the vector of `ImgNum` binaries that `readBinaryDataFromFile` allocates first.

Paths are `sycl/source/detail/...` in the table below.

## Model

| member | source | states |
|---|---|---|
| LockItems.LockFileName | sycl/source/detail/persistent_device_code_cache.cpp:30-33 | the lock file of an item is its path followed by the five characters of ".lock" |
| LockItems.LockCacheItem.constructor | sycl/source/detail/persistent_device_code_cache.cpp:32-43 | the lock is owned exactly when its file did not exist before; the constructor adds an empty lock file only then and changes nothing else; afterwards the item always reads as locked |
| LockItems.LockCacheItem.Release | sycl/source/detail/persistent_device_code_cache.cpp:45-49 | the destructor removes the lock file only when the lock is owned, and otherwise leaves the files alone; a failed removal changes nothing else |
| FileSystems.FileSystem.CreateExclusive | sycl/source/detail/persistent_device_code_cache.cpp:37-40 | `open(O_CREAT, O_EXCL)` succeeds exactly when the path is absent, and only then creates an empty file |
| CacheKeys.IsImageCachedIff | sycl/source/detail/persistent_device_code_cache.cpp:52-83 | an image is cached exactly when the cache is enabled, the format is SPIR-V or native, annotations are off and the size is within both thresholds, where a threshold of 0 sets no bound |
| CacheKeys.ZeroThresholdsAdmitEverySize | sycl/source/detail/persistent_device_code_cache.cpp:71-80 | with both thresholds 0, two images of the same format are either both cached or both not, whatever their sizes |
| CacheKeys.DeviceIdString | sycl/source/detail/persistent_device_code_cache.cpp:189-194 | the device identity is platform name, device name, device version and driver version, joined by '/' |
| CacheKeys.DeviceIdStringSplits | sycl/source/detail/persistent_device_code_cache.cpp:189-194 | when no query result contains '/', splitting the identity at '/' gives back the four query results in order |
| Segments.SplitJoin | sycl/source/detail/persistent_device_code_cache.cpp:189-194 | splitting a '/'-join of parts that contain no '/' gives back exactly those parts |
| Decimal.DecimalValueOfNatToString | sycl/source/detail/persistent_device_code_cache.cpp:342-350 | reading the decimal digits that `std::to_string` gives for a natural back gives the same number |
| Decimal.NatToStringInjective | sycl/source/detail/persistent_device_code_cache.cpp:342-350 | different naturals render as different strings |
| CacheKeys.CacheItemPath | sycl/source/detail/persistent_device_code_cache.cpp:329-351 | the path is empty exactly when the root is empty; otherwise it is the root, '/', and the four hash renderings joined by '/' |
| CacheKeys.CacheItemPathSegments | sycl/source/detail/persistent_device_code_cache.cpp:329-351 | below the root the path has exactly four '/'-separated all-digit segments; read in order they are the hashes of the device identity, the image, the spec constants and the build options |
| CacheKeys.CacheItemPathInjective | sycl/source/detail/persistent_device_code_cache.cpp:329-351 | under one root, two keys share a directory exactly when all four of their hashes agree |
| CacheKeys.NullImageHashesEmpty | sycl/source/detail/persistent_device_code_cache.cpp:336-341 | the image segment of a null image is the hash of the empty string |
| Framing.SizeTRoundTrip | sycl/source/detail/persistent_device_code_cache.cpp:207-213 | a length read back from its 8-byte `size_t` encoding is the same length |
| BinaryCodec.WriteBinaryDataToFile | sycl/source/detail/persistent_device_code_cache.cpp:200-215 | the loop leaves the file holding the count of binaries followed by each binary's (length, bytes) field in order; no other file or directory changes |
| BinaryCodec.ReadBinaryDataFromFile | sycl/source/detail/persistent_device_code_cache.cpp:220-243 | the array-filling loop returns exactly what `ReadBinary` gives for the file's contents: the binaries, an empty result when the stream failed, or the throw of an allocation |
| BinaryCodec.ReadBinaryOfEncoding | sycl/source/detail/persistent_device_code_cache.cpp:200-243 | round trip: a file that starts with the encoding of any list of binaries, empty ones included, reads back as exactly that list; when a count or length cannot be allocated, the read throws instead |
| BinaryCodec.ReadBinaryReturnsWholeEncoding | sycl/source/detail/persistent_device_code_cache.cpp:237-242 | no partial data: a non-empty result is a list whose whole encoding is a prefix of the file |
| BinaryCodec.ReadBinaryOfContents | sycl/source/detail/persistent_device_code_cache.cpp:220-243 | for any file contents, a non-empty result is a list whose whole encoding is a prefix of those contents |
| BinaryCodec.ReadBinaryMissingFile | sycl/source/detail/persistent_device_code_cache.cpp:220-243 | a missing file reads as no binaries |
| BinaryCodec.ReadImagesOfFields | sycl/source/detail/persistent_device_code_cache.cpp:227-236 | reading n fields from a stream that holds n well-formed fields yields them and leaves the rest of the stream good; an allocation too large for one of them throws |
| BinaryCodec.ReadImagesSound | sycl/source/detail/persistent_device_code_cache.cpp:227-236 | a loop that ends with a good stream consumed exactly the fields of the binaries it returned |
| BinaryCodec.ReadImagesLength | sycl/source/detail/persistent_device_code_cache.cpp:224-236 | a loop that returns yields exactly as many binaries as the stored count says |
| SourceRecord.EncodeSource | sycl/source/detail/persistent_device_code_cache.cpp:249-276 | the `.src` layout is the four fields of the device identity, the build options, the spec constants and the image bytes, in that order |
| SourceRecord.WriteSourceItem | sycl/source/detail/persistent_device_code_cache.cpp:249-276 | the file then holds exactly the record of the key; nothing else changes |
| SourceRecord.ReadSourceFieldSound | sycl/source/detail/persistent_device_code_cache.cpp:292-295 | a read of one field that leaves the stream good consumed one well-formed field holding what it returned |
| SourceRecord.CompareFieldsFirstDifference | sycl/source/detail/persistent_device_code_cache.cpp:292-316 | when the stored fields agree with the expected ones up to a field that differs, the comparison stops with `false` at exactly that field |
| SourceRecord.CompareFieldsOfFields | sycl/source/detail/persistent_device_code_cache.cpp:292-316 | when the stored fields are exactly the expected ones, all comparisons succeed and the stream stays good |
| SourceRecord.CompareFieldsSound | sycl/source/detail/persistent_device_code_cache.cpp:292-316 | a comparison that ends with every field equal and a good stream read exactly the expected fields |
| SourceRecord.SrcEqualAfterWrite | sycl/source/detail/persistent_device_code_cache.cpp:249-323 | after `writeSourceItem` with a key, `isCacheItemSrcEqual` with the same key is true, both as written and as corrected |
| SourceRecord.SrcUnequalAtFirstDifference | sycl/source/detail/persistent_device_code_cache.cpp:281-316 | if one of device identity, build options, spec constants or image differs, the result is false and the scan stops at the first one that differs, in that order |
| SourceRecord.SrcEqualOnlyForExactRecord | sycl/source/detail/persistent_device_code_cache.cpp:281-324 | the corrected comparison accepts a file only when the file starts with the exact record of the key |
| SourceRecord.SrcMissingUnequal | sycl/source/detail/persistent_device_code_cache.cpp:281-296 | a missing `.src` never matches: the first field reads as empty, and a device identity never is |
| SourceRecord.AsWrittenAcceptsTruncatedRecord | sycl/source/detail/persistent_device_code_cache.cpp:317-323 | the comparison as written accepts a record cut off after the image length, which is not the record of the key; the corrected one rejects it |
| SourceRecord.ImageFieldTruncated | sycl/source/detail/persistent_device_code_cache.cpp:310-323 | a last field whose length is 1 and whose byte is missing reads as the zero byte, with the fail bit set |
| DeviceCodeCache.ItemBaseInjective | sycl/source/detail/persistent_device_code_cache.cpp:103-105 | different indices give different item stems |
| DeviceCodeCache.ItemNamesDistinct | sycl/source/detail/persistent_device_code_cache.cpp:103-138 | the `.bin`, `.src` and `.lock` names of all items are pairwise distinct, and none is the key directory |
| DeviceCodeCache.OccupiedBound | sycl/source/detail/persistent_device_code_cache.cpp:166-182 | only as many consecutive items can be occupied as there are paths, so both probe loops end |
| DeviceCodeCache.FindFreeIndex | sycl/source/detail/persistent_device_code_cache.cpp:101-105 | the do-while loop ends at the smallest index without a `.bin` |
| DeviceCodeCache.StoreUnderLock | sycl/source/detail/persistent_device_code_cache.cpp:131-143 | the key directory exists afterwards; an item that was locked is left alone; otherwise exactly its `.bin` and `.src` are written and the lock file is gone again |
| DeviceCodeCache.PutItemToDisc | sycl/source/detail/persistent_device_code_cache.cpp:87-144 | no change when the image is not cached or the path is empty; otherwise the store uses the smallest index without a `.bin`, creates the directory, and writes that item's `.bin` and then its `.src` only if the lock was free; no other file changes |
| DeviceCodeCache.ReleaseKeepsItem | sycl/source/detail/persistent_device_code_cache.cpp:131-143 | removing the lock after the writes leaves exactly the two item files added |
| DeviceCodeCache.GetItemFromDisc | sycl/source/detail/persistent_device_code_cache.cpp:150-185 | the probe loop returns what `FetchItem` describes for the comparison it is given (as written or corrected): empty when not cached, without a path or without the directory; otherwise scanning while `i.bin` or `i.src` exists, skipping locked and non-matching items, and returning the first read that does not throw |
| DeviceCodeCache.FetchAfterStore | sycl/source/detail/persistent_device_code_cache.cpp:87-185 | after a store into an empty key directory, a fetch with the same key returns exactly the stored binaries, with either comparison |
| DeviceCodeCache.FetchFromSound | sycl/source/detail/persistent_device_code_cache.cpp:166-184 | with the corrected comparison, a non-empty result of the scan from index i comes from some unlocked item at or after i whose `.src` starts with the key's record and whose `.bin` starts with the binaries' encoding |
| DeviceCodeCache.FetchSound | sycl/source/detail/persistent_device_code_cache.cpp:150-185 | no false hits with the corrected comparison: a non-empty fetch means the image is cached and some unlocked item under the key's directory holds the key's record and the returned binaries |
| DeviceCodeCache.MissingBinaryEndsFetch | sycl/source/detail/persistent_device_code_cache.cpp:169-177 | with either comparison, a matching item whose `.bin` is missing ends the fetch with an empty result instead of moving on: only a throw moves to the next index |
| DeviceCodeCache.FetchFirstMatch | sycl/source/detail/persistent_device_code_cache.cpp:166-184 | when every item before j is locked or has a record that compares unequal, and item j is unlocked and holds what a store writes for the key and the binaries, the scan returns exactly those binaries: the first matching item wins, with either comparison |
| DeviceCodeCache.SkipTo | sycl/source/detail/persistent_device_code_cache.cpp:166-182 | a run of occupied items that are each locked or unequal is passed over: the scan from the start of the run gives what the scan from its end gives |
| DeviceCodeCache.AsWrittenFetchFalseHit | sycl/source/detail/persistent_device_code_cache.cpp:150-185 | as written the fetch has false hits: with item 0's `.src` cut off after the length of a one-byte image, the scan returns item 0's binaries although no item holds the key's record; with the corrected comparison it returns nothing |
| DeviceCodeCache.FetchSingleItem | sycl/source/detail/persistent_device_code_cache.cpp:166-184 | in a directory that holds only item 0, the scan looks at that item alone: its comparison and then its read decide the result |
| DeviceCodeCache.SingleItem | sycl/source/detail/persistent_device_code_cache.cpp:166-167 | a directory that holds only item 0's `.bin` and `.src` has index 0 occupied and unlocked, index 1 free, and no other item's `.src` |
| SourceRecord.CorrectedOnlyRejectsMore | sycl/source/detail/persistent_device_code_cache.cpp:281-324 | the two comparisons agree except where the one as written accepts and the corrected one rejects |
| AccessModes.ReadAllowsOnlyRead | sycl/source/detail/scheduler/graph_builder.cpp:62-65 | under the current mode read, only read is allowed |
| AccessModes.WideModesAllowEverything | sycl/source/detail/scheduler/graph_builder.cpp:62-77 | under read_write, atomic, discard_write and discard_read_write every required mode is allowed |
| AccessModes.BelowAllowed | sycl/source/detail/scheduler/graph_builder.cpp:62-77 | a mode that serves at least what another serves allows it |
| AccessModes.CombineIdempotent | sycl/source/detail/scheduler/graph_builder.cpp:80-82 | a mode combined with itself is that mode |
| AccessModes.CombineCommutative | sycl/source/detail/scheduler/graph_builder.cpp:80-92 | the order of the two modes does not matter |
| AccessModes.CombineDistinct | sycl/source/detail/scheduler/graph_builder.cpp:84-92 | discard_write with discard_read_write or write yields the other mode; every other unequal pair yields read_write |
| AccessModes.CombineIsLeastUpperBound | sycl/source/detail/scheduler/graph_builder.cpp:80-92 | the combination serves both modes and is below every mode that serves both |
| AccessModes.CombineAssociative | sycl/source/detail/scheduler/graph_builder.cpp:80-92 | grouping does not matter when three modes are combined |
| AccessModes.CombineAllCovers | sycl/source/detail/scheduler/graph_builder.cpp:913-923 | combining a list of modes from left to right serves each of them |
| AccessModes.CombineAllLeast | sycl/source/detail/scheduler/graph_builder.cpp:913-923 | that combination is below any mode that serves all of them |
| AccessModes.CombineAllSameModes | sycl/source/detail/scheduler/graph_builder.cpp:913-923 | two lists holding the same modes combine to the same mode, whatever their order |
| GraphBuilders.DoOverlapSymmetric | sycl/source/detail/scheduler/graph_builder.cpp:43-48 | the corrected overlap test does not depend on the order of the two requirements |
| GraphBuilders.DoOverlapAsWrittenSymmetric | sycl/source/detail/scheduler/graph_builder.cpp:43-48 | the test as written does not depend on the order of the two requirements |
| GraphBuilders.DoOverlapAsWrittenAlwaysHolds | sycl/source/detail/scheduler/graph_builder.cpp:43-48 | as written, when neither end wraps around `size_t`, the test is true for every pair of requirements |
| GraphBuilders.DoOverlapAsWrittenDisjointExtents | sycl/source/detail/scheduler/graph_builder.cpp:43-48 | bytes 0..1 and 10..11 overlap as written but not under the corrected test |
| GraphBuilders.DoOverlapIff | sycl/source/detail/scheduler/graph_builder.cpp:43-48 | when no end wraps around, the corrected test holds exactly when some byte offset lies in both ranges, counting each range's end, so two ranges that touch at one offset overlap |
| GraphBuilders.MarkModifiedIfWrite | sycl/source/detail/scheduler/graph_builder.cpp:846-858 | the record becomes modified for every mode except read, and read leaves the flag unchanged |
| GraphBuilders.HasDuplicatesSnoc | sycl/source/detail/scheduler/graph_builder.cpp:916-923 | a list with one more object has a duplicate exactly when the shorter list had one or already held that object |
| GraphBuilders.CombinedModesIsFold | sycl/source/detail/scheduler/graph_builder.cpp:913-923 | the map entry of an object is the left-to-right combination of the modes of all requirements on it |
| GraphBuilders.CombinedModeServesEach | sycl/source/detail/scheduler/graph_builder.cpp:913-930 | the combined mode of an object serves, and allows, the mode of every requirement on that object |
| GraphBuilders.CombinedModesStep | sycl/source/detail/scheduler/graph_builder.cpp:916-923 | one step of the map-building loop inserts a new object's mode, or combines it into the existing entry and records a duplicate |
| GraphBuilders.CombineAccessModesOfReqs | sycl/source/detail/scheduler/graph_builder.cpp:913-930 | if no memory object appears twice, nothing changes; otherwise every requirement ends with the fold of the old modes on its memory object, so requirements on one object end equal |
| GraphBuilders.AssignCombinedModes | sycl/source/detail/scheduler/graph_builder.cpp:927-929 | the second loop gives each requirement the map entry of its memory object |
| GraphBuilders.GraphBuilder.constructor | sycl/source/detail/scheduler/graph_builder.cpp:95-123 | the builder starts with no memory objects and eight print flags; with no option string all are false; otherwise flag k is set exactly when the string contains "always" or the name of option k |
| GraphBuilders.GraphBuilder.EnableIfNamed | sycl/source/detail/scheduler/graph_builder.cpp:99-101 | one `if`: flag k is set when its name occurs or "always" does, and no other flag changes |
| GraphBuilders.AlwaysSetsAll | sycl/source/detail/scheduler/graph_builder.cpp:96-123 | an option string containing "always" sets all eight flags |
| GraphBuilders.OptionSetByName | sycl/source/detail/scheduler/graph_builder.cpp:96-123 | without "always", a flag is set exactly when its name occurs as a substring |
| GraphBuilders.RemoveFirstAt | sycl/source/detail/scheduler/graph_builder.cpp:1285-1292 | when the object first occurs at index i, removal drops exactly that element; when it does not occur, the list is unchanged |
| GraphBuilders.RemoveFirstKeepsOrder | sycl/source/detail/scheduler/graph_builder.cpp:1285-1292 | only the first occurrence is erased, and the others keep their order |
| GraphBuilders.RemoveFirstMultiset | sycl/source/detail/scheduler/graph_builder.cpp:1285-1292 | exactly one copy of a present object is removed, and an absent object removes nothing |
| GraphBuilders.GraphBuilder.RemoveRecordForMemObj | sycl/source/detail/scheduler/graph_builder.cpp:1285-1292 | the builder's list loses the first occurrence of the object, if any, and the object's record is reset |
| CacheKeys.IsImageCached | sycl/source/detail/persistent_device_code_cache.cpp:60-83 | the eligibility test: false when the cache is disabled, the format unsupported, annotations are on, or the size is above a non-zero maximum or below a non-zero minimum; true otherwise (its meaning is stated by `IsImageCachedIff`) |
| LockItems.IsLocked | sycl/source/detail/persistent_device_code_cache.cpp:169 | an item is locked while its lock file exists, as a file or a directory |
| BinaryCodec.ReadBinary | sycl/source/detail/persistent_device_code_cache.cpp:220-243 | what the reader makes of a file's contents: the count, then that many fields; an empty result when the stream failed; a throw when an allocation cannot be made (its meaning is stated by `ReadBinaryOfEncoding` and `ReadBinaryReturnsWholeEncoding`) |
| SourceRecord.IsCacheItemSrcEqualAsWritten | sycl/source/detail/persistent_device_code_cache.cpp:281-324 | the comparison as written: a throw escapes, a differing field gives false, and four matching fields give true even when the stream failed |
| SourceRecord.IsCacheItemSrcEqual | sycl/source/detail/persistent_device_code_cache.cpp:278-324 | the comparison as its comment intends: as written, except that four matching fields give false when the stream failed (its meaning is stated by `SrcEqualOnlyForExactRecord`) |
| SourceRecord.SrcCompare | sycl/source/detail/persistent_device_code_cache.cpp:170-171 | the comparison the probe loop makes: the one as written or the corrected one |
| DeviceCodeCache.FetchFrom | sycl/source/detail/persistent_device_code_cache.cpp:166-184 | the probe loop from index i: skip locked items and unequal records, let a throw of the comparison escape, move on after a throwing read, and end with the first read that returns |
| DeviceCodeCache.FetchItem | sycl/source/detail/persistent_device_code_cache.cpp:150-185 | getItemFromDisc: empty when the image is not cached, the path is empty or the directory is missing; otherwise the probe loop from 0 |
| AccessModes.IsAccessModeAllowed | sycl/source/detail/scheduler/graph_builder.cpp:62-77 | read allows only read; write allows write and discard_write; the other four allow everything (its meaning is stated by `ReadAllowsOnlyRead`, `WideModesAllowEverything` and `BelowAllowed`) |
| AccessModes.CombineAccessModes | sycl/source/detail/scheduler/graph_builder.cpp:80-92 | equal modes give that mode; discard_write with discard_read_write or write gives the other; every other pair gives read_write (its meaning is stated by `CombineIsLeastUpperBound`) |
| GraphBuilders.DoOverlapAsWritten | sycl/source/detail/scheduler/graph_builder.cpp:43-48 | the test as written: either requirement's end, wrapped at `size_t`, is at or after the other's offset |
| GraphBuilders.DoOverlap | sycl/source/detail/scheduler/graph_builder.cpp:43-48 | the corrected test: each requirement's end, wrapped at `size_t`, is at or after the other's offset (its meaning is stated by `DoOverlapIff`) |
| GraphBuilders.CombinedModes | sycl/source/detail/scheduler/graph_builder.cpp:913-923 | the map the first loop builds: one entry per memory object, holding its requirements' modes combined in order (its meaning is stated by `CombinedModesIsFold`) |

## Left out

- Plugin calls: the device binaries that `piProgramGetInfo` gives `putItemToDisc` (persistent_device_code_cache.cpp:109-129) are an input list, because they are foreign calls.
- The four device and platform queries of `getDeviceIDString` are input strings of a `DeviceInfo` value.
- Configuration reads are fields of a `CacheConfig` parameter. These are `SYCLConfig<...>::get`, the size thresholds and their function-static caching, and `getRootDir`.
- `isEnabled` is the `persistentEnabled` field. Its once-only trace and its `FirstCheck` static flag are logging.
- `std::hash` is an arbitrary function parameter. Its algorithm is not modelled, so nothing is proved about hash collisions beyond "a different hash gives a different path".
- Every `trace` call is left out; tracing has no effect on the results.
- Exceptions are modelled only where the source can raise them: allocating a vector or string of a stored length, against the `maxAlloc` parameter.
  - `PutItemToDisc` does not model other throws inside its `try` (a failed `makeDir`, a stream exception), because the stream writes are modelled as always completing.
  - A failed `ofstream` open or write is only traced in the source. It is modelled as the whole file being written.
- Concurrency between processes is not modelled: no interleavings of two caches and no partial writes by a crashing process. Each file-system operation is one atomic step, and exclusive creation is an insert if absent.
- The file system is a map, so paths are compared as strings. `isPathPresent` is "is a file or a directory". Symbolic links and permissions are not modelled.
- `LockCacheItem::isLocked` and `isOwned` come from the header, which is not part of this model. They are modelled as "the lock file exists" and "the constructor created the lock file".
- `GetItemFromDisc`, `FetchItem` and `FetchFrom` take the record comparison as a parameter: `AsWritten` is the code as written, `Corrected` the intended one (see Findings). The no-false-hit lemmas `FetchSound` and `FetchFromSound` hold for `Corrected` only; `AsWrittenFetchFalseHit` shows why.
- `isAccessModeAllowed` is modelled as a release build runs it, because the assertion that `write` is never the current mode is compiled out there.
- The rest of graph_builder.cpp is not modelled: command graph construction, allocation, leaves, cleanup, fusion and `printGraphAsDot`. It works on command and queue classes that are not part of this model.
- `MemObjRecord`, `MemObj` and `Requirement` have only the fields these rules touch.
- `doOverlap`'s `size_t` arithmetic is modelled with wrap-around (`WrappedEnd`). The lemmas about the corrected test assume no wrap-around.
- The eight `if`s of the `GraphBuilder` constructor are one helper method, `EnableIfNamed`, called once per flag in source order on the eight-entry array.

## Findings

| source | as written | input that shows it | evidently intended | confidence | as-written member | corrected member |
|---|---|---|---|---|---|---|
| sycl/source/detail/persistent_device_code_cache.cpp:317-323 | a fail bit noticed after the four comparisons is only traced, and the function returns true | a `.src` file cut off after the length of a one-byte image `[0]`: the last read yields a zero byte and sets the fail bit | its comment says that a failed read means the item is not equal, so the result should be false | not executed | SourceRecord.IsCacheItemSrcEqualAsWritten (SourceRecord.AsWrittenAcceptsTruncatedRecord, DeviceCodeCache.AsWrittenFetchFalseHit) | SourceRecord.IsCacheItemSrcEqual (SourceRecord.SrcEqualOnlyForExactRecord, DeviceCodeCache.FetchSound) |
| sycl/source/detail/scheduler/graph_builder.cpp:43-48 | the two end-after-start tests are joined by `\|\|`, so without wrap-around one of them always holds | extents at offsets 0 and 10, each of one element of one byte: reported as overlapping | two ranges overlap when each ends at or after the other starts (`&&`); the end counts as part of the range, as the source's `>=` does, so ranges that only touch still overlap | not executed | GraphBuilders.DoOverlapAsWritten (GraphBuilders.DoOverlapAsWrittenDisjointExtents, GraphBuilders.DoOverlapAsWrittenAlwaysHolds) | GraphBuilders.DoOverlap (GraphBuilders.DoOverlapIff) |
