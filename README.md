# DirArtifactCache, modelled in Dafny

Buck's `DirArtifactCache` keeps build artifacts in one local directory.
The entry for a rule key is two files:

- `<key>` holds the artifact bytes.
- `<key>.metadata` holds a binary metadata record. The record is a big-endian int count, then for each entry a `writeUTF` key, a big-endian int value length and the value bytes.

The cache has four operations:

- **`fetch`** reads the record back and copies the artifact to the caller's output. A missing file is a *miss*. Any other `IOException` is an *error* result, whose diagnostic is `"<exception class>: <message>"`.
- **`store`** writes every entry that is not already complete. Each file is written to a temporary file first and then renamed over its final name. The first `IOException` ends the loop and is swallowed. The size of each file renamed into place is added to a counter, unless reading that size throws, in which case the file stays but is not counted. After the loop, if the counter is over half the configured maximum, the counter is reset and a trim runs.
- **`deleteOldFiles`** is the trim. It lists the directory, most recently accessed first. It keeps the longest prefix whose running total stays within two thirds of the maximum, and deletes the rest, but only when the whole listing is over the maximum. A file whose deletion throws is skipped.
- **`close`** runs the trim once more.

The project has five modules:

| file | module | contents |
|---|---|---|
| `java_io.dfy` | `JavaIo` | bytes; `writeInt`/`readInt` and `writeShort`/`readUnsignedShort` in big-endian order; the exceptions involved (class and message); the three `DataInput` reads the decoder uses |
| `metadata_codec.dfy` | `MetadataCodec` | the metadata record: `Encode` (what `store` writes) and `Decode` (what `fetch` reads), as functions; the writer loop and the reader loop as methods proved equal to them; round trip, truncation and read-back lemmas |
| `eviction_planner.dfy` | `EvictionPlanner` | `findFilesToDelete` as a specification (`FilesToDelete`, `FilesToKeep`) and as the original loop (`FindFilesToDelete`), proved equal to it |
| `artifact_cache.dfy` | `ArtifactCache` | the directory as a map from file name to contents; `fetch` and one `store` iteration as specification functions; the class `DirArtifactCache`, whose fields `dir` and `bytesSinceLastDeleteOldFiles` its methods update |
| `artifact_cache_properties.dfy` | `ArtifactCacheProperties` | the properties that span operations: store-then-fetch, crash safety of the store loop, counter accounting, the eviction bound, a trim that leaves a metadata file without its artifact, and the two counterexamples listed under Findings |

Every filesystem call that can throw for reasons other than the directory's contents takes its outcome from a parameter:

- `FetchFaults` maps a step of `fetch` to the exception it throws.
- `StoreFaults` lists the `(key, step)` pairs of `store` that throw.
- `TrimScan` gives the access-time order of the listing and the files whose deletion throws.

With these parameters every branch and every catch clause of the source is reachable in the model.

The class comment on `isStoreSupported` says storing is always supported. The code returns `doStore`, and the model follows the code.

## Model

All source paths below are `src/com/facebook/buck/artifact_cache/DirArtifactCache.java`.

| member | source | states |
|---|---|---|
| JavaIo.ReadInt | src/com/facebook/buck/artifact_cache/DirArtifactCache.java:89 | `readInt` succeeds exactly when four bytes remain, advances by four and yields an int; otherwise it throws `EOFException` with no message |
| JavaIo.ReadUTF | src/com/facebook/buck/artifact_cache/DirArtifactCache.java:91 | `readUTF` yields a key shorter than 65536 bytes and ends inside the stream; a short stream throws `EOFException` with no message |
| JavaIo.ReadFully | src/com/facebook/buck/artifact_cache/DirArtifactCache.java:94 | `ByteStreams.readFully` succeeds exactly when `n` bytes remain and yields exactly `n` bytes; otherwise it throws `EOFException` |
| JavaIo.IntRoundTrip | src/com/facebook/buck/artifact_cache/DirArtifactCache.java:163 | reading back what `writeInt` writes gives the same int, negatives included |
| JavaIo.IntBytesOfValue | src/com/facebook/buck/artifact_cache/DirArtifactCache.java:92 | four bytes that read as a non-negative int are exactly what `writeInt` writes for it |
| JavaIo.ShortRoundTrip | src/com/facebook/buck/artifact_cache/DirArtifactCache.java:161 | reading back the 16-bit length `writeUTF` writes gives the same length |
| JavaIo.ShortBytesOfValue | src/com/facebook/buck/artifact_cache/DirArtifactCache.java:91 | any two length bytes are exactly what `writeUTF` writes for their value |
| MetadataCodec.EncodeEntry | src/com/facebook/buck/artifact_cache/DirArtifactCache.java:161-164 | writing an entry succeeds exactly when its key fits `writeUTF`'s 16-bit length |
| MetadataCodec.EncodeEntries | src/com/facebook/buck/artifact_cache/DirArtifactCache.java:160-165 | writing the entries succeeds exactly when every key fits |
| MetadataCodec.Encode | src/com/facebook/buck/artifact_cache/DirArtifactCache.java:158-166 | the record is written exactly when every key fits, and it starts with the entry count as `writeInt` writes it |
| MetadataCodec.WriteMetadata | src/com/facebook/buck/artifact_cache/DirArtifactCache.java:158-166 | the writer loop produces exactly the record `Encode` specifies, and nothing when a key is too long |
| MetadataCodec.ReadEntry | src/com/facebook/buck/artifact_cache/DirArtifactCache.java:91-95 | reading one entry always consumes at least one byte and stays inside the stream |
| MetadataCodec.ReadMetadataEntry | src/com/facebook/buck/artifact_cache/DirArtifactCache.java:91-95 | the loop body, with its early exits, reads the same entry or throws the same exception as `ReadEntry` |
| MetadataCodec.ReadNextEntry | src/com/facebook/buck/artifact_cache/DirArtifactCache.java:91-95 | one iteration's result is the first step of the remaining iterations: a throw fails them all, a read entry heads what follows |
| MetadataCodec.DecodeEntries | src/com/facebook/buck/artifact_cache/DirArtifactCache.java:90-96 | the entries read by `count` iterations end inside the stream |
| MetadataCodec.ReadMetadataEntries | src/com/facebook/buck/artifact_cache/DirArtifactCache.java:90-96 | the `for` loop yields `DecodeEntries` over `max(count, 0)` iterations, so a negative count reads nothing |
| MetadataCodec.Decode | src/com/facebook/buck/artifact_cache/DirArtifactCache.java:89-96 | a decoded record has at most `Integer.MAX_VALUE` entries and ends after the count, inside the file |
| MetadataCodec.ReadMetadata | src/com/facebook/buck/artifact_cache/DirArtifactCache.java:89-96 | the reader as `fetch` runs it returns exactly `Decode` of the file's bytes |
| MetadataCodec.DecodedCount | src/com/facebook/buck/artifact_cache/DirArtifactCache.java:90-95 | a loop that completes yields exactly one entry per iteration |
| MetadataCodec.DecodeEntriesFailures | src/com/facebook/buck/artifact_cache/DirArtifactCache.java:90-95 | the loop throws only `EOFException` or `NegativeArraySizeException` (allocation of the value array never fails in this model) |
| MetadataCodec.DecodeFailures | src/com/facebook/buck/artifact_cache/DirArtifactCache.java:89-96 | reading a record throws only `EOFException` or `NegativeArraySizeException`, never `NoSuchFileException` (allocation of the value array never fails in this model) |
| MetadataCodec.EntryRoundTrip | src/com/facebook/buck/artifact_cache/DirArtifactCache.java:91-95 | reading the bytes written for an entry gives back the entry and stops right after them |
| MetadataCodec.EntriesRoundTrip | src/com/facebook/buck/artifact_cache/DirArtifactCache.java:90-96 | reading the bytes written for a sequence of entries gives back the same entries in the same order |
| MetadataCodec.RoundTrip | src/com/facebook/buck/artifact_cache/DirArtifactCache.java:89-96 | decoding what `store` writes gives back the same metadata, whatever follows the record |
| MetadataCodec.EntryTruncated | src/com/facebook/buck/artifact_cache/DirArtifactCache.java:91-94 | an entry cut short anywhere makes one of the reads throw `EOFException` |
| MetadataCodec.EntriesTruncated | src/com/facebook/buck/artifact_cache/DirArtifactCache.java:90-96 | entries cut short anywhere make the loop throw `EOFException` |
| MetadataCodec.TruncatedRecord | src/com/facebook/buck/artifact_cache/DirArtifactCache.java:89-96 | every strict prefix of a written record fails to decode with `EOFException` |
| MetadataCodec.EntryReadBack | src/com/facebook/buck/artifact_cache/DirArtifactCache.java:91-95 | whatever entry the loop reads is exactly what the writer writes for it |
| MetadataCodec.EntriesReadBack | src/com/facebook/buck/artifact_cache/DirArtifactCache.java:90-96 | whatever entries the loop reads are exactly what the writer writes for them |
| MetadataCodec.DecodeThenEncode | src/com/facebook/buck/artifact_cache/DirArtifactCache.java:89-96 | a record that decodes with a non-negative count is the encoding of the entries it yields, so the reader accepts only what the writer writes |
| EvictionPlanner.TrimMarkFrom | src/com/facebook/buck/artifact_cache/DirArtifactCache.java:235-240 | the mark is the first index at or after the start whose running total passes two thirds of the maximum, or the end |
| EvictionPlanner.TrimMark | src/com/facebook/buck/artifact_cache/DirArtifactCache.java:234-240 | `maxTrimMark` is the first index whose running total passes two thirds of the maximum |
| EvictionPlanner.TotalOfPrefix | src/com/facebook/buck/artifact_cache/DirArtifactCache.java:237 | the running total never decreases along the listing |
| EvictionPlanner.FindFilesToDelete | src/com/facebook/buck/artifact_cache/DirArtifactCache.java:233-245 | the loop returns exactly `FilesToDelete`: nothing when the total stays within the maximum, else the listing from the mark on |
| EvictionPlanner.NothingDeletedIffWithinCap | src/com/facebook/buck/artifact_cache/DirArtifactCache.java:241-245 | the plan is empty exactly when the listing is empty or its total is within the maximum |
| EvictionPlanner.KeptWithinTwoThirds | src/com/facebook/buck/artifact_cache/DirArtifactCache.java:231-245 | kept prefix and deleted tail partition the listing; the kept files total at most the maximum, at most two thirds of it after a deletion, and one more file would pass two thirds |
| EvictionPlanner.MarkSetBeforeCap | src/com/facebook/buck/artifact_cache/DirArtifactCache.java:238-242 | the mark is set no later than the index that passes the maximum, so `maxTrimMark.get()` never throws |
| EvictionPlanner.AtCapNothingDeleted | src/com/facebook/buck/artifact_cache/DirArtifactCache.java:241 | the cap test is strict: any listing whose total equals the maximum is left alone, and a non-empty listing one byte over it loses a file |
| EvictionPlanner.OverCapEvictsOldest | src/com/facebook/buck/artifact_cache/DirArtifactCache.java:233-245 | four 100-byte files under a 300-byte maximum lose the two least recently accessed |
| ArtifactCache.Listing | src/com/facebook/buck/artifact_cache/DirArtifactCache.java:228 | the listed files, in listing order, each with its `File.length()`, which is 0 for a name that is gone |
| ArtifactCache.DeletedNames | src/com/facebook/buck/artifact_cache/DirArtifactCache.java:213-221 | a name is deleted exactly when the plan names it and its deletion does not throw |
| ArtifactCache.FetchResult | src/com/facebook/buck/artifact_cache/DirArtifactCache.java:102-111 | fetch as intended: a hit exactly when the try block completes, a miss exactly when it throws `NoSuchFileException`, and otherwise an error whose diagnostic is the exception's class and message |
| ArtifactCache.TempNameIsNoEntry | src/com/facebook/buck/artifact_cache/DirArtifactCache.java:146 | a temporary file never has an artifact's or a metadata file's name |
| ArtifactCache.DirArtifactCache.constructor | src/com/facebook/buck/artifact_cache/DirArtifactCache.java:62-76 | the fields take the given values and the counter starts at 0 |
| ArtifactCache.DirArtifactCache.IsStoreSupported | src/com/facebook/buck/artifact_cache/DirArtifactCache.java:196-198 | storing is supported exactly when the cache was built with `doStore` |
| ArtifactCache.DirArtifactCache.Fetch | src/com/facebook/buck/artifact_cache/DirArtifactCache.java:79-120 | the step-by-step fetch returns the corrected result and output that `FetchAttempt` and `FetchResult` specify, and never throws |
| ArtifactCache.DirArtifactCache.NewTempName | src/com/facebook/buck/artifact_cache/DirArtifactCache.java:146 | `createTempFile` returns a name not yet in the directory, with the given prefix and `.tmp` suffix |
| ArtifactCache.DirArtifactCache.ReplaceThroughTemp | src/com/facebook/buck/artifact_cache/DirArtifactCache.java:146-153 | the target gets the new contents exactly when writing and moving succeed, and otherwise is unchanged; the temporary file is gone either way |
| ArtifactCache.DirArtifactCache.StoreOne | src/com/facebook/buck/artifact_cache/DirArtifactCache.java:136-171 | one iteration leaves the directory and the counter that `StoreEntry` specifies, and reports whether an `IOException` ended it |
| ArtifactCache.DirArtifactCache.Store | src/com/facebook/buck/artifact_cache/DirArtifactCache.java:123-190 | with storing off, nothing changes; otherwise the loop's outcome is `StoreKeys`, followed by a reset counter and a trim exactly when the counter passes half the maximum |
| ArtifactCache.DirArtifactCache.Close | src/com/facebook/buck/artifact_cache/DirArtifactCache.java:201-203 | closing leaves the directory a trim leaves |
| ArtifactCache.DirArtifactCache.DeleteOldFiles | src/com/facebook/buck/artifact_cache/DirArtifactCache.java:209-222 | without a maximum nothing changes; otherwise exactly the planned files whose deletion does not throw are removed |
| ArtifactCacheProperties.PathsDistinct | src/com/facebook/buck/artifact_cache/DirArtifactCache.java:136-137 | different keys never share a file, and no artifact's name is a metadata file's name |
| ArtifactCacheProperties.FetchWithoutFaults | src/com/facebook/buck/artifact_cache/DirArtifactCache.java:79-112 | without I/O failures: a missing metadata file is a miss; an unreadable record is an error naming its exception; a record without its artifact is a miss; a complete entry whose record has distinct keys is a hit with the record's entries and the artifact copied, and one whose record repeats a key is an error naming the duplicate key, after the artifact was copied |
| ArtifactCacheProperties.FetchFindsEntry | src/com/facebook/buck/artifact_cache/DirArtifactCache.java:85-102 | an entry holding some bytes and the record of some metadata is fetched as a hit with exactly that metadata, and exactly those bytes are copied |
| ArtifactCacheProperties.TruncatedMetadataIsError | src/com/facebook/buck/artifact_cache/DirArtifactCache.java:105-111 | a metadata file cut short anywhere is an error whose diagnostic starts with `class java.io.EOFException: `, not a hit or a miss, and nothing is copied |
| ArtifactCacheProperties.CorrectedAgreesWithSource | src/com/facebook/buck/artifact_cache/DirArtifactCache.java:102-112 | wherever the source's fetch returns, the corrected fetch returns the same; the source throws exactly on the unchecked exceptions, which the corrected fetch reports as errors |
| ArtifactCacheProperties.NegativeValueLengthEscapes | src/com/facebook/buck/artifact_cache/DirArtifactCache.java:93 | a record whose value length reads as -1 makes the source's fetch throw `NegativeArraySizeException`; the corrected fetch returns an error |
| ArtifactCacheProperties.DuplicateKeyEscapes | src/com/facebook/buck/artifact_cache/DirArtifactCache.java:100-102 | a record that repeats a key makes the source's fetch copy the artifact and then throw `IllegalArgumentException`; the corrected fetch returns an error |
| ArtifactCacheProperties.StoreEntryStaysInside | src/com/facebook/buck/artifact_cache/DirArtifactCache.java:136-171 | one iteration changes only its own key's two files, deletes no file and never lowers the counter |
| ArtifactCacheProperties.StoreEntryKeepsArtifactsPresent | src/com/facebook/buck/artifact_cache/DirArtifactCache.java:143-171 | wherever an iteration stops, no metadata file is left without its artifact |
| ArtifactCacheProperties.InterruptedBeforeRenameChangesNothing | src/com/facebook/buck/artifact_cache/DirArtifactCache.java:143-153 | an iteration whose artifact write or rename fails leaves the directory and the counter as they were, so no partial artifact appears under its final name |
| ArtifactCacheProperties.StoreKeysLeavesOtherFiles | src/com/facebook/buck/artifact_cache/DirArtifactCache.java:134-172 | a file that belongs to none of the stored keys keeps its presence and its contents |
| ArtifactCacheProperties.StoreKeysOnlyAdds | src/com/facebook/buck/artifact_cache/DirArtifactCache.java:134-172 | the store loop deletes no file and never lowers the counter |
| ArtifactCacheProperties.StoreKeysKeepsArtifactsPresent | src/com/facebook/buck/artifact_cache/DirArtifactCache.java:143-172 | whatever fails, the store loop never leaves a metadata file without its artifact |
| ArtifactCacheProperties.StoreStopsAtFirstFailure | src/com/facebook/buck/artifact_cache/DirArtifactCache.java:132-180 | once an iteration throws, the keys after it have no effect |
| ArtifactCacheProperties.CompleteEntryNotRewritten | src/com/facebook/buck/artifact_cache/DirArtifactCache.java:139-141 | a key whose two files exist keeps both, byte for byte, through the whole loop |
| ArtifactCacheProperties.StoredEntryHolds | src/com/facebook/buck/artifact_cache/DirArtifactCache.java:134-172 | without failures, every stored key that had no complete entry ends with its artifact holding the source bytes and its metadata file holding the record |
| ArtifactCacheProperties.StoreThenFetch | src/com/facebook/buck/artifact_cache/DirArtifactCache.java:123-172 | without failures, fetching a key just stored is a hit with the stored metadata and copies the stored bytes |
| ArtifactCacheProperties.IncompleteUnaffected | src/com/facebook/buck/artifact_cache/DirArtifactCache.java:139 | changing one key's files does not change which other keys have a complete entry |
| ArtifactCacheProperties.StoreCountsWrittenBytes | src/com/facebook/buck/artifact_cache/DirArtifactCache.java:134-172 | without failures, every key ends with a complete entry, and the counter grows by the artifact size plus the record size once per key that was incomplete |
| ArtifactCacheProperties.EvictedDirectory | src/com/facebook/buck/artifact_cache/DirArtifactCache.java:209-245 | a trim deletes only listed, deletable files, creates none, and deletes nothing while the listing is within the maximum |
| ArtifactCacheProperties.DeletedTail | src/com/facebook/buck/artifact_cache/DirArtifactCache.java:213-215 | over a listing with distinct names, deleting the tail from index `k` removes exactly the names at `k` and after |
| ArtifactCacheProperties.EvictionRespectsCap | src/com/facebook/buck/artifact_cache/DirArtifactCache.java:209-245 | when the listing names each file once and every deletion succeeds, the listed files total at most the maximum after a trim, and at most two thirds of it when anything was deleted |
| ArtifactCacheProperties.TrimmedDirectory | src/com/facebook/buck/artifact_cache/DirArtifactCache.java:209-245 | when the listing names every file of the directory once and every deletion succeeds, the directory after a trim holds exactly the kept most recently accessed files, unchanged, totalling at most the maximum, and at most two thirds of it when anything was deleted |
| ArtifactCacheProperties.TrimCanOrphanMetadata | src/com/facebook/buck/artifact_cache/DirArtifactCache.java:209-245 | a trim can delete an artifact and keep its metadata file: with `0.metadata` (10 bytes), `0` (250) and `1` (100) listed in that order under a 300-byte maximum, `0` goes, `0.metadata` stays, and fetching key `0` is then a miss |

## Left out

- Floating point: the ratios `0.5f` and `2 / 3f` are taken as exact fractions. The store trigger becomes `2 * counter > max`, and the trim mark `3 * total > 2 * max`. Float rounding of large sizes is not modelled.
- `long` overflow of `bytesSinceLastDeleteOldFiles` and `currentSizeBytes` is not modelled, because both are unbounded integers here.
- Character encoding is not modelled.
  - Keys are taken as the bytes `writeUTF` produces, and values as the bytes `getBytes(UTF_8)` produces.
  - The 65535-byte limit of `writeUTF` is applied to those bytes.
  - `readUTF` throwing `UTFDataFormatException` on malformed modified UTF-8 is not modelled.
  - `new String(val, UTF_8)` replacing malformed sequences is not modelled.
- MetadataCodec.ReadEntry: `new byte[valSize]` running out of memory is not modelled. In the JVM a value length past the VM's array limit or the free heap throws `OutOfMemoryError` before `readFully`, for example the record `00 00 00 01 00 01 61 7F FF FF FF`. The model reads on and reports the `EOFException` of the short read.
- MetadataCodec.DecodeEntriesFailures: for the same reason, the `OutOfMemoryError` that the allocation can throw is not among the failures it lists.
- MetadataCodec.DecodeFailures: for the same reason, the `OutOfMemoryError` that the allocation can throw is not among the failures it lists.
- ArtifactCacheProperties.CorrectedAgreesWithSource: the source's fetch also lets that `OutOfMemoryError` out, and neither fetch in the model can raise it. The source therefore throws in more cases than the lemma names.
- `listFiles()` and `MoreFiles.sortFilesByAccessTime` are not part of this model. Their result is the parameter `TrimScan.byRecency`. When `listFiles()` returns null because the directory is gone or unreadable, the `NullPointerException` that escapes `store` and `close` is not modelled either.
- ArtifactCacheProperties.EvictionRespectsCap: the bound is proved only when the listing names each file once and every deletion succeeds. A file whose deletion throws stays and can keep the directory over the maximum.
- ArtifactCacheProperties.TrimmedDirectory: the same two assumptions, and the listing must name every file of the directory. The listing is a parameter here, so nothing else ties it to the directory.
- `createTempFile` picks a random free name. Here it returns a fresh name that is longer than every existing name.
- An `IOException` from `deleteFileAtPathIfExists` in a `finally` block is not modelled: the temporary file is always removed.
- `filesystem.mkdirs` failing in the constructor is not modelled. The constructor takes the directory's existing contents.
- Logging (`LOG.warn`, `LOG.debug`) and the returned `ListenableFuture`, which is always already complete, have no effect on the cache's state and are left out.
- Concurrent processes using the same directory are not modelled: each operation sees the directory as the previous one left it.
- The caller's output path is not a file in the cache directory. The bytes `fetch` copies are returned as `output`.
- Exception messages follow Java 8:
  - `NegativeArraySizeException` from `new byte[n]` has no message.
  - The `IllegalArgumentException` from a repeated key is given a fixed message, without the two entries Guava appends.
- The set of rule keys is an `ImmutableSet`, modelled as a sequence. Lemmas that need the keys to be distinct require it with `DistinctNames`.

## Findings

| source | as written | input that shows it | evidently intended | confidence | as-written member | corrected member |
|---|---|---|---|---|---|---|
| src/com/facebook/buck/artifact_cache/DirArtifactCache.java:93 | `new byte[valSize]` with a negative length read from the file throws `NegativeArraySizeException`. Only `IOException` is caught, so `fetch` throws. | metadata file `00 00 00 01 00 01 61 FF FF FF FF` (one entry, key `a`, value length -1) next to an artifact | a corrupt metadata file is an error result, like a truncated one | medium; not executed | ArtifactCacheProperties.NegativeValueLengthEscapes | ArtifactCache.FetchResult |
| src/com/facebook/buck/artifact_cache/DirArtifactCache.java:102 | `ImmutableMap.Builder.build()` throws `IllegalArgumentException` on a record that repeats a key. This happens after the artifact was copied to the output, and `fetch` throws. | metadata file holding two entries with key `a` and empty values, next to an artifact | a corrupt metadata file is an error result | medium; not executed | ArtifactCacheProperties.DuplicateKeyEscapes | ArtifactCache.FetchResult |

`ArtifactCache.FetchAsWritten` models the catch clauses as written. `ArtifactCache.FetchResult` catches every exception. `ArtifactCache.DirArtifactCache.Fetch` is proved to return `FetchResult`. `ArtifactCacheProperties.CorrectedAgreesWithSource` proves two things:

- The corrected fetch differs from the source only where the source throws.
- Where the source throws, the corrected fetch returns an error describing the exception.
