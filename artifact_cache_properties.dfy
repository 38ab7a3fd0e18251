/**
 * What the directory cache promises across its operations: a stored entry
 * reads back as a hit with the stored bytes, a damaged record is an error
 * rather than a miss, a complete entry is never rewritten, an iteration of
 * store touches only its own key's two files, the store loop never leaves
 * a metadata file without its artifact (a trim can), the byte counter
 * counts exactly what was written, and a trim brings the listed files
 * under the cap.
 */
module ArtifactCacheProperties {
  import opened JavaIo
  import opened MetadataCodec
  import opened EvictionPlanner
  import opened ArtifactCache

  // ---------------------------------------------------------------------
  // File names

  /** Different keys never share a file, and no artifact name is a metadata name. */
  lemma PathsDistinct(k1: RuleKey, k2: RuleKey)
    ensures ArtifactPath(k1) != MetadataPath(k2)
    ensures k1 != k2 ==> ArtifactPath(k1) != ArtifactPath(k2) && MetadataPath(k1) != MetadataPath(k2)
  {
    assert MetadataPath(k2)[|k2|] == '.' && !IsHexDigit('.');
    if |k1| == |k2| {
      assert MetadataPath(k1)[..|k1|] == k1 && MetadataPath(k2)[..|k2|] == k2;
    }
  }

  /** `after` differs from `before` at most in the two files of `key`'s entry. */
  ghost predicate SameOutside(before: Directory, after: Directory, key: RuleKey) {
    forall n :: n != ArtifactPath(key) && n != MetadataPath(key) ==>
      (n in after <==> n in before) && (n in before ==> after[n] == before[n])
  }

  /** Names listed once each; also the rule keys of a store call, which the source passes as an ImmutableSet. */
  predicate DistinctNames(names: seq<string>) {
    forall i, j :: 0 <= i < j < |names| ==> names[i] != names[j]
  }

  // ---------------------------------------------------------------------
  // fetch

  /**
   * fetch on a directory whose calls do not fail: no metadata file is a
   * miss, an unreadable record an error naming its exception, a record
   * without its artifact a miss, and a well-formed record with its artifact
   * a hit carrying the record's entries and copying the artifact, unless
   * the record repeats a key, which is an error after the copy.
   */
  lemma FetchWithoutFaults(name: string, dir: Directory, key: RuleKey)
    ensures var a := FetchAttempt(dir, key, map[]);
      MetadataPath(key) !in dir ==> FetchResult(name, a) == Miss && FetchOutput(a) == None
    ensures var a := FetchAttempt(dir, key, map[]);
      MetadataPath(key) in dir && Decode(dir[MetadataPath(key)]).Failed? ==>
        FetchResult(name, a) == Error(name, Describe(Decode(dir[MetadataPath(key)]).error))
        && FetchOutput(a) == None
    ensures var a := FetchAttempt(dir, key, map[]);
      MetadataPath(key) in dir && Decode(dir[MetadataPath(key)]).Decoded? && ArtifactPath(key) !in dir ==>
        FetchResult(name, a) == Miss && FetchOutput(a) == None
    ensures var a := FetchAttempt(dir, key, map[]);
      HasEntry(dir, key) && Decode(dir[MetadataPath(key)]).Decoded?
      && DistinctKeys(Decode(dir[MetadataPath(key)]).entries) ==>
        FetchResult(name, a) == Hit(name, Decode(dir[MetadataPath(key)]).entries)
        && FetchOutput(a) == Some(dir[ArtifactPath(key)])
    ensures var a := FetchAttempt(dir, key, map[]);
      HasEntry(dir, key) && Decode(dir[MetadataPath(key)]).Decoded?
      && !DistinctKeys(Decode(dir[MetadataPath(key)]).entries) ==>
        FetchResult(name, a) == Error(name, Describe(DUPLICATE_KEY))
        && FetchOutput(a) == Some(dir[ArtifactPath(key)])
  {
    if MetadataPath(key) in dir {
      DecodeFailures(dir[MetadataPath(key)]);
    }
  }

  /** A complete entry holding `source` and the record of `metadata` is fetched back as exactly that. */
  lemma FetchFindsEntry(name: string, dir: Directory, key: RuleKey, metadata: Metadata, source: seq<byte>)
    requires KeysFit(metadata) && DistinctKeys(metadata)
    requires ArtifactPath(key) in dir && dir[ArtifactPath(key)] == source
    requires MetadataPath(key) in dir && dir[MetadataPath(key)] == Encode(metadata).value
    ensures FetchResult(name, FetchAttempt(dir, key, map[])) == Hit(name, metadata)
    ensures FetchOutput(FetchAttempt(dir, key, map[])) == Some(source)
  {
    RoundTrip(metadata, []);
    assert Encode(metadata).value + [] == Encode(metadata).value;
  }

  /** A metadata file cut short anywhere is reported as an EOFException error, never as a hit or a miss. */
  lemma TruncatedMetadataIsError(name: string, dir: Directory, key: RuleKey, metadata: Metadata, k: nat)
    requires KeysFit(metadata) && k < |Encode(metadata).value|
    requires MetadataPath(key) in dir && dir[MetadataPath(key)] == Encode(metadata).value[..k]
    ensures FetchResult(name, FetchAttempt(dir, key, map[])).Error?
    ensures "class java.io.EOFException: " <= FetchResult(name, FetchAttempt(dir, key, map[])).diagnostic
    ensures FetchOutput(FetchAttempt(dir, key, map[])) == None
  {
    TruncatedRecord(metadata, k);
    var e := Decode(Encode(metadata).value[..k]).error;
    assert FetchAttempt(dir, key, map[]) == Raised(e, None);
    assert Describe(e) == "class java.io.EOFException: " + MessageText(e.message);
  }

  /**
   * Wherever the source's fetch returns, the corrected fetch returns the
   * same; the source lets an exception out exactly for the unchecked ones,
   * which the corrected fetch reports as errors.
   */
  lemma CorrectedAgreesWithSource(name: string, a: Attempt)
    ensures FetchAsWritten(name, a).Returns? ==> FetchAsWritten(name, a).result == FetchResult(name, a)
    ensures FetchAsWritten(name, a).Throws? <==> a.Raised? && !IsIOException(a.error)
    ensures FetchAsWritten(name, a).Throws? ==> FetchResult(name, a) == Error(name, Describe(a.error))
  {
  }

  /** A record of one entry, key "a", whose value length field reads as -1. */
  const NEGATIVE_LENGTH_RECORD: seq<byte> := [0, 0, 0, 1, 0, 1, 0x61, 0xFF, 0xFF, 0xFF, 0xFF]

  /**
   * The source's fetch lets NegativeArraySizeException out of a corrupt
   * metadata file; the corrected fetch reports it as an error.
   */
  lemma NegativeValueLengthEscapes(name: string)
    ensures var dir: Directory := map[ArtifactPath("0") := [], MetadataPath("0") := NEGATIVE_LENGTH_RECORD];
      var a := FetchAttempt(dir, "0", map[]);
      FetchAsWritten(name, a) == Throws(NEGATIVE_SIZE)
      && FetchResult(name, a) == Error(name, Describe(NEGATIVE_SIZE))
  {
    var s := NEGATIVE_LENGTH_RECORD;
    assert s[0..4] == [0, 0, 0, 1] && s[4..6] == [0, 1] && s[7..11] == [0xFF, 0xFF, 0xFF, 0xFF];
    assert ReadInt(s, 0) == Read(1, 4);
    assert ReadUTF(s, 4) == Read(s[6..7], 7);
    assert ReadInt(s, 7) == Read(-1, 11);
    assert ReadEntry(s, 4) == Fail(NEGATIVE_SIZE);
    assert DecodeEntries(s, 4, 1) == Failed(NEGATIVE_SIZE);
    assert Decode(s) == Failed(NEGATIVE_SIZE);
    var dir: Directory := map[ArtifactPath("0") := [], MetadataPath("0") := s];
    assert ArtifactPath("0") != MetadataPath("0");
    assert MetadataPath("0") in dir && dir[MetadataPath("0")] == s;
    assert FetchAttempt(dir, "0", map[]) == Raised(NEGATIVE_SIZE, None);
  }

  /** Two entries with the same key "a" and empty values. */
  const DUPLICATE_METADATA: Metadata := [Entry([0x61], []), Entry([0x61], [])]

  /**
   * The source's fetch copies the artifact and then lets
   * IllegalArgumentException out of building the map of a record that
   * repeats a key; the corrected fetch reports it as an error.
   */
  lemma DuplicateKeyEscapes(name: string, artifact: seq<byte>)
    ensures KeysFit(DUPLICATE_METADATA)
    ensures var dir: Directory := map[ArtifactPath("0") := artifact, MetadataPath("0") := Encode(DUPLICATE_METADATA).value];
      var a := FetchAttempt(dir, "0", map[]);
      FetchAsWritten(name, a) == Throws(DUPLICATE_KEY)
      && FetchOutput(a) == Some(artifact)
      && FetchResult(name, a) == Error(name, Describe(DUPLICATE_KEY))
  {
    var m := DUPLICATE_METADATA;
    assert KeysFit(m);
    RoundTrip(m, []);
    assert Encode(m).value + [] == Encode(m).value;
    assert !DistinctKeys(m) by {
      assert m[0].key == m[1].key;
    }
  }

  // ---------------------------------------------------------------------
  // store: one iteration

  /** One iteration of store changes nothing but its own key's two files, and removes neither. */
  lemma StoreEntryStaysInside(dir: Directory, counter: nat, key: RuleKey, metadata: Metadata,
                              source: seq<byte>, faults: StoreFaults)
    ensures var p := StoreEntry(dir, counter, key, metadata, source, faults);
      SameOutside(dir, p.dir, key) && dir.Keys <= p.dir.Keys && counter <= p.counter
  {
  }

  /** Every metadata file has its artifact beside it. */
  ghost predicate ArtifactsPresent(dir: Directory) {
    forall k: RuleKey :: MetadataPath(k) in dir ==> ArtifactPath(k) in dir
  }

  /**
   * Whatever fails during an iteration, the metadata file is renamed into
   * place only after the artifact: the iteration never leaves a metadata
   * file without its artifact.
   */
  lemma StoreEntryKeepsArtifactsPresent(dir: Directory, counter: nat, key: RuleKey, metadata: Metadata,
                                        source: seq<byte>, faults: StoreFaults)
    requires ArtifactsPresent(dir)
    ensures ArtifactsPresent(StoreEntry(dir, counter, key, metadata, source, faults).dir)
  {
    var p := StoreEntry(dir, counter, key, metadata, source, faults);
    forall k: RuleKey | MetadataPath(k) in p.dir
      ensures ArtifactPath(k) in p.dir
    {
      PathsDistinct(k, key);
      PathsDistinct(key, k);
    }
  }

  /** An iteration whose artifact never reached its name leaves the directory and the counter as they were. */
  lemma InterruptedBeforeRenameChangesNothing(dir: Directory, counter: nat, key: RuleKey, metadata: Metadata,
                                              source: seq<byte>, faults: StoreFaults)
    requires !HasEntry(dir, key)
    requires (key, CreateArtifactTemp) in faults || (key, CopySource) in faults || (key, MoveArtifact) in faults
    ensures StoreEntry(dir, counter, key, metadata, source, faults) == Progress(dir, counter, true)
  {
  }

  // ---------------------------------------------------------------------
  // store: the loop

  /** A file that belongs to none of the keys is untouched by the whole loop. */
  lemma {:induction false} StoreKeysLeavesOtherFiles(dir: Directory, counter: nat, keys: seq<RuleKey>,
                                                     metadata: Metadata, source: seq<byte>,
                                                     faults: StoreFaults, name: string)
    requires forall k :: k in keys ==> name != ArtifactPath(k) && name != MetadataPath(k)
    ensures var d := StoreKeys(dir, counter, keys, metadata, source, faults).dir;
      (name in d <==> name in dir) && (name in dir ==> d[name] == dir[name])
    decreases |keys|
  {
    if keys != [] {
      var p := StoreEntry(dir, counter, keys[0], metadata, source, faults);
      if !p.failed {
        StoreKeysLeavesOtherFiles(p.dir, p.counter, keys[1..], metadata, source, faults, name);
      }
    }
  }

  /** The loop never deletes a file and never lowers the counter. */
  lemma {:induction false} StoreKeysOnlyAdds(dir: Directory, counter: nat, keys: seq<RuleKey>,
                                             metadata: Metadata, source: seq<byte>, faults: StoreFaults)
    ensures var p := StoreKeys(dir, counter, keys, metadata, source, faults);
      dir.Keys <= p.dir.Keys && counter <= p.counter
    decreases |keys|
  {
    if keys != [] {
      var p := StoreEntry(dir, counter, keys[0], metadata, source, faults);
      if !p.failed {
        StoreKeysOnlyAdds(p.dir, p.counter, keys[1..], metadata, source, faults);
      }
    }
  }

  /** The loop keeps every metadata file beside its artifact, whatever fails. */
  lemma {:induction false} StoreKeysKeepsArtifactsPresent(dir: Directory, counter: nat, keys: seq<RuleKey>,
                                                          metadata: Metadata, source: seq<byte>,
                                                          faults: StoreFaults)
    requires ArtifactsPresent(dir)
    ensures ArtifactsPresent(StoreKeys(dir, counter, keys, metadata, source, faults).dir)
    decreases |keys|
  {
    if keys != [] {
      StoreEntryKeepsArtifactsPresent(dir, counter, keys[0], metadata, source, faults);
      var p := StoreEntry(dir, counter, keys[0], metadata, source, faults);
      if !p.failed {
        StoreKeysKeepsArtifactsPresent(p.dir, p.counter, keys[1..], metadata, source, faults);
      }
    }
  }

  /** Once an iteration fails, the keys after it are never looked at. */
  lemma {:induction false} StoreStopsAtFirstFailure(dir: Directory, counter: nat, keys: seq<RuleKey>,
                                                    more: seq<RuleKey>, metadata: Metadata,
                                                    source: seq<byte>, faults: StoreFaults)
    requires StoreKeys(dir, counter, keys, metadata, source, faults).failed
    ensures StoreKeys(dir, counter, keys + more, metadata, source, faults)
         == StoreKeys(dir, counter, keys, metadata, source, faults)
    decreases |keys|
  {
    assert (keys + more)[0] == keys[0] && (keys + more)[1..] == keys[1..] + more;
    var p := StoreEntry(dir, counter, keys[0], metadata, source, faults);
    if !p.failed {
      StoreStopsAtFirstFailure(p.dir, p.counter, keys[1..], more, metadata, source, faults);
    }
  }

  /** A key whose entry was complete keeps both files exactly as they were. */
  lemma {:induction false} CompleteEntryNotRewritten(dir: Directory, counter: nat, keys: seq<RuleKey>,
                                                     metadata: Metadata, source: seq<byte>,
                                                     faults: StoreFaults, key: RuleKey)
    requires HasEntry(dir, key)
    ensures var d := StoreKeys(dir, counter, keys, metadata, source, faults).dir;
      HasEntry(d, key)
      && d[ArtifactPath(key)] == dir[ArtifactPath(key)]
      && d[MetadataPath(key)] == dir[MetadataPath(key)]
    decreases |keys|
  {
    if keys != [] {
      var p := StoreEntry(dir, counter, keys[0], metadata, source, faults);
      PathsDistinct(key, keys[0]);
      PathsDistinct(keys[0], key);
      if !p.failed {
        CompleteEntryNotRewritten(p.dir, p.counter, keys[1..], metadata, source, faults, key);
      }
    }
  }

  lemma DistinctTail(keys: seq<RuleKey>)
    requires keys != [] && DistinctNames(keys)
    ensures DistinctNames(keys[1..]) && keys[0] !in keys[1..]
  {
    forall j | 0 <= j < |keys[1..]|
      ensures keys[1..][j] != keys[0]
    {
      assert keys[1..][j] == keys[j + 1];
    }
  }

  /**
   * With no failures, a stored key that had no complete entry ends up with
   * its artifact holding the source bytes and its metadata file holding
   * the record of the metadata.
   */
  lemma {:induction false} StoredEntryHolds(dir: Directory, counter: nat, keys: seq<RuleKey>,
                                            metadata: Metadata, source: seq<byte>, key: RuleKey)
    requires DistinctNames(keys) && KeysFit(metadata) && key in keys && !HasEntry(dir, key)
    ensures var d := StoreKeys(dir, counter, keys, metadata, source, {}).dir;
      ArtifactPath(key) in d && d[ArtifactPath(key)] == source
      && MetadataPath(key) in d && d[MetadataPath(key)] == Encode(metadata).value
    decreases |keys|
  {
    DistinctTail(keys);
    var p := StoreEntry(dir, counter, keys[0], metadata, source, {});
    if keys[0] == key {
      forall k | k in keys[1..]
        ensures ArtifactPath(key) != ArtifactPath(k) && ArtifactPath(key) != MetadataPath(k)
        ensures MetadataPath(key) != ArtifactPath(k) && MetadataPath(key) != MetadataPath(k)
      {
        PathsDistinct(key, k);
        PathsDistinct(k, key);
      }
      StoreKeysLeavesOtherFiles(p.dir, p.counter, keys[1..], metadata, source, {}, ArtifactPath(key));
      StoreKeysLeavesOtherFiles(p.dir, p.counter, keys[1..], metadata, source, {}, MetadataPath(key));
    } else {
      PathsDistinct(key, keys[0]);
      PathsDistinct(keys[0], key);
      StoredEntryHolds(p.dir, p.counter, keys[1..], metadata, source, key);
    }
  }

  /** With no failures, every key stored is then fetched back as a hit with the stored metadata and bytes. */
  lemma StoreThenFetch(name: string, dir: Directory, counter: nat, keys: seq<RuleKey>,
                       metadata: Metadata, source: seq<byte>, key: RuleKey)
    requires DistinctNames(keys) && KeysFit(metadata) && DistinctKeys(metadata)
    requires key in keys && !HasEntry(dir, key)
    ensures var d := StoreKeys(dir, counter, keys, metadata, source, {}).dir;
      FetchResult(name, FetchAttempt(d, key, map[])) == Hit(name, metadata)
      && FetchOutput(FetchAttempt(d, key, map[])) == Some(source)
  {
    StoredEntryHolds(dir, counter, keys, metadata, source, key);
    var d := StoreKeys(dir, counter, keys, metadata, source, {}).dir;
    FetchFindsEntry(name, d, key, metadata, source);
  }

  /** How many of the keys have no complete entry yet. */
  function Incomplete(dir: Directory, keys: seq<RuleKey>): (n: nat)
    ensures n <= |keys|
  {
    if keys == [] then 0 else (if HasEntry(dir, keys[0]) then 0 else 1) + Incomplete(dir, keys[1..])
  }

  lemma {:induction false} IncompleteUnaffected(before: Directory, after: Directory, keys: seq<RuleKey>, key: RuleKey)
    requires key !in keys && SameOutside(before, after, key)
    ensures Incomplete(after, keys) == Incomplete(before, keys)
    decreases |keys|
  {
    if keys != [] {
      PathsDistinct(keys[0], key);
      PathsDistinct(key, keys[0]);
      IncompleteUnaffected(before, after, keys[1..], key);
    }
  }

  /**
   * With no failures the loop completes every entry, and the counter grows
   * by the artifact and the record once for each key that was incomplete.
   */
  lemma {:induction false} StoreCountsWrittenBytes(dir: Directory, counter: nat, keys: seq<RuleKey>,
                                                   metadata: Metadata, source: seq<byte>)
    requires DistinctNames(keys) && KeysFit(metadata)
    ensures var p := StoreKeys(dir, counter, keys, metadata, source, {});
      !p.failed && (forall k :: k in keys ==> HasEntry(p.dir, k))
      && p.counter == counter + Incomplete(dir, keys) * (|source| + |Encode(metadata).value|)
    decreases |keys|
  {
    if keys != [] {
      DistinctTail(keys);
      var w := |source| + |Encode(metadata).value|;
      var p := StoreEntry(dir, counter, keys[0], metadata, source, {});
      StoreEntryStaysInside(dir, counter, keys[0], metadata, source, {});
      assert HasEntry(p.dir, keys[0]);
      var first := if HasEntry(dir, keys[0]) then 0 else 1;
      assert p.counter == counter + first * w;
      StoreCountsWrittenBytes(p.dir, p.counter, keys[1..], metadata, source);
      IncompleteUnaffected(dir, p.dir, keys[1..], keys[0]);
      StoreKeysOnlyAdds(p.dir, p.counter, keys[1..], metadata, source, {});
      assert (first + Incomplete(dir, keys[1..])) * w == first * w + Incomplete(dir, keys[1..]) * w;
    }
  }

  // ---------------------------------------------------------------------
  // deleteOldFiles

  /**
   * A trim never touches a file missing from the listing or one whose
   * deletion throws, and deletes nothing while the listed files are within
   * the cap.
   */
  lemma EvictedDirectory(dir: Directory, maxSizeBytes: int, scan: TrimScan)
    ensures var after := Evicted(dir, maxSizeBytes, scan);
      after.Keys <= dir.Keys
      && (forall n :: n in dir && (n !in scan.byRecency || n in scan.undeletable) ==> n in after && after[n] == dir[n])
      && (Total(Listing(dir, scan.byRecency)) <= maxSizeBytes ==> after == dir)
  {
    var after := Evicted(dir, maxSizeBytes, scan);
    var files := Listing(dir, scan.byRecency);
    forall n | n in dir && n !in scan.byRecency
      ensures n in after
    {
      var plan := FilesToDelete(files, maxSizeBytes);
      forall i | 0 <= i < |plan| ensures plan[i].name != n {
        assert plan[i] == files[TrimMark(files, maxSizeBytes) + i];
      }
    }
    if Total(files) <= maxSizeBytes {
      assert DeletedNames([], scan.undeletable) == {};
    }
  }

  lemma {:induction false} TotalIgnoresEmptyFiles(a: seq<FileInfo>, b: seq<FileInfo>)
    requires forall i :: 0 <= i < |b| ==> b[i].size == 0
    ensures Total(a + b) == Total(a)
    decreases |b|
  {
    if b == [] {
      assert a + b == a;
    } else {
      assert (a + b)[..|a + b| - 1] == a + b[..|b| - 1];
      TotalIgnoresEmptyFiles(a, b[..|b| - 1]);
    }
  }

  /**
   * Walking a plan that is the tail of a listing whose names are distinct
   * deletes exactly the names from the tail on.
   */
  lemma DeletedTail(files: seq<FileInfo>, names: seq<string>, k: nat)
    requires |files| == |names| && k <= |names| && DistinctNames(names)
    requires forall i :: 0 <= i < |names| ==> files[i].name == names[i]
    ensures forall i :: 0 <= i < |names| ==> (names[i] in DeletedNames(files[k..], {}) <==> k <= i)
  {
    var plan := files[k..];
    forall i | 0 <= i < |names|
      ensures names[i] in DeletedNames(plan, {}) <==> k <= i
    {
      if k <= i {
        assert plan[i - k] == files[i];
      } else {
        forall j | 0 <= j < |plan| ensures plan[j].name != names[i] {
          assert plan[j] == files[k + j];
        }
      }
    }
  }

  /** The listing after deleting some names: those names now report length 0, the rest their old length. */
  lemma ListingAfterDelete(dir: Directory, names: seq<string>, gone: set<string>, k: nat)
    requires k <= |names|
    requires forall i :: 0 <= i < |names| ==> (names[i] in gone <==> k <= i)
    ensures forall i :: 0 <= i < k ==> Listing(dir - gone, names)[i] == Listing(dir, names)[i]
    ensures forall i :: k <= i < |names| ==> Listing(dir - gone, names)[i].size == 0
  {
  }

  /** A listing that agrees with `files` up to `k` and lists only empty files after it totals what the first `k` files do. */
  lemma KeptTotal(files: seq<FileInfo>, kept: seq<FileInfo>, k: nat)
    requires |kept| == |files| && k <= |files|
    requires forall i :: 0 <= i < k ==> kept[i] == files[i]
    requires forall i :: k <= i < |kept| ==> kept[i].size == 0
    ensures Total(kept) == Total(files[..k])
  {
    assert kept == files[..k] + kept[k..];
    assert forall i :: 0 <= i < |kept[k..]| ==> kept[k..][i] == kept[k + i];
    TotalIgnoresEmptyFiles(files[..k], kept[k..]);
  }

  lemma SplitAt(keep: seq<FileInfo>, plan: seq<FileInfo>, files: seq<FileInfo>)
    requires keep + plan == files
    ensures keep == files[..|keep|] && plan == files[|keep|..]
  {
  }

  /**
   * When the listing names each file once and every deletion succeeds, the
   * listed files total at most the maximum after a trim, and at most two
   * thirds of it when the trim deleted something.
   */
  lemma EvictionRespectsCap(dir: Directory, maxSizeBytes: int, names: seq<string>)
    requires maxSizeBytes >= 0 && DistinctNames(names)
    ensures var after := Evicted(dir, maxSizeBytes, TrimScan(names, {}));
      Total(Listing(after, names)) <= maxSizeBytes
      && (Total(Listing(dir, names)) > maxSizeBytes ==> 3 * Total(Listing(after, names)) <= 2 * maxSizeBytes)
  {
    var files := Listing(dir, names);
    KeptWithinTwoThirds(files, maxSizeBytes);
    var keep, plan := FilesToKeep(files, maxSizeBytes), FilesToDelete(files, maxSizeBytes);
    var k := |keep|;
    SplitAt(keep, plan, files);
    DeletedTail(files, names, k);
    var gone := DeletedNames(plan, {});
    ListingAfterDelete(dir, names, gone, k);
    KeptTotal(files, Listing(dir - gone, names), k);
  }

  /** The listing names every file of the directory, each once. */
  ghost predicate ListsDirectory(dir: Directory, names: seq<string>) {
    DistinctNames(names) && forall n :: n in dir <==> n in names
  }

  /** Removing the names listed from index `k` on leaves a directory the first `k` names list. */
  lemma RemainingListed(dir: Directory, names: seq<string>, gone: set<string>, k: nat)
    requires k <= |names| && ListsDirectory(dir, names)
    requires forall i :: 0 <= i < |names| ==> (names[i] in gone <==> k <= i)
    ensures ListsDirectory(dir - gone, names[..k])
  {
    var kept := names[..k];
    forall n
      ensures n in dir - gone <==> n in kept
    {
      if n in kept {
        var i :| 0 <= i < k && kept[i] == n;
        assert names[i] == n;
      }
      if n in dir - gone {
        var i :| 0 <= i < |names| && names[i] == n;
        assert kept[i] == n;
      }
    }
    forall i, j | 0 <= i < j < |kept| ensures kept[i] != kept[j] {
      assert kept[i] == names[i] && kept[j] == names[j];
    }
  }

  /** The first `k` names list, in the smaller directory, what they listed before. */
  lemma KeptListing(dir: Directory, names: seq<string>, gone: set<string>, k: nat)
    requires k <= |names|
    requires forall i :: 0 <= i < |names| ==> (names[i] in gone <==> k <= i)
    ensures Listing(dir - gone, names[..k]) == Listing(dir, names)[..k]
  {
    var kept := names[..k];
    forall i | 0 <= i < k ensures Listing(dir - gone, kept)[i] == Listing(dir, names)[i] {
      assert kept[i] == names[i];
    }
  }

  /**
   * A trim of a directory that the listing names completely, with every
   * deletion succeeding, leaves exactly the most recently accessed files it
   * keeps, unchanged, and those total at most the maximum, and at most two
   * thirds of it when anything was deleted.
   */
  lemma TrimmedDirectory(dir: Directory, maxSizeBytes: int, names: seq<string>)
    requires maxSizeBytes >= 0 && ListsDirectory(dir, names)
    ensures var files := Listing(dir, names);
      var k := |FilesToKeep(files, maxSizeBytes)|;
      var after := Evicted(dir, maxSizeBytes, TrimScan(names, {}));
      k <= |names| && ListsDirectory(after, names[..k])
      && (forall n :: n in after ==> after[n] == dir[n])
      && Total(Listing(after, names[..k])) <= maxSizeBytes
      && (Total(files) > maxSizeBytes ==> 3 * Total(Listing(after, names[..k])) <= 2 * maxSizeBytes)
  {
    var files := Listing(dir, names);
    KeptWithinTwoThirds(files, maxSizeBytes);
    var keep, plan := FilesToKeep(files, maxSizeBytes), FilesToDelete(files, maxSizeBytes);
    var k := |keep|;
    SplitAt(keep, plan, files);
    DeletedTail(files, names, k);
    var gone := DeletedNames(plan, {});
    RemainingListed(dir, names, gone, k);
    KeptListing(dir, names, gone, k);
  }

  /** A directory whose only complete entry's artifact is listed after its metadata file. */
  const ORPHANING_DIRECTORY: Directory :=
    map[MetadataPath("0") := seq(10, _ => 0), ArtifactPath("0") := seq(250, _ => 0), ArtifactPath("1") := seq(100, _ => 0)]

  /**
   * A trim deletes files one by one down the listing, so it can keep a
   * metadata file and delete its artifact: with the listing
   * `0.metadata` (10 bytes), `0` (250), `1` (100) and a 300-byte maximum,
   * the artifact `0` goes and its metadata file stays, and fetch of that
   * key is then a miss.
   */
  lemma TrimCanOrphanMetadata(name: string)
    ensures ArtifactsPresent(ORPHANING_DIRECTORY)
    ensures var after := Evicted(ORPHANING_DIRECTORY, 300, TrimScan([MetadataPath("0"), ArtifactPath("0"), ArtifactPath("1")], {}));
      MetadataPath("0") in after && ArtifactPath("0") !in after
      && FetchResult(name, FetchAttempt(after, "0", map[])) == Miss
  {
    var dir := ORPHANING_DIRECTORY;
    var names := [MetadataPath("0"), ArtifactPath("0"), ArtifactPath("1")];
    assert MetadataPath("0") == "0.metadata";
    forall k: RuleKey | MetadataPath(k) in dir ensures ArtifactPath(k) in dir {
      assert MetadataPath(k) == "0.metadata";
      assert MetadataPath(k)[..|k|] == k;
      assert "0.metadata"[..|k|] == k;
    }
    var files := Listing(dir, names);
    assert files == [FileInfo(names[0], 10), FileInfo(names[1], 250), FileInfo(names[2], 100)];
    assert files[..1][..0] == [] && files[..2][..1] == files[..1] && files[..3][..2] == files[..2];
    assert files[..3] == files;
    assert Total(files[..1]) == 10;
    assert Total(files[..2]) == 260;
    assert Total(files[..3]) == 360;
    assert RunningTotal(files, 0) == 10 && RunningTotal(files, 1) == 260;
    assert TrimMarkFrom(files, 300, 1) == 1;
    assert TrimMark(files, 300) == 1;
    var plan := FilesToDelete(files, 300);
    assert plan == files[1..];
    var gone := DeletedNames(plan, {});
    assert names[1] in gone;
    assert names[0] !in gone by {
      forall i | 0 <= i < |plan| ensures plan[i].name != names[0] {
        assert plan[i] == files[1 + i];
      }
    }
  }
}
