/**
 * DirArtifactCache: a build-artifact cache kept in one directory. An entry
 * for a rule key is two files, `<key>` holding the artifact and
 * `<key>.metadata` holding its metadata record; both are written through a
 * temporary file that is then renamed into place. A process-local counter
 * of bytes stored since the last trim decides when least recently used
 * files are evicted.
 *
 * The directory is a map from file name to contents. Every filesystem
 * call that can throw takes its failure from a parameter (a map or set of
 * failing steps), so that each catch clause of the source is reachable.
 */
module ArtifactCache {
  import opened JavaIo
  import opened MetadataCodec
  import opened EvictionPlanner

  predicate IsHexDigit(c: char) {
    '0' <= c <= '9' || 'a' <= c <= 'f'
  }

  /** RuleKey.toString(): the key's hash in lower-case hex. */
  type RuleKey = k: string | |k| > 0 && forall i :: 0 <= i < |k| ==> IsHexDigit(k[i]) witness "0"

  /** The cache directory: file name to contents. */
  type Directory = map<string, seq<byte>>

  /** cacheDir.resolve(ruleKey.toString()). */
  function ArtifactPath(key: RuleKey): string {
    key
  }

  /** cacheDir.resolve(ruleKey.toString() + ".metadata"). */
  function MetadataPath(key: RuleKey): string {
    key + ".metadata"
  }

  /** A name createTempFile(cacheDir, prefix, ".tmp") can return. */
  predicate IsTempName(name: string, prefix: string) {
    |name| >= |prefix| + 4 && name[..|prefix|] == prefix && name[|name| - 4..] == ".tmp"
  }

  /** An entry is complete when both of its files are present. */
  predicate HasEntry(dir: Directory, key: RuleKey) {
    ArtifactPath(key) in dir && MetadataPath(key) in dir
  }

  /** File.length(): 0 for a name that is not there. */
  function Length(dir: Directory, name: string): nat {
    if name in dir then |dir[name]| else 0
  }

  /** The listed names with their lengths, in the order the listing gives them. */
  function Listing(dir: Directory, names: seq<string>): (files: seq<FileInfo>)
    ensures |files| == |names|
    ensures forall i :: 0 <= i < |names| ==> files[i] == FileInfo(names[i], Length(dir, names[i]))
  {
    if names == [] then [] else [FileInfo(names[0], Length(dir, names[0]))] + Listing(dir, names[1..])
  }

  /** What the directory reports when eviction runs: listFiles() sorted most recently accessed first, and files whose deletion throws. */
  datatype TrimScan = TrimScan(byRecency: seq<string>, undeletable: set<string>)

  /** The names Files.deleteIfExists removes while walking the plan. */
  function DeletedNames(plan: seq<FileInfo>, undeletable: set<string>): (r: set<string>)
    ensures forall n :: n in r <==> n !in undeletable && exists i :: 0 <= i < |plan| && plan[i].name == n
  {
    if plan == [] then {}
    else
      var last := plan[|plan| - 1];
      var before := DeletedNames(plan[..|plan| - 1], undeletable);
      assert forall i :: 0 <= i < |plan| - 1 ==> plan[..|plan| - 1][i] == plan[i];
      if last.name in undeletable then before else before + {last.name}
  }

  /** The directory after deleteOldFiles with a configured maximum. */
  function Evicted(dir: Directory, maxSizeBytes: int, scan: TrimScan): Directory {
    dir - DeletedNames(FilesToDelete(Listing(dir, scan.byRecency), maxSizeBytes), scan.undeletable)
  }

  /** deleteOldFiles: nothing without a maximum. */
  function AfterDeleteOldFiles(dir: Directory, maxCacheSizeBytes: Option<int>, scan: TrimScan): Directory {
    if maxCacheSizeBytes.None? then dir else Evicted(dir, maxCacheSizeBytes.value, scan)
  }

  // ---------------------------------------------------------------------
  // fetch

  datatype CacheResult =
    | Hit(cacheName: string, metadata: Metadata)
    | Miss
    | Error(cacheName: string, diagnostic: string)

  /** The calls inside fetch's try block that can throw for reasons other than the directory's contents. */
  datatype FetchStep = OpenMetadata | ReadMetadataFile | ResolveOutput | CopyArtifact

  /** Which calls throw, and what. */
  type FetchFaults = map<FetchStep, JavaException>

  /** How fetch's try block ends: normally, or with an exception (after writing the output or not). */
  datatype Attempt =
    | Completed(metadata: Metadata, output: seq<byte>)
    | Raised(error: JavaException, written: Option<seq<byte>>)

  function NoSuchFileException(path: string): JavaException {
    JavaException(NoSuchFile, Text(path))
  }

  /** ImmutableMap.Builder.build() on a repeated key. */
  const DUPLICATE_KEY: JavaException := JavaException(IllegalArgument, Text("Multiple entries with same key"))

  /** fetch's try block (lines 83-102): read the metadata, copy the artifact, build the map. */
  function FetchAttempt(dir: Directory, key: RuleKey, faults: FetchFaults): Attempt {
    var metadataPath, artifactPath := MetadataPath(key), ArtifactPath(key);
    if OpenMetadata in faults then Raised(faults[OpenMetadata], None)
    else if metadataPath !in dir then Raised(NoSuchFileException(metadataPath), None)
    else if ReadMetadataFile in faults then Raised(faults[ReadMetadataFile], None)
    else
      match Decode(dir[metadataPath])
      case Failed(e) => Raised(e, None)
      case Decoded(entries, _) =>
        if ResolveOutput in faults then Raised(faults[ResolveOutput], None)
        else if artifactPath !in dir then Raised(NoSuchFileException(artifactPath), None)
        else if CopyArtifact in faults then Raised(faults[CopyArtifact], None)
        else if !DistinctKeys(entries) then Raised(DUPLICATE_KEY, Some(dir[artifactPath]))
        else Completed(entries, dir[artifactPath])
  }

  /** The bytes fetch leaves at the caller's output path, if it copied any. */
  function FetchOutput(a: Attempt): Option<seq<byte>> {
    match a
    case Completed(_, output) => Some(output)
    case Raised(_, written) => written
  }

  /** fetch either returns a result or lets an exception out. */
  datatype FetchOutcome = Returns(result: CacheResult) | Throws(error: JavaException)

  /**
   * The catch clauses as written (lines 103-112): NoSuchFileException is a
   * miss, any other IOException an error; anything else escapes.
   */
  function FetchAsWritten(name: string, a: Attempt): FetchOutcome {
    match a
    case Completed(metadata, _) => Returns(Hit(name, metadata))
    case Raised(e, _) =>
      if e.kind.NoSuchFile? then Returns(Miss)
      else if IsIOException(e) then Returns(Error(name, Describe(e)))
      else Throws(e)
  }

  /** fetch as intended: every failure other than a missing file is an error result. */
  function FetchResult(name: string, a: Attempt): (r: CacheResult)
    ensures r.Hit? <==> a.Completed?
    ensures r.Miss? <==> a.Raised? && a.error.kind.NoSuchFile?
    ensures r.Error? ==> r.cacheName == name && r.diagnostic == Describe(a.error)
  {
    match a
    case Completed(metadata, _) => Hit(name, metadata)
    case Raised(e, _) => if e.kind.NoSuchFile? then Miss else Error(name, Describe(e))
  }

  // ---------------------------------------------------------------------
  // store

  /** The calls of one store iteration that can throw. */
  datatype StoreStep =
    | CreateArtifactTemp | CopySource | MoveArtifact | SizeArtifact
    | CreateMetadataTemp | WriteMetadataTemp | MoveMetadata | SizeMetadata

  /** Which (key, call) pairs throw an IOException. */
  type StoreFaults = set<(RuleKey, StoreStep)>

  /** The directory and the counter after some iterations, and whether an IOException ended the loop. */
  datatype Progress = Progress(dir: Directory, counter: nat, failed: bool)

  /**
   * One iteration of store's loop (lines 136-171): skip a complete entry;
   * otherwise rename the artifact into place, count its size, then the
   * metadata record likewise. An exception ends the iteration where it is
   * thrown; the temporary files are gone either way.
   */
  function StoreEntry(dir: Directory, counter: nat, key: RuleKey, metadata: Metadata,
                      source: seq<byte>, faults: StoreFaults): Progress
  {
    var artifactPath, metadataPath := ArtifactPath(key), MetadataPath(key);
    if HasEntry(dir, key) then Progress(dir, counter, false)
    else if (key, CreateArtifactTemp) in faults || (key, CopySource) in faults || (key, MoveArtifact) in faults
    then Progress(dir, counter, true)
    else
      var withArtifact := dir[artifactPath := source];
      if (key, SizeArtifact) in faults then Progress(withArtifact, counter, true)
      else
        var counted := counter + |source|;
        if (key, CreateMetadataTemp) in faults || (key, WriteMetadataTemp) in faults
           || !KeysFit(metadata) || (key, MoveMetadata) in faults
        then Progress(withArtifact, counted, true)
        else
          var record := Encode(metadata).value;
          var complete := withArtifact[metadataPath := record];
          if (key, SizeMetadata) in faults then Progress(complete, counted, true)
          else Progress(complete, counted + |record|, false)
  }

  /** The loop over the keys in order, ended by the first IOException. */
  function StoreKeys(dir: Directory, counter: nat, keys: seq<RuleKey>, metadata: Metadata,
                     source: seq<byte>, faults: StoreFaults): Progress
    decreases |keys|
  {
    if keys == [] then Progress(dir, counter, false)
    else
      var p := StoreEntry(dir, counter, keys[0], metadata, source, faults);
      if p.failed then p else StoreKeys(p.dir, p.counter, keys[1..], metadata, source, faults)
  }

  /** `bytesSinceLastDeleteOldFiles > maxCacheSizeBytes * 0.5`, in exact arithmetic. */
  predicate TrimDue(maxCacheSizeBytes: Option<int>, counter: int) {
    maxCacheSizeBytes.Some? && 2 * counter > maxCacheSizeBytes.value
  }

  // ---------------------------------------------------------------------

  class DirArtifactCache {
    const name: string
    const doStore: bool
    const maxCacheSizeBytes: Option<int>
    /** The contents of cacheDir. */
    var dir: Directory
    var bytesSinceLastDeleteOldFiles: nat

    /** `existing` is what cacheDir already holds (mkdirs leaves it, or creates it empty). */
    constructor (name: string, existing: Directory, doStore: bool, maxCacheSizeBytes: Option<int>)
      ensures this.name == name && this.doStore == doStore && this.maxCacheSizeBytes == maxCacheSizeBytes
      ensures dir == existing && bytesSinceLastDeleteOldFiles == 0
    {
      this.name := name;
      this.doStore := doStore;
      this.maxCacheSizeBytes := maxCacheSizeBytes;
      this.dir := existing;
      this.bytesSinceLastDeleteOldFiles := 0;
    }

    /** Storing is supported exactly when the cache was built with doStore (lines 196-198). */
    predicate IsStoreSupported()
      ensures IsStoreSupported() <==> doStore
    {
      doStore
    }

    /** fetch (lines 79-120): never throws; the output is what was copied to the caller's path. */
    method Fetch(key: RuleKey, faults: FetchFaults) returns (result: CacheResult, output: Option<seq<byte>>)
      ensures result == FetchResult(name, FetchAttempt(dir, key, faults))
      ensures output == FetchOutput(FetchAttempt(dir, key, faults))
    {
      var thrown: Option<JavaException> := None;
      var metadata: Metadata := [];
      output := None;
      var metadataPath, artifactPath := MetadataPath(key), ArtifactPath(key);
      if OpenMetadata in faults {
        thrown := Some(faults[OpenMetadata]);
      } else if metadataPath !in dir {
        thrown := Some(NoSuchFileException(metadataPath));
      } else if ReadMetadataFile in faults {
        thrown := Some(faults[ReadMetadataFile]);
      } else {
        var decoded := ReadMetadata(dir[metadataPath]);
        if decoded.Failed? {
          thrown := Some(decoded.error);
        } else if ResolveOutput in faults {
          thrown := Some(faults[ResolveOutput]);
        } else if artifactPath !in dir {
          thrown := Some(NoSuchFileException(artifactPath));
        } else if CopyArtifact in faults {
          thrown := Some(faults[CopyArtifact]);
        } else {
          output := Some(dir[artifactPath]);
          if !DistinctKeys(decoded.entries) {
            thrown := Some(DUPLICATE_KEY);
          } else {
            metadata := decoded.entries;
          }
        }
      }
      match thrown
      case None => result := Hit(name, metadata);
      case Some(e) =>
        if e.kind.NoSuchFile? {
          result := Miss;
        } else {
          result := Error(name, Describe(e));
        }
    }

    /** createTempFile: a fresh name, here one longer than every name in the directory. */
    method NewTempName(prefix: string) returns (tmp: string)
      ensures tmp !in dir && IsTempName(tmp, prefix)
    {
      var longest: nat := 0;
      var unseen := dir.Keys;
      while unseen != {}
        invariant unseen <= dir.Keys
        invariant forall n :: n in dir && n !in unseen ==> |n| <= longest
        decreases unseen
      {
        var n :| n in unseen;
        if |n| > longest {
          longest := |n|;
        }
        unseen := unseen - {n};
      }
      tmp := prefix + seq(longest + 1, _ => '0') + ".tmp";
      assert tmp[..|prefix|] == prefix && tmp[|tmp| - 4..] == ".tmp";
    }

    /**
     * createTempFile's file filled with `contents` (None: the write threw),
     * then moved over `target`; the temporary file is deleted in the finally
     * block whatever happened. Returns whether the move took place.
     */
    method ReplaceThroughTemp(prefix: string, target: string, contents: Option<seq<byte>>,
                              writeFails: bool, moveFails: bool, ghost key: RuleKey)
      returns (moved: bool)
      requires target == ArtifactPath(key) || target == MetadataPath(key)
      modifies this`dir
      ensures moved <==> !writeFails && contents.Some? && !moveFails
      ensures dir == if moved then old(dir)[target := contents.value] else old(dir)
    {
      var tmp := NewTempName(prefix);
      TempNameIsNoEntry(tmp, prefix, key);
      dir := dir[tmp := []];
      moved := false;
      if !writeFails && contents.Some? {
        dir := dir[tmp := contents.value];
        if !moveFails {
          dir := (dir - {tmp})[target := dir[tmp]];
          moved := true;
        }
      }
      dir := dir - {tmp};
      assert tmp !in old(dir);
    }

    /** One iteration of store's loop; returns whether an IOException ended it. */
    method StoreOne(key: RuleKey, metadata: Metadata, source: seq<byte>, faults: StoreFaults)
      returns (failed: bool)
      modifies this`dir, this`bytesSinceLastDeleteOldFiles
      ensures Progress(dir, bytesSinceLastDeleteOldFiles, failed)
           == StoreEntry(old(dir), old(bytesSinceLastDeleteOldFiles), key, metadata, source, faults)
    {
      var artifactPath, metadataPath := ArtifactPath(key), MetadataPath(key);
      if artifactPath in dir && metadataPath in dir {
        return false;
      }
      if (key, CreateArtifactTemp) in faults {
        return true;
      }
      var moved := ReplaceThroughTemp("artifact", artifactPath, Some(source),
                                      (key, CopySource) in faults, (key, MoveArtifact) in faults, key);
      if !moved {
        return true;
      }
      if (key, SizeArtifact) in faults {
        return true;
      }
      bytesSinceLastDeleteOldFiles := bytesSinceLastDeleteOldFiles + |dir[artifactPath]|;
      if (key, CreateMetadataTemp) in faults {
        return true;
      }
      var record := WriteMetadata(metadata);
      moved := ReplaceThroughTemp("metadata", metadataPath, record,
                                  (key, WriteMetadataTemp) in faults, (key, MoveMetadata) in faults, key);
      if !moved {
        return true;
      }
      if (key, SizeMetadata) in faults {
        return true;
      }
      bytesSinceLastDeleteOldFiles := bytesSinceLastDeleteOldFiles + |dir[metadataPath]|;
      return false;
    }

    /**
     * store (lines 123-190): nothing when storing is off; otherwise the loop,
     * whose first IOException is swallowed, then a trim when the bytes stored
     * since the last one pass half the maximum.
     */
    method Store(keys: seq<RuleKey>, metadata: Metadata, source: seq<byte>, faults: StoreFaults, scan: TrimScan)
      modifies this`dir, this`bytesSinceLastDeleteOldFiles
      ensures !doStore ==> dir == old(dir) && bytesSinceLastDeleteOldFiles == old(bytesSinceLastDeleteOldFiles)
      ensures doStore ==>
        var p := StoreKeys(old(dir), old(bytesSinceLastDeleteOldFiles), keys, metadata, source, faults);
        if TrimDue(maxCacheSizeBytes, p.counter)
        then bytesSinceLastDeleteOldFiles == 0 && dir == Evicted(p.dir, maxCacheSizeBytes.value, scan)
        else bytesSinceLastDeleteOldFiles == p.counter && dir == p.dir
    {
      if !doStore {
        return;
      }
      var i := 0;
      var stopped := false;
      while i < |keys| && !stopped
        invariant 0 <= i <= |keys|
        invariant !stopped ==>
          StoreKeys(old(dir), old(bytesSinceLastDeleteOldFiles), keys, metadata, source, faults)
          == StoreKeys(dir, bytesSinceLastDeleteOldFiles, keys[i..], metadata, source, faults)
        invariant stopped ==>
          StoreKeys(old(dir), old(bytesSinceLastDeleteOldFiles), keys, metadata, source, faults)
          == Progress(dir, bytesSinceLastDeleteOldFiles, true)
      {
        assert keys[i..][0] == keys[i] && keys[i..][1..] == keys[i + 1..];
        stopped := StoreOne(keys[i], metadata, source, faults);
        i := i + 1;
      }
      if maxCacheSizeBytes.Some? && 2 * bytesSinceLastDeleteOldFiles > maxCacheSizeBytes.value {
        bytesSinceLastDeleteOldFiles := 0;
        DeleteOldFiles(scan);
      }
    }

    /** close (lines 201-203): one last trim. */
    method Close(scan: TrimScan)
      modifies this`dir
      ensures dir == AfterDeleteOldFiles(old(dir), maxCacheSizeBytes, scan)
    {
      DeleteOldFiles(scan);
    }

    /** deleteOldFiles (lines 209-222): delete the planned files, skipping any whose deletion throws. */
    method DeleteOldFiles(scan: TrimScan)
      modifies this`dir
      ensures dir == AfterDeleteOldFiles(old(dir), maxCacheSizeBytes, scan)
    {
      if maxCacheSizeBytes.None? {
        return;
      }
      var toDelete := FindFilesToDelete(Listing(dir, scan.byRecency), maxCacheSizeBytes.value);
      ghost var before := dir;
      for i := 0 to |toDelete|
        invariant dir == before - DeletedNames(toDelete[..i], scan.undeletable)
      {
        DeletedNamesStep(toDelete, i, scan.undeletable);
        var file := toDelete[i];
        ghost var gone := DeletedNames(toDelete[..i], scan.undeletable);
        if file.name !in scan.undeletable {
          RemoveOneMore(before, gone, file.name);
          dir := dir - {file.name};
        } else {
          assert gone + {} == gone;
        }
      }
      assert toDelete[..|toDelete|] == toDelete;
    }
  }

  lemma DeletedNamesStep(plan: seq<FileInfo>, i: nat, undeletable: set<string>)
    requires i < |plan|
    ensures DeletedNames(plan[..i + 1], undeletable)
         == DeletedNames(plan[..i], undeletable) + (if plan[i].name in undeletable then {} else {plan[i].name})
  {
    assert plan[..i + 1][..i] == plan[..i];
  }

  lemma RemoveOneMore(dir: Directory, gone: set<string>, name: string)
    ensures (dir - gone) - {name} == dir - (gone + {name})
  {
  }

  /** Temporary names never collide with an entry's two files. */
  lemma TempNameIsNoEntry(tmp: string, prefix: string, key: RuleKey)
    requires IsTempName(tmp, prefix)
    ensures tmp != ArtifactPath(key) && tmp != MetadataPath(key)
  {
    assert tmp[|tmp| - 1] == tmp[|tmp| - 4..][3] == 'p';
    assert !IsHexDigit('p');
    assert MetadataPath(key)[|MetadataPath(key)| - 1] == 'a';
  }
}
