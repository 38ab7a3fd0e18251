/**
 * DirArtifactCache.findFilesToDelete: given the cache directory's files
 * ordered most recently accessed first, walk them with a running total,
 * remember the first index where the total passes two thirds of the
 * maximum, and once the total passes the maximum itself return every file
 * from that index on. The float ratio `2 / 3f` is taken exactly:
 * `total > max * 2/3` is `3 * total > 2 * max`.
 */
module EvictionPlanner {
  import opened JavaIo

  /** A listed file with its File.length(). */
  datatype FileInfo = FileInfo(name: string, size: nat)

  /** Combined length of the files. */
  function Total(files: seq<FileInfo>): nat
  {
    if files == [] then 0 else Total(files[..|files| - 1]) + files[|files| - 1].size
  }

  /** The running total once file `j` has been added: currentSizeBytes after iteration j. */
  function RunningTotal(files: seq<FileInfo>, j: nat): nat
    requires j < |files|
  {
    Total(files[..j + 1])
  }

  /** `total > maxSizeBytes * MAX_BYTES_TRIM_RATIO`, in exact arithmetic. */
  predicate OverTrimRatio(total: int, maxSizeBytes: int) {
    3 * total > 2 * maxSizeBytes
  }

  /** The first index at or after `i` whose running total passes two thirds of the maximum. */
  function TrimMarkFrom(files: seq<FileInfo>, maxSizeBytes: int, i: nat): (k: nat)
    requires i <= |files|
    ensures i <= k <= |files|
    ensures forall j :: i <= j < k ==> !OverTrimRatio(RunningTotal(files, j), maxSizeBytes)
    ensures k < |files| ==> OverTrimRatio(RunningTotal(files, k), maxSizeBytes)
    decreases |files| - i
  {
    if i == |files| then i
    else if OverTrimRatio(RunningTotal(files, i), maxSizeBytes) then i
    else TrimMarkFrom(files, maxSizeBytes, i + 1)
  }

  /** The retention boundary: |files| when the running total never passes two thirds. */
  function TrimMark(files: seq<FileInfo>, maxSizeBytes: int): (k: nat)
    ensures k <= |files|
    ensures forall j :: 0 <= j < k ==> !OverTrimRatio(RunningTotal(files, j), maxSizeBytes)
    ensures k < |files| ==> OverTrimRatio(RunningTotal(files, k), maxSizeBytes)
  {
    TrimMarkFrom(files, maxSizeBytes, 0)
  }

  /** What eviction deletes: nothing within the cap, else everything from the retention boundary on. */
  function FilesToDelete(files: seq<FileInfo>, maxSizeBytes: int): seq<FileInfo>
  {
    if Total(files) <= maxSizeBytes then [] else files[TrimMark(files, maxSizeBytes)..]
  }

  /** What eviction keeps: the most recently accessed prefix. */
  function FilesToKeep(files: seq<FileInfo>, maxSizeBytes: int): seq<FileInfo>
  {
    if Total(files) <= maxSizeBytes then files else files[..TrimMark(files, maxSizeBytes)]
  }

  // ---------------------------------------------------------------------

  lemma {:induction false} TotalOfPrefix(files: seq<FileInfo>, i: nat, j: nat)
    requires i <= j <= |files|
    ensures Total(files[..i]) <= Total(files[..j])
    decreases j - i
  {
    if i < j {
      assert files[..j][..j - 1] == files[..j - 1];
      TotalOfPrefix(files, i, j - 1);
    }
  }

  lemma TotalAll(files: seq<FileInfo>)
    requires files != []
    ensures RunningTotal(files, |files| - 1) == Total(files)
  {
    assert files[..|files|] == files;
  }

  /**
   * Eviction deletes something exactly when the listing is over the cap
   * (an empty listing has nothing to delete).
   */
  lemma NothingDeletedIffWithinCap(files: seq<FileInfo>, maxSizeBytes: int)
    ensures FilesToDelete(files, maxSizeBytes) == [] <==> files == [] || Total(files) <= maxSizeBytes
  {
    if files != [] && Total(files) > maxSizeBytes {
      TotalAll(files);
      assert OverTrimRatio(RunningTotal(files, |files| - 1), maxSizeBytes);
      assert TrimMark(files, maxSizeBytes) < |files|;
    }
  }

  /**
   * What eviction keeps is the most recent prefix, what it deletes the rest;
   * over the cap the kept files total at most two thirds of it, and one more
   * file would pass two thirds.
   */
  lemma KeptWithinTwoThirds(files: seq<FileInfo>, maxSizeBytes: int)
    requires maxSizeBytes >= 0
    ensures FilesToKeep(files, maxSizeBytes) + FilesToDelete(files, maxSizeBytes) == files
    ensures Total(FilesToKeep(files, maxSizeBytes)) <= maxSizeBytes
    ensures Total(files) > maxSizeBytes ==>
              3 * Total(FilesToKeep(files, maxSizeBytes)) <= 2 * maxSizeBytes
    ensures Total(files) > maxSizeBytes ==>
              var k := |FilesToKeep(files, maxSizeBytes)|;
              k < |files| && OverTrimRatio(RunningTotal(files, k), maxSizeBytes)
  {
    var k := TrimMark(files, maxSizeBytes);
    if Total(files) > maxSizeBytes {
      if k > 0 {
        assert !OverTrimRatio(RunningTotal(files, k - 1), maxSizeBytes);
      }
      NothingDeletedIffWithinCap(files, maxSizeBytes);
    }
  }

  /** The mark is set no later than the first index whose running total passes the cap. */
  lemma MarkSetBeforeCap(files: seq<FileInfo>, maxSizeBytes: int, i: nat)
    requires i < |files| && RunningTotal(files, i) > maxSizeBytes
    ensures TrimMark(files, maxSizeBytes) <= i
  {
    assert OverTrimRatio(RunningTotal(files, i), maxSizeBytes);
  }

  /**
   * The cap test is strict: a listing that totals exactly the maximum is
   * left alone, and one byte more deletes something.
   */
  lemma AtCapNothingDeleted(files: seq<FileInfo>, maxSizeBytes: int)
    ensures Total(files) == maxSizeBytes ==> FilesToDelete(files, maxSizeBytes) == []
    ensures files != [] && Total(files) == maxSizeBytes + 1 ==> FilesToDelete(files, maxSizeBytes) != []
  {
    NothingDeletedIffWithinCap(files, maxSizeBytes);
  }

  /** A fourth 100-byte file evicts the two least recently accessed, leaving 200 bytes. */
  lemma OverCapEvictsOldest()
    ensures var files := [FileInfo("d", 100), FileInfo("c", 100), FileInfo("b", 100), FileInfo("a", 100)];
      FilesToDelete(files, 300) == [FileInfo("b", 100), FileInfo("a", 100)]
      && Total(FilesToKeep(files, 300)) == 200
  {
    var files := [FileInfo("d", 100), FileInfo("c", 100), FileInfo("b", 100), FileInfo("a", 100)];
    assert files[..1][..0] == [] && files[..2][..1] == files[..1] && files[..3][..2] == files[..2];
    assert files[..4] == files && files[..4][..3] == files[..3];
    assert Total(files[..1]) == 100;
    assert Total(files[..2]) == 200;
    assert Total(files[..3]) == 300;
    assert RunningTotal(files, 0) == 100 && RunningTotal(files, 1) == 200 && RunningTotal(files, 2) == 300;
    assert Total(files) == 400;
    assert TrimMarkFrom(files, 300, 2) == 2;
    assert TrimMark(files, 300) == 2;
  }

  /** findFilesToDelete's loop (lines 233-245); the sort before it is the caller's. */
  method FindFilesToDelete(files: seq<FileInfo>, maxSizeBytes: int) returns (toDelete: seq<FileInfo>)
    ensures toDelete == FilesToDelete(files, maxSizeBytes)
  {
    var currentSizeBytes := 0;
    var maxTrimMark: Option<nat> := None;
    for i := 0 to |files|
      invariant currentSizeBytes == Total(files[..i])
      invariant i == 0 || currentSizeBytes <= maxSizeBytes
      invariant maxTrimMark.None? ==> TrimMark(files, maxSizeBytes) >= i
      invariant maxTrimMark.Some? ==> maxTrimMark.value == TrimMark(files, maxSizeBytes) < i
    {
      assert files[..i + 1][..i] == files[..i];
      currentSizeBytes := currentSizeBytes + files[i].size;
      assert currentSizeBytes == RunningTotal(files, i);
      if maxTrimMark.None? && OverTrimRatio(currentSizeBytes, maxSizeBytes) {
        maxTrimMark := Some(i);
      }
      if currentSizeBytes > maxSizeBytes {
        // the mark is always set by now: maxTrimMark.get() cannot throw
        TotalOfPrefix(files, i + 1, |files|);
        assert files[..|files|] == files;
        return files[maxTrimMark.value..];
      }
    }
    assert files[..|files|] == files;
    toDelete := [];
  }
}
