/**
 * scripts/rehydrate.py: the stand-alone replay script. It sorts the staged
 * files by the nanosecond time in their names, skips the ones already
 * marked processed, replays the rest in that order (each one gets a
 * version-1 UUID from `uuid_from_timestamp`, whose state lives in the
 * script's own module global) and counts the outcomes.
 */
module ScriptsRehydrate {
  import opened Wrappers
  import opened Uuid
  import opened StableSort
  import opened Rehydrate

  /** A staged `.gz` file: its path and the integer stem of its name. */
  datatype StagedFile = StagedFile(path: string, stem: int)

  /** `int(Path(x).stem)`, the sort key. */
  function StemKey(f: StagedFile): real {
    f.stem as real
  }

  /** The stems of `files`, in order: the nanosecond times passed to `uuid_from_timestamp`. */
  function Stems(files: seq<StagedFile>): seq<int> {
    seq(|files|, k requires 0 <= k < |files| => files[k].stem)
  }

  /**
   * `rehydrate` in a fresh process. `isProcessed` stands for the marker
   * check, `isSaved` for the outcome of replaying a file through
   * `save_if_new`, `clockSeq(k)` for the 14 random bits drawn on the k-th
   * call of `uuid_from_timestamp` and `node` for `getnode()`. Returns the
   * files replayed, in order, the UUIDs they were saved under and the
   * three counters.
   */
  method Replay(allFiles: seq<StagedFile>, isProcessed: StagedFile -> bool, isSaved: StagedFile -> bool,
                clockSeq: nat -> int, node: nat)
    returns (unprocessed: seq<StagedFile>, uuids: seq<Uuid>, counts: Counts)
    requires forall k: nat :: 0 <= clockSeq(k) < TwoTo14
    ensures unprocessed == Filter(SortBy(allFiles, StemKey), NotProcessed(isProcessed))
    ensures |uuids| == |unprocessed|
    ensures forall k :: 0 <= k < |uuids| ==>
      uuids[k] == FromTimestamp(Stamps(Stems(unprocessed))[k], clockSeq(k), node) &&
      ClockSeq(uuids[k]) == clockSeq(k)
    ensures counts.saved == |Filter(unprocessed, isSaved)|
    ensures counts.saved + counts.duplicates == |unprocessed|
    ensures counts.alreadyProcessed == |allFiles| - |unprocessed|
  {
    var allSorted := SortBy(allFiles, StemKey);
    SortByLength(allFiles, StemKey);
    unprocessed := Filter(allSorted, NotProcessed(isProcessed));
    var nSaved, nDuplicates;
    uuids, nSaved, nDuplicates := ReplayFiles(unprocessed, isSaved, clockSeq, node);
    counts := Counts(nSaved, nDuplicates, |allFiles| - |unprocessed|);
  }

  /** The replay loop over the unprocessed files, with a fresh `_last_timestamp`. */
  method ReplayFiles(files: seq<StagedFile>, isSaved: StagedFile -> bool, clockSeq: nat -> int, node: nat)
    returns (uuids: seq<Uuid>, nSaved: nat, nDuplicates: nat)
    requires forall k: nat :: 0 <= clockSeq(k) < TwoTo14
    ensures |uuids| == |files|
    ensures forall k :: 0 <= k < |uuids| ==>
      uuids[k] == FromTimestamp(Stamps(Stems(files))[k], clockSeq(k), node) &&
      ClockSeq(uuids[k]) == clockSeq(k)
    ensures nSaved == |Filter(files, isSaved)|
    ensures nSaved + nDuplicates == |files|
  {
    var clock := new UuidClock();
    nSaved, nDuplicates := 0, 0;
    var stems := Stems(files);
    ghost var stamps: seq<int> := [];
    uuids := [];
    for i := 0 to |files|
      invariant |uuids| == i
      invariant ReplayLoop(files, stems, i, clock.lastTimestamp, stamps, uuids, clockSeq, node)
      invariant nSaved == |Filter(files[..i], isSaved)|
      invariant nSaved + nDuplicates == i
    {
      var file := files[i];
      CountStep(files, i, isSaved);
      ghost var before := clock.lastTimestamp;
      var u := clock.UuidFromTimestamp(file.stem, clockSeq(i), node);
      ReplayStep(files, stems, i, before, stamps, uuids, clockSeq, node, clock.lastTimestamp, u);
      stamps := stamps + [clock.lastTimestamp.value];
      uuids := uuids + [u];
      if isSaved(file) {
        nSaved := nSaved + 1;
      } else {
        nDuplicates := nDuplicates + 1;
      }
    }
    assert files[..|files|] == files;
    ReplayFinish(files, stems, clock.lastTimestamp, stamps, uuids, clockSeq, node);
  }

  /** The invariant of the replay loop after `i` files: the clock state, the stamps and the UUIDs so far. */
  ghost predicate ReplayLoop(files: seq<StagedFile>, stems: seq<int>, i: int, last: Option<int>,
                             stamps: seq<int>, uuids: seq<Uuid>, clockSeq: nat -> int, node: nat) {
    && 0 <= i <= |files| && stems == Stems(files) && |uuids| == i
    && last == ClockAfter(stems[..i])
    && stamps == Stamps(stems[..i])
    && forall k :: 0 <= k < i ==>
      uuids[k] == FromTimestamp(stamps[k], clockSeq(k), node) && ClockSeq(uuids[k]) == clockSeq(k)
  }

  lemma ReplayStep(files: seq<StagedFile>, stems: seq<int>, i: int, last: Option<int>,
                   stamps: seq<int>, uuids: seq<Uuid>, clockSeq: nat -> int, node: nat,
                   last': Option<int>, u: Uuid)
    requires i < |files| && ReplayLoop(files, stems, i, last, stamps, uuids, clockSeq, node)
    requires last' == Some(NextTimestamp(last, files[i].stem))
    requires u == FromTimestamp(last'.value, clockSeq(i), node) && ClockSeq(u) == clockSeq(i)
    ensures ReplayLoop(files, stems, i + 1, last', stamps + [last'.value], uuids + [u], clockSeq, node)
  {
    StampStep(stems, i);
    var stamps', uuids' := stamps + [last'.value], uuids + [u];
    forall k | 0 <= k < i + 1
      ensures uuids'[k] == FromTimestamp(stamps'[k], clockSeq(k), node) && ClockSeq(uuids'[k]) == clockSeq(k)
    {
      if k < i {
        assert uuids'[k] == uuids[k] && stamps'[k] == stamps[k];
      }
    }
  }

  lemma ReplayFinish(files: seq<StagedFile>, stems: seq<int>, last: Option<int>,
                     stamps: seq<int>, uuids: seq<Uuid>, clockSeq: nat -> int, node: nat)
    requires ReplayLoop(files, stems, |files|, last, stamps, uuids, clockSeq, node)
    ensures forall k :: 0 <= k < |uuids| ==>
      uuids[k] == FromTimestamp(Stamps(Stems(files))[k], clockSeq(k), node) &&
      ClockSeq(uuids[k]) == clockSeq(k)
  {
    assert stems[..|files|] == stems;
  }

  lemma StampStep(nss: seq<int>, i: int)
    requires 0 <= i < |nss|
    ensures ClockAfter(nss[..i + 1]) == Some(NextTimestamp(ClockAfter(nss[..i]), nss[i]))
    ensures Stamps(nss[..i + 1]) == Stamps(nss[..i]) + [ClockAfter(nss[..i + 1]).value]
  {
    assert nss[..i + 1][..i] == nss[..i];
  }

  lemma CountStep(files: seq<StagedFile>, i: int, isSaved: StagedFile -> bool)
    requires 0 <= i < |files|
    ensures |Filter(files[..i + 1], isSaved)| == |Filter(files[..i], isSaved)| + if isSaved(files[i]) then 1 else 0
  {
    assert files[..i + 1] == files[..i] + [files[i]];
    FilterAppend(files[..i], [files[i]], isSaved);
    FilterOne(files[i], isSaved);
  }

  // ---------------------------------------------------------------------
  // Properties

  /** Files are replayed in ascending order of their stems. */
  lemma ReplayOrderAscending(allFiles: seq<StagedFile>, isProcessed: StagedFile -> bool)
    ensures var order := Filter(SortBy(allFiles, StemKey), NotProcessed(isProcessed));
      forall i, j :: 0 <= i < j < |order| ==> order[i].stem <= order[j].stem
  {
    var sorted := SortBy(allFiles, StemKey);
    SortByCorrect(allFiles, StemKey);
    FilterSorted(sorted, NotProcessed(isProcessed), StemKey);
    var order := Filter(sorted, NotProcessed(isProcessed));
    forall i, j | 0 <= i < j < |order| ensures order[i].stem <= order[j].stem {
      assert StemKey(order[i]) <= StemKey(order[j]);
    }
  }

  /** Exactly the files without a marker are replayed. */
  lemma ReplayedExactlyUnprocessed(allFiles: seq<StagedFile>, isProcessed: StagedFile -> bool)
    ensures var order := Filter(SortBy(allFiles, StemKey), NotProcessed(isProcessed));
      forall f :: f in order <==> f in allFiles && !isProcessed(f)
  {
    var sorted := SortBy(allFiles, StemKey);
    SortByCorrect(allFiles, StemKey);
    var order := Filter(sorted, NotProcessed(isProcessed));
    forall f ensures f in order <==> f in allFiles && !isProcessed(f) {
      if f in order {
        FilterMember(sorted, NotProcessed(isProcessed), f);
        assert f in multiset(sorted);
      }
      if f in allFiles && !isProcessed(f) {
        assert f in multiset(allFiles);
        var k :| 0 <= k < |sorted| && sorted[k] == f;
        FilterHas(sorted, NotProcessed(isProcessed), k);
      }
    }
  }

  /** The replayed files get strictly increasing UUID timestamps, even when stems repeat. */
  lemma ReplayStampsIncreasing(files: seq<StagedFile>)
    ensures forall i, j :: 0 <= i < j < |files| ==> Stamps(Stems(files))[i] < Stamps(Stems(files))[j]
  {
    StampsIncreasing(Stems(files));
  }
}
