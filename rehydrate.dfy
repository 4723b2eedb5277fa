/**
 * rehydrate.py: replaying staged saves. `uuid_from_timestamp` turns a staging
 * file's nanosecond time stamp into a version-1 UUID, bumping it so that
 * successive calls in one process never repeat or go backwards; `rehydrate`
 * counts what the replay did.
 */
module Rehydrate {
  import opened Wrappers
  import opened Uuid
  import opened StableSort

  /** 100-ns intervals between 1582-10-15 00:00:00 and 1970-01-01 00:00:00. */
  const UuidEpochOffset: int := 0x01b21dd213814000

  /**
   * The timestamp `uuid_from_timestamp` settles on, given the process-wide
   * `_last_timestamp` (None before the first call): the UUID time of the
   * given instant, or one more than the previous timestamp if that is not later.
   */
  function NextTimestamp(last: Option<int>, nanoseconds: int): (ts: int)
    ensures ts >= nanoseconds / 100 + UuidEpochOffset
    ensures last.Some? ==> ts > last.value
    ensures ts == nanoseconds / 100 + UuidEpochOffset || (last.Some? && ts == last.value + 1)
  {
    var timestamp := nanoseconds / 100 + UuidEpochOffset;
    if last.Some? && timestamp <= last.value then last.value + 1 else timestamp
  }

  /** The process-wide clock state of `uuid_from_timestamp`. */
  class UuidClock {
    /** The module global `_last_timestamp`. */
    var lastTimestamp: Option<int>

    constructor ()
      ensures lastTimestamp == None
    {
      lastTimestamp := None;
    }

    /**
     * `uuid_from_timestamp(nanoseconds)`, with the 14 random clock-sequence
     * bits and the host's node id passed in.
     */
    method UuidFromTimestamp(nanoseconds: int, clockSeq: int, node: nat) returns (u: Uuid)
      requires 0 <= clockSeq < TwoTo14
      modifies this
      ensures lastTimestamp == Some(NextTimestamp(old(lastTimestamp), nanoseconds))
      ensures old(lastTimestamp).Some? ==> lastTimestamp.value > old(lastTimestamp).value
      ensures u == FromTimestamp(lastTimestamp.value, clockSeq, node)
      ensures Time(u) == lastTimestamp.value % TwoTo60 && ClockSeq(u) == clockSeq
    {
      var timestamp := nanoseconds / 100 + UuidEpochOffset;
      if lastTimestamp.Some? && timestamp <= lastTimestamp.value {
        timestamp := lastTimestamp.value + 1;
      }
      lastTimestamp := Some(timestamp);
      u := FromTimestamp(timestamp, clockSeq, node);
      TimeOfFromTimestamp(timestamp, clockSeq, node);
      ClockSeqOfFromTimestamp(timestamp, clockSeq, node);
    }
  }

  /** `_last_timestamp` after a fresh process has called `uuid_from_timestamp` on each of `nss`. */
  function ClockAfter(nss: seq<int>): (last: Option<int>)
    ensures last.Some? <==> nss != []
  {
    if nss == [] then None
    else Some(NextTimestamp(ClockAfter(nss[..|nss| - 1]), nss[|nss| - 1]))
  }

  /** The timestamps those calls return, in call order. */
  function Stamps(nss: seq<int>): (ts: seq<int>)
    ensures |ts| == |nss|
  {
    if nss == [] then [] else Stamps(nss[..|nss| - 1]) + [ClockAfter(nss).value]
  }

  /** `not is_processed(f)`: the file has no `.processed` marker. */
  function NotProcessed<F>(isProcessed: F -> bool): F -> bool {
    (f: F) => !isProcessed(f)
  }

  /** Per-replay counters of `rehydrate`. */
  datatype Counts = Counts(saved: nat, duplicates: nat, alreadyProcessed: nat)

  /**
   * The counters of `rehydrate` (rehydrate.py:65-76): files with a
   * `.processed` marker are skipped, the others are replayed and each one's
   * outcome (`isNew`, the result of `save_if_new`) is counted.
   */
  function ReplayCounts<F>(allFiles: seq<F>, isProcessed: F -> bool, isNew: F -> bool): (c: Counts)
    ensures c.alreadyProcessed + c.saved + c.duplicates == |allFiles|
    ensures c.saved + c.duplicates == |Filter(allFiles, NotProcessed(isProcessed))|
    // one pass over all files counts the saves: those with no marker that were new
    ensures c.saved == |Filter(allFiles, (f: F) => !isProcessed(f) && isNew(f))|
  {
    var files := Filter(allFiles, NotProcessed(isProcessed));
    var nSaved := |Filter(files, isNew)|;
    FilterFilter(allFiles, NotProcessed(isProcessed), isNew, (f: F) => !isProcessed(f) && isNew(f));
    Counts(nSaved, |files| - nSaved, |allFiles| - |files|)
  }

  // ---------------------------------------------------------------------
  // Properties

  lemma {:induction false} StampsLast(nss: seq<int>)
    requires nss != []
    ensures Stamps(nss)[|nss| - 1] == ClockAfter(nss).value
  {
  }

  /** Successive calls in one process return strictly increasing timestamps. */
  lemma {:induction false} StampsIncreasing(nss: seq<int>)
    ensures forall i, j :: 0 <= i < j < |nss| ==> Stamps(nss)[i] < Stamps(nss)[j]
  {
    if nss != [] {
      var init := nss[..|nss| - 1];
      StampsIncreasing(init);
      var s := Stamps(nss);
      assert s == Stamps(init) + [ClockAfter(nss).value];
      forall i, j | 0 <= i < j < |nss| ensures s[i] < s[j] {
        if j < |nss| - 1 {
          assert s[i] == Stamps(init)[i] && s[j] == Stamps(init)[j];
        } else if i < |nss| - 1 {
          // the last call returned more than the previous one, which is the largest so far
          if init != [] {
            StampsLast(init);
            assert Stamps(init)[|init| - 1] == ClockAfter(init).value;
            assert s[i] == Stamps(init)[i];
            assert s[i] <= ClockAfter(init).value;
          }
        }
      }
    }
  }

  /** Each stamp is at least the UUID time of the instant it was made for. */
  lemma {:induction false} StampsAtLeastInstant(nss: seq<int>)
    ensures forall i :: 0 <= i < |nss| ==> Stamps(nss)[i] >= nss[i] / 100 + UuidEpochOffset
  {
    if nss != [] {
      var init := nss[..|nss| - 1];
      StampsAtLeastInstant(init);
      var s := Stamps(nss);
      assert s == Stamps(init) + [ClockAfter(nss).value];
      forall i | 0 <= i < |nss| ensures s[i] >= nss[i] / 100 + UuidEpochOffset {
        if i < |nss| - 1 {
          assert s[i] == Stamps(init)[i] && nss[i] == init[i];
        }
      }
    }
  }
}
