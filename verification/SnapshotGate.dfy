/** The producer check on a batch of command lists. */
module SnapshotGate {
  /** `producer` occurs in the batch once, at its end. */
  ghost predicate LastAndOnly(producer: nat, lists: seq<nat>) {
    |lists| > 0 && lists[|lists| - 1] == producer && forall i :: 0 <= i < |lists| - 1 ==> lists[i] != producer
  }

  /** `snapshot_batch_match`; a null array is `None`, a null list 0. */
  method BatchMatch(producerThread: nat, currentThread: nat, producer: nat, lists: array?<nat>, count: nat) returns (ok: bool)
    requires lists != null ==> count <= lists.Length
    ensures ok <==>
      producer != 0 && lists != null && 1 <= count <= 64 && producerThread == currentThread
      && LastAndOnly(producer, lists[..count])
  {
    if producer == 0 || lists == null || count == 0 || count > 64 || producerThread != currentThread {
      return false;
    }
    if lists[count - 1] != producer {
      return false;
    }
    var i := 0;
    while i + 1 < count
      invariant 0 <= i < count
      invariant forall k :: 0 <= k < i ==> lists[k] != producer
    {
      if lists[i] == producer {
        assert lists[..count][i] == producer;
        return false;
      }
      i := i + 1;
    }
    ok := true;
  }

  /** The batch's lists run in order, so the state a reader sees after the batch is the
      one its last list left. Positions after the producer's last run. */
  function RunsAfter(producer: nat, lists: seq<nat>): nat {
    if lists == [] || lists[|lists| - 1] == producer then 0 else 1 + RunsAfter(producer, lists[..|lists| - 1])
  }

  function Occurrences(producer: nat, lists: seq<nat>): nat {
    if lists == [] then 0
    else Occurrences(producer, lists[..|lists| - 1]) + if lists[|lists| - 1] == producer then 1 else 0
  }

  lemma {:induction false} AbsentIffNoOccurrence(producer: nat, lists: seq<nat>)
    ensures Occurrences(producer, lists) == 0 <==> producer !in lists
  {
    if lists != [] {
      var init := lists[..|lists| - 1];
      AbsentIffNoOccurrence(producer, init);
      assert lists == init + [lists[|lists| - 1]];
    }
  }

  /** Under in-order execution an accepted batch is one that ran the producer exactly
      once and ran nothing after it. */
  lemma LastAndOnlyMeaning(producer: nat, lists: seq<nat>)
    ensures LastAndOnly(producer, lists) <==>
            Occurrences(producer, lists) == 1 && RunsAfter(producer, lists) == 0
  {
    if lists != [] {
      var init := lists[..|lists| - 1];
      AbsentIffNoOccurrence(producer, init);
      assert producer in init <==> exists i :: 0 <= i < |init| && lists[i] == producer;
    }
  }
}
