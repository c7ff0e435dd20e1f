/** The spin-poll loop that watches submissions resolve, and flags any seen to resolve
    out of submission order. */
module ReorderDetector {
  import opened Markers

  const MARKER_BASE := 7000

  /** What one pass of the loop read, slot by slot. The reads happen one after another,
      while the GPU goes on. */
  type Pass = seq<nat>

  datatype State = State(resolved: seq<bool>, outOfOrder: bool, last: int)

  predicate Sees(p: Pass, i: nat)
    requires i < |p|
  {
    p[i] == (7000 + i) % 0x1_0000_0000
  }

  ghost predicate Passes(ps: seq<Pass>, n: nat) {
    forall k :: 0 <= k < |ps| ==> |ps[k]| == n
  }

  /** The first of the first `k` passes that saw slot `i`; `k` if none did. */
  function FirstSeen(ps: seq<Pass>, i: nat, k: nat): (f: nat)
    requires k <= |ps| && forall j :: 0 <= j < k ==> i < |ps[j]|
    ensures f <= k && (f < k ==> Sees(ps[f], i)) && forall j :: 0 <= j < f ==> !Sees(ps[j], i)
  {
    if k == 0 then 0
    else
      var f := FirstSeen(ps, i, k - 1);
      if f < k - 1 || Sees(ps[k - 1], i) then f else k
  }

  // ----- what the verdicts mean

  /** Slot `j`, submitted after slot `i`, was seen in a strictly earlier pass. */
  ghost predicate Overtaken(ps: seq<Pass>, n: nat, k: nat, i: nat, j: nat)
    requires k <= |ps| && Passes(ps, n)
  {
    i < j < n && FirstSeen(ps, j, k) < FirstSeen(ps, i, k) < k
  }

  ghost predicate AnyOvertaken(ps: seq<Pass>, n: nat, k: nat)
    requires k <= |ps| && Passes(ps, n)
  {
    exists i: nat, j: nat :: Overtaken(ps, n, k, i, j)
  }

  ghost predicate LastIs(resolved: seq<bool>, last: int) {
    && -1 <= last < |resolved| && (last >= 0 ==> resolved[last])
    && forall i :: last < i < |resolved| ==> !resolved[i]
  }

  /** The verdict after `k` passes. */
  ghost predicate Verdict(ps: seq<Pass>, n: nat, k: nat, s: State)
    requires k <= |ps| && Passes(ps, n)
  {
    && |s.resolved| == n && (forall i :: 0 <= i < n ==> (s.resolved[i] <==> FirstSeen(ps, i, k) < k))
    && LastIs(s.resolved, s.last)
    && (s.outOfOrder <==> AnyOvertaken(ps, n, k))
  }

  // ----- one pass

  /** The state in the middle of pass `k`, after its first `m` slots. */
  ghost predicate MidPass(ps: seq<Pass>, n: nat, k: nat, m: nat, s: State)
    requires k < |ps| && Passes(ps, n)
  {
    && |s.resolved| == n
    && (forall i :: 0 <= i < n ==> (s.resolved[i] <==> FirstSeen(ps, i, k + 1) < if i < m then k + 1 else k))
    && LastIs(s.resolved, s.last)
    && (s.outOfOrder <==> AnyBefore(ps, n, k, s.resolved))
  }

  ghost predicate SeenBefore(ps: seq<Pass>, n: nat, k: nat, resolved: seq<bool>, i: nat, j: nat)
    requires k < |ps| && Passes(ps, n) && |resolved| == n && i < n && j < n
  {
    resolved[i] && resolved[j] && FirstSeen(ps, j, k + 1) < FirstSeen(ps, i, k + 1)
  }

  ghost predicate AnyBefore(ps: seq<Pass>, n: nat, k: nat, resolved: seq<bool>)
    requires k < |ps| && Passes(ps, n) && |resolved| == n
  {
    exists i: nat, j: nat :: i < j < n && SeenBefore(ps, n, k, resolved, i, j)
  }

  /** The loop body for slot `i`. */
  function Look(s: State, i: nat, seen: bool): State
    requires i < |s.resolved|
  {
    if s.resolved[i] || !seen then s
    else State(s.resolved[i := true], s.outOfOrder || i < s.last, if i > s.last then i else s.last)
  }

  lemma FirstSeenStep(ps: seq<Pass>, n: nat, k: nat, i: nat)
    requires k < |ps| && Passes(ps, n) && i < n
    ensures FirstSeen(ps, i, k + 1) == if FirstSeen(ps, i, k) < k || Sees(ps[k], i) then FirstSeen(ps, i, k) else k + 1
  {
  }

  /** A slot resolving in pass `k` was overtaken iff a later slot is already resolved. */
  lemma LookFlag(ps: seq<Pass>, n: nat, k: nat, m: nat, s: State)
    requires k < |ps| && Passes(ps, n) && m < n && MidPass(ps, n, k, m, s)
    requires !s.resolved[m] && FirstSeen(ps, m, k + 1) == k
    ensures (s.outOfOrder || m < s.last) <==> AnyBefore(ps, n, k, s.resolved[m := true])
  {
    hide FirstSeen;
    var after := s.resolved[m := true];
    if s.outOfOrder {
      var i: nat, j: nat :| i < j < n && SeenBefore(ps, n, k, s.resolved, i, j);
      assert SeenBefore(ps, n, k, after, i, j);
    } else if m < s.last {
      assert SeenBefore(ps, n, k, after, m, s.last);
    } else {
      forall i: nat, j: nat | i < j < n
        ensures !SeenBefore(ps, n, k, after, i, j)
      {
        assert !SeenBefore(ps, n, k, s.resolved, i, j);
      }
    }
  }

  lemma LookStep(ps: seq<Pass>, n: nat, k: nat, m: nat, s: State)
    requires k < |ps| && Passes(ps, n) && m < n && MidPass(ps, n, k, m, s)
    ensures MidPass(ps, n, k, m + 1, Look(s, m, Sees(ps[k], m)))
  {
    hide FirstSeen, Sees, SeenBefore;
    FirstSeenStep(ps, n, k, m);
    if Sees(ps[k], m) && !s.resolved[m] {
      NotSeenEarlier(ps, n, k, m, s);
      LookFlag(ps, n, k, m, s);
    }
  }

  lemma NotSeenEarlier(ps: seq<Pass>, n: nat, k: nat, m: nat, s: State)
    requires k < |ps| && Passes(ps, n) && m < n && MidPass(ps, n, k, m, s) && !s.resolved[m] && Sees(ps[k], m)
    ensures FirstSeen(ps, m, k + 1) == k
  {
    hide SeenBefore;
  }

  lemma PassBegins(ps: seq<Pass>, n: nat, k: nat, s: State)
    requires k < |ps| && Passes(ps, n) && Verdict(ps, n, k, s)
    ensures MidPass(ps, n, k, 0, s)
  {
    hide FirstSeen, Sees;
    forall i | 0 <= i < n
      ensures FirstSeen(ps, i, k) < k ==> FirstSeen(ps, i, k + 1) == FirstSeen(ps, i, k)
      ensures FirstSeen(ps, i, k) == k ==> FirstSeen(ps, i, k + 1) >= k
    {
      FirstSeenStep(ps, n, k, i);
    }
    if s.outOfOrder {
      var i: nat, j: nat :| Overtaken(ps, n, k, i, j);
      assert SeenBefore(ps, n, k, s.resolved, i, j);
    }
    forall i: nat, j: nat | i < j < n && SeenBefore(ps, n, k, s.resolved, i, j)
      ensures s.outOfOrder
    {
      assert Overtaken(ps, n, k, i, j);
    }
  }

  lemma PassEnds(ps: seq<Pass>, n: nat, k: nat, s: State)
    requires k < |ps| && Passes(ps, n) && MidPass(ps, n, k, n, s)
    ensures Verdict(ps, n, k + 1, s)
  {
    hide FirstSeen, Sees;
    if s.outOfOrder {
      var i: nat, j: nat :| i < j < n && SeenBefore(ps, n, k, s.resolved, i, j);
      assert Overtaken(ps, n, k + 1, i, j);
    }
    var next := k + 1;
    forall i: nat, j: nat | Overtaken(ps, n, next, i, j)
      ensures s.outOfOrder
    {
      assert SeenBefore(ps, n, k, s.resolved, i, j);
    }
  }

  // ----- the loop

  /** The inner loop: one pass over all slots. */
  method OnePass(resolved: array<bool>, p: Pass, outOfOrder: bool, last: int, ghost ps: seq<Pass>, ghost k: nat)
    returns (outOfOrder': bool, last': int)
    requires k < |ps| && Passes(ps, resolved.Length) && p == ps[k]
    requires Verdict(ps, resolved.Length, k, State(resolved[..], outOfOrder, last))
    modifies resolved
    ensures Verdict(ps, resolved.Length, k + 1, State(resolved[..], outOfOrder', last'))
  {
    hide FirstSeen, MidPass, Verdict;
    var n := resolved.Length;
    outOfOrder', last' := outOfOrder, last;
    PassBegins(ps, n, k, State(resolved[..], outOfOrder, last));
    for i := 0 to n
      invariant MidPass(ps, n, k, i, State(resolved[..], outOfOrder', last'))
    {
      ghost var before := State(resolved[..], outOfOrder', last');
      LookStep(ps, n, k, i, before);
      if !resolved[i] && p[i] == Marker(MARKER_BASE, i) {
        resolved[i] := true;
        if i < last' {
          outOfOrder' := true;
        }
        if i > last' {
          last' := i;
        }
        assert resolved[..] == before.resolved[i := true];
      }
    }
    PassEnds(ps, n, k, State(resolved[..], outOfOrder', last'));
  }

  method AllDone(resolved: array<bool>) returns (done: bool)
    ensures done <==> forall i :: 0 <= i < resolved.Length ==> resolved[i]
  {
    for i := 0 to resolved.Length
      invariant forall j :: 0 <= j < i ==> resolved[j]
    {
      if !resolved[i] {
        return false;
      }
    }
    done := true;
  }

  /** The spin-poll over at most the passes the time budget allows; it stops early once
      every slot has resolved. */
  method SpinPoll(n: nat, ps: seq<Pass>) returns (s: State, timedOut: bool, taken: nat)
    requires Passes(ps, n)
    ensures taken <= |ps| && Verdict(ps, n, taken, s)
    ensures timedOut <==> exists i :: 0 <= i < n && !s.resolved[i]
    ensures timedOut ==> taken == |ps|
  {
    hide FirstSeen, AnyOvertaken, LastIs;
    var resolved := new bool[n](i => false);
    var outOfOrder, last := false, -1;
    taken := 0;
    Start(ps, n);
    assert resolved[..] == seq(n, i => false);
    var allDone := false;
    while taken < |ps| && !allDone
      invariant taken <= |ps| && Verdict(ps, n, taken, State(resolved[..], outOfOrder, last))
      invariant allDone ==> forall i :: 0 <= i < n ==> resolved[i]
      decreases |ps| - taken
    {
      outOfOrder, last := OnePass(resolved, ps[taken], outOfOrder, last, ps, taken);
      allDone := AllDone(resolved);
      taken := taken + 1;
    }
    s := State(resolved[..], outOfOrder, last);
    var done := AllDone(resolved);
    assert forall i :: 0 <= i < n ==> s.resolved[i] == resolved[i];
    timedOut := !done;
  }

  lemma Start(ps: seq<Pass>, n: nat)
    requires Passes(ps, n)
    ensures Verdict(ps, n, 0, State(seq(n, i => false), false, -1))
  {
  }

  // ----- in-order GPUs

  /** Pass `k` saw exactly the slots below `done[k]`: one snapshot of a GPU that
      completes submissions in order. */
  ghost predicate SnapshotInOrder(ps: seq<Pass>, n: nat, done: seq<nat>) {
    && Passes(ps, n) && |done| == |ps|
    && (forall k, l :: 0 <= k <= l < |ps| ==> done[k] <= done[l])
    && (forall k, i :: 0 <= k < |ps| && 0 <= i < n ==> (Sees(ps[k], i) <==> i < done[k]))
  }

  /** When each pass is one snapshot of an in-order GPU the flag stays down. */
  lemma SnapshotsNeverFlag(ps: seq<Pass>, n: nat, done: seq<nat>, k: nat, s: State)
    requires SnapshotInOrder(ps, n, done) && k <= |ps| && Verdict(ps, n, k, s)
    ensures !s.outOfOrder
  {
    forall i: nat, j: nat
      ensures !Overtaken(ps, n, k, i, j)
    {
    }
  }

  /** Slot `i` of pass `k` was read after `time[k][i]` completions of an in-order GPU. */
  ghost predicate ReadsInOrder(ps: seq<Pass>, n: nat, time: seq<seq<nat>>) {
    && Passes(ps, n) && |time| == |ps| && (forall k :: 0 <= k < |ps| ==> |time[k]| == n)
    && (forall k, i, l, j :: 0 <= k < |ps| && 0 <= i < n && 0 <= l < |ps| && 0 <= j < n && (k < l || (k == l && i <= j)) ==>
          time[k][i] <= time[l][j])
    && (forall k, i :: 0 <= k < |ps| && 0 <= i < n ==> (Sees(ps[k], i) <==> i < time[k][i]))
  }

  /** Passes are not snapshots, and then an in-order GPU can raise the flag: here both
      submissions complete between the reads of slot 0 and slot 1. */
  lemma InOrderGpuCanBeFlagged() returns (ps: seq<Pass>, time: seq<seq<nat>>)
    ensures |ps| == 2 && ReadsInOrder(ps, 2, time)
    ensures forall s :: Verdict(ps, 2, 2, s) ==> s.outOfOrder
  {
    ps := [[0, Marker(MARKER_BASE, 1)], [Marker(MARKER_BASE, 0), Marker(MARKER_BASE, 1)]];
    time := [[0, 2], [2, 2]];
    assert FirstSeen(ps, 1, 1) == 0 && FirstSeen(ps, 0, 1) == 1;
    assert Overtaken(ps, 2, 2, 0, 1);
  }

  /** Even then the flag is raised only if some slot was read, unresolved, before a later
      slot of the same pass was read complete. */
  lemma FlagNeedsTornPass(ps: seq<Pass>, n: nat, time: seq<seq<nat>>, k: nat, s: State)
    requires ReadsInOrder(ps, n, time) && k <= |ps| && Verdict(ps, n, k, s)
    ensures s.outOfOrder <==> exists i: nat, j: nat, l: nat :: Torn(ps, n, time, k, i, j, l)
  {
    if s.outOfOrder {
      var i: nat, j: nat :| Overtaken(ps, n, k, i, j);
      assert Torn(ps, n, time, k, i, j, FirstSeen(ps, j, k));
    }
    forall i: nat, j: nat, l: nat | Torn(ps, n, time, k, i, j, l)
      ensures s.outOfOrder
    {
      NotSeenUntil(ps, n, time, k, i, l);
      assert Overtaken(ps, n, k, i, j);
    }
  }

  /** In pass `l`, slot `i` was read before it completed and slot `j` after it did; and
      slot `i` resolved later. */
  ghost predicate Torn(ps: seq<Pass>, n: nat, time: seq<seq<nat>>, k: nat, i: nat, j: nat, l: nat)
    requires ReadsInOrder(ps, n, time) && k <= |ps|
  {
    l < k && i < j < n && time[l][i] <= i && j < time[l][j] && FirstSeen(ps, i, k) < k
  }

  lemma NotSeenUntil(ps: seq<Pass>, n: nat, time: seq<seq<nat>>, k: nat, i: nat, l: nat)
    requires ReadsInOrder(ps, n, time) && l < k <= |ps| && i < n && time[l][i] <= i
    ensures FirstSeen(ps, i, k) > l
  {
  }
}
