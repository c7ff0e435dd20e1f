/** What holds of every copy under way, once it is asked of every copy begun. */
module CopyBounds {
  import opened Basics
  import opened Protocol
  import opened FakeAddresses
  import opened Daemon
  import opened Bridge
  import opened BridgeSafety

  /** A condition a caller can check: is it a copy in, the size of the allocation its
      pointer points into, the offset there, and the length copied. */
  type Bound = (bool, nat, nat, nat) -> bool

  /** The copy stays inside its allocation, or is a copy in that the daemon refuses. */
  predicate Fits(copyIn: bool, size: nat, offset: nat, len: nat) {
    offset + len <= size || (copyIn && 24 + len > MAX_BODY_LEN)
  }

  /** The bound, of the copy a step begins. */
  ghost predicate BeginMeets(s: Sys, step: Step, p: Bound) {
    match step
    case BeginH2D(_, ptr, data) => RangeMeets(s.space, p, true, ptr, |data|)
    case BeginD2H(_, ptr, len) => RangeMeets(s.space, p, false, ptr, len)
    case _ => true
  }

  ghost predicate RangeMeets(sp: Space, p: Bound, copyIn: bool, ptr: nat, len: nat) {
    forall b: nat :: Covers(sp, b, ptr) ==> p(copyIn, sp.ranges[b].size, ptr - b, len)
  }

  /** The bound, of every copy a run begins. */
  ghost predicate RunMeets(s: Sys, steps: seq<Step>, p: Bound)
    requires IsRun(s, steps)
  {
    forall i :: 0 <= i < |steps| ==> BeginMeets(States(s, steps)[i], steps[i], p)
  }

  /** The bound, of a copy under way. */
  ghost predicate CopyMeets(s: Sys, c: Call, p: Bound) {
    match c
    case CallH2D(_, h, offset, data) => h in s.ledger && p(true, s.ledger[h].size, offset, |data|)
    case CallD2H(_, h, offset, len) => h in s.ledger && p(false, s.ledger[h].size, offset, len)
    case _ => true
  }

  ghost predicate ThreadMeets(s: Sys, t: Tid, p: Bound) {
    match ThreadOf(s, t)
    case Ready(c) => CopyMeets(s, c, p)
    case Waiting(c) => CopyMeets(s, c, p)
    case _ => true
  }

  ghost predicate AllMeet(s: Sys, p: Bound) {
    && (forall t :: ThreadMeets(s, t, p))
    && (s.flying.Some? ==> CopyMeets(s, s.flying.value, p))
  }

  lemma MeetsStays(s: Sys, s': Sys, c: Call, p: Bound)
    requires LedgerGrows(s, s') && CopyMeets(s, c, p)
    ensures CopyMeets(s', c, p)
  {
  }

  /** Between steps a call only passes from one state of a thread to the next, and onto
      the wire. */
  lemma CallsKept(s: Sys, step: Step, t: Tid)
    requires Enabled(s, step) && !BeginsOn(step, t)
    ensures var u := ThreadOf(Next(s, step), t);
            u.Ready? || u.Waiting? ==> (ThreadOf(s, t).Ready? || ThreadOf(s, t).Waiting?) && u.call == ThreadOf(s, t).call
  {
    hide Handle, HipContract, EncodeRequest, EncodeResponse, RequestOf, ReadRequest, ReadResponse, ResolveIn, MallocHandle, AllocateIn;
  }

  predicate BeginsOn(step: Step, t: Tid) {
    match step
    case BeginMalloc(u, _, _) => u == t
    case BeginFree(u, _) => u == t
    case BeginH2D(u, _, _) => u == t
    case BeginD2H(u, _, _) => u == t
    case BeginLaunch(u, _, _, _, _, _) => u == t
    case BeginOther(u, _) => u == t
    case _ => false
  }

  lemma BegunMeets(s: Sys, step: Step, t: Tid, p: Bound)
    requires SpaceOk(s) && Enabled(s, step) && BeginsOn(step, t) && BeginMeets(s, step, p) && LedgerGrows(s, Next(s, step))
    ensures ThreadMeets(Next(s, step), t, p)
  {
    hide Valid, ResolveIn, LedgerGrows;
    if (step.BeginH2D? || step.BeginD2H?) && ResolveIn(s.space, step.ptr).Some? {
      var b := ResolveSome(s.space, step.ptr);
    }
  }

  lemma FlyingKept(s: Sys, step: Step)
    requires Enabled(s, step)
    ensures var f := Next(s, step).flying;
            f.Some? ==> f == s.flying || ((step.Send? || step.SendBreaks?) && ThreadOf(s, step.t).Ready? && f == Some(ThreadOf(s, step.t).call))
  {
    hide Handle, HipContract, EncodeRequest, EncodeResponse, RequestOf, ReadRequest, ReadResponse, ResolveIn, MallocHandle, AllocateIn;
  }

  lemma MeetStep(s: Sys, step: Step, p: Bound)
    requires Inv(s) && AllMeet(s, p) && Enabled(s, step) && InStep(step) && BeginMeets(s, step, p)
    ensures AllMeet(Next(s, step), p)
  {
    hide LedgerOk, BlocksOk, SpaceOk, ThreadsOk, WireOk, Enabled, Next, LedgerGrows, CopyMeets, BeginMeets;
    StepInv(s, step);
    var s' := Next(s, step);
    forall t
      ensures ThreadMeets(s', t, p)
    {
      assert ThreadMeets(s, t, p);
      if BeginsOn(step, t) {
        BegunMeets(s, step, t, p);
      } else {
        CallsKept(s, step, t);
        if ThreadOf(s', t).Ready? || ThreadOf(s', t).Waiting? {
          MeetsStays(s, s', ThreadOf(s, t).call, p);
        }
      }
    }
    FlyingKept(s, step);
    if s'.flying.Some? {
      if s'.flying != s.flying {
        assert ThreadMeets(s, step.t, p);
      }
      MeetsStays(s, s', s'.flying.value, p);
    }
  }

  lemma {:induction false} RunMeet(s: Sys, steps: seq<Step>, p: Bound, i: nat)
    requires Inv(s) && AllMeet(s, p) && IsRun(s, steps) && AllInStep(steps) && RunMeets(s, steps, p) && i <= |steps|
    ensures Inv(States(s, steps)[i]) && AllMeet(States(s, steps)[i], p)
    decreases i
  {
    hide Inv, AllMeet, Enabled, Next, InStep, BeginMeets;
    if i > 0 {
      assert BeginMeets(States(s, steps)[0], steps[0], p) && InStep(steps[0]);
      StepInv(s, steps[0]);
      MeetStep(s, steps[0], p);
      var s1, rest := Next(s, steps[0]), steps[1..];
      forall k | 0 <= k < |rest|
        ensures BeginMeets(States(s1, rest)[k], rest[k], p) && InStep(rest[k])
      {
        assert States(s, steps)[k + 1] == States(s1, rest)[k] && steps[k + 1] == rest[k];
        assert BeginMeets(States(s, steps)[k + 1], steps[k + 1], p) && InStep(steps[k + 1]);
      }
      RunMeet(s1, rest, p, i - 1);
    }
  }

  lemma InitialMeets(dev: Device, p: Bound)
    ensures AllMeet(InitialState(dev), p)
  {
  }
}
