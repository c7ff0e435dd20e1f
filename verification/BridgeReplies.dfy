/** What the game is told. On every run, a reply that reaches a thread is the daemon's
    answer to that thread's own call, given between the call's request and its reply,
    and it tells the truth about the flat device. */
module BridgeReplies {
  import opened Basics
  import opened Bytes
  import opened Protocol
  import opened FakeAddresses
  import opened KernelArgs
  import opened Daemon
  import opened Bridge
  import opened BridgeSafety
  import opened CopyBounds
  import opened BridgeRefinement

  // ----- in the state a reply is delivered from

  /** When a copy in is acknowledged, the flat device holds its bytes. */
  lemma DeliveredCopyIn(s: Sys, t: Tid)
    requires Inv(s) && Enabled(s, Receive(t))
    requires var c := ThreadOf(s, t).call; c.CallH2D? && ReadResponse(s.s2c).value.Ok? && StillThere(s, c) && CopyMeets(s, c, Fits)
    ensures var c := ThreadOf(s, t).call;
            forall a: nat :: c.ptr <= a < c.ptr + |c.data| ==> FlatByte(s, a) == Some(c.data[a - c.ptr])
  {
    hide LedgerOk, BlocksOk, FlatByte, WireOk, Valid, ReadResponse;
    DeliveredIsServed(s, t);
    assert ThreadOk(s, t);
    var c := ThreadOf(s, t).call;
    StillThereIff(s, c);
    forall a: nat | c.ptr <= a < c.ptr + |c.data|
      ensures FlatByte(s, a) == Some(c.data[a - c.ptr])
    {
      CopiedByte(s, c, s.answer.value, a);
    }
  }

  lemma CopiedByte(s: Sys, c: Call, r: Answer, a: nat)
    requires LedgerOk(s) && BlocksOk(s) && SpaceOk(s) && AnswerTo(s.daemon, c, r) && r.resp.Ok?
    requires c.CallH2D? && CopyOk(s, c.ptr, c.handle, c.offset) && s.ledger[c.handle].owner.AtBase? && CopyMeets(s, c, Fits)
    requires c.ptr <= a < c.ptr + |c.data|
    ensures FlatByte(s, a) == Some(c.data[a - c.ptr])
  {
    hide BlocksOk, FlatByte, Valid, HipContract;
    FlatAt(s, c.ptr - c.offset, a);
  }

  /** An acknowledged launch is the last kernel the device ran, on the blob the caller's
      pointers meant; a refused one left the daemon as it was. */
  lemma DeliveredLaunch(s: Sys, t: Tid)
    requires Inv(s) && Enabled(s, Receive(t)) && ThreadOf(s, t).call.CallLaunch?
    ensures s.answer.Some?
    ensures var c, before := ThreadOf(s, t).call, s.answer.value.before;
            var functions := before.functions.entries;
            if ReadResponse(s.s2c).value.Ok? then
              RanOnce(before.dev.launches, s.daemon.dev.launches, functions, c, Bases(s))
            else s.daemon == before
  {
    hide BlocksOk, SpaceOk, WireOk, Scan, Translated, PatchFirst, Valid, ReadResponse, RanOnce;
    DeliveredIsServed(s, t);
    assert ThreadOk(s, t);
    var c := ThreadOf(s, t).call;
    ScannedHandlesIssued(s, c.at, c.args);
    ScanThenPatch(c.at, Bases(s), s.daemon.handles.entries, c.args);
    var before := s.answer.value.before;
    if ReadResponse(s.s2c).value.Ok? {
      RunIsRanOnce(before.dev.launches, s.daemon.dev.launches, before.functions.entries, c, Bases(s));
    }
  }

  // ----- from request to reply

  /** While a thread waits, the only thing that can happen to its exchange is that the
      daemon answers it, once. */
  lemma StillWaiting(s: Sys, step: Step, t: Tid)
    requires Inv(s) && Enabled(s, step) && ThreadOf(s, t).Waiting? && ThreadOf(Next(s, step), t).Waiting?
    ensures ThreadOf(Next(s, step), t) == ThreadOf(s, t)
    ensures !step.Serve? ==> Next(s, step).answer == s.answer
    ensures step.Serve? ==>
              var c := ThreadOf(s, t).call;
              && s.answer.None? && s.flying == Some(c) && CallOk(s, c) && ReadRequest(s.c2s) == Got(RequestOf(c), [])
              && Next(s, step).answer == Some(Answer(Handle(s.daemon, RequestOf(c), step.o).1, s.daemon, step.o))
  {
    hide LedgerOk, BlocksOk, SpaceOk, CallOk, GrantOk, Handle, HipContract, EncodeRequest, EncodeResponse, RequestOf,
         ReadRequest, ReadResponse, AnswerTo, ResolveIn, MallocHandle;
    assert ThreadOk(s, t);
    if step.Serve? {
      ServedIsSent(s);
    }
  }

  lemma StartsWaiting(s: Sys, step: Step, t: Tid)
    requires Inv(s) && Enabled(s, step) && !ThreadOf(s, t).Waiting? && ThreadOf(Next(s, step), t).Waiting?
    ensures step == Send(t) && ThreadOf(s, t).Ready? && ThreadOf(Next(s, step), t) == Waiting(ThreadOf(s, t).call)
    ensures Next(s, step).answer.None?
  {
    hide LedgerOk, BlocksOk, SpaceOk, ThreadsOk, CallOk, GrantOk, Handle, HipContract, EncodeRequest, EncodeResponse, RequestOf,
         ReadRequest, ReadResponse, AnswerTo, ResolveIn, MallocHandle;
  }

  /** The daemon's step `k` carried out call `c`, and its answer was `resp`. */
  ghost predicate CarriesOut(ss: seq<Sys>, steps: seq<Step>, k: nat, c: Call, resp: Response)
    requires k < |steps| < |ss|
  {
    && steps[k].Serve? && HasRequest(c) && ss[k].flying == Some(c) && ReadRequest(ss[k].c2s) == Got(RequestOf(c), [])
    && resp == Handle(ss[k].daemon, RequestOf(c), steps[k].o).1
  }

  /** A waiting thread sent its request in some step `i`; since then the daemon has
      answered that request, in step `k`, or nothing at all. */
  ghost predicate UnderWay(ss: seq<Sys>, steps: seq<Step>, j: nat, t: Tid, i: nat, k: nat)
    requires j <= |steps| < |ss|
  {
    && i < j && steps[i] == Send(t) && ThreadOf(ss[i], t).Ready? && ThreadOf(ss[j], t) == Waiting(ThreadOf(ss[i], t).call)
    && (forall m :: i < m < j && steps[m].Serve? ==> m == k)
    && (if ss[j].answer.None? then k == i
        else i < k < j && CarriesOut(ss, steps, k, ThreadOf(ss[i], t).call, ss[j].answer.value.resp))
  }

  lemma {:induction false} Exchange(ss: seq<Sys>, steps: seq<Step>, j: nat, t: Tid) returns (i: nat, k: nat)
    requires Behaviour(ss, steps) && j <= |steps| && ThreadOf(ss[j], t).Waiting? && !ThreadOf(ss[0], t).Waiting?
    ensures UnderWay(ss, steps, j, t, i, k)
  {
    hide Inv, Enabled, Next, InStep, HasRequest, Handle, ReadRequest, RequestOf;
    var s, step := ss[j - 1], steps[j - 1];
    if ThreadOf(s, t).Waiting? {
      i, k := Exchange(ss, steps, j - 1, t);
      StillWaiting(s, step, t);
      if step.Serve? {
        k := j - 1;
        CallHasRequest(s, ThreadOf(s, t).call);
      }
    } else {
      StartsWaiting(s, step, t);
      i, k := j - 1, j - 1;
    }
  }

  lemma CallHasRequest(s: Sys, c: Call)
    requires CallOk(s, c)
    ensures HasRequest(c)
  {
  }

  /** The tid and the call of a thread that is handed a reply in step `j`. */
  ghost predicate Delivered(ss: seq<Sys>, steps: seq<Step>, j: nat, t: Tid, c: Call, resp: Response)
    requires j < |steps| < |ss|
  {
    steps[j] == Receive(t) && ThreadOf(ss[j], t) == Waiting(c) && ThreadOf(ss[j + 1], t) == Replied(c, resp)
  }

  /** A delivered reply answers the call of the thread it is delivered to: the daemon
      carried that call out once, after the thread's request and before its reply. */
  lemma ReplyAnswersItsCall(ss: seq<Sys>, steps: seq<Step>, j: nat, t: Tid, c: Call, resp: Response) returns (i: nat, k: nat)
    requires Behaviour(ss, steps) && !ThreadOf(ss[0], t).Waiting? && j < |steps| && Delivered(ss, steps, j, t, c, resp)
    ensures i < k < j && steps[i] == Send(t) && ThreadOf(ss[i], t) == Ready(c) && CarriesOut(ss, steps, k, c, resp)
    ensures forall m :: i < m < j && steps[m].Serve? ==> m == k
  {
    hide Inv, CarriesOut, ReadResponse;
    i, k := Exchange(ss, steps, j, t);
    DeliveredIsServed(ss[j], t);
  }

  /** Between two requests carried out by the daemon a further one was sent: none is
      carried out twice, whatever is lost. */
  lemma {:induction false} NothingCarriedOutTwice(ss: seq<Sys>, steps: seq<Step>, k: nat, l: nat) returns (m: nat)
    requires Behaviour(ss, steps) && k < l < |steps| && steps[k].Serve? && steps[l].Serve?
    ensures k < m < l && (steps[m].Send? || steps[m].SendBreaks?)
  {
    hide Inv, Enabled, Next, InStep;
    m := LastSend(ss, steps, k, l);
  }

  lemma {:induction false} LastSend(ss: seq<Sys>, steps: seq<Step>, k: nat, l: nat) returns (m: nat)
    requires Behaviour(ss, steps) && k < l <= |steps| && steps[k].Serve?
    ensures (k < m < l && (steps[m].Send? || steps[m].SendBreaks?)) || (m == k && ss[l].flying.None?)
    ensures l < |steps| && steps[l].Serve? ==> m > k
  {
    hide Inv, Next, InStep, Enabled;
    var step := steps[l - 1];
    if step.Send? || step.SendBreaks? {
      m := l - 1;
    } else {
      m := k;
      if l - 1 > k {
        m := LastSend(ss, steps, k, l - 1);
      }
      if m == k {
        FlyingOnlyWhenSent(ss[l - 1], step);
      }
    }
    if l < |steps| && steps[l].Serve? {
      ServeNeedsFlying(ss[l], steps[l].o);
    }
  }

  lemma ServeNeedsFlying(s: Sys, o: Outcome)
    requires Inv(s) && Enabled(s, Serve(o))
    ensures s.flying.Some?
  {
    hide Inv;
    ServedIsSent(s);
  }

  lemma FlyingOnlyWhenSent(s: Sys, step: Step)
    requires Inv(s) && Enabled(s, step) && !step.Send? && !step.SendBreaks? && (s.flying.None? || step.Serve?)
    ensures Next(s, step).flying.None?
  {
    hide Inv, Handle, HipContract, EncodeRequest, EncodeResponse, RequestOf, ReadRequest, ReadResponse, ResolveIn, MallocHandle;
  }

  // ----- what the reply says of the flat device

  /** Step `e` of the flat device, made by the daemon from `s` to `s'` for call `c`, is
      what the reply `resp` tells the game. */
  ghost predicate Tells(s: Sys, e: Event, s': Sys, c: Call, resp: Response) {
    match c
    case CallMalloc(size, _) =>
      e == Silent && (MallocHandle(resp).Some? ==>
        var h := MallocHandle(resp).value; h !in s.ledger && h in s'.ledger && s'.ledger[h].size == size && h in s'.daemon.handles.entries)
    case CallFree(h) =>
      e == Silent && h !in s'.daemon.handles.entries && (resp.Ok? ==>
        h in s.ledger && Released(s.daemon.dev, s'.daemon.dev, s.ledger[h].realBase, s.ledger[h].size))
    case CallH2D(ptr, _, _, data) => e == if resp.Ok? && StillThere(s, c) then Wrote(ptr, data) else Silent
    case CallD2H(ptr, _, _, len) => e == (if resp.Ok? && StillThere(s, c) then ReadBack(ptr, resp.body) else Silent) && (resp.Ok? ==> |resp.body| == len)
    case CallLaunch(_, _, _, _, _, _) =>
      if resp.Ok? then
        e == KernelRan && RanOnce(s.daemon.dev.launches, s'.daemon.dev.launches, s.daemon.functions.entries, c, Bases(s))
      else e == Silent && s'.daemon == s.daemon
    case CallOther(req) => e == Silent && s'.daemon.handles == s.daemon.handles && s'.daemon.dev == s.daemon.dev
  }

  lemma ServedTells(s: Sys, o: Outcome, c: Call)
    requires Inv(s) && Enabled(s, Serve(o)) && HasRequest(c) && s.flying == Some(c)
    requires ReadRequest(s.c2s) == Got(RequestOf(c), [])
    ensures Tells(s, ServeEvent(s, o), Next(s, Serve(o)), c, Handle(s.daemon, RequestOf(c), o).1)
  {
    hide Inv, Enabled, Next, Handle, Tells, ReadRequest, RequestOf;
    match c
    case CallH2D(_, _, _, _) => CopyInTells(s, o, c);
    case CallD2H(_, _, _, _) => CopyOutTells(s, o, c);
    case CallLaunch(_, _, _, _, _, _) => LaunchTells(s, o, c);
    case CallFree(_) => FreeTells(s, o, c);
    case _ => OtherTells(s, o, c);
  }

  lemma CopyInTells(s: Sys, o: Outcome, c: Call)
    requires Inv(s) && Enabled(s, Serve(o)) && s.flying == Some(c) && c.CallH2D?
    ensures Tells(s, ServeEvent(s, o), Next(s, Serve(o)), c, Handle(s.daemon, RequestOf(c), o).1)
  {
    hide BlocksOk, SpaceOk, ThreadsOk, WireOk, EncodeResponse, StillThere, OneFrame, Overwrite;
    ServedIsSent(s);
    StillThereIff(s, c);
    BoundIfOwned(s, c.handle);
  }

  lemma CopyOutTells(s: Sys, o: Outcome, c: Call)
    requires Inv(s) && Enabled(s, Serve(o)) && s.flying == Some(c) && c.CallD2H?
    ensures Tells(s, ServeEvent(s, o), Next(s, Serve(o)), c, Handle(s.daemon, RequestOf(c), o).1)
  {
    hide LedgerOk, BlocksOk, SpaceOk, ThreadsOk, WireOk, Enabled, Next, StillThere, OneFrame;
    D2HFrame(s, o);
    StillThereIff(s, c);
    BoundIfOwned(s, c.handle);
  }

  lemma LaunchTells(s: Sys, o: Outcome, c: Call)
    requires Inv(s) && Enabled(s, Serve(o)) && s.flying == Some(c) && c.CallLaunch? && HasRequest(c)
    requires ReadRequest(s.c2s) == Got(RequestOf(c), [])
    ensures Tells(s, ServeEvent(s, o), Next(s, Serve(o)), c, Handle(s.daemon, RequestOf(c), o).1)
  {
    hide Inv, EncodeResponse, HipContract, Handle, RequestOf, Scan, MadeReal, Bases;
    LaunchRefinement(s, o);
  }

  lemma FreeTells(s: Sys, o: Outcome, c: Call)
    requires Inv(s) && Enabled(s, Serve(o)) && s.flying == Some(c) && c.CallFree?
    ensures Tells(s, ServeEvent(s, o), Next(s, Serve(o)), c, Handle(s.daemon, RequestOf(c), o).1)
  {
    hide SpaceOk, ThreadsOk, WireOk, EncodeResponse, HipContract, DevFree, Released, ValidDevice;
    ServedIsSent(s);
    if c.handle in s.daemon.handles.entries {
      assert BlockOf(s.daemon.dev, s.ledger[c.handle]);
      FreeReleases(s.daemon.dev, s.ledger[c.handle].realBase, s.ledger[c.handle].size);
    }
  }

  lemma OtherTells(s: Sys, o: Outcome, c: Call)
    requires Inv(s) && Enabled(s, Serve(o)) && s.flying == Some(c) && (c.CallMalloc? || c.CallOther?)
    ensures Tells(s, ServeEvent(s, o), Next(s, Serve(o)), c, Handle(s.daemon, RequestOf(c), o).1)
  {
    hide BlocksOk, SpaceOk, ThreadsOk, WireOk, EncodeResponse, HipContract, DevMalloc, DevFree, LE, FromLE;
    ServedIsSent(s);
    if c.CallMalloc? {
      U64OfLE(s.daemon.handles.nextId);
    }
  }

  /** In a run the same, of the step that carried the call out. */
  lemma StepTells(ss: seq<Sys>, steps: seq<Step>, k: nat, c: Call, resp: Response)
    requires Behaviour(ss, steps) && k < |steps| && CarriesOut(ss, steps, k, c, resp)
    ensures Tells(ss[k], EventOf(ss[k], steps[k]), ss[k + 1], c, resp)
  {
    hide Inv, Enabled, Next, Handle, Tells, ReadRequest, RequestOf, ServeEvent;
    ServedTells(ss[k], steps[k].o, c);
  }

  /** Bytes handed over are a read of the flat device in the step that hands them over. */
  lemma HandedOver(ss: seq<Sys>, steps: seq<Step>, j: nat, t: Tid, c: Call, resp: Response)
    requires Behaviour(ss, steps) && j < |steps| && Delivered(ss, steps, j, t, c, resp)
    ensures c.CallD2H? && resp.Ok? && StillThere(ss[j], c) ==> EventOf(ss[j], steps[j]) == ReadBack(c.ptr, resp.body)
  {
    hide Inv, ReadResponse, StillThere, MallocHandle;
  }

  /** Over any run from the start: whatever reply a thread is handed, the daemon carried
      out that thread's call once, between request and reply, in one step whose event
      the reply tells truly; and bytes copied out are read off when they are handed over,
      unless another thread has freed them by then. When the run's copies fit, these are
      the events of one flat device. */
  lemma GameSeesFlatDevice(dev: Device, steps: seq<Step>, j: nat, t: Tid, c: Call, resp: Response) returns (i: nat, k: nat)
    requires ValidDevice(dev) && IsRun(InitialState(dev), steps) && AllInStep(steps)
    requires j < |steps| && Delivered(States(InitialState(dev), steps), steps, j, t, c, resp)
    ensures var ss, trace := States(InitialState(dev), steps), Trace(InitialState(dev), steps);
            && |trace| == |steps| && (RunMeets(InitialState(dev), steps, Fits) ==> FlatRun(ss, trace))
            && i < k < j && steps[i] == Send(t) && ThreadOf(ss[i], t) == Ready(c) && steps[k].Serve?
            && (forall m :: i < m < j && steps[m].Serve? ==> m == k)
            && Tells(ss[k], trace[k], ss[k + 1], c, resp)
            && (c.CallD2H? && resp.Ok? && StillThere(ss[j], c) ==> trace[j] == ReadBack(c.ptr, resp.body))
  {
    hide Behaviour, AllMeet, RunMeets, IsRun, Tells, Trace, States, FlatRun, StillThere, EventOf, Delivered, Inv;
    InitialInv(dev);
    var ss := States(InitialState(dev), steps);
    StatesBehave(InitialState(dev), steps);
    InitialMeets(dev, Fits);
    if RunMeets(InitialState(dev), steps, Fits) {
      RunRefinesFlat(InitialState(dev), steps);
    }
    i, k := ReplyAnswersItsCall(ss, steps, j, t, c, resp);
    StepTells(ss, steps, k, c, resp);
    HandedOver(ss, steps, j, t, c, resp);
  }
}
