/** What every step of the two-process system keeps. */
module BridgeSafety {
  import opened Basics
  import opened Bytes
  import opened Protocol
  import opened FakeAddresses
  import opened HandleTables
  import opened KernelArgs
  import opened Daemon
  import opened Bridge

  // ----- the invariant, in parts

  /** The ledger covers the handles issued so far, and agrees with the table about the
      ones still bound. A handle somebody may still use is bound. */
  ghost predicate LedgerOk(s: Sys) {
    && ValidTable(s.daemon.handles) && s.daemon.handles.nextId <= TWO_64
    && (forall h :: h in s.ledger <==> 1 <= h < s.daemon.handles.nextId)
    && (forall h :: h in s.daemon.handles.entries ==> h in s.ledger && s.daemon.handles.entries[h] == s.ledger[h].realBase)
    && (forall h :: h in s.ledger && s.ledger[h].owner != Gone ==> h in s.daemon.handles.entries)
  }

  /** Every bound handle has its own real block, of the size asked for. */
  ghost predicate BlocksOk(s: Sys) {
    && ValidDevice(s.daemon.dev)
    && (forall h :: h in s.daemon.handles.entries ==> h in s.ledger && BlockOf(s.daemon.dev, s.ledger[h]))
    && (forall h, g :: h in s.daemon.handles.entries && g in s.daemon.handles.entries && h != g ==>
          h in s.ledger && g in s.ledger && (s.ledger[h].realBase != s.ledger[g].realBase || s.ledger[h].size == 0))
  }

  ghost predicate BlockOf(dev: Device, e: Entry) {
    if e.size == 0 then e.realBase == 0 else e.realBase in dev.blocks && dev.blocks[e.realBase] == e.size
  }

  ghost predicate SpaceOk(s: Sys) {
    && Valid(s.space)
    && (forall b :: b in s.space.ranges ==>
          var r := s.space.ranges[b];
          r.handle in s.ledger && s.ledger[r.handle].owner == AtBase(b) && s.ledger[r.handle].size == r.size)
    && (forall h :: h in s.ledger && s.ledger[h].owner.AtBase? ==>
          s.ledger[h].owner.base in s.space.ranges && s.space.ranges[s.ledger[h].owner.base].handle == h)
  }

  /** A copy that was resolved to (handle, offset) starts inside what the handle was
      issued for, and still names the byte its pointer named while the range lives. */
  ghost predicate CopyOk(s: Sys, ptr: nat, handle: nat, offset: nat) {
    && handle in s.ledger && offset <= ptr && offset < Extent(s.ledger[handle].size)
    && (s.ledger[handle].owner == Gone || s.ledger[handle].owner == AtBase(ptr - offset))
  }

  ghost predicate SnapshotOk(s: Sys, at: Space) {
    && Valid(at)
    && forall b :: b in at.ranges ==> at.ranges[b].handle in s.ledger
  }

  ghost predicate CallOk(s: Sys, c: Call) {
    && OneFrame(c)
    && match c
       case CallMalloc(_, _) => true
       case CallFree(h) => h in s.ledger && s.ledger[h].owner == Gone
       case CallH2D(ptr, h, offset, _) => CopyOk(s, ptr, h, offset)
       case CallD2H(ptr, h, offset, _) => CopyOk(s, ptr, h, offset)
       case CallLaunch(_, _, _, _, at, args) => |args| == MAX_KERNEL_ARG_BYTES && SnapshotOk(s, at)
       case CallOther(req) => TouchesNoAllocation(req)
  }

  /** A malloc reply carries a handle nobody else has, issued for the size asked. */
  ghost predicate GrantOk(s: Sys, c: Call, resp: Response, owner: Owner) {
    c.CallMalloc? && MallocHandle(resp).Some? ==>
      var h := MallocHandle(resp).value;
      h in s.ledger && s.ledger[h].owner == owner && s.ledger[h].size == c.size
  }

  ghost predicate ThreadOk(s: Sys, t: Tid) {
    match ThreadOf(s, t)
    case Idle => true
    case Ready(c) => CallOk(s, c)
    case Waiting(c) => CallOk(s, c) && s.lock == Some(t)
    case Replied(c, resp) => GrantOk(s, c, resp, WithThread(t))
  }

  ghost predicate ThreadsOk(s: Sys) {
    forall t :: ThreadOk(s, t)
  }

  /** While the connection is up at most one exchange is under way, and its frame or its
      reply is exactly what is on the wire. After it broke, at most a piece of one frame
      is left in the daemon's direction. */
  ghost predicate WireOk(s: Sys) {
    && (s.flying.None? ==> s.c2s == [])
    && (s.flying.Some? ==> CallOk(s, s.flying.value) && s.c2s <= EncodeRequest(RequestOf(s.flying.value)))
    && (s.lock.Some? ==> s.up && ThreadOf(s, s.lock.value).Waiting?)
    && (s.up && s.lock.None? ==> s.flying.None? && s.answer.None? && s.s2c == [])
    && (s.up && s.lock.Some? ==> ExchangeOk(s, ThreadOf(s, s.lock.value).call))
  }

  /** The reply is the daemon's answer to this very call, and nothing has happened in the
      daemon since. */
  ghost predicate AnswerTo(d: State, c: Call, a: Answer) {
    && HasRequest(c) && Heard(c) && (d, a.resp) == Handle(a.before, RequestOf(c), a.o)
    && HipContract(a.before, RequestOf(c), a.o)
  }

  ghost predicate ExchangeOk(s: Sys, c: Call)
    requires s.flying.Some? ==> CallOk(s, s.flying.value)
  {
    if s.flying.Some? then
      s.flying.value == c && s.c2s == EncodeRequest(RequestOf(c)) && s.answer.None? && s.s2c == []
    else if s.answer.Some? then
      var resp := s.answer.value.resp;
      && s.s2c == EncodeResponse(resp) && KeepsStep(|ResponseBody(resp)|)
      && AnswerTo(s.daemon, c, s.answer.value) && GrantOk(s, c, resp, InReply)
    else s.s2c == []
  }

  ghost predicate Inv(s: Sys) {
    LedgerOk(s) && BlocksOk(s) && SpaceOk(s) && ThreadsOk(s) && WireOk(s)
  }

  // ----- the start

  lemma InitialInv(dev: Device)
    requires ValidDevice(dev)
    ensures Inv(InitialState(dev))
  {
  }

  // ----- what a step may do to the ledger

  /** No handle is reissued or re-based, and none becomes usable again. */
  ghost predicate LedgerGrows(s: Sys, s': Sys) {
    forall h :: h in s.ledger ==>
      && h in s'.ledger && s'.ledger[h].realBase == s.ledger[h].realBase && s'.ledger[h].size == s.ledger[h].size
      && (s.ledger[h].owner == Gone ==> s'.ledger[h].owner == Gone)
      && (s.ledger[h].owner.AtBase? ==> s'.ledger[h].owner == s.ledger[h].owner || s'.ledger[h].owner == Gone)
  }

  lemma CallStays(s: Sys, s': Sys, c: Call)
    requires LedgerGrows(s, s') && CallOk(s, c)
    ensures CallOk(s', c)
  {
    hide RequestOf, Body, Valid;
  }

  // ----- local steps: the wire and the daemon stand still

  /** A thread that did not move keeps what it holds, as long as no handle granted to it
      changes owner. */
  lemma StillOk(s: Sys, s': Sys, u: Tid)
    requires LedgerGrows(s, s') && ThreadOf(s', u) == ThreadOf(s, u) && ThreadOk(s, u)
    requires ThreadOf(s, u).Waiting? ==> s'.lock == s.lock
    requires forall h :: h in s.ledger && s.ledger[h].owner == WithThread(u) ==> s'.ledger[h].owner == WithThread(u)
    ensures ThreadOk(s', u)
  {
    hide OneFrame, MallocHandle, TouchesNoAllocation, CallOk;
    match ThreadOf(s, u)
    case Idle =>
    case Ready(c) => CallStays(s, s', c);
    case Waiting(c) => CallStays(s, s', c);
    case Replied(c, resp) =>
  }

  lemma ThreadsStay(s: Sys, s': Sys, t: Tid)
    requires ThreadsOk(s) && LedgerGrows(s, s')
    requires forall u :: u != t ==> ThreadOf(s', u) == ThreadOf(s, u)
    requires forall u :: u != t && ThreadOf(s, u).Waiting? ==> s'.lock == s.lock
    requires forall h :: h in s.ledger && s.ledger[h].owner.WithThread? && s.ledger[h].owner.t != t ==> s'.ledger[h].owner == s.ledger[h].owner
    requires ThreadOk(s', t)
    ensures ThreadsOk(s')
  {
    hide ThreadOk;
    forall u
      ensures ThreadOk(s', u)
    {
      assert ThreadOk(s, u);
      if u != t {
        StillOk(s, s', u);
      }
    }
  }

  /** A thread moved between calls, or finished one. */
  ghost predicate LocalMove(s: Sys, s': Sys, t: Tid) {
    && (s'.daemon, s'.lock, s'.up, s'.c2s, s'.s2c, s'.flying, s'.answer, s'.serving)
         == (s.daemon, s.lock, s.up, s.c2s, s.s2c, s.flying, s.answer, s.serving)
    && (forall u :: u != t ==> ThreadOf(s', u) == ThreadOf(s, u))
    && !ThreadOf(s, t).Waiting? && !ThreadOf(s', t).Waiting?
    && s'.ledger.Keys == s.ledger.Keys
    && (forall h :: h in s.ledger ==>
          && (s.ledger[h].owner == InReply ==> s'.ledger[h].owner == InReply)
          && (s.ledger[h].owner.WithThread? && s.ledger[h].owner.t != t ==> s'.ledger[h].owner == s.ledger[h].owner))
  }

  lemma LocalMoveInv(s: Sys, s': Sys, t: Tid)
    requires Inv(s) && LocalMove(s, s', t) && LedgerGrows(s, s')
    requires SpaceOk(s') && ThreadOk(s', t)
    ensures Inv(s')
  {
    hide BlocksOk, SpaceOk, OneFrame, MallocHandle, TouchesNoAllocation, CallOk, EncodeRequest, EncodeResponse, RequestOf, ThreadOk, ResponseBody, AnswerTo;
    OwnersMoveOnly(s, s');
    ThreadsStay(s, s', t);
    if s.flying.Some? {
      CallStays(s, s', s.flying.value);
    }
    assert s.lock.Some? ==> s.lock.value != t;
  }

  lemma FreedSpaceOk(s: Sys, t: Tid, ptr: u64)
    requires SpaceOk(s) && ThreadOf(s, t).Idle?
    ensures SpaceOk(FreeBegun(s, t, ptr)) && LedgerGrows(s, FreeBegun(s, t, ptr))
    ensures ptr in s.space.ranges ==>
              CallOk(FreeBegun(s, t, ptr), CallFree(s.space.ranges[ptr].handle)) && LocalMove(s, FreeBegun(s, t, ptr), t)
  {
    hide Valid;
    RemoveValid(s.space, ptr);
  }

  lemma BeginFreeInv(s: Sys, t: Tid, ptr: u64)
    requires Inv(s) && ThreadOf(s, t).Idle?
    ensures Inv(FreeBegun(s, t, ptr)) && LedgerGrows(s, FreeBegun(s, t, ptr))
  {
    hide LedgerOk, BlocksOk, WireOk, SpaceOk, CallOk;
    FreedSpaceOk(s, t, ptr);
    if ptr in s.space.ranges {
      LocalMoveInv(s, FreeBegun(s, t, ptr), t);
    }
  }

  /** Beginning any call but a free changes the calling thread only. */
  lemma BeginInv(s: Sys, t: Tid, c: Call)
    requires Inv(s) && ThreadOf(s, t).Idle? && CallOk(s, c)
    ensures Inv(CopyBegun(s, t, c)) && LedgerGrows(s, CopyBegun(s, t, c))
  {
    hide OneFrame, MallocHandle, EncodeRequest, EncodeResponse, LedgerOk, BlocksOk, WireOk, CallOk, AnswerTo;
    var s' := CopyBegun(s, t, c);
    CallStays(s, s', c);
    LocalMoveInv(s, s', t);
  }

  lemma ResolvedCopyOk(s: Sys, ptr: u64)
    requires SpaceOk(s) && ResolveIn(s.space, ptr).Some?
    ensures CopyOk(s, ptr, ResolveIn(s.space, ptr).value.0, ResolveIn(s.space, ptr).value.1)
  {
    var b := ResolveSome(s.space, ptr);
  }

  lemma BeginCopyInv(s: Sys, step: Step)
    requires Inv(s) && Enabled(s, step) && (step.BeginH2D? || step.BeginD2H?) && InStep(step)
    ensures Inv(Next(s, step)) && LedgerGrows(s, Next(s, step))
  {
    hide EncodeRequest, EncodeResponse, LedgerOk, BlocksOk, WireOk, ThreadsOk, Valid, ResolveIn, LE, AnswerTo;
    var r := ResolveIn(s.space, step.ptr);
    if r.Some? {
      ResolvedCopyOk(s, step.ptr);
      BeginInv(s, step.t, if step.BeginH2D? then CallH2D(step.ptr, r.value.0, r.value.1, step.data)
                          else CallD2H(step.ptr, r.value.0, r.value.1, step.len));
    }
  }

  lemma BeginLaunchInv(s: Sys, step: Step)
    requires Inv(s) && Enabled(s, step) && step.BeginLaunch?
    ensures Inv(Next(s, step)) && LedgerGrows(s, Next(s, step))
  {
    hide EncodeRequest, EncodeResponse, LedgerOk, BlocksOk, WireOk, ThreadsOk, Valid, Scan, LE, AnswerTo;
    LaunchFitsFrame(step.function_, step.grid, step.block, step.sharedMem, s.space, step.args);
    BeginInv(s, step.t, CallLaunch(step.function_, step.grid, step.block, step.sharedMem, s.space, step.args));
  }

  lemma PlacedSpaceOk(s: Sys, t: Tid)
    requires SpaceOk(s) && Enabled(s, Finish(t)) && ThreadOk(s, t)
    ensures SpaceOk(Finished(s, t)) && LedgerGrows(s, Finished(s, t))
  {
    hide MallocHandle, OneFrame, Valid, Reserved, SpaceOk, AllocateIn;
    var thread := ThreadOf(s, t);
    var h := MallocHandle(thread.resp);
    if thread.call.CallMalloc? && h.Some? && thread.call.keep {
      PlacedAtNextBase(s, Finished(s, t), t, h.value, thread.call.size);
    } else {
      SpaceStays(s, Finished(s, t));
    }
  }

  lemma SpaceStays(s: Sys, s': Sys)
    requires SpaceOk(s) && s'.space == s.space && s'.ledger == s.ledger
    ensures SpaceOk(s')
  {
    hide Valid;
  }

  lemma PlacedAtNextBase(s: Sys, s': Sys, t: Tid, h: u64, size: u64)
    requires SpaceOk(s) && s.space.nextBase + Reserved(size) < TWO_64
    requires h in s.ledger && s.ledger[h].owner == WithThread(t) && s.ledger[h].size == size
    requires s'.space == AllocateIn(s.space, h, size) && s'.ledger == Own(s, h, AtBase(s.space.nextBase))
    ensures SpaceOk(s')
  {
    hide Valid, Reserved;
    AllocateValid(s.space, h, size);
    forall b | b in s'.space.ranges
      ensures var r := s'.space.ranges[b];
              r.handle in s'.ledger && s'.ledger[r.handle].owner == AtBase(b) && s'.ledger[r.handle].size == r.size
    {
      if b != s.space.nextBase {
        assert b in s.space.ranges;
      }
    }
  }

  lemma FinishInv(s: Sys, t: Tid)
    requires Inv(s) && Enabled(s, Finish(t))
    ensures Inv(Finished(s, t)) && LedgerGrows(s, Finished(s, t))
  {
    hide LedgerOk, BlocksOk, WireOk, SpaceOk, MallocHandle, OneFrame, Reserved, AllocateIn;
    var thread, s' := ThreadOf(s, t), Finished(s, t);
    assert ThreadOk(s, t);
    PlacedSpaceOk(s, t);
    LocalMoveInv(s, s', t);
  }

  lemma RefusedInv(s: Sys, t: Tid)
    requires Inv(s) && Enabled(s, SendRefused(t))
    ensures Inv(Next(s, SendRefused(t))) && LedgerGrows(s, Next(s, SendRefused(t)))
  {
    hide EncodeRequest, EncodeResponse, LedgerOk, BlocksOk, WireOk, MallocHandle, OneFrame, AnswerTo;
    LocalMoveInv(s, Next(s, SendRefused(t)), t);
  }

  // ----- the wire

  lemma SendInv(s: Sys, t: Tid)
    requires Inv(s) && Enabled(s, Send(t))
    ensures Inv(Next(s, Send(t))) && LedgerGrows(s, Next(s, Send(t)))
  {
    hide LedgerOk, BlocksOk, SpaceOk, CallOk, EncodeRequest, EncodeResponse, RequestOf, OneFrame, GrantOk, AnswerTo;
    var s', c := Next(s, Send(t)), ThreadOf(s, t).call;
    assert ThreadOk(s, t);
    CallStays(s, s', c);
    forall u
      ensures ThreadOk(s', u)
    {
      assert ThreadOk(s, u);
      if u != t {
        StillOk(s, s', u);
      }
    }
    SameDaemon(s, s');
  }

  /** What the parts of the invariant look at. */
  lemma SameDaemon(s: Sys, s': Sys)
    requires s'.daemon == s.daemon && s'.ledger == s.ledger && s'.space == s.space
    ensures LedgerOk(s') == LedgerOk(s) && BlocksOk(s') == BlocksOk(s) && SpaceOk(s') == SpaceOk(s)
  {
  }

  lemma SendBreaksInv(s: Sys, t: Tid, k: nat)
    requires Inv(s) && Enabled(s, SendBreaks(t, k))
    ensures Inv(Next(s, SendBreaks(t, k))) && LedgerGrows(s, Next(s, SendBreaks(t, k)))
  {
    hide LedgerOk, BlocksOk, SpaceOk, CallOk, EncodeRequest, EncodeResponse, RequestOf, OneFrame, GrantOk, AnswerTo;
    var s', c := Next(s, SendBreaks(t, k)), ThreadOf(s, t).call;
    assert ThreadOk(s, t);
    CallStays(s, s', c);
    forall u
      ensures ThreadOk(s', u)
    {
      assert ThreadOk(s, u);
      if u != t {
        StillOk(s, s', u);
      }
    }
    SameDaemon(s, s');
  }

  lemma HangupInv(s: Sys)
    requires Inv(s)
    ensures Inv(Next(s, Hangup)) && LedgerGrows(s, Next(s, Hangup))
  {
    hide LedgerOk, BlocksOk, SpaceOk, CallOk, EncodeRequest, EncodeResponse, RequestOf, OneFrame, AnswerTo;
    var s' := Next(s, Hangup);
    forall u
      ensures ThreadOk(s', u)
    {
      assert ThreadOk(s, u);
      StillOk(s, s', u);
    }
    SameDaemon(s, s');
  }

  lemma ReceiveBreaksInv(s: Sys, t: Tid)
    requires Inv(s) && Enabled(s, ReceiveBreaks(t))
    ensures Inv(Next(s, ReceiveBreaks(t))) && LedgerGrows(s, Next(s, ReceiveBreaks(t)))
  {
    hide LedgerOk, BlocksOk, SpaceOk, CallOk, EncodeRequest, EncodeResponse, RequestOf, OneFrame, GrantOk, AnswerTo;
    var s' := Next(s, ReceiveBreaks(t));
    forall u
      ensures ThreadOk(s', u)
    {
      assert ThreadOk(s, u);
      if u != t {
        StillOk(s, s', u);
      }
    }
    if s.flying.Some? {
      CallStays(s, s', s.flying.value);
    }
    SameDaemon(s, s');
  }

  /** All there is to read is one reply: the daemon's answer to call `c`. */
  ghost predicate AtHand(s: Sys, c: Call) {
    && s.answer.Some? && s.flying.None?
    && ReadResponse(s.s2c) == Got(s.answer.value.resp, []) && |ResponseBody(s.answer.value.resp)| <= MAX_BODY_LEN
    && AnswerTo(s.daemon, c, s.answer.value) && GrantOk(s, c, s.answer.value.resp, InReply)
  }

  /** The reply a waiting thread takes off the wire is the daemon's answer to the call
      the thread is waiting for. */
  lemma DeliveredIsServed(s: Sys, t: Tid)
    requires Inv(s) && Enabled(s, Receive(t))
    ensures AtHand(s, ThreadOf(s, t).call)
  {
    hide LedgerOk, BlocksOk, SpaceOk, CallOk, EncodeRequest, EncodeResponse, RequestOf, OneFrame, GrantOk, AnswerTo;
    assert ThreadOk(s, t);
    if s.answer.Some? && s.flying.None? {
      NeverMisreadIffKeepsStep(s.answer.value.resp, []);
      ResponseRoundTrip(s.answer.value.resp, []);
      assert s.s2c + [] == s.s2c;
    }
  }

  /** Handing a granted handle from the wire to its thread. */
  lemma GrantMoves(s: Sys, s': Sys, h: nat, t: Tid)
    requires LedgerOk(s) && BlocksOk(s) && SpaceOk(s)
    requires s'.daemon == s.daemon && s'.space == s.space
    requires h in s.ledger && s.ledger[h].owner == InReply && s'.ledger == Own(s, h, WithThread(t))
    ensures LedgerOk(s') && BlocksOk(s') && SpaceOk(s') && LedgerGrows(s, s')
  {
    hide LedgerOk, BlocksOk, Valid;
    GrantKeepsLedger(s, s', h, t);
    OwnersMoveOnly(s, s');
  }

  lemma GrantKeepsLedger(s: Sys, s': Sys, h: nat, t: Tid)
    requires LedgerOk(s) && s'.daemon == s.daemon
    requires h in s.ledger && s.ledger[h].owner == InReply && s'.ledger == Own(s, h, WithThread(t))
    ensures LedgerOk(s') && LedgerGrows(s, s')
  {
  }

  /** The blocks do not depend on who may use them. */
  lemma OwnersMoveOnly(s: Sys, s': Sys)
    requires BlocksOk(s) && s'.daemon == s.daemon
    requires forall h :: h in s.ledger ==>
               h in s'.ledger && s'.ledger[h].realBase == s.ledger[h].realBase && s'.ledger[h].size == s.ledger[h].size
    ensures BlocksOk(s')
  {
    hide ValidDevice;
  }

  lemma ReceiveInv(s: Sys, t: Tid)
    requires Inv(s) && Enabled(s, Receive(t))
    ensures Inv(Next(s, Receive(t))) && LedgerGrows(s, Next(s, Receive(t)))
  {
    hide LedgerOk, BlocksOk, SpaceOk, EncodeRequest, EncodeResponse, RequestOf, OneFrame, CallOk, MallocHandle, ReadResponse, AnswerTo;
    DeliveredIsServed(s, t);
    var s', c := Next(s, Receive(t)), ThreadOf(s, t).call;
    var h := MallocHandle(s.answer.value.resp);
    assert ThreadOk(s, t);
    if c.CallMalloc? && h.Some? {
      GrantMoves(s, s', h.value, t);
    } else {
      SameDaemon(s, s');
    }
    forall u | u != t
      ensures ThreadOf(s, u).Waiting? ==> s'.lock == s.lock
    {
      assert ThreadOk(s, u);
    }
    ThreadsStay(s, s', t);
  }

  // ----- the daemon's step

  /** Only a whole frame is ever served, and it is the one that was sent. */
  lemma ServedIsSent(s: Sys)
    requires Inv(s) && ReadRequest(s.c2s).Got?
    ensures s.flying.Some? && CallOk(s, s.flying.value)
    ensures ReadRequest(s.c2s) == Got(RequestOf(s.flying.value), []) && Heard(s.flying.value)
  {
    hide LedgerOk, BlocksOk, SpaceOk, ThreadsOk, EncodeRequest, RequestOf, Body, CopyOk, SnapshotOk, GrantOk, AnswerTo;
    if s.flying.Some? {
      var e := EncodeRequest(RequestOf(s.flying.value));
      assert s.c2s == e[..|s.c2s|];
      RequestPrefixOrWhole(RequestOf(s.flying.value), |s.c2s|);
      RequestRoundTrip(RequestOf(s.flying.value), []);
      assert e + [] == e;
    }
  }

  lemma ReplyFits(d: State, c: Call, o: Outcome)
    requires OneFrame(c) && HipContract(d, RequestOf(c), o)
    requires c.CallOther? ==> TouchesNoAllocation(c.req)
    ensures KeepsStep(|ResponseBody(Handle(d, RequestOf(c), o).1)|)
  {
    hide Patch, DevMalloc, DevFree, Scan, Body, LE;
  }

  /** Malloc: a fresh handle, bound to a fresh block. */
  lemma ServeMallocParts(s: Sys, s': Sys, size: u64, o: Outcome)
    requires LedgerOk(s) && BlocksOk(s) && SpaceOk(s)
    requires HipContract(s.daemon, Malloc(size), o) && o.ok && s.daemon.handles.nextId + 1 < TWO_64
    requires s'.space == s.space && s'.daemon == HandleMalloc(s.daemon, size, o).0
    requires s'.ledger == s.ledger[s.daemon.handles.nextId := Entry(o.ptr, size, InReply)]
    ensures LedgerOk(s') && BlocksOk(s') && SpaceOk(s') && LedgerGrows(s, s')
  {
    hide HipContract, BlocksOk, Valid, DevMalloc, LE;
    MallocBlocks(s, s', size, o);
  }

  lemma MallocBlocks(s: Sys, s': Sys, size: u64, o: Outcome)
    requires LedgerOk(s) && BlocksOk(s)
    requires HipContract(s.daemon, Malloc(size), o) && o.ok
    requires s'.daemon == HandleMalloc(s.daemon, size, o).0
    requires s'.ledger == s.ledger[s.daemon.handles.nextId := Entry(o.ptr, size, InReply)]
    ensures BlocksOk(s')
  {
    hide ValidDevice, LE;
    MallocDevice(s.daemon, size, o);
    var id := s.daemon.handles.nextId;
    forall h | h in s'.daemon.handles.entries
      ensures h in s'.ledger && BlockOf(s'.daemon.dev, s'.ledger[h])
      ensures h != id && size > 0 ==> s'.ledger[h].size == 0 || s'.ledger[h].realBase != o.ptr
    {
      if h != id {
        assert h in s.daemon.handles.entries && BlockOf(s.daemon.dev, s.ledger[h]);
      }
    }
  }

  lemma MallocDevice(d: State, size: u64, o: Outcome)
    requires ValidDevice(d.dev) && HipContract(d, Malloc(size), o) && o.ok
    ensures ValidDevice(DevMalloc(d.dev, size, o))
  {
    if size > 0 {
      var dev := DevMalloc(d.dev, size, o);
      forall b | b in d.dev.blocks
        ensures b + d.dev.blocks[b] <= o.ptr || o.ptr + size <= b
      {
        MeetsNoBlock(d.dev, b, o.ptr, size);
      }
      forall b, a | b in dev.blocks && b <= a < b + dev.blocks[b]
        ensures a in dev.mem
      {
        if b != o.ptr {
          assert a in d.dev.mem;
        }
      }
    }
  }

  lemma MeetsNoBlock(dev: Device, b: nat, ptr: nat, size: nat)
    requires ValidDevice(dev) && b in dev.blocks && size > 0
    requires forall a :: ptr <= a < ptr + size ==> a !in dev.mem
    ensures b + dev.blocks[b] <= ptr || ptr + size <= b
  {
    var a := if b < ptr then ptr else b;
    assert b <= a < b + dev.blocks[b] ==> a in dev.mem;
    assert ptr <= a < ptr + size ==> a !in dev.mem;
  }

  /** Free: the handle is unbound for good, and every other block stands. */
  lemma ServeFreeParts(s: Sys, s': Sys, h: u64, o: Outcome)
    requires LedgerOk(s) && BlocksOk(s) && SpaceOk(s)
    requires h in s.ledger && s.ledger[h].owner == Gone
    requires s'.space == s.space && s'.daemon == HandleFree(s.daemon, h, o).0 && s'.ledger == s.ledger
    ensures LedgerOk(s') && BlocksOk(s') && SpaceOk(s') && LedgerGrows(s, s')
  {
    hide BlocksOk, Valid, DevFree;
    FreeBlocks(s, s', h, o);
  }

  lemma FreeBlocks(s: Sys, s': Sys, h: u64, o: Outcome)
    requires LedgerOk(s) && BlocksOk(s) && h in s.ledger
    requires s'.daemon == HandleFree(s.daemon, h, o).0 && s'.ledger == s.ledger
    ensures BlocksOk(s')
  {
    hide ValidDevice, DevFree;
    if h in s.daemon.handles.entries {
      var ptr := s.daemon.handles.entries[h];
      FreeDevice(s.daemon.dev, ptr);
      forall g | g in s'.daemon.handles.entries
        ensures g in s'.ledger && BlockOf(s'.daemon.dev, s'.ledger[g])
      {
        assert g in s.daemon.handles.entries && g != h;
        assert BlockOf(s.daemon.dev, s.ledger[g]);
      }
    }
  }

  lemma FreeDevice(dev: Device, ptr: nat)
    requires ValidDevice(dev)
    ensures var d := DevFree(dev, ptr);
            && ValidDevice(d)
            && forall b :: b in dev.blocks && b != ptr ==> b in d.blocks && d.blocks[b] == dev.blocks[b]
  {
  }

  /** Everything else leaves the table, the blocks and the live addresses alone. */
  lemma ServeRestParts(s: Sys, s': Sys)
    requires LedgerOk(s) && BlocksOk(s) && SpaceOk(s)
    requires s'.space == s.space && s'.ledger == s.ledger && s'.daemon.handles == s.daemon.handles
    requires s'.daemon.dev.blocks == s.daemon.dev.blocks && s'.daemon.dev.mem.Keys == s.daemon.dev.mem.Keys
    ensures LedgerOk(s') && BlocksOk(s') && SpaceOk(s') && LedgerGrows(s, s')
  {
    hide Valid;
  }

  lemma ServeRestKeeps(s: Sys, o: Outcome, r: Request)
    requires HipContract(s.daemon, r, o) && !r.Free? && !(r.Malloc? && o.ok)
    ensures var d := Handle(s.daemon, r, o).0;
            && d.handles == s.daemon.handles && d.dev.blocks == s.daemon.dev.blocks
            && d.dev.mem.Keys == s.daemon.dev.mem.Keys
  {
    hide Patch, LE;
  }

  lemma ServeParts(s: Sys, o: Outcome)
    requires Inv(s) && Enabled(s, Serve(o))
    ensures var s' := Next(s, Serve(o));
            LedgerOk(s') && BlocksOk(s') && SpaceOk(s') && LedgerGrows(s, s')
  {
    hide LedgerOk, BlocksOk, SpaceOk, ThreadsOk, WireOk, HipContract, EncodeResponse, Body, Scan, HandleMalloc, HandleFree, HandleH2D, HandleLaunch, AnswerTo;
    ServedIsSent(s);
    var s', c := Next(s, Serve(o)), s.flying.value;
    var r := RequestOf(c);
    if c.CallFree? {
      ServeFreeParts(s, s', c.handle, o);
    } else if c.CallMalloc? && o.ok {
      ServeMallocParts(s, s', c.size, o);
    } else {
      ServeRestKeeps(s, o, r);
      ServeRestParts(s, s');
    }
  }

  /** The reply keeps the two ends in step, and a malloc reply grants the handle just
      issued. */
  lemma ReplyGrants(s: Sys, c: Call, o: Outcome)
    requires LedgerOk(s) && CallOk(s, c) && Enabled(s, Serve(o)) && ReadRequest(s.c2s) == Got(RequestOf(c), [])
    ensures var s' := Next(s, Serve(o));
            s'.answer.Some? && KeepsStep(|ResponseBody(s'.answer.value.resp)|) && GrantOk(s', c, s'.answer.value.resp, InReply)
  {
    hide LedgerOk, EncodeResponse, Body, Scan, Patch, LE, FromLE, HandleFree, HandleH2D, HandleLaunch, CopyOk, SnapshotOk;
    ReplyFits(s.daemon, c, o);
    if c.CallMalloc? {
      U64OfLE(s.daemon.handles.nextId);
    }
  }

  lemma ReplyAnswers(s: Sys, c: Call, o: Outcome)
    requires CallOk(s, c) && Heard(c) && Enabled(s, Serve(o)) && ReadRequest(s.c2s) == Got(RequestOf(c), [])
    ensures var s' := Next(s, Serve(o));
            s'.answer.Some? && s'.answer.value.o == o && s'.answer.value.before == s.daemon && AnswerTo(s'.daemon, c, s'.answer.value)
  {
    hide Handle, HipContract, EncodeResponse, ReadRequest, RequestOf;
  }

  lemma ServeInv(s: Sys, o: Outcome)
    requires Inv(s) && Enabled(s, Serve(o))
    ensures Inv(Next(s, Serve(o))) && LedgerGrows(s, Next(s, Serve(o)))
  {
    hide LedgerOk, BlocksOk, SpaceOk, HipContract, EncodeResponse, EncodeRequest, Body, Scan, Handle, CallOk, ThreadOk, GrantOk, AnswerTo;
    ServedIsSent(s);
    ServeParts(s, o);
    ReplyGrants(s, s.flying.value, o);
    ReplyAnswers(s, s.flying.value, o);
    var s' := Next(s, Serve(o));
    FreshEntry(s, o);
    forall u
      ensures ThreadOk(s', u)
    {
      assert ThreadOk(s, u);
      StillOk(s, s', u);
    }
  }

  lemma FreshEntry(s: Sys, o: Outcome)
    requires LedgerOk(s) && Enabled(s, Serve(o))
    ensures forall h :: h in s.ledger ==> h in Next(s, Serve(o)).ledger && Next(s, Serve(o)).ledger[h] == s.ledger[h]
  {
    hide Handle, HipContract, EncodeResponse, AnswerTo;
  }

  // ----- every step, every run

  lemma PlainCallOk(s: Sys, c: Call)
    requires c.CallMalloc? || (c.CallOther? && TouchesNoAllocation(c.req) && |Body(c.req)| < TWO_32)
    ensures CallOk(s, c)
  {
  }

  lemma StepInv(s: Sys, step: Step)
    requires Inv(s) && Enabled(s, step) && InStep(step)
    ensures Inv(Next(s, step)) && LedgerGrows(s, Next(s, step))
  {
    hide LedgerOk, BlocksOk, SpaceOk, ThreadsOk, WireOk, EncodeRequest, EncodeResponse, Handle, HipContract, ReadResponse, ReadRequest, RequestOf, AnswerTo;
    match step
    case BeginMalloc(t, size, keep) => PlainCallOk(s, CallMalloc(size, keep)); BeginInv(s, t, CallMalloc(size, keep));
    case BeginFree(t, ptr) => BeginFreeInv(s, t, ptr);
    case BeginH2D(_, _, _) => BeginCopyInv(s, step);
    case BeginD2H(_, _, _) => BeginCopyInv(s, step);
    case BeginLaunch(_, _, _, _, _, _) => BeginLaunchInv(s, step);
    case BeginOther(t, req) => PlainCallOk(s, CallOther(req)); BeginInv(s, t, CallOther(req));
    case Send(t) => SendInv(s, t);
    case SendBreaks(t, k) => SendBreaksInv(s, t, k);
    case SendRefused(t) => RefusedInv(s, t);
    case Serve(o) => ServeInv(s, o);
    case Hangup => HangupInv(s);
    case Receive(t) => ReceiveInv(s, t);
    case ReceiveBreaks(t) => ReceiveBreaksInv(s, t);
    case Finish(t) => FinishInv(s, t);
  }

  lemma {:induction false} RunInv(s: Sys, steps: seq<Step>)
    requires Inv(s) && IsRun(s, steps) && AllInStep(steps)
    ensures Inv(RunTo(s, steps)) && LedgerGrows(s, RunTo(s, steps))
    decreases steps
  {
    hide Inv, Enabled, Next;
    if steps != [] {
      StepInv(s, steps[0]);
      RunInv(Next(s, steps[0]), steps[1..]);
    }
  }

  // ----- what it means

  /** On every run from the start, whatever the interleaving and however many replies
      were lost: live ranges carry distinct handles, each bound in the daemon, to the
      block it was issued for. */
  lemma LiveHandlesDistinctAndBound(dev: Device, steps: seq<Step>)
    requires ValidDevice(dev) && IsRun(InitialState(dev), steps) && AllInStep(steps)
    ensures var s := RunTo(InitialState(dev), steps);
            && (forall b, c :: b in s.space.ranges && c in s.space.ranges && b != c ==>
                  s.space.ranges[b].handle != s.space.ranges[c].handle)
            && (forall b :: b in s.space.ranges ==>
                  var r := s.space.ranges[b];
                  && r.handle in s.daemon.handles.entries
                  && (r.size > 0 ==> InBlock(s.daemon.dev, s.daemon.handles.entries[r.handle], 0, r.size)))
  {
    hide Enabled, Next, ThreadsOk, WireOk;
    InitialInv(dev);
    RunInv(InitialState(dev), steps);
  }

  /** After the connection broke nothing more is written to the daemon, and it stays
      broken. */
  lemma {:induction false} NothingSentAfterDrop(s: Sys, steps: seq<Step>)
    requires Inv(s) && IsRun(s, steps) && AllInStep(steps) && !s.up
    ensures !RunTo(s, steps).up
    ensures RunTo(s, steps).c2s == s.c2s || RunTo(s, steps).c2s == []
    decreases steps
  {
    hide LedgerOk, BlocksOk, SpaceOk, ThreadsOk, WireOk;
    if steps != [] {
      DownStep(s, steps[0]);
      StepInv(s, steps[0]);
      NothingSentAfterDrop(Next(s, steps[0]), steps[1..]);
    }
  }

  lemma DownStep(s: Sys, step: Step)
    requires Inv(s) && Enabled(s, step) && !s.up
    ensures !Next(s, step).up && (Next(s, step).c2s == s.c2s || Next(s, step).c2s == [])
  {
    hide LedgerOk, BlocksOk, SpaceOk, ThreadsOk, Handle, HipContract, EncodeRequest, EncodeResponse, RequestOf, ReadResponse, AnswerTo;
    if step.Serve? {
      ServedIsSent(s);
    }
  }

  lemma ReadyOneFrame(s: Sys, t: Tid)
    requires ThreadsOk(s) && ThreadOf(s, t).Ready?
    ensures CallOk(s, ThreadOf(s, t).call) && OneFrame(ThreadOf(s, t).call)
  {
    hide OneFrame;
    assert ThreadOk(s, t);
  }

  /** A frame that was cut short is never executed, not even in part. */
  lemma TornFrameNeverServed(s: Sys, t: Tid, k: nat, o: Outcome)
    requires Inv(s) && Enabled(s, SendBreaks(t, k)) && k < |EncodeRequest(RequestOf(ThreadOf(s, t).call))|
    ensures !Enabled(Next(s, SendBreaks(t, k)), Serve(o))
  {
    hide LedgerOk, BlocksOk, SpaceOk, ThreadOk, CallOk, EncodeRequest, RequestOf, Body, HipContract;
    var r := RequestOf(ThreadOf(s, t).call);
    ReadyOneFrame(s, t);
    RequestPrefixOrWhole(r, k);
    assert s.c2s + EncodeRequest(r)[..k] == EncodeRequest(r)[..k];
  }
}
