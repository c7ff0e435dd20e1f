/** The stub's HIP entry points, run one call at a time against the daemon. Every
    statement that touches the wire or the address space is paired with a step of the
    two-process system, so what is proved of that system holds of these methods. */
module HipStub {
  import opened Basics
  import opened Bytes
  import opened HipStatus
  import opened Utf8
  import opened Protocol
  import opened ProtocolStream
  import opened FakeAddresses
  import opened HandleTables
  import opened KernelArgs
  import opened Daemon
  import opened Bridge
  import opened BridgeSafety
  import opened CopyBounds
  import opened BridgeRefinement
  import opened BridgeReplies

  /** What the connection does during one exchange. */
  datatype Fault = Works | WriteFails(k: nat) | ReadFails

  lemma SilentBefore(f: Flat, g: Flat, e: Event, h: Flat)
    requires FlatNext(f, Silent, g) && FlatNext(g, e, h)
    ensures FlatNext(f, e, h)
  {
  }

  lemma SilentAfter(f: Flat, e: Event, g: Flat, h: Flat)
    requires FlatNext(f, e, g) && FlatNext(g, Silent, h)
    ensures FlatNext(f, e, h)
  {
  }

  /** The daemon answered `resp`, with `ev` the effect on the flat device. */
  ghost predicate Exchanged(d: State, c: Call, o: Outcome, resp: Response, ev: Event, d': State)
    requires OneFrame(c)
  {
    && (d', resp) == Handle(d, RequestOf(c), o)
    && match c
       case CallH2D(ptr, _, _, data) => ev == if resp.Ok? then Wrote(ptr, data) else Silent
       case CallD2H(ptr, _, _, _) => ev == if resp.Ok? then ReadBack(ptr, resp.body) else Silent
       case CallLaunch(_, _, _, _, _, _) => ev == if resp.Ok? then KernelRan else Silent
       case _ => ev == Silent
  }

  /** No reply came: either nothing happened, or the request was carried out. */
  ghost predicate Lost(d: State, c: Call, o: Outcome, ev: Event, d': State)
    requires OneFrame(c)
  {
    (ev == Silent && d' == d) || Exchanged(d, c, o, Handle(d, RequestOf(c), o).1, ev, d')
  }

  /** Nothing goes wrong on the way: the connection is there, both writes and reads work,
      and request and reply each fit a frame. */
  ghost predicate Completes(up: bool, fault: Fault, d: State, req: Request, o: Outcome) {
    up && fault.Works? && |Body(req)| <= MAX_BODY_LEN && |ResponseBody(Handle(d, req, o).1)| <= MAX_BODY_LEN
  }

  /** What the daemon keeps through any request: its modules and functions, and with them
      what HIP's pointers stand for. */
  ghost predicate Kept(d: State, d': State) {
    && (forall m :: m in d.modules.entries ==> m in d'.modules.entries && d'.modules.entries[m] == d.modules.entries[m])
    && (forall f :: f in d.functions.entries ==> f in d'.functions.entries && d'.functions.entries[f] == d.functions.entries[f])
    && d'.dev.hip == d.dev.hip
  }

  lemma HandleKeeps(d: State, r: Request, o: Outcome)
    requires ValidTable(d.modules) && ValidTable(d.functions)
    ensures Kept(d, Handle(d, r, o).0)
  {
    hide Patch, LE;
  }

  lemma ExchangedAnswer(d: State, c: Call, o: Outcome, resp: Response, ev: Event, d': State)
    requires OneFrame(c) && Exchanged(d, c, o, resp, ev, d')
    ensures resp == Handle(d, RequestOf(c), o).1
  {
  }

  /** A copy whose range is live, as it is when calls come one at a time. */
  ghost predicate Live(s: Sys, c: Call) {
    && (c.CallH2D? ==> c.handle in s.ledger && s.ledger[c.handle].owner.AtBase?)
    && (c.CallD2H? ==> c.handle in s.ledger && s.ledger[c.handle].owner.AtBase?)
  }

  /** From `s` to `s'` the flat device makes step `ev`, if call `c` is not a copy that
      runs past its allocation. */
  ghost predicate Moves(s: Sys, c: Call, ev: Event, s': Sys) {
    CopyMeets(s, c, Fits) ==> FlatNext(FlatOf(s), ev, FlatOf(s'))
  }

  // ----- one exchange, as steps

  /** Thread 0 holds the connection, its request is on the wire. */
  ghost predicate Sent(s: Sys, c: Call) {
    && Inv(s) && s.up && s.serving && s.lock == Some(0) && ThreadOf(s, 0) == Waiting(c)
    && s.flying == Some(c) && s.answer.None? && Live(s, c)
  }

  lemma AfterSend(s: Sys, c: Call)
    requires Inv(s) && s.up && s.serving && s.lock.None? && ThreadOf(s, 0) == Ready(c) && CallOk(s, c) && Live(s, c)
    ensures Enabled(s, Send(0)) && s.c2s == [] && s.s2c == []
    ensures var s' := Next(s, Send(0));
            && Sent(s', c) && LedgerGrows(s, s') && s'.space == s.space && s'.daemon == s.daemon
            && s'.c2s == EncodeRequest(RequestOf(c)) && s'.s2c == []
            && FlatNext(FlatOf(s), Silent, FlatOf(s'))
  {
    hide LedgerOk, BlocksOk, SpaceOk, ThreadsOk, EncodeRequest, RequestOf, FlatByte;
    StepInv(s, Send(0));
    NothingMoved(s, Next(s, Send(0)));
  }

  lemma AfterServe(s: Sys, c: Call, o: Outcome)
    requires Sent(s, c) && ReadRequest(s.c2s).Got? && HipContract(s.daemon, RequestOf(c), o) && s.daemon.handles.nextId + 1 < TWO_64
    ensures ReadRequest(s.c2s) == Got(RequestOf(c), []) && Enabled(s, Serve(o))
    ensures var s', ev := Next(s, Serve(o)), ServeEvent(s, o);
            && Inv(s') && LedgerGrows(s, s') && s'.up && s'.serving && s'.lock == Some(0) && ThreadOf(s', 0) == Waiting(c)
            && s'.space == s.space && s'.answer.Some?
            && (s'.daemon, s'.answer.value.resp) == Handle(s.daemon, RequestOf(c), o)
            && Exchanged(s.daemon, c, o, s'.answer.value.resp, ev, s'.daemon)
            && s'.c2s == [] && s'.s2c == s.s2c + EncodeResponse(s'.answer.value.resp)
            && Heard(c) && Moves(s, c, ev, s')
  {
    hide Inv, Live, LedgerGrows, FlatNext, FlatOf, Enabled, Next, EncodeRequest, EncodeResponse, HipContract, Handle, ServeEvent, Exchanged,
         ReadRequest, RequestOf, Body, KeepsStep, CopyMeets;
    ServedIsSent(s);
    ServedFrame(s, c, o);
    StepInv(s, Serve(o));
    if CopyMeets(s, c, Fits) {
      ServedStep(s, o);
    }
    ServedExchange(s, c, o);
  }

  lemma ServedFrame(s: Sys, c: Call, o: Outcome)
    requires s.serving && HasRequest(c) && ReadRequest(s.c2s) == Got(RequestOf(c), [])
    requires HipContract(s.daemon, RequestOf(c), o) && s.daemon.handles.nextId + 1 < TWO_64
    ensures Enabled(s, Serve(o))
    ensures var s' := Next(s, Serve(o));
            && (s'.up, s'.serving, s'.lock, s'.threads, s'.space) == (s.up, s.serving, s.lock, s.threads, s.space)
            && s'.answer.Some? && (s'.daemon, s'.answer.value.resp) == Handle(s.daemon, RequestOf(c), o)
            && s'.c2s == [] && s'.s2c == s.s2c + EncodeResponse(s'.answer.value.resp)
  {
    hide EncodeResponse, HipContract, Handle, ReadRequest, RequestOf;
  }

  lemma ServedExchange(s: Sys, c: Call, o: Outcome)
    requires Sent(s, c) && CallOk(s, c) && Enabled(s, Serve(o)) && ReadRequest(s.c2s) == Got(RequestOf(c), [])
    requires HipContract(s.daemon, RequestOf(c), o) && s.daemon.handles.nextId + 1 < TWO_64
    ensures OneFrame(c) && Next(s, Serve(o)).answer.Some?
    ensures Exchanged(s.daemon, c, o, Next(s, Serve(o)).answer.value.resp, ServeEvent(s, o), Next(s, Serve(o)).daemon)
  {
    hide LedgerOk, BlocksOk, ThreadsOk, Enabled, Next, EncodeRequest, EncodeResponse, Handle, ServeEvent, OneFrame, RequestOf, ReadRequest, StillThere;
    ServedTells(s, o, c);
    ServedFrame(s, c, o);
    if c.CallH2D? || c.CallD2H? {
      StillThereIff(s, c);
    }
  }

  lemma AfterReceive(s: Sys, c: Call)
    requires Inv(s) && s.up && s.lock == Some(0) && ThreadOf(s, 0) == Waiting(c) && s.answer.Some? && ReadResponse(s.s2c).Got?
    ensures Enabled(s, Receive(0)) && ReadResponse(s.s2c) == Got(s.answer.value.resp, [])
    ensures |ResponseBody(s.answer.value.resp)| <= MAX_BODY_LEN
    ensures var s' := Next(s, Receive(0));
            && Inv(s') && LedgerGrows(s, s') && s'.up && s'.serving == s.serving && s'.lock.None?
            && ThreadOf(s', 0) == Replied(c, s.answer.value.resp) && s'.space == s.space && s'.daemon == s.daemon
            && s'.c2s == s.c2s && s'.s2c == [] && FlatNext(FlatOf(s), Silent, FlatOf(s'))
  {
    hide LedgerOk, BlocksOk, SpaceOk, ThreadsOk, FlatByte, ReadResponse;
    DeliveredIsServed(s, 0);
    StepInv(s, Receive(0));
    NothingMoved(s, Next(s, Receive(0)));
  }

  /** The connection is given up: nothing of the device moves, and the call has failed. */
  lemma AfterBreak(s: Sys, step: Step)
    requires Inv(s) && Enabled(s, step)
    requires step == ReceiveBreaks(0) || step == SendRefused(0) || (step.SendBreaks? && step.t == 0)
    ensures var s' := Next(s, step);
            && Inv(s') && LedgerGrows(s, s') && !s'.up && s'.lock.None? && ThreadOf(s', 0) == Idle
            && s'.space == s.space && s'.daemon == s.daemon && FlatNext(FlatOf(s), Silent, FlatOf(s'))
  {
    hide LedgerOk, BlocksOk, SpaceOk, ThreadsOk, FlatByte, EncodeRequest, RequestOf;
    StepInv(s, step);
    NothingMoved(s, Next(s, step));
  }

  lemma AfterHangup(s: Sys, c: Call)
    requires Sent(s, c)
    ensures Enabled(s, Hangup)
    ensures var s' := Next(s, Hangup);
            && Inv(s') && LedgerGrows(s, s') && s'.up && s'.lock == Some(0) && ThreadOf(s', 0) == Waiting(c)
            && s'.space == s.space && s'.daemon == s.daemon && s'.answer.None? && FlatNext(FlatOf(s), Silent, FlatOf(s'))
  {
    hide LedgerOk, BlocksOk, SpaceOk, ThreadsOk, FlatByte;
    StepInv(s, Hangup);
    NothingMoved(s, Next(s, Hangup));
  }

  lemma Sendable(s: Sys, c: Call)
    requires Inv(s) && s.lock.None? && ThreadOf(s, 0) == Ready(c) && CallOk(s, c)
    ensures OneFrame(c)
    ensures !s.up ==> Enabled(s, SendRefused(0))
    ensures s.up ==> forall k: nat :: k <= |EncodeRequest(RequestOf(c))| ==> Enabled(s, SendBreaks(0, k))
  {
    hide Inv, EncodeRequest, RequestOf, Body;
  }

  /** The daemon can read a request exactly if it fits a frame. */
  lemma SentHeard(s: Sys, c: Call)
    requires Sent(s, c)
    ensures HasRequest(c) && (ReadRequest(s.c2s).Got? <==> Heard(c))
  {
    hide LedgerOk, BlocksOk, SpaceOk, ThreadsOk, EncodeRequest, ReadRequest, RequestOf, Body, GrantOk, AnswerTo, CopyOk, SnapshotOk;
    RequestRoundTrip(RequestOf(c), []);
    assert EncodeRequest(RequestOf(c)) + [] == EncodeRequest(RequestOf(c));
  }

  /** And the stub a reply. */
  lemma ReplyReadable(s: Sys, c: Call)
    requires Inv(s) && s.up && s.lock == Some(0) && ThreadOf(s, 0) == Waiting(c) && s.answer.Some?
    ensures ReadResponse(s.s2c).Got? <==> |ResponseBody(s.answer.value.resp)| <= MAX_BODY_LEN
  {
    hide LedgerOk, BlocksOk, SpaceOk, ThreadsOk, EncodeRequest, RequestOf, EncodeResponse, ReadResponse, GrantOk, AnswerTo, CallOk;
    var resp := s.answer.value.resp;
    ResponseRoundTrip(resp, []);
    NeverMisreadIffKeepsStep(resp, []);
    assert EncodeResponse(resp) + [] == EncodeResponse(resp);
  }

  lemma Breakable(s: Sys, c: Call)
    requires s.lock == Some(0) && ThreadOf(s, 0) == Waiting(c)
    ensures Enabled(s, ReceiveBreaks(0))
  {
  }

  /** Two stretches of a call, one of them invisible to the flat device. */
  lemma Then(s0: Sys, s1: Sys, e: Event, s2: Sys, f: Event)
    requires LedgerGrows(s0, s1) && LedgerGrows(s1, s2) && (e == Silent || f == Silent)
    requires FlatNext(FlatOf(s0), e, FlatOf(s1)) && FlatNext(FlatOf(s1), f, FlatOf(s2))
    ensures LedgerGrows(s0, s2) && FlatNext(FlatOf(s0), if e == Silent then f else e, FlatOf(s2))
  {
    hide FlatOf;
    if e == Silent {
      SilentBefore(FlatOf(s0), FlatOf(s1), f, FlatOf(s2));
    } else {
      SilentAfter(FlatOf(s0), e, FlatOf(s1), FlatOf(s2));
    }
  }

  lemma ThenFor(c: Call, s0: Sys, s1: Sys, e: Event, s2: Sys, f: Event)
    requires LedgerGrows(s0, s1) && LedgerGrows(s1, s2) && (e == Silent || f == Silent)
    requires Moves(s0, c, e, s1) && Moves(s1, c, f, s2)
    ensures LedgerGrows(s0, s2) && Moves(s0, c, if e == Silent then f else e, s2)
  {
    hide LedgerGrows, FlatNext, FlatOf, CopyMeets;
    if CopyMeets(s0, c, Fits) {
      MeetsStays(s0, s1, c, Fits);
      Then(s0, s1, e, s2, f);
    }
    GrowsOn(s0, s1, s2);
  }

  lemma GrowsOn(s0: Sys, s1: Sys, s2: Sys)
    requires LedgerGrows(s0, s1) && LedgerGrows(s1, s2)
    ensures LedgerGrows(s0, s2)
  {
  }

  // ----- the stub

  class Stub {
    const space: AddressSpace
    const daemon: DaemonProcess
    const outgoing: Stream
    const incoming: Stream
    var connected: bool
    var lastError: int
    var nextFatbinId: u64
    var fatbins: map<u64, u64>           // module handle by token
    var functionRegistry: map<u64, u64>  // function handle by host pointer
    ghost var sys: Sys

    /** The objects are at rest in the state `sys` says. */
    ghost predicate Valid()
      reads this, space, daemon, daemon.handles, daemon.modules, daemon.functions, outgoing, incoming
    {
      && outgoing != incoming && daemon.Valid() && FakeAddresses.Valid(space.View())
      && sys.space == space.View() && sys.daemon == daemon.View() && sys.up == connected
      && (connected ==> sys.serving && sys.c2s == outgoing.bytes && sys.s2c == incoming.bytes)
      && sys.lock.None? && Inv(sys)
    }

    constructor (dev: Device)
      requires ValidDevice(dev)
      ensures Valid() && connected && ThreadOf(sys, 0).Idle? && sys == InitialState(dev)
      ensures fresh(space) && fresh(daemon) && fresh(outgoing) && fresh(incoming)
      ensures fresh(daemon.handles) && fresh(daemon.modules) && fresh(daemon.functions)
    {
      space := new AddressSpace();
      daemon := new DaemonProcess(dev);
      outgoing := new Stream();
      incoming := new Stream();
      connected, lastError := true, HIP_SUCCESS;
      nextFatbinId, fatbins, functionRegistry := 1, map[], map[];
      sys := InitialState(dev);
      new;
      InitialInv(dev);
    }

    /** In the middle of an exchange. */
    ghost predicate Linked()
      reads this, space, daemon, daemon.handles, daemon.modules, daemon.functions, outgoing, incoming
    {
      && outgoing != incoming && daemon.Valid() && FakeAddresses.Valid(space.View())
      && sys.space == space.View() && sys.daemon == daemon.View() && connected && sys.up && Inv(sys)
    }

    /** The daemon's turn: it answers the frame, or drops a connection it cannot read. */
    method AwaitDaemon(ghost c: Call, o: Outcome) returns (served: bool, ghost ev: Event)
      requires Linked() && daemon.Room(1) && Sent(sys, c) && HipContract(daemon.View(), RequestOf(c), o)
      requires sys.c2s == outgoing.bytes && sys.s2c == incoming.bytes
      modifies this`sys, daemon, daemon.handles, daemon.modules, daemon.functions, outgoing, incoming
      ensures Linked() && sys.lock == Some(0) && ThreadOf(sys, 0) == Waiting(c) && sys.space == old(sys).space
      ensures LedgerGrows(old(sys), sys) && Moves(old(sys), c, ev, sys)
      ensures served <==> Heard(c)
      ensures Kept(old(daemon.View()), daemon.View())
      ensures served ==> sys.serving && sys.c2s == outgoing.bytes && sys.s2c == incoming.bytes && sys.answer.Some?
                         && Exchanged(old(daemon.View()), c, o, sys.answer.value.resp, ev, daemon.View())
      ensures !served ==> ev == Silent && daemon.View() == old(daemon.View())
    {
      hide Inv, Next, Enabled, FlatNext, CopyMeets, LedgerGrows, EncodeRequest, EncodeResponse, RequestOf, ReadRequest, HipContract, Exchanged, Handle, FakeAddresses.Valid;
      ghost var s := sys;
      SentHeard(s, c);
      HandleKeeps(daemon.View(), RequestOf(c), o);
      served := daemon.ServeOne(outgoing, incoming, o);
      if served {
        AfterServe(s, c, o);
        ev := ServeEvent(s, o);
        sys := Next(s, Serve(o));
      } else {
        ev := Silent;
        AfterHangup(s, c);
        sys := Next(s, Hangup);
      }
    }

    /** The stub's turn: it takes the reply, or gives the connection up. */
    method Collect(ghost c: Call, readable: bool) returns (r: Option<Response>)
      requires Linked() && sys.lock == Some(0) && ThreadOf(sys, 0) == Waiting(c)
      requires readable ==> sys.serving && sys.c2s == outgoing.bytes && sys.s2c == incoming.bytes && sys.answer.Some?
      modifies this`sys, this`connected, incoming
      ensures Valid() && sys.space == old(sys).space && sys.daemon == old(sys).daemon
      ensures LedgerGrows(old(sys), sys) && FlatNext(FlatOf(old(sys)), Silent, FlatOf(sys))
      ensures ThreadOf(sys, 0) == if r.Some? then Replied(c, r.value) else Idle
      ensures (r.Some? <==> connected) && (r.Some? <==> readable && |ResponseBody(old(sys).answer.value.resp)| <= MAX_BODY_LEN)
      ensures r.Some? ==> Reply(old(sys)) == r
    {
      hide Inv, Next, Enabled, FlatNext, LedgerGrows, ReadResponse, FakeAddresses.Valid;
      var got: Read<Response> := Eof;
      ghost var s := sys;
      if readable {
        ReplyReadable(s, c);
        got := ReadResponseFrom(incoming);
      }
      if got.Got? {
        AfterReceive(s, c);
        sys := Next(s, Receive(0));
        r := Some(got.value);
      } else {
        Breakable(s, c);
        AfterBreak(s, ReceiveBreaks(0));
        sys := Next(s, ReceiveBreaks(0));
        connected := false;
        r := None;
      }
    }

    /** The exchange on a connection that takes the whole request. */
    method OverTheWire(req: Request, ghost c: Call, o: Outcome, readFails: bool) returns (r: Option<Response>, ghost ev: Event)
      requires Valid() && connected && daemon.Room(1) && ThreadOf(sys, 0) == Ready(c) && CallOk(sys, c) && Live(sys, c)
      requires req == RequestOf(c) && HipContract(daemon.View(), req, o)
      modifies this`connected, this`sys, daemon, daemon.handles, daemon.modules, daemon.functions, outgoing, incoming
      ensures Valid() && sys.space == old(sys).space
      ensures LedgerGrows(old(sys), sys) && Moves(old(sys), c, ev, sys)
      ensures ThreadOf(sys, 0) == if r.Some? then Replied(c, r.value) else Idle
      ensures r.Some? <==> connected
      ensures connected <==> Completes(true, if readFails then ReadFails else Works, old(daemon.View()), req, o)
      ensures connected ==> r == Some(Handle(old(daemon.View()), req, o).1)
      ensures Kept(old(daemon.View()), daemon.View())
      ensures r.Some? ==> Exchanged(old(daemon.View()), c, o, r.value, ev, daemon.View())
      ensures r.None? ==> Lost(old(daemon.View()), c, o, ev, daemon.View())
    {
      hide Inv, Next, Enabled, FlatNext, CopyMeets, LedgerGrows, Handle, EncodeRequest, EncodeResponse, RequestOf, HipContract, CallOk, Exchanged, Kept,
           FakeAddresses.Valid;
      Sendable(sys, c);
      ghost var s0 := sys;
      AfterSend(sys, c);
      WriteRequest(req, outgoing);
      sys := Next(sys, Send(0));
      assert outgoing.bytes == sys.c2s;
      ghost var s1 := sys;
      var served;
      served, ev := AwaitDaemon(c, o);
      ghost var s2 := sys;
      ThenFor(c, s0, s1, Silent, s2, ev);
      ghost var d := daemon.View();
      if served {
        ExchangedAnswer(s1.daemon, c, o, sys.answer.value.resp, ev, d);
      }
      r := Collect(c, served && !readFails);
      assert daemon.View() == d;
      ThenFor(c, s0, s2, ev, sys, Silent);
    }

    /** `call_bridge`: one request, one reply, the mutex held throughout. Once the
        connection has failed nothing more is written. */
    method CallBridge(req: Request, ghost c: Call, o: Outcome, fault: Fault) returns (r: Option<Response>, ghost ev: Event)
      requires Valid() && daemon.Room(1) && ThreadOf(sys, 0) == Ready(c) && CallOk(sys, c) && Live(sys, c)
      requires req == RequestOf(c) && HipContract(daemon.View(), req, o)
      modifies this`connected, this`sys, daemon, daemon.handles, daemon.modules, daemon.functions, outgoing, incoming
      ensures Valid() && sys.space == old(sys).space
      ensures LedgerGrows(old(sys), sys) && Moves(old(sys), c, ev, sys)
      ensures ThreadOf(sys, 0) == if r.Some? then Replied(c, r.value) else Idle
      ensures !old(connected) ==> r == None && outgoing.bytes == old(outgoing.bytes) && daemon.View() == old(daemon.View())
      ensures r.Some? <==> connected
      ensures connected <==> Completes(old(connected), fault, old(daemon.View()), req, o)
      ensures connected ==> r == Some(Handle(old(daemon.View()), req, o).1)
      ensures Kept(old(daemon.View()), daemon.View())
      ensures r.Some? ==> Exchanged(old(daemon.View()), c, o, r.value, ev, daemon.View())
      ensures r.None? ==> Lost(old(daemon.View()), c, o, ev, daemon.View())
    {
      hide Inv, Next, Enabled, FlatNext, CopyMeets, LedgerGrows, Handle, EncodeRequest, EncodeResponse, RequestOf, HipContract, CallOk, Exchanged, FakeAddresses.Valid;
      r, ev := None, Silent;
      Sendable(sys, c);
      if !connected {
        AfterBreak(sys, SendRefused(0));
        sys := Next(sys, SendRefused(0));
        return;
      }
      if fault.WriteFails? {
        var e := EncodeRequest(req);
        var k := if fault.k <= |e| then fault.k else |e|;
        outgoing.WriteAll(e[..k]);
        connected := false;
        AfterBreak(sys, SendBreaks(0, k));
        sys := Next(sys, SendBreaks(0, k));
        return;
      }
      r, ev := OverTheWire(req, c, o, fault.ReadFails?);
    }

    /** A call whose reply changes nothing in the stub. */
    method PlainCall(req: Request, ghost c: Call, o: Outcome, fault: Fault) returns (r: Option<Response>, ghost ev: Event)
      requires Valid() && daemon.Room(1) && ThreadOf(sys, 0) == Ready(c) && CallOk(sys, c) && Live(sys, c) && !c.CallMalloc?
      requires req == RequestOf(c) && HipContract(daemon.View(), req, o)
      modifies this`connected, this`sys, daemon, daemon.handles, daemon.modules, daemon.functions, outgoing, incoming
      ensures Valid() && sys.space == old(sys).space && ThreadOf(sys, 0).Idle?
      ensures LedgerGrows(old(sys), sys) && Moves(old(sys), c, ev, sys)
      ensures r.Some? <==> connected
      ensures connected <==> Completes(old(connected), fault, old(daemon.View()), req, o)
      ensures Kept(old(daemon.View()), daemon.View())
      ensures if r.Some? then Exchanged(old(daemon.View()), c, o, r.value, ev, daemon.View())
              else Lost(old(daemon.View()), c, o, ev, daemon.View())
    {
      hide Completes, Kept, Inv, Next, Enabled, FlatNext, CopyMeets, LedgerGrows, HipContract, FlatOf, Exchanged, Lost, CallOk, RequestOf, FakeAddresses.Valid;
      ghost var s1 := sys;
      r, ev := CallBridge(req, c, o, fault);
      if r.Some? {
        ghost var s2 := sys;
        PlainFinish(s2, c, r.value);
        sys := Next(s2, Finish(0));
        ThenFor(c, s1, s2, ev, sys, Silent);
      }
    }

    /** The exchange of a malloc, up to its reply. */
    method ExchangeMalloc(size: u64, ghost keep: bool, o: Outcome, fault: Fault) returns (r: Option<Response>)
      requires Valid() && daemon.Room(1) && ThreadOf(sys, 0).Idle? && HipContract(daemon.View(), Malloc(size), o)
      modifies this`connected, this`sys, daemon, daemon.handles, daemon.modules, daemon.functions, outgoing, incoming
      ensures Valid() && sys.space == old(sys).space && (r.Some? <==> connected)
      ensures LedgerGrows(old(sys), sys) && FlatNext(FlatOf(old(sys)), Silent, FlatOf(sys))
      ensures ThreadOf(sys, 0) == if r.Some? then Replied(CallMalloc(size, keep), r.value) else Idle
      ensures r.Some? && MallocHandle(r.value).Some? <==> old(connected) && fault.Works? && o.ok
      ensures Kept(old(daemon.View()), daemon.View())
    {
      hide Kept, Inv, Next, Enabled, FlatNext, LedgerGrows, HipContract, FlatOf, Exchanged, Lost, CallOk, Live, FakeAddresses.Valid;
      ghost var c, s0 := CallMalloc(size, keep), sys;
      Began(s0, BeginMalloc(0, size, keep), c);
      sys := Next(s0, BeginMalloc(0, size, keep));
      ghost var s1 := sys;
      ghost var ev;
      r, ev := CallBridge(Malloc(size), c, o, fault);
      MallocExchanged(s1.daemon, c, o, r, ev, sys.daemon);
      MallocFits(s1.daemon, size, o);
      Then(s0, s1, Silent, sys, Silent);
    }

    /** `handle_to_ptr`, once a malloc reply is in: a fake address for the handle. */
    method Place(size: u64, keep: bool, resp: Response) returns (status: int, ptr: u64, ghost ev: Event)
      requires Valid() && ThreadOf(sys, 0) == Replied(CallMalloc(size, keep), resp) && space.nextBase + Reserved(size) < TWO_64
      modifies this`sys, space
      ensures Valid() && ThreadOf(sys, 0).Idle?
      ensures LedgerGrows(old(sys), sys) && FlatNext(FlatOf(old(sys)), ev, FlatOf(sys))
      ensures status == if MallocHandle(resp).Some? then HIP_SUCCESS else HIP_ERROR_NO_DEVICE
      ensures if status == HIP_SUCCESS && keep then ptr == old(space.nextBase) && ev == Allocated(ptr, size) else ptr == 0 && ev == Silent
    {
      hide Inv, Next, Enabled, FlatNext, LedgerGrows, Reserved, FlatOf, FakeAddresses.Valid;
      ghost var s := sys;
      MallocFinish(s, CallMalloc(size, keep), resp);
      ev := EventOf(s, Finish(0));
      ptr := 0;
      if resp.Ok? && |resp.body| == 8 {
        if keep {
          ptr := space.Allocate(U64(resp.body), size);
        }
        status := HIP_SUCCESS;
      } else {
        status := HIP_ERROR_NO_DEVICE;
      }
      sys := Next(s, Finish(0));
    }

    /** hipMalloc: on success the game gets an address that was nobody's, and from there
        on `size` bytes; on failure null, and nothing it can see has changed. */
    method HipMalloc(size: u64, keep: bool, o: Outcome, fault: Fault) returns (status: int, ptr: u64)
      requires Valid() && daemon.Room(1) && ThreadOf(sys, 0).Idle?
      requires HipContract(daemon.View(), Malloc(size), o) && space.nextBase + Reserved(size) < TWO_64
      modifies this`connected, this`sys, this`lastError, space, daemon, daemon.handles, daemon.modules, daemon.functions, outgoing, incoming
      ensures Valid() && ThreadOf(sys, 0).Idle?
      ensures status == HIP_SUCCESS <==> old(connected) && fault.Works? && o.ok
      ensures Kept(old(daemon.View()), daemon.View())
      ensures status == HIP_SUCCESS && keep ==>
                ptr == old(space.nextBase) && FlatNext(FlatOf(old(sys)), Allocated(ptr, size), FlatOf(sys))
      ensures status == HIP_SUCCESS && keep ==> 0x7000_0000_0000 <= ptr
      ensures !(status == HIP_SUCCESS && keep) ==> ptr == 0 && FlatNext(FlatOf(old(sys)), Silent, FlatOf(sys))
      ensures if status == HIP_SUCCESS then lastError == old(lastError) else status == lastError == HIP_ERROR_NO_DEVICE
    {
      hide Inv, Next, Enabled, FlatNext, LedgerGrows, HipContract, Reserved, FlatOf, MallocHandle, FakeAddresses.Valid;
      ghost var s0 := sys;
      BasesHigh(space.View());
      var r := ExchangeMalloc(size, keep, o, fault);
      ptr := 0;
      status := HIP_ERROR_NO_DEVICE;
      if r.Some? {
        ghost var s1 := sys;
        ghost var ev;
        status, ptr, ev := Place(size, keep, r.value);
        Then(s0, s1, Silent, sys, ev);
      }
      if status != HIP_SUCCESS {
        lastError := status;
      }
    }

    /** hipFree: whatever the wire does, a live base stops being an allocation at once,
        and any other pointer frees nothing. */
    method HipFree(ptr: u64, o: Outcome, fault: Fault) returns (status: int)
      requires Valid() && daemon.Room(1) && ThreadOf(sys, 0).Idle?
      requires ptr in space.ranges ==> HipContract(daemon.View(), Free(space.ranges[ptr].handle), o)
      modifies this`connected, this`sys, this`lastError, space, daemon, daemon.handles, daemon.modules, daemon.functions, outgoing, incoming
      ensures Valid() && ThreadOf(sys, 0).Idle?
      ensures ptr in old(space.ranges) ==>
                && FlatNext(FlatOf(old(sys)), Freed(ptr, old(space.ranges)[ptr].size), FlatOf(sys))
                && (status == HIP_SUCCESS <==> old(connected) && fault.Works? && o.ok)
      ensures ptr in old(space.ranges) && status == HIP_SUCCESS ==>
                var r := old(space.ranges)[ptr];
                && r.handle in old(daemon.handles.entries)
                && Released(old(daemon.dev), daemon.dev, old(daemon.handles.entries)[r.handle], r.size)
      ensures Kept(old(daemon.View()), daemon.View())
      ensures ptr !in old(space.ranges) ==> sys == old(sys) && (status == HIP_SUCCESS <==> ptr == 0)
      ensures if status == HIP_SUCCESS then lastError == old(lastError) else status == lastError == HIP_ERROR_NOT_SUPPORTED
    {
      hide Inv, Next, Enabled, FlatNext, LedgerGrows, HipContract, FlatOf, Exchanged, Lost, CallOk, Live, FakeAddresses.Valid, Released, HoldsBlock;
      BasesPositive(space.View());
      if ptr == 0 {
        return HIP_SUCCESS;
      }
      ghost var s0, d := sys, daemon.View();
      var handle := space.RemoveExact(ptr);
      if handle.None? {
        lastError := HIP_ERROR_NOT_SUPPORTED;
        return HIP_ERROR_NOT_SUPPORTED;
      }
      ghost var c := CallFree(handle.value);
      FreeBegan(s0, ptr);
      sys := Next(s0, BeginFree(0, ptr));
      ghost var s1 := sys;
      var r;
      ghost var ev;
      r, ev := PlainCall(Free(handle.value), c, o, fault);
      FreeExchanged(s1.daemon, c, o, r, ev, sys.daemon, s0.space.ranges[ptr].size);
      Then(s0, s1, Freed(ptr, s0.space.ranges[ptr].size), sys, Silent);
      if r.Some? && r.value.Ok? {
        status := HIP_SUCCESS;
      } else {
        status, lastError := HIP_ERROR_NOT_SUPPORTED, HIP_ERROR_NOT_SUPPORTED;
      }
    }

    /** The exchange of a copy already resolved, in either direction. */
    method ExchangeCopy(req: Request, ghost step: Step, ghost c: Call, o: Outcome, fault: Fault) returns (r: Option<Response>, ghost ev: Event)
      requires Valid() && daemon.Room(1) && ThreadOf(sys, 0).Idle? && CopyStep(space.View(), step, c)
      requires (c.CallH2D? || c.CallD2H?) && OneFrame(c) && req == RequestOf(c) && HipContract(daemon.View(), req, o)
      modifies this`connected, this`sys, daemon, daemon.handles, daemon.modules, daemon.functions, outgoing, incoming
      ensures Valid() && sys.space == old(sys).space && ThreadOf(sys, 0).Idle?
      ensures BeginMeets(old(sys), step, Fits) ==> FlatNext(FlatOf(old(sys)), ev, FlatOf(sys))
      ensures CopyEffect(c, o, r, ev) && (c.CallD2H? ==> daemon.View() == old(daemon.View()))
      ensures (r.Some? <==> connected) && Kept(old(daemon.View()), daemon.View())
      ensures connected <==> Completes(old(connected), fault, old(daemon.View()), req, o)
      ensures c.handle in old(daemon.handles.entries)
    {
      hide Inv, Next, Enabled, FlatNext, CopyMeets, BeginMeets, LedgerGrows, HipContract, FlatOf, Exchanged, Lost, CallOk, Live, RequestOf, CopyStep,
           CopyEffect, Completes, Kept, FakeAddresses.Valid;
      ghost var s0 := sys;
      CopyBegan(s0, step, c);
      sys := Next(s0, step);
      ghost var s1 := sys;
      r, ev := PlainCall(req, c, o, fault);
      CopyExchanged(s1.daemon, c, o, r, ev, sys.daemon);
      if BeginMeets(s0, step, Fits) {
        Then(s0, s1, Silent, sys, ev);
      }
    }

    /** hipMemcpy, host to device: it succeeds exactly if the pointer resolves, the
        exchange completes and HIP copies. On success the bytes are there; a lost reply
        leaves the copy made or not made, never torn. A copy above the frame cap costs
        the connection. */
    method CopyToDevice(ptr: u64, data: seq<u8>, o: Outcome, fault: Fault) returns (status: int, ghost ev: Event)
      requires Valid() && daemon.Room(1) && ThreadOf(sys, 0).Idle? && 24 + |data| < TWO_64
      requires ResolveIn(space.View(), ptr).Some? ==>
                 var r := ResolveIn(space.View(), ptr).value; HipContract(daemon.View(), MemcpyH2D(r.0, r.1, data), o)
      modifies this`connected, this`sys, this`lastError, daemon, daemon.handles, daemon.modules, daemon.functions, outgoing, incoming
      ensures Valid() && ThreadOf(sys, 0).Idle?
      ensures RangeMeets(space.View(), Fits, true, ptr, |data|) ==> FlatNext(FlatOf(old(sys)), ev, FlatOf(sys))
      ensures status == HIP_SUCCESS <==>
                ResolveIn(space.View(), ptr).Some? && old(connected) && fault.Works? && o.ok && 24 + |data| <= MAX_BODY_LEN
      ensures ResolveIn(space.View(), ptr).Some? && connected ==> 24 + |data| <= MAX_BODY_LEN
      ensures Kept(old(daemon.View()), daemon.View())
      ensures ResolveIn(space.View(), ptr).None? ==> sys == old(sys) && connected == old(connected)
      ensures if status == HIP_SUCCESS then ev == Wrote(ptr, data) else ev == Silent || ev == Wrote(ptr, data)
      ensures if status == HIP_SUCCESS then lastError == old(lastError) else status == lastError == HIP_ERROR_NOT_SUPPORTED
    {
      hide Inv, FlatNext, HipContract, FlatOf, ResolveIn, RangeMeets, LE, Handle, FakeAddresses.Valid;
      ev := Silent;
      var found := space.Resolve(ptr);
      if found.None? {
        Unmoved(sys);
        lastError := HIP_ERROR_NOT_SUPPORTED;
        return HIP_ERROR_NOT_SUPPORTED, ev;
      }
      var r;
      CopyFits(daemon.View(), MemcpyH2D(found.value.0, found.value.1, data), o);
      r, ev := ExchangeCopy(MemcpyH2D(found.value.0, found.value.1, data), BeginH2D(0, ptr, data),
                            CallH2D(ptr, found.value.0, found.value.1, data), o, fault);
      status := if r.Some? && r.value.Ok? then HIP_SUCCESS else HIP_ERROR_NOT_SUPPORTED;
      if status != HIP_SUCCESS {
        lastError := status;
      }
    }

    /** hipMemcpy, device to host: it succeeds exactly if the pointer resolves, the
        exchange completes and HIP copies. If the copy stays inside the allocation the
        game receives what the flat device holds at `ptr`; no copy out changes it. A
        copy above the frame cap costs the connection. */
    method CopyFromDevice(ptr: u64, len: u64, o: Outcome, fault: Fault) returns (status: int, data: seq<u8>)
      requires Valid() && daemon.Room(1) && ThreadOf(sys, 0).Idle? && KeepsStep(len)
      requires ResolveIn(space.View(), ptr).Some? ==>
                 var r := ResolveIn(space.View(), ptr).value; HipContract(daemon.View(), MemcpyD2H(r.0, r.1, len), o)
      modifies this`connected, this`sys, this`lastError, daemon, daemon.handles, daemon.modules, daemon.functions, outgoing, incoming
      ensures Valid() && ThreadOf(sys, 0).Idle? && FlatNext(FlatOf(old(sys)), Silent, FlatOf(sys))
      ensures status == HIP_SUCCESS <==>
                ResolveIn(space.View(), ptr).Some? && old(connected) && fault.Works? && o.ok && len <= MAX_BODY_LEN
      ensures ResolveIn(space.View(), ptr).Some? && connected && o.ok ==> len <= MAX_BODY_LEN
      ensures Kept(old(daemon.View()), daemon.View())
      ensures ResolveIn(space.View(), ptr).None? ==> sys == old(sys) && connected == old(connected)
      ensures status == HIP_SUCCESS ==> |data| == len && data == o.bytes
      ensures status == HIP_SUCCESS && RangeMeets(space.View(), Fits, false, ptr, len) ==> FlatNext(FlatOf(old(sys)), ReadBack(ptr, data), FlatOf(sys))
      ensures if status == HIP_SUCCESS then lastError == old(lastError) else status == lastError == HIP_ERROR_NOT_SUPPORTED
    {
      hide Inv, FlatNext, HipContract, FlatOf, ResolveIn, RangeMeets, Body, Handle, FakeAddresses.Valid;
      data := [];
      var found := space.Resolve(ptr);
      if found.None? {
        Unmoved(sys);
        lastError := HIP_ERROR_NOT_SUPPORTED;
        return HIP_ERROR_NOT_SUPPORTED, data;
      }
      var r;
      ghost var s0 := sys;
      ghost var ev;
      CopyFits(daemon.View(), MemcpyD2H(found.value.0, found.value.1, len), o);
      r, ev := ExchangeCopy(MemcpyD2H(found.value.0, found.value.1, len), BeginD2H(0, ptr, len),
                            CallD2H(ptr, found.value.0, found.value.1, len), o, fault);
      NothingMoved(s0, sys);
      if r.Some? && r.value.Ok? && |r.value.body| == len {
        return HIP_SUCCESS, r.value.body;
      }
      status, lastError := HIP_ERROR_NOT_SUPPORTED, HIP_ERROR_NOT_SUPPORTED;
    }

    /** The exchange of a launch whose fixups are already found. */
    method ExchangeLaunch(req: Request, ghost step: Step, ghost c: Call, o: Outcome, fault: Fault) returns (r: Option<Response>, ghost ev: Event)
      requires Valid() && daemon.Room(1) && ThreadOf(sys, 0).Idle? && LaunchStep(space.View(), step, c)
      requires req == RequestOf(c) && HipContract(daemon.View(), req, o)
      modifies this`connected, this`sys, daemon, daemon.handles, daemon.modules, daemon.functions, outgoing, incoming
      ensures Valid() && ThreadOf(sys, 0).Idle? && sys.space == old(sys).space && FlatNext(FlatOf(old(sys)), ev, FlatOf(sys))
      ensures r.Some? && r.value.Ok? <==> old(connected) && fault.Works? && o.ok && c.function_ in old(daemon.functions.entries)
      ensures Kept(old(daemon.View()), daemon.View())
      ensures LaunchEffect(old(daemon.View()), c, Bases(old(sys)), r.Some? && r.value.Ok?, ev, daemon.View())
    {
      hide Kept, Inv, Next, Enabled, FlatNext, LedgerGrows, HipContract, FlatOf, Exchanged, Lost, CallOk, Live, Bases, RequestOf, Handle, Body,
           LaunchEffect, FakeAddresses.Valid;
      ghost var s0 := sys;
      LaunchBegan(s0, step, c);
      sys := Next(s0, step);
      ghost var s1 := sys;
      r, ev := PlainCall(req, c, o, fault);
      LaunchExchanged(s0, s1, c, o, r, ev, sys.daemon);
      LaunchFits(s1, c, o);
      Then(s0, s1, Silent, sys, ev);
    }

    /** hipLaunchKernel; null pointers are `None`. On success exactly one kernel ran: the
        registered one, on the caller's blob with every live fake pointer in it made real.
        On failure it ran so or not at all, and memory is as it was if it did not. */
    method HipLaunchKernel(hostFn: u64, grid: Option<Dim>, block: Option<Dim>, sharedMem: u64, args: Option<seq<u8>>, o: Outcome, fault: Fault)
      returns (status: int, ghost ev: Event)
      requires Valid() && daemon.Room(1) && ThreadOf(sys, 0).Idle? && (args.Some? ==> |args.value| == 4096)
      requires var c := LaunchCall(hostFn, grid, block, sharedMem, args); c.Some? ==> HipContract(daemon.View(), RequestOf(c.value), o)
      modifies this`connected, this`sys, this`lastError, daemon, daemon.handles, daemon.modules, daemon.functions, outgoing, incoming
      ensures Valid() && ThreadOf(sys, 0).Idle? && FlatNext(FlatOf(old(sys)), ev, FlatOf(sys))
      ensures LaunchOutcome(old(daemon.View()), LaunchCall(hostFn, grid, block, sharedMem, args), o, Bases(old(sys)),
                            old(connected), fault, status == HIP_SUCCESS, ev, daemon.View())
      ensures Kept(old(daemon.View()), daemon.View())
      ensures LaunchCall(hostFn, grid, block, sharedMem, args).None? ==> sys == old(sys) && connected == old(connected)
      ensures if status == HIP_SUCCESS then lastError == old(lastError) else status == lastError == HIP_ERROR_NOT_SUPPORTED
    {
      hide Inv, FlatNext, HipContract, FlatOf, Scan, Bases, LaunchEffect, RequestOf, FakeAddresses.Valid;
      ev := Silent;
      if hostFn !in functionRegistry || grid.None? || block.None? || args.None? {
        Unmoved(sys);
        status, lastError := HIP_ERROR_NOT_SUPPORTED, HIP_ERROR_NOT_SUPPORTED;
        return;
      }
      var fn := functionRegistry[hostFn];
      var fixups := ScanFixups(space, args.value);
      ghost var c := LaunchCall(hostFn, grid, block, sharedMem, args).value;
      LaunchRequestIs(c);
      var r;
      r, ev := ExchangeLaunch(LaunchKernel(fn, grid.value, block.value, sharedMem % TWO_32, fixups, args.value),
                              BeginLaunch(0, fn, grid.value, block.value, sharedMem % TWO_32, args.value), c, o, fault);
      if r.Some? && r.value.Ok? {
        status := HIP_SUCCESS;
      } else {
        status, lastError := HIP_ERROR_NOT_SUPPORTED, HIP_ERROR_NOT_SUPPORTED;
      }
    }

    /** The launch these arguments ask for, if none of them is null and the function is
        registered. */
    ghost function LaunchCall(hostFn: u64, grid: Option<Dim>, block: Option<Dim>, sharedMem: u64, args: Option<seq<u8>>): (c: Option<Call>)
      reads this, space
      ensures c.Some? ==> c.value.CallLaunch? && args.Some? && c.value.args == args.value
    {
      if hostFn in functionRegistry && grid.Some? && block.Some? && args.Some?
      then Some(CallLaunch(functionRegistry[hostFn], grid.value, block.value, sharedMem % TWO_32, space.View(), args.value)) else None
    }

    // ----- registration

    /** The exchange of a request that touches no allocation. */
    method ExchangeOther(req: Request, o: Outcome, fault: Fault) returns (r: Option<Response>)
      requires Valid() && daemon.Room(1) && ThreadOf(sys, 0).Idle?
      requires TouchesNoAllocation(req) && |Body(req)| < TWO_32 && HipContract(daemon.View(), req, o)
      modifies this`connected, this`sys, daemon, daemon.handles, daemon.modules, daemon.functions, outgoing, incoming
      ensures Valid() && ThreadOf(sys, 0).Idle? && sys.space == old(sys).space && FlatNext(FlatOf(old(sys)), Silent, FlatOf(sys))
      ensures (r.Some? <==> connected) && Kept(old(daemon.View()), daemon.View())
      ensures connected <==> Completes(old(connected), fault, old(daemon.View()), req, o)
      ensures r.Some? ==> (daemon.View(), r.value) == Handle(old(daemon.View()), req, o)
      ensures r.None? ==> daemon.View() == old(daemon.View()) || daemon.View() == Handle(old(daemon.View()), req, o).0
    {
      hide Inv, Next, Enabled, FlatNext, LedgerGrows, HipContract, FlatOf, CallOk, Live, Body, Handle, TouchesNoAllocation, Completes, Kept, FakeAddresses.Valid;
      ghost var s0, c := sys, CallOther(req);
      Began(s0, BeginOther(0, req), c);
      sys := Next(s0, BeginOther(0, req));
      ghost var s1 := sys;
      ghost var ev;
      r, ev := PlainCall(req, c, o, fault);
      Then(s0, s1, Silent, sys, ev);
    }

    /** __hipRegisterFatBinary; `bundle` is what its size parser delimits, `None` if it
        refuses. The token is new in any case. */
    method RegisterFatBinary(bundle: Option<seq<u8>>, o: Outcome, fault: Fault) returns (id: u64)
      requires Valid() && daemon.Room(1) && ThreadOf(sys, 0).Idle? && nextFatbinId + 1 < TWO_64
      requires bundle.Some? ==> |bundle.value| <= 512 * 1024 * 1024 && HipContract(daemon.View(), LoadModule(bundle.value), o)
      modifies this`connected, this`sys, this`nextFatbinId, this`fatbins, daemon, daemon.handles, daemon.modules, daemon.functions, outgoing, incoming
      ensures Valid() && ThreadOf(sys, 0).Idle? && FlatNext(FlatOf(old(sys)), Silent, FlatOf(sys))
      ensures id == old(nextFatbinId) && nextFatbinId == id + 1
      ensures Kept(old(daemon.View()), daemon.View())
      ensures var loaded := bundle.Some? && old(connected) && fault.Works? && o.ok && |bundle.value| <= MAX_BODY_LEN;
              && fatbins == (if loaded then old(fatbins)[id := old(daemon.modules.nextId)] else old(fatbins))
              && (loaded ==> fatbins[id] in daemon.modules.entries
                             && daemon.dev.hip.image(daemon.modules.entries[fatbins[id]]) == bundle.value)
    {
      hide Inv, FlatNext, FlatOf, Handle, FakeAddresses.Valid;
      id := nextFatbinId;
      nextFatbinId := nextFatbinId + 1;
      if bundle.None? {
        Unmoved(sys);
        return;
      }
      ModuleReply(daemon.View(), bundle.value, o);
      var r := ExchangeOther(LoadModule(bundle.value), o, fault);
      if r.Some? && r.value.Ok? && |r.value.body| == 8 {
        fatbins := fatbins[id := U64(r.value.body)];
      }
    }

    /** __hipRegisterFunction: the last successful registration of a host pointer wins. */
    method RegisterFunction(fatBin: u64, hostFn: u64, name: Utf8String, o: Outcome, fault: Fault)
      requires Valid() && daemon.Room(1) && ThreadOf(sys, 0).Idle? && 8 + |name| < TWO_32
      requires fatBin in fatbins ==> HipContract(daemon.View(), GetFunction(fatbins[fatBin], name), o)
      modifies this`connected, this`sys, this`functionRegistry, daemon, daemon.handles, daemon.modules, daemon.functions, outgoing, incoming
      ensures Valid() && ThreadOf(sys, 0).Idle? && FlatNext(FlatOf(old(sys)), Silent, FlatOf(sys))
      ensures Kept(old(daemon.View()), daemon.View())
      ensures var found := && fatBin in fatbins && fatbins[fatBin] in old(daemon.modules.entries)
                           && old(connected) && fault.Works? && o.ok && 8 + |name| <= MAX_BODY_LEN;
              && functionRegistry == (if found then old(functionRegistry)[hostFn := old(daemon.functions.nextId)] else old(functionRegistry))
              && (found ==> functionRegistry[hostFn] in daemon.functions.entries
                            && daemon.dev.hip.kernel(daemon.functions.entries[functionRegistry[hostFn]])
                                 == (old(daemon.modules.entries)[fatbins[fatBin]], name))
    {
      hide Inv, FlatNext, FlatOf, Handle, FakeAddresses.Valid;
      if fatBin !in fatbins {
        Unmoved(sys);
        return;
      }
      FunctionReply(daemon.View(), fatbins[fatBin], name, o);
      var r := ExchangeOther(GetFunction(fatbins[fatBin], name), o, fault);
      if r.Some? && r.value.Ok? && |r.value.body| == 8 {
        functionRegistry := functionRegistry[hostFn := U64(r.value.body)];
      }
    }
  }

  // ----- what a call begins and ends with

  lemma Began(s: Sys, step: Step, c: Call)
    requires Inv(s) && ThreadOf(s, 0).Idle?
    requires match step
             case BeginMalloc(t, size, keep) => t == 0 && c == CallMalloc(size, keep)
             case BeginOther(t, req) => t == 0 && c == CallOther(req) && TouchesNoAllocation(req) && |Body(req)| < TWO_32
             case _ => false
    ensures Enabled(s, step)
    ensures var s' := Next(s, step);
            && Inv(s') && LedgerGrows(s, s') && ThreadOf(s', 0) == Ready(c) && CallOk(s', c) && Live(s', c)
            && s' == s.(threads := s'.threads) && FlatNext(FlatOf(s), Silent, FlatOf(s'))
  {
    hide Inv, FlatNext, FlatOf;
    StepInv(s, step);
    NothingMoved(s, Next(s, step));
    PlainCallOk(Next(s, step), c);
  }

  /** A malloc reply is a handle exactly when HIP allocated. */
  lemma MallocExchanged(d: State, c: Call, o: Outcome, r: Option<Response>, ev: Event, d': State)
    requires c.CallMalloc?
    requires if r.Some? then Exchanged(d, c, o, r.value, ev, d') else Lost(d, c, o, ev, d')
    ensures ev == Silent && (r.Some? ==> (MallocHandle(r.value).Some? <==> o.ok))
  {
    hide LE;
  }

  lemma MallocFinish(s: Sys, c: Call, resp: Response)
    requires Inv(s) && s.lock.None? && ThreadOf(s, 0) == Replied(c, resp) && c.CallMalloc?
    requires s.space.nextBase + Reserved(c.size) < TWO_64
    ensures Enabled(s, Finish(0))
    ensures var s', h := Next(s, Finish(0)), MallocHandle(resp);
            && Inv(s') && LedgerGrows(s, s') && ThreadOf(s', 0).Idle?
            && s' == s.(space := s'.space, threads := s'.threads, ledger := s'.ledger)
            && s'.space == (if h.Some? && c.keep then AllocateIn(s.space, h.value, c.size) else s.space)
            && EventOf(s, Finish(0)) == (if h.Some? && c.keep then Allocated(s.space.nextBase, c.size) else Silent)
            && FlatNext(FlatOf(s), EventOf(s, Finish(0)), FlatOf(s'))
  {
    hide Inv, FlatNext, FlatOf, MallocHandle, AllocateIn, Reserved;
    StepInv(s, Finish(0));
    if EventOf(s, Finish(0)).Allocated? {
      FinishIsAllocated(s, 0);
    } else {
      NothingMoved(s, Next(s, Finish(0)));
    }
  }

  /** The reply to any other call changes nothing but the thread. */
  lemma PlainFinish(s: Sys, c: Call, resp: Response)
    requires Inv(s) && s.lock.None? && ThreadOf(s, 0) == Replied(c, resp) && !c.CallMalloc?
    ensures Enabled(s, Finish(0))
    ensures var s' := Next(s, Finish(0));
            && Inv(s') && LedgerGrows(s, s') && ThreadOf(s', 0).Idle?
            && s' == s.(threads := s'.threads) && FlatNext(FlatOf(s), Silent, FlatOf(s'))
  {
    hide Inv, FlatNext, FlatOf, MallocHandle;
    StepInv(s, Finish(0));
    NothingMoved(s, Next(s, Finish(0)));
  }

  /** The handle in a LoadModule reply is a new one, bound to what HIP loaded. */
  lemma ModuleReply(d: State, data: seq<u8>, o: Outcome)
    requires d.modules.nextId < TWO_64
    ensures var (d', resp) := Handle(d, LoadModule(data), o);
            && (resp.Ok? <==> o.ok)
            && d'.dev.hip == d.dev.hip
            && (o.ok ==> |resp.body| == 8 && U64(resp.body) == d.modules.nextId
                         && d.modules.nextId in d'.modules.entries && d'.modules.entries[d.modules.nextId] == o.ptr)
  {
    hide LE, FromLE;
    U64OfLE(d.modules.nextId);
  }

  lemma FunctionReply(d: State, m: u64, name: Utf8String, o: Outcome)
    requires d.functions.nextId < TWO_64
    ensures var (d', resp) := Handle(d, GetFunction(m, name), o);
            && (resp.Ok? <==> o.ok && m in d.modules.entries)
            && d'.dev.hip == d.dev.hip
            && (resp.Ok? ==> |resp.body| == 8 && U64(resp.body) == d.functions.nextId
                             && d.functions.nextId in d'.functions.entries && d'.functions.entries[d.functions.nextId] == o.ptr)
  {
    hide LE, FromLE;
    U64OfLE(d.functions.nextId);
  }

  lemma BasesHigh(sp: Space)
    requires FakeAddresses.Valid(sp)
    ensures 0x7000_0000_0000 <= sp.nextBase
  {
  }

  lemma BasesPositive(sp: Space)
    requires FakeAddresses.Valid(sp)
    ensures 0 !in sp.ranges
  {
  }

  lemma Unmoved(s: Sys)
    ensures FlatNext(FlatOf(s), Silent, FlatOf(s))
  {
  }

  lemma FreeBegan(s: Sys, ptr: u64)
    requires Inv(s) && ThreadOf(s, 0).Idle? && ptr in s.space.ranges
    ensures Enabled(s, BeginFree(0, ptr))
    ensures var s', c := Next(s, BeginFree(0, ptr)), CallFree(s.space.ranges[ptr].handle);
            && Inv(s') && LedgerGrows(s, s') && ThreadOf(s', 0) == Ready(c) && CallOk(s', c) && Live(s', c)
            && s' == s.(space := RemoveRange(s.space, ptr).0, threads := s'.threads, ledger := s'.ledger)
            && s.space.ranges[ptr].handle in s.daemon.handles.entries
            && HoldsBlock(s.daemon.dev, s.daemon.handles.entries[s.space.ranges[ptr].handle], s.space.ranges[ptr].size)
            && FlatNext(FlatOf(s), Freed(ptr, s.space.ranges[ptr].size), FlatOf(s'))
  {
    hide LedgerOk, BlocksOk, ThreadsOk, WireOk, FlatNext, FlatOf, HoldsBlock;
    var s' := Next(s, BeginFree(0, ptr));
    StepInv(s, BeginFree(0, ptr));
    FreeIsFreed(s, 0, ptr);
    FreedSpaceOk(s, 0, ptr);
    RangeHolds(s, ptr);
  }

  lemma RangeHolds(s: Sys, ptr: nat)
    requires LedgerOk(s) && BlocksOk(s) && SpaceOk(s) && ptr in s.space.ranges
    ensures var r := s.space.ranges[ptr];
            r.handle in s.daemon.handles.entries && HoldsBlock(s.daemon.dev, s.daemon.handles.entries[r.handle], r.size)
  {
    hide ValidDevice;
    assert BlockOf(s.daemon.dev, s.ledger[s.space.ranges[ptr].handle]);
  }

  ghost predicate HoldsBlock(dev: Device, base: nat, size: nat) {
    ValidDevice(dev) && if size == 0 then base == 0 else base in dev.blocks && dev.blocks[base] == size
  }

  lemma FreeExchanged(d: State, c: Call, o: Outcome, r: Option<Response>, ev: Event, d': State, size: nat)
    requires c.CallFree? && c.handle in d.handles.entries && HoldsBlock(d.dev, d.handles.entries[c.handle], size)
    requires if r.Some? then Exchanged(d, c, o, r.value, ev, d') else Lost(d, c, o, ev, d')
    ensures ev == Silent && (r.Some? ==> (r.value.Ok? <==> o.ok))
    ensures r.Some? && o.ok ==> Released(d.dev, d'.dev, d.handles.entries[c.handle], size)
    ensures o.ok ==> |Body(RequestOf(c))| == 8 && |ResponseBody(Handle(d, RequestOf(c), o).1)| == 0
  {
    hide DevFree, Released, LE;
    FreeReleases(d.dev, d.handles.entries[c.handle], size);
  }

  /** The lengths on the wire of an exchange that succeeds. */
  lemma MallocFits(d: State, size: u64, o: Outcome)
    ensures |Body(Malloc(size))| == 8 && (o.ok ==> |ResponseBody(Handle(d, Malloc(size), o).1)| == 8)
  {
    hide LE;
  }

  lemma CopyFits(d: State, req: Request, o: Outcome)
    requires req.MemcpyH2D? || req.MemcpyD2H?
    requires HipContract(d, req, o)
    ensures |Body(req)| == if req.MemcpyH2D? then 24 + |req.data| else 24
    ensures req.handle in d.handles.entries && o.ok ==>
              |ResponseBody(Handle(d, req, o).1)| == if req.MemcpyH2D? then 0 else req.len
  {
    hide LE;
  }

  lemma LaunchFits(s: Sys, c: Call, o: Outcome)
    requires c.CallLaunch? && CallOk(s, c)
    ensures |Body(RequestOf(c))| <= MAX_BODY_LEN
    ensures Handle(s.daemon, RequestOf(c), o).1.Ok? ==> |ResponseBody(Handle(s.daemon, RequestOf(c), o).1)| == 0
  {
    hide Scan, LE, Patch, Body, SnapshotOk;
    LaunchFitsFrame(c.function_, c.grid, c.block, c.sharedMem, c.at, c.args);
  }

  /** `step` begins copy `c` on thread 0, and may. */
  ghost predicate CopyStep(sp: Space, step: Step, c: Call) {
    match step
    case BeginH2D(t, ptr, data) =>
      && t == 0 && 24 + |data| < TWO_64
      && ResolveIn(sp, ptr).Some? && c == CallH2D(ptr, ResolveIn(sp, ptr).value.0, ResolveIn(sp, ptr).value.1, data)
    case BeginD2H(t, ptr, len) =>
      && t == 0 && KeepsStep(len)
      && ResolveIn(sp, ptr).Some? && c == CallD2H(ptr, ResolveIn(sp, ptr).value.0, ResolveIn(sp, ptr).value.1, len)
    case _ => false
  }

  lemma CopyBegan(s: Sys, step: Step, c: Call)
    requires Inv(s) && ThreadOf(s, 0).Idle? && CopyStep(s.space, step, c)
    ensures Enabled(s, step)
    ensures var s' := Next(s, step);
            && Inv(s') && LedgerGrows(s, s') && ThreadOf(s', 0) == Ready(c) && CallOk(s', c) && Live(s', c)
            && s' == s.(threads := s'.threads) && FlatNext(FlatOf(s), Silent, FlatOf(s'))
            && (BeginMeets(s, step, Fits) ==> CopyMeets(s', c, Fits))
            && c.handle in s.daemon.handles.entries
  {
    hide BlocksOk, WireOk, FlatNext, FlatOf, ResolveIn, BeginMeets, CopyMeets, Valid;
    StepInv(s, step);
    NothingMoved(s, Next(s, step));
    assert ThreadOk(Next(s, step), 0);
    var b := ResolveSome(s.space, step.ptr);
    if BeginMeets(s, step, Fits) {
      BegunMeets(s, step, 0, Fits);
    }
  }

  /** What the reply says of a copy whose handle is bound. */
  ghost predicate CopyEffect(c: Call, o: Outcome, r: Option<Response>, ev: Event) {
    && (r.Some? ==> (r.value.Ok? <==> o.ok))
    && (c.CallH2D? ==> if r.Some? && r.value.Ok? then ev == Wrote(c.ptr, c.data) else ev == Silent || ev == Wrote(c.ptr, c.data))
    && (c.CallD2H? ==> if r.Some? && r.value.Ok? then ev == ReadBack(c.ptr, o.bytes) && r.value.body == o.bytes && |o.bytes| == c.len else ev == Silent || ev.ReadBack?)
  }

  lemma CopyExchanged(d: State, c: Call, o: Outcome, r: Option<Response>, ev: Event, d': State)
    requires (c.CallH2D? || c.CallD2H?) && OneFrame(c) && c.handle in d.handles.entries && HipContract(d, RequestOf(c), o)
    requires if r.Some? then Exchanged(d, c, o, r.value, ev, d') else Lost(d, c, o, ev, d')
    ensures CopyEffect(c, o, r, ev) && (c.CallD2H? ==> d' == d)
  {
  }

  lemma LaunchRequestIs(c: Call)
    requires c.CallLaunch? && HasRequest(c)
    ensures RequestOf(c) == LaunchKernel(c.function_, c.grid, c.block, c.sharedMem, Scan(c.at, c.args), c.args)
  {
  }

  /** `step` begins launch `c` on thread 0, with the address space as it stands. */
  ghost predicate LaunchStep(sp: Space, step: Step, c: Call) {
    && step.BeginLaunch? && step.t == 0 && |step.args| == MAX_KERNEL_ARG_BYTES
    && c == CallLaunch(step.function_, step.grid, step.block, step.sharedMem, sp, step.args)
  }

  /** An acknowledged launch ran once, on the translated blob; any other ran so, or not at
      all and then nothing else happened either. */
  ghost predicate LaunchEffect(d: State, c: Call, bases: map<nat, nat>, ok: bool, ev: Event, d': State)
    requires c.CallLaunch?
  {
    var run := ev == KernelRan && RanOnce(d.dev.launches, d'.dev.launches, d.functions.entries, c, bases);
    run || (!ok && ev == Silent && d' == d)
  }

  /** A launch succeeds exactly if it was asked for properly, its function is bound, the
      exchange completed and HIP accepted. */
  ghost predicate LaunchOutcome(d: State, c: Option<Call>, o: Outcome, bases: map<nat, nat>, up: bool, fault: Fault, ok: bool, ev: Event, d': State)
    requires c.Some? ==> c.value.CallLaunch?
  {
    && (ok <==> up && fault.Works? && o.ok && c.Some? && c.value.function_ in d.functions.entries)
    && (if c.Some? then LaunchEffect(d, c.value, bases, ok, ev, d') else ev == Silent && d' == d)
  }

  lemma LaunchBegan(s: Sys, step: Step, c: Call)
    requires Inv(s) && ThreadOf(s, 0).Idle? && LaunchStep(s.space, step, c)
    ensures Enabled(s, step)
    ensures var s' := Next(s, step);
            && Inv(s') && LedgerGrows(s, s') && ThreadOf(s', 0) == Ready(c) && CallOk(s', c) && Live(s', c)
            && s' == s.(threads := s'.threads) && FlatNext(FlatOf(s), Silent, FlatOf(s'))
  {
    hide LedgerOk, BlocksOk, SpaceOk, WireOk, FlatByte;
    StepInv(s, step);
    NothingMoved(s, Next(s, step));
    assert ThreadOk(Next(s, step), 0);
  }

  /** Calls coming one at a time, what a scan finds is live, and so bound. */
  lemma ScannedHandlesBound(s: Sys, args: seq<u8>)
    requires LedgerOk(s) && SpaceOk(s) && |args| < TWO_32
    ensures forall f :: f in Scan(s.space, args) ==> f.handle in s.daemon.handles.entries
  {
    hide ResolveIn, Scan;
    ScanExact(s.space, args);
    forall f | f in Scan(s.space, args)
      ensures f.handle in s.daemon.handles.entries
    {
      assert IsFixupOf(s.space, args, |args|, f);
      var b := ResolveSome(s.space, WordAt(args, f.offset));
    }
  }

  lemma LaunchExchanged(s0: Sys, s: Sys, c: Call, o: Outcome, r: Option<Response>, ev: Event, d': State)
    requires Inv(s) && c.CallLaunch? && CallOk(s, c) && s == s0.(threads := s.threads) && c.at == s.space
    requires if r.Some? then Exchanged(s.daemon, c, o, r.value, ev, d') else Lost(s.daemon, c, o, ev, d')
    ensures LaunchEffect(s.daemon, c, Bases(s0), r.Some? && r.value.Ok?, ev, d')
    ensures r.Some? ==> (r.value.Ok? <==> o.ok && c.function_ in s.daemon.functions.entries)
    ensures Handle(s.daemon, RequestOf(c), o).1.Ok? <==> o.ok && c.function_ in s.daemon.functions.entries
  {
    hide BlocksOk, SpaceOk, ThreadsOk, WireOk, Scan, Translated, PatchFirst, Valid, RanOnce;
    ScannedHandlesIssued(s, c.at, c.args);
    ScannedHandlesBound(s, c.args);
    assert Bases(s0) == Bases(s);
    ScanThenPatch(c.at, Bases(s), s.daemon.handles.entries, c.args);
    if d'.dev.launches != s.daemon.dev.launches {
      RunIsRanOnce(s.daemon.dev.launches, d'.dev.launches, s.daemon.functions.entries, c, Bases(s));
    }
  }
}
