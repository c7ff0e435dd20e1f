/** Runs put together call by call, on one thread against a device that starts empty. */
module WholeCalls {
  import opened Basics
  import opened Bytes
  import opened Protocol
  import opened FakeAddresses
  import opened Daemon
  import opened Bridge

  lemma {:induction false} RunAppend(s: Sys, a: seq<Step>, b: seq<Step>)
    requires IsRun(s, a) && IsRun(RunTo(s, a), b)
    ensures IsRun(s, a + b) && RunTo(s, a + b) == RunTo(RunTo(s, a), b)
    decreases a
  {
    hide Enabled, Next;
    if a == [] {
      assert a + b == b;
    } else {
      assert (a + b)[0] == a[0] && (a + b)[1..] == a[1..] + b;
      RunAppend(Next(s, a[0]), a[1..], b);
    }
  }

  lemma {:induction false} StatesAppend(s: Sys, a: seq<Step>, b: seq<Step>)
    requires IsRun(s, a) && IsRun(RunTo(s, a), b)
    ensures IsRun(s, a + b) && States(s, a + b) == States(s, a)[..|a|] + States(RunTo(s, a), b)
    decreases a
  {
    hide Enabled, Next;
    RunAppend(s, a, b);
    if a == [] {
      assert a + b == b;
    } else {
      assert (a + b)[0] == a[0] && (a + b)[1..] == a[1..] + b;
      StatesAppend(Next(s, a[0]), a[1..], b);
    }
  }

  lemma RunFirst(s: Sys, step: Step, rest: seq<Step>)
    requires Enabled(s, step) && IsRun(Next(s, step), rest)
    ensures IsRun(s, [step] + rest) && RunTo(s, [step] + rest) == RunTo(Next(s, step), rest)
  {
    hide Enabled, Next;
    assert ([step] + rest)[1..] == rest;
  }

  function CallSteps(begin: Step, o: Outcome): seq<Step> {
    [begin] + ([Send(0)] + ([Serve(o)] + ([Receive(0)] + ([Finish(0)] + []))))
  }

  /** Nothing is under way; bytes may lie unread in the stub's direction. */
  ghost predicate AtRest(s: Sys) {
    s.up && s.serving && s.lock.None? && s.c2s == [] && ThreadOf(s, 0).Idle?
  }

  /** The request reaches the daemon, and the reply the wire. */
  lemma Answered(s: Sys, c: Call, o: Outcome)
    requires s.up && s.serving && s.lock.None? && s.c2s == [] && ThreadOf(s, 0) == Ready(c)
    requires HasRequest(c) && |Body(RequestOf(c))| <= MAX_BODY_LEN
    requires HipContract(s.daemon, RequestOf(c), o) && s.daemon.handles.nextId + 1 < TWO_64
    ensures Enabled(s, Send(0)) && Enabled(Next(s, Send(0)), Serve(o))
    ensures var s', (d, reply) := Next(Next(s, Send(0)), Serve(o)), Handle(s.daemon, RequestOf(c), o);
            && s'.up && s'.serving && s'.lock == Some(0) && ThreadOf(s', 0) == Waiting(c) && s'.c2s == []
            && s'.s2c == s.s2c + EncodeResponse(reply) && s'.daemon == d && s'.space == s.space
  {
    hide Body, Handle, HipContract, EncodeRequest, EncodeResponse, ReadRequest, RequestOf;
    RequestRoundTrip(RequestOf(c), []);
    assert s.c2s + EncodeRequest(RequestOf(c)) == EncodeRequest(RequestOf(c)) + [];
  }

  /** The thread takes `resp` off the wire and returns to the game. */
  lemma Returned(s: Sys, c: Call, resp: Response, rest: seq<u8>)
    requires s.up && s.serving && s.lock == Some(0) && s.c2s == [] && ThreadOf(s, 0) == Waiting(c)
    requires ReadResponse(s.s2c) == Got(resp, rest)
    requires c.CallMalloc? ==> s.space.nextBase + Reserved(c.size) < TWO_64
    ensures Enabled(s, Receive(0)) && Enabled(Next(s, Receive(0)), Finish(0))
    ensures var s' := Next(Next(s, Receive(0)), Finish(0));
            && AtRest(s') && s'.s2c == rest && s'.daemon == s.daemon
            && s'.space == if c.CallMalloc? && c.keep && MallocHandle(resp).Some?
                           then AllocateIn(s.space, MallocHandle(resp).value, c.size) else s.space
  {
    hide ReadResponse, MallocHandle, Reserved, AllocateIn;
  }

  /** A whole call on thread 0 that reads `resp` off the wire, whatever the daemon wrote. */
  lemma WholeCall(s: Sys, begin: Step, c: Call, o: Outcome, resp: Response, rest: seq<u8>)
    requires AtRest(s) && Enabled(s, begin) && Next(s, begin) == s.(threads := Set(s, 0, Ready(c)))
    requires HasRequest(c) && |Body(RequestOf(c))| <= MAX_BODY_LEN
    requires HipContract(s.daemon, RequestOf(c), o) && s.daemon.handles.nextId + 1 < TWO_64
    requires ReadResponse(s.s2c + EncodeResponse(Handle(s.daemon, RequestOf(c), o).1)) == Got(resp, rest)
    requires c.CallMalloc? ==> s.space.nextBase + Reserved(c.size) < TWO_64
    ensures IsRun(s, CallSteps(begin, o))
    ensures var s' := RunTo(s, CallSteps(begin, o));
            && AtRest(s') && s'.s2c == rest && s'.daemon == Handle(s.daemon, RequestOf(c), o).0
            && s'.space == if c.CallMalloc? && c.keep && MallocHandle(resp).Some?
                           then AllocateIn(s.space, MallocHandle(resp).value, c.size) else s.space
  {
    hide Body, Handle, HipContract, EncodeResponse, ReadResponse, RequestOf, MallocHandle, Reserved, AllocateIn, Enabled, Next;
    var s1 := Next(s, begin);
    Answered(s1, c, o);
    var s2 := Next(s1, Send(0));
    var s3 := Next(s2, Serve(o));
    Returned(s3, c, resp, rest);
    var s4 := Next(s3, Receive(0));
    assert IsRun(Next(s4, Finish(0)), []);
    RunFirst(s4, Finish(0), []);
    RunFirst(s3, Receive(0), [Finish(0)] + []);
    RunFirst(s2, Serve(o), [Receive(0)] + ([Finish(0)] + []));
    RunFirst(s1, Send(0), [Serve(o)] + ([Receive(0)] + ([Finish(0)] + [])));
    RunFirst(s, begin, [Send(0)] + ([Serve(o)] + ([Receive(0)] + ([Finish(0)] + []))));
  }

  /** A malloc on a clean wire: the range gets the handle just issued. */
  lemma CleanMalloc(s: Sys, size: u64, o: Outcome)
    requires AtRest(s) && s.s2c == [] && HipContract(s.daemon, Malloc(size), o) && o.ok
    requires s.daemon.handles.nextId + 1 < TWO_64 && s.space.nextBase + Reserved(size) < TWO_64
    ensures IsRun(s, CallSteps(BeginMalloc(0, size, true), o))
    ensures var s' := RunTo(s, CallSteps(BeginMalloc(0, size, true), o));
            && AtRest(s') && s'.s2c == [] && s'.daemon == HandleMalloc(s.daemon, size, o).0
            && s'.space == AllocateIn(s.space, s.daemon.handles.nextId, size)
  {
    hide LE, FromLE, EncodeResponse, ReadResponse, CallSteps, AllocateIn, Reserved, IsRun, RunTo, HipContract, DevMalloc;
    var resp := Ok(LE(s.daemon.handles.nextId, 8));
    U64OfLE(s.daemon.handles.nextId);
    ResponseRoundTrip(resp, []);
    assert s.s2c + EncodeResponse(resp) == EncodeResponse(resp) + [];
    WholeCall(s, BeginMalloc(0, size, true), CallMalloc(size, true), o, resp, []);
  }

  // ----- what HIP answers

  /** Where the first block lies. */
  const BLOCK: nat := 4096

  const NO_DEVICE := Device(map[], map[], [], Hip(p => [], p => (0, [])))

  /** The byte at `a` when `data` lies at `ptr`. */
  function ByteFrom(ptr: nat, data: seq<u8>, a: nat): u8 {
    if ptr <= a < ptr + |data| then data[a - ptr] else 0
  }

  function MallocAnswer(ptr: nat, data: seq<u8>): Outcome {
    Outcome(true, ptr, [], map a: nat | ptr <= a < ptr + |data| :: ByteFrom(ptr, data, a), [])
  }

  function CopyAnswer(data: seq<u8>): Outcome {
    Outcome(true, 0, data, map[], [])
  }
}
