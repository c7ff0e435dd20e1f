/** The two processes as one transition system. Client threads, the connection and the
    daemon move in any order; writes and reads may fail at any point, losing whatever
    was under way. Fields `ledger`, `flying` and `answer` are history: no step looks
    at them. */
module Bridge {
  import opened Basics
  import opened Bytes
  import opened Protocol
  import opened FakeAddresses
  import opened HandleTables
  import opened KernelArgs
  import opened Daemon

  type Tid = nat

  /** A HIP call past its local part: resolved, removed or scanned, but not yet sent. */
  datatype Call =
    | CallMalloc(size: u64, keep: bool)
    | CallFree(handle: u64)
    | CallH2D(ptr: u64, handle: u64, offset: u64, data: seq<u8>)
    | CallD2H(ptr: u64, handle: u64, offset: u64, len: u64)
    | CallLaunch(function_: u64, grid: Dim, block: Dim, sharedMem: u32, at: Space, args: seq<u8>)
    | CallOther(req: Request)

  datatype Thread = Idle | Ready(call: Call) | Waiting(call: Call) | Replied(call: Call, resp: Response)

  /** Who may still use a handle. */
  datatype Owner = InReply | WithThread(t: Tid) | AtBase(base: nat) | Gone

  /** A reply on the wire, and what it came from: the daemon before it carried out the
      request, and what HIP answered. */
  datatype Answer = Answer(resp: Response, before: State, o: Outcome)

  /** What a handle was issued for. */
  datatype Entry = Entry(realBase: nat, size: nat, owner: Owner)

  datatype Sys = Sys(
    space: Space, threads: map<Tid, Thread>,
    lock: Option<Tid>, up: bool,           // the connection mutex and what it guards
    c2s: seq<u8>, s2c: seq<u8>,            // bytes written and not yet read
    serving: bool, daemon: State,
    ledger: map<nat, Entry>, flying: Option<Call>, answer: Option<Answer>)

  datatype Step =
    | BeginMalloc(t: Tid, size: u64, keep: bool)
    | BeginFree(t: Tid, ptr: u64)
    | BeginH2D(t: Tid, ptr: u64, data: seq<u8>)
    | BeginD2H(t: Tid, ptr: u64, len: u64)
    | BeginLaunch(t: Tid, function_: u64, grid: Dim, block: Dim, sharedMem: u32, args: seq<u8>)
    | BeginOther(t: Tid, req: Request)
    | Send(t: Tid)
    | SendBreaks(t: Tid, k: nat)
    | SendRefused(t: Tid)
    | Serve(o: Outcome)
    | Hangup
    | Receive(t: Tid)
    | ReceiveBreaks(t: Tid)
    | Finish(t: Tid)

  function InitialState(dev: Device): Sys {
    Sys(EMPTY_SPACE, map[], None, true, [], [], true,
        State(EmptyTable(), EmptyTable(), EmptyTable(), dev), map[], None, None)
  }

  function ThreadOf(s: Sys, t: Tid): Thread {
    if t in s.threads then s.threads[t] else Idle
  }

  function Reply(s: Sys): Option<Response> {
    if s.answer.Some? then Some(s.answer.value.resp) else None
  }

  /** An argument blob is a 4096-byte copy; offsets into it are 32-bit. */
  predicate HasRequest(c: Call) {
    c.CallLaunch? ==> |c.args| < TWO_32
  }

  function RequestOf(c: Call): Request
    requires HasRequest(c)
  {
    match c
    case CallMalloc(size, _) => Malloc(size)
    case CallFree(handle) => Free(handle)
    case CallH2D(_, handle, offset, data) => MemcpyH2D(handle, offset, data)
    case CallD2H(_, handle, offset, len) => MemcpyD2H(handle, offset, len)
    case CallLaunch(fn, grid, block, shared, at, args) => LaunchKernel(fn, grid, block, shared, Scan(at, args), args)
    case CallOther(req) => req
  }

  /** Requests that touch no handle of the allocation table. */
  predicate TouchesNoAllocation(r: Request) {
    r.DeviceCount? || r.SetDevice? || r.GetDeviceProperties? || r.LoadModule? || r.GetFunction?
  }

  /** The daemon takes the request for what it is or refuses it, and so does the stub
      with the reply, whatever `as u32` cuts off their lengths. */
  predicate OneFrame(c: Call) {
    HasRequest(c) && Framed(RequestOf(c)) && (c.CallD2H? ==> KeepsStep(c.len))
  }

  /** What a caller must check for the two ends to stay in step: only the length of a
      copy out can break it. */
  predicate InStep(step: Step) {
    step.BeginD2H? ==> KeepsStep(step.len)
  }

  predicate AllInStep(steps: seq<Step>) {
    forall i :: 0 <= i < |steps| ==> InStep(steps[i])
  }

  /** The daemon can take the request in. */
  predicate Heard(c: Call)
    requires HasRequest(c)
  {
    |Body(RequestOf(c))| <= MAX_BODY_LEN
  }

  function MallocHandle(resp: Response): Option<u64> {
    if resp.Ok? && |resp.body| == 8 then Some(U64(resp.body)) else None
  }

  ghost predicate Enabled(s: Sys, step: Step) {
    match step
    case BeginMalloc(t, _, _) => ThreadOf(s, t).Idle?
    case BeginFree(t, _) => ThreadOf(s, t).Idle?
    case BeginH2D(t, _, data) => ThreadOf(s, t).Idle? && 24 + |data| < TWO_64
    case BeginD2H(t, _, _) => ThreadOf(s, t).Idle?
    case BeginLaunch(t, _, _, _, _, args) => ThreadOf(s, t).Idle? && |args| == MAX_KERNEL_ARG_BYTES
    case BeginOther(t, req) => ThreadOf(s, t).Idle? && TouchesNoAllocation(req) && |Body(req)| < TWO_32
    case Send(t) => ThreadOf(s, t).Ready? && s.lock.None? && s.up && HasRequest(ThreadOf(s, t).call)
    case SendBreaks(t, k) =>
      && ThreadOf(s, t).Ready? && s.lock.None? && s.up && HasRequest(ThreadOf(s, t).call)
      && k <= |EncodeRequest(RequestOf(ThreadOf(s, t).call))|
    case SendRefused(t) => ThreadOf(s, t).Ready? && s.lock.None? && !s.up
    case Serve(o) =>
      && s.serving && ReadRequest(s.c2s).Got? && HipContract(s.daemon, ReadRequest(s.c2s).value, o)
      && s.daemon.handles.nextId + 1 < TWO_64
    case Hangup => true
    case Receive(t) => ThreadOf(s, t).Waiting? && s.lock == Some(t) && ReadResponse(s.s2c).Got?
    case ReceiveBreaks(t) => ThreadOf(s, t).Waiting? && s.lock == Some(t)
    case Finish(t) =>
      && ThreadOf(s, t).Replied?
      && (ThreadOf(s, t).call.CallMalloc? ==> s.space.nextBase + Reserved(ThreadOf(s, t).call.size) < TWO_64)
  }

  function Own(s: Sys, h: nat, owner: Owner): map<nat, Entry> {
    if h in s.ledger then s.ledger[h := s.ledger[h].(owner := owner)] else s.ledger
  }

  function Set(s: Sys, t: Tid, thread: Thread): map<Tid, Thread> {
    s.threads[t := thread]
  }

  /** hipFree takes the range out before anything is sent. */
  function FreeBegun(s: Sys, t: Tid, ptr: u64): Sys {
    if ptr !in s.space.ranges then s
    else
      var h := s.space.ranges[ptr].handle;
      s.(space := RemoveRange(s.space, ptr).0, threads := Set(s, t, Ready(CallFree(h))), ledger := Own(s, h, Gone))
  }

  function CopyBegun(s: Sys, t: Tid, call: Call): Sys {
    s.(threads := Set(s, t, Ready(call)))
  }

  /** The daemon answers the request at the head of its stream. */
  function Served(s: Sys, o: Outcome): Sys
    requires ReadRequest(s.c2s).Got?
  {
    var got := ReadRequest(s.c2s);
    var (daemon, resp) := Handle(s.daemon, got.value, o);
    var ledger := if got.value.Malloc? && o.ok
                  then s.ledger[s.daemon.handles.nextId := Entry(o.ptr, got.value.size, InReply)] else s.ledger;
    s.(c2s := got.rest, s2c := s.s2c + EncodeResponse(resp), daemon := daemon,
       ledger := ledger, flying := None, answer := Some(Answer(resp, s.daemon, o)))
  }

  function Received(s: Sys, t: Tid): Sys
    requires ThreadOf(s, t).Waiting? && ReadResponse(s.s2c).Got?
  {
    var got, call := ReadResponse(s.s2c), ThreadOf(s, t).call;
    var h := MallocHandle(got.value);
    s.(s2c := got.rest, lock := None, threads := Set(s, t, Replied(call, got.value)), answer := None,
       ledger := if call.CallMalloc? && h.Some? then Own(s, h.value, WithThread(t)) else s.ledger)
  }

  /** hipMalloc invents the address only after the reply is in, outside the mutex. */
  function Finished(s: Sys, t: Tid): Sys
    requires ThreadOf(s, t).Replied?
  {
    var thread := ThreadOf(s, t);
    var h := MallocHandle(thread.resp);
    if thread.call.CallMalloc? && h.Some? && thread.call.keep then
      s.(space := AllocateIn(s.space, h.value, thread.call.size), threads := Set(s, t, Idle),
         ledger := Own(s, h.value, AtBase(s.space.nextBase)))
    else s.(threads := Set(s, t, Idle))
  }

  function Next(s: Sys, step: Step): Sys
    requires Enabled(s, step)
  {
    match step
    case BeginMalloc(t, size, keep) => s.(threads := Set(s, t, Ready(CallMalloc(size, keep))))
    case BeginFree(t, ptr) => FreeBegun(s, t, ptr)
    case BeginH2D(t, ptr, data) =>
      var r := ResolveIn(s.space, ptr);
      if r.None? then s else CopyBegun(s, t, CallH2D(ptr, r.value.0, r.value.1, data))
    case BeginD2H(t, ptr, len) =>
      var r := ResolveIn(s.space, ptr);
      if r.None? then s else CopyBegun(s, t, CallD2H(ptr, r.value.0, r.value.1, len))
    case BeginLaunch(t, fn, grid, block, shared, args) =>
      s.(threads := Set(s, t, Ready(CallLaunch(fn, grid, block, shared, s.space, args))))
    case BeginOther(t, req) => s.(threads := Set(s, t, Ready(CallOther(req))))
    case Send(t) =>
      var c := ThreadOf(s, t).call;
      s.(c2s := s.c2s + EncodeRequest(RequestOf(c)), lock := Some(t), threads := Set(s, t, Waiting(c)), flying := Some(c))
    case SendBreaks(t, k) =>
      var c := ThreadOf(s, t).call;
      s.(c2s := s.c2s + EncodeRequest(RequestOf(c))[..k], up := false, threads := Set(s, t, Idle), flying := Some(c))
    case SendRefused(t) => s.(threads := Set(s, t, Idle))
    case Serve(o) => Served(s, o)
    case Hangup => s.(serving := false, c2s := [], flying := None)
    case Receive(t) => Received(s, t)
    case ReceiveBreaks(t) => s.(up := false, lock := None, threads := Set(s, t, Idle), answer := None)
    case Finish(t) => Finished(s, t)
  }

  // ----- runs

  ghost predicate IsRun(s: Sys, steps: seq<Step>)
    decreases steps
  {
    steps == [] || (Enabled(s, steps[0]) && IsRun(Next(s, steps[0]), steps[1..]))
  }

  ghost function RunTo(s: Sys, steps: seq<Step>): Sys
    requires IsRun(s, steps)
    decreases steps
  {
    if steps == [] then s else RunTo(Next(s, steps[0]), steps[1..])
  }

  ghost function States(s: Sys, steps: seq<Step>): (ss: seq<Sys>)
    requires IsRun(s, steps)
    ensures |ss| == |steps| + 1 && ss[0] == s
    decreases steps
  {
    if steps == [] then [s] else [s] + States(Next(s, steps[0]), steps[1..])
  }
}
