/** The native daemon: it owns the real device pointers behind handles and carries out
    each request against the HIP runtime. */
module Daemon {
  import opened Bytes
  import opened Utf8
  import opened Protocol
  import opened ProtocolStream
  import opened HandleTables
  import opened KernelArgs

  datatype Launch = Launch(function_: nat, grid: Dim, block: Dim, sharedMem: u32, args: seq<u8>)

  /** What HIP's own pointers stand for: the code object a module was loaded from, and
      the module and name a function was looked up by. */
  datatype Hip = Hip(image: nat -> seq<u8>, kernel: nat -> (nat, seq<u8>))

  /** The real device: bytes of every live block, block sizes by base, kernels run. */
  datatype Device = Device(mem: map<nat, u8>, blocks: map<nat, nat>, launches: seq<Launch>, hip: Hip)

  /** What the HIP runtime answers to one call: success, a pointer, returned bytes,
      device contents it produced, error text. */
  datatype Outcome = Outcome(ok: bool, ptr: nat, bytes: seq<u8>, contents: map<nat, u8>, text: Utf8String)

  datatype State = State(handles: Table<nat>, modules: Table<nat>, functions: Table<nat>, dev: Device)

  // ----- the HIP runtime

  function DevMalloc(dev: Device, size: nat, o: Outcome): Device {
    if size == 0 then dev else dev.(mem := dev.mem + o.contents, blocks := dev.blocks[o.ptr := size])
  }

  function DevFree(dev: Device, ptr: nat): Device {
    if ptr !in dev.blocks then dev
    else dev.(mem := map a | a in dev.mem && !(ptr <= a < ptr + dev.blocks[ptr]) :: dev.mem[a],
              blocks := dev.blocks - {ptr})
  }

  function Overwrite(mem: map<nat, u8>, addr: nat, data: seq<u8>): map<nat, u8> {
    map a | a in mem :: if addr <= a < addr + |data| then data[a - addr] else mem[a]
  }

  ghost predicate HoldsAt(mem: map<nat, u8>, addr: nat, data: seq<u8>) {
    forall i {:trigger data[i]} :: 0 <= i < |data| ==> addr + i in mem && mem[addr + i] == data[i]
  }

  ghost predicate InBlock(dev: Device, base: nat, offset: nat, len: nat) {
    base in dev.blocks && offset + len <= dev.blocks[base]
  }

  ghost predicate ValidDevice(dev: Device) {
    && (forall b :: b in dev.blocks ==> 0 < b && 0 < dev.blocks[b] && b + dev.blocks[b] <= TWO_64)
    && (forall b, a :: b in dev.blocks && b <= a < b + dev.blocks[b] ==> a in dev.mem)
    && (forall b, c :: b in dev.blocks && c in dev.blocks && b < c ==> b + dev.blocks[b] <= c)
  }

  /** What the runtime is trusted for. A new block is at least as large as asked and
      meets no live byte; size 0 yields null; null is always freed; an in-range read
      returns the block's bytes; a module is loaded from the bytes given, a function is
      the one named in the module given; a kernel may write any live byte. */
  ghost predicate HipContract(s: State, req: Request, o: Outcome) {
    && |o.text| < TWO_32
    && match req
       case DeviceCount => |o.bytes| == 4
       case GetDeviceProperties(_) => |o.bytes| == 1472
       case Malloc(size) =>
         o.ok ==>
           && (size == 0 ==> o.ptr == 0)
           && (size > 0 ==> 0 < o.ptr && o.ptr + size <= TWO_64 && o.ptr !in s.dev.blocks)
           && (size > 0 ==> forall a :: o.ptr <= a < o.ptr + size ==> a !in s.dev.mem)
           && (size > 0 ==> forall a :: a in o.contents <==> o.ptr <= a < o.ptr + size)
       case MemcpyD2H(h, offset, len) =>
         o.ok && h in s.handles.entries ==>
           && |o.bytes| == len
           && (InBlock(s.dev, s.handles.entries[h], offset, len) ==>
                 HoldsAt(s.dev.mem, s.handles.entries[h] + offset, o.bytes))
       case LoadModule(data) => o.ok ==> s.dev.hip.image(o.ptr) == data
       case GetFunction(m, name) => o.ok && m in s.modules.entries ==> s.dev.hip.kernel(o.ptr) == (s.modules.entries[m], name)
       case LaunchKernel(_, _, _, _, _, _) => o.ok ==> o.contents.Keys == s.dev.mem.Keys
       case _ => true
  }

  // ----- requests

  function EmptyOr(o: Outcome): Response {
    if o.ok then Ok([]) else Err(o.text)
  }

  function HandleMalloc(s: State, size: u64, o: Outcome): (State, Response) {
    if o.ok then
      (s.(handles := InsertIn(s.handles, o.ptr), dev := DevMalloc(s.dev, size, o)), Ok(LE(s.handles.nextId, 8)))
    else (s, Err(o.text))
  }

  /** The handle is forgotten before the block is freed, and stays forgotten if HIP
      refuses to free it. */
  function HandleFree(s: State, handle: u64, o: Outcome): (State, Response) {
    if handle !in s.handles.entries then (s, Err(o.text))
    else
      var s' := s.(handles := RemoveFrom(s.handles, handle));
      (if o.ok then s'.(dev := DevFree(s.dev, s.handles.entries[handle])) else s', EmptyOr(o))
  }

  function HandleH2D(s: State, handle: u64, offset: u64, data: seq<u8>, o: Outcome): (State, Response) {
    if handle !in s.handles.entries then (s, Err(o.text))
    else if o.ok then
      (s.(dev := s.dev.(mem := Overwrite(s.dev.mem, s.handles.entries[handle] + offset, data))), Ok([]))
    else (s, Err(o.text))
  }

  function HandleLaunch(s: State, r: Request, o: Outcome): (State, Response)
    requires r.LaunchKernel?
  {
    if r.function_ !in s.functions.entries then (s, Err(o.text))
    else
      var patched := Patch(s.handles.entries, r.fixups, r.args);
      if patched.None? || !o.ok then (s, Err(o.text))
      else
        var run := Launch(s.functions.entries[r.function_], r.grid, r.block, r.sharedMem, patched.value);
        (s.(dev := s.dev.(mem := o.contents, launches := s.dev.launches + [run])), Ok([]))
  }

  /** `handle_request` */
  function Handle(s: State, r: Request, o: Outcome): (State, Response) {
    match r
    case DeviceCount => (s, if o.ok then Ok(o.bytes) else Err(o.text))
    case SetDevice(_) => (s, Ok([]))
    case Malloc(size) => HandleMalloc(s, size, o)
    case Free(handle) => HandleFree(s, handle, o)
    case MemcpyH2D(handle, offset, data) => HandleH2D(s, handle, offset, data, o)
    case MemcpyD2H(handle, _, _) =>
      (s, if handle in s.handles.entries && o.ok then Ok(o.bytes) else Err(o.text))
    case GetDeviceProperties(_) => (s, if o.ok then Ok(o.bytes) else Err(o.text))
    case LoadModule(_) =>
      if o.ok then (s.(modules := InsertIn(s.modules, o.ptr)), Ok(LE(s.modules.nextId, 8))) else (s, Err(o.text))
    case GetFunction(m, _) =>
      if m in s.modules.entries && o.ok then
        (s.(functions := InsertIn(s.functions, o.ptr)), Ok(LE(s.functions.nextId, 8)))
      else (s, Err(o.text))
    case LaunchKernel(_, _, _, _, _, _) => HandleLaunch(s, r, o)
  }

  /** Exactly when the daemon answers with success, and with what. */
  lemma AnswerIs(s: State, r: Request, o: Outcome)
    requires HipContract(s, r, o)
    ensures var resp := Handle(s, r, o).1;
            match r
            case DeviceCount => if o.ok then resp == Ok(o.bytes) && |o.bytes| == 4 else resp == Err(o.text)
            case SetDevice(_) => resp == Ok([])
            case Malloc(_) => if o.ok then resp.Ok? && |resp.body| == 8 && U64(resp.body) == s.handles.nextId % TWO_64 else resp == Err(o.text)
            case Free(h) => if o.ok && h in s.handles.entries then resp == Ok([]) else resp == Err(o.text)
            case MemcpyH2D(h, _, _) => if o.ok && h in s.handles.entries then resp == Ok([]) else resp == Err(o.text)
            case MemcpyD2H(h, _, len) => if o.ok && h in s.handles.entries then resp == Ok(o.bytes) && |o.bytes| == len else resp == Err(o.text)
            case GetDeviceProperties(_) => if o.ok then resp == Ok(o.bytes) && |o.bytes| == 1472 else resp == Err(o.text)
            case LoadModule(_) => if o.ok then resp.Ok? && |resp.body| == 8 && U64(resp.body) == s.modules.nextId % TWO_64 else resp == Err(o.text)
            case GetFunction(m, _) =>
              if o.ok && m in s.modules.entries then resp.Ok? && |resp.body| == 8 && U64(resp.body) == s.functions.nextId % TWO_64 else resp == Err(o.text)
            case LaunchKernel(fn, _, _, _, fixups, args) =>
              if o.ok && fn in s.functions.entries && (forall k :: 0 <= k < |fixups| ==> fixups[k].offset + 8 <= |args| && fixups[k].handle in s.handles.entries)
              then resp == Ok([]) else resp == Err(o.text)
  {
    hide LE, FromLE, DevMalloc, DevFree, Patch;
    U64OfLE(s.handles.nextId);
    U64OfLE(s.modules.nextId);
    U64OfLE(s.functions.nextId);
    if r.LaunchKernel? {
      PatchSomeIff(s.handles.entries, r.fixups, r.args);
    }
  }

  lemma PatchSomeIff(entries: map<nat, nat>, fs: seq<Fixup>, args: seq<u8>)
    ensures Patch(entries, fs, args).Some? <==> forall k :: 0 <= k < |fs| ==> fs[k].offset + 8 <= |args| && fs[k].handle in entries
  {
    PatchFirstSomeIff(entries, fs, |fs|, args);
  }

  lemma {:induction false} PatchFirstSomeIff(entries: map<nat, nat>, fs: seq<Fixup>, n: nat, args: seq<u8>)
    requires n <= |fs|
    ensures PatchFirst(entries, fs, n, args).Some? <==> forall k :: 0 <= k < n ==> fs[k].offset + 8 <= |args| && fs[k].handle in entries
  {
    hide PatchWord;
    if n > 0 {
      PatchFirstSomeIff(entries, fs, n - 1, args);
    }
  }

  /** What a connection does: requests are answered one by one, in order, until the
      stream ends or stops making sense. */
  function Serve(s: State, input: seq<u8>, os: seq<Outcome>): (State, seq<u8>)
    decreases |os|
  {
    var got := ReadRequest(input);
    if !got.Got? || os == [] then (s, [])
    else
      var (s1, resp) := Handle(s, got.value, os[0]);
      var (s2, output) := Serve(s1, got.rest, os[1..]);
      (s2, EncodeResponse(resp) + output)
  }

  /** `replies[i]` answers `rs[i]`, each carried out in the state the one before left. */
  ghost predicate AnswersInTurn(s: State, states: seq<State>, rs: seq<Request>, os: seq<Outcome>, replies: seq<Response>) {
    && |states| == |rs| + 1 && |replies| == |rs| <= |os| && states[0] == s
    && forall i :: 0 <= i < |rs| ==> (states[i + 1], replies[i]) == Handle(states[i], rs[i], os[i])
  }

  /** The stream holds the requests `rs` and after them nothing that makes sense. */
  ghost predicate OnStream(bytes: seq<u8>, rs: seq<Request>, tail: seq<u8>) {
    && bytes == EncodeRequests(rs) + tail && !ReadRequest(tail).Got?
    && forall r :: r in rs ==> |Body(r)| <= MAX_BODY_LEN
  }

  /** From `s` to `s'` every request is carried out, in order, and `sent` is all the
      replies, in order. */
  ghost predicate AllAnswered(s: State, rs: seq<Request>, os: seq<Outcome>, s': State, sent: seq<u8>) {
    exists states, replies :: AnswersInTurn(s, states, rs, os, replies) && s' == states[|rs|] && sent == EncodeResponses(replies)
  }

  lemma {:induction false} ServeAnswersAll(s: State, rs: seq<Request>, tail: seq<u8>, os: seq<Outcome>)
      returns (states: seq<State>, replies: seq<Response>)
    requires OnStream(EncodeRequests(rs) + tail, rs, tail) && |rs| <= |os|
    ensures AnswersInTurn(s, states, rs, os, replies)
    ensures Serve(s, EncodeRequests(rs) + tail, os) == (states[|rs|], EncodeResponses(replies))
    decreases |rs|
  {
    hide Handle, ReadRequest, EncodeRequest, EncodeResponse, Body;
    if rs == [] {
      assert EncodeRequests(rs) + tail == tail;
      states, replies := [s], [];
    } else {
      var rest := EncodeRequests(rs[1..]) + tail;
      assert EncodeRequests(rs) + tail == EncodeRequest(rs[0]) + rest;
      RequestRoundTrip(rs[0], rest);
      var (s1, resp) := Handle(s, rs[0], os[0]);
      var later, others := ServeAnswersAll(s1, rs[1..], tail, os[1..]);
      states, replies := [s] + later, [resp] + others;
      assert replies[1..] == others;
      forall i | 0 <= i < |rs|
        ensures (states[i + 1], replies[i]) == Handle(states[i], rs[i], os[i])
      {
        if i > 0 {
          assert (later[i], others[i - 1]) == Handle(later[i - 1], rs[1..][i - 1], os[1..][i - 1]);
        }
      }
    }
  }

  lemma ServeIsAllAnswered(s: State, bytes: seq<u8>, os: seq<Outcome>)
    ensures forall rs, tail :: OnStream(bytes, rs, tail) && |rs| <= |os| ==>
              AllAnswered(s, rs, os, Serve(s, bytes, os).0, Serve(s, bytes, os).1)
  {
    hide Handle, Serve, AnswersInTurn;
    forall rs, tail | OnStream(bytes, rs, tail) && |rs| <= |os|
      ensures AllAnswered(s, rs, os, Serve(s, bytes, os).0, Serve(s, bytes, os).1)
    {
      var states, replies := ServeAnswersAll(s, rs, tail, os);
    }
  }

  // ----- the process

  class DaemonProcess {
    const handles: HandleTable<nat>
    const modules: HandleTable<nat>
    const functions: HandleTable<nat>
    var dev: Device

    ghost predicate Valid()
      reads this, handles, modules, functions
    {
      && handles != modules && handles != functions && modules != functions
      && ValidTable(handles.View()) && ValidTable(modules.View()) && ValidTable(functions.View())
    }

    ghost function View(): State
      reads this, handles, modules, functions
    {
      State(handles.View(), modules.View(), functions.View(), dev)
    }

    /** Room for `n` more handles in each 64-bit counter. */
    ghost predicate Room(n: nat)
      reads handles, modules, functions
    {
      handles.nextId + n < TWO_64 && modules.nextId + n < TWO_64 && functions.nextId + n < TWO_64
    }

    constructor (device: Device)
      ensures Valid() && View() == State(EmptyTable(), EmptyTable(), EmptyTable(), device)
      ensures fresh(handles) && fresh(modules) && fresh(functions)
    {
      handles := new HandleTable<nat>();
      modules := new HandleTable<nat>();
      functions := new HandleTable<nat>();
      dev := device;
    }

    method HandleRequest(r: Request, o: Outcome) returns (resp: Response)
      requires Valid() && Room(1)
      modifies this, handles, modules, functions
      ensures Valid() && (View(), resp) == Handle(old(View()), r, o)
      ensures handles.nextId <= old(handles.nextId) + 1 && modules.nextId <= old(modules.nextId) + 1
      ensures functions.nextId <= old(functions.nextId) + 1
    {
      hide LE;
      match r
      case DeviceCount => resp := if o.ok then Ok(o.bytes) else Err(o.text);
      case SetDevice(_) => resp := Ok([]);
      case Malloc(size) =>
        if o.ok {
          dev := DevMalloc(dev, size, o);
          var id := handles.Insert(o.ptr);
          resp := Ok(LE(id, 8));
        } else {
          resp := Err(o.text);
        }
      case Free(handle) =>
        var found := handles.Remove(handle);
        if found.None? {
          assert RemoveFrom(old(handles.View()), handle).entries == old(handles.View()).entries;
          resp := Err(o.text);
        } else if o.ok {
          dev := DevFree(dev, found.value);
          resp := Ok([]);
        } else {
          resp := Err(o.text);
        }
      case MemcpyH2D(handle, offset, data) =>
        var found := handles.Get(handle);
        if found.Some? && o.ok {
          dev := dev.(mem := Overwrite(dev.mem, found.value + offset, data));
          resp := Ok([]);
        } else {
          resp := Err(o.text);
        }
      case MemcpyD2H(handle, offset, len) =>
        var found := handles.Get(handle);
        resp := if found.Some? && o.ok then Ok(o.bytes) else Err(o.text);
      case GetDeviceProperties(_) => resp := if o.ok then Ok(o.bytes) else Err(o.text);
      case LoadModule(data) =>
        if o.ok {
          var id := modules.Insert(o.ptr);
          resp := Ok(LE(id, 8));
        } else {
          resp := Err(o.text);
        }
      case GetFunction(m, name) =>
        var found := modules.Get(m);
        if found.Some? && o.ok {
          var id := functions.Insert(o.ptr);
          resp := Ok(LE(id, 8));
        } else {
          resp := Err(o.text);
        }
      case LaunchKernel(_, _, _, _, _, _) => resp := LaunchRequest(r, o);
    }

    method LaunchRequest(r: Request, o: Outcome) returns (resp: Response)
      requires Valid() && r.LaunchKernel?
      modifies this`dev
      ensures Valid() && (View(), resp) == HandleLaunch(old(View()), r, o)
    {
      var found := functions.Get(r.function_);
      if found.None? {
        return Err(o.text);
      }
      var args := new u8[|r.args|](i requires 0 <= i < |r.args| => r.args[i]);
      assert args[..] == r.args;
      var patched := PatchInPlace(handles, r.fixups, args);
      if !patched || !o.ok {
        return Err(o.text);
      }
      var run := Launch(found.value, r.grid, r.block, r.sharedMem, args[..]);
      dev := dev.(mem := o.contents, launches := dev.launches + [run]);
      resp := Ok([]);
    }

    /** One turn of the `handle_client` loop; `served` is false when the stream ended or
        stopped making sense. */
    method ServeOne(input: Stream, output: Stream, o: Outcome) returns (served: bool)
      requires Valid() && Room(1) && input != output
      modifies this, handles, modules, functions, input, output
      ensures Valid() && (forall n: nat :: old(Room(n + 1)) ==> Room(n))
      ensures served <==> ReadRequest(old(input.bytes)).Got?
      ensures served ==>
                var got := ReadRequest(old(input.bytes));
                var (s, resp) := Handle(old(View()), got.value, o);
                View() == s && input.bytes == got.rest && output.bytes == old(output.bytes) + EncodeResponse(resp)
      ensures !served ==> View() == old(View()) && output.bytes == old(output.bytes)
    {
      hide Handle, ReadRequest, EncodeResponse;
      var got := ReadRequestFrom(input);
      if !got.Got? {
        return false;
      }
      var resp := HandleRequest(got.value, o);
      WriteResponse(resp, output);
      served := true;
    }

    /** `handle_client`, against one HIP outcome per request: all of them are answered. */
    method HandleClient(input: Stream, output: Stream, os: seq<Outcome>)
      requires Valid() && Room(|os|) && input != output
      modifies this, handles, modules, functions, input, output
      ensures Valid() && old(output.bytes) <= output.bytes
      ensures var (s, sent) := Serve(old(View()), old(input.bytes), os);
              View() == s && output.bytes == old(output.bytes) + sent
      ensures forall rs, tail :: OnStream(old(input.bytes), rs, tail) && |rs| <= |os| ==>
                AllAnswered(old(View()), rs, os, View(), output.bytes[|old(output.bytes)|..])
    {
      hide Handle, ReadRequest, EncodeResponse, OnStream, AllAnswered;
      ServeIsAllAnswered(View(), input.bytes, os);
      ghost var sent := [];
      ghost var start := Serve(View(), input.bytes, os);
      assert os[0..] == os && sent + start.1 == start.1;
      for i := 0 to |os|
        invariant Valid() && Room(|os| - i)
        invariant output.bytes == old(output.bytes) + sent
        invariant var (s, rest) := Serve(View(), input.bytes, os[i..]); start == (s, sent + rest)
      {
        ghost var before, frame := View(), input.bytes;
        assert os[i..][1..] == os[i + 1..];
        assert Room(|os| - i - 1 + 1);
        var served := ServeOne(input, output, os[i]);
        if !served {
          return;
        }
        ghost var resp := Handle(before, ReadRequest(frame).value, os[i]).1;
        ghost var (s, rest) := Serve(View(), input.bytes, os[i + 1..]);
        assert sent + (EncodeResponse(resp) + rest) == (sent + EncodeResponse(resp)) + rest;
        sent := sent + EncodeResponse(resp);
      }
    }
  }
}
