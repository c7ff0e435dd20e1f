/** Seen through its fake addresses, the two-process system is one flat device: a map
    from addresses to bytes that allocation, free, copies and kernels act on. */
module BridgeRefinement {
  import opened Basics
  import opened Bytes
  import opened Protocol
  import opened FakeAddresses
  import opened KernelArgs
  import opened Daemon
  import opened Bridge
  import opened BridgeSafety
  import opened CopyBounds

  // ----- the flat device

  type Flat = nat -> Option<u8>

  datatype Event =
    | Silent
    | Allocated(base: nat, size: nat)
    | Freed(base: nat, size: nat)
    | Wrote(ptr: nat, data: seq<u8>)
    | ReadBack(ptr: nat, data: seq<u8>)
    | KernelRan

  ghost predicate FlatNext(f: Flat, e: Event, g: Flat) {
    match e
    case Silent => forall a: nat :: g(a) == f(a)
    case Allocated(base, size) =>
      forall a: nat :: if base <= a < base + size then f(a).None? && g(a).Some? else g(a) == f(a)
    case Freed(base, size) =>
      forall a: nat :: if base <= a < base + size then f(a).Some? && g(a).None? else g(a) == f(a)
    case Wrote(ptr, data) =>
      forall a: nat :: if ptr <= a < ptr + |data| then f(a).Some? && g(a) == Some(data[a - ptr]) else g(a) == f(a)
    case ReadBack(ptr, data) =>
      && (forall a: nat :: g(a) == f(a))
      && (forall a: nat :: ptr <= a < ptr + |data| ==> f(a) == Some(data[a - ptr]))
    case KernelRan => forall a: nat :: f(a).Some? <==> g(a).Some?
  }

  // ----- the view

  /** `a` is byte `a - b` of the live allocation at `b`. */
  ghost predicate Holds(sp: Space, b: nat, a: nat) {
    b in sp.ranges && b <= a < b + sp.ranges[b].size
  }

  ghost function FlatByte(s: Sys, a: nat): Option<u8> {
    match Predecessor(s.space.ranges.Keys, a)
    case None => None
    case Some(b) =>
      var r := s.space.ranges[b];
      if a - b < r.size && r.handle in s.daemon.handles.entries then
        var p := s.daemon.handles.entries[r.handle] + (a - b);
        if p in s.daemon.dev.mem then Some(s.daemon.dev.mem[p]) else None
      else None
  }

  ghost function FlatOf(s: Sys): Flat {
    a => FlatByte(s, a)
  }

  /** Where byte `i` of handle `h` really lives. */
  ghost function RealByte(s: Sys, h: nat, i: nat): nat
    requires h in s.ledger
  {
    s.ledger[h].realBase + i
  }

  lemma BoundByteIsLive(s: Sys, h: nat, i: nat)
    requires LedgerOk(s) && BlocksOk(s) && h in s.daemon.handles.entries && i < s.ledger[h].size
    ensures RealByte(s, h, i) in s.daemon.dev.mem
  {
    assert BlockOf(s.daemon.dev, s.ledger[h]);
  }

  lemma FlatAt(s: Sys, b: nat, a: nat)
    requires LedgerOk(s) && BlocksOk(s) && SpaceOk(s) && Holds(s.space, b, a)
    ensures var h := s.space.ranges[b].handle;
            && h in s.daemon.handles.entries && a - b < s.ledger[h].size
            && RealByte(s, h, a - b) in s.daemon.dev.mem
            && FlatByte(s, a) == Some(s.daemon.dev.mem[RealByte(s, h, a - b)])
  {
    hide ValidDevice;
    CoverIsPredecessor(s.space, b, a);
    BoundByteIsLive(s, s.space.ranges[b].handle, a - b);
  }

  lemma FlatNone(s: Sys, a: nat)
    requires forall b :: !Holds(s.space, b, a)
    ensures FlatByte(s, a) == None
  {
    var p := Predecessor(s.space.ranges.Keys, a);
    if p.Some? {
      assert !Holds(s.space, p.value, a);
    }
  }

  /** Blocks of different bound handles share no byte. */
  lemma BlocksApart(s: Sys, h: nat, i: nat, g: nat, j: nat)
    requires LedgerOk(s) && BlocksOk(s)
    requires h in s.daemon.handles.entries && g in s.daemon.handles.entries && h != g
    requires i < s.ledger[h].size && j < s.ledger[g].size
    ensures RealByte(s, h, i) != RealByte(s, g, j)
  {
    assert BlockOf(s.daemon.dev, s.ledger[h]) && BlockOf(s.daemon.dev, s.ledger[g]);
    assert s.ledger[h].realBase != s.ledger[g].realBase;
  }

  // ----- steps the flat device does not notice

  /** Live bytes are where and what they were. */
  ghost predicate LiveBytesSame(s: Sys, s': Sys) {
    && s'.space == s.space
    && forall b, i :: b in s.space.ranges && 0 <= i < s.space.ranges[b].size ==> LiveByteSame(s, s', s.space.ranges[b].handle, i)
  }

  ghost predicate LiveByteSame(s: Sys, s': Sys, h: nat, i: nat) {
    && h in s.ledger && h in s'.ledger && RealByte(s', h, i) == RealByte(s, h, i)
    && RealByte(s, h, i) in s.daemon.dev.mem && RealByte(s, h, i) in s'.daemon.dev.mem
    && s'.daemon.dev.mem[RealByte(s, h, i)] == s.daemon.dev.mem[RealByte(s, h, i)]
  }

  lemma SilentWhenSame(s: Sys, s': Sys)
    requires LedgerOk(s) && BlocksOk(s) && SpaceOk(s) && LedgerOk(s') && BlocksOk(s') && SpaceOk(s')
    requires LiveBytesSame(s, s')
    ensures FlatNext(FlatOf(s), Silent, FlatOf(s'))
  {
    hide LedgerOk, BlocksOk, SpaceOk, FlatByte;
    forall a: nat
      ensures FlatByte(s', a) == FlatByte(s, a)
    {
      if b :| Holds(s.space, b, a) {
        FlatAt(s, b, a);
        FlatAt(s', b, a);
        assert LiveByteSame(s, s', s.space.ranges[b].handle, a - b);
      } else {
        FlatNone(s, a);
        FlatNone(s', a);
      }
    }
  }

  lemma NothingMoved(s: Sys, s': Sys)
    requires s'.space == s.space && s'.daemon.handles == s.daemon.handles && s'.daemon.dev.mem == s.daemon.dev.mem
    ensures FlatNext(FlatOf(s), Silent, FlatOf(s'))
  {
  }

  // ----- allocation and free

  lemma FreedByte(s: Sys, s': Sys, ptr: nat, a: nat)
    requires LedgerOk(s) && BlocksOk(s) && SpaceOk(s) && LedgerOk(s') && BlocksOk(s') && SpaceOk(s')
    requires ptr in s.space.ranges && s'.space == RemoveRange(s.space, ptr).0 && s'.daemon == s.daemon
    ensures if Holds(s.space, ptr, a) then FlatByte(s, a).Some? && FlatByte(s', a).None? else FlatByte(s', a) == FlatByte(s, a)
  {
    hide LedgerOk, BlocksOk, FlatByte, Valid;
    if Holds(s.space, ptr, a) {
      FlatAt(s, ptr, a);
      forall c
        ensures !Holds(s'.space, c, a)
      {
        if Holds(s'.space, c, a) {
          CoverUnique(s.space, ptr, c, a);
        }
      }
      FlatNone(s', a);
    } else if b :| Holds(s.space, b, a) {
      FlatAt(s, b, a);
      FlatAt(s', b, a);
      SameBytes(s, s', b, a);
    } else {
      FlatNone(s, a);
      assert forall c :: Holds(s'.space, c, a) ==> Holds(s.space, c, a);
      FlatNone(s', a);
    }
  }

  /** The ledger's bases are the table's, so they agree wherever the tables do. */
  lemma SameBytes(s: Sys, s': Sys, b: nat, a: nat)
    requires LedgerOk(s) && LedgerOk(s') && SpaceOk(s) && SpaceOk(s')
    requires Holds(s.space, b, a) && b in s'.space.ranges && s'.space.ranges[b] == s.space.ranges[b] && s'.daemon == s.daemon
    ensures var h := s.space.ranges[b].handle;
            h in s.ledger && h in s'.ledger && RealByte(s', h, a - b) == RealByte(s, h, a - b)
  {
    hide Valid;
  }

  lemma FreeIsFreed(s: Sys, t: Tid, ptr: u64)
    requires Inv(s) && Inv(FreeBegun(s, t, ptr)) && ptr in s.space.ranges
    ensures FlatNext(FlatOf(s), Freed(ptr, s.space.ranges[ptr].size), FlatOf(FreeBegun(s, t, ptr)))
  {
    hide LedgerOk, BlocksOk, SpaceOk, FlatByte, ThreadsOk, WireOk;
    forall a: nat {
      FreedByte(s, FreeBegun(s, t, ptr), ptr, a);
    }
  }

  lemma PlacedByte(s: Sys, s': Sys, handle: u64, size: u64, a: nat)
    requires LedgerOk(s) && BlocksOk(s) && SpaceOk(s) && LedgerOk(s') && BlocksOk(s') && SpaceOk(s')
    requires s'.space == AllocateIn(s.space, handle, size) && s'.daemon == s.daemon
    ensures if s.space.nextBase <= a < s.space.nextBase + size then FlatByte(s, a).None? && FlatByte(s', a).Some?
            else FlatByte(s', a) == FlatByte(s, a)
  {
    hide LedgerOk, BlocksOk, FlatByte, Valid, Reserved;
    var base := s.space.nextBase;
    if base <= a < base + size {
      FlatAt(s', base, a);
      forall b
        ensures !Holds(s.space, b, a)
      {
        BelowNext(s.space, b);
      }
      FlatNone(s, a);
    } else if b :| Holds(s.space, b, a) {
      BelowNext(s.space, b);
      FlatAt(s, b, a);
      FlatAt(s', b, a);
      SameBytes(s, s', b, a);
    } else {
      assert forall b :: Holds(s'.space, b, a) ==> Holds(s.space, b, a);
      FlatNone(s, a);
      FlatNone(s', a);
    }
  }

  lemma FinishIsAllocated(s: Sys, t: Tid)
    requires Enabled(s, Finish(t)) && Inv(s) && Inv(Finished(s, t))
    requires ThreadOf(s, t).call.CallMalloc? && ThreadOf(s, t).call.keep && MallocHandle(ThreadOf(s, t).resp).Some?
    ensures FlatNext(FlatOf(s), Allocated(s.space.nextBase, ThreadOf(s, t).call.size), FlatOf(Finished(s, t)))
  {
    hide LedgerOk, BlocksOk, SpaceOk, FlatByte, ThreadsOk, WireOk, MallocHandle, AllocateIn;
    forall a: nat {
      PlacedByte(s, Finished(s, t), MallocHandle(ThreadOf(s, t).resp).value, ThreadOf(s, t).call.size, a);
    }
  }

  lemma BelowNext(sp: Space, b: nat)
    requires Valid(sp)
    ensures b in sp.ranges ==> b + sp.ranges[b].size < sp.nextBase
  {
    if b in sp.ranges {
      ReservedBounds(sp.ranges[b].size);
    }
  }

  // ----- the daemon's step

  ghost function ServeEvent(s: Sys, o: Outcome): Event
    requires Enabled(s, Serve(o))
  {
    match s.flying
    case Some(CallH2D(ptr, h, _, data)) => if h in s.ledger && s.ledger[h].owner.AtBase? && o.ok then Wrote(ptr, data) else Silent
    case Some(CallD2H(ptr, h, _, _)) => if h in s.ledger && s.ledger[h].owner.AtBase? && o.ok then ReadBack(ptr, o.bytes) else Silent
    case Some(CallLaunch(_, _, _, _, _, _)) =>
      if Next(s, Serve(o)).daemon.dev.launches != s.daemon.dev.launches then KernelRan else Silent
    case _ => Silent
  }

  /** The copy's pointer still resolves as it did when the call began: nobody has freed
      the allocation meanwhile. */
  predicate StillThere(s: Sys, c: Call)
    requires c.CallH2D? || c.CallD2H?
  {
    ResolveIn(s.space, c.ptr) == Some((c.handle, c.offset))
  }

  /** A thread that is handed the bytes of a copy out has read them from the flat device. */
  ghost function ReceiveEvent(s: Sys, t: Tid): Event
    requires Enabled(s, Receive(t))
  {
    var c, resp := ThreadOf(s, t).call, ReadResponse(s.s2c).value;
    if c.CallD2H? && resp.Ok? && StillThere(s, c) then ReadBack(c.ptr, resp.body) else Silent
  }

  ghost function EventOf(s: Sys, step: Step): Event
    requires Enabled(s, step)
  {
    match step
    case BeginFree(_, ptr) => if ptr in s.space.ranges then Freed(ptr, s.space.ranges[ptr].size) else Silent
    case Finish(t) =>
      var thread := ThreadOf(s, t);
      if thread.call.CallMalloc? && thread.call.keep && MallocHandle(thread.resp).Some?
      then Allocated(s.space.nextBase, thread.call.size) else Silent
    case Serve(o) => ServeEvent(s, o)
    case Receive(t) => ReceiveEvent(s, t)
    case _ => Silent
  }

  /** A served H2D copy changes the bytes asked for in the allocation its handle was
      issued for, and none of any other. */
  lemma OverwriteEffect(s: Sys, h: nat, offset: nat, data: seq<u8>, g: nat, j: nat)
    requires LedgerOk(s) && BlocksOk(s)
    requires h in s.daemon.handles.entries && g in s.daemon.handles.entries
    requires offset + |data| <= s.ledger[h].size && j < s.ledger[g].size
    ensures var mem := Overwrite(s.daemon.dev.mem, s.daemon.handles.entries[h] + offset, data);
            && RealByte(s, g, j) in s.daemon.dev.mem && RealByte(s, g, j) in mem
            && mem[RealByte(s, g, j)] == if g == h && offset <= j < offset + |data| then data[j - offset]
                                         else s.daemon.dev.mem[RealByte(s, g, j)]
  {
    hide BlocksOk;
    BoundByteIsLive(s, g, j);
    var a, start := RealByte(s, g, j), s.ledger[h].realBase + offset;
    if g != h && start <= a < start + |data| {
      BlocksApart(s, h, a - s.ledger[h].realBase, g, j);
    }
  }

  lemma WrittenByte(s: Sys, s': Sys, ptr: nat, h: nat, offset: nat, data: seq<u8>, a: nat)
    requires LedgerOk(s) && BlocksOk(s) && SpaceOk(s) && LedgerOk(s') && BlocksOk(s') && SpaceOk(s')
    requires CopyOk(s, ptr, h, offset) && offset + |data| <= s.ledger[h].size && h in s.daemon.handles.entries
    requires s'.space == s.space && s'.ledger == s.ledger && s'.daemon.handles == s.daemon.handles
    requires s'.daemon.dev.mem == Overwrite(s.daemon.dev.mem, s.daemon.handles.entries[h] + offset, data)
    ensures if s.ledger[h].owner.AtBase? && ptr <= a < ptr + |data|
            then FlatByte(s, a).Some? && FlatByte(s', a) == Some(data[a - ptr]) else FlatByte(s', a) == FlatByte(s, a)
  {
    hide LedgerOk, BlocksOk, FlatByte, Overwrite, Valid;
    var base := ptr - offset;
    if b :| Holds(s.space, b, a) {
      FlatAt(s, b, a);
      FlatAt(s', b, a);
      OverwriteEffect(s, h, offset, data, s.space.ranges[b].handle, a - b);
      if s.ledger[h].owner.AtBase? && ptr <= a < ptr + |data| {
        CoverUnique(s.space, b, base, a);
      }
    } else {
      assert !Holds(s.space, base, a);
      FlatNone(s, a);
      FlatNone(s', a);
    }
  }

  lemma ServedH2D(s: Sys, o: Outcome)
    requires Inv(s) && Enabled(s, Serve(o)) && s.flying.Some? && s.flying.value.CallH2D? && Inv(Next(s, Serve(o)))
    requires CopyMeets(s, s.flying.value, Fits)
    ensures FlatNext(FlatOf(s), ServeEvent(s, o), FlatOf(Next(s, Serve(o))))
  {
    hide LedgerOk, BlocksOk, SpaceOk, FlatByte, Overwrite, ThreadsOk, WireOk, Enabled, Next, OneFrame;
    H2DFrame(s, o);
    var s', c := Next(s, Serve(o)), s.flying.value;
    BoundIfOwned(s, c.handle);
    if c.handle in s.daemon.handles.entries && o.ok {
      forall a: nat {
        WrittenByte(s, s', c.ptr, c.handle, c.offset, c.data, a);
      }
    } else {
      NothingMoved(s, s');
    }
  }

  /** What a served copy in does to the state. */
  lemma H2DFrame(s: Sys, o: Outcome)
    requires Inv(s) && Enabled(s, Serve(o)) && s.flying.Some? && s.flying.value.CallH2D?
    ensures var s', c := Next(s, Serve(o)), s.flying.value;
            && s'.space == s.space && s'.ledger == s.ledger && s'.daemon.handles == s.daemon.handles
            && CallOk(s, c) && 24 + |c.data| <= MAX_BODY_LEN
            && s'.daemon.dev.mem == if c.handle in s.daemon.handles.entries && o.ok
                                    then Overwrite(s.daemon.dev.mem, s.daemon.handles.entries[c.handle] + c.offset, c.data) else s.daemon.dev.mem
  {
    hide Inv, EncodeResponse, ReadRequest, HipContract, OneFrame, CopyOk, Overwrite;
    ServedIsSent(s);
  }

  lemma BoundIfOwned(s: Sys, h: nat)
    requires LedgerOk(s)
    ensures h in s.ledger && s.ledger[h].owner != Gone ==> h in s.daemon.handles.entries
  {
  }

  /** A reply to a D2H copy holds what the flat device holds at that moment. */
  lemma ServedD2H(s: Sys, o: Outcome)
    requires Inv(s) && Enabled(s, Serve(o)) && s.flying.Some? && s.flying.value.CallD2H?
    requires CopyMeets(s, s.flying.value, Fits)
    ensures FlatNext(FlatOf(s), ServeEvent(s, o), FlatOf(Next(s, Serve(o))))
    ensures ServeEvent(s, o).ReadBack? ==> Reply(Next(s, Serve(o))) == Some(Ok(ServeEvent(s, o).data))
  {
    hide LedgerOk, BlocksOk, SpaceOk, FlatByte, ThreadsOk, WireOk, Enabled, Next, HipContract;
    D2HFrame(s, o);
    var s', c := Next(s, Serve(o)), s.flying.value;
    BoundIfOwned(s, c.handle);
    NothingMoved(s, s');
    if ServeEvent(s, o).ReadBack? {
      forall a: nat | c.ptr <= a < c.ptr + |o.bytes|
        ensures FlatByte(s, a) == Some(o.bytes[a - c.ptr])
      {
        ReadByte(s, c.ptr, c.handle, c.offset, c.len, o, a);
      }
    }
  }

  lemma D2HFrame(s: Sys, o: Outcome)
    requires Inv(s) && Enabled(s, Serve(o)) && s.flying.Some? && s.flying.value.CallD2H?
    ensures var s', c := Next(s, Serve(o)), s.flying.value;
            && s'.daemon == s.daemon && s'.space == s.space
            && CallOk(s, c) && HipContract(s.daemon, MemcpyD2H(c.handle, c.offset, c.len), o)
            && (c.handle in s.daemon.handles.entries && o.ok ==> Reply(s') == Some(Ok(o.bytes)))
  {
    hide Inv, EncodeResponse, ReadRequest, HipContract, OneFrame, CopyOk;
    ServedIsSent(s);
  }

  lemma ReadByte(s: Sys, ptr: nat, h: u64, offset: u64, len: u64, o: Outcome, a: nat)
    requires LedgerOk(s) && BlocksOk(s) && SpaceOk(s) && CopyOk(s, ptr, h, offset) && offset + len <= s.ledger[h].size
    requires s.ledger[h].owner.AtBase? && o.ok && HipContract(s.daemon, MemcpyD2H(h, offset, len), o)
    requires ptr <= a < ptr + |o.bytes|
    ensures FlatByte(s, a) == Some(o.bytes[a - ptr])
  {
    hide FlatByte, Valid, ValidDevice;
    assert BlockOf(s.daemon.dev, s.ledger[h]);
    FlatAt(s, ptr - offset, a);
    assert o.bytes[a - ptr] == s.daemon.dev.mem[s.daemon.handles.entries[h] + offset + (a - ptr)];
  }

  /** A late free, or a malloc not yet placed, is invisible: no live range uses it. */
  lemma ServedFree(s: Sys, o: Outcome)
    requires Inv(s) && Enabled(s, Serve(o)) && s.flying.Some? && s.flying.value.CallFree? && Inv(Next(s, Serve(o)))
    ensures FlatNext(FlatOf(s), Silent, FlatOf(Next(s, Serve(o))))
  {
    hide LedgerOk, BlocksOk, SpaceOk, FlatByte, ThreadsOk, WireOk, EncodeResponse, DevFree, FlatNext, FlatOf;
    ServedIsSent(s);
    var s', c := Next(s, Serve(o)), s.flying.value;
    if c.handle in s.daemon.handles.entries && o.ok {
      OthersKeepBytes(s, s', c.handle);
    } else {
      NothingInMemory(s, s');
    }
  }

  lemma OthersKeepBytes(s: Sys, s': Sys, h: nat)
    requires LedgerOk(s) && BlocksOk(s) && SpaceOk(s) && LedgerOk(s') && BlocksOk(s') && SpaceOk(s')
    requires h in s.daemon.handles.entries && s.ledger[h].owner == Gone
    requires s'.space == s.space && s'.ledger == s.ledger
    requires s'.daemon.dev == DevFree(s.daemon.dev, s.daemon.handles.entries[h])
    ensures FlatNext(FlatOf(s), Silent, FlatOf(s'))
  {
    hide LedgerOk, BlocksOk, SpaceOk, DevFree, FlatNext, FlatOf;
    forall b, i | b in s.space.ranges && 0 <= i < s.space.ranges[b].size
      ensures LiveByteSame(s, s', s.space.ranges[b].handle, i)
    {
      FreeKeepsByte(s, h, b, i);
    }
    SilentWhenSame(s, s');
  }

  lemma FreeKeepsByte(s: Sys, h: nat, b: nat, i: nat)
    requires LedgerOk(s) && BlocksOk(s) && SpaceOk(s)
    requires h in s.daemon.handles.entries && s.ledger[h].owner == Gone
    requires b in s.space.ranges && i < s.space.ranges[b].size
    ensures var g := s.space.ranges[b].handle;
            var dev := DevFree(s.daemon.dev, s.daemon.handles.entries[h]);
            g in s.ledger && RealByte(s, g, i) in s.daemon.dev.mem && RealByte(s, g, i) in dev.mem
            && dev.mem[RealByte(s, g, i)] == s.daemon.dev.mem[RealByte(s, g, i)]
  {
    hide Valid, ValidDevice;
    var g := s.space.ranges[b].handle;
    BoundByteIsLive(s, g, i);
    assert BlockOf(s.daemon.dev, s.ledger[h]);
    var ptr := s.ledger[h].realBase;
    if s.ledger[h].size > 0 && ptr <= RealByte(s, g, i) < ptr + s.ledger[h].size {
      BlocksApart(s, h, RealByte(s, g, i) - ptr, g, i);
    }
    if s.ledger[h].size == 0 {
      NullIsNoBlock(s.daemon.dev);
    }
  }

  lemma NullIsNoBlock(dev: Device)
    requires ValidDevice(dev)
    ensures 0 !in dev.blocks
  {
  }

  lemma NothingInMemory(s: Sys, s': Sys)
    requires LedgerOk(s) && BlocksOk(s) && SpaceOk(s) && LedgerOk(s') && BlocksOk(s') && SpaceOk(s')
    requires s'.space == s.space && s'.ledger == s.ledger && s'.daemon.dev == s.daemon.dev
    ensures FlatNext(FlatOf(s), Silent, FlatOf(s'))
  {
    hide LedgerOk, BlocksOk, FlatByte, Valid;
    forall b, i | b in s.space.ranges && 0 <= i < s.space.ranges[b].size
      ensures var h := s.space.ranges[b].handle; h in s.ledger && RealByte(s, h, i) in s.daemon.dev.mem
    {
      BoundIfOwned(s, s.space.ranges[b].handle);
      BoundByteIsLive(s, s.space.ranges[b].handle, i);
    }
    SilentWhenSame(s, s');
  }

  lemma ServedMalloc(s: Sys, o: Outcome)
    requires Inv(s) && Enabled(s, Serve(o)) && s.flying.Some? && s.flying.value.CallMalloc? && Inv(Next(s, Serve(o)))
    ensures FlatNext(FlatOf(s), Silent, FlatOf(Next(s, Serve(o))))
  {
    hide LedgerOk, BlocksOk, FlatByte, ThreadsOk, WireOk, EncodeResponse, Valid, LE;
    ServedIsSent(s);
    FreshEntry(s, o);
    var s' := Next(s, Serve(o));
    forall b, i | b in s.space.ranges && 0 <= i < s.space.ranges[b].size
      ensures var h := s.space.ranges[b].handle; h in s.ledger && RealByte(s, h, i) in s.daemon.dev.mem
    {
      BoundIfOwned(s, s.space.ranges[b].handle);
      BoundByteIsLive(s, s.space.ranges[b].handle, i);
    }
    SilentWhenSame(s, s');
  }

  /** A served copy or free carrying handle `h` acts on the block `h` was issued for, or is
      refused and changes nothing; the block a handle was issued for never changes
      (`RunInv`). No byte outside that block changes, unless it is a copy in that runs
      past the end of it. */
  lemma RequestReachesItsAllocation(s: Sys, o: Outcome, h: u64)
    requires Inv(s) && Enabled(s, Serve(o)) && s.flying.Some?
    requires match s.flying.value
             case CallH2D(_, handle, _, _) => h == handle
             case CallD2H(_, handle, _, _) => h == handle
             case CallFree(handle) => h == handle
             case _ => false
    ensures var s', c := Next(s, Serve(o)), s.flying.value;
            && h in s.ledger
            && (h !in s.daemon.handles.entries ==> Reply(s') == Some(Err(o.text)) && s'.daemon.dev == s.daemon.dev)
            && (h in s.daemon.handles.entries ==>
                  s.daemon.handles.entries[h] == s.ledger[h].realBase
                  && (!(c.CallH2D? && c.offset + |c.data| > s.ledger[h].size) ==>
                        OutsideSame(s.daemon.dev, s'.daemon.dev, s.ledger[h].realBase, s.ledger[h].size)))
  {
    hide SpaceOk, ThreadsOk, WireOk, EncodeResponse, Valid, ValidDevice;
    ServedIsSent(s);
    if h in s.daemon.handles.entries {
      assert BlockOf(s.daemon.dev, s.ledger[h]);
      if s.flying.value.CallFree? && s.ledger[h].size == 0 {
        NullIsNoBlock(s.daemon.dev);
      }
    }
  }

  /** The bytes outside the block are where and what they were. */
  ghost predicate OutsideSame(dev: Device, dev': Device, base: nat, size: nat) {
    forall a :: a in dev.mem && !(base <= a < base + size) ==> a in dev'.mem && dev'.mem[a] == dev.mem[a]
  }

  /** The block is given back, and no other is touched. */
  ghost predicate Released(dev: Device, dev': Device, base: nat, size: nat) {
    && dev'.blocks == dev.blocks - {base} && OutsideSame(dev, dev', base, size)
    && (forall a :: base <= a < base + size ==> a !in dev'.mem)
  }

  /** What an accepted free of a bound handle does. */
  lemma FreeReleases(dev: Device, base: nat, size: nat)
    requires ValidDevice(dev) && if size == 0 then base == 0 else base in dev.blocks && dev.blocks[base] == size
    ensures Released(dev, DevFree(dev, base), base, size)
  {
    NullIsNoBlock(dev);
  }

  // ----- launches

  /** The real bases of all handles issued so far. */
  ghost function Bases(s: Sys): map<nat, nat> {
    map h | h in s.ledger :: s.ledger[h].realBase
  }

  /** Between `before` and `after` one kernel ran: the one bound to the handle asked for,
      with the caller's dimensions, on the caller's blob with its live pointers real. */
  ghost predicate RanOnce(before: seq<Launch>, after: seq<Launch>, functions: map<nat, nat>, c: Call, bases: map<nat, nat>)
    requires c.CallLaunch?
  {
    && c.function_ in functions && |after| == |before| + 1 && after[..|before|] == before
    && var run := after[|before|];
       && run.function_ == functions[c.function_] && run.grid == c.grid && run.block == c.block && run.sharedMem == c.sharedMem
       && MadeReal(c.at, bases, c.args, run.args)
  }

  lemma RunIsRanOnce(before: seq<Launch>, after: seq<Launch>, functions: map<nat, nat>, c: Call, bases: map<nat, nat>)
    requires c.CallLaunch? && c.function_ in functions && Valid(c.at) && |c.args| < TWO_32
    requires forall f :: f in Scan(c.at, c.args) ==> f.handle in bases
    requires after == before + [Launch(functions[c.function_], c.grid, c.block, c.sharedMem, Translated(c.at, bases, c.args))]
    ensures RanOnce(before, after, functions, c, bases)
  {
    hide Scan, Translated, MadeReal, Valid;
    TranslatedIsReal(c.at, bases, c.args);
  }

  /** What a pointer is made into: while its range lives, the real address the flat
      device reads that byte from, with nothing cut off. */
  lemma RealAddressIsFlat(s: Sys, b: nat, p: nat)
    requires Inv(s) && b in s.space.ranges && b <= p < b + s.space.ranges[b].size
    ensures var h := s.space.ranges[b].handle;
            && h in Bases(s)
            && var addr := (Bases(s)[h] + (p - b)) % 0x1_0000_0000_0000_0000;
               addr in s.daemon.dev.mem && FlatByte(s, p) == Some(s.daemon.dev.mem[addr])
  {
    hide ThreadsOk, WireOk, FlatByte, Valid;
    var h := s.space.ranges[b].handle;
    FlatAt(s, b, p);
    assert BlockOf(s.daemon.dev, s.ledger[h]);
  }

  /** However the threads interleave, a served launch either is refused and nothing runs,
      or runs once, on the caller's blob with every live fake pointer replaced by the
      real address it stood for when the caller's thread scanned it. A fixup whose
      handle has since been unbound refuses the launch. */
  lemma LaunchRefinement(s: Sys, o: Outcome)
    requires Inv(s) && Enabled(s, Serve(o)) && s.flying.Some? && s.flying.value.CallLaunch?
    ensures var s', c := Next(s, Serve(o)), s.flying.value;
            var runs := s.daemon.dev.launches;
            var functions := s.daemon.functions.entries;
            if o.ok && c.function_ in functions && (forall f :: f in Scan(c.at, c.args) ==> f.handle in s.daemon.handles.entries)
            then RanOnce(runs, s'.daemon.dev.launches, functions, c, Bases(s))
                 && Reply(s') == Some(Ok([]))
            else s'.daemon == s.daemon && Reply(s') == Some(Err(o.text))
  {
    hide BlocksOk, SpaceOk, ThreadsOk, WireOk, EncodeResponse, Scan, Translated, PatchFirst, Valid, RanOnce;
    ServedIsSent(s);
    var c, functions := s.flying.value, s.daemon.functions.entries;
    ScannedHandlesIssued(s, c.at, c.args);
    ScanThenPatch(c.at, Bases(s), s.daemon.handles.entries, c.args);
    var after := Next(s, Serve(o)).daemon.dev.launches;
    if after != s.daemon.dev.launches {
      RunIsRanOnce(s.daemon.dev.launches, after, functions, c, Bases(s));
    }
  }

  lemma ScannedHandlesIssued(s: Sys, at: Space, args: seq<u8>)
    requires SnapshotOk(s, at) && |args| < TWO_32
    ensures forall f :: f in Scan(at, args) ==> f.handle in s.ledger
  {
    hide ResolveIn, Scan;
    ScanExact(at, args);
    forall f | f in Scan(at, args)
      ensures f.handle in s.ledger
    {
      assert IsFixupOf(at, args, |args|, f);
      var b := ResolveSome(at, WordAt(args, f.offset));
    }
  }

  lemma ServedLaunch(s: Sys, o: Outcome)
    requires Inv(s) && Enabled(s, Serve(o)) && s.flying.Some? && s.flying.value.CallLaunch? && Inv(Next(s, Serve(o)))
    ensures FlatNext(FlatOf(s), ServeEvent(s, o), FlatOf(Next(s, Serve(o))))
  {
    hide LedgerOk, BlocksOk, SpaceOk, FlatByte, ThreadsOk, WireOk, EncodeResponse, Patch, Scan, Valid;
    ServedIsSent(s);
    var s' := Next(s, Serve(o));
    if s'.daemon.dev.launches == s.daemon.dev.launches {
      NothingMoved(s, s');
    } else {
      forall a: nat
        ensures FlatByte(s, a).Some? <==> FlatByte(s', a).Some?
      {
        if b :| Holds(s.space, b, a) {
          FlatAt(s, b, a);
          FlatAt(s', b, a);
        } else {
          FlatNone(s, a);
          FlatNone(s', a);
        }
      }
    }
  }

  // ----- what a thread is handed

  /** The pointer of a copy under way still resolves exactly while its allocation lives. */
  lemma StillThereIff(s: Sys, c: Call)
    requires SpaceOk(s) && CallOk(s, c) && (c.CallH2D? || c.CallD2H?)
    ensures StillThere(s, c) <==> s.ledger[c.handle].owner.AtBase?
  {
    hide Valid, OneFrame;
    if StillThere(s, c) {
      var b := ResolveSome(s.space, c.ptr);
    } else if s.ledger[c.handle].owner.AtBase? {
      var b := c.ptr - c.offset;
      assert Covers(s.space, b, c.ptr);
      ResolveIsScan(s.space, c.ptr, c.handle, c.offset);
    }
  }

  /** The bytes of a delivered copy out are the flat device's at the very moment they are
      delivered, as many as were asked for. */
  lemma DeliveredCopyOut(s: Sys, t: Tid)
    requires Inv(s) && Enabled(s, Receive(t))
    requires var c, resp := ThreadOf(s, t).call, ReadResponse(s.s2c).value; c.CallD2H? && resp.Ok?
    ensures var c, data := ThreadOf(s, t).call, ReadResponse(s.s2c).value.body;
            |data| == c.len && (StillThere(s, c) && CopyMeets(s, c, Fits) ==> forall a: nat :: c.ptr <= a < c.ptr + |data| ==> FlatByte(s, a) == Some(data[a - c.ptr]))
  {
    hide LedgerOk, BlocksOk, FlatByte, WireOk, Valid, ReadResponse;
    DeliveredIsServed(s, t);
    assert ThreadOk(s, t);
    var c, a := ThreadOf(s, t).call, s.answer.value;
    StillThereIff(s, c);
    if StillThere(s, c) && CopyMeets(s, c, Fits) {
      forall x: nat | c.ptr <= x < c.ptr + |a.resp.body|
        ensures FlatByte(s, x) == Some(a.resp.body[x - c.ptr])
      {
        ReadByte(s, c.ptr, c.handle, c.offset, c.len, a.o, x);
      }
    }
  }

  lemma ReceivedStep(s: Sys, t: Tid)
    requires Inv(s) && Enabled(s, Receive(t)) && CopyMeets(s, ThreadOf(s, t).call, Fits)
    ensures FlatNext(FlatOf(s), ReceiveEvent(s, t), FlatOf(Next(s, Receive(t))))
  {
    hide Inv, FlatByte, ReadResponse, StillThere;
    NothingMoved(s, Next(s, Receive(t)));
    if ReceiveEvent(s, t).ReadBack? {
      DeliveredCopyOut(s, t);
    }
  }

  // ----- every step, every run

  lemma ServedStep(s: Sys, o: Outcome)
    requires Inv(s) && Enabled(s, Serve(o)) && (s.flying.Some? ==> CopyMeets(s, s.flying.value, Fits))
    ensures FlatNext(FlatOf(s), ServeEvent(s, o), FlatOf(Next(s, Serve(o))))
  {
    hide LedgerOk, BlocksOk, SpaceOk, FlatByte, ThreadsOk, WireOk, EncodeResponse, Patch, Scan, Valid;
    ServedIsSent(s);
    StepInv(s, Serve(o));
    match s.flying.value
    case CallMalloc(_, _) => ServedMalloc(s, o);
    case CallFree(_) => ServedFree(s, o);
    case CallH2D(_, _, _, _) => ServedH2D(s, o);
    case CallD2H(_, _, _, _) => ServedD2H(s, o);
    case CallLaunch(_, _, _, _, _, _) => ServedLaunch(s, o);
    case CallOther(_) => NothingMoved(s, Next(s, Serve(o)));
  }

  /** Every step of the two processes is one step of the flat device, as long as the
      copies under way fit their allocations. */
  lemma StepRefinesFlat(s: Sys, step: Step)
    requires Inv(s) && Enabled(s, step) && InStep(step) && AllMeet(s, Fits)
    ensures FlatNext(FlatOf(s), EventOf(s, step), FlatOf(Next(s, step)))
  {
    hide Inv, FlatByte, ServeEvent, ReceiveEvent, HipContract, Handle, EncodeRequest, EncodeResponse, RequestOf, ReadResponse, ResolveIn, MallocHandle, Valid;
    StepInv(s, step);
    match step
    case BeginFree(t, ptr) =>
      if ptr in s.space.ranges {
        FreeIsFreed(s, t, ptr);
      } else {
        NothingMoved(s, Next(s, step));
      }
    case Finish(t) =>
      if EventOf(s, step).Allocated? {
        FinishIsAllocated(s, t);
      } else {
        NothingMoved(s, Next(s, step));
      }
    case Serve(o) => ServedStep(s, o);
    case Receive(t) =>
      assert ThreadMeets(s, t, Fits);
      ReceivedStep(s, t);
    case _ => NothingMoved(s, Next(s, step));
  }

  ghost function Trace(s: Sys, steps: seq<Step>): seq<Event>
    requires IsRun(s, steps)
    decreases steps
  {
    if steps == [] then [] else [EventOf(s, steps[0])] + Trace(Next(s, steps[0]), steps[1..])
  }

  // ----- the states of a run

  /** Consecutive states of a run that keeps in step. */
  ghost predicate Behaviour(ss: seq<Sys>, steps: seq<Step>) {
    && |ss| == |steps| + 1
    && (forall i :: 0 <= i < |ss| ==> Inv(ss[i]))
    && (forall i :: 0 <= i < |steps| ==> Enabled(ss[i], steps[i]) && InStep(steps[i]) && ss[i + 1] == Next(ss[i], steps[i]))
  }

  lemma {:induction false} StatesBehave(s: Sys, steps: seq<Step>)
    requires Inv(s) && IsRun(s, steps) && AllInStep(steps)
    ensures var ss := States(s, steps);
            && Behaviour(ss, steps) && ss[|steps|] == RunTo(s, steps)
            && |Trace(s, steps)| == |steps| && forall i :: 0 <= i < |steps| ==> Trace(s, steps)[i] == EventOf(ss[i], steps[i])
    decreases steps
  {
    hide Inv, Enabled, Next, EventOf, InStep;
    if steps != [] {
      assert InStep(steps[0]);
      StepInv(s, steps[0]);
      var s1, rest := Next(s, steps[0]), steps[1..];
      StatesBehave(s1, rest);
      var ss := States(s, steps);
      forall i | 0 <= i < |steps|
        ensures Enabled(ss[i], steps[i]) && ss[i + 1] == Next(ss[i], steps[i]) && Trace(s, steps)[i] == EventOf(ss[i], steps[i])
      {
        if i > 0 {
          assert ss[i] == States(s1, rest)[i - 1] && steps[i] == rest[i - 1];
        }
      }
    }
  }

  /** Seen as a flat device, the system goes through these events, one a step. */
  ghost predicate FlatRun(ss: seq<Sys>, events: seq<Event>) {
    |ss| == |events| + 1 && forall i :: 0 <= i < |events| ==> FlatNext(FlatOf(ss[i]), events[i], FlatOf(ss[i + 1]))
  }

  /** Any run of the two processes, with any interleaving and any losses, is a run of one
      flat device if its copies fit the allocations they were begun on: every answer the
      daemon gives to a D2H copy, and every one a thread is handed, is what that device
      holds at that step. */
  lemma RunRefinesFlat(s: Sys, steps: seq<Step>)
    requires Inv(s) && AllMeet(s, Fits) && IsRun(s, steps) && AllInStep(steps) && RunMeets(s, steps, Fits)
    ensures FlatRun(States(s, steps), Trace(s, steps))
  {
    hide Inv, AllMeet, RunMeets, Enabled, Next, FlatNext, FlatOf, EventOf, InStep, IsRun, Trace;
    StatesBehave(s, steps);
    var ss := States(s, steps);
    forall i | 0 <= i < |steps|
      ensures FlatNext(FlatOf(ss[i]), Trace(s, steps)[i], FlatOf(ss[i + 1]))
    {
      RunMeet(s, steps, Fits, i);
      StepRefinesFlat(ss[i], steps[i]);
    }
  }
}
