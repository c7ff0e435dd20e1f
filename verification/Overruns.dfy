/** Copies that run past the end of their allocation. The stub resolves only the pointer
    and the daemon forwards any length, so nothing stops them. */
module Overruns {
  import opened Basics
  import opened Bytes
  import opened Protocol
  import opened FakeAddresses
  import opened HandleTables
  import opened Daemon
  import opened Bridge
  import opened BridgeSafety
  import opened CopyBounds
  import opened BridgeRefinement
  import opened WholeCalls

  // ----- against the flat device

  lemma NothingAtTheEnd(s: Sys, b: nat)
    requires SpaceOk(s) && b in s.space.ranges
    ensures FlatByte(s, b + s.space.ranges[b].size) == None
  {
    hide FlatByte;
    var a := b + s.space.ranges[b].size;
    forall c: nat
      ensures !Holds(s.space, c, a)
    {
      if c in s.space.ranges && c < b {
        ValidSeparates(s.space, c, b);
      } else if c in s.space.ranges && b < c {
        ValidSeparates(s.space, b, c);
      }
    }
    FlatNone(s, a);
  }

  /** In any state, carrying out a copy on a live allocation is the flat device's step it
      claims to be exactly when the copy ends inside the allocation. */
  lemma ServedCopyIsFlatIff(s: Sys, o: Outcome)
    requires Inv(s) && Enabled(s, Serve(o)) && o.ok && s.flying.Some? && (s.flying.value.CallH2D? || s.flying.value.CallD2H?)
    requires s.flying.value.handle in s.ledger && s.ledger[s.flying.value.handle].owner.AtBase?
    ensures var c := s.flying.value;
            var len := if c.CallH2D? then |c.data| else c.len;
            FlatNext(FlatOf(s), ServeEvent(s, o), FlatOf(Next(s, Serve(o)))) <==> c.offset + len <= s.ledger[c.handle].size
  {
    hide LedgerOk, BlocksOk, SpaceOk, ThreadsOk, WireOk, FlatByte, Enabled, Next, HipContract;
    var c := s.flying.value;
    var len := if c.CallH2D? then |c.data| else c.len;
    if c.offset + len <= s.ledger[c.handle].size {
      ServedStep(s, o);
    } else {
      OverrunEnd(s, o);
      var a: nat := c.ptr - c.offset + s.ledger[c.handle].size;
      assert c.ptr <= a < c.ptr + len && FlatOf(s)(a).None?;
    }
  }

  lemma OverrunEnd(s: Sys, o: Outcome)
    requires Inv(s) && Enabled(s, Serve(o)) && o.ok && s.flying.Some? && (s.flying.value.CallH2D? || s.flying.value.CallD2H?)
    requires s.flying.value.handle in s.ledger && s.ledger[s.flying.value.handle].owner.AtBase?
    ensures var c, e := s.flying.value, ServeEvent(s, o);
            && c.offset <= c.ptr && c.offset <= s.ledger[c.handle].size
            && FlatByte(s, c.ptr - c.offset + s.ledger[c.handle].size) == None
            && e == (if c.CallH2D? then Wrote(c.ptr, c.data) else ReadBack(c.ptr, o.bytes))
            && (c.CallD2H? ==> |o.bytes| == c.len)
  {
    hide LedgerOk, BlocksOk, ThreadsOk, WireOk, FlatByte, Enabled, Next, OneFrame, Valid;
    var c := s.flying.value;
    ServedCallOk(s, o);
    NothingAtTheEnd(s, c.ptr - c.offset);
    if c.CallD2H? {
      D2HFrame(s, o);
      BoundIfOwned(s, c.handle);
    }
  }

  lemma ServedCallOk(s: Sys, o: Outcome)
    requires Inv(s) && Enabled(s, Serve(o)) && s.flying.Some?
    ensures CallOk(s, s.flying.value)
  {
    hide Inv, CallOk;
    ServedIsSent(s);
  }

  // ----- against other allocations

  /** If the step carries out a copy in, no byte of any other allocation moves. */
  ghost predicate LeavesOthers(s: Sys, step: Step, s': Sys) {
    step.Serve? && s.flying.Some? && s.flying.value.CallH2D? ==>
      forall g, j :: g in s.daemon.handles.entries && g in s.ledger && g != s.flying.value.handle && 0 <= j < s.ledger[g].size
                ==> LiveByteSame(s, s', g, j)
  }

  ghost predicate NeverAnother(s: Sys, steps: seq<Step>)
    requires IsRun(s, steps)
  {
    forall i :: 0 <= i < |steps| ==> LeavesOthers(States(s, steps)[i], steps[i], States(s, steps)[i + 1])
  }

  /** Copies in of `len` bytes at `offset` of allocations of `size`; copies out at will. */
  function CopiesIn(size: nat, offset: nat, len: nat): Bound {
    (copyIn, z, o, n) => copyIn ==> z == size && o == offset && n == len
  }

  /** An allocation of no bytes has address null, where one byte reaches no block. */
  lemma ServedLeavesOthers(s: Sys, o: Outcome, size: nat, offset: nat, len: nat)
    requires Inv(s) && Enabled(s, Serve(o)) && s.flying.Some? && s.flying.value.CallH2D?
    requires CopyMeets(s, s.flying.value, CopiesIn(size, offset, len))
    requires offset + len <= Extent(size) || 24 + len > MAX_BODY_LEN
    ensures LeavesOthers(s, Serve(o), Next(s, Serve(o)))
  {
    hide LedgerOk, BlocksOk, SpaceOk, ThreadsOk, WireOk, EncodeResponse, Overwrite, OneFrame;
    ServedIsSent(s);
    var s', c := Next(s, Serve(o)), s.flying.value;
    assert 24 + len <= MAX_BODY_LEN;
    forall g, j | g in s.daemon.handles.entries && g in s.ledger && g != c.handle && 0 <= j < s.ledger[g].size
      ensures LiveByteSame(s, s', g, j)
    {
      BoundByteIsLive(s, g, j);
      if c.handle in s.daemon.handles.entries && o.ok {
        if size > 0 {
          OverwriteEffect(s, c.handle, c.offset, c.data, g, j);
        } else {
          NullReachesNothing(s, c.handle, c.data, g, j);
        }
      }
    }
  }

  lemma NullReachesNothing(s: Sys, h: nat, data: seq<u8>, g: nat, j: nat)
    requires LedgerOk(s) && BlocksOk(s) && h in s.daemon.handles.entries && s.ledger[h].size == 0 && |data| <= 1
    requires g in s.daemon.handles.entries && j < s.ledger[g].size
    ensures var mem := Overwrite(s.daemon.dev.mem, s.daemon.handles.entries[h] + 0, data);
            && RealByte(s, g, j) in s.daemon.dev.mem && RealByte(s, g, j) in mem
            && mem[RealByte(s, g, j)] == s.daemon.dev.mem[RealByte(s, g, j)]
  {
    BoundByteIsLive(s, g, j);
    assert BlockOf(s.daemon.dev, s.ledger[h]) && BlockOf(s.daemon.dev, s.ledger[g]);
  }

  // ----- a run that overruns

  /** The real address of an allocation of `size`, and of the next one. */
  function First(size: nat): nat {
    if size == 0 then 0 else BLOCK
  }

  function Second(size: nat): nat {
    First(size) + Extent(size)
  }

  function Fill(len: nat, b: u8): (s: seq<u8>)
    ensures |s| == len && forall i :: 0 <= i < len ==> s[i] == b
  {
    seq(len, i => b)
  }

  function TwoMallocs(size: u64): seq<Step> {
    CallSteps(BeginMalloc(0, size, true), MallocAnswer(First(size), Fill(size, 0)))
    + CallSteps(BeginMalloc(0, 1, true), MallocAnswer(Second(size), Fill(1, 0)))
  }

  /** A copy in of ones, up to the daemon's step. */
  function CopyInSteps(ptr: u64, len: nat): seq<Step> {
    [BeginH2D(0, ptr, Fill(len, 1))] + ([Send(0)] + ([Serve(CopyAnswer([]))] + []))
  }

  /** Handles 1 and 2, the block of the second right behind that of the first. */
  ghost predicate TwoBlocks(s: Sys, size: u64) {
    && AtRest(s) && s.s2c == [] && s.space == AllocateIn(AllocateIn(EMPTY_SPACE, 1, size), 2, 1)
    && s.daemon.handles == Table(3, map[1 := First(size), 2 := Second(size)])
    && Second(size) in s.daemon.dev.mem && s.daemon.dev.mem[Second(size)] == 0
  }

  /** Handle 1 alone. */
  ghost predicate OneBlock(s: Sys, size: u64) {
    && AtRest(s) && s.s2c == [] && s.space == AllocateIn(EMPTY_SPACE, 1, size)
    && s.daemon.handles == Table(2, map[1 := First(size)])
    && Second(size) !in s.daemon.dev.mem && Second(size) !in s.daemon.dev.blocks
  }

  lemma MallocOnce(size: u64)
    requires FIRST_BASE + Reserved(size) < TWO_64
    ensures var steps := CallSteps(BeginMalloc(0, size, true), MallocAnswer(First(size), Fill(size, 0)));
            IsRun(InitialState(NO_DEVICE), steps) && OneBlock(RunTo(InitialState(NO_DEVICE), steps), size)
  {
    hide CallSteps, AllocateIn, Reserved, IsRun, RunTo;
    ReservedBounds(size);
    CleanMalloc(InitialState(NO_DEVICE), size, MallocAnswer(First(size), Fill(size, 0)));
  }

  lemma MallocTwice(size: u64)
    requires FIRST_BASE + Reserved(size) + Reserved(1) < TWO_64
    ensures IsRun(InitialState(NO_DEVICE), TwoMallocs(size)) && TwoBlocks(RunTo(InitialState(NO_DEVICE), TwoMallocs(size)), size)
  {
    hide CallSteps, AllocateIn, Reserved, IsRun, RunTo, InitialState;
    ReservedBounds(size);
    NextBaseAfter(EMPTY_SPACE, 1, size);
    MallocOnce(size);
    var s, o := InitialState(NO_DEVICE), MallocAnswer(Second(size), Fill(1, 0));
    var first := CallSteps(BeginMalloc(0, size, true), MallocAnswer(First(size), Fill(size, 0)));
    CleanMalloc(RunTo(s, first), 1, o);
    RunAppend(s, first, CallSteps(BeginMalloc(0, 1, true), o));
  }

  lemma NextBaseAfter(sp: Space, handle: u64, size: u64)
    ensures AllocateIn(sp, handle, size).nextBase == sp.nextBase + Reserved(size)
  {
    hide Reserved;
  }

  lemma FirstCovers(size: u64, offset: nat)
    requires offset < Extent(size) && FIRST_BASE + Reserved(size) < TWO_64
    ensures var sp, ptr := AllocateIn(AllocateIn(EMPTY_SPACE, 1, size), 2, 1), FIRST_BASE + offset;
            && ptr < TWO_64 && ResolveIn(sp, ptr) == Some((1, offset))
            && forall b: nat :: Covers(sp, b, ptr) ==> b == FIRST_BASE && sp.ranges[b].size == size
  {
    hide Reserved, ResolveIn, Valid;
    ReservedBounds(size);
    AllocateValid(EMPTY_SPACE, 1, size);
    var sp, ptr := AllocateIn(AllocateIn(EMPTY_SPACE, 1, size), 2, 1), FIRST_BASE + offset;
    AllocateValid(AllocateIn(EMPTY_SPACE, 1, size), 2, 1);
    assert Covers(sp, FIRST_BASE, ptr);
    ResolveIsScan(sp, ptr, 1, offset);
    forall b: nat | Covers(sp, b, ptr)
      ensures b == FIRST_BASE
    {
      CoverUnique(sp, FIRST_BASE, b, ptr);
    }
  }

  /** The copy in is carried out, and its last step writes over the second block. */
  lemma CopyOver(s: Sys, size: u64, offset: nat, len: nat)
    requires TwoBlocks(s, size) && Inv(s) && FIRST_BASE + Reserved(size) < TWO_64
    requires offset < Extent(size) < offset + len && 24 + len <= MAX_BODY_LEN
    ensures FIRST_BASE + offset < TWO_64
    ensures var steps := CopyInSteps(FIRST_BASE + offset, len);
            && IsRun(s, steps) && BeginMeets(s, steps[0], CopiesIn(size, offset, len))
            && !LeavesOthers(States(s, steps)[2], steps[2], States(s, steps)[3])
  {
    hide Body, HipContract, EncodeRequest, EncodeResponse, ReadRequest, RequestOf, Reserved, Inv, BeginMeets, LeavesOthers, IsRun, States, Overwrite,
         Handle, Next, Enabled;
    CopyBegins(s, size, offset, Fill(len, 1));
    var ptr: u64 := FIRST_BASE + offset;
    var data, o := Fill(len, 1), CopyAnswer([]);
    var s1 := Next(s, BeginH2D(0, ptr, data));
    var c := CallH2D(ptr, 1, offset, data);
    H2DLength(c);
    AnyH2D(s1.daemon, c, o);
    Answered(s1, c, o);
    var s2 := Next(s1, Send(0));
    SentFrame(s1, c);
    ThreeStates(s, BeginH2D(0, ptr, data), Send(0), Serve(o));
    CopyWrites(s, c, o);
    SecondOverwritten(s, s2, size, offset, data, Next(s2, Serve(o)));
  }

  lemma CopyBegins(s: Sys, size: u64, offset: nat, data: seq<u8>)
    requires TwoBlocks(s, size) && FIRST_BASE + Reserved(size) < TWO_64 && offset < Extent(size) && 24 + |data| < TWO_64
    ensures FIRST_BASE + offset < TWO_64
    ensures var step, c := BeginH2D(0, FIRST_BASE + offset, data), CallH2D(FIRST_BASE + offset, 1, offset, data);
            && Enabled(s, step) && Next(s, step) == s.(threads := Set(s, 0, Ready(c)))
            && BeginMeets(s, step, CopiesIn(size, offset, |data|))
  {
    hide Reserved, AllocateIn, ResolveIn;
    FirstCovers(size, offset);
  }

  lemma SentFrame(s: Sys, c: Call)
    requires Enabled(s, Send(0)) && ThreadOf(s, 0) == Ready(c)
    ensures var s' := Next(s, Send(0)); s'.daemon == s.daemon && s'.ledger == s.ledger && s'.flying == Some(c)
  {
    hide EncodeRequest, RequestOf;
  }

  /** What a bound handle's copy in does when HIP makes it. */
  lemma CopyWrites(s: Sys, c: Call, o: Outcome)
    requires c.CallH2D? && o.ok && c.handle in s.daemon.handles.entries
    ensures Handle(s.daemon, RequestOf(c), o).0.dev.mem
              == Overwrite(s.daemon.dev.mem, s.daemon.handles.entries[c.handle] + c.offset, c.data)
  {
  }

  lemma ThreeStates(s: Sys, a: Step, b: Step, c: Step)
    requires Enabled(s, a) && Enabled(Next(s, a), b) && Enabled(Next(Next(s, a), b), c)
    ensures var steps := [a] + ([b] + ([c] + []));
            && IsRun(s, steps)
            && States(s, steps) == [s, Next(s, a), Next(Next(s, a), b), Next(Next(Next(s, a), b), c)]
  {
    hide Enabled, Next;
    var s1 := Next(s, a);
    var s2 := Next(s1, b);
    var s3 := Next(s2, c);
    assert IsRun(s3, []) && States(s3, []) == [s3];
    OneMore(s2, c, []);
    OneMore(s1, b, [c] + []);
    OneMore(s, a, [b] + ([c] + []));
  }

  lemma OneMore(s: Sys, step: Step, rest: seq<Step>)
    requires Enabled(s, step) && IsRun(Next(s, step), rest)
    ensures IsRun(s, [step] + rest) && States(s, [step] + rest) == [s] + States(Next(s, step), rest)
  {
    hide Enabled, Next;
    assert ([step] + rest)[1..] == rest;
  }

  lemma H2DLength(c: Call)
    requires c.CallH2D?
    ensures |Body(RequestOf(c))| == 24 + |c.data|
  {
    hide LE;
  }

  lemma AnyH2D(d: State, c: Call, o: Outcome)
    requires c.CallH2D? && |o.text| < TWO_32
    ensures HipContract(d, RequestOf(c), o)
  {
  }

  lemma SecondOverwritten(s: Sys, s2: Sys, size: u64, offset: nat, data: seq<u8>, s3: Sys)
    requires TwoBlocks(s, size) && Inv(s)
    requires s2.daemon == s.daemon && s2.ledger == s.ledger && s2.flying.Some? && s2.flying.value.CallH2D? && s2.flying.value.handle == 1
    requires offset < Extent(size) < offset + |data| && forall i :: 0 <= i < |data| ==> data[i] == 1
    requires s3.daemon.dev.mem == Overwrite(s.daemon.dev.mem, First(size) + offset, data)
    ensures !LeavesOthers(s2, Serve(CopyAnswer([])), s3)
  {
    hide Reserved;
    var b := FIRST_BASE + Reserved(size);
    ReservedBounds(size);
    assert s.space.ranges[b] == AllocRange(2, 1);
    assert RealByte(s2, 2, 0) == Second(size);
    assert !LiveByteSame(s2, s3, 2, 0);
  }

  lemma NoCopiesInMallocs(size: u64)
    ensures |TwoMallocs(size)| == 10 && forall i :: 0 <= i < 10 ==> !TwoMallocs(size)[i].BeginH2D? && !TwoMallocs(size)[i].BeginD2H?
  {
    hide MallocAnswer;
  }

  /** Whenever the copied bytes run past the end and the daemon will take them in, there
      is a run from the start whose only copy writes over another allocation. */
  lemma OverrunReachesAnother(size: u64, offset: nat, len: nat)
    requires offset < Extent(size) < offset + len && 24 + len <= MAX_BODY_LEN
    requires FIRST_BASE + Reserved(size) + Reserved(1) < TWO_64
    ensures FIRST_BASE + offset < TWO_64 && ValidDevice(NO_DEVICE)
    ensures var s, steps := InitialState(NO_DEVICE), TwoMallocs(size) + CopyInSteps(FIRST_BASE + offset, len);
            IsRun(s, steps) && AllInStep(steps) && RunMeets(s, steps, CopiesIn(size, offset, len)) && !NeverAnother(s, steps)
  {
    hide Inv, TwoBlocks, IsRun, RunTo, States, LeavesOthers, Reserved, TwoMallocs, RangeMeets;
    ReservedBounds(size);
    MallocTwice(size);
    NoCopiesInMallocs(size);
    var s0, a, b := InitialState(NO_DEVICE), TwoMallocs(size), CopyInSteps(FIRST_BASE + offset, len);
    InitialInv(NO_DEVICE);
    RunInv(s0, a);
    var s := RunTo(s0, a);
    CopyOver(s, size, offset, len);
    StatesAppend(s0, a, b);
    var ss := States(s0, a + b);
    assert ss[10] == States(s, b)[0] == s && ss[12] == States(s, b)[2] && ss[13] == States(s, b)[3];
    assert !LeavesOthers(ss[12], (a + b)[12], ss[13]);
  }

  /** Over all runs whose copies in are of `len` bytes at `offset` of allocations of
      `size`: none ever moves a byte of another allocation exactly when they end inside,
      or are too long for the daemon to take in. */
  lemma NeverAnotherIffFits(size: u64, offset: nat, len: nat)
    requires offset < Extent(size) && FIRST_BASE + Reserved(size) + Reserved(1) < TWO_64
    ensures (forall dev, steps ::
               && ValidDevice(dev) && IsRun(InitialState(dev), steps) && AllInStep(steps)
               && RunMeets(InitialState(dev), steps, CopiesIn(size, offset, len))
               ==> NeverAnother(InitialState(dev), steps))
            <==> offset + len <= Extent(size) || 24 + len > MAX_BODY_LEN
  {
    hide Inv, AllMeet, RunMeets, NeverAnother, IsRun, Reserved, InitialState, ValidDevice, AllInStep;
    if offset + len <= Extent(size) || 24 + len > MAX_BODY_LEN {
      forall dev, steps | ValidDevice(dev) && IsRun(InitialState(dev), steps) && AllInStep(steps)
                          && RunMeets(InitialState(dev), steps, CopiesIn(size, offset, len))
        ensures NeverAnother(InitialState(dev), steps)
      {
        FittingRun(dev, steps, size, offset, len);
      }
    } else {
      OverrunReachesAnother(size, offset, len);
    }
  }

  lemma FittingRun(dev: Device, steps: seq<Step>, size: u64, offset: nat, len: nat)
    requires ValidDevice(dev) && IsRun(InitialState(dev), steps) && AllInStep(steps)
    requires RunMeets(InitialState(dev), steps, CopiesIn(size, offset, len))
    requires offset + len <= Extent(size) || 24 + len > MAX_BODY_LEN
    ensures NeverAnother(InitialState(dev), steps)
  {
    hide Inv, Enabled, Next, IsRun, RunMeets, LeavesOthers, InStep;
    var s0, p := InitialState(dev), CopiesIn(size, offset, len);
    InitialInv(dev);
    InitialMeets(dev, p);
    StatesBehave(s0, steps);
    var ss := States(s0, steps);
    forall i | 0 <= i < |steps|
      ensures LeavesOthers(ss[i], steps[i], ss[i + 1])
    {
      RunMeet(s0, steps, p, i);
      StepLeavesOthers(ss[i], steps[i], size, offset, len);
    }
  }

  lemma StepLeavesOthers(s: Sys, step: Step, size: nat, offset: nat, len: nat)
    requires Inv(s) && Enabled(s, step) && AllMeet(s, CopiesIn(size, offset, len))
    requires offset + len <= Extent(size) || 24 + len > MAX_BODY_LEN
    ensures LeavesOthers(s, step, Next(s, step))
  {
    hide Inv, Enabled, Next;
    if step.Serve? && s.flying.Some? && s.flying.value.CallH2D? {
      ServedLeavesOthers(s, step.o, size, offset, len);
    }
  }
}
