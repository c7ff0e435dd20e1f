/** Copies out of 4 GiB and more. The reply's length field loses their high bits, and
    where what is left is a plausible length the stub takes device data for replies. */
module LongCopies {
  import opened Basics
  import opened Bytes
  import opened Protocol
  import opened FakeAddresses
  import opened HandleTables
  import opened Daemon
  import opened Bridge
  import opened BridgeSafety
  import opened WholeCalls

  // ----- a run out of step

  /** A malloc reply with handle 1, as the stub would see it. */
  function Stray(): (s: seq<u8>)
    ensures |s| == 13
  {
    EncodeResponse(Ok(LE(1, 8)))
  }

  /** What an allocation of `len` bytes happens to hold. */
  function Data(len: u64): (s: seq<u8>)
    ensures |s| == len
  {
    var n := len % TWO_32;
    seq(len, i requires 0 <= i < len => if n <= i < n + 13 then Stray()[i - n] else 0)
  }

  /** The game allocates `len` bytes, copies them out, and allocates one byte. */
  function OutOfStep(len: u64): seq<Step> {
    CallSteps(BeginMalloc(0, len, true), MallocAnswer(BLOCK, Data(len)))
    + (CallSteps(BeginD2H(0, FIRST_BASE, len), CopyAnswer(Data(len)))
    + CallSteps(BeginMalloc(0, 1, true), MallocAnswer(BLOCK + len, [0])))
  }

  ghost predicate DistinctHandles(s: Sys) {
    forall b, c :: b in s.space.ranges && c in s.space.ranges && b != c ==> s.space.ranges[b].handle != s.space.ranges[c].handle
  }

  /** After the first malloc. */
  ghost predicate OneRange(s: Sys, len: u64) {
    && AtRest(s) && s.s2c == [] && s.space == AllocateIn(EMPTY_SPACE, 1, len)
    && s.daemon.handles == Table(2, map[1 := BLOCK]) && s.daemon.dev.blocks == map[BLOCK := len]
    && s.daemon.dev.mem == MallocAnswer(BLOCK, Data(len)).contents
  }

  lemma FirstMalloc(len: u64)
    requires len >= TWO_32 && FIRST_BASE + Reserved(len) < TWO_64
    ensures var steps := CallSteps(BeginMalloc(0, len, true), MallocAnswer(BLOCK, Data(len)));
            IsRun(InitialState(NO_DEVICE), steps) && OneRange(RunTo(InitialState(NO_DEVICE), steps), len)
  {
    hide Data, CallSteps, AllocateIn, Reserved, IsRun, RunTo;
    ReservedBounds(len);
    CleanMalloc(InitialState(NO_DEVICE), len, MallocAnswer(BLOCK, Data(len)));
  }

  /** After the copy: data of the device in front of the next reply. */
  ghost predicate DataOnWire(s: Sys, len: u64) {
    && AtRest(s) && s.s2c == Data(len)[len % TWO_32..] && s.space == AllocateIn(EMPTY_SPACE, 1, len)
    && s.daemon.handles == Table(2, map[1 := BLOCK]) && s.daemon.dev.blocks == map[BLOCK := len]
    && s.daemon.dev.mem.Keys == MallocAnswer(BLOCK, Data(len)).contents.Keys
  }

  lemma FirstResolves(len: u64)
    requires len > 0
    ensures ResolveIn(AllocateIn(EMPTY_SPACE, 1, len), FIRST_BASE) == Some((1, 0))
  {
    hide Reserved;
    var sp := AllocateIn(EMPTY_SPACE, 1, len);
    assert FIRST_BASE in sp.ranges.Keys && Predecessor(sp.ranges.Keys, FIRST_BASE) == Some(FIRST_BASE);
  }

  lemma DataHeld(len: u64)
    ensures HoldsAt(MallocAnswer(BLOCK, Data(len)).contents, BLOCK + 0, Data(len))
  {
    hide Data;
  }

  lemma CopyOut(s: Sys, len: u64)
    requires OneRange(s, len) && !KeepsStep(len)
    ensures var steps := CallSteps(BeginD2H(0, FIRST_BASE, len), CopyAnswer(Data(len)));
            IsRun(s, steps) && DataOnWire(RunTo(s, steps), len)
  {
    hide LE, FromLE, EncodeResponse, ReadResponse, Data, CallSteps, AllocateIn, Reserved, IsRun, RunTo, ResolveIn, HoldsAt, MallocAnswer;
    FirstResolves(len);
    DataHeld(len);
    var n := len % TWO_32;
    var left := Data(len)[n..];
    OversizedResponseDesynchronises(Ok(Data(len)), []);
    assert [] + EncodeResponse(Ok(Data(len))) == EncodeResponse(Ok(Data(len))) + [];
    assert left + [] == left;
    WholeCall(s, BeginD2H(0, FIRST_BASE, len), CallD2H(FIRST_BASE, 1, 0, len), CopyAnswer(Data(len)), Ok(Data(len)[..n]), left);
  }

  lemma StrayFirst(len: u64, tail: seq<u8>)
    requires !KeepsStep(len)
    ensures var got := ReadResponse(Data(len)[len % TWO_32..] + tail);
            got.Got? && got.value == Ok(LE(1, 8))
  {
    hide ReadResponse, EncodeResponse, LE;
    var n := len % TWO_32;
    var rest := Data(len)[n + 13..] + tail;
    assert Data(len)[n..] + tail == Stray() + rest;
    ResponseRoundTrip(Ok(LE(1, 8)), rest);
  }

  lemma SecondMalloc(s: Sys, len: u64)
    requires DataOnWire(s, len) && !KeepsStep(len) && FIRST_BASE + Reserved(len) + Reserved(1) < TWO_64
    ensures var steps := CallSteps(BeginMalloc(0, 1, true), MallocAnswer(BLOCK + len, [0]));
            IsRun(s, steps) && RunTo(s, steps).space == AllocateIn(AllocateIn(EMPTY_SPACE, 1, len), 1, 1)
  {
    hide LE, FromLE, EncodeResponse, ReadResponse, Data, CallSteps, Reserved, IsRun, RunTo;
    ReservedBounds(len);
    var o := MallocAnswer(BLOCK + len, [0]);
    var got := ReadResponse(s.s2c + EncodeResponse(Handle(s.daemon, Malloc(1), o).1));
    StrayFirst(len, EncodeResponse(Handle(s.daemon, Malloc(1), o).1));
    U64OfLE(1);
    WholeCall(s, BeginMalloc(0, 1, true), CallMalloc(1, true), o, got.value, got.rest);
  }

  /** For every length that does not keep step, a run that copies out only that much ends
      with two live ranges under one handle: the second was read out of device data. */
  lemma OutOfStepBreaksHandles(len: u64)
    requires !KeepsStep(len) && FIRST_BASE + Reserved(len) + Reserved(1) < TWO_64
    ensures ValidDevice(NO_DEVICE) && IsRun(InitialState(NO_DEVICE), OutOfStep(len))
    ensures !DistinctHandles(RunTo(InitialState(NO_DEVICE), OutOfStep(len)))
    ensures forall i :: 0 <= i < |OutOfStep(len)| && OutOfStep(len)[i].BeginD2H? ==> OutOfStep(len)[i].len == len
  {
    hide IsRun, RunTo, Reserved, Data, MallocAnswer, Enabled, Next;
    ReservedBounds(len);
    ReservedBounds(1);
    var a := CallSteps(BeginMalloc(0, len, true), MallocAnswer(BLOCK, Data(len)));
    var b := CallSteps(BeginD2H(0, FIRST_BASE, len), CopyAnswer(Data(len)));
    var c := CallSteps(BeginMalloc(0, 1, true), MallocAnswer(BLOCK + len, [0]));
    FirstMalloc(len);
    var s1 := RunTo(InitialState(NO_DEVICE), a);
    CopyOut(s1, len);
    SecondMalloc(RunTo(s1, b), len);
    RunAppend(s1, b, c);
    RunAppend(InitialState(NO_DEVICE), a, b + c);
    var ranges := RunTo(InitialState(NO_DEVICE), OutOfStep(len)).space.ranges;
    assert ranges[FIRST_BASE].handle == ranges[FIRST_BASE + Reserved(len)].handle;
  }

  /** Copies out of `len` bytes, and no other length, in a run. */
  ghost predicate CopiesOutOnly(steps: seq<Step>, len: u64) {
    forall i :: 0 <= i < |steps| && steps[i].BeginD2H? ==> steps[i].len == len
  }

  /** Live ranges keep distinct handles on every run exactly when the length copied out
      is one the reader takes whole or refuses. */
  lemma HandlesDistinctIffKeepsStep(len: u64)
    requires FIRST_BASE + Reserved(len) + Reserved(1) < TWO_64
    ensures (forall dev, steps :: ValidDevice(dev) && IsRun(InitialState(dev), steps) && CopiesOutOnly(steps, len)
                             ==> DistinctHandles(RunTo(InitialState(dev), steps)))
            <==> KeepsStep(len)
  {
    hide Enabled, Next, ValidDevice, Reserved, OutOfStep, IsRun, RunTo, InitialState;
    if KeepsStep(len) {
      forall dev, steps | ValidDevice(dev) && IsRun(InitialState(dev), steps) && CopiesOutOnly(steps, len)
        ensures DistinctHandles(RunTo(InitialState(dev), steps))
      {
        LiveHandlesDistinctAndBound(dev, steps);
      }
    } else {
      OutOfStepBreaksHandles(len);
      assert CopiesOutOnly(OutOfStep(len), len);
    }
  }
}
