/** The deferred-submission ring: a CPU that waits on a fence only when it is about to
    reuse a slot, against a GPU that drains its queue in order, at its own pace. */
module Ring {
  import opened Basics

  /** A queue entry: run whatever slot `slot` holds when the GPU gets there, or set the
      fence. `index` is history: what the slot held when it was submitted. */
  datatype Work = Exec(slot: nat, index: nat) | Signal(fence: nat)

  /** Where the CPU is inside ring_submit or ring_flush. */
  datatype Pc =
    | Idle
    | SlotWait(index: nat)      // about to check the slot's fence
    | SlotFree(index: nat)      // about to reset the slot
    | Recorded(index: nat)      // reset and recorded, not yet executed
    | Executed(index: nat)      // handed to the queue, not yet signalled
    | FlushWait

  /** `slots` is the ring size N. `recorded[i]` is the buffer index slot i's command
      list copies; `submitted` (history) the index of each submission so far, and
      `finished` (history) how many queue entries the GPU has completed. */
  datatype State = State(
    slots: nat, value: nat, ringValues: seq<nat>, recorded: seq<nat>, pc: Pc,
    queue: seq<Work>, executing: Option<Work>, completed: nat,
    upload: seq<nat>, readback: seq<nat>,
    submitted: seq<nat>, finished: nat)

  datatype Step = BeginSubmit(index: nat) | SlotReady | Reset | Execute | SignalFence | BeginFlush | FlushReady | GpuStart | GpuEnd

  function Initial(slots: nat, upload: seq<nat>, readback: seq<nat>): State {
    State(slots, 0, seq(slots, i => 0), seq(slots, i => 0), Idle, [], None, 0, upload, readback, [], 0)
  }

  function Slot(s: State): nat
    requires s.slots > 0
  {
    s.value % s.slots
  }

  predicate WellFormed(s: State) {
    s.slots > 0 && |s.ringValues| == s.slots && |s.recorded| == s.slots && |s.upload| == |s.readback|
  }

  predicate Enabled(s: State, step: Step)
    requires WellFormed(s)
  {
    match step
    case BeginSubmit(index) => s.pc.Idle? && index < |s.upload|
    case SlotReady => s.pc.SlotWait? && (s.ringValues[Slot(s)] != 0 ==> s.completed >= s.ringValues[Slot(s)])
    case Reset => s.pc.SlotFree?
    case Execute => s.pc.Recorded?
    case SignalFence => s.pc.Executed?
    case BeginFlush => s.pc.Idle?
    case FlushReady => s.pc.FlushWait? && (s.value != 0 ==> s.completed >= s.value)
    case GpuStart => s.executing.None? && s.queue != []
    case GpuEnd => s.executing.Some?
  }

  /** The GPU finishes an entry. A copy runs what its slot holds now. */
  function Complete(s: State): State
    requires s.executing.Some? && WellFormed(s)
  {
    var s' := s.(executing := None, finished := s.finished + 1);
    match s.executing.value
    case Signal(fence) => s'.(completed := fence)
    case Exec(slot, _) =>
      if slot < s.slots && s.recorded[slot] < |s.upload|
      then s'.(readback := s.readback[s.recorded[slot] := s.upload[s.recorded[slot]]]) else s'
  }

  function Next(s: State, step: Step): State
    requires WellFormed(s) && Enabled(s, step)
  {
    match step
    case BeginSubmit(index) => s.(pc := SlotWait(index))
    case SlotReady => s.(pc := SlotFree(s.pc.index))
    case Reset => s.(pc := Recorded(s.pc.index), recorded := s.recorded[Slot(s) := s.pc.index])
    case Execute => s.(pc := Executed(s.pc.index), queue := s.queue + [Exec(Slot(s), s.pc.index)], submitted := s.submitted + [s.pc.index])
    case SignalFence =>
      s.(pc := Idle, value := s.value + 1, queue := s.queue + [Signal(s.value + 1)],
         ringValues := s.ringValues[Slot(s) := s.value + 1])
    case BeginFlush => s.(pc := FlushWait)
    case FlushReady => s.(pc := Idle)
    case GpuStart => s.(queue := s.queue[1..], executing := Some(s.queue[0]))
    case GpuEnd => Complete(s)
  }

  // ----- the invariant

  /** Entry `j` of everything ever queued: submission k puts in entries 2k and 2k+1. */
  function Entry(s: State, j: nat): Work
    requires s.slots > 0 && j / 2 < |s.submitted|
  {
    if j % 2 == 0 then Exec((j / 2) % s.slots, s.submitted[j / 2]) else Signal(j / 2 + 1)
  }

  function Queued(s: State): nat {
    2 * s.value + if s.pc.Executed? then 1 else 0
  }

  function Outstanding(s: State): seq<Work> {
    (if s.executing.Some? then [s.executing.value] else []) + s.queue
  }

  /** The last fence value given to a slot; 0 if it was never used. */
  function LastUse(slots: nat, value: nat, slot: nat): nat
    requires slot < slots
  {
    if value <= slot then 0 else value - (value - 1 - slot) % slots
  }

  predicate Counted(s: State) {
    |s.submitted| == s.value + if s.pc.Executed? then 1 else 0
  }

  /** The GPU holds exactly the entries it has not finished, oldest first, and the fence
      stands at the last signal among the finished ones. */
  ghost predicate QueueOk(s: State)
    requires WellFormed(s)
  {
    && Counted(s)
    && (forall k :: 0 <= k < |s.submitted| ==> s.submitted[k] < |s.upload|)
    && s.finished <= Queued(s)
    && |Outstanding(s)| == Queued(s) - s.finished
    && (forall i :: 0 <= i < |Outstanding(s)| ==> (s.finished + i) / 2 < |s.submitted| && Outstanding(s)[i] == Entry(s, s.finished + i))
    && s.completed == s.finished / 2
  }

  /** Submission `k` is among the last N, and its slot has not been reset since. */
  predicate StillRecorded(s: State, k: nat) {
    k < |s.submitted| && (if s.pc.Recorded? || s.pc.Executed? then s.value < k + s.slots else s.value <= k + s.slots)
  }

  /** Each slot remembers its last fence value, and each of the last N submissions is
      still what its slot holds, except the one slot being refilled. */
  ghost predicate SlotsOk(s: State)
    requires WellFormed(s) && Counted(s)
  {
    && (forall i :: 0 <= i < s.slots ==> s.ringValues[i] == LastUse(s.slots, s.value, i))
    && (forall k: nat :: StillRecorded(s, k) ==> s.recorded[k % s.slots] == s.submitted[k])
    && ((s.pc.SlotFree? || s.pc.Recorded? || s.pc.Executed?) ==> s.completed + s.slots > s.value)
    && ((s.pc.SlotWait? || s.pc.SlotFree? || s.pc.Recorded? || s.pc.Executed?) ==> s.pc.index < |s.upload|)
    && (s.pc.Recorded? || s.pc.Executed? ==> s.recorded[Slot(s)] == s.pc.index)
    && (s.pc.Executed? ==> s.submitted[s.value] == s.pc.index)
    && s.value <= s.completed + s.slots
  }

  /** Every copy the GPU has finished is visible in the readback buffer. */
  ghost predicate CopiesOk(s: State)
    requires WellFormed(s)
  {
    forall k :: 0 <= k < |s.submitted| && 2 * k < s.finished ==>
      s.submitted[k] < |s.upload| && s.readback[s.submitted[k]] == s.upload[s.submitted[k]]
  }

  ghost predicate Inv(s: State) {
    WellFormed(s) && QueueOk(s) && SlotsOk(s) && CopiesOk(s)
  }

  lemma InitialInv(slots: nat, upload: seq<nat>, readback: seq<nat>)
    requires slots > 0 && |upload| == |readback|
    ensures Inv(Initial(slots, upload, readback))
  {
  }

  // ----- arithmetic of the ring

  lemma SlotsDiffer(slots: nat, k: nat, n: nat)
    requires slots > 0 && k < n < k + slots
    ensures k % slots != n % slots
  {
    if k % slots + (n - k) < slots {
      ModUnique(n, slots, k / slots, k % slots + (n - k));
    } else {
      ModUnique(n, slots, k / slots + 1, k % slots + (n - k) - slots);
    }
  }

  /** Before submission n >= N the slot about to be reused holds fence value n - N + 1. */
  lemma LastUseOfNext(slots: nat, value: nat)
    requires slots > 0
    ensures LastUse(slots, value, value % slots) == if value < slots then 0 else value - slots + 1
  {
    var q, slot := value / slots, value % slots;
    if value < slots {
      ModUnique(value, slots, 0, value);
    } else {
      assert value == slots * q + slot && slots * (q - 1) == slots * q - slots;
      ModUnique(value - 1 - slot, slots, q - 1, slots - 1);
    }
  }

  lemma LastUseStep(slots: nat, value: nat, slot: nat)
    requires slot < slots
    ensures LastUse(slots, value + 1, slot) == if slot == value % slots then value + 1 else LastUse(slots, value, slot)
  {
    if value <= slot {
      ModUnique(value, slots, 0, value);
      ModUnique(0, slots, 0, 0);
    } else {
      var q, r := (value - 1 - slot) / slots, (value - 1 - slot) % slots;
      assert value - 1 - slot == slots * q + r;
      if r == slots - 1 {
        assert slots * (q + 1) == slots * q + slots;
        ModUnique(value - slot, slots, q + 1, 0);
        ModUnique(value, slots, q + 1, slot);
      } else {
        ModUnique(value - slot, slots, q, r + 1);
        if slot == value % slots {
          assert value - slot == slots * (value / slots);
          ModUnique(value - slot, slots, value / slots, 0);
        }
      }
    }
  }

  // ----- the invariant is kept

  lemma InvCounted(s: State)
    requires Inv(s)
    ensures Counted(s) && s.slots > 0 && s.finished <= Queued(s)
  {
  }

  /** Steps that touch neither the queue nor what was submitted. */
  lemma QueueSame(s: State, s': State)
    requires WellFormed(s) && QueueOk(s) && WellFormed(s') && |s'.upload| == |s.upload| && s'.slots == s.slots
    requires (s'.submitted, s'.value, s'.finished, s'.completed) == (s.submitted, s.value, s.finished, s.completed)
    requires s'.pc.Executed? == s.pc.Executed? && Outstanding(s') == Outstanding(s)
    ensures QueueOk(s')
  {
    forall i | 0 <= i < |Outstanding(s')|
      ensures (s'.finished + i) / 2 < |s'.submitted| && Outstanding(s')[i] == Entry(s', s'.finished + i)
    {
      assert Outstanding(s)[i] == Entry(s, s.finished + i);
    }
  }

  lemma BeginInv(s: State, step: Step)
    requires Inv(s) && Enabled(s, step) && (step.BeginSubmit? || step.BeginFlush? || step.FlushReady?)
    ensures Inv(Next(s, step))
  {
    hide LastUse, QueueOk;
    var s' := Next(s, step);
    QueueSame(s, s');
    assert forall k: nat :: StillRecorded(s', k) ==> StillRecorded(s, k);
  }

  /** When the slot's fence has passed, at most N - 1 submissions are outstanding. */
  lemma SlotReadyInv(s: State)
    requires Inv(s) && Enabled(s, SlotReady)
    ensures Inv(Next(s, SlotReady))
  {
    hide LastUse, QueueOk;
    LastUseOfNext(s.slots, s.value);
    var s' := Next(s, SlotReady);
    QueueSame(s, s');
    assert forall k: nat :: StillRecorded(s', k) ==> StillRecorded(s, k);
  }

  lemma ResetInv(s: State)
    requires Inv(s) && Enabled(s, Reset)
    ensures Inv(Next(s, Reset))
  {
    hide LastUse, QueueOk;
    var s' := Next(s, Reset);
    QueueSame(s, s');
    InvCounted(s);
    forall k: nat | StillRecorded(s', k)
      ensures s'.recorded[k % s.slots] == s.submitted[k]
    {
      assert StillRecorded(s, k);
      SlotsDiffer(s.slots, k, s.value);
    }
  }

  /** The CPU queues the next entry of its program. */
  lemma EntryJoins(s: State, s': State, w: Work)
    requires WellFormed(s) && QueueOk(s) && WellFormed(s') && Counted(s')
    requires (s'.slots, s'.finished, s'.completed, s'.executing) == (s.slots, s.finished, s.completed, s.executing)
    requires |s'.upload| == |s.upload| && s.submitted <= s'.submitted && s'.queue == s.queue + [w]
    requires forall k :: 0 <= k < |s'.submitted| ==> s'.submitted[k] < |s'.upload|
    requires Queued(s') == Queued(s) + 1 && w == Entry(s', Queued(s))
    ensures QueueOk(s')
  {
    hide Entry;
    assert Outstanding(s') == Outstanding(s) + [w];
    forall i | 0 <= i < |Outstanding(s')|
      ensures (s'.finished + i) / 2 < |s'.submitted| && Outstanding(s')[i] == Entry(s', s'.finished + i)
    {
      if i < |Outstanding(s)| {
        assert Outstanding(s)[i] == Entry(s, s.finished + i);
        EntryStays(s, s', s.finished + i);
      }
    }
  }

  lemma ExecuteInv(s: State)
    requires Inv(s) && Enabled(s, Execute)
    ensures Inv(Next(s, Execute))
  {
    hide LastUse, QueueOk;
    InvCounted(s);
    ExecuteQueue(s);
  }

  lemma ExecuteQueue(s: State)
    requires WellFormed(s) && QueueOk(s) && Enabled(s, Execute) && s.pc.index < |s.upload|
    ensures QueueOk(Next(s, Execute))
  {
    EntryJoins(s, Next(s, Execute), Exec(Slot(s), s.pc.index));
  }

  lemma SignalInv(s: State)
    requires Inv(s) && Enabled(s, SignalFence)
    ensures Inv(Next(s, SignalFence))
  {
    hide LastUse;
    var s' := Next(s, SignalFence);
    EntryJoins(s, s', Signal(s.value + 1));
    forall i | 0 <= i < s.slots
      ensures s'.ringValues[i] == LastUse(s.slots, s.value + 1, i)
    {
      LastUseStep(s.slots, s.value, i);
    }
  }

  lemma GpuStartInv(s: State)
    requires Inv(s) && Enabled(s, GpuStart)
    ensures Inv(Next(s, GpuStart))
  {
    hide LastUse, QueueOk;
    var s' := Next(s, GpuStart);
    QueueSame(s, s');
    assert forall k: nat :: StillRecorded(s', k) ==> StillRecorded(s, k);
  }

  /** The entry being executed is the oldest unfinished one, and if it is a copy, its
      slot still holds what was submitted. */
  lemma ExecutingIsSubmitted(s: State)
    requires Inv(s) && s.executing.Some?
    ensures s.finished < Queued(s) && s.finished / 2 < |s.submitted| && s.executing.value == Entry(s, s.finished)
    ensures s.executing.value.Exec? ==>
              && s.executing.value.slot == (s.finished / 2) % s.slots
              && s.recorded[s.executing.value.slot] == s.submitted[s.finished / 2]
  {
    hide LastUse;
    assert Outstanding(s)[0] == s.executing.value;
    assert s.executing.value == Entry(s, s.finished + 0);
    assert StillRecorded(s, s.finished / 2);
  }

  lemma EntryStays(s: State, s': State, j: nat)
    requires s.slots > 0 && j / 2 < |s.submitted| && s'.slots == s.slots && s.submitted <= s'.submitted
    ensures Entry(s', j) == Entry(s, j)
  {
  }

  lemma OutstandingAfter(s: State, i: nat)
    requires WellFormed(s) && QueueOk(s) && s.executing.Some? && i < |s.queue|
    ensures var s' := Complete(s);
            && |Outstanding(s')| == |s.queue| && (s'.finished + i) / 2 < |s'.submitted|
            && Outstanding(s')[i] == Entry(s', s'.finished + i)
  {
    hide Entry;
    var s', j := Complete(s), s.finished + (i + 1);
    assert Outstanding(s)[i + 1] == s.queue[i];
    EntryStays(s, s', j);
  }

  lemma GpuEndQueue(s: State)
    requires WellFormed(s) && QueueOk(s) && s.executing.Some?
    ensures QueueOk(Complete(s))
  {
    hide Entry, Complete, Outstanding;
    var s' := Complete(s);
    GpuEndFence(s);
    GpuEndFrame(s);
    HeadLeaves(s, s');
    forall i | 0 <= i < |Outstanding(s')|
      ensures (s'.finished + i) / 2 < |s'.submitted| && Outstanding(s')[i] == Entry(s', s'.finished + i)
    {
      OutstandingAfter(s, i);
    }
  }

  lemma HeadLeaves(s: State, s': State)
    requires s.executing.Some? && s'.executing.None? && s'.queue == s.queue
    ensures |Outstanding(s)| == 1 + |s.queue| && Outstanding(s') == s.queue
  {
  }

  lemma GpuEndFrame(s: State)
    requires WellFormed(s) && s.executing.Some?
    ensures var s' := Complete(s);
            && WellFormed(s') && s'.executing.None? && s'.finished == s.finished + 1
            && (s'.slots, s'.value, s'.ringValues, s'.recorded, s'.pc, s'.queue, s'.upload, s'.submitted)
                 == (s.slots, s.value, s.ringValues, s.recorded, s.pc, s.queue, s.upload, s.submitted)
  {
  }

  lemma GpuEndCopies(s: State)
    requires Inv(s) && s.executing.Some?
    ensures CopiesOk(Next(s, GpuEnd)) && WellFormed(Next(s, GpuEnd))
  {
    hide LastUse, SlotsOk, Outstanding;
    ExecutingIsSubmitted(s);
    var s' := Next(s, GpuEnd);
    forall k | 0 <= k < |s'.submitted| && 2 * k < s'.finished
      ensures s'.submitted[k] < |s'.upload| && s'.readback[s'.submitted[k]] == s'.upload[s'.submitted[k]]
    {
      if 2 * k == s.finished {
        assert s.executing.value.Exec?;
      }
    }
  }

  lemma GpuEndInv(s: State)
    requires Inv(s) && Enabled(s, GpuEnd)
    ensures Inv(Next(s, GpuEnd))
  {
    hide LastUse, QueueOk, CopiesOk;
    GpuEndQueue(s);
    GpuEndCopies(s);
    GpuEndFence(s);
    var s' := Next(s, GpuEnd);
    assert forall k: nat :: StillRecorded(s', k) ==> StillRecorded(s, k);
  }

  /** The fence never goes back. */
  lemma GpuEndFence(s: State)
    requires WellFormed(s) && QueueOk(s) && s.executing.Some?
    ensures Counted(s) && s.completed <= Complete(s).completed == (s.finished + 1) / 2
  {
    assert Outstanding(s)[0] == s.executing.value;
    assert s.executing.value == Entry(s, s.finished + 0);
  }

  lemma StepInv(s: State, step: Step)
    requires Inv(s) && Enabled(s, step)
    ensures Inv(Next(s, step))
    ensures Next(s, step).slots == s.slots && Next(s, step).upload == s.upload
  {
    hide QueueOk, SlotsOk, CopiesOk;
    match step
    case BeginSubmit(_) => BeginInv(s, step);
    case BeginFlush => BeginInv(s, step);
    case FlushReady => BeginInv(s, step);
    case SlotReady => SlotReadyInv(s);
    case Reset => ResetInv(s);
    case Execute => ExecuteInv(s);
    case SignalFence => SignalInv(s);
    case GpuStart => GpuStartInv(s);
    case GpuEnd => GpuEndInv(s);
  }

  // ----- runs

  ghost predicate IsRun(s: State, steps: seq<Step>)
    decreases steps
  {
    steps == [] || (WellFormed(s) && Enabled(s, steps[0]) && IsRun(Next(s, steps[0]), steps[1..]))
  }

  ghost function RunTo(s: State, steps: seq<Step>): State
    requires IsRun(s, steps)
    decreases steps
  {
    if steps == [] then s else RunTo(Next(s, steps[0]), steps[1..])
  }

  lemma {:induction false} RunInv(s: State, steps: seq<Step>)
    requires Inv(s) && IsRun(s, steps)
    ensures Inv(RunTo(s, steps))
    ensures RunTo(s, steps).slots == s.slots && RunTo(s, steps).upload == s.upload
    decreases steps
  {
    hide Inv, Next;
    if steps != [] {
      assert Enabled(s, steps[0]);
      StepInv(s, steps[0]);
      RunInv(Next(s, steps[0]), steps[1..]);
    }
  }

  /** In every interleaving, for every ring size: when a slot is about to be reset
      nothing queued or executing uses it. */
  lemma ResetIsSafe(slots: nat, upload: seq<nat>, readback: seq<nat>, steps: seq<Step>)
    requires slots > 0 && |upload| == |readback| && IsRun(Initial(slots, upload, readback), steps)
    ensures var s := RunTo(Initial(slots, upload, readback), steps);
            s.slots == slots && (s.pc.SlotFree? ==> forall w :: w in Outstanding(s) && w.Exec? ==> w.slot != Slot(s))
  {
    hide IsRun, RunTo, LastUse;
    InitialInv(slots, upload, readback);
    RunInv(Initial(slots, upload, readback), steps);
    var s := RunTo(Initial(slots, upload, readback), steps);
    if s.pc.SlotFree? {
      forall w | w in Outstanding(s) && w.Exec?
        ensures w.slot != Slot(s)
      {
        var i :| 0 <= i < |Outstanding(s)| && Outstanding(s)[i] == w;
        assert w == Entry(s, s.finished + i);
        SlotsDiffer(s.slots, (s.finished + i) / 2, s.value);
      }
    }
  }

  /** At most N submissions are ever outstanding. */
  lemma AtMostSlotsOutstanding(s: State)
    requires Inv(s)
    ensures Counted(s) && s.completed <= |s.submitted| <= s.completed + s.slots
  {
    hide LastUse;
  }

  // ----- waits end

  /** What a wait for fence value `target` still needs the GPU to do. */
  function WaitMeasure(s: State, target: nat): int {
    2 * (2 * target - s.finished) - if s.executing.Some? then 1 else 0
  }

  /** Whatever ring_submit or ring_flush waits for has been signalled: if the fence is
      not there yet, the signal is in the GPU's hands. */
  lemma WaitTargetQueued(s: State, target: nat)
    requires Inv(s) && s.completed < target <= s.value
    ensures Signal(target) in Outstanding(s)
    ensures Enabled(s, if s.executing.Some? then GpuEnd else GpuStart)
  {
    hide LastUse, SlotsOk, CopiesOk;
    var i := 2 * target - 1 - s.finished;
    assert Outstanding(s)[i] == Entry(s, s.finished + i);
  }

  lemma SlotWaitTarget(s: State)
    requires Inv(s)
    ensures s.ringValues[Slot(s)] == if s.value < s.slots then 0 else s.value - s.slots + 1
  {
    hide LastUse;
    LastUseOfNext(s.slots, s.value);
  }

  predicate GpuOnly(steps: seq<Step>) {
    forall i :: 0 <= i < |steps| ==> steps[i].GpuStart? || steps[i].GpuEnd?
  }

  /** While the CPU is blocked the GPU can always move, and after at most `WaitMeasure`
      of its steps, in any order it can take them, the wait is over. */
  lemma {:induction false} WaitEnds(s: State, target: nat, steps: seq<Step>)
    requires Inv(s) && target <= s.value && GpuOnly(steps) && IsRun(s, steps)
    requires |steps| >= WaitMeasure(s, target)
    ensures RunTo(s, steps).completed >= target
    decreases steps
  {
    hide Inv, Next, WaitMeasure;
    if s.completed >= target {
      FenceNeverGoesBack(s, steps);
    } else {
      GpuStepMeasure(s, target, if steps == [] then GpuEnd else steps[0]);
      if steps != [] {
        StepInv(s, steps[0]);
        WaitEnds(Next(s, steps[0]), target, steps[1..]);
      }
    }
  }

  lemma GpuStepMeasure(s: State, target: nat, step: Step)
    requires Inv(s) && s.completed < target
    ensures WaitMeasure(s, target) > 0
    ensures (step.GpuStart? || step.GpuEnd?) && Enabled(s, step) ==>
              WaitMeasure(Next(s, step), target) == WaitMeasure(s, target) - 1 && Next(s, step).value == s.value
  {
    hide SlotsOk, CopiesOk;
  }

  lemma {:induction false} FenceNeverGoesBack(s: State, steps: seq<Step>)
    requires Inv(s) && IsRun(s, steps)
    ensures RunTo(s, steps).completed >= s.completed
    decreases steps
  {
    hide Inv;
    if steps != [] {
      StepFence(s, steps[0]);
      StepInv(s, steps[0]);
      FenceNeverGoesBack(Next(s, steps[0]), steps[1..]);
    }
  }

  lemma StepFence(s: State, step: Step)
    requires Inv(s) && Enabled(s, step)
    ensures Next(s, step).completed >= s.completed
  {
    hide SlotsOk, CopiesOk;
    if step.GpuEnd? {
      GpuEndFence(s);
    }
  }

  // ----- flush

  /** When a flush returns, every copy submitted so far has been made, however many there
      were and however the two sides interleaved. */
  lemma FlushCompletes(slots: nat, upload: seq<nat>, readback: seq<nat>, steps: seq<Step>)
    requires slots > 0 && |upload| == |readback| && IsRun(Initial(slots, upload, readback), steps)
    ensures var s := RunTo(Initial(slots, upload, readback), steps);
            WellFormed(s) && s.upload == upload && (Enabled(s, FlushReady) ==>
              && s.queue == [] && s.executing == None
              && forall k :: 0 <= k < |s.submitted| ==>
                   s.submitted[k] < |s.upload| && s.readback[s.submitted[k]] == s.upload[s.submitted[k]])
  {
    hide IsRun, RunTo;
    InitialInv(slots, upload, readback);
    RunInv(Initial(slots, upload, readback), steps);
    var s := RunTo(Initial(slots, upload, readback), steps);
    if Enabled(s, FlushReady) {
      FlushedInv(s);
    }
  }

  lemma FlushedInv(s: State)
    requires Inv(s) && Enabled(s, FlushReady)
    ensures s.queue == [] && s.executing == None
    ensures forall k :: 0 <= k < |s.submitted| ==>
              s.submitted[k] < |s.upload| && s.readback[s.submitted[k]] == s.upload[s.submitted[k]]
  {
    hide SlotsOk;
    assert s.finished == 2 * s.value;
    assert |Outstanding(s)| == 0;
  }
}
