/** The probe itself: `RingSubmission` updated in place, with the GPU free to run any
    number of steps between any two statements of the CPU. */
module RingProbe {
  import opened Basics
  import opened Markers
  import opened Ring
  import Gate = SnapshotGate

  const MARKER_BASE := 9000

  class RingSubmission {
    const slots: nat
    const ringValues: array<nat>
    const recorded: array<nat>
    var value: nat
    // the GPU's side
    var queue: seq<Work>
    var executing: Option<Work>
    var completed: nat
    const upload: array<nat>
    const readback: array<nat>
    // history
    ghost var pc: Pc
    ghost var submitted: seq<nat>
    ghost var finished: nat

    ghost function View(): State
      reads this, ringValues, recorded, upload, readback
    {
      State(slots, value, ringValues[..], recorded[..], pc, queue, executing, completed, upload[..], readback[..], submitted, finished)
    }

    ghost predicate Valid()
      reads this, ringValues, recorded, upload, readback
    {
      && ringValues != recorded && ringValues != upload && ringValues != readback
      && recorded != upload && recorded != readback && upload != readback
      && Inv(View())
    }

    constructor (slots: nat, upload: array<nat>, readback: array<nat>)
      requires slots > 0 && upload.Length == readback.Length && upload != readback
      ensures Valid() && pc == Idle && submitted == [] && value == 0
      ensures this.slots == slots && this.upload == upload && this.readback == readback
      ensures fresh(ringValues) && fresh(recorded)
    {
      this.slots := slots;
      ringValues := new nat[slots](i => 0);
      recorded := new nat[slots](i => 0);
      value, queue, executing, completed := 0, [], None, 0;
      this.upload, this.readback := upload, readback;
      pc, submitted, finished := Idle, [], 0;
      new;
      InitialInv(slots, upload[..], readback[..]);
      assert ringValues[..] == seq(slots, i => 0);
      assert recorded[..] == seq(slots, i => 0);
    }

    /** One GPU step: take the head of the queue, or finish what was taken. */
    method GpuStep()
      requires Valid() && (executing.Some? || queue != [])
      modifies this`queue, this`executing, this`completed, this`finished, readback
      ensures Valid()
      ensures View() == Next(old(View()), if old(executing).Some? then GpuEnd else GpuStart)
    {
      hide LastUse, QueueOk, SlotsOk, CopiesOk;
      StepInv(View(), if executing.Some? then GpuEnd else GpuStart);
      if executing.None? {
        executing, queue := Some(queue[0]), queue[1..];
        return;
      }
      var work := executing.value;
      executing, finished := None, finished + 1;
      match work
      case Signal(fence) => completed := fence;
      case Exec(slot, _) =>
        if slot < slots && recorded[slot] < upload.Length {
          readback[recorded[slot]] := upload[recorded[slot]];
        }
    }

    /** The GPU runs for a while, or not at all. */
    method GpuRuns()
      requires Valid()
      modifies this`queue, this`executing, this`completed, this`finished, readback
      ensures Valid() && completed >= old(completed)
    {
      hide Inv, Next;
      var budget: nat :| true;
      while budget > 0 && (executing.Some? || queue != [])
        invariant Valid() && completed >= old(completed)
      {
        StepFence(View(), if executing.Some? then GpuEnd else GpuStart);
        GpuStep();
        budget := budget - 1;
      }
    }

    /** `ring_wait_value`: returns once the fence has reached `target`. */
    method WaitValue(target: nat)
      requires Valid() && target <= value
      modifies this`queue, this`executing, this`completed, this`finished, readback
      ensures Valid() && completed >= target
    {
      hide Inv, Next, WaitMeasure;
      GpuRuns();
      while completed < target
        invariant Valid()
        decreases WaitMeasure(View(), target)
      {
        WaitTargetQueued(View(), target);
        GpuStepMeasure(View(), target, if executing.Some? then GpuEnd else GpuStart);
        GpuStep();
      }
    }
  
    /** `ring_submit` for a copy at buffer index `index`: one more submission, signalled
        with the next fence value, and the gate accepts it. */
    method Submit(index: nat) returns (fence: nat, gateOk: bool)
      requires Valid() && pc == Idle && index < upload.Length
      modifies this`value, this`queue, this`executing, this`completed, this`pc, this`submitted, this`finished
      modifies ringValues, recorded, readback
      ensures Valid() && pc == Idle && submitted == old(submitted) + [index]
      ensures value == old(value) + 1 && fence == value && gateOk
    {
      hide Inv, Next, LastUse;
      Begin(index);
      GpuRuns();
      InvCounted(View());
      var slot := value % slots;
      AwaitSlot(slot);
      GpuRuns();
      Refill(slot, index);
      GpuRuns();
      Hand(slot, index);
      GpuRuns();
      gateOk := CheckGate(slot);
      Close(slot);
      fence := value;
    }

    /** The batch is the one list just executed, checked on the thread that built it. */
    method CheckGate(slot: nat) returns (ok: bool)
      ensures ok
    {
      var batch := new nat[1](i => slot + 1);
      ok := Gate.BatchMatch(0, 0, slot + 1, batch, 1);
      assert batch[..1] == [slot + 1];
    }

    ghost method Begin(index: nat)
      requires Valid() && pc == Idle && index < upload.Length
      modifies this`pc
      ensures Valid() && pc == SlotWait(index)
    {
      StepInv(View(), BeginSubmit(index));
      pc := SlotWait(index);
    }

    /** The only wait: for the fence of the slot about to be reused. */
    method AwaitSlot(slot: nat)
      requires Valid() && pc.SlotWait? && slot == value % slots
      modifies this`queue, this`executing, this`completed, this`finished, this`pc, readback
      ensures Valid() && pc == SlotFree(old(pc).index)
    {
      hide LastUse;
      SlotWaitTarget(View());
      if ringValues[slot] != 0 {
        WaitValue(ringValues[slot]);
      }
      StepInv(View(), SlotReady);
      pc := SlotFree(pc.index);
    }

    method Refill(slot: nat, index: nat)
      requires Valid() && pc == SlotFree(index) && slot == value % slots
      modifies this`pc, recorded
      ensures Valid() && pc == Recorded(index)
    {
      hide LastUse;
      StepInv(View(), Reset);
      recorded[slot] := index;
      pc := Recorded(index);
    }

    method Hand(slot: nat, index: nat)
      requires Valid() && pc == Recorded(index) && slot == value % slots
      modifies this`queue, this`pc, this`submitted
      ensures Valid() && pc == Executed(index) && submitted == old(submitted) + [index]
    {
      hide LastUse;
      StepInv(View(), Execute);
      queue := queue + [Exec(slot, index)];
      submitted := submitted + [index];
      pc := Executed(index);
    }

    method Close(slot: nat)
      requires Valid() && pc.Executed? && slot == value % slots
      modifies this`value, this`queue, this`pc, ringValues
      ensures Valid() && pc == Idle && value == old(value) + 1
    {
      hide LastUse;
      StepInv(View(), SignalFence);
      value := value + 1;
      queue := queue + [Signal(value)];
      ringValues[slot] := value;
      pc := Idle;
    }

    /** `ring_flush`: afterwards every copy submitted so far is in the readback buffer. */
    method Flush()
      requires Valid() && pc == Idle
      modifies this`queue, this`executing, this`completed, this`finished, this`pc, readback
      ensures Valid() && pc == Idle
      ensures forall k :: 0 <= k < |submitted| ==> submitted[k] < upload.Length && readback[submitted[k]] == upload[submitted[k]]
    {
      hide LastUse, QueueOk, SlotsOk, CopiesOk;
      StepInv(View(), BeginFlush);
      pc := FlushWait;
      if value != 0 {
        WaitValue(value);
      }
      FlushedInv(View());
      StepInv(View(), FlushReady);
      pc := Idle;
    }
  }

  /** The probe's main loop, for any ring size and any number of submissions: it reports
      no gate failure and no mismatch, and every word has arrived, whatever the GPU's pace. */
  method Probe(slots: nat, total: nat) returns (gateFailures: int, mismatches: int, readback: array<nat>)
    requires slots > 0
    ensures gateFailures == 0 && mismatches == 0
    ensures readback.Length == total && forall i :: 0 <= i < total ==> readback[i] == (9000 + i) % 0x1_0000_0000
  {
    hide Inv;
    var upload := new nat[total](i => 0);
    readback := new nat[total](i => 0);
    for i := 0 to total
      invariant forall k :: 0 <= k < i ==> upload[k] == Marker(MARKER_BASE, k)
    {
      upload[i] := Marker(MARKER_BASE, i);
    }
    var ring := new RingSubmission(slots, upload, readback);
    gateFailures := 0;
    for i := 0 to total
      invariant ring.Valid() && ring.pc == Idle && ring.upload == upload && ring.readback == readback
      invariant fresh(ring) && fresh(ring.ringValues) && fresh(ring.recorded)
      invariant |ring.submitted| == i && forall k :: 0 <= k < i ==> ring.submitted[k] == k
      invariant forall k :: 0 <= k < total ==> upload[k] == Marker(MARKER_BASE, k)
      invariant gateFailures == 0
    {
      var fence, ok := ring.Submit(i);
      if !ok {
        gateFailures := gateFailures + 1;
      }
    }
    ring.Flush();
    forall k | 0 <= k < total
      ensures readback[k] == Marker(MARKER_BASE, k)
    {
      assert ring.submitted[k] == k;
    }
    mismatches := 0;
    for i := 0 to total
      invariant mismatches == 0
    {
      if readback[i] != Marker(MARKER_BASE, i) {
        mismatches := mismatches + 1;
      }
    }
  }
}
