/** The opt-in cap on outstanding GPU memory: a fixed table of tracked allocations, a
    running total, and the malloc and free that consult them. */
module AllocCap {
  import opened Basics
  import opened Bytes
  import opened HipStatus

  const MAX_TRACKED: nat := 4096

  /** A live allocation; pointer 0 is null. */
  datatype Entry = Entry(ptr: nat, size: u64)

  function Sum(t: seq<Entry>): nat {
    if t == [] then 0 else Sum(t[..|t| - 1]) + t[|t| - 1].size
  }

  ghost predicate Distinct(t: seq<Entry>) {
    forall i, j :: 0 <= i < j < |t| ==> t[i].ptr != t[j].ptr
  }

  ghost predicate Contains(t: seq<Entry>, ptr: nat) {
    exists i :: 0 <= i < |t| && t[i].ptr == ptr
  }

  // ----- the table as a list

  /** First entry for `ptr`; `|t|` if there is none. */
  function Find(t: seq<Entry>, ptr: nat): (i: nat)
    ensures i <= |t|
    ensures i < |t| ==> t[i].ptr == ptr
    ensures forall k :: 0 <= k < i ==> t[k].ptr != ptr
  {
    if t == [] || t[0].ptr == ptr then 0 else 1 + Find(t[1..], ptr)
  }

  /** Swap-removal: the last entry takes the place of the released one. */
  function SwapRemove(t: seq<Entry>, i: nat): seq<Entry>
    requires i < |t|
  {
    t[i := t[|t| - 1]][..|t| - 1]
  }

  function Release(t: seq<Entry>, ptr: nat): (seq<Entry>, nat) {
    if ptr == 0 || Find(t, ptr) == |t| then (t, 0)
    else (SwapRemove(t, Find(t, ptr)), t[Find(t, ptr)].size)
  }

  function Record(t: seq<Entry>, ptr: nat, size: u64): (seq<Entry>, bool) {
    if ptr == 0 || |t| >= MAX_TRACKED then (t, false) else (t + [Entry(ptr, size)], true)
  }

  lemma {:induction false} SumUpdate(t: seq<Entry>, i: nat, e: Entry)
    requires i < |t|
    ensures Sum(t[i := e]) == Sum(t) - t[i].size + e.size
  {
    var n := |t| - 1;
    if i < n {
      SumUpdate(t[..n], i, e);
      assert t[i := e][..n] == t[..n][i := e];
    } else {
      assert t[i := e][..n] == t[..n];
    }
  }

  lemma SumSwapRemove(t: seq<Entry>, i: nat)
    requires i < |t|
    ensures Sum(SwapRemove(t, i)) == Sum(t) - t[i].size
  {
    SumUpdate(t, i, t[|t| - 1]);
  }

  lemma SumAppend(t: seq<Entry>, e: Entry)
    ensures Sum(t + [e]) == Sum(t) + e.size
  {
    assert (t + [e])[..|t|] == t;
  }

  lemma FindUnique(t: seq<Entry>, ptr: nat, i: nat)
    requires Distinct(t) && i < |t| && t[i].ptr == ptr
    ensures Find(t, ptr) == i
  {
    var f := Find(t, ptr);
    assert f <= i;
  }

  lemma FindIs(t: seq<Entry>, ptr: nat, i: nat)
    requires i < |t| && t[i].ptr == ptr && forall k :: 0 <= k < i ==> t[k].ptr != ptr
    ensures Find(t, ptr) == i
  {
  }

  lemma DistinctAppend(t: seq<Entry>, e: Entry)
    requires Distinct(t) && !Contains(t, e.ptr)
    ensures Distinct(t + [e])
  {
    forall i | 0 <= i < |t|
      ensures t[i].ptr != e.ptr
    {
    }
  }

  lemma DistinctSwapRemove(t: seq<Entry>, i: nat)
    requires Distinct(t) && i < |t|
    ensures Distinct(SwapRemove(t, i))
    ensures forall e :: e in SwapRemove(t, i) ==> e in t
  {
  }

  // ----- the static table

  class Tracker {
    const allocs: array<Entry>
    var count: nat
    var totalBytes: u64

    ghost predicate Valid()
      reads this, allocs
    {
      allocs.Length == MAX_TRACKED && count <= MAX_TRACKED && totalBytes == Sum(allocs[..count]) % TWO_64
    }

    ghost function Table(): seq<Entry>
      requires count <= allocs.Length
      reads this, allocs
    {
      allocs[..count]
    }

    /** `alloc_cap_reset` */
    constructor ()
      ensures Valid() && Table() == [] && fresh(allocs)
    {
      allocs := new Entry[MAX_TRACKED](i => Entry(0, 0));
      count := 0;
      totalBytes := 0;
    }

    /** `alloc_cap_record`: a full table takes nothing, and adds nothing to the total. */
    method RecordAlloc(ptr: nat, size: u64) returns (ok: bool)
      requires Valid()
      modifies this, allocs
      ensures Valid() && (Table(), ok) == Record(old(Table()), ptr, size)
      ensures ok <==> ptr != 0 && |old(Table())| < 4096
      ensures Table() == if ok then old(Table()) + [Entry(ptr, size)] else old(Table())
    {
      if ptr == 0 || count >= MAX_TRACKED {
        return false;
      }
      hide Sum;
      SumAppend(allocs[..count], Entry(ptr, size));
      ModAdd(Sum(allocs[..count]), size, TWO_64);
      allocs[count] := Entry(ptr, size);
      count := count + 1;
      assert allocs[..count] == old(allocs[..count]) + [Entry(ptr, size)];
      totalBytes := (totalBytes + size) % TWO_64;
      ok := true;
    }

    /** `alloc_cap_release` */
    method ReleaseAlloc(ptr: nat) returns (size: u64)
      requires Valid()
      modifies this, allocs
      ensures Valid() && (Table(), size) == Release(old(Table()), ptr)
    {
      if ptr == 0 {
        return 0;
      }
      for i := 0 to count
        invariant count == old(count) && totalBytes == old(totalBytes) && allocs[..] == old(allocs[..])
        invariant forall k :: 0 <= k < i ==> allocs[k].ptr != ptr
      {
        if allocs[i].ptr == ptr {
          ghost var t := Table();
          hide Find, Sum;
          FindIs(t, ptr, i);
          SumSwapRemove(t, i);
          ghost var freed: int := t[i].size;
          ModAdd(Sum(t), -freed, TWO_64);
          size := allocs[i].size;
          allocs[i] := allocs[count - 1];
          count := count - 1;
          assert allocs[..count] == SwapRemove(t, i);
          totalBytes := (totalBytes - size) % TWO_64;
          return;
        }
      }
      size := 0;
    }
  }

  /** A release takes one entry of the pointer out, and answers its size; a null pointer
      or one without an entry changes nothing. */
  lemma ReleaseTakesOne(t: seq<Entry>, ptr: nat)
    ensures var (t', size) := Release(t, ptr);
            && ((ptr == 0 || forall e :: e in t ==> e.ptr != ptr) ==> t' == t && size == 0)
            && (ptr != 0 && (exists e :: e in t && e.ptr == ptr) ==>
                  Entry(ptr, size) in t && multiset(t') == multiset(t) - multiset{Entry(ptr, size)})
  {
    var i := Find(t, ptr);
    if ptr != 0 && i < |t| {
      SwapRemoveTakesOne(t, i);
    } else if e :| e in t && e.ptr == ptr {
      var k :| 0 <= k < |t| && t[k] == e;
    }
  }

  lemma SwapRemoveTakesOne(t: seq<Entry>, i: nat)
    requires i < |t|
    ensures multiset(SwapRemove(t, i)) == multiset(t) - multiset{t[i]}
  {
    var n := |t| - 1;
    assert t == t[..n] + [t[n]];
    if i < n {
      assert SwapRemove(t, i) == t[..n][i := t[n]];
    } else {
      assert SwapRemove(t, i) == t[..n];
    }
  }

  // ----- the cap test

  /** `alloc_cap_would_exceed`, in 64-bit unsigned arithmetic. */
  function WouldExceed(current: u64, requested: u64, cap: u64): bool {
    cap != 0 && (current + requested) % TWO_64 > cap
  }

  /** The test says what it means exactly when the sum does not wrap, or wraps to
      something that is still above the cap. */
  lemma WouldExceedExactIff(current: u64, requested: u64, cap: u64)
    ensures WouldExceed(current, requested, cap) == (cap != 0 && current + requested > cap) <==>
            cap == 0 || current + requested < TWO_64 || current + requested - TWO_64 > cap
  {
  }

  // ----- runs of unix_malloc and unix_free

  /** `tracked` is the table; `untracked` (model only) the live allocations that did not
      fit in it. */
  datatype Heap = Heap(tracked: seq<Entry>, untracked: seq<Entry>, cap: u64)

  /** What HIP answered to a malloc or free that was let through. */
  datatype Event = Malloc(size: u64, ok: bool, ptr: nat) | Free(ptr: nat, ok: bool)

  function Tracked(h: Heap): nat {
    Sum(h.tracked)
  }

  function Outstanding(h: Heap): nat {
    Sum(h.tracked) + Sum(h.untracked)
  }

  function RemoveAt(t: seq<Entry>, i: nat): seq<Entry>
    requires i < |t|
  {
    t[..i] + t[i + 1..]
  }

  function AfterMalloc(h: Heap, size: u64, ok: bool, ptr: nat): Heap {
    if WouldExceed(Tracked(h) % TWO_64, size, h.cap) || !ok || ptr == 0 then h
    else
      var (t, recorded) := Record(h.tracked, ptr, size);
      if recorded then h.(tracked := t) else h.(untracked := h.untracked + [Entry(ptr, size)])
  }

  function AfterFree(h: Heap, ptr: nat, ok: bool): Heap {
    if !ok then h
    else
      var i := Find(h.untracked, ptr);
      h.(tracked := Release(h.tracked, ptr).0,
         untracked := if ptr != 0 && i < |h.untracked| then RemoveAt(h.untracked, i) else h.untracked)
  }

  function Next(h: Heap, e: Event): Heap {
    match e
    case Malloc(size, ok, ptr) => AfterMalloc(h, size, ok, ptr)
    case Free(ptr, ok) => AfterFree(h, ptr, ok)
  }

  /** HIP's side: a block it hands out is nobody else's, and all live blocks together
      fit in a 64-bit address space. */
  ghost predicate Enabled(h: Heap, e: Event) {
    match e
    case Malloc(size, ok, ptr) =>
      ok ==> !Contains(h.tracked, ptr) && !Contains(h.untracked, ptr) && Outstanding(h) + size < TWO_64
    case Free(_, _) => true
  }

  ghost predicate IsRun(h: Heap, es: seq<Event>)
    decreases es
  {
    es == [] || (Enabled(h, es[0]) && IsRun(Next(h, es[0]), es[1..]))
  }

  ghost function RunTo(h: Heap, es: seq<Event>): Heap
    requires IsRun(h, es)
    decreases es
  {
    if es == [] then h else RunTo(Next(h, es[0]), es[1..])
  }

  /** The table is within the cap, its pointers are distinct, and the total is exact. */
  ghost predicate Inv(h: Heap) {
    && Distinct(h.tracked) && |h.tracked| <= MAX_TRACKED
    && Outstanding(h) < TWO_64
    && (h.cap != 0 ==> Tracked(h) <= h.cap)
    && (forall i :: 0 <= i < |h.tracked| ==> h.tracked[i].ptr != 0)
  }

  lemma MallocInv(h: Heap, size: u64, ok: bool, ptr: nat)
    requires Inv(h) && Enabled(h, Malloc(size, ok, ptr))
    ensures Inv(AfterMalloc(h, size, ok, ptr))
  {
    hide Sum, Contains, Distinct;
    SumAppend(h.tracked, Entry(ptr, size));
    SumAppend(h.untracked, Entry(ptr, size));
    if ok {
      DistinctAppend(h.tracked, Entry(ptr, size));
    }
  }

  lemma {:induction false} SumRemoveAt(t: seq<Entry>, i: nat)
    requires i < |t|
    ensures Sum(RemoveAt(t, i)) == Sum(t) - t[i].size
  {
    var n := |t| - 1;
    if i < n {
      SumRemoveAt(t[..n], i);
      assert RemoveAt(t, i)[..n - 1] == RemoveAt(t[..n], i);
      assert RemoveAt(t, i)[n - 1] == t[n];
    } else {
      assert RemoveAt(t, i) == t[..n];
    }
  }

  lemma FreeInv(h: Heap, ptr: nat, ok: bool)
    requires Inv(h)
    ensures Inv(AfterFree(h, ptr, ok))
  {
    hide Sum, Distinct, Find, SwapRemove, RemoveAt;
    var i, j := Find(h.tracked, ptr), Find(h.untracked, ptr);
    if i < |h.tracked| {
      SumSwapRemove(h.tracked, i);
      DistinctSwapRemove(h.tracked, i);
      SwapRemoveShorter(h.tracked, i);
    }
    if j < |h.untracked| {
      SumRemoveAt(h.untracked, j);
    }
  }

  lemma SwapRemoveShorter(t: seq<Entry>, i: nat)
    requires i < |t|
    ensures |SwapRemove(t, i)| == |t| - 1
    ensures forall k :: 0 <= k < |t| - 1 ==> SwapRemove(t, i)[k] in t
  {
  }

  lemma StepInv(h: Heap, e: Event)
    requires Inv(h) && Enabled(h, e)
    ensures Inv(Next(h, e)) && Next(h, e).cap == h.cap
  {
    hide Inv, Enabled;
    match e
    case Malloc(size, ok, ptr) => MallocInv(h, size, ok, ptr);
    case Free(ptr, ok) => FreeInv(h, ptr, ok);
  }

  /** After any sequence of mallocs and frees the tracked bytes respect the cap. */
  lemma {:induction false} TrackedNeverExceedsCap(h: Heap, es: seq<Event>)
    requires Inv(h) && IsRun(h, es)
    ensures Inv(RunTo(h, es)) && RunTo(h, es).cap == h.cap
    ensures h.cap != 0 ==> Tracked(RunTo(h, es)) <= h.cap
    decreases es
  {
    if es != [] {
      StepInv(h, es[0]);
      TrackedNeverExceedsCap(Next(h, es[0]), es[1..]);
    }
  }

  /** A malloc that succeeds while the table is full. */
  predicate Spills(h: Heap, e: Event) {
    e.Malloc? && |h.tracked| >= MAX_TRACKED && !WouldExceed(Tracked(h) % TWO_64, e.size, h.cap) && e.ok && e.ptr != 0
  }

  ghost predicate NeverSpills(h: Heap, es: seq<Event>)
    requires IsRun(h, es)
    decreases es
  {
    es == [] || (!Spills(h, es[0]) && NeverSpills(Next(h, es[0]), es[1..]))
  }

  /** While no malloc spills over, what the cap bounds is all that is outstanding. */
  lemma {:induction false} OutstandingObeysCap(h: Heap, es: seq<Event>)
    requires Inv(h) && h.untracked == [] && IsRun(h, es) && NeverSpills(h, es)
    ensures RunTo(h, es).untracked == []
    ensures h.cap != 0 ==> Outstanding(RunTo(h, es)) <= h.cap
    decreases es
  {
    if es != [] {
      StepInv(h, es[0]);
      OutstandingObeysCap(Next(h, es[0]), es[1..]);
    }
  }

  /** Freeing a live pointer takes out exactly the size it was allocated with. */
  lemma ReleaseReturnsRecordedSize(h: Heap, i: nat)
    requires Inv(h) && i < |h.tracked|
    ensures Release(h.tracked, h.tracked[i].ptr).1 == h.tracked[i].size
    ensures Tracked(AfterFree(h, h.tracked[i].ptr, true)) == Tracked(h) - h.tracked[i].size
    ensures forall k :: 0 <= k < |h.tracked| && k != i ==>
              h.tracked[k] in AfterFree(h, h.tracked[i].ptr, true).tracked
  {
    FindUnique(h.tracked, h.tracked[i].ptr, i);
    SumSwapRemove(h.tracked, i);
    var t := SwapRemove(h.tracked, i);
    forall k | 0 <= k < |h.tracked| && k != i
      ensures h.tracked[k] in t
    {
      assert h.tracked[k] == if k == |h.tracked| - 1 then t[i] else t[k];
    }
  }

  // ----- a full table

  /** `n` one-byte allocations at the addresses from `ptr` up. */
  function OneByteMallocs(ptr: nat, n: nat): seq<Event> {
    seq(n, i requires 0 <= i => Malloc(1, true, ptr + i))
  }

  /** The pointers live in a heap are 1 to `n`. */
  ghost predicate Below(h: Heap, n: nat) {
    && (forall i :: 0 <= i < |h.tracked| ==> 1 <= h.tracked[i].ptr <= n)
    && (forall i :: 0 <= i < |h.untracked| ==> 1 <= h.untracked[i].ptr <= n)
  }

  /** The heap after `done` such mallocs. */
  ghost predicate Filled(h: Heap, done: nat) {
    && Inv(h) && Below(h, done) && Outstanding(h) == done && Tracked(h) == |h.tracked|
    && MAX_TRACKED < h.cap && (|h.tracked| < MAX_TRACKED ==> h.untracked == [])
  }

  lemma OneByteStep(h: Heap, done: nat)
    requires Filled(h, done) && done + 1 < TWO_64
    ensures Enabled(h, Malloc(1, true, done + 1)) && Filled(Next(h, Malloc(1, true, done + 1)), done + 1)
  {
    hide Sum, Distinct;
    assert Enabled(h, Malloc(1, true, done + 1));
    MallocInv(h, 1, true, done + 1);
    SumAppend(h.tracked, Entry(done + 1, 1));
    SumAppend(h.untracked, Entry(done + 1, 1));
  }

  lemma {:induction false} OneByteRun(h: Heap, done: nat, n: nat)
    requires Filled(h, done) && done + n < TWO_64
    ensures IsRun(h, OneByteMallocs(done + 1, n))
    ensures Outstanding(RunTo(h, OneByteMallocs(done + 1, n))) == done + n
    decreases n
  {
    hide Next, Enabled;
    if n > 0 {
      var es := OneByteMallocs(done + 1, n);
      OneByteStep(h, done);
      assert es[0] == Malloc(1, true, done + 1) && es[1..] == OneByteMallocs(done + 2, n - 1);
      OneByteRun(Next(h, es[0]), done + 1, n - 1);
    }
  }

  /** Once the table is full further allocations are made and counted nowhere, so the cap
      does not bound what is outstanding: under every cap above 4096 some run of mallocs
      reaches any number of live bytes. */
  lemma FullTableEscapesCap(cap: u64, n: nat)
    requires MAX_TRACKED < cap && n < TWO_64
    ensures IsRun(Heap([], [], cap), OneByteMallocs(1, n))
    ensures Outstanding(RunTo(Heap([], [], cap), OneByteMallocs(1, n))) == n
  {
    hide Filled, IsRun, RunTo, OneByteMallocs, Outstanding;
    EmptyFilled(cap);
    OneByteRun(Heap([], [], cap), 0, n);
  }

  lemma EmptyFilled(cap: u64)
    requires MAX_TRACKED < cap
    ensures Filled(Heap([], [], cap), 0)
  {
  }

  /** HIP answers null to a request for no bytes, so what is recorded has a size. */
  ghost predicate Sized(es: seq<Event>) {
    forall i :: 0 <= i < |es| && es[i].Malloc? && es[i].ptr != 0 ==> es[i].size > 0
  }

  /** Exactly the caps of at most 4096 bytes bound what is outstanding on every run: under
      a larger one the table can fill up before the cap is reached. */
  lemma CapHoldsIffTableOutlastsIt(cap: u64)
    requires 0 < cap < TWO_64 - 1
    ensures (forall es :: IsRun(Heap([], [], cap), es) && Sized(es) ==> Outstanding(RunTo(Heap([], [], cap), es)) <= cap)
            <==> cap <= MAX_TRACKED
  {
    var h := Heap([], [], cap);
    if cap <= MAX_TRACKED {
      forall es | IsRun(h, es) && Sized(es)
        ensures Outstanding(RunTo(h, es)) <= cap
      {
        SmallCapHolds(h, es);
      }
    } else {
      var es := OneByteMallocs(1, cap + 1);
      FullTableEscapesCap(cap, cap + 1);
      assert IsRun(h, es) && Sized(es) && Outstanding(RunTo(h, es)) > cap;
    }
  }

  /** Every entry takes up part of the cap, so the table has room for all the cap allows. */
  ghost predicate AllTracked(h: Heap) {
    Inv(h) && h.untracked == [] && forall e :: e in h.tracked ==> e.size > 0
  }

  lemma {:induction false} SmallCapHolds(h: Heap, es: seq<Event>)
    requires AllTracked(h) && 0 < h.cap <= MAX_TRACKED && IsRun(h, es) && Sized(es)
    ensures Outstanding(RunTo(h, es)) <= h.cap
    decreases es
  {
    hide Next, Enabled;
    if es != [] {
      SmallCapStep(h, es[0]);
      SmallCapHolds(Next(h, es[0]), es[1..]);
    }
  }

  lemma SmallCapStep(h: Heap, e: Event)
    requires AllTracked(h) && 0 < h.cap <= MAX_TRACKED && Enabled(h, e) && (e.Malloc? && e.ptr != 0 ==> e.size > 0)
    ensures AllTracked(Next(h, e)) && Next(h, e).cap == h.cap
  {
    hide Sum, Distinct, Inv;
    StepInv(h, e);
    SizedSum(h.tracked);
    CapOf(h);
    if e.Free? && Find(h.tracked, e.ptr) < |h.tracked| {
      SwapRemoveShorter(h.tracked, Find(h.tracked, e.ptr));
    }
  }

  lemma CapOf(h: Heap)
    requires Inv(h) && h.cap != 0
    ensures Tracked(h) <= h.cap && Outstanding(h) < TWO_64
  {
  }

  lemma {:induction false} SizedSum(t: seq<Entry>)
    requires forall e :: e in t ==> e.size > 0
    ensures |t| <= Sum(t)
  {
    if t != [] {
      SizedSum(t[..|t| - 1]);
    }
  }

  // ----- the dispatch functions

  datatype Reply = Reply(ret: int, ptr: nat)

  /** `unix_malloc` with the runtime loaded: `hip` is hipMalloc's answer, asked only if
      the cap allows it. */
  method UnixMalloc(tracker: Tracker, ghost h: Heap, size: u64, cap: u64, hip: Reply) returns (a: Reply, ghost h': Heap)
    requires tracker.Valid() && tracker.Table() == h.tracked && h.cap == cap
    modifies tracker, tracker.allocs
    ensures tracker.Valid() && tracker.Table() == h'.tracked
    ensures h' == AfterMalloc(h, size, hip.ret == 0, hip.ptr)
    ensures a == if WouldExceed(Tracked(h) % TWO_64, size, cap) then Reply(HIP_ERROR_OUT_OF_MEMORY, 0) else hip
    ensures var made := !WouldExceed(Tracked(h) % TWO_64, size, cap) && hip.ret == 0 && hip.ptr != 0;
            && tracker.Table() == (if made && |h.tracked| < 4096 then h.tracked + [Entry(hip.ptr, size)] else h.tracked)
            && h'.untracked == (if made && |h.tracked| >= 4096 then h.untracked + [Entry(hip.ptr, size)] else h.untracked)
  {
    h' := AfterMalloc(h, size, hip.ret == 0, hip.ptr);
    if WouldExceed(tracker.totalBytes, size, cap) {
      return Reply(HIP_ERROR_OUT_OF_MEMORY, 0), h';
    }
    a := hip;
    if hip.ret == 0 && hip.ptr != 0 {
      var ok := tracker.RecordAlloc(hip.ptr, size);
    }
  }

  /** `unix_free` with the runtime loaded: the entry goes only if HIP freed the block. */
  method UnixFree(tracker: Tracker, ghost h: Heap, ptr: nat, hipRet: int) returns (ret: int, ghost h': Heap)
    requires tracker.Valid() && tracker.Table() == h.tracked
    modifies tracker, tracker.allocs
    ensures tracker.Valid() && tracker.Table() == h'.tracked
    ensures h' == AfterFree(h, ptr, hipRet == 0) && ret == hipRet
    ensures tracker.Table() == if hipRet == 0 then Release(h.tracked, ptr).0 else h.tracked
  {
    h' := AfterFree(h, ptr, hipRet == 0);
    ret := hipRet;
    if ret == 0 {
      var released := tracker.ReleaseAlloc(ptr);
    }
  }
}
