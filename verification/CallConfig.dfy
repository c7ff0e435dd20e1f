/** The kernel-launch configuration stack: sixteen fixed slots on the PE side, an
    unbounded vector in the Rust stub, each with its last-error cell. */
module CallConfig {
  import opened Basics
  import opened HipStatus

  const STACK_SIZE: nat := 16

  datatype Dim3 = Dim3(x: nat, y: nat, z: nat)

  datatype Config = Config(grid: Dim3, block: Dim3, sharedMem: nat, stream: nat)

  /** `Push(None)` has a null grid or block pointer; `Other` is any other call, with the
      status it returns. */
  datatype Call = Push(config: Option<Config>) | Pop | GetLastError | Other(status: int)

  /** What a call returns: a status, and the configuration a pop writes out. */
  datatype Answer = Answer(status: int, config: Option<Config>)

  datatype State = State(stack: seq<Config>, lastError: int)

  const FRESH := State([], HIP_SUCCESS)

  function Fail(s: State, code: int): (State, Answer) {
    (s.(lastError := code), Answer(code, None))
  }

  /** The PE shim: sixteen slots, and reading the last error clears it. */
  function NextPe(s: State, c: Call): (State, Answer) {
    match c
    case Push(config) =>
      if config.None? || |s.stack| >= STACK_SIZE then Fail(s, HIP_ERROR_NOT_SUPPORTED)
      else (s.(stack := s.stack + [config.value]), Answer(HIP_SUCCESS, None))
    case Pop => PopTop(s)
    case GetLastError => (s.(lastError := HIP_SUCCESS), Answer(s.lastError, None))
    case Other(status) => Report(s, status)
  }

  /** The Rust stub: a vector, and reading the last error leaves it. */
  function NextRust(s: State, c: Call): (State, Answer) {
    match c
    case Push(config) =>
      if config.None? then Fail(s, HIP_ERROR_NOT_SUPPORTED)
      else (s.(stack := s.stack + [config.value]), Answer(HIP_SUCCESS, None))
    case Pop => PopTop(s)
    case GetLastError => (s, Answer(s.lastError, None))
    case Other(status) => Report(s, status)
  }

  function PopTop(s: State): (State, Answer) {
    if s.stack == [] then Fail(s, HIP_ERROR_NOT_SUPPORTED)
    else (s.(stack := s.stack[..|s.stack| - 1]), Answer(HIP_SUCCESS, Some(s.stack[|s.stack| - 1])))
  }

  function Report(s: State, status: int): (State, Answer) {
    if status == HIP_SUCCESS then (s, Answer(status, None)) else Fail(s, status)
  }

  // ----- the PE shim's globals

  class PeShim {
    const stack: array<Config>
    var depth: nat
    var lastError: int

    ghost predicate Valid()
      reads this, stack
    {
      stack.Length == STACK_SIZE && depth <= STACK_SIZE
    }

    ghost function View(): State
      requires Valid()
      reads this, stack
    {
      State(stack[..depth], lastError)
    }

    constructor ()
      ensures Valid() && View() == FRESH && fresh(stack)
    {
      stack := new Config[STACK_SIZE](i => Config(Dim3(0, 0, 0), Dim3(0, 0, 0), 0, 0));
      depth, lastError := 0, HIP_SUCCESS;
    }

    method PushCallConfiguration(grid: Option<Dim3>, block: Option<Dim3>, sharedMem: nat, stream: nat) returns (status: int)
      requires Valid()
      modifies this, stack
      ensures Valid()
      ensures var config := if grid.Some? && block.Some? then Some(Config(grid.value, block.value, sharedMem, stream)) else None;
              (View(), Answer(status, None)) == NextPe(old(View()), Push(config))
      ensures status == HIP_SUCCESS <==> grid.Some? && block.Some? && |old(View()).stack| < 16
      ensures View().stack == if status == HIP_SUCCESS then old(View()).stack + [Config(grid.value, block.value, sharedMem, stream)] else old(View()).stack
      ensures status != HIP_SUCCESS ==> status == View().lastError == 801
    {
      if grid.None? || block.None? || depth >= STACK_SIZE {
        lastError := HIP_ERROR_NOT_SUPPORTED;
        return HIP_ERROR_NOT_SUPPORTED;
      }
      stack[depth] := Config(grid.value, block.value, sharedMem, stream);
      depth := depth + 1;
      assert stack[..depth] == old(stack[..depth]) + [stack[depth - 1]];
      status := HIP_SUCCESS;
    }

    method PopCallConfiguration() returns (status: int, config: Option<Config>)
      requires Valid()
      modifies this
      ensures Valid() && (View(), Answer(status, config)) == NextPe(old(View()), Pop)
      ensures old(View()).stack == [] ==> status == View().lastError == 801 && config == None && View().stack == []
      ensures old(View()).stack != [] ==>
                var n := |old(View()).stack| - 1;
                status == HIP_SUCCESS && config == Some(old(View()).stack[n]) && View().stack == old(View()).stack[..n]
    {
      if depth <= 0 {
        lastError := HIP_ERROR_NOT_SUPPORTED;
        return HIP_ERROR_NOT_SUPPORTED, None;
      }
      depth := depth - 1;
      assert stack[..depth] == old(stack[..depth])[..depth];
      status, config := HIP_SUCCESS, Some(stack[depth]);
    }

    method ReadLastError() returns (code: int)
      requires Valid()
      modifies this`lastError
      ensures Valid() && (View(), Answer(code, None)) == NextPe(old(View()), GetLastError)
      ensures code == old(lastError) && lastError == 0
    {
      code := lastError;
      lastError := HIP_SUCCESS;
    }
  }

  // ----- the Rust stub's

  class RustStub {
    var stack: seq<Config>
    var lastError: int

    ghost function View(): State
      reads this
    {
      State(stack, lastError)
    }

    constructor ()
      ensures View() == FRESH
    {
      stack, lastError := [], HIP_SUCCESS;
    }

    method PushCallConfiguration(grid: Option<Dim3>, block: Option<Dim3>, sharedMem: nat, stream: nat) returns (status: int)
      modifies this
      ensures var config := if grid.Some? && block.Some? then Some(Config(grid.value, block.value, sharedMem, stream)) else None;
              (View(), Answer(status, None)) == NextRust(old(View()), Push(config))
      ensures status == HIP_SUCCESS <==> grid.Some? && block.Some?
      ensures View().stack == if status == HIP_SUCCESS then old(View()).stack + [Config(grid.value, block.value, sharedMem, stream)] else old(View()).stack
      ensures status != HIP_SUCCESS ==> status == View().lastError == 801
    {
      if grid.None? || block.None? {
        lastError := HIP_ERROR_NOT_SUPPORTED;
        return HIP_ERROR_NOT_SUPPORTED;
      }
      stack := stack + [Config(grid.value, block.value, sharedMem, stream)];
      status := HIP_SUCCESS;
    }

    method PopCallConfiguration() returns (status: int, config: Option<Config>)
      modifies this
      ensures (View(), Answer(status, config)) == NextRust(old(View()), Pop)
      ensures old(View()).stack == [] ==> status == View().lastError == 801 && config == None && View().stack == []
      ensures old(View()).stack != [] ==>
                var n := |old(View()).stack| - 1;
                status == HIP_SUCCESS && config == Some(old(View()).stack[n]) && View().stack == old(View()).stack[..n]
    {
      if stack == [] {
        lastError := HIP_ERROR_NOT_SUPPORTED;
        return HIP_ERROR_NOT_SUPPORTED, None;
      }
      status, config := HIP_SUCCESS, Some(stack[|stack| - 1]);
      stack := stack[..|stack| - 1];
    }

    method ReadLastError() returns (code: int)
      ensures (View(), Answer(code, None)) == NextRust(View(), GetLastError) && code == lastError
    {
      code := lastError;
    }
  }

  // ----- runs

  function PeAfter(cs: seq<Call>): State {
    if cs == [] then FRESH else NextPe(PeAfter(cs[..|cs| - 1]), cs[|cs| - 1]).0
  }

  function RustAfter(cs: seq<Call>): State {
    if cs == [] then FRESH else NextRust(RustAfter(cs[..|cs| - 1]), cs[|cs| - 1]).0
  }

  /** A push that finds sixteen configurations on the stub's stack. */
  predicate Overflows(cs: seq<Call>, i: nat)
    requires i < |cs|
  {
    cs[i].Push? && cs[i].config.Some? && |RustAfter(cs[..i]).stack| >= STACK_SIZE
  }

  /** Call `i` of the run is answered alike by both sides. */
  predicate SameAnswer(cs: seq<Call>, i: nat)
    requires i < |cs|
  {
    NextPe(PeAfter(cs[..i]), cs[i]).1 == NextRust(RustAfter(cs[..i]), cs[i]).1
  }

  lemma {:induction false} StacksAgree(cs: seq<Call>, n: nat)
    requires n <= |cs| && forall i :: 0 <= i < n ==> !Overflows(cs, i)
    ensures PeAfter(cs[..n]).stack == RustAfter(cs[..n]).stack
  {
    if n > 0 {
      StacksAgree(cs, n - 1);
      assert cs[..n][..n - 1] == cs[..n - 1];
      assert !Overflows(cs, n - 1);
    }
  }

  /** The two stacks answer every push and pop of a run alike, statuses and configurations,
      iff the run never pushes onto sixteen. */
  lemma StacksAgreeIffNoOverflow(cs: seq<Call>)
    ensures (forall i :: 0 <= i < |cs| && (cs[i].Push? || cs[i].Pop?) ==> SameAnswer(cs, i))
            <==> (forall i :: 0 <= i < |cs| ==> !Overflows(cs, i))
  {
    if i :| 0 <= i < |cs| && Overflows(cs, i) {
      var first := FirstOverflow(cs, i);
      StacksAgree(cs, first);
      assert !SameAnswer(cs, first);
    } else {
      forall i | 0 <= i < |cs| && (cs[i].Push? || cs[i].Pop?)
        ensures SameAnswer(cs, i)
      {
        StacksAgree(cs, i);
        assert !Overflows(cs, i);
      }
    }
  }

  lemma {:induction false} FirstOverflow(cs: seq<Call>, i: nat) returns (first: nat)
    requires i < |cs| && Overflows(cs, i)
    ensures first <= i && Overflows(cs, first) && forall j :: 0 <= j < first ==> !Overflows(cs, j)
  {
    if j :| 0 <= j < i && Overflows(cs, j) {
      first := FirstOverflow(cs, j);
    } else {
      first := i;
    }
  }

  // ----- matching

  function Run(s: State, cs: seq<Call>): State {
    if cs == [] then s else NextPe(Run(s, cs[..|cs| - 1]), cs[|cs| - 1]).0
  }

  /** Pushes minus pops. */
  function Height(cs: seq<Call>): int {
    if cs == [] then 0
    else Height(cs[..|cs| - 1]) + match cs[|cs| - 1] case Push(_) => 1 case Pop => -1 case _ => 0
  }

  /** Every push is a real one, no pop goes below the start, no push above `room`. */
  ghost predicate Nested(cs: seq<Call>, room: int) {
    && (forall k :: 0 <= k <= |cs| ==> 0 <= Height(cs[..k]) <= room)
    && (forall k :: 0 <= k < |cs| && cs[k].Push? ==> cs[k].config.Some?)
  }

  lemma {:induction false} NestedKeepsBase(s: State, cs: seq<Call>, n: nat)
    requires |s.stack| <= STACK_SIZE && Nested(cs, STACK_SIZE - |s.stack|) && n <= |cs|
    ensures var t := Run(s, cs[..n]);
            |t.stack| == |s.stack| + Height(cs[..n]) && t.stack[..|s.stack|] == s.stack
  {
    if n > 0 {
      NestedKeepsBase(s, cs, n - 1);
      assert cs[..n][..n - 1] == cs[..n - 1];
      var t := Run(s, cs[..n - 1]);
      assert 0 <= Height(cs[..n - 1]) && 0 <= Height(cs[..n]) <= STACK_SIZE - |s.stack|;
    }
  }

  /** In a well-nested run each pop returns the configuration of its matching push and
      leaves the stack as it was before that push. */
  lemma PopReturnsMatchingPush(s: State, config: Config, inner: seq<Call>)
    requires |s.stack| < STACK_SIZE && Nested(inner, STACK_SIZE - |s.stack| - 1) && Height(inner) == 0
    ensures var pushed := NextPe(s, Push(Some(config)));
            var (after, answer) := NextPe(Run(pushed.0, inner), Pop);
            && pushed.1.status == HIP_SUCCESS
            && answer == Answer(HIP_SUCCESS, Some(config)) && after.stack == s.stack
  {
    var pushed := NextPe(s, Push(Some(config))).0;
    NestedKeepsBase(pushed, inner, |inner|);
    assert inner[..|inner|] == inner;
    var t := Run(pushed, inner);
    assert t.stack == pushed.stack;
  }

  // ----- the last error

  /** The status of the most recent failed call; `clears` stops at the last read. */
  function LatestFailure(cs: seq<Call>, answers: seq<int>, clears: bool): int
    requires |cs| == |answers|
  {
    if cs == [] then HIP_SUCCESS
    else
      var n := |cs| - 1;
      if cs[n].GetLastError? then if clears then HIP_SUCCESS else LatestFailure(cs[..n], answers[..n], clears)
      else if answers[n] != HIP_SUCCESS then answers[n]
      else LatestFailure(cs[..n], answers[..n], clears)
  }

  function PeAnswers(cs: seq<Call>): (r: seq<int>)
    ensures |r| == |cs|
  {
    if cs == [] then [] else PeAnswers(cs[..|cs| - 1]) + [NextPe(PeAfter(cs[..|cs| - 1]), cs[|cs| - 1]).1.status]
  }

  /** On the PE side hipGetLastError returns the latest failure since the previous read. */
  lemma {:induction false} LastErrorIsLatestFailure(cs: seq<Call>)
    ensures PeAfter(cs).lastError == LatestFailure(cs, PeAnswers(cs), true)
    ensures NextPe(PeAfter(cs), GetLastError).1.status == LatestFailure(cs, PeAnswers(cs), true)
  {
    if cs != [] {
      LastErrorIsLatestFailure(cs[..|cs| - 1]);
      assert PeAnswers(cs)[..|cs| - 1] == PeAnswers(cs[..|cs| - 1]);
    }
  }

  function RustAnswers(cs: seq<Call>): (r: seq<int>)
    ensures |r| == |cs|
  {
    if cs == [] then [] else RustAnswers(cs[..|cs| - 1]) + [NextRust(RustAfter(cs[..|cs| - 1]), cs[|cs| - 1]).1.status]
  }

  /** In the stub it returns the latest failure of the whole run: no success and no read
      clears it. */
  lemma {:induction false} StubErrorIsLatestFailure(cs: seq<Call>)
    ensures RustAfter(cs).lastError == LatestFailure(cs, RustAnswers(cs), false)
    ensures NextRust(RustAfter(cs), GetLastError).1.status == LatestFailure(cs, RustAnswers(cs), false)
  {
    if cs != [] {
      StubErrorIsLatestFailure(cs[..|cs| - 1]);
      assert RustAnswers(cs)[..|cs| - 1] == RustAnswers(cs[..|cs| - 1]);
    }
  }
}
