/** The stub's fake device addresses: each live allocation owns a padded interval, and
    any pointer into one resolves to (handle, offset) by predecessor search. */
module FakeAddresses {
  import opened Basics
  import opened Bytes

  const FIRST_BASE: nat := 0x0000_7000_0000_0000
  const PAGE: nat := 4096

  datatype AllocRange = AllocRange(handle: u64, size: u64)

  /** The value of an address space: next base to hand out, live ranges by base. */
  datatype Space = Space(nextBase: nat, ranges: map<nat, AllocRange>)

  const EMPTY_SPACE := Space(FIRST_BASE, map[])

  /** Addresses that resolve to a range: at least one, even for size 0. */
  function Extent(size: nat): (n: nat) {
    if size < 1 then 1 else size
  }

  /** `next_multiple_of` */
  function RoundUp(n: nat, m: nat): (r: nat)
    requires m > 0
  {
    if n % m == 0 then n else n + (m - n % m)
  }

  function Reserved(size: nat): nat {
    RoundUp(Extent(size), PAGE) + PAGE
  }

  lemma ReservedBounds(size: nat)
    ensures Reserved(size) % PAGE == 0
    ensures Extent(size) + PAGE <= Reserved(size) <= size + 2 * PAGE
  {
  }

  /** In pages: enough whole ones for the range, and one more. */
  lemma ReservedIs(size: nat)
    ensures Reserved(size) == ((if size < 1 then 1 else size) + 4095) / 4096 * 4096 + 4096
  {
  }

  function AllocateIn(sp: Space, handle: u64, size: u64): Space {
    Space(sp.nextBase + Reserved(size), sp.ranges[sp.nextBase := AllocRange(handle, size)])
  }

  function RemoveRange(sp: Space, ptr: nat): (Space, Option<u64>) {
    if ptr in sp.ranges then (Space(sp.nextBase, sp.ranges - {ptr}), Some(sp.ranges[ptr].handle))
    else (sp, None)
  }

  // ----- the predecessor lookup

  lemma {:induction false} MaximumExists(keys: set<nat>) returns (m: nat)
    requires keys != {}
    ensures m in keys && forall k :: k in keys ==> k <= m
  {
    m :| m in keys;
    if keys != {m} {
      var first := m;
      var m' := MaximumExists(keys - {first});
      m := if m' > first then m' else first;
      forall k | k in keys
        ensures k <= m
      {
        assert k == first || k in keys - {first};
      }
    }
  }

  function Maximum(keys: set<nat>): (m: nat)
    requires keys != {}
    ensures m in keys && forall k :: k in keys ==> k <= m
  {
    assert exists m: nat :: m in keys && forall k :: k in keys ==> k <= m by {
      var m := MaximumExists(keys);
    }
    var m: nat :| m in keys && forall k :: k in keys ==> k <= m;
    m
  }

  /** `range(..=ptr).next_back()`: the largest key not above `ptr`. */
  function Predecessor(keys: set<nat>, ptr: nat): (r: Option<nat>)
    ensures r.Some? ==> r.value in keys && r.value <= ptr && forall k :: k in keys && k <= ptr ==> k <= r.value
    ensures r.None? ==> forall k :: k in keys ==> k > ptr
  {
    var below := set k | k in keys && k <= ptr;
    assert forall k :: k in keys && k <= ptr ==> k in below;
    if below == {} then None else Some(Maximum(below))
  }

  function ResolveIn(sp: Space, ptr: u64): (r: Option<(u64, u64)>)
  {
    match Predecessor(sp.ranges.Keys, ptr)
    case None => None
    case Some(base) =>
      var range := sp.ranges[base];
      if ptr - base < Extent(range.size) then Some((range.handle, ptr - base)) else None
  }

  // ----- the invariant

  ghost predicate Valid(sp: Space) {
    && FIRST_BASE <= sp.nextBase && sp.nextBase % PAGE == 0
    && (forall b :: b in sp.ranges ==> FIRST_BASE <= b && b % PAGE == 0 && b + Reserved(sp.ranges[b].size) <= sp.nextBase)
    && (forall b, c :: b in sp.ranges && c in sp.ranges && b < c ==> b + Reserved(sp.ranges[b].size) <= c)
  }

  /** Live ranges sit on page boundaries below `nextBase`, and between the end of one
      and the start of any later one lie at least 4096 addresses nobody owns. */
  lemma ValidSeparates(sp: Space, b: nat, c: nat)
    requires Valid(sp) && b in sp.ranges && c in sp.ranges && b < c
    ensures b % 4096 == 0 && c % 4096 == 0
    ensures b + Extent(sp.ranges[b].size) + 4096 <= c < sp.nextBase
  {
    ReservedBounds(sp.ranges[b].size);
    ReservedBounds(sp.ranges[c].size);
  }

  lemma AllocateValid(sp: Space, handle: u64, size: u64)
    requires Valid(sp)
    ensures Valid(AllocateIn(sp, handle, size))
    ensures sp.nextBase !in sp.ranges
  {
    ReservedBounds(size);
    forall b | b in sp.ranges
      ensures b < sp.nextBase
    {
      ReservedBounds(sp.ranges[b].size);
    }
  }

  lemma RemoveValid(sp: Space, ptr: nat)
    requires Valid(sp)
    ensures Valid(RemoveRange(sp, ptr).0)
  {
  }

  // ----- lookup against a full scan

  /** `ptr` points into the range at `base`. */
  ghost predicate Covers(sp: Space, base: nat, ptr: nat) {
    base in sp.ranges && base <= ptr < base + if sp.ranges[base].size < 1 then 1 else sp.ranges[base].size
  }

  lemma CoverUnique(sp: Space, b: nat, c: nat, ptr: nat)
    requires Valid(sp) && Covers(sp, b, ptr) && Covers(sp, c, ptr)
    ensures b == c
  {
    if b < c {
      ValidSeparates(sp, b, c);
    } else if c < b {
      ValidSeparates(sp, c, b);
    }
  }

  lemma CoverIsPredecessor(sp: Space, b: nat, ptr: nat)
    requires Valid(sp) && Covers(sp, b, ptr)
    ensures Predecessor(sp.ranges.Keys, ptr) == Some(b)
  {
    var p := Predecessor(sp.ranges.Keys, ptr);
    if p.Some? && b < p.value {
      ValidSeparates(sp, b, p.value);
    }
  }

  /** The predecessor search finds precisely what a scan of every range would. */
  lemma ResolveIsScan(sp: Space, ptr: u64, handle: u64, offset: u64)
    requires Valid(sp)
    ensures ResolveIn(sp, ptr) == Some((handle, offset)) <==>
            exists b :: Covers(sp, b, ptr) && sp.ranges[b].handle == handle && offset == ptr - b
  {
    var p := Predecessor(sp.ranges.Keys, ptr);
    forall b: nat | Covers(sp, b, ptr)
      ensures p == Some(b)
    {
      CoverIsPredecessor(sp, b, ptr);
    }
    if ResolveIn(sp, ptr) == Some((handle, offset)) {
      assert Covers(sp, p.value, ptr);
    }
  }

  lemma ResolveSome(sp: Space, ptr: u64) returns (base: nat)
    requires Valid(sp) && ResolveIn(sp, ptr).Some?
    ensures Covers(sp, base, ptr) && ResolveIn(sp, ptr) == Some((sp.ranges[base].handle, ptr - base))
  {
    base := Predecessor(sp.ranges.Keys, ptr).value;
  }

  lemma ResolveNone(sp: Space, ptr: u64)
    requires Valid(sp)
    ensures ResolveIn(sp, ptr).None? <==> forall b :: !Covers(sp, b, ptr)
  {
    if b :| Covers(sp, b, ptr) {
      ResolveIsScan(sp, ptr, sp.ranges[b].handle, ptr - b);
    }
    if ResolveIn(sp, ptr).Some? {
      var b := ResolveSome(sp, ptr);
    }
  }

  // ----- runs

  datatype SpaceOp = OpAllocate(handle: u64, size: u64) | OpRemove(ptr: nat)

  function Apply(sp: Space, op: SpaceOp): Space {
    match op
    case OpAllocate(handle, size) => AllocateIn(sp, handle, size)
    case OpRemove(ptr) => RemoveRange(sp, ptr).0
  }

  function Run(sp: Space, ops: seq<SpaceOp>): Space
    decreases ops
  {
    if ops == [] then sp else Run(Apply(sp, ops[0]), ops[1..])
  }

  /** What a run reserves: the exact amount by which `nextBase` moves. */
  function Budget(ops: seq<SpaceOp>): nat {
    if ops == [] then 0
    else (if ops[0].OpAllocate? then Reserved(ops[0].size) else 0) + Budget(ops[1..])
  }

  function Requested(ops: seq<SpaceOp>): nat {
    if ops == [] then 0
    else (if ops[0].OpAllocate? then ops[0].size + 8192 else 0) + Requested(ops[1..])
  }

  lemma ApplyValid(sp: Space, op: SpaceOp)
    requires Valid(sp)
    ensures Valid(Apply(sp, op))
  {
    match op
    case OpAllocate(handle, size) => AllocateValid(sp, handle, size);
    case OpRemove(ptr) => RemoveValid(sp, ptr);
  }

  /** Every reachable state is valid, and `nextBase` stays representable for as long as
      the run's exact reservation budget does; size + 8192 a request suffices. */
  lemma {:induction false} RunValidWithinBudget(sp: Space, ops: seq<SpaceOp>)
    requires Valid(sp)
    ensures Valid(Run(sp, ops))
    ensures Run(sp, ops).nextBase == sp.nextBase + Budget(ops)
    ensures Budget(ops) <= Requested(ops)
    decreases ops
  {
    if ops != [] {
      ApplyValid(sp, ops[0]);
      RunValidWithinBudget(Apply(sp, ops[0]), ops[1..]);
      if ops[0].OpAllocate? {
        ReservedBounds(ops[0].size);
      }
    }
  }

  /** An address below `nextBase` that resolves to nothing never resolves again, so a
      freed pointer, or any pointer into a freed range, stays dead on every later run. */
  lemma {:induction false} DeadStaysDead(sp: Space, ops: seq<SpaceOp>, ptr: u64)
    requires Valid(sp) && ptr < sp.nextBase && ResolveIn(sp, ptr).None?
    ensures ResolveIn(Run(sp, ops), ptr).None?
    decreases ops
  {
    if ops != [] {
      var sp' := Apply(sp, ops[0]);
      ApplyValid(sp, ops[0]);
      ResolveNone(sp, ptr);
      forall b
        ensures !Covers(sp', b, ptr)
      {
        assert b in sp.ranges ==> !Covers(sp, b, ptr);
      }
      ResolveNone(sp', ptr);
      DeadStaysDead(sp', ops[1..], ptr);
    }
  }

  lemma FreedNeverResolves(sp: Space, base: nat, ops: seq<SpaceOp>, ptr: u64)
    requires Valid(sp) && Covers(sp, base, ptr)
    ensures ResolveIn(Run(RemoveRange(sp, base).0, ops), ptr).None?
  {
    var sp' := RemoveRange(sp, base).0;
    RemoveValid(sp, base);
    ReservedBounds(sp.ranges[base].size);
    forall b
      ensures !Covers(sp', b, ptr)
    {
      if Covers(sp', b, ptr) {
        CoverUnique(sp, b, base, ptr);
      }
    }
    ResolveNone(sp', ptr);
    DeadStaysDead(sp', ops, ptr);
  }

  // ----- the object

  /** The stub's `AddressSpace`, with `nextBase` a 64-bit integer. */
  class AddressSpace {
    var nextBase: u64
    var ranges: map<nat, AllocRange>

    ghost function View(): Space
      reads this
    {
      Space(nextBase, ranges)
    }

    constructor ()
      ensures View() == EMPTY_SPACE && Valid(View()) && nextBase == 0x7000_0000_0000 && ranges == map[]
    {
      nextBase := FIRST_BASE;
      ranges := map[];
    }

    method Allocate(handle: u64, size: u64) returns (base: u64)
      requires Valid(View()) && nextBase + Reserved(size) < TWO_64
      modifies this
      ensures base == old(nextBase) && base !in old(ranges)
      ensures View() == AllocateIn(old(View()), handle, size) && Valid(View())
      ensures ResolveIn(View(), base) == Some((handle, 0))
      ensures nextBase == base + ((if size < 1 then 1 else size) + 4095) / 4096 * 4096 + 4096
    {
      ReservedIs(size);
      AllocateValid(View(), handle, size);
      base := nextBase;
      var reserved := RoundUp(if size > 1 then size else 1, PAGE) + PAGE;
      nextBase := nextBase + reserved;
      ranges := ranges[base := AllocRange(handle, size)];
      assert Covers(View(), base, base);
      ResolveIsScan(View(), base, handle, 0);
    }

    method Resolve(ptr: u64) returns (r: Option<(u64, u64)>)
      requires Valid(View())
      ensures r == ResolveIn(View(), ptr)
      ensures r.Some? <==> exists b :: Covers(View(), b, ptr)
    {
      ResolveNone(View(), ptr);
      var below := Predecessor(ranges.Keys, ptr);
      if below.None? {
        return None;
      }
      var base := below.value;
      var offset := ptr - base;
      var limit := if ranges[base].size > 1 then ranges[base].size else 1;
      if offset < limit {
        return Some((ranges[base].handle, offset));
      }
      return None;
    }

    method RemoveExact(ptr: u64) returns (handle: Option<u64>)
      requires Valid(View())
      modifies this
      ensures (View(), handle) == RemoveRange(old(View()), ptr) && Valid(View())
      ensures nextBase == old(nextBase)
    {
      if ptr in ranges {
        handle := Some(ranges[ptr].handle);
        ranges := ranges - {ptr};
      } else {
        handle := None;
      }
    }
  }
}
