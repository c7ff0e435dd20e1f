/** Sizing a `__CLANG_OFFLOAD_BUNDLE__` from its header: 24-byte magic, entry count, then
    per entry offset, size, triple length and triple. */
module OffloadBundle {
  import opened Basics
  import opened Bytes
  import opened Slices

  const MAGIC: seq<u8> := [0x5f, 0x5f, 0x43, 0x4c, 0x41, 0x4e, 0x47, 0x5f, 0x4f, 0x46, 0x46, 0x4c,
                           0x4f, 0x41, 0x44, 0x5f, 0x42, 0x55, 0x4e, 0x44, 0x4c, 0x45, 0x5f, 0x5f]
  const MAX_BUNDLES: nat := 1000
  const MAX_TRIPLE: nat := 4096
  const MAX_SIZE: nat := 512 * 1024 * 1024
  const U64_MAX: nat := 0xffff_ffff_ffff_ffff

  datatype Bundle = Bundle(offset: u64, size: u64, triple: seq<u8>)

  /** `saturating_add` */
  function End(b: Bundle): (e: u64) {
    if b.offset + b.size > U64_MAX then U64_MAX else b.offset + b.size
  }

  // ----- the builder

  function EntryBytes(b: Bundle): seq<u8> {
    LE(b.offset, 8) + LE(b.size, 8) + LE(|b.triple|, 8) + b.triple
  }

  function EntriesBytes(bs: seq<Bundle>): seq<u8> {
    if bs == [] then [] else EntryBytes(bs[0]) + EntriesBytes(bs[1..])
  }

  function Build(bs: seq<Bundle>): seq<u8> {
    MAGIC + LE(|bs|, 8) + EntriesBytes(bs)
  }

  // ----- the parser

  function ReadU64(mem: seq<u8>, off: nat): u64
    requires off + 8 <= |mem|
  {
    U64(mem[off..off + 8])
  }

  /** Entries from `cursor` on; `None` is a refusal. The parser reads live memory, so
      the header is there to be read: `Readable` says so. */
  function SizeFrom(mem: seq<u8>, cursor: nat, count: nat, total: nat): (r: Option<nat>)
    requires Readable(mem, cursor, count, total)
    decreases count
  {
    if count == 0 then Some(total)
    else
      var tripleLen: nat := ReadU64(mem, cursor + 16);
      if tripleLen > MAX_TRIPLE then None
      else
        var e: nat := End(Bundle(ReadU64(mem, cursor), ReadU64(mem, cursor + 8), []));
        var total' := if e > total then e else total;
        if total' > MAX_SIZE then None else SizeFrom(mem, cursor + 24 + tripleLen, count - 1, total')
  }

  /** Every header the loop can get to lies in readable memory. */
  predicate Readable(mem: seq<u8>, cursor: nat, count: nat, total: nat)
    decreases count
  {
    count > 0 ==>
      && cursor + 24 <= |mem|
      && var tripleLen: nat := ReadU64(mem, cursor + 16);
         var e: nat := End(Bundle(ReadU64(mem, cursor), ReadU64(mem, cursor + 8), []));
         var total' := if e > total then e else total;
         tripleLen <= MAX_TRIPLE && total' <= MAX_SIZE ==> Readable(mem, cursor + 24 + tripleLen, count - 1, total')
  }

  predicate HeaderReadable(mem: seq<u8>) {
    |mem| >= 24 && (mem[..24] == MAGIC ==> |mem| >= 32 && (ReadU64(mem, 24) <= MAX_BUNDLES ==> Readable(mem, 32, ReadU64(mem, 24), 32)))
  }

  function TotalSize(mem: seq<u8>): Option<nat>
    requires HeaderReadable(mem)
  {
    if mem[..24] != MAGIC then None
    else if ReadU64(mem, 24) > MAX_BUNDLES then None
    else SizeFrom(mem, 32, ReadU64(mem, 24), 32)
  }

  /** `offload_bundle_total_size` */
  method OffloadBundleTotalSize(mem: seq<u8>) returns (r: Option<nat>)
    requires HeaderReadable(mem)
    ensures r == TotalSize(mem)
  {
    hide LE, FromLE;
    if mem[..24] != MAGIC {
      return None;
    }
    var cursor: nat := 24;
    var bundles: nat := ReadU64(mem, cursor);
    cursor := cursor + 8;
    if bundles > MAX_BUNDLES {
      return None;
    }
    var total: nat := cursor;
    var left: nat := bundles;
    while left > 0
      invariant 0 <= left && 0 <= cursor && Readable(mem, cursor, left, total)
      invariant SizeFrom(mem, cursor, left, total) == TotalSize(mem)
    {
      var offset, size := ReadU64(mem, cursor), ReadU64(mem, cursor + 8);
      var tripleLen: nat := ReadU64(mem, cursor + 16);
      if tripleLen > MAX_TRIPLE {
        return None;
      }
      cursor := cursor + 24 + tripleLen;
      var end: nat := End(Bundle(offset, size, []));
      total := if end > total then end else total;
      if total > MAX_SIZE {
        return None;
      }
      left := left - 1;
    }
    r := Some(total);
  }

  // ----- parser against builder

  function LargestEnd(bs: seq<Bundle>, floor: nat): nat {
    if bs == [] then floor
    else LargestEnd(bs[1..], if End(bs[0]) > floor then End(bs[0]) else floor)
  }

  predicate Plausible(bs: seq<Bundle>) {
    forall i :: 0 <= i < |bs| ==> |bs[i].triple| <= MAX_TRIPLE && End(bs[i]) <= MAX_SIZE
  }

  lemma EntryFields(before: seq<u8>, b: Bundle, after: seq<u8>)
    requires |b.triple| <= U64_MAX
    ensures var mem, c := before + EntryBytes(b) + after, |before|;
            && c + 24 + |b.triple| <= |mem|
            && ReadU64(mem, c) == b.offset && ReadU64(mem, c + 8) == b.size && ReadU64(mem, c + 16) == |b.triple|
  {
    hide LE, FromLE;
    var mem := before + EntryBytes(b) + after;
    var rest := b.triple + after;
    assert mem == before + LE(b.offset, 8) + LE(b.size, 8) + LE(|b.triple|, 8) + rest;
    Parts5(before, LE(b.offset, 8), LE(b.size, 8), LE(|b.triple|, 8), rest);
    U64OfLE(b.offset);
    U64OfLE(b.size);
    U64OfLE(|b.triple|);
  }

  /** The cursor sits at the start of each entry in turn: parsing a serialised list
      visits exactly its entries, and answers their largest end or refuses. */
  lemma {:induction false} SizeOfEntries(before: seq<u8>, bs: seq<Bundle>, floor: nat)
    requires floor <= MAX_SIZE && forall i :: 0 <= i < |bs| ==> |bs[i].triple| <= U64_MAX
    ensures var mem := before + EntriesBytes(bs);
            && Readable(mem, |before|, |bs|, floor)
            && SizeFrom(mem, |before|, |bs|, floor) == if Plausible(bs) then Some(LargestEnd(bs, floor)) else None
    decreases |bs|
  {
    hide LE, FromLE, ReadU64, EntryBytes;
    if bs != [] {
      var b, rest := bs[0], bs[1..];
      var mem := before + EntriesBytes(bs);
      assert mem == before + EntryBytes(b) + EntriesBytes(rest);
      EntryFields(before, b, EntriesBytes(rest));
      assert End(Bundle(b.offset, b.size, [])) == End(b);
      var floor' := if End(b) > floor then End(b) else floor;
      PlausibleCons(bs);
      EntryLength(b);
      if |b.triple| <= MAX_TRIPLE && floor' <= MAX_SIZE {
        SizeOfEntries(before + EntryBytes(b), rest, floor');
        assert before + EntryBytes(b) + EntriesBytes(rest) == mem;
      }
    }
  }

  lemma EntryLength(b: Bundle)
    ensures |EntryBytes(b)| == 24 + |b.triple|
  {
  }

  lemma PlausibleCons(bs: seq<Bundle>)
    requires bs != []
    ensures Plausible(bs) <==> |bs[0].triple| <= MAX_TRIPLE && End(bs[0]) <= MAX_SIZE && Plausible(bs[1..])
  {
    if Plausible(bs[1..]) {
      forall i | 1 <= i < |bs|
        ensures |bs[i].triple| <= MAX_TRIPLE && End(bs[i]) <= MAX_SIZE
      {
        assert bs[i] == bs[1..][i - 1];
      }
    }
  }

  /** On the serialisation of any list the parser answers max(32, largest end), and
      refuses exactly when the count, a triple or an end is implausible. */
  lemma TotalSizeOfBuilt(bs: seq<Bundle>)
    requires |bs| <= U64_MAX && forall i :: 0 <= i < |bs| ==> |bs[i].triple| <= U64_MAX
    ensures HeaderReadable(Build(bs))
    ensures TotalSize(Build(bs)) == if |bs| <= MAX_BUNDLES && Plausible(bs) then Some(LargestEnd(bs, 32)) else None
  {
    hide LE, FromLE, SizeFrom, Readable, EntriesBytes;
    var head := MAGIC + LE(|bs|, 8);
    var mem := Build(bs);
    Parts4([], MAGIC, LE(|bs|, 8), EntriesBytes(bs));
    assert [] + MAGIC == MAGIC;
    U64OfLE(|bs|);
    assert mem == head + EntriesBytes(bs);
    SizeOfEntries(head, bs, 32);
  }

  lemma {:induction false} LargestEndIs(bs: seq<Bundle>, floor: nat, m: nat)
    ensures LargestEnd(bs, floor) == m <==>
            && floor <= m && (forall i :: 0 <= i < |bs| ==> End(bs[i]) <= m)
            && (m == floor || exists i :: 0 <= i < |bs| && End(bs[i]) == m)
  {
    if bs != [] {
      LargestEndIs(bs[1..], if End(bs[0]) > floor then End(bs[0]) else floor, m);
      assert forall i :: 1 <= i < |bs| ==> bs[i] == bs[1..][i - 1];
    }
  }

  /** The answer does not depend on the order of the entries. */
  lemma TotalSizeOrderIrrelevant(bs: seq<Bundle>, cs: seq<Bundle>)
    requires multiset(bs) == multiset(cs)
    requires |bs| <= U64_MAX && forall b :: b in bs ==> |b.triple| <= U64_MAX
    ensures HeaderReadable(Build(bs)) && HeaderReadable(Build(cs))
    ensures TotalSize(Build(bs)) == TotalSize(Build(cs))
  {
    hide TotalSize, HeaderReadable, Build;
    assert forall b :: b in bs <==> b in multiset(bs);
    assert forall c :: c in cs <==> c in multiset(cs);
    assert |bs| == |multiset(bs)| == |cs|;
    TotalSizeOfBuilt(bs);
    TotalSizeOfBuilt(cs);
    assert forall i :: 0 <= i < |bs| ==> bs[i] in cs;
    assert forall i :: 0 <= i < |cs| ==> cs[i] in bs;
    var m := LargestEnd(bs, 32);
    LargestEndIs(bs, 32, m);
    LargestEndIs(cs, 32, m);
    if i :| 0 <= i < |bs| && End(bs[i]) == m {
      var j :| 0 <= j < |cs| && cs[j] == bs[i];
    }
  }

  // ----- in numbers

  /** What the parser answers, in the entries' own offsets and sizes: a size that covers
      every entry and no more than one of them needs. */
  lemma TotalSizeMeans(bs: seq<Bundle>)
    requires |bs| <= U64_MAX && forall i :: 0 <= i < |bs| ==> |bs[i].triple| <= U64_MAX
    ensures HeaderReadable(Build(bs))
    ensures var r := TotalSize(Build(bs));
            && (r.None? <==> |bs| > 1000 || exists i :: 0 <= i < |bs| && (|bs[i].triple| > 4096 || bs[i].offset + bs[i].size > 536_870_912))
            && (r.Some? ==>
                  && (forall i :: 0 <= i < |bs| ==> bs[i].offset + bs[i].size <= r.value)
                  && 32 <= r.value
                  && (r.value == 32 || exists i :: 0 <= i < |bs| && bs[i].offset + bs[i].size == r.value))
  {
    hide Build, TotalSize, HeaderReadable, LargestEnd;
    TotalSizeOfBuilt(bs);
    LargestEndIs(bs, 32, LargestEnd(bs, 32));
  }

  /** The serialisation: 24 characters, the count, then offset, size, length and triple. */
  lemma BuildLayout(b: Bundle)
    requires |b.triple| <= U64_MAX
    ensures var mem := Build([b]);
            && |mem| == 56 + |b.triple| && (forall i :: 0 <= i < 24 ==> mem[i] == "__CLANG_OFFLOAD_BUNDLE__"[i] as int)
            && U64(mem[24..32]) == 1 && U64(mem[32..40]) == b.offset && U64(mem[40..48]) == b.size
            && U64(mem[48..56]) == |b.triple| && mem[56..] == b.triple
  {
    hide LE, FromLE;
    var mem := Build([b]);
    assert EntriesBytes([b][1..]) == [];
    assert mem == MAGIC + LE(1, 8) + (LE(b.offset, 8) + LE(b.size, 8) + LE(|b.triple|, 8) + b.triple);
    assert mem[24..32] == LE(1, 8) && mem[32..40] == LE(b.offset, 8) && mem[40..48] == LE(b.size, 8) && mem[48..56] == LE(|b.triple|, 8);
    U64OfLE(1);
    U64OfLE(b.offset);
    U64OfLE(b.size);
    U64OfLE(|b.triple|);
  }

  lemma BadMagicRefused(mem: seq<u8>)
    requires HeaderReadable(mem) && exists i :: 0 <= i < 24 && mem[i] != "__CLANG_OFFLOAD_BUNDLE__"[i] as int
    ensures TotalSize(mem) == None
  {
    var i :| 0 <= i < 24 && mem[i] != "__CLANG_OFFLOAD_BUNDLE__"[i] as int;
    assert mem[..24][i] != MAGIC[i];
  }
}
