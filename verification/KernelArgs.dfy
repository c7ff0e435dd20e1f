/** Kernel arguments crossing the bridge. The stub scans the blob for fake device
    pointers and lists them as fixups; the daemon patches real addresses in. */
module KernelArgs {
  import opened Basics
  import opened Bytes
  import opened Slices
  import opened Protocol
  import opened FakeAddresses
  import opened HandleTables

  const MAX_KERNEL_ARG_BYTES: nat := 4096

  function WordAt(args: seq<u8>, off: nat): u64
    requires off + 8 <= |args|
  {
    U64(args[off..off + 8])
  }

  // ----- the stub's scan

  /** Fixups found in the words before `off`. */
  function ScanUpTo(sp: Space, args: seq<u8>, off: nat): (fs: seq<Fixup>)
    requires off % 8 == 0 && off <= |args| < TWO_32
    ensures 8 * |fs| <= off
  {
    if off == 0 then []
    else
      var found := ResolveIn(sp, WordAt(args, off - 8));
      ScanUpTo(sp, args, off - 8) +
      if found.Some? then [Fixup(off - 8, found.value.0, found.value.1)] else []
  }

  function Scan(sp: Space, args: seq<u8>): (fs: seq<Fixup>)
    requires |args| < TWO_32
  {
    ScanUpTo(sp, args, |args| / 8 * 8)
  }

  /** Aligned, inside the blob, in strictly increasing order. */
  ghost predicate Ordered(fs: seq<Fixup>, limit: nat) {
    && (forall k :: 0 <= k < |fs| ==> fs[k].offset % 8 == 0 && fs[k].offset + 8 <= limit)
    && (forall j, k :: 0 <= j < k < |fs| ==> fs[j].offset < fs[k].offset)
  }

  ghost predicate IsFixupOf(sp: Space, args: seq<u8>, limit: nat, f: Fixup)
    requires limit <= |args|
  {
    f.offset % 8 == 0 && f.offset + 8 <= limit && ResolveIn(sp, WordAt(args, f.offset)) == Some((f.handle, f.intra))
  }

  lemma {:induction false} ScanUpToExact(sp: Space, args: seq<u8>, off: nat)
    requires off % 8 == 0 && off <= |args| < TWO_32
    ensures var fs := ScanUpTo(sp, args, off);
            && Ordered(fs, off)
            && forall f :: f in fs <==> IsFixupOf(sp, args, off, f)
  {
    hide ResolveIn, WordAt, ScanUpTo, Ordered, IsFixupOf;
    if off == 0 {
      NoWords(sp, args);
    } else {
      WordsBelow(off);
      ScanUpToExact(sp, args, off - 8);
      OneMoreWord(sp, args, off, ScanUpTo(sp, args, off - 8));
      LastWord(sp, args, off);
    }
  }

  lemma NoWords(sp: Space, args: seq<u8>)
    requires |args| < TWO_32
    ensures ScanUpTo(sp, args, 0) == [] && Ordered([], 0) && forall f :: !IsFixupOf(sp, args, 0, f)
  {
  }

  lemma WordsBelow(off: nat)
    requires off > 0 && off % 8 == 0
    ensures off >= 8 && (off - 8) % 8 == 0
  {
  }

  lemma LastWord(sp: Space, args: seq<u8>, off: nat)
    requires 8 <= off <= |args| < TWO_32 && off % 8 == 0
    ensures var found := ResolveIn(sp, WordAt(args, off - 8));
            ScanUpTo(sp, args, off) == ScanUpTo(sp, args, off - 8) +
              if found.Some? then [Fixup(off - 8, found.value.0, found.value.1)] else []
  {
    hide ResolveIn, WordAt;
  }

  lemma OneMoreWord(sp: Space, args: seq<u8>, off: nat, before: seq<Fixup>)
    requires 0 < off <= |args| < TWO_32 && off % 8 == 0 && Ordered(before, off - 8)
    requires forall f :: f in before <==> IsFixupOf(sp, args, off - 8, f)
    ensures var found := ResolveIn(sp, WordAt(args, off - 8));
            var fs := before + if found.Some? then [Fixup(off - 8, found.value.0, found.value.1)] else [];
            Ordered(fs, off) && forall f :: f in fs <==> IsFixupOf(sp, args, off, f)
  {
    hide WordAt, ResolveIn;
    var found := ResolveIn(sp, WordAt(args, off - 8));
    var fs := before + if found.Some? then [Fixup(off - 8, found.value.0, found.value.1)] else [];
    forall f
      ensures f in fs <==> IsFixupOf(sp, args, off, f)
    {
      assert f in before <==> IsFixupOf(sp, args, off - 8, f);
      if f.offset % 8 == 0 && f.offset + 8 <= off {
        AlignedBelow(f.offset, off);
      }
    }
  }

  lemma AlignedBelow(a: nat, b: nat)
    requires a % 8 == 0 && b % 8 == 0 && a < b
    ensures a == b - 8 || a + 8 <= b - 8
  {
  }

  /** The scan lists exactly the 8-aligned words that resolve, once each, in order. */
  lemma ScanExact(sp: Space, args: seq<u8>)
    requires |args| < TWO_32
    ensures var fs := Scan(sp, args);
            && Ordered(fs, |args|) && 8 * |fs| <= |args|
            && forall f :: f in fs <==> IsFixupOf(sp, args, |args|, f)
  {
    hide ResolveIn;
    var off := |args| / 8 * 8;
    ScanUpToExact(sp, args, off);
    forall f
      ensures f in Scan(sp, args) <==> IsFixupOf(sp, args, |args|, f)
    {
      assert f.offset % 8 == 0 && f.offset + 8 <= |args| ==> f.offset + 8 <= off;
      assert f in Scan(sp, args) <==> IsFixupOf(sp, args, off, f);
    }
  }

  /** The loop of `hipLaunchKernel`, under the address-space lock. */
  method ScanFixups(space: AddressSpace, args: seq<u8>) returns (found: seq<Fixup>)
    requires Valid(space.View()) && |args| < TWO_32
    ensures found == Scan(space.View(), args)
  {
    hide LE, FromLE, ResolveIn;
    found := [];
    var offset := 0;
    while offset + 8 <= |args|
      invariant offset % 8 == 0 && offset <= |args|
      invariant found == ScanUpTo(space.View(), args, offset)
    {
      var candidate := U64(args[offset..offset + 8]);
      var r := space.Resolve(candidate);
      if r.Some? {
        found := found + [Fixup(offset, r.value.0, r.value.1)];
      }
      offset := offset + 8;
    }
    assert offset == |args| / 8 * 8;
  }

  /** Whatever a scan of a full-size blob finds, the launch request fits the frame cap. */
  lemma LaunchFitsFrame(fn: u64, grid: Dim, block: Dim, sharedMem: u32, sp: Space, args: seq<u8>)
    requires |args| == MAX_KERNEL_ARG_BYTES
    ensures |Scan(sp, args)| <= 512
    ensures |Body(LaunchKernel(fn, grid, block, sharedMem, Scan(sp, args), args))| <= 40 + 20 * 512 + 4096 < MAX_BODY_LEN
  {
    ScanExact(sp, args);
  }

  // ----- the daemon's patching

  function PatchWord(args: seq<u8>, off: nat, value: u64): (r: seq<u8>)
    requires off + 8 <= |args|
    ensures |r| == |args|
  {
    args[..off] + LE(value, 8) + args[off + 8..]
  }

  /** `wrapping_add` */
  function RealAddress(base: nat, intra: u64): u64 {
    (base + intra) % TWO_64
  }

  /** The first `n` fixups applied in order; `None` from the first one that is out of
      bounds or names an unbound handle. */
  function PatchFirst(entries: map<nat, nat>, fs: seq<Fixup>, n: nat, args: seq<u8>): (r: Option<seq<u8>>)
    requires n <= |fs|
    ensures r.Some? ==> |r.value| == |args|
  {
    if n == 0 then Some(args)
    else
      var before := PatchFirst(entries, fs, n - 1, args);
      var f := fs[n - 1];
      if before.None? || f.offset + 8 > |args| || f.handle !in entries then None
      else Some(PatchWord(before.value, f.offset, RealAddress(entries[f.handle], f.intra)))
  }

  function Patch(entries: map<nat, nat>, fs: seq<Fixup>, args: seq<u8>): Option<seq<u8>> {
    PatchFirst(entries, fs, |fs|, args)
  }

  lemma {:induction false} PatchFirstFails(entries: map<nat, nat>, fs: seq<Fixup>, n: nat, m: nat, args: seq<u8>)
    requires n <= m <= |fs| && PatchFirst(entries, fs, n, args).None?
    ensures PatchFirst(entries, fs, m, args).None?
  {
    if n < m {
      PatchFirstFails(entries, fs, n, m - 1, args);
    }
  }

  /** `copy_from_slice` */
  method CopyFromSlice(args: array<u8>, offset: nat, bytes: seq<u8>)
    requires offset + |bytes| <= args.Length
    modifies args
    ensures args[..] == old(args[..])[..offset] + bytes + old(args[..])[offset + |bytes|..]
  {
    forall k | 0 <= k < |bytes| {
      args[offset + k] := bytes[k];
    }
  }

  /** The in-place loop of the daemon's LaunchKernel arm. On failure the blob is left
      half patched, and is never launched. */
  method PatchInPlace(handles: HandleTable<nat>, fs: seq<Fixup>, args: array<u8>) returns (ok: bool)
    modifies args
    ensures ok <==> Patch(handles.entries, fs, old(args[..])).Some?
    ensures ok ==> Some(args[..]) == Patch(handles.entries, fs, old(args[..]))
  {
    hide LE;
    ghost var original := args[..];
    var i := 0;
    while i < |fs|
      invariant 0 <= i <= |fs|
      invariant PatchFirst(handles.entries, fs, i, original) == Some(args[..])
    {
      var f := fs[i];
      var offset := f.offset as nat;
      if offset + 8 > args.Length {
        PatchFirstFails(handles.entries, fs, i + 1, |fs|, original);
        return false;
      }
      var base := handles.Get(f.handle);
      if base.None? {
        PatchFirstFails(handles.entries, fs, i + 1, |fs|, original);
        return false;
      }
      var bytes := LE(RealAddress(base.value, f.intra), 8);
      CopyFromSlice(args, offset, bytes);
      i := i + 1;
    }
    ok := true;
  }

  predicate InWord(off: nat, i: nat) {
    off <= i < off + 8
  }

  function WordBytes(args: seq<u8>, off: nat): seq<u8>
    requires off + 8 <= |args|
  {
    args[off..off + 8]
  }

  /** In bounds, and no two words overlap. */
  ghost predicate Separate(fs: seq<Fixup>, limit: nat) {
    && (forall k :: 0 <= k < |fs| ==> fs[k].offset + 8 <= limit)
    && (forall j, k :: 0 <= j < k < |fs| ==> fs[j].offset + 8 <= fs[k].offset || fs[k].offset + 8 <= fs[j].offset)
  }

  function Target(entries: map<nat, nat>, f: Fixup): (bytes: seq<u8>)
    requires f.handle in entries
    ensures |bytes| == 8
  {
    LE(RealAddress(entries[f.handle], f.intra), 8)
  }

  lemma PatchWordEffect(args: seq<u8>, off: nat, value: u64)
    requires off + 8 <= |args|
    ensures var p := PatchWord(args, off, value);
            && WordBytes(p, off) == LE(value, 8)
            && (forall i :: 0 <= i < |args| && !InWord(off, i) ==> p[i] == args[i])
            && (forall o :: 0 <= o && o + 8 <= |args| && (o + 8 <= off || off + 8 <= o) ==> WordBytes(p, o) == WordBytes(args, o))
  {
    hide LE;
    Parts4([], args[..off], LE(value, 8), args[off + 8..]);
    var p := PatchWord(args, off, value);
    assert [] + args[..off] == args[..off];
    forall o | 0 <= o && o + 8 <= |args| && (o + 8 <= off || off + 8 <= o)
      ensures WordBytes(p, o) == WordBytes(args, o)
    {
      assert forall i | 0 <= i < 8 :: WordBytes(p, o)[i] == p[o + i] == args[o + i];
    }
  }

  lemma {:induction false} PatchSucceedsIffBound(entries: map<nat, nat>, fs: seq<Fixup>, n: nat, args: seq<u8>)
    requires n <= |fs| && forall k :: 0 <= k < n ==> fs[k].offset + 8 <= |args|
    ensures PatchFirst(entries, fs, n, args).Some? <==> forall k :: 0 <= k < n ==> fs[k].handle in entries
  {
    hide PatchWord;
    if n > 0 {
      PatchSucceedsIffBound(entries, fs, n - 1, args);
    }
  }

  /** A fixup's target ends up over its own word... */
  lemma {:induction false} PatchedWord(entries: map<nat, nat>, fs: seq<Fixup>, n: nat, args: seq<u8>, k: nat)
    requires Separate(fs, |args|) && k < n <= |fs| && fs[k].handle in entries
    requires PatchFirst(entries, fs, n, args).Some?
    ensures var word := WordBytes(PatchFirst(entries, fs, n, args).value, fs[k].offset);
            word == Target(entries, fs[k]) && U64(word) == (entries[fs[k].handle] + fs[k].intra) % 0x1_0000_0000_0000_0000
  {
    hide LE, PatchWord;
    var before, f := PatchFirst(entries, fs, n - 1, args).value, fs[n - 1];
    PatchWordEffect(before, f.offset, RealAddress(entries[f.handle], f.intra));
    U64OfLE(RealAddress(entries[f.handle], f.intra));
    if k < n - 1 {
      PatchedWord(entries, fs, n - 1, args, k);
    }
  }

  /** ... and no byte outside the fixups' words changes. */
  lemma {:induction false} UntouchedByte(entries: map<nat, nat>, fs: seq<Fixup>, n: nat, args: seq<u8>, i: nat)
    requires n <= |fs| && i < |args| && PatchFirst(entries, fs, n, args).Some?
    requires forall k :: 0 <= k < n ==> !InWord(fs[k].offset, i)
    ensures PatchFirst(entries, fs, n, args).value[i] == args[i]
  {
    hide LE, PatchWord;
    if n > 0 {
      var before, f := PatchFirst(entries, fs, n - 1, args).value, fs[n - 1];
      PatchWordEffect(before, f.offset, RealAddress(entries[f.handle], f.intra));
      UntouchedByte(entries, fs, n - 1, args, i);
    }
  }

  /** Fixups over separate words may be applied in any order. */
  lemma PatchOrderIrrelevant(entries: map<nat, nat>, fs: seq<Fixup>, gs: seq<Fixup>, args: seq<u8>)
    requires Separate(fs, |args|) && Separate(gs, |args|)
    requires forall f :: f in fs <==> f in gs
    ensures Patch(entries, fs, args) == Patch(entries, gs, args)
  {
    hide LE, PatchFirst, Target;
    PatchSucceedsIffBound(entries, fs, |fs|, args);
    PatchSucceedsIffBound(entries, gs, |gs|, args);
    assert forall k :: 0 <= k < |fs| ==> fs[k] in gs;
    assert forall k :: 0 <= k < |gs| ==> gs[k] in fs;
    var p, q := Patch(entries, fs, args), Patch(entries, gs, args);
    if p.Some? && q.Some? {
      forall i | 0 <= i < |args|
        ensures p.value[i] == q.value[i]
      {
        if k :| 0 <= k < |fs| && InWord(fs[k].offset, i) {
          var m :| 0 <= m < |gs| && gs[m] == fs[k];
          PatchedWord(entries, fs, |fs|, args, k);
          PatchedWord(entries, gs, |gs|, args, m);
          assert p.value[i] == WordBytes(p.value, fs[k].offset)[i - fs[k].offset];
          assert q.value[i] == WordBytes(q.value, gs[m].offset)[i - gs[m].offset];
        } else {
          UntouchedByte(entries, fs, |fs|, args, i);
          UntouchedByte(entries, gs, |gs|, args, i);
        }
      }
      assert p.value == q.value;
    }
  }

  // ----- what the launch must see

  function WordOf(i: nat): nat {
    i / 8 * 8
  }

  /** The blob with each aligned word that is a live fake pointer replaced by the real
      address it stands for, and every other byte kept. */
  function TranslatedByte(sp: Space, bases: map<nat, nat>, args: seq<u8>, i: nat): u8
    requires i < |args|
  {
    var w := WordOf(i);
    if w + 8 <= |args| then
      var r := ResolveIn(sp, WordAt(args, w));
      if r.Some? && r.value.0 in bases then LE(RealAddress(bases[r.value.0], r.value.1), 8)[i - w]
      else args[i]
    else args[i]
  }

  function Translated(sp: Space, bases: map<nat, nat>, args: seq<u8>): (r: seq<u8>)
    ensures |r| == |args|
  {
    seq(|args|, i requires 0 <= i < |args| => TranslatedByte(sp, bases, args, i))
  }

  lemma OrderedIsSeparate(fs: seq<Fixup>, limit: nat)
    requires Ordered(fs, limit)
    ensures Separate(fs, limit)
  {
  }

  lemma TranslatedWordByte(sp: Space, bases: map<nat, nat>, args: seq<u8>, f: Fixup, i: nat)
    requires IsFixupOf(sp, args, |args|, f) && f.handle in bases && InWord(f.offset, i)
    ensures TranslatedByte(sp, bases, args, i) == Target(bases, f)[i - f.offset]
  {
    hide LE, FromLE, ResolveIn;
    assert WordOf(i) == f.offset;
  }

  lemma PatchedByteInWord(sp: Space, bases: map<nat, nat>, entries: map<nat, nat>, args: seq<u8>, i: nat)
    requires |args| < TWO_32 && WordOf(i) + 8 <= |args| && ResolveIn(sp, WordAt(args, WordOf(i))).Some?
    requires forall f :: f in Scan(sp, args) ==> f.handle in bases && f.handle in entries && entries[f.handle] == bases[f.handle]
    requires Patch(entries, Scan(sp, args), args).Some?
    ensures Patch(entries, Scan(sp, args), args).value[i] == TranslatedByte(sp, bases, args, i)
  {
    hide LE, FromLE, ResolveIn, PatchFirst, Scan;
    ScanExact(sp, args);
    var fs, w := Scan(sp, args), WordOf(i);
    OrderedIsSeparate(fs, |args|);
    var p, r := Patch(entries, fs, args).value, ResolveIn(sp, WordAt(args, w)).value;
    var f := Fixup(w, r.0, r.1);
    assert IsFixupOf(sp, args, |args|, f);
    var k :| 0 <= k < |fs| && fs[k] == f;
    PatchedWord(entries, fs, |fs|, args, k);
    TranslatedWordByte(sp, bases, args, f, i);
    assert p[i] == WordBytes(p, w)[i - w];
  }

  lemma PatchedByte(sp: Space, bases: map<nat, nat>, entries: map<nat, nat>, args: seq<u8>, i: nat)
    requires |args| < TWO_32 && i < |args|
    requires forall f :: f in Scan(sp, args) ==> f.handle in bases && f.handle in entries && entries[f.handle] == bases[f.handle]
    requires Patch(entries, Scan(sp, args), args).Some?
    ensures Patch(entries, Scan(sp, args), args).value[i] == TranslatedByte(sp, bases, args, i)
  {
    hide LE, FromLE, ResolveIn, PatchFirst, Scan;
    ScanExact(sp, args);
    var fs := Scan(sp, args);
    OrderedIsSeparate(fs, |args|);
    var w := WordOf(i);
    if w + 8 <= |args| && ResolveIn(sp, WordAt(args, w)).Some? {
      PatchedByteInWord(sp, bases, entries, args, i);
    } else {
      forall k | 0 <= k < |fs|
        ensures !InWord(fs[k].offset, i)
      {
        assert fs[k] in fs;
        assert IsFixupOf(sp, args, |args|, fs[k]);
      }
      UntouchedByte(entries, fs, |fs|, args, i);
    }
  }

  /** Scanning on one side and patching on the other either fails, which needs a handle
      unbound since the scan, or yields the translated blob. */
  lemma ScanThenPatch(sp: Space, bases: map<nat, nat>, entries: map<nat, nat>, args: seq<u8>)
    requires |args| < TWO_32
    requires forall f :: f in Scan(sp, args) ==> f.handle in bases
    requires forall f :: f in Scan(sp, args) && f.handle in entries ==> entries[f.handle] == bases[f.handle]
    ensures Patch(entries, Scan(sp, args), args) ==
            if forall f :: f in Scan(sp, args) ==> f.handle in entries
            then Some(Translated(sp, bases, args)) else None
  {
    hide LE, FromLE, ResolveIn, PatchFirst, Scan, TranslatedByte;
    ScanExact(sp, args);
    var fs := Scan(sp, args);
    PatchSucceedsIffBound(entries, fs, |fs|, args);
    var p := Patch(entries, fs, args);
    if forall f :: f in fs ==> f.handle in entries {
      assert forall k :: 0 <= k < |fs| ==> fs[k] in fs;
      forall i | 0 <= i < |args|
        ensures p.value[i] == TranslatedByte(sp, bases, args, i)
      {
        PatchedByte(sp, bases, entries, args, i);
      }
      assert p.value == Translated(sp, bases, args);
    } else {
      var f :| f in fs && f.handle !in entries;
      var k :| 0 <= k < |fs| && fs[k] == f;
    }
  }

  // ----- what the kernel is given

  /** The range at `b` holds address `p`; an empty range holds its base. */
  ghost predicate PointsInto(sp: Space, b: nat, p: nat) {
    b in sp.ranges && b <= p < b + if sp.ranges[b].size == 0 then 1 else sp.ranges[b].size
  }

  /** Word `w` of `out`: a pointer into the range at `b` has become the real address of
      the very byte it pointed at; a word that points into no range is as it was. */
  ghost predicate WordMadeReal(sp: Space, bases: map<nat, nat>, args: seq<u8>, out: seq<u8>, w: nat)
    requires w + 8 <= |args| == |out|
  {
    var p := U64(args[w..w + 8]);
    && (forall b: nat :: PointsInto(sp, b, p) ==>
          var h := sp.ranges[b].handle;
          h in bases && U64(out[w..w + 8]) == (bases[h] + (p - b)) % 0x1_0000_0000_0000_0000)
    && ((forall b: nat :: !PointsInto(sp, b, p)) ==> out[w..w + 8] == args[w..w + 8])
  }

  /** Every 8-aligned word of `args` is made real, and what follows the last one stays. */
  ghost predicate MadeReal(sp: Space, bases: map<nat, nat>, args: seq<u8>, out: seq<u8>) {
    && |out| == |args|
    && (forall w: nat :: w % 8 == 0 && w + 8 <= |args| ==> WordMadeReal(sp, bases, args, out, w))
    && (forall i :: |args| / 8 * 8 <= i < |args| ==> out[i] == args[i])
  }

  lemma TranslatedIsReal(sp: Space, bases: map<nat, nat>, args: seq<u8>)
    requires Valid(sp) && |args| < TWO_32 && forall f :: f in Scan(sp, args) ==> f.handle in bases
    ensures MadeReal(sp, bases, args, Translated(sp, bases, args))
  {
    hide Scan, ResolveIn, TranslatedByte, LE, FromLE, Valid;
    ScanExact(sp, args);
    var out := Translated(sp, bases, args);
    forall w: nat | w % 8 == 0 && w + 8 <= |args|
      ensures WordMadeReal(sp, bases, args, out, w)
    {
      TranslatedWord(sp, bases, args, w);
    }
    forall i | |args| / 8 * 8 <= i < |args|
      ensures out[i] == args[i]
    {
      TranslatedTail(sp, bases, args, i);
    }
  }

  lemma TranslatedTail(sp: Space, bases: map<nat, nat>, args: seq<u8>, i: nat)
    requires |args| / 8 * 8 <= i < |args|
    ensures TranslatedByte(sp, bases, args, i) == args[i]
  {
    hide ResolveIn, LE;
  }

  lemma ByteInWord(w: nat, i: nat)
    requires w % 8 == 0 && w <= i < w + 8
    ensures WordOf(i) == w
  {
  }

  /** A whole word at once. */
  lemma TranslatedSlice(sp: Space, bases: map<nat, nat>, args: seq<u8>, w: nat)
    requires w % 8 == 0 && w + 8 <= |args|
    ensures var r := ResolveIn(sp, WordAt(args, w));
            Translated(sp, bases, args)[w..w + 8]
              == if r.Some? && r.value.0 in bases then LE(RealAddress(bases[r.value.0], r.value.1), 8) else args[w..w + 8]
  {
    hide ResolveIn, LE, FromLE, RealAddress, WordAt, WordOf;
    var r, out := ResolveIn(sp, WordAt(args, w)), Translated(sp, bases, args);
    forall i | w <= i < w + 8
      ensures out[i] == if r.Some? && r.value.0 in bases then LE(RealAddress(bases[r.value.0], r.value.1), 8)[i - w] else args[i]
    {
      ByteInWord(w, i);
    }
  }

  lemma TranslatedWord(sp: Space, bases: map<nat, nat>, args: seq<u8>, w: nat)
    requires Valid(sp) && w % 8 == 0 && w + 8 <= |args| < TWO_32
    requires forall f :: IsFixupOf(sp, args, |args|, f) ==> f.handle in bases
    ensures WordMadeReal(sp, bases, args, Translated(sp, bases, args), w)
  {
    hide ResolveIn, LE, FromLE, Valid, Translated;
    var out, p := Translated(sp, bases, args), U64(args[w..w + 8]);
    TranslatedSlice(sp, bases, args, w);
    var found := ResolveIn(sp, p);
    if found.Some? {
      var base := ResolveSome(sp, p);
      var h, intra := found.value.0, found.value.1;
      assert IsFixupOf(sp, args, |args|, Fixup(w, h, intra));
      U64OfLE(RealAddress(bases[h], intra));
      forall b: nat | PointsInto(sp, b, p)
        ensures b == base
      {
        assert Covers(sp, b, p);
        CoverUnique(sp, b, base, p);
      }
      assert PointsInto(sp, base, p);
    } else {
      ResolveNone(sp, p);
      assert forall b: nat :: PointsInto(sp, b, p) ==> Covers(sp, b, p);
    }
  }

  /** There is only one such blob. */
  lemma MadeRealUnique(sp: Space, bases: map<nat, nat>, args: seq<u8>, a: seq<u8>, b: seq<u8>)
    requires MadeReal(sp, bases, args, a) && MadeReal(sp, bases, args, b)
    ensures a == b
  {
    hide WordMadeReal;
    forall i | 0 <= i < |args|
      ensures a[i] == b[i]
    {
      var w := WordOf(i);
      if w + 8 <= |args| {
        assert WordMadeReal(sp, bases, args, a, w) && WordMadeReal(sp, bases, args, b, w);
        WordUnique(sp, bases, args, a, b, w);
        assert a[i] == a[w..w + 8][i - w] && b[i] == b[w..w + 8][i - w];
      }
    }
  }

  lemma WordUnique(sp: Space, bases: map<nat, nat>, args: seq<u8>, a: seq<u8>, b: seq<u8>, w: nat)
    requires w + 8 <= |args| == |a| == |b| && WordMadeReal(sp, bases, args, a, w) && WordMadeReal(sp, bases, args, b, w)
    ensures a[w..w + 8] == b[w..w + 8]
  {
    hide FromLE, LE;
    var p := U64(args[w..w + 8]);
    if c: nat :| PointsInto(sp, c, p) {
      assert LE(U64(a[w..w + 8]), 8) == a[w..w + 8] && LE(U64(b[w..w + 8]), 8) == b[w..w + 8];
    }
  }

  /** A word below the first fake address, such as any count or flag, is never touched. */
  lemma SmallWordsStay(sp: Space, bases: map<nat, nat>, args: seq<u8>, out: seq<u8>, w: nat)
    requires Valid(sp) && MadeReal(sp, bases, args, out) && w % 8 == 0 && w + 8 <= |args|
    requires U64(args[w..w + 8]) < 0x7000_0000_0000
    ensures out[w..w + 8] == args[w..w + 8]
  {
    hide FromLE;
    assert WordMadeReal(sp, bases, args, out, w);
  }
}
