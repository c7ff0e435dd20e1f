/** The framed request/response protocol between the HIP stub and the daemon:
      request:  [opcode][body length, u32][body]
      response: [status][body length, u32][body] */
module Protocol {
  import opened Basics
  import opened Bytes
  import opened Slices
  import opened Utf8

  const MAX_BODY_LEN: nat := 256 * 1024 * 1024

  datatype Dim = Dim(x: u32, y: u32, z: u32)

  /** Byte offset in the argument blob, allocation handle, offset inside it. */
  datatype Fixup = Fixup(offset: u32, handle: u64, intra: u64)

  datatype Request =
    | DeviceCount
    | SetDevice(device: i32)
    | Malloc(size: u64)
    | Free(handle: u64)
    | MemcpyH2D(handle: u64, offset: u64, data: seq<u8>)
    | MemcpyD2H(handle: u64, offset: u64, len: u64)
    | GetDeviceProperties(device: i32)
    | LoadModule(data: seq<u8>)
    | GetFunction(module_: u64, name: Utf8String)
    | LaunchKernel(function_: u64, grid: Dim, block: Dim, sharedMem: u32,
                   fixups: seq<Fixup>, args: seq<u8>)

  datatype Response = Ok(body: seq<u8>) | Err(msg: Utf8String)

  /** The outcome of reading one frame. `Eof` is `read_exact` running dry;
      `Invalid` is every `InvalidData` error. */
  datatype Read<+T> = Got(value: T, rest: seq<u8>) | Eof | Invalid

  // ----- encoding

  function Opcode(r: Request): (op: u8)
    ensures 1 <= op <= 10
  {
    match r
    case DeviceCount => 1
    case SetDevice(_) => 2
    case Malloc(_) => 3
    case Free(_) => 4
    case MemcpyH2D(_, _, _) => 5
    case MemcpyD2H(_, _, _) => 6
    case GetDeviceProperties(_) => 7
    case LoadModule(_) => 8
    case GetFunction(_, _) => 9
    case LaunchKernel(_, _, _, _, _, _) => 10
  }

  function FixupBytes(f: Fixup): (s: seq<u8>)
    ensures |s| == 20
  {
    LE(f.offset, 4) + LE(f.handle, 8) + LE(f.intra, 8)
  }

  function FixupTable(fs: seq<Fixup>): (s: seq<u8>)
    ensures |s| == 20 * |fs|
  {
    if fs == [] then [] else FixupTable(fs[..|fs| - 1]) + FixupBytes(fs[|fs| - 1])
  }

  function DimBytes(d: Dim): (s: seq<u8>)
    ensures |s| == 12
  {
    LE(d.x, 4) + LE(d.y, 4) + LE(d.z, 4)
  }

  function LaunchHeader(fn: u64, grid: Dim, block: Dim, sharedMem: u32, count: nat): (s: seq<u8>)
    ensures |s| == 40
  {
    LE(fn, 8) + DimBytes(grid) + DimBytes(block) + LE(sharedMem, 4) + LE(count, 4)
  }

  function Body(r: Request): seq<u8> {
    match r
    case DeviceCount => []
    case SetDevice(device) => LEi32(device)
    case Malloc(size) => LE(size, 8)
    case Free(handle) => LE(handle, 8)
    case MemcpyH2D(handle, offset, data) => LE(handle, 8) + LE(offset, 8) + LE(|data|, 8) + data
    case MemcpyD2H(handle, offset, len) => LE(handle, 8) + LE(offset, 8) + LE(len, 8)
    case GetDeviceProperties(device) => LEi32(device)
    case LoadModule(data) => data
    case GetFunction(m, name) => LE(m, 8) + name
    case LaunchKernel(fn, grid, block, shared, fixups, args) =>
      LaunchHeader(fn, grid, block, shared, |fixups|) + FixupTable(fixups) + args
  }

  /** The length field is the body length cast to u32, so it loses the high bits of
      a body of 4 GiB or more. */
  function Frame(tag: u8, body: seq<u8>): (s: seq<u8>)
    ensures |s| == 5 + |body|
  {
    [tag] + LE(|body|, 4) + body
  }

  function EncodeRequest(r: Request): seq<u8> {
    Frame(Opcode(r), Body(r))
  }

  function ResponseBody(r: Response): seq<u8> {
    if r.Ok? then r.body else r.msg
  }

  function EncodeResponse(r: Response): seq<u8> {
    Frame(if r.Ok? then 0 else 1, ResponseBody(r))
  }

  // ----- decoding

  function ReadBody(s: seq<u8>): Read<seq<u8>> {
    if |s| < 4 then Eof
    else
      var len := U32(s[..4]);
      if len > MAX_BODY_LEN then Invalid
      else if |s| - 4 < len then Eof
      else Got(s[4..4 + len], s[4 + len..])
  }

  function DecodeFixups(table: seq<u8>): (fs: seq<Fixup>)
    requires |table| % 20 == 0
    ensures 20 * |fs| == |table|
  {
    if table == [] then []
    else
      var k := |table| - 20;
      DecodeFixups(table[..k]) + [FixupAt(table, k)]
  }

  function FixupAt(s: seq<u8>, i: nat): Fixup
    requires i + 20 <= |s|
  {
    Fixup(U32(s[i..i + 4]), U64(s[i + 4..i + 12]), U64(s[i + 12..i + 20]))
  }

  function DimAt(s: seq<u8>, i: nat): (d: Dim)
    requires i + 12 <= |s|
  {
    Dim(U32(s[i..i + 4]), U32(s[i + 4..i + 8]), U32(s[i + 8..i + 12]))
  }

  function DecodeH2D(body: seq<u8>): Option<Request> {
    if |body| < 24 || |body| != 24 + U64(body[16..24]) then None
    else Some(MemcpyH2D(U64(body[0..8]), U64(body[8..16]), body[24..]))
  }

  function DecodeD2H(body: seq<u8>): Option<Request> {
    if |body| != 24 then None
    else Some(MemcpyD2H(U64(body[0..8]), U64(body[8..16]), U64(body[16..24])))
  }

  function DecodeLaunch(body: seq<u8>): Option<Request> {
    if |body| < 40 then None
    else
      var count: nat := U32(body[36..40]);
      var end: nat := 40 + 20 * count;
      if |body| < end then None
      else Some(LaunchKernel(U64(body[0..8]), DimAt(body, 8), DimAt(body, 20),
                             U32(body[32..36]), DecodeFixups(body[40..end]), body[end..]))
  }

  /** The additions `24 + data_len` and `40 + 20 * count` are taken over unbounded
      integers: the second is checked in the code, and a wrapped value of the first
      is below 24, which the preceding length test already refused. */
  function DecodeBody(op: u8, body: seq<u8>): Option<Request> {
    if op == 1 then Some(DeviceCount)
    else if op == 2 then if |body| != 4 then None else Some(SetDevice(I32(body)))
    else if op == 3 then if |body| != 8 then None else Some(Malloc(U64(body)))
    else if op == 4 then if |body| != 8 then None else Some(Free(U64(body)))
    else if op == 5 then DecodeH2D(body)
    else if op == 6 then DecodeD2H(body)
    else if op == 7 then if |body| != 4 then None else Some(GetDeviceProperties(I32(body)))
    else if op == 8 then Some(LoadModule(body))
    else if op == 9 then
      if |body| < 8 || !ValidUtf8(body[8..]) then None
      else Some(GetFunction(U64(body[0..8]), body[8..]))
    else if op == 10 then DecodeLaunch(body)
    else None
  }

  function ReadRequest(s: seq<u8>): Read<Request> {
    if s == [] then Eof
    else
      match ReadBody(s[1..])
      case Eof => Eof
      case Invalid => Invalid
      case Got(body, rest) =>
        var r := DecodeBody(s[0], body);
        if r.Some? then Got(r.value, rest) else Invalid
  }

  function ReadResponse(s: seq<u8>): Read<Response> {
    if s == [] then Eof
    else
      match ReadBody(s[1..])
      case Eof => Eof
      case Invalid => Invalid
      case Got(body, rest) =>
        if s[0] == 0 then Got(Ok(body), rest)
        else if s[0] == 1 then Got(Err(LossyString(body)), rest)
        else Invalid
  }

  // ----- frames

  /** What the 32-bit length field keeps of a body's length. */
  function KeptLength(body: seq<u8>): nat {
    |body| % TWO_32
  }

  /** What comes back from a frame of any length, whatever follows it: the part of the
      body the length field speaks of, with the rest left in front of what follows. */
  lemma FrameRoundTrip(tag: u8, body: seq<u8>, tail: seq<u8>)
    ensures var n := KeptLength(body);
            ReadBody((Frame(tag, body) + tail)[1..]) == if n > MAX_BODY_LEN then Invalid else Got(body[..n], body[n..] + tail)
    ensures |body| <= MAX_BODY_LEN ==> ReadBody((Frame(tag, body) + tail)[1..]) == Got(body, tail)
  {
    var s, n := (Frame(tag, body) + tail)[1..], KeptLength(body);
    assert s[..4] == LE(|body|, 4);
    assert s[4..] == body + tail;
    U32OfLE(|body|);
    assert s[4..4 + n] == body[..n];
    assert s[4 + n..] == body[n..] + tail;
    assert n == |body| ==> body[..n] == body && body[n..] + tail == tail;
  }

  /** Cutting a frame anywhere short of its end leaves the reader waiting, unless the
      length field already lost some of the body. */
  lemma FramePrefix(tag: u8, body: seq<u8>, k: nat)
    requires 1 <= k < |Frame(tag, body)|
    ensures var got, n := ReadBody(Frame(tag, body)[..k][1..]), KeptLength(body);
            && (got.Got? ==> n < |body| && got.value == body[..n])
            && (|body| <= MAX_BODY_LEN ==> got == Eof)
    ensures Frame(tag, body)[..k][0] == tag
  {
    hide LE;
    var s, n := Frame(tag, body)[..k][1..], KeptLength(body);
    assert s == (LE(|body|, 4) + body)[..k - 1];
    if |s| >= 4 {
      assert s[..4] == LE(|body|, 4);
      U32OfLE(|body|);
      if 4 + n <= |s| {
        assert s[4..] == body[..k - 5];
        SubSlice(s, 4, |s|, 0, n);
        SubSlice(body, 0, k - 5, 0, n);
      }
    }
  }

  /** A frame that is accepted is the one its body would be framed as. */
  lemma FrameCanonical(s: seq<u8>)
    requires s != [] && ReadBody(s[1..]).Got?
    ensures var r := ReadBody(s[1..]);
            |r.value| <= MAX_BODY_LEN && Frame(s[0], r.value) + r.rest == s
  {
    var t := s[1..];
    var len := U32(t[..4]);
    assert LE(len, 4) == t[..4];
    assert s == [s[0]] + t[..4] + t[4..4 + len] + t[4 + len..];
  }

  // ----- bodies

  lemma FixupAtOfAppend(a: seq<u8>, f: Fixup)
    ensures FixupAt(a + FixupBytes(f), |a|) == f
  {
    hide LE, FromLE;
    var s := a + FixupBytes(f);
    var i := |a|;
    assert s[i..i + 4] == LE(f.offset, 4);
    assert s[i + 4..i + 12] == LE(f.handle, 8);
    assert s[i + 12..i + 20] == LE(f.intra, 8);
    U32OfLE(f.offset);
    U64OfLE(f.handle);
    U64OfLE(f.intra);
  }

  lemma FixupBytesAt(s: seq<u8>, i: nat)
    requires i + 20 <= |s|
    ensures FixupBytes(FixupAt(s, i)) == s[i..i + 20]
  {
  }

  lemma {:induction false} FixupTableRoundTrip(fs: seq<Fixup>)
    ensures DecodeFixups(FixupTable(fs)) == fs
  {
    hide LE, FromLE;
    if fs != [] {
      var k := |fs| - 1;
      FixupTableRoundTrip(fs[..k]);
      FixupAtOfAppend(FixupTable(fs[..k]), fs[k]);
      assert FixupTable(fs)[..20 * k] == FixupTable(fs[..k]);
    }
  }

  lemma {:induction false} FixupTableCanonical(table: seq<u8>)
    requires |table| % 20 == 0
    ensures FixupTable(DecodeFixups(table)) == table
  {
    hide LE, FromLE, DecodeFixups, FixupTable, FixupAt, FixupBytes;
    NoFixups();
    if table != [] {
      var k := |table| - 20;
      FixupTableCanonical(table[..k]);
      FixupBytesAt(table, k);
      LastFixup(table);
      TableOfAppend(DecodeFixups(table[..k]), FixupAt(table, k));
      assert table == table[..k] + table[k..k + 20];
    }
  }

  lemma NoFixups()
    ensures DecodeFixups([]) == [] && FixupTable([]) == []
  {
  }

  lemma LastFixup(table: seq<u8>)
    requires |table| % 20 == 0 && table != []
    ensures var k := |table| - 20; DecodeFixups(table) == DecodeFixups(table[..k]) + [FixupAt(table, k)]
  {
    hide FixupAt;
  }

  lemma TableOfAppend(fs: seq<Fixup>, f: Fixup)
    ensures FixupTable(fs + [f]) == FixupTable(fs) + FixupBytes(f)
  {
    hide FixupBytes;
    assert (fs + [f])[..|fs|] == fs;
  }

  lemma DimAtOfBytes(s: seq<u8>, i: nat, d: Dim)
    requires i + 12 <= |s| && s[i..i + 12] == DimBytes(d)
    ensures DimAt(s, i) == d
  {
    SubSlice(s, i, i + 12, 0, 4);
    SubSlice(s, i, i + 12, 4, 8);
    SubSlice(s, i, i + 12, 8, 12);
    Parts4(LE(d.x, 4), LE(d.y, 4), LE(d.z, 4), []);
    assert DimBytes(d) + [] == DimBytes(d);
    assert DimBytes(d)[8..] == DimBytes(d)[8..12];
    U32OfLE(d.x);
    U32OfLE(d.y);
    U32OfLE(d.z);
  }

  lemma DimBytesAt(s: seq<u8>, i: nat)
    requires i + 12 <= |s|
    ensures DimBytes(DimAt(s, i)) == s[i..i + 12]
  {
  }

  lemma LaunchHeaderSlices(fn: u64, grid: Dim, block: Dim, sharedMem: u32, count: u32)
    ensures var h := LaunchHeader(fn, grid, block, sharedMem, count);
            && U64(h[0..8]) == fn && DimAt(h, 8) == grid && DimAt(h, 20) == block
            && U32(h[32..36]) == sharedMem && U32(h[36..40]) == count
  {
    var h := LaunchHeader(fn, grid, block, sharedMem, count);
    Parts5(LE(fn, 8), DimBytes(grid), DimBytes(block), LE(sharedMem, 4), LE(count, 4));
    assert h[36..40] == h[36..];
    U64OfLE(fn);
    DimAtOfBytes(h, 8, grid);
    DimAtOfBytes(h, 20, block);
    U32OfLE(sharedMem);
    U32OfLE(count);
  }

  lemma LaunchBodyRoundTrip(r: Request)
    requires r.LaunchKernel? && |r.fixups| < TWO_32
    ensures DecodeLaunch(Body(r)) == Some(r)
  {
    var b, n := Body(r), |r.fixups|;
    var h := LaunchHeader(r.function_, r.grid, r.block, r.sharedMem, n);
    Parts4([], h, FixupTable(r.fixups), r.args);
    assert [] + h == h;
    assert b[0..40] == h;
    LaunchHeaderSlices(r.function_, r.grid, r.block, r.sharedMem, n);
    forall i: nat, j: nat | i <= j <= 40
      ensures b[i..j] == h[i..j]
    {
      SubSlice(b, 0, 40, i, j);
    }
    FixupTableRoundTrip(r.fixups);
  }

  lemma H2DBodyRoundTrip(r: Request)
    requires r.MemcpyH2D? && |r.data| < TWO_64
    ensures DecodeH2D(Body(r)) == Some(r)
  {
    hide LE, FromLE;
    Parts4(LE(r.handle, 8), LE(r.offset, 8), LE(|r.data|, 8), r.data);
    U64OfLE(r.handle);
    U64OfLE(r.offset);
    U64OfLE(|r.data|);
  }

  lemma D2HBodyRoundTrip(r: Request)
    requires r.MemcpyD2H?
    ensures DecodeD2H(Body(r)) == Some(r)
  {
    hide LE, FromLE;
    var b := Body(r);
    Parts4(LE(r.handle, 8), LE(r.offset, 8), LE(r.len, 8), []);
    assert b + [] == b && b[16..] == b[16..24];
    U64OfLE(r.handle);
    U64OfLE(r.offset);
    U64OfLE(r.len);
  }

  lemma BodyRoundTrip(r: Request)
    requires |Body(r)| < TWO_32
    ensures DecodeBody(Opcode(r), Body(r)) == Some(r)
  {
    hide LE, FromLE, LEi32, I32, LaunchHeader, DecodeFixups, FixupTable, ValidUtf8;
    match r
    case DeviceCount =>
    case SetDevice(device) => I32OfLE(device);
    case GetDeviceProperties(device) => I32OfLE(device);
    case Malloc(size) => U64OfLE(size);
    case Free(handle) => U64OfLE(handle);
    case LoadModule(data) =>
    case GetFunction(m, name) =>
      assert Body(r)[0..8] == LE(m, 8) && Body(r)[8..] == name;
      U64OfLE(m);
    case MemcpyH2D(_, _, _) => H2DBodyRoundTrip(r);
    case MemcpyD2H(_, _, _) => D2HBodyRoundTrip(r);
    case LaunchKernel(_, _, _, _, _, _) => LaunchBodyRoundTrip(r);
  }

  lemma LaunchHeaderCanonical(body: seq<u8>)
    requires |body| >= 40
    ensures LaunchHeader(U64(body[0..8]), DimAt(body, 8), DimAt(body, 20), U32(body[32..36]), U32(body[36..40]))
              == body[..40]
  {
    hide LE, FromLE;
    DimBytesAt(body, 8);
    DimBytesAt(body, 20);
    assert body[..40] == body[0..8] + body[8..20] + body[20..32] + body[32..36] + body[36..40];
  }

  lemma LaunchBodyCanonical(body: seq<u8>)
    requires DecodeLaunch(body).Some?
    ensures Body(DecodeLaunch(body).value) == body
  {
    hide LE, FromLE;
    var count: nat := U32(body[36..40]);
    var end: nat := 40 + 20 * count;
    LaunchHeaderCanonical(body);
    FixupTableCanonical(body[40..end]);
    assert body == body[..40] + body[40..end] + body[end..];
  }

  /** An accepted body is the encoding of what it was decoded to; only opcode 1,
      which never looks at its body, accepts more. */
  lemma BodyCanonical(op: u8, body: seq<u8>)
    requires DecodeBody(op, body).Some?
    ensures var r := DecodeBody(op, body).value;
            Opcode(r) == op && (op != 1 ==> Body(r) == body) && (op == 1 ==> Body(r) == [])
  {
    hide LE, FromLE;
    if op == 10 {
      LaunchBodyCanonical(body);
    } else if op == 5 || op == 6 {
      assert body == body[0..8] + body[8..16] + body[16..24] + body[24..];
    } else if op == 9 {
      assert body == body[0..8] + body[8..];
    }
  }

  // ----- the wire laws

  /** A request comes back from the wire unchanged, leaving what follows it, exactly
      when its body respects the cap. */
  lemma RequestRoundTrip(r: Request, tail: seq<u8>)
    ensures ReadRequest(EncodeRequest(r) + tail) == Got(r, tail) <==> |Body(r)| <= 268_435_456
    ensures Framed(r) && |Body(r)| > MAX_BODY_LEN ==> ReadRequest(EncodeRequest(r) + tail) == Invalid
  {
    hide DecodeBody, Body, ReadBody;
    var s := EncodeRequest(r) + tail;
    assert s[0] == Opcode(r);
    FrameRoundTrip(Opcode(r), Body(r), tail);
    if |Body(r)| <= MAX_BODY_LEN {
      BodyRoundTrip(r);
    } else {
      FramedLength(r);
      if Framed(r) && KeptLength(Body(r)) < |Body(r)| {
        CutH2DRefused(r, KeptLength(Body(r)));
      }
      LeftoverIsLonger(Body(r), tail);
    }
  }

  /** The daemon never takes the frame for another request. True of every request whose
      length fits the field, and of every H2D copy a slice can hold: its own count of
      the data gives a cut body away. */
  predicate Framed(r: Request) {
    if r.MemcpyH2D? then 24 + |r.data| < TWO_64 else |Body(r)| < TWO_32
  }

  lemma FramedLength(r: Request)
    ensures Framed(r) && !r.MemcpyH2D? ==> KeptLength(Body(r)) == |Body(r)|
  {
    hide Body;
  }

  lemma LeftoverIsLonger(body: seq<u8>, tail: seq<u8>)
    requires |body| > MAX_BODY_LEN
    ensures KeptLength(body) <= MAX_BODY_LEN ==> |body[KeptLength(body)..] + tail| > |tail|
  {
  }

  lemma CutH2DRefused(r: Request, n: nat)
    requires r.MemcpyH2D? && Framed(r) && n < |Body(r)|
    ensures DecodeBody(Opcode(r), Body(r)[..n]) == None
  {
    hide LE, FromLE;
    if n >= 24 {
      Parts4(LE(r.handle, 8), LE(r.offset, 8), LE(|r.data|, 8), r.data);
      SubSlice(Body(r), 0, n, 16, 24);
      U64OfLE(|r.data|);
    }
  }

  lemma ResponseRoundTrip(r: Response, tail: seq<u8>)
    ensures ReadResponse(EncodeResponse(r) + tail) == Got(r, tail) <==> |ResponseBody(r)| <= 268_435_456
    ensures MAX_BODY_LEN < |ResponseBody(r)| < TWO_32 ==> ReadResponse(EncodeResponse(r) + tail) == Invalid
  {
    var tag := if r.Ok? then 0 else 1;
    var s := EncodeResponse(r) + tail;
    assert s[0] == tag;
    FrameRoundTrip(tag, ResponseBody(r), tail);
    if |ResponseBody(r)| > MAX_BODY_LEN {
      LeftoverIsLonger(ResponseBody(r), tail);
    }
  }

  /** A body of this length is read back whole or refused. */
  predicate KeepsStep(len: nat) {
    len < TWO_32 || len % TWO_32 > MAX_BODY_LEN
  }

  /** A response is never misread exactly when its length is such. */
  lemma NeverMisreadIffKeepsStep(r: Response, tail: seq<u8>)
    ensures var got := ReadResponse(EncodeResponse(r) + tail);
            (got.Got? ==> got == Got(r, tail)) <==> KeepsStep(|ResponseBody(r)|)
  {
    ResponseRoundTrip(r, tail);
    if KeepsStep(|ResponseBody(r)|) {
      var tag := if r.Ok? then 0 else 1;
      assert (EncodeResponse(r) + tail)[0] == tag;
      FrameRoundTrip(tag, ResponseBody(r), tail);
    } else {
      OversizedResponseDesynchronises(r, tail);
    }
  }

  /** A longer success, which a D2H copy of 4 GiB or more produces, is read as its first
      bytes, and the others are left on the stream in front of the next response. */
  lemma OversizedResponseDesynchronises(r: Response, tail: seq<u8>)
    requires !KeepsStep(|ResponseBody(r)|)
    ensures var got, n := ReadResponse(EncodeResponse(r) + tail), |ResponseBody(r)| % TWO_32;
            got.Got? && got.rest == ResponseBody(r)[n..] + tail && |got.rest| >= |tail| + TWO_32
            && (r.Ok? ==> got.value == Ok(r.body[..n]))
  {
    hide LE, FromLE, ReadBody;
    var tag := if r.Ok? then 0 else 1;
    var s := EncodeResponse(r) + tail;
    assert s[0] == tag;
    FrameRoundTrip(tag, ResponseBody(r), tail);
  }

  function EncodeRequests(rs: seq<Request>): seq<u8> {
    if rs == [] then [] else EncodeRequest(rs[0]) + EncodeRequests(rs[1..])
  }

  function EncodeResponses(rs: seq<Response>): seq<u8> {
    if rs == [] then [] else EncodeResponse(rs[0]) + EncodeResponses(rs[1..])
  }

  /** Reading `n` requests in a row. */
  function ReadRequests(n: nat, s: seq<u8>): Read<seq<Request>> {
    if n == 0 then Got([], s)
    else
      match ReadRequest(s)
      case Eof => Eof
      case Invalid => Invalid
      case Got(r, rest) =>
        match ReadRequests(n - 1, rest)
        case Eof => Eof
        case Invalid => Invalid
        case Got(rs, rest') => Got([r] + rs, rest')
  }

  function ReadResponses(n: nat, s: seq<u8>): Read<seq<Response>> {
    if n == 0 then Got([], s)
    else
      match ReadResponse(s)
      case Eof => Eof
      case Invalid => Invalid
      case Got(r, rest) =>
        match ReadResponses(n - 1, rest)
        case Eof => Eof
        case Invalid => Invalid
        case Got(rs, rest') => Got([r] + rs, rest')
  }

  lemma {:induction false} RequestStreamRoundTrip(rs: seq<Request>, tail: seq<u8>)
    requires forall r :: r in rs ==> |Body(r)| <= MAX_BODY_LEN
    ensures ReadRequests(|rs|, EncodeRequests(rs) + tail) == Got(rs, tail)
  {
    hide EncodeRequest, ReadRequest, Body;
    if rs == [] {
      assert EncodeRequests(rs) + tail == tail;
    } else {
      RequestStreamRoundTrip(rs[1..], tail);
      RequestRoundTrip(rs[0], EncodeRequests(rs[1..]) + tail);
      assert EncodeRequests(rs) + tail == EncodeRequest(rs[0]) + (EncodeRequests(rs[1..]) + tail);
      assert [rs[0]] + rs[1..] == rs;
    }
  }

  lemma {:induction false} ResponseStreamRoundTrip(rs: seq<Response>, tail: seq<u8>)
    requires forall r :: r in rs ==> |ResponseBody(r)| <= MAX_BODY_LEN
    ensures ReadResponses(|rs|, EncodeResponses(rs) + tail) == Got(rs, tail)
  {
    hide EncodeResponse, ReadResponse, ResponseBody;
    if rs == [] {
      assert EncodeResponses(rs) + tail == tail;
    } else {
      ResponseStreamRoundTrip(rs[1..], tail);
      ResponseRoundTrip(rs[0], EncodeResponses(rs[1..]) + tail);
      assert EncodeResponses(rs) + tail == EncodeResponse(rs[0]) + (EncodeResponses(rs[1..]) + tail);
      assert [rs[0]] + rs[1..] == rs;
    }
  }

  /** Whatever frame is accepted, its request re-encodes to the very bytes consumed;
      an opcode-1 frame re-encodes to the one with an empty body. */
  lemma RequestCanonical(s: seq<u8>)
    requires ReadRequest(s).Got?
    ensures var got := ReadRequest(s);
            && |Body(got.value)| <= MAX_BODY_LEN
            && (s[0] != 1 ==> EncodeRequest(got.value) + got.rest == s)
            && (s[0] == 1 ==> EncodeRequest(got.value) == [1, 0, 0, 0, 0])
  {
    FrameCanonical(s);
    BodyCanonical(s[0], ReadBody(s[1..]).value);
  }

  /** An accepted response frame re-encodes to the bytes consumed exactly when it is
      not an error whose text had to be repaired. */
  lemma ResponseCanonical(s: seq<u8>)
    requires ReadResponse(s).Got?
    ensures var got := ReadResponse(s);
            EncodeResponse(got.value) + got.rest == s <==>
              (s[0] == 0 || ValidUtf8(ReadBody(s[1..]).value))
  {
    FrameCanonical(s);
    var body := ReadBody(s[1..]).value;
    if s[0] == 1 && !ValidUtf8(body) {
      var got := ReadResponse(s);
      LossyIdentityIffValid(body);
      if |got.value.msg| == |body| {
        assert (EncodeResponse(got.value) + got.rest)[5..5 + |body|] == got.value.msg;
        assert (Frame(1, body) + got.rest)[5..5 + |body|] == body;
      }
    }
  }

  lemma RequestPrefixRejected(r: Request, k: nat)
    requires |Body(r)| <= MAX_BODY_LEN && k < |EncodeRequest(r)|
    ensures ReadRequest(EncodeRequest(r)[..k]) == Eof
  {
    if k > 0 {
      FramePrefix(Opcode(r), Body(r), k);
    }
  }

  /** However much of a frame got through, it is never taken for another request. */
  lemma RequestPrefixOrWhole(r: Request, k: nat)
    requires Framed(r) && k <= |EncodeRequest(r)|
    ensures var got := ReadRequest(EncodeRequest(r)[..k]);
            got.Got? ==> k == |EncodeRequest(r)| && got == Got(r, [])
  {
    hide Body, DecodeBody, ReadBody, Frame;
    var e := EncodeRequest(r);
    if k == |e| {
      assert e[..k] == e + [];
      RequestRoundTrip(r, []);
    } else if k > 0 {
      FramePrefix(Opcode(r), Body(r), k);
      FramedLength(r);
      if KeptLength(Body(r)) < |Body(r)| {
        CutH2DRefused(r, KeptLength(Body(r)));
      }
    }
  }

  lemma ResponsePrefixRejected(r: Response, k: nat)
    requires |ResponseBody(r)| <= MAX_BODY_LEN && k < |EncodeResponse(r)|
    ensures ReadResponse(EncodeResponse(r)[..k]) == Eof
  {
    if k > 0 {
      FramePrefix(if r.Ok? then 0 else 1, ResponseBody(r), k);
    }
  }

  /** No encoding is a proper prefix of another, and distinct requests have distinct
      encodings. */
  lemma RequestsPrefixFree(a: Request, b: Request)
    requires |Body(a)| <= MAX_BODY_LEN && |Body(b)| <= MAX_BODY_LEN
    requires EncodeRequest(a) <= EncodeRequest(b)
    ensures a == b
  {
    hide EncodeRequest, ReadRequest, Body;
    var tail := EncodeRequest(b)[|EncodeRequest(a)|..];
    assert EncodeRequest(b) == EncodeRequest(a) + tail;
    assert EncodeRequest(b) + [] == EncodeRequest(b);
    RequestRoundTrip(a, tail);
    RequestRoundTrip(b, []);
  }

  lemma ResponsesPrefixFree(a: Response, b: Response)
    requires |ResponseBody(a)| <= MAX_BODY_LEN && |ResponseBody(b)| <= MAX_BODY_LEN
    requires EncodeResponse(a) <= EncodeResponse(b)
    ensures a == b
  {
    hide EncodeResponse, ReadResponse, ResponseBody;
    var tail := EncodeResponse(b)[|EncodeResponse(a)|..];
    assert EncodeResponse(b) == EncodeResponse(a) + tail;
    assert EncodeResponse(b) + [] == EncodeResponse(b);
    ResponseRoundTrip(a, tail);
    ResponseRoundTrip(b, []);
  }

  // ----- the bytes on the wire, in numbers

  /** Where everything is in a body. */
  ghost predicate BodyLaidOut(r: Request, b: seq<u8>) {
    match r
    case DeviceCount => b == []
    case SetDevice(device) => |b| == 4 && I32(b) == device
    case Malloc(size) => |b| == 8 && U64(b) == size
    case Free(handle) => |b| == 8 && U64(b) == handle
    case MemcpyH2D(handle, offset, data) =>
      && |b| == 24 + |data|
      && U64(b[0..8]) == handle && U64(b[8..16]) == offset && U64(b[16..24]) == |data| && b[24..] == data
    case MemcpyD2H(handle, offset, len) =>
      && |b| == 24
      && U64(b[0..8]) == handle && U64(b[8..16]) == offset && U64(b[16..24]) == len
    case GetDeviceProperties(device) => |b| == 4 && I32(b) == device
    case LoadModule(data) => b == data
    case GetFunction(m, name) => |b| == 8 + |name| && U64(b[0..8]) == m && b[8..] == name
    case LaunchKernel(fn, grid, block, sharedMem, fixups, args) =>
      && |b| == 40 + 20 * |fixups| + |args| && U64(b[0..8]) == fn
      && DimLaidOut(grid, b, 8) && DimLaidOut(block, b, 20)
      && U32(b[32..36]) == sharedMem && U32(b[36..40]) == |fixups|
      && (forall k :: 0 <= k < |fixups| ==> FixupLaidOut(fixups[k], b, 40 + 20 * k))
      && b[40 + 20 * |fixups|..] == args
  }

  ghost predicate DimLaidOut(d: Dim, b: seq<u8>, i: nat) {
    i + 12 <= |b| && U32(b[i..i + 4]) == d.x && U32(b[i + 4..i + 8]) == d.y && U32(b[i + 8..i + 12]) == d.z
  }

  ghost predicate FixupLaidOut(f: Fixup, b: seq<u8>, i: nat) {
    i + 20 <= |b| && U32(b[i..i + 4]) == f.offset && U64(b[i + 4..i + 12]) == f.handle && U64(b[i + 12..i + 20]) == f.intra
  }

  /** The tag of a request. */
  ghost predicate Tagged(r: Request, tag: u8) {
    match r
    case DeviceCount => tag == 1
    case SetDevice(_) => tag == 2
    case Malloc(_) => tag == 3
    case Free(_) => tag == 4
    case MemcpyH2D(_, _, _) => tag == 5
    case MemcpyD2H(_, _, _) => tag == 6
    case GetDeviceProperties(_) => tag == 7
    case LoadModule(_) => tag == 8
    case GetFunction(_, _) => tag == 9
    case LaunchKernel(_, _, _, _, _, _) => tag == 10
  }

  /** A request's frame: tag, length, body; and the body's fields, in little-endian. */
  lemma RequestLayout(r: Request)
    requires |Body(r)| < TWO_32
    ensures var e := EncodeRequest(r);
            && |e| >= 5 && Tagged(r, e[0]) && U32(e[1..5]) == |e| - 5 && BodyLaidOut(r, e[5..])
  {
    hide LE, FromLE, Body, BodyLaidOut;
    var e := EncodeRequest(r);
    assert e[1..5] == LE(|Body(r)|, 4) && e[5..] == Body(r);
    U32OfLE(|Body(r)|);
    BodyIsLaidOut(r);
  }

  lemma ResponseLayout(r: Response)
    requires |ResponseBody(r)| < TWO_32
    ensures var e := EncodeResponse(r);
            && |e| >= 5 && U32(e[1..5]) == |e| - 5
            && (if r.Ok? then e[0] == 0 && e[5..] == r.body else e[0] == 1 && e[5..] == r.msg)
  {
    hide LE, FromLE;
    var e := EncodeResponse(r);
    assert e[1..5] == LE(|ResponseBody(r)|, 4) && e[5..] == ResponseBody(r);
    U32OfLE(|ResponseBody(r)|);
  }

  lemma BodyIsLaidOut(r: Request)
    requires |Body(r)| < TWO_32
    ensures BodyLaidOut(r, Body(r))
  {
    hide LE, FromLE, LEi32, I32, LaunchHeader, DecodeFixups, FixupTable, ValidUtf8;
    match r
    case DeviceCount =>
    case SetDevice(device) => I32OfLE(device);
    case GetDeviceProperties(device) => I32OfLE(device);
    case Malloc(size) => U64OfLE(size);
    case Free(handle) => U64OfLE(handle);
    case LoadModule(data) =>
    case GetFunction(m, name) =>
      assert Body(r)[0..8] == LE(m, 8) && Body(r)[8..] == name;
      U64OfLE(m);
    case MemcpyH2D(_, _, _) => H2DBodyRoundTrip(r);
    case MemcpyD2H(_, _, _) => D2HBodyRoundTrip(r);
    case LaunchKernel(_, _, _, _, _, _) => LaunchIsLaidOut(r);
  }

  lemma {:induction false} DecodedFixup(table: seq<u8>, k: nat)
    requires |table| % 20 == 0 && 20 * k < |table|
    ensures 20 * k + 20 <= |table| && k < |DecodeFixups(table)| && DecodeFixups(table)[k] == FixupAt(table, 20 * k)
  {
    hide FixupAt;
    LastFixup(table);
    if 20 * k < |table| - 20 {
      DecodedFixup(table[..|table| - 20], k);
      FixupAtPrefix(table, |table| - 20, 20 * k);
    }
  }

  lemma FixupAtPrefix(s: seq<u8>, n: nat, i: nat)
    requires i + 20 <= n <= |s|
    ensures FixupAt(s[..n], i) == FixupAt(s, i)
  {
    SubSlice(s, 0, n, i, i + 4);
    SubSlice(s, 0, n, i + 4, i + 12);
    SubSlice(s, 0, n, i + 12, i + 20);
  }

  lemma LaunchIsLaidOut(r: Request)
    requires r.LaunchKernel? && |r.fixups| < TWO_32
    ensures BodyLaidOut(r, Body(r))
  {
    hide LE, FromLE, LaunchHeader, DecodeFixups, FixupTable;
    LaunchBodyRoundTrip(r);
    var b, n := Body(r), |r.fixups|;
    forall k | 0 <= k < n
      ensures FixupLaidOut(r.fixups[k], b, 40 + 20 * k)
    {
      DecodedFixup(b[40..40 + 20 * n], k);
      FixupAtSlice(b, 40, 40 + 20 * n, 20 * k);
    }
  }

  lemma FixupAtSlice(s: seq<u8>, i: nat, j: nat, k: nat)
    requires i + k + 20 <= j <= |s|
    ensures FixupAt(s[i..j], k) == FixupAt(s, i + k)
  {
    SubSlice(s, i, j, k, k + 4);
    SubSlice(s, i, j, k + 4, k + 12);
    SubSlice(s, i, j, k + 12, k + 20);
  }

  /** A device-count request is one whatever its body. */
  lemma DeviceCountTakesAnyBody(body: seq<u8>, tail: seq<u8>)
    requires |body| <= MAX_BODY_LEN
    ensures ReadRequest([1] + LE(|body|, 4) + body + tail) == Got(DeviceCount, tail)
  {
    hide LE, ReadBody;
    FrameRoundTrip(1, body, tail);
    assert [1] + LE(|body|, 4) + body + tail == Frame(1, body) + tail;
  }
}
