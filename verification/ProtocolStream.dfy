/** The protocol's readers and writers as they run: appending to a buffer, consuming
    a stream, advancing a cursor. Each is tied to the codec functions of `Protocol`. */
module ProtocolStream {
  import opened Basics
  import opened Bytes
  import opened Slices
  import opened Utf8
  import opened Protocol

  /** One direction of a connection: the bytes written and not yet read. */
  class Stream {
    var bytes: seq<u8>

    constructor ()
      ensures bytes == []
    {
      bytes := [];
    }

    method WriteAll(data: seq<u8>)
      modifies this
      ensures bytes == old(bytes) + data
    {
      bytes := bytes + data;
    }

    method ReadExact(n: nat) returns (r: Option<seq<u8>>)
      modifies this
      ensures |old(bytes)| >= n ==> r == Some(old(bytes)[..n]) && bytes == old(bytes)[n..]
      ensures |old(bytes)| < n ==> r == None
    {
      if |bytes| < n {
        bytes := [];
        return None;
      }
      r := Some(bytes[..n]);
      bytes := bytes[n..];
    }
  }

  /** `Request::encode_body` */
  method EncodeBody(r: Request) returns (buf: seq<u8>)
    ensures buf == Body(r)
  {
    hide LE;
    buf := [];
    match r
    case DeviceCount =>
    case SetDevice(device) => buf := LEi32(device);
    case Malloc(size) => buf := LE(size, 8);
    case Free(handle) => buf := LE(handle, 8);
    case MemcpyH2D(handle, offset, data) =>
      buf := LE(handle, 8);
      buf := buf + LE(offset, 8);
      buf := buf + LE(|data|, 8);
      buf := buf + data;
    case MemcpyD2H(handle, offset, len) =>
      buf := LE(handle, 8);
      buf := buf + LE(offset, 8);
      buf := buf + LE(len, 8);
    case GetDeviceProperties(device) => buf := LEi32(device);
    case LoadModule(data) => buf := data;
    case GetFunction(m, name) => buf := LE(m, 8) + name;
    case LaunchKernel(fn, grid, block, shared, fixups, args) =>
      ghost var header := LaunchHeader(fn, grid, block, shared, |fixups|);
      buf := LE(fn, 8);
      buf := buf + (LE(grid.x, 4) + LE(grid.y, 4) + LE(grid.z, 4));
      buf := buf + (LE(block.x, 4) + LE(block.y, 4) + LE(block.z, 4));
      buf := buf + LE(shared, 4);
      buf := buf + LE(|fixups|, 4);
      var i := 0;
      while i < |fixups|
        invariant 0 <= i <= |fixups|
        invariant buf == header + FixupTable(fixups[..i])
      {
        var f := fixups[i];
        assert fixups[..i + 1][..i] == fixups[..i];
        buf := buf + (LE(f.offset, 4) + LE(f.handle, 8) + LE(f.intra, 8));
        i := i + 1;
      }
      assert fixups[..i] == fixups;
      buf := buf + args;
  }

  /** `Request::write_to` */
  method WriteRequest(r: Request, w: Stream)
    modifies w
    ensures w.bytes == old(w.bytes) + EncodeRequest(r)
  {
    hide LE;
    var body := EncodeBody(r);
    w.WriteAll([Opcode(r)]);
    w.WriteAll(LE(|body|, 4));
    w.WriteAll(body);
  }

  /** `Response::write_to` */
  method WriteResponse(r: Response, w: Stream)
    modifies w
    ensures w.bytes == old(w.bytes) + EncodeResponse(r)
  {
    hide LE;
    match r
    case Ok(body) =>
      w.WriteAll([0]);
      w.WriteAll(LE(|body|, 4));
      w.WriteAll(body);
    case Err(msg) =>
      w.WriteAll([1]);
      w.WriteAll(LE(|msg|, 4));
      w.WriteAll(msg);
  }

  /** `read_framed_body`: nothing is allocated for a length above the cap. */
  method ReadFramedBody(w: Stream) returns (out: Read<seq<u8>>)
    modifies w
    ensures out == ReadBody(old(w.bytes))
    ensures out.Got? ==> w.bytes == out.rest
  {
    hide LE, FromLE;
    var lenBuf := w.ReadExact(4);
    if lenBuf.None? {
      return Eof;
    }
    var len := U32(lenBuf.value);
    if len > MAX_BODY_LEN {
      return Invalid;
    }
    var body := w.ReadExact(len);
    if body.None? {
      return Eof;
    }
    ghost var s := old(w.bytes);
    assert s[4..][..len] == s[4..4 + len] && s[4..][len..] == s[4 + len..];
    out := Got(body.value, w.bytes);
  }

  lemma DecodeFixupsStep(s: seq<u8>, i: nat, j: nat)
    requires i <= j && j + 20 <= |s| && (j - i) % 20 == 0
    ensures DecodeFixups(s[i..j + 20]) == DecodeFixups(s[i..j]) + [FixupAt(s, j)]
  {
    hide LE, FromLE;
    var t := s[i..j + 20];
    var k := j - i;
    assert t[..k] == s[i..j];
    SubSlice(s, i, j + 20, k, k + 4);
    SubSlice(s, i, j + 20, k + 4, k + 12);
    SubSlice(s, i, j + 20, k + 12, k + 20);
  }

  /** The fixup loop of `Request::read_from`. */
  method DecodeFixupTable(body: seq<u8>, count: nat) returns (fixups: seq<Fixup>)
    requires 40 + 20 * count <= |body|
    ensures fixups == DecodeFixups(body[40..40 + 20 * count])
  {
    hide LE, FromLE;
    fixups := [];
    var cursor := 40;
    for i := 0 to count
      invariant cursor == 40 + 20 * i
      invariant fixups == DecodeFixups(body[40..cursor])
    {
      var off := U32(body[cursor..cursor + 4]);
      var handle := U64(body[cursor + 4..cursor + 12]);
      var intra := U64(body[cursor + 12..cursor + 20]);
      DecodeFixupsStep(body, 40, cursor);
      fixups := fixups + [Fixup(off, handle, intra)];
      cursor := cursor + 20;
    }
  }

  /** `Request::read_from` */
  method ReadRequestFrom(w: Stream) returns (out: Read<Request>)
    modifies w
    ensures out == ReadRequest(old(w.bytes))
    ensures out.Got? ==> w.bytes == out.rest
  {
    hide LE, FromLE, FixupAt, DecodeFixups;
    var opcode := w.ReadExact(1);
    if opcode.None? {
      return Eof;
    }
    var op := opcode.value[0];
    var framed := ReadFramedBody(w);
    match framed {
      case Eof => return Eof;
      case Invalid => return Invalid;
      case Got(body, rest) =>
        if op != 10 {
          var r := DecodeBody(op, body);
          return if r.Some? then Got(r.value, rest) else Invalid;
        }
        if |body| < 40 {
          return Invalid;
        }
        var count: nat := U32(body[36..40]);
        var end: nat := 40 + 20 * count;
        if |body| < end {
          return Invalid;
        }
        var fixups := DecodeFixupTable(body, count);
        out := Got(LaunchKernel(U64(body[0..8]), DimAt(body, 8), DimAt(body, 20),
                                U32(body[32..36]), fixups, body[end..]), rest);
    }
  }

  /** `Response::read_from` */
  method ReadResponseFrom(w: Stream) returns (out: Read<Response>)
    modifies w
    ensures out == ReadResponse(old(w.bytes))
    ensures out.Got? ==> w.bytes == out.rest
  {
    hide LE, FromLE, Lossy;
    var status := w.ReadExact(1);
    if status.None? {
      return Eof;
    }
    var framed := ReadFramedBody(w);
    match framed {
      case Eof => return Eof;
      case Invalid => return Invalid;
      case Got(body, rest) =>
        if status.value[0] == 0 {
          return Got(Ok(body), rest);
        } else if status.value[0] == 1 {
          return Got(Err(LossyString(body)), rest);
        }
        return Invalid;
    }
  }
}
