/** Length-prefixed message framing of the browser JSON API, as fixed by the
    helpers and assertions of its test suite: a frame is a 4-byte little-endian
    unsigned length followed by exactly that many payload bytes. */
module Framing {
  import opened Wrappers

  type Byte = b: int | 0 <= b < 256

  /** Number of values of a Go `uint32`. */
  const Uint32Range: nat := 0x1_0000_0000

  /** Length of the length prefix. */
  const PrefixSize: nat := 4

  /** `binary.LittleEndian` encoding of a `uint32`: least significant byte first. */
  function EncodeUint32LE(n: nat): (b: seq<Byte>)
    requires n < Uint32Range
    ensures |b| == PrefixSize
  {
    [n % 0x100, n / 0x100 % 0x100, n / 0x1_0000 % 0x100, n / 0x100_0000]
  }

  /** The `uint32` that four little-endian bytes stand for. */
  function DecodeUint32LE(b: seq<Byte>): (n: nat)
    requires |b| == PrefixSize
    ensures n < Uint32Range
  {
    b[0] as int + 0x100 * (b[1] as int) + 0x1_0000 * (b[2] as int) + 0x100_0000 * (b[3] as int)
  }

  lemma DecodeEncodeUint32(n: nat)
    requires n < Uint32Range
    ensures DecodeUint32LE(EncodeUint32LE(n)) == n
  {
    var q1 := n / 0x100;
    var q2 := q1 / 0x100;
    assert n / 0x1_0000 == q2;
    assert n / 0x100_0000 == q2 / 0x100;
    assert n == n % 0x100 + 0x100 * q1;
    assert q1 == q1 % 0x100 + 0x100 * q2;
    assert q2 == q2 % 0x100 + 0x100 * (q2 / 0x100);
  }

  lemma EncodeDecodeUint32(b: seq<Byte>)
    requires |b| == PrefixSize
    ensures EncodeUint32LE(DecodeUint32LE(b)) == b
  {
    var n := DecodeUint32LE(b);
    var q1 := b[1] as int + 0x100 * (b[2] as int) + 0x1_0000 * (b[3] as int);
    var q2 := b[2] as int + 0x100 * (b[3] as int);
    assert n == b[0] as int + 0x100 * q1;
    assert n % 0x100 == b[0] && n / 0x100 == q1;
    assert q1 == b[1] + 0x100 * q2;
    assert q1 % 0x100 == b[1] && q1 / 0x100 == q2;
    assert q2 % 0x100 == b[2] && q2 / 0x100 == b[3];
    assert n / 0x1_0000 == q2;
    assert n / 0x100_0000 == b[3];
  }

  /** `writeMessageWithLength`: the length of the message, cast to `uint32`
      (so reduced modulo 2^32), then the message itself. */
  function Frame(message: seq<Byte>): (f: seq<Byte>)
    ensures |f| == PrefixSize + |message|
    ensures f[PrefixSize..] == message
    ensures DecodeUint32LE(f[..PrefixSize]) == |message| % Uint32Range
  {
    DecodeEncodeUint32(|message| % Uint32Range);
    EncodeUint32LE(|message| % Uint32Range) + message
  }

  /** The two ways a frame can fail to decode. */
  datatype FrameError = NotEnoughBytes | IncompleteMessage

  /** The text of each failure; the two texts tell the failures apart. */
  function FrameErrorMessage(e: FrameError): (m: string)
    ensures e == NotEnoughBytes <==> m == "not enough bytes read to determine message size"
    ensures e == IncompleteMessage <==> m == "incomplete message read"
  {
    match e
    case NotEnoughBytes => "not enough bytes read to determine message size"
    case IncompleteMessage => "incomplete message read"
  }

  /** Decoding one frame from the front of `raw`: fewer than four bytes cannot
      hold a length; a length larger than what follows is incomplete; otherwise
      exactly the announced number of bytes is the payload. */
  function DecodeFrame(raw: seq<Byte>): (r: Result<seq<Byte>, FrameError>)
    ensures r == Failure(NotEnoughBytes) <==> |raw| < PrefixSize
    ensures r == Failure(IncompleteMessage) <==>
      |raw| >= PrefixSize && DecodeUint32LE(raw[..PrefixSize]) > |raw| - PrefixSize
    ensures r.Success? ==> |r.value| == DecodeUint32LE(raw[..PrefixSize])
    ensures r.Success? ==> PrefixSize + |r.value| <= |raw| && raw[PrefixSize..PrefixSize + |r.value|] == r.value
  {
    if |raw| < PrefixSize then Failure(NotEnoughBytes)
    else
      var n := DecodeUint32LE(raw[..PrefixSize]);
      if |raw| - PrefixSize < n then Failure(IncompleteMessage)
      else Success(raw[PrefixSize..PrefixSize + n])
  }

  /** Round trip: a frame of any message shorter than 2^32 bytes decodes to that
      message, whatever follows it on the stream. */
  lemma FrameRoundTrip(message: seq<Byte>, rest: seq<Byte>)
    requires |message| < Uint32Range
    ensures DecodeFrame(Frame(message) + rest) == Success(message)
  {
    var raw := Frame(message) + rest;
    assert raw[..PrefixSize] == Frame(message)[..PrefixSize];
    assert raw[PrefixSize..PrefixSize + |message|] == message;
  }

  /** Converse of the round trip: whatever decodes to a payload starts with the
      frame of that payload. */
  lemma DecodedIsFramed(raw: seq<Byte>)
    requires DecodeFrame(raw).Success?
    ensures var m := DecodeFrame(raw).value;
      |m| < Uint32Range && raw == Frame(m) + raw[PrefixSize + |m|..]
  {
    var m := DecodeFrame(raw).value;
    var n := DecodeUint32LE(raw[..PrefixSize]);
    assert m == raw[PrefixSize..PrefixSize + n];
    EncodeDecodeUint32(raw[..PrefixSize]);
    var f := Frame(m);
    assert |m| % Uint32Range == |m| == n;
    assert f[..PrefixSize] == EncodeUint32LE(n);
    assert raw[..PrefixSize] == f[..PrefixSize];
    assert raw[PrefixSize..PrefixSize + |m|] == f[PrefixSize..];
    assert raw == raw[..PrefixSize] + raw[PrefixSize..PrefixSize + |m|] + raw[PrefixSize + |m|..];
    assert f == f[..PrefixSize] + f[PrefixSize..];
  }

  /** A frame cut short anywhere fails, and never yields part of the payload:
      inside the prefix with NotEnoughBytes, inside the payload with
      IncompleteMessage. */
  lemma TruncatedFrameFails(message: seq<Byte>, k: nat)
    requires |message| < Uint32Range
    requires k < PrefixSize + |message|
    ensures DecodeFrame(Frame(message)[..k]) ==
      if k < PrefixSize then Failure(NotEnoughBytes) else Failure(IncompleteMessage)
  {
    var f := Frame(message);
    if k >= PrefixSize {
      assert f[..k][..PrefixSize] == f[..PrefixSize];
    }
  }

  /** "1234Xabcd": the prefix "1234" announces 0x34333231 bytes, far more than
      the five that follow, so the input is incomplete. */
  lemma GarbageInputIsIncomplete()
    ensures var raw: seq<Byte> := [0x31, 0x32, 0x33, 0x34, 0x58, 0x61, 0x62, 0x63, 0x64];
      DecodeUint32LE(raw[..PrefixSize]) == 0x34333231 && DecodeFrame(raw) == Failure(IncompleteMessage)
  {
  }

  /** The frame of the empty message decodes to the empty payload: framing
      succeeds and any failure is left to the JSON stage. */
  lemma EmptyMessageDecodes()
    ensures Frame([]) == [0, 0, 0, 0] && DecodeFrame(Frame([])) == Success([])
  {
    FrameRoundTrip([], []);
    assert Frame([]) + [] == Frame([]);
  }

  /** A `bytes.Buffer` used as the writer: it only ever grows at its end. */
  class Buffer {
    var data: seq<Byte>

    constructor ()
      ensures data == []
    {
      data := [];
    }

    method Write(p: seq<Byte>)
      modifies this
      ensures data == old(data) + p
    {
      data := data + p;
    }

    /** `binary.Write(buffer, binary.LittleEndian, uint32(n))`. */
    method WriteUint32LE(n: nat)
      requires n < Uint32Range
      modifies this
      ensures data == old(data) + EncodeUint32LE(n)
    {
      var b := new Byte[PrefixSize];
      b[0], b[1], b[2], b[3] := n % 0x100, n / 0x100 % 0x100, n / 0x1_0000 % 0x100, n / 0x100_0000;
      data := data + b[..];
    }
  }

  /** `writeMessageWithLength`: writes the truncated length and the message into
      a fresh buffer and returns its contents. */
  method WriteMessageWithLength(message: seq<Byte>) returns (frame: seq<Byte>)
    ensures frame == Frame(message)
  {
    var buffer := new Buffer();
    buffer.WriteUint32LE(|message| % Uint32Range);
    buffer.Write(message);
    frame := buffer.data;
  }

  function Min(a: nat, b: nat): nat {
    if a < b then a else b
  }

  /** A `bytes.Reader`: an immutable byte slice and a read cursor. */
  class Reader {
    const data: seq<Byte>
    var pos: nat

    ghost predicate Valid()
      reads this
    {
      pos <= |data|
    }

    /** The bytes not yet read. */
    ghost function Remaining(): seq<Byte>
      reads this
      requires Valid()
    {
      data[pos..]
    }

    constructor (data: seq<Byte>)
      ensures Valid() && this.data == data && pos == 0
    {
      this.data := data;
      pos := 0;
    }

    /** `Read(dst)`: at the end of the data reports EOF and copies nothing (even
        into an empty `dst`); otherwise copies as many bytes as fit and
        advances the cursor past them. */
    method Read(dst: array<Byte>) returns (n: nat, eof: bool)
      requires Valid()
      modifies this, dst
      ensures Valid()
      ensures eof <==> old(pos) == |data|
      ensures n == if eof then 0 else Min(dst.Length, |data| - old(pos))
      ensures pos == old(pos) + n
      ensures dst[..n] == data[old(pos)..pos]
      ensures dst[n..] == old(dst[n..])
    {
      if pos == |data| {
        return 0, true;
      }
      n := Min(dst.Length, |data| - pos);
      forall k | 0 <= k < n {
        dst[k] := data[pos + k];
      }
      pos := pos + n;
      eof := false;
    }

    /** Reads one frame: four bytes of length into a fresh buffer, then a fresh
        buffer of that many bytes. A short read of either part is a failure,
        and a failed read leaves nothing unread behind it. */
    method ReadMessage() returns (r: Result<seq<Byte>, FrameError>)
      requires Valid()
      modifies this
      ensures Valid()
      ensures r == DecodeFrame(old(Remaining()))
      ensures r.Success? ==> pos == old(pos) + PrefixSize + |r.value|
      ensures r.Failure? ==> pos == |data|
    {
      ghost var raw := Remaining();
      ghost var start := pos;
      var lenBytes := new Byte[PrefixSize];
      var count, _ := Read(lenBytes);
      if count != PrefixSize {
        return Failure(NotEnoughBytes);
      }
      assert lenBytes[..] == lenBytes[..count] == data[start..start + PrefixSize];
      assert data[start..start + PrefixSize] == raw[..PrefixSize];
      var length := DecodeUint32LE(lenBytes[..]);
      var msgBytes := new Byte[length];
      var eof;
      count, eof := Read(msgBytes);
      if count != length {
        return Failure(IncompleteMessage);
      }
      assert msgBytes[..] == msgBytes[..count];
      assert data[start + PrefixSize..start + PrefixSize + length] == raw[PrefixSize..PrefixSize + length];
      r := Success(msgBytes[..]);
    }
  }

  /** `readAndVerifyMessageLength`: `verified` is whether every assertion of
      the helper passes (the first read finds data, the announced length is the
      frame length minus four, the second read finds data); `message` is the
      payload it returns. */
  method ReadAndVerifyMessageLength(rawMessage: seq<Byte>) returns (verified: bool, message: seq<Byte>)
    ensures verified <==>
      |rawMessage| > PrefixSize && DecodeUint32LE(rawMessage[..PrefixSize]) == |rawMessage| - PrefixSize
    ensures verified ==> message == rawMessage[PrefixSize..]
  {
    var input := new Reader(rawMessage);
    var lenBytes := new Byte[PrefixSize];
    var _, eof := input.Read(lenBytes);
    verified := !eof;
    var length := DecodeUint32LE(lenBytes[..]);
    verified := verified && |rawMessage| - PrefixSize == length;
    var msgBytes := new Byte[length];
    var _, eof2 := input.Read(msgBytes);
    verified := verified && !eof2;
    message := msgBytes[..];
    if |rawMessage| >= PrefixSize {
      assert lenBytes[..] == rawMessage[..PrefixSize];
    }
  }

  /** The length field of every response frame is the frame's length minus
      four, so the frame of a non-empty message shorter than 2^32 bytes passes
      the test helper's checks and gives back the message. */
  lemma ResponseFrameVerifies(message: seq<Byte>)
    requires 0 < |message| < Uint32Range
    ensures var f := Frame(message);
      |f| > PrefixSize && DecodeUint32LE(f[..PrefixSize]) == |f| - PrefixSize && f[PrefixSize..] == message
  {
  }

  /** Why one request/response round failed. */
  datatype ResponseError = FrameFailure(frame: FrameError) | HandlerFailure(message: string)

  /** What one round writes: the request is decoded from the input, handed to
      the dispatcher, and the dispatcher's answer is framed. */
  function Respond(input: seq<Byte>, handle: seq<Byte> -> Result<seq<Byte>, string>): (r: Result<seq<Byte>, ResponseError>)
    ensures r.Success? <==> DecodeFrame(input).Success? && handle(DecodeFrame(input).value).Success?
    ensures DecodeFrame(input).Failure? ==> r == Failure(FrameFailure(DecodeFrame(input).error))
    ensures DecodeFrame(input).Success? && handle(DecodeFrame(input).value).Failure? ==>
      r == Failure(HandlerFailure(handle(DecodeFrame(input).value).error))
    ensures r.Success? ==> |r.value| >= PrefixSize
    ensures r.Success? ==> r.value == Frame(handle(DecodeFrame(input).value).value)
  {
    match DecodeFrame(input)
    case Failure(e) => Failure(FrameFailure(e))
    case Success(request) =>
      match handle(request)
      case Failure(msg) => Failure(HandlerFailure(msg))
      case Success(response) => Success(Frame(response))
  }

  /** The written answer carries exactly the dispatcher's response. */
  lemma RespondRoundTrip(input: seq<Byte>, handle: seq<Byte> -> Result<seq<Byte>, string>)
    requires Respond(input, handle).Success?
    requires |handle(DecodeFrame(input).value).value| < Uint32Range
    ensures DecodeFrame(Respond(input, handle).value) == Success(handle(DecodeFrame(input).value).value)
  {
    var response := handle(DecodeFrame(input).value).value;
    FrameRoundTrip(response, []);
    assert Frame(response) + [] == Frame(response);
  }

  /** What a successful round writes passes the test helper's length check:
      the prefix announces the output length minus four, and the rest is the
      dispatcher's response. */
  lemma RespondVerifies(input: seq<Byte>, handle: seq<Byte> -> Result<seq<Byte>, string>)
    requires Respond(input, handle).Success?
    requires 0 < |handle(DecodeFrame(input).value).value| < Uint32Range
    ensures var out := Respond(input, handle).value;
      |out| > PrefixSize && DecodeUint32LE(out[..PrefixSize]) == |out| - PrefixSize &&
      out[PrefixSize..] == handle(DecodeFrame(input).value).value
  {
    ResponseFrameVerifies(handle(DecodeFrame(input).value).value);
  }

  /** The API object of the tests: an input stream and an output buffer. The
      dispatcher (store, version, message handlers) is the `handle` parameter.
      The tests feed the input from a `bytes.Buffer`, which, unlike the
      `Reader` used here, reports no EOF for a read into an empty slice at
      the end of its data; `ReadMessage` looks only at the number of bytes
      read, never at the EOF flag, so both give the same rounds. */
  class Api {
    const input: Reader
    const output: Buffer

    constructor (input: Reader, output: Buffer)
      ensures this.input == input && this.output == output
    {
      this.input := input;
      this.output := output;
    }

    /** `ReadAndRespond`: on any failure, of framing or of the dispatcher, the
        output is left exactly as it was; on success, one complete frame is
        appended to it. */
    method ReadAndRespond(handle: seq<Byte> -> Result<seq<Byte>, string>) returns (err: Option<ResponseError>)
      requires input.Valid()
      modifies input, output
      ensures input.Valid()
      ensures var d := DecodeFrame(old(input.Remaining()));
        (d.Success? ==> input.pos == old(input.pos) + PrefixSize + |d.value|) &&
        (d.Failure? ==> input.pos == |input.data|)
      ensures var r := Respond(old(input.Remaining()), handle);
        (r.Failure? ==> err == Some(r.error) && output.data == old(output.data)) &&
        (r.Success? ==> err == None && output.data == old(output.data) + r.value)
    {
      var request := input.ReadMessage();
      if request.Failure? {
        return Some(FrameFailure(request.error));
      }
      var response := handle(request.value);
      if response.Failure? {
        return Some(HandlerFailure(response.error));
      }
      var frame := WriteMessageWithLength(response.value);
      output.Write(frame);
      err := None;
    }
  }

  /** One request of the test table: its input, the expected output pattern and
      the expected error text. */
  datatype VerifiedRequest = VerifiedRequest(input: seq<Byte>, outputPattern: string, errorText: string)

  /** The loop of `runRespondMessages`: each request's input is replaced, in
      place, by its frame; nothing else changes. */
  method FrameRequests(requests: array<VerifiedRequest>)
    modifies requests
    ensures forall i :: 0 <= i < requests.Length ==>
      requests[i] == old(requests[i]).(input := Frame(old(requests[i]).input))
  {
    for i := 0 to requests.Length
      invariant forall k :: 0 <= k < i ==> requests[k] == old(requests[k]).(input := Frame(old(requests[k]).input))
      invariant forall k :: i <= k < requests.Length ==> requests[k] == old(requests[k])
    {
      var framed := WriteMessageWithLength(requests[i].input);
      requests[i] := requests[i].(input := framed);
    }
  }
}
