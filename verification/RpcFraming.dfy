/**
 Length-prefixed RPC frames over a byte stream, and the retry loop around a request.
 Connecting, JSON and timeouts are inputs.
 */
module RpcFraming {
  import opened Options

  type Byte = b: int | 0 <= b < 256

  const U32_MODULUS: nat := 0x1_0000_0000
  const MAX_RESPONSE: nat := 10 * 1024 * 1024

  datatype Error =
    | UnexpectedEof
    | ResponseTooLarge(size: nat)
    | Malformed
    | RpcError
    | EmptyResponse
    | AllAttemptsFailed
    | Transport(code: int)

  datatype Result<T> = Ok(value: T) | Err(error: Error)

  // --- Big-endian integers ---

  // The last n bytes of v, the most significant first.
  function ToBytes(v: nat, n: nat): (r: seq<Byte>)
    ensures |r| == n
  {
    if n == 0 then [] else ToBytes(v / 256, n - 1) + [v % 256]
  }

  function FromBytes(b: seq<Byte>): nat {
    if b == [] then 0 else FromBytes(b[..|b| - 1]) * 256 + b[|b| - 1]
  }

  // How many values n bytes have.
  function Values(n: nat): nat {
    if n == 0 then 1 else Values(n - 1) * 256
  }

  lemma FourBytes()
    ensures Values(4) == U32_MODULUS
  {
    assert Values(2) == 0x1_0000;
  }

  lemma {:induction false} LengthRoundTrip(v: nat, n: nat)
    requires v < Values(n)
    ensures FromBytes(ToBytes(v, n)) == v
  {
    if n > 0 {
      LengthRoundTrip(v / 256, n - 1);
      assert ToBytes(v, n)[..n - 1] == ToBytes(v / 256, n - 1);
    }
  }

  lemma {:induction false} BytesRoundTrip(b: seq<Byte>)
    ensures FromBytes(b) < Values(|b|)
    ensures ToBytes(FromBytes(b), |b|) == b
  {
    if b != [] {
      var init, last: nat := b[..|b| - 1], b[|b| - 1];
      BytesRoundTrip(init);
      assert FromBytes(b) / 256 == FromBytes(init) && FromBytes(b) % 256 == last;
    }
  }

  // The most significant byte comes first.
  lemma {:induction false} FirstIsHighest(first: Byte, rest: seq<Byte>)
    ensures FromBytes([first] + rest) == first * Values(|rest|) + FromBytes(rest)
  {
    var b := [first] + rest;
    if rest == [] {
      assert b[..0] == [];
    } else {
      FirstIsHighest(first, rest[..|rest| - 1]);
      assert b[..|b| - 1] == [first] + rest[..|rest| - 1];
    }
  }

  function Weighted(a: int, b: int, c: int, d: int): int {
    a * 0x100_0000 + b * 0x1_0000 + c * 0x100 + d
  }

  /** A length in four bytes: the first counts 2^24, the next 2^16 and 2^8, the last one. */
  lemma BigEndian(b: seq<Byte>)
    requires |b| == 4
    ensures FromBytes(b) == Weighted(b[0], b[1], b[2], b[3])
  {
    FirstIsHighest(b[0], b[1..]);
    FirstIsHighest(b[1], b[2..]);
    FirstIsHighest(b[2], b[3..]);
    assert b == [b[0]] + b[1..] && b[1..] == [b[1]] + b[2..] && b[2..] == [b[2]] + b[3..];
    assert FromBytes(b[3..]) == b[3] by {
      assert b[3..][..0] == [];
    }
    assert Values(1) == 0x100 && Values(2) == 0x1_0000 && Values(3) == 0x100_0000;
  }

  // --- Frames as byte sequences ---

  // The length is cut to 32 bits, the data is not.
  function Frame(data: seq<Byte>): seq<Byte> {
    ToBytes(|data| % U32_MODULUS, 4) + data
  }

  function Frames(messages: seq<seq<Byte>>): seq<Byte> {
    if messages == [] then [] else Frame(messages[0]) + Frames(messages[1..])
  }

  // What reading one frame yields, and the bytes it leaves.
  function ReadFrame(s: seq<Byte>): (Result<seq<Byte>>, seq<Byte>) {
    if |s| < 4 then (Err(UnexpectedEof), [])
    else
      var size := FromBytes(s[..4]);
      if size > MAX_RESPONSE then (Err(ResponseTooLarge(size)), s[4..])
      else if |s| - 4 < size then (Err(UnexpectedEof), [])
      else (Ok(s[4..4 + size]), s[4 + size..])
  }

  // Reading n frames; None if one of them fails.
  function ReadFrames(s: seq<Byte>, n: nat): Result<(seq<seq<Byte>>, seq<Byte>)> {
    if n == 0 then Ok(([], s))
    else
      match ReadFrame(s)
      case (Err(e), _) => Err(e)
      case (Ok(first), rest) =>
        match ReadFrames(rest, n - 1)
        case Err(e) => Err(e)
        case Ok((others, left)) => Ok(([first] + others, left))
  }

  /** What the transport does to one request: connecting, sending, reading the length and reading the
      response may each fail or time out; `sent` bytes get through before a failing send. */
  datatype Faults = Faults(connect: Option<Error>, send: Option<Error>, sent: nat, header: Option<Error>,
                           body: Option<Error>)
  {
    function BeforeReading(): Option<Error> {
      if connect.Some? then connect else send
    }
  }

  const NO_FAULTS := Faults(None, None, 0, None, None)

  // The bytes of the request that reach the stream.
  function Sent(request: seq<Byte>, faults: Faults): seq<Byte> {
    var frame := Frame(request);
    if faults.connect.Some? then []
    else if faults.send.Some? && faults.sent < |frame| then frame[..faults.sent]
    else frame
  }

  // The response frame, or what stops it from being read.
  function Received(s: seq<Byte>, faults: Faults): Result<seq<Byte>> {
    if faults.header.Some? then Err(faults.header.value)
    else if |s| >= 4 && FromBytes(s[..4]) <= MAX_RESPONSE && faults.body.Some? then Err(faults.body.value)
    else ReadFrame(s).0
  }

  // --- The stream ---

  class Stream {
    var incoming: seq<Byte>
    var outgoing: seq<Byte>

    constructor (incoming: seq<Byte>)
      ensures this.incoming == incoming && outgoing == []
    {
      this.incoming, outgoing := incoming, [];
    }

    method WriteAll(data: seq<Byte>)
      modifies this`outgoing
      ensures outgoing == old(outgoing) + data
    {
      outgoing := outgoing + data;
    }

    method WriteU32(value: nat)
      requires value < U32_MODULUS
      modifies this`outgoing
      ensures outgoing == old(outgoing) + ToBytes(value, 4)
    {
      WriteAll(ToBytes(value, 4));
    }

    // Fill a buffer of the given size; at the end of the stream what was there is lost.
    method ReadExact(size: nat) returns (r: Result<seq<Byte>>)
      modifies this`incoming
      ensures r == if |old(incoming)| < size then Err(UnexpectedEof) else Ok(old(incoming)[..size])
      ensures incoming == if r.Ok? then old(incoming)[size..] else []
    {
      if |incoming| < size {
        incoming := [];
        return Err(UnexpectedEof);
      }
      r := Ok(incoming[..size]);
      incoming := incoming[size..];
    }

    method ReadU32() returns (r: Result<nat>)
      modifies this`incoming
      ensures r == if |old(incoming)| < 4 then Err(UnexpectedEof) else Ok(FromBytes(old(incoming)[..4]))
      ensures incoming == if r.Ok? then old(incoming)[4..] else []
    {
      var buffer := ReadExact(4);
      match buffer {
        case Ok(bytes) => r := Ok(FromBytes(bytes));
        case Err(e) => r := Err(e);
      }
    }

    method SendFrame(data: seq<Byte>)
      modifies this`outgoing
      ensures outgoing == old(outgoing) + Frame(data)
    {
      WriteU32(|data| % U32_MODULUS);
      WriteAll(data);
    }

    // What a transport fault leaves on the connection, which is then dropped, is not specified.
    method ReceiveFrame(faults: Faults) returns (r: Result<seq<Byte>>)
      modifies this`incoming
      ensures r == Received(old(incoming), faults)
      ensures faults.header.None? && faults.body.None? ==> incoming == ReadFrame(old(incoming)).1
    {
      ghost var s := incoming;
      if faults.header.Some? {
        return Err(faults.header.value);
      }
      var size := ReadU32();
      if size.Err? {
        return Err(size.error);
      }
      if size.value > MAX_RESPONSE {
        return Err(ResponseTooLarge(size.value));
      }
      if faults.body.Some? {
        return Err(faults.body.value);
      }
      var n := size.value;
      r := ReadExact(n);
      if r.Ok? {
        assert s[4..][..n] == s[4..4 + n] && s[4..][n..] == s[4 + n..];
      }
    }

    /** One request. Without a connection nothing is sent; a fault while sending leaves part of the
        frame on the stream; otherwise the request goes out as one frame, and the answer is read
        from the first frame that comes in. `parse` is the JSON decoder: it may fail, and the
        response may carry an error, or no result. */
    method SendRequestOnce<V>(request: seq<Byte>, parse: seq<Byte> -> Response<V>, faults: Faults)
      returns (r: Result<V>)
      modifies this
      ensures outgoing == old(outgoing) + Sent(request, faults)
      ensures r == match faults.BeforeReading()
                   case Some(e) => Err(e)
                   case None =>
                     match Received(old(incoming), faults)
                     case Err(e) => Err(e)
                     case Ok(data) =>
                       match parse(data)
                       case NotJson => Err(Malformed)
                       case Response(true, _) => Err(RpcError)
                       case Response(false, None) => Err(EmptyResponse)
                       case Response(false, Some(value)) => Ok(value)
      ensures faults.BeforeReading().Some? ==> incoming == old(incoming)
      ensures faults.connect.Some? ==> r == Err(faults.connect.value) && outgoing == old(outgoing)
      ensures faults.connect.None? && faults.send.None? ==> outgoing == old(outgoing) + Frame(request)
      ensures faults == NO_FAULTS ==> incoming == ReadFrame(old(incoming)).1
    {
      if faults.connect.Some? {
        return Err(faults.connect.value);
      }
      if faults.send.Some? {
        WriteAll(Sent(request, faults));
        return Err(faults.send.value);
      }
      SendFrame(request);
      var frame := ReceiveFrame(faults);
      if frame.Err? {
        return Err(frame.error);
      }
      var response := parse(frame.value);
      match response {
        case NotJson => r := Err(Malformed);
        case Response(failed, result) =>
          if failed {
            r := Err(RpcError);
          } else if result.None? {
            r := Err(EmptyResponse);
          } else {
            r := Ok(result.value);
          }
      }
    }
  }

  datatype Response<V> = NotJson | Response(failed: bool, result: Option<V>)

  /** Retry. `signing` is the error of signing the request, if the client has a key and that fails; then
      nothing is tried at all. Otherwise the first success is returned, or the error of the last attempt,
      or a generic one when no attempt is allowed. Every attempt but the first follows a sleep. */
  method SendRequest<V>(signing: Option<Error>, retryAttempts: nat, once: nat -> Result<V>)
    returns (r: Result<V>, tried: nat, slept: nat)
    ensures signing.Some? ==> r == Err(signing.value) && tried == 0 && slept == 0
    ensures tried <= retryAttempts
    ensures forall k | 0 <= k < tried - 1 :: once(k).Err?
    ensures tried > 0 ==> r == once(tried - 1) && slept == tried - 1
    ensures signing.None? && r.Err? ==> tried == retryAttempts
    ensures signing.None? && retryAttempts == 0 ==> r == Err(AllAttemptsFailed) && slept == 0
  {
    if signing.Some? {
      return Err(signing.value), 0, 0;
    }
    var lastError: Option<Error> := None;
    tried, slept := 0, 0;
    for attempt := 0 to retryAttempts
      invariant tried == attempt
      invariant forall k | 0 <= k < attempt :: once(k).Err?
      invariant lastError == if attempt == 0 then None else Some(once(attempt - 1).error)
      invariant slept == if attempt == 0 then 0 else attempt - 1
    {
      if attempt > 0 {
        slept := slept + 1;
      }
      tried := tried + 1;
      r := once(attempt);
      if r.Ok? {
        return;
      }
      lastError := Some(r.error);
    }
    r := Err(if lastError.Some? then lastError.value else AllAttemptsFailed);
  }

  // --- Round trips ---

  // The length read is the length written, cut to 32 bits; the data follows.
  lemma ReadHeader(data: seq<Byte>, tail: seq<Byte>)
    ensures var s := Frame(data) + tail;
            |s| >= 4 && FromBytes(s[..4]) == |data| % U32_MODULUS && s[4..] == data + tail
  {
    FourBytes();
    LengthRoundTrip(|data| % U32_MODULUS, 4);
    var s := Frame(data) + tail;
    assert s[..4] == ToBytes(|data| % U32_MODULUS, 4);
  }

  /** A frame: the length of the data, big-endian in four bytes and cut to 32 bits, then the data. */
  lemma FrameIs(data: seq<Byte>)
    ensures var f := Frame(data);
            && |f| == 4 + |data| && f[4..] == data
            && Weighted(f[0], f[1], f[2], f[3]) == |data| % 0x1_0000_0000
  {
    ReadHeader(data, []);
    var f := Frame(data);
    assert f + [] == f;
    BigEndian(f[..4]);
  }

  /** What reading a frame does with any bytes: too few for a length, or for the length they give, are
      the end of the stream; a length over 10 MiB is refused as such; otherwise that many bytes after
      the length are the message, and those after them stay. */
  lemma ReadFrameIs(s: seq<Byte>)
    ensures |s| < 4 ==> ReadFrame(s).0 == Err(UnexpectedEof)
    ensures |s| >= 4 ==>
              var size := Weighted(s[0], s[1], s[2], s[3]);
              if size > 10_485_760 then ReadFrame(s) == (Err(ResponseTooLarge(size)), s[4..])
              else if |s| < 4 + size then ReadFrame(s).0 == Err(UnexpectedEof)
              else ReadFrame(s) == (Ok(s[4..4 + size]), s[4 + size..])
  {
    if |s| >= 4 {
      BigEndian(s[..4]);
    }
  }

  lemma ReadBack(data: seq<Byte>, tail: seq<Byte>)
    requires |data| <= MAX_RESPONSE
    ensures ReadFrame(Frame(data) + tail) == (Ok(data), tail)
  {
    ReadHeader(data, tail);
    var s := Frame(data) + tail;
    assert s[4..4 + |data|] == s[4..][..|data|] == data;
    assert s[4 + |data|..] == s[4..][|data|..] == tail;
  }

  // Whatever is read where a message of more than 10 MiB was written, it is not that message.
  lemma LongIsNotRead(data: seq<Byte>, tail: seq<Byte>)
    requires |data| > MAX_RESPONSE
    ensures ReadFrame(Frame(data) + tail).0 != Ok(data)
  {
    ReadHeader(data, tail);
  }

  /** Exactly which messages survive: a written frame is read back as the same message, with the
      bytes after it untouched, if and only if the message has at most 10 MiB. A longer one
      is refused, or, past four gigabytes, cut by its own length field. */
  lemma {:induction false} ReadBackIff(data: seq<Byte>, tail: seq<Byte>)
    ensures ReadFrame(Frame(data) + tail) == (Ok(data), tail) <==> |data| <= MAX_RESPONSE
  {
    if |data| <= MAX_RESPONSE {
      ReadBack(data, tail);
    } else {
      LongIsNotRead(data, tail);
    }
  }

  ghost predicate AllFit(messages: seq<seq<Byte>>) {
    forall i | 0 <= i < |messages| :: |messages[i]| <= MAX_RESPONSE
  }

  lemma ReadFirst(first: seq<Byte>, rest: seq<Byte>, n: nat)
    ensures var all, others := ReadFrames(Frame(first) + rest, n + 1), ReadFrames(rest, n);
            if |first| <= MAX_RESPONSE
            then all == if others.Ok? then Ok(([first] + others.value.0, others.value.1)) else others
            else all.Ok? ==> all.value.0 != [] && all.value.0[0] != first
  {
    if |first| <= MAX_RESPONSE {
      ReadBack(first, rest);
    } else {
      LongIsNotRead(first, rest);
    }
  }

  /** A sequence of messages written as frames is read back as the same sequence, with what follows
      on the stream untouched, if and only if each of them has at most 10 MiB. */
  lemma {:induction false} FramesRoundTripIff(messages: seq<seq<Byte>>, tail: seq<Byte>)
    ensures ReadFrames(Frames(messages) + tail, |messages|) == Ok((messages, tail)) <==> AllFit(messages)
  {
    if messages == [] {
      assert Frames(messages) + tail == tail;
    } else {
      var first, others := messages[0], messages[1..];
      var rest := Frames(others) + tail;
      assert Frames(messages) + tail == Frame(first) + rest;
      assert messages == [first] + others;
      ReadFirst(first, rest, |others|);
      FramesRoundTripIff(others, tail);
      assert AllFit(messages) <==> |first| <= MAX_RESPONSE && AllFit(others);
      var left := ReadFrames(rest, |others|);
      if left.Ok? {
        assert ([first] + left.value.0)[1..] == left.value.0;
      }
    }
  }

  // Frames are unambiguous: the bytes determine the messages.
  lemma FramesInjective(a: seq<seq<Byte>>, b: seq<seq<Byte>>)
    requires AllFit(a) && AllFit(b) && Frames(a) == Frames(b)
    ensures a == b
  {
    if |a| <= |b| {
      FramesPrefix(a, b);
    } else {
      FramesPrefix(b, a);
    }
  }

  lemma {:induction false} FramesPrefix(a: seq<seq<Byte>>, b: seq<seq<Byte>>)
    requires AllFit(a) && AllFit(b) && Frames(a) == Frames(b) && |a| <= |b|
    ensures a == b
  {
    if a != [] {
      ReadBack(a[0], Frames(a[1..]));
      ReadBack(b[0], Frames(b[1..]));
      FramesPrefix(a[1..], b[1..]);
      assert a == [a[0]] + a[1..] && b == [b[0]] + b[1..];
    }
  }
}
