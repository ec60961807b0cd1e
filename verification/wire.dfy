/** The framing protocol and the connection operations built on it
    (`detail::recv`, `connection::try_recv`, `connection::send`).

    A message travels as a length header -- the raw bytes of the host's `int`
    holding the payload length -- followed by the payload. Width and byte order
    of that `int` are host properties, so here they are a parameter (`Format`).

    The socket is abstract. What the peer delivers is a `Stream`: its bytes, a
    read position, for every offset a cap on what one `recv` starting there can
    return (so reads may return fewer bytes than requested), and how the stream
    ends. What the local socket accepts is a `Sink` of write events. */
module Wire {
  import opened Outcomes

  type byte = b: int | 0 <= b < 256

  datatype ByteOrder = LittleEndian | BigEndian

  /** Width in bytes and byte order of the header integer. */
  datatype HeaderFormat = HeaderFormat(width: nat, order: ByteOrder)

  type Format = f: HeaderFormat | f.width > 0 witness HeaderFormat(1, LittleEndian)

  /** The largest number of payload bytes a single payload read asks for. */
  const ChunkSize: nat := 1024

  /** The exceptions a receive or send can end with: `connection_closed_exception`,
      `unknown_connection_exception`, and the `std::length_error` that
      `std::string::resize` throws when the declared length is negative. */
  datatype Fault = ConnectionClosed | UnknownConnection | LengthError

  /** Whether the fault belongs to the `connection_exception` family, the one
      the server worker and the client connector catch and discard. */
  predicate IsConnectionFault(e: Fault)
  {
    e != LengthError
  }

  // ---------------------------------------------------------------------------
  // Header encoding

  function Pow256(n: nat): (p: nat)
    ensures p > 0
  {
    if n == 0 then 1 else 256 * Pow256(n - 1)
  }

  /** 2^(8 * width - 1): the header carries the lengths below this bound. */
  function SignBit(f: Format): (b: nat)
    ensures b > 0 && Pow256(f.width) == 2 * b
  {
    128 * Pow256(f.width - 1)
  }

  function EncodeLE(v: nat, w: nat): (bs: seq<byte>)
    ensures |bs| == w
  {
    if w == 0 then [] else [v % 256] + EncodeLE(v / 256, w - 1)
  }

  function DecodeLE(bs: seq<byte>): (v: nat)
    ensures v < Pow256(|bs|)
  {
    if |bs| == 0 then 0 else bs[0] + 256 * DecodeLE(bs[1..])
  }

  function EncodeBE(v: nat, w: nat): (bs: seq<byte>)
    ensures |bs| == w
  {
    if w == 0 then [] else EncodeBE(v / 256, w - 1) + [v % 256]
  }

  function DecodeBE(bs: seq<byte>): (v: nat)
    ensures v < Pow256(|bs|)
  {
    if |bs| == 0 then 0 else 256 * DecodeBE(bs[..|bs| - 1]) + bs[|bs| - 1]
  }

  lemma {:induction false} DecodeEncodeLE(v: nat, w: nat)
    requires v < Pow256(w)
    ensures DecodeLE(EncodeLE(v, w)) == v
  {
    if w > 0 {
      DecodeEncodeLE(v / 256, w - 1);
      assert EncodeLE(v, w)[1..] == EncodeLE(v / 256, w - 1);
    }
  }

  lemma {:induction false} EncodeDecodeLE(bs: seq<byte>)
    ensures EncodeLE(DecodeLE(bs), |bs|) == bs
  {
    if |bs| > 0 {
      EncodeDecodeLE(bs[1..]);
      var v := DecodeLE(bs);
      assert v % 256 == bs[0] && v / 256 == DecodeLE(bs[1..]);
    }
  }

  lemma {:induction false} DecodeEncodeBE(v: nat, w: nat)
    requires v < Pow256(w)
    ensures DecodeBE(EncodeBE(v, w)) == v
  {
    if w > 0 {
      DecodeEncodeBE(v / 256, w - 1);
      var bs := EncodeBE(v, w);
      assert bs[..|bs| - 1] == EncodeBE(v / 256, w - 1);
    }
  }

  lemma {:induction false} EncodeDecodeBE(bs: seq<byte>)
    ensures EncodeBE(DecodeBE(bs), |bs|) == bs
  {
    if |bs| > 0 {
      var init := bs[..|bs| - 1];
      EncodeDecodeBE(init);
      var v := DecodeBE(bs);
      assert v % 256 == bs[|bs| - 1] && v / 256 == DecodeBE(init);
      assert bs == init + [bs[|bs| - 1]];
    }
  }

  /** The `w` bytes of an unsigned value `v` in the given byte order. */
  function EncodeUnsigned(order: ByteOrder, v: nat, w: nat): (bs: seq<byte>)
    requires v < Pow256(w)
    ensures |bs| == w
    ensures DecodeUnsigned(order, bs) == v
  {
    match order
    case LittleEndian => DecodeEncodeLE(v, w); EncodeLE(v, w)
    case BigEndian => DecodeEncodeBE(v, w); EncodeBE(v, w)
  }

  function DecodeUnsigned(order: ByteOrder, bs: seq<byte>): (v: nat)
    ensures v < Pow256(|bs|)
  {
    match order
    case LittleEndian => DecodeLE(bs)
    case BigEndian => DecodeBE(bs)
  }

  /** The header written for a payload of `n` bytes: the native `int` holding `n`. */
  function EncodeHeader(f: Format, n: nat): (h: seq<byte>)
    requires n < SignBit(f)
    ensures |h| == f.width
    ensures DecodeHeader(f, h) == n
  {
    EncodeUnsigned(f.order, n, f.width)
  }

  /** The `int` a receiver reads out of `h`: two's complement in the header's byte order. */
  function DecodeHeader(f: Format, h: seq<byte>): (n: int)
    requires |h| == f.width
    ensures -(SignBit(f) as int) <= n < SignBit(f)
  {
    var u := DecodeUnsigned(f.order, h);
    if u < SignBit(f) then u else u - Pow256(f.width)
  }

  /** Every header whose value is a valid length is the encoding of that length,
      so encoding and decoding are inverse on non-negative lengths. */
  lemma HeaderOfDecoded(f: Format, h: seq<byte>)
    requires |h| == f.width && DecodeHeader(f, h) >= 0
    ensures EncodeHeader(f, DecodeHeader(f, h)) == h
  {
    match f.order
    case LittleEndian => EncodeDecodeLE(h);
    case BigEndian => EncodeDecodeBE(h);
  }

  /** One frame on the wire: the header for |payload| followed by the payload. */
  function EncodeFrame(f: Format, payload: seq<byte>): (w: seq<byte>)
    requires |payload| < SignBit(f)
    ensures |w| == f.width + |payload|
    ensures DecodeHeader(f, w[..f.width]) == |payload| && w[f.width..] == payload
  {
    var h := EncodeHeader(f, |payload|);
    assert (h + payload)[..f.width] == h;
    h + payload
  }

  // ---------------------------------------------------------------------------
  // The inbound side of the socket

  /** How the peer's side finishes once all its bytes have been read: an
      orderly shutdown, or a transport fault. */
  datatype Ending = Shutdown | Broken

  type Positive = n: nat | n > 0 witness 1

  /** What arrives from the peer: the bytes it sends, how many of them have
      been read, for every offset the most bytes one `recv` starting there can
      hand out (so a read may return fewer bytes than it asks for), and how
      the stream ends. */
  datatype Inbound = Inbound(data: seq<byte>, burst: seq<Positive>, pos: nat, ending: Ending)

  type Stream = s: Inbound | |s.burst| == |s.data| && s.pos <= |s.data|
    witness Inbound([], [], 0, Shutdown)

  /** The bytes not read yet. */
  function Unread(s: Stream): seq<byte>
  {
    s.data[s.pos..]
  }

  /** How many bytes are still unread. */
  function Left(s: Stream): nat
  {
    |s.data| - s.pos
  }

  /** The next `n` unread bytes. */
  function Next(s: Stream, n: nat): (b: seq<byte>)
    requires n <= Left(s)
  {
    s.data[s.pos..s.pos + n]
  }

  /** Whether the stream ends in a fault rather than a shutdown. */
  predicate EndsInFault(s: Stream)
  {
    s.ending == Broken
  }

  /** The stream after its next `n` bytes have been read. */
  function Drop(s: Stream, n: nat): (t: Stream)
    requires n <= Left(s)
  {
    s.(pos := s.pos + n)
  }

  /** The most bytes the next `recv` can hand out: never more than is left,
      and at least one while anything is. */
  function Available(s: Stream): (n: nat)
    ensures n <= Left(s)
    ensures n == 0 <==> Left(s) == 0
  {
    if s.pos == |s.data| then 0 else Min(s.burst[s.pos], |s.data| - s.pos)
  }

  datatype ReadResult = ReadResult(ret: int, got: seq<byte>, rest: Stream)

  /** One `::recv(fd, buf, want, 0)`: the next bytes, as many as asked for and
      available; once every byte has been read, 0 after a shutdown and -1
      after a fault. */
  function Read(s: Stream, want: nat): (r: ReadResult)
    requires want > 0
  {
    if s.pos == |s.data| then ReadResult(if s.ending == Shutdown then 0 else -1, [], s)
    else
      var k := Min(want, Available(s));
      ReadResult(k, Next(s, k), Drop(s, k))
  }

  /** What one `recv` promises: 0 exactly when the peer shut down and nothing
      is left, -1 exactly when the stream broke and nothing is left; otherwise
      between 1 and `want` bytes, as many as asked for unless fewer are
      available, taken from the front of the unread bytes with nothing lost
      or repeated. */
  lemma ReadSpec(s: Stream, want: nat)
    requires want > 0
    ensures var r := Read(s, want);
      && (r.ret == 0 <==> Left(s) == 0 && !EndsInFault(s))
      && (r.ret == -1 <==> Left(s) == 0 && EndsInFault(s))
      && (r.ret > 0 ==> r.ret <= want && r.ret <= Available(s) && (r.ret == want || r.ret == Available(s)))
      && (r.ret >= 0 ==> |r.got| == r.ret && r.got + Unread(r.rest) == Unread(s))
      && (r.ret < 0 ==> r.rest == s)
  {
    var r := Read(s, want);
    if r.ret > 0 {
      assert r.got + Unread(r.rest) == Unread(s) by {
        Adjacent(s.data, s.pos, s.pos + r.ret, |s.data|);
      }
    }
  }

  /** The payload loop of `detail::recv`: reads of `min(ChunkSize, remaining)`
      bytes, each appended to `data`, until `remaining` reaches 0. */
  function ReadPayload(s: Stream, remaining: nat, data: seq<byte>): (r: (Result<seq<byte>, Fault>, Stream))
    decreases remaining
  {
    if remaining == 0 then (Success(data), s)
    else
      var rd := Read(s, Min(ChunkSize, remaining));
      if rd.ret == 0 then (Failure(ConnectionClosed), rd.rest)
      else if rd.ret == -1 then (Failure(UnknownConnection), rd.rest)
      else ReadPayload(rd.rest, remaining - rd.ret, data + rd.got)
  }

  lemma Adjacent(b: seq<byte>, i: nat, j: nat, k: nat)
    requires i <= j <= k <= |b|
    ensures b[i..j] + b[j..k] == b[i..k]
  {
  }

  /** One turn of the payload loop while bytes are left: the read returns
      between 1 and `remaining` of them, and the loop goes on after them. */
  lemma ReadPayloadStep(s: Stream, remaining: nat, data: seq<byte>)
    requires 0 < remaining && 0 < Left(s)
    ensures var rd := Read(s, Min(ChunkSize, remaining));
      && 0 < rd.ret <= remaining && rd.got == Next(s, rd.ret) && rd.rest == Drop(s, rd.ret)
      && ReadPayload(s, remaining, data) == ReadPayload(rd.rest, remaining - rd.ret, data + rd.got)
  {
  }

  /** The payload loop appends the next `remaining` bytes of the stream and
      consumes nothing beyond them, however few bytes each read hands out. */
  lemma {:induction false} ReadPayloadComplete(s: Stream, remaining: nat, data: seq<byte>)
    requires remaining <= Left(s)
    ensures ReadPayload(s, remaining, data) == (Success(data + Next(s, remaining)), Drop(s, remaining))
    decreases remaining
  {
    if remaining == 0 {
      NothingLeftToRead(s, data);
    } else {
      var rd := Read(s, Min(ChunkSize, remaining));
      var k := rd.ret;
      ReadPayloadStep(s, remaining, data);
      ReadPayloadComplete(rd.rest, remaining - k, data + rd.got);
      NextThenNext(s, k, remaining, data);
    }
  }

  lemma NothingLeftToRead(s: Stream, data: seq<byte>)
    ensures ReadPayload(s, 0, data) == (Success(data + Next(s, 0)), Drop(s, 0))
  {
    assert data + Next(s, 0) == data;
  }

  /** Reading `k` bytes and then `n - k` more reads the next `n`. */
  lemma NextThenNext(s: Stream, k: nat, n: nat, data: seq<byte>)
    requires k <= n <= Left(s)
    ensures data + Next(s, k) + Next(Drop(s, k), n - k) == data + Next(s, n)
    ensures Drop(Drop(s, k), n - k) == Drop(s, n)
  {
    Adjacent(s.data, s.pos, s.pos + k, s.pos + n);
  }

  /** When the stream carries fewer than `remaining` bytes, the payload loop
      fails with the way the stream ends: a shutdown gives `ConnectionClosed`,
      a fault gives `UnknownConnection`. */
  lemma {:induction false} ReadPayloadShort(s: Stream, remaining: nat, data: seq<byte>)
    requires remaining > Left(s)
    ensures ReadPayload(s, remaining, data).0 == Failure(if EndsInFault(s) then UnknownConnection else ConnectionClosed)
    decreases remaining
  {
    if Left(s) > 0 {
      var rd := Read(s, Min(ChunkSize, remaining));
      ReadPayloadStep(s, remaining, data);
      ReadPayloadShort(rd.rest, remaining - rd.ret, data + rd.got);
    }
  }

  /** Whether the first read of the stream can return the whole header. */
  predicate HeaderArrivesWhole(f: Format, s: Stream)
  {
    Available(s) >= f.width
  }

  /** `detail::recv`: reads the header in one call, then the payload. */
  function Receive(f: Format, s: Stream): (Result<seq<byte>, Fault>, Stream)
  {
    var hd := Read(s, f.width);
    if hd.ret == 0 then (Failure(ConnectionClosed), hd.rest)
    else if hd.ret != f.width then (Failure(UnknownConnection), hd.rest)
    else
      var declared := DecodeHeader(f, hd.got);
      if declared < 0 then (Failure(LengthError), hd.rest)
      else ReadPayload(hd.rest, declared, [])
  }

  /** How a receive ends before any payload is read. A header read of 0 bytes
      means the peer closed; any other count but the header width is an
      unknown error (the two are never raised together); a negative declared
      length makes `std::string::resize` throw a length error. */
  lemma ReceiveHeaderOutcome(f: Format, s: Stream)
    ensures Left(s) == 0 && !EndsInFault(s) ==> Receive(f, s).0 == Failure(ConnectionClosed)
    ensures Left(s) == 0 && EndsInFault(s) ==> Receive(f, s).0 == Failure(UnknownConnection)
    ensures 0 < Available(s) < f.width ==> Receive(f, s).0 == Failure(UnknownConnection)
    ensures HeaderArrivesWhole(f, s) && DecodeHeader(f, Next(s, f.width)) < 0 ==>
      Receive(f, s).0 == Failure(LengthError)
  {
    ReadSpec(s, f.width);
  }

  /** With the whole header in the first read, a receive with a non-negative
      header continues with the payload loop on the rest of the stream. */
  lemma ReceiveAfterHeader(f: Format, s: Stream)
    requires HeaderArrivesWhole(f, s)
    requires 0 <= DecodeHeader(f, Next(s, f.width))
    ensures Receive(f, s) == ReadPayload(Drop(s, f.width), DecodeHeader(f, Next(s, f.width)), [])
  {
    var hd := Read(s, f.width);
    assert hd.ret == f.width;
  }

  /** Once a non-negative header of value `n` is in, a stream carrying at least
      `n` more bytes yields exactly those bytes and consumes nothing beyond them. */
  lemma ReceiveComplete(f: Format, s: Stream)
    requires HeaderArrivesWhole(f, s)
    requires 0 <= DecodeHeader(f, Next(s, f.width))
    requires f.width + DecodeHeader(f, Next(s, f.width)) <= Left(s)
    ensures var n := DecodeHeader(f, Next(s, f.width));
      Receive(f, s) == (Success(Next(Drop(s, f.width), n)), Drop(s, f.width + n))
  {
    var n := DecodeHeader(f, Next(s, f.width));
    ReceiveAfterHeader(f, s);
    ReadPayloadFromStart(Drop(s, f.width), n);
    DropDrop(s, f.width, n);
  }

  /** The payload loop as `detail::recv` starts it, with nothing read yet. */
  lemma ReadPayloadFromStart(s: Stream, n: nat)
    requires n <= Left(s)
    ensures ReadPayload(s, n, []) == (Success(Next(s, n)), Drop(s, n))
  {
    ReadPayloadComplete(s, n, []);
    assert [] + Next(s, n) == Next(s, n);
  }

  lemma DropDrop(s: Stream, a: nat, b: nat)
    requires a + b <= Left(s)
    ensures Drop(Drop(s, a), b) == Drop(s, a + b)
  {
  }

  /** Once a non-negative header of value `n` is in, a stream carrying fewer
      than `n` more bytes fails with the way the stream ends, however the
      bytes are handed out. */
  lemma ReceiveShort(f: Format, s: Stream)
    requires HeaderArrivesWhole(f, s)
    requires 0 <= DecodeHeader(f, Next(s, f.width))
    requires f.width + DecodeHeader(f, Next(s, f.width)) > Left(s)
    ensures Receive(f, s).0 == Failure(if EndsInFault(s) then UnknownConnection else ConnectionClosed)
  {
    ReceiveAfterHeader(f, s);
    ReadPayloadShort(Drop(s, f.width), DecodeHeader(f, Next(s, f.width)), []);
  }

  /** The payload loop only ever fails with a connection fault. */
  lemma {:induction false} PayloadFaultIsConnectionFault(s: Stream, remaining: nat, data: seq<byte>)
    ensures ReadPayload(s, remaining, data).0.Failure? ==> IsConnectionFault(ReadPayload(s, remaining, data).0.error)
    decreases remaining
  {
    if remaining > 0 {
      var rd := Read(s, Min(ChunkSize, remaining));
      if rd.ret != 0 && rd.ret != -1 {
        PayloadFaultIsConnectionFault(rd.rest, remaining - rd.ret, data + rd.got);
      }
    }
  }

  /** The server worker and the client connector catch `connection_exception`
      only. A failed receive is one of those exactly unless the whole header
      came in and announced a negative length, whose `std::length_error`
      escapes the catch. */
  lemma ReceiveFaultCaught(f: Format, s: Stream)
    requires Receive(f, s).0.Failure?
    ensures IsConnectionFault(Receive(f, s).0.error)
      <==> !(HeaderArrivesWhole(f, s) && DecodeHeader(f, Next(s, f.width)) < 0)
  {
    ReceiveHeaderOutcome(f, s);
    if HeaderArrivesWhole(f, s) && DecodeHeader(f, Next(s, f.width)) >= 0 {
      ReceiveAfterHeader(f, s);
      PayloadFaultIsConnectionFault(Drop(s, f.width), DecodeHeader(f, Next(s, f.width)), []);
    }
  }

  /** Whether the stream's unread bytes begin with `w`. */
  predicate Delivers(s: Stream, w: seq<byte>)
  {
    |w| <= Left(s) && Next(s, |w|) == w
  }

  /** Receiving a stream that begins with a frame returns that frame's payload
      and consumes exactly the frame, however the payload is handed out,
      provided the header reaches the receiver in one read. */
  lemma ReceiveFrame(f: Format, payload: seq<byte>, s: Stream)
    requires |payload| < SignBit(f)
    requires HeaderArrivesWhole(f, s)
    requires Delivers(s, EncodeFrame(f, payload))
    ensures Receive(f, s) == (Success(payload), Drop(s, f.width + |payload|))
  {
    FrameParts(f, payload, s);
    ReceiveComplete(f, s);
  }

  /** A stream that begins with a frame holds its header, then its payload. */
  lemma FrameParts(f: Format, payload: seq<byte>, s: Stream)
    requires |payload| < SignBit(f)
    requires Delivers(s, EncodeFrame(f, payload))
    ensures f.width + |payload| <= Left(s)
    ensures DecodeHeader(f, Next(s, f.width)) == |payload|
    ensures Next(Drop(s, f.width), |payload|) == payload
  {
    var w := EncodeFrame(f, payload);
    assert s.data[s.pos..s.pos + |w|] == w;
    assert Next(s, f.width) == w[..f.width];
    assert Next(Drop(s, f.width), |payload|) == w[f.width..];
  }

  /** `detail::recv` as the source writes it: a header read, then a loop whose
      every read asks for `min(ChunkSize, remaining)` bytes. */
  method ReceiveMessage(f: Format, s: Stream) returns (r: Result<seq<byte>, Fault>, rest: Stream)
    ensures (r, rest) == Receive(f, s)
  {
    var hd := Read(s, f.width);
    if hd.ret == 0 {
      return Failure(ConnectionClosed), hd.rest;
    } else if hd.ret != f.width {
      return Failure(UnknownConnection), hd.rest;
    }
    var declared := DecodeHeader(f, hd.got);
    if declared < 0 {
      return Failure(LengthError), hd.rest;
    }
    ghost var whole := ReadPayload(hd.rest, declared, []);
    assert Receive(f, s) == whole;
    var remaining: nat := declared;
    var data: seq<byte> := [];
    rest := hd.rest;
    while remaining > 0
      invariant whole == ReadPayload(rest, remaining, data)
      invariant |data| + remaining == declared
      decreases remaining
    {
      var rd := Read(rest, Min(ChunkSize, remaining));
      ReadSpec(rest, Min(ChunkSize, remaining));
      if rd.ret == 0 {
        return Failure(ConnectionClosed), rd.rest;
      } else if rd.ret == -1 {
        return Failure(UnknownConnection), rd.rest;
      }
      remaining := remaining - rd.ret;
      data := data + rd.got;
      rest := rd.rest;
    }
    r := Success(data);
  }

  /** `connection::try_recv`: `selected` is what the zero-timeout `select`
      returned, `isSet` whether it left the descriptor in the read set. */
  function TryReceive(f: Format, selected: int, isSet: bool, s: Stream): (r: (Result<Option<seq<byte>>, Fault>, Stream))
    requires selected >= -1
    ensures selected == -1 ==> r == (Failure(UnknownConnection), s)
    ensures selected == 0 || (selected > 0 && !isSet) ==> r == (Success(None), s)
    ensures selected > 0 && isSet ==>
      var one := Receive(f, s);
      && r.1 == one.1
      && (one.0.Success? ==> r.0 == Success(Some(one.0.value)))
      && (one.0.Failure? ==> r.0 == Failure(one.0.error))
  {
    if selected == -1 then (Failure(UnknownConnection), s)
    else if selected == 0 then (Success(None), s)
    else if isSet then
      var (got, rest) := Receive(f, s);
      match got
      case Success(msg) => (Success(Some(msg)), rest)
      case Failure(e) => (Failure(e), rest)
    else (Success(None), s)
  }

  // ---------------------------------------------------------------------------
  // The outbound side of the socket

  /** How one `::send` call behaves: it accepts at most `limit` bytes, or fails. */
  datatype WriteEvent = Accepts(limit: nat) | Refuses

  /** The behaviour of successive `::send` calls; once it is used up, every
      call accepts all it is given. */
  type Sink = seq<WriteEvent>

  /** One `::send(fd, buf, want, 0)`: the count it returns and the sink left. */
  function Write(sink: Sink, want: nat): (r: (int, Sink))
    ensures r.0 == -1 <==> |sink| > 0 && sink[0] == Refuses
    ensures r.0 != -1 ==> 0 <= r.0 <= want
    ensures |sink| == 0 ==> r == (want, sink)
    ensures |sink| > 0 ==> r.1 == sink[1..]
  {
    if |sink| == 0 then (want, sink)
    else match sink[0]
      case Refuses => (-1, sink[1..])
      case Accepts(limit) => (Min(limit, want), sink[1..])
  }

  /** Whether the first `::send` call takes the whole header. */
  predicate HeaderAccepted(f: Format, sink: Sink)
  {
    |sink| == 0 || (sink[0].Accepts? && sink[0].limit >= f.width)
  }

  /** Whether successive `::send` calls, each offered all that is still
      unsent, get `n` bytes out before one of them returns -1. */
  predicate Completes(sink: Sink, n: nat)
    decreases |sink|
  {
    n == 0 || |sink| == 0 || (sink[0].Accepts? && Completes(sink[1..], n - Min(sink[0].limit, n)))
  }

  /** The sink left after the call that sends the header. */
  function AfterHeader(sink: Sink): Sink
  {
    if |sink| == 0 then [] else sink[1..]
  }

  datatype Status = Sent | Threw(fault: Fault)

  /** What reached the wire, and how the call ended. */
  datatype SendResult = SendResult(written: seq<byte>, status: Status)

  /** The payload loop of `connection::send`: resend the unsent tail until it is
      all out; a call returning -1 throws. */
  function WritePayload(payload: seq<byte>, off: nat, sink: Sink, written: seq<byte>): (r: SendResult)
    requires off <= |payload|
    ensures r.status.Sent? ==> r.written == written + payload[off..]
    ensures r.status.Threw? ==>
      && r.status.fault == UnknownConnection
      && |written| <= |r.written| < |written| + |payload| - off
      && r.written == written + payload[off..off + |r.written| - |written|]
    ensures Refuses !in sink ==> r.status.Sent?
    ensures r.status.Sent? <==> Completes(sink, |payload| - off)
    decreases |payload| - off, |sink|
  {
    if off == |payload| then SendResult(written, Sent)
    else
      var (sent, rest) := Write(sink, |payload| - off);
      if sent == -1 then SendResult(written, Threw(UnknownConnection))
      else
        var r := WritePayload(payload, off + sent, rest, written + payload[off..off + sent]);
        if r.status.Threw? then
          AppendAdjacent(written, payload, off, off + sent, off + |r.written| - |written|);
          r
        else
          AppendRest(written, payload, off, off + sent);
          r
  }

  lemma AppendAdjacent(w: seq<byte>, p: seq<byte>, i: nat, j: nat, k: nat)
    requires i <= j <= k <= |p|
    ensures w + p[i..j] + p[j..k] == w + p[i..k]
  {
    assert p[i..j] + p[j..k] == p[i..k];
  }

  lemma AppendRest(w: seq<byte>, p: seq<byte>, i: nat, j: nat)
    requires i <= j <= |p|
    ensures w + p[i..j] + p[j..] == w + p[i..]
  {
    assert p[i..j] + p[j..] == p[i..];
  }

  /** `connection::send`: the header in one call, then the payload. Succeeds
      exactly when the frame reached the wire; a failure leaves a proper
      prefix of the frame behind and is always an unknown error. */
  function Send(f: Format, payload: seq<byte>, sink: Sink): (r: SendResult)
    requires |payload| < SignBit(f)
    ensures r.status.Sent? ==> r.written == EncodeFrame(f, payload)
    ensures r.status.Threw? ==>
      var frame := EncodeFrame(f, payload);
      && r.status.fault == UnknownConnection
      && |r.written| < |frame| && r.written == frame[..|r.written|]
    ensures !HeaderAccepted(f, sink) ==> r.status.Threw?
    ensures HeaderAccepted(f, sink) && Refuses !in sink ==> r.status.Sent?
    ensures r.status.Sent? <==> HeaderAccepted(f, sink) && Completes(AfterHeader(sink), |payload|)
  {
    var header := EncodeHeader(f, |payload|);
    var (ret, rest) := Write(sink, f.width);
    if ret != f.width then
      SendResult(header[..Max(ret, 0)], Threw(UnknownConnection))
    else
      assert Refuses !in sink ==> Refuses !in rest;
      WritePayload(payload, 0, rest, header)
  }

  /** Round trip: whatever `Send` put on the wire, `Receive` hands back the
      same payload and consumes exactly the frame, when the header arrives in
      one read. */
  lemma SendThenReceive(f: Format, payload: seq<byte>, sink: Sink, s: Stream)
    requires |payload| < SignBit(f)
    requires Send(f, payload, sink).status.Sent?
    requires HeaderArrivesWhole(f, s) && Delivers(s, Send(f, payload, sink).written)
    ensures Receive(f, s) == (Success(payload), Drop(s, |Send(f, payload, sink).written|))
  {
    ReceiveWritten(f, payload, Send(f, payload, sink).written, s);
  }

  lemma ReceiveWritten(f: Format, payload: seq<byte>, w: seq<byte>, s: Stream)
    requires |payload| < SignBit(f) && w == EncodeFrame(f, payload)
    requires HeaderArrivesWhole(f, s) && Delivers(s, w)
    ensures Receive(f, s) == (Success(payload), Drop(s, |w|))
  {
    ReceiveFrame(f, payload, s);
  }
}
