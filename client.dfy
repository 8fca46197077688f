// The receiving side of client.py: reading exact byte counts from a socket
// and splitting what arrives into length-prefixed frames. The socket is a
// value listing the chunks successive recv calls would return.
module Client {
  import opened Bytes
  import opened Framing

  // ---------------------------------------------------------------------
  // The socket.

  /** The chunks the peer sends, in order. An empty chunk is the peer
      closing the connection: recv returns b"" from then on. */
  type Stream = seq<seq<byte>>

  /** Every byte the socket will still deliver: the chunks up to the first
      empty one. */
  function Available(s: Stream): seq<byte>
  {
    if s == [] || s[0] == [] then [] else s[0] + Available(s[1..])
  }

  /** The result of one recv call and the socket after it. */
  datatype Received = Received(chunk: seq<byte>, rest: Stream)

  /** sock.recv(max): at most `max` bytes from the front of the next chunk;
      whatever does not fit stays for the next call. A closed socket returns
      the empty chunk and stays closed. */
  function Recv(s: Stream, max: nat): (r: Received)
    ensures |r.chunk| <= max
    ensures r.chunk + Available(r.rest) == Available(s)
    ensures r.chunk == [] <==> max == 0 || Available(s) == []
  {
    if max == 0 || s == [] || s[0] == [] then Received([], s)
    else if |s[0]| <= max then Received(s[0], s[1..])
    else
      var rest := [s[0][max..]] + s[1..];
      assert rest[1..] == s[1..];
      assert s[0] == s[0][..max] + s[0][max..];
      Received(s[0][..max], rest)
  }

  /** recv_exact: calls recv until `n` bytes have arrived. The result is
      None when the socket closes first; the bytes read so far are then
      lost. */
  method RecvExact(s: Stream, n: nat) returns (r: Option<seq<byte>>, rest: Stream)
    ensures r.Some? <==> n <= |Available(s)|
    ensures r.Some? ==> r.value == Available(s)[..n] && Available(rest) == Available(s)[n..]
    ensures r.None? ==> Available(rest) == []
    ensures n == 0 ==> r == Some([]) && rest == s
  {
    var data: seq<byte> := [];
    rest := s;
    while |data| < n
      invariant |data| <= n
      invariant data + Available(rest) == Available(s)
      invariant data == [] ==> rest == s
      decreases n - |data|
    {
      var got := Recv(rest, n - |data|);
      if got.chunk == [] {
        return None, got.rest;
      }
      data := data + got.chunk;
      rest := got.rest;
    }
    assert Available(s)[..n] == data;
    return Some(data), rest;
  }

  // ---------------------------------------------------------------------
  // The length prefix.

  /** struct.unpack("!I", h): four bytes read as a big-endian unsigned
      32-bit integer. */
  function BeU32(h: seq<byte>): (r: nat)
    requires |h| == 4
    ensures r < 0x1_0000_0000
  {
    ((h[0] as int * 0x100 + h[1] as int) * 0x100 + h[2] as int) * 0x100 + h[3] as int
  }

  /** struct.pack("!I", v): the four big-endian bytes of `v`. */
  function EncodeU32(v: nat): (r: seq<byte>)
    requires v < 0x1_0000_0000
    ensures |r| == 4
  {
    [v / 0x100_0000, (v / 0x1_0000) % 0x100, (v / 0x100) % 0x100, v % 0x100]
  }

  /** Unpacking a packed length gives the length back. */
  lemma DecodeEncodeU32(v: nat)
    requires v < 0x1_0000_0000
    ensures BeU32(EncodeU32(v)) == v
  {
    var h := EncodeU32(v);
    assert v == (v / 0x100) * 0x100 + v % 0x100;
    assert v / 0x100 == (v / 0x1_0000) * 0x100 + (v / 0x100) % 0x100;
    assert v / 0x1_0000 == (v / 0x100_0000) * 0x100 + (v / 0x1_0000) % 0x100;
  }

  /** Packing an unpacked header gives the header back. */
  lemma EncodeDecodeU32(h: seq<byte>)
    requires |h| == 4
    ensures EncodeU32(BeU32(h)) == h
  {
    var v := BeU32(h);
    var a := (h[0] as int * 0x100 + h[1] as int) * 0x100 + h[2] as int;
    assert v / 0x100 == a && v % 0x100 == h[3] as int;
    assert a / 0x100 == h[0] as int * 0x100 + h[1] as int && a % 0x100 == h[2] as int;
  }

  // ---------------------------------------------------------------------
  // The receive loop.

  /** Why receive_messages stopped. */
  datatype Stop =
    | NoHeader              // the socket closed before four header bytes arrived
    | BadLength(length: nat) // the length prefix is 0 or over MAX_BYTES
    | ShortBody             // the socket closed inside the body
    | BadText               // the body is not UTF-8: the error is shown, then the loop ends

  /** The outcome of one pass of the loop: a body to show, or a stop. */
  datatype Step = Next(body: seq<byte>) | Halt(stop: Stop)

  /** What one pass of receive_messages makes of the bytes `b`, where
      `utf8` says whether a body decodes as UTF-8. */
  function FrameStep(b: seq<byte>, utf8: seq<byte> -> bool): (r: Step)
    ensures r.Next? ==> HEADER + |r.body| <= |b| && r.body == b[HEADER..HEADER + |r.body|]
    ensures r.Next? ==> 1 <= |r.body| <= MAX_BYTES && utf8(r.body) && |r.body| == BeU32(b[..HEADER])
    ensures r == Halt(BadText) ==> HEADER <= |b| && HEADER + BeU32(b[..HEADER]) <= |b|
    ensures r.Halt? && r.stop.BadLength? ==> r.stop.length == 0 || r.stop.length > MAX_BYTES
  {
    if |b| < HEADER then Halt(NoHeader)
    else
      var len := BeU32(b[..HEADER]);
      if len == 0 || len > MAX_BYTES then Halt(BadLength(len))
      else if |b| < HEADER + len then Halt(ShortBody)
      else
        var body := b[HEADER..HEADER + len];
        if !utf8(body) then Halt(BadText) else Next(body)
  }

  /** How many bytes one pass takes off the socket: a whole frame, just the
      header when the length is refused, or everything left when the socket
      closes first. */
  function Consumed(b: seq<byte>, utf8: seq<byte> -> bool): (n: nat)
    ensures n <= |b|
    ensures FrameStep(b, utf8).Next? ==> n == HEADER + |FrameStep(b, utf8).body|
  {
    match FrameStep(b, utf8)
    case Next(body) => HEADER + |body|
    case Halt(NoHeader) => |b|
    case Halt(BadLength(_)) => HEADER
    case Halt(ShortBody) => |b|
    case Halt(BadText) => HEADER + BeU32(b[..HEADER])
  }

  /** One pass of the loop: the header, the length check, the body and its
      decoding. */
  method ReadFrame(s: Stream, utf8: seq<byte> -> bool) returns (r: Step, rest: Stream)
    ensures r == FrameStep(Available(s), utf8)
    ensures Available(rest) == Available(s)[Consumed(Available(s), utf8)..]
  {
    ghost var b := Available(s);
    var header, afterHeader := RecvExact(s, HEADER);
    if header.None? {
      return Halt(NoHeader), afterHeader;
    }
    var length := BeU32(header.value);
    if length == 0 || length > MAX_BYTES {
      return Halt(BadLength(length)), afterHeader;
    }
    var body, afterBody := RecvExact(afterHeader, length);
    if body.None? {
      return Halt(ShortBody), afterBody;
    }
    assert body.value == b[HEADER..HEADER + length];
    assert b[HEADER..][length..] == b[HEADER + length..];
    if !utf8(body.value) {
      return Halt(BadText), afterBody;
    }
    return Next(body.value), afterBody;
  }

  /** The bodies shown, in order, why the loop stopped, and how many bytes
      it consumed. */
  datatype Reading = Reading(bodies: seq<seq<byte>>, stop: Stop, used: nat)

  /** What receive_messages makes of the whole byte stream `b`: passes of
      the loop until one halts. */
  function Frames(b: seq<byte>, utf8: seq<byte> -> bool): (r: Reading)
    ensures r.used <= |b|
    decreases |b|
  {
    var used := Consumed(b, utf8);
    match FrameStep(b, utf8)
    case Halt(stop) => Reading([], stop, used)
    case Next(body) =>
      var more := Frames(b[used..], utf8);
      Reading([body] + more.bodies, more.stop, used + more.used)
  }

  /** receive_messages: reads frames until one of the stop conditions,
      collecting the bodies it displays. */
  method ReceiveMessages(s: Stream, utf8: seq<byte> -> bool) returns (shown: seq<seq<byte>>, stop: Stop, rest: Stream)
    ensures shown == Frames(Available(s), utf8).bodies
    ensures stop == Frames(Available(s), utf8).stop
    ensures Available(rest) == Available(s)[Frames(Available(s), utf8).used..]
  {
    ghost var all := Available(s);
    ghost var k: nat := 0;
    shown := [];
    rest := s;
    while true
      invariant k <= |all| && Available(rest) == all[k..]
      invariant Frames(all, utf8).bodies == shown + Frames(all[k..], utf8).bodies
      invariant Frames(all, utf8).stop == Frames(all[k..], utf8).stop
      invariant Frames(all, utf8).used == k + Frames(all[k..], utf8).used
      decreases |all| - k
    {
      ghost var b := all[k..];
      var step, after := ReadFrame(rest, utf8);
      if step.Halt? {
        assert Frames(b, utf8) == Reading([], step.stop, Consumed(b, utf8));
        assert shown + [] == shown;
        assert all[k..][Consumed(b, utf8)..] == all[k + Consumed(b, utf8)..];
        return shown, step.stop, after;
      }
      ghost var used := Consumed(b, utf8);
      ghost var more := Frames(b[used..], utf8);
      assert Frames(b, utf8) == Reading([step.body] + more.bodies, more.stop, used + more.used);
      assert b[used..] == all[k + used..];
      AppendAssoc(shown, [step.body], more.bodies);
      shown := shown + [step.body];
      rest := after;
      k := k + used;
    }
  }

  // ---------------------------------------------------------------------
  // Properties of the frame format.

  /** Every body shown is between 1 and MAX_BYTES bytes long and decodes
      as UTF-8, and a BadLength stop carries a length the loop refuses. */
  lemma {:induction false} FramesBounds(b: seq<byte>, utf8: seq<byte> -> bool)
    ensures forall body | body in Frames(b, utf8).bodies :: 1 <= |body| <= MAX_BYTES && utf8(body)
    ensures var stop := Frames(b, utf8).stop; stop.BadLength? ==> stop.length == 0 || stop.length > MAX_BYTES
    decreases |b|
  {
    if FrameStep(b, utf8).Next? {
      FramesBounds(b[Consumed(b, utf8)..], utf8);
    }
  }

  /** One frame as a sender lays it out: the packed length, then the body. */
  function Frame(body: seq<byte>): (r: seq<byte>)
    requires |body| < 0x1_0000_0000
    ensures |r| == HEADER + |body|
  {
    EncodeU32(|body|) + body
  }

  /** The frames of `bodies`, one after the other. */
  function Concat(bodies: seq<seq<byte>>): (r: seq<byte>)
    requires forall body | body in bodies :: |body| <= MAX_BYTES
  {
    if bodies == [] then [] else Frame(bodies[0]) + Concat(bodies[1..])
  }

  /** One pass reads a well-formed frame back whatever follows it. */
  lemma FrameStepOfFrame(body: seq<byte>, tail: seq<byte>, utf8: seq<byte> -> bool)
    requires 1 <= |body| <= MAX_BYTES && utf8(body)
    ensures FrameStep(Frame(body) + tail, utf8) == Next(body)
    ensures (Frame(body) + tail)[HEADER + |body|..] == tail
  {
    var b := Frame(body) + tail;
    assert b == EncodeU32(|body|) + (body + tail);
    assert b[..HEADER] == EncodeU32(|body|);
    DecodeEncodeU32(|body|);
    assert b[HEADER..HEADER + |body|] == body;
  }

  /** Reading a well-formed frame shows its body, then goes on with what
      follows it. */
  lemma FramesOfFrame(body: seq<byte>, tail: seq<byte>, utf8: seq<byte> -> bool)
    requires 1 <= |body| <= MAX_BYTES && utf8(body)
    ensures var more := Frames(tail, utf8);
      Frames(Frame(body) + tail, utf8) == Reading([body] + more.bodies, more.stop, HEADER + |body| + more.used)
  {
    FrameStepOfFrame(body, tail, utf8);
  }

  /** Round trip: a stream of well-formed frames followed by anything is
      read back body by body, and the reading then goes on as it would on
      the tail alone. */
  lemma {:induction false} FramesOfConcat(bodies: seq<seq<byte>>, tail: seq<byte>, utf8: seq<byte> -> bool)
    requires forall body | body in bodies :: 1 <= |body| <= MAX_BYTES && utf8(body)
    ensures var r := Frames(Concat(bodies) + tail, utf8);
      r.bodies == bodies + Frames(tail, utf8).bodies &&
      r.stop == Frames(tail, utf8).stop &&
      r.used == |Concat(bodies)| + Frames(tail, utf8).used
    decreases |bodies|
  {
    if bodies != [] {
      var body, others := bodies[0], bodies[1..];
      var c := Concat(others);
      assert Concat(bodies) == Frame(body) + c;
      AppendAssoc(Frame(body), c, tail);
      FramesOfFrame(body, c + tail, utf8);
      FramesOfConcat(others, tail, utf8);
      AppendAssoc([body], others, Frames(tail, utf8).bodies);
      assert [body] + others == bodies;
    } else {
      assert Concat(bodies) + tail == tail;
    }
  }

  /** A length prefix of zero or over MAX_BYTES ends the loop after the
      header, without showing anything and whatever follows. */
  lemma RefusedLengthStops(n: nat, tail: seq<byte>, utf8: seq<byte> -> bool)
    requires n == 0 || MAX_BYTES < n < 0x1_0000_0000
    ensures Frames(EncodeU32(n) + tail, utf8) == Reading([], BadLength(n), HEADER)
  {
    assert (EncodeU32(n) + tail)[..HEADER] == EncodeU32(n);
    DecodeEncodeU32(n);
  }

  /** The buffer Message(body) builds carries a zero header, since
      encode_header never writes the length; read as a frame it therefore
      stops the client's loop at once. */
  lemma MessageBufferStopsClient(body: seq<byte>, tail: seq<byte>, utf8: seq<byte> -> bool)
    ensures Frames(Zeros(HEADER) + body[..NewBodyLength(|body|)] + tail, utf8) == Reading([], BadLength(0), HEADER)
  {
    assert Zeros(HEADER) == EncodeU32(0);
    AppendAssoc(Zeros(HEADER), body[..NewBodyLength(|body|)], tail);
    RefusedLengthStops(0, body[..NewBodyLength(|body|)] + tail, utf8);
  }
}
