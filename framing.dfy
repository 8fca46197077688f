// The message buffer of message.py: a fixed header followed by a body that
// is capped at MAX_BYTES. The buffer is updated in place, so a Message is a
// class whose `data` field is reassigned the way Python's slice assignment
// rewrites a bytearray.
module Framing {
  import opened Bytes

  /** Number of header bytes in front of every body. */
  const HEADER: nat := 4
  /** Largest body a message carries. */
  const MAX_BYTES: nat := 512

  /** get_new_body_length: the requested length clamped to MAX_BYTES, that is min(n, MAX_BYTES). */
  function NewBodyLength(n: nat): (r: nat)
    ensures r <= MAX_BYTES && r <= n
    ensures r == n || r == MAX_BYTES
  {
    if n > MAX_BYTES then MAX_BYTES else n
  }

  /** Clamping a clamped length changes nothing. */
  lemma NewBodyLengthIdempotent(n: nat)
    ensures NewBodyLength(NewBodyLength(n)) == NewBodyLength(n)
    ensures NewBodyLength(n) == n <==> n <= MAX_BYTES
  {
  }

  /** `bytearray(n)`: n zero bytes. */
  function Zeros(n: nat): (r: seq<byte>)
    ensures |r| == n
    ensures forall i | 0 <= i < n :: r[i] == 0
  {
    seq(n, _ => 0)
  }

  /** Python's `s[lo:hi] = v` on a bytearray: the slice is replaced by `v`,
      so the buffer grows or shrinks by the difference in length. */
  function SliceAssign(s: seq<byte>, lo: nat, hi: nat, v: seq<byte>): (r: seq<byte>)
    requires lo <= hi <= |s|
    ensures |r| == |s| - (hi - lo) + |v|
    ensures r[..lo] == s[..lo]
    ensures r[lo..lo + |v|] == v
    ensures r[lo + |v|..] == s[hi..]
  {
    s[..lo] + v + s[hi..]
  }

  /** The body length decode_header stores for a header whose value is `h`:
      the value itself, or 0 when it is over the cap. */
  function DecodedLength(h: nat): (r: nat)
    ensures r <= MAX_BYTES
    ensures h <= MAX_BYTES ==> r == h
    ensures h > MAX_BYTES ==> r == 0
  {
    if h > MAX_BYTES then 0 else h
  }

  /** The value of the header at the front of buffer `d`, where `parse` is
      what Python's int() makes of the header bytes. */
  function HeaderOf(d: seq<byte>, parse: seq<byte> -> nat): nat
    requires |d| >= HEADER
  {
    parse(d[..HEADER])
  }

  class Message {
    /** The buffer: HEADER header bytes, then the body. */
    var data: seq<byte>
    /** Number of body bytes the message claims to carry. */
    var bodyLength: nat

    ghost predicate Valid()
      reads this
    {
      HEADER <= |data| <= HEADER + MAX_BYTES && bodyLength <= MAX_BYTES
    }

    /** `Message()`: a zeroed buffer of full capacity and an empty body. */
    constructor Empty()
      ensures Valid()
      ensures data == Zeros(HEADER + MAX_BYTES) && bodyLength == 0
    {
      data := Zeros(HEADER + MAX_BYTES);
      bodyLength := 0;
    }

    /** `Message(body)`: the body is truncated to MAX_BYTES and replaces every
        byte after the header, so the buffer ends where the kept body ends. */
    constructor (body: seq<byte>)
      ensures Valid()
      ensures bodyLength == NewBodyLength(|body|)
      ensures data[..HEADER] == Zeros(HEADER)
      ensures data[HEADER..] == body[..bodyLength]
      ensures |data| == HEADER + bodyLength
    {
      data := Zeros(HEADER + MAX_BYTES);
      bodyLength := NewBodyLength(|body|);
      new;
      var header := EncodeHeader();
      data := SliceAssign(data, HEADER, HEADER + MAX_BYTES, body[..bodyLength]);
    }

    /** encode_header: overwrites the header with zero bytes (the length is
        only printed, never written) and returns the buffer. */
    method EncodeHeader() returns (r: seq<byte>)
      requires Valid()
      modifies this`data
      ensures Valid()
      ensures |data| == |old(data)|
      ensures data[..HEADER] == Zeros(HEADER)
      ensures data[HEADER..] == old(data)[HEADER..]
      ensures r == data
    {
      var newHeader := Zeros(HEADER + 1);
      data := SliceAssign(data, 0, HEADER, newHeader[..HEADER]);
      r := data;
    }

    /** decode_header: `parse` is the integer that Python's int() reads from
        the header bytes. A value over MAX_BYTES is refused and resets the
        body length; any other value becomes the body length. */
    method DecodeHeader(parse: seq<byte> -> nat) returns (ok: bool)
      requires Valid()
      modifies this`bodyLength
      ensures Valid()
      ensures ok <==> HeaderOf(data, parse) <= MAX_BYTES
      ensures ok ==> bodyLength == HeaderOf(data, parse)
      ensures !ok ==> bodyLength == 0
      ensures bodyLength == DecodedLength(HeaderOf(data, parse))
    {
      var headerValue := HeaderOf(data, parse);
      if headerValue > MAX_BYTES {
        bodyLength := 0;
        ok := false;
      } else {
        bodyLength := headerValue;
        ok := true;
      }
    }
  }
}
