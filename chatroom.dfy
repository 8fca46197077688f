// The participants, the room and the sessions of chatroom.py. The room's
// membership list and both deques are fields that the methods reassign; a
// session's `async_write` is a sink that records what it was handed.
module ChatRoom {
  import opened Bytes
  import opened Framing

  // ---------------------------------------------------------------------
  // Sequence helpers: list.remove and the members a broadcast reaches.

  /** Position of the first occurrence of `x` in `s`. */
  function IndexOf<T(==)>(s: seq<T>, x: T): (i: nat)
    requires x in s
    ensures i < |s| && s[i] == x
    ensures x !in s[..i]
  {
    if s[0] == x then 0
    else
      var j := IndexOf(s[1..], x);
      assert s[..j + 1] == [s[0]] + s[1..][..j];
      j + 1
  }

  /** `list.remove(x)`: drops the first occurrence of `x`. */
  function RemoveFirst<T(==)>(s: seq<T>, x: T): (r: seq<T>)
    requires x in s
    ensures |r| == |s| - 1
  {
    var i := IndexOf(s, x);
    s[..i] + s[i + 1..]
  }

  /** The elements of `s` other than `x`, in their order in `s`. */
  function Without<T(==)>(s: seq<T>, x: T): (r: seq<T>)
  {
    if s == [] then []
    else
      var last := s[|s| - 1];
      Without(s[..|s| - 1], x) + (if last != x then [last] else [])
  }

  /** Extending the list by one member extends what a broadcast reaches by
      that member, unless it is the sender. */
  lemma WithoutSnoc<T>(s: seq<T>, j: nat, x: T)
    requires j < |s|
    ensures Without(s[..j + 1], x) == Without(s[..j], x) + (if s[j] != x then [s[j]] else [])
  {
    assert s[..j + 1][..j] == s[..j];
  }

  /** `k` copies of `x`, one after the other. */
  function Repeat<T>(x: seq<T>, k: nat): (r: seq<T>)
    ensures k == 0 ==> r == []
  {
    if k == 0 then [] else Repeat(x, k - 1) + x
  }

  /** No element occurs twice. */
  predicate Distinct<T(==)>(s: seq<T>)
  {
    forall i, j | 0 <= i < j < |s| :: s[i] != s[j]
  }

  /** Removing the first occurrence takes exactly one copy of `x` out and
      keeps every other element. */
  lemma {:induction false} RemoveFirstMultiset<T>(s: seq<T>, x: T)
    requires x in s
    ensures multiset(RemoveFirst(s, x)) == multiset(s) - multiset{x}
  {
    var i := IndexOf(s, x);
    assert s == s[..i] + [x] + s[i + 1..];
    calc {
      multiset(s);
      multiset(s[..i]) + multiset{x} + multiset(s[i + 1..]);
      multiset(RemoveFirst(s, x)) + multiset{x};
    }
  }

  /** The members before the removed one keep their places, and the ones
      after it move up by one. */
  lemma {:induction false} RemoveFirstOrder<T>(s: seq<T>, x: T)
    requires x in s
    ensures var i := IndexOf(s, x); var r := RemoveFirst(s, x);
      (forall k | 0 <= k < i :: r[k] == s[k]) &&
      (forall k | i <= k < |r| :: r[k] == s[k + 1])
  {
  }

  /** Leaving right after joining restores a list the participant was not in. */
  lemma {:induction false} LeaveUndoesJoin<T>(s: seq<T>, x: T)
    requires x !in s
    ensures RemoveFirst(s + [x], x) == s
  {
    assert (s + [x])[..|s|] == s;
  }

  /** Number of occurrences of `x` in `s`. */
  function Count<T(==)>(s: seq<T>, x: T): nat
  {
    if s == [] then 0 else Count(s[..|s| - 1], x) + (if s[|s| - 1] == x then 1 else 0)
  }

  /** Counting over one more element adds one exactly when it is `x`. */
  lemma CountSnoc<T>(s: seq<T>, j: nat, x: T)
    requires j < |s|
    ensures Count(s[..j + 1], x) == Count(s[..j], x) + (if s[j] == x then 1 else 0)
  {
    assert s[..j + 1][..j] == s[..j];
  }

  /** `Count` is the multiplicity of `x` in the multiset of `s`. */
  lemma {:induction false} CountIsMultiplicity<T>(s: seq<T>, x: T)
    ensures Count(s, x) == multiset(s)[x]
    decreases |s|
  {
    if s != [] {
      var init, last := s[..|s| - 1], s[|s| - 1];
      assert s == init + [last];
      CountIsMultiplicity(init, x);
    }
  }

  /** How many times a broadcast from `sender` over the list `s` writes to
      `p`: once per occurrence, and never to the sender. */
  function Times<T(==)>(s: seq<T>, sender: T, p: T): nat
  {
    if p == sender then 0 else Count(s, p)
  }

  /** Extending the list by one member adds one write for that member,
      unless it is the sender. */
  lemma TimesSnoc<T>(s: seq<T>, j: nat, sender: T)
    requires j < |s|
    ensures forall q ::
      Times(s[..j + 1], sender, q) == Times(s[..j], sender, q) + (if q == s[j] && s[j] != sender then 1 else 0)
  {
    assert s[..j + 1][..j] == s[..j];
  }

  /** A member is written to as often as it occurs among the members a
      broadcast reaches. */
  lemma {:induction false} TimesIsCountInWithout<T>(s: seq<T>, sender: T, p: T)
    ensures Times(s, sender, p) == Count(Without(s, sender), p)
    decreases |s|
  {
    if s != [] {
      var init, last := s[..|s| - 1], s[|s| - 1];
      assert s[..|s| - 1] == init;
      TimesIsCountInWithout(init, sender, p);
      var w := Without(init, sender);
      var tail := if last != sender then [last] else [];
      assert Without(s, sender) == w + tail;
      CountAppend(w, tail, p);
    }
  }

  /** Counting over a concatenation adds the counts. */
  lemma {:induction false} CountAppend<T>(a: seq<T>, b: seq<T>, x: T)
    ensures Count(a + b, x) == Count(a, x) + Count(b, x)
    decreases |b|
  {
    if b != [] {
      var init := b[..|b| - 1];
      assert (a + b)[..|a + b| - 1] == a + init;
      CountAppend(a, init, x);
    } else {
      assert a + b == a;
    }
  }

  /** A broadcast never reaches the sender and reaches only members. */
  lemma {:induction false} WithoutExcludes<T>(s: seq<T>, x: T)
    ensures x !in Without(s, x)
    ensures forall y | y in Without(s, x) :: y in s
    decreases |s|
  {
    if s != [] {
      var init := s[..|s| - 1];
      WithoutExcludes(init, x);
      assert forall y | y in init :: y in s;
    }
  }

  /** When `x` is not a member, every member is reached, in list order. */
  lemma {:induction false} WithoutAbsent<T>(s: seq<T>, x: T)
    requires x !in s
    ensures Without(s, x) == s
    decreases |s|
  {
    if s != [] {
      assert s == s[..|s| - 1] + [s[|s| - 1]];
      WithoutAbsent(s[..|s| - 1], x);
    }
  }

  /** In a list without duplicates a member occurs once. */
  lemma {:induction false} DistinctCount<T>(s: seq<T>, y: T)
    requires Distinct(s) && y in s
    ensures Count(s, y) == 1
    decreases |s|
  {
    var init, last := s[..|s| - 1], s[|s| - 1];
    assert s == init + [last];
    if last == y {
      assert y !in init by {
        forall k | 0 <= k < |init| ensures init[k] != y {
          assert s[k] == init[k];
        }
      }
      CountAbsent(init, y);
    } else {
      DistinctCount(init, y);
    }
  }

  /** An element that does not occur is counted zero times. */
  lemma {:induction false} CountAbsent<T>(s: seq<T>, y: T)
    requires y !in s
    ensures Count(s, y) == 0
    decreases |s|
  {
    if s != [] {
      assert s[..|s| - 1] <= s;
      CountAbsent(s[..|s| - 1], y);
    }
  }

  /** With no duplicate members, a broadcast writes once to each member
      other than the sender and never to the sender. */
  lemma BroadcastOncePerOtherMember<T>(s: seq<T>, sender: T, p: T)
    requires Distinct(s) && p in s
    ensures Times(s, sender, p) == if p == sender then 0 else 1
  {
    if p != sender {
      DistinctCount(s, p);
    }
  }

  // ---------------------------------------------------------------------
  // What a session's mailbox hands to async_write.

  /** The arguments of one async_write call: the buffer and its body length. */
  datatype Outgoing = Outgoing(body: seq<byte>, length: nat)

  /** What Session.write forwards for one buffer whose header value is `h`:
      the buffer with that length when the header validates, and nothing
      otherwise. */
  function Forward(d: seq<byte>, h: nat): (r: seq<Outgoing>)
    ensures |r| <= 1
    ensures r != [] <==> h <= MAX_BYTES
    ensures r != [] ==> r[0] == Outgoing(d, h)
  {
    if h <= MAX_BYTES then [Outgoing(d, NewBodyLength(h))] else []
  }

  // ---------------------------------------------------------------------
  // The classes.

  /** A participant keeps the last message written to it. */
  class Participant {
    var message: Message?

    constructor ()
      ensures message == null
    {
      message := null;
    }

    /** write: wraps the text in a new Message, replacing the previous one. */
    method Write(body: seq<byte>)
      modifies this
      ensures message != null && fresh(message) && message.Valid()
      ensures message.bodyLength == NewBodyLength(|body|)
      ensures message.data == Zeros(HEADER) + body[..message.bodyLength]
    {
      message := new Message(body);
      assert message.data == message.data[..HEADER] + message.data[HEADER..];
    }

    /** deliver: hands back the stored message. */
    method Deliver() returns (m: Message?)
      ensures m == message
    {
      m := message;
    }
  }

  /** Two writes then a deliver: the second write wins. */
  method LastWriteWins(p: Participant, first: seq<byte>, second: seq<byte>) returns (m: Message?)
    modifies p
    ensures m == p.message && m != null
    ensures m.bodyLength == NewBodyLength(|second|)
    ensures m.data == Zeros(HEADER) + second[..NewBodyLength(|second|)]
  {
    p.Write(first);
    p.Write(second);
    m := p.Deliver();
  }

  class Session {
    /** The room this session belongs to, fixed when it is created. */
    const room: Room
    /** The outgoing deque. */
    var messageQueue: seq<Message>
    /** Every (buffer, body length) pair handed to async_write, oldest first. */
    var written: seq<Outgoing>

    /** Between calls the mailbox has been drained. */
    ghost predicate Valid()
      reads this
    {
      messageQueue == []
    }

    constructor (room: Room)
      ensures Valid() && this.room == room && written == []
    {
      this.room := room;
      messageQueue := [];
      written := [];
    }

    /** start: joins the room; async_read does nothing. */
    method Start()
      requires Valid() && room.Valid()
      modifies room`participants
      ensures room.Valid()
      ensures room.participants == old(room.participants) + [this]
    {
      room.Join(this);
      AsyncRead();
    }

    /** write: queues the message, then drains the queue in FIFO order,
        decoding each header and forwarding only the messages whose header
        validates. The queue is empty on entry, since every write drains it
        before returning. */
    method Write(message: Message, parse: seq<byte> -> nat)
      requires Valid() && message.Valid()
      modifies this`messageQueue, this`written, message`bodyLength
      ensures Valid() && message.Valid()
      ensures message.bodyLength == DecodedLength(HeaderOf(message.data, parse))
      ensures written == old(written) + Forward(message.data, HeaderOf(message.data, parse))
    {
      messageQueue := messageQueue + [message];
      ghost var w0 := written;
      while messageQueue != []
        invariant messageQueue == [] || messageQueue == [message]
        invariant message.Valid()
        invariant messageQueue != [] ==> written == w0
        invariant messageQueue == [] ==>
          written == w0 + Forward(message.data, HeaderOf(message.data, parse)) &&
          message.bodyLength == DecodedLength(HeaderOf(message.data, parse))
        decreases |messageQueue|
      {
        var m := messageQueue[0];
        messageQueue := messageQueue[1..];
        var ok := m.DecodeHeader(parse);
        if ok {
          AsyncWrite(m.data, NewBodyLength(m.bodyLength));
        }
      }
    }

    /** deliver: broadcasts the message to the rest of the room. */
    method Deliver(message: Message, parse: seq<byte> -> nat)
      requires room.Valid() && message.Valid()
      modifies room`messageQueue, room`recipients, message, set p | p in room.participants
      ensures room.Valid() && room.participants == old(room.participants)
      ensures message.Valid() && message.data == old(message.data)
      ensures room.recipients == old(room.recipients) + Without(room.participants, this)
      ensures forall p | p in room.participants ::
        p.written == old(p.written) + Repeat(Forward(message.data, HeaderOf(message.data, parse)), Times(room.participants, this, p))
      ensures message.bodyLength ==
        if Without(room.participants, this) != [] then DecodedLength(HeaderOf(message.data, parse)) else old(message.bodyLength)
    {
      room.Deliver(this, message, parse);
    }

    /** async_write: a sink that records its arguments. */
    method AsyncWrite(body: seq<byte>, bodyLength: nat)
      modifies this`written
      ensures written == old(written) + [Outgoing(body, bodyLength)]
    {
      written := written + [Outgoing(body, bodyLength)];
    }

    /** async_read: does nothing. */
    method AsyncRead()
      ensures unchanged(this)
    {
    }
  }

  class Room {
    /** The room's deque of messages waiting to be broadcast. */
    var messageQueue: seq<Message>
    /** The membership list, in joining order. */
    var participants: seq<Session>
    /** Every member a broadcast has written to, in the order of the writes. */
    ghost var recipients: seq<Session>

    /** Between calls the room's deque and every member's mailbox are empty. */
    ghost predicate Valid()
      reads this, set p | p in participants
    {
      messageQueue == [] && forall p | p in participants :: p.Valid()
    }

    constructor ()
      ensures Valid() && participants == [] && recipients == []
    {
      messageQueue := [];
      participants := [];
      recipients := [];
    }

    /** join: appends the participant at the end of the list. */
    method Join(p: Session)
      requires Valid() && p.Valid()
      modifies this`participants
      ensures Valid()
      ensures participants == old(participants) + [p]
    {
      participants := participants + [p];
    }

    /** leave: removes the first occurrence of the participant; `ok` is false
        where list.remove raises because it is not a member, and then
        nothing changes. */
    method Leave(p: Session) returns (ok: bool)
      requires Valid()
      modifies this`participants
      ensures Valid()
      ensures ok <==> p in old(participants)
      ensures ok ==> participants == RemoveFirst(old(participants), p)
      ensures !ok ==> participants == old(participants)
    {
      if p in participants {
        participants := RemoveFirst(participants, p);
        ok := true;
      } else {
        ok := false;
      }
    }

    /** deliver: queues the message, then drains the queue, broadcasting
        each message to the members other than the sender. */
    method Deliver(sender: Session, message: Message, parse: seq<byte> -> nat)
      requires Valid() && message.Valid()
      modifies this`messageQueue, this`recipients, message, set p | p in participants
      ensures Valid() && participants == old(participants)
      ensures message.Valid() && message.data == old(message.data)
      ensures recipients == old(recipients) + Without(participants, sender)
      ensures forall p | p in participants ::
        p.written == old(p.written) + Repeat(Forward(message.data, HeaderOf(message.data, parse)), Times(participants, sender, p))
      ensures message.bodyLength ==
        if Without(participants, sender) != [] then DecodedLength(HeaderOf(message.data, parse)) else old(message.bodyLength)
    {
      messageQueue := messageQueue + [message];
      ghost var done := false;
      while messageQueue != []
        invariant messageQueue == if done then [] else [message]
        invariant message.Valid() && message.data == old(message.data)
        invariant forall p | p in participants :: p.Valid()
        invariant !done ==> recipients == old(recipients)
        invariant !done ==> message.bodyLength == old(message.bodyLength)
        invariant done ==>
          message.bodyLength == if Without(participants, sender) != [] then DecodedLength(HeaderOf(message.data, parse)) else old(message.bodyLength)
        invariant !done ==> forall p | p in participants :: p.written == old(p.written)
        invariant done ==> recipients == old(recipients) + Without(participants, sender)
        invariant done ==> forall p | p in participants ::
          p.written == old(p.written) + Repeat(Forward(message.data, HeaderOf(message.data, parse)), Times(participants, sender, p))
        decreases |messageQueue|
      {
        var msg := messageQueue[0];
        messageQueue := messageQueue[1..];
        Broadcast(sender, msg, parse);
        done := true;
      }
    }

    /** After visiting the first `j` members, each member's log is its log
        `w0` from before the broadcast followed by one copy of `out` per
        write it has received. */
    ghost predicate Reached(sender: Session, w0: map<Session, seq<Outgoing>>, out: seq<Outgoing>, j: nat)
      requires j <= |participants|
      reads this, set p | p in participants
    {
      forall p | p in participants ::
        p in w0 && p.Valid() && p.written == w0[p] + Repeat(out, Times(participants[..j], sender, p))
    }

    /** The body of deliver's drain loop: writes `msg` to every member other
        than the sender, in membership order. */
    method Broadcast(sender: Session, msg: Message, parse: seq<byte> -> nat)
      requires msg.Valid() && forall p | p in participants :: p.Valid()
      modifies this`recipients, msg`bodyLength, set p | p in participants
      ensures msg.Valid() && forall p | p in participants :: p.Valid()
      ensures recipients == old(recipients) + Without(participants, sender)
      ensures forall p | p in participants ::
        p.written == old(p.written) + Repeat(Forward(msg.data, HeaderOf(msg.data, parse)), Times(participants, sender, p))
      ensures msg.bodyLength ==
        if Without(participants, sender) != [] then DecodedLength(HeaderOf(msg.data, parse)) else old(msg.bodyLength)
    {
      ghost var out := Forward(msg.data, HeaderOf(msg.data, parse));
      ghost var w0 := map p | p in participants :: p.written;
      for j := 0 to |participants|
        invariant msg.Valid() && msg.data == old(msg.data)
        invariant recipients == old(recipients) + Without(participants[..j], sender)
        invariant Reached(sender, w0, out, j)
        invariant msg.bodyLength ==
          if Without(participants[..j], sender) != [] then DecodedLength(HeaderOf(msg.data, parse)) else old(msg.bodyLength)
      {
        WithoutSnoc(participants, j, sender);
        Visit(sender, msg, parse, j, w0, out);
      }
      assert participants[..|participants|] == participants;
    }

    /** One step of the broadcast: the member at position `j` receives the
        message unless it is the sender. */
    method Visit(sender: Session, msg: Message, parse: seq<byte> -> nat, j: nat,
                 ghost w0: map<Session, seq<Outgoing>>, ghost out: seq<Outgoing>)
      requires j < |participants| && msg.Valid()
      requires out == Forward(msg.data, HeaderOf(msg.data, parse))
      requires Reached(sender, w0, out, j)
      modifies this`recipients, msg`bodyLength, set p | p in participants
      ensures msg.Valid()
      ensures recipients == old(recipients) + (if participants[j] != sender then [participants[j]] else [])
      ensures Reached(sender, w0, out, j + 1)
      ensures msg.data == old(msg.data)
      ensures msg.bodyLength ==
        if participants[j] != sender then DecodedLength(HeaderOf(msg.data, parse)) else old(msg.bodyLength)
    {
      var p := participants[j];
      if p != sender {
        ghost var c := Times(participants[..j], sender, p);
        p.Write(msg, parse);
        recipients := recipients + [p];
        AppendAssoc(w0[p], Repeat(out, c), out);
      }
      // Participant.deliver() takes no argument here and Session.deliver
      // needs one; the call does nothing in this model.
      TimesSnoc(participants, j, sender);
    }
  }
}
