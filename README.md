# chat-room in Dafny

A model of the sequential core of the chat-room repository: the message
buffer of `message.py`, the room, participants and sessions of
`chatroom.py`, and the frame reader of `client.py`.

- `bytes.dfy` (module `Bytes`): the `byte` type, `Option` (Python's `None`
  or a value) and associativity of concatenation.
- `framing.dfy` (module `Framing`): `HEADER = 4` and `MAX_BYTES = 512`.
  `Message` is a class whose `data` buffer and `bodyLength` are updated in
  place. The buffer is a `seq<byte>` that slice assignment rewrites, so it
  may grow or shrink as a Python `bytearray` does. `encode_header` writes
  zero bytes into the header and never the length. `decode_header` checks
  a header value against `MAX_BYTES`.
- `chatroom.dfy` (module `ChatRoom`): `Participant`, `Session` and `Room`
  are classes. The membership list and both deques are `seq` fields.
  `async_write` is a sink that records each buffer and length it is handed
  in `Session.written`. A ghost log `Room.recipients` records, in order,
  every member that a broadcast wrote to. `Room.Deliver` drains its deque
  with a `while` loop. Each pass walks the membership list with a `for`
  loop (`Broadcast`), and each iteration is one member (`Visit`).
- `client.dfy` (module `Client`): the socket is a value, the list of chunks
  that successive `recv` calls return. An empty chunk means the peer closed
  the connection. `RecvExact` and `ReceiveMessages` are loops over that
  value. They are proved against the functions `Available` (every byte the
  socket will still deliver) and `Frames` (what the reader makes of those
  bytes).

The two header formats of the repository disagree. The server side writes
four zero bytes, and its `decode_header` reads the header as decimal text.
The client reads a big-endian unsigned 32-bit length. The model keeps both
as written. `Client.MessageBufferStopsClient` shows the consequence: a
buffer built by `Message(body)`, read as a frame, stops the client's loop
at once with a zero length.

Three behaviours of the code that the model keeps as written:
- `leave` of an absent participant raises `ValueError` (`list.remove`).
  `Room.Leave` reports it with `ok == false` and changes nothing; a second
  `leave` is therefore not a no-op.
- Membership is a list that `join` appends to, so a session that joins
  twice is a member twice, and a broadcast writes to it twice (`Times`).
- A broadcast does not just enqueue: `Room.deliver` calls each member's
  `write`, which drains that member's queue before returning. Every such
  `write` decodes the header of the one shared message, so after a
  broadcast that reaches anyone its body length is the decoded length.

## Model

| member | source | states |
|---|---|---|
| Framing.NewBodyLength | message.py:19-23 | the clamped length is at most MAX_BYTES and at most the request, and it is the request or MAX_BYTES |
| Framing.NewBodyLengthIdempotent | message.py:19-23 | clamping twice equals clamping once; a length is left unchanged exactly when it is at most MAX_BYTES |
| Framing.SliceAssign | message.py:17 | `s[lo:hi] = v` keeps the bytes before `lo`, puts `v` next, then the bytes from `hi`, so the length changes by `|v| - (hi - lo)` |
| Framing.DecodedLength | message.py:36-41 | the body length after a decode is the header value when that is at most MAX_BYTES, and 0 otherwise |
| Framing.Message.Empty | message.py:10-13 | `Message()` has a zeroed buffer of HEADER + MAX_BYTES bytes and body length 0 |
| Framing.Message.constructor | message.py:10-17 | `Message(body)` has body length min(len(body), MAX_BYTES) and a zero header. The bytes after the header are exactly the kept body, so the buffer is HEADER + body length long |
| Framing.Message.EncodeHeader | message.py:25-29 | the header becomes zero bytes, every body byte and the buffer length are unchanged, and the buffer is returned |
| Framing.Message.DecodeHeader | message.py:31-41 | returns true exactly when the header value is at most MAX_BYTES, and then stores it as the body length. Otherwise it stores 0. The invariant `bodyLength <= MAX_BYTES` holds afterwards |
| ChatRoom.Participant.constructor | chatroom.py:14-15 | a new participant holds no message |
| ChatRoom.Participant.Write | chatroom.py:17-18 | the stored message is a new `Message(body)`: clamped length, zero header, truncated body |
| ChatRoom.Participant.Deliver | chatroom.py:20-21 | returns the stored message |
| ChatRoom.LastWriteWins | chatroom.py:17-21 | after two writes, deliver returns the stored message, and it is the one built from the second body: its clamped length and its zero header followed by the kept body |
| ChatRoom.Room.constructor | chatroom.py:27-29 | a new room has no members and an empty deque |
| ChatRoom.Room.Join | chatroom.py:31-32 | the participant is appended after the existing members, whose order is kept |
| ChatRoom.Room.Leave | chatroom.py:34-35 | succeeds exactly when the participant is a member, and then removes its first occurrence. Otherwise the list is unchanged |
| ChatRoom.RemoveFirst | chatroom.py:35 | `list.remove` shortens the list by one |
| ChatRoom.RemoveFirstMultiset | chatroom.py:35 | `list.remove` takes exactly one copy of the participant out and keeps every other member |
| ChatRoom.RemoveFirstOrder | chatroom.py:35 | members before the removed one keep their positions, and those after it move up by one |
| ChatRoom.LeaveUndoesJoin | chatroom.py:31-35 | for a participant not yet a member, join followed by leave restores the list |
| ChatRoom.Room.Deliver | chatroom.py:37-45 | drains the deque and keeps the membership list. The ghost log grows by exactly the members other than the sender, in membership order. Each member's async_write log grows by the forwarded message once per occurrence in the list, and the sender's log does not grow. The message's buffer is unchanged; its body length is the decoded length when anyone was reached, and unchanged otherwise |
| ChatRoom.Room.Broadcast | chatroom.py:42-45 | one pass over the membership list writes to every member other than the sender, in list order, once per occurrence; the message's body length is the decoded length when anyone was reached, and unchanged otherwise |
| ChatRoom.Room.Visit | chatroom.py:43-45 | the member at position `j` is written to exactly when it is not the sender, and no other log changes; the message's body length becomes the decoded length exactly when that write happens |
| ChatRoom.WithoutExcludes | chatroom.py:43 | a broadcast never reaches its sender and reaches only members |
| ChatRoom.WithoutAbsent | chatroom.py:42-44 | a sender that is not a member reaches every member, in list order |
| ChatRoom.TimesIsCountInWithout | chatroom.py:42-44 | the number of writes a member receives equals the number of times it occurs among the members reached |
| ChatRoom.CountIsMultiplicity | chatroom.py:42-44 | the occurrence count used for writes is the multiplicity of the member in the list |
| ChatRoom.BroadcastOncePerOtherMember | chatroom.py:42-44 | with no duplicate members, each member other than the sender is written to exactly once, and the sender never |
| ChatRoom.Forward | chatroom.py:67-72 | a buffer is forwarded, once and with its header value as the length, exactly when that value is at most MAX_BYTES. Otherwise it is dropped |
| ChatRoom.Session.constructor | chatroom.py:52-57 | a new session belongs to its room and has an empty deque and an empty write log |
| ChatRoom.Session.Start | chatroom.py:59-61 | starting a session appends it to its room's membership list |
| ChatRoom.Session.Write | chatroom.py:63-72 | the deque is drained. The message's body length becomes its decoded length. The async_write log grows by the buffer exactly when its header validates |
| ChatRoom.Session.Deliver | chatroom.py:74-75 | delivering from a session is a room broadcast with that session as the sender, with the same logs and the same final body length of the message |
| ChatRoom.Session.AsyncWrite | chatroom.py:78-79 | the buffer and length handed over are appended to the log |
| ChatRoom.Session.AsyncRead | chatroom.py:81-82 | reading does nothing: the session is unchanged |
| Client.Recv | client.py:12 | one recv returns at most the requested number of bytes, in stream order. It returns nothing exactly when the request is 0 or the socket is closed |
| Client.RecvExact | client.py:9-16 | returns exactly the next `n` bytes when the stream holds that many, and None otherwise. For `n = 0` it returns the empty buffer without reading |
| Client.BeU32 | client.py:25 | the big-endian value of four bytes is below 2^32 |
| Client.DecodeEncodeU32 | client.py:25 | unpacking the packed form of a 32-bit length gives the length |
| Client.EncodeDecodeU32 | client.py:25 | packing the unpacked header gives the header |
| Client.FrameStep | client.py:21-36 | a pass shows a body only after a full header whose length is in 1..MAX_BYTES and a full body of that length that decodes. A refused length is 0 or over MAX_BYTES |
| Client.Consumed | client.py:21-31 | a pass takes at most the bytes available, and a whole frame when it shows a body |
| Client.ReadFrame | client.py:20-40 | one pass of the loop yields the outcome `FrameStep` gives for the bytes available, and it consumes `Consumed` bytes |
| Client.Frames | client.py:19-40 | the reader consumes at most the bytes available |
| Client.ReceiveMessages | client.py:18-40 | the bodies shown, the reason for stopping and the bytes left on the socket are those that `Frames` gives for the bytes available |
| Client.FramesBounds | client.py:26-34 | every body shown is 1 to MAX_BYTES bytes long and decodes as UTF-8. A refused length is 0 or over MAX_BYTES |
| Client.FrameStepOfFrame | client.py:21-31 | a well-formed frame is read back as its body, and the pass ends where the frame ends |
| Client.FramesOfFrame | client.py:19-36 | after a well-formed frame the reader shows its body and goes on with the bytes that follow |
| Client.FramesOfConcat | client.py:19-36 | a stream of well-formed frames followed by any tail is read back body by body, in order. The reader then behaves as it would on the tail alone |
| Client.RefusedLengthStops | client.py:26-27 | a length prefix of 0 or over MAX_BYTES stops the reader after the header, with nothing shown |
| Client.MessageBufferStopsClient | client.py:25-27 | a buffer built by `Message(body)` has a zero header, so the reader stops on it at once |

## Left out

- The curses interface of `client.py` (`main`, window drawing, input) is not modelled. It is terminal presentation. Displaying a body is modelled as appending it to `shown`.
- Sockets, `connect`, `sendall`, `close` and `ChatServer` (bind, listen, accept) are not modelled. They are network I/O. The client's socket is the chunk list `Stream`.
- Threads and concurrent join, leave and broadcast are not modelled. The model is sequential.
- `print` calls are left out. This includes the length printed by `encode_header` and the "message too long" line of `Session.write`.
- UTF-8 decoding is the parameter `utf8`, which says whether a body decodes. The decoded text itself is not modelled.
- The exception handler of `receive_messages` is modelled only for a failed decode (`BadText`). Socket and terminal errors are not modelled.
- `MAX_PARTICIPANTS` is defined but never enforced, so the model has no capacity check.
- `get_data`, which `client.py` calls but the repository does not define, is not part of this model.
- Framing.Message.DecodeHeader: what `int()` reads from the header bytes is the function parameter `parse`, which yields a natural number. The header's text form, a negative value, and the exceptions raised by `int()` and by the `str` assignment into the bytearray are not modelled.
- Framing.Message.constructor: the body is a byte sequence. The `str` versus `bytes` mismatch of the slice assignment is not modelled.
- ChatRoom.Room.Leave: where `list.remove` raises `ValueError`, the method returns `ok == false` and leaves the list unchanged. It does not model the exception propagating.
- ChatRoom.Session.Write: requires the session's deque to be empty on entry. Only `write` fills the deque, and it drains it before returning, so the deque is always empty on entry in a sequential run. FIFO order among several queued messages is therefore not stated.
- ChatRoom.Session.Write: `get_new_body_length()` is called there without its argument. The model passes the decoded body length, which clamping leaves unchanged.
- ChatRoom.Room.Deliver: `p.deliver()` is called there without the message that `Session.deliver` takes. The model treats the call as doing nothing.
- ChatRoom.Room.Deliver: members are Sessions, since `Session.start` is the only caller of `join`. A plain `Participant` in a room is not modelled.
- `participants = {}` in `Room.__init__` is used as a list everywhere, so it is modelled as a sequence.
