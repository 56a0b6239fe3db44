# fake-minecraft-server: the handshake and reply core, in Dafny

fake-minecraft-server is a TCP server that looks like a Minecraft Java-edition server. It
never lets a player in. For each connection it reads the client's first packet, the
handshake. A login request (next state 2) gets a kick message. A server-list request gets
the status packet followed by the pong packet. An illegal handshake, or one that does not
arrive in time, gets the socket destroyed.

This project models that core and proves properties of it:

- `ByteBufs`: the `ByteBuf` class, a byte buffer with a cursor. It is a class whose fields
  are the bytes and the cursor. Each read method is proved equal to a function of the bytes
  and the cursor before the call. The VarInt writer keeps its loop, proved against the
  encoding.
- `VarInt`: the VarInt format.
  - `getVarIntSize` is `Size`.
  - What `writeVarInt` emits is `Encode`.
  - The `readVarInt` loop is `DecodeFrom`.
  - Proved (`EncodeSize`, `GroupsShape`, `GroupsHead`): the encoder writes exactly `Size`
    bytes, each but the last with the continuation bit; the decoder reads every encoding back,
    wherever it sits; and a case-by-case account of when `readVarInt` succeeds, fails or
    reports incomplete data.
- `Int32`: the JavaScript bitwise arithmetic the VarInt code relies on (`x | 0`, `x >>> 0`,
  `<<`, `|`), written out on unbounded integers.
- `Handshakes`: `readHandshake`, as a function and as the source's sequence of reads on a
  `ByteBuf`.
  - Proved: what a successful read guarantees, when it waits for more data, when it fails,
    and that every handshake a client can send is read back.
- `Packets`: `writeStringPacket` (the kick and status replies) and `PACKET_PONG`, each
  built the way the source builds it.
  - Proved: they have the expected bytes, and a client reads them back.
- `Connection`: the `data` handler and the handshake timeout of a connection.
  - The handler is modelled both as a step function on an observable state and as a class
    that mirrors the source's closure.
  - Proved: over any sequence of data chunks and timer events, the server sends nothing or
    exactly the one reply the parsed handshake asks for.
- `Address`: `formatAddress`, how an address is logged.

Strings that travel over the wire are modelled as their UTF-8 bytes (`seq<byte>`). A
`readString` result is the undecoded bytes. A string given to `writeStringPacket` is given
already encoded.

The handshake reader has a check meant to wait for the rest of a packet once its length is
known: `packetLen > buf.length` (src/mc-protocol.js:202). It compares the number with the
buffer's `length` method rather than with the method's result. A number compared with a
function is never greater, so the branch never fires, and the model leaves it out for that
reason. As a consequence, a handshake whose length prefix arrives alone in a first chunk is
rejected, not waited for (`Handshakes.EndsAfterPrefixRejected`,
`Connection.LengthAloneDestroys`). The comment beside the check says it is meant to wait
for missing data. The model follows the code.

## Model

| member | source | states |
|---|---|---|
| Int32.ToInt32 | src/mc-protocol.js:136 | `x \| 0` gives the signed 32-bit value congruent to `x` modulo 2^32; values already in range are unchanged |
| Int32.ToUint32 | src/mc-protocol.js:139 | `x >>> 0` gives the pattern in [0, 2^32) congruent to `x`; values already in range are unchanged |
| Int32.Signed | src/mc-protocol.js:102 | reading a pattern as signed inverts `>>> 0`, and is negative exactly when the top bit is set |
| Int32.ShiftLeft | src/mc-protocol.js:97 | `x << s` is congruent to x times 2^(s mod 32) modulo 2^32 |
| Int32.BitOr | src/mc-protocol.js:97 | `\|` is at least each operand and at most their sum |
| Int32.Bit | src/mc-protocol.js:97 | a bit of a number is 0 or 1 |
| Int32.ZeroBits | src/mc-protocol.js:97 | 0 has no bit set |
| Int32.BitOrBits | src/mc-protocol.js:97 | a bit of `a \| b` is set exactly when it is set in a or in b |
| Int32.BitOrPattern | src/mc-protocol.js:97 | `\|` of two 32-bit patterns is a 32-bit pattern |
| Int32.BitOrDisjoint | src/mc-protocol.js:97 | OR-ing a group into bits above the accumulated ones is addition |
| Bytes.Zeros | src/mc-protocol.js:250 | `Buffer.alloc(n)` is n zero bytes |
| VarInt.Size | src/mc-protocol.js:168-176 | getVarIntSize is between 1 and 5, and 5 for every negative `value \| 0` |
| VarInt.GroupsLength | src/mc-protocol.js:168-176 | the number of 7-bit groups of a pattern follows getVarIntSize's thresholds |
| VarInt.EncodeSize | src/mc-protocol.js:135-149 | writeVarInt writes exactly getVarIntSize(value) bytes, for every number |
| VarInt.GroupsHead | src/mc-protocol.js:138-147 | the first byte written holds the low 7 bits, with the continuation bit exactly when more groups follow |
| VarInt.GroupsShape | src/mc-protocol.js:135-149 | every encoding is a complete VarInt: continuation bit on every byte but the last |
| VarInt.DecodeFrom | src/mc-protocol.js:89-109 | the readVarInt loop never moves the cursor back or past the end, and reports Incomplete only when asked to |
| VarInt.Decode | src/mc-protocol.js:85-110 | readVarInt never moves the cursor back or past the end, and reports Incomplete only when skipIncomplete is set |
| VarInt.DecodeComplete | src/mc-protocol.js:89-109 | the readVarInt loop, over a complete VarInt within its cap, consumes it and accumulates its groups |
| VarInt.DecodeAt | src/mc-protocol.js:85-149 | readVarInt at the encoding of `value` returns `value \| 0` and stops right after it |
| VarInt.DecodeBefore | src/mc-protocol.js:85-149 | the same, for a 32-bit value followed by any bytes; the cursor is left where they start |
| VarInt.RoundTrip | src/mc-protocol.js:85-149 | readVarInt reads back writeVarInt's output wherever it sits in a buffer |
| VarInt.DecodeFromOutcome | src/mc-protocol.js:89-109 | the loop's outcome, from any intermediate state, in terms of the continuation bits it meets |
| VarInt.BeyondCapFails | src/mc-protocol.js:85-149 | readVarInt fails on the encoding of a value longer than its cap |
| VarInt.DecodeOutcome | src/mc-protocol.js:85-110 | readVarInt reads at most maxBytes bytes (at least one). It succeeds exactly when one of them ends the value. It is Incomplete exactly when skipIncomplete is set and the data runs out first. Otherwise it fails |
| ByteBufs.ReadU8At | src/mc-protocol.js:49-57 | readUnsignedByte returns the byte at the cursor and advances by one, or fails without moving when no byte is left |
| ByteBufs.ReadU16At | src/mc-protocol.js:64-72 | readUnsignedShort returns the big-endian u16 at the cursor and advances by two, or fails without moving when fewer than two bytes are left |
| ByteBufs.ReadStringAt | src/mc-protocol.js:119-128 | readString never reports incomplete data. A string it returns is within maxUtf8Bytes, follows a VarInt length equal to its size, and is the bytes right after that length |
| ByteBufs.StringBefore | src/mc-protocol.js:119-128 | readString at a length-prefixed string within both limits returns it and stops after it |
| ByteBufs.U16RoundTrip | src/mc-protocol.js:64-72 | readUnsignedShort reads back any big-endian u16, wherever it sits |
| ByteBufs.StringRoundTrip | src/mc-protocol.js:119-128 | readString reads back a string written as a VarInt length plus bytes, when it fits the limits |
| ByteBufs.WriteStep | src/mc-protocol.js:137-148 | one turn of writeVarInt's loop writes the next byte of the encoding; the last turn completes it |
| ByteBufs.ByteBuf.constructor | src/mc-protocol.js:2-5 | a new buffer is empty, with the cursor at 0 |
| ByteBufs.ByteBuf.Length | src/mc-protocol.js:12-14 | length() is the number of bytes held; an absent buffer holds none |
| ByteBufs.ByteBuf.ResetOffset | src/mc-protocol.js:28-30 | resetOffset() moves the cursor to 0 and keeps the bytes |
| ByteBufs.ByteBuf.Append | src/mc-protocol.js:37-42 | append() ignores an absent chunk; otherwise the bytes become the old bytes followed by the chunk; the cursor stays |
| ByteBufs.ByteBuf.ReadUnsignedByte | src/mc-protocol.js:49-57 | the method's result and new cursor are ReadU8At of the old state; the bytes are unchanged |
| ByteBufs.ByteBuf.ReadUnsignedShort | src/mc-protocol.js:64-72 | the method's result and new cursor are ReadU16At of the old state; the bytes are unchanged |
| ByteBufs.ByteBuf.ReadVarInt | src/mc-protocol.js:85-110 | the method's loop returns what Decode specifies for the old bytes and cursor, and leaves the cursor where it says |
| ByteBufs.ByteBuf.ReadString | src/mc-protocol.js:119-128 | the method's result and new cursor are ReadStringAt of the old state |
| ByteBufs.ByteBuf.WriteVarInt | src/mc-protocol.js:135-149 | the loop overwrites exactly getVarIntSize(value) bytes at the cursor with the encoding, leaves the rest, and moves the cursor past them |
| ByteBufs.ByteBuf.WriteRaw | src/mc-protocol.js:156-159 | writeRaw overwrites the bytes at the cursor with the data, keeps the rest, and moves the cursor past them |
| Handshakes.IndexOfNul | src/mc-protocol.js:238 | `indexOf('\0')` is -1 exactly when there is no NUL; otherwise it is the position of the first NUL |
| Handshakes.TrimAtNul | src/mc-protocol.js:237-241 | the trimmed hostname is the prefix before the first NUL, if any; it holds no NUL |
| Handshakes.DecodeHandshake | src/mc-protocol.js:193-243 | readHandshake never moves the cursor back or past the end |
| Handshakes.ReadHandshake | src/mc-protocol.js:193-243 | the method's reads on the buffer return what DecodeHandshake specifies and leave the cursor where it says; the bytes are unchanged |
| Handshakes.AcceptedReads | src/mc-protocol.js:193-243 | a handshake is read only when every read succeeds and passes its test (length at most 267, id 0, version > 0, a hostname, port 1..65535, state 1 or 2); the result is made of those fields with the hostname cut at its first NUL |
| Handshakes.PacketIdRejected | src/mc-protocol.js:206-210 | a packet whose id byte is not 0, or that ends before its id, is rejected |
| Handshakes.LongVersionRejected | src/mc-protocol.js:212-216 | a protocol version needing five VarInt bytes is rejected by readVarInt(4) |
| Handshakes.Accepted | src/mc-protocol.js:206-242 | a handshake that is read has a positive protocol version, a port in 1..65535, next state 1 or 2, and a hostname of at most 255 bytes without NUL |
| Handshakes.IncompleteOnlyInPrefix | src/mc-protocol.js:195-204 | readHandshake waits for data exactly when the buffer ends inside the length prefix |
| Handshakes.MalformedPrefixRejected | src/mc-protocol.js:195-200 | a length prefix that does not end within 2 bytes is a failure |
| Handshakes.TooLongRejected | src/mc-protocol.js:199-201 | a declared length above 267 is a failure |
| Handshakes.EndsAfterPrefixRejected | src/mc-protocol.js:202-210 | a buffer that ends right after a valid length prefix is rejected, not waited for |
| Handshakes.U16BE | src/mc-protocol.js:226 | the port is two bytes on the wire |
| Handshakes.BodyLength | src/mc-protocol.js:182 | every handshake a client can send has a body of at most 267 bytes, with a length prefix of at most 2 bytes |
| Handshakes.DecodeHandshakeOk | src/mc-protocol.js:193-243 | readHandshake succeeds when each of its reads does and passes its test; the result is built from the fields with the hostname trimmed |
| Handshakes.U16Before | src/mc-protocol.js:226 | readUnsignedShort at a big-endian port returns it |
| Handshakes.HostnameBefore | src/mc-protocol.js:220 | readString(2, 255) at a hostname of at most 255 bytes returns it |
| Handshakes.FieldsRoundTrip | src/mc-protocol.js:193-243 | readHandshake over the fields laid out in order returns them, with the hostname trimmed, and stops after the last |
| Handshakes.UntrimmedWithoutNul | src/mc-protocol.js:238-241 | a hostname without NUL is kept whole |
| Handshakes.FrameLength | src/mc-protocol.js:182 | the length of a handshake packet, field by field |
| Handshakes.FrameRoundTrip | src/mc-protocol.js:193-243 | readHandshake reads back every handshake a client can send, wherever it starts and whatever follows, with the hostname cut at its first NUL, and stops right after it |
| Handshakes.PlainFrameRoundTrip | src/mc-protocol.js:193-243 | a handshake whose hostname has no NUL is read back exactly |
| Packets.PacketLength | src/mc-protocol.js:247 | a string packet's length field counts the id, the string's length prefix and the string |
| Packets.StringPacket | src/mc-protocol.js:245-256 | a string packet is as long as its length prefix plus the length it declares |
| Packets.WriteStringPacket | src/mc-protocol.js:245-256 | the zeroed buffer, after the four writes, holds exactly the length, the id, the string's length and the string |
| Packets.FieldsReadBack | src/mc-protocol.js:251-254 | a client reads the three fields of a string packet back, one after the other |
| Packets.StringPacketReadBack | src/mc-protocol.js:245-256 | a client reads a string packet back wherever it sits: the length it declares, the id, and the string, ending right after the packet |
| Packets.U32BE | src/mc-protocol.js:262-263 | writeUInt32BE lays out four bytes |
| Packets.U32Value | src/mc-protocol.js:262-263 | four big-endian bytes stand for a value below 2^32 |
| Packets.U32RoundTrip | src/mc-protocol.js:262-263 | the big-endian layout of a 32-bit value reads back as the value |
| Packets.Pong | src/mc-protocol.js:258-265 | PACKET_PONG is 10 bytes (its bytes: PongBytes) |
| Packets.BuildPong | src/mc-protocol.js:258-265 | the 10-byte buffer after its writes is the pong packet |
| Packets.WriteUInt32BE | src/mc-protocol.js:262-263 | writeUInt32BE overwrites four bytes at the offset and keeps the rest |
| Packets.PongBytes | src/mc-protocol.js:258-265 | PACKET_PONG is 09 01 00 00 00 00 00 00 03 32 |
| Packets.PongReadBack | src/mc-protocol.js:258-265 | the pong packet declares 9 bytes after its length, has id 1, and its payload reads as 0 and 818 |
| Connection.Write | src/index.js:102 | `socket.write` adds one packet and changes nothing else |
| Connection.End | src/index.js:100-103 | `socket.end` adds one packet and closes the writable side of an open socket |
| Connection.Destroy | src/index.js:91 | `socket.destroy` sends nothing and closes a socket not yet destroyed, recording the reason |
| Connection.OnData | src/index.js:72-105 | the data handler sends only when it answers, then one or two packets; on an open, unanswered socket it keeps every byte received; an answered connection stays answered |
| Connection.OnTimeout | src/index.js:67 | the timeout sends nothing and leaves the socket destroyed; one not yet destroyed is closed with the timeout as reason |
| Connection.Run | src/index.js:67-105 | over any events, packets once sent stay sent and an answered connection stays answered |
| Connection.IgnoredAfterwards | src/index.js:73-80 | data after the answer, or on a socket that is not open, changes nothing |
| Connection.WaitsWhileIncomplete | src/index.js:83-88 | while the handshake is incomplete, nothing is sent, the socket stays open and the bytes are kept for a parse from the start |
| Connection.IllegalDestroys | src/index.js:89-93 | an illegal handshake destroys the socket without sending anything |
| Connection.AnswersHandshake | src/index.js:95-104 | a parsed login request gets exactly the kick packet; any other handshake gets the status packet and then the pong; the writable side is closed |
| Connection.AnswersClient | src/index.js:82-104 | a client that sends a whole handshake, in one chunk or completing earlier ones, and with or without a NUL suffix on its hostname, gets the reply its next state asks for |
| Connection.LengthAloneDestroys | src/index.js:83-93 | a first chunk holding only a one-byte length prefix gets the socket destroyed with nothing sent |
| Connection.Consistent | src/index.js:71-105 | the connection invariant; it implies at most two packets sent, and some sent exactly when answered |
| Connection.InitialConsistent | src/index.js:71 | a new connection has sent nothing, is open and has an incomplete handshake |
| Connection.StepConsistent | src/index.js:67-105 | every data chunk and timer event keeps the connection consistent: nothing sent before the answer, exactly the reply to the parsed handshake after it |
| Connection.RunConsistent | src/index.js:67-105 | any sequence of events keeps the connection consistent |
| Connection.AtMostOneReply | src/index.js:67-105 | whatever a client sends, the server sends nothing, the kick packet alone, or the status packet then the pong, and something exactly when it answered |
| Connection.ReplyIsFinal | src/index.js:78-80 | once answered, nothing more is sent, whatever follows |
| Connection.RunKeepsAnswered | src/index.js:78-80 | an answered connection stays answered and sends nothing on any event |
| Connection.MakeReplies | src/index.js:135-162 | the kick and status packets are string packets with id 0, and the pong is PACKET_PONG |
| Connection.Handler.constructor | src/index.js:71 | a new handler is in the initial state with a fresh, empty buffer of its own |
| Connection.Handler.SocketWrite | src/index.js:102 | the handler's socket write is Write on its state |
| Connection.Handler.SocketEnd | src/index.js:100-103 | the handler's socket end is End on its state |
| Connection.Handler.SocketDestroy | src/index.js:91 | the handler's socket destroy is Destroy on its state |
| Connection.Handler.HandleData | src/index.js:72-105 | the data handler's new state is OnData of the old one, and it keeps the connection consistent |
| Connection.Handler.HandleTimeout | src/index.js:67 | the timeout's new state is OnTimeout of the old one, and it keeps the connection consistent |
| Address.FormatAddress | src/utils.js:19-30 | the logged text is "undefined", a suffix of a non-empty address, or the address in square brackets |
| Address.MissingIsUndefined | src/utils.js:20-22 | a missing or empty address is logged as "undefined" |
| Address.MappedLosesPrefix | src/utils.js:23-25 | an IPv4-mapped address loses its `::ffff:` prefix, whatever enclosedIpv6 says |
| Address.Ipv6Enclosed | src/utils.js:26-28 | another address with a colon is put in square brackets when asked; removing them gives the address back |
| Address.OtherUnchanged | src/utils.js:26-29 | an address without a colon, or when brackets are not asked for, is logged as it is |
| Address.UnenclosedIsSuffix | src/utils.js:19-30 | without brackets, the logged text is a suffix of the address |
| Address.EmptyOnlyForBarePrefix | src/utils.js:19-30 | the logged text is empty exactly for the address `::ffff:` |

## Left out

- Sockets, the TCP server and logging are left out. The connection's socket is reduced to
  its ready state, the packets written to it, and the reason it was destroyed for.
- The socket `close` and `error` events are left out. Only the timeout that destroys the
  socket is modelled, as `Connection.OnTimeout`. Clearing the timer on close is left out.
  The time the timer fires at is an event in the sequence.
- The contents of the kick and status messages are left out: parsing the message JSON, the
  environment variables, and reading the favicon file. `getKickPacket` and
  `getServerListPacket` ignore the handshake and return packets built once at start-up. They
  are modelled as those packets, built by `Connection.MakeReplies` from the message bytes.
- UTF-8 encoding and decoding are left out. Strings on the wire are their bytes. The limit
  of 255 in readString counts bytes, as in the source.
- The `offset()` getter is left out. The `offset` field with the same name shadows it on
  every instance, so it cannot be called.
- Non-integer and non-finite JavaScript numbers are left out. Every number here is an
  integer.
- Sharing of Node `Buffer` objects between the caller and a `ByteBuf` is left out.
  - `append` may keep the caller's buffer itself.
  - `writeRaw` copies.
  - The model holds the bytes as a value.
- ByteBufs.ByteBuf.WriteVarInt: requires room for the whole encoding. In that case Node's
  `writeUInt8` would throw a RangeError past the end. The first bytes written before the
  throw are not modelled.
- ByteBufs.ByteBuf.WriteRaw: requires room for the whole data. `Buffer.copy` would instead
  silently truncate at the end of the target.
- Packets.StringPacketReadBack: stated for strings shorter than 2^31 - 10 bytes. Above that,
  the length field no longer fits a 32-bit VarInt.
- Handshakes.FrameRoundTrip: stated for protocol versions below 2^28, the values a 4-byte
  VarInt can carry. A larger version takes five bytes, and the reader rejects it
  (`Handshakes.LongVersionRejected`, `VarInt.BeyondCapFails`).
- The equivalence of receiving a handshake in one chunk or in several is not claimed
  beyond what `Connection.AnswersClient` states. Because the length check never fires, a
  split after the length prefix is rejected.
