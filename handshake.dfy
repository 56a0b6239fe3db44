/**
 * readHandshake of src/mc-protocol.js: the first packet a Minecraft client
 * sends, read from the start of everything received so far.
 *
 * Wire layout: VarInt packet length (at most 2 bytes, at most 267), VarInt
 * packet id 0 (1 byte), VarInt protocol version (at most 4 bytes, > 0),
 * hostname as a length-prefixed string (prefix at most 2 bytes, at most
 * 255 bytes), port as a big-endian u16 (> 0), VarInt next state (1 byte,
 * 1 or 2).
 *
 * The check meant to wait for the rest of the packet once its length is
 * known compares the length with the buffer's `length` method itself
 * rather than its result; a number compared with a function is never
 * greater, so that branch never fires and is modelled as such.
 */
module Handshakes {
  import opened Int32
  import opened Bytes
  import opened VarInt
  import opened ByteBufs

  /** The longest handshake packet body accepted, in bytes. */
  const HANDSHAKE_MAX_LEN: int := 267

  datatype Handshake = Handshake(protocolVersion: int32, hostname: seq<byte>, port: int, state: int32)

  /** `indexOf('\0')`: the position of the first NUL byte, or -1. */
  function IndexOfNul(s: seq<byte>): (r: int)
    ensures -1 <= r < |s|
    ensures r == -1 <==> forall i :: 0 <= i < |s| ==> s[i] != 0
    ensures r >= 0 ==> s[r] == 0 && forall i :: 0 <= i < r ==> s[i] != 0
  {
    if |s| == 0 then -1
    else if s[0] == 0 then 0
    else
      var j := IndexOfNul(s[1..]);
      if j == -1 then -1 else j + 1
  }

  /** The hostname without a client's suffix: everything from the first NUL on is dropped. */
  function TrimAtNul(s: seq<byte>): (r: seq<byte>)
    ensures forall i :: 0 <= i < |r| ==> r[i] != 0
    ensures |r| <= |s| && r == s[..|r|]
    ensures |r| < |s| ==> s[|r|] == 0
  {
    var end := IndexOfNul(s);
    if end != -1 then s[..end] else s
  }

  /**
   * readHandshake on the bytes `data` with the cursor at `off`: the
   * outcome (Ok, Fail for `false`, Incomplete for `undefined`) and where
   * the cursor is left.
   */
  function DecodeHandshake(data: seq<byte>, off: nat): (r: (Read<Handshake>, nat))
    requires off <= |data|
    ensures off <= r.1 <= |data|
  {
    var (packetLen, o1) := Decode(data, off, 2, true);
    if packetLen.Incomplete? then (Incomplete, o1)
    else if packetLen.Fail? || packetLen.value > HANDSHAKE_MAX_LEN then (Fail, o1)
    else
      var (packetId, o2) := Decode(data, o1, 1, false);
      if !packetId.Ok? || packetId.value != 0 then (Fail, o2)
      else
        var (version, o3) := Decode(data, o2, 4, false);
        if !version.Ok? || version.value <= 0 then (Fail, o3)
        else
          var (hostname, o4) := ReadStringAt(data, o3, 2, 255);
          if !hostname.Ok? then (Fail, o4)
          else
            var (port, o5) := ReadU16At(data, o4);
            if !port.Ok? || port.value <= 0 || port.value > 65535 then (Fail, o5)
            else
              var (state, o6) := Decode(data, o5, 1, false);
              if !state.Ok? || (state.value != 1 && state.value != 2) then (Fail, o6)
              else (Ok(Handshake(version.value, TrimAtNul(hostname.value), port.value, state.value)), o6)
  }

  /** readHandshake(buf): the source's sequence of reads on the buffer. */
  method ReadHandshake(buf: ByteBuf) returns (r: Read<Handshake>)
    requires buf.Valid()
    modifies buf
    ensures buf.Valid() && buf.data == old(buf.data)
    ensures (r, buf.offset) == DecodeHandshake(old(buf.data), old(buf.offset))
  {
    var packetLen := buf.ReadVarInt(2, true);
    if packetLen.Incomplete? {
      return Incomplete;
    }
    if packetLen.Fail? || packetLen.value > HANDSHAKE_MAX_LEN {
      return Fail;
    }
    var packetId := buf.ReadVarInt(1, false);
    if !packetId.Ok? || packetId.value != 0 {
      return Fail;
    }
    var version := buf.ReadVarInt(4, false);
    if !version.Ok? || version.value <= 0 {
      return Fail;
    }
    var hostname := buf.ReadString(2, 255);
    if !hostname.Ok? {
      return Fail;
    }
    var port := buf.ReadUnsignedShort();
    if !port.Ok? || port.value <= 0 || port.value > 65535 {
      return Fail;
    }
    var state := buf.ReadVarInt(1, false);
    if !state.Ok? || (state.value != 1 && state.value != 2) {
      return Fail;
    }
    r := Ok(Handshake(version.value, TrimAtNul(hostname.value), port.value, state.value));
  }

  // ---------------------------------------------------------------------
  // What a successful read guarantees

  /** A handshake that decodes is a status or login request from a positive protocol version to a non-zero port. */
  lemma Accepted(data: seq<byte>, off: nat)
    requires off <= |data| && DecodeHandshake(data, off).0.Ok?
    ensures var h := DecodeHandshake(data, off).0.value;
      && h.protocolVersion > 0
      && 1 <= h.port <= 65535
      && (h.state == 1 || h.state == 2)
      && |h.hostname| <= 255
      && forall i :: 0 <= i < |h.hostname| ==> h.hostname[i] != 0
  {
  }

  /**
   * A handshake is read only when each of readHandshake's reads succeeds
   * and passes its test: a length of at most 267, packet id 0, a positive
   * version, a hostname, a port in 1..65535 and next state 1 or 2. The
   * result is made of those fields, the hostname cut at its first NUL, and
   * the cursor is left after the state.
   */
  lemma AcceptedReads(data: seq<byte>, off: nat)
    requires off <= |data| && DecodeHandshake(data, off).0.Ok?
    ensures var h := DecodeHandshake(data, off).0.value;
      var r1 := Decode(data, off, 2, true);
      && r1.0.Ok? && r1.0.value <= HANDSHAKE_MAX_LEN
      && var r2 := Decode(data, r1.1, 1, false);
      && r2.0 == Ok(0)
      && var r3 := Decode(data, r2.1, 4, false);
      && r3.0.Ok? && r3.0.value > 0 && h.protocolVersion == r3.0.value
      && var r4 := ReadStringAt(data, r3.1, 2, 255);
      && r4.0.Ok? && h.hostname == TrimAtNul(r4.0.value)
      && var r5 := ReadU16At(data, r4.1);
      && r5.0.Ok? && 0 < r5.0.value <= 65535 && h.port == r5.0.value
      && var r6 := Decode(data, r5.1, 1, false);
      && r6.0.Ok? && (r6.0.value == 1 || r6.0.value == 2) && h.state == r6.0.value
      && DecodeHandshake(data, off).1 == r6.1
  {
  }

  /**
   * A packet whose id byte is not 0, or that ends before its id, is not a
   * handshake.
   */
  lemma PacketIdRejected(data: seq<byte>, off: nat)
    requires off <= |data|
    requires var (len, o1) := Decode(data, off, 2, true);
      len.Ok? && len.value <= HANDSHAKE_MAX_LEN && (o1 == |data| || data[o1] != 0)
    ensures DecodeHandshake(data, off).0.Fail?
  {
    var (len, o1) := Decode(data, off, 2, true);
    DecodeOutcome(data, o1, 1, false);
    if o1 < |data| && data[o1] < 0x80 {
      var b := data[o1];
      assert Encode(b) == [b];
      assert data[o1..o1 + 1] == [b];
      DecodeAt(data, o1, b, 1, false);
    }
  }

  /** A protocol version that needs all five VarInt bytes is rejected. */
  lemma LongVersionRejected(data: seq<byte>, off: nat, v: int)
    requires off <= |data|
    requires var (len, o1) := Decode(data, off, 2, true);
      len.Ok? && len.value <= HANDSHAKE_MAX_LEN && Decode(data, o1, 1, false).0 == Ok(0)
    requires var o2 := Decode(data, Decode(data, off, 2, true).1, 1, false).1;
      Size(v) == 5 && o2 + |Encode(v)| <= |data| && data[o2..o2 + |Encode(v)|] == Encode(v)
    ensures DecodeHandshake(data, off).0.Fail?
  {
    var o2 := Decode(data, Decode(data, off, 2, true).1, 1, false).1;
    EncodeSize(v);
    BeyondCapFails(data, o2, v, 4, false);
  }

  /**
   * readHandshake waits for more data only when the buffer ends inside the
   * length prefix: nothing is left, or only one byte with the continuation
   * bit set.
   */
  lemma IncompleteOnlyInPrefix(data: seq<byte>, off: nat)
    requires off <= |data|
    ensures DecodeHandshake(data, off).0.Incomplete? <==> (|data| == off || (|data| == off + 1 && data[off] >= 0x80))
  {
    DecodeOutcome(data, off, 2, true);
    if |data| == off + 1 && data[off] >= 0x80 {
      assert forall j :: off <= j < |data| ==> data[j] >= 0x80;
    }
  }

  /** A length prefix with two continuation bytes is malformed. */
  lemma MalformedPrefixRejected(data: seq<byte>, off: nat)
    requires off + 2 <= |data| && data[off] >= 0x80 && data[off + 1] >= 0x80
    ensures DecodeHandshake(data, off).0.Fail?
  {
    DecodeOutcome(data, off, 2, true);
  }

  /** A packet announced longer than 267 bytes is rejected without reading further. */
  lemma TooLongRejected(data: seq<byte>, off: nat)
    requires off <= |data|
    requires var (len, _) := Decode(data, off, 2, true); len.Ok? && len.value > HANDSHAKE_MAX_LEN
    ensures DecodeHandshake(data, off).0.Fail?
  {
  }

  /**
   * Since the length check never fires, readHandshake does not wait for
   * the rest of a packet once its length is read: a buffer that ends right
   * after the length prefix is rejected, not kept for more data.
   */
  lemma EndsAfterPrefixRejected(data: seq<byte>, off: nat)
    requires off <= |data|
    requires var (len, end) := Decode(data, off, 2, true); len.Ok? && len.value <= HANDSHAKE_MAX_LEN && end == |data|
    ensures DecodeHandshake(data, off).0.Fail?
  {
    var (len, end) := Decode(data, off, 2, true);
    DecodeOutcome(data, end, 1, false);
  }

  // ---------------------------------------------------------------------
  // The encoder side: what a client sends

  /**
   * What a client can send: the fields readHandshake accepts, the version
   * within readVarInt(4). The hostname may carry a suffix after a NUL byte.
   */
  predicate Sendable(h: Handshake)
  {
    && 0 < h.protocolVersion < 0x1000_0000
    && |h.hostname| <= 255
    && 0 < h.port <= 65535
    && (h.state == 1 || h.state == 2)
  }

  /** The port as `writeUInt16BE` lays it out. */
  function U16BE(v: int): (r: seq<byte>)
    requires 0 <= v < 0x1_0000
    ensures |r| == 2
  {
    [v / 0x100, v % 0x100]
  }

  /** The packet body: id 0, version, hostname, port, next state. */
  function Body(h: Handshake): seq<byte>
    requires Sendable(h)
  {
    Encode(0) + Encode(h.protocolVersion) + Encode(|h.hostname|) + h.hostname + U16BE(h.port) + Encode(h.state)
  }

  /** The whole handshake packet: its length, then its body. */
  function Frame(h: Handshake): seq<byte>
    requires Sendable(h)
  {
    Encode(|Body(h)|) + Body(h)
  }

  /** A handshake body never exceeds 267 bytes, so its length fits the 2-byte prefix. */
  lemma BodyLength(h: Handshake)
    requires Sendable(h)
    ensures |Body(h)| == 1 + Size(h.protocolVersion) + Size(|h.hostname|) + |h.hostname| + 3
    ensures |Body(h)| <= HANDSHAKE_MAX_LEN && Size(|Body(h)|) <= 2
  {
    EncodeSize(0);
    EncodeSize(h.protocolVersion);
    EncodeSize(|h.hostname|);
    EncodeSize(h.state);
  }

  /** Concatenation regrouped to the right, so that each field is followed by the rest. */
  lemma Regroup(a: seq<byte>, b: seq<byte>, c: seq<byte>, d: seq<byte>, e: seq<byte>, f: seq<byte>, g: seq<byte>, s: seq<byte>)
    ensures a + (b + c + d + e + f + g) + s == a + (b + (c + (d + (e + (f + (g + s))))))
  {
  }

  /** The packet, followed by anything, grouped field by field. */
  lemma FrameFields(h: Handshake, suffix: seq<byte>)
    requires Sendable(h)
    ensures Frame(h) + suffix == Encode(|Body(h)|) + (Encode(0) + (Encode(h.protocolVersion) + (Encode(|h.hostname|)
      + (h.hostname + (U16BE(h.port) + (Encode(h.state) + suffix))))))
  {
    Regroup(Encode(|Body(h)|), Encode(0), Encode(h.protocolVersion), Encode(|h.hostname|), h.hostname, U16BE(h.port), Encode(h.state), suffix);
  }

  /** readHandshake succeeds when each of its reads does and passes its test. */
  lemma DecodeHandshakeOk(data: seq<byte>, off: nat, len: int, o1: nat, o2: nat, version: int32, o3: nat,
                          hostname: seq<byte>, o4: nat, port: int, o5: nat, state: int32, o6: nat)
    requires off <= |data|
    requires Decode(data, off, 2, true) == (Ok(len), o1) && len <= HANDSHAKE_MAX_LEN && o1 <= |data|
    requires Decode(data, o1, 1, false) == (Ok(0), o2) && o2 <= |data|
    requires Decode(data, o2, 4, false) == (Ok(version), o3) && version > 0 && o3 <= |data|
    requires ReadStringAt(data, o3, 2, 255) == (Ok(hostname), o4) && o4 <= |data|
    requires ReadU16At(data, o4) == (Ok(port), o5) && 0 < port <= 65535 && o5 <= |data|
    requires Decode(data, o5, 1, false) == (Ok(state), o6) && (state == 1 || state == 2)
    ensures DecodeHandshake(data, off) == (Ok(Handshake(version, TrimAtNul(hostname), port, state)), o6)
  {
  }

  /** readUnsignedShort at a position where a big-endian u16 starts. */
  lemma U16Before(data: seq<byte>, pos: nat, v: int, rest: seq<byte>)
    requires 0 <= v < 0x1_0000 && pos <= |data| && data[pos..] == U16BE(v) + rest
    ensures pos + 2 <= |data| && data[pos + 2..] == rest
    ensures ReadU16At(data, pos) == (Ok(v), pos + 2)
  {
    BytesBefore(data, pos, U16BE(v), rest);
    assert data[pos] == U16BE(v)[0] && data[pos + 1] == U16BE(v)[1];
  }

  /** readString(2, 255) at a position where a length-prefixed byte string starts. */
  lemma HostnameBefore(data: seq<byte>, pos: nat, str: seq<byte>, rest: seq<byte>)
    requires |str| <= 255 && pos <= |data| && data[pos..] == Encode(|str|) + (str + rest)
    ensures pos + Size(|str|) + |str| <= |data| && data[pos + Size(|str|) + |str|..] == rest
    ensures ReadStringAt(data, pos, 2, 255) == (Ok(str), pos + Size(|str|) + |str|)
  {
    DecodeBefore(data, pos, |str|, str + rest, 2, false, pos + Size(|str|));
    BytesBefore(data, pos + Size(|str|), str, rest);
  }

  /** The reads of readHandshake over the fields of a packet, one field at a time. */
  lemma FieldsRoundTrip(data: seq<byte>, off: nat, len: nat, version: int32, host: seq<byte>, port: int, state: int32, suffix: seq<byte>, end: nat, result: Handshake)
    requires len <= HANDSHAKE_MAX_LEN && 0 < version < 0x1000_0000 && |host| <= 255
    requires 0 < port <= 65535 && (state == 1 || state == 2)
    requires off <= |data| && data[off..] == Encode(len) + (Encode(0) + (Encode(version) + (Encode(|host|)
      + (host + (U16BE(port) + (Encode(state) + suffix))))))
    requires end == off + Size(len) + 1 + Size(version) + Size(|host|) + |host| + 3
    requires result == Handshake(version, TrimAtNul(host), port, state)
    ensures DecodeHandshake(data, off) == (Ok(result), end)
  {
    var r5 := Encode(state) + suffix;
    var r4 := U16BE(port) + r5;
    var r2 := Encode(|host|) + (host + r4);
    var r1 := Encode(version) + r2;
    var r0 := Encode(0) + r1;
    var o1 := off + Size(len);
    var o2 := o1 + 1;
    var o3 := o2 + Size(version);
    var o5 := o3 + Size(|host|) + |host|;
    var o6 := o5 + 2;
    DecodeBefore(data, off, len, r0, 2, true, o1);
    DecodeBefore(data, o1, 0, r1, 1, false, o2);
    DecodeBefore(data, o2, version, r2, 4, false, o3);
    HostnameBefore(data, o3, host, r4);
    U16Before(data, o5, port, r5);
    DecodeBefore(data, o6, state, suffix, 1, false, end);
    DecodeHandshakeOk(data, off, len, o1, o2, version, o3, host, o5, port, o6, state, end);
  }

  /** A hostname without NUL bytes is kept whole. */
  lemma UntrimmedWithoutNul(s: seq<byte>)
    requires forall i :: 0 <= i < |s| ==> s[i] != 0
    ensures TrimAtNul(s) == s
  {
  }

  /** The packet's length, field by field. */
  lemma FrameLength(h: Handshake)
    requires Sendable(h)
    ensures |Body(h)| <= HANDSHAKE_MAX_LEN
    ensures |Frame(h)| == Size(|Body(h)|) + 1 + Size(h.protocolVersion) + Size(|h.hostname|) + |h.hostname| + 3
  {
    BodyLength(h);
    EncodeSize(|Body(h)|);
  }

  /** The packet where it sits, grouped field by field. */
  lemma FrameAt(data: seq<byte>, off: nat, h: Handshake)
    requires Sendable(h)
    requires off + |Frame(h)| <= |data| && data[off..off + |Frame(h)|] == Frame(h)
    ensures data[off..] == Encode(|Body(h)|) + (Encode(0) + (Encode(h.protocolVersion) + (Encode(|h.hostname|)
      + (h.hostname + (U16BE(h.port) + (Encode(h.state) + data[off + |Frame(h)|..]))))))
  {
    var suffix := data[off + |Frame(h)|..];
    assert data[off..] == data[off..off + |Frame(h)|] + suffix;
    FrameFields(h, suffix);
  }

  /**
   * readHandshake reads back every handshake a client can send, wherever
   * it starts in the buffer and whatever follows it, with the hostname cut
   * at its first NUL byte, and stops right after it.
   */
  lemma FrameRoundTrip(data: seq<byte>, off: nat, h: Handshake)
    requires Sendable(h)
    requires off + |Frame(h)| <= |data| && data[off..off + |Frame(h)|] == Frame(h)
    ensures DecodeHandshake(data, off).0 == Ok(h.(hostname := TrimAtNul(h.hostname)))
    ensures DecodeHandshake(data, off).1 == off + |Frame(h)|
  {
    FrameAt(data, off, h);
    FrameLength(h);
    FieldsRoundTrip(data, off, |Body(h)|, h.protocolVersion, h.hostname, h.port, h.state, data[off + |Frame(h)|..],
                    off + |Frame(h)|, h.(hostname := TrimAtNul(h.hostname)));
  }

  /** A handshake without a NUL in its hostname is read back exactly. */
  lemma PlainFrameRoundTrip(data: seq<byte>, off: nat, h: Handshake)
    requires Sendable(h) && forall i :: 0 <= i < |h.hostname| ==> h.hostname[i] != 0
    requires off + |Frame(h)| <= |data| && data[off..off + |Frame(h)|] == Frame(h)
    ensures DecodeHandshake(data, off).0 == Ok(h)
  {
    FrameRoundTrip(data, off, h);
    UntrimmedWithoutNul(h.hostname);
  }
}
