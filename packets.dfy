/**
 * The packets the server sends back: a string packet (length, id, then a
 * length-prefixed UTF-8 string, as writeStringPacket builds the kick and
 * status replies) and the fixed pong packet.
 *
 * A string is given here as its UTF-8 bytes.
 */
module Packets {
  import opened Int32
  import opened Bytes
  import opened VarInt
  import opened ByteBufs

  /** The value of a string packet's length field: what follows the field. */
  function PacketLength(id: int, str: seq<byte>): (n: nat)
    ensures n == |Encode(id)| + |Encode(|str|)| + |str|
  {
    EncodeSize(id);
    EncodeSize(|str|);
    Size(id) + Size(|str|) + |str|
  }

  /**
   * The bytes of a string packet: its length, then the id, then the string
   * with its length prefix. It is as long as its length prefix plus the
   * length it declares.
   */
  function StringPacket(id: int, str: seq<byte>): (r: seq<byte>)
    ensures |r| == Size(PacketLength(id, str)) + PacketLength(id, str)
  {
    EncodeSize(PacketLength(id, str));
    Encode(PacketLength(id, str)) + (Encode(id) + (Encode(|str|) + str))
  }

  /**
   * writeStringPacket: allocate a zeroed buffer of exactly the packet's size,
   * then write the length, the id, the string's length and the string.
   */
  method WriteStringPacket(id: int, str: seq<byte>) returns (r: seq<byte>)
    ensures r == StringPacket(id, str)
  {
    var packetLen := Size(id) + Size(|str|) + |str|;
    EncodeSize(packetLen);
    EncodeSize(id);
    EncodeSize(|str|);
    var buf := new ByteBuf();
    buf.Append(Some(Zeros(Size(packetLen) + packetLen)));
    ghost var w0 := buf.data;
    buf.WriteVarInt(packetLen);
    ghost var w1 := buf.data;
    buf.WriteVarInt(id);
    ghost var w2 := buf.data;
    buf.WriteVarInt(|str|);
    ghost var w3 := buf.data;
    buf.WriteRaw(str);
    Assemble(w0, w1, w2, w3, buf.data, Encode(packetLen), Encode(id), Encode(|str|), str);
    r := buf.data;
  }

  /** Four writes that tile a buffer, one after the other, leave exactly what they wrote. */
  lemma Assemble(w0: seq<byte>, w1: seq<byte>, w2: seq<byte>, w3: seq<byte>, w4: seq<byte>,
                 a: seq<byte>, b: seq<byte>, c: seq<byte>, d: seq<byte>)
    requires |w0| == |a| + |b| + |c| + |d|
    requires w1 == w0[..0] + a + w0[|a|..]
    requires w2 == w1[..|a|] + b + w1[|a| + |b|..]
    requires w3 == w2[..|a| + |b|] + c + w2[|a| + |b| + |c|..]
    requires w4 == w3[..|a| + |b| + |c|] + d + w3[|a| + |b| + |c| + |d|..]
    ensures w4 == a + (b + (c + d))
  {
    assert w1[..|a|] == a;
    assert w2[..|a| + |b|] == a + b;
    assert w3[..|a| + |b| + |c|] == a + b + c;
  }

  /** The reads of a client over the three fields of a string packet, one field at a time. */
  lemma FieldsReadBack(data: seq<byte>, off: nat, len: int32, id: int32, str: seq<byte>, rest: seq<byte>, o1: nat, o2: nat, end: nat)
    requires |str| < TWO31
    requires off <= |data| && data[off..] == Encode(len) + (Encode(id) + (Encode(|str|) + (str + rest)))
    requires o1 == off + Size(len) && o2 == o1 + Size(id) && end == o2 + Size(|str|) + |str|
    ensures Decode(data, off, 5, false).0 == Ok(len) && Decode(data, off, 5, false).1 == o1
    ensures Decode(data, o1, 5, false).0 == Ok(id) && Decode(data, o1, 5, false).1 == o2
    ensures ReadStringAt(data, o2, 5, |str|).0 == Ok(str) && ReadStringAt(data, o2, 5, |str|).1 == end
    ensures data[end..] == rest
  {
    DecodeBefore(data, off, len, Encode(id) + (Encode(|str|) + (str + rest)), 5, false, o1);
    DecodeBefore(data, o1, id, Encode(|str|) + (str + rest), 5, false, o2);
    StringBefore(data, o2, str, rest, 5, |str|);
  }

  /**
   * A client reads a string packet back, wherever it sits: the length it
   * declares, the id, and the string, and it ends right after the packet,
   * which is as long as its length prefix plus the length it declares.
   */
  lemma StringPacketReadBack(data: seq<byte>, off: nat, id: int32, str: seq<byte>, rest: seq<byte>)
    requires |str| < TWO31 - 10
    requires off <= |data| && data[off..] == StringPacket(id, str) + rest
    ensures var len, end := PacketLength(id, str), off + |StringPacket(id, str)|;
      var o1 := off + Size(len);
      var o2 := o1 + Size(id);
      && Decode(data, off, 5, false).0 == Ok(len) && Decode(data, off, 5, false).1 == o1
      && Decode(data, o1, 5, false).0 == Ok(id) && Decode(data, o1, 5, false).1 == o2
      && ReadStringAt(data, o2, 5, |str|).0 == Ok(str) && ReadStringAt(data, o2, 5, |str|).1 == end
      && end == o1 + len && data[end..] == rest
  {
    var len := PacketLength(id, str);
    Reassociate(data, off, id, str, rest, len);
    var o1 := off + Size(len);
    FieldsReadBack(data, off, len, id, str, rest, o1, o1 + Size(id), off + |StringPacket(id, str)|);
  }

  /** A string packet followed by more bytes, field by field. */
  lemma Reassociate(data: seq<byte>, off: nat, id: int32, str: seq<byte>, rest: seq<byte>, len: nat)
    requires |str| < TWO31 - 10 && len == PacketLength(id, str)
    requires off <= |data| && data[off..] == StringPacket(id, str) + rest
    ensures len < TWO31
    ensures data[off..] == Encode(len) + (Encode(id) + (Encode(|str|) + (str + rest)))
  {
  }

  // ---------------------------------------------------------------------
  // The pong packet

  /** A value as `writeUInt32BE` lays it out: four bytes, most significant first. */
  function U32BE(v: int): (r: seq<byte>)
    requires 0 <= v < TWO32
    ensures |r| == 4
  {
    [v / 0x100_0000, (v / 0x1_0000) % 0x100, (v / 0x100) % 0x100, v % 0x100]
  }

  /** The value four big-endian bytes stand for (`readUInt32BE`). */
  function U32Value(b: seq<byte>): (v: int)
    requires |b| == 4
    ensures 0 <= v < TWO32
  {
    ((b[0] as int * 0x100 + b[1] as int) * 0x100 + b[2] as int) * 0x100 + b[3] as int
  }

  /** U32BE and U32Value are inverse. */
  lemma U32RoundTrip(v: int)
    requires 0 <= v < TWO32
    ensures U32Value(U32BE(v)) == v
  {
    var b := U32BE(v);
    assert v / 0x1_0000 == (v / 0x100) / 0x100 && v / 0x100_0000 == (v / 0x1_0000) / 0x100;
    assert b[0] as int * 0x100 + b[1] as int == v / 0x1_0000;
    assert (v / 0x1_0000) * 0x100 + b[2] as int == v / 0x100;
    assert (v / 0x100) * 0x100 + b[3] as int == v;
  }

  /**
   * The pong packet: length 9, id 1, then the 8-byte time the server
   * answers with, written as two 32-bit halves 0 and 818.
   */
  function Pong(): (r: seq<byte>)
    ensures |r| == 10
  {
    [9, 1] + U32BE(0) + U32BE(818)
  }

  /** The buffer behind PACKET_PONG, built the way the source builds it. */
  method BuildPong() returns (r: seq<byte>)
    ensures r == Pong()
  {
    var buf := new byte[10](_ => 0);
    buf[0] := 9;
    buf[1] := 1;
    WriteUInt32BE(buf, 0, 2);
    WriteUInt32BE(buf, 818, 6);
    r := buf[..];
  }

  /** `buf.writeUInt32BE(v, off)`: overwrite four bytes at `off`. */
  method WriteUInt32BE(buf: array<byte>, v: int, off: nat)
    requires 0 <= v < TWO32 && off + 4 <= buf.Length
    modifies buf
    ensures buf[..] == old(buf[..])[..off] + U32BE(v) + old(buf[..])[off + 4..]
  {
    var b := U32BE(v);
    buf[off] := b[0];
    buf[off + 1] := b[1];
    buf[off + 2] := b[2];
    buf[off + 3] := b[3];
  }

  /** The pong packet byte for byte. */
  lemma PongBytes()
    ensures Pong() == [0x09, 0x01, 0x00, 0x00, 0x00, 0x00, 0x00, 0x00, 0x03, 0x32]
  {
  }

  /**
   * The pong packet reads as a well-formed packet: its length prefix says
   * 9 bytes follow, its id is 1, and its payload reads as 0 and 818.
   */
  lemma PongReadBack()
    ensures Decode(Pong(), 0, 5, false) == (Ok(9), 1) && |Pong()| == 1 + 9
    ensures Decode(Pong(), 1, 5, false) == (Ok(1), 2)
    ensures U32Value(Pong()[2..6]) == 0 && U32Value(Pong()[6..10]) == 818
  {
    assert Pong()[0..1] == Encode(9);
    DecodeAt(Pong(), 0, 9, 5, false);
    assert Pong()[1..2] == Encode(1);
    DecodeAt(Pong(), 1, 1, 5, false);
    assert Pong()[2..6] == U32BE(0) && Pong()[6..10] == U32BE(818);
  }
}
