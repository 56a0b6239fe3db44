/**
 * The ByteBuf class of src/mc-protocol.js: a growable byte buffer with a
 * cursor, read from while parsing a handshake and written into while
 * building a reply packet.
 *
 * Each read is specified by a function of the bytes and the cursor before
 * the call, returning what the read returns and where the cursor ends up;
 * the methods of the class are proved to agree with those functions.
 */
module ByteBufs {
  import opened Int32
  import opened Bytes
  import opened VarInt

  // ---------------------------------------------------------------------
  // Reads as functions of (bytes, cursor)

  /** readUnsignedByte: one byte, or Fail when none is left; the cursor only moves on success. */
  function ReadU8At(data: seq<byte>, off: nat): (r: (Read<byte>, nat))
    ensures r.0.Ok? <==> off < |data|
    ensures r.0.Ok? ==> r.0.value == data[off] && r.1 == off + 1
    ensures !r.0.Ok? ==> r.0.Fail? && r.1 == off
  {
    if off + 1 > |data| then (Fail, off) else (Ok(data[off]), off + 1)
  }

  /** readUnsignedShort: two bytes, most significant first, or Fail when fewer are left. */
  function ReadU16At(data: seq<byte>, off: nat): (r: (Read<int>, nat))
    ensures r.0.Ok? <==> off + 2 <= |data|
    ensures r.0.Ok? ==> 0 <= r.0.value < 0x1_0000 && r.1 == off + 2
    ensures r.0.Ok? ==> r.0.value / 0x100 == data[off] && r.0.value % 0x100 == data[off + 1]
    ensures !r.0.Ok? ==> r.0.Fail? && r.1 == off
  {
    if off + 2 > |data| then (Fail, off) else (Ok(data[off] as int * 0x100 + data[off + 1] as int), off + 2)
  }

  /**
   * readString(maxPrefixBytes, maxUtf8Bytes): a VarInt length (incomplete
   * data is a failure here), then that many bytes. It fails when the length
   * cannot be read, is negative, exceeds `maxUtf8Bytes` or runs past the
   * end of the data; the cursor then stays where the length read left it.
   */
  function ReadStringAt(data: seq<byte>, off: nat, maxPrefixBytes: nat, maxUtf8Bytes: int): (r: (Read<seq<byte>>, nat))
    requires off <= |data|
    ensures off <= r.1 <= |data|
    ensures !r.0.Incomplete?
    ensures r.0.Ok? ==> |r.0.value| <= maxUtf8Bytes
    ensures r.0.Ok? ==> var start := r.1 - |r.0.value|;
      Decode(data, off, maxPrefixBytes, false) == (Ok(|r.0.value|), start) && r.0.value == data[start..r.1]
  {
    var (len, afterLen) := Decode(data, off, maxPrefixBytes, false);
    if !len.Ok? || len.value < 0 || len.value > maxUtf8Bytes || afterLen + len.value > |data| then
      (Fail, afterLen)
    else
      (Ok(data[afterLen..afterLen + len.value]), afterLen + len.value)
  }

  /** Raw bytes at a position: they sit just before what follows them. */
  lemma BytesBefore(data: seq<byte>, pos: nat, bytes: seq<byte>, rest: seq<byte>)
    requires pos <= |data| && data[pos..] == bytes + rest
    ensures pos + |bytes| <= |data| && data[pos..pos + |bytes|] == bytes && data[pos + |bytes|..] == rest
  {
    assert data[pos..pos + |bytes|] == data[pos..][..|bytes|];
    assert data[pos + |bytes|..] == data[pos..][|bytes|..];
  }

  /** readString at a position where a length-prefixed byte string starts, within both limits. */
  lemma StringBefore(data: seq<byte>, pos: nat, str: seq<byte>, rest: seq<byte>, maxPrefixBytes: nat, maxUtf8Bytes: int)
    requires |str| <= maxUtf8Bytes && Size(|str|) <= maxPrefixBytes && |str| < TWO31
    requires pos <= |data| && data[pos..] == Encode(|str|) + (str + rest)
    ensures pos + Size(|str|) + |str| <= |data| && data[pos + Size(|str|) + |str|..] == rest
    ensures ReadStringAt(data, pos, maxPrefixBytes, maxUtf8Bytes) == (Ok(str), pos + Size(|str|) + |str|)
  {
    DecodeBefore(data, pos, |str|, str + rest, maxPrefixBytes, false, pos + Size(|str|));
    BytesBefore(data, pos + Size(|str|), str, rest);
  }

  /** readUnsignedShort reads back a big-endian 16-bit value wherever it sits. */
  lemma U16RoundTrip(prefix: seq<byte>, v: int, suffix: seq<byte>)
    requires 0 <= v < 0x1_0000
    ensures ReadU16At(prefix + [v / 0x100, v % 0x100] + suffix, |prefix|) == (Ok(v), |prefix| + 2)
  {
    var data := prefix + [v / 0x100, v % 0x100] + suffix;
    assert data[|prefix|] == v / 0x100 && data[|prefix| + 1] == v % 0x100;
  }

  /**
   * readString reads back a length-prefixed byte string wherever it sits,
   * when its length fits the prefix and byte limits.
   */
  lemma StringRoundTrip(prefix: seq<byte>, str: seq<byte>, suffix: seq<byte>, maxPrefixBytes: nat, maxUtf8Bytes: int)
    requires |str| <= maxUtf8Bytes && Size(|str|) <= maxPrefixBytes && |str| < TWO31
    ensures var data := prefix + Encode(|str|) + str + suffix;
      ReadStringAt(data, |prefix|, maxPrefixBytes, maxUtf8Bytes) == (Ok(str), |prefix| + Size(|str|) + |str|)
  {
    var data := prefix + Encode(|str|) + str + suffix;
    assert data == prefix + Encode(|str|) + (str + suffix);
    RoundTrip(prefix, |str|, str + suffix, maxPrefixBytes, false);
    var start := |prefix| + Size(|str|);
    EncodeSize(|str|);
    assert data[start..start + |str|] == str;
  }

  /**
   * Overwriting byte `k` of a region being filled with `enc` extends the
   * filled part by one.
   */
  lemma OverwriteStep(orig: seq<byte>, start: nat, k: nat, enc: seq<byte>, cur: seq<byte>, x: byte)
    requires start + |enc| <= |orig| && k < |enc| && enc[k] == x
    requires cur == orig[..start] + enc[..k] + orig[start + k..]
    ensures start + k < |cur|
    ensures cur[start + k := x] == orig[..start] + enc[..k + 1] + orig[start + k + 1..]
  {
    var lhs := cur[start + k := x];
    var rhs := orig[..start] + enc[..k + 1] + orig[start + k + 1..];
    assert |lhs| == |rhs|;
    forall i | 0 <= i < |lhs|
      ensures lhs[i] == rhs[i]
    {
      if i < start {
      } else if i < start + k + 1 {
        assert rhs[i] == enc[i - start];
      } else {
      }
    }
  }

  /** Peeling the first byte off the unwritten rest of an encoding. */
  lemma SuffixStep(enc: seq<byte>, k: nat, x: byte, rest: seq<byte>)
    requires k <= |enc| && enc[k..] == [x] + rest
    ensures k < |enc| && enc[k] == x && enc[k + 1..] == rest
  {
    assert enc[k..][0] == x;
    assert enc[k + 1..] == enc[k..][1..];
  }

  /**
   * One turn of writeVarInt's loop: the next group of the pattern still to
   * write is the next byte of the encoding, and writing it extends the
   * written prefix by one; the last group completes the encoding.
   */
  lemma WriteStep(orig: seq<byte>, start: nat, k: nat, enc: seq<byte>, cur: seq<byte>, v: nat)
    requires start + |enc| <= |orig| && k <= |enc| && Groups(v) == enc[k..]
    requires cur == orig[..start] + enc[..k] + orig[start + k..]
    ensures start + k < |cur| && k < |enc|
    ensures var x := if v / 0x80 == 0 then v % 0x80 else v % 0x80 + 0x80;
      cur[start + k := x] == orig[..start] + enc[..k + 1] + orig[start + k + 1..]
    ensures v / 0x80 == 0 ==>
      k + 1 == |enc| && cur[start + k := v % 0x80] == orig[..start] + enc + orig[start + |enc|..]
    ensures v / 0x80 != 0 ==> Groups(v / 0x80) == enc[k + 1..]
  {
    var b := v % 0x80;
    if v / 0x80 == 0 {
      SuffixStep(enc, k, b, []);
      OverwriteStep(orig, start, k, enc, cur, b);
      assert enc[..k + 1] == enc;
    } else {
      SuffixStep(enc, k, b + 0x80, Groups(v / 0x80));
      OverwriteStep(orig, start, k, enc, cur, b + 0x80);
    }
  }

  // ---------------------------------------------------------------------
  // The buffer

  class ByteBuf {
    /** The bytes received or allocated so far (an absent buffer is empty). */
    var data: seq<byte>
    /** The cursor reads and writes start at. */
    var offset: nat

    ghost predicate Valid()
      reads this
    {
      offset <= |data|
    }

    constructor()
      ensures Valid() && data == [] && offset == 0
    {
      data := [];
      offset := 0;
    }

    /** length(): the number of bytes the buffer holds. */
    function Length(): (n: nat)
      reads this
      ensures n == |data|
    {
      |data|
    }

    /** resetOffset(): rewind the cursor to the first byte. */
    method ResetOffset()
      modifies this
      ensures Valid() && data == old(data) && offset == 0
    {
      offset := 0;
    }

    /** append(data): an absent chunk is ignored, anything else is added at the end; the cursor stays. */
    method Append(chunk: Option<seq<byte>>)
      requires Valid()
      modifies this
      ensures Valid() && offset == old(offset)
      ensures data == (if chunk.None? then old(data) else old(data) + chunk.value)
    {
      if chunk.None? {
        return;
      }
      data := data + chunk.value;
    }

    method ReadUnsignedByte() returns (r: Read<byte>)
      requires Valid()
      modifies this
      ensures Valid() && data == old(data)
      ensures (r, offset) == ReadU8At(old(data), old(offset))
    {
      if offset + 1 > Length() {
        return Fail;
      }
      r := Ok(data[offset]);
      offset := offset + 1;
    }

    method ReadUnsignedShort() returns (r: Read<int>)
      requires Valid()
      modifies this
      ensures Valid() && data == old(data)
      ensures (r, offset) == ReadU16At(old(data), old(offset))
    {
      if offset + 2 > Length() {
        return Fail;
      }
      r := Ok(data[offset] as int * 0x100 + data[offset + 1] as int);
      offset := offset + 2;
    }

    /**
     * readVarInt(maxBytes, skipIncomplete): the source's loop, holding the
     * accumulated value as its 32-bit pattern.
     */
    method ReadVarInt(maxBytes: nat, skipIncomplete: bool) returns (r: Read<int32>)
      requires Valid()
      modifies this
      ensures Valid() && data == old(data)
      ensures (r, offset) == Decode(old(data), old(offset), maxBytes, skipIncomplete)
    {
      var ret: uint32 := 0;
      var bytesRead: nat := 0;
      while true
        invariant Valid() && data == old(data) && old(offset) <= offset
        invariant DecodeFrom(data, offset, ret, bytesRead, maxBytes, skipIncomplete) == Decode(data, old(offset), maxBytes, skipIncomplete)
        decreases |data| - offset
      {
        var b := ReadUnsignedByte();
        if b.Fail? {
          return if skipIncomplete then Incomplete else Fail;
        }
        var group := ShiftLeft(b.value % 0x80, bytesRead * 7);
        BitOrPattern(ret, group);
        ret := BitOr(ret, group);
        bytesRead := bytesRead + 1;
        if b.value < 0x80 {
          return Ok(Signed(ret));
        }
        if bytesRead >= maxBytes {
          return Fail;
        }
      }
    }

    /** readString(maxPrefixBytes, maxUtf8Bytes), the bytes kept undecoded. */
    method ReadString(maxPrefixBytes: nat, maxUtf8Bytes: int) returns (r: Read<seq<byte>>)
      requires Valid()
      modifies this
      ensures Valid() && data == old(data)
      ensures (r, offset) == ReadStringAt(old(data), old(offset), maxPrefixBytes, maxUtf8Bytes)
    {
      var len := ReadVarInt(maxPrefixBytes, false);
      if !len.Ok? || len.value < 0 || len.value > maxUtf8Bytes || offset + len.value > Length() {
        return Fail;
      }
      r := Ok(data[offset..offset + len.value]);
      offset := offset + len.value;
    }

    /**
     * writeVarInt(value): the groups of `value | 0`, least significant
     * first, over the bytes at the cursor. Node's writeUInt8 throws past the
     * end, so the room must be there.
     */
    method WriteVarInt(value: int)
      requires Valid() && offset + Size(value) <= |data|
      modifies this
      ensures Valid() && |data| == |old(data)|
      ensures data == old(data)[..old(offset)] + Encode(value) + old(data)[old(offset) + Size(value)..]
      ensures offset == old(offset) + Size(value)
    {
      EncodeSize(value);
      var v: nat := ToUint32(value);
      ghost var enc := Encode(value);
      while true
        invariant old(offset) <= offset <= |data| && |data| == |old(data)|
        invariant offset - old(offset) <= |enc| == Size(value)
        invariant Groups(v) == enc[offset - old(offset)..]
        invariant data == old(data)[..old(offset)] + enc[..offset - old(offset)] + old(data)[offset..]
        decreases v
      {
        WriteStep(old(data), old(offset), offset - old(offset), enc, data, v);
        var b := v % 0x80;
        v := v / 0x80;
        if v == 0 {
          data := data[offset := b];
          offset := offset + 1;
          return;
        }
        data := data[offset := b + 0x80];
        offset := offset + 1;
      }
    }

    /** writeRaw(data): the bytes over those at the cursor, which moves past them. */
    method WriteRaw(raw: seq<byte>)
      requires Valid() && offset + |raw| <= |data|
      modifies this
      ensures Valid() && |data| == |old(data)|
      ensures data == old(data)[..old(offset)] + raw + old(data)[old(offset) + |raw|..]
      ensures offset == old(offset) + |raw|
    {
      data := data[..offset] + raw + data[offset + |raw|..];
      offset := offset + |raw|;
    }
  }
}
