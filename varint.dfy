/**
 * The VarInt format of the Minecraft Java-edition protocol as
 * src/mc-protocol.js implements it: 7 data bits per byte, least significant
 * group first, bit 7 set on every byte but the last; at most five bytes for
 * a 32-bit value.
 */
module VarInt {
  import opened Int32
  import opened Bytes

  /** getVarIntSize: the number of bytes writeVarInt emits for `value`. */
  function Size(value: int): (r: nat)
    ensures 1 <= r <= 5
    ensures ToInt32(value) < 0 ==> r == 5
  {
    var v := ToInt32(value);
    if v < 0 then 5
    else if v < 0x80 then 1
    else if v < 0x4000 then 2
    else if v < 0x20_0000 then 3
    else if v < 0x1000_0000 then 4
    else 5
  }

  /**
   * The bytes writeVarInt's loop emits once `value |= 0` has left the
   * unsigned pattern `p`: the low 7 bits, with bit 7 set when `p >>> 7`
   * is not yet 0.
   */
  function Groups(p: nat): seq<byte>
    decreases p
  {
    var b := p % 0x80;
    var rest := p / 0x80;
    if rest == 0 then [b] else [b + 0x80] + Groups(rest)
  }

  /** The encoding of a number: its 32-bit pattern cut into groups. */
  function Encode(value: int): seq<byte>
  {
    Groups(ToUint32(value))
  }

  /**
   * readVarInt's loop, resumed with `count` bytes consumed, the cursor at
   * `pos` and the pattern `acc` accumulated so far (`ret` in the source).
   * Returns what the loop returns and where the cursor is left.
   */
  function DecodeFrom(data: seq<byte>, pos: nat, acc: uint32, count: nat, maxBytes: nat, skipIncomplete: bool): (r: (Read<int32>, nat))
    requires pos <= |data|
    ensures pos <= r.1 <= |data|
    ensures r.0.Incomplete? ==> skipIncomplete
    decreases |data| - pos
  {
    if pos + 1 > |data| then
      (if skipIncomplete then Incomplete else Fail, pos)
    else
      var b := data[pos];
      var group := ShiftLeft(b % 0x80, count * 7);
      BitOrPattern(acc, group);
      var acc' := BitOr(acc, group);
      if b < 0x80 then (Ok(Signed(acc')), pos + 1)
      else if count + 1 >= maxBytes then (Fail, pos + 1)
      else DecodeFrom(data, pos + 1, acc', count + 1, maxBytes, skipIncomplete)
  }

  /** readVarInt(maxBytes, skipIncomplete) with the cursor at `pos`. */
  function Decode(data: seq<byte>, pos: nat, maxBytes: nat, skipIncomplete: bool): (r: (Read<int32>, nat))
    requires pos <= |data|
    ensures pos <= r.1 <= |data|
    ensures r.0.Incomplete? ==> skipIncomplete
  {
    DecodeFrom(data, pos, 0, 0, maxBytes, skipIncomplete)
  }

  // ---------------------------------------------------------------------
  // Encoder side

  /** The number of groups of a pattern follows the thresholds getVarIntSize tests. */
  lemma GroupsLength(p: uint32)
    ensures |Groups(p)| == if p < 0x80 then 1 else if p < 0x4000 then 2
                           else if p < 0x20_0000 then 3 else if p < 0x1000_0000 then 4 else 5
  {
    if p >= 0x80 {
      var p1 := p / 0x80;
      assert Groups(p) == [p % 0x80 + 0x80] + Groups(p1);
      if p1 >= 0x80 {
        var p2 := p1 / 0x80;
        assert Groups(p1) == [p1 % 0x80 + 0x80] + Groups(p2);
        if p2 >= 0x80 {
          var p3 := p2 / 0x80;
          assert Groups(p2) == [p2 % 0x80 + 0x80] + Groups(p3);
          if p3 >= 0x80 {
            var p4 := p3 / 0x80;
            assert Groups(p3) == [p3 % 0x80 + 0x80] + Groups(p4);
            assert p4 < 0x80;
          }
        }
      }
    }
  }

  /** writeVarInt writes exactly getVarIntSize(value) bytes, for every number. */
  lemma EncodeSize(value: int)
    ensures |Encode(value)| == Size(value)
  {
    GroupsLength(ToUint32(value));
    var v := ToInt32(value);
    assert ToUint32(value) == ToUint32(v);
    assert v >= 0 ==> ToUint32(value) == v;
  }

  /** The first byte of an encoding holds the low group, continued exactly when more groups follow. */
  lemma GroupsHead(p: nat)
    ensures Groups(p)[0] % 0x80 == p % 0x80
    ensures Groups(p)[0] < 0x80 <==> p / 0x80 == 0
  {
  }

  /** A complete VarInt: every byte but the last carries the continuation bit; the last does not. */
  predicate Complete(g: seq<byte>)
  {
    |g| >= 1 && g[|g| - 1] < 0x80 && forall i :: 0 <= i < |g| - 1 ==> g[i] >= 0x80
  }

  /** Every encoding is a complete VarInt. */
  lemma {:induction false} GroupsShape(p: nat)
    ensures Complete(Groups(p))
  {
    if p / 0x80 != 0 {
      GroupsShape(p / 0x80);
    }
  }

  // ---------------------------------------------------------------------
  // Decoder side

  /** Signed undoes ToUint32 on 32-bit values. */
  lemma SignedOfPattern(value: int)
    ensures Signed(ToUint32(value)) == ToInt32(value)
  {
  }

  /**
   * The pattern readVarInt's loop accumulates from the groups `g` when it
   * starts with `acc` after `count` bytes: each group, shifted by 7 bits per
   * byte already read, is ORed in.
   */
  function Accumulate(acc: uint32, count: nat, g: seq<byte>): uint32
    decreases |g|
  {
    if |g| == 0 then acc
    else
      var group := ShiftLeft(g[0] % 0x80, count * 7);
      BitOrPattern(acc, group);
      Accumulate(BitOr(acc, group), count + 1, g[1..])
  }

  /** The digit-splitting identities behind Step1 to Step4, one per group weight. */
  lemma Split2(p: uint32)
    ensures p % 0x80 + 0x80 * ((p / 0x80) % 0x80) == p % 0x4000
    ensures (p / 0x80) / 0x80 == p / 0x4000
  {
  }

  lemma Split3(p: uint32)
    ensures p % 0x4000 + 0x4000 * ((p / 0x4000) % 0x80) == p % 0x20_0000
    ensures (p / 0x4000) / 0x80 == p / 0x20_0000
  {
  }

  lemma Split4(p: uint32)
    ensures p % 0x20_0000 + 0x20_0000 * ((p / 0x20_0000) % 0x80) == p % 0x1000_0000
    ensures (p / 0x20_0000) / 0x80 == p / 0x1000_0000
  {
  }

  lemma Split5(p: uint32)
    ensures p / 0x1000_0000 < 0x10
    ensures p % 0x1000_0000 + 0x1000_0000 * (p / 0x1000_0000) == p
  {
  }

  // The facts one turn of readVarInt's loop needs, one group position at a time.

  lemma Shift0(d: nat)
    requires d < 0x80
    ensures ShiftLeft(d, 0) == 1 * d
  {
    assert Pow2(0) == 1 by { Pow2Groups(); }
    assert 0 <= 1 * d < 0x1_0000_0000;
  }

  lemma Shift7(d: nat)
    requires d < 0x80
    ensures ShiftLeft(d, 7) == 0x80 * d
  {
    assert Pow2(7) == 0x80 by { Pow2Groups(); }
    assert 0 <= 0x80 * d < 0x1_0000_0000;
  }

  lemma Or7(p: uint32, d: nat)
    ensures BitOr(p % 0x80, 0x80 * d) == p % 0x80 + 0x80 * d
  {
    Pow2Groups();
    BitOrDisjoint(p % 0x80, d, 7);
  }

  lemma Shift14(d: nat)
    requires d < 0x80
    ensures ShiftLeft(d, 14) == 0x4000 * d
  {
    assert Pow2(14) == 0x4000 by { Pow2Groups(); }
    assert 0 <= 0x4000 * d < 0x1_0000_0000;
  }

  lemma Or14(p: uint32, d: nat)
    ensures BitOr(p % 0x4000, 0x4000 * d) == p % 0x4000 + 0x4000 * d
  {
    Pow2Groups();
    BitOrDisjoint(p % 0x4000, d, 14);
  }

  lemma Shift21(d: nat)
    requires d < 0x80
    ensures ShiftLeft(d, 21) == 0x20_0000 * d
  {
    assert Pow2(21) == 0x20_0000 by { Pow2Groups(); }
    assert 0 <= 0x20_0000 * d < 0x1_0000_0000;
  }

  lemma Or21(p: uint32, d: nat)
    ensures BitOr(p % 0x20_0000, 0x20_0000 * d) == p % 0x20_0000 + 0x20_0000 * d
  {
    Pow2Groups();
    BitOrDisjoint(p % 0x20_0000, d, 21);
  }

  lemma Shift28(d: nat)
    requires d < 0x10
    ensures ShiftLeft(d, 28) == 0x1000_0000 * d
  {
    assert Pow2(28) == 0x1000_0000 by { Pow2Groups(); }
    assert 0 <= 0x1000_0000 * d < 0x1_0000_0000;
  }

  lemma Or28(p: uint32, d: nat)
    ensures BitOr(p % 0x1000_0000, 0x1000_0000 * d) == p % 0x1000_0000 + 0x1000_0000 * d
  {
    Pow2Groups();
    BitOrDisjoint(p % 0x1000_0000, d, 28);
  }

  lemma Step0(p: uint32)
    ensures BitOr(0, ShiftLeft(p % 0x80, 0)) == (if p / 0x80 == 0 then p else p % 0x80)
  {
    Shift0(p % 0x80);
    assert BitOr(0, p % 0x80) == p % 0x80;
  }

  lemma Step1(p: uint32)
    ensures BitOr(p % 0x80, ShiftLeft((p / 0x80) % 0x80, 7)) == (if (p / 0x80) / 0x80 == 0 then p else p % 0x4000)
    ensures (p / 0x80) / 0x80 == p / 0x4000
  {
    var d := (p / 0x80) % 0x80;
    Shift7(d);
    Or7(p, d);
    Split2(p);
    assert p / 0x4000 == 0 ==> p % 0x4000 == p;
  }

  lemma Step2(p: uint32)
    ensures BitOr(p % 0x4000, ShiftLeft((p / 0x4000) % 0x80, 14)) == (if (p / 0x4000) / 0x80 == 0 then p else p % 0x20_0000)
    ensures (p / 0x4000) / 0x80 == p / 0x20_0000
  {
    var d := (p / 0x4000) % 0x80;
    Shift14(d);
    Or14(p, d);
    Split3(p);
    assert p / 0x20_0000 == 0 ==> p % 0x20_0000 == p;
  }

  lemma Step3(p: uint32)
    ensures BitOr(p % 0x20_0000, ShiftLeft((p / 0x20_0000) % 0x80, 21)) == (if (p / 0x20_0000) / 0x80 == 0 then p else p % 0x1000_0000)
    ensures (p / 0x20_0000) / 0x80 == p / 0x1000_0000
  {
    var d := (p / 0x20_0000) % 0x80;
    Shift21(d);
    Or21(p, d);
    Split4(p);
    assert p / 0x1000_0000 == 0 ==> p % 0x1000_0000 == p;
  }

  lemma Step4(p: uint32)
    ensures (p / 0x1000_0000) / 0x80 == 0
    ensures BitOr(p % 0x1000_0000, ShiftLeft((p / 0x1000_0000) % 0x80, 28)) == p
  {
    var d := p / 0x1000_0000;
    Split5(p);
    assert d % 0x80 == d;
    Shift28(d);
    Or28(p, d);
  }

  /** One continued byte: readVarInt ORs its group in and goes on. */
  lemma DecodeFromContinue(data: seq<byte>, pos: nat, acc: uint32, count: nat, maxBytes: nat, skipIncomplete: bool, acc': uint32)
    requires pos < |data| && data[pos] >= 0x80 && count + 1 < maxBytes
    requires acc' == BitOr(acc, ShiftLeft(data[pos] % 0x80, count * 7))
    ensures DecodeFrom(data, pos, acc, count, maxBytes, skipIncomplete) == DecodeFrom(data, pos + 1, acc', count + 1, maxBytes, skipIncomplete)
  {
  }

  /** The last byte: readVarInt ORs its group in and returns the signed result. */
  lemma DecodeFromLast(data: seq<byte>, pos: nat, acc: uint32, count: nat, maxBytes: nat, skipIncomplete: bool, acc': uint32)
    requires pos < |data| && data[pos] < 0x80
    requires acc' == BitOr(acc, ShiftLeft(data[pos] % 0x80, count * 7))
    ensures DecodeFrom(data, pos, acc, count, maxBytes, skipIncomplete) == (Ok(Signed(acc')), pos + 1)
  {
  }

  lemma SliceTail(data: seq<byte>, pos: nat, g: seq<byte>)
    requires pos + |g| <= |data| && |g| >= 1 && data[pos..pos + |g|] == g
    ensures data[pos] == g[0] && data[pos + 1..pos + |g|] == g[1..]
  {
    assert data[pos + 1..pos + |g|] == data[pos..pos + |g|][1..];
  }

  /**
   * readVarInt reads a complete VarInt that fits its byte budget and
   * return the pattern its groups accumulate, leaving the cursor right
   * after the last byte.
   */
  lemma {:induction false} DecodeComplete(data: seq<byte>, pos: nat, acc: uint32, count: nat, maxBytes: nat, skipIncomplete: bool, g: seq<byte>)
    requires Complete(g) && pos + |g| <= |data| && data[pos..pos + |g|] == g && count + |g| <= maxBytes
    decreases |g|
    ensures DecodeFrom(data, pos, acc, count, maxBytes, skipIncomplete) == (Ok(Signed(Accumulate(acc, count, g))), pos + |g|)
  {
    SliceTail(data, pos, g);
    var group := ShiftLeft(g[0] % 0x80, count * 7);
    BitOrPattern(acc, group);
    var acc' := BitOr(acc, group);
    if |g| == 1 {
      DecodeFromLast(data, pos, acc, count, maxBytes, skipIncomplete, acc');
      assert Accumulate(acc, count, g) == Accumulate(acc', count + 1, []);
    } else {
      assert g[0] >= 0x80;
      DecodeFromContinue(data, pos, acc, count, maxBytes, skipIncomplete, acc');
      DecodeComplete(data, pos + 1, acc', count + 1, maxBytes, skipIncomplete, g[1..]);
    }
  }

  /** Setting the continuation bit leaves the group's data bits alone. */
  lemma ContinuedGroup(x: nat)
    ensures (x % 0x80 + 0x80) % 0x80 == x % 0x80
  {
  }

  /** Accumulating one more group: the first is ORed in at its shift. */
  lemma AccumulateCons(acc: uint32, count: nat, b: byte, rest: seq<byte>)
    ensures BitOr(acc, ShiftLeft(b % 0x80, count * 7)) < TWO32
    ensures Accumulate(acc, count, [b] + rest) == Accumulate(BitOr(acc, ShiftLeft(b % 0x80, count * 7)), count + 1, rest)
  {
    BitOrPattern(acc, ShiftLeft(b % 0x80, count * 7));
    assert ([b] + rest)[1..] == rest;
  }

  // Accumulating the groups of `p` gives back `p`, from the last group position down to the first.

  lemma Fold4(p: uint32)
    ensures Accumulate(p % 0x1000_0000, 4, Groups(p / 0x1000_0000)) == p
  {
    var w := p / 0x1000_0000;
    Step4(p);
    assert Groups(w) == [w % 0x80];
    assert Accumulate(p % 0x1000_0000, 4, [w % 0x80]) == Accumulate(p, 5, []);
  }

  lemma Fold3(p: uint32)
    ensures Accumulate(p % 0x20_0000, 3, Groups(p / 0x20_0000)) == p
  {
    var w := p / 0x20_0000;
    var g := Groups(w);
    Step3(p);
    if w / 0x80 == 0 {
      assert g == [w % 0x80];
      assert Accumulate(p % 0x20_0000, 3, g) == Accumulate(p, 4, []);
    } else {
      assert g == [w % 0x80 + 0x80] + Groups(p / 0x1000_0000);
      ContinuedGroup(w);
      AccumulateCons(p % 0x20_0000, 3, w % 0x80 + 0x80, Groups(p / 0x1000_0000));
      Fold4(p);
    }
  }

  lemma Fold2(p: uint32)
    ensures Accumulate(p % 0x4000, 2, Groups(p / 0x4000)) == p
  {
    var w := p / 0x4000;
    var g := Groups(w);
    Step2(p);
    if w / 0x80 == 0 {
      assert g == [w % 0x80];
      assert Accumulate(p % 0x4000, 2, g) == Accumulate(p, 3, []);
    } else {
      assert g == [w % 0x80 + 0x80] + Groups(p / 0x20_0000);
      ContinuedGroup(w);
      AccumulateCons(p % 0x4000, 2, w % 0x80 + 0x80, Groups(p / 0x20_0000));
      Fold3(p);
    }
  }

  lemma Fold1(p: uint32)
    ensures Accumulate(p % 0x80, 1, Groups(p / 0x80)) == p
  {
    var w := p / 0x80;
    var g := Groups(w);
    Step1(p);
    if w / 0x80 == 0 {
      assert g == [w % 0x80];
      assert Accumulate(p % 0x80, 1, g) == Accumulate(p, 2, []);
    } else {
      assert g == [w % 0x80 + 0x80] + Groups(p / 0x4000);
      ContinuedGroup(w);
      AccumulateCons(p % 0x80, 1, w % 0x80 + 0x80, Groups(p / 0x4000));
      Fold2(p);
    }
  }

  /** readVarInt's accumulation undoes writeVarInt's grouping. */
  lemma Fold0(p: uint32)
    ensures Accumulate(0, 0, Groups(p)) == p
  {
    var g := Groups(p);
    Step0(p);
    if p / 0x80 == 0 {
      assert g == [p % 0x80];
      assert Accumulate(0, 0, g) == Accumulate(p, 1, []);
    } else {
      assert g == [p % 0x80 + 0x80] + Groups(p / 0x80);
      ContinuedGroup(p);
      AccumulateCons(0, 0, p % 0x80 + 0x80, Groups(p / 0x80));
      Fold1(p);
    }
  }

  /**
   * readVarInt reads back what writeVarInt wrote: at a position holding the
   * encoding of `value`, with room for its size, it returns `value | 0` and
   * leaves the cursor right after it.
   */
  lemma DecodeAt(data: seq<byte>, pos: nat, value: int, maxBytes: nat, skipIncomplete: bool)
    requires pos + |Encode(value)| <= |data| && data[pos..pos + |Encode(value)|] == Encode(value)
    requires Size(value) <= maxBytes
    ensures pos + Size(value) <= |data|
    ensures Decode(data, pos, maxBytes, skipIncomplete) == (Ok(ToInt32(value)), pos + Size(value))
  {
    var p := ToUint32(value);
    EncodeSize(value);
    GroupsShape(p);
    DecodeComplete(data, pos, 0, 0, maxBytes, skipIncomplete, Encode(value));
    Fold0(p);
    SignedOfPattern(value);
  }

  /**
   * readVarInt at `pos` where the encoding of a 32-bit `value` starts and
   * `rest` follows: it returns `value` and leaves the cursor at `end`,
   * where `rest` starts.
   */
  lemma DecodeBefore(data: seq<byte>, pos: nat, value: int32, rest: seq<byte>, maxBytes: nat, skipIncomplete: bool, end: nat)
    requires pos <= |data| && data[pos..] == Encode(value) + rest
    requires Size(value) <= maxBytes && end == pos + Size(value)
    ensures end <= |data| && data[end..] == rest
    ensures Decode(data, pos, maxBytes, skipIncomplete) == (Ok(value), end)
  {
    EncodeSize(value);
    assert data[pos..pos + |Encode(value)|] == data[pos..][..|Encode(value)|];
    DecodeAt(data, pos, value, maxBytes, skipIncomplete);
    assert data[end..] == data[pos..][Size(value)..];
  }

  /** The VarInt round trip, wherever the encoding sits in a buffer. */
  lemma RoundTrip(prefix: seq<byte>, value: int, suffix: seq<byte>, maxBytes: nat, skipIncomplete: bool)
    requires Size(value) <= maxBytes
    ensures var data := prefix + Encode(value) + suffix;
      Decode(data, |prefix|, maxBytes, skipIncomplete) == (Ok(ToInt32(value)), |prefix| + Size(value))
  {
    var data := prefix + Encode(value) + suffix;
    assert data[|prefix|..|prefix| + |Encode(value)|] == Encode(value);
    DecodeAt(data, |prefix|, value, maxBytes, skipIncomplete);
  }

  /** How many bytes readVarInt may still read once `count` are consumed: the loop reads at least one. */
  function Cap(count: nat, maxBytes: nat): nat
  {
    if count + 1 >= maxBytes then 1 else maxBytes - count
  }

  lemma {:induction false} DecodeFromOutcome(data: seq<byte>, pos: nat, acc: uint32, count: nat, maxBytes: nat, skipIncomplete: bool)
    requires pos <= |data|
    decreases |data| - pos
    ensures var (res, end) := DecodeFrom(data, pos, acc, count, maxBytes, skipIncomplete);
      var cap := Cap(count, maxBytes);
      && end <= pos + cap
      && (res.Ok? <==> exists j :: pos <= j < |data| && j < pos + cap && data[j] < 0x80)
      && (res.Ok? ==> pos < end && data[end - 1] < 0x80)
      && (forall j :: pos <= j < end - 1 ==> data[j] >= 0x80)
      && (!res.Ok? ==> forall j :: pos <= j < end ==> data[j] >= 0x80)
      && (res.Incomplete? <==> skipIncomplete && |data| < pos + cap && forall j :: pos <= j < |data| ==> data[j] >= 0x80)
      && (res.Fail? ==> end == pos + cap || (!skipIncomplete && end == |data|))
  {
    if pos < |data| && data[pos] >= 0x80 && count + 1 < maxBytes {
      var group := ShiftLeft(data[pos] % 0x80, count * 7);
      BitOrPattern(acc, group);
      DecodeFromOutcome(data, pos + 1, BitOr(acc, group), count + 1, maxBytes, skipIncomplete);
    }
  }

  /**
   * What readVarInt(maxBytes, skipIncomplete) does, case by case. It reads
   * at most `maxBytes` bytes (at least one). It succeeds exactly when one
   * of them lacks the continuation bit, and then stops right after the
   * first such byte. It signals Incomplete exactly when `skipIncomplete`
   * is set and the buffer ends before the cap with every byte continued.
   * Otherwise it fails: either the cap was reached with every byte
   * continued, or the buffer ran out and incomplete data is not allowed.
   */
  lemma DecodeOutcome(data: seq<byte>, pos: nat, maxBytes: nat, skipIncomplete: bool)
    requires pos <= |data|
    ensures var (res, end) := Decode(data, pos, maxBytes, skipIncomplete);
      var cap := if maxBytes == 0 then 1 else maxBytes;
      && pos <= end <= pos + cap
      && (res.Ok? <==> exists j :: pos <= j < |data| && j < pos + cap && data[j] < 0x80)
      && (res.Ok? ==> pos < end && data[end - 1] < 0x80 && forall j :: pos <= j < end - 1 ==> data[j] >= 0x80)
      && (res.Incomplete? <==> skipIncomplete && |data| < pos + cap && forall j :: pos <= j < |data| ==> data[j] >= 0x80)
      && (res.Fail? <==> (forall j :: pos <= j < end ==> data[j] >= 0x80) && (end == pos + cap || (!skipIncomplete && end == |data|)))
  {
    DecodeFromOutcome(data, pos, 0, 0, maxBytes, skipIncomplete);
  }

  /**
   * readVarInt fails on a value whose encoding is longer than its cap: the
   * bytes within the cap all carry the continuation bit.
   */
  lemma BeyondCapFails(data: seq<byte>, pos: nat, value: int, maxBytes: nat, skipIncomplete: bool)
    requires pos + |Encode(value)| <= |data| && data[pos..pos + |Encode(value)|] == Encode(value)
    requires 1 <= maxBytes < Size(value)
    ensures Decode(data, pos, maxBytes, skipIncomplete).0.Fail?
  {
    EncodeSize(value);
    GroupsShape(ToUint32(value));
    var g := Encode(value);
    forall j | pos <= j < pos + maxBytes
      ensures data[j] >= 0x80
    {
      assert data[j] == g[j - pos];
    }
    DecodeOutcome(data, pos, maxBytes, skipIncomplete);
  }
}
