/**
 The Protocol Buffers form of a KeyValue: base-128 varints and length-delimited byte strings, each
 behind a tag with its field number and wire type.
 */
module Codec {
  import opened Bytes
  import opened Numbers

  datatype KeyValue = KeyValue(key: Bytes, createRevision: int, modRevision: int, version: int,
                               value: Bytes, lease: int, unrecognized: Bytes)

  const EMPTY := KeyValue([], 0, 0, 0, [], 0, [])

  datatype Error =
    | IntOverflow
    | UnexpectedEof
    | InvalidLength
    | EndGroup
    | IllegalTag
    | WrongWireType
    | UnexpectedEndOfGroup
    | IllegalWireType

  datatype Result<+T> = Ok(value: T) | Err(error: Error)

  /** Signed 64-bit integers and their unsigned form. */
  function ToUint64(x: int): nat
    requires Int64(x)
  {
    if x < 0 then x + TWO_64 else x
  }

  function ToInt64(u: nat): int {
    if u < TWO_63 then u else u - TWO_64
  }

  /** The sum of two 64-bit signed indices is too large and comes out negative. */
  predicate WrapsAround(i: nat, n: nat) {
    i + n >= TWO_63
  }

  lemma WrapsAroundIsNegative(i: nat, n: nat)
    requires i < TWO_63 && n < TWO_63
    ensures WrapsAround(i, n) <==> Wrap64(i + n) < 0
  {
  }

  predicate IntsFit(m: KeyValue) {
    Int64(m.createRevision) && Int64(m.modRevision) && Int64(m.version) && Int64(m.lease)
  }

  // ---------- Varints ----------

  function Varint(v: nat): (s: Bytes)
    ensures |s| > 0
  {
    if v < 128 then [v] else [v % 128 + 128] + Varint(v / 128)
  }

  /** The number of bits of a number. */
  function BitLen(x: nat): nat {
    if x == 0 then 0 else 1 + BitLen(x / 2)
  }

  /** sovKv: the length of a varint from the bit length, without building it. */
  function Sov(v: nat): nat {
    (BitLen(if v % 2 == 0 then v + 1 else v) + 6) / 7
  }

  lemma BitLenOdd(v: nat)
    requires v > 0
    ensures BitLen(if v % 2 == 0 then v + 1 else v) == BitLen(v)
  {
  }

  lemma BitLenHalf(v: nat)
    requires v > 0
    ensures BitLen(v) == 1 + BitLen(v / 2)
  {
  }

  lemma BitLenEighth(v: nat)
    requires v >= 4
    ensures BitLen(v) == 3 + BitLen(v / 8)
  {
    assert v / 2 / 2 == v / 4 && v / 4 / 2 == v / 8;
    BitLenHalf(v);
    BitLenHalf(v / 2);
    BitLenHalf(v / 4);
  }

  lemma BitLenBy128(v: nat)
    requires v >= 128
    ensures BitLen(v) == 7 + BitLen(v / 128)
  {
    assert v / 8 / 8 == v / 64 && v / 64 / 2 == v / 128;
    BitLenEighth(v);
    BitLenEighth(v / 8);
    BitLenHalf(v / 64);
  }

  lemma BitLenSmall(v: nat)
    requires 0 < v < 128
    ensures 1 <= BitLen(v) <= 7
  {
    if v >= 8 {
      BitLenEighth(v);
      BitLenBelow16(v / 8);
    } else {
      BitLenBelow16(v);
    }
  }

  lemma BitLenBelow16(v: nat)
    requires 0 < v < 16
    ensures 1 <= BitLen(v) <= 4
  {
    if v >= 4 {
      BitLenEighth(v);
      assert v / 8 <= 1;
    }
  }

  lemma {:induction false} SovIsLength(v: nat)
    ensures Sov(v) == |Varint(v)|
  {
    if v >= 128 {
      SovIsLength(v / 128);
      BitLenOdd(v);
      BitLenOdd(v / 128);
      BitLenBy128(v);
    } else if v > 0 {
      BitLenOdd(v);
      BitLenSmall(v);
    }
  }

  function ShiftLeft(x: nat, k: nat): nat
    decreases k, x
  {
    if k == 0 then x else 2 * ShiftLeft(x, k - 1)
  }

  lemma {:induction false} ShiftLeftValue(x: nat, k: nat)
    ensures ShiftLeft(x, k) == x * Pow2(k)
    decreases k
  {
    if k > 0 {
      ShiftLeftValue(x, k - 1);
    }
  }

  /** One more byte of a varint: its seven low bits shifted into place, cut off at 64 bits, and or-ed in. */
  function OrIn(b: byte, shift: nat, acc: nat): nat {
    BitOr(ShiftLeft(b % 128, shift) % TWO_64, acc)
  }

  /** One varint from index i on: seven bits at a time, or-ed in at the given shift, at most 64 bits. */
  function ReadVarint(data: Bytes, i: nat, shift: nat, acc: nat): (r: Result<(nat, nat)>)
    ensures r.Ok? ==> i < r.value.1 <= |data|
    decreases |data| - i
  {
    if shift >= 64 then Err(IntOverflow)
    else if i >= |data| then Err(UnexpectedEof)
    else
      var acc' := OrIn(data[i], shift, acc);
      if data[i] < 128 then Ok((acc', i + 1)) else ReadVarint(data, i + 1, shift + 7, acc')
  }

  predicate Holds(data: Bytes, i: nat, s: Bytes) {
    i + |s| <= |data| && data[i..i + |s|] == s
  }

  lemma HoldsSplit(data: Bytes, i: nat, a: Bytes, b: Bytes)
    ensures Holds(data, i, a + b) <==> Holds(data, i, a) && Holds(data, i + |a|, b)
  {
    if Holds(data, i, a + b) {
      var s := data[i..i + |a| + |b|];
      assert s == a + b && data[i..i + |a|] == s[..|a|] && data[i + |a|..i + |a| + |b|] == s[|a|..];
    }
    if Holds(data, i, a) && Holds(data, i + |a|, b) {
      assert data[i..i + |a| + |b|] == data[i..i + |a|] + data[i + |a|..i + |a| + |b|];
    }
  }

  lemma Pow2At16()
    ensures Pow2(7) == 128 && Pow2(16) == 65536
  {
    assert Pow2(4) == 16;
    assert Pow2(7) == 8 * Pow2(4);
    Pow2Sum(8, 8);
  }

  lemma Pow2At64()
    ensures Pow2(7) == 128 && Pow2(64) == TWO_64
  {
    Pow2At16();
    Pow2Sum(16, 16);
    Pow2Sum(32, 32);
  }

  lemma MulGrows(a: nat, b: nat, w: nat)
    requires a <= b
    ensures a * w <= b * w
  {
    assert b * w == a * w + (b - a) * w;
  }

  lemma ModSmall(x: nat)
    requires x < TWO_64
    ensures x % TWO_64 == x
  {
  }

  /** The bits of one more byte go above those already read. */
  lemma ChunkAbove(b: byte, acc: nat, shift: nat)
    requires acc < Pow2(shift) && b % 128 * Pow2(shift) + acc < TWO_64
    ensures OrIn(b, shift, acc) == b % 128 * Pow2(shift) + acc
    ensures b % 128 * Pow2(shift) + acc < Pow2(shift + 7) == Pow2(shift) * 128
  {
    var a, w := b % 128, Pow2(shift);
    ShiftLeftValue(a, shift);
    MulGrows(0, a, w);
    MulGrows(a, 127, w);
    ModSmall(a * w);
    OrOfDisjointBits(a, acc, shift);
    Pow2Sum(shift, 7);
    Pow2At16();
  }

  lemma SplitBy128(v: nat, w: nat)
    ensures v * w == v % 128 * w + v / 128 * (w * 128) && v % 128 * w <= v * w
  {
    assert v == v % 128 + v / 128 * 128;
    assert (v / 128 * 128) * w == v / 128 * (w * 128);
    MulGrows(v % 128, v, w);
  }

  lemma ShiftFits(v: nat, shift: nat)
    requires v * Pow2(shift) < TWO_64 && (shift == 0 || v > 0)
    ensures shift < 64
  {
    MulGrows(if v > 0 then 1 else 0, v, Pow2(shift));
    if shift >= 64 {
      Pow2At64();
      Pow2Monotone(64, shift);
    }
  }

  /** Reading a varint gives back the number, above whatever was read before it. */
  lemma {:induction false} VarintRoundTrip(data: Bytes, i: nat, v: nat, shift: nat, acc: nat)
    requires Holds(data, i, Varint(v)) && acc < Pow2(shift) && v * Pow2(shift) + acc < TWO_64 && (shift == 0 || v > 0)
    ensures ReadVarint(data, i, shift, acc) == Ok((v * Pow2(shift) + acc, i + |Varint(v)|))
    decreases v
  {
    ShiftFits(v, shift);
    SplitBy128(v, Pow2(shift));
    FirstByte(data, i, v);
    ChunkAbove(data[i], acc, shift);
    if v >= 128 {
      VarintRoundTrip(data, i + 1, v / 128, shift + 7, v % 128 * Pow2(shift) + acc);
    }
  }

  lemma FirstByte(data: Bytes, i: nat, v: nat)
    requires Holds(data, i, Varint(v))
    ensures i < |data| && data[i] % 128 == v % 128 && (data[i] < 128 <==> v < 128)
    ensures v >= 128 ==> Holds(data, i + 1, Varint(v / 128)) && |Varint(v)| == 1 + |Varint(v / 128)|
  {
    assert data[i] == data[i..i + |Varint(v)|][0];
    if v >= 128 {
      HoldsSplit(data, i, [v % 128 + 128], Varint(v / 128));
    }
  }

  lemma VarintReadsBack(data: Bytes, i: nat, v: nat)
    requires Holds(data, i, Varint(v)) && v < TWO_64
    ensures ReadVarint(data, i, 0, 0) == Ok((v, i + |Varint(v)|))
  {
    VarintRoundTrip(data, i, v, 0, 0);
  }

  lemma SignedRoundTrip(x: int)
    requires Int64(x)
    ensures ToUint64(x) < TWO_64 && ToInt64(ToUint64(x)) == x
  {
  }

  // ---------- Fields ----------

  /** Fields 1 and 5 hold byte strings, fields 2, 3, 4 and 6 hold integers. */
  predicate IsBytes(k: nat) {
    k == 1 || k == 5
  }

  predicate IsInt(k: nat) {
    k == 2 || k == 3 || k == 4 || k == 6
  }

  function BytesOf(m: KeyValue, k: nat): Bytes {
    if k == 1 then m.key else m.value
  }

  function IntOf(m: KeyValue, k: nat): (x: int)
    ensures IntsFit(m) ==> Int64(x)
  {
    if k == 2 then m.createRevision else if k == 3 then m.modRevision else if k == 4 then m.version else m.lease
  }

  function SetBytes(m: KeyValue, k: nat, b: Bytes): KeyValue {
    if k == 1 then m.(key := b) else m.(value := b)
  }

  function SetInt(m: KeyValue, k: nat, x: int): KeyValue {
    if k == 2 then m.(createRevision := x)
    else if k == 3 then m.(modRevision := x)
    else if k == 4 then m.(version := x)
    else m.(lease := x)
  }

  // ---------- Encoding ----------

  /** A field that has its default value is left out. */
  predicate Present(m: KeyValue, k: nat) {
    if IsBytes(k) then BytesOf(m, k) != [] else IntOf(m, k) != 0
  }

  function Tag(k: nat): byte
    requires 1 <= k <= 6
  {
    if IsBytes(k) then k * 8 + 2 else k * 8
  }

  function FieldBytes(m: KeyValue, k: nat): Bytes
    requires IntsFit(m) && 1 <= k <= 6
  {
    if !Present(m, k) then []
    else if IsBytes(k) then [Tag(k)] + Varint(|BytesOf(m, k)|) + BytesOf(m, k)
    else [Tag(k)] + Varint(ToUint64(IntOf(m, k)))
  }

  /** The fields from k on, in order, and the unrecognized bytes behind them. */
  function Fields(m: KeyValue, k: nat): Bytes
    requires IntsFit(m) && 1 <= k <= 7
    decreases 7 - k, m
  {
    if k == 7 then m.unrecognized else FieldBytes(m, k) + Fields(m, k + 1)
  }

  function Encode(m: KeyValue): Bytes
    requires IntsFit(m)
  {
    Fields(m, 1)
  }

  /** Size: the encoded length, added up field by field without encoding. */
  function FieldSize(m: KeyValue, k: nat): nat
    requires IntsFit(m)
  {
    if !Present(m, k) then 0
    else if IsBytes(k) then 1 + |BytesOf(m, k)| + Sov(|BytesOf(m, k)|)
    else 1 + Sov(ToUint64(IntOf(m, k)))
  }

  function Size(m: KeyValue): nat
    requires IntsFit(m)
  {
    FieldSize(m, 1) + FieldSize(m, 2) + FieldSize(m, 3) + FieldSize(m, 4) + FieldSize(m, 5) + FieldSize(m, 6)
    + |m.unrecognized|
  }

  lemma FieldSizeExact(m: KeyValue, k: nat)
    requires IntsFit(m) && 1 <= k <= 6
    ensures FieldSize(m, k) == |FieldBytes(m, k)|
  {
    if Present(m, k) {
      SovIsLength(if IsBytes(k) then |BytesOf(m, k)| else ToUint64(IntOf(m, k)));
    }
  }

  lemma FieldsUnrolled(m: KeyValue)
    requires IntsFit(m)
    ensures |Fields(m, 4)| == |FieldBytes(m, 4)| + |FieldBytes(m, 5)| + |FieldBytes(m, 6)| + |m.unrecognized|
    ensures |Encode(m)| == |FieldBytes(m, 1)| + |FieldBytes(m, 2)| + |FieldBytes(m, 3)| + |Fields(m, 4)|
  {
    assert |Fields(m, 6)| == |FieldBytes(m, 6)| + |Fields(m, 7)|;
    assert |Fields(m, 5)| == |FieldBytes(m, 5)| + |Fields(m, 6)|;
    assert |Fields(m, 4)| == |FieldBytes(m, 4)| + |Fields(m, 5)|;
    assert |Fields(m, 3)| == |FieldBytes(m, 3)| + |Fields(m, 4)|;
    assert |Fields(m, 2)| == |FieldBytes(m, 2)| + |Fields(m, 3)|;
  }

  /** The size computed beforehand is the length of the encoding. */
  lemma SizeExact(m: KeyValue)
    requires IntsFit(m)
    ensures Size(m) == |Encode(m)|
  {
    FieldSizeExact(m, 1);
    FieldSizeExact(m, 2);
    FieldSizeExact(m, 3);
    FieldSizeExact(m, 4);
    FieldSizeExact(m, 5);
    FieldSizeExact(m, 6);
    FieldsUnrolled(m);
  }

  // ---------- Decoding ----------

  /** A length-delimited byte string. Lengths and indices are 64-bit signed integers that may wrap around. */
  function ReadBytes(data: Bytes, i: nat): (r: Result<(Bytes, nat)>)
    requires |data| < TWO_63
    ensures r.Ok? ==> i < r.value.1 <= |data|
  {
    var n := ReadVarint(data, i, 0, 0);
    if n.Err? then Err(n.error)
    else
      var len, j := ToInt64(n.value.0), n.value.1;
      if len < 0 || WrapsAround(j, len) then Err(InvalidLength)
      else if j + len > |data| then Err(UnexpectedEof)
      else Ok((data[j..j + len], j + len))
  }

  /** The low 32 bits as a signed number, as the field number is taken from the tag. */
  function ToInt32(u: nat): int {
    var low := u % TWO_32;
    if low >= TWO_32 / 2 then low - TWO_32 else low
  }

  /** skipKv from index i inside so many groups: where the skipped field ends, perhaps past the data. */
  function SkipFrom(data: Bytes, i: nat, depth: nat): (r: Result<nat>)
    requires |data| < TWO_63
    ensures r.Ok? ==> r.value > i
    decreases if i < |data| then |data| - i else 0
  {
    if i >= |data| then Err(UnexpectedEof)
    else
      var wire := ReadVarint(data, i, 0, 0);
      if wire.Err? then Err(wire.error)
      else
        var step := SkipOne(data, wire.value.0 % 8, wire.value.1, depth);
        if step.Err? then Err(step.error)
        else if step.value.1 == 0 then Ok(step.value.0)
        else SkipFrom(data, step.value.0, step.value.1)
  }

  /** One wire type of skipKv: the index behind it and the group depth. */
  function SkipOne(data: Bytes, wireType: nat, i: nat, depth: nat): (r: Result<(nat, nat)>)
    requires |data| < TWO_63 && i <= |data|
    ensures r.Ok? ==> r.value.0 >= i
  {
    if wireType == 0 then
      var n := ReadVarint(data, i, 0, 0);
      if n.Err? then Err(n.error) else Ok((n.value.1, depth))
    else if wireType == 1 then Moved(i, 8, depth)
    else if wireType == 2 then
      var n := ReadVarint(data, i, 0, 0);
      if n.Err? then Err(n.error)
      else if ToInt64(n.value.0) < 0 then Err(InvalidLength)
      else Moved(n.value.1, ToInt64(n.value.0), depth)
    else if wireType == 3 then Ok((i, depth + 1))
    else if wireType == 4 then
      if depth == 0 then Err(UnexpectedEndOfGroup) else Ok((i, depth - 1))
    else if wireType == 5 then Moved(i, 4, depth)
    else Err(IllegalWireType)
  }

  /** Advance an index; an advance that wraps around to a negative index is an error. */
  function Moved(i: nat, amount: nat, depth: nat): (r: Result<(nat, nat)>)
    ensures r.Ok? ==> r.value.0 == i + amount
  {
    if WrapsAround(i, amount) then Err(InvalidLength) else Ok((i + amount, depth))
  }

  /** One field from index i on: the message with it, and the index behind it. */
  function DecodeField(m: KeyValue, data: Bytes, i: nat): (r: Result<(KeyValue, nat)>)
    requires |data| < TWO_63 && i < |data|
    ensures r.Ok? ==> i < r.value.1 <= |data|
  {
    var wire := ReadVarint(data, i, 0, 0);
    if wire.Err? then Err(wire.error)
    else
      var j, fieldNum, wireType := wire.value.1, ToInt32(wire.value.0 / 8), wire.value.0 % 8;
      if wireType == 4 then Err(EndGroup)
      else if fieldNum <= 0 then Err(IllegalTag)
      else if IsBytes(fieldNum) then
        if wireType != 2 then Err(WrongWireType)
        else
          var b := ReadBytes(data, j);
          if b.Err? then Err(b.error) else Ok((SetBytes(m, fieldNum, b.value.0), b.value.1))
      else if IsInt(fieldNum) then
        if wireType != 0 then Err(WrongWireType)
        else
          var n := ReadVarint(data, j, 0, 0);
          if n.Err? then Err(n.error) else Ok((SetInt(m, fieldNum, ToInt64(n.value.0)), n.value.1))
      else
        var n := SkipFrom(data[i..], 0, 0);
        if n.Err? then Err(n.error)
        else if i + n.value > |data| then Err(if WrapsAround(i, n.value) then InvalidLength else UnexpectedEof)
        else Ok((m.(unrecognized := m.unrecognized + data[i..i + n.value]), i + n.value))
  }

  /** Unmarshal: field by field into an existing message. */
  function Decode(m: KeyValue, data: Bytes, i: nat): Result<KeyValue>
    requires |data| < TWO_63 && i <= |data|
    decreases |data| - i
  {
    if i == |data| then Ok(m)
    else
      var r := DecodeField(m, data, i);
      if r.Err? then Err(r.error) else Decode(r.value.0, data, r.value.1)
  }

  // ---------- After an error ----------

  /** What has been or-ed in when the reading of a varint stops, at its end or at an error. */
  function Accumulated(data: Bytes, i: nat, shift: nat, acc: nat): nat
    decreases |data| - i
  {
    if shift >= 64 || i >= |data| then acc
    else
      var acc' := OrIn(data[i], shift, acc);
      if data[i] < 128 then acc' else Accumulated(data, i + 1, shift + 7, acc')
  }

  /** The message after a field that cannot be decoded: an integer is read in place, so part of it is left there. */
  function AfterFailure(m: KeyValue, data: Bytes, i: nat): KeyValue {
    var wire := ReadVarint(data, i, 0, 0);
    if wire.Err? then m
    else
      var fieldNum := ToInt32(wire.value.0 / 8);
      if wire.value.0 % 8 == 0 && fieldNum > 0 && IsInt(fieldNum)
      then SetInt(m, fieldNum, ToInt64(Accumulated(data, wire.value.1, 0, 0)))
      else m
  }

  /** What a message holds after Unmarshal, whether it succeeds or not. */
  function Held(m: KeyValue, data: Bytes, i: nat): KeyValue
    requires |data| < TWO_63 && i <= |data|
    decreases |data| - i
  {
    if i == |data| then m
    else
      var r := DecodeField(m, data, i);
      if r.Err? then AfterFailure(m, data, i) else Held(r.value.0, data, r.value.1)
  }

  /** On success that is the message decoded. */
  lemma {:induction false} HeldIsDecoded(m: KeyValue, data: Bytes, i: nat)
    requires |data| < TWO_63 && i <= |data|
    ensures Decode(m, data, i).Ok? ==> Held(m, data, i) == Decode(m, data, i).value
    decreases |data| - i
  {
    if i < |data| {
      var r := DecodeField(m, data, i);
      if r.Ok? {
        HeldIsDecoded(r.value.0, data, r.value.1);
      }
    }
  }

  // ---------- Round trip ----------

  /** A message with field k of another one, if it is present there. */
  function WithField(m0: KeyValue, m: KeyValue, k: nat): KeyValue {
    if !Present(m, k) then m0
    else if IsBytes(k) then SetBytes(m0, k, BytesOf(m, k)) else SetInt(m0, k, IntOf(m, k))
  }

  /** A message with the fields of another one, from k on, wherever those are present. */
  function Overlay(m0: KeyValue, m: KeyValue, k: nat): KeyValue
    requires 1 <= k <= 7
    decreases 7 - k, m
  {
    if k == 7 then m0 else Overlay(WithField(m0, m, k), m, k + 1)
  }

  lemma TagReadsBack(data: Bytes, i: nat, k: nat)
    requires 1 <= k <= 6 && Holds(data, i, [Tag(k)])
    ensures ReadVarint(data, i, 0, 0) == Ok((Tag(k), i + 1)) && ToInt32(Tag(k) / 8) == k
    ensures Tag(k) % 8 == if IsBytes(k) then 2 else 0
  {
    assert Varint(Tag(k)) == [Tag(k)];
    VarintReadsBack(data, i, Tag(k));
  }

  lemma BytesReadBack(data: Bytes, i: nat, b: Bytes)
    requires |data| < TWO_63 && Holds(data, i, Varint(|b|)) && Holds(data, i + |Varint(|b|)|, b)
    ensures ReadBytes(data, i) == Ok((b, i + |Varint(|b|)| + |b|))
  {
    var j := i + |Varint(|b|)|;
    assert j + |b| <= |data|;
    VarintReadsBack(data, i, |b|);
  }

  lemma FieldReadsBack(m0: KeyValue, m: KeyValue, data: Bytes, i: nat, k: nat)
    requires IntsFit(m) && 1 <= k <= 6 && Present(m, k) && |data| < TWO_63 && Holds(data, i, FieldBytes(m, k))
    ensures i < |data| && DecodeField(m0, data, i) == Ok((WithField(m0, m, k), i + |FieldBytes(m, k)|))
  {
    if IsBytes(k) {
      var b := BytesOf(m, k);
      HoldsSplit(data, i, [Tag(k)] + Varint(|b|), b);
      HoldsSplit(data, i, [Tag(k)], Varint(|b|));
      BytesReadBack(data, i + 1, b);
    } else {
      var x := IntOf(m, k);
      HoldsSplit(data, i, [Tag(k)], Varint(ToUint64(x)));
      SignedRoundTrip(x);
      VarintReadsBack(data, i + 1, ToUint64(x));
    }
    TagReadsBack(data, i, k);
  }

  lemma FieldThenRest(m: KeyValue, data: Bytes, i: nat, k: nat)
    requires IntsFit(m) && 1 <= k <= 6 && Holds(data, i, Fields(m, k))
    ensures Holds(data, i, FieldBytes(m, k)) && Holds(data, i + |FieldBytes(m, k)|, Fields(m, k + 1))
    ensures |Fields(m, k)| == |FieldBytes(m, k)| + |Fields(m, k + 1)|
  {
    HoldsSplit(data, i, FieldBytes(m, k), Fields(m, k + 1));
  }

  lemma DecodeOneField(m0: KeyValue, m: KeyValue, data: Bytes, i: nat, k: nat, m1: KeyValue, e: Bytes)
    requires IntsFit(m) && 1 <= k <= 6 && m1 == WithField(m0, m, k) && e == FieldBytes(m, k)
    requires |data| < TWO_63 && Holds(data, i, e)
    ensures Decode(m0, data, i) == Decode(m1, data, i + |e|)
  {
    if Present(m, k) {
      FieldReadsBack(m0, m, data, i, k);
    }
  }

  function DecodeIn(data: Bytes): (KeyValue, nat) -> Result<KeyValue>
    requires |data| < TWO_63
  {
    (x: KeyValue, j: nat) => if j <= |data| then Decode(x, data, j) else Err(UnexpectedEof)
  }

  lemma StepIn(x: KeyValue, m: KeyValue, data: Bytes, j: nat, n: nat, y: KeyValue, e: Bytes)
    requires IntsFit(m) && 1 <= n <= 6 && y == WithField(x, m, n) && e == FieldBytes(m, n)
    requires |data| < TWO_63 && Holds(data, j, e)
    ensures DecodeIn(data)(x, j) == DecodeIn(data)(y, j + |e|)
  {
    DecodeOneField(x, m, data, j, n, y, e);
  }

  lemma OverlayStep(m0: KeyValue, m: KeyValue, k: nat)
    requires 1 <= k <= 6
    ensures Overlay(m0, m, k) == Overlay(WithField(m0, m, k), m, k + 1)
  {
  }

  /** What holds of each field holds of all of them in a row, whatever is computed from message and index. */
  lemma {:induction false} FieldsChain<R>(f: (KeyValue, nat) -> R, m0: KeyValue, m: KeyValue, data: Bytes, i: nat, k: nat)
    requires IntsFit(m) && m.unrecognized == [] && 1 <= k <= 7 && Holds(data, i, Fields(m, k))
    requires forall x, j: nat, n | 1 <= n <= 6 && Holds(data, j, FieldBytes(m, n)) ::
               f(x, j) == f(WithField(x, m, n), j + |FieldBytes(m, n)|)
    ensures f(m0, i) == f(Overlay(m0, m, k), i + |Fields(m, k)|)
    decreases 7 - k
  {
    if k < 7 {
      FieldThenRest(m, data, i, k);
      var m1, j := WithField(m0, m, k), i + |FieldBytes(m, k)|;
      assert f(m0, i) == f(m1, j);
      OverlayStep(m0, m, k);
      FieldsChain(f, m1, m, data, j, k + 1);
    }
  }

  /** Decoding an encoded message overlays it on the message decoded into, and goes on behind it. */
  lemma FieldsReadBack(m0: KeyValue, m: KeyValue, data: Bytes, i: nat)
    requires IntsFit(m) && m.unrecognized == [] && |data| < TWO_63 && Holds(data, i, Encode(m))
    ensures Decode(m0, data, i) == Decode(Overlay(m0, m, 1), data, i + |Encode(m)|)
  {
    forall x, j: nat, n | 1 <= n <= 6 && Holds(data, j, FieldBytes(m, n))
      ensures DecodeIn(data)(x, j) == DecodeIn(data)(WithField(x, m, n), j + |FieldBytes(m, n)|)
    {
      StepIn(x, m, data, j, n, WithField(x, m, n), FieldBytes(m, n));
    }
    FieldsChain(DecodeIn(data), m0, m, data, i, 1);
    assert DecodeIn(data)(m0, i) == Decode(m0, data, i);
  }

  lemma DecodeToTheEnd(m0: KeyValue, m: KeyValue, data: Bytes, i: nat)
    requires IntsFit(m) && m.unrecognized == [] && |data| < TWO_63
    requires Holds(data, i, Encode(m)) && i + |Encode(m)| == |data|
    ensures Decode(m0, data, i) == Ok(Overlay(m0, m, 1))
  {
    FieldsReadBack(m0, m, data, i);
  }

  /** Decoding onto an existing message: present fields replace, absent ones stay. */
  lemma UnmarshalOverlays(m0: KeyValue, m: KeyValue)
    requires IntsFit(m) && m.unrecognized == [] && |Encode(m)| < TWO_63
    ensures Decode(m0, Encode(m), 0) == Ok(Overlay(m0, m, 1))
  {
    assert Holds(Encode(m), 0, Encode(m));
    DecodeToTheEnd(m0, m, Encode(m), 0);
  }

  lemma OverlayOnEmpty(m: KeyValue)
    requires m.unrecognized == []
    ensures Overlay(EMPTY, m, 1) == m
  {
    var m1 := WithField(EMPTY, m, 1);
    var m2 := WithField(m1, m, 2);
    var m3 := WithField(m2, m, 3);
    var m4 := WithField(m3, m, 4);
    var m5 := WithField(m4, m, 5);
    assert Overlay(m5, m, 6) == Overlay(WithField(m5, m, 6), m, 7) == m;
    assert Overlay(m3, m, 4) == Overlay(m4, m, 5) == Overlay(m5, m, 6);
    assert Overlay(m1, m, 2) == Overlay(m2, m, 3) == Overlay(m3, m, 4);
  }

  /** Unmarshal undoes Marshal. */
  lemma RoundTrip(m: KeyValue)
    requires IntsFit(m) && m.unrecognized == [] && |Encode(m)| < TWO_63
    ensures Decode(EMPTY, Encode(m), 0) == Ok(m)
  {
    UnmarshalOverlays(EMPTY, m);
    OverlayOnEmpty(m);
  }

  lemma DecodeBoth(m0: KeyValue, a: KeyValue, b: KeyValue, data: Bytes)
    requires IntsFit(a) && IntsFit(b) && a.unrecognized == b.unrecognized == [] && |data| < TWO_63
    requires Holds(data, 0, Encode(a)) && Holds(data, |Encode(a)|, Encode(b)) && |data| == |Encode(a)| + |Encode(b)|
    ensures Decode(m0, data, 0) == Ok(Overlay(Overlay(m0, a, 1), b, 1))
  {
    var m1 := Overlay(m0, a, 1);
    DecodeToTheEnd(m1, b, data, |Encode(a)|);
    FieldsReadBack(m0, a, data, 0);
  }

  /** Encodings put one after the other decode to the first message overlaid with the second. */
  lemma LastOneWins(a: KeyValue, b: KeyValue)
    requires IntsFit(a) && IntsFit(b) && a.unrecognized == b.unrecognized == [] && |Encode(a) + Encode(b)| < TWO_63
    ensures Decode(EMPTY, Encode(a) + Encode(b), 0) == Ok(Overlay(a, b, 1))
  {
    var data := Encode(a) + Encode(b);
    assert Holds(data, 0, data);
    HoldsSplit(data, 0, Encode(a), Encode(b));
    OverlayOnEmpty(a);
    DecodeBoth(EMPTY, a, b, data);
  }

  // ---------- Unrecognized fields ----------

  function WithUnrecognized(m: KeyValue, s: Bytes): KeyValue {
    m.(unrecognized := m.unrecognized + s)
  }

  function Concat(parts: seq<Bytes>): Bytes {
    if parts == [] then [] else parts[0] + Concat(parts[1..])
  }

  /** Exactly one field, perhaps a group, with a number beyond the known ones: decoding keeps it without looking inside. */
  predicate IsUnknownField(e: Bytes) {
    && 0 < |e| < TWO_63
    && var wire := ReadVarint(e, 0, 0, 0);
       wire.Ok? && wire.value.0 % 8 != 4 && ToInt32(wire.value.0 / 8) >= 7 && SkipFrom(e, 0, 0) == Ok(|e|)
  }

  ghost predicate AreUnknownFields(parts: seq<Bytes>) {
    forall p | p in parts :: IsUnknownField(p)
  }

  /** A varint is read from the bytes up to its end and no others. */
  lemma {:induction false} VarintPrefix(a: Bytes, b: Bytes, i: nat, shift: nat, acc: nat, n: nat)
    requires n <= |a| && n <= |b| && a[..n] == b[..n]
    requires ReadVarint(a, i, shift, acc).Ok? && ReadVarint(a, i, shift, acc).value.1 <= n
    ensures ReadVarint(b, i, shift, acc) == ReadVarint(a, i, shift, acc)
    decreases |a| - i
  {
    assert a[i] == a[..n][i] == b[..n][i] == b[i];
    if a[i] >= 128 {
      VarintPrefix(a, b, i + 1, shift + 7, OrIn(a[i], shift, acc), n);
    }
  }

  /** Where the data begins does not matter either. */
  lemma {:induction false} VarintShift(data: Bytes, i: nat, k: nat, shift: nat, acc: nat)
    requires i <= |data| && ReadVarint(data[i..], k, shift, acc).Ok?
    ensures var r := ReadVarint(data[i..], k, shift, acc).value; ReadVarint(data, i + k, shift, acc) == Ok((r.0, i + r.1))
    decreases |data| - i - k
  {
    assert data[i..][k] == data[i + k];
    if data[i + k] >= 128 {
      VarintShift(data, i, k + 1, shift + 7, OrIn(data[i + k], shift, acc));
    }
  }

  lemma SkipOnePrefix(a: Bytes, b: Bytes, wireType: nat, i: nat, depth: nat, n: nat)
    requires |a| < TWO_63 && |b| < TWO_63 && i <= n <= |a| && n <= |b| && a[..n] == b[..n]
    requires SkipOne(a, wireType, i, depth).Ok? && SkipOne(a, wireType, i, depth).value.0 <= n
    ensures SkipOne(b, wireType, i, depth) == SkipOne(a, wireType, i, depth)
  {
    if wireType == 0 || wireType == 2 {
      VarintPrefix(a, b, i, 0, 0, n);
    }
  }

  /** Skipping looks only at the bytes skipped. */
  lemma {:induction false} SkipPrefix(a: Bytes, b: Bytes, i: nat, depth: nat, n: nat)
    requires |a| < TWO_63 && |b| < TWO_63 && n <= |a| && n <= |b| && a[..n] == b[..n]
    requires SkipFrom(a, i, depth) == Ok(n)
    ensures SkipFrom(b, i, depth) == Ok(n) && ReadVarint(b, i, 0, 0) == ReadVarint(a, i, 0, 0)
    decreases if i < |a| then |a| - i else 0
  {
    var wire := ReadVarint(a, i, 0, 0);
    var step := SkipOne(a, wire.value.0 % 8, wire.value.1, depth);
    VarintPrefix(a, b, i, 0, 0, n);
    SkipOnePrefix(a, b, wire.value.0 % 8, wire.value.1, depth, n);
    if step.value.1 != 0 {
      SkipPrefix(a, b, step.value.0, step.value.1, n);
    }
  }

  /** An unknown field is kept verbatim wherever it stands. */
  lemma FieldKept(m: KeyValue, e: Bytes, data: Bytes, i: nat)
    requires IsUnknownField(e) && |data| < TWO_63 && Holds(data, i, e)
    ensures DecodeField(m, data, i) == Ok((WithUnrecognized(m, e), i + |e|))
  {
    var rest := data[i..];
    assert e[..|e|] == e == rest[..|e|];
    SkipPrefix(e, rest, 0, 0, |e|);
    VarintShift(data, i, 0, 0, 0);
  }

  /** Whatever decoding one field adds to the unrecognized bytes is an unknown field. */
  lemma OnlyFieldsKept(m: KeyValue, data: Bytes, i: nat)
    requires |data| < TWO_63 && i < |data| && DecodeField(m, data, i).Ok?
    ensures var (r, j) := DecodeField(m, data, i).value;
            || r.unrecognized == m.unrecognized
            || (IsUnknownField(data[i..j]) && r.unrecognized == m.unrecognized + data[i..j])
  {
    var j := DecodeField(m, data, i).value.1;
    var wire := ReadVarint(data, i, 0, 0);
    var fieldNum := ToInt32(wire.value.0 / 8);
    if !IsBytes(fieldNum) && !IsInt(fieldNum) {
      var rest, e := data[i..], data[i..j];
      assert rest[..j - i] == e == e[..j - i];
      SkipPrefix(rest, e, 0, 0, j - i);
      VarintShift(data, i, 0, 0, 0);
    }
  }

  /** What decoding adds to the unrecognized bytes is a row of unknown fields. */
  lemma {:induction false} DecodedFields(m: KeyValue, data: Bytes, i: nat) returns (parts: seq<Bytes>)
    requires |data| < TWO_63 && i <= |data| && Decode(m, data, i).Ok?
    ensures AreUnknownFields(parts) && Decode(m, data, i).value.unrecognized == m.unrecognized + Concat(parts)
    decreases |data| - i
  {
    if i == |data| {
      parts := [];
      assert m.unrecognized + [] == m.unrecognized;
    } else {
      OnlyFieldsKept(m, data, i);
      var (r, j) := DecodeField(m, data, i).value;
      var rest := DecodedFields(r, data, j);
      if r.unrecognized == m.unrecognized {
        parts := rest;
      } else {
        parts := [data[i..j]] + rest;
        assert parts[1..] == rest;
        Regrouped(m.unrecognized, data[i..j], Concat(rest));
      }
    }
  }

  lemma WithUnrecognizedTwice(m: KeyValue, a: Bytes, b: Bytes)
    ensures WithUnrecognized(WithUnrecognized(m, a), b) == WithUnrecognized(m, a + b) && WithUnrecognized(m, []) == m
  {
    assert m.unrecognized + a + b == m.unrecognized + (a + b) && m.unrecognized + [] == m.unrecognized;
  }

  /** Bytes that decoding passes by, keeping them. */
  ghost predicate PassedBy(e: Bytes, data: Bytes)
    requires |data| < TWO_63
  {
    forall x, j: nat | Holds(data, j, e) :: DecodeIn(data)(x, j) == DecodeIn(data)(WithUnrecognized(x, e), j + |e|)
  }

  lemma PassedByIfKept(e: Bytes, data: Bytes)
    requires |data| < TWO_63
    requires forall x, j: nat | Holds(data, j, e) :: Decode(x, data, j) == Decode(WithUnrecognized(x, e), data, j + |e|)
    ensures PassedBy(e, data)
  {
  }

  lemma UnknownPassedBy(e: Bytes, data: Bytes)
    requires IsUnknownField(e) && |data| < TWO_63
    ensures PassedBy(e, data)
  {
    forall x, j: nat | Holds(data, j, e) ensures Decode(x, data, j) == Decode(WithUnrecognized(x, e), data, j + |e|) {
      FieldKept(x, e, data, j);
    }
    PassedByIfKept(e, data);
  }

  /** What holds of each part holds of all of them in a row, whatever is computed from message and index. */
  lemma {:induction false} PartsChain<R>(f: (KeyValue, nat) -> R, m: KeyValue, parts: seq<Bytes>, data: Bytes, i: nat)
    requires Holds(data, i, Concat(parts))
    requires forall x, j: nat, p | p in parts && Holds(data, j, p) :: f(x, j) == f(WithUnrecognized(x, p), j + |p|)
    ensures f(m, i) == f(WithUnrecognized(m, Concat(parts)), i + |Concat(parts)|)
    decreases parts
  {
    if parts == [] {
      WithUnrecognizedTwice(m, [], []);
    } else {
      var p, rest := parts[0], Concat(parts[1..]);
      HoldsSplit(data, i, p, rest);
      WithUnrecognizedTwice(m, p, rest);
      assert f(m, i) == f(WithUnrecognized(m, p), i + |p|);
      PartsChain(f, WithUnrecognized(m, p), parts[1..], data, i + |p|);
    }
  }

  /** Unknown fields in a row are all kept, in order. */
  lemma UnknownsKept(m: KeyValue, parts: seq<Bytes>, data: Bytes, i: nat)
    requires AreUnknownFields(parts) && |data| < TWO_63
    requires Holds(data, i, Concat(parts)) && i + |Concat(parts)| == |data|
    ensures Decode(m, data, i) == Ok(WithUnrecognized(m, Concat(parts)))
  {
    forall p | p in parts ensures PassedBy(p, data) {
      UnknownPassedBy(p, data);
    }
    PartsChain(DecodeIn(data), m, parts, data, i);
    assert DecodeIn(data)(m, i) == Decode(m, data, i);
  }

  lemma FieldOfKnown(m: KeyValue, k: nat)
    requires IntsFit(m) && 1 <= k <= 6
    ensures FieldBytes(m.(unrecognized := []), k) == FieldBytes(m, k)
  {
  }

  lemma Regrouped(a: Bytes, b: Bytes, c: Bytes)
    ensures a + (b + c) == a + b + c
  {
  }

  lemma {:induction false} FieldsOfKnown(m: KeyValue, k: nat)
    requires IntsFit(m) && 1 <= k <= 7
    ensures Fields(m, k) == Fields(m.(unrecognized := []), k) + m.unrecognized
    decreases 7 - k
  {
    if k < 7 {
      FieldsOfKnown(m, k + 1);
      FieldOfKnown(m, k);
      Regrouped(FieldBytes(m, k), Fields(m.(unrecognized := []), k + 1), m.unrecognized);
    }
  }

  lemma KnownThenUnknown(known: KeyValue, parts: seq<Bytes>, data: Bytes)
    requires IntsFit(known) && known.unrecognized == [] && AreUnknownFields(parts) && |data| < TWO_63
    requires Holds(data, 0, Encode(known)) && Holds(data, |Encode(known)|, Concat(parts))
    requires |Encode(known)| + |Concat(parts)| == |data|
    ensures Decode(EMPTY, data, 0) == Ok(WithUnrecognized(known, Concat(parts)))
  {
    UnknownsKept(known, parts, data, |Encode(known)|);
    OverlayOnEmpty(known);
    FieldsReadBack(EMPTY, known, data, 0);
  }

  /** Unmarshal undoes Marshal also when the message carries fields of a later version: none of them is lost. */
  lemma RoundTripWithUnknown(m: KeyValue, parts: seq<Bytes>)
    requires IntsFit(m) && AreUnknownFields(parts) && m.unrecognized == Concat(parts) && |Encode(m)| < TWO_63
    ensures Decode(EMPTY, Encode(m), 0) == Ok(m)
  {
    var known, data := m.(unrecognized := []), Encode(m);
    FieldsOfKnown(m, 1);
    assert Holds(data, 0, data);
    HoldsSplit(data, 0, Encode(known), m.unrecognized);
    KnownThenUnknown(known, parts, data);
    assert [] + m.unrecognized == m.unrecognized;
  }

  /** Exactly when Unmarshal undoes Marshal: when the unrecognized bytes are a row of unknown fields, groups included. */
  lemma RoundTripExactly(m: KeyValue)
    requires IntsFit(m) && |Encode(m)| < TWO_63
    ensures Decode(EMPTY, Encode(m), 0) == Ok(m)
       <==> exists parts :: AreUnknownFields(parts) && m.unrecognized == Concat(parts)
  {
    if Decode(EMPTY, Encode(m), 0) == Ok(m) {
      var parts := DecodedFields(EMPTY, Encode(m), 0);
      assert [] + Concat(parts) == Concat(parts);
    }
    if parts :| AreUnknownFields(parts) && m.unrecognized == Concat(parts) {
      RoundTripWithUnknown(m, parts);
    }
  }

  lemma {:induction false} VarintFits(data: Bytes, i: nat, shift: nat, acc: nat)
    requires acc < TWO_64 && ReadVarint(data, i, shift, acc).Ok?
    ensures ReadVarint(data, i, shift, acc).value.0 < TWO_64
    decreases |data| - i
  {
    Pow2At64();
    OrStaysBelow(ShiftLeft(data[i] % 128, shift) % TWO_64, acc, 64);
    if data[i] >= 128 {
      VarintFits(data, i + 1, shift + 7, OrIn(data[i], shift, acc));
    }
  }

  lemma FieldFits(m: KeyValue, data: Bytes, i: nat)
    requires |data| < TWO_63 && i < |data| && IntsFit(m) && DecodeField(m, data, i).Ok?
    ensures IntsFit(DecodeField(m, data, i).value.0)
  {
    var wire := ReadVarint(data, i, 0, 0);
    if IsInt(ToInt32(wire.value.0 / 8)) {
      VarintFits(data, wire.value.1, 0, 0);
    }
  }

  lemma {:induction false} DecodedFits(m: KeyValue, data: Bytes, i: nat)
    requires |data| < TWO_63 && i <= |data| && IntsFit(m) && Decode(m, data, i).Ok?
    ensures IntsFit(Decode(m, data, i).value)
    decreases |data| - i
  {
    if i < |data| {
      FieldFits(m, data, i);
      DecodedFits(DecodeField(m, data, i).value.0, data, DecodeField(m, data, i).value.1);
    }
  }

  /** So every message that was unmarshalled from some data can be marshalled and unmarshalled again without a change. */
  lemma DecodedRoundTrips(data: Bytes, m: KeyValue)
    requires |data| < TWO_63 && Decode(EMPTY, data, 0) == Ok(m) && (IntsFit(m) ==> |Encode(m)| < TWO_63)
    ensures IntsFit(m) && Decode(EMPTY, Encode(m), 0) == Ok(m)
  {
    DecodedFits(EMPTY, data, 0);
    var parts := DecodedFields(EMPTY, data, 0);
    assert [] + Concat(parts) == Concat(parts);
    RoundTripWithUnknown(m, parts);
  }

  // ---------- Fields of a later version ----------

  /** A field with a number beyond the known ones: an integer, a byte string, or four or eight raw bytes. */
  datatype Unknown = UnknownInt(k: nat, v: nat) | UnknownBytes(k: nat, b: Bytes) | UnknownFixed(k: nat, b: Bytes)

  predicate IsUnknown(u: Unknown) {
    && 7 <= u.k < 0x2000_0000
    && (u.UnknownInt? ==> u.v < TWO_64)
    && (u.UnknownFixed? ==> |u.b| == 4 || |u.b| == 8)
  }

  function WireType(u: Unknown): nat {
    match u
    case UnknownInt(_, _) => 0
    case UnknownBytes(_, _) => 2
    case UnknownFixed(_, b) => if |b| == 8 then 1 else 5
  }

  function Payload(u: Unknown): Bytes {
    match u
    case UnknownInt(_, v) => Varint(v)
    case UnknownBytes(_, b) => Varint(|b|) + b
    case UnknownFixed(_, b) => b
  }

  lemma UnknownTag(u: Unknown)
    requires IsUnknown(u)
    ensures var wire := u.k * 8 + WireType(u);
            wire < TWO_64 && wire % 8 == WireType(u) && wire / 8 == u.k && ToInt32(u.k) == u.k
  {
  }

  lemma PayloadSkipped(u: Unknown, data: Bytes, j: nat)
    requires IsUnknown(u) && |data| < TWO_63 && Holds(data, j, Payload(u))
    ensures SkipOne(data, WireType(u), j, 0) == Ok((j + |Payload(u)|, 0))
  {
    match u
    case UnknownInt(_, v) => VarintReadsBack(data, j, v);
    case UnknownBytes(_, b) =>
      HoldsSplit(data, j, Varint(|b|), b);
      VarintReadsBack(data, j, |b|);
    case UnknownFixed(_, b) =>
  }

  lemma TaggedIsUnknownField(u: Unknown, wire: nat, tag: Bytes, e: Bytes)
    requires IsUnknown(u) && wire < TWO_64 && wire % 8 == WireType(u) && ToInt32(wire / 8) >= 7
    requires tag == Varint(wire) && e == tag + Payload(u) && |e| < TWO_63
    ensures IsUnknownField(e)
  {
    assert Holds(e, 0, e);
    HoldsSplit(e, 0, tag, Payload(u));
    VarintReadsBack(e, 0, wire);
    PayloadSkipped(u, e, |tag|);
  }

  /** Such a field, as the encoding writes it, is one that decoding keeps. */
  lemma EncodedIsUnknownField(u: Unknown, e: Bytes)
    requires IsUnknown(u) && e == Varint(u.k * 8 + WireType(u)) + Payload(u) && |e| < TWO_63
    ensures IsUnknownField(e)
  {
    UnknownTag(u);
    var wire := u.k * 8 + WireType(u);
    TaggedIsUnknownField(u, wire, Varint(wire), e);
  }
}
