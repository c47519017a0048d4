/** The KeyValue encoding down to its bytes: which tags and payloads are written, and what decoding makes of them. */
module Wire {
  import opened Bytes
  import opened Codec
  import opened Numbers

  // ---------- Varints ----------

  function Pow128(n: nat): (r: nat)
    ensures r > 0
  {
    if n == 0 then 1 else 128 * Pow128(n - 1)
  }

  /** A varint holds the number's base-128 digits, lowest first, with the top bit on all bytes but the last, and no leading zero. */
  lemma {:induction false} VarintDigits(v: nat, i: nat)
    requires i < |Varint(v)|
    ensures var n := |Varint(v)|;
            && Varint(v)[i] == v / Pow128(i) % 128 + (if i < n - 1 then 128 else 0)
            && v < Pow128(n) && (n > 1 ==> v >= Pow128(n - 1))
    decreases v
  {
    if v >= 128 {
      VarintDigits(v / 128, if i == 0 then 0 else i - 1);
      if i > 0 {
        DivideTwice(v, 128, Pow128(i - 1));
      }
    }
  }

  /** Ten bytes that all ask for another one are too many. */
  lemma {:induction false} TooLong(data: Bytes, i: nat, shift: nat, acc: nat, n: nat)
    requires shift + 7 * n == 70 && i + n <= |data| && forall j | i <= j < i + n :: data[j] >= 128
    ensures ReadVarint(data, i, shift, acc) == Err(IntOverflow)
    decreases n
  {
    if n > 0 {
      TooLong(data, i + 1, shift + 7, OrIn(data[i], shift, acc), n - 1);
    }
  }

  /** Fewer than ten, and then the end of the data, are too few. */
  lemma {:induction false} TooShort(data: Bytes, i: nat, shift: nat, acc: nat)
    requires i <= |data| && shift % 7 == 0 && shift + 7 * (|data| - i) < 70 && forall j | i <= j < |data| :: data[j] >= 128
    ensures ReadVarint(data, i, shift, acc) == Err(UnexpectedEof)
    decreases |data| - i
  {
    if i < |data| {
      TooShort(data, i + 1, shift + 7, OrIn(data[i], shift, acc));
    }
  }

  // ---------- Fields on the wire ----------

  /** A byte string behind its tag and its length; nothing at all when it is empty. */
  function StringField(tag: byte, s: Bytes): Bytes {
    if s == [] then [] else [tag] + Varint(|s|) + s
  }

  /** An integer behind its tag, in its unsigned 64-bit form; nothing at all when it is zero. */
  function IntField(tag: byte, x: int): Bytes
    requires Int64(x)
  {
    if x == 0 then [] else [tag] + Varint(if x < 0 then x + TWO_64 else x)
  }

  lemma FieldsOnTheWire(m: KeyValue)
    requires IntsFit(m)
    ensures FieldBytes(m, 1) == StringField(0x0a, m.key)
    ensures FieldBytes(m, 2) == IntField(0x10, m.createRevision)
    ensures FieldBytes(m, 3) == IntField(0x18, m.modRevision)
    ensures FieldBytes(m, 4) == IntField(0x20, m.version)
    ensures FieldBytes(m, 5) == StringField(0x2a, m.value)
    ensures FieldBytes(m, 6) == IntField(0x30, m.lease)
  {
  }

  lemma FieldsFrom(m: KeyValue, k: nat)
    requires IntsFit(m) && 1 <= k <= 6
    ensures Fields(m, k) == FieldBytes(m, k) + if k == 6 then m.unrecognized else Fields(m, k + 1)
  {
  }

  /** The six fields in order, each with its own tag and left out at its default, and then the unrecognized bytes. */
  lemma OnTheWire(m: KeyValue)
    requires IntsFit(m)
    ensures Encode(m)
         == StringField(0x0a, m.key) + (IntField(0x10, m.createRevision) + (IntField(0x18, m.modRevision)
            + (IntField(0x20, m.version) + (StringField(0x2a, m.value) + (IntField(0x30, m.lease) + m.unrecognized)))))
  {
    FieldsOnTheWire(m);
    FieldsFrom(m, 1);
    FieldsFrom(m, 2);
    FieldsFrom(m, 3);
    FieldsFrom(m, 4);
    FieldsFrom(m, 5);
    FieldsFrom(m, 6);
  }

  /** A message with a single field is that field and nothing else; one with none is empty. */
  lemma SingleFields(s: Bytes, x: int)
    requires Int64(x)
    ensures Encode(EMPTY.(key := s)) == StringField(0x0a, s)
    ensures Encode(EMPTY.(createRevision := x)) == IntField(0x10, x)
    ensures Encode(EMPTY.(modRevision := x)) == IntField(0x18, x)
    ensures Encode(EMPTY.(version := x)) == IntField(0x20, x)
    ensures Encode(EMPTY.(value := s)) == StringField(0x2a, s)
    ensures Encode(EMPTY.(lease := x)) == IntField(0x30, x)
  {
    OnTheWire(EMPTY.(key := s));
    OnTheWire(EMPTY.(createRevision := x));
    OnTheWire(EMPTY.(modRevision := x));
    OnTheWire(EMPTY.(version := x));
    OnTheWire(EMPTY.(value := s));
    OnTheWire(EMPTY.(lease := x));
  }

  // ---------- Fields by name ----------

  function StringOr(s: Bytes, other: Bytes): Bytes {
    if s != [] then s else other
  }

  function IntOr(x: int, other: int): int {
    if x != 0 then x else other
  }

  lemma OverlayByName(m0: KeyValue, m: KeyValue)
    ensures Overlay(m0, m, 1)
         == KeyValue(StringOr(m.key, m0.key), IntOr(m.createRevision, m0.createRevision), IntOr(m.modRevision, m0.modRevision),
                     IntOr(m.version, m0.version), StringOr(m.value, m0.value), IntOr(m.lease, m0.lease), m0.unrecognized)
  {
    var m1 := WithField(m0, m, 1);
    var m2 := WithField(m1, m, 2);
    var m3 := WithField(m2, m, 3);
    var m4 := WithField(m3, m, 4);
    var m5 := WithField(m4, m, 5);
    assert Overlay(m5, m, 6) == WithField(m5, m, 6);
    assert Overlay(m3, m, 4) == Overlay(m5, m, 6);
    assert Overlay(m1, m, 2) == Overlay(m3, m, 4);
  }

  /** Decoding an encoding onto a message: each field by itself takes the new value, unless that is its default. */
  lemma DecodedByName(m0: KeyValue, m: KeyValue)
    requires IntsFit(m) && m.unrecognized == [] && |Encode(m)| < TWO_63
    ensures Decode(m0, Encode(m), 0)
         == Ok(KeyValue(StringOr(m.key, m0.key), IntOr(m.createRevision, m0.createRevision), IntOr(m.modRevision, m0.modRevision),
                        IntOr(m.version, m0.version), StringOr(m.value, m0.value), IntOr(m.lease, m0.lease), m0.unrecognized))
  {
    UnmarshalOverlays(m0, m);
    OverlayByName(m0, m);
  }

  // ---------- Errors ----------

  /** The tag decides: its three low bits are the wire type, the 32 bits above them the signed field number. */
  lemma TagErrors(m: KeyValue, data: Bytes, i: nat, wire: nat, number: nat, wireType: nat)
    requires |data| < TWO_63 && wire < TWO_64 && Holds(data, i, Varint(wire))
    requires number == wire / 8 % TWO_32 && wireType == wire % 8
    ensures wireType == 4 ==> DecodeField(m, data, i) == Err(EndGroup)
    ensures wireType != 4 && (number == 0 || number >= 0x8000_0000) ==> DecodeField(m, data, i) == Err(IllegalTag)
    ensures wireType != 4 && wireType != 2 && (number == 1 || number == 5) ==> DecodeField(m, data, i) == Err(WrongWireType)
    ensures wireType != 4 && wireType != 0 && (number == 2 || number == 3 || number == 4 || number == 6) ==>
              DecodeField(m, data, i) == Err(WrongWireType)
  {
    VarintReadsBack(data, i, wire);
  }

  /** Wire types 6 and 7 do not exist, at any depth. */
  lemma IllegalWireTypes(data: Bytes, i: nat, wire: nat, depth: nat)
    requires |data| < TWO_63 && wire < TWO_64 && Holds(data, i, Varint(wire)) && wire % 8 >= 6
    ensures SkipFrom(data, i, depth) == Err(IllegalWireType)
  {
    VarintReadsBack(data, i, wire);
  }

  /** A byte string that is too long for the index to hold, or for the data. */
  lemma LengthErrors(data: Bytes, i: nat, n: nat)
    requires |data| < TWO_63 && n < TWO_64 && Holds(data, i, Varint(n))
    ensures var j := i + |Varint(n)|;
            && (j + n >= TWO_63 ==> ReadBytes(data, i) == Err(InvalidLength))
            && (|data| < j + n < TWO_63 ==> ReadBytes(data, i) == Err(UnexpectedEof))
            && (j + n <= |data| ==> ReadBytes(data, i) == Ok((data[j..j + n], j + n)))
  {
    VarintReadsBack(data, i, n);
  }

  /** An integer that is cut off leaves the bits read so far in its field, and the error. */
  lemma CutOffInteger(m: KeyValue, b: byte)
    requires b >= 128
    ensures Held(m, [0x10, b], 0) == m.(createRevision := b - 128) && Decode(m, [0x10, b], 0) == Err(UnexpectedEof)
    ensures Held(m, [0x18, b], 0) == m.(modRevision := b - 128) && Decode(m, [0x18, b], 0) == Err(UnexpectedEof)
    ensures Held(m, [0x20, b], 0) == m.(version := b - 128) && Decode(m, [0x20, b], 0) == Err(UnexpectedEof)
    ensures Held(m, [0x30, b], 0) == m.(lease := b - 128) && Decode(m, [0x30, b], 0) == Err(UnexpectedEof)
  {
    CutOff(m, b, 2);
    CutOff(m, b, 3);
    CutOff(m, b, 4);
    CutOff(m, b, 6);
  }

  lemma CutOff(m: KeyValue, b: byte, k: nat)
    requires b >= 128 && IsInt(k)
    ensures Held(m, [Tag(k), b], 0) == SetInt(m, k, b - 128) && Decode(m, [Tag(k), b], 0) == Err(UnexpectedEof)
  {
    var data := [Tag(k), b];
    assert Holds(data, 0, [Tag(k)]);
    TagReadsBack(data, 0, k);
    TooShort(data, 1, 0, 0);
    assert Accumulated(data, 1, 0, 0) == OrIn(b, 0, 0);
    ChunkAbove(b, 0, 0);
  }

  // ---------- Groups ----------

  /** A whole field of any number, perhaps a group. */
  predicate IsWholeField(e: Bytes) {
    0 < |e| < TWO_63 && SkipFrom(e, 0, 0) == Ok(|e|)
  }

  lemma VarintInside(p: Bytes, data: Bytes, i: nat, j: nat)
    requires Holds(data, i, p) && ReadVarint(p, j, 0, 0).Ok?
    ensures var r := ReadVarint(p, j, 0, 0).value; ReadVarint(data, i + j, 0, 0) == Ok((r.0, i + r.1))
  {
    var rest := data[i..];
    assert p[..|p|] == p == rest[..|p|];
    VarintPrefix(p, rest, j, 0, 0, |p|);
    VarintShift(data, i, j, 0, 0);
  }

  lemma SkipOneInside(p: Bytes, data: Bytes, wireType: nat, i: nat, j: nat, e: nat, d: nat)
    requires Holds(data, i, p) && |data| < TWO_63 && j <= |p|
    requires SkipOne(p, wireType, j, e).Ok? && SkipOne(p, wireType, j, e).value.0 <= |p|
    ensures var r := SkipOne(p, wireType, j, e).value; SkipOne(data, wireType, i + j, e + d) == Ok((i + r.0, r.1 + d))
  {
    if wireType == 0 || wireType == 2 {
      VarintInside(p, data, i, j);
    }
  }

  /** One turn of skipping goes from one index and depth to the next. */
  predicate Turn(data: Bytes, i: nat, depth: nat, i': nat, depth': nat) {
    && |data| < TWO_63
    && var wire := ReadVarint(data, i, 0, 0);
       wire.Ok? && SkipOne(data, wire.value.0 % 8, wire.value.1, depth) == Ok((i', depth'))
  }

  lemma TurnInside(p: Bytes, data: Bytes, i: nat, j: nat, e: nat, j': nat, e': nat, d: nat)
    requires Holds(data, i, p) && |data| < TWO_63 && Turn(p, j, e, j', e') && j' <= |p|
    ensures Turn(data, i + j, e + d, i + j', e' + d)
  {
    var wire := ReadVarint(p, j, 0, 0).value;
    VarintInside(p, data, i, j);
    SkipOneInside(p, data, wire.0 % 8, i, wire.1, e, d);
  }

  lemma FirstTurn(p: Bytes, j: nat, e: nat) returns (j': nat, e': nat)
    requires |p| < TWO_63 && SkipFrom(p, j, e) == Ok(|p|)
    ensures Turn(p, j, e, j', e') && j < j' <= |p|
    ensures if e' == 0 then j' == |p| else SkipFrom(p, j', e') == Ok(|p|)
  {
    var wire := ReadVarint(p, j, 0, 0).value;
    var step := SkipOne(p, wire.0 % 8, wire.1, e).value;
    j', e' := step.0, step.1;
  }

  /** Whatever is computed from index and depth stays the same over turns that do not come out of the last group. */
  ghost predicate KeptByTurns<R(!new)>(f: (nat, nat) -> R, data: Bytes) {
    forall i, d, i', d' | Turn(data, i, d, i', d') && d' > 0 :: f(i, d) == f(i', d')
  }

  /** Inside a group, skipping passes over a whole field and stays inside. */
  lemma {:induction false} KeptOverField<R(!new)>(f: (nat, nat) -> R, p: Bytes, data: Bytes, i: nat, j: nat, e: nat, d: nat)
    requires KeptByTurns(f, data) && Holds(data, i, p) && |data| < TWO_63 && SkipFrom(p, j, e) == Ok(|p|) && d > 0
    ensures f(i + j, e + d) == f(i + |p|, d)
    decreases if j < |p| then |p| - j else 0
  {
    var j', e' := FirstTurn(p, j, e);
    TurnInside(p, data, i, j, e, j', e', d);
    if e' != 0 {
      KeptOverField(f, p, data, i, j', e', d);
    }
  }

  lemma KeptOverWhole<R(!new)>(f: (nat, nat) -> R, p: Bytes, data: Bytes, i: nat, d: nat)
    requires KeptByTurns(f, data) && IsWholeField(p) && Holds(data, i, p) && |data| < TWO_63 && d > 0
    ensures f(i, d) == f(i + |p|, d)
  {
    KeptOverField(f, p, data, i, 0, 0, d);
  }

  lemma {:induction false} KeptOverRow<R(!new)>(f: (nat, nat) -> R, parts: seq<Bytes>, data: Bytes, i: nat, d: nat)
    requires KeptByTurns(f, data) && (forall p | p in parts :: IsWholeField(p)) && Holds(data, i, Concat(parts))
    requires |data| < TWO_63 && d > 0
    ensures f(i, d) == f(i + |Concat(parts)|, d)
    decreases parts
  {
    if parts != [] {
      HoldsSplit(data, i, parts[0], Concat(parts[1..]));
      KeptOverWhole(f, parts[0], data, i, d);
      KeptOverRow(f, parts[1..], data, i + |parts[0]|, d);
    }
  }

  lemma GroupTurn(data: Bytes, i: nat, tag: nat, d: nat)
    requires tag < TWO_64 && Holds(data, i, Varint(tag)) && |data| < TWO_63
    ensures tag % 8 == 3 ==> Turn(data, i, d, i + |Varint(tag)|, d + 1)
    ensures tag % 8 == 4 && d > 0 ==> Turn(data, i, d, i + |Varint(tag)|, d - 1)
  {
    VarintReadsBack(data, i, tag);
  }

  function SkipIn(data: Bytes): (nat, nat) -> Result<nat>
    requires |data| < TWO_63
  {
    (i: nat, d: nat) => SkipFrom(data, i, d)
  }

  lemma TurnSkips(data: Bytes, i: nat, d: nat, i': nat, d': nat)
    requires Turn(data, i, d, i', d')
    ensures SkipIn(data)(i, d) == if d' == 0 then Ok(i') else SkipIn(data)(i', d')
  {
  }

  lemma SkipKeptByTurns(data: Bytes)
    requires |data| < TWO_63
    ensures KeptByTurns(SkipIn(data), data)
  {
    forall i, d, i', d' | Turn(data, i, d, i', d') && d' > 0 ensures SkipIn(data)(i, d) == SkipIn(data)(i', d') {
      TurnSkips(data, i, d, i', d');
    }
  }

  /** A group, which may hold groups, is one whole field; the number on its end tag is not looked at. */
  lemma GroupIsOneField(parts: seq<Bytes>, open: nat, close: nat, e: Bytes)
    requires open < TWO_64 && open % 8 == 3 && close < TWO_64 && close % 8 == 4
    requires (forall p | p in parts :: IsWholeField(p)) && e == Varint(open) + (Concat(parts) + Varint(close)) && |e| < TWO_63
    ensures IsWholeField(e)
  {
    var a, b, c := Varint(open), Concat(parts), Varint(close);
    InThree(e, a, b, c);
    GroupSkipped(parts, open, close, e, 0, |a|, |a| + |b|);
    SkippedIsWhole(e);
  }

  lemma InThree(e: Bytes, a: Bytes, b: Bytes, c: Bytes)
    requires e == a + (b + c)
    ensures Holds(e, 0, a) && Holds(e, |a|, b) && Holds(e, |a| + |b|, c) && |e| == |a| + |b| + |c|
  {
    assert Holds(e, 0, e);
    HoldsSplit(e, 0, a, b + c);
    HoldsSplit(e, |a|, b, c);
  }

  lemma SkippedIsWhole(e: Bytes)
    requires 0 < |e| < TWO_63 && SkipIn(e)(0, 0) == Ok(|e|)
    ensures IsWholeField(e)
  {
  }

  lemma GroupSkipped(parts: seq<Bytes>, open: nat, close: nat, data: Bytes, i: nat, j: nat, k: nat)
    requires open < TWO_64 && open % 8 == 3 && close < TWO_64 && close % 8 == 4 && |data| < TWO_63
    requires forall p | p in parts :: IsWholeField(p)
    requires Holds(data, i, Varint(open)) && j == i + |Varint(open)|
    requires Holds(data, j, Concat(parts)) && k == j + |Concat(parts)| && Holds(data, k, Varint(close))
    ensures SkipIn(data)(i, 0) == Ok(k + |Varint(close)|)
  {
    SkipKeptByTurns(data);
    KeptUpToEnd(SkipIn(data), parts, open, data, i, j, k);
    GroupTurn(data, k, close, 1);
    TurnSkips(data, k, 1, k + |Varint(close)|, 0);
  }

  lemma KeptUpToEnd<R(!new)>(f: (nat, nat) -> R, parts: seq<Bytes>, open: nat, data: Bytes, i: nat, j: nat, k: nat)
    requires KeptByTurns(f, data) && open < TWO_64 && open % 8 == 3 && |data| < TWO_63
    requires forall p | p in parts :: IsWholeField(p)
    requires Holds(data, i, Varint(open)) && j == i + |Varint(open)|
    requires Holds(data, j, Concat(parts)) && k == j + |Concat(parts)|
    ensures f(i, 0) == f(k, 1)
  {
    GroupTurn(data, i, open, 0);
    KeptOverRow(f, parts, data, j, 1);
  }

  lemma TagFirst(e: Bytes, tag: nat, rest: Bytes)
    requires tag < TWO_64 && e == Varint(tag) + rest
    ensures ReadVarint(e, 0, 0, 0) == Ok((tag, |Varint(tag)|))
  {
    assert Holds(e, 0, e);
    HoldsSplit(e, 0, Varint(tag), rest);
    VarintReadsBack(e, 0, tag);
  }

  lemma WholeIsUnknown(e: Bytes, tag: nat, n: nat)
    requires IsWholeField(e) && ReadVarint(e, 0, 0, 0) == Ok((tag, n)) && tag % 8 != 4 && 7 <= tag / 8 < 0x2000_0000
    ensures IsUnknownField(e)
  {
  }

  lemma GroupIsUnknown(parts: seq<Bytes>, number: nat, open: nat, close: nat, e: Bytes)
    requires 7 <= number < 0x2000_0000 && open == number * 8 + 3 && close < TWO_64 && close % 8 == 4
    requires (forall p | p in parts :: IsWholeField(p)) && e == Varint(open) + (Concat(parts) + Varint(close)) && |e| < TWO_63
    ensures IsUnknownField(e)
  {
    assert open % 8 == 3 && open / 8 == number;
    GroupIsOneField(parts, open, close, e);
    TagFirst(e, open, Concat(parts) + Varint(close));
    WholeIsUnknown(e, open, |Varint(open)|);
  }

  /** So a message keeps a group of a later version untouched. */
  lemma GroupIsKept(m: KeyValue, parts: seq<Bytes>, number: nat, open: nat, close: nat, e: Bytes, data: Bytes, i: nat)
    requires 7 <= number < 0x2000_0000 && open == number * 8 + 3 && close < TWO_64 && close % 8 == 4 && |data| < TWO_63
    requires forall p | p in parts :: IsWholeField(p)
    requires e == Varint(open) + (Concat(parts) + Varint(close)) && Holds(data, i, e)
    ensures DecodeField(m, data, i) == Ok((WithUnrecognized(m, e), i + |e|))
  {
    GroupIsUnknown(parts, number, open, close, e);
    FieldKept(m, e, data, i);
  }
}
