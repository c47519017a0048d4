/** Marshalling into a byte buffer from its end, and unmarshalling with its loops, proved against `Codec`. */
module Message {
  import opened Bytes
  import opened Numbers
  import opened Codec

  // ---------- Writing ----------

  /** Bytes written so that they end at the given offset; the rest of the buffer is as it was. */
  predicate Put(before: Bytes, after: Bytes, end: nat, s: Bytes, i: nat) {
    i + |s| == end <= |before| && after == before[..i] + s + before[end..]
  }

  /** Bytes written before bytes just written. */
  lemma PutTwice(a: Bytes, b: Bytes, c: Bytes, end: nat, s: Bytes, i: nat, r: Bytes, h: nat)
    requires Put(a, b, end, s, i) && Put(b, c, i, r, h)
    ensures Put(a, c, end, r + s, h)
  {
    assert b[..h] == a[..h] && b[i..] == s + a[end..];
    assert b[..h] + r + b[i..] == a[..h] + (r + s) + a[end..];
  }

  lemma PutPointwise(before: Bytes, after: Bytes, end: nat, s: Bytes, i: nat)
    requires i + |s| == end <= |before| == |after|
    requires forall j | 0 <= j < i || end <= j < |before| :: after[j] == before[j]
    requires forall j | 0 <= j < |s| :: after[i + j] == s[j]
    ensures Put(before, after, end, s, i)
  {
    forall j | 0 <= j < |after| ensures after[j] == (before[..i] + s + before[end..])[j] {
      if i <= j < end {
        assert after[i + (j - i)] == s[j - i];
      }
    }
  }

  /** encodeVarintKv: write a varint so that it ends at the given offset, and return where it begins. */
  method EncodeVarint(buf: array<byte>, end: nat, v0: nat) returns (base: nat)
    requires |Varint(v0)| <= end <= buf.Length
    modifies buf
    ensures Put(old(buf[..]), buf[..], end, Varint(v0), base)
  {
    SovIsLength(v0);
    base := end - Sov(v0);
    var offset, v := base, v0;
    ghost var s := Varint(v0);
    while v >= 128
      invariant base <= offset < end && Varint(v) == s[offset - base..]
      invariant forall j | 0 <= j < offset - base :: buf[base + j] == s[j]
      invariant forall j | 0 <= j < base || end <= j < buf.Length :: buf[j] == old(buf[j])
      decreases v
    {
      assert s[offset - base] == Varint(v)[0] && Varint(v / 128) == Varint(v)[1..] == s[offset - base + 1..];
      buf[offset] := v % 128 + 128;
      v, offset := v / 128, offset + 1;
    }
    assert s[offset - base] == Varint(v)[0] && |s[offset - base..]| == 1;
    buf[offset] := v;
    PutPointwise(old(buf[..]), buf[..], end, s, base);
  }

  method PutByte(buf: array<byte>, end: nat, b: byte) returns (i: nat)
    requires 0 < end <= buf.Length
    modifies buf
    ensures Put(old(buf[..]), buf[..], end, [b], i)
  {
    i := end - 1;
    buf[i] := b;
  }

  method PutBytes(buf: array<byte>, end: nat, s: Bytes) returns (i: nat)
    requires |s| <= end <= buf.Length
    modifies buf
    ensures Put(old(buf[..]), buf[..], end, s, i)
  {
    i := end - |s|;
    forall j | 0 <= j < |s| {
      buf[i + j] := s[j];
    }
    PutPointwise(old(buf[..]), buf[..], end, s, i);
  }

  /** An integer field: the varint, and before it the tag. */
  method PutInt(buf: array<byte>, end: nat, m: KeyValue, k: nat) returns (i: nat)
    requires IntsFit(m) && IsInt(k) && |FieldBytes(m, k)| <= end <= buf.Length
    modifies buf
    ensures Put(old(buf[..]), buf[..], end, FieldBytes(m, k), i)
  {
    i := end;
    if IntOf(m, k) != 0 {
      ghost var a, s := buf[..], Varint(ToUint64(IntOf(m, k)));
      i := EncodeVarint(buf, i, ToUint64(IntOf(m, k)));
      ghost var b, j := buf[..], i;
      i := PutByte(buf, i, Tag(k));
      PutTwice(a, b, buf[..], end, s, j, [Tag(k)], i);
    }
  }

  /** A byte string behind its length. */
  method PutCounted(buf: array<byte>, end: nat, s: Bytes) returns (i: nat)
    requires |Varint(|s|)| + |s| <= end <= buf.Length
    modifies buf
    ensures Put(old(buf[..]), buf[..], end, Varint(|s|) + s, i)
  {
    ghost var a := buf[..];
    i := PutBytes(buf, end, s);
    ghost var b, j := buf[..], i;
    i := EncodeVarint(buf, i, |s|);
    PutTwice(a, b, buf[..], end, s, j, Varint(|s|), i);
  }

  /** A byte string field: the bytes, before them their length, and before that the tag. */
  method PutString(buf: array<byte>, end: nat, m: KeyValue, k: nat) returns (i: nat)
    requires IntsFit(m) && IsBytes(k) && |FieldBytes(m, k)| <= end <= buf.Length
    modifies buf
    ensures Put(old(buf[..]), buf[..], end, FieldBytes(m, k), i)
  {
    i := end;
    var s := BytesOf(m, k);
    if |s| > 0 {
      ghost var a := buf[..];
      i := PutCounted(buf, i, s);
      ghost var b, j := buf[..], i;
      i := PutByte(buf, i, Tag(k));
      PutTwice(a, b, buf[..], end, Varint(|s|) + s, j, [Tag(k)], i);
      assert [Tag(k)] + (Varint(|s|) + s) == FieldBytes(m, k);
    }
  }

  /** Field k written before the fields that follow it. */
  lemma PutField(a: Bytes, b: Bytes, c: Bytes, m: KeyValue, k: nat, i: nat, h: nat)
    requires IntsFit(m) && 1 <= k <= 6 && Put(a, b, |a|, Fields(m, k + 1), i) && Put(b, c, i, FieldBytes(m, k), h)
    ensures Put(a, c, |a|, Fields(m, k), h)
  {
    PutTwice(a, b, c, |a|, Fields(m, k + 1), i, FieldBytes(m, k), h);
  }

  // ---------- Reading ----------

  /** The loop that reads a varint. */
  method DecodeVarint(data: Bytes, start: nat) returns (r: Result<(nat, nat)>, acc: nat)
    ensures r == ReadVarint(data, start, 0, 0) && acc == Accumulated(data, start, 0, 0)
    ensures r.Ok? ==> acc == r.value.0
  {
    acc := 0;
    var i, shift := start, 0;
    while true
      invariant ReadVarint(data, i, shift, acc) == ReadVarint(data, start, 0, 0)
      invariant Accumulated(data, i, shift, acc) == Accumulated(data, start, 0, 0)
      decreases |data| - i
    {
      if shift >= 64 {
        return Err(IntOverflow), acc;
      }
      if i >= |data| {
        return Err(UnexpectedEof), acc;
      }
      var b := data[i];
      i := i + 1;
      acc := OrIn(b, shift, acc);
      if b < 128 {
        return Ok((acc, i)), acc;
      }
      shift := shift + 7;
    }
  }

  /** skipKv: find the end of the field at the start of the data, groups included. */
  method SkipKv(data: Bytes) returns (r: Result<nat>)
    requires |data| < TWO_63
    ensures r == SkipFrom(data, 0, 0)
  {
    var i, depth := 0, 0;
    while i < |data|
      invariant SkipFrom(data, i, depth) == SkipFrom(data, 0, 0)
      decreases |data| - i
    {
      var wire, _ := DecodeVarint(data, i);
      if wire.Err? {
        return Err(wire.error);
      }
      var step := SkipOne(data, wire.value.0 % 8, wire.value.1, depth);
      if step.Err? {
        return Err(step.error);
      }
      i, depth := step.value.0, step.value.1;
      if depth == 0 {
        return Ok(i);
      }
    }
    return Err(UnexpectedEof);
  }

  class Message {
    var kv: KeyValue

    constructor ()
      ensures kv == EMPTY
    {
      kv := EMPTY;
    }

    /** Fill the buffer backwards, last field first; the encoding ends at the buffer's end. */
    method MarshalToSizedBuffer(buf: array<byte>) returns (n: nat)
      requires IntsFit(kv) && |Encode(kv)| <= buf.Length
      modifies buf
      ensures n == |Encode(kv)| && buf[..] == old(buf[..buf.Length - n]) + Encode(kv)
    {
      ghost var a := buf[..];
      FieldsUnrolled(kv);
      var i := PutBytes(buf, buf.Length, kv.unrecognized);
      i := PutLastFields(buf, i, a);
      i := PutFirstFields(buf, i, a);
      n := buf.Length - i;
    }

    /** Lease, value and version. */
    method PutLastFields(buf: array<byte>, end: nat, ghost a: Bytes) returns (i: nat)
      requires IntsFit(kv) && Put(a, buf[..], |a|, Fields(kv, 7), end) && |Encode(kv)| <= |a|
      modifies buf
      ensures Put(a, buf[..], |a|, Fields(kv, 4), i)
    {
      FieldsUnrolled(kv);
      ghost var b0 := buf[..];
      var i6 := PutInt(buf, end, kv, 6);
      PutField(a, b0, buf[..], kv, 6, end, i6);
      ghost var b6 := buf[..];
      var i5 := PutString(buf, i6, kv, 5);
      PutField(a, b6, buf[..], kv, 5, i6, i5);
      ghost var b5 := buf[..];
      i := PutInt(buf, i5, kv, 4);
      PutField(a, b5, buf[..], kv, 4, i5, i);
    }

    /** The revisions and the key. */
    method PutFirstFields(buf: array<byte>, end: nat, ghost a: Bytes) returns (i: nat)
      requires IntsFit(kv) && Put(a, buf[..], |a|, Fields(kv, 4), end) && |Encode(kv)| <= |a|
      modifies buf
      ensures Put(a, buf[..], |a|, Encode(kv), i)
    {
      FieldsUnrolled(kv);
      ghost var b4 := buf[..];
      var i3 := PutInt(buf, end, kv, 3);
      PutField(a, b4, buf[..], kv, 3, end, i3);
      ghost var b3 := buf[..];
      var i2 := PutInt(buf, i3, kv, 2);
      PutField(a, b3, buf[..], kv, 2, i3, i2);
      ghost var b2 := buf[..];
      i := PutString(buf, i2, kv, 1);
      PutField(a, b2, buf[..], kv, 1, i2, i);
    }

    /** Marshal: a buffer of exactly the computed size is filled to its very beginning. */
    method Marshal() returns (data: Bytes)
      requires IntsFit(kv)
      ensures data == Encode(kv)
    {
      SizeExact(kv);
      var size := Size(kv);
      var buf := new byte[size];
      var n := MarshalToSizedBuffer(buf);
      data := buf[..n];
    }

    /** Unmarshal into this message; after an error what it holds is not specified. */
    method Unmarshal(data: Bytes) returns (error: Option<Error>)
      requires |data| < TWO_63
      modifies this
      ensures var r := Decode(old(kv), data, 0); if r.Ok? then error == None && kv == r.value else error == Some(r.error)
      ensures kv == Held(old(kv), data, 0)
    {
      var i := 0;
      while i < |data|
        invariant i <= |data| && Decode(kv, data, i) == Decode(old(kv), data, 0)
        invariant Held(kv, data, i) == Held(old(kv), data, 0)
        decreases |data| - i
      {
        var r, held := UnmarshalField(kv, data, i);
        kv := held;
        if r.Err? {
          return Some(r.error);
        }
        i := r.value.1;
      }
      return None;
    }
  }

  /** One turn of the loop: the tag, and then what its field number calls for. */
  method UnmarshalField(m: KeyValue, data: Bytes, i: nat) returns (r: Result<(KeyValue, nat)>, held: KeyValue)
    requires |data| < TWO_63 && i < |data|
    ensures r == DecodeField(m, data, i)
    ensures held == if r.Ok? then r.value.0 else AfterFailure(m, data, i)
  {
    held := m;
    var wire, _ := DecodeVarint(data, i);
    if wire.Err? {
      return Err(wire.error), held;
    }
    var j, fieldNum, wireType := wire.value.1, ToInt32(wire.value.0 / 8), wire.value.0 % 8;
    if wireType == 4 {
      return Err(EndGroup), held;
    }
    if fieldNum <= 0 {
      return Err(IllegalTag), held;
    }
    if IsBytes(fieldNum) {
      if wireType != 2 {
        return Err(WrongWireType), held;
      }
      var b := UnmarshalBytes(data, j);
      if b.Err? {
        return Err(b.error), held;
      }
      held := SetBytes(m, fieldNum, b.value.0);
      return Ok((held, b.value.1)), held;
    } else if IsInt(fieldNum) {
      if wireType != 0 {
        return Err(WrongWireType), held;
      }
      var n, acc := DecodeVarint(data, j);
      held := SetInt(m, fieldNum, ToInt64(acc));
      return if n.Err? then Err(n.error) else Ok((held, n.value.1)), held;
    } else {
      var n := SkipKv(data[i..]);
      if n.Err? {
        return Err(n.error), held;
      }
      if WrapsAround(i, n.value) {
        return Err(InvalidLength), held;
      }
      if i + n.value > |data| {
        return Err(UnexpectedEof), held;
      }
      held := m.(unrecognized := m.unrecognized + data[i..i + n.value]);
      return Ok((held, i + n.value)), held;
    }
  }

  method UnmarshalBytes(data: Bytes, i: nat) returns (r: Result<(Bytes, nat)>)
    requires |data| < TWO_63
    ensures r == ReadBytes(data, i)
  {
    var n, _ := DecodeVarint(data, i);
    if n.Err? {
      return Err(n.error);
    }
    var len, j := ToInt64(n.value.0), n.value.1;
    if len < 0 || WrapsAround(j, len) {
      return Err(InvalidLength);
    }
    if j + len > |data| {
      return Err(UnexpectedEof);
    }
    return Ok((data[j..j + len], j + len));
  }

  /** A message marshalled and unmarshalled into a new one is the same message. */
  method MarshalThenUnmarshal(a: Message) returns (b: Message, error: Option<Error>)
    requires IntsFit(a.kv) && a.kv.unrecognized == [] && |Encode(a.kv)| < TWO_63
    ensures error == None && fresh(b) && b.kv == a.kv
  {
    RoundTrip(a.kv);
    var data := a.Marshal();
    b := new Message();
    error := b.Unmarshal(data);
  }
}
