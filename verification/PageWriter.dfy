/**
 The page writer: a buffer in front of a sink, so that the sink is written in whole pages.
 The sink may accept only part of any write, which is how a write fails.
 */
module PageWriter {
  import opened Bytes

  const DEFAULT_BUFFER_BYTES: nat := 128 * 1024

  /** The writer below: all bytes accepted so far, and how many the coming writes will accept at most. */
  class Sink {
    var data: Bytes
    var script: seq<nat>
    ghost var ends: seq<nat>

    constructor (script: seq<nat>)
      ensures data == [] && this.script == script && ends == []
    {
      data, this.script, ends := [], script, [];
    }

    method Write(p: Bytes) returns (n: nat, failed: bool)
      modifies this
      ensures n == if old(script) != [] && old(script)[0] < |p| then old(script)[0] else |p|
      ensures data == old(data) + p[..n] && failed == (n < |p|)
      ensures script == if old(script) == [] then [] else old(script)[1..]
      ensures ends == old(ends) + [|data|]
    {
      n := |p|;
      if script != [] {
        n := if script[0] < |p| then script[0] else |p|;
        script := script[1..];
      }
      data, failed := data + p[..n], n < |p|;
      ends := ends + [|data|];
    }
  }

  // ---------- Pages ----------

  lemma AtLeastOnce(k: nat, m: nat)
    requires k > 0
    ensures k * m >= m
  {
    assert k * m == (k - 1) * m + m;
  }

  lemma SmallMultiple(k: int, m: int)
    requires 0 - m < k * m < m
    ensures k == 0
  {
    if k > 0 {
      AtLeastOnce(k, m);
    }
  }

  lemma ModUnique(a: int, q: int, r: nat, m: nat)
    requires r < m && a == q * m + r
    ensures a % m == r && a / m == q
  {
    assert a == (a / m) * m + a % m;
    assert (a / m - q) * m == r - a % m;
    SmallMultiple(a / m - q, m);
  }

  /** Offsets that agree modulo the page size still do after the same advance. */
  lemma ModAdvance(a: int, b: int, d: int, m: nat)
    requires m > 0 && a % m == b % m
    ensures (a + d) % m == (b + d) % m
  {
    var q, r := (a + d) / m, (a + d) % m;
    assert a + d == q * m + r && a == (a / m) * m + a % m && b == (b / m) * m + b % m;
    var k := q - a / m + b / m;
    assert k * m == q * m - (a / m) * m + (b / m) * m;
    ModUnique(b + d, k, r, m);
  }

  /** The bytes missing to the next page boundary; a whole page when there is nothing missing. */
  function Slack(offset: nat, pageBytes: nat): (r: nat)
    requires pageBytes > 0
    ensures 0 < r <= pageBytes
  {
    pageBytes - offset % pageBytes
  }

  /** The bytes that an unfinished page still takes. */
  function Missing(offset: nat, pageBytes: nat): nat
    requires pageBytes > 0
  {
    if offset % pageBytes == 0 then 0 else Slack(offset, pageBytes)
  }

  lemma SlackCompletes(offset: nat, d: nat, pageBytes: nat)
    requires pageBytes > 0 && d <= Slack(offset, pageBytes)
    ensures d == Slack(offset, pageBytes) ==> (offset + d) % pageBytes == 0
    ensures d < Slack(offset, pageBytes) ==> Slack(offset + d, pageBytes) == Slack(offset, pageBytes) - d
  {
    var q, r := offset / pageBytes, offset % pageBytes;
    assert offset == q * pageBytes + r;
    if r + d == pageBytes {
      assert (q + 1) * pageBytes == q * pageBytes + pageBytes;
      ModUnique(offset + d, q + 1, 0, pageBytes);
    } else {
      ModUnique(offset + d, q, r + d, pageBytes);
    }
  }

  /** What is left of p when all complete pages have been written directly. */
  function Tail(p: Bytes, pageBytes: nat): (t: Bytes)
    requires pageBytes > 0
    ensures |t| <= pageBytes && |t| <= |p| && t == p[|p| - |t|..]
  {
    if |p| > pageBytes then p[|p| - |p| % pageBytes..] else p
  }

  lemma PagesFit(n: nat, pageBytes: nat)
    requires pageBytes > 0
    ensures 0 <= (n / pageBytes) * pageBytes <= n && n - (n / pageBytes) * pageBytes == n % pageBytes
  {
    assert n == (n / pageBytes) * pageBytes + n % pageBytes;
  }

  lemma Joined(s: Bytes, p: Bytes, n: nat, c: nat)
    requires n + c <= |p|
    ensures s + p[..n] + p[n..][..c] == s + p[..n + c] && s + p[..n] + p[n..] == s + p
  {
    assert p[..n] + p[n..][..c] == p[..n + c] && p[..n] + p[n..] == p;
  }

  /** Every recorded end from the given place on is a page boundary. */
  ghost predicate PageEnds(ends: seq<nat>, from: nat, base: int, pageBytes: nat) {
    pageBytes > 0 && forall i | from <= i < |ends| :: (base + ends[i]) % pageBytes == 0
  }

  // ---------- One activation of Write after the other ----------

  /** The sink will take only part of the next write. */
  predicate Refuses(script: seq<nat>, length: nat) {
    script != [] && script[0] < length
  }

  function AfterWrite(script: seq<nat>): seq<nat> {
    if script == [] then [] else script[1..]
  }

  /** What an activation of Write starts from: its argument, and the state of the writer and the sink. */
  datatype Call = Call(p: Bytes, pageOffset: nat, buffered: nat, script: seq<nat>)

  /** The bytes that complete the unfinished page, and what they leave of the argument. */
  function SlackOf(c: Call, pageBytes: nat): nat
    requires pageBytes > 0
  {
    Missing(c.pageOffset + c.buffered, pageBytes)
  }

  function DirectLength(p: Bytes, pageBytes: nat): nat
    requires pageBytes > 0
  {
    |p| - |Tail(p, pageBytes)|
  }

  predicate FlushFails(c: Call, pageBytes: nat)
    requires pageBytes > 0
  {
    c.buffered + SlackOf(c, pageBytes) > 0 && Refuses(c.script, c.buffered + SlackOf(c, pageBytes))
  }

  /** The state after a flush of the completed page. */
  function Flushed(c: Call, pageBytes: nat): Call
    requires pageBytes > 0 && SlackOf(c, pageBytes) <= |c.p|
  {
    var slack := SlackOf(c, pageBytes);
    var full := c.buffered + slack;
    if full == 0 then Call(c.p, c.pageOffset, 0, c.script)
    else Call(c.p[slack..], (c.pageOffset + full) % pageBytes, 0, AfterWrite(c.script))
  }

  predicate PagesFail(c: Call, pageBytes: nat)
    requires pageBytes > 0
  {
    DirectLength(c.p, pageBytes) > 0 && Refuses(c.script, DirectLength(c.p, pageBytes))
  }

  /** The state after the complete pages have been written directly. */
  function PagesWritten(c: Call, pageBytes: nat): Call
    requires pageBytes > 0
  {
    Call(Tail(c.p, pageBytes), c.pageOffset, c.buffered,
         if DirectLength(c.p, pageBytes) > 0 then AfterWrite(c.script) else c.script)
  }

  /** One activation: None when it returns, otherwise the call that it ends with. */
  function Activation(c: Call, watermark: nat, pageBytes: nat): Option<Call>
    requires pageBytes > 0
  {
    if |c.p| + c.buffered <= watermark || SlackOf(c, pageBytes) > |c.p| || FlushFails(c, pageBytes) then None
    else
      var d := Flushed(c, pageBytes);
      if PagesFail(d, pageBytes) then None else Some(PagesWritten(d, pageBytes))
  }

  /** The n-th call, as long as there is one. */
  function NthCall(c: Call, watermark: nat, pageBytes: nat, n: nat): Option<Call>
    requires pageBytes > 0
  {
    if n == 0 then Some(c)
    else
      var d := NthCall(c, watermark, pageBytes, n - 1);
      if d.None? then None else Activation(d.value, watermark, pageBytes)
  }

  /** Write calls itself n times at least. */
  predicate Repeats(c: Call, watermark: nat, pageBytes: nat, n: nat)
    requires pageBytes > 0
  {
    NthCall(c, watermark, pageBytes, n).Some?
  }

  /**
   When Write ends: the argument fits below the watermark, or is too short for the unfinished page, or the
   sink refuses part of the flush or of the whole pages, or the tail behind the whole pages fits.
   */
  predicate Ends(c: Call, watermark: nat, pageBytes: nat)
    requires pageBytes > 0
  {
    var slack := SlackOf(c, pageBytes);
    || |c.p| + c.buffered <= watermark
    || slack > |c.p|
    || FlushFails(c, pageBytes)
    || PagesFail(Flushed(c, pageBytes), pageBytes)
    || |Tail(c.p[slack..], pageBytes)| <= watermark
  }

  lemma FlushedAligned(c: Call, pageBytes: nat)
    requires pageBytes > 0 && SlackOf(c, pageBytes) <= |c.p|
    ensures var d := Flushed(c, pageBytes);
            d.buffered == 0 && d.pageOffset % pageBytes == 0 && d.p == c.p[SlackOf(c, pageBytes)..]
  {
    var offset, slack := c.pageOffset + c.buffered, SlackOf(c, pageBytes);
    SlackCompletes(offset, slack, pageBytes);
    assert (offset + slack) % pageBytes == 0;
    ModUnique(0, 0, 0, pageBytes);
  }

  /** Write's own call starts from an empty buffer at a page boundary, with at most a page. */
  lemma TailCall(c: Call, watermark: nat, pageBytes: nat)
    requires pageBytes > 0 && Activation(c, watermark, pageBytes).Some?
    ensures var d := Activation(c, watermark, pageBytes).value;
            d.buffered == 0 && d.pageOffset % pageBytes == 0 && d.p == Tail(c.p[SlackOf(c, pageBytes)..], pageBytes)
  {
    FlushedAligned(c, pageBytes);
  }

  /** From there it either returns or makes the very same call again. */
  lemma TailCallRepeats(d: Call, watermark: nat, pageBytes: nat)
    requires pageBytes > 0 && d.buffered == 0 && d.pageOffset % pageBytes == 0 && |d.p| <= pageBytes
    ensures Activation(d, watermark, pageBytes) == if |d.p| <= watermark then None else Some(d)
  {
  }

  lemma {:induction false} RepeatsForEver(c: Call, watermark: nat, pageBytes: nat, n: nat)
    requires pageBytes > 0 && !Ends(c, watermark, pageBytes) && n > 0
    ensures NthCall(c, watermark, pageBytes, n) == Activation(c, watermark, pageBytes)
    ensures Activation(c, watermark, pageBytes).Some?
  {
    TailCall(c, watermark, pageBytes);
    var d := Activation(c, watermark, pageBytes).value;
    TailCallRepeats(d, watermark, pageBytes);
    if n > 1 {
      RepeatsForEver(c, watermark, pageBytes, n - 1);
    } else {
      assert NthCall(c, watermark, pageBytes, 0) == Some(c);
    }
  }

  /** Write calls itself for ever exactly from the states in which none of those conditions holds. */
  lemma NeverEndsExactly(c: Call, watermark: nat, pageBytes: nat)
    requires pageBytes > 0
    ensures (forall n: nat :: Repeats(c, watermark, pageBytes, n)) <==> !Ends(c, watermark, pageBytes)
  {
    if Ends(c, watermark, pageBytes) {
      EndsWithinTwo(c, watermark, pageBytes);
      assert !Repeats(c, watermark, pageBytes, 2);
    } else {
      forall n: nat ensures Repeats(c, watermark, pageBytes, n) {
        if n > 0 {
          RepeatsForEver(c, watermark, pageBytes, n);
        }
      }
    }
  }

  lemma EndsWithinTwo(c: Call, watermark: nat, pageBytes: nat)
    requires pageBytes > 0 && Ends(c, watermark, pageBytes)
    ensures NthCall(c, watermark, pageBytes, 2).None?
    ensures var d := Activation(c, watermark, pageBytes); d.Some? ==> Activation(d.value, watermark, pageBytes).None?
  {
    assert NthCall(c, watermark, pageBytes, 0) == Some(c);
    assert NthCall(c, watermark, pageBytes, 1) == Activation(c, watermark, pageBytes);
    if Activation(c, watermark, pageBytes).Some? {
      TailCall(c, watermark, pageBytes);
      TailCallRepeats(Activation(c, watermark, pageBytes).value, watermark, pageBytes);
    }
  }

  /** What an activation with too long an argument does, by what it meets on its way. */
  lemma ActivationBy(c: Call, watermark: nat, pageBytes: nat, partial: bool, failed: bool, next: Call)
    requires pageBytes > 0 && |c.p| + c.buffered > watermark && (partial <==> SlackOf(c, pageBytes) > |c.p|)
    requires !partial ==> (failed <==> FlushFails(c, pageBytes) || PagesFail(Flushed(c, pageBytes), pageBytes))
    requires !partial && !failed ==> next == PagesWritten(Flushed(c, pageBytes), pageBytes)
    ensures Activation(c, watermark, pageBytes) == if partial || failed then None else Some(next)
  {
  }

  /** When Write ends, the call it makes itself, if any, returns without another one. */
  lemma TailEnds(c: Call, d: Call, watermark: nat, pageBytes: nat)
    requires pageBytes > 0 && Ends(c, watermark, pageBytes) && Activation(c, watermark, pageBytes) == Some(d)
    ensures Activation(d, watermark, pageBytes).None? && Ends(d, watermark, pageBytes)
  {
    EndsWithinTwo(c, watermark, pageBytes);
  }

  lemma PageThatNeverEnds(pageBytes: nat, watermark: nat, p: Bytes)
    requires pageBytes > watermark && |p| == pageBytes
    ensures !Ends(Call(p, 0, 0, []), watermark, pageBytes)
  {
    ModUnique(0, 0, 0, pageBytes);
    assert p[0..] == p;
  }

  /** At some point there is no further call. */
  ghost predicate Stops(c: Call, watermark: nat, pageBytes: nat)
    requires pageBytes > 0
  {
    exists n: nat :: !Repeats(c, watermark, pageBytes, n)
  }

  lemma StopsExactly(c: Call, watermark: nat, pageBytes: nat)
    requires pageBytes > 0
    ensures Stops(c, watermark, pageBytes) <==> Ends(c, watermark, pageBytes)
  {
    NeverEndsExactly(c, watermark, pageBytes);
  }

  /** Write ends from every state, whatever the sink does, exactly when a page is no larger than the watermark. */
  lemma AlwaysEndsExactly(watermark: nat, pageBytes: nat)
    requires pageBytes > 0
    ensures (forall c: Call :: Stops(c, watermark, pageBytes)) <==> pageBytes <= watermark
  {
    if pageBytes <= watermark {
      forall c: Call ensures Stops(c, watermark, pageBytes) {
        StopsExactly(c, watermark, pageBytes);
      }
    } else {
      var c := Call(seq(pageBytes, i => 0), 0, 0, []);
      PageThatNeverEnds(pageBytes, watermark, c.p);
      StopsExactly(c, watermark, pageBytes);
    }
  }

  class PageWriter {
    const w: Sink
    var pageOffset: nat
    const pageBytes: nat
    var bufferedBytes: nat
    const buf: array<byte>
    const bufWatermarkBytes: nat
    /** The device offset of the sink's first byte. */
    ghost const base: int
    /** No write to the sink has failed so far. */
    ghost var healthy: bool

    ghost predicate Valid()
      reads this, w
    {
      && pageBytes > 0 && buf.Length == bufWatermarkBytes + pageBytes
      && bufferedBytes + Missing(pageOffset + bufferedBytes, pageBytes) <= buf.Length
      && (healthy ==> pageOffset % pageBytes == (base + |w.data|) % pageBytes)
    }

    /** Everything accepted that is not lost: what the sink holds, then what the buffer holds. */
    ghost function Stream(): Bytes
      reads this, w, buf
      requires bufferedBytes <= buf.Length
    {
      w.data + buf[..bufferedBytes]
    }

    constructor (w: Sink, pageBytes: nat, pageOffset: nat)
      requires 0 < pageBytes
      ensures Valid() && healthy && fresh(buf) && this.w == w && this.pageBytes == pageBytes && bufferedBytes == 0
      ensures base == pageOffset - |w.data|
    {
      this.w, this.pageBytes, this.pageOffset, bufferedBytes := w, pageBytes, pageOffset, 0;
      buf := new byte[DEFAULT_BUFFER_BYTES + pageBytes];
      bufWatermarkBytes := DEFAULT_BUFFER_BYTES;
      base, healthy := pageOffset - |w.data|, true;
    }

    /** Copy behind the buffered bytes. */
    method Buffer(p: Bytes)
      requires bufferedBytes + |p| <= buf.Length
      modifies buf, this`bufferedBytes
      ensures bufferedBytes == old(bufferedBytes) + |p| && buf[..bufferedBytes] == old(buf[..bufferedBytes]) + p
    {
      forall i | 0 <= i < |p| {
        buf[bufferedBytes + i] := p[i];
      }
      bufferedBytes := bufferedBytes + |p|;
    }

    /** flush: hand the buffer to the sink; the buffer is empty afterwards, whatever the sink took. */
    method Flush() returns (failed: bool)
      requires Valid()
      modifies this, w
      ensures Valid() && bufferedBytes == 0 && healthy == (old(healthy) && !failed)
      ensures w.data <= old(Stream()) && (failed <==> w.data != old(Stream())) && (failed ==> old(bufferedBytes) > 0)
      ensures w.ends == if old(bufferedBytes) == 0 then old(w.ends) else old(w.ends) + [|w.data|]
      ensures !failed && old((pageOffset + bufferedBytes) % pageBytes) == 0 ==> pageOffset % pageBytes == 0
      ensures failed <==> old(bufferedBytes > 0 && Refuses(w.script, bufferedBytes))
      ensures w.script == if old(bufferedBytes) == 0 then old(w.script) else AfterWrite(old(w.script))
      ensures pageOffset == if old(bufferedBytes) == 0 then old(pageOffset) else old((pageOffset + bufferedBytes) % pageBytes)
    {
      if bufferedBytes == 0 {
        return false;
      }
      var next := (pageOffset + bufferedBytes) % pageBytes;
      if healthy {
        ModAdvance(pageOffset, base + |w.data|, bufferedBytes, pageBytes);
      }
      ModUnique(next, 0, next, pageBytes);
      var n;
      n, failed := w.Write(buf[..bufferedBytes]);
      pageOffset := next;
      bufferedBytes := 0;
      healthy := healthy && !failed;
    }

    /** What a call with this argument would start from. */
    ghost function CallWith(p: Bytes): Call
      reads this, w
    {
      Call(p, pageOffset, bufferedBytes, w.script)
    }

    /**
     Write: everything up to the watermark is buffered; beyond it, the page in the buffer is
     completed and flushed, whole pages go to the sink directly, and Write is called with the tail.
     */
    method Write(p: Bytes) returns (n: nat, failed: bool)
      requires Valid() && Ends(CallWith(p), bufWatermarkBytes, pageBytes)
      modifies this, w, buf
      ensures Valid() && healthy == (old(healthy) && !failed)
      ensures !failed ==> n == |p| && Stream() == old(Stream()) + p
      ensures failed ==> n <= |p| && bufferedBytes == 0 && Stream() <= old(Stream()) + p[..n]
      ensures old(w.ends) <= w.ends && (failed ==> |w.ends| > |old(w.ends)|)
      ensures healthy ==> PageEnds(w.ends, |old(w.ends)|, base, pageBytes)
      ensures |p| + old(bufferedBytes) <= bufWatermarkBytes ==> !failed && w.data == old(w.data) && w.ends == old(w.ends)
      decreases if Activation(CallWith(p), bufWatermarkBytes, pageBytes).None? then 0 else 1
    {
      ghost var c0 := CallWith(p);
      var rest;
      n, failed, rest := Activate(p);
      if rest.Some? {
        TailEnds(c0, CallWith(rest.value), bufWatermarkBytes, pageBytes);
        var c;
        c, failed := Write(rest.value);
        Joined(old(Stream()), p, n, c);
        n := n + c;
      }
    }

    /** One activation up to its own call of Write, whose argument is returned if it comes to that. */
    method Activate(p: Bytes) returns (n: nat, failed: bool, rest: Option<Bytes>)
      requires Valid()
      modifies this, w, buf
      ensures Valid() && n <= |p| && healthy == (old(healthy) && !failed)
      ensures Activation(old(CallWith(p)), bufWatermarkBytes, pageBytes)
           == if rest.None? then None else Some(CallWith(rest.value))
      ensures if failed then rest.None? && bufferedBytes == 0 && Stream() <= old(Stream()) + p[..n]
              else Stream() == old(Stream()) + p[..n] && if rest.Some? then rest.value == p[n..] else n == |p|
      ensures old(w.ends) <= w.ends && (failed ==> |w.ends| > |old(w.ends)|)
      ensures healthy ==> PageEnds(w.ends, |old(w.ends)|, base, pageBytes)
      ensures |p| + old(bufferedBytes) <= bufWatermarkBytes ==>
                !failed && rest.None? && w.data == old(w.data) && w.ends == old(w.ends)
    {
      rest := None;
      if |p| + bufferedBytes <= bufWatermarkBytes {
        Buffer(p);
        n, failed := |p|, false;
      } else {
        n, failed, rest := ActivateOverflowing(p);
      }
    }

    /** The same for an argument that does not fit. */
    method ActivateOverflowing(p: Bytes) returns (n: nat, failed: bool, rest: Option<Bytes>)
      requires Valid() && |p| + bufferedBytes > bufWatermarkBytes
      modifies this, w, buf
      ensures Valid() && n <= |p| && healthy == (old(healthy) && !failed)
      ensures Activation(old(CallWith(p)), bufWatermarkBytes, pageBytes)
           == if rest.None? then None else Some(CallWith(rest.value))
      ensures if failed then rest.None? && bufferedBytes == 0 && Stream() <= old(Stream()) + p[..n]
              else Stream() == old(Stream()) + p[..n] && if rest.Some? then rest.value == p[n..] else n == |p|
      ensures old(w.ends) <= w.ends && (failed ==> |w.ends| > |old(w.ends)|)
      ensures healthy ==> PageEnds(w.ends, |old(w.ends)|, base, pageBytes)
    {
      ghost var c, before := CallWith(p), Stream();
      var partial;
      n, partial := CompletePage(p);
      assert Stream() == before + p[..n];
      if partial {
        ActivationBy(c, bufWatermarkBytes, pageBytes, true, false, c);
        failed, rest := false, None;
      } else {
        n, failed, rest := ActivateAligned(p, n, c, before);
      }
    }

    /** The rest of it, once the unfinished page is complete with the first slack bytes. */
    method ActivateAligned(p: Bytes, slack: nat, ghost c: Call, ghost before: Bytes)
      returns (n: nat, failed: bool, rest: Option<Bytes>)
      requires Valid() && (pageOffset + bufferedBytes) % pageBytes == 0 && |p| + c.buffered > bufWatermarkBytes
      requires c.p == p && c.pageOffset == pageOffset && c.script == w.script
      requires slack == SlackOf(c, pageBytes) <= |p| && bufferedBytes == c.buffered + slack && Stream() == before + p[..slack]
      modifies this, w
      ensures Valid() && n <= |p| && healthy == (old(healthy) && !failed)
      ensures Activation(c, bufWatermarkBytes, pageBytes) == if rest.None? then None else Some(CallWith(rest.value))
      ensures if failed then rest.None? && bufferedBytes == 0 && Stream() <= before + p[..n]
              else Stream() == before + p[..n] && rest == Some(p[n..])
      ensures old(w.ends) <= w.ends && (failed ==> |w.ends| > |old(w.ends)|)
      ensures healthy ==> PageEnds(w.ends, |old(w.ends)|, base, pageBytes)
    {
      n, failed := ClearAndWritePages(p[slack..], c);
      Joined(before, p, slack, n);
      n := slack + n;
      rest := if failed then None else Some(p[n..]);
      ActivationBy(c, bufWatermarkBytes, pageBytes, false, failed, CallWith(p[n..]));
    }

    /** The buffer ends on a page boundary: clear it out, then write whole pages directly. */
    method ClearAndWritePages(p: Bytes, ghost c: Call) returns (n: nat, failed: bool)
      requires Valid() && (pageOffset + bufferedBytes) % pageBytes == 0
      requires c.pageOffset == pageOffset && c.script == w.script && SlackOf(c, pageBytes) <= |c.p|
      requires bufferedBytes == c.buffered + SlackOf(c, pageBytes) && p == c.p[SlackOf(c, pageBytes)..]
      modifies this, w
      ensures Valid() && bufferedBytes == 0 && n <= |p| && healthy == (old(healthy) && !failed)
      ensures failed <==> FlushFails(c, pageBytes) || PagesFail(Flushed(c, pageBytes), pageBytes)
      ensures !failed ==> PagesWritten(Flushed(c, pageBytes), pageBytes) == CallWith(p[n..])
      ensures if failed then w.data <= old(Stream()) + p[..n] else w.data == old(Stream()) + p[..n]
      ensures old(w.ends) <= w.ends && (failed ==> |w.ends| > |old(w.ends)|)
      ensures healthy ==> PageEnds(w.ends, |old(w.ends)|, base, pageBytes)
    {
      n := 0;
      failed := Flush();
      assert old(Stream()) + p[..0] == old(Stream());
      assert !failed ==> Flushed(c, pageBytes) == CallWith(p);
      if !failed && |p| > pageBytes {
        n, failed := WritePages(p);
      }
    }

    /** Fill the unfinished page of the buffer; partial when p is too short for that. */
    method CompletePage(p: Bytes) returns (n: nat, partial: bool)
      requires Valid() && |p| + bufferedBytes > bufWatermarkBytes
      modifies this`bufferedBytes, buf
      ensures Valid() && (partial <==> old(Missing(pageOffset + bufferedBytes, pageBytes)) > |p|)
      ensures n == if partial then |p| else old(Missing(pageOffset + bufferedBytes, pageBytes))
      ensures bufferedBytes == old(bufferedBytes) + n && buf[..bufferedBytes] == old(buf[..bufferedBytes]) + p[..n]
      ensures !partial ==> (pageOffset + bufferedBytes) % pageBytes == 0
    {
      var slack := pageBytes - (pageOffset + bufferedBytes) % pageBytes;
      n, partial := 0, false;
      SlackCompletes(pageOffset + bufferedBytes, 0, pageBytes);
      if slack != pageBytes {
        partial := slack > |p|;
        n := if partial then |p| else slack;
        SlackCompletes(pageOffset + bufferedBytes, n, pageBytes);
        Buffer(p[..n]);
      }
    }

    /** All complete pages of p go to the sink without being copied. */
    method WritePages(p: Bytes) returns (c: nat, failed: bool)
      requires Valid() && bufferedBytes == 0 && |p| > pageBytes && (healthy ==> pageOffset % pageBytes == 0)
      modifies this`healthy, w
      ensures Valid() && c <= |p| && w.data == old(w.data) + p[..c] && w.ends == old(w.ends) + [|w.data|]
      ensures healthy == (old(healthy) && !failed)
      ensures !failed ==> p[c..] == Tail(p, pageBytes)
      ensures healthy ==> (base + |w.data|) % pageBytes == 0
      ensures failed <==> Refuses(old(w.script), DirectLength(p, pageBytes))
      ensures w.script == AfterWrite(old(w.script))
    {
      var pages := |p| / pageBytes;
      PagesFit(|p|, pageBytes);
      ghost var at := base + |w.data|;
      c, failed := w.Write(p[..pages * pageBytes]);
      healthy := healthy && !failed;
      if healthy {
        assert at == (at / pageBytes) * pageBytes;
        assert at + pages * pageBytes == (at / pageBytes + pages) * pageBytes;
        ModUnique(at + pages * pageBytes, at / pageBytes + pages, 0, pageBytes);
      }
    }
  }
}
