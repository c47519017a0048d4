/**
 The timestamp oracle of a leader as a value: what one critical section of `tso.go`
 does to the oracle's fields. The classes in `Tso` are proved against these functions,
 and `Transactions` builds whole runs from them.
 */
module Oracle {
  import opened Bytes
  import opened Hlc

  /**
   The contract of a Badger watermark: a pending count per index, and a `doneUntil`
   that only moves to an index that has begun and never passes an index that is still pending.
   */
  datatype Mark = Mark(pending: map<nat, int>, begun: set<nat>, doneUntil: nat) {

    function Count(i: nat): int {
      if i in pending then pending[i] else 0
    }

    function Begin(i: nat): Mark {
      Mark(pending[i := Count(i) + 1], begun + {i}, doneUntil)
    }

    function Done(i: nat): Mark {
      this.(pending := pending[i := Count(i) - 1])
    }

    predicate CanAdvance(d: nat) {
      || d == doneUntil
      || (doneUntil < d && d in begun && forall i | i in pending && i < d :: pending[i] <= 0)
    }

    function Advance(d: nat): Mark {
      this.(doneUntil := d)
    }
  }

  /** A committed transaction as conflict detection remembers it. */
  datatype Committed = Committed(ts: nat, keys: set<Key>)

  datatype Oracle = Oracle(
    current: TimeStamp,
    saved: nat,
    readers: set<nat>,
    readMark: Mark,
    lastCleanup: nat,
    committed: seq<Committed>)

  /**
   The oracle right after `StartServing`: both marks start at the current timestamp. What an earlier term of
   the same node has left behind lies at or below it; the commits left are those above the last pruning.
   */
  predicate Serving(o: Oracle) {
    var now := o.current.Compose();
    && o.readMark == Mark(map[], {}, now) && o.lastCleanup <= now
    && (forall r | r in o.readers :: r <= now)
    && (forall c | c in o.committed :: o.lastCleanup < c.ts <= now)
  }

  // ---------- Read timestamps ----------

  function Register(o: Oracle): Oracle {
    o.(readers := o.readers + {o.current.Compose()})
  }

  function DoneRead(o: Oracle, r: nat): Oracle {
    if r in o.readers then o.(readMark := o.readMark.Done(r), readers := o.readers - {r}) else o
  }

  // ---------- Conflicts ----------

  predicate Clashes(c: Committed, readTs: nat, readSet: seq<Key>) {
    c.ts > readTs && exists k :: k in readSet && k in c.keys
  }

  predicate HasConflict(cs: seq<Committed>, readTs: nat, readSet: seq<Key>) {
    exists i :: 0 <= i < |cs| && Clashes(cs[i], readTs, readSet)
  }

  /** The entries with a timestamp above t, in order. */
  function Later(cs: seq<Committed>, t: nat): (r: seq<Committed>)
    ensures |r| <= |cs|
  {
    if cs == [] then []
    else
      var last := cs[|cs| - 1];
      Later(cs[..|cs| - 1], t) + if last.ts > t then [last] else []
  }

  /** Prune the remembered commits, unless the read mark has not moved since the last time. */
  function Cleanup(o: Oracle): Oracle {
    if o.readMark.doneUntil == o.lastCleanup then o
    else o.(lastCleanup := o.readMark.doneUntil, committed := Later(o.committed, o.readMark.doneUntil))
  }

  lemma {:induction false} LaterKeepsExactly(cs: seq<Committed>, t: nat, c: Committed)
    ensures c in Later(cs, t) <==> c in cs && c.ts > t
  {
    if cs != [] {
      var init, last := cs[..|cs| - 1], cs[|cs| - 1];
      assert cs == init + [last];
      LaterKeepsExactly(init, t, c);
    }
  }

  lemma {:induction false} LaterTwice(cs: seq<Committed>, a: nat, b: nat)
    requires a <= b
    ensures Later(Later(cs, a), b) == Later(cs, b)
  {
    if cs != [] {
      var init, last := cs[..|cs| - 1], cs[|cs| - 1];
      LaterTwice(init, a, b);
      if last.ts > a {
        var kept := Later(init, a) + [last];
        assert kept[..|kept| - 1] == Later(init, a);
      } else {
        assert Later(cs, a) == Later(init, a) && Later(cs, b) == Later(init, b);
      }
    }
  }

  lemma LaterAppend(cs: seq<Committed>, c: Committed, t: nat)
    ensures Later(cs + [c], t) == Later(cs, t) + if c.ts > t then [c] else []
  {
    assert (cs + [c])[..|cs|] == cs;
  }

  lemma {:induction false} LaterOfAllLater(cs: seq<Committed>, t: nat)
    requires forall c | c in cs :: c.ts > t
    ensures Later(cs, t) == cs
  {
    if cs != [] {
      LaterOfAllLater(cs[..|cs| - 1], t);
      assert cs == cs[..|cs| - 1] + [cs[|cs| - 1]];
    }
  }

  /** Conflicts can be read off membership: the order of the list does not matter. */
  lemma ConflictByMembership(cs: seq<Committed>, readTs: nat, readSet: seq<Key>)
    ensures HasConflict(cs, readTs, readSet) <==> exists c :: c in cs && Clashes(c, readTs, readSet)
  {
    if c :| c in cs && Clashes(c, readTs, readSet) {
      var i :| 0 <= i < |cs| && cs[i] == c;
    }
  }

  /** Pruning at or below a read timestamp never changes the verdict for that timestamp. */
  lemma PruningKeepsVerdict(cs: seq<Committed>, t: nat, readTs: nat, readSet: seq<Key>)
    requires t <= readTs
    ensures HasConflict(Later(cs, t), readTs, readSet) <==> HasConflict(cs, readTs, readSet)
  {
    ConflictByMembership(cs, readTs, readSet);
    ConflictByMembership(Later(cs, t), readTs, readSet);
    forall c ensures c in Later(cs, t) <==> c in cs && c.ts > t {
      LaterKeepsExactly(cs, t, c);
    }
  }

  predicate WrittenAbove(cs: seq<Committed>, t: nat, k: Key) {
    exists c :: c in cs && c.ts > t && k in c.keys
  }

  lemma ConflictOfOneRead(cs: seq<Committed>, readTs: nat, k: Key)
    ensures HasConflict(cs, readTs, [k]) <==> WrittenAbove(cs, readTs, k)
  {
    ConflictByMembership(cs, readTs, [k]);
    if c :| c in cs && c.ts > readTs && k in c.keys {
      assert k in [k] && Clashes(c, readTs, [k]);
    }
  }

  lemma ConflictIsSomeWrittenRead(cs: seq<Committed>, readTs: nat, readSet: seq<Key>)
    ensures HasConflict(cs, readTs, readSet) <==> exists k :: k in readSet && WrittenAbove(cs, readTs, k)
  {
    ConflictByMembership(cs, readTs, readSet);
    if c :| c in cs && Clashes(c, readTs, readSet) {
      var k :| k in readSet && k in c.keys;
      assert WrittenAbove(cs, readTs, k);
    }
    if k :| k in readSet && WrittenAbove(cs, readTs, k) {
      var c :| c in cs && c.ts > readTs && k in c.keys;
      assert Clashes(c, readTs, readSet);
    }
  }

  lemma ConflictsByKeys(cs: seq<Committed>, t: nat, readTs: nat)
    ensures (forall readSet: seq<Key> :: HasConflict(Later(cs, t), readTs, readSet) <==> HasConflict(cs, readTs, readSet))
       <==> (forall k :: WrittenAbove(cs, readTs, k) ==> WrittenAbove(Later(cs, t), readTs, k))
  {
    var kept := Later(cs, t);
    forall k ensures WrittenAbove(kept, readTs, k) ==> WrittenAbove(cs, readTs, k) {
      if c :| c in kept && c.ts > readTs && k in c.keys {
        LaterKeepsExactly(cs, t, c);
      }
    }
    if forall k :: WrittenAbove(cs, readTs, k) ==> WrittenAbove(kept, readTs, k) {
      forall readSet: seq<Key> ensures HasConflict(kept, readTs, readSet) <==> HasConflict(cs, readTs, readSet) {
        ConflictIsSomeWrittenRead(cs, readTs, readSet);
        ConflictIsSomeWrittenRead(kept, readTs, readSet);
      }
    } else {
      var k :| WrittenAbove(cs, readTs, k) && !WrittenAbove(kept, readTs, k);
      ConflictOfOneRead(cs, readTs, k);
      ConflictOfOneRead(kept, readTs, k);
    }
  }

  /** Every commit that a mark has passed above a read timestamp has only keys that were written again above the mark. */
  predicate Superseded(cs: seq<Committed>, readTs: nat, mark: nat) {
    forall c, k | c in cs && readTs < c.ts <= mark && k in c.keys :: WrittenAbove(cs, mark, k)
  }

  /**
   Exactly when pruning at a mark is harmless for a transaction that reads at readTs, whatever it reads:
   when the commits between the two, which are the ones it loses, are superseded above the mark.
   */
  lemma PruningHarmlessExactly(cs: seq<Committed>, mark: nat, readTs: nat)
    ensures (forall readSet: seq<Key> :: HasConflict(Later(cs, mark), readTs, readSet) <==> HasConflict(cs, readTs, readSet))
       <==> Superseded(cs, readTs, mark)
  {
    var kept := Later(cs, mark);
    ConflictsByKeys(cs, mark, readTs);
    forall c ensures c in kept <==> c in cs && c.ts > mark {
      LaterKeepsExactly(cs, mark, c);
    }
    if Superseded(cs, readTs, mark) {
      forall k | WrittenAbove(cs, readTs, k) ensures WrittenAbove(kept, readTs, k) {
        var c :| c in cs && c.ts > readTs && k in c.keys;
        if c.ts > mark {
          assert c in kept;
        } else {
          assert WrittenAbove(cs, mark, k);
          var again :| again in cs && again.ts > mark && k in again.keys;
          assert again in kept && again.ts > readTs;
        }
      }
    } else {
      var c, k :| c in cs && readTs < c.ts <= mark && k in c.keys && !WrittenAbove(cs, mark, k);
      assert WrittenAbove(cs, readTs, k);
      assert !WrittenAbove(kept, readTs, k);
    }
  }

  // ---------- Allocation ----------

  /** The first clock reading below a bound; the length of the list when there is none. */
  function FirstBelow(clock: seq<nat>, bound: nat): (i: nat)
    ensures i <= |clock|
    ensures i < |clock| ==> clock[i] < bound
    ensures forall j | 0 <= j < i :: clock[j] >= bound
  {
    if clock == [] || clock[0] < bound then 0 else FirstBelow(clock[1..], bound) + 1
  }

  /** The first clock reading above a bound; the length of the list when there is none. */
  function FirstAbove(clock: seq<nat>, bound: nat): (i: nat)
    ensures i <= |clock|
    ensures i < |clock| ==> clock[i] > bound
    ensures forall j | 0 <= j < i :: clock[j] <= bound
  {
    if clock == [] || clock[0] > bound then 0 else FirstAbove(clock[1..], bound) + 1
  }

  /**
   Steps 1 to 3 of an allocation, driven by the successive clock readings it makes:
   follow the clock, wait for the persisted window, wait out a logical overflow.
   None means it is still waiting when the readings run out.
   */
  function Prepare(current: TimeStamp, saved: nat, clock: seq<nat>): Option<TimeStamp> {
    if clock == [] then None
    else
      var c1 := if clock[0] > current.physical then current.Reset(clock[0]) else current;
      var i := FirstBelow(clock[1..], saved);
      if c1.physical < saved then WaitOutOverflow(c1, clock[1..])
      else if i == |clock| - 1 then None
      else WaitOutOverflow(c1.Reset(clock[1 + i]), clock[i + 2..])
  }

  function WaitOutOverflow(c: TimeStamp, clock: seq<nat>): Option<TimeStamp> {
    var i := FirstAbove(clock, c.physical);
    if !c.ExceedLogicalMax() then Some(c)
    else if i == |clock| then None
    else Some(c.Reset(clock[i]))
  }

  /** The clock readings never go backwards, starting from an earlier reading. */
  predicate Nondecreasing(from: nat, clock: seq<nat>) {
    && (forall i | 0 <= i < |clock| :: from <= clock[i] < PHYSICAL_RANGE)
    && (forall i, j | 0 <= i < j < |clock| :: clock[i] <= clock[j])
  }

  /** The states an allocation can leave: a logical value past the limit only in an even millisecond. */
  predicate WellFormed(t: TimeStamp) {
    && t.physical < PHYSICAL_RANGE
    && (t.logical <= MAX_LOGICAL || (t.logical == MAX_LOGICAL + 1 && t.physical % 2 == 0))
  }

  /** The clock has reached the current timestamp, or the persisted window lies ahead of it. */
  predicate Fenced(current: TimeStamp, saved: nat, now: nat) {
    current.physical < saved || current.physical <= now
  }

  lemma ComposeBelowNextMillisecond(t: TimeStamp)
    requires WellFormed(t)
    ensures t.physical * LOGICAL_RANGE <= t.Compose() <= (t.physical + 1) * LOGICAL_RANGE
    ensures t.logical <= MAX_LOGICAL ==> t.Compose() == t.physical * LOGICAL_RANGE + t.logical
  {
    if t.logical <= MAX_LOGICAL {
      ComposeValue(t);
    } else {
      ComposeAtOverflow(t);
    }
  }

  lemma ResetMovesForward(t: TimeStamp, now: nat)
    requires WellFormed(t) && t.physical < now < PHYSICAL_RANGE
    ensures WellFormed(t.Reset(now)) && t.Reset(now).Compose() >= t.Compose()
  {
    ComposeBelowNextMillisecond(t);
    ComposeBelowNextMillisecond(t.Reset(now));
    assert now * LOGICAL_RANGE >= (t.physical + 1) * LOGICAL_RANGE;
  }

  /**
   On a clock that never goes backwards, steps 1 to 3 never move the timestamp backwards, and
   they stay below the persisted window unless the logical counter had overflowed. The wait for
   the window cannot end: the window cannot move while the lock is held.
   */
  lemma PrepareMovesForward(current: TimeStamp, saved: nat, now: nat, clock: seq<nat>)
    requires WellFormed(current) && Fenced(current, saved, now) && Nondecreasing(now, clock)
    requires Prepare(current, saved, clock).Some?
    ensures var c := Prepare(current, saved, clock).value;
            && WellFormed(c) && c.logical <= MAX_LOGICAL
            && c.Compose() >= current.Compose()
            && (c.physical < saved || (current.ExceedLogicalMax() && clock[0] <= current.physical))
            && Fenced(c, saved, clock[|clock| - 1])
  {
    var c1 := if clock[0] > current.physical then current.Reset(clock[0]) else current;
    var tail := clock[1..];
    if clock[0] > current.physical {
      ResetMovesForward(current, clock[0]);
    }
    if c1.physical >= saved {
      assert false;
    }
    if c1.ExceedLogicalMax() {
      var i := FirstAbove(tail, c1.physical);
      assert tail[i] == clock[1 + i];
      ResetMovesForward(c1, tail[i]);
    }
  }

  /** More readings of a clock that never goes backwards. */
  predicate Continues(now: nat, clock: seq<nat>, more: seq<nat>) {
    Nondecreasing(now, clock + more)
  }

  lemma WindowWaitGoesOn(current: TimeStamp, saved: nat, now: nat, clock: seq<nat>)
    requires WellFormed(current) && Fenced(current, saved, now) && Nondecreasing(now, clock) && clock != []
    requires clock[0] >= saved || current.physical >= saved
    ensures Prepare(current, saved, clock) == None
  {
    var tail := clock[1..];
    forall i | 0 <= i < |tail| ensures tail[i] >= saved {
      assert tail[i] == clock[1 + i];
    }
  }

  /** Outside the wait for the window, one more reading is enough, and it is needed only in the overflow wait. */
  lemma AllocationGoesOn(current: TimeStamp, saved: nat, first: nat, next: nat)
    requires WellFormed(current) && first < saved && current.physical < saved && first <= next && current.physical < next
    ensures Prepare(current, saved, [first, next]).Some?
  {
    assert [first, next][1..] == [next];
    var c1 := if first > current.physical then current.Reset(first) else current;
    assert FirstAbove([next], c1.physical) == 0 || c1.physical >= next;
    assert [next][1..] == [];
  }

  /**
   On such a clock the wait for the window, once entered, never ends, however many readings are made: every later
   reading is at or past the window, which cannot move while the lock is held. An allocation that does not enter it
   returns as soon as the clock moves on.
   */
  lemma WindowWaitExactly(current: TimeStamp, saved: nat, now: nat, first: nat)
    requires WellFormed(current) && Fenced(current, saved, now) && now <= first
    requires current.physical + 1 < PHYSICAL_RANGE && first < PHYSICAL_RANGE
    ensures (forall more | Continues(now, [first], more) :: Prepare(current, saved, [first] + more) == None)
       <==> first >= saved || current.physical >= saved
  {
    if first >= saved || current.physical >= saved {
      forall more | Continues(now, [first], more) ensures Prepare(current, saved, [first] + more) == None {
        WindowWaitGoesOn(current, saved, now, [first] + more);
      }
    } else {
      var next := if first > current.physical then first else current.physical + 1;
      assert [first] + [next] == [first, next];
      assert Continues(now, [first], [next]);
      AllocationGoesOn(current, saved, first, next);
    }
  }

  /**
   On such a clock, steps 1 to 3 follow the clock and invent nothing: the physical part has caught up with
   the first reading, and it is either unchanged with its counter, or a newer reading with a fresh counter.
   */
  lemma PrepareFollowsClock(current: TimeStamp, saved: nat, now: nat, clock: seq<nat>)
    requires WellFormed(current) && Fenced(current, saved, now) && Nondecreasing(now, clock)
    requires Prepare(current, saved, clock).Some?
    ensures var c := Prepare(current, saved, clock).value;
            && clock[0] <= c.physical
            && (c == current || (c.logical == 0 && c.physical > current.physical && c.physical in clock))
            && (c == current <==> clock[0] <= current.physical && !current.ExceedLogicalMax())
  {
    var c1 := if clock[0] > current.physical then current.Reset(clock[0]) else current;
    var tail := clock[1..];
    if c1.physical >= saved {
      assert false;
    }
    if c1.ExceedLogicalMax() {
      var i := FirstAbove(tail, c1.physical);
      assert tail[i] == clock[1 + i];
    }
  }

  /** Step 4 gives a timestamp above every earlier one exactly when it does not leave MAX_LOGICAL in an odd millisecond. */
  predicate StampsForward(c: TimeStamp) {
    !(c.logical == MAX_LOGICAL && c.physical % 2 == 1)
  }

  lemma StampIncreases(c: TimeStamp)
    requires WellFormed(c) && c.logical <= MAX_LOGICAL
    ensures c.Incr().Compose() > c.Compose() <==> StampsForward(c)
    ensures StampsForward(c) <==> WellFormed(c.Incr())
  {
    IncrMovesForward(c);
  }

  /**
   Exactly when an allocation is sure to stay below the persisted window, whatever the clock
   does: when it cannot enter the overflow wait, which does not look at the window again.
   */
  lemma WindowKeptExactly(current: TimeStamp, saved: nat, now: nat)
    requires WellFormed(current) && Fenced(current, saved, now)
    requires current.physical < saved < PHYSICAL_RANGE && now < PHYSICAL_RANGE
    ensures (forall clock | Nondecreasing(now, clock) && Prepare(current, saved, clock).Some? ::
              Prepare(current, saved, clock).value.physical < saved)
       <==> !(current.ExceedLogicalMax() && now <= current.physical)
  {
    if current.ExceedLogicalMax() && now <= current.physical {
      var clock := [now, saved];
      assert clock[1..] == [saved];
      assert FirstAbove(clock[1..], current.physical) == 0;
      assert Prepare(current, saved, clock) == Some(TimeStamp(saved, 0));
    } else {
      forall clock | Nondecreasing(now, clock) && Prepare(current, saved, clock).Some?
        ensures Prepare(current, saved, clock).value.physical < saved
      {
        PrepareMovesForward(current, saved, now, clock);
      }
    }
  }

  // ---------- Commit timestamps ----------

  datatype Outcome = Conflict | Blocked | Granted(oracle: Oracle, ts: nat)

  /**
   One critical section of a commit: refuse on a conflict; otherwise finish the read, prune the
   history at the read mark (observed as d at that moment), allocate and remember the commit.
   */
  function NewCommitTs(o: Oracle, readTs: nat, readSet: seq<Key>, keys: set<Key>, d: nat, clock: seq<nat>): Outcome {
    if HasConflict(o.committed, readTs, readSet) then Conflict
    else
      var o1 := DoneRead(o, readTs);
      var o2 := Cleanup(o1.(readMark := o1.readMark.Advance(d)));
      match Prepare(o2.current, o2.saved, clock)
      case None => Blocked
      case Some(c) =>
        var ts := c.Incr().Compose();
        Granted(o2.(current := c.Incr(), committed := o2.committed + [Committed(ts, keys)]), ts)
  }
}
