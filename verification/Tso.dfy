/**
 The timestamp oracle as the object of `tso.go`: fields updated in place under the lock,
 each method proved against the functions of `Oracle`.
 */
module Tso {
  import opened Bytes
  import opened Hlc
  import opened Spec = Oracle
  import Leaders
  import Transactions

  /** In whatever state of the step system, the mark's advance is a step and does this. */
  ghost predicate Observes(m: Mark, d: nat, m': Mark) {
    forall s: Transactions.System | s.oracle.readMark == m ::
      && Transactions.Possible(s, Transactions.AdvanceMark(d))
      && Transactions.Do(s, Transactions.AdvanceMark(d)) == s.(oracle := s.oracle.(readMark := m'))
  }

  /** The same for a move of the persisted window. */
  ghost predicate MovesWindow(o: Oracle, bound: nat, o': Oracle) {
    forall s: Transactions.System | s.oracle == o && bound > o.saved ::
      && Transactions.Possible(s, Transactions.UpdateWindow(bound))
      && Transactions.Do(s, Transactions.UpdateWindow(bound)) == s.(oracle := o')
  }

  /** A watermark kept to its contract; Badger's own bookkeeping behind it is not modelled. */
  class WaterMark {
    var pending: map<nat, int>
    var begun: set<nat>
    var doneUntil: nat

    function State(): Mark
      reads this
    {
      Mark(pending, begun, doneUntil)
    }

    constructor (lastIndex: nat)
      ensures State() == Mark(map[], {}, lastIndex)
    {
      pending, begun, doneUntil := map[], {}, lastIndex;
    }

    method Begin(i: nat)
      modifies this
      ensures State() == old(State()).Begin(i)
    {
      pending := pending[i := State().Count(i) + 1];
      begun := begun + {i};
    }

    method Done(i: nat)
      modifies this
      ensures State() == old(State()).Done(i)
    {
      pending := pending[i := State().Count(i) - 1];
    }

    /** Read the mark; it may have moved on since it was last read, as far as the contract allows. */
    method DoneUntil() returns (d: nat)
      modifies this
      ensures old(State()).CanAdvance(d) && State() == old(State()).Advance(d)
      ensures Observes(old(State()), d, State())
    {
      assert doneUntil in begun + {doneUntil} && State().CanAdvance(doneUntil);
      d :| d in begun + {doneUntil} && State().CanAdvance(d);
      doneUntil := d;
    }
  }

  /** In whatever state of the step system, registering, beginning and waiting one after the other come to this. */
  ghost predicate Opens(o: Oracle, id: nat, r: nat, waitSucceeds: bool, o': Oracle) {
    forall s: Transactions.System | id !in s.txns && s.oracle == o ::
      var s1 := Transactions.Do(s, Transactions.TakeReadTs(id));
      var s2 := Transactions.Do(s1, Transactions.BeginRead(id));
      var s3 := Transactions.Do(s2, if waitSucceeds then Transactions.WaitSucceeds(id) else Transactions.WaitFails(id));
      && s3.oracle == o'
      && s3.txns == s.txns[id := Transactions.Txn(if waitSucceeds then Transactions.Open else Transactions.Closed, r, [], {}, [])]
  }

  datatype CommitTs = IsConflict | IsWaiting | Ts(ts: nat)

  class TSO {
    var current: TimeStamp
    var saved: nat
    const readMark: WaterMark
    const txnMark: WaterMark
    var readers: set<nat>
    var lastCleanupTs: nat
    var committedTxns: seq<Committed>

    ghost function State(): Oracle
      reads this, readMark
    {
      Oracle(current, saved, readers, readMark.State(), lastCleanupTs, committedTxns)
    }

    /** Start serving from a timestamp whose window has been persisted. */
    constructor (start: TimeStamp, window: nat)
      ensures Serving(State()) && current == start && saved == window
      ensures fresh(readMark) && fresh(txnMark) && readMark != txnMark && txnMark.State() == readMark.State()
    {
      current, saved := start, window;
      readers, lastCleanupTs, committedTxns := {}, 0, [];
      readMark := new WaterMark(start.Compose());
      txnMark := new WaterMark(start.Compose());
    }

    /** The clock readings the call makes are given in order; None means it is still waiting at the end of them. */
    method Allocate(clock: seq<nat>) returns (ts: Option<nat>)
      modifies this`current
      ensures match Prepare(old(current), saved, clock)
              case None => ts.None?
              case Some(c) => ts == Some(c.Incr().Compose()) && current == c.Incr()
    {
      if clock == [] {
        return None;
      }
      var at := 0;
      var now := clock[at];
      if now > current.physical {
        current := current.Reset(now);
      }
      at := 1;
      ghost var c1, tail := current, clock[1..];
      if current.physical >= saved {
        while at < |clock| && clock[at] >= saved
          invariant 1 <= at <= |clock|
          invariant forall j | 1 <= j < at :: clock[j] >= saved
          invariant current == c1
        {
          at := at + 1;
        }
        FirstBelowIs(tail, saved, at - 1);
        if at == |clock| {
          return None;
        }
        current := current.Reset(clock[at]);
        at := at + 1;
      }
      ghost var c2, rest := current, clock[at..];
      ghost var from := at;
      if current.ExceedLogicalMax() {
        while at < |clock| && clock[at] <= current.physical
          invariant from <= at <= |clock|
          invariant forall j | from <= j < at :: clock[j] <= c2.physical
          invariant current == c2
        {
          at := at + 1;
        }
        FirstAboveIs(rest, c2.physical, at - from);
        if at == |clock| {
          return None;
        }
        current := current.Reset(clock[at]);
      }
      current := current.Incr();
      ts := Some(current.Compose());
    }

    method DoneRead(readTs: nat)
      modifies this`readers, readMark
      ensures State() == Spec.DoneRead(old(State()), readTs)
    {
      if readTs in readers {
        readMark.Done(readTs);
        readers := readers - {readTs};
      }
    }

    /** Register a read timestamp, begin it on the mark, and wait; a failed wait gives the mark back. */
    method ReadTs(waitSucceeds: bool) returns (readTs: Option<nat>)
      modifies this`readers, readMark
      ensures var r, o := old(current.Compose()), Register(old(State()));
              if waitSucceeds
              then readTs == Some(r) && State() == o.(readMark := o.readMark.Begin(r))
              else readTs == None && State() == o.(readMark := o.readMark.Begin(r).Done(r))
      ensures forall id: nat :: Opens(old(State()), id, old(current.Compose()), waitSucceeds, State())
    {
      var r := current.Compose();
      readers := readers + {r};
      readMark.Begin(r);
      if !waitSucceeds {
        readMark.Done(r);
        return None;
      }
      readTs := Some(r);
    }

    method HasConflict(readTs: nat, readSet: seq<Key>) returns (conflict: bool)
      ensures conflict <==> Spec.HasConflict(committedTxns, readTs, readSet)
    {
      if |readSet| == 0 {
        return false;
      }
      for i := 0 to |committedTxns|
        invariant forall a | 0 <= a < i :: !Clashes(committedTxns[a], readTs, readSet)
      {
        var committed := committedTxns[i];
        if committed.ts > readTs {
          for j := 0 to |readSet|
            invariant forall b | 0 <= b < j :: readSet[b] !in committed.keys
          {
            if readSet[j] in committed.keys {
              assert Clashes(committed, readTs, readSet);
              return true;
            }
          }
        }
      }
      return false;
    }

    /** Filter the remembered commits in place, keeping those above the read mark. */
    method CleanupCommittedTransactions() returns (ghost d: nat)
      modifies this`lastCleanupTs, this`committedTxns, readMark
      ensures old(readMark.State()).CanAdvance(d)
      ensures State() == Cleanup(old(State()).(readMark := old(readMark.State()).Advance(d)))
    {
      var maxReadTs := readMark.DoneUntil();
      d := maxReadTs;
      if maxReadTs == lastCleanupTs {
        return;
      }
      lastCleanupTs := maxReadTs;
      var kept := [];
      for i := 0 to |committedTxns|
        invariant kept == Later(committedTxns[..i], maxReadTs)
      {
        assert committedTxns[..i + 1][..i] == committedTxns[..i];
        if committedTxns[i].ts > maxReadTs {
          kept := kept + [committedTxns[i]];
        }
      }
      assert committedTxns[..|committedTxns|] == committedTxns;
      committedTxns := kept;
    }

    /** The whole critical section of a commit; the stamped commit begins on the transaction mark. */
    method NewCommitTs(readTs: nat, readSet: seq<Key>, keys: set<Key>, clock: seq<nat>)
      returns (r: CommitTs, ghost d: nat)
      requires readMark != txnMark
      modifies this, readMark, txnMark
      ensures r.IsConflict? <==> Spec.HasConflict(old(committedTxns), readTs, readSet)
      ensures r.IsConflict? ==> State() == old(State())
      ensures !r.IsConflict? ==> Spec.DoneRead(old(State()), readTs).readMark.CanAdvance(d)
      ensures match Spec.NewCommitTs(old(State()), readTs, readSet, keys, d, clock)
              case Conflict => r.IsConflict?
              case Blocked => r.IsWaiting?
              case Granted(o, ts) => r == Ts(ts) && State() == o
      ensures txnMark.State() == if r.Ts? then old(txnMark.State()).Begin(r.ts) else old(txnMark.State())
    {
      d := 0;
      var conflict := HasConflict(readTs, readSet);
      if conflict {
        return IsConflict, d;
      }
      DoneRead(readTs);
      d := CleanupCommittedTransactions();
      var ts := Allocate(clock);
      if ts.None? {
        return IsWaiting, d;
      }
      txnMark.Begin(ts.value);
      committedTxns := committedTxns + [Committed(ts.value, keys)];
      r := Ts(ts.value);
    }

    method DoneCommit(cts: nat)
      modifies txnMark
      ensures txnMark.State() == old(txnMark.State()).Done(cts)
    {
      txnMark.Done(cts);
    }

    /**
     StartServing: load the persisted bound and start at the clock, or just above the bound; then sleep until
     the clock, read again, has caught up. On a log that persists that bound it starts where `Leaders.Start` does.
     */
    method Load(persisted: Option<nat>, now: nat, later: nat) returns (wait: nat)
      modifies this`current, this`saved
      ensures current.logical == 0 && current.physical >= now
      ensures persisted.Some? ==>
                saved == persisted.value < current.physical && (current.physical == now || current.physical == saved + 1)
      ensures persisted.None? ==> current.physical == now && saved == old(saved)
      ensures forall log | Leaders.Persisted(log) == persisted :: Leaders.Start(log, now).current == current
      ensures if persisted.None? || current.physical <= later then wait == 0 else later + wait == current.physical
    {
      wait := 0;
      if persisted.Some? {
        saved := persisted.value;
        var start := now;
        if start <= persisted.value {
          start := persisted.value + 1;
        }
        current := current.Reset(start);
        if later < current.physical {
          wait := current.physical - later;
        }
      } else {
        current := current.Reset(now);
      }
    }

    /** The critical section that stamps the startup record, and the bound it will persist. */
    method StampStartupRecord() returns (ts: nat, bound: nat)
      modifies this`current
      ensures current == old(current).Incr() && ts == current.Compose()
      ensures bound == current.physical + Leaders.WINDOW
    {
      bound := current.physical + Leaders.WINDOW;
      current := current.Incr();
      ts := current.Compose();
    }

    /** The bound a window update would persist; None while the present one still suffices. */
    method ComputeWindow() returns (bound: Option<nat>)
      ensures bound == if saved != 0 && current.physical + Leaders.WINDOW <= saved then None
                       else Some(current.physical + Leaders.WINDOW)
    {
      var upper := current.physical + Leaders.WINDOW;
      if saved != 0 && upper <= saved {
        return None;
      }
      bound := Some(upper);
    }

    /** Move the persisted window; the new bound has been proposed before this is called. */
    method SetWindow(bound: nat)
      modifies this`saved
      ensures State() == old(State()).(saved := bound) && MovesWindow(old(State()), bound, State())
    {
      saved := bound;
    }
  }

  lemma {:induction false} FirstBelowIs(clock: seq<nat>, bound: nat, i: nat)
    requires i <= |clock| && (forall j | 0 <= j < i :: clock[j] >= bound) && (i < |clock| ==> clock[i] < bound)
    ensures FirstBelow(clock, bound) == i
  {
  }

  lemma {:induction false} FirstAboveIs(clock: seq<nat>, bound: nat, i: nat)
    requires i <= |clock| && (forall j | 0 <= j < i :: clock[j] <= bound) && (i < |clock| ==> clock[i] > bound)
    ensures FirstAbove(clock, bound) == i
  {
  }
}
