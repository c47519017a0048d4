/**
 What the read mark counts, exactly: every begin is given back once, except where the set of registered read
 timestamps no longer holds the timestamp of a transaction that finishes.
 */
module Release {
  import opened Bytes
  import opened Hlc
  import opened Oracle
  import opened Transactions
  import Anomalies

  /** An open transaction finishes although its read timestamp is no longer registered: DoneRead gives nothing back. */
  predicate Leaking(s: System, step: Step, r: nat) {
    && (step.Discard? || step.Commit?)
    && InPhase(s, step.id, Open) && s.txns[step.id].readTs == r && r !in s.oracle.readers
  }

  function Leaks(states: seq<System>, steps: seq<Step>, n: nat, r: nat): nat
    requires n <= |steps| < |states|
  {
    if n == 0 then 0 else Leaks(states, steps, n - 1, r) + One(Leaking(states[n - 1], steps[n - 1], r))
  }

  /** What the mark counts at r beyond the active transactions there. */
  ghost function Surplus(s: System, r: nat): int {
    s.oracle.readMark.Count(r) - |ActiveAt(s.txns, r)|
  }

  lemma StepCounts(s: System, step: Step, r: nat)
    requires LateInv(s) && Possible(s, step)
    ensures Surplus(Do(s, step), r) == Surplus(s, r) + One(Leaking(s, step, r))
  {
    var s' := Do(s, step);
    if !step.AdvanceMark? && !step.UpdateWindow? {
      assert s'.txns == s.txns[step.id := s'.txns[step.id]];
      ActiveAfterUpdate(s.txns, step.id, s'.txns[step.id], r);
    }
  }

  /**
   Over every run of the code, the mark counts at each read timestamp the transactions active there and,
   for good, every one that finished when its timestamp was no longer registered.
   */
  lemma {:induction false} CountsExactly(states: seq<System>, steps: seq<Step>, n: nat, r: nat)
    requires IsLateRun(states, steps) && n <= |steps|
    ensures states[n].oracle.readMark.Count(r) == |ActiveAt(states[n].txns, r)| + Leaks(states, steps, n, r)
  {
    if n == 0 {
      assert ActiveAt(states[0].txns, r) == {};
    } else {
      CountsExactly(states, steps, n - 1, r);
      LateRunKeepsList(states, steps, n - 1);
      assert IsLateStep(states[n - 1], steps[n - 1], states[n]);
      StepCounts(states[n - 1], steps[n - 1], r);
    }
  }

  // ---------- A transaction alone at its read timestamp ----------

  ghost predicate OnlyAt(s: System, id: nat, r: nat) {
    forall other | other in s.txns && s.txns[other].readTs == r :: other == id
  }

  /** A transaction alone at its timestamp stays registered until it finishes. */
  ghost predicate AloneInv(s: System, id: nat, r: nat) {
    id in s.txns && s.txns[id].readTs == r && (s.txns[id].phase.Registered? || s.txns[id].Active()) ==> r in s.oracle.readers
  }

  lemma StepKeepsAlone(s: System, step: Step, id: nat, r: nat)
    requires Possible(s, step) && AloneInv(s, id, r) && OnlyAt(Do(s, step), id, r)
    ensures OnlyAt(s, id, r) && AloneInv(Do(s, step), id, r)
    ensures !Leaking(s, step, r)
  {
    var s' := Do(s, step);
    forall other | other in s.txns && s.txns[other].readTs == r ensures other == id {
      assert other in s'.txns && s'.txns[other].readTs == r;
    }
  }

  lemma {:induction false} AloneNeverLeaks(states: seq<System>, steps: seq<Step>, n: nat, id: nat, r: nat)
    requires IsLateRun(states, steps) && n <= |steps| && OnlyAt(states[n], id, r)
    ensures AloneInv(states[n], id, r) && Leaks(states, steps, n, r) == 0
  {
    if n > 0 {
      var s, step := states[n - 1], steps[n - 1];
      assert IsLateStep(s, step, states[n]);
      OnlyBefore(s, step, id, r);
      AloneNeverLeaks(states, steps, n - 1, id, r);
      StepKeepsAlone(s, step, id, r);
    }
  }

  lemma OnlyBefore(s: System, step: Step, id: nat, r: nat)
    requires Possible(s, step) && OnlyAt(Do(s, step), id, r)
    ensures OnlyAt(s, id, r)
  {
    var s' := Do(s, step);
    forall other | other in s.txns && s.txns[other].readTs == r ensures other == id {
      assert other in s'.txns && s'.txns[other].readTs == r;
    }
  }

  /** So once it has finished, by a commit or a discard or because its wait failed, nothing is left at its timestamp. */
  lemma LoneReaderReleases(states: seq<System>, steps: seq<Step>, n: nat, id: nat)
    requires IsLateRun(states, steps) && n <= |steps| && id in states[n].txns
    requires OnlyAt(states[n], id, states[n].txns[id].readTs)
    ensures states[n].oracle.readMark.Count(states[n].txns[id].readTs) == One(states[n].txns[id].Active())
  {
    var s, r := states[n], states[n].txns[id].readTs;
    CountsExactly(states, steps, n, r);
    AloneNeverLeaks(states, steps, n, id, r);
    assert ActiveAt(s.txns, r) == if s.txns[id].Active() then {id} else {};
  }

  // ---------- What a leak costs ----------

  ghost predicate Stuck(s: System, r: nat) {
    Surplus(s, r) > 0 && s.oracle.readMark.doneUntil <= r
  }

  lemma StepStaysStuck(s: System, step: Step, r: nat)
    requires LateInv(s) && Possible(s, step) && Stuck(s, r)
    ensures Stuck(Do(s, step), r)
  {
    StepCounts(s, step, r);
    var m := Do(s, step).oracle.readMark;
    assert m.Count(r) >= 1 && r in m.pending;
  }

  lemma {:induction false} PathStaysStuck(states: seq<System>, steps: seq<Step>, n: nat, r: nat)
    requires LatePath(states, steps) && LateInv(states[0]) && n <= |steps| && Stuck(states[0], r)
    ensures Stuck(states[n], r)
  {
    if n > 0 {
      PathStaysStuck(states, steps, n - 1, r);
      LatePathKeepsInv(states, steps, n - 1);
      assert IsLateStep(states[n - 1], steps[n - 1], states[n]);
      StepStaysStuck(states[n - 1], steps[n - 1], r);
    }
  }

  /**
   Once more is counted at r than is active there, the mark never passes r again, whatever the code does, and no
   commit above r is ever pruned again: the list that conflict detection walks grows with every commit.
   */
  lemma LeakIsForGood(s: System, s': System, r: nat)
    requires LateInv(s) && Stuck(s, r) && ReachedFrom(s, s')
    ensures s'.oracle.readMark.doneUntil <= r
    ensures forall c | c in Footprints(s'.history) && c.ts > r :: c in s'.oracle.committed
  {
    var states: seq<System>, steps: seq<Step> :| LatePath(states, steps) && states[0] == s && states[|steps|] == s';
    PathStaysStuck(states, steps, |steps|, r);
    LatePathKeepsInv(states, steps, |steps|);
    var all := s'.before + Footprints(s'.history);
    forall c | c in Footprints(s'.history) && c.ts > r ensures c in s'.oracle.committed {
      LaterKeepsExactly(all, s'.oracle.lastCleanup, c);
    }
  }

  lemma DiscardOpen(s: System, id: nat, r: nat) returns (s': System)
    requires Anomalies.Reached(s) && InPhase(s, id, Open) && s.txns[id].readTs == r
    ensures Anomalies.Reached(s') && r !in s'.oracle.readers && s'.oracle.readMark.doneUntil == s.oracle.readMark.doneUntil
    ensures s'.txns == s.txns[id := s.txns[id].(phase := Closed)] && Surplus(s', r) == Surplus(s, r) + One(r !in s.oracle.readers)
  {
    var states: seq<System>, steps: seq<Step> :| IsRun(states, steps) && states[|steps|] == s;
    RunKeepsInv(states, steps, |steps|);
    s' := Anomalies.ReachedNext(s, Discard(id));
    StepCounts(s, Discard(id), r);
  }

  /** Two transactions at one read timestamp are enough: both finish, nothing is active, and the mark stays behind for good. */
  lemma TwoReadersStallTheMark() returns (s: System, r: nat)
    ensures Anomalies.Reached(s) && s.txns.Keys == {0, 1}
    ensures forall id | id in s.txns :: s.txns[id].phase.Closed? && s.txns[id].readTs == r
    ensures forall s' | ReachedFrom(s, s') :: s'.oracle.readMark.doneUntil <= r
  {
    r := At(0);
    var s0 := Anomalies.StartOfTerm();
    var s1 := Anomalies.OpenInTime(s0, 0, 0);
    var s2 := Anomalies.OpenInTime(s1, 0, 1);
    var s3 := DiscardOpen(s2, 0, r);
    s := DiscardOpen(s3, 1, r);
    NothingMissing(s2, r);
    Stalls(s, r);
  }

  lemma NothingMissing(s: System, r: nat)
    requires Anomalies.Reached(s)
    ensures Surplus(s, r) >= 0
  {
    var states: seq<System>, steps: seq<Step> :| IsRun(states, steps) && states[|steps|] == s;
    RunKeepsInv(states, steps, |steps|);
  }

  lemma Stalls(s: System, r: nat)
    requires Anomalies.Reached(s) && Stuck(s, r)
    ensures forall s' | ReachedFrom(s, s') :: s'.oracle.readMark.doneUntil <= r
  {
    var states: seq<System>, steps: seq<Step> :| IsRun(states, steps) && states[|steps|] == s;
    RunKeepsInv(states, steps, |steps|);
    forall s' | ReachedFrom(s, s') ensures s'.oracle.readMark.doneUntil <= r {
      LeakIsForGood(s, s', r);
    }
  }
}
