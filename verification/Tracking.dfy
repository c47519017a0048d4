/**
 What conflict detection and the log make of a transaction, said by the steps the transaction has made and
 not by the fields that the steps fill.
 */
module Tracking {
  import opened Bytes
  import opened Commands
  import opened Oracle
  import opened Transactions

  /** The step reads a key: on its own, or as one that a prefix deletion has found. */
  predicate StepReads(step: Step, id: nat, k: Key) {
    step == Step.Read(id, k) || (step.WritePrefix? && step.id == id && k in step.found)
  }

  predicate StepWrites(step: Step, id: nat, k: Key) {
    || (step.Write? && step.id == id && HasKey(step.sub) && step.sub.key == k)
    || (step.WritePrefix? && step.id == id && k in step.found)
  }

  function StepBuffers(step: Step, id: nat): seq<Sub> {
    if step.Write? && step.id == id then [step.sub]
    else if step.WritePrefix? && step.id == id then [DeleteByPrefix(step.prefix)]
    else []
  }

  /** The operations a transaction has buffered, in order. */
  function BufferedBy(steps: seq<Step>, id: nat): seq<Sub> {
    if steps == [] then [] else BufferedBy(steps[..|steps| - 1], id) + StepBuffers(steps[|steps| - 1], id)
  }

  ghost predicate ReadBy(steps: seq<Step>, id: nat, k: Key) {
    exists a :: 0 <= a < |steps| && StepReads(steps[a], id, k)
  }

  ghost predicate WrittenBy(steps: seq<Step>, id: nat, k: Key) {
    exists a :: 0 <= a < |steps| && StepWrites(steps[a], id, k)
  }

  /** A transaction's fields, empty before it has registered. */
  function Fields(s: System, id: nat): Txn {
    if id in s.txns then s.txns[id] else Txn(Closed, 0, [], {}, [])
  }

  /** The fields say exactly what the steps did. */
  ghost predicate Tracked(t: Txn, steps: seq<Step>, id: nat) {
    && (forall k :: k in t.readSet <==> ReadBy(steps, id, k))
    && (forall k :: k in t.keys <==> WrittenBy(steps, id, k))
    && t.subs == BufferedBy(steps, id)
  }

  lemma OneStepMore(steps: seq<Step>, step: Step, id: nat, k: Key)
    ensures ReadBy(steps + [step], id, k) <==> ReadBy(steps, id, k) || StepReads(step, id, k)
    ensures WrittenBy(steps + [step], id, k) <==> WrittenBy(steps, id, k) || StepWrites(step, id, k)
  {
    var more := steps + [step];
    assert more[|steps|] == step;
    if a :| 0 <= a < |steps| && StepReads(steps[a], id, k) {
      assert StepReads(more[a], id, k);
    }
    if a :| 0 <= a < |steps| && StepWrites(steps[a], id, k) {
      assert StepWrites(more[a], id, k);
    }
    if a :| 0 <= a < |more| && StepReads(more[a], id, k) {
      assert a < |steps| ==> StepReads(steps[a], id, k);
    }
    if a :| 0 <= a < |more| && StepWrites(more[a], id, k) {
      assert a < |steps| ==> StepWrites(steps[a], id, k);
    }
  }

  /** What one step does to the fields of one transaction. */
  lemma StepFields(s: System, step: Step, id: nat)
    requires Possible(s, step)
    ensures var t, t' := Fields(s, id), Fields(Do(s, step), id);
            && (forall k :: k in t'.readSet <==> k in t.readSet || StepReads(step, id, k))
            && (forall k :: k in t'.keys <==> k in t.keys || StepWrites(step, id, k))
            && t'.subs == t.subs + StepBuffers(step, id)
  {
    var t, t' := Fields(s, id), Fields(Do(s, step), id);
    assert t.subs + [] == t.subs;
  }

  lemma StepTracks(t: Txn, t': Txn, steps: seq<Step>, step: Step, id: nat)
    requires Tracked(t, steps, id)
    requires forall k :: k in t'.readSet <==> k in t.readSet || StepReads(step, id, k)
    requires forall k :: k in t'.keys <==> k in t.keys || StepWrites(step, id, k)
    requires t'.subs == t.subs + StepBuffers(step, id)
    ensures Tracked(t', steps + [step], id)
  {
    forall k ensures (k in t'.readSet <==> ReadBy(steps + [step], id, k)) && (k in t'.keys <==> WrittenBy(steps + [step], id, k)) {
      OneStepMore(steps, step, id, k);
    }
    assert (steps + [step])[..|steps|] == steps;
  }

  lemma {:induction false} RunTracks(states: seq<System>, steps: seq<Step>, n: nat, id: nat)
    requires IsLateRun(states, steps) && n <= |steps|
    ensures Tracked(Fields(states[n], id), steps[..n], id)
  {
    if n > 0 {
      RunTracks(states, steps, n - 1, id);
      assert IsLateStep(states[n - 1], steps[n - 1], states[n]);
      StepFields(states[n - 1], steps[n - 1], id);
      StepTracks(Fields(states[n - 1], id), Fields(states[n], id), steps[..n - 1], steps[n - 1], id);
      assert steps[..n] == steps[..n - 1] + [steps[n - 1]];
    }
  }

  /** A transaction reads at the timestamp that was current when it registered. */
  ghost predicate Registers(states: seq<System>, steps: seq<Step>, a: nat, id: nat, readTs: nat) {
    a < |steps| < |states| && steps[a] == TakeReadTs(id) && readTs == states[a].oracle.current.Compose()
  }

  lemma {:induction false} RegisteredAt(states: seq<System>, steps: seq<Step>, n: nat, id: nat)
    requires IsLateRun(states, steps) && n <= |steps| && id in states[n].txns
    ensures exists a: nat :: a < n && Registers(states, steps, a, id, states[n].txns[id].readTs)
  {
    assert n > 0;
    assert IsLateStep(states[n - 1], steps[n - 1], states[n]);
    if id in states[n - 1].txns {
      RegisteredAt(states, steps, n - 1, id);
    } else {
      assert Registers(states, steps, n - 1, id, states[n].txns[id].readTs);
    }
  }

  lemma {:induction false} HistoryStays(states: seq<System>, steps: seq<Step>, b: nat, n: nat)
    requires IsLateRun(states, steps) && b <= n <= |steps|
    ensures states[b].history <= states[n].history
    decreases n
  {
    if b < n {
      HistoryStays(states, steps, b, n - 1);
      assert IsLateStep(states[n - 1], steps[n - 1], states[n]);
    }
  }

  /** Step b makes commit i. */
  ghost predicate Commits(states: seq<System>, steps: seq<Step>, b: nat, i: nat) {
    b < |steps| < |states| && steps[b].Commit? && |states[b].history| == i
  }

  /**
   In every run of the code, a commit carries exactly what its transaction did before: the keys its steps have
   read or found, the keys they have written or found, the operations they have buffered in order, and the
   timestamp at which it registered.
   */
  lemma CommitCarries(states: seq<System>, steps: seq<Step>, b: nat, n: nat, i: nat)
    requires IsLateRun(states, steps) && b < n <= |steps| && Commits(states, steps, b, i)
    ensures i < |states[n].history|
    ensures var c, id := states[n].history[i], steps[b].id;
            && (forall k :: k in c.readSet <==> ReadBy(steps[..b], id, k))
            && (forall k :: k in c.keys <==> WrittenBy(steps[..b], id, k))
            && c.subs == BufferedBy(steps[..b], id)
            && exists a: nat :: a < b && Registers(states, steps, a, id, c.readTs)
  {
    var id := steps[b].id;
    assert IsLateStep(states[b], steps[b], states[b + 1]);
    RunTracks(states, steps, b, id);
    RegisteredAt(states, steps, b, id);
    HistoryStays(states, steps, b + 1, n);
    assert states[n].history[i] == states[b + 1].history[i];
  }

  lemma RunIsLate(states: seq<System>, steps: seq<Step>)
    requires IsRun(states, steps)
    ensures IsLateRun(states, steps)
  {
    forall i | 0 <= i < |steps| ensures IsLateStep(states[i], steps[i], states[i + 1]) {
    }
  }

  /**
   Serializability by what clients did, over every run: when a transaction has read or found a key and commits, no
   transaction that has written or found that key commits between its two timestamps.
   */
  lemma ReadsAreNotOverwritten(states: seq<System>, steps: seq<Step>, n: nat, a: nat, b: nat, i: nat, a': nat, b': nat, j: nat,
                               k: Key)
    requires IsRun(states, steps) && a < b < n <= |steps| && a' < b' < n
    requires Commits(states, steps, b, i) && StepReads(steps[a], steps[b].id, k)
    requires Commits(states, steps, b', j) && StepWrites(steps[a'], steps[b'].id, k)
    ensures i < |states[n].history| && j < |states[n].history|
    ensures var reader, writer := states[n].history[i], states[n].history[j]; !(reader.readTs < writer.ts < reader.ts)
  {
    RunIsLate(states, steps);
    RunsAreSerializable(states, steps, n);
    CommitCarries(states, steps, b, n, i);
    CommitCarries(states, steps, b', n, j);
    assert StepReads(steps[..b][a], steps[b].id, k) && StepWrites(steps[..b'][a'], steps[b'].id, k);
    assert k in states[n].history[i].readSet && k in states[n].history[j].keys;
  }
}
