/** From the oracle to the store: the commits of every run execute serially on the multi-version store. */
module Serializability {
  import opened Bytes
  import opened Commands
  import opened Tracking
  import opened Transactions
  import opened Mvcc
  import opened Replay
  import opened Serial

  /** The log entry proposed for a commit: the whole transaction, or its only operation on its own. */
  predicate ProposedFor(c: CommitRecord, cmd: Command) {
    && cmd.readTs == c.readTs && cmd.commitTs == c.ts
    && match cmd
       case Transaction(_, _, subs) => subs == c.subs
       case Single(_, _, sub) => c.subs == [sub]
  }

  /** Proposals reach the log in commit order. */
  ghost predicate LogOf(history: seq<CommitRecord>, log: seq<Command>) {
    |log| == |history| && forall i | 0 <= i < |log| :: ProposedFor(history[i], log[i])
  }

  predicate DeletesPrefix(cmd: Command) {
    cmd.Single? && cmd.sub.DeleteByPrefix?
  }

  /** Conflict detection has the keys alive under a deleted prefix at its read timestamp. */
  ghost predicate FoundCovered(m: Merge, s0: Store, history: seq<CommitRecord>, log: seq<Command>)
    requires |history| == |log|
  {
    forall i | 0 <= i < |log| && DeletesPrefix(log[i]) ::
      LiveKeys(ApplyLog(m, s0, log), log[i].readTs, log[i].sub.prefix) <= history[i].keys
  }

  lemma LiveInFullLog(m: Merge, s0: Store, base: nat, log: seq<Command>, i: nat, prefix: Key, k: Key)
    requires Ordered(log) && StartsFrom(s0, base, log) && i < |log|
    requires k in LiveKeys(ApplyLog(m, s0, log[..i]), log[i].readTs, prefix)
    ensures k in LiveKeys(ApplyLog(m, s0, log), log[i].readTs, prefix)
  {
    ReadBelowSuffix(m, s0, base, log, i, k);
    SnapshotReads(ApplyLog(m, s0, log), log[i].readTs, k);
  }

  lemma WritesAreCovered(m: Merge, s0: Store, base: nat, history: seq<CommitRecord>, log: seq<Command>, i: nat, k: Key)
    requires LogOf(history, log) && Ordered(log) && StartsFrom(s0, base, log) && FoundCovered(m, s0, history, log)
    requires i < |log| && Covers(history[i].keys, history[i].subs) && Writes(m, s0, log, i, k)
    ensures k in history[i].keys
  {
    var c, cmd := history[i], log[i];
    assert ProposedFor(c, cmd);
    if DeletesPrefix(cmd) {
      LiveInFullLog(m, s0, base, log, i, cmd.sub.prefix, k);
    } else {
      EffectWrites(m, ApplyLog(m, s0, log[..i]), cmd, k);
      if cmd.Single? {
        assert cmd.sub in c.subs;
      }
    }
  }

  /** A store that has nothing newer than the start of the term. */
  ghost predicate FoundAtStart(s0: Store, s: System) {
    forall kt | kt in s0 :: kt.1 <= s.since
  }

  lemma HistoryIsOrdered(s: System, log: seq<Command>, s0: Store)
    requires Inv(s) && LogOf(s.history, log) && FoundAtStart(s0, s)
    ensures Ordered(log) && StartsFrom(s0, s.since, log)
  {
    var h := s.history;
    forall i | 0 <= i < |log| ensures s.since <= log[i].readTs < log[i].commitTs {
      assert h[i] in h && ProposedFor(h[i], log[i]);
    }
    forall i, j | 0 <= i < j < |log| ensures log[i].commitTs < log[j].commitTs {
      assert ProposedFor(h[i], log[i]) && ProposedFor(h[j], log[j]);
    }
  }

  lemma ReadKeysAreQuiet(m: Merge, s0: Store, s: System, log: seq<Command>, i: nat, k: Key)
    requires Inv(s) && LogOf(s.history, log) && Ordered(log) && StartsFrom(s0, s.since, log)
    requires FoundCovered(m, s0, s.history, log) && i < |log| && k in s.history[i].readSet
    ensures QuietFor(m, s0, log, i, k)
  {
    var h := s.history;
    forall j | 0 <= j < |log| && log[i].readTs < log[j].commitTs < log[i].commitTs ensures !Writes(m, s0, log, j, k) {
      assert ProposedFor(h[i], log[i]) && ProposedFor(h[j], log[j]);
      assert h[j] in h;
      if Writes(m, s0, log, j, k) {
        WritesAreCovered(m, s0, s.since, h, log, j, k);
      }
    }
  }

  // ---------- By what clients did ----------

  /** A step of the transaction that makes commit i has read or found the key. */
  ghost predicate HasRead(states: seq<System>, steps: seq<Step>, n: nat, i: nat, k: Key) {
    exists b: nat :: b < n && Commits(states, steps, b, i) && ReadBy(steps[..b], steps[b].id, k)
  }

  ghost predicate FoundBy(steps: seq<Step>, id: nat, prefix: Key, k: Key) {
    exists a :: 0 <= a < |steps| && steps[a].WritePrefix? && steps[a].id == id && steps[a].prefix == prefix && k in steps[a].found
  }

  /** A step of the transaction that makes commit i has found the key under the prefix. */
  ghost predicate HasFound(states: seq<System>, steps: seq<Step>, n: nat, i: nat, prefix: Key, k: Key) {
    exists b: nat :: b < n && Commits(states, steps, b, i) && FoundBy(steps[..b], steps[b].id, prefix, k)
  }

  /** A client that deletes a prefix has found the keys alive under it at its read timestamp. */
  ghost predicate FoundAlive(m: Merge, s0: Store, states: seq<System>, steps: seq<Step>, n: nat, log: seq<Command>) {
    forall i, k | 0 <= i < |log| && DeletesPrefix(log[i])
                  && k in LiveKeys(ApplyLog(m, s0, log), log[i].readTs, log[i].sub.prefix) ::
      HasFound(states, steps, n, i, log[i].sub.prefix, k)
  }

  /** Entry i depends on no key it has not read or found, unless it deletes a prefix and nobody writes that key in between. */
  ghost predicate TracksObserved(m: Merge, s0: Store, states: seq<System>, steps: seq<Step>, n: nat, log: seq<Command>, i: nat)
    requires i < |log|
  {
    forall k | Observes(log[i], k) && !HasRead(states, steps, n, i, k) :: DeletesPrefix(log[i]) && QuietFor(m, s0, log, i, k)
  }

  lemma ReadIsTracked(states: seq<System>, steps: seq<Step>, n: nat, i: nat, k: Key)
    requires IsRun(states, steps) && n <= |steps| && HasRead(states, steps, n, i, k)
    ensures i < |states[n].history| && k in states[n].history[i].readSet
  {
    RunIsLate(states, steps);
    var b: nat :| b < n && Commits(states, steps, b, i) && ReadBy(steps[..b], steps[b].id, k);
    CommitCarries(states, steps, b, n, i);
  }

  lemma FoundIsTracked(states: seq<System>, steps: seq<Step>, n: nat, i: nat, prefix: Key, k: Key)
    requires IsRun(states, steps) && n <= |steps| && HasFound(states, steps, n, i, prefix, k)
    ensures HasRead(states, steps, n, i, k)
    ensures i < |states[n].history| && k in states[n].history[i].keys
  {
    RunIsLate(states, steps);
    var b: nat :| b < n && Commits(states, steps, b, i) && FoundBy(steps[..b], steps[b].id, prefix, k);
    var before, id := steps[..b], steps[b].id;
    var a :| 0 <= a < |before| && before[a].WritePrefix? && before[a].id == id && before[a].prefix == prefix && k in before[a].found;
    assert StepReads(before[a], id, k) && StepWrites(before[a], id, k);
    CommitCarries(states, steps, b, n, i);
  }

  lemma FoundAliveIsCovered(m: Merge, s0: Store, states: seq<System>, steps: seq<Step>, n: nat, log: seq<Command>)
    requires IsRun(states, steps) && n <= |steps| && LogOf(states[n].history, log)
    requires FoundAlive(m, s0, states, steps, n, log)
    ensures FoundCovered(m, s0, states[n].history, log)
  {
    forall i, k | 0 <= i < |log| && DeletesPrefix(log[i])
                  && k in LiveKeys(ApplyLog(m, s0, log), log[i].readTs, log[i].sub.prefix)
      ensures k in states[n].history[i].keys
    {
      FoundIsTracked(states, steps, n, i, log[i].sub.prefix, k);
    }
  }

  lemma ReadIsQuiet(m: Merge, s0: Store, states: seq<System>, steps: seq<Step>, n: nat, log: seq<Command>, i: nat, k: Key)
    requires IsRun(states, steps) && n <= |steps| && FoundAtStart(s0, states[n]) && LogOf(states[n].history, log)
    requires FoundAlive(m, s0, states, steps, n, log) && HasRead(states, steps, n, i, k)
    ensures i < |log| && QuietFor(m, s0, log, i, k)
  {
    RunKeepsInv(states, steps, n);
    HistoryIsOrdered(states[n], log, s0);
    FoundAliveIsCovered(m, s0, states, steps, n, log);
    ReadIsTracked(states, steps, n, i, k);
    ReadKeysAreQuiet(m, s0, states[n], log, i, k);
  }

  /**
   Over every run: what a committed transaction has read or found, at its read timestamp, is what the
   serial execution of the commits holds when its turn comes; and when the operations' own reads are
   among these too, the store's final state is the one of that serial execution. A prefix deletion
   cannot read the keys it does not find, so nobody may write those in between.
   */
  lemma RunsExecuteSerially(m: Merge, s0: Store, states: seq<System>, steps: seq<Step>, n: nat, log: seq<Command>)
    requires IsRun(states, steps) && n <= |steps| && FoundAtStart(s0, states[n]) && LogOf(states[n].history, log)
    requires FoundAlive(m, s0, states, steps, n, log)
    requires forall i | 0 <= i < |log| :: TracksObserved(m, s0, states, steps, n, log, i)
    ensures var start := Snapshot(s0, states[n].since);
            && Snapshot(ApplyLog(m, s0, log), LastCommit(states[n].since, log)) == RunLog(m, start, log)
            && forall i, k | 0 <= i < |log| && HasRead(states, steps, n, i, k) ::
                 ReadAt(ApplyLog(m, s0, log), k, log[i].readTs) == Lookup(RunLog(m, start, log[..i]), k)
  {
    var since := states[n].since;
    RunKeepsInv(states, steps, n);
    HistoryIsOrdered(states[n], log, s0);
    forall i, k | 0 <= i < |log| && Observes(log[i], k) ensures QuietFor(m, s0, log, i, k) {
      assert TracksObserved(m, s0, states, steps, n, log, i);
      if HasRead(states, steps, n, i, k) {
        ReadIsQuiet(m, s0, states, steps, n, log, i, k);
      }
    }
    MvccIsSerial(m, s0, since, log);
    forall i, k | 0 <= i < |log| && HasRead(states, steps, n, i, k)
      ensures ReadAt(ApplyLog(m, s0, log), k, log[i].readTs) == Lookup(RunLog(m, Snapshot(s0, since), log[..i]), k)
    {
      ReadIsQuiet(m, s0, states, steps, n, log, i, k);
      ClientReadsAreSerial(m, s0, since, log, i, k);
    }
  }

  /**
   Snapshot values alone need no tracked operations: over every run, what a transaction has read or found has,
   at its read timestamp, the value the store shows just before the commit timestamp.
   */
  lemma TrackedReadsAreCurrent(m: Merge, s0: Store, states: seq<System>, steps: seq<Step>, n: nat, log: seq<Command>,
                               i: nat, k: Key)
    requires IsRun(states, steps) && n <= |steps| && FoundAtStart(s0, states[n]) && LogOf(states[n].history, log)
    requires FoundAlive(m, s0, states, steps, n, log) && i < |log| && HasRead(states, steps, n, i, k)
    ensures log[i].readTs < log[i].commitTs
         && ReadAt(ApplyLog(m, s0, log[..i]), k, log[i].readTs)
         == ReadAt(ApplyLog(m, s0, log[..i]), k, log[i].commitTs - 1)
  {
    RunKeepsInv(states, steps, n);
    HistoryIsOrdered(states[n], log, s0);
    ReadIsQuiet(m, s0, states, steps, n, log, i, k);
    QuietReads(m, s0, states[n].since, log, i, k);
  }

  /** The commits have reached the log in some order: entry i belongs to commit order[i], each commit to one entry. */
  ghost predicate ShuffledLogOf(history: seq<CommitRecord>, log: seq<Command>, order: seq<nat>) {
    && |order| == |log|
    && (forall i | 0 <= i < |log| :: order[i] < |history| && ProposedFor(history[order[i]], log[i]))
    && (forall i, j | 0 <= i < j < |log| :: order[i] != order[j])
  }

  /** No entry has read at or above the commit timestamp of an entry behind it in the log. */
  ghost predicate ReadsBelowLater(log: seq<Command>) {
    forall i, j | 0 <= i < j < |log| :: log[i].readTs < log[j].commitTs
  }

  lemma ShuffledIsStamped(s: System, log: seq<Command>, order: seq<nat>, s0: Store)
    requires Inv(s) && ShuffledLogOf(s.history, log, order) && ReadsBelowLater(log) && FoundAtStart(s0, s)
    ensures Replay.Stamped(log) && Untouched(s0, log)
  {
    var h := s.history;
    forall i | 0 <= i < |log| ensures s.since <= log[i].readTs < log[i].commitTs {
      assert h[order[i]] in h;
    }
    forall i, j | 0 <= i < j < |log| ensures log[i].commitTs != log[j].commitTs {
      var a, b := order[i], order[j];
      assert if a < b then h[a].ts < h[b].ts else h[b].ts < h[a].ts;
    }
  }

  /**
   The log of every run can be applied again from any earlier index, whole or in part, in whatever order the
   commits have reached it, as long as no entry has read at or above the commit of a later one.
   */
  lemma ShuffledRunsCanBeReplayed(m: Merge, s0: Store, states: seq<System>, steps: seq<Step>, n: nat, log: seq<Command>,
                                  order: seq<nat>, i: nat, j: nat)
    requires IsRun(states, steps) && n <= |steps| && FoundAtStart(s0, states[n])
    requires ShuffledLogOf(states[n].history, log, order) && ReadsBelowLater(log) && i <= j <= |log|
    ensures ApplyLog(m, ApplyLog(m, s0, log[..j]), log[i..]) == ApplyLog(m, s0, log)
  {
    RunKeepsInv(states, steps, n);
    ShuffledIsStamped(states[n], log, order, s0);
    RestartReplay(m, s0, log, i, j);
  }

  /** In commit order that is always so. */
  lemma RunsCanBeReplayed(m: Merge, s0: Store, states: seq<System>, steps: seq<Step>, n: nat, log: seq<Command>,
                          i: nat, j: nat)
    requires IsRun(states, steps) && n <= |steps| && FoundAtStart(s0, states[n]) && LogOf(states[n].history, log)
    requires i <= j <= |log|
    ensures ApplyLog(m, ApplyLog(m, s0, log[..j]), log[i..]) == ApplyLog(m, s0, log)
  {
    RunKeepsInv(states, steps, n);
    HistoryIsOrdered(states[n], log, s0);
    var order := seq(|log|, k requires 0 <= k < |log| => k);
    forall a, b | 0 <= a < b < |log| ensures log[a].readTs < log[b].commitTs {
      assert log[a].commitTs < log[b].commitTs;
    }
    ShuffledRunsCanBeReplayed(m, s0, states, steps, n, log, order, i, j);
  }
}
