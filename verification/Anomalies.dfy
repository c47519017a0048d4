/**
 What conflict detection lets through: runs whose commits are all granted although the store does not
 end up as a serial execution would leave it. Neither transaction tracks what its operation depends on.
 */
module Anomalies {
  import opened Bytes
  import opened Commands
  import opened Hlc
  import opened Mvcc
  import opened Numbers
  import opened Oracle
  import opened Replay
  import opened Serial
  import opened Serializability
  import opened Transactions

  ghost predicate Reached(s: System) {
    exists states: seq<System>, steps: seq<Step> :: IsRun(states, steps) && states[|steps|] == s
  }

  lemma ReachedNext(s: System, step: Step) returns (s': System)
    requires Reached(s) && Enabled(s, step)
    ensures s' == Do(s, step) && Reached(s')
  {
    s' := Do(s, step);
    var states: seq<System>, steps: seq<Step> :| IsRun(states, steps) && states[|steps|] == s;
    RunGrows(states, steps, step);
    assert (states + [s'])[|steps + [step]|] == s';
  }

  lemma RunGrows(states: seq<System>, steps: seq<Step>, step: Step)
    requires IsRun(states, steps) && Enabled(states[|steps|], step)
    ensures IsRun(states + [Do(states[|steps|], step)], steps + [step])
  {
  }

  // ---------- Two transactions at one read timestamp ----------

  predicate Bufferable(sub: Sub) {
    sub.DeleteByPrefix? || (HasKey(sub) && sub.key != [])
  }

  /** The keys a transaction tracks for one operation; a prefix deletion that finds nothing tracks nothing. */
  function KeysFor(sub: Sub): set<Key> {
    if HasKey(sub) then {sub.key} else {}
  }

  function Buffering(id: nat, sub: Sub): Step {
    if sub.DeleteByPrefix? then WritePrefix(id, sub.prefix, []) else Step.Write(id, sub)
  }

  lemma BufferOne(s: System, id: nat, r: nat, sub: Sub) returns (s': System)
    requires Reached(s) && id in s.txns && s.txns[id] == Txn(Open, r, [], {}, []) && Bufferable(sub)
    ensures Reached(s') && s' == WithTxn(s, id, Txn(Open, r, [], KeysFor(sub), [sub]))
  {
    s' := ReachedNext(s, Buffering(id, sub));
    assert {} + KeysFor(sub) == KeysFor(sub) && [] + [sub] == [sub] && KeySet([]) == {};
    assert s'.txns[id] == Txn(Open, r, [], KeysFor(sub), [sub]);
  }

  lemma RegisterInTime(s: System, logical: nat, id: nat) returns (s': System)
    requires Reached(s) && AtMillisecond1000(s, logical) && id !in s.txns
    ensures Reached(s') && AtMillisecond1000(s', logical) && s'.history == s.history
    ensures s'.oracle.committed == s.oracle.committed && s'.oracle.readMark == s.oracle.readMark
    ensures s'.txns == s.txns[id := Txn(Registered, At(logical), [], {}, [])]
  {
    ComposeValue(TimeStamp(1000, logical));
    s' := ReachedNext(s, TakeReadTs(id));
  }

  lemma OpenInTime(s: System, logical: nat, id: nat) returns (s': System)
    requires Reached(s) && AtMillisecond1000(s, logical) && id !in s.txns
    requires s.oracle.readMark.doneUntil <= At(logical)
    ensures Reached(s') && AtMillisecond1000(s', logical) && s'.history == s.history
    ensures s'.oracle.committed == s.oracle.committed && s'.oracle.readMark.doneUntil == s.oracle.readMark.doneUntil
    ensures s'.txns == s.txns[id := Txn(Open, At(logical), [], {}, [])]
  {
    var s1 := RegisterInTime(s, logical, id);
    var s2 := ReachedNext(s1, BeginRead(id));
    s' := ReachedNext(s2, WaitSucceeds(id));
  }

  /** A transaction opens at the current timestamp, which the mark has not passed, and buffers one operation. */
  lemma OpenWith(s: System, logical: nat, id: nat, sub: Sub) returns (s': System)
    requires Reached(s) && AtMillisecond1000(s, logical) && id !in s.txns && Bufferable(sub)
    requires s.oracle.readMark.doneUntil <= At(logical)
    ensures Reached(s') && AtMillisecond1000(s', logical) && s'.history == s.history
    ensures s'.oracle.committed == s.oracle.committed && s'.oracle.readMark.doneUntil == s.oracle.readMark.doneUntil
    ensures s'.txns == s.txns[id := Txn(Open, At(logical), [], KeysFor(sub), [sub])]
  {
    var s1 := OpenInTime(s, logical, id);
    s' := BufferOne(s1, id, At(logical), sub);
  }

  lemma CommitUnopposed(s: System, logical: nat, id: nat) returns (s': System)
    requires Reached(s) && AtMillisecond1000(s, logical) && logical < 8
    requires InPhase(s, id, Open) && |s.txns[id].subs| == 1
    requires !HasConflict(s.oracle.committed, s.txns[id].readTs, s.txns[id].readSet)
    ensures var t := s.txns[id];
            && Reached(s') && AtMillisecond1000(s', logical + 1)
            && s'.history == s.history + [CommitRecord(At(logical + 1), t.readTs, t.readSet, t.keys, t.subs)]
            && s'.txns == s.txns[id := t.(phase := Stamped)]
            && s'.oracle.readMark.doneUntil == s.oracle.readMark.doneUntil
  {
    GrantAtMillisecond1000(s.oracle, logical, s.txns[id], s.oracle.readMark.doneUntil);
    s' := ReachedNext(s, Step.Commit(id, s.oracle.readMark.doneUntil, [1000]));
  }

  function BlindCommit(ts: nat, readTs: nat, sub: Sub): CommitRecord {
    CommitRecord(ts, readTs, [], KeysFor(sub), [sub])
  }

  lemma StartOfTerm() returns (s: System)
    ensures Reached(s) && AtMillisecond1000(s, 0) && s.txns == map[] && s.history == []
    ensures s.oracle.readMark.doneUntil == At(0)
  {
    ComposeValue(TimeStamp(1000, 0));
    s := System(Oracle(TimeStamp(1000, 0), 5000, {}, Mark(map[], {}, At(0)), 0, []), 1000, map[], At(0), [], []);
    var none: seq<Step> := [];
    assert IsRun([s], none) && [s][|none|] == s;
  }

  /** Two transactions that read nothing open at the same timestamp, buffer one operation each and both commit. */
  lemma TwoCommitBlindly(a: Sub, b: Sub) returns (s: System)
    requires Bufferable(a) && Bufferable(b)
    ensures Reached(s) && s.history == [BlindCommit(At(1), At(0), a), BlindCommit(At(2), At(0), b)]
  {
    var s0 := StartOfTerm();
    var s1 := OpenWith(s0, 0, 0, a);
    var s2 := OpenWith(s1, 0, 1, b);
    assert !HasConflict(s2.oracle.committed, At(0), []);
    var s3 := CommitUnopposed(s2, 0, 0);
    assert !HasConflict(s3.oracle.committed, At(0), []);
    s := CommitUnopposed(s3, 1, 1);
  }

  /** Both are proposed on their own. */
  function BlindLog(t: nat, a: Sub, ca: nat, b: Sub, cb: nat): seq<Command> {
    [Single(t, ca, a), Single(t, cb, b)]
  }

  lemma BlindApply(m: Merge, t: nat, a: Sub, ca: nat, b: Sub, cb: nat)
    ensures var log := BlindLog(t, a, ca, b, cb);
            && ApplyLog(m, map[], log) == Apply(m, Apply(m, map[], log[0]), log[1])
            && RunLog(m, map[], log) == Run(m, Run(m, map[], log[0]), log[1])
  {
    var log := BlindLog(t, a, ca, b, cb);
    assert log[..1] == [log[0]] && [log[0]][..0] == [];
    assert ApplyLog(m, map[], [log[0]]) == Apply(m, map[], log[0]);
    assert RunLog(m, map[], [log[0]]) == Run(m, map[], log[0]);
  }

  lemma BlindLogOf(a: Sub, b: Sub, s: System)
    requires s.history == [BlindCommit(At(1), At(0), a), BlindCommit(At(2), At(0), b)]
    ensures LogOf(s.history, BlindLog(At(0), a, At(1), b, At(2)))
  {
  }

  // ---------- A lost increment ----------

  /** Nothing was written before a timestamp above the one read at. */
  lemma NothingBelow(s: Store, k: Key, t: nat)
    requires forall kt | kt in s :: kt.1 > t
    ensures ReadAt(s, k, t).None?
  {
    ReadAtUnknownKey(map[], k, t);
    ReadAtAgrees(s, map[], k, t);
  }

  lemma IncrementsOverwrite(m: Merge, k: Key, t: nat, ca: nat, cb: nat, a: nat, b: nat)
    requires k != [] && t < ca < cb && a < TWO_64 && b < TWO_64
    ensures var log := BlindLog(t, IncrBy(k, a), ca, IncrBy(k, b), cb);
            && ReadAt(ApplyLog(m, map[], log), k, cb) == Some(CounterBytes(b))
            && Lookup(RunLog(m, map[], log), k) == Some(CounterBytes((a + b) % TWO_64))
  {
    var log := BlindLog(t, IncrBy(k, a), ca, IncrBy(k, b), cb);
    BlindApply(m, t, IncrBy(k, a), ca, IncrBy(k, b), cb);
    NothingBelow(map[], k, t);
    SingleWrites(m, map[], t, ca, IncrBy(k, a));
    var s1 := Apply(m, map[], log[0]);
    NothingBelow(s1, k, t);
    SingleWrites(m, s1, t, cb, IncrBy(k, b));
    CounterArithmetic(m, k, a, b);
  }

  /**
   Increments track no reads, so two clients that increment one counter at the same read timestamp both
   commit; the store then holds only the later increment, also when the two have created the counter.
   */
  lemma LostIncrement(m: Merge, k: Key, a: nat, b: nat) returns (s: System, log: seq<Command>)
    requires k != [] && a < TWO_64 && b < TWO_64
    ensures Reached(s) && LogOf(s.history, log) && |log| == 2
    ensures ReadAt(ApplyLog(m, map[], log), k, LastCommit(s.since, log)) == Some(CounterBytes(b))
    ensures Lookup(RunLog(m, map[], log), k) == Some(CounterBytes((a + b) % TWO_64))
  {
    s := TwoCommitBlindly(IncrBy(k, a), IncrBy(k, b));
    log := BlindLog(At(0), IncrBy(k, a), At(1), IncrBy(k, b), At(2));
    BlindLogOf(IncrBy(k, a), IncrBy(k, b), s);
    IncrementsOverwrite(m, k, At(0), At(1), At(2), a, b);
  }

  // ---------- A phantom ----------

  lemma NothingToDelete(m: Merge, s: Store, prefix: Key, t: nat, c: nat)
    requires forall kt | kt in s :: kt.1 > t
    ensures LiveKeys(s, t, prefix) == {}
    ensures Apply(m, s, Single(t, c, DeleteByPrefix(prefix))) == s
  {
    forall k ensures k !in LiveKeys(s, t, prefix) {
      NothingBelow(s, k, t);
    }
    PrefixDeletionWrites(m, s, prefix, t, c, {});
  }

  lemma SetThenDeletedSerially(m: Merge, prefix: Key, k: Key, v: Value, t: nat, ca: nat, cb: nat)
    requires k != [] && HasPrefix(k, prefix)
    ensures Run(m, map[], Single(t, ca, Set(k, v))) == map[k := v]
    ensures k !in Run(m, map[k := v], Single(t, cb, DeleteByPrefix(prefix)))
  {
  }

  lemma PrefixDeletionMisses(m: Merge, prefix: Key, k: Key, v: Value, t: nat, ca: nat, cb: nat)
    requires k != [] && t < ca < cb
    ensures var log := BlindLog(t, Set(k, v), ca, DeleteByPrefix(prefix), cb);
            LiveKeys(ApplyLog(m, map[], log), t, prefix) == {} && ReadAt(ApplyLog(m, map[], log), k, cb) == Some(v)
  {
    BlindApply(m, t, Set(k, v), ca, DeleteByPrefix(prefix), cb);
    SetWrites(m, map[], t, ca, k, v);
    var s1: Store := map[][(k, ca) := Some(v)];
    NothingToDelete(m, s1, prefix, t, cb);
    ReadAtStable(s1, k, ca, cb);
  }

  lemma PrefixDeletionSerially(m: Merge, prefix: Key, k: Key, v: Value, t: nat, ca: nat, cb: nat)
    requires k != [] && HasPrefix(k, prefix)
    ensures Lookup(RunLog(m, map[], BlindLog(t, Set(k, v), ca, DeleteByPrefix(prefix), cb)), k) == None
  {
    BlindApply(m, t, Set(k, v), ca, DeleteByPrefix(prefix), cb);
    SetThenDeletedSerially(m, prefix, k, v, t, ca, cb);
  }

  lemma NothingFound(m: Merge, states: seq<System>, steps: seq<Step>, n: nat, prefix: Key, k: Key, v: Value, t: nat, ca: nat, cb: nat)
    requires LiveKeys(ApplyLog(m, map[], BlindLog(t, Set(k, v), ca, DeleteByPrefix(prefix), cb)), t, prefix) == {}
    ensures FoundAlive(m, map[], states, steps, n, BlindLog(t, Set(k, v), ca, DeleteByPrefix(prefix), cb))
  {
  }

  /**
   A prefix deletion tracks the keys it finds and no others, so a key written under the prefix in between
   survives it, although a serial execution in commit order would have deleted that key.
   */
  lemma PhantomSurvives(m: Merge, prefix: Key, k: Key, v: Value)
    returns (states: seq<System>, steps: seq<Step>, s: System, log: seq<Command>)
    requires k != [] && HasPrefix(k, prefix)
    ensures IsRun(states, steps) && s == states[|steps|] && LogOf(s.history, log) && |log| == 2
    ensures FoundAlive(m, map[], states, steps, |steps|, log)
    ensures ReadAt(ApplyLog(m, map[], log), k, LastCommit(s.since, log)) == Some(v)
    ensures Lookup(RunLog(m, map[], log), k) == None
  {
    s := TwoCommitBlindly(Set(k, v), DeleteByPrefix(prefix));
    log := BlindLog(At(0), Set(k, v), At(1), DeleteByPrefix(prefix), At(2));
    BlindLogOf(Set(k, v), DeleteByPrefix(prefix), s);
    PrefixDeletionMisses(m, prefix, k, v, At(0), At(1), At(2));
    PrefixDeletionSerially(m, prefix, k, v, At(0), At(1), At(2));
    states, steps :| IsRun(states, steps) && states[|steps|] == s;
    NothingFound(m, states, steps, |steps|, prefix, k, v, At(0), At(1), At(2));
  }

  // ---------- A read before the commit is applied ----------

  lemma WrittenVersion(m: Merge, s0: Store, base: nat, log: seq<Command>, i: nat, j: nat, k: Key)
    requires Ordered(log) && StartsFrom(s0, base, log) && j < i <= |log| && Writes(m, s0, log, j, k)
    ensures (k, log[j].commitTs) in ApplyLog(m, s0, log[..i])
  {
    var upTo := log[..i];
    assert upTo[..j + 1][..j] == log[..j] && upTo[..j + 1][j] == log[j];
    assert (k, log[j].commitTs) in ApplyLog(m, s0, upTo[..j + 1]);
    OrderedPrefix(log, i);
    StampedIfOrdered(upTo);
    UntouchedByOld(s0, base, upTo);
    PrefixWithinFull(m, s0, upTo, j + 1);
  }

  /** A replica that has applied part of a log holds every version at or below a timestamp. */
  ghost predicate CompleteUpTo(m: Merge, s0: Store, log: seq<Command>, applied: nat, t: nat)
    requires applied <= |log|
  {
    forall k: Key, u: nat | u <= t :: (k, u) in ApplyLog(m, s0, log) ==> (k, u) in ApplyLog(m, s0, log[..applied])
  }

  lemma AppliedVersion(m: Merge, s0: Store, base: nat, log: seq<Command>, applied: nat, t: nat, k: Key, u: nat)
    requires Ordered(log) && StartsFrom(s0, base, log) && applied <= |log| && u <= t && (k, u) in ApplyLog(m, s0, log)
    requires forall j, k | applied <= j < |log| && log[j].commitTs <= t :: !Writes(m, s0, log, j, k)
    ensures (k, u) in ApplyLog(m, s0, log[..applied])
  {
    if (k, u) in s0 {
      OrderedPrefix(log, applied);
      UntouchedByOld(s0, base, log[..applied]);
      LogOnlyAdds(m, s0, log[..applied]);
    } else {
      VersionHasWriter(m, s0, log, k, u);
      var j :| 0 <= j < |log| && log[j].commitTs == u && Writes(m, s0, log, j, k);
      WrittenVersion(m, s0, base, log, applied, j, k);
    }
  }

  /**
   A read timestamp shows everything committed at or below it exactly when no entry that is still to be applied has
   written something there. The oracle does not wait for that: a commit is done on its mark as soon as it is stamped.
   */
  lemma CompleteExactly(m: Merge, s0: Store, base: nat, log: seq<Command>, applied: nat, t: nat)
    requires Ordered(log) && StartsFrom(s0, base, log) && applied <= |log|
    ensures CompleteUpTo(m, s0, log, applied, t)
       <==> forall j, k | applied <= j < |log| && log[j].commitTs <= t :: !Writes(m, s0, log, j, k)
  {
    if forall j, k | applied <= j < |log| && log[j].commitTs <= t :: !Writes(m, s0, log, j, k) {
      forall k: Key, u: nat | u <= t && (k, u) in ApplyLog(m, s0, log)
        ensures (k, u) in ApplyLog(m, s0, log[..applied])
      {
        AppliedVersion(m, s0, base, log, applied, t, k, u);
      }
    }
    forall j, k | applied <= j < |log| && log[j].commitTs <= t && Writes(m, s0, log, j, k)
      ensures !CompleteUpTo(m, s0, log, applied, t)
    {
      WrittenVersion(m, s0, base, log, |log|, j, k);
      assert log[..|log|] == log;
      NotYetApplied(m, s0, base, log, applied, j, k);
    }
  }

  lemma NotYetApplied(m: Merge, s0: Store, base: nat, log: seq<Command>, applied: nat, j: nat, k: Key)
    requires Ordered(log) && StartsFrom(s0, base, log) && applied <= j < |log|
    ensures (k, log[j].commitTs) !in ApplyLog(m, s0, log[..applied])
  {
    if (k, log[j].commitTs) in ApplyLog(m, s0, log[..applied]) {
      assert base <= log[j].readTs;
      VersionHasWriter(m, s0, log[..applied], k, log[j].commitTs);
      assert false;
    }
  }

  /** A complete replica shows the snapshot of the whole log. */
  lemma CompleteReads(m: Merge, s0: Store, base: nat, log: seq<Command>, applied: nat, t: nat, k: Key)
    requires Ordered(log) && StartsFrom(s0, base, log) && applied <= |log| && CompleteUpTo(m, s0, log, applied, t)
    ensures ReadAt(ApplyLog(m, s0, log[..applied]), k, t) == ReadAt(ApplyLog(m, s0, log), k, t)
  {
    StampedIfOrdered(log);
    UntouchedByOld(s0, base, log);
    PrefixWithinFull(m, s0, log, applied);
    ReadAtAgrees(ApplyLog(m, s0, log[..applied]), ApplyLog(m, s0, log), k, t);
  }

  /** Nothing remembered conflicts with a transaction that reads at the current timestamp. */
  lemma NoConflictAtCurrent(s: System, readSet: seq<Key>)
    requires Reached(s)
    ensures !HasConflict(s.oracle.committed, s.oracle.current.Compose(), readSet)
  {
    var states: seq<System>, steps: seq<Step> :| IsRun(states, steps) && states[|steps|] == s;
    RunKeepsInv(states, steps, |steps|);
    forall i | 0 <= i < |s.oracle.committed| ensures s.oracle.committed[i].ts <= s.oracle.current.Compose() {
      LaterKeepsExactly(s.before + Footprints(s.history), s.oracle.lastCleanup, s.oracle.committed[i]);
    }
  }

  /** A transaction opens at the current timestamp, which is that of the last commit, reads a key and writes it. */
  lemma ReadThenCommit(s: System, logical: nat, id: nat, k: Key, w: Value) returns (s': System)
    requires Reached(s) && AtMillisecond1000(s, logical) && logical < 8 && id !in s.txns && k != []
    requires s.oracle.readMark.doneUntil <= At(logical)
    ensures Reached(s') && s'.history == s.history + [CommitRecord(At(logical + 1), At(logical), [k], {k}, [Set(k, w)])]
  {
    var s1 := OpenWith(s, logical, id, Set(k, w));
    var s2 := ReachedNext(s1, Step.Read(id, k));
    assert [] + [k] == [k];
    ComposeValue(TimeStamp(1000, logical));
    NoConflictAtCurrent(s2, [k]);
    s' := CommitUnopposed(s2, logical, id);
  }

  /** A transaction that reads nothing opens at the current timestamp, buffers one operation and commits. */
  lemma CommitNext(s: System, logical: nat, id: nat, sub: Sub) returns (s': System)
    requires Reached(s) && AtMillisecond1000(s, logical) && logical < 8 && id !in s.txns && Bufferable(sub)
    requires s.oracle.readMark.doneUntil <= At(logical)
    ensures Reached(s') && AtMillisecond1000(s', logical + 1) && s'.txns.Keys == s.txns.Keys + {id}
    ensures s'.oracle.readMark.doneUntil == s.oracle.readMark.doneUntil
    ensures s'.history == s.history + [BlindCommit(At(logical + 1), At(logical), sub)]
  {
    var s1 := OpenWith(s, logical, id, sub);
    assert !HasConflict(s1.oracle.committed, At(logical), []);
    s' := CommitUnopposed(s1, logical, id);
  }

  /** Two transactions one after the other, the second at the timestamp of the first one's commit. */
  lemma TwoCommitInTurn(a: Sub, b: Sub) returns (s: System)
    requires Bufferable(a) && Bufferable(b)
    ensures Reached(s) && AtMillisecond1000(s, 2) && 2 !in s.txns && s.oracle.readMark.doneUntil == At(0)
    ensures s.history == [BlindCommit(At(1), At(0), a), BlindCommit(At(2), At(1), b)]
  {
    var s0 := StartOfTerm();
    var s1 := CommitNext(s0, 0, 0, a);
    s := CommitNext(s1, 1, 1, b);
  }

  function ThreeSets(k: Key, u: Value, v: Value, w: Value, t: nat, ca: nat, cb: nat, cc: nat): seq<Command> {
    [Single(t, ca, Set(k, u)), Single(ca, cb, Set(k, v)), Single(cb, cc, Set(k, w))]
  }

  lemma UnseenWrite(m: Merge, k: Key, u: Value, v: Value, w: Value, t: nat, ca: nat, cb: nat, cc: nat)
    requires k != [] && t < ca < cb < cc
    ensures var log := ThreeSets(k, u, v, w, t, ca, cb, cc);
            && ReadAt(ApplyLog(m, map[], log), k, cb) == Some(v)
            && ReadAt(ApplyLog(m, map[], log[..1]), k, cb) == Some(u)
  {
    var log := ThreeSets(k, u, v, w, t, ca, cb, cc);
    assert log[..2][..1] == log[..1] == [log[0]] && log[..2][1] == log[1] && [log[0]][..0] == [];
    SetWrites(m, map[], t, ca, k, u);
    var s1 := Apply(m, map[], log[0]);
    assert ApplyLog(m, map[], log[..1]) == s1;
    ReadAtStable(s1, k, ca, cb);
    SetWrites(m, s1, ca, cb, k, v);
    var s2 := Apply(m, s1, log[1]);
    assert ApplyLog(m, map[], log[..2]) == s2;
    SetWrites(m, s2, cb, cc, k, w);
  }

  function ThreeRecords(k: Key, u: Value, v: Value, w: Value, t: nat, ca: nat, cb: nat, cc: nat): seq<CommitRecord> {
    [BlindCommit(ca, t, Set(k, u)), BlindCommit(cb, ca, Set(k, v)), CommitRecord(cc, cb, [k], {k}, [Set(k, w)])]
  }

  lemma ThreeSetsLogOf(k: Key, u: Value, v: Value, w: Value, t: nat, ca: nat, cb: nat, cc: nat)
    ensures LogOf(ThreeRecords(k, u, v, w, t, ca, cb, cc), ThreeSets(k, u, v, w, t, ca, cb, cc))
  {
  }

  lemma ThreeCommit(k: Key, u: Value, v: Value, w: Value) returns (s: System)
    requires k != []
    ensures Reached(s) && s.history == ThreeRecords(k, u, v, w, At(0), At(1), At(2), At(3))
  {
    var s2 := TwoCommitInTurn(Set(k, u), Set(k, v));
    s := ReadThenCommit(s2, 2, 2, k, w);
  }

  /**
   So a transaction can read at the very timestamp of a commit that no replica has applied yet, find the value from
   before that commit, and be granted a commit itself: its read timestamp is not below the commit it missed.
   */
  lemma UnappliedCommitMissed(m: Merge, k: Key, u: Value, v: Value, w: Value) returns (s: System, log: seq<Command>)
    requires k != []
    ensures Reached(s) && LogOf(s.history, log) && |log| == 3 && k in s.history[2].readSet
    ensures ReadAt(ApplyLog(m, map[], log[..1]), k, log[2].readTs) == Some(u)
    ensures ReadAt(ApplyLog(m, map[], log), k, log[2].readTs) == Some(v)
  {
    s := ThreeCommit(k, u, v, w);
    ThreeSetsLogOf(k, u, v, w, At(0), At(1), At(2), At(3));
    log := ThreeSets(k, u, v, w, At(0), At(1), At(2), At(3));
    UnseenWrite(m, k, u, v, w, At(0), At(1), At(2), At(3));
  }

  // ---------- A log in another order ----------

  function SwappedLog(k: Key, v: Value, t: nat, ca: nat, cb: nat): seq<Command> {
    [Single(ca, cb, DeleteByPrefix(k)), Single(t, ca, Set(k, v))]
  }

  lemma SwappedLogOf(k: Key, v: Value, t: nat, ca: nat, cb: nat)
    ensures ShuffledLogOf([BlindCommit(ca, t, Set(k, v)), BlindCommit(cb, ca, DeleteByPrefix(k))],
                          SwappedLog(k, v, t, ca, cb), [1, 0])
    ensures !ReadsBelowLater(SwappedLog(k, v, t, ca, cb))
  {
    var log := SwappedLog(k, v, t, ca, cb);
    assert !(log[0].readTs < log[1].commitTs);
  }

  /**
   A command is proposed after the lock is released, so commits can reach the log in another order. A prefix deletion
   that has read at the timestamp of a commit behind it in the log finds more on a second pass than on the first.
   */
  lemma ReorderedLogNotReplayable(m: Merge, k: Key, v: Value) returns (s: System, log: seq<Command>, order: seq<nat>)
    requires k != []
    ensures Reached(s) && |log| == 2 && ShuffledLogOf(s.history, log, order) && !ReadsBelowLater(log)
    ensures ApplyLog(m, ApplyLog(m, map[], log), log) != ApplyLog(m, map[], log)
  {
    s := TwoCommitInTurn(Set(k, v), DeleteByPrefix(k));
    log, order := SwappedLog(k, v, At(0), At(1), At(2)), [1, 0];
    SwappedLogOf(k, v, At(0), At(1), At(2));
    ReplayNeedsTimestampOrder(m, k, v, At(1), At(2), At(0), At(1));
  }
}
