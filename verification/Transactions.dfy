/**
 Every run of a leader's transaction layer during one leadership term: an unbounded step
 system over the oracle and the transactions it serves, with the complete commit history
 kept beside the pruned one.
 */
module Transactions {
  import opened Bytes
  import opened Hlc
  import opened Oracle
  import opened Commands

  /** Registered: read timestamp taken, not yet begun on the mark. Stamped: committed, not yet discarded. */
  datatype Phase = Registered | Waiting | Open | Stamped | Closed

  datatype Txn = Txn(phase: Phase, readTs: nat, readSet: seq<Key>, keys: set<Key>, subs: seq<Sub>) {
    /** The read mark must hold its ground for this transaction. */
    predicate Active() {
      phase.Waiting? || phase.Open?
    }
  }

  datatype CommitRecord = CommitRecord(ts: nat, readTs: nat, readSet: seq<Key>, keys: set<Key>, subs: seq<Sub>)

  /**
   `before` holds the commits an earlier term of the same node has left in the oracle, and `since` is
   the timestamp this term has started with.
   */
  datatype System = System(
    oracle: Oracle,
    clock: nat,
    txns: map<nat, Txn>,
    since: nat,
    before: seq<Committed>,
    history: seq<CommitRecord>)

  datatype Step =
    | TakeReadTs(id: nat)
    | BeginRead(id: nat)
    | WaitSucceeds(id: nat)
    | WaitFails(id: nat)
    | Read(id: nat, key: Key)
    | Write(id: nat, sub: Sub)
    | WritePrefix(id: nat, prefix: Key, found: seq<Key>)
    | Commit(id: nat, d: nat, readings: seq<nat>)
    | Discard(id: nat)
    | AdvanceMark(d: nat)
    | UpdateWindow(bound: nat)

  // ---------- Steps ----------

  function WithTxn(s: System, id: nat, t: Txn): System {
    s.(txns := s.txns[id := t])
  }

  predicate InPhase(s: System, id: nat, phase: Phase) {
    id in s.txns && s.txns[id].phase == phase
  }

  function KeySet(ks: seq<Key>): set<Key> {
    set k | k in ks
  }

  function Attempt(s: System, id: nat, d: nat, readings: seq<nat>): Outcome
    requires id in s.txns
  {
    NewCommitTs(s.oracle, s.txns[id].readTs, s.txns[id].readSet, s.txns[id].keys, d, readings)
  }

  /** What the code lets happen next, on a clock that never goes backwards. */
  predicate Possible(s: System, step: Step) {
    match step
    case TakeReadTs(id) => id !in s.txns
    case BeginRead(id) => InPhase(s, id, Registered)
    case WaitSucceeds(id) => InPhase(s, id, Waiting)
    case WaitFails(id) => InPhase(s, id, Waiting)
    case Read(id, key) => InPhase(s, id, Open)
    case Write(id, sub) => InPhase(s, id, Open) && HasKey(sub) && sub.key != []
    case WritePrefix(id, prefix, found) => InPhase(s, id, Open) && forall k | k in found :: k != []
    case Commit(id, d, readings) =>
      && InPhase(s, id, Open)
      && |s.txns[id].subs| <= MAX_BATCH_SIZE
      && DoneRead(s.oracle, s.txns[id].readTs).readMark.CanAdvance(d)
      && Attempt(s, id, d, readings).Granted?
      && Nondecreasing(s.clock, readings)
    case Discard(id) => InPhase(s, id, Open) || InPhase(s, id, Stamped)
    case AdvanceMark(d) => s.oracle.readMark.CanAdvance(d)
    case UpdateWindow(bound) => bound > s.oracle.saved
  }

  /** A transaction begins on the read mark before the mark has passed the timestamp it registered. */
  predicate BeginsInTime(s: System, step: Step) {
    step.BeginRead? && step.id in s.txns ==> s.oracle.readMark.doneUntil <= s.txns[step.id].readTs
  }

  /** A commit's stamp moves forward: it does not leave MAX_LOGICAL in an odd millisecond. */
  predicate CommitsForward(s: System, step: Step) {
    step.Commit? ==>
      var c := Prepare(s.oracle.current, s.oracle.saved, step.readings);
      c.Some? ==> StampsForward(c.value)
  }

  predicate Enabled(s: System, step: Step) {
    Possible(s, step) && BeginsInTime(s, step) && CommitsForward(s, step)
  }

  function Do(s: System, step: Step): System
    requires Possible(s, step)
  {
    match step
    case TakeReadTs(id) =>
      WithTxn(s.(oracle := Register(s.oracle)), id, Txn(Registered, s.oracle.current.Compose(), [], {}, []))
    case BeginRead(id) =>
      var t := s.txns[id];
      WithTxn(s.(oracle := s.oracle.(readMark := s.oracle.readMark.Begin(t.readTs))), id, t.(phase := Waiting))
    case WaitSucceeds(id) =>
      WithTxn(s, id, s.txns[id].(phase := Open))
    case WaitFails(id) =>
      var t := s.txns[id];
      WithTxn(s.(oracle := s.oracle.(readMark := s.oracle.readMark.Done(t.readTs))), id, t.(phase := Closed))
    case Read(id, key) =>
      var t := s.txns[id];
      WithTxn(s, id, t.(readSet := t.readSet + [key]))
    case Write(id, sub) =>
      var t := s.txns[id];
      WithTxn(s, id, t.(keys := t.keys + {sub.key}, subs := t.subs + [sub]))
    case WritePrefix(id, prefix, found) =>
      var t := s.txns[id];
      WithTxn(s, id, t.(readSet := t.readSet + found, keys := t.keys + KeySet(found),
                        subs := t.subs + [DeleteByPrefix(prefix)]))
    case Commit(id, d, readings) =>
      var t := s.txns[id];
      var granted := Attempt(s, id, d, readings);
      System(granted.oracle, readings[|readings| - 1], s.txns[id := t.(phase := Stamped)], s.since, s.before,
             s.history + [CommitRecord(granted.ts, t.readTs, t.readSet, t.keys, t.subs)])
    case Discard(id) =>
      var t := s.txns[id];
      WithTxn(s.(oracle := DoneRead(s.oracle, t.readTs)), id, t.(phase := Closed))
    case AdvanceMark(d) =>
      s.(oracle := s.oracle.(readMark := s.oracle.readMark.Advance(d)))
    case UpdateWindow(bound) =>
      s.(oracle := s.oracle.(saved := bound))
  }

  // ---------- The invariant ----------

  ghost predicate Init(s: System) {
    && Serving(s.oracle) && s.txns == map[] && s.history == []
    && s.since == s.oracle.current.Compose() && s.before == s.oracle.committed
    && WellFormed(s.oracle.current) && Fenced(s.oracle.current, s.oracle.saved, s.clock)
    && s.clock < PHYSICAL_RANGE
  }

  /** The transactions the mark must protect at one read timestamp. */
  ghost function ActiveAt(txns: map<nat, Txn>, r: nat): set<nat> {
    set id | id in txns && txns[id].Active() && txns[id].readTs == r
  }

  function Footprints(h: seq<CommitRecord>): (cs: seq<Committed>)
    ensures |cs| == |h|
    ensures forall i | 0 <= i < |h| :: cs[i] == Committed(h[i].ts, h[i].keys)
  {
    seq(|h|, i requires 0 <= i < |h| => Committed(h[i].ts, h[i].keys))
  }

  ghost predicate ClockInv(s: System) {
    && WellFormed(s.oracle.current)
    && Fenced(s.oracle.current, s.oracle.saved, s.clock)
    && s.clock < PHYSICAL_RANGE
  }

  /** Nothing handed out lies above the current timestamp, nothing of this term below its start, nothing older above that. */
  ghost predicate BoundInv(s: System) {
    var now := s.oracle.current.Compose();
    && s.oracle.lastCleanup <= s.oracle.readMark.doneUntil <= now
    && (forall i | i in s.oracle.readMark.begun :: i <= now)
    && (forall r | r in s.oracle.readers :: r <= now)
    && s.since <= now && (forall c | c in s.before :: c.ts <= s.since)
    && (forall id | id in s.txns :: s.since <= s.txns[id].readTs <= now)
    && (forall c | c in s.history :: s.since <= c.readTs < c.ts <= now)
  }

  /** The mark counts every active transaction. */
  ghost predicate CountInv(s: System) {
    && (forall r: nat :: |ActiveAt(s.txns, r)| <= s.oracle.readMark.Count(r))
    && (forall id | id in s.txns && s.txns[id].phase.Stamped? ::
          s.txns[id].readTs < s.oracle.current.Compose() && s.txns[id].readTs !in s.oracle.readers)
  }

  /** The remembered commits are the ones above the last pruning. */
  ghost predicate ListInv(s: System) {
    s.oracle.committed == Later(s.before + Footprints(s.history), s.oracle.lastCleanup)
  }

  /** What every step of the code keeps, however late transactions begin on the mark. */
  ghost predicate LateInv(s: System) {
    ClockInv(s) && BoundInv(s) && CountInv(s) && ListInv(s)
  }

  /** While a transaction is active the mark stays at or below a bound. */
  ghost predicate HeldBelow(s: System, id: nat, top: nat) {
    id in s.txns && (s.txns[id].Active() ==> s.oracle.readMark.doneUntil <= top)
  }

  /** The mark has not passed any active transaction. */
  ghost predicate MarkInv(s: System) {
    forall id | id in s.txns :: HeldBelow(s, id, s.txns[id].readTs)
  }

  ghost predicate Ascending(h: seq<CommitRecord>) {
    forall i, j | 0 <= i < j < |h| :: h[i].ts < h[j].ts
  }

  /** No commit between a transaction's read and commit timestamps wrote a key it had read. */
  ghost predicate Serializable(h: seq<CommitRecord>) {
    forall i, j | 0 <= i < |h| && 0 <= j < |h| && h[i].readTs < h[j].ts < h[i].ts ::
      forall k | k in h[i].readSet :: k !in h[j].keys
  }

  /** Conflict detection sees every keyed operation, buffered or committed. */
  ghost predicate CoverInv(s: System) {
    && (forall id | id in s.txns :: Covers(s.txns[id].keys, s.txns[id].subs))
    && (forall c | c in s.history :: Covers(c.keys, c.subs))
  }

  ghost predicate Inv(s: System) {
    LateInv(s) && MarkInv(s) && Ascending(s.history) && CoverInv(s) && Serializable(s.history)
  }

  lemma InitInv(s: System)
    requires Init(s)
    ensures Inv(s)
  {
    forall r: nat ensures |ActiveAt(s.txns, r)| <= s.oracle.readMark.Count(r) {
      assert ActiveAt(s.txns, r) == {};
    }
    LaterOfAllLater(s.before, s.oracle.lastCleanup);
    assert s.before + Footprints(s.history) == s.before;
  }

  // ---------- What every step keeps ----------

  function One(b: bool): nat {
    if b then 1 else 0
  }

  lemma ActiveAfterUpdate(txns: map<nat, Txn>, id: nat, t: Txn, r: nat)
    ensures |ActiveAt(txns[id := t], r)|
         == |ActiveAt(txns, r)| - One(id in ActiveAt(txns, r)) + One(t.Active() && t.readTs == r)
  {
    var before, after := ActiveAt(txns, r), ActiveAt(txns[id := t], r);
    if t.Active() && t.readTs == r {
      assert after == (before - {id}) + {id};
    } else {
      assert after == before - {id};
    }
  }

  lemma MarkCountsAfterUpdate(s: System, id: nat, t: Txn, m: Mark)
    requires CountInv(s)
    requires forall r: nat :: m.Count(r) >= s.oracle.readMark.Count(r)
               - One(id in ActiveAt(s.txns, r)) + One(t.Active() && t.readTs == r)
    ensures forall r: nat :: |ActiveAt(s.txns[id := t], r)| <= m.Count(r)
  {
    forall r: nat ensures |ActiveAt(s.txns[id := t], r)| <= m.Count(r) {
      ActiveAfterUpdate(s.txns, id, t, r);
    }
  }

  lemma ReadStepsKeepLate(s: System, step: Step)
    requires LateInv(s) && Possible(s, step) && (step.TakeReadTs? || step.BeginRead?)
    ensures LateInv(Do(s, step))
  {
    var s' := Do(s, step);
    MarkCountsAfterUpdate(s, step.id, s'.txns[step.id], s'.oracle.readMark);
  }

  lemma BufferStepsKeepLate(s: System, step: Step)
    requires LateInv(s) && Possible(s, step)
    requires step.WaitSucceeds? || step.Read? || step.Write? || step.WritePrefix?
    ensures LateInv(Do(s, step))
  {
    var s' := Do(s, step);
    MarkCountsAfterUpdate(s, step.id, s'.txns[step.id], s'.oracle.readMark);
  }

  lemma CloseStepsKeepLate(s: System, step: Step)
    requires LateInv(s) && Possible(s, step) && (step.WaitFails? || step.Discard?)
    ensures LateInv(Do(s, step))
  {
    var s' := Do(s, step);
    MarkCountsAfterUpdate(s, step.id, s'.txns[step.id], s'.oracle.readMark);
  }

  lemma FootprintsAppend(h: seq<CommitRecord>, c: CommitRecord)
    ensures Footprints(h + [c]) == Footprints(h) + [Committed(c.ts, c.keys)]
  {
  }

  /** A granted commit is stamped above everything handed out so far. */
  lemma CommitStampsAbove(s: System, step: Step)
    requires ClockInv(s) && Possible(s, step) && CommitsForward(s, step) && step.Commit?
    ensures Attempt(s, step.id, step.d, step.readings).ts > s.oracle.current.Compose()
    ensures Do(s, step).oracle.current.Compose() == Attempt(s, step.id, step.d, step.readings).ts
    ensures ClockInv(Do(s, step))
  {
    PrepareMovesForward(s.oracle.current, s.oracle.saved, s.clock, step.readings);
    StampIncreases(Prepare(s.oracle.current, s.oracle.saved, step.readings).value);
  }

  /** The counts when a commit has finished its read. */
  lemma CountsAtCommit(s: System, step: Step)
    requires CountInv(s) && Possible(s, step) && step.Commit?
    ensures var m := DoneRead(s.oracle, s.txns[step.id].readTs).readMark;
            && Do(s, step).oracle.readMark == m.Advance(step.d)
            && forall r: nat :: |ActiveAt(Do(s, step).txns, r)| <= m.Count(r)
  {
    var s' := Do(s, step);
    var m := DoneRead(s.oracle, s.txns[step.id].readTs).readMark;
    assert s'.txns == s.txns[step.id := s'.txns[step.id]];
    MarkCountsAfterUpdate(s, step.id, s'.txns[step.id], m);
  }

  lemma CommitKeepsBounds(s: System, step: Step)
    requires LateInv(s) && Possible(s, step) && CommitsForward(s, step) && step.Commit?
    ensures BoundInv(Do(s, step)) && CountInv(Do(s, step))
  {
    CommitStampsAbove(s, step);
    CountsAtCommit(s, step);
    var s' := Do(s, step);
    var m := DoneRead(s.oracle, s.txns[step.id].readTs).readMark;
    assert forall r: nat :: s'.oracle.readMark.Count(r) == m.Count(r);
  }

  lemma CommitKeepsList(s: System, step: Step)
    requires LateInv(s) && Possible(s, step) && CommitsForward(s, step) && step.Commit?
    ensures ListInv(Do(s, step))
  {
    CommitStampsAbove(s, step);
    var s' := Do(s, step);
    var c, h := s'.history[|s.history|], s.history;
    ListGrows(s.before, h, c, s.oracle.committed, s.oracle.lastCleanup, s'.oracle.lastCleanup);
    ListAfterCommit(s, step, Committed(c.ts, c.keys));
  }

  lemma ListAfterCommit(s: System, step: Step, c: Committed)
    requires Possible(s, step) && step.Commit? && s.oracle.lastCleanup <= s.oracle.readMark.doneUntil
    requires Later(s.oracle.committed, s.oracle.lastCleanup) == s.oracle.committed
    requires c == Committed(Attempt(s, step.id, step.d, step.readings).ts, s.txns[step.id].keys)
    ensures var o := Do(s, step).oracle;
            o.lastCleanup >= s.oracle.lastCleanup && o.committed == Later(s.oracle.committed, o.lastCleanup) + [c]
  {
  }

  /** Pruning a pruned list further and appending a commit is pruning the grown history. */
  lemma ListGrows(before: seq<Committed>, h: seq<CommitRecord>, c: CommitRecord, list: seq<Committed>, a: nat, b: nat)
    requires list == Later(before + Footprints(h), a) && a <= b < c.ts
    ensures Later(list, a) == list
    ensures Later(before + Footprints(h + [c]), b) == Later(list, b) + [Committed(c.ts, c.keys)]
  {
    var all := before + Footprints(h);
    FootprintsAppend(h, c);
    assert before + Footprints(h + [c]) == all + [Committed(c.ts, c.keys)];
    LaterAppend(all, Committed(c.ts, c.keys), b);
    LaterTwice(all, a, b);
    LaterTwice(all, a, a);
  }

  lemma StepKeepsLate(s: System, step: Step)
    requires LateInv(s) && Possible(s, step) && CommitsForward(s, step)
    ensures LateInv(Do(s, step))
  {
    match step
    case TakeReadTs(_) => ReadStepsKeepLate(s, step);
    case BeginRead(_) => ReadStepsKeepLate(s, step);
    case WaitFails(_) => CloseStepsKeepLate(s, step);
    case Discard(_) => CloseStepsKeepLate(s, step);
    case AdvanceMark(_) =>
    case UpdateWindow(_) =>
    case Commit(_, _, _) =>
      CommitStampsAbove(s, step);
      CommitKeepsBounds(s, step);
      CommitKeepsList(s, step);
    case _ => BufferStepsKeepLate(s, step);
  }

  /** An active transaction keeps the mark from advancing past its read timestamp. */
  lemma AdvanceHeldByActive(txns: map<nat, Txn>, m: Mark, d: nat, id: nat)
    requires forall r: nat :: |ActiveAt(txns, r)| <= m.Count(r)
    requires id in txns && txns[id].Active() && m.CanAdvance(d)
    ensures d == m.doneUntil || d <= txns[id].readTs
  {
    var r := txns[id].readTs;
    assert id in ActiveAt(txns, r);
    assert m.Count(r) >= 1;
  }

  /** The mark found when a transaction begins, or its read timestamp if that is higher, bounds the mark while it is active. */
  lemma StepKeepsHeld(s: System, step: Step, id: nat, top: nat)
    requires LateInv(s) && Possible(s, step) && HeldBelow(s, id, top) && s.txns[id].readTs <= top
    requires step == BeginRead(id) ==> s.oracle.readMark.doneUntil <= top
    ensures HeldBelow(Do(s, step), id, top) && Do(s, step).txns[id].readTs == s.txns[id].readTs
  {
    var s' := Do(s, step);
    if s'.txns[id].Active() {
      if step.AdvanceMark? {
        AdvanceHeldByActive(s.txns, s.oracle.readMark, step.d, id);
      } else if step.Commit? {
        CountsAtCommit(s, step);
        AdvanceHeldByActive(s'.txns, DoneRead(s.oracle, s.txns[step.id].readTs).readMark, step.d, id);
      }
    }
  }

  // ---------- What a step keeps when transactions begin in time ----------

  lemma StepKeepsMark(s: System, step: Step)
    requires LateInv(s) && MarkInv(s) && Enabled(s, step)
    ensures MarkInv(Do(s, step))
  {
    var s' := Do(s, step);
    forall id | id in s'.txns ensures HeldBelow(s', id, s'.txns[id].readTs) {
      if id in s.txns {
        assert HeldBelow(s, id, s.txns[id].readTs);
        StepKeepsHeld(s, step, id, s.txns[id].readTs);
      }
    }
  }

  /** The verdict of the complete history of the term, for whatever a transaction may have read. */
  ghost predicate FullVerdict(s: System, readTs: nat) {
    forall readSet: seq<Key> ::
      HasConflict(s.oracle.committed, readTs, readSet) <==> HasConflict(Footprints(s.history), readTs, readSet)
  }

  /** What earlier terms have left behind never counts as a conflict. */
  lemma OldCommitsDoNotClash(before: seq<Committed>, cs: seq<Committed>, readTs: nat, readSet: seq<Key>)
    requires forall c | c in before :: c.ts <= readTs
    ensures HasConflict(before + cs, readTs, readSet) <==> HasConflict(cs, readTs, readSet)
  {
    ConflictByMembership(before + cs, readTs, readSet);
    ConflictByMembership(cs, readTs, readSet);
  }

  /** The pruned list gives a transaction that the last pruning has not passed the verdict of the complete history. */
  lemma PrunedVerdictIsFull(s: System, id: nat)
    requires LateInv(s) && id in s.txns && s.oracle.lastCleanup <= s.txns[id].readTs
    ensures FullVerdict(s, s.txns[id].readTs)
  {
    var r := s.txns[id].readTs;
    forall readSet: seq<Key>
      ensures HasConflict(s.oracle.committed, r, readSet) <==> HasConflict(Footprints(s.history), r, readSet)
    {
      PruningKeepsVerdict(s.before + Footprints(s.history), s.oracle.lastCleanup, r, readSet);
      OldCommitsDoNotClash(s.before, Footprints(s.history), r, readSet);
    }
  }

  lemma OrderGrows(h: seq<CommitRecord>, c: CommitRecord)
    requires Ascending(h) && forall e | e in h :: e.ts < c.ts
    ensures Ascending(h + [c])
  {
  }

  lemma CommitKeepsSerializable(s: System, step: Step)
    requires Inv(s) && Enabled(s, step) && step.Commit?
    ensures Ascending(Do(s, step).history) && Serializable(Do(s, step).history)
  {
    CommitStampsAbove(s, step);
    assert HeldBelow(s, step.id, s.txns[step.id].readTs);
    PrunedVerdictIsFull(s, step.id);
    var c := Do(s, step).history[|s.history|];
    OrderGrows(s.history, c);
    assert !HasConflict(s.oracle.committed, c.readTs, c.readSet);
    SerializableGrows(s.history, c);
  }

  lemma SerializableGrows(h: seq<CommitRecord>, c: CommitRecord)
    requires Serializable(h) && (forall e | e in h :: e.ts < c.ts) && !HasConflict(Footprints(h), c.readTs, c.readSet)
    ensures Serializable(h + [c])
  {
    var h', n := h + [c], |h|;
    forall i, j | 0 <= i < |h'| && 0 <= j < |h'| && h'[i].readTs < h'[j].ts < h'[i].ts
      ensures forall k | k in h'[i].readSet :: k !in h'[j].keys
    {
      if i == n && j < n {
        assert !Clashes(Footprints(h)[j], c.readTs, c.readSet);
      }
    }
  }

  lemma StepKeepsCover(s: System, step: Step)
    requires CoverInv(s) && Possible(s, step)
    ensures CoverInv(Do(s, step))
    ensures !step.Commit? ==> Do(s, step).history == s.history
  {
  }

  lemma StepKeepsInv(s: System, step: Step)
    requires Inv(s) && Enabled(s, step)
    ensures Inv(Do(s, step))
  {
    StepKeepsLate(s, step);
    StepKeepsMark(s, step);
    StepKeepsCover(s, step);
    if step.Commit? {
      CommitKeepsSerializable(s, step);
    }
  }

  // ---------- Runs ----------

  ghost predicate IsRun(states: seq<System>, steps: seq<Step>) {
    && |states| == |steps| + 1
    && Init(states[0])
    && forall i | 0 <= i < |steps| :: Enabled(states[i], steps[i]) && states[i + 1] == Do(states[i], steps[i])
  }

  lemma {:induction false} RunKeepsInv(states: seq<System>, steps: seq<Step>, n: nat)
    requires IsRun(states, steps) && n <= |steps|
    ensures Inv(states[n])
  {
    if n == 0 {
      InitInv(states[0]);
    } else {
      RunKeepsInv(states, steps, n - 1);
      StepKeepsInv(states[n - 1], steps[n - 1]);
    }
  }

  /**
   Serializability of tracked reads, over every run: between a committed transaction's read and
   commit timestamps no commit wrote a key the transaction had read.
   */
  lemma RunsAreSerializable(states: seq<System>, steps: seq<Step>, n: nat)
    requires IsRun(states, steps) && n <= |steps|
    ensures Serializable(states[n].history) && Ascending(states[n].history)
  {
    RunKeepsInv(states, steps, n);
  }

  /** Over every run, the pruned commit list decides every active transaction as the full history would. */
  lemma PruningRefinesHistory(states: seq<System>, steps: seq<Step>, n: nat, id: nat)
    requires IsRun(states, steps) && n <= |steps|
    requires id in states[n].txns && states[n].txns[id].Active()
    ensures FullVerdict(states[n], states[n].txns[id].readTs)
  {
    RunKeepsInv(states, steps, n);
    assert HeldBelow(states[n], id, states[n].txns[id].readTs);
    PrunedVerdictIsFull(states[n], id);
  }

  /** Over every run, an open transaction is refused exactly when a commit above its read timestamp wrote a key it had read. */
  lemma RefusedExactly(states: seq<System>, steps: seq<Step>, n: nat, id: nat, d: nat, readings: seq<nat>)
    requires IsRun(states, steps) && n <= |steps| && InPhase(states[n], id, Open)
    ensures var s, t := states[n], states[n].txns[id];
            Attempt(s, id, d, readings).Conflict?
            <==> exists c, k :: c in s.history && c.ts > t.readTs && k in t.readSet && k in c.keys
  {
    var s, t := states[n], states[n].txns[id];
    PruningRefinesHistory(states, steps, n, id);
    var cs := Footprints(s.history);
    if HasConflict(cs, t.readTs, t.readSet) {
      var i :| 0 <= i < |cs| && Clashes(cs[i], t.readTs, t.readSet);
      var k :| k in t.readSet && k in cs[i].keys;
      assert s.history[i] in s.history && k in s.history[i].keys;
    }
    if c, k :| c in s.history && c.ts > t.readTs && k in t.readSet && k in c.keys {
      var i :| 0 <= i < |s.history| && s.history[i] == c;
      assert Clashes(cs[i], t.readTs, t.readSet);
    }
  }

  /**
   Watermark accounting, over every run: although readers is a set and a transaction finishes its
   read twice, the pending count never falls below the number of active transactions, so the mark
   never passes an active transaction's read timestamp.
   */
  lemma MarkNeverPassesActive(states: seq<System>, steps: seq<Step>, n: nat, id: nat)
    requires IsRun(states, steps) && n <= |steps|
    requires id in states[n].txns && states[n].txns[id].Active()
    ensures var s := states[n]; var r := s.txns[id].readTs;
            && s.oracle.readMark.doneUntil <= r
            && 1 <= |ActiveAt(s.txns, r)| <= s.oracle.readMark.Count(r)
  {
    RunKeepsInv(states, steps, n);
    var r := states[n].txns[id].readTs;
    assert HeldBelow(states[n], id, r);
    assert id in ActiveAt(states[n].txns, r);
  }

  /** Over every run, a commit is stamped above every read and commit timestamp handed out before it. */
  lemma TimestampsIncrease(states: seq<System>, steps: seq<Step>, n: nat)
    requires IsRun(states, steps) && n < |steps| && steps[n].Commit?
    ensures var s := states[n]; var ts := states[n + 1].history[|s.history|].ts;
            && |states[n + 1].history| == |s.history| + 1
            && (forall c | c in s.history :: c.ts < ts)
            && (forall id | id in s.txns :: s.txns[id].readTs < ts)
  {
    RunKeepsInv(states, steps, n);
    CommitStampsAbove(states[n], steps[n]);
  }

  // ---------- Without the begin hypothesis ----------

  ghost predicate IsLateStep(s: System, step: Step, s': System) {
    Possible(s, step) && CommitsForward(s, step) && s' == Do(s, step)
  }

  /** Steps of the code in direct succession; a transaction may begin on the mark arbitrarily late. */
  ghost predicate LatePath(states: seq<System>, steps: seq<Step>) {
    && |states| == |steps| + 1
    && forall i | 0 <= i < |steps| :: IsLateStep(states[i], steps[i], states[i + 1])
  }

  ghost predicate IsLateRun(states: seq<System>, steps: seq<Step>) {
    LatePath(states, steps) && Init(states[0])
  }

  lemma {:induction false} LatePathKeepsInv(states: seq<System>, steps: seq<Step>, n: nat)
    requires LatePath(states, steps) && LateInv(states[0]) && n <= |steps|
    ensures LateInv(states[n])
  {
    if n > 0 {
      LatePathKeepsInv(states, steps, n - 1);
      assert IsLateStep(states[n - 1], steps[n - 1], states[n]);
      StepKeepsLate(states[n - 1], steps[n - 1]);
    }
  }

  /** Over every run of the code, the remembered commits are those of the history above the last pruning. */
  lemma LateRunKeepsList(states: seq<System>, steps: seq<Step>, n: nat)
    requires IsLateRun(states, steps) && n <= |steps|
    ensures LateInv(states[n])
  {
    InitInv(states[0]);
    LatePathKeepsInv(states, steps, n);
  }

  lemma {:induction false} LatePathKeepsHeld(states: seq<System>, steps: seq<Step>, n: nat, id: nat, top: nat)
    requires LatePath(states, steps) && LateInv(states[0]) && n <= |steps|
    requires HeldBelow(states[0], id, top) && states[0].txns[id].readTs <= top && states[0].txns[id].phase != Registered
    ensures HeldBelow(states[n], id, top) && states[n].txns[id].readTs == states[0].txns[id].readTs
    ensures states[n].txns[id].phase != Registered
  {
    if n > 0 {
      LatePathKeepsHeld(states, steps, n - 1, id, top);
      LatePathKeepsInv(states, steps, n - 1);
      assert IsLateStep(states[n - 1], steps[n - 1], states[n]);
      StepKeepsHeld(states[n - 1], steps[n - 1], id, top);
    }
  }

  /**
   One transaction's begin is enough, over every run of the code: if the mark had not passed its read
   timestamp when it began, the mark stays there while the transaction is active and it gets the verdict
   of the complete history, however late others begin.
   */
  lemma BeginInTimeSuffices(states: seq<System>, steps: seq<Step>, b: nat, n: nat, id: nat)
    requires IsLateRun(states, steps) && b < n <= |steps| && steps[b] == BeginRead(id)
    requires id in states[b].txns && states[b].oracle.readMark.doneUntil <= states[b].txns[id].readTs
    requires id in states[n].txns && states[n].txns[id].Active()
    ensures states[n].oracle.readMark.doneUntil <= states[n].txns[id].readTs
    ensures FullVerdict(states[n], states[n].txns[id].readTs)
  {
    var r := states[b].txns[id].readTs;
    LateRunKeepsList(states, steps, b + 1);
    LateRunKeepsList(states, steps, n);
    assert IsLateStep(states[b], steps[b], states[b + 1]);
    var rest, after := states[b + 1..], steps[b + 1..];
    forall i | 0 <= i < |after| ensures IsLateStep(rest[i], after[i], rest[i + 1]) {
      assert IsLateStep(states[b + 1 + i], steps[b + 1 + i], states[b + 1 + i + 1]);
    }
    LatePathKeepsHeld(rest, after, n - b - 1, id, r);
    assert rest[n - b - 1] == states[n];
    PrunedVerdictIsFull(states[n], id);
  }

  /**
   Exactly when the pruned list is as good as the full history for a transaction, in any run of the code: when
   the commits between its read timestamp and the last pruning are superseded above that pruning.
   */
  lemma LateVerdictExactly(states: seq<System>, steps: seq<Step>, n: nat, id: nat)
    requires IsLateRun(states, steps) && n <= |steps| && id in states[n].txns
    ensures var s := states[n];
            FullVerdict(s, s.txns[id].readTs)
            <==> Superseded(Footprints(s.history), s.txns[id].readTs, s.oracle.lastCleanup)
  {
    LateRunKeepsList(states, steps, n);
    VerdictExactly(states[n], id);
  }

  lemma VerdictExactly(s: System, id: nat)
    requires LateInv(s) && id in s.txns
    ensures FullVerdict(s, s.txns[id].readTs)
       <==> Superseded(Footprints(s.history), s.txns[id].readTs, s.oracle.lastCleanup)
  {
    var r, t := s.txns[id].readTs, s.oracle.lastCleanup;
    var all, mine := s.before + Footprints(s.history), Footprints(s.history);
    PruningHarmlessExactly(all, t, r);
    forall readSet: seq<Key> ensures HasConflict(all, r, readSet) <==> HasConflict(mine, r, readSet) {
      OldCommitsDoNotClash(s.before, mine, r, readSet);
    }
    SupersededByThisTerm(s.before, mine, r, t);
  }

  lemma SupersededByThisTerm(before: seq<Committed>, cs: seq<Committed>, readTs: nat, mark: nat)
    requires forall c | c in before :: c.ts <= readTs
    ensures Superseded(before + cs, readTs, mark) <==> Superseded(cs, readTs, mark)
  {
    forall k | readTs <= mark ensures WrittenAbove(before + cs, mark, k) <==> WrittenAbove(cs, mark, k) {
    }
    forall c | c in before + cs && c.ts > readTs ensures c in cs {
    }
  }

  ghost predicate ReachedFrom(s: System, s': System) {
    exists states: seq<System>, steps: seq<Step> ::
      LatePath(states, steps) && states[0] == s && states[|steps|] == s'
  }

  ghost predicate ReachedLate(s: System) {
    exists s0 :: Init(s0) && ReachedFrom(s0, s)
  }

  lemma FromSelf(s: System)
    ensures ReachedFrom(s, s)
  {
    var states, steps: seq<Step> := [s], [];
    assert LatePath(states, steps) && states[0] == s && states[|steps|] == s;
  }

  lemma FromNext(s: System, s1: System, step: Step) returns (s': System)
    requires ReachedFrom(s, s1) && Possible(s1, step) && CommitsForward(s1, step)
    ensures s' == Do(s1, step) && ReachedFrom(s, s')
  {
    s' := Do(s1, step);
    var states: seq<System>, steps: seq<Step> :| LatePath(states, steps) && states[0] == s && states[|steps|] == s1;
    LatePathGrows(states, steps, step);
    assert (states + [s'])[0] == s && (states + [s'])[|steps + [step]|] == s';
  }

  lemma LatePathGrows(states: seq<System>, steps: seq<Step>, step: Step)
    requires LatePath(states, steps)
    requires Possible(states[|steps|], step) && CommitsForward(states[|steps|], step)
    ensures LatePath(states + [Do(states[|steps|], step)], steps + [step])
  {
    var states', steps' := states + [Do(states[|steps|], step)], steps + [step];
    forall i | 0 <= i < |steps'| ensures IsLateStep(states'[i], steps'[i], states'[i + 1]) {
      if i < |steps| {
        assert IsLateStep(states[i], steps[i], states[i + 1]);
      }
    }
  }

  lemma ReachedKeepsInv(s: System, s': System)
    requires LateInv(s) && ReachedFrom(s, s')
    ensures LateInv(s')
  {
    var states: seq<System>, steps: seq<Step> :| LatePath(states, steps) && states[0] == s && states[|steps|] == s';
    LatePathKeepsInv(states, steps, |steps|);
  }

  lemma ReachedLateInv(s: System)
    requires ReachedLate(s)
    ensures LateInv(s)
  {
    var s0 :| Init(s0) && ReachedFrom(s0, s);
    InitInv(s0);
    ReachedKeepsInv(s0, s);
  }

  lemma ReachNext(s: System, step: Step)
    requires ReachedLate(s) && Possible(s, step) && CommitsForward(s, step)
    ensures ReachedLate(Do(s, step))
  {
    var s0 :| Init(s0) && ReachedFrom(s0, s);
    var s' := FromNext(s0, s, step);
  }

  // ---------- What a late begin costs ----------

  /** Whatever the code does from here on, the transaction gets the verdict of the complete history while it is active. */
  ghost predicate AlwaysFullVerdict(s: System, id: nat) {
    forall s' | ReachedFrom(s, s') && id in s'.txns && s'.txns[id].Active() :: FullVerdict(s', s'.txns[id].readTs)
  }

  lemma {:induction false} LatePathHistory(states: seq<System>, steps: seq<Step>, n: nat, d: nat)
    requires LatePath(states, steps) && LateInv(states[0]) && n <= |steps|
    requires d <= states[0].oracle.current.Compose()
    ensures d <= states[n].oracle.current.Compose()
    ensures forall c | c in states[0].history :: c in states[n].history
    ensures forall c | c in states[n].history :: c in states[0].history || c.ts > d
  {
    if n > 0 {
      LatePathHistory(states, steps, n - 1, d);
      LatePathKeepsInv(states, steps, n - 1);
      assert IsLateStep(states[n - 1], steps[n - 1], states[n]);
      HistoryGrows(states[n - 1], steps[n - 1], d);
    }
  }

  lemma HistoryGrows(s: System, step: Step, d: nat)
    requires LateInv(s) && Possible(s, step) && CommitsForward(s, step) && d <= s.oracle.current.Compose()
    ensures d <= Do(s, step).oracle.current.Compose()
    ensures forall c | c in s.history :: c in Do(s, step).history
    ensures forall c | c in Do(s, step).history :: c in s.history || c.ts > d
  {
    if step.Commit? {
      CommitStampsAbove(s, step);
    }
  }

  lemma InFootprints(h: seq<CommitRecord>, c: Committed)
    ensures c in Footprints(h) <==> exists e :: e in h && Committed(e.ts, e.keys) == c
  {
    if e :| e in h && Committed(e.ts, e.keys) == c {
      var i :| 0 <= i < |h| && h[i] == e;
      assert Footprints(h)[i] == c;
    }
  }

  /** A longer history with new commits only above the mark leaves superseded what was superseded. */
  lemma SupersededGrows(h: seq<CommitRecord>, h': seq<CommitRecord>, readTs: nat, d: nat, t: nat)
    requires Superseded(Footprints(h), readTs, d) && (t <= readTs || t <= d)
    requires (forall c | c in h :: c in h') && forall c | c in h' :: c in h || c.ts > d
    ensures Superseded(Footprints(h'), readTs, t)
  {
    forall c, k | c in Footprints(h') && readTs < c.ts <= t && k in c.keys ensures WrittenAbove(Footprints(h'), t, k) {
      InFootprints(h, c);
      InFootprints(h', c);
      assert c in Footprints(h);
      assert WrittenAbove(Footprints(h), d, k);
      var again :| again in Footprints(h) && again.ts > d && k in again.keys;
      InFootprints(h, again);
      InFootprints(h', again);
    }
  }

  lemma SupersededIsEnough(s: System, s': System, id: nat, d: nat)
    requires LateInv(s) && id in s.txns && s.txns[id].phase != Registered && ReachedFrom(s, s')
    requires d == s.oracle.readMark.doneUntil && Superseded(Footprints(s.history), s.txns[id].readTs, d)
    requires id in s'.txns && s'.txns[id].Active()
    ensures FullVerdict(s', s'.txns[id].readTs)
  {
    var states: seq<System>, steps: seq<Step> :| LatePath(states, steps) && states[0] == s && states[|steps|] == s';
    var r := s.txns[id].readTs;
    LatePathKeepsInv(states, steps, |steps|);
    LatePathKeepsHeld(states, steps, |steps|, id, if r < d then d else r);
    LatePathHistory(states, steps, |steps|, d);
    SupersededGrows(s.history, s'.history, r, d, s'.oracle.lastCleanup);
    VerdictExactly(s', id);
  }

  lemma FreshId(ids: set<nat>) returns (id: nat)
    ensures forall i | i in ids :: i < id
  {
    if ids == {} {
      id := 0;
    } else {
      var i :| i in ids;
      var rest := FreshId(ids - {i});
      id := if i < rest then rest else i + 1;
      forall j | j in ids ensures j < id {
        assert j == i || j in ids - {i};
      }
    }
  }

  /** There is a millisecond left that the clock and the oracle have not reached. */
  predicate TimeLeft(s: System) {
    s.clock < PHYSICAL_RANGE && s.oracle.current.physical + 1 < PHYSICAL_RANGE
  }

  /** A bystander opens and writes one key, in a window that lies ahead of a given millisecond. */
  lemma OpenBystander(s: System, u: nat, x: Key, now: nat) returns (s': System)
    requires u !in s.txns && x != []
    ensures ReachedFrom(s, s') && s'.oracle.saved > now
    ensures s'.oracle.current == s.oracle.current && s'.clock == s.clock
    ensures s'.history == s.history && s'.oracle.readMark.doneUntil == s.oracle.readMark.doneUntil
    ensures s'.txns == s.txns[u := Txn(Open, s.oracle.current.Compose(), [], {x}, [Set(x, [])])]
  {
    FromSelf(s);
    var bound := s.oracle.saved + now + 1;
    var s1 := FromNext(s, s, UpdateWindow(bound));
    var s2 := FromNext(s, s1, TakeReadTs(u));
    var s3 := FromNext(s, s2, BeginRead(u));
    var s4 := FromNext(s, s3, WaitSucceeds(u));
    s' := FromNext(s, s4, Step.Write(u, Set(x, [])));
    assert {} + {x} == {x} && [] + [Set(x, [])] == [Set(x, [])];
  }

  /** It commits in a new millisecond, finds the mark where it is and prunes there. */
  lemma BystanderPrunes(s: System, s1: System, u: nat, x: Key, now: nat) returns (s': System)
    requires ReachedFrom(s, s1) && u in s1.txns && s1.txns[u].phase == Open
    requires s1.txns[u].readSet == [] && s1.txns[u].keys == {x} && |s1.txns[u].subs| == 1
    requires s1.clock <= now < PHYSICAL_RANGE && s1.oracle.current.physical < now < s1.oracle.saved
    ensures ReachedFrom(s, s') && s'.oracle.lastCleanup == s1.oracle.readMark.doneUntil
    ensures |s'.history| == |s1.history| + 1 && s'.history[..|s1.history|] == s1.history
    ensures s'.history[|s1.history|].keys == {x}
    ensures s'.txns == s1.txns[u := s1.txns[u].(phase := Stamped)]
  {
    assert Prepare(s1.oracle.current, s1.oracle.saved, [now]) == Some(TimeStamp(now, 0)) by {
      assert [now][1..] == [];
    }
    s' := FromNext(s, s1, Step.Commit(u, s1.oracle.readMark.doneUntil, [now]));
  }

  lemma PruneAtMark(s: System, x: Key) returns (s': System)
    requires TimeLeft(s) && x != []
    ensures ReachedFrom(s, s') && s'.oracle.lastCleanup == s.oracle.readMark.doneUntil
    ensures |s'.history| == |s.history| + 1 && s'.history[..|s.history|] == s.history
    ensures s'.history[|s.history|].keys == {x}
    ensures forall id | id in s.txns :: id in s'.txns && s'.txns[id] == s.txns[id]
  {
    var u := FreshId(s.txns.Keys);
    var now := if s.clock > s.oracle.current.physical then s.clock else s.oracle.current.physical + 1;
    var s1 := OpenBystander(s, u, x, now);
    s' := BystanderPrunes(s, s1, u, x, now);
  }

  lemma OtherKeyDoesNotSupersede(h: seq<CommitRecord>, e: CommitRecord, readTs: nat, d: nat, c: Committed, k: Key)
    requires c in Footprints(h) && readTs < c.ts <= d && k in c.keys && !WrittenAbove(Footprints(h), d, k) && k !in e.keys
    ensures !Superseded(Footprints(h + [e]), readTs, d)
  {
    FootprintsAppend(h, e);
    var cs := Footprints(h + [e]);
    assert c in cs;
    if again :| again in cs && again.ts > d && k in again.keys {
      assert false;
    }
    assert !WrittenAbove(cs, d, k);
  }

  lemma NotSupersededIsLost(h: seq<CommitRecord>, readTs: nat, d: nat) returns (x: Key)
    requires !Superseded(Footprints(h), readTs, d)
    ensures x != [] && forall e: CommitRecord | e.keys == {x} :: !Superseded(Footprints(h + [e]), readTs, d)
  {
    var cs := Footprints(h);
    var c, k :| c in cs && readTs < c.ts <= d && k in c.keys && !WrittenAbove(cs, d, k);
    x := k + [0];
    assert |x| == |k| + 1;
    forall e: CommitRecord | e.keys == {x} ensures !Superseded(Footprints(h + [e]), readTs, d) {
      OtherKeyDoesNotSupersede(h, e, readTs, d, c, k);
    }
  }

  lemma VerdictIsLost(s: System, id: nat, x: Key) returns (s': System)
    requires LateInv(s) && TimeLeft(s) && id in s.txns && s.txns[id].Active() && x != []
    requires forall e: CommitRecord | e.keys == {x} ::
               !Superseded(Footprints(s.history + [e]), s.txns[id].readTs, s.oracle.readMark.doneUntil)
    ensures ReachedFrom(s, s') && id in s'.txns && s'.txns[id].Active() && !FullVerdict(s', s'.txns[id].readTs)
  {
    s' := PruneUnsuperseded(s, id, x);
    VerdictExactly(s', id);
  }

  lemma PruneUnsuperseded(s: System, id: nat, x: Key) returns (s': System)
    requires LateInv(s) && TimeLeft(s) && id in s.txns && s.txns[id].Active() && x != []
    requires forall e: CommitRecord | e.keys == {x} ::
               !Superseded(Footprints(s.history + [e]), s.txns[id].readTs, s.oracle.readMark.doneUntil)
    ensures ReachedFrom(s, s') && LateInv(s') && id in s'.txns && s'.txns[id].Active()
    ensures !Superseded(Footprints(s'.history), s'.txns[id].readTs, s'.oracle.lastCleanup)
  {
    s' := PruneAtMark(s, x);
    ReachedKeepsInv(s, s');
    assert s'.history == s.history + [s'.history[|s.history|]];
  }

  lemma SupersededIsNeeded(s: System, id: nat)
    requires LateInv(s) && TimeLeft(s) && id in s.txns && s.txns[id].Active()
    requires !Superseded(Footprints(s.history), s.txns[id].readTs, s.oracle.readMark.doneUntil)
    ensures !AlwaysFullVerdict(s, id)
  {
    var x := NotSupersededIsLost(s.history, s.txns[id].readTs, s.oracle.readMark.doneUntil);
    var s' := VerdictIsLost(s, id, x);
  }

  /**
   Exactly when a begin on the mark is harmless, over all that the code may do afterwards: when every commit the
   mark has passed above the transaction's read timestamp is superseded above the mark. In particular when the mark
   has not passed the read timestamp; otherwise the next commit of any bystander may drop the conflict.
   */
  lemma LateBeginExactly(s: System, id: nat)
    requires ReachedLate(s) && InPhase(s, id, Registered) && TimeLeft(s)
    ensures AlwaysFullVerdict(Do(s, BeginRead(id)), id)
       <==> Superseded(Footprints(s.history), s.txns[id].readTs, s.oracle.readMark.doneUntil)
  {
    ReachedLateInv(s);
    var s1 := Do(s, BeginRead(id));
    StepKeepsLate(s, BeginRead(id));
    if Superseded(Footprints(s.history), s.txns[id].readTs, s.oracle.readMark.doneUntil) {
      forall s' | ReachedFrom(s1, s') && id in s'.txns && s'.txns[id].Active()
        ensures FullVerdict(s', s'.txns[id].readTs)
      {
        SupersededIsEnough(s1, s', id, s.oracle.readMark.doneUntil);
      }
    } else {
      SupersededIsNeeded(s1, id);
    }
  }

  // ---------- A run that loses a conflict ----------

  function At(logical: nat): nat {
    1000 * LOGICAL_RANGE + logical
  }

  /** A quiet moment of the race: millisecond 1000, a window up to 5000. */
  predicate AtMillisecond1000(s: System, logical: nat) {
    s.oracle.current == TimeStamp(1000, logical) && s.oracle.saved == 5000 && s.clock == 1000 && logical < 9
  }

  lemma GrantAtMillisecond1000(o: Oracle, logical: nat, t: Txn, d: nat)
    requires o.current == TimeStamp(1000, logical) && o.saved == 5000 && logical < 8
    requires !HasConflict(o.committed, t.readTs, t.readSet)
    ensures Prepare(o.current, o.saved, [1000]) == Some(o.current)
    ensures var o1 := DoneRead(o, t.readTs); var o2 := Cleanup(o1.(readMark := o1.readMark.Advance(d)));
            NewCommitTs(o, t.readTs, t.readSet, t.keys, d, [1000])
            == Granted(o2.(current := TimeStamp(1000, logical + 1),
                           committed := o2.committed + [Committed(At(logical + 1), t.keys)]), At(logical + 1))
  {
    assert [1000][1..] == [];
    ComposeValue(TimeStamp(1000, logical + 1));
  }

  lemma CommitAtMillisecond1000(s: System, logical: nat, id: nat, d: nat) returns (s': System)
    requires ReachedLate(s) && AtMillisecond1000(s, logical) && logical < 8
    requires InPhase(s, id, Open) && |s.txns[id].subs| <= MAX_BATCH_SIZE
    requires DoneRead(s.oracle, s.txns[id].readTs).readMark.CanAdvance(d)
    requires !HasConflict(s.oracle.committed, s.txns[id].readTs, s.txns[id].readSet)
    ensures ReachedLate(s') && AtMillisecond1000(s', logical + 1)
    ensures var t := s.txns[id]; var o := DoneRead(s.oracle, t.readTs); var m := o.readMark.Advance(d);
            && s'.history == s.history + [CommitRecord(At(logical + 1), t.readTs, t.readSet, t.keys, t.subs)]
            && s'.txns == s.txns[id := t.(phase := Stamped)]
            && s'.oracle.readMark == m && s'.oracle.lastCleanup == d
            && s'.oracle.committed
               == Cleanup(o.(readMark := m)).committed + [Committed(At(logical + 1), t.keys)]
  {
    var step := Step.Commit(id, d, [1000]);
    GrantAtMillisecond1000(s.oracle, logical, s.txns[id], d);
    s' := Do(s, step);
    ReachNext(s, step);
  }

  /** Open a transaction: register, begin and wait in direct succession. */
  lemma OpenTxn(s: System, logical: nat, id: nat) returns (s': System)
    requires ReachedLate(s) && id !in s.txns && AtMillisecond1000(s, logical)
    ensures ReachedLate(s')
    ensures s'.clock == s.clock && s'.history == s.history
    ensures s'.txns == s.txns[id := Txn(Open, At(logical), [], {}, [])]
    ensures s'.oracle == s.oracle.(readers := s.oracle.readers + {At(logical)}, readMark := s.oracle.readMark.Begin(At(logical)))
  {
    ComposeValue(TimeStamp(1000, logical));
    var s1 := Do(s, TakeReadTs(id));
    ReachNext(s, TakeReadTs(id));
    var s2 := Do(s1, BeginRead(id));
    ReachNext(s1, BeginRead(id));
    s' := Do(s2, WaitSucceeds(id));
    ReachNext(s2, WaitSucceeds(id));
  }

  lemma OpenWriter(s: System, logical: nat, id: nat, k: Key) returns (s': System)
    requires ReachedLate(s) && id !in s.txns && k != [] && AtMillisecond1000(s, logical)
    ensures ReachedLate(s') && AtMillisecond1000(s', logical) && s'.history == s.history
    ensures s'.txns == s.txns[id := Txn(Open, At(logical), [], {k}, [Set(k, [])])]
    ensures s'.oracle == s.oracle.(readers := s.oracle.readers + {At(logical)}, readMark := s.oracle.readMark.Begin(At(logical)))
  {
    var s1 := OpenTxn(s, logical, id);
    var step := Step.Write(id, Set(k, []));
    s' := Do(s1, step);
    ReachNext(s1, step);
    assert {} + {k} == {k} && [] + [Set(k, [])] == [Set(k, [])];
  }

  /** A transaction that reads nothing, writes one key and commits, observing the mark at d. */
  lemma WriterCommits(s: System, logical: nat, id: nat, k: Key, d: nat) returns (s': System)
    requires ReachedLate(s) && id !in s.txns && k != [] && AtMillisecond1000(s, logical) && logical < 8
    requires s.oracle.readMark.Begin(At(logical)).Done(At(logical)).CanAdvance(d)
    ensures ReachedLate(s') && AtMillisecond1000(s', logical + 1)
    ensures s'.history == s.history + [CommitRecord(At(logical + 1), At(logical), [], {k}, [Set(k, [])])]
    ensures s'.txns == s.txns[id := Txn(Stamped, At(logical), [], {k}, [Set(k, [])])]
    ensures s'.oracle.readMark == s.oracle.readMark.Begin(At(logical)).Done(At(logical)).Advance(d)
    ensures s'.oracle.lastCleanup == d
    ensures s'.oracle.committed
         == Cleanup(s.oracle.(readMark := s.oracle.readMark.Advance(d))).committed + [Committed(At(logical + 1), {k})]
  {
    var s1 := OpenWriter(s, logical, id, k);
    s' := CommitAtMillisecond1000(s1, logical, id, d);
  }

  /** Transaction 0 registers at the first timestamp and does not begin on the mark yet. */
  lemma RegisterFirst() returns (s: System)
    ensures ReachedLate(s) && AtMillisecond1000(s, 0) && s.history == []
    ensures s.txns == map[0 := Txn(Registered, At(0), [], {}, [])]
    ensures s.oracle.readMark == Mark(map[], {}, At(0)) && s.oracle.committed == [] && s.oracle.lastCleanup == 0
  {
    ComposeValue(TimeStamp(1000, 0));
    var s0 := System(Oracle(TimeStamp(1000, 0), 5000, {}, Mark(map[], {}, At(0)), 0, []), 1000, map[], At(0), [], []);
    FromSelf(s0);
    assert Init(s0) && ReachedLate(s0);
    s := Do(s0, TakeReadTs(0));
    ReachNext(s0, TakeReadTs(0));
  }

  lemma FirstWriterCommits(k: Key) returns (s: System)
    requires k != []
    ensures ReachedLate(s) && AtMillisecond1000(s, 1)
    ensures s.txns.Keys == {0, 1} && s.txns[0] == Txn(Registered, At(0), [], {}, [])
    ensures s.oracle.readMark == Mark(map[At(0) := 0], {At(0)}, At(0))
    ensures s.oracle.committed == [Committed(At(1), {k})] && s.oracle.lastCleanup == At(0)
    ensures |s.history| == 1 && s.history[0].ts == At(1) && s.history[0].keys == {k}
  {
    var s1 := RegisterFirst();
    s := WriterCommits(s1, 0, 1, k, At(0));
  }

  lemma PruneFirst(k: Key)
    ensures Later([Committed(At(1), {k})], At(1)) == []
  {
    var cs := [Committed(At(1), {k})];
    assert Later(cs[..0], At(1)) == [];
  }

  /** Two writers commit; the second one finds the mark at the first commit and prunes it. */
  lemma TwoWritersCommit(k: Key, other: Key) returns (s: System)
    requires k != [] && other != []
    ensures ReachedLate(s) && AtMillisecond1000(s, 2)
    ensures 0 in s.txns && s.txns[0] == Txn(Registered, At(0), [], {}, [])
    ensures s.oracle.readMark.doneUntil == At(1) && s.oracle.committed == [Committed(At(2), {other})]
    ensures |s.history| == 2 && s.history[0].ts == At(1) && s.history[0].keys == {k}
  {
    var s1 := FirstWriterCommits(k);
    var m := s1.oracle.readMark.Begin(At(1)).Done(At(1));
    assert m.CanAdvance(At(1));
    PruneFirst(k);
    s := WriterCommits(s1, 1, 2, other, At(1));
    assert s.oracle.committed == [] + [Committed(At(2), {other})];
  }

  lemma OpenLate(s: System, t: Txn) returns (s': System)
    requires ReachedLate(s) && 0 in s.txns && s.txns[0] == t && t.phase.Registered?
    ensures ReachedLate(s') && s'.clock == s.clock && s'.history == s.history
    ensures s'.oracle == s.oracle.(readMark := s.oracle.readMark.Begin(t.readTs))
    ensures s'.txns == s.txns[0 := t.(phase := Open)]
  {
    var s1 := Do(s, BeginRead(0));
    ReachNext(s, BeginRead(0));
    s' := Do(s1, WaitSucceeds(0));
    ReachNext(s1, WaitSucceeds(0));
  }

  lemma ReadAndWrite(s: System, t: Txn, k: Key) returns (s': System)
    requires ReachedLate(s) && 0 in s.txns && s.txns[0] == t && t == Txn(Open, At(0), [], {}, []) && k != []
    ensures ReachedLate(s') && s' == WithTxn(s, 0, Txn(Open, At(0), [k], {k}, [Set(k, [])]))
  {
    var s1 := Do(s, Step.Read(0, k));
    ReachNext(s, Step.Read(0, k));
    s' := Do(s1, Step.Write(0, Set(k, [])));
    ReachNext(s1, Step.Write(0, Set(k, [])));
    assert [] + [k] == [k] && {} + {k} == {k} && [] + [Set(k, [])] == [Set(k, [])];
    assert s'.txns == s.txns[0 := Txn(Open, At(0), [k], {k}, [Set(k, [])])];
  }

  /**
   The begin hypothesis is needed. `ReadTs` registers under the lock but begins on the mark after
   releasing it; when two commits fall in between, the second one prunes the first although the
   late transaction still reads below it, and a conflict goes unnoticed.
   */
  lemma LateBeginLosesConflict()
    ensures exists states: seq<System>, steps: seq<Step> ::
              IsLateRun(states, steps) && !Serializable(states[|steps|].history)
  {
    var k, other := [1], [2];
    var s1 := TwoWritersCommit(k, other);
    var s2 := OpenLate(s1, s1.txns[0]);
    var s3 := ReadAndWrite(s2, s2.txns[0], k);
    assert !HasConflict(s3.oracle.committed, At(0), [k]);
    var s' := CommitAtMillisecond1000(s3, 2, 0, At(1));
    var h := s'.history;
    assert h[0] == s1.history[0];
    assert h[2].readTs < h[0].ts < h[2].ts && k in h[2].readSet && k in h[0].keys;
    var s0 :| Init(s0) && ReachedFrom(s0, s');
    var states: seq<System>, steps: seq<Step> :| LatePath(states, steps) && states[0] == s0 && states[|steps|] == s';
    assert IsLateRun(states, steps);
  }
}
