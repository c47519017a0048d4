/**
 Timestamps across leadership changes. A leader persists an upper bound through the log before it
 stamps anything below it; the next leader loads the newest persisted bound and starts above it.
 A leader is told that a proposal succeeded as soon as it has been appended to its log. When the leader is
 deposed, any suffix of the log may be lost, and so is what it has not proposed.
 */
module Leaders {
  import opened Bytes
  import opened Hlc
  import opened Oracle

  /** defaultUpperBoundWindow in milliseconds */
  const WINDOW: nat := 2000

  /** A command in the log: its commit timestamp, and the bound in milliseconds when it writes the persistent key. */
  datatype Entry = Entry(at: nat, record: Option<nat>)

  datatype Stage = Loaded | Started(entry: Entry) | Serving

  /** A window update: the bound has been computed, or its transaction has been stamped. */
  datatype Window = Idle | Computed(bound: nat) | Stamped(entry: Entry)

  /** pending holds the stamped commands that have not been proposed yet. */
  datatype Leader = Leader(current: TimeStamp, saved: nat, clock: nat, stage: Stage, pending: set<Entry>, window: Window)

  datatype Cluster = Cluster(log: seq<Entry>, leader: Option<Leader>)

  datatype Step =
    | Elect(now: nat, applied: nat)
    | StartRecord(now: nat)
    | SaveRecord
    | StampCommand(readings: seq<nat>)
    | ComputeWindow
    | StampWindow(readings: seq<nat>)
    | SaveWindow
    | DropWindow
    | Propose(entry: Entry)
    | Depose(kept: nat)

  /** The record with the newest commit timestamp: what reading the persistent key returns. */
  function Newest(log: seq<Entry>): (r: Option<Entry>)
    ensures r.None? <==> forall e | e in log :: e.record.None?
    ensures r.Some? ==> r.value in log && r.value.record.Some?
    ensures r.Some? ==> forall e | e in log && e.record.Some? :: e.at <= r.value.at
  {
    if log == [] then None
    else
      var init, last := log[..|log| - 1], log[|log| - 1];
      assert forall e :: e in log <==> e in init || e == last;
      var r := Newest(init);
      if last.record.None? then r
      else if r.Some? && last.at < r.value.at then r
      else Some(last)
  }

  /** The bound that reading the persistent key returns. */
  function Persisted(log: seq<Entry>): Option<nat> {
    if Newest(log).None? then None else Newest(log).value.record
  }

  /** StartServing on what has been applied: start at the clock, or just above the persisted bound when the clock is behind it. */
  function Start(log: seq<Entry>, now: nat): Leader {
    match Newest(log)
    case None => Leader(TimeStamp(now, 0), 0, now, Loaded, {}, Idle)
    case Some(e) =>
      var last := e.record.value;
      Leader(TimeStamp(if now <= last then last + 1 else now, 0), last, now, Loaded, {}, Idle)
  }

  /**
   What a new leader has not applied yet lies below its clock, or within the bound it has applied: a bound lets
   timestamps up to the end of its millisecond pass.
   */
  predicate CaughtUp(log: seq<Entry>, applied: nat, now: nat)
    requires applied <= |log|
  {
    forall e | e in log[applied..] ::
      || e.at < now * LOGICAL_RANGE
      || (Newest(log[..applied]).Some? && e.at < (Newest(log[..applied]).value.record.value + 1) * LOGICAL_RANGE)
  }

  /** What an allocation stamps. */
  function Stamp(l: Leader, readings: seq<nat>): TimeStamp
    requires Prepare(l.current, l.saved, readings).Some?
  {
    Prepare(l.current, l.saved, readings).value.Incr()
  }

  predicate CanStamp(l: Leader, readings: seq<nat>) {
    l.stage.Serving? && Nondecreasing(l.clock, readings) && Prepare(l.current, l.saved, readings).Some?
  }

  /** What the code lets happen next. */
  predicate Possible(c: Cluster, step: Step) {
    match step
    case Elect(now, applied) => applied <= |c.log| && Start(c.log[..applied], now).current.physical + WINDOW < PHYSICAL_RANGE
    case Depose(kept) => kept <= |c.log|
    case _ => c.leader.Some? && LeaderCan(c, c.leader.value, step)
  }

  predicate LeaderCan(c: Cluster, l: Leader, step: Step)
    requires !step.Elect? && !step.Depose?
  {
    match step
    case StartRecord(now) => l.stage.Loaded? && l.clock <= now < PHYSICAL_RANGE && l.current.physical <= now
    case SaveRecord => l.stage.Started? && l.stage.entry in c.log && l.stage.entry.record.Some?
    case StampCommand(readings) => CanStamp(l, readings)
    case ComputeWindow => l.stage.Serving? && l.window.Idle? && l.current.physical + WINDOW > l.saved
    case StampWindow(readings) => CanStamp(l, readings) && l.window.Computed?
    case SaveWindow => l.window.Stamped? && l.window.entry in c.log && l.window.entry.record.Some?
    case DropWindow => true
    case Propose(e) => e in l.pending
  }

  /** An allocation does not leave MAX_LOGICAL in an odd millisecond and its overflow wait, if any, ends within the window. */
  predicate StampsSafely(l: Leader, readings: seq<nat>) {
    var p := Prepare(l.current, l.saved, readings);
    p.Some? ==> StampsForward(p.value) && p.value.physical < l.saved
  }

  /** The steps for which timestamps are safe across leaders. */
  predicate Enabled(c: Cluster, step: Step) {
    && Possible(c, step)
    && match step
       case Elect(now, applied) => CaughtUp(c.log, applied, now)
       case StampCommand(readings) => StampsSafely(c.leader.value, readings)
       case StampWindow(readings) => StampsSafely(c.leader.value, readings)
       case _ => true
  }

  function Next(c: Cluster, step: Step): Cluster
    requires Possible(c, step)
  {
    match step
    case Elect(now, applied) => c.(leader := Some(Start(c.log[..applied], now)))
    case Depose(kept) => Cluster(c.log[..kept], None)
    case Propose(e) =>
      var l := c.leader.value;
      Cluster(c.log + [e], Some(l.(pending := l.pending - {e})))
    case _ => c.(leader := Some(LeaderNext(c, c.leader.value, step)))
  }

  function LeaderNext(c: Cluster, l: Leader, step: Step): Leader
    requires !step.Elect? && !step.Depose? && !step.Propose? && LeaderCan(c, l, step)
  {
    match step
    case StartRecord(now) =>
      var e := Entry(l.current.Incr().Compose(), Some(l.current.physical + WINDOW));
      l.(current := l.current.Incr(), clock := now, stage := Started(e), pending := l.pending + {e})
    case SaveRecord =>
      l.(saved := l.stage.entry.record.value, stage := Serving)
    case StampCommand(readings) =>
      var t := Stamp(l, readings);
      l.(current := t, clock := readings[|readings| - 1], pending := l.pending + {Entry(t.Compose(), None)})
    case ComputeWindow =>
      l.(window := Computed(l.current.physical + WINDOW))
    case StampWindow(readings) =>
      var t := Stamp(l, readings);
      var e := Entry(t.Compose(), Some(l.window.bound));
      l.(current := t, clock := readings[|readings| - 1], pending := l.pending + {e}, window := Stamped(e))
    case SaveWindow =>
      l.(saved := l.window.entry.record.value, window := Idle)
    case DropWindow =>
      l.(window := Idle)
  }

  // ---------- The invariant ----------

  /** The composed value of every timestamp an allocation can leave. */
  function Position(t: TimeStamp): nat {
    t.physical * LOGICAL_RANGE + t.logical
  }

  lemma ComposeIsPosition(t: TimeStamp)
    requires WellFormed(t)
    ensures t.Compose() == Position(t)
  {
    if t.logical <= MAX_LOGICAL {
      ComposeValue(t);
    } else {
      ComposeAtOverflow(t);
    }
  }

  ghost predicate HasBound(log: seq<Entry>, ts: nat) {
    exists j :: 0 <= j < |log| && log[j].record.Some? && ts <= log[j].record.value * LOGICAL_RANGE
  }

  /** Entry i is, or follows, a persisted bound that its timestamp does not exceed. */
  ghost predicate CoveredAt(log: seq<Entry>, i: nat)
    requires i < |log|
  {
    exists j :: 0 <= j <= i && log[j].record.Some? && log[i].at <= log[j].record.value * LOGICAL_RANGE
  }

  ghost predicate Covered(log: seq<Entry>) {
    forall i | 0 <= i < |log| :: CoveredAt(log, i)
  }

  ghost predicate DistinctStamps(log: seq<Entry>) {
    forall i, j | 0 <= i < j < |log| :: log[i].at != log[j].at
  }

  /** Newer records carry bounds at least as high. */
  ghost predicate BoundsGrow(es: set<Entry>) {
    forall a, b | a in es && b in es && a.record.Some? && b.record.Some? && a.at < b.at ::
      a.record.value <= b.record.value
  }

  /** A bound lies at most one window ahead of the timestamp it was recorded with. */
  predicate WithinWindow(e: Entry) {
    e.record.Some? ==> e.record.value * LOGICAL_RANGE <= e.at + WINDOW * LOGICAL_RANGE
  }

  ghost function Entries(log: seq<Entry>): set<Entry> {
    set e | e in log
  }

  ghost predicate LogInv(log: seq<Entry>) {
    Covered(log) && DistinctStamps(log) && BoundsGrow(Entries(log))
  }

  /** The bound no record exceeds: the one being written, or the one a window update would compute now. */
  function Ceiling(l: Leader): nat {
    if l.window.Computed? then l.window.bound else l.current.physical + WINDOW
  }

  ghost predicate Known(c: Cluster, l: Leader, e: Entry) {
    e in c.log || e in l.pending
  }

  predicate CoversItself(e: Entry) {
    e.record.Some? && e.at <= e.record.value * LOGICAL_RANGE
  }

  ghost predicate PendingInv(c: Cluster, l: Leader) {
    && (forall e | e in l.pending :: e !in c.log && forall f | Known(c, l, f) && f != e :: f.at != e.at)
    && (forall e | e in l.pending :: CoversItself(e) || HasBound(c.log, e.at))
    && (forall e | e in l.pending :: WithinWindow(e))
    && BoundsGrow(Entries(c.log) + l.pending)
  }

  ghost predicate ClockInv(c: Cluster, l: Leader) {
    && WellFormed(l.current)
    && (forall e | Known(c, l, e) :: e.at <= Position(l.current))
    && match l.stage
       case Loaded =>
         && l.pending == {} && l.window.Idle? && l.current.logical == 0
         && forall e | e in c.log :: e.at < Position(l.current)
       case Started(e) =>
         && l.window.Idle? && e.record.Some? && l.current.physical < e.record.value
         && l.current.physical <= l.clock
       case Serving =>
         && l.saved > 0 && HasBound(c.log, l.saved * LOGICAL_RANGE) && Fenced(l.current, l.saved, l.clock)
  }

  ghost predicate WindowInv(c: Cluster, l: Leader) {
    && (!l.stage.Loaded? ==> forall e | Known(c, l, e) && e.record.Some? :: e.record.value <= Ceiling(l))
    && (l.window.Computed? ==> l.saved < l.window.bound <= l.current.physical + WINDOW)
    && (l.window.Stamped? ==> l.stage.Serving? && l.window.entry.record.Some? && l.window.entry.record.value > l.saved)
    && (l.window.Computed? ==> l.stage.Serving?)
  }

  ghost predicate Inv(c: Cluster) {
    && LogInv(c.log) && (forall e | e in c.log :: WithinWindow(e))
    && (c.leader.Some? ==>
          PendingInv(c, c.leader.value) && ClockInv(c, c.leader.value) && WindowInv(c, c.leader.value))
  }

  // ---------- Electing ----------

  lemma NewestIsHighest(log: seq<Entry>, e: Entry)
    requires LogInv(log) && e in log && e.record.Some?
    ensures Newest(log).Some? && e.record.value <= Newest(log).value.record.value
  {
    var r := Newest(log).value;
    assert e in Entries(log) && r in Entries(log);
    if e.at == r.at {
      var i, j :| 0 <= i < |log| && log[i] == e && 0 <= j < |log| && log[j] == r;
      assert i == j;
    }
  }

  /** A new leader starts strictly above every timestamp and every bound of the log it has applied. */
  lemma NewLeaderStartsAbove(log: seq<Entry>, now: nat)
    requires LogInv(log)
    ensures forall e | e in log :: e.at < Position(Start(log, now).current)
    ensures forall e | e in log && e.record.Some? :: e.record.value < Start(log, now).current.physical
  {
    forall e | e in log ensures e.at < Position(Start(log, now).current) {
      var i :| 0 <= i < |log| && log[i] == e;
      assert CoveredAt(log, i);
      var j :| 0 <= j <= i && log[j].record.Some? && log[i].at <= log[j].record.value * LOGICAL_RANGE;
      NewestIsHighest(log, log[j]);
      assert log[j].record.value < Start(log, now).current.physical;
    }
    forall e | e in log && e.record.Some? ensures e.record.value < Start(log, now).current.physical {
      NewestIsHighest(log, e);
    }
  }

  lemma PrefixKeepsLogInv(log: seq<Entry>, i: nat)
    requires LogInv(log) && i <= |log|
    ensures LogInv(log[..i])
  {
    var head := log[..i];
    forall k | 0 <= k < |head| ensures CoveredAt(head, k) {
      assert CoveredAt(log, k);
      var j :| 0 <= j <= k && log[j].record.Some? && log[k].at <= log[j].record.value * LOGICAL_RANGE;
      assert head[j] == log[j];
    }
    assert Entries(head) <= Entries(log);
  }

  /**
   Exactly when a new leader that has applied only a prefix of the log starts above every timestamp in all of
   it: when what it has not applied lies below its clock or within the bound it has applied.
   */
  lemma StartsAboveExactly(log: seq<Entry>, applied: nat, now: nat)
    requires LogInv(log) && applied <= |log|
    ensures (forall e | e in log :: e.at < Position(Start(log[..applied], now).current)) <==> CaughtUp(log, applied, now)
  {
    PrefixKeepsLogInv(log, applied);
    NewLeaderStartsAbove(log[..applied], now);
    forall e | e in log ensures e in log[..applied] || e in log[applied..] {
      assert log == log[..applied] + log[applied..];
    }
    forall e | e in log[applied..] ensures e in log {
    }
  }

  lemma ElectKeepsInv(c: Cluster, now: nat, applied: nat)
    requires Inv(c) && Enabled(c, Elect(now, applied))
    ensures Inv(Next(c, Elect(now, applied)))
  {
    StartsAboveExactly(c.log, applied, now);
    assert Entries(c.log) + {} == Entries(c.log);
  }

  // ---------- Serving ----------

  lemma StampIsNext(c: Cluster, l: Leader, readings: seq<nat>)
    requires ClockInv(c, l) && CanStamp(l, readings) && StampsSafely(l, readings)
    ensures var t := Stamp(l, readings);
            && Position(l.current) < Position(t) <= l.saved * LOGICAL_RANGE && t.Compose() == Position(t)
            && l.current.physical <= t.physical && WellFormed(t) && Fenced(t, l.saved, readings[|readings| - 1])
  {
    PrepareMovesForward(l.current, l.saved, l.clock, readings);
    PrepareFollowsClock(l.current, l.saved, l.clock, readings);
    StampIncreases(Prepare(l.current, l.saved, readings).value);
    ComposeIsPosition(Stamp(l, readings));
  }

  /** Adding a stamped command with the newest timestamp and a bound no lower than any other. */
  lemma AddPending(c: Cluster, l: Leader, e: Entry)
    requires PendingInv(c, l)
    requires forall f | Known(c, l, f) :: f.at < e.at
    requires (CoversItself(e) || HasBound(c.log, e.at)) && WithinWindow(e)
    requires e.record.Some? ==> forall f | Known(c, l, f) && f.record.Some? :: f.record.value <= e.record.value
    ensures PendingInv(c, l.(pending := l.pending + {e}))
  {
    var es := Entries(c.log) + (l.pending + {e});
    forall a, b | a in es && b in es && a.record.Some? && b.record.Some? && a.at < b.at
      ensures a.record.value <= b.record.value
    {
      assert a == e || Known(c, l, a);
      assert b == e || Known(c, l, b);
      if a != e && b != e {
        assert a in Entries(c.log) + l.pending && b in Entries(c.log) + l.pending;
      }
    }
  }

  lemma LowerBoundToo(log: seq<Entry>, ts: nat, lower: nat)
    requires HasBound(log, ts) && lower <= ts
    ensures HasBound(log, lower)
  {
    var j :| 0 <= j < |log| && log[j].record.Some? && ts <= log[j].record.value * LOGICAL_RANGE;
    assert lower <= log[j].record.value * LOGICAL_RANGE;
  }

  /** A command may be stamped within the window, with the bound of a window update or none. */
  ghost predicate MayStamp(l: Leader, t: TimeStamp, e: Entry, now: nat) {
    && l.stage.Serving? && e.at == Position(t) && WellFormed(t) && Fenced(t, l.saved, now)
    && Position(l.current) < Position(t) <= l.saved * LOGICAL_RANGE && l.current.physical <= t.physical
    && (e.record.Some? ==> l.window.Computed? && e.record.value == l.window.bound)
  }

  lemma StampedKeepsPending(c: Cluster, l: Leader, t: TimeStamp, e: Entry, now: nat)
    requires PendingInv(c, l) && ClockInv(c, l) && WindowInv(c, l) && MayStamp(l, t, e, now)
    ensures PendingInv(c, l.(pending := l.pending + {e}))
  {
    LowerBoundToo(c.log, l.saved * LOGICAL_RANGE, e.at);
    AddPending(c, l, e);
  }

  function AfterStamp(l: Leader, t: TimeStamp, e: Entry, now: nat): Leader {
    l.(current := t, clock := now, pending := l.pending + {e}, window := if e.record.Some? then Stamped(e) else l.window)
  }

  lemma StampedKeepsClock(c: Cluster, l: Leader, t: TimeStamp, e: Entry, now: nat)
    requires ClockInv(c, l) && MayStamp(l, t, e, now)
    ensures ClockInv(c, AfterStamp(l, t, e, now))
  {
    forall f | Known(c, AfterStamp(l, t, e, now), f) ensures f.at <= Position(t) {
      assert Known(c, l, f) || f == e;
    }
  }

  lemma StampedKeepsWindow(c: Cluster, l: Leader, t: TimeStamp, e: Entry, now: nat)
    requires WindowInv(c, l) && MayStamp(l, t, e, now)
    ensures WindowInv(c, AfterStamp(l, t, e, now))
  {
    var l' := AfterStamp(l, t, e, now);
    forall f | Known(c, l', f) && f.record.Some? ensures f.record.value <= Ceiling(l') {
      assert Known(c, l, f) || f == e;
    }
  }

  lemma StampedKeepsInv(c: Cluster, l: Leader, t: TimeStamp, e: Entry, now: nat)
    requires Inv(c) && c.leader == Some(l) && MayStamp(l, t, e, now)
    ensures Inv(c.(leader := Some(AfterStamp(l, t, e, now))))
  {
    StampedKeepsPending(c, l, t, e, now);
    StampedKeepsClock(c, l, t, e, now);
    StampedKeepsWindow(c, l, t, e, now);
    assert PendingInv(c, AfterStamp(l, t, e, now));
  }

  lemma StampKeepsInv(c: Cluster, step: Step)
    requires Inv(c) && Enabled(c, step) && (step.StampCommand? || step.StampWindow?)
    ensures Inv(Next(c, step))
  {
    var l, readings := c.leader.value, step.readings;
    StampIsNext(c, l, readings);
    var t := Stamp(l, readings);
    var e := Entry(Position(t), if step.StampWindow? then Some(l.window.bound) else None);
    StampedKeepsInv(c, l, t, e, readings[|readings| - 1]);
  }

  lemma StartRecordKeepsInv(c: Cluster, now: nat)
    requires Inv(c) && Enabled(c, StartRecord(now))
    ensures Inv(Next(c, StartRecord(now)))
  {
    var l := c.leader.value;
    ComposeIsPosition(l.current.Incr());
    AddPending(c, l, Entry(Position(l.current.Incr()), Some(l.current.physical + WINDOW)));
  }

  lemma SaveKeepsInv(c: Cluster, step: Step)
    requires Inv(c) && Enabled(c, step) && (step.SaveRecord? || step.SaveWindow? || step.ComputeWindow? || step.DropWindow?)
    ensures Inv(Next(c, step))
  {
    var l := c.leader.value;
    if step.SaveRecord? {
      var j :| 0 <= j < |c.log| && c.log[j] == l.stage.entry;
      assert HasBound(c.log, l.stage.entry.record.value * LOGICAL_RANGE);
    } else if step.SaveWindow? {
      var j :| 0 <= j < |c.log| && c.log[j] == l.window.entry;
      assert HasBound(c.log, l.window.entry.record.value * LOGICAL_RANGE);
    }
  }

  lemma HasBoundGrows(log: seq<Entry>, e: Entry, ts: nat)
    requires HasBound(log, ts)
    ensures HasBound(log + [e], ts)
  {
    var j :| 0 <= j < |log| && log[j].record.Some? && ts <= log[j].record.value * LOGICAL_RANGE;
    assert (log + [e])[j] == log[j];
  }

  lemma ProposeKeepsLog(c: Cluster, e: Entry)
    requires Inv(c) && Enabled(c, Propose(e))
    ensures LogInv(c.log + [e])
  {
    var l := c.leader.value;
    var log' := c.log + [e];
    forall i | 0 <= i < |log'| ensures CoveredAt(log', i) {
      if i < |c.log| {
        assert CoveredAt(c.log, i);
        var j :| 0 <= j <= i && c.log[j].record.Some? && c.log[i].at <= c.log[j].record.value * LOGICAL_RANGE;
        assert log'[j] == c.log[j];
      } else if CoversItself(e) {
        assert log'[i] == e;
      } else {
        var j :| 0 <= j < |c.log| && c.log[j].record.Some? && e.at <= c.log[j].record.value * LOGICAL_RANGE;
        assert log'[j] == c.log[j];
      }
    }
    forall i, j | 0 <= i < j < |log'| ensures log'[i].at != log'[j].at {
      if j == |c.log| {
        assert Known(c, l, c.log[i]);
      }
    }
    assert Entries(log') <= Entries(c.log) + l.pending;
  }

  lemma ProposeKeepsInv(c: Cluster, e: Entry)
    requires Inv(c) && Enabled(c, Propose(e))
    ensures Inv(Next(c, Propose(e)))
  {
    ProposeKeepsLog(c, e);
    var l, c' := c.leader.value, Next(c, Propose(e));
    var l' := c'.leader.value;
    assert forall f :: Known(c', l', f) <==> Known(c, l, f);
    assert Entries(c'.log) + l'.pending == Entries(c.log) + l.pending;
    forall ts | HasBound(c.log, ts) ensures HasBound(c'.log, ts) {
      HasBoundGrows(c.log, e, ts);
    }
  }

  lemma StepKeepsInv(c: Cluster, step: Step)
    requires Inv(c) && Enabled(c, step)
    ensures Inv(Next(c, step))
  {
    match step
    case Elect(now, applied) => ElectKeepsInv(c, now, applied);
    case StartRecord(now) => StartRecordKeepsInv(c, now);
    case StampCommand(_) => StampKeepsInv(c, step);
    case StampWindow(_) => StampKeepsInv(c, step);
    case Propose(e) => ProposeKeepsInv(c, e);
    case Depose(kept) => PrefixKeepsLogInv(c.log, kept);
    case _ => SaveKeepsInv(c, step);
  }

  // ---------- Runs ----------

  ghost predicate IsRun(states: seq<Cluster>, steps: seq<Step>) {
    && |states| == |steps| + 1
    && states[0] == Cluster([], None)
    && forall i | 0 <= i < |steps| :: Enabled(states[i], steps[i]) && states[i + 1] == Next(states[i], steps[i])
  }

  lemma {:induction false} RunKeepsInv(states: seq<Cluster>, steps: seq<Step>, n: nat)
    requires IsRun(states, steps) && n <= |steps|
    ensures Inv(states[n])
  {
    if n > 0 {
      RunKeepsInv(states, steps, n - 1);
      StepKeepsInv(states[n - 1], steps[n - 1]);
    }
  }

  /**
   Upper-bound coverage across leaders, over every run: each command in the log is, or follows, a
   persisted bound that its timestamp does not exceed, and no two commands of any leaders share a timestamp.
   */
  lemma BoundsCoverTheLog(states: seq<Cluster>, steps: seq<Step>, n: nat)
    requires IsRun(states, steps) && n <= |steps|
    ensures Covered(states[n].log) && DistinctStamps(states[n].log)
  {
    RunKeepsInv(states, steps, n);
  }

  /**
   Over every run, a leader elected at any point and with any part of the log applied starts strictly above
   every timestamp in the whole log exactly when it has caught up.
   */
  lemma ElectionsStartAboveExactly(states: seq<Cluster>, steps: seq<Step>, n: nat, applied: nat, now: nat)
    requires IsRun(states, steps) && n <= |steps| && Possible(states[n], Elect(now, applied))
    ensures var l := Next(states[n], Elect(now, applied)).leader;
            && l.Some?
            && ((forall e | e in states[n].log :: e.at < l.value.current.Compose()) <==> CaughtUp(states[n].log, applied, now))
            && (applied == |states[n].log| ==> CaughtUp(states[n].log, applied, now))
  {
    RunKeepsInv(states, steps, n);
    StartsAboveExactly(states[n].log, applied, now);
    ComposeIsPosition(Start(states[n].log[..applied], now).current);
  }

  /** A run in which a new leader may not have caught up. */
  ghost predicate IsStaleRun(states: seq<Cluster>, steps: seq<Step>) {
    && |states| == |steps| + 1
    && states[0] == Cluster([], None)
    && forall i | 0 <= i < |steps| :: Possible(states[i], steps[i]) && states[i + 1] == Next(states[i], steps[i])
  }

  ghost predicate ReachedStale(c: Cluster) {
    exists states: seq<Cluster>, steps: seq<Step> :: IsStaleRun(states, steps) && states[|steps|] == c
  }

  lemma StaleNext(c: Cluster, step: Step) returns (c': Cluster)
    requires ReachedStale(c) && Possible(c, step)
    ensures c' == Next(c, step) && ReachedStale(c')
  {
    c' := Next(c, step);
    var states: seq<Cluster>, steps: seq<Step> :| IsStaleRun(states, steps) && states[|steps|] == c;
    assert IsStaleRun(states + [c'], steps + [step]);
  }

  /** A leader elected at millisecond 10 with nothing applied stamps its startup record and proposes it. */
  lemma StartAtTen(c: Cluster, e: Entry) returns (c': Cluster)
    requires ReachedStale(c) && e == Entry(Position(TimeStamp(10, 1)), Some(10 + WINDOW))
    ensures ReachedStale(c') && c'.log == c.log + [e]
  {
    assert c.log[..0] == [];
    ComposeIsPosition(TimeStamp(10, 1));
    var c1 := StaleNext(c, Elect(10, 0));
    assert c1.leader.value == Leader(TimeStamp(10, 0), 0, 10, Loaded, {}, Idle);
    var c2 := StaleNext(c1, StartRecord(10));
    assert e in c2.leader.value.pending;
    c' := StaleNext(c2, Propose(e));
  }

  /**
   Catching up is needed. The oracle is started before the committed entries of the same batch are applied:
   two leaders in succession that both find no bound stamp their startup records with the same timestamp.
   */
  lemma StaleLeadersShareATimestamp()
    ensures exists states: seq<Cluster>, steps: seq<Step> ::
              IsStaleRun(states, steps) && !DistinctStamps(states[|steps|].log)
  {
    var c, none: seq<Step> := Cluster([], None), [];
    assert IsStaleRun([c], none) && [c][|none|] == c;
    var e := Entry(Position(TimeStamp(10, 1)), Some(10 + WINDOW));
    var c1 := StartAtTen(c, e);
    var c2 := StartAtTen(c1, e);
    assert c2.log == [e, e] && c2.log[0].at == c2.log[1].at;
    var states: seq<Cluster>, steps: seq<Step> :| IsStaleRun(states, steps) && states[|steps|] == c2;
  }

  // ---------- What the steps come to ----------

  /**
   A change of leaders: the suffix of the log is gone, and the new leader starts at its clock or just above the
   bound it has applied.
   */
  lemma LeaderTakesOver(c: Cluster, kept: nat, now: nat, applied: nat, start: nat)
    requires applied <= kept <= |c.log| && start + 2000 < PHYSICAL_RANGE
    requires start == match Persisted(c.log[..applied]) case None => now case Some(p) => if now <= p then p + 1 else now
    ensures Possible(c, Depose(kept))
    ensures var c1 := Next(c, Depose(kept));
            && Possible(c1, Elect(now, applied))
            && var c2 := Next(c1, Elect(now, applied));
               && c2.log == c.log[..kept] && c2.leader.Some?
               && var l := c2.leader.value; l.current == TimeStamp(start, 0) && l.clock == now && l.stage.Loaded? && l.pending == {}
  {
    assert Next(c, Depose(kept)).log[..applied] == c.log[..applied];
  }

  /** It serves once its own bound, one window ahead of where it started, is in the log. */
  lemma LeaderStartsServing(c: Cluster, l: Leader, later: nat)
    requires c.leader == Some(l) && l.stage.Loaded? && l.pending == {}
    requires l.clock <= later < PHYSICAL_RANGE && l.current.physical <= later
    ensures Possible(c, StartRecord(later))
    ensures var c1, e := Next(c, StartRecord(later)), Entry(l.current.Incr().Compose(), Some(l.current.physical + 2000));
            && Possible(c1, Propose(e))
            && var c2 := Next(c1, Propose(e));
               && Possible(c2, SaveRecord)
               && Next(c2, SaveRecord)
                  == Cluster(c.log + [e], Some(Leader(l.current.Incr(), l.current.physical + 2000, later, Serving, {}, l.window)))
  {
    var e := Entry(l.current.Incr().Compose(), Some(l.current.physical + 2000));
    assert e in c.log + [e] && {} + {e} == {e} && {e} - {e} == {};
  }

  /**
   A renewal of the window: the bound is one window ahead of the timestamp it was computed at, and counts once it
   is in the log.
   */
  lemma WindowMovesOn(c: Cluster, l: Leader, readings: seq<nat>)
    requires c.leader == Some(l) && l.window.Idle? && l.current.physical + 2000 > l.saved && CanStamp(l, readings)
    requires Entry(Stamp(l, readings).Compose(), Some(l.current.physical + 2000)) !in l.pending
    ensures Possible(c, ComputeWindow)
    ensures var c1, t := Next(c, ComputeWindow), Stamp(l, readings);
            && Possible(c1, StampWindow(readings))
            && var c2, e := Next(c1, StampWindow(readings)), Entry(t.Compose(), Some(l.current.physical + 2000));
               && Possible(c2, Propose(e))
               && var c3 := Next(c2, Propose(e));
                  && Possible(c3, SaveWindow)
                  && Next(c3, SaveWindow)
                     == Cluster(c.log + [e],
                                Some(l.(current := t, clock := readings[|readings| - 1], saved := l.current.physical + 2000)))
  {
    var e := Entry(Stamp(l, readings).Compose(), Some(l.current.physical + 2000));
    assert e in c.log + [e] && l.pending + {e} - {e} == l.pending;
  }

  /** A command is stamped and proposed. */
  lemma CommandReachesLog(c: Cluster, l: Leader, readings: seq<nat>)
    requires c.leader == Some(l) && CanStamp(l, readings) && Entry(Stamp(l, readings).Compose(), None) !in l.pending
    ensures Possible(c, StampCommand(readings))
    ensures var c1, t := Next(c, StampCommand(readings)), Stamp(l, readings);
            && Possible(c1, Propose(Entry(t.Compose(), None)))
            && Next(c1, Propose(Entry(t.Compose(), None)))
               == Cluster(c.log + [Entry(t.Compose(), None)], Some(l.(current := t, clock := readings[|readings| - 1])))
  {
    var e := Entry(Stamp(l, readings).Compose(), None);
    assert l.pending + {e} - {e} == l.pending;
  }
}
