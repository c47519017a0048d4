/**
 When the multi-version execution of a log is a serial one: replaying the entries one after the
 other on a plain map, in commit-timestamp order, gives the same state and the same reads.
 */
module Serial {
  import opened Bytes
  import opened Commands
  import opened Mvcc
  import opened Numbers
  import opened Replay

  /** The operation's outcome depends on the value it finds at k. */
  predicate ObservesSub(sub: Sub, k: Key) {
    (sub.IncrBy? || sub.DecrBy? || sub.Update?) && sub.key == k
  }

  predicate Observes(cmd: Command, k: Key) {
    match cmd
    case Single(_, _, DeleteByPrefix(prefix)) => HasPrefix(k, prefix)
    case Single(_, _, sub) => ObservesSub(sub, k)
    case Transaction(_, _, subs) => exists sub :: sub in subs && ObservesSub(sub, k)
  }

  /** Some operation of the entry is a keyed one on k. */
  predicate HasOpOn(cmd: Command, k: Key) {
    match cmd
    case Single(_, _, sub) => HasKey(sub) && sub.key == k
    case Transaction(_, _, subs) => exists sub :: sub in subs && HasKey(sub) && sub.key == k
  }

  /** Entry i of a log writes k: a prefix deletion writes the keys it finds alive. */
  ghost predicate Writes(m: Merge, s0: Store, log: seq<Command>, i: nat, k: Key)
    requires i < |log|
  {
    var e := Effect(m, ApplyLog(m, s0, log[..i]), log[i]);
    e.Ok? && k in e.value
  }

  function Without(st: map<Key, Value>, prefix: Key): map<Key, Value> {
    map k | k in st && !HasPrefix(k, prefix) :: st[k]
  }

  /** One entry on a plain map, all at once; a refused entry does nothing. */
  function Run(m: Merge, st: map<Key, Value>, cmd: Command): map<Key, Value> {
    match cmd
    case Single(_, _, DeleteByPrefix(prefix)) => Without(st, prefix)
    case Single(_, _, sub) => var r := Meaning(m, st, sub); if r.Ok? then r.value else st
    case Transaction(_, _, subs) => var r := MeaningAll(m, st, subs); if r.Ok? then r.value else st
  }

  function RunLog(m: Merge, st: map<Key, Value>, log: seq<Command>): map<Key, Value> {
    if log == [] then st else Run(m, RunLog(m, st, log[..|log| - 1]), log[|log| - 1])
  }

  /** Commit timestamps increase along the log and lie above the read timestamps. */
  ghost predicate Ordered(log: seq<Command>) {
    && (forall i, j | 0 <= i < j < |log| :: log[i].commitTs < log[j].commitTs)
    && (forall i | 0 <= i < |log| :: log[i].readTs < log[i].commitTs)
  }

  /** No entry between entry i's two timestamps writes k. */
  ghost predicate QuietFor(m: Merge, s0: Store, log: seq<Command>, i: nat, k: Key)
    requires i < |log|
  {
    forall j | 0 <= j < |log| && log[i].readTs < log[j].commitTs < log[i].commitTs :: !Writes(m, s0, log, j, k)
  }

  ghost predicate Quiet(m: Merge, s0: Store, log: seq<Command>) {
    forall i, k | 0 <= i < |log| && Observes(log[i], k) :: QuietFor(m, s0, log, i, k)
  }

  // ---------- Who writes what ----------

  lemma {:induction false} SubsWrite(m: Merge, s: Store, t: nat, subs: seq<Sub>, k: Key)
    requires ApplySubs(m, s, t, subs).Ok? && k in ApplySubs(m, s, t, subs).value
    ensures exists sub :: sub in subs && HasKey(sub) && sub.key == k
  {
    var init, last := subs[..|subs| - 1], subs[|subs| - 1];
    if last.key == k {
      assert last in subs;
    } else {
      SubsWrite(m, s, t, init, k);
      var sub :| sub in init && HasKey(sub) && sub.key == k;
      assert sub in subs;
    }
  }

  lemma EffectWrites(m: Merge, s: Store, cmd: Command, k: Key)
    requires Effect(m, s, cmd).Ok? && k in Effect(m, s, cmd).value
    requires cmd.Single? ==> !cmd.sub.DeleteByPrefix?
    ensures HasOpOn(cmd, k)
  {
    if cmd.Transaction? {
      SubsWrite(m, s, cmd.readTs, cmd.subs, k);
    }
  }

  /** Every version that was not in the store before was written by the entry with that commit timestamp. */
  lemma {:induction false} VersionHasWriter(m: Merge, s0: Store, log: seq<Command>, k: Key, t: nat)
    requires (k, t) in ApplyLog(m, s0, log) && (k, t) !in s0
    ensures exists j :: 0 <= j < |log| && log[j].commitTs == t && Writes(m, s0, log, j, k)
  {
    var n := |log| - 1;
    if (k, t) in ApplyLog(m, s0, log[..n]) {
      VersionHasWriter(m, s0, log[..n], k, t);
      var j :| 0 <= j < n && log[..n][j].commitTs == t && Writes(m, s0, log[..n], j, k);
      WritesInPrefix(m, s0, log, n, j, k);
    } else {
      assert Writes(m, s0, log, n, k);
    }
  }

  lemma WritesInPrefix(m: Merge, s0: Store, log: seq<Command>, n: nat, j: nat, k: Key)
    requires j < n <= |log|
    ensures Writes(m, s0, log[..n], j, k) <==> Writes(m, s0, log, j, k)
  {
    assert log[..n][..j] == log[..j];
  }

  // ---------- Effects at two timestamps ----------

  lemma {:induction false} SubsSameReads(m: Merge, s: Store, t: nat, u: nat, subs: seq<Sub>)
    requires forall sub, k | sub in subs && ObservesSub(sub, k) :: ReadAt(s, k, t) == ReadAt(s, k, u)
    ensures ApplySubs(m, s, t, subs) == ApplySubs(m, s, u, subs)
  {
    if subs != [] {
      var init, last := subs[..|subs| - 1], subs[|subs| - 1];
      SubsSameReads(m, s, t, u, init);
      if HasKey(last) && ObservesSub(last, last.key) {
        assert last in subs;
      }
    }
  }

  lemma EffectSameReads(m: Merge, s: Store, cmd: Command, u: nat)
    requires forall k | Observes(cmd, k) :: ReadAt(s, k, cmd.readTs) == ReadAt(s, k, u)
    ensures Effect(m, s, cmd) == Effect(m, s, cmd.(readTs := u))
  {
    if cmd.Transaction? {
      SubsSameReads(m, s, cmd.readTs, u, cmd.subs);
    } else if cmd.sub.DeleteByPrefix? {
      assert LiveKeys(s, cmd.readTs, cmd.sub.prefix) == LiveKeys(s, u, cmd.sub.prefix);
    } else if cmd.sub.IncrBy? || cmd.sub.DecrBy? || cmd.sub.Update? {
      assert Observes(cmd, cmd.sub.key);
    }
  }

  /** A commit on top of everything else shows the overlay it was computed on. */
  lemma CommitShowsOverlay(s: Store, t: nat, p: Pending)
    requires forall kt | kt in s :: kt.1 <= t
    ensures Snapshot(CommitAt(s, t + 1, p), t + 1) == Overlaid(s, t, p)
  {
    var s' := CommitAt(s, t + 1, p);
    forall k ensures Lookup(Snapshot(s', t + 1), k) == Lookup(Overlaid(s, t, p), k) {
      SnapshotReads(s', t + 1, k);
      OverlaidReads(s, t, p, k);
      if k !in p {
        ReadAtAgrees(s, s', k, t);
      }
    }
    SameLookups(Snapshot(s', t + 1), Overlaid(s, t, p));
  }

  lemma OverlaidPrefixDelete(s: Store, t: nat, prefix: Key)
    ensures Overlaid(s, t, map k | k in LiveKeys(s, t, prefix) :: None)
         == Without(Snapshot(s, t), prefix)
  {
    var p: Pending := map k | k in LiveKeys(s, t, prefix) :: None;
    var rest := Without(Snapshot(s, t), prefix);
    forall k ensures Lookup(Overlaid(s, t, p), k) == Lookup(rest, k) {
      OverlaidReads(s, t, p, k);
      SnapshotReads(s, t, k);
    }
    SameLookups(Overlaid(s, t, p), rest);
  }

  /** An entry's effect, laid over the snapshot it reads, is its run on that snapshot. */
  lemma EffectIsRun(m: Merge, s: Store, cmd: Command)
    ensures var e, t := Effect(m, s, cmd), cmd.readTs;
            Run(m, Snapshot(s, t), cmd) == if e.Ok? then Overlaid(s, t, e.value) else Snapshot(s, t)
  {
    var t := cmd.readTs;
    if cmd.Transaction? {
      OverlayIsFold(m, s, t, cmd.subs);
    } else if cmd.sub.DeleteByPrefix? {
      OverlaidPrefixDelete(s, t, cmd.sub.prefix);
    } else {
      assert Overlaid(s, t, map[]) == Snapshot(s, t);
      OverlaidByOne(m, s, t, map[], cmd.sub);
    }
  }

  /** An entry that reads the latest state and commits right above it does what it would do alone. */
  lemma ApplyOnLatest(m: Merge, s: Store, cmd: Command)
    requires forall kt | kt in s :: kt.1 <= cmd.readTs
    requires cmd.commitTs == cmd.readTs + 1
    ensures Snapshot(Apply(m, s, cmd), cmd.commitTs) == Run(m, Snapshot(s, cmd.readTs), cmd)
  {
    var e := Effect(m, s, cmd);
    EffectIsRun(m, s, cmd);
    if e.Ok? {
      CommitShowsOverlay(s, cmd.readTs, e.value);
    } else {
      SnapshotStable(s, cmd.readTs, cmd.commitTs);
    }
  }

  lemma SnapshotStable(s: Store, t: nat, u: nat)
    requires t <= u && forall kt | kt in s :: kt.1 <= t
    ensures Snapshot(s, u) == Snapshot(s, t)
  {
    forall k ensures Lookup(Snapshot(s, u), k) == Lookup(Snapshot(s, t), k) {
      SnapshotReads(s, t, k);
      SnapshotReads(s, u, k);
      ReadAtStable(s, k, t, u);
    }
    SameLookups(Snapshot(s, u), Snapshot(s, t));
  }

  // ---------- The log ----------

  /** The store a log starts from has nothing above a base that no entry reads below. */
  ghost predicate StartsFrom(s0: Store, base: nat, log: seq<Command>) {
    (forall kt | kt in s0 :: kt.1 <= base) && forall i | 0 <= i < |log| :: base <= log[i].readTs
  }

  function LastCommit(base: nat, log: seq<Command>): nat {
    if log == [] then base else log[|log| - 1].commitTs
  }

  lemma VersionsUpToLast(m: Merge, s0: Store, base: nat, log: seq<Command>)
    requires Ordered(log) && StartsFrom(s0, base, log)
    ensures forall kt | kt in ApplyLog(m, s0, log) :: kt.1 <= LastCommit(base, log)
  {
    forall kt | kt in ApplyLog(m, s0, log) ensures kt.1 <= LastCommit(base, log) {
      if kt in s0 {
        assert log != [] ==> base <= log[|log| - 1].readTs;
      } else {
        AddedVersions(m, s0, log, kt);
        var j :| 0 <= j < |log| && log[j].commitTs == kt.1;
        assert j < |log| - 1 ==> log[j].commitTs < log[|log| - 1].commitTs;
      }
    }
  }

  lemma NothingInBetween(m: Merge, s0: Store, base: nat, log: seq<Command>, i: nat, k: Key, t: nat)
    requires StartsFrom(s0, base, log) && i < |log| && QuietFor(m, s0, log, i, k) && log[i].readTs < t < log[i].commitTs
    ensures (k, t) !in ApplyLog(m, s0, log[..i])
  {
    if (k, t) in ApplyLog(m, s0, log[..i]) {
      VersionHasWriter(m, s0, log[..i], k, t);
      var j :| 0 <= j < i && log[..i][j].commitTs == t && Writes(m, s0, log[..i], j, k);
      WritesInPrefix(m, s0, log, i, j, k);
      assert false;
    }
  }

  /** For a key nobody writes in between, the snapshot at the read timestamp is the state just before the commit. */
  lemma QuietReads(m: Merge, s0: Store, base: nat, log: seq<Command>, i: nat, k: Key)
    requires Ordered(log) && StartsFrom(s0, base, log) && i < |log| && QuietFor(m, s0, log, i, k)
    ensures ReadAt(ApplyLog(m, s0, log[..i]), k, log[i].readTs)
         == ReadAt(ApplyLog(m, s0, log[..i]), k, log[i].commitTs - 1)
  {
    var s := ApplyLog(m, s0, log[..i]);
    forall t: nat | log[i].readTs < t <= log[i].commitTs - 1 ensures (k, t) !in s {
      NothingInBetween(m, s0, base, log, i, k, t);
    }
    ReadAtStable(s, k, log[i].readTs, log[i].commitTs - 1);
  }

  lemma OrderedPrefix(log: seq<Command>, i: nat)
    requires Ordered(log) && i <= |log|
    ensures Ordered(log[..i])
    ensures forall s0, base | StartsFrom(s0, base, log) ::
              StartsFrom(s0, base, log[..i]) && (i < |log| ==> LastCommit(base, log[..i]) <= log[i].commitTs - 1)
  {
  }

  lemma QuietPrefix(m: Merge, s0: Store, log: seq<Command>)
    requires log != [] && Quiet(m, s0, log)
    ensures Quiet(m, s0, log[..|log| - 1])
  {
    var init := log[..|log| - 1];
    forall i, k | 0 <= i < |init| && Observes(init[i], k) ensures QuietFor(m, s0, init, i, k) {
      assert Observes(log[i], k) && QuietFor(m, s0, log, i, k);
      forall j | 0 <= j < |init| && init[i].readTs < init[j].commitTs < init[i].commitTs ensures !Writes(m, s0, init, j, k) {
        WritesInPrefix(m, s0, log, |init|, j, k);
      }
    }
  }

  lemma RunIgnoresReadTs(m: Merge, st: map<Key, Value>, cmd: Command, t: nat)
    ensures Run(m, st, cmd.(readTs := t)) == Run(m, st, cmd)
  {
  }

  /** The last entry of a quiet log does to the state before it what it would do alone. */
  lemma LastEntryIsSerial(m: Merge, s0: Store, base: nat, log: seq<Command>, s: Store)
    requires log != [] && Ordered(log) && StartsFrom(s0, base, log) && Quiet(m, s0, log) && s == ApplyLog(m, s0, log[..|log| - 1])
    ensures Snapshot(Apply(m, s, log[|log| - 1]), LastCommit(base, log))
         == Run(m, Snapshot(s, LastCommit(base, log[..|log| - 1])), log[|log| - 1])
  {
    var n := |log| - 1;
    var init, e := log[..n], log[n];
    var t := e.commitTs - 1;
    OrderedPrefix(log, n);
    VersionsUpToLast(m, s0, base, init);
    SnapshotStable(s, LastCommit(base, init), t);
    forall k | Observes(e, k) ensures ReadAt(s, k, e.readTs) == ReadAt(s, k, t) {
      QuietReads(m, s0, base, log, n, k);
    }
    EffectSameReads(m, s, e, t);
    ApplyOnLatest(m, s, e.(readTs := t));
    RunIgnoresReadTs(m, Snapshot(s, t), e, t);
  }

  /**
   Serial equivalence: when no entry writes, between another entry's timestamps, a key whose value
   that entry depends on, the multi-version state is the one of running the entries one by one.
   */
  lemma {:induction false} MvccIsSerial(m: Merge, s0: Store, base: nat, log: seq<Command>)
    requires Ordered(log) && StartsFrom(s0, base, log) && Quiet(m, s0, log)
    ensures Snapshot(ApplyLog(m, s0, log), LastCommit(base, log)) == RunLog(m, Snapshot(s0, base), log)
  {
    if log != [] {
      var init := log[..|log| - 1];
      OrderedPrefix(log, |log| - 1);
      QuietPrefix(m, s0, log);
      MvccIsSerial(m, s0, base, init);
      LastEntryIsSerial(m, s0, base, log, ApplyLog(m, s0, init));
    }
  }

  /** In a quiet log, the state just before an entry's commit is the one of the serial execution so far. */
  lemma StateBeforeIsSerial(m: Merge, s0: Store, base: nat, log: seq<Command>, i: nat, k: Key)
    requires Ordered(log) && StartsFrom(s0, base, log) && Quiet(m, s0, log) && i < |log|
    ensures log[i].commitTs > 0
    ensures ReadAt(ApplyLog(m, s0, log[..i]), k, log[i].commitTs - 1) == Lookup(RunLog(m, Snapshot(s0, base), log[..i]), k)
  {
    var s := ApplyLog(m, s0, log[..i]);
    OrderedPrefix(log, i);
    VersionsUpToLast(m, s0, base, log[..i]);
    SnapshotStable(s, LastCommit(base, log[..i]), log[i].commitTs - 1);
    SnapshotReads(s, log[i].commitTs - 1, k);
    QuietUpTo(m, s0, log, i);
    MvccIsSerial(m, s0, base, log[..i]);
  }

  /** What a client read at the read timestamp is what the serial execution holds when the entry's turn comes. */
  lemma ClientReadsAreSerial(m: Merge, s0: Store, base: nat, log: seq<Command>, i: nat, k: Key)
    requires Ordered(log) && StartsFrom(s0, base, log) && Quiet(m, s0, log) && i < |log| && QuietFor(m, s0, log, i, k)
    ensures ReadAt(ApplyLog(m, s0, log), k, log[i].readTs) == Lookup(RunLog(m, Snapshot(s0, base), log[..i]), k)
  {
    ReadBelowSuffix(m, s0, base, log, i, k);
    QuietReads(m, s0, base, log, i, k);
    StateBeforeIsSerial(m, s0, base, log, i, k);
  }

  lemma StampedIfOrdered(log: seq<Command>)
    requires Ordered(log)
    ensures Stamped(log)
  {
    forall i, j | 0 <= i < j < |log| ensures log[i].commitTs != log[j].commitTs && log[i].readTs < log[j].commitTs {
      assert log[i].commitTs < log[j].commitTs;
    }
  }

  lemma UntouchedByOld(s0: Store, base: nat, log: seq<Command>)
    requires Ordered(log) && StartsFrom(s0, base, log)
    ensures Untouched(s0, log)
  {
    forall kt, i | kt in s0 && 0 <= i < |log| ensures kt.1 != log[i].commitTs {
      assert base <= log[i].readTs < log[i].commitTs;
    }
  }

  lemma {:induction false} QuietUpTo(m: Merge, s0: Store, log: seq<Command>, i: nat)
    requires Quiet(m, s0, log) && i <= |log|
    ensures Quiet(m, s0, log[..i])
    decreases |log|
  {
    if i < |log| {
      QuietPrefix(m, s0, log);
      QuietUpTo(m, s0, log[..|log| - 1], i);
      assert log[..|log| - 1][..i] == log[..i];
    } else {
      assert log[..i] == log;
    }
  }

  /** Entries from i on do not change what entry i's snapshot shows. */
  lemma ReadBelowSuffix(m: Merge, s0: Store, base: nat, log: seq<Command>, i: nat, k: Key)
    requires Ordered(log) && StartsFrom(s0, base, log) && i < |log|
    ensures ReadAt(ApplyLog(m, s0, log), k, log[i].readTs) == ReadAt(ApplyLog(m, s0, log[..i]), k, log[i].readTs)
  {
    var si, full := ApplyLog(m, s0, log[..i]), ApplyLog(m, s0, log);
    StampedIfOrdered(log);
    UntouchedByOld(s0, base, log);
    PrefixWithinFull(m, s0, log, i);
    ApplyLogConcat(m, s0, log[..i], log[i..]);
    assert log[..i] + log[i..] == log;
    forall t: nat | t <= log[i].readTs ensures (k, t) in full ==> (k, t) in si {
      if (k, t) in full && (k, t) !in si {
        SuffixAddsAbove(m, si, log, i, (k, t));
      }
    }
    ReadAtAgrees(si, full, k, log[i].readTs);
  }

  lemma SuffixAddsAbove(m: Merge, si: Store, log: seq<Command>, i: nat, kt: (Key, nat))
    requires Ordered(log) && i < |log| && kt in ApplyLog(m, si, log[i..]) && kt !in si
    ensures kt.1 > log[i].readTs
  {
    AddedVersions(m, si, log[i..], kt);
    var j :| 0 <= j < |log[i..]| && log[i..][j].commitTs == kt.1;
    assert log[i..][j] == log[i + j];
    assert j > 0 ==> log[i].commitTs < log[i + j].commitTs;
  }

  lemma SingleWrites(m: Merge, s: Store, t: nat, c: nat, sub: Sub)
    requires Outright(sub).None? && NewValue(m, ReadAt(s, sub.key, t), sub).Ok?
    ensures Apply(m, s, Single(t, c, sub))
         == CommitAt(s, c, map[][sub.key := NewValue(m, ReadAt(s, sub.key, t), sub).value])
  {
  }

  lemma OneWriteDecides(s: Store, k: Key, c: nat, v: Option<Value>, w: Option<Value>)
    ensures CommitAt(s, c, map[][k := v]) == CommitAt(s, c, map[][k := w]) <==> v == w
  {
    assert CommitAt(s, c, map[][k := v])[(k, c)] == v;
    assert CommitAt(s, c, map[][k := w])[(k, c)] == w;
  }

  /** An operation does the same at two read timestamps exactly when it makes the same of the two values it finds. */
  lemma OutcomesDecide(m: Merge, s: Store, t: nat, u: nat, c: nat, sub: Sub)
    requires Outright(sub).None? && NewValue(m, ReadAt(s, sub.key, t), sub).Ok? && NewValue(m, ReadAt(s, sub.key, u), sub).Ok?
    ensures Apply(m, s, Single(t, c, sub)) == Apply(m, s, Single(u, c, sub))
       <==> NewValue(m, ReadAt(s, sub.key, t), sub) == NewValue(m, ReadAt(s, sub.key, u), sub)
  {
    SingleWrites(m, s, t, c, sub);
    SingleWrites(m, s, u, c, sub);
    OneWriteDecides(s, sub.key, c, NewValue(m, ReadAt(s, sub.key, t), sub).value, NewValue(m, ReadAt(s, sub.key, u), sub).value);
  }

  /**
   An increment reads the counter at its read timestamp. It adds to the latest count exactly when the count
   has not changed since, a missing counter being zero: a concurrent increment in between is lost.
   */
  lemma IncrementSerialExactly(m: Merge, s: Store, k: Key, t: nat, c: nat, amount: nat)
    requires k != [] && t < c && amount < TWO_64
    requires ReadAt(s, k, t).Some? ==> |ReadAt(s, k, t).value| >= 8
    requires ReadAt(s, k, c - 1).Some? ==> |ReadAt(s, k, c - 1).value| >= 8
    ensures Apply(m, s, Single(t, c, IncrBy(k, amount))) == Apply(m, s, Single(c - 1, c, IncrBy(k, amount)))
       <==> CountIn(ReadAt(s, k, t)) == CountIn(ReadAt(s, k, c - 1))
  {
    var sub := IncrBy(k, amount);
    OnlyTheCountMatters(m, k, ReadAt(s, k, t), ReadAt(s, k, c - 1), amount);
    OutcomesDecide(m, s, t, c - 1, c, sub);
  }

  function Tombstones(live: set<Key>): Pending {
    map k | k in live :: None
  }

  lemma PrefixDeletionWrites(m: Merge, s: Store, prefix: Key, t: nat, c: nat, live: set<Key>)
    requires live == LiveKeys(s, t, prefix)
    ensures Apply(m, s, Single(t, c, DeleteByPrefix(prefix))) == CommitAt(s, c, Tombstones(live))
  {
  }

  /** After a prefix deletion a reader misses what was alive at its read timestamp and sees the rest as it was. */
  lemma ReadAfterPrefixDeletion(m: Merge, s: Store, prefix: Key, t: nat, c: nat, k: Key)
    requires t < c && forall kt | kt in s :: kt.1 < c
    ensures ReadAt(Apply(m, s, Single(t, c, DeleteByPrefix(prefix))), k, c)
         == if k in LiveKeys(s, t, prefix) then None else ReadAt(s, k, c - 1)
  {
    var live := LiveKeys(s, t, prefix);
    PrefixDeletionWrites(m, s, prefix, t, c, live);
    ReadTombstones(s, live, c, k);
  }

  lemma ReadTombstones(s: Store, live: set<Key>, c: nat, k: Key)
    requires c > 0 && forall kt | kt in s :: kt.1 < c
    ensures ReadAt(CommitAt(s, c, Tombstones(live)), k, c) == if k in live then None else ReadAt(s, k, c - 1)
  {
    var s' := CommitAt(s, c, Tombstones(live));
    if k !in live {
      assert (k, c) !in s';
      ReadAtAgrees(s, s', k, c - 1);
    }
  }

  lemma AliveIsLive(s: Store, t: nat, prefix: Key, k: Key)
    ensures k in LiveKeys(s, t, prefix) <==> HasPrefix(k, prefix) && ReadAt(s, k, t).Some?
  {
    SnapshotReads(s, t, k);
  }

  /**
   A prefix deletion leaves nothing under the prefix for a reader exactly when every key that is alive when its
   turn comes was already alive at its read timestamp: keys may have gone in between, but none may have come.
   */
  lemma PrefixDeletionClearsExactly(m: Merge, s: Store, prefix: Key, t: nat, c: nat)
    requires t < c && forall kt | kt in s :: kt.1 < c
    ensures (forall k | HasPrefix(k, prefix) :: ReadAt(Apply(m, s, Single(t, c, DeleteByPrefix(prefix))), k, c).None?)
       <==> LiveKeys(s, c - 1, prefix) <= LiveKeys(s, t, prefix)
  {
    var s' := Apply(m, s, Single(t, c, DeleteByPrefix(prefix)));
    forall k ensures ReadAt(s', k, c) == if k in LiveKeys(s, t, prefix) then None else ReadAt(s, k, c - 1) {
      ReadAfterPrefixDeletion(m, s, prefix, t, c, k);
    }
    forall k ensures k in LiveKeys(s, c - 1, prefix) <==> HasPrefix(k, prefix) && ReadAt(s, k, c - 1).Some? {
      AliveIsLive(s, c - 1, prefix, k);
    }
  }

  /** A store reads as another one just before c, without some keys. */
  ghost predicate ReadsWithout(a: Store, s: Store, gone: set<Key>, c: nat)
    requires c > 0
  {
    forall k :: ReadAt(a, k, c) == if k in gone then None else ReadAt(s, k, c - 1)
  }

  lemma DeletionReads(m: Merge, s: Store, prefix: Key, t: nat, c: nat)
    requires t < c && forall kt | kt in s :: kt.1 < c
    ensures ReadsWithout(Apply(m, s, Single(t, c, DeleteByPrefix(prefix))), s, LiveKeys(s, t, prefix), c)
  {
    forall k ensures ReadAt(Apply(m, s, Single(t, c, DeleteByPrefix(prefix))), k, c)
                  == if k in LiveKeys(s, t, prefix) then None else ReadAt(s, k, c - 1)
    {
      ReadAfterPrefixDeletion(m, s, prefix, t, c, k);
    }
  }

  lemma WithoutAt(a: Store, s: Store, prefix: Key, t: nat, c: nat, k: Key)
    requires t < c && ReadsWithout(a, s, LiveKeys(s, t, prefix), c)
    ensures Lookup(Snapshot(a, c), k) == Lookup(Without(Snapshot(s, c - 1), prefix), k)
       <==> (k in LiveKeys(s, c - 1, prefix) ==> k in LiveKeys(s, t, prefix))
  {
    SnapshotReads(a, c, k);
    SnapshotReads(s, c - 1, k);
    AliveIsLive(s, c - 1, prefix, k);
    AliveIsLive(s, t, prefix, k);
  }

  lemma WithoutExactly(a: Store, s: Store, prefix: Key, t: nat, c: nat)
    requires t < c && ReadsWithout(a, s, LiveKeys(s, t, prefix), c)
    ensures Snapshot(a, c) == Without(Snapshot(s, c - 1), prefix) <==> LiveKeys(s, c - 1, prefix) <= LiveKeys(s, t, prefix)
  {
    var sa, sb := Snapshot(a, c), Without(Snapshot(s, c - 1), prefix);
    var lower, upper := LiveKeys(s, c - 1, prefix), LiveKeys(s, t, prefix);
    forall k ensures Lookup(sa, k) == Lookup(sb, k) <==> (k in lower ==> k in upper) {
      WithoutAt(a, s, prefix, t, c, k);
    }
    if lower <= upper {
      SameLookups(sa, sb);
    }
  }

  /** Under the same condition, and no other, a reader sees what the serial execution leaves. */
  lemma PrefixDeletionSerialExactly(m: Merge, s: Store, prefix: Key, t: nat, c: nat)
    requires t < c && forall kt | kt in s :: kt.1 < c
    ensures var cmd := Single(t, c, DeleteByPrefix(prefix));
            Snapshot(Apply(m, s, cmd), c) == Run(m, Snapshot(s, c - 1), cmd)
            <==> LiveKeys(s, c - 1, prefix) <= LiveKeys(s, t, prefix)
  {
    var cmd := Single(t, c, DeleteByPrefix(prefix));
    DeletionReads(m, s, prefix, t, c);
    WithoutExactly(Apply(m, s, cmd), s, prefix, t, c);
    assert Run(m, Snapshot(s, c - 1), cmd) == Without(Snapshot(s, c - 1), prefix);
  }
}
