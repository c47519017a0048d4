/**
 Re-applying log entries. A restart resumes from an old applied index although the store already
 holds later entries, and a snapshot taken while entries are being applied may hold parts of
 entries beyond its index; in both cases the suffix of the log is applied to a store ahead of it.
 */
module Replay {
  import opened Bytes
  import opened Commands
  import opened Mvcc

  /** Every version of the first store is in the second, with the same value. */
  ghost predicate Within(a: Store, b: Store) {
    forall kt | kt in a :: kt in b && b[kt] == a[kt]
  }

  /** A plain Set reads nothing; the startup record commits at its own read timestamp. */
  predicate Blind(cmd: Command) {
    cmd.Single? && cmd.sub.Set?
  }

  /** Commit timestamps are distinct and lie above the read timestamps of the entry and of all earlier ones. */
  ghost predicate Stamped(log: seq<Command>) {
    && (forall i, j | 0 <= i < j < |log| :: log[i].commitTs != log[j].commitTs && log[i].readTs < log[j].commitTs)
    && (forall i | 0 <= i < |log| :: log[i].readTs < log[i].commitTs || Blind(log[i]))
  }

  /** No version of the store carries a commit timestamp of the log. */
  ghost predicate Untouched(s: Store, log: seq<Command>) {
    forall kt, i | kt in s && 0 <= i < |log| :: kt.1 != log[i].commitTs
  }

  ghost predicate AgreeUpTo(s: Store, s': Store, t: nat) {
    forall kt: (Key, nat) | kt.1 <= t :: (kt in s <==> kt in s') && (kt in s ==> s'[kt] == s[kt])
  }

  lemma AgreeingReads(s: Store, s': Store, t: nat, k: Key)
    requires AgreeUpTo(s, s', t)
    ensures ReadAt(s, k, t) == ReadAt(s', k, t)
  {
    forall u: nat | u <= t ensures ((k, u) in s <==> (k, u) in s') && ((k, u) in s ==> s'[(k, u)] == s[(k, u)]) {
      assert (k, u).1 <= t;
    }
    ReadAtAgrees(s, s', k, t);
  }

  lemma {:induction false} AgreeingSubs(m: Merge, s: Store, s': Store, t: nat, subs: seq<Sub>)
    requires AgreeUpTo(s, s', t)
    ensures ApplySubs(m, s, t, subs) == ApplySubs(m, s', t, subs)
  {
    if subs != [] {
      AgreeingSubs(m, s, s', t, subs[..|subs| - 1]);
      var last := subs[|subs| - 1];
      if HasKey(last) {
        AgreeingReads(s, s', t, last.key);
      }
    }
  }

  lemma AgreeingLiveKeys(s: Store, s': Store, t: nat, prefix: Key)
    requires AgreeUpTo(s, s', t)
    ensures LiveKeys(s, t, prefix) == LiveKeys(s', t, prefix)
  {
    forall k ensures k in LiveKeys(s, t, prefix) <==> k in LiveKeys(s', t, prefix) {
      AgreeingReads(s, s', t, k);
      SnapshotReads(s, t, k);
      SnapshotReads(s', t, k);
    }
  }

  /** The effect of an entry depends only on the versions at or below its read timestamp. */
  lemma AgreeingEffects(m: Merge, s: Store, s': Store, cmd: Command)
    requires AgreeUpTo(s, s', cmd.readTs)
    ensures Effect(m, s, cmd) == Effect(m, s', cmd)
  {
    match cmd
    case Single(t, _, DeleteByPrefix(prefix)) => AgreeingLiveKeys(s, s', t, prefix);
    case Single(t, _, sub) => if HasKey(sub) { AgreeingReads(s, s', t, sub.key); }
    case Transaction(t, _, subs) => AgreeingSubs(m, s, s', t, subs);
  }

  /** A version the log added carries the commit timestamp of one of its entries. */
  lemma {:induction false} AddedVersions(m: Merge, s: Store, log: seq<Command>, kt: (Key, nat))
    requires kt in ApplyLog(m, s, log) && kt !in s
    ensures exists j :: 0 <= j < |log| && log[j].commitTs == kt.1
  {
    var init := log[..|log| - 1];
    if kt in ApplyLog(m, s, init) {
      AddedVersions(m, s, init, kt);
      var j :| 0 <= j < |init| && init[j].commitTs == kt.1;
      assert log[j].commitTs == kt.1;
    } else {
      assert log[|log| - 1].commitTs == kt.1;
    }
  }

  lemma {:induction false} ApplyLogConcat(m: Merge, s: Store, a: seq<Command>, b: seq<Command>)
    ensures ApplyLog(m, s, a + b) == ApplyLog(m, ApplyLog(m, s, a), b)
  {
    if b == [] {
      assert a + b == a;
    } else {
      var init := b[..|b| - 1];
      ApplyLogConcat(m, s, a, init);
      assert (a + b)[..|a + b| - 1] == a + init;
    }
  }

  /** Entries never overwrite versions from before them when the commit timestamps are new to the store. */
  lemma {:induction false} LogOnlyAdds(m: Merge, s: Store, log: seq<Command>)
    requires Untouched(s, log)
    ensures Within(s, ApplyLog(m, s, log))
  {
    if log != [] {
      LogOnlyAdds(m, s, log[..|log| - 1]);
    }
  }

  lemma PrefixUntouched(m: Merge, s: Store, log: seq<Command>, i: nat)
    requires i <= |log| && Stamped(log) && Untouched(s, log)
    ensures Untouched(ApplyLog(m, s, log[..i]), log[i..])
  {
    var si := ApplyLog(m, s, log[..i]);
    forall kt, j | kt in si && 0 <= j < |log[i..]| ensures kt.1 != log[i..][j].commitTs {
      if kt !in s {
        AddedVersions(m, s, log[..i], kt);
        var a :| 0 <= a < i && log[..i][a].commitTs == kt.1;
        assert log[a].commitTs != log[i + j].commitTs;
      }
    }
  }

  lemma PrefixWithinFull(m: Merge, s: Store, log: seq<Command>, i: nat)
    requires i <= |log| && Stamped(log) && Untouched(s, log)
    ensures Within(ApplyLog(m, s, log[..i]), ApplyLog(m, s, log))
  {
    PrefixUntouched(m, s, log, i);
    LogOnlyAdds(m, ApplyLog(m, s, log[..i]), log[i..]);
    FullFrom(m, s, log, i);
  }

  lemma LaterVersionsInvisible(m: Merge, si: Store, log: seq<Command>, i: nat, kt: (Key, nat))
    requires i < |log| && Stamped(log) && !Blind(log[i])
    requires kt in ApplyLog(m, si, log[i..]) && kt !in si
    ensures kt.1 > log[i].readTs
  {
    AddedVersions(m, si, log[i..], kt);
    var j :| 0 <= j < |log[i..]| && log[i..][j].commitTs == kt.1;
    assert log[i..][j] == log[i + j];
  }

  /** A store between entry i's state and the full state looks the same to entry i. */
  lemma AheadAgrees(m: Merge, si: Store, log: seq<Command>, i: nat, s: Store, full: Store)
    requires i < |log| && Stamped(log) && !Blind(log[i]) && full == ApplyLog(m, si, log[i..])
    requires Within(si, s) && Within(s, full)
    ensures AgreeUpTo(si, s, log[i].readTs)
  {
    AllLaterInvisible(m, si, log, i, full);
    AgreeBelow(si, s, full, log[i].readTs);
  }

  lemma FullFrom(m: Merge, s0: Store, log: seq<Command>, i: nat)
    requires i <= |log|
    ensures ApplyLog(m, s0, log) == ApplyLog(m, ApplyLog(m, s0, log[..i]), log[i..])
  {
    ApplyLogConcat(m, s0, log[..i], log[i..]);
    assert log[..i] + log[i..] == log;
  }

  lemma AllLaterInvisible(m: Merge, si: Store, log: seq<Command>, i: nat, full: Store)
    requires i < |log| && Stamped(log) && !Blind(log[i]) && full == ApplyLog(m, si, log[i..])
    ensures forall kt: (Key, nat) | kt in full && kt !in si :: kt.1 > log[i].readTs
  {
    forall kt: (Key, nat) | kt in full && kt !in si ensures kt.1 > log[i].readTs {
      LaterVersionsInvisible(m, si, log, i, kt);
    }
  }

  lemma AgreeBelow(si: Store, s: Store, full: Store, t: nat)
    requires Within(si, s) && Within(s, full) && forall kt: (Key, nat) | kt in full && kt !in si :: kt.1 > t
    ensures AgreeUpTo(si, s, t)
  {
  }

  lemma SameEffectAhead(m: Merge, s0: Store, log: seq<Command>, i: nat, s: Store)
    requires i < |log| && Stamped(log) && Within(ApplyLog(m, s0, log[..i]), s) && Within(s, ApplyLog(m, s0, log))
    ensures Effect(m, ApplyLog(m, s0, log[..i]), log[i]) == Effect(m, s, log[i])
  {
    if !Blind(log[i]) {
      var si := ApplyLog(m, s0, log[..i]);
      FullFrom(m, s0, log, i);
      AheadAgrees(m, si, log, i, s, ApplyLog(m, s0, log));
      AgreeingEffects(m, si, s, log[i]);
    }
  }

  lemma NextPrefix(m: Merge, s0: Store, log: seq<Command>, i: nat)
    requires i < |log|
    ensures ApplyLog(m, s0, log[..i + 1]) == Apply(m, ApplyLog(m, s0, log[..i]), log[i])
  {
    assert log[..i + 1][..i] == log[..i];
  }

  lemma WithinAfter(m: Merge, si: Store, s: Store, full: Store, cmd: Command)
    requires Within(si, s) && Within(s, full) && Effect(m, si, cmd) == Effect(m, s, cmd) && Within(Apply(m, si, cmd), full)
    ensures Within(Apply(m, si, cmd), Apply(m, s, cmd)) && Within(Apply(m, s, cmd), full)
  {
  }

  lemma ReapplyOne(m: Merge, s0: Store, log: seq<Command>, i: nat, s: Store)
    requires i < |log| && Stamped(log) && Untouched(s0, log)
    requires Within(ApplyLog(m, s0, log[..i]), s) && Within(s, ApplyLog(m, s0, log))
    ensures Within(ApplyLog(m, s0, log[..i + 1]), Apply(m, s, log[i]))
    ensures Within(Apply(m, s, log[i]), ApplyLog(m, s0, log))
  {
    SameEffectAhead(m, s0, log, i, s);
    PrefixWithinFull(m, s0, log, i + 1);
    NextPrefix(m, s0, log, i);
    WithinAfter(m, ApplyLog(m, s0, log[..i]), s, ApplyLog(m, s0, log), log[i]);
  }

  /**
   Fuzzy-snapshot replay: from a store that holds at least the first i entries and at most the
   full log (whole entries or parts of them), applying the rest gives exactly the full state.
   */
  lemma {:induction false} FuzzyReplay(m: Merge, s0: Store, log: seq<Command>, i: nat, s: Store)
    requires i <= |log| && Stamped(log) && Untouched(s0, log)
    requires Within(ApplyLog(m, s0, log[..i]), s) && Within(s, ApplyLog(m, s0, log))
    ensures ApplyLog(m, s, log[i..]) == ApplyLog(m, s0, log)
    decreases |log| - i
  {
    if i == |log| {
      assert log[..i] == log;
      assert s == ApplyLog(m, s0, log);
    } else {
      ReapplyOne(m, s0, log, i, s);
      FuzzyReplay(m, s0, log, i + 1, Apply(m, s, log[i]));
      ApplyLogConcat(m, s, [log[i]], log[i + 1..]);
      assert [log[i]] + log[i + 1..] == log[i..];
      assert ApplyLog(m, s, [log[i]]) == Apply(m, s, log[i]) by { assert [log[i]][..0] == []; }
    }
  }

  /** Restart: entries after index i applied again to a store that already holds the first j. */
  lemma RestartReplay(m: Merge, s0: Store, log: seq<Command>, i: nat, j: nat)
    requires i <= j <= |log| && Stamped(log) && Untouched(s0, log)
    ensures ApplyLog(m, ApplyLog(m, s0, log[..j]), log[i..]) == ApplyLog(m, s0, log)
  {
    PrefixWithinFull(m, s0, log, j);
    assert Stamped(log[..j]) && Untouched(s0, log[..j]);
    PrefixWithinFull(m, s0, log[..j], i);
    assert log[..j][..i] == log[..i];
    FuzzyReplay(m, s0, log, i, ApplyLog(m, s0, log[..j]));
  }

  lemma SetWrites(m: Merge, s: Store, t: nat, c: nat, k: Key, v: Value)
    requires k != []
    ensures Apply(m, s, Single(t, c, Set(k, v))) == s[(k, c) := Some(v)]
  {
    assert Effect(m, s, Single(t, c, Set(k, v))) == Ok(map[][k := Some(v)]);
  }

  lemma PrefixDeleteSees(m: Merge, s: Store, t: nat, c: nat, k: Key)
    requires ReadAt(s, k, t).Some?
    ensures (k, c) in Apply(m, s, Single(t, c, DeleteByPrefix(k)))
  {
    SnapshotReads(s, t, k);
    assert k in LiveKeys(s, t, k);
  }

  lemma PrefixDeleteOfNothing(m: Merge, t: nat, c: nat, k: Key)
    ensures Apply(m, map[], Single(t, c, DeleteByPrefix(k))) == map[]
  {
    assert LiveKeys(map[], t, k) == {};
  }

  /**
   The order of timestamps is needed: whenever a commit lies at or below the snapshot of an entry before it in the
   log, it can change what a second pass over the log reads.
   */
  lemma ReplayNeedsTimestampOrder(m: Merge, k: Key, v: Value, r1: nat, c1: nat, r2: nat, c2: nat)
    requires k != [] && c2 <= r1 < c1
    ensures var log := [Single(r1, c1, DeleteByPrefix(k)), Single(r2, c2, Set(k, v))];
            ApplyLog(m, ApplyLog(m, map[], log), log) != ApplyLog(m, map[], log)
  {
    var e1, e2 := Single(r1, c1, DeleteByPrefix(k)), Single(r2, c2, Set(k, v));
    var s: Store := map[][(k, c2) := Some(v)];
    ApplyTwo(m, map[], e1, e2);
    PrefixDeleteOfNothing(m, r1, c1, k);
    SetWrites(m, map[], r2, c2, k, v);
    ApplyTwo(m, s, e1, e2);
    ReadAtStable(s, k, c2, r1);
    PrefixDeleteSees(m, s, r1, c1, k);
    SetWrites(m, Apply(m, s, e1), r2, c2, k, v);
  }

  lemma ApplyTwo(m: Merge, s: Store, a: Command, b: Command)
    ensures ApplyLog(m, s, [a, b]) == Apply(m, Apply(m, s, a), b)
  {
    assert [a, b][..1] == [a] && [a][..0] == [];
    assert ApplyLog(m, s, [a]) == Apply(m, s, a);
  }
}
