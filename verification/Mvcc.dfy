/**
 The multi-version store and what one log entry does to it: every operation reads the snapshot
 at the entry's read timestamp through a pending-writes overlay and writes at its commit timestamp.
 */
module Mvcc {
  import opened Bytes
  import opened Commands
  import opened Numbers

  /** Each key's versions by commit timestamp; None is a deletion. */
  type Store = map<(Key, nat), Option<Value>>

  /** The newest version of a key at or below a timestamp. */
  function ReadAt(s: Store, k: Key, t: nat): Option<Value> {
    if (k, t) in s then s[(k, t)] else if t == 0 then None else ReadAt(s, k, t - 1)
  }

  function KeysOf(s: Store): set<Key> {
    set kt | kt in s.Keys :: kt.0
  }

  /** What a reader at a timestamp sees. */
  function Snapshot(s: Store, t: nat): map<Key, Value> {
    map k | k in KeysOf(s) && ReadAt(s, k, t).Some? :: ReadAt(s, k, t).value
  }

  function Lookup(st: map<Key, Value>, k: Key): Option<Value> {
    if k in st then Some(st[k]) else None
  }

  lemma {:induction false} ReadAtUnknownKey(s: Store, k: Key, t: nat)
    requires k !in KeysOf(s)
    ensures ReadAt(s, k, t).None?
    decreases t
  {
    assert (k, t) in s ==> (k, t).0 in KeysOf(s);
    if t > 0 {
      ReadAtUnknownKey(s, k, t - 1);
    }
  }

  lemma SnapshotReads(s: Store, t: nat, k: Key)
    ensures Lookup(Snapshot(s, t), k) == ReadAt(s, k, t)
  {
    if k !in KeysOf(s) {
      ReadAtUnknownKey(s, k, t);
    }
  }

  /** Without versions in between, two timestamps read the same. */
  lemma {:induction false} ReadAtStable(s: Store, k: Key, a: nat, b: nat)
    requires a <= b && forall t | a < t <= b :: (k, t) !in s
    ensures ReadAt(s, k, b) == ReadAt(s, k, a)
    decreases b
  {
    if a < b {
      ReadAtStable(s, k, a, b - 1);
    }
  }

  /** Reading depends only on the versions at or below the timestamp. */
  lemma {:induction false} ReadAtAgrees(s: Store, s': Store, k: Key, t: nat)
    requires forall u: nat | u <= t :: (k, u) in s <==> (k, u) in s'
    requires forall u: nat | u <= t && (k, u) in s && (k, u) in s' :: s[(k, u)] == s'[(k, u)]
    ensures ReadAt(s, k, t) == ReadAt(s', k, t)
    decreases t
  {
    if t > 0 && (k, t) !in s {
      ReadAtAgrees(s, s', k, t - 1);
    }
  }

  // ---------- Counters ----------

  function BigEndian(b: seq<byte>): nat {
    if b == [] then 0 else 256 * BigEndian(b[..|b| - 1]) + b[|b| - 1]
  }

  function ToBigEndian(v: nat, n: nat): (b: seq<byte>)
    ensures |b| == n
    decreases n, v
  {
    if n == 0 then [] else ToBigEndian(v / 256, n - 1) + [v % 256]
  }

  function Pow256(n: nat): nat {
    if n == 0 then 1 else 256 * Pow256(n - 1)
  }

  lemma {:induction false} BigEndianRoundTrip(v: nat, n: nat)
    requires v < Pow256(n)
    ensures BigEndian(ToBigEndian(v, n)) == v
    decreases n
  {
    if n > 0 {
      BigEndianRoundTrip(v / 256, n - 1);
      assert ToBigEndian(v, n)[..n - 1] == ToBigEndian(v / 256, n - 1);
    }
  }

  /** Uint64ToBytes */
  function CounterBytes(v: nat): Value {
    ToBigEndian(v, 8)
  }

  /** BytesToUint64: the first eight bytes; fewer than eight stop the program. */
  function CounterValue(b: Value): nat
    requires |b| >= 8
  {
    BigEndian(b[..8])
  }

  lemma CounterRoundTrip(v: nat)
    requires v < TWO_64
    ensures |CounterBytes(v)| >= 8 && CounterValue(CounterBytes(v)) == v
  {
    assert Pow256(4) == 0x1_0000_0000;
    assert Pow256(6) == 0x1_0000_0000_0000;
    assert Pow256(8) == TWO_64;
    BigEndianRoundTrip(v, 8);
    assert CounterBytes(v)[..8] == CounterBytes(v);
  }

  // ---------- One operation ----------

  /** JSON and protobuf merging, as a deterministic function of the stored value and the delta; None is an error. */
  type Merge = (DeltaType, Option<Value>, Value) -> Option<Value>

  /** Panic stands for a run-time panic, which stops the whole program. */
  datatype Refusal = UnknownOp | EmptyKey | Panic | MergeFailed | Undecodable

  datatype Result<+T> = Ok(value: T) | Refused(why: Refusal)

  /** What a keyed operation makes of the value it finds: the new value, or None for a deletion. */
  function NewValue(m: Merge, found: Option<Value>, sub: Sub): Result<Option<Value>>
    requires HasKey(sub)
  {
    match sub
    case Set(_, v) => Ok(Some(v))
    case Delete(_) => Ok(None)
    case IncrBy(_, amount) =>
      if found.None? then Ok(Some(CounterBytes(amount)))
      else if |found.value| < 8 then Refused(Panic)
      else Ok(Some(CounterBytes((CounterValue(found.value) + amount) % TWO_64)))
    case DecrBy(_, amount) =>
      if found.None? then Ok(Some(CounterBytes(0)))
      else if |found.value| < 8 then Refused(Panic)
      else
        var v := CounterValue(found.value);
        Ok(Some(CounterBytes(if v < amount then 0 else v - amount)))
    case Update(_, delta, kind) =>
      var merged := m(kind, found, delta);
      if kind.UnknownDelta? then Refused(UnknownOp)
      else if merged.None? then Refused(MergeFailed)
      else Ok(merged)
  }

  /** Counters as numbers: increments wrap around at 64 bits, decrements stop at zero. */
  lemma CounterArithmetic(m: Merge, k: Key, v: nat, amount: nat)
    requires v < TWO_64 && amount < TWO_64
    ensures NewValue(m, Some(CounterBytes(v)), IncrBy(k, amount)) == Ok(Some(CounterBytes((v + amount) % TWO_64)))
    ensures NewValue(m, Some(CounterBytes(v)), DecrBy(k, amount)) == Ok(Some(CounterBytes(if v < amount then 0 else v - amount)))
  {
    CounterRoundTrip(v);
  }

  /** The count an operation works on: a missing counter counts as zero. */
  function CountIn(found: Option<Value>): nat
    requires found.Some? ==> |found.value| >= 8
  {
    if found.None? then 0 else CounterValue(found.value)
  }

  lemma IncrementOutcome(m: Merge, k: Key, found: Option<Value>, amount: nat)
    requires (found.Some? ==> |found.value| >= 8) && amount < TWO_64
    ensures NewValue(m, found, IncrBy(k, amount)) == Ok(Some(CounterBytes((CountIn(found) + amount) % TWO_64)))
  {
    assert found.None? ==> (CountIn(found) + amount) % TWO_64 == amount;
  }

  lemma DecrementOutcome(m: Merge, k: Key, found: Option<Value>, amount: nat)
    requires found.Some? ==> |found.value| >= 8
    ensures NewValue(m, found, DecrBy(k, amount))
         == Ok(Some(CounterBytes(if CountIn(found) < amount then 0 else CountIn(found) - amount)))
  {
  }

  lemma CounterBytesInjective(x: nat, y: nat)
    requires x < TWO_64 && y < TWO_64
    ensures CounterBytes(x) == CounterBytes(y) <==> x == y
  {
    CounterRoundTrip(x);
    CounterRoundTrip(y);
  }

  /** Counter operations see nothing of the stored value but its count; a missing counter behaves as one that holds zero. */
  lemma OnlyTheCountMatters(m: Merge, k: Key, a: Option<Value>, b: Option<Value>, amount: nat)
    requires (a.Some? ==> |a.value| >= 8) && (b.Some? ==> |b.value| >= 8) && amount < TWO_64
    ensures NewValue(m, a, IncrBy(k, amount)) == NewValue(m, b, IncrBy(k, amount)) <==> CountIn(a) == CountIn(b)
    ensures CountIn(a) == CountIn(b) ==> NewValue(m, a, DecrBy(k, amount)) == NewValue(m, b, DecrBy(k, amount))
  {
    CountBelow(a);
    CountBelow(b);
    IncrementOutcome(m, k, a, amount);
    IncrementOutcome(m, k, b, amount);
    DecrementOutcome(m, k, a, amount);
    DecrementOutcome(m, k, b, amount);
    SumsDiffer(CountIn(a), CountIn(b), amount);
    CounterBytesInjective((CountIn(a) + amount) % TWO_64, (CountIn(b) + amount) % TWO_64);
  }

  lemma CountBelow(found: Option<Value>)
    requires found.Some? ==> |found.value| >= 8
    ensures CountIn(found) < TWO_64
  {
    if found.Some? {
      BigEndianBound(found.value[..8]);
    }
  }

  lemma SumsDiffer(a: nat, b: nat, amount: nat)
    requires a < TWO_64 && b < TWO_64
    ensures (a + amount) % TWO_64 == (b + amount) % TWO_64 <==> a == b
  {
  }

  lemma BigEndianBound(b: seq<byte>)
    requires |b| == 8
    ensures BigEndian(b) < TWO_64
  {
    BigEndianBelowPower(b);
    assert Pow256(4) == 0x1_0000_0000;
    assert Pow256(6) == 0x1_0000_0000_0000;
  }

  lemma {:induction false} BigEndianBelowPower(b: seq<byte>)
    ensures BigEndian(b) < Pow256(|b|)
  {
    if b != [] {
      BigEndianBelowPower(b[..|b| - 1]);
    }
  }

  /** The refusals that do not depend on the store: unknown operations, then empty keys. */
  function Outright(sub: Sub): Option<Refusal> {
    if !HasKey(sub) || (sub.Update? && sub.kind.UnknownDelta?) then Some(UnknownOp)
    else if sub.key == [] then Some(EmptyKey)
    else None
  }

  // ---------- Through the overlay ----------

  type Pending = map<Key, Option<Value>>

  function Get(s: Store, t: nat, p: Pending, k: Key): Option<Value> {
    if k in p then p[k] else ReadAt(s, k, t)
  }

  function ApplySub(m: Merge, s: Store, t: nat, p: Pending, sub: Sub): Result<Pending> {
    if Outright(sub).Some? then Refused(Outright(sub).value)
    else
      match NewValue(m, Get(s, t, p, sub.key), sub)
      case Ok(v) => Ok(p[sub.key := v])
      case Refused(why) => Refused(why)
  }

  function ApplySubs(m: Merge, s: Store, t: nat, subs: seq<Sub>): Result<Pending> {
    if subs == [] then Ok(map[])
    else
      match ApplySubs(m, s, t, subs[..|subs| - 1])
      case Refused(why) => Refused(why)
      case Ok(p) => ApplySub(m, s, t, p, subs[|subs| - 1])
  }

  function LiveKeys(s: Store, t: nat, prefix: Key): set<Key> {
    set k | k in KeysOf(s) && HasPrefix(k, prefix) && ReadAt(s, k, t).Some?
  }

  function Effect(m: Merge, s: Store, cmd: Command): Result<Pending> {
    match cmd
    case Single(t, _, DeleteByPrefix(prefix)) => Ok(map k | k in LiveKeys(s, t, prefix) :: None)
    case Single(t, _, sub) => ApplySub(m, s, t, map[], sub)
    case Transaction(t, _, subs) => ApplySubs(m, s, t, subs)
  }

  /** CommitAt: every pending write becomes a version at the commit timestamp. */
  function CommitAt(s: Store, c: nat, p: Pending): (s': Store)
    ensures forall kt :: kt in s' <==> kt in s || (kt.1 == c && kt.0 in p)
    ensures forall kt | kt in s' :: s'[kt] == if kt.1 == c && kt.0 in p then p[kt.0] else s[kt]
  {
    var written := map k | k in p :: (k, c) := p[k];
    s + written
  }

  function Apply(m: Merge, s: Store, cmd: Command): Store {
    match Effect(m, s, cmd)
    case Ok(p) => CommitAt(s, cmd.commitTs, p)
    case Refused(_) => s
  }

  function ApplyLog(m: Merge, s: Store, log: seq<Command>): Store {
    if log == [] then s else Apply(m, ApplyLog(m, s, log[..|log| - 1]), log[|log| - 1])
  }

  // ---------- On plain maps ----------

  /** The meaning of an operation on a plain key-value map. */
  function Meaning(m: Merge, st: map<Key, Value>, sub: Sub): Result<map<Key, Value>> {
    if Outright(sub).Some? then Refused(Outright(sub).value)
    else
      match NewValue(m, Lookup(st, sub.key), sub)
      case Refused(why) => Refused(why)
      case Ok(None) => Ok(st - {sub.key})
      case Ok(Some(v)) => Ok(st[sub.key := v])
  }

  function MeaningAll(m: Merge, st: map<Key, Value>, subs: seq<Sub>): Result<map<Key, Value>> {
    if subs == [] then Ok(st)
    else
      match MeaningAll(m, st, subs[..|subs| - 1])
      case Refused(why) => Refused(why)
      case Ok(st') => Meaning(m, st', subs[|subs| - 1])
  }

  /** A snapshot with pending writes laid over it. */
  function Overlaid(s: Store, t: nat, p: Pending): map<Key, Value> {
    map k | k in KeysOf(s) + p.Keys && Get(s, t, p, k).Some? :: Get(s, t, p, k).value
  }

  lemma OverlaidReads(s: Store, t: nat, p: Pending, k: Key)
    ensures Lookup(Overlaid(s, t, p), k) == Get(s, t, p, k)
  {
    if k !in KeysOf(s) && k !in p {
      ReadAtUnknownKey(s, k, t);
    }
  }

  lemma SameLookups(a: map<Key, Value>, b: map<Key, Value>)
    requires forall k :: Lookup(a, k) == Lookup(b, k)
    ensures a == b
  {
    forall k ensures k in a <==> k in b {
      assert Lookup(a, k) == Lookup(b, k);
    }
    forall k | k in a && k in b ensures a[k] == b[k] {
      assert Lookup(a, k) == Lookup(b, k);
    }
  }

  lemma OverlaidByOne(m: Merge, s: Store, t: nat, p: Pending, sub: Sub)
    ensures var ov, pl := ApplySub(m, s, t, p, sub), Meaning(m, Overlaid(s, t, p), sub);
            (ov.Ok? <==> pl.Ok?) && (ov.Ok? ==> Overlaid(s, t, ov.value) == pl.value)
  {
    if HasKey(sub) {
      OverlaidReads(s, t, p, sub.key);
      var ov, pl := ApplySub(m, s, t, p, sub), Meaning(m, Overlaid(s, t, p), sub);
      if ov.Ok? {
        forall k ensures Lookup(Overlaid(s, t, ov.value), k) == Lookup(pl.value, k) {
          OverlaidReads(s, t, p, k);
          OverlaidReads(s, t, ov.value, k);
        }
        SameLookups(Overlaid(s, t, ov.value), pl.value);
      }
    }
  }

  /**
   A transaction through the pending-writes overlay is the left fold of its operations' meanings
   over the snapshot at its read timestamp, and is refused exactly when the fold is.
   */
  lemma {:induction false} OverlayIsFold(m: Merge, s: Store, t: nat, subs: seq<Sub>)
    ensures var ov, pl := ApplySubs(m, s, t, subs), MeaningAll(m, Snapshot(s, t), subs);
            (ov.Ok? <==> pl.Ok?) && (ov.Ok? ==> Overlaid(s, t, ov.value) == pl.value)
  {
    if subs == [] {
      assert Overlaid(s, t, map[]) == Snapshot(s, t);
    } else {
      var init := subs[..|subs| - 1];
      OverlayIsFold(m, s, t, init);
      var ov := ApplySubs(m, s, t, init);
      if ov.Ok? {
        OverlaidByOne(m, s, t, ov.value, subs[|subs| - 1]);
      }
    }
  }

  /** A refused entry leaves no trace; an accepted one writes versions at its commit timestamp only. */
  lemma ApplyWritesOnlyAtCommit(m: Merge, s: Store, cmd: Command)
    ensures Effect(m, s, cmd).Refused? ==> Apply(m, s, cmd) == s
    ensures forall k: Key, t: nat | t != cmd.commitTs ::
              ((k, t) in Apply(m, s, cmd) <==> (k, t) in s)
              && ((k, t) in s ==> Apply(m, s, cmd)[(k, t)] == s[(k, t)])
  {
  }

  /** The state machine does not know prefix deletion inside a transaction: such a transaction is always refused. */
  lemma {:induction false} PrefixDeleteInTransactionRefused(m: Merge, s: Store, t: nat, subs: seq<Sub>, i: nat)
    requires i < |subs| && !HasKey(subs[i])
    ensures ApplySubs(m, s, t, subs).Refused?
    decreases |subs|
  {
    if i < |subs| - 1 {
      PrefixDeleteInTransactionRefused(m, s, t, subs[..|subs| - 1], i);
    }
  }
}
