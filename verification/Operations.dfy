/**
 What each operation does, by what a reader finds afterwards: alone, and as one of a transaction's operations.
 */
module Operations {
  import opened Bytes
  import opened Commands
  import opened Mvcc
  import opened Numbers

  predicate OpOn(sub: Sub, k: Key) {
    HasKey(sub) && sub.key == k
  }

  predicate Touched(subs: seq<Sub>, k: Key) {
    exists j :: 0 <= j < |subs| && OpOn(subs[j], k)
  }

  // ---------- One operation on its own ----------

  lemma OnlyItsKey(m: Merge, s: Store, t: nat, c: nat, sub: Sub, k: Key, u: nat)
    requires HasKey(sub) && (sub.key != k || u < c)
    ensures ReadAt(Apply(m, s, Single(t, c, sub)), k, u) == ReadAt(s, k, u)
  {
    ReadAtAgrees(s, Apply(m, s, Single(t, c, sub)), k, u);
  }

  /** A set is read back, whatever was there; an empty key is refused. */
  lemma SetReads(m: Merge, s: Store, t: nat, c: nat, k: Key, v: Value)
    ensures Effect(m, s, Single(t, c, Set(k, v))).Refused? <==> k == []
    ensures k != [] ==> ReadAt(Apply(m, s, Single(t, c, Set(k, v))), k, c) == Some(v)
  {
  }

  /** After a deletion the key is gone, and it stays gone until a later version. */
  lemma DeleteReads(m: Merge, s: Store, t: nat, c: nat, k: Key, u: nat)
    requires c <= u && forall w | c < w <= u :: (k, w) !in s
    ensures Effect(m, s, Single(t, c, Delete(k))).Refused? <==> k == []
    ensures k != [] ==> ReadAt(Apply(m, s, Single(t, c, Delete(k))), k, u) == None
  {
    if k != [] {
      ReadAtStable(Apply(m, s, Single(t, c, Delete(k))), k, c, u);
    }
  }

  /** An update merges the delta into the value found at the read timestamp, and is refused exactly when that cannot be done. */
  lemma UpdateReads(m: Merge, s: Store, t: nat, c: nat, k: Key, delta: Value, kind: DeltaType)
    ensures var merged := m(kind, ReadAt(s, k, t), delta); var cmd := Single(t, c, Update(k, delta, kind));
            && (Effect(m, s, cmd).Refused? <==> kind.UnknownDelta? || k == [] || merged.None?)
            && (Effect(m, s, cmd).Ok? ==> ReadAt(Apply(m, s, cmd), k, c) == merged)
  {
  }

  /** An increment adds to the count found at the read timestamp, wrapping around at 64 bits; a missing counter is zero. */
  lemma IncrementReads(m: Merge, s: Store, t: nat, c: nat, k: Key, amount: nat)
    requires amount < TWO_64
    ensures var found := ReadAt(s, k, t); var cmd := Single(t, c, IncrBy(k, amount));
            && (Effect(m, s, cmd).Refused? <==> k == [] || (found.Some? && |found.value| < 8))
            && (Effect(m, s, cmd).Ok? ==>
                  ReadAt(Apply(m, s, cmd), k, c) == Some(CounterBytes((CountIn(found) + amount) % TWO_64)))
  {
    var found := ReadAt(s, k, t);
    if found.Some? ==> |found.value| >= 8 {
      IncrementOutcome(m, k, found, amount);
    }
  }

  /** A decrement takes from it and stops at zero. */
  lemma DecrementReads(m: Merge, s: Store, t: nat, c: nat, k: Key, amount: nat)
    ensures var found := ReadAt(s, k, t); var cmd := Single(t, c, DecrBy(k, amount));
            && (Effect(m, s, cmd).Refused? <==> k == [] || (found.Some? && |found.value| < 8))
            && (Effect(m, s, cmd).Ok? ==>
                  ReadAt(Apply(m, s, cmd), k, c)
                  == Some(CounterBytes(if CountIn(found) < amount then 0 else CountIn(found) - amount)))
  {
    var found := ReadAt(s, k, t);
    if found.Some? ==> |found.value| >= 8 {
      DecrementOutcome(m, k, found, amount);
    }
  }

  /** A prefix deletion removes the keys under the prefix that are live at the read timestamp and nothing else. */
  lemma PrefixDeleteReads(m: Merge, s: Store, t: nat, c: nat, prefix: Key, k: Key, u: nat)
    ensures var after := Apply(m, s, Single(t, c, DeleteByPrefix(prefix)));
            if HasPrefix(k, prefix) && ReadAt(s, k, t).Some? then ReadAt(after, k, c) == None
            else ReadAt(after, k, u) == ReadAt(s, k, u)
  {
    if HasPrefix(k, prefix) && ReadAt(s, k, t).Some? {
      if k !in KeysOf(s) {
        ReadAtUnknownKey(s, k, t);
      }
    } else {
      ReadAtAgrees(s, Apply(m, s, Single(t, c, DeleteByPrefix(prefix))), k, u);
    }
  }

  // ---------- Inside a transaction ----------

  lemma {:induction false} PendingIsTouched(m: Merge, s: Store, t: nat, subs: seq<Sub>, k: Key)
    requires ApplySubs(m, s, t, subs).Ok?
    ensures k in ApplySubs(m, s, t, subs).value <==> Touched(subs, k)
  {
    if subs != [] {
      var n := |subs| - 1;
      PendingIsTouched(m, s, t, subs[..n], k);
      TouchedByLast(subs, k);
    }
  }

  lemma TouchedByLast(subs: seq<Sub>, k: Key)
    requires subs != []
    ensures Touched(subs, k) <==> Touched(subs[..|subs| - 1], k) || OpOn(subs[|subs| - 1], k)
  {
    var n := |subs| - 1;
    if j :| 0 <= j < n && OpOn(subs[..n][j], k) {
      assert OpOn(subs[j], k);
    }
    if j :| 0 <= j < |subs| && OpOn(subs[j], k) {
      assert j < n ==> OpOn(subs[..n][j], k);
    }
  }

  /** What operation i finds at a key: what the operations before it have left, or the snapshot at the read timestamp. */
  function Seen(m: Merge, s: Store, t: nat, c: nat, subs: seq<Sub>, i: nat, k: Key): Option<Value>
    requires i <= |subs|
  {
    if Touched(subs[..i], k) then ReadAt(Apply(m, s, Transaction(t, c, subs[..i])), k, c) else ReadAt(s, k, t)
  }

  lemma SeenIsGet(m: Merge, s: Store, t: nat, c: nat, subs: seq<Sub>, i: nat, k: Key)
    requires i <= |subs| && ApplySubs(m, s, t, subs[..i]).Ok?
    ensures Seen(m, s, t, c, subs, i, k) == Get(s, t, ApplySubs(m, s, t, subs[..i]).value, k)
  {
    PendingIsTouched(m, s, t, subs[..i], k);
  }

  lemma {:induction false} EarlierIsOk(m: Merge, s: Store, t: nat, subs: seq<Sub>, i: nat)
    requires i <= |subs| && ApplySubs(m, s, t, subs).Ok?
    ensures ApplySubs(m, s, t, subs[..i]).Ok?
    decreases |subs|
  {
    if i < |subs| {
      EarlierIsOk(m, s, t, subs[..|subs| - 1], i);
      assert subs[..|subs| - 1][..i] == subs[..i];
    } else {
      assert subs[..i] == subs;
    }
  }

  /** Operations on other keys leave a pending write alone. */
  lemma {:induction false} OthersKeep(m: Merge, s: Store, t: nat, subs: seq<Sub>, i: nat, k: Key)
    requires i <= |subs| && ApplySubs(m, s, t, subs).Ok? && ApplySubs(m, s, t, subs[..i]).Ok?
    requires k in ApplySubs(m, s, t, subs[..i]).value && forall j | i <= j < |subs| :: !OpOn(subs[j], k)
    ensures k in ApplySubs(m, s, t, subs).value
    ensures ApplySubs(m, s, t, subs).value[k] == ApplySubs(m, s, t, subs[..i]).value[k]
    decreases |subs|
  {
    if i < |subs| {
      var init := subs[..|subs| - 1];
      assert init[..i] == subs[..i];
      OthersKeep(m, s, t, init, i, k);
    } else {
      assert subs[..i] == subs;
    }
  }

  /** Operation i leaves at its key what it makes of what it finds. */
  lemma OperationLeaves(m: Merge, s: Store, t: nat, c: nat, subs: seq<Sub>, i: nat)
    requires i < |subs| && ApplySubs(m, s, t, subs[..i + 1]).Ok?
    ensures HasKey(subs[i]) && subs[i].key != [] && ApplySubs(m, s, t, subs[..i]).Ok?
    ensures var p, found := ApplySubs(m, s, t, subs[..i + 1]).value, Seen(m, s, t, c, subs, i, subs[i].key);
            && subs[i].key in p && NewValue(m, found, subs[i]) == Ok(p[subs[i].key])
  {
    assert subs[..i + 1][..i] == subs[..i];
    EarlierIsOk(m, s, t, subs[..i + 1], i);
    SeenIsGet(m, s, t, c, subs, i, subs[i].key);
  }

  /** What an operation leaves at its key, given what it found there. */
  predicate Leaves(m: Merge, found: Option<Value>, sub: Sub, after: Option<Value>)
    requires HasKey(sub)
  {
    match sub
    case Set(_, v) => after == Some(v)
    case Delete(_) => after == None
    case Update(_, delta, kind) => after.Some? && after == m(kind, found, delta)
    case IncrBy(_, amount) =>
      && (found.Some? ==> |found.value| >= 8)
      && (amount < TWO_64 ==> after == Some(CounterBytes((CountIn(found) + amount) % TWO_64)))
    case DecrBy(_, amount) =>
      && (found.Some? ==> |found.value| >= 8)
      && after == Some(CounterBytes(if CountIn(found) < amount then 0 else CountIn(found) - amount))
  }

  lemma NewValueLeaves(m: Merge, found: Option<Value>, sub: Sub, after: Option<Value>)
    requires HasKey(sub) && NewValue(m, found, sub) == Ok(after)
    ensures Leaves(m, found, sub, after)
  {
    if sub.IncrBy? && sub.amount < TWO_64 {
      IncrementOutcome(m, sub.key, found, sub.amount);
    } else if sub.DecrBy? {
      DecrementOutcome(m, sub.key, found, sub.amount);
    }
  }

  /** The last operation on a key decides what a reader of the transaction's commit finds there. */
  lemma LastOperationDecides(m: Merge, s: Store, t: nat, c: nat, subs: seq<Sub>, i: nat)
    requires i < |subs| && Effect(m, s, Transaction(t, c, subs)).Ok?
    requires HasKey(subs[i]) && forall j | i < j < |subs| :: !OpOn(subs[j], subs[i].key)
    ensures var k := subs[i].key;
            Leaves(m, Seen(m, s, t, c, subs, i, k), subs[i], ReadAt(Apply(m, s, Transaction(t, c, subs)), k, c))
  {
    var k := subs[i].key;
    EarlierIsOk(m, s, t, subs, i + 1);
    OperationLeaves(m, s, t, c, subs, i);
    OthersKeep(m, s, t, subs, i + 1, k);
    NewValueLeaves(m, Seen(m, s, t, c, subs, i, k), subs[i], ApplySubs(m, s, t, subs).value[k]);
  }

  /** Keys that no operation is on read as before, and so does everything below the commit timestamp. */
  lemma OthersReadAsBefore(m: Merge, s: Store, t: nat, c: nat, subs: seq<Sub>, k: Key, u: nat)
    requires !Touched(subs, k) || u < c
    ensures ReadAt(Apply(m, s, Transaction(t, c, subs)), k, u) == ReadAt(s, k, u)
  {
    if ApplySubs(m, s, t, subs).Ok? {
      PendingIsTouched(m, s, t, subs, k);
    }
    ReadAtAgrees(s, Apply(m, s, Transaction(t, c, subs)), k, u);
  }

  /** Operation i cannot be done on what it finds. */
  predicate BadAt(m: Merge, s: Store, t: nat, c: nat, subs: seq<Sub>, i: nat)
    requires i < |subs|
  {
    || !HasKey(subs[i]) || subs[i].key == []
    || var found := Seen(m, s, t, c, subs, i, subs[i].key);
       || (subs[i].Update? && (subs[i].kind.UnknownDelta? || m(subs[i].kind, found, subs[i].delta).None?))
       || ((subs[i].IncrBy? || subs[i].DecrBy?) && found.Some? && |found.value| < 8)
  }

  lemma BadIsRefused(m: Merge, s: Store, t: nat, c: nat, subs: seq<Sub>, i: nat)
    requires i < |subs| && ApplySubs(m, s, t, subs[..i]).Ok?
    ensures ApplySubs(m, s, t, subs[..i + 1]).Refused? <==> BadAt(m, s, t, c, subs, i)
  {
    assert subs[..i + 1][..i] == subs[..i];
    if HasKey(subs[i]) {
      SeenIsGet(m, s, t, c, subs, i, subs[i].key);
    }
  }

  lemma {:induction false} NoneBadIsOk(m: Merge, s: Store, t: nat, c: nat, subs: seq<Sub>, n: nat)
    requires n <= |subs| && forall i | 0 <= i < n :: !BadAt(m, s, t, c, subs, i)
    ensures ApplySubs(m, s, t, subs[..n]).Ok?
    decreases n
  {
    if n > 0 {
      NoneBadIsOk(m, s, t, c, subs, n - 1);
      BadIsRefused(m, s, t, c, subs, n - 1);
    }
  }

  /** A transaction is refused exactly when one of its operations cannot be done on what it finds. */
  lemma TransactionRefusedExactly(m: Merge, s: Store, t: nat, c: nat, subs: seq<Sub>)
    ensures Effect(m, s, Transaction(t, c, subs)).Refused? <==> exists i :: 0 <= i < |subs| && BadAt(m, s, t, c, subs, i)
  {
    if forall i | 0 <= i < |subs| :: !BadAt(m, s, t, c, subs, i) {
      NoneBadIsOk(m, s, t, c, subs, |subs|);
      assert subs[..|subs|] == subs;
    }
    if ApplySubs(m, s, t, subs).Ok? {
      forall i | 0 <= i < |subs| ensures !BadAt(m, s, t, c, subs, i) {
        EarlierIsOk(m, s, t, subs, i);
        EarlierIsOk(m, s, t, subs, i + 1);
        BadIsRefused(m, s, t, c, subs, i);
      }
    }
  }

  // ---------- Reading ----------

  /** A read finds the newest version at or below its timestamp: there is one and none above it, or there is none at all. */
  lemma {:induction false} ReadFindsNewest(s: Store, k: Key, t: nat)
    ensures (exists u :: 0 <= u <= t && (k, u) in s && ReadAt(s, k, t) == s[(k, u)] && forall w | u < w <= t :: (k, w) !in s)
         || (ReadAt(s, k, t) == None && forall w: nat | w <= t :: (k, w) !in s)
    decreases t
  {
    if (k, t) !in s && t > 0 {
      ReadFindsNewest(s, k, t - 1);
    }
  }

  /** The eight bytes of a counter, most significant first. */
  lemma CounterIsBigEndian(v: nat, i: nat)
    requires i < 8
    ensures Pow256(7 - i) > 0 && CounterBytes(v)[i] == v / Pow256(7 - i) % 256
  {
    BytesAreBigEndian(v, 8, i);
  }

  lemma {:induction false} PowerIsPositive(n: nat)
    ensures Pow256(n) > 0
  {
    if n > 0 {
      PowerIsPositive(n - 1);
    }
  }

  lemma {:induction false} BytesAreBigEndian(v: nat, n: nat, i: nat)
    requires i < n
    ensures Pow256(n - 1 - i) > 0 && ToBigEndian(v, n)[i] == v / Pow256(n - 1 - i) % 256
    decreases n, v
  {
    if i < n - 1 {
      BytesAreBigEndian(v / 256, n - 1, i);
      PowerIsPositive(n - 2 - i);
      DivideTwice(v, 256, Pow256(n - 2 - i));
    }
  }
}
