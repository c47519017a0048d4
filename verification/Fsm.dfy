/** The state machine of `fsm.go` over the Badger operations of `badger.go`, updating a store in place. */
module Fsm {
  import opened Bytes
  import opened Commands
  import opened Mvcc
  import opened Numbers

  /** DecodeCommand, as a deterministic function of the entry's data; None is an error. */
  type Decode = Bytes -> Option<Command>

  /** The store after an entry's data, or why the entry is refused. */
  function ApplyData(m: Merge, decode: Decode, s: Store, data: Bytes): Result<Store> {
    match decode(data)
    case None => Refused(Undecodable)
    case Some(cmd) =>
      match Effect(m, s, cmd)
      case Refused(why) => Refused(why)
      case Ok(p) => Ok(Mvcc.CommitAt(s, cmd.commitTs, p))
  }

  class Badger {
    var store: Store

    constructor ()
      ensures store == map[]
    {
      store := map[];
    }
  }

  /** A managed transaction at a read timestamp, with its pending writes. */
  class BadgerTxn {
    const db: Badger
    const readTs: nat
    var pending: Pending

    constructor (db: Badger, readTs: nat)
      ensures this.db == db && this.readTs == readTs && pending == map[]
    {
      this.db, this.readTs, pending := db, readTs, map[];
    }

    method Get(key: Key) returns (r: Result<Option<Value>>)
      ensures r == if key == [] then Refused(EmptyKey) else Ok(Mvcc.Get(db.store, readTs, pending, key))
    {
      if key == [] {
        return Refused(EmptyKey);
      }
      if key in pending {
        return Ok(pending[key]);
      }
      var t: nat := readTs;
      while t > 0 && (key, t) !in db.store
        invariant t <= readTs && ReadAt(db.store, key, t) == ReadAt(db.store, key, readTs)
      {
        t := t - 1;
      }
      return Ok(if (key, t) in db.store then db.store[(key, t)] else None);
    }

    method Put(key: Key, value: Option<Value>) returns (err: Option<Refusal>)
      modifies this
      ensures if key == [] then err == Some(EmptyKey) && pending == old(pending)
              else err == None && pending == old(pending)[key := value]
    {
      if key == [] {
        return Some(EmptyKey);
      }
      pending := pending[key := value];
      err := None;
    }

    method CommitAt(commitTs: nat)
      modifies db
      ensures db.store == Mvcc.CommitAt(old(db.store), commitTs, pending)
    {
      db.store := Mvcc.CommitAt(db.store, commitTs, pending);
    }
  }

  class FSM {
    const db: Badger
    const merge: Merge
    const decode: Decode

    constructor (db: Badger, merge: Merge, decode: Decode)
      ensures this.db == db && this.merge == merge && this.decode == decode
    {
      this.db, this.merge, this.decode := db, merge, decode;
    }

    method IncrByWithTxn(txn: BadgerTxn, key: Key, delta: nat) returns (err: Option<Refusal>)
      modifies txn
      ensures match ApplySub(merge, txn.db.store, txn.readTs, old(txn.pending), IncrBy(key, delta))
              case Ok(p) => err.None? && txn.pending == p
              case Refused(why) => err == Some(why)
    {
      var r := txn.Get(key);
      if r.Refused? {
        return Some(r.why);
      }
      var b := r.value;
      var sum := delta;
      if b.Some? {
        if |b.value| < 8 {
          return Some(Panic);
        }
        sum := (CounterValue(b.value) + delta) % TWO_64;
      }
      err := txn.Put(key, Some(CounterBytes(sum)));
    }

    method DecrByWithTxn(txn: BadgerTxn, key: Key, delta: nat) returns (err: Option<Refusal>)
      modifies txn
      ensures match ApplySub(merge, txn.db.store, txn.readTs, old(txn.pending), DecrBy(key, delta))
              case Ok(p) => err.None? && txn.pending == p
              case Refused(why) => err == Some(why)
    {
      var r := txn.Get(key);
      if r.Refused? {
        return Some(r.why);
      }
      var b := r.value;
      var rest := 0;
      if b.Some? {
        if |b.value| < 8 {
          return Some(Panic);
        }
        var current := CounterValue(b.value);
        if current >= delta {
          rest := current - delta;
        }
      }
      err := txn.Put(key, Some(CounterBytes(rest)));
    }

    method UpdateWithTxn(txn: BadgerTxn, key: Key, delta: Value, kind: DeltaType) returns (err: Option<Refusal>)
      modifies txn
      ensures match ApplySub(merge, txn.db.store, txn.readTs, old(txn.pending), Update(key, delta, kind))
              case Ok(p) => err.None? && txn.pending == p
              case Refused(why) => err == Some(why)
    {
      if kind.UnknownDelta? {
        return Some(UnknownOp);
      }
      var full := txn.Get(key);
      if full.Refused? {
        return Some(full.why);
      }
      var merged := merge(kind, full.value, delta);
      if merged.None? {
        return Some(MergeFailed);
      }
      err := txn.Put(key, merged);
    }

    /** Delete each key the iterator finds; it walks the snapshot the transaction reads. */
    method DeleteByPrefixWithTxn(txn: BadgerTxn, prefix: Key)
      requires txn.pending == map[]
      modifies txn
      ensures txn.pending == map k | k in LiveKeys(txn.db.store, txn.readTs, prefix) :: None
    {
      var keys := LiveKeys(txn.db.store, txn.readTs, prefix);
      var left := keys;
      while left != {}
        invariant left <= keys && txn.pending == map k | k in keys - left :: None
      {
        var key :| key in left;
        txn.pending := txn.pending[key := None];
        left := left - {key};
      }
    }

    /** The switch over one operation; prefix deletion is not one of its cases. */
    method ApplyOne(txn: BadgerTxn, sub: Sub) returns (err: Option<Refusal>)
      modifies txn
      ensures match ApplySub(merge, txn.db.store, txn.readTs, old(txn.pending), sub)
              case Ok(p) => err.None? && txn.pending == p
              case Refused(why) => err == Some(why)
    {
      match sub {
        case Set(key, value) => err := txn.Put(key, Some(value));
        case Update(key, delta, kind) => err := UpdateWithTxn(txn, key, delta, kind);
        case Delete(key) => err := txn.Put(key, None);
        case IncrBy(key, delta) => err := IncrByWithTxn(txn, key, delta);
        case DecrBy(key, delta) => err := DecrByWithTxn(txn, key, delta);
        case _ => err := Some(UnknownOp);
      }
    }

    /** The loop over a transaction's operations stops at the first refusal. */
    method ApplySubCommands(txn: BadgerTxn, subs: seq<Sub>) returns (err: Option<Refusal>)
      requires txn.pending == map[]
      modifies txn
      ensures match ApplySubs(merge, txn.db.store, txn.readTs, subs)
              case Ok(p) => err.None? && txn.pending == p
              case Refused(why) => err == Some(why)
    {
      for i := 0 to |subs|
        invariant ApplySubs(merge, txn.db.store, txn.readTs, subs[..i]) == Ok(txn.pending)
      {
        assert subs[..i + 1][..i] == subs[..i];
        err := ApplyOne(txn, subs[i]);
        if err.Some? {
          RefusedStaysRefused(merge, txn.db.store, txn.readTs, subs, i + 1);
          return;
        }
      }
      assert subs[..|subs|] == subs;
      err := None;
    }

    /** One command: all of its writes at its commit timestamp, or none at all. */
    method ApplyCommand(cmd: Command) returns (err: Option<Refusal>)
      modifies db
      ensures db.store == Mvcc.Apply(merge, old(db.store), cmd)
      ensures match Effect(merge, old(db.store), cmd)
              case Ok(_) => err.None?
              case Refused(why) => err == Some(why)
    {
      var txn := new BadgerTxn(db, cmd.readTs);
      match cmd {
        case Transaction(_, _, subs) =>
          err := ApplySubCommands(txn, subs);
        case Single(_, _, sub) =>
          if sub.DeleteByPrefix? {
            DeleteByPrefixWithTxn(txn, sub.prefix);
            err := None;
          } else {
            err := ApplyOne(txn, sub);
          }
      }
      if err.None? {
        txn.CommitAt(cmd.commitTs);
      }
    }

    /** The data of one committed log entry. */
    method Apply(data: Bytes) returns (err: Option<Refusal>)
      modifies db
      ensures match ApplyData(merge, decode, old(db.store), data)
              case Ok(s) => err.None? && db.store == s
              case Refused(why) => err == Some(why) && db.store == old(db.store)
    {
      var cmd := decode(data);
      if cmd.None? {
        return Some(Undecodable);
      }
      err := ApplyCommand(cmd.value);
    }

    /** Everything stored is dropped before the snapshot is loaded, which may fail half-way. */
    method RestoreSnapshot(contents: Store, complete: bool) returns (ok: bool)
      modifies db
      ensures db.store == contents && ok == complete
    {
      db.store := contents;
      ok := complete;
    }
  }

  lemma {:induction false} RefusedStaysRefused(m: Merge, s: Store, t: nat, subs: seq<Sub>, i: nat)
    requires i <= |subs| && ApplySubs(m, s, t, subs[..i]).Refused?
    ensures ApplySubs(m, s, t, subs) == ApplySubs(m, s, t, subs[..i])
    decreases |subs|
  {
    if i < |subs| {
      var init := subs[..|subs| - 1];
      assert init[..i] == subs[..i];
      RefusedStaysRefused(m, s, t, init, i);
    } else {
      assert subs[..i] == subs;
    }
  }
}
