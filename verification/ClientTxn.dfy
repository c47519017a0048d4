/** The client's transaction object of `txn.go`: buffered writes, tracked reads, commit and discard. */
module ClientTxn {
  import opened Bytes
  import opened Spec = Oracle
  import opened Commands
  import opened Tso
  import Transactions

  datatype Error = ErrReadOnlyTxn | ErrDiscardedTxn | ErrEmptyKey | ErrBatchTooBig | ErrConflict

  /** Waiting: the oracle has not returned a timestamp within the given clock readings. */
  datatype CommitResult = NothingToCommit | Refused(error: Error) | Waiting | Ready(cmd: Command)

  /** In whatever state of the step system the transaction is, the step is possible and changes it like this. */
  ghost predicate Takes(before: Transactions.Txn, step: Transactions.Step, after: Transactions.Txn)
    requires step.Read? || step.Write? || step.WritePrefix?
  {
    forall s: Transactions.System | step.id in s.txns && s.txns[step.id] == before ::
      Transactions.Possible(s, step) && Transactions.Do(s, step) == Transactions.WithTxn(s, step.id, after)
  }

  /** The same for giving the read timestamp back, with what happens to the oracle. */
  ghost predicate Closes(before: Transactions.Txn, o: Oracle, id: nat, after: Transactions.Txn, o': Oracle) {
    forall s: Transactions.System | id in s.txns && s.txns[id] == before && s.oracle == o ::
      && Transactions.Possible(s, Transactions.Discard(id))
      && Transactions.Do(s, Transactions.Discard(id)) == Transactions.WithTxn(s.(oracle := o'), id, after)
  }

  /** The same for a commit that was granted, and the discard that follows it. */
  ghost predicate Commits(t: Transactions.Txn, o: Oracle, id: nat, d: nat, clock: seq<nat>, ts: nat, o': Oracle) {
    forall s: Transactions.System | id in s.txns && s.txns[id] == t && s.oracle == o && Nondecreasing(s.clock, clock) ::
      && Transactions.Possible(s, Transactions.Commit(id, d, clock))
      && var s1 := Transactions.Do(s, Transactions.Commit(id, d, clock));
         && s1.history == s.history + [Transactions.CommitRecord(ts, t.readTs, t.readSet, t.keys, t.subs)]
         && Transactions.Possible(s1, Transactions.Discard(id))
         && Transactions.Do(s1, Transactions.Discard(id)).oracle == o'
  }

  lemma GrantedCommits(t: Transactions.Txn, o: Oracle, d: nat, clock: seq<nat>, o1: Oracle, ts: nat)
    requires t.phase.Open? && |t.subs| <= MAX_BATCH_SIZE && Spec.DoneRead(o, t.readTs).readMark.CanAdvance(d)
    requires Spec.NewCommitTs(o, t.readTs, t.readSet, t.keys, d, clock) == Granted(o1, ts)
    ensures forall id: nat :: Commits(t, o, id, d, clock, ts, Spec.DoneRead(o1, t.readTs))
  {
  }

  class Txn {
    const tso: TSO
    const readTs: nat
    const update: bool
    var commitTs: nat
    var readSet: seq<Key>
    var conflictKeys: set<Key>
    var writes: seq<Key>
    var subs: seq<Sub>
    var discarded: bool

    /** What every method keeps: conflict detection sees each buffered write. */
    predicate Valid()
      reads this
    {
      Covers(conflictKeys, subs) && forall k | k in conflictKeys :: k in writes && k != []
    }

    /** The transaction as the step system sees it. */
    ghost function View(): Transactions.Txn
      reads this
    {
      Transactions.Txn(if discarded then Transactions.Closed else Transactions.Open, readTs, readSet, conflictKeys, subs)
    }

    constructor (tso: TSO, readTs: nat, update: bool)
      ensures Valid() && this.tso == tso && this.readTs == readTs && this.update == update
      ensures readSet == [] && conflictKeys == {} && writes == [] && subs == [] && !discarded
      ensures View() == Transactions.Txn(Transactions.Open, readTs, [], {}, [])
    {
      this.tso, this.readTs, this.update := tso, readTs, update;
      commitTs, readSet, conflictKeys, writes, subs, discarded := 0, [], {}, [], [], false;
    }

    method AddReadKey(key: Key)
      requires Valid()
      modifies this`readSet
      ensures Valid() && readSet == old(readSet) + [key]
      ensures !discarded ==> forall id: nat :: Takes(old(View()), Transactions.Read(id, key), View())
    {
      readSet := readSet + [key];
    }

    /** The reason a write of this key is refused, if any, in the order the code checks. */
    function Objection(key: Key): Option<Error>
      reads this
    {
      if !update then Some(ErrReadOnlyTxn)
      else if discarded then Some(ErrDiscardedTxn)
      else if |key| == 0 then Some(ErrEmptyKey)
      else None
    }

    method Validate(key: Key) returns (err: Option<Error>)
      requires Valid()
      modifies this`conflictKeys, this`writes
      ensures Valid() && err == old(Objection(key))
      ensures err == Some(ErrReadOnlyTxn) <==> !update
      ensures err == Some(ErrDiscardedTxn) <==> update && discarded
      ensures err == Some(ErrEmptyKey) <==> update && !discarded && key == []
      ensures err.None? <==> update && !discarded && key != []
      ensures err.None? ==> conflictKeys == old(conflictKeys) + {key} && writes == old(writes) + [key]
      ensures err.Some? ==> conflictKeys == old(conflictKeys) && writes == old(writes)
    {
      if !update {
        return Some(ErrReadOnlyTxn);
      } else if discarded {
        return Some(ErrDiscardedTxn);
      } else if |key| == 0 {
        return Some(ErrEmptyKey);
      }
      conflictKeys := conflictKeys + {key};
      writes := writes + [key];
      err := None;
    }

    /** Set, UpdateJson, UpdateProtobuf, Delete, IncrBy and DecrBy: validate the key, buffer the operation. */
    method Buffer(sub: Sub) returns (err: Option<Error>)
      requires Valid() && HasKey(sub)
      modifies this`conflictKeys, this`writes, this`subs
      ensures Valid() && err == old(Objection(sub.key))
      ensures if err.None?
              then subs == old(subs) + [sub] && conflictKeys == old(conflictKeys) + {sub.key}
              else subs == old(subs) && conflictKeys == old(conflictKeys)
      ensures if err.None? then forall id: nat :: Takes(old(View()), Transactions.Write(id, sub), View()) else View() == old(View())
    {
      err := Validate(sub.key);
      if err.None? {
        subs := subs + [sub];
      }
    }

    /** The keys the snapshot holds under the prefix are tracked as reads and as writes. */
    method BufferDeleteByPrefix(prefix: Key, found: seq<Key>) returns (err: Option<Error>)
      requires Valid()
      modifies this`readSet, this`conflictKeys, this`writes, this`subs
      ensures Valid() && readSet == old(readSet) + found
      ensures err.None? <==> forall i | 0 <= i < |found| :: old(Objection(found[i])).None?
      ensures err.None? ==> subs == old(subs) + [DeleteByPrefix(prefix)]
      ensures err.None? ==> conflictKeys == old(conflictKeys) + (set k | k in found)
      ensures err.Some? ==> subs == old(subs)
      ensures err.None? && !discarded ==>
                forall id: nat :: Takes(old(View()), Transactions.WritePrefix(id, prefix, found), View())
    {
      for i := 0 to |found|
        invariant Valid() && readSet == old(readSet) + found[..i]
        invariant subs == old(subs) && conflictKeys == old(conflictKeys)
      {
        AddReadKey(found[i]);
        assert found[..i + 1] == found[..i] + [found[i]];
      }
      assert found[..|found|] == found;
      for i := 0 to |found|
        invariant Valid() && subs == old(subs) && readSet == old(readSet) + found
        invariant forall j | 0 <= j < i :: old(Objection(found[j])).None?
        invariant conflictKeys == old(conflictKeys) + (set k | k in found[..i])
      {
        err := Validate(found[i]);
        if err.Some? {
          return;
        }
        assert found[..i + 1] == found[..i] + [found[i]];
      }
      subs := subs + [DeleteByPrefix(prefix)];
      err := None;
    }

    /** Idempotent; gives the read timestamp back to the oracle the first time. */
    method Discard()
      modifies this`discarded, tso`readers, tso.readMark
      ensures discarded
      ensures tso.State() == if old(discarded) then old(tso.State()) else Spec.DoneRead(old(tso.State()), readTs)
      ensures if old(discarded) then View() == old(View())
              else forall id: nat :: Closes(old(View()), old(tso.State()), id, View(), tso.State())
    {
      if discarded {
        return;
      }
      discarded := true;
      tso.DoneRead(readTs);
    }

    /**
     Stamp the buffered operations, or say why not; the transaction is discarded in every case. The commit is
     already done on the transaction mark when the command is returned, to be proposed.
     */
    method Commit(clock: seq<nat>) returns (r: CommitResult, ghost d: nat)
      requires Valid() && tso.readMark != tso.txnMark
      modifies this, tso, tso.readMark, tso.txnMark
      ensures Valid() && subs == old(subs) && readSet == old(readSet) && conflictKeys == old(conflictKeys)
      ensures !r.Waiting? ==> discarded
      ensures old(discarded) ==> r == Refused(ErrDiscardedTxn) && tso.State() == old(tso.State())
      ensures !old(discarded) && writes == [] && subs == [] ==>
                r == NothingToCommit && tso.State() == Spec.DoneRead(old(tso.State()), readTs)
      ensures !old(discarded) && |subs| > MAX_BATCH_SIZE ==>
                r == Refused(ErrBatchTooBig) && tso.State() == Spec.DoneRead(old(tso.State()), readTs)
      ensures !old(discarded) && !(writes == [] && subs == []) && |subs| <= MAX_BATCH_SIZE ==>
                match Spec.NewCommitTs(old(tso.State()), readTs, readSet, conflictKeys, d, clock)
                case Conflict =>
                  r == Refused(ErrConflict) && tso.State() == Spec.DoneRead(old(tso.State()), readTs)
                case Blocked => r.Waiting?
                case Granted(o, ts) =>
                  && Spec.DoneRead(old(tso.State()), readTs).readMark.CanAdvance(d)
                  && r == Ready(Transaction(readTs, ts, subs)) && commitTs == ts
                  && tso.State() == Spec.DoneRead(o, readTs)
      ensures !old(discarded) && r.Ready? ==>
                forall id: nat :: Commits(old(View()), old(tso.State()), id, d, clock, commitTs, tso.State())
      ensures !old(discarded) && !r.Ready? && !r.Waiting? ==>
                forall id: nat :: Closes(old(View()), old(tso.State()), id, View(), tso.State())
      ensures tso.txnMark.State()
           == if r.Ready? then old(tso.txnMark.State()).Begin(commitTs).Done(commitTs) else old(tso.txnMark.State())
    {
      d := 0;
      ghost var before, o := View(), tso.State();
      if discarded {
        return Refused(ErrDiscardedTxn), d;
      }
      if |writes| == 0 && |subs| == 0 {
        Discard();
        return NothingToCommit, d;
      }
      if |subs| > MAX_BATCH_SIZE {
        Discard();
        return Refused(ErrBatchTooBig), d;
      }
      var ts;
      ts, d := tso.NewCommitTs(readTs, readSet, conflictKeys, clock);
      match ts {
        case IsConflict =>
          r := Refused(ErrConflict);
        case IsWaiting =>
          return Waiting, d;
        case Ts(t) =>
          GrantedCommits(before, o, d, clock, tso.State(), t);
          commitTs := t;
          tso.DoneCommit(t);
          r := Ready(Transaction(readTs, t, subs));
      }
      Discard();
    }
  }
}
