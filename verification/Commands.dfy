/** The commands a transaction buffers and the Raft log carries. */
module Commands {
  import opened Bytes

  const MAX_BATCH_SIZE: nat := 100

  datatype DeltaType = Json | Protobuf | UnknownDelta

  /** One operation. `Other` stands for every command type the state machine does not know. */
  datatype Sub =
    | Set(key: Key, value: Value)
    | Update(key: Key, delta: Value, kind: DeltaType)
    | Delete(key: Key)
    | DeleteByPrefix(prefix: Key)
    | IncrBy(key: Key, amount: nat)
    | DecrBy(key: Key, amount: nat)
    | Other

  /** A log entry: a single operation or a transaction, stamped with its two timestamps. */
  datatype Command =
    | Single(readTs: nat, commitTs: nat, sub: Sub)
    | Transaction(readTs: nat, commitTs: nat, subs: seq<Sub>)

  predicate HasKey(sub: Sub) {
    sub.Set? || sub.Update? || sub.Delete? || sub.IncrBy? || sub.DecrBy?
  }

  predicate HasPrefix(k: Key, prefix: Key) {
    prefix <= k
  }

  /** Every keyed operation writes a key that conflict detection will see. */
  predicate Covers(keys: set<Key>, subs: seq<Sub>) {
    forall sub | sub in subs && HasKey(sub) :: sub.key in keys
  }
}
