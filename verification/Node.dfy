/**
 Applying committed entries (`node.go`): each Ready batch may install a snapshot and carries
 committed entries, and every index reaches the state machine exactly once and in order.
 */
module Node {
  import opened Bytes
  import opened Commands
  import opened Fsm
  import opened Mvcc
  import opened Numbers

  /** What an entry carries: a command, a membership change, one that cannot be read, or something unknown. */
  datatype Kind = Normal | ConfChange(removesThisNode: bool) | BadConfChange | UnknownKind

  datatype RaftEntry = RaftEntry(index: nat, kind: Kind, data: Bytes)

  /** A snapshot: what the store holds after loading it, completely or not. */
  datatype Snap = Snap(index: nat, contents: Store, complete: bool)

  /** A Ready batch: an optional snapshot and the committed entries. */
  datatype Ready = Ready(snapshot: Option<Snap>, committed: seq<RaftEntry>)

  /** What the state machine has gone through: a restored snapshot, or an entry passed in log order. */
  datatype Event = Restored(at: nat, contents: Store) | Passed(entry: RaftEntry) {
    function Index(): nat {
      if Restored? then at else entry.index
    }
  }

  /** Why a batch stops the ready loop. */
  datatype Fault = StaleSnapshot | RestoreFailed | Gap | ApplyFailed | Panicked | BadChange | UnknownType

  // ---------- The slice offset ----------

  function Sub64(a: nat, b: nat): (r: nat)
    requires a < TWO_64 && b < TWO_64
    ensures r < TWO_64
  {
    if a < b then a + TWO_64 - b else a - b
  }

  function Add64(a: nat, b: nat): (r: nat)
    requires a < TWO_64 && b < TWO_64
    ensures r < TWO_64
  {
    if a + b < TWO_64 then a + b else a + b - TWO_64
  }

  /** Committed entries have consecutive indices that fit in 64 bits. */
  predicate Contiguous(es: seq<RaftEntry>) {
    && (forall i | 0 <= i < |es| :: es[i].index == es[0].index + i)
    && (es != [] ==> es[|es| - 1].index < TWO_64 - 1)
  }

  /** The entries not applied yet, by 64-bit slice arithmetic; None is the panic on a gap. */
  function EntriesToApply(applied: nat, es: seq<RaftEntry>): Option<seq<RaftEntry>>
    requires applied < TWO_64 && Contiguous(es)
  {
    if es == [] then Some(es)
    else if es[0].index > Add64(applied, 1) then None
    else
      var offset := Add64(Sub64(applied, es[0].index), 1);
      Some(if offset < |es| then es[offset..] else [])
  }

  /** The subtraction wraps around when the first entry is the next one expected, and the addition wraps back to 0. */
  lemma OffsetIs(applied: nat, first: nat)
    requires first <= applied + 1 < TWO_64
    ensures Add64(Sub64(applied, first), 1) == applied + 1 - first
  {
  }

  /** The slice begins that far into the batch. */
  lemma SliceIs(applied: nat, es: seq<RaftEntry>, offset: nat)
    requires applied < TWO_64 - 1 && Contiguous(es) && es != [] && es[0].index + offset == applied + 1
    ensures EntriesToApply(applied, es) == Some(if offset < |es| then es[offset..] else [])
  {
    OffsetIs(applied, es[0].index);
  }

  lemma TailContiguous(es: seq<RaftEntry>, offset: nat)
    requires Contiguous(es) && offset < |es|
    ensures Contiguous(es[offset..]) && es[offset..][0].index == es[0].index + offset
    ensures es[offset..][|es| - offset - 1] == es[|es| - 1]
  {
    var rest := es[offset..];
    forall i | 0 <= i < |rest| ensures rest[i].index == rest[0].index + i {
      assert rest[i] == es[offset + i] && rest[0] == es[offset];
    }
  }

  function After(applied: nat, es: seq<RaftEntry>): seq<RaftEntry> {
    if es == [] then [] else (if es[0].index > applied then [es[0]] else []) + After(applied, es[1..])
  }

  lemma {:induction false} AfterDropsPrefix(applied: nat, es: seq<RaftEntry>, k: nat)
    requires k <= |es|
    requires forall i | 0 <= i < |es| :: es[i].index > applied <==> i >= k
    ensures After(applied, es) == es[k..]
    decreases |es|
  {
    if es != [] {
      AfterDropsPrefix(applied, es[1..], if k == 0 then 0 else k - 1);
      if k == 0 {
        assert es == [es[0]] + es[1..];
      } else {
        assert es[1..][k - 1..] == es[k..];
      }
    }
  }

  /**
   The slice is exactly the entries above the applied index, and the panic is exactly a gap.
   */
  lemma EntriesToApplyExact(applied: nat, es: seq<RaftEntry>)
    requires applied < TWO_64 - 1 && Contiguous(es)
    ensures EntriesToApply(applied, es).None? <==> es != [] && es[0].index > applied + 1
    ensures EntriesToApply(applied, es).Some? ==> EntriesToApply(applied, es).value == After(applied, es)
  {
    if es != [] && es[0].index <= applied + 1 {
      var offset := applied + 1 - es[0].index;
      SliceIs(applied, es, offset);
      AfterDropsPrefix(applied, es, if offset < |es| then offset else |es|);
    }
  }

  /** What is left to apply is contiguous again and begins right after the applied index. */
  lemma RestIsNext(applied: nat, es: seq<RaftEntry>)
    requires applied < TWO_64 - 1 && Contiguous(es)
    requires EntriesToApply(applied, es).Some? && EntriesToApply(applied, es).value != []
    ensures var rest := EntriesToApply(applied, es).value;
            Contiguous(rest) && rest[0].index == applied + 1 && rest[|rest| - 1] == es[|es| - 1]
  {
    var offset := applied + 1 - es[0].index;
    SliceIs(applied, es, offset);
    TailContiguous(es, offset);
  }

  /** Nothing is left exactly when the batch ends at or below the applied index. */
  lemma NothingLeft(applied: nat, es: seq<RaftEntry>)
    requires applied < TWO_64 - 1 && Contiguous(es) && es != []
    requires EntriesToApply(applied, es) == Some([])
    ensures es[|es| - 1].index <= applied
  {
    SliceIs(applied, es, applied + 1 - es[0].index);
  }

  // ---------- Stores ----------

  function DataFault(r: Result<Store>): Option<Fault> {
    match r
    case Ok(_) => None
    case Refused(why) => Some(if why.Panic? then Panicked else ApplyFailed)
  }

  /** Why an entry stops the ready loop on a store, if it does; a panic stops the program with it. */
  function EntryFault(m: Merge, decode: Decode, s: Store, e: RaftEntry): Option<Fault> {
    match e.kind
    case Normal => if e.data == [] then None else DataFault(ApplyData(m, decode, s, e.data))
    case ConfChange(_) => None
    case BadConfChange => Some(BadChange)
    case UnknownKind => Some(UnknownType)
  }

  /** An entry stops the ready loop exactly when it cannot be read or the state machine refuses its command. */
  lemma EntryFaultExactly(m: Merge, decode: Decode, s: Store, e: RaftEntry)
    ensures EntryFault(m, decode, s, e).None?
       <==> || e.kind.ConfChange?
            || (e.kind.Normal? && (e.data == [] || (decode(e.data).Some? && Effect(m, s, decode(e.data).value).Ok?)))
    ensures EntryFault(m, decode, s, e) == Some(Panicked)
       <==> && e.kind.Normal? && e.data != [] && decode(e.data).Some?
            && Effect(m, s, decode(e.data).value) == Refused(Panic)
  {
  }

  function EntryStore(m: Merge, decode: Decode, s: Store, e: RaftEntry): Store {
    if e.kind.Normal? && e.data != [] && ApplyData(m, decode, s, e.data).Ok? then ApplyData(m, decode, s, e.data).value else s
  }

  /** The store after all entries of a list. */
  function StoreAfter(m: Merge, decode: Decode, s: Store, es: seq<RaftEntry>): Store {
    if es == [] then s else EntryStore(m, decode, StoreAfter(m, decode, s, es[..|es| - 1]), es[|es| - 1])
  }

  /** The fault that entry i of a list meets when the entries before it have been applied. */
  function FaultAt(m: Merge, decode: Decode, s: Store, es: seq<RaftEntry>, i: nat): Option<Fault>
    requires i < |es|
  {
    EntryFault(m, decode, StoreAfter(m, decode, s, es[..i]), es[i])
  }

  /** The position of the first entry that meets a fault; the length of the list when there is none. */
  function FirstFault(m: Merge, decode: Decode, s: Store, es: seq<RaftEntry>): (r: nat)
    ensures r <= |es| && (r < |es| ==> FaultAt(m, decode, s, es, r).Some?)
    ensures forall i | 0 <= i < r :: FaultAt(m, decode, s, es, i).None?
  {
    FirstFaultFrom(m, decode, s, es, 0)
  }

  function FirstFaultFrom(m: Merge, decode: Decode, s: Store, es: seq<RaftEntry>, i: nat): (r: nat)
    requires i <= |es|
    ensures i <= r <= |es| && (r < |es| ==> FaultAt(m, decode, s, es, r).Some?)
    ensures forall j | i <= j < r :: FaultAt(m, decode, s, es, j).None?
    decreases |es| - i
  {
    if i == |es| || FaultAt(m, decode, s, es, i).Some? then i else FirstFaultFrom(m, decode, s, es, i + 1)
  }

  /** The fault a list of entries ends with. */
  function BatchFault(m: Merge, decode: Decode, s: Store, es: seq<RaftEntry>): Option<Fault> {
    var stop := FirstFault(m, decode, s, es);
    if stop < |es| then FaultAt(m, decode, s, es, stop) else None
  }

  /** The first fault is where the entries before meet none and this one does. */
  lemma FirstFaultIs(m: Merge, decode: Decode, s: Store, es: seq<RaftEntry>, i: nat)
    requires i <= |es| && (i < |es| ==> FaultAt(m, decode, s, es, i).Some?)
    requires forall j | 0 <= j < i :: FaultAt(m, decode, s, es, j).None?
    ensures FirstFault(m, decode, s, es) == i
  {
    var r := FirstFault(m, decode, s, es);
    if r < i {
      assert false;
    } else if i < r {
      assert false;
    }
  }

  // ---------- Traces ----------

  /** A passed entry is the successor of what came before it; only a snapshot may jump ahead. */
  ghost predicate Follows(start: nat, trace: seq<Event>, i: nat)
    requires i < |trace|
  {
    var prev := if i == 0 then start else trace[i - 1].Index();
    if trace[i].Passed? then trace[i].Index() == prev + 1 else trace[i].Index() > prev
  }

  ghost predicate InOrder(start: nat, trace: seq<Event>) {
    forall i | 0 <= i < |trace| :: Follows(start, trace, i)
  }

  ghost function LastIndex(start: nat, trace: seq<Event>): nat {
    if trace == [] then start else trace[|trace| - 1].Index()
  }

  function EventStore(m: Merge, decode: Decode, s: Store, e: Event): Store {
    if e.Restored? then e.contents else EntryStore(m, decode, s, e.entry)
  }

  /** The store a trace leads to. */
  ghost function Replayed(m: Merge, decode: Decode, s: Store, trace: seq<Event>): Store {
    if trace == [] then s
    else EventStore(m, decode, Replayed(m, decode, s, trace[..|trace| - 1]), trace[|trace| - 1])
  }

  /** No entry of a trace met a fault on the store it found. */
  ghost predicate Faultless(m: Merge, decode: Decode, s: Store, trace: seq<Event>) {
    forall i | 0 <= i < |trace| && trace[i].Passed? ::
      EntryFault(m, decode, Replayed(m, decode, s, trace[..i]), trace[i].entry).None?
  }

  /** The trace of passing entries. */
  ghost function Passes(es: seq<RaftEntry>): (r: seq<Event>)
    ensures |r| == |es| && forall i | 0 <= i < |es| :: r[i] == Passed(es[i])
  {
    seq(|es|, i requires 0 <= i < |es| => Passed(es[i]))
  }

  lemma OneMore(m: Merge, decode: Decode, s: Store, trace: seq<Event>, e: Event)
    ensures Replayed(m, decode, s, trace + [e]) == EventStore(m, decode, Replayed(m, decode, s, trace), e)
    ensures Faultless(m, decode, s, trace + [e])
       <==> Faultless(m, decode, s, trace) && (e.Passed? ==> EntryFault(m, decode, Replayed(m, decode, s, trace), e.entry).None?)
  {
    var t := trace + [e];
    assert t[..|trace|] == trace;
    forall i | 0 <= i < |trace| ensures t[..i] == trace[..i] && t[i] == trace[i] {
    }
    if Faultless(m, decode, s, t) {
      forall i | 0 <= i < |trace| && trace[i].Passed?
        ensures EntryFault(m, decode, Replayed(m, decode, s, trace[..i]), trace[i].entry).None?
      {
        assert t[i] == trace[i] && t[..i] == trace[..i];
      }
      assert e.Passed? ==> t[|trace|].Passed?;
    }
  }

  lemma OneMoreInOrder(start: nat, trace: seq<Event>, e: Event)
    requires InOrder(start, trace)
    requires if e.Passed? then e.Index() == LastIndex(start, trace) + 1 else e.Index() > LastIndex(start, trace)
    ensures InOrder(start, trace + [e])
  {
    var t := trace + [e];
    forall i | 0 <= i < |t| ensures Follows(start, t, i) {
      if i < |trace| {
        assert Follows(start, trace, i) && t[i] == trace[i] && (i > 0 ==> t[i - 1] == trace[i - 1]);
      }
    }
  }

  /** A trace in order that leads to a store without meeting a fault. */
  ghost predicate LeadsTo(m: Merge, decode: Decode, start: nat, origin: Store, trace: seq<Event>, s: Store) {
    InOrder(start, trace) && s == Replayed(m, decode, origin, trace) && Faultless(m, decode, origin, trace)
  }

  lemma LeadsOn(m: Merge, decode: Decode, start: nat, origin: Store, trace: seq<Event>, s: Store, e: Event)
    requires LeadsTo(m, decode, start, origin, trace, s)
    requires if e.Passed? then e.Index() == LastIndex(start, trace) + 1 && EntryFault(m, decode, s, e.entry).None?
             else e.Index() > LastIndex(start, trace)
    ensures LeadsTo(m, decode, start, origin, trace + [e], EventStore(m, decode, s, e))
    ensures LastIndex(start, trace + [e]) == e.Index()
  {
    OneMore(m, decode, origin, trace, e);
    OneMoreInOrder(start, trace, e);
  }

  lemma {:induction false} TraceIncreases(start: nat, trace: seq<Event>, i: nat, j: nat)
    requires InOrder(start, trace) && i < j < |trace|
    ensures trace[i].Index() < trace[j].Index()
    decreases j
  {
    assert Follows(start, trace, j);
    if i < j - 1 {
      TraceIncreases(start, trace, i, j - 1);
    }
  }

  /** Exactly once: between two snapshots no index is skipped, and no index ever comes twice. */
  lemma {:induction false} NoIndexSkipped(start: nat, trace: seq<Event>, i: nat, j: nat, index: nat)
    requires InOrder(start, trace) && i <= j < |trace|
    requires forall k | i < k <= j :: trace[k].Passed?
    requires trace[i].Index() < index <= trace[j].Index()
    ensures exists k :: i < k <= j && trace[k].Index() == index
    ensures forall a, b | 0 <= a < b < |trace| :: trace[a].Index() != trace[b].Index()
    decreases j
  {
    assert Follows(start, trace, j);
    if trace[j].Index() != index {
      NoIndexSkipped(start, trace, i, j - 1, index);
    }
    forall a, b | 0 <= a < b < |trace| ensures trace[a].Index() != trace[b].Index() {
      TraceIncreases(start, trace, a, b);
    }
  }

  /** Whether the last membership change of a batch removes this node: earlier ones are overwritten. */
  function LastChangeRemoves(es: seq<RaftEntry>): bool {
    if es == [] then false
    else
      var last := es[|es| - 1];
      if last.kind.ConfChange? then last.kind.removesThisNode else LastChangeRemoves(es[..|es| - 1])
  }

  /** The verdict is that of the last membership change: some change removes the node and no other one follows it. */
  lemma {:induction false} LastChangeRemovesExactly(es: seq<RaftEntry>)
    ensures LastChangeRemoves(es)
       <==> exists i :: 0 <= i < |es| && es[i].kind == ConfChange(true) && forall j | i < j < |es| :: !es[j].kind.ConfChange?
  {
    if es != [] {
      var n := |es| - 1;
      LastChangeRemovesExactly(es[..n]);
      if i :| 0 <= i < n && es[..n][i].kind == ConfChange(true) && forall j | i < j < n :: !es[..n][j].kind.ConfChange? {
        assert forall j | i < j < |es| :: j == n || es[j] == es[..n][j];
        assert es[i] == es[..n][i];
      }
    }
  }

  lemma ChangesSoFar(es: seq<RaftEntry>, i: nat)
    requires i < |es|
    ensures LastChangeRemoves(es[..i + 1])
         == if es[i].kind.ConfChange? then es[i].kind.removesThisNode else LastChangeRemoves(es[..i])
  {
    assert es[..i + 1][..i] == es[..i];
  }

  // ---------- Batches ----------

  /** What a Ready batch may look like. */
  predicate WellFormed(rd: Ready) {
    Contiguous(rd.committed) && (rd.snapshot.Some? ==> rd.snapshot.value.index < TWO_64 - 1)
  }

  /** Where the entries of a batch begin: after its snapshot, if it has one. */
  function Base(applied: nat, rd: Ready): nat {
    if rd.snapshot.Some? then rd.snapshot.value.index else applied
  }

  ghost function Install(rd: Ready): seq<Event> {
    if rd.snapshot.Some? then [Restored(rd.snapshot.value.index, rd.snapshot.value.contents)] else []
  }

  /** The entries of a batch that are still to be applied. */
  function Fresh(applied: nat, rd: Ready): seq<RaftEntry> {
    After(Base(applied, rd), rd.committed)
  }

  /** The store that the entries of a batch find. */
  function Loaded(s: Store, rd: Ready): Store {
    if rd.snapshot.Some? then rd.snapshot.value.contents else s
  }

  predicate Rejected(applied: nat, rd: Ready) {
    rd.snapshot.Some? && (rd.snapshot.value.index <= applied || !rd.snapshot.value.complete)
  }

  predicate Gapped(applied: nat, rd: Ready) {
    rd.committed != [] && rd.committed[0].index > Base(applied, rd) + 1
  }

  /** Why a batch fails: a snapshot that is not new or cannot be loaded, a gap, or the first fault of an entry. */
  function ReadyFault(m: Merge, decode: Decode, s: Store, applied: nat, rd: Ready): Option<Fault> {
    if Rejected(applied, rd) then Some(if rd.snapshot.value.index <= applied then StaleSnapshot else RestoreFailed)
    else if Gapped(applied, rd) then Some(Gap)
    else BatchFault(m, decode, Loaded(s, rd), Fresh(applied, rd))
  }

  /** How far a batch gets. */
  ghost function ReadyEvents(m: Merge, decode: Decode, s: Store, applied: nat, rd: Ready): seq<Event> {
    if Rejected(applied, rd) then []
    else if Gapped(applied, rd) then Install(rd)
    else
      var todo := Fresh(applied, rd);
      Install(rd) + Passes(todo[..FirstFault(m, decode, Loaded(s, rd), todo)])
  }

  /** What the committed entries of a batch have come to. */
  ghost predicate CommittedRan(m: Merge, decode: Decode, s: Store, applied: nat, committed: seq<RaftEntry>, fault: Option<Fault>,
                               passed: seq<Event>) {
    if committed != [] && committed[0].index > applied + 1 then fault == Some(Gap) && passed == []
    else
      var todo := After(applied, committed);
      fault == BatchFault(m, decode, s, todo) && passed == Passes(todo[..FirstFault(m, decode, s, todo)])
  }

  /**
   What a batch has come to: without a fault its snapshot and then everything above it, or above the applied
   index; with one, what came before the fault.
   */
  ghost predicate ReadyRan(m: Merge, decode: Decode, s: Store, applied: nat, rd: Ready, fault: Option<Fault>, events: seq<Event>) {
    && fault == ReadyFault(m, decode, s, applied, rd) && events == ReadyEvents(m, decode, s, applied, rd)
    && (fault.None? ==> events == WholeBatch(applied, rd))
  }

  lemma ReadyRuns(m: Merge, decode: Decode, s: Store, applied: nat, rd: Ready, fault: Option<Fault>, passed: seq<Event>)
    requires !Rejected(applied, rd)
    requires CommittedRan(m, decode, Loaded(s, rd), Base(applied, rd), rd.committed, fault, passed)
    ensures ReadyRan(m, decode, s, applied, rd, fault, Install(rd) + passed)
  {
    var todo := Fresh(applied, rd);
    assert todo[..|todo|] == todo;
    assert Install(rd) + [] == Install(rd);
  }

  lemma InTwoSteps(a: seq<Event>, b: seq<Event>, c: seq<Event>)
    ensures a + b + c == a + (b + c)
  {
  }

  /** The applied index after committed entries without a fault. */
  function EndOf(applied: nat, committed: seq<RaftEntry>): nat {
    var todo := After(applied, committed);
    if todo == [] then applied else todo[|todo| - 1].index
  }

  /** The applied index after a batch without a fault. */
  function Reached(applied: nat, rd: Ready): nat {
    EndOf(Base(applied, rd), rd.committed)
  }

  /** A batch, applied from an index, removes this node. */
  predicate Removing(applied: nat, rd: Ready) {
    LastChangeRemoves(Fresh(applied, rd))
  }

  /** What a batch without a fault puts the state machine through. */
  ghost function WholeBatch(applied: nat, rd: Ready): seq<Event> {
    Install(rd) + Passes(Fresh(applied, rd))
  }

  /** The applied indices before and after each of the first batches, and what each of those does. */
  ghost predicate Course(applied: nat, batches: seq<Ready>, at: seq<nat>, parts: seq<seq<Event>>) {
    && |at| == |parts| + 1 && |parts| <= |batches| && at[0] == applied
    && (forall i | 0 <= i < |parts| :: at[i + 1] == Reached(at[i], batches[i]))
    && (forall i | 0 <= i < |parts| :: parts[i] == WholeBatch(at[i], batches[i]))
  }

  /** The first batches do not remove the node; the last of them may have. */
  ghost predicate Stays(batches: seq<Ready>, at: seq<nat>, n: nat, removed: bool, gone: bool)
    requires n < |at| && n <= |batches|
  {
    && (forall i | 0 <= i < n - 1 :: !Removing(at[i], batches[i])) && (removed ==> n == 0)
    && (gone <==> removed || (n > 0 && Removing(at[n - 1], batches[n - 1])))
  }

  ghost function Joined(parts: seq<seq<Event>>): seq<Event> {
    if parts == [] then [] else Joined(parts[..|parts| - 1]) + parts[|parts| - 1]
  }

  lemma JoinedOneMore(history: seq<Event>, parts: seq<seq<Event>>, part: seq<Event>)
    ensures history + Joined(parts + [part]) == history + Joined(parts) + part
  {
    assert (parts + [part])[..|parts|] == parts;
  }

  lemma CourseGoesOn(applied: nat, batches: seq<Ready>, at: seq<nat>, parts: seq<seq<Event>>, index: nat, part: seq<Event>)
    requires Course(applied, batches, at, parts) && |parts| < |batches|
    requires var n := |parts|; index == Reached(at[n], batches[n]) && part == WholeBatch(at[n], batches[n])
    ensures Course(applied, batches, at + [index], parts + [part])
  {
    var at', parts' := at + [index], parts + [part];
    forall i | 0 <= i < |parts'| ensures at'[i + 1] == Reached(at'[i], batches[i]) && parts'[i] == WholeBatch(at'[i], batches[i]) {
      assert at'[i] == at[i];
      if i < |parts| {
        assert at'[i + 1] == at[i + 1] && parts'[i] == parts[i];
      }
    }
  }

  lemma StaysOneMore(batches: seq<Ready>, at: seq<nat>, n: nat, index: nat)
    requires n < |at| && n < |batches| && |at| == n + 1 && Stays(batches, at, n, false, false)
    ensures Stays(batches, at + [index], n + 1, false, Removing(at[n], batches[n]))
  {
    var at' := at + [index];
    forall i | 0 <= i < n ensures !Removing(at'[i], batches[i]) {
      assert at'[i] == at[i];
      assert i < n - 1 || i == n - 1;
    }
    assert at'[n] == at[n];
  }

  /** An index covers the entries of the first n batches. */
  predicate ReachesAll(index: nat, batches: seq<Ready>, n: nat)
    requires n <= |batches|
  {
    forall i | 0 <= i < n && batches[i].committed != [] :: index >= batches[i].committed[|batches[i].committed| - 1].index
  }

  lemma ReachesOneMore(prev: nat, index: nat, batches: seq<Ready>, n: nat)
    requires n < |batches| && prev <= index && ReachesAll(prev, batches, n)
    requires var es := batches[n].committed; es != [] ==> index >= es[|es| - 1].index
    ensures ReachesAll(index, batches, n + 1)
  {
  }

  /** A batch has failed, applied from an index on the store that the events before it lead to. */
  ghost predicate FailedAt(m: Merge, decode: Decode, origin: Store, before: seq<Event>, index: nat, rd: Ready,
                           fault: Option<Fault>, trace: seq<Event>) {
    var s := Replayed(m, decode, origin, before);
    && fault == ReadyFault(m, decode, s, index, rd) && trace == before + ReadyEvents(m, decode, s, index, rd)
  }

  // ---------- Replicas ----------

  lemma {:induction false} PassedPrefix(m: Merge, decode: Decode, s: Store, log: seq<RaftEntry>, n: nat)
    requires n <= |log|
    ensures Replayed(m, decode, s, Passes(log[..n])) == StoreAfter(m, decode, s, log[..n])
  {
    if n > 0 {
      PassedPrefix(m, decode, s, log, n - 1);
      var trace := Passes(log[..n]);
      assert trace[..n - 1] == Passes(log[..n - 1]) && log[..n][..n - 1] == log[..n - 1];
    }
  }

  /**
   Every replica that has passed entries of one log from the same store, in whatever batches, holds the store of
   those entries, and none has passed the first entry that meets a fault.
   */
  lemma ReplicasStopTogether(m: Merge, decode: Decode, s: Store, log: seq<RaftEntry>, n: nat)
    requires n <= |log|
    ensures Faultless(m, decode, s, Passes(log[..n])) <==> n <= FirstFault(m, decode, s, log)
    ensures Replayed(m, decode, s, Passes(log[..n])) == StoreAfter(m, decode, s, log[..n])
  {
    PassedPrefix(m, decode, s, log, n);
    var trace := Passes(log[..n]);
    forall i | 0 <= i < n
      ensures EntryFault(m, decode, Replayed(m, decode, s, trace[..i]), trace[i].entry) == FaultAt(m, decode, s, log, i)
    {
      PassedPrefix(m, decode, s, log, i);
      assert trace[..i] == Passes(log[..i]);
    }
    var stop := FirstFault(m, decode, s, log);
    if stop < n && Faultless(m, decode, s, trace) {
      assert false;
    }
  }

  /** The command an entry carries: elections append empty entries, and membership changes carry none. */
  function CommandOf(decode: Decode, e: RaftEntry): Option<Command> {
    if e.kind.Normal? && e.data != [] then decode(e.data) else None
  }

  /** The commands of a log, in order. */
  function CommandsIn(decode: Decode, es: seq<RaftEntry>): seq<Command> {
    if es == [] then []
    else
      var cmd := CommandOf(decode, es[|es| - 1]);
      CommandsIn(decode, es[..|es| - 1]) + if cmd.Some? then [cmd.value] else []
  }

  lemma EntryAppliesCommand(m: Merge, decode: Decode, s: Store, e: RaftEntry)
    ensures var cmd := CommandOf(decode, e); EntryStore(m, decode, s, e) == if cmd.Some? then Apply(m, s, cmd.value) else s
  {
  }

  lemma OneCommandMore(m: Merge, s: Store, cmds: seq<Command>, cmd: Command)
    ensures ApplyLog(m, s, cmds + [cmd]) == Apply(m, ApplyLog(m, s, cmds), cmd)
  {
    assert (cmds + [cmd])[..|cmds|] == cmds;
  }

  /** For every log, the store after its entries is the multi-version store of its commands. */
  lemma {:induction false} StoreIsApplyLog(m: Merge, decode: Decode, s: Store, es: seq<RaftEntry>)
    ensures StoreAfter(m, decode, s, es) == ApplyLog(m, s, CommandsIn(decode, es))
  {
    if es != [] {
      var init, last := es[..|es| - 1], es[|es| - 1];
      var cmds, cmd := CommandsIn(decode, init), CommandOf(decode, last);
      StoreIsApplyLog(m, decode, s, init);
      EntryAppliesCommand(m, decode, StoreAfter(m, decode, s, init), last);
      if cmd.Some? {
        OneCommandMore(m, s, cmds, cmd.value);
      } else {
        assert cmds + [] == cmds;
      }
    }
  }

  /** A transaction with an operation that has no key is refused by every store. */
  lemma RefusedEverywhere(m: Merge, decode: Decode, s: Store, e: RaftEntry, cmd: Command, j: nat)
    requires CommandOf(decode, e) == Some(cmd) && cmd.Transaction? && j < |cmd.subs| && !HasKey(cmd.subs[j])
    ensures EntryFault(m, decode, s, e).Some?
  {
    PrefixDeleteInTransactionRefused(m, s, cmd.readTs, cmd.subs, j);
  }

  /**
   Once a transaction with a prefix deletion is anywhere in the log, no replica ever passes it: the ready loop
   ends there or before, with the store of the commands up to the fault.
   */
  lemma PrefixDeletionStopsReplicas(m: Merge, decode: Decode, s: Store, es: seq<RaftEntry>, i: nat, cmd: Command, j: nat)
    requires i < |es| && CommandOf(decode, es[i]) == Some(cmd)
    requires cmd.Transaction? && j < |cmd.subs| && !HasKey(cmd.subs[j])
    ensures FirstFault(m, decode, s, es) <= i
    ensures forall n: nat | n <= |es| && Faultless(m, decode, s, Passes(es[..n])) :: n <= i
    ensures var stop := FirstFault(m, decode, s, es);
            StoreAfter(m, decode, s, es[..stop]) == ApplyLog(m, s, CommandsIn(decode, es[..stop]))
  {
    var stop := FirstFault(m, decode, s, es);
    RefusedEverywhere(m, decode, StoreAfter(m, decode, s, es[..i]), es[i], cmd, j);
    assert FaultAt(m, decode, s, es, i).Some?;
    forall n: nat | n <= |es| && Faultless(m, decode, s, Passes(es[..n])) ensures n <= i {
      ReplicasStopTogether(m, decode, s, es, n);
    }
    StoreIsApplyLog(m, decode, s, es[..stop]);
  }

  /** A batch on its way: so many of its entries have been passed, none with a fault. */
  ghost predicate Midway(m: Merge, decode: Decode, before: Store, entries: seq<RaftEntry>, i: nat, s: Store, passed: seq<Event>) {
    && i <= |entries| && passed == Passes(entries[..i]) && s == StoreAfter(m, decode, before, entries[..i])
    && forall j | 0 <= j < i :: FaultAt(m, decode, before, entries, j).None?
  }

  /** A batch has run: up to its first fault, or to its end. */
  ghost predicate Ran(m: Merge, decode: Decode, before: Store, entries: seq<RaftEntry>, fault: Option<Fault>, s: Store,
                      passed: seq<Event>) {
    var stop := FirstFault(m, decode, before, entries);
    && fault == (if stop < |entries| then FaultAt(m, decode, before, entries, stop) else None)
    && passed == Passes(entries[..stop]) && s == StoreAfter(m, decode, before, entries[..stop])
  }

  lemma OneFurther(m: Merge, decode: Decode, before: Store, entries: seq<RaftEntry>, i: nat, s: Store, passed: seq<Event>)
    requires i < |entries| && Midway(m, decode, before, entries, i, s, passed)
    ensures EntryFault(m, decode, s, entries[i]).None? ==>
              Midway(m, decode, before, entries, i + 1, EntryStore(m, decode, s, entries[i]), passed + [Passed(entries[i])])
    ensures EntryFault(m, decode, s, entries[i]).Some? ==>
              Ran(m, decode, before, entries, EntryFault(m, decode, s, entries[i]), EntryStore(m, decode, s, entries[i]), passed)
  {
    assert entries[..i + 1][..i] == entries[..i];
    assert Passes(entries[..i + 1]) == Passes(entries[..i]) + [Passed(entries[i])];
    if EntryFault(m, decode, s, entries[i]).Some? {
      FirstFaultIs(m, decode, before, entries, i);
    }
  }

  lemma AllPassed(m: Merge, decode: Decode, before: Store, entries: seq<RaftEntry>, s: Store, passed: seq<Event>)
    requires Midway(m, decode, before, entries, |entries|, s, passed)
    ensures Ran(m, decode, before, entries, None, s, passed)
  {
    FirstFaultIs(m, decode, before, entries, |entries|);
  }

  // ---------- The node ----------

  class RaftNode {
    var appliedIndex: nat
    var selfRemoved: bool
    const fsm: FSM
    ghost const start: nat
    ghost const origin: Store
    ghost var trace: seq<Event>
    ghost var skipped: nat

    /** What holds even after a fault: the store is the one of the trace, and no entry of the trace met a fault. */
    ghost predicate Consistent()
      reads this, fsm.db
    {
      skipped == 0 && LeadsTo(fsm.merge, fsm.decode, start, origin, trace, fsm.db.store)
    }

    /** As long as no batch has failed, the applied index is where the trace ends. */
    ghost predicate Valid()
      reads this, fsm.db
    {
      Consistent() && appliedIndex == LastIndex(start, trace) && appliedIndex < TWO_64 - 1
    }

    /** Start from the index of the persisted snapshot, on the store found. */
    constructor (snapshotIndex: nat, fsm: FSM)
      requires snapshotIndex < TWO_64 - 1
      ensures Valid() && start == snapshotIndex && origin == fsm.db.store && trace == [] && this.fsm == fsm && !selfRemoved
    {
      appliedIndex, start, this.fsm, origin := snapshotIndex, snapshotIndex, fsm, fsm.db.store;
      trace, skipped, selfRemoved := [], 0, false;
    }

    method ApplySnapshot(snap: Snap) returns (fault: Option<Fault>)
      requires Valid() && snap.index < TWO_64 - 1
      modifies this`appliedIndex, this`trace, fsm.db
      ensures fault == if snap.index <= old(appliedIndex) then Some(StaleSnapshot)
                       else if !snap.complete then Some(RestoreFailed) else None
      ensures fault != Some(RestoreFailed) ==> Valid()
      ensures trace == if fault.None? then old(trace) + [Restored(snap.index, snap.contents)] else old(trace)
      ensures fault.Some? ==> appliedIndex == old(appliedIndex)
      ensures fault.None? ==> appliedIndex == snap.index && fsm.db.store == snap.contents
    {
      if snap.index <= appliedIndex {
        return Some(StaleSnapshot);
      }
      ghost var e := Restored(snap.index, snap.contents);
      LeadsOn(fsm.merge, fsm.decode, start, origin, trace, fsm.db.store, e);
      var ok := fsm.RestoreSnapshot(snap.contents, snap.complete);
      if !ok {
        return Some(RestoreFailed);
      }
      appliedIndex := snap.index;
      trace := trace + [e];
      fault := None;
    }

    method ApplyNormalEntry(entry: RaftEntry) returns (fault: Option<Fault>)
      requires entry.kind.Normal? && entry.data != []
      modifies this`skipped, fsm.db
      ensures if entry.index <= appliedIndex then fault.None? && skipped == old(skipped) + 1 && fsm.db.store == old(fsm.db.store)
              else fault == EntryFault(fsm.merge, fsm.decode, old(fsm.db.store), entry) && skipped == old(skipped)
      ensures entry.index > appliedIndex ==>
                fsm.db.store == EntryStore(fsm.merge, fsm.decode, old(fsm.db.store), entry)
    {
      fault := None;
      if entry.index <= appliedIndex {
        skipped := skipped + 1;
        return;
      }
      var err := fsm.Apply(entry.data);
      if err.Some? {
        fault := Some(if err.value.Panic? then Panicked else ApplyFailed);
      }
    }

    /** The switch over one entry; a membership change replaces the verdict of an earlier one. */
    method ApplyEntry(entry: RaftEntry, removed: bool) returns (selfRemove: bool, fault: Option<Fault>)
      requires Consistent() && entry.index == LastIndex(start, trace) + 1 && entry.index > appliedIndex
      modifies this`trace, this`skipped, fsm.db
      ensures Consistent() && trace == if fault.None? then old(trace) + [Passed(entry)] else old(trace)
      ensures fault == EntryFault(fsm.merge, fsm.decode, old(fsm.db.store), entry)
      ensures fsm.db.store == EntryStore(fsm.merge, fsm.decode, old(fsm.db.store), entry)
      ensures fault.None? ==> selfRemove == if entry.kind.ConfChange? then entry.kind.removesThisNode else removed
    {
      ghost var before := fsm.db.store;
      selfRemove, fault := removed, None;
      match entry.kind {
        case Normal =>
          if |entry.data| != 0 {
            fault := ApplyNormalEntry(entry);
          }
        case ConfChange(removes) =>
          selfRemove := removes;
        case BadConfChange =>
          selfRemove, fault := false, Some(BadChange);
        case UnknownKind =>
          fault := Some(UnknownType);
      }
      if fault.None? {
        LeadsOn(fsm.merge, fsm.decode, start, origin, trace, before, Passed(entry));
        trace := trace + [Passed(entry)];
      }
    }

    /** One turn of the loop over a batch. */
    method ApplyNext(entries: seq<RaftEntry>, i: nat, removed: bool, ghost before: Store, ghost passed: seq<Event>)
      returns (selfRemove: bool, fault: Option<Fault>)
      requires Consistent() && i < |entries| && Contiguous(entries) && entries[0].index == appliedIndex + 1
      requires LastIndex(start, trace) == appliedIndex + i && removed == LastChangeRemoves(entries[..i])
      requires Midway(fsm.merge, fsm.decode, before, entries, i, fsm.db.store, passed)
      modifies this`trace, this`skipped, fsm.db
      ensures Consistent()
      ensures fault.None? ==>
                && trace == old(trace) + [Passed(entries[i])] && LastIndex(start, trace) == appliedIndex + i + 1
                && selfRemove == LastChangeRemoves(entries[..i + 1])
                && Midway(fsm.merge, fsm.decode, before, entries, i + 1, fsm.db.store, passed + [Passed(entries[i])])
      ensures fault.Some? ==>
                trace == old(trace) && Ran(fsm.merge, fsm.decode, before, entries, fault, fsm.db.store, passed)
    {
      OneFurther(fsm.merge, fsm.decode, before, entries, i, fsm.db.store, passed);
      ChangesSoFar(entries, i);
      selfRemove, fault := ApplyEntry(entries[i], removed);
    }

    /**
     Apply a batch in order, up to its first fault; the applied index moves once, at the end, so after
     a fault the store is ahead of it.
     */
    method ApplyEntries(entries: seq<RaftEntry>) returns (selfRemove: bool, fault: Option<Fault>, ghost passed: seq<Event>)
      requires Valid() && entries != [] && Contiguous(entries) && entries[0].index == appliedIndex + 1
      modifies this`appliedIndex, this`trace, this`skipped, fsm.db
      ensures Ran(fsm.merge, fsm.decode, old(fsm.db.store), entries, fault, fsm.db.store, passed)
      ensures Consistent() && trace == old(trace) + passed
      ensures fault.None? ==> Valid() && appliedIndex == entries[|entries| - 1].index && selfRemove == LastChangeRemoves(entries)
      ensures fault.Some? ==> appliedIndex == old(appliedIndex)
    {
      selfRemove, passed := false, [];
      ghost var before := fsm.db.store;
      for i := 0 to |entries|
        invariant Consistent() && appliedIndex == old(appliedIndex) && LastIndex(start, trace) == appliedIndex + i
        invariant trace == old(trace) + passed && Midway(fsm.merge, fsm.decode, before, entries, i, fsm.db.store, passed)
        invariant selfRemove == LastChangeRemoves(entries[..i])
      {
        selfRemove, fault := ApplyNext(entries, i, selfRemove, before, passed);
        if fault.Some? {
          return;
        }
        passed := passed + [Passed(entries[i])];
      }
      AllPassed(fsm.merge, fsm.decode, before, entries, fsm.db.store, passed);
      assert entries[..|entries|] == entries;
      appliedIndex := entries[|entries| - 1].index;
      fault := None;
    }

    /** The snapshot of a batch, if it has one. */
    method InstallSnapshot(rd: Ready) returns (fault: Option<Fault>)
      requires Valid() && WellFormed(rd)
      modifies this`appliedIndex, this`trace, fsm.db
      ensures InOrder(start, trace) && (fault != Some(RestoreFailed) ==> Consistent())
      ensures fault == if !Rejected(old(appliedIndex), rd) then None
                       else Some(if rd.snapshot.value.index <= old(appliedIndex) then StaleSnapshot else RestoreFailed)
      ensures fault.Some? ==> trace == old(trace)
      ensures fault.None? ==>
                && Valid() && trace == old(trace) + Install(rd) && fsm.db.store == Loaded(old(fsm.db.store), rd)
                && appliedIndex == Base(old(appliedIndex), rd) >= old(appliedIndex)
    {
      fault := None;
      if rd.snapshot.Some? {
        fault := ApplySnapshot(rd.snapshot.value);
      }
    }

    /** One Ready batch: the snapshot first, then the committed entries that are still to be applied. */
    method ProcessReady(rd: Ready) returns (fault: Option<Fault>, ghost events: seq<Event>)
      requires Valid() && WellFormed(rd)
      modifies this, fsm.db
      ensures trace == old(trace) + events
      ensures ReadyRan(fsm.merge, fsm.decode, old(fsm.db.store), old(appliedIndex), rd, fault, events)
      ensures InOrder(start, trace) && skipped == 0 && (fault != Some(RestoreFailed) ==> Consistent())
      ensures fault.None? ==>
                && Valid() && appliedIndex == Reached(old(appliedIndex), rd) >= old(appliedIndex)
                && (rd.committed != [] ==> appliedIndex >= rd.committed[|rd.committed| - 1].index)
      ensures selfRemoved == (old(selfRemoved) || (fault.None? && Removing(old(appliedIndex), rd)))
    {
      ghost var s, applied, history := fsm.db.store, appliedIndex, trace;
      fault := InstallSnapshot(rd);
      events := [];
      if fault.None? {
        ghost var passed;
        fault, passed := ApplyCommitted(rd.committed);
        ReadyRuns(fsm.merge, fsm.decode, s, applied, rd, fault, passed);
        InTwoSteps(history, Install(rd), passed);
        events := Install(rd) + passed;
      }
    }

    /** getEntriesToApply: what of a batch is still to be applied; None is the panic on a gap. */
    method GetEntriesToApply(committed: seq<RaftEntry>) returns (todo: Option<seq<RaftEntry>>)
      requires appliedIndex < TWO_64 - 1 && Contiguous(committed)
      ensures todo == if committed != [] && committed[0].index > appliedIndex + 1 then None
                      else Some(After(appliedIndex, committed))
      ensures todo.Some? && todo.value != [] ==> Contiguous(todo.value) && todo.value[0].index == appliedIndex + 1
      ensures todo.Some? && todo.value != [] ==> committed != [] && todo.value[|todo.value| - 1] == committed[|committed| - 1]
      ensures todo == Some([]) && committed != [] ==> committed[|committed| - 1].index <= appliedIndex
    {
      EntriesToApplyExact(appliedIndex, committed);
      todo := EntriesToApply(appliedIndex, committed);
      if todo.Some? {
        if todo.value != [] {
          RestIsNext(appliedIndex, committed);
        } else if committed != [] {
          NothingLeft(appliedIndex, committed);
        }
      }
    }

    /** Apply what is left of a batch and note a removal. */
    method ApplyRest(todo: seq<RaftEntry>) returns (fault: Option<Fault>, ghost passed: seq<Event>)
      requires Valid() && todo != [] && Contiguous(todo) && todo[0].index == appliedIndex + 1
      modifies this, fsm.db
      ensures Ran(fsm.merge, fsm.decode, old(fsm.db.store), todo, fault, fsm.db.store, passed)
      ensures Consistent() && trace == old(trace) + passed
      ensures fault.None? ==> Valid() && appliedIndex == todo[|todo| - 1].index
      ensures selfRemoved == (old(selfRemoved) || (fault.None? && LastChangeRemoves(todo)))
    {
      var selfRemove;
      selfRemove, fault, passed := ApplyEntries(todo);
      if fault.None? && selfRemove {
        selfRemoved := true;
      }
    }

    method ApplyCommitted(committed: seq<RaftEntry>) returns (fault: Option<Fault>, ghost passed: seq<Event>)
      requires Valid() && Contiguous(committed)
      modifies this, fsm.db
      ensures CommittedRan(fsm.merge, fsm.decode, old(fsm.db.store), old(appliedIndex), committed, fault, passed)
      ensures Consistent() && trace == old(trace) + passed
      ensures selfRemoved == (old(selfRemoved) || (fault.None? && LastChangeRemoves(After(old(appliedIndex), committed))))
      ensures fault.None? ==> Valid() && appliedIndex == EndOf(old(appliedIndex), committed) >= old(appliedIndex)
      ensures fault.None? && committed != [] ==> appliedIndex >= committed[|committed| - 1].index
    {
      var todo := GetEntriesToApply(committed);
      fault, passed := None, [];
      if todo.None? {
        return Some(Gap), [];
      }
      if todo.value != [] {
        fault, passed := ApplyRest(todo.value);
      }
    }

    /**
     The ready loop over any sequence of batches: it handles them all, or those up to the first one that removes
     the node, and ignores the rest; a batch with a fault ends it.
     */
    method ReadyHandler(batches: seq<Ready>) returns (fault: Option<Fault>, ghost at: seq<nat>, ghost parts: seq<seq<Event>>)
      requires Valid() && forall rd | rd in batches :: WellFormed(rd)
      modifies this, fsm.db
      ensures InOrder(start, trace) && skipped == 0 && (fault != Some(RestoreFailed) ==> Consistent())
      ensures Course(old(appliedIndex), batches, at, parts) && Stays(batches, at, |parts|, old(selfRemoved), selfRemoved)
      ensures fault.None? ==>
                && Valid() && trace == old(trace) + Joined(parts) && (|parts| == |batches| || selfRemoved)
                && appliedIndex == at[|parts|] && ReachesAll(appliedIndex, batches, |parts|)
      ensures fault.Some? ==>
                && |parts| < |batches| && !selfRemoved
                && FailedAt(fsm.merge, fsm.decode, origin, old(trace) + Joined(parts), at[|parts|], batches[|parts|], fault, trace)
    {
      fault, at, parts := None, [appliedIndex], [];
      for i := 0 to |batches|
        invariant Valid() && fault.None? && |parts| <= i && (!selfRemoved ==> |parts| == i)
        invariant Course(old(appliedIndex), batches, at, parts) && Stays(batches, at, |parts|, old(selfRemoved), selfRemoved)
        invariant trace == old(trace) + Joined(parts) && appliedIndex == at[|parts|] && ReachesAll(appliedIndex, batches, |parts|)
      {
        if !selfRemoved {
          fault, at, parts := HandleNext(batches[i], batches, old(appliedIndex), old(trace), at, parts);
          if fault.Some? {
            return;
          }
        }
      }
    }

    /** One turn of the ready loop. */
    method HandleNext(rd: Ready, ghost batches: seq<Ready>, ghost applied: nat, ghost history: seq<Event>, ghost at: seq<nat>,
                      ghost parts: seq<seq<Event>>)
      returns (fault: Option<Fault>, ghost at': seq<nat>, ghost parts': seq<seq<Event>>)
      requires Valid() && WellFormed(rd) && !selfRemoved && |parts| < |batches| && rd == batches[|parts|]
      requires Course(applied, batches, at, parts) && Stays(batches, at, |parts|, false, false)
      requires trace == history + Joined(parts) && appliedIndex == at[|parts|] && ReachesAll(appliedIndex, batches, |parts|)
      modifies this, fsm.db
      ensures InOrder(start, trace) && skipped == 0 && (fault != Some(RestoreFailed) ==> Consistent())
      ensures fault.None? ==>
                && Valid() && |parts'| == |parts| + 1
                && Course(applied, batches, at', parts') && Stays(batches, at', |parts'|, false, selfRemoved)
                && trace == history + Joined(parts') && appliedIndex == at'[|parts'|] && ReachesAll(appliedIndex, batches, |parts'|)
      ensures fault.Some? ==>
                && !selfRemoved && at' == at && parts' == parts
                && FailedAt(fsm.merge, fsm.decode, origin, history + Joined(parts), at[|parts|], rd, fault, trace)
    {
      ghost var n, part := |parts|, [];
      fault, part := ProcessReady(rd);
      at', parts' := at, parts;
      if fault.None? {
        JoinedOneMore(history, parts, part);
        CourseGoesOn(applied, batches, at, parts, appliedIndex, part);
        StaysOneMore(batches, at, n, appliedIndex);
        ReachesOneMore(at[n], appliedIndex, batches, n);
        at', parts' := at + [appliedIndex], parts + [part];
      }
    }
  }
}
