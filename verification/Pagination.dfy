/** Paginated prefix scans over the sorted keys of the store. */
module Pagination {
  import opened Bytes
  import opened Commands
  import opened Prefix

  datatype Entry = Entry(key: Key, value: Value)

  ghost predicate InOrder(s: seq<Entry>, i: int, j: int) {
    0 <= i < j < |s| ==> Less(s[i].key, s[j].key)
  }

  ghost predicate KeyPresent(s: seq<Entry>, i: int) {
    0 <= i < |s| ==> s[i].key != []
  }

  /** What an iterator walks over: keys in ascending byte order, none of them empty. */
  ghost predicate Ascending(s: seq<Entry>) {
    (forall i, j :: InOrder(s, i, j)) && (forall i :: KeyPresent(s, i))
  }

  lemma AscendingTail(s: seq<Entry>)
    requires Ascending(s) && s != []
    ensures Ascending(s[1..])
  {
    forall i, j ensures InOrder(s[1..], i, j) {
      assert InOrder(s, i + 1, j + 1);
    }
    forall i ensures KeyPresent(s[1..], i) {
      assert KeyPresent(s, i + 1);
    }
  }

  /** Seek: the first key at or after the given one. */
  function Seek(s: seq<Entry>, k: Key): (r: nat)
    ensures r <= |s|
  {
    if s == [] || AtLeast(s[0].key, k) then 0 else 1 + Seek(s[1..], k)
  }

  lemma {:induction false} SeekSplits(s: seq<Entry>, k: Key)
    requires Ascending(s)
    ensures forall i | 0 <= i < |s| :: AtLeast(s[i].key, k) <==> i >= Seek(s, k)
  {
    if s != [] {
      AscendingTail(s);
      SeekSplits(s[1..], k);
      forall i | 0 <= i < |s| ensures AtLeast(s[i].key, k) <==> i >= Seek(s, k) {
        if i > 0 {
          assert s[i] == s[1..][i - 1];
          assert InOrder(s, 0, i);
          if AtLeast(s[0].key, k) && Less(s[i].key, k) {
            LessIsTransitive(s[0].key, s[i].key, k);
            assert false;
          }
        }
      }
    }
  }

  lemma SeekFinds(s: seq<Entry>, c: nat)
    requires Ascending(s) && c < |s|
    ensures Seek(s, s[c].key) == c
  {
    SeekSplits(s, s[c].key);
    LessIsTotal(s[c].key, s[c].key);
    assert InOrder(s, c - 1, c);
  }

  // ---------- One page ----------

  type Process = (Key, Value) -> bool

  /** The page is full. */
  predicate Full(limit: Option<int>, count: nat) {
    limit.Some? && count >= limit.value
  }

  datatype PageResult = PageResult(visited: seq<Entry>, next: Key)

  /**
   The walk from index i with so many items counted. The item at i is checked against p, which is the
   cursor for the first item, and later ones against the prefix.
   */
  function Walk(s: seq<Entry>, i: nat, p: Key, prefix: Key, limit: Option<int>, count: nat, process: Process): PageResult
    requires i <= |s|
    decreases |s| - i
  {
    if i == |s| || !HasPrefix(s[i].key, p) then PageResult([], [])
    else if Full(limit, count) then PageResult([], s[i].key)
    else
      var r := Walk(s, i + 1, prefix, prefix, limit, if process(s[i].key, s[i].value) then count + 1 else count, process);
      PageResult([s[i]] + r.visited, r.next)
  }

  function Page(s: seq<Entry>, prefix: Key, cursor: Key, limit: Option<int>, process: Process): PageResult {
    var p := if cursor != [] then cursor else prefix;
    Walk(s, Seek(s, p), p, prefix, limit, 0, process)
  }

  /** How many items the walk looks at: the visited ones, and the one it stops at because the page is full. */
  function Looked(s: seq<Entry>, i: nat, p: Key, prefix: Key, limit: Option<int>, count: nat, process: Process): nat
    requires i <= |s|
    decreases |s| - i
  {
    if i == |s| || !HasPrefix(s[i].key, p) then 0
    else if Full(limit, count) then 1
    else 1 + Looked(s, i + 1, prefix, prefix, limit, if process(s[i].key, s[i].value) then count + 1 else count, process)
  }

  function LookedAt(s: seq<Entry>, prefix: Key, cursor: Key, limit: Option<int>, process: Process): nat {
    var p := if cursor != [] then cursor else prefix;
    Looked(s, Seek(s, p), p, prefix, limit, 0, process)
  }

  /** On keys that are not empty these are the visited items, and one more when there is a next page. */
  lemma {:induction false} LookedIs(s: seq<Entry>, i: nat, p: Key, prefix: Key, limit: Option<int>, count: nat, process: Process)
    requires i <= |s| && forall e | e in s :: e.key != []
    ensures var r := Walk(s, i, p, prefix, limit, count, process);
            Looked(s, i, p, prefix, limit, count, process) == |r.visited| + if r.next != [] then 1 else 0
    decreases |s| - i
  {
    if i < |s| && HasPrefix(s[i].key, p) && !Full(limit, count) {
      LookedIs(s, i + 1, prefix, prefix, limit, if process(s[i].key, s[i].value) then count + 1 else count, process);
    }
  }

  /** The page is what has been visited, followed by what the walk still visits. */
  ghost predicate Ahead(page: PageResult, looked: nat, visited: seq<Entry>, rest: PageResult, toLook: nat) {
    page.visited == visited + rest.visited && page.next == rest.next && looked == |visited| + toLook
  }

  lemma NextItem(page: PageResult, looked: nat, visited: seq<Entry>, e: Entry, rest: PageResult, toLook: nat)
    requires Ahead(page, looked, visited, PageResult([e] + rest.visited, rest.next), 1 + toLook)
    ensures |visited| < |page.visited| && |visited| < looked && Ahead(page, looked, visited + [e], rest, toLook)
  {
    assert visited + ([e] + rest.visited) == visited + [e] + rest.visited;
  }

  lemma LastItem(page: PageResult, looked: nat, visited: seq<Entry>, next: Key, toLook: nat)
    requires Ahead(page, looked, visited, PageResult([], next), toLook)
    ensures page == PageResult(visited, next) && looked == |visited| + toLook
  {
    assert visited + [] == visited;
  }

  /**
   IterateByPrefix: visited are the items handed to process, in order. It breaks off at the first item where it can,
   without a cursor; otherwise it returns the page.
   */
  method IterateByPrefix(s: seq<Entry>, prefix: Key, startCursor: Key, limit: Option<int>, process: Process,
                         done: nat -> bool, unreadable: nat -> bool)
    returns (nextCursor: Key, visited: seq<Entry>, failed: bool)
    ensures var page, looked := Page(s, prefix, startCursor, limit, process), LookedAt(s, prefix, startCursor, limit, process);
            if failed then
              && nextCursor == [] && visited <= page.visited && |visited| < looked
              && (done(|visited|) || (|visited| < |page.visited| && unreadable(|visited|)))
              && (forall n | 0 <= n < |visited| :: !done(n) && !unreadable(n))
            else
              && PageResult(visited, nextCursor) == page && (forall n | 0 <= n < looked :: !done(n))
              && (forall n | 0 <= n < |visited| :: !unreadable(n))
  {
    nextCursor, visited, failed := [], [], false;
    var p := if startCursor != [] then startCursor else prefix;
    var iterNum := 0;
    var it := Seek(s, p);
    ghost var page := Page(s, prefix, startCursor, limit, process);
    ghost var looked := LookedAt(s, prefix, startCursor, limit, process);
    while it < |s| && HasPrefix(s[it].key, p)
      invariant it <= |s| && nextCursor == []
      invariant Ahead(page, looked, visited, Walk(s, it, p, prefix, limit, iterNum, process),
                      Looked(s, it, p, prefix, limit, iterNum, process))
      invariant forall n | 0 <= n < |visited| :: !done(n) && !unreadable(n)
      decreases |s| - it
    {
      if done(|visited|) {
        return [], visited, true;
      }
      if limit.Some? && iterNum >= limit.value {
        LastItem(page, looked, visited, s[it].key, 1);
        return s[it].key, visited, false;
      }
      ghost var count := if process(s[it].key, s[it].value) then iterNum + 1 else iterNum;
      NextItem(page, looked, visited, s[it], Walk(s, it + 1, prefix, prefix, limit, count, process),
               Looked(s, it + 1, prefix, prefix, limit, count, process));
      if unreadable(|visited|) {
        return [], visited, true;
      }
      p := prefix;
      visited := visited + [s[it]];
      if process(s[it].key, s[it].value) {
        iterNum := iterNum + 1;
      }
      it := it + 1;
    }
    LastItem(page, looked, visited, [], 0);
    if limit.Some? && iterNum < limit.value {
      nextCursor := [];
    }
  }

  // ---------- All pages ----------

  /** All entries with the prefix, in order. */
  function WithPrefix(s: seq<Entry>, prefix: Key): seq<Entry> {
    if s == [] then [] else (if HasPrefix(s[0].key, prefix) then [s[0]] else []) + WithPrefix(s[1..], prefix)
  }

  /** The entries from index i on, as long as they have the prefix. */
  function RunEnd(s: seq<Entry>, i: nat, prefix: Key): (r: nat)
    requires i <= |s|
    ensures i <= r <= |s|
    decreases |s| - i
  {
    if i == |s| || !HasPrefix(s[i].key, prefix) then i else RunEnd(s, i + 1, prefix)
  }

  /** The limit lets a page visit something. */
  predicate Advances(limit: Option<int>) {
    limit.Some? ==> limit.value >= 1
  }

  /** The next page starts inside the run that this one started in, after everything visited. */
  ghost predicate Continues(s: seq<Entry>, prefix: Key, i: nat, r: PageResult)
    requires i <= |s|
  {
    var stop, j := RunEnd(s, i, prefix), i + |r.visited|;
    && j <= stop && r.visited == s[i..j]
    && if j == stop then r.next == [] else r.next == s[j].key && RunEnd(s, j, prefix) == stop
  }

  lemma {:induction false} WalkContinues(s: seq<Entry>, i: nat, prefix: Key, limit: Option<int>, count: nat, process: Process)
    requires i <= |s|
    ensures Continues(s, prefix, i, Walk(s, i, prefix, prefix, limit, count, process))
    decreases |s| - i
  {
    if i < |s| && HasPrefix(s[i].key, prefix) && !Full(limit, count) {
      WalkContinues(s, i + 1, prefix, limit, if process(s[i].key, s[i].value) then count + 1 else count, process);
    }
  }

  /** A cursor that a page of the same scan may have returned: a key with the prefix, or none yet. */
  predicate CursorOk(prefix: Key, cursor: Key) {
    cursor != [] ==> HasPrefix(cursor, prefix)
  }

  /** The key a scan seeks. */
  function SeekKey(prefix: Key, cursor: Key): Key {
    if cursor != [] then cursor else prefix
  }

  function StartOf(s: seq<Entry>, prefix: Key, cursor: Key): (r: nat)
    ensures r <= |s|
  {
    Seek(s, SeekKey(prefix, cursor))
  }

  /** The item a scan seeks has the sought key as a prefix. */
  predicate Resumes(s: seq<Entry>, prefix: Key, cursor: Key) {
    var i := StartOf(s, prefix, cursor);
    i < |s| && HasPrefix(s[i].key, SeekKey(prefix, cursor))
  }

  /** A page is a walk along a run, where a cursor and the prefix agree on its first item; otherwise it is empty. */
  lemma PageIsWalk(s: seq<Entry>, prefix: Key, cursor: Key, limit: Option<int>, process: Process)
    requires CursorOk(prefix, cursor)
    ensures Page(s, prefix, cursor, limit, process)
         == if Resumes(s, prefix, cursor) then Walk(s, StartOf(s, prefix, cursor), prefix, prefix, limit, 0, process)
            else PageResult([], [])
  {
  }

  /** The cursor a page returns leads to the index where it stopped. */
  lemma CursorLeadsOn(s: seq<Entry>, prefix: Key, i: nat, r: PageResult)
    requires Ascending(s) && i <= |s| && Continues(s, prefix, i, r)
    ensures CursorOk(prefix, r.next)
    ensures r.next != [] ==> StartOf(s, prefix, r.next) == i + |r.visited| && Resumes(s, prefix, r.next)
  {
    var j := i + |r.visited|;
    if j < RunEnd(s, i, prefix) {
      assert KeyPresent(s, j);
      SeekFinds(s, j);
      InRun(s, j, prefix);
    }
  }

  lemma InRun(s: seq<Entry>, j: nat, prefix: Key)
    requires j < |s| && RunEnd(s, j, prefix) > j
    ensures HasPrefix(s[j].key, prefix)
  {
  }

  lemma StopsOnlyWhenFull(s: seq<Entry>, i: nat, prefix: Key, limit: Option<int>, process: Process)
    requires i <= |s| && Advances(limit)
    ensures var r := Walk(s, i, prefix, prefix, limit, 0, process); r.next != [] ==> r.visited != []
  {
  }

  /** Following the cursor from page to page until it is empty; everything visited, in order. */
  function AllPages(s: seq<Entry>, prefix: Key, cursor: Key, limit: Option<int>, process: Process): seq<Entry>
    requires Ascending(s) && CursorOk(prefix, cursor) && Advances(limit)
    decreases |s| - StartOf(s, prefix, cursor)
  {
    var r := Page(s, prefix, cursor, limit, process);
    NextPage(s, prefix, cursor, limit, process);
    if r.next == [] then r.visited else r.visited + AllPages(s, prefix, r.next, limit, process)
  }

  lemma NextPage(s: seq<Entry>, prefix: Key, cursor: Key, limit: Option<int>, process: Process)
    requires Ascending(s) && CursorOk(prefix, cursor) && Advances(limit)
    ensures var r := Page(s, prefix, cursor, limit, process); var i := StartOf(s, prefix, cursor);
            && CursorOk(prefix, r.next)
            && (if Resumes(s, prefix, cursor) then Continues(s, prefix, i, r) else r == PageResult([], []))
            && (r.next != [] ==> r.visited != [] && StartOf(s, prefix, r.next) == i + |r.visited| && Resumes(s, prefix, r.next))
  {
    var i := StartOf(s, prefix, cursor);
    PageIsWalk(s, prefix, cursor, limit, process);
    if Resumes(s, prefix, cursor) {
      WalkContinues(s, i, prefix, limit, 0, process);
      CursorLeadsOn(s, prefix, i, Walk(s, i, prefix, prefix, limit, 0, process));
      StopsOnlyWhenFull(s, i, prefix, limit, process);
    }
  }

  /** A page and the rest of the run behind it. */
  lemma RunGoesOn(s: seq<Entry>, prefix: Key, i: nat, r: PageResult, rest: seq<Entry>)
    requires i <= |s| && Continues(s, prefix, i, r) && r.next != []
    requires var j := i + |r.visited|; rest == s[j..RunEnd(s, j, prefix)]
    ensures r.visited + rest == s[i..RunEnd(s, i, prefix)]
  {
    var j, stop := i + |r.visited|, RunEnd(s, i, prefix);
    assert s[i..j] + s[j..stop] == s[i..stop];
  }

  lemma AllPagesFollow(s: seq<Entry>, prefix: Key, cursor: Key, limit: Option<int>, process: Process)
    requires Ascending(s) && CursorOk(prefix, cursor) && Advances(limit)
    ensures var r := Page(s, prefix, cursor, limit, process);
            && CursorOk(prefix, r.next)
            && AllPages(s, prefix, cursor, limit, process)
               == if r.next == [] then r.visited else r.visited + AllPages(s, prefix, r.next, limit, process)
  {
    NextPage(s, prefix, cursor, limit, process);
  }

  lemma {:induction false} AllPagesAreTheRun(s: seq<Entry>, prefix: Key, cursor: Key, limit: Option<int>, process: Process)
    requires Ascending(s) && CursorOk(prefix, cursor) && Advances(limit) && Resumes(s, prefix, cursor)
    ensures var i := StartOf(s, prefix, cursor); AllPages(s, prefix, cursor, limit, process) == s[i..RunEnd(s, i, prefix)]
    decreases |s| - StartOf(s, prefix, cursor)
  {
    var r := Page(s, prefix, cursor, limit, process);
    NextPage(s, prefix, cursor, limit, process);
    AllPagesFollow(s, prefix, cursor, limit, process);
    var i := StartOf(s, prefix, cursor);
    if r.next == [] {
      RunStops(s, prefix, i, r);
    } else {
      AllPagesAreTheRun(s, prefix, r.next, limit, process);
      RunGoesOn(s, prefix, i, r, AllPages(s, prefix, r.next, limit, process));
    }
  }

  lemma AllPagesEmpty(s: seq<Entry>, prefix: Key, cursor: Key, limit: Option<int>, process: Process)
    requires Ascending(s) && CursorOk(prefix, cursor) && Advances(limit) && !Resumes(s, prefix, cursor)
    ensures AllPages(s, prefix, cursor, limit, process) == []
  {
    NextPage(s, prefix, cursor, limit, process);
    AllPagesFollow(s, prefix, cursor, limit, process);
  }

  lemma AllPagesAre(s: seq<Entry>, prefix: Key, cursor: Key, limit: Option<int>, process: Process)
    requires Ascending(s) && CursorOk(prefix, cursor) && Advances(limit)
    ensures AllPages(s, prefix, cursor, limit, process)
         == if Resumes(s, prefix, cursor) then RunOf(s, prefix, SeekKey(prefix, cursor)) else []
  {
    if Resumes(s, prefix, cursor) {
      AllPagesAreTheRun(s, prefix, cursor, limit, process);
    } else {
      AllPagesEmpty(s, prefix, cursor, limit, process);
    }
  }

  /** An empty cursor is returned only at the end of the run. */
  lemma RunStops(s: seq<Entry>, prefix: Key, i: nat, r: PageResult)
    requires Ascending(s) && i <= |s| && Continues(s, prefix, i, r) && r.next == []
    ensures r.visited == s[i..RunEnd(s, i, prefix)]
  {
    assert KeyPresent(s, i + |r.visited|);
  }

  /** The entries with the prefix at or above a key, in order. */
  function From(s: seq<Entry>, prefix: Key, k: Key): seq<Entry> {
    if s == [] then []
    else (if HasPrefix(s[0].key, prefix) && AtLeast(s[0].key, k) then [s[0]] else []) + From(s[1..], prefix, k)
  }

  lemma {:induction false} NoneWithPrefix(s: seq<Entry>, prefix: Key, k: Key)
    requires forall e | e in s :: !HasPrefix(e.key, prefix)
    ensures From(s, prefix, k) == []
  {
    if s != [] {
      assert s[0] in s;
      NoneWithPrefix(s[1..], prefix, k);
    }
  }

  lemma {:induction false} FromPrefixIsAll(s: seq<Entry>, prefix: Key)
    ensures From(s, prefix, prefix) == WithPrefix(s, prefix)
  {
    if s != [] {
      FromPrefixIsAll(s[1..], prefix);
      PrefixRangeExact(prefix, s[0].key);
    }
  }

  /** Keys with a common prefix are neighbours: nothing after the first other key has the prefix. */
  lemma RunIsAll(s: seq<Entry>, prefix: Key, i: nat, j: nat)
    requires Ascending(s) && i < j < |s| && AtLeast(s[i].key, prefix) && !HasPrefix(s[i].key, prefix)
    ensures !HasPrefix(s[j].key, prefix)
  {
    assert InOrder(s, i, j);
    PrefixRangeExact(prefix, s[i].key);
    PrefixRangeExact(prefix, s[j].key);
    if HasPrefix(s[j].key, prefix) {
      LessIsTransitive(s[i].key, s[j].key, PrefixEnd(prefix));
    }
  }

  /** The run of prefixed entries that starts where the seek for a key ends. */
  function RunOf(s: seq<Entry>, prefix: Key, k: Key): seq<Entry> {
    var i := Seek(s, k);
    s[i..RunEnd(s, i, prefix)]
  }

  lemma RunBegins(s: seq<Entry>, prefix: Key, k: Key)
    requires Ascending(s) && s != [] && AtLeast(s[0].key, k) && HasPrefix(s[0].key, prefix)
    ensures RunOf(s, prefix, k) == [s[0]] + RunOf(s[1..], prefix, k)
  {
    RunShift(s, 1, prefix);
    SeekNext(s, k);
  }

  lemma RunLater(s: seq<Entry>, prefix: Key, k: Key)
    requires s != [] && !AtLeast(s[0].key, k)
    ensures RunOf(s, prefix, k) == RunOf(s[1..], prefix, k)
  {
    RunShift(s, Seek(s, k), prefix);
  }

  /** The run holds all prefixed entries at or above the sought key. */
  lemma {:induction false} RunIsFrom(s: seq<Entry>, prefix: Key, k: Key)
    requires Ascending(s) && HasPrefix(k, prefix)
    ensures From(s, prefix, k) == RunOf(s, prefix, k)
  {
    if s != [] {
      AscendingTail(s);
      RunIsFrom(s[1..], prefix, k);
      if !AtLeast(s[0].key, k) {
        RunLater(s, prefix, k);
      } else if HasPrefix(s[0].key, prefix) {
        RunBegins(s, prefix, k);
      } else {
        AbovePrefix(s[0].key, prefix, k);
        NoneAfter(s, prefix, k);
      }
    }
  }

  lemma AbovePrefix(a: Key, prefix: Key, k: Key)
    requires HasPrefix(k, prefix) && AtLeast(a, k)
    ensures AtLeast(a, prefix)
  {
    PrefixRangeExact(prefix, k);
    if Less(a, prefix) {
      LessIsTotal(k, prefix);
      if k != prefix {
        LessIsTransitive(a, prefix, k);
      }
    }
  }

  lemma NoneAfter(s: seq<Entry>, prefix: Key, k: Key)
    requires Ascending(s) && s != [] && AtLeast(s[0].key, prefix) && !HasPrefix(s[0].key, prefix)
    ensures From(s[1..], prefix, k) == []
  {
    forall e | e in s[1..] ensures !HasPrefix(e.key, prefix) {
      var j :| 0 <= j < |s[1..]| && s[1..][j] == e;
      RunIsAll(s, prefix, 0, j + 1);
    }
    NoneWithPrefix(s[1..], prefix, k);
  }

  /** A scan resumes exactly when some key has the sought key as a prefix. */
  lemma ResumesIfAny(s: seq<Entry>, prefix: Key, cursor: Key)
    requires Ascending(s)
    ensures Resumes(s, prefix, cursor) <==> WithPrefix(s, SeekKey(prefix, cursor)) != []
  {
    var k := SeekKey(prefix, cursor);
    FromPrefixIsAll(s, k);
    RunIsFrom(s, k, k);
  }

  lemma {:induction false} RunShift(s: seq<Entry>, i: nat, prefix: Key)
    requires 0 < i <= |s|
    ensures RunEnd(s, i, prefix) == 1 + RunEnd(s[1..], i - 1, prefix)
    decreases |s| - i
  {
    if i < |s| && HasPrefix(s[i].key, prefix) {
      RunShift(s, i + 1, prefix);
    }
  }

  lemma SeekNext(s: seq<Entry>, prefix: Key)
    requires Ascending(s) && s != [] && AtLeast(s[0].key, prefix)
    ensures Seek(s[1..], prefix) == 0
  {
    assert InOrder(s, 0, 1);
    if |s| > 1 && Less(s[1].key, prefix) {
      LessIsTransitive(s[0].key, s[1].key, prefix);
    }
  }

  /** The pages of a scan, put together, are all entries with the prefix, each once and in order. */
  lemma PagesAreExact(s: seq<Entry>, prefix: Key, limit: Option<int>, process: Process)
    requires Ascending(s) && Advances(limit)
    ensures AllPages(s, prefix, [], limit, process) == WithPrefix(s, prefix)
  {
    AllPagesAre(s, prefix, [], limit, process);
    ResumesIfAny(s, prefix, []);
    FromPrefixIsAll(s, prefix);
    RunIsFrom(s, prefix, prefix);
  }

  /** The visited items that process accepted. */
  function Accepted(es: seq<Entry>, process: Process): nat {
    if es == [] then 0 else (if process(es[0].key, es[0].value) then 1 else 0) + Accepted(es[1..], process)
  }

  lemma {:induction false} WalkFillsThePage(s: seq<Entry>, i: nat, p: Key, prefix: Key, limit: Option<int>, count: nat,
                                            process: Process)
    requires i <= |s| && (limit.Some? ==> count <= limit.value)
    ensures var r := Walk(s, i, p, prefix, limit, count, process); var n := count + Accepted(r.visited, process);
            && (limit.Some? ==> n <= limit.value) && (r.next != [] ==> limit == Some(n))
    decreases |s| - i
  {
    if i < |s| && HasPrefix(s[i].key, p) && !Full(limit, count) {
      var count' := if process(s[i].key, s[i].value) then count + 1 else count;
      WalkFillsThePage(s, i + 1, prefix, prefix, limit, count', process);
      var rest := Walk(s, i + 1, prefix, prefix, limit, count', process).visited;
      assert ([s[i]] + rest)[1..] == rest;
    }
  }

  /** A page never accepts more items than the limit, and has a next cursor only when it accepted exactly that many. */
  lemma PageIsFilled(s: seq<Entry>, prefix: Key, cursor: Key, limit: Option<int>, process: Process)
    requires limit.Some? ==> limit.value >= 0
    ensures var r := Page(s, prefix, cursor, limit, process); var n := Accepted(r.visited, process);
            (limit.Some? ==> n <= limit.value) && (r.next != [] ==> limit == Some(n))
  {
    var p := if cursor != [] then cursor else prefix;
    WalkFillsThePage(s, Seek(s, p), p, prefix, limit, 0, process);
  }

  /** A limit below one never advances: the page is empty and its cursor leads to the same page again. */
  lemma ZeroLimitStalls(s: seq<Entry>, prefix: Key, limit: Option<int>, process: Process)
    requires Ascending(s) && !Advances(limit) && WithPrefix(s, prefix) != []
    ensures var r := Page(s, prefix, [], limit, process);
            r.visited == [] && r.next != [] && Page(s, prefix, r.next, limit, process) == r
  {
    ResumesIfAny(s, prefix, []);
    var i := Seek(s, prefix);
    assert KeyPresent(s, i);
    SeekFinds(s, i);
  }

  /**
   From a cursor on, the pages are all prefixed entries at or above it exactly when some key still has the
   cursor as a prefix, or nothing is left to visit: the store may have changed since the cursor was returned.
   */
  lemma ResumesExactly(s: seq<Entry>, prefix: Key, cursor: Key, limit: Option<int>, process: Process)
    requires Ascending(s) && Advances(limit) && cursor != [] && HasPrefix(cursor, prefix)
    ensures AllPages(s, prefix, cursor, limit, process) == From(s, prefix, cursor)
       <==> WithPrefix(s, cursor) != [] || From(s, prefix, cursor) == []
  {
    AllPagesAre(s, prefix, cursor, limit, process);
    ResumesIfAny(s, prefix, cursor);
    RunIsFrom(s, prefix, cursor);
  }

  lemma LessInLastByte(a: byte, b: byte, c: byte)
    requires b < c
    ensures Less([a, b], [a, c]) && !HasPrefix([a, c], [a, b]) && AtLeast([a, c], [a, b])
  {
    assert [a, b][1..] == [b] && [a, c][1..] == [c];
    assert [a, b][1] != [a, c][1];
    LessIsTotal([a, b], [a, c]);
  }

  /** So a scan whose cursor key was deleted in between ends although entries are left. */
  lemma DeletedCursorLosesEntries(v: Value, process: Process)
    requires process([1, 0], v)
    ensures var s := [Entry([1, 0], v), Entry([1, 1], v), Entry([1, 2], v)];
            var s' := [Entry([1, 0], v), Entry([1, 2], v)];
            && Ascending(s) && Ascending(s')
            && Page(s, [1], [], Some(1), process) == PageResult([Entry([1, 0], v)], [1, 1])
            && AllPages(s', [1], [1, 1], Some(1), process) == []
            && From(s', [1], [1, 1]) == [Entry([1, 2], v)]
  {
    var s := [Entry([1, 0], v), Entry([1, 1], v), Entry([1, 2], v)];
    var s' := [Entry([1, 0], v), Entry([1, 2], v)];
    LessInLastByte(1, 0, 1);
    LessInLastByte(1, 0, 2);
    LessInLastByte(1, 1, 2);
    assert Ascending(s) && Ascending(s');
    assert Seek(s, [1]) == 0;
    assert Walk(s, 1, [1], [1], Some(1), 1, process) == PageResult([], [1, 1]);
    assert s'[1..] == [Entry([1, 2], v)] && s'[1..][1..] == [];
    assert Seek(s', [1, 1]) == 1;
    assert From(s'[1..][1..], [1], [1, 1]) == [];
    assert From(s'[1..], [1], [1, 1]) == [Entry([1, 2], v)];
    AllPagesEmpty(s', [1], [1, 1], Some(1), process);
  }
}
