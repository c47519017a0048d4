/** Searching the tree: which nodes a visit reports, in which order, and what the queries make of them. */
module RbQuery {
  import opened Bytes
  import opened Interval
  import opened Nodes
  import opened RbTree

  datatype Hit = Hit(node: Node, iv: IntervalValue)

  function NodesOf(t: Tree): seq<Hit> {
    if t.Nil? then [] else NodesOf(t.l) + [Hit(t.node, t.iv)] + NodesOf(t.r)
  }

  function Ivs(hits: seq<Hit>): seq<IntervalValue> {
    if hits == [] then [] else [hits[0].iv] + Ivs(hits[1..])
  }

  lemma {:induction false} IvsAppend(a: seq<Hit>, b: seq<Hit>)
    ensures Ivs(a + b) == Ivs(a) + Ivs(b)
  {
    if a == [] {
      assert a + b == b;
    } else {
      IvsAppend(a[1..], b);
      assert (a + b)[1..] == a[1..] + b;
      assert [a[0].iv] + (Ivs(a[1..]) + Ivs(b)) == [a[0].iv] + Ivs(a[1..]) + Ivs(b);
    }
  }

  lemma {:induction false} NodesInOrder(t: Tree)
    ensures Ivs(NodesOf(t)) == Inorder(t)
  {
    if t.Br? {
      NodesInOrder(t.l);
      NodesInOrder(t.r);
      var mid := [Hit(t.node, t.iv)];
      IvsAppend(NodesOf(t.l) + mid, NodesOf(t.r));
      IvsAppend(NodesOf(t.l), mid);
      assert Ivs(mid) == [t.iv];
    }
  }

  lemma {:induction false} IvsAt(hits: seq<Hit>)
    ensures |Ivs(hits)| == |hits| && forall i | 0 <= i < |hits| :: Ivs(hits)[i] == hits[i].iv
  {
    if hits != [] {
      IvsAt(hits[1..]);
      forall i | 0 < i < |hits| ensures Ivs(hits)[i] == hits[i].iv {
        assert hits[i] == hits[1..][i - 1];
      }
    }
  }

  // ---------- visit ----------

  /** The nodes visit reports, following its descent and its pruning by the maximum endpoint. */
  function Hits(t: Tree, q: Interval): seq<Hit> {
    if t.Nil? then []
    else
      var v := Compare(q, t.iv.ivl);
      if v < 0 then Hits(t.l, q)
      else if v > 0 then
        if Compare(Interval(t.iv.ivl.begin, t.max), q) == 0 then Hits(t.l, q) + Hits(t.r, q) else []
      else Hits(t.l, q) + [Hit(t.node, t.iv)] + Hits(t.r, q)
  }

  /** All nodes whose interval the comparison takes for an overlap, in order. */
  function Meeting(hits: seq<Hit>, q: Interval): seq<Hit> {
    if hits == [] then []
    else (if Compare(q, hits[0].iv.ivl) == 0 then [hits[0]] else []) + Meeting(hits[1..], q)
  }

  /** The same on plain contents. */
  function Overlapping(s: seq<IntervalValue>, q: Interval): seq<IntervalValue> {
    if s == [] then []
    else (if Compare(q, s[0].ivl) == 0 then [s[0]] else []) + Overlapping(s[1..], q)
  }

  lemma {:induction false} MeetingAppend(a: seq<Hit>, b: seq<Hit>, q: Interval)
    ensures Meeting(a + b, q) == Meeting(a, q) + Meeting(b, q)
  {
    if a == [] {
      assert a + b == b;
    } else {
      MeetingAppend(a[1..], b, q);
      assert (a + b)[1..] == a[1..] + b;
      var head := if Compare(q, a[0].iv.ivl) == 0 then [a[0]] else [];
      assert head + (Meeting(a[1..], q) + Meeting(b, q)) == head + Meeting(a[1..], q) + Meeting(b, q);
    }
  }

  lemma {:induction false} MeetingIvs(hits: seq<Hit>, q: Interval)
    ensures Ivs(Meeting(hits, q)) == Overlapping(Ivs(hits), q)
  {
    if hits != [] {
      MeetingIvs(hits[1..], q);
      var head := if Compare(q, hits[0].iv.ivl) == 0 then [hits[0]] else [];
      IvsAppend(head, Meeting(hits[1..], q));
      assert Ivs(hits)[1..] == Ivs(hits[1..]);
    }
  }

  lemma {:induction false} NothingMeets(hits: seq<Hit>, q: Interval)
    requires forall iv | iv in Ivs(hits) :: Compare(q, iv.ivl) != 0
    ensures Meeting(hits, q) == []
  {
    if hits != [] {
      assert Ivs(hits)[0] in Ivs(hits);
      forall iv | iv in Ivs(hits[1..]) ensures iv in Ivs(hits) {
      }
      NothingMeets(hits[1..], q);
    }
  }

  /**
   A stored interval that ends at or before the begin of an empty query and begins between its end and its begin:
   visit turns away from it although neither side is settled.
   */
  predicate Hides(iv: Interval, q: Interval) {
    iv.end <= q.begin && q.end <= iv.begin <= q.begin
  }

  /** No stored interval hides anything, wherever it stands in the tree. A query that is not empty is always clear. */
  ghost predicate Clear(s: seq<IntervalValue>, q: Interval) {
    forall iv | iv in s :: !Hides(iv.ivl, q)
  }

  /** No interval of the tree hides an overlap below it. */
  predicate NothingHidden(t: Tree, q: Interval) {
    t.Br? ==>
      && (Hides(t.iv.ivl, q) ==> Meeting(NodesOf(t), q) == [])
      && NothingHidden(t.l, q) && NothingHidden(t.r, q)
  }

  ghost predicate AllNonEmpty(s: seq<IntervalValue>) {
    forall iv | iv in s :: NonEmpty(iv.ivl)
  }

  /** In a sorted tree, the left subtree begins no later than the root and the right one no earlier. */
  lemma TreeSplits(t: Tree)
    requires t.Br? && Sorted(Inorder(t))
    ensures Sorted(Inorder(t.l)) && Sorted(Inorder(t.r))
    ensures forall iv | iv in Inorder(t.l) :: iv.ivl.begin <= t.iv.ivl.begin
    ensures forall iv | iv in Inorder(t.r) :: t.iv.ivl.begin <= iv.ivl.begin
    ensures forall iv :: iv in Inorder(t) <==> iv in Inorder(t.l) || iv == t.iv || iv in Inorder(t.r)
  {
    var a, b := Inorder(t.l), Inorder(t.r);
    SortedSplit(a + [t.iv], b);
    SortedSplit(a, [t.iv]);
    assert t.iv in [t.iv] && t.iv in a + [t.iv];
  }

  /** Left of the root's begin, the root and its right subtree have nothing to report. */
  lemma NothingRight(t: Tree, q: Interval)
    requires t.Br? && Sorted(Inorder(t)) && Compare(q, t.iv.ivl) < 0
    ensures Meeting(NodesOf(t.r), q) == []
  {
    TreeSplits(t);
    NodesInOrder(t.r);
    NothingMeets(NodesOf(t.r), q);
  }

  /** A subtree pruned by its maximum endpoint has nothing to report. */
  lemma NothingPruned(t: Tree, q: Interval)
    requires t.Br? && MaxOk(t) && !Hides(t.iv.ivl, q)
    requires Compare(q, t.iv.ivl) > 0 && Compare(Interval(t.iv.ivl.begin, t.max), q) != 0
    ensures Meeting(NodesOf(t), q) == []
  {
    MaxIsTrueMaximum(t);
    NodesInOrder(t);
    NothingMeets(NodesOf(t), q);
  }

  lemma MeetingByParts(t: Tree, q: Interval)
    requires t.Br?
    ensures var mid := if Compare(q, t.iv.ivl) == 0 then [Hit(t.node, t.iv)] else [];
            Meeting(NodesOf(t), q) == Meeting(NodesOf(t.l), q) + mid + Meeting(NodesOf(t.r), q)
  {
    var mid := [Hit(t.node, t.iv)];
    MeetingAppend(NodesOf(t.l) + mid, NodesOf(t.r), q);
    MeetingAppend(NodesOf(t.l), mid, q);
    assert Meeting(mid, q) == if Compare(q, t.iv.ivl) == 0 then mid else [];
  }

  /** The subtree is pruned by its maximum endpoint. */
  predicate Pruned(t: Tree, q: Interval)
    requires t.Br?
  {
    Compare(q, t.iv.ivl) > 0 && Compare(Interval(t.iv.ivl.begin, t.max), q) != 0
  }

  lemma HitsStep(t: Tree, q: Interval)
    requires t.Br? && Hits(t.l, q) == Meeting(NodesOf(t.l), q) && Hits(t.r, q) == Meeting(NodesOf(t.r), q)
    requires Compare(q, t.iv.ivl) < 0 ==> Meeting(NodesOf(t.r), q) == []
    requires Pruned(t, q) ==> Meeting(NodesOf(t), q) == []
    ensures Hits(t, q) == Meeting(NodesOf(t), q)
  {
    MeetingByParts(t, q);
  }

  lemma {:induction false} NotHiddenIsFound(t: Tree, q: Interval)
    requires Sorted(Inorder(t)) && MaxOk(t) && NothingHidden(t, q)
    ensures Hits(t, q) == Meeting(NodesOf(t), q)
  {
    if t.Br? {
      TreeSplits(t);
      NotHiddenIsFound(t.l, q);
      NotHiddenIsFound(t.r, q);
      if Compare(q, t.iv.ivl) < 0 {
        NothingRight(t, q);
      } else if Pruned(t, q) && !Hides(t.iv.ivl, q) {
        NothingPruned(t, q);
      }
      HitsStep(t, q);
    }
  }

  /** visit never reports more nodes than overlap. */
  lemma {:induction false} NoMoreHits(t: Tree, q: Interval)
    ensures |Hits(t, q)| <= |Meeting(NodesOf(t), q)|
  {
    if t.Br? {
      NoMoreHits(t.l, q);
      NoMoreHits(t.r, q);
      MeetingByParts(t, q);
    }
  }

  /** Where nothing overlaps, nothing is hidden. */
  lemma {:induction false} NothingToHide(t: Tree, q: Interval)
    requires Meeting(NodesOf(t), q) == []
    ensures NothingHidden(t, q)
  {
    if t.Br? {
      MeetingByParts(t, q);
      NothingToHide(t.l, q);
      NothingToHide(t.r, q);
    }
  }

  lemma {:induction false} FoundIsNotHidden(t: Tree, q: Interval)
    requires Sorted(Inorder(t)) && MaxOk(t) && |Hits(t, q)| == |Meeting(NodesOf(t), q)|
    ensures NothingHidden(t, q)
  {
    if t.Br? {
      TreeSplits(t);
      MeetingByParts(t, q);
      NoMoreHits(t.l, q);
      NoMoreHits(t.r, q);
      if Compare(q, t.iv.ivl) < 0 {
        NothingRight(t, q);
        NothingToHide(t.r, q);
        FoundIsNotHidden(t.l, q);
      } else if Pruned(t, q) {
        NothingToHide(t, q);
      } else {
        FoundIsNotHidden(t.l, q);
        FoundIsNotHidden(t.r, q);
      }
    }
  }

  /**
   Exactly when visit misses nothing, reports nothing else and reports in order, for every query and every tree:
   when no interval hides an overlap below it.
   */
  lemma HitsExactly(t: Tree, q: Interval)
    requires Sorted(Inorder(t)) && MaxOk(t)
    ensures Hits(t, q) == Meeting(NodesOf(t), q) <==> NothingHidden(t, q)
    ensures |Hits(t, q)| == |Meeting(NodesOf(t), q)| <==> NothingHidden(t, q)
  {
    if NothingHidden(t, q) {
      NotHiddenIsFound(t, q);
    }
    if |Hits(t, q)| == |Meeting(NodesOf(t), q)| {
      FoundIsNotHidden(t, q);
    }
  }

  lemma {:induction false} ClearHidesNothing(t: Tree, q: Interval)
    requires Clear(Inorder(t), q)
    ensures NothingHidden(t, q)
  {
    if t.Br? {
      assert forall iv :: iv in Inorder(t) <==> iv in Inorder(t.l) || iv == t.iv || iv in Inorder(t.r);
      ClearHidesNothing(t.l, q);
      ClearHidesNothing(t.r, q);
    }
  }

  /** On a query that is not empty pruning loses no overlap. */
  lemma HitsExact(t: Tree, q: Interval)
    requires Sorted(Inorder(t)) && MaxOk(t) && NonEmpty(q)
    ensures Hits(t, q) == Meeting(NodesOf(t), q)
  {
    ClearHidesNothing(t, q);
    HitsExactly(t, q);
  }

  /** Whatever the query, visit reports only what is stored and what the comparison takes for an overlap. */
  lemma {:induction false} HitsStored(t: Tree, q: Interval)
    ensures forall iv | iv in Ivs(Hits(t, q)) :: iv in Inorder(t) && Compare(q, iv.ivl) == 0
  {
    if t.Br? {
      HitsStored(t.l, q);
      HitsStored(t.r, q);
      var mid := [Hit(t.node, t.iv)];
      IvsAppend(Hits(t.l, q), Hits(t.r, q));
      IvsAppend(Hits(t.l, q) + mid, Hits(t.r, q));
      IvsAppend(Hits(t.l, q), mid);
      assert Ivs(mid) == [t.iv];
    }
  }

  lemma AtMostOne(t: Tree, h: nat)
    requires Rb(t, h) && h == 0
    ensures |Inorder(t)| <= 1
  {
    if t.Br? {
      assert t.l.Nil? && t.r.Nil?;
    }
  }

  /** A red-black tree of three has the middle one at its root. */
  lemma MiddleIsRoot(t: Tree)
    requires RbRoot(t) && |Inorder(t)| == 3
    ensures t.Br? && t.iv == Inorder(t)[1] && |Inorder(t.l)| == 1 && |Inorder(t.r)| == 1
  {
    var h: nat :| Rb(t, h);
    assert Rb(t.l, h - 1) && Rb(t.r, h - 1);
    if t.l.Nil? {
      AtMostOne(t.r, h - 1);
    } else if t.r.Nil? {
      AtMostOne(t.l, h - 1);
    }
  }

  /** On non-empty intervals the report is exactly the true overlaps, each as often as stored, in order. */
  lemma {:induction false} OverlappingExact(s: seq<IntervalValue>, q: Interval)
    requires AllNonEmpty(s) && NonEmpty(q)
    ensures forall iv :: multiset(Overlapping(s, q))[iv] == if Overlap(q, iv.ivl) then multiset(s)[iv] else 0
  {
    if s != [] {
      assert s == [s[0]] + s[1..] && s[0] in s;
      OverlappingExact(s[1..], q);
      CompareIsOverlap(q, s[0].ivl);
      assert multiset(s) == multiset([s[0]]) + multiset(s[1..]);
    }
  }

  lemma {:induction false} OverlappingMembers(s: seq<IntervalValue>, q: Interval)
    ensures forall iv :: iv in Overlapping(s, q) <==> iv in s && Compare(q, iv.ivl) == 0
  {
    if s != [] {
      OverlappingMembers(s[1..], q);
      assert forall iv :: iv in s <==> iv == s[0] || iv in s[1..];
    }
  }

  lemma {:induction false} OverlappingSorted(s: seq<IntervalValue>, q: Interval)
    requires Sorted(s)
    ensures Sorted(Overlapping(s, q))
  {
    if s != [] {
      assert s == [s[0]] + s[1..];
      SortedSplit([s[0]], s[1..]);
      OverlappingSorted(s[1..], q);
      OverlappingMembers(s[1..], q);
      if Compare(q, s[0].ivl) == 0 {
        SortedCons(s[0], Overlapping(s[1..], q));
      }
    }
  }

  /** What visit hands to its callback, as plain contents. */
  lemma HitsOverlap(t: Tree, q: Interval)
    requires Sorted(Inorder(t)) && MaxOk(t)
    ensures Ivs(Hits(t, q)) == Overlapping(Inorder(t), q) <==> NothingHidden(t, q)
  {
    HitsExactly(t, q);
    IvsAt(Hits(t, q));
    IvsAt(Meeting(NodesOf(t), q));
    NodesInOrder(t);
    MeetingIvs(NodesOf(t), q);
  }

  // ---------- Callbacks ----------

  /** Calling back on each node in turn until the callback says stop. */
  function Fold<S>(f: (S, Hit) -> (S, bool), s: S, hits: seq<Hit>): (S, bool) {
    if hits == [] then (s, true)
    else
      var r := f(s, hits[0]);
      if r.1 then Fold(f, r.0, hits[1..]) else r
  }

  lemma {:induction false} FoldAppend<S>(f: (S, Hit) -> (S, bool), s: S, a: seq<Hit>, b: seq<Hit>)
    ensures var r := Fold(f, s, a); Fold(f, s, a + b) == if r.1 then Fold(f, r.0, b) else r
    decreases a
  {
    if a == [] {
      assert a + b == b;
    } else {
      assert (a + b)[1..] == a[1..] + b;
      var r := f(s, a[0]);
      if r.1 {
        FoldAppend(f, r.0, a[1..], b);
      }
    }
  }

  // ---------- find ----------

  /** find's callback: remember the first node with exactly this interval, and stop. */
  function FindStep(ivl: Interval): (Node, Hit) -> (Node, bool) {
    (s: Node, h: Hit) => if h.iv.ivl != ivl then (s, true) else (h.node, false)
  }

  /** The interval looked for overlaps itself, so restricting the search to overlaps loses no match. */
  lemma {:induction false} FindSkips(ivl: Interval, s: Node, hits: seq<Hit>)
    requires NonEmpty(ivl)
    ensures Fold(FindStep(ivl), s, Meeting(hits, ivl)) == Fold(FindStep(ivl), s, hits)
    decreases hits
  {
    if hits != [] && hits[0].iv.ivl != ivl {
      FindSkips(ivl, s, hits[1..]);
      if Compare(ivl, hits[0].iv.ivl) == 0 {
        assert Meeting(hits, ivl)[1..] == Meeting(hits[1..], ivl);
      } else {
        assert Meeting(hits, ivl) == Meeting(hits[1..], ivl);
      }
    }
  }

  lemma {:induction false} FindFirst(ivl: Interval, s: Node, hits: seq<Hit>) returns (k: nat)
    ensures k <= |hits| && (forall j | 0 <= j < k :: hits[j].iv.ivl != ivl) && (k < |hits| ==> hits[k].iv.ivl == ivl)
    ensures Fold(FindStep(ivl), s, hits).0 == if k < |hits| then hits[k].node else s
    decreases hits
  {
    if hits == [] || hits[0].iv.ivl == ivl {
      k := 0;
    } else {
      var r := FindFirst(ivl, s, hits[1..]);
      k := r + 1;
      forall j | 0 < j < k ensures hits[j].iv.ivl != ivl {
        assert hits[j] == hits[1..][j - 1];
      }
    }
  }

  lemma {:induction false} HitsMeet(t: Tree, q: Interval)
    ensures forall h | h in Hits(t, q) :: Compare(q, h.iv.ivl) == 0
  {
    if t.Br? {
      HitsMeet(t.l, q);
      HitsMeet(t.r, q);
    }
  }

  /** The first element with the given interval. */
  function FirstEqual(s: seq<IntervalValue>, ivl: Interval): Option<IntervalValue> {
    if s == [] then None else if s[0].ivl == ivl then Some(s[0]) else FirstEqual(s[1..], ivl)
  }

  lemma {:induction false} FirstEqualAt(s: seq<IntervalValue>, ivl: Interval, k: nat)
    requires k <= |s| && (forall j | 0 <= j < k :: s[j].ivl != ivl) && (k < |s| ==> s[k].ivl == ivl)
    ensures FirstEqual(s, ivl) == if k < |s| then Some(s[k]) else None
  {
    if k > 0 {
      FirstEqualAt(s[1..], ivl, k - 1);
    }
  }

  ghost predicate Stored(s: seq<IntervalValue>, ivl: Interval) {
    exists iv :: iv in s && iv.ivl == ivl
  }

  /**
   find returns the first node in order whose interval is the given one. It never finds an empty
   interval, stored or not, because an empty interval does not overlap itself.
   */
  lemma FindExact(t: Tree, ivl: Interval, nil: Node) returns (k: nat)
    requires Sorted(Inorder(t)) && MaxOk(t)
    ensures k <= |Inorder(t)| && |NodesOf(t)| == |Inorder(t)|
    ensures Fold(FindStep(ivl), nil, Hits(t, ivl)).0 == if k < |Inorder(t)| then NodesOf(t)[k].node else nil
    ensures k < |Inorder(t)| ==> NonEmpty(ivl) && Inorder(t)[k].ivl == ivl
    ensures NonEmpty(ivl) ==> forall j | 0 <= j < k :: Inorder(t)[j].ivl != ivl
    ensures k < |Inorder(t)| <==> NonEmpty(ivl) && Stored(Inorder(t), ivl)
  {
    NodesInOrder(t);
    IvsAt(NodesOf(t));
    if NonEmpty(ivl) {
      HitsExact(t, ivl);
      FindSkips(ivl, nil, NodesOf(t));
      k := FindFirst(ivl, nil, NodesOf(t));
      assert k < |Inorder(t)| ==> Inorder(t)[k] in Inorder(t);
    } else {
      HitsMeet(t, ivl);
      var j := FindFirst(ivl, nil, Hits(t, ivl));
      k := |Inorder(t)|;
    }
  }

  lemma {:induction false} NodesCount(t: Tree)
    ensures |NodesOf(t)| == |Inorder(t)|
  {
    if t.Br? {
      NodesCount(t.l);
      NodesCount(t.r);
    }
  }

  lemma Cuts<T>(a: seq<T>, x: T, b: seq<T>, k: nat)
    ensures k < |a| ==> (a + [x] + b)[..k] == a[..k] && (a + [x] + b)[k + 1..] == a[k + 1..] + [x] + b
    ensures k == |a| ==> (a + [x] + b)[..k] == a && (a + [x] + b)[k + 1..] == b
    ensures |a| < k < |a| + 1 + |b| ==>
              (a + [x] + b)[..k] == a + [x] + b[..k - |a| - 1] && (a + [x] + b)[k + 1..] == b[k - |a|..]
  {
  }

  lemma Assoc<T>(a: seq<T>, b: seq<T>, c: seq<T>, d: seq<T>)
    ensures a + (b + c + d) == (a + b + c) + d
  {
  }

  /** The k-th node in order, with its path. */
  lemma {:induction false} Locate(t: Tree, up: Path, k: nat) returns (p: Path, s: Tree)
    requires k < |Inorder(t)|
    ensures |NodesOf(t)| == |Inorder(t)| && s.Br? && s.node == NodesOf(t)[k].node && Zip(p, s) == Zip(up, t)
    ensures LeftOf(p) + Inorder(s.l) == LeftOf(up) + Inorder(t)[..k]
    ensures Inorder(s.r) + RightOf(p) == Inorder(t)[k + 1..] + RightOf(up)
    decreases t
  {
    NodesCount(t);
    NodesCount(t.l);
    var a, b := Inorder(t.l), Inorder(t.r);
    Cuts(a, t.iv, b, k);
    if k < |a| {
      p, s := Locate(t.l, InLeft(t.node, t.iv, t.max, t.c, t.r, up), k);
      Assoc(a[k + 1..], [t.iv], b, RightOf(up));
    } else if k == |a| {
      p, s := up, t;
    } else {
      var j := k - |a| - 1;
      p, s := Locate(t.r, InRight(t.node, t.iv, t.max, t.c, t.l, up), j);
      Assoc(LeftOf(up), a, [t.iv], b[..j]);
    }
  }

  // ---------- Intersects ----------

  ghost predicate Meets(s: seq<IntervalValue>, q: Interval) {
    exists iv :: iv in s && Compare(q, iv.ivl) == 0
  }

  /** Where Intersects goes next from a node that does not overlap. */
  function NextTree(t: Tree, q: Interval): Tree
    requires t.Br?
  {
    if t.l.Br? && t.l.max > q.begin then t.l else t.r
  }

  /** When the left subtree ends before the query begins, it cannot overlap. */
  lemma LeftEndsBefore(t: Tree, q: Interval)
    requires t.Br? && MaxOk(t) && t.max <= q.begin
    ensures !Meets(Inorder(t), q)
  {
    MaxIsTrueMaximum(t);
  }

  /** When the left subtree reaches past the query's begin without overlapping, nothing to its right overlaps. */
  lemma RightBeginsAfter(t: Tree, q: Interval)
    requires HasLeft(t) && Sorted(Inorder(t)) && MaxOk(t) && t.l.max > q.begin && !Meets(Inorder(t.l), q)
    ensures !Meets(Inorder(t.r), q)
  {
    TreeSplits(t);
    MaxIsTrueMaximum(t.l);
    var far :| far in Inorder(t.l) && far.ivl.end == t.l.max;
    assert Compare(q, far.ivl) < 0;
    assert far.ivl.begin <= t.iv.ivl.begin;
  }

  lemma MeetsByParts(t: Tree, q: Interval)
    requires t.Br? && Compare(q, t.iv.ivl) != 0
    ensures Meets(Inorder(t), q) <==> Meets(Inorder(t.l), q) || Meets(Inorder(t.r), q)
  {
    assert forall iv :: iv in Inorder(t) <==> iv in Inorder(t.l) || iv == t.iv || iv in Inorder(t.r);
  }

  /** Following one child is enough: the other one overlaps the query only if this one does. */
  lemma OnePathIsEnough(t: Tree, q: Interval)
    requires t.Br? && Sorted(Inorder(t)) && MaxOk(t) && Compare(q, t.iv.ivl) != 0
    ensures Meets(Inorder(t), q) <==> Meets(Inorder(NextTree(t, q)), q)
  {
    MeetsByParts(t, q);
    if t.l.Br? {
      if t.l.max <= q.begin {
        LeftEndsBefore(t.l, q);
      } else if !Meets(Inorder(t.l), q) {
        RightBeginsAfter(t, q);
      }
    }
  }

  lemma MeetsIsOverlap(s: seq<IntervalValue>, q: Interval)
    requires AllNonEmpty(s) && NonEmpty(q)
    ensures Meets(s, q) <==> exists iv :: iv in s && Overlap(q, iv.ivl)
  {
    forall iv | iv in s ensures Compare(q, iv.ivl) == 0 <==> Overlap(q, iv.ivl) {
      CompareIsOverlap(q, iv.ivl);
    }
  }

  // ---------- Contains ----------

  /** What Contains keeps while it visits: the first begin, the furthest end, no gap so far. */
  datatype Cover = Cover(minBegin: Option<Point>, maxEnd: Point, contiguous: bool)

  function CoverNext(s: Cover, iv: Interval): (Cover, bool) {
    if s.minBegin.None? then (Cover(Some(iv.begin), iv.end, s.contiguous), true)
    else if ComparePoints(s.maxEnd, iv.begin) < 0 then (Cover(s.minBegin, s.maxEnd, false), false)
    else (Cover(s.minBegin, if ComparePoints(iv.end, s.maxEnd) > 0 then iv.end else s.maxEnd, s.contiguous), true)
  }

  function CoverStep(): (Cover, Hit) -> (Cover, bool) {
    (s: Cover, h: Hit) => CoverNext(s, h.iv.ivl)
  }

  function Scan(s: Cover, ivs: seq<IntervalValue>): Cover
    decreases ivs
  {
    if ivs == [] then s
    else
      var r := CoverNext(s, ivs[0].ivl);
      if r.1 then Scan(r.0, ivs[1..]) else r.0
  }

  lemma {:induction false} FoldIsScan(s: Cover, hits: seq<Hit>)
    ensures Fold(CoverStep(), s, hits).0 == Scan(s, Ivs(hits))
    decreases hits
  {
    if hits != [] {
      assert Ivs(hits)[1..] == Ivs(hits[1..]);
      FoldIsScan(CoverStep()(s, hits[0]).0, hits[1..]);
    }
  }

  predicate Verdict(s: Cover, q: Interval) {
    s.contiguous && s.minBegin.Some? && ComparePoints(s.maxEnd, q.end) >= 0 && ComparePoints(s.minBegin.value, q.begin) <= 0
  }

  /** Some interval holds the point. */
  ghost predicate At(s: seq<IntervalValue>, x: Point) {
    exists i :: 0 <= i < |s| && Has(s[i].ivl, x)
  }

  /** Every point of the query lies in some interval. */
  ghost predicate Covered(s: seq<IntervalValue>, q: Interval) {
    forall x | Has(q, x) :: At(s, x)
  }

  /** After k intervals without a gap: everything from the first begin to the furthest end is covered. */
  ghost predicate Solid(o: seq<IntervalValue>, k: nat, s: Cover) {
    && 0 < k <= |o| && s.contiguous && s.minBegin == Some(o[0].ivl.begin)
    && (forall i | 0 <= i < k :: o[i].ivl.end <= s.maxEnd)
    && (exists i :: 0 <= i < k && o[i].ivl.end == s.maxEnd)
    && (forall x | o[0].ivl.begin <= x < s.maxEnd :: At(o, x))
  }

  /** A gap: everything before it ends there or earlier, everything after it begins later. */
  ghost predicate Gap(o: seq<IntervalValue>, k: nat, g: Point) {
    0 < k < |o| && (forall i | 0 <= i < k :: o[i].ivl.end <= g) && (forall i | k <= i < |o| :: o[i].ivl.begin > g)
  }

  lemma SolidStep(o: seq<IntervalValue>, k: nat, s: Cover)
    requires Sorted(o) && Solid(o, k, s) && k < |o|
    ensures var r := CoverNext(s, o[k].ivl); if r.1 then Solid(o, k + 1, r.0) else !r.0.contiguous && Gap(o, k, s.maxEnd)
  {
    var r := CoverNext(s, o[k].ivl);
    if r.1 {
      forall x | o[0].ivl.begin <= x < r.0.maxEnd ensures At(o, x) {
        if x >= s.maxEnd {
          assert Has(o[k].ivl, x);
        }
      }
      if o[k].ivl.end <= s.maxEnd {
        var i :| 0 <= i < k && o[i].ivl.end == s.maxEnd;
        assert o[i].ivl.end == r.0.maxEnd;
      } else {
        assert o[k].ivl.end == r.0.maxEnd;
      }
    }
  }

  lemma {:induction false} ScanEnds(o: seq<IntervalValue>, k: nat, s: Cover)
    requires Sorted(o) && Solid(o, k, s)
    ensures var f := Scan(s, o[k..]); if f.contiguous then Solid(o, |o|, f) else exists j: nat, g :: Gap(o, j, g)
    decreases |o| - k
  {
    if k < |o| {
      SolidStep(o, k, s);
      assert o[k..][1..] == o[k + 1..];
      var r := CoverNext(s, o[k].ivl);
      if r.1 {
        ScanEnds(o, k + 1, r.0);
      }
    }
  }

  /** A point of the query, or its begin if it has none, is covered by a stored interval exactly when an overlapping one covers it. */
  lemma AtOverlapping(s: seq<IntervalValue>, q: Interval, x: Point)
    requires Has(q, x) || x == q.begin
    ensures At(s, x) <==> At(Overlapping(s, q), x)
  {
    OverlappingMembers(s, q);
    var o := Overlapping(s, q);
    if At(s, x) {
      var i :| 0 <= i < |s| && Has(s[i].ivl, x);
      assert s[i] in o;
      var j :| 0 <= j < |o| && o[j] == s[i];
      assert Has(o[j].ivl, x);
    }
    if At(o, x) {
      var j :| 0 <= j < |o| && Has(o[j].ivl, x);
      assert o[j] in s;
      var i :| 0 <= i < |s| && s[i] == o[j];
      assert Has(s[i].ivl, x);
    }
  }

  lemma {:induction false} MeetingBounds(s: seq<IntervalValue>, q: Interval)
    ensures var o := Overlapping(s, q);
            forall i | 0 <= i < |o| :: o[i].ivl.end > q.begin && (o[i].ivl.begin < q.end || o[i].ivl.begin <= q.begin)
  {
    OverlappingMembers(s, q);
    var o := Overlapping(s, q);
    forall i | 0 <= i < |o| ensures o[i].ivl.end > q.begin && (o[i].ivl.begin < q.end || o[i].ivl.begin <= q.begin) {
      assert o[i] in o;
    }
  }

  lemma UncoveredPoint(s: seq<IntervalValue>, q: Interval, x: Point)
    requires (Has(q, x) || x == q.begin) && !At(Overlapping(s, q), x)
    ensures !(At(s, q.begin) && Covered(s, q))
  {
    AtOverlapping(s, q, x);
  }

  /** Contains answers exactly whether every point of the query is covered, and its begin even if it has no points. */
  lemma ContainsExact(s: seq<IntervalValue>, q: Interval)
    requires Sorted(s)
    ensures Verdict(Scan(Cover(None, 0, true), Overlapping(s, q)), q) <==> At(s, q.begin) && Covered(s, q)
  {
    var o := Overlapping(s, q);
    OverlappingSorted(s, q);
    MeetingBounds(s, q);
    if o == [] {
      UncoveredPoint(s, q, q.begin);
    } else {
      var first := Cover(Some(o[0].ivl.begin), o[0].ivl.end, true);
      FirstSolid(o);
      ScanEnds(o, 1, first);
      ContainsCases(s, q, Scan(first, o[1..]));
    }
  }

  lemma FirstSolid(o: seq<IntervalValue>)
    requires o != []
    ensures Solid(o, 1, Cover(Some(o[0].ivl.begin), o[0].ivl.end, true))
  {
    assert o[0].ivl.end == o[0].ivl.end;
    forall x | o[0].ivl.begin <= x < o[0].ivl.end ensures At(o, x) {
      assert Has(o[0].ivl, x);
    }
  }

  lemma ContainsCases(s: seq<IntervalValue>, q: Interval, f: Cover)
    requires Overlapping(s, q) != [] && Sorted(Overlapping(s, q))
    requires var o := Overlapping(s, q); if f.contiguous then Solid(o, |o|, f) else exists j: nat, g :: Gap(o, j, g)
    ensures Verdict(f, q) <==> At(s, q.begin) && Covered(s, q)
  {
    var o := Overlapping(s, q);
    MeetingBounds(s, q);
    if !f.contiguous {
      var j: nat, g :| Gap(o, j, g);
      assert o[0].ivl.end > q.begin && o[j].ivl.begin > g;
      UncoveredPoint(s, q, g);
    } else if Verdict(f, q) {
      forall x | Has(q, x) || x == q.begin ensures At(s, x) {
        AtOverlapping(s, q, x);
      }
    } else if o[0].ivl.begin > q.begin {
      UncoveredPoint(s, q, q.begin);
    } else {
      UncoveredPoint(s, q, f.maxEnd);
    }
  }

  // ---------- Stab ----------

  function Collect(): (seq<IntervalValue>, Hit) -> (seq<IntervalValue>, bool) {
    (s: seq<IntervalValue>, h: Hit) => (s + [h.iv], true)
  }

  lemma {:induction false} CollectAll(s: seq<IntervalValue>, hits: seq<Hit>)
    ensures Fold(Collect(), s, hits) == (s + Ivs(hits), true)
    decreases hits
  {
    if hits != [] {
      CollectAll(s + [hits[0].iv], hits[1..]);
      assert s + [hits[0].iv] + Ivs(hits[1..]) == s + Ivs(hits);
    } else {
      assert s + Ivs(hits) == s;
    }
  }
}
