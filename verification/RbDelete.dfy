/** Deletion on trees as values: removing a node, and what the delete fixup keeps and repairs. */
module RbDelete {
  import opened Bytes
  import opened Interval
  import opened Nodes
  import opened RbTree

  /** A path whose first step has another sibling subtree. */
  function WithSib(p: Path, sib: Tree): Path
    requires !p.Top?
  {
    if p.InLeft? then InLeft(p.node, p.iv, p.max, p.c, sib, p.up) else InRight(p.node, p.iv, p.max, p.c, sib, p.up)
  }

  // ---------- The fixup ----------

  /**
   While a deletion is being fixed up: the focus is one black node short of what its path expects,
   unless it is red, in which case blackening it makes up for the one that is missing.
   */
  ghost predicate Deleting(p: Path, t: Tree, e: nat, s: seq<IntervalValue>) {
    && e > 0 && PathRb(p, e)
    && (if IsRed(t) then Rb(Tint(t, Black), e) else Rb(t, e - 1))
    && MaxOk(t) && PathMaxOk(p, MaxOf(t))
    && LeftOf(p) + Inorder(t) + RightOf(p) == s
  }

  lemma TintKeeps(t: Tree, c: Color)
    ensures Inorder(Tint(t, c)) == Inorder(t) && MaxOf(Tint(t, c)) == MaxOf(t) && (MaxOk(t) ==> MaxOk(Tint(t, c)))
  {
  }

  /** The sibling of a focus that is short of a black node is not empty. */
  lemma SiblingExists(p: Path, t: Tree, e: nat, s: seq<IntervalValue>)
    requires Deleting(p, t, e, s) && !p.Top?
    ensures p.sib.Br? && MaxOk(p.sib)
  {
  }

  // Case 1: a red sibling.

  /** Parent red, sibling black. */
  function Case1Tree(p: Path, t: Tree): Tree
    requires !p.Top? && p.sib.Br?
  {
    Tint(Plug(WithSib(p, Tint(p.sib, Black)), t), Red)
  }

  function Case1Left(p: Path, t: Tree): Path
    requires p.InLeft? && p.sib.Br?
  {
    var r := RotL(Case1Tree(p, t));
    InLeft(r.l.node, r.l.iv, r.l.max, r.l.c, r.l.r, InLeft(r.node, r.iv, r.max, r.c, r.r, p.up))
  }

  function Case1Right(p: Path, t: Tree): Path
    requires p.InRight? && p.sib.Br?
  {
    var r := RotR(Case1Tree(p, t));
    InRight(r.r.node, r.r.iv, r.r.max, r.r.c, r.r.l, InRight(r.node, r.iv, r.max, r.c, r.l, p.up))
  }

  lemma Case1TreeKeeps(p: Path, t: Tree)
    requires !p.Top? && p.sib.Br? && MaxOk(t) && PathMaxOk(p, MaxOf(t))
    ensures var w := Case1Tree(p, t); MaxOk(w) && w.max == p.max && Inorder(w) == Inorder(Plug(p, t))
  {
    TintKeeps(p.sib, Black);
  }

  lemma Case1LeftKeeps(p: Path, t: Tree, e: nat, s: seq<IntervalValue>)
    requires Deleting(p, t, e, s) && p.InLeft? && IsRed(p.sib) && !IsRed(t)
    ensures var q := Case1Left(p, t); var w := Case1Tree(p, t);
            && Deleting(q, t, e, s) && !IsRed(q.sib) && q.c.Red?
            && HasRight(w) && MaxOk(w) && PathMaxOk(p.up, Some(w.max))
            && Plug(q.up, Plug(q, t)) == RotL(w)
  {
    var w, q := Case1Tree(p, t), Case1Left(p, t);
    Case1TreeKeeps(p, t);
    RotLKeeps(w);
    assert MaxOk(RotL(w).l) && Plug(q, t) == RotL(w).l;
    PlugInorder(p, t);
    PlugInorder(q, t);
    PlugInorder(q.up, Plug(q, t));
    assert Rb(p.sib, e) && PathRb(p.up, e + 1);
    assert q.sib == p.sib.l && q.up.sib == p.sib.r && MaxOk(p.sib);
  }

  lemma Case1RightKeeps(p: Path, t: Tree, e: nat, s: seq<IntervalValue>)
    requires Deleting(p, t, e, s) && p.InRight? && IsRed(p.sib) && !IsRed(t)
    ensures var q := Case1Right(p, t); var w := Case1Tree(p, t);
            && Deleting(q, t, e, s) && !IsRed(q.sib) && q.c.Red?
            && HasLeft(w) && MaxOk(w) && PathMaxOk(p.up, Some(w.max))
            && Plug(q.up, Plug(q, t)) == RotR(w)
  {
    var w, q := Case1Tree(p, t), Case1Right(p, t);
    Case1TreeKeeps(p, t);
    RotRKeeps(w);
    assert MaxOk(RotR(w).r) && Plug(q, t) == RotR(w).r;
    PlugInorder(p, t);
    PlugInorder(q, t);
    PlugInorder(q.up, Plug(q, t));
    assert Rb(p.sib, e) && PathRb(p.up, e + 1);
    assert q.sib == p.sib.r && q.up.sib == p.sib.l && MaxOk(p.sib);
  }

  // Case 2: a black sibling with two black children turns red, and the shortage moves up.

  function Case2(p: Path, t: Tree): Tree
    requires !p.Top?
  {
    Plug(WithSib(p, Tint(p.sib, Red)), t)
  }

  predicate BlackChildren(t: Tree) {
    t.Br? && !IsRed(t.l) && !IsRed(t.r)
  }

  lemma Case2Keeps(p: Path, t: Tree, e: nat, s: seq<IntervalValue>)
    requires Deleting(p, t, e, s) && !p.Top? && !IsRed(t) && !IsRed(p.sib) && BlackChildren(p.sib)
    ensures Deleting(p.up, Case2(p, t), if p.c.Red? then e else e + 1, s)
    ensures IsRed(Case2(p, t)) <==> p.c.Red?
  {
    TintKeeps(p.sib, Red);
    PlugInorder(p, t);
    assert Rb(Tint(p.sib, Red), e - 1);
    assert Inorder(Case2(p, t)) == Inorder(Plug(p, t));
  }

  // Case 3: the sibling's near child is red; rotate it into the sibling's place.

  function Case3TreeLeft(w: Tree): Tree
    requires w.Br? && w.l.Br?
  {
    Br(w.node, w.iv, w.max, Red, Tint(w.l, Black), w.r)
  }

  function Case3TreeRight(w: Tree): Tree
    requires w.Br? && w.r.Br?
  {
    Br(w.node, w.iv, w.max, Red, w.l, Tint(w.r, Black))
  }

  /** The focus is on the left: the sibling's left child becomes the sibling. */
  lemma Case3LeftKeeps(p: Path, t: Tree, e: nat, s: seq<IntervalValue>)
    requires Deleting(p, t, e, s) && p.InLeft? && p.sib.Br? && !IsRed(p.sib) && IsRed(p.sib.l) && !IsRed(p.sib.r)
    ensures var w := Case3TreeLeft(p.sib); var q := WithSib(p, RotR(w));
            && MaxOk(w) && w.max == p.sib.max && HasLeft(w)
            && Deleting(q, t, e, s) && !IsRed(q.sib) && IsRed(q.sib.r)
  {
    var w := Case3TreeLeft(p.sib);
    TintKeeps(p.sib.l, Black);
    assert MaxOk(p.sib) && Rb(p.sib, e) && Rb(p.sib.l, e - 1);
    RotRKeeps(w);
    var r := RotR(w);
    assert Inorder(w) == Inorder(p.sib);
    assert r.l == p.sib.l.l && r.r.l == p.sib.l.r && r.r.r == p.sib.r && r.c.Black? && r.r.c.Red?;
    assert Rb(r.r, e - 1) && Rb(r, e);
  }

  lemma Case3RightKeeps(p: Path, t: Tree, e: nat, s: seq<IntervalValue>)
    requires Deleting(p, t, e, s) && p.InRight? && p.sib.Br? && !IsRed(p.sib) && IsRed(p.sib.r) && !IsRed(p.sib.l)
    ensures var w := Case3TreeRight(p.sib); var q := WithSib(p, RotL(w));
            && MaxOk(w) && w.max == p.sib.max && HasRight(w)
            && Deleting(q, t, e, s) && !IsRed(q.sib) && IsRed(q.sib.l)
  {
    var w := Case3TreeRight(p.sib);
    TintKeeps(p.sib.r, Black);
    assert MaxOk(p.sib) && Rb(p.sib, e) && Rb(p.sib.r, e - 1);
    RotLKeeps(w);
    var r := RotL(w);
    assert Inorder(w) == Inorder(p.sib);
    assert r.r == p.sib.r.r && r.l.r == p.sib.r.l && r.l.l == p.sib.l && r.c.Black? && r.l.c.Red?;
    assert Rb(r.l, e - 1) && Rb(r, e);
  }

  // Case 4: the sibling's far child is red; one rotation of the parent makes up for the shortage.

  /** The sibling takes the parent's color; the parent and the far child turn black. */
  function Case4TreeLeft(p: Path, t: Tree): Tree
    requires p.InLeft? && HasRight(p.sib)
  {
    var w := p.sib;
    Tint(Plug(WithSib(p, Br(w.node, w.iv, w.max, p.c, w.l, Tint(w.r, Black))), t), Black)
  }

  function Case4TreeRight(p: Path, t: Tree): Tree
    requires p.InRight? && HasLeft(p.sib)
  {
    var w := p.sib;
    Tint(Plug(WithSib(p, Br(w.node, w.iv, w.max, p.c, Tint(w.l, Black), w.r)), t), Black)
  }

  /** All is well again with this subtree at this path. */
  ghost predicate Restored(p: Path, t: Tree, s: seq<IntervalValue>) {
    RbRoot(Zip(p, t)) && MaxOk(Zip(p, t)) && Inorder(Zip(p, t)) == s
  }

  lemma Case4LeftKeeps(p: Path, t: Tree, e: nat, s: seq<IntervalValue>)
    requires Deleting(p, t, e, s) && p.InLeft? && !IsRed(t) && HasRight(p.sib) && !IsRed(p.sib) && IsRed(p.sib.r)
    ensures var w := Case4TreeLeft(p, t);
            MaxOk(w) && w.max == p.max && PathMaxOk(p.up, Some(w.max)) && HasRight(w) && Restored(p.up, RotL(w), s)
  {
    var w := Case4TreeLeft(p, t);
    TintKeeps(p.sib.r, Black);
    assert MaxOk(p.sib) && Rb(p.sib, e) && Rb(p.sib.r, e - 1);
    assert MaxOk(w.r) && Inorder(w.r) == Inorder(p.sib);
    RotLKeeps(w);
    var r := RotL(w);
    PlugInorder(p, t);
    ZipInorder(p.up, r);
    ZipMaxOk(p.up, r);
    assert r.l.l == t && r.l.r == p.sib.l && r.r == Tint(p.sib.r, Black);
    assert Rb(r.l, e) && Rb(r.r, e);
    var e' := if p.c.Red? then e else e + 1;
    assert Rb(r, e');
    ZipRb(p.up, r, e');
  }

  lemma Case4RightKeeps(p: Path, t: Tree, e: nat, s: seq<IntervalValue>)
    requires Deleting(p, t, e, s) && p.InRight? && !IsRed(t) && HasLeft(p.sib) && !IsRed(p.sib) && IsRed(p.sib.l)
    ensures var w := Case4TreeRight(p, t);
            MaxOk(w) && w.max == p.max && PathMaxOk(p.up, Some(w.max)) && HasLeft(w) && Restored(p.up, RotR(w), s)
  {
    var w := Case4TreeRight(p, t);
    TintKeeps(p.sib.l, Black);
    assert MaxOk(p.sib) && Rb(p.sib, e) && Rb(p.sib.l, e - 1);
    assert MaxOk(w.l) && Inorder(w.l) == Inorder(p.sib);
    RotRKeeps(w);
    var r := RotR(w);
    PlugInorder(p, t);
    ZipInorder(p.up, r);
    ZipMaxOk(p.up, r);
    assert r.r.r == t && r.r.l == p.sib.r && r.l == Tint(p.sib.l, Black);
    assert Rb(r.r, e) && Rb(r.l, e);
    var e' := if p.c.Red? then e else e + 1;
    assert Rb(r, e');
    ZipRb(p.up, r, e');
  }

  /** Blackening the focus ends the fixup at the root or at a red node. */
  lemma DeletingEnds(p: Path, t: Tree, e: nat, s: seq<IntervalValue>)
    requires Deleting(p, t, e, s) && (p.Top? || IsRed(t))
    ensures Restored(p, Tint(t, Black), s)
  {
    TintKeeps(t, Black);
    ZipInorder(p, Tint(t, Black));
    ZipMaxOk(p, Tint(t, Black));
    ZipRb(p, Tint(t, Black), if IsRed(t) then e else e - 1);
  }

  /** A restored tree, looked at from its root, has no shortage to make up for. */
  lemma RestoredIsDone(p: Path, t: Tree, s: seq<IntervalValue>) returns (e: nat)
    requires Restored(p, t, s)
    ensures Deleting(Top, Zip(p, t), e, s) && !IsRed(Zip(p, t))
  {
    var h: nat :| Rb(Zip(p, t), h);
    e := h + 1;
    assert [] + Inorder(Zip(p, t)) + [] == s;
  }

  // ---------- Taking a node out ----------

  predicate OneChild(t: Tree) {
    t.Br? && (t.l.Nil? || t.r.Nil?)
  }

  /** The only child of a node, if any. */
  function Child(t: Tree): Tree
    requires OneChild(t)
  {
    if t.l.Br? then t.l else t.r
  }

  /** A node replaced by its only child: what the path expects and what it gets, by the node's color. */
  lemma UnlinkShortage(p: Path, t: Tree, h: nat)
    requires OneChild(t) && Rb(t, h) && PathRb(p, h) && MaxOk(t) && PathMaxOk(p, Some(t.max))
    ensures var p1 := UpMax(p, MaxOf(Child(t)));
            PathRb(p1, h) && PathMaxOk(p1, MaxOf(Child(t))) && LeftOf(p1) == LeftOf(p) && RightOf(p1) == RightOf(p)
    ensures MaxOk(Child(t)) && (t.c.Red? ==> Rb(Child(t), h) && !IsRed(Child(t)))
    ensures t.c.Black? ==> h > 0 && if IsRed(Child(t)) then Rb(Tint(Child(t), Black), h) else Rb(Child(t), h - 1)
  {
    var fm := MaxOf(Child(t));
    UpMaxRepairs(p, Some(t.max), fm);
    UpMaxKeepsRb(p, fm, h);
    UpMaxKeepsContents(p, fm);
  }

  /** The path goes left all the way from the right child of z. */
  predicate Below(p: Path, z: Node) {
    !p.Top? && if p.node == z then p.InRight? else p.InLeft? && Below(p.up, z)
  }

  /** Going one step to the left keeps what is to the left of the path. */
  lemma StepLeft(p: Path, t: Tree, z: Node)
    requires t.Br? && Below(p, z) && t.node != z
    ensures var q := InLeft(t.node, t.iv, t.max, t.c, t.r, p);
            Below(q, z) && LeftOf(q) == LeftOf(p) && Inorder(t.l) + RightOf(q) == Inorder(t) + RightOf(p)
  {
    assert Inorder(t.l) + ([t.iv] + Inorder(t.r) + RightOf(p)) == (Inorder(t.l) + [t.iv] + Inorder(t.r)) + RightOf(p);
  }

  lemma {:induction false} UpMaxBelow(p: Path, z: Node, fm: Option<Point>)
    requires Below(p, z)
    ensures Below(UpMax(p, fm), z)
    decreases p
  {
    if p.node != z && p.max != FrameMax(p, fm) {
      UpMaxBelow(p.up, z, Some(FrameMax(p, fm)));
    }
  }

  /** The path with another interval in z and the maxima repaired from z upwards. */
  function Patched(p: Path, z: Node, v: IntervalValue, fm: Option<Point>): Path
    requires Below(p, z)
    decreases p
  {
    if p.node == z then UpMax(InRight(z, v, p.max, p.c, p.sib, p.up), fm)
    else InLeft(p.node, p.iv, p.max, p.c, p.sib, Patched(p.up, z, v, Some(p.max)))
  }

  lemma {:induction false} PatchedMaxOk(p: Path, z: Node, v: IntervalValue, fm: Option<Point>)
    requires Below(p, z) && PathMaxOk(p, fm)
    ensures PathMaxOk(Patched(p, z, v, fm), fm)
    decreases p
  {
    if p.node == z {
      var q := InRight(z, v, p.max, p.c, p.sib, p.up);
      if q.max != FrameMax(q, fm) {
        UpMaxRepairs(p.up, Some(p.max), Some(FrameMax(q, fm)));
      }
    } else {
      PatchedMaxOk(p.up, z, v, Some(p.max));
    }
  }

  lemma {:induction false} PatchedRb(p: Path, z: Node, v: IntervalValue, fm: Option<Point>, h: nat)
    requires Below(p, z) && PathRb(p, h)
    ensures PathRb(Patched(p, z, v, fm), h) && !Patched(p, z, v, fm).Top? && Patched(p, z, v, fm).c == p.c
    decreases p
  {
    if p.node == z {
      UpMaxKeepsRb(InRight(z, v, p.max, p.c, p.sib, p.up), fm, h);
    } else {
      PatchedRb(p.up, z, v, Some(p.max), if p.c.Red? then h else h + 1);
    }
  }

  /** z's interval is the last one to the left of the path; it is the only one replaced. */
  lemma {:induction false} PatchedContents(p: Path, z: Node, v: IntervalValue, fm: Option<Point>)
    requires Below(p, z)
    ensures LeftOf(p) != [] && LeftOf(Patched(p, z, v, fm)) == LeftOf(p)[..|LeftOf(p)| - 1] + [v]
    ensures RightOf(Patched(p, z, v, fm)) == RightOf(p)
    decreases p
  {
    if p.node == z {
      UpMaxKeepsContents(InRight(z, v, p.max, p.c, p.sib, p.up), fm);
    } else {
      PatchedContents(p.up, z, v, Some(p.max));
    }
  }

  /** The contents without the interval of a node with at most one child. */
  lemma UnlinkContents(p: Path, t: Tree)
    requires OneChild(t)
    ensures LeftOf(p) + Inorder(Child(t)) + RightOf(p) == (LeftOf(p) + Inorder(t.l)) + (Inorder(t.r) + RightOf(p))
  {
  }

  /** The successor y unlinked and its interval moved to z: rules, maxima and contents of the result. */
  lemma SuccessorPlan(p: Path, t: Tree, h: nat, z: Node, a: seq<IntervalValue>, ziv: IntervalValue)
    requires OneChild(t) && t.l.Nil? && Rb(t, h) && PathRb(p, h) && MaxOk(t) && PathMaxOk(p, Some(t.max))
    requires Below(p, z) && LeftOf(p) == a + [ziv]
    ensures var fm := MaxOf(Child(t)); var p1 := UpMax(p, fm);
            && Below(p1, z)
            && var p2 := Patched(p1, z, t.iv, fm);
               && PathRb(p2, h) && PathMaxOk(p2, fm)
               && LeftOf(p2) + Inorder(Child(t)) + RightOf(p2) == a + (Inorder(t) + RightOf(p))
  {
    var fm := MaxOf(Child(t));
    var p1 := UpMax(p, fm);
    UnlinkShortage(p, t, h);
    UpMaxBelow(p, z, fm);
    PatchedMaxOk(p1, z, t.iv, fm);
    PatchedRb(p1, z, t.iv, fm, h);
    PatchedContents(p1, z, t.iv, fm);
    assert (a + [ziv])[..|a|] == a;
    assert Inorder(t) == [t.iv] + Inorder(t.r);
  }

  // ---------- The contents ----------

  /** The first element with the given interval is taken out, if there is one. */
  function Removed(s: seq<IntervalValue>, ivl: Interval): seq<IntervalValue> {
    if s == [] then [] else if s[0].ivl == ivl then s[1..] else [s[0]] + Removed(s[1..], ivl)
  }

  lemma {:induction false} RemovedAt(s: seq<IntervalValue>, k: nat, ivl: Interval)
    requires k < |s| && s[k].ivl == ivl && forall j | 0 <= j < k :: s[j].ivl != ivl
    ensures Removed(s, ivl) == s[..k] + s[k + 1..]
  {
    if k > 0 {
      RemovedAt(s[1..], k - 1, ivl);
      assert s[1..][..k - 1] == s[1..k] && s[1..][k..] == s[k + 1..];
      assert [s[0]] + s[1..k] == s[..k];
    }
  }

  lemma {:induction false} RemovedAbsent(s: seq<IntervalValue>, ivl: Interval)
    requires forall e | e in s :: e.ivl != ivl
    ensures Removed(s, ivl) == s
  {
    if s != [] {
      assert s[0] in s;
      RemovedAbsent(s[1..], ivl);
    }
  }

  lemma {:induction false} FirstWith(s: seq<IntervalValue>, ivl: Interval) returns (k: nat)
    ensures k <= |s| && (forall j | 0 <= j < k :: s[j].ivl != ivl) && (k < |s| ==> s[k].ivl == ivl)
  {
    k := 0;
    while k < |s| && s[k].ivl != ivl
      invariant k <= |s| && forall j | 0 <= j < k :: s[j].ivl != ivl
    {
      k := k + 1;
    }
  }

  lemma WithoutOne(s: seq<IntervalValue>, k: nat)
    requires k < |s| && Sorted(s)
    ensures Sorted(s[..k] + s[k + 1..]) && multiset(s) == multiset(s[..k] + s[k + 1..]) + multiset{s[k]}
  {
    assert s == s[..k] + [s[k]] + s[k + 1..];
  }

  /** Removal keeps the order and takes out exactly one element, one with the given interval, if there is one. */
  lemma RemovedKeeps(s: seq<IntervalValue>, ivl: Interval)
    requires Sorted(s)
    ensures Sorted(Removed(s, ivl))
    ensures if forall e | e in s :: e.ivl != ivl then Removed(s, ivl) == s
            else exists k :: 0 <= k < |s| && s[k].ivl == ivl && multiset(s) == multiset(Removed(s, ivl)) + multiset{s[k]}
  {
    var k := FirstWith(s, ivl);
    if k == |s| {
      RemovedAbsent(s, ivl);
    } else {
      RemovedAt(s, k, ivl);
      WithoutOne(s, k);
      assert s[k] in s;
    }
  }

  lemma TakenOut(s: seq<IntervalValue>, k: nat, ivl: Interval)
    requires Sorted(s) && k < |s| && s[k].ivl == ivl && forall j | 0 <= j < k :: s[j].ivl != ivl
    ensures Removed(s, ivl) == s[..k] + s[k + 1..] && Sorted(Removed(s, ivl)) && |Removed(s, ivl)| == |s| - 1
  {
    RemovedAt(s, k, ivl);
    WithoutOne(s, k);
  }
}
