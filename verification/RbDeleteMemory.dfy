/** The delete fixup's color writes and pointer reads, followed through memories as values. */
module RbDeleteMemory {
  import opened Bytes
  import opened Interval
  import opened Nodes
  import opened RbTree
  import opened RbMemory
  import opened RbDelete
  import opened RbQuery

  /** The path of the sibling subtree. */
  function SibPath(p: Path, t: Tree): Path
    requires !p.Top?
  {
    if p.InLeft? then InRight(p.node, p.iv, p.max, p.c, t, p.up) else InLeft(p.node, p.iv, p.max, p.c, t, p.up)
  }

  lemma MoveAcross(m: Mem, nil: Node, root: Node, p: Path, t: Tree)
    requires !p.Top?
    ensures Represents(m, nil, root, p, t) <==> Represents(m, nil, root, SibPath(p, t), p.sib)
  {
    MoveUp(m, nil, root, p, t);
    MoveUp(m, nil, root, SibPath(p, t), p.sib);
  }

  /** What the fields around a focus with a non-empty sibling say; the focus may be empty. */
  lemma AroundSibling(m: Mem, nil: Node, root: Node, p: Path, t: Tree)
    requires Represents(m, nil, root, p, t) && !p.Top? && p.sib.Br?
    ensures p.node in m && p.node != nil && m[p.node].c == p.c && m[p.node].parent == ParentRef(nil, p.up)
    ensures m[p.node].left == Ref(nil, t) <==> p.InLeft?
    ensures (if p.InLeft? then m[p.node].right else m[p.node].left) == p.sib.node
    ensures p.sib.node in m && p.sib.node != nil && m[p.sib.node].c == p.sib.c
    ensures m[p.sib.node].left == Ref(nil, p.sib.l) && m[p.sib.node].right == Ref(nil, p.sib.r)
    ensures p.sib.l.Br? ==> p.sib.l.node in m && p.sib.l.node != nil && m[p.sib.l.node].c == p.sib.l.c
    ensures p.sib.r.Br? ==> p.sib.r.node in m && p.sib.r.node != nil && m[p.sib.r.node].c == p.sib.r.c
  {
    assert Links(m, nil, p.sib, p.node);
    assert Links(m, nil, p.sib.l, p.sib.node) && Links(m, nil, p.sib.r, p.sib.node);
    assert p.sib.node in TreeNodes(p.sib) && p.sib.node in PathNodes(p);
    if t.Br? {
      assert t.node in TreeNodes(t);
    }
  }

  lemma RootIsFocus(m: Mem, nil: Node, root: Node, p: Path, t: Tree)
    requires Represents(m, nil, root, p, t)
    ensures root == Ref(nil, t) <==> p.Top?
  {
    if !p.Top? {
      RootAbove(m, nil, root, p, Ref(nil, t));
      SpineInPath(p);
      PathInMem(m, nil, root, p, Ref(nil, t));
      RootAbove(m, nil, root, p.up, p.node);
      if t.Br? {
        assert t.node in TreeNodes(t);
      }
    }
  }

  lemma PaintCase1(p: Path, t: Tree)
    requires !p.Top? && p.sib.Br? && Apart(p, t)
    ensures Paint(Paint(Plug(p, t), p.sib.node, Black), p.node, Red) == Case1Tree(p, t)
  {
    var w := p.sib.node;
    PlugApart(p, t);
    assert w in TreeNodes(p.sib);
    PaintRoot(p.sib, Black);
    PaintNodes(t, w, Black);
    PaintNodes(t, p.node, Red);
    assert TreeNodes(Tint(p.sib, Black)) == TreeNodes(p.sib);
    PaintNodes(Tint(p.sib, Black), p.node, Red);
  }

  lemma PaintCase2(p: Path, t: Tree)
    requires !p.Top? && p.sib.Br? && Apart(p, t)
    ensures Paint(Plug(p, t), p.sib.node, Red) == Case2(p, t)
  {
    PlugApart(p, t);
    assert p.sib.node in TreeNodes(p.sib);
    PaintRoot(p.sib, Red);
    PaintNodes(t, p.sib.node, Red);
  }

  lemma PaintCase3Left(w: Tree)
    requires HasLeft(w) && Distinct(w)
    ensures Paint(Paint(w, w.l.node, Black), w.node, Red) == Case3TreeLeft(w)
  {
    assert w.l.node in TreeNodes(w.l);
    PaintRoot(w.l, Black);
    PaintNodes(w.r, w.l.node, Black);
    assert TreeNodes(Tint(w.l, Black)) == TreeNodes(w.l);
    PaintNodes(Tint(w.l, Black), w.node, Red);
    PaintNodes(w.r, w.node, Red);
  }

  lemma PaintCase3Right(w: Tree)
    requires HasRight(w) && Distinct(w)
    ensures Paint(Paint(w, w.r.node, Black), w.node, Red) == Case3TreeRight(w)
  {
    assert w.r.node in TreeNodes(w.r);
    PaintRoot(w.r, Black);
    PaintNodes(w.l, w.r.node, Black);
    assert TreeNodes(Tint(w.r, Black)) == TreeNodes(w.r);
    PaintNodes(Tint(w.r, Black), w.node, Red);
    PaintNodes(w.l, w.node, Red);
  }

  /** The sibling in the parent's color with its right child black. */
  lemma PaintFarRight(w: Tree, c: Color)
    requires HasRight(w) && Distinct(w)
    ensures Paint(Paint(w, w.node, c), w.r.node, Black) == Br(w.node, w.iv, w.max, c, w.l, Tint(w.r, Black))
  {
    assert w.r.node in TreeNodes(w.r);
    PaintRoot(w, c);
    PaintRoot(w.r, Black);
    PaintNodes(w.l, w.r.node, Black);
  }

  lemma PaintFarLeft(w: Tree, c: Color)
    requires HasLeft(w) && Distinct(w)
    ensures Paint(Paint(w, w.node, c), w.l.node, Black) == Br(w.node, w.iv, w.max, c, Tint(w.l, Black), w.r)
  {
    assert w.l.node in TreeNodes(w.l);
    PaintRoot(w, c);
    PaintRoot(w.l, Black);
    PaintNodes(w.r, w.l.node, Black);
  }

  /** The three color writes of case 4: sibling, parent, far child. */
  lemma PaintCase4(p: Path, t: Tree, far: Node, sib: Tree)
    requires !p.Top? && p.sib.Br? && Apart(p, t) && far in TreeNodes(p.sib) && far != p.sib.node
    requires Paint(Paint(p.sib, p.sib.node, p.c), far, Black) == sib
    ensures Paint(Paint(Paint(Plug(p, t), p.sib.node, p.c), p.node, Black), far, Black)
         == Tint(Plug(WithSib(p, sib), t), Black)
  {
    var w := p.sib.node;
    PlugApart(p, t);
    assert w in TreeNodes(p.sib);
    PaintNodes(t, w, p.c);
    PaintNodes(t, p.node, Black);
    PaintNodes(t, far, Black);
    var s1 := Paint(p.sib, w, p.c);
    PaintNodes(p.sib, w, p.c);
    PaintNodes(s1, p.node, Black);
  }

  /** What the sentinel holds does not matter to the tree. */
  lemma SentinelFree(m: Mem, m': Mem, nil: Node, root: Node, p: Path, t: Tree)
    requires Represents(m, nil, root, p, t) && m'.Keys == m.Keys && forall n | n in m && n != nil :: m'[n] == m[n]
    ensures Represents(m', nil, root, p, t)
  {
    LinksInMem(m, nil, t, ParentRef(nil, p));
    PathInMem(m, nil, root, p, Ref(nil, t));
    LinksFrame(m, m', nil, t, ParentRef(nil, p));
    PathFrame(m, m', nil, root, p, Ref(nil, t));
  }

  /** The last write of the fixup: the focus turns black. */
  lemma BlackenFocus(m: Mem, nil: Node, root: Node, p: Path, t: Tree)
    requires Represents(m, nil, root, p, t)
    ensures Ref(nil, t) in m && Represents(SetColor(m, Ref(nil, t), Black), nil, root, p, Tint(t, Black))
  {
    if t.Nil? {
      SentinelFree(m, SetColor(m, nil, Black), nil, root, p, t);
    } else {
      assert t.node in TreeNodes(t);
      PaintRepresents(m, nil, root, p, t, t.node, Black);
      PaintRoot(t, Black);
    }
  }

  // ---------- Taking a node out ----------

  /** The node's only child linked in its place; an empty child is the sentinel, whose parent is set too. */
  function Unlinked(m: Mem, nil: Node, p: Path, t: Tree): Mem
    requires OneChild(t) && Ref(nil, Child(t)) in m && Spine(p) <= m.Keys
  {
    var x := Ref(nil, Child(t));
    var m1 := SetParent(m, x, ParentRef(nil, p));
    if p.Top? then m1 else if p.InLeft? then SetLeft(m1, p.node, x) else SetRight(m1, p.node, x)
  }

  lemma UnlinkedAt(m: Mem, nil: Node, root: Node, p: Path, t: Tree)
    requires Represents(m, nil, root, p, t) && OneChild(t)
    ensures Ref(nil, Child(t)) in m && Spine(p) <= m.Keys
    ensures var m1 := Unlinked(m, nil, p, t); var x := Child(t); var root' := if p.Top? then Ref(nil, x) else root;
            && AtPath(m1, nil, root', p, Ref(nil, x), MaxOf(x))
            && var m2 := MaxWrites(m1, p, MaxOf(x));
               && Represents(m2, nil, root', UpMax(p, MaxOf(x)), x)
               && t.node in m2 && m2[t.node] == m[t.node]
  {
    var x, fm := Child(t), MaxOf(Child(t));
    PathInMem(m, nil, root, p, t.node);
    SpineInPath(p);
    assert Links(m, nil, x, t.node) && TreeNodes(x) < TreeNodes(t) && t.node in TreeNodes(t);
    LinksInMem(m, nil, x, t.node);
    assert x.Br? ==> x.node in TreeNodes(x);
    var m1, root' := Unlinked(m, nil, p, t), if p.Top? then Ref(nil, x) else root;
    if !p.Top? {
      Refocus(m, nil, root, p, t.node, Ref(nil, x), m1);
    }
    Reparent(m, nil, x, t.node, ParentRef(nil, p), m1);
    UnlinkedMax(m1, nil, root', p, x);
    MaxWritesFrame(m1, p, fm);
  }

  /** The fields above a node say where it hangs. */
  lemma AboveNode(m: Mem, nil: Node, root: Node, p: Path, t: Tree)
    requires Represents(m, nil, root, p, t) && t.Br?
    ensures t.node in m && m[t.node].parent == ParentRef(nil, p)
    ensures !p.Top? ==> p.node in m && p.node != nil && (m[p.node].left == t.node <==> p.InLeft?)
  {
    assert t.node in TreeNodes(t);
    if !p.Top? && p.sib.Br? {
      assert p.sib.node in TreeNodes(p.sib) && p.sib.node in PathNodes(p);
    }
  }

  lemma UnlinkedMax(m: Mem, nil: Node, root: Node, p: Path, x: Tree)
    requires nil in m && nil !in PathNodes(p) && Links(m, nil, x, ParentRef(nil, p)) && PathLinks(m, nil, root, p, Ref(nil, x))
    requires Distinct(x) && PathDistinct(p) && TreeNodes(x) !! PathNodes(p) && Spine(p) <= m.Keys
    ensures AtPath(m, nil, root, p, Ref(nil, x), MaxOf(x))
    ensures Represents(MaxWrites(m, p, MaxOf(x)), nil, root, UpMax(p, MaxOf(x)), x)
  {
    var fm := MaxOf(x);
    SpineInPath(p);
    assert x.Br? ==> x.node in TreeNodes(x);
    MaxWritesLink(m, nil, root, p, Ref(nil, x), fm);
    MaxWritesFrame(m, p, fm);
    UpMaxNodes(p, fm);
    LinksFrame(m, MaxWrites(m, p, fm), nil, x, ParentRef(nil, p));
  }

  lemma {:induction false} BelowSpine(p: Path, z: Node)
    requires Below(p, z)
    ensures z in Spine(p)
    decreases p
  {
    if p.node != z {
      BelowSpine(p.up, z);
    }
  }

  lemma {:induction false} PatchedNodes(p: Path, z: Node, v: IntervalValue, fm: Option<Point>)
    requires Below(p, z)
    ensures PathNodes(Patched(p, z, v, fm)) == PathNodes(p) && (PathDistinct(p) ==> PathDistinct(Patched(p, z, v, fm)))
    ensures !Patched(p, z, v, fm).Top? && Patched(p, z, v, fm).node == p.node
    decreases p
  {
    if p.node == z {
      UpMaxNodes(InRight(z, v, p.max, p.c, p.sib, p.up), fm);
    } else {
      PatchedNodes(p.up, z, v, Some(p.max));
    }
  }

  /** The successor's interval is written to z: where updateMax starts then, and what it leaves. */
  lemma {:induction false} PatchedAt(m: Mem, nil: Node, root: Node, p: Path, focus: Node, fm: Option<Point>,
                                     z: Node, v: IntervalValue)
    returns (tail: Path, f: Node, o: Option<Point>)
    requires Below(p, z) && AtPath(m, nil, root, p, focus, fm)
    ensures z in m && !tail.Top? && tail.node == z && Spine(tail) <= Spine(p)
    ensures var m1 := m[z := m[z].(iv := v)];
            && AtPath(m1, nil, root, tail, f, o)
            && PathLinks(MaxWrites(m1, tail, o), nil, root, Patched(p, z, v, fm), focus)
    decreases p
  {
    PathInMem(m, nil, root, p, focus);
    SpineInPath(p);
    if p.node == z {
      var m1 := m[z := m[z].(iv := v)];
      tail, f, o := InRight(z, v, p.max, p.c, p.sib, p.up), focus, fm;
      LinksFrame(m, m1, nil, p.sib, z);
      PathFrame(m, m1, nil, root, p.up, z);
      MaxWritesLink(m1, nil, root, tail, focus, fm);
    } else {
      SpineInPath(p.up);
      tail, f, o := PatchedAt(m, nil, root, p.up, p.node, Some(p.max), z, v);
      var m2 := m[z := m[z].(iv := v)];
      MaxWritesFrame(m2, tail, o);
      BelowSpine(p.up, z);
      PatchedNodes(p.up, z, v, Some(p.max));
      LinksFrame(m, MaxWrites(m2, tail, o), nil, p.sib, p.node);
    }
  }

  /** After that write the tree has the patched path. */
  lemma PatchedRepresents(m: Mem, nil: Node, root: Node, p: Path, t: Tree, z: Node, v: IntervalValue)
    returns (tail: Path, f: Node, o: Option<Point>)
    requires Represents(m, nil, root, p, t) && Below(p, z)
    ensures z in m && z != nil && !tail.Top? && tail.node == z
    ensures var m1 := m[z := m[z].(iv := v)];
            && AtPath(m1, nil, root, tail, f, o)
            && Represents(MaxWrites(m1, tail, o), nil, root, Patched(p, z, v, MaxOf(t)), t)
  {
    PathInMem(m, nil, root, p, Ref(nil, t));
    SpineInPath(p);
    BelowSpine(p, z);
    LinksInMem(m, nil, t, ParentRef(nil, p));
    assert t.Br? ==> t.node in TreeNodes(t);
    tail, f, o := PatchedAt(m, nil, root, p, Ref(nil, t), MaxOf(t), z, v);
    var m1 := m[z := m[z].(iv := v)];
    MaxWritesFrame(m1, tail, o);
    PatchedNodes(p, z, v, MaxOf(t));
    LinksFrame(m, MaxWrites(m1, tail, o), nil, t, ParentRef(nil, p));
  }

  lemma SuccessorApart(m: Mem, nil: Node, root: Node, p: Path, t: Tree, z: Node)
    requires Represents(m, nil, root, p, t) && t.Br? && Below(p, z)
    ensures z in m && z != nil && z != t.node && t.node in m && t.node != nil
  {
    PathInMem(m, nil, root, p, t.node);
    SpineInPath(p);
    BelowSpine(p, z);
    assert t.node in TreeNodes(t);
  }

  /** The k-th node in order is a linked node with the k-th interval. */
  lemma {:induction false} NodesInTree(m: Mem, nil: Node, t: Tree, parent: Node, k: nat)
    requires Links(m, nil, t, parent) && k < |Inorder(t)|
    ensures |NodesOf(t)| == |Inorder(t)| && NodesOf(t)[k].node in m && NodesOf(t)[k].node != nil
    ensures m[NodesOf(t)[k].node].iv == Inorder(t)[k]
    decreases t
  {
    NodesCount(t);
    NodesCount(t.l);
    var a := |Inorder(t.l)|;
    if k < a {
      NodesInTree(m, nil, t.l, t.node, k);
    } else if k > a {
      NodesInTree(m, nil, t.r, t.node, k - a - 1);
    }
  }
}
