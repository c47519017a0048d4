/**
 The interval tree of `interval_tree.go` as linked nodes updated in place. Every method is followed
 through the memory of `RbMemory` to the tree it represents.
 */
module IntervalTree {
  import opened Bytes
  import opened Interval
  import opened Nodes
  import opened Numbers
  import opened RbTree
  import opened RbMemory
  import opened RbDelete
  import opened RbDeleteMemory
  import opened RbQuery

  class IntervalTree {
    var root: Node
    var count: nat
    const sentinel: Node
    ghost var nodes: set<Node>
    ghost var tree: Tree

    /** The fields of all nodes of this tree, the sentinel included. */
    ghost function Mem(): Mem
      reads this`nodes, nodes
    {
      map n | n in nodes :: Rec(n.iv, n.max, n.left, n.right, n.parent, n.c)
    }

    /** What every operation keeps: linked nodes for a sorted red-black tree with correct maxima and count. */
    ghost predicate Valid()
      reads this, nodes
    {
      && Represents(Mem(), sentinel, root, Top, tree)
      && RbRoot(tree) && MaxOk(tree) && Sorted(Inorder(tree)) && count == |Inorder(tree)|
    }

    /** The stored intervals in ascending order of their begin. */
    ghost function Items(): seq<IntervalValue>
      reads this
    {
      Inorder(tree)
    }

    /** An empty tree: the shared sentinel is the root. */
    constructor ()
      ensures Valid() && Items() == [] && fresh(nodes)
    {
      var nil := new Node(IntervalValue(Interval(0, 0), 0), null, Black);
      sentinel, root, count, nodes, tree := nil, nil, 0, {nil}, Nil;
      assert Rb(Nil, 0);
    }

    // ---------- Fields ----------

    method PutLeft(x: Node, v: Node)
      requires x in nodes
      modifies x`left
      ensures x.left == v && Mem() == SetLeft(old(Mem()), x, v)
    {
      x.left := v;
    }

    method PutRight(x: Node, v: Node)
      requires x in nodes
      modifies x`right
      ensures x.right == v && Mem() == SetRight(old(Mem()), x, v)
    {
      x.right := v;
    }

    method PutParent(x: Node, v: Node?)
      requires x in nodes
      modifies x`parent
      ensures x.parent == v && Mem() == SetParent(old(Mem()), x, v)
    {
      x.parent := v;
    }

    method PutColor(x: Node, c: Color)
      requires x in nodes
      modifies x`c
      ensures x.c == c && Mem() == SetColor(old(Mem()), x, c)
    {
      x.c := c;
    }

    method PutMax(x: Node, v: Point)
      requires x in nodes
      modifies x`max
      ensures x.max == v && Mem() == SetMax(old(Mem()), x, v)
    {
      x.max := v;
    }

    // ---------- Maxima and rotations ----------

    /** The maximum a node should have, from its own endpoint and its children. */
    method RecomputedMax(x: Node, ghost p: Path, ghost focus: Node, ghost fm: Option<Point>) returns (max: Point)
      requires AtPath(Mem(), sentinel, root, p, focus, fm) && !p.Top? && x == p.node
      ensures max == FrameMax(p, fm)
    {
      ghost var m := Mem();
      assert m[x].left == x.left && m[x].right == x.right && m[x].iv == x.iv;
      max := x.iv.ivl.end;
      if x.left != sentinel && ComparePoints(x.left.max, max) > 0 {
        max := x.left.max;
      }
      if x.right != sentinel && ComparePoints(x.right.max, max) > 0 {
        max := x.right.max;
      }
    }

    /** Recompute maxima from x upwards until one does not change; x is the first node of the path p. */
    method UpdateMax(start: Node, ghost p: Path, ghost focus: Node, ghost fm: Option<Point>)
      requires start == ParentRef(sentinel, p) && AtPath(Mem(), sentinel, root, p, focus, fm)
      modifies nodes`max
      ensures Mem() == MaxWrites(old(Mem()), p, fm)
    {
      var x: Node := start;
      ghost var q, f: Node, o := p, focus, fm;
      while x != sentinel
        invariant x == ParentRef(sentinel, q) && AtPath(Mem(), sentinel, root, q, f, o)
        invariant MaxWrites(Mem(), q, o) == MaxWrites(old(Mem()), p, fm)
        decreases q
      {
        var max := RecomputedMax(x, q, f, o);
        ghost var m := Mem();
        assert m[x].max == x.max && m[x].parent == x.parent;
        if ComparePoints(x.max, max) == 0 {
          break;
        }
        MaxStep(m, sentinel, root, q, f, o);
        PutMax(x, max);
        f, o, q := x, Some(max), q.up;
        x := x.parent;
      }
    }

    /** Link y where x hangs, repair the maxima above, and hang x below y. */
    method ReplaceParent(x: Node, y: Node, ghost p: Path)
      requires PathLinks(Mem(), sentinel, root, p, x) && PathDistinct(p)
      requires sentinel in nodes && x in nodes && y in nodes && x != y && x != sentinel && y != sentinel
      requires x !in PathNodes(p) && y !in PathNodes(p) && x.parent == ParentRef(sentinel, p)
      modifies this`root, nodes
      ensures Spine(p) <= old(Mem()).Keys
      ensures Mem() == RbMemory.ReplaceParent(old(Mem()), p, x, y)
      ensures root == if p.Top? then y else old(root)
    {
      ghost var m := Mem();
      RelinkedAt(m, sentinel, root, p, x, y);
      PutParent(y, x.parent);
      if x.parent == sentinel {
        root := y;
      } else {
        var above := x.parent;
        LinkChild(above, x, y, p);
        UpdateMax(above, p, y, Some(m[y].max));
      }
      PutParent(x, y);
    }

    /** Whichever child field refers to x now refers to y. */
    method LinkChild(above: Node, x: Node, y: Node, ghost p: Path)
      requires !p.Top? && above == p.node && above in nodes && x != sentinel && x !in PathNodes(p)
      requires if p.InLeft? then above.left == x && above.right == Ref(sentinel, p.sib)
               else above.right == x && above.left == Ref(sentinel, p.sib)
      modifies above`left, above`right
      ensures Mem() == if p.InLeft? then SetLeft(old(Mem()), above, y) else SetRight(old(Mem()), above, y)
    {
      if x == above.left {
        PutLeft(above, y);
      } else {
        PutRight(above, y);
      }
    }

    /** rotateLeft: x moves below its right child; without one nothing happens. */
    method RotateLeft(x: Node, ghost p: Path, ghost t: Tree)
      requires Represents(Mem(), sentinel, root, p, t) && t.Br? && x == t.node && MaxOk(t) && PathMaxOk(p, Some(t.max))
      modifies this`root, nodes
      ensures Represents(Mem(), sentinel, root, p, if HasRight(t) then RotL(t) else t)
      ensures Mem()[sentinel] == old(Mem()[sentinel])
    {
      assert Mem()[x].right == x.right && Links(Mem(), sentinel, t.r, x);
      if x.right == sentinel {
        return;
      }
      var y := x.right;
      CutLeftOff(x, y, p, t);
      LiftLeft(x, y, p, t);
    }

    /** The first half: y's left subtree moves over to x, and the maxima from x upwards are repaired. */
    method CutLeftOff(x: Node, y: Node, ghost p: Path, ghost t: Tree)
      requires Represents(Mem(), sentinel, root, p, t) && HasRight(t) && PathMaxOk(p, Some(t.max))
      requires x == t.node && y == t.r.node
      modifies nodes
      ensures LeftParts(Mem(), sentinel, t, ParentRef(sentinel, p), Join(t, t.l, t.r.l).max, t.r.max, x)
      ensures PathLinks(Mem(), sentinel, root, UpMax(p, Some(Join(t, t.l, t.r.l).max)), x)
      ensures Mem()[sentinel] == old(Mem()[sentinel])
    {
      ghost var m := Mem();
      CutLeftLinks(m, sentinel, root, p, t);
      assert Links(m, sentinel, t.r, x) && m[y].left == y.left;
      var moved := y.left;
      PutRight(x, moved);
      if moved != sentinel {
        PutParent(moved, x);
      }
      ghost var m1 := Mem();
      assert m1 == CutLeft(m, sentinel, t);
      CutLeftAt(m1, sentinel, root, p, t);
      MaxAfterCutLeft(m1, sentinel, root, p, t);
      UpdateMax(x, CutLeftPath(p, t), Ref(sentinel, t.l), MaxOf(t.l));
    }

    /** The second half: y takes x's place, x hangs below y, and the maxima from y upwards are repaired. */
    method LiftLeft(x: Node, y: Node, ghost p: Path, ghost t: Tree)
      requires HasRight(t) && Apart(p, t) && MaxOk(t) && PathMaxOk(p, Some(t.max)) && x == t.node && y == t.r.node
      requires LeftParts(Mem(), sentinel, t, ParentRef(sentinel, p), Join(t, t.l, t.r.l).max, t.r.max, x)
      requires PathLinks(Mem(), sentinel, root, UpMax(p, Some(Join(t, t.l, t.r.l).max)), x)
      modifies this`root, nodes
      ensures Represents(Mem(), sentinel, root, p, RotL(t))
      ensures Mem()[sentinel] == old(Mem()[sentinel])
    {
      ghost var max := Join(t, t.l, t.r.l).max;
      ghost var m := Mem();
      ReplaceInRotateLeft(m, sentinel, root, p, t);
      UpMaxNodes(p, Some(max));
      assert m[x].parent == x.parent && y in TreeNodes(t.r);
      ReplaceParent(x, y, UpMax(p, Some(max)));
      FinishRotateLeft(Mem(), sentinel, root, p, t);
      PutLeft(y, x);
      UpdateMax(y, LiftLeftPath(p, t), x, Some(max));
    }

    /** rotateRight: x moves below its left child; without one nothing happens. */
    method RotateRight(x: Node, ghost p: Path, ghost t: Tree)
      requires Represents(Mem(), sentinel, root, p, t) && t.Br? && x == t.node && MaxOk(t) && PathMaxOk(p, Some(t.max))
      modifies this`root, nodes
      ensures Represents(Mem(), sentinel, root, p, if HasLeft(t) then RotR(t) else t)
      ensures Mem()[sentinel] == old(Mem()[sentinel])
    {
      assert Mem()[x].left == x.left && Links(Mem(), sentinel, t.l, x);
      if x.left == sentinel {
        return;
      }
      var y := x.left;
      CutRightOff(x, y, p, t);
      LiftRight(x, y, p, t);
    }

    /** The first half: y's right subtree moves over to x, and the maxima from x upwards are repaired. */
    method CutRightOff(x: Node, y: Node, ghost p: Path, ghost t: Tree)
      requires Represents(Mem(), sentinel, root, p, t) && HasLeft(t) && PathMaxOk(p, Some(t.max))
      requires x == t.node && y == t.l.node
      modifies nodes
      ensures RightParts(Mem(), sentinel, t, ParentRef(sentinel, p), Join(t, t.l.r, t.r).max, t.l.max, x)
      ensures PathLinks(Mem(), sentinel, root, UpMax(p, Some(Join(t, t.l.r, t.r).max)), x)
      ensures Mem()[sentinel] == old(Mem()[sentinel])
    {
      ghost var m := Mem();
      CutRightLinks(m, sentinel, root, p, t);
      assert Links(m, sentinel, t.l, x) && m[y].right == y.right;
      var moved := y.right;
      PutLeft(x, moved);
      if moved != sentinel {
        PutParent(moved, x);
      }
      ghost var m1 := Mem();
      assert m1 == CutRight(m, sentinel, t);
      CutRightAt(m1, sentinel, root, p, t);
      MaxAfterCutRight(m1, sentinel, root, p, t);
      UpdateMax(x, CutRightPath(p, t), Ref(sentinel, t.r), MaxOf(t.r));
    }

    /** The second half: y takes x's place, x hangs below y, and the maxima from y upwards are repaired. */
    method LiftRight(x: Node, y: Node, ghost p: Path, ghost t: Tree)
      requires HasLeft(t) && Apart(p, t) && MaxOk(t) && PathMaxOk(p, Some(t.max)) && x == t.node && y == t.l.node
      requires RightParts(Mem(), sentinel, t, ParentRef(sentinel, p), Join(t, t.l.r, t.r).max, t.l.max, x)
      requires PathLinks(Mem(), sentinel, root, UpMax(p, Some(Join(t, t.l.r, t.r).max)), x)
      modifies this`root, nodes
      ensures Represents(Mem(), sentinel, root, p, RotR(t))
      ensures Mem()[sentinel] == old(Mem()[sentinel])
    {
      ghost var max := Join(t, t.l.r, t.r).max;
      ghost var m := Mem();
      ReplaceInRotateRight(m, sentinel, root, p, t);
      UpMaxNodes(p, Some(max));
      assert m[x].parent == x.parent && y in TreeNodes(t.l);
      ReplaceParent(x, y, UpMax(p, Some(max)));
      FinishRotateRight(Mem(), sentinel, root, p, t);
      PutRight(y, x);
      UpdateMax(y, LiftRightPath(p, t), x, Some(max));
    }

    // ---------- Insertion ----------

    function ColorOf(x: Node): Color
      reads x
    {
      if x == sentinel then Black else x.c
    }

    /** Parent and uncle black, grandparent red. */
    method RecolorUncle(ghost p: Path, ghost t: Tree, parent: Node, grand: Node, uncle: Node)
      requires Represents(Mem(), sentinel, root, p, t) && t.Br? && !p.Top? && !p.up.Top? && p.up.sib.Br?
      requires parent == p.node && grand == p.up.node && uncle == p.up.sib.node
      modifies nodes`c
      ensures Represents(Mem(), sentinel, root, p.up.up, Recolored(p, t))
    {
      ghost var g, up := p.up, p.up.up;
      ghost var whole := Plug(g, Plug(p, t));
      PlugApart(p, t);
      PlugApart(g, Plug(p, t));
      assert uncle in TreeNodes(g.sib);
      MoveUp(Mem(), sentinel, root, p, t);
      MoveUp(Mem(), sentinel, root, g, Plug(p, t));
      PaintRepresents(Mem(), sentinel, root, up, whole, uncle, Black);
      PutColor(uncle, Black);
      ghost var w1 := Paint(whole, uncle, Black);
      PaintNodes(whole, uncle, Black);
      PaintRepresents(Mem(), sentinel, root, up, w1, parent, Black);
      PutColor(parent, Black);
      ghost var w2 := Paint(w1, parent, Black);
      PaintNodes(w1, parent, Black);
      PaintRepresents(Mem(), sentinel, root, up, w2, grand, Red);
      PutColor(grand, Red);
      PaintRecolored(p, t);
    }

    method PaintBeforeRotation(parent: Node, grand: Node, ghost g: Path, ghost t: Tree)
      requires Represents(Mem(), sentinel, root, g, t) && t.Br? && !g.Top? && parent == t.node && grand == g.node
      modifies nodes`c
      ensures Represents(Mem(), sentinel, root, g.up, Swapped(g, t))
      ensures Mem()[sentinel] == old(Mem()[sentinel])
    {
      ghost var whole := Plug(g, t);
      PlugApart(g, t);
      assert parent in TreeNodes(t);
      MoveUp(Mem(), sentinel, root, g, t);
      PaintRepresents(Mem(), sentinel, root, g.up, whole, parent, Black);
      PutColor(parent, Black);
      PaintNodes(whole, parent, Black);
      PaintRepresents(Mem(), sentinel, root, g.up, Paint(whole, parent, Black), grand, Red);
      PutColor(grand, Red);
      PaintSwapped(g, t);
      LinksInMem(Mem(), sentinel, Swapped(g, t), ParentRef(sentinel, g.up));
    }

    /** A black uncle, parent on the left: rotate an inner grandchild outside, then the grandparent. */
    method FixBlackUncleLeft(start: Node, ghost p: Path, ghost t: Tree, ghost h: nat, ghost s: seq<IntervalValue>)
      returns (z: Node, ghost p': Path, ghost t': Tree)
      requires Represents(Mem(), sentinel, root, p, t) && Fixing(p, t, h, s) && start == t.node
      requires !p.Top? && p.c.Red? && p.up.InLeft? && !IsRed(p.up.sib)
      modifies this`root, nodes
      ensures Represents(Mem(), sentinel, root, p', t') && Fixing(p', t', h, s) && z == t'.node
      ensures !p'.Top? && p'.c.Black? && Length(p') < Length(p)
    {
      ghost var g, parent := p.up, Plug(p, t);
      Around(Mem(), sentinel, root, p, t);
      MoveUp(Mem(), sentinel, root, p, t);
      PlugInorder(p, t);
      assert PathRb(g, h) && PathMaxOk(g, Some(p.max)) && Mem()[start].parent == start.parent;
      z := start;
      var above := z.parent;
      assert Mem()[above].right == above.right;
      if z == above.right {
        InnerToOuterLeft(parent, h);
        z := above;
        RotateLeft(z, g, parent);
        RotLKeeps(parent);
        parent := RotL(parent);
      }
      RotateGrandparentRight(z, g, parent, h);
      p', t' := RotatedPathLeft(g, parent), parent.l;
    }

    /** Parent black, grandparent red, and the grandparent rotates to the right. */
    method RotateGrandparentRight(z: Node, ghost g: Path, ghost t: Tree, ghost h: nat)
      requires Represents(Mem(), sentinel, root, g, t)
      requires g.InLeft? && RedLeftLeft(t, h) && BlackUncle(g, Some(t.max), h) && z == t.l.node
      modifies this`root, nodes
      ensures Represents(Mem(), sentinel, root, RotatedPathLeft(g, t), t.l)
      ensures Fixing(RotatedPathLeft(g, t), t.l, h, LeftOf(g) + Inorder(t) + RightOf(g))
      ensures RotatedPathLeft(g, t).c.Black?
    {
      Around(Mem(), sentinel, root, g, t);
      assert Links(Mem(), sentinel, t.l, t.node) && Mem()[z].parent == z.parent;
      var parent := z.parent;
      assert Mem()[parent].parent == parent.parent;
      var grand := parent.parent;
      PaintBeforeRotation(parent, grand, g, t);
      RotateFixesLeft(g, t, h);
      RotateRight(grand, g.up, Swapped(g, t));
      MoveUp(Mem(), sentinel, root, RotatedPathLeft(g, t), t.l);
    }

    /** A black uncle, parent on the right: rotate an inner grandchild outside, then the grandparent. */
    method FixBlackUncleRight(start: Node, ghost p: Path, ghost t: Tree, ghost h: nat, ghost s: seq<IntervalValue>)
      returns (z: Node, ghost p': Path, ghost t': Tree)
      requires Represents(Mem(), sentinel, root, p, t) && Fixing(p, t, h, s) && start == t.node
      requires !p.Top? && p.c.Red? && p.up.InRight? && !IsRed(p.up.sib)
      modifies this`root, nodes
      ensures Represents(Mem(), sentinel, root, p', t') && Fixing(p', t', h, s) && z == t'.node
      ensures !p'.Top? && p'.c.Black? && Length(p') < Length(p)
    {
      ghost var g, parent := p.up, Plug(p, t);
      Around(Mem(), sentinel, root, p, t);
      MoveUp(Mem(), sentinel, root, p, t);
      PlugInorder(p, t);
      assert PathRb(g, h) && PathMaxOk(g, Some(p.max)) && Mem()[start].parent == start.parent;
      z := start;
      var above := z.parent;
      assert Mem()[above].left == above.left;
      if z == above.left {
        InnerToOuterRight(parent, h);
        z := above;
        RotateRight(z, g, parent);
        RotRKeeps(parent);
        parent := RotR(parent);
      }
      RotateGrandparentLeft(z, g, parent, h);
      p', t' := RotatedPathRight(g, parent), parent.r;
    }

    /** Parent black, grandparent red, and the grandparent rotates to the left. */
    method RotateGrandparentLeft(z: Node, ghost g: Path, ghost t: Tree, ghost h: nat)
      requires Represents(Mem(), sentinel, root, g, t)
      requires g.InRight? && RedRightRight(t, h) && BlackUncle(g, Some(t.max), h) && z == t.r.node
      modifies this`root, nodes
      ensures Represents(Mem(), sentinel, root, RotatedPathRight(g, t), t.r)
      ensures Fixing(RotatedPathRight(g, t), t.r, h, LeftOf(g) + Inorder(t) + RightOf(g))
      ensures RotatedPathRight(g, t).c.Black?
    {
      Around(Mem(), sentinel, root, g, t);
      assert Links(Mem(), sentinel, t.r, t.node) && Mem()[z].parent == z.parent;
      var parent := z.parent;
      assert Mem()[parent].parent == parent.parent;
      var grand := parent.parent;
      PaintBeforeRotation(parent, grand, g, t);
      RotateFixesRight(g, t, h);
      RotateLeft(grand, g.up, Swapped(g, t));
      MoveUp(Mem(), sentinel, root, RotatedPathRight(g, t), t.r);
    }

    method InsertFixup(start: Node, ghost p0: Path, ghost t0: Tree, ghost h0: nat, ghost s: seq<IntervalValue>)
      returns (ghost tree: Tree)
      requires Represents(Mem(), sentinel, root, p0, t0) && Fixing(p0, t0, h0, s) && start == t0.node
      modifies this`root, nodes
      ensures Represents(Mem(), sentinel, root, Top, tree)
      ensures RbRoot(tree) && MaxOk(tree) && Inorder(tree) == s
    {
      var z := start;
      ghost var p, t, h := p0, t0, h0;
      Around(Mem(), sentinel, root, p, t);
      assert Mem()[z].parent == z.parent;
      while ColorOf(z.parent) == Red
        invariant Represents(Mem(), sentinel, root, p, t) && Fixing(p, t, h, s)
        invariant z == t.node && z.parent == ParentRef(sentinel, p)
        decreases Length(p)
      {
        Around(Mem(), sentinel, root, p, t);
        assert Mem()[z.parent].c == z.parent.c;
        z, p, t, h := InsertFixupStep(z, p, t, h, s);
        Around(Mem(), sentinel, root, p, t);
        assert Mem()[z].parent == z.parent;
      }
      Around(Mem(), sentinel, root, p, t);
      assert !p.Top? ==> Mem()[p.node].c == p.node.c;
      FixingEnds(p, t, h, s);
      ghost var whole := Zip(p, t);
      ZipRepresents(Mem(), sentinel, root, p, t);
      assert whole.Br? && root == whole.node && root in TreeNodes(whole);
      PaintRepresents(Mem(), sentinel, root, Top, whole, root, Black);
      PaintRoot(whole, Black);
      PutColor(root, Black);
      tree := Tint(whole, Black);
    }

    /** One turn of the loop: a red uncle moves the violation up, a black one ends it. */
    method InsertFixupStep(start: Node, ghost p: Path, ghost t: Tree, ghost h: nat, ghost s: seq<IntervalValue>)
      returns (z: Node, ghost p': Path, ghost t': Tree, ghost h': nat)
      requires Represents(Mem(), sentinel, root, p, t) && Fixing(p, t, h, s) && start == t.node && !p.Top? && p.c.Red?
      modifies this`root, nodes
      ensures Represents(Mem(), sentinel, root, p', t') && Fixing(p', t', h', s) && z == t'.node
      ensures Length(p') < Length(p)
    {
      var parent, grand, uncle := Relatives(start, p, t);
      h' := h;
      if ColorOf(uncle) == Red {
        RecolorFixes(p, t, h, s);
        RecolorUncle(p, t, parent, grand, uncle);
        z, p', t', h' := grand, p.up.up, Recolored(p, t), h + 1;
      } else if parent == grand.left {
        z, p', t' := FixBlackUncleLeft(start, p, t, h, s);
      } else {
        z, p', t' := FixBlackUncleRight(start, p, t, h, s);
      }
    }

    /** Parent, grandparent and uncle of a node below a red parent. */
    method Relatives(z: Node, ghost p: Path, ghost t: Tree) returns (parent: Node, grand: Node, uncle: Node)
      requires Represents(Mem(), sentinel, root, p, t) && t.Br? && z == t.node && !p.Top? && !p.up.Top?
      ensures parent == p.node && grand == p.up.node && uncle == Ref(sentinel, p.up.sib)
      ensures (ColorOf(uncle) == Red <==> IsRed(p.up.sib)) && (parent == grand.left <==> p.up.InLeft?)
    {
      Around(Mem(), sentinel, root, p, t);
      AroundGrandparent(Mem(), sentinel, root, p, t);
      assert Mem()[z].parent == z.parent;
      parent := z.parent;
      assert Mem()[parent].parent == parent.parent;
      grand := parent.parent;
      assert Mem()[grand].left == grand.left && Mem()[grand].right == grand.right;
      uncle := if parent == grand.left then grand.right else grand.left;
      assert p.up.sib.Br? ==> Mem()[uncle].c == uncle.c;
    }

    /** Descend to the empty place where an interval that begins at the given point belongs. */
    method FindSlot(begin: Point) returns (y: Node, ghost p: Path)
      requires Valid()
      ensures Represents(Mem(), sentinel, root, p, Nil) && Zip(p, Nil) == tree && y == ParentRef(sentinel, p)
      ensures Slot(p, begin)
    {
      var x := root;
      y := sentinel;
      p := Top;
      ghost var t := tree;
      while x != sentinel
        invariant Represents(Mem(), sentinel, root, p, t) && Zip(p, t) == tree
        invariant x == Ref(sentinel, t) && y == ParentRef(sentinel, p) && Slot(p, begin)
        decreases t
      {
        ZipInorder(p, t);
        SlotBelow(p, t, begin);
        assert Mem()[x].left == x.left && Mem()[x].right == x.right && Mem()[x].iv == x.iv;
        y := x;
        if ComparePoints(begin, x.iv.ivl.begin) < 0 {
          p, t := InLeft(x, t.iv, t.max, t.c, t.r, p), t.l;
          x := x.left;
        } else {
          p, t := InRight(x, t.iv, t.max, t.c, t.l, p), t.r;
          x := x.right;
        }
        MoveUp(Mem(), sentinel, root, p, t);
      }
    }

    /** Insert: a new red leaf at its place, maxima repaired upwards, then the fixup. */
    method Insert(ivl: Interval, val: int)
      requires Valid()
      modifies this, nodes
      ensures Valid() && fresh(nodes - old(nodes))
      ensures Items() == Inserted(old(Items()), IntervalValue(ivl, val))
    {
      ghost var tree' := InsertNode(IntervalValue(ivl, val));
      tree := tree';
      count := count + 1;
    }

    method InsertNode(iv: IntervalValue) returns (ghost tree': Tree)
      requires Valid()
      modifies this`root, this`nodes, nodes
      ensures fresh(nodes - old(nodes)) && Represents(Mem(), sentinel, root, Top, tree')
      ensures RbRoot(tree') && MaxOk(tree') && Inorder(tree') == Inserted(Items(), iv)
      ensures Sorted(Inorder(tree')) && |Inorder(tree')| == |Items()| + 1
    {
      ghost var p;
      var y;
      y, p := FindSlot(iv.ivl.begin);
      InsertionPlan(tree, p, iv);
      tree' := InsertAt(iv, y, p);
    }

    /** A new red leaf at an empty place, and the fixup from there. */
    method InsertAt(iv: IntervalValue, y: Node, ghost p: Path) returns (ghost tree': Tree)
      requires Represents(Mem(), sentinel, root, p, Nil) && y == ParentRef(sentinel, p) && Slot(p, iv.ivl.begin)
      requires PathRb(p, 0) && PathMaxOk(p, None)
      modifies this`root, this`nodes, nodes
      ensures fresh(nodes - old(nodes)) && Represents(Mem(), sentinel, root, Top, tree')
      ensures RbRoot(tree') && MaxOk(tree') && Inorder(tree') == LeftOf(p) + [iv] + RightOf(p)
    {
      ghost var m := Mem();
      var z := CreateNode(iv, y);
      LeafAt(m, sentinel, root, p, z, iv);
      LinkLeaf(z, iv, y, m, p);
      LeafIsFixing(p, z, iv, 0);
      tree' := InsertFixup(z, UpMax(p, Some(iv.ivl.end)), NewLeaf(z, iv), 0, LeftOf(p) + [iv] + RightOf(p));
    }

    /** A new red node below y, not linked from there yet. */
    method CreateNode(iv: IntervalValue, y: Node) returns (z: Node)
      modifies this`nodes
      ensures nodes == old(nodes) + {z} && fresh(z) && z !in old(nodes)
      ensures Mem() == old(Mem())[z := Rec(iv, iv.ivl.end, sentinel, sentinel, y, Red)]
    {
      z := new Node(iv, sentinel, Red);
      nodes := nodes + {z};
      z.parent := y;
    }

    /** Link the node below y and repair the maxima from y upwards. */
    method LinkLeaf(z: Node, iv: IntervalValue, y: Node, ghost m: Mem, ghost p: Path)
      requires Represents(m, sentinel, root, p, Nil) && y == ParentRef(sentinel, p) && Slot(p, iv.ivl.begin)
      requires z !in m && z in nodes && y in nodes && Mem() == m[z := Rec(iv, iv.ivl.end, sentinel, sentinel, y, Red)]
      modifies this`root, nodes
      ensures Represents(Mem(), sentinel, root, UpMax(p, Some(iv.ivl.end)), NewLeaf(z, iv))
    {
      LeafAt(m, sentinel, root, p, z, iv);
      if y == sentinel {
        PathInMem(m, sentinel, root, p, sentinel);
        root := z;
      } else {
        assert Mem()[y].iv == y.iv && m[y].iv == p.iv;
        HangLeaf(z, iv, y, p);
        UpdateMax(y, p, z, Some(iv.ivl.end));
      }
    }

    method HangLeaf(z: Node, iv: IntervalValue, y: Node, ghost p: Path)
      requires !p.Top? && y == p.node && y in nodes && y.iv == p.iv && Slot(p, iv.ivl.begin)
      modifies y`left, y`right
      ensures Mem() == if p.InLeft? then SetLeft(old(Mem()), y, z) else SetRight(old(Mem()), y, z)
    {
      SlotSide(p, iv.ivl.begin);
      if ComparePoints(iv.ivl.begin, y.iv.ivl.begin) < 0 {
        PutLeft(y, z);
      } else {
        PutRight(y, z);
      }
    }

    // ---------- Deletion ----------

    method PaintCase1Nodes(parent: Node, w: Node, ghost p: Path, ghost t: Tree)
      requires Represents(Mem(), sentinel, root, p, t) && !p.Top? && p.sib.Br? && parent == p.node && w == p.sib.node
      modifies nodes`c
      ensures Represents(Mem(), sentinel, root, p.up, Case1Tree(p, t)) && Mem()[sentinel] == old(Mem()[sentinel])
    {
      ghost var whole := Plug(p, t);
      PlugApart(p, t);
      assert w in TreeNodes(p.sib);
      MoveUp(Mem(), sentinel, root, p, t);
      LinksInMem(Mem(), sentinel, whole, ParentRef(sentinel, p.up));
      PaintRepresents(Mem(), sentinel, root, p.up, whole, w, Black);
      PutColor(w, Black);
      PaintNodes(whole, w, Black);
      PaintRepresents(Mem(), sentinel, root, p.up, Paint(whole, w, Black), parent, Red);
      PutColor(parent, Red);
      PaintCase1(p, t);
    }

    method PaintCase4Nodes(parent: Node, w: Node, far: Node, ghost p: Path, ghost t: Tree, ghost sib: Tree)
      requires Represents(Mem(), sentinel, root, p, t) && !p.Top? && p.sib.Br? && parent == p.node && w == p.sib.node
      requires far in TreeNodes(p.sib) && far != w && Paint(Paint(p.sib, w, p.c), far, Black) == sib
      modifies nodes`c
      ensures Represents(Mem(), sentinel, root, p.up, Tint(Plug(WithSib(p, sib), t), Black))
    {
      ghost var whole := Plug(p, t);
      AroundSibling(Mem(), sentinel, root, p, t);
      PlugApart(p, t);
      assert w in TreeNodes(p.sib);
      MoveUp(Mem(), sentinel, root, p, t);
      assert Mem()[parent].c == parent.c;
      PaintRepresents(Mem(), sentinel, root, p.up, whole, w, p.c);
      PutColor(w, ColorOf(parent));
      PaintNodes(whole, w, p.c);
      ghost var w1 := Paint(whole, w, p.c);
      PaintRepresents(Mem(), sentinel, root, p.up, w1, parent, Black);
      PutColor(parent, Black);
      PaintNodes(w1, parent, Black);
      PaintRepresents(Mem(), sentinel, root, p.up, Paint(w1, parent, Black), far, Black);
      PutColor(far, Black);
      PaintCase4(p, t, far, sib);
    }

    /** Case 1, focus on the left: sibling black, parent red, parent rotated to the left. */
    method DeleteCase1Left(parent: Node, w: Node, ghost p: Path, ghost t: Tree, ghost e: nat, ghost s: seq<IntervalValue>)
      requires Represents(Mem(), sentinel, root, p, t) && Deleting(p, t, e, s)
      requires p.InLeft? && IsRed(p.sib) && !IsRed(t) && parent == p.node && w == p.sib.node
      modifies this`root, nodes
      ensures Represents(Mem(), sentinel, root, Case1Left(p, t), t) && Mem()[sentinel] == old(Mem()[sentinel])
    {
      ghost var q := Case1Left(p, t);
      PaintCase1Nodes(parent, w, p, t);
      Case1LeftKeeps(p, t, e, s);
      RotateLeft(parent, p.up, Case1Tree(p, t));
      MoveUp(Mem(), sentinel, root, q.up, Plug(q, t));
      MoveUp(Mem(), sentinel, root, q, t);
    }

    /** Case 3, focus on the left: the sibling's left child black, the sibling red and rotated to the right. */
    method DeleteCase3Left(w: Node, ghost p: Path, ghost t: Tree, ghost e: nat, ghost s: seq<IntervalValue>)
      requires Represents(Mem(), sentinel, root, p, t) && Deleting(p, t, e, s)
      requires p.InLeft? && p.sib.Br? && !IsRed(p.sib) && IsRed(p.sib.l) && !IsRed(p.sib.r) && w == p.sib.node
      modifies this`root, nodes
      ensures Represents(Mem(), sentinel, root, WithSib(p, RotR(Case3TreeLeft(p.sib))), t)
    {
      ghost var across, sib := SibPath(p, t), p.sib;
      AroundSibling(Mem(), sentinel, root, p, t);
      MoveAcross(Mem(), sentinel, root, p, t);
      assert Mem()[w].left == w.left;
      var near := w.left;
      assert near in TreeNodes(sib.l) && near in TreeNodes(sib) && w in TreeNodes(sib);
      PaintRepresents(Mem(), sentinel, root, across, sib, near, Black);
      PutColor(near, Black);
      PaintNodes(sib, near, Black);
      PaintRepresents(Mem(), sentinel, root, across, Paint(sib, near, Black), w, Red);
      PutColor(w, Red);
      PaintCase3Left(sib);
      Case3LeftKeeps(p, t, e, s);
      RotateRight(w, across, Case3TreeLeft(sib));
      MoveAcross(Mem(), sentinel, root, WithSib(p, RotR(Case3TreeLeft(sib))), t);
    }

    /** Case 4, focus on the left: the sibling takes the parent's color and place; its right child turns black. */
    method DeleteCase4Left(parent: Node, w: Node, ghost p: Path, ghost t: Tree, ghost e: nat, ghost s: seq<IntervalValue>)
      requires Represents(Mem(), sentinel, root, p, t) && Deleting(p, t, e, s) && p.InLeft? && !IsRed(t)
      requires HasRight(p.sib) && !IsRed(p.sib) && IsRed(p.sib.r) && parent == p.node && w == p.sib.node
      modifies this`root, nodes
      ensures Represents(Mem(), sentinel, root, p.up, RotL(Case4TreeLeft(p, t)))
    {
      AroundSibling(Mem(), sentinel, root, p, t);
      assert Mem()[w].right == w.right && Distinct(p.sib);
      var far := w.right;
      assert far in TreeNodes(p.sib.r);
      PaintFarRight(p.sib, p.c);
      PaintCase4Nodes(parent, w, far, p, t, Br(p.sib.node, p.sib.iv, p.sib.max, p.c, p.sib.l, Tint(p.sib.r, Black)));
      Case4LeftKeeps(p, t, e, s);
      RotateLeft(parent, p.up, Case4TreeLeft(p, t));
    }

    /** Case 1, focus on the right: sibling black, parent red, parent rotated to the right. */
    method DeleteCase1Right(parent: Node, w: Node, ghost p: Path, ghost t: Tree, ghost e: nat, ghost s: seq<IntervalValue>)
      requires Represents(Mem(), sentinel, root, p, t) && Deleting(p, t, e, s)
      requires p.InRight? && IsRed(p.sib) && !IsRed(t) && parent == p.node && w == p.sib.node
      modifies this`root, nodes
      ensures Represents(Mem(), sentinel, root, Case1Right(p, t), t) && Mem()[sentinel] == old(Mem()[sentinel])
    {
      ghost var q := Case1Right(p, t);
      PaintCase1Nodes(parent, w, p, t);
      Case1RightKeeps(p, t, e, s);
      RotateRight(parent, p.up, Case1Tree(p, t));
      MoveUp(Mem(), sentinel, root, q.up, Plug(q, t));
      MoveUp(Mem(), sentinel, root, q, t);
    }

    /** Case 3, focus on the right: the sibling's right child black, the sibling red and rotated to the left. */
    method DeleteCase3Right(w: Node, ghost p: Path, ghost t: Tree, ghost e: nat, ghost s: seq<IntervalValue>)
      requires Represents(Mem(), sentinel, root, p, t) && Deleting(p, t, e, s)
      requires p.InRight? && p.sib.Br? && !IsRed(p.sib) && IsRed(p.sib.r) && !IsRed(p.sib.l) && w == p.sib.node
      modifies this`root, nodes
      ensures Represents(Mem(), sentinel, root, WithSib(p, RotL(Case3TreeRight(p.sib))), t)
    {
      ghost var across, sib := SibPath(p, t), p.sib;
      AroundSibling(Mem(), sentinel, root, p, t);
      MoveAcross(Mem(), sentinel, root, p, t);
      assert Mem()[w].right == w.right;
      var near := w.right;
      assert near in TreeNodes(sib.r) && near in TreeNodes(sib) && w in TreeNodes(sib);
      PaintRepresents(Mem(), sentinel, root, across, sib, near, Black);
      PutColor(near, Black);
      PaintNodes(sib, near, Black);
      PaintRepresents(Mem(), sentinel, root, across, Paint(sib, near, Black), w, Red);
      PutColor(w, Red);
      PaintCase3Right(sib);
      Case3RightKeeps(p, t, e, s);
      RotateLeft(w, across, Case3TreeRight(sib));
      MoveAcross(Mem(), sentinel, root, WithSib(p, RotL(Case3TreeRight(sib))), t);
    }

    /** Case 4, focus on the right: the sibling takes the parent's color and place; its left child turns black. */
    method DeleteCase4Right(parent: Node, w: Node, ghost p: Path, ghost t: Tree, ghost e: nat, ghost s: seq<IntervalValue>)
      requires Represents(Mem(), sentinel, root, p, t) && Deleting(p, t, e, s) && p.InRight? && !IsRed(t)
      requires HasLeft(p.sib) && !IsRed(p.sib) && IsRed(p.sib.l) && parent == p.node && w == p.sib.node
      modifies this`root, nodes
      ensures Represents(Mem(), sentinel, root, p.up, RotR(Case4TreeRight(p, t)))
    {
      AroundSibling(Mem(), sentinel, root, p, t);
      assert Mem()[w].left == w.left && Distinct(p.sib);
      var far := w.left;
      assert far in TreeNodes(p.sib.l);
      PaintFarLeft(p.sib, p.c);
      PaintCase4Nodes(parent, w, far, p, t, Br(p.sib.node, p.sib.iv, p.sib.max, p.c, Tint(p.sib.l, Black), p.sib.r));
      Case4RightKeeps(p, t, e, s);
      RotateRight(parent, p.up, Case4TreeRight(p, t));
    }

    /** Case 2: the sibling turns red and the focus moves up. */
    method TurnSiblingRed(w: Node, ghost p: Path, ghost t: Tree)
      requires Represents(Mem(), sentinel, root, p, t) && !p.Top? && p.sib.Br? && w == p.sib.node
      modifies nodes`c
      ensures Represents(Mem(), sentinel, root, p.up, Case2(p, t))
    {
      PlugApart(p, t);
      assert w in TreeNodes(p.sib);
      MoveUp(Mem(), sentinel, root, p, t);
      PaintRepresents(Mem(), sentinel, root, p.up, Plug(p, t), w, Red);
      PutColor(w, Red);
      PaintCase2(p, t);
    }

    /** Case 4 as the last step: the whole tree is in order again, seen from its root. */
    method EndAtCase4Left(parent: Node, w: Node, ghost p: Path, ghost t: Tree, ghost e: nat, ghost s: seq<IntervalValue>)
      returns (ghost t': Tree, ghost e': nat)
      requires Represents(Mem(), sentinel, root, p, t) && Deleting(p, t, e, s) && p.InLeft? && !IsRed(t)
      requires HasRight(p.sib) && !IsRed(p.sib) && IsRed(p.sib.r) && parent == p.node && w == p.sib.node
      modifies this`root, nodes
      ensures Represents(Mem(), sentinel, root, Top, t') && Deleting(Top, t', e', s) && t'.Br?
    {
      Case4LeftKeeps(p, t, e, s);
      DeleteCase4Left(parent, w, p, t, e, s);
      ghost var restored := RotL(Case4TreeLeft(p, t));
      ZipRepresents(Mem(), sentinel, root, p.up, restored);
      ZipIsNode(p.up, restored);
      e' := RestoredIsDone(p.up, restored, s);
      t' := Zip(p.up, restored);
    }

    /** A black sibling with a red child, focus on the left: case 3 if need be, then case 4. */
    method DeleteRedNephewLeft(parent: Node, w0: Node, ghost p: Path, ghost t: Tree, ghost e: nat, ghost s: seq<IntervalValue>)
      returns (ghost t': Tree, ghost e': nat)
      requires Represents(Mem(), sentinel, root, p, t) && Deleting(p, t, e, s) && p.InLeft? && !IsRed(t)
      requires p.sib.Br? && !IsRed(p.sib) && !BlackChildren(p.sib) && parent == p.node && w0 == p.sib.node
      modifies this`root, nodes
      ensures Represents(Mem(), sentinel, root, Top, t') && Deleting(Top, t', e', s) && t'.Br?
    {
      var w: Node := w0;
      ghost var q := p;
      AroundSibling(Mem(), sentinel, root, p, t);
      assert Mem()[w].right == w.right;
      assert p.sib.r.Br? ==> Mem()[w.right].c == w.right.c;
      if ColorOf(w.right) == Black {
        Case3LeftKeeps(p, t, e, s);
        DeleteCase3Left(w, p, t, e, s);
        q := WithSib(p, RotR(Case3TreeLeft(p.sib)));
        AroundSibling(Mem(), sentinel, root, q, t);
        assert Mem()[parent].right == parent.right;
        w := parent.right;
      }
      t', e' := EndAtCase4Left(parent, w, q, t, e, s);
    }

    /** A black sibling, focus on the left: cases 2, 3 and 4. */
    method DeleteBlackSiblingLeft(parent: Node, w: Node, ghost p: Path, ghost t: Tree, ghost e: nat, ghost s: seq<IntervalValue>)
      returns (x: Node, ghost p': Path, ghost t': Tree, ghost e': nat)
      requires Represents(Mem(), sentinel, root, p, t) && Deleting(p, t, e, s)
      requires p.InLeft? && !IsRed(t) && p.sib.Br? && !IsRed(p.sib) && parent == p.node && w == p.sib.node
      modifies this`root, nodes
      ensures Represents(Mem(), sentinel, root, p', t') && Deleting(p', t', e', s) && x == Ref(sentinel, t')
      ensures t'.Br? && (IsRed(t') || p'.Top? || (p' == p.up && p.c.Black?))
    {
      AroundSibling(Mem(), sentinel, root, p, t);
      assert Mem()[w].left == w.left && Mem()[w].right == w.right;
      assert p.sib.l.Br? ==> Mem()[w.left].c == w.left.c;
      assert p.sib.r.Br? ==> Mem()[w.right].c == w.right.c;
      if ColorOf(w.left) == Black && ColorOf(w.right) == Black {
        TurnSiblingRed(w, p, t);
        Case2Keeps(p, t, e, s);
        x, p', t', e' := parent, p.up, Case2(p, t), if p.c.Red? then e else e + 1;
      } else {
        t', e' := DeleteRedNephewLeft(parent, w, p, t, e, s);
        x, p' := root, Top;
      }
    }

    /** One turn of the loop with the focus on the left. */
    method DeleteFixupLeft(start: Node, ghost p: Path, ghost t: Tree, ghost e: nat, ghost s: seq<IntervalValue>)
      returns (x: Node, ghost p': Path, ghost t': Tree, ghost e': nat)
      requires Represents(Mem(), sentinel, root, p, t) && Deleting(p, t, e, s)
      requires start == Ref(sentinel, t) && start.parent == ParentRef(sentinel, p) && p.InLeft? && !IsRed(t)
      modifies this`root, nodes
      ensures Represents(Mem(), sentinel, root, p', t') && Deleting(p', t', e', s)
      ensures x == Ref(sentinel, t') && x.parent == ParentRef(sentinel, p')
      ensures IsRed(t') || Length(p') < Length(p)
    {
      ghost var q := p;
      SiblingExists(p, t, e, s);
      AroundSibling(Mem(), sentinel, root, p, t);
      var parent := start.parent;
      assert Mem()[parent].right == parent.right;
      var w := parent.right;
      assert Mem()[w].c == w.c;
      if ColorOf(w) == Red {
        DeleteCase1Left(parent, w, p, t, e, s);
        Case1LeftKeeps(p, t, e, s);
        q := Case1Left(p, t);
        SiblingExists(q, t, e, s);
        AroundSibling(Mem(), sentinel, root, q, t);
        assert Mem()[parent].right == parent.right;
        w := parent.right;
      }
      x, p', t', e' := DeleteBlackSiblingLeft(parent, w, q, t, e, s);
      Around(Mem(), sentinel, root, p', t');
      assert Mem()[x].parent == x.parent;
      assert q != p ==> q.c.Red?;
    }

    /** Case 4 as the last step: the whole tree is in order again, seen from its root. */
    method EndAtCase4Right(parent: Node, w: Node, ghost p: Path, ghost t: Tree, ghost e: nat, ghost s: seq<IntervalValue>)
      returns (ghost t': Tree, ghost e': nat)
      requires Represents(Mem(), sentinel, root, p, t) && Deleting(p, t, e, s) && p.InRight? && !IsRed(t)
      requires HasLeft(p.sib) && !IsRed(p.sib) && IsRed(p.sib.l) && parent == p.node && w == p.sib.node
      modifies this`root, nodes
      ensures Represents(Mem(), sentinel, root, Top, t') && Deleting(Top, t', e', s) && t'.Br?
    {
      Case4RightKeeps(p, t, e, s);
      DeleteCase4Right(parent, w, p, t, e, s);
      ghost var restored := RotR(Case4TreeRight(p, t));
      ZipRepresents(Mem(), sentinel, root, p.up, restored);
      ZipIsNode(p.up, restored);
      e' := RestoredIsDone(p.up, restored, s);
      t' := Zip(p.up, restored);
    }

    /** A black sibling with a red child, focus on the right: case 3 if need be, then case 4. */
    method DeleteRedNephewRight(parent: Node, w0: Node, ghost p: Path, ghost t: Tree, ghost e: nat, ghost s: seq<IntervalValue>)
      returns (ghost t': Tree, ghost e': nat)
      requires Represents(Mem(), sentinel, root, p, t) && Deleting(p, t, e, s) && p.InRight? && !IsRed(t)
      requires p.sib.Br? && !IsRed(p.sib) && !BlackChildren(p.sib) && parent == p.node && w0 == p.sib.node
      modifies this`root, nodes
      ensures Represents(Mem(), sentinel, root, Top, t') && Deleting(Top, t', e', s) && t'.Br?
    {
      var w: Node := w0;
      ghost var q := p;
      AroundSibling(Mem(), sentinel, root, p, t);
      assert Mem()[w].left == w.left;
      assert p.sib.l.Br? ==> Mem()[w.left].c == w.left.c;
      if ColorOf(w.left) == Black {
        Case3RightKeeps(p, t, e, s);
        DeleteCase3Right(w, p, t, e, s);
        q := WithSib(p, RotL(Case3TreeRight(p.sib)));
        AroundSibling(Mem(), sentinel, root, q, t);
        assert Mem()[parent].left == parent.left;
        w := parent.left;
      }
      t', e' := EndAtCase4Right(parent, w, q, t, e, s);
    }

    /** A black sibling, focus on the right: cases 2, 3 and 4. */
    method DeleteBlackSiblingRight(parent: Node, w: Node, ghost p: Path, ghost t: Tree, ghost e: nat, ghost s: seq<IntervalValue>)
      returns (x: Node, ghost p': Path, ghost t': Tree, ghost e': nat)
      requires Represents(Mem(), sentinel, root, p, t) && Deleting(p, t, e, s)
      requires p.InRight? && !IsRed(t) && p.sib.Br? && !IsRed(p.sib) && parent == p.node && w == p.sib.node
      modifies this`root, nodes
      ensures Represents(Mem(), sentinel, root, p', t') && Deleting(p', t', e', s) && x == Ref(sentinel, t')
      ensures t'.Br? && (IsRed(t') || p'.Top? || (p' == p.up && p.c.Black?))
    {
      AroundSibling(Mem(), sentinel, root, p, t);
      assert Mem()[w].left == w.left && Mem()[w].right == w.right;
      assert p.sib.l.Br? ==> Mem()[w.left].c == w.left.c;
      assert p.sib.r.Br? ==> Mem()[w.right].c == w.right.c;
      if ColorOf(w.left) == Black && ColorOf(w.right) == Black {
        TurnSiblingRed(w, p, t);
        Case2Keeps(p, t, e, s);
        x, p', t', e' := parent, p.up, Case2(p, t), if p.c.Red? then e else e + 1;
      } else {
        t', e' := DeleteRedNephewRight(parent, w, p, t, e, s);
        x, p' := root, Top;
      }
    }

    /** One turn of the loop with the focus on the right. */
    method DeleteFixupRight(start: Node, ghost p: Path, ghost t: Tree, ghost e: nat, ghost s: seq<IntervalValue>)
      returns (x: Node, ghost p': Path, ghost t': Tree, ghost e': nat)
      requires Represents(Mem(), sentinel, root, p, t) && Deleting(p, t, e, s)
      requires start == Ref(sentinel, t) && start.parent == ParentRef(sentinel, p) && p.InRight? && !IsRed(t)
      modifies this`root, nodes
      ensures Represents(Mem(), sentinel, root, p', t') && Deleting(p', t', e', s)
      ensures x == Ref(sentinel, t') && x.parent == ParentRef(sentinel, p')
      ensures IsRed(t') || Length(p') < Length(p)
    {
      ghost var q := p;
      SiblingExists(p, t, e, s);
      AroundSibling(Mem(), sentinel, root, p, t);
      var parent := start.parent;
      assert Mem()[parent].left == parent.left;
      var w := parent.left;
      assert Mem()[w].c == w.c;
      if ColorOf(w) == Red {
        DeleteCase1Right(parent, w, p, t, e, s);
        Case1RightKeeps(p, t, e, s);
        q := Case1Right(p, t);
        SiblingExists(q, t, e, s);
        AroundSibling(Mem(), sentinel, root, q, t);
        assert Mem()[parent].left == parent.left;
        w := parent.left;
      }
      x, p', t', e' := DeleteBlackSiblingRight(parent, w, q, t, e, s);
      Around(Mem(), sentinel, root, p', t');
      assert Mem()[x].parent == x.parent;
      assert q != p ==> q.c.Red?;
    }

    method DeleteFixup(start: Node, ghost p0: Path, ghost t0: Tree, ghost e0: nat, ghost s: seq<IntervalValue>)
      returns (ghost tree: Tree)
      requires Represents(Mem(), sentinel, root, p0, t0) && Deleting(p0, t0, e0, s)
      requires start == Ref(sentinel, t0) && start.parent == ParentRef(sentinel, p0)
      modifies this`root, nodes
      ensures Represents(Mem(), sentinel, root, Top, tree)
      ensures RbRoot(tree) && MaxOk(tree) && Inorder(tree) == s
    {
      var x := start;
      ghost var p, t, e := p0, t0, e0;
      while x != root && ColorOf(x) == Black
        invariant Represents(Mem(), sentinel, root, p, t) && Deleting(p, t, e, s)
        invariant x == Ref(sentinel, t) && x.parent == ParentRef(sentinel, p)
        decreases if IsRed(t) then 0 else Length(p) + 1
      {
        RootIsFocus(Mem(), sentinel, root, p, t);
        assert t.Br? ==> Mem()[x].c == x.c;
        SiblingExists(p, t, e, s);
        AroundSibling(Mem(), sentinel, root, p, t);
        assert Mem()[x.parent].left == x.parent.left;
        if x == x.parent.left {
          x, p, t, e := DeleteFixupLeft(x, p, t, e, s);
        } else {
          x, p, t, e := DeleteFixupRight(x, p, t, e, s);
        }
      }
      RootIsFocus(Mem(), sentinel, root, p, t);
      assert t.Br? ==> Mem()[x].c == x.c;
      DeletingEnds(p, t, e, s);
      BlackenFocus(Mem(), sentinel, root, p, t);
      PutColor(x, Black);
      tree := Zip(p, Tint(t, Black));
      ZipRepresents(Mem(), sentinel, root, p, Tint(t, Black));
    }

    /** min: the leftmost node of a subtree that hangs to the right of z. */
    method Min(start: Node, ghost p0: Path, ghost t0: Tree, ghost z: Node) returns (x: Node, ghost p: Path, ghost t: Tree)
      requires Represents(Mem(), sentinel, root, p0, t0) && t0.Br? && start == t0.node && Below(p0, z)
      ensures Represents(Mem(), sentinel, root, p, t) && Zip(p, t) == Zip(p0, t0)
      ensures t.Br? && t.l.Nil? && x == t.node && Below(p, z)
      ensures LeftOf(p) == LeftOf(p0) && Inorder(t) + RightOf(p) == Inorder(t0) + RightOf(p0)
    {
      x, p, t := start, p0, t0;
      while true
        invariant Represents(Mem(), sentinel, root, p, t) && Zip(p, t) == Zip(p0, t0)
        invariant t.Br? && x == t.node && Below(p, z)
        invariant LeftOf(p) == LeftOf(p0) && Inorder(t) + RightOf(p) == Inorder(t0) + RightOf(p0)
        decreases t
      {
        assert Mem()[x].left == x.left && Links(Mem(), sentinel, t.l, x);
        if x.left == sentinel {
          break;
        }
        SuccessorApart(Mem(), sentinel, root, p, t, z);
        StepLeft(p, t, z);
        p, t := InLeft(x, t.iv, t.max, t.c, t.r, p), t.l;
        MoveUp(Mem(), sentinel, root, p, t);
        x := x.left;
      }
    }

    /** The only child of a node, or the sentinel. */
    method OnlyChild(y: Node, ghost t: Tree, ghost parent: Node) returns (x: Node)
      requires Links(Mem(), sentinel, t, parent) && OneChild(t) && y == t.node
      ensures x == Ref(sentinel, Child(t))
    {
      assert Mem()[y].left == y.left && Mem()[y].right == y.right;
      assert Links(Mem(), sentinel, t.l, y) && Links(Mem(), sentinel, t.r, y);
      x := sentinel;
      if y.left != sentinel {
        x := y.left;
      } else if y.right != sentinel {
        x := y.right;
      }
    }

    /** The node's only child takes its place, and the maxima above are repaired. */
    method Unlink(y: Node, ghost p: Path, ghost t: Tree) returns (x: Node)
      requires Represents(Mem(), sentinel, root, p, t) && OneChild(t) && y == t.node
      modifies this`root, nodes
      ensures Represents(Mem(), sentinel, root, UpMax(p, MaxOf(Child(t))), Child(t))
      ensures x == Ref(sentinel, Child(t)) && x.parent == ParentRef(sentinel, p)
      ensures y in nodes && Mem()[y] == old(Mem())[y]
    {
      UnlinkedAt(Mem(), sentinel, root, p, t);
      AboveNode(Mem(), sentinel, root, p, t);
      assert Mem()[y].parent == y.parent;
      var above := y.parent;
      x := OnlyChild(y, t, above);
      HangChild(y, x, above, p, t);
      assert Mem()[x].parent == x.parent;
      if above != sentinel {
        UpdateMax(above, p, x, MaxOf(Child(t)));
      }
    }

    /** The pointer writes that put the child in the node's place. */
    method HangChild(y: Node, x: Node, above: Node, ghost p: Path, ghost t: Tree)
      requires OneChild(t) && y in nodes && x in nodes && x == Ref(sentinel, Child(t))
      requires above == ParentRef(sentinel, p) && Spine(p) <= nodes
      requires !p.Top? ==> p.node in nodes && p.node != sentinel && (y == p.node.left <==> p.InLeft?)
      modifies this`root, x`parent, above`left, above`right
      ensures Mem() == Unlinked(old(Mem()), sentinel, p, t) && root == if p.Top? then x else old(root)
    {
      PutParent(x, above);
      if above == sentinel {
        root := x;
      } else {
        RelinkChild(y, x, above, p);
      }
    }

    /** Whichever child field of the parent refers to y now refers to x. */
    method RelinkChild(y: Node, x: Node, above: Node, ghost p: Path)
      requires !p.Top? && above == p.node && above in nodes && (y == above.left <==> p.InLeft?)
      modifies above`left, above`right
      ensures Mem() == if p.InLeft? then SetLeft(old(Mem()), above, x) else SetRight(old(Mem()), above, x)
    {
      if y == above.left {
        PutLeft(above, x);
      } else {
        PutRight(above, x);
      }
    }

    /** z takes over the interval of its successor, and the maxima from z upwards are repaired. */
    method TakeInterval(z: Node, y: Node, ghost p: Path, ghost t: Tree)
      requires Represents(Mem(), sentinel, root, p, t) && Below(p, z) && z in nodes && y in nodes && y != z
      modifies z`iv, nodes`max
      ensures Represents(Mem(), sentinel, root, Patched(p, z, y.iv, MaxOf(t)), t)
    {
      ghost var m := Mem();
      ghost var tail, f, o := PatchedRepresents(m, sentinel, root, p, t, z, y.iv);
      z.iv := y.iv;
      assert Mem() == m[z := m[z].(iv := y.iv)];
      UpdateMax(z, tail, f, o);
    }

    /** A black node is missing where y was taken out; a red one is not missed. */
    method Rebalance(y: Node, x: Node, ghost p: Path, ghost t: Tree, ghost h: nat, ghost s: seq<IntervalValue>)
      returns (ghost tree: Tree)
      requires Represents(Mem(), sentinel, root, p, t) && x == Ref(sentinel, t) && x.parent == ParentRef(sentinel, p)
      requires PathRb(p, h) && MaxOk(t) && PathMaxOk(p, MaxOf(t)) && LeftOf(p) + Inorder(t) + RightOf(p) == s
      requires y != sentinel && (y.c.Red? ==> Rb(t, h) && !IsRed(t))
      requires y.c.Black? ==> h > 0 && if IsRed(t) then Rb(Tint(t, Black), h) else Rb(t, h - 1)
      modifies this`root, nodes
      ensures Represents(Mem(), sentinel, root, Top, tree)
      ensures RbRoot(tree) && MaxOk(tree) && Inorder(tree) == s
    {
      if ColorOf(y) == Black {
        tree := DeleteFixup(x, p, t, h, s);
      } else {
        tree := Zip(p, t);
        ZipRepresents(Mem(), sentinel, root, p, t);
        ZipRb(p, t, h);
        ZipMaxOk(p, t);
        ZipInorder(p, t);
      }
    }

    /** z has at most one child and is unlinked itself. */
    method DeleteSelf(z: Node, ghost p: Path, ghost t: Tree) returns (ghost tree: Tree)
      requires Represents(Mem(), sentinel, root, p, t) && OneChild(t) && z == t.node
      requires RbRoot(Zip(p, t)) && MaxOk(Zip(p, t))
      modifies this`root, nodes
      ensures Represents(Mem(), sentinel, root, Top, tree) && RbRoot(tree) && MaxOk(tree)
      ensures Inorder(tree) == (LeftOf(p) + Inorder(t.l)) + (Inorder(t.r) + RightOf(p))
    {
      ghost var h := UnzipRb(p, t);
      UnzipMaxOk(p, t);
      UnlinkShortage(p, t, h);
      UnlinkContents(p, t);
      var x := Unlink(z, p, t);
      assert Mem()[z].c == z.c;
      ghost var s := (LeftOf(p) + Inorder(t.l)) + (Inorder(t.r) + RightOf(p));
      tree := Rebalance(z, x, UpMax(p, MaxOf(Child(t))), Child(t), h, s);
    }

    /** z has two children: its successor is unlinked and z takes over the successor's interval. */
    method DeleteSuccessor(z: Node, ghost p: Path, ghost t: Tree) returns (ghost tree: Tree)
      requires Represents(Mem(), sentinel, root, p, t) && t.Br? && t.l.Br? && t.r.Br? && z == t.node
      requires RbRoot(Zip(p, t)) && MaxOk(Zip(p, t))
      modifies this`root, nodes
      ensures Represents(Mem(), sentinel, root, Top, tree) && RbRoot(tree) && MaxOk(tree)
      ensures Inorder(tree) == (LeftOf(p) + Inorder(t.l)) + (Inorder(t.r) + RightOf(p))
    {
      ghost var base := InRight(z, t.iv, t.max, t.c, t.l, p);
      MoveUp(Mem(), sentinel, root, base, t.r);
      assert Plug(base, t.r) == t && Mem()[z].right == z.right;
      ghost var py, ty;
      var y;
      y, py, ty := Min(z.right, base, t.r, z);
      ghost var h := UnzipRb(py, ty);
      UnzipMaxOk(py, ty);
      ghost var a := LeftOf(p) + Inorder(t.l);
      UnlinkShortage(py, ty, h);
      SuccessorPlan(py, ty, h, z, a, t.iv);
      tree := MoveSuccessor(z, y, py, ty, h, a + (Inorder(t.r) + RightOf(p)));
    }

    method MoveSuccessor(z: Node, y: Node, ghost p: Path, ghost t: Tree, ghost h: nat, ghost s: seq<IntervalValue>)
      returns (ghost tree: Tree)
      requires Represents(Mem(), sentinel, root, p, t) && OneChild(t) && y == t.node && Below(p, z)
      requires MaxOk(Child(t)) && (t.c.Red? ==> Rb(Child(t), h) && !IsRed(Child(t)))
      requires t.c.Black? ==> h > 0 && if IsRed(Child(t)) then Rb(Tint(Child(t), Black), h) else Rb(Child(t), h - 1)
      requires var fm := MaxOf(Child(t)); var p1 := UpMax(p, fm);
               && Below(p1, z)
               && var p2 := Patched(p1, z, t.iv, fm);
                  PathRb(p2, h) && PathMaxOk(p2, fm) && LeftOf(p2) + Inorder(Child(t)) + RightOf(p2) == s
      modifies this`root, nodes
      ensures Represents(Mem(), sentinel, root, Top, tree) && RbRoot(tree) && MaxOk(tree) && Inorder(tree) == s
    {
      ghost var p1 := UpMax(p, MaxOf(Child(t)));
      SuccessorApart(Mem(), sentinel, root, p, t, z);
      assert Mem()[y].iv == t.iv && Mem()[y].c == t.c;
      var x := Unlink(y, p, t);
      assert Mem()[y].iv == y.iv && Mem()[y].c == y.c;
      TakeInterval(z, y, p1, Child(t));
      PatchedNodes(p1, z, t.iv, MaxOf(Child(t)));
      tree := Rebalance(y, x, Patched(p1, z, t.iv, MaxOf(Child(t))), Child(t), h, s);
    }

    /** Delete takes out the first element in order with exactly this interval, and says whether there was one. */
    method Delete(ivl: Interval) returns (removed: bool)
      requires Valid()
      modifies this, nodes
      ensures Valid() && nodes == old(nodes)
      ensures removed <==> NonEmpty(ivl) && Stored(old(Items()), ivl)
      ensures Items() == if removed then Removed(old(Items()), ivl) else old(Items())
    {
      ghost var k;
      var z;
      z, k := FindNode(ivl);
      if z == sentinel {
        return false;
      }
      TakenOut(Items(), k, ivl);
      ghost var tree' := DeleteAt(z, k);
      tree := tree';
      count := count - 1;
      removed := true;
    }

    /** Take out the k-th node in order. */
    method DeleteAt(z: Node, ghost k: nat) returns (ghost tree': Tree)
      requires Represents(Mem(), sentinel, root, Top, tree) && RbRoot(tree) && MaxOk(tree)
      requires k < |NodesOf(tree)| == |Inorder(tree)| && z == NodesOf(tree)[k].node
      modifies this`root, nodes
      ensures Represents(Mem(), sentinel, root, Top, tree') && RbRoot(tree') && MaxOk(tree')
      ensures Inorder(tree') == Inorder(tree)[..k] + Inorder(tree)[k + 1..]
    {
      ghost var p, t := Locate(tree, Top, k);
      tree' := DeleteNode(z, p, t);
    }

    /** Unlink z, or its successor when z has two children. */
    method DeleteNode(z: Node, ghost p: Path, ghost t: Tree) returns (ghost tree': Tree)
      requires Represents(Mem(), sentinel, root, Top, tree) && t.Br? && z == t.node && Zip(p, t) == tree
      requires RbRoot(tree) && MaxOk(tree)
      modifies this`root, nodes
      ensures Represents(Mem(), sentinel, root, Top, tree') && RbRoot(tree') && MaxOk(tree')
      ensures Inorder(tree') == (LeftOf(p) + Inorder(t.l)) + (Inorder(t.r) + RightOf(p))
    {
      ZipRepresents(Mem(), sentinel, root, p, t);
      assert Mem()[z].left == z.left && Mem()[z].right == z.right;
      assert Links(Mem(), sentinel, t.l, z) && Links(Mem(), sentinel, t.r, z);
      if z.left != sentinel && z.right != sentinel {
        tree' := DeleteSuccessor(z, p, t);
      } else {
        tree' := DeleteSelf(z, p, t);
      }
    }

    // ---------- Queries ----------

    /** visit: call back on each node the search meets, in order, until the callback says stop. */
    method VisitNode<S>(x: Node, ghost t: Tree, ghost parent: Node, q: Interval, f: (S, Hit) -> (S, bool), s: S)
      returns (s': S, more: bool)
      requires Links(Mem(), sentinel, t, parent) && x == Ref(sentinel, t)
      ensures (s', more) == Fold(f, s, Hits(t, q))
      decreases t
    {
      if x == sentinel {
        return s, true;
      }
      assert Mem()[x].left == x.left && Mem()[x].right == x.right && Mem()[x].iv == x.iv && Mem()[x].max == x.max;
      var v := Compare(q, x.iv.ivl);
      if v < 0 {
        s', more := VisitNode(x.left, t.l, x, q, f, s);
      } else if v > 0 {
        s', more := s, true;
        if Compare(Interval(x.iv.ivl.begin, x.max), q) == 0 {
          FoldAppend(f, s, Hits(t.l, q), Hits(t.r, q));
          s', more := VisitNode(x.left, t.l, x, q, f, s);
          if more {
            s', more := VisitNode(x.right, t.r, x, q, f, s');
          }
        }
      } else {
        ghost var mid := [Hit(t.node, t.iv)];
        FoldAppend(f, s, Hits(t.l, q) + mid, Hits(t.r, q));
        FoldAppend(f, s, Hits(t.l, q), mid);
        s', more := VisitNode(x.left, t.l, x, q, f, s);
        if more {
          var r := f(s', Hit(x, x.iv));
          assert Fold(f, s', mid) == r;
          s', more := r.0, r.1;
          if more {
            s', more := VisitNode(x.right, t.r, x, q, f, s');
          }
        }
      }
    }

    /** find: the first node in order with exactly this interval, or the sentinel; k is its place. */
    method FindNode(ivl: Interval) returns (z: Node, ghost k: nat)
      requires Valid()
      ensures k <= |Items()| && |NodesOf(tree)| == |Items()|
      ensures z == if k < |Items()| then NodesOf(tree)[k].node else sentinel
      ensures z == sentinel <==> k == |Items()|
      ensures k < |Items()| ==> NonEmpty(ivl) && Items()[k].ivl == ivl
      ensures NonEmpty(ivl) ==> forall j | 0 <= j < k :: Items()[j].ivl != ivl
      ensures k < |Items()| <==> NonEmpty(ivl) && Stored(Items(), ivl)
    {
      var more;
      z, more := VisitNode(root, tree, sentinel, ivl, FindStep(ivl), sentinel);
      k := FindExact(tree, ivl, sentinel);
      if k < |Items()| {
        NodesInTree(Mem(), sentinel, tree, sentinel, k);
      }
    }

    /** Find: the stored value of the first element with exactly this interval. */
    method Find(ivl: Interval) returns (r: Option<IntervalValue>)
      requires Valid()
      ensures r == if NonEmpty(ivl) then FirstEqual(Items(), ivl) else None
    {
      ghost var k;
      var z;
      z, k := FindNode(ivl);
      if NonEmpty(ivl) {
        FirstEqualAt(Items(), ivl, k);
      }
      if z == sentinel {
        return None;
      }
      NodesInTree(Mem(), sentinel, tree, sentinel, k);
      assert Mem()[z].iv == z.iv;
      return Some(z.iv);
    }

    /** Intersects: one path down decides whether anything overlaps. */
    method Intersects(q: Interval) returns (yes: bool)
      requires Valid()
      ensures yes <==> Meets(Items(), q)
      ensures NonEmpty(q) && AllNonEmpty(Items()) ==> (yes <==> exists iv :: iv in Items() && Overlap(q, iv.ivl))
    {
      var x := root;
      ghost var t, parent: Node := tree, sentinel;
      while x != sentinel && Compare(q, x.iv.ivl) != 0
        invariant Links(Mem(), sentinel, t, parent) && x == Ref(sentinel, t)
        invariant Sorted(Inorder(t)) && MaxOk(t) && (Meets(Inorder(t), q) <==> Meets(Items(), q))
        decreases t
      {
        assert Mem()[x].left == x.left && Mem()[x].right == x.right && Mem()[x].iv == x.iv;
        assert Links(Mem(), sentinel, t.l, x) && (t.l.Br? ==> Mem()[x.left].max == x.left.max);
        OnePathIsEnough(t, q);
        TreeSplits(t);
        parent, t := x, NextTree(t, q);
        if x.left != sentinel && ComparePoints(x.left.max, q.begin) > 0 {
          x := x.left;
        } else {
          x := x.right;
        }
      }
      if x != sentinel {
        assert Mem()[x].iv == x.iv && t.iv in Inorder(t);
      }
      yes := x != sentinel;
      if NonEmpty(q) && AllNonEmpty(Items()) {
        MeetsIsOverlap(Items(), q);
      }
    }

    /** Contains: every point of the query lies in some stored interval; a query without points needs its begin to. */
    method Contains(q: Interval) returns (yes: bool)
      requires Valid()
      ensures NonEmpty(q) ==> (yes <==> Covered(Items(), q))
      ensures NothingHidden(tree, q) ==> (yes <==> At(Items(), q.begin) && Covered(Items(), q))
    {
      var s, more := VisitNode(root, tree, sentinel, q, CoverStep(), Cover(None, 0, true));
      FoldIsScan(Cover(None, 0, true), Hits(tree, q));
      HitsOverlap(tree, q);
      ContainsExact(Items(), q);
      if NonEmpty(q) {
        ClearHidesNothing(tree, q);
        assert Has(q, q.begin);
      }
      yes := Verdict(s, q);
    }

    /** Stab: all elements that overlap the query, in order. */
    method Stab(q: Interval) returns (ivs: seq<IntervalValue>)
      requires Valid()
      ensures ivs == Ivs(Hits(tree, q)) && (ivs == Overlapping(Items(), q) <==> NothingHidden(tree, q))
      ensures NonEmpty(q) ==> NothingHidden(tree, q)
      ensures NothingHidden(tree, q) ==> Sorted(ivs)
      ensures NonEmpty(q) && AllNonEmpty(Items()) ==>
                forall iv :: multiset(ivs)[iv] == if Overlap(q, iv.ivl) then multiset(Items())[iv] else 0
      ensures forall iv | iv in ivs :: iv in Items() && Compare(q, iv.ivl) == 0
    {
      OverlappingSorted(Items(), q);
      HitsOverlap(tree, q);
      if NonEmpty(q) {
        ClearHidesNothing(tree, q);
        if AllNonEmpty(Items()) {
          OverlappingExact(Items(), q);
        }
      }
      if count == 0 {
        return [];
      }
      var more;
      ivs, more := VisitNode(root, tree, sentinel, q, Collect(), []);
      CollectAll([], Hits(tree, q));
      HitsStored(tree, q);
    }

    method HeightOf(x: Node, ghost t: Tree, ghost parent: Node) returns (h: nat)
      requires Links(Mem(), sentinel, t, parent) && x == Ref(sentinel, t)
      ensures h == RbTree.Height(t)
      decreases t
    {
      if x == sentinel {
        return 0;
      }
      assert Mem()[x].left == x.left && Mem()[x].right == x.right;
      var ld := HeightOf(x.left, t.l, x);
      var rd := HeightOf(x.right, t.r, x);
      h := if ld < rd then rd + 1 else ld + 1;
    }

    /** Height: the number of levels, at most twice the logarithm of Len plus one. */
    method Height() returns (h: nat)
      requires Valid()
      ensures forall p, t | Zip(p, t) == tree && t.Br? :: Length(p) < h
      ensures if count == 0 then h == 0 else exists p, t :: Zip(p, t) == tree && t.Br? && Length(p) + 1 == h
      ensures h == RbTree.Height(tree) && Pow2(h) <= (count + 1) * (count + 1)
    {
      h := HeightOf(root, tree, sentinel);
      HeightBound(tree);
      SizeIsLength(tree);
      forall p, t | Zip(p, t) == tree && t.Br? ensures Length(p) < h {
        NoNodeIsDeeper(p, t);
      }
      if tree.Br? {
        ghost var p, t := SomeNodeIsDeepest(Top, tree);
        assert Zip(p, t) == tree;
      }
    }
  }

  lemma AppendLast(s: seq<IntervalValue>, iv: IntervalValue)
    requires forall e | e in s :: e.ivl.begin <= iv.ivl.begin
    ensures Inserted(s, iv) == s + [iv]
  {
    InsertedBetween(s, [], iv);
    assert s + [] == s && s + [iv] + [] == s + [iv];
  }

  lemma MiddleHides(t: Tree, x: IntervalValue, y: IntervalValue)
    requires RbRoot(t) && Inorder(t) == [x, IntervalValue(Interval(5, 5), 0), y]
    ensures Hits(t, Interval(5, 5)) == []
  {
    MiddleIsRoot(t);
  }

  method InsertThree() returns (t: IntervalTree)
    ensures t.Valid()
    ensures t.Items() == [IntervalValue(Interval(3, 9), 0), IntervalValue(Interval(5, 5), 0), IntervalValue(Interval(7, 8), 0)]
  {
    ghost var x, b, y := IntervalValue(Interval(3, 9), 0), IntervalValue(Interval(5, 5), 0), IntervalValue(Interval(7, 8), 0);
    t := new IntervalTree();
    t.Insert(Interval(3, 9), 0);
    AppendLast([], x);
    t.Insert(Interval(5, 5), 0);
    AppendLast([x], b);
    t.Insert(Interval(7, 8), 0);
    AppendLast([x, b], y);
  }

  /**
   Three insertions after which an empty query misses an interval that it touches: the empty interval in the middle
   is at the root of every red-black tree of the three.
   */
  method EmptyQueryMisses() returns (t: IntervalTree, ivs: seq<IntervalValue>)
    ensures t.Valid() && ivs == []
    ensures Overlapping(t.Items(), Interval(5, 5)) == [IntervalValue(Interval(3, 9), 0)]
  {
    t := InsertThree();
    ghost var s := t.Items();
    MiddleHides(t.tree, s[0], s[2]);
    OverlapsOfThree(s[0], s[1], s[2]);
    ivs := t.Stab(Interval(5, 5));
  }

  lemma OverlapsOfThree(x: IntervalValue, b: IntervalValue, y: IntervalValue)
    requires x.ivl == Interval(3, 9) && b.ivl == Interval(5, 5) && y.ivl == Interval(7, 8)
    ensures Overlapping([x, b, y], Interval(5, 5)) == [x]
  {
    assert [x, b, y][1..] == [b, y] && [b, y][1..] == [y] && [y][1..] == [];
    assert Overlapping([y], Interval(5, 5)) == [];
    assert Overlapping([b, y], Interval(5, 5)) == [];
  }
}
