/**
 How linked nodes represent a tree. A memory maps each node to its fields; the representation is a
 relation between a memory and a subtree at a path, and the pointer surgery of the tree operations
 is followed through it, step by step, on memories as values.
 */
module RbMemory {
  import opened Bytes
  import opened Interval
  import opened Nodes
  import opened RbTree

  datatype Rec = Rec(iv: IntervalValue, max: Point, left: Node?, right: Node?, parent: Node?, c: Color)

  type Mem = map<Node, Rec>

  /** The reference to a subtree; the shared sentinel stands for every empty one. */
  function Ref(nil: Node, t: Tree): Node {
    if t.Nil? then nil else t.node
  }

  function ParentRef(nil: Node, p: Path): Node {
    if p.Top? then nil else p.node
  }

  function TreeNodes(t: Tree): set<Node> {
    if t.Nil? then {} else TreeNodes(t.l) + {t.node} + TreeNodes(t.r)
  }

  /** The nodes on the way up. */
  function Spine(p: Path): set<Node> {
    if p.Top? then {} else {p.node} + Spine(p.up)
  }

  function PathNodes(p: Path): set<Node> {
    if p.Top? then {} else {p.node} + TreeNodes(p.sib) + PathNodes(p.up)
  }

  predicate Distinct(t: Tree) {
    t.Br? ==>
      && t.node !in TreeNodes(t.l) && t.node !in TreeNodes(t.r) && TreeNodes(t.l) !! TreeNodes(t.r)
      && Distinct(t.l) && Distinct(t.r)
  }

  predicate PathDistinct(p: Path) {
    !p.Top? ==>
      && p.node !in TreeNodes(p.sib) && Distinct(p.sib)
      && p.node !in PathNodes(p.up) && TreeNodes(p.sib) !! PathNodes(p.up)
      && PathDistinct(p.up)
  }

  /** The memory holds the subtree, linked below the given parent. */
  predicate Links(m: Mem, nil: Node, t: Tree, parent: Node) {
    t.Br? ==>
      && t.node in m && t.node != nil
      && m[t.node] == Rec(t.iv, t.max, Ref(nil, t.l), Ref(nil, t.r), parent, t.c)
      && Links(m, nil, t.l, t.node) && Links(m, nil, t.r, t.node)
  }

  predicate PathLinks(m: Mem, nil: Node, root: Node, p: Path, focus: Node) {
    match p
    case Top => root == focus
    case InLeft(node, iv, max, c, sib, up) =>
      && node in m && node != nil
      && m[node] == Rec(iv, max, focus, Ref(nil, sib), ParentRef(nil, up), c)
      && Links(m, nil, sib, node) && PathLinks(m, nil, root, up, node)
    case InRight(node, iv, max, c, sib, up) =>
      && node in m && node != nil
      && m[node] == Rec(iv, max, Ref(nil, sib), focus, ParentRef(nil, up), c)
      && Links(m, nil, sib, node) && PathLinks(m, nil, root, up, node)
  }

  /** The linked nodes represent the tree Zip(p, t), seen from the subtree t. */
  predicate Represents(m: Mem, nil: Node, root: Node, p: Path, t: Tree) {
    && nil in m
    && Links(m, nil, t, ParentRef(nil, p)) && PathLinks(m, nil, root, p, Ref(nil, t))
    && Distinct(t) && PathDistinct(p) && TreeNodes(t) !! PathNodes(p)
  }

  // ---------- Framing ----------

  lemma {:induction false} LinksInMem(m: Mem, nil: Node, t: Tree, parent: Node)
    requires Links(m, nil, t, parent)
    ensures TreeNodes(t) <= m.Keys && nil !in TreeNodes(t)
  {
    if t.Br? {
      LinksInMem(m, nil, t.l, t.node);
      LinksInMem(m, nil, t.r, t.node);
    }
  }

  lemma {:induction false} PathInMem(m: Mem, nil: Node, root: Node, p: Path, focus: Node)
    requires PathLinks(m, nil, root, p, focus)
    ensures PathNodes(p) <= m.Keys && nil !in PathNodes(p) && Spine(p) <= PathNodes(p)
    decreases p
  {
    if !p.Top? {
      LinksInMem(m, nil, p.sib, p.node);
      PathInMem(m, nil, root, p.up, p.node);
    }
  }

  lemma {:induction false} LinksFrame(m: Mem, m': Mem, nil: Node, t: Tree, parent: Node)
    requires Links(m, nil, t, parent)
    requires forall n | n in TreeNodes(t) && n in m :: n in m' && m'[n] == m[n]
    ensures Links(m', nil, t, parent)
  {
    if t.Br? {
      LinksFrame(m, m', nil, t.l, t.node);
      LinksFrame(m, m', nil, t.r, t.node);
    }
  }

  lemma {:induction false} PathFrame(m: Mem, m': Mem, nil: Node, root: Node, p: Path, focus: Node)
    requires PathLinks(m, nil, root, p, focus)
    requires forall n | n in PathNodes(p) && n in m :: n in m' && m'[n] == m[n]
    ensures PathLinks(m', nil, root, p, focus)
    decreases p
  {
    if !p.Top? {
      LinksFrame(m, m', nil, p.sib, p.node);
      PathFrame(m, m', nil, root, p.up, p.node);
    }
  }

  /** Moving a subtree below another parent changes one field of one node. */
  lemma Reparent(m: Mem, nil: Node, t: Tree, parent: Node, parent': Node, m': Mem)
    requires Links(m, nil, t, parent) && Distinct(t)
    requires t.Br? ==> t.node in m' && m'[t.node] == m[t.node].(parent := parent')
    requires forall n | n in TreeNodes(t) && n in m && n != Ref(nil, t) :: n in m' && m'[n] == m[n]
    ensures Links(m', nil, t, parent')
  {
    if t.Br? {
      LinksFrame(m, m', nil, t.l, t.node);
      LinksFrame(m, m', nil, t.r, t.node);
    }
  }

  /** The path above a node whose place is taken by another: one child field of its first node changes. */
  lemma Refocus(m: Mem, nil: Node, root: Node, p: Path, focus: Node, focus': Node, m': Mem)
    requires PathLinks(m, nil, root, p, focus) && PathDistinct(p) && !p.Top?
    requires p.node in m' && m'[p.node] == if p.InLeft? then m[p.node].(left := focus') else m[p.node].(right := focus')
    requires forall n | n in PathNodes(p) && n in m && n != p.node :: n in m' && m'[n] == m[n]
    ensures PathLinks(m', nil, root, p, focus')
  {
    LinksFrame(m, m', nil, p.sib, p.node);
    PathFrame(m, m', nil, root, p.up, p.node);
  }

  // ---------- Moving along the path ----------

  lemma MoveUp(m: Mem, nil: Node, root: Node, p: Path, t: Tree)
    requires !p.Top?
    ensures Represents(m, nil, root, p, t) <==> Represents(m, nil, root, p.up, Plug(p, t))
  {
  }

  lemma {:induction false} ZipRepresents(m: Mem, nil: Node, root: Node, p: Path, t: Tree)
    ensures Represents(m, nil, root, p, t) <==> Represents(m, nil, root, Top, Zip(p, t))
    decreases p
  {
    if !p.Top? {
      MoveUp(m, nil, root, p, t);
      ZipRepresents(m, nil, root, p.up, Plug(p, t));
    }
  }

  // ---------- updateMax ----------

  /** The writes of updateMax, from the first node of the path upwards. */
  function MaxWrites(m: Mem, p: Path, fm: Option<Point>): Mem
    requires Spine(p) <= m.Keys
    decreases p
  {
    if p.Top? || p.max == FrameMax(p, fm) then m
    else
      var fixed := FrameMax(p, fm);
      MaxWrites(m[p.node := m[p.node].(max := fixed)], p.up, Some(fixed))
  }

  lemma {:induction false} MaxWritesFrame(m: Mem, p: Path, fm: Option<Point>)
    requires Spine(p) <= m.Keys
    ensures MaxWrites(m, p, fm).Keys == m.Keys
    ensures forall n | n in m && n !in Spine(p) :: MaxWrites(m, p, fm)[n] == m[n]
    decreases p
  {
    if !p.Top? && p.max != FrameMax(p, fm) {
      var fixed := FrameMax(p, fm);
      MaxWritesFrame(m[p.node := m[p.node].(max := fixed)], p.up, Some(fixed));
    }
  }

  lemma {:induction false} UpMaxNodes(p: Path, fm: Option<Point>)
    ensures PathNodes(UpMax(p, fm)) == PathNodes(p) && Spine(UpMax(p, fm)) == Spine(p)
    ensures PathDistinct(p) ==> PathDistinct(UpMax(p, fm))
    decreases p
  {
    if !p.Top? && p.max != FrameMax(p, fm) {
      UpMaxNodes(p.up, Some(FrameMax(p, fm)));
    }
  }

  lemma SpineInPath(p: Path)
    ensures Spine(p) <= PathNodes(p)
  {
  }

  lemma {:induction false} MaxWritesLink(m: Mem, nil: Node, root: Node, p: Path, focus: Node, fm: Option<Point>)
    requires PathLinks(m, nil, root, p, focus) && PathDistinct(p) && Spine(p) <= m.Keys
    ensures PathLinks(MaxWrites(m, p, fm), nil, root, UpMax(p, fm), focus)
    decreases p
  {
    if !p.Top? && p.max != FrameMax(p, fm) {
      var fixed := FrameMax(p, fm);
      var m1 := m[p.node := m[p.node].(max := fixed)];
      PathFrame(m, m1, nil, root, p.up, p.node);
      MaxWritesLink(m1, nil, root, p.up, p.node, Some(fixed));
      MaxWritesFrame(m1, p.up, Some(fixed));
      SpineInPath(p.up);
      var m2 := MaxWrites(m, p, fm);
      LinksFrame(m, m2, nil, p.sib, p.node);
      assert m2[p.node] == m1[p.node];
      assert ParentRef(nil, UpMax(p.up, Some(fixed))) == ParentRef(nil, p.up);
    }
  }

  /** updateMax is about to look at the first node of p, whose focus child has maximum fm. */
  predicate AtPath(m: Mem, nil: Node, root: Node, p: Path, focus: Node, fm: Option<Point>) {
    && nil in m && focus in m && Spine(p) <= m.Keys
    && PathLinks(m, nil, root, p, focus) && PathDistinct(p) && focus !in Spine(p)
    && fm == if focus == nil then None else Some(m[focus].max)
  }

  lemma MaxStep(m: Mem, nil: Node, root: Node, p: Path, focus: Node, fm: Option<Point>)
    requires AtPath(m, nil, root, p, focus, fm) && !p.Top? && p.max != FrameMax(p, fm)
    ensures var fixed := FrameMax(p, fm); var m' := m[p.node := m[p.node].(max := fixed)];
            && AtPath(m', nil, root, p.up, p.node, Some(fixed))
            && MaxWrites(m, p, fm) == MaxWrites(m', p.up, Some(fixed))
  {
    var fixed := FrameMax(p, fm);
    var m' := m[p.node := m[p.node].(max := fixed)];
    SpineInPath(p.up);
    PathFrame(m, m', nil, root, p.up, p.node);
  }

  // ---------- Field updates ----------

  function SetMax(m: Mem, x: Node, v: Point): Mem
    requires x in m
  {
    m[x := m[x].(max := v)]
  }

  function SetLeft(m: Mem, x: Node, v: Node?): Mem
    requires x in m
  {
    m[x := m[x].(left := v)]
  }

  function SetRight(m: Mem, x: Node, v: Node?): Mem
    requires x in m
  {
    m[x := m[x].(right := v)]
  }

  function SetParent(m: Mem, x: Node, v: Node?): Mem
    requires x in m
  {
    m[x := m[x].(parent := v)]
  }

  function SetColor(m: Mem, x: Node, c: Color): Mem
    requires x in m
  {
    m[x := m[x].(c := c)]
  }

  // ---------- replaceParent ----------

  /** Link y where x hangs, repair the maxima above, and hang x below y. */
  function ReplaceParent(m: Mem, p: Path, x: Node, y: Node): Mem
    requires x in m && y in m && Spine(p) <= m.Keys
  {
    var m1 := SetParent(m, y, m[x].parent);
    var m2 := if p.Top? then m1 else if p.InLeft? then SetLeft(m1, p.node, y) else SetRight(m1, p.node, y);
    MaxWritesFrame(m2, p, Some(m[y].max));
    SetParent(MaxWrites(m2, p, Some(m[y].max)), x, y)
  }

  /** The child field of x's parent now refers to y. */
  function Relinked(m: Mem, p: Path, x: Node, y: Node): Mem
    requires x in m && y in m && Spine(p) <= m.Keys
  {
    var m1 := SetParent(m, y, m[x].parent);
    if p.Top? then m1 else if p.InLeft? then SetLeft(m1, p.node, y) else SetRight(m1, p.node, y)
  }

  lemma RelinkedAt(m: Mem, nil: Node, root: Node, p: Path, x: Node, y: Node)
    requires PathLinks(m, nil, root, p, x) && PathDistinct(p) && nil in m && x in m && y in m && x != y && y != nil
    requires x !in PathNodes(p) && y !in PathNodes(p)
    ensures Spine(p) <= m.Keys
    ensures AtPath(Relinked(m, p, x, y), nil, if p.Top? then y else root, p, y, Some(m[y].max))
  {
    PathInMem(m, nil, root, p, x);
    SpineInPath(p);
    if !p.Top? {
      Refocus(m, nil, root, p, x, y, Relinked(m, p, x, y));
    }
  }

  lemma RelinkedLinks(m: Mem, nil: Node, root: Node, p: Path, x: Node, y: Node)
    requires PathLinks(m, nil, root, p, x) && PathDistinct(p) && x in m && y in m && x != y
    requires x !in PathNodes(p) && y !in PathNodes(p) && Spine(p) <= m.Keys
    ensures var m' := Relinked(m, p, x, y);
            && m'.Keys == m.Keys && PathLinks(m', nil, if p.Top? then y else root, p, y)
            && m'[x] == m[x] && m'[y] == m[y].(parent := m[x].parent)
            && forall n | n in m && n != y && n !in Spine(p) :: m'[n] == m[n]
  {
    SpineInPath(p);
    if !p.Top? {
      Refocus(m, nil, root, p, x, y, Relinked(m, p, x, y));
    }
  }

  lemma ReplaceParentLinks(m: Mem, nil: Node, root: Node, p: Path, x: Node, y: Node)
    requires PathLinks(m, nil, root, p, x) && PathDistinct(p) && x in m && y in m && x != y
    requires x !in PathNodes(p) && y !in PathNodes(p) && Spine(p) <= m.Keys
    ensures var m' := ReplaceParent(m, p, x, y);
            && m'.Keys == m.Keys
            && PathLinks(m', nil, if p.Top? then y else root, UpMax(p, Some(m[y].max)), y)
            && m'[x] == m[x].(parent := y) && m'[y] == m[y].(parent := m[x].parent)
            && forall n | n in m && n != x && n != y && n !in Spine(p) :: m'[n] == m[n]
  {
    var m2, fm := Relinked(m, p, x, y), Some(m[y].max);
    var root' := if p.Top? then y else root;
    RelinkedLinks(m, nil, root, p, x, y);
    SpineInPath(p);
    MaxWritesLink(m2, nil, root', p, y, fm);
    MaxWritesFrame(m2, p, fm);
    var m3 := MaxWrites(m2, p, fm);
    UpMaxNodes(p, fm);
    PathFrame(m3, SetParent(m3, x, y), nil, root', UpMax(p, fm), y);
  }

  // ---------- rotateLeft ----------

  /** x.right = y.left, with the moved subtree's parent corrected. */
  function CutLeft(m: Mem, nil: Node, t: Tree): Mem
    requires HasRight(t) && t.node in m && (t.r.l.Br? ==> t.r.l.node in m)
  {
    var m1 := SetRight(m, t.node, Ref(nil, t.r.l));
    if t.r.l.Nil? then m1 else SetParent(m1, t.r.l.node, t.node)
  }

  /** The path of x's left subtree once y.left has become its right subtree. */
  function CutLeftPath(p: Path, t: Tree): Path
    requires HasRight(t)
  {
    InLeft(t.node, t.iv, t.max, t.c, t.r.l, p)
  }

  /** The three subtrees of a left rotation, in place below their final parents, and the two nodes apart. */
  predicate LeftParts(m: Mem, nil: Node, t: Tree, parent: Node, max: Point, maxY: Point, parentY: Node)
    requires HasRight(t)
  {
    && t.node in m && t.r.node in m && nil in m && t.node != nil && t.r.node != nil
    && m[t.node] == Rec(t.iv, max, Ref(nil, t.l), Ref(nil, t.r.l), parent, t.c)
    && m[t.r.node] == Rec(t.r.iv, maxY, Ref(nil, t.r.l), Ref(nil, t.r.r), parentY, t.r.c)
    && Links(m, nil, t.l, t.node) && Links(m, nil, t.r.l, t.node) && Links(m, nil, t.r.r, t.r.node)
  }

  lemma CutLeftKeepsPath(m: Mem, nil: Node, root: Node, p: Path, t: Tree)
    requires Represents(m, nil, root, p, t) && HasRight(t)
    ensures t.r.l.Br? ==> t.r.l.node in m
    ensures PathLinks(CutLeft(m, nil, t), nil, root, p, t.node)
  {
    assert Links(m, nil, t.r, t.node) && Links(m, nil, t.r.l, t.r.node);
    assert t.r.l.Br? ==> t.r.l.node in TreeNodes(t.r.l);
    assert TreeNodes(t.r) == TreeNodes(t.r.l) + {t.r.node} + TreeNodes(t.r.r);
    PathFrame(m, CutLeft(m, nil, t), nil, root, p, t.node);
  }

  lemma CutLeftKeepsParts(m: Mem, nil: Node, t: Tree, parent: Node)
    requires nil in m && Links(m, nil, t, parent) && Distinct(t) && HasRight(t)
    ensures t.r.l.Br? ==> t.r.l.node in m
    ensures var m' := CutLeft(m, nil, t);
            m'.Keys == m.Keys && m'[nil] == m[nil] && LeftParts(m', nil, t, parent, t.max, t.r.max, t.node)
  {
    assert Links(m, nil, t.r, t.node) && Distinct(t.r);
    assert Links(m, nil, t.r.l, t.r.node);
    var m' := CutLeft(m, nil, t);
    LinksInMem(m, nil, t, parent);
    LinksFrame(m, m', nil, t.l, t.node);
    LinksFrame(m, m', nil, t.r.r, t.r.node);
    Reparent(m, nil, t.r.l, t.r.node, t.node, m');
  }

  lemma CutLeftLinks(m: Mem, nil: Node, root: Node, p: Path, t: Tree)
    requires Represents(m, nil, root, p, t) && HasRight(t)
    ensures t.r.l.Br? ==> t.r.l.node in m
    ensures var m' := CutLeft(m, nil, t); var q := CutLeftPath(p, t);
            && m'.Keys == m.Keys && m'[nil] == m[nil]
            && PathLinks(m', nil, root, q, Ref(nil, t.l)) && PathDistinct(q)
            && LeftParts(m', nil, t, ParentRef(nil, p), t.max, t.r.max, t.node)
  {
    CutLeftKeepsPath(m, nil, root, p, t);
    CutLeftKeepsParts(m, nil, t, ParentRef(nil, p));
    assert TreeNodes(t.r) == TreeNodes(t.r.l) + {t.r.node} + TreeNodes(t.r.r) && Distinct(t.r);
  }

  /** No node occurs twice in the subtree and its path. */
  predicate Apart(p: Path, t: Tree) {
    Distinct(t) && PathDistinct(p) && TreeNodes(t) !! PathNodes(p)
  }

  lemma LeftPartsFrame(m: Mem, m': Mem, nil: Node, t: Tree, parent: Node, max: Point, maxY: Point, parentY: Node,
                       parent': Node, max': Point, maxY': Point, parentY': Node)
    requires HasRight(t) && Distinct(t) && LeftParts(m, nil, t, parent, max, maxY, parentY)
    requires t.node in m' && t.r.node in m' && nil in m'
    requires m'[t.node] == m[t.node].(parent := parent', max := max')
    requires m'[t.r.node] == m[t.r.node].(parent := parentY', max := maxY')
    requires forall n | n in TreeNodes(t) && n in m && n != t.node && n != t.r.node :: n in m' && m'[n] == m[n]
    ensures LeftParts(m', nil, t, parent', max', maxY', parentY')
  {
    assert Distinct(t.r);
    assert TreeNodes(t) == TreeNodes(t.l) + {t.node} + TreeNodes(t.r);
    assert TreeNodes(t.r) == TreeNodes(t.r.l) + {t.r.node} + TreeNodes(t.r.r);
    LinksFrame(m, m', nil, t.l, t.node);
    LinksFrame(m, m', nil, t.r.l, t.node);
    LinksFrame(m, m', nil, t.r.r, t.r.node);
  }

  lemma CutLeftAt(m: Mem, nil: Node, root: Node, p: Path, t: Tree)
    requires HasRight(t) && Apart(p, t) && LeftParts(m, nil, t, ParentRef(nil, p), t.max, t.r.max, t.node)
    requires PathLinks(m, nil, root, CutLeftPath(p, t), Ref(nil, t.l)) && PathDistinct(CutLeftPath(p, t))
    ensures AtPath(m, nil, root, CutLeftPath(p, t), Ref(nil, t.l), MaxOf(t.l))
  {
    PathInMem(m, nil, root, CutLeftPath(p, t), Ref(nil, t.l));
    SpineInPath(p);
    LinksInMem(m, nil, t.l, t.node);
  }

  /** x.updateMax once y has been cut off. */
  lemma MaxAfterCutLeft(m: Mem, nil: Node, root: Node, p: Path, t: Tree)
    requires HasRight(t) && Apart(p, t) && PathMaxOk(p, Some(t.max))
    requires LeftParts(m, nil, t, ParentRef(nil, p), t.max, t.r.max, t.node)
    requires PathLinks(m, nil, root, CutLeftPath(p, t), Ref(nil, t.l))
    ensures Spine(CutLeftPath(p, t)) <= m.Keys
    ensures var m' := MaxWrites(m, CutLeftPath(p, t), MaxOf(t.l)); var max := Join(t, t.l, t.r.l).max;
            && m'.Keys == m.Keys && m'[nil] == m[nil]
            && PathLinks(m', nil, root, UpMax(p, Some(max)), t.node)
            && LeftParts(m', nil, t, ParentRef(nil, p), max, t.r.max, t.node)
  {
    var q, max := CutLeftPath(p, t), Join(t, t.l, t.r.l).max;
    PathInMem(m, nil, root, q, Ref(nil, t.l));
    assert t.r.node in TreeNodes(t.r) && Distinct(t.r);
    assert PathDistinct(q);
    var m' := MaxWrites(m, q, MaxOf(t.l));
    MaxWritesFrame(m, q, MaxOf(t.l));
    MaxWritesLink(m, nil, root, q, Ref(nil, t.l), MaxOf(t.l));
    assert FrameMax(q, MaxOf(t.l)) == max;
    if t.max == max {
      UpMaxIdle(p, Some(max));
    }
    assert UpMax(q, MaxOf(t.l)) == InLeft(t.node, t.iv, max, t.c, t.r.l, UpMax(p, Some(max)));
    SpineInPath(p);
    assert m'[t.node] == m[t.node].(max := max);
    LeftPartsFrame(m, m', nil, t, ParentRef(nil, p), t.max, t.r.max, t.node, ParentRef(nil, p), max, t.r.max, t.node);
  }

  /** replaceParent(x, y) in the middle of a left rotation. */
  lemma ReplaceInRotateLeft(m: Mem, nil: Node, root: Node, p: Path, t: Tree)
    requires HasRight(t) && Apart(p, t) && PathMaxOk(p, Some(t.max))
    requires var max := Join(t, t.l, t.r.l).max;
             && LeftParts(m, nil, t, ParentRef(nil, p), max, t.r.max, t.node)
             && PathLinks(m, nil, root, UpMax(p, Some(max)), t.node)
    ensures var max := Join(t, t.l, t.r.l).max; Spine(UpMax(p, Some(max))) <= m.Keys
    ensures var max := Join(t, t.l, t.r.l).max; var m' := ReplaceParent(m, UpMax(p, Some(max)), t.node, t.r.node);
            && m'.Keys == m.Keys && m'[nil] == m[nil]
            && PathLinks(m', nil, if p.Top? then t.r.node else root, UpMax(p, Some(t.r.max)), t.r.node)
            && LeftParts(m', nil, t, t.r.node, max, t.r.max, ParentRef(nil, p))
  {
    var max := Join(t, t.l, t.r.l).max;
    var p1 := UpMax(p, Some(max));
    PathInMem(m, nil, root, p1, t.node);
    UpMaxNodes(p, Some(max));
    assert t.r.node in TreeNodes(t.r) && t.r.node in TreeNodes(t);
    ReplaceParentLinks(m, nil, root, p1, t.node, t.r.node);
    UpMaxTwice(p, Some(t.max), Some(max), Some(t.r.max));
    var m' := ReplaceParent(m, p1, t.node, t.r.node);
    SpineInPath(p);
    assert nil !in TreeNodes(t) by { NilApartLeft(m, nil, t, ParentRef(nil, p), max, t.r.max, t.node); }
    LeftPartsFrame(m, m', nil, t, ParentRef(nil, p), max, t.r.max, t.node, t.r.node, max, t.r.max, ParentRef(nil, p));
  }

  lemma NilApartLeft(m: Mem, nil: Node, t: Tree, parent: Node, max: Point, maxY: Point, parentY: Node)
    requires HasRight(t) && LeftParts(m, nil, t, parent, max, maxY, parentY)
    ensures nil !in TreeNodes(t)
  {
    LinksInMem(m, nil, t.l, t.node);
    LinksInMem(m, nil, t.r.l, t.node);
    LinksInMem(m, nil, t.r.r, t.r.node);
  }

  /** The path of x below y at the end of a left rotation. */
  function LiftLeftPath(p: Path, t: Tree): Path
    requires HasRight(t)
  {
    InLeft(t.r.node, t.r.iv, t.r.max, t.r.c, t.r.r, UpMax(p, Some(t.r.max)))
  }

  /** y.left = x: the path of x is linked below y. */
  lemma LiftLeftAt(m: Mem, nil: Node, root: Node, p: Path, t: Tree, max: Point)
    requires HasRight(t) && Apart(p, t) && LeftParts(m, nil, t, t.r.node, max, t.r.max, ParentRef(nil, p))
    requires PathLinks(m, nil, root, UpMax(p, Some(t.r.max)), t.r.node)
    ensures Spine(LiftLeftPath(p, t)) <= m.Keys && Spine(LiftLeftPath(p, t)) == {t.r.node} + Spine(p)
    ensures AtPath(SetLeft(m, t.r.node, t.node), nil, root, LiftLeftPath(p, t), t.node, Some(max))
  {
    var p2, m1 := UpMax(p, Some(t.r.max)), SetLeft(m, t.r.node, t.node);
    assert Distinct(t.r) && t.r.node in TreeNodes(t.r);
    UpMaxNodes(p, Some(t.r.max));
    SpineInPath(p);
    PathInMem(m, nil, root, p2, t.r.node);
    PathFrame(m, m1, nil, root, p2, t.r.node);
    LinksFrame(m, m1, nil, t.r.r, t.r.node);
  }

  /** The subtrees of x stay where they are while y and the path change. */
  lemma LiftLeftTree(m: Mem, m': Mem, nil: Node, p: Path, t: Tree, max: Point)
    requires HasRight(t) && Apart(p, t) && max == Join(t, t.l, t.r.l).max
    requires LeftParts(m, nil, t, t.r.node, max, t.r.max, ParentRef(nil, p))
    requires m'.Keys == m.Keys && forall n | n in m && n != t.r.node && n !in Spine(p) :: m'[n] == m[n]
    ensures Links(m', nil, Join(t, t.l, t.r.l), t.r.node)
  {
    assert Distinct(t.r) && t.r.node in TreeNodes(t.r);
    SpineInPath(p);
    LinksFrame(m, m', nil, t.l, t.node);
    LinksFrame(m, m', nil, t.r.l, t.node);
  }

  /** y.left = x and y.updateMax: the rotated tree is in place and the path above is as it was. */
  lemma FinishRotateLeft(m: Mem, nil: Node, root: Node, p: Path, t: Tree)
    requires HasRight(t) && Apart(p, t) && MaxOk(t) && PathMaxOk(p, Some(t.max))
    requires var max := Join(t, t.l, t.r.l).max; LeftParts(m, nil, t, t.r.node, max, t.r.max, ParentRef(nil, p))
    requires PathLinks(m, nil, root, UpMax(p, Some(t.r.max)), t.r.node)
    ensures Spine(LiftLeftPath(p, t)) <= m.Keys
    ensures var max := Join(t, t.l, t.r.l).max;
            AtPath(SetLeft(m, t.r.node, t.node), nil, root, LiftLeftPath(p, t), t.node, Some(max))
    ensures var max := Join(t, t.l, t.r.l).max;
            var m' := MaxWrites(SetLeft(m, t.r.node, t.node), LiftLeftPath(p, t), Some(max));
            m'.Keys == m.Keys && m'[nil] == m[nil] && Represents(m', nil, root, p, RotL(t))
  {
    var max, q := Join(t, t.l, t.r.l).max, LiftLeftPath(p, t);
    LiftLeftAt(m, nil, root, p, t, max);
    var m1 := SetLeft(m, t.r.node, t.node);
    MaxWritesFrame(m1, q, Some(max));
    MaxWritesLink(m1, nil, root, q, t.node, Some(max));
    FinishLeftPath(p, t);
    PathInMem(m1, nil, root, q, t.node);
    LiftLeftTree(m, MaxWrites(m1, q, Some(max)), nil, p, t, max);
    RotLApart(p, t);
  }

  /** The last repair of a left rotation gives the path its original maxima back. */
  lemma FinishLeftPath(p: Path, t: Tree)
    requires HasRight(t) && MaxOk(t) && PathMaxOk(p, Some(t.max))
    ensures var max := Join(t, t.l, t.r.l).max;
            UpMax(LiftLeftPath(p, t), Some(max)) == InLeft(t.r.node, t.r.iv, t.max, t.r.c, t.r.r, p)
  {
    var max, q := Join(t, t.l, t.r.l).max, LiftLeftPath(p, t);
    RotLKeeps(t);
    assert FrameMax(q, Some(max)) == t.max;
    UpMaxTwice(p, Some(t.max), Some(t.r.max), Some(t.max));
    UpMaxIdle(p, Some(t.max));
  }

  lemma RotLApart(p: Path, t: Tree)
    requires HasRight(t) && Apart(p, t)
    ensures Apart(p, RotL(t)) && TreeNodes(RotL(t)) == TreeNodes(t)
  {
    var inner := Join(t, t.l, t.r.l);
    assert Distinct(t.r);
    assert TreeNodes(t.r) == TreeNodes(t.r.l) + {t.r.node} + TreeNodes(t.r.r);
    assert TreeNodes(inner) == TreeNodes(t.l) + {t.node} + TreeNodes(t.r.l);
    assert Distinct(inner);
  }

  // ---------- rotateRight ----------

  /** x.left = y.right, with the moved subtree's parent corrected. */
  function CutRight(m: Mem, nil: Node, t: Tree): Mem
    requires HasLeft(t) && t.node in m && (t.l.r.Br? ==> t.l.r.node in m)
  {
    var m1 := SetLeft(m, t.node, Ref(nil, t.l.r));
    if t.l.r.Nil? then m1 else SetParent(m1, t.l.r.node, t.node)
  }

  /** The path of x's right subtree once y.right has become its left subtree. */
  function CutRightPath(p: Path, t: Tree): Path
    requires HasLeft(t)
  {
    InRight(t.node, t.iv, t.max, t.c, t.l.r, p)
  }

  /** The three subtrees of a right rotation, in place below their final parents, and the two nodes apart. */
  predicate RightParts(m: Mem, nil: Node, t: Tree, parent: Node, max: Point, maxY: Point, parentY: Node)
    requires HasLeft(t)
  {
    && t.node in m && t.l.node in m && nil in m && t.node != nil && t.l.node != nil
    && m[t.node] == Rec(t.iv, max, Ref(nil, t.l.r), Ref(nil, t.r), parent, t.c)
    && m[t.l.node] == Rec(t.l.iv, maxY, Ref(nil, t.l.l), Ref(nil, t.l.r), parentY, t.l.c)
    && Links(m, nil, t.r, t.node) && Links(m, nil, t.l.r, t.node) && Links(m, nil, t.l.l, t.l.node)
  }

  lemma CutRightKeepsPath(m: Mem, nil: Node, root: Node, p: Path, t: Tree)
    requires Represents(m, nil, root, p, t) && HasLeft(t)
    ensures t.l.r.Br? ==> t.l.r.node in m
    ensures PathLinks(CutRight(m, nil, t), nil, root, p, t.node)
  {
    assert Links(m, nil, t.l, t.node) && Links(m, nil, t.l.r, t.l.node);
    assert t.l.r.Br? ==> t.l.r.node in TreeNodes(t.l.r);
    assert TreeNodes(t.l) == TreeNodes(t.l.l) + {t.l.node} + TreeNodes(t.l.r);
    PathFrame(m, CutRight(m, nil, t), nil, root, p, t.node);
  }

  lemma CutRightKeepsParts(m: Mem, nil: Node, t: Tree, parent: Node)
    requires nil in m && Links(m, nil, t, parent) && Distinct(t) && HasLeft(t)
    ensures t.l.r.Br? ==> t.l.r.node in m
    ensures var m' := CutRight(m, nil, t);
            m'.Keys == m.Keys && m'[nil] == m[nil] && RightParts(m', nil, t, parent, t.max, t.l.max, t.node)
  {
    assert Links(m, nil, t.l, t.node) && Distinct(t.l);
    assert Links(m, nil, t.l.r, t.l.node);
    var m' := CutRight(m, nil, t);
    LinksInMem(m, nil, t, parent);
    LinksFrame(m, m', nil, t.r, t.node);
    LinksFrame(m, m', nil, t.l.l, t.l.node);
    Reparent(m, nil, t.l.r, t.l.node, t.node, m');
  }

  lemma CutRightLinks(m: Mem, nil: Node, root: Node, p: Path, t: Tree)
    requires Represents(m, nil, root, p, t) && HasLeft(t)
    ensures t.l.r.Br? ==> t.l.r.node in m
    ensures var m' := CutRight(m, nil, t); var q := CutRightPath(p, t);
            && m'.Keys == m.Keys && m'[nil] == m[nil]
            && PathLinks(m', nil, root, q, Ref(nil, t.r)) && PathDistinct(q)
            && RightParts(m', nil, t, ParentRef(nil, p), t.max, t.l.max, t.node)
  {
    CutRightKeepsPath(m, nil, root, p, t);
    CutRightKeepsParts(m, nil, t, ParentRef(nil, p));
    assert TreeNodes(t.l) == TreeNodes(t.l.l) + {t.l.node} + TreeNodes(t.l.r) && Distinct(t.l);
  }

  lemma RightPartsFrame(m: Mem, m': Mem, nil: Node, t: Tree, parent: Node, max: Point, maxY: Point, parentY: Node,
                       parent': Node, max': Point, maxY': Point, parentY': Node)
    requires HasLeft(t) && Distinct(t) && RightParts(m, nil, t, parent, max, maxY, parentY)
    requires t.node in m' && t.l.node in m' && nil in m'
    requires m'[t.node] == m[t.node].(parent := parent', max := max')
    requires m'[t.l.node] == m[t.l.node].(parent := parentY', max := maxY')
    requires forall n | n in TreeNodes(t) && n in m && n != t.node && n != t.l.node :: n in m' && m'[n] == m[n]
    ensures RightParts(m', nil, t, parent', max', maxY', parentY')
  {
    assert Distinct(t.l);
    assert TreeNodes(t) == TreeNodes(t.r) + {t.node} + TreeNodes(t.l);
    assert TreeNodes(t.l) == TreeNodes(t.l.r) + {t.l.node} + TreeNodes(t.l.l);
    LinksFrame(m, m', nil, t.r, t.node);
    LinksFrame(m, m', nil, t.l.r, t.node);
    LinksFrame(m, m', nil, t.l.l, t.l.node);
  }

  lemma CutRightAt(m: Mem, nil: Node, root: Node, p: Path, t: Tree)
    requires HasLeft(t) && Apart(p, t) && RightParts(m, nil, t, ParentRef(nil, p), t.max, t.l.max, t.node)
    requires PathLinks(m, nil, root, CutRightPath(p, t), Ref(nil, t.r)) && PathDistinct(CutRightPath(p, t))
    ensures AtPath(m, nil, root, CutRightPath(p, t), Ref(nil, t.r), MaxOf(t.r))
  {
    PathInMem(m, nil, root, CutRightPath(p, t), Ref(nil, t.r));
    SpineInPath(p);
    LinksInMem(m, nil, t.r, t.node);
  }

  /** x.updateMax once y has been cut off. */
  lemma MaxAfterCutRight(m: Mem, nil: Node, root: Node, p: Path, t: Tree)
    requires HasLeft(t) && Apart(p, t) && PathMaxOk(p, Some(t.max))
    requires RightParts(m, nil, t, ParentRef(nil, p), t.max, t.l.max, t.node)
    requires PathLinks(m, nil, root, CutRightPath(p, t), Ref(nil, t.r))
    ensures Spine(CutRightPath(p, t)) <= m.Keys
    ensures var m' := MaxWrites(m, CutRightPath(p, t), MaxOf(t.r)); var max := Join(t, t.l.r, t.r).max;
            && m'.Keys == m.Keys && m'[nil] == m[nil]
            && PathLinks(m', nil, root, UpMax(p, Some(max)), t.node)
            && RightParts(m', nil, t, ParentRef(nil, p), max, t.l.max, t.node)
  {
    var q, max := CutRightPath(p, t), Join(t, t.l.r, t.r).max;
    PathInMem(m, nil, root, q, Ref(nil, t.r));
    assert t.l.node in TreeNodes(t.l) && Distinct(t.l);
    assert PathDistinct(q);
    var m' := MaxWrites(m, q, MaxOf(t.r));
    MaxWritesFrame(m, q, MaxOf(t.r));
    MaxWritesLink(m, nil, root, q, Ref(nil, t.r), MaxOf(t.r));
    assert FrameMax(q, MaxOf(t.r)) == max;
    if t.max == max {
      UpMaxIdle(p, Some(max));
    }
    assert UpMax(q, MaxOf(t.r)) == InRight(t.node, t.iv, max, t.c, t.l.r, UpMax(p, Some(max)));
    SpineInPath(p);
    assert m'[t.node] == m[t.node].(max := max);
    RightPartsFrame(m, m', nil, t, ParentRef(nil, p), t.max, t.l.max, t.node, ParentRef(nil, p), max, t.l.max, t.node);
  }

  /** replaceParent(x, y) in the middle of a right rotation. */
  lemma ReplaceInRotateRight(m: Mem, nil: Node, root: Node, p: Path, t: Tree)
    requires HasLeft(t) && Apart(p, t) && PathMaxOk(p, Some(t.max))
    requires var max := Join(t, t.l.r, t.r).max;
             && RightParts(m, nil, t, ParentRef(nil, p), max, t.l.max, t.node)
             && PathLinks(m, nil, root, UpMax(p, Some(max)), t.node)
    ensures var max := Join(t, t.l.r, t.r).max; Spine(UpMax(p, Some(max))) <= m.Keys
    ensures var max := Join(t, t.l.r, t.r).max; var m' := ReplaceParent(m, UpMax(p, Some(max)), t.node, t.l.node);
            && m'.Keys == m.Keys && m'[nil] == m[nil]
            && PathLinks(m', nil, if p.Top? then t.l.node else root, UpMax(p, Some(t.l.max)), t.l.node)
            && RightParts(m', nil, t, t.l.node, max, t.l.max, ParentRef(nil, p))
  {
    var max := Join(t, t.l.r, t.r).max;
    var p1 := UpMax(p, Some(max));
    PathInMem(m, nil, root, p1, t.node);
    UpMaxNodes(p, Some(max));
    assert t.l.node in TreeNodes(t.l) && t.l.node in TreeNodes(t);
    ReplaceParentLinks(m, nil, root, p1, t.node, t.l.node);
    UpMaxTwice(p, Some(t.max), Some(max), Some(t.l.max));
    var m' := ReplaceParent(m, p1, t.node, t.l.node);
    SpineInPath(p);
    assert nil !in TreeNodes(t) by { NilApartRight(m, nil, t, ParentRef(nil, p), max, t.l.max, t.node); }
    RightPartsFrame(m, m', nil, t, ParentRef(nil, p), max, t.l.max, t.node, t.l.node, max, t.l.max, ParentRef(nil, p));
  }

  lemma NilApartRight(m: Mem, nil: Node, t: Tree, parent: Node, max: Point, maxY: Point, parentY: Node)
    requires HasLeft(t) && RightParts(m, nil, t, parent, max, maxY, parentY)
    ensures nil !in TreeNodes(t)
  {
    LinksInMem(m, nil, t.r, t.node);
    LinksInMem(m, nil, t.l.r, t.node);
    LinksInMem(m, nil, t.l.l, t.l.node);
  }

  /** The path of x below y at the end of a right rotation. */
  function LiftRightPath(p: Path, t: Tree): Path
    requires HasLeft(t)
  {
    InRight(t.l.node, t.l.iv, t.l.max, t.l.c, t.l.l, UpMax(p, Some(t.l.max)))
  }

  /** y.right = x: the path of x is linked below y. */
  lemma LiftRightAt(m: Mem, nil: Node, root: Node, p: Path, t: Tree, max: Point)
    requires HasLeft(t) && Apart(p, t) && RightParts(m, nil, t, t.l.node, max, t.l.max, ParentRef(nil, p))
    requires PathLinks(m, nil, root, UpMax(p, Some(t.l.max)), t.l.node)
    ensures Spine(LiftRightPath(p, t)) <= m.Keys && Spine(LiftRightPath(p, t)) == {t.l.node} + Spine(p)
    ensures AtPath(SetRight(m, t.l.node, t.node), nil, root, LiftRightPath(p, t), t.node, Some(max))
  {
    var p2, m1 := UpMax(p, Some(t.l.max)), SetRight(m, t.l.node, t.node);
    assert Distinct(t.l) && t.l.node in TreeNodes(t.l);
    UpMaxNodes(p, Some(t.l.max));
    SpineInPath(p);
    PathInMem(m, nil, root, p2, t.l.node);
    PathFrame(m, m1, nil, root, p2, t.l.node);
    LinksFrame(m, m1, nil, t.l.l, t.l.node);
  }

  /** The subtrees of x stay where they are while y and the path change. */
  lemma LiftRightTree(m: Mem, m': Mem, nil: Node, p: Path, t: Tree, max: Point)
    requires HasLeft(t) && Apart(p, t) && max == Join(t, t.l.r, t.r).max
    requires RightParts(m, nil, t, t.l.node, max, t.l.max, ParentRef(nil, p))
    requires m'.Keys == m.Keys && forall n | n in m && n != t.l.node && n !in Spine(p) :: m'[n] == m[n]
    ensures Links(m', nil, Join(t, t.l.r, t.r), t.l.node)
  {
    assert Distinct(t.l) && t.l.node in TreeNodes(t.l);
    SpineInPath(p);
    LinksFrame(m, m', nil, t.r, t.node);
    LinksFrame(m, m', nil, t.l.r, t.node);
  }

  /** y.right = x and y.updateMax: the rotated tree is in place and the path above is as it was. */
  lemma FinishRotateRight(m: Mem, nil: Node, root: Node, p: Path, t: Tree)
    requires HasLeft(t) && Apart(p, t) && MaxOk(t) && PathMaxOk(p, Some(t.max))
    requires var max := Join(t, t.l.r, t.r).max; RightParts(m, nil, t, t.l.node, max, t.l.max, ParentRef(nil, p))
    requires PathLinks(m, nil, root, UpMax(p, Some(t.l.max)), t.l.node)
    ensures Spine(LiftRightPath(p, t)) <= m.Keys
    ensures var max := Join(t, t.l.r, t.r).max;
            AtPath(SetRight(m, t.l.node, t.node), nil, root, LiftRightPath(p, t), t.node, Some(max))
    ensures var max := Join(t, t.l.r, t.r).max;
            var m' := MaxWrites(SetRight(m, t.l.node, t.node), LiftRightPath(p, t), Some(max));
            m'.Keys == m.Keys && m'[nil] == m[nil] && Represents(m', nil, root, p, RotR(t))
  {
    var max, q := Join(t, t.l.r, t.r).max, LiftRightPath(p, t);
    LiftRightAt(m, nil, root, p, t, max);
    var m1 := SetRight(m, t.l.node, t.node);
    MaxWritesFrame(m1, q, Some(max));
    MaxWritesLink(m1, nil, root, q, t.node, Some(max));
    FinishRightPath(p, t);
    PathInMem(m1, nil, root, q, t.node);
    LiftRightTree(m, MaxWrites(m1, q, Some(max)), nil, p, t, max);
    RotRApart(p, t);
  }

  /** The last repair of a right rotation gives the path its original maxima back. */
  lemma FinishRightPath(p: Path, t: Tree)
    requires HasLeft(t) && MaxOk(t) && PathMaxOk(p, Some(t.max))
    ensures var max := Join(t, t.l.r, t.r).max;
            UpMax(LiftRightPath(p, t), Some(max)) == InRight(t.l.node, t.l.iv, t.max, t.l.c, t.l.l, p)
  {
    var max, q := Join(t, t.l.r, t.r).max, LiftRightPath(p, t);
    RotRKeeps(t);
    assert FrameMax(q, Some(max)) == t.max;
    UpMaxTwice(p, Some(t.max), Some(t.l.max), Some(t.max));
    UpMaxIdle(p, Some(t.max));
  }

  lemma RotRApart(p: Path, t: Tree)
    requires HasLeft(t) && Apart(p, t)
    ensures Apart(p, RotR(t)) && TreeNodes(RotR(t)) == TreeNodes(t)
  {
    var inner := Join(t, t.l.r, t.r);
    assert Distinct(t.l);
    assert TreeNodes(t.l) == TreeNodes(t.l.r) + {t.l.node} + TreeNodes(t.l.l);
    assert TreeNodes(inner) == TreeNodes(t.r) + {t.node} + TreeNodes(t.l.r);
    assert Distinct(inner);
  }

  // ---------- Repainting ----------

  lemma {:induction false} PaintNodes(t: Tree, n: Node, c: Color)
    ensures TreeNodes(Paint(t, n, c)) == TreeNodes(t)
    ensures Distinct(t) ==> Distinct(Paint(t, n, c))
    ensures n !in TreeNodes(t) ==> Paint(t, n, c) == t
  {
    if t.Br? {
      PaintNodes(t.l, n, c);
      PaintNodes(t.r, n, c);
    }
  }

  lemma {:induction false} PaintLinks(m: Mem, nil: Node, t: Tree, parent: Node, n: Node, c: Color)
    requires Links(m, nil, t, parent) && n in m
    ensures Links(SetColor(m, n, c), nil, Paint(t, n, c), parent)
  {
    if t.Br? {
      PaintLinks(m, nil, t.l, t.node, n, c);
      PaintLinks(m, nil, t.r, t.node, n, c);
    }
  }

  /** Writing a node's color repaints it in the represented tree. */
  lemma PaintRepresents(m: Mem, nil: Node, root: Node, p: Path, t: Tree, n: Node, c: Color)
    requires Represents(m, nil, root, p, t) && n in TreeNodes(t)
    ensures n in m && Represents(SetColor(m, n, c), nil, root, p, Paint(t, n, c))
  {
    LinksInMem(m, nil, t, ParentRef(nil, p));
    PaintLinks(m, nil, t, ParentRef(nil, p), n, c);
    PathFrame(m, SetColor(m, n, c), nil, root, p, Ref(nil, t));
    PaintNodes(t, n, c);
  }

  /** The nodes of a tree put in place at a path. */
  lemma PlugApart(p: Path, t: Tree)
    requires !p.Top? && Apart(p, t)
    ensures Apart(p.up, Plug(p, t))
    ensures p.node !in TreeNodes(t) && p.node !in TreeNodes(p.sib) && TreeNodes(t) !! TreeNodes(p.sib)
    ensures TreeNodes(Plug(p, t)) == TreeNodes(t) + {p.node} + TreeNodes(p.sib)
  {
  }

  /** The three color writes for a red uncle. */
  lemma PaintRecolored(p: Path, t: Tree)
    requires t.Br? && !p.Top? && !p.up.Top? && p.up.sib.Br? && Apart(p, t)
    ensures var g := p.up;
            Paint(Paint(Paint(Plug(g, Plug(p, t)), g.sib.node, Black), p.node, Black), g.node, Red) == Recolored(p, t)
  {
    var g := p.up;
    var parent := Plug(p, t);
    var un := g.sib.node;
    PlugApart(p, t);
    PlugApart(g, parent);
    assert un in TreeNodes(g.sib) && p.node in TreeNodes(parent);
    assert Distinct(g.sib);
    PaintNodes(parent, un, Black);
    PaintNodes(g.sib.l, un, Black);
    PaintNodes(g.sib.r, un, Black);
    assert Paint(g.sib, un, Black) == Tint(g.sib, Black);
    PaintNodes(t, p.node, Black);
    PaintNodes(p.sib, p.node, Black);
    assert Paint(parent, p.node, Black) == Tint(parent, Black);
    var uncle := Tint(g.sib, Black);
    assert TreeNodes(uncle) == TreeNodes(g.sib) && TreeNodes(Tint(parent, Black)) == TreeNodes(parent);
    PaintNodes(uncle, p.node, Black);
    PaintNodes(uncle, g.node, Red);
    PaintNodes(Tint(parent, Black), g.node, Red);
  }

  /** The two color writes before the grandparent's rotation. */
  lemma PaintSwapped(g: Path, t: Tree)
    requires !g.Top? && t.Br? && Apart(g, t)
    ensures Paint(Paint(Plug(g, t), t.node, Black), g.node, Red) == Swapped(g, t)
  {
    PlugApart(g, t);
    assert t.node in TreeNodes(t);
    PaintNodes(t.l, t.node, Black);
    PaintNodes(t.r, t.node, Black);
    assert Paint(t, t.node, Black) == Tint(t, Black);
    PaintNodes(g.sib, t.node, Black);
    assert TreeNodes(Tint(t, Black)) == TreeNodes(t);
    PaintNodes(Tint(t, Black), g.node, Red);
    PaintNodes(g.sib, g.node, Red);
  }

  // ---------- Looking around ----------

  /** What the fields around the focus say about the path. */
  lemma Around(m: Mem, nil: Node, root: Node, p: Path, t: Tree)
    requires Represents(m, nil, root, p, t) && t.Br?
    ensures t.node in m && t.node != nil && m[t.node].parent == ParentRef(nil, p)
    ensures root == t.node <==> p.Top?
    ensures !p.Top? ==>
              && p.node in m && p.node != nil && m[p.node].parent == ParentRef(nil, p.up) && m[p.node].c == p.c
              && (m[p.node].left == t.node <==> p.InLeft?)
              && (m[p.node].right == t.node <==> p.InRight?)
              && (if p.InLeft? then m[p.node].right else m[p.node].left) == Ref(nil, p.sib)
              && (p.sib.Br? ==> p.sib.node in m && p.sib.node != nil && m[p.sib.node].c == p.sib.c)
  {
    if !p.Top? {
      LinksInMem(m, nil, p.sib, p.node);
      RootAbove(m, nil, root, p.up, p.node);
      SpineInPath(p);
    }
  }

  /** The root is the focus, or a node on the way up. */
  lemma {:induction false} RootAbove(m: Mem, nil: Node, root: Node, p: Path, focus: Node)
    requires PathLinks(m, nil, root, p, focus)
    ensures root == focus || root in Spine(p)
    decreases p
  {
    if !p.Top? {
      RootAbove(m, nil, root, p.up, p.node);
    }
  }

  /** The grandparent of a red parent, and the uncle. */
  lemma AroundGrandparent(m: Mem, nil: Node, root: Node, p: Path, t: Tree)
    requires Represents(m, nil, root, p, t) && t.Br? && !p.Top? && !p.up.Top?
    ensures var g := p.up;
            && p.node in m && g.node in m && g.node != nil && m[p.node].parent == g.node
            && (m[g.node].left == p.node <==> g.InLeft?)
            && (if g.InLeft? then m[g.node].right else m[g.node].left) == Ref(nil, g.sib)
            && (g.sib.Br? ==> g.sib.node in m && g.sib.node != nil && m[g.sib.node].c == g.sib.c)
  {
    MoveUp(m, nil, root, p, t);
    Around(m, nil, root, p.up, Plug(p, t));
  }

  lemma PaintRoot(t: Tree, c: Color)
    requires t.Br? && Distinct(t)
    ensures Paint(t, t.node, c) == Tint(t, c)
  {
    PaintNodes(t.l, t.node, c);
    PaintNodes(t.r, t.node, c);
  }

  // ---------- Linking a new leaf ----------

  function NewLeaf(z: Node, iv: IntervalValue): Tree {
    Br(z, iv, iv.ivl.end, Red, Nil, Nil)
  }

  /** The memory with a new node linked into the empty place at the end of a path. */
  function LeafLinked(m: Mem, nil: Node, p: Path, z: Node, iv: IntervalValue): Mem
    requires Spine(p) <= m.Keys
  {
    var m1 := m[z := Rec(iv, iv.ivl.end, nil, nil, ParentRef(nil, p), Red)];
    if p.Top? then m1 else if p.InLeft? then SetLeft(m1, p.node, z) else SetRight(m1, p.node, z)
  }

  lemma LeafAt(m: Mem, nil: Node, root: Node, p: Path, z: Node, iv: IntervalValue)
    requires Represents(m, nil, root, p, Nil) && z !in m
    ensures Spine(p) <= m.Keys
    ensures AtPath(LeafLinked(m, nil, p, z, iv), nil, if p.Top? then z else root, p, z, Some(iv.ivl.end))
    ensures var m1 := LeafLinked(m, nil, p, z, iv); var m2 := MaxWrites(m1, p, Some(iv.ivl.end));
            Represents(m2, nil, if p.Top? then z else root, UpMax(p, Some(iv.ivl.end)), NewLeaf(z, iv))
  {
    PathInMem(m, nil, root, p, nil);
    SpineInPath(p);
    var m1, root', fm := LeafLinked(m, nil, p, z, iv), if p.Top? then z else root, Some(iv.ivl.end);
    if !p.Top? {
      Refocus(m, nil, root, p, nil, z, m1);
    }
    MaxWritesLink(m1, nil, root', p, z, fm);
    MaxWritesFrame(m1, p, fm);
    UpMaxNodes(p, fm);
    assert TreeNodes(NewLeaf(z, iv)) == {z};
  }

  lemma LeafIsFixing(p: Path, z: Node, iv: IntervalValue, h: nat)
    requires PathRb(p, h) && PathMaxOk(p, None) && h == 0
    ensures Fixing(UpMax(p, Some(iv.ivl.end)), NewLeaf(z, iv), h, LeftOf(p) + [iv] + RightOf(p))
  {
    UpMaxRepairs(p, None, Some(iv.ivl.end));
    UpMaxKeepsRb(p, Some(iv.ivl.end), h);
    UpMaxKeepsContents(p, Some(iv.ivl.end));
    assert Inorder(NewLeaf(z, iv)) == [iv];
  }
}
