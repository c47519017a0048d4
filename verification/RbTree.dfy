/**
 The tree as a value: what the linked nodes represent, and a path for the place a loop is looking
 at. Order, the maximum endpoints and the red-black rules are stated and proved here.
 */
module RbTree {
  import opened Bytes
  import opened Interval
  import opened Nodes
  import opened Numbers

  datatype Tree = Nil | Br(node: Node, iv: IntervalValue, max: Point, c: Color, l: Tree, r: Tree)

  /** The way from a subtree up to the root: at each step the parent and the other subtree. */
  datatype Path =
    | Top
    | InLeft(node: Node, iv: IntervalValue, max: Point, c: Color, sib: Tree, up: Path)
    | InRight(node: Node, iv: IntervalValue, max: Point, c: Color, sib: Tree, up: Path)

  /** The parent's tree with a subtree put in its place. */
  function Plug(p: Path, t: Tree): Tree
    requires !p.Top?
  {
    if p.InLeft? then Br(p.node, p.iv, p.max, p.c, t, p.sib) else Br(p.node, p.iv, p.max, p.c, p.sib, t)
  }

  function Zip(p: Path, t: Tree): Tree
    decreases p
  {
    if p.Top? then t else Zip(p.up, Plug(p, t))
  }

  lemma {:induction false} ZipIsNode(p: Path, t: Tree)
    requires t.Br?
    ensures Zip(p, t).Br?
    decreases p
  {
    if !p.Top? {
      ZipIsNode(p.up, Plug(p, t));
    }
  }

  function Length(p: Path): nat {
    if p.Top? then 0 else 1 + Length(p.up)
  }

  // ---------- In-order contents ----------

  function Inorder(t: Tree): seq<IntervalValue> {
    if t.Nil? then [] else Inorder(t.l) + [t.iv] + Inorder(t.r)
  }

  function LeftOf(p: Path): seq<IntervalValue> {
    match p
    case Top => []
    case InLeft(_, _, _, _, _, up) => LeftOf(up)
    case InRight(_, iv, _, _, sib, up) => LeftOf(up) + Inorder(sib) + [iv]
  }

  function RightOf(p: Path): seq<IntervalValue> {
    match p
    case Top => []
    case InLeft(_, iv, _, _, sib, up) => [iv] + Inorder(sib) + RightOf(up)
    case InRight(_, _, _, _, _, up) => RightOf(up)
  }

  lemma Regroup<T>(a: seq<T>, b: seq<T>, c: seq<T>, d: seq<T>, e: seq<T>)
    ensures a + (b + c + d) + e == a + b + (c + d + e)
    ensures a + (b + c + d) + e == (a + b + c) + d + e
  {
  }

  lemma {:induction false} ZipInorder(p: Path, t: Tree)
    ensures Inorder(Zip(p, t)) == LeftOf(p) + Inorder(t) + RightOf(p)
    decreases p
  {
    match p
    case Top =>
    case InLeft(_, iv, _, _, sib, up) =>
      ZipInorder(up, Plug(p, t));
      Regroup(LeftOf(up), Inorder(t), [iv], Inorder(sib), RightOf(up));
    case InRight(_, iv, _, _, sib, up) =>
      ZipInorder(up, Plug(p, t));
      Regroup(LeftOf(up), Inorder(sib), [iv], Inorder(t), RightOf(up));
  }

  ghost predicate Sorted(s: seq<IntervalValue>) {
    forall i, j | 0 <= i < j < |s| :: s[i].ivl.begin <= s[j].ivl.begin
  }

  // ---------- Maximum endpoints ----------

  function MaxOf(t: Tree): Option<Point> {
    if t.Nil? then None else Some(t.max)
  }

  function Raise(m: Point, o: Option<Point>): Point {
    if o.Some? && o.value > m then o.value else m
  }

  function NodeMax(end: Point, l: Option<Point>, r: Option<Point>): Point {
    Raise(Raise(end, l), r)
  }

  /** Every node's max is computed from its own endpoint and its children's maxima. */
  predicate MaxOk(t: Tree) {
    t.Br? ==> t.max == NodeMax(t.iv.ivl.end, MaxOf(t.l), MaxOf(t.r)) && MaxOk(t.l) && MaxOk(t.r)
  }

  function FrameMax(p: Path, m: Option<Point>): Point
    requires !p.Top?
  {
    NodeMax(p.iv.ivl.end, if p.InLeft? then m else MaxOf(p.sib), if p.InLeft? then MaxOf(p.sib) else m)
  }

  predicate PathMaxOk(p: Path, m: Option<Point>) {
    !p.Top? ==> p.max == FrameMax(p, m) && MaxOk(p.sib) && PathMaxOk(p.up, Some(p.max))
  }

  /** That local rule makes max the true maximum over the subtree. */
  lemma {:induction false} MaxIsTrueMaximum(t: Tree)
    requires t.Br? && MaxOk(t)
    ensures forall iv | iv in Inorder(t) :: iv.ivl.end <= t.max
    ensures exists iv :: iv in Inorder(t) && iv.ivl.end == t.max
  {
    assert forall iv :: iv in Inorder(t) <==> iv in Inorder(t.l) || iv == t.iv || iv in Inorder(t.r);
    if t.l.Br? {
      MaxIsTrueMaximum(t.l);
    }
    if t.r.Br? {
      MaxIsTrueMaximum(t.r);
    }
    if t.max == t.iv.ivl.end {
      assert t.iv in Inorder(t);
    } else if t.l.Br? && t.max == t.l.max {
      var iv :| iv in Inorder(t.l) && iv.ivl.end == t.l.max;
      assert iv in Inorder(t);
    } else {
      var iv :| iv in Inorder(t.r) && iv.ivl.end == t.r.max;
      assert iv in Inorder(t);
    }
  }

  /** updateMax on the way up: recompute, and stop at the first node whose max does not change. */
  function UpMax(p: Path, m: Option<Point>): Path {
    if p.Top? || p.max == FrameMax(p, m) then p
    else
      var fixed := FrameMax(p, m);
      p.(max := fixed, up := UpMax(p.up, Some(fixed)))
  }

  /** Stopping early is enough: above an unchanged maximum nothing depends on what changed below. */
  lemma {:induction false} UpMaxRepairs(p: Path, before: Option<Point>, m: Option<Point>)
    requires PathMaxOk(p, before)
    ensures PathMaxOk(UpMax(p, m), m)
    decreases p
  {
    if !p.Top? && p.max != FrameMax(p, m) {
      UpMaxRepairs(p.up, Some(p.max), Some(FrameMax(p, m)));
    }
  }

  lemma UpMaxIdle(p: Path, m: Option<Point>)
    requires PathMaxOk(p, m)
    ensures UpMax(p, m) == p
  {
  }

  /** Of two repairs in a row only the last one matters. */
  lemma {:induction false} UpMaxTwice(p: Path, before: Option<Point>, a: Option<Point>, b: Option<Point>)
    requires PathMaxOk(p, before)
    ensures UpMax(UpMax(p, a), b) == UpMax(p, b)
    decreases p
  {
    if !p.Top? {
      UpMaxTwice(p.up, Some(p.max), Some(FrameMax(p, a)), Some(FrameMax(p, b)));
      UpMaxIdle(p.up, Some(p.max));
    }
  }

  lemma {:induction false} ZipMaxOk(p: Path, t: Tree)
    requires MaxOk(t) && PathMaxOk(p, MaxOf(t))
    ensures MaxOk(Zip(p, t))
    decreases p
  {
    if !p.Top? {
      ZipMaxOk(p.up, Plug(p, t));
    }
  }

  lemma {:induction false} UpMaxKeepsContents(p: Path, m: Option<Point>)
    ensures LeftOf(UpMax(p, m)) == LeftOf(p) && RightOf(UpMax(p, m)) == RightOf(p)
    ensures Length(UpMax(p, m)) == Length(p)
    decreases p
  {
    if !p.Top? && p.max != FrameMax(p, m) {
      UpMaxKeepsContents(p.up, Some(FrameMax(p, m)));
    }
  }

  // ---------- Red-black rules ----------

  predicate IsRed(t: Tree) {
    t.Br? && t.c.Red?
  }

  /** No red node has a red child, and every way down to a leaf passes h black nodes. */
  predicate Rb(t: Tree, h: nat) {
    match t
    case Nil => h == 0
    case Br(_, _, _, Red, l, r) => !IsRed(l) && !IsRed(r) && Rb(l, h) && Rb(r, h)
    case Br(_, _, _, Black, l, r) => h > 0 && Rb(l, h - 1) && Rb(r, h - 1)
  }

  ghost predicate RbRoot(t: Tree) {
    !IsRed(t) && exists h: nat :: Rb(t, h)
  }

  /** The path is right for a subtree of black height h; the subtree's own color is looked at separately. */
  predicate PathRb(p: Path, h: nat) {
    !p.Top? ==>
      && Rb(p.sib, h)
      && if p.c.Red? then !IsRed(p.sib) && !p.up.Top? && p.up.c.Black? && PathRb(p.up, h)
         else PathRb(p.up, h + 1)
  }

  lemma {:induction false} ZipRb(p: Path, t: Tree, h: nat)
    requires Rb(t, h) && PathRb(p, h)
    requires IsRed(t) ==> !p.Top? && p.c.Black?
    ensures RbRoot(Zip(p, t))
    decreases p
  {
    if !p.Top? {
      ZipRb(p.up, Plug(p, t), if p.c.Red? then h else h + 1);
    }
  }

  // ---------- Height ----------

  function Height(t: Tree): nat {
    if t.Nil? then 0
    else
      var ld, rd := Height(t.l), Height(t.r);
      if ld < rd then rd + 1 else ld + 1
  }

  function Size(t: Tree): nat {
    if t.Nil? then 0 else Size(t.l) + 1 + Size(t.r)
  }

  lemma {:induction false} HeightByBlackHeight(t: Tree, h: nat)
    requires Rb(t, h)
    ensures Height(t) <= 2 * h + (if IsRed(t) then 1 else 0)
    ensures Size(t) + 1 >= Pow2(h)
  {
    match t
    case Nil =>
    case Br(_, _, _, Red, l, r) =>
      HeightByBlackHeight(l, h);
      HeightByBlackHeight(r, h);
    case Br(_, _, _, Black, l, r) =>
      HeightByBlackHeight(l, h - 1);
      HeightByBlackHeight(r, h - 1);
  }

  /** The height is at most twice the logarithm of the size plus one, which is what MaxHeight reports. */
  lemma HeightBound(t: Tree)
    requires RbRoot(t)
    ensures Pow2(Height(t)) <= (Size(t) + 1) * (Size(t) + 1)
  {
    var h: nat :| Rb(t, h);
    HeightByBlackHeight(t, h);
    Pow2Monotone(Height(t), 2 * h);
    Pow2Sum(h, h);
    SquareGrows(Pow2(h), Size(t) + 1);
  }

  /** No node lies deeper than the height says. */
  lemma {:induction false} NoNodeIsDeeper(p: Path, t: Tree)
    ensures Height(Zip(p, t)) >= Length(p) + Height(t)
    decreases p
  {
    if !p.Top? {
      NoNodeIsDeeper(p.up, Plug(p, t));
    }
  }

  /** And one lies that deep. */
  lemma {:induction false} SomeNodeIsDeepest(up: Path, t: Tree) returns (p: Path, s: Tree)
    requires t.Br?
    ensures s.Br? && Zip(p, s) == Zip(up, t) && Length(p) + 1 == Length(up) + Height(t)
    decreases t
  {
    var left, right := InLeft(t.node, t.iv, t.max, t.c, t.r, up), InRight(t.node, t.iv, t.max, t.c, t.l, up);
    if Height(t) == 1 {
      p, s := up, t;
    } else if Height(t.l) >= Height(t.r) {
      p, s := SomeNodeIsDeepest(left, t.l);
    } else {
      p, s := SomeNodeIsDeepest(right, t.r);
    }
  }

  /** Every way from the root to a node is at most twice the logarithm of the size plus one. */
  lemma EveryPathIsShort(p: Path, s: Tree)
    requires RbRoot(Zip(p, s)) && s.Br?
    ensures var n := Size(Zip(p, s)); Pow2(Length(p) + 1) <= (n + 1) * (n + 1)
  {
    HeightBound(Zip(p, s));
    NoNodeIsDeeper(p, s);
    Pow2Monotone(Length(p) + 1, Height(Zip(p, s)));
  }

  lemma SquareGrows(a: nat, b: nat)
    requires a <= b
    ensures a * a <= b * b
  {
  }

  lemma {:induction false} SizeIsLength(t: Tree)
    ensures Size(t) == |Inorder(t)|
  {
    if t.Br? {
      SizeIsLength(t.l);
      SizeIsLength(t.r);
    }
  }

  // ---------- Rotations ----------

  predicate HasRight(t: Tree) {
    t.Br? && t.r.Br?
  }

  predicate HasLeft(t: Tree) {
    t.Br? && t.l.Br?
  }

  /** A node with its max recomputed from its children. */
  function Join(t: Tree, l: Tree, r: Tree): Tree
    requires t.Br?
  {
    Br(t.node, t.iv, NodeMax(t.iv.ivl.end, MaxOf(l), MaxOf(r)), t.c, l, r)
  }

  /** The root moves to the left below its right child. */
  function RotL(t: Tree): Tree
    requires HasRight(t)
  {
    Join(t.r, Join(t, t.l, t.r.l), t.r.r)
  }

  /** The root moves to the right below its left child. */
  function RotR(t: Tree): Tree
    requires HasLeft(t)
  {
    Join(t.l, t.l.l, Join(t, t.l.r, t.r))
  }

  lemma RotLKeeps(t: Tree)
    requires HasRight(t)
    ensures Inorder(RotL(t)) == Inorder(t)
    ensures MaxOk(t) ==> MaxOk(RotL(t)) && RotL(t).max == t.max
  {
    var x, y := t, t.r;
    var inner := Join(x, x.l, y.l);
    assert Inorder(inner) == Inorder(x.l) + [x.iv] + Inorder(y.l);
    assert Inorder(RotL(t)) == Inorder(inner) + [y.iv] + Inorder(y.r);
    if MaxOk(t) {
      assert MaxOk(y) && MaxOk(inner);
    }
  }

  lemma RotRKeeps(t: Tree)
    requires HasLeft(t)
    ensures Inorder(RotR(t)) == Inorder(t)
    ensures MaxOk(t) ==> MaxOk(RotR(t)) && RotR(t).max == t.max
  {
    var x, y := t, t.l;
    var inner := Join(x, y.r, x.r);
    assert Inorder(inner) == Inorder(y.r) + [x.iv] + Inorder(x.r);
    assert Inorder(RotR(t)) == Inorder(y.l) + [y.iv] + Inorder(inner);
    if MaxOk(t) {
      assert MaxOk(y) && MaxOk(inner);
    }
  }

  // ---------- Taking a tree apart ----------

  lemma {:induction false} UnzipMaxOk(p: Path, t: Tree)
    requires MaxOk(Zip(p, t))
    ensures MaxOk(t) && PathMaxOk(p, MaxOf(t))
    decreases p
  {
    if !p.Top? {
      UnzipMaxOk(p.up, Plug(p, t));
    }
  }

  lemma {:induction false} UnzipRb(p: Path, t: Tree) returns (h: nat)
    requires RbRoot(Zip(p, t))
    ensures Rb(t, h) && PathRb(p, h) && (IsRed(t) ==> !p.Top? && p.c.Black?)
    decreases p
  {
    if p.Top? {
      h :| Rb(t, h);
    } else {
      var k := UnzipRb(p.up, Plug(p, t));
      h := if p.c.Red? then k else k - 1;
    }
  }

  lemma {:induction false} UpMaxKeepsRb(p: Path, m: Option<Point>, h: nat)
    requires PathRb(p, h)
    ensures PathRb(UpMax(p, m), h)
    decreases p
  {
    if !p.Top? && p.max != FrameMax(p, m) {
      UpMaxKeepsRb(p.up, Some(FrameMax(p, m)), if p.c.Red? then h else h + 1);
    }
  }

  // ---------- Repainting ----------

  function Paint(t: Tree, n: Node, c: Color): Tree {
    if t.Nil? then t
    else Br(t.node, t.iv, t.max, if t.node == n then c else t.c, Paint(t.l, n, c), Paint(t.r, n, c))
  }

  lemma {:induction false} PaintKeeps(t: Tree, n: Node, c: Color)
    ensures Inorder(Paint(t, n, c)) == Inorder(t) && MaxOf(Paint(t, n, c)) == MaxOf(t)
    ensures MaxOk(t) ==> MaxOk(Paint(t, n, c))
  {
    if t.Br? {
      PaintKeeps(t.l, n, c);
      PaintKeeps(t.r, n, c);
    }
  }

  /** The root of a tree in another color. */
  function Tint(t: Tree, c: Color): Tree {
    if t.Nil? then t else t.(c := c)
  }

  // ---------- insertFixup ----------

  /** While an insertion is being fixed up: all is well but for the red focus, whose parent may be red too. */
  ghost predicate Fixing(p: Path, t: Tree, h: nat, s: seq<IntervalValue>) {
    && IsRed(t) && Rb(t, h) && PathRb(p, h)
    && MaxOk(t) && PathMaxOk(p, MaxOf(t))
    && LeftOf(p) + Inorder(t) + RightOf(p) == s
  }

  lemma PlugInorder(p: Path, t: Tree)
    requires !p.Top?
    ensures LeftOf(p) + Inorder(t) + RightOf(p) == LeftOf(p.up) + Inorder(Plug(p, t)) + RightOf(p.up)
  {
    if p.InLeft? {
      Regroup(LeftOf(p.up), Inorder(t), [p.iv], Inorder(p.sib), RightOf(p.up));
    } else {
      Regroup(LeftOf(p.up), Inorder(p.sib), [p.iv], Inorder(t), RightOf(p.up));
    }
  }

  /** The grandparent's tree, with the grandparent red and its two children black. */
  function Recolored(p: Path, t: Tree): Tree
    requires !p.Top? && !p.up.Top?
  {
    var g := p.up;
    Tint(Plug(g.(sib := Tint(g.sib, Black)), Tint(Plug(p, t), Black)), Red)
  }

  /** A red uncle: the violation moves up to the grandparent. */
  lemma RecolorFixes(p: Path, t: Tree, h: nat, s: seq<IntervalValue>)
    requires Fixing(p, t, h, s) && !p.Top? && p.c.Red? && IsRed(p.up.sib)
    ensures Fixing(p.up.up, Recolored(p, t), h + 1, s)
  {
    var g := p.up;
    var parent := Plug(p, t);
    var grand := Plug(g, parent);
    PlugInorder(p, t);
    PlugInorder(g, parent);
    assert PathRb(g, h) && PathMaxOk(g, Some(p.max));
    assert Inorder(Tint(g.sib, Black)) == Inorder(g.sib) && MaxOk(Tint(g.sib, Black));
    assert Inorder(Tint(parent, Black)) == Inorder(parent) && MaxOk(Tint(parent, Black));
    assert Inorder(Recolored(p, t)) == Inorder(grand);
    assert Rb(Tint(parent, Black), h + 1);
    assert Rb(Tint(g.sib, Black), h + 1);
  }

  /** A red tree whose left child is the other red of a violation. */
  ghost predicate RedLeftLeft(t: Tree, h: nat) {
    t.Br? && t.c.Red? && IsRed(t.l) && !IsRed(t.r) && Rb(t.l, h) && Rb(t.r, h) && MaxOk(t)
  }

  ghost predicate RedRightRight(t: Tree, h: nat) {
    t.Br? && t.c.Red? && IsRed(t.r) && !IsRed(t.l) && Rb(t.l, h) && Rb(t.r, h) && MaxOk(t)
  }

  /** The context of a violation below a black grandparent with a black uncle. */
  ghost predicate BlackUncle(g: Path, m: Option<Point>, h: nat) {
    !g.Top? && g.c.Black? && !IsRed(g.sib) && PathRb(g, h) && PathMaxOk(g, m)
  }

  /** An inner grandchild is rotated to the outside first. */
  lemma InnerToOuterLeft(t: Tree, h: nat)
    requires RedRightRight(t, h)
    ensures HasRight(t) && RedLeftLeft(RotL(t), h)
  {
    assert Rb(t.r, h) && MaxOk(t.r);
    RotLKeeps(t);
  }

  lemma InnerToOuterRight(t: Tree, h: nat)
    requires RedLeftLeft(t, h)
    ensures HasLeft(t) && RedRightRight(RotR(t), h)
  {
    assert Rb(t.l, h) && MaxOk(t.l);
    RotRKeeps(t);
  }

  /** The grandparent's tree just before the last rotation: parent black, grandparent red. */
  function Swapped(g: Path, t: Tree): Tree
    requires !g.Top? && t.Br?
  {
    Tint(Plug(g, Tint(t, Black)), Red)
  }

  /** The path of the outer grandchild after the grandparent has been rotated to the right. */
  function RotatedPathLeft(g: Path, t: Tree): Path
    requires g.InLeft? && t.Br?
  {
    var r := RotR(Swapped(g, t));
    InLeft(r.node, r.iv, r.max, r.c, r.r, g.up)
  }

  function RotatedPathRight(g: Path, t: Tree): Path
    requires g.InRight? && t.Br?
  {
    var r := RotL(Swapped(g, t));
    InRight(r.node, r.iv, r.max, r.c, r.l, g.up)
  }

  /** A black uncle: one rotation of the grandparent ends the violation. */
  lemma RotateFixesLeft(g: Path, t: Tree, h: nat)
    requires g.InLeft? && RedLeftLeft(t, h) && BlackUncle(g, Some(t.max), h)
    ensures MaxOk(Swapped(g, t)) && PathMaxOk(g.up, Some(Swapped(g, t).max))
    ensures HasLeft(Swapped(g, t)) && Plug(RotatedPathLeft(g, t), t.l) == RotR(Swapped(g, t))
    ensures var s := LeftOf(g) + Inorder(t) + RightOf(g);
            Fixing(RotatedPathLeft(g, t), t.l, h, s) && RotatedPathLeft(g, t).c.Black?
  {
    var w := Swapped(g, t);
    assert MaxOk(Tint(t, Black));
    RotRKeeps(w);
    var r := RotR(w);
    assert r.l == t.l && r.c.Black? && r.r.c.Red? && r.r.l == t.r && r.r.r == g.sib;
    assert Rb(r.r, h);
    PlugInorder(g, t);
    PlugInorder(RotatedPathLeft(g, t), t.l);
    assert Inorder(w) == Inorder(Plug(g, t));
    assert Plug(RotatedPathLeft(g, t), t.l) == r;
  }

  lemma RotateFixesRight(g: Path, t: Tree, h: nat)
    requires g.InRight? && RedRightRight(t, h) && BlackUncle(g, Some(t.max), h)
    ensures MaxOk(Swapped(g, t)) && PathMaxOk(g.up, Some(Swapped(g, t).max))
    ensures HasRight(Swapped(g, t)) && Plug(RotatedPathRight(g, t), t.r) == RotL(Swapped(g, t))
    ensures var s := LeftOf(g) + Inorder(t) + RightOf(g);
            Fixing(RotatedPathRight(g, t), t.r, h, s) && RotatedPathRight(g, t).c.Black?
  {
    var w := Swapped(g, t);
    assert MaxOk(Tint(t, Black));
    RotLKeeps(w);
    var r := RotL(w);
    assert r.r == t.r && r.c.Black? && r.l.c.Red? && r.l.r == t.l && r.l.l == g.sib;
    assert Rb(r.l, h);
    PlugInorder(g, t);
    PlugInorder(RotatedPathRight(g, t), t.r);
    assert Inorder(w) == Inorder(Plug(g, t));
    assert Plug(RotatedPathRight(g, t), t.r) == r;
  }

  /** Blackening the root ends the fixup once the focus has no red parent. */
  lemma FixingEnds(p: Path, t: Tree, h: nat, s: seq<IntervalValue>)
    requires Fixing(p, t, h, s) && (p.Top? || p.c.Black?)
    ensures var tree := Tint(Zip(p, t), Black); RbRoot(tree) && MaxOk(tree) && Inorder(tree) == s
  {
    ZipInorder(p, t);
    ZipMaxOk(p, t);
    if p.Top? {
      assert Rb(Tint(t, Black), h + 1);
    } else {
      ZipRb(p, t, h);
    }
  }

  // ---------- Inserting ----------

  /** The new element goes behind all elements that begin at or before it. */
  function Inserted(s: seq<IntervalValue>, iv: IntervalValue): seq<IntervalValue> {
    if s == [] || s[0].ivl.begin > iv.ivl.begin then [iv] + s else [s[0]] + Inserted(s[1..], iv)
  }

  lemma {:induction false} InsertedBetween(a: seq<IntervalValue>, b: seq<IntervalValue>, iv: IntervalValue)
    requires forall e | e in a :: e.ivl.begin <= iv.ivl.begin
    requires forall e | e in b :: e.ivl.begin > iv.ivl.begin
    ensures Inserted(a + b, iv) == a + [iv] + b
  {
    if a == [] {
      assert a + b == b;
      assert b != [] ==> b[0] in b;
      assert a + [iv] + b == [iv] + b;
    } else {
      assert a[0] in a;
      InsertedBetween(a[1..], b, iv);
      assert (a + b)[1..] == a[1..] + b;
      assert a + [iv] + b == [a[0]] + (a[1..] + [iv] + b);
    }
  }

  lemma {:induction false} InsertedAdds(s: seq<IntervalValue>, iv: IntervalValue)
    ensures multiset(Inserted(s, iv)) == multiset(s) + multiset{iv}
  {
    if s != [] && s[0].ivl.begin <= iv.ivl.begin {
      InsertedAdds(s[1..], iv);
      assert s == [s[0]] + s[1..];
    }
  }

  lemma SortedCons(x: IntervalValue, s: seq<IntervalValue>)
    requires Sorted(s) && forall e | e in s :: x.ivl.begin <= e.ivl.begin
    ensures Sorted([x] + s)
  {
  }

  /** Insertion keeps the order and adds exactly the one element. */
  lemma {:induction false} InsertedKeeps(s: seq<IntervalValue>, iv: IntervalValue)
    requires Sorted(s)
    ensures Sorted(Inserted(s, iv)) && multiset(Inserted(s, iv)) == multiset(s) + multiset{iv}
  {
    InsertedAdds(s, iv);
    if s == [] || s[0].ivl.begin > iv.ivl.begin {
      SortedCons(iv, s);
    } else {
      var rest := Inserted(s[1..], iv);
      InsertedKeeps(s[1..], iv);
      forall e | e in rest ensures s[0].ivl.begin <= e.ivl.begin {
        assert e in multiset(rest);
        assert e in multiset(s[1..]) || e == iv;
      }
      SortedCons(s[0], rest);
    }
  }

  lemma SortedSplit(a: seq<IntervalValue>, b: seq<IntervalValue>)
    requires Sorted(a + b)
    ensures Sorted(a) && Sorted(b)
    ensures forall x, y | x in a && y in b :: x.ivl.begin <= y.ivl.begin
  {
    var s := a + b;
    forall i, j | 0 <= i < j < |a| ensures a[i].ivl.begin <= a[j].ivl.begin {
      assert s[i] == a[i] && s[j] == a[j];
    }
    forall i, j | 0 <= i < j < |b| ensures b[i].ivl.begin <= b[j].ivl.begin {
      assert s[|a| + i] == b[i] && s[|a| + j] == b[j];
    }
    forall x, y | x in a && y in b ensures x.ivl.begin <= y.ivl.begin {
      var i :| 0 <= i < |a| && a[i] == x;
      var j :| 0 <= j < |b| && b[j] == y;
      assert s[i] == x && s[|a| + j] == y;
    }
  }

  /** Going left or right of a node keeps the new element's place between the two sides of the path. */
  ghost predicate Slot(p: Path, begin: Point) {
    && (forall e | e in LeftOf(p) :: e.ivl.begin <= begin)
    && (forall e | e in RightOf(p) :: e.ivl.begin > begin)
  }

  /** The first node of the path is on the side where the slot belongs. */
  lemma SlotSide(p: Path, begin: Point)
    requires !p.Top? && Slot(p, begin)
    ensures p.InLeft? <==> begin < p.iv.ivl.begin
  {
    assert p.InLeft? ==> p.iv in RightOf(p);
    assert p.InRight? ==> p.iv in LeftOf(p);
  }

  lemma SlotBelow(p: Path, t: Tree, begin: Point)
    requires t.Br? && Slot(p, begin) && Sorted(LeftOf(p) + Inorder(t) + RightOf(p))
    ensures begin < t.iv.ivl.begin ==> Slot(InLeft(t.node, t.iv, t.max, t.c, t.r, p), begin)
    ensures begin >= t.iv.ivl.begin ==> Slot(InRight(t.node, t.iv, t.max, t.c, t.l, p), begin)
  {
    PivotSplits(LeftOf(p), Inorder(t.l), t.iv, Inorder(t.r), RightOf(p));
  }

  lemma PivotSplits(a: seq<IntervalValue>, b: seq<IntervalValue>, v: IntervalValue, d: seq<IntervalValue>, e: seq<IntervalValue>)
    requires Sorted(a + (b + [v] + d) + e)
    ensures forall x | x in b :: x.ivl.begin <= v.ivl.begin
    ensures forall x | x in d :: v.ivl.begin <= x.ivl.begin
  {
    var s := a + (b + [v] + d) + e;
    var k := |a| + |b|;
    assert s[k] == v;
    forall x | x in b ensures x.ivl.begin <= v.ivl.begin {
      var i :| 0 <= i < |b| && b[i] == x;
      assert s[|a| + i] == x;
    }
    forall x | x in d ensures v.ivl.begin <= x.ivl.begin {
      var i :| 0 <= i < |d| && d[i] == x;
      assert s[k + 1 + i] == x;
    }
  }

  lemma ZipOfNil(p: Path)
    ensures Inorder(Zip(p, Nil)) == LeftOf(p) + RightOf(p)
  {
    ZipInorder(p, Nil);
    assert LeftOf(p) + [] == LeftOf(p);
  }

  lemma InsertedContents(a: seq<IntervalValue>, b: seq<IntervalValue>, iv: IntervalValue)
    requires Sorted(a + b)
    requires forall e | e in a :: e.ivl.begin <= iv.ivl.begin
    requires forall e | e in b :: e.ivl.begin > iv.ivl.begin
    ensures a + [iv] + b == Inserted(a + b, iv) && Sorted(a + [iv] + b)
  {
    InsertedBetween(a, b, iv);
    InsertedKeeps(a + b, iv);
  }

  /** The facts an insertion at a slot starts from. */
  lemma InsertionPlan(t: Tree, p: Path, iv: IntervalValue)
    requires Zip(p, Nil) == t && RbRoot(t) && MaxOk(t) && Sorted(Inorder(t)) && Slot(p, iv.ivl.begin)
    ensures PathRb(p, 0) && PathMaxOk(p, None)
    ensures LeftOf(p) + [iv] + RightOf(p) == Inserted(Inorder(t), iv) && Sorted(LeftOf(p) + [iv] + RightOf(p))
    ensures |LeftOf(p) + [iv] + RightOf(p)| == |Inorder(t)| + 1
  {
    var h := UnzipRb(p, Nil);
    UnzipMaxOk(p, Nil);
    ZipOfNil(p);
    InsertedContents(LeftOf(p), RightOf(p), iv);
  }
}
