/** Why the repair loops of insertion and deletion work: the invariant of each loop, and each of its cases
    as a step from one focused tree to the next. */
module IntervalTreeFixup {
  import opened IntervalTreeShape

  /** What both loops keep of every subtree they are not repairing. */
  predicate Sound(t: Tree) { Balanced(t) && NoRedRed(t) && MaxExact(t) }

  /** Everything the context promises, except the colours and heights on the path. */
  predicate ExactAround(c: Ctx, t: Tree) {
    SiblingsExact(c) && PathExact(c, MaxOf(t)) && MaxExact(t)
  }

  lemma ExactUp(c: Ctx, t: Tree)
    requires ExactAround(c, t) && !c.Top?
    ensures c.InLeft? ==> ExactAround(c.up, Branch(t, c.n, c.red, c.maxHigh, c.right))
    ensures c.InRight? ==> ExactAround(c.up, Branch(c.left, c.n, c.red, c.maxHigh, t))
  {
  }

  // ----- Insertion ------------------------------------------------------------

  /** The loop invariant of insertion: the focused node is red and nothing is wrong but that its parent may be
      red as well. */
  predicate Growing(c: Ctx, t: Tree) {
    Red(t) && Balanced(t) && NoRedRed(t) && CtxRedBlack(c, BlackHeight(t)) && ExactAround(c, t)
  }

  /** The new leaf, before the colour is set, in the place of an empty subtree. */
  lemma GrowingStart(c: Ctx, z: Node)
    requires RedBlack(Plug(c, Leaf)) && MaxExact(Plug(c, Leaf)) && -MAX_TIME <= z.high
    ensures Growing(Refresh(c, z.high), Branch(Leaf, z, true, z.high, Leaf))
  {
    GraftInvariant(c, Top, Leaf);
    GraftIntoTop(c);
    RefreshKeeps(c, z.high);
    RefreshKeepsColours(c, z.high, 0);
  }

  /** The parent is black: after the root is blackened the tree is red-black again. */
  lemma GrowingEnd(c: Ctx, t: Tree)
    requires Growing(c, t) && !RedCtx(c)
    ensures RedBlack(Blacken(Plug(c, t))) && MaxExact(Blacken(Plug(c, t)))
  {
    PlugRedBlack(c, t);
    PlugExact(c, t);
  }

  /** The parent of a red focused node with a red parent has a parent itself. */
  lemma GrandparentExists(c: Ctx, t: Tree)
    requires Growing(c, t) && RedCtx(c)
    ensures !c.up.Top? && !RedCtx(c.up)
  {
  }

  function ParentTree(c: Ctx, t: Tree, red: bool): Tree
    requires !c.Top?
  {
    if c.InLeft? then Branch(t, c.n, red, c.maxHigh, c.right) else Branch(c.left, c.n, red, c.maxHigh, t)
  }

  lemma RecolourLeft(c: Ctx, t: Tree)
    requires Growing(c, t) && RedCtx(c) && c.up.InLeft? && Red(c.up.right)
    ensures Growing(c.up.up, Branch(ParentTree(c, t, false), c.up.n, true, c.up.maxHigh, c.up.right.(red := false)))
  {
    assert CtxRedBlack(c.up, BlackHeight(t)) && SiblingsExact(c.up);
    ExactUp(c, t);
    ExactUp(c.up, ParentTree(c, t, true));
    assert Sound(c.up.right) && Sound(c.up.right.(red := false)) && Sound(ParentTree(c, t, false));
  }

  lemma RecolourRight(c: Ctx, t: Tree)
    requires Growing(c, t) && RedCtx(c) && c.up.InRight? && Red(c.up.left)
    ensures Growing(c.up.up, Branch(c.up.left.(red := false), c.up.n, true, c.up.maxHigh, ParentTree(c, t, false)))
  {
    assert CtxRedBlack(c.up, BlackHeight(t)) && SiblingsExact(c.up);
    ExactUp(c, t);
    ExactUp(c.up, ParentTree(c, t, true));
    assert Sound(c.up.left) && Sound(c.up.left.(red := false)) && Sound(ParentTree(c, t, false));
  }

  /** Rotating an inner grandchild outwards, with the focus moved to its old parent. */
  lemma InnerLeft(c: Ctx, t: Tree)
    requires Growing(c, t) && RedCtx(c) && c.InRight?
    ensures var r := RotateLeft(ParentTree(c, t, true));
      Growing(InLeft(c.up, r.n, r.red, r.maxHigh, r.right), r.left)
  {
    var p := ParentTree(c, t, true);
    ExactUp(c, t);
    RotateLeftMax(p);
  }

  lemma InnerRight(c: Ctx, t: Tree)
    requires Growing(c, t) && RedCtx(c) && c.InLeft?
    ensures var r := RotateRight(ParentTree(c, t, true));
      Growing(InRight(c.up, r.left, r.n, r.red, r.maxHigh), r.right)
  {
    var p := ParentTree(c, t, true);
    ExactUp(c, t);
    RotateRightMax(p);
  }

  /** Rotating the black parent over the red grandparent, with the focus kept. */
  lemma OuterLeft(c: Ctx, t: Tree)
    requires Growing(c, t) && RedCtx(c) && c.InLeft? && c.up.InLeft? && !Red(c.up.right)
    ensures var g := RotateRight(Branch(ParentTree(c, t, false), c.up.n, true, c.up.maxHigh, c.up.right));
      g.left == t && !g.red && Growing(InLeft(c.up.up, g.n, g.red, g.maxHigh, g.right), t)
  {
    assert CtxRedBlack(c.up, BlackHeight(t)) && SiblingsExact(c.up);
    assert Sound(c.right) && Sound(c.up.right) && Sound(ParentTree(c, t, false));
    ExactUp(c, t);
    ExactUp(c.up, ParentTree(c, t, true));
    RotateRightMax(Branch(ParentTree(c, t, false), c.up.n, true, c.up.maxHigh, c.up.right));
    assert Sound(Branch(c.right, c.up.n, true, c.up.maxHigh,
      c.up.right).(maxHigh := NodeMax(c.right, c.up.n, c.up.right)));
  }

  lemma OuterRight(c: Ctx, t: Tree)
    requires Growing(c, t) && RedCtx(c) && c.InRight? && c.up.InRight? && !Red(c.up.left)
    ensures var g := RotateLeft(Branch(c.up.left, c.up.n, true, c.up.maxHigh, ParentTree(c, t, false)));
      g.right == t && !g.red && Growing(InRight(c.up.up, g.left, g.n, g.red, g.maxHigh), t)
  {
    assert CtxRedBlack(c.up, BlackHeight(t)) && SiblingsExact(c.up);
    assert Sound(c.left) && Sound(c.up.left) && Sound(ParentTree(c, t, false));
    ExactUp(c, t);
    ExactUp(c.up, ParentTree(c, t, true));
    RotateLeftMax(Branch(c.up.left, c.up.n, true, c.up.maxHigh, ParentTree(c, t, false)));
    assert Sound(Branch(c.up.left, c.up.n, true, c.up.maxHigh, c.left).(maxHigh := NodeMax(c.up.left, c.up.n, c.left)));
  }

  // ----- Deletion ------------------------------------------------------------

  /** The only child of a node with at most one. */
  function OnlyChild(t: Tree): Tree
    requires t.Branch?
  {
    if t.left.Leaf? then t.right else t.left
  }

  lemma WithoutOnlyChild(c: Ctx, t: Tree)
    requires t.Branch? && (t.left.Leaf? || t.right.Leaf?)
    ensures (Before(c) + Inorder(t.left)) + (Inorder(t.right) + After(c)) ==
      Before(c) + Inorder(OnlyChild(t)) + After(c)
  {
    if t.left.Leaf? {
      assert Before(c) + [] == Before(c);
      assert Before(c) + (Inorder(t.right) + After(c)) == Before(c) + Inorder(t.right) + After(c);
    } else {
      assert [] + After(c) == After(c);
    }
  }

  /** The order left when the successor, leftmost below t.right, has moved into the place of the deleted node. */
  lemma WithoutReplaced(d: Ctx, c: Ctx, l: Tree, t: Tree, red: bool)
    requires t.Branch? && t.left.Leaf? && Before(d) == []
    ensures var e := Graft(d, InRight(c, l, t.n, red, -MAX_TIME));
      (Before(c) + Inorder(l)) + (Inorder(Plug(d, t)) + After(c)) == Before(e) + Inorder(t.right) + After(e)
  {
    var b := InRight(c, l, t.n, red, -MAX_TIME);
    GraftOrder(d, b);
    PlugInorder(d, t);
    Regrouped(Before(c) + Inorder(l), t.n, Inorder(t.right), After(d), After(c));
    assert Inorder(t) == [t.n] + Inorder(t.right);
  }

  lemma Regrouped(p: seq<Node>, n: Node, x: seq<Node>, a: seq<Node>, q: seq<Node>)
    ensures p + (([] + ([n] + x) + a) + q) == (p + [n] + []) + x + (a + q)
  {
  }

  /** After a node with at most one child is spliced out and the maxima are recomputed, the tree is one black
      node short if the node was black, and sound if it was red. */
  lemma Spliced(c: Ctx, t: Tree)
    requires CtxRedBlack(c, BlackHeight(t)) && SiblingsExact(c) && Sound(t) && t.Branch? && (c.Top? ==> !t.red)
    requires t.left.Leaf? || t.right.Leaf?
    ensures var s := OnlyChild(t); var c' := Refresh(c, MaxOf(s));
      if t.red then RedBlack(Plug(c', s)) && MaxExact(Plug(c', s)) else Shrinking(c', s)
  {
    var s := OnlyChild(t);
    RefreshKeeps(c, MaxOf(s));
    RefreshKeepsColours(c, MaxOf(s), BlackHeight(t));
    if t.red {
      PlugRedBlack(Refresh(c, MaxOf(s)), s);
      PlugExact(Refresh(c, MaxOf(s)), s);
    } else {
      assert Sound(s) && BlackHeight(s) == 0;
    }
  }

  lemma SplicedWhole(c: Ctx, t: Tree)
    requires RedBlack(Plug(c, t)) && MaxExact(Plug(c, t)) && t.Branch? && (t.left.Leaf? || t.right.Leaf?)
    ensures var s := OnlyChild(t); var c' := Refresh(c, MaxOf(s));
      if t.red then RedBlack(Plug(c', s)) && MaxExact(Plug(c', s)) else Shrinking(c', s)
  {
    GraftInvariant(c, Top, t);
    GraftIntoTop(c);
    Spliced(c, t);
  }

  /** The same when the spliced node has taken the place of z, with z's colour. */
  lemma SplicedBelow(d: Ctx, c: Ctx, l: Tree, z: Node, red: bool, maxHigh: int, t: Tree)
    requires var w := Plug(c, Branch(l, z, red, maxHigh, Plug(d, t))); RedBlack(w) && MaxExact(w)
    requires t.Branch? && (t.left.Leaf? || t.right.Leaf?)
    ensures var s := OnlyChild(t); var c' := Refresh(Graft(d, InRight(c, l, t.n, red, -MAX_TIME)), MaxOf(s));
      if t.red then RedBlack(Plug(c', s)) && MaxExact(Plug(c', s)) else Shrinking(c', s)
  {
    var e := InRight(c, l, z, red, maxHigh);
    PlugGraft(d, e, t);
    GraftInvariant(Graft(d, e), Top, t);
    GraftIntoTop(Graft(d, e));
    GraftSwap(d, c, l, t.n, z, red, -MAX_TIME, maxHigh, BlackHeight(t));
    Spliced(Graft(d, InRight(c, l, t.n, red, -MAX_TIME)), t);
  }

  /** The loop invariant of deletion: the paths through the focused subtree are one black node short, and the
      focused node may be red below a red parent. */
  predicate Shrinking(c: Ctx, t: Tree) {
    Balanced(t) && NoRedRed(Blacken(t)) && CtxRedBlack(c, BlackHeight(t) + 1) && ExactAround(c, t)
  }

  lemma ShrinkingEnd(c: Ctx, t: Tree)
    requires Shrinking(c, t) && (Red(t) || c.Top?)
    ensures RedBlack(Plug(c, Blacken(t))) && MaxExact(Plug(c, Blacken(t)))
  {
    assert Balanced(Blacken(t)) && MaxExact(Blacken(t)) && MaxOf(Blacken(t)) == MaxOf(t);
    PlugRedBlack(c, Blacken(t));
    PlugExact(c, Blacken(t));
  }

  /** A black focused node that is not the topmost has a sibling. */
  lemma SiblingExists(c: Ctx, t: Tree)
    requires Shrinking(c, t) && !c.Top?
    ensures c.InLeft? ==> c.right.Branch? && (Red(c.right) ==> !c.red && c.right.left.Branch? && c.right.right.Branch?)
    ensures c.InRight? ==> c.left.Branch? && (Red(c.left) ==> !c.red && c.left.left.Branch? && c.left.right.Branch?)
  {
  }

  /** A red sibling is rotated over the parent; the focus gets a red parent and a black sibling. */
  lemma RedSiblingLeft(c: Ctx, t: Tree)
    requires Shrinking(c, t) && c.InLeft? && Red(c.right)
    ensures var r := RotateLeft(Branch(t, c.n, true, c.maxHigh, c.right.(red := false)));
      var c' := InLeft(InLeft(c.up, r.n, r.red, r.maxHigh, r.right), c.n, true, r.left.maxHigh, r.left.right);
      r.left.left == t && r.left.n == c.n && r.left.red && !Red(c'.right) && Shrinking(c', t)
  {
    ExactUp(c, t);
    RotateLeftMax(Branch(t, c.n, true, c.maxHigh, c.right.(red := false)));
  }

  lemma RedSiblingRight(c: Ctx, t: Tree)
    requires Shrinking(c, t) && c.InRight? && Red(c.left)
    ensures var r := RotateRight(Branch(c.left.(red := false), c.n, true, c.maxHigh, t));
      var c' := InRight(InRight(c.up, r.left, r.n, r.red, r.maxHigh), r.right.left, c.n, true, r.right.maxHigh);
      r.right.right == t && r.right.n == c.n && r.right.red && !Red(c'.left) && Shrinking(c', t)
  {
    ExactUp(c, t);
    RotateRightMax(Branch(c.left.(red := false), c.n, true, c.maxHigh, t));
  }

  /** A black sibling with black children turns red, and the shortage moves up. */
  lemma BlackNephewsLeft(c: Ctx, t: Tree)
    requires Shrinking(c, t) && !Red(t) && c.InLeft? && c.right.Branch? && !c.right.red
    requires !Red(c.right.left) && !Red(c.right.right)
    ensures Shrinking(c.up, Branch(t, c.n, c.red, c.maxHigh, c.right.(red := true)))
  {
    ExactUp(c, t);
  }

  lemma BlackNephewsRight(c: Ctx, t: Tree)
    requires Shrinking(c, t) && !Red(t) && c.InRight? && c.left.Branch? && !c.left.red
    requires !Red(c.left.left) && !Red(c.left.right)
    ensures Shrinking(c.up, Branch(c.left.(red := true), c.n, c.red, c.maxHigh, t))
  {
    ExactUp(c, t);
  }

  /** A red inner nephew with a black outer one is rotated outwards. */
  lemma InnerNephewLeft(c: Ctx, t: Tree)
    requires Shrinking(c, t) && c.InLeft? && c.right.Branch? && !c.right.red && Red(c.right.left) && !Red(c.right.right)
    ensures var w := RotateRight(c.right.(red := true, left := c.right.left.(red := false)));
      Shrinking(c.(right := w), t) && w.Branch? && !w.red && Red(w.right)
  {
    var x := c.right.left;
    assert Sound(x) && Sound(x.left) && Sound(x.right) && Sound(c.right.right) && Sound(x.(red := false)) &&
      MaxExact(c.right);
    RotateRightMax(c.right.(red := true, left := c.right.left.(red := false)));
    var w := RotateRight(c.right.(red := true, left := c.right.left.(red := false)));
    assert Sound(w.right);
  }

  lemma InnerNephewRight(c: Ctx, t: Tree)
    requires Shrinking(c, t) && c.InRight? && c.left.Branch? && !c.left.red && Red(c.left.right) && !Red(c.left.left)
    ensures var w := RotateLeft(c.left.(red := true, right := c.left.right.(red := false)));
      Shrinking(c.(left := w), t) && w.Branch? && !w.red && Red(w.left)
  {
    var x := c.left.right;
    assert Sound(x) && Sound(x.left) && Sound(x.right) && Sound(c.left.left) && Sound(x.(red := false)) &&
      MaxExact(c.left);
    RotateLeftMax(c.left.(red := true, right := c.left.right.(red := false)));
    var w := RotateLeft(c.left.(red := true, right := c.left.right.(red := false)));
    assert Sound(w.left) && BlackHeight(w.left) == BlackHeight(c.left.left);
  }

  /** With a red outer nephew one rotation pays the missing black node. */
  lemma OuterNephewLeft(c: Ctx, t: Tree)
    requires Shrinking(c, t) && !Red(t) && c.InLeft? && c.right.Branch? && !c.right.red && Red(c.right.right)
    ensures var w := c.right.(red := c.red, right := c.right.right.(red := false));
      var r := RotateLeft(Branch(t, c.n, false, c.maxHigh, w));
      RedBlack(Plug(c.up, r)) && MaxExact(Plug(c.up, r))
  {
    var x := c.right.right;
    assert Sound(x) && Sound(x.left) && Sound(x.right) && Sound(c.right.left) && Sound(x.(red := false));
    ExactUp(c, t);
    var w := c.right.(red := c.red, right := c.right.right.(red := false));
    var r := RotateLeft(Branch(t, c.n, false, c.maxHigh, w));
    RotateLeftMax(Branch(t, c.n, false, c.maxHigh, w));
    PlugRedBlack(c.up, r);
    PlugExact(c.up, r);
  }

  lemma OuterNephewRight(c: Ctx, t: Tree)
    requires Shrinking(c, t) && !Red(t) && c.InRight? && c.left.Branch? && !c.left.red && Red(c.left.left)
    ensures var w := c.left.(red := c.red, left := c.left.left.(red := false));
      var r := RotateRight(Branch(w, c.n, false, c.maxHigh, t));
      RedBlack(Plug(c.up, r)) && MaxExact(Plug(c.up, r))
  {
    var x := c.left.left;
    assert Sound(x) && Sound(x.left) && Sound(x.right) && Sound(c.left.right) && Sound(x.(red := false));
    ExactUp(c, t);
    var w := c.left.(red := c.red, left := c.left.left.(red := false));
    var r := RotateRight(Branch(w, c.n, false, c.maxHigh, t));
    RotateRightMax(Branch(w, c.n, false, c.maxHigh, t));
    PlugRedBlack(c.up, r);
    PlugExact(c.up, r);
  }
}
