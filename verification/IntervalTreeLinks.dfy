/** How the nodes on the heap represent a tree with a focus. A heap is first copied into a map from nodes to
    cells, so that every lemma here is about values; the class in IntervalTree.dfy takes the copies. */
module IntervalTreeLinks {
  import opened IntervalTreeShape
  import opened IntervalTreeFixup
  import opened IntervalTreeQuery

  /** The fields of a node that can change. */
  datatype Cell = Cell(left: Node?, right: Node?, parent: Node?, red: bool, maxHigh: int)

  type Heap = map<Node, Cell>

  ghost function Snap(S: set<Node>): Heap
    reads S
  {
    map n | n in S :: Cell(n.left, n.right, n.parent, n.red, n.maxHigh)
  }

  function Ref(t: Tree, nil: Node): Node { if t.Leaf? then nil else t.n }

  function Parent(c: Ctx, root: Node): Node { if c.Top? then root else c.n }

  /** The nodes of t are linked as t says, below the given parent. */
  ghost predicate Rep(m: Heap, t: Tree, parent: Node, nil: Node) {
    t.Branch? ==>
      t.n in m && m[t.n] == Cell(Ref(t.left, nil), Ref(t.right, nil), parent, t.red, t.maxHigh) &&
      Rep(m, t.left, t.n, nil) && Rep(m, t.right, t.n, nil)
  }

  /** The nodes of c are linked as c says, with child in the hole. The tree hangs off root.left. */
  ghost predicate RepCtx(m: Heap, c: Ctx, child: Node, root: Node, nil: Node) {
    match c
    case Top => root in m && m[root].left == child
    case InLeft(up, n, red, maxHigh, right) =>
      n in m && m[n] == Cell(child, Ref(right, nil), Parent(up, root), red, maxHigh) &&
      Rep(m, right, n, nil) && RepCtx(m, up, n, root, nil)
    case InRight(up, left, n, red, maxHigh) =>
      n in m && m[n] == Cell(Ref(left, nil), child, Parent(up, root), red, maxHigh) &&
      Rep(m, left, n, nil) && RepCtx(m, up, n, root, nil)
  }

  ghost predicate Sentinels(m: Heap, root: Node, nil: Node) {
    root != nil && root.storedInterval == null && nil in m && root in m &&
    m[root].right == nil && !m[root].red && m[root].parent == nil && m[nil].maxHigh == -MAX_TIME && !m[nil].red
  }

  /** The whole data structure, with the focus on the subtree t in the context c. */
  ghost predicate Linked(m: Heap, c: Ctx, t: Tree, root: Node, nil: Node) {
    Sentinels(m, root, nil) && {root, nil} !! CtxNodes(c) + Nodes(t) &&
    Distinct(t) && DistinctCtx(c) && CtxNodes(c) !! Nodes(t) &&
    Rep(m, t, Parent(c, root), nil) && RepCtx(m, c, Ref(t, nil), root, nil)
  }

  // ----- Frames ------------------------------------------------------------

  lemma RepFrame(m: Heap, m': Heap, t: Tree, parent: Node, nil: Node)
    requires Rep(m, t, parent, nil)
    requires forall n :: n in Nodes(t) && n in m ==> n in m' && m'[n] == m[n]
    ensures Rep(m', t, parent, nil)
  {
  }

  lemma RepReparent(m: Heap, m': Heap, t: Tree, parent: Node, parent': Node, nil: Node)
    requires Rep(m, t, parent, nil) && Distinct(t)
    requires forall n :: n in Nodes(t) && n != Ref(t, nil) && n in m ==> n in m' && m'[n] == m[n]
    requires t.Branch? ==> t.n in m' && m'[t.n] == m[t.n].(parent := parent')
    ensures Rep(m', t, parent', nil)
  {
    if t.Branch? {
      RepFrame(m, m', t.left, t.n, nil);
      RepFrame(m, m', t.right, t.n, nil);
    }
  }

  lemma RepCtxFrame(m: Heap, m': Heap, c: Ctx, child: Node, root: Node, nil: Node)
    requires RepCtx(m, c, child, root, nil) && root in m && root in m'
    requires m'[root].left == m[root].left
    requires forall n :: n in CtxNodes(c) && n in m ==> n in m' && m'[n] == m[n]
    ensures RepCtx(m', c, child, root, nil)
  {
    match c
    case Top =>
    case InLeft(up, n, _, _, right) => RepFrame(m, m', right, n, nil); RepCtxFrame(m, m', up, n, root, nil);
    case InRight(up, left, n, _, _) => RepFrame(m, m', left, n, nil); RepCtxFrame(m, m', up, n, root, nil);
  }

  function ReplaceChild(cell: Cell, child: Node, child': Node): Cell {
    if cell.left == child then cell.(left := child') else cell.(right := child')
  }

  /** The parent's cell with another child in the hole of c. */
  function SetHole(c: Ctx, cell: Cell, child: Node): Cell {
    if c.InRight? then cell.(right := child) else cell.(left := child)
  }

  lemma RepCtxSetHole(m: Heap, m': Heap, c: Ctx, child: Node, child': Node, root: Node, nil: Node)
    requires RepCtx(m, c, child, root, nil) && DistinctCtx(c) && root !in CtxNodes(c) && root in m && root in m'
    requires Parent(c, root) in m && Parent(c, root) in m'
    requires m'[Parent(c, root)] == SetHole(c, m[Parent(c, root)], child')
    requires c.Top? || m'[root] == m[root]
    requires forall n :: n in CtxNodes(c) && n != Parent(c, root) && n in m ==> n in m' && m'[n] == m[n]
    ensures RepCtx(m', c, child', root, nil)
  {
    match c
    case Top =>
    case InLeft(up, n, _, _, right) =>
      RepFrame(m, m', right, n, nil);
      RepCtxFrame(m, m', up, n, root, nil);
    case InRight(up, left, n, _, _) =>
      RepFrame(m, m', left, n, nil);
      RepCtxFrame(m, m', up, n, root, nil);
  }

  /** A node in the hole is found by comparing it with the parent's left child. */
  lemma HoleOfChild(m: Heap, c: Ctx, t: Tree, child': Node, root: Node, nil: Node)
    requires Linked(m, c, t, root, nil) && (t.Branch? || c.InLeft? || c.Top? || c.left.Branch?)
    ensures Parent(c, root) in m && m[Parent(c, root)].left == Ref(t, nil) <==> !c.InRight?
    ensures ReplaceChild(m[Parent(c, root)], Ref(t, nil), child') == SetHole(c, m[Parent(c, root)], child')
  {
  }

  /** A new node in an empty hole. */
  lemma LinkedAttach(m: Heap, m': Heap, c: Ctx, z: Node, red: bool, root: Node, nil: Node)
    requires Linked(m, c, Leaf, root, nil) && z !in m && m'.Keys == m.Keys + {z}
    requires m'[z] == Cell(nil, nil, Parent(c, root), red, z.high) && CtxNodes(c) <= m.Keys
    requires Parent(c, root) in m && m'[Parent(c, root)] == SetHole(c, m[Parent(c, root)], z)
    requires forall n :: n in m && n != Parent(c, root) ==> m'[n] == m[n]
    ensures Linked(m', c, Branch(Leaf, z, red, z.high, Leaf), root, nil)
  {
    ParentInHeap(m, c, nil, root, nil);
    RepCtxSetHole(m, m', c, nil, z, root, nil);
  }

  lemma RefInHeap(m: Heap, t: Tree, parent: Node, nil: Node)
    requires Rep(m, t, parent, nil) && nil in m && m[nil].maxHigh == -MAX_TIME && !m[nil].red
    ensures Ref(t, nil) in m && m[Ref(t, nil)].maxHigh == MaxOf(t) && m[Ref(t, nil)].red == Red(t)
    ensures Ref(t, nil) == nil || Ref(t, nil) in Nodes(t)
  {
  }

  lemma ParentInHeap(m: Heap, c: Ctx, child: Node, root: Node, nil: Node)
    requires RepCtx(m, c, child, root, nil)
    ensures Parent(c, root) in m && (Parent(c, root) == root || Parent(c, root) in CtxNodes(c))
    ensures m[Parent(c, root)].left == child || m[Parent(c, root)].right == child
  {
  }

  /** The focused node's own cell. */
  lemma ParentLink(m: Heap, c: Ctx, t: Tree, root: Node, nil: Node)
    requires Linked(m, c, t, root, nil) && t.Branch?
    ensures t.n in m && m[t.n].parent == Parent(c, root) && m[t.n].left == Ref(t.left, nil) &&
      m[t.n].right == Ref(t.right, nil)
    ensures m[t.n].red == t.red && Parent(c, root) in m && m[Parent(c, root)].red == RedCtx(c)
  {
    ParentInHeap(m, c, t.n, root, nil);
  }

  /** What the insertion loop reads before it writes. */
  lemma InsertWindow(m: Heap, c: Ctx, t: Tree, root: Node, nil: Node)
    requires Linked(m, c, t, root, nil) && t.Branch? && !c.Top? && !c.up.Top?
    ensures t.n in m && m[t.n].parent == c.n && c.n in m && m[c.n].parent == c.up.n && c.up.n in m
    ensures m[c.n].red == c.red && m[c.up.n].red == c.up.red
    ensures m[c.n].left == t.n <==> c.InLeft?
    ensures m[c.n].right == t.n <==> c.InRight?
    ensures m[c.up.n].left == c.n <==> c.up.InLeft?
    ensures c.up.InLeft? ==>
      m[c.up.n].right == Ref(c.up.right, nil) && Ref(c.up.right, nil) in m &&
      m[Ref(c.up.right, nil)].red == Red(c.up.right)
    ensures c.up.InRight? ==>
      m[c.up.n].left == Ref(c.up.left, nil) && Ref(c.up.left, nil) in m &&
      m[Ref(c.up.left, nil)].red == Red(c.up.left)
    ensures c.up.InLeft? && c.up.right.Branch? ==> Ref(c.up.right, nil) == c.up.right.n
  {
    LinkedUp(m, c, t, root, nil);
    var p := if c.InLeft? then Branch(t, c.n, c.red, c.maxHigh, c.right) else Branch(c.left, c.n, c.red, c.maxHigh, t);
    assert Linked(m, c.up, p, root, nil);
    if c.up.InLeft? {
      RefInHeap(m, c.up.right, c.up.n, nil);
    } else {
      RefInHeap(m, c.up.left, c.up.n, nil);
    }
  }

  /** x points to the focused subtree, and even an empty one knows its parent. */
  ghost predicate At(m: Heap, x: Node, c: Ctx, t: Tree, root: Node, nil: Node) {
    x == Ref(t, nil) && x in m && m[x].parent == Parent(c, root)
  }

  /** What the deletion loop reads before it writes. */
  lemma DeleteWindow(m: Heap, c: Ctx, t: Tree, x: Node, root: Node, nil: Node)
    requires Linked(m, c, t, root, nil) && !c.Top?
    requires if c.InLeft? then c.right.Branch? else c.left.Branch?
    ensures c.n in m && m[c.n].red == c.red && m[c.n].left == (if c.InLeft? then Ref(t, nil) else c.left.n)
    ensures m[c.n].right == if c.InLeft? then c.right.n else Ref(t, nil)
    ensures t.Branch? ==> t.n in m && m[t.n].parent == c.n
    ensures var w := if c.InLeft? then c.right else c.left;
      w.n in m && m[w.n].red == w.red && m[w.n].left == Ref(w.left, nil) && m[w.n].right == Ref(w.right, nil) &&
      Ref(w.left, nil) in m && m[Ref(w.left, nil)].red == Red(w.left) &&
      Ref(w.right, nil) in m && m[Ref(w.right, nil)].red == Red(w.right)
  {
    var w := if c.InLeft? then c.right else c.left;
    assert Rep(m, w, c.n, nil);
    RefInHeap(m, w.left, w.n, nil);
    RefInHeap(m, w.right, w.n, nil);
  }

  /** The topmost node of a tree plugged into a context that is not empty. */
  function TopNode(c: Ctx): Node
    requires !c.Top?
  {
    if c.up.Top? then c.n else TopNode(c.up)
  }

  lemma {:induction false} TopNodeIsTop(c: Ctx, t: Tree, nil: Node)
    ensures Ref(Plug(c, t), nil) == if c.Top? then Ref(t, nil) else TopNode(c)
    ensures !c.Top? || t.Branch? ==> Plug(c, t).Branch?
  {
    match c
    case Top =>
    case InLeft(up, n, red, maxHigh, right) => TopNodeIsTop(up, Branch(t, n, red, maxHigh, right), nil);
    case InRight(up, left, n, red, maxHigh) => TopNodeIsTop(up, Branch(left, n, red, maxHigh, t), nil);
  }

  /** A focused subtree with the topmost node is the whole tree. */
  lemma AloneAtTop(m: Heap, c: Ctx, t: Tree, root: Node, nil: Node)
    requires Linked(m, c, t, root, nil) && Ref(t, nil) == Ref(Plug(c, t), nil)
    ensures c.Top?
  {
    TopNodeIsTop(c, t, nil);
    if !c.Top? {
      TopNodeInside(c);
    }
  }

  lemma TopNodeInside(c: Ctx)
    requires !c.Top?
    ensures TopNode(c) in CtxNodes(c)
  {
  }

  // ----- Moving the focus ----------------------------------------------------

  lemma LinkedUp(m: Heap, c: Ctx, t: Tree, root: Node, nil: Node)
    requires Linked(m, c, t, root, nil) && !c.Top?
    ensures c.InLeft? ==> Linked(m, c.up, Branch(t, c.n, c.red, c.maxHigh, c.right), root, nil)
    ensures c.InRight? ==> Linked(m, c.up, Branch(c.left, c.n, c.red, c.maxHigh, t), root, nil)
  {
  }

  lemma LinkedDownLeft(m: Heap, c: Ctx, t: Tree, root: Node, nil: Node)
    requires Linked(m, c, t, root, nil) && t.Branch?
    ensures Linked(m, InLeft(c, t.n, t.red, t.maxHigh, t.right), t.left, root, nil)
  {
  }

  lemma LinkedDownRight(m: Heap, c: Ctx, t: Tree, root: Node, nil: Node)
    requires Linked(m, c, t, root, nil) && t.Branch?
    ensures Linked(m, InRight(c, t.left, t.n, t.red, t.maxHigh), t.right, root, nil)
  {
  }

  /** The subtree on the other side of the focused one's parent. */
  function Sibling(c: Ctx): Tree
    requires !c.Top?
  {
    if c.InLeft? then c.right else c.left
  }

  function WithSibling(c: Ctx, w: Tree): Ctx
    requires !c.Top?
  {
    if c.InLeft? then c.(right := w) else c.(left := w)
  }

  function WithRed(c: Ctx, value: bool): Ctx
    requires !c.Top?
  {
    match c
    case InLeft(up, n, _, maxHigh, right) => InLeft(up, n, value, maxHigh, right)
    case InRight(up, left, n, _, maxHigh) => InRight(up, left, n, value, maxHigh)
  }

  /** The context of the sibling. */
  function Turn(c: Ctx, t: Tree): Ctx
    requires !c.Top?
  {
    if c.InLeft? then InRight(c.up, t, c.n, c.red, c.maxHigh) else InLeft(c.up, c.n, c.red, c.maxHigh, t)
  }

  lemma LinkedTurn(m: Heap, c: Ctx, t: Tree, root: Node, nil: Node)
    requires Linked(m, c, t, root, nil) && !c.Top?
    ensures Linked(m, Turn(c, t), Sibling(c), root, nil)
  {
    LinkedUp(m, c, t, root, nil);
    if c.InLeft? {
      LinkedDownRight(m, c.up, Branch(t, c.n, c.red, c.maxHigh, c.right), root, nil);
    } else {
      LinkedDownLeft(m, c.up, Branch(c.left, c.n, c.red, c.maxHigh, t), root, nil);
    }
  }

  lemma {:induction false} LinkedGraft(m: Heap, d: Ctx, c: Ctx, t: Tree, root: Node, nil: Node)
    requires Linked(m, c, Plug(d, t), root, nil)
    ensures Linked(m, Graft(d, c), t, root, nil)
  {
    match d
    case Top =>
    case InLeft(up, n, red, maxHigh, right) =>
      var s := Branch(t, n, red, maxHigh, right);
      LinkedGraft(m, up, c, s, root, nil);
      LinkedDownLeft(m, Graft(up, c), s, root, nil);
    case InRight(up, left, n, red, maxHigh) =>
      var s := Branch(left, n, red, maxHigh, t);
      LinkedGraft(m, up, c, s, root, nil);
      LinkedDownRight(m, Graft(up, c), s, root, nil);
  }

  lemma {:induction false} LinkedUngraft(m: Heap, d: Ctx, c: Ctx, t: Tree, root: Node, nil: Node)
    requires Linked(m, Graft(d, c), t, root, nil)
    ensures Linked(m, c, Plug(d, t), root, nil)
  {
    match d
    case Top =>
    case InLeft(up, n, red, maxHigh, right) =>
      LinkedUp(m, Graft(d, c), t, root, nil);
      LinkedUngraft(m, up, c, Branch(t, n, red, maxHigh, right), root, nil);
    case InRight(up, left, n, red, maxHigh) =>
      LinkedUp(m, Graft(d, c), t, root, nil);
      LinkedUngraft(m, up, c, Branch(left, n, red, maxHigh, t), root, nil);
  }

  /** The repair ends at the subtree r: the whole tree is linked, and its topmost node and those below r are as they
      say. */
  lemma RepairedTop(m: Heap, up: Ctx, r: Tree, root: Node, nil: Node)
    requires Linked(m, up, r, root, nil) && r.Branch?
    ensures Linked(m, Top, Plug(up, r), root, nil)
    ensures r.left.Branch? ==> r.left.n in m && m[r.left.n].red == r.left.red
    ensures r.right.Branch? ==> r.right.n in m && m[r.right.n].red == r.right.red
    ensures Plug(up, r).Branch?
    ensures !up.Top? ==>
      Ref(Plug(up, r), nil) == TopNode(up) && TopNode(up) in m &&
      m[TopNode(up)].red == Plug(up, r).red
  {
    hide Linked;
    if r.left.Branch? {
      LinkedDownLeft(m, up, r, root, nil);
      ParentLink(m, InLeft(up, r.n, r.red, r.maxHigh, r.right), r.left, root, nil);
    }
    if r.right.Branch? {
      LinkedDownRight(m, up, r, root, nil);
      ParentLink(m, InRight(up, r.left, r.n, r.red, r.maxHigh), r.right, root, nil);
    }
    GraftIntoTop(up);
    LinkedUngraft(m, up, Top, r, root, nil);
    TopNodeIsTop(up, r, nil);
    ParentLink(m, Top, Plug(up, r), root, nil);
  }

  // ----- One field of the focused node -------------------------------------------

  /** Colour and augmentation of the focused node do not take part in the links. */
  lemma LinkedRecolour(m: Heap, m': Heap, c: Ctx, t: Tree, red: bool, maxHigh: int, root: Node, nil: Node)
    requires Linked(m, c, t, root, nil) && t.Branch?
    requires m' == m[t.n := m[t.n].(red := red, maxHigh := maxHigh)]
    ensures Linked(m', c, t.(red := red, maxHigh := maxHigh), root, nil) && m'[nil] == m[nil]
  {
    RepFrame(m, m', t.left, t.n, nil);
    RepFrame(m, m', t.right, t.n, nil);
    RepCtxFrame(m, m', c, t.n, root, nil);
  }

  // ----- Rotations ------------------------------------------------------------

  /** The nodes a rotation about x and its child y reads or writes, told apart where it matters: b is the
      subtree that changes sides, a and d stay with x and y, and p is the parent. */
  ghost predicate RotationNodes(m: Heap, x: Node, y: Node, a: Node, b: Node, d: Node, p: Node, nil: Node) {
    x in m && y in m && a in m && b in m && d in m && p in m &&
    x != y && x != p && y != p && x != nil && y != nil && p != nil && b != x && b != y && b != p &&
    a != x && a != y && d != x && d != y
  }

  ghost predicate LeftRotated(m: Heap, m': Heap, x: Node, y: Node, a: Node, b: Node, d: Node, p: Node, nil: Node)
    requires RotationNodes(m, x, y, a, b, d, p, nil)
  {
    var xMax := Max(m[a].maxHigh, Max(m[b].maxHigh, x.high));
    OnlyWindow(m, m', x, y, b, p, nil) &&
    m'[x] == m[x].(right := b, parent := y, maxHigh := xMax) &&
    m'[y] == m[y].(left := x, parent := p, maxHigh := Max(xMax, Max(m[d].maxHigh, y.high))) &&
    m'[p] == ReplaceChild(m[p], x, y) &&
    (b != nil ==> m'[b] == m[b].(parent := x))
  }

  ghost predicate RightRotated(m: Heap, m': Heap, y: Node, x: Node, d: Node, b: Node, a: Node, p: Node, nil: Node)
    requires RotationNodes(m, y, x, d, b, a, p, nil)
  {
    var yMax := Max(m[b].maxHigh, Max(m[d].maxHigh, y.high));
    OnlyWindow(m, m', x, y, b, p, nil) &&
    m'[y] == m[y].(left := b, parent := x, maxHigh := yMax) &&
    m'[x] == m[x].(right := y, parent := p, maxHigh := Max(m[a].maxHigh, Max(yMax, x.high))) &&
    m'[p] == ReplaceChild(m[p], y, x) &&
    (b != nil ==> m'[b] == m[b].(parent := y))
  }

  /** A subtree that no write of a rotation reaches. */
  ghost predicate Untouched(t: Tree, x: Node, y: Node, b: Node, p: Node) {
    x !in Nodes(t) && y !in Nodes(t) && b !in Nodes(t) && p !in Nodes(t)
  }

  /** Nothing changes but four nodes of the window. */
  ghost predicate OnlyWindow(m: Heap, m': Heap, x: Node, y: Node, b: Node, p: Node, nil: Node) {
    m'.Keys == m.Keys && forall n :: n in m && n != x && n != y && n != p && (n != b || b == nil) ==> m'[n] == m[n]
  }

  lemma OuterSubtree(m: Heap, m': Heap, t: Tree, x: Node, y: Node, b: Node, p: Node, parent: Node, nil: Node)
    requires OnlyWindow(m, m', x, y, b, p, nil) && Untouched(t, x, y, b, p)
    requires Rep(m, t, parent, nil)
    ensures Rep(m', t, parent, nil)
  {
    RepFrame(m, m', t, parent, nil);
  }

  lemma InnerSubtree(m: Heap, m': Heap, b: Tree, x: Node, y: Node, p: Node, nil: Node)
    requires OnlyWindow(m, m', x, y, Ref(b, nil), p, nil) && (b.Branch? ==> b.n in m && m'[b.n] == m[b.n].(parent := x))
    requires Rep(m, b, y, nil) && Distinct(b) && x !in Nodes(b) && y !in Nodes(b) && p !in Nodes(b)
    ensures Rep(m', b, x, nil)
  {
    RepReparent(m, m', b, y, x, nil);
  }

  lemma RotateLeftDistinct(t: Tree)
    requires Distinct(t) && t.Branch? && t.right.Branch?
    ensures Distinct(RotateLeft(t)) && Nodes(RotateLeft(t)) == Nodes(t)
  {
    assert Distinct(t.right) && Distinct(t.right.left);
    assert Distinct(RotateLeft(t).left);
  }

  lemma RotateRightDistinct(t: Tree)
    requires Distinct(t) && t.Branch? && t.left.Branch?
    ensures Distinct(RotateRight(t)) && Nodes(RotateRight(t)) == Nodes(t)
  {
    assert Distinct(t.left) && Distinct(t.left.right);
    assert Distinct(RotateRight(t).right);
  }

  lemma LeftRotateNodes(m: Heap, c: Ctx, t: Tree, root: Node, nil: Node)
    requires Linked(m, c, t, root, nil) && t.Branch? && t.right.Branch?
    ensures RotationNodes(m, t.n, t.right.n, Ref(t.left, nil), Ref(t.right.left, nil), Ref(t.right.right, nil),
      Parent(c, root), nil)
    ensures m[t.n].left == Ref(t.left, nil) && m[t.n].right == t.right.n && m[t.n].parent == Parent(c, root)
    ensures m[t.right.n].left == Ref(t.right.left, nil) && m[t.right.n].right == Ref(t.right.right, nil)
  {
    assert Distinct(t.right) && Rep(m, t.right, t.n, nil);
    RefInHeap(m, t.left, t.n, nil);
    RefInHeap(m, t.right.left, t.right.n, nil);
    RefInHeap(m, t.right.right, t.right.n, nil);
    ParentInHeap(m, c, t.n, root, nil);
  }

  lemma RightRotateNodes(m: Heap, c: Ctx, t: Tree, root: Node, nil: Node)
    requires Linked(m, c, t, root, nil) && t.Branch? && t.left.Branch?
    ensures RotationNodes(m, t.n, t.left.n, Ref(t.right, nil), Ref(t.left.right, nil), Ref(t.left.left, nil),
      Parent(c, root), nil)
    ensures m[t.n].right == Ref(t.right, nil) && m[t.n].left == t.left.n && m[t.n].parent == Parent(c, root)
    ensures m[t.left.n].left == Ref(t.left.left, nil) && m[t.left.n].right == Ref(t.left.right, nil)
  {
    assert Distinct(t.left) && Rep(m, t.left, t.n, nil);
    RefInHeap(m, t.right, t.n, nil);
    RefInHeap(m, t.left.left, t.left.n, nil);
    RefInHeap(m, t.left.right, t.left.n, nil);
    ParentInHeap(m, c, t.n, root, nil);
  }

  /** The rotated subtree is linked. */
  lemma LeftRotateSubtree(m: Heap, m': Heap, t: Tree, p: Node, nil: Node)
    requires Rep(m, t, p, nil) && Distinct(t) && t.Branch? && t.right.Branch? && p !in Nodes(t) && nil !in Nodes(t)
    requires nil in m && m[nil].maxHigh == -MAX_TIME && !m[nil].red
    requires RotationNodes(m, t.n, t.right.n, Ref(t.left, nil), Ref(t.right.left, nil), Ref(t.right.right, nil), p, nil)
    requires LeftRotated(m, m', t.n, t.right.n, Ref(t.left, nil), Ref(t.right.left, nil), Ref(t.right.right, nil), p,
      nil)
    ensures Rep(m', RotateLeft(t), p, nil)
  {
    var x, y, a, b, d := t.n, t.right.n, t.left, t.right.left, t.right.right;
    assert Distinct(t.right) && Rep(m, t.right, x, nil);
    RefInHeap(m, a, x, nil);
    RefInHeap(m, b, y, nil);
    RefInHeap(m, d, y, nil);
    OuterSubtree(m, m', a, x, y, Ref(b, nil), p, x, nil);
    OuterSubtree(m, m', d, x, y, Ref(b, nil), p, y, nil);
    InnerSubtree(m, m', b, x, y, p, nil);
    assert Rep(m', RotateLeft(t).left, y, nil);
  }

  lemma RightRotateSubtree(m: Heap, m': Heap, t: Tree, p: Node, nil: Node)
    requires Rep(m, t, p, nil) && Distinct(t) && t.Branch? && t.left.Branch? && p !in Nodes(t) && nil !in Nodes(t)
    requires nil in m && m[nil].maxHigh == -MAX_TIME && !m[nil].red
    requires RotationNodes(m, t.n, t.left.n, Ref(t.right, nil), Ref(t.left.right, nil), Ref(t.left.left, nil), p, nil)
    requires RightRotated(m, m', t.n, t.left.n, Ref(t.right, nil), Ref(t.left.right, nil), Ref(t.left.left, nil), p,
      nil)
    ensures Rep(m', RotateRight(t), p, nil)
  {
    var y, x, a, b, d := t.n, t.left.n, t.left.left, t.left.right, t.right;
    assert Distinct(t.left) && Rep(m, t.left, y, nil);
    RefInHeap(m, a, x, nil);
    RefInHeap(m, b, x, nil);
    RefInHeap(m, d, y, nil);
    OuterSubtree(m, m', a, x, y, Ref(b, nil), p, x, nil);
    OuterSubtree(m, m', d, x, y, Ref(b, nil), p, y, nil);
    InnerSubtree(m, m', b, y, x, p, nil);
    assert Rep(m', RotateRight(t).right, x, nil);
  }

  lemma InnerNodes(s: Tree, t: Tree, nil: Node)
    requires t.Branch? && s.Branch? && (s == t.left || s == t.right)
    ensures s.n in Nodes(t) && t.n in Nodes(t)
    ensures Ref(s.left, nil) == nil || Ref(s.left, nil) in Nodes(t)
    ensures Ref(s.right, nil) == nil || Ref(s.right, nil) in Nodes(t)
  {
    assert s.n in Nodes(s) && Nodes(s.left) <= Nodes(s) && Nodes(s.right) <= Nodes(s);
  }

  lemma LeftRotateTree(m: Heap, m': Heap, c: Ctx, t: Tree, root: Node, nil: Node)
    requires Linked(m, c, t, root, nil) && t.Branch? && t.right.Branch?
    requires RotationNodes(m, t.n, t.right.n, Ref(t.left, nil), Ref(t.right.left, nil), Ref(t.right.right, nil),
      Parent(c, root), nil)
    requires LeftRotated(m, m', t.n, t.right.n, Ref(t.left, nil), Ref(t.right.left, nil), Ref(t.right.right, nil),
      Parent(c, root), nil)
    ensures Linked(m', c, RotateLeft(t), root, nil) && m'[nil] == m[nil]
  {
    InnerNodes(t.right, t, nil);
    hide Rep, Distinct, DistinctCtx;
    ParentInHeap(m, c, t.n, root, nil);
    LeftRotateSubtree(m, m', t, Parent(c, root), nil);
    HoleOfChild(m, c, t, t.right.n, root, nil);
    RepCtxSetHole(m, m', c, t.n, t.right.n, root, nil);
    RotateLeftDistinct(t);
  }

  lemma RightRotateTree(m: Heap, m': Heap, c: Ctx, t: Tree, root: Node, nil: Node)
    requires Linked(m, c, t, root, nil) && t.Branch? && t.left.Branch?
    requires RotationNodes(m, t.n, t.left.n, Ref(t.right, nil), Ref(t.left.right, nil), Ref(t.left.left, nil),
      Parent(c, root), nil)
    requires RightRotated(m, m', t.n, t.left.n, Ref(t.right, nil), Ref(t.left.right, nil), Ref(t.left.left, nil),
      Parent(c, root), nil)
    ensures Linked(m', c, RotateRight(t), root, nil) && m'[nil] == m[nil]
  {
    InnerNodes(t.left, t, nil);
    hide Rep, Distinct, DistinctCtx;
    ParentInHeap(m, c, t.n, root, nil);
    RightRotateSubtree(m, m', t, Parent(c, root), nil);
    HoleOfChild(m, c, t, t.left.n, root, nil);
    RepCtxSetHole(m, m', c, t.n, t.left.n, root, nil);
    RotateRightDistinct(t);
  }

  lemma SameParent(c: Ctx, m: int, root: Node)
    ensures Parent(Refresh(c, m), root) == Parent(c, root)
  {
  }

  /** Recomputing the maxima and the colour at the seam moves no node. */
  lemma ReplacedSeam(d: Ctx, c: Ctx, l: Tree, y: Node, red: bool, red': bool, t: Tree, root: Node)
    ensures var e, e' := Graft(d, InRight(c, l, y, red, -MAX_TIME)), Graft(d, InRight(c, l, y, red', -MAX_TIME));
      var c' := Refresh(e', MaxOf(t));
      Parent(c', root) == Parent(e', root) == Parent(e, root) == Parent(Refresh(e, MaxOf(t)), root) &&
      Inorder(Plug(c', t)) == Before(e) + Inorder(t) + After(e)
  {
    var e, e' := Graft(d, InRight(c, l, y, red, -MAX_TIME)), Graft(d, InRight(c, l, y, red', -MAX_TIME));
    GraftOrder(d, InRight(c, l, y, red, -MAX_TIME));
    GraftOrder(d, InRight(c, l, y, red', -MAX_TIME));
    SameParent(e, MaxOf(t), root);
    SameParent(e', MaxOf(t), root);
    RefreshKeeps(e', MaxOf(t));
    PlugInorder(Refresh(e', MaxOf(t)), t);
  }

  lemma SeamParent(d: Ctx, b: Ctx, b': Ctx, t: Tree, root: Node)
    requires !b.Top? && !b'.Top?
    ensures Parent(Graft(d, b), root) == if d.Top? then b.n else d.n
    ensures Parent(Graft(d, b'), root) == if d.Top? then b'.n else d.n
    ensures Plug(d, t).Leaf? <==> d.Top? && t.Leaf?
  {
    TopNodeIsTop(d, t, root);
  }

  /** From the hole of d to the node at the seam, and back. */
  lemma SeamUp(m: Heap, d: Ctx, c: Ctx, t: Tree, s: Tree, root: Node, nil: Node)
    requires t.Branch? && Linked(m, Graft(d, InRight(c, t.left, t.n, t.red, t.maxHigh)), s, root, nil)
    ensures Linked(m, c, t.(right := Plug(d, s)), root, nil) && Nodes(Plug(d, s)) == CtxNodes(d) + Nodes(s)
  {
    LinkedUngraft(m, d, InRight(c, t.left, t.n, t.red, t.maxHigh), s, root, nil);
    LinkedUp(m, InRight(c, t.left, t.n, t.red, t.maxHigh), Plug(d, s), root, nil);
    PlugNodes(d, s);
  }

  lemma SeamDown(m: Heap, m': Heap, d: Ctx, c: Ctx, t: Tree, z: Node, s: Tree, root: Node, nil: Node)
    requires t.Branch? && t.right == Plug(d, s) && Linked(m, c, t, root, nil)
    requires z !in CtxNodes(c) && z !in Nodes(t) && z !in {root, nil}
    requires forall n :: n in m && n != z ==> n in m' && m'[n] == m[n]
    requires s.Leaf? ==> m[nil].parent == if d.Top? then t.n else d.n
    ensures var e := Graft(d, InRight(c, t.left, t.n, t.red, t.maxHigh));
      Linked(m', e, s, root, nil) && At(m', Ref(s, nil), e, s, root, nil)
  {
    var b := InRight(c, t.left, t.n, t.red, t.maxHigh);
    LinkedFrame(m, m', c, t, root, nil);
    LinkedDownRight(m', c, t, root, nil);
    LinkedGraft(m', d, b, s, root, nil);
    SeamParent(d, b, b, s, root);
    if s.Branch? {
      ParentLink(m', Graft(d, b), s, root, nil);
    }
  }

  /** The colour of the node at the seam can be read off the heap. */
  lemma SeamRed(m: Heap, d: Ctx, b: Ctx, t: Tree, root: Node, nil: Node)
    requires Linked(m, Graft(d, b), t, root, nil) && !b.Top?
    ensures b.n in m && m[b.n].red == b.red
  {
    LinkedUngraft(m, d, b, t, root, nil);
  }

  /** A subtree's node has the subtree's links. */
  lemma RepSubtree(m: Heap, t: Tree, parent: Node, s: Tree, nil: Node)
    requires Rep(m, t, parent, nil) && Subtree(s, t) && s.Branch?
    ensures s.n in m && m[s.n].left == Ref(s.left, nil) && m[s.n].right == Ref(s.right, nil) && s.n in Nodes(t)
    ensures Rep(m, s.left, s.n, nil)
  {
    if s != t {
      if Subtree(s, t.left) {
        RepSubtree(m, t.left, t.n, s, nil);
      } else {
        RepSubtree(m, t.right, t.n, s, nil);
      }
    }
  }

  // ----- Deletion and reading ---------------------------------------------------

  lemma ChildSide(m: Heap, c: Ctx, t: Tree, root: Node, nil: Node)
    requires Linked(m, c, t, root, nil) && t.Branch?
    ensures Parent(c, root) in m && Parent(c, root) != nil
    ensures m[Parent(c, root)].right == t.n <==> c.InRight?
    ensures m[Parent(c, root)].left == t.n <==> !c.InRight?
  {
    ParentInHeap(m, c, t.n, root, nil);
  }

  /** Every node has a place. */
  lemma {:induction false} Focus(c: Ctx, t: Tree, z: Node) returns (c': Ctx, t': Tree)
    requires z in Nodes(t)
    ensures Plug(c', t') == Plug(c, t) && t'.Branch? && t'.n == z
    decreases t
  {
    if z == t.n {
      c', t' := c, t;
    } else if z in Nodes(t.left) {
      c', t' := Focus(InLeft(c, t.n, t.red, t.maxHigh, t.right), t.left, z);
    } else {
      c', t' := Focus(InRight(c, t.left, t.n, t.red, t.maxHigh), t.right, z);
    }
  }

  lemma LinkedFocus(m: Heap, c: Ctx, t: Tree, root: Node, nil: Node)
    requires Linked(m, Top, Plug(c, t), root, nil)
    ensures Linked(m, c, t, root, nil)
  {
    GraftIntoTop(c);
    LinkedGraft(m, c, Top, t, root, nil);
  }

  lemma LinkedWhole(m: Heap, c: Ctx, t: Tree, root: Node, nil: Node)
    requires Linked(m, c, t, root, nil)
    ensures Linked(m, Top, Plug(c, t), root, nil)
  {
    GraftIntoTop(c);
    LinkedUngraft(m, c, Top, t, root, nil);
  }

  /** Only the cells of the tree and the sentinels matter. */
  lemma LinkedFrame(m: Heap, m': Heap, c: Ctx, t: Tree, root: Node, nil: Node)
    requires Linked(m, c, t, root, nil) && root in m' && nil in m' && m'[root] == m[root] && m'[nil] == m[nil]
    requires forall n :: n in m && (n in Nodes(t) || n in CtxNodes(c)) ==> n in m' && m'[n] == m[n]
    ensures Linked(m', c, t, root, nil)
  {
    RepFrame(m, m', t, Parent(c, root), nil);
    RepCtxFrame(m, m', c, Ref(t, nil), root, nil);
  }

  /** What DeleteNode reads around the node it takes out. */
  lemma SpliceWindow(m: Heap, c: Ctx, t: Tree, root: Node, nil: Node)
    requires Linked(m, c, t, root, nil) && t.Branch?
    ensures var p, l, r := Parent(c, root), Ref(t.left, nil), Ref(t.right, nil);
      t.n in m && p in m && l in m && r in m &&
      m[t.n].left == l && m[t.n].right == r && m[t.n].parent == p && (l == nil <==> t.left.Leaf?) &&
        (r == nil <==> t.right.Leaf?) &&
      (m[p].left == t.n <==> !c.InRight?) && (p == root <==> c.Top?) && p != nil && p != t.n && p != l && p != r &&
      t.n != nil && t.n != l && t.n != r
  {
    ChildSide(m, c, t, root, nil);
    RefInHeap(m, t.left, t.n, nil);
    RefInHeap(m, t.right, t.n, nil);
    ParentInHeap(m, c, t.n, root, nil);
  }

  lemma LinkedSplice(m: Heap, m': Heap, c: Ctx, t: Tree, root: Node, nil: Node)
    requires Linked(m, c, t, root, nil) && t.Branch? && (t.left.Leaf? || t.right.Leaf?) && m'.Keys == m.Keys
    requires Ref(OnlyChild(t), nil) in m && Parent(c, root) in m
    requires m'[Ref(OnlyChild(t), nil)] == m[Ref(OnlyChild(t), nil)].(parent := Parent(c, root))
    requires m'[Parent(c, root)] == SetHole(c, m[Parent(c, root)], Ref(OnlyChild(t), nil))
    requires forall n :: n in m && n != Parent(c, root) && n != Ref(OnlyChild(t), nil) ==> m'[n] == m[n]
    ensures Linked(m', c, OnlyChild(t), root, nil) && At(m', Ref(OnlyChild(t), nil), c, OnlyChild(t), root, nil)
  {
    var s := OnlyChild(t);
    ParentInHeap(m, c, t.n, root, nil);
    RepReparent(m, m', s, t.n, Parent(c, root), nil);
    RepCtxSetHole(m, m', c, t.n, Ref(s, nil), root, nil);
  }

  /** Node y, which is not in the tree, takes the place of z. */
  lemma LinkedReplace(m: Heap, m': Heap, c: Ctx, t: Tree, y: Node, root: Node, nil: Node)
    requires Linked(m, c, t, root, nil) && t.Branch? && t.left.Branch? && m'.Keys == m.Keys
    requires y in m && y != root && y != nil && y !in CtxNodes(c) && y !in Nodes(t)
    requires t.left.n in m && Ref(t.right, nil) in m && Parent(c, root) in m
    requires m'[y] == Cell(t.left.n, Ref(t.right, nil), Parent(c, root), m[y].red, -MAX_TIME)
    requires m'[t.left.n] == m[t.left.n].(parent := y) && m'[Ref(t.right, nil)] == m[Ref(t.right, nil)].(parent := y)
    requires m'[Parent(c, root)] == SetHole(c, m[Parent(c, root)], y)
    requires forall n :: n in m && n != Parent(c, root) && n != y && n != t.left.n && n != Ref(t.right, nil) ==>
      m'[n] == m[n]
    ensures Linked(m', c, Branch(t.left, y, m[y].red, -MAX_TIME, t.right), root, nil)
  {
    ParentInHeap(m, c, t.n, root, nil);
    ReplacedSubtrees(m, m', c, t, y, root, nil);
    hide Rep, RepCtx;
    RepCtxSetHole(m, m', c, t.n, y, root, nil);
  }

  lemma ReplacedSubtrees(m: Heap, m': Heap, c: Ctx, t: Tree, y: Node, root: Node, nil: Node)
    requires Linked(m, c, t, root, nil) && t.Branch? && t.left.Branch? && m'.Keys == m.Keys && Parent(c, root) in m
    requires y in m && y != nil && y !in Nodes(t) && t.left.n in m && Ref(t.right, nil) in m &&
      Parent(c, root) !in Nodes(t)
    requires m'[t.left.n] == m[t.left.n].(parent := y) && m'[Ref(t.right, nil)] == m[Ref(t.right, nil)].(parent := y)
    requires forall n :: n in m && n != Parent(c, root) && n != y && n != t.left.n && n != Ref(t.right, nil) ==>
      m'[n] == m[n]
    ensures Rep(m', t.left, y, nil) && Rep(m', t.right, y, nil)
  {
    RepReparent(m, m', t.left, t.n, y, nil);
    RepReparent(m, m', t.right, t.n, y, nil);
  }
}
