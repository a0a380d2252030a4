/** The red-black interval tree on the heap. */
module IntervalTrees {
  import opened IntervalTreeShape
  import opened IntervalTreeLinks
  import opened IntervalTreeFixup
  import opened IntervalTreeQuery

  /** One entry of the query's stack: a node whose left subtree is being searched. */
  datatype Frame = Frame(startNode: Node?, parentIndex: nat, tryRightBranch: bool)

  /** The entries of the stack for the pending nodes, each pointing to the one below it. */
  function Frames(fs: seq<Pending>): (r: seq<Frame>)
    ensures |r| == |fs|
  {
    if fs == [] then []
    else
      var f := fs[|fs| - 1];
      Frames(fs[..|fs| - 1]) + [Frame(if f.tree.Leaf? then null else f.tree.n, |fs| - 1, f.tried)]
  }

  class IntervalTree {
    const root: Node
    const nil: Node
    var stack: array<Frame>
    var top: nat
    var currentParent: nat
    ghost var T: Tree
    ghost var Repr: set<Node>

    ghost predicate Valid()
      reads this`T, this`Repr, Repr
    {
      Repr == Nodes(T) + {root, nil} && Linked(Snap(Repr), Top, T, root, nil) && RedBlack(T) && MaxExact(T) &&
        Sorted(Inorder(T))
    }

    /** Between two queries only the unused entry at the bottom of the stack is left. */
    ghost predicate StackAtRest()
      reads this`stack, this`top
    {
      stack.Length > 0 && top == 1
    }

    constructor ()
      ensures Valid() && StackAtRest() && T == Leaf && fresh(Repr) && fresh(stack)
    {
      var n := new Node.Sentinel(-MAX_TIME);
      n.left, n.right, n.parent := n, n, n;
      var r := new Node.Sentinel(MAX_TIME);
      r.parent, r.left, r.right := n, n, n;
      root, nil, T, Repr := r, n, Leaf, {r, n};
      stack := new Frame[128](i => Frame(null, 0, false));
      top, currentParent := 1, 0;
    }

    // ----- One field at a time, and the rotations --------------------------------

    method SetRed(n: Node, value: bool, ghost S: set<Node>, ghost c: Ctx, ghost t: Tree)
      requires Linked(Snap(S), c, t, root, nil) && t.Branch? && t.n == n
      modifies n`red
      ensures Linked(Snap(S), c, t.(red := value), root, nil) && Snap(S)[nil] == old(Snap(S))[nil]
    {
      ghost var m := Snap(S);
      n.red := value;
      LinkedRecolour(m, Snap(S), c, t, value, t.maxHigh, root, nil);
    }

    /** Colours the parent of the focused subtree. */
    method SetParentRed(p: Node, value: bool, ghost S: set<Node>, ghost c: Ctx, ghost t: Tree)
      requires Linked(Snap(S), c, t, root, nil) && !c.Top? && p == c.n
      modifies p`red
      ensures Linked(Snap(S), WithRed(c, value), t, root, nil) && Snap(S)[nil] == old(Snap(S))[nil]
    {
      ghost var q := ParentTree(c, t, c.red);
      LinkedUp(Snap(S), c, t, root, nil);
      SetRed(p, value, S, c.up, q);
      if c.InLeft? {
        LinkedDownLeft(Snap(S), c.up, q.(red := value), root, nil);
      } else {
        LinkedDownRight(Snap(S), c.up, q.(red := value), root, nil);
      }
    }

    /** Colours the sibling of the focused subtree. */
    method SetSiblingRed(w: Node, value: bool, ghost S: set<Node>, ghost c: Ctx, ghost t: Tree)
      requires Linked(Snap(S), c, t, root, nil) && !c.Top? && Sibling(c).Branch? && w == Sibling(c).n
      modifies w`red
      ensures Linked(Snap(S), WithSibling(c, Sibling(c).(red := value)), t, root, nil)
      ensures Snap(S)[nil] == old(Snap(S))[nil]
    {
      LinkedTurn(Snap(S), c, t, root, nil);
      SetRed(w, value, S, Turn(c, t), Sibling(c));
      LinkedTurn(Snap(S), Turn(c, t), Sibling(c).(red := value), root, nil);
    }

    /** Colours a child of the sibling. */
    method SetNephewRed(n: Node, value: bool, onLeft: bool, ghost S: set<Node>, ghost c: Ctx, ghost t: Tree)
      requires Linked(Snap(S), c, t, root, nil) && !c.Top? && Sibling(c).Branch?
      requires var k := if onLeft then Sibling(c).left else Sibling(c).right; k.Branch? && k.n == n
      modifies n`red
      ensures var w := Sibling(c);
        Linked(Snap(S), WithSibling(c, if onLeft then w.(left := w.left.(red := value))
          else w.(right := w.right.(red := value))), t, root, nil)
      ensures Snap(S)[nil] == old(Snap(S))[nil]
    {
      ghost var w, d := Sibling(c), Turn(c, t);
      LinkedTurn(Snap(S), c, t, root, nil);
      if onLeft {
        LinkedDownLeft(Snap(S), d, w, root, nil);
        d := InLeft(d, w.n, w.red, w.maxHigh, w.right);
        SetRed(n, value, S, d, w.left);
        LinkedUp(Snap(S), d, w.left.(red := value), root, nil);
        w := w.(left := w.left.(red := value));
      } else {
        LinkedDownRight(Snap(S), d, w, root, nil);
        d := InRight(d, w.left, w.n, w.red, w.maxHigh);
        SetRed(n, value, S, d, w.right);
        LinkedUp(Snap(S), d, w.right.(red := value), root, nil);
        w := w.(right := w.right.(red := value));
      }
      LinkedTurn(Snap(S), Turn(c, t), w, root, nil);
    }

    /** The body of FixupMaxHigh's loop. */
    method RecomputeMaxHigh(x: Node, ghost S: set<Node>, ghost c: Ctx, ghost t: Tree)
      requires Linked(Snap(S), c, t, root, nil) && t.Branch? && t.n == x
      modifies x`maxHigh
      ensures Linked(Snap(S), c, t.(maxHigh := NodeMax(t.left, x, t.right)), root, nil)
      ensures Snap(S)[nil] == old(Snap(S))[nil]
    {
      ghost var m := Snap(S);
      RefInHeap(m, t.left, x, nil);
      RefInHeap(m, t.right, x, nil);
      x.maxHigh := Max(x.high, Max(x.left.maxHigh, x.right.maxHigh));
      LinkedRecolour(m, Snap(S), c, t, t.red, x.maxHigh, root, nil);
    }

    method LeftRotate(x: Node)
      requires x.left != null && x.right != null && x.parent != null && x.right.left != null && x.right.right != null
      requires var y := x.right; var b := y.left;
        x != y && x.parent !in {x, y, b} && b !in {x, y} && x.left !in {x, y} && y.right !in {x, y}
      modifies x, x.right, if x.right.left == nil then {} else {x.right.left}, x.parent
      ensures var y, p, b := old(x.right), old(x.parent), old(x.right.left);
        && y.left == x && x.parent == y && y.parent == p
        && x.left == old(x.left) && x.right == b && y.right == old(y.right)
        && x.red == old(x.red) && y.red == old(y.red)
        && p.parent == old(p.parent) && p.red == old(p.red) && p.maxHigh == old(p.maxHigh)
        && (b != nil ==>
          b.left == old(b.left) && b.right == old(b.right) && b.red == old(b.red) &&
          b.maxHigh == old(b.maxHigh))
        && b.parent == (if b == nil then old(b.parent) else x)
        && p.left == (if old(p.left) == x then y else old(p.left))
        && p.right == (if old(p.left) == x then old(p.right) else y)
        && x.maxHigh == Max(x.left.maxHigh, Max(x.right.maxHigh, x.high))
        && y.maxHigh == Max(x.maxHigh, Max(y.right.maxHigh, y.high))
    {
      var y := x.right;
      x.right := y.left;
      if y.left != nil {
        y.left.parent := x;
      }
      y.parent := x.parent;
      if x == x.parent.left {
        x.parent.left := y;
      } else {
        x.parent.right := y;
      }
      y.left := x;
      x.parent := y;
      x.maxHigh := Max(x.left.maxHigh, Max(x.right.maxHigh, x.high));
      y.maxHigh := Max(x.maxHigh, Max(y.right.maxHigh, y.high));
    }

    method RightRotate(y: Node)
      requires y.left != null && y.right != null && y.parent != null && y.left.left != null && y.left.right != null
      requires var x := y.left; var b := x.right;
        y != x && y.parent !in {y, x, b} && b !in {y, x} && y.right !in {y, x} && x.left !in {y, x}
      modifies y, y.left, if y.left.right == nil then {} else {y.left.right}, y.parent
      ensures var x, p, b := old(y.left), old(y.parent), old(y.left.right);
        && x.right == y && y.parent == x && x.parent == p
        && y.right == old(y.right) && y.left == b && x.left == old(x.left)
        && x.red == old(x.red) && y.red == old(y.red)
        && p.parent == old(p.parent) && p.red == old(p.red) && p.maxHigh == old(p.maxHigh)
        && (b != nil ==>
          b.left == old(b.left) && b.right == old(b.right) && b.red == old(b.red) &&
          b.maxHigh == old(b.maxHigh))
        && b.parent == (if b == nil then old(b.parent) else y)
        && p.left == (if old(p.left) == y then x else old(p.left))
        && p.right == (if old(p.left) == y then old(p.right) else x)
        && y.maxHigh == Max(y.left.maxHigh, Max(y.right.maxHigh, y.high))
        && x.maxHigh == Max(x.left.maxHigh, Max(y.maxHigh, x.high))
    {
      var x := y.left;
      y.left := x.right;
      if nil != x.right {
        x.right.parent := y;
      }
      x.parent := y.parent;
      if y == y.parent.left {
        y.parent.left := x;
      } else {
        y.parent.right := x;
      }
      x.right := y;
      y.parent := x;
      y.maxHigh := Max(y.left.maxHigh, Max(y.right.maxHigh, y.high));
      x.maxHigh := Max(x.left.maxHigh, Max(y.maxHigh, x.high));
    }

    /** LeftRotate seen from the focused tree. */
    method LeftRotateAt(x: Node, ghost S: set<Node>, ghost c: Ctx, ghost t: Tree)
      requires Linked(Snap(S), c, t, root, nil) && t.Branch? && t.n == x && t.right.Branch?
      modifies S
      ensures Linked(Snap(S), c, RotateLeft(t), root, nil) && Snap(S)[nil] == old(Snap(S))[nil]
    {
      hide Linked;
      ghost var m := Snap(S);
      LeftRotateNodes(m, c, t, root, nil);
      ghost var y, p, a, b, d := m[x].right, m[x].parent, m[x].left, m[m[x].right].left, m[m[x].right].right;
      LeftRotate(x);
      LeftRotateTree(m, Snap(S), c, t, root, nil);
    }

    method RightRotateAt(y: Node, ghost S: set<Node>, ghost c: Ctx, ghost t: Tree)
      requires Linked(Snap(S), c, t, root, nil) && t.Branch? && t.n == y && t.left.Branch?
      modifies S
      ensures Linked(Snap(S), c, RotateRight(t), root, nil) && Snap(S)[nil] == old(Snap(S))[nil]
    {
      hide Linked;
      ghost var m := Snap(S);
      RightRotateNodes(m, c, t, root, nil);
      ghost var x, p, d, b, a := m[y].left, m[y].parent, m[y].right, m[m[y].left].right, m[m[y].left].left;
      RightRotate(y);
      RightRotateTree(m, Snap(S), c, t, root, nil);
    }

    /** Recomputes the maxima from x up to the root. */
    method FixupMaxHigh(x: Node, ghost S: set<Node>, ghost c: Ctx, ghost t: Tree)
      requires Linked(Snap(S), c, t, root, nil) && x == Parent(c, root)
      modifies S`maxHigh
      ensures Linked(Snap(S), Refresh(c, MaxOf(t)), t, root, nil) && Snap(S)[nil] == old(Snap(S))[nil]
    {
      var x := x;
      ghost var d, s := c, t;
      GraftIntoTop(c);
      while x != root
        invariant Linked(Snap(S), d, s, root, nil) && x == Parent(d, root)
        invariant Plug(Refresh(d, MaxOf(s)), s) == Plug(Refresh(c, MaxOf(t)), t)
        invariant Snap(S)[nil] == old(Snap(S))[nil]
        decreases d
      {
        ghost var d0, s0 := d, s;
        LinkedUp(Snap(S), d, s, root, nil);
        d, s := d0.up, ParentTree(d0, s0, d0.red);
        RecomputeMaxHigh(x, S, d, s);
        s := s.(maxHigh := NodeMax(s.left, s.n, s.right));
        x := x.parent;
      }
      GraftIntoTop(Refresh(c, MaxOf(t)));
      LinkedGraft(Snap(S), Refresh(c, MaxOf(t)), Top, t, root, nil);
    }

    // ----- Insertion ------------------------------------------------------------

    /** The descent of RecursiveInsert: y is the parent the new node gets, c the empty place below it. */
    method FindPlace(key: int) returns (y: Node, ghost c: Ctx)
      requires Valid()
      ensures Linked(Snap(Repr), c, Leaf, root, nil) && Plug(c, Leaf) == T && y == Parent(c, root)
      ensures (c.InLeft? ==> c.n.key > key) && (c.InRight? ==> c.n.key <= key)
      ensures forall i :: 0 <= i < |Before(c)| ==> Before(c)[i].key <= key
      ensures After(c) != [] ==> After(c)[0].key > key
    {
      hide Rep, CtxNodes, RedBlack;
      y := root;
      var x := root.left;
      ghost var t;
      c, t := Top, T;
      ghost var m := Snap(Repr);
      while x != nil
        invariant Linked(m, c, t, root, nil) && Plug(c, t) == T
        invariant x == Ref(t, nil) && y == Parent(c, root)
        invariant (c.InLeft? ==> c.n.key > key) && (c.InRight? ==> c.n.key <= key)
        invariant forall i :: 0 <= i < |Before(c)| ==> Before(c)[i].key <= key
        invariant After(c) != [] ==> After(c)[0].key > key
        decreases t
      {
        y := x;
        if x.key > key {
          LinkedDownLeft(m, c, t, root, nil);
          c, t := InLeft(c, t.n, t.red, t.maxHigh, t.right), t.left;
          x := x.left;
        } else {
          LinkedDownRight(m, c, t, root, nil);
          BeforeBranch(c, t, key);
          c, t := InRight(c, t.left, t.n, t.red, t.maxHigh), t.right;
          x := x.right;
        }
      }
    }

    /** Attaches z as a leaf after every node whose key is not above its own; c is its place. */
    method RecursiveInsert(z: Node) returns (ghost c: Ctx)
      requires Valid() && z !in Repr && z.maxHigh == z.high
      modifies z, Repr
      ensures Plug(c, Leaf) == T && z.red == old(z.red) && z.parent == Parent(c, root)
      ensures Linked(Snap(Repr + {z}), c, Branch(Leaf, z, z.red, z.high, Leaf), root, nil)
      ensures SortedInsert(Inorder(T), z) == Before(c) + [z] + After(c)
    {
      var y;
      y, c := FindPlace(z.key);
      InsertionPlace(c, z);
      PlugNodes(c, Leaf);
      AttachLeaf(z, y, Repr, c);
    }

    /** The writes of RecursiveInsert. */
    method AttachLeaf(z: Node, y: Node, ghost S: set<Node>, ghost c: Ctx)
      requires Linked(Snap(S), c, Leaf, root, nil) && y == Parent(c, root) && CtxNodes(c) <= S
      requires (c.InLeft? ==> c.n.key > z.key) && (c.InRight? ==> c.n.key <= z.key)
      requires z !in S && z.maxHigh == z.high
      modifies z, y
      ensures Linked(Snap(S + {z}), c, Branch(Leaf, z, z.red, z.high, Leaf), root, nil)
      ensures z.red == old(z.red) && z.parent == y
    {
      ghost var m := Snap(S);
      ParentInHeap(m, c, nil, root, nil);
      z.left, z.right := nil, nil;
      z.parent := y;
      if y == root || y.key > z.key {
        y.left := z;
      } else {
        y.right := z;
      }
      LinkedAttach(m, Snap(S + {z}), c, z, z.red, root, nil);
    }

    /** One round of the loop of Insert, when the red parent is a left child. */
    method InsertFixupLeft(x: Node, ghost S: set<Node>, ghost c: Ctx, ghost t: Tree)
      returns (x': Node, ghost c': Ctx, ghost t': Tree)
      requires Linked(Snap(S), c, t, root, nil) && Growing(c, t) && x == t.n && RedCtx(c) && c.up.InLeft? && !c.up.red
      modifies S
      ensures Linked(Snap(S), c', t', root, nil) && Growing(c', t') && x' == t'.n && x'.parent == Parent(c', root) &&
        Inorder(Plug(c', t')) == Inorder(Plug(c, t))
      ensures RedCtx(c') == x'.parent.red && (RedCtx(c') ==> c' == c.up.up)
    {
      InsertWindow(Snap(S), c, t, root, nil);
      var y := x.parent.parent.right;
      if y.red {
        x', c', t' := RecolourUncleRight(x, y, S, c, t);
      } else {
        x', c', t' := x, c, t;
        if x == x.parent.right {
          x', c', t' := RotateInnerLeft(x, S, c, t);
        }
        c', t' := RotateOuterLeft(x', S, c', t');
      }
      ParentLink(Snap(S), c', t', root, nil);
    }

    method RecolourUncleRight(x: Node, y: Node, ghost S: set<Node>, ghost c: Ctx, ghost t: Tree)
      returns (x': Node, ghost c': Ctx, ghost t': Tree)
      requires Linked(Snap(S), c, t, root, nil) && Growing(c, t) && x == t.n && RedCtx(c) && c.up.InLeft? && !c.up.red
      requires Red(c.up.right) && y == c.up.right.n
      modifies S
      ensures Linked(Snap(S), c', t', root, nil) && Growing(c', t') && x' == t'.n && x'.parent == Parent(c', root) &&
        Inorder(Plug(c', t')) == Inorder(Plug(c, t))
      ensures c' == c.up.up
    {
      ghost var p0, p, u := ParentTree(c, t, true), ParentTree(c, t, false), c.up.right.(red := false);
      ghost var d := WithSibling(c.up, u);
      InsertWindow(Snap(S), c, t, root, nil);
      x' := x.parent.parent;
      SetParentRed(x.parent, false, S, c, t);
      LinkedUp(Snap(S), WithRed(c, false), t, root, nil);
      SetSiblingRed(y, false, S, c.up, p);
      SetParentRed(x', true, S, d, p);
      LinkedUp(Snap(S), WithRed(d, true), p, root, nil);
      c', t' := c.up.up, Branch(p, c.up.n, true, c.up.maxHigh, u);
      RecolourLeft(c, t);
      SameOrder(c', Branch(p0, c.up.n, false, c.up.maxHigh, c.up.right), t');
      ParentLink(Snap(S), c', t', root, nil);
    }

    /** x is its parent's right child: the parent takes its place, and x rises. */
    method RotateInnerLeft(x: Node, ghost S: set<Node>, ghost c: Ctx, ghost t: Tree)
      returns (x': Node, ghost c': Ctx, ghost t': Tree)
      requires Linked(Snap(S), c, t, root, nil) && Growing(c, t) && x == t.n && RedCtx(c) && c.up.InLeft? &&
        !c.up.red && c.InRight?
      modifies S
      ensures Linked(Snap(S), c', t', root, nil) && Growing(c', t') && x' == t'.n && x'.parent == Parent(c', root) &&
        Inorder(Plug(c', t')) == Inorder(Plug(c, t))
      ensures RedCtx(c') && c'.InLeft? && c'.up == c.up
    {
      ghost var p := ParentTree(c, t, true);
      InsertWindow(Snap(S), c, t, root, nil);
      LinkedUp(Snap(S), c, t, root, nil);
      x' := x.parent;
      LeftRotateAt(x', S, c.up, p);
      ghost var r := RotateLeft(p);
      LinkedDownLeft(Snap(S), c.up, r, root, nil);
      InnerLeft(c, t);
      c', t' := InLeft(c.up, r.n, r.red, r.maxHigh, r.right), r.left;
      RotateLeftOrder(p);
      SameOrder(c.up, p, r);
      ParentLink(Snap(S), c', t', root, nil);
    }

    /** x is its parent's left child: the parent turns black and takes the grandparent's place. */
    method RotateOuterLeft(x: Node, ghost S: set<Node>, ghost c: Ctx, ghost t: Tree)
      returns (ghost c': Ctx, ghost t': Tree)
      requires Linked(Snap(S), c, t, root, nil) && Growing(c, t) && x == t.n && RedCtx(c) && c.up.InLeft? &&
        !c.up.red && c.InLeft? && !Red(c.up.right)
      modifies S
      ensures Linked(Snap(S), c', t', root, nil) && Growing(c', t') && x == t'.n && x.parent == Parent(c', root) &&
        Inorder(Plug(c', t')) == Inorder(Plug(c, t))
      ensures !RedCtx(c')
    {
      ghost var p0, p := ParentTree(c, t, true), ParentTree(c, t, false);
      ghost var g := Branch(p, c.up.n, true, c.up.maxHigh, c.up.right);
      InsertWindow(Snap(S), c, t, root, nil);
      SetParentRed(x.parent, false, S, c, t);
      LinkedUp(Snap(S), WithRed(c, false), t, root, nil);
      SetParentRed(x.parent.parent, true, S, c.up, p);
      LinkedUp(Snap(S), WithRed(c.up, true), p, root, nil);
      RightRotateAt(x.parent.parent, S, c.up.up, g);
      ghost var r := RotateRight(g);
      LinkedDownLeft(Snap(S), c.up.up, r, root, nil);
      OuterLeft(c, t);
      c', t' := InLeft(c.up.up, r.n, r.red, r.maxHigh, r.right), t;
      RotateRightOrder(g);
      SameOrder(c.up.up, Branch(p0, c.up.n, false, c.up.maxHigh, c.up.right), r);
      ParentLink(Snap(S), c', t', root, nil);
    }

    /** One round of the loop of Insert, when the red parent is a right child. */
    method InsertFixupRight(x: Node, ghost S: set<Node>, ghost c: Ctx, ghost t: Tree)
      returns (x': Node, ghost c': Ctx, ghost t': Tree)
      requires Linked(Snap(S), c, t, root, nil) && Growing(c, t) && x == t.n && RedCtx(c) && c.up.InRight? && !c.up.red
      modifies S
      ensures Linked(Snap(S), c', t', root, nil) && Growing(c', t') && x' == t'.n && x'.parent == Parent(c', root) &&
        Inorder(Plug(c', t')) == Inorder(Plug(c, t))
      ensures RedCtx(c') == x'.parent.red && (RedCtx(c') ==> c' == c.up.up)
    {
      InsertWindow(Snap(S), c, t, root, nil);
      var y := x.parent.parent.left;
      if y.red {
        x', c', t' := RecolourUncleLeft(x, y, S, c, t);
      } else {
        x', c', t' := x, c, t;
        if x == x.parent.left {
          x', c', t' := RotateInnerRight(x, S, c, t);
        }
        c', t' := RotateOuterRight(x', S, c', t');
      }
      ParentLink(Snap(S), c', t', root, nil);
    }

    method RecolourUncleLeft(x: Node, y: Node, ghost S: set<Node>, ghost c: Ctx, ghost t: Tree)
      returns (x': Node, ghost c': Ctx, ghost t': Tree)
      requires Linked(Snap(S), c, t, root, nil) && Growing(c, t) && x == t.n && RedCtx(c) && c.up.InRight? && !c.up.red
      requires Red(c.up.left) && y == c.up.left.n
      modifies S
      ensures Linked(Snap(S), c', t', root, nil) && Growing(c', t') && x' == t'.n && x'.parent == Parent(c', root) &&
        Inorder(Plug(c', t')) == Inorder(Plug(c, t))
      ensures c' == c.up.up
    {
      ghost var p0, p, u := ParentTree(c, t, true), ParentTree(c, t, false), c.up.left.(red := false);
      ghost var d := WithSibling(c.up, u);
      InsertWindow(Snap(S), c, t, root, nil);
      x' := x.parent.parent;
      SetParentRed(x.parent, false, S, c, t);
      LinkedUp(Snap(S), WithRed(c, false), t, root, nil);
      SetSiblingRed(y, false, S, c.up, p);
      SetParentRed(x', true, S, d, p);
      LinkedUp(Snap(S), WithRed(d, true), p, root, nil);
      c', t' := c.up.up, Branch(u, c.up.n, true, c.up.maxHigh, p);
      RecolourRight(c, t);
      SameOrder(c', Branch(c.up.left, c.up.n, false, c.up.maxHigh, p0), t');
      ParentLink(Snap(S), c', t', root, nil);
    }

    /** x is its parent's left child: the parent takes its place, and x rises. */
    method RotateInnerRight(x: Node, ghost S: set<Node>, ghost c: Ctx, ghost t: Tree)
      returns (x': Node, ghost c': Ctx, ghost t': Tree)
      requires Linked(Snap(S), c, t, root, nil) && Growing(c, t) && x == t.n && RedCtx(c) && c.up.InRight? &&
        !c.up.red && c.InLeft?
      modifies S
      ensures Linked(Snap(S), c', t', root, nil) && Growing(c', t') && x' == t'.n && x'.parent == Parent(c', root) &&
        Inorder(Plug(c', t')) == Inorder(Plug(c, t))
      ensures RedCtx(c') && c'.InRight? && c'.up == c.up
    {
      ghost var p := ParentTree(c, t, true);
      InsertWindow(Snap(S), c, t, root, nil);
      LinkedUp(Snap(S), c, t, root, nil);
      x' := x.parent;
      RightRotateAt(x', S, c.up, p);
      ghost var r := RotateRight(p);
      LinkedDownRight(Snap(S), c.up, r, root, nil);
      InnerRight(c, t);
      c', t' := InRight(c.up, r.left, r.n, r.red, r.maxHigh), r.right;
      RotateRightOrder(p);
      SameOrder(c.up, p, r);
      ParentLink(Snap(S), c', t', root, nil);
    }

    /** x is its parent's right child: the parent turns black and takes the grandparent's place. */
    method RotateOuterRight(x: Node, ghost S: set<Node>, ghost c: Ctx, ghost t: Tree)
      returns (ghost c': Ctx, ghost t': Tree)
      requires Linked(Snap(S), c, t, root, nil) && Growing(c, t) && x == t.n && RedCtx(c) && c.up.InRight? &&
        !c.up.red && c.InRight? && !Red(c.up.left)
      modifies S
      ensures Linked(Snap(S), c', t', root, nil) && Growing(c', t') && x == t'.n && x.parent == Parent(c', root) &&
        Inorder(Plug(c', t')) == Inorder(Plug(c, t))
      ensures !RedCtx(c')
    {
      ghost var p0, p := ParentTree(c, t, true), ParentTree(c, t, false);
      ghost var g := Branch(c.up.left, c.up.n, true, c.up.maxHigh, p);
      InsertWindow(Snap(S), c, t, root, nil);
      SetParentRed(x.parent, false, S, c, t);
      LinkedUp(Snap(S), WithRed(c, false), t, root, nil);
      SetParentRed(x.parent.parent, true, S, c.up, p);
      LinkedUp(Snap(S), WithRed(c.up, true), p, root, nil);
      LeftRotateAt(x.parent.parent, S, c.up.up, g);
      ghost var r := RotateLeft(g);
      LinkedDownRight(Snap(S), c.up.up, r, root, nil);
      OuterRight(c, t);
      c', t' := InRight(c.up.up, r.left, r.n, r.red, r.maxHigh), t;
      RotateLeftOrder(g);
      SameOrder(c.up.up, Branch(c.up.left, c.up.n, false, c.up.maxHigh, p0), r);
      ParentLink(Snap(S), c', t', root, nil);
    }

    method Insert(interval: Interval) returns (newNode: Node)
      requires Valid()
      modifies this`T, this`Repr, Repr
      ensures Valid() && Repr == old(Repr) + {newNode} && fresh(newNode) && newNode.storedInterval == interval
      ensures Inorder(T) == SortedInsert(old(Inorder(T)), newNode)
      ensures ProperIntervals(T) <==> ProperIntervals(old(T)) && interval.low <= interval.high
    {
      hide Linked, Inorder, Sorted, Elements, Plug, Nodes;
      ProperByOrder(T);
      var x := new Node(interval);
      ghost var S, order := Repr + {x}, SortedInsert(Inorder(T), x);
      SortedInsertKeepsOrder(Inorder(T), x);
      SortedInsertElements(Inorder(T), x);
      InorderNodes(T);
      ghost var c := RecursiveInsert(x);
      GrowingStart(c, x);
      newNode := x;
      InsertLeaf(x, S, c);
      assert Inorder(T) == order;
      ProperByOrder(T);
      SortedInsertProper(old(Inorder(T)), x);
    }

    /** Insert, once the new node is linked. */
    method InsertLeaf(x: Node, ghost S: set<Node>, ghost c: Ctx)
      requires Linked(Snap(S), c, Branch(Leaf, x, x.red, x.high, Leaf), root, nil) && x.parent == Parent(c, root)
      requires Growing(Refresh(c, x.high), Branch(Leaf, x, true, x.high, Leaf))
      requires Sorted(Before(c) + [x] + After(c)) && S == Elements(Before(c) + [x] + After(c)) + {root, nil}
      modifies this`T, this`Repr, S
      ensures Valid() && Repr == S && Inorder(T) == Before(c) + [x] + After(c)
    {
      ghost var d, t := Refresh(c, x.high), Branch(Leaf, x, x.red, x.high, Leaf);
      FixupMaxHigh(x.parent, S, c, t);
      SetRed(x, true, S, d, t);
      t := t.(red := true);
      RefreshKeeps(c, x.high);
      PlugInorder(d, t);
      assert Inorder(t) == [x];
      InsertFixup(x, S, d, t);
    }

    /** The loop of Insert and the statement after it. */
    method InsertFixup(x: Node, ghost S: set<Node>, ghost c: Ctx, ghost t: Tree)
      requires Linked(Snap(S), c, t, root, nil) && Growing(c, t) && x == t.n
      requires S == Elements(Inorder(Plug(c, t))) + {root, nil} && Sorted(Inorder(Plug(c, t)))
      modifies this`T, this`Repr, S
      ensures Valid() && Repr == S && Inorder(T) == Inorder(Plug(c, t))
    {
      var x := x;
      ghost var d, s := c, t;
      ParentLink(Snap(S), d, s, root, nil);
      while x.parent.red
        invariant Linked(Snap(S), d, s, root, nil) && Growing(d, s) && x == s.n && x.parent == Parent(d, root)
        invariant Inorder(Plug(d, s)) == Inorder(Plug(c, t)) && RedCtx(d) == x.parent.red
        decreases if RedCtx(d) then 1 else 0, d
      {
        GrandparentExists(d, s);
        InsertWindow(Snap(S), d, s, root, nil);
        if x.parent == x.parent.parent.left {
          x, d, s := InsertFixupLeft(x, S, d, s);
        } else {
          x, d, s := InsertFixupRight(x, S, d, s);
        }
      }
      BlackenRoot(S, d, s);
    }

    /** The last statement of Insert: the whole tree is red-black again once its topmost node is black. */
    method BlackenRoot(ghost S: set<Node>, ghost c: Ctx, ghost t: Tree)
      requires Linked(Snap(S), c, t, root, nil) && Growing(c, t) && !RedCtx(c)
      requires S == Elements(Inorder(Plug(c, t))) + {root, nil} && Sorted(Inorder(Plug(c, t)))
      modifies this`T, this`Repr, S
      ensures Valid() && Repr == S && Inorder(T) == Inorder(Plug(c, t))
    {
      ghost var w := Plug(c, t);
      LinkedWhole(Snap(S), c, t, root, nil);
      GrowingEnd(c, t);
      TopNodeIsTop(c, t, nil);
      SetRed(root.left, false, S, Top, w);
      assert Inorder(Blacken(w)) == Inorder(w);
      Adopt(S, Blacken(w));
    }

    /** The repaired tree is the new abstract state. */
    ghost method Adopt(S: set<Node>, w: Tree)
      requires Linked(Snap(S), Top, w, root, nil) && RedBlack(w) && MaxExact(w) && Sorted(Inorder(w))
      requires S == Elements(Inorder(w)) + {root, nil}
      modifies this`T, this`Repr
      ensures Valid() && Repr == S && T == w
    {
      InorderNodes(w);
      T, Repr := w, S;
    }

    // ----- Navigation ------------------------------------------------------------

    method GetMinimum(x: Node, ghost c: Ctx, ghost t: Tree) returns (y: Node)
      requires Valid() && Plug(c, t) == T && t.Branch? && t.n == x
      ensures y == Inorder(t)[0]
    {
      y := x;
      ghost var d, s := c, t;
      LinkedFocus(Snap(Repr), c, t, root, nil);
      while y.left != nil
        invariant Linked(Snap(Repr), d, s, root, nil) && s.Branch? && y == s.n && Inorder(s)[0] == Inorder(t)[0]
        decreases s
      {
        FirstAndLast(s);
        LinkedDownLeft(Snap(Repr), d, s, root, nil);
        d, s := InLeft(d, s.n, s.red, s.maxHigh, s.right), s.left;
        y := y.left;
      }
      FirstAndLast(s);
    }

    method GetMaximum(x: Node, ghost c: Ctx, ghost t: Tree) returns (y: Node)
      requires Valid() && Plug(c, t) == T && t.Branch? && t.n == x
      ensures y == Inorder(t)[|Inorder(t)| - 1]
    {
      y := x;
      ghost var d, s := c, t;
      LinkedFocus(Snap(Repr), c, t, root, nil);
      while y.right != nil
        invariant Linked(Snap(Repr), d, s, root, nil) && s.Branch? && y == s.n
        invariant Inorder(s)[|Inorder(s)| - 1] == Inorder(t)[|Inorder(t)| - 1]
        decreases s
      {
        FirstAndLast(s);
        LinkedDownRight(Snap(Repr), d, s, root, nil);
        d, s := InRight(d, s.left, s.n, s.red, s.maxHigh), s.right;
        y := y.right;
      }
      FirstAndLast(s);
    }

    /** The next node in order; after the last one, the root sentinel. */
    method GetSuccessor(x: Node) returns (y: Node)
      requires Valid() && x in Nodes(T)
      ensures forall k :: 0 <= k < |Inorder(T)| && Inorder(T)[k] == x ==>
        y == if k + 1 < |Inorder(T)| then Inorder(T)[k + 1] else root
    {
      hide Hits, RedBlack;
      ghost var c, t := Focus(Top, T, x);
      LinkedFocus(Snap(Repr), c, t, root, nil);
      OrderAround(c, t);
      forall k | 0 <= k < |Inorder(T)| && Inorder(T)[k] == x ensures k == |Before(c) + Inorder(t.left)| {
        IndexOfFocus(c, t, k);
      }
      if nil != x.right {
        LinkedDownRight(Snap(Repr), c, t, root, nil);
        y := GetMinimum(x.right, InRight(c, t.left, t.n, t.red, t.maxHigh), t.right);
      } else {
        var x := x;
        y := x.parent;
        ghost var d, s := c, t;
        ChildSide(Snap(Repr), d, s, root, nil);
        while y != nil && x == y.right
          invariant Linked(Snap(Repr), d, s, root, nil) && s.Branch? && x == s.n && y == Parent(d, root)
          invariant y != nil && (x == y.right <==> d.InRight?) && After(d) == After(c)
          decreases d
        {
          LinkedUp(Snap(Repr), d, s, root, nil);
          d, s := d.up, Branch(d.left, d.n, d.red, d.maxHigh, s);
          ChildSide(Snap(Repr), d, s, root, nil);
          x := y;
          y := y.parent;
        }
      }
    }

    /** Upwards until a node is reached from its right subtree: that is the one before x. */
    method ClimbLeft(x: Node, ghost c: Ctx, ghost t: Tree) returns (y: Node)
      requires Linked(Snap(Repr), c, t, root, nil) && t.Branch? && x == t.n
      ensures y == if Before(c) == [] then nil else Before(c)[|Before(c)| - 1]
    {
      hide Rep, RepCtx, Nodes, CtxNodes, Distinct, DistinctCtx, Inorder;
      var x := x;
      ghost var d, s := c, t;
      ParentLink(Snap(Repr), d, s, root, nil);
      y := x.parent;
      ChildSide(Snap(Repr), d, s, root, nil);
      while y != nil && x == y.left
        invariant Linked(Snap(Repr), d, s, root, nil) && s.Branch? && Before(d) == Before(c)
        invariant y == nil ==> d == Top
        invariant y != nil ==> x == s.n && y == Parent(d, root) && (x == y.left <==> !d.InRight?)
        decreases if y == nil then 0 else 1, d
      {
        if !d.Top? {
          LinkedUp(Snap(Repr), d, s, root, nil);
          d, s := d.up, Branch(s, d.n, d.red, d.maxHigh, d.right);
          ParentLink(Snap(Repr), d, s, root, nil);
          ChildSide(Snap(Repr), d, s, root, nil);
        }
        x := y;
        y := y.parent;
      }
    }

    /** The previous node in order; before the first one, the nil sentinel. */
    method GetPredecessor(x: Node) returns (y: Node)
      requires Valid() && x in Nodes(T)
      ensures forall k :: 0 <= k < |Inorder(T)| && Inorder(T)[k] == x ==> y == if k > 0 then Inorder(T)[k - 1] else nil
    {
      hide Hits, MaxExact;
      ghost var c, t := Focus(Top, T, x);
      LinkedFocus(Snap(Repr), c, t, root, nil);
      OrderAround(c, t);
      forall k | 0 <= k < |Inorder(T)| && Inorder(T)[k] == x ensures k == |Before(c) + Inorder(t.left)| {
        IndexOfFocus(c, t, k);
      }
      if nil != x.left {
        LinkedDownLeft(Snap(Repr), c, t, root, nil);
        y := GetMaximum(x.left, InLeft(c, t.n, t.red, t.maxHigh, t.right), t.left);
      } else {
        y := ClimbLeft(x, c, t);
      }
    }

    // ----- Deletion ------------------------------------------------------------

    /** One round of the loop of DeleteFixup, when the short subtree is a left child. */
    method DeleteFixupLeft(x: Node, rootLeftNode: Node, ghost S: set<Node>, ghost c: Ctx, ghost t: Tree)
      returns (x': Node, ghost done: bool, ghost c': Ctx, ghost t': Tree)
      requires Linked(Snap(S), c, t, root, nil) && Shrinking(c, t) && c.InLeft? && At(Snap(S), x, c, t, root, nil)
      requires !Red(t) && rootLeftNode == Ref(Plug(c, t), nil)
      modifies S
      ensures Linked(Snap(S), c', t', root, nil) && Inorder(Plug(c', t')) == Inorder(Plug(c, t))
      ensures done ==> c' == Top && RedBlack(t') && MaxExact(t') && x' == rootLeftNode && !x'.red
      ensures !done ==> Shrinking(c', t') && At(Snap(S), x', c', t', root, nil) && (c' == c.up || Red(t'))
      ensures !done ==> Red(t') || rootLeftNode == Ref(Plug(c', t'), nil)
    {
      hide Rep, RepCtx, Linked, Shrinking, Inorder;
      SiblingExists(c, t);
      DeleteWindow(Snap(S), c, t, x, root, nil);
      TopNodeIsTop(c, t, nil);
      var w := x.parent.right;
      ghost var d := c;
      if w.red {
        w, d := RaiseRedSiblingRight(x, w, S, c, t);
      }
      DeleteWindow(Snap(S), d, t, x, root, nil);
      if !w.right.red && !w.left.red {
        x', c', t' := RecolourSiblingRight(x, w, S, d, t);
        TopNodeIsTop(c', t', nil);
        done := false;
      } else {
        if !w.right.red {
          w, d := RotateNephewRight(x, w, S, d, t);
        }
        t' := RotateSiblingRight(x, w, S, d, t);
        x', c', done := rootLeftNode, Top, true;
      }
    }

    /** A red sibling is rotated above the parent. */
    method RaiseRedSiblingRight(x: Node, w: Node, ghost S: set<Node>, ghost c: Ctx, ghost t: Tree)
      returns (w': Node, ghost c': Ctx)
      requires Linked(Snap(S), c, t, root, nil) && Shrinking(c, t) && c.InLeft? && At(Snap(S), x, c, t, root, nil) &&
        Red(c.right) && w == c.right.n
      modifies S
      ensures Linked(Snap(S), c', t, root, nil) && Shrinking(c', t) && c'.InLeft? && At(Snap(S), x, c', t, root, nil)
      ensures c'.right.Branch? && !c'.right.red && w' == c'.right.n && c'.n == c.n && c'.red && !c'.up.Top? &&
        c'.up.up == c.up
      ensures Inorder(Plug(c', t)) == Inorder(Plug(c, t))
    {
      DeleteWindow(Snap(S), c, t, x, root, nil);
      SiblingExists(c, t);
      ghost var b := c.right.(red := false);
      ghost var p := Branch(t, c.n, true, c.maxHigh, b);
      SetSiblingRed(w, false, S, c, t);
      SetParentRed(x.parent, true, S, WithSibling(c, b), t);
      LinkedUp(Snap(S), WithRed(WithSibling(c, b), true), t, root, nil);
      LeftRotateAt(x.parent, S, c.up, p);
      ghost var r := RotateLeft(p);
      LinkedDownLeft(Snap(S), c.up, r, root, nil);
      LinkedDownLeft(Snap(S), InLeft(c.up, r.n, r.red, r.maxHigh, r.right), r.left, root, nil);
      RedSiblingLeft(c, t);
      c' := InLeft(InLeft(c.up, r.n, r.red, r.maxHigh, r.right), r.left.n, r.left.red, r.left.maxHigh, r.left.right);
      SiblingExists(c', t);
      DeleteWindow(Snap(S), c', t, x, root, nil);
      w' := x.parent.right;
      RotateLeftOrder(p);
      SameOrder(c.up, Branch(t, c.n, c.red, c.maxHigh, c.right), r);
    }

    /** A black sibling with black children is coloured red. */
    method RecolourSiblingRight(x: Node, w: Node, ghost S: set<Node>, ghost c: Ctx, ghost t: Tree)
      returns (x': Node, ghost c': Ctx, ghost t': Tree)
      requires Linked(Snap(S), c, t, root, nil) && Shrinking(c, t) && c.InLeft? && At(Snap(S), x, c, t, root, nil) &&
        !Red(t) && c.right.Branch? && !c.right.red && w == c.right.n && !Red(c.right.left) && !Red(c.right.right)
      modifies S
      ensures Linked(Snap(S), c', t', root, nil) && Shrinking(c', t') && At(Snap(S), x', c', t', root, nil)
      ensures c' == c.up && t'.Branch? && t'.n == c.n && Red(t') == c.red &&
        Inorder(Plug(c', t')) == Inorder(Plug(c, t))
    {
      ghost var p := Branch(t, c.n, c.red, c.maxHigh, c.right);
      DeleteWindow(Snap(S), c, t, x, root, nil);
      SetSiblingRed(w, true, S, c, t);
      LinkedUp(Snap(S), WithSibling(c, c.right.(red := true)), t, root, nil);
      BlackNephewsLeft(c, t);
      x' := x.parent;
      c', t' := c.up, Branch(t, c.n, c.red, c.maxHigh, c.right.(red := true));
      ParentLink(Snap(S), c', t', root, nil);
      SameOrder(c', p, t');
    }

    /** A red inner nephew is rotated above the black sibling. */
    method RotateNephewRight(x: Node, w: Node, ghost S: set<Node>, ghost c: Ctx, ghost t: Tree)
      returns (w': Node, ghost c': Ctx)
      requires Linked(Snap(S), c, t, root, nil) && Shrinking(c, t) && c.InLeft? && At(Snap(S), x, c, t, root, nil) &&
        c.right.Branch? && !c.right.red && w == c.right.n && Red(c.right.left) && !Red(c.right.right)
      modifies S
      ensures Linked(Snap(S), c', t, root, nil) && Shrinking(c', t) && c'.InLeft? && At(Snap(S), x, c', t, root, nil)
      ensures c'.right.Branch? && !c'.right.red && w' == c'.right.n && Red(c'.right.right) && c'.n == c.n &&
        c'.up == c.up
      ensures Inorder(Plug(c', t)) == Inorder(Plug(c, t))
    {
      DeleteWindow(Snap(S), c, t, x, root, nil);
      ghost var s0 := c.right;
      ghost var s1 := s0.(left := s0.left.(red := false));
      ghost var s2 := s1.(red := true);
      assert Inorder(s2.left) == Inorder(s0.left) && Inorder(s2) == Inorder(s0);
      SetNephewRed(w.left, false, true, S, c, t);
      SetSiblingRed(w, true, S, WithSibling(c, s1), t);
      LinkedTurn(Snap(S), WithSibling(c, s2), t, root, nil);
      RightRotateAt(w, S, Turn(c, t), s2);
      ghost var r := RotateRight(s2);
      LinkedTurn(Snap(S), Turn(c, t), r, root, nil);
      InnerNephewLeft(c, t);
      c' := WithSibling(c, r);
      SiblingExists(c', t);
      DeleteWindow(Snap(S), c', t, x, root, nil);
      w' := x.parent.right;
      RotateRightOrder(s2);
      SameOrder(c.up, Branch(t, c.n, c.red, c.maxHigh, c.right), Branch(t, c.n, c.red, c.maxHigh, r));
    }

    /** With a red outer nephew the sibling is rotated above the parent, and the repair is complete. */
    method RotateSiblingRight(x: Node, w: Node, ghost S: set<Node>, ghost c: Ctx, ghost t: Tree)
      returns (ghost t': Tree)
      requires Linked(Snap(S), c, t, root, nil) && Shrinking(c, t) && c.InLeft? && At(Snap(S), x, c, t, root, nil) &&
        !Red(t) && c.right.Branch? && !c.right.red && w == c.right.n && Red(c.right.right)
      modifies S
      ensures Linked(Snap(S), Top, t', root, nil) && RedBlack(t') && MaxExact(t') && Inorder(t') == Inorder(Plug(c, t))
      ensures c.n in S && !c.n.red && (!c.up.Top? ==>
        Ref(t', nil) == TopNode(c.up) && TopNode(c.up) in S &&
        !TopNode(c.up).red)
    {
      hide Linked, Shrinking, MaxExact, CtxNodes, Nodes, Sorted, Elements;
      DeleteWindow(Snap(S), c, t, x, root, nil);
      ghost var s0 := c.right;
      ghost var s1 := s0.(red := c.red);
      ghost var s2 := s1.(right := s1.right.(red := false));
      ghost var p := Branch(t, c.n, false, c.maxHigh, s2);
      assert Inorder(s2.right) == Inorder(s0.right) && Inorder(s2) == Inorder(s0);
      SetSiblingRed(w, x.parent.red, S, c, t);
      SetParentRed(x.parent, false, S, WithSibling(c, s1), t);
      SetNephewRed(w.right, false, false, S, WithRed(WithSibling(c, s1), false), t);
      LinkedUp(Snap(S), WithRed(WithSibling(c, s2), false), t, root, nil);
      LeftRotateAt(x.parent, S, c.up, p);
      ghost var r := RotateLeft(p);
      OuterNephewLeft(c, t);
      t' := Plug(c.up, r);
      RotateLeftOrder(p);
      SameOrder(c.up, Branch(t, c.n, c.red, c.maxHigh, s0), r);
      RepairedTop(Snap(S), c.up, r, root, nil);
    }

    /** One round of the loop of DeleteFixup, when the short subtree is a right child. */
    method DeleteFixupRight(x: Node, rootLeftNode: Node, ghost S: set<Node>, ghost c: Ctx, ghost t: Tree)
      returns (x': Node, ghost done: bool, ghost c': Ctx, ghost t': Tree)
      requires Linked(Snap(S), c, t, root, nil) && Shrinking(c, t) && c.InRight? && At(Snap(S), x, c, t, root, nil)
      requires !Red(t) && rootLeftNode == Ref(Plug(c, t), nil)
      modifies S
      ensures Linked(Snap(S), c', t', root, nil) && Inorder(Plug(c', t')) == Inorder(Plug(c, t))
      ensures done ==> c' == Top && RedBlack(t') && MaxExact(t') && x' == rootLeftNode && !x'.red
      ensures !done ==> Shrinking(c', t') && At(Snap(S), x', c', t', root, nil) && (c' == c.up || Red(t'))
      ensures !done ==> Red(t') || rootLeftNode == Ref(Plug(c', t'), nil)
    {
      hide Rep, RepCtx, Linked;
      SiblingExists(c, t);
      DeleteWindow(Snap(S), c, t, x, root, nil);
      TopNodeIsTop(c, t, nil);
      var w := x.parent.left;
      ghost var d := c;
      if w.red {
        w, d := RaiseRedSiblingLeft(x, w, S, c, t);
      }
      DeleteWindow(Snap(S), d, t, x, root, nil);
      if !w.right.red && !w.left.red {
        x', c', t' := RecolourSiblingLeft(x, w, S, d, t);
        TopNodeIsTop(c', t', nil);
        done := false;
      } else {
        if !w.left.red {
          w, d := RotateNephewLeft(x, w, S, d, t);
        }
        t' := RotateSiblingLeft(x, w, S, d, t);
        x', c', done := rootLeftNode, Top, true;
      }
    }

    /** A red sibling is rotated above the parent. */
    method RaiseRedSiblingLeft(x: Node, w: Node, ghost S: set<Node>, ghost c: Ctx, ghost t: Tree)
      returns (w': Node, ghost c': Ctx)
      requires Linked(Snap(S), c, t, root, nil) && Shrinking(c, t) && c.InRight? && At(Snap(S), x, c, t, root, nil) &&
        Red(c.left) && w == c.left.n
      modifies S
      ensures Linked(Snap(S), c', t, root, nil) && Shrinking(c', t) && c'.InRight? && At(Snap(S), x, c', t, root, nil)
      ensures c'.left.Branch? && !c'.left.red && w' == c'.left.n && c'.n == c.n && c'.red && !c'.up.Top? &&
        c'.up.up == c.up
      ensures Inorder(Plug(c', t)) == Inorder(Plug(c, t))
    {
      DeleteWindow(Snap(S), c, t, x, root, nil);
      SiblingExists(c, t);
      ghost var b := c.left.(red := false);
      ghost var p := Branch(b, c.n, true, c.maxHigh, t);
      SetSiblingRed(w, false, S, c, t);
      SetParentRed(x.parent, true, S, WithSibling(c, b), t);
      LinkedUp(Snap(S), WithRed(WithSibling(c, b), true), t, root, nil);
      RightRotateAt(x.parent, S, c.up, p);
      ghost var r := RotateRight(p);
      LinkedDownRight(Snap(S), c.up, r, root, nil);
      LinkedDownRight(Snap(S), InRight(c.up, r.left, r.n, r.red, r.maxHigh), r.right, root, nil);
      RedSiblingRight(c, t);
      c' := InRight(InRight(c.up, r.left, r.n, r.red, r.maxHigh), r.right.left, r.right.n, r.right.red,
        r.right.maxHigh);
      SiblingExists(c', t);
      DeleteWindow(Snap(S), c', t, x, root, nil);
      w' := x.parent.left;
      RotateRightOrder(p);
      SameOrder(c.up, Branch(c.left, c.n, c.red, c.maxHigh, t), r);
    }

    /** A black sibling with black children is coloured red. */
    method RecolourSiblingLeft(x: Node, w: Node, ghost S: set<Node>, ghost c: Ctx, ghost t: Tree)
      returns (x': Node, ghost c': Ctx, ghost t': Tree)
      requires Linked(Snap(S), c, t, root, nil) && Shrinking(c, t) && c.InRight? && At(Snap(S), x, c, t, root, nil) &&
        !Red(t) && c.left.Branch? && !c.left.red && w == c.left.n && !Red(c.left.left) && !Red(c.left.right)
      modifies S
      ensures Linked(Snap(S), c', t', root, nil) && Shrinking(c', t') && At(Snap(S), x', c', t', root, nil)
      ensures c' == c.up && t'.Branch? && t'.n == c.n && Red(t') == c.red &&
        Inorder(Plug(c', t')) == Inorder(Plug(c, t))
    {
      ghost var p := Branch(c.left, c.n, c.red, c.maxHigh, t);
      DeleteWindow(Snap(S), c, t, x, root, nil);
      SetSiblingRed(w, true, S, c, t);
      LinkedUp(Snap(S), WithSibling(c, c.left.(red := true)), t, root, nil);
      BlackNephewsRight(c, t);
      x' := x.parent;
      c', t' := c.up, Branch(c.left.(red := true), c.n, c.red, c.maxHigh, t);
      ParentLink(Snap(S), c', t', root, nil);
      SameOrder(c', p, t');
    }

    /** A red inner nephew is rotated above the black sibling. */
    method RotateNephewLeft(x: Node, w: Node, ghost S: set<Node>, ghost c: Ctx, ghost t: Tree)
      returns (w': Node, ghost c': Ctx)
      requires Linked(Snap(S), c, t, root, nil) && Shrinking(c, t) && c.InRight? && At(Snap(S), x, c, t, root, nil) &&
        c.left.Branch? && !c.left.red && w == c.left.n && Red(c.left.right) && !Red(c.left.left)
      modifies S
      ensures Linked(Snap(S), c', t, root, nil) && Shrinking(c', t) && c'.InRight? && At(Snap(S), x, c', t, root, nil)
      ensures c'.left.Branch? && !c'.left.red && w' == c'.left.n && Red(c'.left.left) && c'.n == c.n && c'.up == c.up
      ensures Inorder(Plug(c', t)) == Inorder(Plug(c, t))
    {
      DeleteWindow(Snap(S), c, t, x, root, nil);
      ghost var s0 := c.left;
      ghost var s1 := s0.(right := s0.right.(red := false));
      ghost var s2 := s1.(red := true);
      assert Inorder(s2.right) == Inorder(s0.right) && Inorder(s2) == Inorder(s0);
      SetNephewRed(w.right, false, false, S, c, t);
      SetSiblingRed(w, true, S, WithSibling(c, s1), t);
      LinkedTurn(Snap(S), WithSibling(c, s2), t, root, nil);
      LeftRotateAt(w, S, Turn(c, t), s2);
      ghost var r := RotateLeft(s2);
      LinkedTurn(Snap(S), Turn(c, t), r, root, nil);
      InnerNephewRight(c, t);
      c' := WithSibling(c, r);
      SiblingExists(c', t);
      DeleteWindow(Snap(S), c', t, x, root, nil);
      w' := x.parent.left;
      RotateLeftOrder(s2);
      SameOrder(c.up, Branch(c.left, c.n, c.red, c.maxHigh, t), Branch(r, c.n, c.red, c.maxHigh, t));
    }

    /** With a red outer nephew the sibling is rotated above the parent, and the repair is complete. */
    method RotateSiblingLeft(x: Node, w: Node, ghost S: set<Node>, ghost c: Ctx, ghost t: Tree) returns (ghost t': Tree)
      requires Linked(Snap(S), c, t, root, nil) && Shrinking(c, t) && c.InRight? && At(Snap(S), x, c, t, root, nil) &&
        !Red(t) && c.left.Branch? && !c.left.red && w == c.left.n && Red(c.left.left)
      modifies S
      ensures Linked(Snap(S), Top, t', root, nil) && RedBlack(t') && MaxExact(t') && Inorder(t') == Inorder(Plug(c, t))
      ensures c.n in S && !c.n.red && (!c.up.Top? ==>
        Ref(t', nil) == TopNode(c.up) && TopNode(c.up) in S &&
        !TopNode(c.up).red)
    {
      hide Linked, Shrinking, MaxExact, CtxNodes, Nodes, Sorted, Elements;
      DeleteWindow(Snap(S), c, t, x, root, nil);
      ghost var s0 := c.left;
      ghost var s1 := s0.(red := c.red);
      ghost var s2 := s1.(left := s1.left.(red := false));
      ghost var p := Branch(s2, c.n, false, c.maxHigh, t);
      assert Inorder(s2.left) == Inorder(s0.left) && Inorder(s2) == Inorder(s0);
      SetSiblingRed(w, x.parent.red, S, c, t);
      SetParentRed(x.parent, false, S, WithSibling(c, s1), t);
      SetNephewRed(w.left, false, true, S, WithRed(WithSibling(c, s1), false), t);
      LinkedUp(Snap(S), WithRed(WithSibling(c, s2), false), t, root, nil);
      RightRotateAt(x.parent, S, c.up, p);
      ghost var r := RotateRight(p);
      OuterNephewRight(c, t);
      t' := Plug(c.up, r);
      RotateRightOrder(p);
      SameOrder(c.up, Branch(s0, c.n, c.red, c.maxHigh, t), r);
      RepairedTop(Snap(S), c.up, r, root, nil);
    }

    method DeleteFixup(x: Node, ghost S: set<Node>, ghost c: Ctx, ghost t: Tree)
      requires Linked(Snap(S), c, t, root, nil) && Shrinking(c, t) && At(Snap(S), x, c, t, root, nil)
      requires S == Elements(Inorder(Plug(c, t))) + {root, nil} && Sorted(Inorder(Plug(c, t)))
      modifies this`T, this`Repr, S
      ensures Valid() && Repr == S && Inorder(T) == Inorder(Plug(c, t))
    {
      var x := x;
      ghost var d, s, done := c, t, false;
      LinkedWhole(Snap(S), c, t, root, nil);
      RefInHeap(Snap(S), t, Parent(c, root), nil);
      var rootLeftNode := root.left;
      while !x.red && rootLeftNode != x
        invariant Linked(Snap(S), d, s, root, nil) && Inorder(Plug(d, s)) == Inorder(Plug(c, t))
        invariant done ==> d == Top && RedBlack(s) && MaxExact(s) && x == rootLeftNode && !x.red
        invariant !done ==> Shrinking(d, s) && At(Snap(S), x, d, s, root, nil) && Red(s) == x.red
        invariant !done ==> Red(s) || rootLeftNode == Ref(Plug(d, s), nil)
        decreases if done then 0 else 1, if Red(s) then 0 else 1, d
      {
        ghost var d0, s0 := d, s;
        SiblingExists(d0, s0);
        HoleOfChild(Snap(S), d0, s0, nil, root, nil);
        if x == x.parent.left {
          x, done, d, s := DeleteFixupLeft(x, rootLeftNode, S, d0, s0);
        } else {
          x, done, d, s := DeleteFixupRight(x, rootLeftNode, S, d0, s0);
        }
        RefInHeap(Snap(S), s, Parent(d, root), nil);
      }
      DeleteFixupEnd(x, S, d, s, done);
    }

    /** The statement after the loop of DeleteFixup. */
    method DeleteFixupEnd(x: Node, ghost S: set<Node>, ghost c: Ctx, ghost t: Tree, ghost done: bool)
      requires Linked(Snap(S), c, t, root, nil)
      requires S == Elements(Inorder(Plug(c, t))) + {root, nil} && Sorted(Inorder(Plug(c, t)))
      requires done ==> c == Top && RedBlack(t) && MaxExact(t) && x in S && !x.red
      requires !done ==> Shrinking(c, t) && x == Ref(t, nil) && (Red(t) || x == Ref(Plug(c, t), nil))
      modifies this`T, this`Repr, S
      ensures Valid() && Repr == S && Inorder(T) == Inorder(Plug(c, t))
    {
      hide RepCtx, Shrinking, Elements;
      ghost var m := Snap(S);
      x.red := false;
      if !done && t.Branch? {
        LinkedRecolour(m, Snap(S), c, t, false, t.maxHigh, root, nil);
        LinkedWhole(Snap(S), c, Blacken(t), root, nil);
      } else {
        assert Snap(S) == m;
        LinkedWhole(m, c, t, root, nil);
      }
      if !done {
        if !Red(t) {
          AloneAtTop(m, c, t, root, nil);
        }
        ShrinkingEnd(c, t);
        SameOrder(c, t, Blacken(t));
        Adopt(S, Plug(c, Blacken(t)));
      } else {
        Adopt(S, t);
      }
    }

    /** Takes y, which has at most one child, out of the tree; that child is returned. */
    method SpliceOut(y: Node, ghost S: set<Node>, ghost c: Ctx, ghost t: Tree) returns (x: Node)
      requires Linked(Snap(S), c, t, root, nil) && t.Branch? && t.n == y && (t.left.Leaf? || t.right.Leaf?)
      modifies S
      ensures Linked(Snap(S), c, OnlyChild(t), root, nil) && At(Snap(S), x, c, OnlyChild(t), root, nil)
      ensures Snap(S)[y] == old(Snap(S))[y]
    {
      ghost var m := Snap(S);
      SpliceWindow(m, c, t, root, nil);
      x := if y.left == nil then y.right else y.left;
      x.parent := y.parent;
      if root == x.parent {
        root.left := x;
      } else {
        if y == y.parent.left {
          y.parent.left := x;
        } else {
          y.parent.right := x;
        }
      }
      LinkedSplice(m, Snap(S), c, t, root, nil);
    }

    /** The writes by which y moves into the place of z. */
    method TakeLinks(y: Node, z: Node)
      requires z.left != null && z.right != null && z.parent != null
      requires y != z && z.parent !in {y, z, z.left, z.right} && y !in {z.left, z.right} && z !in {z.left, z.right}
      modifies y, z.left`parent, z.right`parent, z.parent`left, z.parent`right
      ensures y.maxHigh == -MAX_TIME && y.left == z.left && y.right == z.right && y.parent == z.parent &&
        y.red == old(y.red)
      ensures z.left.parent == z.right.parent == y
      ensures z.parent.left == if old(z.parent.left) == z then y else old(z.parent.left)
      ensures z.parent.right == if old(z.parent.left) == z then old(z.parent.right) else y
    {
      y.maxHigh := -MAX_TIME;
      y.left := z.left;
      y.right := z.right;
      y.parent := z.parent;
      z.left.parent, z.right.parent := y, y;
      if z == z.parent.left {
        z.parent.left := y;
      } else {
        z.parent.right := y;
      }
    }

    /** TakeLinks seen from the focused tree. */
    method TakePlace(y: Node, z: Node, ghost S: set<Node>, ghost c: Ctx, ghost t: Tree)
      requires Linked(Snap(S), c, t, root, nil) && t.Branch? && t.n == z && t.left.Branch?
      requires y in S && y != root && y != nil && y !in CtxNodes(c) && y !in Nodes(t)
      modifies S
      ensures Linked(Snap(S), c, Branch(t.left, y, y.red, -MAX_TIME, t.right), root, nil)
      ensures y.red == old(y.red) && z.red == old(z.red) && nil.parent == if t.right.Leaf? then y else old(nil.parent)
    {
      ghost var m := Snap(S);
      SpliceWindow(m, c, t, root, nil);
      TakeLinks(y, z);
      LinkedReplace(m, Snap(S), c, t, y, root, nil);
    }

    /** The rest of DeleteNode when z itself was spliced out. */
    method FinishSpliced(x: Node, y: Node, ghost S: set<Node>, ghost c: Ctx, ghost t: Tree)
      requires t.Branch? && (t.left.Leaf? || t.right.Leaf?) && y !in S && y.red == t.red
      requires Linked(Snap(S), c, OnlyChild(t), root, nil) && At(Snap(S), x, c, OnlyChild(t), root, nil)
      requires RedBlack(Plug(c, t)) && MaxExact(Plug(c, t))
      requires var w := Before(c) + Inorder(OnlyChild(t)) + After(c); Sorted(w) && S == Elements(w) + {root, nil}
      modifies this`T, this`Repr, S
      ensures Valid() && Repr == S && Inorder(T) == Before(c) + Inorder(OnlyChild(t)) + After(c)
    {
      ghost var s := OnlyChild(t);
      ghost var c' := Refresh(c, MaxOf(s));
      FixupMaxHigh(x.parent, S, c, s);
      SplicedWhole(c, t);
      RefreshKeeps(c, MaxOf(s));
      PlugInorder(c', s);
      SameParent(c, MaxOf(s), root);
      if !y.red {
        DeleteFixup(x, S, c', s);
      } else {
        LinkedWhole(Snap(S), c', s, root, nil);
        Adopt(S, Plug(c', s));
      }
    }

    /** Gives the node that has taken the place of the deleted one its colour. */
    method SetReplacementRed(y: Node, value: bool, ghost red: bool, ghost S: set<Node>, ghost d: Ctx, ghost c: Ctx,
                             ghost l: Tree, ghost t: Tree)
      requires Linked(Snap(S), Refresh(Graft(d, InRight(c, l, y, red, -MAX_TIME)), MaxOf(t)), t, root, nil)
      modifies y`red
      ensures Linked(Snap(S), Refresh(Graft(d, InRight(c, l, y, value, -MAX_TIME)), MaxOf(t)), t, root, nil)
      ensures Snap(S)[nil] == old(Snap(S))[nil]
    {
      ghost var m, k := MaxOf(t), PathMax(d, MaxOf(t));
      ghost var b, b' := Refresh(InRight(c, l, y, red, -MAX_TIME), k), Refresh(InRight(c, l, y, value, -MAX_TIME), k);
      RefreshGraft(d, InRight(c, l, y, red, -MAX_TIME), m);
      RefreshGraft(d, InRight(c, l, y, value, -MAX_TIME), m);
      LinkedUngraft(Snap(S), Refresh(d, m), b, t, root, nil);
      SetParentRed(y, value, S, b, Plug(Refresh(d, m), t));
      assert WithRed(b, value) == b';
      LinkedGraft(Snap(S), Refresh(d, m), b', t, root, nil);
    }

    /** The rest of DeleteNode when y was spliced out and has taken the place of z. */
    method FinishReplaced(x: Node, y: Node, z: Node, ghost S: set<Node>, ghost d: Ctx, ghost c: Ctx, ghost l: Tree,
                          ghost maxHigh: int, ghost t: Tree)
      requires t.Branch? && t.n == y && (t.left.Leaf? || t.right.Leaf?) && t.red == y.red && y in S && z !in S
      requires var e := Graft(d, InRight(c, l, y, y.red, -MAX_TIME));
        Linked(Snap(S), e, OnlyChild(t), root, nil) && At(Snap(S), x, e, OnlyChild(t), root, nil)
      requires var w := Plug(c, Branch(l, z, z.red, maxHigh, Plug(d, t))); RedBlack(w) && MaxExact(w)
      requires var e := Graft(d, InRight(c, l, y, y.red, -MAX_TIME));
        var w := Before(e) + Inorder(OnlyChild(t)) + After(e);
        Sorted(w) && S == Elements(w) + {root, nil}
      modifies this`T, this`Repr, S
      ensures Valid() && Repr == S
      ensures var e := Graft(d, InRight(c, l, y, t.red, -MAX_TIME));
        Inorder(T) == Before(e) + Inorder(OnlyChild(t)) + After(e)
    {
      hide Shrinking, Elements;
      ghost var s, red := OnlyChild(t), y.red;
      ghost var e, e' := Graft(d, InRight(c, l, y, red, -MAX_TIME)), Graft(d, InRight(c, l, y, z.red, -MAX_TIME));
      ghost var c' := Refresh(e', MaxOf(s));
      ReplacedSeam(d, c, l, y, red, z.red, s, root);
      FixupMaxHigh(x.parent, S, e, s);
      SplicedBelow(d, c, l, z, z.red, maxHigh, t);
      if !y.red {
        SetReplacementRed(y, z.red, red, S, d, c, l, s);
        DeleteFixup(x, S, c', s);
      } else {
        SetReplacementRed(y, z.red, red, S, d, c, l, s);
        LinkedWhole(Snap(S), c', s, root, nil);
        Adopt(S, Plug(c', s));
      }
    }

    /** The successor y, already spliced out, moves into the place of z, and z leaves the tree. */
    method MoveSuccessor(x: Node, y: Node, z: Node, ghost S: set<Node>, ghost d: Ctx, ghost c: Ctx, ghost t: Tree,
                         ghost s: Tree)
      requires t.Branch? && t.n == z && t.left.Branch? && y in S && y !in {root, nil, z} && z !in {root, nil}
      requires y !in CtxNodes(c) && y !in CtxNodes(d) && y !in Nodes(t.left) && y !in Nodes(s)
      requires z !in CtxNodes(c) && z !in CtxNodes(d) && z !in Nodes(t.left) && z !in Nodes(s)
      requires var e := Graft(d, InRight(c, t.left, z, t.red, t.maxHigh));
        Linked(Snap(S), e, s, root, nil) && At(Snap(S), x, e, s, root, nil)
      modifies S
      ensures y.red == old(y.red) && z.red == old(z.red)
      ensures var e := Graft(d, InRight(c, t.left, y, y.red, -MAX_TIME));
        Linked(Snap(S - {z}), e, s, root, nil) && At(Snap(S - {z}), x, e, s, root, nil)
    {
      hide Rep, RepCtx, CtxNodes;
      ghost var r, b := Plug(d, s), InRight(c, t.left, z, t.red, t.maxHigh);
      SeamUp(Snap(S), d, c, t, s, root, nil);
      SeamParent(d, b, b, s, root);
      TakePlace(y, z, S, c, t.(right := r));
      SeamDown(Snap(S), Snap(S - {z}), d, c, Branch(t.left, y, y.red, -MAX_TIME, r), z, s, root, nil);
    }

    /** Removes z from the tree and returns its interval. */
    method DeleteNode(z: Node) returns (interval: Interval?)
      requires Valid() && z in Nodes(T)
      modifies this`T, this`Repr, Repr
      ensures Valid() && Repr == old(Repr) - {z} && interval == z.storedInterval
      ensures Inorder(T) == Without(old(Inorder(T)), z)
      ensures ProperIntervals(old(T)) ==> ProperIntervals(T)
    {
      interval := z.storedInterval;
      ghost var S := Repr;
      ghost var c, t := Focus(Top, T, z);
      LinkedFocus(Snap(S), c, t, root, nil);
      WithoutFocus(c, t);
      if z.left == nil || z.right == nil {
        DeleteOuter(z, S, c, t);
      } else {
        var y := GetSuccessor(z);
        SuccessorInside(c, t);
        DeleteInner(z, y, S, c, t);
      }
      ProperAfterLoss(old(T), T, z);
    }

    /** DeleteNode for a node with at most one child. */
    method DeleteOuter(z: Node, ghost S: set<Node>, ghost c: Ctx, ghost t: Tree)
      requires Linked(Snap(S), c, t, root, nil) && t.Branch? && t.n == z && (t.left.Leaf? || t.right.Leaf?)
      requires RedBlack(Plug(c, t)) && MaxExact(Plug(c, t))
      requires var w := (Before(c) + Inorder(t.left)) + (Inorder(t.right) + After(c));
        Sorted(w) && S - {z} == Elements(w) + {root, nil}
      modifies this`T, this`Repr, S
      ensures Valid() && Repr == S - {z} && Inorder(T) == (Before(c) + Inorder(t.left)) + (Inorder(t.right) + After(c))
    {
      hide RepCtx, RedBlack, Sorted, Elements;
      WithoutOnlyChild(c, t);
      var x := SpliceOut(z, S, c, t);
      LinkedFrame(Snap(S), Snap(S - {z}), c, OnlyChild(t), root, nil);
      FinishSpliced(x, z, S - {z}, c, t);
    }

    /** DeleteNode for a node with two children, of which y is the successor. */
    method DeleteInner(z: Node, y: Node, ghost S: set<Node>, ghost c: Ctx, ghost t: Tree)
      requires Linked(Snap(S), c, t, root, nil) && t.Branch? && t.n == z && t.left.Branch? && t.right.Branch?
      requires RedBlack(Plug(c, t)) && MaxExact(Plug(c, t)) && y == Inorder(t.right)[0]
      requires var w := (Before(c) + Inorder(t.left)) + (Inorder(t.right) + After(c));
        Sorted(w) && S - {z} == Elements(w) + {root, nil}
      modifies this`T, this`Repr, S
      ensures Valid() && Repr == S - {z} && Inorder(T) == (Before(c) + Inorder(t.left)) + (Inorder(t.right) + After(c))
    {
      ghost var d, u := Leftmost(t.right);
      ghost var b := InRight(c, t.left, z, t.red, t.maxHigh);
      LinkedDownRight(Snap(S), c, t, root, nil);
      LinkedGraft(Snap(S), d, b, u, root, nil);
      GraftNodes(d, b);
      PlugNodes(d, u);
      WithoutReplaced(d, c, t.left, u, u.red);
      ParentLink(Snap(S), Graft(d, b), u, root, nil);
      ParentLink(Snap(S), c, t, root, nil);
      var x := SpliceOut(y, S, Graft(d, b), u);
      SeamRed(Snap(S), d, b, u.right, root, nil);
      MoveSuccessor(x, y, z, S, d, c, t, u.right);
      FinishReplaced(x, y, z, S - {z}, d, c, t.left, t.maxHigh, u);
    }

    // ----- Search and query ----------------------------------------------------------

    /** The first node in preorder that stores the interval, or nil. */
    method RecursiveSearch(node: Node, interval: Interval, ghost t: Tree) returns (r: Node)
      requires Valid() && Subtree(t, T) && node == Ref(t, nil)
      ensures var s, k := Preorder(t), FirstHolder(Preorder(t), interval); r == if k < |s| then s[k] else nil
      decreases t
    {
      NilIsLeaf(t, T, nil);
      if node != nil {
        RepSubtree(Snap(Repr), T, root, t, nil);
        if node.storedInterval == interval {
          return node;
        }
        SubtreeBelow(t, T);
        FirstHolderBranch(t, interval);
        var left := RecursiveSearch(node.left, interval, t.left);
        if left != nil {
          return left;
        }
        FirstHolderReal(t.left, interval);
        var right := RecursiveSearch(node.right, interval, t.right);
        if right != nil {
          return right;
        }
        FirstHolderReal(t.right, interval);
      }
      r := nil;
    }

    /** A node of the tree is never the nil sentinel. */
    lemma FirstHolderReal(t: Tree, interval: Interval)
      requires Valid() && Subtree(t, T)
      ensures var s, k := Preorder(t), FirstHolder(Preorder(t), interval); k < |s| ==> s[k] != nil
    {
      var s, k := Preorder(t), FirstHolder(Preorder(t), interval);
      if k < |s| {
        PreorderInside(t, T, k);
      }
    }

    /** Removes the first node in preorder that stores the interval, if there is one. */
    method DeleteInterval(interval: Interval)
      requires Valid()
      modifies this`T, this`Repr, Repr
      ensures Valid()
      ensures var s, k := Preorder(old(T)), FirstHolder(Preorder(old(T)), interval);
        if k < |s| then Inorder(T) == Without(old(Inorder(T)), s[k]) && Repr == old(Repr) - {s[k]}
        else T == old(T) && Repr == old(Repr)
    {
      var node := SearchFromRoot(interval);
      if node != nil {
        FirstHolderReal(T, interval);
        ghost var k := FirstHolder(Preorder(T), interval);
        PreorderInside(T, T, k);
        var _ := DeleteNode(node);
      } else {
        FirstHolderReal(T, interval);
      }
    }

    /** RecursiveSearch called on the root sentinel, which stores no interval and has nothing on its right. */
    method SearchFromRoot(interval: Interval) returns (r: Node)
      requires Valid()
      ensures var s, k := Preorder(T), FirstHolder(Preorder(T), interval); r == if k < |s| then s[k] else nil
    {
      if root.storedInterval == interval {
        return root;
      }
      var left := RecursiveSearch(root.left, interval, T);
      if left != nil {
        return left;
      }
      FirstHolderReal(T, interval);
      LeafBelow(T);
      r := RecursiveSearch(root.right, interval, Leaf);
    }

    /** The stack above its unused entry holds the pending nodes. */
    ghost predicate Running(fs: seq<Pending>)
      reads this`stack, this`top, stack
    {
      top == |fs| + 1 && top <= stack.Length && stack[1..top] == Frames(fs)
    }

    /** Puts x on the stack, which doubles when it is full. */
    method Push(x: Node, ghost fs: seq<Pending>, ghost t: Tree)
      requires Running(fs) && t.Branch? && t.n == x && currentParent == top - 1
      modifies this`stack, this`top, this`currentParent, stack
      ensures Running(fs + [Pending(t, false)]) && currentParent == top - 1
      ensures stack == old(stack) || (fresh(stack) && old(stack).Length == old(top))
    {
      if top == stack.Length {
        var larger := new Frame[2 * stack.Length](i => Frame(null, 0, false));
        forall i | 0 <= i < stack.Length {
          larger[i] := stack[i];
        }
        stack := larger;
      }
      stack[top] := Frame(x, currentParent, false);
      currentParent := top;
      top := top + 1;
      assert (fs + [Pending(t, false)])[..|fs|] == fs;
      assert stack[1..top] == old(stack[1..top]) + [stack[top - 1]];
    }

    /** Notes a hit in the frame at currentParent. */
    method MarkParent(ghost fs: seq<Pending>)
      requires Running(fs) && currentParent == top - 1
      modifies stack
      ensures Running(Marked(fs))
    {
      stack[currentParent] := stack[currentParent].(tryRightBranch := true);
      if fs != [] {
        ghost var gs := fs[..|fs| - 1];
        assert Marked(fs)[..|fs| - 1] == gs;
        assert Frames(fs) == Frames(gs) + [Frames(fs)[|fs| - 1]];
        assert stack[1..top - 1] == old(stack[1..top])[..|fs| - 1] == Frames(gs);
        assert stack[1..top] == stack[1..top - 1] + [stack[top - 1]];
      }
    }

    /** The first half of a round of the query: looks at x and moves below it. */
    method Visit(x: Node, low: int, high: int, result: seq<Interval?>, ghost fs: seq<Pending>, ghost t: Tree)
      returns (result': seq<Interval?>, x': Node)
      requires Valid() && Running(fs) && Subtree(t, T) && t.Branch? && x == t.n && currentParent == top - 1
      modifies this`stack, this`top, this`currentParent, stack
      ensures Valid() && Running(AfterVisit(fs, t, low, high)) && currentParent == top - 1
      ensures x' == Ref(if MaxOf(t.left) >= low then t.left else t.right, nil)
      ensures result' == if Hit(t.n, low, high) then result + [t.n.storedInterval] else result
      ensures stack == old(stack) || (fresh(stack) && old(stack).Length == old(top))
    {
      hide Rep, Subtree, RedBlack, Frames;
      RepSubtree(Snap(Repr), T, root, t, nil);
      RefInHeap(Snap(Repr), t.left, x, nil);
      assert x.left == Ref(t.left, nil) && x.right == Ref(t.right, nil) && x.left.maxHigh == MaxOf(t.left);
      result' := result;
      ghost var gs := fs;
      if Overlap(low, high, x.key, x.high) {
        result' := result + [x.storedInterval];
        MarkParent(fs);
        gs := Marked(fs);
      }
      if x.left.maxHigh >= low {
        Push(x, gs, t);
        x' := x.left;
      } else {
        x' := x.right;
      }
    }

    /** A round of the inner loop of the query: takes the last node off the stack. */
    method Pop(x: Node, ghost fs: seq<Pending>) returns (x': Node)
      requires Valid() && x == nil && Running(fs) && fs != [] && fs[|fs| - 1].tree.Branch? &&
        Subtree(fs[|fs| - 1].tree, T)
      modifies this`top, this`currentParent, stack
      ensures Running(AfterPop(fs)) && x' == Ref(Popped(fs), nil) && (Popped(fs).Branch? ==> currentParent == top - 1)
    {
      ghost var f, gs := fs[|fs| - 1], fs[..|fs| - 1];
      RepSubtree(Snap(Repr), T, root, f.tree, nil);
      assert Frames(fs) == Frames(gs) + [Frame(f.tree.n, |gs|, f.tried)];
      assert stack[top - 1] == stack[1..top][|gs|] && stack[1..top - 1] == stack[1..top][..|gs|] == Frames(gs);
      x' := x;
      top := top - 1;
      if stack[top].tryRightBranch {
        x' := stack[top].startNode.right;
        currentParent := stack[top].parentIndex;
        MarkParent(gs);
      }
    }

    /** The inner loop of the query: goes back to the last pending node whose right subtree is worth a look. */
    method Backtrack(x: Node, low: int, high: int, ghost fs: seq<Pending>, ghost t: Tree)
      returns (x': Node, ghost fs': seq<Pending>, ghost t': Tree)
      requires Valid() && Running(fs) && OnPath(fs, t, T) && x == Ref(t, nil) && currentParent == top - 1
      modifies this`top, this`currentParent, stack
      ensures Valid() && Running(fs') && OnPath(fs', t', T) && x' == Ref(t', nil) && (x' != nil <==> t'.Branch?)
      ensures if x' != nil then currentParent == top - 1 else fs' == []
      ensures Remaining(fs, t, low, high) == Remaining(fs', t', low, high)
      ensures Work(fs') + Size(t') <= Work(fs) + Size(t)
    {
      hide Hits, Remaining, Work;
      x', fs', t' := x, fs, t;
      NilIsLeaf(t, T, nil);
      var run := x' != nil;
      while !run && top > 1
        invariant Valid() && Running(fs') && OnPath(fs', t', T) && x' == Ref(t', nil)
        invariant run == (x' != nil) == t'.Branch? && (run ==> currentParent == top - 1)
        invariant Remaining(fs, t, low, high) == Remaining(fs', t', low, high)
        invariant Work(fs') + Size(t') <= Work(fs) + Size(t)
        decreases if run then 0 else 1, Work(fs')
      {
        RestPop(fs', low, high);
        OnPathPop(fs', t', T);
        WorkPop(fs');
        x' := Pop(x', fs');
        fs', t' := AfterPop(fs'), Popped(fs');
        NilIsLeaf(t', T, nil);
        run := x' != nil;
      }
    }

    /** The round finds a node of the tree, and the stack not higher than the tree. */
    lemma RoundStarts(fs: seq<Pending>, t: Tree)
      requires Running(fs) && OnPath(fs, t, T) && t.Branch?
      ensures Subtree(t, T) && top <= Height(T)
    {
    }

    /** One round of the query. */
    method QueryRound(x: Node, low: int, high: int, result: seq<Interval?>, ghost fs: seq<Pending>, ghost t: Tree)
      returns (result': seq<Interval?>, x': Node, ghost fs': seq<Pending>, ghost t': Tree)
      requires Valid() && Running(fs) && OnPath(fs, t, T) && t.Branch? && x == t.n && currentParent == top - 1
      modifies this`stack, this`top, this`currentParent, stack
      ensures Valid() && Running(fs') && OnPath(fs', t', T) && x' == Ref(t', nil) && (x' != nil <==> t'.Branch?)
      ensures if x' != nil then currentParent == top - 1 else fs' == []
      ensures result + Remaining(fs, t, low, high) == result' + Remaining(fs', t', low, high)
      ensures Work(fs') + Size(t') < Work(fs) + Size(t)
      ensures stack == old(stack) || (fresh(stack) && old(stack.Length) <= Height(T))
    {
      hide *;
      RoundStarts(fs, t);
      RestStep(result, fs, t, low, high);
      WorkVisit(fs, t, low, high);
      OnPathVisit(fs, t, T, low, high);
      result', x' := Visit(x, low, high, result, fs, t);
      x', fs', t' := Backtrack(x', low, high, AfterVisit(fs, t, low, high), if MaxOf(t.left) >= low then t.left
        else t.right);
    }

    lemma RefIsNode(t: Tree)
      requires t.Branch?
      ensures Ref(t, nil) == t.n
    {
    }

    lemma QueryStarts(low: int, high: int)
      requires Valid() && StackAtRest()
      ensures root.left == Ref(T, nil) && (root.left != nil <==> T.Branch?)
      ensures top == 1 && Running([]) && OnPath([], T, T) && Remaining([], T, low, high) == Explore(T, low, high)
    {
      NilIsLeaf(T, T, nil);
    }

    lemma QueryEnds(t: Tree, low: int, high: int)
      requires Valid() && Running([]) && t.Leaf?
      ensures StackAtRest() && Remaining([], t, low, high) == []
      ensures Explore(T, low, high) == Hits(Preorder(T), low, high) <==> !Missed(T, low, high)
      ensures -MAX_TIME < low && (Covered(T) || ProperIntervals(T)) ==> !Missed(T, low, high)
    {
      ExploreIsExact(T, low, high);
      if ProperIntervals(T) {
        ProperIsCovered(T);
      }
      if -MAX_TIME < low && Covered(T) {
        CoveredMissesNothing(T, low, high);
      }
    }

    /** The stored intervals that overlap [low, high], in preorder: all of them unless the traversal passes a hit over,
        which it does not for a range above the smallest time if no stored interval ends before it begins. */
    method Query(low: int, high: int) returns (result: seq<Interval?>)
      requires Valid() && StackAtRest()
      modifies this`stack, this`top, this`currentParent, stack
      ensures Valid() && StackAtRest() && (stack == old(stack) || fresh(stack))
      ensures result == Explore(T, low, high)
      ensures result == Hits(Preorder(T), low, high) <==> !Missed(T, low, high)
      ensures -MAX_TIME < low && (Covered(T) || ProperIntervals(T)) ==> !Missed(T, low, high)
      ensures Height(T) < old(stack.Length) ==> stack == old(stack)
    {
      hide *;
      QueryStarts(low, high);
      result := [];
      var x: Node := root.left;
      var run := x != nil;
      currentParent := 0;
      ghost var fs, t := [], T;
      while run
        invariant Valid() && (stack == old(stack) || (fresh(stack) && old(stack.Length) <= Height(T)))
        invariant Running(fs) && OnPath(fs, t, T) && x == Ref(t, nil) && run == (x != nil) == t.Branch?
        invariant if run then currentParent == top - 1 else fs == []
        invariant Explore(T, low, high) == result + Remaining(fs, t, low, high)
        decreases Work(fs) + Size(t)
      {
        RefIsNode(t);
        result, x, fs, t := QueryRound(x, low, high, result, fs, t);
        run := x != nil;
      }
      QueryEnds(t, low, high);
    }
  }
}
