/** The nodes of the interval tree, and the abstract red-black trees and one-hole contexts they represent.
    Everything here is a value: no function or lemma of this module reads the heap. */
module IntervalTreeShape {
  import opened Words

  /** The largest representable simulation time, in units of the smallest one. */
  const MAX_TIME: int := 0x7FFF_FFFF_FFFF_FFFF

  type Time = t: int | -MAX_TIME <= t <= MAX_TIME

  /** An interval may end before it begins. */
  class Interval {
    const low: Time
    const high: Time

    constructor (low: Time, high: Time)
      ensures this.low == low && this.high == high
    {
      this.low := low;
      this.high := high;
    }
  }

  /** A tree node. The interval and its two ends never change once the node exists. */
  class Node {
    const storedInterval: Interval?
    const key: Time
    const high: Time
    var maxHigh: int
    var red: bool
    var left: Node?
    var right: Node?
    var parent: Node?

    constructor Sentinel(time: Time)
      ensures key == high == maxHigh == time && !red && storedInterval == null
    {
      key, high, maxHigh := time, time, time;
      red, storedInterval := false, null;
    }

    constructor (interval: Interval)
      ensures storedInterval == interval && key == interval.low && high == maxHigh == interval.high && !red
    {
      storedInterval := interval;
      key, high, maxHigh := interval.low, interval.high, interval.high;
      red := false;
    }
  }

  /** The tree below a node, with the colour and the augmentation each node carries. */
  datatype Tree = Leaf | Branch(left: Tree, n: Node, red: bool, maxHigh: int, right: Tree)

  /** A tree with one subtree missing, read from the hole towards the root. */
  datatype Ctx =
    | Top
    | InLeft(up: Ctx, n: Node, red: bool, maxHigh: int, right: Tree)
    | InRight(up: Ctx, left: Tree, n: Node, red: bool, maxHigh: int)

  function Max(a: int, b: int): int { if a < b then b else a }

  function Plug(c: Ctx, t: Tree): Tree {
    match c
    case Top => t
    case InLeft(up, n, red, maxHigh, right) => Plug(up, Branch(t, n, red, maxHigh, right))
    case InRight(up, left, n, red, maxHigh) => Plug(up, Branch(left, n, red, maxHigh, t))
  }

  /** The context d put inside the hole of c. */
  function Graft(d: Ctx, c: Ctx): Ctx {
    match d
    case Top => c
    case InLeft(up, n, red, maxHigh, right) => InLeft(Graft(up, c), n, red, maxHigh, right)
    case InRight(up, left, n, red, maxHigh) => InRight(Graft(up, c), left, n, red, maxHigh)
  }

  lemma PlugGraft(d: Ctx, c: Ctx, t: Tree)
    ensures Plug(Graft(d, c), t) == Plug(c, Plug(d, t))
  {
  }

  lemma GraftIntoTop(d: Ctx)
    ensures Graft(d, Top) == d
  {
  }

  // ----- Nodes ------------------------------------------------------------

  ghost function Nodes(t: Tree): set<Node> {
    if t.Leaf? then {} else Nodes(t.left) + {t.n} + Nodes(t.right)
  }

  ghost function CtxNodes(c: Ctx): set<Node> {
    match c
    case Top => {}
    case InLeft(up, n, _, _, right) => CtxNodes(up) + {n} + Nodes(right)
    case InRight(up, left, n, _, _) => CtxNodes(up) + {n} + Nodes(left)
  }

  /** No node occurs twice. */
  ghost predicate Distinct(t: Tree) {
    t.Branch? ==>
      t.n !in Nodes(t.left) && t.n !in Nodes(t.right) && Nodes(t.left) !! Nodes(t.right) &&
      Distinct(t.left) && Distinct(t.right)
  }

  ghost predicate DistinctCtx(c: Ctx) {
    match c
    case Top => true
    case InLeft(up, n, _, _, right) =>
      n !in CtxNodes(up) && n !in Nodes(right) && Nodes(right) !! CtxNodes(up) && Distinct(right) && DistinctCtx(up)
    case InRight(up, left, n, _, _) =>
      n !in CtxNodes(up) && n !in Nodes(left) && Nodes(left) !! CtxNodes(up) && Distinct(left) && DistinctCtx(up)
  }

  lemma PlugNodes(c: Ctx, t: Tree)
    ensures Nodes(Plug(c, t)) == CtxNodes(c) + Nodes(t)
  {
    match c
    case Top =>
    case InLeft(up, n, red, maxHigh, right) => PlugNodes(up, Branch(t, n, red, maxHigh, right));
    case InRight(up, left, n, red, maxHigh) => PlugNodes(up, Branch(left, n, red, maxHigh, t));
  }

  lemma PathInCtx(c: Ctx)
    ensures Elements(Before(c)) <= CtxNodes(c) && Elements(After(c)) <= CtxNodes(c)
  {
    match c
    case Top =>
    case InLeft(up, n, _, _, right) =>
      InorderNodes(right);
      ElementsAppend([n] + Inorder(right), After(up));
      ElementsAppend([n], Inorder(right));
    case InRight(up, left, n, _, _) =>
      InorderNodes(left);
      ElementsAppend(Before(up) + Inorder(left), [n]);
      ElementsAppend(Before(up), Inorder(left));
  }

  // ----- Order ------------------------------------------------------------

  function Inorder(t: Tree): seq<Node> {
    if t.Leaf? then [] else Inorder(t.left) + [t.n] + Inorder(t.right)
  }

  function Before(c: Ctx): seq<Node> {
    match c
    case Top => []
    case InLeft(up, n, _, _, right) => Before(up)
    case InRight(up, left, n, _, _) => Before(up) + Inorder(left) + [n]
  }

  function After(c: Ctx): seq<Node> {
    match c
    case Top => []
    case InLeft(up, n, _, _, right) => [n] + Inorder(right) + After(up)
    case InRight(up, left, n, _, _) => After(up)
  }

  lemma {:induction false} GraftOrder(d: Ctx, c: Ctx)
    ensures Before(Graft(d, c)) == Before(c) + Before(d) && After(Graft(d, c)) == After(d) + After(c)
  {
    hide Inorder;
    match d
    case Top =>
    case InLeft(up, n, _, _, right) =>
      GraftOrder(up, c);
      assert [n] + Inorder(right) + (After(up) + After(c)) == After(d) + After(c);
    case InRight(up, left, n, _, _) =>
      GraftOrder(up, c);
      assert (Before(c) + Before(up)) + Inorder(left) + [n] == Before(c) + Before(d);
  }

  lemma ElementsMember(s: seq<Node>, k: nat)
    requires k < |s|
    ensures s[k] in Elements(s)
  {
    if k > 0 {
      ElementsMember(s[1..], k - 1);
    }
  }

  lemma FirstAndLast(t: Tree)
    requires t.Branch?
    ensures Inorder(t)[0] == if t.left.Leaf? then t.n else Inorder(t.left)[0]
    ensures Inorder(t)[|Inorder(t)| - 1] == if t.right.Leaf? then t.n else Inorder(t.right)[|Inorder(t.right)| - 1]
  {
  }

  lemma OrderAround(c: Ctx, t: Tree)
    requires t.Branch?
    ensures Inorder(Plug(c, t)) == (Before(c) + Inorder(t.left)) + [t.n] + (Inorder(t.right) + After(c))
  {
    PlugInorder(c, t);
    Regroup(Before(c), Inorder(t.left), [t.n], Inorder(t.right), After(c));
  }

  /** The node after one with a right subtree is the first of that subtree. */
  lemma SuccessorInside(c: Ctx, t: Tree)
    requires t.Branch? && t.right.Branch?
    ensures var s, k := Inorder(Plug(c, t)), |Before(c) + Inorder(t.left)|;
      k + 1 < |s| && s[k] == t.n && s[k + 1] == Inorder(t.right)[0]
  {
    OrderAround(c, t);
  }

  lemma ApartFromRest(c: Ctx, t: Tree)
    requires t.Branch? && Distinct(t) && t.n !in CtxNodes(c)
    ensures t.n !in Elements(Before(c) + Inorder(t.left)) && t.n !in Elements(Inorder(t.right) + After(c))
  {
    InorderNodes(t.left);
    InorderNodes(t.right);
    PathInCtx(c);
    ElementsAppend(Before(c), Inorder(t.left));
    ElementsAppend(Inorder(t.right), After(c));
  }

  /** A node of a tree without repetitions stands at one index, between the nodes left and right of it. */
  lemma IndexOfFocus(c: Ctx, t: Tree, k: nat)
    requires t.Branch? && Distinct(t) && t.n !in CtxNodes(c)
    requires k < |Inorder(Plug(c, t))| && Inorder(Plug(c, t))[k] == t.n
    ensures k == |Before(c) + Inorder(t.left)|
  {
    var a, b := Before(c) + Inorder(t.left), Inorder(t.right) + After(c);
    OrderAround(c, t);
    ApartFromRest(c, t);
    if k < |a| {
      ElementsMember(a, k);
    }
    if k > |a| {
      ElementsMember(b, k - |a| - 1);
    }
  }

  /** Equal keys may stand in any order. */
  ghost predicate Sorted(s: seq<Node>) {
    |s| < 2 || (s[0].key <= s[1].key && Sorted(s[1..]))
  }

  lemma {:induction false} SortedPairwise(s: seq<Node>)
    ensures Sorted(s) <==> forall i, j :: 0 <= i < j < |s| ==> s[i].key <= s[j].key
  {
    if |s| >= 2 {
      var r := s[1..];
      SortedPairwise(r);
      if Sorted(s) {
        forall i, j | 0 <= i < j < |s| ensures s[i].key <= s[j].key {
          assert s[j] == r[j - 1] && r[0].key <= r[j - 1].key;
          if i > 0 {
            assert s[i] == r[i - 1];
          }
        }
      }
      if forall i, j :: 0 <= i < j < |s| ==> s[i].key <= s[j].key {
        assert forall i, j :: 0 <= i < j < |r| ==> r[i] == s[i + 1] && r[j] == s[j + 1];
      }
    }
  }

  lemma Regroup(a: seq<Node>, b: seq<Node>, c: seq<Node>, d: seq<Node>, e: seq<Node>)
    ensures a + (b + c + d) + e == (a + b + c) + d + e == a + b + (c + d + e)
  {
  }

  lemma {:induction false} PlugInorder(c: Ctx, t: Tree)
    ensures Inorder(Plug(c, t)) == Before(c) + Inorder(t) + After(c)
  {
    match c
    case Top =>
    case InLeft(up, n, red, maxHigh, right) =>
      PlugInorder(up, Branch(t, n, red, maxHigh, right));
      Regroup(Before(up), Inorder(t), [n], Inorder(right), After(up));
    case InRight(up, left, n, red, maxHigh) =>
      PlugInorder(up, Branch(left, n, red, maxHigh, t));
      Regroup(Before(up), Inorder(left), [n], Inorder(t), After(up));
  }

  lemma SameOrder(c: Ctx, s: Tree, t: Tree)
    requires Inorder(s) == Inorder(t)
    ensures Inorder(Plug(c, s)) == Inorder(Plug(c, t))
  {
    PlugInorder(c, s);
    PlugInorder(c, t);
  }

  ghost function Elements(s: seq<Node>): set<Node> { if s == [] then {} else {s[0]} + Elements(s[1..]) }

  lemma {:induction false} ElementsAppend(s: seq<Node>, s': seq<Node>)
    ensures Elements(s + s') == Elements(s) + Elements(s')
  {
    if s == [] {
      assert s + s' == s';
    } else {
      ElementsAppend(s[1..], s');
      assert (s + s')[1..] == s[1..] + s';
    }
  }

  lemma {:induction false} InorderNodes(t: Tree)
    ensures Nodes(t) == Elements(Inorder(t))
  {
    if t.Branch? {
      InorderNodes(t.left);
      InorderNodes(t.right);
      ElementsAppend(Inorder(t.left) + [t.n], Inorder(t.right));
      ElementsAppend(Inorder(t.left), [t.n]);
    }
  }

  /** The place an inserted node takes: after every key not above its own. */
  function SortedInsert(s: seq<Node>, z: Node): seq<Node> {
    if s == [] || s[0].key > z.key then [z] + s else [s[0]] + SortedInsert(s[1..], z)
  }

  lemma {:induction false} SortedInsertSplit(a: seq<Node>, z: Node, b: seq<Node>)
    requires forall i :: 0 <= i < |a| ==> a[i].key <= z.key
    requires b != [] ==> b[0].key > z.key
    ensures SortedInsert(a + b, z) == a + [z] + b
  {
    if a == [] {
      assert a + b == b;
    } else {
      assert (a + b)[1..] == a[1..] + b;
      SortedInsertSplit(a[1..], z, b);
      assert a == [a[0]] + a[1..];
      assert [a[0]] + (a[1..] + [z] + b) == a + [z] + b;
    }
  }

  lemma {:induction false} SortedInsertAdds(s: seq<Node>, z: Node)
    ensures multiset(SortedInsert(s, z)) == multiset(s) + multiset{z}
  {
    if s != [] && s[0].key <= z.key {
      SortedInsertAdds(s[1..], z);
      assert s == [s[0]] + s[1..];
    }
  }

  lemma {:induction false} SortedInsertKeepsOrder(s: seq<Node>, z: Node)
    requires Sorted(s)
    ensures Sorted(SortedInsert(s, z))
  {
    if s == [] || s[0].key > z.key {
      assert ([z] + s)[1..] == s;
    } else {
      var r := SortedInsert(s[1..], z);
      SortedInsertKeepsOrder(s[1..], z);
      assert ([s[0]] + r)[1..] == r;
    }
  }

  /** The order without the first occurrence of z. */
  function Without(s: seq<Node>, z: Node): seq<Node> {
    if s == [] then [] else if s[0] == z then s[1..] else [s[0]] + Without(s[1..], z)
  }

  lemma {:induction false} WithoutSplit(a: seq<Node>, z: Node, b: seq<Node>)
    requires z !in Elements(a)
    ensures Without(a + [z] + b, z) == a + b
  {
    if a == [] {
      assert a + [z] + b == [z] + b;
      assert a + b == b;
    } else {
      WithoutSplit(a[1..], z, b);
      assert (a + [z] + b)[1..] == a[1..] + [z] + b;
      assert a + b == [a[0]] + (a[1..] + b);
    }
  }

  lemma SortedRemove(a: seq<Node>, z: Node, b: seq<Node>)
    requires Sorted(a + [z] + b)
    ensures Sorted(a + b)
  {
    var s := a + [z] + b;
    SortedPairwise(s);
    SortedPairwise(a + b);
    forall i, j | 0 <= i < j < |a + b| ensures (a + b)[i].key <= (a + b)[j].key {
      var i', j' := if i < |a| then i else i + 1, if j < |a| then j else j + 1;
      assert s[i'] == (a + b)[i] && s[j'] == (a + b)[j];
    }
  }

  lemma KeysBefore(a: seq<Node>, n: Node, b: seq<Node>)
    requires Sorted(a + [n] + b)
    ensures forall i :: 0 <= i < |a| ==> a[i].key <= n.key
  {
    var s := a + [n] + b;
    SortedPairwise(s);
    assert s[|a|] == n;
    forall i | 0 <= i < |a| ensures a[i].key <= n.key {
      assert s[i] == a[i];
    }
  }

  /** Left of a node whose key is not above a bound, no key is above it. */
  lemma BeforeBranch(c: Ctx, t: Tree, key: int)
    requires Sorted(Inorder(Plug(c, t))) && t.Branch? && t.n.key <= key
    ensures var b := Before(InRight(c, t.left, t.n, t.red, t.maxHigh)); forall i :: 0 <= i < |b| ==> b[i].key <= key
  {
    OrderAround(c, t);
    KeysBefore(Before(c) + Inorder(t.left), t.n, Inorder(t.right) + After(c));
  }

  /** An empty place with the keys on its left not above, and those on its right above, the inserted key. */
  lemma InsertionPlace(c: Ctx, z: Node)
    requires forall i :: 0 <= i < |Before(c)| ==> Before(c)[i].key <= z.key
    requires After(c) != [] ==> After(c)[0].key > z.key
    ensures SortedInsert(Inorder(Plug(c, Leaf)), z) == Before(c) + [z] + After(c)
  {
    PlugInorder(c, Leaf);
    assert Before(c) + [] + After(c) == Before(c) + After(c);
    SortedInsertSplit(Before(c), z, After(c));
  }

  lemma ElementsCons(n: Node, s: seq<Node>)
    ensures Elements([n] + s) == {n} + Elements(s)
  {
  }

  lemma {:induction false} SortedInsertElements(s: seq<Node>, z: Node)
    ensures Elements(SortedInsert(s, z)) == Elements(s) + {z}
  {
    if s == [] || s[0].key > z.key {
      ElementsCons(z, s);
    } else {
      SortedInsertElements(s[1..], z);
      ElementsCons(s[0], SortedInsert(s[1..], z));
      ElementsCons(s[0], s[1..]);
      assert s == [s[0]] + s[1..];
    }
  }

  /** The order once the focused node is gone. */
  lemma WithoutFocus(c: Ctx, t: Tree)
    requires t.Branch? && Distinct(t) && t.n !in CtxNodes(c) && Sorted(Inorder(Plug(c, t)))
    ensures var w := Without(Inorder(Plug(c, t)), t.n);
      w == (Before(c) + Inorder(t.left)) + (Inorder(t.right) + After(c)) &&
      Elements(w) == Nodes(Plug(c, t)) - {t.n} && Sorted(w)
  {
    var a, b := Before(c) + Inorder(t.left), Inorder(t.right) + After(c);
    OrderAround(c, t);
    ApartFromRest(c, t);
    WithoutSplit(a, t.n, b);
    SortedRemove(a, t.n, b);
    InorderNodes(Plug(c, t));
    ElementsAppend(a + [t.n], b);
    ElementsAppend(a, [t.n]);
    ElementsAppend(a, b);
  }

  lemma GraftNodes(d: Ctx, c: Ctx)
    ensures CtxNodes(Graft(d, c)) == CtxNodes(d) + CtxNodes(c)
  {
  }

  // ----- Colours and the augmentation ---------------------------------------

  function MaxOf(t: Tree): int { if t.Leaf? then -MAX_TIME else t.maxHigh }

  predicate Red(t: Tree) { t.Branch? && t.red }

  predicate RedCtx(c: Ctx) { !c.Top? && c.red }

  function Blacken(t: Tree): Tree { if t.Leaf? then t else t.(red := false) }

  function NodeMax(l: Tree, n: Node, r: Tree): int { Max(n.high, Max(MaxOf(l), MaxOf(r))) }

  function BlackHeight(t: Tree): nat {
    if t.Leaf? then 0 else BlackHeight(t.left) + if t.red then 0 else 1
  }

  /** Every path below a node crosses as many black nodes. */
  predicate Balanced(t: Tree) {
    t.Branch? ==> BlackHeight(t.left) == BlackHeight(t.right) && Balanced(t.left) && Balanced(t.right)
  }

  /** No red node has a red child. */
  predicate NoRedRed(t: Tree) {
    t.Branch? ==> (t.red ==> !Red(t.left) && !Red(t.right)) && NoRedRed(t.left) && NoRedRed(t.right)
  }

  /** Every node carries the largest upper end stored below it. */
  predicate MaxExact(t: Tree) {
    t.Branch? ==> t.maxHigh == NodeMax(t.left, t.n, t.right) && MaxExact(t.left) && MaxExact(t.right)
  }

  predicate RedBlack(t: Tree) { Balanced(t) && NoRedRed(t) && !Red(t) }

  /** The context accepts a subtree of black height h. The node below the root sentinel is black. */
  predicate CtxRedBlack(c: Ctx, h: nat) {
    match c
    case Top => true
    case InLeft(up, n, red, _, sib) =>
      BlackHeight(sib) == h && Balanced(sib) && NoRedRed(sib) &&
      (red ==> !Red(sib) && !RedCtx(up) && !up.Top?) && CtxRedBlack(up, h + if red then 0 else 1)
    case InRight(up, sib, n, red, _) =>
      BlackHeight(sib) == h && Balanced(sib) && NoRedRed(sib) &&
      (red ==> !Red(sib) && !RedCtx(up) && !up.Top?) && CtxRedBlack(up, h + if red then 0 else 1)
  }

  /** The subtrees hanging off the path to the hole carry the right maxima. */
  predicate SiblingsExact(c: Ctx) {
    match c
    case Top => true
    case InLeft(up, _, _, _, sib) => MaxExact(sib) && SiblingsExact(up)
    case InRight(up, sib, _, _, _) => MaxExact(sib) && SiblingsExact(up)
  }

  /** The nodes on the path carry the right maxima too, if m is the maximum of the plugged subtree. */
  predicate PathExact(c: Ctx, m: int) {
    match c
    case Top => true
    case InLeft(up, n, _, maxHigh, sib) => maxHigh == Max(n.high, Max(m, MaxOf(sib))) && PathExact(up, maxHigh)
    case InRight(up, sib, n, _, maxHigh) => maxHigh == Max(n.high, Max(MaxOf(sib), m)) && PathExact(up, maxHigh)
  }

  /** The context with the maxima along its path recomputed. */
  function Refresh(c: Ctx, m: int): Ctx {
    match c
    case Top => Top
    case InLeft(up, n, red, _, sib) =>
      var mx := Max(n.high, Max(m, MaxOf(sib)));
      InLeft(Refresh(up, mx), n, red, mx, sib)
    case InRight(up, sib, n, red, _) =>
      var mx := Max(n.high, Max(MaxOf(sib), m));
      InRight(Refresh(up, mx), sib, n, red, mx)
  }

  lemma {:induction false} RefreshKeeps(c: Ctx, m: int)
    ensures PathExact(Refresh(c, m), m)
    ensures SiblingsExact(c) ==> SiblingsExact(Refresh(c, m))
    ensures RedCtx(Refresh(c, m)) == RedCtx(c) && Refresh(c, m).Top? == c.Top?
    ensures Before(Refresh(c, m)) == Before(c) && After(Refresh(c, m)) == After(c)
    ensures CtxNodes(Refresh(c, m)) == CtxNodes(c)
  {
    match c
    case Top =>
    case InLeft(up, n, _, _, sib) => RefreshKeeps(up, Max(n.high, Max(m, MaxOf(sib))));
    case InRight(up, sib, n, _, _) => RefreshKeeps(up, Max(n.high, Max(MaxOf(sib), m)));
  }

  lemma {:induction false} RefreshKeepsColours(c: Ctx, m: int, h: nat)
    ensures CtxRedBlack(Refresh(c, m), h) == CtxRedBlack(c, h)
  {
    match c
    case Top =>
    case InLeft(up, n, red, _, sib) =>
      var mx := Max(n.high, Max(m, MaxOf(sib)));
      RefreshKeeps(up, mx);
      RefreshKeepsColours(up, mx, h + if red then 0 else 1);
    case InRight(up, sib, n, red, _) =>
      var mx := Max(n.high, Max(MaxOf(sib), m));
      RefreshKeeps(up, mx);
      RefreshKeepsColours(up, mx, h + if red then 0 else 1);
  }

  /** The maximum that reaches the hole of the outer context when m is plugged into the inner one. */
  function PathMax(d: Ctx, m: int): int {
    match d
    case Top => m
    case InLeft(up, n, _, _, sib) => PathMax(up, Max(n.high, Max(m, MaxOf(sib))))
    case InRight(up, sib, n, _, _) => PathMax(up, Max(n.high, Max(MaxOf(sib), m)))
  }

  lemma {:induction false} RefreshGraft(d: Ctx, c: Ctx, m: int)
    ensures Refresh(Graft(d, c), m) == Graft(Refresh(d, m), Refresh(c, PathMax(d, m)))
  {
    match d
    case Top =>
    case InLeft(up, n, _, _, sib) => RefreshGraft(up, c, Max(n.high, Max(m, MaxOf(sib))));
    case InRight(up, sib, n, _, _) => RefreshGraft(up, c, Max(n.high, Max(MaxOf(sib), m)));
  }

  /** The node and the maximum at the seam of two contexts do not take part in colours and heights. */
  lemma {:induction false} GraftSwap(d: Ctx, c: Ctx, l: Tree, y: Node, z: Node, red: bool, maxHigh: int, maxHigh': int,
                                     h: nat)
    ensures var e, e' := Graft(d, InRight(c, l, y, red, maxHigh)), Graft(d, InRight(c, l, z, red, maxHigh'));
      CtxRedBlack(e, h) == CtxRedBlack(e', h) && SiblingsExact(e) == SiblingsExact(e') && RedCtx(e) == RedCtx(e') &&
        !e.Top? && !e'.Top?
  {
    match d
    case Top =>
    case InLeft(up, n, r, _, sib) => GraftSwap(up, c, l, y, z, red, maxHigh, maxHigh', h + if r then 0 else 1);
    case InRight(up, sib, n, r, _) => GraftSwap(up, c, l, y, z, red, maxHigh, maxHigh', h + if r then 0 else 1);
  }

  lemma PlugExact(c: Ctx, t: Tree)
    requires SiblingsExact(c) && PathExact(c, MaxOf(t)) && MaxExact(t)
    ensures MaxExact(Plug(c, t))
  {
    match c
    case Top =>
    case InLeft(up, n, red, maxHigh, right) => PlugExact(up, Branch(t, n, red, maxHigh, right));
    case InRight(up, left, n, red, maxHigh) => PlugExact(up, Branch(left, n, red, maxHigh, t));
  }

  lemma PlugRedBlack(c: Ctx, t: Tree)
    requires CtxRedBlack(c, BlackHeight(t)) && Balanced(t) && NoRedRed(t) && (RedCtx(c) ==> !Red(t))
    ensures Balanced(Plug(c, t)) && NoRedRed(Plug(c, t)) && (Red(Plug(c, t)) ==> c.Top? && Red(t))
  {
    match c
    case Top =>
    case InLeft(up, n, red, maxHigh, right) => PlugRedBlack(up, Branch(t, n, red, maxHigh, right));
    case InRight(up, left, n, red, maxHigh) => PlugRedBlack(up, Branch(left, n, red, maxHigh, t));
  }

  /** Moving the focus to a subtree of the focused tree keeps every invariant. */
  lemma {:induction false} GraftInvariant(d: Ctx, c: Ctx, t: Tree)
    requires var s := Plug(d, t);
      CtxRedBlack(c, BlackHeight(s)) && Balanced(s) && NoRedRed(s) && (RedCtx(c) || c.Top? ==> !Red(s)) &&
      SiblingsExact(c) && PathExact(c, MaxOf(s)) && MaxExact(s)
    ensures CtxRedBlack(Graft(d, c), BlackHeight(t)) && Balanced(t) && NoRedRed(t)
    ensures RedCtx(Graft(d, c)) || Graft(d, c).Top? ==> !Red(t)
    ensures SiblingsExact(Graft(d, c)) && PathExact(Graft(d, c), MaxOf(t)) && MaxExact(t)
  {
    match d
    case Top =>
    case InLeft(up, n, red, maxHigh, right) => GraftInvariant(up, c, Branch(t, n, red, maxHigh, right));
    case InRight(up, left, n, red, maxHigh) => GraftInvariant(up, c, Branch(left, n, red, maxHigh, t));
  }

  // ----- Rotations ------------------------------------------------------------

  function RotateLeft(t: Tree): Tree
    requires t.Branch? && t.right.Branch?
  {
    var y := t.right;
    var xMax := Max(MaxOf(t.left), Max(MaxOf(y.left), t.n.high));
    Branch(Branch(t.left, t.n, t.red, xMax, y.left), y.n, y.red, Max(xMax, Max(MaxOf(y.right), y.n.high)), y.right)
  }

  function RotateRight(t: Tree): Tree
    requires t.Branch? && t.left.Branch?
  {
    var x := t.left;
    var yMax := Max(MaxOf(x.right), Max(MaxOf(t.right), t.n.high));
    Branch(x.left, x.n, x.red, Max(MaxOf(x.left), Max(yMax, x.n.high)), Branch(x.right, t.n, t.red, yMax, t.right))
  }

  /** A rotation neither reorders the nodes nor changes the maximum of the rotated subtree. */
  lemma RotateLeftOrder(t: Tree)
    requires t.Branch? && t.right.Branch?
    ensures Inorder(RotateLeft(t)) == Inorder(t)
  {
    var y := t.right;
    Regroup(Inorder(t.left), [t.n], Inorder(y.left), [y.n], Inorder(y.right));
    assert Inorder(RotateLeft(t).left) == Inorder(t.left) + [t.n] + Inorder(y.left);
    assert Inorder(y) == Inorder(y.left) + [y.n] + Inorder(y.right);
  }

  lemma RotateLeftMax(t: Tree)
    requires t.Branch? && t.right.Branch? && MaxExact(t)
    ensures MaxExact(RotateLeft(t)) && MaxOf(RotateLeft(t)) == MaxOf(t)
  {
    assert MaxExact(t.right);
    assert MaxExact(RotateLeft(t).left);
  }

  lemma RotateRightOrder(t: Tree)
    requires t.Branch? && t.left.Branch?
    ensures Inorder(RotateRight(t)) == Inorder(t)
  {
    var x := t.left;
    Regroup(Inorder(x.left), [x.n], Inorder(x.right), [t.n], Inorder(t.right));
    assert Inorder(RotateRight(t).right) == Inorder(x.right) + [t.n] + Inorder(t.right);
    assert Inorder(x) == Inorder(x.left) + [x.n] + Inorder(x.right);
  }

  lemma RotateRightMax(t: Tree)
    requires t.Branch? && t.left.Branch? && MaxExact(t)
    ensures MaxExact(RotateRight(t)) && MaxOf(RotateRight(t)) == MaxOf(t)
  {
    assert MaxExact(t.left);
    assert MaxExact(RotateRight(t).right);
  }

  /** The leftmost node, reached over left branches only. */
  lemma {:induction false} Leftmost(t: Tree) returns (d: Ctx, s: Tree)
    requires t.Branch?
    ensures Plug(d, s) == t && s.Branch? && s.left.Leaf? && Before(d) == [] && Inorder(t)[0] == s.n
  {
    if t.left.Leaf? {
      d, s := Top, t;
    } else {
      var e;
      e, s := Leftmost(t.left);
      d := Graft(e, InLeft(Top, t.n, t.red, t.maxHigh, t.right));
      PlugGraft(e, InLeft(Top, t.n, t.red, t.maxHigh, t.right), s);
      GraftOrder(e, InLeft(Top, t.n, t.red, t.maxHigh, t.right));
      FirstAndLast(t);
    }
  }

  // ----- Height ------------------------------------------------------------

  function Height(t: Tree): nat { if t.Leaf? then 0 else 1 + Max(Height(t.left), Height(t.right)) }

  lemma {:induction false} HeightByBlackHeight(t: Tree)
    requires Balanced(t) && NoRedRed(t)
    ensures Height(t) <= 2 * BlackHeight(t) + if Red(t) then 1 else 0
    ensures |Inorder(t)| + 1 >= Pow2(BlackHeight(t))
  {
    if t.Branch? {
      HeightByBlackHeight(t.left);
      HeightByBlackHeight(t.right);
    }
  }

  lemma SquareMonotone(a: nat, b: nat)
    requires a <= b
    ensures a * a <= b * b
  {
    assert a * a <= a * b;
  }

  /** The height of a red-black tree of n nodes is at most 2 * log2(n + 1). */
  lemma HeightIsLogarithmic(t: Tree)
    requires RedBlack(t)
    ensures Pow2(Height(t)) <= (|Inorder(t)| + 1) * (|Inorder(t)| + 1)
  {
    HeightByBlackHeight(t);
    var b, n := BlackHeight(t), |Inorder(t)| + 1;
    Pow2Monotone(Height(t), b + b);
    Pow2Add(b, b);
    SquareMonotone(Pow2(b), n);
  }
}
