/** What a range query returns: the traversal of the code as a function, and the plain scan it stands for. */
module IntervalTreeQuery {
  import opened IntervalTreeShape

  /** The comparison the code makes between [a1, a2] and [b1, b2]. */
  predicate Overlap(a1: int, a2: int, b1: int, b2: int) {
    if a1 <= b1 then b1 <= a2 else a1 <= b2
  }

  predicate Within(p: int, a: int, b: int) { a <= p <= b }

  /** For intervals that are not empty the comparison finds out whether they share a point. */
  lemma OverlapMeansCommonPoint(a1: int, a2: int, b1: int, b2: int)
    requires a1 <= a2 && b1 <= b2
    ensures Overlap(a1, a2, b1, b2) <==> exists p :: Within(p, a1, a2) && Within(p, b1, b2)
  {
    if Overlap(a1, a2, b1, b2) {
      var p := if a1 <= b1 then b1 else a1;
      assert Within(p, a1, a2) && Within(p, b1, b2);
    }
  }

  predicate Hit(n: Node, low: int, high: int) { Overlap(low, high, n.key, n.high) }

  function Preorder(t: Tree): seq<Node> {
    if t.Leaf? then [] else [t.n] + Preorder(t.left) + Preorder(t.right)
  }

  /** The brute-force scan. */
  function Hits(s: seq<Node>, low: int, high: int): seq<Interval?> {
    if s == [] then [] else (if Hit(s[0], low, high) then [s[0].storedInterval] else []) + Hits(s[1..], low, high)
  }

  /** The traversal: the left subtree is entered on the strength of its maximum, and the right one only when
      the left one was not entered or had a hit. */
  function Explore(t: Tree, low: int, high: int): seq<Interval?> {
    if t.Leaf? then []
    else
      (if Hit(t.n, low, high) then [t.n.storedInterval] else []) +
      if MaxOf(t.left) >= low then
        var l := Explore(t.left, low, high);
        l + if l != [] then Explore(t.right, low, high) else []
      else
        Explore(t.right, low, high)
  }

  lemma {:induction false} HitsAppend(s: seq<Node>, s': seq<Node>, low: int, high: int)
    ensures Hits(s + s', low, high) == Hits(s, low, high) + Hits(s', low, high)
  {
    if s == [] {
      assert s + s' == s';
    } else {
      HitsAppend(s[1..], s', low, high);
      HitsOfRest(s, s', low, high);
    }
  }

  lemma HitsOfRest(s: seq<Node>, s': seq<Node>, low: int, high: int)
    requires s != []
    ensures Hits(s + s', low, high) == (if Hit(s[0], low, high) then [s[0].storedInterval] else []) +
      Hits(s[1..] + s', low, high)
  {
    hide Hit;
    assert (s + s')[1..] == s[1..] + s';
  }

  lemma HitsPreorder(t: Tree, low: int, high: int)
    requires t.Branch?
    ensures Hits(Preorder(t), low, high) ==
      (if Hit(t.n, low, high) then [t.n.storedInterval] else []) + Hits(Preorder(t.left), low, high) +
        Hits(Preorder(t.right), low, high)
  {
    HitsAppend([t.n] + Preorder(t.left), Preorder(t.right), low, high);
    HitsAppend([t.n], Preorder(t.left), low, high);
    assert [t.n][1..] == [];
  }

  /** The index of the first node that stores the interval, or the length. */
  function FirstHolder(s: seq<Node>, interval: Interval): (k: nat)
    ensures k <= |s|
  {
    if s == [] || s[0].storedInterval == interval then 0 else 1 + FirstHolder(s[1..], interval)
  }

  lemma FirstHolderIsFirst(s: seq<Node>, interval: Interval)
    ensures var k := FirstHolder(s, interval);
      (k < |s| ==> s[k].storedInterval == interval) && forall j :: 0 <= j < k ==> s[j].storedInterval != interval
  {
  }

  lemma FirstHolderBranch(t: Tree, interval: Interval)
    requires t.Branch? && t.n.storedInterval != interval
    ensures var s, l, r := Preorder(t), Preorder(t.left), Preorder(t.right);
      var k, i, j := FirstHolder(s, interval), FirstHolder(l, interval), FirstHolder(r, interval);
      if i < |l| then k < |s| && s[k] == l[i] else if j < |r| then k < |s| && s[k] == r[j] else k == |s|
  {
    assert Preorder(t)[1..] == Preorder(t.left) + Preorder(t.right);
    FirstHolderAppend(Preorder(t.left), Preorder(t.right), interval);
  }

  lemma FirstHolderAppend(s: seq<Node>, s': seq<Node>, interval: Interval)
    ensures var k := FirstHolder(s, interval);
      FirstHolder(s + s', interval) == if k < |s| then k else |s| + FirstHolder(s', interval)
  {
    if s == [] {
      assert s + s' == s';
    } else {
      FirstHolderAppend(s[1..], s', interval);
      assert (s + s')[1..] == s[1..] + s';
    }
  }

  // ----- Pruning ------------------------------------------------------------

  /** An interval with its ends in order. */
  predicate Proper(n: Node) { n.key <= n.high }

  predicate ProperIntervals(t: Tree) {
    t.Branch? ==> Proper(t.n) && ProperIntervals(t.left) && ProperIntervals(t.right)
  }

  ghost predicate AllFrom(s: seq<Node>, key: int) { forall i :: 0 <= i < |s| ==> key <= s[i].key }

  /** No key in a left subtree is above the subtree's maximum. Only an interval that ends before it begins can have
      such a key. */
  ghost predicate Covered(t: Tree) {
    t.Branch? ==> KeysUpTo(t.left, MaxOf(t.left)) && Covered(t.left) && Covered(t.right)
  }

  ghost predicate KeysUpTo(t: Tree, max: int) {
    t.Branch? ==> t.n.key <= max && KeysUpTo(t.left, max) && KeysUpTo(t.right, max)
  }

  lemma {:induction false} ProperKeysUpTo(t: Tree, max: int)
    requires MaxExact(t) && ProperIntervals(t) && MaxOf(t) <= max
    ensures KeysUpTo(t, max)
  {
    if t.Branch? {
      ProperKeysUpTo(t.left, max);
      ProperKeysUpTo(t.right, max);
    }
  }

  lemma {:induction false} ProperIsCovered(t: Tree)
    requires MaxExact(t) && ProperIntervals(t)
    ensures Covered(t)
  {
    if t.Branch? {
      ProperKeysUpTo(t.left, MaxOf(t.left));
      ProperIsCovered(t.left);
      ProperIsCovered(t.right);
    }
  }

  /** A subtree whose maximum is below the range has no hit, if its keys are covered by it. */
  lemma {:induction false} BelowRange(t: Tree, max: int, low: int, high: int)
    requires MaxExact(t) && KeysUpTo(t, max) && MaxOf(t) <= max < low
    ensures Hits(Preorder(t), low, high) == []
  {
    if t.Branch? {
      HitsPreorder(t, low, high);
      BelowRange(t.left, max, low, high);
      BelowRange(t.right, max, low, high);
    }
  }

  /** The least key that is above the range, also above one that ends before it begins. */
  function Above(low: int, high: int): int { if low <= high then high + 1 else low }

  /** A subtree whose keys are all above the range has no hit. */
  lemma AboveRange(t: Tree, low: int, high: int)
    requires AllFrom(Inorder(t), Above(low, high))
    ensures Hits(Preorder(t), low, high) == []
  {
    if t.Branch? {
      HitsPreorder(t, low, high);
      var s := Inorder(t);
      assert s[|Inorder(t.left)|] == t.n;
      forall i | 0 <= i < |Inorder(t.left)| ensures Above(low, high) <= Inorder(t.left)[i].key {
        assert s[i] == Inorder(t.left)[i];
      }
      forall i | 0 <= i < |Inorder(t.right)| ensures Above(low, high) <= Inorder(t.right)[i].key {
        assert s[|Inorder(t.left)| + 1 + i] == Inorder(t.right)[i];
      }
    }
  }

  /** A subtree that is not empty, reaches the range and still has no hit holds an interval wholly above it. */
  lemma {:induction false} AboveWitness(t: Tree, low: int, high: int) returns (k: nat)
    requires t.Branch? && MaxExact(t) && MaxOf(t) >= low
    requires Hits(Preorder(t), low, high) == []
    ensures k < |Inorder(t)| && Inorder(t)[k].key >= Above(low, high)
  {
    HitsPreorder(t, low, high);
    if t.n.high >= low {
      k := |Inorder(t.left)|;
    } else if MaxOf(t.left) >= low {
      k := AboveWitness(t.left, low, high);
    } else {
      k := AboveWitness(t.right, low, high);
      k := k + |Inorder(t.left)| + 1;
    }
  }

  lemma SortedSlice(s: seq<Node>, i: nat, j: nat)
    requires Sorted(s) && i <= j <= |s|
    ensures Sorted(s[i..j])
  {
    SortedPairwise(s);
    SortedPairwise(s[i..j]);
  }

  lemma SortedSides(t: Tree)
    requires t.Branch? && Sorted(Inorder(t))
    ensures Sorted(Inorder(t.left)) && Sorted(Inorder(t.right))
  {
    var s, l := Inorder(t), |Inorder(t.left)|;
    SortedSlice(s, 0, l);
    SortedSlice(s, l + 1, |s|);
    assert s[0..l] == Inorder(t.left) && s[l + 1..|s|] == Inorder(t.right);
  }

  lemma AllFromRight(t: Tree, k: nat, key: int)
    requires t.Branch? && Sorted(Inorder(t)) && k < |Inorder(t.left)| && key <= Inorder(t.left)[k].key
    ensures AllFrom(Inorder(t.right), key)
  {
    var s, r := Inorder(t), Inorder(t.right);
    SortedPairwise(s);
    assert s[k] == Inorder(t.left)[k];
    forall j | 0 <= j < |r| ensures key <= r[j].key {
      assert s[|Inorder(t.left)| + 1 + j] == r[j];
    }
  }

  /** The pruning argument: no hit on the left although the left maximum reaches the range, so none on the right. */
  lemma NoHitRight(t: Tree, low: int, high: int)
    requires t.Branch? && t.left.Branch? && MaxExact(t) && Sorted(Inorder(t))
    requires MaxOf(t.left) >= low && Hits(Preorder(t.left), low, high) == []
    ensures Hits(Preorder(t.right), low, high) == []
  {
    var k := AboveWitness(t.left, low, high);
    AllFromRight(t, k, Above(low, high));
    AboveRange(t.right, low, high);
  }

  /** Somewhere in the tree the traversal passes a hit over: in a left subtree whose maximum does not reach the range,
      or to the right of an empty one whose maximum does. */
  predicate Missed(t: Tree, low: int, high: int) {
    t.Branch? &&
    ((MaxOf(t.left) < low && Hits(Preorder(t.left), low, high) != []) ||
     (t.left.Leaf? && low <= -MAX_TIME && Hits(Preorder(t.right), low, high) != []) ||
     Missed(t.left, low, high) || Missed(t.right, low, high))
  }

  lemma ExploreAtMostScan(t: Tree, low: int, high: int)
    ensures |Explore(t, low, high)| <= |Hits(Preorder(t), low, high)|
  {
    if t.Branch? {
      HitsPreorder(t, low, high);
    }
  }

  lemma NothingMissed(t: Tree, low: int, high: int)
    requires Hits(Preorder(t), low, high) == []
    ensures !Missed(t, low, high)
  {
    if t.Branch? {
      HitsPreorder(t, low, high);
    }
  }

  lemma SplitEqual(h: seq<Interval?>, l: seq<Interval?>, r: seq<Interval?>, l': seq<Interval?>, r': seq<Interval?>)
    requires |l| <= |l'| && |r| <= |r'|
    ensures h + (l + r) == h + l' + r' <==> l == l' && r == r'
  {
    var a, b := h + (l + r), h + l' + r';
    if a == b {
      assert |l| == |l'| && |r| == |r'|;
      assert l == a[|h|..|h| + |l|] && l' == b[|h|..|h| + |l|];
      assert r == a[|h| + |l|..] && r' == b[|h| + |l|..];
    }
  }

  /** The traversal is complete at a node if it explores and misses nothing below. */
  lemma ExploreIsExactAt(t: Tree, low: int, high: int)
    requires t.Branch? && MaxExact(t) && Sorted(Inorder(t))
    requires Explore(t.left, low, high) == Hits(Preorder(t.left), low, high) <==> !Missed(t.left, low, high)
    requires Explore(t.right, low, high) == Hits(Preorder(t.right), low, high) <==> !Missed(t.right, low, high)
    ensures Explore(t, low, high) == Hits(Preorder(t), low, high) <==> !Missed(t, low, high)
  {
    hide Hits, Preorder, Hit, Sorted, Inorder, MaxExact;
    var h := if Hit(t.n, low, high) then [t.n.storedInterval] else [];
    var l, r := Explore(t.left, low, high), Explore(t.right, low, high);
    var l', r' := Hits(Preorder(t.left), low, high), Hits(Preorder(t.right), low, high);
    HitsPreorder(t, low, high);
    ExploreAtMostScan(t.left, low, high);
    ExploreAtMostScan(t.right, low, high);
    if l' == [] {
      NothingMissed(t.left, low, high);
      if MaxOf(t.left) >= low && t.left.Branch? {
        NoHitRight(t, low, high);
      }
    }
    if r' == [] {
      NothingMissed(t.right, low, high);
    }
    SplitEqual(h, l, r, l', r');
    SplitEqual(h, [], r, l', r');
    SplitEqual(h, l, [], l', r');
  }

  /** For every tree and every range the traversal returns what the scan returns, in preorder, exactly if it passes no
      hit over. */
  lemma {:induction false} ExploreIsExact(t: Tree, low: int, high: int)
    requires MaxExact(t) && Sorted(Inorder(t))
    ensures Explore(t, low, high) == Hits(Preorder(t), low, high) <==> !Missed(t, low, high)
  {
    if t.Branch? {
      hide Hits, Preorder, Hit, Sorted, Inorder, Explore, Missed;
      SortedSides(t);
      ExploreIsExact(t.left, low, high);
      ExploreIsExact(t.right, low, high);
      ExploreIsExactAt(t, low, high);
    }
  }

  lemma MaxAtLeast(t: Tree)
    requires MaxExact(t)
    ensures MaxOf(t) >= -MAX_TIME
  {
  }

  /** With a range above the smallest time nothing is passed over in a covered tree. */
  lemma {:induction false} CoveredMissesNothing(t: Tree, low: int, high: int)
    requires MaxExact(t) && Covered(t) && -MAX_TIME < low
    ensures !Missed(t, low, high)
  {
    if t.Branch? {
      CoveredMissesNothing(t.left, low, high);
      CoveredMissesNothing(t.right, low, high);
      if MaxOf(t.left) < low {
        BelowRange(t.left, MaxOf(t.left), low, high);
      }
    }
  }

  /** So for every range above the smallest time the traversal of such a tree is complete. */
  lemma ExploreIsScan(t: Tree, low: int, high: int)
    requires MaxExact(t) && Covered(t) && Sorted(Inorder(t)) && -MAX_TIME < low
    ensures Explore(t, low, high) == Hits(Preorder(t), low, high)
  {
    CoveredMissesNothing(t, low, high);
    ExploreIsExact(t, low, high);
  }

  lemma {:induction false} UncoveredKey(t: Tree, max: int) returns (key: int)
    requires !KeysUpTo(t, max)
    ensures key > max && Hits(Preorder(t), key, key) != []
  {
    if t.n.key > max {
      key := t.n.key;
    } else if !KeysUpTo(t.left, max) {
      key := UncoveredKey(t.left, max);
    } else {
      key := UncoveredKey(t.right, max);
    }
    HitsPreorder(t, key, key);
  }

  /** A tree in which a left subtree has a key above its maximum: asked for that time alone, the traversal does not look
      there. */
  lemma {:induction false} UncoveredMisses(t: Tree) returns (key: int)
    requires MaxExact(t) && !Covered(t)
    ensures -MAX_TIME < key && |Explore(t, key, key)| < |Hits(Preorder(t), key, key)|
  {
    MaxAtLeast(t.left);
    if !KeysUpTo(t.left, MaxOf(t.left)) {
      key := UncoveredKey(t.left, MaxOf(t.left));
    } else if !Covered(t.left) {
      key := UncoveredMisses(t.left);
    } else {
      key := UncoveredMisses(t.right);
    }
    HitsPreorder(t, key, key);
    ExploreAtMostScan(t.left, key, key);
    ExploreAtMostScan(t.right, key, key);
  }

  ghost predicate Complete(t: Tree, low: int, high: int) { Explore(t, low, high) == Hits(Preorder(t), low, high) }

  /** So the traversal is complete for every such range if and only if no left subtree has a key above its maximum. */
  lemma ExploreIsScanExactly(t: Tree)
    requires MaxExact(t) && Sorted(Inorder(t))
    ensures (forall low, high :: -MAX_TIME < low ==> Complete(t, low, high)) <==> Covered(t)
  {
    if Covered(t) {
      forall low, high | -MAX_TIME < low ensures Complete(t, low, high) {
        ExploreIsScan(t, low, high);
      }
    } else {
      var key := UncoveredMisses(t);
      assert !Complete(t, key, key);
    }
  }

  /** Two nodes, [6, 6] above an interval that begins at 5 and ends at 1: asked for [5, 7], the traversal misses that
      interval, which the comparison takes for one that overlaps. */
  lemma ImproperIntervalIsMissed(x: Node, y: Node)
    requires x.key == 6 == x.high && y.key == 5 && y.high == 1
    ensures var t := Branch(Branch(Leaf, y, true, 1, Leaf), x, false, 6, Leaf);
      RedBlack(t) && MaxExact(t) && Sorted(Inorder(t)) &&
      Explore(t, 5, 7) == [x.storedInterval] && Hits(Preorder(t), 5, 7) == [x.storedInterval, y.storedInterval]
  {
    var l := Branch(Leaf, y, true, 1, Leaf);
    var t := Branch(l, x, false, 6, Leaf);
    assert Inorder(l) == [] + [y] + [] == [y];
    assert Inorder(t) == Inorder(l) + [x] + [];
    assert [y] + [x] + [] == [y, x];
    assert Hits([], 5, 7) == [];
    HitsPreorder(l, 5, 7);
    HitsPreorder(t, 5, 7);
  }

  /** The tree has a node without a left child but with a hit on its right. */
  predicate Skips(t: Tree, low: int, high: int) {
    t.Branch? &&
    ((t.left.Leaf? && Hits(Preorder(t.right), low, high) != []) || Skips(t.left, low, high) ||
     Skips(t.right, low, high))
  }

  lemma {:induction false} SkippedIsMissed(t: Tree, low: int, high: int)
    requires MaxExact(t) && low <= -MAX_TIME
    ensures Missed(t, low, high) <==> Skips(t, low, high)
  {
    if t.Branch? {
      MaxAtLeast(t.left);
      SkippedIsMissed(t.left, low, high);
      SkippedIsMissed(t.right, low, high);
    }
  }

  /** From the smallest time on, where even the empty subtree's maximum reaches the range, the traversal is
      complete exactly when no node without a left child has a hit on its right. */
  lemma ExploreFromSmallestTime(t: Tree, low: int, high: int)
    requires MaxExact(t) && Sorted(Inorder(t)) && low <= -MAX_TIME
    ensures Explore(t, low, high) == Hits(Preorder(t), low, high) <==> !Skips(t, low, high)
  {
    SkippedIsMissed(t, low, high);
    ExploreIsExact(t, low, high);
  }

  /** Two black-and-red nodes, [1, 2] above [3, 4]: asked for everything from the smallest time to 10, the
      traversal finds only the upper one. */
  lemma SmallestTimeMissesAHit(x: Node, y: Node)
    requires x.key == 1 && x.high == 2 && y.key == 3 && y.high == 4
    ensures var t := Branch(Leaf, x, false, 4, Branch(Leaf, y, true, 4, Leaf));
      RedBlack(t) && MaxExact(t) && ProperIntervals(t) && Sorted(Inorder(t)) &&
      Explore(t, -MAX_TIME, 10) == [x.storedInterval] && Hits(Preorder(t), -MAX_TIME, 10) ==
        [x.storedInterval, y.storedInterval]
  {
    var r := Branch(Leaf, y, true, 4, Leaf);
    assert Inorder(r) == [] + [y] + [] == [y];
    assert Preorder(r) == [y] + [] + [] == [y];
    assert [x, y][1..] == [y] && [y][1..] == [];
    assert Preorder(Branch(Leaf, x, false, 4, r)) == [x, y];
    assert Hits([y], -MAX_TIME, 10) == [y.storedInterval];
  }

  /** The scan finds the same intervals in whatever order the nodes are listed. */
  lemma {:induction false} ScanOrderIrrelevant(t: Tree, low: int, high: int)
    ensures multiset(Hits(Preorder(t), low, high)) == multiset(Hits(Inorder(t), low, high))
  {
    if t.Branch? {
      ScanOrderIrrelevant(t.left, low, high);
      ScanOrderIrrelevant(t.right, low, high);
      HitsPreorder(t, low, high);
      HitsAppend(Inorder(t.left) + [t.n], Inorder(t.right), low, high);
      HitsAppend(Inorder(t.left), [t.n], low, high);
      assert [t.n][1..] == [];
    }
  }

  ghost predicate AllProper(s: seq<Node>) { s == [] || (Proper(s[0]) && AllProper(s[1..])) }

  lemma {:induction false} AllProperAppend(s: seq<Node>, s': seq<Node>)
    ensures AllProper(s + s') <==> AllProper(s) && AllProper(s')
  {
    if s == [] {
      assert s + s' == s';
    } else {
      AllProperAppend(s[1..], s');
      assert (s + s')[1..] == s[1..] + s';
    }
  }

  lemma {:induction false} ProperByOrder(t: Tree)
    ensures ProperIntervals(t) <==> AllProper(Inorder(t))
  {
    if t.Branch? {
      ProperByOrder(t.left);
      ProperByOrder(t.right);
      AllProperAppend(Inorder(t.left) + [t.n], Inorder(t.right));
      AllProperAppend(Inorder(t.left), [t.n]);
    }
  }

  lemma SortedInsertProper(s: seq<Node>, z: Node)
    ensures AllProper(SortedInsert(s, z)) <==> AllProper(s) && Proper(z)
  {
    if s == [] || s[0].key > z.key {
      assert ([z] + s)[1..] == s;
    } else {
      assert ([s[0]] + SortedInsert(s[1..], z))[1..] == SortedInsert(s[1..], z);
    }
  }

  lemma WithoutProper(s: seq<Node>, z: Node)
    requires AllProper(s)
    ensures AllProper(Without(s, z))
  {
    if s != [] && s[0] != z {
      assert ([s[0]] + Without(s[1..], z))[1..] == Without(s[1..], z);
    }
  }

  /** A tree that has lost only z keeps its intervals proper. */
  lemma ProperAfterLoss(t: Tree, u: Tree, z: Node)
    requires Inorder(u) == Without(Inorder(t), z)
    ensures ProperIntervals(t) ==> ProperIntervals(u)
  {
    ProperByOrder(t);
    ProperByOrder(u);
    if ProperIntervals(t) {
      WithoutProper(Inorder(t), z);
    }
  }

  // ----- The explicit stack --------------------------------------------------------

  /** A node whose left subtree is being explored, and whether a hit was found there so far. */
  datatype Pending = Pending(tree: Tree, tried: bool)

  function RightOf(f: Pending): Tree { if f.tree.Leaf? then Leaf else f.tree.right }

  /** What is still to be appended to the result after e, the rest of the current subtree's hits, when hit says
      whether the current subtree, or anything else left of the last pending node, had one. */
  function Rest(fs: seq<Pending>, e: seq<Interval?>, hit: bool, low: int, high: int): seq<Interval?>
    decreases |fs|
  {
    if fs == [] then e
    else
      var f := fs[|fs| - 1];
      if f.tried || hit then Rest(fs[..|fs| - 1], e + Explore(RightOf(f), low, high), true, low, high)
      else Rest(fs[..|fs| - 1], e, false, low, high)
  }

  lemma {:induction false} RestPrefix(fs: seq<Pending>, p: seq<Interval?>, e: seq<Interval?>, hit: bool, low: int,
                                      high: int)
    ensures Rest(fs, p + e, hit, low, high) == p + Rest(fs, e, hit, low, high)
    decreases |fs|
  {
    if fs != [] {
      var f := fs[|fs| - 1];
      var r := Explore(RightOf(f), low, high);
      if f.tried || hit {
        RestPrefix(fs[..|fs| - 1], p, e + r, true, low, high);
        assert (p + e) + r == p + (e + r);
      } else {
        RestPrefix(fs[..|fs| - 1], p, e, false, low, high);
      }
    }
  }

  /** The hits still to come when the subtree t is next. */
  function Remaining(fs: seq<Pending>, t: Tree, low: int, high: int): seq<Interval?> {
    var e := Explore(t, low, high);
    Rest(fs, e, e != [], low, high)
  }

  function Marked(fs: seq<Pending>): seq<Pending> {
    if fs == [] then fs else fs[..|fs| - 1] + [fs[|fs| - 1].(tried := true)]
  }

  /** Marking the last pending node says the same as having had a hit. */
  lemma RestMarked(fs: seq<Pending>, e: seq<Interval?>, hit: bool, low: int, high: int)
    ensures Rest(fs, e, true, low, high) == Rest(Marked(fs), e, hit, low, high)
  {
    if fs != [] {
      assert Marked(fs)[..|fs| - 1] == fs[..|fs| - 1];
    }
  }

  /** Looking at the topmost node of t: its own hit is recorded at once, and the rest is still to come. */
  function AfterVisit(fs: seq<Pending>, t: Tree, low: int, high: int): seq<Pending>
    requires t.Branch?
  {
    var gs := if Hit(t.n, low, high) then Marked(fs) else fs;
    if MaxOf(t.left) >= low then gs + [Pending(t, false)] else gs
  }

  /** The hits strictly below the topmost node of t. */
  function Below(t: Tree, low: int, high: int): seq<Interval?>
    requires t.Branch?
  {
    var l, r := Explore(t.left, low, high), Explore(t.right, low, high);
    if MaxOf(t.left) >= low then l + (if l != [] then r else []) else r
  }

  lemma OwnHit(result: seq<Interval?>, fs: seq<Pending>, t: Tree, low: int, high: int)
    requires t.Branch?
    ensures var result' := if Hit(t.n, low, high) then result + [t.n.storedInterval] else result;
      var gs, b := if Hit(t.n, low, high) then Marked(fs) else fs, Below(t, low, high);
      result + Remaining(fs, t, low, high) == result' + Rest(gs, b, b != [], low, high)
  {
    var b := Below(t, low, high);
    if Hit(t.n, low, high) {
      var h := [t.n.storedInterval];
      assert Explore(t, low, high) == h + b;
      RestPrefix(fs, h, b, true, low, high);
      RestMarked(fs, b, b != [], low, high);
      assert result + (h + Rest(fs, b, true, low, high)) == (result + h) + Rest(fs, b, true, low, high);
    } else {
      assert Explore(t, low, high) == [] + b == b;
    }
  }

  lemma HitsBelow(gs: seq<Pending>, t: Tree, low: int, high: int)
    requires t.Branch?
    ensures Rest(gs, Below(t, low, high), Below(t, low, high) != [], low, high) ==
      if MaxOf(t.left) >= low then Remaining(gs + [Pending(t, false)], t.left, low, high)
        else Remaining(gs, t.right, low, high)
  {
    var ps := gs + [Pending(t, false)];
    assert ps[..|ps| - 1] == gs;
    if MaxOf(t.left) >= low && Explore(t.left, low, high) == [] {
      assert Below(t, low, high) == [];
    }
  }

  lemma RestStep(result: seq<Interval?>, fs: seq<Pending>, t: Tree, low: int, high: int)
    requires t.Branch?
    ensures var result' := if Hit(t.n, low, high) then result + [t.n.storedInterval] else result;
      result + Remaining(fs, t, low, high) ==
        result' + Remaining(AfterVisit(fs, t, low, high), if MaxOf(t.left) >= low then t.left else t.right, low, high)
  {
    OwnHit(result, fs, t, low, high);
    HitsBelow(if Hit(t.n, low, high) then Marked(fs) else fs, t, low, high);
  }

  /** The last pending node is taken off the stack; its right subtree is next if its left one had a hit. */
  function AfterPop(fs: seq<Pending>): seq<Pending>
    requires fs != []
  {
    if fs[|fs| - 1].tried then Marked(fs[..|fs| - 1]) else fs[..|fs| - 1]
  }

  function Popped(fs: seq<Pending>): Tree
    requires fs != []
  {
    if fs[|fs| - 1].tried then RightOf(fs[|fs| - 1]) else Leaf
  }

  lemma RestPop(fs: seq<Pending>, low: int, high: int)
    requires fs != []
    ensures Remaining(fs, Leaf, low, high) == Remaining(AfterPop(fs), Popped(fs), low, high)
  {
    var f, gs := fs[|fs| - 1], fs[..|fs| - 1];
    var r := Explore(RightOf(f), low, high);
    assert [] + r == r;
    if f.tried {
      RestMarked(gs, r, r != [], low, high);
    }
  }

  // ----- Termination and the depth of the stack -----------------------------------------

  function Size(t: Tree): nat { if t.Leaf? then 0 else 2 + Size(t.left) + Size(t.right) }

  function Work(fs: seq<Pending>): nat {
    if fs == [] then 0 else Work(fs[..|fs| - 1]) + 1 + Size(RightOf(fs[|fs| - 1]))
  }

  lemma WorkMarked(fs: seq<Pending>)
    ensures Work(Marked(fs)) == Work(fs)
  {
    if fs != [] {
      assert Marked(fs)[..|fs| - 1] == fs[..|fs| - 1];
    }
  }

  lemma WorkPop(fs: seq<Pending>)
    requires fs != []
    ensures Work(AfterPop(fs)) + Size(Popped(fs)) < Work(fs)
  {
    WorkMarked(fs[..|fs| - 1]);
  }

  lemma WorkVisit(fs: seq<Pending>, t: Tree, low: int, high: int)
    requires t.Branch?
    ensures Work(AfterVisit(fs, t, low, high)) + Size(if MaxOf(t.left) >= low then t.left else t.right) < Work(fs) +
      Size(t)
  {
    var gs := if Hit(t.n, low, high) then Marked(fs) else fs;
    WorkMarked(fs);
    assert (gs + [Pending(t, false)])[..|gs|] == gs;
  }

  /** The pending nodes lie on one path down the tree w, and t hangs below them. */
  ghost predicate OnPath(fs: seq<Pending>, t: Tree, w: Tree)
    decreases |fs|
  {
    Subtree(t, w) && |fs| + Height(t) <= Height(w) &&
    (fs == [] || (fs[|fs| - 1].tree.Branch? && OnPath(fs[..|fs| - 1], fs[|fs| - 1].tree, w)))
  }

  lemma OnPathMarked(fs: seq<Pending>, t: Tree, w: Tree)
    requires OnPath(fs, t, w)
    ensures OnPath(Marked(fs), t, w)
  {
    if fs != [] {
      assert Marked(fs)[..|fs| - 1] == fs[..|fs| - 1];
    }
  }

  lemma OnPathShorter(fs: seq<Pending>, t: Tree, t': Tree, w: Tree)
    requires OnPath(fs, t, w) && Subtree(t', w) && Height(t') <= Height(t)
    ensures OnPath(fs, t', w)
  {
  }

  lemma OnPathVisit(fs: seq<Pending>, t: Tree, w: Tree, low: int, high: int)
    requires OnPath(fs, t, w) && t.Branch?
    ensures OnPath(AfterVisit(fs, t, low, high), if MaxOf(t.left) >= low then t.left else t.right, w)
  {
    var gs := if Hit(t.n, low, high) then Marked(fs) else fs;
    OnPathMarked(fs, t, w);
    SubtreeBelow(t, w);
    OnPathShorter(gs, t, t.right, w);
    assert (gs + [Pending(t, false)])[..|gs|] == gs;
  }

  lemma OnPathPop(fs: seq<Pending>, t: Tree, w: Tree)
    requires OnPath(fs, t, w) && fs != []
    ensures OnPath(AfterPop(fs), Popped(fs), w)
  {
    var f, gs := fs[|fs| - 1], fs[..|fs| - 1];
    SubtreeBelow(f.tree, w);
    LeafBelow(w);
    OnPathShorter(gs, f.tree, f.tree.right, w);
    OnPathShorter(gs, f.tree, Leaf, w);
    OnPathMarked(gs, f.tree.right, w);
  }

  ghost predicate Subtree(s: Tree, t: Tree) {
    s == t || (t.Branch? && (Subtree(s, t.left) || Subtree(s, t.right)))
  }

  /** A pointer to a subtree is nil exactly when the subtree is empty. */
  lemma NilIsLeaf(s: Tree, t: Tree, nil: Node)
    requires Subtree(s, t) && nil !in Nodes(t)
    ensures s.Branch? ==> s.n != nil
  {
    if s != t {
      NilIsLeaf(s, if Subtree(s, t.left) then t.left else t.right, nil);
    }
  }

  lemma LeafBelow(t: Tree)
    ensures Subtree(Leaf, t)
  {
  }

  lemma SubtreeBelow(s: Tree, t: Tree)
    requires Subtree(s, t) && s.Branch?
    ensures Subtree(s.left, t) && Subtree(s.right, t)
  {
    if s != t {
      if Subtree(s, t.left) {
        SubtreeBelow(s, t.left);
      } else {
        SubtreeBelow(s, t.right);
      }
    }
  }

  lemma PreorderInside(s: Tree, t: Tree, k: nat)
    requires Subtree(s, t) && k < |Preorder(s)|
    ensures Preorder(s)[k] in Nodes(t)
    decreases t, s
  {
    if s != t {
      PreorderInside(s, if Subtree(s, t.left) then t.left else t.right, k);
    } else if k == 0 {
    } else if k <= |Preorder(s.left)| {
      SelfPreorder(s.left, k - 1);
    } else {
      SelfPreorder(s.right, k - 1 - |Preorder(s.left)|);
    }
  }

  lemma SelfPreorder(t: Tree, k: nat)
    requires k < |Preorder(t)|
    ensures Preorder(t)[k] in Nodes(t)
  {
    if 0 < k <= |Preorder(t.left)| {
      SelfPreorder(t.left, k - 1);
    } else if k > 0 {
      SelfPreorder(t.right, k - 1 - |Preorder(t.left)|);
    }
  }
}
