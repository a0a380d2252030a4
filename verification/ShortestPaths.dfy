/** Shortest paths towards a target, as values. Nodes are numbered by their place in the topology's node list. */
module ShortestPaths {
  import opened Lists

  /** A weight or a distance; infinity stands for "no way through". */
  datatype Dist = Fin(v: real) | Inf

  function Plus(a: Dist, b: Dist): Dist { if a.Fin? && b.Fin? then Fin(a.v + b.v) else Inf }

  predicate Less(a: Dist, b: Dist) { a.Fin? && (b.Inf? || a.v < b.v) }

  predicate Leq(a: Dist, b: Dist) { b.Inf? || (a.Fin? && a.v <= b.v) }

  /** The link at position pos of the incoming links of dest; usable if the link and its source are enabled. */
  datatype Arc = Arc(src: nat, dest: nat, pos: nat, weight: Dist, usable: bool)

  /** For every node the arcs into it, in the order the node lists them, and its weight. */
  datatype Graph = Graph(into: seq<seq<Arc>>, weight: seq<Dist>)

  predicate InPlace(g: Graph, a: Arc) {
    a.src < |g.into| && a.dest < |g.into| && a.pos < |g.into[a.dest]| && g.into[a.dest][a.pos] == a
  }

  predicate Positive(a: Arc) { a.usable ==> Less(Fin(0.0), a.weight) }

  predicate GoodArc(g: Graph, a: Arc) { InPlace(g, a) && Positive(a) }

  ghost predicate WellFormed(g: Graph) {
    |g.into| == |g.weight| && (forall n :: 0 <= n < |g.weight| ==> Leq(Fin(0.0), g.weight[n])) &&
    forall n, i :: 0 <= n < |g.into| && 0 <= i < |g.into[n]| ==>
      g.into[n][i].dest == n && g.into[n][i].pos == i && GoodArc(g, g.into[n][i])
  }

  // ----- Paths ------------------------------------------------------------

  predicate IsPath(g: Graph, u: nat, p: seq<Arc>, target: nat)
    decreases |p|
  {
    if p == [] then u == target
    else p[0].usable && p[0].src == u && InPlace(g, p[0]) && IsPath(g, p[0].dest, p[1..], target)
  }

  /** What an arc adds to a path that continues to the target: its own weight, and the weight of the node it
      leads to unless that is the target. */
  function Toll(g: Graph, a: Arc, target: nat): Dist {
    Plus(a.weight, if a.dest == target || a.dest >= |g.weight| then Fin(0.0) else g.weight[a.dest])
  }

  function Cost(g: Graph, p: seq<Arc>, target: nat): Dist
    decreases |p|
  {
    if p == [] then Fin(0.0) else Plus(Cost(g, p[1..], target), Toll(g, p[0], target))
  }

  ghost predicate Cheapest(g: Graph, u: nat, d: Dist, target: nat) {
    (forall p :: IsPath(g, u, p, target) ==> Leq(d, Cost(g, p, target))) &&
    (d.Fin? ==> exists p :: IsPath(g, u, p, target) && Cost(g, p, target) == d)
  }

  /** d gives every node the cost of a cheapest path to the target, and infinity where no path has a finite cost. */
  ghost predicate Shortest(g: Graph, d: seq<Dist>, target: nat) {
    |d| == |g.into| && forall u :: 0 <= u < |d| ==> Cheapest(g, u, d[u], target)
  }

  lemma CheapestIsUnique(g: Graph, u: nat, d: Dist, d': Dist, target: nat)
    requires Cheapest(g, u, d, target) && Cheapest(g, u, d', target)
    ensures d == d'
  {
  }

  lemma ShortestIsUnique(g: Graph, d: seq<Dist>, d': seq<Dist>, target: nat)
    requires Shortest(g, d, target) && Shortest(g, d', target)
    ensures d == d'
  {
    forall u | 0 <= u < |d| ensures d[u] == d'[u] {
      CheapestIsUnique(g, u, d[u], d'[u], target);
    }
  }

  // ----- What makes distances shortest ---------------------------------------------

  /** The arc offers its source no shorter way. */
  predicate Relaxed(g: Graph, d: seq<Dist>, a: Arc, target: nat)
    requires |d| == |g.into| && GoodArc(g, a)
  {
    a.usable ==> Leq(d[a.src], Plus(d[a.dest], Toll(g, a, target)))
  }

  ghost predicate AllRelaxed(g: Graph, d: seq<Dist>, target: nat)
    requires |d| == |g.into| && WellFormed(g)
  {
    forall n, i :: 0 <= n < |g.into| && 0 <= i < |g.into[n]| ==> Relaxed(g, d, g.into[n][i], target)
  }

  lemma {:induction false} RelaxedBound(g: Graph, d: seq<Dist>, u: nat, p: seq<Arc>, target: nat)
    requires WellFormed(g) && |d| == |g.into| && AllRelaxed(g, d, target)
    requires target < |d| && d[target] == Fin(0.0) && u < |d| && IsPath(g, u, p, target)
    ensures Leq(d[u], Cost(g, p, target))
    decreases |p|
  {
    if p != [] {
      RelaxedBound(g, d, p[0].dest, p[1..], target);
      assert Relaxed(g, d, g.into[p[0].dest][p[0].pos], target);
    }
  }

  /** A way that the search keeps for every node it has reached. */
  predicate Witness(g: Graph, d: Dist, u: nat, p: seq<Arc>, target: nat) {
    if d.Fin? then IsPath(g, u, p, target) && Cost(g, p, target) == d else p == []
  }

  lemma RelaxedIsShortest(g: Graph, d: seq<Dist>, path: seq<seq<Arc>>, target: nat)
    requires WellFormed(g) && |d| == |path| == |g.into| && AllRelaxed(g, d, target)
    requires target < |d| && d[target] == Fin(0.0)
    requires forall u :: 0 <= u < |d| ==> Witness(g, d[u], u, path[u], target)
    ensures Shortest(g, d, target)
  {
    forall u | 0 <= u < |d| ensures Cheapest(g, u, d[u], target) {
      forall p | IsPath(g, u, p, target) ensures Leq(d[u], Cost(g, p, target)) {
        RelaxedBound(g, d, u, p, target);
      }
      assert Witness(g, d[u], u, path[u], target);
    }
  }

  // ----- The state of a search ---------------------------------------------------------

  /** Distances, kept ways, the queue, and the nodes taken off it so far in that order. */
  datatype Search = Search(dist: seq<Dist>, path: seq<seq<Arc>>, queue: seq<nat>, done: seq<nat>)

  ghost predicate Within(s: seq<nat>, n: nat) { forall i :: 0 <= i < |s| ==> s[i] < n }

  ghost predicate Apart(s: seq<nat>, t: seq<nat>) { forall i, j :: 0 <= i < |s| && 0 <= j < |t| ==> s[i] != t[j] }

  ghost predicate Ascending(s: seq<nat>, d: seq<Dist>)
    requires Within(s, |d|)
  {
    forall i, j :: 0 <= i < j < |s| ==> Leq(d[s[i]], d[s[j]])
  }

  ghost predicate Shape(g: Graph, s: Search, target: nat) {
    WellFormed(g) && |s.dist| == |s.path| == |g.into| && target < |s.dist| && s.dist[target] == Fin(0.0) &&
      s.path[target] == [] &&
    Within(s.queue, |s.dist|) && Within(s.done, |s.dist|) && NoRepeats(s.queue) && NoRepeats(s.done) &&
      Apart(s.queue, s.done)
  }

  ghost predicate Reached(s: Search) {
    forall u :: 0 <= u < |s.dist| ==> (s.dist[u].Fin? <==> u in s.queue || u in s.done)
  }

  /** The kept way of u begins with an arc into a node that is done, and goes on as that node's does. */
  ghost predicate Chained(s: Search, u: nat, target: nat)
    requires |s.dist| == |s.path| && u < |s.dist|
  {
    s.dist[u].Fin? && u != target ==>
      s.path[u] != [] && s.path[u][0].dest < |s.path| && s.path[u][0].dest in s.done &&
        s.path[u][1..] == s.path[s.path[u][0].dest]
  }

  ghost predicate Ways(g: Graph, s: Search, target: nat)
    requires |s.dist| == |s.path|
  {
    forall u :: 0 <= u < |s.dist| ==> Witness(g, s.dist[u], u, s.path[u], target) && Chained(s, u, target)
  }

  ghost predicate RelaxedInto(g: Graph, d: seq<Dist>, n: nat, k: nat, target: nat)
    requires WellFormed(g) && |d| == |g.into| && n < |g.into|
  {
    forall i :: 0 <= i < k && i < |g.into[n]| ==> Relaxed(g, d, g.into[n][i], target)
  }

  /** All arcs into the nodes that are done are relaxed, of the last such node only the first k. */
  ghost predicate RelaxedUpTo(g: Graph, s: Search, k: nat, target: nat)
    requires Shape(g, s, target)
  {
    forall j :: 0 <= j < |s.done| ==> RelaxedInto(g, s.dist, s.done[j], if j == |s.done| - 1 then k
      else |g.into[s.done[j]]|, target)
  }

  /** The queue ascends, and no node that is done is farther than the last one or than one in the queue. */
  ghost predicate Ordered(s: Search)
    requires Within(s.queue, |s.dist|) && Within(s.done, |s.dist|)
  {
    Ascending(s.queue, s.dist) &&
    (forall i, j :: 0 <= i < |s.done| && 0 <= j < |s.queue| ==> Leq(s.dist[s.done[i]], s.dist[s.queue[j]])) &&
    forall i :: 0 <= i < |s.done| ==> Leq(s.dist[s.done[i]], s.dist[s.done[|s.done| - 1]])
  }

  ghost predicate Inv(g: Graph, s: Search, k: nat, target: nat) {
    Shape(g, s, target) && Reached(s) && Ways(g, s, target) && RelaxedUpTo(g, s, k, target) && Ordered(s)
  }

  // ----- One step -----------------------------------------------------------------

  function Dequeued(s: Search): Search
    requires s.queue != []
  {
    s.(queue := s.queue[1..], done := s.done + [s.queue[0]])
  }

  /** The queue without n. */
  function Without(q: seq<nat>, n: nat): seq<nat> {
    if q == [] then [] else if q[0] == n then Without(q[1..], n) else [q[0]] + Without(q[1..], n)
  }

  /** n before the first node that is farther. */
  function Enqueue(q: seq<nat>, d: seq<Dist>, n: nat): seq<nat>
    requires n < |d| && Within(q, |d|)
  {
    if q == [] || Less(d[n], d[q[0]]) then [n] + q
    else
      assert Within(q[1..], |d|);
      [q[0]] + Enqueue(q[1..], d, n)
  }

  /** Looking at one arc into the node that was dequeued last. */
  predicate Improves(g: Graph, s: Search, a: Arc, target: nat)
    requires |s.dist| == |g.into| && GoodArc(g, a)
  {
    var d := Plus(s.dist[a.dest], Toll(g, a, target));
    a.usable && d.Fin? && Less(d, s.dist[a.src])
  }

  lemma WithoutElements(q: seq<nat>, n: nat)
    ensures forall x :: x in Without(q, n) <==> x in q && x != n
  {
  }

  lemma EnqueueElements(q: seq<nat>, d: seq<Dist>, n: nat)
    requires n < |d| && Within(q, |d|)
    ensures forall x :: x in Enqueue(q, d, n) <==> x in q || x == n
  {
  }

  lemma WithinElements(q: seq<nat>, r: seq<nat>, n: nat)
    requires Within(q, n) && forall x :: x in r ==> x in q || x < n
    ensures Within(r, n)
  {
    forall i | 0 <= i < |r| ensures r[i] < n {
      assert r[i] in r;
    }
  }

  function Relaxing(g: Graph, s: Search, a: Arc, target: nat): Search
    requires |s.dist| == |s.path| == |g.into| && GoodArc(g, a) && Within(s.queue, |s.dist|)
  {
    if Improves(g, s, a, target) then
      var d := s.dist[a.src := Plus(s.dist[a.dest], Toll(g, a, target))];
      WithoutElements(s.queue, a.src);
      WithinElements(s.queue, Without(s.queue, a.src), |d|);
      s.(dist := d, path := s.path[a.src := [a] + s.path[a.dest]], queue := Enqueue(Without(s.queue, a.src), d, a.src))
    else s
  }

  lemma WithoutAbsent(q: seq<nat>, n: nat)
    requires n !in q
    ensures Without(q, n) == q
  {
  }

  lemma {:induction false} WithoutKeeps(q: seq<nat>, n: nat, d: seq<Dist>)
    requires NoRepeats(q) && Within(q, |d|) && Ascending(q, d)
    ensures var r := Without(q, n); NoRepeats(r) && Within(r, |d|) && Ascending(r, d)
  {
    WithoutElements(q, n);
    WithinElements(q, Without(q, n), |d|);
    if q != [] {
      var t := q[1..];
      assert Within(t, |d|);
      WithoutKeeps(t, n, d);
      WithoutElements(t, n);
      var r := Without(t, n);
      forall i | 0 <= i < |r| ensures q[0] != r[i] && Leq(d[q[0]], d[r[i]]) {
        assert r[i] in t;
      }
    }
  }

  lemma {:induction false} EnqueueKeeps(q: seq<nat>, d: seq<Dist>, n: nat)
    requires n < |d| && Within(q, |d|) && NoRepeats(q) && Ascending(q, d) && n !in q
    ensures var r := Enqueue(q, d, n); NoRepeats(r) && Within(r, |d|) && Ascending(r, d)
  {
    EnqueueElements(q, d, n);
    WithinElements(q, Enqueue(q, d, n), |d|);
    if q == [] {
    } else if Less(d[n], d[q[0]]) {
      forall i | 0 <= i < |q| ensures Leq(d[n], d[q[i]]) {
        assert Leq(d[q[0]], d[q[i]]);
      }
    } else {
      var t := q[1..];
      assert Within(t, |d|);
      EnqueueKeeps(t, d, n);
      EnqueueElements(t, d, n);
      var r := Enqueue(t, d, n);
      forall i | 0 <= i < |r| ensures q[0] != r[i] && Leq(d[q[0]], d[r[i]]) {
        assert r[i] in t || r[i] == n;
      }
    }
  }

  // ----- Every step keeps the invariant --------------------------------------------------

  /** Arc a is the next one to look at: the k-th into the node that was dequeued last. */
  ghost predicate Next(g: Graph, s: Search, k: nat, a: Arc, target: nat) {
    Inv(g, s, k, target) && s.done != [] && GoodArc(g, a) && a.dest == s.done[|s.done| - 1] && a.pos == k
  }

  lemma TollIsPositive(g: Graph, a: Arc, target: nat)
    requires WellFormed(g) && GoodArc(g, a) && a.usable
    ensures Less(Fin(0.0), Toll(g, a, target))
  {
  }

  /** An improved node has not been done: it is in the queue or has not been reached. */
  lemma ImprovedIsNotDone(g: Graph, s: Search, k: nat, a: Arc, target: nat)
    requires Next(g, s, k, a, target) && Improves(g, s, a, target)
    ensures a.src !in s.done && a.src != a.dest && a.src != target
    ensures s.dist[a.src].Fin? <==> a.src in s.queue
    ensures s.dist[a.dest].Fin? && Less(s.dist[a.dest], Plus(s.dist[a.dest], Toll(g, a, target)))
  {
    TollIsPositive(g, a, target);
    assert a.dest in s.done;
    assert Witness(g, s.dist[a.dest], a.dest, s.path[a.dest], target);
    assert forall i :: 0 <= i < |s.done| ==> Leq(s.dist[s.done[i]], s.dist[a.dest]);
    if a.src == target {
      CostNotNegative(g, s.path[a.dest], a.dest, target);
    }
  }

  lemma CostNotNegative(g: Graph, p: seq<Arc>, u: nat, target: nat)
    requires WellFormed(g) && IsPath(g, u, p, target)
    ensures Leq(Fin(0.0), Cost(g, p, target))
    decreases |p|
  {
    if p != [] {
      CostNotNegative(g, p[1..], p[0].dest, target);
      TollIsPositive(g, p[0], target);
    }
  }

  lemma QueueAfter(g: Graph, s: Search, k: nat, a: Arc, target: nat)
    requires Next(g, s, k, a, target) && Improves(g, s, a, target)
    ensures var t := Relaxing(g, s, a, target);
      NoRepeats(t.queue) && Within(t.queue, |t.dist|) && Ascending(t.queue, t.dist) &&
      forall x :: x in t.queue <==> x in s.queue || x == a.src
  {
    var t := Relaxing(g, s, a, target);
    var q := Without(s.queue, a.src);
    WithoutKeeps(s.queue, a.src, s.dist);
    WithoutElements(s.queue, a.src);
    forall i | 0 <= i < |q| ensures q[i] != a.src {
      assert q[i] in q;
    }
    assert Ascending(q, t.dist);
    EnqueueKeeps(q, t.dist, a.src);
    EnqueueElements(q, t.dist, a.src);
  }

  lemma RelaxingKeepsShape(g: Graph, s: Search, k: nat, a: Arc, target: nat)
    requires Next(g, s, k, a, target) && Improves(g, s, a, target)
    ensures var t := Relaxing(g, s, a, target); Shape(g, t, target) && Reached(t)
  {
    var t := Relaxing(g, s, a, target);
    ImprovedIsNotDone(g, s, k, a, target);
    QueueAfter(g, s, k, a, target);
    forall i, j | 0 <= i < |t.queue| && 0 <= j < |t.done| ensures t.queue[i] != t.done[j] {
      assert t.queue[i] in t.queue;
      assert t.done[j] in s.done;
      assert t.queue[i] in s.queue || t.queue[i] == a.src;
    }
  }

  lemma RelaxingKeepsWays(g: Graph, s: Search, k: nat, a: Arc, target: nat)
    requires Next(g, s, k, a, target) && Improves(g, s, a, target)
    ensures Ways(g, Relaxing(g, s, a, target), target)
  {
    var t := Relaxing(g, s, a, target);
    ImprovedIsNotDone(g, s, k, a, target);
    assert a.dest in s.done;
    assert Witness(g, s.dist[a.dest], a.dest, s.path[a.dest], target);
    forall u | 0 <= u < |t.dist| ensures Witness(g, t.dist[u], u, t.path[u], target) && Chained(t, u, target) {
      assert Witness(g, s.dist[u], u, s.path[u], target) && Chained(s, u, target);
      if u == a.src {
        assert t.path[u][1..] == s.path[a.dest];
      }
    }
  }

  /** Arcs into other nodes stay relaxed when a node gets nearer. */
  lemma LoweredInto(g: Graph, d: seq<Dist>, u: nat, v: Dist, n: nat, k: nat, target: nat)
    requires WellFormed(g) && |d| == |g.into| && n < |d| && u < |d| && n != u && Leq(v, d[u])
    requires RelaxedInto(g, d, n, k, target)
    ensures RelaxedInto(g, d[u := v], n, k, target)
  {
    forall i | 0 <= i < k && i < |g.into[n]| ensures Relaxed(g, d[u := v], g.into[n][i], target) {
      assert Relaxed(g, d, g.into[n][i], target);
    }
  }

  lemma RelaxedOneMore(g: Graph, d: seq<Dist>, n: nat, k: nat, target: nat)
    requires WellFormed(g) && |d| == |g.into| && n < |d| && k < |g.into[n]|
    requires RelaxedInto(g, d, n, k, target) && Relaxed(g, d, g.into[n][k], target)
    ensures RelaxedInto(g, d, n, k + 1, target)
  {
  }

  lemma RelaxingRelaxes(g: Graph, s: Search, a: Arc, target: nat)
    requires |s.dist| == |s.path| == |g.into| && GoodArc(g, a) && Within(s.queue, |s.dist|) &&
      (Improves(g, s, a, target) ==> a.src != a.dest)
    ensures Relaxed(g, Relaxing(g, s, a, target).dist, a, target)
  {
  }

  lemma RelaxingKeepsRelaxed(g: Graph, s: Search, k: nat, a: Arc, target: nat)
    requires Shape(g, s, target) && RelaxedUpTo(g, s, k, target) && s.done != []
    requires GoodArc(g, a) && a.dest == s.done[|s.done| - 1] && a.pos == k &&
      Shape(g, Relaxing(g, s, a, target), target)
    requires Improves(g, s, a, target) ==> a.src !in s.done && a.src != a.dest
    ensures RelaxedUpTo(g, Relaxing(g, s, a, target), k + 1, target)
  {
    var t := Relaxing(g, s, a, target);
    RelaxingRelaxes(g, s, a, target);
    forall j | 0 <= j < |t.done|
      ensures RelaxedInto(g, t.dist, t.done[j], if j == |t.done| - 1 then k + 1 else |g.into[t.done[j]]|, target)
    {
      var n := s.done[j];
      assert n in s.done;
      if Improves(g, s, a, target) {
        LoweredInto(g, s.dist, a.src, Plus(s.dist[a.dest], Toll(g, a, target)), n, if j == |s.done| - 1 then k
          else |g.into[n]|, target);
      }
      if j == |s.done| - 1 {
        RelaxedOneMore(g, t.dist, n, k, target);
      }
    }
  }

  lemma RelaxingKeepsOrder(g: Graph, s: Search, a: Arc, target: nat)
    requires Shape(g, s, target) && Ordered(s) && s.done != [] && GoodArc(g, a) && a.dest == s.done[|s.done| - 1]
    requires Improves(g, s, a, target) && a.src !in s.done &&
      Less(s.dist[a.dest], Plus(s.dist[a.dest], Toll(g, a, target)))
    requires var t := Relaxing(g, s, a, target);
      Within(t.queue, |t.dist|) && Ascending(t.queue, t.dist) && forall x :: x in t.queue <==>
        x in s.queue || x == a.src
    ensures Ordered(Relaxing(g, s, a, target))
  {
    var t := Relaxing(g, s, a, target);
    forall i | 0 <= i < |t.done| ensures t.dist[t.done[i]] == s.dist[s.done[i]] {
      assert t.done[i] in s.done;
    }
    forall i, j | 0 <= i < |t.done| && 0 <= j < |t.queue| ensures Leq(t.dist[t.done[i]], t.dist[t.queue[j]]) {
      assert t.queue[j] in t.queue;
      assert Leq(s.dist[s.done[i]], s.dist[a.dest]);
      if t.queue[j] != a.src {
        var j' :| 0 <= j' < |s.queue| && s.queue[j'] == t.queue[j];
        assert Leq(s.dist[s.done[i]], s.dist[s.queue[j']]);
      }
    }
  }

  lemma RelaxingKeeps(g: Graph, s: Search, k: nat, a: Arc, target: nat)
    requires Next(g, s, k, a, target)
    ensures Inv(g, Relaxing(g, s, a, target), k + 1, target)
  {
    if Improves(g, s, a, target) {
      RelaxingKeepsShape(g, s, k, a, target);
      RelaxingKeepsWays(g, s, k, a, target);
      ImprovedIsNotDone(g, s, k, a, target);
      QueueAfter(g, s, k, a, target);
      RelaxingKeepsOrder(g, s, a, target);
    }
    RelaxingKeepsRelaxed(g, s, k, a, target);
  }

  lemma DequeuedKeepsShape(g: Graph, s: Search, target: nat)
    requires Shape(g, s, target) && Reached(s) && s.queue != []
    ensures Shape(g, Dequeued(s), target) && Reached(Dequeued(s))
  {
    var t := Dequeued(s);
    assert s.queue[0] in s.queue;
    forall u | 0 <= u < |t.dist| ensures t.dist[u].Fin? <==> u in t.queue || u in t.done {
      assert u in s.queue <==> u == s.queue[0] || u in t.queue;
    }
  }

  lemma DequeuedKeepsWays(g: Graph, s: Search, target: nat)
    requires |s.dist| == |s.path| && Ways(g, s, target) && s.queue != []
    ensures Ways(g, Dequeued(s), target)
  {
    var t := Dequeued(s);
    forall u | 0 <= u < |t.dist| ensures Chained(t, u, target) {
      assert Chained(s, u, target);
    }
  }

  lemma DequeuedKeepsRelaxed(g: Graph, s: Search, k: nat, target: nat)
    requires Shape(g, s, target) && RelaxedUpTo(g, s, k, target) && s.queue != [] && Shape(g, Dequeued(s), target)
    requires s.done != [] ==> k >= |g.into[s.done[|s.done| - 1]]|
    ensures RelaxedUpTo(g, Dequeued(s), 0, target)
  {
    var t := Dequeued(s);
    forall j | 0 <= j < |t.done| ensures RelaxedInto(g, t.dist, t.done[j], if j == |t.done| - 1 then 0
      else |g.into[t.done[j]]|, target) {
      if j < |s.done| {
        assert RelaxedInto(g, s.dist, s.done[j], if j == |s.done| - 1 then k else |g.into[s.done[j]]|, target);
      }
    }
  }

  lemma DequeuedKeepsOrder(s: Search)
    requires Within(s.queue, |s.dist|) && Within(s.done, |s.dist|) && Ordered(s) && s.queue != [] &&
      s.dist[s.queue[0]].Fin?
    ensures Within(Dequeued(s).queue, |s.dist|) && Within(Dequeued(s).done, |s.dist|) && Ordered(Dequeued(s))
  {
  }

  lemma DequeuedKeeps(g: Graph, s: Search, k: nat, target: nat)
    requires Inv(g, s, k, target) && s.queue != [] && (s.done != [] ==> k >= |g.into[s.done[|s.done| - 1]]|)
    ensures Inv(g, Dequeued(s), 0, target)
  {
    DequeuedKeepsShape(g, s, target);
    DequeuedKeepsWays(g, s, target);
    DequeuedKeepsRelaxed(g, s, k, target);
    assert s.queue[0] in s.queue;
    DequeuedKeepsOrder(s);
  }

  function Start(n: nat, target: nat): Search
    requires target < n
  {
    Search(seq(n, i => Inf)[target := Fin(0.0)], seq(n, i => []), [target], [])
  }

  lemma StartHolds(g: Graph, target: nat)
    requires WellFormed(g) && target < |g.into|
    ensures Inv(g, Start(|g.into|, target), 0, target)
  {
  }

  lemma UnreachedIsRelaxed(g: Graph, s: Search, n: nat, i: nat, target: nat)
    requires Shape(g, s, target) && n < |g.into| && i < |g.into[n]| && s.dist[n].Inf?
    ensures Relaxed(g, s.dist, g.into[n][i], target)
  {
  }

  /** When the queue is empty the distances are the shortest ones. */
  lemma SearchEnds(g: Graph, s: Search, k: nat, target: nat)
    requires Inv(g, s, k, target) && s.queue == [] && (s.done != [] ==> k >= |g.into[s.done[|s.done| - 1]]|)
    ensures Shortest(g, s.dist, target)
  {
    forall n, i | 0 <= n < |g.into| && 0 <= i < |g.into[n]| ensures Relaxed(g, s.dist, g.into[n][i], target) {
      if s.dist[n].Fin? {
        assert n in s.done;
        var j :| 0 <= j < |s.done| && s.done[j] == n;
        assert RelaxedInto(g, s.dist, n, if j == |s.done| - 1 then k else |g.into[n]|, target);
      } else {
        UnreachedIsRelaxed(g, s, n, i, target);
      }
    }
    assert forall u :: 0 <= u < |s.dist| ==> Witness(g, s.dist[u], u, s.path[u], target);
    RelaxedIsShortest(g, s.dist, s.path, target);
  }

  /** There are no more nodes to be done than there are nodes. */
  lemma DistinctBounded(s: seq<nat>, n: nat)
    requires NoRepeats(s) && Within(s, n)
    ensures |s| <= n
    decreases n
  {
    if s != [] {
      var t := s[..|s| - 1];
      var m := s[|s| - 1];
      assert s[0] < n;
      var u := seq(|t|, i requires 0 <= i < |t| => if t[i] == n - 1 then m else t[i]);
      forall i | 0 <= i < |u| ensures u[i] < n - 1 {
        assert t[i] == s[i] && s[i] != m;
      }
      forall i, j | 0 <= i < j < |u| ensures u[i] != u[j] {
        assert t[i] == s[i] && t[j] == s[j] && s[i] != m && s[j] != m;
      }
      DistinctBounded(u, n - 1);
    }
  }

  // ----- Following the kept ways -------------------------------------------------------

  /** The kept ways are cheapest, share their ends, and every arc of a way leads closer to the target. */
  ghost predicate Follows(g: Graph, d: seq<Dist>, path: seq<seq<Arc>>, target: nat) {
    |d| == |path| == |g.into| && target < |d| && d[target] == Fin(0.0) && path[target] == [] &&
    forall u :: 0 <= u < |d| ==> Follow(g, d, path, u, target)
  }

  predicate Follow(g: Graph, d: seq<Dist>, path: seq<seq<Arc>>, u: nat, target: nat)
    requires |d| == |path| && u < |d|
  {
    Witness(g, d[u], u, path[u], target) &&
    (d[u].Fin? && u != target ==>
      path[u] != [] && path[u][0].dest < |d| && path[u][1..] == path[path[u][0].dest] && Less(d[path[u][0].dest], d[u]))
  }

  lemma SearchFollows(g: Graph, s: Search, k: nat, target: nat)
    requires Inv(g, s, k, target)
    ensures Follows(g, s.dist, s.path, target)
  {
    forall u | 0 <= u < |s.dist| ensures Follow(g, s.dist, s.path, u, target) {
      assert Witness(g, s.dist[u], u, s.path[u], target) && Chained(s, u, target);
      if s.dist[u].Fin? && u != target {
        var v := s.path[u][0].dest;
        assert Witness(g, s.dist[v], v, s.path[v], target);
        TollIsPositive(g, s.path[u][0], target);
      }
    }
  }

  /** The node a way visits after its first i arcs. */
  function Visited(u: nat, p: seq<Arc>, i: nat): nat
    requires i <= |p|
    decreases i
  {
    if i == 0 then u else Visited(p[0].dest, p[1..], i - 1)
  }

  /** Along a kept way the distance falls with every arc, and what is left is the kept way of the node reached. */
  lemma {:induction false} WayDescends(g: Graph, d: seq<Dist>, path: seq<seq<Arc>>, u: nat, i: nat, target: nat)
    requires Follows(g, d, path, target) && u < |d| && d[u].Fin? && i <= |path[u]|
    ensures var v := Visited(u, path[u], i);
      v < |d| && d[v].Fin? && path[v] == path[u][i..] && (i > 0 ==> Less(d[v], d[u])) &&
        (i == |path[u]| ==> v == target)
    decreases i
  {
    assert Follow(g, d, path, u, target);
    if i > 0 {
      var v := path[u][0].dest;
      WayDescends(g, d, path, v, i - 1, target);
      assert path[u][i..] == path[v][i - 1..];
    } else if path[u] == [] {
    }
  }

  /** So no way visits a node twice. */
  lemma WayHasNoCycle(g: Graph, d: seq<Dist>, path: seq<seq<Arc>>, u: nat, i: nat, j: nat, target: nat)
    requires Follows(g, d, path, target) && u < |d| && d[u].Fin? && i < j <= |path[u]|
    ensures Visited(u, path[u], i) != Visited(u, path[u], j)
  {
    var v := Visited(u, path[u], i);
    WayDescends(g, d, path, u, i, target);
    VisitedFrom(u, path[u], i, j);
    WayDescends(g, d, path, v, j - i, target);
  }

  lemma {:induction false} VisitedFrom(u: nat, p: seq<Arc>, i: nat, j: nat)
    requires i <= j <= |p|
    ensures Visited(u, p, j) == Visited(Visited(u, p, i), p[i..], j - i)
    decreases i
  {
    if i > 0 {
      VisitedFrom(p[0].dest, p[1..], i - 1, j - 1);
      assert p[1..][i - 1..] == p[i..];
    }
  }

  // ----- Weights that matter ---------------------------------------------------------------

  /** The arcs stand where they say, whatever their weights. */
  ghost predicate Structured(g: Graph) {
    |g.into| == |g.weight| &&
    forall n, i :: 0 <= n < |g.into| && 0 <= i < |g.into[n]| ==>
      g.into[n][i].dest == n && g.into[n][i].pos == i && g.into[n][i].src < |g.into|
  }

  /** The node can reach the target at a finite cost, so that the search will come to it. */
  ghost predicate Reaches(g: Graph, n: nat, target: nat)
  {
    exists p :: IsPath(g, n, p, target) && Cost(g, p, target).Fin?
  }

  ghost predicate GoodNode(g: Graph, n: nat)
    requires n < |g.into| == |g.weight|
  {
    Leq(Fin(0.0), g.weight[n]) && forall i :: 0 <= i < |g.into[n]| ==> Positive(g.into[n][i])
  }

  /** What the search asserts: the nodes that it comes to weigh at least nothing, and the links into them that can be
      used weigh more. The rest of the graph may have any weights. */
  ghost predicate Weighted(g: Graph, target: nat) {
    Structured(g) && forall n :: 0 <= n < |g.into| && Reaches(g, n, target) ==> GoodNode(g, n)
  }

  function Blocked(s: seq<Arc>): (r: seq<Arc>)
    ensures |r| == |s|
  {
    seq(|s|, i requires 0 <= i < |s| => s[i].(usable := false))
  }

  /** The graph without the rest. */
  ghost function Pruned(g: Graph, target: nat): (u: Graph)
    requires |g.into| == |g.weight|
    ensures |u.into| == |u.weight| == |g.into|
    ensures forall n :: 0 <= n < |g.into| ==>
      u.into[n] == (if Reaches(g, n, target) then g.into[n] else Blocked(g.into[n])) &&
      u.weight[n] == if Reaches(g, n, target) then g.weight[n] else Fin(0.0)
  {
    Graph(seq(|g.into|, n requires 0 <= n < |g.into| => if Reaches(g, n, target) then g.into[n]
      else Blocked(g.into[n])),
          seq(|g.into|, n requires 0 <= n < |g.into| => if Reaches(g, n, target) then g.weight[n] else Fin(0.0)))
  }

  lemma PrunedIsWellFormed(g: Graph, target: nat)
    requires Weighted(g, target)
    ensures WellFormed(Pruned(g, target))
  {
    var u := Pruned(g, target);
    forall n, i | 0 <= n < |u.into| && 0 <= i < |u.into[n]|
      ensures u.into[n][i].dest == n && u.into[n][i].pos == i && GoodArc(u, u.into[n][i]) {
      if Reaches(g, n, target) {
        assert GoodNode(g, n);
      }
    }
    forall n | 0 <= n < |u.weight| ensures Leq(Fin(0.0), u.weight[n]) {
      if Reaches(g, n, target) {
        assert GoodNode(g, n);
      }
    }
  }

  /** Both graphs have the same ways of finite cost. */
  lemma {:induction false} PrunedPath(g: Graph, n: nat, p: seq<Arc>, target: nat)
    requires Structured(g) && IsPath(g, n, p, target) && Cost(g, p, target).Fin?
    ensures IsPath(Pruned(g, target), n, p, target) && Cost(Pruned(g, target), p, target) == Cost(g, p, target)
    decreases |p|
  {
    if p != [] {
      PrunedPath(g, p[0].dest, p[1..], target);
      assert Reaches(g, p[0].dest, target);
    }
  }

  lemma {:induction false} UnprunedPath(g: Graph, n: nat, p: seq<Arc>, target: nat)
    requires Structured(g) && IsPath(Pruned(g, target), n, p, target)
    ensures IsPath(g, n, p, target) && Cost(Pruned(g, target), p, target) == Cost(g, p, target)
    decreases |p|
  {
    if p != [] {
      UnprunedPath(g, p[0].dest, p[1..], target);
      assert Reaches(g, p[0].dest, target);
    }
  }

  /** So they have the same shortest paths. */
  lemma PrunedShortest(g: Graph, d: seq<Dist>, target: nat)
    requires Structured(g) && Shortest(Pruned(g, target), d, target)
    ensures Shortest(g, d, target)
  {
    var u := Pruned(g, target);
    forall n | 0 <= n < |d| ensures Cheapest(g, n, d[n], target) {
      assert Cheapest(u, n, d[n], target);
      forall p | IsPath(g, n, p, target) ensures Leq(d[n], Cost(g, p, target)) {
        if Cost(g, p, target).Fin? {
          PrunedPath(g, n, p, target);
        }
      }
      if d[n].Fin? {
        var p :| IsPath(u, n, p, target) && Cost(u, p, target) == d[n];
        UnprunedPath(g, n, p, target);
      }
    }
  }

  lemma PrunedFollows(g: Graph, d: seq<Dist>, path: seq<seq<Arc>>, target: nat)
    requires Structured(g) && Follows(Pruned(g, target), d, path, target)
    ensures Follows(g, d, path, target)
  {
    var u := Pruned(g, target);
    forall n | 0 <= n < |d| ensures Follow(g, d, path, n, target) {
      assert Follow(u, d, path, n, target);
      if d[n].Fin? {
        UnprunedPath(g, n, path[n], target);
      }
    }
  }

  /** At a node that the search takes off the queue it sees the same arcs and weights in both. */
  lemma DoneIsKept(g: Graph, s: Search, k: nat, d: nat, target: nat)
    requires Structured(g) && Inv(Pruned(g, target), s, k, target) && d in s.done && d < |g.into|
    ensures Pruned(g, target).into[d] == g.into[d] && Pruned(g, target).weight[d] == g.weight[d]
  {
    var u := Pruned(g, target);
    assert s.dist[d].Fin? && Witness(u, s.dist[d], d, s.path[d], target);
    UnprunedPath(g, d, s.path[d], target);
    assert Reaches(g, d, target);
  }

  // ----- The breadth-first search ----------------------------------------------------------

  /** The graph with every link counted as one and no charge for passing through a node. */
  function UnitGraph(g: Graph): Graph {
    Graph(seq(|g.into|, n requires 0 <= n < |g.into| => UnitArcs(g.into[n])), seq(|g.weight|, n => Fin(0.0)))
  }

  function UnitArcs(s: seq<Arc>): (r: seq<Arc>)
    ensures |r| == |s|
  {
    seq(|s|, i requires 0 <= i < |s| => s[i].(weight := Fin(1.0)))
  }

  /** Every link counts as one, and no node charges. */
  ghost predicate Unit(u: Graph) {
    |u.weight| == |u.into| && (forall n :: 0 <= n < |u.weight| ==> u.weight[n] == Fin(0.0)) &&
    forall n, i :: 0 <= n < |u.into| && 0 <= i < |u.into[n]| ==> u.into[n][i].weight == Fin(1.0)
  }

  lemma UnitGraphIsUnit(g: Graph)
    requires Structured(g)
    ensures WellFormed(UnitGraph(g)) && Unit(UnitGraph(g)) && |UnitGraph(g).into| == |g.into|
    ensures forall n :: 0 <= n < |g.into| ==> UnitGraph(g).into[n] == UnitArcs(g.into[n])
  {
  }

  /** When every link weighs one and no node charges, the two searches find the same distances. */
  lemma UnitWeightsAgree(g: Graph, d: seq<Dist>, d': seq<Dist>, target: nat)
    requires Unit(g) && Shortest(g, d, target) && Shortest(UnitGraph(g), d', target)
    ensures d == d'
  {
    forall n | 0 <= n < |g.into| ensures UnitArcs(g.into[n]) == g.into[n] {
    }
    assert UnitGraph(g) == g;
    ShortestIsUnique(g, d, d', target);
  }

  /** What the breadth-first search does with an arc: it only looks whether the source has been reached. */
  function Discover(s: Search, a: Arc): Search
    requires a.src < |s.dist| && a.dest < |s.dist| && |s.dist| == |s.path|
  {
    if a.usable && s.dist[a.src].Inf? then
      s.(dist := s.dist[a.src := Plus(s.dist[a.dest], Fin(1.0))], path := s.path[a.src := [a] + s.path[a.dest]],
         queue := s.queue + [a.src])
    else s
  }

  /** No node that has been reached is more than one farther than the one dequeued last. */
  ghost predicate Narrow(s: Search)
    requires Within(s.done, |s.dist|)
  {
    s.done != [] ==> forall u :: 0 <= u < |s.dist| && s.dist[u].Fin? ==>
      Leq(s.dist[u], Plus(s.dist[s.done[|s.done| - 1]], Fin(1.0)))
  }

  lemma EnqueueLast(q: seq<nat>, d: seq<Dist>, n: nat)
    requires n < |d| && Within(q, |d|) && forall i :: 0 <= i < |q| ==> Leq(d[q[i]], d[n])
    ensures Enqueue(q, d, n) == q + [n]
  {
    if q != [] {
      assert Within(q[1..], |d|);
      EnqueueLast(q[1..], d, n);
    }
  }

  /** A node that is nearer than one step past the last one done is not improved by an arc of weight one. */
  lemma NarrowIsNotImproved(g: Graph, s: Search, a: Arc, target: nat)
    requires |s.dist| == |g.into| && GoodArc(g, a) && Toll(g, a, target) == Fin(1.0) && s.dist[a.dest].Fin?
    requires Leq(s.dist[a.src], Plus(s.dist[a.dest], Fin(1.0))) || s.dist[a.src].Inf?
    ensures Improves(g, s, a, target) <==> a.usable && s.dist[a.src].Inf?
  {
  }

  lemma FoundLast(s: Search, n: nat, v: Dist)
    requires Within(s.queue, |s.dist|) && n < |s.dist| && n !in s.queue && Within(Without(s.queue, n), |s.dist|)
    requires forall i :: 0 <= i < |s.queue| ==> Leq(s.dist[s.queue[i]], v)
    ensures Enqueue(Without(s.queue, n), s.dist[n := v], n) == s.queue + [n]
  {
    WithoutAbsent(s.queue, n);
    var d := s.dist[n := v];
    forall i | 0 <= i < |s.queue| ensures Leq(d[s.queue[i]], d[n]) {
      assert s.queue[i] in s.queue;
    }
    EnqueueLast(s.queue, d, n);
  }

  lemma DiscoverIsNarrow(s: Search, a: Arc)
    requires Within(s.done, |s.dist|) && Narrow(s) && s.done != [] && a.dest == s.done[|s.done| - 1]
    requires a.src < |s.dist| == |s.path| && s.dist[a.dest].Fin?
    ensures Narrow(Discover(s, a))
  {
    var t := Discover(s, a);
    forall u | 0 <= u < |t.dist| && t.dist[u].Fin? ensures Leq(t.dist[u], Plus(t.dist[a.dest], Fin(1.0))) {
      assert u != a.src ==> t.dist[u] == s.dist[u];
    }
  }

  /** On a graph of unit arcs the breadth-first step is the weighted one. */
  lemma DiscoverIsRelaxing(u: Graph, s: Search, k: nat, a: Arc, target: nat)
    requires Unit(u) && Next(u, s, k, a, target) && Narrow(s)
    ensures Discover(s, a) == Relaxing(u, s, a, target) && Narrow(Discover(s, a))
  {
    assert a == u.into[a.dest][a.pos] && Toll(u, a, target) == Fin(1.0);
    assert a.dest in s.done;
    var v := Plus(s.dist[a.dest], Fin(1.0));
    NarrowIsNotImproved(u, s, a, target);
    DiscoverIsNarrow(s, a);
    if a.usable && s.dist[a.src].Inf? {
      assert a.src !in s.queue && a.src != a.dest;
      forall i | 0 <= i < |s.queue| ensures Leq(s.dist[s.queue[i]], v) {
        assert s.queue[i] in s.queue;
      }
      WithoutAbsent(s.queue, a.src);
      FoundLast(s, a.src, v);
    }
  }

  lemma DequeuedNarrow(g: Graph, s: Search, k: nat, target: nat)
    requires Inv(g, s, k, target) && Narrow(s) && s.queue != [] &&
      (s.done == [] ==> s.queue == [target] && forall u :: 0 <= u < |s.dist| && u != target ==> s.dist[u].Inf?)
    ensures Narrow(Dequeued(s))
  {
    assert s.queue[0] in s.queue;
  }

  /** The search stands between two nodes: all arcs into the last node taken off the queue have been looked at. */
  ghost predicate Between(g: Graph, s: Search, j: nat, t: nat) {
    Inv(g, s, j, t) && (s.done != [] ==> j >= |g.into[s.done[|s.done| - 1]]|)
  }

  ghost predicate NarrowFrom(s: Search, t: nat) {
    t < |s.dist| && Within(s.done, |s.dist|) && Narrow(s) && (s.done == [] ==> s == Start(|s.dist|, t))
  }

  /** So it keeps what the weighted step keeps. */
  lemma DiscoverKeeps(u: Graph, s: Search, i: nat, a: Arc, t: nat)
    requires Unit(u) && Next(u, s, i, a, t) && Narrow(s)
    ensures Inv(u, Discover(s, a), i + 1, t) && Narrow(Discover(s, a)) && Discover(s, a).done == s.done
  {
    DiscoverIsRelaxing(u, s, i, a, t);
    RelaxingKeeps(u, s, i, a, t);
  }

  /** The i-th arc into the node that was taken off the queue last. */
  lemma DiscoverNth(g: Graph, u: Graph, s: Search, d: nat, i: nat, t: nat)
    requires Unit(u) && Inv(u, s, i, t) && Narrow(s) && s.done != [] && s.done[|s.done| - 1] == d &&
      d < |g.into| == |u.into|
    requires u.into[d] == UnitArcs(g.into[d]) && i < |g.into[d]| == |u.into[d]|
    ensures var a := u.into[d][i];
      a.src == g.into[d][i].src < |s.dist| == |s.path| && a.dest == d < |s.dist| && a.pos == i &&
        a.usable == g.into[d][i].usable &&
      Inv(u, Discover(s, a), i + 1, t) && Narrow(Discover(s, a)) && Discover(s, a).done == s.done
  {
    var a := u.into[d][i];
    assert a.dest == d && a.pos == i && GoodArc(u, a);
    DiscoverKeeps(u, s, i, a, t);
  }

  lemma SearchResult(g: Graph, s: Search, j: nat, t: nat)
    requires Between(g, s, j, t) && s.queue == []
    ensures Shortest(g, s.dist, t) && Follows(g, s.dist, s.path, t)
  {
    SearchEnds(g, s, j, t);
    SearchFollows(g, s, j, t);
  }
}
