/** The topology on the heap: its nodes and links, and the two searches over them. */
module Topologies {
  import opened Lists
  import opened ShortestPaths

  class Link {
    var srcNode: Node?
    var destNode: Node?
    var srcGateId: int
    var destGateId: int
    var weight: Dist
    var enabled: bool

    constructor (weight: Dist)
      ensures srcNode == destNode == null && srcGateId == destGateId == -1 && this.weight == weight && enabled
    {
      srcNode, destNode := null, null;
      srcGateId, destGateId := -1, -1;
      this.weight := weight;
      enabled := true;
    }
  }

  class Node {
    const moduleId: int
    var weight: Dist
    var enabled: bool
    var inLinks: seq<Link>
    var outLinks: seq<Link>
    var dist: Dist
    var outPath: Link?

    constructor (moduleId: int)
      ensures this.moduleId == moduleId && weight == Fin(0.0) && enabled && inLinks == outLinks == [] && dist == Inf &&
        outPath == null
    {
      this.moduleId := moduleId;
      weight, enabled := Fin(0.0), true;
      inLinks, outLinks := [], [];
      dist, outPath := Inf, null;
    }
  }

  /** The list q holds the nodes that the numbers stand for. */
  ghost predicate Mirrors(nodes: seq<Node>, q: seq<Node>, numbers: seq<nat>) {
    |q| == |numbers| && forall i :: 0 <= i < |q| ==> numbers[i] < |nodes| && q[i] == nodes[numbers[i]]
  }

  /** The list without the node. */
  function Removed(q: seq<Node>, n: Node): seq<Node> {
    if q == [] then [] else if q[0] == n then Removed(q[1..], n) else [q[0]] + Removed(q[1..], n)
  }

  lemma {:induction false} RemovedMirrors(nodes: seq<Node>, q: seq<Node>, numbers: seq<nat>, n: nat)
    requires NoRepeats(nodes) && n < |nodes| && Mirrors(nodes, q, numbers)
    ensures Mirrors(nodes, Removed(q, nodes[n]), Without(numbers, n))
  {
    if q != [] {
      var k := numbers[0];
      assert q[0] == nodes[k] && (nodes[k] == nodes[n] <==> k == n);
      assert Mirrors(nodes, q[1..], numbers[1..]);
      RemovedMirrors(nodes, q[1..], numbers[1..], n);
    }
  }

  /** The place before the first node that is farther is the one where the search wants the node. */
  lemma {:induction false} EnqueueAt(q: seq<nat>, d: seq<Dist>, n: nat, it: nat)
    requires n < |d| && Within(q, |d|) && it <= |q|
    requires forall j :: 0 <= j < it ==> !Less(d[n], d[q[j]])
    requires it < |q| ==> Less(d[n], d[q[it]])
    ensures Enqueue(q, d, n) == q[..it] + [n] + q[it..]
  {
    if it > 0 {
      assert Within(q[1..], |d|);
      EnqueueAt(q[1..], d, n, it - 1);
      assert q[..it] == [q[0]] + q[1..][..it - 1];
      assert q[it..] == q[1..][it - 1..];
    }
  }

  lemma TollInSteps(g: Graph, a: Arc, t: nat, d: Dist)
    requires a.dest < |g.weight|
    ensures Plus(d, Toll(g, a, t)) == if a.dest == t then Plus(d, a.weight)
      else Plus(Plus(d, a.weight), g.weight[a.dest])
  {
  }

  /** What the heap needs to know of a search to take its next arc. */
  ghost predicate Ready(g: Graph, s: Search, a: Arc, t: nat) {
    |s.dist| == |s.path| == |g.into| && GoodArc(g, a) && Within(s.queue, |s.dist|) &&
      (Improves(g, s, a, t) && s.dist[a.src] == Inf ==> a.src !in s.queue)
  }

  lemma NextIsReady(g: Graph, s: Search, k: nat, a: Arc, t: nat)
    requires Next(g, s, k, a, t)
    ensures Ready(g, s, a, t)
  {
    if Improves(g, s, a, t) {
      ImprovedIsNotDone(g, s, k, a, t);
    }
  }

  /** The i-th arc into the node that was taken off the queue last, which the search sees as it is. */
  lemma RelaxNth(g: Graph, u: Graph, s: Search, d: nat, i: nat, t: nat) returns (a: Arc)
    requires |g.into| == |g.weight| == |u.into| == |u.weight| && d < |g.into| && u.into[d] == g.into[d] &&
      u.weight[d] == g.weight[d]
    requires Inv(u, s, i, t) && s.done != [] && s.done[|s.done| - 1] == d && i < |g.into[d]|
    ensures a == g.into[d][i] && Ready(g, s, a, t)
    ensures Inv(u, Relaxing(g, s, a, t), i + 1, t) && Relaxing(g, s, a, t).done == s.done
  {
    a := g.into[d][i];
    assert a == u.into[d][i] && a.dest == d && a.pos == i && GoodArc(u, a);
    NextIsReady(u, s, i, a, t);
    RelaxingKeeps(u, s, i, a, t);
    assert Relaxing(g, s, a, t) == Relaxing(u, s, a, t);
  }

  // ----- The order of the nodes ------------------------------------------------------------

  /** A module id as the comparison sees it: cast to an unsigned 32-bit number, which puts -1 last. */
  function Unsigned(id: int): (r: int)
    ensures -0x8000_0000 <= id < 0x8000_0000 ==> 0 <= r <= 0xFFFF_FFFF && (r == 0xFFFF_FFFF <==> id == -1)
  {
    if id < 0 then id + 0x1_0000_0000 else id
  }

  ghost predicate ById(nodes: seq<Node>) {
    (forall i :: 0 <= i < |nodes| ==> IsModuleId(nodes[i].moduleId)) &&
    forall i, j :: 0 <= i < j < |nodes| ==> Unsigned(nodes[i].moduleId) <= Unsigned(nodes[j].moduleId)
  }

  predicate IsModuleId(id: int) { -0x8000_0000 <= id < 0x8000_0000 }

  /** The first node with the id, looking at one node after the other. */
  function Scan(nodes: seq<Node>, id: int): Node? {
    if nodes == [] then null else if nodes[0].moduleId == id then nodes[0] else Scan(nodes[1..], id)
  }

  lemma {:induction false} ScanAt(nodes: seq<Node>, id: int, i: nat)
    requires i <= |nodes| && forall j :: 0 <= j < i ==> nodes[j].moduleId != id
    ensures Scan(nodes, id) == Scan(nodes[i..], id)
  {
    if i > 0 {
      ScanAt(nodes[1..], id, i - 1);
      assert nodes[1..][i - 1..] == nodes[i..];
    } else {
      assert nodes[0..] == nodes;
    }
  }

  lemma InsertedById(nodes: seq<Node>, node: Node, i: nat)
    requires ById(nodes) && IsModuleId(node.moduleId) && i <= |nodes|
    requires forall j :: 0 <= j < i ==> Unsigned(nodes[j].moduleId) <= Unsigned(node.moduleId)
    requires forall j :: i <= j < |nodes| ==> Unsigned(node.moduleId) <= Unsigned(nodes[j].moduleId)
    ensures ById(nodes[..i] + [node] + nodes[i..])
  {
  }

  lemma ErasedById(nodes: seq<Node>, i: nat)
    requires ById(nodes) && i < |nodes|
    ensures ById(nodes[..i] + nodes[i + 1..])
  {
    var r := nodes[..i] + nodes[i + 1..];
    forall j, k | 0 <= j < k < |r| ensures Unsigned(r[j].moduleId) <= Unsigned(r[k].moduleId) {
      assert r[j] == nodes[if j < i then j else j + 1] && r[k] == nodes[if k < i then k else k + 1];
    }
  }

  class Topology {
    var nodes: seq<Node>
    var target: Node?
    ghost var links: set<Link>

    ghost function OutOf(n: Node): set<Link>
      reads this`links, links`srcNode
    {
      set l | l in links && l.srcNode == n
    }

    ghost function Into(n: Node): set<Link>
      reads this`links, links`destNode
    {
      set l | l in links && l.destNode == n
    }

    /** The links of the graph are each once among the outgoing links of their source and once among the incoming
        links of their destination, and no node lists any other link. */
    ghost predicate Wired()
      reads this`nodes, this`links, nodes`inLinks, nodes`outLinks, links`srcNode, links`destNode
    {
      (forall l :: l in links ==> l.srcNode in nodes && l.destNode in nodes) &&
      forall n :: n in nodes ==> ListsOnce(n.outLinks, OutOf(n)) && ListsOnce(n.inLinks, Into(n))
    }

    ghost predicate Valid()
      reads this`nodes, this`links, nodes`inLinks, nodes`outLinks, links`srcNode, links`destNode
    {
      NoRepeats(nodes) && ById(nodes) && Wired()
    }

    constructor ()
      ensures Valid() && nodes == [] && links == {} && target == null
    {
      nodes, target, links := [], null, {};
    }

    /** The first node that is not less than the id. */
    method LowerBound(id: int) returns (i: nat)
      requires ById(nodes)
      ensures i <= |nodes|
      ensures forall j :: 0 <= j < i ==> Unsigned(nodes[j].moduleId) < Unsigned(id)
      ensures forall j :: i <= j < |nodes| ==> Unsigned(id) <= Unsigned(nodes[j].moduleId)
    {
      i := 0;
      var k := |nodes|;
      while i < k
        invariant 0 <= i <= k <= |nodes|
        invariant forall j :: 0 <= j < i ==> Unsigned(nodes[j].moduleId) < Unsigned(id)
        invariant forall j :: k <= j < |nodes| ==> Unsigned(id) <= Unsigned(nodes[j].moduleId)
      {
        var m := (i + k) / 2;
        if Unsigned(nodes[m].moduleId) < Unsigned(id) {
          i := m + 1;
        } else {
          k := m;
        }
      }
    }

    /** The binary search finds what looking at one node after the other finds. */
    method GetNodeFor(id: int) returns (r: Node?)
      requires ById(nodes) && IsModuleId(id)
      ensures r == Scan(nodes, id)
      ensures r == null <==> forall n :: n in nodes ==> n.moduleId != id
      ensures r != null ==> r in nodes && r.moduleId == id
    {
      var i := LowerBound(id);
      ScanAt(nodes, id, i);
      if i == |nodes| || nodes[i].moduleId != id {
        forall n | n in nodes ensures n.moduleId != id {
          var j :| 0 <= j < |nodes| && nodes[j] == n;
        }
        ScanAt(nodes, id, |nodes|);
        return null;
      }
      return nodes[i];
    }

    /** A node without id goes to the end, another one before the first node that is not less. */
    method AddNode(node: Node) returns (i: nat)
      requires NoRepeats(nodes) && ById(nodes) && node !in nodes && IsModuleId(node.moduleId)
      modifies this`nodes
      ensures i <= |old(nodes)| && nodes == old(nodes)[..i] + [node] + old(nodes)[i..] && nodes[i] == node
      ensures NoRepeats(nodes) && ById(nodes) && (old(Valid()) && node.inLinks == node.outLinks == [] ==> Valid())
      ensures node.moduleId == -1 ==> i == |old(nodes)|
      ensures node.moduleId != -1 ==> forall j :: 0 <= j < i ==>
        Unsigned(old(nodes)[j].moduleId) < Unsigned(node.moduleId)
    {
      if node.moduleId == -1 {
        i := |nodes|;
      } else {
        i := LowerBound(node.moduleId);
      }
      nodes := nodes[..i] + [node] + nodes[i..];
      InsertedById(old(nodes), node, i);
      InsertedOnce(old(nodes), node, i);
      if old(Valid()) && node.inLinks == node.outLinks == [] {
        InsertedIsWired(node);
      }
    }

    method UnlinkFromSourceNode(link: Link)
      requires link.srcNode != null && link in link.srcNode.outLinks
      modifies link.srcNode`outLinks
      ensures link.srcNode.outLinks == Erased(old(link.srcNode.outLinks), link)
    {
      var srcOutLinks := link.srcNode.outLinks;
      var it := 0;
      while srcOutLinks[it] != link
        invariant 0 <= it < |srcOutLinks| && link in srcOutLinks[it..] && link !in srcOutLinks[..it]
        decreases |srcOutLinks| - it
      {
        it := it + 1;
      }
      ErasedAt(srcOutLinks, link, it);
      link.srcNode.outLinks := srcOutLinks[..it] + srcOutLinks[it + 1..];
    }

    method UnlinkFromDestNode(link: Link)
      requires link.destNode != null && link in link.destNode.inLinks
      modifies link.destNode`inLinks
      ensures link.destNode.inLinks == Erased(old(link.destNode.inLinks), link)
    {
      var destInLinks := link.destNode.inLinks;
      var it := 0;
      while destInLinks[it] != link
        invariant 0 <= it < |destInLinks| && link in destInLinks[it..] && link !in destInLinks[..it]
        decreases |destInLinks| - it
      {
        it := it + 1;
      }
      ErasedAt(destInLinks, link, it);
      link.destNode.inLinks := destInLinks[..it] + destInLinks[it + 1..];
    }

    lemma ErasedAll(link: Link)
      requires Wired()
      ensures forall n :: n in nodes ==>
        ListsOnce(Erased(n.outLinks, link), OutOf(n) - {link}) &&
          ListsOnce(Erased(n.inLinks, link), Into(n) - {link}) &&
        (link !in OutOf(n) ==> Erased(n.outLinks, link) == n.outLinks) &&
          (link !in Into(n) ==> Erased(n.inLinks, link) == n.inLinks)
    {
      forall n | n in nodes
        ensures ListsOnce(Erased(n.outLinks, link), OutOf(n) - {link}) &&
          ListsOnce(Erased(n.inLinks, link), Into(n) - {link})
        ensures (link !in OutOf(n) ==> Erased(n.outLinks, link) == n.outLinks) &&
          (link !in Into(n) ==> Erased(n.inLinks, link) == n.inLinks)
      {
        ErasedLists(n.outLinks, OutOf(n), link);
        ErasedLists(n.inLinks, Into(n), link);
      }
    }

    /** Once the link is out of all lists, the rest of the graph is as it was. */
    twostate lemma UnlinkedIsWired(link: Link)
      requires old(Wired()) && nodes == old(nodes) && links == old(links) - {link}
      requires forall n :: n in nodes ==>
        n.outLinks == Erased(old(n.outLinks), link) &&
        n.inLinks == Erased(old(n.inLinks), link)
      requires forall l :: l in links ==> l.srcNode == old(l.srcNode) && l.destNode == old(l.destNode)
      ensures Wired()
    {
      forall n | n in nodes ensures ListsOnce(n.outLinks, OutOf(n)) && ListsOnce(n.inLinks, Into(n)) {
        ErasedLists(old(n.outLinks), old(OutOf(n)), link);
        ErasedLists(old(n.inLinks), old(Into(n)), link);
        assert OutOf(n) == old(OutOf(n)) - {link} && Into(n) == old(Into(n)) - {link};
      }
    }

    /** The link goes out of the lists of its ends. */
    method DeleteLink(link: Link)
      requires Valid() && link in links
      modifies this`links, nodes`inLinks, nodes`outLinks
      ensures Valid() && links == old(links) - {link}
      ensures forall n :: n in nodes ==>
        n.outLinks == Erased(old(n.outLinks), link) &&
        n.inLinks == Erased(old(n.inLinks), link)
    {
      ErasedAll(link);
      UnlinkFromSourceNode(link);
      UnlinkFromDestNode(link);
      links := links - {link};
      UnlinkedIsWired(link);
    }

    /** One more node, with no links. */
    twostate lemma InsertedIsWired(node: Node)
      requires old(Wired()) && links == old(links) && forall n :: n in nodes ==> n in old(nodes) || n == node
      requires forall n :: n in old(nodes) ==> n in nodes
      requires forall n :: n in nodes ==> n.outLinks == old(n.outLinks) && n.inLinks == old(n.inLinks)
      requires node !in old(nodes) && node.outLinks == [] && node.inLinks == []
      requires forall l :: l in links ==> l.srcNode == old(l.srcNode) && l.destNode == old(l.destNode)
      ensures Wired()
    {
      forall n | n in nodes ensures ListsOnce(n.outLinks, OutOf(n)) && ListsOnce(n.inLinks, Into(n)) {
        assert OutOf(n) == old(OutOf(n)) && Into(n) == old(Into(n));
      }
    }

    /** The link between its new ends, and out of all other lists. */
    twostate lemma LinkedIsWired(link: Link)
      requires old(Wired()) && nodes == old(nodes) && links == old(links) + {link} && link.srcNode in nodes &&
        link.destNode in nodes
      requires forall n :: n in old(nodes) ==> n.outLinks == Relisted(old(n.outLinks), link, n == link.srcNode)
      requires forall n :: n in old(nodes) ==> n.inLinks == Relisted(old(n.inLinks), link, n == link.destNode)
      requires forall l :: l in links && l != link ==> l.srcNode == old(l.srcNode) && l.destNode == old(l.destNode)
      ensures Wired()
    {
      forall n | n in nodes ensures ListsOnce(n.outLinks, OutOf(n)) {
        RelistedOnce(old(n.outLinks), old(OutOf(n)), link, n == link.srcNode);
        assert OutOf(n) == if n == link.srcNode then old(OutOf(n)) + {link} else old(OutOf(n)) - {link};
      }
      forall n | n in nodes ensures ListsOnce(n.inLinks, Into(n)) {
        RelistedOnce(old(n.inLinks), old(Into(n)), link, n == link.destNode);
        assert Into(n) == if n == link.destNode then old(Into(n)) + {link} else old(Into(n)) - {link};
      }
    }

    /** The link leaves the lists of the ends it has, if any. */
    method Unlist(link: Link)
      requires Wired() && (link !in links ==> link.srcNode == null && link.destNode == null)
      modifies nodes`inLinks, nodes`outLinks
      ensures forall n :: n in nodes ==>
        n.outLinks == Erased(old(n.outLinks), link) &&
        n.inLinks == Erased(old(n.inLinks), link)
    {
      ErasedAll(link);
      if link.srcNode != null {
        UnlinkFromSourceNode(link);
      }
      if link.destNode != null {
        UnlinkFromDestNode(link);
      }
    }

    method Enlist(link: Link, srcNode: Node, destNode: Node)
      requires srcNode in nodes && destNode in nodes
      modifies link`srcNode, link`destNode, link`srcGateId, link`destGateId, srcNode`outLinks, destNode`inLinks
      ensures link.srcNode == srcNode && link.destNode == destNode
      ensures link.srcGateId == if old(link.srcNode) == srcNode then old(link.srcGateId) else -1
      ensures link.destGateId == if old(link.destNode) == destNode then old(link.destGateId) else -1
      ensures forall n :: n in nodes ==> n.outLinks == if n == srcNode then old(n.outLinks) + [link]
        else old(n.outLinks)
      ensures forall n :: n in nodes ==> n.inLinks == if n == destNode then old(n.inLinks) + [link] else old(n.inLinks)
    {
      if link.srcNode != srcNode {
        link.srcGateId := -1;
      }
      if link.destNode != destNode {
        link.destGateId := -1;
      }
      link.srcNode := srcNode;
      link.destNode := destNode;
      srcNode.outLinks := srcNode.outLinks + [link];
      destNode.inLinks := destNode.inLinks + [link];
    }

    method Relink(link: Link, srcNode: Node, destNode: Node)
      requires Wired() && srcNode in nodes && destNode in nodes
      requires link !in links ==> link.srcNode == null && link.destNode == null
      modifies link`srcNode, link`destNode, link`srcGateId, link`destGateId, nodes`inLinks, nodes`outLinks
      ensures link.srcNode == srcNode && link.destNode == destNode
      ensures link.srcGateId == if old(link.srcNode) == srcNode then old(link.srcGateId) else -1
      ensures link.destGateId == if old(link.destNode) == destNode then old(link.destGateId) else -1
      ensures forall n :: n in old(nodes) ==> n.outLinks == Relisted(old(n.outLinks), link, n == srcNode)
      ensures forall n :: n in old(nodes) ==> n.inLinks == Relisted(old(n.inLinks), link, n == destNode)
    {
      Unlist(link);
      Enlist(link, srcNode, destNode);
    }

    method AddLinkWired(link: Link, srcNode: Node, destNode: Node)
      requires Wired() && srcNode in nodes && destNode in nodes
      requires link !in links ==> link.srcNode == null && link.destNode == null
      modifies this`links, link`srcNode, link`destNode, link`srcGateId, link`destGateId, nodes`inLinks, nodes`outLinks
      ensures Wired() && links == old(links) + {link} && link.srcNode == srcNode && link.destNode == destNode
      ensures link.srcGateId == if old(link.srcNode) == srcNode then old(link.srcGateId) else -1
      ensures link.destGateId == if old(link.destNode) == destNode then old(link.destGateId) else -1
      ensures forall n :: n in old(nodes) ==> n.outLinks == Relisted(old(n.outLinks), link, n == srcNode)
      ensures forall n :: n in old(nodes) ==> n.inLinks == Relisted(old(n.inLinks), link, n == destNode)
    {
      hide Wired;
      Relink(link, srcNode, destNode);
      links := links + {link};
      LinkedIsWired(link);
    }

    /** Puts the link between the nodes, wherever it was before; a gate id is kept only if that end stays. */
    method AddLink(link: Link, srcNode: Node, destNode: Node)
      requires Valid() && srcNode in nodes && destNode in nodes
      requires link !in links ==> link.srcNode == null && link.destNode == null
      modifies this`links, link`srcNode, link`destNode, link`srcGateId, link`destGateId, nodes`inLinks, nodes`outLinks
      ensures Valid() && links == old(links) + {link} && link.srcNode == srcNode && link.destNode == destNode
      ensures link.srcGateId == if old(link.srcNode) == srcNode then old(link.srcGateId) else -1
      ensures link.destGateId == if old(link.destNode) == destNode then old(link.destGateId) else -1
      ensures forall n :: n in old(nodes) ==> n.outLinks == Relisted(old(n.outLinks), link, n == srcNode)
      ensures forall n :: n in old(nodes) ==> n.inLinks == Relisted(old(n.inLinks), link, n == destNode)
    {
      hide Wired;
      AddLinkWired(link, srcNode, destNode);
    }

    /** The outgoing links of the node leave their destinations' lists. */
    method UnlinkOutgoing(node: Node)
      requires Wired() && node in nodes
      modifies nodes`inLinks, node`outLinks
      ensures node.outLinks == []
      ensures forall n :: n in nodes ==> n.inLinks == Cleared(old(n.inLinks), old(OutOf(node)))
    {
      hide Cleared;
      hide Erased;
      var i := 0;
      ghost var gone: set<Link> := {};
      forall n | n in nodes ensures Cleared(n.inLinks, {}) == n.inLinks {
        ClearedNone(n.inLinks);
      }
      while i < |node.outLinks|
        invariant 0 <= i <= |node.outLinks| && node.outLinks == old(node.outLinks)
        invariant forall l :: l in gone <==> l in node.outLinks[..i]
        invariant forall n :: n in nodes ==> n.inLinks == Cleared(old(n.inLinks), gone)
      {
        var link := node.outLinks[i];
        assert link in old(OutOf(node)) && link !in gone;
        StaysListed(old(link.destNode.inLinks), gone, link);
        forall n | n in nodes
          ensures Cleared(old(n.inLinks), gone + {link}) == if n == link.destNode then Erased(n.inLinks, link)
            else n.inLinks
        {
          ClearedMore(old(n.inLinks), gone, link);
        }
        UnlinkFromDestNode(link);
        gone := gone + {link};
        i := i + 1;
      }
      assert gone == old(OutOf(node));
      node.outLinks := [];
    }

    /** The incoming links of the node leave their sources' lists; the node has no outgoing ones any more. */
    method UnlinkIncoming(node: Node, ghost incoming: set<Link>)
      requires node in nodes && node.outLinks == [] && ListsOnce(node.inLinks, incoming) &&
        incoming <= links - OutOf(node)
      requires forall l :: l in links ==> l.srcNode in nodes
      requires forall n :: n in nodes && n != node ==> ListsOnce(n.outLinks, OutOf(n))
      modifies node`inLinks, nodes`outLinks
      ensures node.inLinks == node.outLinks == []
      ensures forall n :: n in nodes ==> n.outLinks == Cleared(old(n.outLinks), incoming)
    {
      hide Cleared;
      hide Erased;
      var i := 0;
      ghost var gone: set<Link> := {};
      forall n | n in nodes ensures Cleared(n.outLinks, {}) == n.outLinks {
        ClearedNone(n.outLinks);
      }
      while i < |node.inLinks|
        invariant 0 <= i <= |node.inLinks| && node.inLinks == old(node.inLinks)
        invariant forall l :: l in gone <==> l in node.inLinks[..i]
        invariant forall n :: n in nodes ==> n.outLinks == Cleared(old(n.outLinks), gone)
      {
        var link := node.inLinks[i];
        assert link in incoming && link !in gone;
        StaysListed(old(link.srcNode.outLinks), gone, link);
        forall n | n in nodes
          ensures Cleared(old(n.outLinks), gone + {link}) == if n == link.srcNode then Erased(n.outLinks, link)
            else n.outLinks
        {
          ClearedMore(old(n.outLinks), gone, link);
        }
        UnlinkFromSourceNode(link);
        gone := gone + {link};
        i := i + 1;
      }
      assert gone == incoming;
      ClearedAll<Link>([], incoming);
      node.inLinks := [];
    }

    twostate lemma ClearedIsWired(node: Node)
      requires old(Wired()) && old(NoRepeats(nodes)) && node in old(nodes) && nodes == Erased(old(nodes), node)
      requires links == old(links) - old(OutOf(node) + Into(node))
      requires forall n :: n in old(nodes) ==> n.outLinks == Cleared(old(n.outLinks), old(OutOf(node) + Into(node)))
      requires forall n :: n in old(nodes) ==> n.inLinks == Cleared(old(n.inLinks), old(OutOf(node) + Into(node)))
      requires forall l :: l in links ==> l.srcNode == old(l.srcNode) && l.destNode == old(l.destNode)
      ensures Wired() && NoRepeats(nodes)
    {
      var gone := old(OutOf(node) + Into(node));
      ghost var all := set n | n in old(nodes);
      assert ListsOnce(old(nodes), all);
      ErasedLists(old(nodes), all, node);
      forall n | n in nodes ensures ListsOnce(n.outLinks, OutOf(n)) {
        ClearedLists(old(n.outLinks), old(OutOf(n)), gone);
        assert OutOf(n) == old(OutOf(n)) - gone;
      }
      forall n | n in nodes ensures ListsOnce(n.inLinks, Into(n)) {
        ClearedLists(old(n.inLinks), old(Into(n)), gone);
        assert Into(n) == old(Into(n)) - gone;
      }
    }

    /** The links that are no longer listed anywhere are those of the node. */
    method UnlinkNode(node: Node)
      requires Wired() && node in nodes
      modifies nodes`inLinks, nodes`outLinks
      ensures node.inLinks == node.outLinks == []
      ensures forall n :: n in nodes ==> n.outLinks == Cleared(old(n.outLinks), old(OutOf(node) + Into(node)))
      ensures forall n :: n in nodes ==> n.inLinks == Cleared(old(n.inLinks), old(OutOf(node) + Into(node)))
    {
      ghost var out, into := OutOf(node), Into(node);
      UnlinkOutgoing(node);
      ClearedLists(old(node.inLinks), into, out);
      UnlinkIncoming(node, into - out);
      forall n | n in nodes
        ensures Cleared(old(n.inLinks), out) == Cleared(old(n.inLinks), out + into) || n == node
        ensures Cleared(old(n.outLinks), into - out) == Cleared(old(n.outLinks), out + into) || n == node
      {
        if n != node {
          ClearedSame(old(n.inLinks), out, out + into);
          ClearedSame(old(n.outLinks), into - out, out + into);
        }
      }
      ClearedAll(old(node.inLinks), out + into);
      ClearedAll(old(node.outLinks), out + into);
    }

    method EraseNode(node: Node)
      requires NoRepeats(nodes) && ById(nodes) && node in nodes
      modifies this`nodes
      ensures nodes == Erased(old(nodes), node) && ById(nodes)
    {
      var it := 0;
      while nodes[it] != node
        invariant 0 <= it < |nodes| && node in nodes[it..] && node !in nodes[..it]
        decreases |nodes| - it
      {
        it := it + 1;
      }
      ErasedAt(nodes, node, it);
      ErasedById(nodes, it);
      nodes := nodes[..it] + nodes[it + 1..];
    }

    /** The node leaves the graph together with all its links; the others keep their order. */
    method DeleteNode(node: Node)
      requires Valid() && node in nodes
      modifies this`nodes, this`links, nodes`inLinks, nodes`outLinks
      ensures Valid() && nodes == Erased(old(nodes), node) && links == old(links) - old(OutOf(node) + Into(node))
      ensures node.inLinks == node.outLinks == []
      ensures forall n :: n in old(nodes) ==> n.outLinks == Cleared(old(n.outLinks), old(OutOf(node) + Into(node)))
      ensures forall n :: n in old(nodes) ==> n.inLinks == Cleared(old(n.inLinks), old(OutOf(node) + Into(node)))
    {
      ghost var gone := OutOf(node) + Into(node);
      UnlinkNode(node);
      EraseNode(node);
      links := links - gone;
      ClearedIsWired(node);
    }

    /** The links into the nodes. */
    ghost function Links(): set<Link>
      reads this`nodes, nodes`inLinks
    {
      set n, l | n in nodes && l in n.inLinks :: l
    }

    /** The arc a is what the link l looks like. */
    ghost predicate SeesLink(a: Arc, l: Link)
      reads this`nodes, nodes`enabled, l`srcNode, l`weight, l`enabled
    {
      a.src < |nodes| && l.srcNode == nodes[a.src] && a.weight == l.weight &&
        a.usable == (l.enabled && nodes[a.src].enabled)
    }

    /** The graph g is what the node list and the links in L look like. */
    ghost predicate SeesIn(g: Graph, L: set<Link>)
      reads this`nodes, nodes`weight, nodes`enabled, nodes`inLinks, L`srcNode, L`weight, L`enabled
    {
      Structured(g) && |g.into| == |nodes| && NoRepeats(nodes) &&
      (forall n :: 0 <= n < |nodes| ==> g.weight[n] == nodes[n].weight && |g.into[n]| == |nodes[n].inLinks|) &&
      forall n, i :: 0 <= n < |nodes| && 0 <= i < |nodes[n].inLinks| ==>
        nodes[n].inLinks[i] in L && SeesLink(g.into[n][i], nodes[n].inLinks[i])
    }

    ghost predicate Sees(g: Graph)
      reads this`nodes, nodes`weight, nodes`enabled, nodes`inLinks, Links()`srcNode, Links()`weight, Links()`enabled
    {
      SeesIn(g, Links())
    }

    lemma ArcsOf(n: nat) returns (arcs: seq<Arc>)
      requires Valid() && n < |nodes|
      ensures |arcs| == |nodes[n].inLinks|
      ensures forall i :: 0 <= i < |arcs| ==>
        arcs[i].dest == n && arcs[i].pos == i &&
        SeesLink(arcs[i], nodes[n].inLinks[i])
    {
      arcs := [];
      while |arcs| < |nodes[n].inLinks|
        invariant |arcs| <= |nodes[n].inLinks|
        invariant forall i :: 0 <= i < |arcs| ==>
          arcs[i].dest == n && arcs[i].pos == i &&
          SeesLink(arcs[i], nodes[n].inLinks[i])
      {
        var l := nodes[n].inLinks[|arcs|];
        assert l in Into(nodes[n]);
        var k: nat :| k < |nodes| && nodes[k] == l.srcNode;
        arcs := arcs + [Arc(k, n, |arcs|, l.weight, l.enabled && nodes[k].enabled)];
      }
    }

    /** Every graph that editing can lead to is one that the searches understand. */
    lemma ValidIsSeen() returns (g: Graph)
      requires Valid()
      ensures Sees(g)
    {
      var into: seq<seq<Arc>>, weight: seq<Dist> := [], [];
      while |into| < |nodes|
        invariant |into| == |weight| <= |nodes|
        invariant forall n :: 0 <= n < |into| ==> weight[n] == nodes[n].weight && |into[n]| == |nodes[n].inLinks|
        invariant forall n, i :: 0 <= n < |into| && 0 <= i < |into[n]| ==>
          into[n][i].dest == n && into[n][i].pos == i && SeesLink(into[n][i], nodes[n].inLinks[i])
      {
        var arcs := ArcsOf(|into|);
        into, weight := into + [arcs], weight + [nodes[|into|].weight];
      }
      forall n, i | 0 <= n < |nodes| && 0 <= i < |nodes[n].inLinks| ensures nodes[n].inLinks[i] in Links() {
        assert nodes[n] in nodes && nodes[n].inLinks[i] in nodes[n].inLinks;
      }
      g := Graph(into, weight);
    }

    ghost function Distances(): (d: seq<Dist>)
      reads this, nodes
      ensures |d| == |nodes| && forall n :: 0 <= n < |nodes| ==> d[n] == nodes[n].dist
    {
      seq(|nodes|, n requires 0 <= n < |nodes| reads this, nodes => nodes[n].dist)
    }

    /** The links the nodes point to are the first ones of the ways. */
    ghost predicate PointsAlong(path: seq<seq<Arc>>)
      reads this`nodes, nodes`inLinks, nodes`outPath
    {
      |path| == |nodes| && forall n :: 0 <= n < |nodes| ==> nodes[n].outPath == FirstLink(path[n])
    }

    ghost function FirstLink(p: seq<Arc>): Link?
      reads this`nodes, nodes`inLinks
    {
      if p != [] && p[0].dest < |nodes| && p[0].pos < |nodes[p[0].dest].inLinks| then nodes[p[0].dest].inLinks[p[0].pos]
        else null
    }

    ghost predicate Holds(s: Search, q: seq<Node>)
      reads this`nodes, nodes`inLinks, nodes`dist, nodes`outPath
    {
      |s.dist| == |nodes| && (forall n :: 0 <= n < |nodes| ==> nodes[n].dist == s.dist[n]) && PointsAlong(s.path) &&
        Mirrors(nodes, q, s.queue)
    }

    method Clean()
      modifies nodes`dist, nodes`outPath
      ensures forall n :: 0 <= n < |nodes| ==> nodes[n].dist == Inf && nodes[n].outPath == null
    {
      var i := 0;
      while i < |nodes|
        invariant 0 <= i <= |nodes|
        invariant forall n :: 0 <= n < i ==> nodes[n].dist == Inf && nodes[n].outPath == null
      {
        nodes[i].dist := Inf;
        nodes[i].outPath := null;
        i := i + 1;
      }
    }

    /** Every node is unreached but the target, which alone is in the queue. */
    method Begin(t: Node, ghost g: Graph, ghost L: set<Link>, ghost k: nat) returns (q: seq<Node>)
      requires SeesIn(g, L) && k < |nodes| && nodes[k] == t
      modifies this`target, nodes`dist, nodes`outPath
      ensures target == t && Holds(Start(|nodes|, k), q) && SeesIn(g, L)
    {
      target := t;
      Clean();
      assert SeesIn(g, L);
      t.dist := Fin(0.0);
      assert SeesIn(g, L);
      q := [t];
    }

    /** The node goes before the first one in the queue that is farther. */
    method Insert(q: seq<Node>, n: Node, newdist: Dist, ghost s: Search, ghost k: nat) returns (r: seq<Node>)
      requires |s.dist| == |nodes| && (forall i :: 0 <= i < |nodes| ==> nodes[i].dist == s.dist[i])
      requires k < |nodes| && nodes[k] == n && s.dist[k] == newdist
      requires Within(s.queue, |s.dist|) && Mirrors(nodes, q, s.queue)
      ensures Mirrors(nodes, r, Enqueue(s.queue, s.dist, k))
    {
      var it := 0;
      while it < |q| && !Less(newdist, q[it].dist)
        invariant 0 <= it <= |q|
        invariant forall j :: 0 <= j < it ==> !Less(newdist, q[j].dist)
      {
        it := it + 1;
      }
      r := q[..it] + [n] + q[it..];
      EnqueueAt(s.queue, s.dist, k, it);
    }

    /** The node gets nearer, along the link: it moves in the queue, or enters it. */
    method Improve(n: Node, newdist: Dist, link: Link, q: seq<Node>, ghost s: Search, ghost k: nat, ghost way: seq<Arc>)
      returns (r: seq<Node>)
      requires NoRepeats(nodes) && Holds(s, q) && k < |nodes| && nodes[k] == n && FirstLink(way) == link
      requires Within(s.queue, |s.dist|) && Within(Without(s.queue, k), |s.dist|) &&
        (s.dist[k] == Inf ==> k !in s.queue)
      modifies n`dist, n`outPath
      ensures Holds(Search(s.dist[k := newdist], s.path[k := way],
        Enqueue(Without(s.queue, k), s.dist[k := newdist], k), s.done), r)
    {
      hide Within, FirstLink;
      r := q;
      if n.dist != Inf {
        r := Removed(r, n);
        RemovedMirrors(nodes, q, s.queue, k);
      } else {
        WithoutAbsent(s.queue, k);
      }
      n.dist := newdist;
      n.outPath := link;
      r := Insert(r, n, newdist, Search(s.dist[k := newdist], s.path, Without(s.queue, k), s.done), k);
    }

    /** What an incoming link of dest offers: whether its source gets nearer through it, and how near. */
    method Offer(dest: Node, i: nat, ghost g: Graph, ghost L: set<Link>, ghost s: Search, ghost d: nat, ghost t: nat)
      returns (improves: bool, src: Node?, newdist: Dist)
      requires SeesIn(g, L) && t < |nodes| && nodes[t] == target && i < |dest.inLinks| && d < |nodes| &&
        nodes[d] == dest
      requires |s.dist| == |nodes| && (forall n :: 0 <= n < |nodes| ==> nodes[n].dist == s.dist[n])
      requires GoodArc(g, g.into[d][i])
      ensures improves == Improves(g, s, g.into[d][i], t)
      ensures improves ==> src == nodes[g.into[d][i].src] && newdist == Plus(s.dist[d], Toll(g, g.into[d][i], t))
    {
      ghost var a := g.into[d][i];
      assert SeesLink(a, nodes[d].inLinks[i]);
      improves, src, newdist := false, null, Inf;
      if !dest.inLinks[i].enabled {
        return;
      }
      src := dest.inLinks[i].srcNode;
      if !src.enabled {
        return;
      }
      newdist := Plus(dest.dist, dest.inLinks[i].weight);
      if dest != target {
        newdist := Plus(newdist, dest.weight);
      }
      TollInSteps(g, a, t, s.dist[d]);
      improves := newdist != Inf && Less(newdist, src.dist);
    }

    /** What an improving link changes. */
    lemma LinkImproves(i: nat, q: seq<Node>, g: Graph, L: set<Link>, s: Search, d: nat, t: nat)
      requires SeesIn(g, L) && Holds(s, q) && d < |nodes| && i < |nodes[d].inLinks| && i < |g.into[d]|
      requires Ready(g, s, g.into[d][i], t) && Improves(g, s, g.into[d][i], t)
      ensures NoRepeats(nodes)
      ensures var a := g.into[d][i];
        var newdist := Plus(s.dist[d], Toll(g, a, t));
        a.src < |nodes| == |s.dist| == |s.path| && FirstLink([a] + s.path[d]) == nodes[d].inLinks[i] &&
        Within(s.queue, |s.dist|) && Within(Without(s.queue, a.src), |s.dist|) &&
          (s.dist[a.src] == Inf ==> a.src !in s.queue) &&
        Relaxing(g, s, a, t) == Search(s.dist[a.src := newdist], s.path[a.src := [a] + s.path[d]],
                                       Enqueue(Without(s.queue, a.src), s.dist[a.src := newdist], a.src), s.done)
    {
      var a := g.into[d][i];
      WithoutElements(s.queue, a.src);
      WithinElements(s.queue, Without(s.queue, a.src), |s.dist|);
    }

    lemma LinkChangesNothing(i: nat, g: Graph, s: Search, d: nat, t: nat)
      requires d < |g.into| && i < |g.into[d]| && Ready(g, s, g.into[d][i], t) && !Improves(g, s, g.into[d][i], t)
      ensures Relaxing(g, s, g.into[d][i], t) == s
    {
    }

    lemma ReadyIsGood(g: Graph, s: Search, a: Arc, t: nat)
      requires Ready(g, s, a, t)
      ensures GoodArc(g, a) && |s.dist| == |s.path| == |g.into|
    {
    }

    lemma HeldDistances(s: Search, q: seq<Node>)
      requires Holds(s, q)
      ensures |s.dist| == |nodes| && forall n :: 0 <= n < |nodes| ==> nodes[n].dist == s.dist[n]
    {
    }

    /** One incoming link of the weighted search. */
    method RelaxLink(dest: Node, i: nat, q: seq<Node>, ghost g: Graph, ghost L: set<Link>, ghost s: Search,
                     ghost d: nat, ghost t: nat)
      returns (r: seq<Node>)
      requires SeesIn(g, L) && t < |nodes| && nodes[t] == target && Holds(s, q) && i < |dest.inLinks| && d < |nodes| &&
        nodes[d] == dest
      requires Ready(g, s, g.into[d][i], t)
      modifies nodes`dist, nodes`outPath
      ensures Holds(Relaxing(g, s, g.into[d][i], t), r) && SeesIn(g, L)
    {
      hide *;
      r := q;
      InLinksAreSeen(g, L, d);
      ReadyIsGood(g, s, g.into[d][i], t);
      HeldDistances(s, q);
      ghost var a := g.into[d][i];
      var improves, src, newdist := Offer(dest, i, g, L, s, d, t);
      if improves {
        LinkImproves(i, q, g, L, s, d, t);
        r := Improve(src, newdist, dest.inLinks[i], q, s, a.src, [a] + s.path[d]);
      } else {
        LinkChangesNothing(i, g, s, d, t);
      }
    }

    lemma InLinksAreSeen(g: Graph, L: set<Link>, d: nat)
      requires SeesIn(g, L) && d < |nodes|
      ensures d < |g.into| == |g.weight| && |g.into[d]| == |nodes[d].inLinks|
    {
    }

    /** The first node of the queue. */
    lemma DequeuedHolds(s: Search, q: seq<Node>)
      requires Holds(s, q) && q != []
      ensures s.queue != [] && s.queue[0] < |nodes| == |s.dist| && q[0] == nodes[s.queue[0]] &&
        Holds(Dequeued(s), q[1..])
    {
    }

    /** What the search sees at the node that is first in the queue. */
    lemma DequeuedIsKept(g: Graph, s: Search, j: nat, t: nat)
      requires Structured(g) && Between(Pruned(g, t), s, j, t) && s.queue != []
      ensures Inv(Pruned(g, t), Dequeued(s), 0, t)
      ensures var d := s.queue[0];
        d < |g.into| && Pruned(g, t).into[d] == g.into[d] && Pruned(g, t).weight[d] == g.weight[d]
    {
      DequeuedKeeps(Pruned(g, t), s, j, t);
      DoneIsKept(g, Dequeued(s), 0, s.queue[0], t);
    }

    /** The i-th incoming link of the node that was taken off the queue; u is the graph without what the search does not
        see. */
    method RelaxInLink(dest: Node, i: nat, q: seq<Node>, ghost g: Graph, ghost L: set<Link>, ghost u: Graph,
                       ghost s: Search,
                       ghost d: nat, ghost t: nat)
      returns (r: seq<Node>, ghost s': Search)
      requires SeesIn(g, L) && t < |nodes| && nodes[t] == target && Holds(s, q) && d < |nodes| && nodes[d] == dest
      requires |u.into| == |u.weight| == |nodes| && u.into[d] == g.into[d] && u.weight[d] == g.weight[d]
      requires Inv(u, s, i, t) && s.done != [] && s.done[|s.done| - 1] == d && i < |dest.inLinks|
      modifies nodes`dist, nodes`outPath
      ensures Holds(s', r) && SeesIn(g, L) && Inv(u, s', i + 1, t) && s'.done == s.done
    {
      hide Inv, Relaxing, Ready, Holds;
      ghost var a := RelaxNth(g, u, s, d, i, t);
      r := RelaxLink(dest, i, q, g, L, s, d, t);
      s' := Relaxing(g, s, a, t);
    }

    /** All incoming links. */
    method RelaxNode(dest: Node, q: seq<Node>, ghost g: Graph, ghost L: set<Link>, ghost u: Graph, ghost s: Search,
                     ghost d: nat,
                     ghost t: nat)
      returns (r: seq<Node>, ghost s': Search)
      requires SeesIn(g, L) && t < |nodes| && nodes[t] == target && Holds(s, q) && d < |nodes| && nodes[d] == dest
      requires |u.into| == |u.weight| == |nodes| && u.into[d] == g.into[d] && u.weight[d] == g.weight[d]
      requires Inv(u, s, 0, t) && s.done != [] && s.done[|s.done| - 1] == d
      modifies nodes`dist, nodes`outPath
      ensures Holds(s', r) && SeesIn(g, L) && Inv(u, s', |g.into[d]|, t) && s'.done == s.done
    {
      hide *;
      InLinksAreSeen(g, L, d);
      r, s' := q, s;
      var i := 0;
      while i < |dest.inLinks|
        invariant 0 <= i <= |dest.inLinks| && SeesIn(g, L) && Holds(s', r) && Inv(u, s', i, t) && s'.done == s.done
      {
        r, s' := RelaxInLink(dest, i, r, g, L, u, s', d, t);
        i := i + 1;
      }
    }

    /** One node taken off the queue. */
    method RelaxNext(q: seq<Node>, ghost g: Graph, ghost L: set<Link>, ghost s: Search, ghost j: nat, ghost t: nat)
      returns (r: seq<Node>, ghost s': Search, ghost j': nat)
      requires SeesIn(g, L) && Holds(s, q) && t < |nodes| && nodes[t] == target && q != [] &&
        Between(Pruned(g, t), s, j, t)
      modifies nodes`dist, nodes`outPath
      ensures SeesIn(g, L) && Holds(s', r) && Between(Pruned(g, t), s', j', t) && |s'.done| == |s.done| + 1
    {
      hide Reached, Ways, RelaxedUpTo, Ordered;
      hide Pruned, Holds, Inv;
      ghost var u := Pruned(g, t);
      DequeuedHolds(s, q);
      DequeuedIsKept(g, s, j, t);
      ghost var d := s.queue[0];
      s' := Dequeued(s);
      var dest := q[0];
      r, s' := RelaxNode(dest, q[1..], g, L, u, s', d, t);
      j' := |g.into[d]|;
    }

    method RelaxAll(t: Node, ghost g: Graph, ghost L: set<Link>, ghost k: nat) returns (ghost path: seq<seq<Arc>>)
      requires SeesIn(g, L) && Weighted(g, k) && k < |nodes| && nodes[k] == t
      modifies this`target, nodes`dist, nodes`outPath
      ensures target == t && PointsAlong(path) && Shortest(g, Distances(), k) && Follows(g, Distances(), path, k)
    {
      hide Reached, Ways, RelaxedUpTo, Ordered;
      hide Shortest;
      hide Follows;
      hide Pruned, Weighted;
      ghost var u := Pruned(g, k);
      PrunedIsWellFormed(g, k);
      var q := Begin(t, g, L, k);
      ghost var s := Start(|nodes|, k);
      StartHolds(u, k);
      ghost var j: nat := 0;
      while q != []
        invariant SeesIn(g, L) && Holds(s, q) && target == t && Between(u, s, j, k)
        decreases |nodes| - |s.done|
      {
        q, s, j := RelaxNext(q, g, L, s, j, k);
        DistinctBounded(s.done, |nodes|);
      }
      SearchResult(u, s, j, k);
      PrunedShortest(g, s.dist, k);
      PrunedFollows(g, s.dist, s.path, k);
      assert Distances() == s.dist;
      path := s.path;
    }

    /** Every node learns its distance to the target and the first link of a cheapest path to it; without a target the
        method fails and changes nothing. Of the nodes and links that the search comes to, links must weigh more than
        nothing and nodes not less. */
    method CalculateWeightedSingleShortestPathsTo(t: Node?, ghost g: Graph)
      returns (ok: bool, ghost path: seq<seq<Arc>>)
      requires Sees(g) && (t != null ==> t in nodes && forall k :: 0 <= k < |nodes| && nodes[k] == t ==> Weighted(g, k))
      modifies this`target, nodes`dist, nodes`outPath
      ensures ok == (t != null)
      ensures ok ==> target == t && PointsAlong(path)
      ensures ok ==> forall k :: 0 <= k < |nodes| && nodes[k] == t ==>
        Shortest(g, Distances(), k) &&
        Follows(g, Distances(), path, k)
      ensures !ok ==> target == old(target) && Distances() == old(Distances()) && forall n :: n in nodes ==>
        n.outPath == old(n.outPath)
    {
      ok, path := t != null, [];
      if t == null {
        return;
      }
      ghost var k: nat :| k < |nodes| && nodes[k] == t;
      path := RelaxAll(t, g, Links(), k);
    }

    /** The node is reached, along the link. */
    method Reach(w: Node, newdist: Dist, link: Link, q: seq<Node>, ghost s: Search, ghost k: nat, ghost way: seq<Arc>)
      returns (r: seq<Node>)
      requires NoRepeats(nodes) && Holds(s, q) && k < |nodes| && nodes[k] == w && FirstLink(way) == link
      modifies w`dist, w`outPath
      ensures Holds(Search(s.dist[k := newdist], s.path[k := way], s.queue + [k], s.done), r)
    {
      w.dist := newdist;
      w.outPath := link;
      r := q + [w];
    }

    /** The breadth-first search looks only whether the source of the link has been reached. */
    method DiscoverLink(v: Node, i: nat, q: seq<Node>, ghost g: Graph, ghost L: set<Link>, ghost s: Search,
                        ghost a: Arc) returns (r: seq<Node>)
      requires SeesIn(g, L) && Holds(s, q) && a.dest < |nodes| && nodes[a.dest] == v && a.pos == i && i < |v.inLinks|
      requires a.src < |nodes| && v.inLinks[i].srcNode == nodes[a.src] &&
        a.usable == (v.inLinks[i].enabled && nodes[a.src].enabled)
      modifies nodes`dist, nodes`outPath
      ensures Holds(Discover(s, a), r) && SeesIn(g, L)
    {
      r := q;
      if !v.inLinks[i].enabled {
        return;
      }
      var w := v.inLinks[i].srcNode;
      if !w.enabled {
        return;
      }
      if w.dist == Inf {
        assert FirstLink([a] + s.path[a.dest]) == v.inLinks[i];
        r := Reach(w, Plus(v.dist, Fin(1.0)), v.inLinks[i], q, s, a.src, [a] + s.path[a.dest]);
      }
    }

    /** The i-th incoming link of the node that was taken off the queue. */
    method DiscoverInLink(v: Node, i: nat, q: seq<Node>, ghost g: Graph, ghost L: set<Link>, ghost u: Graph,
                          ghost s: Search,
                          ghost d: nat, ghost t: nat)
      returns (r: seq<Node>, ghost s': Search)
      requires SeesIn(g, L) && Holds(s, q) && d < |nodes| == |u.into| && nodes[d] == v &&
        u.into[d] == UnitArcs(g.into[d])
      requires Unit(u) && Inv(u, s, i, t) && NarrowFrom(s, t) && s.done != [] && s.done[|s.done| - 1] == d &&
        i < |v.inLinks|
      modifies nodes`dist, nodes`outPath
      ensures SeesIn(g, L) && Holds(s', r) && Inv(u, s', i + 1, t) && NarrowFrom(s', t) && s'.done == s.done
    {
      hide UnitArcs, Inv, Unit, Narrow, Holds, Start;
      ghost var a := u.into[d][i];
      DiscoverNth(g, u, s, d, i, t);
      assert SeesLink(g.into[d][i], nodes[d].inLinks[i]);
      r := DiscoverLink(v, i, q, g, L, s, a);
      s' := Discover(s, a);
    }

    /** All incoming links. */
    method DiscoverNode(v: Node, q: seq<Node>, ghost g: Graph, ghost L: set<Link>, ghost u: Graph, ghost s: Search,
                        ghost d: nat,
                        ghost t: nat)
      returns (r: seq<Node>, ghost s': Search)
      requires SeesIn(g, L) && Holds(s, q) && d < |nodes| == |u.into| && nodes[d] == v &&
        u.into[d] == UnitArcs(g.into[d])
      requires Unit(u) && Inv(u, s, 0, t) && NarrowFrom(s, t) && s.done != [] && s.done[|s.done| - 1] == d
      modifies nodes`dist, nodes`outPath
      ensures SeesIn(g, L) && Holds(s', r) && Inv(u, s', |g.into[d]|, t) && NarrowFrom(s', t) && s'.done == s.done
    {
      hide *;
      InLinksAreSeen(g, L, d);
      r, s' := q, s;
      var i := 0;
      while i < |v.inLinks|
        invariant 0 <= i <= |v.inLinks| && SeesIn(g, L) && Holds(s', r) && Inv(u, s', i, t) && NarrowFrom(s', t) &&
          s'.done == s.done
      {
        r, s' := DiscoverInLink(v, i, r, g, L, u, s', d, t);
        i := i + 1;
      }
    }

    lemma DequeuedKeepsNarrow(g: Graph, L: set<Link>, u: Graph, s: Search, j: nat, t: nat)
      requires SeesIn(g, L) && s.queue != [] && Between(u, s, j, t) && NarrowFrom(s, t) && |u.into| == |nodes|
      requires forall n :: 0 <= n < |g.into| ==> u.into[n] == UnitArcs(g.into[n])
      ensures Inv(u, Dequeued(s), 0, t) && NarrowFrom(Dequeued(s), t) && s.queue[0] < |g.into|
      ensures u.into[s.queue[0]] == UnitArcs(g.into[s.queue[0]]) && |u.into[s.queue[0]]| == |g.into[s.queue[0]]|
      ensures var s' := Dequeued(s); s'.done != [] && s'.done[|s'.done| - 1] == s.queue[0] && |s'.done| == |s.done| + 1
    {
      hide Reached, Ways, RelaxedUpTo, Ordered, Narrow, UnitArcs;
      DequeuedNarrow(u, s, j, t);
      DequeuedKeeps(u, s, j, t);
    }

    lemma NowBetween(u: Graph, s: Search, j: nat, t: nat)
      requires Inv(u, s, j, t) && (s.done != [] ==>
        s.done[|s.done| - 1] < |u.into| &&
        j >= |u.into[s.done[|s.done| - 1]]|)
      ensures Between(u, s, j, t)
    {
    }

    /** One node taken off the queue. */
    method DiscoverNext(q: seq<Node>, ghost g: Graph, ghost L: set<Link>, ghost u: Graph, ghost s: Search, ghost j: nat,
                        ghost t: nat)
      returns (r: seq<Node>, ghost s': Search, ghost j': nat)
      requires SeesIn(g, L) && Holds(s, q) && q != [] && Unit(u) && Between(u, s, j, t) && NarrowFrom(s, t)
      requires |u.into| == |nodes| && forall n :: 0 <= n < |g.into| ==> u.into[n] == UnitArcs(g.into[n])
      modifies nodes`dist, nodes`outPath
      ensures SeesIn(g, L) && Holds(s', r) && Between(u, s', j', t) && NarrowFrom(s', t) && |s'.done| == |s.done| + 1
    {
      hide *;
      DequeuedHolds(s, q);
      DequeuedKeepsNarrow(g, L, u, s, j, t);
      ghost var d := s.queue[0];
      s' := Dequeued(s);
      var v := q[0];
      r, s' := DiscoverNode(v, q[1..], g, L, u, s', d, t);
      j' := |g.into[d]|;
      NowBetween(u, s', j', t);
    }

    method DiscoverAll(t: Node, ghost g: Graph, ghost L: set<Link>, ghost u: Graph, ghost k: nat)
      returns (ghost path: seq<seq<Arc>>)
      requires SeesIn(g, L) && k < |nodes| && nodes[k] == t && Unit(u) && WellFormed(u) && |u.into| == |nodes|
      requires forall n :: 0 <= n < |g.into| ==> u.into[n] == UnitArcs(g.into[n])
      modifies this`target, nodes`dist, nodes`outPath
      ensures target == t && PointsAlong(path) && Shortest(u, Distances(), k) && Follows(u, Distances(), path, k)
    {
      hide Reached, Ways, RelaxedUpTo, Ordered;
      hide Shortest;
      hide Follows;
      var q := Begin(t, g, L, k);
      ghost var s := Start(|nodes|, k);
      StartHolds(u, k);
      ghost var j: nat := 0;
      while q != []
        invariant SeesIn(g, L) && Holds(s, q) && target == t && Between(u, s, j, k) && NarrowFrom(s, k)
        decreases |nodes| - |s.done|
      {
        q, s, j := DiscoverNext(q, g, L, u, s, j, k);
        DistinctBounded(s.done, |nodes|);
      }
      SearchResult(u, s, j, k);
      assert Distances() == s.dist;
      path := s.path;
    }

    /** Every node learns its distance to the target in links, and the first link of a shortest path to it. */
    method CalculateUnweightedSingleShortestPathsTo(t: Node?, ghost g: Graph)
      returns (ok: bool, ghost path: seq<seq<Arc>>)
      requires Sees(g) && (t != null ==> t in nodes)
      modifies this`target, nodes`dist, nodes`outPath
      ensures ok == (t != null)
      ensures ok ==> target == t && PointsAlong(path)
      ensures ok ==> forall k :: 0 <= k < |nodes| && nodes[k] == t ==>
        Shortest(UnitGraph(g), Distances(), k) && Follows(UnitGraph(g), Distances(), path, k)
      ensures !ok ==> target == old(target) && Distances() == old(Distances()) && forall n :: n in nodes ==>
        n.outPath == old(n.outPath)
    {
      ok, path := t != null, [];
      if t == null {
        return;
      }
      ghost var k: nat :| k < |nodes| && nodes[k] == t;
      UnitGraphIsUnit(g);
      path := DiscoverAll(t, g, Links(), UnitGraph(g), k);
    }
  }
}
