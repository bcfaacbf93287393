/** The lock graph of ranked/RankedPairs.kt: `RankedPairGraph`, its nodes
    (`RankedPairGraphNode`) and its vertices (`RankedPairGraphVertex`).

    Nodes live in an arena: node n is the n-th node created and `nodes[n]` is the
    candidate it holds; a vertex joins two nodes by their indices, from `a` to `b`. The
    source keeps on every node the list of the vertices that touch it, in the order they
    were added. A locked vertex is recorded by both of its nodes (`SecondCheckPasses`),
    so the model keeps one list `locked` of every locked vertex in the order of locking,
    and a node's list is the subsequence of the vertices that touch it. */
module RankedPairGraphs {
  import opened Wrappers
  import opened ElectionSim

  datatype Vertex = Vertex(a: nat, b: nat)

  /** Whether the vertex belongs to node n's list. */
  predicate Touches(e: Vertex, n: nat)
  {
    e.a == n || e.b == n
  }

  /** Every vertex joins two of the first N nodes. */
  predicate InRange(locked: seq<Vertex>, N: nat)
  {
    forall i :: 0 <= i < |locked| ==> locked[i].a < N && locked[i].b < N
  }

  /** A path of at most k vertices leads from node x to node y. */
  ghost predicate ReachIn(locked: seq<Vertex>, x: nat, y: nat, k: nat)
    decreases k
  {
    && k > 0
    && exists i :: 0 <= i < |locked| && locked[i].a == x &&
         (locked[i].b == y || ReachIn(locked, locked[i].b, y, k - 1))
  }

  /** A non-empty path leads from x to y. */
  ghost predicate Reaches(locked: seq<Vertex>, x: nat, y: nat)
  {
    exists k: nat :: ReachIn(locked, x, y, k)
  }

  /** No node reaches itself. */
  ghost predicate Acyclic(locked: seq<Vertex>)
  {
    forall x :: !Reaches(locked, x, x)
  }

  ghost function Ancestors(locked: seq<Vertex>, N: nat, n: nat): set<nat>
  {
    set x | 0 <= x < N && Reaches(locked, x, n)
  }

  ghost function Descendants(locked: seq<Vertex>, N: nat, n: nat): set<nat>
  {
    set y | 0 <= y < N && Reaches(locked, n, y)
  }

  lemma {:induction false} ReachMore(locked: seq<Vertex>, x: nat, y: nat, k: nat, k': nat)
    requires ReachIn(locked, x, y, k) && k <= k'
    ensures ReachIn(locked, x, y, k')
    decreases k
  {
    var i :| 0 <= i < |locked| && locked[i].a == x &&
      (locked[i].b == y || ReachIn(locked, locked[i].b, y, k - 1));
    if locked[i].b != y {
      ReachMore(locked, locked[i].b, y, k - 1, k' - 1);
    }
  }

  /** A path followed by one more vertex. */
  lemma {:induction false} ReachAppend(locked: seq<Vertex>, x: nat, y: nat, k: nat, i: nat)
    requires ReachIn(locked, x, y, k) && i < |locked| && locked[i].a == y
    ensures ReachIn(locked, x, locked[i].b, k + 1)
    decreases k
  {
    var j :| 0 <= j < |locked| && locked[j].a == x &&
      (locked[j].b == y || ReachIn(locked, locked[j].b, y, k - 1));
    if locked[j].b == y {
      assert ReachIn(locked, y, locked[i].b, k);
    } else {
      ReachAppend(locked, locked[j].b, y, k - 1, i);
    }
  }

  /** Every path ends with a vertex into its last node. */
  lemma {:induction false} ReachLast(locked: seq<Vertex>, x: nat, y: nat, k: nat) returns (i: nat)
    requires ReachIn(locked, x, y, k)
    ensures i < |locked| && locked[i].b == y
    ensures locked[i].a == x || ReachIn(locked, x, locked[i].a, k - 1)
    decreases k
  {
    var j :| 0 <= j < |locked| && locked[j].a == x &&
      (locked[j].b == y || ReachIn(locked, locked[j].b, y, k - 1));
    if locked[j].b == y {
      i := j;
    } else {
      var w := locked[j].b;
      i := ReachLast(locked, w, y, k - 1);
      if locked[i].a == w {
        assert ReachIn(locked, x, w, k - 1);
      } else {
        assert ReachIn(locked, x, locked[i].a, k - 1);
      }
    }
  }

  lemma {:induction false} ReachTrans(locked: seq<Vertex>, x: nat, y: nat, z: nat, k: nat, k': nat)
    requires ReachIn(locked, x, y, k) && ReachIn(locked, y, z, k')
    ensures ReachIn(locked, x, z, k + k')
    decreases k
  {
    var j :| 0 <= j < |locked| && locked[j].a == x &&
      (locked[j].b == y || ReachIn(locked, locked[j].b, y, k - 1));
    if locked[j].b == y {
      ReachMore(locked, y, z, k', k + k' - 1);
    } else {
      ReachTrans(locked, locked[j].b, y, z, k - 1, k');
    }
  }

  /** Paths of a graph are paths of any graph with more vertices. */
  lemma {:induction false} ReachGrows(locked: seq<Vertex>, more: seq<Vertex>, x: nat, y: nat, k: nat)
    requires ReachIn(locked, x, y, k)
    ensures ReachIn(locked + more, x, y, k)
    decreases k
  {
    var j :| 0 <= j < |locked| && locked[j].a == x &&
      (locked[j].b == y || ReachIn(locked, locked[j].b, y, k - 1));
    assert (locked + more)[j] == locked[j];
    if locked[j].b != y {
      ReachGrows(locked, more, locked[j].b, y, k - 1);
    }
  }

  lemma ReachInRange(locked: seq<Vertex>, N: nat, x: nat, y: nat, k: nat)
    requires InRange(locked, N) && ReachIn(locked, x, y, k)
    ensures x < N && y < N
  {
    var i := ReachLast(locked, x, y, k);
  }

  /** Walking a vertex backwards leaves fewer ancestors. */
  lemma AncestorsShrink(locked: seq<Vertex>, N: nat, n: nat, i: nat)
    requires InRange(locked, N) && Acyclic(locked) && i < |locked| && locked[i].b == n
    ensures |Ancestors(locked, N, locked[i].a)| < |Ancestors(locked, N, n)|
  {
    var p := locked[i].a;
    var inner := Ancestors(locked, N, p);
    var outer := Ancestors(locked, N, n);
    forall x | x in inner ensures x in outer {
      var k: nat :| ReachIn(locked, x, p, k);
      ReachAppend(locked, x, p, k, i);
    }
    assert ReachIn(locked, p, n, 1);
    assert p in outer - inner;
    assert outer == inner + (outer - inner);
  }

  /** Walking a vertex forwards leaves fewer descendants. */
  lemma DescendantsShrink(locked: seq<Vertex>, N: nat, n: nat, i: nat)
    requires InRange(locked, N) && Acyclic(locked) && i < |locked| && locked[i].a == n
    ensures |Descendants(locked, N, locked[i].b)| < |Descendants(locked, N, n)|
  {
    var s := locked[i].b;
    var inner := Descendants(locked, N, s);
    var outer := Descendants(locked, N, n);
    forall y | y in inner ensures y in outer {
      var k: nat :| ReachIn(locked, s, y, k);
      assert ReachIn(locked, n, y, k + 1);
    }
    assert ReachIn(locked, n, s, 1);
    assert s in outer - inner;
    assert outer == inner + (outer - inner);
  }

  /** `upstreamContains`: node x is found walking node n's vertices backwards. */
  function Upstream(locked: seq<Vertex>, N: nat, n: nat, x: nat): bool
    requires InRange(locked, N) && Acyclic(locked)
    decreases |Ancestors(locked, N, n)|
  {
    exists i :: 0 <= i < |locked| && Touches(locked[i], n) &&
      (locked[i].a == x ||
       (locked[i].b == n && (AncestorsShrink(locked, N, n, i); Upstream(locked, N, locked[i].a, x))))
  }

  /** `downstreamContains`: node x is found walking node n's vertices forwards. */
  function Downstream(locked: seq<Vertex>, N: nat, n: nat, x: nat): bool
    requires InRange(locked, N) && Acyclic(locked)
    decreases |Descendants(locked, N, n)|
  {
    exists i :: 0 <= i < |locked| && Touches(locked[i], n) &&
      (locked[i].b == x ||
       (locked[i].a == n && (DescendantsShrink(locked, N, n, i); Downstream(locked, N, locked[i].b, x))))
  }

  /** `upstreamContains` decides whether x reaches n. */
  lemma UpstreamIsReach(locked: seq<Vertex>, N: nat, n: nat, x: nat)
    requires InRange(locked, N) && Acyclic(locked) && n != x
    ensures Upstream(locked, N, n, x) <==> Reaches(locked, x, n)
    decreases |Ancestors(locked, N, n)|
  {
    if Upstream(locked, N, n, x) {
      var i :| 0 <= i < |locked| && Touches(locked[i], n) &&
        (locked[i].a == x || (locked[i].b == n && Upstream(locked, N, locked[i].a, x)));
      var p := locked[i].a;
      if p == x {
        assert ReachIn(locked, x, n, 1);
      } else {
        AncestorsShrink(locked, N, n, i);
        UpstreamIsReach(locked, N, p, x);
        var k: nat :| ReachIn(locked, x, p, k);
        ReachAppend(locked, x, p, k, i);
      }
    }
    if Reaches(locked, x, n) {
      var k: nat :| ReachIn(locked, x, n, k);
      var i := ReachLast(locked, x, n, k);
      var p := locked[i].a;
      if p != x {
        AncestorsShrink(locked, N, n, i);
        UpstreamIsReach(locked, N, p, x);
      }
    }
  }

  /** `downstreamContains` decides whether n reaches x. */
  lemma DownstreamIsReach(locked: seq<Vertex>, N: nat, n: nat, x: nat)
    requires InRange(locked, N) && Acyclic(locked) && n != x
    ensures Downstream(locked, N, n, x) <==> Reaches(locked, n, x)
  {
    if Downstream(locked, N, n, x) {
      DownstreamReaches(locked, N, n, x);
    }
    if Reaches(locked, n, x) {
      ReachIsDownstream(locked, N, n, x);
    }
  }

  lemma DownstreamReaches(locked: seq<Vertex>, N: nat, n: nat, x: nat)
    requires InRange(locked, N) && Acyclic(locked) && n != x
    requires Downstream(locked, N, n, x)
    ensures Reaches(locked, n, x)
    decreases |Descendants(locked, N, n)|
  {
    var i :| 0 <= i < |locked| && Touches(locked[i], n) &&
      (locked[i].b == x || (locked[i].a == n && Downstream(locked, N, locked[i].b, x)));
    var s := locked[i].b;
    if s == x {
      assert ReachIn(locked, n, x, 1);
    } else {
      DescendantsShrink(locked, N, n, i);
      DownstreamReaches(locked, N, s, x);
      var k: nat :| ReachIn(locked, s, x, k);
      assert ReachIn(locked, n, x, k + 1);
    }
  }

  lemma ReachIsDownstream(locked: seq<Vertex>, N: nat, n: nat, x: nat)
    requires InRange(locked, N) && Acyclic(locked) && n != x
    requires Reaches(locked, n, x)
    ensures Downstream(locked, N, n, x)
    decreases |Descendants(locked, N, n)|
  {
    var k: nat :| ReachIn(locked, n, x, k);
    var i :| 0 <= i < |locked| && locked[i].a == n &&
      (locked[i].b == x || ReachIn(locked, locked[i].b, x, k - 1));
    var s := locked[i].b;
    assert Touches(locked[i], n);
    if s != x {
      DescendantsShrink(locked, N, n, i);
      ReachIsDownstream(locked, N, s, x);
    }
  }

  /** Locking a → b where b does not reach a: every path of the new graph is a path of the
      old one, or passes the new vertex, reaching a before it and leaving b after it. */
  lemma {:induction false} NewReach(locked: seq<Vertex>, a: nat, b: nat, x: nat, y: nat, k: nat)
    requires a != b && !Reaches(locked, b, a)
    requires ReachIn(locked + [Vertex(a, b)], x, y, k)
    ensures Reaches(locked, x, y) || ((x == a || Reaches(locked, x, a)) && (y == b || Reaches(locked, b, y)))
    decreases k
  {
    var more := locked + [Vertex(a, b)];
    var i :| 0 <= i < |more| && more[i].a == x && (more[i].b == y || ReachIn(more, more[i].b, y, k - 1));
    var w := more[i].b;
    if i < |locked| {
      assert locked[i] == more[i];
      if w == y {
        assert ReachIn(locked, x, y, 1);
      } else {
        NewReach(locked, a, b, w, y, k - 1);
        if Reaches(locked, w, y) {
          var k': nat :| ReachIn(locked, w, y, k');
          assert ReachIn(locked, x, y, k' + 1);
        } else if w == a {
          assert ReachIn(locked, x, a, 1);
        } else {
          var k': nat :| ReachIn(locked, w, a, k');
          assert ReachIn(locked, x, a, k' + 1);
        }
      }
    } else if w != y {
      NewReach(locked, a, b, b, y, k - 1);
    }
  }

  /** Locking a → b where b does not reach a keeps the graph acyclic. */
  lemma LockKeepsAcyclic(locked: seq<Vertex>, a: nat, b: nat)
    requires Acyclic(locked) && a != b && !Reaches(locked, b, a)
    ensures Acyclic(locked + [Vertex(a, b)])
  {
    var more := locked + [Vertex(a, b)];
    forall x ensures !Reaches(more, x, x) {
      if Reaches(more, x, x) {
        var k: nat :| ReachIn(more, x, x, k);
        NewReach(locked, a, b, x, x, k);
        if x != a && x != b {
          var k1: nat :| ReachIn(locked, b, x, k1);
          var k2: nat :| ReachIn(locked, x, a, k2);
          ReachTrans(locked, b, x, a, k1, k2);
        }
      }
    }
  }

  /** The index of the first vertex of node n's list that enters n. */
  function FirstIncoming(locked: seq<Vertex>, n: nat): (r: Option<nat>)
    ensures r.None? <==> forall i :: 0 <= i < |locked| ==> locked[i].b != n
    ensures r.Some? ==> r.value < |locked| && locked[r.value].b == n
    ensures r.Some? ==> forall i :: 0 <= i < r.value ==> locked[i].b != n
  {
    if locked == [] then None
    else if locked[0].b == n then Some(0)
    else
      match FirstIncoming(locked[1..], n)
      case None => None
      case Some(i) => Some(i + 1)
  }

  /** `findHeadNode`: follow the first entering vertex back until a node has none. */
  function FindHead(locked: seq<Vertex>, N: nat, n: nat): (h: nat)
    requires InRange(locked, N) && Acyclic(locked) && n < N
    ensures h < N
    decreases |Ancestors(locked, N, n)|
  {
    match FirstIncoming(locked, n)
    case None => n
    case Some(i) =>
      AncestorsShrink(locked, N, n, i);
      FindHead(locked, N, locked[i].a)
  }

  /** The head walk ends at a node no vertex enters, and that node is the start or
      reaches it. */
  lemma FindHeadIsSource(locked: seq<Vertex>, N: nat, n: nat)
    requires InRange(locked, N) && Acyclic(locked) && n < N
    ensures var h := FindHead(locked, N, n);
      && (forall i :: 0 <= i < |locked| ==> locked[i].b != h)
      && (h == n || Reaches(locked, h, n))
    decreases |Ancestors(locked, N, n)|
  {
    match FirstIncoming(locked, n)
    case None =>
    case Some(i) =>
      var p := locked[i].a;
      AncestorsShrink(locked, N, n, i);
      FindHeadIsSource(locked, N, p);
      var h := FindHead(locked, N, p);
      if h == p {
        assert ReachIn(locked, p, n, 1);
      } else {
        var k: nat :| ReachIn(locked, h, p, k);
        ReachAppend(locked, h, p, k, i);
      }
  }

  /** The graph: the candidate of every node in creation order, and the locked vertices
      in locking order. */
  datatype Graph = Graph(nodes: seq<nat>, locked: seq<Vertex>)

  /** Vertices join existing nodes, no path closes a cycle, and no candidate has two
      nodes. */
  ghost predicate WellFormed(g: Graph)
  {
    InRange(g.locked, |g.nodes|) && Acyclic(g.locked) && Distinct(g.nodes)
  }

  /** `findNode`: the first node holding candidate c. */
  function FindNode(nodes: seq<nat>, c: nat): (r: Option<nat>)
    ensures r.None? <==> c !in nodes
    ensures r.Some? ==> r.value < |nodes| && nodes[r.value] == c
    ensures r.Some? ==> forall i :: 0 <= i < r.value ==> nodes[i] != c
  {
    if nodes == [] then None
    else if nodes[0] == c then Some(0)
    else
      match FindNode(nodes[1..], c)
      case None => None
      case Some(i) => Some(i + 1)
  }

  /** The nodes after `findNode(c).orElseGet { create }`. */
  function Extend(nodes: seq<nat>, c: nat): (r: seq<nat>)
    ensures c in r
    ensures Distinct(nodes) ==> Distinct(r)
    ensures |nodes| <= |r| <= |nodes| + 1 && r[..|nodes|] == nodes
    ensures forall x :: x in r <==> x in nodes || x == c
  {
    if FindNode(nodes, c).Some? then nodes else nodes + [c]
  }

  function Index(nodes: seq<nat>, c: nat): (i: nat)
    requires c in nodes
    ensures i < |nodes| && nodes[i] == c
  {
    FindNode(nodes, c).value
  }

  /** Creating a node keeps the graph well formed. */
  lemma ExtendKeepsWellFormed(g: Graph, c: nat)
    requires WellFormed(g)
    ensures WellFormed(Graph(Extend(g.nodes, c), g.locked))
  {
    var nodes := Extend(g.nodes, c);
    forall i | 0 <= i < |g.locked|
      ensures g.locked[i].a < |nodes| && g.locked[i].b < |nodes|
    {
    }
  }

  /** In a list without repeats, a node holding c is c's first node. */
  lemma IndexOfDistinct(nodes: seq<nat>, c: nat, i: nat)
    requires Distinct(nodes) && i < |nodes| && nodes[i] == c
    ensures Index(nodes, c) == i
  {
  }

  /** `add(a, b, weight)`: find or create the nodes of a and then of b, then
      `nodeA.addVertex`, which keeps the vertex unless `upstreamContains` finds b's node
      behind a's. */
  function AddPair(g: Graph, a: nat, b: nat): (r: Graph)
    requires WellFormed(g) && a != b
    ensures WellFormed(r)
    ensures forall c :: c in r.nodes <==> c in g.nodes || c == a || c == b
  {
    var nodes := Extend(Extend(g.nodes, a), b);
    var na := Index(nodes, a);
    var nb := Index(nodes, b);
    assert InRange(g.locked, |nodes|);
    if Upstream(g.locked, |nodes|, na, nb) then Graph(nodes, g.locked)
    else
      UpstreamIsReach(g.locked, |nodes|, na, nb);
      LockKeepsAcyclic(g.locked, na, nb);
      Graph(nodes, g.locked + [Vertex(na, nb)])
  }

  /** `add` locks the vertex from a's node to b's node exactly when b's node does not
      already reach a's node; existing nodes and vertices are kept. */
  lemma AddLocksUnlessCycle(g: Graph, a: nat, b: nat)
    requires WellFormed(g) && a != b
    ensures var r := AddPair(g, a, b);
      && |r.nodes| <= |g.nodes| + 2 && r.nodes[..|g.nodes|] == g.nodes
      && a in r.nodes && b in r.nodes
      && var na := Index(r.nodes, a);
         var nb := Index(r.nodes, b);
         r.locked == if Reaches(g.locked, nb, na) then g.locked else g.locked + [Vertex(na, nb)]
  {
    var nodes := Extend(Extend(g.nodes, a), b);
    assert nodes[..|g.nodes|] == Extend(g.nodes, a)[..|g.nodes|];
    assert InRange(g.locked, |nodes|);
    UpstreamIsReach(g.locked, |nodes|, Index(nodes, a), Index(nodes, b));
  }

  /** `vertex.b.addVertex(vertex)`: b's node finds no path from itself to a's node, so it
      records the vertex as well. */
  lemma SecondCheckPasses(g: Graph, a: nat, b: nat)
    requires WellFormed(g) && a != b
    requires |AddPair(g, a, b).locked| > |g.locked|
    ensures var r := AddPair(g, a, b);
      var na := Index(r.nodes, a);
      var nb := Index(r.nodes, b);
      !Downstream(r.locked, |r.nodes|, nb, na)
  {
    var r := AddPair(g, a, b);
    var na := Index(r.nodes, a);
    var nb := Index(r.nodes, b);
    AddLocksUnlessCycle(g, a, b);
    DownstreamIsReach(r.locked, |r.nodes|, nb, na);
    assert r.locked[|g.locked|] == Vertex(na, nb);
    ClosingVertex(r.locked, nb, na, |g.locked|);
  }

  /** A path from x to y and a vertex from y back to x make a cycle through x. */
  lemma ClosingVertex(locked: seq<Vertex>, x: nat, y: nat, i: nat)
    requires i < |locked| && locked[i] == Vertex(y, x)
    ensures Reaches(locked, x, y) ==> Reaches(locked, x, x)
  {
    if Reaches(locked, x, y) {
      var k: nat :| ReachIn(locked, x, y, k);
      ReachAppend(locked, x, y, k, i);
    }
  }

  /** Once a's node reaches b's node, adding the pair the other way round changes
      nothing, and every later `add` keeps that path. */
  lemma OppositeIsRejected(g: Graph, a: nat, b: nat)
    requires WellFormed(g) && a != b && a in g.nodes && b in g.nodes
    requires Reaches(g.locked, Index(g.nodes, a), Index(g.nodes, b))
    ensures AddPair(g, b, a) == g
    ensures forall c, d :: c != d ==>
      Reaches(AddPair(g, c, d).locked, Index(g.nodes, a), Index(g.nodes, b))
  {
    AddLocksUnlessCycle(g, b, a);
    forall c, d | c != d
      ensures Reaches(AddPair(g, c, d).locked, Index(g.nodes, a), Index(g.nodes, b))
    {
      AddLocksUnlessCycle(g, c, d);
      var k: nat :| ReachIn(g.locked, Index(g.nodes, a), Index(g.nodes, b), k);
      var r := AddPair(g, c, d);
      ReachGrows(g.locked, r.locked[|g.locked|..], Index(g.nodes, a), Index(g.nodes, b), k);
      assert g.locked + r.locked[|g.locked|..] == r.locked;
    }
  }

  /** `findHeadCandidate`: the candidate at the head of the walk from the first node;
      None where there is no node (`first()` throws). */
  function HeadCandidate(g: Graph): Option<nat>
    requires WellFormed(g)
  {
    if g.nodes == [] then None
    else Some(g.nodes[FindHead(g.locked, |g.nodes|, 0)])
  }

  /** The head candidate exists exactly when there is a node; it holds a node that no
      locked vertex enters and that is the first node or reaches it. */
  lemma HeadCandidateIsSource(g: Graph)
    requires WellFormed(g)
    ensures HeadCandidate(g).None? <==> g.nodes == []
    ensures HeadCandidate(g).Some? ==>
      var h := FindHead(g.locked, |g.nodes|, 0);
      && HeadCandidate(g).value == g.nodes[h]
      && (forall i :: 0 <= i < |g.locked| ==> g.locked[i].b != h)
      && (h == 0 || Reaches(g.locked, h, 0))
  {
    if g.nodes != [] {
      FindHeadIsSource(g.locked, |g.nodes|, 0);
    }
  }

  /** `RankedPairGraph`: the node list grows by `add`, the vertex lists by `addVertex`. */
  class RankedPairGraph {
    var nodes: seq<nat>
    var locked: seq<Vertex>

    ghost predicate Valid()
      reads this
    {
      WellFormed(Graph(nodes, locked))
    }

    constructor()
      ensures Valid() && nodes == [] && locked == []
    {
      nodes := [];
      locked := [];
    }

    /** `nodeA.addVertex(RankedPairGraphVertex(nodeA, nodeB))`. */
    method AddVertex(na: nat, nb: nat)
      requires Valid() && na < |nodes| && nb < |nodes| && na != nb
      modifies this
      ensures Valid() && nodes == old(nodes)
      ensures locked == if Upstream(old(locked), |nodes|, na, nb) then old(locked)
        else old(locked) + [Vertex(na, nb)]
    {
      if !Upstream(locked, |nodes|, na, nb) {
        UpstreamIsReach(locked, |nodes|, na, nb);
        LockKeepsAcyclic(locked, na, nb);
        locked := locked + [Vertex(na, nb)];
      }
    }

    /** `add(a, b, weight)`. */
    method Add(a: nat, b: nat)
      requires Valid() && a != b
      modifies this
      ensures Valid() && Graph(nodes, locked) == AddPair(old(Graph(nodes, locked)), a, b)
    {
      ghost var g := Graph(nodes, locked);
      var nodeA := FindNode(nodes, a);
      if nodeA.None? {
        nodes := nodes + [a];
        nodeA := Some(|nodes| - 1);
      }
      assert nodes == Extend(g.nodes, a);
      ExtendKeepsWellFormed(g, a);
      ghost var ga := Graph(nodes, locked);
      var nodeB := FindNode(nodes, b);
      if nodeB.None? {
        nodes := nodes + [b];
        nodeB := Some(|nodes| - 1);
      }
      assert nodes == Extend(ga.nodes, b);
      ExtendKeepsWellFormed(ga, b);
      IndexOfDistinct(nodes, a, nodeA.value);
      IndexOfDistinct(nodes, b, nodeB.value);
      AddVertex(nodeA.value, nodeB.value);
    }

    /** `findHeadCandidate`. */
    method FindHeadCandidate() returns (r: Option<nat>)
      requires Valid()
      ensures r == HeadCandidate(Graph(nodes, locked))
    {
      if nodes == [] {
        return None;
      }
      var head := FindHead(locked, |nodes|, 0);
      r := Some(nodes[head]);
    }
  }
}
