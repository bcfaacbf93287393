/** The three-way cycle of ranked pairs: 4 ballots a > b > c, 3 ballots b > c > a and
    3 ballots c > a > b. Every candidate loses one pair: a beats b 7 to 3, b beats c 7 to
    3 and c beats a 6 to 4. The two pairs of weight 7 lock first, in whichever order the
    sort leaves them, so a vertex enters b's node and one enters c's node, and a heads the
    graph whatever happens to the lighter pairs. */
module RankedPairsCycle {
  import opened Wrappers
  import opened ElectionSim
  import opened RankedPairs
  import G = RankedPairGraphs

  /** `createBallots`: count copies of one ranking. */
  function Copies(b: seq<nat>, count: nat): (r: seq<seq<nat>>)
    ensures |r| == count && forall v :: 0 <= v < count ==> r[v] == b
  {
    seq(count, _ => b)
  }

  /** The ballots of the cycle, in the order the test builds them. */
  function CycleBallots(a: nat, b: nat, c: nat): seq<seq<nat>>
  {
    Copies([a, b, c], 4) + Copies([b, c, a], 3) + Copies([c, a, b], 3)
  }

  /** The tally of a pair over two runs of ballots is the sum of the two tallies. */
  lemma {:induction false} PreferringAppend(xs: seq<seq<nat>>, ys: seq<seq<nat>>, c1: nat, c2: nat)
    ensures Preferring(xs + ys, c1, c2) == Preferring(xs, c1, c2) + Preferring(ys, c1, c2)
    decreases |ys|
  {
    if ys == [] {
      assert xs + ys == xs;
    } else {
      var n := |ys| - 1;
      assert (xs + ys)[..|xs| + n] == xs + ys[..n];
      assert (xs + ys)[|xs| + n] == ys[n];
      PreferringAppend(xs, ys[..n], c1, c2);
    }
  }

  /** A ranking of three different candidates ranks exactly three pairs in order. */
  lemma {:induction false} AboveOfThree(a: nat, b: nat, c: nat, x: nat, y: nat)
    requires a != b && b != c && a != c
    ensures Above([a, b, c], x, y) <==> (x == a && (y == b || y == c)) || (x == b && y == c)
  {
    var s := [a, b, c];
    if x == a && y == b {
      assert s[0] == x && s[1] == y;
    } else if x == a && y == c {
      assert s[0] == x && s[2] == y;
    } else if x == b && y == c {
      assert s[1] == x && s[2] == y;
    }
  }

  /** The tally of every ordered pair over the cycle. */
  lemma {:induction false} CycleTally(a: nat, b: nat, c: nat, x: nat, y: nat)
    requires a != b && b != c && a != c
    ensures Preferring(CycleBallots(a, b, c), x, y) ==
      if x == a && y == b then 7
      else if x == b && y == c then 7
      else if x == c && y == a then 6
      else if x == a && y == c then 4
      else if x == b && y == a then 3
      else if x == c && y == b then 3
      else 0
  {
    var (abc, bca, cab) := (Copies([a, b, c], 4), Copies([b, c, a], 3), Copies([c, a, b], 3));
    PreferringAppend(abc + bca, cab, x, y);
    PreferringAppend(abc, bca, x, y);
    UnanimousPreferring(abc, [a, b, c], x, y);
    UnanimousPreferring(bca, [b, c, a], x, y);
    UnanimousPreferring(cab, [c, a, b], x, y);
    AboveOfThree(a, b, c, x, y);
    AboveOfThree(b, c, a, x, y);
    AboveOfThree(c, a, b, x, y);
  }

  /** Every prefix of an order without loops has none. */
  lemma {:induction false} NoLoopsPrefix(order: seq<Cell>, n: nat)
    requires NoLoops(order) && n <= |order|
    ensures NoLoops(order[..n])
  {
    forall k | 0 <= k < n ensures order[..n][k].row != order[..n][k].column {
      assert order[..n][k] == order[k];
    }
  }

  lemma {:induction false} PrefixOfPrefix(s: seq<Cell>, n: nat, m: nat)
    requires m <= n <= |s|
    ensures s[..n][..m] == s[..m]
  {
  }

  lemma {:induction false} TakeAll(s: seq<Cell>)
    ensures s[..|s|] == s
  {
  }

  /** Locking the first m + 1 cells is locking the first m, then cell m. */
  lemma {:induction false} LockedStep(order: seq<Cell>, m: nat)
    requires NoLoops(order) && m < |order|
    ensures NoLoops(order[..m]) && NoLoops(order[..m + 1])
    ensures Locked(order[..m + 1]) == G.AddPair(Locked(order[..m]), order[m].row, order[m].column)
  {
    NoLoopsPrefix(order, m);
    NoLoopsPrefix(order, m + 1);
    PrefixOfPrefix(order, m + 1, m);
    assert order[..m + 1][m] == order[m];
  }

  /** Adding a pair keeps every locked cell locked. */
  lemma {:induction false} LocksKept(g: G.Graph, r: G.Graph, order: seq<Cell>, x: nat, y: nat)
    requires G.WellFormed(g) && x != y && r == G.AddPair(g, x, y) && LocksEvery(g, order)
    ensures LocksEvery(r, order)
  {
    G.AddLocksUnlessCycle(g, x, y);
    LocksEveryGrows(g, r, order);
  }

  /** Two of the locked cells are locked. */
  lemma {:induction false} LocksTwo(g: G.Graph, order: seq<Cell>, i: nat, j: nat)
    requires LocksEvery(g, order) && i < |order| && j < |order|
    ensures LocksEvery(g, [order[i], order[j]])
  {
    var two := [order[i], order[j]];
    assert two[0] == order[i] && two[1] == order[j];
  }

  /** Cells locked after the first m cells of the order stay locked after the first n. */
  lemma {:induction false} LocksPersist(order: seq<Cell>, m: nat, n: nat, strong: seq<Cell>)
    requires NoLoops(order) && m <= n <= |order|
    requires NoLoops(order[..m]) && LocksEvery(Locked(order[..m]), strong)
    ensures NoLoops(order[..n]) && LocksEvery(Locked(order[..n]), strong)
    decreases n - m
  {
    if m < n {
      LockedStep(order, m);
      LocksKept(Locked(order[..m]), Locked(order[..m + 1]), strong, order[m].row, order[m].column);
      LocksPersist(order, m + 1, n, strong);
    }
  }

  /** A locked vertex from x's node to y's node enters y's node. */
  lemma {:induction false} Entered(g: G.Graph, x: nat, y: nat, n: nat)
    requires G.WellFormed(g) && x in g.nodes && y in g.nodes
    requires G.Vertex(G.Index(g.nodes, x), G.Index(g.nodes, y)) in g.locked
    requires n < |g.nodes| && g.nodes[n] == y
    ensures exists i :: 0 <= i < |g.locked| && g.locked[i].b == n
  {
    G.IndexOfDistinct(g.nodes, y, n);
    var i :| 0 <= i < |g.locked| && g.locked[i] == G.Vertex(G.Index(g.nodes, x), n);
  }

  /** Every node of the graph is a, b or c. */
  predicate NodesAmong(g: G.Graph, a: nat, b: nat, c: nat)
  {
    forall n :: 0 <= n < |g.nodes| ==> g.nodes[n] in {a, b, c}
  }

  /** Where cells a over b and b over c are locked and every node holds a, b or c, a
      heads the graph: a vertex enters b's node and one enters c's node. */
  lemma {:induction false} HeadIsUnentered(g: G.Graph, a: nat, b: nat, c: nat, two: seq<Cell>)
    requires G.WellFormed(g) && NodesAmong(g, a, b, c)
    requires LocksEvery(g, two) && |two| == 2
    requires two[0].row == a && two[0].column == b && two[1].row == b && two[1].column == c
    ensures G.HeadCandidate(g) == Some(a)
  {
    G.HeadCandidateIsSource(g);
    var h := G.FindHead(g.locked, |g.nodes|, 0);
    if g.nodes[h] == b {
      Entered(g, a, b, h);
      assert false;
    } else if g.nodes[h] == c {
      Entered(g, b, c, h);
      assert false;
    }
  }

  /** Every cell of the order is a pair over a, b and c. */
  predicate Over(order: seq<Cell>, a: nat, b: nat, c: nat)
  {
    forall k :: 0 <= k < |order| ==> order[k].row in {a, b, c} && order[k].column in {a, b, c}
  }

  /** A graph whose nodes all lie in a subset of {a, b, c} has only a, b and c as nodes. */
  lemma {:induction false} AmongOfWithin(g: G.Graph, e: set<nat>, a: nat, b: nat, c: nat)
    requires forall x :: x in g.nodes <==> x in e
    requires e <= {a, b, c}
    ensures NodesAmong(g, a, b, c)
  {
    forall n | 0 <= n < |g.nodes| ensures g.nodes[n] in {a, b, c} {
      assert g.nodes[n] in g.nodes;
    }
  }

  /** The graph's nodes hold only candidates of the locked cells. */
  lemma {:induction false} NodesWithin(order: seq<Cell>, a: nat, b: nat, c: nat)
    requires NoLoops(order) && Over(order, a, b, c)
    ensures NodesAmong(Locked(order), a, b, c)
  {
    EndsWithin(order, {a, b, c});
    LockedNodes(order);
    AmongOfWithin(Locked(order), Ends(order), a, b, c);
  }

  /** Where the cells are over a, b and c only and a over b and b over c are locked,
      a heads the graph. */
  lemma {:induction false} HeadOfOrder(order: seq<Cell>, a: nat, b: nat, c: nat, two: seq<Cell>)
    requires a != b && b != c && a != c && NoLoops(order)
    requires Over(order, a, b, c)
    requires LocksEvery(Locked(order), two) && |two| == 2
    requires two[0].row == a && two[0].column == b && two[1].row == b && two[1].column == c
    ensures G.HeadCandidate(Locked(order)) == Some(a)
  {
    NodesWithin(order, a, b, c);
    HeadIsUnentered(Locked(order), a, b, c, two);
  }

  /** Each ballot of the cycle ranks three different candidates. */
  lemma {:induction false} CycleDistinct(a: nat, b: nat, c: nat)
    requires a != b && b != c && a != c
    ensures DistinctBallots(CycleBallots(a, b, c))
  {
    var ballots := CycleBallots(a, b, c);
    forall v | 0 <= v < |ballots| ensures Distinct(ballots[v]) {
      assert ballots[v] in {[a, b, c], [b, c, a], [c, a, b]};
    }
  }

  /** The cells of the cycle: pairs over a, b and c, at most 7 strong, the pairs a
      over b and b over c at exactly 7 and no other pair as strong. */
  lemma {:induction false} CycleCells(a: nat, b: nat, c: nat, cands: seq<nat>)
    requires a != b && b != c && a != c && a in cands && b in cands && c in cands
    ensures DistinctBallots(CycleBallots(a, b, c))
    ensures var cells := TableCells(PairTable(CycleBallots(a, b, c)), cands, cands);
      && Cell(a, b, 7) in cells && Cell(b, c, 7) in cells
      && forall cell :: cell in cells ==>
           && cell.row in {a, b, c} && cell.column in {a, b, c} && cell.value <= 7
           && (cell.value == 7 ==> cell == Cell(a, b, 7) || cell == Cell(b, c, 7))
  {
    var ballots := CycleBallots(a, b, c);
    CycleDistinct(a, b, c);
    CellsAreTheTally(ballots, cands);
    CycleTally(a, b, c, a, b);
    CycleTally(a, b, c, b, c);
    forall cell | cell in TableCells(PairTable(ballots), cands, cands)
      ensures cell.row in {a, b, c} && cell.column in {a, b, c} && cell.value <= 7
      ensures cell.value == 7 ==> cell == Cell(a, b, 7) || cell == Cell(b, c, 7)
    {
      CycleTally(a, b, c, cell.row, cell.column);
    }
  }

  /** In an order by descending weight, two cells heavier than every other come
      before every other cell. */
  lemma {:induction false} StrongPrefix(order: seq<Cell>, x: Cell, y: Cell) returns (m: nat, i: nat, j: nat)
    requires x in order && y in order
    requires forall k, l :: 0 <= k < l < |order| ==> order[k].value >= order[l].value
    requires forall k :: 0 <= k < |order| ==>
      order[k].value <= x.value && (order[k].value == x.value ==> order[k] == x || order[k] == y)
    requires x.value == y.value
    ensures i < m && j < m && m <= |order| && order[i] == x && order[j] == y
    ensures forall k :: 0 <= k < m ==> order[k] == x || order[k] == y
  {
    i :| 0 <= i < |order| && order[i] == x;
    j :| 0 <= j < |order| && order[j] == y;
    m := if i < j then j + 1 else i + 1;
    forall k | 0 <= k < m ensures order[k] == x || order[k] == y {
      assert order[k].value >= order[m - 1].value;
    }
  }

  /** Locking a prefix made only of two cells that b ranks in order locks both. */
  lemma {:induction false} LockTheStrong(order: seq<Cell>, m: nat, x: Cell, y: Cell, b: seq<nat>, i: nat, j: nat)
    requires m <= |order| && forall k :: 0 <= k < m ==> order[k] == x || order[k] == y
    requires Earlier(b, x.row, x.column) && Earlier(b, y.row, y.column)
    requires i < m && j < m && order[i] == x && order[j] == y
    ensures NoLoops(order[..m]) && LocksEvery(Locked(order[..m]), [x, y])
  {
    var strong := order[..m];
    assert forall k :: 0 <= k < m ==> strong[k] == order[k];
    UnanimousLocksAll(strong, b);
    LocksTwo(Locked(strong), strong, i, j);
  }

  /** Where the order starts with cells x and y only, both ranked in order by b, both
      end up locked: nothing is locked before them that could block them. */
  lemma {:induction false} StrongestLock(order: seq<Cell>, x: Cell, y: Cell, b: seq<nat>, m: nat, i: nat, j: nat)
    requires NoLoops(order) && i < m && j < m && m <= |order| && order[i] == x && order[j] == y
    requires forall k :: 0 <= k < m ==> order[k] == x || order[k] == y
    requires Earlier(b, x.row, x.column) && Earlier(b, y.row, y.column)
    ensures LocksEvery(Locked(order), [x, y])
  {
    LockTheStrong(order, m, x, y, b, i, j);
    LocksPersist(order, m, |order|, [x, y]);
    TakeAll(order);
  }

  /** The locking order of the cycle: cells over a, b and c only, led by the two pairs
      of weight 7 in some order. */
  lemma {:induction false} CycleOrder(a: nat, b: nat, c: nat, cands: seq<nat>) returns (m: nat, i: nat, j: nat)
    requires a != b && b != c && a != c && a in cands && b in cands && c in cands
    ensures DistinctBallots(CycleBallots(a, b, c))
    ensures var order := LockOrder(TableCells(PairTable(CycleBallots(a, b, c)), cands, cands));
      && NoLoops(order)
      && Over(order, a, b, c)
      && i < m && j < m && m <= |order| && order[i] == Cell(a, b, 7) && order[j] == Cell(b, c, 7)
      && forall k :: 0 <= k < m ==> order[k] == Cell(a, b, 7) || order[k] == Cell(b, c, 7)
  {
    var cells := TableCells(PairTable(CycleBallots(a, b, c)), cands, cands);
    var order := LockOrder(cells);
    CycleCells(a, b, c, cands);
    CellsHaveNoLoops(CycleBallots(a, b, c), cands);
    LockOrderHasTheCells(cells);
    LockOrderIsByWeight(cells);
    forall k | 0 <= k < |order|
      ensures order[k].value <= 7 && (order[k].value == 7 ==> order[k] == Cell(a, b, 7) || order[k] == Cell(b, c, 7))
      ensures order[k].row in {a, b, c} && order[k].column in {a, b, c}
    {
      assert order[k] in order;
    }
    m, i, j := StrongPrefix(order, Cell(a, b, 7), Cell(b, c, 7));
  }

  /** An order that starts with a over b and b over c, whichever first, locks both. */
  lemma {:induction false} CycleLocks(order: seq<Cell>, a: nat, b: nat, c: nat, m: nat, i: nat, j: nat)
    requires a != b && b != c && a != c && NoLoops(order)
    requires i < m && j < m && m <= |order| && order[i] == Cell(a, b, 7) && order[j] == Cell(b, c, 7)
    requires forall k :: 0 <= k < m ==> order[k] == Cell(a, b, 7) || order[k] == Cell(b, c, 7)
    ensures LocksEvery(Locked(order), [Cell(a, b, 7), Cell(b, c, 7)])
  {
    AboveOfThree(a, b, c, a, b);
    AboveOfThree(a, b, c, b, c);
    AboveIsEarlier([a, b, c], a, b);
    AboveIsEarlier([a, b, c], b, c);
    StrongestLock(order, Cell(a, b, 7), Cell(b, c, 7), [a, b, c], m, i, j);
  }

  /** `produceCandidate_cycle`: the cycle elects a, whatever candidates are listed beside
      a, b and c and in whatever order. */
  lemma {:induction false} CycleElectsFirst(a: nat, b: nat, c: nat, cands: seq<nat>)
    requires a != b && b != c && a != c && a in cands && b in cands && c in cands
    ensures DistinctBallots(CycleBallots(a, b, c))
    ensures Outcome(CycleBallots(a, b, c), cands) == Some(a)
  {
    var order := LockOrder(TableCells(PairTable(CycleBallots(a, b, c)), cands, cands));
    var m, i, j := CycleOrder(a, b, c, cands);
    CycleLocks(order, a, b, c, m, i, j);
    HeadOfOrder(order, a, b, c, [Cell(a, b, 7), Cell(b, c, 7)]);
  }
}
