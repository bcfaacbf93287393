/** ranked/RankedPairs.kt, `electCandidate`: tally every ordered pair of candidates over
    the ranked ballots, lock the pairs into the graph from the heaviest down, and elect the
    candidate at the head of the graph. The `HashBasedTable` is a map from (row, column) to
    the count; its cells are enumerated row by row over the candidate list. */
module RankedPairs {
  import opened Wrappers
  import opened ElectionSim
  import Sorting
  import PR = PureRanking
  import G = RankedPairGraphs

  type Table = map<(nat, nat), nat>

  /** `Optional.ofNullable(candidateTable.get(c1, c2)).orElse(0)`. */
  function Get(table: Table, c1: nat, c2: nat): nat
  {
    if (c1, c2) in table then table[(c1, c2)] else 0
  }

  /** Every cell of the table holds a positive count. */
  predicate Positive(table: Table)
  {
    forall key :: key in table ==> table[key] > 0
  }

  /** The inner loop of the tally up to column j: `put(c1, c2, n + 1)` for the candidate
      at position i and each later one below j. */
  function AddRow(table: Table, b: seq<nat>, i: nat, j: nat): (r: Table)
    requires i + 1 <= j <= |b|
    ensures Positive(table) ==> Positive(r)
    decreases j
  {
    if j == i + 1 then table
    else
      var prev := AddRow(table, b, i, j - 1);
      prev[(b[i], b[j - 1]) := Get(prev, b[i], b[j - 1]) + 1]
  }

  /** The outer loop of the tally up to row i. */
  function AddRows(table: Table, b: seq<nat>, i: nat): (r: Table)
    requires i <= |b|
    ensures Positive(table) ==> Positive(r)
  {
    if i == 0 then table else AddRow(AddRows(table, b, i - 1), b, i - 1, |b|)
  }

  /** `0 until size - 1`: the number of rows the outer loop visits. */
  function Rows(b: seq<nat>): nat
  {
    if |b| == 0 then 0 else |b| - 1
  }

  /** One ballot of the tally `forEach`. */
  function AddBallot(table: Table, b: seq<nat>): (r: Table)
    ensures Positive(table) ==> Positive(r)
  {
    AddRows(table, b, Rows(b))
  }

  /** The table after tallying every ballot, in ballot order. */
  function PairTable(ballots: seq<seq<nat>>): (r: Table)
    ensures Positive(r)
  {
    if ballots == [] then map[]
    else
      var n := |ballots| - 1;
      AddBallot(PairTable(ballots[..n]), ballots[n])
  }

  /** The ballot ranks c1 strictly before c2. */
  predicate Above(b: seq<nat>, c1: nat, c2: nat)
  {
    exists p, q :: 0 <= p < q < |b| && b[p] == c1 && b[q] == c2
  }

  /** The ballot ranks c1 strictly before c2, with c1 among the first k places. */
  predicate AboveWithin(b: seq<nat>, k: nat, c1: nat, c2: nat)
  {
    exists p, q :: 0 <= p < k && p < q < |b| && b[p] == c1 && b[q] == c2
  }

  /** The number of ballots ranking c1 strictly before c2. */
  function Preferring(ballots: seq<seq<nat>>, c1: nat, c2: nat): nat
  {
    if ballots == [] then 0
    else
      var n := |ballots| - 1;
      Preferring(ballots[..n], c1, c2) + if Above(ballots[n], c1, c2) then 1 else 0
  }

  predicate DistinctBallots(ballots: seq<seq<nat>>)
  {
    forall v :: 0 <= v < |ballots| ==> Distinct(ballots[v])
  }

  /** How often the first i rows add to the cell (c1, c2): row p adds the number of
      later places holding c2 when place p holds c1. */
  function RowsCount(b: seq<nat>, i: nat, c1: nat, c2: nat): nat
    requires i <= |b|
  {
    if i == 0 then 0
    else RowsCount(b, i - 1, c1, c2) + if b[i - 1] == c1 then multiset(b[i..])[c2] else 0
  }

  lemma {:induction false} AddRowCounts(table: Table, b: seq<nat>, i: nat, j: nat, c1: nat, c2: nat)
    requires i + 1 <= j <= |b|
    ensures Get(AddRow(table, b, i, j), c1, c2)
      == Get(table, c1, c2) + if b[i] == c1 then multiset(b[i + 1..j])[c2] else 0
    decreases j
  {
    if j > i + 1 {
      AddRowCounts(table, b, i, j - 1, c1, c2);
      assert b[i + 1..j] == b[i + 1..j - 1] + [b[j - 1]];
    }
  }

  lemma {:induction false} AddRowsCounts(table: Table, b: seq<nat>, i: nat, c1: nat, c2: nat)
    requires i <= |b|
    ensures Get(AddRows(table, b, i), c1, c2) == Get(table, c1, c2) + RowsCount(b, i, c1, c2)
  {
    if i > 0 {
      AddRowsCounts(table, b, i - 1, c1, c2);
      AddRowCounts(AddRows(table, b, i - 1), b, i - 1, |b|, c1, c2);
      assert b[i..|b|] == b[i..];
    }
  }

  /** A candidate occurs at most once in a sequence without repeats. */
  lemma {:induction false} OccursOnce(s: seq<nat>, c: nat)
    requires Distinct(s)
    ensures multiset(s)[c] == if c in s then 1 else 0
  {
    if s != [] {
      assert s == [s[0]] + s[1..];
      OccursOnce(s[1..], c);
    }
  }

  /** On a ballot without repeats the first k rows add 1 to (c1, c2) exactly when c1 is
      among the first k places and c2 comes after it. */
  lemma {:induction false} DistinctRowsCount(b: seq<nat>, k: nat, c1: nat, c2: nat)
    requires Distinct(b) && k <= |b|
    ensures RowsCount(b, k, c1, c2) == if AboveWithin(b, k, c1, c2) then 1 else 0
  {
    if k > 0 {
      DistinctRowsCount(b, k - 1, c1, c2);
      if b[k - 1] == c1 {
        assert !AboveWithin(b, k - 1, c1, c2);
        OccursOnce(b[k..], c2);
        if c2 in b[k..] {
          var q :| 0 <= q < |b[k..]| && b[k..][q] == c2;
          assert b[k - 1] == c1 && b[k + q] == c2;
        }
      } else {
        if AboveWithin(b, k, c1, c2) {
          var p, q :| 0 <= p < k && p < q < |b| && b[p] == c1 && b[q] == c2;
          assert p < k - 1;
        }
      }
    }
  }

  /** Tallying one ballot without repeats adds 1 to the cell (c1, c2) exactly when the
      ballot ranks c1 before c2, and leaves it otherwise. */
  lemma BallotCounts(table: Table, b: seq<nat>, c1: nat, c2: nat)
    requires Distinct(b)
    ensures Get(AddBallot(table, b), c1, c2) == Get(table, c1, c2) + if Above(b, c1, c2) then 1 else 0
  {
    AddRowsCounts(table, b, Rows(b), c1, c2);
    DistinctRowsCount(b, Rows(b), c1, c2);
    if Above(b, c1, c2) {
      var p, q :| 0 <= p < q < |b| && b[p] == c1 && b[q] == c2;
      assert AboveWithin(b, Rows(b), c1, c2);
    }
  }

  /** The tally of (c1, c2) is the number of ballots ranking c1 strictly before c2. */
  lemma {:induction false} TallyCountsPreferences(ballots: seq<seq<nat>>, c1: nat, c2: nat)
    requires DistinctBallots(ballots)
    ensures Get(PairTable(ballots), c1, c2) == Preferring(ballots, c1, c2)
  {
    if ballots != [] {
      var n := |ballots| - 1;
      TallyCountsPreferences(ballots[..n], c1, c2);
      BallotCounts(PairTable(ballots[..n]), ballots[n], c1, c2);
    }
  }

  /** No ballot without repeats ranks a candidate before itself. */
  lemma {:induction false} NoSelfPreference(ballots: seq<seq<nat>>, c: nat)
    requires DistinctBallots(ballots)
    ensures Preferring(ballots, c, c) == 0
  {
    if ballots != [] {
      NoSelfPreference(ballots[..|ballots| - 1], c);
      assert !Above(ballots[|ballots| - 1], c, c);
    }
  }

  /** A ballot ranking c1 before c2 counts in the preference. */
  lemma {:induction false} PreferringCountsBallot(ballots: seq<seq<nat>>, v: nat, c1: nat, c2: nat)
    requires v < |ballots| && Above(ballots[v], c1, c2)
    ensures Preferring(ballots, c1, c2) > 0
  {
    var n := |ballots| - 1;
    if v < n {
      PreferringCountsBallot(ballots[..n], v, c1, c2);
    }
  }

  /** A row adds cells only for candidates of the ballot. */
  lemma {:induction false} AddRowKeys(table: Table, b: seq<nat>, i: nat, j: nat)
    requires i + 1 <= j <= |b|
    ensures forall key :: key in AddRow(table, b, i, j) ==> key in table || (key.0 in b && key.1 in b)
    decreases j
  {
    if j > i + 1 {
      AddRowKeys(table, b, i, j - 1);
    }
  }

  /** The rows of a ballot add cells only for candidates of the ballot. */
  lemma {:induction false} AddRowsKeys(table: Table, b: seq<nat>, i: nat)
    requires i <= |b|
    ensures forall key :: key in AddRows(table, b, i) ==> key in table || (key.0 in b && key.1 in b)
  {
    if i > 0 {
      AddRowsKeys(table, b, i - 1);
      AddRowKeys(AddRows(table, b, i - 1), b, i - 1, |b|);
    }
  }

  /** Every cell of the table has both its candidates on some ballot. */
  lemma {:induction false} TableKeysWithin(ballots: seq<seq<nat>>, s: seq<nat>)
    requires forall v, i :: 0 <= v < |ballots| && 0 <= i < |ballots[v]| ==> ballots[v][i] in s
    ensures forall key :: key in PairTable(ballots) ==> key.0 in s && key.1 in s
  {
    if ballots != [] {
      var n := |ballots| - 1;
      TableKeysWithin(ballots[..n], s);
      AddRowsKeys(PairTable(ballots[..n]), ballots[n], Rows(ballots[n]));
      forall x | x in ballots[n] ensures x in s {
        var i :| 0 <= i < |ballots[n]| && ballots[n][i] == x;
      }
    }
  }

  /** A `Table.Cell`: row key, column key and value. */
  datatype Cell = Cell(row: nat, column: nat, value: nat)

  predicate UniqueKeys(cells: seq<Cell>)
  {
    forall i, j :: 0 <= i < j < |cells| ==> (cells[i].row, cells[i].column) != (cells[j].row, cells[j].column)
  }

  /** The cells of row r, in column order. */
  function RowCells(table: Table, r: nat, cols: seq<nat>): (res: seq<Cell>)
    ensures forall c :: c in res <==>
      c.row == r && c.column in cols && (r, c.column) in table && c.value == table[(r, c.column)]
    ensures Distinct(cols) ==> UniqueKeys(res)
  {
    if cols == [] then []
    else
      var n := |cols| - 1;
      var prev := RowCells(table, r, cols[..n]);
      assert forall c :: c in cols[..n] ==> c in cols;
      prev + if (r, cols[n]) in table then [Cell(r, cols[n], table[(r, cols[n])])] else []
  }

  /** `cellSet()`: every cell of the table with both keys listed, row by row. */
  function TableCells(table: Table, rows: seq<nat>, cols: seq<nat>): (res: seq<Cell>)
    ensures forall c :: c in res <==>
      c.row in rows && c.column in cols && (c.row, c.column) in table && c.value == table[(c.row, c.column)]
    ensures Distinct(rows) && Distinct(cols) ==> UniqueKeys(res)
  {
    if rows == [] then []
    else
      var n := |rows| - 1;
      var prev := TableCells(table, rows[..n], cols);
      assert forall c :: c in rows[..n] ==> c in rows;
      prev + RowCells(table, rows[n], cols)
  }

  function Weights(cells: seq<Cell>): (w: seq<real>)
    ensures |w| == |cells| && forall k :: 0 <= k < |cells| ==> w[k] == cells[k].value as real
  {
    seq(|cells|, k requires 0 <= k < |cells| => cells[k].value as real)
  }

  /** `.sortedBy { it.value }.reversed()`: the locking order. */
  function LockOrder(cells: seq<Cell>): (r: seq<Cell>)
    ensures |r| == |cells|
  {
    Sorting.Read(cells, Sorting.Descending(Weights(cells)))
  }

  /** The locking order holds every cell once, heaviest first. */
  lemma LockOrderIsByWeight(cells: seq<Cell>)
    ensures multiset(LockOrder(cells)) == multiset(cells)
    ensures forall k, l :: 0 <= k < l < |cells| ==> LockOrder(cells)[k].value >= LockOrder(cells)[l].value
  {
    var p := Sorting.Descending(Weights(cells));
    Sorting.PermutedReadIsPermutation(cells, p);
    forall k, l | 0 <= k < l < |cells|
      ensures LockOrder(cells)[k].value >= LockOrder(cells)[l].value
    {
      assert Weights(cells)[p[k]] >= Weights(cells)[p[l]];
    }
  }

  /** No cell pairs a candidate with itself. */
  predicate NoLoops(order: seq<Cell>)
  {
    forall k :: 0 <= k < |order| ==> order[k].row != order[k].column
  }

  /** The graph after `rankedPairGraph.add` of every cell in order. */
  function Locked(order: seq<Cell>): (g: G.Graph)
    requires NoLoops(order)
    ensures G.WellFormed(g)
  {
    if order == [] then G.Graph([], [])
    else
      var n := |order| - 1;
      G.AddPair(Locked(order[..n]), order[n].row, order[n].column)
  }

  /** The candidates of the cells. */
  function Ends(order: seq<Cell>): (e: set<nat>)
    ensures forall k :: 0 <= k < |order| ==> order[k].row in e && order[k].column in e
  {
    if order == [] then {}
    else
      var n := |order| - 1;
      assert forall k :: 0 <= k < n ==> order[..n][k] == order[k];
      Ends(order[..n]) + {order[n].row, order[n].column}
  }

  /** Cells over candidates of s have their candidates in s. */
  lemma {:induction false} EndsWithin(order: seq<Cell>, s: set<nat>)
    requires forall k :: 0 <= k < |order| ==> order[k].row in s && order[k].column in s
    ensures Ends(order) <= s
  {
    if order != [] {
      EndsWithin(order[..|order| - 1], s);
    }
  }

  /** The graph has a node for each candidate of a locked cell and for nothing else. */
  lemma {:induction false} LockedNodes(order: seq<Cell>)
    requires NoLoops(order)
    ensures forall c :: c in Locked(order).nodes <==> c in Ends(order)
  {
    if order != [] {
      var n := |order| - 1;
      var (prefix, a, b) := (order[..n], order[n].row, order[n].column);
      assert NoLoops(prefix) by {
        forall k | 0 <= k < n ensures prefix[k].row != prefix[k].column {
          assert prefix[k] == order[k];
        }
      }
      LockedNodes(prefix);
      var r := G.AddPair(Locked(prefix), a, b);
      assert Locked(order) == r;
      assert Ends(order) == Ends(prefix) + {a, b};
      forall c ensures c in r.nodes <==> c in Ends(order) {
        assert c in r.nodes <==> c in Locked(prefix).nodes || c == a || c == b;
      }
    }
  }

  /** The polled ballots rank no candidate twice. */
  lemma PolledBallotsAreDistinct(u: seq<seq<real>>, m: nat, cands: seq<nat>)
    requires IsTable(u, m) && AllBelow(cands, m) && Distinct(cands)
    ensures DistinctBallots(PR.Ballots(u, m, cands))
  {
    forall v | 0 <= v < |u| ensures Distinct(PR.Ballots(u, m, cands)[v]) {
      PR.RankIsDistinct(u[v], cands);
    }
  }

  /** Every polled ballot lists exactly the candidates. */
  lemma PolledBallotsWithin(u: seq<seq<real>>, m: nat, cands: seq<nat>)
    requires IsTable(u, m) && AllBelow(cands, m)
    ensures var ballots := PR.Ballots(u, m, cands);
      forall v, i :: 0 <= v < |ballots| && 0 <= i < |ballots[v]| ==> ballots[v][i] in cands
  {
    var ballots := PR.Ballots(u, m, cands);
    forall v, i | 0 <= v < |ballots| && 0 <= i < |ballots[v]| ensures ballots[v][i] in cands {
      PR.BallotsArePermutations(u, m, cands, v);
      assert ballots[v][i] in multiset(ballots[v]);
    }
  }

  /** The cells of the polled table, in locking order. */
  function Order(u: seq<seq<real>>, m: nat, cands: seq<nat>): seq<Cell>
    requires IsTable(u, m) && AllBelow(cands, m)
  {
    LockOrder(TableCells(PairTable(PR.Ballots(u, m, cands)), cands, cands))
  }

  /** No cell of the tally of ballots without repeats pairs a candidate with itself. */
  lemma CellsHaveNoLoops(ballots: seq<seq<nat>>, cands: seq<nat>)
    requires DistinctBallots(ballots)
    ensures NoLoops(LockOrder(TableCells(PairTable(ballots), cands, cands)))
  {
    var cells := TableCells(PairTable(ballots), cands, cands);
    var order := LockOrder(cells);
    LockOrderIsByWeight(cells);
    forall k | 0 <= k < |order| ensures order[k].row != order[k].column {
      var c := order[k];
      assert c in multiset(cells);
      if c.row == c.column {
        TallyCountsPreferences(ballots, c.row, c.row);
        NoSelfPreference(ballots, c.row);
      }
    }
  }

  /** No cell of the locking order pairs a candidate with itself. */
  lemma OrderHasNoLoops(u: seq<seq<real>>, m: nat, cands: seq<nat>)
    requires IsTable(u, m) && AllBelow(cands, m) && Distinct(cands)
    ensures NoLoops(Order(u, m, cands))
  {
    PolledBallotsAreDistinct(u, m, cands);
    CellsHaveNoLoops(PR.Ballots(u, m, cands), cands);
  }

  /** The locking order pairs candidates of the list, each ordered pair at most once,
      with its tally: the number of ballots ranking the row before the column. */
  lemma OrderIsTheTally(u: seq<seq<real>>, m: nat, cands: seq<nat>)
    requires IsTable(u, m) && AllBelow(cands, m) && Distinct(cands)
    ensures var order := Order(u, m, cands);
      && NoLoops(order)
      && UniqueKeys(TableCells(PairTable(PR.Ballots(u, m, cands)), cands, cands))
      && (forall key :: key in PairTable(PR.Ballots(u, m, cands)) ==> key.0 in cands && key.1 in cands)
      && forall c :: c in order <==>
        c.row in cands && c.column in cands && c.value > 0
        && c.value == Preferring(PR.Ballots(u, m, cands), c.row, c.column)
  {
    var ballots := PR.Ballots(u, m, cands);
    var table := PairTable(ballots);
    var cells := TableCells(table, cands, cands);
    PolledBallotsAreDistinct(u, m, cands);
    PolledBallotsWithin(u, m, cands);
    TableKeysWithin(ballots, cands);
    LockOrderHasTheCells(cells);
    CellsAreTheTally(ballots, cands);
    OrderHasNoLoops(u, m, cands);
  }

  lemma LockOrderHasTheCells(cells: seq<Cell>)
    ensures forall c :: c in LockOrder(cells) <==> c in cells
  {
    LockOrderIsByWeight(cells);
    forall c ensures c in LockOrder(cells) <==> c in cells {
      assert c in LockOrder(cells) <==> c in multiset(LockOrder(cells));
    }
  }

  /** The table's cells over the candidates are the pairs with a positive tally. */
  lemma CellsAreTheTally(ballots: seq<seq<nat>>, cands: seq<nat>)
    requires DistinctBallots(ballots)
    ensures forall c :: c in TableCells(PairTable(ballots), cands, cands) <==>
      c.row in cands && c.column in cands && c.value > 0 && c.value == Preferring(ballots, c.row, c.column)
  {
    forall c ensures c in TableCells(PairTable(ballots), cands, cands) <==>
      c.row in cands && c.column in cands && c.value > 0 && c.value == Preferring(ballots, c.row, c.column)
    {
      TallyCountsPreferences(ballots, c.row, c.column);
    }
  }

  /** The outcome of `electCandidate` over distinct candidates; None where no pair was
      tallied (`first()` throws on a graph without nodes). */
  function Elect(u: seq<seq<real>>, m: nat, cands: seq<nat>): Option<nat>
    requires IsTable(u, m) && AllBelow(cands, m) && Distinct(cands)
  {
    PolledBallotsAreDistinct(u, m, cands);
    Outcome(PR.Ballots(u, m, cands), cands)
  }

  /** `electCandidate` once the ballots are polled: tally every ordered pair, lock the
      cells from the heaviest down and take the head of the graph. */
  function Outcome(ballots: seq<seq<nat>>, cands: seq<nat>): Option<nat>
    requires DistinctBallots(ballots)
  {
    CellsHaveNoLoops(ballots, cands);
    G.HeadCandidate(Locked(LockOrder(TableCells(PairTable(ballots), cands, cands))))
  }

  /** The head of the locked graph exists exactly when some cell was locked, and it is a
      candidate of a locked cell. */
  lemma HeadOfLocked(order: seq<Cell>)
    requires NoLoops(order)
    ensures G.HeadCandidate(Locked(order)).None? <==> order == []
    ensures G.HeadCandidate(Locked(order)).Some? ==> G.HeadCandidate(Locked(order)).value in Ends(order)
  {
    var g := Locked(order);
    LockedNodes(order);
    G.HeadCandidateIsSource(g);
    if order != [] {
      assert order[0].row in g.nodes;
      var h := G.FindHead(g.locked, |g.nodes|, 0);
      assert g.nodes[h] in g.nodes;
    }
  }

  /** A tallied pair needs a voter and two different candidates. */
  lemma PairNeedsVoterAndTwoCandidates(u: seq<seq<real>>, m: nat, cands: seq<nat>)
    requires IsTable(u, m) && AllBelow(cands, m) && Distinct(cands)
    requires Order(u, m, cands) != []
    ensures |u| > 0 && |cands| > 1
  {
    OrderIsTheTally(u, m, cands);
    var c := Order(u, m, cands)[0];
    assert c in Order(u, m, cands);
  }

  /** With a voter and two candidates, the voter's first two choices are a tallied
      pair. */
  lemma VoterTalliesAPair(u: seq<seq<real>>, m: nat, cands: seq<nat>)
    requires IsTable(u, m) && AllBelow(cands, m) && Distinct(cands)
    requires |u| > 0 && |cands| > 1
    ensures Order(u, m, cands) != []
  {
    var ballots := PR.Ballots(u, m, cands);
    OrderIsTheTally(u, m, cands);
    PolledBallotsWithin(u, m, cands);
    var b := ballots[0];
    assert Above(b, b[0], b[1]);
    PreferringCountsBallot(ballots, 0, b[0], b[1]);
    assert Cell(b[0], b[1], Preferring(ballots, b[0], b[1])) in Order(u, m, cands);
  }

  /** Ranked pairs fails exactly when there is no voter or at most one candidate. */
  lemma ElectFailsOnlyWithoutPairs(u: seq<seq<real>>, m: nat, cands: seq<nat>)
    requires IsTable(u, m) && AllBelow(cands, m) && Distinct(cands)
    ensures Elect(u, m, cands).None? <==> |u| == 0 || |cands| <= 1
  {
    OrderHasNoLoops(u, m, cands);
    HeadOfLocked(Order(u, m, cands));
    if Order(u, m, cands) != [] {
      PairNeedsVoterAndTwoCandidates(u, m, cands);
    }
    if |u| > 0 && |cands| > 1 {
      VoterTalliesAPair(u, m, cands);
    }
  }

  /** The winner is a listed candidate whose node no locked vertex enters, and whose node
      is the graph's first node or reaches it. */
  lemma WinnerIsUnbeaten(u: seq<seq<real>>, m: nat, cands: seq<nat>)
    requires IsTable(u, m) && AllBelow(cands, m) && Distinct(cands)
    requires Elect(u, m, cands).Some?
    ensures Elect(u, m, cands).value in cands
    ensures var g := (OrderHasNoLoops(u, m, cands); Locked(Order(u, m, cands)));
      var h := G.FindHead(g.locked, |g.nodes|, 0);
      && Elect(u, m, cands).value == g.nodes[h]
      && (forall i :: 0 <= i < |g.locked| ==> g.locked[i].b != h)
      && (h == 0 || G.Reaches(g.locked, h, 0))
  {
    OrderIsTheTally(u, m, cands);
    var order := Order(u, m, cands);
    G.HeadCandidateIsSource(Locked(order));
    HeadOfLocked(order);
    forall k | 0 <= k < |order| ensures order[k].row in set c | c in cands && order[k].column in set c | c in cands {
      assert order[k] in order;
    }
    EndsWithin(order, set c | c in cands);
  }

  /** Where every ballot is b, the tally of (c1, c2) is the number of ballots when b
      ranks c1 before c2, and 0 otherwise. */
  lemma {:induction false} UnanimousPreferring(ballots: seq<seq<nat>>, b: seq<nat>, c1: nat, c2: nat)
    requires forall v :: 0 <= v < |ballots| ==> ballots[v] == b
    ensures Preferring(ballots, c1, c2) == if Above(b, c1, c2) then |ballots| else 0
  {
    if ballots != [] {
      UnanimousPreferring(ballots[..|ballots| - 1], b, c1, c2);
    }
  }

  /** On a ballot without repeats, ranking c1 before c2 puts c1 at an earlier place. */
  lemma AboveIsEarlier(b: seq<nat>, c1: nat, c2: nat)
    requires Distinct(b) && Above(b, c1, c2)
    ensures Earlier(b, c1, c2)
  {
    var p, q :| 0 <= p < q < |b| && b[p] == c1 && b[q] == c2;
    G.IndexOfDistinct(b, c1, p);
    G.IndexOfDistinct(b, c2, q);
  }

  /** Both candidates are on b, c1 at an earlier place. */
  predicate Earlier(b: seq<nat>, c1: nat, c2: nat)
  {
    c1 in b && c2 in b && G.Index(b, c1) < G.Index(b, c2)
  }

  /** Every node holds a candidate of b and every locked vertex leads to a candidate
      that b ranks later. */
  ghost predicate Forward(g: G.Graph, b: seq<nat>)
  {
    && (forall n :: 0 <= n < |g.nodes| ==> g.nodes[n] in b)
    && G.InRange(g.locked, |g.nodes|)
    && forall i :: 0 <= i < |g.locked| ==>
         G.Index(b, g.nodes[g.locked[i].a]) < G.Index(b, g.nodes[g.locked[i].b])
  }

  /** Along forward vertices every path leads to a candidate ranked later. */
  lemma {:induction false} ForwardReach(g: G.Graph, b: seq<nat>, x: nat, y: nat, k: nat)
    requires Forward(g, b) && G.ReachIn(g.locked, x, y, k)
    ensures x < |g.nodes| && y < |g.nodes| && G.Index(b, g.nodes[x]) < G.Index(b, g.nodes[y])
    decreases k
  {
    var i :| 0 <= i < |g.locked| && g.locked[i].a == x
      && (g.locked[i].b == y || G.ReachIn(g.locked, g.locked[i].b, y, k - 1));
    if g.locked[i].b != y {
      ForwardReach(g, b, g.locked[i].b, y, k - 1);
    }
  }

  /** More nodes from b, with the old ones kept in place, keep the vertices forward. */
  lemma {:induction false} ForwardWiden(g: G.Graph, nodes: seq<nat>, b: seq<nat>)
    requires Forward(g, b) && |g.nodes| <= |nodes| && nodes[..|g.nodes|] == g.nodes
    requires forall c :: c in nodes ==> c in b
    ensures Forward(G.Graph(nodes, g.locked), b)
  {
    forall n | 0 <= n < |nodes| ensures nodes[n] in b {
      assert nodes[n] in nodes;
    }
    forall i | 0 <= i < |g.locked|
      ensures G.Index(b, nodes[g.locked[i].a]) < G.Index(b, nodes[g.locked[i].b])
    {
      assert nodes[g.locked[i].a] == g.nodes[g.locked[i].a];
      assert nodes[g.locked[i].b] == g.nodes[g.locked[i].b];
    }
  }

  /** Along forward vertices no path leads back to a candidate ranked earlier. */
  lemma {:induction false} NoPathBack(g: G.Graph, b: seq<nat>, nx: nat, ny: nat)
    requires Forward(g, b) && nx < |g.nodes| && ny < |g.nodes|
    requires G.Index(b, g.nodes[nx]) < G.Index(b, g.nodes[ny])
    ensures !G.Reaches(g.locked, ny, nx)
  {
    if G.Reaches(g.locked, ny, nx) {
      var k: nat :| G.ReachIn(g.locked, ny, nx, k);
      ForwardReach(g, b, ny, nx, k);
      assert false;
    }
  }

  /** A vertex to a candidate ranked later keeps the vertices forward. */
  lemma {:induction false} ForwardLock(g: G.Graph, b: seq<nat>, nx: nat, ny: nat)
    requires Forward(g, b) && nx < |g.nodes| && ny < |g.nodes|
    requires G.Index(b, g.nodes[nx]) < G.Index(b, g.nodes[ny])
    ensures Forward(G.Graph(g.nodes, g.locked + [G.Vertex(nx, ny)]), b)
  {
  }

  /** Adding a pair that b ranks in order always locks it, and the vertices stay
      forward. */
  lemma {:induction false} ForwardAdd(g: G.Graph, b: seq<nat>, x: nat, y: nat)
    requires G.WellFormed(g) && Forward(g, b) && Earlier(b, x, y)
    ensures var r := G.AddPair(g, x, y);
      && Forward(r, b)
      && r.locked == g.locked + [G.Vertex(G.Index(r.nodes, x), G.Index(r.nodes, y))]
  {
    G.AddLocksUnlessCycle(g, x, y);
    ForwardStep(g, G.AddPair(g, x, y), b, x, y);
  }

  /** ForwardAdd, stated over any graph that adds the pair as AddPair does. */
  lemma {:induction false} ForwardStep(g: G.Graph, r: G.Graph, b: seq<nat>, x: nat, y: nat)
    requires Forward(g, b) && Earlier(b, x, y)
    requires |g.nodes| <= |r.nodes| && r.nodes[..|g.nodes|] == g.nodes
    requires forall c :: c in r.nodes <==> c in g.nodes || c == x || c == y
    requires x in r.nodes && y in r.nodes
    requires var nx := G.Index(r.nodes, x);
      var ny := G.Index(r.nodes, y);
      r.locked == if G.Reaches(g.locked, ny, nx) then g.locked else g.locked + [G.Vertex(nx, ny)]
    ensures Forward(r, b)
    ensures r.locked == g.locked + [G.Vertex(G.Index(r.nodes, x), G.Index(r.nodes, y))]
  {
    var nx := G.Index(r.nodes, x);
    var ny := G.Index(r.nodes, y);
    forall c | c in r.nodes ensures c in b {
      if c in g.nodes {
        var n :| 0 <= n < |g.nodes| && g.nodes[n] == c;
      }
    }
    ForwardWiden(g, r.nodes, b);
    var wide := G.Graph(r.nodes, g.locked);
    NoPathBack(wide, b, nx, ny);
    ForwardLock(wide, b, nx, ny);
  }

  /** Every cell of the order is a vertex between its candidates' nodes. */
  ghost predicate LocksEvery(g: G.Graph, order: seq<Cell>)
  {
    forall k :: 0 <= k < |order| ==>
      && order[k].row in g.nodes && order[k].column in g.nodes
      && G.Vertex(G.Index(g.nodes, order[k].row), G.Index(g.nodes, order[k].column)) in g.locked
  }

  /** Keeping the nodes in place and the vertices keeps every cell locked. */
  lemma {:induction false} LocksEveryGrows(g: G.Graph, r: G.Graph, order: seq<Cell>)
    requires LocksEvery(g, order) && Distinct(r.nodes)
    requires |g.nodes| <= |r.nodes| && r.nodes[..|g.nodes|] == g.nodes
    requires g.locked <= r.locked
    ensures LocksEvery(r, order)
  {
    forall v | v in g.locked ensures v in r.locked {
      var i :| 0 <= i < |g.locked| && g.locked[i] == v;
      assert r.locked[i] == v;
    }
    forall k | 0 <= k < |order|
      ensures && order[k].row in r.nodes && order[k].column in r.nodes
              && G.Vertex(G.Index(r.nodes, order[k].row), G.Index(r.nodes, order[k].column)) in r.locked
    {
      var (c, d) := (order[k].row, order[k].column);
      var (i, j) := (G.Index(g.nodes, c), G.Index(g.nodes, d));
      assert r.nodes[i] == c && r.nodes[j] == d;
      G.IndexOfDistinct(r.nodes, c, i);
      G.IndexOfDistinct(r.nodes, d, j);
    }
  }

  /** One more locked cell. */
  lemma {:induction false} LocksEverySnoc(g: G.Graph, order: seq<Cell>, c: Cell)
    requires LocksEvery(g, order) && c.row in g.nodes && c.column in g.nodes
    requires G.Vertex(G.Index(g.nodes, c.row), G.Index(g.nodes, c.column)) in g.locked
    ensures LocksEvery(g, order + [c])
  {
  }

  /** Locking one more cell that goes to a later place of b keeps every cell locked. */
  lemma {:induction false} UnanimousStep(g: G.Graph, prefix: seq<Cell>, c: Cell, b: seq<nat>)
    requires G.WellFormed(g) && Forward(g, b) && LocksEvery(g, prefix) && Earlier(b, c.row, c.column)
    ensures c.row != c.column
    ensures Forward(G.AddPair(g, c.row, c.column), b) && LocksEvery(G.AddPair(g, c.row, c.column), prefix + [c])
  {
    var r := G.AddPair(g, c.row, c.column);
    ForwardAdd(g, b, c.row, c.column);
    G.AddLocksUnlessCycle(g, c.row, c.column);
    LocksEveryGrows(g, r, prefix);
    assert r.locked[|g.locked|] == G.Vertex(G.Index(r.nodes, c.row), G.Index(r.nodes, c.column));
    LocksEverySnoc(r, prefix, c);
  }

  /** Where b ranks every cell's row before its column, locking keeps every cell: each
      cell ends up as a vertex between its candidates' nodes. */
  lemma {:induction false} UnanimousLocksAll(order: seq<Cell>, b: seq<nat>)
    requires forall k :: 0 <= k < |order| ==> Earlier(b, order[k].row, order[k].column)
    ensures NoLoops(order)
    ensures Forward(Locked(order), b) && LocksEvery(Locked(order), order)
  {
    if order != [] {
      var n := |order| - 1;
      var prefix, c := order[..n], order[n];
      assert order == prefix + [c];
      assert forall k :: 0 <= k < n ==> prefix[k] == order[k];
      UnanimousLocksAll(prefix, b);
      var g0 := Locked(prefix);
      UnanimousStep(g0, prefix, c, b);
      assert Locked(order) == G.AddPair(g0, c.row, c.column);
    }
  }

  /** Where the first place is paired with every other and every cell is locked, a
      vertex enters the node of every candidate but the first choice. */
  lemma {:induction false} EnteredUnlessFirstPlace(g: G.Graph, order: seq<Cell>, b: seq<nat>, n: nat)
    requires G.WellFormed(g) && Forward(g, b) && LocksEvery(g, order) && Distinct(b)
    requires forall j :: 0 < j < |b| ==> exists k :: 0 <= k < |order| && order[k].row == b[0] && order[k].column == b[j]
    requires |b| > 0 && n < |g.nodes| && g.nodes[n] != b[0]
    ensures exists i :: 0 <= i < |g.locked| && g.locked[i].b == n
  {
    var j := G.Index(b, g.nodes[n]);
    var k :| 0 <= k < |order| && order[k].row == b[0] && order[k].column == b[j];
    G.IndexOfDistinct(g.nodes, b[j], n);
    var v := G.Vertex(G.Index(g.nodes, b[0]), n);
    assert v in g.locked;
    var i :| 0 <= i < |g.locked| && g.locked[i] == v;
  }

  /** Where every cell goes from an earlier to a later place of b, and the first place
      is paired with every other, the first place's candidate heads the locked graph. */
  lemma {:induction false} FirstPlaceHeads(order: seq<Cell>, b: seq<nat>)
    requires forall k :: 0 <= k < |order| ==> Earlier(b, order[k].row, order[k].column)
    requires Distinct(b) && |b| >= 2
    requires forall j :: 0 < j < |b| ==> exists k :: 0 <= k < |order| && order[k].row == b[0] && order[k].column == b[j]
    ensures NoLoops(order) && G.HeadCandidate(Locked(order)) == Some(b[0])
  {
    assert 0 < 1 < |b|;
    var k0 :| 0 <= k0 < |order| && order[k0].row == b[0] && order[k0].column == b[1];
    UnanimousLocksAll(order, b);
    var g := Locked(order);
    assert order[k0].row in g.nodes;
    G.HeadCandidateIsSource(g);
    var h := G.FindHead(g.locked, |g.nodes|, 0);
    if g.nodes[h] != b[0] {
      EnteredUnlessFirstPlace(g, order, b, h);
      assert false;
    }
  }

  /** Ballots that all rank the same candidates in the same order elect the first
      choice: every pair the ballots agree on is locked, so only the first choice's node
      has no vertex entering it. */
  lemma {:induction false} UnanimousFirstChoiceWins(ballots: seq<seq<nat>>, b: seq<nat>, cands: seq<nat>)
    requires |ballots| > 0 && forall v :: 0 <= v < |ballots| ==> ballots[v] == b
    requires Distinct(b) && |b| >= 2 && forall i :: 0 <= i < |b| ==> b[i] in cands
    ensures DistinctBallots(ballots) && Outcome(ballots, cands) == Some(b[0])
  {
    var cells := TableCells(PairTable(ballots), cands, cands);
    var order := LockOrder(cells);
    LockOrderHasTheCells(cells);
    CellsAreTheTally(ballots, cands);
    forall k | 0 <= k < |order| ensures Earlier(b, order[k].row, order[k].column) {
      assert order[k] in order;
      UnanimousPreferring(ballots, b, order[k].row, order[k].column);
      AboveIsEarlier(b, order[k].row, order[k].column);
    }
    forall j | 0 < j < |b|
      ensures exists k :: 0 <= k < |order| && order[k].row == b[0] && order[k].column == b[j]
    {
      assert Above(b, b[0], b[j]);
      UnanimousPreferring(ballots, b, b[0], b[j]);
      assert Cell(b[0], b[j], |ballots|) in order;
    }
    FirstPlaceHeads(order, b);
  }

  /** One ballot of the tally: the two nested loops. */
  method TallyBallot(table: Table, b: seq<nat>) returns (r: Table)
    ensures r == AddBallot(table, b)
  {
    r := table;
    for i := 0 to Rows(b)
      invariant r == AddRows(table, b, i)
    {
      for j := i + 1 to |b|
        invariant r == AddRow(AddRows(table, b, i), b, i, j)
      {
        var c1 := b[i];
        var c2 := b[j];
        var n := if (c1, c2) in r then r[(c1, c2)] else 0;
        r := r[(c1, c2) := n + 1];
      }
    }
  }

  /** The tally `forEach` over all ballots. */
  method TallyBallots(ballots: seq<seq<nat>>) returns (table: Table)
    ensures table == PairTable(ballots)
  {
    table := map[];
    for v := 0 to |ballots|
      invariant table == PairTable(ballots[..v])
    {
      assert ballots[..v + 1][..v] == ballots[..v];
      table := TallyBallot(table, ballots[v]);
    }
    assert ballots[..|ballots|] == ballots;
  }

  /** The lock `forEach`: `add` every cell of the order to a fresh graph. */
  method LockAll(order: seq<Cell>) returns (rankedPairGraph: G.RankedPairGraph)
    requires NoLoops(order)
    ensures fresh(rankedPairGraph) && rankedPairGraph.Valid()
    ensures G.Graph(rankedPairGraph.nodes, rankedPairGraph.locked) == Locked(order)
  {
    rankedPairGraph := new G.RankedPairGraph();
    for k := 0 to |order|
      invariant fresh(rankedPairGraph) && rankedPairGraph.Valid()
      invariant G.Graph(rankedPairGraph.nodes, rankedPairGraph.locked) == Locked(order[..k])
    {
      assert order[..k + 1][..k] == order[..k];
      rankedPairGraph.Add(order[k].row, order[k].column);
    }
    assert order[..|order|] == order;
  }

  /** `electCandidate`: poll, tally, sort, lock and find the head. */
  method ElectCandidate(u: seq<seq<real>>, m: nat, cands: seq<nat>) returns (winner: Option<nat>)
    requires IsTable(u, m) && AllBelow(cands, m) && Distinct(cands)
    ensures winner == Elect(u, m, cands)
  {
    var ballots := PR.Ballots(u, m, cands);
    var candidateTable := TallyBallots(ballots);
    var order := LockOrder(TableCells(candidateTable, cands, cands));
    OrderHasNoLoops(u, m, cands);
    var rankedPairGraph := LockAll(order);
    winner := rankedPairGraph.FindHeadCandidate();
  }
}
