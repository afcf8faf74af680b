/** Block-lower-triangular decomposition of a square incidence matrix with a
    perfect matching (`block_triangularize` in
    parker_cce2022/common/incidence_analysis/triangularize.py).

    Rows are equations, columns are variables. Rows are grouped into the
    strongly connected components of the row digraph, the components are put
    in a topological order of the reversed condensation, and every row and
    column is numbered by the position of its component in that order. */
module Triangularize {
  import opened Wrappers
  import opened Sequences
  import opened Digraph
  import opened Components
  import opened Condensation

  /** A rows-by-cols incidence matrix: nz[r][c] holds when row r has a
      nonzero (equation r uses variable c). */
  datatype Incidence = Incidence(rows: nat, cols: nat, nz: seq<seq<bool>>)

  predicate WellFormed(a: Incidence) {
    |a.nz| == a.rows && forall r :: 0 <= r < |a.nz| ==> |a.nz[r]| == a.cols
  }

  /** The exception the call raises. */
  datatype Error =
    | NotSquare(rows: nat, cols: nat)         // ValueError: the matrix is not square
    | NoPerfectMatching(cardinality: nat)     // ValueError: the matching does not have one entry per row
    | KeyError(key: nat)                      // a row missing from the matching, or a column node that does not exist
    | NotInjective(distinctColumns: nat)      // AssertionError: the inverted matching has fewer than M entries

  /** The three results: the block of every row, the block of every column,
      and for every block the blocks whose rows use a column matched in it. */
  datatype Blocks = Blocks(rowBlock: seq<nat>, colBlock: seq<nat>, dag: seq<seq<nat>>)

  /** A matching given as a dictionary is perfect: it has exactly n entries,
      maps every row below n to a column below n, and no two rows to the same
      column. Like the call, this does not ask a matched pair to be a nonzero
      of the matrix: any bijection of rows onto columns is accepted. */
  predicate IsPerfectMatching(matching: map<nat, nat>, n: nat) {
    && |matching| == n
    && (forall r: nat | r < n :: r in matching && matching[r] < n)
    && (forall r1: nat, r2: nat | r1 < r2 < n && r1 in matching && r2 in matching ::
          matching[r1] != matching[r2])
  }

  /** mt, read as row -> column, is a bijection of {0, ..., |mt|-1}. */
  predicate IsPermutation(mt: seq<nat>) {
    (forall r :: 0 <= r < |mt| ==> mt[r] < |mt|) && Injective(mt)
  }

  /** The inputs once every check of the call has passed. */
  predicate ValidInput(a: Incidence, mt: seq<nat>) {
    WellFormed(a) && a.rows == a.cols && |mt| == a.rows && IsPermutation(mt)
  }

  /** The first row, from r on, for which the lookups `matching[n]` or
      `bg[col_idx + M]` of the row-digraph loop fail. */
  function FirstLookupFailure(matching: map<nat, nat>, n: nat, r: nat): (res: Option<nat>)
    requires r <= n
    ensures res.None? <==> forall x: nat | r <= x < n :: x in matching && matching[x] < n
    ensures res.Some? ==> r <= res.value < n && (res.value !in matching || matching[res.value] >= n)
    ensures res.Some? ==> forall x: nat | r <= x < res.value :: x in matching && matching[x] < n
    decreases n - r
  {
    if r == n then None
    else if r !in matching || matching[r] >= n then Some(r)
    else FirstLookupFailure(matching, n, r + 1)
  }

  /** The matching as a sequence indexed by row. */
  function MatchingAsSeq(matching: map<nat, nat>, n: nat): (mt: seq<nat>)
    requires forall r: nat | r < n :: r in matching
    ensures |mt| == n && forall r :: 0 <= r < n ==> mt[r] == matching[r]
  {
    seq(n, r requires 0 <= r < n => matching[r])
  }

  /** The checks of the call, in the order it makes them: the shape, the size
      of the matching, the lookups of every row's column, and the size of the
      inverted matching. */
  function CheckInputs(a: Incidence, matching: map<nat, nat>): (res: Result<seq<nat>, Error>)
    requires WellFormed(a)
    ensures a.rows != a.cols ==> res == Failure(NotSquare(a.rows, a.cols))
    ensures a.rows == a.cols && |matching| != a.rows ==> res == Failure(NoPerfectMatching(|matching|))
    ensures res.Success? <==> a.rows == a.cols && IsPerfectMatching(matching, a.rows)
    ensures res.Success? ==> matching.Keys == Below(a.rows)
    ensures res.Success? ==> ValidInput(a, res.value) && res.value == MatchingAsSeq(matching, a.rows)
    ensures a.rows == a.cols && |matching| == a.rows ==>
      (res.Failure? && res.error.KeyError? <==> exists r: nat | r < a.rows :: r !in matching || matching[r] >= a.cols)
    ensures res.Failure? && res.error.KeyError? ==>
      exists r: nat | r < a.rows ::
        && (forall x: nat | x < r :: x in matching && matching[x] < a.cols)
        && (if r in matching then matching[r] >= a.cols && res.error.key == matching[r] + a.rows
            else res.error.key == r)
    ensures a.rows == a.cols && |matching| == a.rows
            && (forall r: nat | r < a.rows :: r in matching && matching[r] < a.cols)
            && !IsPerfectMatching(matching, a.rows) ==>
      res.Failure? && res.error.NotInjective?
    ensures res.Failure? && res.error.NotInjective? ==> res.error.distinctColumns < a.rows
  {
    if a.rows != a.cols then Failure(NotSquare(a.rows, a.cols))
    else if |matching| != a.rows then Failure(NoPerfectMatching(|matching|))
    else match FirstLookupFailure(matching, a.rows, 0)
      case Some(r) =>
        if r !in matching then Failure(KeyError(r)) else Failure(KeyError(matching[r] + a.rows))
      case None =>
        var mt := MatchingAsSeq(matching, a.rows);
        AcceptedMatching(a, matching);
        var distinct := |Image(mt)|;
        if distinct != a.rows then Failure(NotInjective(distinct)) else Success(mt)
  }

  /** Once every row has a column below n, the inverted matching has n entries
      exactly when the matching is perfect. */
  lemma AcceptedMatching(a: Incidence, matching: map<nat, nat>)
    requires WellFormed(a) && a.rows == a.cols && |matching| == a.rows
    requires forall x: nat | x < a.rows :: x in matching && matching[x] < a.rows
    ensures |Image(MatchingAsSeq(matching, a.rows))| <= a.rows
    ensures |Image(MatchingAsSeq(matching, a.rows))| == a.rows <==> IsPerfectMatching(matching, a.rows)
    ensures |Image(MatchingAsSeq(matching, a.rows))| == a.rows ==> ValidInput(a, MatchingAsSeq(matching, a.rows))
    ensures matching.Keys == Below(a.rows)
  {
    ImageSize(MatchingAsSeq(matching, a.rows));
    KeysOfPerfectMatching(matching, a.rows);
    InjectiveIffPerfect(matching, a.rows);
  }

  /** When every row below n has a column below n, the matching is perfect
      exactly when no two rows share a column. */
  lemma InjectiveIffPerfect(matching: map<nat, nat>, n: nat)
    requires |matching| == n
    requires forall x: nat | x < n :: x in matching && matching[x] < n
    ensures Injective(MatchingAsSeq(matching, n)) <==> IsPerfectMatching(matching, n)
  {
    var mt := MatchingAsSeq(matching, n);
    if Injective(mt) {
      forall r1: nat, r2: nat | r1 < r2 < n ensures matching[r1] != matching[r2] {
        assert mt[r1] != mt[r2];
      }
    }
    if IsPerfectMatching(matching, n) {
      forall r1, r2 | 0 <= r1 < r2 < n ensures mt[r1] != mt[r2] {
        assert matching[r1] != matching[r2];
      }
    }
  }

  /** A dictionary with n entries that holds every row below n holds nothing else. */
  lemma KeysOfPerfectMatching(matching: map<nat, nat>, n: nat)
    requires |matching| == n && forall r: nat | r < n :: r in matching
    ensures matching.Keys == Below(n)
  {
    assert Below(n) <= matching.Keys;
    SubsetSize(Below(n), matching.Keys);
  }

  /** The owner of every column: the row matched to it (the dictionary
      `col_row_map`). It is the two-sided inverse of the matching. */
  function InvertMatching(mt: seq<nat>): (owner: seq<nat>)
    requires IsPermutation(mt)
    ensures |owner| == |mt|
    ensures forall r :: 0 <= r < |mt| ==> owner[mt[r]] == r
    ensures forall c :: 0 <= c < |owner| ==> owner[c] < |mt| && mt[owner[c]] == c
  {
    InjectiveOntoBelow(mt, |mt|);
    assert forall c :: 0 <= c < |mt| ==> c in mt by {
      forall c | 0 <= c < |mt| ensures c in mt {
        assert c in Image(mt);
      }
    }
    seq(|mt|, c requires 0 <= c < |mt| => IndexOf(mt, c))
  }

  /** The row digraph: an edge u -> v when u is not v and row u is nonzero in
      the column matched to row v. */
  function RowDigraph(a: Incidence, mt: seq<nat>): (g: Adjacency)
    requires ValidInput(a, mt)
    ensures IsSquare(g) && |g| == a.rows
    ensures forall u, v :: 0 <= u < a.rows && 0 <= v < a.rows ==> (g[u][v] <==> u != v && a.nz[u][mt[v]])
  {
    seq(a.rows, u requires 0 <= u < a.rows =>
      seq(a.rows, v requires 0 <= v < a.rows => u != v && a.nz[u][mt[v]]))
  }

  /** Builds the row digraph as the call does: for every row n, an edge from
      every other row that uses n's matched column towards n. */
  method BuildRowGraph(a: Incidence, mt: seq<nat>) returns (g: Adjacency)
    requires ValidInput(a, mt)
    ensures IsSquare(g) && |g| == a.rows
    ensures forall u, v :: 0 <= u < a.rows && 0 <= v < a.rows ==> (Edge(g, u, v) <==> u != v && a.nz[u][mt[v]])
    ensures forall u :: 0 <= u < a.rows ==> !Edge(g, u, u)
    ensures g == RowDigraph(a, mt)
  {
    var m := a.rows;
    g := seq(m, _ => seq(m, _ => false));
    var n := 0;
    while n < m
      invariant n <= m
      invariant EdgesBuilt(a, mt, g, n, 0)
    {
      var col := mt[n];
      var neighbor := 0;
      while neighbor < m
        invariant neighbor <= m
        invariant EdgesBuilt(a, mt, g, n, neighbor)
      {
        ghost var prev := g;
        if a.nz[neighbor][col] && neighbor != n {
          g := AddEdge(g, neighbor, n);
        }
        EdgesBuiltStep(a, mt, prev, g, n, neighbor);
        neighbor := neighbor + 1;
      }
      EdgesBuiltNextRow(a, mt, g, n);
      n := n + 1;
    }
    AllEdgesBuilt(a, mt, g);
  }

  /** g holds exactly the edges into the rows below n, and the edges from the
      rows below k into row n. */
  ghost predicate EdgesBuilt(a: Incidence, mt: seq<nat>, g: Adjacency, n: nat, k: nat)
    requires ValidInput(a, mt)
  {
    && IsSquare(g) && |g| == a.rows
    && forall u, v {:trigger g[u][v]} :: 0 <= u < a.rows && 0 <= v < a.rows ==>
         (g[u][v] <==> (v < n || (v == n && u < k)) && u != v && a.nz[u][mt[v]])
  }

  lemma EdgesBuiltStep(a: Incidence, mt: seq<nat>, prev: Adjacency, g: Adjacency, n: nat, k: nat)
    requires ValidInput(a, mt) && n < a.rows && k < a.rows
    requires EdgesBuilt(a, mt, prev, n, k)
    requires g == if a.nz[k][mt[n]] && k != n then AddEdge(prev, k, n) else prev
    ensures EdgesBuilt(a, mt, g, n, k + 1)
  {
    forall u, v | 0 <= u < a.rows && 0 <= v < a.rows
      ensures g[u][v] <==> (v < n || (v == n && u < k + 1)) && u != v && a.nz[u][mt[v]]
    {
      assert prev[u][v] <==> (v < n || (v == n && u < k)) && u != v && a.nz[u][mt[v]];
    }
  }

  lemma AllEdgesBuilt(a: Incidence, mt: seq<nat>, g: Adjacency)
    requires ValidInput(a, mt)
    requires EdgesBuilt(a, mt, g, a.rows, 0)
    ensures g == RowDigraph(a, mt)
  {
    var h := RowDigraph(a, mt);
    forall u, v | 0 <= u < |g| && 0 <= v < |g| ensures g[u][v] == h[u][v] {
      assert g[u][v] <==> u != v && a.nz[u][mt[v]];
    }
    SameAdjacency(g, h);
  }

  lemma EdgesBuiltNextRow(a: Incidence, mt: seq<nat>, g: Adjacency, n: nat)
    requires ValidInput(a, mt) && n < a.rows
    requires EdgesBuilt(a, mt, g, n, a.rows)
    ensures EdgesBuilt(a, mt, g, n + 1, 0)
  {
  }

  /** The graph g with the edge u -> v added. */
  function AddEdge(g: Adjacency, u: nat, v: nat): (g': Adjacency)
    requires IsSquare(g) && u < |g| && v < |g|
    ensures IsSquare(g') && |g'| == |g|
    ensures forall x, y :: 0 <= x < |g| && 0 <= y < |g| ==> (g'[x][y] <==> g[x][y] || (x == u && y == v))
  {
    g[u := g[u][v := true]]
  }

  lemma SameAdjacency(g: Adjacency, h: Adjacency)
    requires IsSquare(g) && IsSquare(h) && |g| == |h|
    requires forall u, v :: 0 <= u < |g| && 0 <= v < |g| ==> g[u][v] == h[u][v]
    ensures g == h
  {
    forall u | 0 <= u < |g| ensures g[u] == h[u] {
      assert forall v :: 0 <= v < |g| ==> g[u][v] == h[u][v];
    }
  }

  /** The blocks x from j on whose component receives a condensed edge from
      the component of block k, in increasing order. */
  function Successors(g: Adjacency, lab: seq<nat>, order: seq<nat>, k: nat, j: nat): (s: seq<nat>)
    requires k < |order| && j <= |order|
    ensures forall x :: x in s <==> j <= x < |order| && CondensedEdge(g, lab, order[k], order[x])
    ensures forall i :: 0 <= i < |s| ==> j <= s[i]
    ensures Increasing(s)
    decreases |order| - j
  {
    if j == |order| then []
    else if CondensedEdge(g, lab, order[k], order[j]) then [j] + Successors(g, lab, order, k, j + 1)
    else Successors(g, lab, order, k, j + 1)
  }

  /** Every row has a block below B, every block below B holds a row, and two
      rows share a block exactly when each reaches the other in the row digraph. */
  ghost predicate RowBlocksAreComponents(a: Incidence, mt: seq<nat>, res: Blocks)
    requires ValidInput(a, mt)
  {
    && |res.rowBlock| == a.rows
    && (forall r :: 0 <= r < a.rows ==> res.rowBlock[r] < |res.dag|)
    && (forall k :: 0 <= k < |res.dag| ==> k in res.rowBlock)
    && (forall r1, r2 :: 0 <= r1 < a.rows && 0 <= r2 < a.rows ==>
          (res.rowBlock[r1] == res.rowBlock[r2] <==> SameComponent(RowDigraph(a, mt), r1, r2)))
  }

  /** Every column has a block, and it is the block of the row matched to it. */
  ghost predicate ColumnBlocksFollowMatching(a: Incidence, mt: seq<nat>, res: Blocks)
    requires ValidInput(a, mt) && |res.rowBlock| == a.rows
  {
    && |res.colBlock| == a.cols
    && (forall r :: 0 <= r < a.rows ==> res.colBlock[mt[r]] == res.rowBlock[r])
  }

  /** No nonzero lies above the block diagonal, and a nonzero in a column
      matched to a row of another component lies strictly below it. */
  ghost predicate IsBlockLowerTriangular(a: Incidence, mt: seq<nat>, res: Blocks)
    requires ValidInput(a, mt) && |res.rowBlock| == a.rows && |res.colBlock| == a.cols
  {
    && (forall r, c :: 0 <= r < a.rows && 0 <= c < a.cols && a.nz[r][c] ==>
          res.colBlock[c] <= res.rowBlock[r])
    && (forall r, v ::
          (0 <= r < a.rows && 0 <= v < a.rows && a.nz[r][mt[v]] && !SameComponent(RowDigraph(a, mt), r, v)) ==>
          res.colBlock[mt[v]] < res.rowBlock[r])
  }

  /** dag[k] lists, without repetition, blocks after k; block j is listed
      exactly when j is not k and a row of block j uses the column matched to
      a row of block k. */
  ghost predicate IsBlockDag(a: Incidence, mt: seq<nat>, res: Blocks)
    requires ValidInput(a, mt) && |res.rowBlock| == a.rows
  {
    && (forall k :: 0 <= k < |res.dag| ==> Injective(res.dag[k]))
    && (forall k, i :: 0 <= k < |res.dag| && 0 <= i < |res.dag[k]| ==> k < res.dag[k][i] < |res.dag|)
    && (forall k, j :: 0 <= k < |res.dag| && 0 <= j < |res.dag| ==>
          (j in res.dag[k] <==> j != k && BlockUsesBlock(a, mt, res.rowBlock, j, k)))
  }

  /** Some row of block j is nonzero in the column matched to some row of block k. */
  predicate BlockUsesBlock(a: Incidence, mt: seq<nat>, rowBlock: seq<nat>, j: nat, k: nat)
    requires ValidInput(a, mt) && |rowBlock| == a.rows
  {
    exists u, v :: 0 <= u < a.rows && 0 <= v < a.rows && rowBlock[u] == j && rowBlock[v] == k && a.nz[u][mt[v]]
  }

  /** All the promises of a successful call, for B = |res.dag| blocks. */
  ghost predicate IsBlockTriangularization(a: Incidence, mt: seq<nat>, res: Blocks)
    requires ValidInput(a, mt)
  {
    && RowBlocksAreComponents(a, mt, res)
    && ColumnBlocksFollowMatching(a, mt, res)
    && IsBlockLowerTriangular(a, mt, res)
    && IsBlockDag(a, mt, res)
  }

  /** Numbers rows, columns and condensed edges by the position of their
      component in a topological order; correct for every component labelling
      and every topological order. */
  function Assemble(a: Incidence, mt: seq<nat>, g: Adjacency, lab: seq<nat>, order: seq<nat>): (res: Blocks)
    requires ValidInput(a, mt) && g == RowDigraph(a, mt)
    requires IsComponentLabelling(g, lab) && IsTopologicalOrder(g, lab, order)
    ensures |res.dag| == |order|
    ensures IsBlockTriangularization(a, mt, res)
  {
    LabelsAreOrdered(g, lab, order);
    var rowBlock := RowBlocks(lab, order);
    var colBlock := ColumnBlocks(rowBlock, mt);
    var dag := BlockDag(g, lab, order);
    var res := Blocks(rowBlock, colBlock, dag);
    RowBlocksCorrect(a, mt, g, lab, order, res);
    LowerTriangularCorrect(a, mt, g, lab, order, res);
    BlockDagCorrect(a, mt, g, lab, order, res);
    res
  }

  /** Row r goes to the position of its component in the order (`row_block_map`). */
  function RowBlocks(lab: seq<nat>, order: seq<nat>): (rowBlock: seq<nat>)
    requires forall r :: 0 <= r < |lab| ==> lab[r] in order
    ensures |rowBlock| == |lab|
    ensures forall r :: 0 <= r < |lab| ==> rowBlock[r] < |order| && order[rowBlock[r]] == lab[r]
  {
    seq(|lab|, r requires 0 <= r < |lab| => IndexOf(order, lab[r]))
  }

  /** Every column goes to the block of the row matched to it (`col_block_map`,
      read through the inverted matching `col_row_map`). */
  function ColumnBlocks(rowBlock: seq<nat>, mt: seq<nat>): (colBlock: seq<nat>)
    requires IsPermutation(mt) && |rowBlock| == |mt|
    ensures |colBlock| == |mt|
    ensures forall r :: 0 <= r < |mt| ==> colBlock[mt[r]] == rowBlock[r]
  {
    var owner := InvertMatching(mt);
    seq(|mt|, c requires 0 <= c < |mt| => rowBlock[owner[c]])
  }

  /** The successors of every block in the reversed condensation (`dag_ll`),
      each list in increasing order. */
  function BlockDag(g: Adjacency, lab: seq<nat>, order: seq<nat>): (dag: seq<seq<nat>>)
    ensures |dag| == |order|
    ensures forall k :: 0 <= k < |order| ==> Increasing(dag[k])
    ensures forall k, i :: 0 <= k < |order| && 0 <= i < |dag[k]| ==> dag[k][i] < |order|
    ensures forall k, j :: 0 <= k < |order| && 0 <= j < |order| ==>
      (j in dag[k] <==> CondensedEdge(g, lab, order[k], order[j]))
  {
    var dag := seq(|order|, k requires 0 <= k < |order| => Successors(g, lab, order, k, 0));
    forall k, i | 0 <= k < |order| && 0 <= i < |dag[k]| ensures dag[k][i] < |order| {
      assert dag[k][i] in dag[k];
    }
    dag
  }

  lemma LabelsAreOrdered(g: Adjacency, lab: seq<nat>, order: seq<nat>)
    requires IsComponentLabelling(g, lab) && IsTopologicalOrder(g, lab, order)
    ensures forall r :: 0 <= r < |lab| ==> lab[r] in order
  {
    forall r | 0 <= r < |lab| ensures lab[r] in order {
      assert IsRoot(lab, lab[r]);
    }
  }

  /** rowBlock numbers every row by the position of its component in order. */
  predicate NumbersByPosition(lab: seq<nat>, order: seq<nat>, rowBlock: seq<nat>) {
    && |rowBlock| == |lab|
    && forall r :: 0 <= r < |lab| ==> rowBlock[r] < |order| && order[rowBlock[r]] == lab[r]
  }

  /** In an order without repetitions, a row's block is j exactly when its
      component is the j-th one. */
  lemma PositionIdentifies(lab: seq<nat>, order: seq<nat>, rowBlock: seq<nat>, r: nat, j: nat)
    requires Injective(order) && NumbersByPosition(lab, order, rowBlock)
    requires r < |lab| && j < |order|
    ensures rowBlock[r] == j <==> lab[r] == order[j]
  {
  }

  lemma RowBlocksCorrect(a: Incidence, mt: seq<nat>, g: Adjacency, lab: seq<nat>, order: seq<nat>, res: Blocks)
    requires ValidInput(a, mt) && g == RowDigraph(a, mt)
    requires IsComponentLabelling(g, lab) && IsTopologicalOrder(g, lab, order)
    requires NumbersByPosition(lab, order, res.rowBlock) && |res.dag| == |order|
    ensures RowBlocksAreComponents(a, mt, res)
  {
    forall k | 0 <= k < |order| ensures k in res.rowBlock {
      assert IsRoot(lab, order[k]);
      PositionIdentifies(lab, order, res.rowBlock, order[k], k);
      assert res.rowBlock[order[k]] == k;
    }
    forall r1, r2 | 0 <= r1 < a.rows && 0 <= r2 < a.rows
      ensures res.rowBlock[r1] == res.rowBlock[r2] <==> lab[r1] == lab[r2]
    {
      PositionIdentifies(lab, order, res.rowBlock, r1, res.rowBlock[r2]);
    }
  }

  lemma LowerTriangularCorrect(a: Incidence, mt: seq<nat>, g: Adjacency, lab: seq<nat>, order: seq<nat>, res: Blocks)
    requires ValidInput(a, mt) && g == RowDigraph(a, mt)
    requires IsComponentLabelling(g, lab) && IsTopologicalOrder(g, lab, order)
    requires NumbersByPosition(lab, order, res.rowBlock)
    requires |res.colBlock| == a.cols && forall r :: 0 <= r < a.rows ==> res.colBlock[mt[r]] == res.rowBlock[r]
    ensures IsBlockLowerTriangular(a, mt, res)
  {
    var owner := InvertMatching(mt);
    forall r, c | 0 <= r < a.rows && 0 <= c < a.cols && a.nz[r][c]
      ensures res.colBlock[c] <= res.rowBlock[r]
    {
      var v := owner[c];
      assert res.colBlock[c] == res.rowBlock[v];
      if lab[r] == lab[v] {
        PositionIdentifies(lab, order, res.rowBlock, v, res.rowBlock[r]);
      } else {
        CrossingNonzeroIsBelow(a, mt, g, lab, order, res.rowBlock, r, v);
      }
    }
    forall r, v | 0 <= r < a.rows && 0 <= v < a.rows && a.nz[r][mt[v]] && !SameComponent(g, r, v)
      ensures res.colBlock[mt[v]] < res.rowBlock[r]
    {
      CrossingNonzeroIsBelow(a, mt, g, lab, order, res.rowBlock, r, v);
    }
  }

  /** A nonzero of row r in the column matched to a row v of another component
      is a condensed edge, so v's block comes strictly before r's. */
  lemma CrossingNonzeroIsBelow(a: Incidence, mt: seq<nat>, g: Adjacency, lab: seq<nat>, order: seq<nat>,
                               rowBlock: seq<nat>, r: nat, v: nat)
    requires ValidInput(a, mt) && g == RowDigraph(a, mt)
    requires IsComponentLabelling(g, lab) && IsTopologicalOrder(g, lab, order)
    requires NumbersByPosition(lab, order, rowBlock)
    requires r < a.rows && v < a.rows && a.nz[r][mt[v]] && lab[r] != lab[v]
    ensures rowBlock[v] < rowBlock[r]
  {
    assert Edge(g, r, v);
    var i, j := rowBlock[v], rowBlock[r];
    assert CondensedEdge(g, lab, order[i], order[j]);
  }

  lemma BlockDagCorrect(a: Incidence, mt: seq<nat>, g: Adjacency, lab: seq<nat>, order: seq<nat>, res: Blocks)
    requires ValidInput(a, mt) && g == RowDigraph(a, mt)
    requires IsComponentLabelling(g, lab) && IsTopologicalOrder(g, lab, order)
    requires NumbersByPosition(lab, order, res.rowBlock) && |res.dag| == |order|
    requires forall k :: 0 <= k < |order| ==> Increasing(res.dag[k])
    requires forall k, i :: 0 <= k < |order| && 0 <= i < |res.dag[k]| ==> res.dag[k][i] < |order|
    requires forall k, j :: 0 <= k < |order| && 0 <= j < |order| ==>
      (j in res.dag[k] <==> CondensedEdge(g, lab, order[k], order[j]))
    ensures IsBlockDag(a, mt, res)
  {
    forall k, i | 0 <= k < |order| && 0 <= i < |res.dag[k]|
      ensures k < res.dag[k][i] < |order|
    {
      var j := res.dag[k][i];
      assert j in res.dag[k];
      assert CondensedEdge(g, lab, order[k], order[j]);
    }
    forall k, j | 0 <= k < |order| && 0 <= j < |order|
      ensures j in res.dag[k] <==> j != k && BlockUsesBlock(a, mt, res.rowBlock, j, k)
    {
      DagMembership(a, mt, g, lab, order, res.rowBlock, k, j);
    }
  }

  /** A condensed edge between the components of blocks k and j is a nonzero
      of a row of block j in a column matched to a row of block k. */
  lemma DagMembership(a: Incidence, mt: seq<nat>, g: Adjacency, lab: seq<nat>, order: seq<nat>,
                      rowBlock: seq<nat>, k: nat, j: nat)
    requires ValidInput(a, mt) && g == RowDigraph(a, mt) && |lab| == a.rows
    requires Injective(order) && NumbersByPosition(lab, order, rowBlock)
    requires k < |order| && j < |order|
    ensures CondensedEdge(g, lab, order[k], order[j]) <==> j != k && BlockUsesBlock(a, mt, rowBlock, j, k)
  {
    if CondensedEdge(g, lab, order[k], order[j]) {
      CondensedEdgeIsUse(a, mt, g, lab, order, rowBlock, k, j);
    }
    if j != k && BlockUsesBlock(a, mt, rowBlock, j, k) {
      var u, v :| 0 <= u < a.rows && 0 <= v < a.rows && rowBlock[u] == j && rowBlock[v] == k && a.nz[u][mt[v]];
      UseIsCondensedEdge(a, mt, g, lab, order, rowBlock, k, j, u, v);
    }
  }

  lemma CondensedEdgeIsUse(a: Incidence, mt: seq<nat>, g: Adjacency, lab: seq<nat>, order: seq<nat>,
                           rowBlock: seq<nat>, k: nat, j: nat)
    requires ValidInput(a, mt) && g == RowDigraph(a, mt) && |lab| == a.rows
    requires Injective(order) && NumbersByPosition(lab, order, rowBlock)
    requires k < |order| && j < |order| && CondensedEdge(g, lab, order[k], order[j])
    ensures j != k && BlockUsesBlock(a, mt, rowBlock, j, k)
  {
    var u: nat, v: nat :| u < |lab| && v < |lab| && lab[u] == order[j] && lab[v] == order[k] && Edge(g, u, v);
    PositionIdentifies(lab, order, rowBlock, u, j);
    PositionIdentifies(lab, order, rowBlock, v, k);
    assert rowBlock[u] == j && rowBlock[v] == k && a.nz[u][mt[v]];
  }

  lemma UseIsCondensedEdge(a: Incidence, mt: seq<nat>, g: Adjacency, lab: seq<nat>, order: seq<nat>,
                           rowBlock: seq<nat>, k: nat, j: nat, u: nat, v: nat)
    requires ValidInput(a, mt) && g == RowDigraph(a, mt) && |lab| == a.rows
    requires Injective(order) && NumbersByPosition(lab, order, rowBlock)
    requires k < |order| && j < |order| && j != k
    requires u < a.rows && v < a.rows && rowBlock[u] == j && rowBlock[v] == k && a.nz[u][mt[v]]
    ensures CondensedEdge(g, lab, order[k], order[j])
  {
    assert u != v;
    assert g[u][v];
    assert lab[u] == order[j] && lab[v] == order[k] && Edge(g, u, v);
  }

  /** block_triangularize: checks its inputs, raising the exceptions the call
      raises, and otherwise returns the row blocks, the column blocks and the
      block DAG. */
  method BlockTriangularize(a: Incidence, matching: map<nat, nat>) returns (res: Result<Blocks, Error>)
    requires WellFormed(a)
    ensures a.rows != a.cols ==> res == Failure(NotSquare(a.rows, a.cols))
    ensures a.rows == a.cols && |matching| != a.rows ==> res == Failure(NoPerfectMatching(|matching|))
    ensures a.rows == a.cols && |matching| == a.rows ==>
      (res.Failure? && res.error.KeyError? <==> exists r: nat | r < a.rows :: r !in matching || matching[r] >= a.cols)
    ensures a.rows == a.cols && |matching| == a.rows
            && (forall r: nat | r < a.rows :: r in matching && matching[r] < a.cols)
            && !IsPerfectMatching(matching, a.rows) ==>
      res.Failure? && res.error.NotInjective?
    ensures CheckInputs(a, matching).Failure? ==> res == Failure(CheckInputs(a, matching).error)
    ensures res.Success? <==> a.rows == a.cols && IsPerfectMatching(matching, a.rows)
    ensures res.Success? ==> IsBlockTriangularization(a, MatchingAsSeq(matching, a.rows), res.value)
  {
    var checked := CheckInputs(a, matching);
    if checked.Failure? {
      return Failure(checked.error);
    }
    var mt := checked.value;
    var g := BuildRowGraph(a, mt);
    var lab := ComponentLabels(g);
    var order := TopologicalOrder(g, lab);
    res := Success(Assemble(a, mt, g, lab, order));
  }
}
