/** Consequences of the block triangularization contract for every input, and
    what it pins down for three small matrices: a diagonal one, a dense one and
    one that is already block lower triangular with two blocks. Every lemma
    here holds for ANY result meeting the contract, so by the postcondition of
    BlockTriangularize it holds for the result of the call. */
module Properties {
  import opened Wrappers
  import opened Sequences
  import opened Digraph
  import opened Components
  import opened Triangularize

  /** w follows the block DAG: each block lists the next one among its successors. */
  predicate IsDagWalk(dag: seq<seq<nat>>, w: seq<nat>) {
    && |w| >= 1
    && (forall i :: 0 <= i < |w| ==> w[i] < |dag|)
    && (forall i :: 0 <= i < |w| - 1 ==> w[i + 1] in dag[w[i]])
  }

  /** Every walk of one or more steps in the block DAG ends in a later block
      than it starts, so the DAG has no cycle. */
  lemma {:induction false} BlockDagIsAcyclic(a: Incidence, mt: seq<nat>, res: Blocks, w: seq<nat>)
    requires ValidInput(a, mt) && IsBlockTriangularization(a, mt, res)
    requires IsDagWalk(res.dag, w) && |w| >= 2
    ensures w[0] < w[|w| - 1]
    decreases |w|
  {
    var k, j := w[|w| - 2], w[|w| - 1];
    var i :| 0 <= i < |res.dag[k]| && res.dag[k][i] == j;
    assert k < j;
    if |w| > 2 {
      var v := w[..|w| - 1];
      assert IsDagWalk(res.dag, v) by {
        forall i | 0 <= i < |v| - 1 ensures v[i + 1] in res.dag[v[i]] {
          assert v[i] == w[i] && v[i + 1] == w[i + 1];
        }
      }
      BlockDagIsAcyclic(a, mt, res, v);
    }
  }

  /** The identity matching on n rows. */
  function Identity(n: nat): (mt: seq<nat>)
    ensures |mt| == n && IsPermutation(mt)
    ensures forall r :: 0 <= r < n ==> mt[r] == r
  {
    seq(n, r requires 0 <= r < n => r)
  }

  /** The n-by-n matrix whose only nonzeros are on the diagonal. */
  function Diagonal(n: nat): (a: Incidence)
    ensures WellFormed(a) && a.rows == n && a.cols == n
    ensures forall r, c :: 0 <= r < n && 0 <= c < n ==> (a.nz[r][c] <==> r == c)
  {
    Incidence(n, n, seq(n, r requires 0 <= r < n => seq(n, c requires 0 <= c < n => r == c)))
  }

  /** The n-by-n matrix with no zero entry. */
  function Dense(n: nat): (a: Incidence)
    ensures WellFormed(a) && a.rows == n && a.cols == n
    ensures forall r, c :: 0 <= r < n && 0 <= c < n ==> a.nz[r][c]
  {
    Incidence(n, n, seq(n, r requires 0 <= r < n => seq(n, c requires 0 <= c < n => true)))
  }

  /** The row digraph of a diagonal matrix has no edge, so no two rows share a component. */
  lemma DiagonalSeparatesRows(n: nat, u: nat, v: nat)
    requires u < n && v < n && u != v
    ensures !SameComponent(RowDigraph(Diagonal(n), Identity(n)), u, v)
  {
    ClosedSetUnreachable(RowDigraph(Diagonal(n), Identity(n)), {u}, u, v);
  }

  /** A diagonal matrix with the identity matching splits into n singleton
      blocks that depend on nothing, and every column shares its row's block. */
  lemma DiagonalIsAllSingletons(n: nat, res: Blocks)
    requires IsBlockTriangularization(Diagonal(n), Identity(n), res)
    ensures |res.dag| == n
    ensures Injective(res.rowBlock)
    ensures res.colBlock == res.rowBlock
    ensures forall k :: 0 <= k < n ==> res.dag[k] == []
  {
    var a, mt := Diagonal(n), Identity(n);
    assert RowBlocksAreComponents(a, mt, res) && ColumnBlocksFollowMatching(a, mt, res);
    forall u, v | 0 <= u < v < n ensures res.rowBlock[u] != res.rowBlock[v] {
      DiagonalSeparatesRows(n, u, v);
    }
    ImageSize(res.rowBlock);
    ImageIsBelow(res.rowBlock, |res.dag|);
    forall k | 0 <= k < n ensures res.dag[k] == [] {
      DiagonalBlockDependsOnNothing(n, res, k);
    }
  }

  /** In a diagonal matrix a row uses only the column matched to itself, so a
      block uses no block but its own and lists no successor. */
  lemma DiagonalBlockDependsOnNothing(n: nat, res: Blocks, k: nat)
    requires IsBlockTriangularization(Diagonal(n), Identity(n), res)
    requires k < |res.dag|
    ensures res.dag[k] == []
  {
    var a, mt := Diagonal(n), Identity(n);
    assert IsBlockDag(a, mt, res);
    forall j | BlockUsesBlock(a, mt, res.rowBlock, j, k) ensures j == k {
      var u, v :| 0 <= u < n && 0 <= v < n && res.rowBlock[u] == j && res.rowBlock[v] == k && a.nz[u][mt[v]];
    }
    EmptyIffNoMember(res.dag[k]);
  }

  /** In a dense matrix every row has an edge to every other row, so all rows share a component. */
  lemma DenseJoinsRows(n: nat, mt: seq<nat>, u: nat, v: nat)
    requires |mt| == n && IsPermutation(mt) && u < n && v < n
    ensures SameComponent(RowDigraph(Dense(n), mt), u, v)
  {
    var g := RowDigraph(Dense(n), mt);
    if u == v {
      ReachableRefl(g, u);
    } else {
      ReachableEdge(g, u, v);
      ReachableEdge(g, v, u);
    }
  }

  /** Two rows matched to the same column pass the size check and every
      lookup, and then fail the assertion on the inverted matching. */
  lemma SharedColumnFailsAssertion()
    ensures CheckInputs(Dense(2), map[0 := 0, 1 := 0]) == Failure(NotInjective(1))
  {
    var matching: map<nat, nat> := map[0 := 0, 1 := 0];
    assert matching.Keys == {0, 1};
    assert |matching| == 2;
    assert !IsPerfectMatching(matching, 2);
    assert MatchingAsSeq(matching, 2) == [0, 0];
    assert Image([0, 0]) == {0};
  }

  /** A dense matrix with any perfect matching is a single block. */
  lemma DenseIsOneBlock(n: nat, mt: seq<nat>, res: Blocks)
    requires |mt| == n && IsPermutation(mt) && n >= 1
    requires IsBlockTriangularization(Dense(n), mt, res)
    ensures |res.dag| == 1 && res.dag == [[]]
    ensures forall r :: 0 <= r < n ==> res.rowBlock[r] == 0
    ensures forall c :: 0 <= c < n ==> res.colBlock[c] == 0
  {
    var a := Dense(n);
    assert RowBlocksAreComponents(a, mt, res) && ColumnBlocksFollowMatching(a, mt, res);
    forall r | 0 <= r < n ensures res.rowBlock[r] == res.rowBlock[0] {
      DenseJoinsRows(n, mt, r, 0);
    }
    ImageIsBelow(res.rowBlock, |res.dag|);
    assert Image(res.rowBlock) == {res.rowBlock[0]};
    assert |res.dag| == 1;
    assert res.rowBlock[0] in Below(1);
    var owner := InvertMatching(mt);
    forall c | 0 <= c < n ensures res.colBlock[c] == 0 {
      assert res.colBlock[mt[owner[c]]] == res.rowBlock[owner[c]];
    }
    assert IsBlockDag(a, mt, res);
    EmptyIffNoMember(res.dag[0]);
  }

  /** Rows 0 and 1 use columns 0 and 1, rows 2 and 3 use columns 2 and 3, and
      row 2 also uses column 1. */
  function Chain(): (a: Incidence)
    ensures WellFormed(a) && a.rows == 4 && a.cols == 4
  {
    Incidence(4, 4, [[true, true, false, false],
                     [true, true, false, false],
                     [false, true, true, true],
                     [false, false, true, true]])
  }

  /** The row digraph of Chain, written out: rows 0 and 1 point at each other,
      so do rows 2 and 3, and row 2 also points at row 1. */
  function ChainGraph(): (g: Adjacency)
    ensures IsSquare(g) && |g| == 4
  {
    [[false, true, false, false],
     [true, false, false, false],
     [false, true, false, true],
     [false, false, true, false]]
  }

  lemma ChainDigraph()
    ensures RowDigraph(Chain(), Identity(4)) == ChainGraph()
  {
    var g := RowDigraph(Chain(), Identity(4));
    assert g[0] == ChainGraph()[0];
    assert g[1] == ChainGraph()[1];
    assert g[2] == ChainGraph()[2];
    assert g[3] == ChainGraph()[3];
  }

  /** No edge of the row digraph of Chain leaves rows 0 and 1. */
  lemma ChainFirstRowsClosed()
    ensures forall x: nat, y: nat :: x in {0, 1} && Edge(ChainGraph(), x, y) ==> y in {0, 1}
  {
    var g := ChainGraph();
    forall x: nat, y: nat | x in {0, 1} && Edge(g, x, y) ensures y in {0, 1} {
      assert y < 4 && g[x][y];
      if x == 0 {
        assert g[0] == [false, true, false, false];
      } else {
        assert g[1] == [true, false, false, false];
      }
    }
  }

  /** Rows 0 and 1 reach each other, so do rows 2 and 3, and no edge leaves
      rows 0 and 1, so rows 1 and 2 lie in different components. */
  lemma ChainComponents()
    ensures SameComponent(RowDigraph(Chain(), Identity(4)), 0, 1)
    ensures SameComponent(RowDigraph(Chain(), Identity(4)), 2, 3)
    ensures !SameComponent(RowDigraph(Chain(), Identity(4)), 1, 2)
  {
    ChainDigraph();
    var g := ChainGraph();
    ReachableEdge(g, 0, 1);
    ReachableEdge(g, 1, 0);
    ReachableEdge(g, 2, 3);
    ReachableEdge(g, 3, 2);
    ChainFirstRowsClosed();
    ClosedSetUnreachable(g, {0, 1}, 1, 2);
  }

  /** An injective sequence whose values all lie in a set t is no longer than t. */
  lemma InjectiveWithin(s: seq<nat>, t: set<nat>)
    requires Injective(s)
    requires forall i :: 0 <= i < |s| ==> s[i] in t
    ensures |s| <= |t|
  {
    ImageSize(s);
    SubsetSize(Image(s), t);
  }

  /** Rows 0 and 1 share a block, rows 2 and 3 share another. */
  lemma ChainGrouping(res: Blocks)
    requires ValidInput(Chain(), Identity(4)) && RowBlocksAreComponents(Chain(), Identity(4), res)
    ensures |res.rowBlock| == 4
    ensures res.rowBlock[1] == res.rowBlock[0] && res.rowBlock[3] == res.rowBlock[2]
  {
    ChainComponents();
  }

  /** Row 2 uses column 1, matched to row 1 of the other component, so the
      block of rows 0 and 1 comes first. */
  lemma ChainOrder(res: Blocks)
    requires ValidInput(Chain(), Identity(4)) && RowBlocksAreComponents(Chain(), Identity(4), res)
    requires ColumnBlocksFollowMatching(Chain(), Identity(4), res)
    requires IsBlockLowerTriangular(Chain(), Identity(4), res)
    ensures res.rowBlock[1] < res.rowBlock[2]
  {
    ChainComponents();
    assert Chain().nz[2][Identity(4)[1]];
  }

  /** Blocks numbered 0 to B-1, four rows in two blocks, the first two rows
      in the earlier block: then B is 2 and the blocks are 0, 0, 1, 1. */
  lemma TwoBlocks(rb: seq<nat>, B: nat)
    requires |rb| == 4 && rb[1] == rb[0] && rb[3] == rb[2] && rb[0] < rb[2]
    requires Image(rb) == Below(B)
    ensures B == 2 && rb == [0, 0, 1, 1]
  {
    assert rb[0] in Image(rb) && rb[2] in Image(rb);
    assert forall x :: x in Image(rb) ==> x == rb[0] || x == rb[2];
    assert 0 in Below(B) && 1 in Below(B) && (2 in Below(B) <==> 2 < B);
    assert rb == [rb[0], rb[0], rb[2], rb[2]];
  }

  /** The rows of the block-lower-triangular matrix fall into two blocks, rows
      0 and 1 first. */
  lemma ChainRowBlocks(res: Blocks)
    requires IsBlockTriangularization(Chain(), Identity(4), res)
    ensures res.rowBlock == [0, 0, 1, 1] && |res.dag| == 2
  {
    ChainGrouping(res);
    ChainOrder(res);
    ImageIsBelow(res.rowBlock, |res.dag|);
    TwoBlocks(res.rowBlock, |res.dag|);
  }

  /** Its block DAG has the single edge from block 0 to block 1. */
  lemma ChainDag(res: Blocks)
    requires ValidInput(Chain(), Identity(4))
    requires res.rowBlock == [0, 0, 1, 1] && |res.dag| == 2
    requires IsBlockDag(Chain(), Identity(4), res)
    ensures res.dag == [[1], []]
  {
    var a, mt := Chain(), Identity(4);
    assert BlockUsesBlock(a, mt, res.rowBlock, 1, 0) by {
      assert res.rowBlock[2] == 1 && res.rowBlock[1] == 0 && a.nz[2][mt[1]];
    }
    assert 1 in res.dag[0];
    InjectiveWithin(res.dag[0], {1});
    assert res.dag[0] == [1] by {
      assert |res.dag[0]| == 1 && 0 < res.dag[0][0] < 2;
    }
    EmptyIffNoMember(res.dag[1]);
    assert res.dag[1] == [];
    assert res.dag == [res.dag[0], res.dag[1]];
  }

  /** The matrix that is already block lower triangular, with the identity
      matching, has exactly two blocks: rows 0 and 1 come first, rows 2 and 3
      second, and the second depends on the first. */
  lemma ChainHasTwoOrderedBlocks(res: Blocks)
    requires IsBlockTriangularization(Chain(), Identity(4), res)
    ensures res.rowBlock == [0, 0, 1, 1]
    ensures res.colBlock == [0, 0, 1, 1]
    ensures res.dag == [[1], []]
  {
    var a, mt := Chain(), Identity(4);
    ChainRowBlocks(res);
    assert ColumnBlocksFollowMatching(a, mt, res);
    assert res.colBlock == [0, 0, 1, 1] by {
      assert res.colBlock[mt[0]] == 0 && res.colBlock[mt[1]] == 0;
      assert res.colBlock[mt[2]] == 1 && res.colBlock[mt[3]] == 1;
    }
    ChainDag(res);
  }

  /** b is a with row r renamed p[r] and column c renamed q[c], and with the
      matching carried along: row p[r] is matched to column q[mt[r]]. */
  predicate IsRelabelling(a: Incidence, mt: seq<nat>, b: Incidence, mt2: seq<nat>, p: seq<nat>, q: seq<nat>) {
    && ValidInput(a, mt) && ValidInput(b, mt2) && b.rows == a.rows
    && |p| == a.rows && IsPermutation(p) && |q| == a.cols && IsPermutation(q)
    && (forall r, c :: 0 <= r < a.rows && 0 <= c < a.cols ==> b.nz[p[r]][q[c]] == a.nz[r][c])
    && (forall r :: 0 <= r < a.rows ==> mt2[p[r]] == q[mt[r]])
  }

  /** Renaming rows renames the edges of the row digraph and nothing else. */
  lemma RelabelledEdge(a: Incidence, mt: seq<nat>, b: Incidence, mt2: seq<nat>, p: seq<nat>, q: seq<nat>, u: nat, v: nat)
    requires IsRelabelling(a, mt, b, mt2, p, q) && u < a.rows && v < a.rows
    ensures Edge(RowDigraph(a, mt), u, v) <==> Edge(RowDigraph(b, mt2), p[u], p[v])
  {
    assert p[u] == p[v] ==> u == v;
  }

  /** Renaming rows keeps strongly connected components together. */
  lemma RelabellingKeepsComponents(a: Incidence, mt: seq<nat>, b: Incidence, mt2: seq<nat>, p: seq<nat>, q: seq<nat>)
    requires IsRelabelling(a, mt, b, mt2, p, q)
    ensures forall u, v :: 0 <= u < a.rows && 0 <= v < a.rows ==>
      (SameComponent(RowDigraph(a, mt), u, v) <==> SameComponent(RowDigraph(b, mt2), p[u], p[v]))
  {
    var g, h := RowDigraph(a, mt), RowDigraph(b, mt2);
    var back := InvertMatching(p);
    forall x, y | 0 <= x < |g| && 0 <= y < |g| && Edge(g, x, y) ensures Edge(h, p[x], p[y]) {
      RelabelledEdge(a, mt, b, mt2, p, q, x, y);
    }
    forall x, y | 0 <= x < |h| && 0 <= y < |h| && Edge(h, x, y) ensures Edge(g, back[x], back[y]) {
      RelabelledEdge(a, mt, b, mt2, p, q, back[x], back[y]);
    }
    forall u, v | 0 <= u < a.rows && 0 <= v < a.rows
      ensures SameComponent(g, u, v) <==> SameComponent(h, p[u], p[v])
    {
      if SameComponent(g, u, v) {
        ReachableAlongHomomorphism(g, h, p, u, v);
        ReachableAlongHomomorphism(g, h, p, v, u);
      }
      if SameComponent(h, p[u], p[v]) {
        ReachableAlongHomomorphism(h, g, back, p[u], p[v]);
        ReachableAlongHomomorphism(h, g, back, p[v], p[u]);
      }
    }
  }

  /** Two rows share a block before renaming exactly when they share one after. */
  lemma RelabellingKeepsRowGrouping(a: Incidence, mt: seq<nat>, b: Incidence, mt2: seq<nat>, p: seq<nat>, q: seq<nat>,
                                    res: Blocks, res2: Blocks)
    requires IsRelabelling(a, mt, b, mt2, p, q)
    requires RowBlocksAreComponents(a, mt, res) && RowBlocksAreComponents(b, mt2, res2)
    ensures forall r1, r2 :: 0 <= r1 < a.rows && 0 <= r2 < a.rows ==>
      (res.rowBlock[r1] == res.rowBlock[r2] <==> res2.rowBlock[p[r1]] == res2.rowBlock[p[r2]])
  {
    RelabellingKeepsComponents(a, mt, b, mt2, p, q);
  }

  /** Two columns share a block before renaming exactly when they share one after. */
  lemma RelabellingKeepsColumnGrouping(a: Incidence, mt: seq<nat>, b: Incidence, mt2: seq<nat>, p: seq<nat>, q: seq<nat>,
                                       res: Blocks, res2: Blocks)
    requires IsRelabelling(a, mt, b, mt2, p, q)
    requires |res.rowBlock| == a.rows && ColumnBlocksFollowMatching(a, mt, res)
    requires |res2.rowBlock| == b.rows && ColumnBlocksFollowMatching(b, mt2, res2)
    requires forall r1, r2 :: 0 <= r1 < a.rows && 0 <= r2 < a.rows ==>
      (res.rowBlock[r1] == res.rowBlock[r2] <==> res2.rowBlock[p[r1]] == res2.rowBlock[p[r2]])
    ensures forall c1, c2 :: 0 <= c1 < a.cols && 0 <= c2 < a.cols ==>
      (res.colBlock[c1] == res.colBlock[c2] <==> res2.colBlock[q[c1]] == res2.colBlock[q[c2]])
  {
    var owner := InvertMatching(mt);
    forall c | 0 <= c < a.cols
      ensures res.colBlock[c] == res.rowBlock[owner[c]]
      ensures res2.colBlock[q[c]] == res2.rowBlock[p[owner[c]]]
    {
      assert mt[owner[c]] == c;
      assert mt2[p[owner[c]]] == q[c];
    }
  }

  /** Renaming rows keeps the number of blocks. */
  lemma RelabellingKeepsBlockCount(a: Incidence, mt: seq<nat>, b: Incidence, mt2: seq<nat>, p: seq<nat>, q: seq<nat>,
                                   res: Blocks, res2: Blocks)
    requires IsRelabelling(a, mt, b, mt2, p, q)
    requires RowBlocksAreComponents(a, mt, res) && RowBlocksAreComponents(b, mt2, res2)
    requires forall r1, r2 :: 0 <= r1 < a.rows && 0 <= r2 < a.rows ==>
      (res.rowBlock[r1] == res.rowBlock[r2] <==> res2.rowBlock[p[r1]] == res2.rowBlock[p[r2]])
    ensures |res.dag| == |res2.dag|
  {
    var renamed := Compose(res2.rowBlock, p);
    SameGroupingSameCount(res.rowBlock, renamed);
    ComposeImage(res2.rowBlock, p);
    ImageIsBelow(res.rowBlock, |res.dag|);
    ImageIsBelow(res2.rowBlock, |res2.dag|);
  }

  /** s read through the renaming p: position r holds s[p[r]]. */
  function Compose(s: seq<nat>, p: seq<nat>): (t: seq<nat>)
    requires forall r :: 0 <= r < |p| ==> p[r] < |s|
    ensures |t| == |p| && forall r :: 0 <= r < |p| ==> t[r] == s[p[r]]
  {
    seq(|p|, r requires 0 <= r < |p| => s[p[r]])
  }

  /** Reading a sequence through a permutation keeps its values. */
  lemma ComposeImage(s: seq<nat>, p: seq<nat>)
    requires |p| == |s| && IsPermutation(p)
    ensures Image(Compose(s, p)) == Image(s)
  {
    var t := Compose(s, p);
    var back := InvertMatching(p);
    forall x ensures x in Image(t) <==> x in Image(s) {
      if x in Image(s) {
        var r :| 0 <= r < |s| && s[r] == x;
        assert t[back[r]] == x;
      }
      if x in Image(t) {
        var r :| 0 <= r < |t| && t[r] == x;
        assert s[p[r]] == x;
      }
    }
  }

  /** A block uses another before renaming exactly when their renamed blocks
      do after. */
  lemma RelabellingKeepsUse(a: Incidence, mt: seq<nat>, b: Incidence, mt2: seq<nat>, p: seq<nat>, q: seq<nat>,
                            rb: seq<nat>, rb2: seq<nat>, r1: nat, r2: nat)
    requires IsRelabelling(a, mt, b, mt2, p, q) && |rb| == a.rows && |rb2| == b.rows
    requires forall u, v :: 0 <= u < a.rows && 0 <= v < a.rows ==> (rb[u] == rb[v] <==> rb2[p[u]] == rb2[p[v]])
    requires r1 < a.rows && r2 < a.rows
    ensures BlockUsesBlock(a, mt, rb, rb[r1], rb[r2]) <==> BlockUsesBlock(b, mt2, rb2, rb2[p[r1]], rb2[p[r2]])
  {
    if BlockUsesBlock(a, mt, rb, rb[r1], rb[r2]) {
      RenamedUse(a, mt, b, mt2, p, q, rb, rb2, r1, r2);
    }
    if BlockUsesBlock(b, mt2, rb2, rb2[p[r1]], rb2[p[r2]]) {
      OriginalUse(a, mt, b, mt2, p, q, rb, rb2, r1, r2);
    }
  }

  lemma RenamedUse(a: Incidence, mt: seq<nat>, b: Incidence, mt2: seq<nat>, p: seq<nat>, q: seq<nat>,
                   rb: seq<nat>, rb2: seq<nat>, r1: nat, r2: nat)
    requires IsRelabelling(a, mt, b, mt2, p, q) && |rb| == a.rows && |rb2| == b.rows
    requires forall u, v :: 0 <= u < a.rows && 0 <= v < a.rows ==> (rb[u] == rb[v] <==> rb2[p[u]] == rb2[p[v]])
    requires r1 < a.rows && r2 < a.rows
    requires BlockUsesBlock(a, mt, rb, rb[r1], rb[r2])
    ensures BlockUsesBlock(b, mt2, rb2, rb2[p[r1]], rb2[p[r2]])
  {
    var u, v :| 0 <= u < a.rows && 0 <= v < a.rows && rb[u] == rb[r1] && rb[v] == rb[r2] && a.nz[u][mt[v]];
    assert mt2[p[v]] == q[mt[v]];
    assert b.nz[p[u]][mt2[p[v]]];
    assert rb2[p[u]] == rb2[p[r1]] && rb2[p[v]] == rb2[p[r2]];
  }

  lemma OriginalUse(a: Incidence, mt: seq<nat>, b: Incidence, mt2: seq<nat>, p: seq<nat>, q: seq<nat>,
                    rb: seq<nat>, rb2: seq<nat>, r1: nat, r2: nat)
    requires IsRelabelling(a, mt, b, mt2, p, q) && |rb| == a.rows && |rb2| == b.rows
    requires forall u, v :: 0 <= u < a.rows && 0 <= v < a.rows ==> (rb[u] == rb[v] <==> rb2[p[u]] == rb2[p[v]])
    requires r1 < a.rows && r2 < a.rows
    requires BlockUsesBlock(b, mt2, rb2, rb2[p[r1]], rb2[p[r2]])
    ensures BlockUsesBlock(a, mt, rb, rb[r1], rb[r2])
  {
    var u', v' :| 0 <= u' < b.rows && 0 <= v' < b.rows && rb2[u'] == rb2[p[r1]] && rb2[v'] == rb2[p[r2]] && b.nz[u'][mt2[v']];
    var back := InvertMatching(p);
    var u, v := back[u'], back[v'];
    assert p[u] == u' && p[v] == v';
    assert mt2[p[v]] == q[mt[v]];
    assert a.nz[u][mt[v]];
    assert rb[u] == rb[r1] && rb[v] == rb[r2];
  }

  /** The block DAG has the same edges before and after renaming, block for renamed block. */
  lemma RelabellingKeepsDag(a: Incidence, mt: seq<nat>, b: Incidence, mt2: seq<nat>, p: seq<nat>, q: seq<nat>,
                            res: Blocks, res2: Blocks)
    requires IsRelabelling(a, mt, b, mt2, p, q)
    requires RowBlocksAreComponents(a, mt, res) && RowBlocksAreComponents(b, mt2, res2)
    requires IsBlockDag(a, mt, res) && IsBlockDag(b, mt2, res2)
    requires forall r1, r2 :: 0 <= r1 < a.rows && 0 <= r2 < a.rows ==>
      (res.rowBlock[r1] == res.rowBlock[r2] <==> res2.rowBlock[p[r1]] == res2.rowBlock[p[r2]])
    ensures forall r1, r2 :: 0 <= r1 < a.rows && 0 <= r2 < a.rows ==>
      (res.rowBlock[r1] in res.dag[res.rowBlock[r2]] <==> res2.rowBlock[p[r1]] in res2.dag[res2.rowBlock[p[r2]]])
  {
    forall r1, r2 | 0 <= r1 < a.rows && 0 <= r2 < a.rows
      ensures res.rowBlock[r1] in res.dag[res.rowBlock[r2]] <==> res2.rowBlock[p[r1]] in res2.dag[res2.rowBlock[p[r2]]]
    {
      RelabellingKeepsUse(a, mt, b, mt2, p, q, res.rowBlock, res2.rowBlock, r1, r2);
    }
  }

  /** Renaming rows and columns consistently, matching included, renames the
      result: the same rows and the same columns share a block, there are as
      many blocks, and the block DAG has the same edges. */
  lemma RelabellingKeepsBlocks(a: Incidence, mt: seq<nat>, b: Incidence, mt2: seq<nat>, p: seq<nat>, q: seq<nat>,
                               res: Blocks, res2: Blocks)
    requires IsRelabelling(a, mt, b, mt2, p, q)
    requires IsBlockTriangularization(a, mt, res) && IsBlockTriangularization(b, mt2, res2)
    ensures forall r1, r2 :: 0 <= r1 < a.rows && 0 <= r2 < a.rows ==>
      (res.rowBlock[r1] == res.rowBlock[r2] <==> res2.rowBlock[p[r1]] == res2.rowBlock[p[r2]])
    ensures forall c1, c2 :: 0 <= c1 < a.cols && 0 <= c2 < a.cols ==>
      (res.colBlock[c1] == res.colBlock[c2] <==> res2.colBlock[q[c1]] == res2.colBlock[q[c2]])
    ensures |res.dag| == |res2.dag|
    ensures forall r1, r2 :: 0 <= r1 < a.rows && 0 <= r2 < a.rows ==>
      (res.rowBlock[r1] in res.dag[res.rowBlock[r2]] <==> res2.rowBlock[p[r1]] in res2.dag[res2.rowBlock[p[r2]]])
  {
    RelabellingKeepsRowGrouping(a, mt, b, mt2, p, q, res, res2);
    RelabellingKeepsColumnGrouping(a, mt, b, mt2, p, q, res, res2);
    RelabellingKeepsBlockCount(a, mt, b, mt2, p, q, res, res2);
    RelabellingKeepsDag(a, mt, b, mt2, p, q, res, res2);
  }
}
