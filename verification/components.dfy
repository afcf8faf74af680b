/** Strongly connected components of a digraph: nodes are grouped by mutual
    reachability, and each component is named by its smallest node. */
module Components {
  import opened Digraph

  /** u and v lie on a common closed walk: each reaches the other. */
  ghost predicate SameComponent(g: Adjacency, u: nat, v: nat) {
    Reachable(g, u, v) && Reachable(g, v, u)
  }

  /** lab assigns every node a component name, the name is itself a node of
      that component, and two nodes share a name exactly when they are
      mutually reachable. */
  ghost predicate IsComponentLabelling(g: Adjacency, lab: seq<nat>) {
    && |lab| == |g|
    && (forall u :: 0 <= u < |lab| ==> lab[u] < |lab| && lab[lab[u]] == lab[u])
    && (forall u, v :: 0 <= u < |lab| && 0 <= v < |lab| ==>
          (lab[u] == lab[v] <==> SameComponent(g, u, v)))
  }

  /** The node x names a component of lab. */
  predicate IsRoot(lab: seq<nat>, x: nat) {
    x < |lab| && lab[x] == x
  }

  /** The first node from w on that is mutually reachable with u, read off the closure r. */
  function FirstMutual(r: Adjacency, u: nat, w: nat): (x: nat)
    requires IsSquare(r) && u < |r| && w <= u && r[u][u]
    ensures w <= x <= u && r[u][x] && r[x][u]
    ensures forall y :: w <= y < x ==> !(r[u][y] && r[y][u])
    decreases u - w
  {
    if r[u][w] && r[w][u] then w else FirstMutual(r, u, w + 1)
  }

  /** Labels every node by the smallest node of its strongly connected component. */
  function ComponentLabels(g: Adjacency): (lab: seq<nat>)
    requires IsSquare(g)
    ensures IsComponentLabelling(g, lab)
    ensures forall u :: 0 <= u < |lab| ==> lab[u] <= u
    ensures forall u, w :: 0 <= u < |lab| && 0 <= w < lab[u] ==> !SameComponent(g, u, w)
  {
    var r := Closure(g);
    ClosureReflexive(g);
    var lab := seq(|g|, u requires 0 <= u < |g| => FirstMutual(r, u, 0));
    LeastMutualIsLabelling(g, lab);
    lab
  }

  lemma ClosureReflexive(g: Adjacency)
    requires IsSquare(g)
    ensures forall u :: 0 <= u < |g| ==> Closure(g)[u][u]
  {
    forall u | 0 <= u < |g| ensures Closure(g)[u][u] {
      ReachableRefl(g, u);
    }
  }

  lemma SameComponentTrans(g: Adjacency, u: nat, w: nat, v: nat)
    requires SameComponent(g, u, w) && SameComponent(g, w, v)
    ensures SameComponent(g, u, v)
  {
    ReachableTrans(g, u, w, v);
    ReachableTrans(g, v, w, u);
  }

  /** Naming each node by the least node it is mutually reachable with yields a component labelling. */
  lemma LeastMutualIsLabelling(g: Adjacency, lab: seq<nat>)
    requires IsSquare(g) && |lab| == |g|
    requires forall u :: 0 <= u < |g| ==> Closure(g)[u][u]
    requires forall u :: 0 <= u < |g| ==> lab[u] == FirstMutual(Closure(g), u, 0)
    ensures IsComponentLabelling(g, lab)
    ensures forall u :: 0 <= u < |lab| ==> lab[u] <= u
    ensures forall u, w :: 0 <= u < |lab| && 0 <= w < lab[u] ==> !SameComponent(g, u, w)
  {
    forall u, v | 0 <= u < |g| && 0 <= v < |g|
      ensures lab[u] == lab[v] <==> SameComponent(g, u, v)
    {
      SameLabelIffSameComponent(g, lab, u, v);
    }
    forall u | 0 <= u < |g|
      ensures lab[u] <= u && lab[lab[u]] == lab[u]
      ensures forall w :: 0 <= w < lab[u] ==> !SameComponent(g, u, w)
    {
      LabelIsLeastMutual(g, lab, u);
      SameLabelIffSameComponent(g, lab, lab[u], u);
    }
  }

  lemma LabelIsLeastMutual(g: Adjacency, lab: seq<nat>, u: nat)
    requires IsSquare(g) && |lab| == |g| && u < |g|
    requires forall u :: 0 <= u < |g| ==> Closure(g)[u][u]
    requires forall u :: 0 <= u < |g| ==> lab[u] == FirstMutual(Closure(g), u, 0)
    ensures lab[u] <= u && SameComponent(g, u, lab[u])
    ensures forall w :: 0 <= w < lab[u] ==> !SameComponent(g, u, w)
  {
    var r := Closure(g);
    var l := FirstMutual(r, u, 0);
    assert lab[u] == l && r[u][l] && r[l][u];
    forall w | 0 <= w < l ensures !SameComponent(g, u, w) {
      assert !(r[u][w] && r[w][u]);
    }
  }

  lemma SameLabelIffSameComponent(g: Adjacency, lab: seq<nat>, u: nat, v: nat)
    requires IsSquare(g) && |lab| == |g| && u < |g| && v < |g|
    requires forall u :: 0 <= u < |g| ==> Closure(g)[u][u]
    requires forall u :: 0 <= u < |g| ==> lab[u] == FirstMutual(Closure(g), u, 0)
    ensures lab[u] == lab[v] <==> SameComponent(g, u, v)
  {
    LabelIsLeastMutual(g, lab, u);
    LabelIsLeastMutual(g, lab, v);
    if lab[u] == lab[v] {
      ReachableTrans(g, u, lab[u], v);
      ReachableTrans(g, v, lab[u], u);
    }
    if SameComponent(g, u, v) {
      SameComponentTrans(g, v, u, lab[u]);
      SameComponentTrans(g, u, v, lab[v]);
    }
  }
}
