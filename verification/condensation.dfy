/** The condensation of a digraph by its strongly connected components, with
    every edge reversed, and a topological order of it computed by Kahn's
    algorithm (ties broken by the smallest component name). */
module Condensation {
  import opened Sequences
  import opened Digraph
  import opened Components

  /** Condensed edge x -> y between two different components: some node of y
      has an edge (in g) into some node of x. The direction is the reverse of
      the edge in g, so x must be ordered before y. */
  predicate CondensedEdge(g: Adjacency, lab: seq<nat>, x: nat, y: nat) {
    && x != y
    && exists u: nat, v: nat | u < |lab| && v < |lab| :: lab[u] == y && lab[v] == x && Edge(g, u, v)
  }

  /** order lists every component of lab exactly once and puts the source of
      every condensed edge before its target. */
  predicate IsTopologicalOrder(g: Adjacency, lab: seq<nat>, order: seq<nat>) {
    && (forall i :: 0 <= i < |order| ==> IsRoot(lab, order[i]))
    && Injective(order)
    && (forall x: nat | x < |lab| :: IsRoot(lab, x) ==> x in order)
    && (forall i, j :: 0 <= i < |order| && 0 <= j < |order| && CondensedEdge(g, lab, order[i], order[j]) ==> i < j)
  }

  /** All components of lab from node `from` on, in increasing order. */
  function Roots(lab: seq<nat>, from: nat): (s: seq<nat>)
    requires from <= |lab|
    ensures forall x: nat :: x in s <==> from <= x && IsRoot(lab, x)
    ensures forall i :: 0 <= i < |s| ==> from <= s[i]
    ensures Increasing(s)
    decreases |lab| - from
  {
    if from == |lab| then []
    else if lab[from] == from then [from] + Roots(lab, from + 1)
    else Roots(lab, from + 1)
  }

  /** The number of nodes reachable from x: it strictly grows along condensed edges. */
  function Reach(g: Adjacency, x: nat): nat
    requires IsSquare(g) && x < |g|
  {
    CountTrue(Closure(g)[x])
  }

  /** Along a condensed edge x -> y the target reaches strictly more nodes than
      the source, so the condensation has no cycle. */
  lemma ReachGrowsAlongEdges(g: Adjacency, lab: seq<nat>, x: nat, y: nat)
    requires IsSquare(g) && IsComponentLabelling(g, lab)
    requires IsRoot(lab, x) && IsRoot(lab, y)
    ensures CondensedEdge(g, lab, x, y) ==> Reach(g, x) < Reach(g, y)
  {
    if CondensedEdge(g, lab, x, y) {
      var u: nat, v: nat :| u < |lab| && v < |lab| && lab[u] == y && lab[v] == x && Edge(g, u, v);
      assert SameComponent(g, y, u) && SameComponent(g, v, x);
      ReachableEdge(g, u, v);
      ReachableTrans(g, y, u, v);
      ReachableTrans(g, y, v, x);
      assert !Reachable(g, x, y) by {
        assert lab[x] != lab[y];
      }
      ReachGrows(g, x, y);
    }
  }

  /** A node that reaches x without being reachable from x reaches strictly
      more nodes than x does. */
  lemma ReachGrows(g: Adjacency, x: nat, y: nat)
    requires IsSquare(g) && x < |g| && y < |g|
    requires Reachable(g, y, x) && !Reachable(g, x, y)
    ensures Reach(g, x) < Reach(g, y)
  {
    ReachSubsumes(g, y, x);
    ReachableRefl(g, y);
    var r := Closure(g);
    assert r[y][y] && !r[x][y];
    CountTrueMonotone(r[x], r[y]);
  }

  /** A node reaches everything the nodes it reaches do. */
  lemma ReachSubsumes(g: Adjacency, y: nat, x: nat)
    requires IsSquare(g) && x < |g| && y < |g| && Reachable(g, y, x)
    ensures forall w :: 0 <= w < |g| && Closure(g)[x][w] ==> Closure(g)[y][w]
  {
    forall w | 0 <= w < |g| && Closure(g)[x][w] ensures Closure(g)[y][w] {
      ReachableTrans(g, y, x, w);
    }
  }

  /** The number of nodes each entry of s reaches. */
  function ReachCounts(g: Adjacency, s: seq<nat>): (reach: seq<nat>)
    requires IsSquare(g) && forall i :: 0 <= i < |s| ==> s[i] < |g|
    ensures |reach| == |s|
    ensures forall i :: 0 <= i < |s| ==> reach[i] == Reach(g, s[i])
  {
    seq(|s|, i requires 0 <= i < |s| => Reach(g, s[i]))
  }

  /** x has no incoming condensed edge from any component listed in s. */
  predicate IsSource(g: Adjacency, lab: seq<nat>, s: seq<nat>, x: nat) {
    forall w :: w in s ==> !CondensedEdge(g, lab, w, x)
  }

  /** Every non-empty set of components has one without incoming condensed edges. */
  lemma SourceExists(g: Adjacency, lab: seq<nat>, s: seq<nat>)
    requires IsSquare(g) && IsComponentLabelling(g, lab)
    requires |s| > 0 && forall i :: 0 <= i < |s| ==> IsRoot(lab, s[i])
    ensures exists k :: 0 <= k < |s| && IsSource(g, lab, s, s[k])
  {
    // a component of s that reaches the fewest nodes
    var reach := ReachCounts(g, s);
    var m := ArgMin(reach);
    forall w | w in s ensures !CondensedEdge(g, lab, w, s[m]) {
      var i :| 0 <= i < |s| && s[i] == w;
      assert Reach(g, s[m]) <= Reach(g, w) by {
        assert reach[m] <= reach[i];
      }
      ReachGrowsAlongEdges(g, lab, w, s[m]);
    }
    assert IsSource(g, lab, s, s[m]);
  }

  /** The first position from i on that holds a source of s. */
  function FirstSource(g: Adjacency, lab: seq<nat>, s: seq<nat>, i: nat): (k: nat)
    requires i <= |s|
    requires exists j :: i <= j < |s| && IsSource(g, lab, s, s[j])
    ensures i <= k < |s| && IsSource(g, lab, s, s[k])
    ensures forall j :: i <= j < k ==> !IsSource(g, lab, s, s[j])
    decreases |s| - i
  {
    if IsSource(g, lab, s, s[i]) then i else FirstSource(g, lab, s, i + 1)
  }

  /** Kahn's algorithm: repeatedly emit the first remaining component that no
      remaining component has a condensed edge into. */
  function Kahn(g: Adjacency, lab: seq<nat>, s: seq<nat>): (order: seq<nat>)
    requires IsSquare(g) && IsComponentLabelling(g, lab)
    requires forall i :: 0 <= i < |s| ==> IsRoot(lab, s[i])
    requires Injective(s)
    ensures |order| == |s| && Injective(order)
    ensures forall x :: x in order <==> x in s
    ensures forall i, j :: 0 <= i < |order| && 0 <= j < |order| && CondensedEdge(g, lab, order[i], order[j]) ==> i < j
    decreases |s|
  {
    if s == [] then []
    else
      SourceExists(g, lab, s);
      var k := FirstSource(g, lab, s, 0);
      var rest := s[..k] + s[k + 1..];
      RemoveAt(s, k);
      var tail := Kahn(g, lab, rest);
      PrependSource(g, lab, s, k, tail);
      [s[k]] + tail
  }

  lemma RemoveAt(s: seq<nat>, k: nat)
    requires k < |s| && Injective(s)
    ensures |s[..k] + s[k + 1..]| == |s| - 1
    ensures Injective(s[..k] + s[k + 1..])
    ensures forall x :: x in s[..k] + s[k + 1..] <==> x in s && x != s[k]
  {
    var rest := s[..k] + s[k + 1..];
    assert forall i :: 0 <= i < |rest| ==> rest[i] == if i < k then s[i] else s[i + 1];
    forall x ensures x in rest <==> x in s && x != s[k] {
      if x in s && x != s[k] {
        var i :| 0 <= i < |s| && s[i] == x;
        assert rest[if i < k then i else i - 1] == x;
      }
    }
  }

  /** Emitting a source of s in front of a topological order of the rest of s
      gives a topological order of s. */
  lemma PrependSource(g: Adjacency, lab: seq<nat>, s: seq<nat>, k: nat, tail: seq<nat>)
    requires k < |s| && Injective(s) && IsSource(g, lab, s, s[k])
    requires |tail| == |s| - 1 && Injective(tail)
    requires forall x :: x in tail <==> x in s && x != s[k]
    requires forall i, j :: 0 <= i < |tail| && 0 <= j < |tail| && CondensedEdge(g, lab, tail[i], tail[j]) ==> i < j
    ensures Injective([s[k]] + tail)
    ensures forall x :: x in [s[k]] + tail <==> x in s
    ensures forall i, j :: 0 <= i < |tail| + 1 && 0 <= j < |tail| + 1 && CondensedEdge(g, lab, ([s[k]] + tail)[i], ([s[k]] + tail)[j]) ==> i < j
  {
    var order := [s[k]] + tail;
    forall i, j | 0 <= i < j < |order| ensures order[i] != order[j] {
      assert order[j] == tail[j - 1] && tail[j - 1] in tail;
      if i > 0 {
        assert order[i] == tail[i - 1];
      }
    }
    forall i, j | 0 <= i < |order| && 0 <= j < |order| && CondensedEdge(g, lab, order[i], order[j])
      ensures i < j
    {
      if i > 0 && j > 0 {
        assert order[i] == tail[i - 1] && order[j] == tail[j - 1];
      }
    }
  }

  /** Kahn's algorithm applied to all components yields a topological order of the condensation. */
  function TopologicalOrder(g: Adjacency, lab: seq<nat>): (order: seq<nat>)
    requires IsSquare(g) && IsComponentLabelling(g, lab)
    ensures IsTopologicalOrder(g, lab, order)
  {
    var roots := Roots(lab, 0);
    Kahn(g, lab, roots)
  }
}
