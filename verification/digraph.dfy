/** Directed graphs on the nodes {0, ..., n-1}, given by an n-by-n boolean
    adjacency matrix, with reachability along paths and its computation as a
    transitive closure (Warshall's algorithm). */
module Digraph {

  /** g[u][v] holds when there is an edge u -> v. */
  type Adjacency = seq<seq<bool>>

  predicate IsSquare(g: Adjacency) {
    forall u :: 0 <= u < |g| ==> |g[u]| == |g|
  }

  predicate Edge(g: Adjacency, u: nat, v: nat) {
    u < |g| && v < |g[u]| && g[u][v]
  }

  /** p is a non-empty walk in g: every node exists and consecutive nodes are joined by an edge. */
  ghost predicate IsPath(g: Adjacency, p: seq<nat>) {
    && |p| >= 1
    && (forall i :: 0 <= i < |p| ==> p[i] < |g|)
    && (forall i :: 0 <= i < |p| - 1 ==> Edge(g, p[i], p[i + 1]))
  }

  /** Every node strictly inside p (neither its first nor its last) is below k. */
  ghost predicate InteriorBelow(p: seq<nat>, k: nat) {
    forall i :: 0 < i < |p| - 1 ==> p[i] < k
  }

  /** v can be reached from u by following zero or more edges. */
  ghost predicate Reachable(g: Adjacency, u: nat, v: nat) {
    exists p :: IsPath(g, p) && p[0] == u && p[|p| - 1] == v
  }

  lemma ReachableRefl(g: Adjacency, u: nat)
    requires u < |g|
    ensures Reachable(g, u, u)
  {
    assert IsPath(g, [u]);
  }

  lemma ReachableEdge(g: Adjacency, u: nat, v: nat)
    requires Edge(g, u, v) && IsSquare(g)
    ensures Reachable(g, u, v)
  {
    assert IsPath(g, [u, v]);
  }

  /** Walks compose. */
  lemma ReachableTrans(g: Adjacency, u: nat, w: nat, v: nat)
    requires Reachable(g, u, w) && Reachable(g, w, v)
    ensures Reachable(g, u, v)
  {
    var p :| IsPath(g, p) && p[0] == u && p[|p| - 1] == w;
    var q :| IsPath(g, q) && q[0] == w && q[|q| - 1] == v;
    var pq := p + q[1..];
    forall i | 0 <= i < |pq| - 1
      ensures Edge(g, pq[i], pq[i + 1])
    {
      if i < |p| - 1 {
        assert pq[i] == p[i] && pq[i + 1] == p[i + 1];
      } else {
        assert pq[i] == q[i - |p| + 1] && pq[i + 1] == q[i - |p| + 2];
      }
    }
    assert IsPath(g, pq);
  }

  /** A map of nodes that sends every edge of g to an edge of h sends every walk
      of g to a walk of h. */
  lemma ReachableAlongHomomorphism(g: Adjacency, h: Adjacency, f: seq<nat>, u: nat, v: nat)
    requires |f| == |g| && forall x :: 0 <= x < |f| ==> f[x] < |h|
    requires forall x, y :: 0 <= x < |g| && 0 <= y < |g| && Edge(g, x, y) ==> Edge(h, f[x], f[y])
    requires u < |g| && v < |g| && Reachable(g, u, v)
    ensures Reachable(h, f[u], f[v])
  {
    var p :| IsPath(g, p) && p[0] == u && p[|p| - 1] == v;
    var q := seq(|p|, i requires 0 <= i < |p| => f[p[i]]);
    forall i | 0 <= i < |q| - 1 ensures Edge(h, q[i], q[i + 1]) {
      assert Edge(g, p[i], p[i + 1]);
    }
    assert IsPath(h, q);
  }

  /** A set that no edge leaves traps every walk that starts in it. */
  lemma {:induction false} ClosedSetTraps(g: Adjacency, s: set<nat>, p: seq<nat>)
    requires forall u, v :: u in s && Edge(g, u, v) ==> v in s
    requires IsPath(g, p) && p[0] in s
    ensures p[|p| - 1] in s
    decreases |p|
  {
    if |p| > 1 {
      var q := p[..|p| - 1];
      assert IsPath(g, q) by {
        forall i | 0 <= i < |q| - 1 ensures Edge(g, q[i], q[i + 1]) {
          assert q[i] == p[i] && q[i + 1] == p[i + 1];
        }
      }
      ClosedSetTraps(g, s, q);
      assert Edge(g, p[|p| - 2], p[|p| - 1]);
    }
  }

  /** Nothing outside a set that no edge leaves is reachable from inside it. */
  lemma ClosedSetUnreachable(g: Adjacency, s: set<nat>, u: nat, v: nat)
    requires forall x, y :: x in s && Edge(g, x, y) ==> y in s
    requires u in s && v !in s
    ensures !Reachable(g, u, v)
  {
    if Reachable(g, u, v) {
      var p :| IsPath(g, p) && p[0] == u && p[|p| - 1] == v;
      ClosedSetTraps(g, s, p);
    }
  }

  /** The reflexive closure of g: u reaches v in at most one step. */
  function Init(g: Adjacency): (r: Adjacency)
    requires IsSquare(g)
    ensures IsSquare(r) && |r| == |g|
  {
    seq(|g|, u requires 0 <= u < |g| => seq(|g|, v requires 0 <= v < |g| => u == v || g[u][v]))
  }

  /** One round of Warshall's algorithm: allow node k as an intermediate node. */
  function Relax(r: Adjacency, k: nat): (r': Adjacency)
    requires IsSquare(r) && k < |r|
    ensures IsSquare(r') && |r'| == |r|
  {
    seq(|r|, u requires 0 <= u < |r| =>
      seq(|r|, v requires 0 <= v < |r| => r[u][v] || (r[u][k] && r[k][v])))
  }

  /** Warshall's algorithm after k rounds: paths whose interior nodes are all below k. */
  function Warshall(g: Adjacency, k: nat): (r: Adjacency)
    requires IsSquare(g) && k <= |g|
    ensures IsSquare(r) && |r| == |g|
    decreases k
  {
    if k == 0 then Init(g) else Relax(Warshall(g, k - 1), k - 1)
  }

  /** The entry (u, v) before the first round. */
  lemma InitEntry(g: Adjacency, u: nat, v: nat)
    requires IsSquare(g) && u < |g| && v < |g|
    ensures Init(g)[u][v] == (u == v || g[u][v])
  {
  }

  /** The entry (u, v) after the round for node k. */
  lemma RelaxEntry(r: Adjacency, k: nat, u: nat, v: nat)
    requires IsSquare(r) && k < |r| && u < |r| && v < |r|
    ensures Relax(r, k)[u][v] == (r[u][v] || (r[u][k] && r[k][v]))
  {
  }

  /** Every entry Warshall's algorithm sets is witnessed by a walk. */
  lemma {:induction false} WarshallSound(g: Adjacency, k: nat, u: nat, v: nat)
    requires IsSquare(g) && k <= |g| && u < |g| && v < |g|
    requires Warshall(g, k)[u][v]
    ensures Reachable(g, u, v)
    decreases k
  {
    if k == 0 {
      InitEntry(g, u, v);
      if u == v {
        ReachableRefl(g, u);
      } else {
        ReachableEdge(g, u, v);
      }
    } else {
      var w := Warshall(g, k - 1);
      RelaxEntry(w, k - 1, u, v);
      if w[u][v] {
        WarshallSound(g, k - 1, u, v);
      } else {
        WarshallSound(g, k - 1, u, k - 1);
        WarshallSound(g, k - 1, k - 1, v);
        ReachableTrans(g, u, k - 1, v);
      }
    }
  }

  /** Cutting a walk at an interior node gives two walks that keep the bound on interior nodes. */
  lemma SplitPath(g: Adjacency, p: seq<nat>, m: nat, k: nat)
    requires IsPath(g, p) && InteriorBelow(p, k) && 0 < m < |p| - 1
    ensures IsPath(g, p[..m + 1]) && InteriorBelow(p[..m + 1], k)
    ensures IsPath(g, p[m..]) && InteriorBelow(p[m..], k)
  {
    var p1, p2 := p[..m + 1], p[m..];
    forall i | 0 <= i < |p1| - 1 ensures Edge(g, p1[i], p1[i + 1]) {
      assert p1[i] == p[i] && p1[i + 1] == p[i + 1];
    }
    forall i | 0 <= i < |p2| - 1 ensures Edge(g, p2[i], p2[i + 1]) {
      assert p2[i] == p[m + i] && p2[i + 1] == p[m + i + 1];
    }
  }

  /** A walk without interior nodes is a single node or a single edge. */
  lemma InitComplete(g: Adjacency, p: seq<nat>)
    requires IsSquare(g) && IsPath(g, p) && InteriorBelow(p, 0)
    ensures Init(g)[p[0]][p[|p| - 1]]
  {
    if |p| >= 2 {
      assert p[1] >= 0;
      assert |p| == 2;
      assert Edge(g, p[0], p[1]);
    }
    InitEntry(g, p[0], p[|p| - 1]);
  }

  /** Warshall's algorithm after k rounds finds every walk whose interior nodes are below k. */
  lemma {:induction false} WarshallComplete(g: Adjacency, k: nat, p: seq<nat>, u: nat, v: nat)
    requires IsSquare(g) && k <= |g|
    requires IsPath(g, p) && InteriorBelow(p, k) && p[0] == u && p[|p| - 1] == v
    ensures u < |g| && v < |g| && Warshall(g, k)[u][v]
    decreases k, |p|
  {
    if k == 0 {
      InitComplete(g, p);
    } else if m :| 0 < m < |p| - 1 && p[m] == k - 1 {
      SplitPath(g, p, m, k);
      WarshallComplete(g, k, p[..m + 1], u, k - 1);
      WarshallComplete(g, k, p[m..], k - 1, v);
      WarshallJoin(g, k, u, v);
    } else {
      assert InteriorBelow(p, k - 1);
      WarshallComplete(g, k - 1, p, u, v);
      WarshallGrows(g, k, u, v);
    }
  }

  /** A round never clears an entry. */
  lemma WarshallGrows(g: Adjacency, k: nat, u: nat, v: nat)
    requires IsSquare(g) && 0 < k <= |g| && u < |g| && v < |g|
    requires Warshall(g, k - 1)[u][v]
    ensures Warshall(g, k)[u][v]
  {
    RelaxEntry(Warshall(g, k - 1), k - 1, u, v);
  }

  /** After the round for node k - 1, walks through k - 1 are joined. Entries
      in row and column k - 1 do not change in that round. */
  lemma WarshallJoin(g: Adjacency, k: nat, u: nat, v: nat)
    requires IsSquare(g) && 0 < k <= |g| && u < |g| && v < |g|
    requires Warshall(g, k)[u][k - 1] && Warshall(g, k)[k - 1][v]
    ensures Warshall(g, k)[u][v]
  {
    var w := Warshall(g, k - 1);
    RelaxEntry(w, k - 1, u, k - 1);
    RelaxEntry(w, k - 1, k - 1, v);
    RelaxEntry(w, k - 1, u, v);
  }

  /** The transitive closure of g: r[u][v] holds exactly when v is reachable from u. */
  function Closure(g: Adjacency): (r: Adjacency)
    requires IsSquare(g)
    ensures IsSquare(r) && |r| == |g|
    ensures forall u, v :: 0 <= u < |g| && 0 <= v < |g| ==> (r[u][v] <==> Reachable(g, u, v))
  {
    ClosureIsReachability(g);
    Warshall(g, |g|)
  }

  lemma ClosureIsReachability(g: Adjacency)
    requires IsSquare(g)
    ensures forall u, v :: 0 <= u < |g| && 0 <= v < |g| ==>
      (Warshall(g, |g|)[u][v] <==> Reachable(g, u, v))
  {
    forall u, v | 0 <= u < |g| && 0 <= v < |g|
      ensures Warshall(g, |g|)[u][v] <==> Reachable(g, u, v)
    {
      if Warshall(g, |g|)[u][v] {
        WarshallSound(g, |g|, u, v);
      }
      if Reachable(g, u, v) {
        var p :| IsPath(g, p) && p[0] == u && p[|p| - 1] == v;
        WarshallComplete(g, |g|, p, u, v);
      }
    }
  }
}
