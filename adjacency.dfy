/**
 * The adjacency store shared by every algorithm: row `i` lists the
 * `(neighbour index, edge payload)` pairs stored for node `i`, and the
 * graph-theoretic vocabulary (edges, paths, cycles, reachability) that the
 * algorithms' contracts are stated in.
 */
module Adjacency {

  /** One adjacency entry: the neighbour's dense index and the edge payload. */
  datatype Edge = Edge(to: nat, payload: int)

  /** Every stored neighbour index names a node of the graph. */
  predicate WellFormed(adj: seq<seq<Edge>>) {
    forall i, k :: 0 <= i < |adj| && 0 <= k < |adj[i]| ==> adj[i][k].to < |adj|
  }

  /** Row `u` stores an entry pointing at `v`. */
  ghost predicate HasEdge(adj: seq<seq<Edge>>, u: nat, v: nat) {
    u < |adj| && exists k :: 0 <= k < |adj[u]| && adj[u][k].to == v
  }

  /** Consecutive elements of `p` are joined by stored edges. */
  ghost predicate IsPath(adj: seq<seq<Edge>>, p: seq<nat>) {
    forall k :: 0 <= k < |p| - 1 ==> HasEdge(adj, p[k], p[k + 1])
  }

  /** A closed walk of at least one edge. */
  ghost predicate IsCycle(adj: seq<seq<Edge>>, p: seq<nat>) {
    |p| >= 2 && p[0] == p[|p| - 1] && IsPath(adj, p)
  }

  ghost predicate HasCycle(adj: seq<seq<Edge>>) {
    exists p :: IsCycle(adj, p)
  }

  /** `p` is a walk from `a` to `b` (the one-element walk `[a]` reaches `a` itself). */
  ghost predicate Walk(adj: seq<seq<Edge>>, p: seq<nat>, a: nat, b: nat) {
    |p| >= 1 && p[0] == a && p[|p| - 1] == b && IsPath(adj, p)
  }

  ghost predicate Reachable(adj: seq<seq<Edge>>, a: nat, b: nat) {
    exists p :: Walk(adj, p, a, b)
  }

  /** Extending a walk by one stored edge gives a walk. */
  lemma WalkExtend(adj: seq<seq<Edge>>, p: seq<nat>, a: nat, b: nat, c: nat)
    requires Walk(adj, p, a, b) && HasEdge(adj, b, c)
    ensures Walk(adj, p + [c], a, c)
  {
    var q := p + [c];
    forall k | 0 <= k < |q| - 1
      ensures HasEdge(adj, q[k], q[k + 1])
    {
      if k < |p| - 1 {
        assert q[k] == p[k] && q[k + 1] == p[k + 1];
      }
    }
  }

  /** Extending a path by one stored edge gives a path. */
  lemma PathSnoc(adj: seq<seq<Edge>>, p: seq<nat>, c: nat)
    requires IsPath(adj, p) && |p| > 0 && HasEdge(adj, p[|p| - 1], c)
    ensures IsPath(adj, p + [c])
  {
    var q := p + [c];
    forall k | 0 <= k < |q| - 1
      ensures HasEdge(adj, q[k], q[k + 1])
    {
      if k < |p| - 1 {
        assert q[k] == p[k] && q[k + 1] == p[k + 1];
      }
    }
  }

  /** An edge from the end of a path back onto the path closes a cycle. */
  lemma EdgeBackIsCycle(adj: seq<seq<Edge>>, p: seq<nat>, x: nat)
    requires IsPath(adj, p) && |p| > 0 && x in p && HasEdge(adj, p[|p| - 1], x)
    ensures HasCycle(adj)
  {
    var i :| 0 <= i < |p| && p[i] == x;
    var q := p[i..];
    forall k | 0 <= k < |q| - 1
      ensures HasEdge(adj, q[k], q[k + 1])
    {
      assert q[k] == p[i + k] && q[k + 1] == p[i + k + 1];
    }
    PathSnoc(adj, q, x);
    assert IsCycle(adj, q + [x]);
  }

  /**
   * If every edge `u -> v` strictly lowers a rank, then along any walk of at
   * least one edge the rank strictly falls.
   */
  lemma {:induction false} RankFallsAlongPath(adj: seq<seq<Edge>>, rank: seq<int>, p: seq<nat>)
    requires forall u: nat, v: nat :: HasEdge(adj, u, v) ==> u < |rank| && v < |rank| && rank[v] < rank[u]
    requires |p| >= 2 && IsPath(adj, p)
    ensures p[0] < |rank| && p[|p| - 1] < |rank| && rank[p[|p| - 1]] < rank[p[0]]
  {
    assert HasEdge(adj, p[0], p[1]);
    if |p| > 2 {
      var q := p[1..];
      forall k | 0 <= k < |q| - 1
        ensures HasEdge(adj, q[k], q[k + 1])
      {
        assert HasEdge(adj, p[k + 1], p[k + 2]);
      }
      RankFallsAlongPath(adj, rank, q);
    }
  }

  /** A graph whose edges all strictly lower some rank has no cycle. */
  lemma RankedIsAcyclic(adj: seq<seq<Edge>>, rank: seq<int>)
    requires forall u: nat, v: nat :: HasEdge(adj, u, v) ==> u < |rank| && v < |rank| && rank[v] < rank[u]
    ensures !HasCycle(adj)
  {
    if HasCycle(adj) {
      var p :| IsCycle(adj, p);
      RankFallsAlongPath(adj, rank, p);
    }
  }
}
