/**
 * Breadth-first and depth-first exploration from one source node with a
 * depth bound (`Base::bfs` and `Base::dfs`). Both keep a visited array and a
 * distance array, start from the source's own record at distance 0, and
 * record a neighbour the first time it is reached, provided its distance
 * (the parent's plus one) stays below the bound. They differ only in the
 * worklist: a FIFO queue for BFS, a LIFO stack for DFS.
 *
 * The algorithms work on node indices; the graph class turns the index
 * records into label records.
 */
module Traversal {
  import opened Adjacency

  /** One traversal record by index: the node, the node it was reached from, and its distance. */
  datatype Visit = Visit(node: nat, parent: nat, distance: int)

  /** Some record is about node `x`. */
  ghost predicate Recorded(vs: seq<Visit>, x: nat) {
    exists m :: 0 <= m < |vs| && vs[m].node == x
  }

  /** The output opens with the source's self-referential record at distance 0. */
  ghost predicate StartsAt(vs: seq<Visit>, src: nat) {
    |vs| >= 1 && vs[0] == Visit(src, src, 0)
  }

  /** No node is recorded twice. */
  ghost predicate VisitsOnce(vs: seq<Visit>) {
    forall i, j :: 0 <= i < j < |vs| ==> vs[i].node != vs[j].node
  }

  /** Every later record's parent was recorded earlier, one step closer to the source. */
  ghost predicate ParentsFirst(vs: seq<Visit>) {
    forall k :: 0 < k < |vs| ==>
      exists j :: 0 <= j < k && vs[j].node == vs[k].parent && vs[k].distance == vs[j].distance + 1
  }

  /** Every later record was reached along a stored edge from its parent. */
  ghost predicate TreeEdges(adj: seq<seq<Edge>>, vs: seq<Visit>) {
    forall k :: 0 < k < |vs| ==> HasEdge(adj, vs[k].parent, vs[k].node)
  }

  /** Every later record lies strictly inside the depth bound. */
  ghost predicate WithinDepth(vs: seq<Visit>, depth: int) {
    forall k :: 0 < k < |vs| ==> 0 < vs[k].distance < depth
  }

  /**
   * Nothing was missed: every neighbour of a recorded node is recorded too,
   * unless reaching it would have hit the depth bound.
   */
  ghost predicate Closed(adj: seq<seq<Edge>>, vs: seq<Visit>, depth: int) {
    forall j, k :: 0 <= j < |vs| && vs[j].node < |adj| && 0 <= k < |adj[vs[j].node]| ==>
      vs[j].distance + 1 >= depth || Recorded(vs, adj[vs[j].node][k].to)
  }

  /** Distances never decrease along the output (what a FIFO queue gives). */
  ghost predicate NonDecreasing(vs: seq<Visit>) {
    forall i, j :: 0 <= i < j < |vs| ==> vs[i].distance <= vs[j].distance
  }

  /** What both traversals promise about their output. */
  ghost predicate IsTraversal(adj: seq<seq<Edge>>, src: nat, depth: int, vs: seq<Visit>) {
    && StartsAt(vs, src)
    && (forall k :: 0 <= k < |vs| ==> vs[k].node < |adj|)
    && VisitsOnce(vs)
    && ParentsFirst(vs)
    && TreeEdges(adj, vs)
    && WithinDepth(vs, depth)
    && Closed(adj, vs, depth)
  }

  /** A set of indices below `n` has at most `n` elements. */
  lemma {:induction false} IndexSetBound(s: set<nat>, n: nat)
    requires forall x :: x in s ==> x < n
    ensures |s| <= n
  {
    if n == 0 {
      assert s == {};
    } else {
      IndexSetBound(s - {n - 1}, n - 1);
    }
  }

  lemma {:induction false} NodeSetSize(vs: seq<Visit>)
    requires VisitsOnce(vs)
    ensures |set k | 0 <= k < |vs| :: vs[k].node| == |vs|
  {
    if vs != [] {
      var last := |vs| - 1;
      var init := vs[..last];
      NodeSetSize(init);
      assert (set k | 0 <= k < |vs| :: vs[k].node)
        == (set k | 0 <= k < |init| :: init[k].node) + {vs[last].node};
      assert vs[last].node !in (set k | 0 <= k < |init| :: init[k].node);
    }
  }

  /** Records about distinct nodes below `n` number at most `n`. */
  lemma VisitCountBound(vs: seq<Visit>, n: nat)
    requires VisitsOnce(vs)
    requires forall k :: 0 <= k < |vs| ==> vs[k].node < n
    ensures |vs| <= n
  {
    NodeSetSize(vs);
    IndexSetBound(set k | 0 <= k < |vs| :: vs[k].node, n);
  }

  /** The nodes of the records, in order. */
  function Nodes(vs: seq<Visit>): (ns: seq<nat>)
    ensures |ns| == |vs| && forall k :: 0 <= k < |vs| ==> ns[k] == vs[k].node
  {
    seq(|vs|, k requires 0 <= k < |vs| => vs[k].node)
  }

  /** The visited array a traversal keeps once it has emitted `vs`. */
  ghost function Marks(vs: seq<Visit>, n: nat): (m: seq<bool>)
    ensures |m| == n
  {
    if vs == [] then seq(n, _ => false)
    else
      var m := Marks(vs[..|vs| - 1], n);
      var x := vs[|vs| - 1].node;
      if x < n then m[x := true] else m
  }

  /** The distance array a traversal keeps once it has emitted `vs`. */
  ghost function Dists(vs: seq<Visit>, n: nat): (d: seq<int>)
    ensures |d| == n
  {
    if vs == [] then seq(n, _ => 0)
    else
      var d := Dists(vs[..|vs| - 1], n);
      var x := vs[|vs| - 1].node;
      if x < n then d[x := vs[|vs| - 1].distance] else d
  }

  /** The visited array marks exactly the recorded nodes. */
  lemma {:induction false} MarksRecorded(vs: seq<Visit>, n: nat, x: nat)
    requires x < n
    requires forall k :: 0 <= k < |vs| ==> vs[k].node < n
    ensures Marks(vs, n)[x] <==> Recorded(vs, x)
  {
    if vs != [] {
      var init := vs[..|vs| - 1];
      MarksRecorded(init, n, x);
      if Recorded(init, x) {
        var m :| 0 <= m < |init| && init[m].node == x;
        assert vs[m].node == x;
      }
      if Recorded(vs, x) && vs[|vs| - 1].node != x {
        var m :| 0 <= m < |vs| && vs[m].node == x;
        assert init[m].node == x;
      }
    }
  }

  /** The distance array holds each recorded node's distance. */
  lemma {:induction false} DistsRecorded(vs: seq<Visit>, n: nat, j: nat)
    requires VisitsOnce(vs) && j < |vs|
    requires forall k :: 0 <= k < |vs| ==> vs[k].node < n
    ensures Dists(vs, n)[vs[j].node] == vs[j].distance
  {
    if j < |vs| - 1 {
      var init := vs[..|vs| - 1];
      DistsRecorded(init, n, j);
      assert init[j] == vs[j];
    }
  }

  /**
   * The bookkeeping a traversal keeps about its own output: `pos[k]` is the
   * position of record `k`'s parent record.
   */
  ghost predicate Prefix(adj: seq<seq<Edge>>, src: nat, depth: int, vs: seq<Visit>, pos: seq<nat>) {
    && StartsAt(vs, src)
    && (forall k :: 0 <= k < |vs| ==> vs[k].node < |adj|)
    && VisitsOnce(vs)
    && TreeEdges(adj, vs)
    && WithinDepth(vs, depth)
    && |pos| == |vs|
    && (forall k {:trigger pos[k]} :: 0 < k < |vs| ==>
          pos[k] < k && vs[pos[k]].node == vs[k].parent && vs[k].distance == vs[pos[k]].distance + 1)
  }

  /**
   * Appending the record of an unvisited node, reached along a stored edge
   * from record `j` and one step further from the source, keeps the
   * bookkeeping.
   */
  lemma AppendVisit(adj: seq<seq<Edge>>, src: nat, depth: int, vs: seq<Visit>, pos: seq<nat>, j: nat, v: Visit)
    requires Prefix(adj, src, depth, vs, pos)
    requires j < |vs| && vs[j].node == v.parent && v.distance == vs[j].distance + 1
    requires HasEdge(adj, v.parent, v.node) && v.node < |adj| && 0 < v.distance < depth
    requires !Marks(vs, |adj|)[v.node]
    ensures Prefix(adj, src, depth, vs + [v], pos + [j])
    ensures Marks(vs + [v], |adj|) == Marks(vs, |adj|)[v.node := true]
    ensures Dists(vs + [v], |adj|) == Dists(vs, |adj|)[v.node := v.distance]
  {
    var ws := vs + [v];
    assert ws[..|vs|] == vs;
    MarksRecorded(vs, |adj|, v.node);
    forall i, k | 0 <= i < k < |ws|
      ensures ws[i].node != ws[k].node
    {
      if k == |vs| {
        assert ws[i] == vs[i];
      }
    }
  }

  /** Turns the parent positions into the existential of `ParentsFirst`. */
  lemma ParentsFromPositions(vs: seq<Visit>, pos: seq<nat>)
    requires |pos| == |vs|
    requires forall k {:trigger pos[k]} :: 0 < k < |vs| ==>
      pos[k] < k && vs[pos[k]].node == vs[k].parent && vs[k].distance == vs[pos[k]].distance + 1
    ensures ParentsFirst(vs)
  {
    forall k | 0 < k < |vs|
      ensures exists j :: 0 <= j < k && vs[j].node == vs[k].parent && vs[k].distance == vs[j].distance + 1
    {
      var j := pos[k];
      assert 0 <= j < k && vs[j].node == vs[k].parent && vs[k].distance == vs[j].distance + 1;
    }
    assert forall k :: 0 < k < |vs| ==>
      exists j :: 0 <= j < k && vs[j].node == vs[k].parent && vs[k].distance == vs[j].distance + 1;
  }

  /** Each record is at least as far from the source as the one before it. */
  ghost predicate StepsUp(vs: seq<Visit>) {
    forall i :: 0 < i < |vs| ==> vs[i - 1].distance <= vs[i].distance
  }

  /** Appending a record no closer than the last keeps the steps rising. */
  lemma StepsUpAppend(vs: seq<Visit>, v: Visit)
    requires StepsUp(vs) && (|vs| > 0 ==> vs[|vs| - 1].distance <= v.distance)
    ensures StepsUp(vs + [v])
  {
    var ws := vs + [v];
    forall i | 0 < i < |ws|
      ensures ws[i - 1].distance <= ws[i].distance
    {
      if i < |vs| {
        assert ws[i - 1] == vs[i - 1] && ws[i] == vs[i];
      }
    }
  }

  /** Distances that never fall from one record to the next never fall at all. */
  lemma {:induction false} StepsUpNonDecreasing(vs: seq<Visit>)
    requires StepsUp(vs)
    ensures NonDecreasing(vs)
  {
    if |vs| > 1 {
      var init := vs[..|vs| - 1];
      assert StepsUp(init) by {
        forall i | 0 < i < |init|
          ensures init[i - 1].distance <= init[i].distance
        {
          assert init[i - 1] == vs[i - 1] && init[i] == vs[i];
        }
      }
      StepsUpNonDecreasing(init);
      forall i, j | 0 <= i < j < |vs|
        ensures vs[i].distance <= vs[j].distance
      {
        if j < |vs| - 1 {
          assert init[i] == vs[i] && init[j] == vs[j];
        } else if i < j - 1 {
          assert init[i] == vs[i] && init[j - 1] == vs[j - 1];
        }
      }
    }
  }

  /**
   * The first `h` records have had all their neighbours looked at: each such
   * neighbour is marked, or lies at the depth bound. Only the first `k`
   * neighbours of record `h` itself have been looked at so far.
   */
  ghost predicate Scanned(adj: seq<seq<Edge>>, vs: seq<Visit>, depth: int, h: nat, k: nat) {
    && (forall j, i :: 0 <= j < h && j < |vs| && vs[j].node < |adj| && 0 <= i < |adj[vs[j].node]| ==>
          Looked(adj, vs, depth, vs[j], adj[vs[j].node][i].to))
    && (h < |vs| && vs[h].node < |adj| ==>
          forall i :: 0 <= i < k && i < |adj[vs[h].node]| ==>
            Looked(adj, vs, depth, vs[h], adj[vs[h].node][i].to))
  }

  /** Neighbour `y` of the node of record `r` is marked, or lies at the depth bound. */
  ghost predicate Looked(adj: seq<seq<Edge>>, vs: seq<Visit>, depth: int, r: Visit, y: nat) {
    r.distance + 1 >= depth || (y < |adj| && Marks(vs, |adj|)[y])
  }

  /** Marking one more node keeps everything already looked at accounted for. */
  lemma ScannedAppend(adj: seq<seq<Edge>>, vs: seq<Visit>, depth: int, h: nat, k: nat, v: Visit)
    requires Scanned(adj, vs, depth, h, k) && h < |vs| && v.node < |adj|
    requires Marks(vs + [v], |adj|) == Marks(vs, |adj|)[v.node := true]
    ensures Scanned(adj, vs + [v], depth, h, k)
  {
    var ws := vs + [v];
    forall r, y | Looked(adj, vs, depth, r, y)
      ensures Looked(adj, ws, depth, r, y)
    {
    }
    forall j | 0 <= j < |vs|
      ensures ws[j] == vs[j]
    {
    }
  }

  /** Looking at one more neighbour of record `h`. */
  lemma ScannedNext(adj: seq<seq<Edge>>, vs: seq<Visit>, depth: int, h: nat, k: nat)
    requires Scanned(adj, vs, depth, h, k) && h < |vs| && vs[h].node < |adj| && k < |adj[vs[h].node]|
    requires Looked(adj, vs, depth, vs[h], adj[vs[h].node][k].to)
    ensures Scanned(adj, vs, depth, h, k + 1)
  {
  }

  /** Once every neighbour of record `h` is looked at, the next record is begun. */
  lemma ScannedRow(adj: seq<seq<Edge>>, vs: seq<Visit>, depth: int, h: nat)
    requires h < |vs| && vs[h].node < |adj| && Scanned(adj, vs, depth, h, |adj[vs[h].node]|)
    ensures Scanned(adj, vs, depth, h + 1, 0)
  {
  }

  /** The final bookkeeping yields the traversal's promised properties. */
  lemma Conclude(adj: seq<seq<Edge>>, src: nat, depth: int, vs: seq<Visit>, pos: seq<nat>)
    requires WellFormed(adj) && Prefix(adj, src, depth, vs, pos)
    requires Scanned(adj, vs, depth, |vs|, 0)
    ensures IsTraversal(adj, src, depth, vs)
  {
    ParentsFromPositions(vs, pos);
    forall j, k | 0 <= j < |vs| && vs[j].node < |adj| && 0 <= k < |adj[vs[j].node]|
      ensures vs[j].distance + 1 >= depth || Recorded(vs, adj[vs[j].node][k].to)
    {
      MarksRecorded(vs, |adj|, adj[vs[j].node][k].to);
    }
  }

  /**
   * What BFS knows about neighbour `y` of the node of record `r`: it is
   * marked with a distance at most one more than `r`'s, or it lies at the
   * depth bound.
   */
  ghost predicate Near(adj: seq<seq<Edge>>, vs: seq<Visit>, depth: int, r: Visit, y: nat) {
    r.distance + 1 >= depth || (y < |adj| && Marks(vs, |adj|)[y] && Dists(vs, |adj|)[y] <= r.distance + 1)
  }

  /** `Scanned` with BFS's stronger `Near` in place of `Looked`. */
  ghost predicate Layered(adj: seq<seq<Edge>>, vs: seq<Visit>, depth: int, h: nat, k: nat) {
    && (forall j, i :: 0 <= j < h && j < |vs| && vs[j].node < |adj| && 0 <= i < |adj[vs[j].node]| ==>
          Near(adj, vs, depth, vs[j], adj[vs[j].node][i].to))
    && (h < |vs| && vs[h].node < |adj| ==>
          forall i :: 0 <= i < k && i < |adj[vs[h].node]| ==>
            Near(adj, vs, depth, vs[h], adj[vs[h].node][i].to))
  }

  /** Recording one more, previously unmarked, node keeps every `Near` fact. */
  lemma LayeredAppend(adj: seq<seq<Edge>>, vs: seq<Visit>, depth: int, h: nat, k: nat, v: Visit)
    requires Layered(adj, vs, depth, h, k) && h < |vs| && v.node < |adj| && !Marks(vs, |adj|)[v.node]
    requires Marks(vs + [v], |adj|) == Marks(vs, |adj|)[v.node := true]
    requires Dists(vs + [v], |adj|) == Dists(vs, |adj|)[v.node := v.distance]
    ensures Layered(adj, vs + [v], depth, h, k)
  {
    var ws := vs + [v];
    forall r, y | Near(adj, vs, depth, r, y)
      ensures Near(adj, ws, depth, r, y)
    {
    }
    forall j | 0 <= j < |vs|
      ensures ws[j] == vs[j]
    {
    }
  }

  /** Looking at one more neighbour of record `h`, BFS's way. */
  lemma LayeredNext(adj: seq<seq<Edge>>, vs: seq<Visit>, depth: int, h: nat, k: nat)
    requires Layered(adj, vs, depth, h, k) && h < |vs| && vs[h].node < |adj| && k < |adj[vs[h].node]|
    requires Near(adj, vs, depth, vs[h], adj[vs[h].node][k].to)
    ensures Layered(adj, vs, depth, h, k + 1)
  {
  }

  /** Once every neighbour of record `h` is near, the next record is begun. */
  lemma LayeredRow(adj: seq<seq<Edge>>, vs: seq<Visit>, depth: int, h: nat)
    requires h < |vs| && vs[h].node < |adj| && Layered(adj, vs, depth, h, |adj[vs[h].node]|)
    ensures Layered(adj, vs, depth, h + 1, 0)
  {
  }

  /**
   * The layering BFS leaves behind: every neighbour of a record inside the
   * bound is itself recorded, at most one step further from the source.
   */
  ghost predicate Layering(adj: seq<seq<Edge>>, vs: seq<Visit>, depth: int) {
    forall j, i :: 0 <= j < |vs| && vs[j].node < |adj| && 0 <= i < |adj[vs[j].node]| && vs[j].distance + 1 < depth ==>
      exists m :: 0 <= m < |vs| && vs[m].node == adj[vs[j].node][i].to && vs[m].distance <= vs[j].distance + 1
  }

  /** BFS's final bookkeeping yields a traversal that is also layered. */
  lemma ConcludeLayered(adj: seq<seq<Edge>>, src: nat, depth: int, vs: seq<Visit>, pos: seq<nat>)
    requires WellFormed(adj) && Prefix(adj, src, depth, vs, pos)
    requires Layered(adj, vs, depth, |vs|, 0)
    ensures IsTraversal(adj, src, depth, vs) && Layering(adj, vs, depth)
  {
    forall j, i | 0 <= j < |vs| && vs[j].node < |adj| && 0 <= i < |adj[vs[j].node]|
      ensures Looked(adj, vs, depth, vs[j], adj[vs[j].node][i].to)
      ensures vs[j].distance + 1 < depth ==>
        exists m :: 0 <= m < |vs| && vs[m].node == adj[vs[j].node][i].to && vs[m].distance <= vs[j].distance + 1
    {
      var y := adj[vs[j].node][i].to;
      if vs[j].distance + 1 < depth {
        MarksRecorded(vs, |adj|, y);
        var m :| 0 <= m < |vs| && vs[m].node == y;
        DistsRecorded(vs, |adj|, m);
      }
    }
    Conclude(adj, src, depth, vs, pos);
  }

  /**
   * The BFS worklist state while the neighbours of record `head - 1` are
   * looked at: the records so far with their parent positions, in distance
   * order, the queue holding the nodes of the records not yet handed out
   * (the first `head` were), every neighbour of an earlier record, and the
   * first `k` of record `head - 1`'s, looked at.
   */
  ghost predicate Queued(adj: seq<seq<Edge>>, src: nat, depth: int, vs: seq<Visit>, pos: seq<nat>,
                         que: seq<nat>, head: nat, k: nat)
  {
    && Prefix(adj, src, depth, vs, pos) && StepsUp(vs)
    && 0 < head <= |vs| && que == Nodes(vs)[head..]
    && vs[|vs| - 1].distance <= vs[head - 1].distance + 1
    && Layered(adj, vs, depth, head - 1, k)
  }

  /**
   * Recording and enqueueing neighbour `k` of record `head - 1`, unvisited
   * and one step further from the source, keeps the worklist state.
   */
  lemma Enqueue(adj: seq<seq<Edge>>, src: nat, depth: int, vs: seq<Visit>, pos: seq<nat>,
                que: seq<nat>, head: nat, k: nat, v: Visit)
    requires Queued(adj, src, depth, vs, pos, que, head, k)
    requires Prefix(adj, src, depth, vs + [v], pos + [head - 1])
    requires v.distance == vs[head - 1].distance + 1 && vs[head - 1].node < |adj|
    requires k < |adj[vs[head - 1].node]| && adj[vs[head - 1].node][k].to == v.node && v.node < |adj|
    requires !Marks(vs, |adj|)[v.node] && Marks(vs + [v], |adj|) == Marks(vs, |adj|)[v.node := true]
    requires Dists(vs + [v], |adj|) == Dists(vs, |adj|)[v.node := v.distance]
    ensures Queued(adj, src, depth, vs + [v], pos + [head - 1], que + [v.node], head, k + 1)
  {
    var ws := vs + [v];
    assert ws[head - 1] == vs[head - 1];
    StepsUpAppend(vs, v);
    assert Nodes(ws)[head..] == Nodes(vs)[head..] + [v.node];
    LayeredAppend(adj, vs, depth, head - 1, k, v);
    assert Near(adj, ws, depth, ws[head - 1], v.node);
    LayeredNext(adj, ws, depth, head - 1, k);
  }

  /**
   * The loop body both traversals share: neighbour `k` of node `t`, whose
   * record sits at position `p`, is marked, given its distance and recorded
   * exactly when it is not yet visited and that distance stays below the
   * bound.
   */
  method Discover(adj: seq<seq<Edge>>, src: nat, depth: int, vis: array<bool>, dis: array<int>,
                  vs0: seq<Visit>, ghost pos0: seq<nat>, ghost p: nat, t: nat, k: nat)
    returns (vs: seq<Visit>, ghost pos: seq<nat>, added: bool)
    requires WellFormed(adj) && vis.Length == |adj| && dis.Length == |adj|
    requires Prefix(adj, src, depth, vs0, pos0) && p < |vs0| && t == vs0[p].node && k < |adj[t]|
    requires vis[..] == Marks(vs0, |adj|) && dis[..] == Dists(vs0, |adj|)
    requires Dists(vs0, |adj|)[t] == vs0[p].distance
    modifies vis, dis
    ensures vis[..] == Marks(vs, |adj|) && dis[..] == Dists(vs, |adj|)
    ensures added <==> !Marks(vs0, |adj|)[adj[t][k].to] && vs0[p].distance + 1 < depth
    ensures added ==> vs == vs0 + [Visit(adj[t][k].to, t, vs0[p].distance + 1)] && pos == pos0 + [p]
    ensures added ==> Marks(vs, |adj|) == Marks(vs0, |adj|)[adj[t][k].to := true]
    ensures !added ==> vs == vs0 && pos == pos0
    ensures Prefix(adj, src, depth, vs, pos)
  {
    vs, pos := vs0, pos0;
    var x := adj[t][k].to;
    ghost var marks, dists := vis[..], dis[..];
    assert vis[x] == marks[x] && dis[t] == dists[t];
    added := !vis[x] && dis[t] + 1 < depth;
    if added {
      vis[x] := true;
      dis[x] := dis[t] + 1;
      assert vis[..] == marks[x := true];
      assert dis[..] == dists[x := dists[t] + 1];
      var v := Visit(x, t, dis[x]);
      assert HasEdge(adj, t, x);
      AppendVisit(adj, src, depth, vs, pos, p, v);
      vs, pos := vs + [v], pos + [p];
    }
  }

  /**
   * One pass of the inner loop of `Base::bfs`: neighbour `k` of the node `t`
   * just taken off the queue is recorded and enqueued when it is not yet
   * visited and its distance stays below the bound.
   */
  method Relax(adj: seq<seq<Edge>>, src: nat, depth: int, vis: array<bool>, dis: array<int>,
               vs0: seq<Visit>, ghost pos0: seq<nat>, que0: seq<nat>, ghost head: nat, t: nat, k: nat)
    returns (vs: seq<Visit>, ghost pos: seq<nat>, que: seq<nat>)
    requires WellFormed(adj) && vis.Length == |adj| && dis.Length == |adj|
    requires Queued(adj, src, depth, vs0, pos0, que0, head, k) && t == vs0[head - 1].node && k < |adj[t]|
    requires vis[..] == Marks(vs0, |adj|) && dis[..] == Dists(vs0, |adj|)
    requires Marks(vs0, |adj|)[t] && Dists(vs0, |adj|)[t] == vs0[head - 1].distance
    modifies vis, dis
    ensures |vs| >= |vs0| && vs[head - 1] == vs0[head - 1]
    ensures Queued(adj, src, depth, vs, pos, que, head, k + 1)
    ensures vis[..] == Marks(vs, |adj|) && dis[..] == Dists(vs, |adj|)
    ensures Marks(vs, |adj|)[t] && Dists(vs, |adj|)[t] == vs[head - 1].distance
  {
    var added;
    vs, pos, added := Discover(adj, src, depth, vis, dis, vs0, pos0, head - 1, t, k);
    if added {
      que := que0 + [adj[t][k].to];
      Enqueued(adj, src, depth, vs0, pos0, que0, head, t, k);
    } else {
      que := que0;
      Skipped(adj, src, depth, vs0, pos0, que0, head, t, k);
    }
  }

  /** `Relax` recorded neighbour `k`: the worklist state carries over to the next neighbour. */
  lemma Enqueued(adj: seq<seq<Edge>>, src: nat, depth: int, vs0: seq<Visit>, pos0: seq<nat>, que0: seq<nat>,
                 head: nat, t: nat, k: nat)
    requires WellFormed(adj)
    requires Queued(adj, src, depth, vs0, pos0, que0, head, k) && t == vs0[head - 1].node && k < |adj[t]|
    requires Marks(vs0, |adj|)[t] && Dists(vs0, |adj|)[t] == vs0[head - 1].distance
    requires !Marks(vs0, |adj|)[adj[t][k].to]
    requires Prefix(adj, src, depth, vs0 + [Visit(adj[t][k].to, t, vs0[head - 1].distance + 1)], pos0 + [head - 1])
    requires var v := Visit(adj[t][k].to, t, vs0[head - 1].distance + 1);
      Marks(vs0 + [v], |adj|) == Marks(vs0, |adj|)[v.node := true]
    ensures var vs := vs0 + [Visit(adj[t][k].to, t, vs0[head - 1].distance + 1)];
      && vs[head - 1] == vs0[head - 1]
      && Queued(adj, src, depth, vs, pos0 + [head - 1], que0 + [adj[t][k].to], head, k + 1)
      && Marks(vs, |adj|)[t] && Dists(vs, |adj|)[t] == vs[head - 1].distance
  {
    var v := Visit(adj[t][k].to, t, vs0[head - 1].distance + 1);
    var vs := vs0 + [v];
    assert vs[..|vs| - 1] == vs0;
    assert vs[head - 1] == vs0[head - 1];
    assert v.node != t;
    assert Dists(vs, |adj|) == Dists(vs0, |adj|)[v.node := v.distance];
    Enqueue(adj, src, depth, vs0, pos0, que0, head, k, v);
  }

  /** `Relax` passed over neighbour `k`, already marked or at the depth bound. */
  lemma Skipped(adj: seq<seq<Edge>>, src: nat, depth: int, vs0: seq<Visit>, pos0: seq<nat>, que0: seq<nat>,
                head: nat, t: nat, k: nat)
    requires WellFormed(adj)
    requires Queued(adj, src, depth, vs0, pos0, que0, head, k) && t == vs0[head - 1].node && k < |adj[t]|
    requires Marks(vs0, |adj|)[adj[t][k].to] || vs0[head - 1].distance + 1 >= depth
    ensures Queued(adj, src, depth, vs0, pos0, que0, head, k + 1)
  {
    var y := adj[t][k].to;
    if Marks(vs0, |adj|)[y] && vs0[head - 1].distance + 1 < depth {
      // A marked neighbour was recorded no further out than the last record.
      MarksRecorded(vs0, |adj|, y);
      var m :| 0 <= m < |vs0| && vs0[m].node == y;
      DistsRecorded(vs0, |adj|, m);
      StepsUpNonDecreasing(vs0);
      assert vs0[m].distance <= vs0[|vs0| - 1].distance;
    }
    assert Near(adj, vs0, depth, vs0[head - 1], y);
    LayeredNext(adj, vs0, depth, head - 1, k);
  }



  /**
   * BFS (`Base::bfs`): the worklist is a FIFO queue, so distances come out
   * in order and every neighbour of a record is recorded at most one step
   * further out (from which `BfsShortest` derives shortest distances).
   */
  method Bfs(adj: seq<seq<Edge>>, src: nat, depth: int) returns (vs: seq<Visit>)
    requires WellFormed(adj) && src < |adj|
    ensures IsTraversal(adj, src, depth, vs)
    ensures NonDecreasing(vs) && Layering(adj, vs, depth)
  {
    var n := |adj|;
    var vis := new bool[n](_ => false);
    var dis := new int[n](_ => 0);
    var que: seq<nat> := [src];
    vs := [Visit(src, src, 0)];
    vis[src] := true;
    dis[src] := 0;
    ghost var pos: seq<nat> := [0];
    // `head` counts the records the queue has already handed out.
    ghost var head := 0;
    assert vs[..0] == [];
    assert Marks(vs, n) == seq(n, _ => false)[src := true];
    assert Dists(vs, n) == seq(n, _ => 0)[src := 0];
    while que != []
      invariant Prefix(adj, src, depth, vs, pos) && StepsUp(vs)
      invariant vis[..] == Marks(vs, n) && dis[..] == Dists(vs, n)
      invariant head <= |vs| && que == Nodes(vs)[head..]
      invariant head < |vs| ==> vs[|vs| - 1].distance <= vs[head].distance + 1
      invariant Layered(adj, vs, depth, head, 0)
      decreases n - |vs|, |que|
    {
      VisitCountBound(vs, n);
      var t := que[0];
      que := que[1..];
      head := head + 1;
      ghost var before := vs;
      MarksRecorded(vs, n, t);
      DistsRecorded(vs, n, head - 1);
      for k := 0 to |adj[t]|
        invariant Queued(adj, src, depth, vs, pos, que, head, k)
        invariant vis[..] == Marks(vs, n) && dis[..] == Dists(vs, n)
        invariant |vs| >= |before| && vs[head - 1] == before[head - 1]
        invariant Marks(vs, n)[t] && Dists(vs, n)[t] == vs[head - 1].distance
      {
        vs, pos, que := Relax(adj, src, depth, vis, dis, vs, pos, que, head, t, k);
      }
      LayeredRow(adj, vs, depth, head - 1);
    }
    ConcludeLayered(adj, src, depth, vs, pos);
    StepsUpNonDecreasing(vs);
  }

  /** Every neighbour of record `j` has been looked at. */
  ghost predicate Finished(adj: seq<seq<Edge>>, vs: seq<Visit>, depth: int, j: nat) {
    j < |vs| && vs[j].node < |adj| &&
    forall i :: 0 <= i < |adj[vs[j].node]| ==> Looked(adj, vs, depth, vs[j], adj[vs[j].node][i].to)
  }

  /** The first `k` neighbours of record `p` have been looked at. */
  ghost predicate RowLooked(adj: seq<seq<Edge>>, vs: seq<Visit>, depth: int, p: nat, k: nat) {
    p < |vs| && vs[p].node < |adj| &&
    forall i :: 0 <= i < k && i < |adj[vs[p].node]| ==> Looked(adj, vs, depth, vs[p], adj[vs[p].node][i].to)
  }

  /**
   * The DFS worklist state: the records so far with their parent positions,
   * the stack holding the nodes of the records at positions `spos` (top
   * last), the records at positions `done` finished, and every record
   * finished, on the stack, or in `busy` (the one being expanded).
   */
  ghost predicate Stacked(adj: seq<seq<Edge>>, src: nat, depth: int, vs: seq<Visit>, pos: seq<nat>,
                          stk: seq<nat>, spos: seq<nat>, done: set<nat>, busy: set<nat>)
  {
    && Prefix(adj, src, depth, vs, pos)
    && |spos| == |stk|
    && (forall i :: 0 <= i < |spos| ==> spos[i] < |vs| && stk[i] == vs[spos[i]].node)
    && (forall j :: j in done ==> Finished(adj, vs, depth, j))
    && (forall j :: 0 <= j < |vs| ==> j in done || j in spos || j in busy)
  }

  /** Marking one more node keeps finished records finished and looked-at neighbours looked at. */
  lemma FinishedAppend(adj: seq<seq<Edge>>, vs: seq<Visit>, depth: int, done: set<nat>, p: nat, k: nat, v: Visit)
    requires forall j :: j in done ==> Finished(adj, vs, depth, j)
    requires RowLooked(adj, vs, depth, p, k) && v.node < |adj|
    requires Marks(vs + [v], |adj|) == Marks(vs, |adj|)[v.node := true]
    ensures forall j :: j in done ==> Finished(adj, vs + [v], depth, j)
    ensures RowLooked(adj, vs + [v], depth, p, k)
  {
    var ws := vs + [v];
    forall r, y | Looked(adj, vs, depth, r, y)
      ensures Looked(adj, ws, depth, r, y)
    {
    }
    forall j | 0 <= j < |vs|
      ensures ws[j] == vs[j]
    {
    }
  }

  /**
   * Recording and pushing neighbour `k` of record `p`, unvisited and one
   * step further from the source, keeps the worklist state.
   */
  lemma Push(adj: seq<seq<Edge>>, src: nat, depth: int, vs: seq<Visit>, pos: seq<nat>,
             stk: seq<nat>, spos: seq<nat>, done: set<nat>, p: nat, k: nat, v: Visit)
    requires Stacked(adj, src, depth, vs, pos, stk, spos, done, {p}) && RowLooked(adj, vs, depth, p, k)
    requires Prefix(adj, src, depth, vs + [v], pos + [p])
    requires k < |adj[vs[p].node]| && adj[vs[p].node][k].to == v.node && v.node < |adj|
    requires Marks(vs + [v], |adj|) == Marks(vs, |adj|)[v.node := true]
    ensures Stacked(adj, src, depth, vs + [v], pos + [p], stk + [v.node], spos + [|vs|], done, {p})
    ensures RowLooked(adj, vs + [v], depth, p, k + 1)
  {
    var ws := vs + [v];
    FinishedAppend(adj, vs, depth, done, p, k, v);
    assert ws[p] == vs[p];
    assert Looked(adj, ws, depth, ws[p], v.node);
    var stk', spos' := stk + [v.node], spos + [|vs|];
    forall i | 0 <= i < |spos'|
      ensures spos'[i] < |ws| && stk'[i] == ws[spos'[i]].node
    {
      if i < |spos| {
        assert ws[spos[i]] == vs[spos[i]];
      }
    }
    forall j | 0 <= j < |ws|
      ensures j in done || j in spos' || j in {p}
    {
      if j < |vs| {
        assert j in spos ==> j in spos';
      } else {
        assert spos'[|spos|] == j;
      }
    }
  }

  /**
   * One pass of the inner loop of `Base::dfs`: neighbour `k` of the node `t`
   * just popped off the stack is recorded and pushed when it is not yet
   * visited and its distance stays below the bound.
   */
  method Expand(adj: seq<seq<Edge>>, src: nat, depth: int, vis: array<bool>, dis: array<int>,
                vs0: seq<Visit>, ghost pos0: seq<nat>, stk0: seq<nat>, ghost spos0: seq<nat>,
                ghost done: set<nat>, ghost p: nat, t: nat, k: nat)
    returns (vs: seq<Visit>, ghost pos: seq<nat>, stk: seq<nat>, ghost spos: seq<nat>)
    requires WellFormed(adj) && vis.Length == |adj| && dis.Length == |adj|
    requires Stacked(adj, src, depth, vs0, pos0, stk0, spos0, done, {p}) && RowLooked(adj, vs0, depth, p, k)
    requires t == vs0[p].node && k < |adj[t]|
    requires vis[..] == Marks(vs0, |adj|) && dis[..] == Dists(vs0, |adj|)
    requires Marks(vs0, |adj|)[t] && Dists(vs0, |adj|)[t] == vs0[p].distance
    modifies vis, dis
    ensures Stacked(adj, src, depth, vs, pos, stk, spos, done, {p}) && RowLooked(adj, vs, depth, p, k + 1)
    ensures vis[..] == Marks(vs, |adj|) && dis[..] == Dists(vs, |adj|)
    ensures Marks(vs, |adj|)[t] && Dists(vs, |adj|)[t] == vs[p].distance
    ensures |vs| >= |vs0| && vs[p] == vs0[p] && |stk| + |vs0| == |stk0| + |vs|
  {
    var added;
    vs, pos, added := Discover(adj, src, depth, vis, dis, vs0, pos0, p, t, k);
    if added {
      stk, spos := stk0 + [adj[t][k].to], spos0 + [|vs0|];
      Pushed(adj, src, depth, vs0, pos0, stk0, spos0, done, p, t, k);
    } else {
      stk, spos := stk0, spos0;
      Passed(adj, vs0, depth, p, t, k);
    }
  }

  /** `Expand` recorded and pushed neighbour `k`: the worklist state carries over. */
  lemma Pushed(adj: seq<seq<Edge>>, src: nat, depth: int, vs0: seq<Visit>, pos0: seq<nat>,
               stk0: seq<nat>, spos0: seq<nat>, done: set<nat>, p: nat, t: nat, k: nat)
    requires WellFormed(adj)
    requires Stacked(adj, src, depth, vs0, pos0, stk0, spos0, done, {p}) && RowLooked(adj, vs0, depth, p, k)
    requires t == vs0[p].node && k < |adj[t]|
    requires Marks(vs0, |adj|)[t] && Dists(vs0, |adj|)[t] == vs0[p].distance
    requires !Marks(vs0, |adj|)[adj[t][k].to]
    requires Prefix(adj, src, depth, vs0 + [Visit(adj[t][k].to, t, vs0[p].distance + 1)], pos0 + [p])
    requires var v := Visit(adj[t][k].to, t, vs0[p].distance + 1);
      Marks(vs0 + [v], |adj|) == Marks(vs0, |adj|)[v.node := true]
    ensures var vs := vs0 + [Visit(adj[t][k].to, t, vs0[p].distance + 1)];
      && vs[p] == vs0[p]
      && Stacked(adj, src, depth, vs, pos0 + [p], stk0 + [adj[t][k].to], spos0 + [|vs0|], done, {p})
      && RowLooked(adj, vs, depth, p, k + 1)
      && Marks(vs, |adj|)[t] && Dists(vs, |adj|)[t] == vs[p].distance
  {
    var v := Visit(adj[t][k].to, t, vs0[p].distance + 1);
    var vs := vs0 + [v];
    assert vs[..|vs| - 1] == vs0;
    assert vs[p] == vs0[p];
    assert v.node != t;
    assert Dists(vs, |adj|) == Dists(vs0, |adj|)[v.node := v.distance];
    Push(adj, src, depth, vs0, pos0, stk0, spos0, done, p, k, v);
  }

  /** `Expand` passed over neighbour `k`, already marked or at the depth bound. */
  lemma Passed(adj: seq<seq<Edge>>, vs0: seq<Visit>, depth: int, p: nat, t: nat, k: nat)
    requires WellFormed(adj) && RowLooked(adj, vs0, depth, p, k) && t == vs0[p].node && k < |adj[t]|
    requires Marks(vs0, |adj|)[adj[t][k].to] || vs0[p].distance + 1 >= depth
    ensures RowLooked(adj, vs0, depth, p, k + 1)
  {
    assert Looked(adj, vs0, depth, vs0[p], adj[t][k].to);
  }

  /** DFS (`Base::dfs`): the same exploration with a LIFO stack as the worklist. */
  method Dfs(adj: seq<seq<Edge>>, src: nat, depth: int) returns (vs: seq<Visit>)
    requires WellFormed(adj) && src < |adj|
    ensures IsTraversal(adj, src, depth, vs)
  {
    var n := |adj|;
    var vis := new bool[n](_ => false);
    var dis := new int[n](_ => 0);
    var stk: seq<nat> := [src];
    vs := [Visit(src, src, 0)];
    vis[src] := true;
    dis[src] := 0;
    ghost var pos: seq<nat> := [0];
    ghost var spos: seq<nat> := [0];
    ghost var done: set<nat> := {};
    assert vs[..0] == [];
    assert Marks(vs, n) == seq(n, _ => false)[src := true];
    assert Dists(vs, n) == seq(n, _ => 0)[src := 0];
    while stk != []
      invariant Stacked(adj, src, depth, vs, pos, stk, spos, done, {})
      invariant vis[..] == Marks(vs, n) && dis[..] == Dists(vs, n)
      decreases n - |vs|, |stk|
    {
      VisitCountBound(vs, n);
      var t := stk[|stk| - 1];
      ghost var p := spos[|spos| - 1];
      Pop(adj, src, depth, vs, pos, stk, spos, done);
      stk, spos := stk[..|stk| - 1], spos[..|spos| - 1];
      MarksRecorded(vs, n, t);
      DistsRecorded(vs, n, p);
      ghost var before, popped := vs, stk;
      for k := 0 to |adj[t]|
        invariant Stacked(adj, src, depth, vs, pos, stk, spos, done, {p}) && RowLooked(adj, vs, depth, p, k)
        invariant vis[..] == Marks(vs, n) && dis[..] == Dists(vs, n)
        invariant Marks(vs, n)[t] && Dists(vs, n)[t] == vs[p].distance
        invariant |vs| >= |before| && vs[p] == before[p] && |stk| + |before| == |popped| + |vs|
      {
        vs, pos, stk, spos := Expand(adj, src, depth, vis, dis, vs, pos, stk, spos, done, p, t, k);
      }
      Finish(adj, src, depth, vs, pos, stk, spos, done, p);
      done := done + {p};
    }
    AllFinished(adj, vs, depth, done);
    Conclude(adj, src, depth, vs, pos);
  }

  /** With every record finished, every record's neighbours have been looked at. */
  lemma AllFinished(adj: seq<seq<Edge>>, vs: seq<Visit>, depth: int, done: set<nat>)
    requires forall j :: j in done ==> Finished(adj, vs, depth, j)
    requires forall j :: 0 <= j < |vs| ==> j in done
    ensures Scanned(adj, vs, depth, |vs|, 0)
  {
    forall j, i | 0 <= j < |vs| && vs[j].node < |adj| && 0 <= i < |adj[vs[j].node]|
      ensures Looked(adj, vs, depth, vs[j], adj[vs[j].node][i].to)
    {
      assert Finished(adj, vs, depth, j);
    }
  }

  /** Taking the top record off the stack makes it the one being expanded. */
  lemma Pop(adj: seq<seq<Edge>>, src: nat, depth: int, vs: seq<Visit>, pos: seq<nat>,
            stk: seq<nat>, spos: seq<nat>, done: set<nat>)
    requires Stacked(adj, src, depth, vs, pos, stk, spos, done, {}) && stk != []
    ensures Stacked(adj, src, depth, vs, pos, stk[..|stk| - 1], spos[..|spos| - 1], done, {spos[|spos| - 1]})
    ensures RowLooked(adj, vs, depth, spos[|spos| - 1], 0)
  {
    var p := spos[|spos| - 1];
    forall j | 0 <= j < |vs| && j in spos
      ensures j in spos[..|spos| - 1] || j == p
    {
      var i :| 0 <= i < |spos| && spos[i] == j;
      if i < |spos| - 1 {
        assert spos[..|spos| - 1][i] == j;
      }
    }
  }

  /** A record whose neighbours have all been looked at joins the finished ones. */
  lemma Finish(adj: seq<seq<Edge>>, src: nat, depth: int, vs: seq<Visit>, pos: seq<nat>,
               stk: seq<nat>, spos: seq<nat>, done: set<nat>, p: nat)
    requires Stacked(adj, src, depth, vs, pos, stk, spos, done, {p})
    requires p < |vs| && vs[p].node < |adj| && RowLooked(adj, vs, depth, p, |adj[vs[p].node]|)
    ensures Stacked(adj, src, depth, vs, pos, stk, spos, done + {p}, {})
  {
  }

  /** A record's distance never exceeds its position: each parent sits earlier and one step closer. */
  lemma {:induction false} DistanceBelowPosition(vs: seq<Visit>, k: nat)
    requires k < |vs| && vs[0].distance == 0 && ParentsFirst(vs)
    ensures vs[k].distance <= k
  {
    if k > 0 {
      var j :| 0 <= j < k && vs[j].node == vs[k].parent && vs[k].distance == vs[j].distance + 1;
      DistanceBelowPosition(vs, j);
    }
  }

  /**
   * Every recorded node is reachable from the source along stored edges, by
   * a walk of exactly as many steps as its recorded distance.
   */
  lemma {:induction false} RecordedIsReachable(adj: seq<seq<Edge>>, src: nat, vs: seq<Visit>, k: nat)
    requires StartsAt(vs, src) && ParentsFirst(vs) && TreeEdges(adj, vs) && k < |vs|
    ensures Reachable(adj, src, vs[k].node)
    ensures exists w :: Walk(adj, w, src, vs[k].node) && |w| == vs[k].distance + 1
  {
    if k == 0 {
      assert Walk(adj, [src], src, src);
    } else {
      var j :| 0 <= j < k && vs[j].node == vs[k].parent && vs[k].distance == vs[j].distance + 1;
      RecordedIsReachable(adj, src, vs, j);
      var w :| Walk(adj, w, src, vs[j].node) && |w| == vs[j].distance + 1;
      WalkExtend(adj, w, src, vs[j].node, vs[k].node);
      assert Walk(adj, w + [vs[k].node], src, vs[k].node) && |w + [vs[k].node]| == vs[k].distance + 1;
    }
  }

  /**
   * Helper of `BfsShortest`: along any walk from the source, BFS recorded the
   * node `i` steps in at distance at most `i`, while `i` is inside the bound.
   */
  lemma {:induction false} WalkIsLayered(adj: seq<seq<Edge>>, src: nat, depth: int, vs: seq<Visit>, w: seq<nat>, i: nat)
    requires IsTraversal(adj, src, depth, vs) && Layering(adj, vs, depth)
    requires |w| >= 1 && Walk(adj, w, src, w[|w| - 1]) && i < |w| && i < depth
    ensures exists m :: 0 <= m < |vs| && vs[m].node == w[i] && vs[m].distance <= i
  {
    if i == 0 {
      assert vs[0].node == w[0];
    } else {
      WalkIsLayered(adj, src, depth, vs, w, i - 1);
      var m :| 0 <= m < |vs| && vs[m].node == w[i - 1] && vs[m].distance <= i - 1;
      assert HasEdge(adj, w[i - 1], w[i]);
      var e :| 0 <= e < |adj[w[i - 1]]| && adj[w[i - 1]][e].to == w[i];
      assert exists m' :: 0 <= m' < |vs| && vs[m'].node == adj[vs[m].node][e].to && vs[m'].distance <= vs[m].distance + 1;
    }
  }

  /**
   * BFS distances are shortest: the recorded distance of a node is the
   * number of steps of some walk from the source to it, and of no walk
   * shorter than that.
   */
  lemma BfsShortest(adj: seq<seq<Edge>>, src: nat, depth: int, vs: seq<Visit>, m: nat)
    requires IsTraversal(adj, src, depth, vs) && Layering(adj, vs, depth) && m < |vs|
    ensures exists w :: Walk(adj, w, src, vs[m].node) && |w| == vs[m].distance + 1
    ensures forall w :: Walk(adj, w, src, vs[m].node) ==> vs[m].distance <= |w| - 1
  {
    RecordedIsReachable(adj, src, vs, m);
    forall w | Walk(adj, w, src, vs[m].node)
      ensures vs[m].distance <= |w| - 1
    {
      if |w| - 1 < depth {
        WalkIsLayered(adj, src, depth, vs, w, |w| - 1);
        var m' :| 0 <= m' < |vs| && vs[m'].node == w[|w| - 1] && vs[m'].distance <= |w| - 1;
        assert m' == m;
      }
    }
  }

  /**
   * BFS records the source and exactly the nodes a walk of fewer steps than
   * the depth bound reaches.
   */
  lemma BfsRecordsWithinDepth(adj: seq<seq<Edge>>, src: nat, depth: int, vs: seq<Visit>, x: nat)
    requires IsTraversal(adj, src, depth, vs) && Layering(adj, vs, depth)
    ensures Recorded(vs, x) <==> x == src || exists w :: Walk(adj, w, src, x) && |w| - 1 < depth
  {
    if Recorded(vs, x) && x != src {
      var m :| 0 <= m < |vs| && vs[m].node == x;
      RecordedIsReachable(adj, src, vs, m);
    }
    if x == src {
      assert vs[0].node == x;
    }
    if exists w :: Walk(adj, w, src, x) && |w| - 1 < depth {
      var w :| Walk(adj, w, src, x) && |w| - 1 < depth;
      WalkIsLayered(adj, src, depth, vs, w, |w| - 1);
    }
  }

  /**
   * With a depth bound above the number of nodes (the default bound is the
   * largest 32-bit integer), a traversal records exactly the nodes reachable
   * from the source.
   */
  lemma RecordsExactlyReachable(adj: seq<seq<Edge>>, src: nat, depth: int, vs: seq<Visit>, x: nat)
    requires IsTraversal(adj, src, depth, vs) && depth > |adj|
    ensures Recorded(vs, x) <==> Reachable(adj, src, x)
  {
    if Recorded(vs, x) {
      var m :| 0 <= m < |vs| && vs[m].node == x;
      RecordedIsReachable(adj, src, vs, m);
    }
    if Reachable(adj, src, x) {
      var w :| Walk(adj, w, src, x);
      VisitCountBound(vs, |adj|);
      ReachableIsRecorded(adj, src, depth, vs, w, |w| - 1);
    }
  }

  /** Helper of `RecordsExactlyReachable`: every node along a walk from the source is recorded. */
  lemma {:induction false} ReachableIsRecorded(adj: seq<seq<Edge>>, src: nat, depth: int, vs: seq<Visit>, w: seq<nat>, i: nat)
    requires IsTraversal(adj, src, depth, vs) && depth > |adj| >= |vs|
    requires |w| >= 1 && Walk(adj, w, src, w[|w| - 1]) && i < |w|
    ensures Recorded(vs, w[i])
  {
    if i == 0 {
      assert vs[0].node == w[0];
    } else {
      ReachableIsRecorded(adj, src, depth, vs, w, i - 1);
      var m :| 0 <= m < |vs| && vs[m].node == w[i - 1];
      assert HasEdge(adj, w[i - 1], w[i]);
      var e :| 0 <= e < |adj[w[i - 1]]| && adj[w[i - 1]][e].to == w[i];
      DistanceBelowPosition(vs, m);
    }
  }

  /** With a depth bound of 1 or less nothing but the source is recorded. */
  lemma ShallowIsSourceOnly(adj: seq<seq<Edge>>, src: nat, depth: int, vs: seq<Visit>)
    requires IsTraversal(adj, src, depth, vs)
    ensures depth <= 1 ==> vs == [Visit(src, src, 0)]
  {
    if |vs| > 1 {
      assert 0 < vs[1].distance < depth;
    }
  }

  /** With a depth bound of 2 the records are the source and exactly its neighbours. */
  lemma DepthTwoIsNeighbours(adj: seq<seq<Edge>>, src: nat, vs: seq<Visit>, x: nat)
    requires IsTraversal(adj, src, 2, vs)
    ensures Recorded(vs, x) <==> x == src || HasEdge(adj, src, x)
  {
    if Recorded(vs, x) && x != src {
      var m :| 0 <= m < |vs| && vs[m].node == x;
      var j :| 0 <= j < m && vs[j].node == vs[m].parent && vs[m].distance == vs[j].distance + 1;
      assert j == 0;
    }
    if HasEdge(adj, src, x) {
      var e :| 0 <= e < |adj[src]| && adj[src][e].to == x;
      assert vs[0].node == src;
    }
    if x == src {
      assert vs[0].node == x;
    }
  }
}
