/**
 * The directed-graph analyses `Directed_Graph::is_dag` and
 * `Directed_Graph::topo_sort`: a recursive three-colour depth-first search
 * (white = unvisited, gray = on the recursion path, black = finished) that
 * fails as soon as an edge reaches a gray node, and, for the topological
 * sort, entry and exit time stamps followed by a sort of the node indices by
 * decreasing exit time.
 */
module Directed {
  import opened Adjacency

  const White: int := 0
  const Gray: int := 1
  const Black: int := 2

  /** `0, 1, …, n - 1`: the index vector the sort starts from. */
  function Iota(n: nat): (s: seq<nat>)
    ensures |s| == n && forall i :: 0 <= i < n ==> s[i] == i
  {
    seq(n, i requires 0 <= i => i)
  }

  /**
   * The search state, read from snapshots of the colour, entry-time and
   * exit-time arrays and the clock (never negative): every visited node was entered at a
   * positive time no later than the clock, every finished node left after it
   * entered, finished nodes left at distinct times, and a finished node's
   * successors are all finished, and earlier.
   */
  ghost predicate Good(adj: seq<seq<Edge>>, c: seq<int>, ti: seq<int>, to: seq<int>, time: int) {
    && |c| == |adj| && |ti| == |adj| && |to| == |adj| && time >= 0
    && (forall u :: 0 <= u < |c| ==> White <= c[u] <= Black)
    && (forall u :: 0 <= u < |c| && c[u] != White ==> 0 < ti[u] <= time)
    && (forall u :: 0 <= u < |c| && c[u] == Black ==> ti[u] < to[u] <= time)
    && (forall u, v :: 0 <= u < |c| && 0 <= v < |c| && u != v && c[u] == Black && c[v] == Black ==> to[u] != to[v])
    && (forall u, k :: 0 <= u < |c| && c[u] == Black && 0 <= k < |adj[u]| ==>
          adj[u][k].to < |c| && c[adj[u][k].to] == Black && to[adj[u][k].to] < to[u])
  }

  /** The gray nodes are exactly the nodes of the recursion path. */
  ghost predicate GrayAre(c: seq<int>, path: seq<nat>) {
    forall u :: 0 <= u < |c| ==> (c[u] == Gray <==> u in path)
  }

  ghost function Whites(c: seq<int>): set<nat> {
    set u: nat | u < |c| && c[u] == White
  }

  /** Every node finished in the first state is still finished, with the same exit time. */
  ghost predicate Kept(c0: seq<int>, to0: seq<int>, c: seq<int>, to: seq<int>) {
    && |c0| == |c| && |to0| == |c0| && |to| == |c|
    && forall v :: 0 <= v < |c0| && c0[v] == Black ==> c[v] == Black && to[v] == to0[v]
  }

  lemma KeptTrans(c0: seq<int>, to0: seq<int>, c1: seq<int>, to1: seq<int>, c2: seq<int>, to2: seq<int>)
    requires Kept(c0, to0, c1, to1) && Kept(c1, to1, c2, to2)
    ensures Kept(c0, to0, c2, to2)
  {
  }

  /** Colouring a white node gray and stamping its entry time keeps the state good. */
  lemma Enter(adj: seq<seq<Edge>>, c: seq<int>, ti: seq<int>, to: seq<int>, time: int, src: nat, path: seq<nat>)
    requires Good(adj, c, ti, to, time) && src < |c| && c[src] == White && GrayAre(c, path)
    ensures Good(adj, c[src := Gray], ti[src := time + 1], to, time + 1)
    ensures GrayAre(c[src := Gray], path + [src]) && src !in path
    ensures Whites(c[src := Gray]) == Whites(c) - {src}
    ensures Kept(c, to, c[src := Gray], to)
  {
    var c', ti' := c[src := Gray], ti[src := time + 1];
    forall u | 0 <= u < |c'| && c'[u] == Black
      ensures ti'[u] < to[u] <= time + 1
      ensures forall k :: 0 <= k < |adj[u]| ==> adj[u][k].to < |c'| && c'[adj[u][k].to] == Black && to[adj[u][k].to] < to[u]
    {
      assert u != src && c[u] == Black;
    }
  }

  /**
   * Colouring a gray node whose successors are all finished black and
   * stamping its exit time keeps the state good.
   */
  lemma Leave(adj: seq<seq<Edge>>, c: seq<int>, ti: seq<int>, to: seq<int>, time: int, src: nat, path: seq<nat>)
    requires Good(adj, c, ti, to, time) && src < |c| && GrayAre(c, path + [src]) && src !in path
    requires forall k :: 0 <= k < |adj[src]| ==> adj[src][k].to < |c| && c[adj[src][k].to] == Black
    ensures Good(adj, c[src := Black], ti, to[src := time + 1], time + 1)
    ensures GrayAre(c[src := Black], path)
    ensures Kept(c, to, c[src := Black], to[src := time + 1])
  {
    var c', to' := c[src := Black], to[src := time + 1];
    forall u, k | 0 <= u < |c'| && c'[u] == Black && 0 <= k < |adj[u]|
      ensures adj[u][k].to < |c'| && c'[adj[u][k].to] == Black && to'[adj[u][k].to] < to'[u]
    {
      if u != src {
        assert c[u] == Black;
      }
    }
  }

  /** Overwriting a colour with a non-white one never adds a white node. */
  lemma WhitesShrink(c: seq<int>, u: nat, colour: int)
    requires u < |c| && colour != White
    ensures Whites(c[u := colour]) <= Whites(c) - {u}
  {
  }

  /**
   * The state while `src` is being expanded: the search state is good, the
   * gray nodes are the path and `src`, every node finished when `src` was
   * entered is still finished, and the first `k` successors of `src` are
   * finished.
   */
  ghost predicate Expanding(adj: seq<seq<Edge>>, c: seq<int>, ti: seq<int>, to: seq<int>, time: int,
                            src: nat, path: seq<nat>, k: nat, c1: seq<int>, to1: seq<int>)
  {
    && Good(adj, c, ti, to, time) && GrayAre(c, path + [src]) && Kept(c1, to1, c, to)
    && src < |adj| && k <= |adj[src]|
    && forall k' :: 0 <= k' < k ==> adj[src][k'].to < |c| && c[adj[src][k'].to] == Black
  }

  /** Finishing `src` once all its successors are finished: the state is good again, with `src` black. */
  lemma Close(adj: seq<seq<Edge>>, c0: seq<int>, o0: seq<int>, c1: seq<int>,
              c: seq<int>, ti: seq<int>, to: seq<int>, time: int, src: nat, path: seq<nat>)
    requires src < |adj| && Expanding(adj, c, ti, to, time, src, path, |adj[src]|, c1, o0)
    requires Kept(c0, o0, c1, o0) && src !in path
    ensures Good(adj, c[src := Black], ti, to[src := time + 1], time + 1)
    ensures GrayAre(c[src := Black], path) && c[src := Black][src] == Black
    ensures Kept(c0, o0, c[src := Black], to[src := time + 1])
  {
    Leave(adj, c, ti, to, time, src, path);
    KeptTrans(c0, o0, c1, o0, c, to);
    KeptTrans(c0, o0, c, to, c[src := Black], to[src := time + 1]);
  }

  /**
   * The recursive `lambda` of `topo_sort` (and, without the time stamps, of
   * `is_dag`): colour `src` gray and stamp its entry, run through its
   * adjacency list, then stamp its exit, colour it black and report whether
   * no failure was seen.
   */
  method Visit(adj: seq<seq<Edge>>, colour: array<int>, inTime: array<int>, outTime: array<int>,
               time0: int, src: nat, ghost path: seq<nat>)
    returns (ok: bool, time: int)
    requires WellFormed(adj) && colour != inTime && colour != outTime && inTime != outTime
    requires Good(adj, colour[..], inTime[..], outTime[..], time0) && GrayAre(colour[..], path)
    requires src < |adj| && colour[src] == White && IsPath(adj, path + [src])
    modifies colour, inTime, outTime
    decreases Whites(colour[..]), 0
    ensures Whites(colour[..]) <= old(Whites(colour[..])) - {src}
    ensures !ok ==> HasCycle(adj)
    ensures ok ==> && Good(adj, colour[..], inTime[..], outTime[..], time) && GrayAre(colour[..], path)
                   && colour[src] == Black && Kept(old(colour[..]), old(outTime[..]), colour[..], outTime[..])
  {
    ghost var c0, o0 := colour[..], outTime[..];
    Enter(adj, c0, inTime[..], o0, time0, src, path);
    time := time0 + 1;
    Paint(colour, inTime, src, Gray, time);
    ghost var c1 := colour[..];
    var isok := true;
    for k := 0 to |adj[src]|
      invariant Whites(colour[..]) <= Whites(c0) - {src}
      invariant !isok ==> HasCycle(adj)
      invariant isok ==> Expanding(adj, colour[..], inTime[..], outTime[..], time, src, path, k, c1, o0)
    {
      var stop;
      isok, stop, time := Follow(adj, colour, inTime, outTime, time, src, path, k, isok, Whites(c0), c1, o0);
      if stop {
        return false, time;
      }
    }
    time := Leaving(adj, colour, inTime, outTime, time, src, path, isok, c0, o0, c1);
    ok := isok;
  }

  /** The end of the recursive `lambda`: stamp the exit of `src` and colour it black. */
  method Leaving(adj: seq<seq<Edge>>, colour: array<int>, inTime: array<int>, outTime: array<int>,
                 time0: int, src: nat, ghost path: seq<nat>, isok: bool,
                 ghost c0: seq<int>, ghost o0: seq<int>, ghost c1: seq<int>)
    returns (time: int)
    requires colour != inTime && colour != outTime && inTime != outTime
    requires src < |adj| && src < colour.Length && src < outTime.Length
    requires Whites(colour[..]) <= Whites(c0) - {src}
    requires isok ==> Expanding(adj, colour[..], inTime[..], outTime[..], time0, src, path, |adj[src]|, c1, o0)
    requires isok ==> Kept(c0, o0, c1, o0) && src !in path
    modifies colour, outTime
    ensures Whites(colour[..]) <= Whites(c0) - {src}
    ensures isok ==> && Good(adj, colour[..], inTime[..], outTime[..], time) && GrayAre(colour[..], path)
                     && colour[src] == Black && Kept(c0, o0, colour[..], outTime[..])
  {
    ghost var c3, o3 := colour[..], outTime[..];
    if isok {
      Close(adj, c0, o0, c1, c3, inTime[..], o3, time0, src, path);
    }
    WhitesShrink(c3, src, Black);
    time := time0 + 1;
    Paint(colour, outTime, src, Black, time);
  }

  /** `vis[src] = colour` together with one time stamp, `stamps[src] = time`. */
  method Paint(colour: array<int>, stamps: array<int>, src: nat, c: int, time: int)
    requires colour != stamps && src < colour.Length && src < stamps.Length
    modifies colour, stamps
    ensures colour[..] == old(colour[..])[src := c] && stamps[..] == old(stamps[..])[src := time]
  {
    stamps[src] := time;
    colour[src] := c;
  }

  /**
   * One pass of the adjacency loop of the recursive `lambda`: a white
   * successor is searched from while no failure has been seen
   * (`isok && func(x)` evaluates `func` only while `isok` holds); a gray
   * successor makes the whole call fail at once (`stop`); a black one is
   * passed over.
   */
  method Follow(adj: seq<seq<Edge>>, colour: array<int>, inTime: array<int>, outTime: array<int>,
                time0: int, src: nat, ghost path: seq<nat>, k: nat, isok0: bool,
                ghost w: set<nat>, ghost c1: seq<int>, ghost o1: seq<int>)
    returns (isok: bool, stop: bool, time: int)
    requires WellFormed(adj) && colour != inTime && colour != outTime && inTime != outTime
    requires src < |adj| && k < |adj[src]| && IsPath(adj, path + [src])
    requires Whites(colour[..]) <= w - {src}
    requires !isok0 ==> HasCycle(adj)
    requires isok0 ==> Expanding(adj, colour[..], inTime[..], outTime[..], time0, src, path, k, c1, o1)
    requires colour.Length == |adj|
    modifies colour, inTime, outTime
    decreases Whites(colour[..]), 1
    ensures Whites(colour[..]) <= w - {src}
    ensures !isok || stop ==> HasCycle(adj)
    ensures isok && !stop ==> Expanding(adj, colour[..], inTime[..], outTime[..], time, src, path, k + 1, c1, o1)
  {
    isok, stop, time := isok0, false, time0;
    var x := adj[src][k].to;
    assert HasEdge(adj, src, x);
    if colour[x] == White {
      if isok {
        PathSnoc(adj, path + [src], x);
        ghost var c2, o2 := colour[..], outTime[..];
        ghost var ti2 := inTime[..];
        isok, time := Visit(adj, colour, inTime, outTime, time, x, path + [src]);
        if isok {
          Advance(adj, c2, ti2, o2, time0, colour[..], inTime[..], outTime[..], time, src, path, k, c1, o1);
        }
      }
    } else if colour[x] == Gray {
      if isok {
        EdgeBackIsCycle(adj, path + [src], x);
      }
      stop := true;
    } else if isok {
      Advance(adj, colour[..], inTime[..], outTime[..], time, colour[..], inTime[..], outTime[..], time, src, path, k, c1, o1);
    }
  }

  /** Once successor `k` of `src` is finished, by a nested search or already, one more successor is done. */
  lemma Advance(adj: seq<seq<Edge>>, c2: seq<int>, ti2: seq<int>, o2: seq<int>, t2: int,
                c: seq<int>, ti: seq<int>, to: seq<int>, time: int,
                src: nat, path: seq<nat>, k: nat, c1: seq<int>, o1: seq<int>)
    requires Expanding(adj, c2, ti2, o2, t2, src, path, k, c1, o1) && k < |adj[src]|
    requires Good(adj, c, ti, to, time) && GrayAre(c, path + [src]) && Kept(c2, o2, c, to)
    requires adj[src][k].to < |c| && c[adj[src][k].to] == Black
    ensures Expanding(adj, c, ti, to, time, src, path, k + 1, c1, o1)
  {
    KeptTrans(c1, o1, c2, o2, c, to);
  }

  /**
   * The outer loop of `is_dag` and `topo_sort`: start a search from every
   * node still white, in index order, and stop at the first failure.
   */
  method ExploreAll(adj: seq<seq<Edge>>, colour: array<int>, inTime: array<int>, outTime: array<int>)
    returns (ok: bool, time: int)
    requires WellFormed(adj) && colour != inTime && colour != outTime && inTime != outTime
    requires colour.Length == |adj| && inTime.Length == |adj| && outTime.Length == |adj|
    requires forall u :: 0 <= u < colour.Length ==> colour[u] == White
    modifies colour, inTime, outTime
    ensures !ok ==> HasCycle(adj)
    ensures ok ==> Good(adj, colour[..], inTime[..], outTime[..], time)
    ensures ok ==> forall u :: 0 <= u < |adj| ==> colour[u] == Black
  {
    time := 0;
    for i := 0 to |adj|
      invariant Good(adj, colour[..], inTime[..], outTime[..], time) && GrayAre(colour[..], [])
      invariant forall u :: 0 <= u < i ==> colour[u] == Black
    {
      if colour[i] == White {
        ghost var c, o := colour[..], outTime[..];
        assert [] + [i] == [i];
        var r;
        r, time := Visit(adj, colour, inTime, outTime, time, i, []);
        if !r {
          return false, time;
        }
      }
    }
    ok := true;
  }

  /** When every node is finished, exit times fall along every edge, so there is no cycle. */
  lemma FinishedIsAcyclic(adj: seq<seq<Edge>>, c: seq<int>, ti: seq<int>, to: seq<int>, time: int)
    requires Good(adj, c, ti, to, time) && forall u :: 0 <= u < |adj| ==> c[u] == Black
    ensures !HasCycle(adj)
  {
    forall u: nat, v: nat | HasEdge(adj, u, v)
      ensures u < |to| && v < |to| && to[v] < to[u]
    {
      var k :| 0 <= k < |adj[u]| && adj[u][k].to == v;
    }
    RankedIsAcyclic(adj, to);
  }

  /** `s` lists indices of `key` in order of non-increasing key. */
  ghost predicate Descending(s: seq<nat>, key: seq<int>) {
    && (forall i :: 0 <= i < |s| ==> s[i] < |key|)
    && (forall i, j :: 0 <= i < j < |s| ==> key[s[i]] >= key[s[j]])
  }

  /**
   * The `sort` call of `topo_sort` with the comparator
   * `out_time[i] > out_time[j]`, done as an insertion sort: afterwards `v`
   * holds the same indices, by non-increasing key.
   */
  method SortByKey(v: array<nat>, key: array<int>)
    requires forall i :: 0 <= i < v.Length ==> v[i] < key.Length
    modifies v
    ensures multiset(v[..]) == old(multiset(v[..]))
    ensures Descending(v[..], key[..])
  {
    var i := 0;
    while i < v.Length
      invariant 0 <= i <= v.Length
      invariant multiset(v[..]) == old(multiset(v[..]))
      invariant forall m :: 0 <= m < v.Length ==> v[m] < key.Length
      invariant forall a, b :: 0 <= a < b < i ==> key[v[a]] >= key[v[b]]
    {
      Sink(v, key, i);
      i := i + 1;
    }
  }

  /** One insertion step: move `v[i]` down past the larger-keyed entries before it. */
  method Sink(v: array<nat>, key: array<int>, i: nat)
    requires i < v.Length && forall m :: 0 <= m < v.Length ==> v[m] < key.Length
    requires forall a, b :: 0 <= a < b < i ==> key[v[a]] >= key[v[b]]
    modifies v
    ensures multiset(v[..]) == old(multiset(v[..]))
    ensures forall m :: 0 <= m < v.Length ==> v[m] < key.Length
    ensures forall a, b :: 0 <= a < b <= i ==> key[v[a]] >= key[v[b]]
  {
    var j := i;
    while j > 0 && key[v[j - 1]] < key[v[j]]
      invariant 0 <= j <= i
      invariant multiset(v[..]) == old(multiset(v[..]))
      invariant forall m :: 0 <= m < v.Length ==> v[m] < key.Length
      invariant forall a, b :: 0 <= a < b <= i && b != j ==> key[v[a]] >= key[v[b]]
      invariant 0 < j < i ==> key[v[j - 1]] >= key[v[j + 1]]
    {
      Swap(v, j);
      j := j - 1;
    }
  }

  /** Exchange `v[j - 1]` and `v[j]`. */
  method Swap(v: array<nat>, j: nat)
    requires 0 < j < v.Length
    modifies v
    ensures v[..] == old(v[..])[j - 1 := old(v[j])][j := old(v[j - 1])]
    ensures multiset(v[..]) == old(multiset(v[..]))
  {
    v[j - 1], v[j] := v[j], v[j - 1];
  }

  /**
   * Listing finished nodes by non-increasing exit time puts the tail of
   * every edge before its head.
   */
  lemma EdgesGoForward(adj: seq<seq<Edge>>, c: seq<int>, ti: seq<int>, to: seq<int>, time: int, r: seq<nat>)
    requires Good(adj, c, ti, to, time) && forall u :: 0 <= u < |adj| ==> c[u] == Black
    requires Descending(r, to)
    ensures forall i, j :: 0 <= i < |r| && 0 <= j < |r| && HasEdge(adj, r[i], r[j]) ==> i < j
  {
    forall i, j | 0 <= i < |r| && 0 <= j < |r| && HasEdge(adj, r[i], r[j])
      ensures i < j
    {
      var k :| 0 <= k < |adj[r[i]]| && adj[r[i]][k].to == r[j];
      assert to[r[j]] < to[r[i]];
    }
  }

  /**
   * `Directed_Graph::topo_sort` on indices: empty when the graph has a cycle;
   * otherwise every node exactly once, each edge's tail before its head.
   */
  method TopoSort(adj: seq<seq<Edge>>) returns (r: seq<nat>)
    requires WellFormed(adj)
    ensures HasCycle(adj) ==> r == []
    ensures !HasCycle(adj) ==> multiset(r) == multiset(Iota(|adj|))
    ensures !HasCycle(adj) ==> forall i, j :: 0 <= i < |r| && 0 <= j < |r| && HasEdge(adj, r[i], r[j]) ==> i < j
  {
    var n := |adj|;
    var colour := new int[n](_ => White);
    var inTime := new int[n](_ => 0);
    var outTime := new int[n](_ => 0);
    var ok, time := ExploreAll(adj, colour, inTime, outTime);
    if !ok {
      return [];
    }
    FinishedIsAcyclic(adj, colour[..], inTime[..], outTime[..], time);
    var v := new nat[n](i => i);
    assert v[..] == Iota(n);
    SortByKey(v, outTime);
    r := v[..];
    EdgesGoForward(adj, colour[..], inTime[..], outTime[..], time, r);
  }

  /** `Directed_Graph::is_dag`, with the answer its test expects: true exactly when there is no cycle. */
  method IsDag(adj: seq<seq<Edge>>) returns (dag: bool)
    requires WellFormed(adj)
    ensures dag <==> !HasCycle(adj)
  {
    var n := |adj|;
    var colour := new int[n](_ => White);
    var inTime := new int[n](_ => 0);
    var outTime := new int[n](_ => 0);
    var ok, time := ExploreAll(adj, colour, inTime, outTime);
    if ok {
      FinishedIsAcyclic(adj, colour[..], inTime[..], outTime[..], time);
    }
    dag := ok;
  }

  /**
   * `Directed_Graph::is_dag` as written: it returns `true` as soon as a
   * search fails and `false` when all succeed, so it answers "has a cycle".
   */
  method IsDagAsWritten(adj: seq<seq<Edge>>) returns (dag: bool)
    requires WellFormed(adj)
    ensures dag <==> HasCycle(adj)
  {
    var n := |adj|;
    var colour := new int[n](_ => White);
    var inTime := new int[n](_ => 0);
    var outTime := new int[n](_ => 0);
    var ok, time := ExploreAll(adj, colour, inTime, outTime);
    if ok {
      FinishedIsAcyclic(adj, colour[..], inTime[..], outTime[..], time);
    }
    dag := !ok;
  }

  ghost function Unseen(s: seq<bool>): set<nat> {
    set u: nat | u < |s| && !s[u]
  }

  /**
   * The recursive `lambda` of `topo_sort` as written, where `vis` is an
   * array of `bool`: storing gray (1) and black (2) both store `true`, and
   * reading back a `true` entry compares equal to gray. So every edge into
   * an already visited node, finished or not, makes the call fail.
   */
  method VisitAsWritten(adj: seq<seq<Edge>>, seen: array<bool>, inTime: array<int>, outTime: array<int>,
                        time0: int, src: nat)
    returns (ok: bool, time: int)
    requires WellFormed(adj) && inTime != outTime
    requires seen.Length == |adj| && inTime.Length == |adj| && outTime.Length == |adj|
    requires src < |adj| && !seen[src]
    modifies seen, inTime, outTime
    decreases Unseen(seen[..])
    ensures Unseen(seen[..]) <= old(Unseen(seen[..])) - {src}
    ensures ok ==> forall u, k :: u in old(Unseen(seen[..])) - Unseen(seen[..]) && 0 <= k < |adj[u]| ==>
      adj[u][k].to in old(Unseen(seen[..])) - {src}
  {
    ghost var s0 := Unseen(seen[..]);
    time := time0 + 1;
    inTime[src] := time;
    seen[src] := true;
    var isok := true;
    for k := 0 to |adj[src]|
      invariant Unseen(seen[..]) <= s0 - {src}
      invariant isok ==> forall u, k' :: u in s0 - Unseen(seen[..]) && u != src && 0 <= k' < |adj[u]| ==>
        adj[u][k'].to in s0 - {src}
      invariant isok ==> forall k' :: 0 <= k' < k ==> adj[src][k'].to in s0 - {src}
    {
      var x := adj[src][k].to;
      if !seen[x] {
        assert x in Unseen(seen[..]);
        if isok {
          ghost var s1 := Unseen(seen[..]);
          isok, time := VisitAsWritten(adj, seen, inTime, outTime, time, x);
          if isok {
            forall u | u in s0 - Unseen(seen[..]) && u != src
              ensures u in s0 - s1 || u in s1 - Unseen(seen[..])
            {
            }
          }
        }
      } else {
        return false, time;
      }
    }
    time := time + 1;
    outTime[src] := time;
    seen[src] := true;
    ok := isok;
  }

  /**
   * `Directed_Graph::topo_sort` as written. Because of the `bool` colour
   * array it fails whenever any edge enters node 0: node 0 is visited first,
   * so every edge into it is met once it is already visited.
   */
  method TopoSortAsWritten(adj: seq<seq<Edge>>) returns (r: seq<nat>)
    requires WellFormed(adj)
    ensures (exists u, k :: 0 <= u < |adj| && 0 <= k < |adj[u]| && adj[u][k].to == 0) ==> r == []
  {
    var n := |adj|;
    var seen := new bool[n](_ => false);
    var inTime := new int[n](_ => 0);
    var outTime := new int[n](_ => 0);
    var time := 0;
    for i := 0 to n
      invariant forall u :: 0 <= u < n && seen[u] ==> forall k :: 0 <= k < |adj[u]| ==> adj[u][k].to != 0
      invariant i > 0 ==> seen[0]
      invariant forall u :: 0 <= u < i ==> seen[u]
    {
      if !seen[i] {
        ghost var s1 := Unseen(seen[..]);
        assert i in s1;
        var ok;
        ok, time := VisitAsWritten(adj, seen, inTime, outTime, time, i);
        if !ok {
          return [];
        }
        forall u | 0 <= u < n && seen[u]
          ensures forall k :: 0 <= k < |adj[u]| ==> adj[u][k].to != 0
        {
          if u in s1 {
            assert u in s1 - Unseen(seen[..]);
          }
        }
        forall u | 0 <= u <= i
          ensures seen[u]
        {
          assert u !in Unseen(seen[..]);
        }
      }
    }
    var v := new nat[n](i => i);
    SortByKey(v, outTime);
    r := v[..];
  }
}
