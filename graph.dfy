/**
 * The graph object of graph_library.h (`Base` with its directed and
 * undirected analyses) over node labels.
 *
 * The label registry `gmap` is keyed by the ADDRESS of the label object, so
 * two labels with equal values are still two nodes. Labels are therefore a
 * class here and are compared by reference. A registered label has a dense
 * index `0 .. n - 1`, `idx` maps labels to indices, `node` maps indices back,
 * and `adj[i]` lists the edges leaving node `i` as `(to, payload)` entries.
 */
module Graphs {
  import opened Wrappers
  import opened Adjacency
  import Traversal
  import Directed
  import Kruskal

  /** A node label: an object whose identity, not its value, names the node. */
  class Label {
    const value: int

    constructor (value: int)
      ensures this.value == value
    {
      this.value := value;
    }
  }

  /** The registry part of the graph state that `add_node` changes. */
  datatype Registry = Registry(idx: map<Label, nat>, node: map<nat, Label>, adj: seq<seq<Edge>>, n: nat)

  /**
   * `idx` and `node` are inverse bijections between the registered labels
   * and `[0, n)`, and there is one adjacency list per node.
   */
  ghost predicate Bijective(r: Registry) {
    && |r.adj| == r.n
    && |r.idx| == r.n
    && (forall l :: l in r.idx ==> r.idx[l] < r.n && r.idx[l] in r.node && r.node[r.idx[l]] == l)
    && (forall i :: i in r.node ==> i < r.n)
    && (forall i: nat :: i < r.n ==> i in r.node && r.node[i] in r.idx && r.idx[r.node[i]] == i)
  }

  /** `add_node` on one label: a label already present changes nothing. */
  function Register(r: Registry, l: Label): Registry {
    if l in r.idx then r
    else Registry(r.idx[l := r.n], r.node[r.n := l], r.adj + [[]], r.n + 1)
  }

  /** `add_node` on a vector: `Register` applied to each label in order. */
  function RegisterAll(r: Registry, ls: seq<Label>): Registry
    decreases |ls|
  {
    if ls == [] then r else Register(RegisterAll(r, ls[..|ls| - 1]), ls[|ls| - 1])
  }

  /** The labels of a sequence, as a set (so repeated objects count once). */
  ghost function Elements(ls: seq<Label>): set<Label> {
    set l | l in ls
  }

  /** Registering a label keeps the bijection, and a new one gets index `n`. */
  lemma RegisterKeeps(r: Registry, l: Label)
    requires Bijective(r)
    ensures Bijective(Register(r, l))
    ensures l in Register(r, l).idx
    ensures l !in r.idx ==> Register(r, l).idx[l] == r.n && Register(r, l).n == r.n + 1
    ensures l in r.idx ==> Register(r, l) == r
  {
    if l !in r.idx {
      var s := Register(r, l);
      forall i: nat | i < s.n
        ensures i in s.node && s.node[i] in s.idx && s.idx[s.node[i]] == i
      {
        if i < r.n {
          assert s.node[i] == r.node[i] && r.node[i] != l;
        }
      }
    }
  }

  /** Registering a vector keeps the bijection. */
  lemma {:induction false} RegisterAllKeeps(r: Registry, ls: seq<Label>)
    requires Bijective(r)
    ensures Bijective(RegisterAll(r, ls))
    decreases |ls|
  {
    if ls != [] {
      RegisterAllKeeps(r, ls[..|ls| - 1]);
      RegisterKeeps(RegisterAll(r, ls[..|ls| - 1]), ls[|ls| - 1]);
    }
  }

  /** Registering a vector adds its labels to the registered ones and keeps the earlier indices. */
  lemma {:induction false} RegisterAllKeys(r: Registry, ls: seq<Label>)
    ensures RegisterAll(r, ls).idx.Keys == r.idx.Keys + Elements(ls)
    ensures forall l :: l in r.idx ==> RegisterAll(r, ls).idx[l] == r.idx[l]
    decreases |ls|
  {
    if ls == [] {
      assert Elements(ls) == {};
    } else {
      RegisterAllKeys(r, ls[..|ls| - 1]);
      ElementsSnoc(ls);
    }
  }

  /**
   * Registering a vector makes `n` grow by the number of distinct labels of
   * the vector that were not registered before.
   */
  lemma {:induction false} RegisterAllCounts(r: Registry, ls: seq<Label>)
    ensures RegisterAll(r, ls).n == r.n + |Elements(ls) - r.idx.Keys|
    decreases |ls|
  {
    if ls == [] {
      assert Elements(ls) == {};
    } else {
      var front, last := ls[..|ls| - 1], ls[|ls| - 1];
      RegisterAllCounts(r, front);
      RegisterAllKeys(r, front);
      ElementsSnoc(ls);
      var m, keys := RegisterAll(r, front), r.idx.Keys;
      NewLabels(keys, Elements(front), last);
      assert RegisterAll(r, ls) == Register(m, last);
      if last in m.idx {
        assert RegisterAll(r, ls).n == m.n;
        assert Elements(ls) - keys == Elements(front) - keys;
      } else {
        assert RegisterAll(r, ls).n == m.n + 1;
        assert |Elements(ls) - keys| == |Elements(front) - keys| + 1;
      }
    }
  }

  lemma ElementsSnoc(ls: seq<Label>)
    requires ls != []
    ensures Elements(ls) == Elements(ls[..|ls| - 1]) + {ls[|ls| - 1]}
  {
    assert ls == ls[..|ls| - 1] + [ls[|ls| - 1]];
  }

  /** Adding one label to a vector adds one new label, unless it is registered or repeated. */
  lemma NewLabels(registered: set<Label>, seen: set<Label>, l: Label)
    ensures l in registered + seen ==> (seen + {l}) - registered == seen - registered
    ensures l !in registered + seen ==> |(seen + {l}) - registered| == |seen - registered| + 1
  {
    if l !in registered + seen {
      assert (seen + {l}) - registered == (seen - registered) + {l};
    }
  }

  /** One label-level traversal record (`traversal<N, int>`). */
  datatype Record = Record(node: Label, parent: Label, distance: int)

  /** One accepted edge by label (`full_edge<N, E>`). */
  datatype LabelEdge = LabelEdge(u: Label, v: Label, edge: int)

  /** Label records for index records of registered nodes. */
  function Named(names: map<nat, Label>, vs: seq<Traversal.Visit>): (rs: seq<Record>)
    requires forall j :: 0 <= j < |vs| ==> vs[j].node in names && vs[j].parent in names
    ensures |rs| == |vs|
    ensures forall j :: 0 <= j < |vs| ==> rs[j] == Record(names[vs[j].node], names[vs[j].parent], vs[j].distance)
  {
    seq(|vs|, j requires 0 <= j < |vs| => Record(names[vs[j].node], names[vs[j].parent], vs[j].distance))
  }

  /** Labels for registered node indices. */
  function LabelsOf(names: map<nat, Label>, r: seq<nat>): (ls: seq<Label>)
    requires forall j :: 0 <= j < |r| ==> r[j] in names
    ensures |ls| == |r| && forall j :: 0 <= j < |r| ==> ls[j] == names[r[j]]
  {
    seq(|r|, j requires 0 <= j < |r| => names[r[j]])
  }

  /** Label edges for index edges between registered nodes. */
  function LabelEdges(names: map<nat, Label>, fs: seq<Kruskal.FullEdge>): (v: seq<LabelEdge>)
    requires forall j :: 0 <= j < |fs| ==> fs[j].u in names && fs[j].v in names
    ensures |v| == |fs|
    ensures forall j :: 0 <= j < |fs| ==> v[j] == LabelEdge(names[fs[j].u], names[fs[j].v], fs[j].edge)
  {
    seq(|fs|, j requires 0 <= j < |fs| => LabelEdge(names[fs[j].u], names[fs[j].v], fs[j].edge))
  }

  /** The ends of accepted edges between registered nodes are registered. */
  lemma ChosenRegistered(names: map<nat, Label>, acc: seq<Kruskal.Candidate>, m: map<(nat, nat), int>)
    requires forall c :: c in acc ==> c.x in names && c.i in names
    ensures forall j :: 0 <= j < |acc| ==> Kruskal.Chosen(acc, m)[j].u in names && Kruskal.Chosen(acc, m)[j].v in names
  {
    forall j | 0 <= j < |acc|
      ensures Kruskal.Chosen(acc, m)[j].u in names && Kruskal.Chosen(acc, m)[j].v in names
    {
      assert acc[j] in acc;
    }
  }

  /**
   * A graph (`Base`). `directed` selects the configuration: a directed
   * graph stores an edge once, an undirected one in both directions.
   */
  class Graph {
    const directed: bool
    var idx: map<Label, nat>
    var node: map<nat, Label>
    var n: nat
    var e: nat
    var getEdge: map<(nat, nat), int>
    var adj: seq<seq<Edge>>

    ghost function State(): Registry
      reads this
    {
      Registry(idx, node, adj, n)
    }

    ghost predicate Valid()
      reads this
    {
      Bijective(State()) && WellFormed(adj)
    }

    /** An empty graph: no nodes, no edges (the member initialisers `n = 0, e = 0`). */
    constructor (directed: bool)
      ensures Valid() && this.directed == directed
      ensures idx == map[] && node == map[] && adj == [] && n == 0 && e == 0 && getEdge == map[]
    {
      this.directed := directed;
      idx, node, adj, n, e, getEdge := map[], map[], [], 0, 0, map[];
    }

    /** `count_node`: the number of registered labels; nothing changes. */
    method CountNode() returns (count: nat)
      requires Valid()
      ensures count == |idx| && count == |adj|
    {
      count := n;
    }

    /** `count_edge`: the number of `add_edge` calls so far; nothing changes. */
    method CountEdge() returns (count: nat)
      ensures count == e
    {
      count := e;
    }

    /**
     * `add_node` on one label: an unregistered label gets index `n`, an
     * empty adjacency list and `n` grows by one; a registered one changes
     * nothing. The registry stays a bijection.
     */
    method AddNode(key: Label)
      requires Valid()
      modifies this
      ensures Valid()
      ensures State() == Register(old(State()), key)
      ensures old(key in idx) ==> State() == old(State())
      ensures old(key !in idx) ==>
        idx == old(idx)[key := old(n)] && node == old(node)[old(n) := key] && adj == old(adj) + [[]] && n == old(n) + 1
      ensures e == old(e) && getEdge == old(getEdge)
    {
      RegisterKeeps(State(), key);
      if key !in idx {
        idx := idx[key := n];
        node := node[n := key];
        adj := adj + [[]];
        n := n + 1;
      }
      assert WellFormed(adj) by {
        forall u, k | 0 <= u < |adj| && 0 <= k < |adj[u]|
          ensures adj[u][k].to < |adj|
        {
          assert u < |old(adj)|;
        }
      }
    }

    /**
     * `add_node` on a vector: each label in order, so the node count grows
     * by the number of distinct new label objects.
     */
    method AddNodes(labels: seq<Label>)
      requires Valid()
      modifies this
      ensures Valid()
      ensures State() == RegisterAll(old(State()), labels)
      ensures idx.Keys == old(idx).Keys + Elements(labels)
      ensures n == old(n) + |Elements(labels) - old(idx).Keys|
      ensures e == old(e) && getEdge == old(getEdge)
    {
      ghost var r0 := State();
      for i := 0 to |labels|
        invariant Valid()
        invariant State() == RegisterAll(r0, labels[..i])
        invariant e == old(e) && getEdge == old(getEdge)
      {
        assert labels[..i + 1][..i] == labels[..i];
        AddNode(labels[i]);
      }
      assert labels[..|labels|] == labels;
      RegisterAllCounts(r0, labels);
      RegisterAllKeys(r0, labels);
      RegisterAllKeeps(r0, labels);
    }

    /**
     * `add_edge` through its observable effect (its body is not part of
     * this model): the edge `u -> v` is appended, and for an undirected
     * graph also `v -> u`; the stored edge value is kept in `get_edge`, and
     * the edge count grows by one. The node count stays the same.
     */
    method AddEdge(u: Label, v: Label, payload: int)
      requires Valid() && u in idx && v in idx
      modifies this
      ensures Valid()
      ensures idx == old(idx) && node == old(node) && n == old(n) && e == old(e) + 1
      ensures var a := old(adj)[old(idx[u]) := old(adj)[old(idx[u])] + [Edge(old(idx[v]), payload)]];
        adj == if directed then a else a[old(idx[v]) := a[old(idx[v])] + [Edge(old(idx[u]), payload)]]
      ensures getEdge == if directed then old(getEdge)[(old(idx[u]), old(idx[v])) := payload]
        else old(getEdge)[(old(idx[u]), old(idx[v])) := payload][(old(idx[v]), old(idx[u])) := payload]
    {
      var iu, iv := idx[u], idx[v];
      ghost var a0 := adj;
      adj := adj[iu := adj[iu] + [Edge(iv, payload)]];
      getEdge := getEdge[(iu, iv) := payload];
      if !directed {
        adj := adj[iv := adj[iv] + [Edge(iu, payload)]];
        getEdge := getEdge[(iv, iu) := payload];
      }
      e := e + 1;
      assert WellFormed(adj) by {
        forall x, k | 0 <= x < |adj| && 0 <= k < |adj[x]|
          ensures adj[x][k].to < |adj|
        {
          assert adj[x][k] in a0[x] || adj[x][k].to == iu || adj[x][k].to == iv;
        }
      }
    }

    /**
     * The index of a label, without touching the registry: `None` for a
     * label that was never added.
     */
    method IndexOf(key: Label) returns (i: Option<nat>)
      requires Valid()
      ensures key in idx <==> i.Some?
      ensures i.Some? ==> i.value < n && node[i.value] == key
    {
      if key in idx {
        i := Some(idx[key]);
      } else {
        i := None;
      }
    }

    /**
     * The lookup `idx[source_node]` as `bfs` and `dfs` perform it:
     * `gmap::operator[]` inserts a missing label with index 0, so on a
     * graph with nodes an unknown label is mapped onto node 0's index and
     * the registry stops being a bijection.
     */
    method LookupAsWritten(key: Label) returns (i: nat)
      requires Valid()
      modifies this
      ensures old(key in idx) ==> i == old(idx[key]) && idx == old(idx)
      ensures old(key !in idx) ==> i == 0 && idx == old(idx)[key := 0]
      ensures old(key !in idx) && old(n) > 0 ==> !Valid()
      ensures node == old(node) && adj == old(adj) && n == old(n) && e == old(e) && getEdge == old(getEdge)
    {
      if key !in idx {
        idx := idx[key := 0];
        if n > 0 {
          var first := node[0];
          assert first in idx && idx[first] == 0 && first != key;
          assert node[idx[key]] != key;
        }
      }
      i := idx[key];
    }

    /** The nodes and parents of a traversal are registered nodes. */
    lemma NodesRegistered(src: nat, depth: int, vs: seq<Traversal.Visit>)
      requires Valid() && Traversal.IsTraversal(adj, src, depth, vs)
      ensures forall j :: 0 <= j < |vs| ==> vs[j].node in node && vs[j].parent in node
    {
      forall j | 0 <= j < |vs|
        ensures vs[j].node in node && vs[j].parent in node
      {
        if j > 0 {
          var k :| 0 <= k < j && vs[k].node == vs[j].parent && vs[j].distance == vs[k].distance + 1;
          assert vs[k].node < n;
        }
      }
    }

    /**
     * `bfs` from a label, with the intended depth check and an unknown
     * label answered by `None` (instead of the insertion above): the
     * records are a traversal from the label's node in distance order, each
     * at its shortest distance (`Traversal.BfsShortest`).
     */
    method Bfs(source: Label, depth: int) returns (rs: Option<seq<Record>>, vs: seq<Traversal.Visit>)
      requires Valid()
      ensures source !in idx <==> rs == None
      ensures source in idx ==>
        && Traversal.IsTraversal(adj, idx[source], depth, vs)
        && Traversal.NonDecreasing(vs) && Traversal.Layering(adj, vs, depth)
        && rs == Some(Named(node, vs))
    {
      var i := IndexOf(source);
      if i.None? {
        return None, [];
      }
      vs := Traversal.Bfs(adj, i.value, depth);
      NodesRegistered(i.value, depth, vs);
      rs := Some(Named(node, vs));
    }

    /** `dfs` from a label, as `Bfs` but with a stack and no distance order. */
    method Dfs(source: Label, depth: int) returns (rs: Option<seq<Record>>, vs: seq<Traversal.Visit>)
      requires Valid()
      ensures source !in idx <==> rs == None
      ensures source in idx ==> Traversal.IsTraversal(adj, idx[source], depth, vs) && rs == Some(Named(node, vs))
    {
      var i := IndexOf(source);
      if i.None? {
        return None, [];
      }
      vs := Traversal.Dfs(adj, i.value, depth);
      NodesRegistered(i.value, depth, vs);
      rs := Some(Named(node, vs));
    }

    /** `is_dag` of a directed graph, with the tested meaning: no cycle. */
    method IsDag() returns (dag: bool)
      requires Valid() && directed
      ensures dag <==> !HasCycle(adj)
    {
      dag := Directed.IsDag(adj);
    }

    /**
     * `topo_sort` of a directed graph, by label: empty on a cycle, otherwise
     * every node once with each edge's tail before its head.
     */
    method TopoSort() returns (ls: seq<Label>, order: seq<nat>)
      requires Valid() && directed
      ensures HasCycle(adj) ==> ls == []
      ensures !HasCycle(adj) ==>
        && multiset(order) == multiset(Directed.Iota(n))
        && (forall i, j :: 0 <= i < |order| && 0 <= j < |order| && HasEdge(adj, order[i], order[j]) ==> i < j)
        && (forall j :: 0 <= j < |order| ==> order[j] in node)
        && ls == LabelsOf(node, order)
    {
      order := Directed.TopoSort(adj);
      forall j | 0 <= j < |order|
        ensures order[j] in node
      {
        assert !HasCycle(adj) && order[j] in multiset(Directed.Iota(n));
        assert order[j] < n;
      }
      ls := LabelsOf(node, order);
    }

    /**
     * `krushkal_mst` of an undirected graph with integer weights, by label:
     * the total and the accepted edges are those of the reference rule
     * `Kruskal.Accept`, and `get_edge` gains a 0 for every accepted pair it
     * did not hold.
     */
    method KruskalMst(weight: int -> int) returns (total: int, v: seq<LabelEdge>)
      requires Valid() && !directed
      modifies this
      ensures Valid()
      ensures idx == old(idx) && node == old(node) && adj == old(adj) && n == old(n) && e == old(e)
      ensures var acc := Kruskal.Accept(Kruskal.Queue(adj, weight), Kruskal.Singletons(|adj|));
        && total == Kruskal.SumWeights(acc)
        && Kruskal.Looked(old(getEdge), acc, getEdge)
        && v == LabelEdges(node, Kruskal.Chosen(acc, old(getEdge)))
    {
      var fs, edges;
      ghost var g0 := getEdge;
      ghost var acc := Kruskal.Accept(Kruskal.Queue(adj, weight), Kruskal.Singletons(|adj|));
      total, fs, edges := Kruskal.KruskalMst(adj, weight, getEdge);
      assert fs == Kruskal.Chosen(acc, g0) && Kruskal.Looked(g0, acc, edges);
      ChosenRegistered(node, acc, g0);
      v := LabelEdges(node, fs);
      getEdge := edges;
    }
  }
}
