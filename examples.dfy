/**
 * The assertions of the repository's tests, restated as facts about the
 * model (Tester_Codes/test_graph.cpp, Tester_Codes/test_Directed_Graph.cpp
 * and Tester_Codes/test_Undirected_Graph.cpp), and the small graph that
 * separates `topo_sort` as written from the corrected one.
 */
module Examples {
  import opened Adjacency
  import Directed
  import Kruskal
  import KruskalExample
  import opened Graphs

  /** `add_edge(hub, x)` for each `x` of `spokes` in turn, as the test's loop does. */
  method Star(g: Graph, hub: Label, spokes: seq<Label>)
    requires g.Valid() && hub in g.idx && forall l :: l in spokes ==> l in g.idx
    modifies g
    ensures g.Valid() && g.n == old(g.n) && g.e == old(g.e) + |spokes|
  {
    for i := 0 to |spokes|
      invariant g.Valid() && g.n == old(g.n) && g.e == old(g.e) + i
      invariant g.idx == old(g.idx)
    {
      g.AddEdge(hub, spokes[i], 0);
    }
  }

  /** Five distinct objects make a five-element label set. */
  lemma FiveDistinct(a: Label, b: Label, c: Label, d: Label, f: Label)
    requires a != b && a != c && a != d && a != f && b != c && b != d && b != f && c != d && c != f && d != f
    ensures |Elements([a, b, c, d, f])| == 5
  {
    assert Elements([a, b, c, d, f]) == {a, b, c, d, f};
    assert |{a, b}| == 2;
    assert |{a, b, c}| == 3;
    assert |{a, b, c, d}| == 4;
  }

  /** Five new label objects, all holding `-1`. */
  method MinusOnes() returns (ls: seq<Label>)
    ensures |ls| == 5 && |Elements(ls)| == 5
    ensures forall l :: l in ls ==> l.value == -1
  {
    var a := new Label(-1);
    var b := new Label(-1);
    var c := new Label(-1);
    var d := new Label(-1);
    var f := new Label(-1);
    ls := [a, b, c, d, f];
    FiveDistinct(a, b, c, d, f);
  }

  /**
   * test_graph.cpp: five label objects that all hold `-1` are five nodes,
   * and four `add_edge` calls from the first to the others count four edges.
   */
  method FiveEqualLabels() returns (nodes: nat, edges: nat)
    ensures nodes == 5 && edges == 4
  {
    var ls := MinusOnes();
    var g := new Graph(false);
    g.AddNodes(ls);
    assert forall l :: l in ls[1..] ==> l in ls;
    Star(g, ls[0], ls[1..]);
    nodes := g.CountNode();
    edges := g.CountEdge();
  }

  /**
   * The directed test graph of test_Directed_Graph.cpp on indices `0 .. 5`
   * (label `i + 1` is index `i`).
   */
  function Gabow(): (adj: seq<seq<Edge>>)
    ensures WellFormed(adj) && |adj| == 6
  {
    [ [Edge(1, 0), Edge(2, 0)],
      [Edge(2, 0), Edge(3, 0)],
      [],
      [Edge(2, 0), Edge(4, 0)],
      [Edge(1, 0), Edge(5, 0)],
      [Edge(3, 0), Edge(2, 0)] ]
  }

  /** The walk `1 -> 3 -> 4 -> 1` closes a cycle. */
  lemma GabowIsCyclic()
    ensures HasCycle(Gabow())
  {
    var adj := Gabow();
    assert HasEdge(adj, 1, 3) by { assert adj[1][1].to == 3; }
    assert HasEdge(adj, 3, 4) by { assert adj[3][1].to == 4; }
    assert HasEdge(adj, 4, 1) by { assert adj[4][0].to == 1; }
    assert IsCycle(adj, [1, 3, 4, 1]);
  }

  /**
   * test_Directed_Graph.cpp: `is_dag` answers false and `topo_sort` is
   * empty on the cyclic test graph, built through `add_node` and ten
   * `add_edge` calls; `is_dag` as written answers true on it.
   */
  method GabowAnswers() returns (nodes: nat, edges: nat, dag: bool, asWritten: bool, topo: seq<Label>)
    ensures nodes == 6 && edges == 10
    ensures !dag && asWritten && topo == []
  {
    var g, ls := Build(DirectedTest);
    DirectedBuilt();
    nodes := g.CountNode();
    edges := g.CountEdge();
    GabowIsCyclic();
    dag := g.IsDag();
    asWritten := Directed.IsDagAsWritten(g.adj);
    var order;
    topo, order := g.TopoSort();
  }

  /**
   * test_Undirected_Graph.cpp: nine labels and fourteen weighted `add_edge`
   * calls count 9 nodes and 14 edges, and `krushkal_mst` with the identity
   * as `get_weight` answers 37 with the edges g-h, c-i, f-g, a-b, c-f, c-d,
   * a-h and d-e, each carrying its stored weight.
   */
  method CormenAnswers() returns (ls: seq<Label>, nodes: nat, edges: nat, total: int, v: seq<LabelEdge>)
    ensures |ls| == 9 && forall k :: 0 <= k < 9 ==> ls[k].value == 97 + k
    ensures nodes == 9 && edges == 14 && total == 37
    ensures v == [LabelEdge(ls[6], ls[7], 1), LabelEdge(ls[2], ls[8], 2), LabelEdge(ls[5], ls[6], 2),
                  LabelEdge(ls[0], ls[1], 4), LabelEdge(ls[2], ls[5], 4), LabelEdge(ls[2], ls[3], 7),
                  LabelEdge(ls[0], ls[7], 8), LabelEdge(ls[3], ls[4], 9)]
  {
    var g;
    g, ls := Build(UndirectedTest);
    UndirectedBuilt();
    nodes := g.CountNode();
    edges := g.CountEdge();
    KruskalExample.CormenAccept();
    ghost var m0 := g.getEdge;
    total, v := g.KruskalMst(KruskalExample.Identity);
    AnswerEdges(g.node, ls, m0);
  }

  /** The accepted pairs as label edges carrying the stored weights. */
  lemma AnswerEdges(node: map<nat, Label>, ls: seq<Label>, m: map<(nat, nat), int>)
    requires |ls| == 9 && forall i :: 0 <= i < 9 ==> i in node && node[i] == ls[i]
    requires forall a, b :: Kruskal.Get(m, (a, b)) == Weight(UndirectedTest, 14, a, b)
    ensures forall j :: 0 <= j < 8 ==>
      Kruskal.Chosen(KruskalExample.Answer(), m)[j].u in node && Kruskal.Chosen(KruskalExample.Answer(), m)[j].v in node
    ensures LabelEdges(node, Kruskal.Chosen(KruskalExample.Answer(), m)) ==
      [LabelEdge(ls[6], ls[7], 1), LabelEdge(ls[2], ls[8], 2), LabelEdge(ls[5], ls[6], 2),
       LabelEdge(ls[0], ls[1], 4), LabelEdge(ls[2], ls[5], 4), LabelEdge(ls[2], ls[3], 7),
       LabelEdge(ls[0], ls[7], 8), LabelEdge(ls[3], ls[4], 9)]
  {
    StoredWeights();
    var a := KruskalExample.Answer();
    forall j | 0 <= j < 8
      ensures Kruskal.Get(m, (a[j].x, a[j].i)) == a[j].weight
    {
      assert Kruskal.Get(m, (a[j].x, a[j].i)) == Weight(UndirectedTest, 14, a[j].x, a[j].i);
    }
  }

  /** `get_edge` holds each accepted pair's weight after the fourteen calls. */
  lemma StoredWeights()
    ensures forall j :: 0 <= j < 8 ==>
      var c := KruskalExample.Answer()[j];
      Weight(UndirectedTest, 14, c.x, c.i) == c.weight
  {
    LighterStored();
    HeavierStored();
  }

  lemma LighterStored()
    ensures Weight(UndirectedTest, 14, 6, 7) == 1
    ensures Weight(UndirectedTest, 14, 2, 8) == 2
    ensures Weight(UndirectedTest, 14, 5, 6) == 2
    ensures Weight(UndirectedTest, 14, 0, 1) == 4
  {
    assert Weight(UndirectedTest, 4, 6, 7) == 0;
    assert Weight(UndirectedTest, 8, 6, 7) == 0;
    assert Weight(UndirectedTest, 12, 6, 7) == 1;
    assert Weight(UndirectedTest, 4, 2, 8) == 0;
    assert Weight(UndirectedTest, 8, 2, 8) == 2;
    assert Weight(UndirectedTest, 12, 2, 8) == 2;
    assert Weight(UndirectedTest, 4, 5, 6) == 0;
    assert Weight(UndirectedTest, 8, 5, 6) == 0;
    assert Weight(UndirectedTest, 12, 5, 6) == 2;
    assert Weight(UndirectedTest, 4, 0, 1) == 4;
    assert Weight(UndirectedTest, 8, 0, 1) == 4;
    assert Weight(UndirectedTest, 12, 0, 1) == 4;
  }

  lemma HeavierStored()
    ensures Weight(UndirectedTest, 14, 2, 5) == 4
    ensures Weight(UndirectedTest, 14, 2, 3) == 7
    ensures Weight(UndirectedTest, 14, 0, 7) == 8
    ensures Weight(UndirectedTest, 14, 3, 4) == 9
  {
    assert Weight(UndirectedTest, 4, 2, 5) == 0;
    assert Weight(UndirectedTest, 8, 2, 5) == 4;
    assert Weight(UndirectedTest, 12, 2, 5) == 4;
    assert Weight(UndirectedTest, 4, 2, 3) == 0;
    assert Weight(UndirectedTest, 8, 2, 3) == 7;
    assert Weight(UndirectedTest, 12, 2, 3) == 7;
    assert Weight(UndirectedTest, 4, 0, 7) == 8;
    assert Weight(UndirectedTest, 8, 0, 7) == 8;
    assert Weight(UndirectedTest, 12, 0, 7) == 8;
    assert Weight(UndirectedTest, 4, 3, 4) == 0;
    assert Weight(UndirectedTest, 8, 3, 4) == 9;
    assert Weight(UndirectedTest, 12, 3, 4) == 9;
  }


  /** The graphs the repository's tests build edge by edge. */
  datatype Test = DirectedTest | UndirectedTest

  predicate IsDirected(t: Test)
  {
    t == DirectedTest
  }

  /** The number of labels the test adds. */
  function Size(t: Test): nat
  {
    if t == DirectedTest then 6 else 9
  }

  /** The number of `add_edge` calls the test makes. */
  function Calls(t: Test): nat
  {
    if t == DirectedTest then 10 else 14
  }

  /** The value of the `k`-th label: `k + 1`, or the character `'a' + k`. */
  function Value(t: Test, k: nat): int
  {
    if t == DirectedTest then k + 1 else 97 + k
  }

  /**
   * The `k`-th `add_edge` call of the test, by node index: both ends and
   * the edge value (the unweighted overload stores 0).
   */
  function Call(t: Test, k: nat): (r: (nat, nat, int))
    ensures r.0 < Size(t) && r.1 < Size(t)
  {
    if t == DirectedTest then DirectedCall(k) else UndirectedCall(k)
  }

  /** The calls of test_Directed_Graph.cpp, labels `1 .. 6` as indices `0 .. 5`. */
  function DirectedCall(k: nat): (r: (nat, nat, int))
    ensures r.0 < 6 && r.1 < 6
  {
    if k == 0 then (0, 1, 0)
    else if k == 1 then (0, 2, 0)
    else if k == 2 then (1, 2, 0)
    else if k == 3 then (1, 3, 0)
    else if k == 4 then (3, 2, 0)
    else if k == 5 then (3, 4, 0)
    else if k == 6 then (4, 1, 0)
    else if k == 7 then (4, 5, 0)
    else if k == 8 then (5, 3, 0)
    else (5, 2, 0)
  }

  /** The calls of test_Undirected_Graph.cpp, labels `'a' .. 'i'` as indices `0 .. 8`. */
  function UndirectedCall(k: nat): (r: (nat, nat, int))
    ensures r.0 < 9 && r.1 < 9
  {
    if k == 0 then (0, 1, 4)
    else if k == 1 then (0, 7, 8)
    else if k == 2 then (1, 7, 11)
    else if k == 3 then (1, 2, 8)
    else if k == 4 then (2, 3, 7)
    else if k == 5 then (2, 5, 4)
    else if k == 6 then (2, 8, 2)
    else if k == 7 then (3, 4, 9)
    else if k == 8 then (3, 5, 14)
    else if k == 9 then (4, 5, 10)
    else if k == 10 then (5, 6, 2)
    else if k == 11 then (6, 7, 1)
    else if k == 12 then (6, 8, 6)
    else (7, 8, 7)
  }

  /** The adjacency update of one `add_edge(u, v, w)`. */
  function Link(adj: seq<seq<Edge>>, u: nat, v: nat, w: int, directed: bool): (r: seq<seq<Edge>>)
    requires u < |adj| && v < |adj|
    ensures |r| == |adj|
  {
    var a := adj[u := adj[u] + [Edge(v, w)]];
    if directed then a else a[v := a[v] + [Edge(u, w)]]
  }

  /** `n` nodes without edges. */
  function NoEdges(n: nat): (adj: seq<seq<Edge>>)
    ensures |adj| == n
  {
    seq(n, _ => [])
  }

  /** The adjacency after the first `k` calls of the test. */
  function Partial(t: Test, k: nat): (r: seq<seq<Edge>>)
    ensures |r| == Size(t)
  {
    if k == 0 then NoEdges(Size(t))
    else
      var c := Call(t, k - 1);
      Link(Partial(t, k - 1), c.0, c.1, c.2, IsDirected(t))
  }

  /** Row `i` of `Partial(t, k)`, grown one call at a time. */
  function Row(t: Test, k: nat, i: nat): seq<Edge>
  {
    if k == 0 then []
    else
      var r := Row(t, k - 1, i);
      var c := Call(t, k - 1);
      var r1 := if i == c.0 then r + [Edge(c.1, c.2)] else r;
      if i == c.1 && !IsDirected(t) then r1 + [Edge(c.0, c.2)] else r1
  }

  /** `get_edge[{a, b}]` after the first `k` calls: the value of the last call joining them, else 0. */
  function Weight(t: Test, k: nat, a: nat, b: nat): int
  {
    if k == 0 then 0
    else
      var c := Call(t, k - 1);
      if (a == c.0 && b == c.1) || (!IsDirected(t) && a == c.1 && b == c.0) then c.2
      else Weight(t, k - 1, a, b)
  }

  lemma {:induction false} PartialRows(t: Test, k: nat)
    ensures forall i :: 0 <= i < Size(t) ==> Partial(t, k)[i] == Row(t, k, i)
  {
    if k > 0 {
      PartialRows(t, k - 1);
    }
  }

  /** Adding distinct labels to an empty registry numbers them in order. */
  lemma {:induction false} RegisterDistinct(ls: seq<Label>)
    requires forall i, j :: 0 <= i < j < |ls| ==> ls[i] != ls[j]
    ensures var r := RegisterAll(Registry(map[], map[], [], 0), ls);
      && r.n == |ls| && r.adj == NoEdges(|ls|)
      && forall i :: 0 <= i < |ls| ==> ls[i] in r.idx && r.idx[ls[i]] == i
  {
    if ls != [] {
      var front := ls[..|ls| - 1];
      RegisterDistinct(front);
      RegisterAllKeys(Registry(map[], map[], [], 0), front);
      assert ls[|ls| - 1] !in Elements(front);
      forall i | 0 <= i < |ls|
        ensures ls[i] in RegisterAll(Registry(map[], map[], [], 0), ls).idx
      {
        if i < |ls| - 1 { assert ls[i] == front[i]; }
      }
    }
  }

  /** After `add_node` on distinct labels, node `i` is the `i`-th label and has no edges. */
  lemma Numbered(r: Registry, ls: seq<Label>)
    requires forall i, j :: 0 <= i < j < |ls| ==> ls[i] != ls[j]
    requires Bijective(r) && r == RegisterAll(Registry(map[], map[], [], 0), ls)
    ensures r.n == |ls| && r.adj == NoEdges(|ls|)
    ensures forall i :: 0 <= i < |ls| ==> ls[i] in r.idx && r.idx[ls[i]] == i && i in r.node && r.node[i] == ls[i]
  {
    RegisterDistinct(ls);
  }

  /** The test's labels: new objects holding `Value(t, k)`, as its loop fills them. */
  method Labels(t: Test) returns (ls: seq<Label>)
    ensures |ls| == Size(t)
    ensures forall i, j :: 0 <= i < j < |ls| ==> ls[i] != ls[j]
    ensures forall k :: 0 <= k < |ls| ==> ls[k].value == Value(t, k)
  {
    ls := [];
    for k := 0 to Size(t)
      invariant |ls| == k
      invariant forall i, j :: 0 <= i < j < k ==> ls[i] != ls[j]
      invariant forall i :: 0 <= i < k ==> ls[i].value == Value(t, i)
    {
      var l := new Label(Value(t, k));
      ls := ls + [l];
    }
  }

  /** The labels and edges `g` has after the test's `add_node` and its `add_edge` calls. */
  ghost predicate Holds(g: Graph, t: Test, ls: seq<Label>, k: nat)
    reads g
  {
    && g.Valid() && g.directed == IsDirected(t) && |ls| == Size(t) && g.n == Size(t)
    && (forall i :: 0 <= i < Size(t) ==> ls[i] in g.idx && g.idx[ls[i]] == i && i in g.node && g.node[i] == ls[i])
    && g.adj == Partial(t, k) && g.e == k
    && forall a, b :: Kruskal.Get(g.getEdge, (a, b)) == Weight(t, k, a, b)
  }

  /** A new graph of the test's configuration after `add_node` on its labels. */
  method Start(t: Test) returns (g: Graph, ls: seq<Label>)
    ensures fresh(g) && Holds(g, t, ls, 0)
    ensures forall k :: 0 <= k < |ls| ==> ls[k].value == Value(t, k)
  {
    ls := Labels(t);
    g := Register(t, ls);
  }

  /** A new graph of the test's configuration after `add_node` on the distinct labels `ls`. */
  method Register(t: Test, ls: seq<Label>) returns (g: Graph)
    requires |ls| == Size(t)
    requires forall i, j :: 0 <= i < j < |ls| ==> ls[i] != ls[j]
    ensures fresh(g) && Holds(g, t, ls, 0)
  {
    g := new Graph(IsDirected(t));
    g.AddNodes(ls);
    Numbered(g.State(), ls);
    assert g.adj == Partial(t, 0);
    assert forall a, b :: Kruskal.Get(g.getEdge, (a, b)) == Weight(t, 0, a, b);
  }

  /** The test's graph: `add_node` on its labels, then each of its `add_edge` calls in turn. */
  method Build(t: Test) returns (g: Graph, ls: seq<Label>)
    ensures fresh(g) && Holds(g, t, ls, Calls(t))
    ensures forall k :: 0 <= k < |ls| ==> ls[k].value == Value(t, k)
  {
    g, ls := Start(t);
    for k := 0 to Calls(t)
      invariant fresh(g) && Holds(g, t, ls, k)
      invariant forall k :: 0 <= k < |ls| ==> ls[k].value == Value(t, k)
    {
      Apply(g, t, ls, k);
    }
  }

  /** The test's `k`-th `add_edge` call. */
  method Apply(g: Graph, t: Test, ls: seq<Label>, k: nat)
    requires Holds(g, t, ls, k)
    modifies g
    ensures Holds(g, t, ls, k + 1)
  {
    var c := Call(t, k);
    ghost var m0, a0 := g.getEdge, g.adj;
    assert g.idx[ls[c.0]] == c.0 && g.idx[ls[c.1]] == c.1;
    g.AddEdge(ls[c.0], ls[c.1], c.2);
    Advance(t, k, a0, m0, g.adj, g.getEdge);
  }

  /** One `add_edge` call of the test moves the adjacency and the weight map one call on. */
  lemma Advance(t: Test, k: nat, a0: seq<seq<Edge>>, m0: map<(nat, nat), int>,
                a1: seq<seq<Edge>>, m1: map<(nat, nat), int>)
    requires a0 == Partial(t, k) && forall a, b :: Kruskal.Get(m0, (a, b)) == Weight(t, k, a, b)
    requires a1 == Link(a0, Call(t, k).0, Call(t, k).1, Call(t, k).2, IsDirected(t))
    requires m1 == if IsDirected(t) then m0[(Call(t, k).0, Call(t, k).1) := Call(t, k).2]
      else m0[(Call(t, k).0, Call(t, k).1) := Call(t, k).2][(Call(t, k).1, Call(t, k).0) := Call(t, k).2]
    ensures a1 == Partial(t, k + 1)
    ensures forall a, b :: Kruskal.Get(m1, (a, b)) == Weight(t, k + 1, a, b)
  {
    forall a, b
      ensures Kruskal.Get(m1, (a, b)) == Weight(t, k + 1, a, b)
    {
      assert Kruskal.Get(m0, (a, b)) == Weight(t, k, a, b);
    }
  }

  lemma DirectedRow0()
    ensures Row(DirectedTest, 10, 0) == Gabow()[0]
  {
    assert Row(DirectedTest, 5, 0) == [Edge(1, 0), Edge(2, 0)];
  }

  lemma DirectedRow1()
    ensures Row(DirectedTest, 10, 1) == Gabow()[1]
  {
    assert Row(DirectedTest, 5, 1) == [Edge(2, 0), Edge(3, 0)];
  }

  lemma DirectedRow2()
    ensures Row(DirectedTest, 10, 2) == Gabow()[2]
  {
    assert Row(DirectedTest, 5, 2) == [];
  }

  lemma DirectedRow3()
    ensures Row(DirectedTest, 10, 3) == Gabow()[3]
  {
    assert Row(DirectedTest, 5, 3) == [Edge(2, 0)];
  }

  lemma DirectedRow4()
    ensures Row(DirectedTest, 10, 4) == Gabow()[4]
  {
    assert Row(DirectedTest, 5, 4) == [];
  }

  lemma DirectedRow5()
    ensures Row(DirectedTest, 10, 5) == Gabow()[5]
  {
    assert Row(DirectedTest, 5, 5) == [];
  }

  lemma DirectedRowAt(i: nat)
    requires i < 6
    ensures Row(DirectedTest, 10, i) == Gabow()[i]
  {
    if i == 0 { DirectedRow0(); } else if i == 1 { DirectedRow1(); } else if i == 2 { DirectedRow2(); } else if i == 3 { DirectedRow3(); } else if i == 4 { DirectedRow4(); } else { DirectedRow5(); }
  }

  /** The ten calls of test_Directed_Graph.cpp leave the adjacency `Gabow()`. */
  lemma DirectedBuilt()
    ensures Partial(DirectedTest, 10) == Gabow()
  {
    PartialRows(DirectedTest, 10);
    forall i | 0 <= i < 6
      ensures Partial(DirectedTest, 10)[i] == Gabow()[i]
    {
      DirectedRowAt(i);
    }
  }

  lemma UndirectedRow0()
    ensures Row(UndirectedTest, 14, 0) == KruskalExample.Cormen()[0]
  {
    assert Row(UndirectedTest, 2, 0) == [Edge(1, 4), Edge(7, 8)];
    assert Row(UndirectedTest, 4, 0) == [Edge(1, 4), Edge(7, 8)];
    assert Row(UndirectedTest, 6, 0) == [Edge(1, 4), Edge(7, 8)];
    assert Row(UndirectedTest, 8, 0) == [Edge(1, 4), Edge(7, 8)];
    assert Row(UndirectedTest, 10, 0) == [Edge(1, 4), Edge(7, 8)];
    assert Row(UndirectedTest, 12, 0) == [Edge(1, 4), Edge(7, 8)];
  }

  lemma UndirectedRow1()
    ensures Row(UndirectedTest, 14, 1) == KruskalExample.Cormen()[1]
  {
    assert Row(UndirectedTest, 2, 1) == [Edge(0, 4)];
    assert Row(UndirectedTest, 4, 1) == [Edge(0, 4), Edge(7, 11), Edge(2, 8)];
    assert Row(UndirectedTest, 6, 1) == [Edge(0, 4), Edge(7, 11), Edge(2, 8)];
    assert Row(UndirectedTest, 8, 1) == [Edge(0, 4), Edge(7, 11), Edge(2, 8)];
    assert Row(UndirectedTest, 10, 1) == [Edge(0, 4), Edge(7, 11), Edge(2, 8)];
    assert Row(UndirectedTest, 12, 1) == [Edge(0, 4), Edge(7, 11), Edge(2, 8)];
  }

  lemma UndirectedRow2()
    ensures Row(UndirectedTest, 14, 2) == KruskalExample.Cormen()[2]
  {
    assert Row(UndirectedTest, 2, 2) == [];
    assert Row(UndirectedTest, 4, 2) == [Edge(1, 8)];
    assert Row(UndirectedTest, 6, 2) == [Edge(1, 8), Edge(3, 7), Edge(5, 4)];
    assert Row(UndirectedTest, 8, 2) == [Edge(1, 8), Edge(3, 7), Edge(5, 4), Edge(8, 2)];
    assert Row(UndirectedTest, 10, 2) == [Edge(1, 8), Edge(3, 7), Edge(5, 4), Edge(8, 2)];
    assert Row(UndirectedTest, 12, 2) == [Edge(1, 8), Edge(3, 7), Edge(5, 4), Edge(8, 2)];
  }

  lemma UndirectedRow3()
    ensures Row(UndirectedTest, 14, 3) == KruskalExample.Cormen()[3]
  {
    assert Row(UndirectedTest, 2, 3) == [];
    assert Row(UndirectedTest, 4, 3) == [];
    assert Row(UndirectedTest, 6, 3) == [Edge(2, 7)];
    assert Row(UndirectedTest, 8, 3) == [Edge(2, 7), Edge(4, 9)];
    assert Row(UndirectedTest, 10, 3) == [Edge(2, 7), Edge(4, 9), Edge(5, 14)];
    assert Row(UndirectedTest, 12, 3) == [Edge(2, 7), Edge(4, 9), Edge(5, 14)];
  }

  lemma UndirectedRow4()
    ensures Row(UndirectedTest, 14, 4) == KruskalExample.Cormen()[4]
  {
    assert Row(UndirectedTest, 2, 4) == [];
    assert Row(UndirectedTest, 4, 4) == [];
    assert Row(UndirectedTest, 6, 4) == [];
    assert Row(UndirectedTest, 8, 4) == [Edge(3, 9)];
    assert Row(UndirectedTest, 10, 4) == [Edge(3, 9), Edge(5, 10)];
    assert Row(UndirectedTest, 12, 4) == [Edge(3, 9), Edge(5, 10)];
  }

  lemma UndirectedRow5()
    ensures Row(UndirectedTest, 14, 5) == KruskalExample.Cormen()[5]
  {
    assert Row(UndirectedTest, 2, 5) == [];
    assert Row(UndirectedTest, 4, 5) == [];
    assert Row(UndirectedTest, 6, 5) == [Edge(2, 4)];
    assert Row(UndirectedTest, 8, 5) == [Edge(2, 4)];
    assert Row(UndirectedTest, 10, 5) == [Edge(2, 4), Edge(3, 14), Edge(4, 10)];
    assert Row(UndirectedTest, 12, 5) == [Edge(2, 4), Edge(3, 14), Edge(4, 10), Edge(6, 2)];
  }

  lemma UndirectedRow6()
    ensures Row(UndirectedTest, 14, 6) == KruskalExample.Cormen()[6]
  {
    assert Row(UndirectedTest, 2, 6) == [];
    assert Row(UndirectedTest, 4, 6) == [];
    assert Row(UndirectedTest, 6, 6) == [];
    assert Row(UndirectedTest, 8, 6) == [];
    assert Row(UndirectedTest, 10, 6) == [];
    assert Row(UndirectedTest, 12, 6) == [Edge(5, 2), Edge(7, 1)];
  }

  lemma UndirectedRow7()
    ensures Row(UndirectedTest, 14, 7) == KruskalExample.Cormen()[7]
  {
    assert Row(UndirectedTest, 2, 7) == [Edge(0, 8)];
    assert Row(UndirectedTest, 4, 7) == [Edge(0, 8), Edge(1, 11)];
    assert Row(UndirectedTest, 6, 7) == [Edge(0, 8), Edge(1, 11)];
    assert Row(UndirectedTest, 8, 7) == [Edge(0, 8), Edge(1, 11)];
    assert Row(UndirectedTest, 10, 7) == [Edge(0, 8), Edge(1, 11)];
    assert Row(UndirectedTest, 12, 7) == [Edge(0, 8), Edge(1, 11), Edge(6, 1)];
  }

  lemma UndirectedRow8()
    ensures Row(UndirectedTest, 14, 8) == KruskalExample.Cormen()[8]
  {
    assert Row(UndirectedTest, 2, 8) == [];
    assert Row(UndirectedTest, 4, 8) == [];
    assert Row(UndirectedTest, 6, 8) == [];
    assert Row(UndirectedTest, 8, 8) == [Edge(2, 2)];
    assert Row(UndirectedTest, 10, 8) == [Edge(2, 2)];
    assert Row(UndirectedTest, 12, 8) == [Edge(2, 2)];
  }

  lemma UndirectedRowAt(i: nat)
    requires i < 9
    ensures Row(UndirectedTest, 14, i) == KruskalExample.Cormen()[i]
  {
    if i == 0 { UndirectedRow0(); } else if i == 1 { UndirectedRow1(); } else if i == 2 { UndirectedRow2(); } else if i == 3 { UndirectedRow3(); } else if i == 4 { UndirectedRow4(); } else if i == 5 { UndirectedRow5(); } else if i == 6 { UndirectedRow6(); } else if i == 7 { UndirectedRow7(); } else { UndirectedRow8(); }
  }

  /** The fourteen calls of test_Undirected_Graph.cpp leave the adjacency `KruskalExample.Cormen()`. */
  lemma UndirectedBuilt()
    ensures Partial(UndirectedTest, 14) == KruskalExample.Cormen()
  {
    PartialRows(UndirectedTest, 14);
    forall i | 0 <= i < 9
      ensures Partial(UndirectedTest, 14)[i] == KruskalExample.Cormen()[i]
    {
      UndirectedRowAt(i);
    }
  }

  /** Two nodes and the single edge `1 -> 0`. */
  function IntoZero(): (adj: seq<seq<Edge>>)
    ensures WellFormed(adj) && |adj| == 2
  {
    [[], [Edge(0, 0)]]
  }

  /**
   * On the acyclic graph `1 -> 0`, `topo_sort` as written answers empty,
   * while the corrected one answers `[1, 0]`.
   */
  method IntoZeroAnswers() returns (asWritten: seq<nat>, corrected: seq<nat>)
    ensures asWritten == [] && corrected == [1, 0]
  {
    var adj := IntoZero();
    RankedIsAcyclic(adj, [0, 1]);
    assert adj[1][0].to == 0;
    asWritten := Directed.TopoSortAsWritten(adj);
    corrected := Directed.TopoSort(adj);
    assert multiset(corrected) == multiset{0, 1} by {
      assert Directed.Iota(2) == [0, 1];
    }
    assert |corrected| == 2;
    assert HasEdge(adj, 1, 0) by { assert adj[1][0].to == 0; }
  }
}
