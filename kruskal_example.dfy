/**
 * The undirected test of Tester_Codes/test_Undirected_Graph.cpp on the
 * adjacency level: the nine-node graph from Cormen et al. (node `'a' + i`
 * is index `i`), weighed by the identity, has the Kruskal answer 37 with
 * the eight accepted edges the test's reference answer lists.
 */
module KruskalExample {
  import opened Adjacency
  import opened Kruskal

  /** The `get_weight` of the test: the identity on `int` edge values. */
  function Identity(x: int): int { x }

  /** The test graph: each `add_edge(u, v, w)` stored in both rows. */
  function Cormen(): (adj: seq<seq<Edge>>)
    ensures WellFormed(adj) && |adj| == 9
  {
    [ [Edge(1, 4), Edge(7, 8)],
      [Edge(0, 4), Edge(7, 11), Edge(2, 8)],
      [Edge(1, 8), Edge(3, 7), Edge(5, 4), Edge(8, 2)],
      [Edge(2, 7), Edge(4, 9), Edge(5, 14)],
      [Edge(3, 9), Edge(5, 10)],
      [Edge(2, 4), Edge(3, 14), Edge(4, 10), Edge(6, 2)],
      [Edge(5, 2), Edge(7, 1), Edge(8, 6)],
      [Edge(0, 8), Edge(1, 11), Edge(6, 1), Edge(8, 7)],
      [Edge(2, 2), Edge(6, 6), Edge(7, 7)] ]
  }

  /** The queue entries row `i` pushes. */
  function RowEntries(i: nat): seq<Candidate>
  {
    if i == 0 then [Candidate(4, 1, 0), Candidate(8, 7, 0)]
    else if i == 1 then [Candidate(4, 0, 1), Candidate(11, 7, 1), Candidate(8, 2, 1)]
    else if i == 2 then [Candidate(8, 1, 2), Candidate(7, 3, 2), Candidate(4, 5, 2), Candidate(2, 8, 2)]
    else if i == 3 then [Candidate(7, 2, 3), Candidate(9, 4, 3), Candidate(14, 5, 3)]
    else if i == 4 then [Candidate(9, 3, 4), Candidate(10, 5, 4)]
    else if i == 5 then [Candidate(4, 2, 5), Candidate(14, 3, 5), Candidate(10, 4, 5), Candidate(2, 6, 5)]
    else if i == 6 then [Candidate(2, 5, 6), Candidate(1, 7, 6), Candidate(6, 8, 6)]
    else if i == 7 then [Candidate(8, 0, 7), Candidate(11, 1, 7), Candidate(1, 6, 7), Candidate(7, 8, 7)]
    else [Candidate(2, 2, 8), Candidate(6, 6, 8), Candidate(7, 7, 8)]
  }

  /** The queue entries of weight `w`, in queue order. */
  function WeightEntries(w: int): seq<Candidate>
  {
    if w == 1 then [Candidate(1, 6, 7), Candidate(1, 7, 6)]
    else if w == 2 then [Candidate(2, 2, 8), Candidate(2, 5, 6), Candidate(2, 6, 5), Candidate(2, 8, 2)]
    else if w == 4 then [Candidate(4, 0, 1), Candidate(4, 1, 0), Candidate(4, 2, 5), Candidate(4, 5, 2)]
    else if w == 6 then [Candidate(6, 6, 8), Candidate(6, 8, 6)]
    else if w == 7 then [Candidate(7, 2, 3), Candidate(7, 3, 2), Candidate(7, 7, 8), Candidate(7, 8, 7)]
    else if w == 8 then [Candidate(8, 0, 7), Candidate(8, 1, 2), Candidate(8, 2, 1), Candidate(8, 7, 0)]
    else if w == 9 then [Candidate(9, 3, 4), Candidate(9, 4, 3)]
    else if w == 10 then [Candidate(10, 4, 5), Candidate(10, 5, 4)]
    else if w == 11 then [Candidate(11, 1, 7), Candidate(11, 7, 1)]
    else [Candidate(14, 3, 5), Candidate(14, 5, 3)]
  }

  /** The distinct weights of the test graph, in ascending order. */
  function Weights(): (ws: seq<int>)
    ensures |ws| == 10
  {
    [1, 2, 4, 6, 7, 8, 9, 10, 11, 14]
  }

  /** The weight after the `j`-th one (15 past the heaviest). */
  function NextWeight(j: nat): int
  {
    if j < 10 then Weights()[j] else 15
  }

  /** The entries of the `j` lightest weights, in queue order. */
  function Upto(j: nat): seq<Candidate>
    requires j <= 10
  {
    if j == 0 then [] else Upto(j - 1) + WeightEntries(Weights()[j - 1])
  }

  /** The whole queue in ascending order. */
  function SortedOrder(): seq<Candidate>
  {
    Upto(10)
  }

  /** Row `i` pushes the entries `RowEntries(i)`. */
  lemma CormenRow(i: nat)
    requires i < 9
    ensures RowCandidates(Cormen()[i], i, Identity) == RowEntries(i)
  {
  }

  /** The pushes of all nine rows, in push order. */
  lemma CormenPushed()
    ensures Pushed(Cormen(), Identity, 9) ==
      RowEntries(0) + RowEntries(1) + RowEntries(2) + RowEntries(3) + RowEntries(4) +
      RowEntries(5) + RowEntries(6) + RowEntries(7) + RowEntries(8)
  {
    CormenRow(0); CormenRow(1); CormenRow(2); CormenRow(3); CormenRow(4);
    CormenRow(5); CormenRow(6); CormenRow(7); CormenRow(8);
  }

  /** Ascending with no entry repeated. */
  predicate Strict(q: seq<Candidate>)
  {
    forall j :: 0 < j < |q| ==> Le(q[j - 1], q[j]) && q[j - 1] != q[j]
  }

  /**
   * An ascending sequence holding exactly the entries of a strictly
   * ascending one is at least as long, and equal to it when as long.
   */
  lemma {:induction false} AscendingCovers(a: seq<Candidate>, b: seq<Candidate>)
    requires Ascending(a) && Strict(b) && forall c :: c in a <==> c in b
    ensures |a| >= |b| && (|a| == |b| ==> a == b)
    decreases |a|
  {
    if |b| > 0 {
      assert b[0] in a && a[0] in b;
      AscendingFirst(a, b[0]);
      AscendingFirst(b, a[0]);
      assert a[0] == b[0];
      if |a| > 1 && a[1] == a[0] {
        assert forall c :: c in a[1..] <==> c in a by {
          assert a == [a[0]] + a[1..];
        }
        AscendingCovers(a[1..], b);
      } else {
        // Neither tail repeats the common first entry.
        if a[0] in a[1..] {
          AscendingFirst(a[1..], a[0]);
        }
        if b[0] in b[1..] {
          AscendingFirst(b[1..], b[0]);
        }
        forall c
          ensures c in a[1..] <==> c in b[1..]
        {
          assert c in a <==> c in b;
          assert c in a <==> c == a[0] || c in a[1..] by {
            assert a == [a[0]] + a[1..];
          }
          assert c in b <==> c == b[0] || c in b[1..] by {
            assert b == [b[0]] + b[1..];
          }
        }
        AscendingCovers(a[1..], b[1..]);
      }
    }
  }

  /** Strictly ascending runs whose seam is strictly ascending join into one. */
  lemma StrictJoin(a: seq<Candidate>, b: seq<Candidate>)
    requires Strict(a) && Strict(b) && (|a| > 0 && |b| > 0 ==> Le(a[|a| - 1], b[0]) && a[|a| - 1] != b[0])
    ensures Strict(a + b)
  {
    var ab := a + b;
    forall j | 0 < j < |ab|
      ensures Le(ab[j - 1], ab[j]) && ab[j - 1] != ab[j]
    {
      if j < |a| {
        assert ab[j - 1] == a[j - 1] && ab[j] == a[j];
      } else if j > |a| {
        assert ab[j - 1] == b[j - 1 - |a|] && ab[j] == b[j - |a|];
      }
    }
  }

  /** The weights that occur in the example. */
  predicate UsedWeight(w: int)
  {
    w == 1 || w == 2 || w == 4 || w == 6 || w == 7 || w == 8 || w == 9 || w == 10 || w == 11 || w == 14
  }

  /** Each weight's entries are strictly ascending and all of that weight. */
  lemma GroupStrict(w: int)
    requires UsedWeight(w)
    ensures Strict(WeightEntries(w)) && |WeightEntries(w)| > 0
    ensures WeightEntries(w)[0].weight == w && WeightEntries(w)[|WeightEntries(w)| - 1].weight == w
  {
  }

  /** Appending the entries of a heavier weight keeps the queue strictly ascending. */
  lemma StrictStep(s: seq<Candidate>, w: int)
    requires Strict(s) && |s| > 0 && s[|s| - 1].weight < w && UsedWeight(w)
    ensures Strict(s + WeightEntries(w)) && (s + WeightEntries(w))[|s + WeightEntries(w)| - 1].weight == w
  {
    GroupStrict(w);
    StrictJoin(s, WeightEntries(w));
  }

  /** The first `j` weight groups form a strictly ascending run ending in weight `j - 1`'s group. */
  lemma {:induction false} UptoStrict(j: nat)
    requires j <= 10
    ensures Strict(Upto(j))
    ensures j > 0 ==> |Upto(j)| > 0 && Upto(j)[|Upto(j)| - 1].weight == Weights()[j - 1]
  {
    if j == 1 {
      GroupStrict(1);
      assert Upto(1) == WeightEntries(1);
    } else if j > 1 {
      UptoStrict(j - 1);
      assert Weights()[j - 2] < Weights()[j - 1] && UsedWeight(Weights()[j - 1]);
      StrictStep(Upto(j - 1), Weights()[j - 1]);
    }
  }

  /** Every entry of a weight group is in the sorted order. */
  lemma GroupSorted(w: int)
    requires UsedWeight(w)
    ensures forall c :: c in WeightEntries(w) ==> c in SortedOrder()
  {
  }

  /** Every entry a row pushes is in the sorted order. */
  lemma RowSorted(i: nat)
    requires i < 9
    ensures forall c :: c in RowEntries(i) ==> c in SortedOrder()
  {
    forall c | c in RowEntries(i)
      ensures c in SortedOrder()
    {
      assert UsedWeight(c.weight) && c in WeightEntries(c.weight);
      GroupSorted(c.weight);
    }
  }

  /** Every entry pushed is in the sorted order. */
  lemma PushedInSorted()
    ensures forall c :: c in Pushed(Cormen(), Identity, 9) ==> c in SortedOrder()
  {
    CormenPushed();
    RowSorted(0); RowSorted(1); RowSorted(2); RowSorted(3); RowSorted(4);
    RowSorted(5); RowSorted(6); RowSorted(7); RowSorted(8);
  }

  /** Every entry of a weight group is pushed. */
  lemma GroupPushed(w: int)
    requires UsedWeight(w)
    ensures forall c :: c in WeightEntries(w) ==> c in Pushed(Cormen(), Identity, 9)
  {
    CormenPushed();
  }

  /** Every entry of the `j` lightest weight groups is pushed. */
  lemma {:induction false} UptoPushed(j: nat)
    requires j <= 10
    ensures forall c :: c in Upto(j) ==> c in Pushed(Cormen(), Identity, 9)
  {
    if j > 0 {
      UptoPushed(j - 1);
      assert UsedWeight(Weights()[j - 1]);
      GroupPushed(Weights()[j - 1]);
    }
  }

  /** Every entry of the sorted order is pushed, and there are as many pushes. */
  lemma SortedInPushed()
    ensures forall c :: c in SortedOrder() ==> c in Pushed(Cormen(), Identity, 9)
    ensures |Pushed(Cormen(), Identity, 9)| == |SortedOrder()|
  {
    UptoPushed(10);
    PushedLength();
    SortedLength();
  }

  lemma PushedLength()
    ensures |Pushed(Cormen(), Identity, 9)| == 28
  {
    CormenPushed();
  }

  lemma SortedLength()
    ensures |SortedOrder()| == 28
  {
    assert |Upto(1)| == 2 && |Upto(2)| == 6 && |Upto(3)| == 10 && |Upto(4)| == 12 && |Upto(5)| == 16;
    assert |Upto(6)| == 20 && |Upto(7)| == 22 && |Upto(8)| == 24 && |Upto(9)| == 26;
  }

  /** The priority queue of the test graph is the sorted order. */
  lemma CormenQueue()
    ensures Queue(Cormen(), Identity) == SortedOrder()
  {
    var q, p := Queue(Cormen(), Identity), Pushed(Cormen(), Identity, 9);
    PushedInSorted();
    SortedInPushed();
    UptoStrict(10);
    assert |q| == |multiset(q)| == |multiset(p)| == |p|;
    forall c
      ensures c in q <==> c in SortedOrder()
    {
      assert c in q <==> c in multiset(q);
      assert c in p <==> c in multiset(p);
    }
    AscendingCovers(q, SortedOrder());
  }

  /** The labelling `Accept` leaves behind once it has run over `q`. */
  function Settled(q: seq<Candidate>, comp: seq<nat>): (r: seq<nat>)
    requires InRange(q, |comp|)
    ensures |r| == |comp|
    decreases |q|
  {
    if |q| == 0 then comp
    else
      var c := q[0];
      assert InRange(q[1..], |comp|);
      if comp[c.x] == comp[c.i] then Settled(q[1..], comp)
      else Settled(q[1..], UnionFind.Relabel(comp, comp[c.i], comp[c.x]))
  }

  /** `Settled` over two queues in a row: the second starts from what the first left behind. */
  lemma {:induction false} SettledConcat(a: seq<Candidate>, b: seq<Candidate>, comp: seq<nat>)
    requires InRange(a, |comp|) && InRange(b, |comp|)
    ensures InRange(a + b, |comp|)
    ensures Settled(a + b, comp) == Settled(b, Settled(a, comp))
    decreases |a|
  {
    if |a| == 0 {
      assert a + b == b;
    } else {
      var c := a[0];
      assert (a + b)[1..] == a[1..] + b;
      assert InRange(a[1..], |comp|);
      if comp[c.x] == comp[c.i] {
        SettledConcat(a[1..], b, comp);
      } else {
        SettledConcat(a[1..], b, UnionFind.Relabel(comp, comp[c.i], comp[c.x]));
      }
    }
  }

  /** `Accept` over two queues in a row: the second starts from what the first left behind. */
  lemma {:induction false} AcceptConcat(a: seq<Candidate>, b: seq<Candidate>, comp: seq<nat>)
    requires InRange(a, |comp|) && InRange(b, |comp|)
    ensures InRange(a + b, |comp|)
    ensures Accept(a + b, comp) == Accept(a, comp) + Accept(b, Settled(a, comp))
    decreases |a|
  {
    if |a| == 0 {
      assert a + b == b;
    } else {
      var c := a[0];
      assert (a + b)[1..] == a[1..] + b;
      assert InRange(a[1..], |comp|);
      assert (a + b)[0] == c;
      if comp[c.x] == comp[c.i] {
        AcceptConcat(a[1..], b, comp);
        assert Accept(a + b, comp) == Accept(a[1..] + b, comp);
      } else {
        var next := UnionFind.Relabel(comp, comp[c.i], comp[c.x]);
        AcceptConcat(a[1..], b, next);
        assert Accept(a + b, comp) == [c] + Accept(a[1..] + b, next);
        assert Accept(a, comp) == [c] + Accept(a[1..], next);
        assert Settled(a, comp) == Settled(a[1..], next);
      }
    }
  }

  /** The labelling once the entries lighter than `w` have been considered. */
  function Before(w: int): seq<nat>
  {
    if w <= 1 then [0, 1, 2, 3, 4, 5, 6, 7, 8]
    else if w <= 2 then [0, 1, 2, 3, 4, 5, 6, 6, 8]
    else if w <= 4 then [0, 1, 2, 3, 4, 5, 5, 5, 2]
    else if w <= 7 then [0, 0, 2, 3, 4, 2, 2, 2, 2]
    else if w <= 8 then [0, 0, 2, 2, 4, 2, 2, 2, 2]
    else if w <= 9 then [0, 0, 0, 0, 4, 0, 0, 0, 0]
    else [0, 0, 0, 0, 0, 0, 0, 0, 0]
  }

  /** The entries of weight `w` that are accepted, starting from `Before(w)`. */
  function Picked(w: int): seq<Candidate>
  {
    if w == 1 then [Candidate(1, 6, 7)]
    else if w == 2 then [Candidate(2, 2, 8), Candidate(2, 5, 6)]
    else if w == 4 then [Candidate(4, 0, 1), Candidate(4, 2, 5)]
    else if w == 7 then [Candidate(7, 2, 3)]
    else if w == 8 then [Candidate(8, 0, 7)]
    else if w == 9 then [Candidate(9, 3, 4)]
    else []
  }

  /** The entries accepted from the `j` lightest weights. */
  function PickedUpto(j: nat): seq<Candidate>
    requires j <= 10
  {
    if j == 0 then [] else PickedUpto(j - 1) + Picked(Weights()[j - 1])
  }

  lemma Group1(q: seq<Candidate>, comp: seq<nat>)
    requires q == WeightEntries(1) && comp == Before(1)
    ensures InRange(q, |comp|)
    ensures Accept(q, comp) == Picked(1)
    ensures Settled(q, comp) == Before(2)
  {
    assert InRange(WeightEntries(1), 9);
    assert Accept(WeightEntries(1), Before(1)) == Picked(1);
    assert Settled(WeightEntries(1), Before(1)) == Before(2);
  }

  lemma Group2(q: seq<Candidate>, comp: seq<nat>)
    requires q == WeightEntries(2) && comp == Before(2)
    ensures InRange(q, |comp|)
    ensures Accept(q, comp) == Picked(2)
    ensures Settled(q, comp) == Before(4)
  {
    assert InRange(WeightEntries(2), 9);
    assert Accept(WeightEntries(2), Before(2)) == Picked(2);
    assert Settled(WeightEntries(2), Before(2)) == Before(4);
  }

  lemma Group4(q: seq<Candidate>, comp: seq<nat>)
    requires q == WeightEntries(4) && comp == Before(4)
    ensures InRange(q, |comp|)
    ensures Accept(q, comp) == Picked(4)
    ensures Settled(q, comp) == Before(6)
  {
    assert InRange(WeightEntries(4), 9);
    assert Accept(WeightEntries(4), Before(4)) == Picked(4);
    assert Settled(WeightEntries(4), Before(4)) == Before(6);
  }

  lemma Group6(q: seq<Candidate>, comp: seq<nat>)
    requires q == WeightEntries(6) && comp == Before(6)
    ensures InRange(q, |comp|)
    ensures Accept(q, comp) == Picked(6)
    ensures Settled(q, comp) == Before(7)
  {
    assert InRange(WeightEntries(6), 9);
    assert Accept(WeightEntries(6), Before(6)) == Picked(6);
    assert Settled(WeightEntries(6), Before(6)) == Before(7);
  }

  lemma Group7(q: seq<Candidate>, comp: seq<nat>)
    requires q == WeightEntries(7) && comp == Before(7)
    ensures InRange(q, |comp|)
    ensures Accept(q, comp) == Picked(7)
    ensures Settled(q, comp) == Before(8)
  {
    assert InRange(WeightEntries(7), 9);
    assert Accept(WeightEntries(7), Before(7)) == Picked(7);
    assert Settled(WeightEntries(7), Before(7)) == Before(8);
  }

  lemma Group8(q: seq<Candidate>, comp: seq<nat>)
    requires q == WeightEntries(8) && comp == Before(8)
    ensures InRange(q, |comp|)
    ensures Accept(q, comp) == Picked(8)
    ensures Settled(q, comp) == Before(9)
  {
    assert InRange(WeightEntries(8), 9);
    assert Accept(WeightEntries(8), Before(8)) == Picked(8);
    assert Settled(WeightEntries(8), Before(8)) == Before(9);
  }

  lemma Group9(q: seq<Candidate>, comp: seq<nat>)
    requires q == WeightEntries(9) && comp == Before(9)
    ensures InRange(q, |comp|)
    ensures Accept(q, comp) == Picked(9)
    ensures Settled(q, comp) == Before(10)
  {
    assert InRange(WeightEntries(9), 9);
    assert Accept(WeightEntries(9), Before(9)) == Picked(9);
    assert Settled(WeightEntries(9), Before(9)) == Before(10);
  }

  /** Once every node carries the same label, nothing more is accepted. */
  lemma {:induction false} OneComponent(q: seq<Candidate>, comp: seq<nat>)
    requires InRange(q, |comp|) && forall a :: 0 <= a < |comp| ==> comp[a] == 0
    ensures Accept(q, comp) == [] && Settled(q, comp) == comp
    decreases |q|
  {
    if |q| > 0 {
      assert InRange(q[1..], |comp|);
      OneComponent(q[1..], comp);
    }
  }

  /** The groups past weight 9 meet a single component and accept nothing. */
  lemma Settle(w: int, q: seq<Candidate>, comp: seq<nat>)
    requires (w == 10 || w == 11 || w == 14) && q == WeightEntries(w) && comp == Before(w)
    ensures InRange(q, |comp|)
    ensures Accept(q, comp) == Picked(w)
    ensures Settled(q, comp) == Before(15)
  {
    assert InRange(q, |comp|);
    OneComponent(q, comp);
  }

  /** The run over the group of the `j`-th weight, starting from `Before` that weight. */
  lemma GroupAt(j: nat)
    requires j < 10
    ensures InRange(WeightEntries(Weights()[j]), 9)
    ensures Accept(WeightEntries(Weights()[j]), Before(Weights()[j])) == Picked(Weights()[j])
    ensures Settled(WeightEntries(Weights()[j]), Before(Weights()[j])) == Before(NextWeight(j + 1))
  {
    if j < 4 {
      LightGroup(j);
    } else if j < 7 {
      HeavyGroup(j);
    } else {
      SettledGroup(j);
    }
  }

  lemma LightGroup(j: nat)
    requires j < 4
    ensures InRange(WeightEntries(Weights()[j]), 9)
    ensures Accept(WeightEntries(Weights()[j]), Before(Weights()[j])) == Picked(Weights()[j])
    ensures Settled(WeightEntries(Weights()[j]), Before(Weights()[j])) == Before(NextWeight(j + 1))
  {
    var q, comp := WeightEntries(Weights()[j]), Before(Weights()[j]);
    if j == 0 { Group1(q, comp); }
    else if j == 1 { Group2(q, comp); }
    else if j == 2 { Group4(q, comp); }
    else { Group6(q, comp); }
  }

  lemma HeavyGroup(j: nat)
    requires 4 <= j < 7
    ensures InRange(WeightEntries(Weights()[j]), 9)
    ensures Accept(WeightEntries(Weights()[j]), Before(Weights()[j])) == Picked(Weights()[j])
    ensures Settled(WeightEntries(Weights()[j]), Before(Weights()[j])) == Before(NextWeight(j + 1))
  {
    var q, comp := WeightEntries(Weights()[j]), Before(Weights()[j]);
    if j == 4 { Group7(q, comp); }
    else if j == 5 { Group8(q, comp); }
    else { Group9(q, comp); }
  }

  lemma SettledGroup(j: nat)
    requires 7 <= j < 10
    ensures InRange(WeightEntries(Weights()[j]), 9)
    ensures Accept(WeightEntries(Weights()[j]), Before(Weights()[j])) == Picked(Weights()[j])
    ensures Settled(WeightEntries(Weights()[j]), Before(Weights()[j])) == Before(NextWeight(j + 1))
  {
    var q, comp := WeightEntries(Weights()[j]), Before(Weights()[j]);
    if j == 7 { Settle(10, q, comp); }
    else if j == 8 { Settle(11, q, comp); }
    else { Settle(14, q, comp); }
  }

  /** Chains the run over a prefix with the run over one more group. */
  lemma Chain(p: seq<Candidate>, g: seq<Candidate>, c0: seq<nat>, c1: seq<nat>, c2: seq<nat>,
              acc: seq<Candidate>, accG: seq<Candidate>)
    requires InRange(p, |c0|) && InRange(g, |c0|)
    requires Accept(p, c0) == acc && Settled(p, c0) == c1
    requires InRange(g, |c1|) && Accept(g, c1) == accG && Settled(g, c1) == c2
    ensures InRange(p + g, |c0|) && Accept(p + g, c0) == acc + accG && Settled(p + g, c0) == c2
  {
    AcceptConcat(p, g, c0);
    SettledConcat(p, g, c0);
  }

  /** Kruskal's rule over the `j` lightest weights, from singletons. */
  lemma {:induction false} Through(j: nat)
    requires j <= 10
    ensures InRange(Upto(j), 9)
    ensures Accept(Upto(j), Before(1)) == PickedUpto(j)
    ensures Settled(Upto(j), Before(1)) == Before(NextWeight(j))
  {
    if j > 0 {
      Through(j - 1);
      GroupAt(j - 1);
      var w := Weights()[j - 1];
      Chain(Upto(j - 1), WeightEntries(w), Before(1), Before(w), Before(NextWeight(j)), PickedUpto(j - 1), Picked(w));
    }
  }

  lemma SingletonsAtStart()
    ensures Singletons(9) == Before(1)
  {
    var s := Singletons(9);
    assert s[0] == 0 && s[1] == 1 && s[2] == 2 && s[3] == 3 && s[4] == 4;
    assert s[5] == 5 && s[6] == 6 && s[7] == 7 && s[8] == 8;
  }

  /** The accepted edges of the test graph, lightest first. */
  function Answer(): seq<Candidate>
  {
    [Candidate(1, 6, 7), Candidate(2, 2, 8), Candidate(2, 5, 6), Candidate(4, 0, 1),
     Candidate(4, 2, 5), Candidate(7, 2, 3), Candidate(8, 0, 7), Candidate(9, 3, 4)]
  }

  lemma PickedAll()
    ensures PickedUpto(10) == Answer()
  {
    assert PickedUpto(3) == Answer()[..5];
    assert PickedUpto(6) == Answer()[..7];
  }

  /** `SumWeights` adds one more entry of a longer prefix. */
  lemma SumPrefix(a: seq<Candidate>, k: nat)
    requires 0 < k <= |a|
    ensures SumWeights(a[..k]) == SumWeights(a[..k - 1]) + a[k - 1].weight
  {
    assert a[..k][..k - 1] == a[..k - 1];
  }

  lemma AnswerWeight()
    ensures SumWeights(Answer()) == 37
  {
    var a := Answer();
    assert a[..0] == [] && a[..8] == a;
    SumPrefix(a, 1); SumPrefix(a, 2); SumPrefix(a, 3); SumPrefix(a, 4);
    SumPrefix(a, 5); SumPrefix(a, 6); SumPrefix(a, 7); SumPrefix(a, 8);
  }

  /**
   * Kruskal's rule on the test graph accepts g-h, c-i, f-g, a-b, c-f, c-d,
   * a-h and d-e, of total weight 37, and the accepted edges join all nine
   * nodes into one tree.
   */
  lemma CormenAccept()
    ensures Accept(Queue(Cormen(), Identity), Singletons(9)) == Answer()
    ensures SumWeights(Answer()) == 37
  {
    CormenQueue();
    SingletonsAtStart();
    Through(10);
    PickedAll();
    AnswerWeight();
  }
}
