/**
 * `Undirected_Graph::krushkal_mst` of source/graph_library.h with integer
 * weights: every adjacency entry becomes a queue entry `(weight, {x, i})`,
 * the entries leave the queue smallest first, and an entry is accepted when
 * its two ends lie in different sets of a `disjoint_set_union`.
 *
 * The priority queue is a sequence kept in ascending order by `Insert`.
 * The accepted edges are specified by `Accept`, a reference run of the same
 * rule over a labelling of the components instead of the union-find.
 */
module Kruskal {
  import opened Adjacency
  import UnionFind

  /** A queue entry: the weight and the pair `{x, i}` (`x` the target, `i` the row). */
  datatype Candidate = Candidate(weight: int, x: nat, i: nat)

  /** An accepted edge as returned: both ends and the stored edge value. */
  datatype FullEdge = FullEdge(u: nat, v: nat, edge: int)

  /** The order of `std::pair<int, std::array<int, 2>>`: weight, then x, then i. */
  predicate Le(a: Candidate, b: Candidate)
  {
    a.weight < b.weight || (a.weight == b.weight && (a.x < b.x || (a.x == b.x && a.i <= b.i)))
  }

  predicate Ascending(q: seq<Candidate>)
  {
    forall j :: 0 < j < |q| ==> Le(q[j - 1], q[j])
  }

  /** Pushing onto the min-priority queue. */
  function Insert(q: seq<Candidate>, c: Candidate): (r: seq<Candidate>)
    requires Ascending(q)
    ensures Ascending(r) && multiset(r) == multiset(q) + multiset{c}
    ensures |r| > 0 && (r[0] == c || (|q| > 0 && r[0] == q[0]))
  {
    if |q| == 0 || Le(c, q[0]) then [c] + q
    else
      assert q == [q[0]] + q[1..];
      [q[0]] + Insert(q[1..], c)
  }

  function InsertAll(q: seq<Candidate>, cs: seq<Candidate>): (r: seq<Candidate>)
    requires Ascending(q)
    ensures Ascending(r) && multiset(r) == multiset(q) + multiset(cs)
    decreases |cs|
  {
    if |cs| == 0 then q
    else
      assert cs == [cs[0]] + cs[1..];
      InsertAll(Insert(q, cs[0]), cs[1..])
  }

  lemma {:induction false} AscendingFirst(q: seq<Candidate>, c: Candidate)
    requires Ascending(q) && c in q
    ensures Le(q[0], c)
  {
    if q[0] != c {
      assert c in q[1..];
      AscendingFirst(q[1..], c);
    }
  }

  /** Two ascending sequences holding the same entries are equal. */
  lemma {:induction false} AscendingUnique(a: seq<Candidate>, b: seq<Candidate>)
    requires Ascending(a) && Ascending(b) && multiset(a) == multiset(b)
    ensures a == b
  {
    if |a| == 0 {
      assert |multiset(b)| == 0;
    } else {
      SameHead(a, b);
      assert multiset(a[1..]) == multiset(b[1..]) by {
        assert a == [a[0]] + a[1..] && b == [b[0]] + b[1..];
        assert multiset(a) == multiset{a[0]} + multiset(a[1..]);
        assert multiset(b) == multiset{b[0]} + multiset(b[1..]);
        assert multiset(a[1..]) == multiset(a) - multiset{a[0]};
        assert multiset(b[1..]) == multiset(b) - multiset{b[0]};
      }
      AscendingUnique(a[1..], b[1..]);
    }
  }

  lemma SameHead(a: seq<Candidate>, b: seq<Candidate>)
    requires Ascending(a) && Ascending(b) && multiset(a) == multiset(b) && |a| > 0
    ensures |b| > 0 && a[0] == b[0]
  {
    assert a[0] in multiset(b);
    assert b[0] in multiset(a);
    AscendingFirst(a, b[0]);
    AscendingFirst(b, a[0]);
  }

  /** The entries pushed for one row `i`, in row order. */
  function RowCandidates(row: seq<Edge>, i: nat, weight: int -> int): (cs: seq<Candidate>)
    ensures |cs| == |row|
    ensures forall k :: 0 <= k < |row| ==> cs[k] == Candidate(weight(row[k].payload), row[k].to, i)
  {
    seq(|row|, k requires 0 <= k < |row| => Candidate(weight(row[k].payload), row[k].to, i))
  }

  /** The entries pushed for rows `0..i-1`, in loop order. */
  function Pushed(adj: seq<seq<Edge>>, weight: int -> int, i: nat): seq<Candidate>
    requires i <= |adj|
  {
    if i == 0 then [] else Pushed(adj, weight, i - 1) + RowCandidates(adj[i - 1], i - 1, weight)
  }

  /** Every entry has both ends below `n`. */
  predicate InRange(q: seq<Candidate>, n: nat)
  {
    forall c :: c in q ==> c.x < n && c.i < n
  }

  lemma {:induction false} PushedInRange(adj: seq<seq<Edge>>, weight: int -> int, i: nat)
    requires WellFormed(adj) && i <= |adj|
    ensures InRange(Pushed(adj, weight, i), |adj|)
    ensures |Pushed(adj, weight, i)| == if i == 0 then 0 else |Pushed(adj, weight, i - 1)| + |adj[i - 1]|
  {
    if i > 0 {
      PushedInRange(adj, weight, i - 1);
    }
  }

  /** The queue once every entry has been pushed: ascending, holding every entry. */
  function Queue(adj: seq<seq<Edge>>, weight: int -> int): (q: seq<Candidate>)
    requires WellFormed(adj)
    ensures Ascending(q) && multiset(q) == multiset(Pushed(adj, weight, |adj|))
    ensures InRange(q, |adj|)
  {
    var q := InsertAll([], Pushed(adj, weight, |adj|));
    PushedInRange(adj, weight, |adj|);
    assert forall c :: c in q ==> c in multiset(q);
    q
  }

  function Singletons(n: nat): (comp: seq<nat>)
    ensures |comp| == n && forall a :: 0 <= a < n ==> comp[a] == a
  {
    seq(n, a => a)
  }

  /**
   * The reference rule: an entry is accepted iff its ends carry different
   * component labels, and accepting it gives the component of `i` the
   * label of the component of `x`.
   */
  function Accept(q: seq<Candidate>, comp: seq<nat>): (acc: seq<Candidate>)
    requires InRange(q, |comp|)
    ensures InRange(acc, |comp|) && |acc| <= |q|
    decreases |q|
  {
    if |q| == 0 then []
    else
      var c := q[0];
      assert InRange(q[1..], |comp|);
      if comp[c.x] == comp[c.i] then Accept(q[1..], comp)
      else [c] + Accept(q[1..], UnionFind.Relabel(comp, comp[c.i], comp[c.x]))
  }

  /** The component labels in use. */
  ghost function Labels(comp: seq<nat>): set<nat>
  {
    set a | 0 <= a < |comp| :: comp[a]
  }

  lemma RelabelLabels(comp: seq<nat>, l: nat, w: nat)
    requires l in Labels(comp) && w in Labels(comp) && l != w
    ensures Labels(UnionFind.Relabel(comp, l, w)) == Labels(comp) - {l}
  {
    var t := UnionFind.Relabel(comp, l, w);
    forall b | b in Labels(comp) - {l}
      ensures b in Labels(t)
    {
      var a :| 0 <= a < |comp| && comp[a] == b;
      assert t[a] == b;
    }
  }

  lemma {:induction false} SingletonLabels(n: nat)
    ensures |Labels(Singletons(n))| == n
  {
    if n > 0 {
      SingletonLabels(n - 1);
      var now, before := Singletons(n), Singletons(n - 1);
      forall b | b in Labels(before)
        ensures b in Labels(now)
      {
        var a :| 0 <= a < n - 1 && before[a] == b;
        assert now[a] == b;
      }
      forall b | b in Labels(now)
        ensures b in Labels(before) + {n - 1}
      {
        var a :| 0 <= a < n && now[a] == b;
        if a < n - 1 {
          assert before[a] == b;
        }
      }
      assert now[n - 1] == n - 1;
      assert Labels(now) == Labels(before) + {n - 1};
    }
  }

  /** Every acceptance merges two components, so fewer are accepted than there are labels. */
  lemma {:induction false} AcceptShrinks(q: seq<Candidate>, comp: seq<nat>)
    requires InRange(q, |comp|) && |comp| > 0
    ensures |Accept(q, comp)| < |Labels(comp)|
    decreases |q|
  {
    assert comp[0] in Labels(comp);
    if |q| > 0 {
      var c := q[0];
      assert InRange(q[1..], |comp|);
      if comp[c.x] == comp[c.i] {
        AcceptShrinks(q[1..], comp);
      } else {
        assert comp[c.x] in Labels(comp) && comp[c.i] in Labels(comp);
        RelabelLabels(comp, comp[c.i], comp[c.x]);
        AcceptShrinks(q[1..], UnionFind.Relabel(comp, comp[c.i], comp[c.x]));
      }
    }
  }

  /** Some entry of `E` joins `u` and `v`, in either direction. */
  ghost predicate Joins(E: seq<Candidate>, u: nat, v: nat)
  {
    exists e :: e in E && ((e.x == u && e.i == v) || (e.x == v && e.i == u))
  }

  ghost predicate IsWalk(E: seq<Candidate>, w: seq<nat>)
  {
    |w| > 0 && forall k :: 0 < k < |w| ==> Joins(E, w[k - 1], w[k])
  }

  /** `a` and `b` are linked by the edges `E`, taken as undirected. */
  ghost predicate Connected(E: seq<Candidate>, a: nat, b: nat)
  {
    exists w :: IsWalk(E, w) && w[0] == a && w[|w| - 1] == b
  }

  /** Every edge of `E` lies inside one component of `comp`. */
  ghost predicate Inside(E: seq<Candidate>, comp: seq<nat>)
  {
    forall e :: e in E ==> e.x < |comp| && e.i < |comp| && comp[e.x] == comp[e.i]
  }

  lemma {:induction false} WalkInside(E: seq<Candidate>, comp: seq<nat>, w: seq<nat>)
    requires Inside(E, comp) && IsWalk(E, w) && w[0] < |comp|
    ensures w[|w| - 1] < |comp| && comp[w[|w| - 1]] == comp[w[0]]
    decreases |w|
  {
    if |w| > 1 {
      var w' := w[..|w| - 1];
      assert IsWalk(E, w');
      WalkInside(E, comp, w');
      assert Joins(E, w[|w| - 2], w[|w| - 1]);
    }
  }

  /** No entry of `acc` joins two nodes already connected by `E` and the entries before it. */
  ghost predicate Acyclic(E: seq<Candidate>, acc: seq<Candidate>)
  {
    forall j :: 0 <= j < |acc| ==> !Connected(E + acc[..j], acc[j].x, acc[j].i)
  }

  /** Nodes with different labels are not connected by edges inside components. */
  lemma NotConnected(E: seq<Candidate>, comp: seq<nat>, a: nat, b: nat)
    requires Inside(E, comp) && a < |comp| && b < |comp| && comp[a] != comp[b]
    ensures !Connected(E, a, b)
  {
    forall w | IsWalk(E, w) && w[0] == a
      ensures w[|w| - 1] != b
    {
      WalkInside(E, comp, w);
    }
  }

  /** Merging the components of `c.i` and `c.x` keeps `E` and `c` inside components. */
  lemma InsideRelabel(E: seq<Candidate>, comp: seq<nat>, c: Candidate)
    requires Inside(E, comp) && c.x < |comp| && c.i < |comp|
    ensures Inside(E + [c], UnionFind.Relabel(comp, comp[c.i], comp[c.x]))
  {
  }

  lemma AcyclicCons(E: seq<Candidate>, c: Candidate, rest: seq<Candidate>)
    requires !Connected(E, c.x, c.i) && Acyclic(E + [c], rest)
    ensures Acyclic(E, [c] + rest)
  {
    var acc := [c] + rest;
    forall j | 0 <= j < |acc|
      ensures !Connected(E + acc[..j], acc[j].x, acc[j].i)
    {
      if j == 0 {
        assert E + acc[..0] == E;
      } else {
        assert E + acc[..j] == (E + [c]) + rest[..j - 1] && acc[j] == rest[j - 1];
      }
    }
  }

  /**
   * No accepted entry closes a cycle: its ends are not connected by the
   * edges `E` already inside components and the entries accepted before it.
   */
  lemma {:induction false} AcceptForest(q: seq<Candidate>, comp: seq<nat>, E: seq<Candidate>)
    requires InRange(q, |comp|) && Inside(E, comp)
    ensures Acyclic(E, Accept(q, comp))
    decreases |q|
  {
    if |q| > 0 {
      var c := q[0];
      assert InRange(q[1..], |comp|);
      if comp[c.x] == comp[c.i] {
        assert Accept(q, comp) == Accept(q[1..], comp);
        AcceptForest(q[1..], comp, E);
      } else {
        var comp' := UnionFind.Relabel(comp, comp[c.i], comp[c.x]);
        InsideRelabel(E, comp, c);
        AcceptForest(q[1..], comp', E + [c]);
        NotConnected(E, comp, c.x, c.i);
        AcyclicCons(E, c, Accept(q[1..], comp'));
      }
    }
  }

  /**
   * The accepted edges form a forest: none closes a cycle with those
   * accepted before it, and at most `n - 1` of them are accepted.
   */
  lemma AcceptedForest(q: seq<Candidate>, n: nat)
    requires InRange(q, n)
    ensures Acyclic([], Accept(q, Singletons(n)))
    ensures |Accept(q, Singletons(n))| <= if n == 0 then 0 else n - 1
  {
    AcceptForest(q, Singletons(n), []);
    if n == 0 {
      assert multiset(q) == multiset{};
    } else {
      SingletonLabels(n);
      AcceptShrinks(q, Singletons(n));
    }
  }

  /** One more joined step extends a connection. */
  lemma ConnectedStep(E: seq<Candidate>, a: nat, b: nat, d: nat)
    requires Connected(E, a, b) && Joins(E, b, d)
    ensures Connected(E, a, d)
  {
    var w :| IsWalk(E, w) && w[0] == a && w[|w| - 1] == b;
    var w' := w + [d];
    assert IsWalk(E, w') by {
      forall k | 0 < k < |w'|
        ensures Joins(E, w'[k - 1], w'[k])
      {
        if k < |w| {
          assert w'[k - 1] == w[k - 1] && w'[k] == w[k];
        }
      }
    }
    assert w'[0] == a && w'[|w'| - 1] == d;
  }

  /** Connections chain. */
  lemma {:induction false} ConnectedChain(E: seq<Candidate>, a: nat, b: nat, d: nat)
    requires Connected(E, a, b) && Connected(E, b, d)
    ensures Connected(E, a, d)
  {
    var w :| IsWalk(E, w) && w[0] == b && w[|w| - 1] == d;
    ConnectedAlong(E, a, w, |w|);
  }

  /** Helper of `ConnectedChain`: `a` reaches every node of a walk that starts where `a` is connected. */
  lemma {:induction false} ConnectedAlong(E: seq<Candidate>, a: nat, w: seq<nat>, k: nat)
    requires IsWalk(E, w) && Connected(E, a, w[0]) && 0 < k <= |w|
    ensures Connected(E, a, w[k - 1])
  {
    if k > 1 {
      ConnectedAlong(E, a, w, k - 1);
      ConnectedStep(E, a, w[k - 2], w[k - 1]);
    }
  }

  /** More edges keep every connection. */
  lemma ConnectedGrows(E: seq<Candidate>, F: seq<Candidate>, a: nat, b: nat)
    requires Connected(E, a, b)
    ensures Connected(E + F, a, b)
  {
    var w :| IsWalk(E, w) && w[0] == a && w[|w| - 1] == b;
    forall k | 0 < k < |w|
      ensures Joins(E + F, w[k - 1], w[k])
    {
      assert Joins(E, w[k - 1], w[k]);
      var e :| e in E && ((e.x == w[k - 1] && e.i == w[k]) || (e.x == w[k] && e.i == w[k - 1]));
      assert e in E + F;
    }
    assert IsWalk(E + F, w);
  }

  /** Nodes with the same component label are connected by the edges `E`. */
  ghost predicate Spans(E: seq<Candidate>, comp: seq<nat>)
  {
    forall a, b :: 0 <= a < |comp| && 0 <= b < |comp| && comp[a] == comp[b] ==> Connected(E, a, b)
  }

  /** Accepting `c` and merging the components of its ends keeps the labels spanned. */
  lemma SpansRelabel(E: seq<Candidate>, comp: seq<nat>, c: Candidate)
    requires Spans(E, comp) && c.x < |comp| && c.i < |comp|
    ensures Spans(E + [c], UnionFind.Relabel(comp, comp[c.i], comp[c.x]))
  {
    var E', comp' := E + [c], UnionFind.Relabel(comp, comp[c.i], comp[c.x]);
    assert Joins(E', c.x, c.i) && Joins(E', c.i, c.x) by {
      assert c in E';
    }
    forall a, b | 0 <= a < |comp| && 0 <= b < |comp| && comp'[a] == comp'[b]
      ensures Connected(E', a, b)
    {
      if comp[a] == comp[b] {
        ConnectedGrows(E, [c], a, b);
      } else if comp[a] == comp[c.i] {
        ConnectedGrows(E, [c], a, c.i);
        ConnectedStep(E', a, c.i, c.x);
        ConnectedGrows(E, [c], c.x, b);
        ConnectedChain(E', a, c.x, b);
      } else {
        ConnectedGrows(E, [c], a, c.x);
        ConnectedStep(E', a, c.x, c.i);
        ConnectedGrows(E, [c], c.i, b);
        ConnectedChain(E', a, c.i, b);
      }
    }
  }

  /**
   * Helper of `AcceptSpans`: when the labels are spanned by `E`, the ends of
   * every entry of the queue end up connected by `E` and the accepted entries.
   */
  lemma {:induction false} AcceptSpan(q: seq<Candidate>, comp: seq<nat>, E: seq<Candidate>)
    requires InRange(q, |comp|) && Spans(E, comp)
    ensures forall c :: c in q ==> Connected(E + Accept(q, comp), c.x, c.i)
    decreases |q|
  {
    if |q| > 0 {
      var c := q[0];
      assert InRange(q[1..], |comp|);
      assert forall d :: d in q ==> d == c || d in q[1..];
      if comp[c.x] == comp[c.i] {
        AcceptSpan(q[1..], comp, E);
        ConnectedGrows(E, Accept(q, comp), c.x, c.i);
      } else {
        var comp' := UnionFind.Relabel(comp, comp[c.i], comp[c.x]);
        SpansRelabel(E, comp, c);
        AcceptSpan(q[1..], comp', E + [c]);
        assert E + Accept(q, comp) == (E + [c]) + Accept(q[1..], comp');
        var w := [c.x, c.i];
        assert c in E + Accept(q, comp);
        assert IsWalk(E + Accept(q, comp), w);
      }
    }
  }

  /**
   * The accepted edges span: the two ends of every queue entry, so of every
   * edge of the graph, are connected by the accepted edges. With
   * `AcceptedForest` they form a spanning forest.
   */
  lemma AcceptSpans(q: seq<Candidate>, n: nat)
    requires InRange(q, n)
    ensures forall c :: c in q ==> Connected(Accept(q, Singletons(n)), c.x, c.i)
  {
    var comp := Singletons(n);
    forall a, b | 0 <= a < n && 0 <= b < n && comp[a] == comp[b]
      ensures Connected([], a, b)
    {
      assert IsWalk([], [a]);
    }
    AcceptSpan(q, comp, []);
    assert [] + Accept(q, comp) == Accept(q, comp);
  }

  function SumWeights(acc: seq<Candidate>): int
  {
    if |acc| == 0 then 0 else SumWeights(acc[..|acc| - 1]) + acc[|acc| - 1].weight
  }

  /** `get_edge[{x, i}]`: the stored value, or a value-initialised 0. */
  function Get(m: map<(nat, nat), int>, key: (nat, nat)): int
  {
    if key in m then m[key] else 0
  }

  function Chosen(acc: seq<Candidate>, m: map<(nat, nat), int>): (v: seq<FullEdge>)
    ensures |v| == |acc|
    ensures forall j :: 0 <= j < |acc| ==> v[j] == FullEdge(acc[j].x, acc[j].i, Get(m, (acc[j].x, acc[j].i)))
  {
    seq(|acc|, j requires 0 <= j < |acc| => FullEdge(acc[j].x, acc[j].i, Get(m, (acc[j].x, acc[j].i))))
  }

  ghost function Keys(acc: seq<Candidate>): set<(nat, nat)>
  {
    set c | c in acc :: (c.x, c.i)
  }

  /** `m` is `m0` after `operator[]` has been applied to the key of every accepted edge. */
  ghost predicate Looked(m0: map<(nat, nat), int>, acc: seq<Candidate>, m: map<(nat, nat), int>)
  {
    m.Keys == m0.Keys + Keys(acc) &&
    (forall key :: key in m0 ==> m[key] == m0[key]) &&
    (forall key :: key in m && key !in m0 ==> m[key] == 0)
  }

  /** Both labellings split the nodes below `n` into the same sets. */
  ghost predicate Corresponds(rs: seq<nat>, comp: seq<nat>, n: nat)
    requires n <= |rs| && n <= |comp|
  {
    forall a, b :: 0 <= a < n && 0 <= b < n ==> (rs[a] == rs[b] <==> comp[a] == comp[b])
  }

  lemma UnionCorresponds(rs0: seq<nat>, s0: seq<int>, x: nat, i: nat, rs: seq<nat>, s: seq<int>,
                         comp: seq<nat>, n: nat)
    requires x < n && i < n && n < |rs0| && |comp| == n && rs0[x] < |s0| && rs0[i] < |s0|
    requires Corresponds(rs0, comp, n) && rs0[x] != rs0[i]
    requires UnionFind.Unioned(rs0, s0, x, i, rs, s)
    ensures n <= |rs| && Corresponds(rs, UnionFind.Relabel(comp, comp[i], comp[x]), n)
  {
    var c := UnionFind.Relabel(comp, comp[i], comp[x]);
    assert rs == UnionFind.Relabel(rs0, rs0[x], rs0[i]) || rs == UnionFind.Relabel(rs0, rs0[i], rs0[x]);
    forall a, b | 0 <= a < n && 0 <= b < n
      ensures rs[a] == rs[b] <==> c[a] == c[b]
    {
      assert rs0[a] == rs0[x] <==> comp[a] == comp[x];
      assert rs0[a] == rs0[i] <==> comp[a] == comp[i];
      assert rs0[b] == rs0[x] <==> comp[b] == comp[x];
      assert rs0[b] == rs0[i] <==> comp[b] == comp[i];
    }
  }

  /** The nested loops of `krushkal_mst` that push every adjacency entry. */
  method FillQueue(adj: seq<seq<Edge>>, weight: int -> int) returns (pq: seq<Candidate>)
    requires WellFormed(adj)
    ensures pq == Queue(adj, weight)
  {
    pq := [];
    for i := 0 to |adj|
      invariant Ascending(pq) && multiset(pq) == multiset(Pushed(adj, weight, i))
    {
      pq := PushRow(pq, adj[i], i, weight);
    }
    AscendingUnique(pq, Queue(adj, weight));
  }

  /** The inner loop: push the entries of row `i`. */
  method PushRow(pq0: seq<Candidate>, row: seq<Edge>, i: nat, weight: int -> int) returns (pq: seq<Candidate>)
    requires Ascending(pq0)
    ensures Ascending(pq) && multiset(pq) == multiset(pq0) + multiset(RowCandidates(row, i, weight))
  {
    ghost var cs := RowCandidates(row, i, weight);
    pq := pq0;
    for k := 0 to |row|
      invariant Ascending(pq)
      invariant multiset(pq) == multiset(pq0) + multiset(cs[..k])
    {
      var c := Candidate(weight(row[k].payload), row[k].to, i);
      assert cs[..k + 1] == cs[..k] + [c];
      pq := Insert(pq, c);
    }
    assert cs[..|row|] == cs;
  }

  /**
   * One popped entry: `is_same` on its ends, and `do_union` when they differ.
   * The union-find keeps splitting the nodes like the reference labelling.
   */
  method Consider(dsu: UnionFind.DisjointSetUnion, c: Candidate, n: nat, ghost comp: seq<nat>)
    returns (accepted: bool, ghost comp': seq<nat>)
    requires dsu.Valid() && dsu.n == n && |comp| == n && c.x < n && c.i < n
    requires Corresponds(dsu.RootOf(), comp, n)
    modifies dsu, dsu.parent, dsu.size
    ensures dsu.Valid() && dsu.n == n && dsu.parent == old(dsu.parent) && dsu.size == old(dsu.size)
    ensures accepted <==> comp[c.x] != comp[c.i]
    ensures comp' == if accepted then UnionFind.Relabel(comp, comp[c.i], comp[c.x]) else comp
    ensures Corresponds(dsu.RootOf(), comp', n)
  {
    var same := dsu.IsSame(c.x, c.i);
    accepted := !same;
    comp' := comp;
    if accepted {
      ghost var rs0, s0 := dsu.RootOf(), dsu.size[..];
      dsu.DoUnion(c.x, c.i);
      UnionCorresponds(rs0, s0, c.x, c.i, dsu.RootOf(), dsu.size[..], comp, n);
      comp' := UnionFind.Relabel(comp, comp[c.i], comp[c.x]);
    }
  }

  /**
   * `krushkal_mst` with `int` weights: `weight` is `get_weight` and
   * `getEdge` the `get_edge` map, returned as `edges` with the entries that
   * `operator[]` added. The total is the sum of the accepted weights, and
   * the edges are returned in acceptance order; the accepted entries are
   * those of `Accept` run over the queue in ascending order.
   */
  method KruskalMst(adj: seq<seq<Edge>>, weight: int -> int, getEdge: map<(nat, nat), int>)
    returns (total: int, v: seq<FullEdge>, edges: map<(nat, nat), int>)
    requires WellFormed(adj)
    ensures var acc := Accept(Queue(adj, weight), Singletons(|adj|));
      total == SumWeights(acc) && v == Chosen(acc, getEdge) && Looked(getEdge, acc, edges)
  {
    var n := |adj|;
    var pq := FillQueue(adj, weight);
    ghost var q0 := pq;
    var dsu := new UnionFind.DisjointSetUnion(n);
    ghost var comp := Singletons(n);
    ghost var acc: seq<Candidate> := [];
    total, v, edges := 0, [], getEdge;
    DrainStart(q0, n, getEdge);
    while |pq| > 0
      invariant fresh(dsu) && fresh(dsu.parent) && fresh(dsu.size)
      invariant dsu.Valid() && dsu.n == n && |comp| == n && Corresponds(dsu.RootOf(), comp, n)
      invariant Drained(q0, n, getEdge, pq, comp, acc, total, v, edges)
      decreases |pq|
    {
      pq, comp, acc, total, v, edges := Pop(dsu, q0, n, getEdge, pq, comp, acc, total, v, edges);
    }
    DrainEnd(q0, n, getEdge, comp, acc, total, v, edges);
  }

  /**
   * One pass of the loop of `krushkal_mst`: take the smallest entry off the
   * queue; when `is_same` says its ends are apart, unite them, add its
   * weight and append the edge (looking it up with `operator[]`).
   */
  method Pop(dsu: UnionFind.DisjointSetUnion, ghost q0: seq<Candidate>, n: nat, ghost m0: map<(nat, nat), int>,
             pq0: seq<Candidate>, ghost comp0: seq<nat>, ghost acc0: seq<Candidate>, total0: int,
             v0: seq<FullEdge>, edges0: map<(nat, nat), int>)
    returns (pq: seq<Candidate>, ghost comp: seq<nat>, ghost acc: seq<Candidate>, total: int,
             v: seq<FullEdge>, edges: map<(nat, nat), int>)
    requires dsu.Valid() && dsu.n == n && |comp0| == n && Corresponds(dsu.RootOf(), comp0, n)
    requires Drained(q0, n, m0, pq0, comp0, acc0, total0, v0, edges0) && |pq0| > 0
    modifies dsu, dsu.parent, dsu.size
    ensures dsu.parent == old(dsu.parent) && dsu.size == old(dsu.size)
    ensures dsu.Valid() && dsu.n == n && |comp| == n && Corresponds(dsu.RootOf(), comp, n)
    ensures Drained(q0, n, m0, pq, comp, acc, total, v, edges) && |pq| < |pq0|
  {
    var c := pq0[0];
    assert c in pq0;
    pq := pq0[1..];
    var accepted;
    accepted, comp := Consider(dsu, c, n, comp0);
    acc, total, v, edges := Tally(q0, n, m0, pq0, comp0, acc0, total0, v0, edges0, accepted, comp);
  }

  /**
   * The accounting of one pass: an accepted entry adds its weight to the
   * total and its edge, looked up with `operator[]`, to the result.
   */
  method Tally(ghost q0: seq<Candidate>, n: nat, ghost m0: map<(nat, nat), int>, pq0: seq<Candidate>,
               ghost comp0: seq<nat>, ghost acc0: seq<Candidate>, total0: int, v0: seq<FullEdge>,
               edges0: map<(nat, nat), int>, accepted: bool, ghost comp: seq<nat>)
    returns (ghost acc: seq<Candidate>, total: int, v: seq<FullEdge>, edges: map<(nat, nat), int>)
    requires Drained(q0, n, m0, pq0, comp0, acc0, total0, v0, edges0) && |pq0| > 0
    requires accepted <==> comp0[pq0[0].x] != comp0[pq0[0].i]
    requires comp == if accepted then UnionFind.Relabel(comp0, comp0[pq0[0].i], comp0[pq0[0].x]) else comp0
    ensures Drained(q0, n, m0, pq0[1..], comp, acc, total, v, edges)
  {
    var c := pq0[0];
    if accepted {
      var key := (c.x, c.i);
      var payload := if key in edges0 then edges0[key] else 0;
      DrainAccept(q0, n, m0, pq0, comp0, acc0, total0, v0, edges0, comp);
      total := total0 + c.weight;
      v := v0 + [FullEdge(c.x, c.i, payload)];
      edges := if key in edges0 then edges0 else edges0[key := 0];
      acc := acc0 + [c];
    } else {
      DrainReject(q0, n, m0, pq0, comp0, acc0, total0, v0, edges0);
      total, v, edges, acc := total0, v0, edges0, acc0;
    }
  }

  /** Once the queue is empty, the accepted entries are those of `Accept` on the whole queue. */
  lemma DrainEnd(q0: seq<Candidate>, n: nat, m0: map<(nat, nat), int>, comp: seq<nat>,
                 acc: seq<Candidate>, total: int, v: seq<FullEdge>, m: map<(nat, nat), int>)
    requires Drained(q0, n, m0, [], comp, acc, total, v, m)
    ensures acc == Accept(q0, Singletons(n))
    ensures total == SumWeights(acc) && v == Chosen(acc, m0) && Looked(m0, acc, m)
  {
    assert Accept([], comp) == [];
  }

  /** The bookkeeping of the loop that empties the queue. */
  ghost predicate Drained(q0: seq<Candidate>, n: nat, m0: map<(nat, nat), int>, pq: seq<Candidate>,
                          comp: seq<nat>, acc: seq<Candidate>, total: int, v: seq<FullEdge>,
                          m: map<(nat, nat), int>)
  {
    |comp| == n && InRange(q0, n) && InRange(pq, n) &&
    Accept(q0, Singletons(n)) == acc + Accept(pq, comp) &&
    total == SumWeights(acc) && v == Chosen(acc, m0) && Looked(m0, acc, m)
  }

  lemma DrainStart(q0: seq<Candidate>, n: nat, m0: map<(nat, nat), int>)
    requires InRange(q0, n)
    ensures Drained(q0, n, m0, q0, Singletons(n), [], 0, [], m0)
  {
    assert Keys([]) == {};
    assert Chosen([], m0) == [];
  }

  lemma DrainAccept(q0: seq<Candidate>, n: nat, m0: map<(nat, nat), int>, pq: seq<Candidate>,
                    comp: seq<nat>, acc: seq<Candidate>, total: int, v: seq<FullEdge>,
                    m: map<(nat, nat), int>, comp': seq<nat>)
    requires Drained(q0, n, m0, pq, comp, acc, total, v, m) && |pq| > 0
    requires comp[pq[0].x] != comp[pq[0].i]
    requires comp' == UnionFind.Relabel(comp, comp[pq[0].i], comp[pq[0].x])
    ensures var c, key := pq[0], (pq[0].x, pq[0].i);
      Drained(q0, n, m0, pq[1..], comp', acc + [c], total + c.weight,
              v + [FullEdge(c.x, c.i, if key in m then m[key] else 0)],
              if key in m then m else m[key := 0])
  {
    var c := pq[0];
    assert InRange(pq[1..], n);
    assert Accept(pq, comp) == [c] + Accept(pq[1..], comp');
    assert acc + Accept(pq, comp) == (acc + [c]) + Accept(pq[1..], comp');
    LookedStep(m0, acc, m, c);
    Appended(acc, c, m0);
  }

  lemma DrainReject(q0: seq<Candidate>, n: nat, m0: map<(nat, nat), int>, pq: seq<Candidate>,
                    comp: seq<nat>, acc: seq<Candidate>, total: int, v: seq<FullEdge>,
                    m: map<(nat, nat), int>)
    requires Drained(q0, n, m0, pq, comp, acc, total, v, m) && |pq| > 0
    requires comp[pq[0].x] == comp[pq[0].i]
    ensures Drained(q0, n, m0, pq[1..], comp, acc, total, v, m)
  {
    assert InRange(pq[1..], n);
  }

  /** Looking up the key of one more accepted edge with `operator[]`. */
  lemma LookedStep(m0: map<(nat, nat), int>, acc: seq<Candidate>, m: map<(nat, nat), int>, c: Candidate)
    requires Looked(m0, acc, m)
    ensures Get(m0, (c.x, c.i)) == if (c.x, c.i) in m then m[(c.x, c.i)] else 0
    ensures Looked(m0, acc + [c], if (c.x, c.i) in m then m else m[(c.x, c.i) := 0])
  {
    Appended(acc, c, m0);
  }

  lemma Appended(acc: seq<Candidate>, c: Candidate, m: map<(nat, nat), int>)
    ensures SumWeights(acc + [c]) == SumWeights(acc) + c.weight
    ensures Chosen(acc + [c], m) == Chosen(acc, m) + [FullEdge(c.x, c.i, Get(m, (c.x, c.i)))]
    ensures Keys(acc + [c]) == Keys(acc) + {(c.x, c.i)}
  {
    assert (acc + [c])[..|acc|] == acc;
  }
}
