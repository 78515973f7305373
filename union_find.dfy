/**
 * The `disjoint_set_union` class of graph_library.h: a parent array with
 * path compression in `find_parent` and union by size in `do_union`.
 *
 * Termination of `find_parent` rests on a ghost rank per slot that grows
 * strictly from a node to its parent; the set of slots ranked above a node
 * shrinks at every step towards the root.
 */
module UnionFind {

  /** Parent pointers stay in range and always lead to a higher rank. */
  ghost predicate Ranked(p: seq<int>, rank: seq<nat>)
  {
    |rank| == |p| &&
    (forall i :: 0 <= i < |p| ==> 0 <= p[i] < |p|) &&
    (forall i :: 0 <= i < |p| && p[i] != i ==> rank[i] < rank[p[i]])
  }

  ghost function Above(rank: seq<nat>, x: nat): set<nat>
    requires x < |rank|
  {
    set i: nat | i < |rank| && rank[x] < rank[i]
  }

  lemma AboveShrinks(p: seq<int>, rank: seq<nat>, x: nat)
    requires Ranked(p, rank) && x < |p| && p[x] != x
    ensures Above(rank, p[x]) < Above(rank, x)
  {
    assert p[x] in Above(rank, x) - Above(rank, p[x]);
  }

  /** The representative reached by following parent pointers from `x`. */
  ghost function Root(p: seq<int>, rank: seq<nat>, x: nat): (r: nat)
    requires Ranked(p, rank) && x < |p|
    ensures r < |p| && p[r] == r
    ensures r == x || rank[x] < rank[r]
    ensures p[x] == x ==> r == x
    decreases Above(rank, x)
  {
    if p[x] == x then x
    else
      AboveShrinks(p, rank, x);
      Root(p, rank, p[x])
  }

  /** The root of every slot, in slot order. */
  ghost function Roots(p: seq<int>, rank: seq<nat>): (rs: seq<nat>)
    requires Ranked(p, rank)
    ensures |rs| == |p|
    ensures forall i :: 0 <= i < |p| ==> rs[i] == Root(p, rank, i)
  {
    seq(|p|, i requires 0 <= i < |p| => Root(p, rank, i))
  }

  /** The slots below `n` whose root is `r`. */
  ghost function Members(rs: seq<nat>, n: nat, r: nat): set<nat>
  {
    set i: nat | i < n && i < |rs| && rs[i] == r
  }

  /** Every root's recorded size counts the members below `n` it represents. */
  ghost predicate Sized(p: seq<int>, rank: seq<nat>, size: seq<int>, n: nat)
  {
    |p| == n + 1 && |size| == n + 1 && Ranked(p, rank) && (0 < n ==> p[n] != n) &&
    forall r :: 0 <= r < |p| && p[r] == r ==> size[r] == |Members(Roots(p, rank), n, r)|
  }

  /** Roots after the root `l` has been put under `w`. */
  function Relabel(rs: seq<nat>, l: nat, w: nat): (ts: seq<nat>)
    ensures |ts| == |rs|
    ensures forall i :: 0 <= i < |rs| ==> ts[i] == if rs[i] == l then w else rs[i]
  {
    seq(|rs|, i requires 0 <= i < |rs| => if rs[i] == l then w else rs[i])
  }

  /** Pointing `x` straight at its root keeps every slot's root. */
  lemma {:induction false} CompressKeepsRoots(p: seq<int>, rank: seq<nat>, x: nat, i: nat)
    requires Ranked(p, rank) && x < |p| && i < |p|
    ensures Ranked(p[x := Root(p, rank, x)], rank)
    ensures Root(p[x := Root(p, rank, x)], rank, i) == Root(p, rank, i)
    decreases Above(rank, i)
  {
    var r := Root(p, rank, x);
    var q := p[x := r];
    assert Ranked(q, rank);
    if i != x && p[i] != i {
      AboveShrinks(p, rank, i);
      CompressKeepsRoots(p, rank, x, p[i]);
    }
  }

  /** The parent array after `parent[l] = w` for two distinct roots. */
  function Linked(p: seq<int>, l: nat, w: nat): (q: seq<int>)
    requires l < |p| && w < |p|
    ensures |q| == |p| && q[l] == w
    ensures forall i :: 0 <= i < |p| && i != l ==> q[i] == p[i]
  {
    p[l := w]
  }

  ghost function LinkedRank(rank: seq<nat>, l: nat, w: nat): (rk: seq<nat>)
    requires l < |rank| && w < |rank|
    ensures |rk| == |rank| && rank[l] < rk[w]
    ensures forall i :: 0 <= i < |rank| && i != w ==> rk[i] == rank[i]
  {
    rank[w := if rank[w] > rank[l] then rank[w] else rank[l] + 1]
  }

  lemma LinkRanked(p: seq<int>, rank: seq<nat>, l: nat, w: nat)
    requires Ranked(p, rank) && l < |p| && w < |p| && l != w && p[l] == l && p[w] == w
    ensures Ranked(Linked(p, l, w), LinkedRank(rank, l, w))
  {
  }

  /** Linking root `l` under root `w` sends exactly the members of `l` to `w`. */
  lemma {:induction false} LinkRoots(p: seq<int>, rank: seq<nat>, l: nat, w: nat, i: nat)
    requires Ranked(p, rank) && l < |p| && w < |p| && l != w && p[l] == l && p[w] == w && i < |p|
    ensures Ranked(Linked(p, l, w), LinkedRank(rank, l, w))
    ensures Root(Linked(p, l, w), LinkedRank(rank, l, w), i) ==
            if Root(p, rank, i) == l then w else Root(p, rank, i)
    decreases Above(rank, i)
  {
    LinkRanked(p, rank, l, w);
    if i != l && p[i] != i {
      AboveShrinks(p, rank, i);
      LinkRoots(p, rank, l, w, p[i]);
    }
  }

  /** Path compression at `x` keeps the sizes right and every root. */
  lemma CompressSized(p: seq<int>, rank: seq<nat>, size: seq<int>, n: nat, x: nat)
    requires Sized(p, rank, size, n) && x < |p|
    ensures Sized(p[x := Root(p, rank, x)], rank, size, n)
    ensures Roots(p[x := Root(p, rank, x)], rank) == Roots(p, rank)
  {
    var q := p[x := Root(p, rank, x)];
    CompressKeepsRoots(p, rank, x, x);
    forall i | 0 <= i < |p|
      ensures Root(q, rank, i) == Root(p, rank, i)
    {
      CompressKeepsRoots(p, rank, x, i);
    }
    assert Roots(q, rank) == Roots(p, rank);
  }

  /** Relabelling root `l` as `w` merges their member sets and leaves the others. */
  lemma RelabelMembers(rs: seq<nat>, n: nat, l: nat, w: nat)
    requires l != w
    ensures |Members(Relabel(rs, l, w), n, w)| == |Members(rs, n, w)| + |Members(rs, n, l)|
    ensures forall r :: r != w && r != l ==> Members(Relabel(rs, l, w), n, r) == Members(rs, n, r)
  {
    var ts := Relabel(rs, l, w);
    assert Members(ts, n, w) == Members(rs, n, w) + Members(rs, n, l);
    assert Members(rs, n, w) * Members(rs, n, l) == {};
    forall r | r != w && r != l
      ensures Members(ts, n, r) == Members(rs, n, r)
    {
    }
  }

  lemma LinkRootsAll(p: seq<int>, rank: seq<nat>, l: nat, w: nat)
    requires Ranked(p, rank) && l < |p| && w < |p| && l != w && p[l] == l && p[w] == w
    ensures Ranked(Linked(p, l, w), LinkedRank(rank, l, w))
    ensures Roots(Linked(p, l, w), LinkedRank(rank, l, w)) == Relabel(Roots(p, rank), l, w)
  {
    var q, rk := Linked(p, l, w), LinkedRank(rank, l, w);
    LinkRanked(p, rank, l, w);
    forall i | 0 <= i < |p|
      ensures Root(q, rk, i) == if Root(p, rank, i) == l then w else Root(p, rank, i)
    {
      LinkRoots(p, rank, l, w, i);
    }
  }

  /** Linking two distinct roots merges their member sets and adds the sizes. */
  lemma LinkSized(p: seq<int>, rank: seq<nat>, size: seq<int>, n: nat, l: nat, w: nat)
    requires Sized(p, rank, size, n) && l < |p| && w < |p| && l != w && p[l] == l && p[w] == w
    ensures Sized(Linked(p, l, w), LinkedRank(rank, l, w), size[w := size[w] + size[l]], n)
    ensures Roots(Linked(p, l, w), LinkedRank(rank, l, w)) == Relabel(Roots(p, rank), l, w)
  {
    LinkRootsAll(p, rank, l, w);
    RelabelMembers(Roots(p, rank), n, l, w);
  }

  /** Roots `rs` and sizes `s` after root `l` went under root `w`. */
  ghost predicate Merged(rs0: seq<nat>, s0: seq<int>, l: nat, w: nat, rs: seq<nat>, s: seq<int>)
    requires l < |s0| && w < |s0|
  {
    s == s0[w := s0[w] + s0[l]] && rs == Relabel(rs0, l, w)
  }

  /**
   * The roots `rs` and sizes `s` after `do_union(x, y)` on roots `rs0` and
   * sizes `s0`: unchanged when `x` and `y` share a root, else the root of
   * smaller size goes under the other, the root of `y` losing a tie.
   */
  ghost predicate Unioned(rs0: seq<nat>, s0: seq<int>, x: nat, y: nat, rs: seq<nat>, s: seq<int>)
    requires x < |rs0| && y < |rs0| && rs0[x] < |s0| && rs0[y] < |s0|
  {
    if rs0[x] == rs0[y] then rs == rs0 && s == s0
    else if s0[rs0[x]] < s0[rs0[y]] then Merged(rs0, s0, rs0[x], rs0[y], rs, s)
    else Merged(rs0, s0, rs0[y], rs0[x], rs, s)
  }

  class DisjointSetUnion {
    var parent: array<int>
    var size: array<int>
    ghost var rank: seq<nat>
    /** The `n` given to the constructor; the arrays hold `n + 1` slots. */
    ghost const n: nat

    /**
     * The arrays have `n + 1` slots with ranked parent pointers, slot `n` is
     * never a root once `n > 0`, and each root's size counts its members below `n`.
     */
    ghost predicate Valid()
      reads this, parent, size
    {
      parent != size && parent.Length == n + 1 && size.Length == n + 1 &&
      Sized(parent[..], rank, size[..], n)
    }

    /** The root of every slot: the partition the structure stands for. */
    ghost function RootOf(): (rs: seq<nat>)
      reads this, parent, size
      requires Valid()
      ensures |rs| == parent.Length
      ensures forall i :: 0 <= i < |rs| ==> rs[i] < parent.Length && parent[rs[i]] == rs[i]
    {
      Roots(parent[..], rank)
    }

    constructor (count: int)
      requires 0 <= count
      ensures Valid() && n == count && fresh(parent) && fresh(size)
      ensures parent[..] == seq(count + 1, i => if i < count then i else 0)
      ensures size[..] == seq(count + 1, i => if i < count then 1 else 0)
      ensures forall i :: 0 <= i < count ==> RootOf()[i] == i
    {
      var p := new int[count + 1](_ => 0);
      var s := new int[count + 1](_ => 0);
      for i := 0 to count
        invariant forall j :: 0 <= j < i ==> p[j] == j && s[j] == 1
        invariant forall j :: i <= j <= count ==> p[j] == 0 && s[j] == 0
      {
        p[i] := i;
        s[i] := 1;
      }
      n := count;
      parent := p;
      size := s;
      rank := seq(count + 1, i => if i < count then 1 else 0);
      new;
      assert parent[..] == seq(count + 1, i => if i < count then i else 0);
      assert Ranked(parent[..], rank);
      var rs := Roots(parent[..], rank);
      forall r | 0 <= r < parent.Length && parent[r] == r
        ensures size[r] == |Members(rs, n, r)|
      {
        if r < count {
          assert Members(rs, n, r) == {r};
        } else {
          assert Members(rs, n, r) == {};
        }
      }
    }

    /** `find_parent`: returns the root of `x`, compressing the path to it. */
    method FindParent(x: int) returns (r: int)
      requires Valid() && 0 <= x < parent.Length
      modifies parent
      ensures Valid() && RootOf() == old(RootOf())
      ensures r == old(RootOf()[x])
      decreases Above(rank, x)
    {
      if parent[x] == x {
        return x;
      }
      ghost var p0 := parent[..];
      assert Root(p0, rank, x) == Root(p0, rank, p0[x]);
      AboveShrinks(p0, rank, x);
      r := FindParent(parent[x]);
      ghost var p := parent[..];
      assert r == Root(p, rank, x);
      parent[x] := r;
      assert parent[..] == p[x := Root(p, rank, x)];
      CompressSized(p, rank, size[..], n, x);
    }

    /** `is_same`: whether `x` and `y` have the same root. */
    method IsSame(x: int, y: int) returns (same: bool)
      requires Valid() && 0 <= x < parent.Length && 0 <= y < parent.Length
      modifies parent
      ensures Valid() && RootOf() == old(RootOf())
      ensures same <==> old(RootOf()[x] == RootOf()[y])
    {
      var px := FindParent(x);
      var py := FindParent(y);
      same := px == py;
    }

    /**
     * `do_union`: nothing changes when the roots coincide; otherwise the
     * root with the smaller size goes under the other (on a tie the root
     * of `y` goes under the root of `x`) and the winner's size grows by
     * the loser's.
     */
    method DoUnion(x: int, y: int)
      requires Valid() && 0 <= x < parent.Length && 0 <= y < parent.Length
      modifies this, parent, size
      ensures Valid() && parent == old(parent) && size == old(size)
      ensures Unioned(old(RootOf()), old(size[..]), x, y, RootOf(), size[..])
      decreases if size[RootOf()[x]] < size[RootOf()[y]] then 1 else 0
    {
      ghost var rs0, s0 := RootOf(), size[..];
      var px := FindParent(x);
      var py := FindParent(y);
      assert RootOf() == rs0 && size[..] == s0;
      if px == py {
        return;
      }
      if size[px] < size[py] {
        DoUnion(y, x);
        assert Unioned(rs0, s0, y, x, RootOf(), size[..]);
        return;
      }
      Link(py, px);
    }

    /** The last two assignments of `do_union`: root `l` goes under root `w`. */
    method Link(l: int, w: int)
      requires Valid() && 0 <= l < parent.Length && 0 <= w < parent.Length && l != w
      requires parent[l] == l && parent[w] == w
      modifies this, parent, size
      ensures Valid() && parent == old(parent) && size == old(size)
      ensures Merged(old(RootOf()), old(size[..]), l, w, RootOf(), size[..])
    {
      ghost var p := parent[..];
      ghost var s := size[..];
      LinkSized(p, rank, s, n, l, w);
      size[w] := size[w] + size[l];
      parent[l] := w;
      rank := LinkedRank(rank, l, w);
      assert parent[..] == Linked(p, l, w);
      assert size[..] == s[w := s[w] + s[l]];
    }
  }
}
