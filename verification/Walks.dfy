/**
 Directed walks in an adjacency-list graph: how many there are of a given length,
 when a length is the shortest one, and how a walk splits at an inner node.
 */
module Walks {
  import opened Sums

  /** Entry `u` lists the nodes that `u` points to. */
  type Adjacency = seq<seq<nat>>

  predicate Edge(g: Adjacency, u: nat, v: nat) {
    u < |g| && v in g[u]
  }

  ghost predicate Sorted(s: seq<nat>) {
    forall i, j | 0 <= i < j < |s| :: s[i] < s[j]
  }

  ghost predicate AllSorted(g: Adjacency) {
    forall u | 0 <= u < |g| :: Sorted(g[u])
  }

  /** `r` holds exactly the edges of `g`, turned round; so every edge stays in range. */
  ghost predicate Transposed(g: Adjacency, r: Adjacency) {
    |g| == |r| && forall u: nat, v: nat :: Edge(g, u, v) <==> Edge(r, v, u)
  }

  /** What the breadth-first searches rely on. */
  ghost predicate WellFormed(g: Adjacency, r: Adjacency) {
    Transposed(g, r) && AllSorted(g) && AllSorted(r)
  }

  lemma TransposedSymmetric(g: Adjacency, r: Adjacency)
    requires Transposed(g, r)
    ensures Transposed(r, g)
  {
  }

  ghost predicate IsWalk(g: Adjacency, p: seq<nat>) {
    |p| > 0 && forall i {:trigger p[i]} | 0 <= i < |p| - 1 :: Edge(g, p[i], p[i + 1])
  }

  ghost predicate WalkFromTo(g: Adjacency, p: seq<nat>, u: nat, t: nat, k: nat) {
    IsWalk(g, p) && |p| == k + 1 && p[0] == u && p[k] == t
  }

  /** The walks that start with the edge to `v`. */
  function Via(g: Adjacency, u: nat, t: nat, k: nat): nat -> nat
    decreases k, 1
  {
    (v: nat) => if Edge(g, u, v) then Count(g, v, t, k) else 0
  }

  /** The number of walks of `k` edges from `u` to `t`. */
  function Count(g: Adjacency, u: nat, t: nat, k: nat): nat
    decreases k, 0
  {
    if k == 0 then if u == t then 1 else 0
    else Sum(|g|, Via(g, u, t, k - 1))
  }

  /** Shortest distance: a walk of `d` edges exists and none is shorter. */
  ghost predicate Depth(g: Adjacency, u: nat, t: nat, d: nat) {
    Count(g, u, t, d) > 0 && forall k: nat | k < d :: Count(g, u, t, k) == 0
  }

  // ---------- Counting is counting ----------

  ghost function Prefixed(u: nat, ps: set<seq<nat>>): set<seq<nat>> {
    set p | p in ps :: [u] + p
  }

  /** The walks of `k + 1` edges whose second node is `v`. */
  ghost function Starting(g: Adjacency, u: nat, v: nat, t: nat, k: nat): set<seq<nat>>
    decreases k, 1
  {
    if Edge(g, u, v) then Prefixed(u, WalkSet(g, v, t, k)) else {}
  }

  /** The walks of `k + 1` edges whose second node is below `m`. */
  ghost function WalksVia(g: Adjacency, u: nat, t: nat, k: nat, m: nat): set<seq<nat>>
    decreases k, m + 1
  {
    if m == 0 then {} else WalksVia(g, u, t, k, m - 1) + Starting(g, u, m - 1, t, k)
  }

  /** The walks themselves; `WalksAreTheWalks` and `CountIsCardinality` justify `Count`. */
  ghost function WalkSet(g: Adjacency, u: nat, t: nat, k: nat): set<seq<nat>>
    decreases k, 0
  {
    if k == 0 then (if u == t then {[u]} else {}) else WalksVia(g, u, t, k - 1, |g|)
  }

  lemma {:induction false} PrefixedSize(u: nat, ps: set<seq<nat>>)
    ensures |Prefixed(u, ps)| == |ps|
  {
    if ps != {} {
      var p :| p in ps;
      PrefixedSize(u, ps - {p});
      assert Prefixed(u, ps) == Prefixed(u, ps - {p}) + {[u] + p};
      assert [u] + p !in Prefixed(u, ps - {p}) by {
        forall q | q in ps - {p} ensures [u] + q != [u] + p {
          assert ([u] + q)[1..] == q && ([u] + p)[1..] == p;
        }
      }
    }
  }

  lemma StartingMember(g: Adjacency, u: nat, v: nat, t: nat, k: nat, p: seq<nat>)
    requires forall q: seq<nat> :: q in WalkSet(g, v, t, k) <==> WalkFromTo(g, q, v, t, k)
    ensures p in Starting(g, u, v, t, k) <==> WalkFromTo(g, p, u, t, k + 1) && p[1] == v
  {
    if WalkFromTo(g, p, u, t, k + 1) && p[1] == v {
      var q := p[1..];
      assert p == [u] + q;
      forall i {:trigger q[i]} | 0 <= i < |q| - 1 ensures Edge(g, q[i], q[i + 1]) {
        assert q[i] == p[i + 1] && q[i + 1] == p[i + 1 + 1];
      }
      assert WalkFromTo(g, q, v, t, k);
      assert Edge(g, p[0], p[0 + 1]);
    }
    if p in Starting(g, u, v, t, k) {
      var q :| q in WalkSet(g, v, t, k) && p == [u] + q;
      forall i {:trigger p[i]} | 0 <= i < |p| - 1 ensures Edge(g, p[i], p[i + 1]) {
        if i > 0 {
          assert q[i - 1] == p[i] && q[i - 1 + 1] == p[i + 1];
        }
      }
    }
  }

  lemma {:induction false} WalksViaMember(g: Adjacency, u: nat, t: nat, k: nat, m: nat, p: seq<nat>)
    requires forall v: nat, q: seq<nat> :: q in WalkSet(g, v, t, k) <==> WalkFromTo(g, q, v, t, k)
    ensures p in WalksVia(g, u, t, k, m) <==> WalkFromTo(g, p, u, t, k + 1) && p[1] < m
  {
    if m > 0 {
      WalksViaMember(g, u, t, k, m - 1, p);
      StartingMember(g, u, m - 1, t, k, p);
    }
  }

  /** `WalkSet` holds exactly the walks of that length between those ends. */
  lemma {:induction false} WalksAreTheWalks(g: Adjacency, r: Adjacency, u: nat, t: nat, k: nat, p: seq<nat>)
    requires Transposed(g, r)
    ensures p in WalkSet(g, u, t, k) <==> WalkFromTo(g, p, u, t, k)
    decreases k
  {
    if k == 0 {
      if WalkFromTo(g, p, u, t, 0) {
        assert p == [u];
      }
    } else {
      var j := k - 1;
      forall v: nat, q: seq<nat> ensures q in WalkSet(g, v, t, j) <==> WalkFromTo(g, q, v, t, j) {
        WalksAreTheWalks(g, r, v, t, j, q);
      }
      WalksViaMember(g, u, t, j, |g|, p);
      if WalkFromTo(g, p, u, t, k) {
        assert Edge(g, p[0], p[0 + 1]);
        assert Edge(r, p[1], p[0]);
      }
    }
  }

  lemma {:induction false} WalksViaSize(g: Adjacency, r: Adjacency, u: nat, t: nat, k: nat, m: nat)
    requires Transposed(g, r)
    requires forall v: nat, q: seq<nat> :: q in WalkSet(g, v, t, k) <==> WalkFromTo(g, q, v, t, k)
    requires forall v: nat :: |WalkSet(g, v, t, k)| == Count(g, v, t, k)
    ensures |WalksVia(g, u, t, k, m)| == Sum(m, Via(g, u, t, k))
  {
    hide WalkSet, Count;
    if m > 0 {
      WalksViaSize(g, r, u, t, k, m - 1);
      PrefixedSize(u, WalkSet(g, m - 1, t, k));
      var before, added := WalksVia(g, u, t, k, m - 1), Starting(g, u, m - 1, t, k);
      assert before !! added by {
        forall p | p in before && p in added ensures false {
          WalksViaMember(g, u, t, k, m - 1, p);
          StartingMember(g, u, m - 1, t, k, p);
        }
      }
      assert |added| == Via(g, u, t, k)(m - 1);
    }
  }

  /** `Count` is the number of distinct walks. */
  lemma {:induction false} CountIsCardinality(g: Adjacency, r: Adjacency, u: nat, t: nat, k: nat)
    requires Transposed(g, r)
    ensures |WalkSet(g, u, t, k)| == Count(g, u, t, k)
    decreases k
  {
    if k > 0 {
      var j := k - 1;
      forall v: nat ensures |WalkSet(g, v, t, j)| == Count(g, v, t, j) {
        CountIsCardinality(g, r, v, t, j);
      }
      forall v: nat, q: seq<nat> ensures q in WalkSet(g, v, t, j) <==> WalkFromTo(g, q, v, t, j) {
        WalksAreTheWalks(g, r, v, t, j, q);
      }
      WalksViaSize(g, r, u, t, j, |g|);
    }
  }

  /** Some walk exists exactly when the count is positive. */
  lemma CountPositive(g: Adjacency, r: Adjacency, u: nat, t: nat, k: nat)
    requires Transposed(g, r)
    ensures Count(g, u, t, k) > 0 <==> exists p :: WalkFromTo(g, p, u, t, k)
  {
    hide Count, WalkSet;
    CountIsCardinality(g, r, u, t, k);
    if p :| WalkFromTo(g, p, u, t, k) {
      WalksAreTheWalks(g, r, u, t, k, p);
    }
    if Count(g, u, t, k) > 0 {
      assert WalkSet(g, u, t, k) != {};
      var p :| p in WalkSet(g, u, t, k);
      WalksAreTheWalks(g, r, u, t, k, p);
    }
  }

  // ---------- Steps and splits ----------

  /** One more edge in front. */
  lemma CountStep(g: Adjacency, u: nat, v: nat, t: nat, k: nat)
    requires Edge(g, u, v) && v < |g| && Count(g, v, t, k) > 0
    ensures Count(g, u, t, k + 1) > 0
  {
    assert Via(g, u, t, k)(v) > 0;
    SumPositive(|g|, Via(g, u, t, k));
  }

  /** A longer walk has a first edge. */
  lemma FirstEdge(g: Adjacency, u: nat, t: nat, k: nat) returns (v: nat)
    requires k > 0 && Count(g, u, t, k) > 0
    ensures v < |g| && Edge(g, u, v) && Count(g, v, t, k - 1) > 0
  {
    SumPositive(|g|, Via(g, u, t, k - 1));
    v :| v < |g| && Via(g, u, t, k - 1)(v) > 0;
  }

  /** The walks from `s` to `t` of `a + c` edges whose node number `a` is `u`. */
  function Through(g: Adjacency, r: Adjacency, s: nat, t: nat, a: nat, c: nat): nat -> nat {
    (u: nat) => Count(r, u, s, a) * Count(g, u, t, c)
  }

  /** The walks from `s` to `t` of `a + 1 + c` edges whose edge number `a` is `w -> u`. */
  function Crossing(g: Adjacency, r: Adjacency, s: nat, t: nat, a: nat, c: nat): (nat, nat) -> nat {
    (w: nat, u: nat) => if Edge(g, w, u) then Count(r, w, s, a) * Count(g, u, t, c) else 0
  }

  lemma CrossingsBySource(g: Adjacency, r: Adjacency, s: nat, t: nat, a: nat, c: nat)
    ensures Sum(|g|, Rows(|g|, Crossing(g, r, s, t, a, c))) == Sum(|g|, Through(g, r, s, t, a, c + 1))
  {
    var n := |g|;
    var m := Crossing(g, r, s, t, a, c);
    forall w: nat | w < n ensures Rows(n, m)(w) == Through(g, r, s, t, a, c + 1)(w) {
      SumScale(n, Via(g, w, t, c), Row(m, w), Count(r, w, s, a));
    }
    SumEq(n, Rows(n, m), Through(g, r, s, t, a, c + 1));
  }

  /** The same table by columns: the crossings of the reversed graph by rows. */
  lemma CrossingsByTarget(g: Adjacency, r: Adjacency, s: nat, t: nat, a: nat, c: nat)
    requires Transposed(g, r)
    ensures Sum(|g|, Rows(|g|, Flip(Crossing(g, r, s, t, a, c)))) == Sum(|g|, Through(g, r, s, t, a + 1, c))
  {
    var n := |g|;
    var m, mr := Flip(Crossing(g, r, s, t, a, c)), Crossing(r, g, t, s, c, a);
    forall u: nat | u < n ensures Rows(n, m)(u) == Rows(n, mr)(u) {
      forall w: nat | w < n ensures Row(m, u)(w) == Row(mr, u)(w) {
        assert Edge(g, w, u) <==> Edge(r, u, w);
      }
      SumEq(n, Row(m, u), Row(mr, u));
    }
    SumEq(n, Rows(n, m), Rows(n, mr));
    CrossingsBySource(r, g, t, s, c, a);
    SumEq(n, Through(r, g, t, s, c, a + 1), Through(g, r, s, t, a + 1, c));
  }

  /** Moving the split point by one edge does not change the total. */
  lemma MoveSplit(g: Adjacency, r: Adjacency, s: nat, t: nat, a: nat, c: nat)
    requires Transposed(g, r)
    ensures Sum(|g|, Through(g, r, s, t, a + 1, c)) == Sum(|g|, Through(g, r, s, t, a, c + 1))
  {
    SumExchange(|g|, |g|, Crossing(g, r, s, t, a, c));
    CrossingsBySource(g, r, s, t, a, c);
    CrossingsByTarget(g, r, s, t, a, c);
  }

  /** Every walk of `a + c` edges passes exactly one node after `a` edges. */
  lemma {:induction false} SplitCount(g: Adjacency, r: Adjacency, s: nat, t: nat, a: nat, c: nat)
    requires Transposed(g, r) && s < |g|
    ensures Sum(|g|, Through(g, r, s, t, a, c)) == Count(g, s, t, a + c)
    decreases a
  {
    if a == 0 {
      SumSingle(|g|, Through(g, r, s, t, 0, c), s);
    } else {
      MoveSplit(g, r, s, t, a - 1, c);
      SplitCount(g, r, s, t, a - 1, c + 1);
      assert a - 1 + (c + 1) == a + c;
    }
  }

  /** Reading every walk backwards. */
  lemma ReverseCount(g: Adjacency, r: Adjacency, s: nat, t: nat, k: nat)
    requires Transposed(g, r) && s < |g| && t < |g|
    ensures Count(r, t, s, k) == Count(g, s, t, k)
  {
    hide Sum;
    SplitCount(g, r, s, t, k, 0);
    SumSingle(|g|, Through(g, r, s, t, k, 0), t);
  }

  /** Joining a walk from `s` to `u` with one from `u` to `t`. */
  lemma JoinCount(g: Adjacency, r: Adjacency, s: nat, u: nat, t: nat, a: nat, c: nat)
    requires Transposed(g, r) && s < |g| && u < |g|
    requires Count(r, u, s, a) > 0 && Count(g, u, t, c) > 0
    ensures Count(g, s, t, a + c) > 0
  {
    hide Count;
    assert Through(g, r, s, t, a, c)(u) > 0;
    SumPositive(|g|, Through(g, r, s, t, a, c));
    SplitCount(g, r, s, t, a, c);
  }

  /** Splitting a walk after `a` edges. */
  lemma SplitWalk(g: Adjacency, r: Adjacency, s: nat, t: nat, a: nat, c: nat) returns (u: nat)
    requires Transposed(g, r) && s < |g|
    requires Count(g, s, t, a + c) > 0
    ensures u < |g| && Count(r, u, s, a) > 0 && Count(g, u, t, c) > 0
  {
    hide Count;
    SplitCount(g, r, s, t, a, c);
    SumPositive(|g|, Through(g, r, s, t, a, c));
    u :| u < |g| && Through(g, r, s, t, a, c)(u) > 0;
  }

  /** A positive count has a least length. */
  lemma {:induction false} LeastDepth(g: Adjacency, u: nat, t: nat, k: nat) returns (d: nat)
    requires Count(g, u, t, k) > 0
    ensures d <= k && Depth(g, u, t, d)
    decreases k
  {
    hide Count;
    if j: nat :| j < k && Count(g, u, t, j) > 0 {
      d := LeastDepth(g, u, t, j);
    } else {
      d := k;
    }
  }
}
