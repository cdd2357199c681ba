/**
 Which layer of the shortest walks the search reports. The rule "expand the smaller frontier"
 fixes its depth by the sizes of the levels around both ends; the layer is a cut of the
 shortest walks unless it is the target's own level, and then nothing is reported.
 */
module Layers {
  import opened Options
  import opened Walks
  import opened Search
  import opened SearchProof
  import opened SearchTheorems

  // ---------- The depth, from the sizes of the levels ----------

  /** With `a` forward and `b` backward levels done: how many forward levels it takes until they add up to `d`. */
  function SplitDepth(fwd: nat -> nat, bwd: nat -> nat, d: nat, a: nat, b: nat): (k: nat)
    requires a + b <= d
    ensures a <= k <= d - b
    decreases d - (a + b)
  {
    if a + b == d then a
    else if fwd(a) <= bwd(b) then SplitDepth(fwd, bwd, d, a + 1, b)
    else SplitDepth(fwd, bwd, d, a, b + 1)
  }

  lemma {:induction false} SplitSame(fwd: nat -> nat, bwd: nat -> nat, fwd': nat -> nat, bwd': nat -> nat,
                                     d: nat, a: nat, b: nat)
    requires a + b <= d && (forall j :: fwd(j) == fwd'(j)) && forall j :: bwd(j) == bwd'(j)
    ensures SplitDepth(fwd, bwd, d, a, b) == SplitDepth(fwd', bwd', d, a, b)
    decreases d - (a + b)
  {
    if a + b < d {
      if fwd(a) <= bwd(b) {
        SplitSame(fwd, bwd, fwd', bwd', d, a + 1, b);
      } else {
        SplitSame(fwd, bwd, fwd', bwd', d, a, b + 1);
      }
    }
  }

  /** Starting from single nodes, every round goes forward exactly as long as no level grows. */
  lemma {:induction false} SplitAllForward(fwd: nat -> nat, bwd: nat -> nat, d: nat, a: nat)
    requires a <= d && bwd(0) == 1
    ensures SplitDepth(fwd, bwd, d, a, 0) == d <==> forall j | a <= j < d :: fwd(j) <= 1
    decreases d - a
  {
    if a < d && fwd(a) <= 1 {
      SplitAllForward(fwd, bwd, d, a + 1);
    }
  }

  // ---------- The levels of the graph ----------

  /** The nodes at distance exactly `k`, over the edges that `h` holds reversed. */
  ghost function Level(h: Adjacency, x: nat, k: nat): set<nat> {
    set v: nat | v < |h| && Depth(h, v, x, k)
  }

  ghost function LevelSizes(h: Adjacency, x: nat): nat -> nat {
    (k: nat) => |Level(h, x, k)|
  }

  /** The depth at which the search with the smaller frontier reports its layer. */
  ghost function MeetingDepth(g: Adjacency, r: Adjacency, s: nat, t: nat, d: nat): nat {
    SplitDepth(LevelSizes(r, s), LevelSizes(g, t), d, 0, 0)
  }

  lemma {:induction false} DistinctSize(s: seq<nat>, vs: set<nat>)
    requires Distinct(s) && forall v :: v in s <==> v in vs
    ensures |s| == |vs|
  {
    if s != [] {
      var last, rest := s[|s| - 1], s[..|s| - 1];
      assert s == rest + [last];
      DistinctSize(rest, vs - {last});
    }
  }

  lemma StartLevel(h: Adjacency, x: nat)
    requires x < |h|
    ensures Level(h, x, 0) == {x}
  {
    assert Count(h, x, x, 0) == 1;
  }

  /** The frontier of a complete side is the level it has reached. */
  lemma FrontierIsLevel(h: Adjacency, x: nat, side: Side)
    requires SideInv(h, x, side)
    ensures |side.current| == LevelSizes(h, x)(side.dist)
  {
    hide Count;
    var level := Level(h, x, side.dist);
    forall v ensures v in side.current <==> v in level {
      if v in level {
        DepthUnique(h, v, x, side.dist);
      }
    }
    DistinctSize(side.current, level);
  }

  lemma FrontiersAreLevels(g: Adjacency, r: Adjacency, s: nat, t: nat, st: State)
    requires RoundInv(g, r, s, t, st) && st.best.None?
    ensures |st.fwd.current| == LevelSizes(r, s)(st.fwd.dist) && |st.bwd.current| == LevelSizes(g, t)(st.bwd.dist)
  {
    hide LevelSizes, SideInv;
    FrontierIsLevel(r, s, st.fwd);
    FrontierIsLevel(g, t, st.bwd);
  }

  lemma NextDist(g: Adjacency, r: Adjacency, st: State, forward: bool)
    ensures var next := if forward then ExpandForward(g, st) else ExpandBackward(r, st);
            && next.fwd.dist == st.fwd.dist + (if forward then 1 else 0)
            && next.bwd.dist == st.bwd.dist + (if forward then 0 else 1)
  {
  }

  /** As long as nothing has met, the distance to be found is larger than both levels together. */
  lemma {:induction false} Further(g: Adjacency, r: Adjacency, s: nat, t: nat, st: State, maxHops: nat, d: nat)
    requires WellFormed(g, r) && RoundInv(g, r, s, t, st) && st.best.None?
    requires Rounds(g, r, st, maxHops, SmallerFrontier()).best == Some(d)
    ensures st.fwd.dist + st.bwd.dist <= d
    decreases maxHops - (st.fwd.dist + st.bwd.dist)
  {
    hide Count, ExpandForward, ExpandBackward, SideInv, WellFormed, Answer;
    var forward := SmallerFrontier()(st);
    var next := if forward then ExpandForward(g, st) else ExpandBackward(r, st);
    NextDist(g, r, st, forward);
    if forward {
      ForwardKeeps(g, r, s, t, st);
    } else {
      BackwardKeeps(g, r, s, t, st);
    }
    assert Rounds(g, r, next, maxHops, SmallerFrontier()).best == Some(d);
    if next.best.None? {
      Further(g, r, s, t, next, maxHops, d);
    }
  }

  /** The search that expands the smaller frontier meets at the depth the level sizes say. */
  lemma {:induction false} RoundsSplit(g: Adjacency, r: Adjacency, s: nat, t: nat, st: State, maxHops: nat, d: nat)
    requires WellFormed(g, r) && RoundInv(g, r, s, t, st) && st.best.None? && st.fwd.dist + st.bwd.dist <= d
    requires Rounds(g, r, st, maxHops, SmallerFrontier()).best == Some(d)
    ensures Rounds(g, r, st, maxHops, SmallerFrontier()).fwd.dist ==
            SplitDepth(LevelSizes(r, s), LevelSizes(g, t), d, st.fwd.dist, st.bwd.dist)
    decreases maxHops - (st.fwd.dist + st.bwd.dist)
  {
    hide Count, ExpandForward, ExpandBackward, LevelSizes, SideInv, WellFormed, Answer;
    var forward := SmallerFrontier()(st);
    var next := if forward then ExpandForward(g, st) else ExpandBackward(r, st);
    NextDist(g, r, st, forward);
    FrontiersAreLevels(g, r, s, t, st);
    if forward {
      ForwardKeeps(g, r, s, t, st);
    } else {
      BackwardKeeps(g, r, s, t, st);
    }
    assert Rounds(g, r, next, maxHops, SmallerFrontier()).best == Some(d);
    if next.best.None? {
      Further(g, r, s, t, next, maxHops, d);
      RoundsSplit(g, r, s, t, next, maxHops, d);
    }
  }

  // ---------- What the reported layer is good for ----------

  /** Every level before the target's holds a single node. */
  ghost predicate SingleFile(r: Adjacency, s: nat, d: nat) {
    forall j: nat | j < d :: |Level(r, s, j)| == 1
  }

  /**
   The layer is not the source's. It is empty exactly if the shortest walks start in single
   file up to the target; otherwise it cuts each of them once.
   */
  ghost predicate Cuts(g: Adjacency, r: Adjacency, s: nat, t: nat, d: nat, k: nat, bridges: seq<nat>) {
    && 0 < k <= d && BridgeLayer(g, r, s, t, d, k, bridges)
    && (bridges == [] <==> SingleFile(r, s, d))
    && (bridges != [] ==>
          k < d && forall p, j: nat | WalkFromTo(g, p, s, t, d) && j <= d :: p[j] in bridges <==> j == k)
  }

  /** Each node of a shortest walk lies on its level. */
  lemma WalkOnLevels(g: Adjacency, r: Adjacency, s: nat, t: nat, d: nat, p: seq<nat>, j: nat)
    requires WellFormed(g, r) && s < |g| && t < |g| && Depth(g, s, t, d)
    requires WalkFromTo(g, p, s, t, d) && j <= d
    ensures p[j] in Level(r, s, j)
  {
    hide Count;
    WalkParts(g, r, p, s, t, d, j);
    forall m: nat | m < j ensures Count(r, p[j], s, m) == 0 {
      if Count(r, p[j], s, m) > 0 {
        JoinCount(g, r, s, p[j], t, m, d - j);
        assert false;
      }
    }
  }

  lemma LevelsInhabited(g: Adjacency, r: Adjacency, s: nat, t: nat, d: nat)
    requires WellFormed(g, r) && s < |g| && t < |g| && Depth(g, s, t, d)
    ensures SingleFile(r, s, d) <==> forall j: nat | j < d :: LevelSizes(r, s)(j) <= 1
  {
    hide Count, Level;
    CountPositive(g, r, s, t, d);
    var p :| WalkFromTo(g, p, s, t, d);
    forall j: nat | j < d ensures |Level(r, s, j)| >= 1 {
      WalkOnLevels(g, r, s, t, d, p, j);
    }
    assert forall j: nat :: LevelSizes(r, s)(j) == |Level(r, s, j)|;
  }

  lemma DistanceApart(g: Adjacency, s: nat, t: nat, d: nat)
    requires Depth(g, s, t, d) && s != t
    ensures d > 0
  {
  }

  lemma NotOnLast(g: Adjacency, r: Adjacency, s: nat, t: nat, d: nat, bridges: seq<nat>, v: nat)
    requires BridgeLayer(g, r, s, t, d, d, bridges)
    ensures v !in bridges
  {
    assert OnLayer(g, r, s, t, d, d, v) ==> Count(g, v, t, 0) > 0;
  }

  /** At the target's depth the layer is the target alone, so there are no bridges. */
  lemma LastLayer(g: Adjacency, r: Adjacency, s: nat, t: nat, d: nat, bridges: seq<nat>)
    requires BridgeLayer(g, r, s, t, d, d, bridges)
    ensures bridges == []
  {
    hide BridgeLayer;
    if bridges != [] {
      assert bridges[0] in bridges;
      NotOnLast(g, r, s, t, d, bridges, bridges[0]);
      assert false;
    }
  }

  /** The layer at the meeting depth is a cut, or the walks are in single file. */
  lemma MeetingLayerCuts(g: Adjacency, r: Adjacency, s: nat, t: nat, d: nat, bridges: seq<nat>)
    requires WellFormed(g, r) && s < |g| && t < |g| && s != t && Depth(g, s, t, d)
    requires BridgeLayer(g, r, s, t, d, MeetingDepth(g, r, s, t, d), bridges)
    ensures Cuts(g, r, s, t, d, MeetingDepth(g, r, s, t, d), bridges)
  {
    hide Count, Level, OnLayer;
    var k := MeetingDepth(g, r, s, t, d);
    var fwd, bwd := LevelSizes(r, s), LevelSizes(g, t);
    StartLevel(r, s);
    StartLevel(g, t);
    assert fwd(0) == 1 && bwd(0) == 1;
    DistanceApart(g, s, t, d);
    SplitAllForward(fwd, bwd, d, 0);
    LevelsInhabited(g, r, s, t, d);
    if k < d {
      CountPositive(g, r, s, t, d);
      var p :| WalkFromTo(g, p, s, t, d);
      OneBridgePerWalk(g, r, s, t, d, k, bridges, p, k);
      forall p, j: nat | WalkFromTo(g, p, s, t, d) && j <= d ensures p[j] in bridges <==> j == k {
        OneBridgePerWalk(g, r, s, t, d, k, bridges, p, j);
      }
    } else {
      LastLayer(g, r, s, t, d, bridges);
    }
  }

  /** The service's search: exact distance and count, and bridges that cut every shortest walk unless in single file. */
  lemma ServiceCorrect(g: Adjacency, r: Adjacency, s: nat, t: nat, maxHops: nat)
    requires WellFormed(g, r) && s < |g| && t < |g| && s != t
    ensures var o := Bidirectional(g, r, s, t, maxHops, SmallerFrontier());
            o.hops.Some? ==>
              && Correct(g, r, s, t, maxHops, o, MeetingDepth(g, r, s, t, o.hops.value))
              && Cuts(g, r, s, t, o.hops.value, MeetingDepth(g, r, s, t, o.hops.value), o.bridgeIds)
  {
    hide Count, WalkSet, Rounds, Bridges, PathTotal, RoundInv, Cuts, BridgeLayer;
    BidirectionalCorrect(g, r, s, t, maxHops, SmallerFrontier());
    var o := Bidirectional(g, r, s, t, maxHops, SmallerFrontier());
    if o.hops.Some? {
      var d := o.hops.value;
      InitialInv(g, r, s, t);
      RoundsSplit(g, r, s, t, Initial(s, t), maxHops, d);
      assert o.hops == Some(d) && Depth(g, s, t, d);
      MeetingLayerCuts(g, r, s, t, d, o.bridgeIds);
    }
  }
}
