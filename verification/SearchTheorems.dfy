/**
 The main results about the bidirectional search: exact distance, exact path count up
 to saturation, one whole layer of bridges, and independence of the expansion order.
 */
module SearchTheorems {
  import opened Options
  import opened Sums
  import opened Walks
  import opened Search
  import opened SearchProof

  /** The met nodes are exactly the nodes after `k` edges of shortest walks. */
  ghost predicate LayerIs(g: Adjacency, r: Adjacency, s: nat, t: nat, d: nat, k: nat, meetings: seq<Meeting>) {
    k <= d && forall v: nat :: (exists m :: m in meetings && m.node == v) <==> OnLayer(g, r, s, t, d, k, v)
  }

  /** The true answer has been found: shortest length, saturated count, and the whole layer at depth `k`. */
  ghost predicate Answer(g: Adjacency, r: Adjacency, s: nat, t: nat, d: nat, k: nat, meetings: seq<Meeting>) {
    && Depth(g, s, t, d)
    && PathTotal(meetings) == Sat(Count(g, s, t, d))
    && LayerIs(g, r, s, t, d, k, meetings)
  }

  /** What holds before every round, whatever side was expanded in the earlier ones. */
  ghost predicate RoundInv(g: Adjacency, r: Adjacency, s: nat, t: nat, st: State) {
    if st.best.None? then
      && SideInv(r, s, st.fwd) && SideInv(g, t, st.bwd)
      && st.fwd.visited.Keys !! st.bwd.visited.Keys
      && st.meetings == []
    else
      && st.best.value == st.fwd.dist + st.bwd.dist
      && Answer(g, r, s, t, st.best.value, st.fwd.dist, st.meetings)
  }

  lemma ForwardSides(g: Adjacency, r: Adjacency, s: nat, t: nat, st: State, after: State)
    requires WellFormed(g, r) && RoundInv(g, r, s, t, st) && st.best.None? && after == ExpandForward(g, st)
    ensures SideInv(r, s, after.fwd) && SideInv(g, t, after.bwd)
    ensures after.best.None? ==> after.fwd.visited.Keys !! after.bwd.visited.Keys && after.meetings == []
    ensures after.best.Some? ==>
               && after.best.value == after.fwd.dist + after.bwd.dist
               && Depth(g, s, t, after.best.value)
               && PathTotal(after.meetings) == Sat(Count(g, s, t, after.best.value))
  {
    hide Count, Arcs, MeetArcs, Fresh, Arrivals, PathTotal;
    ExpandMeets(g, r, s, t, st.fwd, st.bwd, true);
    ExpandKeepsSide(g, r, s, st.fwd);
  }

  /** From the outcome of one expansion to the invariant. */
  lemma AfterRound(g: Adjacency, r: Adjacency, s: nat, t: nat, after: State)
    requires after.best.None? ==>
               && SideInv(r, s, after.fwd) && SideInv(g, t, after.bwd)
               && after.fwd.visited.Keys !! after.bwd.visited.Keys && after.meetings == []
    requires after.best.Some? ==>
               && after.best.value == after.fwd.dist + after.bwd.dist
               && Depth(g, s, t, after.best.value)
               && PathTotal(after.meetings) == Sat(Count(g, s, t, after.best.value))
               && LayerIs(g, r, s, t, after.best.value, after.fwd.dist, after.meetings)
    ensures RoundInv(g, r, s, t, after)
  {
    hide Count, PathTotal;
  }

  lemma ForwardLayer(g: Adjacency, r: Adjacency, s: nat, t: nat, st: State)
    requires WellFormed(g, r) && RoundInv(g, r, s, t, st) && st.best.None?
    ensures LayerIs(g, r, s, t, st.fwd.dist + 1 + st.bwd.dist, st.fwd.dist + 1, ExpandForward(g, st).meetings)
  {
    hide Count, Arcs, MeetArcs, Fresh, Arrivals, PathTotal;
    var arcs, d, k := Arcs(g, st.fwd.current), st.fwd.dist + 1 + st.bwd.dist, st.fwd.dist + 1;
    DisjointApart(g, r, s, t, st.fwd, st.bwd);
    FrontierArcs(g, r, s, t, st.fwd, st.bwd);
    forall v: nat
      ensures (exists m :: m in ExpandForward(g, st).meetings && m.node == v) <==> OnLayer(g, r, s, t, d, k, v)
    {
      MeetArcsNodes(arcs, st.fwd, st.bwd, true, v);
      MeetingLayer(g, r, s, t, st.fwd, st.bwd, v);
    }
  }

  lemma ForwardKeeps(g: Adjacency, r: Adjacency, s: nat, t: nat, st: State)
    requires WellFormed(g, r) && RoundInv(g, r, s, t, st) && st.best.None?
    ensures RoundInv(g, r, s, t, ExpandForward(g, st))
  {
    hide Count, Arcs, MeetArcs, Fresh, Arrivals, PathTotal;
    var after := ExpandForward(g, st);
    ForwardSides(g, r, s, t, st, after);
    ForwardLayer(g, r, s, t, st);
    AfterRound(g, r, s, t, after);
  }

  lemma ReverseDepth(g: Adjacency, r: Adjacency, s: nat, t: nat, d: nat)
    requires Transposed(g, r) && s < |g| && t < |g| && Depth(r, t, s, d)
    ensures Depth(g, s, t, d) && Count(g, s, t, d) == Count(r, t, s, d)
  {
    hide Count;
    ReverseCount(g, r, s, t, d);
    forall k: nat | k < d ensures Count(g, s, t, k) == 0 {
      ReverseCount(g, r, s, t, k);
    }
  }

  lemma BackwardSides(g: Adjacency, r: Adjacency, s: nat, t: nat, st: State, after: State)
    requires WellFormed(g, r) && RoundInv(g, r, s, t, st) && st.best.None? && after == ExpandBackward(r, st)
    ensures SideInv(r, s, after.fwd) && SideInv(g, t, after.bwd)
    ensures after.best.None? ==> after.fwd.visited.Keys !! after.bwd.visited.Keys && after.meetings == []
    ensures after.best.Some? ==>
               && after.best.value == after.fwd.dist + after.bwd.dist
               && Depth(g, s, t, after.best.value)
               && PathTotal(after.meetings) == Sat(Count(g, s, t, after.best.value))
  {
    hide Count, Arcs, MeetArcs, Fresh, Arrivals, PathTotal;
    ExpandMeets(r, g, t, s, st.bwd, st.fwd, false);
    ExpandKeepsSide(r, g, t, st.bwd);
    if after.best.Some? {
      ReverseDepth(g, r, s, t, after.best.value);
    }
  }

  lemma BackwardLayer(g: Adjacency, r: Adjacency, s: nat, t: nat, st: State)
    requires WellFormed(g, r) && RoundInv(g, r, s, t, st) && st.best.None?
    ensures LayerIs(g, r, s, t, st.bwd.dist + 1 + st.fwd.dist, st.fwd.dist, ExpandBackward(r, st).meetings)
  {
    hide Count, Arcs, MeetArcs, Fresh, Arrivals, PathTotal;
    var arcs, d, k := Arcs(r, st.bwd.current), st.bwd.dist + 1 + st.fwd.dist, st.bwd.dist + 1;
    DisjointApart(r, g, t, s, st.bwd, st.fwd);
    FrontierArcs(r, g, t, s, st.bwd, st.fwd);
    forall v: nat
      ensures (exists m :: m in ExpandBackward(r, st).meetings && m.node == v) <==>
              OnLayer(g, r, s, t, d, st.fwd.dist, v)
    {
      MeetArcsNodes(arcs, st.bwd, st.fwd, false, v);
      MeetingLayer(r, g, t, s, st.bwd, st.fwd, v);
      assert OnLayer(r, g, t, s, d, k, v) <==> OnLayer(g, r, s, t, d, st.fwd.dist, v);
    }
  }

  lemma BackwardKeeps(g: Adjacency, r: Adjacency, s: nat, t: nat, st: State)
    requires WellFormed(g, r) && RoundInv(g, r, s, t, st) && st.best.None?
    ensures RoundInv(g, r, s, t, ExpandBackward(r, st))
  {
    hide Count, Arcs, MeetArcs, Fresh, Arrivals, PathTotal;
    var after := ExpandBackward(r, st);
    BackwardSides(g, r, s, t, st, after);
    BackwardLayer(g, r, s, t, st);
    AfterRound(g, r, s, t, after);
  }

  /** Every run of rounds, under every choice of sides, keeps the invariant and ends when it should. */
  lemma {:induction false} RoundsKeep(g: Adjacency, r: Adjacency, s: nat, t: nat, st: State, maxHops: nat,
                                      forward: State -> bool)
    requires WellFormed(g, r) && RoundInv(g, r, s, t, st) && st.fwd.dist + st.bwd.dist <= maxHops
    ensures var after := Rounds(g, r, st, maxHops, forward);
            RoundInv(g, r, s, t, after) && Done(after, maxHops) && after.fwd.dist + after.bwd.dist <= maxHops
    decreases maxHops - (st.fwd.dist + st.bwd.dist)
  {
    hide Count, Arcs, MeetArcs, Fresh, Arrivals, PathTotal;
    if !Done(st, maxHops) {
      if forward(st) {
        ForwardKeeps(g, r, s, t, st);
        RoundsKeep(g, r, s, t, ExpandForward(g, st), maxHops, forward);
      } else {
        BackwardKeeps(g, r, s, t, st);
        RoundsKeep(g, r, s, t, ExpandBackward(r, st), maxHops, forward);
      }
    }
  }

  /** A search that ends without a meeting: no walk within the bound. */
  lemma NoMeeting(g: Adjacency, r: Adjacency, s: nat, t: nat, st: State, maxHops: nat, k: nat)
    requires WellFormed(g, r) && RoundInv(g, r, s, t, st) && st.best.None?
    requires Done(st, maxHops) && k <= maxHops
    ensures Count(g, s, t, k) == 0
  {
    assert Count(r, s, s, 0) == 1 && Count(g, t, t, 0) == 1;
    if Count(g, s, t, k) > 0 {
      if st.fwd.current == [] {
        ReverseCount(g, r, s, t, k);
        Exhausted(r, g, s, st.fwd, t, k);
        assert false;
      } else if st.bwd.current == [] {
        Exhausted(g, r, t, st.bwd, s, k);
        assert false;
      } else {
        DisjointApart(g, r, s, t, st.fwd, st.bwd);
        assert false;
      }
    }
  }

  /** The bridges are the met nodes other than the endpoints, each once. */
  lemma {:induction false} BridgesMember(meetings: seq<Meeting>, s: nat, t: nat, v: nat)
    ensures Distinct(Bridges(meetings, s, t))
    ensures v in Bridges(meetings, s, t) <==> v != s && v != t && exists m :: m in meetings && m.node == v
  {
    if meetings != [] {
      var rest, last := meetings[..|meetings| - 1], meetings[|meetings| - 1];
      assert meetings == rest + [last];
      BridgesMember(rest, s, t, v);
    }
  }

  /** The inner nodes after `k` edges of the shortest walks. */
  ghost predicate BridgeLayer(g: Adjacency, r: Adjacency, s: nat, t: nat, d: nat, k: nat, bridges: seq<nat>) {
    && k <= d && Distinct(bridges)
    && forall v: nat :: v in bridges <==> v != s && v != t && OnLayer(g, r, s, t, d, k, v)
  }

  /** What the search promises about its result, when it ends at forward level `k`. */
  ghost predicate Correct(g: Adjacency, r: Adjacency, s: nat, t: nat, maxHops: nat, o: Outcome, k: nat) {
    && (forall d: nat :: o.hops == Some(d) <==> d <= maxHops && Depth(g, s, t, d))
    && (o.hops.None? ==> o.pathCount == 0 && o.bridgeIds == [])
    && (o.hops.Some? ==>
          && (|WalkSet(g, s, t, o.hops.value)| < 0x1_0000_0000_0000_0000 ==>
                o.pathCount == |WalkSet(g, s, t, o.hops.value)|)
          && (|WalkSet(g, s, t, o.hops.value)| >= 0x1_0000_0000_0000_0000 ==> o.pathCount == 0xFFFF_FFFF_FFFF_FFFF)
          && BridgeLayer(g, r, s, t, o.hops.value, k, o.bridgeIds))
  }

  lemma DepthUnique(g: Adjacency, s: nat, t: nat, d: nat)
    requires Depth(g, s, t, d)
    ensures forall e: nat :: Depth(g, s, t, e) ==> e == d
  {
    hide Count;
  }

  lemma FoundCorrect(g: Adjacency, r: Adjacency, s: nat, t: nat, maxHops: nat, st: State)
    requires Transposed(g, r) && st.best.Some? && st.best.value <= maxHops
    requires Answer(g, r, s, t, st.best.value, st.fwd.dist, st.meetings)
    ensures Correct(g, r, s, t, maxHops, Finish(st, s, t, maxHops), st.fwd.dist)
  {
    hide Count, Arcs, MeetArcs, Fresh, Arrivals, PathTotal, Bridges, WalkSet;
    var d := st.best.value;
    CountIsCardinality(g, r, s, t, d);
    DepthUnique(g, s, t, d);
    var k := st.fwd.dist;
    BridgesMember(st.meetings, s, t, 0);
    forall v: nat
      ensures v in Bridges(st.meetings, s, t) <==> v != s && v != t && OnLayer(g, r, s, t, d, k, v)
    {
      BridgesMember(st.meetings, s, t, v);
    }
    assert BridgeLayer(g, r, s, t, d, k, Bridges(st.meetings, s, t));
  }

  /** Exact distance, exact count up to saturation, and the layer at the final forward level, under every order. */
  lemma BidirectionalCorrect(g: Adjacency, r: Adjacency, s: nat, t: nat, maxHops: nat, forward: State -> bool)
    requires WellFormed(g, r) && s < |g| && t < |g| && s != t
    ensures Correct(g, r, s, t, maxHops, Bidirectional(g, r, s, t, maxHops, forward),
                    ForwardLevels(g, r, s, t, maxHops, forward))
  {
    hide Count, PathTotal, Bridges, WalkSet, Rounds;
    StartInv(r, s);
    StartInv(g, t);
    RoundsKeep(g, r, s, t, Initial(s, t), maxHops, forward);
    var st := Rounds(g, r, Initial(s, t), maxHops, forward);
    if st.best.None? {
      forall k: nat | k <= maxHops ensures Count(g, s, t, k) == 0 {
        NoMeeting(g, r, s, t, st, maxHops, k);
      }
    } else {
      FoundCorrect(g, r, s, t, maxHops, st);
    }
  }

  /** Which side is expanded at each round does not matter for the distance and the count. */
  lemma ScheduleIndependent(g: Adjacency, r: Adjacency, s: nat, t: nat, maxHops: nat,
                            forward: State -> bool, other: State -> bool)
    requires WellFormed(g, r) && s < |g| && t < |g| && s != t
    ensures var a, b := Bidirectional(g, r, s, t, maxHops, forward), Bidirectional(g, r, s, t, maxHops, other);
            a.hops == b.hops && a.pathCount == b.pathCount
  {
    BidirectionalCorrect(g, r, s, t, maxHops, forward);
    BidirectionalCorrect(g, r, s, t, maxHops, other);
    var a, b := Bidirectional(g, r, s, t, maxHops, forward), Bidirectional(g, r, s, t, maxHops, other);
    assert a.hops.Some? ==> b.hops == Some(a.hops.value);
    assert b.hops.Some? ==> a.hops == Some(b.hops.value);
  }

  // ---------- Every state of every exploration ----------

  ghost predicate RoundAt(g: Adjacency, r: Adjacency, maxHops: nat, trace: seq<State>, i: nat)
    requires i + 1 < |trace|
  {
    && !Done(trace[i], maxHops)
    && (trace[i + 1] == ExpandForward(g, trace[i]) || trace[i + 1] == ExpandBackward(r, trace[i]))
  }

  /** A search that expands either side at each round. */
  ghost predicate Exploration(g: Adjacency, r: Adjacency, s: nat, t: nat, maxHops: nat, trace: seq<State>) {
    trace != [] && trace[0] == Initial(s, t) && forall i: nat | i < |trace| - 1 :: RoundAt(g, r, maxHops, trace, i)
  }

  lemma InitialInv(g: Adjacency, r: Adjacency, s: nat, t: nat)
    requires WellFormed(g, r) && s < |g| && t < |g| && s != t
    ensures RoundInv(g, r, s, t, Initial(s, t))
  {
    hide Count;
    StartInv(r, s);
    StartInv(g, t);
  }

  /** In every state the search can be in, meetings lie at the current total distance. */
  lemma {:induction false} ExplorationKeeps(g: Adjacency, r: Adjacency, s: nat, t: nat, maxHops: nat,
                                            trace: seq<State>, i: nat)
    requires WellFormed(g, r) && s < |g| && t < |g| && s != t
    requires Exploration(g, r, s, t, maxHops, trace) && i < |trace|
    ensures RoundInv(g, r, s, t, trace[i])
    ensures trace[i].best.Some? ==> trace[i].best.value == trace[i].fwd.dist + trace[i].bwd.dist
    decreases i
  {
    hide Count, ExpandForward, ExpandBackward, PathTotal, WellFormed;
    if i == 0 {
      InitialInv(g, r, s, t);
    } else {
      var before := trace[i - 1];
      assert RoundAt(g, r, maxHops, trace, i - 1);
      ExplorationKeeps(g, r, s, t, maxHops, trace, i - 1);
      if trace[i] == ExpandForward(g, before) {
        ForwardKeeps(g, r, s, t, before);
      } else {
        BackwardKeeps(g, r, s, t, before);
      }
    }
  }

  /** At one distance, a later arc never discards an earlier meeting. */
  lemma {:induction false} NoMeetingDiscarded(arcs: seq<(nat, nat)>, i: nat, side: Side, other: Side, forward: bool)
    requires i <= |arcs|
    requires forall a | a in arcs && a.1 in other.visited :: other.visited[a.1].dist == other.dist
    ensures MeetArcs((None, []), arcs[..i], side, other, forward).1 <= MeetArcs((None, []), arcs, side, other, forward).1
    decreases |arcs|
  {
    if i == |arcs| {
      assert arcs[..i] == arcs;
    } else {
      var rest := arcs[..|arcs| - 1];
      assert rest[..i] == arcs[..i];
      NoMeetingDiscarded(rest, i, side, other, forward);
      MeetArcsNodes(rest, side, other, forward, 0);
    }
  }

  /** In no state of the search, whichever side it expands next, is a meeting recorded and then discarded. */
  lemma EveryMeetingKept(g: Adjacency, r: Adjacency, s: nat, t: nat, maxHops: nat, trace: seq<State>, i: nat, n: nat)
    requires WellFormed(g, r) && s < |g| && t < |g| && s != t
    requires Exploration(g, r, s, t, maxHops, trace) && i < |trace| && !Done(trace[i], maxHops)
    ensures var st := trace[i];
            && st.best.None?
            && (n <= |Arcs(g, st.fwd.current)| ==>
                  MeetArcs((None, []), Arcs(g, st.fwd.current)[..n], st.fwd, st.bwd, true).1 <= ExpandForward(g, st).meetings)
            && (n <= |Arcs(r, st.bwd.current)| ==>
                  MeetArcs((None, []), Arcs(r, st.bwd.current)[..n], st.bwd, st.fwd, false).1 <= ExpandBackward(r, st).meetings)
  {
    hide Count, Arcs, MeetArcs, Exploration, Fresh, Arrivals, PathTotal;
    ExplorationKeeps(g, r, s, t, maxHops, trace, i);
    var st := trace[i];
    TransposedSymmetric(g, r);
    DisjointApart(g, r, s, t, st.fwd, st.bwd);
    FrontierArcs(g, r, s, t, st.fwd, st.bwd);
    DisjointApart(r, g, t, s, st.bwd, st.fwd);
    FrontierArcs(r, g, t, s, st.bwd, st.fwd);
    if n <= |Arcs(g, st.fwd.current)| {
      NoMeetingDiscarded(Arcs(g, st.fwd.current), n, st.fwd, st.bwd, true);
    }
    if n <= |Arcs(r, st.bwd.current)| {
      NoMeetingDiscarded(Arcs(r, st.bwd.current), n, st.bwd, st.fwd, false);
    }
  }

  lemma WalkEnds(g: Adjacency, r: Adjacency, p: seq<nat>, j: nat)
    requires Transposed(g, r) && IsWalk(g, p) && j < |p| && p[0] < |g|
    ensures p[j] < |g| && IsWalk(g, p[..j + 1]) && IsWalk(g, p[j..])
  {
    hide Count;
    if j > 0 {
      assert Edge(g, p[j - 1], p[j - 1 + 1]);
      assert Edge(r, p[j], p[j - 1]);
    }
    var q := p[j..];
    forall i {:trigger q[i]} | 0 <= i < |q| - 1 ensures Edge(g, q[i], q[i + 1]) {
      assert q[i] == p[j + i] && q[i + 1] == p[j + i + 1];
    }
  }

  /** On a shortest walk, the part before and the part after a node are walks of the graph. */
  lemma WalkParts(g: Adjacency, r: Adjacency, p: seq<nat>, s: nat, t: nat, d: nat, j: nat)
    requires Transposed(g, r) && WalkFromTo(g, p, s, t, d) && j <= d && s < |g|
    ensures p[j] < |g| && Count(r, p[j], s, j) > 0 && Count(g, p[j], t, d - j) > 0
  {
    hide Count;
    WalkEnds(g, r, p, j);
    assert WalkFromTo(g, p[..j + 1], s, p[j], j);
    CountPositive(g, r, s, p[j], j);
    ReverseCount(g, r, s, p[j], j);
    assert WalkFromTo(g, p[j..], p[j], t, d - j);
    CountPositive(g, r, p[j], t, d - j);
  }

  /** An inner layer cuts every shortest walk exactly once. */
  lemma OneBridgePerWalk(g: Adjacency, r: Adjacency, s: nat, t: nat, d: nat, k: nat, bridges: seq<nat>, p: seq<nat>, j: nat)
    requires Transposed(g, r) && s < |g| && Depth(g, s, t, d)
    requires BridgeLayer(g, r, s, t, d, k, bridges) && 0 < k < d
    requires WalkFromTo(g, p, s, t, d) && j <= d
    ensures p[j] in bridges <==> j == k
  {
    WalkParts(g, r, p, s, t, d, j);
    if p[j] in bridges && j < k {
      JoinCount(g, r, s, p[j], t, j, d - k);
      assert false;
    } else if p[j] in bridges && j > k {
      JoinCount(g, r, s, p[j], t, k, d - j);
      assert false;
    } else if j == k {
      assert p[j] != s;
      ReverseCount(g, r, s, p[j], j);
    }
  }
}
