/** The reusable search state and the search that works on it in place. */
module Bfs {
  import opened Options
  import opened Sums
  import opened Walks
  import opened Search

  // ---------- One scanned arc ----------

  lemma ScanArc(arcs: seq<(nat, nat)>, a: (nat, nat))
    ensures (arcs + [a])[..|arcs|] == arcs && (arcs + [a])[|arcs|] == a
  {
  }

  lemma ArrivalsArc(arcs: seq<(nat, nat)>, a: (nat, nat), before: Visited, v: nat)
    ensures Arrivals(arcs + [a], before, v) ==
            if a.1 == v then SatAdd(Arrivals(arcs, before, v), Paths(before, a.0)) else Arrivals(arcs, before, v)
  {
    ScanArc(arcs, a);
  }

  lemma FreshArc(arcs: seq<(nat, nat)>, a: (nat, nat), before: Visited)
    ensures Fresh(arcs + [a], before) ==
            if a.1 in before || a.1 in Fresh(arcs, before) then Fresh(arcs, before) else Fresh(arcs, before) + [a.1]
  {
    ScanArc(arcs, a);
  }

  /** The visited map after one more arc. */
  function Visit(now: Visited, v: nat, dist: nat, paths: nat): Visited {
    if v !in now then now[v := Reached(dist, paths)]
    else if now[v].dist == dist then now[v := Reached(dist, SatAdd(now[v].paths, paths))]
    else now
  }

  lemma {:induction false} NoArrivals(arcs: seq<(nat, nat)>, before: Visited, v: nat)
    requires forall u: nat :: (u, v) !in arcs
    ensures Arrivals(arcs, before, v) == 0
  {
    if arcs != [] {
      var last := arcs[|arcs| - 1];
      assert last == (last.0, last.1) && last in arcs;
      assert arcs == arcs[..|arcs| - 1] + [last];
      NoArrivals(arcs[..|arcs| - 1], before, v);
    }
  }

  /** Scanning one more arc inserts a new node, adds to a node of the new level, or changes nothing. */
  lemma DiscoverArc(arcs: seq<(nat, nat)>, a: (nat, nat), before: Visited, dist: nat)
    requires forall v | v in before :: before[v].dist != dist && before[v].paths <= U64_MAX
    ensures var now := Discover(arcs, before, dist);
            && Discover(arcs + [a], before, dist) == Visit(now, a.1, dist, Paths(before, a.0))
            && Fresh(arcs + [a], before) == if a.1 in now then Fresh(arcs, before) else Fresh(arcs, before) + [a.1]
  {
    hide Fresh, Arrivals;
    var fewer, more := Fresh(arcs, before), Fresh(arcs + [a], before);
    FreshArc(arcs, a, before);
    forall v | v in before ensures v !in fewer && v !in more {
      FreshMember(arcs, before, v);
      FreshMember(arcs + [a], before, v);
    }
    forall v: nat
      ensures Arrivals(arcs + [a], before, v) ==
              if a.1 == v then SatAdd(Arrivals(arcs, before, v), Paths(before, a.0)) else Arrivals(arcs, before, v)
    {
      ArrivalsArc(arcs, a, before, v);
    }
    if a.1 !in before && a.1 !in fewer {
      FreshMember(arcs, before, a.1);
      NoArrivals(arcs, before, a.1);
    }
    var next, visited := Discover(arcs + [a], before, dist), Visit(Discover(arcs, before, dist), a.1, dist, Paths(before, a.0));
    assert next.Keys == visited.Keys;
  }

  /** Nodes of earlier levels keep their entries. */
  lemma EarlierKept(arcs: seq<(nat, nat)>, before: Visited, dist: nat, u: nat)
    requires u in before
    ensures u in Discover(arcs, before, dist) && Discover(arcs, before, dist)[u] == before[u]
  {
    FreshMember(arcs, before, u);
  }

  lemma MeetOneArc(found: (Option<nat>, seq<Meeting>), arcs: seq<(nat, nat)>, a: (nat, nat), side: Side, other: Side,
                   forward: bool)
    ensures MeetArcs(found, arcs + [a], side, other, forward) ==
            MeetArc(MeetArcs(found, arcs, side, other, forward), a, side, other, forward)
  {
    ScanArc(arcs, a);
  }

  lemma NothingScanned(g: Adjacency, u: nat, found: (Option<nat>, seq<Meeting>), side: Side, other: Side, forward: bool)
    ensures Arcs(g, []) == [] && ArcsOf(u, []) == []
    ensures Fresh([], side.visited) == [] && Discover([], side.visited, side.dist + 1) == side.visited
    ensures MeetArcs(found, [], side, other, forward) == found
  {
  }

  lemma ArcsPrefix(g: Adjacency, current: seq<nat>, i: nat)
    requires i < |current| && current[i] < |g|
    ensures Arcs(g, current[..i + 1]) == Arcs(g, current[..i]) + ArcsOf(current[i], g[current[i]])
  {
    assert current[..i + 1][..i] == current[..i];
  }

  lemma ArcsOfPrefix(u: nat, vs: seq<nat>, j: nat)
    requires j < |vs|
    ensures ArcsOf(u, vs[..j + 1]) == ArcsOf(u, vs[..j]) + [(u, vs[j])]
  {
    assert vs[..j + 1][..j] == vs[..j];
  }

  /** What the scan of a level needs: settled earlier levels, a frontier that was visited. */
  ghost predicate Ready(n: nat, side: Side) {
    && (forall v | v in side.visited :: side.visited[v].dist <= side.dist && side.visited[v].paths <= U64_MAX)
    && (forall u | u in side.current :: u < n && u in side.visited)
  }

  ghost predicate InRange(g: Adjacency) {
    forall u, v | 0 <= u < |g| && v in g[u] :: v < |g|
  }

  lemma {:induction false} ArrivalsBounded(arcs: seq<(nat, nat)>, before: Visited, v: nat)
    ensures Arrivals(arcs, before, v) <= U64_MAX
  {
    if arcs != [] {
      ArrivalsBounded(arcs[..|arcs| - 1], before, v);
    }
  }

  /** After a level the next one can be scanned. */
  lemma ReadyNext(g: Adjacency, side: Side)
    requires InRange(g) && Ready(|g|, side)
    ensures Ready(|g|, ExpandSide(g, side))
  {
    var arcs := Arcs(g, side.current);
    forall u | u in Fresh(arcs, side.visited) ensures u < |g| && Arrivals(arcs, side.visited, u) <= U64_MAX {
      FreshMember(arcs, side.visited, u);
      var w: nat :| (w, u) in arcs;
      ArcsMember(g, side.current, (w, u));
      ArrivalsBounded(arcs, side.visited, u);
    }
  }

  class BfsState {
    var fwdVisited: Visited
    var fwdCurrent: seq<nat>
    var fwdNext: seq<nat>
    var bwdVisited: Visited
    var bwdCurrent: seq<nat>
    var bwdNext: seq<nat>
    var meetings: seq<Meeting>
    var bridgeSet: set<nat>
    var bridgeIds: seq<nat>

    method Clear()
      modifies this
      ensures fwdVisited == map[] && fwdCurrent == [] && fwdNext == []
      ensures bwdVisited == map[] && bwdCurrent == [] && bwdNext == []
      ensures meetings == [] && bridgeSet == {} && bridgeIds == []
    {
      fwdVisited, fwdCurrent, fwdNext := map[], [], [];
      bwdVisited, bwdCurrent, bwdNext := map[], [], [];
      meetings, bridgeSet, bridgeIds := [], {}, [];
    }

    ghost function Abs(fwdDist: nat, bwdDist: nat, best: Option<nat>): State
      reads this
    {
      State(Side(fwdDist, fwdVisited, fwdCurrent), Side(bwdDist, bwdVisited, bwdCurrent), best, meetings)
    }

    /** One scanned arc of the forward frontier. */
    method ForwardArc(node: nat, neighbor: nat, nodePaths: nat, dist: nat, best: Option<nat>,
                  ghost st: State, ghost before: Visited, ghost arcs: seq<(nat, nat)>) returns (best': Option<nat>)
      requires forall v | v in before :: before[v].dist != dist && before[v].paths <= U64_MAX
      requires dist == st.fwd.dist + 1 && st.fwd.visited == before && bwdVisited == st.bwd.visited
      requires nodePaths == Paths(before, node)
      requires fwdVisited == Discover(arcs, before, dist) && fwdNext == Fresh(arcs, before)
      requires (best, meetings) == MeetArcs((st.best, st.meetings), arcs, st.fwd, st.bwd, true)
      modifies this`fwdVisited, this`fwdNext, this`meetings
      ensures var next := arcs + [(node, neighbor)];
              && fwdVisited == Discover(next, before, dist) && fwdNext == Fresh(next, before)
              && (best', meetings) == MeetArcs((st.best, st.meetings), next, st.fwd, st.bwd, true)
    {
      hide Fresh, Discover, MeetArcs;
      MeetOneArc((st.best, st.meetings), arcs, (node, neighbor), st.fwd, st.bwd, true);
      DiscoverArc(arcs, (node, neighbor), before, dist);
      best' := best;
      if neighbor in bwdVisited {
        var totalDist := dist + bwdVisited[neighbor].dist;
        if best'.None? || totalDist < best'.value {
          best' := Some(totalDist);
          meetings := [];
        }
        if best' == Some(totalDist) {
          var meeting := Meeting(neighbor, nodePaths, bwdVisited[neighbor].paths);
          assert [] + [meeting] == [meeting];
          meetings := meetings + [meeting];
        }
      }
      if neighbor !in fwdVisited {
        fwdVisited := fwdVisited[neighbor := Reached(dist, nodePaths)];
        fwdNext := fwdNext + [neighbor];
      } else if fwdVisited[neighbor].dist == dist {
        fwdVisited := fwdVisited[neighbor := Reached(dist, SatAdd(fwdVisited[neighbor].paths, nodePaths))];
      }
    }

    /** Scan the forward frontier: meetings, new nodes, counts; then swap the buffers. */
    method ForwardLevel(follows: Adjacency, fwdDist: nat, ghost bwdDist: nat, best: Option<nat>)
      returns (best': Option<nat>)
      requires InRange(follows) && fwdNext == []
      requires fwdDist > 0 && Ready(|follows|, Abs(fwdDist - 1, bwdDist, best).fwd)
      modifies this`fwdVisited, this`fwdCurrent, this`fwdNext, this`meetings
      ensures fwdNext == [] && Ready(|follows|, Abs(fwdDist, bwdDist, best').fwd)
      ensures Abs(fwdDist, bwdDist, best') == ExpandForward(follows, old(Abs(fwdDist - 1, bwdDist, best)))
    {
      hide Arcs, ArcsOf, Fresh, Discover, MeetArcs;
      best' := best;
      ghost var st := Abs(fwdDist - 1, bwdDist, best);
      ghost var before := fwdVisited;
      ghost var arcs: seq<(nat, nat)> := [];
      NothingScanned(follows, 0, (best, st.meetings), st.fwd, st.bwd, true);
      assert fwdCurrent[..0] == [];
      for i := 0 to |fwdCurrent|
        invariant fwdCurrent == st.fwd.current
        invariant arcs == Arcs(follows, fwdCurrent[..i])
        invariant fwdVisited == Discover(arcs, before, fwdDist) && fwdNext == Fresh(arcs, before)
        invariant (best', meetings) == MeetArcs((best, st.meetings), arcs, st.fwd, st.bwd, true)
      {
        var node := fwdCurrent[i];
        EarlierKept(arcs, before, fwdDist, node);
        var nodePaths := fwdVisited[node].paths;
        var neighbors := follows[node];
        NothingScanned(follows, node, (best, st.meetings), st.fwd, st.bwd, true);
        assert neighbors[..0] == [];
        for j := 0 to |neighbors|
          invariant fwdCurrent == st.fwd.current
          invariant arcs == Arcs(follows, fwdCurrent[..i]) + ArcsOf(node, neighbors[..j])
          invariant fwdVisited == Discover(arcs, before, fwdDist) && fwdNext == Fresh(arcs, before)
          invariant (best', meetings) == MeetArcs((best, st.meetings), arcs, st.fwd, st.bwd, true)
        {
          ArcsOfPrefix(node, neighbors, j);
          best' := ForwardArc(node, neighbors[j], nodePaths, fwdDist, best', st, before, arcs);
          arcs := arcs + [(node, neighbors[j])];
        }
        assert neighbors[..|neighbors|] == neighbors;
        ArcsPrefix(follows, fwdCurrent, i);
      }
      assert fwdCurrent[..|fwdCurrent|] == fwdCurrent;
      ReadyNext(follows, st.fwd);
      fwdCurrent := [];
      fwdCurrent, fwdNext := fwdNext, fwdCurrent;
    }

    /** One scanned arc of the backward frontier. */
    method BackwardArc(node: nat, neighbor: nat, nodePaths: nat, dist: nat, best: Option<nat>,
                  ghost st: State, ghost before: Visited, ghost arcs: seq<(nat, nat)>) returns (best': Option<nat>)
      requires forall v | v in before :: before[v].dist != dist && before[v].paths <= U64_MAX
      requires dist == st.bwd.dist + 1 && st.bwd.visited == before && fwdVisited == st.fwd.visited
      requires nodePaths == Paths(before, node)
      requires bwdVisited == Discover(arcs, before, dist) && bwdNext == Fresh(arcs, before)
      requires (best, meetings) == MeetArcs((st.best, st.meetings), arcs, st.bwd, st.fwd, false)
      modifies this`bwdVisited, this`bwdNext, this`meetings
      ensures var next := arcs + [(node, neighbor)];
              && bwdVisited == Discover(next, before, dist) && bwdNext == Fresh(next, before)
              && (best', meetings) == MeetArcs((st.best, st.meetings), next, st.bwd, st.fwd, false)
    {
      hide Fresh, Discover, MeetArcs;
      MeetOneArc((st.best, st.meetings), arcs, (node, neighbor), st.bwd, st.fwd, false);
      DiscoverArc(arcs, (node, neighbor), before, dist);
      best' := best;
      if neighbor in fwdVisited {
        var totalDist := fwdVisited[neighbor].dist + dist;
        if best'.None? || totalDist < best'.value {
          best' := Some(totalDist);
          meetings := [];
        }
        if best' == Some(totalDist) {
          var meeting := Meeting(neighbor, fwdVisited[neighbor].paths, nodePaths);
          assert [] + [meeting] == [meeting];
          meetings := meetings + [meeting];
        }
      }
      if neighbor !in bwdVisited {
        bwdVisited := bwdVisited[neighbor := Reached(dist, nodePaths)];
        bwdNext := bwdNext + [neighbor];
      } else if bwdVisited[neighbor].dist == dist {
        bwdVisited := bwdVisited[neighbor := Reached(dist, SatAdd(bwdVisited[neighbor].paths, nodePaths))];
      }
    }

    /** The same on the other side, over the follower lists. */
    method BackwardLevel(followers: Adjacency, ghost fwdDist: nat, bwdDist: nat, best: Option<nat>)
      returns (best': Option<nat>)
      requires InRange(followers) && bwdNext == []
      requires bwdDist > 0 && Ready(|followers|, Abs(fwdDist, bwdDist - 1, best).bwd)
      modifies this`bwdVisited, this`bwdCurrent, this`bwdNext, this`meetings
      ensures bwdNext == [] && Ready(|followers|, Abs(fwdDist, bwdDist, best').bwd)
      ensures Abs(fwdDist, bwdDist, best') == ExpandBackward(followers, old(Abs(fwdDist, bwdDist - 1, best)))
    {
      hide Arcs, ArcsOf, Fresh, Discover, MeetArcs;
      best' := best;
      ghost var st := Abs(fwdDist, bwdDist - 1, best);
      ghost var before := bwdVisited;
      ghost var arcs: seq<(nat, nat)> := [];
      NothingScanned(followers, 0, (best, st.meetings), st.bwd, st.fwd, false);
      assert bwdCurrent[..0] == [];
      for i := 0 to |bwdCurrent|
        invariant bwdCurrent == st.bwd.current
        invariant arcs == Arcs(followers, bwdCurrent[..i])
        invariant bwdVisited == Discover(arcs, before, bwdDist) && bwdNext == Fresh(arcs, before)
        invariant (best', meetings) == MeetArcs((best, st.meetings), arcs, st.bwd, st.fwd, false)
      {
        var node := bwdCurrent[i];
        EarlierKept(arcs, before, bwdDist, node);
        var nodePaths := bwdVisited[node].paths;
        var neighbors := followers[node];
        NothingScanned(followers, node, (best, st.meetings), st.bwd, st.fwd, false);
        assert neighbors[..0] == [];
        for j := 0 to |neighbors|
          invariant bwdCurrent == st.bwd.current
          invariant arcs == Arcs(followers, bwdCurrent[..i]) + ArcsOf(node, neighbors[..j])
          invariant bwdVisited == Discover(arcs, before, bwdDist) && bwdNext == Fresh(arcs, before)
          invariant (best', meetings) == MeetArcs((best, st.meetings), arcs, st.bwd, st.fwd, false)
        {
          ArcsOfPrefix(node, neighbors, j);
          best' := BackwardArc(node, neighbors[j], nodePaths, bwdDist, best', st, before, arcs);
          arcs := arcs + [(node, neighbors[j])];
        }
        assert neighbors[..|neighbors|] == neighbors;
        ArcsPrefix(followers, bwdCurrent, i);
      }
      assert bwdCurrent[..|bwdCurrent|] == bwdCurrent;
      ReadyNext(followers, st.bwd);
      bwdCurrent := [];
      bwdCurrent, bwdNext := bwdNext, bwdCurrent;
    }

    /** The search from `fromId` to `toId`, whatever an earlier query left in the state. */
    method Bidirectional(follows: Adjacency, followers: Adjacency, fromId: nat, toId: nat, maxHops: nat,
                         includeBridges: bool) returns (o: Outcome)
      requires InRange(follows) && InRange(followers) && |follows| == |followers|
      requires fromId < |follows| && toId < |follows|
      modifies this
      ensures var full := Search.Bidirectional(follows, followers, fromId, toId, maxHops, SmallerFrontier());
              o == if includeBridges then full else full.(bridgeIds := [])
    {
      hide PathTotal, Bridges, ExpandForward, ExpandBackward;
      Clear();
      fwdVisited, fwdCurrent := fwdVisited[fromId := Reached(0, 1)], fwdCurrent + [fromId];
      bwdVisited, bwdCurrent := bwdVisited[toId := Reached(0, 1)], bwdCurrent + [toId];
      var fwdDist, bwdDist, best: Option<nat> := 0, 0, None;
      assert Abs(0, 0, None) == Initial(fromId, toId);
      while fwdCurrent != [] && bwdCurrent != []
        invariant fwdNext == [] && bwdNext == [] && bridgeSet == {} && bridgeIds == []
        invariant Ready(|follows|, Abs(fwdDist, bwdDist, best).fwd)
        invariant Ready(|followers|, Abs(fwdDist, bwdDist, best).bwd)
        invariant Rounds(follows, followers, Abs(fwdDist, bwdDist, best), maxHops, SmallerFrontier()) ==
                  Rounds(follows, followers, Initial(fromId, toId), maxHops, SmallerFrontier())
        decreases maxHops - (fwdDist + bwdDist)
      {
        var currentMinPossible := fwdDist + bwdDist;
        if best.Some? && currentMinPossible >= best.value {
          break;
        }
        if currentMinPossible >= maxHops {
          break;
        }
        if |fwdCurrent| <= |bwdCurrent| {
          fwdDist := fwdDist + 1;
          best := ForwardLevel(follows, fwdDist, bwdDist, best);
        } else {
          bwdDist := bwdDist + 1;
          best := BackwardLevel(followers, fwdDist, bwdDist, best);
        }
      }
      assert Done(Abs(fwdDist, bwdDist, best), maxHops);
      if best.Some? && best.value <= maxHops {
        var pathCount := SumPaths();
        if includeBridges {
          CollectBridges(fromId, toId);
        }
        o := Outcome(best, pathCount, bridgeIds);
      } else {
        o := Outcome(None, 0, []);
      }
    }

    /** Saturating products, saturating sum. */
    method SumPaths() returns (total: nat)
      ensures total == PathTotal(meetings)
    {
      total := 0;
      for i := 0 to |meetings|
        invariant total == PathTotal(meetings[..i])
      {
        assert meetings[..i + 1][..i] == meetings[..i];
        total := SatAdd(total, SatMul(meetings[i].fwdPaths, meetings[i].bwdPaths));
      }
      assert meetings[..|meetings|] == meetings;
    }

    /** The distinct inner meeting nodes, in order of first meeting. */
    method CollectBridges(fromId: nat, toId: nat)
      requires bridgeSet == {} && bridgeIds == []
      modifies this`bridgeSet, this`bridgeIds
      ensures bridgeIds == Bridges(meetings, fromId, toId)
    {
      for i := 0 to |meetings|
        invariant bridgeIds == Bridges(meetings[..i], fromId, toId)
        invariant forall v :: v in bridgeSet <==> v in bridgeIds
      {
        assert meetings[..i + 1][..i] == meetings[..i];
        var id := meetings[i].node;
        if id != fromId && id != toId && id !in bridgeSet {
          bridgeSet := bridgeSet + {id};
          bridgeIds := bridgeIds + [id];
        }
      }
      assert meetings[..|meetings|] == meetings;
    }
  }
}
