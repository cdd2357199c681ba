/** `compute_path`: a second bidirectional search that remembers parents and rebuilds one shortest path. */
module Paths {
  import opened Options
  import opened Walks
  import opened Search
  import opened SearchProof
  import opened SearchTheorems
  import opened SortedLists
  import opened Bfs
  import opened Distances

  ghost predicate ParentIn(g: Adjacency, current: seq<nat>, parent: map<nat, nat>, v: nat) {
    v in parent && parent[v] in current && Edge(g, parent[v], v)
  }

  lemma DiscoverKeys(arcs: seq<(nat, nat)>, side: Side)
    ensures Discover(arcs, side.visited, side.dist + 1).Keys == side.visited.Keys + set v | v in Fresh(arcs, side.visited)
  {
    hide Fresh, Arrivals;
  }

  /** One level of one side; stops at the first neighbour the other side has visited. */
  method PathLevel(g: Adjacency, current: seq<nat>, visited: set<nat>, parent: map<nat, nat>, other: set<nat>,
                   ghost side: Side)
    returns (visited': set<nat>, parent': map<nat, nat>, next: seq<nat>, meet: Option<nat>)
    requires forall u | u in current :: u < |g|
    requires current == side.current && visited == side.visited.Keys && visited !! other
    ensures forall v | v in visited && v in parent :: v in parent' && parent'[v] == parent[v]
    ensures meet.None? ==> next == ExpandSide(g, side).current && visited' == ExpandSide(g, side).visited.Keys
    ensures meet.None? ==> visited' !! other
    ensures meet.None? ==> forall v | v in next :: ParentIn(g, current, parent', v)
    ensures meet.Some? ==> meet.value in other && ParentIn(g, current, parent', meet.value)
  {
    hide Arcs, ArcsOf, Fresh;
    visited', parent', next, meet := visited, parent, [], None;
    ghost var before := side.visited;
    ghost var arcs: seq<(nat, nat)> := [];
    NothingScanned(g, 0, (None, []), side, side, true);
    assert current[..0] == [];
    for i := 0 to |current|
      invariant arcs == Arcs(g, current[..i]) && next == Fresh(arcs, before)
      invariant visited' == visited + (set v | v in next) && visited' !! other && meet == None
      invariant forall v | v in visited && v in parent :: v in parent' && parent'[v] == parent[v]
      invariant forall v | v in next :: ParentIn(g, current, parent', v)
    {
      var node := current[i];
      assert node in current;
      var neighbors := g[node];
      NothingScanned(g, node, (None, []), side, side, true);
      assert neighbors[..0] == [];
      for j := 0 to |neighbors|
        invariant arcs == Arcs(g, current[..i]) + ArcsOf(node, neighbors[..j]) && next == Fresh(arcs, before)
        invariant visited' == visited + (set v | v in next) && visited' !! other && meet == None
        invariant forall v | v in visited && v in parent :: v in parent' && parent'[v] == parent[v]
        invariant forall v | v in next :: ParentIn(g, current, parent', v)
      {
        var neighbor := neighbors[j];
        ArcsOfPrefix(node, neighbors, j);
        FreshArc(arcs, (node, neighbor), before);
        if neighbor in other {
          parent' := parent'[neighbor := node];
          meet := Some(neighbor);
          return;
        }
        if neighbor !in visited' {
          visited' := visited' + {neighbor};
          parent' := parent'[neighbor := node];
          next := next + [neighbor];
        }
        arcs := arcs + [(node, neighbor)];
      }
      assert neighbors[..|neighbors|] == neighbors;
      ArcsPrefix(g, current, i);
    }
    assert current[..|current|] == current;
    DiscoverKeys(arcs, side);
  }

  /** Every visited node but the root has a parent one level nearer. */
  ghost predicate ParentsInv(g: Adjacency, root: nat, level: map<nat, nat>, parent: map<nat, nat>) {
    && root in level && level[root] == 0
    && forall v | v in level && v != root ::
         v in parent && parent[v] in level && level[v] == level[parent[v]] + 1 && Edge(g, parent[v], v)
  }

  ghost function Levels(visited: Visited): map<nat, nat> {
    map v | v in visited :: visited[v].dist
  }

  lemma ParentsKept(g: Adjacency, h: Adjacency, x: nat, side: Side, parent: map<nat, nat>, parent': map<nat, nat>)
    requires WellFormed(g, h) && SideInv(h, x, side) && ParentsInv(g, x, Levels(side.visited), parent)
    requires forall v | v in side.visited && v in parent :: v in parent' && parent'[v] == parent[v]
    requires forall v | v in ExpandSide(g, side).current :: ParentIn(g, side.current, parent', v)
    ensures ParentsInv(g, x, Levels(ExpandSide(g, side).visited), parent')
  {
    hide Arcs, Fresh, Arrivals, Count, Exact, Complete, Edge;
    var after := ExpandSide(g, side);
    forall v | v in side.visited ensures v in after.visited && after.visited[v] == side.visited[v] {
      EarlierKept(Arcs(g, side.current), side.visited, after.dist, v);
    }
  }

  /** `fwd` and `bwd` give the levels of two halves of a path that meet at `meet`, and nowhere else. */
  ghost predicate Halves(g: Adjacency, r: Adjacency, s: nat, t: nat, fwdParent: map<nat, nat>, bwdParent: map<nat, nat>,
                         meet: nat, fwd: map<nat, nat>, bwd: map<nat, nat>) {
    && Transposed(g, r)
    && ParentsInv(g, s, fwd, fwdParent) && ParentsInv(r, t, bwd, bwdParent)
    && meet in fwd && meet in bwd
    && forall v :: v in fwd && v in bwd ==> v == meet
  }

  /** What the first loop has pushed, put in path order: `w` without its head, and without `t` at its end. */
  function Inner(w: seq<nat>, t: nat): seq<nat> {
    if w != [] && w[|w| - 1] == t then w[..|w| - 1] else w
  }

  function Reversed(s: seq<nat>): seq<nat> {
    if s == [] then [] else [s[|s| - 1]] + Reversed(s[..|s| - 1])
  }

  lemma {:induction false} ReversedAppend(s: seq<nat>, x: nat)
    ensures Reversed(s + [x]) == [x] + Reversed(s)
  {
    assert (s + [x])[..|s|] == s;
  }

  lemma WalkPrepend(g: Adjacency, u: nat, w: seq<nat>)
    requires IsWalk(g, w) && Edge(g, u, w[0])
    ensures IsWalk(g, [u] + w)
  {
    var p := [u] + w;
    forall i {:trigger p[i]} | 0 <= i < |p| - 1 ensures Edge(g, p[i], p[i + 1]) {
      if i > 0 {
        assert w[i - 1] == p[i] && w[i - 1 + 1] == p[i + 1];
      }
    }
  }

  lemma WalkAppend(g: Adjacency, w: seq<nat>, v: nat)
    requires IsWalk(g, w) && Edge(g, w[|w| - 1], v)
    ensures IsWalk(g, w + [v])
  {
    var p := w + [v];
    forall i {:trigger p[i]} | 0 <= i < |p| - 1 ensures Edge(g, p[i], p[i + 1]) {
      if i < |w| - 1 {
        assert w[i] == p[i] && w[i + 1] == p[i + 1];
      }
    }
  }

  lemma InnerStep(x: nat, w: seq<nat>, t: nat)
    requires x == t ==> w == []
    ensures Inner([x] + w, t) == (if x == t then [] else [x]) + Inner(w, t)
  {
  }

  lemma SingleWalk(g: Adjacency, u: nat)
    ensures IsWalk(g, [u])
  {
  }

  lemma EmptyEnds(t: nat)
    ensures Inner([], t) == [] && Reversed([]) == []
  {
  }

  /** From the meeting node back to the source: the silent `break` is never taken. */
  method TraceBack(ghost g: Adjacency, fwdParent: map<nat, nat>, s: nat, t: nat, meet: nat, ghost level: map<nat, nat>)
    returns (pathIds: seq<nat>, ghost walk: seq<nat>)
    requires ParentsInv(g, s, level, fwdParent) && meet in level
    requires t in level ==> t == meet
    ensures IsWalk(g, walk) && |walk| == level[meet] + 1 && walk[0] == s && walk[|walk| - 1] == meet
    ensures pathIds == Inner(walk[1..], t)
    ensures s !in walk[1..] && t !in walk[..|walk| - 1]
  {
    hide IsWalk, Inner, Reversed;
    pathIds := [];
    var current := meet;
    walk := [meet];
    assert IsWalk(g, walk) by { SingleWalk(g, meet); }
    EmptyEnds(t);
    assert walk[1..] == [];
    while current != s
      invariant current in level && level[current] <= level[meet]
      invariant |walk| == level[meet] - level[current] + 1 && walk[0] == current && walk[|walk| - 1] == meet
      invariant IsWalk(g, walk)
      invariant Reversed(pathIds) == Inner(walk[1..], t)
      invariant s !in walk[1..] && t !in walk[..|walk| - 1]
      decreases level[current]
    {
      if current in fwdParent {
        ghost var rest := walk[1..];
        assert walk == [current] + rest;
        InnerStep(current, rest, t);
        if current != t {
          ReversedAppend(pathIds, current);
          pathIds := pathIds + [current];
        }
        WalkPrepend(g, fwdParent[current], walk);
        walk := [fwdParent[current]] + walk;
        assert walk[1..] == [current] + rest;
        current := fwdParent[current];
      } else {
        assert false;
        break;
      }
    }
    pathIds := Reversed(pathIds);
  }

  /** The inner nodes after the first loop, framed by the ends, lead to the meeting node. */
  lemma InnerFramed(g: Adjacency, walk: seq<nat>, s: nat, t: nat, meet: nat)
    requires s != t && IsWalk(g, walk) && walk[0] == s && walk[|walk| - 1] == meet
    requires s !in walk[1..] && t !in walk[..|walk| - 1]
    ensures var ids := Inner(walk[1..], t);
            && s !in ids && t !in ids
            && (meet != t ==> [s] + ids == walk) && (meet == t ==> [s] + ids + [t] == walk)
  {
    var rest := walk[1..];
    assert walk == [s] + rest;
    if rest != [] {
      assert rest[|rest| - 1] == meet;
      assert rest == rest[..|rest| - 1] + [meet];
      var inner, front := rest[..|rest| - 1], walk[..|walk| - 1];
      forall x | x in inner ensures x in front {
        var i :| 0 <= i < |inner| && inner[i] == x;
        assert front[i + 1] == x;
      }
    }
  }

  /** From the meeting node on to the target: again the silent `break` is never taken. */
  method TraceOn(ghost g: Adjacency, ghost r: Adjacency, bwdParent: map<nat, nat>, s: nat, t: nat, meet: nat, firstHalf: seq<nat>,
                 ghost level: map<nat, nat>) returns (pathIds: seq<nat>)
    requires Transposed(g, r) && ParentsInv(r, t, level, bwdParent) && meet in level && s != t
    requires s in level ==> s == meet
    requires s !in firstHalf && t !in firstHalf
    requires IsWalk(g, [s] + firstHalf + if meet == t then [t] else [])
    requires ([s] + firstHalf)[|firstHalf|] == meet || meet == t
    ensures IsWalk(g, [s] + pathIds + [t]) && s !in pathIds && t !in pathIds
    ensures |pathIds| + 1 == |firstHalf| + (if meet == t then 1 else 0) + level[meet]
  {
    hide IsWalk;
    pathIds := firstHalf;
    var current := meet;
    ghost var walk := [s] + firstHalf;
    assert meet != t ==> walk + [] == walk;
    while current != t
      invariant current in level && level[current] <= level[meet]
      invariant s !in pathIds && t !in pathIds && (s in level && level[current] < level[meet] ==> current != s)
      invariant walk == [s] + pathIds
      invariant current != t ==> walk[|walk| - 1] == current && IsWalk(g, walk)
      invariant current != t ==> |pathIds| == |firstHalf| + level[meet] - level[current]
      invariant current == t ==> IsWalk(g, walk + [t])
      invariant current == t ==> |pathIds| + 1 == |firstHalf| + (if meet == t then 1 else 0) + level[meet]
      decreases level[current]
    {
      if current in bwdParent {
        var child := bwdParent[current];
        assert Edge(g, current, child) by { assert Edge(r, child, current); }
        WalkAppend(g, walk, child);
        if child != t {
          walk, pathIds := walk + [child], pathIds + [child];
        }
        current := child;
      } else {
        assert false;
        break;
      }
    }
  }

  // ---------- The search ----------

  /** What holds at the head of every round before the sides have met. */
  ghost predicate PathInv(g: Adjacency, r: Adjacency, s: nat, t: nat, fwd: Side, bwd: Side,
                          fwdParent: map<nat, nat>, bwdParent: map<nat, nat>) {
    && SideInv(r, s, fwd) && SideInv(g, t, bwd)
    && fwd.visited.Keys !! bwd.visited.Keys
    && ParentsInv(g, s, Levels(fwd.visited), fwdParent)
    && ParentsInv(r, t, Levels(bwd.visited), bwdParent)
  }

  /** The first meeting closes a shortest walk: the other side's node is on its last level. */
  lemma MeetingDepth(g: Adjacency, h: Adjacency, x: nat, y: nat, side: Side, other: Side, u: nat, v: nat)
    requires Transposed(g, h) && SideInv(h, x, side) && SideInv(g, y, other)
    requires side.visited.Keys !! other.visited.Keys
    requires u in side.current && Edge(g, u, v) && v in other.visited
    ensures other.visited[v].dist == other.dist
    ensures Depth(g, x, y, side.dist + 1 + other.dist)
  {
    hide Count;
    DisjointApart(g, h, x, y, side, other);
    MeetsLastLevel(g, h, x, y, side, other, u, v);
    CountStep(g, u, v, y, other.dist);
    JoinCount(g, h, x, u, y, side.dist, other.dist + 1);
  }

  /** The meeting node hangs below the frontier of the side that reached it. */
  lemma MeetingHangs(g: Adjacency, x: nat, side: Side, parent: map<nat, nat>, parent': map<nat, nat>, meet: nat)
    requires ParentsInv(g, x, Levels(side.visited), parent)
    requires forall v | v in side.visited && v in parent :: v in parent' && parent'[v] == parent[v]
    requires meet !in side.visited && ParentIn(g, side.current, parent', meet)
    requires forall u | u in side.current :: u in side.visited && side.visited[u].dist == side.dist
    ensures ParentsInv(g, x, Levels(side.visited)[meet := side.dist + 1], parent')
  {
  }

  /** The parents of the two sides and the closing edge form the two halves of a path. */
  lemma ForwardHalves(g: Adjacency, r: Adjacency, s: nat, t: nat, fwd: Side, bwd: Side, fwdParent: map<nat, nat>,
                      fwdParent': map<nat, nat>, bwdParent: map<nat, nat>, meet: nat)
    requires WellFormed(g, r) && PathInv(g, r, s, t, fwd, bwd, fwdParent, bwdParent)
    requires forall v | v in fwd.visited && v in fwdParent :: v in fwdParent' && fwdParent'[v] == fwdParent[v]
    requires meet in bwd.visited && ParentIn(g, fwd.current, fwdParent', meet)
    ensures Halves(g, r, s, t, fwdParent', bwdParent, meet, Levels(fwd.visited)[meet := fwd.dist + 1], Levels(bwd.visited))
    ensures bwd.visited[meet].dist == bwd.dist && Depth(g, s, t, fwd.dist + 1 + bwd.dist)
  {
    hide Count, Depth, ParentsInv, Exact, Complete;
    MeetingDepth(g, r, s, t, fwd, bwd, fwdParent'[meet], meet);
    MeetingHangs(g, s, fwd, fwdParent, fwdParent', meet);
  }

  lemma BackwardHalves(g: Adjacency, r: Adjacency, s: nat, t: nat, fwd: Side, bwd: Side, fwdParent: map<nat, nat>,
                       bwdParent: map<nat, nat>, bwdParent': map<nat, nat>, meet: nat)
    requires WellFormed(g, r) && PathInv(g, r, s, t, fwd, bwd, fwdParent, bwdParent)
    requires forall v | v in bwd.visited && v in bwdParent :: v in bwdParent' && bwdParent'[v] == bwdParent[v]
    requires meet in fwd.visited && ParentIn(r, bwd.current, bwdParent', meet)
    ensures Halves(g, r, s, t, fwdParent, bwdParent', meet, Levels(fwd.visited), Levels(bwd.visited)[meet := bwd.dist + 1])
    ensures fwd.visited[meet].dist == fwd.dist && Depth(g, s, t, fwd.dist + 1 + bwd.dist)
  {
    hide Count, Depth, ParentsInv, Exact, Complete;
    MeetingDepth(r, g, t, s, bwd, fwd, bwdParent'[meet], meet);
    ReverseDepth(g, r, s, t, bwd.dist + 1 + fwd.dist);
    MeetingHangs(r, t, bwd, bwdParent, bwdParent', meet);
  }

  /** A path of ids: a walk from `s` to `t` of the shortest length, with neither end inside. */
  ghost predicate IdPathFound(g: Adjacency, s: nat, t: nat, maxHops: nat, ids: seq<nat>) {
    && |ids| + 1 <= maxHops && Depth(g, s, t, |ids| + 1)
    && IsWalk(g, [s] + ids + [t]) && s !in ids && t !in ids
  }

  method Reconstruct(ghost g: Adjacency, ghost r: Adjacency, s: nat, t: nat, fwdParent: map<nat, nat>,
                     bwdParent: map<nat, nat>, meet: nat, ghost fwd: map<nat, nat>, ghost bwd: map<nat, nat>)
    returns (pathIds: seq<nat>)
    requires s != t && Halves(g, r, s, t, fwdParent, bwdParent, meet, fwd, bwd)
    ensures IsWalk(g, [s] + pathIds + [t]) && s !in pathIds && t !in pathIds
    ensures |pathIds| + 1 == fwd[meet] + bwd[meet]
  {
    hide IsWalk;
    ghost var walk;
    pathIds, walk := TraceBack(g, fwdParent, s, t, meet, fwd);
    InnerFramed(g, walk, s, t, meet);
    assert [s] + pathIds + [] == [s] + pathIds;
    pathIds := TraceOn(g, r, bwdParent, s, t, meet, pathIds, bwd);
  }

  lemma ReadyToScan(g: Adjacency, r: Adjacency, s: nat, t: nat, fwd: Side, bwd: Side,
                    fwdParent: map<nat, nat>, bwdParent: map<nat, nat>)
    requires PathInv(g, r, s, t, fwd, bwd, fwdParent, bwdParent) && |g| == |r|
    ensures fwd.visited.Keys !! bwd.visited.Keys
    ensures (forall u | u in fwd.current :: u < |g|) && forall u | u in bwd.current :: u < |r|
  {
    hide Count;
  }

  lemma ForwardPathKept(g: Adjacency, r: Adjacency, s: nat, t: nat, fwd: Side, bwd: Side, fwdParent: map<nat, nat>,
                        fwdParent': map<nat, nat>, bwdParent: map<nat, nat>)
    requires WellFormed(g, r) && PathInv(g, r, s, t, fwd, bwd, fwdParent, bwdParent)
    requires forall v | v in fwd.visited && v in fwdParent :: v in fwdParent' && fwdParent'[v] == fwdParent[v]
    requires forall v | v in ExpandSide(g, fwd).current :: ParentIn(g, fwd.current, fwdParent', v)
    requires ExpandSide(g, fwd).visited.Keys !! bwd.visited.Keys
    ensures PathInv(g, r, s, t, ExpandSide(g, fwd), bwd, fwdParent', bwdParent)
  {
    hide SideInv, ParentsInv, ExpandSide;
    ParentsKept(g, r, s, fwd, fwdParent, fwdParent');
    ExpandKeepsSide(g, r, s, fwd);
  }

  lemma BackwardPathKept(g: Adjacency, r: Adjacency, s: nat, t: nat, fwd: Side, bwd: Side, fwdParent: map<nat, nat>,
                         bwdParent: map<nat, nat>, bwdParent': map<nat, nat>)
    requires WellFormed(g, r) && PathInv(g, r, s, t, fwd, bwd, fwdParent, bwdParent)
    requires forall v | v in bwd.visited && v in bwdParent :: v in bwdParent' && bwdParent'[v] == bwdParent[v]
    requires forall v | v in ExpandSide(r, bwd).current :: ParentIn(r, bwd.current, bwdParent', v)
    requires fwd.visited.Keys !! ExpandSide(r, bwd).visited.Keys
    ensures PathInv(g, r, s, t, fwd, ExpandSide(r, bwd), fwdParent, bwdParent')
  {
    hide SideInv, ParentsInv, ExpandSide;
    ParentsKept(r, g, t, bwd, bwdParent, bwdParent');
    ExpandKeepsSide(r, g, t, bwd);
  }

  lemma PathStart(g: Adjacency, r: Adjacency, s: nat, t: nat)
    requires s < |g| && t < |g| && |g| == |r| && s != t
    ensures PathInv(g, r, s, t, Start(s), Start(t), map[], map[])
  {
    StartInv(r, s);
    StartInv(g, t);
  }

  lemma NoPathFound(g: Adjacency, r: Adjacency, s: nat, t: nat, fwd: Side, bwd: Side, fwdParent: map<nat, nat>,
                    bwdParent: map<nat, nat>, maxHops: nat)
    requires WellFormed(g, r) && PathInv(g, r, s, t, fwd, bwd, fwdParent, bwdParent)
    requires Done(State(fwd, bwd, None, []), maxHops)
    ensures forall k: nat | k <= maxHops :: Count(g, s, t, k) == 0
  {
    hide Count;
    forall k: nat | k <= maxHops ensures Count(g, s, t, k) == 0 {
      NoMeeting(g, r, s, t, State(fwd, bwd, None, []), maxHops, k);
    }
  }

  lemma ExpandDist(g: Adjacency, side: Side)
    ensures ExpandSide(g, side).dist == side.dist + 1
  {
  }

  /** The search on ids; it finds a path exactly when the distance is within the bound. */
  method FindPath(g: Adjacency, r: Adjacency, s: nat, t: nat, maxHops: nat) returns (path: Option<seq<nat>>)
    requires WellFormed(g, r) && InRange(g) && InRange(r) && s < |g| && t < |g| && s != t
    ensures path.Some? ==> IdPathFound(g, s, t, maxHops, path.value)
    ensures path.None? ==> forall k: nat | k <= maxHops :: Count(g, s, t, k) == 0
  {
    hide Count, IsWalk, ExpandSide, PathInv, Halves, ParentIn;
    var fwdParent: map<nat, nat>, bwdParent: map<nat, nat> := map[], map[];
    var fwdVisited, bwdVisited := {s}, {t};
    var fwdCurrent, bwdCurrent := [s], [t];
    var fwdDist, bwdDist := 0, 0;
    ghost var fwd, bwd := Start(s), Start(t);
    PathStart(g, r, s, t);
    while fwdCurrent != [] && bwdCurrent != []
      invariant fwdVisited == fwd.visited.Keys && fwdCurrent == fwd.current && fwdDist == fwd.dist
      invariant bwdVisited == bwd.visited.Keys && bwdCurrent == bwd.current && bwdDist == bwd.dist
      invariant PathInv(g, r, s, t, fwd, bwd, fwdParent, bwdParent) && fwdDist + bwdDist <= maxHops
      decreases maxHops - (fwdDist + bwdDist)
    {
      if fwdDist + bwdDist >= maxHops {
        break;
      }
      ReadyToScan(g, r, s, t, fwd, bwd, fwdParent, bwdParent);
      if |fwdCurrent| <= |bwdCurrent| {
        var visited, parent, next, meet := PathLevel(g, fwdCurrent, fwdVisited, fwdParent, bwdVisited, fwd);
        fwdDist := fwdDist + 1;
        if meet.Some? {
          ForwardHalves(g, r, s, t, fwd, bwd, fwdParent, parent, bwdParent, meet.value);
          var ids := Reconstruct(g, r, s, t, parent, bwdParent, meet.value,
                                 Levels(fwd.visited)[meet.value := fwd.dist + 1], Levels(bwd.visited));
          return Some(ids);
        }
        ForwardPathKept(g, r, s, t, fwd, bwd, fwdParent, parent, bwdParent);
        assert ExpandSide(g, fwd).dist == fwd.dist + 1 by { ExpandDist(g, fwd); }
        fwd := ExpandSide(g, fwd);
        fwdVisited, fwdParent, fwdCurrent := visited, parent, next;
      } else {
        var visited, parent, next, meet := PathLevel(r, bwdCurrent, bwdVisited, bwdParent, fwdVisited, bwd);
        bwdDist := bwdDist + 1;
        if meet.Some? {
          BackwardHalves(g, r, s, t, fwd, bwd, fwdParent, bwdParent, parent, meet.value);
          var ids := Reconstruct(g, r, s, t, fwdParent, parent, meet.value,
                                 Levels(fwd.visited), Levels(bwd.visited)[meet.value := bwd.dist + 1]);
          return Some(ids);
        }
        BackwardPathKept(g, r, s, t, fwd, bwd, fwdParent, bwdParent, parent);
        assert ExpandSide(r, bwd).dist == bwd.dist + 1 by { ExpandDist(r, bwd); }
        bwd := ExpandSide(r, bwd);
        bwdVisited, bwdParent, bwdCurrent := visited, parent, next;
      }
    }
    path := None;
    NoPathFound(g, r, s, t, fwd, bwd, fwdParent, bwdParent, maxHops);
  }

  // ---------- The promise of `compute_path` ----------

  datatype PathResult = PathResult(from: string, to: string, path: Option<seq<string>>)

  /** A path is reported exactly within the bound, and it is a shortest chain without its ends. */
  ghost predicate PathTruthful(tp: Topology, q: Query, res: PathResult) {
    && res.from == q.from && res.to == q.to
    && (q.from == q.to ==> res.path == Some([]))
    && (q.from != q.to ==>
          && (res.path.Some? <==> exists d: nat :: d <= q.maxHops && ShortestChain(tp, q.from, q.to, d))
          && (res.path.Some? ==>
                var p := res.path.value;
                && Chain(tp, [q.from] + p + [q.to], q.from, q.to, |p| + 1)
                && ShortestChain(tp, q.from, q.to, |p| + 1)
                && q.from !in p && q.to !in p))
  }

  lemma FramedNames(tp: Topology, ids: seq<nat>, a: string, b: string)
    requires ValidTopology(tp) && a in tp.ids && b in tp.ids
    requires forall i | 0 <= i < |ids| :: ids[i] < |tp.names|
    ensures NamePath(tp, [tp.ids[a]] + ids + [tp.ids[b]]) == [a] + Resolve(tp.names, ids) + [b]
    ensures |Resolve(tp.names, ids)| == |ids|
    ensures tp.ids[a] !in ids ==> a !in Resolve(tp.names, ids)
    ensures tp.ids[b] !in ids ==> b !in Resolve(tp.names, ids)
  {
    hide Resolve;
    ResolveMember(tp.names, tp.ids, ids, a);
    ResolveMember(tp.names, tp.ids, ids, b);
  }

  lemma FoundPathTruthful(tp: Topology, q: Query, ids: seq<nat>)
    requires ValidTopology(tp) && q.from != q.to && q.from in tp.ids && q.to in tp.ids
    requires IdPathFound(tp.follows, tp.ids[q.from], tp.ids[q.to], q.maxHops, ids)
    ensures PathTruthful(tp, q, PathResult(q.from, q.to, Some(Resolve(tp.names, ids))))
  {
    hide Resolve, Count, IsWalk, Chain, ShortestChain, Depth, ValidTopology, NamePath;
    var d := |ids| + 1;
    var w := [tp.ids[q.from]] + ids + [tp.ids[q.to]];
    assert w[0] == tp.ids[q.from] && w[d] == tp.ids[q.to];
    WalkIsChain(tp, w, d, q.from, q.to);
    assert forall i | 0 <= i < |ids| :: w[i + 1] == ids[i] && ids[i] < |tp.names|;
    FramedNames(tp, ids, q.from, q.to);
    DepthIsShortest(tp, q.from, q.to, d);
  }

  lemma NoPathTruthful(tp: Topology, q: Query)
    requires ValidTopology(tp) && q.from != q.to
    requires q.from in tp.ids && q.to in tp.ids ==>
               forall k: nat | k <= q.maxHops :: Count(tp.follows, tp.ids[q.from], tp.ids[q.to], k) == 0
    ensures PathTruthful(tp, q, PathResult(q.from, q.to, None))
  {
    hide Count;
    forall d: nat | d <= q.maxHops && ShortestChain(tp, q.from, q.to, d) ensures false {
      var p :| Chain(tp, p, q.from, q.to, d);
      ChainEndsKnown(tp, p, q.from, q.to, d);
      ChainExists(tp, q.from, q.to, d);
    }
  }

  lemma NothingResolved(names: seq<string>)
    ensures Resolve(names, []) == []
  {
  }

  /** `compute_path`: lookups, the direct-follow test, the search, and the ids resolved to names. */
  method ComputePath(tp: Topology, q: Query) returns (res: PathResult)
    requires ValidTopology(tp)
    ensures PathTruthful(tp, q, res)
  {
    hide Count, Resolve, Chain, ShortestChain;
    if q.from == q.to {
      return PathResult(q.from, q.to, Some([]));
    }
    if q.from !in tp.ids || q.to !in tp.ids {
      NoPathTruthful(tp, q);
      return PathResult(q.from, q.to, None);
    }
    var s, t := tp.ids[q.from], tp.ids[q.to];
    InRangeBothWays(tp);
    var direct, _ := BinarySearch(tp.follows[s], t);
    if q.maxHops > 0 && direct {
      DirectCount(tp.follows, s, t);
      assert [s] + [] + [t] == [s, t];
      FoundPathTruthful(tp, q, []);
      assert Resolve(tp.names, []) == [] by { NothingResolved(tp.names); }
      return PathResult(q.from, q.to, Some([]));
    }
    var found := FindPath(tp.follows, tp.followers, s, t, q.maxHops);
    if found.Some? {
      FoundPathTruthful(tp, q, found.value);
      return PathResult(q.from, q.to, Some(Resolve(tp.names, found.value)));
    }
    NoPathTruthful(tp, q);
    res := PathResult(q.from, q.to, None);
  }

  lemma HopsAreShortest(tp: Topology, q: Query)
    requires ValidTopology(tp) && Distance(tp, q).hops.Some?
    ensures Distance(tp, q).hops.value <= q.maxHops && ShortestChain(tp, q.from, q.to, Distance(tp, q).hops.value)
  {
    hide Distance;
    DistanceTruthful(tp, q);
    assert Distance(tp, q).hops == Some(Distance(tp, q).hops.value);
  }

  lemma OneShortest(tp: Topology, a: string, b: string, d: nat, e: nat)
    requires ShortestChain(tp, a, b, d) && ShortestChain(tp, a, b, e)
    ensures d == e
  {
    var p :| Chain(tp, p, a, b, d);
    var q :| Chain(tp, q, a, b, e);
  }

  /** Both queries agree: the path has one node fewer than the distance has hops. */
  lemma PathAgreesWithDistance(tp: Topology, q: Query, res: PathResult)
    requires ValidTopology(tp) && PathTruthful(tp, q, res) && q.from != q.to
    ensures Distance(tp, q).hops == if res.path.Some? then Some(|res.path.value| + 1) else None
  {
    hide Distance, ShortestChain, Chain;
    if res.path.Some? {
      DistanceTruthful(tp, q);
      var d: nat :| d <= q.maxHops && ShortestChain(tp, q.from, q.to, d);
      assert Distance(tp, q).hops == Some(d);
      HopsAreShortest(tp, q);
      OneShortest(tp, q.from, q.to, d, |res.path.value| + 1);
    } else if Distance(tp, q).hops.Some? {
      HopsAreShortest(tp, q);
      assert false;
    }
  }
}
