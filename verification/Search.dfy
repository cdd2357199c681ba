/**
 The bidirectional breadth-first search as a function of two adjacency lists: level by
 level, with saturating path counts, up to the first level on which the sides meet.
 `Bfs` holds the in-place search that is proved to compute `Bidirectional`.
 */
module Search {
  import opened Options
  import opened Sums
  import opened Walks

  /** Level and saturated number of shortest walks of a visited node. */
  datatype Reached = Reached(dist: nat, paths: nat)

  type Visited = map<nat, Reached>

  datatype Side = Side(dist: nat, visited: Visited, current: seq<nat>)

  datatype Meeting = Meeting(node: nat, fwdPaths: nat, bwdPaths: nat)

  datatype State = State(fwd: Side, bwd: Side, best: Option<nat>, meetings: seq<Meeting>)

  datatype Outcome = Outcome(hops: Option<nat>, pathCount: nat, bridgeIds: seq<nat>)

  ghost predicate Distinct<T(!new)>(s: seq<T>) {
    forall i, j | 0 <= i < j < |s| :: s[i] != s[j]
  }

  function Paths(visited: Visited, u: nat): nat {
    if u in visited then visited[u].paths else 0
  }

  // ---------- One level ----------

  function ArcsOf(u: nat, vs: seq<nat>): seq<(nat, nat)> {
    if vs == [] then [] else ArcsOf(u, vs[..|vs| - 1]) + [(u, vs[|vs| - 1])]
  }

  /** The edges leaving the frontier, in the order the search scans them. */
  function Arcs(g: Adjacency, current: seq<nat>): seq<(nat, nat)> {
    if current == [] then []
    else
      var u := current[|current| - 1];
      Arcs(g, current[..|current| - 1]) + ArcsOf(u, if u < |g| then g[u] else [])
  }

  /** The next frontier: targets not visited before, in order of first occurrence. */
  function Fresh(arcs: seq<(nat, nat)>, before: Visited): seq<nat> {
    if arcs == [] then []
    else
      var next := Fresh(arcs[..|arcs| - 1], before);
      var v := arcs[|arcs| - 1].1;
      if v in before || v in next then next else next + [v]
  }

  /** The saturated sum of the counts of the frontier nodes with an edge to `v`. */
  function Arrivals(arcs: seq<(nat, nat)>, before: Visited, v: nat): nat {
    if arcs == [] then 0
    else
      var sum := Arrivals(arcs[..|arcs| - 1], before, v);
      var arc := arcs[|arcs| - 1];
      if arc.1 == v then SatAdd(sum, Paths(before, arc.0)) else sum
  }

  function Discover(arcs: seq<(nat, nat)>, before: Visited, dist: nat): Visited {
    before + map v | v in Fresh(arcs, before) :: Reached(dist, Arrivals(arcs, before, v))
  }

  function ExpandSide(g: Adjacency, side: Side): Side {
    var arcs := Arcs(g, side.current);
    Side(side.dist + 1, Discover(arcs, side.visited, side.dist + 1), Fresh(arcs, side.visited))
  }

  /** A meeting at total distance `total`: a shorter one discards the others. */
  function Meet(best: Option<nat>, meetings: seq<Meeting>, total: nat, m: Meeting): (Option<nat>, seq<Meeting>) {
    if best.None? || total < best.value then (Some(total), [m])
    else if best.value == total then (best, meetings + [m])
    else (best, meetings)
  }

  function MeetArc(found: (Option<nat>, seq<Meeting>), arc: (nat, nat), side: Side, other: Side, forward: bool)
    : (Option<nat>, seq<Meeting>)
  {
    if arc.1 in other.visited then
      var here, there := Paths(side.visited, arc.0), other.visited[arc.1].paths;
      Meet(found.0, found.1, side.dist + 1 + other.visited[arc.1].dist,
           if forward then Meeting(arc.1, here, there) else Meeting(arc.1, there, here))
    else found
  }

  function MeetArcs(found: (Option<nat>, seq<Meeting>), arcs: seq<(nat, nat)>, side: Side, other: Side, forward: bool)
    : (Option<nat>, seq<Meeting>)
  {
    if arcs == [] then found
    else MeetArc(MeetArcs(found, arcs[..|arcs| - 1], side, other, forward), arcs[|arcs| - 1], side, other, forward)
  }

  function ExpandForward(g: Adjacency, st: State): State {
    var found := MeetArcs((st.best, st.meetings), Arcs(g, st.fwd.current), st.fwd, st.bwd, true);
    State(ExpandSide(g, st.fwd), st.bwd, found.0, found.1)
  }

  function ExpandBackward(r: Adjacency, st: State): State {
    var found := MeetArcs((st.best, st.meetings), Arcs(r, st.bwd.current), st.bwd, st.fwd, false);
    State(st.fwd, ExpandSide(r, st.bwd), found.0, found.1)
  }

  // ---------- All levels ----------

  function Start(root: nat): Side {
    Side(0, map[root := Reached(0, 1)], [root])
  }

  function Initial(s: nat, t: nat): State {
    State(Start(s), Start(t), None, [])
  }

  predicate Done(st: State, maxHops: nat) {
    || st.fwd.current == []
    || st.bwd.current == []
    || (st.best.Some? && st.fwd.dist + st.bwd.dist >= st.best.value)
    || st.fwd.dist + st.bwd.dist >= maxHops
  }

  /** The program's choice: expand forward unless the backward frontier is smaller. */
  function SmallerFrontier(): State -> bool {
    (st: State) => |st.fwd.current| <= |st.bwd.current|
  }

  function Rounds(g: Adjacency, r: Adjacency, st: State, maxHops: nat, forward: State -> bool): State
    decreases maxHops - (st.fwd.dist + st.bwd.dist)
  {
    if Done(st, maxHops) then st
    else if forward(st) then Rounds(g, r, ExpandForward(g, st), maxHops, forward)
    else Rounds(g, r, ExpandBackward(r, st), maxHops, forward)
  }

  /** The saturated sum of the saturated products. */
  function PathTotal(meetings: seq<Meeting>): nat {
    if meetings == [] then 0
    else
      var m := meetings[|meetings| - 1];
      SatAdd(PathTotal(meetings[..|meetings| - 1]), SatMul(m.fwdPaths, m.bwdPaths))
  }

  /** The meeting nodes without repetition and without the endpoints. */
  function Bridges(meetings: seq<Meeting>, s: nat, t: nat): seq<nat> {
    if meetings == [] then []
    else
      var ids := Bridges(meetings[..|meetings| - 1], s, t);
      var v := meetings[|meetings| - 1].node;
      if v != s && v != t && v !in ids then ids + [v] else ids
  }

  function Finish(st: State, s: nat, t: nat, maxHops: nat): Outcome {
    if st.best.Some? && st.best.value <= maxHops
    then Outcome(st.best, PathTotal(st.meetings), Bridges(st.meetings, s, t))
    else Outcome(None, 0, [])
  }

  function Bidirectional(g: Adjacency, r: Adjacency, s: nat, t: nat, maxHops: nat, forward: State -> bool): Outcome {
    Finish(Rounds(g, r, Initial(s, t), maxHops, forward), s, t, maxHops)
  }

  /** How many rounds of the search expand forward. */
  function ForwardLevels(g: Adjacency, r: Adjacency, s: nat, t: nat, maxHops: nat, forward: State -> bool): nat {
    Rounds(g, r, Initial(s, t), maxHops, forward).fwd.dist
  }

  // ---------- Arcs ----------

  lemma {:induction false} ArcsOfMember(u: nat, vs: seq<nat>, a: (nat, nat))
    ensures a in ArcsOf(u, vs) <==> a.0 == u && a.1 in vs
  {
    if vs != [] {
      ArcsOfMember(u, vs[..|vs| - 1], a);
      assert vs == vs[..|vs| - 1] + [vs[|vs| - 1]];
    }
  }

  lemma {:induction false} ArcsMember(g: Adjacency, current: seq<nat>, a: (nat, nat))
    ensures a in Arcs(g, current) <==> a.0 in current && Edge(g, a.0, a.1)
  {
    if current != [] {
      var u := current[|current| - 1];
      ArcsMember(g, current[..|current| - 1], a);
      ArcsOfMember(u, if u < |g| then g[u] else [], a);
      assert current == current[..|current| - 1] + [u];
    }
  }

  lemma {:induction false} ArcsOfDistinct(u: nat, vs: seq<nat>)
    requires Distinct(vs)
    ensures Distinct(ArcsOf(u, vs))
  {
    if vs != [] {
      ArcsOfDistinct(u, vs[..|vs| - 1]);
      ArcsOfMember(u, vs[..|vs| - 1], (u, vs[|vs| - 1]));
    }
  }

  lemma DistinctConcat<T(!new)>(a: seq<T>, b: seq<T>)
    requires Distinct(a) && Distinct(b)
    requires forall x :: x in a ==> x !in b
    ensures Distinct(a + b)
  {
    forall i, j | 0 <= i < j < |a + b| ensures (a + b)[i] != (a + b)[j] {
      if i < |a| <= j {
        assert a[i] in a && b[j - |a|] in b;
      }
    }
  }

  lemma {:induction false} ArcsDistinct(g: Adjacency, current: seq<nat>)
    requires AllSorted(g) && Distinct(current)
    ensures Distinct(Arcs(g, current))
  {
    if current != [] {
      var u, rest := current[|current| - 1], current[..|current| - 1];
      var vs := if u < |g| then g[u] else [];
      ArcsDistinct(g, rest);
      ArcsOfDistinct(u, vs);
      forall a | a in Arcs(g, rest) && a in ArcsOf(u, vs) ensures false {
        ArcsMember(g, rest, a);
        ArcsOfMember(u, vs, a);
      }
      DistinctConcat(Arcs(g, rest), ArcsOf(u, vs));
    }
  }

  lemma {:induction false} FreshMember(arcs: seq<(nat, nat)>, before: Visited, v: nat)
    ensures v in Fresh(arcs, before) <==> v !in before && exists u: nat :: (u, v) in arcs
    ensures Distinct(Fresh(arcs, before))
  {
    if arcs != [] {
      var last := arcs[|arcs| - 1];
      FreshMember(arcs[..|arcs| - 1], before, v);
      assert arcs == arcs[..|arcs| - 1] + [last];
      assert last == (last.0, last.1);
    }
  }
}
