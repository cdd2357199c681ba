/**
 What the level-by-level search computes: distances, exact saturated path counts and
 one whole layer of bridge nodes, whichever side is expanded at each round.
 */
module SearchProof {
  import opened Options
  import opened Sums
  import opened Walks
  import opened Search

  /** The recorded level and count of `v` are the true ones, up to saturation. */
  ghost predicate Exact(h: Adjacency, x: nat, v: nat, reached: Reached) {
    && v < |h|
    && Depth(h, v, x, reached.dist)
    && reached.paths == Sat(Count(h, v, x, reached.dist))
  }

  /** Every node within `dist` edges of `x` has been visited. */
  ghost predicate Complete(h: Adjacency, x: nat, dist: nat, visited: Visited) {
    forall v: nat, k: nat | v < |h| && k <= dist && Count(h, v, x, k) > 0 :: v in visited
  }

  /**
   `side` is a complete search from `x`, up to level `side.dist`, over the edges that
   `h` holds reversed: walks from `x` to `v` are the walks of `h` from `v` to `x`.
   */
  ghost predicate SideInv(h: Adjacency, x: nat, side: Side) {
    && x < |h|
    && (forall v | v in side.visited :: side.visited[v].dist <= side.dist && Exact(h, x, v, side.visited[v]))
    && Complete(h, x, side.dist, side.visited)
    && Distinct(side.current)
    && (forall v :: v in side.current <==> v in side.visited && side.visited[v].dist == side.dist)
  }

  lemma StartInv(h: Adjacency, x: nat)
    requires x < |h|
    ensures SideInv(h, x, Start(x))
  {
    assert Count(h, x, x, 0) == 1;
  }

  // ---------- One level of one side ----------

  /** The shortest walks over the arcs seen so far, by the last node before `v`. */
  function ArrivalTerms(arcs: seq<(nat, nat)>, h: Adjacency, x: nat, k: nat, v: nat): nat -> nat {
    (u: nat) => if (u, v) in arcs then Count(h, u, x, k) else 0
  }

  /** Saturating at every arrival is saturating the true sum. */
  lemma {:induction false} ArrivalsSum(arcs: seq<(nat, nat)>, h: Adjacency, x: nat, k: nat, before: Visited, v: nat)
    requires Distinct(arcs)
    requires forall a | a in arcs :: a.0 < |h| && Paths(before, a.0) == Sat(Count(h, a.0, x, k))
    ensures Arrivals(arcs, before, v) == Sat(Sum(|h|, ArrivalTerms(arcs, h, x, k, v)))
  {
    hide Count, Sum;
    var terms := ArrivalTerms(arcs, h, x, k, v);
    if arcs == [] {
      SumPositive(|h|, terms);
    } else {
      var rest, last := arcs[..|arcs| - 1], arcs[|arcs| - 1];
      var fewer := ArrivalTerms(rest, h, x, k, v);
      ArrivalsSum(rest, h, x, k, before, v);
      assert arcs == rest + [last] && last !in rest;
      if last.1 == v {
        SumChange(|h|, fewer, terms, last.0);
        SatAddExact(Sum(|h|, fewer), Count(h, last.0, x, k));
      } else {
        SumEq(|h|, fewer, terms);
      }
    }
  }

  /** A node seen only now has its predecessor on the last level. */
  lemma Predecessor(h: Adjacency, x: nat, side: Side, v: nat, u: nat, k: nat)
    requires SideInv(h, x, side) && v < |h| && u < |h| && v !in side.visited
    requires Edge(h, v, u) && k <= side.dist && Count(h, u, x, k) > 0
    ensures u in side.current
  {
    hide Count;
    var d := side.visited[u].dist;
    CountStep(h, v, u, x, d);
  }

  /** In-neighbours of an unvisited node that are not on the frontier do not count. */
  lemma ArrivalsExact(g: Adjacency, h: Adjacency, x: nat, side: Side, v: nat)
    requires WellFormed(g, h) && SideInv(h, x, side)
    requires v !in side.visited && v < |h|
    ensures Arrivals(Arcs(g, side.current), side.visited, v) == Sat(Count(h, v, x, side.dist + 1))
  {
    hide Arcs, Arrivals, Sum;
    var arcs, k := Arcs(g, side.current), side.dist;
    ArcsDistinct(g, side.current);
    forall a | a in arcs ensures a.0 < |h| && Paths(side.visited, a.0) == Sat(Count(h, a.0, x, k)) {
      ArcsMember(g, side.current, a);
    }
    ArrivalsSum(arcs, h, x, k, side.visited, v);
    forall u: nat | u < |h| ensures ArrivalTerms(arcs, h, x, k, v)(u) == Via(h, v, x, k)(u) {
      ArcsMember(g, side.current, (u, v));
      assert Edge(g, u, v) <==> Edge(h, v, u);
      if Edge(h, v, u) && Count(h, u, x, k) > 0 {
        Predecessor(h, x, side, v, u, k);
      }
    }
    SumEq(|h|, ArrivalTerms(arcs, h, x, k, v), Via(h, v, x, k));
  }

  lemma FreshReached(g: Adjacency, h: Adjacency, x: nat, side: Side, v: nat)
    requires WellFormed(g, h) && SideInv(h, x, side)
    ensures v in Fresh(Arcs(g, side.current), side.visited) <==>
            v !in side.visited && v < |h| && Count(h, v, x, side.dist + 1) > 0
  {
    hide Count, Arcs, Fresh;
    var arcs := Arcs(g, side.current);
    FreshMember(arcs, side.visited, v);
    if v in Fresh(arcs, side.visited) {
      var u: nat :| (u, v) in arcs;
      ArcsMember(g, side.current, (u, v));
      assert Edge(h, v, u);
      CountStep(h, v, u, x, side.dist);
    }
    if v !in side.visited && v < |h| && Count(h, v, x, side.dist + 1) > 0 {
      var u := FirstEdge(h, v, x, side.dist + 1);
      Predecessor(h, x, side, v, u, side.dist);
      assert Edge(g, u, v);
      ArcsMember(g, side.current, (u, v));
    }
  }

  lemma NewNodeDepth(h: Adjacency, x: nat, dist: nat, visited: Visited, v: nat)
    requires Complete(h, x, dist, visited) && v < |h| && v !in visited && Count(h, v, x, dist + 1) > 0
    ensures Depth(h, v, x, dist + 1)
  {
    hide Count;
  }

  lemma NewNodeExact(g: Adjacency, h: Adjacency, x: nat, side: Side, v: nat)
    requires WellFormed(g, h) && SideInv(h, x, side)
    requires v in Fresh(Arcs(g, side.current), side.visited)
    ensures Exact(h, x, v, Reached(side.dist + 1, Arrivals(Arcs(g, side.current), side.visited, v)))
  {
    hide Count, Arcs, Fresh, Arrivals;
    FreshReached(g, h, x, side, v);
    ArrivalsExact(g, h, x, side, v);
    NewNodeDepth(h, x, side.dist, side.visited, v);
  }

  lemma StillComplete(g: Adjacency, h: Adjacency, x: nat, side: Side)
    requires WellFormed(g, h) && SideInv(h, x, side)
    ensures Complete(h, x, side.dist + 1, ExpandSide(g, side).visited)
  {
    hide Count, Arcs, Fresh, Arrivals;
    forall v: nat, k: nat | v < |h| && k <= side.dist + 1 && Count(h, v, x, k) > 0
      ensures v in ExpandSide(g, side).visited
    {
      FreshReached(g, h, x, side, v);
    }
  }

  /** Expanding a level keeps the side complete, with exact saturated counts. */
  lemma ExpandKeepsSide(g: Adjacency, h: Adjacency, x: nat, side: Side)
    requires WellFormed(g, h) && SideInv(h, x, side)
    ensures SideInv(h, x, ExpandSide(g, side))
  {
    hide Count, Arcs, Fresh, Arrivals;
    var after, arcs := ExpandSide(g, side), Arcs(g, side.current);
    var found := Fresh(arcs, side.visited);
    FreshMember(arcs, side.visited, 0);
    forall v | v in found ensures v !in side.visited {
      FreshMember(arcs, side.visited, v);
    }
    forall v | v in after.visited ensures after.visited[v].dist <= after.dist && Exact(h, x, v, after.visited[v]) {
      if v in found {
        NewNodeExact(g, h, x, side, v);
      } else {
        assert after.visited[v] == side.visited[v];
      }
    }
    StillComplete(g, h, x, side);
  }

  /** With an empty frontier nothing else can be reached. */
  lemma {:induction false} Exhausted(h: Adjacency, r: Adjacency, x: nat, side: Side, v: nat, k: nat)
    requires Transposed(h, r) && SideInv(h, x, side) && side.current == []
    requires v < |h| && Count(h, v, x, k) > 0
    ensures v in side.visited
    decreases k
  {
    hide Count;
    if k > side.dist {
      var u := FirstEdge(h, v, x, k);
      Exhausted(h, r, x, side, u, k - 1);
      CountStep(h, v, u, x, side.visited[u].dist);
    }
  }

  // ---------- Where the sides meet ----------

  /** Nothing connects `x` to `y` in at most `k` edges. */
  ghost predicate Apart(g: Adjacency, x: nat, y: nat, k: int) {
    forall j: nat | j <= k :: Count(g, x, y, j) == 0
  }

  /** Two complete searches that share no node: the ends are further apart than both levels together. */
  lemma DisjointApart(g: Adjacency, h: Adjacency, x: nat, y: nat, side: Side, other: Side)
    requires Transposed(g, h) && SideInv(h, x, side) && SideInv(g, y, other)
    requires side.visited.Keys !! other.visited.Keys
    ensures Apart(g, x, y, side.dist + other.dist)
  {
    hide Count;
    forall k: nat | k <= side.dist + other.dist ensures Count(g, x, y, k) == 0 {
      if Count(g, x, y, k) > 0 {
        var i := if k < side.dist then k else side.dist;
        var u := SplitWalk(g, h, x, y, i, k - i);
        assert false;
      }
    }
  }

  /** Where an arc of the frontier leads into the other side, it leads to that side's last level. */
  lemma MeetsLastLevel(g: Adjacency, h: Adjacency, x: nat, y: nat, side: Side, other: Side, u: nat, v: nat)
    requires Transposed(g, h) && SideInv(h, x, side) && SideInv(g, y, other)
    requires Apart(g, x, y, side.dist + other.dist)
    requires u in side.current && Edge(g, u, v) && v in other.visited
    ensures other.visited[v] == Reached(other.dist, Sat(Count(g, v, y, other.dist)))
  {
    hide Count;
    var d := other.visited[v].dist;
    CountStep(g, u, v, y, d);
    JoinCount(g, h, x, u, y, side.dist, d + 1);
    assert side.dist + (d + 1) > side.dist + other.dist;
  }

  /** The walks crossing the arcs seen so far into the other side. */
  function Met(arcs: seq<(nat, nat)>, g: Adjacency, h: Adjacency, x: nat, y: nat, a: nat, b: nat, other: Side)
    : (nat, nat) -> nat
  {
    (u: nat, v: nat) =>
      if (u, v) in arcs && v in other.visited then Count(h, u, x, a) * Count(g, v, y, b) else 0
  }

  ghost predicate MeetingArc(g: Adjacency, h: Adjacency, x: nat, y: nat, side: Side, other: Side, a: (nat, nat)) {
    && a.0 < |g| && a.1 < |g|
    && Paths(side.visited, a.0) == Sat(Count(h, a.0, x, side.dist))
    && (a.1 in other.visited ==> other.visited[a.1] == Reached(other.dist, Sat(Count(g, a.1, y, other.dist))))
  }

  lemma MetChange(n: nat, before: (nat, nat) -> nat, after: (nat, nat) -> nat, u: nat, v: nat)
    requires u < n && v < n && before(u, v) == 0
    requires forall i: nat, j: nat | i < n && j < n && (i, j) != (u, v) :: before(i, j) == after(i, j)
    ensures Sum(n, Rows(n, after)) == Sum(n, Rows(n, before)) + after(u, v)
  {
    SumChange(n, Row(before, u), Row(after, u), v);
    forall i: nat | i < n && i != u ensures Rows(n, before)(i) == Rows(n, after)(i) {
      SumEq(n, Row(before, i), Row(after, i));
    }
    SumChange(n, Rows(n, before), Rows(n, after), u);
  }

  lemma OneMore(meetings: seq<Meeting>, m: Meeting, total: nat, cu: nat, cv: nat)
    requires PathTotal(meetings) == Sat(total)
    requires m.fwdPaths == Sat(cu) && m.bwdPaths == Sat(cv)
    ensures PathTotal(meetings + [m]) == Sat(total + cu * cv)
  {
    assert (meetings + [m])[..|meetings|] == meetings;
    SatMulExact(cu, cv);
    SatAddExact(total, cu * cv);
  }

  /** A further meeting at the same distance is kept, and its product added. */
  lemma LastMeeting(found: (Option<nat>, seq<Meeting>), a: (nat, nat), side: Side, other: Side, forward: bool,
                    total: nat, cu: nat, cv: nat)
    requires found.0 == (if found.1 == [] then None else Some(side.dist + 1 + other.dist))
    requires PathTotal(found.1) == Sat(total)
    requires Paths(side.visited, a.0) == Sat(cu)
    requires a.1 in other.visited && other.visited[a.1] == Reached(other.dist, Sat(cv))
    ensures var after := MeetArc(found, a, side, other, forward);
            && after.1 != [] && after.0 == Some(side.dist + 1 + other.dist)
            && PathTotal(after.1) == Sat(total + cu * cv)
  {
    hide PathTotal;
    var m := if forward then Meeting(a.1, Sat(cu), Sat(cv)) else Meeting(a.1, Sat(cv), Sat(cu));
    assert found.1 == [] ==> found.1 + [m] == [m];
    assert MeetArc(found, a, side, other, forward) == (Some(side.dist + 1 + other.dist), found.1 + [m]);
    if forward {
      OneMore(found.1, m, total, cu, cv);
    } else {
      OneMore(found.1, m, total, cv, cu);
      assert cu * cv == cv * cu;
    }
  }

  lemma NothingMet(g: Adjacency, h: Adjacency, x: nat, y: nat, a: nat, b: nat, other: Side)
    ensures Sum(|g|, Rows(|g|, Met([], g, h, x, y, a, b, other))) == 0
  {
    hide Count;
    var table := Met([], g, h, x, y, a, b, other);
    forall u: nat | u < |g| ensures Rows(|g|, table)(u) == 0 {
      SumPositive(|g|, Row(table, u));
    }
    SumPositive(|g|, Rows(|g|, table));
  }

  lemma MetOneMore(rest: seq<(nat, nat)>, last: (nat, nat), g: Adjacency, h: Adjacency, x: nat, y: nat,
                   a: nat, b: nat, other: Side)
    requires last !in rest && last.0 < |g| && last.1 < |g|
    ensures Sum(|g|, Rows(|g|, Met(rest + [last], g, h, x, y, a, b, other))) ==
            Sum(|g|, Rows(|g|, Met(rest, g, h, x, y, a, b, other))) +
            (if last.1 in other.visited then Count(h, last.0, x, a) * Count(g, last.1, y, b) else 0)
  {
    hide Count, Sum;
    MetChange(|g|, Met(rest, g, h, x, y, a, b, other), Met(rest + [last], g, h, x, y, a, b, other), last.0, last.1);
  }

  /** All meetings lie at one distance; none is discarded, and their products add up exactly. */
  lemma {:induction false} MeetArcsExact(arcs: seq<(nat, nat)>, g: Adjacency, h: Adjacency, x: nat, y: nat,
                                         side: Side, other: Side, forward: bool)
    requires Distinct(arcs)
    requires forall a | a in arcs :: MeetingArc(g, h, x, y, side, other, a)
    ensures var found := MeetArcs((None, []), arcs, side, other, forward);
            && found.0 == (if found.1 == [] then None else Some(side.dist + 1 + other.dist))
            && PathTotal(found.1) == Sat(Sum(|g|, Rows(|g|, Met(arcs, g, h, x, y, side.dist, other.dist, other))))
  {
    hide Count, Sum;
    if arcs == [] {
      NothingMet(g, h, x, y, side.dist, other.dist, other);
    } else {
      var rest, last := arcs[..|arcs| - 1], arcs[|arcs| - 1];
      assert arcs == rest + [last] && last !in rest;
      assert MeetingArc(g, h, x, y, side, other, last);
      MeetArcsExact(rest, g, h, x, y, side, other, forward);
      MetOneMore(rest, last, g, h, x, y, side.dist, other.dist, other);
      if last.1 in other.visited {
        LastMeeting(MeetArcs((None, []), rest, side, other, forward), last, side, other, forward,
                    Sum(|g|, Rows(|g|, Met(rest, g, h, x, y, side.dist, other.dist, other))),
                    Count(h, last.0, x, side.dist), Count(g, last.1, y, other.dist));
      }
    }
  }

  /** Which nodes are met: the targets of the scanned arcs that the other side has visited. */
  lemma {:induction false} MeetArcsNodes(arcs: seq<(nat, nat)>, side: Side, other: Side, forward: bool, v: nat)
    requires forall a | a in arcs && a.1 in other.visited :: other.visited[a.1].dist == other.dist
    ensures var found := MeetArcs((None, []), arcs, side, other, forward);
            && (found.0.Some? ==> found.0 == Some(side.dist + 1 + other.dist))
            && (found.0.None? ==> found.1 == [])
            && ((exists m :: m in found.1 && m.node == v) <==> v in other.visited && exists u: nat :: (u, v) in arcs)
  {
    hide PathTotal;
    if arcs != [] {
      var rest, last := arcs[..|arcs| - 1], arcs[|arcs| - 1];
      assert arcs == rest + [last];
      MeetArcsNodes(rest, side, other, forward, v);
      var before, after := MeetArcs((None, []), rest, side, other, forward), MeetArcs((None, []), arcs, side, other, forward);
      if last.1 in other.visited {
        var m := after.1[|after.1| - 1];
        assert m.node == last.1 && after.1 == before.1 + [m];
        assert last == (last.0, last.1);
      }
    }
  }

  /** Each edge out of a frontier node either leads into the other side or cannot lead on to `y`. */
  lemma MetCell(arcs: seq<(nat, nat)>, g: Adjacency, h: Adjacency, x: nat, y: nat, a: nat, other: Side,
                onFrontier: bool, u: nat, v: nat)
    requires (u, v) in arcs <==> onFrontier && Edge(g, u, v)
    requires v in other.visited || Count(g, v, y, other.dist) == 0
    ensures Met(arcs, g, h, x, y, a, other.dist, other)(u, v) ==
            if onFrontier then Count(h, u, x, a) * Via(g, u, y, other.dist)(v) else 0
  {
    var cu, cv := Count(h, u, x, a), Via(g, u, y, other.dist)(v);
    if !Edge(g, u, v) || v !in other.visited {
      assert cv == 0;
      assert cu * cv == 0;
    }
  }

  lemma MetRow(g: Adjacency, h: Adjacency, x: nat, y: nat, side: Side, other: Side, u: nat)
    requires Complete(g, y, other.dist, other.visited)
    ensures Rows(|g|, Met(Arcs(g, side.current), g, h, x, y, side.dist, other.dist, other))(u) ==
            if u in side.current then Through(g, h, x, y, side.dist, other.dist + 1)(u) else 0
  {
    var row := Row(Met(Arcs(g, side.current), g, h, x, y, side.dist, other.dist, other), u);
    var c := if u in side.current then Count(h, u, x, side.dist) else 0;
    forall v: nat | v < |g| ensures row(v) == c * Via(g, u, y, other.dist)(v) {
      ArcsMember(g, side.current, (u, v));
      MetCell(Arcs(g, side.current), g, h, x, y, side.dist, other, u in side.current, u, v);
    }
    SumScale(|g|, Via(g, u, y, other.dist), row, c);
  }

  lemma OffFrontier(g: Adjacency, h: Adjacency, x: nat, y: nat, side: Side, b: nat, u: nat)
    requires Transposed(g, h) && SideInv(h, x, side) && u < |g| && u !in side.current
    requires Apart(g, x, y, side.dist + b)
    ensures Through(g, h, x, y, side.dist, b + 1)(u) == 0
  {
    hide Count;
    if Count(h, u, x, side.dist) > 0 && Count(g, u, y, b + 1) > 0 {
      JoinCount(g, h, x, u, y, side.visited[u].dist, b + 1);
      assert false;
    }
  }

  /** Off the frontier there is nothing to count; on it, every shortest walk crosses once. */
  lemma MetTotal(g: Adjacency, h: Adjacency, x: nat, y: nat, side: Side, other: Side)
    requires Transposed(g, h) && SideInv(h, x, side) && SideInv(g, y, other)
    requires Apart(g, x, y, side.dist + other.dist)
    ensures Sum(|g|, Rows(|g|, Met(Arcs(g, side.current), g, h, x, y, side.dist, other.dist, other))) ==
            Count(g, x, y, side.dist + 1 + other.dist)
  {
    hide Count, Sum, Arcs;
    var crossed := Rows(|g|, Met(Arcs(g, side.current), g, h, x, y, side.dist, other.dist, other));
    var through := Through(g, h, x, y, side.dist, other.dist + 1);
    forall u: nat | u < |g| ensures crossed(u) == through(u) {
      MetRow(g, h, x, y, side, other, u);
      if u !in side.current {
        OffFrontier(g, h, x, y, side, other.dist, u);
      }
    }
    SumEq(|g|, crossed, through);
    SplitCount(g, h, x, y, side.dist, other.dist + 1);
    assert side.dist + (other.dist + 1) == side.dist + 1 + other.dist;
  }

  /** `v` lies after `k` edges of a walk of `d` edges from `x` to `y`. */
  ghost predicate OnLayer(g: Adjacency, h: Adjacency, x: nat, y: nat, d: nat, k: nat, v: nat) {
    k <= d && v < |g| && Count(h, v, x, k) > 0 && Count(g, v, y, d - k) > 0
  }

  /** The meeting nodes are the whole layer just beyond the expanded side. */
  lemma MeetingLayer(g: Adjacency, h: Adjacency, x: nat, y: nat, side: Side, other: Side, v: nat)
    requires Transposed(g, h) && SideInv(h, x, side) && SideInv(g, y, other)
    requires Apart(g, x, y, side.dist + other.dist)
    ensures (v in other.visited && exists u: nat :: (u, v) in Arcs(g, side.current)) <==>
            OnLayer(g, h, x, y, side.dist + 1 + other.dist, side.dist + 1, v)
  {
    hide Count, Arcs;
    if v in other.visited && exists u: nat :: (u, v) in Arcs(g, side.current) {
      var u: nat :| (u, v) in Arcs(g, side.current);
      ArcsMember(g, side.current, (u, v));
      MeetsLastLevel(g, h, x, y, side, other, u, v);
      assert Edge(h, v, u);
      CountStep(h, v, u, x, side.dist);
    }
    if OnLayer(g, h, x, y, side.dist + 1 + other.dist, side.dist + 1, v) {
      var u := FirstEdge(h, v, x, side.dist + 1);
      assert Edge(g, u, v);
      CountStep(g, u, v, y, other.dist);
      JoinCount(g, h, x, u, y, side.visited[u].dist, other.dist + 1);
      assert side.visited[u].dist == side.dist;
      ArcsMember(g, side.current, (u, v));
    }
  }

  lemma FrontierArcs(g: Adjacency, h: Adjacency, x: nat, y: nat, side: Side, other: Side)
    requires WellFormed(g, h) && SideInv(h, x, side) && SideInv(g, y, other)
    requires Apart(g, x, y, side.dist + other.dist)
    ensures Distinct(Arcs(g, side.current))
    ensures forall a | a in Arcs(g, side.current) :: MeetingArc(g, h, x, y, side, other, a)
  {
    hide Count, Arcs;
    ArcsDistinct(g, side.current);
    forall a | a in Arcs(g, side.current) ensures MeetingArc(g, h, x, y, side, other, a) {
      ArcsMember(g, side.current, a);
      assert Edge(h, a.1, a.0);
      if a.1 in other.visited {
        MeetsLastLevel(g, h, x, y, side, other, a.0, a.1);
      }
    }
  }

  /** No meeting among the arcs: the sides still share no node. */
  lemma StillDisjoint(arcs: seq<(nat, nat)>, g: Adjacency, side: Side, other: Side, forward: bool)
    requires arcs == Arcs(g, side.current)
    requires forall a | a in arcs && a.1 in other.visited :: other.visited[a.1].dist == other.dist
    requires side.visited.Keys !! other.visited.Keys
    requires MeetArcs((None, []), arcs, side, other, forward).0.None?
    ensures ExpandSide(g, side).visited.Keys !! other.visited.Keys
  {
    hide Arcs, MeetArcs, Fresh, Arrivals;
    forall v | v in ExpandSide(g, side).visited ensures v !in other.visited {
      MeetArcsNodes(arcs, side, other, forward, v);
      FreshMember(arcs, side.visited, v);
    }
  }

  /** A meeting is a walk of exactly the next length. */
  lemma SomethingMet(g: Adjacency, h: Adjacency, x: nat, y: nat, side: Side, other: Side, forward: bool)
    requires Transposed(g, h) && SideInv(h, x, side) && SideInv(g, y, other)
    requires Apart(g, x, y, side.dist + other.dist)
    requires forall a | a in Arcs(g, side.current) :: MeetingArc(g, h, x, y, side, other, a)
    requires MeetArcs((None, []), Arcs(g, side.current), side, other, forward).1 != []
    ensures Depth(g, x, y, side.dist + 1 + other.dist)
  {
    hide Count, Arcs, MeetArcs, PathTotal;
    var arcs := Arcs(g, side.current);
    var m := MeetArcs((None, []), arcs, side, other, forward).1[0];
    assert m in MeetArcs((None, []), arcs, side, other, forward).1;
    MeetArcsNodes(arcs, side, other, forward, m.node);
    MeetingLayer(g, h, x, y, side, other, m.node);
    JoinCount(g, h, x, m.node, y, side.dist + 1, other.dist);
  }

  /** Expanding one side of a search that has not met: either still apart, or everything is known. */
  lemma ExpandMeets(g: Adjacency, h: Adjacency, x: nat, y: nat, side: Side, other: Side, forward: bool)
    requires WellFormed(g, h) && SideInv(h, x, side) && SideInv(g, y, other)
    requires side.visited.Keys !! other.visited.Keys
    ensures var found := MeetArcs((None, []), Arcs(g, side.current), side, other, forward);
            var d := side.dist + 1 + other.dist;
            if found.0.None? then found.1 == [] && ExpandSide(g, side).visited.Keys !! other.visited.Keys
            else found.0 == Some(d) && Depth(g, x, y, d) && PathTotal(found.1) == Sat(Count(g, x, y, d))
  {
    hide Count, Arcs, MeetArcs, Fresh, Arrivals, Sum, PathTotal;
    var arcs := Arcs(g, side.current);
    var found := MeetArcs((None, []), arcs, side, other, forward);
    DisjointApart(g, h, x, y, side, other);
    FrontierArcs(g, h, x, y, side, other);
    MeetArcsExact(arcs, g, h, x, y, side, other, forward);
    if found.1 == [] {
      StillDisjoint(arcs, g, side, other, forward);
    } else {
      MetTotal(g, h, x, y, side, other);
      SomethingMet(g, h, x, y, side, other, forward);
    }
  }
}
