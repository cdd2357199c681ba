/**
 A node that was just created has no edges yet. No query can tell it from an unknown one,
 so it does not matter that lookups may see its id before the revision moves.
 */
module NewNodes {
  import opened Options
  import opened Walks
  import opened Search
  import opened SearchTheorems
  import opened Bfs
  import opened Distances
  import opened GraphData

  lemma {:induction false} SameArcs(g: Adjacency, current: seq<nat>)
    requires forall u | u in current :: u < |g|
    ensures Arcs(g + [[]], current) == Arcs(g, current)
  {
    if current != [] {
      var u, rest := current[|current| - 1], current[..|current| - 1];
      assert forall w | w in rest :: w in current;
      SameArcs(g, rest);
    }
  }

  ghost predicate FrontiersIn(n: nat, st: State) {
    (forall u | u in st.fwd.current :: u < n) && forall u | u in st.bwd.current :: u < n
  }

  lemma NextInRange(g: Adjacency, side: Side)
    requires InRange(g)
    ensures forall u | u in ExpandSide(g, side).current :: u < |g|
  {
    hide Arcs, Fresh;
    var arcs := Arcs(g, side.current);
    forall u | u in Fresh(arcs, side.visited) ensures u < |g| {
      FreshMember(arcs, side.visited, u);
      var w: nat :| (w, u) in arcs;
      ArcsMember(g, side.current, (w, u));
    }
  }

  /** The search never looks at a row it has no reason to visit. */
  lemma {:induction false} SameRounds(g: Adjacency, r: Adjacency, st: State, maxHops: nat, forward: State -> bool)
    requires |g| == |r| && InRange(g) && InRange(r) && FrontiersIn(|g|, st)
    ensures Rounds(g + [[]], r + [[]], st, maxHops, forward) == Rounds(g, r, st, maxHops, forward)
    decreases maxHops - (st.fwd.dist + st.bwd.dist)
  {
    hide Arcs, Fresh, MeetArcs;
    if !Done(st, maxHops) {
      SameArcs(g, st.fwd.current);
      SameArcs(r, st.bwd.current);
      if forward(st) {
        assert ExpandForward(g + [[]], st) == ExpandForward(g, st);
        NextInRange(g, st.fwd);
        SameRounds(g, r, ExpandForward(g, st), maxHops, forward);
      } else {
        assert ExpandBackward(r + [[]], st) == ExpandBackward(r, st);
        NextInRange(r, st.bwd);
        SameRounds(g, r, ExpandBackward(r, st), maxHops, forward);
      }
    }
  }

  lemma {:induction false} SameNames(names: seq<string>, pk: string, vs: seq<nat>)
    requires forall v | v in vs :: v < |names|
    ensures Resolve(names + [pk], vs) == Resolve(names, vs)
  {
    if vs != [] {
      var v, rest := vs[|vs| - 1], vs[..|vs| - 1];
      assert v in vs && forall w | w in rest :: w in vs;
      SameNames(names, pk, rest);
    }
  }

  lemma BridgesInRange(g: Adjacency, r: Adjacency, s: nat, t: nat, maxHops: nat, o: Outcome, k: nat)
    requires Correct(g, r, s, t, maxHops, o, k)
    ensures forall v | v in o.bridgeIds :: v < |g|
  {
    hide Count, WalkSet;
  }

  /** Between known nodes the new row changes neither the distance nor the bridges. */
  lemma SameBetweenKnown(tp: Topology, pk: string, q: Query, s: nat, t: nat)
    requires ValidTopology(tp) && s < |tp.names| && t < |tp.names| && s != t
    ensures DistanceById(tp.names + [pk], tp.follows + [[]], tp.followers + [[]], q, s, t) ==
            DistanceById(tp.names, tp.follows, tp.followers, q, s, t)
  {
    hide Rounds, Resolve;
    var g, r := tp.follows, tp.followers;
    InRangeBothWays(tp);
    SameRounds(g, r, Initial(s, t), q.maxHops, SmallerFrontier());
    BidirectionalCorrect(g, r, s, t, q.maxHops, SmallerFrontier());
    var o := Bidirectional(g, r, s, t, q.maxHops, SmallerFrontier());
    BridgesInRange(g, r, s, t, q.maxHops, o, ForwardLevels(g, r, s, t, q.maxHops, SmallerFrontier()));
    SameNames(tp.names, pk, o.bridgeIds);
    assert Edge(g + [[]], s, t) == Edge(g, s, t) && Edge(g + [[]], t, s) == Edge(g, t, s);
  }

  /** No walk enters or leaves a node without edges. */
  lemma NoWalk(g: Adjacency, r: Adjacency, s: nat, t: nat, k: nat)
    requires Transposed(g, r) && s < |g| && t < |g| && s != t
    requires g[s] == [] || r[t] == []
    ensures Count(g, s, t, k) == 0
  {
    hide Sums.Sum;
    if k > 0 && Count(g, s, t, k) > 0 {
      if g[s] == [] {
        var v := FirstEdge(g, s, t, k);
        assert false;
      } else {
        ReverseCount(g, r, s, t, k);
        var v := FirstEdge(r, t, s, k);
        assert false;
      }
    }
  }

  lemma NoValue(o: Option<nat>)
    requires forall d: nat :: o != Some(d)
    ensures o == None
  {
    var d := if o.Some? then o.value else 0;
    assert o != Some(d);
  }

  lemma NotFoundAtNew(tp: Topology, q: Query, s: nat, t: nat)
    requires ValidTopology(tp) && s < |tp.names| && t < |tp.names| && s != t
    requires tp.follows[s] == [] || tp.followers[t] == []
    ensures DistanceById(tp.names, tp.follows, tp.followers, q, s, t) == NotFound(q.from, q.to)
  {
    hide Rounds, Resolve, Bidirectional, Count;
    var g, r := tp.follows, tp.followers;
    BidirectionalCorrect(g, r, s, t, q.maxHops, SmallerFrontier());
    var o := Bidirectional(g, r, s, t, q.maxHops, SmallerFrontier());
    forall d: nat ensures o.hops != Some(d) {
      NoWalk(g, r, s, t, d);
    }
    assert Edge(r, t, s) <==> Edge(g, s, t);
    NoValue(o.hops);
  }

  /** Creating a node changes no answer to any query, involving it or not. */
  lemma NewNodeInvisible(tp: Topology, pk: string, q: Query)
    requires ValidTopology(tp) && pk !in tp.ids
    ensures Distance(WithNode(tp, pk), q) == Distance(tp, q)
  {
    hide DistanceById;
    var after := WithNode(tp, pk);
    WithNodeValid(tp, pk);
    if q.from != q.to && q.from in after.ids && q.to in after.ids {
      var s, t := after.ids[q.from], after.ids[q.to];
      if q.from in tp.ids && q.to in tp.ids {
        SameBetweenKnown(tp, pk, q, s, t);
      } else {
        assert s != t;
        NotFoundAtNew(after, q, s, t);
      }
    }
  }
}
