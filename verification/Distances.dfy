/** Distance queries between public keys: the answer, what it means, and how it is computed. */
module Distances {
  import opened Options
  import opened Sums
  import opened Walks
  import Search
  import opened SearchProof
  import opened SearchTheorems
  import opened Layers
  import opened SortedLists
  import opened Bfs

  /** The follow graph as readers see it: names by id, ids by name, and both adjacency vectors. */
  datatype Topology = Topology(names: seq<string>, ids: map<string, nat>, follows: Adjacency, followers: Adjacency)

  ghost predicate Bijection(names: seq<string>, ids: map<string, nat>) {
    && (forall i | 0 <= i < |names| :: names[i] in ids && ids[names[i]] == i)
    && (forall pk | pk in ids :: ids[pk] < |names| && names[ids[pk]] == pk)
  }

  ghost predicate ValidTopology(tp: Topology) {
    && Bijection(tp.names, tp.ids)
    && |tp.names| == |tp.follows|
    && WellFormed(tp.follows, tp.followers)
  }

  datatype Query = Query(from: string, to: string, maxHops: nat, includeBridges: bool)

  datatype DistanceResult = DistanceResult(from: string, to: string, hops: Option<nat>, pathCount: nat,
                                           mutualFollow: bool, bridges: Option<seq<string>>)

  function NotFound(from: string, to: string): DistanceResult {
    DistanceResult(from, to, None, 0, false, None)
  }

  function SameNode(pubkey: string): DistanceResult {
    DistanceResult(pubkey, pubkey, Some(0), 1, false, None)
  }

  /** The names of the ids that have one. */
  function Resolve(names: seq<string>, ids: seq<nat>): seq<string> {
    if ids == [] then []
    else
      var id := ids[|ids| - 1];
      Resolve(names, ids[..|ids| - 1]) + if id < |names| then [names[id]] else []
  }

  /** The answer once both ids are known. */
  function DistanceById(names: seq<string>, follows: Adjacency, followers: Adjacency, q: Query, s: nat, t: nat)
    : DistanceResult
  {
    var mutual := Edge(follows, s, t) && Edge(follows, t, s);
    if q.maxHops > 0 && Edge(follows, s, t) then
      DistanceResult(q.from, q.to, Some(1), 1, mutual, if q.includeBridges then Some([]) else None)
    else
      var o := Search.Bidirectional(follows, followers, s, t, q.maxHops, Search.SmallerFrontier());
      if o.hops.None? then NotFound(q.from, q.to)
      else DistanceResult(q.from, q.to, o.hops, o.pathCount, mutual,
                          if q.includeBridges then Some(Resolve(names, o.bridgeIds)) else None)
  }

  /** The answer `compute_distance` gives on a topology. */
  function Distance(tp: Topology, q: Query): DistanceResult {
    if q.from == q.to then SameNode(q.from)
    else if q.from !in tp.ids || q.to !in tp.ids then NotFound(q.from, q.to)
    else DistanceById(tp.names, tp.follows, tp.followers, q, tp.ids[q.from], tp.ids[q.to])
  }

  // ---------- What the answer means ----------

  predicate Follows(tp: Topology, a: string, b: string) {
    a in tp.ids && b in tp.ids && Edge(tp.follows, tp.ids[a], tp.ids[b])
  }

  /** A chain of `k` follows from `a` to `b`. */
  ghost predicate Chain(tp: Topology, p: seq<string>, a: string, b: string, k: nat) {
    && |p| == k + 1 && p[0] == a && p[k] == b
    && forall i {:trigger p[i]} | 0 <= i < k :: Follows(tp, p[i], p[i + 1])
  }

  ghost predicate ShortestChain(tp: Topology, a: string, b: string, d: nat) {
    && (exists p :: Chain(tp, p, a, b, d))
    && forall p, k: nat :: Chain(tp, p, a, b, k) ==> d <= k
  }

  /** `count` is the number of shortest chains, capped at the largest `u64`. */
  ghost predicate CountsChains(tp: Topology, a: string, b: string, d: nat, count: nat) {
    exists ps: set<seq<string>> ::
      && (forall p :: p in ps <==> Chain(tp, p, a, b, d))
      && (|ps| < 0x1_0000_0000_0000_0000 ==> count == |ps|)
      && (|ps| >= 0x1_0000_0000_0000_0000 ==> count == 0xFFFF_FFFF_FFFF_FFFF)
  }

  /** Each bridge is an inner node `k` follows from `a` on a shortest chain, and all of those are bridges. */
  ghost predicate BridgesAt(tp: Topology, a: string, b: string, d: nat, k: nat, bridges: seq<string>) {
    && k <= d && Search.Distinct(bridges)
    && forall x :: x in bridges <==> x != a && x != b && exists p :: Chain(tp, p, a, b, d) && p[k] == x
  }

  /** The keys exactly `j` follows away from `a`, and those `a` is exactly `j` follows away from. */
  ghost function FollowLevel(tp: Topology, a: string, j: nat): set<string> {
    set x | x in tp.ids && ShortestChain(tp, a, x, j)
  }

  ghost function FollowerLevel(tp: Topology, a: string, j: nat): set<string> {
    set x | x in tp.ids && ShortestChain(tp, x, a, j)
  }

  ghost function FollowSizes(tp: Topology, a: string): nat -> nat {
    (j: nat) => |FollowLevel(tp, a, j)|
  }

  ghost function FollowerSizes(tp: Topology, a: string): nat -> nat {
    (j: nat) => |FollowerLevel(tp, a, j)|
  }

  /** How far from `a` the search finds its bridges: it always grows the side whose last level is not larger. */
  ghost function BridgeDepth(tp: Topology, a: string, b: string, d: nat): nat {
    SplitDepth(FollowSizes(tp, a), FollowerSizes(tp, b), d, 0, 0)
  }

  /**
   What the bridges say: all inner keys at one depth, which is not the source's. There are none
   exactly if every level before the target has a single key; otherwise each shortest chain
   passes exactly one of them, at that depth.
   */
  ghost predicate BridgesTruthful(tp: Topology, a: string, b: string, d: nat, bridges: seq<string>) {
    var k := BridgeDepth(tp, a, b, d);
    && 0 < k && BridgesAt(tp, a, b, d, k, bridges)
    && (bridges == [] <==> forall j: nat | j < d :: |FollowLevel(tp, a, j)| == 1)
    && (bridges != [] ==> k < d && forall p, j: nat | Chain(tp, p, a, b, d) && j <= d :: p[j] in bridges <==> j == k)
  }

  function NamePath(tp: Topology, p: seq<nat>): (q: seq<string>)
    requires forall i | 0 <= i < |p| :: p[i] < |tp.names|
    ensures |q| == |p| && forall i | 0 <= i < |p| :: q[i] == tp.names[p[i]]
  {
    seq(|p|, i requires 0 <= i < |p| => tp.names[p[i]])
  }

  function IdPath(tp: Topology, q: seq<string>): (p: seq<nat>)
    requires forall i | 0 <= i < |q| :: q[i] in tp.ids
    ensures |p| == |q| && forall i | 0 <= i < |q| :: p[i] == tp.ids[q[i]]
  {
    seq(|q|, i requires 0 <= i < |q| => tp.ids[q[i]])
  }

  /** A walk of known ids stays in range. */
  lemma WalkInRange(tp: Topology, p: seq<nat>, k: nat, s: nat, t: nat)
    requires ValidTopology(tp) && WalkFromTo(tp.follows, p, s, t, k) && s < |tp.names|
    ensures forall i | 0 <= i < |p| :: p[i] < |tp.names|
  {
    forall i | 0 <= i < |p| ensures p[i] < |tp.names| {
      if i > 0 {
        assert Edge(tp.follows, p[i - 1], p[i - 1 + 1]);
        assert Edge(tp.followers, p[i], p[i - 1]);
      }
    }
  }

  /** Walks of ids and chains of names are the same thing. */
  lemma WalkIsChain(tp: Topology, p: seq<nat>, k: nat, a: string, b: string)
    requires ValidTopology(tp) && a in tp.ids && b in tp.ids
    requires WalkFromTo(tp.follows, p, tp.ids[a], tp.ids[b], k)
    ensures forall i | 0 <= i < |p| :: p[i] < |tp.names|
    ensures Chain(tp, NamePath(tp, p), a, b, k)
  {
    WalkInRange(tp, p, k, tp.ids[a], tp.ids[b]);
    var q := NamePath(tp, p);
    forall i {:trigger q[i]} | 0 <= i < k ensures Follows(tp, q[i], q[i + 1]) {
      assert Edge(tp.follows, p[i], p[i + 1]);
    }
  }

  lemma ChainIsWalk(tp: Topology, q: seq<string>, k: nat, a: string, b: string)
    requires ValidTopology(tp) && a in tp.ids && Chain(tp, q, a, b, k)
    ensures forall i | 0 <= i < |q| :: q[i] in tp.ids
    ensures WalkFromTo(tp.follows, IdPath(tp, q), tp.ids[a], tp.ids[b], k)
  {
    forall i | 0 <= i < |q| ensures q[i] in tp.ids {
      if i > 0 {
        assert Follows(tp, q[i - 1], q[i - 1 + 1]);
      }
    }
    var p := IdPath(tp, q);
    forall i {:trigger p[i]} | 0 <= i < |p| - 1 ensures Edge(tp.follows, p[i], p[i + 1]) {
      assert Follows(tp, q[i], q[i + 1]);
    }
  }

  ghost function ChainsOf(tp: Topology, ws: set<seq<nat>>): set<seq<string>>
    requires forall p, i | p in ws && 0 <= i < |p| :: p[i] < |tp.names|
  {
    set p | p in ws :: NamePath(tp, p)
  }

  lemma NamesInjective(tp: Topology, w: seq<nat>, p: seq<nat>)
    requires Bijection(tp.names, tp.ids)
    requires (forall i | 0 <= i < |w| :: w[i] < |tp.names|) && forall i | 0 <= i < |p| :: p[i] < |tp.names|
    requires NamePath(tp, w) == NamePath(tp, p)
    ensures w == p
  {
    forall i | 0 <= i < |p| ensures w[i] == p[i] {
      assert NamePath(tp, w)[i] == NamePath(tp, p)[i];
      assert tp.ids[tp.names[w[i]]] == w[i] && tp.ids[tp.names[p[i]]] == p[i];
    }
  }

  lemma {:induction false} ChainsOfSize(tp: Topology, ws: set<seq<nat>>)
    requires Bijection(tp.names, tp.ids)
    requires forall p, i | p in ws && 0 <= i < |p| :: p[i] < |tp.names|
    ensures |ChainsOf(tp, ws)| == |ws|
  {
    if ws != {} {
      var p :| p in ws;
      ChainsOfSize(tp, ws - {p});
      assert ChainsOf(tp, ws) == ChainsOf(tp, ws - {p}) + {NamePath(tp, p)};
      forall w | w in ws - {p} ensures NamePath(tp, w) != NamePath(tp, p) {
        if NamePath(tp, w) == NamePath(tp, p) {
          NamesInjective(tp, w, p);
          assert false;
        }
      }
    }
  }

  /** Counting walks of ids is counting chains of names. */
  lemma ChainsCounted(tp: Topology, a: string, b: string, d: nat, count: nat)
    requires ValidTopology(tp) && a in tp.ids && b in tp.ids
    requires var walks := |WalkSet(tp.follows, tp.ids[a], tp.ids[b], d)|;
             && (walks < 0x1_0000_0000_0000_0000 ==> count == walks)
             && (walks >= 0x1_0000_0000_0000_0000 ==> count == 0xFFFF_FFFF_FFFF_FFFF)
    ensures CountsChains(tp, a, b, d, count)
  {
    hide WalkSet;
    var s, t := tp.ids[a], tp.ids[b];
    var ws := WalkSet(tp.follows, s, t, d);
    forall p ensures p in ws <==> WalkFromTo(tp.follows, p, s, t, d) {
      WalksAreTheWalks(tp.follows, tp.followers, s, t, d, p);
    }
    forall p, i | p in ws && 0 <= i < |p| ensures p[i] < |tp.names| {
      WalkInRange(tp, p, d, s, t);
    }
    ChainsOfSize(tp, ws);
    forall q ensures q in ChainsOf(tp, ws) <==> Chain(tp, q, a, b, d) {
      if q in ChainsOf(tp, ws) {
        var p :| p in ws && q == NamePath(tp, p);
        WalkIsChain(tp, p, d, a, b);
      }
      if Chain(tp, q, a, b, d) {
        ChainIsWalk(tp, q, d, a, b);
        assert NamePath(tp, IdPath(tp, q)) == q;
      }
    }
  }

  lemma ChainExists(tp: Topology, a: string, b: string, k: nat)
    requires ValidTopology(tp) && a in tp.ids && b in tp.ids
    ensures (exists q :: Chain(tp, q, a, b, k)) <==> Count(tp.follows, tp.ids[a], tp.ids[b], k) > 0
  {
    hide Count;
    CountPositive(tp.follows, tp.followers, tp.ids[a], tp.ids[b], k);
    if q :| Chain(tp, q, a, b, k) {
      ChainIsWalk(tp, q, k, a, b);
    }
    if p :| WalkFromTo(tp.follows, p, tp.ids[a], tp.ids[b], k) {
      WalkIsChain(tp, p, k, a, b);
    }
  }

  lemma DepthIsShortest(tp: Topology, a: string, b: string, d: nat)
    requires ValidTopology(tp) && a in tp.ids && b in tp.ids
    ensures Depth(tp.follows, tp.ids[a], tp.ids[b], d) <==> ShortestChain(tp, a, b, d)
  {
    hide Count;
    forall k: nat ensures (exists q :: Chain(tp, q, a, b, k)) <==> Count(tp.follows, tp.ids[a], tp.ids[b], k) > 0 {
      ChainExists(tp, a, b, k);
    }
    if Depth(tp.follows, tp.ids[a], tp.ids[b], d) {
      forall p, k: nat | Chain(tp, p, a, b, k) ensures d <= k {
        assert Count(tp.follows, tp.ids[a], tp.ids[b], k) > 0;
      }
    }
  }

  // ---------- One direct follow ----------

  lemma DirectCount(g: Adjacency, s: nat, t: nat)
    requires Edge(g, s, t) && t < |g| && s != t
    ensures Depth(g, s, t, 1) && Count(g, s, t, 1) == 1
  {
    SumSingle(|g|, Via(g, s, t, 0), t);
  }

  /** The shortcut for a direct follow gives what the search promises. */
  lemma DirectCorrect(g: Adjacency, r: Adjacency, s: nat, t: nat, maxHops: nat)
    requires WellFormed(g, r) && s < |g| && t < |g| && s != t && Edge(g, s, t) && maxHops > 0
    ensures Correct(g, r, s, t, maxHops, Search.Outcome(Some(1), 1, []), MeetingDepth(g, r, s, t, 1))
    ensures Cuts(g, r, s, t, 1, MeetingDepth(g, r, s, t, 1), [])
  {
    hide WalkSet, Cuts, Level;
    DirectCount(g, s, t);
    CountIsCardinality(g, r, s, t, 1);
    DepthUnique(g, s, t, 1);
    StartLevel(r, s);
    StartLevel(g, t);
    assert LevelSizes(r, s)(0) == 1 && LevelSizes(g, t)(0) == 1;
    assert BridgeLayer(g, r, s, t, 1, 1, []);
    MeetingLayerCuts(g, r, s, t, 1, []);
  }

  // ---------- Bridges by name ----------

  lemma {:induction false} ResolveMember(names: seq<string>, ids: map<string, nat>, vs: seq<nat>, x: string)
    requires Bijection(names, ids) && forall i | 0 <= i < |vs| :: vs[i] < |names|
    ensures |Resolve(names, vs)| == |vs| && forall i | 0 <= i < |vs| :: Resolve(names, vs)[i] == names[vs[i]]
    ensures x in Resolve(names, vs) <==> x in ids && ids[x] in vs
  {
    if vs != [] {
      ResolveMember(names, ids, vs[..|vs| - 1], x);
      assert vs == vs[..|vs| - 1] + [vs[|vs| - 1]];
    }
  }

  /** Two walks that meet at a node form one. */
  lemma JoinWalks(g: Adjacency, p: seq<nat>, q: seq<nat>, s: nat, v: nat, t: nat, k: nat, j: nat)
    requires WalkFromTo(g, p, s, v, k) && WalkFromTo(g, q, v, t, j)
    ensures WalkFromTo(g, p + q[1..], s, t, k + j) && (p + q[1..])[k] == v
  {
    var w := p + q[1..];
    forall i {:trigger w[i]} | 0 <= i < |w| - 1 ensures Edge(g, w[i], w[i + 1]) {
      if i < k {
        assert p[i] == w[i] && p[i + 1] == w[i + 1];
      } else {
        assert q[i - k] == w[i] && q[i - k + 1] == w[i + 1];
      }
    }
    assert j > 0 ==> w[k + j] == q[j];
  }

  /** A chain through a key at depth `k` puts the key's node on the layer. */
  lemma ChainOnLayer(tp: Topology, p: seq<string>, a: string, b: string, d: nat, k: nat)
    requires ValidTopology(tp) && a in tp.ids && b in tp.ids && Chain(tp, p, a, b, d) && k <= d
    ensures p[k] in tp.ids && OnLayer(tp.follows, tp.followers, tp.ids[a], tp.ids[b], d, k, tp.ids[p[k]])
  {
    ChainIsWalk(tp, p, d, a, b);
    hide Count, Chain, IsWalk;
    WalkParts(tp.follows, tp.followers, IdPath(tp, p), tp.ids[a], tp.ids[b], d, k);
  }

  /** A node on the layer has a chain through it. */
  lemma LayerChain(tp: Topology, a: string, b: string, d: nat, k: nat, v: nat)
    returns (q: seq<string>)
    requires ValidTopology(tp) && a in tp.ids && b in tp.ids && v < |tp.names| && k <= d
    requires OnLayer(tp.follows, tp.followers, tp.ids[a], tp.ids[b], d, k, v)
    ensures Chain(tp, q, a, b, d) && q[k] == tp.names[v]
  {
    hide Count, Chain, IsWalk;
    var g, r, s, t := tp.follows, tp.followers, tp.ids[a], tp.ids[b];
    ReverseCount(g, r, s, v, k);
    CountPositive(g, r, s, v, k);
    CountPositive(g, r, v, t, d - k);
    var p :| WalkFromTo(g, p, s, v, k);
    var p' :| WalkFromTo(g, p', v, t, d - k);
    JoinWalks(g, p, p', s, v, t, k, d - k);
    WalkIsChain(tp, p + p'[1..], d, a, b);
    q := NamePath(tp, p + p'[1..]);
  }

  /** A node is on the layer exactly when some walk of that length passes it there. */
  lemma LayerNode(tp: Topology, a: string, b: string, d: nat, k: nat, v: nat)
    requires ValidTopology(tp) && a in tp.ids && b in tp.ids && v < |tp.names| && k <= d
    ensures OnLayer(tp.follows, tp.followers, tp.ids[a], tp.ids[b], d, k, v) <==>
            exists p :: Chain(tp, p, a, b, d) && p[k] == tp.names[v]
  {
    hide Count, OnLayer;
    if p :| Chain(tp, p, a, b, d) && p[k] == tp.names[v] {
      ChainOnLayer(tp, p, a, b, d, k);
    }
    if OnLayer(tp.follows, tp.followers, tp.ids[a], tp.ids[b], d, k, v) {
      var q := LayerChain(tp, a, b, d, k, v);
    }
  }

  lemma BridgeNames(tp: Topology, a: string, b: string, d: nat, k: nat, ids: seq<nat>)
    requires ValidTopology(tp) && a in tp.ids && b in tp.ids
    requires BridgeLayer(tp.follows, tp.followers, tp.ids[a], tp.ids[b], d, k, ids)
    ensures BridgesAt(tp, a, b, d, k, Resolve(tp.names, ids))
  {
    hide Count, Resolve;
    var bridges := Resolve(tp.names, ids);
    assert forall i | 0 <= i < |ids| :: ids[i] in ids;
    ResolveMember(tp.names, tp.ids, ids, a);
    forall i, j | 0 <= i < j < |bridges| ensures bridges[i] != bridges[j] {
      assert tp.ids[bridges[i]] == ids[i] && tp.ids[bridges[j]] == ids[j];
    }
    forall x ensures x in bridges <==> x != a && x != b && exists p :: Chain(tp, p, a, b, d) && p[k] == x {
      ResolveMember(tp.names, tp.ids, ids, x);
      if p :| Chain(tp, p, a, b, d) && p[k] == x {
        ChainIsWalk(tp, p, d, a, b);
      }
      if x in tp.ids {
        LayerNode(tp, a, b, d, k, tp.ids[x]);
        assert x == a <==> tp.ids[x] == tp.ids[a];
        assert x == b <==> tp.ids[x] == tp.ids[b];
      }
    }
  }

  // ---------- Levels by name ----------

  /** As many names as ids. */
  lemma {:induction false} SameSize(tp: Topology, vs: set<nat>, xs: set<string>)
    requires Bijection(tp.names, tp.ids)
    requires forall v | v in vs :: v < |tp.names| && tp.names[v] in xs
    requires forall x | x in xs :: x in tp.ids && tp.ids[x] in vs
    ensures |vs| == |xs|
  {
    if v :| v in vs {
      SameSize(tp, vs - {v}, xs - {tp.names[v]});
    } else if x :| x in xs {
      assert tp.ids[x] in vs;
    }
  }

  lemma DepthBothWays(g: Adjacency, r: Adjacency, s: nat, t: nat, d: nat)
    requires Transposed(g, r) && s < |g| && t < |g|
    ensures Depth(r, t, s, d) <==> Depth(g, s, t, d)
  {
    hide Count;
    TransposedSymmetric(g, r);
    if Depth(r, t, s, d) {
      ReverseDepth(g, r, s, t, d);
    }
    if Depth(g, s, t, d) {
      ReverseDepth(r, g, t, s, d);
    }
  }

  lemma SameLevels(tp: Topology, a: string, j: nat)
    requires ValidTopology(tp) && a in tp.ids
    ensures FollowSizes(tp, a)(j) == LevelSizes(tp.followers, tp.ids[a])(j)
    ensures FollowerSizes(tp, a)(j) == LevelSizes(tp.follows, tp.ids[a])(j)
  {
    hide Count, ShortestChain, Depth;
    var g, r, s := tp.follows, tp.followers, tp.ids[a];
    TransposedSymmetric(g, r);
    forall x | x in tp.ids
      ensures ShortestChain(tp, a, x, j) <==> Depth(r, tp.ids[x], s, j)
      ensures ShortestChain(tp, x, a, j) <==> Depth(g, tp.ids[x], s, j)
    {
      DepthIsShortest(tp, a, x, j);
      DepthIsShortest(tp, x, a, j);
      DepthBothWays(g, r, s, tp.ids[x], j);
    }
    SameSize(tp, Level(r, s, j), FollowLevel(tp, a, j));
    SameSize(tp, Level(g, s, j), FollowerLevel(tp, a, j));
  }

  lemma SameDepth(tp: Topology, a: string, b: string, d: nat)
    requires ValidTopology(tp) && a in tp.ids && b in tp.ids
    ensures BridgeDepth(tp, a, b, d) == MeetingDepth(tp.follows, tp.followers, tp.ids[a], tp.ids[b], d)
    ensures SingleFile(tp.followers, tp.ids[a], d) <==> forall j: nat | j < d :: |FollowLevel(tp, a, j)| == 1
  {
    hide FollowLevel, FollowerLevel, Level;
    var fwd, bwd := LevelSizes(tp.followers, tp.ids[a]), LevelSizes(tp.follows, tp.ids[b]);
    forall j: nat
      ensures FollowSizes(tp, a)(j) == fwd(j) && FollowerSizes(tp, b)(j) == bwd(j)
      ensures |FollowLevel(tp, a, j)| == |Level(tp.followers, tp.ids[a], j)|
    {
      SameLevels(tp, a, j);
      SameLevels(tp, b, j);
    }
    SplitSame(FollowSizes(tp, a), FollowerSizes(tp, b), fwd, bwd, d, 0, 0);
  }

  lemma IdsInRange(tp: Topology, a: string, b: string, d: nat, k: nat, ids: seq<nat>)
    requires ValidTopology(tp) && a in tp.ids && b in tp.ids
    requires BridgeLayer(tp.follows, tp.followers, tp.ids[a], tp.ids[b], d, k, ids)
    ensures forall i | 0 <= i < |ids| :: ids[i] < |tp.names|
  {
    assert forall i | 0 <= i < |ids| :: ids[i] in ids;
  }

  /** From the layer of ids to the bridges by name. */
  lemma CutNames(tp: Topology, a: string, b: string, d: nat, ids: seq<nat>)
    requires ValidTopology(tp) && a in tp.ids && b in tp.ids
    requires var g, r, s, t := tp.follows, tp.followers, tp.ids[a], tp.ids[b];
             Cuts(g, r, s, t, d, MeetingDepth(g, r, s, t, d), ids)
    ensures BridgesTruthful(tp, a, b, d, Resolve(tp.names, ids))
  {
    hide Count, Resolve, MeetingDepth, BridgeDepth, SingleFile, BridgesAt, BridgeLayer;
    SameDepth(tp, a, b, d);
    var bridges, k := Resolve(tp.names, ids), BridgeDepth(tp, a, b, d);
    BridgeNames(tp, a, b, d, k, ids);
    IdsInRange(tp, a, b, d, k, ids);
    ResolveMember(tp.names, tp.ids, ids, a);
    forall p, j: nat | bridges != [] && Chain(tp, p, a, b, d) && j <= d ensures p[j] in bridges <==> j == k {
      ChainIsWalk(tp, p, d, a, b);
      assert IdPath(tp, p)[j] in ids <==> j == k;
      ResolveMember(tp.names, tp.ids, ids, p[j]);
    }
  }

  // ---------- The promise of `compute_distance` ----------

  /** What a caller may rely on, in terms of chains of follows between public keys. */
  ghost predicate Truthful(tp: Topology, q: Query, res: DistanceResult) {
    && res.from == q.from && res.to == q.to
    && (forall d: nat :: res.hops == Some(d) <==> d <= q.maxHops && ShortestChain(tp, q.from, q.to, d))
    && (res.hops.None? ==> res.pathCount == 0 && !res.mutualFollow && res.bridges == None)
    && (res.hops.Some? ==>
          && CountsChains(tp, q.from, q.to, res.hops.value, res.pathCount)
          && (q.from == q.to ==> !res.mutualFollow && res.bridges == None)
          && (q.from != q.to ==>
                && (res.mutualFollow <==> Follows(tp, q.from, q.to) && Follows(tp, q.to, q.from))
                && (res.bridges.Some? <==> q.includeBridges)
                && (q.includeBridges ==> BridgesTruthful(tp, q.from, q.to, res.hops.value, res.bridges.value))))
  }

  lemma SameNodeTruthful(tp: Topology, q: Query)
    requires q.from == q.to
    ensures Truthful(tp, q, SameNode(q.from))
  {
    var a := q.from;
    assert Chain(tp, [a], a, a, 0);
    forall d: nat | ShortestChain(tp, a, a, d) ensures d == 0 {
      assert Chain(tp, [a], a, a, 0);
    }
    forall p ensures p in {[a]} <==> Chain(tp, p, a, a, 0) {
      if Chain(tp, p, a, a, 0) {
        assert p == [a];
      }
    }
    assert |{[a]}| == 1;
  }

  lemma ChainEndsKnown(tp: Topology, p: seq<string>, a: string, b: string, k: nat)
    requires Chain(tp, p, a, b, k) && a != b
    ensures a in tp.ids && b in tp.ids
  {
    assert Follows(tp, p[0], p[0 + 1]);
    assert Follows(tp, p[k - 1], p[k - 1 + 1]);
  }

  lemma UnknownTruthful(tp: Topology, q: Query)
    requires q.from != q.to && (q.from !in tp.ids || q.to !in tp.ids)
    ensures Truthful(tp, q, NotFound(q.from, q.to))
  {
    forall p, k: nat | Chain(tp, p, q.from, q.to, k) ensures false {
      ChainEndsKnown(tp, p, q.from, q.to, k);
    }
  }

  lemma FoundTruthful(tp: Topology, q: Query, o: Search.Outcome)
    requires ValidTopology(tp) && q.from != q.to && q.from in tp.ids && q.to in tp.ids && o.hops.Some?
    requires var g, r, s, t := tp.follows, tp.followers, tp.ids[q.from], tp.ids[q.to];
             var k := MeetingDepth(g, r, s, t, o.hops.value);
             Correct(g, r, s, t, q.maxHops, o, k) && Cuts(g, r, s, t, o.hops.value, k, o.bridgeIds)
    ensures var mutual := Follows(tp, q.from, q.to) && Follows(tp, q.to, q.from);
            Truthful(tp, q, DistanceResult(q.from, q.to, o.hops, o.pathCount, mutual,
                                           if q.includeBridges then Some(Resolve(tp.names, o.bridgeIds)) else None))
  {
    hide Count, WalkSet, Resolve, Cuts, BridgesTruthful, BridgeLayer;
    var s, t, d := tp.ids[q.from], tp.ids[q.to], o.hops.value;
    forall e: nat ensures Depth(tp.follows, s, t, e) <==> ShortestChain(tp, q.from, q.to, e) {
      DepthIsShortest(tp, q.from, q.to, e);
    }
    ChainsCounted(tp, q.from, q.to, d, o.pathCount);
    CutNames(tp, q.from, q.to, d, o.bridgeIds);
  }

  lemma MissedTruthful(tp: Topology, q: Query, o: Search.Outcome, k: nat)
    requires ValidTopology(tp) && q.from != q.to && q.from in tp.ids && q.to in tp.ids && o.hops.None?
    requires Correct(tp.follows, tp.followers, tp.ids[q.from], tp.ids[q.to], q.maxHops, o, k)
    ensures Truthful(tp, q, NotFound(q.from, q.to))
  {
    hide Count, WalkSet;
    forall d: nat | d <= q.maxHops ensures !ShortestChain(tp, q.from, q.to, d) {
      DepthIsShortest(tp, q.from, q.to, d);
      assert o.hops != Some(d);
    }
  }

  /** The answer is the truth about the topology, for every query. */
  lemma DistanceTruthful(tp: Topology, q: Query)
    requires ValidTopology(tp)
    ensures Truthful(tp, q, Distance(tp, q))
  {
    hide Count, WalkSet, Search.Bidirectional, Search.ForwardLevels, Truthful, MeetingDepth, Correct, Cuts;
    if q.from == q.to {
      SameNodeTruthful(tp, q);
    } else if q.from !in tp.ids || q.to !in tp.ids {
      UnknownTruthful(tp, q);
    } else {
      var g, r, s, t := tp.follows, tp.followers, tp.ids[q.from], tp.ids[q.to];
      assert s != t;
      if q.maxHops > 0 && Edge(g, s, t) {
        DirectCorrect(g, r, s, t, q.maxHops);
        FoundTruthful(tp, q, Search.Outcome(Some(1), 1, []));
        assert Resolve(tp.names, []) == [];
      } else {
        var o := Search.Bidirectional(g, r, s, t, q.maxHops, Search.SmallerFrontier());
        if o.hops.None? {
          BidirectionalCorrect(g, r, s, t, q.maxHops, Search.SmallerFrontier());
          MissedTruthful(tp, q, o, Search.ForwardLevels(g, r, s, t, q.maxHops, Search.SmallerFrontier()));
        } else {
          ServiceCorrect(g, r, s, t, q.maxHops);
          FoundTruthful(tp, q, o);
        }
      }
    }
  }

  lemma OneMeeting(v: nat, s: nat, t: nat)
    requires s != v
    ensures Search.PathTotal([Search.Meeting(v, 1, 1)]) == 1 && Search.Bridges([Search.Meeting(v, 1, 1)], s, v) == []
  {
    assert [Search.Meeting(v, 1, 1)][..0] == [];
  }

  lemma OneRound(g: Adjacency, r: Adjacency, st: Search.State, maxHops: nat)
    ensures var forward := Search.SmallerFrontier();
            Search.Rounds(g, r, st, maxHops, forward) ==
            if Search.Done(st, maxHops) then st
            else if forward(st) then Search.Rounds(g, r, Search.ExpandForward(g, st), maxHops, forward)
            else Search.Rounds(g, r, Search.ExpandBackward(r, st), maxHops, forward)
  {
  }

  /** A frontier of one node with one edge to an unvisited node. */
  lemma OneArc(g: Adjacency, st: Search.State, u: nat, v: nat)
    requires st.fwd.current == [u] && u < |g| && g[u] == [v] && u in st.fwd.visited && v !in st.fwd.visited
    requires st.best.None? && st.meetings == [] && st.fwd.visited[u].paths == 1
    ensures var side := Search.Side(st.fwd.dist + 1, st.fwd.visited[v := Search.Reached(st.fwd.dist + 1, 1)], [v]);
            Search.ExpandForward(g, st) ==
            if v in st.bwd.visited then
              Search.State(side, st.bwd, Some(st.fwd.dist + 1 + st.bwd.visited[v].dist),
                           [Search.Meeting(v, 1, st.bwd.visited[v].paths)])
            else Search.State(side, st.bwd, None, [])
  {
    hide Search.Arcs, Search.ArcsOf, Search.Fresh, Search.Arrivals, Search.MeetArcs;
    var side, before := st.fwd, st.fwd.visited;
    assert [u][..0] == [] && [u][..1] == [u] && [v][..0] == [] && [v][..1] == [v] && [] + [(u, v)] == [(u, v)];
    NothingScanned(g, u, (st.best, st.meetings), side, st.bwd, true);
    ArcsPrefix(g, [u], 0);
    ArcsOfPrefix(u, [v], 0);
    FreshArc([], (u, v), before);
    NoArrivals([], before, v);
    ArrivalsArc([], (u, v), before, v);
    MeetOneArc((st.best, st.meetings), [], (u, v), side, st.bwd, true);
    assert Search.Discover([(u, v)], before, side.dist + 1) == before[v := Search.Reached(side.dist + 1, 1)];
  }

  lemma ThreeInARow()
    ensures Search.Bidirectional([[1], [2], []], [[], [0], [1]], 0, 2, 5, Search.SmallerFrontier()) ==
            Search.Outcome(Some(2), 1, [])
  {
    hide Search.Rounds, Search.Arcs, Search.ArcsOf, Search.MeetArcs, Search.ExpandForward;
    var g: Adjacency, r: Adjacency, bwd := [[1], [2], []], [[], [0], [1]], Search.Start(2);
    var s1 := Search.State(Search.Side(1, map[0 := Search.Reached(0, 1), 1 := Search.Reached(1, 1)], [1]), bwd, None, []);
    var s2 := Search.State(Search.Side(2, s1.fwd.visited[2 := Search.Reached(2, 1)], [2]), bwd, Some(2), [Search.Meeting(2, 1, 1)]);
    OneArc(g, Search.Initial(0, 2), 0, 1);
    OneArc(g, s1, 1, 2);
    assert Search.ExpandForward(g, Search.Initial(0, 2)) == s1;
    assert Search.ExpandForward(g, s1) == s2;
    OneRound(g, r, Search.Initial(0, 2), 5);
    OneRound(g, r, s1, 5);
    OneRound(g, r, s2, 5);
    OneMeeting(2, 1, 1);
  }

  /** Three accounts in a row: every chain passes the middle one, and no bridge is reported. */
  lemma SingleFileHasNoBridges(tp: Topology)
    requires tp == Topology(["a", "b", "c"], map["a" := 0, "b" := 1, "c" := 2], [[1], [2], []], [[], [0], [1]])
    ensures ValidTopology(tp) && Chain(tp, ["a", "b", "c"], "a", "c", 2)
    ensures Distance(tp, Query("a", "c", 5, true)) == DistanceResult("a", "c", Some(2), 1, false, Some([]))
  {
    hide Search.Bidirectional;
    assert Edge(tp.follows, 0, 1) && Edge(tp.follows, 1, 2);
    assert Follows(tp, "a", "b") && Follows(tp, "b", "c");
    ThreeInARow();
    assert !Edge(tp.follows, 0, 2);
    assert Resolve(tp.names, []) == [];
  }

  /**
   The mutual flag is right exactly when the bound is positive or there is no mutual follow:
   a search that finds nothing always clears it.
   */
  lemma MutualFollowExact(tp: Topology, q: Query)
    requires ValidTopology(tp) && q.from != q.to
    ensures var mutual := Follows(tp, q.from, q.to) && Follows(tp, q.to, q.from);
            (Distance(tp, q).mutualFollow <==> mutual) <==> q.maxHops > 0 || !mutual
  {
    hide Search.Bidirectional, CountsChains, BridgesTruthful;
    DistanceTruthful(tp, q);
  }

  /** Two accounts that follow each other: with a bound of 0 the flag says they do not. */
  lemma MutualFlagLost()
    ensures exists tp ::
              && ValidTopology(tp) && Follows(tp, "a", "b") && Follows(tp, "b", "a")
              && !Distance(tp, Query("a", "b", 0, false)).mutualFollow
  {
    hide Search.Bidirectional;
    var tp := Topology(["a", "b"], map["a" := 0, "b" := 1], [[1], [0]], [[1], [0]]);
    assert Edge(tp.follows, 0, 1) && Edge(tp.follows, 1, 0);
    MutualFollowExact(tp, Query("a", "b", 0, false));
  }

  // ---------- Computing it ----------

  lemma InRangeBothWays(tp: Topology)
    requires ValidTopology(tp)
    ensures InRange(tp.follows) && InRange(tp.followers)
  {
    forall u, v | 0 <= u < |tp.follows| && v in tp.follows[u] ensures v < |tp.follows| {
      assert Edge(tp.follows, u, v);
      assert Edge(tp.followers, v, u);
    }
    forall u, v | 0 <= u < |tp.followers| && v in tp.followers[u] ensures v < |tp.followers| {
      assert Edge(tp.followers, u, v);
      assert Edge(tp.follows, v, u);
    }
  }

  /** `compute_distance`: the two lookups, the direct-follow test, then the search in the reused state. */
  method ComputeDistance(tp: Topology, q: Query, state: BfsState) returns (res: DistanceResult)
    requires ValidTopology(tp)
    modifies state
    ensures res == Distance(tp, q) && Truthful(tp, q, res)
  {
    DistanceTruthful(tp, q);
    hide Truthful, Search.Bidirectional;
    if q.from == q.to {
      return SameNode(q.from);
    }
    if q.from !in tp.ids || q.to !in tp.ids {
      return NotFound(q.from, q.to);
    }
    var s, t := tp.ids[q.from], tp.ids[q.to];
    InRangeBothWays(tp);
    var there, _ := BinarySearch(tp.follows[s], t);
    var back, _ := BinarySearch(tp.follows[t], s);
    if q.maxHops > 0 && there {
      return DistanceResult(q.from, q.to, Some(1), 1, there && back, if q.includeBridges then Some([]) else None);
    }
    var o := state.Bidirectional(tp.follows, tp.followers, s, t, q.maxHops, q.includeBridges);
    if o.hops.None? {
      return NotFound(q.from, q.to);
    }
    res := DistanceResult(q.from, q.to, o.hops, o.pathCount, there && back,
                          if q.includeBridges then Some(Resolve(tp.names, o.bridgeIds)) else None);
  }
}
