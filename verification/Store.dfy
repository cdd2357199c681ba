/** The mutable graph store: nodes, sorted adjacency in both directions, versions, mute lists, revision. */
module Store {
  import opened Options
  import opened Walks
  import opened SortedLists
  import opened Distances
  import opened GraphData
  import L = Lists

  datatype SnapshotMutes = SnapshotMutes(ids: seq<nat>, version: L.Version)

  /** One row of a database snapshot; edge ids index the snapshot's own node vector. */
  datatype SnapshotNode = SnapshotNode(pubkey: string, version: L.Version, follows: seq<nat>,
                                       mutes: Option<SnapshotMutes>)

  // ---------- The reverse vector ----------

  function Sources(f: Adjacency, v: nat): set<nat> {
    set u | 0 <= u < |f| && v in f[u]
  }

  function ReverseOf(f: Adjacency): Adjacency {
    seq(|f|, v requires 0 <= v < |f| => Ascending(|f|, Sources(f, v)))
  }

  lemma ReverseWellFormed(f: Adjacency)
    requires AllSorted(f) && forall u, v | 0 <= u < |f| && v in f[u] :: v < |f|
    ensures Walks.WellFormed(f, ReverseOf(f))
  {
    var r := ReverseOf(f);
    forall v | 0 <= v < |r| ensures Sorted(r[v]) {
      AscendingIsSorted(|f|, Sources(f, v));
    }
    forall u: nat, v: nat ensures Edge(f, u, v) <==> Edge(r, v, u) {
      AscendingIsSorted(|f|, Sources(f, v));
    }
  }

  lemma ReverseIsFollowers(tp: Topology)
    requires ValidTopology(tp)
    ensures tp.followers == ReverseOf(tp.follows)
  {
    InRangeBothWays(tp);
    ReverseWellFormed(tp.follows);
    FollowersUnique(tp.follows, tp.followers, ReverseOf(tp.follows));
  }

  lemma NowMerging(d: Data)
    requires ValidData(d)
    ensures d.topology.followers == ReverseOf(d.topology.follows) && |d.topology.followers| == |d.topology.follows|
  {
    ReverseIsFollowers(d.topology);
  }

  // ---------- Snapshots as updates ----------

  /** Every edge of the snapshot points to one of its rows. */
  ghost predicate ValidSnapshot(nodes: seq<SnapshotNode>) {
    forall i | 0 <= i < |nodes| ::
      && (forall j | 0 <= j < |nodes[i].follows| :: nodes[i].follows[j] < |nodes|)
      && (nodes[i].mutes.Some? ==>
            forall j | 0 <= j < |nodes[i].mutes.value.ids| :: nodes[i].mutes.value.ids[j] < |nodes|)
  }

  /** Every list of the snapshot is refused. */
  ghost predicate AllLose(l: L.Lists, nodes: seq<SnapshotNode>) {
    forall i | 0 <= i < |nodes| ::
      && !L.AcceptsEvent(L.Get(l.follows, nodes[i].pubkey).version, nodes[i].version)
      && (nodes[i].mutes.Some? ==> !L.AcceptsEvent(L.Get(l.mutes, nodes[i].pubkey).version, nodes[i].mutes.value.version))
  }

  lemma StillLose(l: L.Lists, names: set<string>, nodes: seq<SnapshotNode>)
    requires AllLose(l, nodes)
    ensures AllLose(L.WithNodes(l, names), nodes)
  {
    hide L.AcceptsEvent;
    forall pk ensures L.Get(L.WithNodes(l, names).follows, pk) == L.Get(l.follows, pk) {
    }
  }

  function Pubkeys(nodes: seq<SnapshotNode>): seq<string> {
    seq(|nodes|, i requires 0 <= i < |nodes| => nodes[i].pubkey)
  }

  function Pick(pks: seq<string>, indices: seq<nat>): (r: seq<string>)
    requires forall j | 0 <= j < |indices| :: indices[j] < |pks|
    ensures |r| == |indices| && forall j | 0 <= j < |r| :: r[j] == pks[indices[j]]
  {
    seq(|indices|, j requires 0 <= j < |indices| => pks[indices[j]])
  }

  /** The snapshot's first `m` rows as updates by public key. */
  ghost function SnapshotUpdates(nodes: seq<SnapshotNode>, m: nat): seq<L.Update>
    requires m <= |nodes| && ValidSnapshot(nodes)
  {
    if m == 0 then []
    else
      var node := nodes[m - 1];
      SnapshotUpdates(nodes, m - 1)
      + [L.Update(L.Follow, node.pubkey, Pick(Pubkeys(nodes), node.follows), node.version)]
      + match node.mutes
        case None => []
        case Some(list) => [L.Update(L.Mute, node.pubkey, Pick(Pubkeys(nodes), list.ids), list.version)]
  }

  lemma NoRowsYet(l: L.Lists, nodes: seq<SnapshotNode>)
    requires ValidSnapshot(nodes)
    ensures L.OfferAll(l, SnapshotUpdates(nodes, 0)) == l
  {
  }

  lemma SnapshotStep(l: L.Lists, nodes: seq<SnapshotNode>, i: nat)
    requires i < |nodes| && ValidSnapshot(nodes)
    ensures var node := nodes[i];
            var followed := L.Offer(L.OfferAll(l, SnapshotUpdates(nodes, i)),
                                    L.Update(L.Follow, node.pubkey, Pick(Pubkeys(nodes), node.follows), node.version));
            L.OfferAll(l, SnapshotUpdates(nodes, i + 1)) ==
            match node.mutes
            case None => followed
            case Some(list) =>
              L.Offer(followed, L.Update(L.Mute, node.pubkey, Pick(Pubkeys(nodes), list.ids), list.version))
  {
    hide Pick, L.Offer;
    var us := SnapshotUpdates(nodes, i);
    var f := L.Update(L.Follow, nodes[i].pubkey, Pick(Pubkeys(nodes), nodes[i].follows), nodes[i].version);
    assert (us + [f])[..|us|] == us;
    if nodes[i].mutes.Some? {
      var list := nodes[i].mutes.value;
      var m := L.Update(L.Mute, nodes[i].pubkey, Pick(Pubkeys(nodes), list.ids), list.version);
      assert (us + [f] + [m])[..|us| + 1] == us + [f];
    } else {
      assert us + [f] + [] == us + [f];
    }
  }

  // ---------- Known ids ----------

  /** `ids` are the ids of the names `pks`. */
  ghost predicate KnownIds(tp: Topology, pks: seq<string>, ids: seq<nat>) {
    |ids| == |pks| && forall i | 0 <= i < |pks| :: pks[i] in tp.ids && ids[i] == tp.ids[pks[i]]
  }

  /** Sorting and deduplicating known ids loses no name. */
  lemma KnownNames(tp: Topology, pks: seq<string>, ids: seq<nat>)
    requires ValidTopology(tp) && KnownIds(tp, pks, ids)
    ensures var list := Ascending(|tp.names|, set x | x in ids);
            IdList(|tp.names|, list) && Names(tp.names, list) == set x | x in pks
  {
    hide Names, Ascending;
    forall x | x in pks ensures x in tp.ids && tp.ids[x] in ids {
      var i :| 0 <= i < |pks| && pks[i] == x;
      assert ids[i] in ids;
    }
    forall y | y in ids ensures exists x :: x in pks && x in tp.ids && tp.ids[x] == y {
      var i :| 0 <= i < |ids| && ids[i] == y;
      assert pks[i] in pks;
    }
    assert (set x | x in ids) == set x | x in pks :: tp.ids[x];
    NamesOfIds(tp, pks, set x | x in ids);
  }

  lemma PickKnown(d: Data, pks: seq<string>, ids: seq<nat>, indices: seq<nat>)
    requires KnownIds(d.topology, pks, ids) && forall j | 0 <= j < |indices| :: indices[j] < |ids|
    ensures forall x | x in Pick(pks, indices) :: x in d.topology.ids
  {
  }

  lemma PickedIds(tp: Topology, pks: seq<string>, ids: seq<nat>, indices: seq<nat>)
    requires KnownIds(tp, pks, ids) && forall j | 0 <= j < |indices| :: indices[j] < |ids|
    requires forall x | x in Pick(pks, indices) :: x in tp.ids
    ensures (set j | 0 <= j < |indices| :: ids[indices[j]]) == set x | x in Pick(pks, indices) :: tp.ids[x]
  {
    var picked := Pick(pks, indices);
    forall j | 0 <= j < |indices| ensures ids[indices[j]] in set x | x in picked :: tp.ids[x] {
      assert picked[j] in picked && tp.ids[picked[j]] == ids[indices[j]];
    }
    forall x | x in picked ensures tp.ids[x] in set j | 0 <= j < |indices| :: ids[indices[j]] {
      var j :| 0 <= j < |picked| && picked[j] == x;
      assert tp.ids[x] == ids[indices[j]];
    }
  }

  lemma NoNewNames(d: Data, pk: string)
    requires ValidData(d) && pk in d.topology.ids
    ensures ViewOf(d) == L.WithNodes(ViewOf(d), {pk})
  {
    assert ViewOf(d).follows == L.WithNodes(ViewOf(d), {pk}).follows;
  }

  /** Among known nodes an offer only replaces the list, or does nothing. */
  lemma OfferKnown(d: Data, u: L.Update)
    requires ValidData(d) && u.author in d.topology.ids && forall x | x in u.follows :: x in d.topology.ids
    ensures L.Offer(ViewOf(d), u) ==
            if L.AcceptsEvent(L.Get(L.Of(ViewOf(d), u.kind), u.author).version, u.version)
            then L.Put(ViewOf(d), u.kind, u.author, L.Entry(u.version, L.Targets(u))) else ViewOf(d)
  {
    var l := ViewOf(d);
    assert L.WithNodes(l, {u.author} + L.Targets(u)).follows == l.follows;
    assert L.WithNodes(l, {u.author}).follows == l.follows;
  }

  // ---------- Replacing a list ----------

  /** Replacing one forward row, with the reverse vector recomputed. */
  lemma ReplacedRow(tp: Topology, after: Topology, id: nat, list: seq<nat>)
    requires ValidTopology(tp) && id < |tp.names| && IdList(|tp.names|, list)
    requires after == Topology(tp.names, tp.ids, tp.follows[id := list], ReverseOf(tp.follows[id := list]))
    ensures Rewired(tp, after, id, list)
  {
    InRangeBothWays(tp);
    ReverseWellFormed(after.follows);
    forall u: nat, v: nat | v < |tp.followers|
      ensures Edge(after.followers, v, u) <==> if u == id then v in list else Edge(tp.followers, v, u)
    {
      assert Edge(after.follows, u, v) <==> Edge(after.followers, v, u);
      assert Edge(tp.follows, u, v) <==> Edge(tp.followers, v, u);
    }
  }

  lemma NotYet(targets: seq<nat>, j: nat)
    requires Sorted(targets) && j < |targets|
    ensures targets[j] !in targets[..j]
  {
  }

  lemma KnownVersion(l: L.Lists, known: Data, pk: string)
    requires ValidData(known) && pk in known.topology.ids && ViewOf(known) == L.WithNodes(l, {pk})
    ensures known.topology.ids[pk] < |known.info| == |known.topology.names| == |known.topology.follows|
    ensures L.Get(l.follows, pk).version == VersionOf(known.info[known.topology.ids[pk]])
  {
    assert ViewOf(known).follows[pk] == L.Get(l.follows, pk);
  }

  lemma KnownTargets(l: L.Lists, known: Data, names: set<string>, pk: string)
    requires ValidData(known) && pk in known.topology.ids && pk in names && ViewOf(known) == L.WithNodes(l, names)
    ensures Names(known.topology.names, known.topology.follows[known.topology.ids[pk]]) == L.Get(l.follows, pk).targets
  {
    assert ViewOf(known).follows[pk] == L.Get(l.follows, pk);
  }

  lemma KnownMutes(l: L.Lists, known: Data, pk: string)
    requires ValidData(known) && pk in known.topology.ids && ViewOf(known) == L.WithNodes(l, {pk})
    ensures var id := known.topology.ids[pk];
            L.Get(l.mutes, pk).version == if id in known.mutes then known.mutes[id].version else L.UNVERSIONED
  {
    assert ViewOf(known).mutes == l.mutes;
  }

  /** Creating the author's node, then the targets' nodes, is what `Offer` does before it replaces the list. */
  lemma ListsOffered(l: L.Lists, known: L.Lists, ready: L.Lists, u: L.Update)
    requires known == L.WithNodes(l, {u.author})
    requires ready == L.WithNodes(known, L.Targets(u))
    ensures ready == L.WithNodes(l, {u.author} + L.Targets(u))
  {
    NodesTwice(l, {u.author}, L.Targets(u));
  }

  lemma TargetsInRange(d: Data, node: nat, new': seq<nat>, toRemove: seq<nat>, toAdd: seq<nat>)
    requires ValidData(d) && node < |d.topology.names| && IdList(|d.topology.names|, new')
    requires forall x :: x in toRemove <==> x in d.topology.follows[node] && x !in new'
    requires forall x :: x in toAdd <==> x in new' && x !in d.topology.follows[node]
    ensures forall x | x in toRemove :: x < |d.topology.followers|
    ensures forall x | x in toAdd :: x < |d.topology.followers|
  {
    FollowsInRange(d.topology, node);
  }

  /** The difference is empty exactly when nothing changes. */
  lemma DiffEmpty(tp: Topology, after: Topology, node: nat, new': seq<nat>, toRemove: seq<nat>, toAdd: seq<nat>)
    requires ValidTopology(tp) && Rewired(tp, after, node, new') && Sorted(new')
    requires forall x :: x in toRemove <==> x in tp.follows[node] && x !in new'
    requires forall x :: x in toAdd <==> x in new' && x !in tp.follows[node]
    requires IdList(|tp.names|, new')
    ensures after == tp <==> toRemove == [] && toAdd == []
  {
    assert toRemove != [] ==> toRemove[0] in toRemove;
    assert toAdd != [] ==> toAdd[0] in toAdd;
    if toRemove == [] && toAdd == [] {
      assert forall x :: x in tp.follows[node] ==> x in new' || x in toRemove;
      assert forall x :: x in new' ==> x in tp.follows[node] || x in toAdd;
      SortedUnique(tp.follows[node], new');
      assert after.follows == tp.follows;
      RewiredValid(tp, after, node, new');
      FollowersUnique(tp.follows, tp.followers, after.followers);
    }
  }

  /** Applying the difference is replacing the list, in both directions. */
  lemma DiffRewires(tp: Topology, after: Topology, node: nat, new': seq<nat>, toRemove: seq<nat>, toAdd: seq<nat>)
    requires ValidTopology(tp) && node < |tp.names|
    requires forall x :: x in toRemove <==> x in tp.follows[node] && x !in new'
    requires forall x :: x in toAdd <==> x in new' && x !in tp.follows[node]
    requires after.names == tp.names && after.ids == tp.ids && after.follows == tp.follows[node := new']
    requires |after.followers| == |tp.followers| && AllSorted(after.followers)
    requires forall u: nat, v: nat | v < |after.followers| ::
               Edge(after.followers, v, u) <==>
               (Edge(tp.followers, v, u) && !(u == node && v in toRemove)) || (u == node && v in toAdd)
    ensures Rewired(tp, after, node, new')
  {
    forall u: nat, v: nat | v < |tp.followers|
      ensures Edge(after.followers, v, u) <==> if u == node then v in new' else Edge(tp.followers, v, u)
    {
      assert Edge(tp.followers, v, node) <==> Edge(tp.follows, node, v);
    }
  }

  // ---------- The graph ----------

  class WotGraph {
    var pubkeyToId: map<string, nat>
    var idToPubkey: seq<string>
    var follows: Adjacency
    var followers: Adjacency
    var nodeInfo: seq<Option<L.Version>>
    var mutes: map<nat, MuteList>
    var revision: nat

    ghost function Contents(): Data
      reads this
    {
      Data(Topo(), nodeInfo, mutes)
    }

    function Topo(): Topology
      reads this
    {
      Topology(idToPubkey, pubkeyToId, follows, followers)
    }

    ghost predicate Valid()
      reads this
    {
      ValidData(Contents()) && |idToPubkey| <= MAX_NODES
    }

    /** The lists by public key. */
    ghost function View(): L.Lists
      reads this
      requires Valid()
    {
      ViewOf(Contents())
    }

    constructor ()
      ensures Valid() && View() == L.EMPTY && idToPubkey == [] && revision == 0
    {
      pubkeyToId, idToPubkey, follows, followers := map[], [], [], [];
      nodeInfo, mutes, revision := [], map[], 0;
    }

    /** A node's id, allocated on first use. */
    method GetOrCreateNode(pubkey: string) returns (id: nat)
      requires Valid() && |idToPubkey| < MAX_NODES
      modifies this
      ensures Valid() && Contents() == AddNode(old(Contents()), pubkey)
      ensures pubkey in pubkeyToId && id == pubkeyToId[pubkey]
      ensures old(idToPubkey) <= idToPubkey
      ensures |idToPubkey| == |old(idToPubkey)| + if pubkey in old(pubkeyToId) then 0 else 1
      ensures pubkey in old(pubkeyToId) ==> Contents() == old(Contents())
      ensures revision == old(revision) + if pubkey in old(pubkeyToId) then 0 else 1
    {
      hide ValidTopology;
      AddNodeValid(Contents(), pubkey);
      if pubkey in pubkeyToId {
        return pubkeyToId[pubkey];
      }
      id := |idToPubkey| % 0x1_0000_0000;
      idToPubkey := idToPubkey + [pubkey];
      follows := follows + [[]];
      followers := followers + [[]];
      nodeInfo := nodeInfo + [None];
      pubkeyToId := pubkeyToId[pubkey := id];
      revision := revision + 1;
    }

    /** The ids of a list of keys, allocating the unknown ones. */
    method NodeIds(pubkeys: seq<string>) returns (ids: seq<nat>)
      requires Valid() && |idToPubkey| + |pubkeys| <= MAX_NODES
      modifies this
      ensures Valid() && Contents() == AddNodes(old(Contents()), pubkeys)
      ensures KnownIds(Topo(), pubkeys, ids) && old(idToPubkey) <= idToPubkey
      ensures |idToPubkey| <= old(|idToPubkey|) + |pubkeys|
      ensures revision == old(revision) + |idToPubkey| - |old(idToPubkey)|
      ensures revision == old(revision) ==> Topo() == old(Topo())
    {
      hide ValidData, ViewOf;
      ids := [];
      for i := 0 to |pubkeys|
        invariant Valid() && Contents() == AddNodes(old(Contents()), pubkeys[..i])
        invariant |idToPubkey| <= old(|idToPubkey|) + i && old(idToPubkey) <= idToPubkey
        invariant KnownIds(Topo(), pubkeys[..i], ids)
        invariant revision == old(revision) + |idToPubkey| - |old(idToPubkey)|
        invariant revision == old(revision) ==> Topo() == old(Topo())
      {
        assert pubkeys[..i + 1][..i] == pubkeys[..i];
        var id := GetOrCreateNode(pubkeys[i]);
        ids := ids + [id];
      }
      assert pubkeys[..|pubkeys|] == pubkeys;
    }

    /** The sorted, deduplicated ids of a list of keys. */
    method ListIds(pubkeys: seq<string>) returns (ids: seq<nat>)
      requires Valid() && |idToPubkey| + |pubkeys| <= MAX_NODES
      modifies this
      ensures Valid() && Contents() == AddNodes(old(Contents()), pubkeys)
      ensures IdList(|idToPubkey|, ids) && Names(idToPubkey, ids) == set x | x in pubkeys
      ensures old(idToPubkey) <= idToPubkey
      ensures |idToPubkey| <= old(|idToPubkey|) + |pubkeys|
      ensures revision == old(revision) + |idToPubkey| - |old(idToPubkey)|
      ensures revision == old(revision) ==> Topo() == old(Topo())
    {
      hide AddNodes, ViewOf, ValidTopology, Names, Ascending;
      var found := NodeIds(pubkeys);
      ids := Ascending(|idToPubkey|, set x | x in found);
      KnownNames(Topo(), pubkeys, found);
    }

    /** Drop `node` from the follower lists of `targets`. */
    method Unfollow(node: nat, targets: seq<nat>)
      requires AllSorted(followers) && forall x | x in targets :: x < |followers|
      modifies this`followers
      ensures AllSorted(followers) && |followers| == |old(followers)|
      ensures forall u: nat, v: nat | v < |followers| ::
                Edge(followers, v, u) <==> Edge(old(followers), v, u) && !(u == node && v in targets)
    {
      ghost var before := followers;
      for i := 0 to |targets|
        invariant AllSorted(followers) && |followers| == |before|
        invariant forall u: nat, v: nat | v < |followers| ::
                    Edge(followers, v, u) <==> Edge(before, v, u) && !(u == node && v in targets[..i])
      {
        var target := targets[i];
        assert target in targets;
        assert targets[..i + 1] == targets[..i] + [target];
        var list := followers[target];
        var found, pos := BinarySearch(list, node);
        if found {
          RemoveKeepsSorted(list, pos);
          followers := followers[target := list[..pos] + list[pos + 1..]];
        }
      }
      assert targets[..|targets|] == targets;
    }

    /** Add `node` to the follower lists of `targets`. */
    method Refollow(node: nat, targets: seq<nat>)
      requires AllSorted(followers) && forall x | x in targets :: x < |followers|
      modifies this`followers
      ensures AllSorted(followers) && |followers| == |old(followers)|
      ensures forall u: nat, v: nat | v < |followers| ::
                Edge(followers, v, u) <==> Edge(old(followers), v, u) || (u == node && v in targets)
    {
      ghost var before := followers;
      for i := 0 to |targets|
        invariant AllSorted(followers) && |followers| == |before|
        invariant forall u: nat, v: nat | v < |followers| ::
                    Edge(followers, v, u) <==> Edge(before, v, u) || (u == node && v in targets[..i])
      {
        var target := targets[i];
        assert target in targets;
        assert targets[..i + 1] == targets[..i] + [target];
        var list := followers[target];
        var found, pos := BinarySearch(list, node);
        if !found {
          InsertKeepsSorted(list, node, pos);
          ghost var prior := followers;
          followers := followers[target := list[..pos] + [node] + list[pos..]];
          assert forall u: nat, v: nat | v < |followers| ::
            Edge(followers, v, u) <==> Edge(prior, v, u) || (u == node && v == target);
        }
      }
      assert targets[..|targets|] == targets;
    }

    /** Bring both adjacency vectors up to date with a new list, touching only what differs. */
    method ReplaceFollows(nodeId: nat, newFollowIds: seq<nat>)
      requires Valid() && nodeId < |idToPubkey| && IdList(|idToPubkey|, newFollowIds)
      modifies this`follows, this`followers, this`revision
      ensures Rewired(old(Topo()), Topo(), nodeId, newFollowIds)
      ensures revision == old(revision) + if Topo() == old(Topo()) then 0 else 1
    {
      hide Edge;
      ghost var before := Contents();
      var oldFollowIds := follows[nodeId];
      var toRemove, toAdd := SortedDiff(oldFollowIds, newFollowIds);
      TargetsInRange(before, nodeId, newFollowIds, toRemove, toAdd);
      Unfollow(nodeId, toRemove);
      follows := follows[nodeId := newFollowIds];
      Refollow(nodeId, toAdd);
      DiffRewires(before.topology, Topo(), nodeId, newFollowIds, toRemove, toAdd);
      DiffEmpty(before.topology, Topo(), nodeId, newFollowIds, toRemove, toAdd);
      if toRemove != [] || toAdd != [] {
        revision := revision + 1;
      }
    }

    /** Replace an author's follow list by the sorted set of targets, unless the event loses. */
    method UpdateFollows(pubkey: string, followPubkeys: seq<string>, version: L.Version) returns (accepted: bool)
      requires Valid() && |idToPubkey| + |followPubkeys| < MAX_NODES
      modifies this
      ensures Valid() && old(idToPubkey) <= idToPubkey && |idToPubkey| <= old(|idToPubkey|) + 1 + |followPubkeys|
      ensures View() == L.Offer(old(View()), L.Update(L.Follow, pubkey, followPubkeys, version))
      ensures accepted <==> L.AcceptsEvent(L.Get(old(View()).follows, pubkey).version, version)
      ensures var stored := L.Get(old(View()).follows, pubkey).version;
              accepted <==>
              (stored.at.None? ||
               (version.at.Some? && (version.at.value > stored.at.value ||
                                     (version.at.value == stored.at.value && version.id.Some? &&
                                      (stored.id.None? || version.id.value < stored.id.value)))))
      ensures var created := |idToPubkey| - |old(idToPubkey)|;
              revision == old(revision) + created +
                if accepted && L.Get(old(View()).follows, pubkey).targets != (set x | x in followPubkeys) then 1 else 0
      ensures revision == old(revision) ==> Topo() == old(Topo())
    {
      hide ValidTopology, Rewired, Names, AddNode, AddNodes, ViewOf, L.AcceptsEvent;
      ghost var l := View();
      L.RuleByFields(L.Get(l.follows, pubkey).version, version);
      ghost var u := L.Update(L.Follow, pubkey, followPubkeys, version);
      AddNodeView(Contents(), pubkey);
      var nodeId := GetOrCreateNode(pubkey);
      ghost var known := Contents();
      KnownVersion(l, known, pubkey);
      if nodeInfo[nodeId].Some? && !L.AcceptsEvent(nodeInfo[nodeId].value, version) {
        return false;
      }
      L.UnversionedLoses(version);
      AddNodesView(known, followPubkeys);
      var newFollowIds := ListIds(followPubkeys);
      ghost var ready := Contents();
      ListsOffered(l, ViewOf(known), ViewOf(ready), u);
      KnownTargets(l, ready, {pubkey} + L.Targets(u), pubkey);
      ReplaceFollows(nodeId, newFollowIds);
      RewiredChanges(ready.topology, Topo(), nodeId, newFollowIds);
      nodeInfo := nodeInfo[nodeId := Some(version)];
      RewiredView(ready, Contents(), pubkey, newFollowIds, version);
      accepted := true;
    }

    /** Replace an author's mute list, independently of the follow list's version. */
    method UpdateMutes(pubkey: string, mutePubkeys: seq<string>, version: L.Version) returns (accepted: bool)
      requires Valid() && |idToPubkey| + |mutePubkeys| < MAX_NODES
      modifies this
      ensures Valid() && old(idToPubkey) <= idToPubkey && |idToPubkey| <= old(|idToPubkey|) + 1 + |mutePubkeys|
      ensures View() == L.Offer(old(View()), L.Update(L.Mute, pubkey, mutePubkeys, version))
      ensures accepted <==> L.AcceptsEvent(L.Get(old(View()).mutes, pubkey).version, version)
      ensures var stored := L.Get(old(View()).mutes, pubkey).version;
              accepted <==>
              (stored.at.None? ||
               (version.at.Some? && (version.at.value > stored.at.value ||
                                     (version.at.value == stored.at.value && version.id.Some? &&
                                      (stored.id.None? || version.id.value < stored.id.value)))))
      ensures revision == old(revision) + |idToPubkey| - |old(idToPubkey)| + if accepted then 1 else 0
      ensures revision == old(revision) ==> Topo() == old(Topo())
    {
      hide ValidTopology, Names, AddNode, AddNodes, ViewOf, L.AcceptsEvent;
      ghost var l := View();
      L.RuleByFields(L.Get(l.mutes, pubkey).version, version);
      ghost var u := L.Update(L.Mute, pubkey, mutePubkeys, version);
      AddNodeView(Contents(), pubkey);
      var nodeId := GetOrCreateNode(pubkey);
      ghost var known := Contents();
      KnownMutes(l, known, pubkey);
      if nodeId in mutes && !L.AcceptsEvent(mutes[nodeId].version, version) {
        return false;
      }
      L.UnversionedLoses(version);
      AddNodesView(known, mutePubkeys);
      var ids := ListIds(mutePubkeys);
      ghost var ready := Contents();
      ListsOffered(l, ViewOf(known), ViewOf(ready), u);
      mutes := mutes[nodeId := MuteList(ids, version)];
      revision := revision + 1;
      MutedView(ready, Contents(), pubkey, ids, version);
      accepted := true;
    }

    /** While a snapshot is being merged, the follower lists lag behind; these are the intended contents. */
    ghost function Intended(): Data
      reads this
    {
      Data(Topology(idToPubkey, pubkeyToId, follows, ReverseOf(follows)), nodeInfo, mutes)
    }

    ghost predicate Merging()
      reads this
    {
      && ValidData(Intended()) && |idToPubkey| <= MAX_NODES
      && |followers| == |follows|
    }

    /** One snapshot row's follow list: taken over exactly if its version is accepted. */
    method MergeFollows(id: nat, node: SnapshotNode, ids: seq<nat>, ghost pks: seq<string>) returns (changed: bool)
      requires Merging() && KnownIds(Intended().topology, pks, ids)
      requires forall j | 0 <= j < |node.follows| :: node.follows[j] < |ids|
      requires node.pubkey in pubkeyToId && id == pubkeyToId[node.pubkey]
      modifies this`follows, this`nodeInfo
      ensures Merging()
      ensures ViewOf(Intended()) == L.Offer(old(ViewOf(Intended())),
                L.Update(L.Follow, node.pubkey, Pick(pks, node.follows), node.version))
      ensures changed <==> follows != old(follows)
      ensures !L.AcceptsEvent(L.Get(old(ViewOf(Intended())).follows, node.pubkey).version, node.version) ==>
                !changed && Intended() == old(Intended())
    {
      hide Pick, Ascending, ReverseOf, Names, L.AcceptsEvent, ValidTopology, Rewired, ViewOf, L.Offer;
      ghost var before := Intended();
      ghost var targets := Pick(pks, node.follows);
      PickKnown(before, pks, ids, node.follows);
      OfferKnown(before, L.Update(L.Follow, node.pubkey, targets, node.version));
      KnownVersion(ViewOf(before), before, node.pubkey) by { NoNewNames(before, node.pubkey); }
      L.UnversionedLoses(node.version);
      changed := false;
      if nodeInfo[id].None? || L.AcceptsEvent(nodeInfo[id].value, node.version) {
        var list := Ascending(|idToPubkey|, set j | 0 <= j < |node.follows| :: ids[node.follows[j]]);
        PickedIds(before.topology, pks, ids, node.follows);
        NamesOfIds(before.topology, targets, set x | x in targets :: pubkeyToId[x]);
        changed := follows[id] != list;
        follows := follows[id := list];
        nodeInfo := nodeInfo[id := Some(node.version)];
        ReplacedRow(before.topology, Intended().topology, id, list);
        RewiredView(before, Intended(), node.pubkey, list, node.version);
      }
    }

    /** One snapshot row's mute list. */
    method MergeMutes(id: nat, node: SnapshotNode, ids: seq<nat>, ghost pks: seq<string>) returns (changed: bool)
      requires Merging() && KnownIds(Intended().topology, pks, ids) && node.mutes.Some?
      requires forall j | 0 <= j < |node.mutes.value.ids| :: node.mutes.value.ids[j] < |ids|
      requires node.pubkey in pubkeyToId && id == pubkeyToId[node.pubkey]
      modifies this`mutes
      ensures Merging()
      ensures ViewOf(Intended()) == L.Offer(old(ViewOf(Intended())),
                L.Update(L.Mute, node.pubkey, Pick(pks, node.mutes.value.ids), node.mutes.value.version))
      ensures !changed ==> mutes == old(mutes)
      ensures changed <==> L.AcceptsEvent(L.Get(old(ViewOf(Intended())).mutes, node.pubkey).version, node.mutes.value.version)
    {
      hide Pick, Ascending, ReverseOf, Names, L.AcceptsEvent;
      ghost var before := Intended();
      var found := node.mutes.value;
      ghost var targets := Pick(pks, found.ids);
      PickKnown(before, pks, ids, found.ids);
      OfferKnown(before, L.Update(L.Mute, node.pubkey, targets, found.version));
      KnownMutes(ViewOf(before), before, node.pubkey) by { NoNewNames(before, node.pubkey); }
      L.UnversionedLoses(found.version);
      changed := false;
      if id !in mutes || L.AcceptsEvent(mutes[id].version, found.version) {
        var list := Ascending(|idToPubkey|, set j | 0 <= j < |found.ids| :: ids[found.ids[j]]);
        PickedIds(before.topology, pks, ids, found.ids);
        NamesOfIds(before.topology, targets, set x | x in targets :: pubkeyToId[x]);
        mutes := mutes[id := MuteList(list, found.version)];
        changed := true;
        MutedView(before, Intended(), node.pubkey, list, found.version);
      }
    }

    /** Rebuild every follower list in source order; no sorted insertion is needed. */
    method RebuildFollowers()
      requires Merging()
      modifies this`followers
      ensures followers == ReverseOf(follows)
    {
      followers := seq(|followers|, _ => []);
      for source := 0 to |follows|
        invariant |followers| == |follows|
        invariant forall v | 0 <= v < |followers| :: followers[v] == Ascending(source, Sources(follows, v))
      {
        var targets := follows[source];
        FollowsInRange(Intended().topology, source);
        for j := 0 to |targets|
          invariant |followers| == |follows|
          invariant forall v | 0 <= v < |followers| ::
                      followers[v] == Ascending(source, Sources(follows, v)) + if v in targets[..j] then [source] else []
        {
          assert targets[j] in targets;
          assert targets[..j + 1] == targets[..j] + [targets[j]];
          NotYet(targets, j);
          followers := followers[targets[j] := followers[targets[j]] + [source]];
        }
        assert targets[..|targets|] == targets;
      }
    }

    /** All rows in turn, on the forward lists, versions and mute lists only. */
    method MergeRows(nodes: seq<SnapshotNode>, ids: seq<nat>) returns (topologyChanged: bool, mutesChanged: bool)
      requires Merging() && ValidSnapshot(nodes) && KnownIds(Intended().topology, Pubkeys(nodes), ids)
      modifies this`follows, this`nodeInfo, this`mutes
      ensures Merging()
      ensures ViewOf(Intended()) == L.OfferAll(old(ViewOf(Intended())), SnapshotUpdates(nodes, |nodes|))
      ensures !topologyChanged ==> follows == old(follows)
      ensures !mutesChanged ==> mutes == old(mutes)
      ensures AllLose(old(ViewOf(Intended())), nodes) ==> !topologyChanged && !mutesChanged
    {
      hide L.AcceptsEvent, L.Offer, ViewOf, ValidData, L.OfferAll, SnapshotUpdates;
      ghost var start := ViewOf(Intended());
      topologyChanged, mutesChanged := false, false;
      NoRowsYet(start, nodes);
      for i := 0 to |nodes|
        invariant Merging()
        invariant ViewOf(Intended()) == L.OfferAll(start, SnapshotUpdates(nodes, i))
        invariant !topologyChanged ==> follows == old(follows)
        invariant !mutesChanged ==> mutes == old(mutes)
        invariant AllLose(start, nodes) ==> !topologyChanged && !mutesChanged && Intended() == old(Intended())
      {
        SnapshotStep(start, nodes, i);
        assert Pubkeys(nodes)[i] == nodes[i].pubkey;
        var changed := MergeFollows(ids[i], nodes[i], ids, Pubkeys(nodes));
        topologyChanged := topologyChanged || changed;
        if nodes[i].mutes.Some? {
          changed := MergeMutes(ids[i], nodes[i], ids, Pubkeys(nodes));
          mutesChanged := mutesChanged || changed;
        }
      }
    }

    /**
     Merge a snapshot: all its nodes first, then each row's lists as offers, then the
     follower lists once.
     */
    method RestoreNodes(nodes: seq<SnapshotNode>)
      requires Valid() && |idToPubkey| + |nodes| <= MAX_NODES && ValidSnapshot(nodes)
      modifies this
      ensures Valid() && old(idToPubkey) <= idToPubkey
      ensures View() == L.OfferAll(L.WithNodes(old(View()), set x | x in Pubkeys(nodes)), SnapshotUpdates(nodes, |nodes|))
      ensures var created := |idToPubkey| - |old(idToPubkey)|;
              && old(revision) + created <= revision <= old(revision) + created + 1
              && (revision == old(revision) + created ==>
                    Topo() == AddNodes(old(Contents()), Pubkeys(nodes)).topology && mutes == old(mutes))
              && (AllLose(old(View()), nodes) ==> revision == old(revision) + created)
      ensures revision == old(revision) ==> Topo() == old(Topo())
    {
      hide L.OfferAll, SnapshotUpdates, ReverseOf, AddNodes, ViewOf, ValidData, ValidTopology, KnownIds;
      AddNodesView(Contents(), Pubkeys(nodes));
      var ids := NodeIds(Pubkeys(nodes));
      NowMerging(Contents());
      ghost var known := Topo();
      if AllLose(old(View()), nodes) {
        StillLose(old(View()), (set x | x in Pubkeys(nodes)), nodes);
      }
      var topologyChanged, mutesChanged := MergeRows(nodes, ids);
      if topologyChanged {
        RebuildFollowers();
      }
      assert Contents() == Intended();
      if topologyChanged || mutesChanged {
        revision := revision + 1;
      }
    }
  }
}
