/** The contents of the in-memory graph as a value: what is consistent, and which lists it represents. */
module GraphData {
  import opened Options
  import opened Walks
  import opened SortedLists
  import opened Distances
  import L = Lists

  /** The number of ids a `u32` can tell apart; the graph is assumed to stay below it. */
  const MAX_NODES: nat := 0x1_0000_0000

  datatype MuteList = MuteList(ids: seq<nat>, version: L.Version)

  datatype Data = Data(topology: Topology, info: seq<Option<L.Version>>, mutes: map<nat, MuteList>)

  ghost predicate IdList(n: nat, ids: seq<nat>) {
    Sorted(ids) && forall x | x in ids :: x < n
  }

  ghost predicate ValidData(d: Data) {
    && ValidTopology(d.topology)
    && |d.info| == |d.topology.names|
    && (forall i | 0 <= i < |d.info| && d.info[i].None? :: d.topology.follows[i] == [])
    && (forall id | id in d.mutes :: id < |d.info| && IdList(|d.info|, d.mutes[id].ids))
  }

  function Names(names: seq<string>, ids: seq<nat>): set<string> {
    set i | 0 <= i < |ids| && ids[i] < |names| :: names[ids[i]]
  }

  function VersionOf(info: Option<L.Version>): L.Version {
    if info.Some? then info.value else L.UNVERSIONED
  }

  ghost function FollowEntry(d: Data, pk: string): L.Entry
    requires ValidData(d) && pk in d.topology.ids
  {
    var id := d.topology.ids[pk];
    L.Entry(VersionOf(d.info[id]), Names(d.topology.names, d.topology.follows[id]))
  }

  ghost function MuteEntry(d: Data, pk: string): L.Entry
    requires ValidData(d) && pk in d.topology.ids && d.topology.ids[pk] in d.mutes
  {
    var m := d.mutes[d.topology.ids[pk]];
    L.Entry(m.version, Names(d.topology.names, m.ids))
  }

  /** The lists by public key that the graph stands for. */
  ghost function ViewOf(d: Data): L.Lists
    requires ValidData(d)
  {
    L.Lists(map pk | pk in d.topology.ids :: FollowEntry(d, pk),
            map pk | pk in d.topology.ids && d.topology.ids[pk] in d.mutes :: MuteEntry(d, pk))
  }

  // ---------- New nodes ----------

  function WithNode(tp: Topology, pk: string): Topology {
    Topology(tp.names + [pk], tp.ids[pk := |tp.names|], tp.follows + [[]], tp.followers + [[]])
  }

  function AddNode(d: Data, pk: string): Data {
    if pk in d.topology.ids then d else Data(WithNode(d.topology, pk), d.info + [None], d.mutes)
  }

  /** A new node keeps everything consistent: it has no edge in either direction. */
  lemma WithNodeValid(tp: Topology, pk: string)
    requires ValidTopology(tp) && pk !in tp.ids
    ensures ValidTopology(WithNode(tp, pk))
  {
    var after := WithNode(tp, pk);
    forall u: nat, v: nat ensures Edge(after.follows, u, v) <==> Edge(after.followers, v, u) {
      assert Edge(after.follows, u, v) <==> Edge(tp.follows, u, v);
      assert Edge(after.followers, v, u) <==> Edge(tp.followers, v, u);
    }
  }

  lemma SameNodeCount(tp: Topology)
    requires ValidTopology(tp)
    ensures |tp.names| == |tp.follows| == |tp.followers|
  {
  }

  lemma AddNodeValid(d: Data, pk: string)
    requires ValidData(d)
    ensures ValidData(AddNode(d, pk))
  {
    hide ValidTopology;
    if pk !in d.topology.ids {
      WithNodeValid(d.topology, pk);
      SameNodeCount(d.topology);
    }
  }

  lemma NamesExtend(names: seq<string>, more: seq<string>, ids: seq<nat>)
    requires forall x | x in ids :: x < |names|
    ensures Names(names + more, ids) == Names(names, ids)
  {
    forall i | 0 <= i < |ids| ensures ids[i] < |names| && (names + more)[ids[i]] == names[ids[i]] {
      assert ids[i] in ids;
    }
  }

  lemma FollowsInRange(tp: Topology, u: nat)
    requires ValidTopology(tp) && u < |tp.follows|
    ensures forall x | x in tp.follows[u] :: x < |tp.names|
  {
    forall x | x in tp.follows[u] ensures x < |tp.names| {
      assert Edge(tp.follows, u, x);
      assert Edge(tp.followers, x, u);
    }
  }

  lemma EntriesKept(d: Data, pk: string, x: string)
    requires ValidData(d) && ValidData(AddNode(d, pk)) && x in d.topology.ids
    ensures x in AddNode(d, pk).topology.ids && FollowEntry(AddNode(d, pk), x) == FollowEntry(d, x)
    ensures d.topology.ids[x] in d.mutes ==> MuteEntry(AddNode(d, pk), x) == MuteEntry(d, x)
  {
    hide Names;
    var id := d.topology.ids[x];
    if pk !in d.topology.ids {
      FollowsInRange(d.topology, id);
      NamesExtend(d.topology.names, [pk], d.topology.follows[id]);
      if id in d.mutes {
        NamesExtend(d.topology.names, [pk], d.mutes[id].ids);
      }
    }
  }

  lemma NewEntry(d: Data, pk: string)
    requires ValidData(d) && ValidData(AddNode(d, pk)) && pk !in d.topology.ids
    ensures FollowEntry(AddNode(d, pk), pk) == L.NO_LIST
    ensures AddNode(d, pk).topology.ids[pk] !in d.mutes
  {
  }

  lemma SameViews(d: Data, pk: string)
    requires ValidData(d) && ValidData(AddNode(d, pk)) && pk !in d.topology.ids
    requires FollowEntry(AddNode(d, pk), pk) == L.NO_LIST
    requires AddNode(d, pk).topology.ids[pk] !in d.mutes
    ensures ViewOf(AddNode(d, pk)) == L.WithNodes(ViewOf(d), {pk})
  {
    hide FollowEntry, MuteEntry, ValidData;
    var after, l := AddNode(d, pk), L.WithNodes(ViewOf(d), {pk});
    forall x | x in d.topology.ids
      ensures FollowEntry(after, x) == FollowEntry(d, x)
      ensures d.topology.ids[x] in d.mutes ==> MuteEntry(after, x) == MuteEntry(d, x)
    {
      EntriesKept(d, pk, x);
    }
    assert ViewOf(after).follows == l.follows;
    assert ViewOf(after).mutes == l.mutes;
  }

  /** A new node is a known node without a list. */
  lemma AddNodeView(d: Data, pk: string)
    requires ValidData(d)
    ensures ValidData(AddNode(d, pk)) && ViewOf(AddNode(d, pk)) == L.WithNodes(ViewOf(d), {pk})
  {
    AddNodeValid(d, pk);
    if pk in d.topology.ids {
      assert ViewOf(d).follows == L.WithNodes(ViewOf(d), {pk}).follows;
    } else {
      NewEntry(d, pk);
      SameViews(d, pk);
    }
  }

  function AddNodes(d: Data, pks: seq<string>): Data {
    if pks == [] then d else AddNode(AddNodes(d, pks[..|pks| - 1]), pks[|pks| - 1])
  }

  ghost predicate Extends(d: Data, after: Data) {
    && d.topology.names <= after.topology.names
    && (forall pk | pk in d.topology.ids :: pk in after.topology.ids && after.topology.ids[pk] == d.topology.ids[pk])
    && d.topology.follows <= after.topology.follows
    && d.info <= after.info && d.mutes == after.mutes
  }

  lemma NoNewNodes(d: Data)
    requires ValidData(d)
    ensures L.WithNodes(ViewOf(d), {}) == ViewOf(d)
  {
  }

  lemma AddNodeExtends(d: Data, pk: string)
    requires ValidData(d)
    ensures Extends(d, AddNode(d, pk))
    ensures AddNode(d, pk).topology.ids.Keys == d.topology.ids.Keys + {pk}
  {
  }

  lemma NodesTwice(l: L.Lists, a: set<string>, b: set<string>)
    ensures L.WithNodes(L.WithNodes(l, a), b) == L.WithNodes(l, a + b)
  {
  }

  lemma {:induction false} AddNodesView(d: Data, pks: seq<string>)
    requires ValidData(d)
    ensures ValidData(AddNodes(d, pks)) && Extends(d, AddNodes(d, pks))
    ensures AddNodes(d, pks).topology.ids.Keys == d.topology.ids.Keys + set x | x in pks
    ensures ViewOf(AddNodes(d, pks)) == L.WithNodes(ViewOf(d), set x | x in pks)
  {
    hide ViewOf, ValidData, AddNode;
    if pks == [] {
      assert L.WithNodes(ViewOf(d), {}) == ViewOf(d) by { NoNewNodes(d); }
    } else {
      var rest, last := pks[..|pks| - 1], pks[|pks| - 1];
      assert pks == rest + [last];
      AddNodesView(d, rest);
      AddNodeView(AddNodes(d, rest), last);
      AddNodeExtends(AddNodes(d, rest), last);
      NodesTwice(ViewOf(d), set x | x in rest, {last});
      assert (set x | x in pks) == (set x | x in rest) + {last};
    }
  }

  // ---------- Replacing one follow list ----------

  /** What replacing the list of node `a` means for both adjacency vectors. */
  ghost predicate Rewired(tp: Topology, after: Topology, a: nat, list: seq<nat>) {
    && a < |tp.follows| && |after.follows| == |tp.follows| && |after.followers| == |tp.followers|
    && after.names == tp.names && after.ids == tp.ids
    && after.follows == tp.follows[a := list]
    && AllSorted(after.followers)
    && forall u: nat, v: nat | v < |tp.followers| ::
         Edge(after.followers, v, u) <==> if u == a then v in list else Edge(tp.followers, v, u)
  }

  lemma RewiredValid(tp: Topology, after: Topology, a: nat, list: seq<nat>)
    requires ValidTopology(tp) && Rewired(tp, after, a, list) && IdList(|tp.names|, list)
    ensures ValidTopology(after)
  {
    forall u: nat, v: nat ensures Edge(after.follows, u, v) <==> Edge(after.followers, v, u) {
      assert Edge(tp.follows, u, v) <==> Edge(tp.followers, v, u);
      if u == a {
        assert Edge(after.follows, u, v) <==> v in list;
      } else {
        assert Edge(after.follows, u, v) <==> Edge(tp.follows, u, v);
      }
    }
  }

  /** The sorted ids of a set of known names stand for exactly those names. */
  lemma NamesOfIds(tp: Topology, pks: seq<string>, ids: set<nat>)
    requires ValidTopology(tp) && forall x | x in pks :: x in tp.ids
    requires ids == set x | x in pks :: tp.ids[x]
    ensures IdList(|tp.names|, Ascending(|tp.names|, ids))
    ensures Names(tp.names, Ascending(|tp.names|, ids)) == set x | x in pks
  {
    var list := Ascending(|tp.names|, ids);
    AscendingIsSorted(|tp.names|, ids);
    forall x | x in pks ensures x in Names(tp.names, list) {
      assert tp.ids[x] in list;
    }
    forall x | x in Names(tp.names, list) ensures x in pks {
      var i :| 0 <= i < |list| && list[i] < |tp.names| && x == tp.names[list[i]];
      assert list[i] in list;
    }
  }

  /** An accepted follow list: the view changes in exactly that author's entry. */
  lemma RewiredView(d: Data, after: Data, pk: string, list: seq<nat>, version: L.Version)
    requires ValidData(d) && pk in d.topology.ids
    requires var a := d.topology.ids[pk];
             && Rewired(d.topology, after.topology, a, list) && IdList(|d.topology.names|, list)
             && after.info == d.info[a := Some(version)] && after.mutes == d.mutes
    ensures ValidData(after)
    ensures ViewOf(after) == L.Put(ViewOf(d), L.Follow, pk, L.Entry(version, Names(d.topology.names, list)))
  {
    RewiredValid(d.topology, after.topology, d.topology.ids[pk], list);
    var want := L.Put(ViewOf(d), L.Follow, pk, L.Entry(version, Names(d.topology.names, list)));
    forall x | x in after.topology.ids ensures FollowEntry(after, x) == want.follows[x] {
    }
    assert ViewOf(after).mutes == want.mutes;
    assert ViewOf(after).follows == want.follows;
  }

  /** An accepted mute list likewise. */
  lemma MutedView(d: Data, after: Data, pk: string, list: seq<nat>, version: L.Version)
    requires ValidData(d) && pk in d.topology.ids && IdList(|d.topology.names|, list)
    requires after == d.(mutes := d.mutes[d.topology.ids[pk] := MuteList(list, version)])
    ensures ValidData(after)
    ensures ViewOf(after) == L.Put(ViewOf(d), L.Mute, pk, L.Entry(version, Names(d.topology.names, list)))
  {
    var want := L.Put(ViewOf(d), L.Mute, pk, L.Entry(version, Names(d.topology.names, list)));
    assert ViewOf(after).follows == want.follows;
    forall x | x in after.topology.ids && after.topology.ids[x] in after.mutes
      ensures x in want.mutes && MuteEntry(after, x) == want.mutes[x]
    {
      if x != pk {
        assert d.topology.ids[x] != d.topology.ids[pk];
      }
    }
    assert ViewOf(after).mutes == want.mutes;
  }

  /** The reverse vector is determined by the forward one. */
  lemma FollowersUnique(f: Adjacency, r: Adjacency, r': Adjacency)
    requires Walks.WellFormed(f, r) && Walks.WellFormed(f, r')
    ensures r == r'
  {
    forall v | 0 <= v < |r| ensures r[v] == r'[v] {
      forall u: nat ensures u in r[v] <==> u in r'[v] {
        assert Edge(f, u, v) <==> Edge(r, v, u);
        assert Edge(f, u, v) <==> Edge(r', v, u);
      }
      SortedUnique(r[v], r'[v]);
    }
  }

  lemma NamesContained(tp: Topology, a: seq<nat>, b: seq<nat>, x: nat)
    requires ValidTopology(tp) && IdList(|tp.names|, a) && IdList(|tp.names|, b)
    requires Names(tp.names, a) <= Names(tp.names, b) && x in a
    ensures x in b
  {
    assert tp.names[x] in Names(tp.names, a);
    var j :| 0 <= j < |b| && b[j] < |tp.names| && tp.names[x] == tp.names[b[j]];
  }

  /** Two sorted id lists stand for the same keys only if they are equal. */
  lemma NamesTell(tp: Topology, a: seq<nat>, b: seq<nat>)
    requires ValidTopology(tp) && IdList(|tp.names|, a) && IdList(|tp.names|, b)
    requires Names(tp.names, a) == Names(tp.names, b)
    ensures a == b
  {
    hide Names, ValidTopology;
    forall x | x in a ensures x in b {
      NamesContained(tp, a, b, x);
    }
    forall x | x in b ensures x in a {
      NamesContained(tp, b, a, x);
    }
    SortedUnique(a, b);
  }

  /** Replacing a list changes the topology exactly when it changes the keys listed. */
  lemma RewiredChanges(tp: Topology, after: Topology, a: nat, list: seq<nat>)
    requires ValidTopology(tp) && Rewired(tp, after, a, list) && IdList(|tp.names|, list)
    ensures after == tp <==> Names(tp.names, tp.follows[a]) == Names(tp.names, list)
  {
    FollowsInRange(tp, a);
    if Names(tp.names, tp.follows[a]) == Names(tp.names, list) {
      NamesTell(tp, tp.follows[a], list);
      RewiredValid(tp, after, a, list);
      FollowersUnique(tp.follows, tp.followers, after.followers);
    } else {
      assert after.follows[a] == list;
    }
  }
}
