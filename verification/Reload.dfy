/** Loading the database into the graph: validation first, then one merge. */
module Reload {
  import opened Options
  import opened Tables
  import opened Sqlite
  import opened Store
  import L = Lists
  import GraphData

  datatype LoadResult = Loaded | TooManyNodes | MissingNode | InvalidMuteMetadata | InvalidMuteEdges

  const U32_MAX: nat := 0xFFFF_FFFF

  /** `rows` are the row ids, each once, and `index` their positions. */
  ghost predicate Indexed(t: Tables, rows: seq<int>, index: map<int, nat>) {
    && (forall i | 0 <= i < |rows| :: rows[i] in t.nodes && rows[i] in index && index[rows[i]] == i)
    && (forall id | id in t.nodes :: id in index)
    && (forall id | id in index :: index[id] < |rows| && rows[index[id]] == id)
  }

  ghost predicate NodesRead(t: Tables, rows: seq<int>, nodes: seq<SnapshotNode>) {
    && |nodes| == |rows|
    && forall i | 0 <= i < |rows| ::
         rows[i] in t.nodes && nodes[i].pubkey == t.nodes[rows[i]].pubkey && nodes[i].version == t.nodes[rows[i]].version
  }

  /** The follow edges read so far, by position. */
  ghost predicate EdgesRead(rows: seq<int>, nodes: seq<SnapshotNode>, edges: set<(int, int)>) {
    && |nodes| == |rows|
    && forall i | 0 <= i < |rows| ::
         && (forall j | j in nodes[i].follows :: j < |rows|)
         && (forall j | 0 <= j < |rows| :: j in nodes[i].follows <==> (rows[i], rows[j]) in edges)
  }

  /** The mute list rows read so far. */
  ghost predicate MutesRead(rows: seq<int>, nodes: seq<SnapshotNode>, lists: map<int, L.Version>) {
    && |nodes| == |rows|
    && forall i | 0 <= i < |rows| ::
         if rows[i] in lists then nodes[i].mutes.Some? && nodes[i].mutes.value.version == lists[rows[i]]
         else nodes[i].mutes.None?
  }

  ghost predicate MuteEdgesRead(rows: seq<int>, nodes: seq<SnapshotNode>, edges: set<(int, int)>) {
    && |nodes| == |rows|
    && forall i | 0 <= i < |rows| && nodes[i].mutes.Some? ::
         && (forall j | j in nodes[i].mutes.value.ids :: j < |rows|)
         && (forall j | 0 <= j < |rows| :: j in nodes[i].mutes.value.ids <==> (rows[i], rows[j]) in edges)
  }

  lemma {:induction false} Minimum(s: set<int>) returns (m: int)
    requires s != {}
    ensures m in s && forall x | x in s :: m <= x
  {
    Nonempty(s);
    m :| m in s;
    var rest := s - {m};
    if rest != {} {
      var n := Minimum(rest);
      assert forall x | x in s :: x == m || x in rest;
      m := if n < m then n else m;
    } else {
      assert forall x | x in s :: x == m || x in rest;
    }
  }

  /** One more follow edge in the snapshot is one more edge read. */
  lemma EdgeAdded(t: Tables, rows: seq<int>, index: map<int, nat>, nodes: seq<SnapshotNode>, edges: set<(int, int)>,
                  a: int, b: int)
    requires Indexed(t, rows, index) && EdgesRead(rows, nodes, edges) && a in index && b in index
    ensures var i := index[a];
            EdgesRead(rows, nodes[i := nodes[i].(follows := nodes[i].follows + [index[b]])], edges + {(a, b)})
  {
    var i := index[a];
    var nodes' := nodes[i := nodes[i].(follows := nodes[i].follows + [index[b]])];
    forall p, j | 0 <= p < |rows| && 0 <= j < |rows|
      ensures j in nodes'[p].follows <==> (rows[p], rows[j]) in edges + {(a, b)}
    {
      assert rows[p] == a <==> p == i;
      assert rows[j] == b <==> j == index[b];
      assert (rows[p], rows[j]) == (a, b) <==> rows[p] == a && rows[j] == b;
    }
  }

  lemma MuteEdgeAdded(t: Tables, rows: seq<int>, index: map<int, nat>, nodes: seq<SnapshotNode>, edges: set<(int, int)>,
                      a: int, b: int)
    requires Indexed(t, rows, index) && MuteEdgesRead(rows, nodes, edges) && a in index && b in index
    requires nodes[index[a]].mutes.Some?
    ensures var i := index[a];
            var list := nodes[i].mutes.value;
            MuteEdgesRead(rows, nodes[i := nodes[i].(mutes := Some(list.(ids := list.ids + [index[b]])))], edges + {(a, b)})
  {
    var i := index[a];
    var list := nodes[i].mutes.value;
    var nodes' := nodes[i := nodes[i].(mutes := Some(list.(ids := list.ids + [index[b]])))];
    forall p, j | 0 <= p < |rows| && 0 <= j < |rows| && nodes'[p].mutes.Some?
      ensures j in nodes'[p].mutes.value.ids <==> (rows[p], rows[j]) in edges + {(a, b)}
    {
      assert rows[p] == a <==> p == i;
      assert rows[j] == b <==> j == index[b];
      assert (rows[p], rows[j]) == (a, b) <==> rows[p] == a && rows[j] == b;
    }
  }

  /** The rows read so far, in ascending order; `rest` are the ids still to come. */
  ghost predicate RowsSoFar(t: Tables, rows: seq<int>, index: map<int, nat>, rest: set<int>) {
    && (forall i | 0 <= i < |rows| :: rows[i] in t.nodes && rows[i] in index && index[rows[i]] == i)
    && (forall id | id in t.nodes :: id in index || id in rest)
    && (forall id | id in index :: index[id] < |rows| && rows[index[id]] == id)
    && (forall i, x | 0 <= i < |rows| && x in rest :: rows[i] < x)
    && (forall i, j | 0 <= i < j < |rows| :: rows[i] < rows[j])
  }

  lemma NextRow(t: Tables, rows: seq<int>, index: map<int, nat>, rest: set<int>, id: int)
    requires RowsSoFar(t, rows, index, rest) && id in t.nodes && id in rest && forall x | x in rest :: id <= x
    ensures RowsSoFar(t, rows + [id], index[id := |rows|], rest - {id})
  {
    var rows', index' := rows + [id], index[id := |rows|];
    forall i | 0 <= i < |rows| ensures rows'[i] == rows[i] && rows[i] != id {
    }
    assert rows'[|rows|] == id;
  }

  lemma AllRows(t: Tables, rows: seq<int>, index: map<int, nat>)
    requires RowsSoFar(t, rows, index, {})
    ensures Indexed(t, rows, index) && forall i, j | 0 <= i < j < |rows| :: rows[i] < rows[j]
  {
  }

  /** Nodes as read from their rows, before any edge or mute list. */
  ghost predicate BareNodes(t: Tables, rows: seq<int>, nodes: seq<SnapshotNode>) {
    && |nodes| == |rows|
    && forall i | 0 <= i < |rows| ::
         rows[i] in t.nodes && nodes[i] == SnapshotNode(t.nodes[rows[i]].pubkey, t.nodes[rows[i]].version, [], None)
  }

  lemma BareNodesRead(t: Tables, rows: seq<int>, nodes: seq<SnapshotNode>)
    requires BareNodes(t, rows, nodes)
    ensures NodesRead(t, rows, nodes) && EdgesRead(rows, nodes, {}) && MutesRead(rows, nodes, map[])
  {
  }

  /** SELECT ... FROM nodes ORDER BY id. */
  method ReadNodes(t: Tables) returns (rows: seq<int>, index: map<int, nat>, nodes: seq<SnapshotNode>)
    ensures Indexed(t, rows, index) && NodesRead(t, rows, nodes) && |rows| == |t.nodes|
    ensures EdgesRead(rows, nodes, {}) && MutesRead(rows, nodes, map[])
    ensures forall i, j | 0 <= i < j < |rows| :: rows[i] < rows[j]
  {
    hide Indexed, NodesRead, EdgesRead, MutesRead;
    rows, index, nodes := [], map[], [];
    var rest := t.nodes.Keys;
    while rest != {}
      invariant rest <= t.nodes.Keys && |rows| + |rest| == |t.nodes|
      invariant RowsSoFar(t, rows, index, rest) && BareNodes(t, rows, nodes)
      decreases rest
    {
      hide RowsSoFar;
      ghost var least := Minimum(rest);
      var id :| id in rest && forall x | x in rest :: id <= x;
      NextRow(t, rows, index, rest, id);
      index := index[id := |rows|];
      rows := rows + [id];
      nodes := nodes + [SnapshotNode(t.nodes[id].pubkey, t.nodes[id].version, [], None)];
      rest := rest - {id};
    }
    AllRows(t, rows, index);
    BareNodesRead(t, rows, nodes);
  }

  /** Stream the follow edges into the snapshot; stop at one that refers to a missing node. */
  method ReadEdges(t: Tables, rows: seq<int>, index: map<int, nat>, nodes: seq<SnapshotNode>)
    returns (ok: bool, nodes': seq<SnapshotNode>)
    requires Indexed(t, rows, index) && NodesRead(t, rows, nodes)
    requires EdgesRead(rows, nodes, {}) && MutesRead(rows, nodes, map[])
    ensures ok <==> forall a, b | (a, b) in t.edges :: a in t.nodes && b in t.nodes
    ensures ok ==> NodesRead(t, rows, nodes') && EdgesRead(rows, nodes', t.edges) && MutesRead(rows, nodes', map[])
  {
    hide EdgesRead;
    nodes' := nodes;
    var rest := t.edges;
    assert t.edges - rest == {};
    while rest != {}
      invariant rest <= t.edges && NodesRead(t, rows, nodes') && MutesRead(rows, nodes', map[])
      invariant EdgesRead(rows, nodes', t.edges - rest)
      invariant forall a, b | (a, b) in t.edges && (a, b) !in rest :: a in t.nodes && b in t.nodes
      decreases rest
    {
      var edge :| edge in rest;
      var (a, b) := edge;
      if a !in index || b !in index {
        assert (a, b) in t.edges && !(a in t.nodes && b in t.nodes);
        return false, nodes';
      }
      var i, j := index[a], index[b];
      EdgeAdded(t, rows, index, nodes', t.edges - rest, a, b);
      assert t.edges - (rest - {edge}) == t.edges - rest + {(a, b)};
      nodes' := nodes'[i := nodes'[i].(follows := nodes'[i].follows + [j])];
      rest := rest - {edge};
    }
    ok := true;
    assert t.edges - rest == t.edges;
  }

  /** The mute list rows read so far, none of which has its edges yet. */
  ghost predicate EmptyLists(rows: seq<int>, nodes: seq<SnapshotNode>, lists: map<int, L.Version>) {
    && |nodes| == |rows|
    && forall i | 0 <= i < |rows| ::
         nodes[i].mutes == if rows[i] in lists then Some(SnapshotMutes([], lists[rows[i]])) else None
  }

  lemma ListAdded(t: Tables, rows: seq<int>, index: map<int, nat>, nodes: seq<SnapshotNode>, lists: map<int, L.Version>,
                  id: int, version: L.Version)
    requires Indexed(t, rows, index) && EmptyLists(rows, nodes, lists) && id in index
    ensures EmptyLists(rows, nodes[index[id] := nodes[index[id]].(mutes := Some(SnapshotMutes([], version)))],
                       lists[id := version])
  {
    forall p | 0 <= p < |rows| ensures rows[p] == id <==> p == index[id] {
    }
  }

  /** Mute lists play no part in what was read of the nodes and their follow edges. */
  lemma MutesAside(t: Tables, rows: seq<int>, nodes: seq<SnapshotNode>, i: nat, mutes: Option<SnapshotMutes>)
    requires NodesRead(t, rows, nodes) && EdgesRead(rows, nodes, t.edges) && i < |nodes|
    ensures NodesRead(t, rows, nodes[i := nodes[i].(mutes := mutes)])
    ensures EdgesRead(rows, nodes[i := nodes[i].(mutes := mutes)], t.edges)
  {
    forall p | 0 <= p < |rows| ensures nodes[i := nodes[i].(mutes := mutes)][p].follows == nodes[p].follows {
    }
  }

  lemma ListsRead(rows: seq<int>, nodes: seq<SnapshotNode>, lists: map<int, L.Version>)
    requires EmptyLists(rows, nodes, lists)
    ensures MutesRead(rows, nodes, lists) && MuteEdgesRead(rows, nodes, {})
  {
  }

  lemma NoListsYet(rows: seq<int>, nodes: seq<SnapshotNode>)
    requires MutesRead(rows, nodes, map[])
    ensures EmptyLists(rows, nodes, map[]) && |nodes| == |rows|
  {
  }

  lemma Positions(t: Tables, rows: seq<int>, index: map<int, nat>, nodes: seq<SnapshotNode>)
    requires Indexed(t, rows, index)
    ensures forall id :: id in index <==> id in t.nodes
    ensures forall id | id in index :: index[id] < |rows|
  {
    forall id | id in index ensures id in t.nodes {
      assert 0 <= index[id] < |rows| && rows[index[id]] == id;
    }
  }

  method ReadMuteLists(t: Tables, rows: seq<int>, index: map<int, nat>, nodes: seq<SnapshotNode>)
    returns (ok: bool, nodes': seq<SnapshotNode>)
    requires Indexed(t, rows, index) && NodesRead(t, rows, nodes)
    requires EdgesRead(rows, nodes, t.edges) && MutesRead(rows, nodes, map[])
    ensures ok <==> forall id | id in t.muteLists :: id in t.nodes
    ensures ok ==> NodesRead(t, rows, nodes') && EdgesRead(rows, nodes', t.edges)
    ensures ok ==> MutesRead(rows, nodes', t.muteLists) && MuteEdgesRead(rows, nodes', {})
  {
    NoListsYet(rows, nodes);
    Positions(t, rows, index, nodes);
    hide Indexed, NodesRead, EdgesRead, MutesRead, MuteEdgesRead, EmptyLists;
    nodes' := nodes;
    var rest := t.muteLists.Keys;
    assert t.muteLists - rest == map[];
    while rest != {}
      invariant rest <= t.muteLists.Keys && |nodes'| == |rows|
      invariant NodesRead(t, rows, nodes') && EdgesRead(rows, nodes', t.edges)
      invariant EmptyLists(rows, nodes', t.muteLists - rest)
      invariant forall id | id in t.muteLists && id !in rest :: id in t.nodes
      decreases rest
    {
      Nonempty(rest);
      var id :| id in rest;
      if id !in index {
        assert id in t.muteLists && id !in t.nodes;
        return false, nodes';
      }
      var version := t.muteLists[id];
      ListAdded(t, rows, index, nodes', t.muteLists - rest, id, version);
      MutesAside(t, rows, nodes', index[id], Some(SnapshotMutes([], version)));
      assert t.muteLists - (rest - {id}) == (t.muteLists - rest)[id := version];
      nodes' := nodes'[index[id] := nodes'[index[id]].(mutes := Some(SnapshotMutes([], version)))];
      rest := rest - {id};
    }
    ok := true;
    assert t.muteLists - rest == t.muteLists;
    ListsRead(rows, nodes', t.muteLists);
  }

  method ReadMuteEdges(t: Tables, rows: seq<int>, index: map<int, nat>, nodes: seq<SnapshotNode>)
    returns (ok: bool, nodes': seq<SnapshotNode>)
    requires Indexed(t, rows, index) && NodesRead(t, rows, nodes) && EdgesRead(rows, nodes, t.edges)
    requires MutesRead(rows, nodes, t.muteLists) && MuteEdgesRead(rows, nodes, {})
    requires forall id | id in t.muteLists :: id in t.nodes
    ensures ok <==> forall a, b | (a, b) in t.muteEdges :: a in t.muteLists && b in t.nodes
    ensures ok ==> NodesRead(t, rows, nodes') && EdgesRead(rows, nodes', t.edges)
    ensures ok ==> MutesRead(rows, nodes', t.muteLists) && MuteEdgesRead(rows, nodes', t.muteEdges)
  {
    hide MuteEdgesRead;
    nodes' := nodes;
    var rest := t.muteEdges;
    assert t.muteEdges - rest == {};
    while rest != {}
      invariant rest <= t.muteEdges && NodesRead(t, rows, nodes') && EdgesRead(rows, nodes', t.edges)
      invariant MutesRead(rows, nodes', t.muteLists) && MuteEdgesRead(rows, nodes', t.muteEdges - rest)
      invariant forall a, b | (a, b) in t.muteEdges && (a, b) !in rest :: a in t.muteLists && b in t.nodes
      decreases rest
    {
      var edge :| edge in rest;
      var (a, b) := edge;
      if a !in index || b !in index || nodes'[index[a]].mutes.None? {
        assert (a, b) in t.muteEdges && !(a in t.muteLists && b in t.nodes);
        return false, nodes';
      }
      var i, j := index[a], index[b];
      var list := nodes'[i].mutes.value;
      MuteEdgeAdded(t, rows, index, nodes', t.muteEdges - rest, a, b);
      assert t.muteEdges - (rest - {edge}) == t.muteEdges - rest + {(a, b)};
      nodes' := nodes'[i := nodes'[i].(mutes := Some(list.(ids := list.ids + [j])))];
      rest := rest - {edge};
    }
    ok := true;
    assert t.muteEdges - rest == t.muteEdges;
  }

  // ---------- What the snapshot stands for ----------

  /** The complete, validated snapshot. */
  ghost predicate SnapshotOf(t: Tables, rows: seq<int>, nodes: seq<SnapshotNode>) {
    && ValidTables(t) && NodesRead(t, rows, nodes) && EdgesRead(rows, nodes, t.edges)
    && MutesRead(rows, nodes, t.muteLists) && MuteEdgesRead(rows, nodes, t.muteEdges)
    && (forall i, j | 0 <= i < j < |rows| :: rows[i] != rows[j])
    && (forall id | id in t.nodes :: id in rows)
  }

  lemma SnapshotValid(t: Tables, rows: seq<int>, nodes: seq<SnapshotNode>)
    requires SnapshotOf(t, rows, nodes)
    ensures ValidSnapshot(nodes)
    ensures (set x | x in Pubkeys(nodes)) == NamesIn(t.nodes)
  {
    forall i | 0 <= i < |nodes|
      ensures forall j | 0 <= j < |nodes[i].follows| :: nodes[i].follows[j] < |nodes|
      ensures nodes[i].mutes.Some? ==>
                forall j | 0 <= j < |nodes[i].mutes.value.ids| :: nodes[i].mutes.value.ids[j] < |nodes|
    {
      assert forall j | 0 <= j < |nodes[i].follows| :: nodes[i].follows[j] in nodes[i].follows;
      if nodes[i].mutes.Some? {
        var ids := nodes[i].mutes.value.ids;
        assert forall j | 0 <= j < |ids| :: ids[j] in ids;
      }
    }
    var pks := Pubkeys(nodes);
    forall x | x in pks ensures x in NamesIn(t.nodes) {
      var i :| 0 <= i < |pks| && pks[i] == x;
      assert t.nodes[rows[i]].pubkey == x;
    }
    forall x | x in NamesIn(t.nodes) ensures x in pks {
      var id := IdOf(t.nodes, x);
      var i :| 0 <= i < |rows| && rows[i] == id;
      assert pks[i] == x;
    }
  }

  /** The row's list of one kind, as an update by public key. */
  ghost function RowUpdate(nodes: seq<SnapshotNode>, i: nat, kind: L.Kind): L.Update
    requires i < |nodes| && ValidSnapshot(nodes) && (kind == L.Mute ==> nodes[i].mutes.Some?)
  {
    if kind == L.Follow then L.Update(L.Follow, nodes[i].pubkey, Pick(Pubkeys(nodes), nodes[i].follows), nodes[i].version)
    else
      var m := nodes[i].mutes.value;
      L.Update(L.Mute, nodes[i].pubkey, Pick(Pubkeys(nodes), m.ids), m.version)
  }

  ghost predicate HasList(nodes: seq<SnapshotNode>, i: nat, kind: L.Kind)
    requires i < |nodes|
  {
    kind == L.Follow || nodes[i].mutes.Some?
  }

  lemma LastRow(nodes: seq<SnapshotNode>, m: nat, e: L.Entry, kind: L.Kind, pk: string)
    requires m < |nodes| && ValidSnapshot(nodes)
    ensures var before := L.AbsorbAll(e, SnapshotUpdates(nodes, m), kind, pk);
            L.AbsorbAll(e, SnapshotUpdates(nodes, m + 1), kind, pk) ==
            if nodes[m].pubkey == pk && HasList(nodes, m, kind) then L.Absorb(before, RowUpdate(nodes, m, kind)) else before
  {
    hide L.Absorb, Pick;
    var us := SnapshotUpdates(nodes, m);
    var f := RowUpdate(nodes, m, L.Follow);
    assert (us + [f])[..|us|] == us;
    if nodes[m].mutes.Some? {
      var g := RowUpdate(nodes, m, L.Mute);
      assert SnapshotUpdates(nodes, m + 1) == us + [f] + [g];
      assert (us + [f] + [g])[..|us| + 1] == us + [f];
    } else {
      assert SnapshotUpdates(nodes, m + 1) == us + [f];
    }
  }

  lemma NothingSnapshot(nodes: seq<SnapshotNode>)
    requires ValidSnapshot(nodes)
    ensures SnapshotUpdates(nodes, 0) == []
  {
  }

  /** Each author's list absorbs the one row that carries it. */
  lemma {:induction false} RowAbsorbed(nodes: seq<SnapshotNode>, m: nat, i: nat, e: L.Entry, kind: L.Kind)
    requires m <= |nodes| && i < |nodes| && ValidSnapshot(nodes)
    requires forall a, b | 0 <= a < b < |nodes| :: nodes[a].pubkey != nodes[b].pubkey
    ensures L.AbsorbAll(e, SnapshotUpdates(nodes, m), kind, nodes[i].pubkey) ==
            if i < m && HasList(nodes, i, kind) then L.Absorb(e, RowUpdate(nodes, i, kind)) else e
  {
    hide L.Absorb, SnapshotUpdates;
    if m == 0 {
      assert SnapshotUpdates(nodes, 0) == [] by { NothingSnapshot(nodes); }
    } else {
      LastRow(nodes, m - 1, e, kind, nodes[i].pubkey);
      RowAbsorbed(nodes, m - 1, i, e, kind);
    }
  }

  lemma {:induction false} NoRowAbsorbed(nodes: seq<SnapshotNode>, m: nat, pk: string, e: L.Entry, kind: L.Kind)
    requires m <= |nodes| && ValidSnapshot(nodes) && forall i | 0 <= i < |nodes| :: nodes[i].pubkey != pk
    ensures L.AbsorbAll(e, SnapshotUpdates(nodes, m), kind, pk) == e
  {
    hide L.Absorb, SnapshotUpdates;
    if m == 0 {
      assert SnapshotUpdates(nodes, 0) == [] by { NothingSnapshot(nodes); }
    } else {
      LastRow(nodes, m - 1, e, kind, pk);
      NoRowAbsorbed(nodes, m - 1, pk, e, kind);
    }
  }

  /** `ids` are the positions of the rows that the edges of row `a` lead to. */
  ghost predicate LeadTo(nodes: map<int, NodeRow>, rows: seq<int>, edges: set<(int, int)>, a: int, ids: seq<nat>) {
    && (forall p | 0 <= p < |ids| :: ids[p] < |rows|)
    && (forall j | 0 <= j < |rows| :: rows[j] in nodes && (j in ids <==> (a, rows[j]) in edges))
    && (forall id | id in nodes :: id in rows)
  }

  lemma PickedNames(nodes: map<int, NodeRow>, rows: seq<int>, edges: set<(int, int)>, a: int, ids: seq<nat>, pks: seq<string>)
    requires LeadTo(nodes, rows, edges, a, ids) && |pks| == |rows|
    requires forall i | 0 <= i < |rows| :: rows[i] in nodes && pks[i] == nodes[rows[i]].pubkey
    ensures (set x | x in Pick(pks, ids)) == TargetNames(nodes, edges, a)
  {
    var picked := Pick(pks, ids);
    forall x | x in picked ensures x in TargetNames(nodes, edges, a) {
      var p :| 0 <= p < |picked| && picked[p] == x;
      var b := rows[ids[p]];
      assert ids[p] in ids && b in nodes && (a, b) in edges && nodes[b].pubkey == x;
    }
    forall x | x in TargetNames(nodes, edges, a) ensures x in picked {
      var b :| b in nodes && (a, b) in edges && nodes[b].pubkey == x;
      var j :| 0 <= j < |rows| && rows[j] == b;
      var p :| 0 <= p < |ids| && ids[p] == j;
      assert picked[p] == x;
    }
  }

  lemma RowLeadsTo(t: Tables, rows: seq<int>, nodes: seq<SnapshotNode>, i: nat, kind: L.Kind)
    requires SnapshotOf(t, rows, nodes) && i < |nodes| && HasList(nodes, i, kind)
    ensures |nodes| == |rows| && forall k | 0 <= k < |rows| :: rows[k] in t.nodes && nodes[k].pubkey == t.nodes[rows[k]].pubkey
    ensures LeadTo(t.nodes, rows, EdgesOf(t, kind), rows[i], if kind == L.Follow then nodes[i].follows else nodes[i].mutes.value.ids)
  {
    hide ValidTables;
    var ids := if kind == L.Follow then nodes[i].follows else nodes[i].mutes.value.ids;
    assert forall p | 0 <= p < |ids| :: ids[p] in ids;
  }

  /** The picked names of a row are the names its edges lead to. */
  lemma RowTargets(t: Tables, rows: seq<int>, nodes: seq<SnapshotNode>, i: nat, kind: L.Kind)
    requires SnapshotOf(t, rows, nodes) && ValidSnapshot(nodes) && |nodes| == |rows|
    requires i < |nodes| && HasList(nodes, i, kind)
    ensures L.Targets(RowUpdate(nodes, i, kind)) == TargetNames(t.nodes, EdgesOf(t, kind), rows[i])
  {
    RowLeadsTo(t, rows, nodes, i, kind);
    hide SnapshotOf, LeadTo, TargetNames, EdgesOf, Pick;
    var ids := if kind == L.Follow then nodes[i].follows else nodes[i].mutes.value.ids;
    PickedNames(t.nodes, rows, EdgesOf(t, kind), rows[i], ids, Pubkeys(nodes));
  }

  /** The list of `v` if it has one that is accepted, else the list of `l`. */
  function Joined(l: map<string, L.Entry>, v: map<string, L.Entry>, pk: string): L.Entry {
    var e := L.Get(l, pk);
    if pk in v && L.AcceptsEvent(e.version, v[pk].version) then v[pk] else e
  }

  /** The per-author join of the live lists and the stored ones. */
  function Restore(l: L.Lists, v: L.Lists): L.Lists {
    L.Lists(map pk | pk in l.follows.Keys + v.follows.Keys :: Joined(l.follows, v.follows, pk),
            map pk | pk in l.mutes.Keys + v.mutes.Keys :: Joined(l.mutes, v.mutes, pk))
  }

  lemma RowNamed(nodes: map<int, NodeRow>, id: int)
    requires id in nodes
    ensures nodes[id].pubkey in NamesIn(nodes)
  {
  }

  lemma RowEntry(t: Tables, rows: seq<int>, nodes: seq<SnapshotNode>, i: nat)
    requires SnapshotOf(t, rows, nodes) && ValidSnapshot(nodes) && i < |nodes|
    ensures var pk := nodes[i].pubkey;
            var u := RowUpdate(nodes, i, L.Follow);
            && pk in ViewOf(t).follows && ViewOf(t).follows[pk] == L.Entry(u.version, L.Targets(u))
            && (pk in ViewOf(t).mutes <==> nodes[i].mutes.Some?)
            && (nodes[i].mutes.Some? ==>
                  var m := RowUpdate(nodes, i, L.Mute);
                  ViewOf(t).mutes[pk] == L.Entry(m.version, L.Targets(m)))
  {
    hide TargetNames, Pick, EdgesRead, MuteEdgesRead, L.Targets;
    var pk := nodes[i].pubkey;
    RowNamed(t.nodes, rows[i]);
    assert IdOf(t.nodes, pk) == rows[i];
    RowTargets(t, rows, nodes, i, L.Follow);
    if nodes[i].mutes.Some? {
      RowTargets(t, rows, nodes, i, L.Mute);
    }
  }

  lemma DistinctNames(t: Tables, rows: seq<int>, nodes: seq<SnapshotNode>)
    requires SnapshotOf(t, rows, nodes)
    ensures forall a, b | 0 <= a < b < |nodes| :: nodes[a].pubkey != nodes[b].pubkey
  {
  }

  lemma StoredAt(t: Tables, rows: seq<int>, nodes: seq<SnapshotNode>, pk: string) returns (i: nat)
    requires SnapshotOf(t, rows, nodes) && pk in NamesIn(t.nodes)
    ensures i < |nodes| && nodes[i].pubkey == pk
  {
    var id := IdOf(t.nodes, pk);
    i :| 0 <= i < |rows| && rows[i] == id;
  }

  lemma NotStored(t: Tables, rows: seq<int>, nodes: seq<SnapshotNode>, pk: string)
    requires SnapshotOf(t, rows, nodes) && forall i | 0 <= i < |nodes| :: nodes[i].pubkey != pk
    ensures pk !in ViewOf(t).follows && pk !in ViewOf(t).mutes
  {
    if pk in NamesIn(t.nodes) {
      var i := StoredAt(t, rows, nodes, pk);
      assert false;
    }
  }

  /** One author after the merge: the join of the live and the stored list. */
  lemma RestoredEntry(l: L.Lists, t: Tables, rows: seq<int>, nodes: seq<SnapshotNode>, kind: L.Kind, pk: string)
    requires SnapshotOf(t, rows, nodes) && ValidSnapshot(nodes)
    ensures var after := L.OfferAll(L.WithNodes(l, NamesIn(t.nodes)), SnapshotUpdates(nodes, |nodes|));
            L.Get(L.Of(after, kind), pk) == Joined(L.Of(l, kind), L.Of(ViewOf(t), kind), pk)
  {
    hide L.OfferAll, SnapshotUpdates, L.AbsorbAll, RowUpdate, EdgesRead, MuteEdgesRead, MutesRead, ValidTables, ValidSnapshot;
    var known := L.WithNodes(l, NamesIn(t.nodes));
    var e := L.Get(L.Of(l, kind), pk);
    assert L.Get(L.Of(known, kind), pk) == e;
    L.GetOfferAll(known, SnapshotUpdates(nodes, |nodes|), kind, pk);
    DistinctNames(t, rows, nodes);
    if i :| 0 <= i < |nodes| && nodes[i].pubkey == pk {
      RowAbsorbed(nodes, |nodes|, i, e, kind);
      RowEntry(t, rows, nodes, i);
    } else {
      NoRowAbsorbed(nodes, |nodes|, pk, e, kind);
      NotStored(t, rows, nodes, pk);
    }
  }

  /** The updates of the snapshot are its rows' lists. */
  lemma {:induction false} SnapshotHas(nodes: seq<SnapshotNode>, m: nat, u: L.Update)
    requires m <= |nodes| && ValidSnapshot(nodes)
    ensures u in SnapshotUpdates(nodes, m) <==>
            exists i :: 0 <= i < m && HasList(nodes, i, u.kind) && u == RowUpdate(nodes, i, u.kind)
  {
    hide Pick;
    if m > 0 {
      SnapshotHas(nodes, m - 1, u);
      var us, f := SnapshotUpdates(nodes, m - 1), RowUpdate(nodes, m - 1, L.Follow);
      if nodes[m - 1].mutes.Some? {
        assert SnapshotUpdates(nodes, m) == us + [f] + [RowUpdate(nodes, m - 1, L.Mute)];
      } else {
        assert SnapshotUpdates(nodes, m) == us + [f];
      }
    }
  }

  lemma {:induction false} NoNewNodes(l: L.Lists, us: seq<L.Update>)
    requires forall u | u in us :: u.author in l.follows && L.Targets(u) <= l.follows.Keys
    ensures L.OfferAll(l, us).follows.Keys == l.follows.Keys
  {
    hide L.Offer, L.Targets;
    if us != [] {
      var rest, last := us[..|us| - 1], us[|us| - 1];
      assert us == rest + [last];
      NoNewNodes(l, rest);
      L.GetOffer(L.OfferAll(l, rest), last, last.kind, last.author);
    }
  }

  lemma RowAuthor(nodes: seq<SnapshotNode>, i: nat, kind: L.Kind)
    requires i < |nodes| && ValidSnapshot(nodes) && HasList(nodes, i, kind)
    ensures RowUpdate(nodes, i, kind).author == nodes[i].pubkey && RowUpdate(nodes, i, kind).kind == kind
  {
  }

  lemma TargetsAreNames(nodes: map<int, NodeRow>, edges: set<(int, int)>, id: int)
    ensures TargetNames(nodes, edges, id) <= NamesIn(nodes)
  {
  }

  lemma RestoredKeys(l: L.Lists, t: Tables, rows: seq<int>, nodes: seq<SnapshotNode>)
    requires SnapshotOf(t, rows, nodes) && ValidSnapshot(nodes)
    ensures var after := L.OfferAll(L.WithNodes(l, NamesIn(t.nodes)), SnapshotUpdates(nodes, |nodes|));
            after.follows.Keys == l.follows.Keys + NamesIn(t.nodes)
  {
    hide L.OfferAll, SnapshotUpdates, RowUpdate, EdgesRead, MuteEdgesRead, MutesRead, L.Targets, TargetNames;
    var known := L.WithNodes(l, NamesIn(t.nodes));
    forall u | u in SnapshotUpdates(nodes, |nodes|)
      ensures u.author in known.follows && L.Targets(u) <= known.follows.Keys
    {
      SnapshotHas(nodes, |nodes|, u);
      var i :| 0 <= i < |nodes| && HasList(nodes, i, u.kind) && u == RowUpdate(nodes, i, u.kind);
      RowTargets(t, rows, nodes, i, u.kind);
      TargetsAreNames(t.nodes, EdgesOf(t, u.kind), rows[i]);
      RowAuthor(nodes, i, u.kind);
      assert t.nodes[rows[i]].pubkey in NamesIn(t.nodes);
    }
    NoNewNodes(known, SnapshotUpdates(nodes, |nodes|));
  }

  lemma MuteNamesKnown(t: Tables, pk: string)
    requires pk in ViewOf(t).mutes
    ensures pk in NamesIn(t.nodes)
  {
  }

  lemma RestoredMutes(l: L.Lists, t: Tables, rows: seq<int>, nodes: seq<SnapshotNode>, pk: string)
    requires SnapshotOf(t, rows, nodes) && ValidSnapshot(nodes)
    ensures var after := L.OfferAll(L.WithNodes(l, NamesIn(t.nodes)), SnapshotUpdates(nodes, |nodes|));
            pk in after.mutes <==> pk in l.mutes || pk in ViewOf(t).mutes
  {
    hide L.OfferAll, SnapshotUpdates, RowUpdate, EdgesRead, MuteEdgesRead, MutesRead, L.WinnerOf, ViewOf;
    var us := SnapshotUpdates(nodes, |nodes|);
    L.MutesKnown(L.WithNodes(l, NamesIn(t.nodes)), us, pk);
    L.WinnerFromSequence(us, L.Mute, pk);
    if L.WinnerOf(us, L.Mute, pk).Some? {
      var u := L.WinnerOf(us, L.Mute, pk).value;
      SnapshotHas(nodes, |nodes|, u);
      var i :| 0 <= i < |nodes| && HasList(nodes, i, L.Mute) && u == RowUpdate(nodes, i, L.Mute);
      RowAuthor(nodes, i, L.Mute);
      RowEntry(t, rows, nodes, i);
    }
    if pk in ViewOf(t).mutes {
      MuteNamesKnown(t, pk);
      var i := StoredAt(t, rows, nodes, pk);
      RowEntry(t, rows, nodes, i);
      RowAuthor(nodes, i, L.Mute);
      SnapshotHas(nodes, |nodes|, RowUpdate(nodes, i, L.Mute));
    }
  }

  /** Merging the snapshot of the rows is the per-author join with the stored lists. */
  lemma RestoredView(l: L.Lists, t: Tables, rows: seq<int>, nodes: seq<SnapshotNode>)
    requires SnapshotOf(t, rows, nodes) && ValidSnapshot(nodes)
    ensures L.OfferAll(L.WithNodes(l, NamesIn(t.nodes)), SnapshotUpdates(nodes, |nodes|)) == Restore(l, ViewOf(t))
  {
    hide L.OfferAll, SnapshotUpdates, Joined, SnapshotOf, FollowRow, MuteRow;
    var after, want := L.OfferAll(L.WithNodes(l, NamesIn(t.nodes)), SnapshotUpdates(nodes, |nodes|)), Restore(l, ViewOf(t));
    RestoredKeys(l, t, rows, nodes);
    assert ViewOf(t).follows.Keys == NamesIn(t.nodes);
    forall pk | pk in after.follows ensures after.follows[pk] == want.follows[pk] {
      RestoredEntry(l, t, rows, nodes, L.Follow, pk);
    }
    forall pk ensures pk in after.mutes <==> pk in want.mutes {
      RestoredMutes(l, t, rows, nodes, pk);
    }
    forall pk | pk in after.mutes ensures after.mutes[pk] == want.mutes[pk] {
      RestoredEntry(l, t, rows, nodes, L.Mute, pk);
    }
    assert after.follows == want.follows;
    assert after.mutes == want.mutes;
  }

  // ---------- Loading ----------

  lemma RowCount(t: Tables, rows: seq<int>, nodes: seq<SnapshotNode>)
    requires NodesRead(t, rows, nodes)
    ensures |nodes| == |rows|
  {
  }

  lemma AllRead(t: Tables, rows: seq<int>, index: map<int, nat>)
    requires Indexed(t, rows, index)
    ensures forall id | id in t.nodes :: id in rows
    ensures forall i, j | 0 <= i < j < |rows| :: rows[i] != rows[j]
  {
    forall id | id in t.nodes ensures id in rows {
      assert rows[index[id]] == id;
    }
  }

  /** The first defect that loading meets, if any. */
  ghost function Verdict(t: Tables): LoadResult {
    if |t.nodes| >= 0x1_0000_0000 then TooManyNodes
    else if exists a, b :: (a, b) in t.edges && (a !in t.nodes || b !in t.nodes) then MissingNode
    else if exists id :: id in t.muteLists && id !in t.nodes then InvalidMuteMetadata
    else if exists a, b :: (a, b) in t.muteEdges && (a !in t.muteLists || b !in t.nodes) then InvalidMuteEdges
    else Loaded
  }

  /** `load_graph`: read and validate everything, then publish it in one merge. */
  method LoadGraph(db: Database, graph: WotGraph) returns (result: LoadResult)
    requires UniqueNames(db.tables.nodes) && graph.Valid()
    requires |db.tables.nodes| <= 0xFFFF_FFFF ==> |graph.idToPubkey| + |db.tables.nodes| <= 0x1_0000_0000
    modifies graph
    ensures graph.Valid()
    ensures result == Verdict(db.tables)
    ensures result == Loaded <==> |db.tables.nodes| <= 0xFFFF_FFFF && Consistent(db.tables)
    ensures result == Loaded ==> graph.View() == Restore(old(graph.View()), db.View())
    ensures result != Loaded ==> graph.View() == old(graph.View()) && graph.revision == old(graph.revision)
    ensures db.tables == old(db.tables)
  {
    hide EdgesRead, MutesRead, MuteEdgesRead, NodesRead, Indexed, Restore, ViewOf, GraphData.ViewOf, GraphData.ValidData,
         SnapshotUpdates, ValidSnapshot;
    var t := db.tables;
    var rows, index, nodes := ReadNodes(t);
    if |nodes| > U32_MAX {
      assert |nodes| == |rows| by { RowCount(t, rows, nodes); }
      return TooManyNodes;
    }
    assert |nodes| == |rows| by { RowCount(t, rows, nodes); }
    var ok;
    ok, nodes := ReadEdges(t, rows, index, nodes);
    if !ok {
      return MissingNode;
    }
    ok, nodes := ReadMuteLists(t, rows, index, nodes);
    if !ok {
      return InvalidMuteMetadata;
    }
    ok, nodes := ReadMuteEdges(t, rows, index, nodes);
    if !ok {
      return InvalidMuteEdges;
    }
    AllRead(t, rows, index);
    SnapshotValid(t, rows, nodes);
    RestoredView(graph.View(), t, rows, nodes);
    RowCount(t, rows, nodes);
    graph.RestoreNodes(nodes);
    result := Loaded;
  }

  // ---------- Round trips ----------

  /** On an empty graph the join is the stored lists. */
  lemma RestoreEmpty(v: L.Lists)
    ensures Restore(L.EMPTY, v) == v
  {
    assert Restore(L.EMPTY, v).follows == v.follows;
    assert Restore(L.EMPTY, v).mutes == v.mutes;
  }

  /** Restoring the same snapshot again changes nothing. */
  lemma RestoreIdempotent(l: L.Lists, v: L.Lists)
    ensures Restore(Restore(l, v), v) == Restore(l, v)
  {
    var once, twice := Restore(l, v), Restore(Restore(l, v), v);
    assert twice.follows == once.follows;
    assert twice.mutes == once.mutes;
  }

  /** A live list survives exactly when the database has none for its author, an older one, or the same one. */
  lemma RestoreKeepsNewer(l: L.Lists, v: L.Lists, kind: L.Kind, pk: string)
    requires pk in L.Of(l, kind)
    ensures pk in L.Of(Restore(l, v), kind)
    ensures var live, stored := L.Of(l, kind)[pk], L.Get(L.Of(v, kind), pk);
            L.Of(Restore(l, v), kind)[pk] == live <==>
            pk !in L.Of(v, kind) || !L.AcceptsEvent(live.version, stored.version) || stored == live
  {
  }

  /** A live list that never had a version is lost to any stored row of its author, even to a row without a list. */
  lemma UnversionedListLost()
    ensures exists l: L.Lists, v: L.Lists ::
              && l.follows == map["a" := L.Entry(L.UNVERSIONED, {"b"}), "b" := L.NO_LIST]
              && v.follows == map["a" := L.NO_LIST]
              && Restore(l, v).follows["a"] == L.NO_LIST
  {
    var l := L.Lists(map["a" := L.Entry(L.UNVERSIONED, {"b"}), "b" := L.NO_LIST], map[]);
    var v := L.Lists(map["a" := L.NO_LIST], map[]);
    assert Restore(l, v).follows["a"] == L.NO_LIST;
  }

  /** Start of the process: a fresh graph from whatever the database holds. */
  method Restart(db: Database) returns (graph: WotGraph, result: LoadResult)
    requires db.Valid() && |db.tables.nodes| <= 0xFFFF_FFFF
    ensures fresh(graph) && graph.Valid() && result == Loaded && graph.View() == db.View()
  {
    graph := new WotGraph();
    RestoreEmpty(db.View());
    result := LoadGraph(db, graph);
  }

  function Flatten(batches: seq<seq<L.Update>>): seq<L.Update> {
    if batches == [] then [] else Flatten(batches[..|batches| - 1]) + batches[|batches| - 1]
  }

  lemma NothingOffered()
    ensures L.OfferAll(L.EMPTY, Flatten([])) == L.EMPTY
  {
  }

  /**
   From an empty database, after any sequence of committed batches, each of one kind, the
   restarted graph has the lists of applying every update in turn.
   */
  method PersistAndRestart(db: Database, batches: seq<seq<L.Update>>, kinds: seq<L.Kind>)
    returns (graph: WotGraph, result: LoadResult)
    requires db.Valid() && db.View() == L.EMPTY && |kinds| == |batches|
    requires forall i, j | 0 <= i < |batches| && 0 <= j < |batches[i]| :: batches[i][j].kind == kinds[i]
    modifies db
    ensures db.Valid() && L.SameLists(db.View(), L.OfferAll(L.EMPTY, Flatten(batches)))
    ensures |db.tables.nodes| <= 0xFFFF_FFFF ==> graph.Valid() && result == Loaded && graph.View() == db.View()
  {
    hide L.OfferAll, L.SameLists, ViewOf, L.Winners;
    L.SameListsReflexive(L.EMPTY);
    assert L.OfferAll(L.EMPTY, Flatten([])) == L.EMPTY by { NothingOffered(); }
    for i := 0 to |batches|
      invariant db.Valid() && L.SameLists(db.View(), L.OfferAll(L.EMPTY, Flatten(batches[..i])))
    {
      ghost var before, sofar := db.View(), Flatten(batches[..i]);
      assert forall u | u in batches[i] :: u.kind == kinds[i];
      var accepted, order := db.UpdateListsBatch(batches[i], kinds[i], true);
      L.BatchEqualsSequential(before, batches[i], order);
      L.SameListsOffered(before, L.OfferAll(L.EMPTY, sofar), batches[i]);
      L.OfferAllConcat(L.EMPTY, sofar, batches[i]);
      L.SameListsTransitive(db.View(), L.OfferAll(before, batches[i]), L.OfferAll(L.EMPTY, sofar + batches[i]));
      assert batches[..i + 1][..i] == batches[..i];
    }
    assert batches[..|batches|] == batches;
    if |db.tables.nodes| <= 0xFFFF_FFFF {
      graph, result := Restart(db);
    } else {
      graph := new WotGraph();
      result := TooManyNodes;
    }
  }
}
