/** The database's rows, what is consistent about them, and the lists they represent. */
module Tables {
  import L = Lists

  /** A row of `nodes`; the version is that of the follow list, missing if none was received. */
  datatype NodeRow = NodeRow(pubkey: string, version: L.Version)

  datatype Tables = Tables(nodes: map<int, NodeRow>, edges: set<(int, int)>,
                           muteLists: map<int, L.Version>, muteEdges: set<(int, int)>)

  /** UNIQUE(pubkey). */
  ghost predicate UniqueNames(nodes: map<int, NodeRow>) {
    forall i, j | i in nodes && j in nodes && nodes[i].pubkey == nodes[j].pubkey :: i == j
  }

  /** The foreign keys, and a list row for every mute edge. */
  ghost predicate Consistent(t: Tables) {
    && (forall a, b | (a, b) in t.edges :: a in t.nodes && b in t.nodes)
    && (forall id | id in t.muteLists :: id in t.nodes)
    && (forall a, b | (a, b) in t.muteEdges :: a in t.muteLists && b in t.nodes)
  }

  ghost predicate ValidTables(t: Tables) {
    UniqueNames(t.nodes) && Consistent(t)
  }

  function EdgesOf(t: Tables, kind: L.Kind): set<(int, int)> {
    if kind == L.Follow then t.edges else t.muteEdges
  }

  function NamesIn(nodes: map<int, NodeRow>): set<string> {
    set id | id in nodes :: nodes[id].pubkey
  }

  /** The names one row's edges lead to. */
  function TargetNames(nodes: map<int, NodeRow>, edges: set<(int, int)>, id: int): set<string> {
    set b | b in nodes && (id, b) in edges :: nodes[b].pubkey
  }

  ghost function IdOf(nodes: map<int, NodeRow>, pk: string): (id: int)
    requires pk in NamesIn(nodes)
    ensures id in nodes && nodes[id].pubkey == pk
  {
    var id :| id in nodes && nodes[id].pubkey == pk;
    id
  }

  ghost function FollowRow(t: Tables, pk: string): L.Entry
    requires pk in NamesIn(t.nodes)
  {
    var id := IdOf(t.nodes, pk);
    L.Entry(t.nodes[id].version, TargetNames(t.nodes, t.edges, id))
  }

  ghost function MuteRow(t: Tables, pk: string): L.Entry
    requires pk in NamesIn(t.nodes) && IdOf(t.nodes, pk) in t.muteLists
  {
    var id := IdOf(t.nodes, pk);
    L.Entry(t.muteLists[id], TargetNames(t.nodes, t.muteEdges, id))
  }

  /** The lists by public key that the rows stand for. */
  ghost function ViewOf(t: Tables): L.Lists {
    L.Lists(map pk | pk in NamesIn(t.nodes) :: FollowRow(t, pk),
            map pk | pk in NamesIn(t.nodes) && IdOf(t.nodes, pk) in t.muteLists :: MuteRow(t, pk))
  }

  /** Row ids are never reused for another key, and old rows keep their versions. */
  ghost predicate NodesExtended(nodes: map<int, NodeRow>, nodes': map<int, NodeRow>) {
    && UniqueNames(nodes')
    && forall id | id in nodes :: id in nodes' && nodes'[id] == nodes[id]
  }

  lemma IdKept(nodes: map<int, NodeRow>, nodes': map<int, NodeRow>, pk: string)
    requires pk in NamesIn(nodes) && UniqueNames(nodes')
    requires forall id | id in nodes :: id in nodes' && nodes'[id].pubkey == nodes[id].pubkey
    ensures pk in NamesIn(nodes') && IdOf(nodes', pk) == IdOf(nodes, pk)
  {
    var id := IdOf(nodes, pk);
    assert nodes'[id].pubkey == pk;
  }

  /** What one accepted update does to the rows of author `f`. */
  ghost predicate Rewritten(t: Tables, t': Tables, kind: L.Kind, f: int, u: L.Update) {
    && UniqueNames(t'.nodes)
    && f in t'.nodes && t'.nodes[f].pubkey == u.author
    && NamesIn(t'.nodes) == NamesIn(t.nodes) + {u.author} + L.Targets(u)
    && (forall id | id in t.nodes :: id in t'.nodes && t'.nodes[id].pubkey == t.nodes[id].pubkey)
    && (forall id | id in t'.nodes && (kind == L.Mute || id != f) ::
          t'.nodes[id].version == if id in t.nodes then t.nodes[id].version else L.UNVERSIONED)
    && (kind == L.Follow ==> t'.nodes[f].version == u.version)
    && t'.muteLists == (if kind == L.Mute then t.muteLists[f := u.version] else t.muteLists)
    && (forall a, b | a != f :: (a, b) in EdgesOf(t', kind) <==> (a, b) in EdgesOf(t, kind))
    && (forall b :: (f, b) in EdgesOf(t', kind) <==> b in t'.nodes && t'.nodes[b].pubkey in u.follows)
    && (if kind == L.Follow then t'.muteEdges == t.muteEdges else t'.edges == t.edges)
  }

  lemma EdgeEnds(t: Tables, kind: L.Kind, a: int, b: int)
    requires Consistent(t) && (a, b) in EdgesOf(t, kind)
    ensures a in t.nodes && b in t.nodes
  {
  }

  lemma RewrittenConsistent(t: Tables, t': Tables, kind: L.Kind, f: int, u: L.Update)
    requires ValidTables(t) && Rewritten(t, t', kind, f, u)
    ensures ValidTables(t')
  {
    forall a, b | (a, b) in EdgesOf(t', kind) ensures a in t'.nodes && b in t'.nodes && (kind == L.Mute ==> a in t'.muteLists) {
      if a != f {
        assert (a, b) in EdgesOf(t, kind);
        EdgeEnds(t, kind, a, b);
      }
    }
  }

  /** The names behind the edges of the author are the desired ones. */
  lemma AuthorTargets(t: Tables, t': Tables, kind: L.Kind, f: int, u: L.Update)
    requires Rewritten(t, t', kind, f, u)
    ensures TargetNames(t'.nodes, EdgesOf(t', kind), f) == L.Targets(u)
  {
    forall x | x in L.Targets(u) ensures x in TargetNames(t'.nodes, EdgesOf(t', kind), f) {
      assert x in NamesIn(t'.nodes);
      assert (f, IdOf(t'.nodes, x)) in EdgesOf(t', kind);
    }
  }

  /** Everyone else's edges lead where they did. */
  lemma OtherTargets(t: Tables, t': Tables, kind: L.Kind, f: int, u: L.Update, k: L.Kind, id: int)
    requires ValidTables(t) && Rewritten(t, t', kind, f, u) && (k != kind || id != f)
    ensures TargetNames(t'.nodes, EdgesOf(t', k), id) == TargetNames(t.nodes, EdgesOf(t, k), id)
  {
    forall b ensures (id, b) in EdgesOf(t', k) <==> (id, b) in EdgesOf(t, k) {
    }
    forall b | (id, b) in EdgesOf(t, k) ensures b in t.nodes && b in t'.nodes && t'.nodes[b].pubkey == t.nodes[b].pubkey {
      EdgeEnds(t, k, id, b);
    }
  }

  lemma NewRowEmpty(t: Tables, kind: L.Kind, id: int)
    requires Consistent(t) && id !in t.nodes
    ensures TargetNames(t.nodes, EdgesOf(t, kind), id) == {}
  {
  }

  /** The version that decides whether an update of this author is accepted. */
  ghost function StoredVersion(t: Tables, kind: L.Kind, pk: string): L.Version {
    L.Get(L.Of(ViewOf(t), kind), pk).version
  }

  lemma RewrittenFollow(t: Tables, t': Tables, kind: L.Kind, f: int, u: L.Update, pk: string)
    requires ValidTables(t) && Rewritten(t, t', kind, f, u) && pk in NamesIn(t'.nodes)
    ensures FollowRow(t', pk) == if kind == L.Follow && pk == u.author then L.Entry(u.version, L.Targets(u))
                                 else L.Get(ViewOf(t).follows, pk)
  {
    hide L.Targets;
    var id := IdOf(t'.nodes, pk);
    if kind == L.Follow && pk == u.author {
      assert id == f;
      AuthorTargets(t, t', kind, f, u);
    } else {
      OtherTargets(t, t', kind, f, u, L.Follow, id);
      if pk in NamesIn(t.nodes) {
        IdKept(t.nodes, t'.nodes, pk);
      } else {
        assert id !in t.nodes;
        NewRowEmpty(t, L.Follow, id);
      }
    }
  }

  lemma RewrittenMute(t: Tables, t': Tables, kind: L.Kind, f: int, u: L.Update, pk: string)
    requires ValidTables(t) && Rewritten(t, t', kind, f, u) && pk in NamesIn(t'.nodes)
    ensures IdOf(t'.nodes, pk) in t'.muteLists <==> pk in ViewOf(t).mutes || (kind == L.Mute && pk == u.author)
    ensures IdOf(t'.nodes, pk) in t'.muteLists ==>
              MuteRow(t', pk) == if kind == L.Mute && pk == u.author then L.Entry(u.version, L.Targets(u))
                                 else ViewOf(t).mutes[pk]
  {
    hide L.Targets;
    var id := IdOf(t'.nodes, pk);
    if pk in NamesIn(t.nodes) {
      IdKept(t.nodes, t'.nodes, pk);
    } else {
      assert id !in t.nodes;
    }
    if kind == L.Mute && pk == u.author {
      assert id == f;
      AuthorTargets(t, t', kind, f, u);
    } else if id in t'.muteLists {
      OtherTargets(t, t', kind, f, u, L.Mute, id);
    }
  }

  lemma RewrittenFollows(t: Tables, t': Tables, kind: L.Kind, f: int, u: L.Update)
    requires ValidTables(t) && Rewritten(t, t', kind, f, u)
    ensures ViewOf(t').follows == L.Put(L.WithNodes(ViewOf(t), {u.author} + L.Targets(u)), kind, u.author,
                                        L.Entry(u.version, L.Targets(u))).follows
  {
    hide L.Targets, FollowRow, MuteRow;
    forall pk | pk in NamesIn(t'.nodes)
      ensures FollowRow(t', pk) == if kind == L.Follow && pk == u.author then L.Entry(u.version, L.Targets(u))
                                   else L.Get(ViewOf(t).follows, pk)
    {
      RewrittenFollow(t, t', kind, f, u, pk);
    }
  }

  lemma RewrittenMutes(t: Tables, t': Tables, kind: L.Kind, f: int, u: L.Update)
    requires ValidTables(t) && Rewritten(t, t', kind, f, u)
    ensures ViewOf(t').mutes == if kind == L.Mute then ViewOf(t).mutes[u.author := L.Entry(u.version, L.Targets(u))]
                                else ViewOf(t).mutes
  {
    hide L.Targets, FollowRow, MuteRow;
    forall pk | pk in NamesIn(t'.nodes)
      ensures IdOf(t'.nodes, pk) in t'.muteLists <==> pk in ViewOf(t).mutes || (kind == L.Mute && pk == u.author)
      ensures IdOf(t'.nodes, pk) in t'.muteLists ==>
                MuteRow(t', pk) == if kind == L.Mute && pk == u.author then L.Entry(u.version, L.Targets(u))
                                   else ViewOf(t).mutes[pk]
    {
      RewrittenMute(t, t', kind, f, u, pk);
    }
  }

  /** Rewriting one author's rows is replacing that author's list. */
  lemma RewrittenView(t: Tables, t': Tables, kind: L.Kind, f: int, u: L.Update)
    requires ValidTables(t) && Rewritten(t, t', kind, f, u)
    ensures ViewOf(t') == L.Put(L.WithNodes(ViewOf(t), {u.author} + L.Targets(u)), kind, u.author,
                                L.Entry(u.version, L.Targets(u)))
  {
    hide ViewOf, Rewritten;
    RewrittenFollows(t, t', kind, f, u);
    RewrittenMutes(t, t', kind, f, u);
  }
}
