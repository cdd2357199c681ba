/** Persisting batches of lists: coalescing, delta writes, one transaction per table. */
module Sqlite {
  import opened Options
  import opened Tables
  import L = Lists

  /** The ids a transaction has looked up so far agree with the node table. */
  ghost predicate CacheOk(nodes: map<int, NodeRow>, cache: map<string, int>) {
    forall pk | pk in cache :: cache[pk] in nodes && nodes[cache[pk]].pubkey == pk
  }

  lemma Nonempty(s: set<int>)
    ensures s == {} || exists x :: x in s
  {
    if forall x :: x !in s {
      assert s == {};
    }
  }

  lemma {:induction false} UpperBound(s: set<int>) returns (m: int)
    ensures forall x | x in s :: x < m
  {
    if s == {} {
      m := 0;
    } else {
      Nonempty(s);
      var x :| x in s;
      var rest := UpperBound(s - {x});
      m := if rest > x then rest else x + 1;
      assert forall y | y in s :: y == x || y in s - {x};
    }
  }

  /** INSERT ... ON CONFLICT(pubkey) DO NOTHING, then the row's id. */
  method EnsureNode(nodes: map<int, NodeRow>, pubkey: string) returns (nodes': map<int, NodeRow>, id: int)
    requires UniqueNames(nodes)
    ensures NodesExtended(nodes, nodes') && NamesIn(nodes') == NamesIn(nodes) + {pubkey}
    ensures id in nodes' && nodes'[id].pubkey == pubkey
    ensures forall i | i in nodes' && i !in nodes :: nodes'[i].version == L.UNVERSIONED
  {
    if row :| row in nodes && nodes[row].pubkey == pubkey {
      assert pubkey in NamesIn(nodes);
      return nodes, row;
    }
    ghost var bound := UpperBound(nodes.Keys);
    assert bound !in nodes;
    id :| id !in nodes;
    nodes' := nodes[id := NodeRow(pubkey, L.UNVERSIONED)];
    assert forall i | i in nodes :: nodes'[i].pubkey in NamesIn(nodes');
    assert nodes'[id].pubkey in NamesIn(nodes');
  }

  /** The keys and row ids an author's edges lead to. */
  method OldEdges(t: Tables, kind: L.Kind, f: int) returns (previous: map<string, int>)
    requires ValidTables(t)
    ensures CacheOk(t.nodes, previous)
    ensures forall b :: (f, b) in EdgesOf(t, kind) <==> b in t.nodes && t.nodes[b].pubkey in previous
  {
    previous := map[];
    var rows := EdgesOf(t, kind);
    var rest := set b | b in t.nodes && (f, b) in rows;
    while rest != {}
      invariant forall b | b in rest :: b in t.nodes && (f, b) in rows
      invariant CacheOk(t.nodes, previous)
      invariant forall b | b in t.nodes && (f, b) in rows :: b in rest || t.nodes[b].pubkey in previous
      invariant forall pk | pk in previous :: (f, previous[pk]) in rows
      decreases rest
    {
      Nonempty(rest);
      var b :| b in rest;
      previous := previous[t.nodes[b].pubkey := b];
      rest := rest - {b};
    }
    forall b | (f, b) in rows ensures b in t.nodes {
      EdgeEnds(t, kind, f, b);
    }
    forall b | b in t.nodes && t.nodes[b].pubkey in previous ensures (f, b) in rows {
      assert previous[t.nodes[b].pubkey] == b;
    }
  }

  /** Delete the edges to keys that are no longer desired. */
  method DeleteEdges(edges: set<(int, int)>, f: int, previous: map<string, int>, desired: set<string>)
    returns (edges': set<(int, int)>)
    ensures forall a, b :: (a, b) in edges' <==>
              (a, b) in edges && !(a == f && exists pk :: pk in previous && pk !in desired && previous[pk] == b)
  {
    edges' := edges;
    var rest := previous.Keys;
    while rest != {}
      invariant rest <= previous.Keys
      invariant forall a, b :: (a, b) in edges' <==>
                  (a, b) in edges && !(a == f && exists pk :: pk in previous && pk !in rest && pk !in desired && previous[pk] == b)
      decreases rest
    {
      ghost var before, left := edges', rest;
      var pk :| pk in rest;
      rest := rest - {pk};
      if pk !in desired {
        edges' := edges' - {(f, previous[pk])};
      }
      forall a, b ensures (a, b) in edges' <==>
                  (a, b) in edges && !(a == f && exists x :: x in previous && x !in rest && x !in desired && previous[x] == b)
      {
        assert forall x :: x in previous && x !in rest <==> x in previous && (x !in left || x == pk);
      }
    }
  }

  lemma CacheKept(nodes: map<int, NodeRow>, nodes': map<int, NodeRow>, cache: map<string, int>)
    requires CacheOk(nodes, cache) && NodesExtended(nodes, nodes')
    ensures CacheOk(nodes', cache)
  {
    forall pk | pk in cache ensures cache[pk] in nodes' && nodes'[cache[pk]].pubkey == pk {
      var id := cache[pk];
      assert id in nodes && nodes'[id] == nodes[id];
    }
  }

  lemma KnownTargets(nodes: map<int, NodeRow>, previous: map<string, int>, desired: set<string>)
    requires CacheOk(nodes, previous)
    ensures forall pk | pk in previous :: pk in NamesIn(nodes)
  {
    forall pk | pk in previous ensures pk in NamesIn(nodes) {
      var id := previous[pk];
      assert id in nodes && nodes[id].pubkey == pk;
    }
  }

  /**
   Insert the missing edges, creating target rows as needed. No insert ever repeats a
   primary key, and the id cache stays right.
   */
  method InsertEdges(nodes: map<int, NodeRow>, edges: set<(int, int)>, f: int, previous: map<string, int>,
                     desired: set<string>, cache: map<string, int>)
    returns (nodes': map<int, NodeRow>, edges': set<(int, int)>, cache': map<string, int>)
    requires UniqueNames(nodes) && CacheOk(nodes, cache) && CacheOk(nodes, previous)
    requires forall b :: (f, b) in edges <==>
               b in nodes && nodes[b].pubkey in previous && nodes[b].pubkey in desired
    ensures NodesExtended(nodes, nodes') && CacheOk(nodes', cache')
    ensures NamesIn(nodes') == NamesIn(nodes) + desired
    ensures forall i | i in nodes' && i !in nodes :: nodes'[i].version == L.UNVERSIONED
    ensures forall a, b | a != f :: (a, b) in edges' <==> (a, b) in edges
    ensures forall b :: (f, b) in edges' <==> b in nodes' && nodes'[b].pubkey in desired
  {
    nodes', edges', cache' := nodes, edges, cache;
    var rest := desired;
    KnownTargets(nodes, previous, desired);
    while rest != {}
      invariant rest <= desired && NodesExtended(nodes, nodes') && CacheOk(nodes', cache')
      invariant NamesIn(nodes) <= NamesIn(nodes') <= NamesIn(nodes) + desired
      invariant forall pk | pk in desired && pk !in rest :: pk in NamesIn(nodes')
      invariant forall i | i in nodes' && i !in nodes :: nodes'[i].version == L.UNVERSIONED
      invariant forall a, b | a != f :: (a, b) in edges' <==> (a, b) in edges
      invariant forall b :: (f, b) in edges' <==>
                  b in nodes' && nodes'[b].pubkey in desired && (nodes'[b].pubkey in previous || nodes'[b].pubkey !in rest)
      decreases rest
    {
      var pk :| pk in rest;
      ghost var left, rows := rest, nodes';
      rest := rest - {pk};
      if pk !in previous {
        var id;
        if pk in cache' {
          id := cache'[pk];
        } else {
          nodes', id := EnsureNode(nodes', pk);
          CacheKept(rows, nodes', cache');
          cache' := cache'[pk := id];
        }
        assert (f, id) !in edges';
        edges' := edges' + {(f, id)};
        assert forall b | b in nodes' && nodes'[b].pubkey == pk :: b == id;
      }
    }
  }

  // ---------- One update ----------

  lemma StoredRow(t: Tables, kind: L.Kind, row: int)
    requires ValidTables(t) && row in t.nodes
    ensures StoredVersion(t, kind, t.nodes[row].pubkey) ==
            if kind == L.Follow then t.nodes[row].version
            else if row in t.muteLists then t.muteLists[row] else L.UNVERSIONED
    ensures t.nodes[row].pubkey in ViewOf(t).follows
  {
    var pk := t.nodes[row].pubkey;
    assert pk in NamesIn(t.nodes);
    assert IdOf(t.nodes, pk) == row;
  }

  lemma NoRow(t: Tables, kind: L.Kind, pk: string)
    requires forall row | row in t.nodes :: t.nodes[row].pubkey != pk
    ensures StoredVersion(t, kind, pk) == L.UNVERSIONED
  {
  }

  lemma RejectedView(t: Tables, u: L.Update)
    requires u.author in ViewOf(t).follows && !L.AcceptsEvent(StoredVersion(t, u.kind, u.author), u.version)
    ensures L.Offer(ViewOf(t), u) == ViewOf(t)
  {
    hide ViewOf;
    assert L.WithNodes(ViewOf(t), {u.author}).follows == ViewOf(t).follows;
  }

  /** Whether the stored list gives way, looked up as the transaction does it. */
  method WinsAgainstStored(t: Tables, kind: L.Kind, u: L.Update) returns (wins: bool)
    requires ValidTables(t) && u.kind == kind
    ensures wins <==> L.AcceptsEvent(StoredVersion(t, kind, u.author), u.version)
    ensures !wins ==> L.Offer(ViewOf(t), u) == ViewOf(t)
  {
    hide ViewOf, L.AcceptsEvent, L.EventWins, StoredVersion;
    if row :| row in t.nodes && t.nodes[row].pubkey == u.author {
      var stored := if kind == L.Follow then t.nodes[row].version
                    else if row in t.muteLists then t.muteLists[row] else L.UNVERSIONED;
      StoredRow(t, kind, row);
      L.SameRule(stored, u.version);
      wins := L.EventWins(u.version, stored);
      if !wins {
        RejectedView(t, u);
      }
    } else {
      NoRow(t, kind, u.author);
      L.UnversionedLoses(u.version);
      wins := true;
    }
  }

  lemma SameNames(nodes: map<int, NodeRow>, nodes': map<int, NodeRow>)
    requires nodes.Keys == nodes'.Keys
    requires forall id | id in nodes :: nodes'[id].pubkey == nodes[id].pubkey
    ensures NamesIn(nodes') == NamesIn(nodes)
  {
    forall x | x in NamesIn(nodes) ensures x in NamesIn(nodes') {
      var id :| id in nodes && nodes[id].pubkey == x;
      assert nodes'[id].pubkey == x;
    }
  }

  lemma StillConsistent(t: Tables, t': Tables)
    requires Consistent(t) && t'.edges == t.edges && t'.muteEdges == t.muteEdges
    requires forall id | id in t.nodes :: id in t'.nodes
    requires forall id | id in t.muteLists :: id in t'.muteLists
    requires forall id | id in t'.muteLists :: id in t.muteLists || id in t'.nodes
    ensures Consistent(t')
  {
    forall a, b | (a, b) in t'.edges ensures a in t'.nodes && b in t'.nodes {
      EdgeEnds(t, L.Follow, a, b);
    }
    forall a, b | (a, b) in t'.muteEdges ensures a in t'.muteLists && b in t'.nodes {
      EdgeEnds(t, L.Mute, a, b);
    }
  }

  /** The author's row with the new version, before its edges are brought up to date. */
  method UpsertAuthor(t: Tables, kind: L.Kind, u: L.Update) returns (t': Tables, f: int)
    requires ValidTables(t)
    ensures ValidTables(t') && f in t'.nodes && t'.nodes[f].pubkey == u.author
    ensures NamesIn(t'.nodes) == NamesIn(t.nodes) + {u.author}
    ensures forall id | id in t.nodes :: id in t'.nodes && t'.nodes[id].pubkey == t.nodes[id].pubkey
    ensures forall id | id in t'.nodes && (kind == L.Mute || id != f) ::
              t'.nodes[id].version == if id in t.nodes then t.nodes[id].version else L.UNVERSIONED
    ensures kind == L.Follow ==> t'.nodes[f].version == u.version
    ensures t'.muteLists == if kind == L.Mute then t.muteLists[f := u.version] else t.muteLists
    ensures t'.edges == t.edges && t'.muteEdges == t.muteEdges
  {
    var nodes;
    nodes, f := EnsureNode(t.nodes, u.author);
    if kind == L.Follow {
      ghost var before := nodes;
      nodes := nodes[f := NodeRow(u.author, u.version)];
      SameNames(before, nodes);
      t' := t.(nodes := nodes);
    } else {
      t' := t.(nodes := nodes, muteLists := t.muteLists[f := u.version]);
    }
    StillConsistent(t, t');
  }

  lemma CacheRenewed(nodes: map<int, NodeRow>, nodes': map<int, NodeRow>, cache: map<string, int>)
    requires CacheOk(nodes, cache)
    requires forall id | id in nodes :: id in nodes' && nodes'[id].pubkey == nodes[id].pubkey
    ensures CacheOk(nodes', cache)
  {
    forall pk | pk in cache ensures cache[pk] in nodes' && nodes'[cache[pk]].pubkey == pk {
      var id := cache[pk];
      assert id in nodes && nodes'[id].pubkey == nodes[id].pubkey;
    }
  }

  lemma OnlyDesiredKept(t: Tables, kind: L.Kind, f: int, previous: map<string, int>, desired: set<string>,
                        kept: set<(int, int)>)
    requires ValidTables(t) && CacheOk(t.nodes, previous)
    requires forall b :: (f, b) in EdgesOf(t, kind) <==> b in t.nodes && t.nodes[b].pubkey in previous
    requires forall a, b :: (a, b) in kept <==>
               (a, b) in EdgesOf(t, kind) && !(a == f && exists pk :: pk in previous && pk !in desired && previous[pk] == b)
    ensures forall b :: (f, b) in kept <==> b in t.nodes && t.nodes[b].pubkey in previous && t.nodes[b].pubkey in desired
    ensures forall a, b | a != f :: (a, b) in kept <==> (a, b) in EdgesOf(t, kind)
  {
    forall b ensures (f, b) in kept <==> b in t.nodes && t.nodes[b].pubkey in previous && t.nodes[b].pubkey in desired {
      if b in t.nodes && t.nodes[b].pubkey in previous {
        var id := previous[t.nodes[b].pubkey];
        assert id in t.nodes && id == b;
      }
    }
  }

  /** One update inside the transaction: skipped if it loses, otherwise written as a difference. */
  method ApplyUpdate(t: Tables, kind: L.Kind, u: L.Update, cache: map<string, int>)
    returns (t': Tables, cache': map<string, int>, accepted: bool)
    requires ValidTables(t) && CacheOk(t.nodes, cache) && u.kind == kind
    ensures ValidTables(t') && CacheOk(t'.nodes, cache')
    ensures ViewOf(t') == L.Offer(ViewOf(t), u)
    ensures accepted <==> L.AcceptsEvent(StoredVersion(t, kind, u.author), u.version)
    ensures var stored := StoredVersion(t, kind, u.author);
            accepted <==>
            (stored.at.None? ||
             (u.version.at.Some? && (u.version.at.value > stored.at.value ||
                                   (u.version.at.value == stored.at.value && u.version.id.Some? &&
                                    (stored.id.None? || u.version.id.value < stored.id.value)))))
    ensures accepted ==> exists f :: Rewritten(t, t', kind, f, u)
    ensures !accepted ==> t' == t
  {
    hide ViewOf, L.AcceptsEvent, Consistent;
    L.RuleByFields(StoredVersion(t, kind, u.author), u.version);
    accepted := WinsAgainstStored(t, kind, u);
    if !accepted {
      return t, cache, false;
    }
    var upserted, f := UpsertAuthor(t, kind, u);
    CacheRenewed(t.nodes, upserted.nodes, cache);
    cache' := cache[u.author := f];
    var previous := OldEdges(upserted, kind, f);
    var desired := L.Targets(u);
    var kept := DeleteEdges(EdgesOf(upserted, kind), f, previous, desired);
    OnlyDesiredKept(upserted, kind, f, previous, desired, kept);
    var nodes, edges;
    nodes, edges, cache' := InsertEdges(upserted.nodes, kept, f, previous, desired, cache');
    t' := if kind == L.Follow then upserted.(nodes := nodes, edges := edges)
          else upserted.(nodes := nodes, muteEdges := edges);
    assert Rewritten(t, t', kind, f, u);
    RewrittenConsistent(t, t', kind, f, u);
    RewrittenView(t, t', kind, f, u);
  }

  // ---------- A batch ----------

  /** How many of these updates, of distinct authors, replace the list they find. */
  function AcceptedIn(l: L.Lists, ws: seq<L.Update>): nat {
    if ws == [] then 0
    else
      var w := ws[|ws| - 1];
      AcceptedIn(l, ws[..|ws| - 1]) + if L.AcceptsEvent(L.Get(L.Of(l, w.kind), w.author).version, w.version) then 1 else 0
  }

  lemma OneMore(l: L.Lists, ws: seq<L.Update>, w: L.Update)
    ensures L.OfferAll(l, ws + [w]) == L.Offer(L.OfferAll(l, ws), w)
    ensures AcceptedIn(l, ws + [w]) == AcceptedIn(l, ws) +
            if L.AcceptsEvent(L.Get(L.Of(l, w.kind), w.author).version, w.version) then 1 else 0
  {
    assert (ws + [w])[..|ws|] == ws;
  }

  /** `order` lists the winners already visited, each once. */
  ghost predicate Visited(winners: map<string, L.Update>, rest: set<string>, order: seq<L.Update>) {
    && (forall a | a in winners :: winners[a].author == a)
    && (forall w | w in order :: w.author in winners && w.author !in rest && winners[w.author] == w)
    && (forall a | a in winners && a !in rest :: winners[a] in order)
    && (forall i, j | 0 <= i < j < |order| :: order[i].author != order[j].author)
  }

  lemma VisitNone(l: L.Lists, winners: map<string, L.Update>)
    requires forall a | a in winners :: winners[a].author == a
    ensures L.OfferAll(l, []) == l && AcceptedIn(l, []) == 0 && Visited(winners, winners.Keys, [])
  {
  }

  /** An author not visited yet still has the list from before the batch. */
  lemma StillStored(l: L.Lists, winners: map<string, L.Update>, rest: set<string>, order: seq<L.Update>, w: L.Update)
    requires Visited(winners, rest, order) && w.author in rest
    ensures L.Get(L.Of(L.OfferAll(l, order), w.kind), w.author) == L.Get(L.Of(l, w.kind), w.author)
  {
    hide L.OfferAll, L.AbsorbAll, L.WinnerOf;
    L.GetOfferAll(l, order, w.kind, w.author);
    L.AbsorbWinner(L.Get(L.Of(l, w.kind), w.author), order, w.kind, w.author);
    L.WinnerFromSequence(order, w.kind, w.author);
  }

  lemma VisitNext(winners: map<string, L.Update>, rest: set<string>, order: seq<L.Update>, a: string)
    requires Visited(winners, rest, order) && a in rest && a in winners
    ensures Visited(winners, rest - {a}, order + [winners[a]])
  {
    var next := order + [winners[a]];
    forall i, j | 0 <= i < j < |next| ensures next[i].author != next[j].author {
      assert order[i] in order;
    }
  }

  /** The statements of one transaction, over the winners in whatever order the map yields them. */
  method VisitWinners(t: Tables, winners: map<string, L.Update>, kind: L.Kind)
    returns (tx: Tables, accepted: nat, ghost order: seq<L.Update>)
    requires ValidTables(t) && forall a | a in winners :: winners[a].author == a && winners[a].kind == kind
    ensures ValidTables(tx) && ViewOf(tx) == L.OfferAll(ViewOf(t), order)
    ensures Visited(winners, {}, order) && accepted == AcceptedIn(ViewOf(t), order)
  {
    hide ViewOf, L.Offer, L.AcceptsEvent, ValidTables, L.OfferAll, AcceptedIn, Visited, Rewritten;
    VisitNone(ViewOf(t), winners);
    var cache: map<string, int> := map[];
    tx, accepted, order := t, 0, [];
    var rest := winners.Keys;
    while rest != {}
      invariant rest <= winners.Keys && ValidTables(tx) && CacheOk(tx.nodes, cache)
      invariant ViewOf(tx) == L.OfferAll(ViewOf(t), order)
      invariant Visited(winners, rest, order) && accepted == AcceptedIn(ViewOf(t), order)
      decreases rest
    {
      var author :| author in rest;
      var w := winners[author];
      VisitNext(winners, rest, order, author);
      StillStored(ViewOf(t), winners, rest, order, w);
      OneMore(ViewOf(t), order, w);
      var ok;
      tx, cache, ok := ApplyUpdate(tx, kind, w, cache);
      order := order + [w];
      rest := rest - {author};
      accepted := accepted + if ok then 1 else 0;
    }
  }

  lemma NoWinners()
    ensures L.Winners([], []) && forall l :: L.OfferAll(l, []) == l
  {
  }

  lemma WinnerKind(updates: seq<L.Update>, kind: L.Kind, winners: map<string, L.Update>, a: string)
    requires forall x :: L.WinnerOf(updates, kind, x) == if x in winners then Some(winners[x]) else None
    requires a in winners
    ensures winners[a].kind == kind && winners[a].author == a && winners[a] in updates
  {
    L.WinnerFromSequence(updates, kind, a);
    assert L.WinnerOf(updates, kind, a) == Some(winners[a]);
  }

  lemma AllVisited(updates: seq<L.Update>, kind: L.Kind, winners: map<string, L.Update>, order: seq<L.Update>)
    requires forall u | u in updates :: u.kind == kind
    requires forall x :: L.WinnerOf(updates, kind, x) == if x in winners then Some(winners[x]) else None
    requires Visited(winners, {}, order)
    ensures L.Winners(updates, order)
  {
    hide L.WinnerOf;
    forall w | w in order ensures L.WinnerOf(updates, w.kind, w.author) == Some(w) {
      WinnerKind(updates, kind, winners, w.author);
    }
    forall k, a | L.WinnerOf(updates, k, a).Some? ensures L.WinnerOf(updates, k, a).value in order {
      L.WinnerFromSequence(updates, k, a);
      assert L.WinnerOf(updates, kind, a) == Some(winners[a]);
    }
  }

  class Database {
    var tables: Tables

    ghost predicate Valid()
      reads this
    {
      ValidTables(tables)
    }

    ghost function View(): L.Lists
      reads this
    {
      ViewOf(tables)
    }

    constructor ()
      ensures Valid() && View() == L.EMPTY
    {
      tables := Tables(map[], {}, map[], {});
    }

    /** Keep the best update of each author. */
    method Coalesce(updates: seq<L.Update>, kind: L.Kind) returns (winners: map<string, L.Update>)
      requires forall u | u in updates :: u.kind == kind
      ensures forall a :: L.WinnerOf(updates, kind, a) == if a in winners then Some(winners[a]) else None
    {
      winners := map[];
      for i := 0 to |updates|
        invariant forall a :: L.WinnerOf(updates[..i], kind, a) == if a in winners then Some(winners[a]) else None
      {
        var update := updates[i];
        assert updates[..i + 1][..i] == updates[..i];
        ghost var before := winners;
        if update.author !in winners || L.EventWins(update.version, winners[update.author].version) {
          winners := winners[update.author := update];
        }
        forall a ensures L.WinnerOf(updates[..i + 1], kind, a) == if a in winners then Some(winners[a]) else None {
          assert L.WinnerOf(updates[..i], kind, a) == if a in before then Some(before[a]) else None;
        }
      }
      assert updates[..|updates|] == updates;
    }

    /**
     Persist a batch of one kind in one transaction: all of it, or nothing when the
     transaction fails. `order` is the arbitrary order in which the winners were visited.
     */
    method UpdateListsBatch(updates: seq<L.Update>, kind: L.Kind, commits: bool)
      returns (result: Option<nat>, ghost order: seq<L.Update>)
      requires Valid() && forall u | u in updates :: u.kind == kind
      modifies this
      ensures Valid()
      ensures result.Some? ==> L.Winners(updates, order) && View() == L.OfferAll(old(View()), order)
      ensures result.Some? ==> result.value == AcceptedIn(old(View()), order)
      ensures result.None? <==> updates != [] && !commits
      ensures result.None? ==> tables == old(tables)
    {
      hide ViewOf, ValidTables, L.Winners, L.WinnerOf, Visited;
      order := [];
      if updates == [] {
        NoWinners();
        return Some(0), [];
      }
      var winners := Coalesce(updates, kind);
      forall a | a in winners ensures winners[a].author == a && winners[a].kind == kind {
        WinnerKind(updates, kind, winners, a);
      }
      var tx, accepted;
      tx, accepted, order := VisitWinners(tables, winners, kind);
      AllVisited(updates, kind, winners, order);
      if !commits {
        return None, order;
      }
      tables := tx;
      result := Some(accepted);
    }
  }
}
