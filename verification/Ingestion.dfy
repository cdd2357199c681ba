/** Turning a batch of received lists into database rows and graph updates: commit first, then publish. */
module Ingestion {
  import opened Options
  import opened Sqlite
  import opened Store
  import opened SortedLists
  import opened Walks
  import L = Lists
  import GraphData

  ghost predicate AllFull(us: seq<L.Update>) {
    forall u | u in us :: L.Full(u.version)
  }

  /** Newer timestamp, or the same with a lower id: the test of the winner loop. */
  predicate Beats(v: L.Version, w: L.Version)
    requires L.Full(v) && L.Full(w)
  {
    v.at.value > w.at.value || (v.at.value == w.at.value && v.id.value < w.id.value)
  }

  /** For received events the loop's test is the database's test. */
  lemma BeatsIsWins(v: L.Version, w: L.Version)
    requires L.Full(v) && L.Full(w)
    ensures Beats(v, w) <==> L.EventWins(v, w)
  {
  }

  /** Position of the winner of each kind and author. */
  ghost predicate Slots(us: seq<L.Update>, slots: map<(L.Kind, string), nat>) {
    && (forall k, a | (k, a) in slots ::
          slots[(k, a)] < |us| && L.WinnerOf(us, k, a) == Some(us[slots[(k, a)]]))
    && (forall k, a | L.WinnerOf(us, k, a).Some? :: (k, a) in slots)
  }

  lemma SlotsStep(us: seq<L.Update>, u: L.Update, slots: map<(L.Kind, string), nat>, slots': map<(L.Kind, string), nat>)
    requires AllFull(us + [u]) && Slots(us, slots)
    requires var key := (u.kind, u.author);
             slots' == if key !in slots || Beats(u.version, us[slots[key]].version) then slots[key := |us|] else slots
    ensures Slots(us + [u], slots')
  {
    var key := (u.kind, u.author);
    assert (us + [u])[..|us|] == us;
    if key in slots {
      assert us[slots[key]] in us + [u];
      BeatsIsWins(u.version, us[slots[key]].version);
    }
    forall k, a | (k, a) in slots'
      ensures slots'[(k, a)] < |us| + 1 && L.WinnerOf(us + [u], k, a) == Some((us + [u])[slots'[(k, a)]])
    {
    }
  }

  function At(updates: seq<L.Update>, indices: seq<nat>, i: nat): (u: L.Update)
    requires i < |indices| && forall x | x in indices :: x < |updates|
    ensures indices[i] < |updates| && u == updates[indices[i]]
  {
    assert indices[i] in indices;
    updates[indices[i]]
  }

  lemma NoSlots()
    ensures Slots([], map[])
  {
  }

  lemma AllFullPrefix(us: seq<L.Update>, i: nat)
    requires AllFull(us) && i <= |us|
    ensures AllFull(us[..i])
  {
  }

  lemma SelectedAreWinners(us: seq<L.Update>, slots: map<(L.Kind, string), nat>, indices: seq<nat>, selected: seq<L.Update>)
    requires Slots(us, slots) && Sorted(indices)
    requires forall x :: x in indices <==> x in slots.Values && x < |us|
    requires |selected| == |indices| && forall i | 0 <= i < |indices| :: indices[i] < |us| && selected[i] == us[indices[i]]
    ensures L.Winners(us, selected)
  {
    hide L.WinnerOf;
    forall i | 0 <= i < |selected|
      ensures (selected[i].kind, selected[i].author) in slots
      ensures slots[(selected[i].kind, selected[i].author)] == indices[i]
    {
      assert indices[i] in slots.Values;
      var key :| key in slots && slots[key] == indices[i];
      var (k, a) := key;
      L.WinnerFromSequence(us, k, a);
    }
    forall k, a | L.WinnerOf(us, k, a).Some? ensures L.WinnerOf(us, k, a).value in selected {
      assert (k, a) in slots && slots[(k, a)] in slots.Values;
      var i :| 0 <= i < |indices| && indices[i] == slots[(k, a)];
      assert selected[i] == us[indices[i]];
    }
  }

  /** Upper bound on the nodes a sequence of updates can create. */
  function TotalKeys(us: seq<L.Update>): nat {
    if us == [] then 0 else TotalKeys(us[..|us| - 1]) + 1 + |us[|us| - 1].follows|
  }

  /** `selected` are the updates at ascending `indices`. */
  ghost predicate TakenAt(us: seq<L.Update>, indices: seq<nat>, selected: seq<L.Update>) {
    && Sorted(indices) && |selected| == |indices|
    && forall i | 0 <= i < |indices| :: indices[i] < |us| && selected[i] == us[indices[i]]
  }

  lemma {:induction false} SelectedSize(us: seq<L.Update>, indices: seq<nat>, selected: seq<L.Update>)
    requires TakenAt(us, indices, selected)
    ensures |selected| <= |us| && TotalKeys(selected) <= TotalKeys(us)
  {
    if us != [] {
      var n := |us| - 1;
      if indices != [] && indices[|indices| - 1] == n {
        SelectedSize(us[..n], indices[..|indices| - 1], selected[..|indices| - 1]);
      } else {
        SelectedSize(us[..n], indices, selected);
      }
    }
  }

  /** The best update of each kind and author, in their order of arrival. */
  method SelectWinners(updates: seq<L.Update>) returns (selected: seq<L.Update>)
    requires AllFull(updates)
    ensures L.Winners(updates, selected) && |selected| <= |updates|
    ensures exists indices :: TakenAt(updates, indices, selected)
    ensures TotalKeys(selected) <= TotalKeys(updates)
  {
    hide L.WinnerOf, L.EventWins;
    var slots: map<(L.Kind, string), nat> := map[];
    NoSlots();
    assert updates[..0] == [];
    for index := 0 to |updates|
      invariant Slots(updates[..index], slots)
    {
      var update := updates[index];
      ghost var before := slots;
      var key := (update.kind, update.author);
      assert updates[..index + 1] == updates[..index] + [update];
      AllFullPrefix(updates, index + 1);
      var previous := if key in slots then slots[key] else index;
      assert updates[previous] in updates && (key in slots ==> updates[..index][previous] == updates[previous]);
      if key !in slots {
        slots := slots[key := index];
      }
      if Beats(update.version, updates[previous].version) {
        slots := slots[key := index];
      }
      SlotsStep(updates[..index], update, before, slots);
    }
    assert updates[..|updates|] == updates;
    var indices := Ascending(|updates|, slots.Values);
    AscendingIsSorted(|updates|, slots.Values);
    selected := seq(|indices|, i requires 0 <= i < |indices| => At(updates, indices, i));
    forall i | 0 <= i < |indices| ensures indices[i] < |updates| && selected[i] == updates[indices[i]] {
      assert selected[i] == At(updates, indices, i);
    }
    SelectedAreWinners(updates, slots, indices, selected);
    assert TakenAt(updates, indices, selected);
    SelectedSize(updates, indices, selected);
  }

  /** The items of one kind, for one of the two transactions. */
  function Items(selected: seq<L.Update>, kind: L.Kind): seq<L.Update> {
    if selected == [] then []
    else
      var u, rest := selected[|selected| - 1], Items(selected[..|selected| - 1], kind);
      if u.kind == kind then rest + [u] else rest
  }

  lemma {:induction false} ItemsMember(selected: seq<L.Update>, kind: L.Kind)
    ensures forall u :: u in Items(selected, kind) <==> u in selected && u.kind == kind
    ensures L.DistinctKeys(selected) ==> L.DistinctKeys(Items(selected, kind))
  {
    if selected != [] {
      var u, front := selected[|selected| - 1], selected[..|selected| - 1];
      ItemsMember(front, kind);
      assert selected == front + [u];
      if L.DistinctKeys(selected) && u.kind == kind {
        var rest := Items(front, kind);
        forall i | 0 <= i < |rest| ensures (rest[i].kind, rest[i].author) != (u.kind, u.author) {
          assert rest[i] in front;
        }
      }
    }
  }

  // ---------- One transaction ----------

  /** Whatever order a transaction visits the items in, it leaves what offering them in turn leaves. */
  lemma CommitIsOffers(l: L.Lists, items: seq<L.Update>, order: seq<L.Update>)
    requires L.DistinctKeys(items) && L.Winners(items, order)
    ensures L.DistinctKeys(order) && forall u :: u in order <==> u in items
    ensures L.OfferAll(l, order) == L.OfferAll(l, items)
  {
    hide L.WinnerOf, L.OfferAll;
    forall u ensures u in order <==> u in items {
      if u in order {
        L.WinnerFromSequence(items, u.kind, u.author);
      }
      if u in items {
        L.WinnerOfDistinct(items, u);
      }
    }
    L.PermutedOffers(l, order, items);
  }

  ghost function Accepted(l: L.Lists, us: seq<L.Update>): set<L.Update> {
    set u | u in us && L.AcceptsEvent(L.Get(L.Of(l, u.kind), u.author).version, u.version)
  }

  lemma {:induction false} AcceptedSize(l: L.Lists, us: seq<L.Update>)
    requires L.DistinctKeys(us)
    ensures AcceptedIn(l, us) == |Accepted(l, us)|
  {
    hide L.AcceptsEvent;
    if us != [] {
      var u, rest := us[|us| - 1], us[..|us| - 1];
      assert us == rest + [u];
      AcceptedSize(l, rest);
      assert Accepted(l, us) == Accepted(l, rest) +
             if L.AcceptsEvent(L.Get(L.Of(l, u.kind), u.author).version, u.version) then {u} else {};
    }
  }

  /** The order in which a transaction visits its items does not change its count. */
  lemma CountOfCommit(l: L.Lists, items: seq<L.Update>, order: seq<L.Update>)
    requires L.DistinctKeys(items) && L.Winners(items, order)
    ensures AcceptedIn(l, order) == AcceptedIn(l, items)
  {
    hide L.WinnerOf, L.OfferAll, L.AcceptsEvent;
    CommitIsOffers(l, items, order);
    AcceptedSize(l, order);
    AcceptedSize(l, items);
    assert Accepted(l, order) == Accepted(l, items);
  }

  lemma {:induction false} FollowsLeaveMutes(l: L.Lists, us: seq<L.Update>)
    requires forall u | u in us :: u.kind == L.Follow
    ensures L.OfferAll(l, us).mutes == l.mutes
  {
    if us != [] {
      FollowsLeaveMutes(l, us[..|us| - 1]);
    }
  }

  lemma {:induction false} SameMutesAccepted(l: L.Lists, l': L.Lists, us: seq<L.Update>)
    requires l.mutes == l'.mutes && forall u | u in us :: u.kind == L.Mute
    ensures AcceptedIn(l, us) == AcceptedIn(l', us)
  {
    hide L.AcceptsEvent;
    if us != [] {
      var u, rest := us[|us| - 1], us[..|us| - 1];
      assert u in us && forall x | x in rest :: x in us;
      SameMutesAccepted(l, l', rest);
    }
  }

  lemma {:induction false} AcceptedByKind(l: L.Lists, us: seq<L.Update>)
    ensures AcceptedIn(l, Items(us, L.Follow)) + AcceptedIn(l, Items(us, L.Mute)) == AcceptedIn(l, us)
  {
    hide L.AcceptsEvent;
    if us != [] {
      var u, rest := us[|us| - 1], us[..|us| - 1];
      AcceptedByKind(l, rest);
      OneMore(l, Items(rest, u.kind), u);
    }
  }

  /** The counts of the two transactions add up to the updates of the selection that the lists found accept. */
  lemma CountsAddUp(l: L.Lists, us: seq<L.Update>)
    ensures AcceptedIn(l, Items(us, L.Follow)) + AcceptedIn(L.OfferAll(l, Items(us, L.Follow)), Items(us, L.Mute)) ==
            AcceptedIn(l, us)
  {
    hide L.OfferAll, Items, AcceptedIn;
    ItemsMember(us, L.Follow);
    ItemsMember(us, L.Mute);
    FollowsLeaveMutes(l, Items(us, L.Follow));
    SameMutesAccepted(l, L.OfferAll(l, Items(us, L.Follow)), Items(us, L.Mute));
    AcceptedByKind(l, us);
  }

  // ---------- Two transactions, then publication ----------

  lemma KindsDisjoint(f: seq<L.Update>, m: seq<L.Update>)
    requires L.DistinctKeys(f) && L.DistinctKeys(m)
    requires (forall u | u in f :: u.kind == L.Follow) && forall u | u in m :: u.kind == L.Mute
    ensures L.DistinctKeys(f + m)
  {
    forall i, j | 0 <= i < j < |f + m|
      ensures ((f + m)[i].kind, (f + m)[i].author) != ((f + m)[j].kind, (f + m)[j].author)
    {
      if i < |f| <= j {
        assert f[i] in f && m[j - |f|] in m;
      }
    }
  }

  /** The two transactions together leave what publishing the whole selection leaves. */
  lemma BothCommitted(l: L.Lists, selected: seq<L.Update>)
    requires L.DistinctKeys(selected)
    ensures L.OfferAll(L.OfferAll(l, Items(selected, L.Follow)), Items(selected, L.Mute)) == L.OfferAll(l, selected)
  {
    hide L.OfferAll, Items;
    var f, m := Items(selected, L.Follow), Items(selected, L.Mute);
    ItemsMember(selected, L.Follow);
    ItemsMember(selected, L.Mute);
    L.OfferAllConcat(l, f, m);
    KindsDisjoint(f, m);
    L.PermutedOffers(l, f + m, selected);
  }

  lemma {:induction false} KeysGrow(us: seq<L.Update>, i: nat)
    requires i < |us|
    ensures TotalKeys(us[..i]) + 1 + |us[i].follows| <= TotalKeys(us)
  {
    var n := |us| - 1;
    if i == n {
    } else {
      KeysGrow(us[..n], i);
      assert us[..n][..i] == us[..i];
    }
  }

  /** Offering the selection one update at a time to the live graph. */
  method Publish(graph: WotGraph, selected: seq<L.Update>)
    requires graph.Valid() && |graph.idToPubkey| + TotalKeys(selected) < GraphData.MAX_NODES
    modifies graph
    ensures graph.Valid() && graph.View() == L.OfferAll(old(graph.View()), selected)
    ensures graph.revision >= old(graph.revision)
    ensures graph.revision == old(graph.revision) ==> graph.Topo() == old(graph.Topo())
  {
    hide L.Offer, GraphData.ViewOf, GraphData.ValidData;
    ghost var start := graph.View();
    var room := |graph.idToPubkey|;
    for i := 0 to |selected|
      invariant graph.Valid() && graph.View() == L.OfferAll(start, selected[..i])
      invariant |graph.idToPubkey| <= room + TotalKeys(selected[..i])
      invariant graph.revision >= old(graph.revision)
      invariant graph.revision == old(graph.revision) ==> graph.Topo() == old(graph.Topo())
    {
      var u := selected[i];
      assert selected[..i + 1][..i] == selected[..i];
      KeysGrow(selected, i);
      var accepted;
      if u.kind == L.Mute {
        accepted := graph.UpdateMutes(u.author, u.follows, u.version);
      } else {
        accepted := graph.UpdateFollows(u.author, u.follows, u.version);
      }
    }
    assert selected[..|selected|] == selected;
  }

  /** A transaction goes through if it commits, or if there is nothing of its kind to persist. */
  predicate GoesThrough(updates: seq<L.Update>, kind: L.Kind, commits: bool) {
    commits || forall u | u in updates :: u.kind != kind
  }

  lemma NothingOfKind(updates: seq<L.Update>, selected: seq<L.Update>, kind: L.Kind)
    requires L.Winners(updates, selected)
    ensures Items(selected, kind) == [] <==> forall u | u in updates :: u.kind != kind
  {
    hide L.WinnerOf, Items;
    ItemsMember(selected, kind);
    if u :| u in updates && u.kind == kind {
      L.WinnerFromSequence(updates, kind, u.author);
      assert L.WinnerOf(updates, kind, u.author).value in Items(selected, kind);
    }
    if Items(selected, kind) != [] {
      var w := Items(selected, kind)[0];
      assert w in Items(selected, kind);
      L.WinnerFromSequence(updates, w.kind, w.author);
    }
  }

  /**
   One attempt: the follow transaction, the mute transaction, then publication. A failed
   transaction leaves the graph alone; the follow rows may be committed already.
   */
  method PersistAndApply(db: Database, graph: WotGraph, updates: seq<L.Update>, followsCommit: bool, mutesCommit: bool)
    returns (count: Option<nat>, ghost selected: seq<L.Update>)
    requires db.Valid() && graph.Valid() && AllFull(updates)
    requires |graph.idToPubkey| + TotalKeys(updates) < GraphData.MAX_NODES
    modifies db, graph
    ensures db.Valid() && graph.Valid() && L.Winners(updates, selected)
    ensures count.Some? ==> db.View() == L.OfferAll(old(db.View()), selected)
    ensures count.Some? ==> count.value == AcceptedIn(old(db.View()), selected)
    ensures count.Some? ==> graph.View() == L.OfferAll(old(graph.View()), selected)
    ensures count.None? ==> graph.View() == old(graph.View()) && graph.idToPubkey == old(graph.idToPubkey)
    ensures count.None? ==> db.View() == if GoesThrough(updates, L.Follow, followsCommit)
                                         then L.OfferAll(old(db.View()), Items(selected, L.Follow)) else old(db.View())
    ensures count.Some? <==> GoesThrough(updates, L.Follow, followsCommit) && GoesThrough(updates, L.Mute, mutesCommit)
  {
    hide L.OfferAll, L.WinnerOf, AcceptedIn, Tables.ViewOf, GraphData.ViewOf, GraphData.ValidData;
    var chosen := SelectWinners(updates);
    selected := chosen;
    var follows, mutes := Items(chosen, L.Follow), Items(chosen, L.Mute);
    ItemsMember(chosen, L.Follow);
    ItemsMember(chosen, L.Mute);
    NothingOfKind(updates, chosen, L.Follow);
    NothingOfKind(updates, chosen, L.Mute);
    BothCommitted(db.View(), chosen);
    var first, order := db.UpdateListsBatch(follows, L.Follow, followsCommit);
    if first.None? {
      return None, selected;
    }
    CommitIsOffers(old(db.View()), follows, order);
    CountOfCommit(old(db.View()), follows, order);
    ghost var between := db.View();
    var second, order' := db.UpdateListsBatch(mutes, L.Mute, mutesCommit);
    if second.None? {
      return None, selected;
    }
    CommitIsOffers(between, mutes, order');
    CountOfCommit(between, mutes, order');
    CountsAddUp(old(db.View()), chosen);
    Publish(graph, chosen);
    count := Some(first.value + second.value);
  }

  /** A second attempt finds the follow rows of the first one already there. */
  lemma SecondAttempt(l: L.Lists, selected: seq<L.Update>)
    requires L.DistinctKeys(selected) && forall u | u in selected :: L.Full(u.version)
    ensures var once := L.OfferAll(l, Items(selected, L.Follow));
            && L.OfferAll(once, Items(selected, L.Follow)) == once
            && L.OfferAll(once, selected) == L.OfferAll(l, selected)
  {
    hide L.OfferAll, Items;
    var f := Items(selected, L.Follow);
    ItemsMember(selected, L.Follow);
    L.RepeatedOffers(l, f, f);
    BothCommitted(l, selected);
    BothCommitted(L.OfferAll(l, f), selected);
  }

  lemma EmptyFlush(l: L.Lists)
    ensures L.Winners([], []) && L.OfferAll(l, []) == l
  {
  }

  lemma WinnersFull(updates: seq<L.Update>, ws: seq<L.Update>)
    requires AllFull(updates) && L.Winners(updates, ws)
    ensures AllFull(ws)
  {
    hide L.WinnerOf;
    forall w | w in ws ensures L.Full(w.version) {
      L.WinnerFromSequence(updates, w.kind, w.author);
    }
  }

  lemma WinnersSame(updates: seq<L.Update>, ws: seq<L.Update>, vs: seq<L.Update>)
    requires L.Winners(updates, ws) && L.Winners(updates, vs)
    ensures forall u :: u in ws <==> u in vs
  {
    hide L.WinnerOf;
  }

  /** Every attempt selects the same updates, so it builds on what an earlier one committed. */
  lemma Reselected(start: L.Lists, before: L.Lists, selected: seq<L.Update>, ws: seq<L.Update>, updates: seq<L.Update>)
    requires AllFull(updates) && L.Winners(updates, ws)
    requires before == start ||
             (L.Winners(updates, selected) && before == L.OfferAll(start, Items(selected, L.Follow)))
    ensures L.OfferAll(before, ws) == L.OfferAll(start, ws)
    ensures L.OfferAll(before, Items(ws, L.Follow)) == L.OfferAll(start, Items(ws, L.Follow))
    ensures before == start || before == L.OfferAll(start, Items(ws, L.Follow))
  {
    hide L.OfferAll, L.WinnerOf, Items;
    WinnersFull(updates, ws);
    SecondAttempt(start, ws);
    if before != start {
      WinnersSame(updates, selected, ws);
      ItemsMember(selected, L.Follow);
      ItemsMember(ws, L.Follow);
      L.PermutedOffers(start, Items(selected, L.Follow), Items(ws, L.Follow));
    }
  }

  /** Up to three attempts on the same batch; `outcomes` says which transactions go through. */
  method Flush(db: Database, graph: WotGraph, updates: seq<L.Update>, outcomes: seq<(bool, bool)>)
    returns (ok: bool, ghost selected: seq<L.Update>)
    requires db.Valid() && graph.Valid() && AllFull(updates) && |outcomes| == 3
    requires db.View() == graph.View()
    requires |graph.idToPubkey| + TotalKeys(updates) < 0x1_0000_0000
    modifies db, graph
    ensures db.Valid() && graph.Valid() && L.Winners(updates, selected)
    ensures ok <==> updates == [] || exists i :: 0 <= i < 3 && GoesThrough(updates, L.Follow, outcomes[i].0) &&
                                                 GoesThrough(updates, L.Mute, outcomes[i].1)
    ensures (exists i :: 0 <= i < 3 && outcomes[i] == (true, true)) ==> ok
    ensures ok ==> graph.View() == db.View() == L.OfferAll(old(db.View()), selected)
    ensures !ok ==> graph.View() == old(graph.View())
    ensures !ok ==> db.View() == old(db.View()) || db.View() == L.OfferAll(old(db.View()), Items(selected, L.Follow))
  {
    hide L.OfferAll, L.WinnerOf, Tables.ViewOf, GraphData.ViewOf, GraphData.ValidData;
    ghost var start := db.View();
    if updates == [] {
      selected := [];
      EmptyFlush(start);
      return true, selected;
    }
    ok, selected := false, [];
    for attempt := 0 to 3
      invariant db.Valid() && graph.Valid() && (attempt > 0 ==> L.Winners(updates, selected))
      invariant graph.View() == start && graph.idToPubkey == old(graph.idToPubkey)
      invariant db.View() == start ||
                (attempt > 0 && db.View() == L.OfferAll(start, Items(selected, L.Follow)))
      invariant !ok && forall i | 0 <= i < attempt ::
                  !(GoesThrough(updates, L.Follow, outcomes[i].0) && GoesThrough(updates, L.Mute, outcomes[i].1))
    {
      ghost var before := db.View();
      var count, ws := PersistAndApply(db, graph, updates, outcomes[attempt].0, outcomes[attempt].1);
      Reselected(start, before, selected, ws, updates);
      selected := ws;
      if count.Some? {
        return true, selected;
      }
    }
  }
}
