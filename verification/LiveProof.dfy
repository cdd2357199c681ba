/** Every answer served, fresh or cached, is the answer on a topology that was published meanwhile. */
module LiveProof {
  import opened Options
  import opened Walks
  import opened Distances
  import opened GraphData
  import opened Live
  import Store

  // ---------- The invariant ----------

  /** Ids are only ever added. */
  ghost predicate IdsKept(ids: map<string, nat>, ids': map<string, nat>) {
    forall pk | pk in ids :: pk in ids' && ids'[pk] == ids[pk]
  }

  ghost predicate History(s: State) {
    && |s.published| == s.revision + 1
    && forall i | 0 <= i < |s.published| ::
         ValidTopology(s.published[i]) && IdsKept(s.published[i].ids, s.published[s.revision].ids)
  }

  /** The topology the current revision stands for. */
  function Top(s: State): Topology
    requires |s.published| == s.revision + 1
  {
    s.published[s.revision]
  }

  ghost predicate Differences(tp: Topology, node: nat, list: seq<nat>, toRemove: seq<nat>, toAdd: seq<nat>) {
    && node < |tp.follows| && IdList(|tp.names|, list)
    && (forall x :: x in toRemove <==> x in tp.follows[node] && x !in list)
    && (forall x :: x in toAdd <==> x in list && x !in tp.follows[node])
  }

  ghost predicate Dropped(tp: Topology, r: Adjacency, node: nat, toRemove: seq<nat>) {
    && |r| == |tp.followers| && AllSorted(r)
    && forall u: nat, v: nat | v < |r| :: Edge(r, v, u) <==> Edge(tp.followers, v, u) && !(u == node && v in toRemove)
  }

  /** How far the current topology is from the published one, by what the writer is doing. */
  ghost predicate WriterInv(s: State)
    requires |s.published| == s.revision + 1
  {
    var top, now := Top(s), s.topology;
    match s.writer
    case Free => now == top
    case Held => now == top
    case Creating(pk, stage) =>
      (match stage
       case CLocked => now == top && pk !in top.ids
       case Pushed => pk !in top.ids && now == WithNode(top, pk).(ids := top.ids)
       case Mapped => pk !in top.ids && now == WithNode(top, pk)
       case CBumped => now == top)
    case Diffing(node, list, seen) =>
      now == top && node < |top.follows| && IdList(|top.names|, list) && seen == top.follows[node]
    case Rewiring(node, list, toRemove, toAdd, stage) =>
      (match stage
       case RLocked => now == top && Differences(top, node, list, toRemove, toAdd)
       case Unfollowed =>
         && Differences(top, node, list, toRemove, toAdd)
         && now == top.(followers := now.followers) && Dropped(top, now.followers, node, toRemove)
       case Replaced =>
         && Differences(top, node, list, toRemove, toAdd)
         && now == top.(followers := now.followers, follows := top.follows[node := list])
         && Dropped(top, now.followers, node, toRemove)
       case Refollowed => Differences(top, node, list, toRemove, toAdd) && Rewired(top, now, node, list)
       case RBumped => now == top)
    case Merging(stage) =>
      (match stage
       case Torn => now == top.(follows := now.follows, followers := now.followers)
       case Edited => now == top.(follows := now.follows, followers := now.followers) && ValidTopology(now)
       case MBumped => now == top)
  }

  /** The answer on some topology published between the start of the request and now. */
  ghost predicate Explained(published: seq<Topology>, rev: nat, q: Query, res: DistanceResult) {
    exists i :: rev <= i < |published| && res == Distance(published[i], q)
  }

  ghost predicate KeyFits(ids: map<string, nat>, q: Query, key: CacheKey) {
    KeyFor(ids, q) == Some(key)
  }

  function QueryOf(tp: Topology, key: CacheKey): Query
    requires key.fromId < |tp.names| && key.toId < |tp.names|
  {
    Query(tp.names[key.fromId], tp.names[key.toId], key.maxHops, key.includeBridges)
  }

  ghost predicate CacheAnswer(tp: Topology, key: CacheKey, res: DistanceResult) {
    && key.fromId < |tp.names| && key.toId < |tp.names|
    && res == Distance(tp, QueryOf(tp, key))
  }

  /** An entry is right for a topology, as far as that topology knows the two nodes. */
  ghost predicate EntryFits(tp: Topology, key: CacheKey, c: CachedDistance) {
    key.fromId < |tp.names| && key.toId < |tp.names| ==>
      ToResult(c, tp.names[key.fromId], tp.names[key.toId], tp.names) == Distance(tp, QueryOf(tp, key))
  }

  ghost predicate EntryOk(published: seq<Topology>, key: CacheKey, c: CachedDistance) {
    c.revision < |published| && EntryFits(published[c.revision], key, c)
  }

  ghost predicate NameRead(s: State, rev: nat, id: nat, name: string) {
    rev == s.revision && rev < |s.published| ==> id < |s.published[rev].names| && name == s.published[rev].names[id]
  }

  ghost predicate KnownAs(s: State, pk: string, id: nat) {
    pk in s.topology.ids && s.topology.ids[pk] == id
  }

  /** What a request has found out so far. */
  ghost predicate StageInv(s: State, q: Query, at: Stage) {
    match at
    case Arrived => true
    case FromSeen(x) => KnownAs(s, q.from, x)
    case Getting(key) => KeyFits(s.topology.ids, q, key)
    case GotRevision(key, rev) => rev <= s.revision && KeyFits(s.topology.ids, q, key)
    case GotEntry(key, rev, c) =>
      rev <= s.revision && KeyFits(s.topology.ids, q, key) && c.revision == rev && EntryOk(s.published, key, c)
    case GotFrom(key, rev, c, from) =>
      && rev <= s.revision && KeyFits(s.topology.ids, q, key) && c.revision == rev && EntryOk(s.published, key, c)
      && NameRead(s, rev, key.fromId, from)
    case GotTo(key, rev, c, from, to) =>
      && rev <= s.revision && KeyFits(s.topology.ids, q, key) && c.revision == rev && EntryOk(s.published, key, c)
      && NameRead(s, rev, key.fromId, from) && NameRead(s, rev, key.toId, to)
    case GotAll(key, rev, res) =>
      && rev <= s.revision && KeyFits(s.topology.ids, q, key)
      && (rev == s.revision && rev < |s.published| ==> CacheAnswer(s.published[rev], key, res))
    case Served(key, rev, res) =>
      rev < |s.published| && CacheAnswer(s.published[rev], key, res) && res == Distance(s.published[rev], q)
    case Asked => true
    case Began(rev) => rev <= s.revision
    case FromKnown(rev, x) => rev <= s.revision && q.from != q.to && KnownAs(s, q.from, x)
    case BothKnown(rev, x, y) => rev <= s.revision && q.from != q.to && KnownAs(s, q.from, x) && KnownAs(s, q.to, y)
    case Searching(rev, x, y) =>
      && rev <= s.revision && q.from != q.to && KnownAs(s, q.from, x) && KnownAs(s, q.to, y)
      && !AdjacencyLocked(s.writer)
    case Answered(rev, res) => Explained(s.published, rev, q, res)
    case Keyed(rev, res, key) => Explained(s.published, rev, q, res) && KeyFits(s.topology.ids, q, key)
    case Checked(rev, res, key) =>
      rev < |s.published| && res == Distance(s.published[rev], q) && KeyFits(s.topology.ids, q, key)
  }

  /** The revision a stage relies on, if any. */
  function RevisionOf(at: Stage): Option<nat> {
    match at
    case Arrived => None
    case FromSeen(_) => None
    case Getting(_) => None
    case GotRevision(_, rev) => Some(rev)
    case GotEntry(_, rev, _) => Some(rev)
    case GotFrom(_, rev, _, _) => Some(rev)
    case GotTo(_, rev, _, _, _) => Some(rev)
    case GotAll(_, rev, _) => Some(rev)
    case Served(_, rev, _) => Some(rev)
    case Asked => None
    case Began(rev) => Some(rev)
    case FromKnown(rev, _) => Some(rev)
    case BothKnown(rev, _, _) => Some(rev)
    case Searching(rev, _, _) => Some(rev)
    case Answered(rev, _) => Some(rev)
    case Keyed(rev, _, _) => Some(rev)
    case Checked(rev, _, _) => Some(rev)
  }

  ghost predicate ReaderInv(s: State, r: Reader) {
    && r.start <= s.revision && StageInv(s, r.q, r.at)
    && (RevisionOf(r.at).Some? ==> r.start <= RevisionOf(r.at).value)
  }

  ghost predicate Inv(s: State) {
    && History(s) && WriterInv(s)
    && (forall i | i in s.readers :: ReaderInv(s, s.readers[i]))
    && forall key | key in s.entries :: EntryOk(s.published, key, s.entries[key])
  }

  // ---------- The writer ----------

  /** With the adjacency locks free, what is in memory is what the revision stands for. */
  lemma UnlockedIsPublished(s: State)
    requires History(s) && WriterInv(s) && !AdjacencyLocked(s.writer)
    ensures s.topology == Top(s)
  {
  }

  /** The id map is ahead of the published one by at most the node being created. */
  lemma IdsAhead(s: State)
    requires History(s) && WriterInv(s)
    ensures IdsKept(Top(s).ids, s.topology.ids)
    ensures forall a, b | a in s.topology.ids && b in s.topology.ids && s.topology.ids[a] == s.topology.ids[b] :: a == b
    ensures !NamesLocked(s.writer) ==> s.topology.names == Top(s).names && s.topology.ids == Top(s).ids
  {
  }

  /** What a step of the writer leaves for readers to rely on. */
  ghost predicate Grows(s: State, s': State) {
    && s.revision <= s'.revision && s.published <= s'.published
    && IdsKept(s.topology.ids, s'.topology.ids)
    && s'.readers == s.readers && s'.entries == s.entries
    && (AdjacencyLocked(s'.writer) && !AdjacencyLocked(s.writer) ==> NobodySearching(s))
  }

  /** A bump records the current topology as that of the new revision. */
  lemma BumpKeeps(s: State, w: Writer)
    requires History(s) && ValidTopology(s.topology) && IdsKept(Top(s).ids, s.topology.ids)
    ensures History(Bumped(s, w)) && Top(Bumped(s, w)) == s.topology
    ensures s.published <= Bumped(s, w).published
  {
  }

  lemma NodeSteps(s: State, s': State)
    requires History(s) && WriterInv(s)
    requires (exists pk :: LockForNode(s, s', pk)) || PushNode(s, s') || MapNode(s, s') || BumpNode(s, s') || UnlockNode(s, s')
    ensures History(s') && WriterInv(s') && Grows(s, s')
  {
    hide ValidTopology, NobodySearching;
    if BumpNode(s, s') {
      WithNodeValid(Top(s), s.writer.pubkey);
      BumpKeeps(s, s'.writer);
    }
  }

  /** The list read before the locks were dropped is still the current one when they are taken again. */
  lemma DiffStillCurrent(s: State, s': State, toRemove: seq<nat>, toAdd: seq<nat>)
    requires History(s) && WriterInv(s) && LockForEdges(s, s', toRemove, toAdd)
    ensures History(s') && WriterInv(s') && Grows(s, s')
  {
    hide ValidTopology, NobodySearching;
  }

  lemma EdgeSteps(s: State, s': State)
    requires History(s) && WriterInv(s)
    requires (exists r :: DropEdges(s, s', r)) || ReplaceList(s, s') || (exists r :: AddEdges(s, s', r))
    ensures History(s') && WriterInv(s') && Grows(s, s')
  {
    hide ValidTopology, NobodySearching, IdList;
    if r :| AddEdges(s, s', r) {
      SameNodeCount(Top(s));
      Store.DiffRewires(Top(s), s'.topology, s.writer.node, s.writer.list, s.writer.toRemove, s.writer.toAdd);
    }
  }

  lemma RewiredIds(tp: Topology, after: Topology, node: nat, list: seq<nat>)
    requires Rewired(tp, after, node, list)
    ensures after.ids == tp.ids
  {
  }

  lemma BumpEdgesKeeps(s: State, s': State)
    requires History(s) && WriterInv(s) && (BumpEdges(s, s') || UnlockEdges(s, s'))
    ensures History(s') && WriterInv(s') && Grows(s, s')
  {
    hide ValidTopology, NobodySearching, Rewired;
    if BumpEdges(s, s') {
      var w := s.writer;
      RewiredValid(Top(s), s.topology, w.node, w.list);
      RewiredIds(Top(s), s.topology, w.node, w.list);
      if w.toRemove == [] && w.toAdd == [] {
        Store.DiffEmpty(Top(s), s.topology, w.node, w.list, w.toRemove, w.toAdd);
      } else {
        BumpKeeps(s, s'.writer);
      }
    }
  }

  lemma MergeSteps(s: State, s': State)
    requires History(s) && WriterInv(s)
    requires LockForMerge(s, s') || (exists f, r :: MergeRows(s, s', f, r)) || (exists f, r :: FinishMerge(s, s', f, r))
             || BumpMerge(s, s') || UnlockMerge(s, s')
    ensures History(s') && WriterInv(s') && Grows(s, s')
  {
    hide NobodySearching;
    if BumpMerge(s, s') && s' == Bumped(s, s'.writer) {
      BumpKeeps(s, s'.writer);
    }
  }

  lemma WriterKeeps(s: State, s': State)
    requires History(s) && WriterInv(s) && WriterStep(s, s')
    ensures History(s') && WriterInv(s') && Grows(s, s')
  {
    hide LockForNode, PushNode, MapNode, BumpNode, UnlockNode, LockForEdges, DropEdges, ReplaceList, AddEdges, BumpEdges,
         UnlockEdges, LockForMerge, MergeRows, FinishMerge, BumpMerge, UnlockMerge, ValidTopology, NobodySearching;
    if (exists pk :: LockForNode(s, s', pk)) || PushNode(s, s') || MapNode(s, s') || BumpNode(s, s') || UnlockNode(s, s') {
      NodeSteps(s, s');
    } else if xs, ys :| LockForEdges(s, s', xs, ys) {
      DiffStillCurrent(s, s', xs, ys);
    } else if (exists r :: DropEdges(s, s', r)) || ReplaceList(s, s') || (exists r :: AddEdges(s, s', r)) {
      EdgeSteps(s, s');
    } else if BumpEdges(s, s') || UnlockEdges(s, s') {
      BumpEdgesKeeps(s, s');
    } else if LockForMerge(s, s') || (exists f, r :: MergeRows(s, s', f, r)) || (exists f, r :: FinishMerge(s, s', f, r))
             || BumpMerge(s, s') || UnlockMerge(s, s') {
      MergeSteps(s, s');
    } else if BumpMutes(s, s') {
      BumpKeeps(s, Held);
    }
  }

  // ---------- Readers ----------

  lemma ExplainedKept(p: seq<Topology>, p': seq<Topology>, rev: nat, q: Query, res: DistanceResult)
    requires p <= p' && Explained(p, rev, q, res)
    ensures Explained(p', rev, q, res)
  {
    hide Distance;
    var i :| rev <= i < |p| && res == Distance(p[i], q);
    assert p'[i] == p[i];
  }

  /** What a request knows stays true while the others move. */
  lemma ReaderStays(s: State, s': State, r: Reader)
    requires History(s) && History(s') && Grows(s, s') && ReaderInv(s, r)
    requires r.at.Searching? ==> !AdjacencyLocked(s'.writer)
    ensures ReaderInv(s', r)
  {
    hide Distance, ValidTopology, ToResult, RevisionOf;
    if r.at.Answered? || r.at.Keyed? {
      ExplainedKept(s.published, s'.published, r.at.rev, r.q, r.at.res);
    }
  }

  /** An answer that is right now is explained by the current revision. */
  lemma ExplainedNow(s: State, rev: nat, q: Query, res: DistanceResult)
    requires History(s) && rev <= s.revision && res == Distance(Top(s), q)
    ensures Explained(s.published, rev, q, res)
  {
    hide Distance;
    assert s.published[s.revision] == Top(s);
  }

  lemma SameNodeAnswer(tp: Topology, q: Query)
    requires q.from == q.to
    ensures Distance(tp, q) == SameNode(q.from)
  {
  }

  lemma UnknownAnswer(tp: Topology, q: Query)
    requires q.from != q.to && (q.from !in tp.ids || q.to !in tp.ids)
    ensures Distance(tp, q) == NotFound(q.from, q.to)
  {
  }

  lemma KnownAnswer(tp: Topology, q: Query)
    requires q.from != q.to && q.from in tp.ids && q.to in tp.ids
    ensures Distance(tp, q) == DistanceById(tp.names, tp.follows, tp.followers, q, tp.ids[q.from], tp.ids[q.to])
  {
  }

  /** The steps of a computation: each reads shared state that may have moved since the last. */
  lemma QueryMoves(s: State, q: Query, at: Stage, at': Stage)
    requires Inv(s) && StageInv(s, q, at) && Move(s, q, at, at')
    requires at.Asked? || at.Began? || at.FromKnown? || at.BothKnown? || at.Searching?
    ensures StageInv(s, q, at')
  {
    hide Distance, DistanceById, ValidTopology, EntryOk, NotFound, SameNode;
    IdsAhead(s);
    match at
    case Asked =>
    case Began(rev) =>
      if q.from == q.to {
        SameNodeAnswer(Top(s), q);
        ExplainedNow(s, rev, q, SameNode(q.from));
      } else if q.from !in s.topology.ids {
        UnknownAnswer(Top(s), q);
        ExplainedNow(s, rev, q, NotFound(q.from, q.to));
      }
    case FromKnown(rev, x) =>
      if q.to !in s.topology.ids {
        UnknownAnswer(Top(s), q);
        ExplainedNow(s, rev, q, NotFound(q.from, q.to));
      }
    case BothKnown(rev, x, y) =>
    case Searching(rev, x, y) =>
      UnlockedIsPublished(s);
      KnownAnswer(Top(s), q);
      ExplainedNow(s, rev, q, Distance(Top(s), q));
  }

  /** Only an answer whose revision is still current passes the check before insertion. */
  lemma InsertMoves(s: State, q: Query, at: Stage, at': Stage)
    requires Inv(s) && StageInv(s, q, at) && Move(s, q, at, at')
    requires at.Answered? || at.Keyed?
    ensures StageInv(s, q, at')
  {
    hide Distance, ValidTopology, EntryOk, WriterInv;
    if at.Keyed? {
      var i :| at.rev <= i < |s.published| && at.res == Distance(s.published[i], q);
      assert i == at.rev;
    }
  }

  /** A name read while the name vector is free is that of the current revision. */
  lemma NameReadNow(s: State, rev: nat, id: nat)
    requires Inv(s) && !NamesLocked(s.writer) && id < |s.topology.names| && rev <= s.revision
    ensures NameRead(s, rev, id, s.topology.names[id])
  {
    hide EntryOk, ReaderInv, ValidTopology;
    IdsAhead(s);
  }

  /** The ids of a key name the two ends of the query, wherever the revision knows them. */
  lemma KeyNames(tp: Topology, ids: map<string, nat>, q: Query, key: CacheKey)
    requires ValidTopology(tp) && IdsKept(tp.ids, ids) && KeyFits(ids, q, key)
    requires forall a, b | a in ids && b in ids && ids[a] == ids[b] :: a == b
    requires key.fromId < |tp.names| && key.toId < |tp.names|
    ensures QueryOf(tp, key) == q
  {
    assert tp.names[key.fromId] in tp.ids && tp.names[key.toId] in tp.ids;
  }

  /** The key was made from the query, so the answer for the key is the answer for the query. */
  lemma HitAnswersQuery(s: State, q: Query, key: CacheKey, res: DistanceResult)
    requires Inv(s) && KeyFits(s.topology.ids, q, key) && CacheAnswer(Top(s), key, res)
    ensures res == Distance(Top(s), q)
  {
    hide Distance, ReaderInv, EntryOk;
    IdsAhead(s);
    KeyNames(Top(s), s.topology.ids, q, key);
  }

  lemma EntryAnswers(s: State, key: CacheKey, rev: nat, c: CachedDistance, from: string, to: string)
    requires Inv(s) && !NamesLocked(s.writer) && rev == s.revision && c.revision == rev
    requires EntryOk(s.published, key, c) && NameRead(s, rev, key.fromId, from) && NameRead(s, rev, key.toId, to)
    ensures CacheAnswer(s.published[rev], key, ToResult(c, from, to, s.topology.names))
  {
    hide Distance, ValidTopology, ToResult, ReaderInv;
    IdsAhead(s);
  }

  /** A cache read: ids, revision, entry, names, revision again. */
  lemma GetMoves(s: State, q: Query, at: Stage, at': Stage)
    requires Inv(s) && StageInv(s, q, at) && Move(s, q, at, at')
    requires at.Arrived? || at.FromSeen? || at.Getting? || at.GotRevision? || at.GotEntry? || at.GotFrom? || at.GotTo? || at.GotAll?
    ensures StageInv(s, q, at')
  {
    hide Distance, ValidTopology, ToResult, NameRead, WriterInv, EntryFits;
    match at
    case GotEntry(key, rev, c) =>
      if key.fromId < |s.topology.names| {
        NameReadNow(s, rev, key.fromId);
      }
    case GotFrom(key, rev, c, from) =>
      if key.toId < |s.topology.names| {
        NameReadNow(s, rev, key.toId);
      }
    case GotTo(key, rev, c, from, to) =>
      if rev == s.revision {
        EntryAnswers(s, key, rev, c, from, to);
      }
    case GotAll(key, rev, res) =>
      if rev == s.revision {
        HitAnswersQuery(s, q, key, res);
      }
    case _ =>
  }

  // ---------- Insertion ----------

  lemma {:induction false} IdsOfResolve(names: seq<string>, ids: map<string, nat>, more: map<string, nat>, bs: seq<string>)
    requires Bijection(names, ids) && IdsKept(ids, more) && forall x | x in bs :: x in ids
    ensures Resolve(names, IdsOf(more, bs)) == bs
    ensures forall v | v in IdsOf(more, bs) :: v < |names|
  {
    if bs != [] {
      var pk, rest := bs[|bs| - 1], bs[..|bs| - 1];
      assert bs == rest + [pk];
      IdsOfResolve(names, ids, more, rest);
      var vs := IdsOf(more, rest);
      assert (vs + [more[pk]])[..|vs|] == vs;
      assert pk in ids && more[pk] == ids[pk];
    }
  }

  lemma {:induction false} ResolvedAreNames(names: seq<string>, vs: seq<nat>)
    ensures forall x | x in Resolve(names, vs) :: x in names
  {
    if vs != [] {
      ResolvedAreNames(names, vs[..|vs| - 1]);
    }
  }

  lemma AnswerNames(tp: Topology, q: Query)
    requires Bijection(tp.names, tp.ids)
    ensures Distance(tp, q).from == q.from && Distance(tp, q).to == q.to
    ensures Distance(tp, q).bridges.Some? ==> forall x | x in Distance(tp, q).bridges.value :: x in tp.ids
  {
    hide Search.Bidirectional, Resolve;
    if q.from != q.to && q.from in tp.ids && q.to in tp.ids {
      var o := Search.Bidirectional(tp.follows, tp.followers, tp.ids[q.from], tp.ids[q.to], q.maxHops, Search.SmallerFrontier());
      ResolvedAreNames(tp.names, o.bridgeIds);
    }
  }

  /** Converting an answer to ids and back loses nothing. */
  lemma ConversionExact(tp: Topology, q: Query, ids: map<string, nat>, rev: nat)
    requires ValidTopology(tp) && IdsKept(tp.ids, ids)
    ensures ToResult(FromResult(Distance(tp, q), ids, rev), q.from, q.to, tp.names) == Distance(tp, q)
  {
    hide Distance, Resolve, IdsOf;
    AnswerNames(tp, q);
    if Distance(tp, q).bridges.Some? {
      IdsOfResolve(tp.names, tp.ids, ids, Distance(tp, q).bridges.value);
    }
  }

  lemma IdsKeptTwice(a: map<string, nat>, b: map<string, nat>, c: map<string, nat>)
    requires IdsKept(a, b) && IdsKept(b, c)
    ensures IdsKept(a, c)
  {
  }

  lemma InsertedOk(s: State, q: Query, rev: nat, res: DistanceResult, key: CacheKey)
    requires Inv(s) && StageInv(s, q, Checked(rev, res, key))
    ensures EntryOk(s.published, key, FromResult(res, s.topology.ids, rev))
  {
    hide Distance, ToResult;
    var tp := s.published[rev];
    IdsAhead(s);
    IdsKeptTwice(tp.ids, Top(s).ids, s.topology.ids);
    if key.fromId < |tp.names| && key.toId < |tp.names| {
      KeyNames(tp, s.topology.ids, q, key);
      ConversionExact(tp, q, s.topology.ids, rev);
    }
  }

  // ---------- Every step keeps the invariant ----------

  lemma EntryStays(p: seq<Topology>, p': seq<Topology>, key: CacheKey, c: CachedDistance)
    requires p <= p' && EntryOk(p, key, c)
    ensures EntryOk(p', key, c)
  {
    hide Distance, ToResult;
  }

  lemma SearchingUnlocked(s: State, i: nat)
    requires i in s.readers && ReaderInv(s, s.readers[i]) && s.readers[i].at.Searching?
    ensures !AdjacencyLocked(s.writer)
  {
  }

  lemma WriterStepKeeps(s: State, s': State)
    requires Inv(s) && WriterStep(s, s')
    ensures Inv(s')
  {
    hide WriterStep, History, WriterInv, ReaderInv, EntryOk;
    WriterKeeps(s, s');
    forall i | i in s'.readers ensures ReaderInv(s', s'.readers[i]) {
      if s.readers[i].at.Searching? {
        SearchingUnlocked(s, i);
      }
      ReaderStays(s, s', s.readers[i]);
    }
    forall key | key in s'.entries ensures EntryOk(s'.published, key, s'.entries[key]) {
      EntryStays(s.published, s'.published, key, s.entries[key]);
    }
  }

  lemma NoFurtherMove(s: State, q: Query, at: Stage, at': Stage)
    requires Move(s, q, at, at')
    ensures !at.Checked? && !at.Served?
  {
  }

  lemma StageMoves(s: State, q: Query, at: Stage, at': Stage)
    requires Inv(s) && StageInv(s, q, at) && Move(s, q, at, at')
    ensures StageInv(s, q, at')
  {
    hide StageInv, WriterInv, EntryOk, ValidTopology, Inv, Move;
    NoFurtherMove(s, q, at, at');
    if at.Asked? || at.Began? || at.FromKnown? || at.BothKnown? || at.Searching? {
      QueryMoves(s, q, at, at');
    } else if at.Answered? || at.Keyed? {
      InsertMoves(s, q, at, at');
    } else {
      GetMoves(s, q, at, at');
    }
  }

  /** A revision read in a step is the current one; otherwise it is handed on. */
  lemma RevisionMoves(s: State, q: Query, at: Stage, at': Stage)
    requires Move(s, q, at, at')
    ensures RevisionOf(at').Some? ==> RevisionOf(at') == RevisionOf(at) || RevisionOf(at') == Some(s.revision)
  {
    hide Distance, DistanceById, ToResult, NotFound, SameNode;
  }

  /** Readers and entries aside, nothing changed. */
  lemma SameShared(s: State, s': State)
    requires s' == s.(readers := s'.readers, entries := s'.entries)
    ensures History(s') <==> History(s)
    ensures |s.published| == s.revision + 1 ==> (WriterInv(s') <==> WriterInv(s))
    ensures forall r :: ReaderInv(s', r) <==> ReaderInv(s, r)
  {
    hide Distance, ValidTopology, ToResult, Explained;
  }

  lemma ReaderStepKeeps(s: State, s': State, i: nat, at': Stage)
    requires Inv(s) && ReaderStep(s, s', i, at')
    ensures Inv(s')
  {
    hide Move, StageInv, RevisionOf, WriterInv, EntryOk, ValidTopology;
    var r := s.readers[i];
    StageMoves(s, r.q, r.at, at');
    RevisionMoves(s, r.q, r.at, at');
    SameShared(s, s');
  }

  lemma CheckedExplained(s: State, q: Query, rev: nat, res: DistanceResult, key: CacheKey)
    requires StageInv(s, q, Checked(rev, res, key))
    ensures StageInv(s, q, Answered(rev, res))
  {
    hide Distance;
  }

  lemma InsertStepKeeps(s: State, s': State, i: nat)
    requires Inv(s) && InsertStep(s, s', i)
    ensures Inv(s')
  {
    hide WriterInv, EntryOk, ValidTopology, FromResult, Distance, StageInv;
    var r := s.readers[i];
    InsertedOk(s, r.q, r.at.rev, r.at.res, r.at.key);
    CheckedExplained(s, r.q, r.at.rev, r.at.res, r.at.key);
    SameShared(s, s');
  }

  lemma JustArrived(s: State, q: Query)
    ensures ReaderInv(s, Reader(q, s.revision, Arrived))
  {
  }

  /** Requests come and go; entries expire. */
  lemma OtherKeeps(s: State, s': State)
    requires Inv(s)
    requires (exists i, q :: Arrive(s, s', i, q)) || (exists ids :: Leave(s, s', ids)) || (exists keys :: EvictEntries(s, s', keys))
    ensures Inv(s')
  {
    hide WriterInv, EntryOk, ValidTopology, ReaderInv;
    SameShared(s, s');
    forall q ensures ReaderInv(s, Reader(q, s.revision, Arrived)) {
      JustArrived(s, q);
    }
  }

  lemma StepKeeps(s: State, s': State)
    requires Inv(s) && Step(s, s')
    ensures Inv(s')
  {
    hide Inv, WriterStep, ReaderStep, InsertStep;
    if WriterStep(s, s') {
      WriterStepKeeps(s, s');
    } else if i, at :| ReaderStep(s, s', i, at) {
      ReaderStepKeeps(s, s', i, at);
    } else if i :| InsertStep(s, s', i) {
      InsertStepKeeps(s, s', i);
    } else {
      OtherKeeps(s, s');
    }
  }

  // ---------- Whole runs ----------

  ghost predicate Initial(s: State) {
    s == State(Topology([], map[], [], []), 0, [Topology([], map[], [], [])], Free, map[], map[])
  }

  ghost predicate StepAt(trace: seq<State>, i: nat)
    requires i + 1 < |trace|
  {
    Step(trace[i], trace[i + 1])
  }

  ghost predicate Run(trace: seq<State>) {
    trace != [] && Initial(trace[0]) && forall i: nat | i < |trace| - 1 :: StepAt(trace, i)
  }

  lemma InitialInv(s: State)
    requires Initial(s)
    ensures Inv(s)
  {
  }

  lemma {:induction false} RunKeeps(trace: seq<State>, i: nat)
    requires Run(trace) && i < |trace|
    ensures Inv(trace[i])
    decreases i
  {
    hide Inv, Step;
    if i == 0 {
      InitialInv(trace[0]);
    } else {
      RunKeeps(trace, i - 1);
      assert StepAt(trace, i - 1);
      StepKeeps(trace[i - 1], trace[i]);
    }
  }

  /**
   Cache coherence: whatever the cache serves for a key is the answer computed afresh on the
   topology of the revision it was read under, bridges and their order included.
   */
  lemma CacheCoherent(trace: seq<State>, i: nat, reader: nat, key: CacheKey, rev: nat, res: DistanceResult)
    requires Run(trace) && i < |trace|
    requires reader in trace[i].readers && trace[i].readers[reader].at == Served(key, rev, res)
    ensures rev < |trace[i].published| && ValidTopology(trace[i].published[rev])
    ensures CacheAnswer(trace[i].published[rev], key, res)
  {
    hide Run, CacheAnswer, WriterInv, EntryOk, ValidTopology;
    RunKeeps(trace, i);
    assert ReaderInv(trace[i], trace[i].readers[reader]);
  }

  /** A computed answer is the answer on some topology published since the computation read the revision. */
  lemma AnswerExplained(trace: seq<State>, i: nat, reader: nat, rev: nat, res: DistanceResult)
    requires Run(trace) && i < |trace|
    requires reader in trace[i].readers && trace[i].readers[reader].at == Answered(rev, res)
    ensures Explained(trace[i].published, rev, trace[i].readers[reader].q, res)
  {
    hide Run, Explained, WriterInv, EntryOk, ValidTopology;
    RunKeeps(trace, i);
    assert ReaderInv(trace[i], trace[i].readers[reader]);
  }

  /** A response, computed or from the cache. */
  ghost predicate Responds(at: Stage, res: DistanceResult) {
    (at.Served? || at.Answered?) && at.res == res
  }

  lemma ResponseExplained(s: State, r: Reader, res: DistanceResult)
    requires History(s) && ReaderInv(s, r) && Responds(r.at, res)
    ensures Explained(s.published, r.start, r.q, res)
  {
    hide Distance, ValidTopology;
    if r.at.Answered? {
      var k :| r.at.rev <= k < |s.published| && res == Distance(s.published[k], r.q);
      assert r.start <= k;
    } else {
      assert r.start <= r.at.rev;
    }
  }

  ghost predicate Present(trace: seq<State>, reader: nat, i: nat)
    requires i < |trace|
  {
    reader in trace[i].readers
  }

  /** A request keeps its query and the revision at which it arrived. */
  lemma StepKeepsRequest(s: State, s': State, reader: nat)
    requires Step(s, s') && reader in s'.readers
    ensures reader in s.readers ==>
              s'.readers[reader].q == s.readers[reader].q && s'.readers[reader].start == s.readers[reader].start
    ensures reader !in s.readers ==> s'.readers[reader].start == s.revision && s'.revision == s.revision
  {
    hide Move, FromResult, Inv;
  }

  lemma {:induction false} StartKept(trace: seq<State>, j: nat, i: nat, reader: nat)
    requires Run(trace) && j < i < |trace| && !Present(trace, reader, j)
    requires reader in trace[j + 1].readers && reader in trace[i].readers
    requires forall m: nat | j < m <= i :: Present(trace, reader, m)
    ensures trace[i].readers[reader].start == trace[j].revision
    ensures trace[i].readers[reader].q == trace[j + 1].readers[reader].q
    decreases i
  {
    hide Step;
    assert StepAt(trace, i - 1) && Present(trace, reader, i);
    StepKeepsRequest(trace[i - 1], trace[i], reader);
    if i > j + 1 {
      assert Present(trace, reader, i - 1);
      StartKept(trace, j, i - 1, reader);
    }
  }

  /**
   Whole requests: a request that arrives after state `j` and responds in state `i`, from the
   cache or by computing, gives the answer to its query on a topology that was published at
   some moment in between.
   */
  lemma RequestAnswered(trace: seq<State>, j: nat, i: nat, reader: nat, res: DistanceResult)
    requires Run(trace) && j < i < |trace| && !Present(trace, reader, j)
    requires reader in trace[j + 1].readers && reader in trace[i].readers
    requires forall m: nat | j < m <= i :: Present(trace, reader, m)
    requires Responds(trace[i].readers[reader].at, res)
    ensures exists k :: trace[j].revision <= k <= trace[i].revision && k < |trace[i].published| &&
              ValidTopology(trace[i].published[k]) &&
              res == Distance(trace[i].published[k], trace[j + 1].readers[reader].q)
  {
    hide Run, Distance, ValidTopology, WriterInv, EntryOk, StageInv, Responds;
    RunKeeps(trace, i);
    assert Present(trace, reader, i);
    var s, r := trace[i], trace[i].readers[reader];
    StartKept(trace, j, i, reader);
    ResponseExplained(s, r, res);
    var k :| r.start <= k < |s.published| && res == Distance(s.published[k], r.q);
    assert ValidTopology(s.published[k]);
  }

  lemma SearchingConsistent(s: State, i: nat)
    requires Inv(s) && i in s.readers && s.readers[i].at.Searching?
    ensures |s.published| == s.revision + 1 && s.topology == Top(s) && ValidTopology(s.topology)
  {
    hide EntryOk, ValidTopology, WriterInv, ReaderInv;
    SearchingUnlocked(s, i);
    UnlockedIsPublished(s);
  }

  /**
   Consistent snapshots: while a search holds its read locks, the two vectors are sorted,
   of equal length and exact transposes, all ids resolve, and nothing is half-written.
   */
  lemma SnapshotConsistent(trace: seq<State>, i: nat, reader: nat)
    requires Run(trace) && i < |trace|
    requires reader in trace[i].readers && trace[i].readers[reader].at.Searching?
    ensures ValidTopology(trace[i].topology) && |trace[i].published| == trace[i].revision + 1
    ensures trace[i].topology == trace[i].published[trace[i].revision]
  {
    hide Run, Inv, ValidTopology;
    RunKeeps(trace, i);
    SearchingConsistent(trace[i], reader);
  }
}
