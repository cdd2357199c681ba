/**
 Requests, one writer at a time, and the query cache as a transition system. A request first
 tries the cache, looking at the revision before and after; on a miss it reads the revision,
 looks up two ids, takes the read locks, searches, and may later put its answer into the
 cache. The writer publishes nodes and edge changes in several separate steps.
 */
module Live {
  import opened Options
  import opened Walks
  import opened Distances
  import opened GraphData

  // ---------- States ----------

  datatype CacheKey = CacheKey(fromId: nat, toId: nat, maxHops: nat, includeBridges: bool)

  datatype CachedDistance = CachedDistance(revision: nat, hops: Option<nat>, pathCount: nat, mutualFollow: bool,
                                           bridgeIds: Option<seq<nat>>)

  datatype CreateStage = CLocked | Pushed | Mapped | CBumped
  datatype RewireStage = RLocked | Unfollowed | Replaced | Refollowed | RBumped
  datatype MergeStage = Torn | Edited | MBumped

  /** What the holder of the mutation mutex is doing. */
  datatype Writer =
    | Free
    | Held
    | Creating(pubkey: string, created: CreateStage)
    | Diffing(node: nat, list: seq<nat>, seen: seq<nat>)
    | Rewiring(node: nat, list: seq<nat>, toRemove: seq<nat>, toAdd: seq<nat>, rewired: RewireStage)
    | Merging(merged: MergeStage)

  /**
   How far a request has come: it tries the cache, then computes, and may put its answer into
   the cache. `Served` and `Answered` are the two ways to respond.
   */
  datatype Stage =
    | Arrived
    | FromSeen(s: nat)
    | Getting(key: CacheKey)
    | GotRevision(key: CacheKey, rev: nat)
    | GotEntry(key: CacheKey, rev: nat, cached: CachedDistance)
    | GotFrom(key: CacheKey, rev: nat, cached: CachedDistance, from: string)
    | GotTo(key: CacheKey, rev: nat, cached: CachedDistance, from: string, to: string)
    | GotAll(key: CacheKey, rev: nat, res: DistanceResult)
    | Served(key: CacheKey, rev: nat, res: DistanceResult)
    | Asked
    | Began(rev: nat)
    | FromKnown(rev: nat, s: nat)
    | BothKnown(rev: nat, s: nat, t: nat)
    | Searching(rev: nat, s: nat, t: nat)
    | Answered(rev: nat, res: DistanceResult)
    | Keyed(rev: nat, res: DistanceResult, key: CacheKey)
    | Checked(rev: nat, res: DistanceResult, key: CacheKey)

  /** A request, and the revision at the moment it arrived. */
  datatype Reader = Reader(q: Query, start: nat, at: Stage)

  /** `published[i]` is the topology that revision `i` stands for. */
  datatype State = State(topology: Topology, revision: nat, published: seq<Topology>, writer: Writer,
                         readers: map<nat, Reader>, entries: map<CacheKey, CachedDistance>)

  /** The write locks on both adjacency vectors are taken. */
  predicate AdjacencyLocked(w: Writer) {
    w.Creating? || w.Rewiring? || w.Merging?
  }

  /** The write lock on the name vector is taken. */
  predicate NamesLocked(w: Writer) {
    w.Creating?
  }

  predicate NobodySearching(s: State) {
    forall i | i in s.readers :: !s.readers[i].at.Searching?
  }

  // ---------- Conversions between answers and cache entries ----------

  function KeyFor(ids: map<string, nat>, q: Query): Option<CacheKey> {
    if q.from in ids && q.to in ids then Some(CacheKey(ids[q.from], ids[q.to], q.maxHops, q.includeBridges)) else None
  }

  function IdsOf(ids: map<string, nat>, names: seq<string>): seq<nat> {
    if names == [] then []
    else
      var pk := names[|names| - 1];
      IdsOf(ids, names[..|names| - 1]) + if pk in ids then [ids[pk]] else []
  }

  function FromResult(res: DistanceResult, ids: map<string, nat>, revision: nat): CachedDistance {
    CachedDistance(revision, res.hops, res.pathCount, res.mutualFollow,
                   match res.bridges case None => None case Some(b) => Some(IdsOf(ids, b)))
  }

  function ToResult(c: CachedDistance, from: string, to: string, names: seq<string>): DistanceResult {
    DistanceResult(from, to, c.hops, c.pathCount, c.mutualFollow,
                   match c.bridgeIds case None => None case Some(ids) => Some(Resolve(names, ids)))
  }

  // ---------- The writer's steps ----------

  ghost predicate Acquire(s: State, s': State) {
    s.writer == Free && s' == s.(writer := Held)
  }

  ghost predicate Release(s: State, s': State) {
    s.writer == Held && s' == s.(writer := Free)
  }

  ghost predicate LockForNode(s: State, s': State, pubkey: string) {
    && s.writer == Held && NobodySearching(s) && pubkey !in s.topology.ids
    && s' == s.(writer := Creating(pubkey, CLocked))
  }

  ghost predicate PushNode(s: State, s': State) {
    && s.writer.Creating? && s.writer.created == CLocked
    && s' == s.(writer := s.writer.(created := Pushed),
                topology := s.topology.(names := s.topology.names + [s.writer.pubkey],
                                        follows := s.topology.follows + [[]], followers := s.topology.followers + [[]]))
  }

  /** From here on lookups see the new id, although the revision has not moved yet. */
  ghost predicate MapNode(s: State, s': State) {
    && s.writer.Creating? && s.writer.created == Pushed && s.topology.names != []
    && s' == s.(writer := s.writer.(created := Mapped),
                topology := s.topology.(ids := s.topology.ids[s.writer.pubkey := |s.topology.names| - 1]))
  }

  function Bumped(s: State, w: Writer): State {
    s.(revision := s.revision + 1, published := s.published + [s.topology], writer := w)
  }

  ghost predicate BumpNode(s: State, s': State) {
    s.writer.Creating? && s.writer.created == Mapped && s' == Bumped(s, s.writer.(created := CBumped))
  }

  ghost predicate UnlockNode(s: State, s': State) {
    s.writer.Creating? && s.writer.created == CBumped && s' == s.(writer := Held)
  }

  /** The old list is read under a short read lock; the locks are free again afterwards. */
  ghost predicate ReadOldList(s: State, s': State, node: nat, list: seq<nat>) {
    && s.writer == Held && node < |s.topology.follows| && IdList(|s.topology.names|, list)
    && s' == s.(writer := Diffing(node, list, s.topology.follows[node]))
  }

  /** The difference to the list read earlier. */
  ghost predicate LockForEdges(s: State, s': State, toRemove: seq<nat>, toAdd: seq<nat>) {
    && s.writer.Diffing? && NobodySearching(s)
    && (forall x :: x in toRemove <==> x in s.writer.seen && x !in s.writer.list)
    && (forall x :: x in toAdd <==> x in s.writer.list && x !in s.writer.seen)
    && s' == s.(writer := Rewiring(s.writer.node, s.writer.list, toRemove, toAdd, RLocked))
  }

  /** The effect of `Store.WotGraph.Unfollow`. */
  ghost predicate DropEdges(s: State, s': State, followers: Adjacency) {
    && s.writer.Rewiring? && s.writer.rewired == RLocked
    && |followers| == |s.topology.followers| && AllSorted(followers)
    && (forall u: nat, v: nat | v < |followers| ::
          Edge(followers, v, u) <==> Edge(s.topology.followers, v, u) && !(u == s.writer.node && v in s.writer.toRemove))
    && s' == s.(writer := s.writer.(rewired := Unfollowed), topology := s.topology.(followers := followers))
  }

  ghost predicate ReplaceList(s: State, s': State) {
    && s.writer.Rewiring? && s.writer.rewired == Unfollowed && s.writer.node < |s.topology.follows|
    && s' == s.(writer := s.writer.(rewired := Replaced),
                topology := s.topology.(follows := s.topology.follows[s.writer.node := s.writer.list]))
  }

  /** The effect of `Store.WotGraph.Refollow`. */
  ghost predicate AddEdges(s: State, s': State, followers: Adjacency) {
    && s.writer.Rewiring? && s.writer.rewired == Replaced
    && |followers| == |s.topology.followers| && AllSorted(followers)
    && (forall u: nat, v: nat | v < |followers| ::
          Edge(followers, v, u) <==> Edge(s.topology.followers, v, u) || (u == s.writer.node && v in s.writer.toAdd))
    && s' == s.(writer := s.writer.(rewired := Refollowed), topology := s.topology.(followers := followers))
  }

  /** The revision moves only if some edge changed. */
  ghost predicate BumpEdges(s: State, s': State) {
    && s.writer.Rewiring? && s.writer.rewired == Refollowed
    && s' == if s.writer.toRemove == [] && s.writer.toAdd == [] then s.(writer := s.writer.(rewired := RBumped))
             else Bumped(s, s.writer.(rewired := RBumped))
  }

  ghost predicate UnlockEdges(s: State, s': State) {
    s.writer.Rewiring? && s.writer.rewired == RBumped && s' == s.(writer := Held)
  }

  /** New mute evidence: the topology stays, the revision moves, no adjacency lock is involved. */
  ghost predicate BumpMutes(s: State, s': State) {
    s.writer == Held && s' == Bumped(s, Held)
  }

  ghost predicate LockForMerge(s: State, s': State) {
    s.writer == Held && NobodySearching(s) && s' == s.(writer := Merging(Torn))
  }

  /** While a snapshot is merged, both vectors may be anything in between. */
  ghost predicate MergeRows(s: State, s': State, follows: Adjacency, followers: Adjacency) {
    && s.writer == Merging(Torn)
    && s' == s.(topology := s.topology.(follows := follows, followers := followers))
  }

  ghost predicate FinishMerge(s: State, s': State, follows: Adjacency, followers: Adjacency) {
    && s.writer == Merging(Torn)
    && |follows| == |s.topology.names| && Walks.WellFormed(follows, followers)
    && s' == s.(writer := Merging(Edited), topology := s.topology.(follows := follows, followers := followers))
  }

  /** A merge that changed edges moves the revision; one that changed only mute lists may, too. */
  ghost predicate BumpMerge(s: State, s': State) {
    && s.writer == Merging(Edited) && |s.published| > s.revision
    && (s' == Bumped(s, Merging(MBumped)) ||
        (s.topology == s.published[s.revision] && s' == s.(writer := Merging(MBumped))))
  }

  ghost predicate UnlockMerge(s: State, s': State) {
    s.writer == Merging(MBumped) && s' == s.(writer := Held)
  }

  ghost predicate WriterStep(s: State, s': State) {
    || Acquire(s, s') || Release(s, s')
    || (exists pk :: LockForNode(s, s', pk)) || PushNode(s, s') || MapNode(s, s') || BumpNode(s, s') || UnlockNode(s, s')
    || (exists node, list :: ReadOldList(s, s', node, list))
    || (exists xs, ys :: LockForEdges(s, s', xs, ys))
    || (exists r :: DropEdges(s, s', r)) || ReplaceList(s, s') || (exists r :: AddEdges(s, s', r))
    || BumpEdges(s, s') || UnlockEdges(s, s') || BumpMutes(s, s')
    || LockForMerge(s, s') || (exists f, r :: MergeRows(s, s', f, r)) || (exists f, r :: FinishMerge(s, s', f, r))
    || BumpMerge(s, s') || UnlockMerge(s, s')
  }

  // ---------- A request's steps ----------

  /** From one stage of a request to the next, given the shared state. */
  ghost predicate Move(s: State, q: Query, at: Stage, at': Stage) {
    match at
    case Arrived => at' == Asked || (q.from in s.topology.ids && at' == FromSeen(s.topology.ids[q.from]))
    case FromSeen(x) =>
      || at' == Asked
      || (q.to in s.topology.ids && at' == Getting(CacheKey(x, s.topology.ids[q.to], q.maxHops, q.includeBridges)))
    case Getting(key) => at' == GotRevision(key, s.revision)
    case GotRevision(key, rev) =>
      at' == if key in s.entries && s.entries[key].revision == rev then GotEntry(key, rev, s.entries[key]) else Asked
    case GotEntry(key, rev, c) =>
      && !NamesLocked(s.writer)
      && at' == if key.fromId < |s.topology.names| then GotFrom(key, rev, c, s.topology.names[key.fromId]) else Asked
    case GotFrom(key, rev, c, from) =>
      && !NamesLocked(s.writer)
      && at' == if key.toId < |s.topology.names| then GotTo(key, rev, c, from, s.topology.names[key.toId]) else Asked
    case GotTo(key, rev, c, from, to) =>
      !NamesLocked(s.writer) && at' == GotAll(key, rev, ToResult(c, from, to, s.topology.names))
    case GotAll(key, rev, res) => at' == if s.revision == rev then Served(key, rev, res) else Asked
    case Served(_, _, _) => false
    case Asked => at' == Began(s.revision)
    case Began(rev) =>
      at' == if q.from == q.to then Answered(rev, SameNode(q.from))
             else if q.from !in s.topology.ids then Answered(rev, NotFound(q.from, q.to))
             else FromKnown(rev, s.topology.ids[q.from])
    case FromKnown(rev, x) =>
      at' == if q.to !in s.topology.ids then Answered(rev, NotFound(q.from, q.to))
             else BothKnown(rev, x, s.topology.ids[q.to])
    case BothKnown(rev, x, y) => !AdjacencyLocked(s.writer) && at' == Searching(rev, x, y)
    case Searching(rev, x, y) =>
      at' == Answered(rev, DistanceById(s.topology.names, s.topology.follows, s.topology.followers, q, x, y))
    case Answered(rev, res) => KeyFor(s.topology.ids, q).Some? && at' == Keyed(rev, res, KeyFor(s.topology.ids, q).value)
    case Keyed(rev, res, key) => s.revision == rev && at' == Checked(rev, res, key)
    case Checked(_, _, _) => false
  }

  ghost predicate ReaderStep(s: State, s': State, i: nat, at': Stage) {
    && i in s.readers && Move(s, s.readers[i].q, s.readers[i].at, at')
    && s' == s.(readers := s.readers[i := s.readers[i].(at := at')])
  }

  /** The conversion and the write into the cache come after the check. */
  ghost predicate InsertStep(s: State, s': State, i: nat) {
    && i in s.readers && s.readers[i].at.Checked?
    && var at := s.readers[i].at;
       s' == s.(entries := s.entries[at.key := FromResult(at.res, s.topology.ids, at.rev)],
                readers := s.readers[i := s.readers[i].(at := Answered(at.rev, at.res))])
  }

  ghost predicate Arrive(s: State, s': State, i: nat, q: Query) {
    i !in s.readers && s' == s.(readers := s.readers[i := Reader(q, s.revision, Arrived)])
  }

  ghost predicate Leave(s: State, s': State, ids: set<nat>) {
    s' == s.(readers := s.readers - ids)
  }

  /** Entries expire, or are evicted, at any time. */
  ghost predicate EvictEntries(s: State, s': State, keys: set<CacheKey>) {
    s' == s.(entries := s.entries - keys)
  }

  ghost predicate Step(s: State, s': State) {
    || WriterStep(s, s')
    || (exists i, at :: ReaderStep(s, s', i, at))
    || (exists i :: InsertStep(s, s', i))
    || (exists i, q :: Arrive(s, s', i, q))
    || (exists ids :: Leave(s, s', ids))
    || (exists keys :: EvictEntries(s, s', keys))
  }
}
