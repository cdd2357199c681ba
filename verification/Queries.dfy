/**
 The query cache and the two distance endpoints, on a graph that does not change meanwhile.
 (`Live` has the interleavings with writers.) Entries may vanish from the cache at any time.
 */
module Queries {
  import opened Options
  import opened Search
  import opened Bfs
  import opened Distances
  import opened Live
  import opened LiveProof
  import opened PublicKeys

  const MAX_HOPS_LIMIT := 5
  const MAX_TARGETS := 100

  datatype Error = InvalidPubkey | InvalidMaxHops | TooManyTargets | QueryBusy

  datatype Response<T> = Answer(value: T) | Refused(error: Error)

  datatype BatchRequest =
    BatchRequest(from: string, targets: seq<string>, maxHops: nat, includeBridges: bool, bypassCache: bool)

  predicate ValidHops(maxHops: nat) {
    1 <= maxHops <= MAX_HOPS_LIMIT
  }

  function QueryFor(req: BatchRequest, target: string): Query {
    Query(req.from, target, req.maxHops, req.includeBridges)
  }

  /** Entries of the current revision are right. Older ones may say anything. */
  ghost predicate Coherent(entries: map<CacheKey, CachedDistance>, tp: Topology, revision: nat) {
    forall key | key in entries && entries[key].revision == revision :: EntryFits(tp, key, entries[key])
  }

  /** Every reachable state of the concurrent system has a cache the endpoints may start from. */
  lemma ReachableIsCoherent(trace: seq<Live.State>, i: nat)
    requires LiveProof.Run(trace) && i < |trace|
    ensures |trace[i].published| == trace[i].revision + 1
    ensures ValidTopology(Top(trace[i])) && Coherent(trace[i].entries, Top(trace[i]), trace[i].revision)
  {
    hide LiveProof.Run, ValidTopology, ToResult, Distance, ReaderInv, WriterInv;
    LiveProof.RunKeeps(trace, i);
    var s := trace[i];
    forall key | key in s.entries && s.entries[key].revision == s.revision ensures EntryFits(Top(s), key, s.entries[key]) {
      assert EntryOk(s.published, key, s.entries[key]);
    }
  }

  /** An entry of this revision for the query is in the cache. */
  ghost predicate Cached(entries: map<CacheKey, CachedDistance>, ids: map<string, nat>, q: Query, revision: nat) {
    KeyFor(ids, q).Some? && KeyFor(ids, q).value in entries && entries[KeyFor(ids, q).value].revision == revision
  }

  /** Whatever is in `entries` was in `before`. */
  ghost predicate Within(entries: map<CacheKey, CachedDistance>, before: map<CacheKey, CachedDistance>) {
    forall key | key in entries :: key in before && entries[key] == before[key]
  }

  lemma KeyNamesQuery(tp: Topology, q: Query)
    requires ValidTopology(tp) && KeyFor(tp.ids, q).Some?
    ensures KeyFor(tp.ids, q).value.fromId < |tp.names| && KeyFor(tp.ids, q).value.toId < |tp.names|
    ensures QueryOf(tp, KeyFor(tp.ids, q).value) == q
  {
  }

  lemma StoredRevision(res: DistanceResult, ids: map<string, nat>, revision: nat)
    ensures FromResult(res, ids, revision).revision == revision
  {
  }

  lemma HitIsAnswer(tp: Topology, q: Query, res: DistanceResult)
    requires ValidTopology(tp) && KeyFor(tp.ids, q).Some? && CacheAnswer(tp, KeyFor(tp.ids, q).value, res)
    ensures res == Distance(tp, q)
  {
    hide Distance;
    KeyNamesQuery(tp, q);
  }

  class QueryCache {
    var entries: map<CacheKey, CachedDistance>

    constructor ()
      ensures entries == map[]
    {
      entries := map[];
    }

    /** Expiry and eviction by the cache library. */
    method Evict()
      modifies this
      ensures Within(entries, old(entries))
    {
      var gone: set<CacheKey> := *;
      entries := entries - gone;
    }

    /**
     A hit is the answer computed afresh, from an entry of the revision read before the lookup
     and again after it; if the two readings differ there is no hit.
     */
    method Get(key: CacheKey, tp: Topology, before: nat, after: nat) returns (hit: Option<DistanceResult>)
      requires before == after ==> ValidTopology(tp) && Coherent(entries, tp, before)
      modifies this
      ensures before == after ==> Coherent(entries, tp, before)
      ensures Within(entries, old(entries))
      ensures hit.Some? ==> before == after && CacheAnswer(tp, key, hit.value)
      ensures hit.Some? ==> key in old(entries) && old(entries)[key].revision == before
      ensures hit.None? && before == after && key in entries && entries[key].revision == before ==>
                key.fromId >= |tp.names| || key.toId >= |tp.names|
    {
      hide ToResult, Distance, ValidTopology;
      Evict();
      if key !in entries {
        return None;
      }
      var cached := entries[key];
      if cached.revision != before {
        return None;
      }
      if key.fromId >= |tp.names| || key.toId >= |tp.names| {
        return None;
      }
      var result := ToResult(cached, tp.names[key.fromId], tp.names[key.toId], tp.names);
      if after != before {
        return None;
      }
      assert EntryFits(tp, key, cached);
      hit := Some(result);
    }

    /** A result computed under another revision is dropped. */
    method Insert(key: CacheKey, q: Query, res: DistanceResult, computedAt: nat, tp: Topology, revision: nat)
      requires ValidTopology(tp) && Coherent(entries, tp, revision) && KeyFor(tp.ids, q) == Some(key)
      requires computedAt == revision ==> res == Distance(tp, q)
      modifies this
      ensures Coherent(entries, tp, revision)
      ensures entries == if computedAt == revision then old(entries)[key := FromResult(res, tp.ids, revision)] else old(entries)
    {
      hide ToResult, FromResult, Distance;
      if computedAt != revision {
        return;
      }
      KeyNamesQuery(tp, q);
      ConversionExact(tp, q, tp.ids, revision);
      StoredRevision(res, tp.ids, revision);
      entries := entries[key := FromResult(res, tp.ids, revision)];
    }
  }

  /** Both keys have nodes: only then is an answer kept. */
  ghost predicate Known(ids: map<string, nat>, q: Query) {
    q.from in ids && q.to in ids
  }

  /** The computed answers of known keys are in the cache. */
  ghost predicate Kept(entries: map<CacheKey, CachedDistance>, ids: map<string, nat>, log: seq<Query>, revision: nat) {
    forall i | 0 <= i < |log| && Known(ids, log[i]) :: Cached(entries, ids, log[i], revision)
  }

  lemma KeptStays(entries: map<CacheKey, CachedDistance>, key: CacheKey, res: DistanceResult, ids: map<string, nat>,
                  log: seq<Query>, q: Query, revision: nat)
    requires Kept(entries, ids, log, revision) && KeyFor(ids, q) == Some(key)
    ensures Kept(entries[key := FromResult(res, ids, revision)], ids, log + [q], revision)
  {
    hide FromResult;
    StoredRevision(res, ids, revision);
    var entries' := entries[key := FromResult(res, ids, revision)];
    forall i | 0 <= i < |log + [q]| && Known(ids, (log + [q])[i]) ensures Cached(entries', ids, (log + [q])[i], revision) {
      if i < |log| {
        assert (log + [q])[i] == log[i];
      }
    }
  }

  lemma UnknownKept(entries: map<CacheKey, CachedDistance>, ids: map<string, nat>, log: seq<Query>, q: Query, revision: nat)
    requires Kept(entries, ids, log, revision) && KeyFor(ids, q).None?
    ensures Kept(entries, ids, log + [q], revision)
  {
    hide Cached;
    forall i | 0 <= i < |log + [q]| && Known(ids, (log + [q])[i]) ensures Cached(entries, ids, (log + [q])[i], revision) {
      assert (log + [q])[i] == if i < |log| then log[i] else q;
    }
  }

  /** Compute an answer and offer it to the cache; `log` records the queries computed. */
  method ComputeAndInsert(tp: Topology, revision: nat, cache: QueryCache, q: Query, state: BfsState, ghost log: seq<Query>)
    returns (res: DistanceResult, ghost log': seq<Query>)
    requires ValidTopology(tp) && Coherent(cache.entries, tp, revision)
    requires Kept(cache.entries, tp.ids, log, revision)
    modifies cache, state
    ensures res == Distance(tp, q) && Coherent(cache.entries, tp, revision) && log' == log + [q]
    ensures Kept(cache.entries, tp.ids, log', revision)
  {
    hide Coherent, Distance, ValidTopology, Truthful, FromResult, Kept, Cached;
    var before := revision;
    res := ComputeDistance(tp, q, state);
    log' := log + [q];
    var key := KeyFor(tp.ids, q);
    if key.Some? {
      KeptStays(cache.entries, key.value, res, tp.ids, log, q, revision);
      cache.Insert(key.value, q, res, before, tp, revision);
    } else {
      UnknownKept(cache.entries, tp.ids, log, q, revision);
    }
  }

  /** The cache read of an endpoint: a hit is the answer, and a miss means there is no entry left. */
  method TryCache(tp: Topology, revision: nat, cache: QueryCache, q: Query, bypassCache: bool)
    returns (hit: Option<DistanceResult>)
    requires ValidTopology(tp) && Coherent(cache.entries, tp, revision)
    modifies cache
    ensures Coherent(cache.entries, tp, revision) && Within(cache.entries, old(cache.entries))
    ensures hit.Some? ==> hit.value == Distance(tp, q) && !bypassCache && Cached(old(cache.entries), tp.ids, q, revision)
    ensures hit.None? ==> bypassCache || !Cached(cache.entries, tp.ids, q, revision)
  {
    hide Coherent, Distance, CacheAnswer;
    hit := None;
    var key := KeyFor(tp.ids, q);
    if !bypassCache && key.Some? {
      hit := cache.Get(key.value, tp, revision, revision);
      KeyNamesQuery(tp, q);
      if hit.Some? {
        HitIsAnswer(tp, q, hit.value);
      }
    }
  }

  /**
   One query: whatever the cache holds, the caller gets the answer for the graph. Without a
   permit nothing is computed: the answer comes from the cache, or the endpoint is busy.
   */
  method GetDistance(tp: Topology, revision: nat, cache: QueryCache, state: BfsState, permit: bool, q: Query, bypassCache: bool)
    returns (response: Response<DistanceResult>, ghost log: seq<Query>)
    requires ValidTopology(tp) && Coherent(cache.entries, tp, revision)
    modifies cache, state
    ensures Coherent(cache.entries, tp, revision)
    ensures !HexKey(q.from) || !HexKey(q.to) ==> response == Refused(InvalidPubkey)
    ensures HexKey(q.from) && HexKey(q.to) && !(1 <= q.maxHops <= 5) ==> response == Refused(InvalidMaxHops)
    ensures HexKey(q.from) && HexKey(q.to) && 1 <= q.maxHops <= 5 ==>
              || (response == Answer(Distance(tp, q)) && Truthful(tp, q, response.value))
              || (response == Refused(QueryBusy) && !permit &&
                  (bypassCache || !Cached(cache.entries, tp.ids, q, revision)))
    ensures response.Answer? ==> log == [q] || (log == [] && !bypassCache && Cached(old(cache.entries), tp.ids, q, revision))
    ensures !permit || response.Refused? ==> log == []
    ensures Kept(cache.entries, tp.ids, log, revision)
  {
    DistanceTruthful(tp, q);
    ValidByDigits(q.from);
    ValidByDigits(q.to);
    hide Coherent, Distance, ValidTopology, Truthful, Cached, HexKey, ValidPubkey;
    log := [];
    if !ValidPubkey(q.from) || !ValidPubkey(q.to) {
      return Refused(InvalidPubkey), log;
    }
    if !ValidHops(q.maxHops) {
      return Refused(InvalidMaxHops), log;
    }
    var hit := TryCache(tp, revision, cache, q, bypassCache);
    if hit.Some? {
      return Answer(hit.value), log;
    }
    if !permit {
      return Refused(QueryBusy), log;
    }
    var res;
    res, log := ComputeAndInsert(tp, revision, cache, q, state, log);
    return Answer(res), log;
  }

  // ---------- The batch endpoint ----------

  /** `order[k]` is where the k-th target sits among the distinct ones. */
  ghost predicate Indexed(targets: seq<string>, unique: seq<string>, order: seq<nat>) {
    && |order| == |targets|
    && forall k | 0 <= k < |order| :: order[k] < |unique| && unique[order[k]] == targets[k]
  }

  /** Each distinct target once, in order of first occurrence. */
  method DistinctTargets(targets: seq<string>) returns (unique: seq<string>, order: seq<nat>)
    ensures Distinct(unique) && Indexed(targets, unique, order)
    ensures forall t :: t in unique <==> t in targets
  {
    unique, order := [], [];
    var indices: map<string, nat> := map[];
    for i := 0 to |targets|
      invariant Distinct(unique) && Indexed(targets[..i], unique, order)
      invariant forall t :: t in unique <==> t in targets[..i]
      invariant forall t :: t in indices <==> t in unique
      invariant forall t | t in indices :: indices[t] < |unique| && unique[indices[t]] == t
    {
      var target := targets[i];
      assert targets[..i + 1] == targets[..i] + [target];
      if target !in indices {
        indices := indices[target := |unique|];
        unique := unique + [target];
      }
      order := order + [indices[target]];
    }
    assert targets[..|targets|] == targets;
  }

  /** Slot `j` holds its answer, or is still to be computed. */
  ghost predicate SlotOk(tp: Topology, req: BatchRequest, unique: seq<string>, slot: Option<DistanceResult>, j: nat,
                         misses: seq<(nat, string)>)
    requires j < |unique|
  {
    slot == Some(Distance(tp, QueryFor(req, unique[j]))) || (slot == None && (j, unique[j]) in misses)
  }

  ghost predicate MissesOk(unique: seq<string>, upTo: nat, misses: seq<(nat, string)>) {
    && (forall m | m in misses :: m.0 < upTo <= |unique| && m.1 == unique[m.0])
    && forall a, b | 0 <= a < b < |misses| :: misses[a].0 < misses[b].0
  }

  /** A slot was filled from an entry the cache held at the start. */
  ghost predicate FromCache(before: map<CacheKey, CachedDistance>, ids: map<string, nat>, req: BatchRequest, target: string,
                            revision: nat) {
    !req.bypassCache && Cached(before, ids, QueryFor(req, target), revision)
  }

  /** No entry is left for a missed target, unless the cache was to be bypassed. */
  ghost predicate MissedRightly(entries: map<CacheKey, CachedDistance>, ids: map<string, nat>, req: BatchRequest,
                                misses: seq<(nat, string)>, revision: nat) {
    forall m | m in misses :: req.bypassCache || !Cached(entries, ids, QueryFor(req, m.1), revision)
  }

  lemma MissesStay(entries: map<CacheKey, CachedDistance>, before: map<CacheKey, CachedDistance>, ids: map<string, nat>,
                   req: BatchRequest, misses: seq<(nat, string)>, revision: nat)
    requires Within(entries, before) && MissedRightly(before, ids, req, misses, revision)
    ensures MissedRightly(entries, ids, req, misses, revision)
  {
  }

  lemma WithinTwice(a: map<CacheKey, CachedDistance>, b: map<CacheKey, CachedDistance>, c: map<CacheKey, CachedDistance>)
    requires Within(a, b) && Within(b, c)
    ensures Within(a, c)
    ensures forall ids, q, revision | Cached(b, ids, q, revision) :: Cached(c, ids, q, revision)
  {
  }

  /** The hits fill their slots; everything else becomes a miss. */
  method FillHits(tp: Topology, revision: nat, cache: QueryCache, req: BatchRequest, unique: seq<string>)
    returns (computed: array<Option<DistanceResult>>, misses: seq<(nat, string)>)
    requires ValidTopology(tp) && Coherent(cache.entries, tp, revision)
    modifies cache
    ensures Coherent(cache.entries, tp, revision)
    ensures fresh(computed) && computed.Length == |unique| && MissesOk(unique, |unique|, misses)
    ensures forall j | 0 <= j < |unique| :: SlotOk(tp, req, unique, computed[j], j, misses)
    ensures forall j | 0 <= j < |unique| && computed[j].Some? ::
              FromCache(old(cache.entries), tp.ids, req, unique[j], revision)
    ensures MissedRightly(cache.entries, tp.ids, req, misses, revision)
  {
    hide Coherent, Distance, ValidTopology, Cached, QueryFor;
    computed := new Option<DistanceResult>[|unique|](_ => None);
    misses := [];
    for index := 0 to |unique|
      invariant Coherent(cache.entries, tp, revision) && MissesOk(unique, index, misses)
      invariant Within(cache.entries, old(cache.entries)) && MissedRightly(cache.entries, tp.ids, req, misses, revision)
      invariant forall j | index <= j < |unique| :: computed[j] == None
      invariant forall j | 0 <= j < index :: SlotOk(tp, req, unique, computed[j], j, misses)
      invariant forall j | 0 <= j < index && computed[j].Some? ::
                  FromCache(old(cache.entries), tp.ids, req, unique[j], revision)
    {
      ghost var before := cache.entries;
      var hit := TryCache(tp, revision, cache, QueryFor(req, unique[index]), req.bypassCache);
      MissesStay(cache.entries, before, tp.ids, req, misses, revision);
      WithinTwice(cache.entries, before, old(cache.entries));
      if hit.Some? {
        computed[index] := hit;
      } else {
        misses := misses + [(index, unique[index])];
      }
    }
  }

  /** The misses are computed one after the other, each once, and offered to the cache. */
  method ComputeMisses(tp: Topology, revision: nat, cache: QueryCache, state: BfsState, req: BatchRequest,
                       misses: seq<(nat, string)>)
    returns (results: seq<(nat, DistanceResult)>, ghost log: seq<Query>)
    requires ValidTopology(tp) && Coherent(cache.entries, tp, revision)
    modifies cache, state
    ensures Coherent(cache.entries, tp, revision) && |results| == |misses| == |log|
    ensures forall i | 0 <= i < |misses| ::
              results[i].0 == misses[i].0 && results[i].1 == Distance(tp, QueryFor(req, misses[i].1))
    ensures forall i | 0 <= i < |misses| :: log[i] == QueryFor(req, misses[i].1)
    ensures Kept(cache.entries, tp.ids, log, revision)
  {
    hide Coherent, Distance, ValidTopology, Cached;
    results, log := [], [];
    for i := 0 to |misses|
      invariant Coherent(cache.entries, tp, revision) && Kept(cache.entries, tp.ids, log, revision)
      invariant |results| == i == |log|
      invariant forall j | 0 <= j < i ::
                  results[j].0 == misses[j].0 && results[j].1 == Distance(tp, QueryFor(req, misses[j].1))
      invariant forall j | 0 <= j < i :: log[j] == QueryFor(req, misses[j].1)
    {
      var res;
      res, log := ComputeAndInsert(tp, revision, cache, QueryFor(req, misses[i].1), state, log);
      results := results + [(misses[i].0, res)];
    }
  }

  /** Afterwards every slot is filled. */
  method FillMisses(tp: Topology, req: BatchRequest, unique: seq<string>, computed: array<Option<DistanceResult>>,
                    ghost misses: seq<(nat, string)>, results: seq<(nat, DistanceResult)>)
    requires computed.Length == |unique| && MissesOk(unique, |unique|, misses) && |results| == |misses|
    requires forall j | 0 <= j < |unique| :: SlotOk(tp, req, unique, computed[j], j, misses)
    requires forall i | 0 <= i < |misses| ::
               results[i].0 == misses[i].0 && results[i].1 == Distance(tp, QueryFor(req, misses[i].1))
    modifies computed
    ensures forall j | 0 <= j < |unique| :: computed[j] == Some(Distance(tp, QueryFor(req, unique[j])))
  {
    hide Distance;
    for i := 0 to |results|
      invariant forall j | 0 <= j < |unique| :: SlotOk(tp, req, unique, computed[j], j, misses[i..])
    {
      assert misses[i] in misses;
      assert misses[i..] == [misses[i]] + misses[i + 1..];
      computed[results[i].0] := Some(results[i].1);
    }
  }

  ghost function Missed(unique: seq<string>, misses: seq<(nat, string)>): (missed: seq<string>)
    requires Distinct(unique) && MissesOk(unique, |unique|, misses)
    ensures |missed| == |misses| && Distinct(missed) && forall t | t in missed :: t in unique
    ensures forall i | 0 <= i < |misses| :: missed[i] == misses[i].1
  {
    var missed := seq(|misses|, i requires 0 <= i < |misses| => misses[i].1);
    assert forall i | 0 <= i < |misses| :: misses[i] in misses;
    missed
  }

  /** The caller's order, duplicates included. */
  method InOrder(tp: Topology, req: BatchRequest, unique: seq<string>, computed: array<Option<DistanceResult>>, order: seq<nat>)
    returns (answers: seq<DistanceResult>)
    requires computed.Length == |unique| && Indexed(req.targets, unique, order)
    requires forall j | 0 <= j < |unique| :: computed[j] == Some(Distance(tp, QueryFor(req, unique[j])))
    ensures |answers| == |req.targets|
    ensures forall i | 0 <= i < |req.targets| :: answers[i] == Distance(tp, QueryFor(req, req.targets[i]))
  {
    hide Distance;
    answers := [];
    for i := 0 to |order|
      invariant |answers| == i
      invariant forall j | 0 <= j < i :: answers[j] == Distance(tp, QueryFor(req, req.targets[j]))
    {
      answers := answers + [computed[order[i]].value];
    }
  }

  /** A request the batch endpoint accepts. */
  ghost predicate Acceptable(req: BatchRequest) {
    HexKey(req.from) && 1 <= req.maxHops <= 5 && |req.targets| <= 100 && forall t | t in req.targets :: HexKey(t)
  }

  /**
   A batch is pointwise: the i-th result is the individual answer for the i-th target, for any
   duplicates and any mix of hits and misses. `log` has the queries computed: exactly those of
   the missed targets, each once. Without a permit nothing is computed: the answers come from
   the cache, or the endpoint is busy because of a target the cache does not have.
   */
  method BatchDistance(tp: Topology, revision: nat, cache: QueryCache, state: BfsState, permit: bool, req: BatchRequest)
    returns (response: Response<seq<DistanceResult>>, ghost missed: seq<string>, ghost log: seq<Query>)
    requires ValidTopology(tp) && Coherent(cache.entries, tp, revision)
    modifies cache, state
    ensures Coherent(cache.entries, tp, revision)
    ensures Distinct(missed) && forall t | t in missed :: t in req.targets
    ensures Distinct(log) && |log| == if response.Answer? then |missed| else 0
    ensures forall i | 0 <= i < |log| :: log[i] == Query(req.from, missed[i], req.maxHops, req.includeBridges)
    ensures !HexKey(req.from) ==> response == Refused(InvalidPubkey)
    ensures HexKey(req.from) && !(1 <= req.maxHops <= 5) ==> response == Refused(InvalidMaxHops)
    ensures HexKey(req.from) && 1 <= req.maxHops <= 5 && |req.targets| > 100 ==> response == Refused(TooManyTargets)
    ensures HexKey(req.from) && 1 <= req.maxHops <= 5 && |req.targets| <= 100 && (exists t | t in req.targets :: !HexKey(t)) ==>
              response == Refused(InvalidPubkey)
    ensures Acceptable(req) ==> response.Answer? || (response == Refused(QueryBusy) && !permit)
    ensures response.Answer? ==> Acceptable(req) && |response.value| == |req.targets|
    ensures response.Answer? ==>
              forall i | 0 <= i < |req.targets| ::
                var q := Query(req.from, req.targets[i], req.maxHops, req.includeBridges);
                response.value[i] == Distance(tp, q) && Truthful(tp, q, response.value[i])
    ensures response == Refused(QueryBusy) ==>
              req.bypassCache || exists t :: t in req.targets && !Cached(cache.entries, tp.ids, QueryFor(req, t), revision)
    ensures !permit && response.Answer? ==>
              forall t | t in req.targets :: FromCache(old(cache.entries), tp.ids, req, t, revision)
    ensures Kept(cache.entries, tp.ids, log, revision)
  {
    forall pk {
      ValidByDigits(pk);
    }
    hide Coherent, Distance, ValidTopology, Truthful, Cached, HexKey, ValidPubkey;
    missed, log := [], [];
    if !ValidPubkey(req.from) {
      return Refused(InvalidPubkey), missed, log;
    }
    if !ValidHops(req.maxHops) {
      return Refused(InvalidMaxHops), missed, log;
    }
    if |req.targets| > MAX_TARGETS {
      return Refused(TooManyTargets), missed, log;
    }
    for i := 0 to |req.targets|
      invariant forall t | t in req.targets[..i] :: ValidPubkey(t)
    {
      if !ValidPubkey(req.targets[i]) {
        return Refused(InvalidPubkey), missed, log;
      }
      assert req.targets[..i + 1] == req.targets[..i] + [req.targets[i]];
    }
    assert req.targets[..|req.targets|] == req.targets;
    var unique, order := DistinctTargets(req.targets);
    var computed, misses := FillHits(tp, revision, cache, req, unique);
    missed := Missed(unique, misses);
    if misses != [] {
      if !permit {
        assert misses[0] in misses;
        return Refused(QueryBusy), missed, log;
      }
      var results;
      results, log := ComputeMisses(tp, revision, cache, state, req, misses);
      FillMisses(tp, req, unique, computed, misses, results);
    }
    var answers := InOrder(tp, req, unique, computed, order);
    forall i | 0 <= i < |req.targets| ensures Truthful(tp, QueryFor(req, req.targets[i]), answers[i]) {
      DistanceTruthful(tp, QueryFor(req, req.targets[i]));
    }
    response := Answer(answers);
  }
}
