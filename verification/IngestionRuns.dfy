/**
 Whole runs of ingestion as a transition system: events arrive in any order, the "seen"
 filter forgets at will, batches end anywhere, transactions fail and are retried, the
 process crashes and restarts from the database.
 */
module IngestionRuns {
  import opened Events
  import opened Ingestion
  import opened Options
  import L = Lists
  import Reload

  // ---------- Events ----------

  datatype SeenEvent = SeenEvent(createdAt: nat, id: nat)

  predicate Dominates(seen: SeenEvent, e: RawEvent) {
    seen.createdAt > e.createdAt || (seen.createdAt == e.createdAt && seen.id <= e.id)
  }

  /** `v` is at least as good as the full version `w`. */
  predicate AtLeast(v: L.Version, w: L.Version)
    requires L.Full(w)
  {
    L.Full(v) && (v.at.value > w.at.value || (v.at.value == w.at.value && v.id.value <= w.id.value))
  }

  /** The filter on raw events decides as the database would: clamping to `i64` never bites. */
  lemma DominatesIsAtLeast(seen: RawEvent, e: RawEvent, now: nat)
    requires Considered(seen, now) && Considered(e, now) && now + 600 <= I64_MAX
    ensures Dominates(SeenEvent(seen.createdAt, seen.id), e) <==> AtLeast(ToUpdate(seen).version, ToUpdate(e).version)
  {
  }

  // ---------- States ----------

  datatype Pc = TxFollows | TxMutes | Publishing(published: nat)

  datatype Phase =
    | Idle
    | Flushing(start: L.Lists, pending: seq<L.Update>, selected: seq<L.Update>, attempt: nat, pc: Pc)
    | Stopped
    | Down

  /** An event, and the time at which it was received. */
  datatype Reception = Reception(e: RawEvent, now: nat)

  /**
   `received` are all receptions since the process started, of whatever kind or time, and
   those from before that the database accounted for when it stopped.
   */
  datatype State = State(db: L.Lists, graph: L.Lists, batch: seq<L.Update>, seen: map<(L.Kind, string), SeenEvent>,
                         phase: Phase, received: set<Reception>)

  function Stored(l: L.Lists, kind: L.Kind, author: string): L.Entry {
    L.Get(L.Of(l, kind), author)
  }

  /** The receptions that count, as updates. */
  function Heard(received: set<Reception>): set<L.Update> {
    set r | r in received && Considered(r.e, r.now) :: ToUpdate(r.e)
  }

  function Absorbed(db: L.Lists, heard: set<L.Update>): set<L.Update> {
    set e | e in heard && L.Full(e.version) && AtLeast(Stored(db, e.kind, e.author).version, e.version)
  }

  predicate AccountedFor(db: L.Lists, r: Reception) {
    Considered(r.e, r.now) ==> AtLeast(Stored(db, KindOf(r.e.kind), r.e.author).version, ToUpdate(r.e).version)
  }

  /** What survives the loss of memory: events the database already accounts for. */
  function Kept(db: L.Lists, received: set<Reception>): set<Reception> {
    set r | r in received && AccountedFor(db, r)
  }

  ghost predicate Initial(s: State) {
    s == State(L.EMPTY, L.EMPTY, [], map[], Idle, {})
  }

  // ---------- Steps ----------

  /** The clock is not about to leave the signed 64-bit range. */
  ghost predicate Receive(s: State, s': State, e: RawEvent, now: nat) {
    && s.phase == Idle && now + 600 <= 0x7FFF_FFFF_FFFF_FFFF
    && var key := (KindOf(e.kind), e.author);
       var received := s.received + {Reception(e, now)};
       s' == if !Considered(e, now) || (key in s.seen && Dominates(s.seen[key], e)) then s.(received := received)
             else s.(received := received, batch := s.batch + [ToUpdate(e)],
                     seen := s.seen[key := SeenEvent(e.createdAt, e.id)])
  }

  /** The least recently used entries go, whichever they are. */
  ghost predicate Evict(s: State, s': State, keys: set<(L.Kind, string)>) {
    s' == s.(seen := s.seen - keys)
  }

  /** After a lag the batch has been flushed and the filter is cleared. */
  ghost predicate ClearSeen(s: State, s': State) {
    s.phase == Idle && s.batch == [] && s' == s.(seen := map[])
  }

  ghost predicate BeginFlush(s: State, s': State, selected: seq<L.Update>) {
    && s.phase == Idle && s.batch != [] && L.Winners(s.batch, selected)
    && s' == s.(batch := [], phase := Flushing(s.db, s.batch, selected, 0, TxFollows))
  }

  ghost predicate CommitFollows(s: State, s': State, order: seq<L.Update>) {
    && s.phase.Flushing? && s.phase.pc == TxFollows
    && L.Winners(Items(s.phase.selected, L.Follow), order)
    && s' == s.(db := L.OfferAll(s.db, order), phase := s.phase.(pc := TxMutes))
  }

  ghost predicate CommitMutes(s: State, s': State, order: seq<L.Update>) {
    && s.phase.Flushing? && s.phase.pc == TxMutes
    && L.Winners(Items(s.phase.selected, L.Mute), order)
    && s' == s.(db := L.OfferAll(s.db, order), phase := s.phase.(pc := Publishing(0)))
  }

  /** A failed transaction: retry the whole attempt, or give up after the third. */
  ghost predicate Fail(s: State, s': State) {
    && s.phase.Flushing? && !s.phase.pc.Publishing?
    && s' == if s.phase.attempt < 2 then s.(phase := s.phase.(attempt := s.phase.attempt + 1, pc := TxFollows))
             else s.(phase := Stopped, seen := map[], received := Kept(s.db, s.received))
  }

  ghost predicate PublishOne(s: State, s': State) {
    && s.phase.Flushing? && s.phase.pc.Publishing? && s.phase.pc.published < |s.phase.selected|
    && var k := s.phase.pc.published;
       s' == s.(graph := L.Offer(s.graph, s.phase.selected[k]), phase := s.phase.(pc := Publishing(k + 1)))
  }

  ghost predicate EndFlush(s: State, s': State) {
    && s.phase.Flushing? && s.phase.pc == Publishing(|s.phase.selected|)
    && s' == s.(phase := Idle)
  }

  /** Everything in memory is gone; the rows are not. */
  ghost predicate Crash(s: State, s': State) {
    s' == State(s.db, L.EMPTY, [], map[], Down, Kept(s.db, s.received))
  }

  ghost predicate Restart(s: State, s': State) {
    s.phase == Down && s' == s.(graph := Reload.Restore(s.graph, s.db), phase := Idle)
  }

  ghost predicate Step(s: State, s': State) {
    || (exists e, now :: Receive(s, s', e, now))
    || (exists keys :: Evict(s, s', keys))
    || ClearSeen(s, s')
    || (exists selected :: BeginFlush(s, s', selected))
    || (exists order :: CommitFollows(s, s', order))
    || (exists order :: CommitMutes(s, s', order))
    || Fail(s, s')
    || PublishOne(s, s')
    || EndFlush(s, s')
    || Crash(s, s')
    || Restart(s, s')
  }

  // ---------- The invariant ----------

  ghost predicate HeardAs(db: L.Lists, heard: set<L.Update>, k: L.Kind, a: string) {
    exists w :: w in heard && w.kind == k && w.author == a && Stored(db, k, a) == L.Entry(w.version, L.Targets(w))
  }

  /** Each stored list is that of some event that counts. */
  ghost predicate FromHeard(db: L.Lists, heard: set<L.Update>) {
    && (forall e | e in heard :: L.Full(e.version))
    && (forall k, a | a in L.Of(db, k) && L.Of(db, k)[a] != L.NO_LIST :: HeardAs(db, heard, k, a))
    && (forall a | a in db.mutes :: db.mutes[a] != L.NO_LIST)
  }

  /** The updates still on their way to the database. */
  function Waiting(s: State): seq<L.Update> {
    match s.phase
    case Flushing(_, _, selected, _, pc) => if pc.Publishing? then [] else selected
    case _ => s.batch
  }

  /** Something stored or waiting is at least as good as version `v`. */
  ghost predicate Covered(db: L.Lists, waiting: seq<L.Update>, k: L.Kind, a: string, v: L.Version)
    requires L.Full(v)
  {
    || AtLeast(Stored(db, k, a).version, v)
    || exists u :: u in waiting && u.kind == k && u.author == a && AtLeast(u.version, v)
  }

  function SeenVersion(e: SeenEvent): L.Version {
    L.Version(Some(e.createdAt as int), Some(e.id))
  }

  ghost predicate AllCovered(db: L.Lists, waiting: seq<L.Update>, heard: set<L.Update>,
                             seen: map<(L.Kind, string), SeenEvent>) {
    && (forall e | e in heard :: L.Full(e.version) && Covered(db, waiting, e.kind, e.author, e.version))
    && (forall k, a | (k, a) in seen :: Covered(db, waiting, k, a, SeenVersion(seen[(k, a)])))
  }

  /** The graph never shows a list the database does not have, or an older one replaced by it. */
  ghost predicate NotAhead(graph: L.Lists, db: L.Lists) {
    && graph.follows.Keys <= db.follows.Keys && graph.mutes.Keys <= db.mutes.Keys
    && forall k, a :: Stored(graph, k, a) == Stored(db, k, a) ||
                      L.AcceptsEvent(Stored(graph, k, a).version, Stored(db, k, a).version)
  }

  ghost predicate PhaseInv(s: State) {
    match s.phase
    case Idle => s.graph == s.db
    case Stopped => NotAhead(s.graph, s.db) && s.batch == []
    case Down => s.graph == L.EMPTY && s.batch == []
    case Flushing(start, pending, selected, attempt, pc) =>
      && s.batch == [] && L.Winners(pending, selected)
      && (forall u | u in pending :: u in Heard(s.received))
      && match pc
         case TxFollows =>
           s.graph == start && (s.db == start || s.db == L.OfferAll(start, Items(selected, L.Follow)))
         case TxMutes => s.graph == start && s.db == L.OfferAll(start, Items(selected, L.Follow))
         case Publishing(n) =>
           && n <= |selected|
           && s.db == L.OfferAll(start, selected) && s.graph == L.OfferAll(start, selected[..n])
  }

  ghost predicate Inv(s: State) {
    && FromHeard(s.db, Heard(s.received))
    && AllCovered(s.db, Waiting(s), Heard(s.received), s.seen)
    && (forall u | u in s.batch :: u in Heard(s.received))
    && PhaseInv(s)
    && L.WellFormed(s.db)
    && forall r | r in s.received :: r.now + 600 <= 0x7FFF_FFFF_FFFF_FFFF
  }

  // ---------- Versions ----------

  lemma AtLeastTransitive(u: L.Version, v: L.Version, w: L.Version)
    requires L.Full(v) && L.Full(w) && AtLeast(u, v) && AtLeast(v, w)
    ensures AtLeast(u, w)
  {
  }

  /** A list only ever gets better, and is as good as whatever it was offered. */
  lemma AbsorbAtLeast(e: L.Entry, u: L.Update, v: L.Version)
    requires L.Full(u.version) && L.Full(v) && (e.version == L.UNVERSIONED || L.Full(e.version))
    ensures AtLeast(e.version, v) || AtLeast(u.version, v) <==> AtLeast(L.Absorb(e, u).version, v)
  {
  }

  lemma StoredFull(db: L.Lists, heard: set<L.Update>, k: L.Kind, a: string)
    requires FromHeard(db, heard)
    ensures Stored(db, k, a).version == L.UNVERSIONED || L.Full(Stored(db, k, a).version)
  {
    if a in L.Of(db, k) && L.Of(db, k)[a] != L.NO_LIST {
      assert HeardAs(db, heard, k, a);
    }
  }

  /** After offering distinct updates a list is as good as `v` if it was, or if one of them is. */
  lemma OfferedCovers(db: L.Lists, heard: set<L.Update>, us: seq<L.Update>, k: L.Kind, a: string, v: L.Version)
    requires FromHeard(db, heard) && L.DistinctKeys(us) && AllFull(us) && L.Full(v)
    ensures AtLeast(Stored(L.OfferAll(db, us), k, a).version, v) <==> Covered(db, us, k, a, v)
  {
    hide L.OfferAll, L.WinnerOf, L.Absorb, AtLeast, FromHeard;
    L.EntryAfter(db, us, k, a);
    L.WinnerFromSequence(us, k, a);
    StoredFull(db, heard, k, a);
    forall u | u in us && u.kind == k && u.author == a ensures L.WinnerOf(us, k, a) == Some(u) {
      L.WinnerOfDistinct(us, u);
    }
    if L.WinnerOf(us, k, a).Some? {
      AbsorbAtLeast(Stored(db, k, a), L.WinnerOf(us, k, a).value, v);
    }
  }

  lemma AbsorbedVersion(e: L.Entry, u: L.Update)
    requires L.Full(u.version)
    ensures L.Absorb(e, u).version != L.UNVERSIONED
  {
  }

  lemma OfferedFromHeard(db: L.Lists, heard: set<L.Update>, us: seq<L.Update>)
    requires FromHeard(db, heard) && forall u | u in us :: u in heard
    ensures FromHeard(L.OfferAll(db, us), heard)
  {
    hide L.OfferAll, L.WinnerOf;
    var after := L.OfferAll(db, us);
    forall k, a ensures Stored(after, k, a) == L.NO_LIST || HeardAs(after, heard, k, a) {
      L.EntryAfter(db, us, k, a);
      L.WinnerFromSequence(us, k, a);
      if a in L.Of(db, k) && L.Of(db, k)[a] != L.NO_LIST {
        assert HeardAs(db, heard, k, a);
      }
    }
    forall a | a in after.mutes ensures after.mutes[a] != L.NO_LIST {
      L.MutesKnown(db, us, a);
      L.EntryAfter(db, us, L.Mute, a);
      L.WinnerFromSequence(us, L.Mute, a);
      assert Stored(after, L.Mute, a) == after.mutes[a];
      if L.WinnerOf(us, L.Mute, a).Some? {
        AbsorbedVersion(Stored(db, L.Mute, a), L.WinnerOf(us, L.Mute, a).value);
      }
    }
    forall k, a | a in L.Of(after, k) && L.Of(after, k)[a] != L.NO_LIST ensures HeardAs(after, heard, k, a) {
      assert Stored(after, k, a) == L.Of(after, k)[a];
    }
  }

  lemma CoveredMore(db: L.Lists, waiting: seq<L.Update>, more: seq<L.Update>, heard: set<L.Update>,
                    seen: map<(L.Kind, string), SeenEvent>)
    requires AllCovered(db, waiting, heard, seen) && forall u | u in waiting :: u in more
    ensures AllCovered(db, more, heard, seen)
  {
    hide AtLeast;
    forall e | e in heard ensures Covered(db, more, e.kind, e.author, e.version) {
      assert Covered(db, waiting, e.kind, e.author, e.version);
    }
    forall k, a | (k, a) in seen ensures Covered(db, more, k, a, SeenVersion(seen[(k, a)])) {
      assert Covered(db, waiting, k, a, SeenVersion(seen[(k, a)]));
    }
  }

  /** What was covered stays covered once the database has been offered `us`. */
  lemma CoveredOffered(db: L.Lists, waiting: seq<L.Update>, rest: seq<L.Update>, us: seq<L.Update>,
                       heard: set<L.Update>, seen: map<(L.Kind, string), SeenEvent>)
    requires FromHeard(db, heard) && L.DistinctKeys(us) && AllFull(us)
    requires AllCovered(db, waiting, heard, seen) && forall u | u in waiting :: u in rest || u in us
    ensures AllCovered(L.OfferAll(db, us), rest, heard, seen)
  {
    hide AtLeast, L.OfferAll;
    forall e | e in heard ensures Covered(L.OfferAll(db, us), rest, e.kind, e.author, e.version) {
      OfferedCovers(db, heard, us, e.kind, e.author, e.version);
      assert Covered(db, waiting, e.kind, e.author, e.version);
    }
    forall k, a | (k, a) in seen ensures Covered(L.OfferAll(db, us), rest, k, a, SeenVersion(seen[(k, a)])) {
      OfferedCovers(db, heard, us, k, a, SeenVersion(seen[(k, a)]));
      assert Covered(db, waiting, k, a, SeenVersion(seen[(k, a)]));
    }
  }

  /** Offers of distinct authors leave every list as it was or newer. */
  lemma OffersNotAhead(l: L.Lists, us: seq<L.Update>)
    requires L.DistinctKeys(us)
    ensures NotAhead(l, L.OfferAll(l, us))
  {
    hide L.OfferAll, L.WinnerOf, L.AcceptsEvent;
    var after := L.OfferAll(l, us);
    forall pk | pk in l.follows ensures pk in after.follows {
      L.NodesStay(l, us, pk);
    }
    forall pk | pk in l.mutes ensures pk in after.mutes {
      L.MutesKnown(l, us, pk);
    }
    forall k, a
      ensures Stored(l, k, a) == Stored(after, k, a) || L.AcceptsEvent(Stored(l, k, a).version, Stored(after, k, a).version)
    {
      L.EntryAfter(l, us, k, a);
    }
  }

  // ---------- Every step keeps the invariant ----------

  lemma CoveredByBetter(db: L.Lists, waiting: seq<L.Update>, k: L.Kind, a: string, v: L.Version, w: L.Version)
    requires L.Full(v) && L.Full(w) && AtLeast(v, w) && Covered(db, waiting, k, a, v)
    ensures Covered(db, waiting, k, a, w)
  {
  }

  /** An event the filter drops is covered by what made the filter drop it. */
  lemma SkippedCovered(s: State, e: RawEvent, now: nat)
    requires AllCovered(s.db, s.batch, Heard(s.received), s.seen)
    requires Considered(e, now) && now + 600 <= I64_MAX
    requires var key := (KindOf(e.kind), e.author); key in s.seen && Dominates(s.seen[key], e)
    ensures AllCovered(s.db, s.batch, Heard(s.received) + {ToUpdate(e)}, s.seen)
  {
    hide Covered;
    var u, sv := ToUpdate(e), SeenVersion(s.seen[(KindOf(e.kind), e.author)]);
    assert Covered(s.db, s.batch, u.kind, u.author, sv);
    CoveredByBetter(s.db, s.batch, u.kind, u.author, sv, u.version);
  }

  lemma SelfCovered(db: L.Lists, waiting: seq<L.Update>, u: L.Update)
    requires u in waiting && L.Full(u.version)
    ensures Covered(db, waiting, u.kind, u.author, u.version)
  {
  }

  /** An event taken into the batch covers itself and its own filter entry. */
  lemma TakenCovered(s: State, e: RawEvent, now: nat)
    requires AllCovered(s.db, s.batch, Heard(s.received), s.seen)
    requires Considered(e, now) && now + 600 <= I64_MAX
    ensures AllCovered(s.db, s.batch + [ToUpdate(e)], Heard(s.received) + {ToUpdate(e)},
                       s.seen[(KindOf(e.kind), e.author) := SeenEvent(e.createdAt, e.id)])
  {
    hide Covered;
    var u, batch := ToUpdate(e), s.batch + [ToUpdate(e)];
    CoveredMore(s.db, s.batch, batch, Heard(s.received), s.seen);
    assert SeenVersion(SeenEvent(e.createdAt, e.id)) == u.version;
    SelfCovered(s.db, batch, u);
  }

  lemma HeardMore(db: L.Lists, heard: set<L.Update>, u: L.Update)
    requires FromHeard(db, heard) && L.Full(u.version)
    ensures FromHeard(db, heard + {u})
  {
    forall k, a | a in L.Of(db, k) && L.Of(db, k)[a] != L.NO_LIST ensures HeardAs(db, heard + {u}, k, a) {
      assert HeardAs(db, heard, k, a);
    }
  }

  lemma HeardAdded(received: set<Reception>, r: Reception)
    ensures Heard(received + {r}) == if Considered(r.e, r.now) then Heard(received) + {ToUpdate(r.e)} else Heard(received)
  {
    hide ToUpdate, Considered;
    var more := received + {r};
    forall u | u in Heard(received) ensures u in Heard(more) {
      var x :| x in received && Considered(x.e, x.now) && ToUpdate(x.e) == u;
      assert x in more;
    }
    if Considered(r.e, r.now) {
      assert r in more;
    }
  }

  lemma ReceiveKeeps(s: State, s': State, e: RawEvent, now: nat)
    requires Inv(s) && Receive(s, s', e, now)
    ensures Inv(s')
  {
    hide L.OfferAll, L.WinnerOf, FromHeard, AllCovered, Heard;
    HeardAdded(s.received, Reception(e, now));
    if Considered(e, now) {
      HeardMore(s.db, Heard(s.received), ToUpdate(e));
      if (KindOf(e.kind), e.author) in s.seen && Dominates(s.seen[(KindOf(e.kind), e.author)], e) {
        SkippedCovered(s, e, now);
      } else {
        TakenCovered(s, e, now);
      }
    }
  }

  lemma BatchFull(s: State)
    requires FromHeard(s.db, Heard(s.received)) && forall u | u in s.batch :: u in Heard(s.received)
    ensures AllFull(s.batch)
  {
  }

  lemma {:induction false} WinnerAtLeast(us: seq<L.Update>, u: L.Update)
    requires AllFull(us) && u in us
    ensures var w := L.WinnerOf(us, u.kind, u.author);
            w.Some? && L.Full(w.value.version) && L.Full(u.version) && AtLeast(w.value.version, u.version)
  {
    var last, rest := us[|us| - 1], us[..|us| - 1];
    assert us == rest + [last];
    L.WinnerFromSequence(rest, u.kind, u.author);
    if u in rest {
      WinnerAtLeast(rest, u);
    }
  }

  /** The selected update of a kind and author is at least as good as every one in the batch. */
  lemma WinnerCovers(us: seq<L.Update>, ws: seq<L.Update>, u: L.Update, v: L.Version)
    requires AllFull(us) && L.Winners(us, ws) && u in us && L.Full(v) && AtLeast(u.version, v)
    ensures exists w :: w in ws && w.kind == u.kind && w.author == u.author && AtLeast(w.version, v)
  {
    hide L.WinnerOf, AtLeast;
    WinnerAtLeast(us, u);
    var w := L.WinnerOf(us, u.kind, u.author).value;
    AtLeastTransitive(w.version, u.version, v);
    assert w in ws && w.kind == u.kind && w.author == u.author by { L.WinnerFromSequence(us, u.kind, u.author); }
  }

  lemma BeginKeeps(s: State, s': State, selected: seq<L.Update>)
    requires Inv(s) && BeginFlush(s, s', selected)
    ensures Inv(s')
  {
    hide L.OfferAll, L.WinnerOf, FromHeard, AtLeast;
    forall k, a, v | L.Full(v) && Covered(s.db, s.batch, k, a, v) ensures Covered(s.db, selected, k, a, v) {
      if u :| u in s.batch && u.kind == k && u.author == a && AtLeast(u.version, v) {
        BatchFull(s);
        WinnerCovers(s.batch, selected, u, v);
      }
    }
  }

  lemma SelectedHeard(s: State)
    requires Inv(s) && s.phase.Flushing?
    ensures AllFull(s.phase.pending) && AllFull(s.phase.selected) && L.DistinctKeys(s.phase.selected)
    ensures forall u | u in s.phase.selected :: u in Heard(s.received)
  {
    hide L.OfferAll, L.WinnerOf;
    WinnersFull(s.phase.pending, s.phase.selected);
    forall w | w in s.phase.selected ensures w in Heard(s.received) {
      L.WinnerFromSequence(s.phase.pending, w.kind, w.author);
    }
  }

  lemma CommitFollowsKeeps(s: State, s': State, order: seq<L.Update>)
    requires Inv(s) && CommitFollows(s, s', order)
    ensures Inv(s')
  {
    hide L.OfferAll, L.WinnerOf, FromHeard, AllCovered, Items;
    var selected := s.phase.selected;
    var f := Items(selected, L.Follow);
    SelectedHeard(s);
    ItemsMember(selected, L.Follow);
    CommitIsOffers(s.db, f, order);
    SecondAttempt(s.phase.start, selected);
    OfferedFromHeard(s.db, Heard(s.received), f);
    CoveredOffered(s.db, selected, selected, f, Heard(s.received), s.seen);
    L.GetOfferAll(s.db, f, L.Follow, "");
  }

  lemma NothingPublished(l: L.Lists, us: seq<L.Update>)
    ensures us[..0] == [] && L.OfferAll(l, us[..0]) == l
  {
  }

  lemma CommitMutesKeeps(s: State, s': State, order: seq<L.Update>)
    requires Inv(s) && CommitMutes(s, s', order)
    ensures Inv(s')
  {
    hide L.OfferAll, L.WinnerOf, FromHeard, AllCovered, Items;
    var selected, start := s.phase.selected, s.phase.start;
    var m := Items(selected, L.Mute);
    SelectedHeard(s);
    ItemsMember(selected, L.Mute);
    CommitIsOffers(s.db, m, order);
    BothCommitted(start, selected);
    SecondAttempt(start, selected);
    assert s'.db == L.OfferAll(s.db, selected);
    OfferedFromHeard(s.db, Heard(s.received), selected);
    CoveredOffered(s.db, selected, [], selected, Heard(s.received), s.seen);
    L.GetOfferAll(s.db, selected, L.Follow, "");
    NothingPublished(start, selected);
  }

  lemma AbsorbedKeeps(db: L.Lists, heard: set<L.Update>)
    requires FromHeard(db, heard)
    ensures FromHeard(db, Absorbed(db, heard)) && AllCovered(db, [], Absorbed(db, heard), map[])
  {
    forall k, a | a in L.Of(db, k) && L.Of(db, k)[a] != L.NO_LIST ensures HeardAs(db, Absorbed(db, heard), k, a) {
      assert HeardAs(db, heard, k, a);
    }
  }

  lemma HeardKept(db: L.Lists, received: set<Reception>)
    ensures Heard(Kept(db, received)) == Absorbed(db, Heard(received)) && Kept(db, received) <= received
  {
    hide AtLeast, Considered, TaggedKeys;
    forall u | u in Absorbed(db, Heard(received)) ensures u in Heard(Kept(db, received)) {
      var r :| r in received && Considered(r.e, r.now) && ToUpdate(r.e) == u;
      assert r in Kept(db, received);
    }
  }

  lemma AheadOfNone(l: L.Lists)
    ensures NotAhead(l, l)
  {
  }

  lemma FailKeeps(s: State, s': State)
    requires Inv(s) && Fail(s, s')
    ensures Inv(s')
  {
    hide L.OfferAll, L.WinnerOf, FromHeard, AllCovered, NotAhead, Items;
    if s.phase.attempt >= 2 {
      HeardKept(s.db, s.received);
      AbsorbedKeeps(s.db, Heard(s.received));
      SelectedHeard(s);
      ItemsMember(s.phase.selected, L.Follow);
      OffersNotAhead(s.phase.start, Items(s.phase.selected, L.Follow));
      AheadOfNone(s.phase.start);
    }
  }

  lemma PublishKeeps(s: State, s': State)
    requires Inv(s) && PublishOne(s, s')
    ensures Inv(s')
  {
    hide L.Offer, L.WinnerOf, FromHeard, AllCovered;
    var selected, k := s.phase.selected, s.phase.pc.published;
    assert selected[..k + 1][..k] == selected[..k];
  }

  lemma EndKeeps(s: State, s': State)
    requires Inv(s) && EndFlush(s, s')
    ensures Inv(s')
  {
    hide L.OfferAll, L.WinnerOf, FromHeard, AllCovered;
    var selected := s.phase.selected;
    assert selected[..|selected|] == selected;
  }

  lemma SamePhase(s: State, s': State)
    requires s' == s.(seen := s'.seen)
    ensures PhaseInv(s') <==> PhaseInv(s)
    ensures Waiting(s') == Waiting(s)
  {
  }

  lemma EvictKeeps(s: State, s': State, keys: set<(L.Kind, string)>)
    requires Inv(s) && Evict(s, s', keys)
    ensures Inv(s')
  {
    hide L.OfferAll, L.WinnerOf, FromHeard, Covered, PhaseInv;
    SamePhase(s, s');
  }

  lemma CrashKeeps(s: State, s': State)
    requires Inv(s) && Crash(s, s')
    ensures Inv(s')
  {
    hide FromHeard, AllCovered, Heard, Absorbed, Kept;
    HeardKept(s.db, s.received);
    AbsorbedKeeps(s.db, Heard(s.received));
  }

  lemma RestartKeeps(s: State, s': State)
    requires Inv(s) && Restart(s, s')
    ensures Inv(s')
  {
    hide FromHeard, AllCovered, Reload.Restore;
    Reload.RestoreEmpty(s.db);
  }

  lemma ClearKeeps(s: State, s': State)
    requires Inv(s) && ClearSeen(s, s')
    ensures Inv(s')
  {
    hide FromHeard, Covered;
    SamePhase(s, s');
  }

  lemma StepKeeps(s: State, s': State)
    requires Inv(s) && Step(s, s')
    ensures Inv(s')
  {
    hide Inv, Receive, Evict, BeginFlush, CommitFollows, CommitMutes, Fail, PublishOne, EndFlush, Crash, Restart;
    if e, now :| Receive(s, s', e, now) {
      ReceiveKeeps(s, s', e, now);
    } else if keys :| Evict(s, s', keys) {
      EvictKeeps(s, s', keys);
    } else if ClearSeen(s, s') {
      ClearKeeps(s, s');
    } else if selected :| BeginFlush(s, s', selected) {
      BeginKeeps(s, s', selected);
    } else if order :| CommitFollows(s, s', order) {
      CommitFollowsKeeps(s, s', order);
    } else if order :| CommitMutes(s, s', order) {
      CommitMutesKeeps(s, s', order);
    } else if Fail(s, s') {
      FailKeeps(s, s');
    } else if PublishOne(s, s') {
      PublishKeeps(s, s');
    } else if EndFlush(s, s') {
      EndKeeps(s, s');
    } else if Crash(s, s') {
      CrashKeeps(s, s');
    } else {
      RestartKeeps(s, s');
    }
  }

  // ---------- Whole runs ----------

  ghost predicate StepAt(trace: seq<State>, i: nat)
    requires i + 1 < |trace|
  {
    Step(trace[i], trace[i + 1])
  }

  ghost predicate Run(trace: seq<State>) {
    trace != [] && Initial(trace[0]) && forall i: nat | i < |trace| - 1 :: StepAt(trace, i)
  }

  lemma InitialInv(s: State)
    requires Initial(s)
    ensures Inv(s)
  {
  }

  lemma {:induction false} RunKeeps(trace: seq<State>, i: nat)
    requires Run(trace) && i < |trace|
    ensures Inv(trace[i])
    decreases i
  {
    hide Inv, Step;
    if i == 0 {
      InitialInv(trace[0]);
    } else {
      RunKeeps(trace, i - 1);
      assert StepAt(trace, i - 1);
      StepKeeps(trace[i - 1], trace[i]);
    }
  }

  lemma NothingAhead(db: L.Lists)
    ensures NotAhead(L.EMPTY, db)
  {
  }

  lemma PartlyPublished(l: L.Lists, selected: seq<L.Update>, n: nat)
    requires L.DistinctKeys(selected) && n <= |selected|
    ensures NotAhead(L.OfferAll(l, selected[..n]), L.OfferAll(l, selected))
  {
    hide L.OfferAll, NotAhead;
    assert selected == selected[..n] + selected[n..];
    L.OfferAllConcat(l, selected[..n], selected[n..]);
    OffersNotAhead(L.OfferAll(l, selected[..n]), selected[n..]);
  }

  /** Commit before publish: at no moment of any run is the graph ahead of the database. */
  lemma NeverAhead(trace: seq<State>, i: nat)
    requires Run(trace) && i < |trace|
    ensures NotAhead(trace[i].graph, trace[i].db)
  {
    hide L.OfferAll, L.WinnerOf, FromHeard, AllCovered, NotAhead, Items, Run;
    RunKeeps(trace, i);
    var s := trace[i];
    match s.phase
    case Idle => AheadOfNone(s.db);
    case Stopped =>
    case Down => NothingAhead(s.db);
    case Flushing(start, pending, selected, attempt, pc) =>
      SelectedHeard(s);
      ItemsMember(selected, L.Follow);
      match pc
      case Publishing(n) => PartlyPublished(start, selected, n);
      case _ =>
        OffersNotAhead(start, Items(selected, L.Follow));
        AheadOfNone(start);
  }

  /** Between flushes, and after every restart, nodes, lists and versions agree by key. */
  lemma IdleAgrees(trace: seq<State>, i: nat)
    requires Run(trace) && i < |trace| && trace[i].phase == Idle
    ensures trace[i].graph == trace[i].db
  {
    hide Run, FromHeard, AllCovered;
    RunKeeps(trace, i);
  }

  /** The list of the NIP-01 winner among the events of one kind and author, or none if there is no event. */
  ghost predicate WinnerStored(db: L.Lists, heard: set<L.Update>, k: L.Kind, a: string) {
    if forall e | e in heard :: e.kind != k || e.author != a then
      Stored(db, k, a) == L.NO_LIST && (k == L.Mute ==> a !in db.mutes)
    else exists w :: w in heard && w.kind == k && w.author == a && Stored(db, k, a) == L.Entry(w.version, L.Targets(w)) &&
           forall e | e in heard && e.kind == k && e.author == a ::
             L.Full(w.version) && L.Full(e.version) && (e.version == w.version || Beats(w.version, e.version))
  }

  lemma HeardWitness(db: L.Lists, heard: set<L.Update>, k: L.Kind, a: string) returns (w: L.Update)
    requires FromHeard(db, heard) && a in L.Of(db, k) && L.Of(db, k)[a] != L.NO_LIST
    ensures w in heard && w.kind == k && w.author == a && Stored(db, k, a) == L.Entry(w.version, L.Targets(w))
  {
    assert HeardAs(db, heard, k, a);
    w :| w in heard && w.kind == k && w.author == a && Stored(db, k, a) == L.Entry(w.version, L.Targets(w));
  }

  lemma NotStoredUnheard(db: L.Lists, heard: set<L.Update>, k: L.Kind, a: string)
    requires FromHeard(db, heard) && forall e | e in heard :: e.kind != k || e.author != a
    ensures Stored(db, k, a) == L.NO_LIST && (k == L.Mute ==> a !in db.mutes)
  {
    if a in L.Of(db, k) && L.Of(db, k)[a] != L.NO_LIST {
      var w := HeardWitness(db, heard, k, a);
      assert false;
    }
  }

  lemma WinnersStored(trace: seq<State>, i: nat, k: L.Kind, a: string)
    requires Run(trace) && i < |trace| && trace[i].phase == Idle && trace[i].batch == []
    ensures WinnerStored(trace[i].db, Heard(trace[i].received), k, a)
  {
    hide L.OfferAll, L.WinnerOf, Run, Heard;
    RunKeeps(trace, i);
    var s := trace[i];
    var heard := Heard(s.received);
    if e :| e in heard && e.kind == k && e.author == a {
      assert Covered(s.db, [], k, a, e.version);
      assert HeardAs(s.db, heard, k, a);
      var w :| w in heard && w.kind == k && w.author == a && Stored(s.db, k, a) == L.Entry(w.version, L.Targets(w));
      forall x | x in heard && x.kind == k && x.author == a
        ensures x.version == w.version || Beats(w.version, x.version)
      {
        assert Covered(s.db, [], k, a, x.version);
      }
    } else {
      NotStoredUnheard(s.db, heard, k, a);
    }
  }

  // ---------- The same in terms of the events received ----------

  /** `e` was received as a list of that kind and author, at most ten minutes ahead of the clock. */
  ghost predicate Candidate(received: set<Reception>, e: RawEvent, kind: nat, a: string) {
    e.kind == kind && e.author == a && exists now: nat :: Reception(e, now) in received && e.createdAt <= now + 600
  }

  /** The winner in the sense of section "Kinds" of NIP-01: the newest candidate, and of several the one with the least id. */
  ghost predicate Winner(received: set<Reception>, w: RawEvent, kind: nat, a: string) {
    && Candidate(received, w, kind, a)
    && forall e | Candidate(received, e, kind, a) ::
         w.createdAt > e.createdAt || (w.createdAt == e.createdAt && w.id <= e.id)
  }

  /** The list that `w` carries: its time, its id, and exactly the keys of its `p` tags. */
  ghost predicate ListOf(entry: L.Entry, w: RawEvent) {
    && entry.version == L.Version(Some(w.createdAt), Some(w.id))
    && forall x :: x in entry.targets <==> ListsKey(w, x)
  }

  /** Kind and author of the winner's list, or nothing if there is no candidate. */
  ghost predicate HoldsWinner(lists: map<string, L.Entry>, received: set<Reception>, kind: nat, a: string) {
    if exists e :: Candidate(received, e, kind, a) then
      a in lists && exists w :: Winner(received, w, kind, a) && ListOf(lists[a], w)
    else a in lists ==> lists[a] == L.Entry(L.Version(None, None), {})
  }

  lemma CandidateHeard(received: set<Reception>, e: RawEvent, kind: nat, a: string)
    requires Candidate(received, e, kind, a) && (kind == 3 || kind == 10000)
    requires forall r | r in received :: r.now + 600 <= 0x7FFF_FFFF_FFFF_FFFF
    ensures ToUpdate(e) in Heard(received) && ToUpdate(e).author == a
    ensures ToUpdate(e).kind == if kind == 3 then L.Follow else L.Mute
    ensures ToUpdate(e).version == L.Version(Some(e.createdAt), Some(e.id))
  {
    var now: nat :| Reception(e, now) in received && e.createdAt <= now + 600;
    assert Considered(Reception(e, now).e, Reception(e, now).now);
  }

  lemma HeardCandidate(received: set<Reception>, u: L.Update, kind: nat, a: string) returns (e: RawEvent)
    requires u in Heard(received) && u.author == a && (kind == 3 || kind == 10000)
    requires u.kind == if kind == 3 then L.Follow else L.Mute
    ensures Candidate(received, e, kind, a) && ToUpdate(e) == u
  {
    hide TaggedKeys;
    var r :| r in received && Considered(r.e, r.now) && ToUpdate(r.e) == u;
    e := r.e;
    assert Reception(e, r.now) in received;
  }

  lemma StoredAsReceived(db: L.Lists, received: set<Reception>, kind: nat, a: string)
    requires kind == 3 || kind == 10000
    requires forall r | r in received :: r.now + 600 <= 0x7FFF_FFFF_FFFF_FFFF
    requires WinnerStored(db, Heard(received), if kind == 3 then L.Follow else L.Mute, a)
    ensures HoldsWinner(if kind == 3 then db.follows else db.mutes, received, kind, a)
    ensures kind == 10000 && a in db.mutes ==> exists e :: Candidate(received, e, kind, a)
  {
    hide Heard, ToUpdate, Candidate, ListsKey;
    var k := if kind == 3 then L.Follow else L.Mute;
    var heard := Heard(received);
    if e :| Candidate(received, e, kind, a) {
      CandidateHeard(received, e, kind, a);
      var u :| u in heard && u.kind == k && u.author == a && Stored(db, k, a) == L.Entry(u.version, L.Targets(u)) &&
        forall x | x in heard && x.kind == k && x.author == a ::
          L.Full(u.version) && L.Full(x.version) && (x.version == u.version || Beats(u.version, x.version));
      var w := HeardCandidate(received, u, kind, a);
      CandidateHeard(received, w, kind, a);
      forall x | Candidate(received, x, kind, a)
        ensures w.createdAt > x.createdAt || (w.createdAt == x.createdAt && w.id <= x.id)
      {
        CandidateHeard(received, x, kind, a);
      }
      forall x ensures x in L.Targets(u) <==> ListsKey(w, x) {
        UpdateLists(w, x);
      }
      assert Winner(received, w, kind, a);
    } else {
      forall u | u in heard ensures u.kind != k || u.author != a {
        if u.kind == k && u.author == a {
          var x := HeardCandidate(received, u, kind, a);
          assert false;
        }
      }
    }
  }

  /**
   Convergence: whenever a run is idle with an empty batch, the database holds for every author
   exactly the follow list of the winning kind-3 event received and the mute list of the
   winning kind-10000 event received, and the graph agrees.
   */
  lemma Converged(trace: seq<State>, i: nat, a: string)
    requires Run(trace) && i < |trace| && trace[i].phase == Idle && trace[i].batch == []
    ensures HoldsWinner(trace[i].db.follows, trace[i].received, 3, a)
    ensures HoldsWinner(trace[i].db.mutes, trace[i].received, 10000, a)
    ensures a in trace[i].db.mutes ==> exists e :: Candidate(trace[i].received, e, 10000, a)
    ensures trace[i].graph == trace[i].db
  {
    hide L.OfferAll, L.WinnerOf, Run, Heard, WinnerStored, HoldsWinner, FromHeard, AllCovered;
    RunKeeps(trace, i);
    WinnersStored(trace, i, L.Follow, a);
    WinnersStored(trace, i, L.Mute, a);
    StoredAsReceived(trace[i].db, trace[i].received, 3, a);
    StoredAsReceived(trace[i].db, trace[i].received, 10000, a);
  }

  /** A reception is recorded whatever becomes of it. */
  lemma ReceptionRecorded(s: State, s': State, e: RawEvent, now: nat)
    requires Receive(s, s', e, now)
    ensures s'.received == s.received + {Reception(e, now)}
  {
  }

  lemma StepRecords(s: State, s': State)
    requires Step(s, s')
    ensures s'.phase != Stopped && s'.phase != Down ==> s.received <= s'.received
    ensures forall r | r in s'.received :: r in s.received || Receive(s, s', r.e, r.now)
  {
    hide L.OfferAll, L.Winners, Items, Considered, Dominates, ToUpdate, AccountedFor;
  }

  /** While the process lives, everything received counts. */
  lemma {:induction false} ReceptionsStay(trace: seq<State>, i: nat, j: nat)
    requires Run(trace) && i <= j < |trace|
    requires forall m: nat | i < m <= j :: trace[m].phase != Stopped && trace[m].phase != Down
    ensures trace[i].received <= trace[j].received
    decreases j
  {
    hide Step;
    if i < j {
      ReceptionsStay(trace, i, j - 1);
      assert StepAt(trace, j - 1);
      StepRecords(trace[j - 1], trace[j]);
    }
  }

  /** Nothing counts that was not received. */
  lemma {:induction false} OnlyReceptions(trace: seq<State>, j: nat, r: Reception) returns (i: nat)
    requires Run(trace) && j < |trace| && r in trace[j].received
    ensures i < j && Receive(trace[i], trace[i + 1], r.e, r.now)
    decreases j
  {
    hide Step, Receive;
    assert j > 0;
    assert StepAt(trace, j - 1);
    StepRecords(trace[j - 1], trace[j]);
    i := j - 1;
    if r in trace[j - 1].received {
      i := OnlyReceptions(trace, j - 1, r);
    }
  }

  // ---------- The filter ----------

  /** The filter has an entry for the author and kind of `e` that makes it drop `e`. */
  ghost predicate Drops(seen: map<(L.Kind, string), SeenEvent>, e: RawEvent) {
    var key := (if e.kind == 3 then L.Follow else L.Mute, e.author);
    && key in seen
    && (e.createdAt < seen[key].createdAt || (e.createdAt == seen[key].createdAt && seen[key].id <= e.id))
  }

  /** What the filter drops it goes on dropping, until it forgets the author. */
  lemma StepDrops(s: State, s': State, e: RawEvent)
    requires Step(s, s') && Drops(s.seen, e) && (e.kind == 3 || e.kind == 10000)
    requires (KindOf(e.kind), e.author) in s'.seen
    ensures Drops(s'.seen, e)
  {
    hide L.OfferAll, L.Winners, Items, Heard, Absorbed, Considered, AccountedFor, Kept;
  }

  /** A list event leaves an entry that drops the event itself and everything it supersedes. */
  lemma ReceivedDrops(s: State, s': State, e: RawEvent, now: nat, later: RawEvent)
    requires Receive(s, s', e, now) && (e.kind == 3 || e.kind == 10000) && e.createdAt <= now + 600
    requires later.kind == e.kind && later.author == e.author
    requires later.createdAt < e.createdAt || (later.createdAt == e.createdAt && e.id <= later.id)
    ensures Drops(s'.seen, later)
  {
  }

  lemma DroppedAdds(s: State, s': State, e: RawEvent, now: nat)
    requires Receive(s, s', e, now) && Drops(s.seen, e)
    ensures s' == s.(received := s'.received)
  {
  }

  /**
   A repeated or superseded event costs nothing: while the filter has an entry for the author and
   kind, it never reaches a batch again.
   */
  lemma RepeatsDropped(trace: seq<State>, i: nat, j: nat, e: RawEvent, now: nat, later: RawEvent, then': nat)
    requires Run(trace) && i < j < |trace| - 1
    requires Receive(trace[i], trace[i + 1], e, now) && (e.kind == 3 || e.kind == 10000) && e.createdAt <= now + 600
    requires later.kind == e.kind && later.author == e.author
    requires later.createdAt < e.createdAt || (later.createdAt == e.createdAt && e.id <= later.id)
    requires forall m: nat | i < m <= j :: (KindOf(e.kind), e.author) in trace[m].seen
    requires Receive(trace[j], trace[j + 1], later, then')
    ensures trace[j + 1] == trace[j].(received := trace[j + 1].received)
  {
    hide Receive, Step, Drops;
    ReceivedDrops(trace[i], trace[i + 1], e, now, later);
    var m := i + 1;
    while m < j
      invariant i < m <= j && Drops(trace[m].seen, later)
    {
      assert StepAt(trace, m);
      StepDrops(trace[m], trace[m + 1], later);
      m := m + 1;
    }
    DroppedAdds(trace[j], trace[j + 1], later, then');
  }

  // ---------- Two runs ----------

  /** An event id is a hash of the event: equal ids, equal events. */
  ghost predicate IdsDetermine(received: set<Reception>) {
    forall r, r' | r in received && r' in received && r.e.id == r'.e.id :: r.e == r'.e
  }

  lemma SameEvent(received: set<Reception>, w: RawEvent, w': RawEvent, kind: nat, a: string)
    requires IdsDetermine(received) && w.id == w'.id
    requires Candidate(received, w, kind, a) && Candidate(received, w', kind, a)
    ensures w == w'
  {
    var now: nat :| Reception(w, now) in received;
    var now': nat :| Reception(w', now') in received;
    assert Reception(w, now).e.id == Reception(w', now').e.id;
  }

  /** The winner is unique, so the stored list is a function of the events alone. */
  lemma OneWinner(lists: map<string, L.Entry>, lists': map<string, L.Entry>, received: set<Reception>,
                  received': set<Reception>, kind: nat, a: string)
    requires IdsDetermine(received) && HoldsWinner(lists, received, kind, a) && HoldsWinner(lists', received', kind, a)
    requires forall e :: Candidate(received, e, kind, a) <==> Candidate(received', e, kind, a)
    ensures L.Get(lists, a) == L.Get(lists', a)
  {
    hide ListsKey;
    if e :| Candidate(received, e, kind, a) {
      var w :| Winner(received, w, kind, a) && ListOf(lists[a], w);
      var w' :| Winner(received', w', kind, a) && ListOf(lists'[a], w');
      assert Candidate(received, w, kind, a) && Candidate(received, w', kind, a);
      SameEvent(received, w, w', kind, a);
      assert lists[a].targets == lists'[a].targets;
    }
  }

  /** Both runs received the same events that count; at what times, and how often, does not matter. */
  ghost predicate SameCandidates(received: set<Reception>, received': set<Reception>) {
    forall e, kind, a | kind == 3 || kind == 10000 :: Candidate(received, e, kind, a) <==> Candidate(received', e, kind, a)
  }

  lemma KnownIfCandidate(lists: map<string, L.Entry>, received: set<Reception>, a: string)
    requires HoldsWinner(lists, received, 10000, a)
    ensures (exists e :: Candidate(received, e, 10000, a)) ==> a in lists
  {
    hide Candidate, ListOf;
  }

  lemma SameStored(db: L.Lists, db': L.Lists)
    requires forall a :: L.Get(db.follows, a) == L.Get(db'.follows, a)
    requires forall a :: L.Get(db.mutes, a) == L.Get(db'.mutes, a) && (a in db.mutes <==> a in db'.mutes)
    ensures L.SameLists(db, db')
  {
    forall a | a in db.mutes || a in db'.mutes ensures a in db.mutes && a in db'.mutes && db.mutes[a] == db'.mutes[a] {
      assert L.Get(db.mutes, a) == L.Get(db'.mutes, a);
    }
  }

  /** Arrival order, duplicates, batching, filter losses and failures leave no trace in the lists. */
  lemma RunsAgree(trace: seq<State>, i: nat, trace': seq<State>, j: nat)
    requires Run(trace) && i < |trace| && trace[i].phase == Idle && trace[i].batch == []
    requires Run(trace') && j < |trace'| && trace'[j].phase == Idle && trace'[j].batch == []
    requires SameCandidates(trace[i].received, trace'[j].received) && IdsDetermine(trace[i].received)
    ensures L.SameLists(trace[i].db, trace'[j].db)
  {
    hide Run, HoldsWinner, IdsDetermine, Candidate;
    var s, s' := trace[i], trace'[j];
    forall a
      ensures L.Get(s.db.follows, a) == L.Get(s'.db.follows, a) && L.Get(s.db.mutes, a) == L.Get(s'.db.mutes, a)
      ensures a in s.db.mutes <==> a in s'.db.mutes
    {
      Converged(trace, i, a);
      Converged(trace', j, a);
      OneWinner(s.db.follows, s'.db.follows, s.received, s'.received, 3, a);
      OneWinner(s.db.mutes, s'.db.mutes, s.received, s'.received, 10000, a);
      KnownIfCandidate(s.db.mutes, s.received, a);
      KnownIfCandidate(s'.db.mutes, s'.received, a);
    }
    SameStored(s.db, s'.db);
  }

  // ---------- Retries ----------

  /** The failed transactions since the current flush began. */
  ghost function Failures(trace: seq<State>, i: nat): nat
    requires i < |trace|
  {
    if i == 0 || !trace[i - 1].phase.Flushing? then 0
    else Failures(trace, i - 1) + if Fail(trace[i - 1], trace[i]) then 1 else 0
  }

  lemma StepAttempts(s: State, s': State)
    requires Step(s, s')
    ensures s'.phase.Flushing? && !s.phase.Flushing? ==> s'.phase.attempt == 0
    ensures s'.phase.Flushing? && s.phase.Flushing? ==>
              s'.phase.attempt == s.phase.attempt + if Fail(s, s') then 1 else 0
    ensures s'.phase.Stopped? && s.phase.Flushing? ==> Fail(s, s') && s.phase.attempt >= 2
  {
    hide L.OfferAll, L.Winners, Items, Kept, Considered, Dominates, ToUpdate;
  }

  lemma FailedTooOften(s: State, s': State)
    requires s.phase.Flushing? && s'.phase.Flushing? && Fail(s, s')
    ensures s.phase.attempt < 2
  {
  }

  lemma {:induction false} AttemptsAreFailures(trace: seq<State>, i: nat)
    requires Run(trace) && i < |trace| && trace[i].phase.Flushing?
    ensures trace[i].phase.attempt == Failures(trace, i) <= 2
    decreases i
  {
    hide Step, Fail;
    assert i > 0;
    assert StepAt(trace, i - 1);
    StepAttempts(trace[i - 1], trace[i]);
    if trace[i - 1].phase.Flushing? {
      AttemptsAreFailures(trace, i - 1);
      if Fail(trace[i - 1], trace[i]) {
        FailedTooOften(trace[i - 1], trace[i]);
      }
    }
  }

  lemma StepOfRun(trace: seq<State>, i: nat)
    requires Run(trace) && i + 1 < |trace|
    ensures StepAt(trace, i)
  {
  }

  /** Ingestion gives up on a batch only after three failed transactions. */
  lemma GivesUpAfterThree(trace: seq<State>, i: nat)
    requires Run(trace) && 0 < i < |trace| && trace[i].phase.Stopped? && trace[i - 1].phase.Flushing?
    ensures Failures(trace, i) == 3
  {
    hide Step, Fail, Run;
    assert StepAt(trace, i - 1) by { StepOfRun(trace, i - 1); }
    StepAttempts(trace[i - 1], trace[i]);
    AttemptsAreFailures(trace, i - 1);
  }

  // ---------- Nothing stored is ever lost ----------

  /** A commit leaves every stored version as good as it was. */
  lemma CommitNoWorse(s: State, order: seq<L.Update>, kind: L.Kind, k: L.Kind, a: string, v: L.Version)
    requires Inv(s) && s.phase.Flushing? && L.Winners(Items(s.phase.selected, kind), order)
    requires L.Full(v) && AtLeast(Stored(s.db, k, a).version, v)
    ensures AtLeast(Stored(L.OfferAll(s.db, order), k, a).version, v)
  {
    hide L.OfferAll, L.WinnerOf, FromHeard, AllCovered, Items, AtLeast;
    SelectedHeard(s);
    ItemsMember(s.phase.selected, kind);
    CommitIsOffers(s.db, Items(s.phase.selected, kind), order);
    OfferedCovers(s.db, Heard(s.received), order, k, a, v);
  }

  lemma StepNoWorse(s: State, s': State, k: L.Kind, a: string, v: L.Version)
    requires Inv(s) && Step(s, s') && L.Full(v) && AtLeast(Stored(s.db, k, a).version, v)
    ensures AtLeast(Stored(s'.db, k, a).version, v)
  {
    hide Inv, AtLeast, Stored, L.OfferAll, L.Winners, Items, Absorbed, Considered, Dominates;
    if order :| CommitFollows(s, s', order) {
      CommitNoWorse(s, order, L.Follow, k, a, v);
    } else if order :| CommitMutes(s, s', order) {
      CommitNoWorse(s, order, L.Mute, k, a, v);
    }
  }

  /** Stored versions never get worse, whatever fails, crashes or restarts in between. */
  lemma {:induction false} NeverWorse(trace: seq<State>, i: nat, j: nat, k: L.Kind, a: string, v: L.Version)
    requires Run(trace) && i <= j < |trace| && L.Full(v)
    requires AtLeast(Stored(trace[i].db, k, a).version, v)
    ensures AtLeast(Stored(trace[j].db, k, a).version, v)
    decreases j
  {
    hide Inv, Step, AtLeast, Stored;
    if i < j {
      NeverWorse(trace, i, j - 1, k, a, v);
      assert StepAt(trace, j - 1);
      RunKeeps(trace, j - 1);
      StepNoWorse(trace[j - 1], trace[j], k, a, v);
    }
  }

  /** A step forgets only what the database does not account for. */
  lemma StepRemembers(s: State, s': State)
    requires Step(s, s')
    ensures s.received <= s'.received || (s'.received == Kept(s.db, s.received) && s'.db == s.db)
  {
    hide L.OfferAll, L.Winners, Items, Kept, Considered, Dominates, ToUpdate;
  }

  lemma FullUpdate(e: RawEvent)
    ensures L.Full(ToUpdate(e).version) && ToUpdate(e).kind == KindOf(e.kind) && ToUpdate(e).author == e.author
  {
  }

  /** A reception the database accounts for keeps counting, and stays accounted for, for ever. */
  lemma {:induction false} AbsorbedForEver(trace: seq<State>, i: nat, j: nat, r: Reception)
    requires Run(trace) && i <= j < |trace| && r in trace[i].received && AccountedFor(trace[i].db, r)
    ensures r in trace[j].received && AccountedFor(trace[j].db, r)
    decreases j
  {
    hide Inv, Step, AtLeast, Stored, Considered, ToUpdate;
    FullUpdate(r.e);
    if i < j {
      AbsorbedForEver(trace, i, j - 1, r);
      assert StepAt(trace, j - 1);
      RunKeeps(trace, j - 1);
      StepRemembers(trace[j - 1], trace[j]);
      if Considered(r.e, r.now) {
        StepNoWorse(trace[j - 1], trace[j], KindOf(r.e.kind), r.e.author, ToUpdate(r.e).version);
      }
    }
  }
}
