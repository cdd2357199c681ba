/**
 Follow and mute lists by public key, as the graph and the database both represent them,
 and the rule by which a newer event replaces a list.
 */
module Lists {
  import opened Options

  /** Creation time and id of the event a list comes from; both may be missing. */
  datatype Version = Version(at: Option<int>, id: Option<nat>)

  const UNVERSIONED := Version(None, None)

  /** The graph's test (`accepts_event`). */
  predicate AcceptsEvent(old': Version, new': Version) {
    match (old'.at, new'.at)
    case (None, _) => true
    case (Some(_), None) => false
    case (Some(o), Some(n)) =>
      n > o || (n == o && new'.id.Some? && (old'.id.None? || new'.id.value < old'.id.value))
  }

  /** The database's test (`event_wins`). */
  predicate EventWins(new': Version, old': Version) {
    if new'.at.Some? && old'.at.Some? && new'.at.value != old'.at.value then new'.at.value > old'.at.value
    else match (new'.at, old'.at)
      case (Some(_), None) => true
      case (None, Some(_)) => false
      case (None, None) => true
      case (Some(_), Some(_)) =>
        match (new'.id, old'.id)
        case (Some(n), Some(o)) => n < o
        case (Some(_), None) => true
        case _ => false
  }

  /** Graph and database replace a list under exactly the same circumstances. */
  lemma SameRule(old': Version, new': Version)
    ensures AcceptsEvent(old', new') <==> EventWins(new', old')
  {
  }

  /**
   The rule by fields: a list without a time is always replaced, and one with a time never by
   an update without; a later time wins; at equal times an update with an id replaces a list
   without one or with a greater one, and an update without an id replaces nothing.
   */
  lemma RuleByFields(old': Version, new': Version)
    ensures AcceptsEvent(old', new') <==>
            (old'.at.None? ||
             (new'.at.Some? && (new'.at.value > old'.at.value ||
                                (new'.at.value == old'.at.value && new'.id.Some? &&
                                 (old'.id.None? || new'.id.value < old'.id.value)))))
  {
  }

  /** A list without a version gives way to everything. */
  lemma UnversionedLoses(version: Version)
    ensures AcceptsEvent(UNVERSIONED, version)
  {
  }

  datatype Kind = Follow | Mute

  datatype Entry = Entry(version: Version, targets: set<string>)

  /** A node whose list was never received. */
  const NO_LIST := Entry(UNVERSIONED, {})

  /** The keys of `follows` are the known nodes; those of `mutes` the known mute lists. */
  datatype Lists = Lists(follows: map<string, Entry>, mutes: map<string, Entry>)

  datatype Update = Update(kind: Kind, author: string, follows: seq<string>, version: Version)

  const EMPTY := Lists(map[], map[])

  ghost predicate WellFormed(l: Lists) {
    l.mutes.Keys <= l.follows.Keys
  }

  function Targets(u: Update): set<string> {
    set x | x in u.follows
  }

  function Get(m: map<string, Entry>, author: string): Entry {
    if author in m then m[author] else NO_LIST
  }

  function Of(l: Lists, kind: Kind): map<string, Entry> {
    if kind == Follow then l.follows else l.mutes
  }

  function WithNodes(l: Lists, names: set<string>): Lists {
    l.(follows := map pk | pk in l.follows.Keys + names :: Get(l.follows, pk))
  }

  function Put(l: Lists, kind: Kind, author: string, e: Entry): Lists {
    if kind == Follow then l.(follows := l.follows[author := e]) else l.(mutes := l.mutes[author := e])
  }

  /** Offering one update: the author becomes known; if accepted, the list is replaced and its targets become known. */
  function Offer(l: Lists, u: Update): Lists {
    if AcceptsEvent(Get(Of(l, u.kind), u.author).version, u.version)
    then Put(WithNodes(l, {u.author} + Targets(u)), u.kind, u.author, Entry(u.version, Targets(u)))
    else WithNodes(l, {u.author})
  }

  /** What an offer leaves of follow lists, by fields: everything but the author's list is as it was. */
  lemma OfferedFollows(l: Lists, u: Update)
    ensures var accepted := AcceptsEvent(Get(Of(l, u.kind), u.author).version, u.version);
            && Offer(l, u).follows.Keys ==
               l.follows.Keys + {u.author} + (if accepted then set x | x in u.follows else {})
            && forall pk | pk in Offer(l, u).follows ::
                 Offer(l, u).follows[pk] ==
                 if accepted && u.kind == Follow && pk == u.author then Entry(u.version, set x | x in u.follows)
                 else if pk in l.follows then l.follows[pk]
                 else Entry(Version(None, None), {})
  {
  }

  /** The same for mute lists, which only an accepted mute list touches. */
  lemma OfferedMutes(l: Lists, u: Update)
    ensures Offer(l, u).mutes ==
            if AcceptsEvent(Get(l.mutes, u.author).version, u.version) && u.kind == Mute
            then l.mutes[u.author := Entry(u.version, set x | x in u.follows)] else l.mutes
  {
  }

  function OfferAll(l: Lists, us: seq<Update>): Lists {
    if us == [] then l else Offer(OfferAll(l, us[..|us| - 1]), us[|us| - 1])
  }

  // ---------- One author at a time ----------

  /** The author's list after one update of its own. */
  function Absorb(e: Entry, u: Update): Entry {
    if AcceptsEvent(e.version, u.version) then Entry(u.version, Targets(u)) else e
  }

  /** The better of two updates of one author and kind: the later one only if it wins. */
  function Better(u: Update, v: Update): Update {
    if EventWins(v.version, u.version) then v else u
  }

  /** Offering two updates in turn is offering the better one. */
  lemma AbsorbBetter(e: Entry, u: Update, v: Update)
    ensures Absorb(Absorb(e, u), v) == Absorb(e, Better(u, v))
  {
  }

  function AbsorbAll(e: Entry, us: seq<Update>, kind: Kind, author: string): Entry {
    if us == [] then e
    else
      var u, before := us[|us| - 1], AbsorbAll(e, us[..|us| - 1], kind, author);
      if u.kind == kind && u.author == author then Absorb(before, u) else before
  }

  /** The winning update of one author and kind in a sequence. */
  function WinnerOf(us: seq<Update>, kind: Kind, author: string): Option<Update> {
    if us == [] then None
    else
      var u, before := us[|us| - 1], WinnerOf(us[..|us| - 1], kind, author);
      if u.kind != kind || u.author != author then before
      else if before.None? then Some(u)
      else Some(Better(before.value, u))
  }

  lemma {:induction false} WinnerFromSequence(us: seq<Update>, kind: Kind, author: string)
    ensures var w := WinnerOf(us, kind, author);
            if w.Some? then w.value in us && w.value.kind == kind && w.value.author == author
            else forall u | u in us :: u.kind != kind || u.author != author
  {
    if us != [] {
      WinnerFromSequence(us[..|us| - 1], kind, author);
      assert us == us[..|us| - 1] + [us[|us| - 1]];
    }
  }

  /** A whole sequence of updates acts on a list as its winner alone. */
  lemma {:induction false} AbsorbWinner(e: Entry, us: seq<Update>, kind: Kind, author: string)
    ensures AbsorbAll(e, us, kind, author) ==
            match WinnerOf(us, kind, author) case None => e case Some(w) => Absorb(e, w)
  {
    if us != [] {
      var u, rest := us[|us| - 1], us[..|us| - 1];
      AbsorbWinner(e, rest, kind, author);
      if u.kind == kind && u.author == author && WinnerOf(rest, kind, author).Some? {
        AbsorbBetter(e, WinnerOf(rest, kind, author).value, u);
      }
    }
  }

  lemma GetOffer(l: Lists, u: Update, kind: Kind, author: string)
    ensures Get(Of(Offer(l, u), kind), author) ==
            if u.kind == kind && u.author == author then Absorb(Get(Of(l, kind), author), u) else Get(Of(l, kind), author)
    ensures author in Offer(l, u).mutes <==> author in l.mutes || (u.kind == Mute && u.author == author)
    ensures Offer(l, u).follows.Keys == l.follows.Keys + {u.author} +
            if AcceptsEvent(Get(Of(l, u.kind), u.author).version, u.version) then Targets(u) else {}
    ensures WellFormed(l) ==> WellFormed(Offer(l, u))
  {
  }

  /** What a sequence of updates leaves for one author. */
  lemma {:induction false} GetOfferAll(l: Lists, us: seq<Update>, kind: Kind, author: string)
    ensures Get(Of(OfferAll(l, us), kind), author) == AbsorbAll(Get(Of(l, kind), author), us, kind, author)
    ensures WellFormed(l) ==> WellFormed(OfferAll(l, us))
  {
    if us != [] {
      GetOfferAll(l, us[..|us| - 1], kind, author);
      GetOffer(OfferAll(l, us[..|us| - 1]), us[|us| - 1], kind, author);
    }
  }

  /** A mute list is known after a sequence exactly if it was before or the sequence has one for it. */
  lemma {:induction false} MutesKnown(l: Lists, us: seq<Update>, author: string)
    ensures author in OfferAll(l, us).mutes <==> author in l.mutes || WinnerOf(us, Mute, author).Some?
  {
    if us != [] {
      var u, rest := us[|us| - 1], us[..|us| - 1];
      MutesKnown(l, rest, author);
      GetOffer(OfferAll(l, rest), u, Mute, author);
    }
  }

  /** Equal lists for every author; the sets of known nodes may differ in nodes without a list. */
  ghost predicate SameLists(a: Lists, b: Lists) {
    a.mutes == b.mutes && forall pk :: Get(a.follows, pk) == Get(b.follows, pk)
  }

  /** At most one update of each kind and author. */
  ghost predicate DistinctKeys(ws: seq<Update>) {
    forall i, j | 0 <= i < j < |ws| :: (ws[i].kind, ws[i].author) != (ws[j].kind, ws[j].author)
  }

  /** `ws` lists each winner of `us` once, in any order. */
  ghost predicate Winners(us: seq<Update>, ws: seq<Update>) {
    && (forall w | w in ws :: WinnerOf(us, w.kind, w.author) == Some(w))
    && (forall k, a | WinnerOf(us, k, a).Some? :: WinnerOf(us, k, a).value in ws)
    && DistinctKeys(ws)
  }

  lemma {:induction false} WinnerOfDistinct(ws: seq<Update>, w: Update)
    requires w in ws
    requires DistinctKeys(ws)
    ensures WinnerOf(ws, w.kind, w.author) == Some(w)
  {
    var last, rest := ws[|ws| - 1], ws[..|ws| - 1];
    assert ws == rest + [last];
    if w in rest {
      WinnerOfDistinct(rest, w);
    } else {
      WinnerFromSequence(rest, w.kind, w.author);
    }
  }

  lemma WinnersOfWinners(us: seq<Update>, ws: seq<Update>, kind: Kind, author: string)
    requires Winners(us, ws)
    ensures WinnerOf(ws, kind, author) == WinnerOf(us, kind, author)
  {
    WinnerFromSequence(us, kind, author);
    WinnerFromSequence(ws, kind, author);
    if WinnerOf(us, kind, author).Some? {
      WinnerOfDistinct(ws, WinnerOf(us, kind, author).value);
    }
  }

  lemma SameEntry(l: Lists, us: seq<Update>, ws: seq<Update>, kind: Kind, pk: string)
    requires Winners(us, ws)
    ensures Get(Of(OfferAll(l, ws), kind), pk) == Get(Of(OfferAll(l, us), kind), pk)
    ensures pk in OfferAll(l, ws).mutes <==> pk in OfferAll(l, us).mutes
  {
    hide OfferAll, AbsorbAll, WinnerOf, Absorb, Winners;
    WinnersOfWinners(us, ws, kind, pk);
    WinnersOfWinners(us, ws, Mute, pk);
    AbsorbWinner(Get(Of(l, kind), pk), ws, kind, pk);
    AbsorbWinner(Get(Of(l, kind), pk), us, kind, pk);
    GetOfferAll(l, ws, kind, pk);
    GetOfferAll(l, us, kind, pk);
    MutesKnown(l, ws, pk);
    MutesKnown(l, us, pk);
  }

  /** The nodes known after offering updates of distinct authors. */
  ghost predicate KnownAfter(l: Lists, ws: seq<Update>, pk: string) {
    || pk in l.follows
    || exists w :: w in ws && (pk == w.author ||
         (AcceptsEvent(Get(Of(l, w.kind), w.author).version, w.version) && pk in Targets(w)))
  }

  lemma {:induction false} BatchNodes(l: Lists, ws: seq<Update>, pk: string)
    requires DistinctKeys(ws)
    ensures pk in OfferAll(l, ws).follows <==> KnownAfter(l, ws, pk)
  {
    hide Offer;
    if ws != [] {
      var last, rest := ws[|ws| - 1], ws[..|ws| - 1];
      assert ws == rest + [last];
      BatchNodes(l, rest, pk);
      GetOffer(OfferAll(l, rest), last, last.kind, last.author);
      GetOfferAll(l, rest, last.kind, last.author);
      AbsorbWinner(Get(Of(l, last.kind), last.author), rest, last.kind, last.author);
      WinnerFromSequence(rest, last.kind, last.author);
    }
  }

  /** The winner's targets become known when the updates are applied one at a time, too. */
  lemma {:induction false} WinnerApplied(l: Lists, us: seq<Update>, w: Update, pk: string)
    requires WinnerOf(us, w.kind, w.author) == Some(w)
    requires pk == w.author || (AcceptsEvent(Get(Of(l, w.kind), w.author).version, w.version) && pk in Targets(w))
    ensures pk in OfferAll(l, us).follows
  {
    hide Offer;
    var u, rest := us[|us| - 1], us[..|us| - 1];
    var before := OfferAll(l, rest);
    GetOffer(before, u, w.kind, w.author);
    if WinnerOf(rest, w.kind, w.author) == Some(w) {
      WinnerApplied(l, rest, w, pk);
    } else {
      GetOfferAll(l, rest, w.kind, w.author);
      AbsorbWinner(Get(Of(l, w.kind), w.author), rest, w.kind, w.author);
    }
  }

  lemma {:induction false} NodesStay(l: Lists, us: seq<Update>, pk: string)
    requires pk in l.follows
    ensures pk in OfferAll(l, us).follows
  {
    if us != [] {
      NodesStay(l, us[..|us| - 1], pk);
    }
  }

  /**
   Persisting only the winners, in any order, leaves the lists of applying every update in
   turn; the other way round there can only be more nodes without a list.
   */
  lemma BatchEqualsSequential(l: Lists, us: seq<Update>, ws: seq<Update>)
    requires Winners(us, ws)
    ensures SameLists(OfferAll(l, ws), OfferAll(l, us))
    ensures OfferAll(l, ws).follows.Keys <= OfferAll(l, us).follows.Keys
  {
    hide OfferAll, WinnerOf;
    var a, b := OfferAll(l, ws), OfferAll(l, us);
    forall pk | pk in a.mutes || pk in b.mutes ensures pk in a.mutes && pk in b.mutes && a.mutes[pk] == b.mutes[pk] {
      SameEntry(l, us, ws, Mute, pk);
    }
    forall pk ensures Get(a.follows, pk) == Get(b.follows, pk) {
      SameEntry(l, us, ws, Follow, pk);
    }
    forall pk | pk in a.follows ensures pk in b.follows {
      BatchNodes(l, ws, pk);
      if pk in l.follows {
        NodesStay(l, us, pk);
      } else {
        var w :| w in ws && (pk == w.author ||
          (AcceptsEvent(Get(Of(l, w.kind), w.author).version, w.version) && pk in Targets(w)));
        WinnerApplied(l, us, w, pk);
      }
    }
  }

  // ---------- Equal lists stay equal ----------

  lemma SameListsReflexive(a: Lists)
    ensures SameLists(a, a)
  {
  }

  lemma SameListsTransitive(a: Lists, b: Lists, c: Lists)
    requires SameLists(a, b) && SameLists(b, c)
    ensures SameLists(a, c)
  {
  }

  /** Nodes without a list make no difference to later updates. */
  lemma SameListsOffered(a: Lists, b: Lists, us: seq<Update>)
    requires SameLists(a, b)
    ensures SameLists(OfferAll(a, us), OfferAll(b, us))
  {
    hide OfferAll, AbsorbAll, WinnerOf;
    var x, y := OfferAll(a, us), OfferAll(b, us);
    forall pk ensures Get(x.follows, pk) == Get(y.follows, pk) {
      GetOfferAll(a, us, Follow, pk);
      GetOfferAll(b, us, Follow, pk);
    }
    forall pk | pk in x.mutes || pk in y.mutes ensures pk in x.mutes && pk in y.mutes && x.mutes[pk] == y.mutes[pk] {
      MutesKnown(a, us, pk);
      MutesKnown(b, us, pk);
      GetOfferAll(a, us, Mute, pk);
      GetOfferAll(b, us, Mute, pk);
    }
  }

  lemma {:induction false} OfferAllConcat(l: Lists, us: seq<Update>, vs: seq<Update>)
    ensures OfferAll(l, us + vs) == OfferAll(OfferAll(l, us), vs)
  {
    hide Offer;
    if vs == [] {
      assert us + vs == us;
    } else {
      OfferAllConcat(l, us, vs[..|vs| - 1]);
      assert (us + vs)[..|us + vs| - 1] == us + vs[..|vs| - 1];
    }
  }

  // ---------- Updates of distinct authors commute, and repeating them changes nothing ----------

  lemma EqualLists(a: Lists, b: Lists)
    requires a.follows.Keys == b.follows.Keys && a.mutes.Keys == b.mutes.Keys
    requires forall pk :: Get(a.follows, pk) == Get(b.follows, pk)
    requires forall pk :: Get(a.mutes, pk) == Get(b.mutes, pk)
    ensures a == b
  {
    forall pk | pk in a.follows ensures a.follows[pk] == b.follows[pk] {
      assert Get(a.follows, pk) == Get(b.follows, pk) && pk in b.follows.Keys;
    }
    forall pk | pk in a.mutes ensures a.mutes[pk] == b.mutes[pk] {
      assert Get(a.mutes, pk) == Get(b.mutes, pk) && pk in b.mutes.Keys;
    }
    assert a.follows == b.follows && a.mutes == b.mutes;
  }

  lemma WinnerOfSame(ws: seq<Update>, vs: seq<Update>, kind: Kind, pk: string)
    requires DistinctKeys(ws) && DistinctKeys(vs) && forall u :: u in ws <==> u in vs
    ensures WinnerOf(ws, kind, pk) == WinnerOf(vs, kind, pk)
  {
    hide WinnerOf, DistinctKeys;
    WinnerFromSequence(ws, kind, pk);
    WinnerFromSequence(vs, kind, pk);
    if WinnerOf(ws, kind, pk).Some? {
      WinnerOfDistinct(vs, WinnerOf(ws, kind, pk).value);
    }
  }

  /** What a sequence leaves for one author, in terms of its winner. */
  lemma EntryAfter(l: Lists, us: seq<Update>, kind: Kind, pk: string)
    ensures Get(Of(OfferAll(l, us), kind), pk) ==
            match WinnerOf(us, kind, pk)
            case None => Get(Of(l, kind), pk)
            case Some(w) => Absorb(Get(Of(l, kind), pk), w)
  {
    hide OfferAll, AbsorbAll, WinnerOf, Absorb;
    GetOfferAll(l, us, kind, pk);
    AbsorbWinner(Get(Of(l, kind), pk), us, kind, pk);
  }

  /** The order in which distinct authors' updates are applied does not matter. */
  lemma PermutedOffers(l: Lists, ws: seq<Update>, vs: seq<Update>)
    requires DistinctKeys(ws) && DistinctKeys(vs) && forall u :: u in ws <==> u in vs
    ensures OfferAll(l, ws) == OfferAll(l, vs)
  {
    hide OfferAll, AbsorbAll, WinnerOf, DistinctKeys;
    var a, b := OfferAll(l, ws), OfferAll(l, vs);
    forall kind, pk ensures Get(Of(a, kind), pk) == Get(Of(b, kind), pk) {
      EntryAfter(l, ws, kind, pk);
      EntryAfter(l, vs, kind, pk);
      WinnerOfSame(ws, vs, kind, pk);
    }
    forall pk ensures Get(a.follows, pk) == Get(b.follows, pk) && Get(a.mutes, pk) == Get(b.mutes, pk) {
      assert Get(Of(a, Follow), pk) == Get(Of(b, Follow), pk);
      assert Get(Of(a, Mute), pk) == Get(Of(b, Mute), pk);
    }
    forall pk ensures (pk in a.mutes <==> pk in b.mutes) && (pk in a.follows <==> pk in b.follows) {
      MutesKnown(l, ws, pk);
      MutesKnown(l, vs, pk);
      WinnerOfSame(ws, vs, Mute, pk);
      BatchNodes(l, ws, pk);
      BatchNodes(l, vs, pk);
    }
    EqualLists(a, b);
  }

  /** A version with both parts, as every received event has. */
  predicate Full(v: Version) {
    v.at.Some? && v.id.Some?
  }

  /** A versioned update that was applied, or that lost, is not accepted again. */
  lemma NotTwice(e: Entry, u: Update)
    requires Full(u.version)
    ensures !AcceptsEvent(Absorb(e, u).version, u.version)
  {
  }

  /** Repeating a batch that was already committed changes nothing at all. */
  lemma RepeatedOffers(l: Lists, ws: seq<Update>, vs: seq<Update>)
    requires DistinctKeys(ws) && DistinctKeys(vs) && forall u :: u in ws <==> u in vs
    requires forall u | u in ws :: Full(u.version)
    ensures OfferAll(OfferAll(l, ws), vs) == OfferAll(l, ws)
  {
    hide OfferAll, AbsorbAll, WinnerOf, DistinctKeys, AcceptsEvent;
    var once, twice := OfferAll(l, ws), OfferAll(OfferAll(l, ws), vs);
    forall u | u in vs ensures !AcceptsEvent(Get(Of(once, u.kind), u.author).version, u.version) {
      EntryAfter(l, ws, u.kind, u.author);
      WinnerOfDistinct(ws, u);
      NotTwice(Get(Of(l, u.kind), u.author), u);
    }
    forall kind, pk ensures Get(Of(twice, kind), pk) == Get(Of(once, kind), pk) {
      EntryAfter(once, vs, kind, pk);
      WinnerFromSequence(vs, kind, pk);
    }
    forall pk ensures Get(twice.follows, pk) == Get(once.follows, pk) && Get(twice.mutes, pk) == Get(once.mutes, pk) {
      assert Get(Of(twice, Follow), pk) == Get(Of(once, Follow), pk);
      assert Get(Of(twice, Mute), pk) == Get(Of(once, Mute), pk);
    }
    forall pk ensures (pk in twice.mutes <==> pk in once.mutes) && (pk in twice.follows <==> pk in once.follows) {
      MutesKnown(once, vs, pk);
      MutesKnown(l, ws, pk);
      WinnerOfSame(ws, vs, Mute, pk);
      BatchNodes(once, vs, pk);
      BatchNodes(l, ws, pk);
    }
    EqualLists(twice, once);
  }
}
