/**
 A run can always be brought to rest: from every reachable state, a bounded number of steps
 without a failure leaves nothing to do, and the lists are then those of the winning events.
 */
module IngestionProgress {
  import opened Options
  import opened Events
  import opened Ingestion
  import opened IngestionRuns
  import L = Lists
  import Reload

  // ---------- There is always something to select ----------

  lemma WinnerNext(before: seq<L.Update>, u: L.Update, k: L.Kind, a: string)
    ensures var w := L.WinnerOf(before, k, a);
            L.WinnerOf(before + [u], k, a) ==
            if u.kind != k || u.author != a then w else if w.None? then Some(u) else Some(L.Better(w.value, u))
  {
    assert (before + [u])[..|before|] == before;
  }

  /** One more update: it joins the winners, or meets the one of its kind and author. */
  lemma AddWinner(before: seq<L.Update>, ws: seq<L.Update>, u: L.Update) returns (ws': seq<L.Update>)
    requires L.Winners(before, ws)
    ensures L.Winners(before + [u], ws') && |ws'| <= |ws| + 1
  {
    hide L.EventWins, L.WinnerOf;
    var us := before + [u];
    forall k, a ensures L.WinnerOf(us, k, a) == var w := L.WinnerOf(before, k, a);
              if u.kind != k || u.author != a then w else if w.None? then Some(u) else Some(L.Better(w.value, u))
    {
      WinnerNext(before, u, k, a);
    }
    L.WinnerFromSequence(before, u.kind, u.author);
    var w := L.WinnerOf(before, u.kind, u.author);
    if w.None? {
      ws' := ws + [u];
    } else {
      var i :| 0 <= i < |ws| && ws[i] == w.value;
      ws' := ws[i := L.Better(w.value, u)];
      forall k, a | L.WinnerOf(us, k, a).Some? ensures L.WinnerOf(us, k, a).value in ws' {
        if k == u.kind && a == u.author {
          assert ws'[i] in ws';
        } else {
          L.WinnerFromSequence(before, k, a);
          var j :| 0 <= j < |ws| && ws[j] == L.WinnerOf(before, k, a).value;
          assert ws'[j] == ws[j];
        }
      }
      forall j | 0 <= j < |ws'| ensures L.WinnerOf(us, ws'[j].kind, ws'[j].author) == Some(ws'[j]) {
        assert ws[j] in ws;
      }
    }
  }

  lemma NoWinners()
    ensures L.Winners([], [])
  {
  }

  lemma {:induction false} WinnersExist(us: seq<L.Update>) returns (ws: seq<L.Update>)
    ensures L.Winners(us, ws) && |ws| <= |us|
  {
    hide L.Winners;
    if us == [] {
      ws := [];
      NoWinners();
    } else {
      ws := WinnersExist(us[..|us| - 1]);
      ws := AddWinner(us[..|us| - 1], ws, us[|us| - 1]);
      assert us == us[..|us| - 1] + [us[|us| - 1]];
    }
  }

  // ---------- Steps towards rest ----------

  /** How many steps without a failure it takes to come to rest, at most. */
  function Left(s: State): nat {
    match s.phase
    case Idle => if s.batch == [] then 0 else |s.batch| + 4
    case Flushing(_, _, selected, _, pc) =>
      (match pc
       case TxFollows => |selected| + 3
       case TxMutes => |selected| + 2
       case Publishing(n) => if n <= |selected| then |selected| - n + 1 else 0)
    case Down => 1
    case Stopped => 2
  }

  /** Nothing is waiting and the process is up. */
  predicate AtRest(s: State) {
    s.phase == Idle && s.batch == []
  }

  lemma RestStep(s: State) returns (s': State)
    requires Inv(s) && !AtRest(s)
    ensures Step(s, s') && Left(s') < Left(s)
    ensures s.phase != Stopped ==> s'.received == s.received && s'.phase != Stopped
  {
    hide L.Winners, L.OfferAll, L.Offer, Items, FromHeard, AllCovered, Kept, Heard;
    match s.phase
    case Idle =>
      var selected := WinnersExist(s.batch);
      s' := s.(batch := [], phase := Flushing(s.db, s.batch, selected, 0, TxFollows));
      assert BeginFlush(s, s', selected);
    case Flushing(_, _, selected, _, pc) =>
      match pc {
        case TxFollows =>
          var order := WinnersExist(Items(selected, L.Follow));
          s' := s.(db := L.OfferAll(s.db, order), phase := s.phase.(pc := TxMutes));
          assert CommitFollows(s, s', order);
        case TxMutes =>
          var order := WinnersExist(Items(selected, L.Mute));
          s' := s.(db := L.OfferAll(s.db, order), phase := s.phase.(pc := Publishing(0)));
          assert CommitMutes(s, s', order);
        case Publishing(n) =>
          if n < |selected| {
            s' := s.(graph := L.Offer(s.graph, selected[n]), phase := s.phase.(pc := Publishing(n + 1)));
            assert PublishOne(s, s');
          } else {
            s' := s.(phase := Idle);
            assert EndFlush(s, s');
          }
      }
    case Down =>
      s' := s.(graph := Reload.Restore(s.graph, s.db), phase := Idle);
      assert Restart(s, s');
    case Stopped =>
      s' := State(s.db, L.EMPTY, [], map[], Down, Kept(s.db, s.received));
      assert Crash(s, s');
  }

  function Last(trace: seq<State>): State
    requires trace != []
  {
    trace[|trace| - 1]
  }

  lemma Continue(trace: seq<State>, s: State)
    requires Run(trace) && Step(Last(trace), s)
    ensures Run(trace + [s]) && Last(trace + [s]) == s
  {
    hide Step, Initial;
    var more := trace + [s];
    forall i: nat | i < |more| - 1 ensures StepAt(more, i) {
      if i < |trace| - 1 {
        assert StepAt(trace, i);
      }
    }
  }

  lemma {:induction false} CanRest(trace: seq<State>) returns (more: seq<State>)
    requires Run(trace)
    ensures Run(more) && trace <= more && |more| <= |trace| + Left(Last(trace))
    ensures AtRest(Last(more))
    ensures Last(trace).phase != Stopped ==> Last(more).received == Last(trace).received
    decreases Left(Last(trace))
  {
    var s := Last(trace);
    hide Run, Step, Left, Inv, AtRest;
    more := trace;
    if !AtRest(s) {
      RunKeeps(trace, |trace| - 1);
      var s' := RestStep(s);
      Continue(trace, s');
      more := CanRest(trace + [s']);
    }
  }

  /**
   Nothing received is out of reach: from every reachable state with the process alive, a bounded
   number of steps without a failure leads to a database and a graph that hold, for every author,
   the lists of the winning events among everything received.
   */
  lemma CanConverge(trace: seq<State>) returns (more: seq<State>)
    requires Run(trace) && Last(trace).phase != Stopped
    ensures Run(more) && trace <= more && |more| <= |trace| + Left(Last(trace))
    ensures var s, r := Last(more), Last(trace).received;
            && s.graph == s.db
            && forall a :: HoldsWinner(s.db.follows, r, 3, a) && HoldsWinner(s.db.mutes, r, 10000, a)
  {
    assert trace != [];
    hide Run, Left, HoldsWinner, Candidate;
    more := CanRest(trace);
    var i := |more| - 1;
    forall a ensures HoldsWinner(more[i].db.follows, more[i].received, 3, a)
      ensures HoldsWinner(more[i].db.mutes, more[i].received, 10000, a)
      ensures more[i].graph == more[i].db
    {
      Converged(more, i, a);
    }
    Converged(more, i, "");
  }
}
