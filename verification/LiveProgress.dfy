/**
 Requests make progress. Whatever state is reached, the holder of the adjacency locks can
 finish and every request can then be answered, in a bounded number of its own steps; a
 repeated query on an unchanged graph is served from the cache.
 */
module LiveProgress {
  import opened Options
  import opened Walks
  import opened SortedLists
  import opened Distances
  import opened GraphData
  import opened Live
  import opened LiveProof
  import Store

  /** How many of its own steps a request may still take before it responds. */
  function Remaining(at: Stage): nat {
    match at
    case Arrived => 13
    case FromSeen(_) => 12
    case Getting(_) => 11
    case GotRevision(_, _) => 10
    case GotEntry(_, _, _) => 9
    case GotFrom(_, _, _, _) => 8
    case GotTo(_, _, _, _, _) => 7
    case GotAll(_, _, _) => 6
    case Asked => 5
    case Began(_) => 4
    case FromKnown(_, _) => 3
    case BothKnown(_, _, _) => 2
    case Searching(_, _, _) => 1
    case _ => 0
  }

  predicate Responded(at: Stage) {
    at.Served? || at.Answered? || at.Keyed? || at.Checked?
  }

  lemma NoneRemain(at: Stage)
    ensures Remaining(at) == 0 <==> Responded(at)
    ensures Remaining(at) <= 13
  {
  }

  lemma MoveCloser(s: State, q: Query, at: Stage, at': Stage)
    requires Move(s, q, at, at') && Remaining(at) > 0
    ensures Remaining(at') < Remaining(at)
  {
    hide Distance, DistanceById, ToResult, NotFound, SameNode;
  }

  /** Only the locks of a writer can hold a request up. */
  lemma NotStuck(s: State, q: Query, at: Stage) returns (at': Stage)
    requires !AdjacencyLocked(s.writer) && Remaining(at) > 0
    ensures Move(s, q, at, at')
  {
    hide Distance, DistanceById, ToResult, NotFound, SameNode;
    match at
    case Arrived => at' := Asked;
    case FromSeen(_) => at' := Asked;
    case Getting(key) => at' := GotRevision(key, s.revision);
    case GotRevision(key, rev) =>
      at' := if key in s.entries && s.entries[key].revision == rev then GotEntry(key, rev, s.entries[key]) else Asked;
    case GotEntry(key, rev, c) =>
      at' := if key.fromId < |s.topology.names| then GotFrom(key, rev, c, s.topology.names[key.fromId]) else Asked;
    case GotFrom(key, rev, c, from) =>
      at' := if key.toId < |s.topology.names| then GotTo(key, rev, c, from, s.topology.names[key.toId]) else Asked;
    case GotTo(key, rev, c, from, to) => at' := GotAll(key, rev, ToResult(c, from, to, s.topology.names));
    case GotAll(key, rev, res) => at' := if s.revision == rev then Served(key, rev, res) else Asked;
    case Asked => at' := Began(s.revision);
    case Began(rev) =>
      at' := if q.from == q.to then Answered(rev, SameNode(q.from))
             else if q.from !in s.topology.ids then Answered(rev, NotFound(q.from, q.to))
             else FromKnown(rev, s.topology.ids[q.from]);
    case FromKnown(rev, x) =>
      at' := if q.to !in s.topology.ids then Answered(rev, NotFound(q.from, q.to))
             else BothKnown(rev, x, s.topology.ids[q.to]);
    case BothKnown(rev, x, y) => at' := Searching(rev, x, y);
    case Searching(rev, x, y) =>
      at' := Answered(rev, DistanceById(s.topology.names, s.topology.follows, s.topology.followers, q, x, y));
  }

  // ---------- Bounded requests ----------

  /** How often a request has moved between two states of a run. */
  ghost function Moves(trace: seq<State>, reader: nat, j: nat, i: nat): nat
    requires j <= i < |trace|
    decreases i
  {
    if i == j then 0
    else
      Moves(trace, reader, j, i - 1) +
      if reader in trace[i - 1].readers && reader in trace[i].readers
         && trace[i].readers[reader].at != trace[i - 1].readers[reader].at then 1 else 0
  }

  lemma StepMoves(s: State, s': State, reader: nat)
    requires Step(s, s') && reader in s.readers && reader in s'.readers && Remaining(s.readers[reader].at) > 0
    ensures s'.readers[reader].at == s.readers[reader].at || Move(s, s.readers[reader].q, s.readers[reader].at, s'.readers[reader].at)
  {
    hide Move, FromResult;
  }

  lemma StepOfRun(trace: seq<State>, i: nat)
    requires Run(trace) && i + 1 < |trace|
    ensures Step(trace[i], trace[i + 1])
  {
    hide Step;
    assert StepAt(trace, i);
  }

  /** Without a response so far, every move has brought the request closer to one. */
  lemma {:induction false} BoundedMoves(trace: seq<State>, reader: nat, j: nat, i: nat)
    requires Run(trace) && j <= i < |trace|
    requires forall m: nat | j <= m <= i :: Present(trace, reader, m)
    requires forall m: nat | j <= m < i :: Present(trace, reader, m) && !Responded(trace[m].readers[reader].at)
    ensures reader in trace[j].readers && reader in trace[i].readers
    ensures Moves(trace, reader, j, i) + Remaining(trace[i].readers[reader].at) <= Remaining(trace[j].readers[reader].at)
    ensures Moves(trace, reader, j, i) <= 13
    decreases i
  {
    hide Step, Move, Remaining, Run;
    assert Present(trace, reader, j) && Present(trace, reader, i);
    NoneRemain(trace[j].readers[reader].at);
    if j < i {
      BoundedMoves(trace, reader, j, i - 1);
      assert Present(trace, reader, i - 1);
      StepOfRun(trace, i - 1);
      var s := trace[i - 1];
      NoneRemain(s.readers[reader].at);
      StepMoves(s, trace[i], reader);
      if trace[i].readers[reader].at != s.readers[reader].at {
        MoveCloser(s, s.readers[reader].q, s.readers[reader].at, trace[i].readers[reader].at);
      }
    }
  }

  // ---------- Continuing a run ----------

  function Last(trace: seq<State>): State
    requires trace != []
  {
    trace[|trace| - 1]
  }

  lemma Continue(trace: seq<State>, s: State)
    requires Run(trace) && Step(Last(trace), s)
    ensures Run(trace + [s]) && Last(trace + [s]) == s
  {
    hide Step, Initial;
    var more := trace + [s];
    forall i: nat | i < |more| - 1 ensures StepAt(more, i) {
      if i < |trace| - 1 {
        assert StepAt(trace, i);
      }
    }
  }

  function Advanced(s: State, reader: nat, at: Stage): State
    requires reader in s.readers
  {
    s.(readers := s.readers[reader := s.readers[reader].(at := at)])
  }

  lemma MoveOn(trace: seq<State>, reader: nat, at: Stage) returns (more: seq<State>)
    requires Run(trace) && reader in Last(trace).readers
    requires Move(Last(trace), Last(trace).readers[reader].q, Last(trace).readers[reader].at, at)
    ensures more == trace + [Advanced(Last(trace), reader, at)] && Run(more)
  {
    var s := Last(trace);
    hide Run, Move;
    assert ReaderStep(s, Advanced(s, reader, at), reader, at);
    more := trace + [Advanced(s, reader, at)];
    Continue(trace, Advanced(s, reader, at));
  }

  /** With no writer holding the adjacency locks, a request responds by its own steps. */
  lemma {:induction false} CanRespond(trace: seq<State>, reader: nat) returns (more: seq<State>)
    requires Run(trace) && reader in Last(trace).readers && !AdjacencyLocked(Last(trace).writer)
    ensures Run(more) && trace <= more && |more| <= |trace| + Remaining(Last(trace).readers[reader].at)
    ensures reader in Last(more).readers && Remaining(Last(more).readers[reader].at) == 0
    ensures Last(more) == Advanced(Last(trace), reader, Last(more).readers[reader].at)
    decreases Remaining(Last(trace).readers[reader].at)
  {
    var s := Last(trace);
    hide Run, Move, Remaining;
    var r := s.readers[reader];
    more := trace;
    if Remaining(r.at) > 0 {
      var at := NotStuck(s, r.q, r.at);
      MoveCloser(s, r.q, r.at, at);
      more := MoveOn(trace, reader, at);
      more := CanRespond(more, reader);
    }
  }

  // ---------- The writer ----------

  /** How far the holder of the adjacency locks is from giving them back. */
  function Unlocking(w: Writer): nat {
    match w
    case Creating(_, stage) => (match stage case CLocked => 4 case Pushed => 3 case Mapped => 2 case CBumped => 1)
    case Rewiring(_, _, _, _, stage) =>
      (match stage case RLocked => 5 case Unfollowed => 4 case Replaced => 3 case Refollowed => 2 case RBumped => 1)
    case Merging(stage) => (match stage case Torn => 3 case Edited => 2 case MBumped => 1)
    case _ => 0
  }

  function WithFollowers(s: State, followers: Adjacency, stage: RewireStage): State
    requires s.writer.Rewiring?
  {
    s.(writer := s.writer.(rewired := stage), topology := s.topology.(followers := followers))
  }

  /** Follower lists without the removed edges exist, and so do lists with the new ones. */
  lemma ListsExist(s: State) returns (dropped: Adjacency, added: Adjacency)
    requires Inv(s) && s.writer.Rewiring?
    ensures s.writer.rewired == RLocked ==> DropEdges(s, WithFollowers(s, dropped, Unfollowed), dropped)
    ensures s.writer.rewired == Replaced ==> AddEdges(s, WithFollowers(s, added, Refollowed), added)
  {
    hide EntryOk, ReaderInv, Store.ReverseOf, Ascending;
    var w, top := s.writer, Top(s);
    dropped, added := [], [];
    if w.rewired == RLocked || w.rewired == Replaced {
      var kept := Ascending(|top.names|, set x | x in top.follows[w.node] && x in w.list);
      AscendingIsSorted(|top.names|, set x | x in top.follows[w.node] && x in w.list);
      var less, more := top.follows[w.node := kept], top.follows[w.node := w.list];
      dropped, added := Store.ReverseOf(less), Store.ReverseOf(more);
      Store.ReplacedRow(top, Topology(top.names, top.ids, less, dropped), w.node, kept);
      Store.ReplacedRow(top, Topology(top.names, top.ids, more, added), w.node, w.list);
      FollowsInRange(top, w.node);
    }
  }

  lemma UnlockRewiring(s: State) returns (s': State)
    requires Inv(s) && s.writer.Rewiring?
    ensures WriterStep(s, s') && Unlocking(s'.writer) < Unlocking(s.writer)
    ensures s'.readers == s.readers && s'.entries == s.entries
  {
    var dropped, added := ListsExist(s);
    hide EntryOk, ReaderInv, ValidTopology, Rewired, AllSorted, DropEdges, AddEdges, Edge;
    match s.writer.rewired
    case RLocked => s' := WithFollowers(s, dropped, Unfollowed);
    case Unfollowed =>
      SameNodeCount(Top(s));
      s' := s.(writer := s.writer.(rewired := Replaced),
               topology := s.topology.(follows := s.topology.follows[s.writer.node := s.writer.list]));
      assert ReplaceList(s, s');
    case Replaced => s' := WithFollowers(s, added, Refollowed);
    case Refollowed =>
      s' := if s.writer.toRemove == [] && s.writer.toAdd == [] then s.(writer := s.writer.(rewired := RBumped))
            else Bumped(s, s.writer.(rewired := RBumped));
      assert BumpEdges(s, s');
    case RBumped =>
      s' := s.(writer := Held);
      assert UnlockEdges(s, s');
  }

  lemma ValidParts(tp: Topology)
    requires ValidTopology(tp)
    ensures |tp.follows| == |tp.names| && Walks.WellFormed(tp.follows, tp.followers)
  {
  }

  /** A writer with the adjacency locks always has a next step on its way to giving them back. */
  lemma UnlockStep(s: State) returns (s': State)
    requires Inv(s) && AdjacencyLocked(s.writer)
    ensures WriterStep(s, s') && Unlocking(s'.writer) < Unlocking(s.writer)
    ensures s'.readers == s.readers && s'.entries == s.entries
  {
    hide EntryOk, ReaderInv, ValidTopology, Rewired;
    match s.writer
    case Creating(pk, CLocked) =>
      s' := s.(writer := s.writer.(created := Pushed),
               topology := s.topology.(names := s.topology.names + [pk],
                                       follows := s.topology.follows + [[]], followers := s.topology.followers + [[]]));
      assert PushNode(s, s');
    case Creating(pk, Pushed) =>
      s' := s.(writer := s.writer.(created := Mapped),
               topology := s.topology.(ids := s.topology.ids[pk := |s.topology.names| - 1]));
      assert MapNode(s, s');
    case Creating(_, Mapped) =>
      s' := Bumped(s, s.writer.(created := CBumped));
      assert BumpNode(s, s');
    case Creating(_, CBumped) =>
      s' := s.(writer := Held);
      assert UnlockNode(s, s');
    case Rewiring(_, _, _, _, _) => s' := UnlockRewiring(s);
    case Merging(Torn) =>
      ValidParts(Top(s));
      s' := s.(writer := Merging(Edited),
               topology := s.topology.(follows := Top(s).follows, followers := Top(s).followers));
      assert FinishMerge(s, s', Top(s).follows, Top(s).followers);
    case Merging(Edited) =>
      s' := Bumped(s, Merging(MBumped));
      assert BumpMerge(s, s');
    case Merging(MBumped) =>
      s' := s.(writer := Held);
      assert UnlockMerge(s, s');
  }

  /** The writer gives the adjacency locks back by its own steps. */
  lemma {:induction false} CanUnlock(trace: seq<State>) returns (more: seq<State>)
    requires Run(trace)
    ensures Run(more) && trace <= more && |more| <= |trace| + Unlocking(Last(trace).writer)
    ensures !AdjacencyLocked(Last(more).writer) && Last(more).readers == Last(trace).readers
    decreases Unlocking(Last(trace).writer)
  {
    var s := Last(trace);
    hide Run, WriterStep, Unlocking, Inv;
    more := trace;
    if AdjacencyLocked(s.writer) {
      RunKeeps(trace, |trace| - 1);
      var s' := UnlockStep(s);
      Continue(trace, s');
      more := CanUnlock(trace + [s']);
    }
  }

  /**
   From every reachable state every request can be brought to a response, by at most five steps
   of the writer and thirteen of the request; no other request has to move.
   */
  lemma EveryRequestCanRespond(trace: seq<State>, reader: nat) returns (more: seq<State>)
    requires Run(trace) && reader in Last(trace).readers
    ensures Run(more) && trace <= more && |more| <= |trace| + 18
    ensures reader in Last(more).readers && Responded(Last(more).readers[reader].at)
    ensures forall i | i in Last(trace).readers && i != reader :: i in Last(more).readers && Last(more).readers[i] == Last(trace).readers[i]
  {
    var s := Last(trace);
    hide Run, Remaining;
    NoneRemain(s.readers[reader].at);
    more := CanUnlock(trace);
    more := CanRespond(more, reader);
    NoneRemain(Last(more).readers[reader].at);
  }

  // ---------- Every change can be published ----------

  /** Steps of the writer leave requests and cache alone; these lead from one state to another. */
  lemma WriteOn(trace: seq<State>, s': State) returns (more: seq<State>)
    requires Run(trace) && WriterStep(Last(trace), s')
    ensures more == trace + [s'] && Run(more)
  {
    hide WriterStep, Run;
    more := trace + [s'];
    Continue(trace, s');
  }

  lemma CreateOn(trace: seq<State>, pk: string) returns (more: seq<State>)
    requires Run(trace) && Last(trace).writer == Held && NobodySearching(Last(trace)) && pk !in Last(trace).topology.ids
    ensures Run(more) && trace <= more && |more| == |trace| + 5
    ensures var s := Last(trace);
            var tp := WithNode(s.topology, pk);
            Last(more) == s.(topology := tp, revision := s.revision + 1, published := s.published + [tp])
  {
    var s := Last(trace);
    var tp := WithNode(s.topology, pk);
    hide Run, NobodySearching;
    var locked := s.(writer := Creating(pk, CLocked));
    assert LockForNode(s, locked, pk);
    more := WriteOn(trace, locked);
    var pushed := s.(writer := Creating(pk, Pushed), topology := tp.(ids := s.topology.ids));
    assert PushNode(locked, pushed);
    more := WriteOn(more, pushed);
    var mapped := pushed.(writer := Creating(pk, Mapped), topology := tp);
    assert MapNode(pushed, mapped);
    more := WriteOn(more, mapped);
    var bumped := Bumped(mapped, Creating(pk, CBumped));
    assert BumpNode(mapped, bumped);
    more := WriteOn(more, bumped);
    assert UnlockNode(bumped, bumped.(writer := Held));
    more := WriteOn(more, bumped.(writer := Held));
  }

  lemma SameReaders(s: State, s': State)
    requires s'.readers == s.readers && NobodySearching(s)
    ensures NobodySearching(s')
  {
  }

  /** The elements of `a` that are not in `b`. */
  function Only(a: seq<nat>, b: seq<nat>): (r: seq<nat>)
    ensures forall x :: x in r <==> x in a && x !in b
  {
    if a == [] then []
    else
      assert a == a[..|a| - 1] + [a[|a| - 1]];
      Only(a[..|a| - 1], b) + if a[|a| - 1] in b then [] else [a[|a| - 1]]
  }

  /** The list is read, and the locks are taken with the difference to the new one. */
  lemma LockOn(trace: seq<State>, node: nat, list: seq<nat>) returns (more: seq<State>)
    requires Run(trace) && Last(trace).writer == Held && NobodySearching(Last(trace))
    requires node < |Last(trace).topology.follows| && IdList(|Last(trace).topology.names|, list)
    ensures Run(more) && trace <= more && |more| == |trace| + 2
    ensures Last(more) == Last(trace).(writer := Last(more).writer)
    ensures Last(more).writer.Rewiring? && Last(more).writer.rewired == RLocked
    ensures Last(more).writer.node == node && Last(more).writer.list == list
  {
    var s := Last(trace);
    var seen := s.topology.follows[node];
    RunKeeps(trace, |trace| - 1);
    hide Run, NobodySearching, Inv;
    var diffing := s.(writer := Diffing(node, list, seen));
    assert ReadOldList(s, diffing, node, list);
    more := WriteOn(trace, diffing);
    var gone, come := Only(seen, list), Only(list, seen);
    var locked := s.(writer := Rewiring(node, list, gone, come, RLocked));
    assert NobodySearching(diffing) by { SameReaders(s, diffing); }
    assert LockForEdges(diffing, locked, gone, come);
    more := WriteOn(more, locked);
  }

  lemma NodeInRange(s: State)
    requires Inv(s) && s.writer.Rewiring? && s.writer.rewired == RLocked
    ensures s.writer.node < |s.topology.follows|
  {
    hide EntryOk, ReaderInv, ValidTopology;
  }

  lemma RewiredFromTop(s: State, s': State)
    requires Inv(s) && Inv(s') && s.writer.Rewiring? && s.writer.rewired == RLocked
    requires s'.writer == s.writer.(rewired := Refollowed) && s'.revision == s.revision && s'.published == s.published
    ensures Rewired(s.topology, s'.topology, s.writer.node, s.writer.list)
  {
    hide EntryOk, ReaderInv, ValidTopology, Rewired;
  }

  /** Follower lists are edited and the list replaced: what the writer then has is the rewired topology. */
  lemma RewireOn(trace: seq<State>) returns (more: seq<State>)
    requires Run(trace) && Last(trace).writer.Rewiring? && Last(trace).writer.rewired == RLocked
    ensures Run(more) && trace <= more && |more| == |trace| + 3
    ensures var s, w, s' := Last(trace), Last(trace).writer, Last(more);
            && s' == s.(topology := s'.topology, writer := w.(rewired := Refollowed))
            && Rewired(s.topology, s'.topology, w.node, w.list)
  {
    var s := Last(trace);
    RunKeeps(trace, |trace| - 1);
    var dropped, _ := ListsExist(s);
    var unfollowed := WithFollowers(s, dropped, Unfollowed);
    assert s.writer.node < |s.topology.follows| by { NodeInRange(s); }
    hide Run, Inv, DropEdges, AddEdges, Rewired;
    more := WriteOn(trace, unfollowed);
    var replaced := unfollowed.(writer := s.writer.(rewired := Replaced),
                                topology := unfollowed.topology.(follows := s.topology.follows[s.writer.node := s.writer.list]));
    assert ReplaceList(unfollowed, replaced);
    more := WriteOn(more, replaced);
    RunKeeps(more, |more| - 1);
    var _, added := ListsExist(replaced);
    var refollowed := WithFollowers(replaced, added, Refollowed);
    more := WriteOn(more, refollowed);
    RunKeeps(more, |more| - 1);
    RunKeeps(trace, |trace| - 1);
    RewiredFromTop(s, refollowed);
  }

  /**
   Every change can be published: with the writer idle and nobody searching, the writer can
   create any node, and replace the list of any node by any list of known ids.
   */
  lemma CanCreate(trace: seq<State>, pk: string) returns (more: seq<State>)
    requires Run(trace) && Last(trace).writer == Free && NobodySearching(Last(trace)) && pk !in Last(trace).topology.ids
    ensures Run(more) && trace <= more && |more| == |trace| + 7
    ensures var s := Last(trace);
            var tp := WithNode(s.topology, pk);
            Last(more) == s.(topology := tp, revision := s.revision + 1, published := s.published + [tp])
  {
    var s := Last(trace);
    var held := s.(writer := Held);
    hide Run;
    assert Acquire(s, held);
    more := WriteOn(trace, held);
    more := CreateOn(more, pk);
    var created := Last(more);
    assert Release(created, created.(writer := Free));
    more := WriteOn(more, created.(writer := Free));
  }

  lemma FreeIsPublished(s: State)
    requires Inv(s) && s.writer == Free
    ensures |s.published| == s.revision + 1 && Top(s) == s.topology
  {
    hide EntryOk, ReaderInv, ValidTopology;
  }

  lemma BumpedIfChanged(tp: Topology, s: State)
    requires Inv(s) && s.writer.Rewiring? && s.writer.rewired == Refollowed && Top(s) == tp
    ensures s.topology == tp <==> s.writer.toRemove == [] && s.writer.toAdd == []
  {
    hide EntryOk, ReaderInv;
    var w := s.writer;
    Store.DiffEmpty(tp, s.topology, w.node, w.list, w.toRemove, w.toAdd);
  }

  lemma GiveBack(trace: seq<State>) returns (more: seq<State>)
    requires Run(trace) && Last(trace).writer.Rewiring? && Last(trace).writer.rewired == RBumped
    ensures Run(more) && trace <= more && |more| == |trace| + 2 && Last(more) == Last(trace).(writer := Free)
  {
    var s := Last(trace);
    hide Run;
    assert UnlockEdges(s, s.(writer := Held));
    more := WriteOn(trace, s.(writer := Held));
    assert Release(s.(writer := Held), s.(writer := Free));
    more := WriteOn(more, s.(writer := Free));
  }

  /** The revision moves if need be, and everything is given back. */
  lemma FinishOn(trace: seq<State>, before: Topology) returns (more: seq<State>)
    requires Run(trace) && Last(trace).writer.Rewiring? && Last(trace).writer.rewired == Refollowed
    requires |Last(trace).published| == Last(trace).revision + 1 && Top(Last(trace)) == before
    ensures Run(more) && trace <= more && |more| == |trace| + 3
    ensures var s, s' := Last(trace), Last(more);
            && s'.revision == s.revision + (if s.topology == before then 0 else 1)
            && s' == s.(writer := Free, revision := s'.revision, published := s'.published)
  {
    var s := Last(trace);
    RunKeeps(trace, |trace| - 1);
    hide Run, Inv, WriterStep;
    var bumped := if s.writer.toRemove == [] && s.writer.toAdd == [] then s.(writer := s.writer.(rewired := RBumped))
                  else Bumped(s, s.writer.(rewired := RBumped));
    BumpedIfChanged(before, s);
    assert WriterStep(s, bumped) by { assert BumpEdges(s, bumped); }
    more := WriteOn(trace, bumped);
    more := GiveBack(more);
  }

  lemma CanRewire(trace: seq<State>, node: nat, list: seq<nat>) returns (more: seq<State>)
    requires Run(trace) && Last(trace).writer == Free && NobodySearching(Last(trace))
    requires node < |Last(trace).topology.follows| && IdList(|Last(trace).topology.names|, list)
    ensures Run(more) && trace <= more && |more| == |trace| + 9
    ensures var s, s' := Last(trace), Last(more);
            && Rewired(s.topology, s'.topology, node, list)
            && s'.revision == s.revision + (if s'.topology == s.topology then 0 else 1)
            && s' == s.(topology := s'.topology, revision := s'.revision, published := s'.published)
  {
    var s := Last(trace);
    RunKeeps(trace, |trace| - 1);
    FreeIsPublished(s);
    var held := s.(writer := Held);
    hide Run, Inv, Rewired, NobodySearching, IdList;
    assert Acquire(s, held);
    more := WriteOn(trace, held);
    SameReaders(s, held);
    more := LockOn(more, node, list);
    more := RewireOn(more);
    more := FinishOn(more, s.topology);
  }

  // ---------- Served from the cache ----------

  lemma KeyInRange(s: State, q: Query, key: CacheKey)
    requires Inv(s) && !AdjacencyLocked(s.writer) && KeyFor(s.topology.ids, q) == Some(key)
    ensures key.fromId < |s.topology.names| && key.toId < |s.topology.names|
  {
    hide EntryOk, ReaderInv;
    UnlockedIsPublished(s);
  }

  /** The stages of a cache hit. */
  function HitStage(s: State, key: CacheKey, n: nat): Stage
    requires key in s.entries && key.fromId < |s.topology.names| && key.toId < |s.topology.names|
  {
    var names, rev, c := s.topology.names, s.revision, s.entries[key];
    var from, to := names[key.fromId], names[key.toId];
    match n
    case 0 => Arrived
    case 1 => FromSeen(key.fromId)
    case 2 => Getting(key)
    case 3 => GotRevision(key, rev)
    case 4 => GotEntry(key, rev, c)
    case 5 => GotFrom(key, rev, c, from)
    case 6 => GotTo(key, rev, c, from, to)
    case 7 => GotAll(key, rev, ToResult(c, from, to, names))
    case _ => Served(key, rev, ToResult(c, from, to, names))
  }

  lemma HitMove(s: State, q: Query, key: CacheKey, n: nat)
    requires key.fromId < |s.topology.names| && key.toId < |s.topology.names| && !AdjacencyLocked(s.writer) && n < 8
    requires KeyFor(s.topology.ids, q) == Some(key) && key in s.entries && s.entries[key].revision == s.revision
    ensures Move(s, q, HitStage(s, key, n), HitStage(s, key, n + 1))
  {
    hide ToResult;
  }

  lemma SameStages(s: State, s': State, key: CacheKey)
    requires key in s.entries && key.fromId < |s.topology.names| && key.toId < |s.topology.names|
    requires s'.entries == s.entries && s'.topology == s.topology && s'.revision == s.revision
    ensures forall n: nat :: HitStage(s', key, n) == HitStage(s, key, n)
  {
    hide ToResult;
  }

  lemma {:induction false} HitFrom(trace: seq<State>, reader: nat, key: CacheKey, n: nat) returns (more: seq<State>)
    requires Run(trace) && reader in Last(trace).readers && !AdjacencyLocked(Last(trace).writer) && n <= 8
    requires KeyFor(Last(trace).topology.ids, Last(trace).readers[reader].q) == Some(key)
    requires key in Last(trace).entries && Last(trace).entries[key].revision == Last(trace).revision
    requires key.fromId < |Last(trace).topology.names| && key.toId < |Last(trace).topology.names|
    requires Last(trace).readers[reader].at == HitStage(Last(trace), key, n)
    ensures Run(more) && trace <= more && |more| == |trace| + 8 - n
    ensures Last(more) == Advanced(Last(trace), reader, HitStage(Last(trace), key, 8))
    decreases 8 - n
  {
    var s := Last(trace);
    hide Run, Move, KeyFor;
    more := trace;
    if n < 8 {
      HitMove(s, s.readers[reader].q, key, n);
      more := MoveOn(trace, reader, HitStage(s, key, n + 1));
      SameStages(s, Last(more), key);
      more := HitFrom(more, reader, key, n + 1);
    }
  }

  /** An entry of the current revision is served to a request that has just arrived. */
  lemma HitServed(trace: seq<State>, reader: nat, key: CacheKey) returns (more: seq<State>)
    requires Run(trace) && reader in Last(trace).readers && !AdjacencyLocked(Last(trace).writer)
    requires Last(trace).readers[reader].at == Arrived
    requires KeyFor(Last(trace).topology.ids, Last(trace).readers[reader].q) == Some(key)
    requires key in Last(trace).entries && Last(trace).entries[key].revision == Last(trace).revision
    ensures Run(more) && trace <= more && |more| == |trace| + 8
    ensures reader in Last(more).readers
    ensures Last(more).readers[reader].at.Served? && Last(more).readers[reader].at.rev == Last(trace).revision
    ensures Last(more) == Advanced(Last(trace), reader, Last(more).readers[reader].at)
  {
    var s := Last(trace);
    RunKeeps(trace, |trace| - 1);
    KeyInRange(s, s.readers[reader].q, key);
    hide Run, Inv, ToResult;
    more := HitFrom(trace, reader, key, 0);
  }

  /** Checked, converted and written: the answer is in the cache. */
  lemma InsertOn(trace: seq<State>, first: nat, rev: nat, res: DistanceResult, key: CacheKey) returns (more: seq<State>)
    requires Run(trace) && first in Last(trace).readers && Last(trace).readers[first].at == Answered(rev, res)
    requires rev == Last(trace).revision && KeyFor(Last(trace).topology.ids, Last(trace).readers[first].q) == Some(key)
    ensures Run(more) && trace <= more && |more| == |trace| + 3
    ensures var s := Last(trace);
            Last(more) == s.(entries := s.entries[key := FromResult(res, s.topology.ids, rev)])
  {
    var s := Last(trace);
    hide Run, FromResult, KeyFor;
    more := MoveOn(trace, first, Keyed(rev, res, key));
    more := MoveOn(more, first, Checked(rev, res, key));
    var kept := s.(entries := s.entries[key := FromResult(res, s.topology.ids, rev)]);
    var before := Last(more);
    assert kept.readers == before.readers[first := before.readers[first].(at := Answered(rev, res))];
    assert InsertStep(before, kept, first);
    Continue(more, kept);
    more := more + [kept];
  }

  lemma Stamped(res: DistanceResult, ids: map<string, nat>, rev: nat)
    ensures FromResult(res, ids, rev).revision == rev
  {
  }

  /** Two responses to the same query under the current revision are equal. */
  lemma ServedAsAnswered(trace: seq<State>, first: nat, second: nat)
    requires Run(trace) && first in Last(trace).readers && second in Last(trace).readers
    requires Last(trace).readers[first].q == Last(trace).readers[second].q
    requires Last(trace).readers[first].at.Answered? && Last(trace).readers[first].at.rev == Last(trace).revision
    requires Last(trace).readers[second].at.Served? && Last(trace).readers[second].at.rev == Last(trace).revision
    ensures Last(trace).readers[first].at.res == Last(trace).readers[second].at.res
  {
    var s := Last(trace);
    hide Run, WriterInv, EntryOk, ValidTopology, Distance;
    RunKeeps(trace, |trace| - 1);
    assert ReaderInv(s, s.readers[first]) && ReaderInv(s, s.readers[second]);
  }

  /**
   A computed answer whose revision is still current can be put into the cache, and a later
   request with the same query is then served the same answer without computing anything.
   */
  lemma RepeatServed(trace: seq<State>, first: nat, second: nat, rev: nat, res: DistanceResult) returns (more: seq<State>)
    requires Run(trace) && !AdjacencyLocked(Last(trace).writer)
    requires first in Last(trace).readers && Last(trace).readers[first].at == Answered(rev, res)
    requires rev == Last(trace).revision && second !in Last(trace).readers
    requires KeyFor(Last(trace).topology.ids, Last(trace).readers[first].q).Some?
    ensures Run(more) && trace <= more && |more| == |trace| + 12
    ensures second in Last(more).readers && Last(more).readers[second].at.Served? && Last(more).readers[second].at.res == res
    ensures Last(more).readers[second].q == Last(trace).readers[first].q
    ensures Last(more).topology == Last(trace).topology && Last(more).revision == rev
  {
    var s := Last(trace);
    var q := s.readers[first].q;
    var key := KeyFor(s.topology.ids, q).value;
    hide Run, Inv, FromResult, KeyFor, HitStage;
    more := InsertOn(trace, first, rev, res, key);
    Stamped(res, s.topology.ids, rev);
    var kept := Last(more);
    var arrived := kept.(readers := kept.readers[second := Reader(q, kept.revision, Arrived)]);
    assert Arrive(kept, arrived, second, q);
    Continue(more, arrived);
    more := HitServed(more + [arrived], second, key);
    ServedAsAnswered(more, first, second);
  }
}
