/**
 Deadlock freedom. Threads run the store's operations as sequences of acquisitions and
 releases over the connection and mutation mutexes, the ranked read/write locks, and the
 shards of the two concurrent maps.
 */
module Locks {
  import opened Options

  datatype Resource =
    | Connection
    | Mutation
    | Follows
    | Followers
    | Pubkeys
    | NodeInfo
    | Mutes
    | IdShard(n: nat)
    | NameShard(n: nat)

  datatype Mode = Shared | Exclusive

  datatype Action = Acquire(r: Resource, m: Mode) | Release(r: Resource)

  type Held = map<Resource, Mode>

  datatype Thread = Thread(held: Held, todo: seq<Action>)

  type State = map<nat, Thread>

  /** The lock order; two shards of one map are never held together. */
  function Rank(r: Resource): nat {
    match r
    case Connection => 0
    case Mutation => 1
    case Follows => 2
    case Followers => 3
    case Pubkeys => 4
    case NodeInfo => 5
    case Mutes => 6
    case IdShard(_) => 7
    case NameShard(_) => 8
  }

  ghost predicate Below(held: Held, rank: nat) {
    forall r | r in held :: Rank(r) < rank
  }

  /** The locks that must be held exclusively by whoever writes under `r`. */
  function Needs(r: Resource): set<Resource> {
    match r
    case Follows => {Mutation}
    case Followers => {Mutation, Follows}
    case Pubkeys => {Mutation, Follows, Followers}
    case NodeInfo => {Mutation}
    case Mutes => {Mutation}
    case _ => {}
  }

  ghost predicate Holds(held: Held, rs: set<Resource>) {
    forall r | r in rs :: r in held && held[r].Exclusive?
  }

  /** Writers are serialised by the mutation mutex, and lock both adjacency vectors from the forward one on. */
  ghost predicate Disciplined(held: Held) {
    forall r | r in held && held[r].Exclusive? :: Holds(held, Needs(r))
  }

  /** What a thread holds after an action that follows the lock order and the writers' discipline. */
  ghost function Perform(held: Held, a: Action): Option<Held> {
    match a
    case Acquire(r, m) => if Below(held, Rank(r)) && Disciplined(held[r := m]) then Some(held[r := m]) else None
    case Release(r) => if r in held && Disciplined(held - {r}) then Some(held - {r}) else None
  }

  ghost function After(held: Held, todo: seq<Action>): Option<Held>
    decreases |todo|
  {
    if todo == [] then Some(held)
    else
      match Perform(held, todo[0])
      case None => None
      case Some(h) => After(h, todo[1..])
  }

  // ---------- The operations ----------

  /** A guard that lives as long as `body`. */
  function Locked(r: Resource, m: Mode, body: seq<Action>): seq<Action> {
    [Acquire(r, m)] + body + [Release(r)]
  }

  /** One creation: where its key hashes to, and which of the early exits it takes. */
  datatype Creation = Creation(idShard: nat, nameShard: nat, known: bool, raced: bool, interned: bool)

  function Lookup(shard: nat): seq<Action> {
    Locked(IdShard(shard), Shared, [])
  }

  function Lookups(shards: seq<nat>): seq<Action> {
    if shards == [] then [] else Lookup(shards[0]) + Lookups(shards[1..])
  }

  function Intern(c: Creation): seq<Action> {
    Locked(NameShard(c.nameShard), Shared, []) +
    if c.interned then []
    else Locked(NameShard(c.nameShard), Exclusive, []) + Locked(NameShard(c.nameShard), Shared, [])
  }

  function InsertNode(c: Creation): seq<Action> {
    Lookup(c.idShard) + if c.raced then [] else Intern(c) + Locked(IdShard(c.idShard), Exclusive, [])
  }

  function Create(c: Creation): seq<Action> {
    Lookup(c.idShard) +
    if c.known then []
    else Locked(Follows, Exclusive, Locked(Followers, Exclusive,
           Locked(Pubkeys, Exclusive, Locked(NodeInfo, Exclusive, InsertNode(c)))))
  }

  function Creates(cs: seq<Creation>): seq<Action> {
    if cs == [] then [] else Create(cs[0]) + Creates(cs[1..])
  }

  function FollowSections(cs: seq<Creation>): seq<Action> {
    Creates(cs) + Locked(Follows, Shared, []) +
    Locked(Follows, Exclusive, Locked(Followers, Exclusive, [])) + Locked(NodeInfo, Exclusive, [])
  }

  function RestoreNodes(cs: seq<Creation>): seq<Action> {
    Locked(Mutation, Exclusive,
      Creates(cs) + Locked(Follows, Exclusive, Locked(Followers, Exclusive,
                      Locked(NodeInfo, Exclusive, Locked(Mutes, Exclusive, [])))))
  }

  /** Reads of the name vector by `get_pubkey_arc` and `resolve_pubkeys_arc`. */
  function NameReads(count: nat): seq<Action> {
    if count == 0 then [] else Locked(Pubkeys, Shared, []) + NameReads(count - 1)
  }

  datatype Operation =
    | GetOrCreateNode(shard: nat, slow: bool, created: Creation)
    | UpdateFollows(author: Creation, accepted: bool, targets: seq<Creation>)
    | UpdateMutes(author: Creation, accepted: bool, targets: seq<Creation>)
    | PersistBatch
    | LoadGraph(corrupt: bool, nodes: seq<Creation>)
    | Traverse(shards: seq<nat>, bothKnown: bool, resolves: bool)
    | CacheGet(names: nat)
    | CacheInsert(shards: seq<nat>)
    | FollowsPage(shards: seq<nat>, bothKnown: bool)
    | FollowersPage(shard: nat, found: bool)
    | MutesPage(shard: nat, found: bool)
    | MuteEvidence(shards: seq<nat>)
    | ReadInfo(shard: nat, found: bool)
    | Stats

  function Program(op: Operation): seq<Action> {
    match op
    case GetOrCreateNode(shard, slow, c) => Lookup(shard) + if slow then Locked(Mutation, Exclusive, Create(c)) else []
    case UpdateFollows(c, accepted, targets) =>
      Locked(Mutation, Exclusive,
        Create(c) + Locked(NodeInfo, Shared, []) + if accepted then FollowSections(targets) else [])
    case UpdateMutes(c, accepted, targets) =>
      Locked(Mutation, Exclusive,
        Create(c) + Locked(Mutes, Shared, []) +
        if accepted then Creates(targets) + Locked(Mutes, Exclusive, []) else [])
    case PersistBatch => Locked(Connection, Exclusive, [])
    case LoadGraph(corrupt, nodes) => Locked(Connection, Exclusive, if corrupt then [] else RestoreNodes(nodes))
    case Traverse(shards, bothKnown, resolves) =>
      Lookups(shards) +
      if bothKnown then
        Locked(Follows, Shared, Locked(Followers, Shared, if resolves then Locked(Pubkeys, Shared, []) else []))
      else []
    case CacheGet(names) => NameReads(names)
    case CacheInsert(shards) => Lookups(shards)
    case FollowsPage(shards, bothKnown) =>
      Lookups(shards) + if bothKnown then Locked(Follows, Shared, Locked(Pubkeys, Shared, [])) else []
    case FollowersPage(shard, found) =>
      Lookup(shard) + if found then Locked(Followers, Shared, Locked(Pubkeys, Shared, [])) else []
    case MutesPage(shard, found) =>
      Lookup(shard) + if found then Locked(Pubkeys, Shared, Locked(Mutes, Shared, [])) else []
    case MuteEvidence(shards) =>
      Lookups(shards) + Locked(Follows, Shared, Locked(Pubkeys, Shared, Locked(Mutes, Shared, [])))
    case ReadInfo(shard, found) => Lookup(shard) + if found then Locked(NodeInfo, Shared, []) else []
    case Stats => Locked(Follows, Shared, Locked(Pubkeys, Shared, Locked(Mutes, Shared, [])))
  }

  function Programs(ops: seq<Operation>): seq<Action> {
    if ops == [] then [] else Program(ops[0]) + Programs(ops[1..])
  }

  // ---------- The operations follow the order ----------

  /**
   Run by a thread holding only locks below `rank`, and those in `need` exclusively, `p` keeps
   order and discipline and gives everything back.
   */
  ghost predicate Tame(p: seq<Action>, rank: nat, need: set<Resource>) {
    forall held | Below(held, rank) && Disciplined(held) && Holds(held, need) :: After(held, p) == Some(held)
  }

  lemma {:induction false} AfterConcat(held: Held, p: seq<Action>, q: seq<Action>)
    ensures After(held, p).None? ==> After(held, p + q) == None
    ensures After(held, p).Some? ==> After(held, p + q) == After(After(held, p).value, q)
    decreases |p|
  {
    hide Perform;
    if p == [] {
      assert p + q == q;
    } else {
      assert (p + q)[0] == p[0] && (p + q)[1..] == p[1..] + q;
      if Perform(held, p[0]).Some? {
        AfterConcat(Perform(held, p[0]).value, p[1..], q);
      }
    }
  }

  lemma TameConcat(p: seq<Action>, q: seq<Action>, rank: nat, need: set<Resource>)
    requires Tame(p, rank, need) && Tame(q, rank, need)
    ensures Tame(p + q, rank, need)
  {
    hide After, Disciplined, Holds;
    forall held | Below(held, rank) && Disciplined(held) && Holds(held, need) ensures After(held, p + q) == Some(held) {
      AfterConcat(held, p, q);
    }
  }

  lemma TameEmpty(rank: nat, need: set<Resource>)
    ensures Tame([], rank, need)
  {
  }

  lemma AfterOne(held: Held, a: Action)
    ensures After(held, [a]) == Perform(held, a)
  {
    hide Perform;
    if Perform(held, a).Some? {
      assert [a][1..] == [];
    }
  }

  /** Taking `r` on top of what is held keeps the discipline, if what `r` needs is held. */
  lemma DisciplineKept(held: Held, r: Resource, m: Mode)
    requires Disciplined(held) && r !in held && (m.Exclusive? ==> Holds(held, Needs(r)))
    ensures Disciplined(held[r := m])
  {
    forall x | x in held[r := m] && held[r := m][x].Exclusive? ensures Holds(held[r := m], Needs(x)) {
      assert Holds(held, Needs(x));
    }
  }

  /** A guard may be taken wherever everything held ranks below it and what it needs is held. */
  lemma TameLocked(r: Resource, m: Mode, body: seq<Action>, rank: nat, need: set<Resource>, inner: set<Resource>)
    requires rank <= Rank(r) && (m.Exclusive? ==> Needs(r) <= need)
    requires inner <= need + (if m.Exclusive? then {r} else {}) && Tame(body, Rank(r) + 1, inner)
    ensures Tame(Locked(r, m, body), rank, need)
  {
    hide After, Disciplined, Needs;
    forall held | Below(held, rank) && Disciplined(held) && Holds(held, need) ensures After(held, Locked(r, m, body)) == Some(held) {
      var inside := held[r := m];
      assert r !in held;
      assert Below(inside, Rank(r) + 1) && Holds(inside, inner);
      DisciplineKept(held, r, m);
      assert inside - {r} == held;
      AfterOne(held, Acquire(r, m));
      AfterOne(inside, Release(r));
      AfterConcat(held, [Acquire(r, m)], body);
      AfterConcat(held, [Acquire(r, m)] + body, [Release(r)]);
    }
  }

  lemma TameGuard(r: Resource, m: Mode, rank: nat, need: set<Resource>)
    requires rank <= Rank(r) && (m.Exclusive? ==> Needs(r) <= need)
    ensures Tame(Locked(r, m, []), rank, need)
  {
    TameEmpty(Rank(r) + 1, {});
    TameLocked(r, m, [], rank, need, {});
  }

  lemma {:induction false} LookupsTame(shards: seq<nat>, rank: nat)
    requires rank <= 7
    ensures Tame(Lookups(shards), rank, {})
  {
    hide Tame, Locked;
    if shards == [] {
      TameEmpty(rank, {});
    } else {
      TameGuard(IdShard(shards[0]), Shared, rank, {});
      LookupsTame(shards[1..], rank);
      TameConcat(Lookup(shards[0]), Lookups(shards[1..]), rank, {});
    }
  }

  lemma InsertNodeTame(c: Creation)
    ensures Tame(InsertNode(c), 7, {})
  {
    hide Tame, Locked;
    var id, name := IdShard(c.idShard), NameShard(c.nameShard);
    var slow := Locked(name, Exclusive, []) + Locked(name, Shared, []);
    TameEmpty(7, {});
    TameGuard(id, Shared, 7, {});
    TameGuard(id, Exclusive, 7, {});
    TameGuard(name, Shared, 7, {});
    TameGuard(name, Exclusive, 7, {});
    TameConcat(Locked(name, Exclusive, []), Locked(name, Shared, []), 7, {});
    TameConcat(Locked(name, Shared, []), if c.interned then [] else slow, 7, {});
    TameConcat(Intern(c), Locked(id, Exclusive, []), 7, {});
    TameConcat(Lookup(c.idShard), if c.raced then [] else Intern(c) + Locked(id, Exclusive, []), 7, {});
  }

  lemma TameElsewhere(p: seq<Action>, rank: nat, need: set<Resource>, rank': nat, need': set<Resource>)
    requires rank' <= rank && need <= need' && Tame(p, rank, need)
    ensures Tame(p, rank', need')
  {
    forall held | Below(held, rank') && Disciplined(held) && Holds(held, need') ensures After(held, p) == Some(held) {
      assert Below(held, rank) && Holds(held, need);
    }
  }

  /** Four write locks one above the other, as a creation takes them under the mutation mutex. */
  lemma CreateTame(c: Creation)
    ensures Tame(Create(c), 2, {Mutation})
  {
    hide Tame, Locked, InsertNode;
    InsertNodeTame(c);
    TameElsewhere(InsertNode(c), 7, {}, 6, {});
    var info := Locked(NodeInfo, Exclusive, InsertNode(c));
    TameLocked(NodeInfo, Exclusive, InsertNode(c), 5, {Mutation}, {});
    var names := Locked(Pubkeys, Exclusive, info);
    TameLocked(Pubkeys, Exclusive, info, 4, {Mutation, Follows, Followers}, {Mutation});
    var reverse := Locked(Followers, Exclusive, names);
    TameLocked(Followers, Exclusive, names, 3, {Mutation, Follows}, {Mutation, Follows, Followers});
    TameLocked(Follows, Exclusive, reverse, 2, {Mutation}, {Mutation, Follows});
    TameEmpty(2, {Mutation});
    TameGuard(IdShard(c.idShard), Shared, 2, {Mutation});
    TameConcat(Lookup(c.idShard), if c.known then [] else Locked(Follows, Exclusive, reverse), 2, {Mutation});
  }

  lemma {:induction false} CreatesTame(cs: seq<Creation>)
    ensures Tame(Creates(cs), 2, {Mutation})
  {
    hide Tame, Create;
    if cs == [] {
      TameEmpty(2, {Mutation});
    } else {
      CreateTame(cs[0]);
      CreatesTame(cs[1..]);
      TameConcat(Create(cs[0]), Creates(cs[1..]), 2, {Mutation});
    }
  }

  lemma FollowSectionsTame(cs: seq<Creation>)
    ensures Tame(FollowSections(cs), 2, {Mutation})
  {
    hide Tame, Locked, Creates;
    var read, swap := Locked(Follows, Shared, []), Locked(Follows, Exclusive, Locked(Followers, Exclusive, []));
    CreatesTame(cs);
    TameGuard(Follows, Shared, 2, {Mutation});
    TameGuard(Followers, Exclusive, 3, {Mutation, Follows});
    TameLocked(Follows, Exclusive, Locked(Followers, Exclusive, []), 2, {Mutation}, {Mutation, Follows});
    TameGuard(NodeInfo, Exclusive, 2, {Mutation});
    TameConcat(Creates(cs), read, 2, {Mutation});
    TameConcat(Creates(cs) + read, swap, 2, {Mutation});
    TameConcat(Creates(cs) + read + swap, Locked(NodeInfo, Exclusive, []), 2, {Mutation});
  }

  lemma RestoreNodesTame(cs: seq<Creation>)
    ensures Tame(RestoreNodes(cs), 1, {})
  {
    hide Tame, Locked, Creates;
    CreatesTame(cs);
    TameGuard(Mutes, Exclusive, 6, {Mutation});
    var info := Locked(NodeInfo, Exclusive, Locked(Mutes, Exclusive, []));
    TameLocked(NodeInfo, Exclusive, Locked(Mutes, Exclusive, []), 4, {Mutation}, {Mutation});
    TameLocked(Followers, Exclusive, info, 3, {Mutation, Follows}, {Mutation});
    TameLocked(Follows, Exclusive, Locked(Followers, Exclusive, info), 2, {Mutation}, {Mutation, Follows});
    TameConcat(Creates(cs), Locked(Follows, Exclusive, Locked(Followers, Exclusive, info)), 2, {Mutation});
    TameLocked(Mutation, Exclusive, Creates(cs) + Locked(Follows, Exclusive, Locked(Followers, Exclusive, info)), 1, {}, {Mutation});
  }

  lemma WritersTame(op: Operation)
    requires op.GetOrCreateNode? || op.UpdateFollows? || op.UpdateMutes? || op.PersistBatch? || op.LoadGraph?
    ensures Tame(Program(op), 0, {})
  {
    hide Tame, Locked, Create, Creates, FollowSections, RestoreNodes;
    TameEmpty(0, {});
    TameEmpty(1, {});
    TameEmpty(2, {Mutation});
    match op
    case GetOrCreateNode(shard, slow, c) =>
      CreateTame(c);
      TameGuard(IdShard(shard), Shared, 0, {});
      TameLocked(Mutation, Exclusive, Create(c), 0, {}, {Mutation});
      TameConcat(Lookup(shard), if slow then Locked(Mutation, Exclusive, Create(c)) else [], 0, {});
    case UpdateFollows(c, accepted, targets) =>
      var rest := if accepted then FollowSections(targets) else [];
      CreateTame(c);
      TameGuard(NodeInfo, Shared, 2, {Mutation});
      FollowSectionsTame(targets);
      TameConcat(Create(c), Locked(NodeInfo, Shared, []), 2, {Mutation});
      TameConcat(Create(c) + Locked(NodeInfo, Shared, []), rest, 2, {Mutation});
      TameLocked(Mutation, Exclusive, Create(c) + Locked(NodeInfo, Shared, []) + rest, 0, {}, {Mutation});
    case UpdateMutes(c, accepted, targets) =>
      var rest := if accepted then Creates(targets) + Locked(Mutes, Exclusive, []) else [];
      CreateTame(c);
      CreatesTame(targets);
      TameGuard(Mutes, Shared, 2, {Mutation});
      TameGuard(Mutes, Exclusive, 2, {Mutation});
      TameConcat(Creates(targets), Locked(Mutes, Exclusive, []), 2, {Mutation});
      TameConcat(Create(c), Locked(Mutes, Shared, []), 2, {Mutation});
      TameConcat(Create(c) + Locked(Mutes, Shared, []), rest, 2, {Mutation});
      TameLocked(Mutation, Exclusive, Create(c) + Locked(Mutes, Shared, []) + rest, 0, {}, {Mutation});
    case PersistBatch =>
      TameGuard(Connection, Exclusive, 0, {});
    case LoadGraph(corrupt, nodes) =>
      RestoreNodesTame(nodes);
      TameLocked(Connection, Exclusive, if corrupt then [] else RestoreNodes(nodes), 0, {}, {});
  }

  lemma {:induction false} NameReadsTame(count: nat)
    ensures Tame(NameReads(count), 0, {})
  {
    hide Tame, Locked;
    if count == 0 {
      TameEmpty(0, {});
    } else {
      TameGuard(Pubkeys, Shared, 0, {});
      NameReadsTame(count - 1);
      TameConcat(Locked(Pubkeys, Shared, []), NameReads(count - 1), 0, {});
    }
  }

  /** Two or three read locks one above the other. */
  lemma ReadNestsTame()
    ensures Tame(Locked(Follows, Shared, Locked(Followers, Shared, Locked(Pubkeys, Shared, []))), 0, {})
    ensures Tame(Locked(Follows, Shared, Locked(Followers, Shared, [])), 0, {})
    ensures Tame(Locked(Follows, Shared, Locked(Pubkeys, Shared, [])), 0, {})
    ensures Tame(Locked(Followers, Shared, Locked(Pubkeys, Shared, [])), 0, {})
    ensures Tame(Locked(Pubkeys, Shared, Locked(Mutes, Shared, [])), 0, {})
    ensures Tame(Locked(Follows, Shared, Locked(Pubkeys, Shared, Locked(Mutes, Shared, []))), 0, {})
    ensures Tame(Locked(NodeInfo, Shared, []), 0, {})
  {
    hide Tame, Locked;
    TameGuard(NodeInfo, Shared, 0, {});
    TameGuard(Pubkeys, Shared, 4, {});
    TameGuard(Pubkeys, Shared, 3, {});
    TameGuard(Followers, Shared, 3, {});
    TameGuard(Mutes, Shared, 5, {});
    var names, both := Locked(Pubkeys, Shared, []), Locked(Pubkeys, Shared, Locked(Mutes, Shared, []));
    TameLocked(Followers, Shared, names, 3, {}, {});
    TameLocked(Followers, Shared, names, 0, {}, {});
    TameLocked(Follows, Shared, Locked(Followers, Shared, names), 0, {}, {});
    TameLocked(Follows, Shared, Locked(Followers, Shared, []), 0, {}, {});
    TameLocked(Follows, Shared, names, 0, {}, {});
    TameLocked(Pubkeys, Shared, Locked(Mutes, Shared, []), 3, {}, {});
    TameLocked(Pubkeys, Shared, Locked(Mutes, Shared, []), 0, {}, {});
    TameLocked(Follows, Shared, both, 0, {}, {});
  }

  /** Lookups first, then some nest of read locks, or none when a key is unknown. */
  lemma LookupsThen(shards: seq<nat>, rest: seq<Action>)
    requires Tame(rest, 0, {})
    ensures Tame(Lookups(shards) + rest, 0, {})
  {
    hide Tame, Lookups;
    LookupsTame(shards, 0);
    TameConcat(Lookups(shards), rest, 0, {});
  }

  lemma LookupThen(shard: nat, rest: seq<Action>)
    requires Tame(rest, 0, {})
    ensures Tame(Lookup(shard) + rest, 0, {})
  {
    hide Tame, Locked;
    TameGuard(IdShard(shard), Shared, 0, {});
    TameConcat(Lookup(shard), rest, 0, {});
  }

  /** Every operation of the store takes its locks in the documented order. */
  lemma OperationsTame(op: Operation)
    ensures Tame(Program(op), 0, {})
  {
    hide Tame, Locked, Lookups, Lookup, NameReads, Create, Creates, FollowSections, RestoreNodes;
    TameEmpty(0, {});
    ReadNestsTame();
    match op
    case Traverse(shards, known, resolves) =>
      LookupsThen(shards, if known then
        Locked(Follows, Shared, Locked(Followers, Shared, if resolves then Locked(Pubkeys, Shared, []) else [])) else []);
    case CacheGet(names) => NameReadsTame(names);
    case CacheInsert(shards) => LookupsTame(shards, 0);
    case FollowsPage(shards, known) =>
      LookupsThen(shards, if known then Locked(Follows, Shared, Locked(Pubkeys, Shared, [])) else []);
    case FollowersPage(shard, found) =>
      LookupThen(shard, if found then Locked(Followers, Shared, Locked(Pubkeys, Shared, [])) else []);
    case MutesPage(shard, found) =>
      LookupThen(shard, if found then Locked(Pubkeys, Shared, Locked(Mutes, Shared, [])) else []);
    case MuteEvidence(shards) =>
      LookupsThen(shards, Locked(Follows, Shared, Locked(Pubkeys, Shared, Locked(Mutes, Shared, []))));
    case ReadInfo(shard, found) =>
      LookupThen(shard, if found then Locked(NodeInfo, Shared, []) else []);
    case Stats =>
    case _ => WritersTame(op);
  }

  lemma {:induction false} ProgramsTame(ops: seq<Operation>)
    ensures Tame(Programs(ops), 0, {})
  {
    hide Tame, Program;
    if ops == [] {
      TameEmpty(0, {});
    } else {
      OperationsTame(ops[0]);
      ProgramsTame(ops[1..]);
      TameConcat(Program(ops[0]), Programs(ops[1..]), 0, {});
    }
  }

  // ---------- Steps ----------

  /** No other holder stands in the way. */
  ghost predicate Grantable(s: State, r: Resource, m: Mode) {
    forall j | j in s && r in s[j].held :: m.Shared? && s[j].held[r].Shared?
  }

  ghost predicate WriterWaits(s: State, r: Resource) {
    exists j :: j in s && s[j].todo != [] && s[j].todo[0] == Acquire(r, Exclusive)
  }

  /** A lock may be granted as soon as no holder forbids it. */
  ghost predicate Enabled(s: State, i: nat) {
    && i in s && s[i].todo != []
    && (s[i].todo[0].Acquire? ==> Grantable(s, s[i].todo[0].r, s[i].todo[0].m))
  }

  /** A lock that always prefers writers keeps readers out while one waits. */
  ghost predicate Ready(s: State, i: nat) {
    && Enabled(s, i)
    && (s[i].todo[0].Acquire? && s[i].todo[0].m.Shared? ==> !WriterWaits(s, s[i].todo[0].r))
  }

  function Advanced(th: Thread): Thread
    requires th.todo != []
  {
    match th.todo[0]
    case Acquire(r, m) => Thread(th.held[r := m], th.todo[1..])
    case Release(r) => Thread(th.held - {r}, th.todo[1..])
  }

  /** Steps are those of the most permissive lock, so that they include every real policy. */
  ghost predicate Act(s: State, s': State, i: nat) {
    Enabled(s, i) && s' == s[i := Advanced(s[i])]
  }

  /** A new thread starts to run some operations, one after the other. */
  ghost predicate Arrive(s: State, s': State, i: nat, ops: seq<Operation>) {
    i !in s && s' == s[i := Thread(map[], Programs(ops))]
  }

  ghost predicate Moves(s: State, s': State) {
    exists i :: Act(s, s', i)
  }

  ghost predicate Step(s: State, s': State) {
    Moves(s, s') || (exists i, ops :: Arrive(s, s', i, ops))
  }

  ghost predicate Exclusion(s: State) {
    forall i, j, r | i in s && j in s && i != j && r in s[i].held && r in s[j].held ::
      s[i].held[r].Shared? && s[j].held[r].Shared?
  }

  ghost predicate InOrder(th: Thread) {
    Disciplined(th.held) && After(th.held, th.todo) == Some(map[])
  }

  ghost predicate Inv(s: State) {
    Exclusion(s) && forall i | i in s :: InOrder(s[i])
  }

  lemma AdvanceInOrder(th: Thread)
    requires th.todo != [] && InOrder(th)
    ensures InOrder(Advanced(th))
  {
  }

  lemma ActKeeps(s: State, s': State, i: nat)
    requires Inv(s) && Act(s, s', i)
    ensures Inv(s')
  {
    hide InOrder;
    AdvanceInOrder(s[i]);
  }

  lemma ArriveKeeps(s: State, s': State, i: nat, ops: seq<Operation>)
    requires Inv(s) && Arrive(s, s', i, ops)
    ensures Inv(s')
  {
    hide Programs;
    ProgramsTame(ops);
    assert Below(map[], 0);
  }

  lemma StepKeeps(s: State, s': State)
    requires Inv(s) && Step(s, s')
    ensures Inv(s')
  {
    hide Inv, Act, Arrive;
    if i :| Act(s, s', i) {
      ActKeeps(s, s', i);
    } else {
      var i, ops :| Arrive(s, s', i, ops);
      ArriveKeeps(s, s', i, ops);
    }
  }

  // ---------- Progress ----------

  ghost predicate Unfinished(s: State, i: nat) {
    i in s && s[i].todo != []
  }

  /** Thread `top` asks for a lock of the highest rank anybody asks for. */
  ghost predicate AsksHighest(s: State, top: nat) {
    && Unfinished(s, top) && s[top].todo[0].Acquire?
    && forall j | Unfinished(s, j) && s[j].todo[0].Acquire? :: Rank(s[j].todo[0].r) <= Rank(s[top].todo[0].r)
  }

  lemma {:induction false} HighestRequest(s: State, i: nat)
    requires Unfinished(s, i) && s[i].todo[0].Acquire?
    ensures exists top :: AsksHighest(s, top)
    decreases 8 - Rank(s[i].todo[0].r)
  {
    if !AsksHighest(s, i) {
      var j :| Unfinished(s, j) && s[j].todo[0].Acquire? && Rank(s[j].todo[0].r) > Rank(s[i].todo[0].r);
      HighestRequest(s, j);
    }
  }

  /** Whoever holds a lock has not finished, and asks only for locks above it. */
  lemma HolderAsksAbove(th: Thread, r: Resource)
    requires InOrder(th) && r in th.held
    ensures th.todo != [] && (th.todo[0].Acquire? ==> Rank(th.todo[0].r) > Rank(r))
  {
  }

  /** If nobody can release, the highest lock asked for is free. */
  lemma HighestIsFree(s: State, top: nat, j: nat)
    requires Inv(s) && AsksHighest(s, top) && forall i | Unfinished(s, i) :: s[i].todo[0].Acquire?
    requires j in s
    ensures s[top].todo[0].r !in s[j].held
  {
    hide InOrder;
    var r := s[top].todo[0].r;
    if r in s[j].held {
      HolderAsksAbove(s[j], r);
      assert false;
    }
  }

  /** Some thread can go on, even if waiting writers keep readers out. */
  lemma Progress(s: State, i: nat)
    requires Inv(s) && Unfinished(s, i)
    ensures exists j :: Ready(s, j)
  {
    hide InOrder;
    if j :| Unfinished(s, j) && s[j].todo[0].Release? {
      assert Ready(s, j);
    } else {
      HighestRequest(s, i);
      var top :| AsksHighest(s, top);
      forall j | j in s ensures s[top].todo[0].r !in s[j].held {
        HighestIsFree(s, top, j);
      }
      var r := s[top].todo[0].r;
      if WriterWaits(s, r) {
        var w :| w in s && s[w].todo != [] && s[w].todo[0] == Acquire(r, Exclusive);
        assert Ready(s, w);
      } else {
        assert Ready(s, top);
      }
    }
  }

  // ---------- Whole runs ----------

  ghost predicate StepAt(trace: seq<State>, i: nat)
    requires i + 1 < |trace|
  {
    Step(trace[i], trace[i + 1])
  }

  ghost predicate Run(trace: seq<State>) {
    trace != [] && trace[0] == map[] && forall i: nat | i < |trace| - 1 :: StepAt(trace, i)
  }

  lemma NobodyThere(s: State)
    requires s == map[]
    ensures Inv(s)
  {
  }

  lemma {:induction false} RunKeeps(trace: seq<State>, k: nat)
    requires Run(trace) && k < |trace|
    ensures Inv(trace[k])
    decreases k
  {
    hide Inv, Step;
    if k == 0 {
      NobodyThere(trace[0]);
    } else {
      RunKeeps(trace, k - 1);
      assert StepAt(trace, k - 1);
      StepKeeps(trace[k - 1], trace[k]);
    }
  }

  /** Deadlock freedom: in every reachable state with an unfinished operation, some thread can go on. */
  lemma NoDeadlock(trace: seq<State>, k: nat, i: nat)
    requires Run(trace) && k < |trace| && Unfinished(trace[k], i)
    ensures exists j :: Ready(trace[k], j)
  {
    hide Run, Inv, Unfinished, Ready;
    RunKeeps(trace, k);
    Progress(trace[k], i);
  }

  /** A reachable writer is alone: nobody else holds its lock in any mode. */
  lemma WritersAlone(trace: seq<State>, k: nat, i: nat, j: nat, r: Resource)
    requires Run(trace) && k < |trace| && i in trace[k] && j in trace[k] && i != j
    requires r in trace[k][i].held && trace[k][i].held[r].Exclusive?
    ensures r !in trace[k][j].held
  {
    hide Run, InOrder;
    RunKeeps(trace, k);
  }

  lemma WritesUnderMutex(held: Held, r: Resource)
    requires Disciplined(held) && r in held && r in {Follows, Followers, Pubkeys, NodeInfo, Mutes}
    ensures held[r].Exclusive? ==> Mutation in held && held[Mutation].Exclusive?
    ensures held[r].Exclusive? && r == Followers ==> Holds(held, {Follows})
    ensures held[r].Exclusive? && r == Pubkeys ==> Holds(held, {Follows, Followers})
  {
    assert held[r].Exclusive? ==> Holds(held, Needs(r));
  }

  /**
   Writers are serialised: who holds one of the graph's locks for writing holds the mutation
   mutex, and the locks of both adjacency vectors as far as it writes them; nobody else writes.
   */
  lemma OneWriter(trace: seq<State>, k: nat, i: nat, r: Resource)
    requires Run(trace) && k < |trace| && i in trace[k] && r in trace[k][i].held && trace[k][i].held[r].Exclusive?
    requires r in {Follows, Followers, Pubkeys, NodeInfo, Mutes}
    ensures Holds(trace[k][i].held, {Mutation})
    ensures r == Followers ==> Holds(trace[k][i].held, {Follows})
    ensures r == Pubkeys ==> Holds(trace[k][i].held, {Follows, Followers})
    ensures forall j, x | j in trace[k] && j != i && x in trace[k][j].held && x in {Follows, Followers, Pubkeys, NodeInfo, Mutes} ::
              trace[k][j].held[x].Shared?
  {
    hide Run, After, Disciplined;
    RunKeeps(trace, k);
    assert InOrder(trace[k][i]);
    WritesUnderMutex(trace[k][i].held, r);
    forall j, x | j in trace[k] && j != i && x in trace[k][j].held && x in {Follows, Followers, Pubkeys, NodeInfo, Mutes}
      ensures trace[k][j].held[x].Shared?
    {
      assert InOrder(trace[k][j]);
      WritesUnderMutex(trace[k][j].held, x);
    }
  }

  // ---------- The sections that writers and readers go through ----------

  /** Started with `held`, `p` comes to a point where exactly `there` is held. */
  ghost predicate Passes(held: Held, p: seq<Action>, there: Held) {
    exists n :: 0 <= n <= |p| && After(held, p[..n]) == Some(there)
  }

  lemma PassesFirst(held: Held, p: seq<Action>, q: seq<Action>, there: Held)
    requires Passes(held, p, there)
    ensures Passes(held, p + q, there)
  {
    hide After;
    var n :| 0 <= n <= |p| && After(held, p[..n]) == Some(there);
    assert (p + q)[..n] == p[..n];
  }

  lemma PassesSecond(held: Held, p: seq<Action>, q: seq<Action>, between: Held, there: Held)
    requires After(held, p) == Some(between) && Passes(between, q, there)
    ensures Passes(held, p + q, there)
  {
    hide After;
    var n :| 0 <= n <= |q| && After(between, q[..n]) == Some(there);
    AfterConcat(held, p, q[..n]);
    assert (p + q)[..|p| + n] == p + q[..n];
  }

  lemma PassesInside(held: Held, r: Resource, m: Mode, body: seq<Action>, there: Held)
    requires Below(held, Rank(r)) && Disciplined(held[r := m]) && Passes(held[r := m], body, there)
    ensures Passes(held, Locked(r, m, body), there)
  {
    hide After, Below, Disciplined;
    AfterOne(held, Acquire(r, m));
    PassesSecond(held, [Acquire(r, m)], body, held[r := m], there);
    PassesFirst(held, [Acquire(r, m)] + body, [Release(r)], there);
  }

  lemma PassesHere(held: Held, p: seq<Action>)
    ensures Passes(held, p, held)
  {
    assert p[..0] == [];
    assert After(held, p[..0]) == Some(held);
  }

  /** A guard within a guard comes to hold both. */
  lemma PassesBoth(held: Held, r: Resource, r': Resource, m: Mode, rest: seq<Action>)
    requires Below(held, Rank(r)) && Rank(r) < Rank(r') && Disciplined(held[r := m]) && Disciplined(held[r := m][r' := m])
    ensures Passes(held, Locked(r, m, Locked(r', m, rest)), held[r := m][r' := m])
  {
    hide Disciplined, Locked;
    PassesHere(held[r := m][r' := m], rest);
    PassesInside(held[r := m], r', m, rest, held[r := m][r' := m]);
    PassesInside(held, r, m, Locked(r', m, rest), held[r := m][r' := m]);
  }

  const WRITING: Held := map[Mutation := Exclusive]

  /** An accepted follow list is written under the mutex and both adjacency locks. */
  lemma FollowsWrittenLocked(c: Creation, targets: seq<Creation>)
    ensures Passes(map[], Program(UpdateFollows(c, true, targets)), WRITING[Follows := Exclusive][Followers := Exclusive])
  {
    hide After, Create, Creates, Locked, Passes;
    var both := WRITING[Follows := Exclusive][Followers := Exclusive];
    var read, swap := Locked(Follows, Shared, []), Locked(Follows, Exclusive, Locked(Followers, Exclusive, []));
    var check := Locked(NodeInfo, Shared, []);
    CreateTame(c);
    CreatesTame(targets);
    TameGuard(NodeInfo, Shared, 2, {Mutation});
    TameGuard(Follows, Shared, 2, {Mutation});
    TameConcat(Create(c), check, 2, {Mutation});
    TameConcat(Creates(targets), read, 2, {Mutation});
    assert Below(WRITING, 2) && Disciplined(WRITING) && Holds(WRITING, {Mutation});
    PassesBoth(WRITING, Follows, Followers, Exclusive, []);
    PassesSecond(WRITING, Creates(targets) + read, swap, WRITING, both);
    PassesFirst(WRITING, Creates(targets) + read + swap, Locked(NodeInfo, Exclusive, []), both);
    PassesSecond(WRITING, Create(c) + check, FollowSections(targets), WRITING, both);
    PassesInside(map[], Mutation, Exclusive, Create(c) + check + FollowSections(targets), both);
  }

  /** An accepted mute list is written under the mutex and the lock of the mute lists. */
  lemma MutesWrittenLocked(c: Creation, targets: seq<Creation>)
    ensures Passes(map[], Program(UpdateMutes(c, true, targets)), WRITING[Mutes := Exclusive])
  {
    hide After, Create, Creates, Locked, Passes;
    var check := Locked(Mutes, Shared, []);
    CreateTame(c);
    CreatesTame(targets);
    TameGuard(Mutes, Shared, 2, {Mutation});
    TameConcat(Create(c), check, 2, {Mutation});
    assert Below(WRITING, 2) && Disciplined(WRITING) && Holds(WRITING, {Mutation});
    PassesHere(WRITING[Mutes := Exclusive], []);
    PassesInside(WRITING, Mutes, Exclusive, [], WRITING[Mutes := Exclusive]);
    PassesSecond(WRITING, Creates(targets), Locked(Mutes, Exclusive, []), WRITING, WRITING[Mutes := Exclusive]);
    PassesSecond(WRITING, Create(c) + check, Creates(targets) + Locked(Mutes, Exclusive, []), WRITING, WRITING[Mutes := Exclusive]);
    PassesInside(map[], Mutation, Exclusive, Create(c) + check + (Creates(targets) + Locked(Mutes, Exclusive, [])),
                 WRITING[Mutes := Exclusive]);
  }

  /** A batch is written with the connection held. */
  lemma BatchWrittenLocked()
    ensures Passes(map[], Program(PersistBatch), map[Connection := Exclusive])
  {
    var none: Held := map[];
    var connected := none[Connection := Exclusive];
    PassesHere(connected, []);
    DisciplineKept(none, Connection, Exclusive);
    PassesInside(none, Connection, Exclusive, [], connected);
    assert connected == map[Connection := Exclusive];
  }

  lemma CreationDiscipline()
    ensures Below(map[], 0) && Disciplined(map[]) && Disciplined(WRITING) && Below(WRITING, 2)
    ensures Disciplined(WRITING[Follows := Exclusive]) && Below(WRITING[Follows := Exclusive], 3)
    ensures var both := WRITING[Follows := Exclusive][Followers := Exclusive];
            && Disciplined(both) && Below(both, 4) && Disciplined(both[Pubkeys := Exclusive])
            && Disciplined(both[Pubkeys := Exclusive][NodeInfo := Exclusive])
  {
    var none: Held := map[];
    DisciplineKept(none, Mutation, Exclusive);
    DisciplineKept(WRITING, Follows, Exclusive);
    DisciplineKept(WRITING[Follows := Exclusive], Followers, Exclusive);
    var both := WRITING[Follows := Exclusive][Followers := Exclusive];
    DisciplineKept(both, Pubkeys, Exclusive);
    DisciplineKept(both[Pubkeys := Exclusive], NodeInfo, Exclusive);
  }

  /** A node is created under the mutex and all four locks of the vectors that grow. */
  lemma NodeCreatedLocked(shard: nat, c: Creation)
    requires !c.known
    ensures Passes(map[], Program(GetOrCreateNode(shard, true, c)),
                   WRITING[Follows := Exclusive][Followers := Exclusive][Pubkeys := Exclusive][NodeInfo := Exclusive])
  {
    hide After, Locked, Passes, InsertNode;
    var both := WRITING[Follows := Exclusive][Followers := Exclusive];
    var all := both[Pubkeys := Exclusive][NodeInfo := Exclusive];
    var names := Locked(Pubkeys, Exclusive, Locked(NodeInfo, Exclusive, InsertNode(c)));
    CreationDiscipline();
    hide Disciplined, Needs;
    PassesBoth(both, Pubkeys, NodeInfo, Exclusive, InsertNode(c));
    PassesInside(WRITING[Follows := Exclusive], Followers, Exclusive, names, all);
    PassesInside(WRITING, Follows, Exclusive, Locked(Followers, Exclusive, names), all);
    TameGuard(IdShard(c.idShard), Shared, 0, {});
    TameGuard(IdShard(shard), Shared, 0, {});
    TameElsewhere(Lookup(c.idShard), 7, {}, 2, {}) by { TameGuard(IdShard(c.idShard), Shared, 7, {}); }
    PassesSecond(WRITING, Lookup(c.idShard), Locked(Follows, Exclusive, Locked(Followers, Exclusive, names)), WRITING, all);
    PassesInside(map[], Mutation, Exclusive, Create(c), all);
    PassesSecond(map[], Lookup(shard), Locked(Mutation, Exclusive, Create(c)), map[], all);
  }

  /** A search holds both adjacency locks for reading. */
  lemma TraversedLocked(shards: seq<nat>, resolves: bool)
    ensures Passes(map[], Program(Traverse(shards, true, resolves)), map[Follows := Shared, Followers := Shared])
  {
    hide After, Locked, Passes, Lookups;
    var rest := if resolves then Locked(Pubkeys, Shared, []) else [];
    var none: Held := map[];
    assert none[Follows := Shared][Followers := Shared] == map[Follows := Shared, Followers := Shared];
    assert Below(none, 0) && Disciplined(none);
    PassesBoth(none, Follows, Followers, Shared, rest);
    LookupsTame(shards, 0);
    PassesSecond(none, Lookups(shards), Locked(Follows, Shared, Locked(Followers, Shared, rest)), none,
                 map[Follows := Shared, Followers := Shared]);
  }

  lemma MergeDiscipline()
    ensures var none: Held := map[];
            var connected := none[Connection := Exclusive];
            var writing := connected[Mutation := Exclusive];
            var both := writing[Follows := Exclusive][Followers := Exclusive];
            && Disciplined(none) && Disciplined(connected) && Disciplined(writing) && Holds(writing, {Mutation})
            && Disciplined(writing[Follows := Exclusive]) && Disciplined(both)
            && Disciplined(both[NodeInfo := Exclusive]) && Disciplined(both[NodeInfo := Exclusive][Mutes := Exclusive])
  {
    var none: Held := map[];
    var connected := none[Connection := Exclusive];
    var writing := connected[Mutation := Exclusive];
    var both := writing[Follows := Exclusive][Followers := Exclusive];
    DisciplineKept(none, Connection, Exclusive);
    DisciplineKept(connected, Mutation, Exclusive);
    DisciplineKept(writing, Follows, Exclusive);
    DisciplineKept(writing[Follows := Exclusive], Followers, Exclusive);
    DisciplineKept(both, NodeInfo, Exclusive);
    DisciplineKept(both[NodeInfo := Exclusive], Mutes, Exclusive);
  }

  /** A snapshot is merged under the connection, the mutex and every lock but the names'. */
  lemma SnapshotMergedLocked(nodes: seq<Creation>)
    ensures Passes(map[], Program(LoadGraph(false, nodes)),
                   map[Connection := Exclusive, Mutation := Exclusive, Follows := Exclusive, Followers := Exclusive,
                       NodeInfo := Exclusive, Mutes := Exclusive])
  {
    MergeDiscipline();
    hide After, Locked, Passes, Creates, Disciplined, Needs;
    var none: Held := map[];
    var connected := none[Connection := Exclusive];
    var writing := connected[Mutation := Exclusive];
    var both := writing[Follows := Exclusive][Followers := Exclusive];
    var all := both[NodeInfo := Exclusive][Mutes := Exclusive];
    var merge := Locked(NodeInfo, Exclusive, Locked(Mutes, Exclusive, []));
    assert all == map[Connection := Exclusive, Mutation := Exclusive, Follows := Exclusive, Followers := Exclusive,
                      NodeInfo := Exclusive, Mutes := Exclusive];
    CreatesTame(nodes);
    PassesBoth(both, NodeInfo, Mutes, Exclusive, []);
    PassesInside(writing[Follows := Exclusive], Followers, Exclusive, merge, all);
    PassesInside(writing, Follows, Exclusive, Locked(Followers, Exclusive, merge), all);
    PassesSecond(writing, Creates(nodes), Locked(Follows, Exclusive, Locked(Followers, Exclusive, merge)), writing, all);
    PassesInside(connected, Mutation, Exclusive, Creates(nodes) + Locked(Follows, Exclusive, Locked(Followers, Exclusive, merge)), all);
    PassesInside(none, Connection, Exclusive, RestoreNodes(nodes), all);
  }

  lemma SharedDisciplined()
    ensures forall held: Held | (forall r | r in held :: held[r].Shared?) :: Disciplined(held)
  {
  }

  lemma AfterLookups(shards: seq<nat>, p: seq<Action>, there: Held)
    requires Passes(map[], p, there)
    ensures Passes(map[], Lookups(shards) + p, there)
  {
    hide After, Passes, Lookups;
    LookupsTame(shards, 0);
    assert Below(map[], 0) && Disciplined(map[]);
    PassesSecond(map[], Lookups(shards), p, map[], there);
  }

  lemma AfterLookup(shard: nat, p: seq<Action>, there: Held)
    requires Passes(map[], p, there)
    ensures Passes(map[], Lookup(shard) + p, there)
  {
    hide After, Passes, Locked;
    TameGuard(IdShard(shard), Shared, 0, {});
    assert Below(map[], 0) && Disciplined(map[]);
    PassesSecond(map[], Lookup(shard), p, map[], there);
  }

  lemma ReadBoth(r: Resource, r': Resource)
    requires Rank(r) < Rank(r')
    ensures Passes(map[], Locked(r, Shared, Locked(r', Shared, [])), map[r := Shared, r' := Shared])
  {
    hide After, Locked, Passes, Disciplined;
    var none: Held := map[];
    SharedDisciplined();
    PassesBoth(none, r, r', Shared, []);
    assert none[r := Shared][r' := Shared] == map[r := Shared, r' := Shared];
  }

  /** The pages of lists are read under the lock of the list and that of the names. */
  lemma PagesLocked(shards: seq<nat>, shard: nat)
    ensures Passes(map[], Program(FollowsPage(shards, true)), map[Follows := Shared, Pubkeys := Shared])
    ensures Passes(map[], Program(FollowersPage(shard, true)), map[Followers := Shared, Pubkeys := Shared])
    ensures Passes(map[], Program(MutesPage(shard, true)), map[Pubkeys := Shared, Mutes := Shared])
  {
    hide After, Locked, Passes, Lookups, Disciplined;
    ReadBoth(Follows, Pubkeys);
    ReadBoth(Followers, Pubkeys);
    ReadBoth(Pubkeys, Mutes);
    AfterLookups(shards, Locked(Follows, Shared, Locked(Pubkeys, Shared, [])), map[Follows := Shared, Pubkeys := Shared]);
    AfterLookup(shard, Locked(Followers, Shared, Locked(Pubkeys, Shared, [])), map[Followers := Shared, Pubkeys := Shared]);
    AfterLookup(shard, Locked(Pubkeys, Shared, Locked(Mutes, Shared, [])), map[Pubkeys := Shared, Mutes := Shared]);
  }

  /** Mute evidence and statistics are read under all three locks they touch. */
  lemma EvidenceLocked(shards: seq<nat>)
    ensures Passes(map[], Program(MuteEvidence(shards)), map[Follows := Shared, Pubkeys := Shared, Mutes := Shared])
    ensures Passes(map[], Program(Stats), map[Follows := Shared, Pubkeys := Shared, Mutes := Shared])
  {
    hide After, Locked, Passes, Lookups, Disciplined;
    var none: Held := map[];
    var all: Held := map[Follows := Shared, Pubkeys := Shared, Mutes := Shared];
    var nest := Locked(Pubkeys, Shared, Locked(Mutes, Shared, []));
    SharedDisciplined();
    PassesBoth(none[Follows := Shared], Pubkeys, Mutes, Shared, []);
    assert none[Follows := Shared][Pubkeys := Shared][Mutes := Shared] == all;
    PassesInside(none, Follows, Shared, nest, all);
    AfterLookups(shards, Locked(Follows, Shared, nest), all);
  }

  lemma SingleReadsLocked(shard: nat, count: nat)
    ensures Passes(map[], Program(ReadInfo(shard, true)), map[NodeInfo := Shared])
    ensures count > 0 ==> Passes(map[], Program(CacheGet(count)), map[Pubkeys := Shared])
  {
    hide After, Locked, Passes, Disciplined;
    var none: Held := map[];
    SharedDisciplined();
    PassesHere(none[NodeInfo := Shared], []);
    PassesInside(none, NodeInfo, Shared, [], none[NodeInfo := Shared]);
    AfterLookup(shard, Locked(NodeInfo, Shared, []), map[NodeInfo := Shared]);
    if count > 0 {
      PassesHere(none[Pubkeys := Shared], []);
      PassesInside(none, Pubkeys, Shared, [], none[Pubkeys := Shared]);
      PassesFirst(none, Locked(Pubkeys, Shared, []), NameReads(count - 1), none[Pubkeys := Shared]);
    }
  }

  // ---------- Everything finishes ----------

  ghost function Work(s: State): nat {
    if s == map[] then 0
    else
      var i :| i in s;
      |s[i].todo| + Work(s - {i})
  }

  lemma {:induction false} WorkSplit(s: State, j: nat)
    requires j in s
    ensures Work(s) == |s[j].todo| + Work(s - {j})
  {
    var i :| i in s && Work(s) == |s[i].todo| + Work(s - {i});
    if i != j {
      WorkSplit(s - {i}, j);
      WorkSplit(s - {j}, i);
      assert s - {i} - {j} == s - {j} - {i};
    }
  }

  lemma ActWorks(s: State, s': State, i: nat)
    requires Act(s, s', i)
    ensures Work(s') == Work(s) - 1
  {
    hide Work;
    WorkSplit(s, i);
    WorkSplit(s', i);
    assert s - {i} == s' - {i};
  }

  ghost predicate MovesAt(trace: seq<State>, i: nat)
    requires i + 1 < |trace|
  {
    Moves(trace[i], trace[i + 1])
  }

  /** A run of threads already there, under any locking policy. */
  ghost predicate Acts(trace: seq<State>) {
    trace != [] && forall i: nat | i < |trace| - 1 :: MovesAt(trace, i)
  }

  lemma {:induction false} ActsWork(trace: seq<State>, k: nat)
    requires Acts(trace) && k < |trace| && Inv(trace[0])
    ensures Inv(trace[k]) && Work(trace[k]) == Work(trace[0]) - k
    decreases k
  {
    hide Inv, Work, Act;
    if k > 0 {
      ActsWork(trace, k - 1);
      assert MovesAt(trace, k - 1);
      var j :| Act(trace[k - 1], trace[k], j);
      ActKeeps(trace[k - 1], trace[k], j);
      ActWorks(trace[k - 1], trace[k], j);
    }
  }

  ghost predicate Stuck(s: State) {
    forall j :: !Ready(s, j)
  }

  lemma FinishedHoldsNothing(s: State, i: nat)
    requires Inv(s) && i in s && !Unfinished(s, i)
    ensures s[i] == Thread(map[], [])
  {
  }

  lemma StuckIsDone(s: State, i: nat)
    requires Inv(s) && Stuck(s) && i in s
    ensures s[i] == Thread(map[], [])
  {
    hide Inv, Ready;
    if Unfinished(s, i) {
      Progress(s, i);
      assert false;
    }
    FinishedHoldsNothing(s, i);
  }

  /** However the locks are granted, a run without arrivals is finite, and it can only stop when all is done. */
  lemma EverythingFinishes(trace: seq<State>, k: nat, rest: seq<State>, last: State)
    requires Run(trace) && k < |trace| && Acts(rest) && rest[0] == trace[k] && last == rest[|rest| - 1]
    ensures |rest| - 1 <= Work(trace[k])
    ensures Stuck(last) ==> forall i | i in last :: last[i] == Thread(map[], [])
  {
    hide Run, Inv, Work, Ready, Stuck;
    RunKeeps(trace, k);
    ActsWork(rest, |rest| - 1);
    if Stuck(last) {
      forall i | i in last ensures last[i] == Thread(map[], []) {
        StuckIsDone(last, i);
      }
    }
  }

  // ---------- The order is needed ----------

  /** Two threads that take the adjacency locks in opposite orders can block each other for good. */
  lemma OppositeOrdersDeadlock()
    ensures exists s: State, s': State, s'': State ::
              && s == map[0 := Thread(map[], Locked(Follows, Exclusive, Locked(Followers, Exclusive, []))),
                          1 := Thread(map[], Locked(Followers, Exclusive, Locked(Follows, Exclusive, [])))]
              && Act(s, s', 0) && Act(s', s'', 1) && Unfinished(s'', 0) && forall j :: !Enabled(s'', j)
  {
    var s: State := map[0 := Thread(map[], Locked(Follows, Exclusive, Locked(Followers, Exclusive, []))),
                        1 := Thread(map[], Locked(Followers, Exclusive, Locked(Follows, Exclusive, [])))];
    var s' := s[0 := Advanced(s[0])];
    var s'' := s'[1 := Advanced(s'[1])];
    assert Act(s, s', 0) && Act(s', s'', 1);
    assert s''[0].todo[0] == Acquire(Followers, Exclusive) && s''[1].todo[0] == Acquire(Follows, Exclusive);
    assert Followers in s''[1].held && Follows in s''[0].held;
  }

  /** Reading twice in one thread can block for good too, once a writer waits between the two reads. */
  lemma NestedReadDeadlocks()
    ensures exists s: State, s': State ::
              && s == map[0 := Thread(map[], Locked(Follows, Shared, Locked(Follows, Shared, []))),
                          1 := Thread(map[], Locked(Follows, Exclusive, []))]
              && Act(s, s', 0) && Unfinished(s', 0) && forall j :: !Ready(s', j)
  {
    var s: State := map[0 := Thread(map[], Locked(Follows, Shared, Locked(Follows, Shared, []))),
                        1 := Thread(map[], Locked(Follows, Exclusive, []))];
    var s' := s[0 := Advanced(s[0])];
    assert Act(s, s', 0);
    assert s'[0].todo[0] == Acquire(Follows, Shared) && s'[1].todo[0] == Acquire(Follows, Exclusive);
    assert WriterWaits(s', Follows) && Follows in s'[0].held;
  }
}
