/** The concurrent layer of the arena as a state machine: any number of threads
    allocate from any number of arenas. A step is one access to shared memory or
    one write to a thread's own cache. Each arena keeps a list of serial arenas,
    one per thread, that grows by compare-and-swap; a thread finds its own one
    through its cache, the arena's hint, or a walk of the list. Construction,
    Reset and destruction of an arena are exclusive, as its users must ensure. */
module ArenaProtocol {

  type Tid = nat
  type ArenaId = nat
  type Addr = nat

  const NULL: Addr := 0

  /** Per-thread batches: 256 ids, two apart. */
  const BATCH := 512

  /** Where a serial arena is, for the proof: at a position of an arena's list,
      counted from its end, or not yet published by the thread creating it. */
  datatype Where = Listed(arena: ArenaId, index: nat) | Private(thread: Tid)

  datatype Serial = Serial(owner: Tid, next: Addr, at: Where)

  /** What a thread is doing. */
  datatype Pc =
    | Idle
    | HintLoaded(arena: ArenaId, hint: Addr)
    | Missed(arena: ArenaId)
    | Walking(arena: ArenaId, cursor: Addr)
    | Created(arena: ArenaId, serial: Addr)
    | HeadLoaded(arena: ArenaId, serial: Addr, expected: Addr)
    | NextSet(arena: ArenaId, serial: Addr, expected: Addr)
    | CachingSerial(arena: ArenaId, serial: Addr)
    | CachingId(arena: ArenaId, serial: Addr)
    | CachingHint(arena: ArenaId, serial: Addr)
    | Found(arena: ArenaId, serial: Addr)

  /** A thread with its cache; `seen` is -1 until something is cached. */
  datatype Thread = Thread(nextId: nat, seen: int, last: Addr, pc: Pc)

  /** `list` records, for the proof, the serial arenas from the list's end to its head. */
  datatype Arena = Arena(tagAndId: nat, head: Addr, hint: Addr, list: seq<Addr>)

  datatype State = State(generator: nat, threads: map<Tid, Thread>, arenas: map<ArenaId, Arena>,
                         serials: map<Addr, Serial>, issued: seq<nat>)

  datatype Action =
    | Spawn(t: Tid)
    | Construct(t: Tid, a: ArenaId, messageOwned: bool, initial: Addr)
    | Reset(t: Tid, a: ArenaId, initial: Addr)
    | Destroy(t: Tid, a: ArenaId)
    | TryCache(t: Tid, a: ArenaId)
    | CheckHint(t: Tid)
    | StartWalk(t: Tid)
    | Walk(t: Tid, page: Addr)
    | LoadHead(t: Tid)
    | SetNext(t: Tid)
    | CompareExchange(t: Tid, spurious: bool)
    | WriteCache(t: Tid)
    | Return(t: Tid)

  function Id(tagAndId: nat): nat {
    tagAndId / 2 * 2
  }

  function Tag(tagAndId: nat): nat {
    tagAndId % 2
  }

  // ---------------------------------------------------------------------
  // Steps.

  predicate Uses(pc: Pc, a: ArenaId) {
    pc != Idle && pc.arena == a
  }

  /** No thread is inside a call on arena a. */
  ghost predicate Exclusive(st: State, a: ArenaId) {
    forall t {:trigger Uses(st.threads[t].pc, a)} :: t in st.threads ==> !Uses(st.threads[t].pc, a)
  }

  /** The id Init takes: a new batch when the thread's own one is used up. */
  function NextId(st: State, t: Tid): nat
    requires t in st.threads
  {
    if st.threads[t].nextId % BATCH == 0 then st.generator * BATCH else st.threads[t].nextId
  }

  /** ThreadSafeArena::Init for an arena with the given tag, on thread t. */
  function Init(st: State, t: Tid, a: ArenaId, tag: nat): State
    requires t in st.threads
  {
    var id := NextId(st, t);
    st.(generator := if st.threads[t].nextId % BATCH == 0 then st.generator + 1 else st.generator,
        threads := st.threads[t := st.threads[t].(nextId := id + 2)],
        arenas := st.arenas[a := Arena(id + tag, NULL, NULL, [])],
        issued := st.issued + [id])
  }

  /** SetInitialBlock: the arena starts with a serial arena of thread t at s. */
  function SetInitialBlock(st: State, t: Tid, a: ArenaId, s: Addr): State
    requires t in st.threads && a in st.arenas
  {
    st.(serials := st.serials[s := Serial(t, NULL, Listed(a, 0))],
        threads := st.threads[t := st.threads[t].(last := s, seen := st.arenas[a].tagAndId)],
        arenas := st.arenas[a := st.arenas[a].(head := s, hint := s, list := [s])])
  }

  /** Frees the serial arenas of arena a. */
  function Release(st: State, a: ArenaId): State
    requires a in st.arenas
  {
    st.(serials := map s | s in st.serials && s !in st.arenas[a].list :: st.serials[s])
  }

  function Goto(st: State, t: Tid, pc: Pc): State
    requires t in st.threads
  {
    st.(threads := st.threads[t := st.threads[t].(pc := pc)])
  }

  predicate Caching(pc: Pc) {
    pc.CachingSerial? || pc.CachingId? || pc.CachingHint?
  }

  /** CacheSerialArena: last_serial_arena, then last_lifecycle_id_seen, then hint_. */
  function CacheSerialArena(st: State, t: Tid): State
    requires t in st.threads && Caching(st.threads[t].pc) && st.threads[t].pc.arena in st.arenas
  {
    var thread := st.threads[t];
    var a, s := thread.pc.arena, thread.pc.serial;
    if thread.pc.CachingSerial? then st.(threads := st.threads[t := thread.(last := s, pc := CachingId(a, s))])
    else if thread.pc.CachingId? then
      st.(threads := st.threads[t := thread.(seen := st.arenas[a].tagAndId, pc := CachingHint(a, s))])
    else Goto(st, t, Found(a, s)).(arenas := st.arenas[a := st.arenas[a].(hint := s)])
  }

  /** The successful exchange publishes the serial arena at the list's head. */
  function Publish(st: State, t: Tid, a: ArenaId, s: Addr): State
    requires t in st.threads && a in st.arenas && s in st.serials
  {
    var arena := st.arenas[a];
    Goto(st, t, CachingSerial(a, s))
      .(arenas := st.arenas[a := arena.(head := s, list := arena.list + [s])],
        serials := st.serials[s := st.serials[s].(at := Listed(a, |arena.list|))])
  }

  ghost predicate Enabled(st: State, act: Action) {
    match act
    case Spawn(t) => t !in st.threads
    case Construct(t, a, _, initial) =>
      && t in st.threads && st.threads[t].pc == Idle && a !in st.arenas
      && (initial != NULL ==> initial !in st.serials)
    case Reset(t, a, initial) =>
      && t in st.threads && st.threads[t].pc == Idle && a in st.arenas && Exclusive(st, a)
      && (initial != NULL ==> initial !in Release(st, a).serials)
    case Destroy(t, a) => t in st.threads && st.threads[t].pc == Idle && a in st.arenas && Exclusive(st, a)
    case TryCache(t, a) => t in st.threads && st.threads[t].pc == Idle && a in st.arenas
    case CheckHint(t) => t in st.threads && st.threads[t].pc.HintLoaded?
    case StartWalk(t) => t in st.threads && st.threads[t].pc.Missed? && st.threads[t].pc.arena in st.arenas
    case Walk(t, page) => t in st.threads && st.threads[t].pc.Walking? && page != NULL && page !in st.serials
    case LoadHead(t) => t in st.threads && st.threads[t].pc.Created? && st.threads[t].pc.arena in st.arenas
    case SetNext(t) => t in st.threads && st.threads[t].pc.HeadLoaded?
    case CompareExchange(t, _) => t in st.threads && st.threads[t].pc.NextSet? && st.threads[t].pc.arena in st.arenas
    case WriteCache(t) =>
      t in st.threads && Caching(st.threads[t].pc) && st.threads[t].pc.arena in st.arenas
    case Return(t) => t in st.threads && st.threads[t].pc.Found?
  }

  /** Two accesses read a serial arena: they need it not to be freed. */
  ghost predicate Safe(st: State, act: Action) {
    match act
    case CheckHint(t) =>
      t in st.threads && st.threads[t].pc.HintLoaded? && st.threads[t].pc.hint != NULL ==>
        st.threads[t].pc.hint in st.serials
    case Walk(t, _) =>
      t in st.threads && st.threads[t].pc.Walking? && st.threads[t].pc.cursor != NULL ==>
        st.threads[t].pc.cursor in st.serials
    case SetNext(t) =>
      t in st.threads && st.threads[t].pc.HeadLoaded? ==> st.threads[t].pc.serial in st.serials
    case CompareExchange(t, _) =>
      t in st.threads && st.threads[t].pc.NextSet? ==> st.threads[t].pc.serial in st.serials
    case _ => true
  }

  ghost function Do(st: State, act: Action): State
    requires Enabled(st, act) && Safe(st, act)
  {
    match act
    case Spawn(t) => st.(threads := st.threads[t := Thread(0, -1, NULL, Idle)])
    case Construct(t, a, messageOwned, initial) =>
      var fresh_ := Init(st, t, a, if messageOwned then 1 else 0);
      if initial == NULL then fresh_ else SetInitialBlock(fresh_, t, a, initial)
    case Reset(t, a, initial) =>
      var fresh_ := Init(Release(st, a), t, a, Tag(st.arenas[a].tagAndId));
      if initial == NULL then fresh_ else SetInitialBlock(fresh_, t, a, initial)
    case Destroy(t, a) =>
      var released := Release(st, a);
      released.(arenas := st.arenas - {a})
    case TryCache(t, a) =>
      // GetSerialArenaFromThreadCache, then the load of hint_.
      if st.threads[t].seen == st.arenas[a].tagAndId then Goto(st, t, Found(a, st.threads[t].last))
      else Goto(st, t, HintLoaded(a, st.arenas[a].hint))
    case CheckHint(t) =>
      var pc := st.threads[t].pc;
      if pc.hint != NULL && st.serials[pc.hint].owner == t then Goto(st, t, Found(pc.arena, pc.hint))
      else Goto(st, t, Missed(pc.arena))
    case StartWalk(t) =>
      var a := st.threads[t].pc.arena;
      Goto(st, t, Walking(a, st.arenas[a].head))
    case Walk(t, page) =>
      var pc := st.threads[t].pc;
      if pc.cursor == NULL then
        Goto(st, t, Created(pc.arena, page)).(serials := st.serials[page := Serial(t, NULL, Private(t))])
      else if st.serials[pc.cursor].owner == t then Goto(st, t, CachingSerial(pc.arena, pc.cursor))
      else Goto(st, t, Walking(pc.arena, st.serials[pc.cursor].next))
    case LoadHead(t) =>
      var pc := st.threads[t].pc;
      Goto(st, t, HeadLoaded(pc.arena, pc.serial, st.arenas[pc.arena].head))
    case SetNext(t) =>
      var pc := st.threads[t].pc;
      Goto(st, t, NextSet(pc.arena, pc.serial, pc.expected))
        .(serials := st.serials[pc.serial := st.serials[pc.serial].(next := pc.expected)])
    case CompareExchange(t, spurious) =>
      var pc := st.threads[t].pc;
      if st.arenas[pc.arena].head == pc.expected && !spurious then Publish(st, t, pc.arena, pc.serial)
      else Goto(st, t, HeadLoaded(pc.arena, pc.serial, st.arenas[pc.arena].head))
    case WriteCache(t) => CacheSerialArena(st, t)
    case Return(t) => Goto(st, t, Idle)
  }

  ghost predicate Start(st: State) {
    st.threads == map[] && st.arenas == map[] && st.serials == map[] && st.issued == []
  }

  // ---------------------------------------------------------------------
  // The invariant.

  ghost predicate InList(st: State, a: ArenaId, s: Addr) {
    s in st.serials && st.serials[s].at.Listed? && st.serials[s].at.arena == a
  }

  /** Position i of arena a's list links to the position below it. */
  ghost predicate LinkOk(st: State, a: ArenaId, i: nat)
    requires a in st.arenas && i < |st.arenas[a].list|
  {
    var list := st.arenas[a].list;
    && list[i] in st.serials
    && st.serials[list[i]].at == Listed(a, i)
    && st.serials[list[i]].next == if i == 0 then NULL else list[i - 1]
  }

  /** Two positions of arena a's list belong to different threads. */
  ghost predicate OwnersDiffer(st: State, a: ArenaId, i: nat, j: nat)
    requires a in st.arenas && i < |st.arenas[a].list| && j < |st.arenas[a].list|
  {
    var list := st.arenas[a].list;
    list[i] in st.serials && list[j] in st.serials && st.serials[list[i]].owner != st.serials[list[j]].owner
  }

  ghost predicate ArenaOk(st: State, a: ArenaId)
    requires a in st.arenas
  {
    var arena := st.arenas[a];
    && arena.head == (if arena.list == [] then NULL else arena.list[|arena.list| - 1])
    && (forall i {:trigger LinkOk(st, a, i)} :: 0 <= i < |arena.list| ==> LinkOk(st, a, i))
    && (forall i, j {:trigger OwnersDiffer(st, a, i, j)} :: 0 <= i < j < |arena.list| ==> OwnersDiffer(st, a, i, j))
    && (arena.hint == NULL || InList(st, a, arena.hint))
    && Id(arena.tagAndId) in st.issued
  }

  ghost predicate SerialOk(st: State, s: Addr)
    requires s in st.serials
  {
    match st.serials[s].at
    case Listed(a, i) => a in st.arenas && i < |st.arenas[a].list| && st.arenas[a].list[i] == s
    case Private(t) =>
      && t in st.threads && st.serials[s].owner == t
      && var pc := st.threads[t].pc;
         (pc.Created? || pc.HeadLoaded? || pc.NextSet?) && pc.serial == s
  }

  /** No serial arena above position `bound` of arena a's list is owned by t. */
  ghost predicate NotOwnedFrom(st: State, t: Tid, a: ArenaId, bound: nat)
    requires a in st.arenas
  {
    forall i {:trigger st.arenas[a].list[i]} :: bound <= i < |st.arenas[a].list| ==>
      st.arenas[a].list[i] in st.serials && st.serials[st.arenas[a].list[i]].owner != t
  }

  ghost predicate Mine(st: State, t: Tid, a: ArenaId, s: Addr) {
    InList(st, a, s) && st.serials[s].owner == t
  }

  ghost predicate Unpublished(st: State, t: Tid, a: ArenaId, s: Addr)
    requires a in st.arenas
  {
    s in st.serials && st.serials[s].at == Private(t) && st.serials[s].owner == t && NotOwnedFrom(st, t, a, 0)
  }

  ghost predicate PcOk(st: State, t: Tid)
    requires t in st.threads
  {
    var pc := st.threads[t].pc;
    pc != Idle ==>
      && pc.arena in st.arenas
      && match pc
         case HintLoaded(a, h) => h == NULL || InList(st, a, h)
         case Walking(a, s) =>
           if s == NULL then NotOwnedFrom(st, t, a, 0)
           else InList(st, a, s) && NotOwnedFrom(st, t, a, st.serials[s].at.index + 1)
         case Created(a, s) => Unpublished(st, t, a, s)
         case HeadLoaded(a, s, _) => Unpublished(st, t, a, s)
         case NextSet(a, s, expected) => Unpublished(st, t, a, s) && st.serials[s].next == expected
         case CachingSerial(a, s) => Mine(st, t, a, s)
         case CachingId(a, s) => Mine(st, t, a, s) && st.threads[t].last == s
         case CachingHint(a, s) => Mine(st, t, a, s)
         case Found(a, s) => Mine(st, t, a, s)
         case _ => true
  }

  /** If t's cache matches arena a, it holds t's serial arena of a. The cache is
      inconsistent only between its two writes. */
  ghost predicate CacheOk(st: State, t: Tid, a: ArenaId)
    requires t in st.threads && a in st.arenas
  {
    st.threads[t].seen == st.arenas[a].tagAndId && !st.threads[t].pc.CachingId? ==>
      Mine(st, t, a, st.threads[t].last)
  }

  /** What is left of the batch that `next` is in was never issued. */
  ghost predicate RestUnused(issued: seq<nat>, next: nat) {
    forall x {:trigger x in issued} :: x in issued ==> !(next <= x < (next / BATCH + 1) * BATCH)
  }

  /** The ids left to a thread are even, and in a batch that was handed out. */
  ghost predicate NextOk(issued: seq<nat>, generator: nat, next: nat) {
    next % 2 == 0 && (next % BATCH != 0 ==> next < generator * BATCH && RestUnused(issued, next))
  }

  /** Thread t's unused ids were never issued. */
  ghost predicate IdsOk(st: State, t: Tid)
    requires t in st.threads
  {
    && (st.threads[t].seen < 0 || Id(st.threads[t].seen) in st.issued)
    && NextOk(st.issued, st.generator, st.threads[t].nextId)
  }

  ghost predicate BatchesDiffer(st: State, t: Tid, u: Tid)
    requires t in st.threads && u in st.threads
  {
    var next, other := st.threads[t].nextId, st.threads[u].nextId;
    next % BATCH != 0 && other % BATCH != 0 ==> next / BATCH != other / BATCH
  }

  ghost predicate ArenasDiffer(st: State, a: ArenaId, b: ArenaId)
    requires a in st.arenas && b in st.arenas
  {
    Id(st.arenas[a].tagAndId) != Id(st.arenas[b].tagAndId)
  }

  ghost predicate Issued(st: State) {
    && (forall x {:trigger x in st.issued} :: x in st.issued ==> x % 2 == 0 && x < st.generator * BATCH)
    && (forall i, j {:trigger st.issued[i], st.issued[j]} :: 0 <= i < j < |st.issued| ==> st.issued[i] != st.issued[j])
  }

  ghost predicate Inv(st: State) {
    && NULL !in st.serials
    && (forall a {:trigger ArenaOk(st, a)} :: a in st.arenas ==> ArenaOk(st, a))
    && (forall s {:trigger SerialOk(st, s)} :: s in st.serials ==> SerialOk(st, s))
    && (forall t {:trigger PcOk(st, t)} :: t in st.threads ==> PcOk(st, t))
    && (forall t {:trigger IdsOk(st, t)} :: t in st.threads ==> IdsOk(st, t))
    && (forall t, a {:trigger CacheOk(st, t, a)} :: t in st.threads && a in st.arenas ==> CacheOk(st, t, a))
    && (forall t, u {:trigger BatchesDiffer(st, t, u)} ::
          t in st.threads && u in st.threads && t != u ==> BatchesDiffer(st, t, u))
    && (forall a, b {:trigger ArenasDiffer(st, a, b)} ::
          a in st.arenas && b in st.arenas && a != b ==> ArenasDiffer(st, a, b))
    && Issued(st)
  }

  // ---------------------------------------------------------------------
  // Steps that only move one thread or change one serial arena.

  /** The parts of the invariant about ids do not depend on list shapes. */
  lemma SameIdsKeepIds(st: State, st': State)
    requires Inv(st)
    requires st'.generator == st.generator && st'.issued == st.issued
    requires st'.threads.Keys == st.threads.Keys && st'.arenas.Keys == st.arenas.Keys
    requires forall t {:trigger st'.threads[t]} :: t in st.threads ==> st'.threads[t].nextId == st.threads[t].nextId
    requires forall t {:trigger st'.threads[t]} :: t in st.threads ==>
               st'.threads[t].seen == st.threads[t].seen || Id(Nat(st'.threads[t].seen)) in st.issued
    requires forall a {:trigger st'.arenas[a]} :: a in st.arenas ==> st'.arenas[a].tagAndId == st.arenas[a].tagAndId
    ensures forall t {:trigger IdsOk(st', t)} :: t in st'.threads ==> IdsOk(st', t)
    ensures forall t, u {:trigger BatchesDiffer(st', t, u)} ::
              t in st'.threads && u in st'.threads && t != u ==> BatchesDiffer(st', t, u)
    ensures forall a, b {:trigger ArenasDiffer(st', a, b)} ::
              a in st'.arenas && b in st'.arenas && a != b ==> ArenasDiffer(st', a, b)
    ensures Issued(st')
  {
    forall t | t in st'.threads
      ensures IdsOk(st', t)
    {
      assert IdsOk(st, t);
      assert st'.threads[t].nextId == st.threads[t].nextId;
    }
    forall t, u | t in st'.threads && u in st'.threads && t != u
      ensures BatchesDiffer(st', t, u)
    {
      assert BatchesDiffer(st, t, u);
      assert st'.threads[t].nextId == st.threads[t].nextId && st'.threads[u].nextId == st.threads[u].nextId;
    }
    forall a, b | a in st'.arenas && b in st'.arenas && a != b
      ensures ArenasDiffer(st', a, b)
    {
      assert ArenasDiffer(st, a, b);
      assert st'.arenas[a].tagAndId == st.arenas[a].tagAndId && st'.arenas[b].tagAndId == st.arenas[b].tagAndId;
    }
  }

  function Nat(i: int): nat {
    if i < 0 then 0 else i
  }

  predicate Publishing(pc: Pc) {
    pc.Created? || pc.HeadLoaded? || pc.NextSet?
  }

  /** An arena stays in order when its list and the serial arenas in it do. */
  lemma SameListKeepsArena(st: State, st': State, a: ArenaId)
    requires a in st.arenas && ArenaOk(st, a) && a in st'.arenas
    requires st'.arenas[a].list == st.arenas[a].list && st'.arenas[a].head == st.arenas[a].head
    requires forall s {:trigger InList(st, a, s)} :: InList(st, a, s) ==>
               s in st'.serials && st'.serials[s] == st.serials[s]
    requires st'.arenas[a].hint == NULL || InList(st', a, st'.arenas[a].hint)
    requires Id(st'.arenas[a].tagAndId) in st'.issued
    ensures ArenaOk(st', a)
  {
    forall i | 0 <= i < |st.arenas[a].list|
      ensures LinkOk(st', a, i)
    {
      assert LinkOk(st, a, i) && InList(st, a, st.arenas[a].list[i]);
    }
    forall i, j | 0 <= i < j < |st.arenas[a].list|
      ensures OwnersDiffer(st', a, i, j)
    {
      assert OwnersDiffer(st, a, i, j) && LinkOk(st, a, i) && LinkOk(st, a, j);
      assert InList(st, a, st.arenas[a].list[i]) && InList(st, a, st.arenas[a].list[j]);
    }
  }

  /** A thread a step does not touch stays in order when the list it works on and
      the serial arenas that exist stay. */
  lemma UntouchedThreadStays(st: State, st': State, u: Tid)
    requires u in st.threads && PcOk(st, u) && u in st'.threads && st'.threads[u].pc == st.threads[u].pc
    requires st'.threads[u].last == st.threads[u].last
    requires st.threads[u].pc != Idle ==>
               var a := st.threads[u].pc.arena;
               a in st.arenas && a in st'.arenas && st'.arenas[a].list == st.arenas[a].list
    requires forall s {:trigger s in st'.serials} {:trigger s in st.serials} :: s in st.serials ==> s in st'.serials && st'.serials[s] == st.serials[s]
    ensures PcOk(st', u)
  {
    if st.threads[u].pc != Idle {
      var a := st.threads[u].pc.arena;
      forall bound: nat | NotOwnedFrom(st, u, a, bound)
        ensures NotOwnedFrom(st', u, a, bound)
      {
        forall i | bound <= i < |st'.arenas[a].list|
          ensures st'.arenas[a].list[i] in st'.serials && st'.serials[st'.arenas[a].list[i]].owner != u
        {
          assert st'.arenas[a].list[i] == st.arenas[a].list[i];
        }
      }
    }
  }

  /** Caches stay in order when no thread writes its own and no serial arena leaves
      a list or changes hands. */
  lemma SameCachesStay(st: State, st': State)
    requires Inv(st) && st'.threads.Keys == st.threads.Keys && st'.arenas.Keys == st.arenas.Keys
    requires forall t {:trigger st'.threads[t]} :: t in st.threads ==>
               && st'.threads[t].seen == st.threads[t].seen && st'.threads[t].last == st.threads[t].last
               && (st'.threads[t].pc.CachingId? <==> st.threads[t].pc.CachingId?)
    requires forall a {:trigger st'.arenas[a]} :: a in st.arenas ==> st'.arenas[a].tagAndId == st.arenas[a].tagAndId
    requires forall a, s {:trigger InList(st, a, s)} :: InList(st, a, s) ==>
               InList(st', a, s) && st'.serials[s].owner == st.serials[s].owner
    ensures forall u, a {:trigger CacheOk(st', u, a)} :: u in st'.threads && a in st'.arenas ==> CacheOk(st', u, a)
  {
    forall u, a | u in st'.threads && a in st'.arenas
      ensures CacheOk(st', u, a)
    {
      assert CacheOk(st, u, a);
      assert st'.threads[u].seen == st.threads[u].seen && st'.arenas[a].tagAndId == st.arenas[a].tagAndId;
    }
  }

  /** A step that only changes thread t keeps the invariant if what it leaves t
      with is in order and it does not lose an unpublished serial arena. */
  lemma ThreadStepKeepsInv(st: State, t: Tid, thread: Thread)
    requires Inv(st) && t in st.threads && thread.nextId == st.threads[t].nextId
    requires thread.seen == st.threads[t].seen || Id(Nat(thread.seen)) in st.issued
    requires Publishing(st.threads[t].pc) ==> Publishing(thread.pc) && thread.pc.serial == st.threads[t].pc.serial
    requires PcOk(st.(threads := st.threads[t := thread]), t)
    requires forall a {:trigger CacheOk(st.(threads := st.threads[t := thread]), t, a)} :: a in st.arenas ==>
               CacheOk(st.(threads := st.threads[t := thread]), t, a)
    ensures Inv(st.(threads := st.threads[t := thread]))
  {
    var st' := st.(threads := st.threads[t := thread]);
    SameIdsKeepIds(st, st');
    forall a | a in st'.arenas
      ensures ArenaOk(st', a)
    {
      assert ArenaOk(st, a);
      SameListKeepsArena(st, st', a);
    }
    forall s | s in st'.serials
      ensures SerialOk(st', s)
    {
      assert SerialOk(st, s);
    }
    forall u | u in st'.threads
      ensures PcOk(st', u)
    {
      if u != t {
        assert PcOk(st, u);
      }
    }
    forall u, a | u in st'.threads && a in st'.arenas
      ensures CacheOk(st', u, a)
    {
      if u != t {
        assert CacheOk(st, u, a);
      }
    }
  }

  lemma GotoKeepsInv(st: State, t: Tid, pc: Pc)
    requires Inv(st) && t in st.threads
    requires Publishing(st.threads[t].pc) ==> Publishing(pc) && pc.serial == st.threads[t].pc.serial
    requires PcOk(Goto(st, t, pc), t) && !st.threads[t].pc.CachingId?
    ensures Inv(Goto(st, t, pc))
  {
    var thread := st.threads[t].(pc := pc);
    assert Goto(st, t, pc) == st.(threads := st.threads[t := thread]);
    forall a | a in st.arenas
      ensures CacheOk(st.(threads := st.threads[t := thread]), t, a)
    {
      assert CacheOk(st, t, a);
    }
    ThreadStepKeepsInv(st, t, thread);
  }

  // ---------------------------------------------------------------------
  // One lemma per kind of step: what it accesses is not freed, and it keeps
  // the invariant.

  lemma TryCacheKeepsInv(st: State, t: Tid, a: ArenaId)
    requires Inv(st) && Enabled(st, TryCache(t, a))
    ensures Inv(Do(st, TryCache(t, a)))
  {
    assert CacheOk(st, t, a) && ArenaOk(st, a);
    if st.threads[t].seen == st.arenas[a].tagAndId {
      GotoKeepsInv(st, t, Found(a, st.threads[t].last));
    } else {
      GotoKeepsInv(st, t, HintLoaded(a, st.arenas[a].hint));
    }
  }

  lemma CheckHintKeepsInv(st: State, t: Tid)
    requires Inv(st) && Enabled(st, CheckHint(t))
    ensures Safe(st, CheckHint(t)) && Inv(Do(st, CheckHint(t)))
  {
    assert PcOk(st, t);
    var pc := st.threads[t].pc;
    if pc.hint != NULL && st.serials[pc.hint].owner == t {
      GotoKeepsInv(st, t, Found(pc.arena, pc.hint));
    } else {
      GotoKeepsInv(st, t, Missed(pc.arena));
    }
  }

  lemma HeadInList(st: State, a: ArenaId)
    requires Inv(st) && a in st.arenas
    ensures st.arenas[a].head == NULL ==> st.arenas[a].list == []
    ensures st.arenas[a].head != NULL ==>
              && InList(st, a, st.arenas[a].head)
              && st.serials[st.arenas[a].head].at.index == |st.arenas[a].list| - 1
  {
    assert ArenaOk(st, a);
    if st.arenas[a].list != [] {
      assert LinkOk(st, a, |st.arenas[a].list| - 1);
    }
  }

  lemma StartWalkKeepsInv(st: State, t: Tid)
    requires Inv(st) && Enabled(st, StartWalk(t))
    ensures Inv(Do(st, StartWalk(t)))
  {
    var a := st.threads[t].pc.arena;
    HeadInList(st, a);
    GotoKeepsInv(st, t, Walking(a, st.arenas[a].head));
  }

  /** Moving the cursor past a serial arena of another thread. */
  lemma WalkOnKeepsInv(st: State, t: Tid, a: ArenaId, s: Addr)
    requires Inv(st) && t in st.threads && st.threads[t].pc == Walking(a, s) && s != NULL
    ensures s in st.serials
    ensures st.serials[s].owner != t ==> Inv(Goto(st, t, Walking(a, st.serials[s].next)))
    ensures st.serials[s].owner == t ==> Inv(Goto(st, t, CachingSerial(a, s)))
  {
    assert PcOk(st, t) && SerialOk(st, s) && ArenaOk(st, a);
    var i := st.serials[s].at.index;
    assert LinkOk(st, a, i);
    if st.serials[s].owner == t {
      GotoKeepsInv(st, t, CachingSerial(a, s));
    } else {
      var next := st.serials[s].next;
      if i > 0 {
        assert LinkOk(st, a, i - 1);
      }
      var st' := Goto(st, t, Walking(a, next));
      forall j | (if next == NULL then 0 else i) <= j < |st.arenas[a].list|
        ensures st'.arenas[a].list[j] in st'.serials && st'.serials[st'.arenas[a].list[j]].owner != t
      {
        assert j > i ==> st.arenas[a].list[j] in st.serials;
      }
      GotoKeepsInv(st, t, Walking(a, next));
    }
  }

  lemma CreateKeepsSerial(st: State, t: Tid, page: Addr, s: Addr)
    requires Inv(st) && Enabled(st, Walk(t, page)) && st.threads[t].pc.cursor == NULL
    requires s in st.serials || s == page
    ensures s in Do(st, Walk(t, page)).serials && SerialOk(Do(st, Walk(t, page)), s)
  {
    if s != page {
      assert SerialOk(st, s);
    }
  }

  lemma CreateKeepsPc(st: State, t: Tid, page: Addr, u: Tid)
    requires Inv(st) && Enabled(st, Walk(t, page)) && st.threads[t].pc.cursor == NULL && u in st.threads
    ensures u in Do(st, Walk(t, page)).threads && PcOk(Do(st, Walk(t, page)), u)
  {
    assert PcOk(st, u) && PcOk(st, t);
    if u != t {
      UntouchedThreadStays(st, Do(st, Walk(t, page)), u);
    }
  }

  /** A new serial arena, known to its creator only. */
  lemma CreateKeepsInv(st: State, t: Tid, page: Addr)
    requires Inv(st) && Enabled(st, Walk(t, page)) && st.threads[t].pc.cursor == NULL
    ensures Inv(Do(st, Walk(t, page)))
  {
    var st' := Do(st, Walk(t, page));
    SameIdsKeepIds(st, st');
    forall a | a in st'.arenas
      ensures ArenaOk(st', a)
    {
      assert ArenaOk(st, a);
      SameListKeepsArena(st, st', a);
    }
    forall s | s in st'.serials
      ensures SerialOk(st', s)
    {
      CreateKeepsSerial(st, t, page, s);
    }
    forall u | u in st'.threads
      ensures PcOk(st', u)
    {
      CreateKeepsPc(st, t, page, u);
    }
    SameCachesStay(st, st');
  }

  /** Linking an unpublished serial arena changes no other one, and no list. */
  lemma SetNextChangesOne(st: State, t: Tid)
    requires Inv(st) && Enabled(st, SetNext(t))
    ensures Safe(st, SetNext(t))
    ensures var st', mine := Do(st, SetNext(t)), st.threads[t].pc.serial;
      && mine in st.serials && st.serials[mine].at == Private(t)
      && st'.serials.Keys == st.serials.Keys
      && (forall s {:trigger st'.serials[s]} :: s in st.serials && s != mine ==> st'.serials[s] == st.serials[s])
      && st'.serials[mine] == st.serials[mine].(next := st.threads[t].pc.expected)
  {
    assert PcOk(st, t);
  }

  lemma SetNextKeepsSerial(st: State, t: Tid, s: Addr)
    requires Inv(st) && Enabled(st, SetNext(t)) && s in st.serials
    ensures Safe(st, SetNext(t)) && s in Do(st, SetNext(t)).serials && SerialOk(Do(st, SetNext(t)), s)
  {
    SetNextChangesOne(st, t);
    assert SerialOk(st, s);
  }

  lemma SetNextKeepsPc(st: State, t: Tid, u: Tid)
    requires Inv(st) && Enabled(st, SetNext(t)) && u in st.threads
    ensures Safe(st, SetNext(t)) && u in Do(st, SetNext(t)).threads && PcOk(Do(st, SetNext(t)), u)
  {
    SetNextChangesOne(st, t);
    assert PcOk(st, u) && PcOk(st, t);
    assert SerialOk(st, st.threads[t].pc.serial);
  }

  /** The creator links its unpublished serial arena to the head it loaded. */
  lemma SetNextKeepsInv(st: State, t: Tid)
    requires Inv(st) && Enabled(st, SetNext(t))
    ensures Safe(st, SetNext(t)) && Inv(Do(st, SetNext(t)))
  {
    SetNextChangesOne(st, t);
    var st' := Do(st, SetNext(t));
    SameIdsKeepIds(st, st');
    forall a | a in st'.arenas
      ensures ArenaOk(st', a)
    {
      assert ArenaOk(st, a);
      SameListKeepsArena(st, st', a);
    }
    forall s | s in st'.serials
      ensures SerialOk(st', s)
    {
      SetNextKeepsSerial(st, t, s);
    }
    forall u | u in st'.threads
      ensures PcOk(st', u)
    {
      SetNextKeepsPc(st, t, u);
    }
    SameCachesStay(st, st');
  }

  /** A successful exchange adds t's first serial arena of the arena at the head. */
  lemma PublishKeepsInv(st: State, t: Tid)
    requires Inv(st) && t in st.threads && st.threads[t].pc.NextSet?
    requires st.threads[t].pc.arena in st.arenas
    requires st.arenas[st.threads[t].pc.arena].head == st.threads[t].pc.expected
    ensures st.threads[t].pc.serial in st.serials
    ensures Inv(Publish(st, t, st.threads[t].pc.arena, st.threads[t].pc.serial))
  {
    assert PcOk(st, t);
    var b, mine := st.threads[t].pc.arena, st.threads[t].pc.serial;
    var n := |st.arenas[b].list|;
    var st' := Publish(st, t, b, mine);
    SameIdsKeepIds(st, st');
    forall a | a in st'.arenas
      ensures ArenaOk(st', a)
    {
      PublishKeepsArena(st, t, a);
    }
    forall s | s in st'.serials
      ensures SerialOk(st', s)
    {
      assert SerialOk(st, s);
    }
    forall u | u in st'.threads
      ensures PcOk(st', u)
    {
      assert PcOk(st, u);
      PublishKeepsOthers(st, t, u);
    }
    SameCachesStay(st, st');
  }

  lemma PublishKeepsArena(st: State, t: Tid, a: ArenaId)
    requires Inv(st) && t in st.threads && st.threads[t].pc.NextSet? && a in st.arenas
    requires st.threads[t].pc.arena in st.arenas && st.threads[t].pc.serial in st.serials
    requires st.arenas[st.threads[t].pc.arena].head == st.threads[t].pc.expected
    ensures ArenaOk(Publish(st, t, st.threads[t].pc.arena, st.threads[t].pc.serial), a)
  {
    assert PcOk(st, t) && ArenaOk(st, a);
    var b, mine := st.threads[t].pc.arena, st.threads[t].pc.serial;
    var st' := Publish(st, t, b, mine);
    var list := st'.arenas[a].list;
    forall i | 0 <= i < |list|
      ensures LinkOk(st', a, i)
    {
      if i < |st.arenas[a].list| {
        assert LinkOk(st, a, i);
      }
    }
    forall i, j | 0 <= i < j < |list|
      ensures OwnersDiffer(st', a, i, j)
    {
      assert LinkOk(st, a, i);
      if j < |st.arenas[a].list| {
        assert OwnersDiffer(st, a, i, j);
      } else {
        assert st.arenas[a].list[i] == list[i];
      }
    }
  }

  lemma PublishKeepsOthers(st: State, t: Tid, u: Tid)
    requires Inv(st) && t in st.threads && st.threads[t].pc.NextSet? && u in st.threads
    requires st.threads[t].pc.arena in st.arenas && st.threads[t].pc.serial in st.serials
    ensures PcOk(Publish(st, t, st.threads[t].pc.arena, st.threads[t].pc.serial), u)
  {
    assert PcOk(st, t) && PcOk(st, u);
    var b, mine := st.threads[t].pc.arena, st.threads[t].pc.serial;
    var st' := Publish(st, t, b, mine);
    if u != t && st.threads[u].pc != Idle {
      var a := st.threads[u].pc.arena;
      forall bound: nat | NotOwnedFrom(st, u, a, bound)
        ensures NotOwnedFrom(st', u, a, bound)
      {
        forall i | bound <= i < |st'.arenas[a].list|
          ensures st'.arenas[a].list[i] in st'.serials && st'.serials[st'.arenas[a].list[i]].owner != u
        {
          if i < |st.arenas[a].list| {
            assert st'.arenas[a].list[i] == st.arenas[a].list[i];
          }
        }
      }
    }
  }

  lemma CompareExchangeKeepsInv(st: State, t: Tid, spurious: bool)
    requires Inv(st) && Enabled(st, CompareExchange(t, spurious))
    ensures Safe(st, CompareExchange(t, spurious)) && Inv(Do(st, CompareExchange(t, spurious)))
  {
    assert PcOk(st, t);
    var pc := st.threads[t].pc;
    if st.arenas[pc.arena].head == pc.expected && !spurious {
      PublishKeepsInv(st, t);
    } else {
      GotoKeepsInv(st, t, HeadLoaded(pc.arena, pc.serial, st.arenas[pc.arena].head));
    }
  }

  lemma WriteHintKeepsArena(st: State, t: Tid, a: ArenaId)
    requires Inv(st) && t in st.threads && st.threads[t].pc.CachingHint? && st.threads[t].pc.arena in st.arenas
    requires a in st.arenas
    ensures a in CacheSerialArena(st, t).arenas && ArenaOk(CacheSerialArena(st, t), a)
  {
    assert PcOk(st, t) && ArenaOk(st, a);
    SameListKeepsArena(st, CacheSerialArena(st, t), a);
  }

  lemma WriteHintKeepsPc(st: State, t: Tid, u: Tid)
    requires Inv(st) && t in st.threads && st.threads[t].pc.CachingHint? && st.threads[t].pc.arena in st.arenas
    requires u in st.threads
    ensures u in CacheSerialArena(st, t).threads && PcOk(CacheSerialArena(st, t), u)
  {
    assert PcOk(st, u) && PcOk(st, t);
    if u != t {
      UntouchedThreadStays(st, CacheSerialArena(st, t), u);
    }
  }

  /** Publishing the hint: it names a serial arena in the list. */
  lemma WriteHintKeepsInv(st: State, t: Tid)
    requires Inv(st) && t in st.threads && st.threads[t].pc.CachingHint? && st.threads[t].pc.arena in st.arenas
    ensures Inv(CacheSerialArena(st, t))
  {
    var st' := CacheSerialArena(st, t);
    SameIdsKeepIds(st, st');
    forall a | a in st'.arenas
      ensures ArenaOk(st', a)
    {
      WriteHintKeepsArena(st, t, a);
    }
    forall s | s in st'.serials
      ensures SerialOk(st', s)
    {
      assert SerialOk(st, s);
    }
    forall u | u in st'.threads
      ensures PcOk(st', u)
    {
      WriteHintKeepsPc(st, t, u);
    }
    SameCachesStay(st, st');
  }

  lemma WriteCacheKeepsInv(st: State, t: Tid)
    requires Inv(st) && Enabled(st, WriteCache(t))
    ensures Inv(Do(st, WriteCache(t)))
  {
    assert PcOk(st, t);
    var thread := st.threads[t];
    var a, s := thread.pc.arena, thread.pc.serial;
    assert ArenaOk(st, a);
    if thread.pc.CachingSerial? {
      ThreadStepKeepsInv(st, t, thread.(last := s, pc := CachingId(a, s)));
    } else if thread.pc.CachingId? {
      var cached := thread.(seen := st.arenas[a].tagAndId, pc := CachingHint(a, s));
      forall b | b in st.arenas
        ensures CacheOk(st.(threads := st.threads[t := cached]), t, b)
      {
        if b != a {
          assert ArenasDiffer(st, a, b);
        }
      }
      ThreadStepKeepsInv(st, t, cached);
    } else {
      WriteHintKeepsInv(st, t);
    }
  }

  lemma SpawnKeepsInv(st: State, t: Tid)
    requires Inv(st) && Enabled(st, Spawn(t))
    ensures Inv(Do(st, Spawn(t)))
  {
    var st' := Do(st, Spawn(t));
    forall a | a in st'.arenas
      ensures ArenaOk(st', a)
    {
      assert ArenaOk(st, a);
      SameListKeepsArena(st, st', a);
    }
    forall s | s in st'.serials
      ensures SerialOk(st', s)
    {
      assert SerialOk(st, s);
    }
    forall u | u in st'.threads
      ensures PcOk(st', u) && IdsOk(st', u)
    {
      if u != t {
        assert PcOk(st, u) && IdsOk(st, u);
      }
    }
    forall u, a | u in st'.threads && a in st'.arenas
      ensures CacheOk(st', u, a)
    {
      if u != t {
        assert CacheOk(st, u, a);
      }
    }
    forall u, v | u in st'.threads && v in st'.threads && u != v
      ensures BatchesDiffer(st', u, v)
    {
      if u != t && v != t {
        assert BatchesDiffer(st, u, v);
      }
    }
    forall a, b | a in st'.arenas && b in st'.arenas && a != b
      ensures ArenasDiffer(st', a, b)
    {
      assert ArenasDiffer(st, a, b);
    }
  }

  // ---------------------------------------------------------------------
  // Construction, Reset and destruction.

  /** Without arena a: its serial arenas are freed. Caches may keep dangling
      pointers to them, but no cached id matches a live arena any more. */
  function Without(st: State, a: ArenaId): State
    requires a in st.arenas
  {
    Release(st, a).(arenas := st.arenas - {a})
  }

  lemma WithoutKeepsInv(st: State, a: ArenaId)
    requires Inv(st) && a in st.arenas && Exclusive(st, a)
    ensures Inv(Without(st, a))
  {
    var st' := Without(st, a);
    forall s | s in st.serials
      ensures s in st'.serials <==> !InList(st, a, s)
    {
      assert SerialOk(st, s) && ArenaOk(st, a);
      if s in st.arenas[a].list {
        var i :| 0 <= i < |st.arenas[a].list| && st.arenas[a].list[i] == s;
        assert LinkOk(st, a, i);
      }
    }
    forall b | b in st'.arenas
      ensures ArenaOk(st', b)
    {
      assert ArenaOk(st, b);
      SameListKeepsArena(st, st', b);
    }
    forall s | s in st'.serials
      ensures SerialOk(st', s)
    {
      assert SerialOk(st, s);
    }
    forall u | u in st'.threads
      ensures PcOk(st', u) && IdsOk(st', u)
    {
      assert PcOk(st, u) && IdsOk(st, u) && !Uses(st.threads[u].pc, a);
      WithoutKeepsOwners(st, a, u);
    }
    forall u, b | u in st'.threads && b in st'.arenas
      ensures CacheOk(st', u, b)
    {
      assert CacheOk(st, u, b);
    }
    forall u, v | u in st'.threads && v in st'.threads && u != v
      ensures BatchesDiffer(st', u, v)
    {
      assert BatchesDiffer(st, u, v);
    }
    forall b, c | b in st'.arenas && c in st'.arenas && b != c
      ensures ArenasDiffer(st', b, c)
    {
      assert ArenasDiffer(st, b, c);
    }
  }

  lemma WithoutKeepsOwners(st: State, a: ArenaId, u: Tid)
    requires Inv(st) && a in st.arenas && u in st.threads
    ensures forall b, bound {:trigger NotOwnedFrom(Without(st, a), u, b, bound)} ::
              b in st.arenas && b != a && bound >= 0 && NotOwnedFrom(st, u, b, bound) ==>
                NotOwnedFrom(Without(st, a), u, b, bound)
  {
    forall b, bound | b in st.arenas && b != a && bound >= 0 && NotOwnedFrom(st, u, b, bound)
      ensures NotOwnedFrom(Without(st, a), u, b, bound)
    {
      assert ArenaOk(st, a) && ArenaOk(st, b);
      forall i | bound <= i < |st.arenas[b].list|
        ensures st.arenas[b].list[i] in Without(st, a).serials
        ensures Without(st, a).serials[st.arenas[b].list[i]].owner != u
      {
        var s := st.arenas[b].list[i];
        assert LinkOk(st, b, i);
        forall j | 0 <= j < |st.arenas[a].list|
          ensures st.arenas[a].list[j] != s
        {
          assert LinkOk(st, a, j);
        }
      }
    }
  }

  /** The id Init takes was never issued before. */
  lemma NextIdIsNew(st: State, t: Tid)
    requires Inv(st) && t in st.threads
    ensures NextId(st, t) !in st.issued && NextId(st, t) % 2 == 0
  {
    assert IdsOk(st, t);
  }

  /** Init gives a new arena an id no arena and no cache has. */
  lemma InitKeepsInv(st: State, t: Tid, a: ArenaId, tag: nat)
    requires Inv(st) && t in st.threads && a !in st.arenas && tag < 2
    ensures Inv(Init(st, t, a, tag))
  {
    var st' := Init(st, t, a, tag);
    InitKeepsIds(st, t, a, tag);
    forall b | b in st'.arenas
      ensures ArenaOk(st', b)
    {
      InitKeepsArena(st, t, a, tag, b);
    }
    forall s | s in st'.serials
      ensures SerialOk(st', s)
    {
      assert SerialOk(st, s);
    }
    forall u | u in st'.threads
      ensures PcOk(st', u)
    {
      assert PcOk(st, u);
      UntouchedThreadStays(st, st', u);
    }
    forall u, b | u in st'.threads && b in st'.arenas
      ensures CacheOk(st', u, b)
    {
      InitKeepsCache(st, t, a, tag, u, b);
    }
  }

  /** What was issued before, and the new id. */
  lemma IssuedMore(issued: seq<nat>, id: nat)
    ensures forall x :: x in issued + [id] <==> x in issued || x == id
  {
  }

  lemma InitKeepsArena(st: State, t: Tid, a: ArenaId, tag: nat, b: ArenaId)
    requires Inv(st) && t in st.threads && a !in st.arenas && tag < 2 && (b in st.arenas || b == a)
    ensures b in Init(st, t, a, tag).arenas && ArenaOk(Init(st, t, a, tag), b)
  {
    NextIdIsNew(st, t);
    IssuedMore(st.issued, NextId(st, t));
    IdAndTag(NextId(st, t), tag);
    if b != a {
      assert ArenaOk(st, b);
      SameListKeepsArena(st, Init(st, t, a, tag), b);
    }
  }

  lemma InitKeepsCache(st: State, t: Tid, a: ArenaId, tag: nat, u: Tid, b: ArenaId)
    requires Inv(st) && t in st.threads && a !in st.arenas && tag < 2 && u in st.threads && (b in st.arenas || b == a)
    ensures u in Init(st, t, a, tag).threads && b in Init(st, t, a, tag).arenas && CacheOk(Init(st, t, a, tag), u, b)
  {
    NextIdIsNew(st, t);
    IdAndTag(NextId(st, t), tag);
    if b != a {
      assert CacheOk(st, u, b);
    } else {
      assert IdsOk(st, u);
    }
  }

  lemma InitKeepsIds(st: State, t: Tid, a: ArenaId, tag: nat)
    requires Inv(st) && t in st.threads && a !in st.arenas && tag < 2
    ensures Issued(Init(st, t, a, tag))
    ensures forall u {:trigger IdsOk(Init(st, t, a, tag), u)} :: u in st.threads ==> IdsOk(Init(st, t, a, tag), u)
    ensures forall u, v {:trigger BatchesDiffer(Init(st, t, a, tag), u, v)} ::
              u in st.threads && v in st.threads && u != v ==> BatchesDiffer(Init(st, t, a, tag), u, v)
    ensures forall b, c {:trigger ArenasDiffer(Init(st, t, a, tag), b, c)} ::
              b in Init(st, t, a, tag).arenas && c in Init(st, t, a, tag).arenas && b != c ==>
                ArenasDiffer(Init(st, t, a, tag), b, c)
  {
    var st' := Init(st, t, a, tag);
    InitKeepsIssued(st, t, a, tag);
    forall u | u in st.threads
      ensures IdsOk(st', u)
    {
      InitKeepsThreadIds(st, t, a, tag, u);
    }
    forall u, v | u in st.threads && v in st.threads && u != v
      ensures BatchesDiffer(st', u, v)
    {
      InitKeepsBatches(st, t, a, tag, u, v);
    }
    forall b, c | b in st'.arenas && c in st'.arenas && b != c
      ensures ArenasDiffer(st', b, c)
    {
      InitKeepsArenasDifferent(st, t, a, tag, b, c);
    }
  }

  lemma InitKeepsIssued(st: State, t: Tid, a: ArenaId, tag: nat)
    requires Inv(st) && t in st.threads && a !in st.arenas && tag < 2
    ensures Issued(Init(st, t, a, tag))
  {
    assert IdsOk(st, t);
    NextIdIsNew(st, t);
    IssuedMore(st.issued, NextId(st, t));
  }

  lemma InitKeepsArenasDifferent(st: State, t: Tid, a: ArenaId, tag: nat, b: ArenaId, c: ArenaId)
    requires Inv(st) && t in st.threads && a !in st.arenas && tag < 2
    requires (b in st.arenas || b == a) && (c in st.arenas || c == a) && b != c
    ensures b in Init(st, t, a, tag).arenas && c in Init(st, t, a, tag).arenas
    ensures ArenasDiffer(Init(st, t, a, tag), b, c)
  {
    NextIdIsNew(st, t);
    IdAndTag(NextId(st, t), tag);
    if b != a && c != a {
      assert ArenasDiffer(st, b, c);
    } else {
      assert ArenaOk(st, if b == a then c else b);
    }
  }

  /** The id after the one taken from a batch stays in it or starts the next one. */
  lemma NextBatch(next: nat, generator: nat)
    requires next % 2 == 0
    ensures next % BATCH == 0 ==>
      (generator * BATCH + 2) % BATCH == 2 && (generator * BATCH + 2) / BATCH == generator
    ensures next % BATCH != 0 && (next + 2) % BATCH != 0 ==> (next + 2) / BATCH == next / BATCH
    ensures next % BATCH != 0 ==> next + 2 <= (next / BATCH + 1) * BATCH
  {
  }

  lemma BelowBatch(next: nat, generator: nat)
    ensures next < generator * BATCH ==> next / BATCH < generator
  {
  }

  lemma InitKeepsBatches(st: State, t: Tid, a: ArenaId, tag: nat, u: Tid, v: Tid)
    requires Inv(st) && t in st.threads && u in st.threads && v in st.threads && u != v
    ensures BatchesDiffer(Init(st, t, a, tag), u, v)
  {
    assert BatchesDiffer(st, u, v) && IdsOk(st, u) && IdsOk(st, v) && IdsOk(st, t);
    NextBatch(st.threads[t].nextId, st.generator);
    BelowBatch(st.threads[u].nextId, st.generator);
    BelowBatch(st.threads[v].nextId, st.generator);
  }

  lemma InitKeepsThreadIds(st: State, t: Tid, a: ArenaId, tag: nat, u: Tid)
    requires Inv(st) && t in st.threads && a !in st.arenas && tag < 2 && u in st.threads
    ensures IdsOk(Init(st, t, a, tag), u)
  {
    assert IdsOk(st, t) && IdsOk(st, u);
    if u == t {
      InitKeepsOwnIds(st, t, a, tag);
    } else {
      assert BatchesDiffer(st, t, u);
      InitKeepsOtherIds(st, t, a, tag, u);
    }
  }

  lemma RestUnusedNew(issued: seq<nat>, id: nat)
    requires forall x :: x in issued ==> x < id
    ensures RestUnused(issued + [id], id + 2)
  {
  }

  lemma RestUnusedSame(issued: seq<nat>, next: nat)
    requires RestUnused(issued, next) && (next + 2) / BATCH == next / BATCH
    ensures RestUnused(issued + [next], next + 2)
  {
  }

  lemma RestUnusedOther(issued: seq<nat>, next: nat, id: nat)
    requires RestUnused(issued, next) && !(next <= id < (next / BATCH + 1) * BATCH)
    ensures RestUnused(issued + [id], next)
  {
  }

  lemma NextOfNewBatch(issued: seq<nat>, generator: nat)
    requires forall x :: x in issued ==> x < generator * BATCH
    ensures NextOk(issued + [generator * BATCH], generator + 1, generator * BATCH + 2)
  {
    RestUnusedNew(issued, generator * BATCH);
  }

  lemma NextOfSameBatch(issued: seq<nat>, generator: nat, next: nat)
    requires NextOk(issued, generator, next) && next % BATCH != 0
    ensures NextOk(issued + [next], generator, next + 2)
  {
    if (next + 2) % BATCH != 0 {
      RestOfBatch(next, generator);
      RestUnusedSame(issued, next);
    }
  }

  lemma InitKeepsOwnIds(st: State, t: Tid, a: ArenaId, tag: nat)
    requires Issued(st) && t in st.threads && IdsOk(st, t)
    ensures IdsOk(Init(st, t, a, tag), t)
  {
    if st.threads[t].nextId % BATCH == 0 {
      NextOfNewBatch(st.issued, st.generator);
    } else {
      NextOfSameBatch(st.issued, st.generator, st.threads[t].nextId);
    }
  }

  lemma RestOfBatch(next: nat, generator: nat)
    requires next % 2 == 0 && next % BATCH != 0 && (next + 2) % BATCH != 0 && next < generator * BATCH
    ensures (next + 2) / BATCH == next / BATCH && next + 2 < generator * BATCH
  {
    var q, r := next / BATCH, next % BATCH;
    assert next == 512 * q + r;
    assert r % 2 == 0 && r <= 510;
    assert r != 510 by {
      assert next + 2 == 512 * q + r + 2;
    }
    assert next + 2 == 512 * q + (r + 2) && r + 2 < 512;
    assert q < generator;
  }

  lemma InitKeepsOtherIds(st: State, t: Tid, a: ArenaId, tag: nat, u: Tid)
    requires Issued(st) && t in st.threads && u in st.threads && t != u
    requires IdsOk(st, t) && IdsOk(st, u) && BatchesDiffer(st, t, u)
    ensures IdsOk(Init(st, t, a, tag), u)
  {
    var id, next := NextId(st, t), st.threads[u].nextId;
    NextBatch(st.threads[t].nextId, st.generator);
    BelowBatch(next, st.generator);
    if next % BATCH != 0 {
      OutsideBatch(id, next);
      RestUnusedOther(st.issued, next, id);
    }
  }

  /** An id is not in the unused part of another batch. */
  lemma OutsideBatch(id: nat, other: nat)
    requires id / BATCH != other / BATCH
    ensures !(other <= id < (other / BATCH + 1) * BATCH)
  {
  }

  /** The first block of a new arena: a list of one, cached by its creator. */
  lemma InitialBlockKeepsInv(st: State, t: Tid, a: ArenaId, s: Addr)
    requires Inv(st) && t in st.threads && a in st.arenas && st.arenas[a].list == [] && Exclusive(st, a)
    requires s != NULL && s !in st.serials && st.threads[t].pc == Idle
    ensures Inv(SetInitialBlock(st, t, a, s))
  {
    var st' := SetInitialBlock(st, t, a, s);
    assert ArenaOk(st, a);
    SameIdsKeepIds(st, st');
    forall b | b in st'.arenas
      ensures ArenaOk(st', b)
    {
      assert ArenaOk(st, b);
      if b != a {
        SameListKeepsArena(st, st', b);
      } else {
        assert LinkOk(st', a, 0);
      }
    }
    forall x | x in st'.serials
      ensures SerialOk(st', x)
    {
      if x != s {
        assert SerialOk(st, x);
      }
    }
    forall u | u in st'.threads
      ensures PcOk(st', u)
    {
      assert PcOk(st, u) && !Uses(st.threads[u].pc, a);
      if u != t {
        UntouchedThreadStays(st, st', u);
      }
    }
    InitialBlockKeepsCaches(st, t, a, s);
  }

  lemma InitialBlockKeepsCaches(st: State, t: Tid, a: ArenaId, s: Addr)
    requires Inv(st) && t in st.threads && a in st.arenas && s !in st.serials && st.arenas[a].list == []
    ensures
      && var st' := SetInitialBlock(st, t, a, s);
      && forall u, b {:trigger CacheOk(st', u, b)} :: u in st'.threads && b in st'.arenas ==> CacheOk(st', u, b)
  {
    var st' := SetInitialBlock(st, t, a, s);
    assert ArenaOk(st, a);
    forall u, b | u in st'.threads && b in st'.arenas
      ensures CacheOk(st', u, b)
    {
      assert CacheOk(st, u, b);
      if b != a {
        assert ArenasDiffer(st, a, b);
      }
    }
  }

  lemma ConstructKeepsInv(st: State, t: Tid, a: ArenaId, messageOwned: bool, initial: Addr)
    requires Inv(st) && Enabled(st, Construct(t, a, messageOwned, initial))
    ensures Inv(Do(st, Construct(t, a, messageOwned, initial)))
  {
    var tag := if messageOwned then 1 else 0;
    InitKeepsInv(st, t, a, tag);
    if initial != NULL {
      UnusedIsExclusive(st, a);
      InitialBlockKeepsInv(Init(st, t, a, tag), t, a, initial);
    }
  }

  lemma UnusedIsExclusive(st: State, a: ArenaId)
    requires Inv(st) && a !in st.arenas
    ensures Exclusive(st, a)
  {
    forall t | t in st.threads
      ensures !Uses(st.threads[t].pc, a)
    {
      assert PcOk(st, t);
    }
  }

  lemma ResetKeepsInv(st: State, t: Tid, a: ArenaId, initial: Addr)
    requires Inv(st) && Enabled(st, Reset(t, a, initial))
    ensures Inv(Do(st, Reset(t, a, initial)))
  {
    var tag := Tag(st.arenas[a].tagAndId);
    WithoutKeepsInv(st, a);
    InitKeepsInv(Without(st, a), t, a, tag);
    assert (st.arenas - {a})[a := Arena(NextId(st, t) + tag, NULL, NULL, [])]
        == st.arenas[a := Arena(NextId(st, t) + tag, NULL, NULL, [])];
    assert Init(Without(st, a), t, a, tag) == Init(Release(st, a), t, a, tag);
    if initial != NULL {
      UnusedIsExclusive(Without(st, a), a);
      InitialBlockKeepsInv(Init(Release(st, a), t, a, tag), t, a, initial);
    }
  }

  /** Every step that can happen in a state satisfying the invariant accesses no
      freed serial arena and keeps the invariant. */
  lemma StepKeepsInv(st: State, act: Action)
    requires Inv(st) && Enabled(st, act)
    ensures Safe(st, act) && Inv(Do(st, act))
  {
    match act
    case Spawn(t) => SpawnKeepsInv(st, t);
    case Construct(t, a, messageOwned, initial) => ConstructKeepsInv(st, t, a, messageOwned, initial);
    case Reset(t, a, initial) => ResetKeepsInv(st, t, a, initial);
    case Destroy(t, a) => WithoutKeepsInv(st, a);
    case TryCache(t, a) => TryCacheKeepsInv(st, t, a);
    case CheckHint(t) => CheckHintKeepsInv(st, t);
    case StartWalk(t) => StartWalkKeepsInv(st, t);
    case Walk(t, page) =>
      if st.threads[t].pc.cursor == NULL {
        CreateKeepsInv(st, t, page);
      } else {
        WalkOnKeepsInv(st, t, st.threads[t].pc.arena, st.threads[t].pc.cursor);
      }
    case LoadHead(t) =>
      assert PcOk(st, t);
      var pc := st.threads[t].pc;
      GotoKeepsInv(st, t, HeadLoaded(pc.arena, pc.serial, st.arenas[pc.arena].head));
    case SetNext(t) => SetNextKeepsInv(st, t);
    case CompareExchange(t, spurious) => CompareExchangeKeepsInv(st, t, spurious);
    case WriteCache(t) => WriteCacheKeepsInv(st, t);
    case Return(t) => GotoKeepsInv(st, t, Idle);
  }

  // ---------------------------------------------------------------------
  // Whole runs.

  /** A run: any interleaving of enabled steps from the start. */
  ghost predicate Run(states: seq<State>, acts: seq<Action>)
    decreases |acts|
  {
    && |states| == |acts| + 1
    && if acts == [] then Start(states[0])
       else
         var n := |acts| - 1;
         && Run(states[..n + 1], acts[..n])
         && Enabled(states[n], acts[n])
         && Safe(states[n], acts[n])
         && states[n + 1] == Do(states[n], acts[n])
  }

  lemma {:induction false} RunKeepsInv(states: seq<State>, acts: seq<Action>, i: nat)
    requires Run(states, acts) && i < |states|
    ensures Inv(states[i])
    decreases |acts|
  {
    var n := |acts| - 1;
    if acts != [] {
      if i <= n {
        RunKeepsInv(states[..n + 1], acts[..n], i);
      } else {
        RunKeepsInv(states[..n + 1], acts[..n], n);
        StepKeepsInv(states[n], acts[n]);
      }
    }
  }

  lemma RunExtends(states: seq<State>, acts: seq<Action>, act: Action, st: State)
    requires Run(states, acts) && Enabled(states[|acts|], act) && Safe(states[|acts|], act)
    requires st == Do(states[|acts|], act)
    ensures Run(states + [st], acts + [act])
  {
    var n := |acts|;
    var states', acts' := states + [st], acts + [act];
    assert states'[..n + 1] == states && acts'[..n] == acts;
    assert states'[n] == states[n] && states'[n + 1] == st && acts'[n] == act;
  }

  /** No run gets stuck on a freed serial arena: whatever is enabled is safe. */
  lemma RunsAreSafe(states: seq<State>, acts: seq<Action>, act: Action)
    requires Run(states, acts) && Enabled(states[|acts|], act)
    ensures Safe(states[|acts|], act)
    ensures Run(states + [Do(states[|acts|], act)], acts + [act])
  {
    RunKeepsInv(states, acts, |acts|);
    StepKeepsInv(states[|acts|], act);
    RunExtends(states, acts, act, Do(states[|acts|], act));
  }

  /** In every run: whichever path led to it, a serial arena a thread is given for
      an arena is in that arena's current list and owned by that thread, and no
      thread owns two in one list. */
  lemma GivenSerialIsMine(states: seq<State>, acts: seq<Action>, i: nat, t: Tid)
    requires Run(states, acts) && i < |states|
    requires t in states[i].threads && states[i].threads[t].pc.Found?
    ensures var st := states[i]; var pc := st.threads[t].pc;
            && pc.arena in st.arenas && pc.serial in st.arenas[pc.arena].list
            && pc.serial in st.serials && st.serials[pc.serial].owner == t
            && forall s :: s in st.arenas[pc.arena].list && s in st.serials && st.serials[s].owner == t ==> s == pc.serial
  {
    RunKeepsInv(states, acts, i);
    var st := states[i];
    var pc := st.threads[t].pc;
    assert PcOk(st, t) && SerialOk(st, pc.serial) && ArenaOk(st, pc.arena);
    var list := st.arenas[pc.arena].list;
    var k := st.serials[pc.serial].at.index;
    forall j | 0 <= j < |list| && j != k
      ensures list[j] in st.serials && st.serials[list[j]].owner != t
    {
      if j < k {
        assert OwnersDiffer(st, pc.arena, j, k);
      } else {
        assert OwnersDiffer(st, pc.arena, k, j);
      }
    }
  }

  /** No two calls of Init in a run are given the same id, whatever threads, arenas
      and Resets they come from. */
  lemma IdsNeverRepeat(states: seq<State>, acts: seq<Action>, i: nat, j: nat)
    requires Run(states, acts)
    requires i < j < |states[|acts|].issued|
    ensures states[|acts|].issued[i] != states[|acts|].issued[j]
  {
    RunKeepsInv(states, acts, |acts|);
  }

  /** Arena a still has the given lifecycle id, or no arena will ever have it again. */
  ghost predicate KeptOrOver(st: State, a: ArenaId, tagAndId: nat, list: seq<Addr>) {
    || (a in st.arenas && st.arenas[a].tagAndId == tagAndId && list <= st.arenas[a].list)
    || (Id(tagAndId) in st.issued && forall b :: b in st.arenas ==> Id(st.arenas[b].tagAndId) != Id(tagAndId))
  }

  /** Only construction, Reset and destruction change which ids are in use; every
      other step at most extends a list. */
  lemma CallsExtendLists(st: State, act: Action)
    requires Inv(st) && Enabled(st, act) && Safe(st, act)
    requires !act.Construct? && !act.Reset? && !act.Destroy?
    ensures Do(st, act).issued == st.issued && Do(st, act).arenas.Keys == st.arenas.Keys
    ensures forall a :: a in st.arenas ==>
              && Do(st, act).arenas[a].tagAndId == st.arenas[a].tagAndId
              && st.arenas[a].list <= Do(st, act).arenas[a].list
  {
  }

  /** Arena c gets an id that was never issued before; the others stay. */
  lemma NewIdKeepsOrEnds(st: State, st': State, c: ArenaId, a: ArenaId, tagAndId: nat, list: seq<Addr>)
    requires KeptOrOver(st, a, tagAndId, list)
    requires a in st.arenas ==> Id(st.arenas[a].tagAndId) in st.issued
    requires forall b :: a in st.arenas && b in st.arenas && b != a ==>
               Id(st.arenas[b].tagAndId) != Id(st.arenas[a].tagAndId)
    requires c in st'.arenas && Id(st'.arenas[c].tagAndId) !in st.issued
    requires st'.arenas.Keys == st.arenas.Keys + {c} && st.issued <= st'.issued
    requires forall b :: b in st.arenas && b != c ==> st'.arenas[b] == st.arenas[b]
    ensures KeptOrOver(st', a, tagAndId, list)
  {
  }

  lemma InitStep(st: State, act: Action)
    requires Inv(st) && Enabled(st, act) && Safe(st, act) && (act.Construct? || act.Reset?)
    ensures
      && var st' := Do(st, act);
      && act.a in st'.arenas && Id(st'.arenas[act.a].tagAndId) == NextId(st, act.t)
      && st'.arenas.Keys == st.arenas.Keys + {act.a} && st'.issued == st.issued + [NextId(st, act.t)]
      && forall b :: b in st.arenas && b != act.a ==> st'.arenas[b] == st.arenas[b]
  {
    NextIdIsNew(st, act.t);
    IdAndTag(NextId(st, act.t), if act.Construct? then (if act.messageOwned then 1 else 0) else Tag(st.arenas[act.a].tagAndId));
  }

  lemma StepKeepsOrEnds(st: State, act: Action, a: ArenaId, tagAndId: nat, list: seq<Addr>)
    requires Inv(st) && Enabled(st, act) && Safe(st, act) && KeptOrOver(st, a, tagAndId, list)
    ensures KeptOrOver(Do(st, act), a, tagAndId, list)
  {
    assert a in st.arenas ==> ArenaOk(st, a);
    OthersHaveOtherIds(st, a);
    if act.Construct? || act.Reset? {
      InitStep(st, act);
      NextIdIsNew(st, act.t);
      NewIdKeepsOrEnds(st, Do(st, act), act.a, a, tagAndId, list);
    } else if !act.Destroy? {
      CallsExtendLists(st, act);
    }
  }

  lemma OthersHaveOtherIds(st: State, a: ArenaId)
    requires Inv(st)
    ensures forall b :: a in st.arenas && b in st.arenas && b != a ==>
              Id(st.arenas[b].tagAndId) != Id(st.arenas[a].tagAndId)
  {
    forall b | a in st.arenas && b in st.arenas && b != a
      ensures Id(st.arenas[b].tagAndId) != Id(st.arenas[a].tagAndId)
    {
      assert ArenasDiffer(st, a, b);
    }
  }

  lemma {:induction false} RunKeepsOrEnds(states: seq<State>, acts: seq<Action>, i: nat, j: nat, a: ArenaId)
    requires Run(states, acts) && i <= j < |states| && a in states[i].arenas
    ensures KeptOrOver(states[j], a, states[i].arenas[a].tagAndId, states[i].arenas[a].list)
    decreases |acts|
  {
    var n := |acts| - 1;
    if i < j {
      if j <= n {
        RunKeepsOrEnds(states[..n + 1], acts[..n], i, j, a);
      } else {
        RunKeepsOrEnds(states[..n + 1], acts[..n], i, n, a);
        RunKeepsInv(states[..n + 1], acts[..n], n);
        StepKeepsOrEnds(states[n], acts[n], a, states[i].arenas[a].tagAndId, states[i].arenas[a].list);
      }
    }
  }

  /** No serial arena that was pushed is ever lost: within one lifecycle of an arena
      its list only grows at the head. */
  lemma PushedSerialsStay(states: seq<State>, acts: seq<Action>, i: nat, j: nat, a: ArenaId)
    requires Run(states, acts) && i <= j < |states|
    requires a in states[i].arenas && a in states[j].arenas
    requires states[i].arenas[a].tagAndId == states[j].arenas[a].tagAndId
    ensures states[i].arenas[a].list <= states[j].arenas[a].list
  {
    RunKeepsOrEnds(states, acts, i, j, a);
  }

  lemma IdAndTag(id: nat, tag: nat)
    requires id % 2 == 0 && tag < 2
    ensures Id(id + tag) == id && Tag(id + tag) == tag
  {
  }

  lemma ResetTagAndId(st: State, t: Tid, a: ArenaId, initial: Addr)
    requires Enabled(st, Reset(t, a, initial))
    ensures Do(st, Reset(t, a, initial)).arenas[a].tagAndId == NextId(st, t) + Tag(st.arenas[a].tagAndId)
  {
  }

  /** The message-owned bit survives Reset. */
  lemma ResetKeepsTag(st: State, t: Tid, a: ArenaId, initial: Addr)
    requires Inv(st) && Enabled(st, Reset(t, a, initial))
    ensures Tag(Do(st, Reset(t, a, initial)).arenas[a].tagAndId) == Tag(st.arenas[a].tagAndId)
    ensures Id(Do(st, Reset(t, a, initial)).arenas[a].tagAndId) == NextId(st, t)
  {
    NextIdIsNew(st, t);
    ResetTagAndId(st, t, a, initial);
    IdAndTag(NextId(st, t), Tag(st.arenas[a].tagAndId));
  }

  // ---------------------------------------------------------------------
  // What steps achieve.

  /** An exchange that is not spurious, on a head that is as it was loaded, publishes: the
      thread's serial arena is the new head and in front of the old list, and the thread
      goes on to cache it. */
  lemma ExchangePublishes(st: State, t: Tid)
    requires Inv(st) && Enabled(st, CompareExchange(t, false))
    requires st.arenas[st.threads[t].pc.arena].head == st.threads[t].pc.expected
    ensures Safe(st, CompareExchange(t, false))
    ensures
      && var pc, st' := st.threads[t].pc, Do(st, CompareExchange(t, false));
      && st'.arenas.Keys == st.arenas.Keys && st'.serials.Keys == st.serials.Keys
      && st'.arenas[pc.arena].list == st.arenas[pc.arena].list + [pc.serial]
      && st'.arenas[pc.arena].head == pc.serial
      && st'.serials[pc.serial] == Serial(t, pc.expected, Listed(pc.arena, |st.arenas[pc.arena].list|))
      && st'.threads == st.threads[t := st.threads[t].(pc := CachingSerial(pc.arena, pc.serial))]
  {
    assert PcOk(st, t);
  }

  /** Any other exchange changes nothing but what the thread has loaded. */
  lemma FailedExchangeReloads(st: State, t: Tid, spurious: bool)
    requires Inv(st) && Enabled(st, CompareExchange(t, spurious))
    requires spurious || st.arenas[st.threads[t].pc.arena].head != st.threads[t].pc.expected
    ensures
      && var pc := st.threads[t].pc;
      && Safe(st, CompareExchange(t, spurious))
      && Do(st, CompareExchange(t, spurious)) ==
         Goto(st, t, HeadLoaded(pc.arena, pc.serial, st.arenas[pc.arena].head))
  {
    assert PcOk(st, t);
  }

  /** A new or reset arena has the user's block as its only serial arena, owned and cached
      by the thread that calls, or none. */
  lemma StartsWithInitial(st: State, act: Action)
    requires Inv(st) && Enabled(st, act) && (act.Construct? || act.Reset?)
    ensures
      && var st' := Do(st, act);
      && act.a in st'.arenas && act.t in st'.threads
      && st'.arenas[act.a].list == (if act.initial == NULL then [] else [act.initial])
      && st'.arenas[act.a].head == st'.arenas[act.a].hint == act.initial
      && Tag(st'.arenas[act.a].tagAndId) ==
         (if act.Reset? then Tag(st.arenas[act.a].tagAndId) else if act.messageOwned then 1 else 0)
      && (act.initial != NULL ==>
           && act.initial in st'.serials && st'.serials[act.initial].owner == act.t
           && st'.threads[act.t].last == act.initial && st'.threads[act.t].seen == st'.arenas[act.a].tagAndId)
  {
    StepKeepsInv(st, act);
    NextIdIsNew(st, act.t);
    if act.Reset? {
      IdAndTag(NextId(st, act.t), Tag(st.arenas[act.a].tagAndId));
    } else {
      IdAndTag(NextId(st, act.t), if act.messageOwned then 1 else 0);
    }
  }

  /** Reset and destruction free exactly the serial arenas of the arena's list. */
  lemma FreesItsList(st: State, act: Action)
    requires Inv(st) && Enabled(st, act) && (act.Reset? || act.Destroy?)
    ensures forall s :: s in st.serials && s !in st.arenas[act.a].list ==>
              s in Do(st, act).serials && Do(st, act).serials[s] == st.serials[s]
    ensures forall s :: s in Do(st, act).serials ==>
              (s in st.serials && s !in st.arenas[act.a].list) || (act.Reset? && s == act.initial)
    ensures act.Destroy? ==> act.a !in Do(st, act).arenas
  {
  }

  /** The ids a thread takes one after another are two apart, until a batch of 256 is used
      up; only then it takes a number from the generator. */
  lemma NextIdFollows(st: State, act: Action)
    requires Inv(st) && Enabled(st, act) && (act.Construct? || act.Reset?)
    ensures
      && var id, st' := NextId(st, act.t), Do(st, act);
      && act.t in st'.threads
      && ((id + 2) % 512 != 0 ==> NextId(st', act.t) == id + 2)
      && ((id + 2) % 512 == 0 ==> NextId(st', act.t) == st'.generator * 512)
      && st'.generator == st.generator + (if id == st.generator * 512 then 1 else 0)
  {
    assert IdsOk(st, act.t);
  }

  // ---------------------------------------------------------------------
  // A call that no other thread disturbs.

  /** What thread t does next in a call for arena a, if no exchange fails spuriously and a
      new block would be at `page`. */
  ghost function Next(st: State, t: Tid, a: ArenaId, page: Addr): Action
    requires t in st.threads
  {
    match st.threads[t].pc
    case Idle => TryCache(t, a)
    case HintLoaded(_, _) => CheckHint(t)
    case Missed(_) => StartWalk(t)
    case Walking(_, _) => Walk(t, page)
    case Created(_, _) => LoadHead(t)
    case HeadLoaded(_, _, _) => SetNext(t)
    case NextSet(_, _, _) => CompareExchange(t, false)
    case CachingSerial(_, _) => WriteCache(t)
    case CachingId(_, _) => WriteCache(t)
    case CachingHint(_, _) => WriteCache(t)
    case Found(_, _) => Return(t)
  }

  /** Within a call there is no choice. */
  lemma OnlyNext(st: State, t: Tid, a: ArenaId, page: Addr, act: Action)
    requires t in st.threads && st.threads[t].pc != Idle && act.t == t && Enabled(st, act)
    requires act.Walk? ==> act.page == page
    requires act.CompareExchange? ==> !act.spurious
    ensures act == Next(st, t, a, page)
  {
  }

  /** One step of thread t leads from st to st'. */
  ghost predicate LeadsInOne(st: State, t: Tid, a: ArenaId, page: Addr, st': State) {
    && t in st.threads && Enabled(st, Next(st, t, a, page)) && Safe(st, Next(st, t, a, page))
    && st' == Do(st, Next(st, t, a, page))
  }

  ghost predicate LeadsAt(states: seq<State>, t: Tid, a: ArenaId, page: Addr, i: nat)
    requires i < |states| - 1
  {
    LeadsInOne(states[i], t, a, page, states[i + 1])
  }

  /** Steps of thread t lead from each of the states to the next one. */
  ghost predicate Path(states: seq<State>, t: Tid, a: ArenaId, page: Addr) {
    forall i {:trigger LeadsAt(states, t, a, page, i)} :: 0 <= i < |states| - 1 ==> LeadsAt(states, t, a, page, i)
  }

  /** These n steps of thread t lead from st to st'. */
  ghost predicate Leads(st: State, t: Tid, a: ArenaId, page: Addr, n: nat, st': State) {
    exists states {:trigger Path(states, t, a, page)} ::
      |states| == n + 1 && states[0] == st && states[n] == st' && Path(states, t, a, page)
  }

  lemma PathsJoin(p: seq<State>, q: seq<State>, t: Tid, a: ArenaId, page: Addr)
    requires p != [] && q != [] && p[|p| - 1] == q[0] && Path(p, t, a, page) && Path(q, t, a, page)
    ensures Path(p + q[1..], t, a, page)
  {
    var r := p + q[1..];
    forall i | 0 <= i < |r| - 1
      ensures LeadsAt(r, t, a, page, i)
    {
      if i < |p| - 1 {
        assert r[i] == p[i] && r[i + 1] == p[i + 1];
        assert LeadsAt(p, t, a, page, i);
      } else {
        assert r[i] == q[i - (|p| - 1)] && r[i + 1] == q[i + 1 - (|p| - 1)];
        assert LeadsAt(q, t, a, page, i - (|p| - 1));
      }
    }
  }

  lemma EndsJoin<S>(p: seq<S>, q: seq<S>)
    requires p != [] && q != [] && p[|p| - 1] == q[0]
    ensures
      && var r := p + q[1..];
      && |r| == |p| + |q| - 1 && r[0] == p[0] && r[|r| - 1] == q[|q| - 1]
  {
  }

  lemma LeadsOn(st: State, t: Tid, a: ArenaId, page: Addr, n: nat, st1: State, m: nat, st2: State)
    requires Leads(st, t, a, page, n, st1) && Leads(st1, t, a, page, m, st2)
    ensures Leads(st, t, a, page, n + m, st2)
  {
    var p :| |p| == n + 1 && p[0] == st && p[n] == st1 && Path(p, t, a, page);
    var q :| |q| == m + 1 && q[0] == st1 && q[m] == st2 && Path(q, t, a, page);
    PathsJoin(p, q, t, a, page);
    EndsJoin(p, q);
  }

  lemma OneStep(st: State, t: Tid, a: ArenaId, page: Addr)
    requires Inv(st) && t in st.threads && Enabled(st, Next(st, t, a, page))
    ensures Safe(st, Next(st, t, a, page)) && Inv(Do(st, Next(st, t, a, page)))
    ensures Leads(st, t, a, page, 1, Do(st, Next(st, t, a, page)))
  {
    StepKeepsInv(st, Next(st, t, a, page));
    assert Path([st, Do(st, Next(st, t, a, page))], t, a, page);
  }

  /** Thread t owns the serial arena at position i of arena a's list. */
  ghost predicate OwnAt(st: State, t: Tid, a: ArenaId, i: nat)
    requires a in st.arenas
  {
    && i < |st.arenas[a].list| && st.arenas[a].list[i] in st.serials
    && st.serials[st.arenas[a].list[i]].owner == t
  }

  /** Thread t has found s and holds it in all its caches. */
  ghost function FoundAndCached(st: State, t: Tid, a: ArenaId, s: Addr): State
    requires t in st.threads && a in st.arenas
  {
    st.(threads := st.threads[t := st.threads[t].(last := s, seen := st.arenas[a].tagAndId, pc := Found(a, s))],
        arenas := st.arenas[a := st.arenas[a].(hint := s)])
  }

  /** A serial arena of thread t at `page` in front of arena a's list. */
  ghost function Pushed(st: State, t: Tid, a: ArenaId, page: Addr): State
    requires a in st.arenas
  {
    var arena := st.arenas[a];
    st.(arenas := st.arenas[a := arena.(head := page, list := arena.list + [page])],
        serials := st.serials[page := Serial(t, arena.head, Listed(a, |arena.list|))])
  }

  /** The three writes of CacheSerialArena. */
  lemma CachesInThree(st: State, t: Tid, a: ArenaId, page: Addr, s: Addr)
    requires Inv(st) && t in st.threads && st.threads[t].pc == CachingSerial(a, s)
    ensures a in st.arenas && Leads(st, t, a, page, 3, FoundAndCached(st, t, a, s))
  {
    assert PcOk(st, t);
    OneStep(st, t, a, page);
    var st1 := Do(st, WriteCache(t));
    OneStep(st1, t, a, page);
    var st2 := Do(st1, WriteCache(t));
    OneStep(st2, t, a, page);
    LeadsOn(st, t, a, page, 1, st1, 1, st2);
    LeadsOn(st, t, a, page, 2, st2, 1, Do(st2, WriteCache(t)));
    assert Do(st2, WriteCache(t)) == FoundAndCached(st, t, a, s) by {
      assert Do(st2, WriteCache(t)).threads == FoundAndCached(st, t, a, s).threads;
    }
  }

  /** The load of the head, the link and the exchange. */
  lemma PublishesInThree(st: State, t: Tid, a: ArenaId, page: Addr, s: Addr)
    requires Inv(st) && t in st.threads && st.threads[t].pc == Created(a, s)
    ensures a in st.arenas && Leads(st, t, a, page, 3, Goto(Pushed(st, t, a, s), t, CachingSerial(a, s)))
    ensures Inv(Goto(Pushed(st, t, a, s), t, CachingSerial(a, s)))
  {
    assert PcOk(st, t);
    OneStep(st, t, a, page);
    var st1 := Do(st, LoadHead(t));
    OneStep(st1, t, a, page);
    var st2 := Do(st1, SetNext(t));
    OneStep(st2, t, a, page);
    var st3 := Do(st2, CompareExchange(t, false));
    LeadsOn(st, t, a, page, 1, st1, 1, st2);
    LeadsOn(st, t, a, page, 2, st2, 1, st3);
    assert st3 == Goto(Pushed(st, t, a, s), t, CachingSerial(a, s)) by {
      assert st3.threads == Goto(Pushed(st, t, a, s), t, CachingSerial(a, s)).threads;
      assert st3.serials == Pushed(st, t, a, s).serials;
    }
  }

  /** With k serial arenas still to look at, own is the position of thread t's one, if any. */
  ghost predicate WalkingAt(st: State, t: Tid, a: ArenaId, page: Addr, k: nat, own: int) {
    && t in st.threads && a in st.arenas && k <= |st.arenas[a].list|
    && st.threads[t].pc == Walking(a, if k == 0 then NULL else st.arenas[a].list[k - 1])
    && page != NULL && page !in st.serials
    && if own >= 0 then own < k && OwnAt(st, t, a, own) else own == -1 && NotOwnedFrom(st, t, a, 0)
  }

  lemma WalkStep(st: State, t: Tid, a: ArenaId, page: Addr, k: nat, own: int)
    requires Inv(st) && WalkingAt(st, t, a, page, k, own)
    ensures Enabled(st, Walk(t, page)) && Safe(st, Walk(t, page))
    ensures Do(st, Walk(t, page)) ==
            if k == 0 then Goto(WithPrivate(st, t, page), t, Created(a, page))
            else if own == k - 1 then Goto(st, t, CachingSerial(a, st.arenas[a].list[own]))
            else Goto(st, t, Walking(a, if k == 1 then NULL else st.arenas[a].list[k - 2]))
  {
    assert ArenaOk(st, a);
    if k > 0 {
      assert LinkOk(st, a, k - 1);
      if 0 <= own < k - 1 {
        assert OwnersDiffer(st, a, own, k - 1);
      }
    }
  }

  lemma WalksOn(st: State, t: Tid, a: ArenaId, page: Addr, k: nat, own: int)
    requires Inv(st) && WalkingAt(st, t, a, page, k, own) && k > 0 && own != k - 1
    ensures WalkingAt(Goto(st, t, Walking(a, if k == 1 then NULL else st.arenas[a].list[k - 2])), t, a, page, k - 1, own)
  {
  }

  /** The walk ends at the thread's own serial arena, or, if it has none, at a new one. */
  lemma {:induction false} WalkFinds(st: State, t: Tid, a: ArenaId, page: Addr, k: nat, own: int)
    requires Inv(st) && WalkingAt(st, t, a, page, k, own)
    ensures if own >= 0 then Leads(st, t, a, page, k - own, Goto(st, t, CachingSerial(a, st.arenas[a].list[own])))
            else Leads(st, t, a, page, k + 1, Goto(WithPrivate(st, t, page), t, Created(a, page)))
    decreases k
  {
    WalkStep(st, t, a, page, k, own);
    OneStep(st, t, a, page);
    if k > 0 && own != k - 1 {
      var walking := Walking(a, if k == 1 then NULL else st.arenas[a].list[k - 2]);
      var st1 := Goto(st, t, walking);
      WalksOn(st, t, a, page, k, own);
      WalkFinds(st1, t, a, page, k - 1, own);
      if own >= 0 {
        var found := CachingSerial(a, st.arenas[a].list[own]);
        GotoTwice(st, t, walking, found);
        LeadsOn(st, t, a, page, 1, st1, k - 1 - own, Goto(st, t, found));
      } else {
        GotoTwice(WithPrivate(st, t, page), t, walking, Created(a, page));
        LeadsOn(st, t, a, page, 1, st1, k, Goto(WithPrivate(st, t, page), t, Created(a, page)));
      }
    }
  }

  /** A serial arena at `page` that thread t has not published yet. */
  ghost function WithPrivate(st: State, t: Tid, page: Addr): State {
    st.(serials := st.serials[page := Serial(t, NULL, Private(t))])
  }

  lemma GotoTwice(st: State, t: Tid, pc: Pc, pc': Pc)
    requires t in st.threads
    ensures Goto(Goto(st, t, pc), t, pc') == Goto(st, t, pc')
  {
    assert Goto(Goto(st, t, pc), t, pc').threads == Goto(st, t, pc').threads;
  }

  lemma LeadingStepKeepsInv(st: State, t: Tid, a: ArenaId, page: Addr, st': State)
    ensures Inv(st) && LeadsInOne(st, t, a, page, st') ==> Inv(st')
  {
    if Inv(st) && LeadsInOne(st, t, a, page, st') {
      StepKeepsInv(st, Next(st, t, a, page));
    }
  }

  lemma {:induction false} HoldsAlong(holds: seq<bool>, i: nat)
    requires i < |holds| && holds[0]
    requires forall k :: 0 <= k < |holds| - 1 && holds[k] ==> holds[k + 1]
    ensures holds[i]
  {
    if i > 0 {
      HoldsAlong(holds, i - 1);
    }
  }

  lemma PathKeepsInv(states: seq<State>, t: Tid, a: ArenaId, page: Addr, i: nat)
    requires Path(states, t, a, page) && i < |states| && Inv(states[0])
    ensures Inv(states[i])
  {
    var holds := seq(|states|, k requires 0 <= k < |states| => Inv(states[k]));
    forall k | 0 <= k < |holds| - 1 && holds[k]
      ensures holds[k + 1]
    {
      assert LeadsAt(states, t, a, page, k);
      LeadingStepKeepsInv(states[k], t, a, page, states[k + 1]);
    }
    HoldsAlong(holds, i);
  }

  lemma LeadsKeepsInv(st: State, t: Tid, a: ArenaId, page: Addr, n: nat, st': State)
    requires Inv(st) && Leads(st, t, a, page, n, st')
    ensures Inv(st')
  {
    var p :| |p| == n + 1 && p[0] == st && p[n] == st' && Path(p, t, a, page);
    PathKeepsInv(p, t, a, page, n);
  }

  /** Where thread t was does not matter once it has found its serial arena. */
  lemma FoundFrom(st: State, t: Tid, a: ArenaId, pc: Pc, s: Addr)
    requires t in st.threads && a in st.arenas
    ensures FoundAndCached(Goto(st, t, pc), t, a, s) == FoundAndCached(st, t, a, s)
  {
    assert FoundAndCached(Goto(st, t, pc), t, a, s).threads == FoundAndCached(st, t, a, s).threads;
  }

  lemma FinishWithOwn(st: State, t: Tid, a: ArenaId, page: Addr, n: nat, s: Addr)
    requires Inv(st) && t in st.threads && a in st.arenas && Leads(st, t, a, page, n, Goto(st, t, CachingSerial(a, s)))
    ensures Leads(st, t, a, page, n + 3, FoundAndCached(st, t, a, s))
  {
    var st1 := Goto(st, t, CachingSerial(a, s));
    LeadsKeepsInv(st, t, a, page, n, st1);
    CachesInThree(st1, t, a, page, s);
    FoundFrom(st, t, a, CachingSerial(a, s), s);
    LeadsOn(st, t, a, page, n, st1, 3, FoundAndCached(st1, t, a, s));
  }

  lemma FinishWithNew(st: State, t: Tid, a: ArenaId, page: Addr, n: nat)
    requires Inv(st) && t in st.threads && a in st.arenas
    requires Leads(st, t, a, page, n, Goto(WithPrivate(st, t, page), t, Created(a, page)))
    ensures Leads(st, t, a, page, n + 6, FoundAndCached(Pushed(st, t, a, page), t, a, page))
  {
    var st1 := Goto(WithPrivate(st, t, page), t, Created(a, page));
    LeadsKeepsInv(st, t, a, page, n, st1);
    PublishesInThree(st1, t, a, page, page);
    var st2 := Goto(Pushed(st1, t, a, page), t, CachingSerial(a, page));
    LeadsOn(st, t, a, page, n, st1, 3, st2);
    CachesInThree(st2, t, a, page, page);
    LeadsOn(st, t, a, page, n + 3, st2, 3, FoundAndCached(st2, t, a, page));
    PushedFrom(st, t, a, page);
    FoundFrom(Pushed(st1, t, a, page), t, a, CachingSerial(a, page), page);
    FoundFrom(Pushed(st, t, a, page), t, a, Created(a, page), page);
  }

  lemma PushedFrom(st: State, t: Tid, a: ArenaId, page: Addr)
    requires t in st.threads && a in st.arenas
    ensures Pushed(Goto(WithPrivate(st, t, page), t, Created(a, page)), t, a, page) ==
            Goto(Pushed(st, t, a, page), t, Created(a, page))
  {
    assert Pushed(Goto(WithPrivate(st, t, page), t, Created(a, page)), t, a, page).serials ==
           Goto(Pushed(st, t, a, page), t, Created(a, page)).serials;
  }

  /** What is found after a miss of the cache and the hint: the thread's own serial arena,
      or a new one. */
  lemma MissedFinds(st: State, t: Tid, a: ArenaId, page: Addr, own: int)
    requires Inv(st) && t in st.threads && a in st.arenas && st.threads[t].pc == Missed(a)
    requires page != NULL && page !in st.serials
    requires if own >= 0 then OwnAt(st, t, a, own) else own == -1 && NotOwnedFrom(st, t, a, 0)
    ensures
      && var n := |st.arenas[a].list|;
      && (own >= 0 ==> Leads(st, t, a, page, n - own + 4, FoundAndCached(st, t, a, st.arenas[a].list[own])))
      && (own < 0 ==> Leads(st, t, a, page, n + 8, FoundAndCached(Pushed(st, t, a, page), t, a, page)))
  {
    var n := |st.arenas[a].list|;
    assert ArenaOk(st, a);
    OneStep(st, t, a, page);
    var walking := Walking(a, if n == 0 then NULL else st.arenas[a].list[n - 1]);
    var st1 := Do(st, StartWalk(t));
    assert st1 == Goto(st, t, walking);
    WalkFinds(st1, t, a, page, n, own);
    if own >= 0 {
      var s := st.arenas[a].list[own];
      GotoTwice(st, t, walking, CachingSerial(a, s));
      LeadsOn(st, t, a, page, 1, st1, n - own, Goto(st, t, CachingSerial(a, s)));
      FinishWithOwn(st, t, a, page, n - own + 1, s);
    } else {
      GotoTwice(WithPrivate(st, t, page), t, walking, Created(a, page));
      LeadsOn(st, t, a, page, 1, st1, n + 1, Goto(WithPrivate(st, t, page), t, Created(a, page)));
      FinishWithNew(st, t, a, page, n + 2);
    }
  }

  /** The position of the thread's own serial arena, -1 if it has none. */
  lemma OwnPosition(st: State, t: Tid, a: ArenaId) returns (own: int)
    requires Inv(st) && a in st.arenas
    ensures if own >= 0 then OwnAt(st, t, a, own) else own == -1 && NotOwnedFrom(st, t, a, 0)
  {
    assert ArenaOk(st, a);
    if i: nat :| OwnAt(st, t, a, i) {
      return i;
    }
    forall i | 0 <= i < |st.arenas[a].list|
      ensures st.arenas[a].list[i] in st.serials && st.serials[st.arenas[a].list[i]].owner != t
    {
      assert LinkOk(st, a, i) && !OwnAt(st, t, a, i);
    }
    return -1;
  }

  lemma CacheMisses(st: State, t: Tid, a: ArenaId, page: Addr)
    requires Inv(st) && t in st.threads && st.threads[t].pc == Idle && a in st.arenas
    requires st.threads[t].seen != st.arenas[a].tagAndId
    ensures
      && var st1 := Goto(st, t, HintLoaded(a, st.arenas[a].hint));
      && Inv(st1) && Leads(st, t, a, page, 1, st1)
  {
    OneStep(st, t, a, page);
    assert Do(st, TryCache(t, a)) == Goto(st, t, HintLoaded(a, st.arenas[a].hint));
  }

  lemma CallFindsHint(st: State, t: Tid, a: ArenaId, page: Addr)
    requires Inv(st) && t in st.threads && st.threads[t].pc == Idle && a in st.arenas
    requires st.threads[t].seen != st.arenas[a].tagAndId
    requires st.arenas[a].hint != NULL && st.arenas[a].hint in st.serials
    requires st.serials[st.arenas[a].hint].owner == t
    ensures Leads(st, t, a, page, 2, Goto(st, t, Found(a, st.arenas[a].hint)))
  {
    var loaded, found := HintLoaded(a, st.arenas[a].hint), Found(a, st.arenas[a].hint);
    CacheMisses(st, t, a, page);
    OneStep(Goto(st, t, loaded), t, a, page);
    GotoTwice(st, t, loaded, found);
    LeadsOn(st, t, a, page, 1, Goto(st, t, loaded), 1, Goto(st, t, found));
  }

  lemma CallMisses(st: State, t: Tid, a: ArenaId, page: Addr)
    requires Inv(st) && t in st.threads && st.threads[t].pc == Idle && a in st.arenas
    requires st.threads[t].seen != st.arenas[a].tagAndId
    requires st.arenas[a].hint != NULL ==>
               st.arenas[a].hint in st.serials && st.serials[st.arenas[a].hint].owner != t
    ensures Inv(Goto(st, t, Missed(a))) && Leads(st, t, a, page, 2, Goto(st, t, Missed(a)))
  {
    var loaded := HintLoaded(a, st.arenas[a].hint);
    CacheMisses(st, t, a, page);
    OneStep(Goto(st, t, loaded), t, a, page);
    GotoTwice(st, t, loaded, Missed(a));
    LeadsOn(st, t, a, page, 1, Goto(st, t, loaded), 1, Goto(st, t, Missed(a)));
  }

  lemma CallFindsOwn(st: State, t: Tid, a: ArenaId, page: Addr, own: nat)
    requires Inv(st) && t in st.threads && st.threads[t].pc == Idle && a in st.arenas
    requires st.threads[t].seen != st.arenas[a].tagAndId
    requires st.arenas[a].hint != NULL ==>
               st.arenas[a].hint in st.serials && st.serials[st.arenas[a].hint].owner != t
    requires page != NULL && page !in st.serials && OwnAt(st, t, a, own)
    ensures Leads(st, t, a, page, |st.arenas[a].list| - own + 6, FoundAndCached(st, t, a, st.arenas[a].list[own]))
  {
    var s, m := st.arenas[a].list[own], |st.arenas[a].list| - own + 4;
    CallMisses(st, t, a, page);
    MissedFinds(Goto(st, t, Missed(a)), t, a, page, own);
    FoundFrom(st, t, a, Missed(a), s);
    LeadsOn(st, t, a, page, 2, Goto(st, t, Missed(a)), m, FoundAndCached(st, t, a, s));
  }

  lemma CallFindsNew(st: State, t: Tid, a: ArenaId, page: Addr)
    requires Inv(st) && t in st.threads && st.threads[t].pc == Idle && a in st.arenas
    requires st.threads[t].seen != st.arenas[a].tagAndId
    requires st.arenas[a].hint != NULL ==>
               st.arenas[a].hint in st.serials && st.serials[st.arenas[a].hint].owner != t
    requires page != NULL && page !in st.serials && NotOwnedFrom(st, t, a, 0)
    ensures Leads(st, t, a, page, |st.arenas[a].list| + 10, FoundAndCached(Pushed(st, t, a, page), t, a, page))
  {
    var m := |st.arenas[a].list| + 8;
    CallMisses(st, t, a, page);
    MissedFinds(Goto(st, t, Missed(a)), t, a, page, -1);
    FoundFrom(Pushed(st, t, a, page), t, a, Missed(a), page);
    LeadsOn(st, t, a, page, 2, Goto(st, t, Missed(a)), m, FoundAndCached(Pushed(st, t, a, page), t, a, page));
  }

  lemma CallHits(st: State, t: Tid, a: ArenaId, page: Addr)
    requires Inv(st) && t in st.threads && st.threads[t].pc == Idle && a in st.arenas
    requires st.threads[t].seen == st.arenas[a].tagAndId
    ensures Leads(st, t, a, page, 1, Goto(st, t, Found(a, st.threads[t].last)))
  {
    OneStep(st, t, a, page);
  }

  /** Every call ends, if no other thread disturbs it and no exchange fails spuriously: in
      one step if the cache matches, in two if the hint is the thread's own, and otherwise
      after a walk to its serial arena, or to the end of the list and with a new one in
      front; then the serial arena is cached and is the hint. */
  lemma CallEnds(st: State, t: Tid, a: ArenaId, page: Addr) returns (own: int)
    requires Inv(st) && t in st.threads && st.threads[t].pc == Idle && a in st.arenas
    requires page != NULL && page !in st.serials
    ensures if own >= 0 then OwnAt(st, t, a, own) else own == -1 && NotOwnedFrom(st, t, a, 0)
    ensures
      && var arena := st.arenas[a];
      && var n := |arena.list|;
      && (arena.hint != NULL ==> arena.hint in st.serials)
      && if st.threads[t].seen == arena.tagAndId then
           Leads(st, t, a, page, 1, Goto(st, t, Found(a, st.threads[t].last)))
         else if arena.hint != NULL && st.serials[arena.hint].owner == t then
           Leads(st, t, a, page, 2, Goto(st, t, Found(a, arena.hint)))
         else if own >= 0 then
           Leads(st, t, a, page, n - own + 6, FoundAndCached(st, t, a, arena.list[own]))
         else
           Leads(st, t, a, page, n + 10, FoundAndCached(Pushed(st, t, a, page), t, a, page))
  {
    var arena := st.arenas[a];
    own := OwnPosition(st, t, a);
    assert ArenaOk(st, a);
    if st.threads[t].seen == arena.tagAndId {
      CallHits(st, t, a, page);
    } else if arena.hint != NULL && st.serials[arena.hint].owner == t {
      CallFindsHint(st, t, a, page);
    } else if own >= 0 {
      CallFindsOwn(st, t, a, page, own);
    } else {
      CallFindsNew(st, t, a, page);
    }
  }

  /** What a call leaves behind when it had to look for the serial arena, in full. */
  lemma CallLeaves(st: State, t: Tid, a: ArenaId, s: Addr)
    requires t in st.threads && a in st.arenas
    ensures
      && var st' := FoundAndCached(st, t, a, s);
      && st'.threads == st.threads[t := Thread(st.threads[t].nextId, st.arenas[a].tagAndId, s, Found(a, s))]
      && st'.arenas == st.arenas[a := Arena(st.arenas[a].tagAndId, st.arenas[a].head, s, st.arenas[a].list)]
      && st'.serials == st.serials && st'.issued == st.issued && st'.generator == st.generator
    ensures
      && var st', arena := Pushed(st, t, a, s), st.arenas[a];
      && st'.arenas == st.arenas[a := Arena(arena.tagAndId, s, arena.hint, arena.list + [s])]
      && st'.serials == st.serials[s := Serial(t, arena.head, Listed(a, |arena.list|))]
      && st'.threads == st.threads && st'.issued == st.issued && st'.generator == st.generator
  {
  }
}
