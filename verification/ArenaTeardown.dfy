/** Freeing and resetting a thread-safe arena. Its blocks form one chain per
    thread, newest block first; the oldest block of a chain also holds the
    thread's serial arena, so it may only be freed once the walk over the serial
    arenas has moved past it. Freed blocks leave the memory map, so every access
    below is checked not to touch freed memory. */
module ArenaTeardown {
  import Common
  import SerialArenas

  type Addr = nat

  const NULL: Addr := 0

  /** sizeof(AllocationPolicy), a multiple of 8. */
  const POLICY := 40

  /** The smallest first block: a header, a serial arena and, if there is one, the policy. */
  function MinimumSize(hasPolicy: bool): nat {
    SerialArenas.BLOCK_HEADER + SerialArenas.SERIAL_ARENA + if hasPolicy then POLICY else 0
  }

  /** A serial arena, identified by the address of the block it lives in. */
  datatype Serial = Serial(head: Addr, next: Addr, spaceAllocated: nat)

  datatype Block = Block(next: Addr, size: nat, serial: Serial)

  ghost function Flatten(chains: seq<seq<Addr>>): seq<Addr> {
    if chains == [] then [] else chains[0] + Flatten(chains[1..])
  }

  ghost function Sizes(memory: map<Addr, Block>, blocks: seq<Addr>): nat
    requires forall b :: b in blocks ==> b in memory
  {
    if blocks == [] then 0 else memory[blocks[0]].size + Sizes(memory, blocks[1..])
  }

  ghost predicate Differ(s: seq<Addr>, i: nat, j: nat)
    requires i < |s| && j < |s|
  {
    s[i] != s[j]
  }

  ghost predicate NoDuplicates(s: seq<Addr>) {
    forall i, j {:trigger Differ(s, i, j)} :: 0 <= i < j < |s| ==> Differ(s, i, j)
  }

  lemma NotBefore(s: seq<Addr>, p: nat, q: nat)
    requires NoDuplicates(s) && p <= q < |s|
    ensures s[q] !in s[..p]
  {
    forall i | 0 <= i < p
      ensures s[..p][i] != s[q]
    {
      assert Differ(s, i, q);
    }
  }

  ghost function Elems(s: seq<Addr>): set<Addr> {
    set b | b in s
  }

  ghost function Last(chain: seq<Addr>): Addr
    requires chain != []
  {
    chain[|chain| - 1]
  }

  /** Next pointers lead from the newest block to the oldest. */
  ghost predicate ChainOk(memory: map<Addr, Block>, chain: seq<Addr>) {
    && chain != []
    && forall j {:trigger chain[j]} :: 0 <= j < |chain| ==>
         && chain[j] in memory
         && chain[j] != NULL
         && memory[chain[j]].next == if j + 1 < |chain| then chain[j + 1] else NULL
  }

  /** From `serial` on, the list of serial arenas owns exactly these chains. */
  ghost predicate ListOk(memory: map<Addr, Block>, serial: Addr, chains: seq<seq<Addr>>)
    decreases chains
  {
    if chains == [] then serial == NULL
    else
      && ChainOk(memory, chains[0])
      && serial == Last(chains[0])
      && memory[serial].serial.head == chains[0][0]
      && memory[serial].serial.spaceAllocated == Sizes(memory, chains[0])
      && ListOk(memory, memory[serial].serial.next, chains[1..])
  }

  lemma {:induction false} ListBlocks(memory: map<Addr, Block>, serial: Addr, chains: seq<seq<Addr>>)
    requires ListOk(memory, serial, chains)
    ensures forall b :: b in Flatten(chains) ==> b in memory && b != NULL
    decreases chains
  {
    if chains != [] {
      ListBlocks(memory, memory[serial].serial.next, chains[1..]);
    }
  }

  lemma {:induction false} SizesKept(memory: map<Addr, Block>, memory': map<Addr, Block>, blocks: seq<Addr>)
    requires forall b :: b in blocks ==> b in memory && b in memory' && memory'[b] == memory[b]
    ensures Sizes(memory', blocks) == Sizes(memory, blocks)
  {
    if blocks != [] {
      SizesKept(memory, memory', blocks[1..]);
    }
  }

  lemma {:induction false} SizesConcat(memory: map<Addr, Block>, a: seq<Addr>, b: seq<Addr>)
    requires forall x :: x in a || x in b ==> x in memory
    ensures forall x :: x in a + b ==> x in memory
    ensures Sizes(memory, a + b) == Sizes(memory, a) + Sizes(memory, b)
  {
    if a == [] {
      assert a + b == b;
    } else {
      assert (a + b)[1..] == a[1..] + b;
      SizesConcat(memory, a[1..], b);
    }
  }

  lemma SizesSnoc(memory: map<Addr, Block>, blocks: seq<Addr>, n: nat)
    requires n < |blocks| && forall b :: b in blocks ==> b in memory
    ensures Sizes(memory, blocks[..n + 1]) == Sizes(memory, blocks[..n]) + memory[blocks[n]].size
  {
    assert blocks[..n + 1] == blocks[..n] + [blocks[n]];
    SizesConcat(memory, blocks[..n], [blocks[n]]);
    assert Sizes(memory, [blocks[n]]) == memory[blocks[n]].size + Sizes(memory, [blocks[n]][1..]);
  }

  /** The first p of all blocks, and no others, have been freed. */
  ghost predicate FreedTo(before: map<Addr, Block>, all: seq<Addr>, p: nat, freed0: seq<Addr>,
                          memory: map<Addr, Block>, freed: seq<Addr>, space: nat)
    requires forall b :: b in all ==> b in before
  {
    && p <= |all|
    && memory == before - Elems(all[..p])
    && freed == freed0 + all[..p]
    && space == Sizes(before, all[..p])
  }

  lemma ConsKeepsDistinct(b: Addr, all: seq<Addr>)
    requires NoDuplicates(all) && b !in all
    ensures NoDuplicates([b] + all)
  {
    forall i, j | 0 <= i < j < |[b] + all|
      ensures Differ([b] + all, i, j)
    {
      if i > 0 {
        assert Differ(all, i - 1, j - 1);
      } else {
        assert all[j - 1] in all;
      }
    }
  }

  lemma FlattenSplit(all: seq<Addr>, p: nat, chains: seq<seq<Addr>>)
    requires p <= |all| && chains != [] && Flatten(chains) == all[p..]
    ensures p + |chains[0]| <= |all|
    ensures all[p..p + |chains[0]|] == chains[0]
    ensures all[p + |chains[0]|..] == Flatten(chains[1..])
  {
    assert all[p..][..|chains[0]|] == chains[0];
    assert all[p..][|chains[0]|..] == Flatten(chains[1..]);
  }

  /** Freeing all but the last block of a chain right behind the first p blocks. */
  lemma FreedMore(before: map<Addr, Block>, all: seq<Addr>, p: nat, freed0: seq<Addr>,
                  memory: map<Addr, Block>, freed: seq<Addr>, space: nat, chain: seq<Addr>)
    requires forall b :: b in all ==> b in before
    requires FreedTo(before, all, p, freed0, memory, freed, space)
    requires chain != [] && p + |chain| <= |all| && all[p..p + |chain|] == chain
    ensures all[p + |chain| - 1] == Last(chain)
    ensures forall b :: b in chain ==> b in before
    ensures var some := chain[..|chain| - 1];
            FreedTo(before, all, p + |chain| - 1, freed0, memory - Elems(some), freed + some, space + Sizes(before, some))
  {
    var some := chain[..|chain| - 1];
    SliceOfAll(all, p, chain);
    SizesConcat(before, all[..p], some);
    ElemsConcat(all[..p], some);
    Common.Assoc(freed0, all[..p], some);
  }

  lemma SliceOfAll(all: seq<Addr>, p: nat, chain: seq<Addr>)
    requires chain != [] && p + |chain| <= |all| && all[p..p + |chain|] == chain
    ensures all[p + |chain| - 1] == Last(chain)
    ensures forall b :: b in chain ==> b in all
    ensures all[..p + |chain| - 1] == all[..p] + chain[..|chain| - 1]
  {
    assert all[p..p + |chain|][..|chain| - 1] == all[p..p + |chain| - 1];
  }

  lemma ElemsConcat(a: seq<Addr>, b: seq<Addr>)
    ensures Elems(a + b) == Elems(a) + Elems(b)
  {
  }

  /** The state of the walk once the first p of all blocks have been passed: all
      but the last of them are freed. */
  ghost predicate Walked(before: map<Addr, Block>, all: seq<Addr>, p: nat, freed0: seq<Addr>,
                         memory: map<Addr, Block>, freed: seq<Addr>, mem: Addr, space: nat)
    requires forall b :: b in all ==> b in before
  {
    && p <= |all|
    && if p == 0 then mem == NULL && memory == before && freed == freed0 && space == 0
       else
         && mem == all[p - 1] != NULL
         && FreedTo(before, all, p - 1, freed0, memory, freed, space)
  }

  lemma ChainKept(memory: map<Addr, Block>, memory': map<Addr, Block>, chain: seq<Addr>)
    requires ChainOk(memory, chain)
    requires forall b :: b in chain ==> b in memory' && memory'[b] == memory[b]
    ensures ChainOk(memory', chain) && Last(chain) in chain
    ensures Sizes(memory', chain) == Sizes(memory, chain)
  {
    assert forall j :: 0 <= j < |chain| ==> chain[j] in chain;
    SizesKept(memory, memory', chain);
  }

  /** Memory that still holds a list's blocks unchanged still holds the list. */
  lemma {:induction false} ListKept(memory: map<Addr, Block>, memory': map<Addr, Block>, serial: Addr, chains: seq<seq<Addr>>)
    requires ListOk(memory, serial, chains)
    requires forall b :: b in Flatten(chains) ==> b in memory && b in memory' && memory'[b] == memory[b]
    ensures ListOk(memory', serial, chains)
    decreases chains
  {
    if chains != [] {
      ChainKept(memory, memory', chains[0]);
      ListKept(memory, memory', memory[serial].serial.next, chains[1..]);
    }
  }

  /** The walk stands at `serial`, with the first p of all blocks behind it. */
  ghost predicate At(before: map<Addr, Block>, all: seq<Addr>, p: nat, serial: Addr, rest: seq<seq<Addr>>) {
    p <= |all| && Flatten(rest) == all[p..] && ListOk(before, serial, rest)
  }

  lemma NextChain(before: map<Addr, Block>, all: seq<Addr>, p: nat, serial: Addr, rest: seq<seq<Addr>>)
    requires At(before, all, p, serial, rest) && serial != NULL
    ensures rest != [] && p + |rest[0]| <= |all| && all[p..p + |rest[0]|] == rest[0]
    ensures ChainOk(before, rest[0]) && serial == Last(rest[0]) && before[serial].serial.head == rest[0][0]
    ensures At(before, all, p + |rest[0]|, before[serial].serial.next, rest[1..])
  {
    FlattenSplit(all, p, rest);
  }

  lemma WalkEnds(before: map<Addr, Block>, all: seq<Addr>, p: nat, rest: seq<seq<Addr>>)
    requires At(before, all, p, NULL, rest)
    ensures p == |all|
  {
  }

  // ---------------------------------------------------------------------
  // A block more in one of the chains.

  function WithBlock(memory: map<Addr, Block>, serial: Addr, b: Addr, size: nat): map<Addr, Block>
    requires serial in memory
  {
    var s := memory[serial].serial;
    memory[b := Block(s.head, size, Serial(NULL, NULL, 0))]
      [serial := memory[serial].(serial := Serial(b, s.next, s.spaceAllocated + size))]
  }

  function Extended(chains: seq<seq<Addr>>, k: nat, b: Addr): seq<seq<Addr>>
    requires k < |chains|
  {
    chains[k := [b] + chains[k]]
  }

  lemma SizesCons(memory: map<Addr, Block>, b: Addr, chain: seq<Addr>)
    requires b in memory && forall c :: c in chain ==> c in memory
    ensures Sizes(memory, [b] + chain) == memory[b].size + Sizes(memory, chain)
  {
    assert ([b] + chain)[1..] == chain;
  }

  lemma {:induction false} SizesSame(memory: map<Addr, Block>, memory': map<Addr, Block>, blocks: seq<Addr>)
    requires forall b :: b in blocks ==> b in memory && b in memory' && memory'[b].size == memory[b].size
    ensures Sizes(memory', blocks) == Sizes(memory, blocks)
  {
    if blocks != [] {
      SizesSame(memory, memory', blocks[1..]);
    }
  }

  /** The chain that gets the block. */
  lemma ChainExtended(memory: map<Addr, Block>, chain: seq<Addr>, serial: Addr, b: Addr, size: nat)
    requires ChainOk(memory, chain) && serial == Last(chain) && memory[serial].serial.head == chain[0]
    requires memory[serial].serial.spaceAllocated == Sizes(memory, chain)
    requires b != NULL && b !in memory
    ensures
      && var m, c := WithBlock(memory, serial, b, size), [b] + chain;
      && ChainOk(m, c) && serial == Last(c) && m[serial].serial.head == b
      && m[serial].serial.spaceAllocated == Sizes(m, c)
      && m[serial].serial.next == memory[serial].serial.next
  {
    var m, c := WithBlock(memory, serial, b, size), [b] + chain;
    assert serial in memory;
    forall j | 0 <= j < |chain|
      ensures chain[j] in memory && m[chain[j]].next == memory[chain[j]].next && m[chain[j]].size == memory[chain[j]].size
    {
    }
    forall j | 0 <= j < |c|
      ensures c[j] in m && c[j] != NULL && m[c[j]].next == if j + 1 < |c| then c[j + 1] else NULL
    {
      if j > 0 {
        assert c[j] == chain[j - 1];
      }
    }
    SizesSame(memory, m, chain);
    SizesCons(m, b, chain);
  }

  /** Adding a block to chain k keeps the list in order. */
  lemma {:induction false} ListExtended(memory: map<Addr, Block>, first: Addr, chains: seq<seq<Addr>>, k: nat,
                                        b: Addr, size: nat)
    requires ListOk(memory, first, chains) && k < |chains| && NoDuplicates(Flatten(chains))
    requires b != NULL && b !in memory && chains[k] != [] && Last(chains[k]) in memory
    ensures ListOk(WithBlock(memory, Last(chains[k]), b, size), first, Extended(chains, k, b))
    decreases k
  {
    var serial := Last(chains[k]);
    var m := WithBlock(memory, serial, b, size);
    var rest := chains[1..];
    ListBlocks(memory, first, chains);
    ListBlocks(memory, memory[first].serial.next, rest);
    TailDistinct(chains);
    if k == 0 {
      ChainExtended(memory, chains[0], serial, b, size);
      assert serial in chains[0];
      ListKept(memory, m, memory[first].serial.next, rest);
      assert Extended(chains, k, b)[1..] == rest;
    } else {
      assert serial in rest[k - 1] && rest[k - 1] == chains[k];
      InFlatten(rest, k - 1, serial);
      ChainKept(memory, m, chains[0]);
      ListExtended(memory, memory[first].serial.next, rest, k - 1, b, size);
      assert Extended(chains, k, b)[1..] == Extended(rest, k - 1, b);
    }
  }

  lemma {:induction false} InFlatten(chains: seq<seq<Addr>>, k: nat, b: Addr)
    requires k < |chains| && b in chains[k]
    ensures b in Flatten(chains)
  {
    if k > 0 {
      InFlatten(chains[1..], k - 1, b);
    }
  }

  lemma TailDistinct(chains: seq<seq<Addr>>)
    requires chains != [] && NoDuplicates(Flatten(chains))
    ensures NoDuplicates(Flatten(chains[1..]))
    ensures forall b :: b in chains[0] ==> b !in Flatten(chains[1..])
  {
    var all, n := Flatten(chains), |chains[0]|;
    var rest := Flatten(chains[1..]);
    forall i, j | 0 <= i < j < |rest|
      ensures Differ(rest, i, j)
    {
      assert Differ(all, n + i, n + j);
    }
    forall i, j | 0 <= i < n && 0 <= j < |rest|
      ensures chains[0][i] != rest[j]
    {
      assert Differ(all, i, n + j);
    }
  }

  /** Where the new block comes in the order of all blocks: not behind the last one. */
  lemma {:induction false} FlattenExtended(chains: seq<seq<Addr>>, k: nat, b: Addr) returns (p: nat)
    requires k < |chains| && chains[k] != []
    ensures p < |Flatten(chains)|
    ensures Flatten(Extended(chains, k, b)) == Flatten(chains)[..p] + [b] + Flatten(chains)[p..]
    decreases k
  {
    var all := Flatten(chains);
    if k == 0 {
      p := 0;
      assert Extended(chains, k, b)[1..] == chains[1..];
      assert [b] + chains[0] + Flatten(chains[1..]) == [b] + all;
    } else {
      var q := FlattenExtended(chains[1..], k - 1, b);
      p := |chains[0]| + q;
      assert Extended(chains, k, b)[1..] == Extended(chains[1..], k - 1, b);
      var rest := Flatten(chains[1..]);
      assert all[..p] == chains[0] + rest[..q] && all[p..] == rest[q..];
    }
  }

  lemma InsertedElement(all: seq<Addr>, p: nat, b: Addr, i: nat)
    requires p <= |all| && i <= |all|
    ensures (all[..p] + [b] + all[p..])[i] == if i < p then all[i] else if i == p then b else all[i - 1]
  {
  }

  lemma InsertDistinct(all: seq<Addr>, p: nat, b: Addr)
    requires NoDuplicates(all) && b !in all && p < |all|
    ensures NoDuplicates(all[..p] + [b] + all[p..]) && Last(all[..p] + [b] + all[p..]) == Last(all)
    ensures Elems(all[..p] + [b] + all[p..]) == Elems(all) + {b}
  {
    var r := all[..p] + [b] + all[p..];
    forall i, j | 0 <= i < j < |r|
      ensures Differ(r, i, j)
    {
      InsertedElement(all, p, b, i);
      InsertedElement(all, p, b, j);
      if i != p && j != p {
        assert Differ(all, if i < p then i else i - 1, if j < p then j else j - 1);
      }
    }
    InsertedElement(all, p, b, |all|);
    InsertedElems(all, p, b);
  }

  lemma InsertedElems(all: seq<Addr>, p: nat, b: Addr)
    requires p <= |all|
    ensures Elems(all[..p] + [b] + all[p..]) == Elems(all) + {b}
  {
    assert all == all[..p] + all[p..];
  }

  /** The list is in order and owns exactly the blocks in memory, each once. */
  ghost predicate BlocksOk(memory: map<Addr, Block>, threads: Addr, chains: seq<seq<Addr>>) {
    && ListOk(memory, threads, chains)
    && NoDuplicates(Flatten(chains))
    && memory.Keys == Elems(Flatten(chains))
  }

  /** The user's block is in use, behind all others, and was never freed. */
  ghost predicate InitialOk(memory: map<Addr, Block>, all: seq<Addr>, freed: seq<Addr>, initial: Addr, hasPolicy: bool) {
    && all != [] && Last(all) == initial
    && initial in memory && initial !in freed
    && memory[initial].size >= MinimumSize(hasPolicy)
  }

  lemma PushKeepsBlocks(memory: map<Addr, Block>, threads: Addr, chains: seq<seq<Addr>>, b: Addr, size: nat)
    requires BlocksOk(memory, threads, chains) && b != NULL && b !in memory
    ensures BlocksOk(memory[b := Block(NULL, size, Serial(b, threads, size))], b, [[b]] + chains)
    ensures forall freed, initial, hasPolicy :: InitialOk(memory, Flatten(chains), freed, initial, hasPolicy) ==>
      InitialOk(memory[b := Block(NULL, size, Serial(b, threads, size))], Flatten([[b]] + chains), freed, initial, hasPolicy)
  {
    var m := memory[b := Block(NULL, size, Serial(b, threads, size))];
    ListBlocks(memory, threads, chains);
    ListKept(memory, m, threads, chains);
    assert ([[b]] + chains)[1..] == chains;
    ConsKeepsDistinct(b, Flatten(chains));
    SizesCons(m, b, []);
    assert [b] + [] == [b];
  }

  lemma ExtendKeepsBlocks(memory: map<Addr, Block>, threads: Addr, chains: seq<seq<Addr>>, k: nat, b: Addr, size: nat)
    requires BlocksOk(memory, threads, chains) && b != NULL && b !in memory
    requires k < |chains| && chains[k] != [] && Last(chains[k]) in memory
    ensures BlocksOk(WithBlock(memory, Last(chains[k]), b, size), threads, Extended(chains, k, b))
    ensures forall freed, initial, hasPolicy :: InitialOk(memory, Flatten(chains), freed, initial, hasPolicy) ==>
      InitialOk(WithBlock(memory, Last(chains[k]), b, size), Flatten(Extended(chains, k, b)), freed, initial, hasPolicy)
  {
    ListExtended(memory, threads, chains, k, b, size);
    var p := FlattenExtended(chains, k, b);
    InsertDistinct(Flatten(chains), p, b);
  }

  /** The one block of an arena that has just been initialized. */
  ghost function AloneIn(b: Addr, size: nat): map<Addr, Block> {
    map[b := Block(NULL, size, Serial(b, NULL, size))]
  }

  class ThreadSafeArena {
    /** The blocks that are not freed. */
    var memory: map<Addr, Block>
    var threads: Addr
    var userOwnedInitialBlock: bool
    var hasPolicy: bool

    /** The blocks freed so far, in order. */
    ghost var freed: seq<Addr>
    /** The blocks of this lifecycle whose cleanups have run, in order. */
    ghost var cleaned: seq<Addr>
    ghost var chains: seq<seq<Addr>>
    /** The block the user handed over, if the arena uses one. */
    ghost var initial: Addr

    ghost predicate Valid()
      reads this
    {
      && BlocksOk(memory, threads, chains)
      && cleaned == []
      && (hasPolicy ==> chains != [])
      && (userOwnedInitialBlock ==> InitialOk(memory, Flatten(chains), freed, initial, hasPolicy))
    }

    /** All cleanups of this lifecycle have run. */
    ghost predicate AllCleaned()
      reads this`chains, this`cleaned
    {
      forall b :: b in Flatten(chains) ==> b in cleaned
    }

    /** InitializeFrom and InitializeWithPolicy: the user's block is used if it is large
        enough; otherwise a policy, but only that, needs a block of the arena's own. */
    constructor (mem: Addr, size: nat, hasPolicy: bool, page: Addr, pageSize: nat)
      requires page != NULL && page != mem
      ensures Valid() && freed == [] && this.hasPolicy == hasPolicy
      ensures userOwnedInitialBlock <==> mem != NULL && size >= MinimumSize(hasPolicy)
      ensures userOwnedInitialBlock ==> initial == mem
      ensures chains == if userOwnedInitialBlock then [[mem]] else if hasPolicy then [[page]] else []
      ensures memory == if userOwnedInitialBlock then AloneIn(mem, size) else if hasPolicy then AloneIn(page, pageSize) else map[]
    {
      this.hasPolicy := hasPolicy;
      userOwnedInitialBlock := mem != NULL && size >= MinimumSize(hasPolicy);
      memory, threads := map[], NULL;
      freed, cleaned, chains, initial := [], [], [], mem;
      new;
      if userOwnedInitialBlock {
        SetInitialBlock(mem, size);
      } else if hasPolicy {
        SetInitialBlock(page, pageSize);
      }
    }

    /** Adds a serial arena of one block in front, as GetSerialArenaFallback does. */
    method PushSerial(b: Addr, size: nat)
      requires Valid() && b != NULL && b !in memory
      modifies this`memory, this`threads, this`chains
      ensures Valid() && chains == [[b]] + old(chains)
      ensures memory == old(memory)[b := Block(NULL, size, Serial(b, old(threads), size))]
    {
      PushKeepsBlocks(memory, threads, chains, b, size);
      memory := memory[b := Block(NULL, size, Serial(b, threads, size))];
      threads := b;
      chains := [[b]] + chains;
    }

    /** AllocateNewBlock: a block in front of the chain of one serial arena. */
    method AddBlock(serial: Addr, b: Addr, size: nat, ghost k: nat)
      requires Valid() && b != NULL && b !in memory
      requires k < |chains| && chains[k] != [] && Last(chains[k]) == serial && serial in memory
      modifies this`memory, this`chains
      ensures Valid() && chains == Extended(old(chains), k, b)
      ensures memory == WithBlock(old(memory), serial, b, size)
    {
      ExtendKeepsBlocks(memory, threads, chains, k, b, size);
      LinkBlock(serial, b, size);
      chains := Extended(chains, k, b);
    }

    /** The new block's header, and the serial arena's head and space. */
    method LinkBlock(serial: Addr, b: Addr, size: nat)
      requires serial in memory && b !in memory
      modifies this`memory
      ensures memory == WithBlock(old(memory), serial, b, size)
    {
      var head := memory[serial].serial;
      memory := memory[b := Block(head.head, size, Serial(NULL, NULL, 0))];
      memory := memory[serial := memory[serial].(serial := Serial(b, head.next, head.spaceAllocated + size))];
    }

    /** ThreadSafeArena::CleanupList: the cleanups of all blocks run, block by block, while
        all blocks are there. */
    method CleanupList()
      requires Valid()
      modifies this`cleaned
      ensures cleaned == Flatten(chains) && AllCleaned()
    {
      var serial := threads;
      ghost var rest := chains;
      assert [] + Flatten(chains) == Flatten(chains);
      while serial != NULL
        invariant ListOk(memory, serial, rest)
        invariant cleaned + Flatten(rest) == Flatten(chains)
        decreases |rest|
      {
        assert cleaned + Flatten(rest) == cleaned + rest[0] + Flatten(rest[1..]);
        CleanupSerial(serial, rest[0]);
        serial := memory[serial].serial.next;
        rest := rest[1..];
      }
      assert cleaned + [] == cleaned;
    }

    /** SerialArena::CleanupList: the blocks of one serial arena, newest first. */
    method CleanupSerial(serial: Addr, ghost chain: seq<Addr>)
      requires ChainOk(memory, chain) && serial == Last(chain) && memory[serial].serial.head == chain[0]
      modifies this`cleaned
      ensures cleaned == old(cleaned) + chain
    {
      var b := memory[serial].serial.head;
      ghost var i := 0;
      cleaned := cleaned + [b];
      while memory[b].next != NULL
        invariant 0 <= i < |chain| && b == chain[i] && cleaned == old(cleaned) + chain[..i + 1]
        decreases |chain| - i
      {
        b := memory[b].next;
        i := i + 1;
        cleaned := cleaned + [b];
      }
      assert chain[..i + 1] == chain;
    }

    method SpaceAllocated() returns (total: nat)
      requires Valid()
      ensures forall b :: b in Flatten(chains) ==> b in memory
      ensures total == Sizes(memory, Flatten(chains))
    {
      total := 0;
      var serial := threads;
      ghost var rest := chains;
      ListBlocks(memory, threads, chains);
      while serial != NULL
        invariant ListOk(memory, serial, rest)
        invariant forall b :: b in Flatten(rest) ==> b in memory
        invariant total + Sizes(memory, Flatten(rest)) == Sizes(memory, Flatten(chains))
        decreases |rest|
      {
        SizesConcat(memory, rest[0], Flatten(rest[1..]));
        total := total + memory[serial].serial.spaceAllocated;
        serial := memory[serial].serial.next;
        rest := rest[1..];
        ListBlocks(memory, serial, rest);
      }
    }

    /** GetDeallocator's call operator: the block must not be freed already, and no
        cleanup may be left to run. */
    method Deallocate(b: Addr, space: nat) returns (space': nat)
      requires b in memory && AllCleaned()
      modifies this`memory, this`freed
      ensures memory == old(memory) - {b} && freed == old(freed) + [b]
      ensures space' == space + old(memory)[b].size
    {
      space' := space + memory[b].size;
      memory := memory - {b};
      freed := freed + [b];
    }

    /** SerialArena::Free: frees every block of a serial arena except the oldest,
        which is returned. */
    method FreeSerial(serial: Addr, space: nat, ghost chain: seq<Addr>) returns (mem: Addr, space': nat)
      requires ChainOk(memory, chain) && NoDuplicates(chain) && AllCleaned()
      requires serial == Last(chain) && memory[serial].serial.head == chain[0]
      modifies this`memory, this`freed
      ensures mem == Last(chain)
      ensures freed == old(freed) + chain[..|chain| - 1]
      ensures memory == old(memory) - Elems(chain[..|chain| - 1])
      ensures forall b :: b in chain ==> b in old(memory)
      ensures space' == space + Sizes(old(memory), chain[..|chain| - 1])
    {
      assert forall b :: b in chain ==> b in memory;
      var b := memory[serial].serial.head;
      mem := b;
      space' := space;
      ghost var i := 0;
      while memory[b].next != NULL
        invariant 0 <= i < |chain| && b == mem == chain[i] && b in memory
        invariant freed == old(freed) + chain[..i]
        invariant memory == old(memory) - Elems(chain[..i])
        invariant space' == space + Sizes(old(memory), chain[..i])
        decreases |chain| - i
      {
        b := memory[b].next;
        SizesSnoc(old(memory), chain, i);
        space' := Deallocate(mem, space');
        mem := b;
        i := i + 1;
        assert chain[..i] == chain[..i - 1] + [chain[i - 1]];
        NotBefore(chain, i, i);
      }
    }

    /** ThreadSafeArena::Free: frees every block except the oldest block of the
        last serial arena, which is returned. A serial arena's own block is freed
        only after its next pointer has been read. */
    method Free() returns (mem: Addr, space: nat)
      requires ListOk(memory, threads, chains) && NoDuplicates(Flatten(chains)) && AllCleaned()
      modifies this`memory, this`freed
      ensures forall b :: b in Flatten(chains) ==> b in old(memory)
      ensures Walked(old(memory), Flatten(chains), |Flatten(chains)|, old(freed), memory, freed, mem, space)
    {
      mem, space := NULL, 0;
      var serial := threads;
      ghost var before, freed0 := memory, freed;
      ghost var all, rest := Flatten(chains), chains;
      ghost var p: nat := 0;
      ListBlocks(memory, threads, chains);
      assert all[0..] == all;
      while serial != NULL
        invariant Walked(before, all, p, freed0, memory, freed, mem, space)
        invariant At(before, all, p, serial, rest)
        decreases |rest|
      {
        ghost var q;
        serial, mem, space, q := FreeNext(serial, mem, space, before, freed0, all, p, rest);
        p, rest := q, rest[1..];
      }
      WalkEnds(before, all, p, rest);
    }

    /** One round of the walk, and the step to the next serial arena. */
    method FreeNext(serial: Addr, mem0: Addr, space0: nat, ghost before: map<Addr, Block>, ghost freed0: seq<Addr>,
                    ghost all: seq<Addr>, ghost p: nat, ghost rest: seq<seq<Addr>>)
      returns (next: Addr, mem: Addr, space: nat, ghost q: nat)
      requires NoDuplicates(all) && AllCleaned() && forall b :: b in all ==> b in before && b != NULL
      requires Walked(before, all, p, freed0, memory, freed, mem0, space0)
      requires At(before, all, p, serial, rest) && serial != NULL
      modifies this`memory, this`freed
      ensures Walked(before, all, q, freed0, memory, freed, mem, space)
      ensures rest != [] && At(before, all, q, next, rest[1..])
    {
      NextChain(before, all, p, serial, rest);
      q := p + |rest[0]|;
      mem, space := FreeOne(serial, mem0, space0, before, freed0, all, p, rest[0]);
      next := memory[serial].serial.next;
    }

    /** The work of one round: the block left over from the previous serial arena
        is freed, then all but the last block of this one. */
    method FreeOne(serial: Addr, mem0: Addr, space0: nat, ghost before: map<Addr, Block>, ghost freed0: seq<Addr>,
                   ghost all: seq<Addr>, ghost p: nat, ghost chain: seq<Addr>)
      returns (mem: Addr, space: nat)
      requires NoDuplicates(all) && AllCleaned() && forall b :: b in all ==> b in before && b != NULL
      requires Walked(before, all, p, freed0, memory, freed, mem0, space0)
      requires ChainOk(before, chain) && p + |chain| <= |all| && all[p..p + |chain|] == chain
      requires serial == Last(chain) && before[serial].serial.head == chain[0]
      modifies this`memory, this`freed
      ensures Walked(before, all, p + |chain|, freed0, memory, freed, mem, space)
      ensures serial in memory && memory[serial] == before[serial]
    {
      space := FreePending(mem0, space0, before, freed0, all, p);
      RestKept(before, memory, all, p, chain);
      SizesKept(before, memory, chain[..|chain| - 1]);
      FreedMore(before, all, p, freed0, memory, freed, space, chain);
      mem, space := FreeSerial(serial, space, chain);
      LastStays(before, memory, all, p + |chain|);
    }

    /** if (mem.ptr) deallocator(mem); */
    method FreePending(mem: Addr, space0: nat, ghost before: map<Addr, Block>, ghost freed0: seq<Addr>,
                       ghost all: seq<Addr>, ghost p: nat)
      returns (space: nat)
      requires NoDuplicates(all) && AllCleaned() && forall b :: b in all ==> b in before && b != NULL
      requires Walked(before, all, p, freed0, memory, freed, mem, space0)
      modifies this`memory, this`freed
      ensures FreedTo(before, all, p, freed0, memory, freed, space)
    {
      space := space0;
      if mem != NULL {
        SizesSnoc(before, all, p - 1);
        LastStays(before, memory, all, p);
        assert all[..p] == all[..p - 1] + [all[p - 1]];
        space := Deallocate(mem, space);
      } else {
        assert all[..0] == [];
      }
    }

    /** ThreadSafeArena::Reset. `page` and `size` describe the block allocated for the
        allocation policy when there is one and no user-owned block to put it in. All
        cleanups have run before the first block is freed; the user's block survives. */
    method Reset(page: Addr, size: nat) returns (space: nat, ghost ran: seq<Addr>)
      requires Valid() && page != NULL && page !in memory
      modifies this
      ensures ran == Flatten(old(chains))
      ensures (forall b :: b in ran ==> b in old(memory)) && space == Sizes(old(memory), ran)
      ensures userOwnedInitialBlock == old(userOwnedInitialBlock) && hasPolicy == old(hasPolicy)
      ensures if userOwnedInitialBlock
              then ran != [] && freed == old(freed) + ran[..|ran| - 1] && chains == [[initial]]
              else freed == old(freed) + ran && chains == (if hasPolicy then [[page]] else [])
      ensures userOwnedInitialBlock ==>
        && initial == old(initial) && initial in old(memory) && initial in memory && initial !in freed
        && memory == AloneIn(initial, old(memory)[initial].size)
      ensures !userOwnedInitialBlock ==> memory == if hasPolicy then AloneIn(page, size) else map[]
      ensures Valid()
    {
      var mem, memSize;
      mem, memSize, space, ran := TearDown();
      StartOver(mem, memSize, page, size);
    }

    /** All cleanups, and then Free. */
    method TearDown() returns (mem: Addr, memSize: nat, space: nat, ghost ran: seq<Addr>)
      requires Valid()
      modifies this`memory, this`freed, this`cleaned
      ensures ran == Flatten(chains)
      ensures (forall b :: b in ran ==> b in old(memory)) && space == Sizes(old(memory), ran)
      ensures if userOwnedInitialBlock then ran != [] && freed == old(freed) + ran[..|ran| - 1] else freed == old(freed) + ran
      ensures userOwnedInitialBlock ==>
        mem == initial && initial in memory && initial in old(memory) && memory[initial] == old(memory)[initial] &&
        memSize == memory[initial].size >= MinimumSize(hasPolicy) && initial !in freed && initial != NULL
    {
      CleanupList();
      ran := cleaned;
      mem, memSize, space := FreeAll(ran);
    }

    /** InitializeFrom and InitializeWithPolicy at the end of Reset. */
    method StartOver(mem: Addr, memSize: nat, page: Addr, size: nat)
      requires page != NULL
      requires userOwnedInitialBlock ==>
        mem == initial && initial != NULL && initial !in freed && memSize >= MinimumSize(hasPolicy)
      modifies this`memory, this`threads, this`chains, this`cleaned
      ensures chains == if userOwnedInitialBlock then [[mem]] else if hasPolicy then [[page]] else []
      ensures memory == if userOwnedInitialBlock then AloneIn(mem, memSize) else if hasPolicy then AloneIn(page, size) else map[]
      ensures freed == old(freed) && initial == old(initial)
      ensures Valid()
    {
      memory, threads, chains, cleaned := map[], NULL, [], [];
      if userOwnedInitialBlock {
        SetInitialBlock(mem, memSize);
      } else if hasPolicy {
        SetInitialBlock(page, size);
      }
    }

    /** Free, and the last block unless the user owns it; its bytes count either way. */
    method FreeAll(ghost all: seq<Addr>) returns (mem: Addr, memSize: nat, space: nat)
      requires all == Flatten(chains)
      requires ListOk(memory, threads, chains) && NoDuplicates(all) && AllCleaned()
      requires userOwnedInitialBlock ==> InitialOk(memory, all, freed, initial, hasPolicy)
      modifies this`memory, this`freed
      ensures (forall b :: b in all ==> b in old(memory)) && space == Sizes(old(memory), all)
      ensures if userOwnedInitialBlock then all != [] && freed == old(freed) + all[..|all| - 1] else freed == old(freed) + all
      ensures userOwnedInitialBlock ==>
        mem == initial && initial in memory && initial in old(memory) && memory[initial] == old(memory)[initial] &&
        memSize == memory[initial].size && initial !in freed && initial != NULL
    {
      ListBlocks(memory, threads, chains);
      mem, space := Free();
      memSize := 0;
      assert all[..|all|] == all;
      if userOwnedInitialBlock {
        SizesSnoc(old(memory), all, |all| - 1);
        LastStays(old(memory), memory, all, |all|);
        NotBefore(all, |all| - 1, |all| - 1);
        memSize := memory[mem].size;
        space := space + memSize;
      } else {
        space := FreePending(mem, space, old(memory), old(freed), all, |all|);
      }
    }

    /** SetInitialBlock, in an arena without blocks. */
    method SetInitialBlock(b: Addr, size: nat)
      requires b != NULL && chains == [] && memory == map[] && cleaned == []
      requires userOwnedInitialBlock ==> b == initial && initial !in freed && size >= MinimumSize(hasPolicy)
      modifies this`memory, this`threads, this`chains
      ensures Valid() && chains == [[b]]
      ensures memory == AloneIn(b, size)
    {
      memory := map[b := Block(NULL, size, Serial(b, NULL, size))];
      threads := b;
      chains := [[b]];
      assert chains[1..] == [];
      assert Flatten(chains) == chains[0] + Flatten(chains[1..]);
      assert Sizes(memory, [b]) == size + Sizes(memory, [b][1..]);
    }

    /** ~ThreadSafeArena, which leaves the user his block. */
    method Destroy() returns (space: nat, ghost ran: seq<Addr>)
      requires Valid()
      modifies this
      ensures ran == Flatten(old(chains))
      ensures (forall b :: b in ran ==> b in old(memory)) && space == Sizes(old(memory), ran)
      ensures if old(userOwnedInitialBlock)
              then ran != [] && freed == old(freed) + ran[..|ran| - 1] && old(initial) in memory && old(initial) !in freed
              else freed == old(freed) + ran
    {
      var mem, memSize;
      mem, memSize, space, ran := TearDown();
    }
  }

  /** After walking past p blocks, the last of them is still there. */
  lemma LastStays(before: map<Addr, Block>, memory: map<Addr, Block>, all: seq<Addr>, p: nat)
    requires NoDuplicates(all) && 0 < p <= |all| && all[p - 1] in before
    requires memory == before - Elems(all[..p - 1])
    ensures all[p - 1] in memory && memory[all[p - 1]] == before[all[p - 1]]
  {
    NotBefore(all, p - 1, p - 1);
  }

  /** What has not been freed yet is still there and unchanged. */
  lemma RestKept(before: map<Addr, Block>, memory: map<Addr, Block>, all: seq<Addr>, p: nat, chain: seq<Addr>)
    requires NoDuplicates(all) && p + |chain| <= |all| && all[p..p + |chain|] == chain
    requires ChainOk(before, chain) && memory == before - Elems(all[..p])
    ensures ChainOk(memory, chain) && NoDuplicates(chain)
    ensures forall b :: b in chain ==> b in memory && memory[b] == before[b]
  {
    forall j | 0 <= j < |chain|
      ensures chain[j] in memory && memory[chain[j]] == before[chain[j]]
    {
      assert all[p + j] == chain[j];
      NotBefore(all, p, p + j);
    }
    forall i, j | 0 <= i < j < |chain|
      ensures Differ(chain, i, j)
    {
      assert Differ(all, p + i, p + j);
      assert all[p + i] == chain[i] && all[p + j] == chain[j];
    }
  }
}
