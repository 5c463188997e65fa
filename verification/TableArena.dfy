/** The bump allocator behind the descriptor pool: 4 KB blocks that grow objects
    from the front and one tag byte per object from the back, kept in a current
    block, a list of full blocks and six lists by remaining space, with a
    run-length log that lets the latest allocations be undone. */
module TableArenas {
  import opened Common

  type Addr = nat
  type Tag = t: int | 0 <= t < 256

  const NULL: Addr := 0

  /** Number of types the arena tracks by index; larger tags encode raw sizes. */
  const FIRST_RAW_TAG := 17

  /** Payload of a 4096-byte block after its 16-byte header. */
  const BLOCK_CAPACITY := 4080

  const SMALL_SIZES: seq<nat> := [8, 16, 24, 32, 64, 96]

  /** The lists in the order GetLists returns them: current, full, then the six small ones. */
  const LISTS := 8

  /** All lists empty. */
  const NO_SMALL_BLOCKS: seq<Addr> := [NULL, NULL, NULL, NULL, NULL, NULL]
  const NO_LENGTHS: seq<nat> := [0, 0, 0, 0, 0, 0, 0, 0]

  datatype Block = Block(start: nat, end: nat, data: seq<Tag>, next: Addr) {
    function SpaceLeft(): int {
      end - start
    }
  }

  datatype RollbackInfo = RollbackInfo(block: Addr, count: nat)

  /** One live allocation: an object at an offset of a block, with its tag. */
  datatype Allocation = Allocation(block: Addr, offset: nat, tag: Tag)

  function RoundUp(n: nat): nat {
    (n + 7) / 8 * 8
  }

  function SizeToRawTag(n: nat): int {
    RoundUp(n) / 8 - 1
  }

  /** The sizes of the 17 tracked types; an OutOfLineAlloc (a pointer and a
      32-bit size) comes first. Each must fit a fresh block beside its tag. */
  ghost predicate KnownSizes(sizes: seq<nat>) {
    && |sizes| == FIRST_RAW_TAG
    && sizes[0] == 16
    && forall i :: 0 <= i < |sizes| ==> 0 < sizes[i] && RoundUp(sizes[i]) + 1 <= BLOCK_CAPACITY
  }

  function TagSize(sizes: seq<nat>, tag: Tag): (n: nat)
    requires |sizes| == FIRST_RAW_TAG
  {
    if tag >= FIRST_RAW_TAG then (tag - FIRST_RAW_TAG + 1) * 8 else RoundUp(sizes[tag])
  }

  /** What Create is asked for: a tracked type by its number, or any other trivially
      destructible one by its size. */
  datatype Kind = Tracked(index: nat) | Untracked(size: nat)

  /** TypeTag: the recursion over the tracked types adds one for each, in a byte. */
  function TypeTag(k: Kind): Tag
    requires k.Tracked? ==> k.index < FIRST_RAW_TAG
    requires k.Untracked? ==> k.size > 0
  {
    match k
    case Tracked(i) => i
    case Untracked(n) => (FIRST_RAW_TAG + SizeToRawTag(n)) % 256
  }

  /** The longest untracked type in bytes: 239 words. */
  const MAX_UNTRACKED := 239 * 8

  /** The tag of an untracked type is a raw tag of its size if and only if that is at most
      239 words; beyond, the byte wraps around. */
  lemma UntrackedTagIff(sizes: seq<nat>, n: nat)
    requires |sizes| == FIRST_RAW_TAG && n > 0
    ensures
      && var tag := TypeTag(Untracked(n));
      && (tag >= FIRST_RAW_TAG && TagSize(sizes, tag) == RoundUp(n) <==> n <= MAX_UNTRACKED)
  {
    var words := RoundUp(n) / 8;
    assert RoundUp(n) == words * 8;
    if n <= MAX_UNTRACKED {
      SmallMod(FIRST_RAW_TAG + words - 1, 256);
    }
  }

  /** Bytes taken by the objects whose tags are given. */
  function Used(sizes: seq<nat>, tags: seq<Tag>): nat
    requires |sizes| == FIRST_RAW_TAG
  {
    if tags == [] then 0 else TagSize(sizes, tags[0]) + Used(sizes, tags[1..])
  }

  // ---------------------------------------------------------------------
  // What a block holds, read off the history of live allocations.

  /** Tags of the live allocations of block b, latest first. */
  ghost function TagsOf(live: seq<Allocation>, b: Addr): seq<Tag> {
    if live == [] then []
    else
      var last := live[|live| - 1];
      var rest := TagsOf(live[..|live| - 1], b);
      if last.block == b then [last.tag] + rest else rest
  }

  /** An allocation starts where the earlier ones of its block end. */
  ghost predicate OffsetOk(sizes: seq<nat>, live: seq<Allocation>, i: nat)
    requires |sizes| == FIRST_RAW_TAG && i < |live|
  {
    live[i].offset == Used(sizes, TagsOf(live[..i], live[i].block))
  }

  /** The block's two ends agree with the live allocations it holds. */
  ghost predicate BlockOk(sizes: seq<nat>, b: Addr, block: Block, live: seq<Allocation>)
    requires |sizes| == FIRST_RAW_TAG
  {
    && |block.data| == BLOCK_CAPACITY
    && block.start <= block.end <= BLOCK_CAPACITY
    && block.data[block.end..] == TagsOf(live, b)
    && block.start == Used(sizes, TagsOf(live, b))
  }

  ghost predicate BlocksOk(sizes: seq<nat>, heap: map<Addr, Block>, live: seq<Allocation>)
    requires |sizes| == FIRST_RAW_TAG
  {
    && (forall b {:trigger BlockOk(sizes, b, heap[b], live)} :: b in heap ==> BlockOk(sizes, b, heap[b], live))
    && (forall i :: 0 <= i < |live| ==> live[i].block in heap)
    && (forall i {:trigger OffsetOk(sizes, live, i)} :: 0 <= i < |live| ==> OffsetOk(sizes, live, i))
  }

  lemma {:induction false} TagsOfAbsent(live: seq<Allocation>, b: Addr)
    requires forall i :: 0 <= i < |live| ==> live[i].block != b
    ensures TagsOf(live, b) == []
  {
    if live != [] {
      TagsOfAbsent(live[..|live| - 1], b);
    }
  }

  lemma {:induction false} TagsOfPresent(live: seq<Allocation>, b: Addr, i: nat)
    requires i < |live| && live[i].block == b
    ensures TagsOf(live, b) != []
  {
    if i < |live| - 1 {
      TagsOfPresent(live[..|live| - 1], b, i);
    }
  }

  lemma {:induction false} UsedPositive(sizes: seq<nat>, tags: seq<Tag>)
    requires KnownSizes(sizes)
    ensures tags != [] ==> Used(sizes, tags) > 0
  {
    if tags != [] {
      var t := tags[0];
      if t < FIRST_RAW_TAG {
        assert 0 < sizes[t];
      }
    }
  }

  /** The space taken in a block never shrinks as the history grows, and the
      allocation at i takes its own bytes from its offset on. */
  lemma {:induction false} UsedGrows(sizes: seq<nat>, live: seq<Allocation>, i: nat, j: nat)
    requires |sizes| == FIRST_RAW_TAG && i < j <= |live|
    ensures Used(sizes, TagsOf(live[..i], live[i].block)) + TagSize(sizes, live[i].tag)
         <= Used(sizes, TagsOf(live[..j], live[i].block))
    decreases j
  {
    var b := live[i].block;
    assert live[..j][..j - 1] == live[..j - 1];
    var below := TagsOf(live[..j - 1], b);
    assert Used(sizes, below) <= Used(sizes, TagsOf(live[..j], b)) by {
      if live[j - 1].block == b {
        assert ([live[j - 1].tag] + below)[1..] == below;
      }
    }
    if i == j - 1 {
      assert ([live[i].tag] + below)[1..] == below;
    } else {
      UsedGrows(sizes, live, i, j - 1);
    }
  }

  /** Live allocations never overlap: each has its own byte range in its block,
      and that range ends before the block's tag bytes begin. */
  lemma LiveAllocationsDisjoint(sizes: seq<nat>, heap: map<Addr, Block>, live: seq<Allocation>, i: nat, j: nat)
    requires |sizes| == FIRST_RAW_TAG && BlocksOk(sizes, heap, live)
    requires i < j < |live|
    ensures live[i].block != live[j].block
         || live[i].offset + TagSize(sizes, live[i].tag) <= live[j].offset
    ensures live[j].offset + TagSize(sizes, live[j].tag) <= heap[live[j].block].start
    ensures heap[live[j].block].start <= heap[live[j].block].end
  {
    assert OffsetOk(sizes, live, i) && OffsetOk(sizes, live, j);
    UsedGrows(sizes, live, i, j);
    UsedGrows(sizes, live, j, |live|);
    assert live[..|live|] == live;
    assert BlockOk(sizes, live[j].block, heap[live[j].block], live);
  }

  lemma {:induction false} UsedIsAligned(sizes: seq<nat>, tags: seq<Tag>)
    requires |sizes| == FIRST_RAW_TAG
    ensures Used(sizes, tags) % 8 == 0
  {
    if tags != [] {
      UsedIsAligned(sizes, tags[1..]);
      EightsAdd(TagSize(sizes, tags[0]), Used(sizes, tags[1..]));
    }
  }

  lemma EightsAdd(a: nat, b: nat)
    requires a % 8 == 0 && b % 8 == 0
    ensures (a + b) % 8 == 0
  {
  }

  /** Objects lie at multiples of 8 and have at least the bytes that their type or their raw
      tag stands for. */
  lemma ObjectsAreAligned(sizes: seq<nat>, heap: map<Addr, Block>, live: seq<Allocation>, i: nat)
    requires |sizes| == FIRST_RAW_TAG && BlocksOk(sizes, heap, live) && i < |live|
    ensures live[i].offset % 8 == 0
    ensures if live[i].tag < 17 then sizes[live[i].tag] <= TagSize(sizes, live[i].tag) < sizes[live[i].tag] + 8
            else TagSize(sizes, live[i].tag) == 8 * (live[i].tag - 16)
  {
    assert OffsetOk(sizes, live, i);
    UsedIsAligned(sizes, TagsOf(live[..i], live[i].block));
  }

  // ---------------------------------------------------------------------
  // The run-length rollback log.

  ghost predicate CountsPositive(info: seq<RollbackInfo>) {
    forall i :: 0 <= i < |info| ==> info[i].count > 0
  }

  /** The log unrolled: one block address per logged allocation, oldest first. */
  ghost function Expand(info: seq<RollbackInfo>): seq<Addr>
    decreases |info|, if info == [] then 0 else info[|info| - 1].count
  {
    if info == [] then []
    else
      var n := |info| - 1;
      if info[n].count == 0 then Expand(info[..n])
      else Expand(info[n := RollbackInfo(info[n].block, info[n].count - 1)]) + [info[n].block]
  }

  /** The log names the blocks of exactly the allocations made since `base`. */
  ghost predicate LogOk(info: seq<RollbackInfo>, live: seq<Allocation>, base: nat) {
    && CountsPositive(info)
    && base <= |live|
    && |Expand(info)| == |live| - base
    && forall i {:trigger Expand(info)[i]} :: 0 <= i < |live| - base ==> Expand(info)[i] == live[base + i].block
  }

  function Logged(info: seq<RollbackInfo>, b: Addr): (r: seq<RollbackInfo>) {
    var n := |info| - 1;
    if info != [] && info[n].block == b then info[n := RollbackInfo(b, info[n].count + 1)]
    else info + [RollbackInfo(b, 1)]
  }

  lemma ExpandLast(info: seq<RollbackInfo>, n: nat)
    requires n + 1 == |info| && info[n].count > 0
    ensures Expand(info) == Expand(info[n := RollbackInfo(info[n].block, info[n].count - 1)]) + [info[n].block]
  {
  }

  lemma ExpandZero(info: seq<RollbackInfo>, b: Addr)
    ensures Expand(info + [RollbackInfo(b, 0)]) == Expand(info)
  {
    assert (info + [RollbackInfo(b, 0)])[..|info|] == info;
  }

  /** Logging appends one block to the unrolled log. */
  lemma LoggedExpands(info: seq<RollbackInfo>, b: Addr)
    requires CountsPositive(info)
    ensures CountsPositive(Logged(info, b))
    ensures Expand(Logged(info, b)) == Expand(info) + [b]
  {
    var r := Logged(info, b);
    var n := |r| - 1;
    ExpandLast(r, n);
    if info != [] && info[|info| - 1].block == b {
      assert r[n := RollbackInfo(b, r[n].count - 1)] == info;
    } else {
      assert r[n := RollbackInfo(b, 0)] == info + [RollbackInfo(b, 0)];
      ExpandZero(info, b);
    }
  }

  function Unlogged(info: seq<RollbackInfo>): (r: seq<RollbackInfo>)
    requires info != [] && info[|info| - 1].count > 0
  {
    var n := |info| - 1;
    if info[n].count == 1 then info[..n] else info[n := RollbackInfo(info[n].block, info[n].count - 1)]
  }

  lemma {:induction false} UnloggedExpands(info: seq<RollbackInfo>)
    requires info != [] && CountsPositive(info)
    ensures CountsPositive(Unlogged(info))
    ensures Expand(info) == Expand(Unlogged(info)) + [info[|info| - 1].block]
  {
    var n := |info| - 1;
    if info[n].count == 1 {
      var zero := info[n := RollbackInfo(info[n].block, 0)];
      assert zero[..n] == info[..n];
    }
  }

  lemma LoggedKeepsLog(info: seq<RollbackInfo>, live: seq<Allocation>, base: nat, p: Allocation)
    requires LogOk(info, live, base)
    ensures LogOk(Logged(info, p.block), live + [p], base)
  {
    LoggedExpands(info, p.block);
    forall i | 0 <= i < |live| + 1 - base
      ensures Expand(Logged(info, p.block))[i] == (live + [p])[base + i].block
    {
      if i < |live| - base {
        assert Expand(info)[i] == live[base + i].block;
      }
    }
  }

  /** While something logged is live the log is not empty, and its last entry
      names the block of the latest allocation. */
  lemma UnloggedKeepsLog(info: seq<RollbackInfo>, live: seq<Allocation>, base: nat)
    requires LogOk(info, live, base) && base < |live|
    ensures info != [] && info[|info| - 1].block == live[|live| - 1].block
    ensures info[|info| - 1].count > 0
    ensures LogOk(Unlogged(info), live[..|live| - 1], base)
  {
    UnloggedExpands(info);
    var n := |live| - 1 - base;
    assert Expand(info)[n] == live[base + n].block;
    forall i | 0 <= i < n
      ensures Expand(Unlogged(info))[i] == live[..|live| - 1][base + i].block
    {
      assert Expand(info)[i] == live[base + i].block;
    }
  }

  lemma {:induction false} ExpandNames(info: seq<RollbackInfo>, i: nat)
    requires CountsPositive(info) && i < |info|
    ensures info[i].block in Expand(info)
    decreases |info|, info[|info| - 1].count
  {
    var n := |info| - 1;
    UnloggedExpands(info);
    var rest := Unlogged(info);
    if i < n {
      assert rest[i] == info[i];
      ExpandNames(rest, i);
    }
    InConcat(Expand(rest), [info[n].block], info[i].block);
  }

  // ---------------------------------------------------------------------
  // Linked lists of blocks. A block's place is the list it is in and how many
  // blocks follow it there, so pushing and popping leave the other places alone.

  datatype Place = Place(list: nat, depth: nat)

  /** A placed block is the only one at its place, and its next pointer leads
      one deeper into the same list. */
  ghost predicate Linked(heap: map<Addr, Block>, len: seq<nat>, place: map<Addr, Place>,
                         at: map<Place, Addr>, b: Addr)
    requires b in heap && b in place
  {
    && place[b] in at && at[place[b]] == b
    && place[b].list < |len|
    && place[b].depth < len[place[b].list]
    && var next := heap[b].next;
       if place[b].depth == 0 then next == NULL
       else next in place && place[next] == Place(place[b].list, place[b].depth - 1)
  }

  ghost predicate HeadOk(head: Addr, len: nat, k: nat, place: map<Addr, Place>) {
    if len == 0 then head == NULL
    else head in place && place[head] == Place(k, len - 1)
  }

  /** Every block of the heap is in exactly one place of exactly one list,
      except the floating ones, which are in none. Depths strictly decrease
      along next pointers, so the lists are acyclic. */
  ghost predicate ListsOk(heap: map<Addr, Block>, heads: seq<Addr>, len: seq<nat>,
                          place: map<Addr, Place>, at: map<Place, Addr>, floating: set<Addr>)
  {
    && NULL !in heap
    && heap.Keys == place.Keys + floating
    && place.Keys !! floating
    && |heads| == |len|
    && (forall k {:trigger HeadOk(heads[k], len[k], k, place)} :: 0 <= k < |len| ==>
          HeadOk(heads[k], len[k], k, place))
    && (forall b {:trigger Linked(heap, len, place, at, b)} :: b in place ==>
          Linked(heap, len, place, at, b))
  }

  lemma PopKeepsLists(heap: map<Addr, Block>, heads: seq<Addr>, len: seq<nat>,
                      place: map<Addr, Place>, at: map<Place, Addr>, floating: set<Addr>, k: nat)
    requires ListsOk(heap, heads, len, place, at, floating)
    requires k < |heads| && heads[k] != NULL
    ensures heads[k] in heap && heads[k] in place && len[k] > 0
    ensures place[heads[k]] == Place(k, len[k] - 1)
    ensures len[k] == 1 ==> heap[heads[k]].next == NULL
    ensures ListsOk(heap, heads[k := heap[heads[k]].next], len[k := len[k] - 1],
                    place - {heads[k]}, at, floating + {heads[k]})
  {
    assert HeadOk(heads[k], len[k], k, place);
    var b := heads[k];
    assert Linked(heap, len, place, at, b);
    var place' := place - {b};
    var heads' := heads[k := heap[b].next];
    var len': seq<nat> := len[k := len[k] - 1];
    forall a | a in place'
      ensures Linked(heap, len', place', at, a)
    {
      assert Linked(heap, len, place, at, a);
    }
    forall l | 0 <= l < |len'|
      ensures HeadOk(heads'[l], len'[l], l, place')
    {
      assert HeadOk(heads[l], len[l], l, place);
    }
    assert heap.Keys == place'.Keys + (floating + {b});
  }

  lemma PushKeepsLists(heap: map<Addr, Block>, heads: seq<Addr>, len: seq<nat>,
                       place: map<Addr, Place>, at: map<Place, Addr>, floating: set<Addr>, k: nat, b: Addr)
    requires ListsOk(heap, heads, len, place, at, floating)
    requires k < |heads| && b in floating
    ensures ListsOk(heap[b := heap[b].(next := heads[k])], heads[k := b], len[k := len[k] + 1],
                    place[b := Place(k, len[k])], at[Place(k, len[k]) := b], floating - {b})
  {
    var heap' := heap[b := heap[b].(next := heads[k])];
    var place' := place[b := Place(k, len[k])];
    var at' := at[Place(k, len[k]) := b];
    var heads' := heads[k := b];
    var len': seq<nat> := len[k := len[k] + 1];
    assert HeadOk(heads[k], len[k], k, place);
    forall a | a in place'
      ensures Linked(heap', len', place', at', a)
    {
      if a != b {
        assert Linked(heap, len, place, at, a);
      }
    }
    forall l | 0 <= l < |len'|
      ensures HeadOk(heads'[l], len'[l], l, place')
    {
      assert HeadOk(heads[l], len[l], l, place);
    }
    assert heap'.Keys == place'.Keys + (floating - {b});
  }

  lemma AddFloating(heap: map<Addr, Block>, heads: seq<Addr>, len: seq<nat>, place: map<Addr, Place>,
                    at: map<Place, Addr>, floating: set<Addr>, b: Addr, block: Block)
    requires ListsOk(heap, heads, len, place, at, floating)
    requires b != NULL && b !in heap
    ensures ListsOk(heap[b := block], heads, len, place, at, floating + {b})
  {
    forall a | a in place
      ensures Linked(heap[b := block], len, place, at, a)
    {
      assert Linked(heap, len, place, at, a);
    }
    assert heap[b := block].Keys == place.Keys + (floating + {b});
  }

  lemma RemoveFloating(heap: map<Addr, Block>, heads: seq<Addr>, len: seq<nat>, place: map<Addr, Place>,
                       at: map<Place, Addr>, floating: set<Addr>, b: Addr)
    requires ListsOk(heap, heads, len, place, at, floating) && b in floating
    ensures ListsOk(heap - {b}, heads, len, place, at, floating - {b})
  {
    forall a | a in place
      ensures Linked(heap - {b}, len, place, at, a)
    {
      assert Linked(heap, len, place, at, a);
    }
    assert (heap - {b}).Keys == place.Keys + (floating - {b});
  }

  /** A block's list membership depends only on its next pointer. */
  lemma SameLinksKeepLists(heap: map<Addr, Block>, heap': map<Addr, Block>, heads: seq<Addr>, len: seq<nat>,
                           place: map<Addr, Place>, at: map<Place, Addr>, floating: set<Addr>)
    requires ListsOk(heap, heads, len, place, at, floating)
    requires heap'.Keys == heap.Keys
    requires forall b {:trigger heap'[b]} :: b in heap && b in place ==> heap'[b].next == heap[b].next
    ensures ListsOk(heap', heads, len, place, at, floating)
  {
    forall b | b in place
      ensures Linked(heap', len, place, at, b)
    {
      assert Linked(heap, len, place, at, b);
      assert heap'[b].next == heap[b].next;
    }
  }

  ghost function Shifted(place: map<Addr, Place>): map<Addr, Place> {
    map b | b in place :: Place(place[b].list + LISTS, place[b].depth)
  }

  ghost function ShiftedAt(place: map<Addr, Place>, at: map<Place, Addr>): map<Place, Addr> {
    map b | b in place && place[b] in at && at[place[b]] == b ::
      Place(place[b].list + LISTS, place[b].depth) := b
  }

  /** Starting over: eight empty lists in front of the old ones. */
  lemma ShiftKeepsLists(heap: map<Addr, Block>, heads: seq<Addr>, len: seq<nat>,
                        place: map<Addr, Place>, at: map<Place, Addr>, none: seq<Addr>, zero: seq<nat>)
    requires ListsOk(heap, heads, len, place, at, {})
    requires |none| == |zero| == LISTS
    requires forall k :: 0 <= k < LISTS ==> none[k] == NULL && zero[k] == 0
    ensures ListsOk(heap, none + heads, zero + len, Shifted(place), ShiftedAt(place, at), {})
  {
    var place', at' := Shifted(place), ShiftedAt(place, at);
    forall b | b in place'
      ensures Linked(heap, zero + len, place', at', b)
    {
      ShiftKeepsLink(heap, len, place, at, zero, b);
    }
    forall k | 0 <= k < |zero + len|
      ensures HeadOk((none + heads)[k], (zero + len)[k], k, place')
    {
      ShiftKeepsHead(heads, len, place, none, zero, k);
    }
    assert place'.Keys == place.Keys;
  }

  /** The old lists are behind the eight that are sorted and have no empty blocks. */
  lemma ShiftedAreBehind(heap: map<Addr, Block>, place: map<Addr, Place>)
    ensures AllClassified(heap, Shifted(place)) && NoEmptyBlocks(heap, Shifted(place))
  {
  }

  lemma StartedOver(heap: map<Addr, Block>, heads: seq<Addr>, len: seq<nat>,
                    place: map<Addr, Place>, at: map<Place, Addr>)
    requires ListsOk(heap, heads, len, place, at, {}) && |heads| == LISTS
    ensures ListsOk(heap, [NULL, NULL] + NO_SMALL_BLOCKS + heads, NO_LENGTHS + len, Shifted(place), ShiftedAt(place, at), {})
    ensures AllClassified(heap, Shifted(place)) && NoEmptyBlocks(heap, Shifted(place))
    ensures |NO_LENGTHS + len| == 2 * LISTS
  {
    ShiftKeepsLists(heap, heads, len, place, at, [NULL, NULL] + NO_SMALL_BLOCKS, NO_LENGTHS);
    ShiftedAreBehind(heap, place);
  }

  lemma ShiftKeepsLink(heap: map<Addr, Block>, len: seq<nat>, place: map<Addr, Place>, at: map<Place, Addr>,
                       zero: seq<nat>, b: Addr)
    requires |zero| == LISTS && NULL !in heap && b in place && place.Keys <= heap.Keys
    requires forall c {:trigger Linked(heap, len, place, at, c)} :: c in place ==> Linked(heap, len, place, at, c)
    ensures Linked(heap, zero + len, Shifted(place), ShiftedAt(place, at), b)
  {
    assert Linked(heap, len, place, at, b);
  }

  lemma ShiftKeepsHead(heads: seq<Addr>, len: seq<nat>, place: map<Addr, Place>, none: seq<Addr>, zero: seq<nat>, k: nat)
    requires |none| == |zero| == LISTS && |heads| == |len| && k < |zero + len|
    requires forall k :: 0 <= k < LISTS ==> none[k] == NULL && zero[k] == 0
    requires forall k {:trigger HeadOk(heads[k], len[k], k, place)} :: 0 <= k < |len| ==>
      HeadOk(heads[k], len[k], k, place)
    ensures HeadOk((none + heads)[k], (zero + len)[k], k, Shifted(place))
  {
    if k >= LISTS {
      assert HeadOk(heads[k - LISTS], len[k - LISTS], k - LISTS, place);
    }
  }

  /** Once every old list has been walked to its end, only the new ones matter. */
  lemma DropEmptyLists(heap: map<Addr, Block>, heads: seq<Addr>, walked: seq<Addr>, len: seq<nat>,
                       place: map<Addr, Place>, at: map<Place, Addr>)
    requires ListsOk(heap, heads + walked, len, place, at, {})
    requires forall k :: 0 <= k < |walked| ==> walked[k] == NULL
    ensures ListsOk(heap, heads, len[..|heads|], place, at, {})
    ensures forall b :: b in place ==> place[b].list < |heads|
  {
    var all := heads + walked;
    forall k | |heads| <= k < |len|
      ensures len[k] == 0
    {
      assert all[k] == walked[k - |heads|];
      assert HeadOk(all[k], len[k], k, place);
    }
    var len' := len[..|heads|];
    forall b | b in place
      ensures place[b].list < |heads| && Linked(heap, len', place, at, b)
    {
      assert Linked(heap, len, place, at, b);
    }
    forall k | 0 <= k < |len'|
      ensures HeadOk(heads[k], len'[k], k, place)
    {
      assert all[k] == heads[k];
      assert HeadOk(all[k], len[k], k, place);
    }
  }

  /** The block reached by following n next pointers. */
  ghost function Nth(heap: map<Addr, Block>, p: Addr, n: nat): Addr
    decreases n
  {
    if n == 0 || p !in heap then p else Nth(heap, heap[p].next, n - 1)
  }

  /** Walking a list from its head visits its blocks by decreasing depth and
      then reaches null. */
  lemma {:induction false} WalkList(heap: map<Addr, Block>, heads: seq<Addr>, len: seq<nat>, place: map<Addr, Place>,
                 at: map<Place, Addr>, floating: set<Addr>, p: Addr, n: nat)
    requires ListsOk(heap, heads, len, place, at, floating)
    requires p in place && n <= place[p].depth + 1
    ensures n <= place[p].depth ==>
              Nth(heap, p, n) in place && place[Nth(heap, p, n)] == Place(place[p].list, place[p].depth - n)
    ensures n == place[p].depth + 1 ==> Nth(heap, p, n) == NULL
    decreases n
  {
    assert Linked(heap, len, place, at, p);
    if n > 0 && place[p].depth > 0 {
      WalkList(heap, heads, len, place, at, floating, heap[p].next, n - 1);
    }
  }

  /** Every placed block is reached from the head of its own list, so each
      block is in exactly one list and the lists are acyclic. */
  lemma EveryBlockInOneList(heap: map<Addr, Block>, heads: seq<Addr>, len: seq<nat>, place: map<Addr, Place>,
                            at: map<Place, Addr>, floating: set<Addr>, b: Addr)
    requires ListsOk(heap, heads, len, place, at, floating) && b in place
    ensures place[b].list < |heads|
    ensures exists n :: 0 <= n < len[place[b].list] && Nth(heap, heads[place[b].list], n) == b
    ensures forall k, n :: 0 <= k < |heads| && 0 <= n < len[k] && Nth(heap, heads[k], n) == b ==> k == place[b].list
    ensures forall k {:trigger heads[k]} :: 0 <= k < |heads| ==> Nth(heap, heads[k], len[k]) == NULL
  {
    assert Linked(heap, len, place, at, b);
    var k := place[b].list;
    assert HeadOk(heads[k], len[k], k, place);
    var n: nat := len[k] - 1 - place[b].depth;
    WalkList(heap, heads, len, place, at, floating, heads[k], n);
    assert Linked(heap, len, place, at, Nth(heap, heads[k], n));
    assert Nth(heap, heads[k], n) == b;
    forall l, m | 0 <= l < |heads| && 0 <= m < len[l] && Nth(heap, heads[l], m) == b
      ensures l == k
    {
      assert HeadOk(heads[l], len[l], l, place);
      WalkList(heap, heads, len, place, at, floating, heads[l], m);
    }
    forall l | 0 <= l < |heads|
      ensures Nth(heap, heads[l], len[l]) == NULL
    {
      assert HeadOk(heads[l], len[l], l, place);
      if len[l] > 0 {
        WalkList(heap, heads, len, place, at, floating, heads[l], len[l]);
      }
    }
  }

  // ---------------------------------------------------------------------
  // Allocating in a block and undoing it.

  function Bump(block: Block, n: nat, tag: Tag): (r: Block)
    requires n + 1 <= block.SpaceLeft() && block.end <= |block.data|
  {
    block.(start := block.start + n, end := block.end - 1, data := block.data[block.end - 1 := tag])
  }

  function Unbump(sizes: seq<nat>, block: Block): (r: Block)
    requires |sizes| == FIRST_RAW_TAG && block.end < |block.data|
    requires TagSize(sizes, block.data[block.end]) <= block.start
  {
    block.(start := block.start - TagSize(sizes, block.data[block.end]), end := block.end + 1)
  }

  lemma BumpKeepsBlocks(sizes: seq<nat>, heap: map<Addr, Block>, live: seq<Allocation>, b: Addr, tag: Tag)
    requires |sizes| == FIRST_RAW_TAG && BlocksOk(sizes, heap, live)
    requires b in heap && TagSize(sizes, tag) + 1 <= heap[b].SpaceLeft()
    ensures heap[b].end <= |heap[b].data|
    ensures BlocksOk(sizes, heap[b := Bump(heap[b], TagSize(sizes, tag), tag)],
                     live + [Allocation(b, heap[b].start, tag)])
  {
    assert BlockOk(sizes, b, heap[b], live);
    var p := Allocation(b, heap[b].start, tag);
    var live' := live + [p];
    var heap' := heap[b := Bump(heap[b], TagSize(sizes, tag), tag)];
    assert live'[..|live|] == live;
    assert ([tag] + TagsOf(live, b))[1..] == TagsOf(live, b);
    forall a | a in heap'
      ensures BlockOk(sizes, a, heap'[a], live')
    {
      assert BlockOk(sizes, a, heap[a], live);
      if a == b {
        assert heap'[b].data[heap'[b].end..] == [tag] + heap[b].data[heap[b].end..];
      }
    }
    forall i | 0 <= i < |live'|
      ensures OffsetOk(sizes, live', i)
    {
      if i < |live| {
        assert OffsetOk(sizes, live, i);
        assert live'[i] == live[i];
        assert live'[..i] == live[..i];
      }
    }
  }

  lemma ShorterOffsets(sizes: seq<nat>, live: seq<Allocation>, n: nat, i: nat)
    requires |sizes| == FIRST_RAW_TAG && i < n <= |live| && OffsetOk(sizes, live, i)
    ensures OffsetOk(sizes, live[..n], i)
  {
    assert live[..n][..i] == live[..i];
  }

  /** The latest allocation of a block is the one whose tag comes first. */
  lemma LatestTag(sizes: seq<nat>, live: seq<Allocation>, b: Addr, block: Block)
    requires |sizes| == FIRST_RAW_TAG && live != [] && live[|live| - 1].block == b && BlockOk(sizes, b, block, live)
    ensures block.end < |block.data| && block.data[block.end] == live[|live| - 1].tag
    ensures TagSize(sizes, block.data[block.end]) <= block.start
    ensures BlockOk(sizes, b, Unbump(sizes, block), live[..|live| - 1])
  {
    var n := |live| - 1;
    var rest := TagsOf(live[..n], b);
    var tags := block.data[block.end..];
    assert tags == [live[n].tag] + rest && tags[1..] == rest;
    assert block.data[block.end + 1..] == tags[1..];
  }

  /** Reading the last tag of the block logged last finds the latest live
      allocation, and stepping both offsets back removes exactly that one. */
  lemma UnbumpKeepsBlocks(sizes: seq<nat>, heap: map<Addr, Block>, live: seq<Allocation>, b: Addr)
    requires |sizes| == FIRST_RAW_TAG && BlocksOk(sizes, heap, live)
    requires live != [] && live[|live| - 1].block == b
    ensures b in heap && heap[b].end < |heap[b].data|
    ensures TagSize(sizes, heap[b].data[heap[b].end]) <= heap[b].start
    ensures live[|live| - 1] == Allocation(b, Unbump(sizes, heap[b]).start, heap[b].data[heap[b].end])
    ensures BlocksOk(sizes, heap[b := Unbump(sizes, heap[b])], live[..|live| - 1])
  {
    var n := |live| - 1;
    assert BlockOk(sizes, b, heap[b], live);
    LatestTag(sizes, live, b, heap[b]);
    assert OffsetOk(sizes, live, n);
    var heap' := heap[b := Unbump(sizes, heap[b])];
    forall a | a in heap'
      ensures BlockOk(sizes, a, heap'[a], live[..n])
    {
      assert BlockOk(sizes, a, heap[a], live);
    }
    forall i | 0 <= i < n
      ensures OffsetOk(sizes, live[..n], i)
    {
      assert OffsetOk(sizes, live, i);
      ShorterOffsets(sizes, live, n, i);
    }
  }

  ghost predicate OnlyLinksDiffer(heap: map<Addr, Block>, heap': map<Addr, Block>) {
    && heap'.Keys == heap.Keys
    && forall b {:trigger heap'[b]} :: b in heap ==> heap'[b] == heap[b].(next := heap'[b].next)
  }

  lemma LinksKeepBlocks(sizes: seq<nat>, heap: map<Addr, Block>, heap': map<Addr, Block>, live: seq<Allocation>)
    requires |sizes| == FIRST_RAW_TAG && BlocksOk(sizes, heap, live)
    requires OnlyLinksDiffer(heap, heap')
    ensures BlocksOk(sizes, heap', live)
  {
    forall b | b in heap'
      ensures BlockOk(sizes, b, heap'[b], live)
    {
      assert BlockOk(sizes, b, heap[b], live);
    }
  }

  lemma EmptyBlockKeepsBlocks(sizes: seq<nat>, heap: map<Addr, Block>, live: seq<Allocation>, b: Addr, data: seq<Tag>)
    requires |sizes| == FIRST_RAW_TAG && BlocksOk(sizes, heap, live)
    requires b !in heap && |data| == BLOCK_CAPACITY
    ensures BlocksOk(sizes, heap[b := Block(0, BLOCK_CAPACITY, data, NULL)], live)
  {
    TagsOfAbsent(live, b);
    var heap' := heap[b := Block(0, BLOCK_CAPACITY, data, NULL)];
    assert heap'[b].data[heap'[b].end..] == [];
    forall a | a in heap'
      ensures BlockOk(sizes, a, heap'[a], live)
    {
      if a != b {
        assert BlockOk(sizes, a, heap[a], live);
      }
    }
  }

  /** An empty block holds no live allocation, so it can be freed. */
  lemma FreeKeepsBlocks(sizes: seq<nat>, heap: map<Addr, Block>, live: seq<Allocation>, b: Addr)
    requires KnownSizes(sizes) && BlocksOk(sizes, heap, live)
    requires b in heap && heap[b].start == 0
    ensures BlocksOk(sizes, heap - {b}, live)
  {
    assert BlockOk(sizes, b, heap[b], live);
    UsedPositive(sizes, TagsOf(live, b));
    forall i | 0 <= i < |live|
      ensures live[i].block != b
    {
      if live[i].block == b {
        TagsOfPresent(live, b, i);
      }
    }
    var heap' := heap - {b};
    forall a | a in heap'
      ensures BlockOk(sizes, a, heap'[a], live)
    {
      assert BlockOk(sizes, a, heap[a], live);
    }
  }

  // ---------------------------------------------------------------------

  /** Where a block of a given remaining space belongs: a small list holds the
      blocks that can take its size but not the next one, the full list those
      that cannot even take the smallest. */
  ghost predicate Classified(space: int, list: nat) {
    && (list == 1 ==> space < 1 + SMALL_SIZES[0])
    && (2 <= list < LISTS ==> 1 + SMALL_SIZES[list - 2] <= space)
    && (2 <= list < LISTS - 1 ==> space < 1 + SMALL_SIZES[list - 1])
  }

  ghost predicate AllClassified(heap: map<Addr, Block>, place: map<Addr, Place>) {
    forall b {:trigger Classified(heap[b].SpaceLeft(), place[b].list)} :: b in place && b in heap ==>
      Classified(heap[b].SpaceLeft(), place[b].list)
  }

  ghost predicate NonEmpty(block: Block) {
    block.start > 0
  }

  ghost predicate AllNonEmpty(heap: map<Addr, Block>) {
    forall b {:trigger NonEmpty(heap[b])} :: b in heap ==> NonEmpty(heap[b])
  }

  /** The blocks in the lists the arena works with all hold something. */
  ghost predicate NoEmptyBlocks(heap: map<Addr, Block>, place: map<Addr, Place>) {
    forall b {:trigger place[b]} :: b in place && b in heap && place[b].list < LISTS ==> heap[b].start > 0
  }

  /** After an allocation in block b all blocks hold something. */
  lemma TakenIsNonEmpty(before: map<Addr, Block>, picked: map<Addr, Block>, heap: map<Addr, Block>, b: Addr)
    requires AllNonEmpty(before) && heap.Keys == picked.Keys
    requires forall a :: a in picked && a != b ==> a in before && heap[a] == before[a]
    requires b in heap ==> heap[b].start > 0
    ensures AllNonEmpty(heap)
  {
    forall a | a in heap
      ensures NonEmpty(heap[a])
    {
      assert a != b ==> NonEmpty(before[a]);
    }
  }

  /** The first small list from `i` on that has a block and fits `size` bytes. */
  function FirstFit(small: seq<Addr>, size: nat, i: nat): (k: nat)
    requires i <= |small| == |SMALL_SIZES|
    ensures i <= k <= |small|
    ensures k < |small| ==> small[k] != NULL && size <= SMALL_SIZES[k]
    ensures forall j :: i <= j < k ==> small[j] == NULL || size > SMALL_SIZES[j]
    decreases |small| - i
  {
    if i == |small| || (small[i] != NULL && size <= SMALL_SIZES[i]) then i else FirstFit(small, size, i + 1)
  }

  /** Small list `i` has a block and fits, and none of the lists before it. */
  ghost predicate FitsFirst(small: seq<Addr>, size: nat, i: nat)
    requires i < |small| == |SMALL_SIZES|
  {
    && small[i] != NULL && size <= SMALL_SIZES[i]
    && forall j :: 0 <= j < i ==> small[j] == NULL || SMALL_SIZES[j] < size
  }

  // ---------------------------------------------------------------------
  // Destroying everything: block by block, latest first within a block.

  ghost function OnlyTracked(p: Allocation): seq<Allocation> {
    if p.tag < FIRST_RAW_TAG then [p] else []
  }

  /** The live objects of tracked types. */
  ghost function TrackedOf(live: seq<Allocation>): seq<Allocation> {
    if live == [] then [] else TrackedOf(live[..|live| - 1]) + OnlyTracked(live[|live| - 1])
  }

  /** Those of block b, latest first. */
  ghost function VisitsOf(live: seq<Allocation>, b: Addr): seq<Allocation> {
    if live == [] then []
    else
      var last := live[|live| - 1];
      var rest := VisitsOf(live[..|live| - 1], b);
      if last.block == b then OnlyTracked(last) + rest else rest
  }

  /** The part of a sequence that is in block b. */
  ghost function InBlock(s: seq<Allocation>, b: Addr): seq<Allocation> {
    if s == [] then []
    else if s[0].block == b then [s[0]] + InBlock(s[1..], b)
    else InBlock(s[1..], b)
  }

  lemma {:induction false} InBlockConcat(s: seq<Allocation>, t: seq<Allocation>, b: Addr)
    ensures InBlock(s + t, b) == InBlock(s, b) + InBlock(t, b)
  {
    if s == [] {
      EmptyLeft(t);
      EmptyLeft(InBlock(t, b));
    } else {
      assert (s + t)[1..] == s[1..] + t;
      InBlockConcat(s[1..], t, b);
    }
  }

  lemma {:induction false} VisitsInBlock(live: seq<Allocation>, b: Addr, c: Addr)
    ensures InBlock(VisitsOf(live, b), c) == if b == c then VisitsOf(live, b) else []
  {
    if live != [] {
      var last := live[|live| - 1];
      var rest := VisitsOf(live[..|live| - 1], b);
      VisitsInBlock(live[..|live| - 1], b, c);
      if last.block == b {
        InBlockConcat(OnlyTracked(last), rest, c);
        assert [last][1..] == [];
      }
    }
  }

  lemma {:induction false} CountInBlock(s: seq<Allocation>, a: Allocation)
    ensures multiset(s)[a] == multiset(InBlock(s, a.block))[a]
  {
    if s != [] {
      CountInBlock(s[1..], a);
      assert s == [s[0]] + s[1..];
    }
  }

  lemma {:induction false} CountVisits(live: seq<Allocation>, a: Allocation)
    ensures multiset(VisitsOf(live, a.block))[a] == multiset(TrackedOf(live))[a]
  {
    if live != [] {
      CountVisits(live[..|live| - 1], a);
    }
  }

  /** If every block has had its visits, each live object of a tracked type was destroyed
      exactly once, and nothing else was. */
  lemma AllDestroyedOnce(live: seq<Allocation>, destroyed: seq<Allocation>)
    requires forall b {:trigger InBlock(destroyed, b)} :: InBlock(destroyed, b) == VisitsOf(live, b)
    ensures multiset(destroyed) == multiset(TrackedOf(live))
  {
    forall a: Allocation
      ensures multiset(destroyed)[a] == multiset(TrackedOf(live))[a]
    {
      CountInBlock(destroyed, a);
      CountVisits(live, a);
      assert InBlock(destroyed, a.block) == VisitsOf(live, a.block);
    }
  }

  lemma {:induction false} VisitsAbsent(live: seq<Allocation>, b: Addr)
    requires forall i :: 0 <= i < |live| ==> live[i].block != b
    ensures VisitsOf(live, b) == []
  {
    if live != [] {
      VisitsAbsent(live[..|live| - 1], b);
    }
  }

  /** The latest allocation in block b among the first n. */
  lemma {:induction false} LatestInBlock(live: seq<Allocation>, n: nat, b: Addr) returns (m: nat)
    requires n <= |live| && TagsOf(live[..n], b) != []
    ensures m < n && live[m].block == b
    ensures TagsOf(live[..n], b) == [live[m].tag] + TagsOf(live[..m], b)
    ensures VisitsOf(live[..n], b) == OnlyTracked(live[m]) + VisitsOf(live[..m], b)
    decreases n
  {
    assert live[..n][..n - 1] == live[..n - 1];
    if live[n - 1].block == b {
      m := n - 1;
    } else {
      m := LatestInBlock(live, n - 1, b);
    }
  }

  /** While a block is visited: what is left to visit are the first n allocations. */
  ghost predicate Visiting(sizes: seq<nat>, live: seq<Allocation>, b: Addr, block: Block, start: nat, end: nat,
                           destroyed: seq<Allocation>, n: nat)
    requires |sizes| == FIRST_RAW_TAG
  {
    && n <= |live| && end <= |block.data|
    && block.data[end..] == TagsOf(live[..n], b)
    && start == Used(sizes, TagsOf(live[..n], b))
    && destroyed + VisitsOf(live[..n], b) == VisitsOf(live, b)
  }

  lemma VisitStarts(sizes: seq<nat>, live: seq<Allocation>, b: Addr, block: Block)
    requires |sizes| == FIRST_RAW_TAG && BlockOk(sizes, b, block, live)
    ensures Visiting(sizes, live, b, block, block.start, block.end, [], |live|)
  {
    assert live[..|live|] == live;
    EmptyLeft(VisitsOf(live, b));
  }

  /** One VisitAlloc reads the latest allocation left. */
  lemma VisitGoesOn(sizes: seq<nat>, live: seq<Allocation>, b: Addr, block: Block, start: nat, end: nat,
                    destroyed: seq<Allocation>, n: nat) returns (m: nat)
    requires KnownSizes(sizes) && Visiting(sizes, live, b, block, start, end, destroyed, n) && start != 0
    requires forall i {:trigger OffsetOk(sizes, live, i)} :: 0 <= i < |live| ==> OffsetOk(sizes, live, i)
    ensures m < n && end < |block.data| && TagSize(sizes, block.data[end]) <= start
    ensures live[m] == Allocation(b, start - TagSize(sizes, block.data[end]), block.data[end])
    ensures Visiting(sizes, live, b, block, start - TagSize(sizes, block.data[end]), end + 1,
                     destroyed + OnlyTracked(live[m]), m)
  {
    m := LatestInBlock(live, n, b);
    assert OffsetOk(sizes, live, m);
    var rest := TagsOf(live[..m], b);
    assert ([live[m].tag] + rest)[1..] == rest;
    assert block.data[end..][1..] == block.data[end + 1..];
    assert block.data[end] == block.data[end..][0];
    Assoc(destroyed, OnlyTracked(live[m]), VisitsOf(live[..m], b));
  }

  lemma VisitEnds(sizes: seq<nat>, live: seq<Allocation>, b: Addr, block: Block, end: nat,
                  destroyed: seq<Allocation>, n: nat)
    requires KnownSizes(sizes) && Visiting(sizes, live, b, block, 0, end, destroyed, n)
    ensures destroyed == VisitsOf(live, b)
  {
    UsedPositive(sizes, TagsOf(live[..n], b));
    NoTagsNoVisits(live[..n], b);
    EmptyLeft(destroyed);
  }

  lemma {:induction false} NoTagsNoVisits(live: seq<Allocation>, b: Addr)
    requires TagsOf(live, b) == []
    ensures VisitsOf(live, b) == []
  {
    if live != [] {
      NoTagsNoVisits(live[..|live| - 1], b);
    }
  }

  /** While all lists are walked: the blocks still there are as they were, and all others
      have had their visits. */
  ghost predicate Destroying(sizes: seq<nat>, live: seq<Allocation>, heap: map<Addr, Block>,
                             destroyed: seq<Allocation>)
    requires |sizes| == FIRST_RAW_TAG
  {
    && (forall b {:trigger BlockOk(sizes, b, heap[b], live)} :: b in heap ==> BlockOk(sizes, b, heap[b], live))
    && forall b {:trigger InBlock(destroyed, b)} :: InBlock(destroyed, b) == if b in heap then [] else VisitsOf(live, b)
  }

  lemma DestroyingStarts(sizes: seq<nat>, live: seq<Allocation>, heap: map<Addr, Block>)
    requires |sizes| == FIRST_RAW_TAG && BlocksOk(sizes, heap, live)
    ensures Destroying(sizes, live, heap, [])
  {
    forall b
      ensures InBlock([], b) == if b in heap then [] else VisitsOf(live, b)
    {
      if b !in heap {
        VisitsAbsent(live, b);
      }
    }
  }

  lemma DestroyingGoesOn(sizes: seq<nat>, live: seq<Allocation>, heap: map<Addr, Block>,
                         destroyed: seq<Allocation>, b: Addr)
    requires |sizes| == FIRST_RAW_TAG && Destroying(sizes, live, heap, destroyed) && b in heap
    ensures Destroying(sizes, live, heap - {b}, destroyed + VisitsOf(live, b))
  {
    var more := destroyed + VisitsOf(live, b);
    forall c
      ensures InBlock(more, c) == if c in heap - {b} then [] else VisitsOf(live, c)
    {
      InBlockConcat(destroyed, VisitsOf(live, b), c);
      VisitsInBlock(live, b, c);
      assert InBlock(destroyed, c) == if c in heap then [] else VisitsOf(live, c);
    }
    forall a | a in heap - {b}
      ensures BlockOk(sizes, a, (heap - {b})[a], live)
    {
      assert BlockOk(sizes, a, heap[a], live);
    }
  }

  lemma FewerBlocks(heap: map<Addr, Block>, b: Addr)
    requires b in heap
    ensures |heap - {b}| < |heap|
  {
    assert (heap - {b}).Keys == heap.Keys - {b};
    assert |heap.Keys - {b}| == |heap.Keys| - 1;
    assert |heap - {b}| == |(heap - {b}).Keys| && |heap| == |heap.Keys|;
  }

  /** The lists, and what is left to destroy. */
  ghost predicate WalkOk(sizes: seq<nat>, live: seq<Allocation>, heap: map<Addr, Block>, lists: seq<Addr>,
                         len: seq<nat>, place: map<Addr, Place>, at: map<Place, Addr>, destroyed: seq<Allocation>)
  {
    && KnownSizes(sizes)
    && ListsOk(heap, lists, len, place, at, {})
    && (forall i {:trigger OffsetOk(sizes, live, i)} :: 0 <= i < |live| ==> OffsetOk(sizes, live, i))
    && Destroying(sizes, live, heap, destroyed)
  }

  /** One block is destroyed: the first of list k. */
  lemma WalkGoesOn(sizes: seq<nat>, live: seq<Allocation>, heap: map<Addr, Block>, lists: seq<Addr>,
                   len: seq<nat>, place: map<Addr, Place>, at: map<Place, Addr>, destroyed: seq<Allocation>, k: nat)
    requires WalkOk(sizes, live, heap, lists, len, place, at, destroyed) && k < |lists| && lists[k] != NULL
    ensures lists[k] in heap && len[k] > 0 && BlockOk(sizes, lists[k], heap[lists[k]], live)
    ensures |heap - {lists[k]}| < |heap|
    ensures WalkOk(sizes, live, heap - {lists[k]}, lists[k := heap[lists[k]].next], len[k := len[k] - 1],
                   place - {lists[k]}, at, destroyed + VisitsOf(live, lists[k]))
  {
    var b := lists[k];
    ListsWithoutFirst(heap, lists, len, place, at, k);
    assert BlockOk(sizes, b, heap[b], live);
    DestroyingGoesOn(sizes, live, heap, destroyed, b);
    FewerBlocks(heap, b);
  }

  /** When all lists are empty no block is left. */
  lemma NothingLeft(heap: map<Addr, Block>, heads: seq<Addr>, len: seq<nat>, place: map<Addr, Place>,
                    at: map<Place, Addr>)
    requires ListsOk(heap, heads, len, place, at, {})
    requires forall k :: 0 <= k < |heads| ==> heads[k] == NULL
    ensures heap == map[]
  {
    forall b | b in place
      ensures false
    {
      PlacedHasHead(heap, heads, len, place, at, b);
    }
  }

  lemma PlacedHasHead(heap: map<Addr, Block>, heads: seq<Addr>, len: seq<nat>, place: map<Addr, Place>,
                      at: map<Place, Addr>, b: Addr)
    requires ListsOk(heap, heads, len, place, at, {}) && b in place
    ensures place[b].list < |heads| && heads[place[b].list] != NULL
  {
    assert Linked(heap, len, place, at, b);
    assert HeadOk(heads[place[b].list], len[place[b].list], place[b].list, place);
  }

  /** Taking the first block of a list away leaves the other lists and the rest of this one. */
  lemma ListsWithoutFirst(heap: map<Addr, Block>, heads: seq<Addr>, len: seq<nat>, place: map<Addr, Place>,
                          at: map<Place, Addr>, k: nat)
    requires ListsOk(heap, heads, len, place, at, {}) && k < |heads| && heads[k] != NULL
    ensures heads[k] in heap && len[k] > 0
    ensures ListsOk(heap - {heads[k]}, heads[k := heap[heads[k]].next], len[k := len[k] - 1], place - {heads[k]}, at, {})
  {
    var b := heads[k];
    PopKeepsLists(heap, heads, len, place, at, {}, k);
    assert {} + {b} == {b} && {b} - {b} == {};
    RemoveFloating(heap, heads[k := heap[b].next], len[k := len[k] - 1], place - {b}, at, {b}, b);
  }

  class TableArena {
    const sizes: seq<nat>

    var heap: map<Addr, Block>
    var current: Addr
    var full: Addr
    var small: seq<Addr>
    var numAllocations: nat
    var rollbackInfo: seq<RollbackInfo>

    /** Every live allocation in the order it was made. */
    ghost var live: seq<Allocation>
    /** How many allocations were live when the rollback data was last cleared. */
    ghost var base: nat
    ghost var len: seq<nat>
    ghost var place: map<Addr, Place>
    ghost var at: map<Place, Addr>

    function Heads(): seq<Addr>
      reads this
    {
      [current, full] + small
    }

    /** The block lists, with `extra` further lists and some floating blocks. */
    ghost predicate ListsValid(extra: seq<Addr>, floating: set<Addr>)
      reads this
    {
      && |small| == |SMALL_SIZES|
      && ListsOk(heap, Heads() + extra, len, place, at, floating)
      && len[0] <= 1
      && AllClassified(heap, place)
    }

    ghost predicate Valid()
      reads this
    {
      && KnownSizes(sizes)
      && ListsValid([], {})
      && BlocksOk(sizes, heap, live)
      && AllNonEmpty(heap)
      && LogOk(rollbackInfo, live, base)
      && numAllocations == |live|
    }

    constructor (sizes: seq<nat>)
      requires KnownSizes(sizes)
      ensures Valid() && heap == map[] && live == [] && base == 0 && this.sizes == sizes
    {
      this.sizes := sizes;
      heap, current, full, small := map[], NULL, NULL, NO_SMALL_BLOCKS;
      numAllocations, rollbackInfo := 0, [];
      live, base, len, place, at := [], 0, NO_LENGTHS, map[], map[];
    }

    /** Block::PrependTo, on the list numbered as in GetLists. */
    method PrependTo(b: Addr, k: nat, ghost extra: seq<Addr>, ghost floating: set<Addr>)
      requires |small| == |SMALL_SIZES| && k < LISTS && b in floating
      requires ListsOk(heap, Heads() + extra, len, place, at, floating)
      requires AllClassified(heap, place) && b in heap && Classified(heap[b].SpaceLeft(), k)
      modifies this`heap, this`current, this`full, this`small, this`len, this`place, this`at
      ensures |small| == |SMALL_SIZES| && Heads() == old(Heads())[k := b]
      ensures ListsOk(heap, Heads() + extra, len, place, at, floating - {b})
      ensures AllClassified(heap, place)
      ensures heap == old(heap)[b := old(heap)[b].(next := old(Heads())[k])]
      ensures b !in old(place) && place == old(place)[b := Place(k, old(len)[k])]
      ensures len == old(len)[k := old(len)[k] + 1]
    {
      ghost var heads := Heads() + extra;
      PushKeepsLists(heap, heads, len, place, at, floating, k, b);
      heap := heap[b := heap[b].(next := Heads()[k])];
      place, at, len := place[b := Place(k, len[k])], at[Place(k, len[k]) := b], len[k := len[k] + 1];
      if k == 0 {
        current := b;
      } else if k == 1 {
        full := b;
      } else {
        small := small[k - 2 := b];
      }
      assert Heads() == old(Heads())[k := b];
      assert Heads() + extra == heads[k := b];
      forall a | a in place && a in heap
        ensures Classified(heap[a].SpaceLeft(), place[a].list)
      {
        assert a != b ==> Classified(old(heap)[a].SpaceLeft(), old(place)[a].list);
      }
    }

    /** std::swap(current_, to_relocate); current_->next = nullptr */
    method SwapWithCurrent(b: Addr, ghost extra: seq<Addr>) returns (r: Addr)
      requires ListsValid(extra, {b}) && current != NULL
      modifies this`heap, this`current, this`full, this`small, this`len, this`place, this`at
      ensures ListsValid(extra, {r}) && current == b && r == old(current) && r != b
      ensures OnlyLinksDiffer(old(heap), heap)
      ensures len == old(len)
      ensures r in old(place) && place == (old(place) - {r})[b := Place(0, 0)]
      ensures old(place)[r].list == 0
    {
      ghost var heads := Heads() + extra;
      r := current;
      PopKeepsLists(heap, heads, len, place, at, {b}, 0);
      current := heap[r].next;
      place, len := place - {r}, len[0 := len[0] - 1];
      assert Heads() + extra == heads[0 := current];
      PoppedClassified(heap, old(place), r);
      PrependTo(b, 0, extra, {b} + {r});
      assert Heads()[0] == b;
      assert {b} + {r} - {b} == {r};
    }

    /** Puts a floating block into the list it belongs to, or makes it current
        when it has more space than the current one. */
    method RelocateToUsedList(b: Addr, ghost extra: seq<Addr>)
      requires ListsValid(extra, {b})
      modifies this`heap, this`current, this`full, this`small, this`len, this`place, this`at
      ensures ListsValid(extra, {})
      ensures OnlyLinksDiffer(old(heap), heap)
      ensures old(current) != NULL ==> old(current) in old(heap)
      ensures current == if old(current) != NULL && old(heap)[old(current)].SpaceLeft() >= old(heap)[b].SpaceLeft()
        then old(current) else b
      ensures |len| == old(|len|) && len[LISTS..] == old(len[LISTS..])
      ensures forall a :: a in place && place[a].list < LISTS ==>
                a == b || (a in old(place) && old(place)[a].list < LISTS)
    {
      assert HeadOk((Heads() + extra)[0], len[0], 0, place);
      if current == NULL {
        PrependTo(b, 0, extra, {b});
        assert {b} - {b} == {} && Heads()[0] == b;
        return;
      }
      var r := b;
      if heap[current].SpaceLeft() < heap[b].SpaceLeft() {
        r := SwapWithCurrent(b, extra);
      }
      PlaceBySpace(r, extra);
    }

    /** The small list of the largest size that fits beside a tag, else the full blocks. */
    method PlaceBySpace(r: Addr, ghost extra: seq<Addr>)
      requires ListsValid(extra, {r})
      modifies this`heap, this`current, this`full, this`small, this`len, this`place, this`at
      ensures ListsValid(extra, {}) && OnlyLinksDiffer(old(heap), heap)
      ensures current == old(current)
      ensures |len| == old(|len|) && len[LISTS..] == old(len[LISTS..])
      ensures place.Keys == old(place).Keys + {r} && forall a :: a in old(place) ==> place[a] == old(place)[a]
    {
      var i := |SMALL_SIZES|;
      while i > 0
        invariant 0 <= i <= |SMALL_SIZES|
        invariant i < |SMALL_SIZES| ==> heap[r].SpaceLeft() < 1 + SMALL_SIZES[i]
      {
        i := i - 1;
        if heap[r].SpaceLeft() >= 1 + SMALL_SIZES[i] {
          PrependTo(r, i + 2, extra, {r});
          assert {r} - {r} == {} && Heads()[0] == old(Heads())[0];
          return;
        }
      }
      PrependTo(r, 1, extra, {r});
      assert {r} - {r} == {} && Heads()[0] == old(Heads())[0];
    }

    /** Makes a new block at `page` the current one; the old one, if any, is left floating. */
    method NewCurrent(page: Addr, mem: seq<Tag>) returns (toRelocate: Addr)
      requires ListsValid([], {})
      requires page != NULL && page !in heap && |mem| == BLOCK_CAPACITY
      modifies this`heap, this`current, this`full, this`small, this`len, this`place, this`at
      ensures toRelocate == old(current)
      ensures ListsValid([], if toRelocate == NULL then {} else {toRelocate})
      ensures page in place && place[page].list == 0
      ensures heap == old(heap)[page := Block(0, BLOCK_CAPACITY, mem, NULL)]
    {
      ghost var heads := Heads() + [];
      assert HeadOk(heads[0], len[0], 0, place);
      toRelocate := current;
      if toRelocate != NULL {
        PopKeepsLists(heap, heads, len, place, at, {}, 0);
        current := heap[toRelocate].next;
        place, len := place - {toRelocate}, len[0 := len[0] - 1];
        assert Heads() + [] == heads[0 := current];
        PoppedClassified(heap, old(place), toRelocate);
      }
      ghost var floating := if toRelocate == NULL then {} else {toRelocate};
      assert {} + {toRelocate} == {toRelocate};
      AddFloating(heap, Heads() + [], len, place, at, floating, page, Block(0, BLOCK_CAPACITY, mem, NULL));
      heap := heap[page := Block(0, BLOCK_CAPACITY, mem, NULL)];
      NewBlockClassified(old(heap), place, page, heap[page]);
      PrependTo(page, 0, [], floating + {page});
      assert floating + {page} - {page} == floating;
      assert heap == old(heap)[page := Block(0, BLOCK_CAPACITY, mem, NULL)];
    }

    /** The block an allocation of `size` bytes has to come from: the head of the first
        small list that fits, else the current block if it has room, else a new one. */
    ghost function Chosen(size: nat, page: Addr): Addr
      requires |small| == |SMALL_SIZES| && (current != NULL ==> current in heap)
      reads this`small, this`current, this`heap
    {
      var i := FirstFit(small, size, 0);
      if i < |small| then small[i]
      else if current != NULL && size + 1 <= heap[current].SpaceLeft() then current
      else page
    }

    /** In the order of the rules: the small lists from the shortest remaining space on, as
        far as they fit, then the current block, and a new block only then. */
    lemma ChosenIs(size: nat, page: Addr)
      requires ListsValid([], {})
      ensures current != NULL ==> current in heap
      ensures forall i | 0 <= i < |SMALL_SIZES| && FitsFirst(small, size, i) ::
                small[i] in heap && Chosen(size, page) == small[i]
      ensures (forall i :: 0 <= i < |SMALL_SIZES| ==> small[i] == NULL || SMALL_SIZES[i] < size) ==>
                Chosen(size, page) ==
                if current != NULL && size + 1 <= heap[current].end - heap[current].start then current else page
    {
      var heads := Heads() + [];
      assert HeadOk(heads[0], len[0], 0, place);
      forall i | 0 <= i < |SMALL_SIZES| && small[i] != NULL
        ensures small[i] in heap
      {
        assert heads[i + 2] == small[i] && HeadOk(heads[i + 2], len[i + 2], i + 2, place);
      }
    }

    /** Chooses the block an allocation of `size` bytes goes to. A block that has to move to
        another list afterwards is left floating. */
    method PickBlock(size: nat, page: Addr, mem: seq<Tag>) returns (toUse: Addr, toRelocate: Addr)
      requires ListsValid([], {}) && size + 1 <= BLOCK_CAPACITY
      requires page != NULL && page !in heap && |mem| == BLOCK_CAPACITY
      modifies this`heap, this`current, this`full, this`small, this`len, this`place, this`at
      ensures ListsValid([], if toRelocate == NULL then {} else {toRelocate})
      ensures toUse in heap && size + 1 <= heap[toUse].SpaceLeft()
      ensures old(current) != NULL ==> old(current) in old(heap)
      ensures toUse == old(Chosen(size, page))
      ensures toUse == toRelocate || (toUse in place && place[toUse].list == 0)
      ensures heap == old(heap)
           || (toUse == page && heap == old(heap)[page := Block(0, BLOCK_CAPACITY, mem, NULL)])
    {
      ghost var heads := Heads() + [];
      assert HeadOk(heads[0], len[0], 0, place);
      for i := 0 to |SMALL_SIZES|
        invariant FirstFit(small, size, i) == FirstFit(small, size, 0)
      {
        if small[i] != NULL && size <= SMALL_SIZES[i] {
          toUse := small[i];
          toRelocate := toUse;
          PopKeepsLists(heap, heads, len, place, at, {}, i + 2);
          assert Classified(heap[toUse].SpaceLeft(), place[toUse].list);
          small := small[i := heap[toUse].next];
          place, len := place - {toUse}, len[i + 2 := len[i + 2] - 1];
          assert Heads() + [] == heads[i + 2 := heap[toUse].next];
          assert {} + {toUse} == {toUse};
          PoppedClassified(heap, old(place), toUse);
          return;
        }
      }
      if current != NULL && size + 1 <= heap[current].SpaceLeft() {
        return current, NULL;
      }
      toUse := page;
      toRelocate := NewCurrent(page, mem);
    }

    /** The block lists may have one floating block, everything else is in order. */
    ghost predicate ValidBut(floating: set<Addr>)
      reads this
    {
      && KnownSizes(sizes)
      && ListsValid([], floating)
      && BlocksOk(sizes, heap, live)
      && LogOk(rollbackInfo, live, base)
      && numAllocations == |live|
    }

    /** Counts and logs an allocation in block b and takes its bytes from it. */
    method Take(b: Addr, n: nat, tag: Tag, ghost floating: set<Addr>) returns (p: Allocation)
      requires ValidBut(floating)
      requires b in heap && n + 1 <= heap[b].SpaceLeft() && n == TagSize(sizes, tag)
      requires b in place ==> place[b].list == 0
      modifies this`heap, this`numAllocations, this`rollbackInfo, this`live
      ensures ValidBut(floating)
      ensures p.block == b && p.tag == tag && live == old(live) + [p]
      ensures heap.Keys == old(heap.Keys) && heap[b].start == old(heap)[b].start + n
      ensures forall a :: a in heap && a != b ==> heap[a] == old(heap)[a]
    {
      p := Allocation(b, heap[b].start, tag);
      LoggedKeepsLog(rollbackInfo, live, base, p);
      BumpKeepsBlocks(sizes, heap, live, b, tag);
      numAllocations := numAllocations + 1;
      rollbackInfo := Logged(rollbackInfo, b);
      heap := heap[b := Bump(heap[b], n, tag)];
      live := live + [p];
      SameLinksKeepLists(old(heap), heap, Heads() + [], len, place, at, floating);
      BumpedClassified(old(heap), place, b, heap[b]);
    }

    /** Allocates `size` bytes described by `tag`. `page` and `mem` stand for the
        block ::operator new would return if one is needed. */
    method AllocRawInternal(size: nat, tag: Tag, page: Addr, mem: seq<Tag>) returns (p: Allocation)
      requires Valid() && size > 0
      requires TagSize(sizes, tag) == RoundUp(size) && RoundUp(size) + 1 <= BLOCK_CAPACITY
      requires page != NULL && page !in heap && |mem| == BLOCK_CAPACITY
      modifies this
      ensures Valid() && base == old(base)
      ensures p.tag == tag && live == old(live) + [p]
      ensures old(current) != NULL ==> old(current) in old(heap)
      ensures p.block == old(Chosen(RoundUp(size), page)) && heap.Keys == old(heap.Keys) + {p.block}
      ensures |old(small)| == |SMALL_SIZES|
      ensures var n := (size + 7) / 8 * 8;
              forall i | 0 <= i < |SMALL_SIZES| && FitsFirst(old(small), n, i) ::
                p.block == old(small)[i] && heap.Keys == old(heap.Keys)
      ensures var n := (size + 7) / 8 * 8;
              (forall i :: 0 <= i < |SMALL_SIZES| ==> old(small)[i] == NULL || SMALL_SIZES[i] < n) ==>
                if old(current) != NULL && n + 1 <= old(heap)[old(current)].end - old(heap)[old(current)].start
                then p.block == old(current) && heap.Keys == old(heap.Keys)
                else p.block == page
    {
      ChosenIs(RoundUp(size), page);
      var toRelocate;
      p, toRelocate := TakePicked(RoundUp(size), tag, page, mem);
      if toRelocate != NULL {
        Settle(toRelocate);
      }
    }

    /** Picks a block and allocates in it; the block to relocate is left floating. */
    method TakePicked(n: nat, tag: Tag, page: Addr, mem: seq<Tag>) returns (p: Allocation, toRelocate: Addr)
      requires Valid() && TagSize(sizes, tag) == n > 0 && n + 1 <= BLOCK_CAPACITY
      requires page != NULL && page !in heap && |mem| == BLOCK_CAPACITY
      modifies this
      ensures ValidBut(if toRelocate == NULL then {} else {toRelocate}) && AllNonEmpty(heap) && base == old(base)
      ensures p.tag == tag && live == old(live) + [p]
      ensures old(current) != NULL ==> old(current) in old(heap)
      ensures p.block == old(Chosen(n, page)) && heap.Keys == old(heap.Keys) + {p.block}
    {
      var toUse;
      toUse, toRelocate := PickBlock(n, page, mem);
      ghost var floating := if toRelocate == NULL then {} else {toRelocate};
      if toUse == page {
        EmptyBlockKeepsBlocks(sizes, old(heap), live, page, mem);
      }
      label picked:
      p := Take(toUse, n, tag, floating);
      TakenIsNonEmpty(old(heap), old@picked(heap), heap, toUse);
    }

    /** Ends an allocation that left its block floating. */
    method Settle(b: Addr)
      requires ValidBut({b}) && AllNonEmpty(heap)
      modifies this`heap, this`current, this`full, this`small, this`len, this`place, this`at
      ensures Valid() && heap.Keys == old(heap.Keys)
    {
      RelocateToUsedList(b, []);
      LinksKeepBlocks(sizes, old(heap), heap, live);
      forall a | a in heap
        ensures NonEmpty(heap[a])
      {
        assert NonEmpty(old(heap)[a]);
        assert heap[a] == old(heap)[a].(next := heap[a].next);
      }
    }

    /** Raw memory, or an out-of-line record when the size does not fit a tag. */
    method AllocateMemory(n: nat, page: Addr, mem: seq<Tag>) returns (p: Allocation, outOfLine: bool)
      requires Valid() && n > 0
      requires page != NULL && page !in heap && |mem| == BLOCK_CAPACITY
      modifies this
      ensures Valid() && base == old(base) && live == old(live) + [p]
      ensures outOfLine <==> n > 239 * 8
      ensures if outOfLine then p.tag == 0
              else p.tag >= FIRST_RAW_TAG && n <= TagSize(sizes, p.tag) < n + 8
    {
      var tag := SizeToRawTag(n) + FIRST_RAW_TAG;
      outOfLine := tag > 255;
      if outOfLine {
        p := AllocRawInternal(sizes[0], 0, page, mem);
      } else {
        p := AllocRawInternal(n, tag, page, mem);
      }
    }

    /** Create<T>: the tag numbers a tracked type, or encodes the size of another one. */
    method Create(k: Kind, page: Addr, mem: seq<Tag>) returns (p: Allocation)
      requires Valid() && (k.Tracked? ==> k.index < FIRST_RAW_TAG) && (k.Untracked? ==> 0 < k.size <= MAX_UNTRACKED)
      requires page != NULL && page !in heap && |mem| == BLOCK_CAPACITY
      modifies this
      ensures Valid() && base == old(base) && live == old(live) + [p] && p.tag == TypeTag(k)
      ensures k.Tracked? ==> p.tag == k.index
      ensures k.Untracked? ==> p.tag >= FIRST_RAW_TAG && k.size <= TagSize(sizes, p.tag) < k.size + 8
    {
      match k {
        case Tracked(i) =>
          p := AllocRawInternal(sizes[i], i, page, mem);
        case Untracked(n) =>
          UntrackedTagIff(sizes, n);
          p := AllocRawInternal(n, TypeTag(k), page, mem);
      }
    }

    method ClearRollbackData()
      requires Valid()
      modifies this`rollbackInfo, this`base
      ensures Valid() && base == |live| && rollbackInfo == []
    {
      rollbackInfo := [];
      base := |live|;
    }

    /** Undoes allocations until only `checkpoint` are left, latest first, then
        rebuilds the lists and frees the empty blocks. */
    method RollbackTo(checkpoint: nat) returns (undone: seq<Allocation>)
      requires Valid() && base <= checkpoint
      modifies this
      ensures Valid() && base == old(base)
      ensures var n := if checkpoint < old(|live|) then checkpoint else old(|live|);
              live == old(live)[..n] && undone == Reversed(old(live)[n..])
      ensures forall b :: b in heap <==> b in old(heap) && exists i :: 0 <= i < |live| && live[i].block == b
    {
      undone := UndoTo(checkpoint);
      RebuildLists();
      forall b | b in heap
        ensures exists i :: 0 <= i < |live| && live[i].block == b
      {
        assert BlockOk(sizes, b, heap[b], live);
        assert NonEmpty(heap[b]);
        if forall i :: 0 <= i < |live| ==> live[i].block != b {
          TagsOfAbsent(live, b);
        }
      }
    }

    /** The loop of RollbackTo that pops the log. */
    method UndoTo(checkpoint: nat) returns (undone: seq<Allocation>)
      requires ListsLinked() && base <= checkpoint
      modifies this`heap, this`numAllocations, this`rollbackInfo, this`live
      ensures ListsLinked() && heap.Keys == old(heap.Keys)
      ensures var n := if checkpoint < old(|live|) then checkpoint else old(|live|);
              live == old(live)[..n] && undone == Reversed(old(live)[n..])
    {
      undone := [];
      assert live == old(live)[..numAllocations];
      while numAllocations > checkpoint
        invariant numAllocations == |live| <= |old(live)|
        invariant checkpoint <= numAllocations || numAllocations == |old(live)|
        invariant live == old(live)[..numAllocations]
        invariant undone == Reversed(old(live)[numAllocations..])
        invariant ListsLinked() && heap.Keys == old(heap.Keys)
      {
        assert old(live)[numAllocations - 1..][1..] == old(live)[numAllocations..];
        ReversedFirst(old(live)[numAllocations - 1..]);
        var p := UndoLast();
        undone := undone + [p];
      }
    }

    /** Undoes the allocation logged last. The log is not empty: the GOOGLE_DCHECK holds. */
    method UndoLast() returns (p: Allocation)
      requires ListsLinked() && base < |live|
      modifies this`heap, this`numAllocations, this`rollbackInfo, this`live
      ensures ListsLinked() && heap.Keys == old(heap.Keys)
      ensures live == old(live)[..old(|live|) - 1] && p == old(live)[old(|live|) - 1]
    {
      UnloggedKeepsLog(rollbackInfo, live, base);
      assert rollbackInfo != [];
      var b := rollbackInfo[|rollbackInfo| - 1].block;
      UnbumpKeepsBlocks(sizes, heap, live, b);
      p := Allocation(b, Unbump(sizes, heap[b]).start, heap[b].data[heap[b].end]);
      heap := heap[b := Unbump(sizes, heap[b])];
      SameLinksKeepLists(old(heap), heap, Heads() + [], len, place, at, {});
      rollbackInfo := Unlogged(rollbackInfo);
      numAllocations := numAllocations - 1;
      live := live[..numAllocations];
    }

    /** Rolling back leaves the lists linked, but no longer sorted by space. */
    ghost predicate ListsLinked()
      reads this
    {
      && KnownSizes(sizes)
      && |small| == |SMALL_SIZES|
      && ListsOk(heap, Heads() + [], len, place, at, {})
      && BlocksOk(sizes, heap, live)
      && LogOk(rollbackInfo, live, base)
      && numAllocations == |live|
    }

    /** While the lists are rebuilt, `rest` are the heads of the old lists still to be walked. */
    ghost predicate Rebuilding(rest: seq<Addr>, floating: set<Addr>)
      reads this
    {
      && KnownSizes(sizes)
      && |rest| == LISTS
      && |len| == 2 * LISTS
      && ListsValid(rest, floating)
      && BlocksOk(sizes, heap, live)
      && NoEmptyBlocks(heap, place)
    }

    /** Every list is emptied and its blocks placed again by their new space. */
    method RebuildLists()
      requires ListsLinked()
      modifies this`heap, this`current, this`full, this`small, this`len, this`place, this`at
      ensures Valid() && heap.Keys <= old(heap.Keys)
    {
      var lists := StartOver();
      var k := 0;
      while k < LISTS
        invariant 0 <= k <= LISTS
        invariant Rebuilding(lists, {}) && heap.Keys <= old(heap.Keys)
        invariant forall j :: 0 <= j < k ==> lists[j] == NULL
      {
        lists := DrainList(k, lists);
        k := k + 1;
      }
      DropEmptyLists(heap, Heads(), lists, len, place, at);
      forall b | b in heap
        ensures NonEmpty(heap[b])
      {
        assert place[b].list < LISTS;
      }
      len := len[..LISTS];
      assert Heads() + [] == Heads();
    }

    method StartOver() returns (lists: seq<Addr>)
      requires ListsLinked()
      modifies this`current, this`full, this`small, this`len, this`place, this`at
      ensures Rebuilding(lists, {}) && lists == old(Heads())
    {
      lists := Heads();
      assert lists + [] == lists;
      StartedOver(heap, lists, len, place, at);
      current, full, small := NULL, NULL, NO_SMALL_BLOCKS;
      len, at, place := NO_LENGTHS + len, ShiftedAt(place, at), Shifted(place);
    }

    /** Walks old list k to its end, freeing empty blocks and relocating the others. */
    method DrainList(k: nat, lists0: seq<Addr>) returns (lists: seq<Addr>)
      requires k < LISTS && Rebuilding(lists0, {})
      modifies this`heap, this`current, this`full, this`small, this`len, this`place, this`at
      ensures lists == lists0[k := NULL] && Rebuilding(lists, {}) && heap.Keys <= old(heap.Keys)
    {
      lists := lists0;
      while lists[k] != NULL
        invariant Rebuilding(lists, {}) && heap.Keys <= old(heap.Keys)
        invariant lists == lists0[k := lists[k]]
        decreases len[LISTS + k]
      {
        var b := lists[k];
        lists := PopOld(k, lists);
        if heap[b].start == 0 {
          FreeEmpty(b, lists);
        } else {
          RelocateOld(b, lists);
        }
      }
    }

    /** RelocateToUsedList(b); */
    method RelocateOld(b: Addr, ghost lists: seq<Addr>)
      requires Rebuilding(lists, {b}) && b in heap && heap[b].start != 0
      modifies this`heap, this`current, this`full, this`small, this`len, this`place, this`at
      ensures Rebuilding(lists, {}) && heap.Keys == old(heap).Keys
      ensures len[LISTS..] == old(len[LISTS..])
    {
      RelocateToUsedList(b, lists);
      LinksKeepBlocks(sizes, old(heap), heap, live);
    }

    /** Block* b = list; list = list->next; */
    method PopOld(k: nat, lists0: seq<Addr>) returns (lists: seq<Addr>)
      requires k < LISTS && Rebuilding(lists0, {}) && lists0[k] != NULL
      modifies this`len, this`place
      ensures lists0[k] in heap && lists == lists0[k := heap[lists0[k]].next]
      ensures Rebuilding(lists, {lists0[k]})
      ensures len == old(len)[LISTS + k := len[LISTS + k]] && len[LISTS + k] < old(len)[LISTS + k]
    {
      var b := lists0[k];
      ghost var heads := Heads() + lists0;
      assert heads[LISTS + k] == b;
      PopKeepsLists(heap, heads, len, place, at, {}, LISTS + k);
      PoppedClassified(heap, place, b);
      lists := lists0[k := heap[b].next];
      place, len := place - {b}, len[LISTS + k := len[LISTS + k] - 1];
      assert Heads() + lists == heads[LISTS + k := heap[b].next];
      assert {} + {b} == {b};
    }

    /** b->Destroy(); */
    method FreeEmpty(b: Addr, ghost lists: seq<Addr>)
      requires Rebuilding(lists, {b}) && b in heap && heap[b].start == 0
      modifies this`heap
      ensures heap == old(heap) - {b} && Rebuilding(lists, {})
    {
      RemoveFloating(heap, Heads() + lists, len, place, at, {b}, b);
      FreeKeepsBlocks(sizes, heap, live, b);
      FreedClassified(heap, place, b);
      heap := heap - {b};
      assert {b} - {b} == {};
    }

    /** VisitBlock: destroys the objects of tracked types in the block, latest first, and
        skips raw memory. */
    method VisitBlock(b: Addr) returns (destroyed: seq<Allocation>)
      requires KnownSizes(sizes) && b in heap && BlockOk(sizes, b, heap[b], live)
      requires forall i {:trigger OffsetOk(sizes, live, i)} :: 0 <= i < |live| ==> OffsetOk(sizes, live, i)
      ensures destroyed == VisitsOf(live, b)
    {
      var block := heap[b];
      var start: nat, end: nat := block.start, block.end;
      destroyed := [];
      ghost var n: nat := |live|;
      VisitStarts(sizes, live, b, block);
      while start != 0
        invariant Visiting(sizes, live, b, block, start, end, destroyed, n)
        decreases n
      {
        n := VisitGoesOn(sizes, live, b, block, start, end, destroyed, n);
        var tag := block.data[end];
        start := start - TagSize(sizes, tag);
        if tag < FIRST_RAW_TAG {
          destroyed := destroyed + [Allocation(b, start, tag)];
        }
        end := end + 1;
      }
      VisitEnds(sizes, live, b, block, end, destroyed, n);
    }

    /** ~TableArena: walks all lists, destroys what the blocks hold and frees them. Every
        live object of a tracked type is destroyed exactly once, and within a block the
        latest first. */
    method Destroy() returns (destroyed: seq<Allocation>)
      requires Valid()
      modifies this`heap, this`len, this`place
      ensures heap == map[] && live == old(live)
      ensures multiset(destroyed) == multiset(TrackedOf(live))
      ensures forall b :: InBlock(destroyed, b) == VisitsOf(live, b)
    {
      var lists := Heads();
      assert lists + [] == lists;
      destroyed := [];
      DestroyingStarts(sizes, live, heap);
      var k := 0;
      while k < LISTS
        invariant 0 <= k <= LISTS && |lists| == LISTS
        invariant Walking(lists, destroyed)
        invariant forall j :: 0 <= j < k ==> lists[j] == NULL
      {
        lists, destroyed := DestroyList(k, lists, destroyed);
        k := k + 1;
      }
      NothingLeft(heap, lists, len, place, at);
      AllDestroyedOnce(live, destroyed);
    }

    /** While the lists are destroyed, `lists` are the heads of what is left of them. */
    ghost predicate Walking(lists: seq<Addr>, destroyed: seq<Allocation>)
      reads this
    {
      WalkOk(sizes, live, heap, lists, len, place, at, destroyed)
    }

    method DestroyList(k: nat, lists0: seq<Addr>, destroyed0: seq<Allocation>)
        returns (lists: seq<Addr>, destroyed: seq<Allocation>)
      requires k < |lists0| && Walking(lists0, destroyed0)
      modifies this`heap, this`len, this`place
      ensures lists == lists0[k := NULL] && Walking(lists, destroyed)
    {
      lists, destroyed := lists0, destroyed0;
      while lists[k] != NULL
        invariant |lists| == |lists0| && lists == lists0[k := lists[k]]
        invariant Walking(lists, destroyed)
        decreases |heap|
      {
        lists, destroyed := DestroyFirst(k, lists, destroyed);
      }
    }

    /** One block: its next pointer is read before it is freed. */
    method DestroyFirst(k: nat, lists0: seq<Addr>, destroyed0: seq<Allocation>)
        returns (lists: seq<Addr>, destroyed: seq<Allocation>)
      requires k < |lists0| && lists0[k] != NULL && Walking(lists0, destroyed0)
      modifies this`heap, this`len, this`place
      ensures |lists| == |lists0| && lists == lists0[k := lists[k]]
      ensures Walking(lists, destroyed) && |heap| < old(|heap|)
    {
      var b := lists0[k];
      WalkGoesOn(sizes, live, heap, lists0, len, place, at, destroyed0, k);
      lists := lists0[k := heap[b].next];
      var visited := VisitBlock(b);
      destroyed := destroyed0 + visited;
      place, len, heap := place - {b}, len[k := len[k] - 1], heap - {b};
    }
  }

  /** What every reachable arena satisfies: the current block ends its list,
      small list i only holds blocks that can take SMALL_SIZES[i] more bytes and
      a tag, and every block named by the rollback log is still allocated. */
  lemma ReachableArena(a: TableArena, b: Addr, i: nat)
    requires a.Valid()
    ensures a.current != NULL ==> a.current in a.heap && a.heap[a.current].next == NULL
    ensures b in a.heap && b in a.place && 2 <= a.place[b].list ==>
              && a.place[b].list < LISTS
              && a.heap[b].SpaceLeft() >= 1 + SMALL_SIZES[a.place[b].list - 2]
    ensures b in a.heap ==>
              && a.heap[b].end <= |a.heap[b].data|
              && a.heap[b].start == Used(a.sizes, a.heap[b].data[a.heap[b].end..])
    ensures i < |a.rollbackInfo| ==> a.rollbackInfo[i].block in a.heap
  {
    var heads := a.Heads() + [];
    assert HeadOk(heads[0], a.len[0], 0, a.place);
    if a.current != NULL {
      PopKeepsLists(a.heap, heads, a.len, a.place, a.at, {}, 0);
    }
    if b in a.heap {
      assert BlockOk(a.sizes, b, a.heap[b], a.live);
      assert Linked(a.heap, a.len, a.place, a.at, b);
      assert Classified(a.heap[b].SpaceLeft(), a.place[b].list);
    }
    if i < |a.rollbackInfo| {
      ExpandNames(a.rollbackInfo, i);
      var j :| 0 <= j < |Expand(a.rollbackInfo)| && Expand(a.rollbackInfo)[j] == a.rollbackInfo[i].block;
      assert a.live[a.base + j].block in a.heap;
    }
  }

  lemma NewBlockClassified(heap: map<Addr, Block>, place: map<Addr, Place>, b: Addr, block: Block)
    requires AllClassified(heap, place) && b !in place
    ensures AllClassified(heap[b := block], place)
  {
    forall a | a in place && a in heap[b := block]
      ensures Classified(heap[b := block][a].SpaceLeft(), place[a].list)
    {
      assert Classified(heap[a].SpaceLeft(), place[a].list);
    }
  }

  lemma BumpedClassified(heap: map<Addr, Block>, place: map<Addr, Place>, b: Addr, block: Block)
    requires AllClassified(heap, place) && b in heap
    requires b in place ==> place[b].list == 0
    ensures AllClassified(heap[b := block], place)
  {
    forall a | a in place && a in heap[b := block]
      ensures Classified(heap[b := block][a].SpaceLeft(), place[a].list)
    {
      assert Classified(heap[a].SpaceLeft(), place[a].list);
    }
  }

  lemma FreedClassified(heap: map<Addr, Block>, place: map<Addr, Place>, b: Addr)
    requires AllClassified(heap, place)
    ensures AllClassified(heap - {b}, place)
  {
    forall a | a in place && a in heap - {b}
      ensures Classified((heap - {b})[a].SpaceLeft(), place[a].list)
    {
      assert Classified(heap[a].SpaceLeft(), place[a].list);
    }
  }

  lemma PoppedClassified(heap: map<Addr, Block>, place: map<Addr, Place>, b: Addr)
    requires AllClassified(heap, place)
    ensures AllClassified(heap, place - {b})
  {
    forall a | a in place - {b} && a in heap
      ensures Classified(heap[a].SpaceLeft(), (place - {b})[a].list)
    {
      assert Classified(heap[a].SpaceLeft(), place[a].list);
    }
  }
}
