/** One thread's arena: objects are bumped up from the front of the newest block,
    16-byte cleanup nodes are bumped down from its back, and older blocks keep
    the position where their nodes begin. Addresses are plain numbers. */
module SerialArenas {
  import opened Common

  type Addr = nat

  const BLOCK_HEADER := 24
  const SERIAL_ARENA := 56
  const CLEANUP := 16

  /** A block's header. `start` is only meaningful once a newer block exists. */
  datatype Block = Block(base: Addr, size: nat, start: Addr)

  /** An object to clean up and the function to do it with. */
  datatype CleanupNode = CleanupNode(elem: Addr, cleanup: nat)

  datatype AllocationPolicy = AllocationPolicy(startSize: nat, maxSize: nat)

  /** A region handed out: n bytes at addr in the block numbered from the oldest. */
  datatype Region = Region(block: nat, addr: Addr, n: nat)

  function AlignUpTo8(n: nat): nat {
    (n + 7) / 8 * 8
  }

  /** (ptr + align - 1) & (~align + 1), on 64 bits. */
  function AlignTo(ptr: Addr, align: nat): nat
    requires 0 < align <= TWO_64
  {
    And((ptr + align - 1) % TWO_64, TWO_64 - align, 64)
  }

  ghost predicate PowerOfTwo(align: nat) {
    exists k: nat {:trigger Pow2(k)} :: k < 64 && align == Pow2(k)
  }

  function Min(a: nat, b: nat): nat {
    if a < b then a else b
  }

  function Max(a: nat, b: nat): nat {
    if a < b then b else a
  }

  /** The size of the next block after one of lastSize bytes, with room for minBytes. */
  function BlockSize(policy: AllocationPolicy, lastSize: nat, minBytes: nat): nat {
    Max(if lastSize != 0 then Min(2 * lastSize, policy.maxSize) else policy.startSize, BLOCK_HEADER + minBytes)
  }

  /** The first block has the start size, and each later one is twice as large as the one
      before, up to the maximum; a block is only larger or otherwise if what is asked for
      would not fit it, and then it has just the room for that. */
  lemma BlockSizeGrows(policy: AllocationPolicy, lastSize: nat, minBytes: nat)
    ensures
      && var size := BlockSize(policy, lastSize, minBytes);
      && size >= 24 + minBytes
      && (lastSize == 0 && policy.startSize >= 24 + minBytes ==> size == policy.startSize)
      && (lastSize == 0 && policy.startSize < 24 + minBytes ==> size == 24 + minBytes)
      && (0 < 2 * lastSize <= policy.maxSize && 2 * lastSize >= 24 + minBytes ==> size == 2 * lastSize)
      && (0 < 2 * lastSize <= policy.maxSize && 2 * lastSize < 24 + minBytes ==> size == 24 + minBytes)
      && (lastSize > 0 && policy.maxSize < 2 * lastSize && policy.maxSize >= 24 + minBytes ==> size == policy.maxSize)
      && (lastSize > 0 && policy.maxSize < 2 * lastSize && policy.maxSize < 24 + minBytes ==> size == 24 + minBytes)
  {
  }

  /** Where objects may begin in block k. */
  function Low(blocks: seq<Block>, k: nat): Addr
    requires k < |blocks|
  {
    blocks[k].base + BLOCK_HEADER + if k == 0 then SERIAL_ARENA else 0
  }

  /** Where cleanup nodes end in block k: the limit is rounded down to a multiple
      of 8 for the first block, but not for the later ones. */
  function Top(blocks: seq<Block>, k: nat): Addr
    requires k < |blocks|
  {
    blocks[k].base + if k == 0 then blocks[k].size / 8 * 8 else blocks[k].size
  }

  /** Address of the node registered i-th in block k. */
  function NodeAt(blocks: seq<Block>, k: nat, i: nat): int
    requires k < |blocks|
  {
    Top(blocks, k) - CLEANUP * (i + 1)
  }

  ghost predicate Apart(a: Block, b: Block) {
    a.base + a.size <= b.base || b.base + b.size <= a.base
  }

  /** Block k has its nodes at its back, and room between them and its objects. */
  ghost predicate BlockOk(blocks: seq<Block>, cleaned: seq<seq<CleanupNode>>, k: nat)
    requires k < |blocks| == |cleaned|
  {
    && blocks[k].base > 0
    && blocks[k].base % 8 == 0
    && blocks[k].base + blocks[k].size <= TWO_64
    && Low(blocks, k) <= Top(blocks, k) - CLEANUP * |cleaned[k]|
    && (k < |blocks| - 1 ==> blocks[k].start == Top(blocks, k) - CLEANUP * |cleaned[k]|)
  }

  ghost predicate NodesOk(blocks: seq<Block>, cleaned: seq<seq<CleanupNode>>, nodes: map<int, CleanupNode>, k: nat)
    requires k < |blocks| == |cleaned|
  {
    forall i {:trigger cleaned[k][i]} :: 0 <= i < |cleaned[k]| ==>
      NodeAt(blocks, k, i) in nodes && nodes[NodeAt(blocks, k, i)] == cleaned[k][i]
  }

  ghost predicate Layout(blocks: seq<Block>, cleaned: seq<seq<CleanupNode>>, nodes: map<int, CleanupNode>,
                         ptr: Addr, limit: Addr)
  {
    && |blocks| == |cleaned| > 0
    && (forall k {:trigger BlockOk(blocks, cleaned, k)} :: 0 <= k < |blocks| ==> BlockOk(blocks, cleaned, k))
    && (forall k {:trigger NodesOk(blocks, cleaned, nodes, k)} :: 0 <= k < |blocks| ==>
          NodesOk(blocks, cleaned, nodes, k))
    && (forall j, k {:trigger Apart(blocks[j], blocks[k])} :: 0 <= j < k < |blocks| ==> Apart(blocks[j], blocks[k]))
    && var head := |blocks| - 1;
       && Low(blocks, head) <= ptr <= limit
       && ptr % 8 == 0
       && limit == Top(blocks, head) - CLEANUP * |cleaned[head]|
  }

  /** Where the objects of block k end at most. */
  function ObjectsEnd(blocks: seq<Block>, ptr: Addr, k: nat): Addr
    requires k < |blocks|
  {
    if k == |blocks| - 1 then ptr else blocks[k].start
  }

  ghost predicate RegionOk(blocks: seq<Block>, ptr: Addr, r: Region) {
    && r.block < |blocks|
    && Low(blocks, r.block) <= r.addr
    && r.addr % 8 == 0
    && r.addr + r.n <= ObjectsEnd(blocks, ptr, r.block)
  }

  /** Of two regions of a block, the one handed out earlier comes first. */
  ghost predicate InOrder(r: Region, s: Region) {
    r.block == s.block ==> r.addr + r.n <= s.addr
  }

  ghost predicate RegionsOk(blocks: seq<Block>, ptr: Addr, regions: seq<Region>) {
    && (forall i {:trigger RegionOk(blocks, ptr, regions[i])} :: 0 <= i < |regions| ==> RegionOk(blocks, ptr, regions[i]))
    && (forall i, j {:trigger InOrder(regions[i], regions[j])} :: 0 <= i < j < |regions| ==>
          InOrder(regions[i], regions[j]))
  }

  function RegionsTo(regions: seq<Region>, n: nat): nat
    requires n <= |regions|
  {
    if n == 0 then 0 else RegionsTo(regions, n - 1) + regions[n - 1].n
  }

  function TotalRegions(regions: seq<Region>): nat {
    RegionsTo(regions, |regions|)
  }

  function SizeTo(blocks: seq<Block>, n: nat): nat
    requires n <= |blocks|
  {
    if n == 0 then 0 else SizeTo(blocks, n - 1) + blocks[n - 1].size
  }

  function TotalSize(blocks: seq<Block>): nat {
    SizeTo(blocks, |blocks|)
  }

  // ---------------------------------------------------------------------

  lemma {:induction false} SameSizes(a: seq<Block>, b: seq<Block>, n: nat)
    requires n <= |a| && n <= |b| && forall i :: 0 <= i < n ==> a[i].size == b[i].size
    ensures SizeTo(a, n) == SizeTo(b, n)
  {
    if n > 0 {
      SameSizes(a, b, n - 1);
    }
  }

  lemma {:induction false} SameRegions(a: seq<Region>, r: Region, n: nat)
    requires n <= |a|
    ensures RegionsTo(a + [r], n) == RegionsTo(a, n)
  {
    if n > 0 {
      SameRegions(a, r, n - 1);
    }
  }

  lemma BlocksApart(blocks: seq<Block>, cleaned: seq<seq<CleanupNode>>, nodes: map<int, CleanupNode>,
                    ptr: Addr, limit: Addr, j: nat, k: nat)
    requires Layout(blocks, cleaned, nodes, ptr, limit)
    requires j < |blocks| && k < |blocks| && j != k
    ensures Apart(blocks[j], blocks[k])
  {
    if j < k {
      assert Apart(blocks[j], blocks[k]);
    } else {
      assert Apart(blocks[k], blocks[j]);
    }
  }

  /** Every region lies in its block past the header and is 8-aligned. */
  lemma RegionInBlock(blocks: seq<Block>, cleaned: seq<seq<CleanupNode>>, nodes: map<int, CleanupNode>,
                      ptr: Addr, limit: Addr, regions: seq<Region>, i: nat)
    requires Layout(blocks, cleaned, nodes, ptr, limit) && RegionsOk(blocks, ptr, regions) && i < |regions|
    ensures regions[i].block < |blocks| && regions[i].addr % 8 == 0
    ensures Low(blocks, regions[i].block) <= regions[i].addr
    ensures regions[i].addr + regions[i].n <= NodeAt(blocks, regions[i].block, |cleaned[regions[i].block]|) + CLEANUP
    ensures regions[i].addr + regions[i].n <= blocks[regions[i].block].base + blocks[regions[i].block].size
  {
    assert RegionOk(blocks, ptr, regions[i]);
    assert BlockOk(blocks, cleaned, regions[i].block);
  }

  lemma NodeStep(top: int, m: nat)
    ensures (top - CLEANUP * (m + 1)) % 8 == top % 8
  {
    assert CLEANUP * (m + 1) == 8 * (2 * (m + 1));
  }

  lemma TopAligned(blocks: seq<Block>, k: nat)
    requires k < |blocks| && blocks[k].base % 8 == 0
    ensures Top(blocks, k) % 8 == 0 <==> k == 0 || blocks[k].size % 8 == 0
    ensures Top(blocks, k) <= blocks[k].base + blocks[k].size
  {
  }

  /** Where node m of n lies below the top. */
  lemma NodeBetween(top: int, n: nat, m: nat)
    requires m < n
    ensures top - CLEANUP * (n + 1) + CLEANUP <= top - CLEANUP * (m + 1) <= top - CLEANUP
  {
  }

  /** Every cleanup node lies in its block past the header; it is 8-aligned
      exactly when the block end it counts down from is. */
  lemma NodeInBlock(blocks: seq<Block>, cleaned: seq<seq<CleanupNode>>, nodes: map<int, CleanupNode>,
                    ptr: Addr, limit: Addr, k: nat, m: nat)
    requires Layout(blocks, cleaned, nodes, ptr, limit)
    requires k < |blocks| && m < |cleaned[k]|
    ensures Low(blocks, k) <= NodeAt(blocks, k, |cleaned[k]|) + CLEANUP <= NodeAt(blocks, k, m)
    ensures NodeAt(blocks, k, m) + CLEANUP <= blocks[k].base + blocks[k].size
    ensures NodeAt(blocks, k, m) % 8 == 0 <==> k == 0 || blocks[k].size % 8 == 0
  {
    assert BlockOk(blocks, cleaned, k);
    TopAligned(blocks, k);
    NodeStep(Top(blocks, k), m);
    NodeBetween(Top(blocks, k), |cleaned[k]|, m);
  }

  /** Two regions never share a byte. */
  lemma RegionsDisjoint(blocks: seq<Block>, cleaned: seq<seq<CleanupNode>>, nodes: map<int, CleanupNode>,
                        ptr: Addr, limit: Addr, regions: seq<Region>, i: nat, j: nat)
    requires Layout(blocks, cleaned, nodes, ptr, limit) && RegionsOk(blocks, ptr, regions)
    requires i < j < |regions|
    ensures regions[i].addr + regions[i].n <= regions[j].addr || regions[j].addr + regions[j].n <= regions[i].addr
  {
    assert InOrder(regions[i], regions[j]);
    RegionInBlock(blocks, cleaned, nodes, ptr, limit, regions, i);
    RegionInBlock(blocks, cleaned, nodes, ptr, limit, regions, j);
    if regions[i].block != regions[j].block {
      BlocksApart(blocks, cleaned, nodes, ptr, limit, regions[i].block, regions[j].block);
    }
  }

  /** A region and a cleanup node never share a byte. */
  lemma RegionNodeDisjoint(blocks: seq<Block>, cleaned: seq<seq<CleanupNode>>, nodes: map<int, CleanupNode>,
                           ptr: Addr, limit: Addr, regions: seq<Region>, i: nat, k: nat, m: nat)
    requires Layout(blocks, cleaned, nodes, ptr, limit) && RegionsOk(blocks, ptr, regions)
    requires i < |regions| && k < |blocks| && m < |cleaned[k]|
    ensures regions[i].addr + regions[i].n <= NodeAt(blocks, k, m) || NodeAt(blocks, k, m) + CLEANUP <= regions[i].addr
  {
    RegionInBlock(blocks, cleaned, nodes, ptr, limit, regions, i);
    NodeInBlock(blocks, cleaned, nodes, ptr, limit, k, m);
    if regions[i].block != k {
      BlocksApart(blocks, cleaned, nodes, ptr, limit, regions[i].block, k);
    }
  }

  /** Two cleanup nodes never share a byte. */
  lemma NodesDisjoint(blocks: seq<Block>, cleaned: seq<seq<CleanupNode>>, nodes: map<int, CleanupNode>,
                      ptr: Addr, limit: Addr, k: nat, m: nat, l: nat, n: nat)
    requires Layout(blocks, cleaned, nodes, ptr, limit)
    requires k < |blocks| && m < |cleaned[k]| && l < |blocks| && n < |cleaned[l]| && (k, m) != (l, n)
    ensures NodeAt(blocks, k, m) + CLEANUP <= NodeAt(blocks, l, n) || NodeAt(blocks, l, n) + CLEANUP <= NodeAt(blocks, k, m)
  {
    NodeInBlock(blocks, cleaned, nodes, ptr, limit, k, m);
    NodeInBlock(blocks, cleaned, nodes, ptr, limit, l, n);
    if k != l {
      BlocksApart(blocks, cleaned, nodes, ptr, limit, k, l);
    }
  }

  // ---------------------------------------------------------------------
  // Over-aligned requests.

  lemma Pow2Bound(k: nat)
    requires k < 64
    ensures Pow2(k) < TWO_64
    ensures Pow2(k) > 8 ==> k > 3 && Pow2(k) == 8 * Pow2(k - 3)
  {
    Pow2Of64();
    Pow2Grows(k + 1, 64);
    Pow2Eight(3);
    if k <= 3 {
      Pow2Grows(k, 3);
    } else {
      Pow2Eight(k);
    }
  }

  lemma PowerOfTwoBound(align: nat)
    requires PowerOfTwo(align)
    ensures 0 < align < TWO_64
  {
    var k: nat :| k < 64 && align == Pow2(k);
    Pow2Bound(k);
  }

  /** For a power of two the mask rounds up to a multiple, unless the address is so high
      that the sum wraps around. */
  lemma AlignToRounds(ptr: Addr, align: nat)
    requires PowerOfTwo(align) && ptr + align - 1 < TWO_64
    ensures align < TWO_64
    ensures AlignTo(ptr, align) % align == 0 && ptr <= AlignTo(ptr, align) < ptr + align
  {
    PowerOfTwoBound(align);
    AlignToIsMask(ptr, align);
    RoundDown(ptr + align - 1, align);
  }

  lemma AlignToIsMask(ptr: Addr, align: nat)
    requires PowerOfTwo(align) && 0 < align < TWO_64 && ptr + align - 1 < TWO_64
    ensures AlignTo(ptr, align) == (ptr + align - 1) - (ptr + align - 1) % align
  {
    var k: nat :| k < 64 && align == Pow2(k);
    MaskRounds(ptr + align - 1, k);
    SmallMod(ptr + align - 1, TWO_64);
  }

  lemma MaskRounds(x: nat, k: nat)
    requires x < TWO_64 && k < 64
    ensures Pow2(k) < TWO_64 && And(x, TWO_64 - Pow2(k), 64) == x - x % Pow2(k)
  {
    Pow2Bound(k);
    Pow2Of64();
    MaskClears(x, 64, k);
  }

  /** With align - 8 spare bytes an 8-aligned region has room for an object at a
      multiple of align. */
  lemma AlignToFits(ret: Addr, size: nat, align: nat)
    requires ret % 8 == 0 && PowerOfTwo(align) && align > 8 && ret + align - 1 < TWO_64
    ensures align < TWO_64 && AlignTo(ret, align) % align == 0
    ensures ret <= AlignTo(ret, align) && AlignTo(ret, align) + size <= ret + (size + align - 8)
  {
    AlignToRounds(ret, align);
    var k: nat :| k < 64 && align == Pow2(k);
    Pow2Bound(k);
    // Both ends are multiples of 8, so the gap is at most align - 8.
    MultipleOfMultiple(AlignTo(ret, align), 8, Pow2(k - 3));
    GapOfEights(ret, AlignTo(ret, align), Pow2(k - 3));
  }

  lemma GapOfEights(a: nat, b: nat, e: nat)
    requires a % 8 == 0 && b % 8 == 0 && a <= b < a + 8 * e
    ensures b <= a + 8 * e - 8
  {
  }

  // ---------------------------------------------------------------------
  // Cleanups.

  /** All registered cleanups, oldest first. */
  ghost function Registered(cleaned: seq<seq<CleanupNode>>): seq<CleanupNode> {
    RegisteredIn(cleaned, |cleaned|)
  }

  /** Those of the n oldest blocks. */
  ghost function RegisteredIn(cleaned: seq<seq<CleanupNode>>, n: nat): seq<CleanupNode>
    requires n <= |cleaned|
  {
    if n == 0 then [] else RegisteredIn(cleaned, n - 1) + cleaned[n - 1]
  }

  lemma {:induction false} RegisteredAgree(a: seq<seq<CleanupNode>>, b: seq<seq<CleanupNode>>, n: nat)
    requires n <= |a| && n <= |b| && forall k :: 0 <= k < n ==> a[k] == b[k]
    ensures RegisteredIn(a, n) == RegisteredIn(b, n)
  {
    if n > 0 {
      RegisteredAgree(a, b, n - 1);
    }
  }

  /** A new block has no cleanups yet. */
  lemma RegisteredGrown(cleaned: seq<seq<CleanupNode>>)
    ensures Registered(cleaned + [[]]) == Registered(cleaned)
  {
    RegisteredAgree(cleaned, cleaned + [[]], |cleaned|);
    EmptyLeft(Registered(cleaned));
  }

  /** CleanupList computes how many whole nodes fit between a block's first node
      and its end rounded down to 8, and skips the block when that is none. In a
      later block whose size is no multiple of 8 the node positions are not
      rounded, so a single node there counts as none. */
  predicate Dropped(blocks: seq<Block>, counts: seq<nat>, k: nat)
    requires k < |blocks| == |counts|
  {
    k > 0 && blocks[k].size % 8 != 0 && counts[k] == 1
  }

  ghost function Counts(cleaned: seq<seq<CleanupNode>>): (r: seq<nat>)
    ensures |r| == |cleaned|
  {
    seq(|cleaned|, i requires 0 <= i < |cleaned| => |cleaned[i]|)
  }

  /** What CleanupList runs for the n oldest blocks, newest block first. */
  ghost function Ran(blocks: seq<Block>, cleaned: seq<seq<CleanupNode>>, n: nat): seq<CleanupNode>
    requires n <= |blocks| == |cleaned|
  {
    if n == 0 then []
    else (if Dropped(blocks, Counts(cleaned), n - 1) then [] else Reversed(cleaned[n - 1])) + Ran(blocks, cleaned, n - 1)
  }

  ghost predicate RanSoFar(blocks: seq<Block>, cleaned: seq<seq<CleanupNode>>, ran: seq<CleanupNode>, n: nat) {
    n <= |blocks| == |cleaned| && ran + Ran(blocks, cleaned, n) == Ran(blocks, cleaned, |blocks|)
  }

  lemma RanAll(blocks: seq<Block>, cleaned: seq<seq<CleanupNode>>)
    requires |blocks| == |cleaned|
    ensures RanSoFar(blocks, cleaned, [], |blocks|)
  {
    EmptyLeft(Ran(blocks, cleaned, |blocks|));
  }

  lemma RanMore(blocks: seq<Block>, cleaned: seq<seq<CleanupNode>>, ran: seq<CleanupNode>, k: nat, some: seq<CleanupNode>)
    requires k < |blocks| == |cleaned| && RanSoFar(blocks, cleaned, ran, k + 1)
    requires some == if Dropped(blocks, Counts(cleaned), k) then [] else Reversed(cleaned[k])
    ensures RanSoFar(blocks, cleaned, ran + some, k)
  {
    Assoc(ran, some, Ran(blocks, cleaned, k));
  }

  lemma RegisteredLast(cleaned: seq<seq<CleanupNode>>, node: CleanupNode)
    requires cleaned != []
    ensures var head := |cleaned| - 1;
            Registered(cleaned[head := cleaned[head] + [node]]) == Registered(cleaned) + [node]
  {
    var head := |cleaned| - 1;
    RegisteredAgree(cleaned, cleaned[head := cleaned[head] + [node]], head);
    Assoc(RegisteredIn(cleaned, head), cleaned[head], [node]);
  }

  lemma StepLengths(blocks: seq<Block>, cleaned: seq<seq<CleanupNode>>, n: nat)
    requires 0 < n <= |blocks| == |cleaned|
    ensures |RegisteredIn(cleaned, n)| == |RegisteredIn(cleaned, n - 1)| + |cleaned[n - 1]|
    ensures |Ran(blocks, cleaned, n)| ==
            |Ran(blocks, cleaned, n - 1)| + if Dropped(blocks, Counts(cleaned), n - 1) then 0 else |cleaned[n - 1]|
  {
  }

  lemma {:induction false} RanLength(blocks: seq<Block>, cleaned: seq<seq<CleanupNode>>, n: nat)
    requires n <= |blocks| == |cleaned|
    ensures |Ran(blocks, cleaned, n)| <= |RegisteredIn(cleaned, n)|
  {
    if n > 0 {
      RanLength(blocks, cleaned, n - 1);
      StepLengths(blocks, cleaned, n);
    }
  }

  lemma {:induction false} DroppedRunsLess(blocks: seq<Block>, cleaned: seq<seq<CleanupNode>>, n: nat, k: nat)
    requires k < n <= |blocks| == |cleaned| && Dropped(blocks, Counts(cleaned), k)
    ensures |Ran(blocks, cleaned, n)| < |RegisteredIn(cleaned, n)|
  {
    StepLengths(blocks, cleaned, n);
    if k == n - 1 {
      RanLength(blocks, cleaned, n - 1);
    } else {
      DroppedRunsLess(blocks, cleaned, n - 1, k);
    }
  }

  lemma {:induction false} NothingDropped(blocks: seq<Block>, cleaned: seq<seq<CleanupNode>>, n: nat)
    requires n <= |blocks| == |cleaned|
    requires forall k :: 0 <= k < n ==> !Dropped(blocks, Counts(cleaned), k)
    ensures Ran(blocks, cleaned, n) == Reversed(RegisteredIn(cleaned, n))
  {
    if n > 0 {
      NothingDropped(blocks, cleaned, n - 1);
      ReversedConcat(RegisteredIn(cleaned, n - 1), cleaned[n - 1]);
    }
  }

  /** Every registered cleanup is run exactly once and in reverse registration
      order if and only if no later block with a size that is no multiple of 8
      holds exactly one of them. */
  lemma CleanupsRunIff(blocks: seq<Block>, cleaned: seq<seq<CleanupNode>>, n: nat)
    requires n <= |blocks| == |cleaned|
    ensures Ran(blocks, cleaned, n) == Reversed(RegisteredIn(cleaned, n))
       <==> forall k :: 0 < k < n && blocks[k].size % 8 != 0 ==> |cleaned[k]| != 1
  {
    assert forall k :: 0 <= k < n ==>
      Dropped(blocks, Counts(cleaned), k) == (k > 0 && blocks[k].size % 8 != 0 && |cleaned[k]| == 1);
    if forall k :: 0 <= k < n ==> !Dropped(blocks, Counts(cleaned), k) {
      NothingDropped(blocks, cleaned, n);
    } else {
      var k :| 0 <= k < n && Dropped(blocks, Counts(cleaned), k);
      DroppedRunsLess(blocks, cleaned, n, k);
    }
  }

  /** A policy with a maximum block size of 1001 bytes loses a cleanup: the
      second block has that size and a single node. */
  lemma OddBlockLosesCleanup(node: CleanupNode)
    ensures BlockSize(AllocationPolicy(1000, 1001), 1000, CLEANUP) == 1001
    ensures var blocks := [Block(8, 1000, 1008), Block(1024, 1001, 0)];
            Layout(blocks, [[], [node]], map[2009 := node], 1048, 2009)
            && Ran(blocks, [[], [node]], 2) == [] && Registered([[], [node]]) == [node]
  {
    var blocks := [Block(8, 1000, 1008), Block(1024, 1001, 0)];
    var cleaned := [[], [node]];
    assert Dropped(blocks, Counts(cleaned), 1);
    assert RegisteredIn(cleaned, 1) == [] + [];
    assert BlockOk(blocks, cleaned, 0) && BlockOk(blocks, cleaned, 1);
    assert NodeAt(blocks, 1, 0) == 2009;
    assert Ran(blocks, cleaned, 1) == Reversed(cleaned[0]) + [];
  }

  // ---------------------------------------------------------------------
  // What each step keeps.

  ghost predicate FreshMemory(blocks: seq<Block>, base: Addr, size: nat) {
    && base > 0
    && base % 8 == 0
    && base + size <= TWO_64
    && forall k {:trigger blocks[k]} :: 0 <= k < |blocks| ==> Apart(blocks[k], Block(base, size, 0))
  }

  lemma NewBlockKeepsBlock(blocks: seq<Block>, cleaned: seq<seq<CleanupNode>>, nodes: map<int, CleanupNode>,
                           ptr: Addr, limit: Addr, base: Addr, size: nat, k: nat)
    requires Layout(blocks, cleaned, nodes, ptr, limit) && k < |blocks|
    ensures var head := |blocks| - 1;
            var blocks' := blocks[head := blocks[head].(start := limit)] + [Block(base, size, 0)];
            BlockOk(blocks', cleaned + [[]], k) && NodesOk(blocks', cleaned + [[]], nodes, k)
  {
    var head := |blocks| - 1;
    var blocks' := blocks[head := blocks[head].(start := limit)] + [Block(base, size, 0)];
    var cleaned' := cleaned + [[]];
    assert BlockOk(blocks, cleaned, k) && NodesOk(blocks, cleaned, nodes, k);
    assert cleaned'[k] == cleaned[k] && Top(blocks', k) == Top(blocks, k);
    forall i | 0 <= i < |cleaned'[k]|
      ensures NodeAt(blocks', k, i) in nodes && nodes[NodeAt(blocks', k, i)] == cleaned'[k][i]
    {
      assert cleaned'[k][i] == cleaned[k][i];
    }
  }

  lemma NewBlockKeepsLayout(blocks: seq<Block>, cleaned: seq<seq<CleanupNode>>, nodes: map<int, CleanupNode>,
                            ptr: Addr, limit: Addr, base: Addr, size: nat)
    requires Layout(blocks, cleaned, nodes, ptr, limit)
    requires FreshMemory(blocks, base, size) && size >= BLOCK_HEADER
    ensures var head := |blocks| - 1;
            Layout(blocks[head := blocks[head].(start := limit)] + [Block(base, size, 0)], cleaned + [[]], nodes,
                   base + BLOCK_HEADER, base + size)
  {
    var head := |blocks| - 1;
    var blocks' := blocks[head := blocks[head].(start := limit)] + [Block(base, size, 0)];
    var cleaned' := cleaned + [[]];
    forall k | 0 <= k < |blocks'|
      ensures BlockOk(blocks', cleaned', k) && NodesOk(blocks', cleaned', nodes, k)
    {
      if k < |blocks| {
        NewBlockKeepsBlock(blocks, cleaned, nodes, ptr, limit, base, size, k);
      }
    }
    forall j, k | 0 <= j < k < |blocks'|
      ensures Apart(blocks'[j], blocks'[k])
    {
      if k < |blocks| {
        assert Apart(blocks[j], blocks[k]);
      } else {
        assert Apart(blocks[j], Block(base, size, 0));
      }
    }
  }

  lemma NewBlockKeepsRegions(blocks: seq<Block>, ptr: Addr, limit: Addr, regions: seq<Region>, base: Addr, size: nat)
    requires blocks != [] && ptr <= limit && RegionsOk(blocks, ptr, regions)
    ensures var head := |blocks| - 1;
            RegionsOk(blocks[head := blocks[head].(start := limit)] + [Block(base, size, 0)], base + BLOCK_HEADER, regions)
  {
    var head := |blocks| - 1;
    var blocks' := blocks[head := blocks[head].(start := limit)] + [Block(base, size, 0)];
    forall i | 0 <= i < |regions|
      ensures RegionOk(blocks', base + BLOCK_HEADER, regions[i])
    {
      assert RegionOk(blocks, ptr, regions[i]);
    }
  }

  lemma BumpKeepsRegions(blocks: seq<Block>, ptr: Addr, regions: seq<Region>, n: nat)
    requires blocks != [] && Low(blocks, |blocks| - 1) <= ptr && ptr % 8 == 0 && RegionsOk(blocks, ptr, regions)
    ensures RegionsOk(blocks, ptr + n, regions + [Region(|blocks| - 1, ptr, n)])
    ensures TotalRegions(regions + [Region(|blocks| - 1, ptr, n)]) == TotalRegions(regions) + n
  {
    var regions' := regions + [Region(|blocks| - 1, ptr, n)];
    SameRegions(regions, Region(|blocks| - 1, ptr, n), |regions|);
    forall i | 0 <= i < |regions'|
      ensures RegionOk(blocks, ptr + n, regions'[i])
    {
      assert i < |regions| ==> RegionOk(blocks, ptr, regions[i]);
    }
    forall i, j | 0 <= i < j < |regions'|
      ensures InOrder(regions'[i], regions'[j])
    {
      assert RegionOk(blocks, ptr, regions[i]);
      assert j < |regions| ==> InOrder(regions[i], regions[j]);
    }
  }

  /** A new node goes right below the limit, away from all earlier nodes. */
  lemma AddNodeKeepsLayout(blocks: seq<Block>, cleaned: seq<seq<CleanupNode>>, nodes: map<int, CleanupNode>,
                           ptr: Addr, limit: Addr, n: nat, node: CleanupNode)
    requires Layout(blocks, cleaned, nodes, ptr, limit)
    requires n % 8 == 0 && ptr + n + CLEANUP <= limit
    ensures var head := |blocks| - 1;
            Layout(blocks, cleaned[head := cleaned[head] + [node]], nodes[limit - CLEANUP := node],
                   ptr + n, limit - CLEANUP)
  {
    var head := |blocks| - 1;
    var cleaned' := cleaned[head := cleaned[head] + [node]];
    var nodes' := nodes[limit - CLEANUP := node];
    assert BlockOk(blocks, cleaned, head);
    forall k | 0 <= k < |blocks|
      ensures BlockOk(blocks, cleaned', k) && NodesOk(blocks, cleaned', nodes', k)
    {
      assert BlockOk(blocks, cleaned, k) && NodesOk(blocks, cleaned, nodes, k);
      if k != head {
        assert cleaned'[k] == cleaned[k];
        BlocksApart(blocks, cleaned, nodes, ptr, limit, k, head);
      }
      forall i | 0 <= i < |cleaned'[k]|
        ensures NodeAt(blocks, k, i) in nodes' && nodes'[NodeAt(blocks, k, i)] == cleaned'[k][i]
      {
        if i < |cleaned[k]| {
          assert cleaned'[k][i] == cleaned[k][i];
          NodeInBlock(blocks, cleaned, nodes, ptr, limit, k, i);
        }
      }
    }
  }

  lemma BumpKeepsLayout(blocks: seq<Block>, cleaned: seq<seq<CleanupNode>>, nodes: map<int, CleanupNode>,
                        ptr: Addr, limit: Addr, n: nat)
    requires Layout(blocks, cleaned, nodes, ptr, limit) && n % 8 == 0 && ptr + n <= limit
    ensures Layout(blocks, cleaned, nodes, ptr + n, limit)
  {
  }

  /** Writing the node registered last changes that registration only. */
  lemma SetNodeKeepsLayout(blocks: seq<Block>, cleaned: seq<seq<CleanupNode>>, nodes: map<int, CleanupNode>,
                           ptr: Addr, limit: Addr, node: CleanupNode)
    requires Layout(blocks, cleaned, nodes, ptr, limit) && cleaned[|blocks| - 1] != []
    ensures var head := |blocks| - 1; var m := |cleaned[head]| - 1;
            Layout(blocks, cleaned[head := cleaned[head][m := node]], nodes[limit := node], ptr, limit)
  {
    var head := |blocks| - 1;
    var m := |cleaned[head]| - 1;
    var cleaned' := cleaned[head := cleaned[head][m := node]];
    var nodes' := nodes[limit := node];
    assert NodeAt(blocks, head, m) == limit;
    forall k | 0 <= k < |blocks|
      ensures BlockOk(blocks, cleaned', k) && NodesOk(blocks, cleaned', nodes', k)
    {
      assert BlockOk(blocks, cleaned, k) && NodesOk(blocks, cleaned, nodes, k);
      forall i | 0 <= i < |cleaned'[k]|
        ensures NodeAt(blocks, k, i) in nodes' && nodes'[NodeAt(blocks, k, i)] == cleaned'[k][i]
      {
        if (k, i) != (head, m) {
          assert cleaned'[k][i] == cleaned[k][i];
          NodesDisjoint(blocks, cleaned, nodes, ptr, limit, k, i, head, m);
        }
      }
    }
  }

  // ---------------------------------------------------------------------

  /** The blocks are laid out in order, all regions are where they may be, and the space
      counters agree with them. */
  ghost predicate StateOk(blocks: seq<Block>, cleaned: seq<seq<CleanupNode>>, nodes: map<int, CleanupNode>,
                          ptr: Addr, limit: Addr, regions: seq<Region>, spaceUsed: nat, spaceAllocated: nat)
  {
    && Layout(blocks, cleaned, nodes, ptr, limit)
    && RegionsOk(blocks, ptr, regions)
    && spaceUsed + (ptr - (blocks[|blocks| - 1].base + BLOCK_HEADER)) == SERIAL_ARENA + TotalRegions(regions)
    && spaceAllocated == TotalSize(blocks)
  }

  /** A new block in front of the others, whose pointers are synchronized first. */
  lemma NewBlockKeepsState(blocks: seq<Block>, cleaned: seq<seq<CleanupNode>>, nodes: map<int, CleanupNode>,
                           ptr: Addr, limit: Addr, regions: seq<Region>, spaceUsed: nat, spaceAllocated: nat,
                           base: Addr, size: nat)
    requires StateOk(blocks, cleaned, nodes, ptr, limit, regions, spaceUsed, spaceAllocated)
    requires FreshMemory(blocks, base, size) && size >= BLOCK_HEADER
    ensures var head := |blocks| - 1;
            ptr >= blocks[head].base + BLOCK_HEADER &&
            StateOk(blocks[head := blocks[head].(start := limit)] + [Block(base, size, 0)], cleaned + [[]], nodes,
              base + BLOCK_HEADER, base + size, regions,
              spaceUsed + (ptr - (blocks[head].base + BLOCK_HEADER)), spaceAllocated + size)
  {
    var head := |blocks| - 1;
    NewBlockKeepsLayout(blocks, cleaned, nodes, ptr, limit, base, size);
    NewBlockKeepsRegions(blocks, ptr, limit, regions, base, size);
    SameSizes(blocks, blocks[head := blocks[head].(start := limit)] + [Block(base, size, 0)], |blocks|);
  }

  /** A region taken from the front of the free space. */
  lemma TakeKeepsState(blocks: seq<Block>, cleaned: seq<seq<CleanupNode>>, nodes: map<int, CleanupNode>,
                       ptr: Addr, limit: Addr, regions: seq<Region>, spaceUsed: nat, spaceAllocated: nat, n: nat)
    requires StateOk(blocks, cleaned, nodes, ptr, limit, regions, spaceUsed, spaceAllocated)
    requires n % 8 == 0 && ptr + n <= limit
    ensures StateOk(blocks, cleaned, nodes, ptr + n, limit, regions + [Region(|blocks| - 1, ptr, n)],
                    spaceUsed, spaceAllocated)
  {
    BumpKeepsLayout(blocks, cleaned, nodes, ptr, limit, n);
    BumpKeepsRegions(blocks, ptr, regions, n);
  }

  /** A region and a node taken from the two ends of the free space. */
  lemma TakeBothKeepsState(blocks: seq<Block>, cleaned: seq<seq<CleanupNode>>, nodes: map<int, CleanupNode>,
                           ptr: Addr, limit: Addr, regions: seq<Region>, spaceUsed: nat, spaceAllocated: nat,
                           n: nat, node: CleanupNode)
    requires StateOk(blocks, cleaned, nodes, ptr, limit, regions, spaceUsed, spaceAllocated)
    requires n % 8 == 0 && ptr + n + CLEANUP <= limit
    ensures var head := |blocks| - 1;
            StateOk(blocks, cleaned[head := cleaned[head] + [node]], nodes[limit - CLEANUP := node],
              ptr + n, limit - CLEANUP, regions + [Region(head, ptr, n)], spaceUsed, spaceAllocated)
  {
    AddNodeKeepsLayout(blocks, cleaned, nodes, ptr, limit, n, node);
    BumpKeepsRegions(blocks, ptr, regions, n);
  }

  lemma RegisteredReplaced(cleaned: seq<seq<CleanupNode>>, node: CleanupNode, before: seq<CleanupNode>, last: CleanupNode)
    requires cleaned != [] && cleaned[|cleaned| - 1] != [] && Registered(cleaned) == before + [last]
    ensures
      && var head := |cleaned| - 1;
      && Registered(cleaned[head := cleaned[head][|cleaned[head]| - 1 := node]]) == before + [node]
  {
    var head := |cleaned| - 1;
    RegisteredAgree(cleaned, cleaned[head := cleaned[head][|cleaned[head]| - 1 := node]], head);
    LastOfConcat(RegisteredIn(cleaned, head), cleaned[head], before, last, node);
  }

  lemma LastOfConcat<T>(a: seq<T>, b: seq<T>, before: seq<T>, last: T, node: T)
    requires b != [] && a + b == before + [last]
    ensures a + b[|b| - 1 := node] == before + [node]
  {
    assert |a + b| == |before + [last]|;
    assert (a + b)[..|before|] == before;
    assert (a + b[|b| - 1 := node])[..|before|] == (a + b)[..|before|];
  }

  /** The arena as its caller sees it: blocks, free space and bytes allocated. */
  datatype Space = Space(blocks: seq<Block>, ptr: Addr, limit: Addr, total: nat)

  /** The older block keeps its size and where its nodes begin; a new one of this size lies
      at base, and all of it behind its header is free. */
  ghost predicate BlockAdded(before: Space, after: Space, base: Addr, size: nat) {
    && before.blocks != []
    && var head := |before.blocks| - 1;
    && after.blocks == before.blocks[head := before.blocks[head].(start := before.limit)] + [Block(base, size, 0)]
    && after.ptr == base + BLOCK_HEADER && after.limit == base + size
    && after.total == before.total + size
  }

  /** n bytes at ret are taken from the front of the free space, and `back` from its end. */
  ghost predicate Taken(before: Space, after: Space, ret: Addr, n: nat, back: nat) {
    && after.blocks == before.blocks && after.total == before.total
    && ret == before.ptr && after.ptr == before.ptr + n
    && before.limit >= back && after.limit == before.limit - back
  }

  /** A request of n bytes, and `back` bytes for a node, is served from the newest block if
      they fit there, and only otherwise from a new block at base. */
  ghost predicate Served(before: Space, after: Space, ret: Addr, n: nat, back: nat, policy: AllocationPolicy, base: Addr) {
    if before.ptr + n + back <= before.limit then Taken(before, after, ret, n, back)
    else
      && before.blocks != []
      && var size := BlockSize(policy, before.blocks[|before.blocks| - 1].size, n + back);
      && exists fresh_ :: BlockAdded(before, fresh_, base, size) && Taken(fresh_, after, ret, n, back)
  }

  class SerialArena {
    /** Oldest block first; the last one is head_. */
    var blocks: seq<Block>
    var ptr: Addr
    var limit: Addr
    var spaceUsed: nat
    var spaceAllocated: nat
    /** The cleanup nodes in memory. */
    var nodes: map<int, CleanupNode>

    /** Regions handed out so far, in order. */
    ghost var regions: seq<Region>
    /** Cleanups registered so far, per block, in order. */
    ghost var cleaned: seq<seq<CleanupNode>>

    ghost predicate Valid()
      reads this
    {
      StateOk(blocks, cleaned, nodes, ptr, limit, regions, spaceUsed, spaceAllocated)
    }

    ghost function Now(): Space
      reads this
    {
      Space(blocks, ptr, limit, spaceAllocated)
    }

    /** SerialArena::New: the arena object itself sits after the first header. */
    constructor (base: Addr, size: nat)
      requires FreshMemory([], base, size) && size >= BLOCK_HEADER + SERIAL_ARENA
      ensures regions == [] && cleaned == [[]] && nodes == map[]
      ensures Now() == Space([Block(base, size, 0)], base + BLOCK_HEADER + SERIAL_ARENA, base + size / 8 * 8, size)
      ensures Valid()
    {
      blocks := [Block(base, size, 0)];
      ptr := base + BLOCK_HEADER + SERIAL_ARENA;
      limit := base + size / 8 * 8;
      spaceUsed, spaceAllocated, nodes := 0, size, map[];
      regions, cleaned := [], [[]];
      new;
      assert SizeTo(blocks, 1) == SizeTo(blocks, 0) + size;
      assert BlockOk(blocks, cleaned, 0);
    }

    predicate HasSpace(n: nat)
      reads this
    {
      n <= limit - ptr
    }

    method AllocateNewBlock(n: nat, policy: AllocationPolicy, base: Addr)
      requires Valid()
      requires FreshMemory(blocks, base, BlockSize(policy, blocks[|blocks| - 1].size, n))
      modifies this
      ensures regions == old(regions) && cleaned == old(cleaned) + [[]] && nodes == old(nodes)
      ensures blocks != [] && |blocks| == old(|blocks|) + 1 && HasSpace(n)
      ensures BlockAdded(old(Now()), Now(), base, BlockSize(policy, old(blocks[|blocks| - 1].size), n))
      ensures Valid()
    {
      var head := |blocks| - 1;
      var size := BlockSize(policy, blocks[head].size, n);
      NewBlockKeepsState(blocks, cleaned, nodes, ptr, limit, regions, spaceUsed, spaceAllocated, base, size);
      spaceUsed := spaceUsed + (ptr - (blocks[head].base + BLOCK_HEADER));
      spaceAllocated := spaceAllocated + size;
      blocks := blocks[head := blocks[head].(start := limit)] + [Block(base, size, 0)];
      ptr := base + BLOCK_HEADER;
      limit := base + size;
      cleaned := cleaned + [[]];
    }

    method AllocateFromExisting(n: nat) returns (ret: Addr)
      requires Valid() && n % 8 == 0 && HasSpace(n)
      modifies this`ptr, this`regions
      ensures regions == old(regions) + [Region(|blocks| - 1, ret, n)]
      ensures Taken(old(Now()), Now(), ret, n, 0)
      ensures Valid()
    {
      TakeKeepsState(blocks, cleaned, nodes, ptr, limit, regions, spaceUsed, spaceAllocated, n);
      ret := ptr;
      ptr := ptr + n;
      regions := regions + [Region(|blocks| - 1, ret, n)];
    }

    /** `base` is where operator new would put a new block if one is needed. */
    method AllocateAligned(n: nat, policy: AllocationPolicy, base: Addr) returns (ret: Addr)
      requires Valid() && n % 8 == 0
      requires FreshMemory(blocks, base, BlockSize(policy, blocks[|blocks| - 1].size, n))
      modifies this
      ensures Valid() && regions == old(regions) + [Region(|blocks| - 1, ret, n)]
      ensures Registered(cleaned) == Registered(old(cleaned)) && nodes == old(nodes)
      ensures Served(old(Now()), Now(), ret, n, 0, policy, base)
      ensures old(ptr) + n <= old(limit) ==>
                blocks == old(blocks) && spaceAllocated == old(spaceAllocated) && ret == old(ptr) && limit == old(limit)
      ensures old(ptr) + n > old(limit) ==>
                |blocks| == old(|blocks|) + 1 && blocks[|blocks| - 1].base == base && ret == base + BLOCK_HEADER
      ensures ptr == ret + n
    {
      if !HasSpace(n) {
        AllocateNewBlock(n, policy, base);
        RegisteredGrown(old(cleaned));
      }
      ret := AllocateFromExisting(n);
    }

    method AllocateFromExistingWithCleanup(n: nat, garbage: CleanupNode) returns (ret: Addr, node: Addr)
      requires Valid() && n % 8 == 0 && HasSpace(n + CLEANUP)
      modifies this`ptr, this`limit, this`nodes, this`regions, this`cleaned
      ensures regions == old(regions) + [Region(|blocks| - 1, ret, n)]
      ensures node == limit && |cleaned| == old(|cleaned|) && |cleaned| > 0 && cleaned[|cleaned| - 1] != []
      ensures Registered(cleaned) == Registered(old(cleaned)) + [garbage]
      ensures Taken(old(Now()), Now(), ret, n, CLEANUP)
      ensures Valid()
    {
      ghost var head := |blocks| - 1;
      TakeBothKeepsState(blocks, cleaned, nodes, ptr, limit, regions, spaceUsed, spaceAllocated, n, garbage);
      RegisteredLast(cleaned, garbage);
      ret := ptr;
      ptr := ptr + n;
      limit := limit - CLEANUP;
      node := limit;
      nodes := nodes[node := garbage];
      regions := regions + [Region(head, ret, n)];
      cleaned := cleaned[head := cleaned[head] + [garbage]];
    }

    /** A region and a node for its cleanup; the node holds whatever the memory
        held (`garbage`) until it is written. */
    method AllocateAlignedWithCleanup(n: nat, policy: AllocationPolicy, base: Addr, garbage: CleanupNode)
      returns (ret: Addr, node: Addr)
      requires Valid() && n % 8 == 0
      requires FreshMemory(blocks, base, BlockSize(policy, blocks[|blocks| - 1].size, n + CLEANUP))
      modifies this
      ensures Valid() && regions == old(regions) + [Region(|blocks| - 1, ret, n)]
      ensures node == limit && cleaned[|cleaned| - 1] != []
      ensures Registered(cleaned) == Registered(old(cleaned)) + [garbage]
      ensures Served(old(Now()), Now(), ret, n, CLEANUP, policy, base)
    {
      if !HasSpace(n + CLEANUP) {
        AllocateNewBlock(n + CLEANUP, policy, base);
        RegisteredGrown(old(cleaned));
      }
      ret, node := AllocateFromExistingWithCleanup(n, garbage);
    }

    /** Writes the node registered last; the others, `before`, stay. */
    method SetNode(node: Addr, elem: Addr, cleanup: nat, ghost before: seq<CleanupNode>, ghost garbage: CleanupNode)
      requires Valid() && node == limit && cleaned[|cleaned| - 1] != []
      requires Registered(cleaned) == before + [garbage]
      modifies this`nodes, this`cleaned
      ensures Valid() && Registered(cleaned) == before + [CleanupNode(elem, cleanup)]
      ensures regions == old(regions) && Now() == old(Now())
    {
      ghost var head := |blocks| - 1;
      ghost var m := |cleaned[head]| - 1;
      SetNodeKeepsLayout(blocks, cleaned, nodes, ptr, limit, CleanupNode(elem, cleanup));
      RegisteredReplaced(cleaned, CleanupNode(elem, cleanup), before, garbage);
      nodes := nodes[node := CleanupNode(elem, cleanup)];
      cleaned := cleaned[head := cleaned[head][m := CleanupNode(elem, cleanup)]];
    }

    method AddCleanup(elem: Addr, cleanup: nat, policy: AllocationPolicy, base: Addr, garbage: CleanupNode)
      returns (ghost r: Region)
      requires Valid()
      requires FreshMemory(blocks, base, BlockSize(policy, blocks[|blocks| - 1].size, CLEANUP))
      modifies this
      ensures r.block == |blocks| - 1 && r.n == 0
      ensures regions == old(regions) + [r] && Served(old(Now()), Now(), r.addr, 0, CLEANUP, policy, base)
      ensures Registered(cleaned) == Registered(old(cleaned)) + [CleanupNode(elem, cleanup)]
      ensures Valid()
    {
      var ret, node := AllocateAlignedWithCleanup(0, policy, base, garbage);
      r := Region(|blocks| - 1, ret, 0);
      SetNode(node, elem, cleanup, Registered(old(cleaned)), garbage);
    }

    /** Arena::AllocateInternal with a destructor: an object of `size` bytes at a
        multiple of `align`, inside the region it reserved, registered for cleanup. */
    method AllocateInternal(size: nat, align: nat, destructor: nat, policy: AllocationPolicy, base: Addr,
                            garbage: CleanupNode)
      returns (obj: Addr, ghost r: Region)
      requires Valid() && PowerOfTwo(align) && (align > 8 ==> size % 8 == 0)
      requires FreshMemory(blocks, base, BlockSize(policy, blocks[|blocks| - 1].size, Reserve(size, align) + CLEANUP))
      modifies this
      ensures regions == old(regions) + [r] && r.block == |blocks| - 1 && ObjectOk(obj, r, size, align)
      ensures Served(old(Now()), Now(), r.addr, r.n, CLEANUP, policy, base)
      ensures Registered(cleaned) == Registered(old(cleaned)) + [CleanupNode(obj, destructor)]
      ensures Valid()
    {
      var node;
      obj, node, r := AllocateForObject(size, align, policy, base, garbage);
      SetNode(node, obj, destructor, Registered(old(cleaned)), garbage);
    }

    /** The region and the node for an object, and where the object goes. */
    method AllocateForObject(size: nat, align: nat, policy: AllocationPolicy, base: Addr, garbage: CleanupNode)
      returns (obj: Addr, node: Addr, ghost r: Region)
      requires Valid() && PowerOfTwo(align) && (align > 8 ==> size % 8 == 0)
      requires FreshMemory(blocks, base, BlockSize(policy, blocks[|blocks| - 1].size, Reserve(size, align) + CLEANUP))
      modifies this
      ensures regions == old(regions) + [r] && r.block == |blocks| - 1 && ObjectOk(obj, r, size, align)
      ensures Served(old(Now()), Now(), r.addr, r.n, CLEANUP, policy, base)
      ensures node == limit && cleaned != [] && cleaned[|cleaned| - 1] != []
      ensures Registered(cleaned) == Registered(old(cleaned)) + [garbage]
      ensures Valid()
    {
      ReserveAligned(size, align);
      var ret;
      ret, node := AllocateAlignedWithCleanup(Reserve(size, align), policy, base, garbage);
      r := Region(|blocks| - 1, ret, Reserve(size, align));
      RegionHasObject(blocks, cleaned, nodes, ptr, limit, regions, r, size, align);
      obj := if align <= 8 then ret else AlignTo(ret, align);
    }

    function SpaceUsed(): int
      reads this
      requires blocks != []
    {
      ptr - (blocks[|blocks| - 1].base + BLOCK_HEADER) + spaceUsed - SERIAL_ARENA
    }

    /** Runs the cleanups block by block. */
    method CleanupList() returns (ran: seq<CleanupNode>)
      requires Valid()
      modifies this`blocks
      ensures Layout(blocks, cleaned, nodes, ptr, limit)
      ensures old(blocks) != [] && blocks == old(blocks)[|blocks| - 1 := old(blocks[|blocks| - 1]).(start := limit)]
      ensures ran == Ran(blocks, cleaned, |blocks|)
    {
      var head := |blocks| - 1;
      SyncKeepsLayout(blocks, cleaned, nodes, ptr, limit);
      blocks := blocks[head := blocks[head].(start := limit)];
      ran := RunCleanups(blocks, nodes, cleaned, ptr, limit);
    }
  }

  /** CleanupList's loop, from the newest block on. */
  method RunCleanups(blocks: seq<Block>, nodes: map<int, CleanupNode>, ghost cleaned: seq<seq<CleanupNode>>,
                     ghost ptr: Addr, ghost limit: Addr)
    returns (ran: seq<CleanupNode>)
    requires Layout(blocks, cleaned, nodes, ptr, limit) && blocks[|blocks| - 1].start == limit
    ensures ran == Ran(blocks, cleaned, |blocks|)
  {
    ran := [];
    var k := |blocks|;
    RanAll(blocks, cleaned);
    while k > 0
      invariant 0 <= k <= |blocks|
      invariant RanSoFar(blocks, cleaned, ran, k)
    {
      k := k - 1;
      var some := CleanupBlock(blocks, nodes, cleaned, ptr, limit, k);
      RanMore(blocks, cleaned, ran, k, some);
      ran := ran + some;
    }
    EmptyLeft(ran);
  }

  /** Bytes reserved for an object: over-aligned ones get align - 8 spare bytes. */
  function Reserve(size: nat, align: nat): nat {
    if align <= 8 then AlignUpTo8(size) else size + align - 8
  }

  lemma EightfoldAbove(align: nat)
    requires PowerOfTwo(align) && align > 8
    ensures align % 8 == 0
  {
    var k: nat :| k < 64 && align == Pow2(k);
    Pow2Bound(k);
    UniqueMod(align, 8, Pow2(k - 3), 0);
  }

  lemma ReserveAligned(size: nat, align: nat)
    requires PowerOfTwo(align) && (align > 8 ==> size % 8 == 0)
    ensures Reserve(size, align) % 8 == 0 && align < TWO_64
  {
    PowerOfTwoBound(align);
    if align > 8 {
      EightfoldAbove(align);
      EightsAdd(size, align);
    }
  }

  lemma EightsAdd(a: nat, b: nat)
    requires a % 8 == 0 && b % 8 == 0 && b >= 8
    ensures (a + b - 8) % 8 == 0
  {
  }

  /** An object at a multiple of its alignment, inside a region with no more than the bytes
      that takes. */
  ghost predicate ObjectOk(obj: Addr, r: Region, size: nat, align: nat) {
    && r.addr <= obj && obj + size <= r.addr + r.n
    && if align > 8 then obj % align == 0 && r.n == size + align - 8
       else obj == r.addr && obj % 8 == 0 && r.n < size + 8
  }

  lemma ObjectFits(r: Region, size: nat, align: nat)
    requires r.addr % 8 == 0 && PowerOfTwo(align) && (align > 8 ==> r.addr + align - 1 < TWO_64)
    requires r.n == Reserve(size, align)
    ensures align < TWO_64 && ObjectOk(if align <= 8 then r.addr else AlignTo(r.addr, align), r, size, align)
  {
    PowerOfTwoBound(align);
    if align > 8 {
      AlignToFits(r.addr, size, align);
    }
  }

  /** The region allocated last has room for the object it was reserved for. */
  lemma RegionHasObject(blocks: seq<Block>, cleaned: seq<seq<CleanupNode>>, nodes: map<int, CleanupNode>,
                        ptr: Addr, limit: Addr, regions: seq<Region>, r: Region, size: nat, align: nat)
    requires Layout(blocks, cleaned, nodes, ptr, limit) && RegionsOk(blocks, ptr, regions)
    requires regions != [] && regions[|regions| - 1] == r && r.n == Reserve(size, align) && PowerOfTwo(align)
    requires r.block == |blocks| - 1 && cleaned[r.block] != []
    ensures align < TWO_64 && ObjectOk(if align <= 8 then r.addr else AlignTo(r.addr, align), r, size, align)
  {
    assert RegionOk(blocks, ptr, regions[|regions| - 1]);
    assert BlockOk(blocks, cleaned, r.block);
    RegionInBlock(blocks, cleaned, nodes, ptr, limit, regions, |regions| - 1);
    ObjectFits(r, size, align);
  }

  lemma SyncKeepsLayout(blocks: seq<Block>, cleaned: seq<seq<CleanupNode>>, nodes: map<int, CleanupNode>,
                        ptr: Addr, limit: Addr)
    requires Layout(blocks, cleaned, nodes, ptr, limit)
    ensures var head := |blocks| - 1;
            Layout(blocks[head := blocks[head].(start := limit)], cleaned, nodes, ptr, limit)
  {
    var head := |blocks| - 1;
    var blocks' := blocks[head := blocks[head].(start := limit)];
    forall k | 0 <= k < |blocks'|
      ensures BlockOk(blocks', cleaned, k) && NodesOk(blocks', cleaned, nodes, k)
    {
      assert BlockOk(blocks, cleaned, k) && NodesOk(blocks, cleaned, nodes, k);
      assert Top(blocks', k) == Top(blocks, k);
      forall i | 0 <= i < |cleaned[k]|
        ensures NodeAt(blocks', k, i) in nodes && nodes[NodeAt(blocks', k, i)] == cleaned[k][i]
      {
        var node := cleaned[k][i];
        assert nodes[NodeAt(blocks, k, i)] == node;
      }
    }
    forall j, k | 0 <= j < k < |blocks'|
      ensures Apart(blocks'[j], blocks'[k])
    {
      assert Apart(blocks[j], blocks[k]);
    }
  }

  /** One round of CleanupList's loop. The pointer difference counts whole nodes. */
  method CleanupBlock(blocks: seq<Block>, nodes: map<int, CleanupNode>, ghost cleaned: seq<seq<CleanupNode>>,
                      ghost ptr: Addr, ghost limit: Addr, k: nat)
    returns (ran: seq<CleanupNode>)
    requires Layout(blocks, cleaned, nodes, ptr, limit) && k < |blocks|
    requires blocks[|blocks| - 1].start == limit
    ensures ran == if Dropped(blocks, Counts(cleaned), k) then [] else Reversed(cleaned[k])
  {
    assert BlockOk(blocks, cleaned, k) && NodesOk(blocks, cleaned, nodes, k);
    var limit8 := blocks[k].base + blocks[k].size / 8 * 8;
    var it := blocks[k].start;
    var num := (limit8 - it) / CLEANUP;
    ran := [];
    ghost var count := |cleaned[k]|;
    assert it == Top(blocks, k) - CLEANUP * count;
    if num > 0 {
      ghost var done := 0;
      while it < limit8
        invariant 0 <= done <= count
        invariant it == blocks[k].start + CLEANUP * done
        invariant ran == Reversed(cleaned[k])[..done]
      {
        ReversedAt(cleaned[k], done);
        assert it == NodeAt(blocks, k, count - 1 - done);
        assert nodes[it] == cleaned[k][count - 1 - done];
        ran := ran + [nodes[it]];
        it := it + CLEANUP;
        done := done + 1;
      }
    }
  }

  /** Space accounting: a valid arena reports exactly the bytes requested and the
      bytes of its blocks. */
  lemma SpaceAccounted(a: SerialArena)
    requires a.Valid()
    ensures a.SpaceUsed() == TotalRegions(a.regions)
    ensures a.spaceAllocated == TotalSize(a.blocks)
  {
  }
}
