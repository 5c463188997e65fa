# Protocol buffers runtime of the server portfolio: verified model

The server ships a copy of the protocol buffers C++ runtime and two generated game
messages. This project models the parts of that code which are hard to get right by
reading them, and proves what they promise:

- **Table arena** (`TableArena.dfy`). The descriptor pool's allocator. Each block grows
  objects from the front and one tag byte per object from the back; blocks move between
  the current block, a list of full blocks and six lists by remaining space; a run-length
  log lets the latest allocations be undone. The class keeps the history of live
  allocations as ghost state. Undoing restores exactly a prefix of that history, in
  reverse order, although the log is kept per block and the lists are rebuilt; the
  destructor destroys each live object exactly once.
- **Checkpoints of the pool tables** (`PoolTables.dfy`). Symbol, file and extension tables
  with a stack of checkpoints over them and the arena.
- **Serial arena** (`SerialArena.dfy`). One thread's two-ended bump allocator with its
  cleanup nodes and over-aligned objects. Addresses are numbers.
- **Teardown** (`ArenaTeardown.dfy`). Running all cleanups, then walking and freeing all
  blocks of all serial arenas; freed blocks leave the memory map, so that touching one
  would be an error. The address of the block the user handed over is followed while
  chains and lists grow.
- **Arena protocol** (`ThreadSafeArena.dfy`). The lock-free list of serial arenas, the
  thread caches, the hint and the batches of lifecycle ids, as a state machine over
  atomic steps of any number of threads and arenas: every run is safe, and a call that
  no other thread disturbs ends in a known number of steps with a known result.
- **Wire format and game messages** (`WireFormat.dfy`, `UnknownFields.dfy`,
  `GameProtocol.dfy`, `GameMessages.dfy`). Varints with their fast decoders, sizes, packed
  fields and UTF-8; fields a message does not know, which are kept, nested groups
  included; messages as values with their serializer and parser; and the generated
  classes, proved against those values.
- **UTF-8** (`Utf8Scan.dfy`). The table-driven scanner with its fast paths over aligned
  words, proved against the syntax of RFC 3629 and against encoding of Unicode scalar
  values; the longest valid prefix; coercion of invalid text.
- **Symbol index** (`SymbolNames.dfy`, `SymbolOrder.dfy`, `SimpleIndex.dfy`,
  `FileNames.dfy`, `EncodedIndex.dfy`). Lookup of the symbol that encloses a name by
  looking at one neighbour in a sorted table; the two-part comparison of the encoded
  index; its sets of file names and symbols and the sorted vectors they are merged into.
- **Builder** (`ImportLoading.dfy`, `ScopeLookup.dfy`, `NumberTables.dfy`,
  `StylizedNames.dfy`). Eager import loading with cycle detection, innermost-scope name
  lookup and visibility, lookup by number with its run served by position, and the lazily
  filled name index.

`Common.dfy` holds what several of these share: options, facts about sequences and
multiples, powers of two and masks.

## Where the code does not keep what it promises

Eight properties are false of the code as it stands. Each is kept as it is in the model,
with a concrete failing input where that is not obvious and the exact condition under
which the property holds:

- **Cleanup lists.** The block limit is rounded down to a multiple of 8 for a first block
  and when cleanups are run, but not for later blocks (`arena.cc:112`, `164`, `184`). All
  cleanups run, in reverse order, if and only if no later block whose size is no multiple
  of 8 holds exactly one of them (`CleanupsRunIff`, `OddBlockLosesCleanup`).
- **Neighbour check of AddSymbol.** When every key sorts after the new name, the step past
  the last key not after it skips the only key it could enclose
  (`descriptor_database.cc:171`, `180`, `232`, `679`). In the simple index a conflicting
  name is accepted in exactly that case (`NeighboursAllowIff`, `OverlookedExample`).
- **Neighbour check of the encoded index.** There a conflicting name is accepted in one
  more case, and in no other: the name has no package and equals the package of an entry
  whose symbol is empty, and it does not enclose the entry after that one. The search then
  ends on the nameless entry and the check steps past it
  (`EncodedIndex.CheckForMutualSubsymbols`). If the nameless entry is in the set, the set
  takes the new one for the same and drops it, and AddSymbol still returns true
  (`EquivalentIsMisjudged`, `DroppedIsLost`); if it is in the vector, the name is stored.
  The union of both containers stays in order, whether or not entries have names, if and
  only if no conflict was let through to be stored (`AcceptedKeepsIndexIff`,
  `NamelessExample`).
- **SymbolCompare.** It agrees with the order of the full names except for a name without
  a package against an entry of that package whose symbol is empty (`CompareIsLessIff`).
  The lemmas `TransitivityBreaksIff` and `EquivalenceBreaksIff` say for which operands the
  laws of an order then fail (`EmptySymbolBreaksOrder`). Lookups are right all the same: a
  name misjudged against an entry has nothing that encloses it
  (`EncodedIndex.FindSymbolOnlyFlat`).
- **A refused file.** AddFile puts a file name into the set before it looks for it in the
  vector (`descriptor_database.cc:636-640`). A file refused because its name is known
  leaves that name alone if and only if the set had it; otherwise the name is found as the
  refused file from then on (`EncodedIndex.BeginFile`, `RefusedFileIsFound`).
- **Round trip.** The writer refuses a message whose bytes are longer than INT_MAX. Of what
  is written, the parser refuses what has a text that is not UTF-8, a length-delimited part
  longer than INT_MAX - 16 bytes, or groups nested too deeply, and it reads an unknown
  field with a known tag as the known field. Everything else reads back as it was
  (`RoundTripIff`, `NotUtf8Example`, `TooLongExample`).
- **Concatenation.** Behind any bytes that parse, a serialized message merges as MergeFrom
  does if and only if its parts fit and no unknown field has a known tag
  (`ConcatenationMerges`). Any second bytes that parse do so if and only if they leave no
  field at its default that they contain and the first bytes set (`BytesMergeIff`,
  `ExplicitDefaultExample`).
- **Cached size of packed victims.** The serializer trusts a size cached earlier; the bytes
  are right if and only if the cache is up to date or there is nothing to write
  (`CachedSizeMattersExactly`). With a stale positive size and an empty list the loop reads
  behind the end of the list; nothing is said of the bytes then.

The comment at `descriptor_database.cc:227-231` claims the neighbour check complete; the model
follows the code.

## How the model is built

Objects that the code updates in place are classes whose methods do the same updates; linked
lists of blocks live in a map from addresses to block records, which stands for the heap.
Each method states its new state, or ties it to a function over values, and the lemmas are
about those functions. The thread-safe arena is a state machine, since its point is the
interleaving. Memory that `operator new` would return, block pages and addresses are
parameters that only have to be new. Integers are unbounded except where the wire format cuts
them to 32 or 64 bits, where limits are 16 bits wide, and where lengths are compared with
INT_MAX; the lists below name what that leaves out.

## Model

| member | source | states |
|---|---|---|
| TableArenas.LiveAllocationsDisjoint | ServerPortfolio/Headers/google/protobuf/descriptor.cc:945-991 | any two live allocations of one block lie in separate byte ranges, and all end before the tag bytes begin |
| TableArenas.ObjectsAreAligned | ServerPortfolio/Headers/google/protobuf/descriptor.cc:669-676 | every object lies at a multiple of 8 and takes its size rounded up to 8 |
| TableArenas.UsedGrows | ServerPortfolio/Headers/google/protobuf/descriptor.cc:970-976 | in the history of a block the offsets only grow, each allocation by at least its own size |
| TableArenas.BumpKeepsBlocks | ServerPortfolio/Headers/google/protobuf/descriptor.cc:970-976 | Block::Allocate keeps every start offset equal to the sum of the sizes its tag bytes encode, when n + 1 bytes are left |
| TableArenas.UnbumpKeepsBlocks | ServerPortfolio/Headers/google/protobuf/descriptor.cc:882-898 | reading the tag at the end offset finds the latest live allocation of that block, and stepping both offsets back removes exactly it |
| TableArenas.LoggedKeepsLog | ServerPortfolio/Headers/google/protobuf/descriptor.cc:844-849 | the run-length log, expanded, stays the list of blocks of the allocations since the log was cleared |
| TableArenas.UnloggedKeepsLog | ServerPortfolio/Headers/google/protobuf/descriptor.cc:770-780 | while something logged is live the log is not empty, its last entry names the block of the globally latest allocation, and dropping one count keeps the log exact |
| TableArenas.EveryBlockInOneList | ServerPortfolio/Headers/google/protobuf/descriptor.cc:993-1033 | every block is reached from the head of exactly one of the eight lists and every list ends after its length, so lists are acyclic |
| TableArenas.WalkList | ServerPortfolio/Headers/google/protobuf/descriptor.cc:720-728 | following next from a block visits its list by decreasing depth and then reaches null |
| TableArenas.PopKeepsLists | ServerPortfolio/Headers/google/protobuf/descriptor.cc:993-997 | taking the head off a list keeps all lists in order and leaves that block in none |
| TableArenas.PushKeepsLists | ServerPortfolio/Headers/google/protobuf/descriptor.cc:980-983 | PrependTo keeps all lists in order and puts a block that was in none into one |
| TableArenas.ShiftKeepsLists | ServerPortfolio/Headers/google/protobuf/descriptor.cc:783-786 | emptying the eight lists while their old heads are kept leaves sixteen lists in order |
| TableArenas.DropEmptyLists | ServerPortfolio/Headers/google/protobuf/descriptor.cc:788-800 | once each old list has been walked to its end every block left is in one of the new lists |
| TableArenas.FreeKeepsBlocks | ServerPortfolio/Headers/google/protobuf/descriptor.cc:793-795 | a block with start offset 0 holds no live allocation, so freeing it loses none |
| TableArenas.TableArena.constructor | ServerPortfolio/Headers/google/protobuf/descriptor.cc:712 | an arena without blocks satisfies the invariant |
| TableArenas.TableArena.ChosenIs | ServerPortfolio/Headers/google/protobuf/descriptor.cc:819-842 | the block chosen is the head of the first small list that has one and fits, else the current one if it has room for the bytes and a tag, and only else a new one |
| TableArenas.TableArena.PickBlock | ServerPortfolio/Headers/google/protobuf/descriptor.cc:819-842 | the block is the head of the first small list that fits, else the current one if it has room, else new, and it has room for the bytes and a tag, so that the check in Block::Allocate holds |
| TableArenas.TableArena.Take | ServerPortfolio/Headers/google/protobuf/descriptor.cc:844-856 | counts, logs and takes the bytes: the history grows by one allocation and no other block changes |
| TableArenas.TableArena.RelocateToUsedList | ServerPortfolio/Headers/google/protobuf/descriptor.cc:999-1017 | the block becomes current exactly if there is none or it has more space than that one; the other goes to the list its remaining space demands; list links are all that changes |
| TableArenas.TableArena.AllocRawInternal | ServerPortfolio/Headers/google/protobuf/descriptor.cc:815-856 | the live history grows by exactly the new allocation with its tag, in the first small list that fits, else in the current block, and in a new block only if neither has room; no other block is added |
| TableArenas.TableArena.AllocateMemory | ServerPortfolio/Headers/google/protobuf/descriptor.cc:692-700 | raw memory goes out of line exactly when it is larger than 239 words; otherwise its tag encodes its size rounded up to 8 |
| TableArenas.UntrackedTagIff | ServerPortfolio/Headers/google/protobuf/descriptor.cc:900-916 | the tag of an untracked type is a raw tag of its size if and only if that is at most 239 words; beyond, the byte wraps around |
| TableArenas.TableArena.Create | ServerPortfolio/Headers/google/protobuf/descriptor.cc:706-710 | an object of a tracked type is logged with the type number as its tag, one of another type with a tag that encodes its size rounded up to 8 |
| TableArenas.TableArena.ClearRollbackData | ServerPortfolio/Headers/google/protobuf/descriptor.cc:805-808 | live allocations stay, and rollback below their number becomes impossible |
| TableArenas.TableArena.UndoLast | ServerPortfolio/Headers/google/protobuf/descriptor.cc:770-780 | the log is not empty, and what is undone is the globally latest allocation |
| TableArenas.TableArena.RollbackTo | ServerPortfolio/Headers/google/protobuf/descriptor.cc:769-801 | leaves exactly the first `checkpoint` live allocations, undoes the others in reverse global order, and keeps exactly the blocks that still hold one |
| TableArenas.TableArena.DrainList | ServerPortfolio/Headers/google/protobuf/descriptor.cc:788-800 | walking one old list frees its empty blocks and relocates all others, and terminates |
| TableArenas.TableArena.VisitBlock | ServerPortfolio/Headers/google/protobuf/descriptor.cc:986-990 | destroys exactly the live objects of tracked types in the block, the latest first, by stepping both offsets back |
| TableArenas.TableArena.Destroy | ServerPortfolio/Headers/google/protobuf/descriptor.cc:717-729 | frees every block after visiting it; each live object of a tracked type is destroyed exactly once, the latest first within its block |
| TableArenas.AllDestroyedOnce | ServerPortfolio/Headers/google/protobuf/descriptor.cc:717-729 | if every block has had its visits, what was destroyed is, as a multiset, exactly the live objects of tracked types |
| TableArenas.ReachableArena | ServerPortfolio/Headers/google/protobuf/descriptor.cc:1035-1044 | in every reachable state the current block ends its list, small list i holds only blocks with SMALL_SIZES[i] + 1 bytes left, offsets equal the sum of encoded sizes, and no log entry names a freed block |
| PoolTables.InsertIsUndone | ServerPortfolio/Headers/google/protobuf/descriptor.cc:1655-1664 | a key logged when it was inserted first leaves no trace once it is undone |
| PoolTables.UndoTwice | ServerPortfolio/Headers/google/protobuf/descriptor.cc:1398-1425 | undoing to an inner checkpoint and then to an outer one equals undoing to the outer one |
| PoolTables.EraseFrom | ServerPortfolio/Headers/google/protobuf/descriptor.cc:1402-1415 | the erase loops remove exactly the keys logged after the checkpoint |
| PoolTables.Tables.AddCheckpoint | ServerPortfolio/Headers/google/protobuf/descriptor.cc:1381-1383 | the current tables and live allocations become what this checkpoint restores |
| PoolTables.Tables.ClearLastCheckpoint | ServerPortfolio/Headers/google/protobuf/descriptor.cc:1385-1396 | nothing visible changes, outer checkpoints restore what they did before, and undo data goes exactly when no checkpoint remains |
| PoolTables.Tables.RollbackToLastCheckpoint | ServerPortfolio/Headers/google/protobuf/descriptor.cc:1398-1425 | all three tables and the live allocations are as they were at the matching AddCheckpoint, whatever inner checkpoints were cleared since, and allocations are undone in reverse |
| PoolTables.Tables.OuterStayRestorable | ServerPortfolio/Headers/google/protobuf/descriptor.cc:1398-1425 | after a rollback every outer checkpoint can still restore its own tables |
| PoolTables.Tables.AddSymbol | ServerPortfolio/Headers/google/protobuf/descriptor.cc:1655-1664 | a name is added once; the first symbol stays, and every checkpoint stays restorable |
| PoolTables.Tables.AddFile | ServerPortfolio/Headers/google/protobuf/descriptor.cc:1674-1681 | a file name is added once; the first file stays, and every checkpoint stays restorable |
| PoolTables.Tables.AddExtension | ServerPortfolio/Headers/google/protobuf/descriptor.cc:1743-1751 | an extension number of a message is added once; the first field stays, and every checkpoint stays restorable |
| PoolTables.Tables.AllocateBytes | ServerPortfolio/Headers/google/protobuf/descriptor.cc:1871-1874 | size 0 takes no memory; otherwise the live history grows by one allocation under all open checkpoints: up to 239 words its tag encodes the size rounded up to 8, beyond that it is an out-of-line record |
| SerialArenas.RegionInBlock | ServerPortfolio/Headers/google/protobuf/arena_impl.h:211-230 | every region returned is 8-aligned and lies in its block past the header, below the cleanup nodes |
| SerialArenas.NodeInBlock | ServerPortfolio/Headers/google/protobuf/arena.cc:149-169 | every cleanup node lies in its block past the header; it is 8-aligned if and only if the block is the first one or its size is a multiple of 8 |
| SerialArenas.RegionsDisjoint | ServerPortfolio/Headers/google/protobuf/arena_impl.h:211-262 | no two regions ever returned share a byte |
| SerialArenas.RegionNodeDisjoint | ServerPortfolio/Headers/google/protobuf/arena_impl.h:242-262 | no region shares a byte with a cleanup node |
| SerialArenas.NodesDisjoint | ServerPortfolio/Headers/google/protobuf/arena_impl.h:242-262 | no two cleanup nodes share a byte |
| SerialArenas.AlignToRounds | ServerPortfolio/Headers/google/protobuf/arena.h:95-98 | for every alignment that is a power of two, the mask ~align + 1 gives the first multiple of it that is not below the address, unless the sum wraps around 64 bits |
| SerialArenas.AlignToFits | ServerPortfolio/Headers/google/protobuf/arena.h:95-98 | with align - 8 spare bytes an 8-aligned region has room for an object at the address the mask gives |
| SerialArenas.ObjectFits | ServerPortfolio/Headers/google/protobuf/arena.h:567-587 | the object, at its alignment, lies inside the region reserved for it |
| SerialArenas.CleanupsRunIff | ServerPortfolio/Headers/google/protobuf/arena.cc:179-194 | every registered cleanup runs exactly once and in reverse order of registration if and only if no later block with a size not a multiple of 8 holds exactly one |
| SerialArenas.OddBlockLosesCleanup | ServerPortfolio/Headers/google/protobuf/arena.cc:53-77 | a policy with a maximum block size of 1001 bytes gives a block whose only cleanup is never run |
| SerialArenas.BlockSizeGrows | ServerPortfolio/Headers/google/protobuf/arena.cc:53-70 | a first block has the start size and each later one twice the size of the one before, up to the maximum, and only if a request would not fit, just the room for that |
| SerialArenas.SerialArena.constructor | ServerPortfolio/Headers/google/protobuf/arena.cc:108-121 | a new arena in a block of at least header and object size, with nothing allocated |
| SerialArenas.SerialArena.AllocateNewBlock | ServerPortfolio/Headers/google/protobuf/arena.cc:149-169 | older regions and nodes keep their places; the new block has the next size and is free behind its header |
| SerialArenas.SerialArena.AllocateAligned | ServerPortfolio/Headers/google/protobuf/arena_impl.h:213-220 | adds exactly one region of the size asked for: at the front of the free space if it fits there, and only otherwise at the start of one new block; cleanups stay |
| SerialArenas.SerialArena.AllocateAlignedWithCleanup | ServerPortfolio/Headers/google/protobuf/arena_impl.h:242-262 | adds one region and registers one node as the latest, at the two ends of the free space if both fit there, and only otherwise in one new block |
| SerialArenas.SerialArena.AddCleanup | ServerPortfolio/Headers/google/protobuf/arena_impl.h:265-270 | the cleanup is registered last and takes no object space; a new block is taken only if the node does not fit |
| SerialArenas.SerialArena.AllocateInternal | ServerPortfolio/Headers/google/protobuf/arena.h:567-587 | an object with a destructor lies at its alignment inside a region of no more than the bytes that takes, in the newest block if it fits there with its node, and is registered for cleanup last |
| SerialArenas.SerialArena.CleanupList | ServerPortfolio/Headers/google/protobuf/arena.cc:179-194 | runs, block by block from the newest, what CleanupsRunIff characterizes |
| SerialArenas.CleanupBlock | ServerPortfolio/Headers/google/protobuf/arena.cc:182-191 | one block runs its nodes from the latest to the first, or none when the pointer difference rounds to no whole node |
| SerialArenas.SpaceAccounted | ServerPortfolio/Headers/google/protobuf/arena.cc:171-177 | SpaceUsed equals the sum of the sizes asked for, and SpaceAllocated the sum of the block sizes |
| ArenaTeardown.ThreadSafeArena.constructor | ServerPortfolio/Headers/google/protobuf/arena.cc:217-271 | a block handed over by the user becomes the first block if it is large enough; otherwise only a policy needs one of the arena's own |
| ArenaTeardown.ThreadSafeArena.AddBlock | ServerPortfolio/Headers/google/protobuf/arena.cc:149-169 | a new block goes to the front of the chain of one serial arena; the space counted stays the sum of the block sizes, and the user's block stays the last of all |
| ArenaTeardown.ThreadSafeArena.CleanupList | ServerPortfolio/Headers/google/protobuf/arena.cc:459-461 | the cleanups of all blocks of all serial arenas have run, each block once, before any block may be freed |
| ArenaTeardown.ThreadSafeArena.PushSerial | ServerPortfolio/Headers/google/protobuf/arena.cc:473-484 | a serial arena of one block is put in front of all others |
| ArenaTeardown.ThreadSafeArena.SpaceAllocated | ServerPortfolio/Headers/google/protobuf/arena.cc:441-448 | equals the sum of the sizes of all blocks of all serial arenas |
| ArenaTeardown.ThreadSafeArena.FreeSerial | ServerPortfolio/Headers/google/protobuf/arena.cc:122-132 | frees all blocks of a serial arena but the oldest, each once, never reading a freed one |
| ArenaTeardown.ThreadSafeArena.FreeOne | ServerPortfolio/Headers/google/protobuf/arena_impl.h:474-480 | one round of the walk frees the block left over before and leaves this serial arena itself readable until its next pointer has been read |
| ArenaTeardown.ThreadSafeArena.Free | ServerPortfolio/Headers/google/protobuf/arena.cc:345-353 | frees every block exactly once except the oldest block of the last serial arena, and counts the bytes freed |
| ArenaTeardown.ThreadSafeArena.TearDown | ServerPortfolio/Headers/google/protobuf/arena.cc:355-361 | first all cleanups run, then all blocks but the one the user owns are freed, each once |
| ArenaTeardown.ThreadSafeArena.Reset | ServerPortfolio/Headers/google/protobuf/arena.cc:355-390 | returns the sum of all block sizes, runs all cleanups before it frees the first block, and frees every block exactly once; the address the user handed over is never among those freed and is the block the arena starts over in |
| ArenaTeardown.ThreadSafeArena.Destroy | ServerPortfolio/Headers/google/protobuf/arena.cc:324-343 | all cleanups run before the first block is freed; every block is freed once, but never the one the user handed over |
| ArenaTeardown.FreedMore | ServerPortfolio/Headers/google/protobuf/arena.cc:123-132 | freeing all but the last block of the next chain extends the freed prefix of all blocks by exactly these |
| ArenaProtocol.StepKeepsInv | ServerPortfolio/Headers/google/protobuf/arena_impl.h:435-480 | every step any thread can take, with spurious failures of the exchange, keeps the invariant and touches no freed serial arena |
| ArenaProtocol.RunKeepsInv | ServerPortfolio/Headers/google/protobuf/arena_impl.h:435-480 | every state of every interleaving satisfies the invariant |
| ArenaProtocol.RunsAreSafe | ServerPortfolio/Headers/google/protobuf/arena_impl.h:435-480 | whatever can happen next in any run is safe |
| ArenaProtocol.GivenSerialIsMine | ServerPortfolio/Headers/google/protobuf/arena_impl.h:445-470 | by cache, hint or walk, a thread is only given a serial arena that is in that arena's current list and that it owns, and it owns no other one there |
| ArenaProtocol.PushedSerialsStay | ServerPortfolio/Headers/google/protobuf/arena.cc:464-488 | within a lifecycle a list only grows at its head: no exchanged serial arena is lost |
| ArenaProtocol.IdsNeverRepeat | ServerPortfolio/Headers/google/protobuf/arena.cc:289-315 | no two calls of Init anywhere in a run get the same lifecycle id |
| ArenaProtocol.NextIdIsNew | ServerPortfolio/Headers/google/protobuf/arena.cc:293-306 | the id taken is even and was never issued |
| ArenaProtocol.ResetKeepsTag | ServerPortfolio/Headers/google/protobuf/arena.cc:307-309 | the message-owned bit survives Reset, and the rest is the fresh id |
| ArenaProtocol.CompareExchangeKeepsInv | ServerPortfolio/Headers/google/protobuf/arena.cc:479-484 | no exchange, successful, failed or spurious, breaks the invariant; until one succeeds the serial arena stays the creator's alone |
| ArenaProtocol.ExchangePublishes | ServerPortfolio/Headers/google/protobuf/arena.cc:479-488 | an exchange that is not spurious, on the head that was loaded, puts the serial arena in front of the list, and the thread goes on to cache it |
| ArenaProtocol.FailedExchangeReloads | ServerPortfolio/Headers/google/protobuf/arena.cc:479-484 | any other exchange changes nothing but the head that the thread has loaded |
| ArenaProtocol.OnlyNext | ServerPortfolio/Headers/google/protobuf/arena.cc:464-488 | within a call a thread has no choice of steps, but for exchanges that fail spuriously |
| ArenaProtocol.CallEnds | ServerPortfolio/Headers/google/protobuf/arena.cc:464-488 | every call that no other thread disturbs ends, in one step if the cache matches, in two if the hint is its own, and else after a walk to its own serial arena, or to the end and with a new one in front, which is then cached and the hint; the numbers of steps and the final states are exact |
| ArenaProtocol.CallLeaves | ServerPortfolio/Headers/google/protobuf/arena.cc:473-488 | the final states of CallEnds in full: the list, the link, the caches and the hint |
| ArenaProtocol.SetNextKeepsInv | ServerPortfolio/Headers/google/protobuf/arena.cc:479-481 | linking an unpublished serial arena to the head loaded changes no list |
| ArenaProtocol.CreateKeepsInv | ServerPortfolio/Headers/google/protobuf/arena.cc:473-477 | a thread that finds no serial arena of its own creates its first one |
| ArenaProtocol.WalkOnKeepsInv | ServerPortfolio/Headers/google/protobuf/arena.cc:466-471 | the walk stays within the list it started in, and stops exactly at the thread's own serial arena |
| ArenaProtocol.TryCacheKeepsInv | ServerPortfolio/Headers/google/protobuf/arena_impl.h:459-470 | a cache hit by id names a serial arena of this arena and thread |
| ArenaProtocol.CheckHintKeepsInv | ServerPortfolio/Headers/google/protobuf/arena_impl.h:448-456 | a hint that is owned by the thread is its serial arena here, and reading its owner touches no freed memory |
| ArenaProtocol.WriteHintKeepsInv | ServerPortfolio/Headers/google/protobuf/arena_impl.h:435-443 | the hint only ever names a serial arena of the list |
| ArenaProtocol.WriteCacheKeepsInv | ServerPortfolio/Headers/google/protobuf/arena_impl.h:435-443 | writing pointer and id to the thread cache in two steps keeps the cache valid |
| ArenaProtocol.InitKeepsInv | ServerPortfolio/Headers/google/protobuf/arena.cc:289-315 | a new lifecycle gets an id no arena and no cache has |
| ArenaProtocol.StartsWithInitial | ServerPortfolio/Headers/google/protobuf/arena.cc:289-323 | a new or reset arena has the block handed over as its only serial arena, owned and cached by the caller, or none; its tag is the one asked for or kept |
| ArenaProtocol.FreesItsList | ServerPortfolio/Headers/google/protobuf/arena.cc:332-352 | Reset and destruction free exactly the serial arenas of the list |
| ArenaProtocol.NextIdFollows | ServerPortfolio/Headers/google/protobuf/arena.cc:289-306 | the ids a thread takes are two apart until its batch of 256 is used up, and only then it takes a number from the generator |
| ArenaProtocol.ResetKeepsInv | ServerPortfolio/Headers/google/protobuf/arena.cc:355-390 | Reset, exclusive on its arena, keeps the invariant for all others |
| ArenaProtocol.CallsExtendLists | ServerPortfolio/Headers/google/protobuf/arena.cc:464-488 | steps other than construction, Reset and destruction change no id and only extend lists |
| WireFormat.VarintRoundTrip | ServerPortfolio/Headers/google/protobuf/parse_context.h:526-541 | decoding a varint followed by anything gives the value back if and only if it fits into the bytes allowed |
| WireFormat.VarintPlaces | ServerPortfolio/Headers/google/protobuf/io/coded_stream.h:919-943 | byte i of an encoding holds group i of seven bits, with a continuation bit on all but the last, and there are no more groups than the value needs |
| WireFormat.VarintValue | ServerPortfolio/Headers/google/protobuf/parse_context.h:526-541 | for every input, a varint ends at the first byte without a continuation bit, if that is among the bytes allowed, and its value is the sum of the groups up to there |
| WireFormat.EncodeVarintInjective | ServerPortfolio/Headers/google/protobuf/io/coded_stream.h:919-943 | no two values have the same encoding |
| WireFormat.VarintLeavesSuffix | ServerPortfolio/Headers/google/protobuf/parse_context.h:526-541 | what a decoder leaves unread is a suffix of its input |
| WireFormat.VarintOfWord | ServerPortfolio/Headers/google/protobuf/parse_context.cc:339-350 | ten bytes are enough for every 64-bit value |
| WireFormat.ReadVarint64Encoded | ServerPortfolio/Headers/google/protobuf/parse_context.h:635-639 | reading what was written gives every 64-bit value back |
| WireFormat.ReadVarint32Encoded | ServerPortfolio/Headers/google/protobuf/parse_context.h:641-645 | reading what was written gives every 32-bit value back |
| WireFormat.ReadTagOneByte | ServerPortfolio/Headers/google/protobuf/parse_context.h:550-566 | a tag byte below 128 is read as it is |
| WireFormat.ReadSizeEncoded | ServerPortfolio/Headers/google/protobuf/parse_context.cc:363-381 | a length prefix is accepted if and only if it is at most INT_MAX - 16 |
| WireFormat.AddBytes | ServerPortfolio/Headers/google/protobuf/parse_context.cc:320-361 | the shared loop that takes one off each later byte keeps the value of the bytes read plus the carry of the last continuation bit, modulo 2^32 or 2^64 |
| WireFormat.VarintParse64 | ServerPortfolio/Headers/google/protobuf/parse_context.h:526-541 | the fast decoder computes exactly what the plain definition does, modulo 2^64, for every input, and ends behind the same byte |
| WireFormat.VarintParse32 | ServerPortfolio/Headers/google/protobuf/parse_context.cc:320-337 | skipping bytes five to nine changes nothing modulo 2^32: for every input the value and the end are those of the plain definition |
| WireFormat.ReadTagBytes | ServerPortfolio/Headers/google/protobuf/parse_context.cc:352-361 | for every input, reads the tag that the plain definition reads from at most five bytes |
| WireFormat.ReadSizeBytes | ServerPortfolio/Headers/google/protobuf/parse_context.cc:363-381 | with its guard on the fifth byte it accepts exactly the sizes up to INT_MAX - 16 of at most five bytes |
| WireFormat.DecodeStep | ServerPortfolio/Headers/google/protobuf/parse_context.cc:339-350 | one byte of the fast decoder: the continuation bit added before is taken away again |
| WireFormat.VarintSizeIsLength | ServerPortfolio/Headers/google/protobuf/io/coded_stream.h:1704-1734 | the size formula by the position of the highest bit is the length of the encoding for every 64-bit value |
| WireFormat.Fixed32RoundTrip | ServerPortfolio/Headers/google/protobuf/io/coded_stream.h:1652-1663 | reading four bytes written gives every 32-bit word back |
| WireFormat.Fixed32Places | ServerPortfolio/Headers/google/protobuf/io/coded_stream.h:1652-1663 | byte i of a word is its i-th lowest byte |
| WireFormat.Fixed32Value | ServerPortfolio/Headers/google/protobuf/parse_context.h:828-831 | four bytes are read with the lowest first |
| WireFormat.Fixed64RoundTrip | ServerPortfolio/Headers/google/protobuf/io/coded_stream.h:1665-1680 | reading eight bytes written gives every 64-bit word back |
| WireFormat.Fixed64Places | ServerPortfolio/Headers/google/protobuf/io/coded_stream.h:1665-1690 | byte i of a word is its i-th lowest byte |
| WireFormat.Fixed64Value | ServerPortfolio/Headers/google/protobuf/parse_context.h:808-811 | eight bytes are read with the lowest first |
| WireFormat.PackedRoundTrip | ServerPortfolio/Headers/google/protobuf/parse_context.h:734-743 | decoding the packed bytes gives back every list of 64-bit values |
| UnknownFields.ParseWritten | ServerPortfolio/Headers/google/protobuf/parse_context.h:794-837 | every unknown field, groups nested in groups included, is read back from its bytes, whatever follows, if and only if its bytes fit a length prefix and its groups the levels left |
| UnknownFields.FitsIff | ServerPortfolio/Headers/google/protobuf/parse_context.h:410-420 | a field fits if and only if no bytes in it are longer than INT_MAX - 16 and its groups are nested no deeper than the levels left |
| UnknownFields.WireTypesExample | ServerPortfolio/Headers/google/protobuf/wire_format.cc:192-228 | the bytes of one field of each wire type, a group included |
| UnknownFields.GroupWritten | ServerPortfolio/Headers/google/protobuf/parse_context.h:841-856 | the fields of a group come back in order, up to the end tag with its number |
| UnknownFields.ParsedFits | ServerPortfolio/Headers/google/protobuf/parse_context.h:794-837 | whatever was read fits, and has the tag it was read with |
| UnknownFields.FieldParser | ServerPortfolio/Headers/google/protobuf/parse_context.h:794-837 | for every input, reads at a position what the parser over values reads |
| UnknownFields.UnknownGroupParse | ServerPortfolio/Headers/google/protobuf/parse_context.h:841-856 | the loop over the fields of a group ends as the parser over values does |
| UnknownFields.ComputeUnknownFieldsSize | ServerPortfolio/Headers/google/protobuf/wire_format.cc:266-308 | equals the length of the serialized fields, or both are above INT_MAX |
| UnknownFields.InternalSerializeUnknownFields | ServerPortfolio/Headers/google/protobuf/wire_format.cc:192-228 | writes the serialized fields, with start and end tags around groups |
| GameProtocol.BuffMergesIff | ServerPortfolio/ProtobufCompiler/Protocol.pb.cc:177-270 | any serialized buff, parsed into any other: the result is MergeFrom of the two if and only if its parts fit and no unknown field has a known tag |
| GameProtocol.ParseOneVictim | ServerPortfolio/ProtobufCompiler/Protocol.pb.cc:204-205 | a victim under the tag of the encoding that is not packed is appended |
| GameProtocol.PackedOrNot | ServerPortfolio/ProtobufCompiler/Protocol.pb.cc:200-206 | a list of victims written one by one and the packed list are read alike, in the same order |
| GameProtocol.ParseBuffOverlays | ServerPortfolio/ProtobufCompiler/Protocol.pb.cc:177-231 | what any bytes make of a buff is what they make of an empty one laid over it |
| GameProtocol.BuffBytesMergeIff | ServerPortfolio/ProtobufCompiler/Protocol.pb.cc:177-231 | for all byte strings of which the first parses as a buff: both together merge if and only if the second leaves no field at its default that it contains and the first sets |
| GameProtocol.BuffRoundTripIff | ServerPortfolio/ProtobufCompiler/Protocol.pb.cc:177-270 | a buff, with any raw float bits and unknown fields, is read back as it was if and only if its parts fit and no unknown field has a known tag |
| GameProtocol.ReparsedBuffs | ServerPortfolio/ProtobufCompiler/Protocol.pb.cc:485-497 | whatever the unknown fields of the elements are: the parse fails, or has as many elements, and the same ones exactly if they all fit and have no unknown field with a known tag |
| GameProtocol.MergesIff | ServerPortfolio/ProtobufCompiler/Protocol.pb.cc:455-579 | any serialized message, parsed into any other: the result is MergeFrom of the two if and only if its parts fit and no unknown field has a known tag |
| GameProtocol.RoundTripIff | ServerPortfolio/Headers/google/protobuf/message_lite.cc:372-376 | the writer refuses exactly what is longer than INT_MAX; what it writes reads back as the same message if and only if its text is UTF-8, its parts fit their length prefixes and the recursion limit, and no unknown field has a known tag |
| GameProtocol.ReadableIff | ServerPortfolio/Headers/google/protobuf/message_lite.cc:372-376 | what is readable, in terms of lengths, UTF-8, levels of nesting and tags alone |
| GameProtocol.FieldBytes | ServerPortfolio/ProtobufCompiler/Protocol.pb.cc:531-570 | each field alone is written as its tag and its value, with its length where it has one |
| GameProtocol.BuffFieldBytes | ServerPortfolio/ProtobufCompiler/Protocol.pb.cc:233-262 | the same for buffs; a float has its lowest byte first |
| GameProtocol.WireExample | ServerPortfolio/ProtobufCompiler/Protocol.pb.cc:531-570 | the bytes of one message with all fields set |
| GameProtocol.NotUtf8Example | ServerPortfolio/ProtobufCompiler/Protocol.pb.cc:498-507 | a text of one byte 0x80 is written and then refused by the parser |
| GameProtocol.TooLongExample | ServerPortfolio/Headers/google/protobuf/message_lite.cc:446-453 | a message whose parts all fit is refused by the writer |
| GameProtocol.MsgFieldIsLocal | ServerPortfolio/ProtobufCompiler/Protocol.pb.cc:455-529 | what one field is read as depends on no byte behind it |
| GameProtocol.ParseSplits | ServerPortfolio/ProtobufCompiler/Protocol.pb.cc:455-529 | for all byte strings: parsing two one after the other is parsing the second one into what the first one gave |
| GameProtocol.ConcatenationMerges | ServerPortfolio/ProtobufCompiler/Protocol.pb.cc:634-654 | any serialized message behind any bytes that parse: the result is MergeFrom of the two if and only if its parts fit and no unknown field has a known tag |
| GameProtocol.ParseOverlays | ServerPortfolio/ProtobufCompiler/Protocol.pb.cc:455-529 | what any bytes make of a message, or that they fail, is what they make of an empty one laid over it: single fields are replaced exactly if their tag is in the bytes, and the others add up |
| GameProtocol.BytesMergeIff | ServerPortfolio/ProtobufCompiler/Protocol.pb.cc:455-529 | for all byte strings of which the first parses: both together parse if and only if the second does, and then to MergeFrom of the two messages if and only if no field set by the first is in the second and yet left there at its default |
| GameProtocol.ExplicitDefaultExample | ServerPortfolio/ProtobufCompiler/Protocol.pb.cc:455-529 | bytes that give 0 for a field take away what was there, so that arbitrary bytes do not merge like messages |
| GameProtocol.ParsedRoundTrips | ServerPortfolio/ProtobufCompiler/Protocol.pb.cc:455-579 | whatever bytes a message was parsed from, unknown fields included, writing it and parsing that gives it back, if the sizes fit |
| GameProtocol.CachedSizeMattersExactly | ServerPortfolio/ProtobufCompiler/Protocol.pb.cc:255-262 | the packed field is written right if and only if the cached size is the current one or there is nothing to write; with a stale positive size and an empty list the source reads behind the list |
| GameMessages.UInt64Size | ServerPortfolio/Headers/google/protobuf/wire_format_lite.h:690 | the size of the packed values is the length of their encoding |
| GameMessages.WritePacked | ServerPortfolio/Headers/google/protobuf/io/coded_stream.h:895-908 | the values are written as their packed encoding |
| GameMessages.ReadPacked | ServerPortfolio/Headers/google/protobuf/parse_context.h:734-743 | the loop over the announced bytes gives what the packed decoder gives, or fails where it fails |
| GameMessages.BuffData.Clear | ServerPortfolio/ProtobufCompiler/Protocol.pb.cc:164-175 | all fields have their defaults |
| GameMessages.BuffData.MergeFrom | ServerPortfolio/ProtobufCompiler/Protocol.pb.cc:325-343 | repeated values are appended and set fields replace, as the merge of the two values says |
| GameMessages.BuffData.CopyFrom | ServerPortfolio/ProtobufCompiler/Protocol.pb.cc:345-350 | becomes the other message, also when it is the same object |
| GameMessages.BuffData.ByteSizeLong | ServerPortfolio/ProtobufCompiler/Protocol.pb.cc:272-310 | equals the length of the serialized bytes and leaves the caches right, or both are above INT_MAX |
| GameMessages.BuffData.InternalSerialize | ServerPortfolio/ProtobufCompiler/Protocol.pb.cc:233-270 | writes the serialized value whenever the caches are those of the last ByteSizeLong, the stale bytes otherwise, and nothing definite where it reads behind an empty list |
| GameMessages.BuffData.InternalParse | ServerPortfolio/ProtobufCompiler/Protocol.pb.cc:177-231 | the parse loop ends as the parser over values does, with the same message, unknown fields included |
| GameMessages.BuffData.ParseField | ServerPortfolio/ProtobufCompiler/Protocol.pb.cc:182-212 | one round of the loop reads what one field of the parser over values reads |
| GameMessages.TestMsgData.Clear | ServerPortfolio/ProtobufCompiler/Protocol.pb.cc:441-453 | all fields have their defaults |
| GameMessages.TestMsgData.MergeFrom | ServerPortfolio/ProtobufCompiler/Protocol.pb.cc:634-654 | elements are copied behind those there, and set fields replace, as the merge of the two values says |
| GameMessages.TestMsgData.CopyFrom | ServerPortfolio/ProtobufCompiler/Protocol.pb.cc:656-661 | becomes the other message, also when it is the same object |
| GameMessages.BuffsSize | ServerPortfolio/ProtobufCompiler/Protocol.pb.cc:587-592 | the sizes of all elements with their tags and lengths, through 32-bit casts, equal the length of their bytes, or both are above INT_MAX |
| GameMessages.TestMsgData.ByteSizeLong | ServerPortfolio/ProtobufCompiler/Protocol.pb.cc:581-619 | equals the length of the serialized bytes and fills in the caches of all buffs, or both are above INT_MAX |
| GameMessages.TestMsgData.InternalSerialize | ServerPortfolio/ProtobufCompiler/Protocol.pb.cc:531-579 | writes the serialized value when the caches of all buffs are those of ByteSizeLong |
| GameMessages.TestMsgData.InternalParse | ServerPortfolio/ProtobufCompiler/Protocol.pb.cc:455-529 | the parse loop ends as the parser over values does, with the same message |
| GameMessages.TestMsgData.SerializeToString | ServerPortfolio/Headers/google/protobuf/message_lite.cc:446-460 | writes the serialized value, or nothing exactly when that is longer than INT_MAX |
| GameMessages.TestMsgData.ParseFromString | ServerPortfolio/Headers/google/protobuf/message_lite.cc:309-311 | gives exactly the message the parser over values gives, whatever was in the object before |
| GameMessages.TestMsgData.ParseBuffsRun | ServerPortfolio/ProtobufCompiler/Protocol.pb.cc:486-494 | the inner loop that looks for the tag byte 34 itself leads to the same result as reading the tag again each time, however the parse goes on |
| GameMessages.TestMsgData.ParseElement | ServerPortfolio/Headers/google/protobuf/parse_context.h:659-669 | one element is parsed into a new buff within its announced length |
| GameMessages.TagByteAgain | ServerPortfolio/ProtobufCompiler/Protocol.pb.cc:493-494 | at a tag byte 34, reading the tag and dispatching is parsing one more element |
| SymbolNames.BetweenIsInScope | ServerPortfolio/Headers/google/protobuf/descriptor_database.cc:200-206 | since '.' sorts before every other valid character, whatever lies between a scope and something in it is in the scope |
| SymbolNames.LessIff | ServerPortfolio/Headers/google/protobuf/descriptor_database.cc:165-173 | keys are in the order of the first character that differs, shorter prefixes first |
| SymbolNames.FindEqualsScan | ServerPortfolio/Headers/google/protobuf/descriptor_database.cc:297-305 | looking at one neighbour finds what a full scan finds, for every query string, over valid keys of which none encloses another |
| SymbolNames.EncloserIsNeighbour | ServerPortfolio/Headers/google/protobuf/descriptor_database.cc:164-173 | a key that equals or encloses the query is the last key not after it |
| SymbolNames.NeighboursAllowIff | ServerPortfolio/Headers/google/protobuf/descriptor_database.cc:208-240 | the two neighbours let a name through if and only if it conflicts with no key or is in the overlooked case |
| SymbolNames.InsertKeepsTableIff | ServerPortfolio/Headers/google/protobuf/descriptor_database.cc:242-249 | inserting a valid name keeps the keys in order with none enclosing another if and only if it conflicts with none |
| SymbolNames.OverlookedExample | ServerPortfolio/Headers/google/protobuf/descriptor_database.cc:208-249 | "foo" is accepted beside "foo.a", and then "foo.b" is not found although "foo" encloses it |
| SymbolNames.LessTransitive | ServerPortfolio/Headers/google/protobuf/descriptor_database.cc:167-173 | the order of the keys is transitive |
| SymbolNames.LessTotal | ServerPortfolio/Headers/google/protobuf/descriptor_database.cc:167-173 | of two different keys one sorts before the other |
| SimpleIndexes.SimpleIndex.AddSymbol | ServerPortfolio/Headers/google/protobuf/descriptor_database.cc:195-250 | accepts exactly the valid names without conflict and the overlooked ones; the table stays in order exactly when nothing was overlooked |
| SimpleIndexes.SimpleIndex.FindSymbol | ServerPortfolio/Headers/google/protobuf/descriptor_database.cc:297-305 | finds the value of the key that equals or encloses the name, and nothing exactly when there is none |
| SymbolOrder.CompareIsLessIff | ServerPortfolio/Headers/google/protobuf/descriptor_database.cc:485-520 | the fast comparison is the order of the full names for every pair of operands except the one misjudged |
| SymbolOrder.CompareIsStrictWeakOrder | ServerPortfolio/Headers/google/protobuf/descriptor_database.cc:485-521 | on named operands it is irreflexive, asymmetric and transitive, and equivalent operands have one full name |
| SymbolOrder.TransitivityBreaksIff | ServerPortfolio/Headers/google/protobuf/descriptor_database.cc:485-521 | for all operands: the comparison is irreflexive and asymmetric, and not transitive for three of them if and only if the outer two are misjudged and the third lies between them, which no valid name does |
| SymbolOrder.EquivalenceBreaksIff | ServerPortfolio/Headers/google/protobuf/descriptor_database.cc:485-521 | for all operands: equivalence is not transitive if and only if the middle one is misjudged with one of the outer two, has the full name of the other, and the outer two are not misjudged |
| SymbolOrder.EmptySymbolBreaksOrder | ServerPortfolio/Headers/google/protobuf/descriptor_database.cc:493-516 | with an empty symbol equivalence is not transitive |
| SymbolOrder.EquivalentIff | ServerPortfolio/Headers/google/protobuf/descriptor_database.cc:503-520 | two operands are equivalent for the set if and only if they have one full name or are a misjudged pair |
| SymbolOrder.NothingBetween | ServerPortfolio/Headers/google/protobuf/descriptor_database.cc:485-520 | no valid name lies between a name and the same name with a dot |
| FileNames.LowerBoundFinds | ServerPortfolio/Headers/google/protobuf/descriptor_database.cc:858-862 | in an ordered vector the search finds the first entry with the name |
| FileNames.FindWithName | ServerPortfolio/Headers/google/protobuf/descriptor_database.cc:636-640 | a new name in the set is found where it was put, and all other names as before |
| FileNames.FindMerged | ServerPortfolio/Headers/google/protobuf/descriptor_database.cc:803-811 | after the merge a name in both is found as the set had it |
| EncodedIndexes.SearchByName | ServerPortfolio/Headers/google/protobuf/descriptor_database.cc:175-182 | searching with the two-part comparison ends where searching the full names ends, or right behind a misjudged entry there, and the key is before all entries from there on |
| EncodedIndexes.NamesOfMerge | ServerPortfolio/Headers/google/protobuf/descriptor_database.cc:803-811 | merging entries by the two-part comparison merges their full names, with or without nameless entries |
| EncodedIndexes.MergeKeepsAll | ServerPortfolio/Headers/google/protobuf/descriptor_database.cc:803-811 | no entry is lost or doubled |
| EncodedIndexes.MergeIsTable | ServerPortfolio/Headers/google/protobuf/descriptor_database.cc:803-811 | two tables whose names do not enclose each other merge into one sorted table with none enclosing another |
| EncodedIndexes.EquivalentIsMisjudged | ServerPortfolio/Headers/google/protobuf/descriptor_database.cc:724-726 | for a name that is let through, the set finds an equivalent entry if and only if the name skipped a nameless entry |
| EncodedIndexes.AcceptedKeepsIndexIff | ServerPortfolio/Headers/google/protobuf/descriptor_database.cc:691-728 | what both checks let through keeps the union of both containers in order, named or not, if and only if no conflict was let through to be stored |
| EncodedIndexes.DroppedIsLost | ServerPortfolio/Headers/google/protobuf/descriptor_database.cc:691-728 | an accepted name that the set drops is enclosed by no entry of either container, so a lookup does not find it |
| EncodedIndexes.NamelessExample | ServerPortfolio/Headers/google/protobuf/descriptor_database.cc:663-728 | "a" beside a nameless entry of package "a" is let through: beside the set it is dropped, beside the vector it is stored and spoils the table |
| EncodedIndexes.EncodedIndex.BeginFile | ServerPortfolio/Headers/google/protobuf/descriptor_database.cc:621-644 | a file is refused if its package is invalid or its name known; its value is recorded either way, and a name known to the vector only is found as the refused file from then on |
| EncodedIndexes.EncodedIndex.CheckForMutualSubsymbols | ServerPortfolio/Headers/google/protobuf/descriptor_database.cc:663-689 | one container lets a name through exactly when it conflicts with none of its names, is overlooked, or skips a nameless entry |
| EncodedIndexes.EncodedIndex.AddSymbol | ServerPortfolio/Headers/google/protobuf/descriptor_database.cc:691-728 | accepts exactly what is valid and let through by both containers; the set takes it unless it has an equivalent entry, and the union stays in order exactly when the entry does not spoil it |
| EncodedIndexes.EncodedIndex.EnsureFlat | ServerPortfolio/Headers/google/protobuf/descriptor_database.cc:813-819 | afterwards the vectors hold all entries of both, in order, and every file name is found as before |
| EncodedIndexes.EncodedIndex.FindFile | ServerPortfolio/Headers/google/protobuf/descriptor_database.cc:853-863 | finds for every name what the set has, or else what the vector has, and nothing exactly when neither has it |
| EncodedIndexes.EncodedIndex.FindSymbolOnlyFlat | ServerPortfolio/Headers/google/protobuf/descriptor_database.cc:776-786 | the search of the vector finds the value of the entry that encloses the name, or nothing exactly when there is none |
| EncodedIndexes.EncodedIndex.FindSymbol | ServerPortfolio/Headers/google/protobuf/descriptor_database.cc:770-774 | for any interleaving of adds and merges, the value of the entry in either container that equals or encloses the name |
| EncodedIndexes.RefusedFileIsFound | ServerPortfolio/Headers/google/protobuf/descriptor_database.cc:621-644 | a second file of a name is refused after a merge, and then found under that name |
| ImportLoading.BuiltIsGood | ServerPortfolio/Headers/google/protobuf/descriptor.cc:4999-5053 | every file of the pool has all its transitive imports in the database and lies on no infinite chain of imports; its position bounds the chains |
| ImportLoading.NoBuiltFileOnCycle | ServerPortfolio/Headers/google/protobuf/descriptor.cc:4880-4885 | no file of the pool is on a cycle of imports |
| ImportLoading.PendingAgainIsBad | ServerPortfolio/Headers/google/protobuf/descriptor.cc:4880-4885 | a file asked for while it is pending is on a cycle |
| ImportLoading.CycleIsNotGood | ServerPortfolio/Headers/google/protobuf/descriptor.cc:4871-4885 | no file on a cycle can be built |
| ImportLoading.Pool.TryFindFileInFallbackDatabase | ServerPortfolio/Headers/google/protobuf/descriptor.cc:2445-2459 | terminates on any import graph; adds only files whose imports are built before them, and none that is pending; records a failure, and as bad no file that is in the pool |
| ImportLoading.Pool.BuildFileFromDatabase | ServerPortfolio/Headers/google/protobuf/descriptor.cc:4169-4182 | builds the file if it can be built, or records it as bad; adds only files whose imports are built before them, and none that is pending |
| ImportLoading.Pool.BuildFile | ServerPortfolio/Headers/google/protobuf/descriptor.cc:4851-4920 | the pending list is as before; a failed build leaves no trace of the file; a file that can be built is built |
| ImportLoading.Pool.LoadDependencies | ServerPortfolio/Headers/google/protobuf/descriptor.cc:4887-4904 | afterwards all imports of a file that can be built are there |
| ImportLoading.Pool.BuildFileImpl | ServerPortfolio/Headers/google/protobuf/descriptor.cc:4970-5053 | succeeds exactly when the name is usable and new, no import is listed twice, all imports were built before, and the other checks pass |
| ImportLoading.Pool.FindFileByName | ServerPortfolio/Headers/google/protobuf/descriptor.cc:2031-2049 | finds no file that cannot be built; if files fail for no other reason than their imports, finds exactly those that can be |
| ScopeLookup.Builder.RecordPublicDependencies | ServerPortfolio/Headers/google/protobuf/descriptor.cc:4270-4275 | adds, for every file added, all it imports publicly, and nothing that closure does not demand |
| ScopeLookup.Builder.BuildDependencySet | ServerPortfolio/Headers/google/protobuf/descriptor.cc:5078-5087 | the dependency set is the least set with the imports that is closed under public imports |
| ScopeLookup.Builder.FindSymbol | ServerPortfolio/Headers/google/protobuf/descriptor.cc:4317-4354 | finds a symbol if and only if dependencies are not enforced, or it is of this file or one it depends on, or is a package that one of these files is in |
| ScopeLookup.Builder.TryScope | ServerPortfolio/Headers/google/protobuf/descriptor.cc:4396-4424 | one round decides exactly when the first part of the name is a package, message, enum or service, or, for a simple name, of a kind that is wanted |
| ScopeLookup.Builder.LookupSymbolNoPlaceholder | ServerPortfolio/Headers/google/protobuf/descriptor.cc:4356-4429 | the innermost enclosing scope that decides gives the result, even if the rest is undefined there, and only without one the bare name is looked up |
| ScopeLookup.Builder.InnermostInComponents | ServerPortfolio/Headers/google/protobuf/descriptor.cc:4386-4395 | in terms of components: the scopes tried are the proper prefixes of the component list from the longest on, and the first that decides is taken |
| ScopeLookup.JoinSplit | ServerPortfolio/Headers/google/protobuf/descriptor.cc:4386-4395 | every scope is the join of its components |
| ScopeLookup.SplitJoin | ServerPortfolio/Headers/google/protobuf/descriptor.cc:4386-4395 | no other list of components without dots joins to the same scope |
| ScopeLookup.ChopIsLastComponent | ServerPortfolio/Headers/google/protobuf/descriptor.cc:4389-4395 | erasing from the last dot chops off exactly the last component |
| ScopeLookup.EnclosesByComponents | ServerPortfolio/Headers/google/protobuf/descriptor_database.cc:185-192 | one name encloses another if and only if its components are the first ones of the other |
| ScopeLookup.ValidByComponents | ServerPortfolio/Headers/google/protobuf/descriptor_database.cc:150-162 | a name is valid if and only if its components consist of letters, digits and underscores |
| NumberTables.SequentialFieldLimit | ServerPortfolio/Headers/google/protobuf/descriptor.cc:5203-5208 | the longest run 1, 2, 3, ... at the start of the fields, cut at 65535 |
| NumberTables.SequentialValueLimit | ServerPortfolio/Headers/google/protobuf/descriptor.cc:5778-5785 | the last position of the longest run of consecutive numbers at the start of the values, cut in the same way |
| NumberTables.EnumTables.AddEnumValueByNumber | ServerPortfolio/Headers/google/protobuf/descriptor.cc:1733-1741 | the table keeps, outside the run, the first value added with each number; returns true exactly if the number is in the run or was new |
| NumberTables.EnumTables.FindEnumValueByNumber | ServerPortfolio/Headers/google/protobuf/descriptor.cc:1560-1577 | equals linear search: the first declared value with the number, aliases or not |
| NumberTables.FieldTables.AddFieldByNumber | ServerPortfolio/Headers/google/protobuf/descriptor.cc:1717-1731 | accepts a field exactly when no accepted field has its number in its message and, within the run, it is the field at that position |
| NumberTables.FieldTables.FindFieldByNumber | ServerPortfolio/Headers/google/protobuf/descriptor.cc:2236-2243 | if all fields of a message were accepted, the lookup equals linear search and the field found is the only one; extensions are never returned |
| StylizedNames.FirstIs | ServerPortfolio/Headers/google/protobuf/descriptor.cc:1700-1712 | the field that counts for a key is the one at the first position that has it |
| StylizedNames.NameIndex.AddFieldByStylizedNames | ServerPortfolio/Headers/google/protobuf/descriptor.cc:1689-1714 | after each field, what is stored is the first with its key and every conflict is stored |
| StylizedNames.NameIndex.FinalizeTables | ServerPortfolio/Headers/google/protobuf/descriptor.cc:1683-1687 | dropping the temporary map loses no conflict |
| StylizedNames.NameIndex.LazyInit | ServerPortfolio/Headers/google/protobuf/descriptor.cc:1517-1525 | walking the hash set in any order stores for every field's key the first cross-linked field |
| StylizedNames.NameIndex.FindFieldByLowercaseName | ServerPortfolio/Headers/google/protobuf/descriptor.cc:1527-1534 | the lookup gives the field with the key that was cross-linked first, or nothing exactly when there is none |
| Utf8Scan.TableIsSyntax | ServerPortfolio/Headers/google/protobuf/stubs/structurally_valid.cc:125-314 | from state 0 the state table takes exactly the byte sequences that RFC 3629 allows for one character: no overlong forms, surrogates or values above U+10FFFF |
| Utf8Scan.ScanGroup | ServerPortfolio/Headers/google/protobuf/stubs/structurally_valid.cc:420-443 | one aligned group of eight bytes is skipped, or the scan stops in front of the half with a byte that is not ASCII, although the quick test is inexact |
| Utf8Scan.SkipFast | ServerPortfolio/Headers/google/protobuf/stubs/structurally_valid.cc:407-444 | the fast scan skips ASCII bytes only, reads words at aligned addresses only, and stops within seven bytes of the end or three of a byte that is not ASCII |
| Utf8Scan.BackUp | ServerPortfolio/Headers/google/protobuf/stubs/structurally_valid.cc:467-481 | backing up over continuation bytes ends at the lead byte of the incomplete character |
| Utf8Scan.GenericScan | ServerPortfolio/Headers/google/protobuf/stubs/structurally_valid.cc:387-494 | consumes exactly the well-formed characters from the start on; the exit code says whether the end, a surrogate or anything else stopped it |
| Utf8Scan.GenericScanFastAscii | ServerPortfolio/Headers/google/protobuf/stubs/structurally_valid.cc:496-534 | consumes exactly the well-formed characters from the start on, behind a second fast scan over ASCII words |
| Utf8Scan.IsStructurallyValidUTF8 | ServerPortfolio/Headers/google/protobuf/stubs/structurally_valid.cc:555-562 | for every buffer at any address, accepts exactly valid UTF-8, or everything before static initialization |
| Utf8Scan.SpnStructurallyValid | ServerPortfolio/Headers/google/protobuf/stubs/structurally_valid.cc:564-571 | gives the length of the longest valid prefix, or everything before static initialization |
| Utf8Scan.SpanIsLongestValid | ServerPortfolio/Headers/google/protobuf/stubs/structurally_valid.cc:564-571 | the run of well-formed characters is valid, and no longer piece from the same start is |
| Utf8Scan.CoerceToStructurallyValid | ServerPortfolio/Headers/google/protobuf/stubs/structurally_valid.cc:585-611 | the result is valid, has the same length and differs only in replaced bytes; it equals the source if and only if that is valid or static initialization is still to come |
| Utf8Scan.CoercedByChunks | ServerPortfolio/Headers/google/protobuf/stubs/structurally_valid.cc:594-609 | the result is the good characters in front, one replacement for the bad byte behind them, and the rest treated in the same way |
| Utf8Scan.ValidIffEncoded | ServerPortfolio/Headers/google/protobuf/stubs/structurally_valid.cc:555-562 | the texts accepted are exactly the encodings of sequences of Unicode scalar values |
| Utf8Scan.EncodeKeepsOrder | ServerPortfolio/Headers/google/protobuf/stubs/structurally_valid.cc:555-562 | byte by byte, the encodings are in the order of the scalar values |
| Utf8Scan.DecodeRoundTrip | ServerPortfolio/Headers/google/protobuf/stubs/structurally_valid.cc:555-562 | every valid text decodes to scalar values that encode to it |

## Left out

- RollbackTo: the checkpoint of the arena is stored as an int by the pool tables; the model does not cut it to 32 bits.
- Create: untracked types of more than 239 words, for which the tag byte wraps around (UntrackedTagIff), are excluded by its requires; destructors of the tracked objects and the memory of out-of-line allocations are not modelled, only which allocation is destroyed and in which order.
- Destroy: the order in which the blocks are visited follows the lists and is not stated.
- AllocateInternal: the path without a destructor is AllocateAligned; recording of allocations and type information are left out.
- CleanupList: the pointer difference is rounded to whole nodes as compiled code does; C++ leaves a difference of misaligned pointers undefined. Destructor bodies are left out.
- AllocateNewBlock: overflow of sizes near the top of the address space, custom block allocators and address-sanitizer poisoning are left out.
- Reset: storage of the allocation policy inside the first block, metrics hooks and the space reported for them are left out; so is ThreadSafeArena::SpaceUsed, which subtracts that storage.
- StepKeepsInv: memory orderings are sequentially consistent; a thread cache lives as long as its thread id, so reuse of a cache address by a later thread is not modelled, nor is 64-bit wrap-around of lifecycle ids.
- InternalParse: the chunked input buffers are not part of this model, nor what a failed parse leaves in the message; text is checked as after static initialization. A set of unknown fields is a sequence, and a group is added when it has been read instead of being filled in place.
- ConcatenationMerges: inputs longer than INT_MAX are excluded by its requires, since sizes of a parse are ints.
- FieldParser: end-group tags, which its callers handle and on which it would abort, are excluded by its requires.
- InternalSerialize: the output stream's buffering is not modelled; what the source writes after reading behind an empty list with a stale cached size is undefined, and one result, None, stands for it.
- ByteSizeLong: of sizes above INT_MAX only that they are above it is stated; size_t does not wrap around.
- BuffData and TEST_MSG: accessors, swap, reflection and arena ownership of strings are left out; a float is its 32 raw bits.
- GenericScan: the state table is given by ranges, and the quick test on a word byte by byte; the loop for an exit code that the table does not contain and the other fields of the table object are left out.
- SimpleIndex and EncodedIndex: the file table of the first and the extension tables of both are left out; they are plain ordered maps. A set or map is a sequence in key order, and std::upper_bound, std::lower_bound, std::merge and the insertion into a set are functions over it.
- EncodedIndex.AddSymbol: after an entry that spoils the table the invariant is gone, and later calls are not described.
- EncodedIndex.BeginFile: the loops of AddFile over the symbols and extensions of the file are left out; AddSymbol is one round of them.
- Pool.BuildFileImpl: cross-linking and all other checks of a file are one oracle over the file and the files before it; that cross-linking may itself load files, lazy import building, weak dependencies, allow_unknown and underlays are left out, and so are the symbols and extensions a failed build rolls back, which the pool tables cover.
- Pool.BuildFile: identity with a file already there is an oracle too; the database is assumed to return the file it was asked for.
- Builder: the underlay, loading of files for an unknown symbol, and the fields that only serve error messages, except the name of an undefined resolved symbol, are left out.
- EnumTables.FindEnumValueByNumber: dynamic values for unknown numbers are left out.
- NameIndex: the camel-case index is the same code on another name; call_once is a flag, and lookups before the file is built are excluded.
- Option interpretation, text format, debug strings and error texts of descriptor.cc: they lean on reflection code outside this model.
- The server's own queues, buffers, sessions and sockets: I/O, declarations or one-line bodies, which would only add easy members.
- any.pb, api.pb, duration.pb and the second copy of Protocol.pb.cc: the same generated pattern again.
