# A verified model of the metapool allocator and its containers

This project models three parts of the repository and proves what they are for.

**The work-stealing deque** (`container/chaselev.hpp`). One owner pushes and pops at the bottom,
any number of thieves steal at the top. The model is a state machine in which every turn is one
atomic load, store, compare-and-swap or slot access (`ChaseLevProtocol`). The specification is a
bounded deque whose operations are indivisible (`AtomicDeque`); it knows no ring, index or slot.
Every interleaving is simulated by it (`ChaseLevRefinement`), so the deque is linearizable, and
no value is lost or handed out twice (`ChaseLevRuns`). While a pop and some thieves contend for
the last item, every steal that begins finds the deque empty; the simulation therefore looks
ahead in the run and gives the item at once to the party that will get it. `ChaseLevProgress`
adds what safety leaves open: every call returns after a fixed number of its own accesses, and a
call left alone has its effect. `ChaseLevDeque` is the class: its `OwnerStep` and `ThiefStep` are
the turns of the machine, done in place.

**The allocator** (`mtp/`). One array of bytes holds everything. A block's payload is followed,
inside the same stride, by the 2-byte header of the next block; the link of a free block lies in
the first 8 bytes of its payload (`Memory`, `Pools`). `Heaps` says when such a memory is intact,
`HeapRuns` proves it of every run of allocations, frees, resets and arbitrary writes by owners
into their payloads. `Lookup` relates the masks and shifts of `lookup` to a linear search when
steps are powers of two, `OddSteps` decides when that works for other steps, `Service` says which
blocks a request can be given and when all of them are aligned and large enough (`Alignment`
holds the arithmetic). `Metapool`, `Metaset`, `StrideRanges` and `AllocatorConfigs` model the
compile-time layout and its checks, `Arena`, `Build` and `Construction` the carving of the arena,
`Freelists` and `Allocators` the classes that do the work in place. `SharedAllocator.Create` puts
them together: a valid metaset, constructed in any order, gives an allocator with the strides and
block counts of the set and every block free, and `Guarantees` says what a request to it gets.
`Bits` and `IntMath` hold the word arithmetic; bitwise `and` is defined bit by bit, so that "mask
is remainder" and "shift is quotient" are theorems.

**The growable array** (`container/slag.hpp`). `Slags` tracks every slot of the storage as raw,
live or moved-from, so that a construction over a live object or a destructor on a raw slot
would be a failed precondition, and bounds the cost of growing over whole runs.

## Assumptions

- Sequentially consistent interleaving. The proof of the deque needs the store of `m_bottom` at
  `container/chaselev.hpp:164` to be visible before the load of `m_top` at line 166; the relaxed
  and acquire orders written there do not give that by themselves. A slot access is one step.
- Indices of the deque are unbounded naturals; `ChaseLevRuns.IndicesBounded` shows that they do
  not exceed the number of pushes, so 64 bits suffice for runs below 2^64 pushes.
- Addresses count from the arena's start, which is aligned to 4096 bytes; 0 is null (no block
  lies there, as every pool leaves room for its first header). Addresses fit in 48 bits.
- The base block count of a metapool is a 32-bit word where counts are stated in numbers
  (`mtp/metapool_config.hpp:122`).
- Failed asserts and fatal errors are preconditions, or outcomes (`NoMatch`, `Exhausted`,
  `NoFit`, `Failed`, `Nothing`) where the code decides at run time.
- Preconditions the code does not enforce, stated in `SharedAllocator.ValidSet` and `Create`:
  stride steps are powers of two (`readme.md:197`; the check is skipped for a single metapool,
  `mtp/metaset.hpp:229-234`), metapools are declared in ascending order, and no pool but the last
  to be constructed has 4 GiB or more, because the product at `mtp/metapool.hpp:46` is a 32-bit
  one. What happens otherwise is stated in the next section, for each of the three as an exact
  condition. `free` is given null or a block in use.
- Every lemma carries `{:induction false}`: induction is always written out.

## Where the code and its documentation differ

- `readme.md:183` says that alignment is always resolved by choosing the stride. All blocks a
  request can be given are aligned exactly when the alignment divides every stride from the first
  choice on, pools of a single block excepted (`Service.AlignedIff`); fallback and clamping to the
  smallest stride can both break it (`FallbackMisaligns`, `ClampMisaligns`). Every block is on the
  8-byte quantum.
- `readme.md:197` limits steps to 8 MB; the code allows 512 MiB (`mtp/metapool_config.hpp:26`).
- `readme.md:238` says ranges must not overlap. The compile-time check accepts interleaved ranges
  as long as no stride value is shared, and then fallback can serve a block that is too small
  (`Service.InterleavedTooSmall`). An accepted set falls back safely exactly when its ranges do not
  overlap (`Service.AcceptedFallsBackIff`).
- The limit of 8 GiB on the arena (`mtp/metaset.hpp:218`) admits pools whose 32-bit size wraps.
  Construction succeeds exactly when every pool but the last has a size below 2^32 and the last a
  size that is not a multiple of it (`Build.BuiltIff`, `SharedAllocator.ProductWraps`).
- The order of declaration matters, which no document says: `free` finds the pool of every block
  exactly when metapools are declared in ascending order (`Metaset.FreeFindsPoolIffAscending`).
  In other orders the walk that fills the table of proxies can also leave it; it stays inside
  exactly when no metapool, started where the sorted counts put it, reaches past their sum
  (`MakeProxies`, `StaysInsideIff`). `AllocatorConfigs.DescendingDeclaration` has two metapools
  that pass every check and fail in both ways.
- The example of the documentation counts one stride too few for its ranges (`readme.md:256`, 262):
  both ends are strides, so there are 23 and 17. And it names two pivots at which the block count
  doubles; it also doubles at the last, so stride 192 has 1024 blocks
  (`SharedAllocator.ExampleIsValid`).
- A step that is no power of two is refused in a set of several metapools but accepted in a set of
  one. Lookup is then right for all requests only if there is a single stride, and that stride at
  one place between two multiples of the next power of two (`OddSteps.SingleMetapoolIff`).
- A stride of 8 bytes leaves no room between a link and the next header. It works for flat index
  0, whose header bytes equal the zero bytes of a link, and for a single block, and for nothing
  else (`Pools.InitializeSoundIff`). A valid set has at most one stride of 8, and at index 0.
- A steal may return false although items are inside: when an item that was the oldest at some
  moment of the call has been taken by somebody else (`AtomicDeque.Allowed`). Two thieves and two
  items suffice (`ChaseLevRuns.StealLosesRace`). There is no other case: a steal that arrives
  while the last item is contested can be taken to find the deque empty.

## Model

| member | source | states |
|---|---|---|
| ChaseLevProtocol.SlotIsMod | container/chaselev.hpp:246-249 | masking an index by capacity - 1 is its remainder by the capacity |
| ChaseLevProtocol.WriteKeepsOthers | container/chaselev.hpp:135-137 | writing the slot of an index disturbs no other index within one lap, although slots are reused |
| ChaseLevProtocol.InitInv | container/chaselev.hpp:305-309 | a freshly constructed deque satisfies the invariant |
| ChaseLevProtocol.OwnerKeepsCore | container/chaselev.hpp:126-190 | no turn of the owner lets the occupancy exceed the capacity, the logical bottom fall below top, or a local go stale |
| ChaseLevProtocol.ThiefInvPreserved | container/chaselev.hpp:192-212 | a thief's loaded index and item stay sound under its own turns: they can only be stale if top has moved |
| ChaseLevProtocol.InvPreserved | container/chaselev.hpp:126-212 | every turn of every party keeps the invariant, for any number of thieves |
| ChaseLevProtocol.NeverOutOfBounds | container/chaselev.hpp:126-212 | no slot access of any party is out of bounds in a reachable state |
| ChaseLevRefinement.OwnerEffect | container/chaselev.hpp:126-190 | a turn of the owner appends the pushed item, drops the newest, or leaves the contents alone |
| ChaseLevRefinement.NewestItem | container/chaselev.hpp:168-189 | what a pop takes, with or without a compare-and-swap, is the newest item inside |
| ChaseLevRefinement.WinningStealTakesOldest | container/chaselev.hpp:202-211 | the item read before a winning compare-and-swap is the oldest one inside when it wins |
| ChaseLevRefinement.OtherThiefTurn | container/chaselev.hpp:194-211 | every other turn of a thief, a losing compare-and-swap included, leaves the contents alone |
| ChaseLevRefinement.Uncontested | container/chaselev.hpp:126-212 | while nothing is contested, whatever turn is taken, the atomic deque can take the matching action and the two stay related |
| ChaseLevRefinement.TakeAhead | container/chaselev.hpp:156-212 | when a pop holds the last item open, the atomic deque can already give it to whoever will get it, and every other thief inside has lost |
| ChaseLevRefinement.Contested | container/chaselev.hpp:156-212 | while the last item is contested, every turn is matched too, a steal that begins finds nothing, and the contest ends when top moves |
| ChaseLevRuns.TakerAtDoor | container/chaselev.hpp:198-209 | a thief that will get the contested item had passed its check of bottom before the contest began |
| ChaseLevRuns.StepSimulated | container/chaselev.hpp:126-212 | each turn of a run is matched by actions that show callers the same, look-ahead included |
| ChaseLevRuns.SimulatedRun | container/chaselev.hpp:126-212 | a whole run and its matching atomic run show their callers the same calls and results |
| ChaseLevRuns.Linearizable | container/chaselev.hpp:126-212 | from any state nobody is inside of, whatever the interleaving, callers see what an atomic bounded deque could have shown them: push is refused only when full, pop only when empty, takes are newest or oldest, a steal fails only on an empty deque or after somebody else took an item that was the oldest during the call |
| ChaseLevRuns.FailureHasReason | container/chaselev.hpp:192-212 | where the atomic deque lets a steal fail, it is empty, or its oldest item has been taken out in the meantime |
| ChaseLevRuns.StealLosesRace | container/chaselev.hpp:192-212 | from every state with an idle owner, two items and two idle thieves, a run in which one steal returns nothing although an item is still inside |
| ChaseLevRuns.RunKeepsInv | container/chaselev.hpp:126-212 | the invariant holds after every run and top never goes back |
| ChaseLevRuns.StepConserves | container/chaselev.hpp:126-212 | in every turn each value is conserved between inside, pop under way, stolen and popped |
| ChaseLevRuns.ItemsConserved | container/chaselev.hpp:126-212 | over every run each value was inside or pushed as often as it was stolen, popped, is inside or held by the pop under way |
| ChaseLevRuns.IndicesBounded | container/chaselev.hpp:126-212 | top and bottom never exceed the number of pushes |
| ChaseLevProgress.PushWaitFree | container/chaselev.hpp:126-139 | whatever the thieves do, a push returns after at most 4 accesses of its own, and until then it can always make the next |
| ChaseLevProgress.PopWaitFree | container/chaselev.hpp:156-190 | a pop after at most 6 |
| ChaseLevProgress.StealWaitFree | container/chaselev.hpp:192-212 | a steal after at most 4, whatever the owner and the other thieves do |
| ChaseLevProgress.PushAlone | container/chaselev.hpp:126-139 | run alone from any state, a push is called and answered: accepted, with the item behind the others, exactly when there is room |
| ChaseLevProgress.PopAlone | container/chaselev.hpp:156-190 | run alone, a pop is answered with the newest item, which leaves, or with nothing exactly when empty |
| ChaseLevProgress.StealAlone | container/chaselev.hpp:192-212 | run alone, a steal is answered with the oldest item, which leaves, or with nothing exactly when empty |
| ChaseLevProgress.FailedStealExplained | container/chaselev.hpp:192-212 | in terms of the indices: a steal returns nothing only if during its call bottom was at or below top, or somebody else moved top |
| ChaseLevDeque.BitCeil | container/chaselev.hpp:227 | the least power of two not below its argument |
| ChaseLevDeque.ChaseLev.constructor | container/chaselev.hpp:42-44 | a new deque is empty, without storage, in the initial state of the protocol |
| ChaseLevDeque.ChaseLev.OwnerStep | container/chaselev.hpp:126-190 | one access of push or pop on the fields is one turn of the protocol |
| ChaseLevDeque.ChaseLev.ThiefStep | container/chaselev.hpp:192-212 | one access of steal on the fields is one turn of the protocol |
| ChaseLevDeque.ChaseLev.PushBottom | container/chaselev.hpp:126-139 | uninterrupted, a push appends and succeeds exactly when there is room |
| ChaseLevDeque.ChaseLev.PopBottom | container/chaselev.hpp:156-190 | uninterrupted, a pop takes the newest item, or nothing exactly when empty |
| ChaseLevDeque.ChaseLev.StealTop | container/chaselev.hpp:192-212 | uninterrupted, a steal takes the oldest item, or nothing exactly when empty |
| ChaseLevDeque.ChaseLev.Clear | container/chaselev.hpp:120-124 | empties a deque nobody is inside of |
| ChaseLevDeque.ChaseLev.Reserve | container/chaselev.hpp:214-242 | reserving keeps the items in order, even if there are some, and gives the least sufficient power of two |
| ChaseLevDeque.ChaseLev.MoveToNewStorage | container/chaselev.hpp:265-286 | the two block copies put the item of index top + k into slot k |
| ChaseLevDeque.WindowUnrolled | container/chaselev.hpp:237-241 | a ring that holds the items from slot 0 on has the same contents |
| Memory.DecodeEncode | mtp/freelist.hpp:64-68 | a number survives being stored byte by byte |
| Memory.StoredLink | mtp/freelist.hpp:90-92 | a stored link is read back, and its two top bytes are zero |
| Memory.StoreLink | mtp/freelist.hpp:90-92 | storing a link changes its eight bytes and nothing else |
| Memory.LoadHeader | mtp/allocator.hpp:85-89 | the two header bytes, low byte first, give the flat index |
| Memory.StoreHeader | mtp/freelist.hpp:52-55 | storing a header changes its two bytes, low byte first by masks and shift, and the index is read back |
| Pools.BlocksApart | mtp/freelist.hpp:49 | distinct blocks of a pool do not overlap |
| Pools.ChainUnique | mtp/freelist.hpp:73-81 | the links determine the free sequence |
| Pools.InitializeSound | mtp/freelist.hpp:32-70 | initialize threads all blocks in address order, null at the end, every header the pool's index, nothing else touched |
| Pools.InitializeSoundIff | mtp/freelist.hpp:32-70 | that holds exactly when stride is at least 16, or the flat index is 0, or there is one block |
| Pools.UnsoundBreaks | mtp/freelist.hpp:52-64 | with stride 8, several blocks and another index, the first link leads nowhere |
| Pools.ResetSound | mtp/freelist.hpp:95-107 | from any state of the links reset rebuilds the chain initialize built and keeps all headers |
| Freelists.Freelist.constructor | mtp/freelist.hpp:21 | a new freelist is empty and unplaced |
| Freelists.Freelist.Initialize | mtp/freelist.hpp:32-70 | the loop of header and link stores leaves exactly the memory InitBlocks describes, head at the first block |
| Freelists.Freelist.Fetch | mtp/freelist.hpp:73-81 | hands out the head and follows its link, null when empty, no byte changed |
| Freelists.Freelist.Release | mtp/freelist.hpp:83-93 | links the block to the old head and makes it the head |
| Freelists.Freelist.Reset | mtp/freelist.hpp:95-107 | the walk that links each block to the next leaves exactly the memory ResetLinks describes |
| Heaps.LinkTouches | mtp/freelist.hpp:90-92 | linking a block in a sound layout changes that block only, neighbour header included |
| Heaps.PayloadTouches | mtp/metapool.hpp:48-52 | writing the bytes an owner has changes that block only, neighbour header excluded |
| Heaps.OtherBlockKept | mtp/freelist.hpp:48-55 | touching one block keeps header, link and payload of every other block of every pool |
| Heaps.TouchKeepsHeap | mtp/freelist.hpp:32-93 | touching a block in use keeps every header and every chain |
| Heaps.ChainPop | mtp/freelist.hpp:73-81 | taking the head leaves the chain of the rest, which does not contain the head |
| Heaps.ChainPush | mtp/freelist.hpp:83-93 | releasing a block that is not free puts it in front of the chain, still without repetition |
| HeapRuns.TakeRefines | mtp/allocator.hpp:60-76 | alloc serves the front of the first non-empty freelist at or above its choice, fails only when all of those are empty; the block was free and is in use afterwards; no byte changes |
| HeapRuns.HeaderLeadsHome | mtp/allocator.hpp:85-94 | the header of a block in use names the freelist it came from |
| HeapRuns.GiveBackRefines | mtp/allocator.hpp:80-95 | free puts the block in front of the freelist it came from and keeps the heap intact |
| HeapRuns.WriteRefines | mtp/metapool.hpp:48-52 | whatever an owner writes into its payload keeps the heap intact |
| HeapRuns.ResetRefines | mtp/allocator.hpp:180-185 | reset, whatever is in use, restores the state the allocator was built in |
| HeapRuns.StepKeepsHeap | mtp/allocator.hpp:50-185 | each operation keeps the heap intact |
| HeapRuns.RunKeepsHeap | mtp/allocator.hpp:50-185 | after every run all headers name their pools and all freelists are acyclic null-ended chains through exactly the free blocks |
| HeapRuns.BlocksConserved | mtp/freelist.hpp:73-93 | free blocks and blocks in use together are exactly the block count of the pool |
| HeapRuns.PayloadsDisjoint | mtp/freelist.hpp:48-55 | a payload in use overlaps no other payload, no header and no link of a free block |
| HeapRuns.StepSparesOwner | mtp/allocator.hpp:50-95 | no operation of anybody else changes a byte of a block in use or hands it out again |
| HeapRuns.RunSparesOwner | mtp/allocator.hpp:50-95 | a block in use keeps contents and owner through any run that neither writes to it, frees it nor resets |
| HeapRuns.FreeUndoesAlloc | mtp/allocator.hpp:60-94 | alloc, even by fallback, then any writes by owners, then free of that block leaves every freelist as it was |
| HeapRuns.RoundTrip | mtp/allocator.hpp:50-95 | as one run: allocate, writes by owners, free is legal and leaves every free sequence as it was |
| HeapRuns.WrittenIsRead | mtp/metapool.hpp:48-52 | what an owner writes it reads back after any run of other operations |
| HeapRuns.CallersMay | mtp/allocator.hpp:50-185 | which operations the runs are about: any allocation or reset, and frees and writes by whoever holds the block |
| Lookup.TryRange | mtp/allocator.hpp:203-213 | the loop body computes hit and index as specified on 32-bit words |
| Lookup.LookupIndex | mtp/allocator.hpp:189-230 | the loop with early return is the recursive scan |
| Lookup.NeedIsLeast | mtp/allocator.hpp:197-199 | the aligned size is the least number that has room for payload and header and is divisible by 8 and by the alignment asked for |
| Lookup.SmallAlignment | mtp/allocator.hpp:198 | any alignment below the quantum changes nothing |
| Lookup.ValidAlignmentIff | readme.md:183 | lookup is proved for every alignment up to 8 and every power of two up to 4096 |
| Lookup.RoundUpExact | mtp/allocator.hpp:199-205 | the rounding idiom is exact while it does not wrap |
| Lookup.RoundUpWraps | mtp/allocator.hpp:199-205 | a word that wraps while being rounded becomes 0 |
| Lookup.IndexInExact | mtp/allocator.hpp:210-218 | masked offset and shift give the number of steps above the smallest stride, inside the range |
| Lookup.OffsetOnStep | mtp/allocator.hpp:215-216 | for ranges on their step the assert on the masked offset never fires |
| Lookup.RangeSearch | mtp/allocator.hpp:203-213 | a range serves a need exactly when the rounded need is within stride_max, from its first stride that is large enough |
| Lookup.LookupIsSearch | mtp/allocator.hpp:189-230 | lookup is a linear search for the first stride that holds the rounded size plus header, no match exactly when none does |
| Lookup.GigabyteInRange | mtp/allocator.hpp:197-205 | for sizes up to 1 GiB, alignments up to 4096 and any valid table no sum wraps |
| Lookup.LookupIsSearchIff | mtp/allocator.hpp:189-230 | for every 32-bit size that is so exactly when no intermediate sum wraps, or the size is 2^32 - 1 and every stride is below the alignment |
| Alignment.FallbackFits | mtp/allocator.hpp:62-74 | in an ascending table every stride from the first choice on holds the request and its header; Service.FallbackHoldsIff has the exact condition |
| Alignment.PoolAlignedIff | mtp/freelist.hpp:49 | all blocks of a pool have an alignment exactly when it divides the stride, or there is one block |
| Alignment.FirstChoiceAligned | mtp/allocator.hpp:197-213 | the first choice has the requested alignment unless the need was raised to a smallest stride |
| Alignment.ClampedIff | mtp/allocator.hpp:210-213 | a need is clamped exactly when it is found at the first stride of a range above the need rounded to its step |
| Alignment.AllStridesAligned | mtp/metapool.hpp:72-76 | an alignment that divides every step divides every stride |
| Service.ServedIsBlock | mtp/allocator.hpp:60-76 | whatever was allocated, freed, written or reset before, what is served is a block of a pool at or above the first choice |
| Service.EveryBlockServed | mtp/allocator.hpp:60-76 | from a fresh allocator some run of allocations makes any block of any pool at or above the first choice the next to be served |
| Service.OnQuantum | mtp/monotonic_arena.hpp:48-58 | every block of a page-aligned pool is a multiple of 8 |
| Service.AlignedIff | mtp/allocator.hpp:50-77 | all blocks a request can be given have its alignment exactly when that divides every stride from the first choice on, pools of one block excepted; all are multiples of 8 |
| Service.ServedAligned | mtp/allocator.hpp:50-77 | a block the first choice serves unclamped is aligned as requested, and any served block is if the alignment divides every step |
| Service.FallbackMisaligns | mtp/allocator.hpp:62-74 | a legal run after which a request aligned to 64 is given, by fallback, a block 8 bytes off |
| Service.ClampMisaligns | mtp/allocator.hpp:210-211 | a legal run after which the clamped first choice gives such a block |
| Service.FallbackHoldsIff | mtp/allocator.hpp:62-74 | every stride from the first choice of any request on holds it exactly when the flat table never descends |
| Service.ServedHoldsIff | mtp/allocator.hpp:50-77 | every block that can be served to any request is large enough for it exactly when the flat table never descends |
| Service.AcceptedFallsBackIff | mtp/metaset.hpp:173-195 | a table that passes validation falls back safely exactly when its ranges do not overlap |
| Service.InterleavedTooSmall | mtp/metaset.hpp:173-195 | interleaved ranges that pass validation, and a legal run after which a request for 62 bytes is given a block of stride 48 |
| IntMath.IntPow | mtp/math.hpp:12-31 | repeated squaring with wrapped products is the power modulo the word size |
| Bits.Log2Exact | mtp/math.hpp:54-63 | counting halvings gives the exponent of a power of two, and the floor of the logarithm otherwise |
| Bits.PowerOfTwoTest | mtp/metaset.hpp:160-161 | n & (n - 1) vanishes exactly for powers of two |
| Bits.RoundUpMask | mtp/allocator.hpp:199 | the mask idiom gives the least multiple not below its argument |
| Bits.ShiftIsDiv | mtp/allocator.hpp:213 | the shift by the stored exponent is the division by the step |
| Metapool.CheckConfig | mtp/metapool_config.hpp:50-113 | the compile-time check accepts exactly the configurations described by Valid |
| Metapool.ValidIff | mtp/metapool_config.hpp:50-113 | the accepted configurations spelled out: any number of increasing pivots on the step, and a count that multiplying does not shift out of its 32 bits |
| Metapool.CountFormula | mtp/metapool.hpp:92-106 | applying the capacity function pivot by pivot, wrap-around and lower bound included, is the documented power formula |
| Metapool.CountInNumbers | mtp/metapool_config.hpp:85-112 | after k pivots mul2, mul4 and mul8 have multiplied by 2, 4 and 8 to the k as a word, div2, div4 and div8 divided by it down to 1, flat changed nothing |
| Metapool.BlockCounts | mtp/metapool.hpp:78-111 | walking the strides gives each pool the count for the number of pivots at or below its stride |
| Metapool.SegmentCount | readme.md:223-232 | a pool whose stride lies from pivot m on and below the next has the base count times, or over, 2, 4 or 8 to the m |
| Metapool.OneStrideCount | mtp/metapool_config.hpp:71 | a metapool of a single stride has one pool with the base count |
| Metapool.StridesSpan | mtp/metapool.hpp:72-83 | the strides run in steps from the first pivot to the last, both included |
| Metapool.LastCountIsValidated | mtp/metapool_config.hpp:85-112 | the last pool gets the count validation ended with |
| Metapool.NoPoolEmpty | mtp/metapool_config.hpp:112 | checking the final count alone guarantees that no pool is empty |
| Metaset.SortIndices | mtp/metaset.hpp:47-61 | the exchange sort yields a permutation in ascending order of smallest stride |
| Metaset.SortUnique | mtp/metaset.hpp:47-61 | with distinct smallest strides there is only one such order |
| Metaset.SortedIndexMap | mtp/metaset.hpp:204-209 | the map is the two-sided inverse of the order |
| Metaset.ProxyOffsets | mtp/metaset.hpp:64-81 | the 16-bit running sums are the numbers of pools before each range |
| Metaset.Locate | mtp/metaset.hpp:64-81 | every flat index belongs to some pool of some range |
| Metaset.LocateUnique | mtp/metaset.hpp:64-81 | and to no other |
| Metaset.MakeProxies | mtp/memory_model.hpp:106-141 | for any order of declaration, whether the walk stays inside the table is decided exactly, and if it does each position holds the proxy written there last, each metapool starting where the sorted counts put it |
| Metaset.StaysInsideIff | mtp/memory_model.hpp:128-135 | no metapool reaches past the table exactly when every position written lies in it |
| Metaset.InOrderStaysInside | mtp/memory_model.hpp:128-135 | metapools declared in ascending order stay inside |
| Metaset.WrittenInOrder | mtp/memory_model.hpp:128-135 | for metapools declared in ascending order the table holds every pool at its position |
| Metaset.WrittenLast | mtp/memory_model.hpp:128-135 | a position holds the proxy of the last metapool whose walk passed it |
| Metaset.FreeFindsPoolIffAscending | mtp/memory_model.hpp:89-141 | the table holds, at the header of every block, the proxy of its pool exactly when the metapools are declared in ascending order |
| Metaset.HeadersMatchIffAscending | mtp/memory_model.hpp:89-141 | stored headers equal proxy positions for every pool exactly when the metapools are declared in ascending order |
| StrideRanges.BuildRangeEntry | mtp/metaset.hpp:84-98 | the entry carries the strides of its metapool and the exponent of its step, rounded down |
| StrideRanges.BuildRangeArray | mtp/metaset.hpp:101-111 | each range starts where the one before ends; the table is one lookup is proved for exactly when all steps are powers of two |
| StrideRanges.CheckShape | mtp/metaset.hpp:156-171 | the first loop accepts exactly well-formed ranges |
| StrideRanges.CoveredOnce | mtp/metaset.hpp:179-193 | counting with early exit decides whether a stride belongs to one range only |
| StrideRanges.StridesOwned | mtp/metaset.hpp:174-194 | the walk over one range decides whether it shares a stride |
| StrideRanges.ValidateStrideRanges | mtp/metaset.hpp:133-198 | accepted exactly when all ranges are well formed and no stride belongs to two |
| StrideRanges.AcceptedIffDistinct | mtp/metaset.hpp:173-195 | that is exactly when the strides of the flat table are pairwise distinct |
| StrideRanges.TablePassesIff | mtp/metaset.hpp:133-198 | on the table of a metaset validation accepts exactly when every step is a power of two and no stride value occurs twice |
| StrideRanges.DisjointAccepted | mtp/metaset.hpp:156-195 | ranges that follow the documented rules pass both loops of validation |
| StrideRanges.AscendingIffDisjoint | mtp/allocator.hpp:62-74 | the flat table ascends, as fallback needs, exactly when the ranges are disjoint in order |
| StrideRanges.InterleavedAccepted | mtp/metaset.hpp:173-195 | two interleaved ranges that pass, and whose table does not ascend |
| AllocatorConfigs.CheckRange | mtp/allocator_config.hpp:76-96 | masks and remainders decide alike whether a range lies on its step |
| AllocatorConfigs.IsAllocatorConfig | mtp/allocator_config.hpp:65-102 | the accumulating loop accepts exactly the described tables, 32-bit sum included |
| AllocatorConfigs.AcceptedIffCounts | mtp/allocator_config.hpp:65-102 | on the table of a metaset it accepts exactly when the stride counts sum to at most 4096, as a 32-bit sum |
| AllocatorConfigs.ValidIffAccepted | mtp/allocator_config.hpp:65-102 | the tables for which lookup is proved are those accepted without a wrapped sum whose steps are powers of two |
| AllocatorConfigs.OddStepMissesLookup | mtp/metaset.hpp:229-234 | a single metapool with step 24 passes every check, and a request its last stride could hold is looked up outside the table |
| AllocatorConfigs.DescendingDeclaration | mtp/memory_model.hpp:128-135 | two metapools that pass every check, the larger strides declared first: the second one's proxies run past the table of four, and the header of the 64-byte blocks leads to a pool of the other |
| OddSteps.RoundedNeed | mtp/allocator.hpp:204-205 | with a step that is no power of two the mask keeps the part of a sum above the next power of two, and of the rest a multiple of 8 no larger than what the step leaves of that power |
| OddSteps.SeveralStridesWrong | mtp/allocator.hpp:189-230 | with such a step and two strides or more some need is looked up wrongly |
| OddSteps.OddRangeIff | mtp/allocator.hpp:189-230 | for a range with such a step every need is looked up rightly exactly when there is one stride and it is in place |
| OddSteps.SingleMetapoolIff | mtp/metaset.hpp:229-234 | for an accepted set of one metapool, lookup is the linear search for all requests on which no sum wraps exactly when the step is a power of two, or the only stride leaves as remainder by the next power of two the largest multiple of 8 that the step leaves of it |
| Arena.MonotonicArena.constructor | mtp/monotonic_arena.hpp:18-28 | nothing is taken from a new arena |
| Arena.MonotonicArena.Fetch | mtp/monotonic_arena.hpp:42-70 | the address and new offset are those of FetchAt, and a refusal changes nothing |
| Arena.FetchIff | mtp/monotonic_arena.hpp:42-70 | for any alignment and shift, a fetch succeeds exactly when some aligned address leaves room for shift and request, and takes the least |
| Arena.PageCost | mtp/monotonic_arena.hpp:48-67 | behind a 2-byte shift and from a multiple of 8, a page-aligned fetch costs at most 4096 bytes besides the request |
| Arena.PageCostIff | mtp/monotonic_arena.hpp:48-67 | from any offset, the cost besides the request is at most 4096 bytes exactly when the offset is not one short of a page |
| Build.SizeIsProduct | mtp/metapool.hpp:46 | the size of a pool is the product of stride and block count |
| Build.ArenaGrows | mtp/metapool.hpp:123-132 | each pool adds its product and 4096 bytes to the arena |
| Build.PlaceOneSucceeds | mtp/metapool.hpp:44-62 | a pool that asks for any bytes at all is placed on a page at most 4096 bytes on, even if its 32-bit size wrapped |
| Build.PlaceOneKeeps | mtp/metapool.hpp:44-62 | placing a pool whose size does not wrap keeps all placed pools intact and apart, and costs at most its reserved bytes |
| Build.WrappedReachesNext | mtp/metapool.hpp:44-62 | a pool whose size wrapped overlaps the pool constructed next |
| Build.BuiltIff | mtp/metapool.hpp:44-62 | over the reserved bytes, in any order, construction ends in an intact heap of disjoint page-aligned pools with all blocks free exactly when all sizes but the last are below 2^32 and the last is not a multiple of it |
| Build.ExactSuffices | mtp/metapool.hpp:123-132 | sizes below 2^32 suffice for every order of construction |
| Build.BasesAscend | mtp/metapool.hpp:44-62 | pools lie in the arena in the order of construction |
| Construction.NewFreelists | mtp/metapool.hpp:135-154 | one unplaced freelist for each pool, all distinct |
| Construction.PlacePool | mtp/metapool.hpp:44-62 | fetch and initialize in place do what the construction step describes |
| Construction.BuildPools | mtp/memory_model.hpp:89-102 | the metapool constructors, in any order, leave objects that stand where the built heap has its pools, under the same exact condition |
| Allocators.AllocatorCore.constructor | mtp/memory_model.hpp:174-179 | the allocator is set up over given memory, ranges and freelists |
| Allocators.AllocatorCore.TakeBlock | mtp/allocator.hpp:60-76 | the fallback loop terminates and does what Take describes |
| Allocators.AllocatorCore.Alloc | mtp/allocator.hpp:50-77 | lookup then fallback; the heap stays intact, no byte changes, and the three outcomes occur exactly as described |
| Allocators.AllocatorCore.Free | mtp/allocator.hpp:80-95 | the block goes back to the freelist named in its header, which is the one it came from |
| Allocators.AllocatorCore.Reset | mtp/allocator.hpp:180-185 | all blocks are free again, in address order |
| Guarantees.ShapeSane | mtp/metapool.hpp:72-111 | every pool has a stride that is a multiple of 8 and at least one block |
| Guarantees.ShapesMatchTable | mtp/metaset.hpp:101-111 | the pools that get built have exactly the strides lookup searches |
| Guarantees.ShapeAt | mtp/metaset.hpp:64-81 | stride and block count of every pool stand in the flat table behind those of the metapools before |
| Guarantees.SetIsBuildable | mtp/metaset.hpp:213-219 | a set declared in ascending order has only sane pools, with stride 8 at most at flat index 0 |
| Guarantees.RequestServed | mtp/allocator.hpp:50-77 | a request is unmatched exactly when no stride is large enough, exhausted exactly when all large enough pools are empty, and otherwise gets a free block that holds it |
| SharedAllocator.SingleStrideSet | mtp/metapool_config.hpp:71 | a metapool of one stride and up to 8 GiB is a valid set, and is built exactly when its size is not a multiple of 4 GiB |
| SharedAllocator.ProductWraps | mtp/metapool.hpp:46 | four blocks of 1 GiB pass every check and the 8 GiB limit, and no construction of them ends in an intact heap |
| SharedAllocator.LastProductMayWrap | mtp/metapool.hpp:46 | a pool of 4 GiB and 4096 bytes passes the same checks and is built |
| SharedAllocator.ValidSetIff | mtp/metaset.hpp:211-234 | the sets built here are those whose table is accepted without a wrapped total, with power-of-two steps, ascending declaration and an arena of at most 8 GiB |
| SharedAllocator.ExampleIsValid | readme.md:242-268 | the documented metaset is such a set, constructible in any order, with 41 pools of these strides and block counts |
| SharedAllocator.Create | mtp/memory_model.hpp:165-170 | a valid metaset, in any order of construction in which the requests suffice, gives a valid allocator with one pool for each stride of the set, of that stride and block count, page-aligned, in the order of construction, all blocks free, and the range table of the set, which ascends exactly when its ranges do not overlap |
| SharedAllocator.FirstRequest | mtp/allocator.hpp:50-77 | with all blocks free a request gets the first block of the first pool that holds its need, or no match exactly when none does |
| SharedAllocator.AllocFirst | mtp/allocator.hpp:50-77 | the same of alloc itself |
| SharedAllocator.CreateAndAlloc | mtp/memory_model.hpp:165-170 | from the declaration: a request of up to 1 GiB on the allocator just created is served exactly when its need fits some stride of the set, by the first such pool |
| Slags.ConstructAt | container/slag.hpp:204 | placement-new is only done on a slot that holds no object |
| Slags.MoveOut | container/slag.hpp:232 | moving from an element leaves an object that is still to be destroyed |
| Slags.DestroyAt | container/slag.hpp:233-234 | a destructor is only run on a slot that holds an object |
| Slags.Slag.constructor | container/slag.hpp:32-39 | a new array is empty and without storage |
| Slags.Slag.Grow | container/slag.hpp:492-520 | contents survive, capacity doubles or starts at 8, and no object is left in the storage given back |
| Slags.Slag.PushBack | container/slag.hpp:199-213 | appends; exactly the slots in use hold objects afterwards |
| Slags.Slag.EmplaceAt | container/slag.hpp:215-242 | inserts at the position; exactly the slots in use hold objects afterwards |
| Slags.Slag.OpenGap | container/slag.hpp:231-235 | the backward loop constructs on raw slots and destroys what it moved from, freeing the gap |
| Slags.Slag.EraseAt | container/slag.hpp:305-331 | removes the element at the position, nothing at the end position |
| Slags.Slag.CloseGap | container/slag.hpp:318-322 | the forward loop destroys before it constructs and leaves the last slot with an object |
| Slags.Slag.EraseSwapAt | container/slag.hpp:176-197 | puts the last element in place of the erased one, by any of the three ways |
| Slags.Slag.PopBack | container/slag.hpp:167-174 | drops the last element and destroys its object, moved-from or not |
| Slags.EraseUndoesEmplace | container/slag.hpp:215-331 | erasing where an element was just inserted restores the contents |
| Slags.PopUndoesPush | container/slag.hpp:167-213 | popping what was just pushed restores the contents |
| Slags.EraseByIndex | container/slag.hpp:305-331 | erasing takes out the element at the position and closes up what followed, nothing at the end position |
| Slags.PushedInOrder | container/slag.hpp:199-213 | pushing a sequence appends it in order |
| Slags.SlotsInUse | container/slag.hpp:199-331 | slots in use hold the elements in order, on the others there is nothing to destroy |
| Slags.EraseSwapTakesOne | container/slag.hpp:176-197 | swap-erase takes out exactly one copy of the chosen element and keeps everything in front of it |
| Slags.RelocationsBounded | container/slag.hpp:492-520 | over any run from empty, growing relocates exactly capacity - 8 elements once anything is allocated, and fewer than twice the peak size |

## Left out

- Memory orders, fences and cache-line placement: see the assumption above.
- Moves, destruction and the allocator calls of the deque; `reserve` models a build without asserts, where a non-empty deque is moved; `std::bit_ceil` beyond 2^63.
- `construct`, `construct_align` and `destruct`: they share the paths of `alloc` and `free`.
- Build.PlaceOneKeeps: is about one pool whose size does not wrap; `Build.BuiltIff` says exactly what becomes of the others.
- SharedAllocator.Create: takes the metapools in ascending order, because for any other order `free` does not find the pools; a set of metapools with overlapping ranges is built, and what that costs is in `Service`.
- `std::variant` visiting and the function pointers of `mtp/freelist_proxy.hpp`: a proxy is the freelist it leads to.
- The memory behind the proxy table: a write that would leave the table ends `Metaset.MakeProxies` with the outcome `inside == false`.
- Thread-local and shared instances, the system allocation behind the arena, and `MonotonicArena::reset`.
- The standard and polymorphic adapters, `container_factory.hpp`, tracing, plotting and the benchmarks.
- `slag` with a capacity given to the constructor, `assign`, `reserve`, `resize`, `reset`, `clear`, `swap`, moves and destruction: `assign` and `reserve` do not keep the lifetimes of types with destructors, and the others add nothing to the shifting loops.
- Arguments of `push_back` and `emplace` that refer to an element of the same array.
- The storage of `slag` and of the deque is an array of slots, not a block of the allocator's memory; its contents are values, not bytes.
- `vault.hpp`, nearly the code of `slag`, and `crib.hpp`, raw storage.
- The signed branch of `int_pow`, which computes in floating point.
