# A verified model of the kernel's memory, device, scheduling and debug-data cores

This Dafny project models six parts of the kernel and proves what they are for. It stands
beside the sources; `dafny verify dfyconfig.toml` checks all of it.

**Physical page allocator** (`kern/pmap.c`). A binary buddy tree of `struct Page` records
over 2^60 bytes, one free list for each size class, reference counts that are passed down the
tree, and a pool of tree descriptors that is refilled from the memory it describes. `Buddy`
has the operations as they update records, lists and counters in place. Each of them is proved
to turn the tree it found into the tree that a function on values gives (`BuddyOps`,
`BuddyLookup`, `BuddyTypes`, `BuddyPool`), and the theorems are about those functions: the
invariant of every reachable state, disjoint owners, conservation of references and
descriptors, page types that do not depend on the order of attaching, and the round trip of
allocating and releasing. `BuddyRuns` and `BuddyHistory` state them over whole histories, and
`BuddyBoot` that pools of descriptors lie where the early page tables of `BootMap` reach. A
tree is seen from any of its nodes through a zipper (the path of ancestors with their other
subtrees), which follows the loops that climb from a node to its parent. The fields `held`
and `pool` of a model node, who took how many references, are for the statements only; the
kernel stores nothing of the kind.

**First-fit heap** (`kern/alloc.c`). `Heap` has the circular, doubly linked, address-ordered
free list; `HeapBlocks` has the blocks and the theorem that the free list is determined by the
allocated blocks alone, from which every "frees restore" statement follows.

**Split virtqueue driver** (`kern/virtio-gpu.c`). `Virtqueue` has the descriptor free list,
the rings and the 16-bit indices, as driver steps and device steps after section 2.7 of
VIRTIO 1.2.

**Environments and scheduling** (`kern/env.c`, `kern/sched.c`). `EnvIds`, `Envs` and `Sched`:
ids that tell successive users of a slot apart, the table with its free list, and round robin
with its bound on waiting.

**DWARF decoding** (`inc/dwarf.h`, `kern/dwarf_lines.c`, `kern/dwarf.c`). LEB128, the
early-stopping line-number machine, and the walk over `.debug_info`, each proved against what
the bytes mean: encoders are given, and decoding is shown to be inverse to them (sections 6.2,
7.5 and 7.6 of DWARF 4). `LineSteps` starts from the steps of lines and operations a program is
made of, and `DwarfSingle` has sections given byte by byte.

**Early-boot page tables** (`kern/init.c`, `kern/timer.c`, `kern/bootstrap.S`). `BootMap` has
the mapping loop, the spare directories, and the processor's walk.

## Where the code differs from what it seems meant to do

- `list_append` does not set the back link of the old first member (`kern/pmap.c:84-89`). The
  allocator is modelled with that link supplied. `ListsAsWritten` has the functions as they
  stand: a delete is right exactly when it takes the first member, and a later delete of a
  member that was cut off makes a list on which the search of `alloc_page` would not end. The
  list of free descriptors is used as a stack only and is right as written.
- A merge in `page_unref` compares the parent's state with the child just released but not
  with its buddy (`kern/pmap.c:307-309`), so releasing a node of no type can make a typed
  buddy's type disappear. `BuddyLoss` says exactly when types survive, with an example.
- An Allocatable attach protects reserved memory only if the target node itself is Reserved
  (`kern/pmap.c:258`); `AllocatableAttachKeepsReserved` is the exact condition, and
  `OverwriteExample` a tree on which it fails. Without a memory map `detect_memory` reserves the
  first page, then the kernel image, and then attaches everything from page 0 on as Allocatable
  (`kern/pmap.c:574-628`): by `FirstPageLost` the first page is Allocatable afterwards.
- Attaching memory that is of the type already splits it and merges nothing
  (`kern/pmap.c:247-262`), so two free buddies can be left side by side, and then allocating and
  releasing a block need not give back the same tree. `AttachCoalescedIff` says exactly when
  that happens.
- The assertion after a refill (`kern/pmap.c:118`) can fail although memory was found: a
  refill from a block of class k nets only 127 - 2(k - 1) descriptors. `EnsureFreeDesc` has the
  exact condition on the state before the call, and `BuddyShort` four attaches to a new
  allocator after which attaching any page ends there.
- `recycle_used` tests at the end of its loop, so a queue interrupt without a completion makes
  it walk 65536 stale entries (`StopsAfter`), and the count of free descriptors ends up tens of
  thousands too high (`EmptyBatch`). `RecycleUsed` covers this if all the walks end, as they do
  on a queue just set up (`EmptyBatchEnds`).
- `sched_halt` clears `curenv`, but `trap` asserts it (`kern/trap.c:252`), so the kernel stops
  at the next interrupt. This happens only if the one runnable slot left is that of a freed
  and reused `curenv`. The scheduler is modelled on its own, as if the yield after a halt
  took place.
- Signed LEB128 extends the sign with a 32-bit -1 (`inc/dwarf.h:464-465`); `ReadSleb` says
  exactly which results are right. For negative encodings of five to nine bytes the shift is
  undefined, and the model excludes them.
- `last_state` is uninitialised (`kern/dwarf_lines.c:40`) and is an arbitrary parameter of the
  model; `JunkIff` says when it shows.
- The 64-bit form of a DWARF length is read from 32 bytes further on (`inc/dwarf.h:407`);
  `EntryLen` does the same.
- `naive_address_by_fname` compares a name from the form number on when its form is
  DW_FORM_indirect (`kern/dwarf.c:665-666`), so it finds the entry only by a name that begins
  with that byte. `NameExactIff` says when an attribute is taken for the name it stands for,
  `PlainNames` that the answer is the first entry of the name if no abbreviation of a subprogram
  or label has its name in that form, and `BehindFormNumber` is an entry that is not found.
- Units of version 2 are taken with the sizes of DWARF 4: in DWARF 2 a DW_FORM_ref_addr is as
  long as an address, eight bytes, and the code takes a four-byte offset for it
  (`kern/dwarf.c:183-190`). The statements on well-formed units are about units written with the
  sizes of DWARF 4, of either version.
- A mapping that leaves its PML4 slot goes to the wrong addresses: pages beyond the slot are
  written at the start of the first page's slot (`kern/init.c:82-89`). `Mapped` and
  `Translated` describe it for all ranges up to 512 GiB.
- `map_addr_early_boot` does not check that the PML4 entry it follows is there
  (`kern/init.c:80-82`); with an empty one it would go on with the page at physical address 0
  as a table. `MapAddr` answers `wild` exactly then, and stops there.

## Conventions

- Page addresses of the allocator are in units of 4 KiB, heap addresses in units of one
  header. Pointers to `struct Page` are the values of `BuddyTree.Ptr`: the root, the statically
  allocated descriptors, and the descriptors of a pool page.
- Where the source panics or fails an assertion, a method answers `false`, `Null`, `Crash` or
  the like. For the allocator these are: no memory for a descriptor pool, too few descriptors
  after a refill, and attaching memory that is referenced.
- `alloc_page` returns a node that is on no list and not referenced; `Buddy.Allocator.Alloc`
  takes it together with the `page_ref` that has to follow.
- The device of `Virtqueue.Queue.Respond` answers a chain that offers it, by the flag bits of
  section 2.7.5 of VIRTIO 1.2, one buffer to read and one to write. It publishes the used entry
  and the queue interrupt, without a configuration change, before the response the driver waits
  for. This is an assumption about the device, since the driver waits for the response type and
  not for the used index.
- Statements about flags, tags, forms, opcodes, sizes and limits are written with the numbers of
  the standards and of the source where a method and its specification share a constant or a
  test.
- The two `alloc_desc` calls in the initialiser of `send_and_recieve` are taken from left to
  right; C leaves their order open.
- The lock of the heap and the interrupt flag are not modelled: operations are atomic.

## Model

| member | source | states |
|---|---|---|
| Arith.BitIsUpperHalf | kern/pmap.c:221-221 | inside an aligned block the address bit that page_lookup tests says exactly whether the address is in the upper half |
| BuddyTree.InvPlug | kern/pmap.c:386-434 | the invariant of the whole tree is, for any node, exactly that of its subtree together with that of its ancestors and their other children: local proofs are whole-tree proofs and back |
| BuddyOps.RefInv | kern/pmap.c:269-283 | a new direct reference keeps both-or-no children, halves, uniformity, exact counts and exact list membership, whether or not the node was referenced or listed |
| BuddyOps.ReleaseInv | kern/pmap.c:285-328 | releasing a held reference keeps the invariant of the subtree with the counts passed down exactly once |
| BuddyOps.MergeInv | kern/pmap.c:303-327 | climbing and merging keeps the whole invariant, for any number of merges |
| BuddyOps.UnrefInv | kern/pmap.c:285-328 | after page_unref of a held reference the full invariant holds again, no two nodes share a descriptor and none is invented |
| BuddyOps.UnrefHolds | kern/pmap.c:285-328 | page_unref takes away exactly one reference, of that block, and none of anybody else |
| BuddyLookup.LookupInv | kern/pmap.c:219-246 | any number of turns of the page_lookup loop keep the invariant of a walk and come down exactly one class a turn |
| BuddyLookup.LookupLands | kern/pmap.c:219-246 | the walk ends at the block of the class and address asked for |
| BuddyLookup.LookupIds | kern/pmap.c:223-229 | a walk of n levels takes the first k <= 2n descriptors offered, adds exactly those to the tree, and no descriptor is used twice |
| BuddyLookup.LookupHolds | kern/pmap.c:219-246 | splitting creates and loses no reference |
| BuddyLookup.UnrefCoalesced | kern/pmap.c:303-327 | if no two free buddies of their parent's state were left unmerged, that is so after page_unref |
| BuddyLookup.MergeUndoesLookup | kern/pmap.c:303-327 | merging up from a leaf just split off gives what merging up from the split block gives |
| BuddyLookup.AllocThenFree | kern/pmap.c:498-553 | alloc_page, page_ref, page_unref from a coalesced tree give back the very same tree |
| BuddyTypes.AttachInv | kern/pmap.c:247-262 | attaching unreferenced memory keeps the invariant |
| BuddyTypes.Uniform | kern/pmap.c:386-394 | below an Allocatable or Reserved node every block, at any depth, has its state |
| BuddyTypes.TypeIsEff | kern/pmap.c:386-394 | the type of a page read off the leaf covering it is the state the bit-by-bit descent finds |
| BuddyTypes.AttachEff | kern/pmap.c:241-258 | what attaching one block does to the state of every block of the address space: inside it, around it, or elsewhere |
| BuddyOrder.BlockTypes | kern/pmap.c:247-258 | attaching a block gives its pages the new type, or leaves them reserved if its node is, and changes no other page |
| BuddyOrder.AllocatableAttachKeepsReserved | kern/pmap.c:247-258 | an Allocatable attach leaves every reserved page reserved if and only if the target node is itself Reserved or the block has no reserved page |
| BuddyOrder.OverwriteExample | kern/pmap.c:247-258 | a concrete valid tree whose partly reserved block loses its reservation to an Allocatable attach |
| BuddyOrder.PageTypes | kern/pmap.c:330-362 | after any orderly run of attaches a page is reserved if a reserved block covers it, else allocatable if an allocatable one does, else of no type |
| BuddyOrder.OrderIndependent | kern/pmap.c:330-362 | two orderly runs over the same blocks, in whatever orders, agree on the type of every page |
| BuddyLoss.UnrefKeepsTypes | kern/pmap.c:305-321 | page_unref keeps the type of every page if and only if no merge it makes drops a buddy of another state (the loop compares only the released child with the parent), which is read off the counts and states before the call |
| BuddyLoss.FreesIff | kern/pmap.c:285-328 | the condition is one on the tree before the release: releasing the last reference leaves one free leaf exactly if all counts below are 1 and each parent has its upper child's state |
| BuddyLoss.TypedUnrefKeepsTypes | kern/pmap.c:305-321 | releasing typed memory never loses a type |
| BuddyLoss.LossExample | kern/pmap.c:305-321 | a concrete valid tree and release of untyped memory after which an allocatable page has no type |
| BuddyLive.FreeIsClear | kern/pmap.c:498-553 | an unreferenced leaf overlaps no referenced block |
| BuddyLive.AllocExcl | kern/pmap.c:498-553 | allocating and referencing keeps directly referenced blocks from nesting |
| BuddyLive.OwnersApart | kern/pmap.c:498-553 | any two different blocks that clients hold are disjoint |
| BuddyPool.AllocFacts | kern/pmap.c:498-553 | allocation keeps the invariant, every block's state, coalescing and the separation of owners |
| BuddyPool.AllocHolds | kern/pmap.c:498-553 | allocation gives exactly one reference, on exactly the block returned |
| BuddyPool.PoolIsFresh | kern/pmap.c:525-537 | descriptors a refill writes into a free block are no descriptors in use |
| BuddyPool.LeafWalkRest | kern/pmap.c:223-229 | splitting a leaf n times uses exactly 2n descriptors, in order |
| BuddyGreedy.BlocksTile | kern/pmap.c:340-361 | the greedy blocks are aligned and lie end to end from start to end |
| BuddyGreedy.TileCovers | kern/pmap.c:340-361 | a page is in the region exactly when one of the blocks covers it |
| BuddyGreedy.TileApart | kern/pmap.c:340-361 | no two of the blocks overlap |
| BuddyGreedy.RiseAndFall | kern/pmap.c:340-361 | block classes strictly rise and then strictly fall |
| BuddyGreedy.FewBlocks | kern/pmap.c:340-361 | at most 98 lookups for any region up to 2^60, and no class three times |
| BuddySteps.RefKeeps | kern/pmap.c:269-283 | page_ref on any node keeps the invariant, all block states, coalescing, and, on a held block, the separation of owners |
| BuddySteps.UnrefKeeps | kern/pmap.c:285-328 | page_unref on a held block keeps the invariant, coalescing and the separation of owners |
| BuddySteps.AttachKeeps | kern/pmap.c:247-262 | attaching a block nobody uses keeps the invariant and every reference |
| BuddyCoalesce.AttachCoalescedIff | kern/pmap.c:219-262 | attaching keeps a coalesced tree coalesced if and only if the memory is not of that type already or the block has a node of its own |
| BuddyCoalesce.AttachTwice | kern/pmap.c:219-262 | attaching a block and then a smaller one inside it as the same type leaves two free buddies unmerged |
| BuddyClaim.ClaimKeeps | kern/pmap.c:210-283 | page_lookup of any block without a type and page_ref keep the invariant, the state of every block and coalescing |
| BuddyClaim.ClaimHolds | kern/pmap.c:210-283 | they add one reference, on that block, and no other |
| BuddyClaim.ClaimExcl | kern/pmap.c:210-283 | if nobody uses the memory, its new owner is apart from all others |
| BuddySteps.AllocThenRelease | kern/pmap.c:498-553 | allocate and release, from any coalesced tree and any free block, restores the tree and so every free list as a set |
| BuddyRuns.StepKeeps | kern/pmap.c:210-362 | every client step keeps the invariant and the separation of owners and changes who holds what by exactly its own reference |
| BuddyRuns.Conserved | kern/pmap.c:269-328 | in every state of every history the invariant holds and each block is held exactly as often as it was taken and not given up |
| BuddyRuns.NeverOverlap | kern/pmap.c:498-553 | in no state of any history do two blocks in use overlap |
| BuddyRuns.FreeNeverInUse | kern/pmap.c:498-553 | in no state of any history does a free block overlap a referenced one |
| BuddyRuns.HeldTillGivenUp | kern/pmap.c:269-328 | a held block stays held until it is given up |
| BuddyHistory.OnlyAttachTypes | kern/pmap.c:210-362 | from a new allocator on, while nobody claims memory without a type, no step but an attach changes the type of any page |
| BuddyHistory.StaysCoalesced | kern/pmap.c:210-362 | from a new allocator on, while no memory is attached once more as the type it has, no two free buddies of their parent's state are left unmerged |
| BuddyHistory.StepCoalesced | kern/pmap.c:210-362 | a step from a coalesced tree leads to a coalesced tree if and only if it is not such an attach |
| BuddyRuns.AllocSteps | kern/pmap.c:498-553 | what Alloc ensures extends a history by an allocating step, after a refill step if there was one, and the balance of references by exactly one on that block |
| BuddyRuns.ClaimSteps | kern/pmap.c:639-643 | what Claim ensures, of memory nobody uses, extends a history by a claiming step, after a refill step if there was one |
| BuddyRuns.LeadsSteps | kern/pmap.c:330-362 | what AttachRegion ensures extends a history by attach and refill steps that take and give up no reference |
| BuddyRuns.LeadsIsRun | kern/pmap.c:330-362 | whatever a sequence of attach_region calls does to a new allocator, refills included, is a run of attaches |
| BuddyRuns.RegionTypes | kern/pmap.c:330-362 | after any sequence of attach_region calls on a new allocator whose blocks are orderly every page has the type the bounds and types of its regions give it: Reserved if a reserved region has it, else Allocatable if an allocatable one has it, else none |
| BuddyRuns.OrderlyRegionTypes | kern/pmap.c:330-362 | the same from the regions alone: it is enough that no Allocatable region meets a region attached before it |
| BuddyFirstPage.FirstPageLost | kern/pmap.c:574-628 | after calls of attach_region of which the first one reserves page 0, one attaches a region from page 0 on as Allocatable, and all others, before and after it, are elsewhere, page 0 is Allocatable, refills in between included |
| Lists.RingDel | kern/pmap.c:96-106 | deleting member k of a ring with inverse links leaves the ring of the other members in order |
| Lists.ListHeap.InitHead | kern/pmap.c:75-78 | a new list head starts an empty list and touches no other |
| Lists.ListHeap.Append | kern/pmap.c:83-89 | with the missing back link supplied, append puts the object first on that list and changes no other list |
| Lists.ListHeap.Del | kern/pmap.c:95-106 | delete takes the object off its list, whichever it is, keeps the order of the rest, and changes no other list |
| ListsAsWritten.RawLists.Append | kern/pmap.c:83-89 | append as written keeps the list readable forwards while every back link leads to the head |
| ListsAsWritten.RawLists.Del | kern/pmap.c:95-106 | delete on a list built as written leaves only what came after the member |
| ListsAsWritten.DelExactIff | kern/pmap.c:83-106 | delete takes out one member and nothing else if and only if it is the first one |
| ListsAsWritten.LostMembersTrapTheWalk | kern/pmap.c:96-106 | deleting a member that a wrong delete has cut off leaves a list on which no walk from the head ever gets back to it |
| ListsAsWritten.StackExact | kern/pmap.c:136-141 | a list that is only pushed and popped at its head, as free_descriptors is, is exact as written |
| Buddy.Allocator.constructor | kern/pmap.c:650-673 | init_allocator yields the tree of one untyped root with empty class lists and 256 free descriptors |
| Buddy.Allocator.FreeDescriptor | kern/pmap.c:136-141 | the node leaves its list and becomes the next free descriptor, counted |
| Buddy.Allocator.FreeDescRec | kern/pmap.c:150-158 | exactly the nodes of the subtree become free descriptors, all other memberships unchanged |
| Buddy.Allocator.PageRef | kern/pmap.c:269-283 | records and lists afterwards are exactly the tree with the reference counted and, on the first one, passed to every node below; nothing outside the subtree is written |
| Buddy.Allocator.MergeUp | kern/pmap.c:303-327 | the loop and the list update after it turn memory and lists into exactly the merged tree |
| Buddy.Allocator.PageUnref | kern/pmap.c:285-328 | through its recursion, with merges while the count is still 1, memory and lists end as exactly the released and merged tree |
| Buddy.Allocator.AllocDescriptor | kern/pmap.c:122-134 | hands out the first free descriptor, cleared, and counts it off; if there is none it refills first, and fails if and only if that is not possible; the descriptor is then no node of the tree |
| Buddy.Allocator.AllocChild | kern/pmap.c:179-207 | the child is the lower or upper half one class down, with its parent's state and one reference exactly if the parent is referenced |
| Buddy.Allocator.StepDown | kern/pmap.c:219-243 | one turn of page_lookup is one step of the walk, uses two descriptors only if the node was a leaf, and writes nothing above |
| Buddy.Allocator.Descend | kern/pmap.c:210-246 | the loop of page_lookup ends at the node of the class asked for, refilling the pool at most once and only before the first split; it fails if and only if, before the call, the descriptors are too few and no one refill makes them enough; with enough of them it refills nothing |
| Buddy.Allocator.PageLookup | kern/pmap.c:210-267 | page_lookup with allocation refines the walk, or the attach when a type is given; it fails if and only if, before the call, the descriptors are too few and no one refill makes them enough, or the memory to be retyped is in use; with enough of them it refills nothing |
| Buddy.Allocator.EnsureFreeDesc | kern/pmap.c:110-120 | ensure_free_desc, its two assertions included, succeeds if and only if, before the call, there are count free descriptors or the first block a pool could be put in is of a class k such that 127 - 2(k - 1) more make them count; a refill allocates one pool page and changes nothing else |
| Buddy.Allocator.FindFree | kern/pmap.c:506-515 | the block alloc_page takes: the first one that fits in its list, of the lowest class that has one, or there is none; without the boot-memory flag the first member of the first list that is not empty, or all lists are |
| Buddy.Allocator.NoFreeBlock | kern/pmap.c:506-515 | what the lists say about blocks that fit is what the tree says, by class, address and size |
| Buddy.Allocator.AllocPage | kern/pmap.c:498-553 | the chosen block is carved; nothing is returned, and nothing changed, if and only if no listed block fits; it fails if and only if the chosen block has to be split, the descriptors are too few for that, and a refill from a block beside it does not make them enough; with enough of them it refills nothing; a pool refill nets 127 - 2(k - 1) descriptors from a block of class k |
| Buddy.Allocator.AddPool | kern/pmap.c:525-533 | the 127 descriptors of a new pool page join the free ones and nothing else changes |
| Buddy.Allocator.FillPool | kern/pmap.c:520-544 | a refill never re-enters itself, always succeeds once it has a block, and restores the steady state |
| BuddyBoot.InBootIff | kern/pmap.c:512-512 | the boot-memory test accepts a block exactly if each of its bytes, and the one behind it, can be reached through the tables of early boot |
| BuddyBoot.RefillReached | kern/pmap.c:504-533 | each byte of the page a refill takes can be reached through those tables |
| BuddyBoot.PoolFull | kern/pmap.h:38-38 | a pool page holds as many descriptors as fit behind its header |
| BuddyBoot.DescriptorReached | kern/pmap.c:525-533 | in every valid state each byte of each descriptor in a pool can be reached through those tables |
| Buddy.Allocator.PickClass | kern/pmap.c:342-353 | the downward search picks the largest aligned class that fits |
| Buddy.Allocator.AttachOne | kern/pmap.c:356-358 | one block of attach_region: with descriptors enough before the call, or made enough by a refill, it fails if and only if the memory is in use, and otherwise it fails, with what a refill adds added |
| Buddy.Allocator.AttachRegion | kern/pmap.c:330-362 | terminates; the greedy blocks of the region, and only they, are attached in order, each to memory nobody uses; it stops early only at memory in use, or where the free descriptors, with what a refill would add to them, are too few for the next block; with 98 for each block beforehand only the former |
| Buddy.Allocator.SupplyIs | kern/pmap.c:110-120 | in every valid state, whether count descriptors can be had is a matter of their number and of the lowest class with a free block in boot memory alone |
| Buddy.Allocator.Alloc | kern/pmap.c:498-553 | alloc_page with page_ref: the new tree is the old one, refilled or not, with one block allocated out of the chosen one, and the record returned is an Allocatable leaf of that class at the start of that block, referenced once; no block is returned, and nothing changed, exactly when the tree has no free Allocatable leaf big enough (with the boot-memory flag: none that ends, cut to size, below 1 GiB); the block is of the lowest class that has such a leaf; the panic has the exact condition of AllocPage, and with 2(48 - class) descriptors there is neither panic nor refill |
| Buddy.Allocator.Ref | kern/pmap.c:269-283 | the allocator stays valid and its tree is the old one with the reference |
| Buddy.Allocator.Release | kern/pmap.c:285-328 | the allocator stays valid and its tree is the old one released and merged |
| Buddy.Allocator.Claim | kern/pmap.c:639-643 | page_lookup from the root without a type, and page_ref: the node returned is that of the block asked for, by class and address, and referenced, and it fails if and only if, before the call, the descriptors are too few and no one refill makes them enough |
| Buddy.Allocator.AllocThenRelease | kern/pmap.c:498-553 | allocating and releasing in place, with descriptors enough and no two free buddies left unmerged, gives back the tree, the record of every node, the free descriptors and the members of every free list; without the boot-memory flag a block is found exactly if the tree has a free one big enough |
| Buddy.Allocator.FreeListsExact | kern/pmap.c:386-434 | in every valid state each class list holds exactly the unreferenced Allocatable leaves of its class, each once |
| Buddy.Allocator.DescriptorsConserved | kern/pmap.c:110-141 | in every valid state each descriptor is a node or on the free list, never both, and free_desc_count is the length of that list |
| Buddy.Allocator.CheckPhysicalTree | kern/pmap.c:386-434 | check_physical_tree passes on every node of every valid state |
| BuddyShort.TooFew | kern/pmap.c:110-120 | with the lower half of memory as the only free block and fewer than 63 free descriptors, attaching one page asks for 98, a refill is possible and nets 35, and they are still too few |
| BuddyShort.FourBlocks | kern/pmap.c:110-120 | four attaches lead from a new allocator to a state with a free block for a pool in which 98 descriptors are not to be had, with a refill or without |
| BuddyShort.RefillFallsShort | kern/pmap.c:110-120 | on that state attaching any page as any type panics, although there is a free block for a pool |
| HeapBlocks.BlockOf | kern/alloc.c:33-122 | every unit of the arena lies in exactly one block |
| HeapBlocks.Canonical | kern/alloc.c:84-122 | the free blocks, and their order, are determined by the allocated blocks alone, whatever calls led there |
| HeapBlocks.RunInBlock | kern/alloc.c:103-118 | any run of unused units lies within one free block: nothing is lost between free neighbours |
| HeapBlocks.RoomIff | kern/alloc.c:56-79 | a free block of n units exists exactly when n unused units lie side by side |
| Heap.OneWrap | kern/alloc.c:97-99 | the cyclic list has exactly one place where addresses do not rise, wherever the sentinel lies |
| Heap.StopsIff | kern/alloc.c:97-99 | the stopping condition of the search in test_free holds exactly at the block's place in address order |
| Heap.GiveBoth | kern/alloc.c:101-104 | joining to both sides keeps tiling and leaves no two free blocks touching |
| Heap.Heap.constructor | kern/alloc.c:8-13 | an empty heap with nothing allocated |
| Heap.Heap.CheckList | kern/alloc.c:15-24 | check_list never panics |
| Heap.Heap.Search | kern/alloc.c:56-79 | the loop finds the first block after freep that is big enough, or none is |
| Heap.Heap.Alloc | kern/alloc.c:33-82 | succeeds exactly when the units lie unused side by side, takes the tail of the first block after freep that is big enough, all blocks passed on the way being smaller, allocates that block and nothing else |
| Heap.Heap.FindPlace | kern/alloc.c:95-99 | the search in test_free terminates on the cyclic order, at the block's place |
| Heap.Heap.Free | kern/alloc.c:84-122 | the block, and only it, is allocated no longer; links inverse, arena tiled, neighbours coalesced |
| Heap.Heap.AllocThenFree | kern/alloc.c:33-122 | releasing what was just allocated restores blocks, list and every listed header, for exact fit and tail split alike |
| Virtqueue.Pigeons | kern/virtio-gpu.c:224-247 | at most 64 distinct heads can be in flight |
| Virtqueue.HeadsExact | kern/virtio-gpu.c:285-306 | queue_avail publishes every run of chained neighbours exactly once and nothing else |
| Virtqueue.FollowFree | kern/virtio-gpu.c:131-135 | following desc_free_count links from desc_first_free reads off the free list |
| Virtqueue.Queue.constructor | kern/virtio-gpu.c:121-136 | setup_queue threads the free list 0, 1, ..., 63 |
| Virtqueue.Queue.Conserved | kern/virtio-gpu.c:224-335 | in every state each descriptor is free, with the driver, or in exactly one chain in flight, and the free ones are the distinct first desc_free_count links |
| Virtqueue.Queue.AllocDesc | kern/virtio-gpu.c:318-335 | takes the first free descriptor, or nothing if there is none; the device may write its buffer exactly if that was asked for, and it is neither chained nor a table |
| Virtqueue.Queue.QueueAvail | kern/virtio-gpu.c:285-315 | the heads, and nothing else, are written to the slots after avail.idx, which moves on by their number modulo 2^16, and used_event is the index before |
| Virtqueue.Queue.Complete | kern/virtio-gpu.c:224-247 | a completion by the device always finds a free used slot |
| Virtqueue.Queue.FreeChain | kern/virtio-gpu.c:231-243 | what hangs on a descriptor goes to the front of the free list as a whole, whoever has it: the table changes by exactly one splice; a chain in flight, of any length, is free then |
| Virtqueue.Queue.RecycleUsed | kern/virtio-gpu.c:224-255 | any batch of completions is recycled exactly, last one first, with the 16-bit loop test, across wrap, and only next links change; an empty batch, if its walks all end, is 65536 splices of stale entries and leaves the count at least 65536 too high |
| Virtqueue.StopsAfter | kern/virtio-gpu.c:230-245 | the loop, which tests at its end, stops after d turns when d < 65536 entries are to be recycled, except that for d = 0 it stops after 65536 |
| Virtqueue.EmptyBatch | kern/virtio-gpu.c:230-245 | with nothing to recycle and walks that all end, the loop makes 65536 splices of stale entries and leaves a count of free descriptors at least 65536 too high |
| Virtqueue.EmptyBatchEnds | kern/virtio-gpu.c:230-245 | on the queue setup_queue leaves, with a used ring of zeros, all those walks end |
| Virtqueue.Queue.IrqHandler | kern/virtio-gpu.c:272-282 | recycles exactly when the interrupt is a queue interrupt without a configuration change |
| Virtqueue.Queue.SendAndRecieve | kern/virtio-gpu.c:337-361 | the device is offered, as section 2.7.5 of VIRTIO 1.2 reads the flag bits, a chain of two buffers: the request, which it only reads, and the response, which it may write, with their lengths in 32 bits; afterwards the queue is idle again with all indices moved on by one |
| Virtqueue.ExchangeOffered | kern/virtio-gpu.c:337-347 | two linked descriptors with these flags are that chain: bit 0 of the first, bit 1 of the second, bit 2 of neither |
| Virtqueue.Queue.SendAll | kern/virtio-gpu.c:337-361 | any number of requests leaves the free list 0, ..., 63 and avail.idx, used.idx and used_tail equal modulo 2^16 |
| EnvIds.NextIdIs | kern/env.c:120-125 | with 32-bit wrapping the k-th id of a slot is positive, carries the slot, and follows a closed formula |
| EnvIds.SameIdIff | kern/env.c:120-125 | two allocations of a slot get the same id exactly when a multiple of 2^19 - 1 allocations lies between |
| Envs.IdsDiffer | kern/env.c:120-125 | live environments have different ids |
| Envs.Table.constructor | kern/env.c:89-103 | all slots free, in table order |
| Envs.Table.Alloc | kern/env.c:114-181 | fails exactly when no slot is free; otherwise the first free slot is runnable with its next id, and no other slot changes |
| Envs.Table.Release | kern/env.c:372-382 | the slot is free and first on the free list, no other slot changes |
| Envs.Table.Lookup | kern/env.c:48-81 | an id is found exactly when a live environment that curenv may handle has it |
| Envs.Table.LookupStale | kern/env.c:48-81 | an id a slot had earlier is rejected as long as fewer than 2^19 - 1 allocations of the slot have gone by |
| Envs.Table.RunSlot | kern/env.c:470-491 | env_run makes the slot curenv and running and counts the run; a running curenv can be run again, and every other slot is as it was |
| Envs.Table.NextSlot | kern/sched.c:28-42 | the two loops find the nearest runnable slot after curenv, or there is none |
| Envs.Table.YieldCpu | kern/sched.c:11-52 | sched_yield is exactly a yield step: it runs the first runnable slot after curenv, going round, or a running curenv if there is no other; a curenv that was running can be run again; it halts or ends in the monitor exactly when the source does, and changes no other slot |
| Envs.Table.Halt | kern/sched.c:54-84 | the monitor exactly when nothing is runnable or running; a halt only if all that is left is curenv's own slot |
| Envs.Table.Exit | kern/env.c:400-405 | the running environment is freed and the next one chosen; the monitor exactly if no other slot is runnable or running |
| Sched.YieldAdvances | kern/sched.c:28-46 | at every yield a runnable environment is run or gets strictly nearer |
| Sched.StepKeeps | kern/sched.c:11-52 | at most one environment is running and it is curenv, whatever is created, yields or exits |
| Sched.BoundedWait | kern/sched.c:28-46 | under any interleaving of creations, yields and exits a runnable environment runs within its distance plus one yields |
| Sched.ChosenIsNext | kern/sched.c:28-42 | the slot picked is a runnable one, and none of those between curenv and it, going round, is runnable |
| Sched.StaysBusy | kern/env.c:470-491 | a slot that is runnable or running is so after every step, unless it is the one that exits |
| Sched.RunsAgain | kern/sched.c:28-46 | an environment that does not exit, running or waiting, is running again within 1025 yields, however often others are created, yield or exit |
| Leb128.ReadUleb | inc/dwarf.h:421-441 | the full base-128 value modulo 2^64 and the exact byte count, for encodings of any length, through both loops |
| Leb128.OrAtAdds | inc/dwarf.h:429-429 | or-ing seven bits in at the shift adds them, modulo 2^64, since all bits set so far are below |
| Leb128.ReadSleb | inc/dwarf.h:445-469 | right in its low 32 bits, and right in all 64 exactly when the encoding is non-negative or longer than nine bytes |
| Leb128.UlebReads | inc/dwarf.h:421-441 | decoding the shortest encoding of a number gives the number and its length back |
| Leb128.SlebReads | inc/dwarf.h:445-469 | the same for signed numbers, with the sign |
| Leb128.SignedExamples | inc/dwarf.h:445-469 | the encodings listed in Figure 23 of DWARF 4 |
| DwarfBytes.EntryLen | inc/dwarf.h:394-417 | the 32-bit length and its four bytes, or what the code makes of the extension values |
| DwarfBytes.LengthEscapes | inc/dwarf.h:394-417 | which initial lengths are taken as they are, which one starts the long form, and which are refused |
| LineProgram.RunExtended | kern/dwarf_lines.c:46-97 | an extended opcode is decoded and its length checked against its operands |
| LineProgram.RunStandard | kern/dwarf_lines.c:98-167 | every standard opcode has the effect of its instruction, line advance included though only 32 bits of the operand are right |
| LineProgram.RunLineNumberProgram | kern/dwarf_lines.c:37-185 | stopping early gives exactly what emitting every row and taking the first pair that brackets the address gives |
| LineProgram.LastRowUpTo | kern/dwarf_lines.c:37-185 | for one ascending sequence and an address in its range that is the last row up to the address, whatever last_state held |
| LineProgram.JunkIff | kern/dwarf_lines.c:40-40 | below the first row the answer is the uninitialised row exactly when its address happens not to exceed the one looked for |
| LineProgram.DecodesBack | kern/dwarf_lines.c:42-167 | decoding is inverse to encoding for every instruction |
| LineProgram.OpcodeTable | kern/dwarf_lines.c:42-167 | the numbers and operands of the standard opcodes, as sections 6.2.5.2 and 7.21 list them |
| LineProgram.ExtendedTable | kern/dwarf_lines.c:46-97 | those of the extended opcodes, behind a zero byte and their length |
| LineProgram.Unknown | kern/dwarf_lines.c:92-166 | opcodes from 13 up to the base, and extended opcodes from 5 on, are unknown, and an extended opcode ends where its length says |
| LineProgram.AssembledRows | kern/dwarf_lines.c:37-185 | the table of an assembled program is the table of its instructions |
| LineHeader.LineForAddress | kern/dwarf_lines.c:192-269 | header constraints, then the lookup; errors exactly as in the source |
| LineHeader.HeaderReads | kern/dwarf_lines.c:213-255 | the header of a unit of version 2, 3 or 4 is read back as it was written, and the program is found behind it |
| LineHeader.Layout | kern/dwarf_lines.c:213-251 | the bytes of such a header, field by field as section 6.2.4 lists them |
| LineHeader.TakenIff | kern/dwarf_lines.c:213-240 | with plain lengths a header is taken if and only if its version is 2, 3 or 4, its minimum instruction length 1 and, in version 4, its operations per instruction 1 |
| LineHeader.LineOf | kern/dwarf_lines.c:192-269 | from bytes to line, for versions 2, 3 and 4: for an address in the range of an ascending sequence the line is that of the last row up to it |
| LineSteps.StepIs | kern/dwarf_lines.c:46-184 | what each instruction does to address and line and to the table, as sections 6.2.5.1 to 6.2.5.3 say it: a special opcode made of a line step and an operation step moves the line by the one, modulo 2^32, and the address by as many operations as the other, and adds a row |
| LineSteps.RowsAre | kern/dwarf_lines.c:37-185 | the rows of a program are those of the steps it was made of |
| LineSteps.LineOfSteps | kern/dwarf_lines.c:192-269 | from steps to line, for every address: in the range of one ascending sequence the line of the last row up to it; elsewhere the line the steps end with, but for the uninitialised row |
| DwarfForms.ReadAbbrevEntry | kern/dwarf.c:59-265 | the bytes consumed depend on the form and the data, never on the buffer, and which of the buffer's bytes take what value is given for every form but blocks, whose slice does not fit; the form is cut down to 32 bits |
| DwarfForms.ValueReads | kern/dwarf.c:59-265 | every form takes exactly the bytes written for it, whatever forms lead to it, and numbers come back, signed ones of any size but for the encodings whose shift is undefined |
| DwarfForms.FormsAgree | kern/dwarf.c:62-190 | the sizes the code gives to forms of fixed size, to the lengths of blocks and to offsets, and the forms it takes as LEB128 numbers, are those of section 7.5.4, form by form |
| DwarfForms.OtherForms | kern/dwarf.c:62-265 | no other form takes a byte |
| DwarfForms.ExpressionCopied | kern/dwarf.c:242-249 | of an expression the first eight bytes are stored, or all of them if there are fewer |
| DwarfWalk.FindAbbrev | kern/dwarf.c:637-652 | on any bytes the search ends at the first declaration with the code, skipping whole declarations, or off the end with the last tag read |
| DwarfWalk.Compare | kern/dwarf.c:661-668 | strcmp is 0 exactly when the string at that place is the name |
| DwarfWalk.NaiveAddressByFname | kern/dwarf.c:604-691 | on any bytes the nested loops terminate and agree with the description of the walk that the statements on well-formed sections are about |
| DwarfUnits.FindReads | kern/dwarf.c:637-652 | in a well-formed table the search ends at the first abbreviation with the code |
| DwarfUnits.AttributesRead | kern/dwarf.c:654-685 | the cursor lands just after the entry, whatever the values are used for; its low_pc is found in any numeric form, and its name as the walk takes it, which for DW_FORM_indirect is the text from the form number on |
| DwarfUnits.EntriesRead | kern/dwarf.c:631-687 | the inner loop stops at the unit's end or at the first entry that matches as the walk takes names |
| DwarfUnits.UnitsRead | kern/dwarf.c:608-690 | the cursor stands on every unit boundary in turn |
| DwarfUnits.Find | kern/dwarf.c:604-691 | on any well-formed 32-bit sections: the low_pc of the first entry of tag 0x2E or 0x0A with the name, as the walk takes names, and a nonzero low_pc, else no entry; if no abbreviation of such an entry has its name through DW_FORM_indirect, the first one of that name |
| DwarfUnits.NameExactIff | kern/dwarf.c:659-668 | the name the walk compares with is the one the attribute stands for if and only if the form is not DW_FORM_indirect, short of a string in .debug_str that happens to spell the form numbers and the bytes behind them |
| DwarfUnits.PlainNames | kern/dwarf.c:659-668 | with no such abbreviation, the first match is the first entry of that name, for every name |
| DwarfSingle.BehindFormNumber | kern/dwarf.c:664-666 | for any text, address, and tag of a subprogram or label, well-formed sections with one entry of that name that the walk does not find by it, but by the form number and the name |
| DwarfSingle.OneIs | kern/dwarf.c:616-652 | the same sections with the name in place, byte by byte |
| DwarfSingle.FindOne | kern/dwarf.c:653-681 | on those sections, for any tag, name and nonzero address, the address is found if and only if the tag is that of a subprogram, 0x2E, or of a label, 0x0A, and the name is the one looked for |
| DwarfWalk.UnitRefused | kern/dwarf.c:618-626 | a unit of any version but 2 and 4, or with addresses of any size but 8, ends in a failed assertion |
| DwarfUnits.OneLowPc | kern/dwarf.c:657-658 | an entry with one low_pc attribute, of whatever numeric form, has the number it carries as its address |
| BootMap.NewDirectory | kern/init.c:57-68 | a spare page becomes a directory of exactly one slot |
| BootMap.TranslateIs | kern/init.c:74-90 | the walk of the processor, by 512 GiB, 1 GiB and 2 MiB, meets the entries the code indexes |
| BootMap.AddrIs | inc/mmu.h:104-104 | PTE_ADDR takes bits 12 to 62, whatever the no-execute bit and the flags are |
| BootMap.Tables.constructor | kern/bootstrap.S:28-67 | the boot tables map the first gigabyte twice, share no directory, and leave six spare pages |
| BootMap.BootReach | kern/bootstrap.S:28-67 | from the kernel's base on exactly the first gigabyte of physical memory can be reached, and written |
| BootMap.Tables.AllocPd | kern/init.c:57-68 | a fresh zeroed directory, or null exactly when none is left |
| BootMap.Tables.MapPage | kern/init.c:84-90 | exactly one directory entry changes, and a directory is taken only if its slot had none |
| BootMap.Tables.MapAddr | kern/init.c:70-91 | every page of the range is mapped through the first page's slot, all else is unchanged, and one spare directory for each gigabyte touched is enough; an empty PML4 entry, with which the source goes on at physical address 0, is answered `wild`, exactly then |
| BootMap.Translated | kern/init.c:70-91 | what that means for the processor's walk, also for a range that leaves its PML4 slot: pages in the slot walk to their targets, writable and not for user mode, and pages beyond the slot keep their old translation |
| BootMap.OneSlotExact | kern/init.c:70-91 | inside one slot every address of the range walks to its target, writable and not for user mode, and every other address as before |
| BootMap.Tables.MmioMapRegion | kern/timer.c:25-36 | the whole request is mapped to itself, writable, as far as it lies in its slot, whenever the slot's entry is there and one spare directory for each gigabyte it touches; a request inside one slot changes no translation outside the huge pages it touches, and other slots never change |
| Virtqueue.PublishedFacts | kern/virtio-gpu.c:301-303 | up to 64 heads written modulo the ring size do not overwrite each other and leave the other slots alone |

## Left out

- Reference counts are unbounded: the 32-bit wrap of `refc` is not modelled.
- `page_lookup` without allocation: no caller asks for it.
- The address assertion at the end of `alloc_page` (`kern/pmap.c:550`), which depends on where the kernel image ends.
- Attaching the whole of 2^60 bytes in one call: its single block has class 48, for which there is no free list.
- `detect_memory` and the UEFI memory map: they only choose the regions to attach; `OrderlyRegionTypes` and `FirstPageLost` say what that choice leads to.
- Buddy.Allocator.CheckPhysicalTree: virtual mappings of a referenced page are not modelled, so the list of such a page is empty.
- BuddySteps.AllocThenRelease: free lists are restored as sets; their order may change, since a merged block is put first.
- BuddyRuns.Conserved: a history takes references by allocating, by claiming memory nobody uses, or on blocks already held; `Buddy.Allocator.Ref` and `Buddy.Allocator.Claim` cover any node, but two owners may then nest.
- Virtual mapping trees, `map_region` and the dump functions, which are declared or stubs in this branch.
- Heap.Heap.Alloc: that the memory of a block is not touched by others is a matter of the callers.
- Virtqueue.Queue.RecycleUsed: an empty batch on which a walk never ends or leaves the table is excluded, since the source does not come back from it.
- Virtqueue.Queue.IrqHandler: the same of a queue interrupt without a completion.
- Leb128.ReadSleb: negative encodings of five to nine bytes are excluded, since their shift is undefined in C.
- Virtqueue.Queue.QueueAvail: memory fences are not modelled.
- `config_irq`, which only acknowledges display events, and the notification register of the queue.
- GPU commands, drawing, fonts, the console and the monitor: thin wrappers or user interface.
- PCI and MMIO register access, timers, interrupt controllers and the bootloader.
- ELF loading, symbol binding, trap frames and the switch of contexts: `env_run` is represented by its status and `curenv` changes.
- `csys_yield` saves a trap frame and yields; only the yield is modelled.
- Dying and not-runnable environments: no code in these files makes any.
- `function_by_info`, `file_name_by_info` and `info_by_address_debug_info`: the same search and attribute loops as `naive_address_by_fname` with other attributes.
- `info_by_address_debug_aranges`, which always falls back because its count is never assigned, and `address_by_fname` over `.debug_pubnames`.
- DwarfForms.ReadAbbrevEntry: sections are shorter than 2 GiB, so its `int` result does not wrap; a block's slice does not fit the eight bytes of a buffer, and what is then overwritten is not modelled.
- LineHeader.LineForAddress: the eight bytes read as a pointer to the opcode lengths are not modelled, since nothing uses them.
- BootMap.Tables.MapAddr: what is written when the PML4 entry is empty (`wild`) is not modelled; address arithmetic stays below 2^64 and frames below 2^63; the cached translations of the processor are not modelled.
