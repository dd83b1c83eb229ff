# libnetwork: a verified model

A Dafny model of five parts of libnetwork, with proofs about whole runs of them.

- **bitseq** (`Bit*.dfy`): the run-length-encoded bitmap. A linked list of (32-bit block, count)
  nodes is edited in place and proved to refine a flat bit vector in a canonical form. The handle
  on top of it is proved to keep its count of free bits, and its `set` loop is a state machine over
  a shared compare-and-swap store.
- **IPAM** (`Numbers`, `Bytes`, `IpAddress`, `Cidr`, `Subnets`, `Pools`, `AddressSpace`,
  `PoolStore`, `Allocation`, `Ledger*.dfy`, `Allocator`): address arithmetic done with bitwise OR and AND
  on bytes, CIDR overlap, reference-counted master pools and sub-pools, and the allocator that hands
  out addresses through bitseq handles. `Ledger` follows every run of the four allocator calls, on
  IPv4 and IPv6 pools; `PoolStore` lets any number of allocators share the stored pool table.
- **Service bindings** (`ServiceRegistry.dfy`): add and remove threads under the controller lock
  and the per-service lock, interleaved freely.
- **Gossip wire format** (`Varint`, `Proto*.dfy`, `Messages`): the Protocol Buffers
  codec (sections "Base 128 Varints" and "Message Structure" of the Protocol Buffers Encoding
  specification), with the compound messages that batch payloads, fields a reader does not know
  (`ProtoUnknown`) and input that no encoder writes (`ProtoMalformed`).
- **NetworkDB** (`NetworkDb*.dfy`, `RadixWalk`, `Convergence`, `Cluster*.dfy`): the replicated table. One node is a
  class whose handlers are proved against functions on a value (`NetworkDbNode` against
  `NetworkDb`); `NetworkDbRuns` makes every local call, gossip message, membership change and half
  of a reaper pass a step and proves an invariant of all runs; `NetworkDbEffects` states of every
  handler exactly when it takes effect, what it then changes and what it answers; `Convergence` applies events in any
  order; `Cluster` runs any number of nodes with the table events in flight; `ClusterAgreement`
  proves exactly which steps keep the nodes in agreement and exactly when fed nodes end up with the
  newest content of a key; `ClusterScenarios` gives a run in which that happens and one in which a
  leave prevents it.

How the model is laid out:

- Code that changes things step by step is a `class` or `method` proved equal to a function of the
  old state; what the program promises is then proved of that function.
- A handler is one step. The two halves of a reaper pass, over entries and over networks, are two
  steps with other handlers in between.
- The radix trees are maps, and a walk visits every key of the walked network once. The order is not
  fixed: the functions take it as a parameter, and the methods return the one they used. `RadixWalk`
  shows when the walks of the trees, which delete as they go, do visit every key.
- Blocks are numbers below 2^32 with explicit binary digits; `u64` counters wrap where the program's
  would; durations are whole nanoseconds.

Assumptions of the NetworkDB runs (`DbRuns.Legal`, `Clusters.Enabled`, `Agreement.Stable`):

- Each key has one writing node, and local writes are to networks the node has joined and not left.
  `DbTheorems.WriteKeepsIffJoined` shows that the invariant needs exactly this, and
  `DbTheorems.LateWriteOrphaned` what a later write leads to.
- No network ID is a prefix of another, so a walk for a network visits that network only.
- No entry's path is a proper prefix of another's, so a walk that deletes visits every key. Otherwise
  deleting a key folds an only child into its node and the walk passes over the child
  (vendor/github.com/armon/go-radix/radix.go:263-269 and 444-455): with the keys "a" and "ab" of a
  failed node, "ab" stays. `RadixWalks.VisitsAllIff` states exactly when that happens,
  `DbTheorems.TreeWalkLists` that with this assumption a walk visits every key once, and
  `DbTheorems.PurgeCompleteIff` that a skipped entry outlives its node.
- Nothing marks the local node itself as left or failed.
- Table events have one of the three valid types.
- `serf.LamportClock`: witnessing a time that the clock has not passed sets it to the next one, incrementing adds one.
- No leave comes between the two halves of a reaper pass unless networks are kept for a positive
  time. `DbTheorems.ShortIntervalOrphans` shows that this is needed.
- Agreement between nodes is for runs in which a node writes its own keys only, to networks it is
  attached to, and leaves a network, or is heard to leave it, only while no live entry of its own is
  there. Joins, failures, reaping and other leaves are free. `Agreement.NextAgreesIff` shows that
  these are exactly the steps that keep the agreement, and `Scenarios.LeaveBreaksAgreement` what a
  leave with a live entry leads to.

Where the code and its comments disagree the code is followed: `CreateEntry` refuses a key that has
any entry, also one that is being deleted (networkdb/networkdb.go:349-360). `Unset` on a clear bit
still raises the count of free bits (bitseq/sequence.go:333-360); `Handles.ApplySpec` states that
the count stays right exactly when a call does not do that. A sub-pool request whose master is
absent skips the overlap check (ipam/structures.go:285-303); `Pools.AddKeepsDisjoint` states that
the masters stay disjoint exactly when such a request does not overlap. The ordinal of an IPv6
address is its host part cut to 64 bits, and to 32 where it reads as an IPv4-in-IPv6 address
(types/types.go:337-342 and 388-403, ipam/utils.go:74-81); `Subnets.ExactIff` states which addresses keep their
own ordinal, `Ledgers.ReleaseMarks` that a release frees the right one exactly for those, and
`InexactRelease.InexactHeld` how a run comes to hold another.
Splitting a network shifts block numbers in 64 bits (ipamutils/utils.go:109-122);
`Subnets.SplitExactIff` states when the result is the blocks of the network.

## Model
| member | source | states |
|---|---|---|
| `Blocks.WithBitBits` | bitseq/sequence.go:645-652 | setting or clearing a selector bit of a block changes exactly that one of its 32 bits |
| `Bitmaps.SetAtBits` | bitseq/sequence.go:635-694 | changing one position of a bitmap changes that bit and no other |
| `Bitmaps.FirstClearLeast` | bitseq/sequence.go:505-548 | the first clear bit from a position is clear, at or after it, and everything between is set; there is none exactly when all are set |
| `Bitmaps.ClearCountSetAt` | bitseq/sequence.go:333-360 | changing a bit changes the number of clear bits by one, or not at all if it already had the value |
| `Runs.MergeFlat` | bitseq/sequence.go:711-721 | merging equal neighbours keeps the bitmap and the number of blocks |
| `Runs.MergeCanonical` | bitseq/sequence.go:711-721 | merging runs with positive counts leaves no two equal neighbours |
| `Runs.PushFlat` | bitseq/sequence.go:635-694 | splitting the run of a block around a changed block and merging again is an update of one block of the flat bitmap |
| `Runs.PushCanonical` | bitseq/sequence.go:635-721 | the same edit keeps positive counts and no equal neighbours |
| `Runs.CanonicalUnique` | bitseq/sequence.go:134-152 | a bitmap has one canonical run list |
| `Runs.EqualDecidesBits` | bitseq/sequence.go:134-152 | two canonical run lists are equal exactly when they represent the same bits |
| `Runs.PushBitFlat` | bitseq/sequence.go:635-694 | a reservation changes exactly the addressed bit of the flat bitmap, nothing if it is out of range, and keeps the length |
| `Runs.PushBitCanonical` | bitseq/sequence.go:635-721 | a reservation keeps the canonical form |
| `Sequences.OrdinalToPos` | bitseq/sequence.go:731-733 | an ordinal is eight times its byte position plus its bit position, which is below eight |
| `Sequences.PosToOrdinal` | bitseq/sequence.go:735-737 | the inverse, wherever the ordinal fits 64 bits |
| `Sequences.GetNumBlocks` | bitseq/sequence.go:723-729 | the least number of 32-bit blocks that hold the bits, without overflow for any 64-bit size |
| `Sequences.FindSequence` | bitseq/sequence.go:593-617 | the node that holds the block of a byte position, its predecessor, and the position inside it; none exactly when it is beyond the end |
| `Sequences.Equal` | bitseq/sequence.go:134-152 | walking two lists decides equality of their run lists |
| `Sequences.GetCopy` | bitseq/sequence.go:121-131 | a list of new nodes with the same runs |
| `Sequences.MergeSequences` | bitseq/sequence.go:711-721 | the recursive in-place merge leaves a list of the merged runs, made of old nodes |
| `Sequences.PushReservation` | bitseq/sequence.go:635-709 | the in-place edit leaves a list of exactly the runs of the reservation function, in all of its insertion cases |
| `Sequences.RunConsistencyCheck` | bitseq/sequence.go:256-269 | nodes with a zero count behind the head are unlinked, and the result tells whether there were any |
| `Sequences.CleanedFlat` | bitseq/sequence.go:256-269 | removing them does not change the bitmap |
| `Search.GetAvailableBit` | bitseq/sequence.go:101-118 | the first clear bit of a block at or after a position, or proof that there is none |
| `Search.GetFirstAvailable` | bitseq/sequence.go:505-548 | terminates and finds the least clear bit at or after start, or reports that none exists, with every sum below 2^64 |
| `Search.GetAvailableFromCurrent` | bitseq/sequence.go:550-569 | the serial search: from the current position up to the end, else from the start |
| `Search.AvailableFromRange` | bitseq/sequence.go:550-569 | the bit found lies in the range and is clear; the search fails only if the whole range is set |
| `Search.AvailableFromOrder` | bitseq/sequence.go:550-569 | the bit found is the first clear one from the current position, or from the start when the rest of the range is set |
| `Search.CheckIfAvailable` | bitseq/sequence.go:573-586 | succeeds exactly for a clear bit inside the bitmap |
| `Handles.FreshSpec` | bitseq/sequence.go:50-87 | a new handle has all bits clear and an exact count |
| `Handles.SetBitSpec` | bitseq/sequence.go:227-234 | Set fails on a taken or out-of-range ordinal and then changes nothing; else exactly that bit becomes taken and the count stays exact |
| `Handles.UnsetSpec` | bitseq/sequence.go:236-243 | Unset clears exactly that bit; the count stays exact if and only if the bit was taken |
| `Handles.SetAnyInSpec` | bitseq/sequence.go:309-383 | a range request grants a free ordinal of the range and takes only it, or the range is full and nothing changes |
| `Handles.SetAnyIff` | bitseq/sequence.go:219-224 | a request for any bit is granted exactly when one is free |
| `Handles.SetAnyInRangeIff` | bitseq/sequence.go:208-216 | a request for a bit of a range is refused for a bad range, and else granted exactly when one of it is free |
| `Handles.SetAnyOrder` | bitseq/sequence.go:550-569 | the granted ordinal is the lowest free one of the range, or, of a serial request, the lowest from where the last one ended, if there is one |
| `Handles.ApplySpec` | bitseq/sequence.go:208-242 | any call keeps the count exact if and only if it does not release a clear bit; failed calls change nothing; granted bits were free |
| `Handles.RunConserves` | bitseq/sequence.go:309-383 | over every run that releases only taken bits the count of free bits is exact |
| `Handles.RunFromFresh` | bitseq/sequence.go:50-87 | so it is for every run from a new handle |
| `Handles.Handle.constructor` | bitseq/sequence.go:50-87 | a new handle is one run of empty blocks |
| `Handles.Handle.Update` | bitseq/sequence.go:309-383 | the body of the set loop: pick a bit, copy the list, edit the copy, install it with the new count |
| `Handles.Handle.SetAnyBitInRange` | bitseq/sequence.go:208-216 | refuses an empty or out-of-range interval, reports no free bit when the count is zero, else takes a bit of the range |
| `Handles.Handle.SetAnyBit` | bitseq/sequence.go:219-224 | takes any free bit of the handle |
| `Handles.Handle.SetOne` | bitseq/sequence.go:227-233 | takes the given bit |
| `Handles.Handle.UnsetOne` | bitseq/sequence.go:236-242 | releases the given bit |
| `Handles.Handle.IsSet` | bitseq/sequence.go:246-254 | tells whether the bit is taken |
| `MaskBytes.SequenceToBytes` | bitseq/sequence.go:155-168 | twelve big-endian bytes for each run |
| `MaskBytes.SequenceFromBytes` | bitseq/sequence.go:171-191 | a new list of the runs that the bytes encode |
| `MaskBytes.ToByteArray` | bitseq/sequence.go:416-430 | size, count of free bits and runs as bytes |
| `MaskBytes.FromByteArray` | bitseq/sequence.go:433-451 | what the bytes encode, or a bad length or a failed slice that leaves the handle alone; the serial position is kept |
| `MaskBytes.MaskRoundTrip` | bitseq/sequence.go:416-451 | every well-formed handle comes back from its bytes with its size, its count and its run list |
| `MaskBytes.MaskLayout` | bitseq/sequence.go:155-168 | where the byte form has the size, the count of free bits, and the block and count of each run, every number big-endian |
| `MaskStore.StepInv` | bitseq/sequence.go:317-382 | each read, compute, write, retry or abort of any client keeps: a handle at the stored version has the stored value, held ordinals are set and have one holder |
| `MaskStore.NoDoubleGrant` | bitseq/store.go:120-132 | in every interleaving of any number of clients a granted and unreleased ordinal has one holder, is set in the store, and the stored count is exact |
| `MaskStore.AloneServed` | bitseq/sequence.go:317-382 | a request that runs without another write in between is served exactly when the stored bitmask can serve it, with a fitting ordinal and no other change; else it ends and nothing changes |
| `MaskStore.AloneAsHandle` | bitseq/sequence.go:317-382 | such a request leaves in the store what it leaves of the stored bitmask in a handle without a store, searching from the client's own serial position |
| `Addresses.OrIsSum` | ipam/utils.go:66-71 | without common digits a bitwise OR is a sum |
| `Addresses.AndIsRemainder` | types/types.go:388-403 | a bitwise AND with r ones is the remainder modulo 2^r |
| `Addresses.OnBytesValue` | ipam/utils.go:66-71 | OR and AND byte by byte are OR and AND of the big-endian numbers |
| `Addresses.AddIntToIP` | ipam/utils.go:66-71 | the in-place loop ORs the bytes of the ordinal into the address and leaves the rest of the buffer alone |
| `Addresses.WithHostMask` | types/types.go:370-421 | host part (AND) and broadcast address (OR) of an address under an inverted mask, for 4-byte and IPv4-in-IPv6 forms; fails exactly on incompatible lengths |
| `Addresses.IpToUint64` | ipam/utils.go:74-81 | the number an address stands for, modulo 2^64 |
| `Cidrs.HoldsInterval` | ipam/structures.go:348-357 | comparing masked addresses is membership in the interval of the block |
| `Cidrs.IntersectIffContains` | ipam/structures.go:348-357 | two blocks share an address exactly when one contains the other's base address |
| `Cidrs.HostPart` | types/types.go:388-403 | the host part of an address is its remainder modulo the block size |
| `Cidrs.OrOrdinal` | ipam/utils.go:41-55 | OR-ing an ordinal below the block size into the base address gives base plus ordinal |
| `Cidrs.BroadcastPart` | types/types.go:407-421 | the broadcast address is the last address of the block |
| `Cidrs.OrdinalRoundTrip` | ipam/utils.go:41-81 | base plus ordinal is in the block and its host part is the ordinal |
| `Subnets.GenerateAddress` | ipam/utils.go:41-55 | base plus ordinal, inside the network, for every ordinal below its size |
| `Subnets.ExactIff` | ipam/utils.go:74-81 | an address has its whole host part as ordinal exactly if it is IPv4, or its host part is below 2^64 and does not read as an IPv4-in-IPv6 address |
| `Subnets.MappedOrdinal` | types/types.go:337-342 | in an IPv6 network of 64 bits or more, the host part 0:ffff:a.b has the ordinal of a.b |
| `Subnets.HostOrdinal` | ipam/allocator.go:581-586 | the ordinal of an address in a network of either family, IPv4-in-IPv6 forms included; fails exactly on incompatible lengths |
| `Subnets.GetAddressRange` | ipam/utils.go:18-37 | the ordinals in the master of the first and the last address of a sub-pool, of either family; fails exactly if one of them has none |
| `Subnets.RangeInside` | ipam/utils.go:18-37 | for pools of one family those are the ordinals of the sub-pool's own first and last address |
| `Subnets.SplitNetwork` | ipamutils/utils.go:109-122 | 2^(size-ones) pieces at 64-bit multiples of the block size, none or a panic where that number overflows, and no mask where the size is too long |
| `Subnets.SplitExactIff` | ipamutils/utils.go:109-122 | the pieces are the consecutive blocks of the network exactly if its host part has at most 64 digits or it is not split |
| `Subnets.SplitCollides` | ipamutils/utils.go:117-118 | beyond 64 digits the middle piece is the first one again |
| `Subnets.SplitPartitions` | ipamutils/utils.go:109-122 | the blocks are pairwise disjoint and exactly cover the base network |
| `Pools.ClashIffIntersect` | ipam/structures.go:348-357 | the containment test of two networks decides whether they share an address |
| `Pools.CountIsSubPools` | ipam/structures.go:285-345 | a master's count is its live sub-pools plus one while it is itself granted |
| `Pools.AddKeepsCounts` | ipam/structures.go:261-304 | a granted request keeps every count equal to the live grants and every sub-pool below a present master; a refused one changes nothing |
| `Pools.AddPoolIff` | ipam/structures.go:261-304 | a pool is granted exactly if its key is new and, for a master, no master of the space shares an address with it; a taken key is reserved exactly if it was a default pick |
| `Pools.RemovedTable` | ipam/structures.go:306-336 | a release removes the sub-pool and takes one from its master; the master goes, and its bitmask is destroyed, exactly with the last grant |
| `Pools.RemovePoolIff` | ipam/structures.go:306-336 | a release is done exactly if the pool is there, and else changes nothing |
| `Pools.RemoveKeepsCounts` | ipam/structures.go:306-336 | releasing a present pool keeps the counts if and only if it was granted and not yet released |
| `Pools.AddKeepsDisjoint` | ipam/structures.go:265-303 | a granted request keeps the masters of a space pairwise disjoint if and only if it does not create an overlapping master for a sub-pool |
| `Pools.OverlappingMasters` | ipam/structures.go:285-303 | a concrete sub-pool request that makes two masters overlap |
| `Pools.RemoveKeepsDisjoint` | ipam/structures.go:306-336 | a release keeps masters disjoint |
| `Pools.RunCounted` | ipam/structures.go:261-345 | in every run whose releases match grants, all counts are those of the live grants |
| `Pools.RunDisjoint` | ipam/structures.go:265-283 | in every run whose sub-pool requests do not create overlapping masters, all masters of a space are disjoint |
| `PoolStore.StepInv` | ipam/allocator.go:221-253 | every begin, read, edit, write and retry of any allocator keeps: the stored table is that of the committed calls, and an edit of the current version is an edit of the stored table |
| `PoolStore.Linearized` | ipam/store.go:103-117 | so in every interleaving of any number of allocators |
| `PoolStore.CommitTakesEffect` | ipam/allocator.go:247-253 | a call that commits takes effect on the table stored at that moment, however old the copy it read |
| `PoolStore.WriteLandsIff` | ipam/store.go:103-117 | a write lands if and only if the stored version is the one that was read; else the stored table stays and the call starts over |
| `PoolStore.AloneCommits` | ipam/allocator.go:221-253 | a call that runs by itself commits exactly if it takes effect on the stored table; a refused one leaves the table, and a taken default pool is picked anew |
| `PoolStore.StoredCounted` | ipam/allocator.go:211-289 | in every interleaving whose releases match grants, the stored counts are those of the live grants |
| `PoolStore.StoredDisjoint` | ipam/allocator.go:211-256 | while no sub-pool request creates an overlapping master, no two allocators are granted overlapping masters |
| `AddressSpaces.AddrSpace.Contains` | ipam/structures.go:348-357 | the loop over the pools decides overlap with a master of the space |
| `AddressSpaces.AddrSpace.IncRefCount` | ipam/structures.go:338-345 | the walk over the parents ends at the master and changes the two counts on its way |
| `AddressSpaces.AddrSpace.UpdatePoolDBOnAdd` | ipam/structures.go:261-304 | the object's pools change as the add function says, with the same result |
| `AddressSpaces.AddrSpace.UpdatePoolDBOnRemoval` | ipam/structures.go:306-336 | the object's pools change as the remove function says, with the same result |
| `Allocation.NumAddresses` | ipam/allocator.go:337-348 | the size of the pool, capped at 2^64-1 |
| `Allocation.NewMaskMarks` | ipam/allocator.go:337-369 | a new bitmask has exactly the network address taken and, for IPv4, the broadcast address |
| `Allocation.GetAddressGrants` | ipam/allocator.go:565-602 | a granted address was free, is off the edges of the pool, has the preferred ordinal if one is given, and lies in the requested range; a refusal changes nothing |
| `Allocation.PreferredIff` | ipam/allocator.go:565-602 | with a preferred ordinal: no address if the pool is full, refused beyond the ordinals, granted exactly if it is neither held nor an edge, already allocated otherwise |
| `Allocation.AutomaticIff` | ipam/allocator.go:565-602 | without one: an address is granted exactly if one of the range, or of the pool, is neither held nor an edge, and what it is refused with otherwise |
| `Ledgers.NextKeeps` | ipam/allocator.go:211-289 | every allocator call keeps counts exact and every bitmask, IPv4 or IPv6, marking exactly the held addresses and the edges |
| `Ledgers.RunOk` | ipam/allocator.go:451-563 | so in every state of every run |
| `Ledgers.RequestAddressGrants` | ipam/allocator.go:451-505 | a granted address is in the pool, off its edges and not held through the master or any of its sub-pools, and is the preferred one exactly if that keeps its own ordinal; other masters' bitmasks are untouched |
| `Ledgers.PreferredRequestIff` | ipam/allocator.go:451-505 | in every reachable state, exactly when a request for an address of the pool is granted, and which refusal it gets otherwise |
| `Ledgers.AutomaticRequestIff` | ipam/allocator.go:451-505 | in every reachable state, a request without a preferred address is granted exactly if an address of its range, or of the pool, is free |
| `Ledgers.OutsideRefused` | ipam/allocator.go:451-563 | an unknown pool, and an address outside the pool, are refused by requests and releases, and nothing changes |
| `Ledgers.HeldReleased` | ipam/allocator.go:508-563 | a release of a held address with its own ordinal succeeds, and that address and no other becomes free |
| `Ledgers.ReleaseMarks` | ipam/allocator.go:545-562 | releasing a held address frees that address and no other if and only if it keeps its own ordinal |
| `Ledgers.AddressUnique` | ipam/allocator.go:451-602 | that holds in every reachable state |
| `Ledgers.UniqueAcrossMasters` | ipam/allocator.go:451-602 | while masters are disjoint, no other master of the space and family holds a granted address either |
| `Ledgers.GrantInSubPool` | ipam/utils.go:18-37 | automatic grants of a sub-pool inside its master stay inside the sub-pool, if its first and last address keep their ordinals |
| `Ledgers.SubRange` | ipam/utils.go:18-37 | the range of a sub-pool inside its master runs from its first to its last address |
| `InexactRelease.InexactHeld` | ipam/allocator.go:451-563 | in every IPv6 pool of 64 host digits or more, a run of three calls after which a held address does not keep its own ordinal, and its release frees the network address instead |
| `Allocators.GetAddress` | ipam/allocator.go:565-602 | the bitmask and the address are those of the address function |
| `Allocators.NewBitMask` | ipam/allocator.go:337-363 | a handle with the edge addresses taken |
| `Allocators.Allocator.InsertBitMask` | ipam/allocator.go:337-369 | installs that handle for a pool and no other |
| `Allocators.Allocator.RetrieveBitmask` | ipam/allocator.go:371-385 | the installed handle, or a new one |
| `Allocators.Allocator.Predefineds` | ipam/allocator.go:387-398 | the default pools, rotated: the k-th is the one k places behind the start index, around the end of the list |
| `Allocators.Allocator.UpdateStartIndex` | ipam/allocator.go:400-408 | the index of the space, and no other, moves on, back to zero when it would leave the list |
| `Allocators.Allocator.GetPredefinedPool` | ipam/allocator.go:410-448 | the first default pool of the version, from the start index on, that is free and overlaps no master, and the next search starts behind it; it fails, and moves nothing, only for a space without defaults or if every default pool of that version is taken or overlapping |
| `Allocators.Allocator.RequestPool` | ipam/allocator.go:211-256 | a named pool is granted exactly if its key is new and, without a sub-pool, no master overlaps it, and is reported overlapping otherwise; a sub-pool has its range; an empty space, a sub-pool with no pool or no range, and exhausted default pools have their own refusals; a refusal changes no pool and no bitmask |
| `Allocators.Allocator.ReleasePool` | ipam/allocator.go:259-289 | the pools change as the release function says; a release that matches a grant leaves the allocator valid and its counts those of the grants left |
| `Allocators.Allocator.MasterKey` | ipam/allocator.go:479-484 | walking the parents ends at the master, which has the same network |
| `Allocators.Allocator.RequestAddress` | ipam/allocator.go:451-505 | unknown pool, address outside the pool, else the request function on the master's bitmask |
| `Allocators.Allocator.ReleaseAddress` | ipam/allocator.go:508-563 | unknown pool, no address, address outside the pool, else the release function on the master's bitmask |
| `ServiceRegistry.StepKeeps` | service_common.go:226-407 | every step of every thread keeps: registered objects are exactly the undeleted ones, deleted ones are empty, locks have one holder, empty services and load balancers have a thread that sees to them |
| `ServiceRegistry.ScheduleInv` | service_common.go:226-407 | so in every state of every schedule of add and remove threads |
| `ServiceRegistry.WorksOnRegistered` | service_common.go:246-289 | an add commits to, and a remove unregisters, only the object currently registered under its key, whose lock it holds |
| `ServiceRegistry.AddBinds` | service_common.go:268-289 | an add ends with its endpoint bound and enabled in the registered service |
| `ServiceRegistry.OnlyRemoveUnbinds` | service_common.go:311-403 | a bound endpoint is unbound only by a full remove that names it |
| `ServiceRegistry.StepRefines` | service_common.go:226-407 | every step of every thread leaves the bindings as they are, or is where its operation takes effect: an add binds its endpoint, a full remove unbinds it, another remove disables it, and no other binding changes |
| `ServiceRegistry.StepCounts` | service_common.go:246-345 | a thread can take its next step unless it waits for a lock; each is one less to go, except that an add that gets the lock of a deleted service looks again, so a remove ends after four |
| `ServiceRegistry.RemoveEffect` | service_common.go:343-403 | a remove at work on the registered service: its load balancer goes exactly with its only endpoint, and else keeps its mark with that endpoint gone or disabled; every other stays; the thread unregisters the service exactly if that was its only endpoint |
| `ServiceRegistry.AddAlone` | service_common.go:226-308 | an add that runs by itself ends with its endpoint bound and enabled |
| `ServiceRegistry.RemoveAlone` | service_common.go:311-407 | a remove that runs by itself ends with its endpoint gone, or disabled if the remove is not full, and the service unregistered exactly with its last endpoint |
| `ServiceRegistry.QuiescentNonEmpty` | service_common.go:343-403 | with no thread running, every registered service has a load balancer and every load balancer an endpoint |
| `ServiceRegistry.MarkSharedIffWrapped` | service.go:11-16 | two live load balancers share a firewall mark exactly when the 32-bit counter wrapped between their creations, so never before |
| `Varints.EncodeVarint` | networkdb/networkdb.pb.go:1002-1010 | writes the varint of a 64-bit number into the buffer and nothing else |
| `Varints.Sov` | networkdb/networkdb.pb.go:1182-1191 | the number of bytes of that varint |
| `Varints.ReadBack` | networkdb/networkdb.pb.go:1960-1973 | reading it back gives the number and the next index, whatever follows |
| `Varints.ReadVarint` | networkdb/networkdb.pb.go:1960-1973 | the shift loop: the value modulo 2^64 or 2^32, end of input, or too many bytes |
| `Varints.SignExtension` | networkdb/networkdb.pb.go:2173-2186 | a negative 32-bit number survives its ten-byte encoding |
| `ProtoDecode.SkipNetworkdb` | networkdb/networkdb.pb.go:2548-2646 | the length of an unknown field of any wire type, groups nested, with every error and the overflow of lengths |
| `ProtoDecode.ReadLength` | networkdb/networkdb.pb.go:2141-2162 | the span a length announces, a negative length, end of input, or an index that overflows |
| `ProtoDecode.ReadValue` | networkdb/networkdb.pb.go:1982-2186 | the value of a known field by its kind, or the wrong wire type |
| `ProtoDecode.ReadField` | networkdb/networkdb.pb.go:1958-2200 | one field: tag, known value or skipped unknown field |
| `ProtoDecode.Unmarshal` | networkdb/networkdb.pb.go:1954-2207 | the loop decodes exactly what the decoding function says, errors included |
| `ProtoEncode.SizeField` | networkdb/networkdb.pb.go:1099-1180 | the encoded length of a field |
| `ProtoEncode.Size` | networkdb/networkdb.pb.go:1099-1132 | the encoded length of a message |
| `ProtoEncode.PutField` | networkdb/networkdb.pb.go:835-886 | appends a field to the buffer; zero values are left out |
| `ProtoEncode.PutItems` | networkdb/networkdb.pb.go:958-977 | appends each item of a repeated field as a nested message |
| `ProtoEncode.MarshalTo` | networkdb/networkdb.pb.go:835-886 | writes exactly the encoded bytes, as many as the size says, and leaves the rest of the buffer alone |
| `ProtoEncode.Marshal` | networkdb/networkdb.pb.go:825-833 | a buffer of exactly the size is filled |
| `ProtoEncode.DecodeEnc` | networkdb/networkdb.pb.go:1954-2207 | decoding an encoded message gives its fields back, for any message of a schema |
| `ProtoEncode.ReadItems` | networkdb/networkdb.pb.go:2386-2547 | a repeated field of nested messages reads back item by item, empty items included |
| `UnknownFields.SkipOne` | networkdb/networkdb.pb.go:2548-2646 | skipping a field of any wire type, groups nested, ends where the field ends, whatever follows |
| `UnknownFields.ReadUnknown` | networkdb/networkdb.pb.go:2187-2199 | a field whose number the message does not have is passed over and changes nothing |
| `UnknownFields.DecodeWithUnknown` | networkdb/networkdb.pb.go:1954-2207 | a message with unknown fields anywhere in it decodes as the message without them |
| `Malformed.VarintForm` | networkdb/networkdb.pb.go:1002-1010 | a varint is its number in base 128, least significant group first, with the high bit on all bytes but the last |
| `Malformed.UnendedVarint` | networkdb/networkdb.pb.go:1960-1973 | bytes with the high bit up to the end of the input are the end of input, or after ten of them an overflow |
| `Malformed.BadTag` | networkdb/networkdb.pb.go:1974-1986 | a tag that ends a group, has no field number, or has the wrong wire type for its field is refused, each with its own error |
| `Malformed.CutNumber` | networkdb/networkdb.pb.go:1987-2000 | a number cut short anywhere is the end of input |
| `Malformed.CutText` | networkdb/networkdb.pb.go:2141-2165 | so is a length-delimited field cut short, in its length or in its bytes |
| `Malformed.NegativeLength` | networkdb/networkdb.pb.go:2155-2157 | a length of 2^63 or more is an invalid length |
| `Malformed.BadUnknown` | networkdb/networkdb.pb.go:2187-2199 | an unknown field of wire type 6 or 7 is refused, and one of fixed width is the end of input if its bytes are not all there |
| `Malformed.NegativeUnknown` | networkdb/networkdb.pb.go:2548-2646 | an unknown field with a length of 2^63 or more is an invalid length |
| `Messages.MarshalTableEvent` | networkdb/networkdb.pb.go:825-886 | the bytes of a table event |
| `Messages.UnmarshalTableEvent` | networkdb/networkdb.pb.go:1954-2207 | the table event of the bytes, or the error |
| `Messages.TableEventRoundTrip` | networkdb/networkdb.pb.go:825-2207 | every table event survives the wire, negative types and residual times included |
| `Messages.TableEventBytes` | networkdb/networkdb.pb.go:835-886 | a table event on the wire is its fields in order behind the tags 08, 10, 1a, 22, 2a, 32, 3a and 40, zero values left out and negative numbers in 64 bits |
| `Messages.EncodeRawMessage` | networkdb/message.go:15-27 | the bytes of a gossip message |
| `Messages.DecodeMessage` | networkdb/message.go:43-52 | its type and data, or the error |
| `Messages.GossipRoundTrip` | networkdb/message.go:15-52 | every gossip message survives the wire |
| `Messages.GossipBytes` | networkdb/networkdb.pb.go:646-663 | a gossip message is its type behind the tag 08 and its data behind 12 |
| `Messages.MakeCompoundMessage` | networkdb/message.go:56-82 | the bytes of the compound message of a list |
| `Messages.DecodeCompoundMessage` | networkdb/message.go:86-98 | the list of payloads, or the error |
| `Messages.CompoundRoundTrip` | networkdb/message.go:56-98 | any list of messages comes back from its compound message, in order, up to nil versus empty payloads |
| `Messages.CompoundBytes` | networkdb/networkdb.pb.go:958-1000 | a compound message is of type 5 and holds its payloads in order, each in a message of its own, behind tags 0a |
| `DbCore.LeaveKeyCore` | networkdb/networkdb.go:492-543 | one visit of a leave walk keeps indexes, owners, counts and the watchers' log right |
| `DbCore.LeaveWalkAt` | networkdb/networkdb.go:488-544 | a leave walk changes each entry by its own visit only |
| `DbCore.PurgeWalkAt` | networkdb/networkdb.go:546-565 | purging a node removes exactly its entries |
| `DbCore.ReapKeyCore` | networkdb/cluster.go:401-430 | one visit of the reaper keeps indexes, owners, counts and log right |
| `DbCore.AcceptCore` | networkdb/delegate.go:188-231 | storing a remote event and telling watchers keeps them right |
| `DbMembers.JoinKeeps` | networkdb/networkdb.go:685-694 | attaching an active node and listing it keeps the membership invariant |
| `DbMembers.LeaveKeeps` | networkdb/networkdb.go:699-712 | marking an attachment as leaving and unlisting its node keeps it |
| `DbMembers.MoveKeeps` | networkdb/nodemgmt.go:44-92 | moving a node between active, left and failed keeps it |
| `DbRuns.TableKeeps` | networkdb/delegate.go:145-233 | a table message keeps the node invariant |
| `DbRuns.JoinNetworkKeeps` | networkdb/networkdb.go:595-642 | a local join keeps it |
| `DbRuns.LeaveNetworkKeeps` | networkdb/networkdb.go:650-680 | a local leave keeps it: remote entries go, own entries become tombstones that the network record outlives |
| `DbRuns.NetworkKeeps` | networkdb/delegate.go:74-143 | a network event keeps it |
| `DbRuns.ChangeStateKeeps` | networkdb/nodemgmt.go:44-92 | a change of node state keeps it |
| `DbRuns.NodeKeeps` | networkdb/delegate.go:19-72 | a node event keeps it |
| `DbRuns.NotifyJoinKeeps` | networkdb/event_delegate.go:24-43 | a memberlist join, with the purge of a prior node at the address, keeps it |
| `DbRuns.NotifyLeaveKeeps` | networkdb/event_delegate.go:45-69 | a memberlist leave keeps it |
| `DbRuns.ReapTableKeeps` | networkdb/cluster.go:387-433 | the first half of a reaper pass keeps it, however late its visits are |
| `DbRuns.ReapNetworksKeeps` | networkdb/cluster.go:371-385 | the second half keeps it |
| `DbRuns.StepKeeps` | networkdb/delegate.go:19-494 | every step of a node keeps the invariant |
| `DbRuns.RunInv` | networkdb/networkdb.go:240-267 | the invariant holds in every state of every run of a new node |
| `DbTheorems.LogFidelity` | networkdb/delegate.go:207-232 | in every reachable state, replaying the watchers' log gives exactly the live entries of remote nodes, values included |
| `DbTheorems.Membership` | networkdb/networkdb.go:305-322 | in every reachable state the node maps are disjoint, a node is listed once exactly when attached and not leaving, and listed remote nodes are active |
| `DbTheorems.Ownership` | networkdb/delegate.go:149-167 | in every reachable state a live remote entry implies that its owner is a member and the local node is joined and not leaving |
| `DbTheorems.EntriesOfActive` | networkdb/nodemgmt.go:78-89 | in every reachable state no entry, live or deleted, belongs to a node that left or failed |
| `DbTheorems.TombstonesGoFirst` | networkdb/cluster.go:365-433 | for every interval and every time compensation, no entry of a network is left when its record is dropped |
| `DbTheorems.CountsExact` | networkdb/networkdb.go:744-770 | in every reachable state the two indexes agree and the entry number of each attached network is its exact count |
| `DbTheorems.WriteKeepsIffJoined` | networkdb/networkdb.go:354-403 | a local write keeps the invariant if and only if its network is joined and not being left |
| `DbTheorems.PassesAge` | networkdb/cluster.go:371-385 | over any number of reaper passes the record of a network being left loses a period a pass, and goes with its entry number when its time is up |
| `DbTheorems.LeftNetworkGoes` | networkdb/cluster.go:371-385 | after a leave the record of the network is there exactly until the reaper passes cover the interval and six periods |
| `DbTheorems.LateWriteOrphaned` | networkdb/networkdb.go:354-403 | any create or update in a network being left survives every reaper pass, and the network's record, live and uncounted |
| `DbTheorems.PurgeCompleteIff` | networkdb/networkdb.go:546-565 | when a node leaves or fails, none of its entries stays if and only if the walk visits all of them |
| `DbTheorems.ShortIntervalOrphans` | networkdb/networkdb.go:241-244 | with a network interval of zero or less, a leave between the two halves of a reaper pass leaves its tombstones behind |
| `DbEffects.SentOnIff` | networkdb/delegate.go:205-232 | a table message is sent on if and only if it is heeded and news, its network is synced, and, if it deletes an unknown entry, more than a sixth of the interval is left of it |
| `DbEffects.TableEffect` | networkdb/delegate.go:145-233 | a heeded piece of news is stored under both indexes and told to watchers, unless it deletes an unknown entry; any other event moves the clock at most |
| `DbEffects.WriteEffect` | networkdb/networkdb.go:354-455 | a create stores its value exactly on an unused key, an update on a used one, a delete a tombstone on a live one, each with the next time; otherwise nothing changes |
| `DbEffects.NetworkEventEffect` | networkdb/delegate.go:74-143 | for every event: a newer join attaches and lists the node, attached before or not; a newer leave marks it leaving for the network interval, unlists it and walks its entries; each is sent on; any other event of any node moves the clock at most |
| `DbEffects.JoinEffect` | networkdb/networkdb.go:595-624 | a local join attaches the node anew and unsynced, lists it, keeps a known entry number, and changes nothing else |
| `DbEffects.LeaveWalkEffect` | networkdb/networkdb.go:488-544 | a leave turns the live entries of the leaver in the network into tombstones for the interval, stamped one later if this node is the leaver, drops those of others in that case, and touches nothing else |
| `DbEffects.LeaveEffect` | networkdb/networkdb.go:650-680 | a local leave unlists the node, keeps its record as leaving for the network interval and walks the entries |
| `DbEffects.StampEffects` | networkdb/networkdb.go:732-740 | a finished join marks its own attachment synced, and a forced push stamps the local ones; no other record changes |
| `DbEffects.MergeEffect` | networkdb/delegate.go:472-492 | after an exchange every attachment it tells of once is as its own event says: joined, left, or as it was |
| `DbEffects.StateEffect` | networkdb/nodemgmt.go:44-92 | a node moves, and the answer says so, exactly if it is known and in another state; one that leaves or fails loses its attachments and entries and is kept for a day; nobody else is touched |
| `DbEffects.NodeEventEffect` | networkdb/delegate.go:19-72 | a newer event stamps a known node; only a leave of an active one moves it and is sent on; any other event moves the clock at most |
| `DbEffects.NotifyLeaveEffect` | networkdb/event_delegate.go:45-69 | an active node that goes missing is moved to the failed nodes and purged; watchers hear of it in any case |
| `DbEffects.NotifyJoinEffect` | networkdb/event_delegate.go:24-43 | a left or failed node is active again with its record; any other is taken as new, and a prior node at its address is moved to the left nodes |
| `DbEffects.ReincarnationIs` | networkdb/nodemgmt.go:94-120 | that prior node is another node at the address, an active one before a failed one before a left one, and is missing exactly if there is none |
| `DbEffects.ReapEffect` | networkdb/cluster.go:387-433 | a visited tombstone loses the period and the delay of its visit, or goes if no more than a second would be left; live entries stay |
| `DbEffects.TombstoneGoes` | networkdb/cluster.go:387-433 | every tombstone is gone after as many passes as its time has periods |
| `DbEffects.ReapNetworksEffect` | networkdb/cluster.go:371-385 | an attachment being left goes exactly if its time is up, and else loses a period; no other changes |
| `DbEffects.ReapNodesEffect` | networkdb/cluster.go:263-279 | a left or failed node goes exactly if it has no more than a period left, and else loses one; active nodes stay |
| `RadixWalks.VisitsAllIff` | vendor/github.com/armon/go-radix/radix.go:256-271 | a walk that deletes as it goes visits every key if and only if no deleted key sits right above another key with nothing beside it |
| `RadixWalks.PrefixFreeVisitsAll` | vendor/github.com/armon/go-radix/radix.go:444-456 | while no key is a proper prefix of another, the walk visits every key, whatever it deletes |
| `RadixWalks.LeavesOnce` | vendor/github.com/armon/go-radix/radix.go:444-456 | a tree whose sibling edges begin with different letters has every key once |
| `DbTheorems.TreeWalkLists` | networkdb/networkdb.go:488-565 | the walk of such a tree over the paths of the entries visits every key exactly once, as the steps of a run take it |
| `RadixWalks.LongerKeySkipped` | vendor/github.com/armon/go-radix/radix.go:263-269 | a deleted key with one longer key below it hides that key from the walk |
| `Convergence.HandleNewest` | networkdb/delegate.go:145-204 | one delivery makes the content of its key the newer of the two if it is heeded and is no asynchronous deletion of an unknown entry, and else changes nothing |
| `Convergence.HeardNewest` | networkdb/delegate.go:145-204 | after any deliveries at all, the node has the newest of what it knew of a key and of the deliveries that counted |
| `Convergence.NewestIff` | networkdb/delegate.go:178-186 | it has the newest of all that was delivered if and only if every delivery that did not count is no newer than something heard |
| `Convergence.FeedNewest` | networkdb/delegate.go:145-204 | so it has, if every delivery of the key counts |
| `Convergence.SameKnownIff` | networkdb/delegate.go:145-204 | two nodes end up with the same content of a key if and only if each hears something as new as all that the other hears |
| `Convergence.OrderIrrelevant` | networkdb/delegate.go:145-204 | the same events in another order, with any repetitions, leave the same time, owner, value and deletion of a key as an order that loses nothing of it, if and only if they lose nothing of it either |
| `Convergence.BulkSyncRepairs` | networkdb/delegate.go:178-186 | a bulk sync as new as all that was delivered makes up for every loss |
| `Convergence.DeleteOvertakesCreate` | networkdb/delegate.go:178-186 | an asynchronous deletion that overtakes its creation is lost, so the order then matters |
| `Convergence.BulkSyncCatchesUp` | networkdb/cluster.go:633-667 | after a bulk sync the receiver is at least as new as the sender on every key that it heeds and does not own |
| `Convergence.PayloadAt` | networkdb/cluster.go:633-667 | the i-th event of a bulk sync is for the i-th visited entry, as a creation or a deletion, with its residual time in whole seconds |
| `Clusters.ReceivedResidual` | networkdb/delegate.go:188-203 | a received deletion keeps the residual time it carries: the fallback for a missing one is not used |
| `Clusters.NodeResiduals` | networkdb/cluster.go:409-414 | every step of a node keeps tombstones between one second and the interval |
| `Clusters.PayloadOk` | networkdb/cluster.go:640-656 | the whole seconds sent for them are between one and the interval's |
| `Clusters.ResidualBound` | networkdb/broadcast.go:127-138 | in every run of a cluster with one interval, all stored tombstones and all deletions in flight have between one second and the interval left |
| `Agreement.StepKnown` | networkdb/networkdb.go:488-565 | every step of a node makes of a key what a local write, a received event or a leave says, or leaves it or forgets it |
| `Agreement.NextAgreesIff` | networkdb/networkdb.go:521-532 | a step keeps the agreement (at one time one content of a key, from its owner, and whatever is known is in flight) if and only if it is no write of another's key or to an unattached network, and no leave, local or received, while the leaver has a live entry there |
| `Agreement.StableAgree` | networkdb/delegate.go:145-204 | so in every state of every cluster run of such steps |
| `Agreement.SameTimeSameContent` | networkdb/delegate.go:169-204 | in such a run two nodes that know a key at the same time know the same owner, value and deletion |
| `Agreement.StableOneWriter` | networkdb/delegate.go:145-204 | such runs meet the one-writer premise of order independence |
| `Agreement.OwnerLatest` | networkdb/networkdb.go:354-455 | what the owner of a key knows of it is the newest content in flight |
| `Agreement.CatchesUpIff` | networkdb/delegate.go:145-204 | fed anything that was sent, a node ends up with the newest content of a key if and only if it had it or was delivered it in a way that counts |
| `Agreement.CatchesUp` | networkdb/delegate.go:145-204 | a node that hears all there is of a key ends up with the content its owner has, and with nothing exactly of a key nobody told of |
| `Agreement.NodesConvergeIff` | networkdb/delegate.go:145-204 | two fed nodes agree on a key if and only if each hears something as new as all that the other hears |
| `Agreement.NodesConverge` | networkdb/delegate.go:145-204 | so they do if both hear all there is of it, each in an order of its own |
| `Scenarios.RemoteEntryStored` | networkdb/delegate.go:74-233 | for any two nodes, key and value there is such a run after which the second node has the first one's entry |
| `Scenarios.OwnerLeaves` | networkdb/networkdb.go:511-532 | a leave stamps its tombstone one later than the entry without moving the table clock |
| `Scenarios.LeaveBreaksAgreement` | networkdb/networkdb.go:521-532 | a run with one leave after which owner and follower hold different contents at one time, and no delivery of what was sent changes that |
| `DbNode.NetworkDB.constructor` | networkdb/networkdb.go:246-259 | a new node is empty |
| `DbNode.NetworkDB.CreateOrUpdateEntry` | networkdb/networkdb.go:744-755 | both indexes get the entry, and an insertion is counted |
| `DbNode.NetworkDB.RemoveEntry` | networkdb/networkdb.go:759-770 | both indexes lose the entry, and a removal is counted |
| `DbNode.NetworkDB.DeleteNodeNetworkEntries` | networkdb/networkdb.go:488-544 | the walk visits every entry of the network once, each as the visit function says |
| `DbNode.NetworkDB.DeleteNodeTableEntries` | networkdb/networkdb.go:546-565 | the walk visits every entry once and removes the node's |
| `DbNode.NetworkDB.AddNetworkNode` | networkdb/networkdb.go:685-694 | the node is appended to the list unless it is in it |
| `DbNode.NetworkDB.DeleteNetworkNode` | networkdb/networkdb.go:699-712 | the node is filtered out of the list |
| `DbNode.NetworkDB.DeleteNodeFromNetworks` | networkdb/networkdb.go:457-472 | the node is filtered out of every list and loses its attachments |
| `DbNode.NetworkDB.FindNode` | networkdb/nodemgmt.go:28-39 | the node and its state, active before left before failed |
| `DbNode.NetworkDB.ChangeNodeState` | networkdb/nodemgmt.go:44-92 | the node moves, and one that leaves or fails loses attachments and entries |
| `DbNode.NetworkDB.PurgeReincarnation` | networkdb/nodemgmt.go:94-120 | some other node at the address, active before failed before left, is moved to the left nodes |
| `DbNode.NetworkDB.NotifyJoin` | networkdb/event_delegate.go:24-43 | a left or failed node becomes active; a new one replaces a prior node at its address |
| `DbNode.NetworkDB.NotifyLeave` | networkdb/event_delegate.go:45-69 | an active node becomes failed |
| `DbNode.NetworkDB.HandleNodeEvent` | networkdb/delegate.go:19-72 | stale events change the clock only; fresh ones restamp the node and may move it |
| `DbNode.NetworkDB.HandleNetworkEvent` | networkdb/delegate.go:74-143 | a fresher join or leave of a remote node changes attachment, list and, on a leave, its entries |
| `DbNode.NetworkDB.HandleTableEvent` | networkdb/delegate.go:145-233 | an irrelevant or stale event changes the clock only; else it is stored, told to watchers unless it deletes an unknown entry, and maybe sent on |
| `DbNode.NetworkDB.HandleTableMessage` | networkdb/delegate.go:249-261 | the node's own events are ignored |
| `DbNode.NetworkDB.JoinNetwork` | networkdb/networkdb.go:595-624 | a new attachment with the kept entry number, and the node listed |
| `DbNode.NetworkDB.LeaveNetwork` | networkdb/networkdb.go:650-680 | the node unlisted, the entries walked, the attachment marked leaving for the network interval |
| `DbNode.NetworkDB.CreateEntry` | networkdb/networkdb.go:354-376 | fails on any existing entry, also one being deleted; else stores an entry with the next time |
| `DbNode.NetworkDB.UpdateEntry` | networkdb/networkdb.go:382-403 | fails on a missing entry; else stores an entry with the next time |
| `DbNode.NetworkDB.DeleteEntry` | networkdb/networkdb.go:430-455 | fails on a missing or deleted entry; else stores a tombstone with the full interval |
| `DbNode.NetworkDB.ReapTableEntries` | networkdb/cluster.go:387-433 | every entry of every attached network is visited once; tombstones age or go |
| `DbNode.NetworkDB.ReapNetworks` | networkdb/cluster.go:371-385 | attachments being left age, or go when their time is up |
| `DbNode.NetworkDB.ReapDeadNode` | networkdb/cluster.go:263-279 | left and failed nodes age, or go when their time is up |
| `DbNode.NetworkDB.Peers` | networkdb/networkdb.go:305-322 | the listed nodes with their addresses; with the membership invariant no remote peer is unknown |
| `DbNode.NetworkDB.BulkSyncPayload` | networkdb/cluster.go:633-667 | an event for each entry of the networks, and none that is not one of the node's entries |
| `DbNode.NetworkDB.SendTableEvent` | networkdb/broadcast.go:127-172 | a local write is gossiped with its residual time in whole seconds, unless the network is gone |
| `DbNode.NetworkDB.HandleBulkSync` | networkdb/delegate.go:336-347 | the clock passes the sender's and the events of the payload are received in order |
| `DbNode.NetworkDB.MergeRemoteState` | networkdb/delegate.go:472-492 | a join of the sender, then its attachments one by one, each walk over the keys its network then has |
| `DbNode.NetworkDB.MarkInSync` | networkdb/networkdb.go:635-639 | the attachment is marked synced and nothing else changes |
| `DbNode.NetworkDB.UpdateLocalNetworkTime` | networkdb/networkdb.go:732-740 | the local attachments, and no others, get the next network time |

## Left out
- Subnets.SplitNetwork: the memory limit on the number of pieces is not modelled.
- Ledgers.NextKeeps: a released address is held and keeps its own ordinal; `Ledgers.ReleaseMarks` shows that the second is needed.
- Allocators.Allocator.RequestPool: one allocator without a datastore; reading, writing and retrying against one are in the pool store model.
- Allocators.Allocator.ReleasePool: the same; destroying a bitmask only removes its datastore entry, which has no counterpart here; the cached handle stays, as in the program.
- PoolStore.Linearized: each allocator works on one call at a time, with a copy of its own; the bitmask of a new master, inserted after the write, is not part of the stored table.
- Networks of IPv4-mapped IPv6 addresses, and the text forms of keys and networks (`SubnetKey.String`, `FromString`): a key carries its network as a value.
- The pools of the address spaces are one table, since every key names its space.
- Handles.Handle.Update: the handle without a datastore; reading, writing and retrying against one are in the store model.
- MaskStore.NoDoubleGrant: each client has a handle of its own; two goroutines inside one handle between its value and index updates, and destroying the stored object, are not modelled.
- JSON forms everywhere, logging and the text of errors.
- ServiceRegistry.StepKeeps: DNS records, the IP-to-endpoint matrix and the load balancer data plane are not part of the state; an add for an unknown network ends before its first step.
- ProtoDecode.Unmarshal: the four generated decoders are one loop over a table of fields; inputs are shorter than 2^62 bytes; other messages of the same generator are left out.
- DbNode.NetworkDB.ReapTableEntries: the two indexes share entry objects in the program; here both maps are updated with the aged entry.
- Clusters.ResidualBound: the whole seconds are those of exact division; the rounding of the floating-point seconds is not modelled, and the interval is at least one second and below 2^31 seconds.
- The entry number of an attachment is kept in a map by network, for the local node only, which is the only one the program updates.
- DbNode.NetworkDB.HandleTableEvent: the check under the read lock, the update under the write lock and the note to watchers after it (networkdb/delegate.go:149-231) are one step; a change of membership between the first two is not modelled, nor that two concurrent handlers may notify watchers in the opposite order to their stores, after which the log no longer replays to the table.
- DbNode.NetworkDB.MarkInSync: the attachment of the moment is marked; the program marks the record it captured at the join (networkdb/networkdb.go:623-638), so one replaced by another join during the sync stays unmarked there.
- DbRuns.ReapTableKeeps: the walks over the networks of one pass, each under its own lock, are one step.
- Invalid table event types, which would be stored and told to watchers as nothing.
- Memberlist, broadcast queues and their limits, timers, random choice of peers, key rings, reconnects, acknowledgement channels of bulk syncs: delivery is an arbitrary choice of a message that was sent.
- Kernel, netlink, IPVS and HNS calls, drivers, the HTTP API, sandboxes, endpoints, networks and the controller.
