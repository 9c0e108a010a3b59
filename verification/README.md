# IceCap in Dafny

IceCap is a set of Rust and C components on the seL4 kernel. This project models the parts with the
hardest state and arithmetic and proves what they promise. Each Dafny file holds one module;
`Basics` holds what several of them share.

- **Substring search** (`CStrings`, `Words`, `MaxSuffix`, `TwoWay`, `Windows`, `Strstr`): the two-way
  algorithm with its maximal suffixes, shift table and remembered prefix, and the short-needle
  windows, down to "first occurrence or null". The critical factorization theorem is proved from scratch.
- **Untyped memory** (`BestFit`, `DerivationTree`, `FreeSpace`, `CRegion`, `LeafNodes`, `Allocator`): the
  buddy allocator with its derivation tree, free list and slot set; best fit is optimal; what is free
  is a function of what is live; any sequence of creations and frees keeps the representations in
  agreement and returns to the start.
- **Realms** (`RealmModel`, `RealmPaths`, `Realize`, `Realizer`): how a realm's CNode is sized and exactly when it
  runs out, and realms built from and given back to the allocator.
- **Device tree blobs** (`Endian`, `Utf8`, `Fdt`, `FdtCode`, `FdtRoundTrip`, `FdtRead`, `FdtGrammar`):
  writer, reader, round trip, and the reader against a grammar of all blobs (Devicetree
  Specification, sections 5.2 to 5.5).
- **Ring buffers** (`RingProtocol`, `RingMemory`, `PacketProtocol`, `PacketRing`): two endpoints
  interleaved byte by byte, below and with packet framing, the wrap-around copies and the queue in
  front.
- **Synchronisation** (`Mutex`, `EventBitfield`): the counter-and-notification mutex and the event
  bitfield, as interleaved steps of any number of threads.
- **Timer server** (`TimerList`, `TimerServer`): the sorted list, the update loop, and whole runs.
- **Core lending** (`CoreLending`): the resource server and the event server's subscriptions.
- **Codes** (`Finite`, `WireFormat`, `WireGrammar`, `Readdir`): the derived numbering of sums of
  products, and the 9P2000.L wire format, against its grammar, with directory paging.
- **Virtual interrupts** (`BitWords`, `Distributor`, `GicModel`, `GicDelivery`, `Gic`,
  `DroppedInterrupt`): list registers, their mirror and the overflow queue (ARM Generic Interrupt Controller specification 2.0,
  section 4.3), with registers as packed words.

Where the source updates objects in place the model is a class whose methods are proved against
specification functions; protocols between threads are state machines over their atomic steps.
`dafny verify dfyconfig.toml` checks everything.

Where code and documentation, or code and expectation, differ, the model follows the code:

- The total-space test before building a realm is not enough for the allocations to succeed
  (`BestFit.PeekIsNotEnough`); `BestFit.RunSucceedsIffCovered` and `Realizers.JudgedMeans` give the
  exact condition.
- The sizing of a realm's CNode can be too small if a page table is shared
  (`RealmModel.SharedTableOverflows`); `Realize.RealizeSlots` says exactly when slots run out, and that
  they never do in a forest.
- Every realm built takes one slot of the allocator that destroying it does not give back
  (`Realizers.BuildAndDestroy`).
- A period of less than one tick makes the timer server's update loop endless
  (`TimerServers.PeriodTooShort`, `TimerList.NeverEnds`); `TimerServers.Server.Serve` says that nothing
  else does.
- A directory entry larger than a page hides itself and all entries behind it
  (`Readdir.LongNameUnread`); `Readdir.ReadAll` says that a directory is read whole exactly if it has none.
- Text that is cut short on the wire is accepted (`WireFormat.CutVersion`);
  `WireFormat.DecodedExactly` says exactly when what is decoded is what the bytes encode.
- A waiting interrupt that the distributor refuses when its turn comes is dropped, and those behind it
  go on waiting beside an empty register (`DroppedInterrupt.DropsAndWaits`);
  `GicModel.MaintenanceKeepsBusy` gives the exact condition.

## Model

| member | source | states |
|---|---|---|
| `Words.CriticalFactorization` | src/c/icecap-some-libc/src/string/strstr.c:107-115 | The larger of the two maximal-suffix starts is a critical position: every local period there is longer than the left part and is a period of the whole needle. |
| `Words.ShortPeriodIsGlobal` | src/c/icecap-some-libc/src/string/strstr.c:110-115 | If the needle has any period that fits in its right part, the least period of the right part is a period of the whole needle, so one comparison of the left part settles whether it is. |
| `MaxSuffix.MaximalSuffix` | src/c/icecap-some-libc/src/string/strstr.c:70-108 | The scan with `ip`, `jp`, `k`, `p`, in either letter order, ends with the start of the greatest suffix and with the least period of that suffix. |
| `TwoWaySearch.Factorize` | src/c/icecap-some-libc/src/string/strstr.c:70-115 | At the chosen split every local period is a period of the needle, every shift under which a matched right part repeats is at least `p`, and `mem0` is either 0 or what a shift by the period `p` of the whole needle keeps. |
| `TwoWaySearch.FillTables` | src/c/icecap-some-libc/src/string/strstr.c:66-68 | `byteset` marks exactly the letters of the needle and `shift` holds one more than the last place of each. |
| `TwoWaySearch.LastByteShift` | src/c/icecap-some-libc/src/string/strstr.c:133-146 | Moving on by the distance of the window's last byte from its last place in the needle passes over no occurrence. |
| `TwoWaySearch.RememberedShift` | src/c/icecap-some-libc/src/string/strstr.c:137-139 | With a remembered prefix and a wrong last byte, no occurrence starts before the length of that prefix further on. |
| `TwoWaySearch.RightShift` | src/c/icecap-some-libc/src/string/strstr.c:149-154 | After a mismatch at `k` in the right part, no occurrence starts before `k - ms` further on. |
| `TwoWaySearch.LeftShift` | src/c/icecap-some-libc/src/string/strstr.c:156-159 | After a mismatch in the left part, no occurrence starts before `p` further on, and the remembered prefix matches there. |
| `TwoWaySearch.UpdateEnd` | src/c/icecap-some-libc/src/string/strstr.c:123-131 | Null exactly when the rest of the haystack is shorter than the needle; otherwise an end within the haystack that leaves room for the needle. |
| `TwoWaySearch.TwoWay` | src/c/icecap-some-libc/src/string/strstr.c:58-161 | For every haystack and needle: the first occurrence, or null exactly when there is none. |
| `Windows.TwoByte` | src/c/icecap-some-libc/src/string/strstr.c:29-34 | The two-byte window finds the first occurrence or returns null exactly when there is none. |
| `Windows.ThreeByte` | src/c/icecap-some-libc/src/string/strstr.c:36-41 | The same for needles of three bytes, with the low byte of the word left free. |
| `Windows.FourByte` | src/c/icecap-some-libc/src/string/strstr.c:43-50 | The same for needles of four bytes. |
| `Strstr.StrStr` | src/c/icecap-some-libc/src/string/strstr.c:163-179 | Whatever path the needle's length picks, the result is the first occurrence or null exactly when there is none. |
| `BestFit.TakeKeepsCover` | src/rust/crates/framework/dyndl/realize/src/allocator/node.rs:254-293 | Serving a request from the smallest block that is large enough keeps every level's supply at or above what the remaining requests need. |
| `BestFit.CoverBeforeTake` | src/rust/crates/framework/dyndl/realize/src/allocator/node.rs:254-293 | If what is left after a best-fit choice covers the remaining requests, the supply before it covered all of them. |
| `BestFit.RunSucceedsIffCovered` | src/rust/crates/framework/dyndl/realize/src/allocator/mod.rs:193-240 | Requests in any order all succeed if and only if, at every level, free bytes in blocks at least that large cover the bytes requested at least that large. |
| `BestFit.ShortMeans` | src/rust/crates/framework/dyndl/realize/src/allocator/mod.rs:193-332 | A run lacks nothing if and only if the memory serves it and the slots suffice for all its splits; while memory covers it, a missing block is never what stops it. |
| `BestFit.PeekSufficesForOneBlock` | src/rust/crates/framework/dyndl/realize/src/allocator/mod.rs:141-153 | With a single free block, the total-space test is true exactly when the requests can all be served. |
| `BestFit.PeekIsNotEnough` | src/rust/crates/framework/dyndl/realize/src/allocator/mod.rs:141-153 | Two free blocks that pass the total-space test for a request neither can serve: the test alone does not guarantee success. |
| `DerivationTree.WalkFindsIds` | src/rust/crates/framework/dyndl/realize/src/allocator/node.rs:167-197 | A walk from the root reaches a free or live node exactly when its region is in the tree's set of such regions. |
| `DerivationTree.PlantAddsRegion` | src/rust/crates/framework/dyndl/realize/src/allocator/mod.rs:49-113 | Adding an aligned built-in disjoint from the others gives a well-formed tree whose free regions are the old ones and this one. |
| `DerivationTree.NothingLive` | src/rust/crates/framework/dyndl/realize/src/allocator/mod.rs:357-470 | A well-formed tree without live regions is the tree of its built-ins: nothing is left split. |
| `DerivationTree.RegionsDisjoint` | src/rust/crates/framework/dyndl/realize/src/allocator/mod.rs:243-312 | Two different free or live regions of a tree never overlap. |
| `DerivationTree.RegionsCoverBuiltIns` | src/rust/crates/framework/dyndl/realize/src/allocator/mod.rs:243-312 | An address lies in a free or live region exactly when it lies in a built-in one: no byte appears or disappears. |
| `DerivationTree.RegionsAligned` | src/rust/crates/framework/dyndl/realize/src/allocator/mod.rs:243-312 | Every free or live region is aligned to its size. |
| `FreeSpace.FreeIsDetermined` | src/rust/crates/framework/dyndl/realize/src/allocator/mod.rs:193-470 | The free regions are, in every built-in, the largest aligned blocks with nothing live in them, and the tree has two slots for each split these need: both are functions of the built-ins and the live regions, whatever was created and freed before. |
| `FreeSpace.SameLiveSameFree` | src/rust/crates/framework/dyndl/realize/src/allocator/mod.rs:193-470 | Two well-formed trees over the same built-ins with the same live regions have the same free regions. |
| `CRegions.CRegion.constructor` | src/rust/crates/framework/dyndl/realize/src/cregion/mod.rs:33-43 | A new region has exactly the slots below 2^radix, all unused. |
| `CRegions.CRegion.Deposit` | src/rust/crates/framework/dyndl/realize/src/cregion/set.rs:21-30 | Depositing a range makes exactly its slots unused, whether they were in use or are new, and adds no others. |
| `CRegions.CRegion.Withdraw` | src/rust/crates/framework/dyndl/realize/src/cregion/set.rs:33-75 | The first run of unused slots of the wanted length is taken, and nothing changes when there is none. |
| `CRegions.CRegion.Alloc` | src/rust/crates/framework/dyndl/realize/src/cregion/mod.rs:46-51 | The lowest unused slot, or none exactly when every slot is used. |
| `CRegions.CRegion.FreeSlot` | src/rust/crates/framework/dyndl/realize/src/cregion/mod.rs:58-60 | Exactly that slot becomes unused. |
| `LeafLists.LeafNodes.AddLeaf` | src/rust/crates/framework/dyndl/realize/src/allocator/node.rs:237-245 | The free list holds the old regions and the new one, each once and under its size. |
| `LeafLists.LeafNodes.GetLeaf` | src/rust/crates/framework/dyndl/realize/src/allocator/node.rs:254-293 | A region of the smallest size that serves the request is taken off; no bucket is left empty, so the pop cannot fail. |
| `LeafLists.LeafNodes.RemoveLeaf` | src/rust/crates/framework/dyndl/realize/src/allocator/node.rs:296-327 | A listed region is found and exactly it is taken off the list. |
| `LeafLists.LeafNodes.ConsumableSpace` | src/rust/crates/framework/dyndl/realize/src/allocator/node.rs:332-340 | The sum over the buckets is the number of bytes in listed regions. |
| `Allocators.Allocator.constructor` | src/rust/crates/framework/dyndl/realize/src/allocator/mod.rs:41-116 | From disjoint aligned built-ins: tree, free list and slot set agree, nothing is live, and the tree is that of the built-ins. |
| `Allocators.Allocator.GetNode` | src/rust/crates/framework/dyndl/realize/src/allocator/node.rs:167-197 | The walk returns the node of the named region. |
| `Allocators.Allocator.SplitUntyped` | src/rust/crates/framework/dyndl/realize/src/allocator/mod.rs:243-312 | A free region is replaced by its halves in two fresh slots. |
| `Allocators.Allocator.CreateObject` | src/rust/crates/framework/dyndl/realize/src/allocator/mod.rs:193-240 | The object gets a region of exactly its size that was not live, at the end of one of the smallest free blocks that are large enough; free counts, live set and invariants are those of the specification, and every slot newly in use is one of the tree. |
| `Allocators.Allocator.CreateCNode` | src/rust/crates/framework/dyndl/realize/src/allocator/mod.rs:156-188 | The CNode gets a region of its size and a fresh region of 2^radix slots; of the two slots taken besides those of the tree exactly one stays in use. |
| `Allocators.Allocator.CreateObjects` | src/rust/crates/framework/dyndl/realize/src/allocator/mod.rs:316-332 | Objects get distinct new regions of their sizes and distinct slots of the realm, up to the first that lacks a block or slots; which one that is, and what it lacks, is told by the free blocks and slots beforehand. |
| `Allocators.Allocator.PeekSpace` | src/rust/crates/framework/dyndl/realize/src/allocator/mod.rs:141-153 | True exactly when the bytes requested do not exceed the free bytes. |
| `Allocators.Allocator.RevokeAndFree` | src/rust/crates/framework/dyndl/realize/src/allocator/mod.rs:338-354 | Exactly that region stops being live, buddies are coalesced as far as they go, and the slots given back are exactly those the tree no longer uses. |
| `Allocators.Allocator.RevokeAndFreeHelper` | src/rust/crates/framework/dyndl/realize/src/allocator/mod.rs:357-470 | Freeing below a node keeps that subtree, the list and the slots in agreement and leaves no node with two free halves. |
| `Allocators.Allocator.Join` | src/rust/crates/framework/dyndl/realize/src/allocator/mod.rs:417-466 | Two free halves are removed from list and tree, their slots given back, and their parent becomes the free region. |
| `Allocators.Allocator.NothingOutstanding` | src/rust/crates/framework/dyndl/realize/src/allocator/mod.rs:338-354 | With nothing live, tree and free list are those of the built-ins. |
| `Allocators.Allocator.FreeListDetermined` | src/rust/crates/framework/dyndl/realize/src/allocator/mod.rs:193-470 | In every valid state the free list is the one that the built-ins and the live regions alone determine. |
| `Allocators.Allocator.SlotsBack` | src/rust/crates/framework/dyndl/realize/src/allocator/mod.rs:193-470 | When the live regions are what they were, the tree has as many slots as it had. |
| `Allocators.Allocator.RegionsTile` | src/rust/crates/framework/dyndl/realize/src/allocator/mod.rs:243-312 | In every valid state free and live regions are disjoint, aligned and cover exactly the built-ins. |
| `Allocators.Allocator.FreeAll` | src/rust/crates/framework/dyndl/realize/src/lib.rs:99-107 | Freeing regions in any order removes exactly them; when they were all that was live, tree and free list are as built. |
| `Allocators.Allocator.Serve` | src/rust/crates/framework/dyndl/realize/src/allocator/mod.rs:193-354 | One request: an object is created exactly when a block and the slots to split it are there, at the end of a best-fitting block; a free takes out exactly the region named; slots in use besides those of the tree stay the same. |
| `Allocators.Allocator.Session` | src/rust/crates/framework/dyndl/realize/src/allocator/mod.rs:193-470 | For any sequence of creations and frees, of any length: before and after each request the free regions and the number of unused slots are those that the outstanding regions determine, a creation succeeds exactly when a block and slots are there, and a free takes out the region it names; once everything is freed, tree, free list and slots are as at the start. |
| `RealmModel.CopiesCovered` | src/rust/crates/framework/dyndl/realize/src/initialize_subsystem_objects.rs:99-160 | For page tables that form a forest, the frame copies made while mapping never exceed the mappings counted. |
| `RealmModel.SizeBitsToContain` | src/rust/crates/framework/dyndl/realize/src/utils.rs:29-32 | The result is the least number of bits that x fits in. |
| `RealmModel.RadixSuffices` | src/rust/crates/framework/dyndl/realize/src/lib.rs:112-132 | For a forest the chosen CNode has room for every object and every frame copy. |
| `RealmModel.SharedTableOverflows` | src/rust/crates/framework/dyndl/realize/src/lib.rs:112-132 | A resolvable model with a page table hung in two places makes more copies than the chosen CNode has slots, so by RealizeSlots its slots run out, provided the kernel maps the table twice. |
| `RealmPaths.CopiesCountPaths` | src/rust/crates/framework/dyndl/realize/src/initialize_subsystem_objects.rs:99-160 | The copies made are as many as there are ways from a global directory through its tables down to a frame, large or small. |
| `RealmPaths.SizingCounts` | src/rust/crates/framework/dyndl/realize/src/lib.rs:112-132 | The sizing counts exactly the table entries that map a frame, reached or not, and the local objects. |
| `Realize.SortByKey` | src/rust/crates/framework/dyndl/realize/src/model_view.rs:32-38 | The local objects in order of size and then type, each as often as before. |
| `Realize.NewView` | src/rust/crates/framework/dyndl/realize/src/model_view.rs:14-46 | The lists name each local and each extern object once, the local one in order, and `reverse` gives every object its place. |
| `Realize.CountMappings` | src/rust/crates/framework/dyndl/realize/src/lib.rs:113-130 | The loop counts every small-page entry and every large-page entry of the model. |
| `Realize.TakeSlots` | src/rust/crates/framework/dyndl/realize/src/initialize_subsystem_objects.rs:264-271 | One fresh slot each while there are any; fewer exactly when the region has fewer. |
| `Realize.MapTable` | src/rust/crates/framework/dyndl/realize/src/initialize_subsystem_objects.rs:133-153 | One fresh slot per frame of the table, or all there are when those are too few. |
| `Realize.MapDirectory` | src/rust/crates/framework/dyndl/realize/src/initialize_subsystem_objects.rs:117-155 | As many fresh distinct slots as frames below the directory; it stops early exactly for missing slots, or for a reference of the wrong kind. |
| `Realize.InitVSpaces` | src/rust/crates/framework/dyndl/realize/src/initialize_subsystem_objects.rs:99-160 | For every model whose references resolve, slots run out if and only if the copies computed from the model exceed the slots there are; otherwise every copy gets a slot of its own. |
| `Realize.RealmPointers` | src/rust/crates/framework/dyndl/realize/src/cregion/mod.rs:67-81 | With the guard that create_cnode picks, a pointer has depth 64 and fits a word; its upper bits are the path to the CNode, its lower bits the slot, and the guard between is zero. |
| `Realize.ReverseFinds` | src/rust/crates/framework/dyndl/realize/src/lib.rs:235-247 | Every object is found in its list through `reverse`. |
| `Realize.RealizeSlots` | src/rust/crates/framework/dyndl/realize/src/lib.rs:109-171 | For every model: object and copy slots are distinct and in range and each object resolves to the slot created for it. If its references resolve, slots run out if and only if objects and copies exceed 2^radix; in a forest they never do. |
| `Realizers.CoversAnyOrder` | src/rust/crates/framework/dyndl/realize/src/allocator/mod.rs:193-240 | Whether free memory covers a set of requests does not depend on their order. |
| `Realizers.SizesAscend` | src/rust/crates/framework/dyndl/realize/src/model_view.rs:32-38 | Whatever the order of the view among equal keys, objects are created in the one ascending order of their sizes. |
| `Realizers.CoveredRuns` | src/rust/crates/framework/dyndl/realize/src/allocator/mod.rs:193-240 | Free memory serves a model's CNode and then its objects, in the order of creation, if and only if it covers the model. |
| `Realizers.CheckSpace` | src/rust/crates/framework/dyndl/realize/src/lib.rs:144-154 | The space test is true exactly when the bytes requested do not exceed the free bytes. |
| `Realizers.JudgedMeans` | src/rust/crates/framework/dyndl/realize/src/lib.rs:140-161 | A model is realized if and only if free memory covers it and the slots suffice; with memory that covers it only slots can be missing, and unless slots are missing, memory that does not is always noticed. |
| `Realizers.TurnedDown` | src/rust/crates/framework/dyndl/realize/src/lib.rs:143-154 | Before anything is created a model is turned down exactly if an object exceeds every size counted, or else if CNode and objects come to more bytes than are free. |
| `Realizers.BuildRealm` | src/rust/crates/framework/dyndl/realize/src/lib.rs:109-171 | For every model and allocator: it is realized if and only if the free memory covers CNode and objects at every level and the allocator has the slots that the splits and create_cnode need, and otherwise what is lacking is told beforehand; a failed space test changes nothing. CNode and objects get memory of their size that was not live and distinct slots, and one slot of the allocator is taken besides those of the tree. Slots for copies run out if and only if the model says so, and never in a forest. |
| `Realizers.BuildAndDestroy` | src/rust/crates/framework/dyndl/realize/src/lib.rs:99-107 | Building and destroying a realm, whatever else is live, leaves exactly the regions live and free that were before and exactly one unused slot fewer; with nothing else live the tree is as before too. |
| `FdtCode.Writer.WriteMemRsvmap` | src/rust/crates/framework/base/icecap-fdt/src/write.rs:67-74 | The reservation entries follow in order, closed by a zero entry. |
| `FdtCode.Writer.WriteNode` | src/rust/crates/framework/base/icecap-fdt/src/write.rs:76-92 | Buffer and strings grow by exactly the encoding of the node and the names in it. |
| `FdtCode.WriteDeviceTree` | src/rust/crates/framework/base/icecap-fdt/src/write.rs:96-140 | The blob is header, reservations, structure and strings at the offsets the header states, and spells the tree if the format can carry it. |
| `FdtCode.Cursor.ReadNodeBody` | src/rust/crates/framework/base/icecap-fdt/src/read.rs:92-120 | On every byte string the recursion ends; it goes through exactly if the bytes spell a node, and returns that node and the end of its bytes. |
| `FdtCode.ReadDeviceTree` | src/rust/crates/framework/base/icecap-fdt/src/read.rs:156-187 | On every byte string: a tree is read exactly if the bytes spell it. |
| `FdtRoundTrip.ReadProps` | src/rust/crates/framework/base/icecap-fdt/src/read.rs:99-104 | Properties written one after the other are read back in order and the cursor ends behind them. |
| `FdtRoundTrip.ReadChildren` | src/rust/crates/framework/base/icecap-fdt/src/read.rs:105-109 | Children written one after the other are read back whole and in order. |
| `FdtRoundTrip.ReadReserveBack` | src/rust/crates/framework/base/icecap-fdt/src/read.rs:122-131 | Reservation entries other than (0,0) are read back exactly. |
| `FdtRoundTrip.ReadInvertsWrite` | src/rust/crates/framework/base/icecap-fdt/src/read.rs:156-187 | Reading what was written gives the tree back, for every tree with NUL-free UTF-8 names, no (0,0) reservation and sizes that fit 32 bits. |
| `FdtCode.Cursor.ReadMemRsvmap` | src/rust/crates/framework/base/icecap-fdt/src/read.rs:122-131 | On every byte string: the entries that are spelled, up to the one that is all zeros, or an error exactly if there are none. |
| `FdtRead.ReadNodeWritable` | src/rust/crates/framework/base/icecap-fdt/src/read.rs:92-120 | Whatever the token loop makes of arbitrary bytes is sorted by name, with proper names and sizes that fit. |
| `FdtRead.ReadIsStable` | src/rust/crates/framework/base/icecap-fdt/src/read.rs:156-187 | Every tree read from arbitrary bytes is one the format can carry, and if its blob fits the header fields it is read back from it unchanged. |
| `FdtGrammar.ReadsWhatIsSpelled` | src/rust/crates/framework/base/icecap-fdt/src/read.rs:92-120 | For all bytes: a node is read if and only if the bytes spell it, with NOPs anywhere between tokens, properties and children in any order, and the last entry of a name in effect. |
| `FdtGrammar.ReadsTreeSpelled` | src/rust/crates/framework/base/icecap-fdt/src/read.rs:156-187 | For all bytes: a tree is read if and only if header, reservations, structure and strings spell it. |
| `FdtGrammar.ReadsOutside` | src/rust/crates/framework/base/icecap-fdt/src/read.rs:163-175 | The source slices outside the blob exactly if a right header points outside and the reservations before are spelled. |
| `FdtGrammar.WritesWhatIsSpelled` | src/rust/crates/framework/base/icecap-fdt/src/write.rs:96-140 | What is written for a tree the format can carry spells that tree. |
| `FdtGrammar.LessMeans` | src/rust/crates/framework/base/icecap-fdt/src/read.rs:92-120 | Names are ordered by their first different byte, a name before its extensions. |
| `Utf8.Utf8IsEncoded` | src/rust/crates/framework/base/icecap-fdt/src/read.rs:143-153 | A name is accepted as text exactly if it encodes some Unicode scalar values. |
| `RingProtocol.StepKeepsInv` | src/rust/crates/framework/base/icecap-ring-buffer/src/ring_buffer.rs:130-237 | Every step of either endpoint, one byte or one published offset at a time, keeps the offsets ordered and the unread bytes intact. |
| `RingProtocol.RunsAreSafe` | src/rust/crates/framework/base/icecap-ring-buffer/src/ring_buffer.rs:130-237 | Under every interleaving of write, publish, read, publish and resume the offsets stay ordered within the ring, no poll can fail, and what was read is a prefix of what was written. |
| `RingMemory.WriteBytes` | src/rust/crates/framework/base/icecap-ring-buffer/src/ring_buffer.rs:195-217 | The wrap-around copy stores each byte at its offset modulo the size. |
| `RingMemory.PeekBytes` | src/rust/crates/framework/base/icecap-ring-buffer/src/ring_buffer.rs:161-181 | The wrap-around copy loads the bytes at the offsets modulo the size. |
| `RingMemory.ReadIsStream` | src/rust/crates/framework/base/icecap-ring-buffer/src/ring_buffer.rs:161-193 | What a reader copies out is the writer's stream at those offsets. |
| `PacketProtocol.ReadyEnabled` | src/rust/crates/framework/base/icecap-ring-buffer/src/ring_buffer.rs:283-316 | Wherever the two sides stand in their code, the next access is one the ring allows: there is room for the payload behind a header, and the payload to be read is there. |
| `PacketProtocol.KnownIsThere` | src/rust/crates/framework/base/icecap-ring-buffer/src/ring_buffer.rs:283-294 | The comparison of a header with what the second poll saw never fails, since only whole packets are published. |
| `PacketProtocol.ActKeeps` | src/rust/crates/framework/base/icecap-ring-buffer/src/ring_buffer.rs:283-324 | Every single access of either side, while the other may be halfway through a packet, keeps the stream framed and the reader between packets or behind a header. |
| `PacketProtocol.PacketsArrive` | src/rust/crates/framework/base/icecap-ring-buffer/src/ring_buffer.rs:283-324 | Under every interleaving of single accesses, with packets taken while others are half written, the packets taken are whole, in order, published, and the first of those that writing has begun for. |
| `PacketRing.WriteKeeps` | src/rust/crates/framework/base/icecap-ring-buffer/src/ring_buffer.rs:309-316 | A packet write that fits the room polled is begin, byte stores and end for header and payload, so it leaves whole packets in the ring. |
| `PacketRing.PeekIsHeader` | src/rust/crates/framework/base/icecap-ring-buffer/src/ring_buffer.rs:283-294 | Four bytes are polled behind the receiver exactly when a packet is, and what is loaded from the ring there is its length. |
| `PacketRing.TakeIsPacket` | src/rust/crates/framework/base/icecap-ring-buffer/src/ring_buffer.rs:296-307 | Behind a header looked at, the whole packet has been polled, and what is loaded from the ring is its payload. |
| `PacketRing.Sender.PollWrite` | src/rust/crates/framework/base/icecap-ring-buffer/src/ring_buffer.rs:151-159 | The room computed from the published reader offset, which the subtraction never undershoots. |
| `PacketRing.Sender.WritePacket` | src/rust/crates/framework/base/icecap-ring-buffer/src/ring_buffer.rs:309-316 | Header and payload are stored in the ring together or nothing is, exactly according to the published reader offset. |
| `PacketRing.Sender.FlushTx` | src/rust/crates/framework/base/icecap-ring-buffer/src/buffered_ring_buffer.rs:108-124 | Queued packets go out oldest first until one does not fit; none is lost or reordered, and the state is that of the specification. |
| `PacketRing.Sender.TxCallback` | src/rust/crates/framework/base/icecap-ring-buffer/src/buffered_ring_buffer.rs:128-134 | What is queued is sent and published if its first packet fits, and what stays queued then does not fit. |
| `PacketRing.Sender.Tx` | src/rust/crates/framework/base/icecap-ring-buffer/src/buffered_ring_buffer.rs:148-159 | The packet goes behind everything queued: into the ring and published if nothing was queued and there is room, and else a queue is left only if its first packet does not fit. |
| `PacketRing.Receiver.Poll` | src/rust/crates/framework/base/icecap-ring-buffer/src/ring_buffer.rs:283-294 | The header loaded from the ring is the length of the next published packet, there is none exactly when no packet is published, and the second comparison never fails. |
| `PacketRing.Receiver.Take` | src/rust/crates/framework/base/icecap-ring-buffer/src/ring_buffer.rs:301-307 | After a poll the payload loaded from the ring is the next packet, whole. |
| `PacketRing.Receiver.Rx` | src/rust/crates/framework/base/icecap-ring-buffer/src/buffered_ring_buffer.rs:140-146 | The next published packet, loaded from the ring, or none exactly when none is published; its space is given back. |
| `PacketRing.NothingLost` | src/rust/crates/framework/base/icecap-ring-buffer/src/buffered_ring_buffer.rs:108-159 | Packets received, then in the ring, then queued, are the packets given to the sender. |
| `PacketRing.Run` | src/rust/crates/framework/base/icecap-ring-buffer/src/buffered_ring_buffer.rs:108-159 | Over one shared ring and for every sequence of operations of both sides, queue, ring and received packets are those of the specification run; received, in the ring and queued are exactly the packets sent, whole and in order; and packets stay queued after a flush only if the first does not fit. |
| `PacketRing.Drain` | src/rust/crates/framework/base/icecap-ring-buffer/src/buffered_ring_buffer.rs:108-159 | Receiving and sending in turn delivers every queued packet, if each is smaller than the ring. |
| `Mutex.StepKeepsInv` | src/rust/crates/framework/base/icecap-sync/src/mutex.rs:31-44 | Below one, the counter goes with exactly one token: the holder, an unlocker about to signal, or a pending notification. |
| `Mutex.MutualExclusion` | src/rust/crates/framework/base/icecap-sync/src/mutex.rs:31-44 | In every run at most one thread is inside. |
| `Mutex.SignalsNeverCoalesce` | src/rust/crates/framework/base/icecap-sync/src/mutex.rs:38-44 | A thread about to signal is the only one and finds the notification empty. |
| `Mutex.WaiterGetsIn` | src/rust/crates/framework/base/icecap-sync/src/mutex.rs:31-44 | From every reachable state any waiter can get inside within three steps of the others. |
| `Mutex.NotDoneGoesOn` | src/rust/crates/framework/base/icecap-sync/src/mutex.rs:31-44 | Unless the mutex is as new, some thread in it has a step to take. |
| `Mutex.EverySchedule` | src/rust/crates/framework/base/icecap-sync/src/mutex.rs:31-44 | Once no thread newly locks, every schedule ends within a bound, and it can end only with the mutex as new; by then every waiter has been woken. |
| `Mutex.QuiescentIsInitial` | src/rust/crates/framework/base/icecap-sync/src/mutex.rs:31-44 | With no thread in it the mutex is as new. |
| `TimerList.BinarySearch` | src/rust/crates/framework/generic-components/timer-server/src/server.rs:57-60 | Any matching place, or the place to insert, with nothing later before it and nothing earlier behind it. |
| `TimerList.DistinctKeys` | src/rust/crates/framework/generic-components/timer-server/src/server.rs:167-180 | No two entries of the list have the same client and timer number. |
| `TimerList.PeriodicCount` | src/rust/crates/framework/generic-components/timer-server/src/server.rs:126-140 | A due periodic timer with deadline c and period p has (count - c) / p + 1 deadlines up to count. |
| `TimerList.PeriodicDeadline` | src/rust/crates/framework/generic-components/timer-server/src/server.rs:126-140 | Its i-th deadline is c + i * p. |
| `TimerList.PeriodicNext` | src/rust/crates/framework/generic-components/timer-server/src/server.rs:126-140 | It is left at its first deadline after count, on the phase it started with. |
| `TimerList.UpdatesCompose` | src/rust/crates/framework/generic-components/timer-server/src/server.rs:126-140 | Updating early and then late fires the same deadlines and leaves the same timer as updating late once. |
| `TimerList.NeverEnds` | src/rust/crates/framework/generic-components/timer-server/src/server.rs:126-140 | A due timer with a period below one tick keeps the update loop going after any number of rounds. |
| `TimerServers.TickRoundTrip` | src/rust/crates/framework/generic-components/timer-server/src/server.rs:101-107 | For frequencies of 1 to 10^9 a tick count turned into nanoseconds and back loses at most one tick, and none exactly when the division came out even. |
| `TimerServers.PeriodInTicks` | src/rust/crates/framework/generic-components/timer-server/src/server.rs:101-103 | A period reaches one tick exactly when it lasts at least as long as one. |
| `TimerServers.PeriodTooShort` | src/rust/crates/framework/generic-components/timer-server/src/server.rs:218-235 | A period below one tick is due at once and therefore makes its own update endless. |
| `TimerServers.Server.constructor` | src/rust/crates/framework/generic-components/timer-server/src/server.rs:83-99 | No timers, no completions, every client known. |
| `TimerServers.Server.Insert` | src/rust/crates/framework/generic-components/timer-server/src/server.rs:57-60 | The timer goes in at a place that keeps the list in order. |
| `TimerServers.Server.UpdateTimers` | src/rust/crates/framework/generic-components/timer-server/src/server.rs:126-140 | Each timer fires exactly its deadlines up to count, in order of deadline, and is left as it should be; completions are exactly the due timers; the list stays sorted with one entry per client and number; the rounds of the loop are as many as the deadlines owed. |
| `TimerServers.Server.Update` | src/rust/crates/framework/generic-components/timer-server/src/server.rs:142-157 | However often set_compare fails, every timer is settled and completed up to the last count read; the device compares with the earliest deadline left, or is off when there is none. |
| `TimerServers.Server.RemoveTimer` | src/rust/crates/framework/generic-components/timer-server/src/server.rs:172-180 | Exactly the timer named is gone, with its completion if it was outstanding. |
| `TimerServers.Server.SetTimer` | src/rust/crates/framework/generic-components/timer-server/src/server.rs:167-170 | The timer replaces the one of the same client and number, and no other changes. |
| `TimerServers.Server.Serve` | src/rust/crates/framework/generic-components/timer-server/src/server.rs:121-241 | No answer comes exactly for a period of less than one tick; else the requested timer is on the schedule that its nanoseconds ask for, every other timer goes on as before, and a timer is completed exactly if it fired or had completed and was not outstanding when set anew. |
| `TimerServers.Server.NoneMissed` | src/rust/crates/framework/generic-components/timer-server/src/server.rs:142-152 | Whenever a deadline has come the device's interrupt condition holds. |
| `TimerServers.RunsArePunctual` | src/rust/crates/framework/generic-components/timer-server/src/server.rs:182-241 | Between two requests for a timer it fires exactly when the first of them says, to the tick: an absolute one-shot once at its own time, a relative one once that much after the request, a periodic one at every multiple of the period, a stopped one never. |
| `TimerServers.Server.Session` | src/rust/crates/framework/generic-components/timer-server/src/server.rs:121-241 | Over every run, up to a period of less than one tick: every timer fires as if alone, and between two requests for it exactly on the schedule the first of them asks for. |
| `CoreLending.YieldsAnswered` | src/rust/crates/hypervisor/components/resource-server/core/src/lib.rs:187-262 | Per core, yields are as many as resumes, plus one exactly while the core is away. |
| `CoreLending.EventServer.Subscribe` | src/rust/crates/hypervisor/components/event-server/src/server/impls.rs:41-56 | Its assertions hold exactly when neither the host core's slot nor the subscription was taken; then both are. |
| `CoreLending.ResourceServer.YieldTo` | src/rust/crates/hypervisor/components/resource-server/core/src/lib.rs:187-212 | Fails exactly for a core already lent, an unknown virtual node, or one that has a core; never in the subscription. Otherwise the core is lent and the caller waits. |
| `CoreLending.ResourceServer.TakeBack` | src/rust/crates/hypervisor/components/resource-server/core/src/lib.rs:235-262 | Never fails: a lent core is taken back from its virtual node and its caller resumed once, any other core is left alone. |
| `CoreLending.ResourceServer.HostEventAt` | src/rust/crates/hypervisor/components/resource-server/core/src/lib.rs:235-248 | The same with the reason, after the notification was received. |
| `CoreLending.ResourceServer.TellHostEvent` | src/rust/crates/hypervisor/components/event-server/src/server/impls.rs:161-168 | An event for a lent core leaves a notification for the resource server. |
| `CoreLending.ResourceServer.Declare` | src/rust/crates/hypervisor/components/resource-server/core/src/lib.rs:69-74 | Fails exactly for a realm declared or existing. |
| `CoreLending.ResourceServer.RealizeStart` | src/rust/crates/hypervisor/components/resource-server/core/src/lib.rs:88-96 | Fails exactly for a realm not declared; otherwise it becomes a partial realm. |
| `CoreLending.ResourceServer.RealizeFinish` | src/rust/crates/hypervisor/components/resource-server/core/src/lib.rs:115-160 | Fails exactly when the realm is not partial, exists already or is unknown to the event server; otherwise its virtual nodes are at rest on the idle core. |
| `CoreLending.ResourceServer.Destroy` | src/rust/crates/hypervisor/components/resource-server/core/src/lib.rs:162-183 | Fails exactly when a virtual node of the realm has a core; otherwise the realm is gone from both servers. |
| `CoreLending.ResourceServer.LentTo` | src/rust/crates/hypervisor/components/resource-server/core/src/lib.rs:187-262 | A virtual node has a core exactly if some core is lent to it, and a realm is at rest exactly if none is lent to it. |
| `CoreLending.ResourceServer.Step` | src/rust/crates/hypervisor/components/resource-server/core/src/lib.rs:69-262 | Each request fails exactly when the specification by realms, lent cores and the hosts' log says so, and otherwise leads to the state it says; a host event or timeout of a lent core returns it and resumes its host for that reason. |
| `CoreLending.ResourceServer.Serve` | src/rust/crates/hypervisor/components/resource-server/core/src/lib.rs:69-262 | Over every run, lent cores, realms, notifications and the log of yields and resumes are those of the specification run of the requests, up to the first that fails, which is never a host event or a timeout of an existing core; yields and resumes alternate. |
| `CoreLending.Lifecycle` | src/rust/crates/hypervisor/components/resource-server/core/src/lib.rs:69-262 | A realm declared, realized, lent a core, timed out and destroyed: every request is answered, and all that is left of it is the yield and the resume in the log. |
| `CoreLending.ResourceServer.OneToOne` | src/rust/crates/hypervisor/components/resource-server/core/src/lib.rs:187-262 | Cores and virtual nodes are assigned one to one. |
| `CoreLending.ResourceServer.LentCore` | src/rust/crates/hypervisor/components/resource-server/core/src/lib.rs:187-262 | A reply slot is full exactly while its core is lent; then one yield is unanswered, and a subscription or a notification is there to end it. |
| `CoreLending.ResourceServer.IdleThreads` | src/rust/crates/hypervisor/components/resource-server/core/src/lib.rs:187-262 | A realm's thread is on a host core exactly while its virtual node has that core. |
| `BitWords.BitOfWith` | src/rust/crates/hypervisor/components/event-server/types/src/lib.rs:35-41 | Setting or clearing a bit of a word changes that bit and no other. |
| `BitWords.Biterate` | src/rust/crates/framework/helpers/biterate/src/lib.rs:12-24 | Taking out the lowest bit again and again yields each bit of the word once, from the lowest up. |
| `EventBitfield.Bitfield.Clear` | src/rust/crates/hypervisor/components/event-server/types/src/lib.rs:43-56 | On packed words: hands on exactly the set bits of the groups in the badge, in ascending order, and clears exactly those groups. |
| `EventBitfield.StepKeeps` | src/rust/crates/hypervisor/components/event-server/src/server/impls.rs:161-168 | Every step of signallers and client keeps transitions accounted for and set bits announced. |
| `EventBitfield.RunsDeliver` | src/rust/crates/hypervisor/components/event-server/types/src/lib.rs:35-56 | Under every interleaving each clear-to-set transition is handled, held or still set, once each, and every set bit has its group in the badge, about to be signalled, or still to be swapped. |
| `EventBitfield.NotQuietGoesOn` | src/rust/crates/hypervisor/components/vmm/core/src/vmm.rs:192-225 | As long as something is unhandled, signallers or client have a step to take. |
| `EventBitfield.EverySchedule` | src/rust/crates/hypervisor/components/vmm/core/src/vmm.rs:192-225 | Once no event is raised, every schedule ends within a bound, and where it can end everything raised has been handled. |
| `Finite.ToNatBelow` | src/rust/crates/framework/helpers/finite-set/derive/src/lib.rs:42-69 | The derived number is below the derived cardinality. |
| `Finite.FromToNat` | src/rust/crates/framework/helpers/finite-set/derive/src/lib.rs:42-108 | from_nat gives back the value that to_nat numbered. |
| `Finite.ToFromNat` | src/rust/crates/framework/helpers/finite-set/derive/src/lib.rs:71-108 | to_nat gives back every number below the cardinality, from a value of the type. |
| `Finite.InOrder` | src/rust/crates/framework/helpers/finite-set/derive/src/lib.rs:42-69 | Numbers grow with the variant and then with the fields from the last to the first, so there is no other numbering. |
| `WireFormat.EncodeUInt` | src/rust/crates/framework/9p/crosvm-9p/src/wire_format.rs:38-47 | The loop writes the little-endian bytes of the number. |
| `WireFormat.DecodeUInt` | src/rust/crates/framework/9p/crosvm-9p/src/wire_format.rs:49-60 | The loop reads the number the little-endian bytes stand for. |
| `WireFormat.LeRoundTrip` | src/rust/crates/framework/9p/crosvm-9p/src/wire_format.rs:31-63 | A number that fits its width is read back from its bytes. |
| `WireFormat.EncodedLength` | src/rust/crates/framework/9p/crosvm-9p/src/wire_format.rs:72-179 | For every type of the schema the encoding is byte_size bytes long. |
| `WireFormat.DecodeEncode` | src/rust/crates/framework/9p/crosvm-9p/src/wire_format.rs:72-202 | For every type and value within the limits, decoding gives the value back and leaves exactly what followed. |
| `WireFormat.DecodeEncodeFields` | src/rust/crates/framework/9p/crosvm-9p/wire-format-derive/src/lib.rs:72-149 | The field-by-field scheme of the derive macro decodes what it encoded, field by field. |
| `WireFormat.DecodedExactly` | src/rust/crates/framework/9p/crosvm-9p/src/wire_format.rs:49-202 | For every type and all bytes: what is decoded is within the limits and takes exactly the bytes read, and encoding it gives them back if and only if no text in them announces more bytes than there are. |
| `WireFormat.CutVersion` | src/rust/crates/framework/9p/crosvm-9p/src/wire_format.rs:88-94 | A Tversion whose name announces eight bytes and has two is accepted with those two. |
| `WireFormat.FrameLength` | src/rust/crates/framework/9p/crosvm-9p/src/messages.rs:126-160 | A frame is as long as the size it announces. |
| `WireFormat.DecodeEncodeFrame` | src/rust/crates/framework/9p/crosvm-9p/src/messages.rs:162-287 | Decoding an encoded frame gives it back and consumes exactly its bytes. |
| `WireFormat.FrameExactly` | src/rust/crates/framework/9p/crosvm-9p/src/messages.rs:231-287 | A frame decoded from any bytes fits the schema, and encoding it gives them back if and only if the announced bytes are there, the message takes all of them and no text in it is cut short. |
| `WireFormat.StreamRoundTrip` | src/rust/crates/framework/9p/crosvm-9p/src/messages.rs:125-288 | A concatenation of frames is decoded to the same frames. |
| `WireGrammar.DecodesWhatIsCarried` | src/rust/crates/framework/9p/crosvm-9p/src/wire_format.rs:49-202 | For all types and bytes: a value is decoded if and only if the bytes carry it, byte by byte as the protocol lays it out. |
| `WireGrammar.EncodesWhatIsCarried` | src/rust/crates/framework/9p/crosvm-9p/src/wire_format.rs:72-179 | What is encoded carries its value, laid out in the same way. |
| `WireGrammar.DecodesFrameCarried` | src/rust/crates/framework/9p/crosvm-9p/src/messages.rs:231-287 | For all bytes: a frame is decoded if and only if size, type, tag and message carry it. |
| `Readdir.AnswerSize` | src/rust/crates/framework/9p/crosvm-9p-server/src/lib.rs:791-799 | The frame around a page is as long as the page and the header computed from an empty one. |
| `Readdir.PageDecodes` | src/rust/crates/framework/9p/crosvm-9p-server/src/lib.rs:803-820 | A client that decodes a page gets back the entries put there. |
| `Readdir.DecodePage` | src/rust/crates/framework/9p/crosvm-9p-server/src/lib.rs:803-820 | Decoding entry after entry to the end of a page yields exactly the entries put there. |
| `Readdir.Server.Version` | src/rust/crates/framework/9p/crosvm-9p-server/src/lib.rs:314-331 | Message sizes below the minimum are refused; otherwise the size is kept within the limits and open directories are forgotten. |
| `Readdir.Server.ReadDirectory` | src/rust/crates/framework/9p/crosvm-9p-server/src/lib.rs:743-781 | Each cached entry carries the total size of the entries up to it. |
| `Readdir.Server.GetPage` | src/rust/crates/framework/9p/crosvm-9p-server/src/lib.rs:783-822 | A page decodes to the entries behind the offset, in a frame of at most msize bytes and a page of at most count, and the next entry would exceed one of the two. |
| `Readdir.Server.Readdir` | src/rust/crates/framework/9p/crosvm-9p-server/src/lib.rs:743-823 | At offset 0 the directory is read anew, at any other the cached entries stay; the page ends where the next entry would exceed count or msize. |
| `Readdir.ReadAll` | src/rust/crates/framework/9p/crosvm-9p-server/src/lib.rs:725-823 | A client that decodes each page, goes on after the last offset received and stops at an empty page gets, however the directory changes meanwhile, every entry once and in order up to the first that is larger than count or than msize less the header. |
| `Readdir.LongNameUnread` | src/rust/crates/framework/9p/crosvm-9p-server/src/lib.rs:783-822 | At the smallest message size, a directory with one file of a 255-byte name reads as empty. |
| `BitWords.Shifted` | src/rust/crates/framework/vmm/gic/src/distributor/mod.rs:917-968 | A shift right and a mask pick the digit that the field is. |
| `Distributor.SetThenGet` | src/rust/crates/framework/vmm/gic/src/distributor/mod.rs:1004-1044 | Every interrupt has bits of its own in the packed words: setting its field is seen by the cores that share it and changes no other. |
| `Distributor.AckClears` | src/rust/crates/framework/vmm/gic/src/distributor/mod.rs:1200-1218 | After an ack the interrupt is inactive, and pending exactly if it was and is an SGI that a core other than 0 raised too; those cores stay recorded, and whether others should be injected does not change. |
| `GicModel.InjectKeeps` | src/rust/crates/framework/vmm/gic/src/gic.rs:248-274 | An injection into a register the mirror shows empty finds the hardware register empty and the interrupt allowed, and keeps mirror and hardware in agreement. |
| `GicModel.MaintainKeeps` | src/rust/crates/framework/vmm/gic/src/gic.rs:128-151 | The mirror has the interrupt whose end is reported; what takes its place is recorded and allowed. |
| `GicModel.HandleKeeps` | src/rust/crates/framework/vmm/gic/src/gic.rs:100-287 | Every event that goes through keeps mirror and hardware in agreement and the queues free of duplicates, and an end or its report never fails. |
| `GicModel.RunsAreRightful` | src/rust/crates/framework/vmm/gic/src/gic.rs:100-287 | In every run the hardware is what the recorded injections and ends make of it, no injection overwrites an occupied register, and each was allowed just before and has its own priority. |
| `GicModel.InStep` | src/rust/crates/framework/vmm/gic/src/gic.rs:219-287 | With all ends handled the mirror equals the hardware, and no queue is longer than there are interrupts. |
| `GicModel.HandleKeepsBusy` | src/rust/crates/framework/vmm/gic/src/gic.rs:219-246 | No event but maintenance can leave interrupts waiting beside an empty register. |
| `GicModel.MaintenanceKeepsBusy` | src/rust/crates/framework/vmm/gic/src/gic.rs:128-151 | Maintenance leaves interrupts waiting beside an empty register if and only if two or more wait and the distributor refuses the first. |
| `GicDelivery.AllowedMeans` | src/rust/crates/framework/vmm/gic/src/distributor/mod.rs:904-914 | The distributor lets an interrupt in exactly if it is switched on, the core is a target, and it is not active there. |
| `GicDelivery.InterruptArrives` | src/rust/crates/framework/vmm/gic/src/gic.rs:100-125 | A private interrupt arrives at its core, a shared one at the caller if that is a target and else at the lowest target: in the first empty register, in the queue once, or refused and pending. It goes nowhere only without targets, and fails only if the lowest target does not exist. |
| `GicDelivery.MaintenanceDoes` | src/rust/crates/framework/vmm/gic/src/gic.rs:128-151 | The ended interrupt becomes inactive, the first one waiting leaves the queue, and is in the register exactly if the distributor lets it in. |
| `GicDelivery.AcksClear` | src/rust/crates/framework/vmm/gic/src/gic.rs:181-200 | After the acks of a write exactly the interrupts named are inactive, and all others as before. |
| `GicDelivery.AllPresent` | src/rust/crates/framework/vmm/gic/src/gic.rs:205-213 | Every interrupt a write injects is afterwards in the queue of its core or pending there. |
| `GicDelivery.WriteDoes` | src/rust/crates/framework/vmm/gic/src/gic.rs:172-217 | A guest's write fails exactly if it names a core that does not exist; else what it injects is queued or pending afterwards, and of the other interrupts exactly those it acks have become inactive. |
| `DroppedInterrupt.WaitsBesideEmpty` | src/rust/crates/framework/vmm/gic/src/gic.rs:128-151 | From a fresh controller with any five interrupts allowed on a core, a run of arrivals, one end and its maintenance leaves an interrupt waiting beside an empty register. |
| `DroppedInterrupt.DropsAndWaits` | src/rust/crates/framework/vmm/gic/src/gic.rs:128-151 | On one core as reset leaves it, with interrupts 16 to 20 enabled: 16 comes again while active and is dropped, and 20 waits beside register 1. |
| `Gic.GIC.InjectIRQ` | src/rust/crates/framework/vmm/gic/src/gic.rs:248-274 | The whole state is that of the model: pending, and exactly if it should be injected then active, in the register and recorded with its priority. |
| `Gic.GIC.ForwardIRQ` | src/rust/crates/framework/vmm/gic/src/gic.rs:219-246 | The whole state is that of the model: into the first empty register, or once into the queue. |
| `Gic.GIC.HandleSPI` | src/rust/crates/framework/vmm/gic/src/gic.rs:107-122 | Forwarded to the caller if it is a target and else to the first target; without targets nothing happens; it fails exactly when that target does not exist. |
| `Gic.GIC.HandleMaintenance` | src/rust/crates/framework/vmm/gic/src/gic.rs:128-151 | Never fails; the whole state is that of the model: the ended interrupt acked, the head of the queue in its place if it should be injected. |
| `Gic.GIC.HandleWrite` | src/rust/crates/framework/vmm/gic/src/gic.rs:172-217 | Whatever a write does to the distributor, the acks it asks for and then the injections are made in order; it fails exactly when one names a core that does not exist. |
| `Gic.GIC.Serve` | src/rust/crates/framework/vmm/gic/src/gic.rs:100-287 | A run reaches the state the model says, up to the first event that fails or cannot happen, with every access to the hardware recorded and rightful. |

## Left out

- Kernel calls (retype, revoke, mint, map, signal, affinity) are taken to succeed; memory is
  sequentially consistent, and fences are not modelled.
- Pointers: haystack and needle are byte sequences up to their terminator, and the 32-byte `byteset`
  is an array of booleans instead of packed words.
- The derivation tree is updated as a value with `Replace`; that the source writes through mutable
  references into a boxed tree is not captured. The root depth is a parameter.
- Allocators.Allocator.constructor: requires built-ins to be aligned and disjoint, which the source
  leaves to its caller.
- Allocators.Allocator.Session: the free list is compared as a set; the order within a bucket after
  frees, and so which of several best-fitting blocks is taken, is not claimed. Requests that no block
  or too few slots can serve are refused, where the source panics.
- Realizers.BuildRealm: where the source panics for a missing block or slot halfway, the model returns
  what is missing, found just before the object is created.
- Filling of frames, CSpaces and TCBs, and the resolution of externs by name. Mapping is taken to
  succeed, also for a page table that is already mapped.
- Realize.RealmPointers: shifts are products, with the guard empty as create_cnode makes it.
- Ring buffers: notify flags and kicks are hints, so no wake-up is claimed; offsets are unbounded
  where the source has 64 bits. `BufferedRingBuffer` (bytes without framing) adds nothing harder.
- Device trees: properties and children are sequences sorted by name, as the maps of the source
  iterate; sizes over 32 bits are truncated as the casts do, and the round trip excludes them.
- Timer server: ticks and nanoseconds are unbounded where the source has 64 bits; the bit mask that
  `completed` packs (it shifts by a number the guard allows to be 64 or negative) is left out, as is
  the message loop.
- CoreLending: `yield_back` (which no request reaches), `hack_run`, `host_subscribe`, spec chunks,
  the timer that ends a lend, and the events connected when a realm is created.
- EventBitfield: in the interleaved model the words are a set of bit numbers; that the operations on
  packed words are those on the set is what `Bitfield` is proved to do.
- Finite: base types are lawful numberings such as that of realm ids. The hand-written numbering of
  SPIs adds its start and is not one, so `HostIn` is outside.
- WireFormat: the schema is a parameter; the tables of message structures are not listed. Sums of
  sizes are unbounded, and frames that overflow 32 bits are excluded.
- Readdir: the file system, fids and error codes; the capacity of a fresh vector is taken to be what
  was asked for.
- Gic: register accesses of the guest are an arbitrary change of the distributor followed by the acks
  and injections it asks for; interrupts from 1020 on, the SGI registers beyond their effect on an
  ack, and reads are left out.
- Serial multiplexer, drivers, RPC and serialisation glue, error types, start-up code, build and
  composition scripts: mostly input and output, or easier members.
