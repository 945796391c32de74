# Verified models of the driver's support code

This project models five pieces of the repository that carry its hardest logic, and proves what they promise:

* the XArray (`auxiliary/src/kcompat_xarray.c`), in its single-index mode: a pointer-linked radix tree of variable
  height with parent links, counts, aggregated mark bits, an id allocator and ordered iteration;
* the arithmetic of its multi-index ranges (`xas_set_range`);
* the bit-packing library (`auxiliary/src/kcompat_packing.c`) and its compile-time table checks;
* the mailbox control queue (`idpf/src/idpf_controlq.c`), both directions, with the device as an extra step;
* smaller cores: long division, multiply-then-divide, the DIM tuning machine, and the ADI encodings.

## How the XArray is modelled

`XArrays.XArray` and `XaNodes.Node` have the fields of `struct xarray` and `struct xa_node`, and the methods assign them in
the order the source does. Beside them stands ghost state: the nodes by position (level and high digits of the index), the
plain map `contents` from index to entry (reserved entries included), one set of marked indices per mark in `tags`, the set
`live` of nodes the slab has handed out and not got back, and `failures`, the number of times it had none to give.
`Valid()` says that every slot, count, value count, mark bit, parent link, offset, shift and array flag is what this ghost
state makes it. `Ready` adds that exactly the nodes of the tree are out. Allocation succeeds or fails nondeterministically at
every call, and `failures` tells the two kinds of run apart. Each call is atomic. The chunk size is left open (16 or 64).

The predicates over the tree are about one position at a time, so no proof about the tree as a whole needs recursion; the
methods keep them folded and get single facts from small lemmas.

`XaRuns.Run` is the refinement over whole runs: every reply of any sequence of stores, erasures, exchanges, insertions,
allocations, mark changes, loads and searches is the reply of the plain map with its marks, and only a call
during which memory ran short may say -ENOMEM. `XaShape` shows that the tree of an array in canonical shape depends on its
contents only. Every call that stores no reserved entry and does not run out of memory for good keeps that shape. These
facts came out of this work:

* The comment in `kcompat_xarray.h:312-317` (an array with one entry at index 0 keeps it in the head) holds exactly for
  arrays in canonical shape (`XaShape.HeadExact`). It does not hold after a failed allocation has left nodes behind
  (`XaZero.StoreShort`), or once a reserved entry was stored at index 0 where nothing showed before, which makes a node
  (`XaZero.ReserveFirst`). Over an entry in the head a reservation stays in the head (`XaZero.ReserveUsed`).
* On an array set up with `XA_FLAGS_ALLOC1`, two kinds of store go wrong, both only while the head of the array is NULL.
  With the free flag clear, storing NULL or a reserved entry at index 0 builds a root full of free marks while the flag
  stays clear: no contents and no set of free ids fit the array any more, and once it grows the free ids below slot 0 of the
  new root cannot be found. With the free flag set, which means that index 0 has been erased, a store anywhere else brings
  index 0 back, reserved and marked free at once, and the next allocation from index 0 hands it out
  (`XaZero.AllocAnywhere`). Such a store may bring index 0 back even when it fails with -ENOMEM. `XaZero.StoreAnywhere` and
  its companions for exchanges, insertions and both forms of allocation prove that exactly the calls that make one of these
  stores leave an array that is not as it should be, and what is left when memory runs short; `ReserveNew` and `EraseNew`
  reach both from a new array. `XaRuns.Run` includes index 0 and stops before a call that would make such a store.
* Whether `xa_insert()` at index 0 of such an array succeeds or returns -EBUSY depends on the shape of the tree: an implied
  reservation does not show, and so is overwritten (`XaZero.InsertByShape`). `xa_erase()` leaves it alone.

Where a method is proved against a function of the model, its contract or a lemma also says what that means without the
function: as maps, memberships, fields or numbers. Over whole runs, `XaRuns.LoadsBack`, `LoadsNothing` and `MarksBack` speak of
calls and replies alone.

## The control queue

A device step consumes one descriptor at the device's head and never passes the tail. On the send side the proofs cover the
early exit on a message without a buffer, which leaves earlier messages queued and the tail unwritten. On the receive side
posting is described by a function on the free part of the ring, and that function is shown to be exact and to conserve
buffers; the queue keeps account of the buffers given to it and of those that left it with a message. One consequence is
stated by itself: when every posted buffer has been received before any was given back, `next_to_clean` meets
`next_to_post`, and no later call of the driver moves the ring again. `Drain` reaches that state from any new queue, and
the contract of `Post` says exactly when the tail moves.

## The tuning machine

In `kcompat_dim.h` a difference of more than ten percent is meant to count; the integer division makes that eleven percent
(`NetDims.SignificantExact`). `MovesExactly` and `ParkedExactly` together are the whole table of transitions.

## Packing

A word is the sequence of its bits, and the C operators act bit by bit; the specification is "logical bit i of the buffer".
`BoxAddrExact` shows that the layout is a permutation of the buffer if and only if it is not little-endian with the most
significant group first and a length that is no multiple of 4; `BoxAddrPlain` and `BitPlace` say which one, and `FieldNumber`
reads fields off the number that the buffer lists. In the layouts that are not, `InsideExact` says which octets
still have a place in the buffer; packing and unpacking are proved for every field all of whose octets have one. Struct
members are read as on a little-endian machine.

## Model

| member | source | states |
|---|---|---|
| `XArrays.XArray.constructor` | auxiliary/src/kcompat_xarray.h:400-405 | a new array holds nothing (or just the reserved index 0); the free mark is on every other index if free indices are tracked, and no other mark is set |
| `XArrays.XArray.CountsMean` | auxiliary/src/kcompat_xarray.c:806-819 | the counts of every node are the numbers of its slots in use and of its slots with value entries |
| `XaStates.XaState.Load` | auxiliary/src/kcompat_xarray.c:289-306 | the walk ends on exactly what is stored at its index, with the cursor on that slot or where the path ends |
| `XArrays.XArray.RaiseMarks` | auxiliary/src/kcompat_xarray.c:935-953 | marking one index and stopping at the first slot already marked leaves every bit and flag equal to "some index below is marked" |
| `XArrays.XArray.DropMarks` | auxiliary/src/kcompat_xarray.c:964-985 | unmarking one index and stopping at the first slot with another mark does the same |
| `XaStates.XaState.InitMarks` | auxiliary/src/kcompat_xarray.c:998-1012 | the index ends with the free mark if free indices are tracked, and no other mark |
| `XArrays.XArray.AddRoot` | auxiliary/src/kcompat_xarray.c:644-677 | a root above the head keeps contents, counts, links and marks right, free marks of the new range included |
| `XaStates.XaState.Expand` | auxiliary/src/kcompat_xarray.c:618-683 | the tree grows until it reaches the index and no further; a failure leaves a right, smaller tree |
| `XaStates.XaState.Create` | auxiliary/src/kcompat_xarray.c:698-753 | there is a slot for the index afterwards, unless memory ran out; contents and marks are unchanged and only the path to the index has grown |
| `XaStates.XaState.Shrink` | auxiliary/src/kcompat_xarray.c:496-533 | exactly the nodes from some level up go, the root is then tight, and each node removed is freed once |
| `XaStates.XaState.DeleteNode` | auxiliary/src/kcompat_xarray.c:540-571 | exactly the nodes above the index up to some level go, and those from some level up, which restores the canonical shape |
| `XaStates.XaState.StoreEntry` | auxiliary/src/kcompat_xarray.c:834-905 | a store changes its own index only, or nothing on failure, shows afterwards, and keeps the canonical shape; a reserved entry gets a node where nothing showed before, and over an entry in the head a store at index 0 stays in the head and cannot fail |
| `XaStates.XaState.StoreNull` | auxiliary/src/kcompat_xarray.c:834-905 | storing NULL removes what shows at the index, puts its marks to rest and keeps the canonical shape |
| `XaStates.XaState.Nomem` | auxiliary/src/kcompat_xarray.c:379-402 | a spare node is set aside or given back, and none is lost |
| `XaApi.Store` | auxiliary/src/kcompat_xarray.c:1611-1628 | the old entry comes back, the index holds the very entry given, or NULL reserves it or removes it, and nothing else is stored or removed; an entry takes only the free mark of its index, a removal takes all its marks, and no other mark changes; on an error nothing has changed; the retry loop ends, and a store that succeeds after retries keeps the canonical shape too |
| `XaApi.Erase` | auxiliary/src/kcompat_xarray.c:1565-1569 | the index is gone and all its marks but the free one with it, the old entry comes back, no node is allocated, and it cannot fail; only an implied reservation of index 0 stays |
| `XaApi.CmpxchgRaw` | auxiliary/src/kcompat_xarray.c:1686-1705 | the entry that shows comes back, and the store happens exactly if it is the one wanted; an entry over an entry keeps every mark, over nothing it takes just the free mark, and NULL removes the index and its marks |
| `XaApi.InsertEntry` | auxiliary/src/kcompat_xarray.c:1723-1735 | success only where nothing shows, and -EBUSY exactly where something does; of all marks only the free mark of the index goes |
| `XaNodes.TagsAfterMeans` | auxiliary/src/kcompat_xarray.c:1611-1640 | a store keeps the marks of every other index, and those of its own but for the free mark, unless it stores NULL |
| `XaNodes.TagsExchangedMeans` | auxiliary/src/kcompat_xarray.c:1695-1702 | an exchange to an entry clears the free mark, and that only where nothing was stored |
| `XaMarks.Load` | auxiliary/src/kcompat_xarray.c:1531-1543 | what a user sees at an index, reserved entries hidden |
| `XaMarks.SetMark` | auxiliary/src/kcompat_xarray.c:1989-1996 | the index joins the marked set if it holds something, and no other mark changes |
| `XaMarks.ClearMark` | auxiliary/src/kcompat_xarray.c:2007-2014 | the index leaves the marked set and no other mark changes; only an index 0 whose reservation is implied keeps its marks |
| `XaMarks.GetMark` | auxiliary/src/kcompat_xarray.c:2029-2046 | the answer is membership in the marked set |
| `XaMarks.MarkedMeans` | auxiliary/src/kcompat_xarray.c:916-923 | the bit under the cursor is set exactly if some index below its slot is marked |
| `XaFind.Find` | auxiliary/src/kcompat_xarray.c:1312-1357 | the first index from the start that holds something, or none up to the limit, from wherever a walk has left the cursor |
| `XaFind.NextEntry` | auxiliary/src/kcompat_xarray.h:1716-1738 | the fast path finds what the full search would |
| `XaFindMarked.FindMarked` | auxiliary/src/kcompat_xarray.c:1381-1458 | the first marked index, or the first index past the tree, or a restart when nothing up to the limit is marked, wrap-around of the index included |
| `XaFindMarked.WrappedSlot` | auxiliary/src/kcompat_xarray.c:1431-1436 | a marked slot past the end of the word begins exactly at 2^64, so the wrapped index is 0 and the search stops |
| `XaIterate.FindEntry` | auxiliary/src/kcompat_xarray.c:2102-2120 | the first entry of the range that a user can see and that carries the mark, if one is asked for, or none |
| `XaIterate.FindAfter` | auxiliary/src/kcompat_xarray.c:2152-2180 | the least visible match after an index, with the wrap at the largest index |
| `XaIterate.ForEach` | auxiliary/src/kcompat_xarray.h:469-473 | the loop visits every visible entry of the range once, in increasing order, and ends even at the largest index |
| `XaAlloc.Alloc` | auxiliary/src/kcompat_xarray.c:1898-1923 | the smallest id of the range that is not in use gets the entry and loses its free mark, and nothing else changes; -EBUSY exactly if there is none (allocation failure aside); a call that does not end in -ENOMEM keeps the canonical shape |
| `XaAlloc.AllocCyclic` | auxiliary/src/kcompat_xarray.c:1950-1976 | the first free id from max(min, next), or, if there is none or memory ran short, from min; the wrap is reported and next is the following id modulo 2^32 |
| `XaDestroy.StandsPop` | auxiliary/src/kcompat_xarray.c:598-610 | climbing from a finished node to its parent leaves out that node and no other from those still to free |
| `XaDestroy.FreeNodes` | auxiliary/src/kcompat_xarray.c:582-612 | every node of the tree is freed once and only while it is out, and the climbing loop ends |
| `XaDestroy.Destroy` | auxiliary/src/kcompat_xarray.c:2296-2313 | nothing is stored but the index 0 that is kept busy, marks are as in a new array, and every node has been given back |
| `XaShape.NodesFromContents` | auxiliary/src/kcompat_xarray.c:540-571 | without empty nodes, a node is in the tree exactly if some stored index lies below it |
| `XaShape.HeightNeeded` | auxiliary/src/kcompat_xarray.c:496-533 | a canonical tree is as tall as its largest index needs |
| `XaShape.SameContentsSameShape` | auxiliary/src/kcompat_xarray.h:312-317 | two canonical arrays with the same contents have the same tree, whatever their histories, exactly unless one shows a reservation of index 0 that the other implies |
| `XaShape.SameMarks` | auxiliary/src/kcompat_xarray.c:650-664 | and with the same marked indices the same mark bits and flags |
| `XaShape.HeadShape` | auxiliary/src/kcompat_xarray.h:312-317 | the head of a canonical array is empty, the bare entry at index 0, or a node, exactly as documented |
| `XaShape.HeadExact` | auxiliary/src/kcompat_xarray.h:312-317 | the head of an array that needs no node is as documented if and only if the array is canonical |
| `XaRuns.Run` | auxiliary/src/kcompat_xarray.c:1531-2180 | any run of the interface replies and ends as the plain map and its marks do, up to the first call that goes wrong at index 0; call by call it is said whether memory ran short, and only such a call replies -ENOMEM or falls back to the bottom of its range while ids are left above; the canonical shape is kept unless a reserved entry is stored or memory runs short for good |
| `XaRuns.TwoHistories` | auxiliary/src/kcompat_xarray.c:496-571 | two runs with plain entries in which no call returned -ENOMEM and that end with the same contents end with the same tree |
| `XaRuns.LoadsBack` | auxiliary/src/kcompat_xarray.c:1531-1735 | over any run a load returns the very entry that was last put at its index, whatever has been done at other indices |
| `XaRuns.LoadsNothing` | auxiliary/src/kcompat_xarray.c:1531-1569 | and nothing if that index was erased last |
| `XaRuns.MarksBack` | auxiliary/src/kcompat_xarray.c:1630-1646 | over any run a mark of a user stays on its index until it is cleared or NULL is stored there, and comes only by being set |
| `XaRuns.NeverReissued` | auxiliary/src/kcompat_xarray.c:1898-1976 | over any run an id is not handed out again, by either form, before an erasure or a successful exchange has freed it |
| `XaZero.StoreAnywhere` | auxiliary/src/kcompat_xarray.c:698-740 | a store leaves an array with its free marks right if and only if it is not one of the two stores that go wrong without a head; one that fails leaves the array right, or, where it would have gone wrong, index 0 back and marked free |
| `XaZero.ExchangeAnywhere` | auxiliary/src/kcompat_xarray.c:1686-1705 | the same for a conditional store |
| `XaZero.InsertAnywhere` | auxiliary/src/kcompat_xarray.c:1723-1735 | the same for an insertion |
| `XaZero.AllocAnywhere` | auxiliary/src/kcompat_xarray.c:1898-1923 | the same for an allocation from a range; and where index 0 is reserved and free at once, an allocation from 0 hands it out |
| `XaZero.CyclicAnywhere` | auxiliary/src/kcompat_xarray.c:1950-1976 | the same for the cyclic form with its two attempts, as long as memory does not run short; otherwise the array is right, or index 0 is back and marked free |
| `XaZero.NothingFits` | auxiliary/src/kcompat_xarray.c:740-741 | no tree, contents and marks at all fit an array whose head has a free slot while its flag is clear |
| `XaZero.ReserveImplied` | auxiliary/src/kcompat_xarray.c:1611-1628 | storing NULL at an index 0 whose reservation is implied leaves such an array, or runs out of memory and changes nothing |
| `XaZero.ReserveNew` | auxiliary/src/kcompat_xarray.c:1611-1628 | the same, from a new array |
| `XaZero.GrowBroken` | auxiliary/src/kcompat_xarray.c:648-664 | the root added above it has no free mark in slot 0, below which there are free ids |
| `XaZero.StoreErased` | auxiliary/src/kcompat_xarray.c:698-703 | a store elsewhere, while index 0 has been erased, brings index 0 back both reserved and free; one that fails with a node left behind does so too |
| `XaZero.EraseNew` | auxiliary/src/kcompat_xarray.c:1565-1628 | the same, from a new array, after which the next allocation hands out the reserved index 0 |
| `XaZero.InsertByShape` | auxiliary/src/kcompat_xarray.c:1723-1735 | two arrays with the same contents and marks, of which one accepts an insertion at index 0 and the other refuses it |
| `XaZero.ReserveFirst` | auxiliary/src/kcompat_xarray.c:834-905 | reserving index 0 of a new array makes a node and leaves the canonical shape |
| `XaZero.ReserveUsed` | auxiliary/src/kcompat_xarray.c:728-750 | reserving an index 0 whose entry is in the head makes no node and keeps the canonical shape |
| `XaZero.StoreShort` | auxiliary/src/kcompat_xarray.c:618-683 | a failed store on a new array that leaves a head leaves a node in it, although nothing is stored: the head is not as documented |
| `Chunks.MaxIndexReach` | auxiliary/src/kcompat_xarray.c:484-489 | the wrapped max_index() still tells which indices a node reaches |
| `Chunks.SlotNumbers` | auxiliary/src/kcompat_xarray.c:197-201 | the slot of an index at a level is the index divided by a power of two, and covers that many indices |
| `Chunks.MoveIsBase` | auxiliary/src/kcompat_xarray.c:208-213 | xas_move_index() leads to the first index of the slot |
| `RangeTiling.SetRange` | auxiliary/src/kcompat_xarray.c:1739-1768 | the block starts at the first index, is aligned, lies inside one node, ends within the range, and is the largest that does |
| `RangeTiling.BlockExact` | auxiliary/src/kcompat_xarray.c:1739-1768 | what a block and its fit are, in plain numbers: multiples of 2^shift, whole chunks, slots within one node |
| `RangeTiling.LastCorrection` | auxiliary/src/kcompat_xarray.c:1760-1764 | the final test on wrapped numbers is right, and its correction never takes away the only slot |
| `RangeTiling.StoreRange` | auxiliary/src/kcompat_xarray.c:1809-1815 | the blocks tile the range exactly, and the loop ends |
| `RangeTiling.GuardFails` | auxiliary/src/kcompat_xarray.c:1800-1815 | the loop guard can become false if and only if the range does not end with the last index of all |
| `RangeTiling.TiledOnce` | auxiliary/src/kcompat_xarray.c:1809-1815 | every index of a tiled range is in exactly one block |
| `Packing.BoxAddrExact` | auxiliary/src/kcompat_packing.c:68-86 | the octet layout is a permutation of the buffer if and only if it is regular |
| `Packing.BoxAddrInverse` | auxiliary/src/kcompat_packing.c:68-86 | in a regular layout the permutation is its own inverse |
| `Packing.BoxAddrPlain` | auxiliary/src/kcompat_packing.c:76-83 | the byte of each octet: most significant first without quirks, least significant first with both ordering quirks, and by groups of four with one of them |
| `Packing.BitPlace` | auxiliary/src/kcompat_packing.c:47-86 | the bit of the buffer that each logical bit is, under all quirks |
| `Packing.FieldNumber` | auxiliary/src/kcompat_packing.c:204-275 | a field is the bits of the number that the buffer lists, big-endian without quirks and little-endian with both ordering quirks |
| `Packing.InsideExact` | auxiliary/src/kcompat_packing.c:68-86 | an octet has a place in the buffer if and only if the layout is regular, or the octet is below the short top group, or is one of the last two of a group of three |
| `Packing.PackBits` | auxiliary/src/kcompat_packing.c:88-165 | the logical bits of the field are those of the value and all other bits and bytes are unchanged, for every field whose octets have a place |
| `Packing.UnpackBits` | auxiliary/src/kcompat_packing.c:204-275 | the word is the logical bits of the field, with zeroes above, for the same fields |
| `Packing.Pack` | auxiliary/src/kcompat_packing.c:185-202 | the error cases, and no change in them |
| `Packing.Unpack` | auxiliary/src/kcompat_packing.c:295-316 | the error cases, and the caller's word left alone in them |
| `Packing.PackUnpack` | auxiliary/src/kcompat_packing.c:88-275 | unpack after pack is the value modulo 2^width |
| `Packing.UnpackPack` | auxiliary/src/kcompat_packing.c:88-275 | packing the value just unpacked leaves the buffer as it was |
| `FieldTables.CheckedExact` | auxiliary/src/kcompat_packing.h:40-89 | the checks on neighbours and ends hold exactly if all fields are inside the buffer, fit members of 1, 2, 4 or 8 bytes, and follow one another without an overlap, all upwards or all downwards |
| `FieldTables.PackFields` | auxiliary/src/kcompat_packing.c:20-31 | every member is in its field, and no bit outside the fields has changed |
| `FieldTables.UnpackFields` | auxiliary/src/kcompat_packing.c:33-44 | every member is what its field holds, and no byte outside the members has changed |
| `FieldTables.PackedNumber` | auxiliary/src/kcompat_packing.c:20-31 | after packing, the bits of a field in the number that the buffer lists are the member, read as a little-endian number, modulo 2^width |
| `FieldTables.UnpackedNumber` | auxiliary/src/kcompat_packing.c:33-44 | after unpacking, the member is the number of its field |
| `FieldTables.FieldsRoundTrip` | auxiliary/src/kcompat_packing.c:20-44 | unpacking a packed struct restores every member that fits its field, for tables in either order |
| `FieldTables.FieldsRepack` | auxiliary/src/kcompat_packing.c:20-44 | packing what was unpacked from a buffer gives that buffer |
| `TxQueues.TxQueue.constructor` | idpf/src/idpf_controlq.c:127-185 | an empty, zeroed ring, agreed with the device |
| `TxQueues.TxQueue.Unused` | idpf/src/idpf_controlq.h:13-15 | ring size less one less the messages outstanding |
| `TxQueues.TxQueue.Send` | idpf/src/idpf_controlq.c:273-368 | all messages are queued and posted, or none for want of space, or those before the first malformed one without a tail write; every field of their descriptors is that of the message, with the high and low half of the buffer address in their words, or the four words of a direct message |
| `TxQueues.BodyEncoded` | idpf/src/idpf_controlq.c:295-347 | or-ing the length into a cleared descriptor gives exactly the descriptor of the message |
| `TxQueues.TxQueue.DeviceStep` | idpf/src/idpf_controlq.c:405-416 | the device writes back one descriptor and keeps in step with the driver |
| `TxQueues.TxQueue.Clean` | idpf/src/idpf_controlq.c:387-442 | the oldest messages come back in order, as many as asked for and done, each with the low byte of the return value; their descriptors are zeroed and no other changes; over any run what came back is a prefix of what was queued |
| `TxQueues.HoldTake` | idpf/src/idpf_controlq.c:418-431 | taking the oldest message keeps the occupied slots exactly those from next_to_clean to next_to_use |
| `CtlqRings.AfterExact` | idpf/src/idpf_controlq.c:352-354 | slots are counted modulo the size of the ring |
| `CtlqRings.AheadExact` | idpf/src/idpf_controlq.c:429-431 | and so is the distance between two of them |
| `RxQueues.RxQueue.constructor` | idpf/src/idpf_controlq.c:61-87 | every slot but the last is posted, with the size and the address of its buffer in the descriptor |
| `RxQueues.RxQueue.DeviceStep` | idpf/src/idpf_controlq.c:649-655 | the device uses one posted buffer and never passes the tail |
| `RxQueues.RxQueue.Recv` | idpf/src/idpf_controlq.c:626-715 | exactly the messages the device has written, in order, up to the count, every field that of the descriptor; a buffer leaves the ring with its message exactly if there is data in it; the descriptors are zeroed and no other slot changes |
| `RxQueues.PostedTake` | idpf/src/idpf_controlq.c:680-703 | receiving one message keeps every slot up to next_to_post filled and the driver behind the device |
| `RxWindows.FillExact` | idpf/src/idpf_controlq.c:527-588 | the first min(window, buffers there and offered) free slots are filled and no other |
| `RxWindows.FillGiven` | idpf/src/idpf_controlq.c:527-568 | while the buffers of the caller last, a slot with a buffer keeps it and the empty ones get them in turn |
| `RxWindows.FillRest` | idpf/src/idpf_controlq.c:533-562 | from where they have run out, the rest of the window is filled from itself |
| `RxWindows.FillOrder` | idpf/src/idpf_controlq.c:533-562 | filling from itself moves the buffers together and keeps their order |
| `RxWindows.LeftOver` | idpf/src/idpf_controlq.c:609-610 | what is reported as not posted is what there was no room for |
| `RxWindows.FillConserves` | idpf/src/idpf_controlq.c:527-588 | no buffer is lost or duplicated by a post |
| `RxWindows.BufsExact` | idpf/src/idpf_controlq.c:527-588 | what is counted are the buffers of the slots, each as often as it occurs |
| `RxQueues.RxQueue.Post` | idpf/src/idpf_controlq.c:501-613 | the first free slots hold buffers and descriptors of their size and address, the other free slots nothing, no other slot changes, and no buffer is left over while there is room; with a window of 0 or 1 nothing happens, and the tail moves if and only if next_to_clean is neither at the tail nor next to it and there are two buffers for the window |
| `RxQueues.PostedPost` | idpf/src/idpf_controlq.c:590-605 | after a post every slot from next_to_clean up to next_to_post holds a buffer and a filled descriptor |
| `RxQueues.Run` | idpf/src/idpf_controlq.c:501-715 | over any run of receives, posts and device steps, what was in the ring and what was given and not left over is in the ring, each buffer in one slot, or has left it with a message |
| `RxQueues.CarriedExact` | idpf/src/idpf_controlq.c:680-690 | what has left are the buffers of the messages, each as often as it occurs |
| `RxQueues.Drain` | idpf/src/idpf_controlq.c:626-715 | a new queue is drained once the device has used all its buffers and the driver has taken all messages |
| `RxQueues.DrainedForGood` | idpf/src/idpf_controlq.c:517-528 | once everything posted has been received before a post, no driver call moves the ring again |
| `LongDivision.Div6432` | auxiliary/src/kcompat.c:585-616 | quotient and remainder for every input, with no intermediate result leaving its type |
| `LongDivision.HalfDoubled` | auxiliary/src/kcompat.c:600-612 | halving retraces the doubling, which may have stopped at the sign bit |
| `LongDivision.QuotientExact` | auxiliary/src/kcompat.c:2527-2564 | floor(a b / c) modulo 2^64 on every path while no set bit of the remainder or the divisor is shifted out |
| `LongDivision.ShiftExact` | auxiliary/src/kcompat.c:2549-2563 | shifting out clear bits changes neither the quotient nor the fit of the product |
| `LongDivision.PrecisionLost` | auxiliary/src/kcompat.c:2553-2560 | an input with a large quotient for which dropping precision returns 0 |
| `LongDivision.QuotientLossy` | auxiliary/src/kcompat.c:2533-2564 | when the logarithms of the factor and the remainder add up to more than 62, the excess is shifted out of the remainder and the divisor; the result is the exact first part plus the quotient of what is left, or the first part alone if nothing is left of the divisor |
| `LongDivision.PreciseMeans` | auxiliary/src/kcompat.c:2553-2560 | nothing is lost exactly if the bits shifted out are clear |
| `LongDivision.MulDiv` | auxiliary/src/kcompat.c:2527-2564 | the assignments compute that function, and the exact quotient under that condition |
| `NetDims.Dim.Decision` | auxiliary/src/kcompat_net_dim.c:171-222 | the assignments make the decision that the next rows are about; a moving machine whose throughput rose by eleven percent goes on or parks, one whose throughput fell by as much turns or parks; the answer says whether the profile changed |
| `NetDims.SignificantExact` | auxiliary/src/kcompat_dim.h:22-27 | a change counts exactly if it is at least eleven percent of a positive rate |
| `NetDims.CompareExact` | auxiliary/src/kcompat_net_dim.c:143-169 | when things are better, worse or the same: throughput first, then packets, then events, of which fewer are better; a change counts from eleven percent on |
| `NetDims.MovesExactly` | auxiliary/src/kcompat_net_dim.c:192-214 | where a moving machine goes from every state, by direction and outcome |
| `NetDims.ParkedExactly` | auxiliary/src/kcompat_net_dim.c:178-190 | when a parked machine stays, counts down or sets off, and where to |
| `NetDims.FollowsThroughput` | auxiliary/src/kcompat_net_dim.c:143-214 | the direction follows the throughput |
| `NetDims.DecideSane` | auxiliary/src/kcompat_net_dim.c:171-222 | for any measurements the counters stay in their bounds and the profile moves by at most one |
| `NetDims.StepBack` | auxiliary/src/kcompat_dim.c:12-42 | turning and stepping takes back the last step, and the machine is then on top exactly if it had gone more than one |
| `NetDims.Dim.Measured` | auxiliary/src/kcompat_net_dim.c:224-248 | a decision needs 64 events, wrap-around of the 16-bit counter included, and a new profile holds back the next measurement |
| `NetDims.GapExact` | auxiliary/src/kcompat_dim.h:33-34 | the gap is the number of events passed, modulo 2^16 |
| `NetDims.ParksInTime` | auxiliary/src/kcompat_net_dim.c:192-214 | a moving machine parks within 11 - tired decisions |
| `NetDims.RestsExactly` | auxiliary/src/kcompat_net_dim.c:186-190 | a tired machine rests for exactly tired decisions |
| `Adi.PrepVecChunks` | idpf/src/idpf_adi.c:172-231 | the chunks follow one another from index 1 to the last, each holds the consecutive vectors of its indices, and none could have been longer |
| `Adi.MaximalIsMinimal` | idpf/src/idpf_adi.c:203-227 | no other chunk list for these vectors is shorter |
| `Adi.InitQueues` | idpf/src/idpf_adi.c:80-112 | the slots hold the first queues of the kind over all chunks, as many as there are and fit: ids counting up from the first of the chunk, tail registers evenly spaced |

## Left out

- XaApi.Store: the two stores that go wrong on an XA_FLAGS_ALLOC1 array without a head are not admitted here, nor in the other calls; XaZero.StoreAnywhere, ExchangeAnywhere, InsertAnywhere, AllocAnywhere and CyclicAnywhere admit them and say what they do
- Packing.PackBits: fields with an octet that has no place in the buffer, which only an irregular layout can have; the same holds for UnpackBits, Pack and Unpack
- XaMarks.SetMark: the free mark of an array that tracks free indices belongs to the allocator and is not set, cleared or searched for by users
- XaFindMarked.FindMarked: a search for free indices does not go on from an empty slot above the leaves, where the source would pass over the rest of the slot; the allocator never asks for it
- RangeTiling.SetRange: with a chunk shift of 4 the range of all indices is left out, for which the source shifts by the width of the word
- LongDivision.QuotientExact: one direction only; when set bits are shifted out the result may still be right, which nothing short of the exact quotient tells
- TxQueues.TxQueue.DeviceStep: the device writes the flags and the return value of a descriptor and leaves its length alone
- Adi.PrepVecChunks: the caller's message has room for as many chunks as there can be
- FieldTables.Member: struct members are little-endian
- RCU, locks, barriers, allocation flags, XA_DEBUG checks, the update callback and lockdep
- sibling slots, splitting, xas_create_range, xas_pause, xas_prev, xas_next_marked and the extraction functions of the XArray
- the store of each block in xa_store_range, of which only the cutting into blocks is modelled
- DMA mapping, endianness conversion, registers other than the tail, simulator special cases, queue setup and removal
- dim_calc_stats, whose results are arbitrary inputs here, and the moderation profiles themselves
- ADI mailbox messages, register switches and sparse mappings
- the overflow checkers, and everything else that only adapts one kernel version to another
