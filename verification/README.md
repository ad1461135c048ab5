# Verified models of the XJ380 kernel's data structures and byte arithmetic

Dafny models of the self-contained cores of the kernel, its boot loader and its
headers, with proofs of what they promise. Each core is modelled in its own
form: structures that the kernel updates in place are classes whose methods are
proved against functions on plain values, and what those functions guarantee is
proved about every input and every run.

| part of the project | models |
|---|---|
| `RbShape`, `RbMap`, `RbRuns` | the red-black multimap on shapes: repairs, operations, runs |
| `RbHeap`, `RbTree`, `Multimap`, `SList` | the same with parent pointers on the heap, and the collision chains |
| `BlockSpec`, `BlockIo`, `BlockLayer` | byte-granular block I/O over sectors, bounce buffers and direct transfers |
| `Paging`, `PageMapper` | four-level page tables and the boot loader's mapping routine |
| `Spsc` | the lock-free ring of one producer and one consumer, over all interleavings |
| `Elf`, `Placement`, `ElfWriter`, `ElfAccepts` | validation and placement of shared objects, and which files are loaded |
| `Patches`, `Relocation`, `Relocator` | relocation of shared objects |
| `PsabiFields`, `LostField` | what relocated fields hold in the terms of the psABI, and one that loses half an address |
| `BitReader`, `SideInfo`, `SideWriter`, `Reservoir` | the MP3 decoder's bit reader, side information, and bit reservoir |
| `Strtol`, `Wnumber`, `CmdParse` | number parsing and formatting, command-line splitting |
| `Utf` | UTF-8 decoding and counting |
| `LockQueue` | the doubly linked queue with a cursor |
| `Installer` | the installer's archive |
| `IdAlloc` | the bitmap id allocator |
| `Machine` | words, bytes, bitwise operations |

`dafny verify dfyconfig.toml` checks everything.

## What the proofs found

* Deletion from the red-black multimap starts its repair at the successor where
  the successor's former parent is meant (`include/rbtree-strptr.h:449-456`).
  `RbMap.RemoveAsWrittenExact` gives the exact condition under which the tree
  stays balanced all the same, `RbRuns.WrittenDeletionLosesBalance` a tree for
  which it does not, and `RbRuns.ReachesLostBalance` the run that builds it.
  Order and contents are right either way. The project proves the balance of
  both: `DeleteRepaired` with the intended parent, `DeleteAsWritten` as the code
  stands.
* `validate_shared_object` rounds the end of a segment up in 64 bits, so a
  segment that ends within a page of 2^64 counts as ending at zero and passes
  the window check (`ElfWriter.WrappedEndAccepted`). The later check of the mapped
  size catches exactly these files (`Placement.SizeCheckFires`), but only after
  their bytes were copied to addresses that no page was mapped for
  (`Placement.BytesOnPages`).
* `MapVirtToPhys` maps one page more than the range has bytes on, except for
  sizes and starts that `PageMapper.Snug` spells out (`PageMapper.OneMoreExactly`).
  `PageMapper.PageTooMany` says which addresses outside the range become mapped.
* 32-bit relocation fields are cut without the overflow check that the psABI
  asks for. `Relocation.FieldFits` says exactly which values survive, with the
  sign or zero extension of the type; `LostField.AddressLost` is a module whose
  relocation succeeds and loses the upper half of an address.

## Assumptions

* Red-black multimap: allocation succeeds. The chain of a node is a value in
  the tree proofs; `SList` proves the linked chain by itself. The list helpers
  called by the tree are the assigning macros (`include/slist-strptr.h:360-367`).
* Block I/O: a device moves whole sectors faithfully or reports failure, by an
  arbitrary choice per call. The page map is arbitrary but page-wise, the
  buffer a read fills is mapped injectively, and bounce buffers are apart from the
  caller's. A sector plus a page fits 64 bits. Buffer checks of user memory are
  one boolean argument.
* `MapVirtToPhys`: the firmware has a finite stock of aligned pages that nothing
  uses, and hands each out once; entries on the walked paths are present without the
  large-page bit; addresses do not wrap. That exactly the visited pages become
  mapped, and that frames are distinct, holds where no other walk uses the tables
  of the range.
* The ring: loads and stores of the positions are sequentially consistent, as
  the locked instructions are, and so are the slot accesses between them.
* Relocation: addresses found by symbol name and the results of IFUNC resolvers
  are arbitrary functions. That every field holds its formula assumes that no
  target is part of the tables being read, of a copied range, or of another target.
* The MP3 decoder: decoding a granule leaves the position at the end of its
  part, as the last statement of the Huffman decoder does (`include/dr_mp3.h:1587`).
* Strings are C strings: no character before the end is the terminator.
* The file system's answer to each file written by the installer is an
  arbitrary function.

## Model

| member | source | states |
|---|---|---|
| `RbRuns.DeleteRedBlack` | include/rbtree-strptr.h:366-468 | deleting from any valid tree, with the spliced node's parent as the repair's start, leaves a red-black tree: black root, no red child of a red node, equal black heights; started at the successor, as written, it does so if and only if the successor is not a black leaf deeper than the right child |
| `RbRuns.DeletePops` | include/rbtree-strptr.h:427-468 | a delete pops exactly the newest value of its key, and every other key keeps its stack, even when hashes collide or the node goes |
| `RbRuns.InsertRedBlack` | include/rbtree-strptr.h:291-364 | inserting into any valid tree leaves a valid tree |
| `RbRuns.InsertPushes` | include/rbtree-strptr.h:332-364 | an insert pushes on the stack of its key and on no other |
| `RbRuns.GetNewest` | include/rbtree-strptr.h:194-203 | a lookup returns the newest value of the key, or NULL when its stack is empty |
| `RbRuns.RunRefines` | include/rbtree-strptr.h:332-468 | every run of inserts and deletes from the empty tree, repairs started at the true parent, behaves as a map from keys to value stacks, and its tree is valid: red-black, hashes strictly increasing |
| `RbRuns.RunAsWrittenExact` | include/rbtree-strptr.h:427-468 | with deletion as written, the trees of a run are all valid if and only if no delete in it misplaces the repair; runs of inserts always are |
| `RbRuns.WrittenDeletionLosesBalance` | include/rbtree-strptr.h:445-460 | a concrete valid tree and key for which the deletion as written leaves unequal black heights |
| `RbRuns.ReachesLostBalance` | include/rbtree-strptr.h:332-468 | inserting the characters 1 to 8 and deleting 4 as written ends in a tree that is not valid, though every tree before was |
| `RbRuns.HeightLogarithmic` | include/rbtree-strptr.h:291-330 | a valid tree of n nodes is at most 2 log2(n + 1) high |
| `RbShape.FixInsertRedBlack` | include/rbtree-strptr.h:291-330 | the insert repair turns every tree that fails only at the new red node into a valid one |
| `RbShape.FixInsertInOrder` | include/rbtree-strptr.h:291-330 | the insert repair changes no entry and no order |
| `RbShape.FixDeleteRedBlack` | include/rbtree-strptr.h:366-425 | the delete repair turns every tree that lacks one black node at its start into a valid one |
| `RbShape.FixDeleteInOrder` | include/rbtree-strptr.h:366-425 | the delete repair changes no entry and no order |
| `RbShape.DeletePassProgress` | include/rbtree-strptr.h:366-425 | every pass of the delete repair ends it or climbs one level: the loop terminates |
| `RbShape.FixDeleteUnbalanced` | include/rbtree-strptr.h:366-425 | started at a subtree with unequal black heights, the repair cannot make them equal |
| `RbShape.PlugRedBlack` | include/rbtree-strptr.h:236-289 | which trees complete a given path to a valid tree: validity of the whole from color and black height of the part |
| `RbMap.SeekSplits` | include/rbtree-strptr.h:205-214 | searching for a hash splits the ordered entries into those before it and those behind it |
| `RbMap.ChainGetNewest` | include/slist-strptr.h:189-194 | looking up a key in a chain finds the newest of its values |
| `RbMap.ChainDeletePops` | include/slist-strptr.h:220-243 | deleting from a chain pops one value of the key, leaves all other values, and empties only a chain of one |
| `RbMap.UnlinkInOrder` | include/rbtree-strptr.h:427-468 | unlinking a node removes exactly its entry from the order |
| `RbMap.RemoveRepairedRedBlack` | include/rbtree-strptr.h:427-468 | unlinking and repairing at the true parent gives a valid tree |
| `RbMap.RemoveAsWrittenExact` | include/rbtree-strptr.h:427-468 | the removal as written is balanced if and only if it is not misplaced: last binding, two children, successor deeper than the right child, black, and without a right child |
| `RbMap.RemoveAsWrittenInOrder` | include/rbtree-strptr.h:427-468 | the removal as written removes exactly the node's entry |
| `RbHeap.ZipAcross` | include/rbtree-strptr.h:236-276 | a heap that holds a tree with the focus at one child holds it with the focus at the other |
| `RbTree.LeftRotate` | include/rbtree-strptr.h:236-255 | the pointer assignments of a left rotation, and nothing else changed |
| `RbTree.RotateLeftAt` | include/rbtree-strptr.h:236-255 | a left rotation of the heap tree is the rotation of the shape, with parent links mirroring child links |
| `RbTree.RightRotate` | include/rbtree-strptr.h:257-276 | the pointer assignments of a right rotation, and nothing else changed |
| `RbTree.RotateRightAt` | include/rbtree-strptr.h:257-276 | a right rotation of the heap tree is the rotation of the shape |
| `RbTree.Transplant` | include/rbtree-strptr.h:278-289 | the subtree at u is replaced by the one at v below u's parent |
| `RbTree.InsertFixup` | include/rbtree-strptr.h:291-330 | the pointer loop computes the insert repair of the shape; it never reaches a missing grandparent |
| `RbTree.DeletePassAt` | include/rbtree-strptr.h:366-425 | one pass of the pointer loop computes one pass of the delete repair |
| `RbTree.DeleteFixup` | include/rbtree-strptr.h:366-425 | the pointer loop computes the delete repair of the shape |
| `RbTree.Minimum` | include/rbtree-strptr.h:224-228 | the leftmost node, and the path to it |
| `RbTree.UnlinkNode` | include/rbtree-strptr.h:436-444 | unlinking a node with at most one child |
| `RbTree.UnlinkBySuccessor` | include/rbtree-strptr.h:445-460 | unlinking a node whose successor is its right child |
| `RbTree.UnlinkDeep` | include/rbtree-strptr.h:445-460 | unlinking a node whose successor lies deeper |
| `RbTree.GetNode` | include/rbtree-strptr.h:205-214 | the node of the hash, or NULL if the tree has none |
| `RbTree.LeafPlace` | include/rbtree-strptr.h:344-361 | the empty place where a new hash belongs |
| `Multimap.StringMap.Get` | include/rbtree-strptr.h:194-203 | returns the newest value of the key, and changes nothing |
| `Multimap.StringMap.Insert` | include/rbtree-strptr.h:332-364 | the heap tree stays valid with consistent parent links, and the key's stack grows by the value |
| `Multimap.StringMap.DeleteRepaired` | include/rbtree-strptr.h:427-468 | the heap tree stays valid with consistent parent links, one value of the key is popped, and all others stay |
| `Multimap.StringMap.DeleteAsWritten` | include/rbtree-strptr.h:427-468 | the heap tree keeps order, links and contents; it stays balanced if and only if the removal is not misplaced |
| `Multimap.DeletePopsAll` | include/rbtree-strptr.h:427-468 | for all keys at once, a delete pops the stack of its key only |
| `Multimap.InsertPushesAll` | include/rbtree-strptr.h:332-364 | for all keys at once, an insert pushes on the stack of its key only |
| `SList.Prepend` | include/slist-strptr.h:179-187 | the new node stands before the old chain |
| `SList.Lookup` | include/slist-strptr.h:189-194 | the linked walk finds what the chain's lookup finds |
| `SList.Delete` | include/slist-strptr.h:220-243 | the relinking in place gives the chain without the first binding of the key |
| `BlockLayer.Layer.Read` | driver/device.cpp:318-412 | a successful read shows the disk's bytes offset .. offset + length, changes nothing else in memory and nothing on the disk; a reliable device and enough frames make it succeed; a device without a read callback makes it fail, with nothing changed, and every transfer has a callback and is no longer than the device takes; lock and frames are balanced on every exit |
| `BlockLayer.Layer.Write` | driver/device.cpp:415-528 | a successful write replaces exactly the bytes offset .. offset + length of the flat disk; a failed one has written a prefix of them; without a write callback or a usable buffer it fails and the disk is unchanged; it succeeds only if the device can read too or the range is whole sectors, and does so on a reliable device with enough frames; lock and frames are balanced on every exit |
| `BlockLayer.Layer.WriteThenRead` | driver/device.cpp:318-528 | every read after a successful write sees the written bytes inside the range and the old ones outside it |
| `BlockLayer.Layer.ReadRange` | driver/device.cpp:336-410 | head, direct, bounced and tail transfers together deliver the range, for every sector size, alignment and page map |
| `BlockLayer.Layer.ReadHead` | driver/device.cpp:344-357 | the partial first sector |
| `BlockLayer.Layer.NextDirect` | driver/device.cpp:359-369 | a direct transfer is whole sectors, within the window, and covers only addresses that translate contiguously |
| `BlockLayer.Layer.ReadAligned` | driver/device.cpp:359-379 | the direct transfers, as far as they go |
| `BlockLayer.Layer.ReadChunks` | driver/device.cpp:381-398 | the bounced transfers, each within the bounce buffer |
| `BlockLayer.Layer.ReadTail` | driver/device.cpp:400-407 | the partial last sector |
| `BlockLayer.Layer.ModifySector` | driver/device.cpp:447-465 | read, patch and write back of one sector changes only the patched bytes of the disk |
| `BlockLayer.Layer.WriteRange` | driver/device.cpp:437-525 | head, direct, bounced and tail transfers together replace the range; a failure leaves a prefix written; without a read callback exactly ranges of whole sectors can be written |
| `BlockLayer.Layer.WriteAligned` | driver/device.cpp:467-487 | the direct transfers of a write, as far as they go |
| `BlockLayer.Layer.WriteChunks` | driver/device.cpp:489-506 | the bounced transfers of a write |
| `BlockLayer.Layer.WriteTail` | driver/device.cpp:508-523 | the partial last sector of a write |
| `BlockLayer.Layer.TryCached` | driver/device.cpp:61-84 | the cached bounce buffer of a drive, with its lock taken exactly when it succeeds |
| `BlockLayer.Layer.Acquire` | driver/device.cpp:86-97 | the cached buffer or freshly allocated frames, large enough for the request |
| `BlockLayer.Layer.Release` | driver/device.cpp:99-111 | gives back exactly what acquiring took |
| `BlockIo.Memory.DirectSpan` | driver/device.cpp:113-140 | the span covers only addresses whose translation is the base's plus the same offset, and starts page aligned |
| `BlockIo.PageMapIsPaged` | driver/device.cpp:113-140 | any page-wise translation has the contiguity the span relies on |
| `BlockSpec.Window` | driver/device.cpp:26-35 | the transfer window is at least a sector, no more than the device's largest size or the bounce limit unless a sector is, and as large as these allow |
| `BlockSpec.BounceBytes` | driver/device.cpp:37-51 | the mapped bounce buffer holds the request if and only if rounding its size up does not wrap around |
| `BlockSpec.SpliceSector` | driver/device.cpp:447-465 | rewriting a sector after patching bytes of it is laying those bytes over the disk |
| `PageMapper.PageTables.MapVirtToPhys` | boot/bootx64.c:854-901 | with four pages of stock for every visited page the call succeeds; then every address of the range translates, and without shared tables exactly the visited pages become mapped; however it ends, every earlier translation of any address is unchanged and every new one ends at a fresh page; a newly mapped address is closed to user mode, and may be written exactly if the entries on its walk from before are writable |
| `PageMapper.PageTables.constructor` | boot/bootx64.c:854-857 | sound tables and a stock of aligned unused pages make a valid state |
| `PageMapper.MapIntoEmpty` | boot/bootx64.c:854-901 | from one cleared root page and a stock of pages behind it, any range maps; afterwards exactly the addresses of the visited pages translate, and every one of them may be written, by the supervisor only |
| `PageMapper.FreshFramesApart` | boot/bootx64.c:891-899 | newly mapped addresses of different pages get different frames, none of which was in use |
| `PageMapper.RangeMapped` | boot/bootx64.c:861-900 | what a whole run gives: range mapped, old translations kept, newly mapped addresses exactly those of the visited pages |
| `PageMapper.LinkPopulates` | boot/bootx64.c:865-871 | linking one cleared page keeps all invariants of the tables and adds translations only for the page being mapped |
| `PageMapper.PageTables.MapPage` | boot/bootx64.c:863-899 | the four levels of one page, which take at most four pages of the stock |
| `PageMapper.PageTables.Descend` | boot/bootx64.c:865-872 | one level: while the stock lasts the entry exists afterwards, and leads to the next table |
| `PageMapper.PageTables.Fill` | boot/bootx64.c:865-871 | an empty entry gets a fresh cleared page while the stock lasts, present, writable, and for the supervisor only; a used one stays |
| `PageMapper.LinkedUnshared` | boot/bootx64.c:865-871 | linking fresh pages never makes two walks share a table |
| `PageMapper.TouchedInterval` | boot/bootx64.c:861-861 | an address is on a visited page if and only if its page is one of the interval from the first page of the range to the last page visited |
| `PageMapper.OneMoreExactly` | boot/bootx64.c:861-861 | for every start and size, the routine visits one page more than bytes of the range lie on, unless the size is one byte over whole pages, is whole pages from inside a page, or start and end parts together exceed a page; then it visits exactly those pages |
| `PageMapper.PageTooMany` | boot/bootx64.c:861-899 | of the addresses on no page of the range, exactly those of the last visited page that had no translation become mapped, and none in the excepted cases |
| `PageMapper.LastPageOutside` | boot/bootx64.c:861-861 | outside the excepted cases the last visited page lies behind the range and holds no byte of it |
| `Paging.GrowthKeepsTranslations` | boot/bootx64.c:854-901 | filling empty entries keeps every translation of 4-level paging (Intel SDM Vol. 3A, section 4.5), large pages included |
| `Paging.CompleteTranslates` | boot/bootx64.c:854-901 | a path that goes down all four levels translates |
| `Paging.LinkedTranslates` | boot/bootx64.c:865-871 | a link gives a new translation only where the walk ends at the linked entry |
| `Paging.LinkedKeepsPath` | boot/bootx64.c:865-871 | linking keeps every path followable |
| `Paging.NewRights` | boot/bootx64.c:859-898 | where every new entry is writable and for the supervisor, access rights of 4-level paging (Intel SDM Vol. 3A, section 4.6) deny a write to a mapped address just when an entry from before does, and a newly mapped address is never open to user mode |
| `Paging.SamePage` | boot/bootx64.c:864-893 | two addresses have the same four indices if and only if they lie on the same page |
| `Spsc.EveryInterleaving` | kernel/atom_queue.cpp:54-73 | in every interleaving of the atomic steps, popped bytes followed by the ring's contents are the pushed bytes in order, at most capacity - 1 are held, and every answer is that of a bounded queue at the step that decided it |
| `Spsc.PushKeeps` | kernel/atom_queue.cpp:54-63 | every producer step keeps the invariant over both threads |
| `Spsc.PopKeeps` | kernel/atom_queue.cpp:65-73 | every consumer step keeps the invariant over both threads |
| `Spsc.PushLive` | kernel/atom_queue.cpp:59-60 | the contents change at the store of head alone, by one byte at the end |
| `Spsc.PopLive` | kernel/atom_queue.cpp:69-70 | the contents change at the store of tail alone, and the byte read was the oldest |
| `Spsc.SlotKept` | kernel/atom_queue.cpp:59-60 | a slot between publication and consumption keeps its byte through every step |
| `Spsc.ReplayIsFifo` | kernel/atom_queue.cpp:54-73 | a legal history of a bounded queue is first in, first out |
| `Spsc.AcceptsPowers` | kernel/atom_queue.cpp:28-28 | the size test accepts every power of two |
| `Spsc.AcceptsOnlyPowers` | kernel/atom_queue.cpp:28-28 | the size test accepts nothing else |
| `Spsc.MaskWraps` | kernel/atom_queue.cpp:57-57 | for accepted sizes, masking the incremented position steps around the ring |
| `Spsc.AtomQueue.InitAtomQueue` | kernel/atom_queue.cpp:27-36 | succeeds exactly for a buffer and a power of two, and gives an empty ring |
| `Spsc.AtomQueue.AtomPush` | kernel/atom_queue.cpp:54-63 | run alone, the call is its sequence of atomic steps, and fails exactly when the ring is full |
| `Spsc.AtomQueue.AtomPop` | kernel/atom_queue.cpp:65-73 | run alone, the call is its sequence of atomic steps, and returns -1 exactly when the ring is empty |
| `Elf.ValidateSharedObject` | kernel/dlinker.cpp:246-310 | accepts exactly the files of the stated form, reads nothing outside the file, and returns the distance from the base to the greatest rounded end |
| `Elf.CheckSegments` | kernel/dlinker.cpp:255-281 | the first loop: every header in order, least start, greatest rounded end, a segment to load, a terminated dynamic section |
| `Elf.FindContainer` | kernel/dlinker.cpp:285-300 | whether a dynamic segment lies inside a loaded one, as ElfAccepts.ContainerFound says in bytes |
| `ElfAccepts.ContainerFound` | kernel/dlinker.cpp:285-300 | a container is found if and only if one loaded segment that does not overflow has every byte of the dynamic segment, or touches it if that is empty |
| `ElfAccepts.TableIs` | kernel/dlinker.cpp:224-252 | the header is accepted if and only if its bytes are the magic number, version, sizes, machine and type, and the program headers lie in the file |
| `ElfAccepts.PlaceableExactly` | kernel/dlinker.cpp:246-310 | at an aligned base in its window, a file is loaded if and only if its header fits, its segments end in the window with their bytes in the file, some entry of a dynamic segment is zero, every dynamic segment lies in a loaded one, and the loaded ones take room |
| `ElfAccepts.SizeIsRoundedEnd` | kernel/dlinker.cpp:263-309 | the size is whole pages, up to the last byte of any segment and no page more |
| `ElfAccepts.PlacedExactly` | kernel/dlinker.cpp:1150-1212 | while its window has room, a load succeeds exactly for the loadable files, at the next free address |
| `ElfAccepts.WrittenPlaced` | kernel/dlinker.cpp:1150-1212 | for any program headers, with any bytes behind them, in the kernel and the user window, the file written of them is loaded exactly if they are loadable, as an object of just these segments |
| `ElfAccepts.NextIsDense` | kernel/dlinker.cpp:1155-1170 | after every run of loads, the next object goes right behind the earlier ones of its window, while that is inside the window |
| `Elf.FindTerminator` | kernel/dlinker.cpp:275-278 | whether the dynamic section in the file is terminated |
| `Elf.FileRange` | kernel/dlinker.cpp:241-244 | the overflow-free test is the containment of the range in the file |
| `Elf.PadUpExact` | kernel/dlinker.cpp:267-268 | rounding up loses an address exactly when it is within a page of 2^64 |
| `Placement.SizeCheckFires` | kernel/dlinker.cpp:1202-1205 | for an accepted file, the check of the mapped size fires if and only if some segment's rounded end wraps around |
| `Placement.BytesOnPages` | kernel/dlinker.cpp:328-361 | for an accepted file, every byte the loader copies or clears lies on a page it mapped, if and only if no segment with bytes ends within a page of 2^64 |
| `Placement.ByteOutside` | kernel/dlinker.cpp:328-361 | a wrapping segment has a byte above every window, on no mapped page |
| `Placement.PagesApart` | kernel/dlinker.cpp:1150-1212 | over every run of loads the pages of two placed objects are disjoint and lie in their window |
| `Placement.RunDense` | kernel/dlinker.cpp:1150-1212 | no run of loads leaves a gap between the objects of a window |
| `Placement.PlaceKeeps` | kernel/dlinker.cpp:1150-1212 | one load keeps all placed objects apart, inside their windows and below the next free address |
| `Placement.RoundedAlike` | kernel/dlinker.cpp:330-331 | rounding before adding the base, as the mapping does, gives the addresses that were validated |
| `Placement.PagesInBounds` | kernel/dlinker.cpp:363-387 | the pages mapped lie between the validated bounds |
| `Placement.Loader.LoadSegment` | kernel/dlinker.cpp:328-344 | maps every page of the rounded segment |
| `Placement.Loader.MapSegments` | kernel/dlinker.cpp:363-387 | maps all segments to load, and returns least start and greatest end |
| `Placement.Loader.MapObject` | kernel/dlinker.cpp:1172-1205 | validation, mapping and size check together accept exactly the acceptable files whose rounding does not wrap |
| `Placement.Loader.LoadSharedObject` | kernel/dlinker.cpp:1150-1212 | places the object as specified, and leaves the layout alone when it fails |
| `ElfWriter.RoundTrip` | kernel/dlinker.cpp:249-254 | for any list of program headers, and any bytes behind them, there is a file from which they are read back |
| `ElfWriter.WrappedEndAccepted` | kernel/dlinker.cpp:246-310 | a file the validation accepts for the kernel window although one of its segments lies at the top of the address space |
| `Relocation.TargetRelocated` | kernel/dlinker.cpp:1285-1462 | after a successful run with separate targets, every entry's target holds the bytes the entry gives on the memory before the run |
| `Relocation.OtherBytesKept` | kernel/dlinker.cpp:1285-1462 | after a successful run with separate targets, every byte that is no target is unchanged |
| `Relocation.FieldHolds` | kernel/dlinker.cpp:1351-1435 | the field of an entry holds the psABI formula (S, S+A, S+A-P, B+A, Z+A) of its type, cut to the type's width |
| `Relocation.PltHolds` | kernel/dlinker.cpp:1439-1459 | the field of a procedure linkage entry holds its symbol's address |
| `Relocation.SucceedsExactly` | kernel/dlinker.cpp:1334-1462 | with separate targets, a run succeeds if and only if no entry fails on the memory before it |
| `PsabiFields.SucceedsIff` | kernel/dlinker.cpp:1334-1462 | with separate targets, a run succeeds if and only if every entry has a known type, a symbol number in the table, a target in the image and, where its address is needed, a symbol that is weak or found |
| `PsabiFields.ProcessedExactly` | kernel/dlinker.cpp:1285-1462 | relocation succeeds if and only if the last entries of tags 7, 8, 9, 2, 20 and 23 describe tables that fit and every entry can be applied; if they do not fit, nothing is written |
| `PsabiFields.RelativeField` | kernel/dlinker.cpp:1365-1367 | a RELATIVE field is base plus addend, modulo 2^64 |
| `PsabiFields.RelativeMoves` | kernel/dlinker.cpp:1365-1367 | the same entry in an object loaded elsewhere has its field moved by just the distance of the bases |
| `PsabiFields.IndirectField` | kernel/dlinker.cpp:1427-1431 | an IRELATIVE field is what the resolver at base plus addend returns |
| `PsabiFields.AddressField` | kernel/dlinker.cpp:1354-1363 | a GLOB_DAT or JUMP_SLOT field is the symbol's address |
| `PsabiFields.SumField` | kernel/dlinker.cpp:1368-1376 | a 64 field is symbol address plus addend, modulo 2^64 |
| `PsabiFields.ShortSumField` | kernel/dlinker.cpp:1407-1416 | a 32 or 32S field is that sum cut to 32 bits, and extended by zeros or by its sign is the sum exactly if that is in reach |
| `PsabiFields.Distance64` | kernel/dlinker.cpp:1398-1406 | place and PC64 field together lead to symbol address plus addend |
| `PsabiFields.Distance32` | kernel/dlinker.cpp:1388-1397 | a PC32 or PLT32 field, as a signed displacement, leads from its place to symbol address plus addend exactly if some 32-bit displacement does |
| `PsabiFields.SizeField` | kernel/dlinker.cpp:1417-1426 | a SIZE32 or SIZE64 field is the size at offset 16 of the symbol plus addend, in 32 or 64 bits |
| `PsabiFields.CopiedBytes` | kernel/dlinker.cpp:1377-1387 | a COPY target has the bytes that the symbol's address had before the run |
| `PsabiFields.AddressFound` | kernel/dlinker.cpp:972-1014 | from the bytes of the symbol: its own address if it is defined in the image and local, hidden, protected or unknown by name; otherwise the address known by name; none if it is defined outside the image |
| `PsabiFields.RangeIsBytes` | kernel/dlinker.cpp:313-326 | a range is found in the image if and only if one loaded segment that does not overflow has every byte of it |
| `PsabiFields.WrittenEntry` | kernel/dlinker.cpp:1329-1333 | an entry written little-endian, 24 bytes an entry, is the entry that is applied |
| `PsabiFields.WrittenSymbol` | kernel/dlinker.cpp:1343-1347 | a symbol written little-endian, 24 bytes a symbol, is the symbol that is used |
| `Relocation.OnlyLoadedBytes` | kernel/dlinker.cpp:1285-1462 | a run, successful or not, changes bytes of loaded segments only |
| `Relocation.EffectAgrees` | kernel/dlinker.cpp:1334-1349 | what an entry does depends only on the tables and on the bytes it copies |
| `Relocation.FieldFits` | kernel/dlinker.cpp:1388-1416 | after a successful run with separate targets, a 32-bit field, extended as its type says, is the value of its formula if and only if the value is in the range of the type: signed for PC32, PLT32 and 32S, unsigned for 32 and SIZE32 |
| `LostField.AddressLost` | kernel/dlinker.cpp:1407-1416 | a concrete module, memory and entry for which the run succeeds and the field reads back as another address |
| `Relocator.Linker.HandleRangeLoaded` | kernel/dlinker.cpp:312-326 | whether one loaded segment covers the range |
| `Relocation.ResolvedSymbol` | kernel/dlinker.cpp:972-1014 | a symbol defined outside the image has no address; one defined inside has that of a loaded byte if it is local, hidden or protected, or if its name is unknown; otherwise the name decides, as it does for undefined symbols, and there is no other address |
| `Relocator.PointerLoaded` | kernel/dlinker.cpp:666-672 | a pointer of the dynamic section is found exactly if it leads to a byte of a loaded segment, and is that byte's address |
| `Relocator.Linker.ParseDynamic` | kernel/dlinker.cpp:1293-1316 | the last entry of every tag counts |
| `Relocator.Linker.ApplyKind` | kernel/dlinker.cpp:1351-1435 | the switch writes exactly what the formula of the type gives, or fails and writes nothing |
| `Relocator.Linker.ApplyRela` | kernel/dlinker.cpp:1334-1435 | one entry of the ordinary table, with its checks |
| `Relocator.Linker.ApplyPlt` | kernel/dlinker.cpp:1443-1457 | one entry of the procedure linkage table, with its checks |
| `Relocator.Linker.ProcessDynamicRelocations` | kernel/dlinker.cpp:1285-1462 | returns true exactly when every check passes and every entry succeeds, and memory is the in-order application of the entries, up to the first that fails |
| `Relocator.ProcessedOnlyLoaded` | kernel/dlinker.cpp:1285-1462 | whether or not the call succeeds, only bytes of loaded segments change |
| `Patches.RunSeparate` | kernel/dlinker.cpp:1330-1459 | for steps with separate targets that read no target, the order does not matter |
| `Patches.RunIn` | kernel/dlinker.cpp:1330-1459 | a run of steps changes only what its steps may change |
| `Reservoir.EveryFrameDecodes` | include/dr_mp3.h:1905-1925 | whatever layout an encoder chooses within 511 bytes of back pointer, with frames played or skipped, every frame decodes and its main data begin with the bytes the encoder put there |
| `Reservoir.KeptIsSuffix` | include/dr_mp3.h:1905-1914 | over every run of frames the reservoir holds at most 511 bytes, the last ones of the concatenated payloads |
| `Reservoir.MainIsSuffix` | include/dr_mp3.h:1916-1925 | a frame's main data are the last min(reservoir, main_data_begin) bytes before it, and its payload |
| `Reservoir.SkippingKeepsMore` | include/dr_mp3.h:1905-1914 | a frame that is skipped leaves at least the bytes it leaves when played |
| `Reservoir.FrameFits` | include/dr_mp3.h:1147-1149 | the length check of the side information bounds the parts by the main data, and the side information ends at a byte |
| `Reservoir.Decoder.RestoreReservoir` | include/dr_mp3.h:1916-1925 | fills the working copy as specified, inside its bounds, and succeeds exactly if the reservoir reaches back far enough |
| `Reservoir.Decoder.SaveReservoir` | include/dr_mp3.h:1905-1914 | keeps the bytes after the position, at most 511 of them |
| `Reservoir.Decoder.DecodeFrame` | include/dr_mp3.h:2493-2513 | side information, restore, decode and save in order: a refused frame leaves the reservoir alone, any other changes it as specified |
| `BitReader.BitStream.GetBits` | include/dr_mp3.h:809-820 | reads exactly the next n bits, most significant first, or 0 past the limit, moving the position either way |
| `BitReader.GatherIsBits` | include/dr_mp3.h:814-819 | the byte-wise loop of shifts and masks gives the number the bits spell |
| `BitReader.BitsSplit` | include/dr_mp3.h:809-820 | reading in two goes is reading at once |
| `BitReader.WholeByte` | include/dr_mp3.h:814-819 | the eight bits of a byte are the byte |
| `SideInfo.ReadSideInfo` | include/dr_mp3.h:1077-1150 | returns main_data_begin if every granule is accepted and the parts fit the main data, -1 otherwise; the position and the part lengths are those of the layout |
| `SideWriter.WrittenReads` | include/dr_mp3.h:1077-1150 | side information written field by field, for MPEG-1 and the lower rates, mono and stereo, reads back as its back pointer, its end and its part lengths; it is refused exactly for more than 288 big values, a switch to block type zero, or parts longer than pointer and buffer allow |
| `SideWriter.WrittenPacks` | include/dr_mp3.h:1077-1150 | written side information is 32, 17 or 9 bytes, and bytes that hold it exist |
| `SideInfo.ReadGranule` | include/dr_mp3.h:1092-1144 | one granule: its part length, whether it is refused, and its width in bits |
| `SideInfo.SideInfoBytes` | include/dr_mp3.h:1083-1145 | the side information takes 32, 17 or 9 whole bytes |
| `SideInfo.MainDataBeginBound` | include/dr_mp3.h:1083-1089 | the back pointer is at most 511, or 255 outside MPEG-1 |
| `Strtol.Strtol` | kernel/krlibc.cpp:291-364 | spaces, sign and prefix, then the digits' mathematical value clamped to 64 bits, and the position of the first character not used |
| `Strtol.ReadDigits` | kernel/krlibc.cpp:332-351 | the digits' value, or exactly that it exceeds the limit, computed without overflow |
| `Strtol.DigitFits` | kernel/krlibc.cpp:348-349 | the division test is the test of the product against the limit |
| `Strtol.FindShape` | kernel/krlibc.cpp:299-330 | where the digits are, in which base, with which sign |
| `Strtol.BaseShown` | kernel/krlibc.cpp:318-330 | in base 0 a number parses as in base 16 behind 0x or 0X and a hexadecimal digit, as in base 8 from a zero on, and as in base 10 otherwise |
| `Strtol.ClampNearest` | kernel/krlibc.cpp:359-363 | a value that does not fit gives the nearest number that does |
| `Wnumber.RoundTrip` | kernel/krlibc.cpp:537-613 | for every 64-bit number, base, width, precision and flags of signed formatting, parsing the output in the same base gives the number and ends at its digits |
| `Wnumber.WidthExact` | kernel/krlibc.cpp:577-581 | the output is as wide as the field, or as its content where that is wider |
| `Wnumber.FieldPads` | kernel/krlibc.cpp:577-610 | a field adds only its padding to what is written without one: spaces behind it, spaces in front of it, or zeros between prefix and digits, as the flags say |
| `Wnumber.TextOf` | kernel/krlibc.cpp:553-580 | without a field: the sign that is needed or asked for, the prefix of bases 8 and 16, and as many digits as the precision asks for |
| `Wnumber.LetterCase` | kernel/krlibc.cpp:542-543 | letters among the digits have the case the flags ask for |
| `Wnumber.ParsedLayout` | kernel/krlibc.cpp:291-364 | any text of spaces, sign, prefix, digits and spaces parses to its value |
| `Wnumber.ValueOfDigits` | kernel/krlibc.cpp:570-575 | the digits written read back as the number |
| `Wnumber.Writer.Wnumber` | kernel/krlibc.cpp:537-613 | writes the formatted text and returns its length; refuses other bases |
| `Wnumber.CollectDigits` | kernel/krlibc.cpp:570-575 | at most 64 digits, in reverse, inside the buffer |
| `CmdParse.RoundTrip` | kernel/krlibc.cpp:367-439 | joining any strings, each character escaped and empty ones as two quotes, and parsing gives the strings back |
| `CmdParse.SpelledParse` | kernel/krlibc.cpp:377-439 | arguments each written in its own way, every character escaped, in single quotes, in double quotes, or bare where nothing in it is special, parse back |
| `CmdParse.WrittenParses` | kernel/krlibc.cpp:393-423 | an escaped argument before a separator or the end parses to the argument |
| `CmdParse.ParseArg` | kernel/krlibc.cpp:393-423 | an argument is no longer than the text it came from, and takes at least one character |
| `CmdParse.ReadArgument` | kernel/krlibc.cpp:383-423 | the loop computes the argument without leaving its allocation of the remaining length plus one |
| `CmdParse.CmdParseLimit` | kernel/krlibc.cpp:367-439 | fills argv with at most max_argc arguments and a terminator; -1 exactly if an allocation it needs fails |
| `Utf.EncodedDecodes` | kernel/utflib.cpp:28-79 | every valid rune decodes from its UTF-8 encoding (RFC 3629, section 3), with its length |
| `Utf.DecodedEncodes` | kernel/utflib.cpp:28-79 | a result that is no error is a valid rune, and the bytes used are exactly its encoding |
| `Utf.ShortExactly` | kernel/utflib.cpp:28-79 | no byte is used exactly when the bytes break off inside a sequence that was good so far |
| `Utf.ErrorUses` | kernel/utflib.cpp:28-79 | an error uses one byte that starts nothing or is not continued, or the bytes up to where the sequence is complete or not continued, or two bytes that spell too small a number |
| `Utf.TooLarge` | kernel/utflib.cpp:5-26 | sequences of five and six bytes never give a rune |
| `Utf.Charntorune` | kernel/utflib.cpp:28-79 | computes the decoding, reading only bytes that are there |
| `Utf.Utfnlen` | kernel/utflib.cpp:86-140 | counts exactly the decoding steps before a terminator or a broken-off sequence, reading only bytes that are there |
| `Utf.EncodedCounts` | kernel/utflib.cpp:86-140 | encoded runes are counted |
| `Utf.SkipRune` | kernel/utflib.cpp:98-136 | the second scan of a sequence uses the same bytes as decoding |
| `LockQueue.Fifo` | kernel/lock_queue.cpp:100-122 | over every run of enqueues and dequeues, what came in is, in order, what went out and what is left |
| `LockQueue.ApplyOk` | kernel/lock_queue.cpp:100-311 | every operation keeps numbers distinct and below the next one, and the cursor nowhere or at an item |
| `LockQueue.NumbersGrow` | kernel/lock_queue.cpp:111-119 | the next number never goes down |
| `LockQueue.RoundRemoved` | kernel/lock_queue.cpp:26-57 | removing an item takes it out of the round of the cursor and leaves the others in turn; a cursor at it goes on to the one after it |
| `LockQueue.DequeuedIsRemoved` | kernel/lock_queue.cpp:290-318 | dequeuing moves the cursor as removing the first item does |
| `LockQueue.RoundAppended` | kernel/lock_queue.cpp:9-24 | a new item comes up behind all that were to come up before the first item again |
| `LockQueue.LowestOf` | kernel/lock_queue.cpp:133-150 | the least number no item has |
| `LockQueue.Queue.AppendNode` | kernel/lock_queue.cpp:4-24 | the node is linked at the end, and a cursor that was nowhere moves to the head |
| `LockQueue.Queue.RemoveLocked` | kernel/lock_queue.cpp:26-57 | the node leaves a well-formed list, its data is returned, and the cursor moves on |
| `LockQueue.Queue.Unlink` | kernel/lock_queue.cpp:32-36 | the neighbours close the gap: the list is the old one without the node |
| `LockQueue.Queue.TakeOut` | kernel/lock_queue.cpp:30-51 | the node leaves the list and the items, the cursor is never left at it, and it is nowhere only in an empty queue |
| `LockQueue.Queue.Enqueue` | kernel/lock_queue.cpp:76-122 | the item gets the next number, unless memory or numbers run out |
| `LockQueue.Queue.EnqueueLowest` | kernel/lock_queue.cpp:124-163 | the item gets the least unused number |
| `LockQueue.Queue.EnqueueId` | kernel/lock_queue.cpp:192-219 | the item gets the number asked for, unless an item has it |
| `LockQueue.Queue.RemoveAt` | kernel/lock_queue.cpp:240-258 | the item with the number leaves, and its data is returned |
| `LockQueue.Queue.Get` | kernel/lock_queue.cpp:221-238 | the data of the item with the number |
| `LockQueue.Queue.Dequeue` | kernel/lock_queue.cpp:290-311 | the oldest item leaves, and its data is returned |
| `LockQueue.QueueCopy` | kernel/lock_queue.cpp:313-360 | a new queue with the same numbers and copied data, its cursor nowhere; none if an allocation fails |
| `Installer.ArchiveUnpacks` | kernel/installer_mode.cpp:64-102 | unpacking the serialization of any well-formed entries performs exactly their operations in order, and succeeds |
| `Installer.ArchiveStops` | kernel/installer_mode.cpp:92-94 | the first file whose write fails ends the unpacking with that write's status, after exactly the operations up to it |
| `Installer.ResultsAre` | kernel/installer_mode.cpp:64-102 | the result is 0, -22 or the negative status of a write |
| `Installer.SuccessIsArchive` | kernel/installer_mode.cpp:64-102 | on any bytes, success means that they begin with an archive, and that exactly its operations were performed |
| `Installer.PerformedIsSerialized` | kernel/installer_mode.cpp:64-102 | whatever the result, the operations performed are those of entries serialized behind the header, up to the first failure |
| `Installer.ParsedIsSerialized` | kernel/installer_mode.cpp:73-98 | an entry that parses stands there serialized, and the offset stays inside the bytes |
| `Installer.SerializedParses` | kernel/installer_mode.cpp:73-98 | a serialized entry parses as itself |
| `Installer.Unpacker.UnpackPak` | kernel/installer_mode.cpp:64-102 | performs what is specified, up to the first failure |
| `Installer.Unpacker.WriteFile` | kernel/installer_mode.cpp:49-62 | makes the parent directories, writes the file, and returns its status |
| `Installer.Unpacker.MakeParents` | kernel/installer_mode.cpp:31-47 | asks for the directories above the path, as Installer.ParentsAbove and ParentsFirst say |
| `Installer.ParentsAbove` | kernel/installer_mode.cpp:31-47 | what is asked for are directories above the path, the shorter ones first |
| `Installer.ParentsFirst` | kernel/installer_mode.cpp:31-62 | in everything an unpacking asks for, a file is written only after each directory above it was made |
| `IdAlloc.Allocator.IdAlloc` | kernel/id_alloc.cpp:21-43 | returns the first free id cyclically from the next one, -1 exactly when none is free; the return behind the loop is not reached |
| `IdAlloc.Allocator.IdFree` | kernel/id_alloc.cpp:45-57 | frees exactly an id in range and in use |
| `IdAlloc.Allocator.TryTake` | kernel/id_alloc.cpp:28-34 | takes the id if its bit is clear, and touches no other |
| `IdAlloc.KeptUntilFreed` | kernel/id_alloc.cpp:21-57 | over every run, an id is not given out twice without being freed in between |
| `IdAlloc.GivenInTurn` | kernel/id_alloc.cpp:21-44 | ids are given in turn: whatever is freed in between, every id passed over between one given id and the next is in use |
| `IdAlloc.ReusedLast` | kernel/id_alloc.cpp:21-57 | an id given, freed and given again at once means that every other id is in use |
| `IdAlloc.FreeExactly` | kernel/id_alloc.cpp:21-43 | an id is free exactly when fewer than all are counted as used |
| `IdAlloc.InUseMore` | kernel/id_alloc.cpp:39-42 | while an id is free, the scan does not come around to its start |
| `IdAlloc.SetsBit` | kernel/id_alloc.cpp:30-33 | setting and clearing with a one-bit mask changes that bit only |
| `IdAlloc.WordsSuffice` | kernel/id_alloc.cpp:8-9 | the bitmap has a word for every id, and none too many |
| `IdAlloc.Allocator.constructor` | kernel/id_alloc.cpp:4-19 | all ids free, for every number of ids |

## Left out

- The counter `size` of the ring, which the two threads change without atomicity, in the concurrent model, and the ring for several producers and consumers: its compare-and-swap never reports its result and slots are written after they are published, so no order of bytes follows from the code.
- Dependency loading, symbol lookup by name, exports, search paths, initializers and finalizers of the dynamic linker; what the segments contain after loading (a page shared by two segments is mapped twice).
- `Placement.Loader.LoadSharedObject`: an object counts as listed when its placement is decided; failures of later steps, which leave the address range used, are not modelled.
- `RbRuns.DeleteRedBlack`: balance of deletion as written holds under the stated condition only, because the code starts the repair at the wrong node otherwise.
- `Multimap.StringMap.DeleteAsWritten`: states balance under the same condition only.
- Freeing and printing trees and chains, maximum and search by value, which would only add easy members.
- Stream devices, device registration and removal, `rw_device`, and the checks of user memory in the block layer.
- `PageMapper.PageTables.MapVirtToPhys`: ends with `ok == false` where the firmware has no page left; the source ignores that failure and goes on with an address nobody set, which is not modelled.
- The rest of the boot loader.
- `Relocator.Linker.ParseDynamic`: the dynamic section is read as a sequence of entries, not from memory.
- `strtol` and the other routines for a NULL string or a NULL end pointer.
- Floating point, Huffman tables, scale factors and layers I and II of the MP3 decoder; frame synchronization.
- `SideInfo.ReadGranule`: reads all fields but keeps only those the reservoir depends on.
- `queue_remove_data`, `queue_iterate` and `queue_destroy`, which repeat walks that are modelled; spin locks (locked sections are atomic).
- `LockQueue.Queue.RemoveLocked`: removes a node of the queue; a node of another queue is not modelled.
- `IdAlloc.Allocator.constructor`: failing allocation is not modelled.
- `Wnumber.Writer.Wnumber`: widths and precisions whose sums wrap 64 bits are not modelled; the writer's handler never fails.
- `Installer.Unpacker.WriteFile`: creating, opening and writing a file are one operation with one status.
- Bitmap words and cursors are numbers; that bitmap words stay within 32 bits is not stated, since only bits 0 to 31 are ever set.
