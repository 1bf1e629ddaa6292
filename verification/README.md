# A model of shmfs, an in-memory file system for Haiku

shmfs keeps a whole file system in memory. Three kinds of state in it are easy to get out of
step, and they are what this project models and proves things about.

* **Ids and ranges** (`BlockMap`, `ExternalAllocator`). A best-fit allocator splits and joins
  blocks that stand in two trees at once. Its contracts say what it does in terms of the set of
  outstanding allocations. `CanonicalUnique` shows that this set determines every block, both
  trees and both counters, so what the contracts say about the set says everything.
* **Vnodes** (`Namespace`, `ShmfsVolume`). Directories own their entries by reference count, the
  volume owns its root, and the VFS owns what `GetVnode` gave it. `Owners` keeps this account.
  `Namespace` is the theory: the invariant `Inv`, what each change does to it, and what survives
  when references are given back. `ShmfsVolume` has the calls as methods on the volume's fields.
* **Bytes and listings.** A file is a sparse set of cache pages that has to look like one flat
  sequence of bytes (`FlatFile`, `ShmfsFileVnode`); an attribute is a buffer that grows
  (`Bytes`, `ShmfsAttribute`). Attributes and directory entries are listed by cursors while they
  come and go (`Names`, `Listing`, `ShmfsAttributes`, `DirCursors`).

What holds in every reachable state is the `Valid()` of a class: the constructor establishes it
and every method keeps it. Statements about whole runs are lemmas over sequences of steps:
`RunTheorem`, `FreesInAnyOrder`, `AppendsConcatenate`, `ScanTheorem`, `DirScanTheorem`. The steps
of those runs are what the methods' contracts state: for example the contract of `Alloc` together
with `Valid()` is `AllocStep`, that of `Free` is `FreeStep`, and each attribute call changes the
ghost `scans` by the functions that `Listing.Step` is made of. `RoundTrips` has the calls in a
row: an allocation and its `Free`, a write and a read, one append after the other, a directory
read from beginning to end.

The methods that callers use state their results in terms of the fields and of plain numbers, and
the functions that other contracts go through are tied down by lemmas of their own: `LessIsStrcmp`,
`FreeRangeIff`, `IdsCounted`, `TouchedIff`, `SliceAt`, `OverlayAt`, `RestIs`, `WholeListing`.

Loops over trees are loops over the set of keys that remain, so that nothing depends on how the
trees are balanced. Objects that several trees point to are records in a map from addresses or
handles, and a pointer is its handle.

## Where the code does less than one might expect

Each of these is stated exactly, with the condition under which the code does meet the claim.

* The range test in `AllocAt` adds in 64 bits. `GuardExact` says for which arguments the sum
  wraps and lets a range through that does not fit, `GuardAcceptsTooMuch` gives one, and
  `FindFreeAround` shows that `AllocAt` goes on exactly if the range is free or so misjudged.
* `EnsureSize` computes half as much again in 32 bits. `CapacitySuffices` says when the new
  capacity holds what was asked for, and `CapacityWraps` gives the least size for which it does not.
* `Rename` has no check for a destination inside what is moved. `RenameKeepsForest` shows that,
  once past the error returns, it keeps the graph free of cycles exactly when the destination is
  not there.
* `Rename` has no check for source and destination being the same entry. If the entry is a
  directory that is not empty, the call ends with the ordinary error. Otherwise the entry is
  cleared as the target before it is to be moved: `RenameAfterClearing` shows that the entry is
  still there exactly when source and destination differ, and that the vnode, when they do not,
  still exists exactly when the VFS holds it. `Rename` requires that neither case arises, of
  calls that get past the error returns.
* `RenameAttr` has no check for an attribute renamed to itself. `RenameAttrOntoItself` shows
  that exactly then clearing the target takes away what was to be moved.
* A new vnode that gets no id is destroyed while its volume pointer is unset, and its destructor
  locks through that pointer (ShmfsVnode.cpp:23). The contracts of the three calls that create
  vnodes state, for the case that no id is left, the return that is intended.
* A directory cursor that still has to give out the dots does not step off an entry that is
  removed. `StaysSoundIff` says exactly when a cursor is left standing on a removed entry, and
  `DanglingCursor` shows the shortest way to get there; `AllSoundIff` says it of whole runs.
  Attribute cursors have no such case.
* The call in `_GetPages` that allocates a page passes no flag to clear it. So a paged write is
  not always the write of a flat file: `GapShowsFreshPage` has one byte written to an empty file
  and a byte before it that is not zero. `WriteAlwaysSplices` says exactly for which resident
  pages, size, position and length the file comes out right whatever the fresh pages hold, and
  `WriteIsSplice` which bytes of given fresh pages matter. Reading back what was written and
  appending need no condition (`WriteThenReadBack`, `AppendAll`).
* A write of no bytes inside an absent page allocates that page all the same. The contract of
  `Write` says which pages become resident, and `TouchedIff` that this is the only case in which
  such a page holds no byte of the range.
* A write that fails part of the way keeps the larger file size and the bytes it got to, but only
  on pages that were resident. `FailedWriteKeeps` says when those bytes can be read.

## Model

| member | source | states |
|---|---|---|
| `ExternalAllocator.RoundDown` | ExternalAllocator.cpp:5-9 | The result is the one multiple of b in (a - b, a]. |
| `ExternalAllocator.RoundUp` | ExternalAllocator.cpp:11-15 | When the addition does not wrap, the result is the one multiple of b in [a, a + b). |
| `ExternalAllocator.LeastMultiple` | ExternalAllocator.cpp:11-15 | No multiple of b lies between a and the result of RoundUp. |
| `ExternalAllocator.GuardExact` | ExternalAllocator.cpp:74 | The 64-bit range test agrees with containment of the range in the block if and only if it is not the case that the range's end wraps to at or below the block's end. |
| `ExternalAllocator.GuardAcceptsTooMuch` | ExternalAllocator.cpp:74 | An instance: a range of all addresses but one passes the test for a block of 0x7fffffff. |
| `ExternalAllocator.Allocator.constructor` | ExternalAllocator.h:78-80 | A new allocator has no blocks, empty trees and counters at zero, and satisfies the invariant. |
| `ExternalAllocator.Allocator.FindClosestAdr` | ExternalAllocator.cpp:72 | The block with the greatest start at or below the address, and none only if every block starts above it. |
| `ExternalAllocator.Allocator.FindClosestSize` | ExternalAllocator.cpp:41 | A free block of least sufficient size, and none only if no free block is large enough. |
| `ExternalAllocator.Allocator.FindFreeAround` | ExternalAllocator.cpp:72-75 | For all 64-bit positions and sizes above zero: a block is found if and only if the range is free or its end wraps to below the end of the free block looked at; without that the range lies in the block found. |
| `ExternalAllocator.Allocator.RemoveSize` | ExternalAllocator.h:52-66 | A block leaves the size tree only under the very size it was inserted with; every caller has to show this. |
| `ExternalAllocator.Allocator.SetSize` | ExternalAllocator.h:69-73 | A block's size changes only while the block is outside the size tree. |
| `ExternalAllocator.Allocator.Register` | ExternalAllocator.cpp:31-37 | On an empty allocator: the range becomes one free block, with invariant, trees and counters in step. |
| `ExternalAllocator.Allocator.Alloc` | ExternalAllocator.cpp:39-57 | Succeeds if and only if some `size` consecutive addresses are free; takes them from the start of a smallest sufficient free block; adds exactly that allocation, which is new, and keeps the invariant. |
| `ExternalAllocator.Allocator.AllocAt` | ExternalAllocator.cpp:70-100 | Unless the range is misjudged: succeeds if and only if every address of [ptr, ptr + size) is registered and free; adds exactly that allocation and keeps the invariant. Ranges that end past two to the 64 and are refused are included. |
| `ExternalAllocator.Allocator.AllocAligned` | ExternalAllocator.cpp:59-68 | Succeeds if and only if a free block of size + align - 1 exists, so the nested AllocAt never fails; the result is the least multiple of align in a smallest such block. |
| `ExternalAllocator.Allocator.Free` | ExternalAllocator.cpp:102-134 | Succeeds if and only if an allocation starts at the pointer (otherwise the source aborts); removes exactly that allocation and restores full coalescing. |
| `ExternalAllocator.Allocator.Absorb` | ExternalAllocator.cpp:111-120 | Joining two touching free blocks keeps the size tree exactly the free blocks under their present sizes. |
| `ExternalAllocator.Allocator.JoinPrevious` | ExternalAllocator.cpp:110-121 | After the first half of Free the block touches no free block on its left, and allocations are unchanged. |
| `ExternalAllocator.Allocator.JoinNext` | ExternalAllocator.cpp:123-133 | After the second half no two free blocks touch, and allocations are unchanged. |
| `ExternalAllocator.Allocator.StateInOrder` | ExternalAllocator.cpp:31-134 | The class invariant is the invariant of the pure theory: canonical tiling, size tree equal to the free blocks, fTotalSize the length of the range, fAllocSize the sum of the allocated sizes. |
| `BlockMap.CanonicalUnique` | ExternalAllocator.cpp:102-134 | Two canonical block maps over the same range with the same allocations are equal: the map is determined by range and allocations alone. |
| `BlockMap.StateDetermined` | ExternalAllocator.cpp:31-134 | Two allocator states over one range are equal, trees and counters included, if and only if their allocations are. |
| `BlockMap.FreeUndoesAlloc` | ExternalAllocator.cpp:39-134 | Freeing what was just allocated restores the exact block map, size tree and counters, however the allocation was made. |
| `BlockMap.FreedAreGone` | ExternalAllocator.cpp:102-134 | After the first n frees of any run, exactly those n allocations are gone. |
| `BlockMap.FreesInAnyOrder` | ExternalAllocator.cpp:102-134 | Freeing the same set of allocations in any two orders ends in the same state, and freeing all of them in the single block that Register made. |
| `BlockMap.FreeIffNotLive` | ExternalAllocator.cpp:31-134 | An address of the range is free if and only if no outstanding allocation covers it. |
| `BlockMap.FreeRangeIff` | ExternalAllocator.cpp:70-75 | A range is free if and only if it lies in the registered range and overlaps no outstanding allocation. |
| `BlockMap.CoveredByOne` | ExternalAllocator.cpp:70-75 | A run of free addresses lies inside the one free block that holds its first address: coalescing is complete. |
| `BlockMap.FreeRunIffBlock` | ExternalAllocator.cpp:39-43 | Some `size` consecutive addresses are free if and only if a free block of that size exists. |
| `BlockMap.BoundedByRange` | ExternalAllocator.h:80 | The sum of the allocated sizes lies between zero and the length of the range, so the 64-bit counter cannot wrap. |
| `BlockMap.CarveCanonical` | ExternalAllocator.cpp:77-99 | Taking any range out of a free block leaves a canonical map with exactly that allocation added. |
| `BlockMap.CarveLive` | ExternalAllocator.cpp:77-99 | The cuts change no other allocation, and the one made is new. |
| `BlockMap.PreviousTouches` | ExternalAllocator.cpp:110-112 | In a gapless tiling the block that precedes in address order ends where this one starts, so Free needs no adjacency test. |
| `BlockMap.NextTouches` | ExternalAllocator.cpp:123-126 | The same on the right. |
| `BlockMap.EmptyPool` | ExternalAllocator.cpp:102-134 | With nothing allocated the map is one free block that covers the range. |
| `ShmfsVolume.FreeIds` | ShmfsVolume.cpp:14 | An address of the pool is free if and only if it is in 1..0x7fffffff and no vnode has that id. |
| `ShmfsVolume.IdsCounted` | ShmfsVolume.cpp:12-15 | Every id in use is in 1..0x7fffffff, and all are in use exactly when 0x7fffffff are. |
| `ShmfsVolume.IdsLive` | ShmfsVolume.cpp:25-41 | Every registered id belongs to a vnode in existence, and no two vnodes share one. |
| `ShmfsVolume.Volume.constructor` | ShmfsVolume.cpp:12-15 | A new volume has no vnodes and the whole id range free. |
| `ShmfsVolume.Volume.RegisterVnode` | ShmfsVolume.cpp:25-41 | Fails if and only if 0x7fffffff ids are in use; otherwise the vnode gets an id in 1..0x7fffffff that nothing in existence has, and id map and pool stay in step. |
| `ShmfsVolume.Volume.Mount` | ShmfsVolume.cpp:44-60 | The volume has one vnode, an empty directory with two references: the volume's and the VFS's. |
| `ShmfsVolume.Volume.Unmount` | ShmfsVolume.cpp:62-70 | What survives is exactly what references of the VFS still lead down to; without any, every vnode is destroyed, no id is registered, and the pool is the single free block [1, 0x80000000). |
| `ShmfsVolume.Volume.GetVnode` | ShmfsVolume.cpp:89-106 | Finds a vnode if and only if the id is registered, and takes exactly one reference to it. |
| `ShmfsVolume.Volume.PutVnode` | ShmfsVnode.cpp:95-107 | One reference is given back; every vnode survives if and only if climbing from it led to the root or to something still held; survivors are unchanged but for their counts. |
| `ShmfsVolume.Volume.ReleaseReference` | ShmfsVnode.cpp:95-107 | The recursive teardown terminates and keeps the invariant; the vnode is gone with its last reference; one that has others, or has no entries, affects nothing but itself. |
| `ShmfsVolume.Volume.ReleaseEntries` | ShmfsDirectoryVnode.cpp:13-22 | A dying directory ends with no entries, each of them having lost exactly its link's reference. |
| `ShmfsVolume.Volume.ReturnId` | ShmfsVnode.cpp:32-35 | The id of a vnode that goes leaves the map and the pool together, so it can be issued again only then. |
| `ShmfsVolume.Volume.CreateSymlink` | ShmfsDirectoryVnode.cpp:99-128 | Succeeds if and only if the name is new and fewer than 0x7fffffff ids are in use; then exactly one new vnode appears, a symlink of that name with an id of its own, the directory gains that entry, and nothing else changes; an error changes nothing, which for the lack of an id is the intended behaviour. |
| `ShmfsVolume.Volume.CreateDir` | ShmfsDirectoryVnode.cpp:249-276 | The same for an empty directory, with the dots refused as existing; the lack of an id as for `CreateSymlink`. |
| `ShmfsVolume.Volume.Create` | ShmfsDirectoryVnode.cpp:203-247 | Which of the five results is given for which arguments; a new file is linked and held once by the VFS and nothing else changes; an existing one is reported under its id, and an error changes nothing; the lack of an id as for `CreateSymlink`. |
| `ShmfsVolume.Volume.Unlink` | ShmfsDirectoryVnode.cpp:130-155 | Each error for exactly its condition and without effect; on success the directory loses that entry, the vnode loses the references given back and goes if they were the last, and no other vnode changes. |
| `ShmfsVolume.Volume.RemoveDir` | ShmfsDirectoryVnode.cpp:278-304 | The same, for a directory and only for an empty one. |
| `ShmfsVolume.Volume.Rename` | ShmfsDirectoryVnode.cpp:157-192 | Succeeds if and only if both are directories, the source entry exists and the target, if any, has no entries; each error for exactly its condition, leaving vnodes and owners unchanged, also for a call that names one entry twice or a destination in the moved subtree; the outcome of a success is that of `RenameAtomic`. |
| `ShmfsVolume.Volume.Lookup` | ShmfsDirectoryVnode.cpp:306-325 | Finds a name if and only if there is such an entry, and the id found leads to that very vnode. |
| `Namespace.RunTheorem` | ShmfsDirectoryVnode.cpp:99-304 | After any run of changes: each count is link plus root plus references held, zero exactly while the destructor runs; each vnode is entered at most once; there is no cycle; every vnode is kept by something; and nothing is left when nothing is held. |
| `Namespace.ChangeKeeps` | ShmfsVnode.cpp:95-107 | Each single change of counts, links, names, ids or the root keeps the invariant. |
| `Namespace.MoveKeepsForest` | ShmfsDirectoryVnode.cpp:181-183 | Linking a moved vnode in a directory keeps the graph acyclic if and only if the directory is not in the vnode's subtree. |
| `Namespace.RenameAtomic` | ShmfsDirectoryVnode.cpp:157-192 | For every directory and name: after a rename the new entry names the moved vnode, the old one is gone, and no other entry differs; only the target can have been destroyed, exactly if the VFS does not hold it. |
| `Namespace.RenameOntoItself` | ShmfsDirectoryVnode.cpp:168-179 | The target of a rename is the very vnode to be moved if and only if source and destination are the same entry. |
| `Namespace.RenameAfterClearing` | ShmfsDirectoryVnode.cpp:172-181 | For a rename past its error returns: once the target is cleared the entry to be moved is still there if and only if source and destination differ, and the vnode still exists if and only if they differ or the VFS holds enough references. |
| `Namespace.RenameKeepsForest` | ShmfsDirectoryVnode.cpp:157-192 | For a rename of an entry to another one, past its error returns: the outcome is acyclic if and only if the destination is not in the subtree of what is moved. |
| `Namespace.TargetIsOther` | ShmfsDirectoryVnode.cpp:172-183 | The target removed is neither the vnode moved nor one of the two directories, so all three outlive its removal. |
| `Namespace.NewEntryOnly` | ShmfsDirectoryVnode.cpp:244-245 | A new entry disturbs no other entry of any directory. |
| `Namespace.WithoutEntryOnly` | ShmfsDirectoryVnode.cpp:144-151 | Removing an entry disturbs no other, and destroys the vnode exactly if the references given back were the last. |
| `Namespace.NoLeak` | ShmfsVnode.cpp:21-36 | Every vnode in existence is below the root, below one the VFS holds, or below one being destroyed. |
| `Namespace.NothingLeft` | ShmfsVolume.cpp:62-70 | With no root and nothing held there is no vnode: reference counting frees all, because the graph has no cycles. |
| `Namespace.SurvivorsAreAnchored` | ShmfsDirectoryVnode.cpp:13-22 | A teardown destroys exactly the vnodes from which nothing that is still kept can be reached by climbing. |
| `Namespace.DetachKeeps` | ShmfsDirectoryVnode.cpp:94 | Taking an entry out turns its link's reference into one that is owed. |
| `Namespace.AttachKeeps` | ShmfsDirectoryVnode.cpp:124-125 | Entering a vnode turns the creator's reference into the link's. |
| `Bytes.ReadBack` | ShmfsAttribute.cpp:36-59 | Reading what was just written gives the bytes written. |
| `Bytes.SliceAt` | ShmfsAttribute.cpp:40-42 | A read gives the bytes from the position on, as many as asked for and as there are. |
| `Bytes.ShrinkThenExtend` | ShmfsAttribute.cpp:69-78 | Bytes that were cut off do not come back on extending: zeros do. |
| `Bytes.SplicedTwice` | ShmfsAttribute.cpp:46-59 | Of two writes to one range only the second shows. |
| `ShmfsAttribute.CapacitySuffices` | ShmfsAttribute.cpp:12 | The capacity computed in 32 bits holds the size asked for if and only if half as much again does not wrap. |
| `ShmfsAttribute.CapacityWraps` | ShmfsAttribute.cpp:12 | The least size for which it does not, where the capacity comes out as zero. |
| `ShmfsAttribute.Attribute.EnsureSize` | ShmfsAttribute.cpp:9-21 | Capacity kept if it suffices and else half as much again as asked for, the same contents, and over any run of calls at most twice the capacity in bytes copied. |
| `ShmfsAttribute.Attribute.WriteStat` | ShmfsAttribute.cpp:69-78 | The contents cut or extended with zeros to exactly the size. |
| `ShmfsAttribute.Attribute.Write` | ShmfsAttribute.cpp:46-59 | Every byte and the size afterwards: the data in its range, the old bytes outside it, zeros in a gap; a negative position is refused without effect. |
| `ShmfsAttribute.Attribute.Read` | ShmfsAttribute.cpp:36-44 | How many bytes are read, none past the end and as many as asked for otherwise, and that they are those from the position on. |
| `FlatFile.TouchedIff` | ShmfsFileVnode.cpp:56-59 | A transfer works on exactly the pages that hold an address of its range or, if it has none, the page that its offset lies inside. |
| `FlatFile.OverlayAt` | ShmfsFileVnode.cpp:67-101 | Byte by byte, a page stored to holds the data inside the range and elsewhere what it held. |
| `FlatFile.ContentsAt` | ShmfsFileVnode.cpp:87-97 | The file shows the bytes of its resident pages, and zeros for absent ones. |
| `FlatFile.WrittenAt` | ShmfsFileVnode.cpp:69-101 | Every byte after a paged write: the data inside the range, what was there outside it, and on a fresh page what that page held. |
| `FlatFile.WriteIsSplice` | ShmfsFileVnode.cpp:272-308 | The paged write equals the write of the flat file if and only if the bytes it leaves alone on fresh pages and past the old end are zero. |
| `FlatFile.WriteAlwaysSplices` | ShmfsFileVnode.cpp:146-156 | The paged write equals the write of the flat file for every content of fresh pages if and only if, outside the range, each address of the new file is resident (and zero if past the old end) or on a page that the write does not allocate. |
| `FlatFile.GapShowsFreshPage` | ShmfsFileVnode.cpp:146-156 | An instance where it does not: one byte at position 1 of an empty file, on a fresh page of ones. |
| `FlatFile.WriteThenRead` | ShmfsFileVnode.cpp:247-308 | Reading a range just written gives the same bytes, across any number of page boundaries and whatever fresh pages held. |
| `FlatFile.FailedWriteKeeps` | ShmfsFileVnode.cpp:98-107 | After a failed write the bytes it got to can be read if and only if each is on a page that was resident, or is zero. |
| `FlatFile.AppendAdds` | ShmfsFileVnode.cpp:278-279 | One append to a file without holes adds the buffer to the contents and leaves no holes. |
| `FlatFile.AppendsConcatenate` | ShmfsFileVnode.cpp:272-308 | From an empty file, any run of appends leaves the concatenation of the buffers, whatever fresh pages held. |
| `ShmfsFileVnode.FileVnode.LookUpPages` | ShmfsFileVnode.cpp:117-136 | Exactly the resident pages of the range become busy and fill their slots, and exactly the absent ones are counted. |
| `ShmfsFileVnode.FileVnode.AllocateMissing` | ShmfsFileVnode.cpp:146-156 | Every slot gets a page of its own with exactly `missing` allocations, and the early stop leaves no slot empty. |
| `ShmfsFileVnode.FileVnode.GetPages` | ShmfsFileVnode.cpp:110-161 | For a write every slot is filled, by the cache's page or by a fresh one; for a read absent pages stay absent and none is allocated. |
| `ShmfsFileVnode.FileVnode.Transfer` | ShmfsFileVnode.cpp:67-101 | The loop stays inside the page array; it stores through the pages, or takes from them, exactly the bytes of the range that the caller's buffer allows. |
| `ShmfsFileVnode.FileVnode.PutPages` | ShmfsFileVnode.cpp:163-192 | The cache grows by the number of fresh pages on success, and all of them are given back on an error. |
| `ShmfsFileVnode.AfterTransfer` | ShmfsFileVnode.cpp:50-108 | After a transfer no page is busy, every page is in the cache under its own number, and the resident bytes are the old ones with the data laid over them. |
| `ShmfsFileVnode.PageAfter` | ShmfsFileVnode.cpp:163-192 | The same for one page number, resident before, fresh, or neither. |
| `ShmfsFileVnode.WriteOutcome` | ShmfsFileVnode.cpp:50-108 | Which pages are resident after a write and what each holds, without reference to page counts. |
| `ShmfsFileVnode.ShownIsRead` | ShmfsFileVnode.cpp:87-97 | What a read takes from the slots, zeros for absent pages, is what the flat file shows. |
| `ShmfsFileVnode.FileVnode.DoCacheIO` | ShmfsFileVnode.cpp:50-108 | Pages taken and given back balance against the cache (part of `Valid`); a successful write is `Written` with the pages it allocated, a failed one with none; a read changes no byte; the count processed is exact on success and a whole number of pages short otherwise. |
| `ShmfsFileVnode.FileVnode.Read` | ShmfsFileVnode.cpp:247-270 | How many bytes are read, none past the end and as many as asked for otherwise, and that they are those of the flat file; refuses a negative position; fails exactly if the caller's buffer is too short, and has then delivered the part that fits and reports whole pages of it. |
| `ShmfsFileVnode.FileVnode.Write` | ShmfsFileVnode.cpp:272-308 | For every outcome, appending or not, the new size, the resident pages and their bytes: a page becomes resident only on success and only if it overlaps the range, pages that do not are as they were, and the others have the part of the data that was reached laid over them. |
| `Names.LessTransitive` | Shmfs.h:166-174 | The order of names is transitive. |
| `Names.LessTotal` | Shmfs.h:166-174 | Of two different names one is less: only equal names collide in a tree. |
| `Names.LessIsStrcmp` | Shmfs.h:166-174 | A name is less exactly if it is a proper prefix of the other or has the smaller character at the first difference. |
| `Names.NextIff` | ShmfsVnode.cpp:64-67 | The next name is the one above with none in between. |
| `Names.FirstUnique` | Shmfs.h:62-70 | The leftmost name of a tree is determined by the names in it. |
| `Listing.ScanTheorem` | ShmfsVnode.cpp:50-76 | For any run of listing, inserting and removing: the names given out are strictly increasing, the cursor stands on no removed name, and a finished scan has given out exactly once every name that was there throughout. |
| `Listing.SkippedOk` | ShmfsVnode.cpp:69-76 | A cursor moved off a name before it goes has missed nothing and repeats nothing. |
| `Listing.EmittedOk` | ShmfsVnode.cpp:64-67 | So has one that gave out the name it stood on. |
| `Listing.AllListed` | ShmfsVnode.cpp:50-67 | What a cursor at the first name has to give out is each name of the listing, once and in order. |
| `Listing.EmittedManyIs` | ShmfsVnode.cpp:310-345 | The names given out by a call come off the front of what was left. |
| `ShmfsAttributes.UnlinkKeepsCursors` | ShmfsVnode.cpp:69-76 | Removing an attribute leaves every cursor of every vnode on an attribute that is there, with its scan in order. |
| `ShmfsAttributes.RenameAttrOntoItself` | ShmfsVnode.cpp:424-432 | The target is the very attribute to be moved if and only if source and destination are the same, and exactly then clearing the target takes it from its tree. |
| `ShmfsAttributes.LinkKeeps` | ShmfsVnode.cpp:371 | An insertion disturbs no cursor and no count. |
| `ShmfsAttributes.DeleteKeeps` | ShmfsVnode.cpp:394-398 | An attribute whose last reference goes is in no tree and under no cursor. |
| `ShmfsAttributes.AttributeSpace.FindFirst` | ShmfsVnode.cpp:50-67 | The attribute with the least name, or the least after a given one. |
| `ShmfsAttributes.AttributeSpace.UnlinkAttr` | ShmfsVnode.cpp:69-76 | Only that attribute leaves its tree; every scan of that vnode, and of no other, skips the name. |
| `ShmfsAttributes.AttributeSpace.CreateAttr` | ShmfsVnode.cpp:354-376 | The attribute of that name, a new one if there was none, with one more reference for the caller; no other attribute changes; refused without effect exactly if it exists and must not. |
| `ShmfsAttributes.AttributeSpace.OpenAttr` | ShmfsVnode.cpp:378-387 | Finds the attribute exactly if there is one of the name, with one more reference; no other attribute changes. |
| `ShmfsAttributes.AttributeSpace.FreeAttrCookie` | ShmfsVnode.cpp:394-398 | An attribute outlives the call if and only if it is still in a tree or open elsewhere. |
| `ShmfsAttributes.AttributeSpace.RemoveAttr` | ShmfsVnode.cpp:440-452 | The name leaves that vnode and nothing else does; exactly the cursors that stood on it have gone on to the next. |
| `ShmfsAttributes.AttributeSpace.RenameAttr` | ShmfsVnode.cpp:420-438 | The same attribute is found under the new name, what was there is gone, no other entry differs, and the cursors of both vnodes have skipped what they lost. |
| `ShmfsAttributes.AttributeSpace.OpenAttrDir` | ShmfsVnode.cpp:286-295 | A new cursor on the first attribute, at the start of a new scan; the other cursors stay. |
| `ShmfsAttributes.AttributeSpace.CloseAttrDir` | ShmfsVnode.cpp:297-302 | Only that cursor goes. |
| `ShmfsAttributes.AttributeSpace.RewindAttrDir` | ShmfsVnode.cpp:347-352 | The cursor is back on the first attribute and starts a new scan. |
| `ShmfsAttributes.AttributeSpace.ReadAttrDir` | ShmfsVnode.cpp:310-345 | What is given out and what is left make up what was left before; the names are attributes of the vnode, in order, in entries that follow each other inside the buffer; it stops only at the limit, at the end, or when the next entry does not fit; an error exactly if nothing fits. |
| `ShmfsAttributes.AttributeSpace.ReleaseAll` | ShmfsVnode.cpp:25-31 | Afterwards the vnode has no attribute, and an attribute that is open elsewhere still exists. |
| `DirCursors.StaysSoundIff` | ShmfsDirectoryVnode.cpp:87-94 | Removing an entry leaves a cursor on a vnode that is there if and only if the cursor was past the dots or not on that entry. |
| `DirCursors.DanglingCursor` | ShmfsDirectoryVnode.cpp:59-71 | A cursor just opened on a directory with one entry, and that entry removed: the cursor still stands on it. |
| `DirCursors.AllSoundIff` | ShmfsDirectoryVnode.cpp:25-94 | Through a whole run a cursor never stands on a removed entry if and only if no entry is removed that a cursor still at the dots stands on. |
| `DirCursors.RestIs` | ShmfsDirectoryVnode.cpp:31-72 | What a cursor has still to give out: the dots it has not got past, and then names of the directory, in order. |
| `DirCursors.WholeListing` | ShmfsDirectoryVnode.cpp:25-72 | The whole listing of a directory: ".", then ".." exactly if it has a parent, then each name, once and in order. |
| `DirCursors.DirScanTheorem` | ShmfsDirectoryVnode.cpp:25-94 | For any run in which that does not happen: what is given out is the dots and then what the scan emits, which is strictly increasing and misses no entry that was there throughout. |
| `DirCursors.DirectoryListing.FindFirst` | ShmfsDirectoryVnode.cpp:25-29 | The least name of the directory, or the least above a given one. |
| `DirCursors.DirectoryListing.IteratorGet` | ShmfsDirectoryVnode.cpp:31-57 | The first of what the cursor has still to give out, and nothing if nothing is left. |
| `DirCursors.DirectoryListing.IteratorNext` | ShmfsDirectoryVnode.cpp:59-72 | The loop over the tree moves the cursor as the specification says, to the least name above. |
| `DirCursors.DirectoryListing.OpenDir` | ShmfsDirectoryVnode.cpp:327-337 | A new cursor, before the dots and on the least name; the other cursors stay. |
| `DirCursors.DirectoryListing.RemoveNode` | ShmfsDirectoryVnode.cpp:87-94 | The entry goes, and exactly the cursors that stood on it have been moved: on to the next entry past the dots, or else one dot further. |
| `DirCursors.DirectoryListing.ReadDir` | ShmfsDirectoryVnode.cpp:354-390 | What is given out and what is left make up what was left before: dots first, then names of the directory, in order, in entries that follow each other inside the buffer; it stops only at the limit, at the end, or when the next entry does not fit; an error exactly if nothing fits; other cursors stay. |
| `RoundTrips.AllocThenFree` | ExternalAllocator.cpp:39-134 | Alloc and then Free of what it gave: block map, size tree and counters are as before. |
| `RoundTrips.AllocAtThenFree` | ExternalAllocator.cpp:70-134 | The same for AllocAt. |
| `RoundTrips.AllocAlignedThenFree` | ExternalAllocator.cpp:59-134 | The same for AllocAligned. |
| `RoundTrips.WriteShown` | ShmfsFileVnode.cpp:272-308 | After a write that succeeds the range shows the buffer, and with safe margins the file is the old contents with the buffer spliced in. |
| `RoundTrips.WriteThenReadBack` | ShmfsFileVnode.cpp:247-308 | A Write and then a Read of the range gives the buffer back, across page boundaries and whatever fresh pages held. |
| `RoundTrips.AppendAll` | ShmfsFileVnode.cpp:272-308 | From an empty file, any run of append writes leaves the concatenation of the buffers. |
| `RoundTrips.ListWhole` | ShmfsDirectoryVnode.cpp:327-390 | OpenDir and then ReadDir until nothing more comes, whatever the limits: ".", then ".." exactly if there is a parent, then each name, once and in order. |

## Left out

- ExternalAllocator.Allocator.Register: only for an empty allocator, as in ShmfsVolume.cpp:14, because Free joins neighbours in address order without asking whether they touch; a second range next to a gap would break it.
- ExternalAllocator.Allocator.Alloc: size 0 is excluded here and in AllocAt and AllocAligned; the source would make empty blocks.
- ExternalAllocator.Allocator.AllocAt: ranges that the 64-bit test misjudges are excluded, and no others; `FindFreeAround` covers them.
- ExternalAllocator.Allocator.AllocAligned: fails although an aligned range may exist when no block has align - 1 spare addresses; that is what the source does.
- ExternalAllocator.Allocator.constructor: the counters start at zero; the source gives them no initial value (ExternalAllocator.h:80).
- ExternalAllocator.Allocator.Free: the abort on a bad pointer is a result that changes nothing.
- ShmfsVolume.Volume.Lookup: ".." and fParent are not modelled, and Rename does not update fParent; the reference that get_vnode takes is a call of GetVnode with the id found.
- ShmfsVolume.Volume.Rename: what follows when a call past the error returns names one entry twice, or a destination in the moved subtree, is not modelled beyond `RenameAfterClearing` and `RenameKeepsForest`; SetName is taken to succeed.
- ShmfsVolume.Volume.Unlink: remove_vnode and put_vnode belong to the VFS; `vfsPut` says whether they give back, within the call, the reference the VFS holds.
- ShmfsVolume.Volume.RemoveDir: uses the id saved before the release, where the source reads it from the vnode released (ShmfsDirectoryVnode.cpp:297-299).
- ShmfsVolume.Volume.Create: opening an existing file has no effect in the model, so neither the cookie nor O_TRUNC; the failure of Init, after which the source keeps a reference, is left out.
- ShmfsVolume.Volume.RegisterVnode: after a failure the new vnode is destroyed cleanly; the source's destructor would there lock through a volume pointer that is not set.
- ShmfsVolume.Volume.CreateSymlink: the path is not modelled.
- ShmfsAttribute.Attribute.EnsureSize: excludes sizes for which half as much again wraps in 32 bits, and with it WriteStat and Write do; `CapacitySuffices` says which those are.
- ShmfsFileVnode.FileVnode.Write: VMCache is not part of this model; its Resize either fails or succeeds and then leaves resident pages alone, as growing does. File positions are unbounded.
- ShmfsFileVnode.FileVnode.DoCacheIO: what fresh pages hold is a parameter, and so is how far the caller's buffer can be accessed; each transfer is one step, so waiting for pages that another one made busy does not occur.
- ShmfsAttributes.AttributeSpace.RenameAttr: what follows when an attribute that is there is renamed to itself is not modelled beyond `RenameAttrOntoItself`.
- ShmfsAttributes.AttributeSpace.CreateAttr: the type and O_TRUNC, which is a WriteStat to size 0, are not in this part.
- DirCursors.DirScanTheorem: assumes that no entry is removed under a cursor still at the dots; `AllSoundIff` shows that the cursor is otherwise left on a removed entry.
- Blocks, vnodes, attributes and pages are records in maps named by handles, not heap objects, so two trees that share an object are two maps that agree on its handle.
- DirCursors.DirectoryListing.ReadDir: of an entry the buffer holds the position, d_reclen and d_name; d_dev and d_ino are not modelled, here and in ReadAttrDir.
- The attributes of the vnodes, and the cursors of a directory, are kept apart from the directory graph; `ReleaseAll` is the part of the vnode destructor that concerns attributes.
- Cursors still open on a vnode whose destructor runs: the VFS keeps the vnode as long as it has a cookie.
- Truncating a file: VMCache::Resize decides what becomes of the pages cut off.
- Locks and concurrency: the volume's lock makes each call one step.
- Memory that runs out, other than the id pool.
- AVL tree internals, BReference and the page allocator, beyond what callers rely on.
- Symlink targets, stat fields, permissions, timestamps, notifications, volume information and the dispatch tables of kernel_interface.cpp: they decide none of the above.
