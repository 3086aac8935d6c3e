# Verified models of the storage, list, buffer and loader code

A Dafny 4.11 project about the software of the THUAS RISC-V system. Each module models one part of that software in the
part's own terms, and proves what that part is for.

| module | part |
|---|---|
| `Bytes`, `Geometry` | bytes and little-endian words; the layout of a FAT12/16/32 volume and the meaning of its table |
| `Mount` | the checks and the layout arithmetic of mounting a volume, with 32-bit wrap-around |
| `Volume`, `FatEntries` | the one-sector write-back window with its mirrored second table, and table entries of 12, 16 and 28 bits in it |
| `Chains`, `Allocator`, `FatRuns` | cluster chains; removing, creating and counting; whole runs of the allocator |
| `ClusterMap`, `FileData`, `OpenFile`, `Sessions` | sectors of a chain; an open file with its private dirty buffer; whole runs on open files |
| `DirWalk`, `DirEntries` | stepping and seeking in a directory, stretching it, finding a block of free entries; reading and searching it |
| `LongName`, `NameTable` | long names in pieces of 13 characters: written, collected, compared, entry by entry |
| `NumberedName`, `Directory`, `DirRegister` | numbered short names; what entering a name does to a table; registering a name on the volume |
| `Utf8`, `ShortName`, `FileName` | UTF-8 and UTF-16; the 11 bytes made from a long name; names from a path and to a listing |
| `Listing`, `NewFile` | the way round: what is listed is what was named, also through the directory |
| `Glob` | matching a name with a `?`/`*` pattern |
| `SortSpec`, `CoreList`, `BenchList` | the linked list of the CoreMark kernel: merge sort in place, reverse, splice, remove and undo |
| `BoundedBuffer` | producers and consumers over two counting semaphores, a mutex and a ring |
| `Srec`, `Bootloader`, `Srec2Vhdl`, `SrecLoaders` | S-records, the two programs that read them, and their agreement |

The drive is a sequence of 512-byte sectors behind the volume object. What the drive holds, what the volume looks like
through the dirty window (`img`), the decoded table (`fat`) and the contents of a file (`data`, `chain`, `sects`) are kept
side by side by the classes `FatFs` and `FileObj`; `Valid()` ties them together, and every method says what it makes of each.

## Main results

1. **A file is a byte sequence with a cursor** (`Sessions.Session`). Any sequence of reads, writes, seeks to any offset and
   truncations gives the replies and leaves the contents and the position that the same sequence gives on plain bytes, for a
   file opened for reading, for writing, or for both. The dirty private buffer, the multi-sector transfers past it and the
   growth over cluster boundaries do not show. A seek past the end stretches a file open for writing by bytes that are
   unknown until they are written. On the volume a write or a stretch takes free clusters for its bytes and no more, a
   truncation frees all the bytes do not take, and no other entry of the table changes. So no run makes an entry invalid,
   on a table without an invalid entry no operation fails, and a table of disjoint chains stays one. With an honest free
   count a write or a stretch on such a table gets exactly as far as asked (up to 4 GiB - 1), or as far as the free
   clusters reach (`Sessions.ReachExactly`). An operation on one file leaves every other open file without a common cluster
   as it is (`Sessions.PerformBeside`), so any interleaving of operations on two files is a run of two byte sequences, with
   the same promises about the table (`Sessions.Interleaved`).
2. **The table stays a set of disjoint acyclic chains** over every run of allocator calls (`FatRuns.RunKeepsChains`), the free
   count stays unknown or exact, and `create_chain` fails exactly when no cluster is free (`FatRuns.CreateOn`). A sector
   of the second copy of the table equals the first one's, unless neither has changed since mount time
   (`Volume.CopiesAgree`).
3. **The list benchmark** turns any list of three or more nodes into the same nodes in stable order of idx with every low byte
   taken from its backup (`BenchList.BenchAny`), which says when it leaves no trace (`BenchList.Bench`), for lists whose tied
   nodes need no kernel in terms of the list and the arguments alone. The merge sort whose comparison rewrites the data it
   compares returns a stable sorted permutation of the same nodes, by the values the data words had where these determine
   them (`CoreList.Sort`).
4. **A registered name is the name that is read and found.** On the volume, over clusters and stretches of the directory, a
   long name just registered is read back character for character (`DirRegister.RegisterThenRead`), and a search that found
   nothing finds the new entry afterwards (`DirRegister.FindOrRegister`); by its long form exactly up to case, all other names
   being found as before (`Directory.NewNameFound`, `Directory.OthersFound`, `NameTable.NamedHit`). No other
   entry of the allocation table and no other sector changes (`DirWalk.SparedTrans`), so open files stay valid
   (`DirRegister.FileStays`). A name is refused only when all its numbered names are taken, or when the directory has no row of
   free entries for it and cannot grow (`DirRegister.Register`).
   **A name is listed as it was given**: from the UTF-8 of a path over the long name, the 11 bytes with their case flags and
   the directory entries back to UTF-8 (`NewFile.CreateAndList`), and the text listed makes the same name, bytes and flags
   again (`Listing.NameStays`). `FileName.CreateName` gives the 11 bytes of every name, and says exactly when they lose
   something of it and when no long name is needed.
5. **Pattern matching** accepts exactly what the pattern means, with the exact condition (`Glob.MatchIsMeaning`).
6. **The bounded buffer** in every interleaving of any number of tasks: no lost slot, first in first out, no deadlock, and the
   exact condition for the latter (`BoundedBuffer.RunSafe`, `BoundedBuffer.NoDeadlock`, `BoundedBuffer.DeadlockAhead`).
7. **Both S-record readers build the same image** for every file the converter can hold, addresses being 32 bits wide in the
   bootloader (`SrecLoaders.LoadBoth`).
8. **Every accepted volume is laid out safely** (`Mount.ClusterInVolume`, `Mount.TableFits`), and its layout is what the table,
   directory and file code rely on (`Mount.MountIsSound`, `Mount.MountPlacesRoot`).

## Where the code does less than it seems to promise

- A pattern term with 256 or more `?` is counted modulo 256 and then taken for `*`. `Glob.MatchIsMeaning` states for which
  patterns the matching is right: every term below 256 `?`, or too many terms, in which case nothing matches.
  `Glob.ManyQuests`: 256 `?` match the empty name.
- UTF-8 sequences longer than need be are accepted (`Utf8.OverlongAccepted`); `Utf8.DecodeCanonical`: what is decoded was
  encoded so, exactly when it takes no more bytes than it needs.
- A character U+FFFF in a long name is taken for a filler when it is stored. `LongName.StoredExactly`: the parts written are
  those of the name exactly when there is none, but for some that fill up the last part. Of any other name dir_read gives
  the characters before the first U+FFFF and then U+FFFF up to the end of that part, or no long name if these are 260
  (`Directory.ReadsStored`, `LongName.FillerLost`). The other results on directories are about storable names.
- The sum of reserved, table and root directory sectors can overflow 32 bits. The boot sector of `Mount.OverflowAccepted` is
  accepted with its data area inside the tables; `Mount.DataBehindTables` gives the exact condition.
- Counting free clusters on 16- and 28-bit tables starts at entry 0. `FatRuns.SectorCountExact`: exact just when entries 0 and
  1 are nonzero. `FatRuns.CountedOneMore` is a table where it is not.
- Without a consumer, or without a producer, every run of the bounded buffer is bounded in length and ends in a deadlock
  (`BoundedBuffer.DeadlockAhead`).
- A record that runs over the top of the address space goes on at address 0 in the bootloader and not in the converter. The
  two agree all the same, at every loaded address taken modulo 2^32 (`SrecLoaders.SameImage`).
- The comment of the list benchmark promises the original state without a condition. It is kept exactly when the idx ascend,
  the low data bytes equal their backups, and the searches and the sort by value leave nodes of one idx in order
  (`BenchList.Bench`). The last is no condition for distinct idx, or without searches; after a single search in vain no two
  nodes may have one idx. If a kernel has to compute the value of a node that shares its idx, the condition is relative to
  what it computes; for all other lists it is one on the recorded idx and data words (`BenchList.TiesAre`).
  `BenchList.StaleByte`, `BenchList.SameIdx` and `BenchList.ValueTies` are lists on which the promise fails.

## Model

| member | source | states |
|---|---|---|
| `Volume.FatFs.SyncWindow` | sw/fatfs/ff.c:1055-1073 | after the call the drive equals the volume as seen through the window; table sectors reach both copies |
| `Volume.FatFs.MoveWindow` | sw/fatfs/ff.c:1077-1099 | the volume as seen is unchanged and the window holds the requested sector; a table sector written back reaches both copies |
| `Volume.CopiesAgree` | sw/fatfs/ff.c:1055-1073 | a sector of the second table equals the first one's, unless both are what they were at mount time, and always the one dirty in the window; the drive has them so too, but for that one |
| `Volume.StoreMirrored` | sw/fatfs/ff.c:1064-1068 | a store through the window keeps that, and makes both copies of a table sector equal |
| `Volume.GetFat` | sw/fatfs/ff.c:1161-1229 | the decoded entry, byte by byte as the table holds it for each width, or 1 for a number outside the table |
| `Volume.PutFat` | sw/fatfs/ff.c:1239-1288 | one entry of the decoded table becomes the value cut to its width, its bytes the lowest first; every other byte of the table stays, and so does the half of a shared byte that is no part of the entry; nothing outside the tables changes |
| `Geometry.EntryInBytes` | sw/fatfs/ff.c:618-637 | the value of an entry is made up of the two, or four, bytes at its offset in the table, lowest first: twelve bits in one and a half bytes, the four top bits of a double word left out |
| `FatEntries.Put12` | sw/fatfs/ff.c:1252-1265 | after both byte stores of a 12-bit entry the table differs in that entry only, neighbours in the shared byte included |
| `FatEntries.Put16` | sw/fatfs/ff.c:1267-1272 | the same for a 16-bit entry |
| `FatEntries.Put32` | sw/fatfs/ff.c:1274-1285 | the same for a 28-bit entry, whose top four bits are preserved |
| `Allocator.EndMark` | sw/fatfs/ff.c:1446-1448 | the all-ones mark reads back as at least `n_fatent` and is never the disk-error value |
| `Chains.ChainDistinct` | sw/fatfs/ff.c:1453-1486 | a properly ended chain is acyclic |
| `Chains.ChainsMerge` | sw/fatfs/ff.c:1453-1486 | two chains that share a cluster agree from there on |
| `Chains.FreedChain` | sw/fatfs/ff.c:1453-1486 | removing from the head of a chain frees exactly its clusters |
| `Chains.FreedTail` | sw/fatfs/ff.c:1445-1486 | removing a tail frees exactly it and ends the part before it |
| `Chains.PartitionNew` | sw/fatfs/ff.c:1602-1609 | a new one-cluster chain keeps the table a set of disjoint chains |
| `Chains.PartitionStretch` | sw/fatfs/ff.c:1602-1609 | stretching keeps it, one chain being one cluster longer |
| `Chains.PartitionAdd` | sw/fatfs/ff.c:1602-1609 | a new chain of any length over free clusters keeps it |
| `Chains.PartitionCut` | sw/fatfs/ff.c:1445-1486 | cutting keeps it, one chain being shorter or gone |
| `Allocator.RemoveChain` | sw/fatfs/ff.c:1429-1515 | on any table, cyclic and cross-linked ones included: the exact new table and result, termination, and the free count kept honest |
| `Allocator.FreeFrom` | sw/fatfs/ff.c:1453-1486 | the freeing loop against the function `Freed`; each continuing step turns a nonzero entry to zero |
| `Allocator.FindFree` | sw/fatfs/ff.c:1588-1600 | the wrap-around search: the first free cluster from any start point, 0 only when none is free, 1 only when an entry is invalid |
| `Allocator.Choose` | sw/fatfs/ff.c:1576-1601 | the neighbour if it is free, else the search from the suggested cluster |
| `Allocator.CreateChain` | sw/fatfs/ff.c:1524-1615 | follows a linked cluster, refuses free and invalid ones, otherwise takes a cluster that was free and hangs it behind the given one |
| `Allocator.CountByEntry` | sw/fatfs/ff.c:4838-4850 | the count of free clusters of a 12-bit table, or an error exactly when an entry is invalid |
| `Allocator.CountBySector` | sw/fatfs/ff.c:4873-4892 | the sector scan counts the zero entries from entry 0 on |
| `Allocator.NextOffset` | sw/fatfs/ff.c:4876-4891 | the running sector and offset of the scan are those of the next entry |
| `Allocator.GetFree` | sw/fatfs/ff.c:4831-4899 | a known count is returned as it is; otherwise the scan's result becomes known |
| `FatRuns.CreateKeeps` | sw/fatfs/ff.c:1524-1615 | the new cluster is at the end of exactly one chain, or a chain of its own; the other chains stay |
| `FatRuns.RemoveKeeps` | sw/fatfs/ff.c:1429-1515 | exactly the clusters from the given one on are freed, the prefix is ended, the other chains stay |
| `FatRuns.RunKeepsChains` | sw/fatfs/ff.c:1429-1615 | over every run of successful calls the table stays a set of disjoint acyclic chains |
| `FatRuns.CreateOn` | sw/fatfs/ff.c:1524-1615 | with an honest count, 0 exactly when no cluster is free; otherwise partitioned and honest again |
| `FatRuns.RemoveOn` | sw/fatfs/ff.c:1429-1515 | succeeds; an entry is free afterwards exactly if it was or is on the removed part; honest again |
| `FatRuns.NoneInvalid` | sw/fatfs/ff.c:1457-1459 | no reachable table holds an invalid entry |
| `FatRuns.SectorCountExact` | sw/fatfs/ff.c:4873-4892 | the sector scan is exact if and only if entries 0 and 1 are nonzero |
| `FatRuns.CountedOneMore` | sw/fatfs/ff.c:4873-4892 | a table whose entry 0 is free: one cluster is counted though none is free |
| `FatRuns.CountOn` | sw/fatfs/ff.c:4831-4899 | on a set of disjoint chains whose entries 0 and 1 are in use the count succeeds, is exact, and is known from then on |
| `ClusterMap.ClusterBaseIs` | sw/fatfs/ff.c:1149-1151 | the running sum of cluster sizes is the product the code computes |
| `ClusterMap.SectorsDistinct` | sw/fatfs/ff.c:1144-1152 | the sectors of a chain are all different |
| `ClusterMap.SectorsDisjoint` | sw/fatfs/ff.c:1144-1152 | chains without a common cluster have no common sector |
| `OpenFile.Clst2Sect` | sw/fatfs/ff.c:1144-1152 | the first sector of a cluster modulo 2^32, which is exact and on the drive for a volume of accepted size; 0 for an invalid number |
| `FileData.FlushShows` | sw/fatfs/ff.c:4060-4063 | writing the buffer back does not change the contents |
| `FileData.LoadShows` | sw/fatfs/ff.c:3967-3975 | loading another sector into a clean buffer does not change them |
| `FileData.StoreShows` | sw/fatfs/ff.c:4109-4116 | a store into the buffer overwrites just those bytes of the contents |
| `FileData.StretchShows` | sw/fatfs/ff.c:4571-4574 | a stretch shows the old bytes, and whatever there is behind them |
| `FileData.DirectShows` | sw/fatfs/ff.c:4067-4088 | a multi-sector write past the buffer, with the refresh of a buffer it overtakes, overwrites just those bytes |
| `FileData.DirectRead` | sw/fatfs/ff.c:3945-3963 | a multi-sector read, patched with the dirty buffer, gives the contents |
| `OpenFile.FileObj.Read` | sw/fatfs/ff.c:3914-4004 | the bytes of the contents from the position on, as many as asked for or all there are; the position moves, the contents stay |
| `OpenFile.FileObj.Write` | sw/fatfs/ff.c:4014-4126 | the contents overwritten at the position, grown if need be; not all bytes are written only if the file ends at 4 GiB - 1 then, or a cluster was refused at the end of the chain; an internal error only on an entry invalid before; the chain takes free clusters, none beyond its bytes, and no other table entry changes |
| `OpenFile.FileObj.Seek` | sw/fatfs/ff.c:4510-4585 | for every offset: reached, with position, current cluster number and buffered sector those of the offset; clipped without write access; otherwise the file is stretched, as far as there are clusters and by no more than it takes, the old bytes staying; inside the file nothing else changes; an internal error only on an entry invalid before |
| `OpenFile.FileObj.SeekStart` | sw/fatfs/ff.c:4524-4545 | the walk begins in the current cluster or the first one, at the cluster's own offset; a file without clusters gets one |
| `OpenFile.FileObj.SeekWalk` | sw/fatfs/ff.c:4547-4569 | the walk ends in the cluster of the offset, or behind the last cluster that could be had; inside the file it leaves the table as it was |
| `OpenFile.FileObj.SeekLand` | sw/fatfs/ff.c:4563-4582 | the size follows a position behind it, and the buffer holds the sector of a position inside one |
| `OpenFile.FileObj.Truncate` | sw/fatfs/ff.c:4912-4953 | the contents end at the position; the chain is cut behind the cluster of the position, or whole at 0, the rest of it is free, and no other table entry changes |
| `OpenFile.FileObj.CutChain` | sw/fatfs/ff.c:4925-4937 | what becomes of the table for truncation at 0 and behind |
| `OpenFile.FileObj.Undisturbed` | sw/fatfs/ff.c:4014-4126 | an open file with disjoint clusters stays valid and shows the same contents |
| `OpenFile.TrimmedChain` | sw/fatfs/ff.c:4925-4937 | the cut table still holds the kept part of the chain, properly ended |
| `OpenFile.GrewTrans` | sw/fatfs/ff.c:4040-4057 | growing in turns is growing: clusters that were free join the chain, and every entry that changed is on it |
| `Sessions.PerformWrite` | sw/fatfs/ff.c:4014-4126 | one write is a step of the plain bytes, or refused without write access, or stopped by an entry invalid before; with an honest count it is short only at 4 GiB - 1, or when no cluster is free and the last is used up; the table changes only in the clusters its bytes take |
| `Sessions.PerformSeek` | sw/fatfs/ff.c:4510-4585 | one seek is a step of the plain bytes: reached, or short of clusters, or failed on an entry invalid before; a stretch takes the clusters it needs, nothing else changes the table |
| `Sessions.Perform` | sw/fatfs/ff.c:3914-4126 | each operation is a step of the plain bytes and of the table, for every pair of access flags; a truncation frees exactly the clusters behind the position |
| `Sessions.Session` | sw/fatfs/ff.c:3914-4126 | any sequence of operations is a run of the plain bytes and of the table; it makes no entry invalid; on a table without an invalid entry it ends without an error and, with an honest count, each write and seek gets as far as asked or as the free clusters reach; disjoint chains stay so, the other files' unchanged |
| `Sessions.ReachExactly` | sw/fatfs/ff.c:4014-4126 | with an honest count, an operation that does not fail ends at its goal, or where the chain and all free clusters end; a write of fewer bytes than asked ends there or at 4 GiB - 1 |
| `Sessions.RunSound` | sw/fatfs/ff.c:3914-4126 | over a run the chain stays proper, no entry becomes invalid, and no operation fails unless one was invalid at the start |
| `Sessions.RunParted` | sw/fatfs/ff.c:3914-4126 | over a run the table stays the disjoint chains of this file and of the same others |
| `Sessions.PerformBeside` | sw/fatfs/ff.c:3914-4126 | the same step, and another open file with no common cluster keeps its contents and position and stays apart |
| `Sessions.Interleaved` | sw/fatfs/ff.c:3914-4126 | any interleaving of operations on two such files is a run of two byte sequences that know nothing of each other; the same promises about the table, both files' chains and the others |
| `Sessions.RunOfTwoParted` | sw/fatfs/ff.c:3914-4126 | over an interleaving the table stays the disjoint chains of both files and of the same others |
| `Mount.OneBit` | sw/fatfs/ff.c:3522-3523 | the bit test accepts exactly the powers of two |
| `Mount.MountVolume` | sw/fatfs/ff.c:3511-3561 | a boot sector is accepted or refused by its fields, whose bytes are named, and the layout it gives, all sums modulo 2^32; one that passes the other checks is refused exactly when some byte of the last table entry lies outside the first `fsize` sectors |
| `Mount.TableNeeds` | sw/fatfs/ff.c:3554-3561 | for each entry width, the sectors counted for a table are enough if and only if its last entry lies in them |
| `Mount.NarrowestType` | sw/fatfs/ff.c:3539-3543 | the entries are 12, 16 or 28 bits wide exactly as the last cluster number is below the first value of that width that means a bad cluster |
| `Mount.TableFits` | sw/fatfs/ff.c:3548-3561 | each byte of each table entry lies in the first `fsize` table sectors |
| `Mount.ClusterInVolume` | sw/fatfs/ff.c:3534-3549 | every sector of every cluster lies within the volume |
| `Mount.ClustersApart` | sw/fatfs/ff.c:3534-3549 | distinct clusters own disjoint sectors |
| `Mount.DataBehindTables` | sw/fatfs/ff.c:3535-3549 | the data start behind tables and root directory if and only if the sum fits 32 bits |
| `Mount.OverflowAccepted` | sw/fatfs/ff.c:3511-3561 | a boot sector that is accepted although the sum overflows |
| `Mount.MountIsSound` | sw/fatfs/ff.c:3511-3561 | the layout of an accepted volume on the drive is the one the table and file code assume |
| `Mount.MountPlacesRoot` | sw/fatfs/ff.c:3556-3557 | the fixed root directory lies between tables and data |
| `DirWalk.DirObj.DirSdi` | sw/fatfs/ff.c:1697-1736 | succeeds exactly for an aligned offset below the limit that the table has, and stands at its cluster and sector |
| `DirWalk.DirObj.DirNext` | sw/fatfs/ff.c:1745-1796 | one entry on, at the place of that offset; without stretching it succeeds exactly when the table has that place; with it the table grows by one cleared cluster at its end, refused only when no cluster is to be had, ended only at the fixed root's end or the largest size, and failing only on an entry that is no cluster or an invalid one |
| `DirWalk.DirObj.WalkTo` | sw/fatfs/ff.c:1745-1796 | n steps end where a seek to the offset ends, and fail exactly when it does |
| `DirWalk.DirObj.DirAlloc` | sw/fatfs/ff.c:1806-1837 | the first n consecutive entries that are all free, the object at the last of them; refused only when the directory has no such row and is the fixed root, of the largest size, or no cluster is to be had; failing only on a missing first sector, a broken chain or an invalid entry; what the directory had stays, what is new is zeros, no other entry or sector changes, and an honest free count stays honest |
| `DirWalk.DirClear` | sw/fatfs/ff.c:1658-1687 | the cluster is all zeros, the rest of the volume unchanged |
| `DirWalk.StepStretched` | sw/fatfs/ff.c:1766-1786 | after a stretch the sectors before are where they were and the next one is in the new cluster |
| `DirWalk.NoneBehind` | sw/fatfs/ff.c:1721-1727 | behind a missing sector of a table there is none |
| `DirWalk.StillFree` | sw/fatfs/ff.c:1817-1832 | a stretch leaves the free entries found before it free |
| `DirWalk.NoRunKept` | sw/fatfs/ff.c:1817-1832 | and makes no row of free entries out of the entries passed over |
| `DirWalk.KeptGrown` | sw/fatfs/ff.c:1766-1786 | a stretch keeps the directory as far as it went and adds sectors of zeros only |
| `DirWalk.SparedGrown` | sw/fatfs/ff.c:1766-1786 | after a stretch every table entry that changed is a cluster of the directory that was free or the end of a chain and is in use now, and every sector that changed is the directory's or the tables'; the free count stays honest |
| `DirWalk.SparedTrans` | sw/fatfs/ff.c:1766-1786 | so it is over any number of steps |
| `DirWalk.BesideStays` | sw/fatfs/ff.c:1766-1786 | a chain without a cluster of the directory is a chain still, with the same sectors |
| `DirEntries.DirRead` | sw/fatfs/ff.c:2306-2374 | the next object shown, or dir_next's answer at the end, an internal error only on a broken chain; a complete long name before it is left in the buffer with its start, and only a complete one |
| `DirEntries.DirFind` | sw/fatfs/ff.c:2384-2454 | the first entry that matches by long or short form, and the start of its long name; failure exactly when none does |
| `LongName.PutLfn` | sw/fatfs/ff.c:1959-1984 | for any name: the characters, terminator and fillers of the part, and its mark; the part of the name if that is storable |
| `LongName.OffsetsAscend` | sw/fatfs/ff.c:516 | the characters of an entry stand in order |
| `LongName.OffsetsFill` | sw/fatfs/ff.c:516 | they fill the entry but for the number, the attributes, type, checksum and the zero word |
| `LongName.PartInBytes` | sw/fatfs/ff.c:1959-1984 | a part byte by byte: the number, 0x40 more in the last part, 0x0F, the checksum, and each character with its low byte first |
| `LongName.MarkBit` | sw/fatfs/ff.c:1932-1945 | bit 6 of the number marks the last part, the other bits are the number |
| `LongName.StoredExactly` | sw/fatfs/ff.c:1959-1984 | the parts written are those of the name if and only if no U+FFFF stands in it, but for some that fill up the last part |
| `LongName.StoredAsPart` | sw/fatfs/ff.c:1959-1984 | the parts written of any name are those of the name with fillers from its first U+FFFF on to the end of that part, as far as there are any |
| `LongName.StoredAsSame` | sw/fatfs/ff.c:1959-1984 | that is the name itself if and only if the name is storable |
| `LongName.FillerLost` | sw/fatfs/ff.c:1959-1984 | "a", U+FFFF, "b" is stored as "a" and twelve U+FFFF |
| `LongName.PickLfn` | sw/fatfs/ff.c:1921-1950 | for any entry: accepted exactly when well-formed and within the buffer, and what it leaves there |
| `LongName.CmpLfn` | sw/fatfs/ff.c:1885-1913 | for any entry: accepted exactly when characters, fillers and length agree up to case |
| `LongName.PartShape` | sw/fatfs/ff.c:1959-1984 | a written part reads as its number, its last mark and its length |
| `LongName.PartPicked` | sw/fatfs/ff.c:1921-1950 | picking a written part restores its stretch of the name |
| `LongName.PartCompared` | sw/fatfs/ff.c:1885-1913 | comparing a written part compares its stretch of the name, and the length in the last one |
| `NameTable.SumSfn` | sw/fatfs/ff.c:2053-2064 | the checksum of the 11 bytes, whose law and a known value follow |
| `NameTable.ChecksumNext` | sw/fatfs/ff.c:2060-2062 | with one byte more the sum is turned right by one bit, its lowest bit becoming the highest, and the byte is added modulo 256 |
| `NameTable.SumOfFox` | sw/fatfs/ff.c:2053-2064 | the sum of THEQUI~1FOX is 0x07 |
| `NameTable.ShownIs` | sw/fatfs/ff.c:2335-2342 | the entries shown, by the values of their first byte and attributes |
| `NameTable.LiveIs` | sw/fatfs/ff.c:2335-2353 | an entry that names an object: not free, not a dot entry, no label bit |
| `NameTable.CandidateIs` | sw/fatfs/ff.c:2417-2443 | an entry whose short name is looked at: not free, no label bit |
| `NameTable.CollectOne` | sw/fatfs/ff.c:2337-2351 | one more accepted part makes a run of parts with one checksum, counted down from the marked one, with their characters in the buffer |
| `NameTable.FindOne` | sw/fatfs/ff.c:2417-2450 | what dir_find does with one entry: hit, or the state of the long-name match after it |
| `NameTable.AllPartsAgree` | sw/fatfs/ff.c:1885-1913 | all parts agree if and only if the whole names do |
| `NameTable.NamedHit` | sw/fatfs/ff.c:2417-2454 | a registered name is hit by its long form exactly when it is the wanted one up to case, and by no earlier entry of its own |
| `NumberedName.GenNumname` | sw/fatfs/ff.c:1998-2046 | the short name with a tilde and the number in hex at the end of the body; beyond five the number is a hash of the long name |
| `NumberedName.MixedBits` | sw/fatfs/ff.c:2015-2019 | the hash takes a bit: of a word split up as by `NumberedName.Split` all bits move up, and the one that falls out turns over bits 12, 5 and 0 |
| `NumberedName.NumberedNote` | sw/fatfs/ff.c:2024-2042 | NOTE.TXT becomes NOTE~1.TXT, or NOT~1A2F.TXT |
| `NumberedName.NumberedInjective` | sw/fatfs/ff.c:2020-2044 | different numbers give different names |
| `Directory.TidyKept` | sw/fatfs/ff.c:2524-2557 | entering a name leaves no used entry behind the end mark |
| `Directory.StaysRegistered` | sw/fatfs/ff.c:2524-2557 | names registered elsewhere stay registered |
| `Directory.DistinctKept` | sw/fatfs/ff.c:2511-2557 | a free short name keeps the short names of the directory distinct |
| `Directory.NotTaken` | sw/fatfs/ff.c:2511-2519 | a search by short name alone that ends without a hit shows that the name is free |
| `Directory.NewNameFound` | sw/fatfs/ff.c:2417-2454 | a name not found before is found where it was entered, by its long form up to case or by its short one |
| `Directory.NewShortFound` | sw/fatfs/ff.c:2417-2454 | so is an object entered without a long name, by its short one |
| `Directory.OthersFound` | sw/fatfs/ff.c:2417-2454 | whatever else was found is found in the same place |
| `Directory.OthersNotFound` | sw/fatfs/ff.c:2417-2454 | whatever else was not found still is not |
| `Directory.ReadsBack` | sw/fatfs/ff.c:2306-2374 | reading from before a registered name gives its object and, in the buffer, the name |
| `Directory.NewNameRead` | sw/fatfs/ff.c:2306-2374 | so does reading from before a name just entered, the entries between showing no object |
| `Directory.ReadsStored` | sw/fatfs/ff.c:2306-2374 | reading before the parts of any name gives what it is stored as, from its own last part on, or no long name if that is too long |
| `DirRegister.FreeNumber` | sw/fatfs/ff.c:2509-2522 | the first numbered name no object has; refused when all 99 are taken |
| `DirRegister.PlaceName` | sw/fatfs/ff.c:2524-2557 | the parts in descending order, then the short entry, in the first row of free entries long enough; no other entry changes, on any number of sectors and clusters; refused only when no row of free entries is long enough and the directory cannot grow; an internal error only on an invalid table entry or an empty directory |
| `DirRegister.Register` | sw/fatfs/ff.c:2465-2560 | the name entered under its own short name or a free numbered one; refused, with every entry left, only when all 99 numbered names are taken or the entries have no place; an internal error only on an invalid table entry or an empty directory; nothing beside the directory changes, and an honest free count stays honest |
| `DirRegister.FindOrRegister` | sw/fatfs/ff.c:3750-3762 | look, and register if there is none: the object stands where the same search finds the name now; refused or failed for the same reasons only |
| `DirRegister.RegisterThenRead` | sw/fatfs/ff.c:2306-2374 | registered, then read from its first entry: the same characters in the buffer, or no long name if it has none, and the entry with its bytes and flags; otherwise with dir_register's reason |
| `DirRegister.FileStays` | sw/fatfs/ff.c:2465-2560 | an open file with no cluster of the directory stays valid with its contents |
| `Utf8.Tchar2Uni` | sw/fatfs/ff.c:757-774 | a UTF-8 character, if it is one, as one or two UTF-16 units, and its length; every wrong sequence is refused |
| `Utf8.PutUtf` | sw/fatfs/ff.c:829-853 | the UTF-8 form of one unit or of a pair; nothing for a wrong pair or a lack of room |
| `Utf8.DecodeEncoded` | sw/fatfs/ff.c:757-774 | what is encoded is decoded, whatever follows |
| `Utf8.DecodeCanonical` | sw/fatfs/ff.c:757-774 | a decoded sequence is the encoded one if and only if it is no longer than that |
| `Utf8.OverlongAccepted` | sw/fatfs/ff.c:757-774 | three bytes are accepted for a character of two |
| `ShortName.ShortOf` | sw/fatfs/ff.c:2893-2976 | for any long name: body and extension in the code page, in capitals, replaced, cut and padded, with no byte from 0x61 to 0x7A; lossy exactly when something is dropped, replaced or cut; a long name asked for exactly when it is no one-case 8.3 name; the case flags exactly when it is not and the field has small letters, and then it has no capitals |
| `ShortName.ShortIs` | sw/fatfs/ff.c:2952-2960 | the byte of an ASCII character is itself, for a small letter the capital 0x20 below, for six characters an underscore |
| `ShortName.FirstByte` | sw/fatfs/ff.c:2963 | no short name begins with the mark of a deleted entry; such a byte becomes 0x05 |
| `ShortName.BasisPacked` | sw/fatfs/ff.c:2893-2976 | a name that fits 8.3 is only put in capitals and padded, and loses nothing |
| `FileName.TakeLong` | sw/fatfs/ff.c:2861-2873 | the units of the characters before the first one that ends the segment; refused on a wrong or illegal one, or on too many |
| `FileName.CreateName` | sw/fatfs/ff.c:2847-2976 | which segments are refused; otherwise the trimmed long name, its 11 bytes without small letters and its flags, and where the next segment begins |
| `FileName.LongText` | sw/fatfs/ff.c:2672-2688 | the UTF-8 text of a long name, or nothing if a surrogate is alone or the text is too long |
| `FileName.AltName` | sw/fatfs/ff.c:2692-2717 | the text of a short entry, with a dot before an extension, or nothing if a byte has no character or the text is too long |
| `FileName.GetFileInfo` | sw/fatfs/ff.c:2670-2735 | the long text, else the short one in its case, else a question mark |
| `Listing.ScanText` | sw/fatfs/ff.c:2861-2873 | the text of a long name, scanned again, is the name |
| `Listing.ShortBack` | sw/fatfs/ff.c:2692-2735 | the packed bytes of an 8.3 name are listed as the name, with its case |
| `Listing.NameStays` | sw/fatfs/ff.c:2847-2976 | a name made from a path, listed, and taken as a path again: the same long name, bytes and flags |
| `NewFile.CreateAndList` | sw/fatfs/ff.c:2465-2560 | an object created under a path and read back is listed under its name; otherwise the path names none, or with dir_register's reason |
| `Glob.PatternMatch` | sw/fatfs/ff.c:2793-2837 | the recursion against its meaning for every pattern; the early exit at the end of the name loses no match |
| `Glob.Wildcards` | sw/fatfs/ff.c:2805-2811 | `*` alone means every name, `?` alone every name of one character |
| `Glob.SkipMeaning` | sw/fatfs/ff.c:2816-2824 | the skip word: the count of `?` modulo 256, and whether more are allowed |
| `Glob.TermMeaning` | sw/fatfs/ff.c:2805-2811 | a whole wildcard term means so many characters, or that many and more |
| `Glob.FewTerms` | sw/fatfs/ff.c:2814-2815 | every accepted pattern has few enough terms |
| `Glob.MatchIsMeaning` | sw/fatfs/ff.c:2793-2837 | the code is right about a pattern if and only if its terms are short or too many |
| `Glob.ManyQuests` | sw/fatfs/ff.c:2816-2824 | 256 `?` are accepted for the empty name, which they do not mean |
| `CoreList.CalcFunc` | sw/coremark/core_list_join.c:69-114 | the 7-bit value, from the cache or cached now: the item's own from type two on, a kernel's below; the upper byte stays |
| `CoreList.DeterminedIs` | sw/coremark/core_list_join.c:69-114 | a value hangs on no kernel exactly with the cache flag, or a type beside 0 and 1 |
| `CoreList.Compare` | sw/coremark/core_list_join.c:120-142 | the difference of the keys; both items are seen afterwards, a determined value is the item's own, and a seen item does not change |
| `CoreList.Merge` | sw/coremark/core_list_join.c:538-580 | two runs become one sorted run over the same nodes |
| `CoreList.SortPass` | sw/coremark/core_list_join.c:510-583 | a pass doubles the run length and counts its merges |
| `CoreList.Sort` | sw/coremark/core_list_join.c:499-595 | the same nodes, stably sorted; with two nodes or more every item is marked by the comparison, so that a cached value, or one of type two on, is the key it is sorted by; backups stay |
| `SortSpec.TakeLeft` | sw/coremark/core_list_join.c:557-563 | taking from the first run on `<=` keeps the merge sorted and stable |
| `SortSpec.TakeRight` | sw/coremark/core_list_join.c:564-570 | taking from the second run otherwise does |
| `SortSpec.Merged` | sw/coremark/core_list_join.c:583-594 | merged pairs are runs of double width and keep their old places behind one another |
| `SortSpec.SortUnique` | sw/coremark/core_list_join.c:223-225 | a strict order leaves one way to sort |
| `BenchList.Find` | sw/coremark/core_list_join.c:434-449 | the first node with the idx, or the low data byte, looked for; null if there is none |
| `BenchList.Reverse` | sw/coremark/core_list_join.c:464-476 | the nodes in reverse order, re-linked in place |
| `BenchList.ReversedSame` | sw/coremark/core_list_join.c:464-476 | reversing keeps the nodes |
| `BenchList.MoveToHead` | sw/coremark/core_list_join.c:187-194 | the node behind the found one stands behind the head, also when the found one is the head or the last |
| `BenchList.Finds` | sw/coremark/core_list_join.c:173-204 | the order all the searches leave, as a function of the idx and data words alone; search i looks for the idx i further on, or for a value |
| `BenchList.SearchNext` | sw/coremark/core_list_join.c:198-199 | the idx looked for goes up by one in 16 bits with wrap-around, until it is negative and stays |
| `BenchList.Remove` | sw/coremark/core_list_join.c:376-389 | the item takes over the next node's data, and that node is unlinked |
| `BenchList.UndoRemove` | sw/coremark/core_list_join.c:407-419 | the node is linked back and the data swapped back |
| `BenchList.RemoveAndBack` | sw/coremark/core_list_join.c:207-222 | removal, search, walk and undo leave every link and data pointer as it was |
| `BenchList.BackByIdx` | sw/coremark/core_list_join.c:223-225 | sorting by idx brings a list back if and only if it was ascending and nodes of one idx were left in order |
| `BenchList.TurnedBack` | sw/coremark/core_list_join.c:179-225 | a list that was turned over comes back by the sort only if its idx are distinct |
| `BenchList.BenchAny` | sw/coremark/core_list_join.c:158-235 | any list of three or more nodes: a permutation in stable order of idx, data pointers kept, each low byte its backup |
| `BenchList.Bench` | sw/coremark/core_list_join.c:158-235 | head, links, data pointers and data words are as they were if and only if the idx ascend, the low bytes are backed up, and the searches and the sort by value leave nodes of one idx in order; told from idx, words and arguments alone if no kernel computes a value of such a node; what that takes for distinct idx, without a search, and after one in vain |
| `BenchList.TiesAre` | sw/coremark/core_list_join.c:173-206 | without a sort by value, or with determined values, nodes of one idx stay in order if and only if the words and the order after the searches say so |
| `BenchList.StaleByte` | sw/coremark/core_list_join.c:158-235 | a low byte that differs from its backup is lost, whatever is looked for |
| `BenchList.SameIdx` | sw/coremark/core_list_join.c:158-235 | two items of one idx change places in a run with one search in vain |
| `BenchList.ValueTies` | sw/coremark/core_list_join.c:204-206 | with a sort by value, two items of one idx: equal cached values leave the list as it was, descending ones do not |
| `BoundedBuffer.NextInv` | sw/FreeRTOSbb/boundedbuffer.c:31-95 | every statement of every task keeps the invariant |
| `BoundedBuffer.SlotsKept` | sw/FreeRTOSbb/boundedbuffer.c:39-91 | semaphore counts and slots held by tasks add up to the unread and the free slots |
| `BoundedBuffer.GiveAdds` | sw/FreeRTOSbb/boundedbuffer.c:58-91 | no give is refused |
| `BoundedBuffer.ExclusionKept` | sw/FreeRTOSbb/boundedbuffer.c:42-56 | only the holder of the mutex is in its critical section |
| `BoundedBuffer.RunSafe` | sw/FreeRTOSbb/boundedbuffer.c:31-95 | in every interleaving: at most 8 outstanding items, first in first out, no unread slot overwritten, no unwritten slot read |
| `BoundedBuffer.OneProducer` | sw/FreeRTOSbb/boundedbuffer.c:31-84 | with one producer the items that leave are 1, 2, 3, ... |
| `BoundedBuffer.NoDeadlock` | sw/FreeRTOSbb/boundedbuffer.c:31-102 | with a producer and a consumer some task can always step |
| `BoundedBuffer.EndsSoon` | sw/FreeRTOSbb/boundedbuffer.c:31-102 | without a producer or a consumer each step of any run uses up a budget |
| `BoundedBuffer.DeadlockAhead` | sw/FreeRTOSbb/boundedbuffer.c:31-102 | without one of them the length of every run is bounded, and a run that cannot go on is a deadlock |
| `Bootloader.Uart.GetHex` | sw/lib/util/gethex.c:8-22 | any n characters as hex digits, cut to 32 bits; at most eight are their number |
| `Bootloader.PatchedBytes` | sw/bootloader/bootloader.c:133-145 | a patch changes its own byte of the word only |
| `Bootloader.WordOfBytes` | sw/bootloader/bootloader.c:133-145 | byte 0 of a word is its lowest, and the four make up the word |
| `Bootloader.PatchByte` | sw/bootloader/bootloader.c:128-148 | the word of the address with that byte patched, nothing else |
| `Bootloader.DataRecord` | sw/bootloader/bootloader.c:111-151 | an S1, S2 or S3 record is its byte stores, one by one |
| `Bootloader.EndRecord` | sw/bootloader/bootloader.c:154-168 | an S7, S8 or S9 record gives the start address |
| `Srec.EndRecords` | sw/bootloader/bootloader.c:154-168 | one record of each type: the address read is all of it between count and check byte |
| `Bootloader.Upload` | sw/bootloader/bootloader.c:104-185 | after any file memory holds the byte stores, later ones winning, and the start address is the last one given |
| `Srec.LastLoaded` | sw/bootloader/bootloader.c:127-149 | a loaded address holds what was stored last, whatever was there before |
| `Srec.LastWrapped` | sw/bootloader/bootloader.c:127-149 | within a range of 2^32 addresses, a loaded address holds the same with and without wrapped addresses |
| `Srec2Vhdl.Hex2` | sw/srec2vhdl/srec2vhdl.c:77-93 | two digits are their byte; the characters not yet read stay |
| `Srec2Vhdl.HexN` | sw/srec2vhdl/srec2vhdl.c:96-123 | four, six or eight digits are their number |
| `Srec2Vhdl.ConvertLine` | sw/srec2vhdl/srec2vhdl.c:290-354 | a record's stores go to the table, relative to the first record's address |
| `Srec2Vhdl.Convert` | sw/srec2vhdl/srec2vhdl.c:288-354 | after the file place k holds what the byte stores leave at offset + k |
| `SrecLoaders.SameImage` | sw/srec2vhdl/srec2vhdl.c:288-354 | at every loaded address both hold the same byte, the bootloader at the address modulo 2^32; any file |
| `SrecLoaders.LoadBoth` | sw/bootloader/bootloader.c:104-185 | both programs run on one file: the same byte at every loaded address, records over the top of the address space included |

## Left out

- Failed disk transfers: every transfer succeeds, so the exits for disk errors are not modelled and a file's error state is
  only ever an internal error.
- OpenFile.FileObj.Seek: bytes that were only sought past are left open, as the code leaves them.
- Allocator.GetFree: the volume is mounted already; the look-up of the volume is not modelled.
- Allocator.CreateChain: the free count read from the information sector at mount time is taken as it is; its truth is the
  assumption `FreeKnown` (or `Honest`) of the theorems that need it.
- Exits that cannot be taken on a valid volume (a zero sector number, a link to 0 or 1 in a proper chain) are absent from
  reading and from walks along a chain; writing and stretching keep the one for an invalid entry met by the search.
- DirEntries.DirFind: the upper-case function is any function; the theorems on long names assume that it maps only 0 to 0.
- DirRegister.Register: the short name, its flags and the long name are those `create_name` has left; the entry's attribute,
  time and first cluster, which `f_open` fills in afterwards, are not modelled.
- FileName.CreateName: the conversion to the code page, with its capitals, is any function to bytes; that of a two-byte code
  page is not modelled.
- FileName.GetFileInfo: the name that is listed; the alternative name beside it, attributes, size and time are not modelled.
- NewFile.CreateAndList: no character of the code page turns into a space or a dot, ASCII bytes are their own characters, and
  the name is storable.
- Glob.PatternMatch: works on decoded characters; wrong encodings, which read as the end of the string, are not modelled.
- Mount.MountVolume: finding the volume on the drive, and reading the information sector, are not modelled.
- CoreList.CalcFunc: the two benchmark kernels may return any 16-bit value for an uncached item of type zero or one; the
  running checksum is not modelled.
- CoreList.Sort: run lengths and counts are unbounded integers, where the code's are 32 bits wide.
- BenchList.Bench: the returned checksum is not modelled, only the walks that compute it.
- BoundedBuffer.NoDeadlock: semaphores and the mutex are atomic; item counters are unbounded; output, LED and delays are absent.
- Bootloader.Upload: acknowledgements and the monitor behind the upload are not modelled.
- Srec2Vhdl.Convert: options and the printed table are not modelled; lines fit the line buffer and data fit the table.
- Writing directory entries on sync, opening, renaming and removing files, `f_mkfs`, exFAT, locking and fast seek.
- The matrix, state and scanner kernels, the benchmarks and demos, interrupt handlers and device drivers.
