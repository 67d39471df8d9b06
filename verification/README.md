# Verified model of the emulated storage stack

This project models, in Dafny, the storage code of the repository that everything else stands on: the FAT file
system under the emulated NAND and disc (`di/ff.c`, and its copies in `fs` and `fs-usb`), the disc reads that are
served from extracted files (`di/dip.c`), the EHCI transfer splitter they go through (`di/ehci.c`), the plaintext
reads of encrypted partitions (`es/Dump.c`) and the registry of shared contents (`es/ES.c`).

The code that changes things step by step is modelled by classes and loops of the same shape, each proved against a
specification on values. The layers, from the disk up:

* `Bytes`, `Steps`, `FatCodec`, `Volume`: little-endian loads and stores, the packing of FAT entries, the mounted
  volume, and what the file system sees through its one-sector window.
* `Chains`, `FatFileSystem`, `ChainRuns`: the FAT as a set of disjoint cluster chains, the `FATFS` object with its
  window, and whole runs of the allocator.
* `FileData`, `Files`, `FileRuns`: a file as a byte array, the `FIL` object with its cursor, and runs of operations.
* `CodePages`, `LongNames`, `ShortNames`, `Entries`, `NameMap`, `TableEdits`, `EntryEdits`, `DirData`, `Dirs`,
  `DirRuns`, `Listing`, `ListRuns`: a directory as slots, as the items the slots stand for, and as a map from names to
  entries; the `DIR` object, runs of creations, listings, and the two together.
* `Sessions`, `Storage`: files and their directory at once, and the directory as a store of files: whatever is saved
  under any number of names is loaded again.
* `FstTree`, `Disc`: the walk over the file system table, the cache of open files and the new layout of a rebuilt table.
* `Ehci`, `DecryptRead`: the transfer descriptors; partition reads.
* `ContentMap`, `SharedContent`, `ContentRegistry`: the map of shared contents as bytes, installing titles as an
  operation on the store of all files concerned, and the object with the map on disk and its copy in memory.

`dafny verify dfyconfig.toml` checks the whole project.

## Model

| member | source | states |
|---|---|---|
| `FatCodec.DecodeAfterEncode` | di/ff.c:339-390 | an entry written by put_cluster reads back as the value cut to the entry's width, for FAT12, FAT16 and FAT32, at even and odd clusters and across sectors |
| `FatCodec.DecodeOtherAfterEncode` | di/ff.c:339-390 | every other entry, the one that shares a byte included, reads as before |
| `FatFileSystem.FatFs.Mount` | di/ff.c:1494-1506 | a mounted volume starts with a coherent empty window that shows the disk as it is, and takes the counters of a good FSInfo sector |
| `FatFileSystem.FatFs.MoveWindow` | di/ff.c:217-249 | what the file system sees never changes; a dirty window is written back, to all copies of the FAT if it lies in the FAT; afterwards a coherent window shows the sector asked for |
| `FatFileSystem.FatFs.Sync` | di/ff.c:259-286 | everything seen is on the disk; on FAT32 with changed counters the FSInfo sector holds them, and no other sector changes |
| `FatFileSystem.FatFs.ReadDirect` | di/ff.c:1736-1743 | a transfer past the window delivers what is on the disk, which is what the file system sees if and only if no dirty window with other contents is on one of the sectors |
| `FatFileSystem.FatFs.WriteDirect` | di/ff.c:1832-1840 | which sectors change, and that a clean window stays coherent exactly if it is on none of them or shows the same bytes |
| `FatFileSystem.FatFs.StoreThenRead` | di/ff.c:1732-1743 | a byte changed through the window is missing from a direct read of its sector |
| `FatFileSystem.FatFs.ShowThenWrite` | di/ff.c:1829-1840 | a sector written past a window that shows it is shown out of date |
| `FatFileSystem.FatFs.GetCluster` | di/ff.c:297-329 | the link of any cluster number, whatever the window was on, and 1 for numbers out of range |
| `FatFileSystem.FatFs.PutCluster` | di/ff.c:339-390 | exactly that link changes, in all copies of the FAT, and nothing outside the FAT |
| `FatFileSystem.FatFs.RemoveChain` | di/ff.c:401-431 | on any table, cross-linked and cyclic ones included, it ends, frees exactly the clusters reached before a free or reserved link, and keeps a known free count exact |
| `FatFileSystem.FatFs.CreateChain` | di/ff.c:442-490 | follows an existing link, or links the first free cluster behind the search start; 0 exactly if no cluster is free; the free count stays exact |
| `Chains.FreeFromHead` | di/ff.c:401-431 | freeing from the head of a chain clears exactly that chain |
| `Chains.FreeFromReachesOnly` | di/ff.c:401-431 | only clusters that the links reach from the start are freed |
| `Chains.DropChain` | di/ff.c:401-431 | a table without one of its chains represents the others |
| `Chains.GrowChain` | di/ff.c:442-490 | a free cluster put behind a chain, or on its own, keeps the chains disjoint and all others as they are |
| `ChainRuns.Create` | di/ff.c:442-490 | create_chain on any cluster number as an operation on the set of chains: unless the disk is full exactly one chain starts or grows by a free cluster |
| `ChainRuns.Remove` | di/ff.c:401-431 | remove_chain on a head: the set of chains loses exactly that chain |
| `ChainRuns.Run` | di/ff.c:401-490 | any sequence of the two: every call does its step and nothing else, the FAT always represents disjoint chains, a known free count is always the number of free clusters |
| `FileData.OtherChainsUntouched` | di/ff.c:1779-1874 | writes that stay inside one file change no sector of any other chain |
| `Files.File.Open` | di/ff.c:1657-1683 | an opened entry gives a file with the cursor at its top, a clean cursor invariant and the entry's size and start |
| `Files.File.Read` | di/ff.c:1692-1769 | from any cursor and with any window: position, count and error codes; with the window in step the bytes of the file |
| `Files.File.Write` | di/ff.c:1779-1874 | overwrites and extends the byte array at the cursor; short only on a full disk or at 4 GB; only sectors of the file and the FAT change |
| `Files.File.Seek` | fs-usb/ff.c:1958-2048 | the cursor at the offset clipped to the size, whichever of the two walks is taken, with the invariant of the other operations |
| `Files.File.Sync` | di/ff.c:1883-1920 | the entry gets the start cluster, the size and the archive bit, the rest of its sector and all other sectors stay, all data are on the disk; a stale window elsewhere does not matter |
| `Files.CursorDetermined` | fs-usb/ff.c:1976-2046 | the position alone determines current cluster, sector and sector count, however the cursor got there |
| `FileRuns.Run` | di/ff.c:1692-1874 | any list of reads, writes and seeks in any order: the cursor invariant holds after each, positions and sizes follow one another as the operations say, other chains are left alone; without writes, and with the window in step at the start, every read delivers the file's bytes at its place |
| `FileRuns.WriteAll` | di/ff.c:1779-1874 | any list of writes: the file is the old one with the taken bytes written over it, and a write is short only on a full disk or at 4 GB |
| `FileRuns.WriteSyncRead` | di/ff.c:1692-1920 | the byte-array law: write, sync, open the entry again and read gives the old bytes with the taken ones written over them |
| `FileRuns.Append` | di/ff.c:1779-1874 | a seek to the end and a write append the taken bytes |
| `CodePages.OemAgain` | di/ff.c:3047-3070 | ff_convert to Unicode and back is the identity on all 256 codes |
| `LongNames.FitLfn` | di/ff.c:703-728 | the slot holds exactly the segment's characters, its terminator and filler, its order and the sum |
| `LongNames.PickLfn` | di/ff.c:678-698 | the buffer gets the slot's characters at their place; it fails exactly if they do not fit |
| `LongNames.AllSegmentsMatch` | di/ff.c:647-673 | test_lfn accepts all slots of a stored name if and only if the names agree up to case and the stored one has at most 254 characters |
| `LongNames.PickedIsName` | di/ff.c:678-728 | the slots fit_lfn wrote are put together again to the name by pick_lfn |
| `ShortNames.CreateName` | di/ff.c:1070-1168 | exactly the acceptable paths get a name: the segment without trailing spaces and dots, in Unicode, and its short name |
| `ShortNames.SameShort` | di/ff.c:1106-1165 | names that differ in case only get the same short name and the same loss |
| `ShortNames.GenNumName` | di/ff.c:739-774 | the numbered name: the body cut to make room for the tail, spaces behind it, the extension kept |
| `ShortNames.GetFileName` | di/ff.c:1242-1262 | the loops of get_fileinfo build the display name of the entry |
| `ShortNames.ShortNameRoundTrip` | di/ff.c:1106-1262 | where create_name finds no long name necessary, the entry written for the short name is shown as the name itself, case included |
| `ShortNames.SegmentRoundTrip` | di/ff.c:1070-1262 | the same from the path to the name shown |
| `Entries.FindIsLookup` | di/ff.c:805-856 | the slot-by-slot search with its order and sum variables finds what a search of the named items finds |
| `NameMap.RegisterKeepsMap` | di/ff.c:922-1013 | a registration keeps every name, long or short, denoting at most one entry |
| `NameMap.RegisterFound` | di/ff.c:922-1013 | the new name is found at the new entry if and only if it has fewer than 255 characters |
| `NameMap.RegisterKeepsOthers` | di/ff.c:922-1013 | every name that was found is found at the same entry |
| `TableEdits.WriteItem` | di/ff.c:947-1011 | slots written over a free run put the item in the place of removed ones, or at the end, and keep all others |
| `Dirs.Dir.DirSeek` | di/ff.c:519-553 | slot numbers inside the table, and only they, are reached, with sector, offset and cluster right |
| `Dirs.Dir.DirNext` | di/ff.c:563-620 | the next slot; at the end of a chain a new zeroed cluster if asked for; which of the three errors and when; otherwise the table is as it was |
| `Dirs.CursorDetermined` | di/ff.c:519-620 | stepping and seeking to the same slot number end in the same place |
| `Dirs.Dir.DirFind` | di/ff.c:805-856 | the loop comes to the result of the search of the whole table, and changes nothing |
| `Dirs.Dir.NumberName` | di/ff.c:932-945 | the first numbered name that no object has; refused exactly if 99 are taken |
| `Dirs.Dir.DirRegister` | di/ff.c:922-1013 | the item list gets the new item under the name's short name, or the first free numbered one; it fails only without room in a table that cannot grow, or without a number, and then the items stay |
| `DirRuns.NewDirectory` | di/ff.c:2362-2384 | the table f_mkdir writes is in order and is a name map |
| `DirRuns.Create` | di/ff.c:1594-1640 | f_open with FA_CREATE_NEW: bad name, existing, created, or no place for it, each exactly then; the new entry has no attribute, no cluster, no size and the creation time; the name is found again at it, all others where they were |
| `DirRuns.CreateAndFind` | di/ff.c:1594-1640 | the creation does its step; the lookup then finds exactly the names that are known, a created one at the entry it was created at if and only if it has fewer than 255 characters |
| `DirRuns.CreateAll` | di/ff.c:922-1013 | any list of creations: every result is the one its step asks for, the directory stays a name map, what was found stays where it was, what was created is found |
| `DirRuns.LongestIsLost` | di/ff.c:662-664 | the path of 255 letters a is accepted and registered, and no lookup finds it |
| `Listing.DirRead` | di/ff.c:866-912 | repeated calls stop at exactly the objects of the table, in order, each with its long name in the buffer |
| `Listing.GetFileInfo` | di/ff.c:1232-1304 | the short name as shown, the long name in the code page where it fits and converts, the attribute, the size, the date and the time |
| `Listing.ReadDir` | di/ff.c:2099-2131 | the next object, and FR_NO_FILE instead of FR_OK where its entry is the table's last slot |
| `Listing.List` | fs/FS.c:395-453 | the loop over f_readdir collects the names of the objects, without one that ends the table |
| `Listing.AllTold` | di/ff.c:2119-2126 | the listing is complete if and only if the last slot of the table is not an object's entry |
| `Listing.SixteenLetters` | di/ff.c:2119-2126 | a table of sixteen one-slot files lists fifteen |
| `ListRuns.ItemShown` | di/ff.c:1070-1304 | an object is shown under exactly the bytes it was created with, whether its long or its short name carries them |
| `ListRuns.TraceKeeps` | di/ff.c:922-1013 | every object a run of creations has made is in the directory at its end |
| `ListRuns.CreateAndList` | fs/FS.c:395-453 | any list of creations, each by its step, and then a listing: the names are those of the objects the creations left; every name that was created, below 255 characters, is listed byte by byte, if no object ends the table |
| `EntryEdits.EditKeepsAll` | di/ff.c:1883-1920 | an entry changed behind its name, as f_open and f_sync do: the table stays in order, names stay unambiguous, every lookup gives what it gave |
| `Sessions.WriteInDir` | di/ff.c:1779-1920 | a file written and synced while its directory is open: the directory stays in order with every name where it was, the entry tells the file's start and size, and behind the FATs only the file and the directory change |
| `Storage.Save` | di/ff.c:1594-1920 | create, write and sync a new file: the creation's step, short writes only on a full disk or at 4 GB, the name leads to the entry and the entry to exactly the bytes taken, and no other file of the directory changes |
| `Storage.StillSaved` | di/ff.c:1594-1920 | a saved file is still saved after any operation that keeps names, entries, chains and sectors as saving another does |
| `Storage.Load` | di/ff.c:1594-1769 | look up, open and read: the bytes that are saved under the name, and nothing changes |
| `Storage.SaveAll` | di/ff.c:1594-1920 | any list of savings: every one does its step, and all files saved are there at the end, as are those from before |
| `Storage.SaveAndLoad` | di/ff.c:1594-1920 | any list of savings, and then loading them all: every file that could be created under a name below 255 characters comes back byte by byte |
| `FstTree.StackStep` | di/dip.c:1042-1064 | popping at the ends of directories and pushing the non-empty ones keeps the stack the list of enclosing directories |
| `FstTree.AncestorsAre` | di/dip.c:1042-1064 | that list holds exactly the directories whose range of entries contains the entry |
| `Disc.Drive.FindFile` | di/dip.c:1042-1090 | the first file whose extent holds the word offset, with the path of its directories, or none |
| `Disc.Drive.LowRead` | di/dip.c:1012-1119 | the first slot that is hit gives its bytes, otherwise the walk does; with a cache that suits the table the bytes are those of the one file at the offset, and it fails exactly if there is none to open; above 0xFFFFFFE0 bytes a hit delivers nothing |
| `Disc.Drive.ReadAll` | di/dip.c:1012-1119 | any list of reads through evictions and failed opens gives what reads without a cache give |
| `Disc.LayoutApart` | di/dip.c:716-726 | in the new layout extents are apart, in the order of the table, and start 32-byte aligned behind the first |
| `Disc.Drive.FstRebuild` | di/dip.c:642-736 | every file gets its present size and its place in that layout, tree and names stay; it succeeds exactly if all files open |
| `Disc.Drive.RebuildAndFind` | di/dip.c:642-736 | the rebuild succeeds exactly if all files open; then every word offset in a file's extent finds that file, and no other offset finds one |
| `Disc.SuitsWhen` | di/dip.c:1012-1029 | a cache slot serves a file's entry rightly for all offsets if and only if it is empty or has its start and no more words than it |
| `Disc.Drive.RebuildLive` | di/dip.c:1119-1140 | a rebuild under a filled cache: it succeeds exactly if all files open, and the cache is right afterwards if and only if the sizes of the files and the old table put every open file where its slot has it, with as many words; the other slots, and only they, are hit for offsets they answer wrongly |
| `Disc.Drive.StaleRead` | di/dip.c:1119-1140 | two files, a rebuild and a read: the offset that is now the start of the second delivers the end of the first |
| `Ehci.Controller.QtdFill` | di/ehci.c:217-253 | one descriptor takes as much as five pages hold, in whole packets unless it is the rest, and every byte lies in the page its pointer names |
| `Ehci.Controller.Transaction` | di/ehci.c:316-434 | setup, data and status descriptors of any request: linked in a row, covering the buffer exactly, only the last packet short, only the last descriptor interrupting, within the pool |
| `Ehci.Controller.EndTransfer` | di/ehci.c:265-311 | the bytes moved are added up, an error is noticed if and only if some descriptor was halted by one, and the pool is empty again |
| `Ehci.Controller.DoAll` | di/ehci.c:435-564 | any list of requests never exhausts the pool, and each moves the length of its buffer |
| `DecryptRead.Read` | es/Dump.c:110-161 | the buffer gets exactly the plaintext bytes from the file offset on, across clusters |
| `DecryptRead.ClusterOfRight` | es/Dump.c:113 | the 32-bit division gives the cluster number if and only if the offset is below 4 TB |
| `ContentMap.HexInjective` | es/ES.c:2013-2014 | different entry numbers have different file names |
| `ContentMap.EntryTaken` | es/ES.c:2032-2040 | after the write of the entry, which takes n of its bytes, the hash is registered if and only if it took all |
| `ContentMap.OrderKept` | es/ES.c:2010-2040 | the map is in order afterwards if and only if nothing was taken, or all and the map is below 2 GB |
| `ContentMap.TakesAll` | es/ES.c:2039 | all of the entry is taken if and only if the map stays below 4 GB and there is a free cluster or room in its last one |
| `ContentMap.PartOfEntry` | es/ES.c:2039 | a full disk with 512-byte clusters and eighteen entries: eight bytes are written, the hash is not registered and the map is out of order |
| `SharedContent.SuccessWhen` | es/ES.c:1991-2127 | the installation succeeds if and only if no content ends it, the last one that sets the result sets it to success, and the TMD can be moved |
| `SharedContent.SuccessNow` | es/ES.c:1991-2127 | for different contents the same, told from the files and the map before the call |
| `SharedContent.AllThere` | es/ES.c:1993-2056 | a title whose contents are all registered already gets ES_FATAL, and its TMD is not moved |
| `SharedContent.OneThere` | es/ES.c:1993-2056 | the least such title |
| `SharedContent.NoMap` | es/ES.c:2057-2059 | without content.map a title of shared contents gets ES_FATAL |
| `SharedContent.OptionalLast` | es/ES.c:2016-2031 | an optional content in last place whose file is missing makes the installation fail |
| `SharedContent.ContentOrder` | es/ES.c:2000-2090 | a content keeps the map in order with a file behind each entry if and only if its entry, where it gets one, is written whole or not at all |
| `SharedContent.InstalledOrder` | es/ES.c:1991-2127 | so does an installation whose entries are |
| `SharedContent.HandledIsIn` | es/ES.c:2000-2059 | every shared content the loop has come past is registered at the end, if it was before, or its file could be moved and its entry was taken |
| `SharedContent.RunOrder` | es/ES.c:1991-2127 | any list of installations, whatever they return, keeps the map in order and every entry its file, under the same condition |
| `SharedContent.RunRegisters` | es/ES.c:1991-2127 | a hash registered at any time stays registered, whatever the disk takes later |
| `ContentRegistry.Registry.GetSharedContentID` | es/ES.c:822-850 | the entry with the hash, whose file is the one installed for it, or an error; the copy in memory is reloaded when it has to be |
| `ContentRegistry.Registry.CheckSharedContent` | es/ES.c:787-814 | 1 exactly for registered hashes, ES_FATAL without the map |
| `ContentRegistry.Registry.Register` | es/ES.c:2006-2052 | the file moves to the next name, and the map gets as much of the next entry as the disk takes |
| `ContentRegistry.Registry.AddTitle` | es/ES.c:1991-2127 | the whole of ES_AddTitleFinish as an operation on the store, with its result |
| `ContentRegistry.Registry.InstallAll` | es/ES.c:1991-2127 | any list of installations does and returns what the operations one after the other do |

## Findings

Properties the code meets only under a condition, or does not meet; the lemmas named give the condition or the input.

* di/ff.c:662: test_lfn refuses to compare place 254 of the buffer's 255, so a name of 255 characters is created and
  never found again, and creating it again makes a second entry. `NameMap.RegisterFound`, `DirRuns.LongestIsLost`.
* di/ff.c:2122-2125: f_readdir answers FR_NO_FILE when there is no slot behind the one it has just read.
  `mini-tree-mod/ff.c` answers FR_OK. The loops of `fs/FS.c` then miss an object whose entry is the last slot of its
  table. `Listing.AllTold` has the exact condition, `Listing.SixteenLetters` an input.
* di/dip.c:1119-1140: a rebuild of the table leaves the cache of open files as it is, so a slot can answer for an offset
  that now belongs to another file. `Disc.Drive.RebuildLive` has the exact condition, on the state before the rebuild,
  `Disc.Drive.StaleRead` a rebuild and a read that goes wrong.
* di/dip.c:1025: on a cache hit the length is rounded up in 32 bits, so a length above 0xFFFFFFE0 delivers nothing.
  `Disc.Drive.LowRead` promises the bytes up to that length, and no bytes above it.
* es/Dump.c:113: the division is done on 32 bits and is right only below 4 TB. `DecryptRead.ClusterOfRight`.
* di/ff.c:1736-1743 and 1832-1840: whole sectors go past the window in both directions; a window on one of them is
  missed, or left out of date. `FatFileSystem.FatFs.ReadDirect` and `WriteDirect` say exactly when, `StoreThenRead` and
  `ShowThenWrite` give the two situations; the promises of `Files.File.Read` and `Write` about bytes are made where it
  is not so, those about the cursor always.
* es/ES.c:1993 and 2052-2056: the result starts as an error, and a shared content that is registered already does not
  set it. A title of nothing but such contents is refused and its TMD is not moved. A rename that fails for an optional
  content in last place, and a missing content.map, have the same effect. `SharedContent.SuccessWhen` and `SuccessNow`
  have the exact condition, `AllThere`, `OneThere`, `OptionalLast` and `NoMap` the inputs.
* es/ES.c:2039: the result of writing the map's entry is not looked at. On a full disk none or a part of it is written;
  the content has been moved and is not registered, and a part leaves the map out of order. `ContentMap.TakesAll`,
  `EntryTaken` and `OrderKept` have the exact conditions, `PartOfEntry` an input.
* es/ES.c:2010: the size of the map is signed, so from 2 GB on the names of new entries are wrong.
  `ContentMap.OrderKept`.

## Left out

- Disk faults, and the retries they cause: every disk transfer succeeds. A failed read in es/Dump.c still advances the
  output.
- Mounting: the boot sector and the partition table are read by code that is not modelled; `Mount` takes the geometry.
- Times: f_open and f_sync write times they are given.
- Removing and renaming objects (dir_remove, f_unlink, f_rename), and follow_path over several segments.
- DirRuns.NewDirectory: the table f_mkdir writes, not how it comes by a cluster and fills it.
- Several open files at once; the files of the model are opened one after the other.
- Files.File.Read: promises bytes only with the window in step, because direct transfers do not ask the window.
- Files.File.Write: promises bytes only with the window in step and not on a later sector of the file, for the same
  reason.
- FileRuns.Run: promises positions, sizes and the cursor invariant for every list of operations, and the bytes for reads
  and seeks alone, because after a write the bytes depend on where the window was left.
- FileRuns.WriteSyncRead: starts at the top of the file and with at least one write, as the byte law is about a whole
  file.
- DirRuns.Create: paths of one segment, in a directory that is open.
- Dirs.Dir.Open: cluster sizes that are powers of two, which the FAT format demands and dir_seek needs.
- FatFileSystem.FatFs.Mount: a volume whose FAT copies are equal, which auto_mount does not look at.
- LongNames.PickLfn: orders 1 to 20; with others the source leaves its buffer.
- Entries.FindIsLookup: tables as dir_register writes them; long-name slots without their entry, and those of order 0,
  where test_lfn would look in front of its buffer, are outside them.
- Storage.Save: files of one directory, written from the top by one open file at a time.
- The FAT32 reserved bits: put_cluster clears the top four bits of an entry, which the format asks to keep; an entry is
  its 28-bit value here.
- DBCS code pages: the code page is 437, as the repository is built.
- Disc.Drive.FindFile: tables in order and nested at most fifteen deep; the walk's guard `LEntry[level-1]` below level
  0, the path buffer of 256 bytes and the break at level 16 are outside them.
- Disc.Drive.FstRebuild: a lowest start that is not 0, sizes and places that fit their 32-bit fields.
- Disc.Drive.StaleRead: starts with the file in the cache and rebuilds on its own, not from the read of opening.bnr.
- Disc.Drive.LowRead: the file branch only; the reads of the system area, the debugger hook, and the rebuild that the
  read of opening.bnr starts are left out.
- Ehci.Controller.Transaction: the error counter and the data toggle of the token, and the alternate next pointers.
- Ehci.Controller.EndTransfer: reports an error; the source stores it through the list pointer, which is null behind the
  loop, so it does not reach the request.
- Ehci.Controller.DoAll: successful transfers only; data toggles, the asynchronous schedule, handshakes and time-outs of
  the controller are left out.
- DecryptRead.Read: offsets below 4 TB, beyond which the division is wrong; the cipher is a function of the cluster, and
  the disc delivers every cluster.
- ContentRegistry.Registry.AddTitle: the room the disk has for each content is a parameter; the ticket, the tickets' and
  titles' counters, the directories CreateTitlePath makes, and memory for the copy of the map are left out.
