# Verified models of Mach kernel services

This project models parts of the Mach kernel in Dafny and proves what they are for: the default pager, the hard-disk
request path, the boot file system, device references and device opening, network packet filters, terminal buffers, and
the kernel debugger's breakpoints and line editor.

Code that updates structures in place is modelled by classes and methods with loops, each proved against functions of
the old state. Code that several threads run under locks is modelled as a machine whose steps are the locked sections,
and the theorems are about every interleaving. Most services end in a method or lemma about whole runs: any sequence of
requests, interrupts, keys or packets, with nothing assumed of them but what callers must respect.

| part | files |
|---|---|
| default pager | `PagingPartition`, `PageMaps`, `PagerHistory`, `PagerState`, `PagerBytes`, `DefaultPager` |
| disk queue and driver | `DiskOrder`, `DiskSort`, `RequestChain`, `DiskRequests`, `DiskLaws`, `DriverState`, `DriverRuns`, `HardDisk` |
| boot file system | `BootFs`, `FileLayout`, `BlockMacros`, `FileCache`, `FileSession`, `FileReplies`, `FileReuse`, `OpenFile`, `PathSpec`, `PathLinks`, `PathLookup`, `DirectorySearch`, `DirectoryPaths` |
| shared arithmetic | `Arithmetic` |
| device references, open and close | `DeviceRefs`, `DeviceRefsProofs`, `DeviceLookups`, `DeviceLeaks`, `DeviceOpen`, `DeviceOpens` |
| packet filters | `FilterCode`, `FilterProgress`, `FilterMachine`, `FilterSafety`, `FilterBits`, `FilterAlu`, `FilterMeaning` |
| receive-filter list | `FilterList`, `FilterDelivery`, `ReceiveList`, `QueueLinks` |
| line editor | `LineSpec`, `LineKeys`, `LineProofs`, `LineEditor` |
| breakpoints and stepping | `BreakSpec`, `DebugSpec`, `DebugProofs`, `Debugger`, `DebugFacts` |
| terminal buffers | `CharQueue`, `CircularBuffer` |

`dafny verify dfyconfig.toml` checks the whole project.

## What is proved

- **Default pager.** `DefaultPager.Serve` takes any legal sequence of create, write, initialize, request and terminate
  calls on any number of objects that share a partition, with transfers that may be short or fail. The set bits of the
  bitmap are exactly the blocks named in the maps, each named once; every block is below the partition's size; free plus
  allocated is the size; neither allocator panic is reached; and the log of the run is faithful, so every page supplied
  is the last one written, unless the last write to that very page had failed. On requests and answers alone: a byte
  written at an address is the byte read there until something else is written there, and a page that nothing was
  written to is never supplied.
- **Disk.** `DiskSort.EveryRunSweeps` keeps the queue in two opposite runs over every run of arrivals and completions.
  `HardDisk.Run` accounts for every request exactly once, moves sector i of each request between its place in the buffer
  and the block that the bad-block tables assign, whatever mixture of whole-range and one-sector transfers, errors and
  recalibrations happened, never leaves a request waiting for an idle controller, and has the request in progress done
  within one interrupt for each sector and six more. Each interrupt is heard by one request: those without error are
  its sectors or the ends of its recalibrations, those with one its recalibrations and its failure.
- **Boot file system.** `OpenFile.Session` and `PathLookup.OpenFile`: the cached block map, the block buffer, each with
  the addresses at which memory is given out, and the path buffer with links spliced into it answer as an uncached walk
  of the inode tree and a resolver on strings do, and where they cannot is said exactly. `FileLayout` says where each
  block of a file is named, `PathLinks` where a link leads, and `FileReplies.EveryFailureRefused` that no call fails
  unless the device or the memory did. `DirectorySearch.FindsFirst` finds the first record with the name, and
  `DirectoryPaths.OpenEnds` has every path of well-formed directories end.
- **Devices.** `DeviceRefsProofs.EveryInterleaving` and `DeviceOpen.EveryInterleaving`: exact reference counts, one
  structure for each device, alternating driver opens and closes, exact open counts, no lost wakeup.
  `DeviceLookups.EveryLookupGets`, `DeviceLeaks.NothingLost` and `DeviceOpens.EveryOpenEnds`: every lookup gets its one
  reference, no structure is lost, and an open fails only for a reason that can be named.
- **Packet filters.** `FilterMachine.ParseNetFilter` accepts exactly the programs whose every instruction fits, and
  `FilterMachine.Interpret` runs an accepted program as a list-stack machine does, without leaving the filter.
  `FilterMeaning` says by number what each operator and operand does, down to whole filters that compare a packet's words.
  `ReceiveList.Run` keeps the list sorted with one entry per port while clients and packets interleave, up to the first
  filter that is too long for its structure.
- **Line editor, breakpoints, terminal buffers.** `LineProofs.EverySessionShows`, `Debugger.Session` and
  `CircularBuffer.Session` are refinements over whole runs: of a line with a cursor, of a debugger that never touches
  memory, and of a bounded queue.

## Where the code does less than its comments or callers suggest

- The pager never sets an object's error count when it creates the object. `PagerHistory.LatchExact`: clients can trust
  every page supplied, in every faithful history, if and only if the count left by the zone is not negative;
  `PagerHistory.WrongSupply` is a faithful history in which a page that was never written successfully is supplied, and
  `PagerHistory.WrongOnlyInDoubt` says of every history that it takes a failed last write to that page.
- The comment on `disksort` says that a request beyond the head joins the sweep in progress. `DiskSort.JoinsSweepIff`
  and `DiskSort.JoinsSweepDownIff`: it does if and only if the first request for another cylinder is not on the other
  side of the head; `DiskSort.WaitsForTheWayBack` has the chain 10, 5 with a request for 20.
- The clamp at the end of a partition leaves one sector too many. `DiskRequests.ClampIsOneTooMany`: the transfer stays
  inside the slice if and only if it did so before the clamp; `DiskRequests.ClampRunsOver` is a request that does not.
- The third-level product of the boot file system wraps to zero for 8192-byte blocks (`BootFs.ReachIsSpan`), and no
  32-bit offset ever consults it (`BootFs.OffsetsReached`).
- The block number 0xffffffff also stands for an empty cache. `FileCache.AstrayMeetsNone`: from empty caches a lookup
  reads where no buffer is if and only if its walk meets that number; `FileCache.MarkerInodeAstray` is such an inode.
- A buffer is released before the next block is read, and when that read fails its address and number stay.
  `FileCache.FailedLoad` and `FileCache.FailedFill`: nothing is lost if and only if nothing had been cached there, and
  otherwise the next access to the cached block reads where no buffer is.
- The address that stays is released again at the next miss, whatever has been put there since. `FileReuse.ReusedAddress`
  is a run of five calls, for every file with enough indirect blocks, whose last answer is a byte of an indirect block
  instead of the file's; `FileReuse.WrongByte` has a disk on which the two differ.
- Memory that is missing for a hole goes unnoticed: `FileCache.StarvedFill`.
- The length of a symbolic link is taken as a signed number, and so is its sum with the rest of the path.
  `PathSpec.InsideIffSmall`: a splice that passes the length test stays in the path buffer if and only if the true sum is
  below 2^31. `PathSpec.HugeLinkEscapes` has the size 2^31, and `PathSpec.WrappedSumEscapes` the size 2^31 - 1, whose
  sum wraps. A path longer than the buffer is copied beyond it (`PathSpec.OutsideIffLong`).
- A directory record of length zero is looked at for ever. `DirectorySearch.EndlessIff` says when a search stays at one;
  `DirectorySearch.HoleNeverEnds` is a directory with a hole in it.
- Rounding a size up to whole blocks by the mask gives zero instead of 2^32: `BlockMacros.RoundsUpIff`.
- The filter checker does not look at the length of a filter. `ReceiveList.CopyFilter`: the copy stays in its structure
  if and only if the filter has at most 40 words; `ReceiveList.LongFilterOverruns` is an accepted filter of 64 words,
  the most that a message carries.
- The filter checker does not count the value that a short-circuit operator drops. `FilterSafety.ShortCircuitsEscape`
  gives an accepted filter whose stack index leaves the stack; `FilterSafety.FaultIffOverruns` says of every program
  and packet exactly when that happens, and `FilterSafety.PlainFiltersAreSafe` that programs without such operators
  never do.
- A breakpoint's count is declared as a number of times to skip it, but a freely running program stops at every
  breakpoint it reaches, whatever the count: `DebugFacts.FreeProgramsStopAtEveryBreakpoint`, and at a concrete program
  `DebugFacts.SkippedOnceStopsAtOnce`. Exactly where a continuing program stops is `DebugFacts.ContinueStopsExactly`.
- A store of the running program under a planted breakpoint is undone when the breakpoint comes out:
  `DebugProofs.StoreSurvivesIff`.
- The debugger's line editor stores the end of the line and a terminator without a look at the buffer's size, which its
  caller gives as the size of the line. `LineEditor.ReadLine`: the two stores stay inside if and only if the line leaves
  room for both; `LineEditor.FullLineOverruns` is a line that does not.
- The terminal buffer's `getc` gives -1 for an empty buffer and for the character 0xff: `CharQueue.EmptyIffNot255`.

## Model

| member | source | states |
|---|---|---|
| `PagingPartition.Partition.constructor` | kernel/boot_ufs/default_pager.c:158-180 | a new partition has every block free, and the slack bits of the last byte count for nothing |
| `PagingPartition.Partition.AllocPage` | kernel/boot_ufs/default_pager.c:185-215 | the first free block is allocated, or none when all are; the free count stays exact and both panics are unreachable |
| `PagingPartition.Partition.DeallocPage` | kernel/boot_ufs/default_pager.c:220-234 | one block is freed and no other; the count stays exact if and only if the block was allocated |
| `PageMaps.PagingObject.constructor` | kernel/boot_ufs/default_pager.c:277-310 | a new object of either shape of map assigns no block; its error count is what the zone left |
| `PageMaps.Grow` | kernel/boot_ufs/default_pager.c:345-348 | the doubling loop ends, at a power of two that covers the request |
| `PageMaps.PagingObject.Extend` | kernel/boot_ufs/default_pager.c:330-458 | all three growing cases keep every assigned block, add only unassigned pages, and cover the request |
| `PageMaps.PagingObject.ReadOffset` | kernel/boot_ufs/default_pager.c:465-492 | one- and two-level maps give the block of the page, or none outside the object |
| `PageMaps.PagingObject.WriteOffset` | kernel/boot_ufs/default_pager.c:590-664 | a page keeps the block it has; a page without one gets a block that was free, and no other page changes; there is no block, and nothing changed, if and only if the page had none and the partition is full or memory for a second-level map is missing, where the source panics |
| `PageMaps.TableCover` | kernel/boot_ufs/default_pager.c:267-272 | the second-level maps of a two-level map cover its pages exactly |
| `PageMaps.PagingObject.Dealloc` | kernel/boot_ufs/default_pager.c:669-713 | exactly the blocks of the object become free, whichever shape the map has, without a panic |
| `DefaultPager.ReadPage` | kernel/boot_ufs/default_pager.c:730-809 | in as many pieces as the device gives, the page read is the whole block; it fails if and only if a transfer has |
| `DefaultPager.WriteBlock` | kernel/boot_ufs/default_pager.c:844-860 | only the bytes of one block change; on success they are the data; it fails if and only if a transfer has |
| `DefaultPager.Server.DefaultWrite` | kernel/boot_ufs/default_pager.c:811-862 | afterwards the blocks are still divided among the objects and the store reflects the log with this write in it; it fails only with a failed transfer, or for a page without a block when the partition is full or memory is missing |
| `DefaultPager.Server.DataRequest` | kernel/boot_ufs/default_pager.c:992-1056 | the answer is refused, absent, failed or supplied as the history of the object demands, and failed if and only if a transfer has |
| `DefaultPager.Server.DataInitialize` | kernel/boot_ufs/default_pager.c:1063-1106 | a page that has a block is left alone, any other is written; every page that the bytes reach into is dealt with, a partial last one whole; byte i of an aligned request goes to byte (offset + i) mod 4096 of the page of its address |
| `DefaultPager.Server.DataWrite` | kernel/boot_ufs/default_pager.c:1113-1166 | every page that the bytes reach into, a partial last one whole, is written; byte i of an aligned request goes to byte (offset + i) mod 4096 of the page of its address, and each failure is counted |
| `DefaultPager.Server.Create` | kernel/boot_ufs/default_pager.c:1192-1248 | a new object joins with no page; all others stay as they were |
| `DefaultPager.Server.Terminate` | kernel/boot_ufs/default_pager.c:1293-1333 | the blocks of the object, and no others, go back to the partition |
| `PagerState.PartitionedAfterAssign` | kernel/boot_ufs/default_pager.c:590-664 | giving a free block to an unassigned page keeps the blocks divided among the objects |
| `PagerState.PartitionedAfterTerminate` | kernel/boot_ufs/default_pager.c:669-713 | taking an object away with its blocks keeps the others divided, and its own blocks are distinct and allocated |
| `PagerState.ReflectsAfterWrite` | kernel/boot_ufs/default_pager.c:811-862 | one block rewritten leaves the last data of every other page of every object where its map says |
| `PagerHistory.SuppliedIsLastWritten` | kernel/boot_ufs/default_pager.c:1015-1050 | every page supplied is the last one written to that page of that object, and none of its writes has failed |
| `PagerHistory.WrongOnlyInDoubt` | kernel/boot_ufs/default_pager.c:1015-1050 | whatever the error count was, a page supplied that is not the last one written is one whose last write failed |
| `PagerHistory.LatchStaysClosed` | kernel/boot_ufs/default_pager.c:1015-1022 | after a failed write no page of the object is supplied until the object is created anew |
| `PagerHistory.LatchExact` | kernel/boot_ufs/default_pager.c:277-310 | every page supplied in every faithful history of an object is the last one written with no failure before, if and only if the error count was not negative at creation |
| `PagerHistory.WrongSupply` | kernel/boot_ufs/default_pager.c:1015-1022 | for every negative count, a history of whole-page writes that meets the same specification as every run, in which the page supplied is not the last one written |
| `DefaultPager.Serve` | kernel/boot_ufs/default_pager.c:185-234 | over every run of requests: bitmap, maps and free count agree, blocks are owned once and in range, every answer is faithful to the history, what is written at an address is what is read there, nothing else is read, and as many actions fail as transfers failed and pages found no block |
| `PagerBytes.EveryByteReadsBack` | kernel/boot_ufs/default_pager.c:1113-1166 | in every run: byte i of an aligned write, or of the first contents of an untouched page, is told at its address by every later request until something is written to that page or the object is created anew; if the writing went well, or the error count was not negative at creation, the answer is never absent |
| `PagerBytes.NothingIsInvented` | kernel/boot_ufs/default_pager.c:992-1056 | in every run: a page that nothing was written to or offered for since its object was created is absent or refused |
| `PagerBytes.WritesBytes` | kernel/boot_ufs/default_pager.c:1149-1152 | byte j of a request is in the entry of the page of its address, at the place of its address |
| `PagerHistory.NoLapse` | kernel/boot_ufs/default_pager.c:1015-1050 | where nothing failed every write has succeeded and no read was given up |
| `DiskSort.SortKeepsSweep` | kernel/device/blkio.c:141-244 | an inserted request leaves a monotone run followed by an opposite one beyond the head, after all requests for its cylinder |
| `DiskSort.MirrorPosition` | kernel/device/blkio.c:164-236 | the two halves of the routine are mirror images: negating all cylinders changes no place |
| `DiskSort.ServeKeepsSweep` | kernel/device/blkio.c:141-244 | taking the head off keeps the two runs |
| `DiskSort.OneReversal` | kernel/device/blkio.c:141-244 | serving the chain as it stands changes direction at most once |
| `DiskSort.JoinsSweepIff` | kernel/device/blkio.c:117-133 | a request above the head goes ahead of everything below it if and only if the first change of cylinder is not downwards |
| `DiskSort.JoinsSweepDownIff` | kernel/device/blkio.c:117-133 | a request below the head goes ahead of everything above it if and only if the first change of cylinder is not upwards |
| `DiskSort.WaitsForTheWayBack` | kernel/device/blkio.c:117-133 | in the chain 10, 5 a request for cylinder 20 waits behind 5 |
| `DiskSort.EveryRunSweeps` | kernel/device/blkio.c:141-244 | from an empty chain, over every run of arrivals and completions: two opposite runs, and requests for one cylinder in order of arrival |
| `RequestChain.Queue.Sort` | kernel/device/blkio.c:141-244 | the linked chain gains exactly one element at the specified place, and a head stays the head |
| `RequestChain.Queue.RemoveHead` | kernel/i386at/hd.c:1001-1009 | the head comes off and the rest stays linked in order |
| `DiskRequests.UntouchedMapsToItself` | kernel/i386at/hd.c:1412-1444 | a range that meets no bad track or sector is remapped nowhere, so the whole-range transfer is safe |
| `DiskRequests.ClampIsOneTooMany` | kernel/i386at/hd.c:915-916 | the clamped transfer stays in its slice if and only if the unclamped one did, and otherwise is one sector too long |
| `DiskRequests.ClampRunsOver` | kernel/i386at/hd.c:915-916 | five sectors from the eighth of a slice of ten: three are transferred, the last outside the slice |
| `DiskRequests.DecodeEncode` | kernel/i386at/hd.c:1307-1314 | cylinder, head and sector name the block they were computed from |
| `DiskLaws.ScreenIff` | kernel/i386at/hd.c:804-848 | a transfer is needed if and only if something is asked for of a valid slice, not for writing to a read-only one, from a block inside it; and likewise when a request is empty or at the end of file |
| `DiskLaws.TrackMoves` | kernel/i386at/hd.c:1336-1382 | the sectors of the n-th bad track are kept on the n-th alternate, each at its place on the track |
| `DiskLaws.SectorMoves` | kernel/i386at/hd.c:1336-1382 | the n-th bad sector is kept in the n-th alternate sector |
| `DiskLaws.OthersStay` | kernel/i386at/hd.c:1336-1382 | blocks that are not bad, and all of the whole-disk slice, stay where they are |
| `DiskLaws.MappedApart` | kernel/i386at/hd.c:1336-1382 | different blocks are never kept in the same place, where what is set aside is set aside once and not in use |
| `DiskLaws.SetAsideTwice` | kernel/i386at/hd.c:1336-1382 | tables that set one block aside twice, and two blocks kept in it |
| `DiskLaws.SortedByCylinder` | kernel/i386at/hd.c:850-851 | the number requests are sorted by is the cylinder that the controller is told |
| `HardDisk.Driver.XferMode` | kernel/i386at/hd.c:1412-1444 | one sector at a time if and only if mapping is on and a bad track or sector lies in the range |
| `HardDisk.Driver.BadblockMapping` | kernel/i386at/hd.c:1336-1382 | the block used is the one the bad-track and bad-sector tables assign |
| `HardDisk.Driver.StartRw` | kernel/i386at/hd.c:1283-1334 | the command issued transfers what the rest of the request is kept in, from the current sector on |
| `HardDisk.Driver.HdStart` | kernel/i386at/hd.c:871-926 | the first drive behind the current one, around the ring, that has a request is started, or the controller is idle and nothing waits |
| `HardDisk.Driver.HdError` | kernel/i386at/hd.c:1026-1074 | no sector is counted; one recalibration more up to three, then the request at hand is given up once |
| `HardDisk.Driver.HdIntr` | kernel/i386at/hd.c:930-1024 | outside a recalibration an interrupt without error is exactly one sector moved, and with the last of them the request is done; at the end of one the transfer goes on; an interrupt with an error moves nothing and is one recalibration more or the end of the request; no request is lost or finished twice, and the next drive in turn is started |
| `HardDisk.Driver.HdStrategy` | kernel/i386at/hd.c:796-868 | a request that needs no transfer is answered at once, any other queued at its place; the work in progress is not disturbed, and an idle controller is started on it |
| `DriverState.HeadDecides` | kernel/i386at/hd.c:941-942 | the work in progress depends on its queue only through the head, which no arrival displaces |
| `DriverState.NextSector` | kernel/i386at/hd.c:1010-1014 | after a sector that is not the last the transfer stands at the next sector, with all before it moved to their mapped blocks |
| `DriverState.NextCommanded` | kernel/i386at/hd.c:1010-1014 | in a transfer of several sectors the controller comes to the block of the next one by itself, once a sector to write is loaded |
| `DriverState.LastSector` | kernel/i386at/hd.c:1001-1009 | after the last sector the request has been moved whole and is owed no more |
| `DriverState.Recalibrated` | kernel/i386at/hd.c:1062-1073 | an error that is not the fourth moves nothing, leaves the request where it is and has the drive recalibrated |
| `DriverState.GivenUp` | kernel/i386at/hd.c:1030-1052 | a request given up has moved a prefix of its sectors and been recalibrated three times |
| `HardDisk.Run` | kernel/i386at/hd.c:796-1074 | over every run of arrivals, data interrupts and errors: each request is finished once with sector i moved to its mapped block, or waits for a working controller in a queue that is a sweep; every interrupt of a working controller is heard by one request, the one in progress, whose sectors are the ones without error outside recalibrations and whose recalibrations, and failure, the ones with an error; at most six extra interrupts each; without errors nothing fails |
| `DriverRuns.StepHeard` | kernel/i386at/hd.c:930-1024 | an event adds its interrupt to what the requests have heard if the controller works, and nothing otherwise; a new request starts having heard nothing |
| `DriverRuns.FollowsOn` | kernel/i386at/hd.c:796-1074 | each event has its turn: a request that needs no transfer is given back as it comes, any other by an interrupt, failed by one with an error and done by one without |
| `DriverRuns.ErrorsComeFromEvents` | kernel/i386at/hd.c:1026-1074 | in a run without errors no request fails and none is recalibrated |
| `DriverState.ArrivalSwept` | kernel/device/blkio.c:141-244 | an arrival keeps every drive's queue in the order of a sweep |
| `BootFs.ReachIsSpan` | kernel/boot_ufs/file_io.c:383-392 | the 32-bit products are the true ones but for the third with 8192-byte blocks, which is zero |
| `BootFs.OffsetsReached` | kernel/boot_ufs/file_io.c:186-194 | every 32-bit offset resolves with at most two levels, so the wrapped product is never consulted |
| `BootFs.BlockSizeCovers` | kernel/boot_ufs/fs.h:402-437 | what is read of a block covers the bytes the file has in it, also in a fragmented last block |
| `FileLayout.DirectBlock` | kernel/boot_ufs/file_io.c:148-149 | the first twelve blocks of a file are named in the inode |
| `FileLayout.SingleBlock` | kernel/boot_ufs/file_io.c:151-154 | block 12 + i is named in entry i of the single indirect block, read from the disk lowest byte first |
| `FileLayout.DoubleBlock` | kernel/boot_ufs/file_io.c:156-161 | the next are named by two entries, and a hole above is a hole below |
| `FileLayout.TripleBlock` | kernel/boot_ufs/file_io.c:163-169 | the next by three with 4096-byte blocks, and with 8192-byte blocks not at all |
| `FileLayout.AddressIs` | kernel/boot_ufs/fs.h:350 | a disk address counts fragments from the start of the disk if and only if its record number fits in 32 bits |
| `BlockMacros.MacrosDivide` | kernel/boot_ufs/fs.h:402-407 | for every 32-bit offset the mask and the shift give the remainder and the quotient by the block size |
| `BlockMacros.RoundsUpIff` | kernel/boot_ufs/fs.h:410-413 | the mask rounds up to whole blocks or fragments if and only if the sum stays below 2^32, and else gives zero |
| `FileCache.FailedLoad` | kernel/boot_ufs/file_io.c:205-219 | after a failed read of an indirect block at any level nothing is lost if and only if that level had cached no block; if it had, every walk that next comes to that block reads where no buffer is |
| `FileCache.AstrayMeetsNone` | kernel/boot_ufs/file_io.c:205-231 | while no buffer is lost a lookup reads where no buffer is only if its walk meets block number 0xffffffff, and from empty caches if and only if it does |
| `FileCache.MarkerInodeAstray` | kernel/boot_ufs/file_io.c:205-231 | an inode with that number as its indirect block, whose first lookup does so |
| `FileCache.LoadKeeps` | kernel/boot_ufs/file_io.c:205-219 | reading an indirect block into its level keeps every other buffer whole and apart, wherever the memory comes from |
| `FileCache.MapRight` | kernel/boot_ufs/file_io.c:133-237 | while no buffer is lost the lookup gives the block of an uncached walk or the device error, or reads where no buffer is exactly where the caches lead there |
| `FileCache.ReadRight` | kernel/boot_ufs/file_io.c:243-312 | while no buffer is lost a read gives the file's own bytes to the end of what is read of the block, zeros in holes, or the failure |
| `OpenFile.LevelTable` | kernel/boot_ufs/file_io.c:383-392 | mounting fills the level table with the 32-bit products |
| `OpenFile.File.ReadInode` | kernel/boot_ufs/file_io.c:69-127 | a new inode comes with empty caches, so none of the old file shows through and nothing lost before matters; if the device read fails all is as it was |
| `OpenFile.File.BlockMap` | kernel/boot_ufs/file_io.c:133-237 | the caches, the addresses and the answer of the value-level lookup in every state; while no buffer is lost, the block of an uncached walk or the device error, or a read where no buffer is, exactly where the caches lead there |
| `OpenFile.File.BufRead` | kernel/boot_ufs/file_io.c:243-312 | the buffer, the addresses and the answer of the value-level read in every state; while no buffer is lost, the file's bytes, zeros in holes, or a failure |
| `OpenFile.File.ReadFile` | kernel/boot_ufs/file_io.c:629-663 | while no buffer is lost, for a range in the file exactly its bytes with nothing left over, outside it an error; in every state what the reads of its blocks give |
| `FileCache.FailedFill` | kernel/boot_ufs/file_io.c:266-294 | after a failed read of a data block nothing is lost if and only if no block was buffered; if one was, every next read of it goes where no buffer is |
| `FileCache.StarvedFill` | kernel/boot_ufs/file_io.c:276-282 | when there is no memory for a hole the block counts as buffered and the old buffer is gone |
| `FileReuse.ReusedAddress` | kernel/boot_ufs/file_io.c:205-294 | a run of five calls in which a stale address is released a second time, and a read gives a byte of an indirect block as the file's |
| `FileReuse.WrongByte` | kernel/boot_ufs/file_io.c:205-294 | a disk and an inode for which that byte is not the file's |
| `OpenFile.Session` | kernel/boot_ufs/file_io.c:69-312 | for every sequence of reads, block lookups and inode changes, with failures anywhere and memory given out anyhow: each answer is that of the value-level machine; while there has been no failure since the inode was read it is the uncached one, or says that the device or memory failed, or meets block number 0xffffffff |
| `FileReplies.EveryFailureRefused` | kernel/boot_ufs/file_io.c:205-294 | in every session, at any time, a call answers that it failed only if one of the requests for memory or a device read that it made was refused |
| `FileReplies.NothingRefused` | kernel/boot_ufs/file_io.c:69-312 | where nothing is refused and no walk meets block number 0xffffffff, every answer of every session is that of the disk and the inode |
| `PathSpec.NextProgress` | kernel/boot_ufs/file_io.c:466-612 | every step of resolution uses up a link or shortens the path, so every path and web of links has an end |
| `PathSpec.ResolveDescends` | kernel/boot_ufs/file_io.c:466-612 | on paths that meet no link, resolution is looking up the components in turn |
| `PathLinks.RelativeLink` | kernel/boot_ufs/file_io.c:575-583 | behind a link with relative text, resolution goes on with the text and the rest of the path in the directory of the link |
| `PathLinks.AbsoluteLink` | kernel/boot_ufs/file_io.c:584-586 | behind a link whose text begins with a slash, at the root of the same device |
| `PathLinks.DeviceLink` | kernel/boot_ufs/file_io.c:587-611 | behind a link whose text names a device, at the root of that device |
| `PathLinks.RelativeLinkDescends` | kernel/boot_ufs/file_io.c:526-611 | if no other link is met, the components of the text and of the rest are looked up in turn from the directory of the link |
| `PathLinks.AbsoluteLinkDescends` | kernel/boot_ufs/file_io.c:526-611 | and from the root for text with a leading slash |
| `PathLinks.DeviceLinkDescends` | kernel/boot_ufs/file_io.c:526-611 | and from the root of the device that the text names |
| `PathLinks.OpenDescends` | kernel/boot_ufs/file_io.c:400-460 | a path without links is its components looked up in turn from the root of the device it names |
| `PathSpec.InsideIffSmall` | kernel/boot_ufs/file_io.c:528-543 | a splice that the 32-bit length test lets through stays inside the path buffer if and only if link and rest come to less than 2^31 |
| `PathSpec.EscapesIff` | kernel/boot_ufs/file_io.c:526-545 | following one link leaves the buffer if and only if link and rest come to 2^31 or more and both tests let them through |
| `PathSpec.HugeLinkEscapes` | kernel/boot_ufs/file_io.c:528-543 | a link of size 2^31 passes the length test and leaves the buffer |
| `PathSpec.WrappedSumEscapes` | kernel/boot_ufs/file_io.c:528-543 | a link of size 2^31 - 1 has a positive length, passes the length test by a sum that wraps, and leaves the buffer |
| `PathSpec.ModestStaysInside` | kernel/boot_ufs/file_io.c:466-612 | where no link comes to 2^31 with a full path buffer behind it, no path leads outside the buffer, over any number of links |
| `PathSpec.OutsideIffLong` | kernel/boot_ufs/file_io.c:421-429 | there, opening a file leaves the buffer if and only if the path itself is longer than the buffer |
| `DirectorySearch.SearchDirectory` | kernel/boot_ufs/file_io.c:318-352 | through the caches, after the directory's inode has been read, the outcome of a search of the file's own blocks: an inode number, no entry, no end, an offset beyond 32 bits or a record beyond its block; else a failure, or block number 0xffffffff in the tree |
| `DirectorySearch.LooksEncoded` | kernel/boot_ufs/dir.h:88-93 | a record read back from its bytes on the disk: the inode number if it is in use and has the name, else its length |
| `DirectorySearch.FindsFirst` | kernel/boot_ufs/file_io.c:318-352 | in a directory that holds the bytes of a list of records the search answers with the first record that has the name |
| `DirectorySearch.FirstIs` | kernel/boot_ufs/file_io.c:340-348 | that is a used record with the name and none before it, and there is no entry if and only if no record has it |
| `DirectorySearch.EndlessIff` | kernel/boot_ufs/file_io.c:334-350 | a search stays at one record for ever if and only if it comes to a record of length zero that has not the name; its offset passes 2^32 only in directories that end within one record of it |
| `DirectorySearch.HoleNeverEnds` | kernel/boot_ufs/file_io.c:334-350 | in a directory that is a hole the search for any name has no end |
| `DirectoryPaths.EnterEndlessIff` | kernel/boot_ufs/file_io.c:510-520 | taking one component of a path does not come back if and only if the search of the directory does not |
| `DirectoryPaths.WellFormedEnds` | kernel/boot_ufs/file_io.c:466-612 | where every directory holds a list of records, every resolution over any links has an end and reads no record beyond its block |
| `DirectoryPaths.OpenEnds` | kernel/boot_ufs/file_io.c:400-623 | the same of opening any path |
| `PathLookup.Ovbcopy` | kernel/i386/loose_ends.c:82-98 | the bytes arrive whole also when the two ranges overlap, and no others change |
| `PathLookup.Strlen` | kernel/i386/loose_ends.c:100-109 | the length of the string in the buffer |
| `PathLookup.Strprefix` | kernel/boot_ufs/file_io.c:858-869 | whether the string in the buffer begins with the prefix |
| `PathLookup.CopyComponent` | kernel/boot_ufs/file_io.c:485-503 | the component up to the next slash, or the fault of the first character that is not ASCII or too many |
| `PathLookup.FollowLink` | kernel/boot_ufs/file_io.c:526-611 | the path buffer holds the text of the link followed by the rest of the path, or the error the resolver gives, or, for a negative length or a sum that wraps, the buffer is left; where resolution goes on is what the rows of PathLinks pin down |
| `PathLookup.OpenFile` | kernel/boot_ufs/file_io.c:400-623 | for every path and link structure, the node a resolver on strings leads to, restarting at parent, root or device; where no link has nearly 2^31 bytes or more the buffer is left if and only if the path is longer than it |
| `DeviceRefsProofs.EnterKeeps` | kernel/device/dev_lookup.c:176-216 | a structure allocated with the table unlocked is entered only when the second search misses, so no device is entered twice |
| `DeviceRefsProofs.LastReference` | kernel/device/dev_lookup.c:247-271 | under both locks the last reference is the last: nobody else holds one or is giving one up |
| `DeviceRefsProofs.DeallocateKeeps` | kernel/device/dev_lookup.c:247-258 | the first half of a deallocation keeps every count equal to the references held or being given up |
| `DeviceRefsProofs.StepKeeps` | kernel/device/dev_lookup.c:157-271 | every step of every thread keeps the counts, the table and the privacy of structures not in it |
| `DeviceRefsProofs.EveryInterleaving` | kernel/device/dev_lookup.c:107-271 | in every interleaving: count equals references, holders hold live devices in the table, one structure for each device |
| `DeviceRefsProofs.FreedOnlyUnreferenced` | kernel/device/dev_lookup.c:224-271 | a structure is freed only with no reference left, none being given up, and out of the table |
| `DeviceRefsProofs.EveryRunFreesUnreferenced` | kernel/device/dev_lookup.c:224-271 | the same at every point of every interleaving from an empty table |
| `DeviceLookups.ProceedResult` | kernel/device/dev_lookup.c:176-229 | after the search a lookup goes on to allocate if and only if no device in the table has the key and it has no structure in hand; else it gets exactly one reference, to a device in the table with that key |
| `DeviceLookups.EveryLookupGets` | kernel/device/dev_lookup.c:176-229 | in every interleaving: a lookup that has come to its end got exactly one reference on the way, to a device then in the table that has the key asked for |
| `DeviceLookups.LookupProgress` | kernel/device/dev_lookup.c:176-229 | each step of its thread brings a lookup nearer to its end, and no other thread's step sets it back |
| `DeviceLookups.LookupMoves` | kernel/device/dev_lookup.c:176-229 | a thread in a lookup has a step to take, or another one holds the lock and has |
| `DeviceLeaks.NothingLost` | kernel/device/dev_lookup.c:107-271 | in every interleaving: a device is in the table only while there is a reference to it, every other structure is in the hands of a thread, and when all are idle the structures are exactly the devices held |
| `DeviceOpen.StepKeeps` | kernel/device/ds_routines.c:223-431 | every locked section and driver call keeps the opening and closing protocol |
| `DeviceOpen.EveryInterleaving` | kernel/device/ds_routines.c:223-431 | in every interleaving: successful driver opens and closes alternate, one thread at most is opening or closing, the open count is opens less closes, and a sleeper has a thread to wake it |
| `DeviceOpen.CreditsAreNet` | kernel/device/ds_routines.c:246-386 | what clients may still close is the successful opens of the run less its closes |
| `DeviceOpens.EveryOpenEnds` | kernel/device/ds_routines.c:223-354 | in every interleaving: an open that has come to its end has one more success to close, unless no port could be had, the driver answered with an error or the device was open for one only, and then none |
| `DeviceOpen.WindowEnds` | kernel/device/ds_routines.c:312-354 | an opening or closing only comes nearer to its end, and at its end nobody is left asleep |
| `DeviceOpen.WindowMoves` | kernel/device/ds_routines.c:262-309 | the thread that opens or closes can always take its next step |
| `FilterMachine.CheckInstr` | kernel/device/net_io.c:612-671 | one instruction is accepted if and only if it can be read and fits, and the count is brought up to date |
| `FilterMachine.ParseNetFilter` | kernel/device/net_io.c:601-674 | accepts exactly the filters that decode and whose every instruction fits the stack |
| `FilterMachine.Fetch` | kernel/device/net_io.c:516-533 | the operand of the decoded instruction, without leaving the filter or the packet |
| `FilterMachine.Perform` | kernel/device/net_io.c:534-592 | the operator acts on the array stack as on a list |
| `FilterMachine.Interpret` | kernel/device/net_io.c:493-596 | for every accepted filter and packet: the verdict of the list-stack machine, no fetch past the filter, and for exactly the boundaries the run comes to, the checker's count plus the short-circuit operators passed as stack index |
| `FilterAlu.NetDoFilter` | kernel/device/net_io.c:493-596 | with the operators of the i386, which the rows of FilterMeaning pin down: leaves the stack if and only if the run reaches an instruction the stack is too shallow for, never without short-circuit operators |
| `FilterBits.BitwiseBits` | kernel/device/net_io.c:538-546 | each bit of a bitwise operator's result is the operator of the two bits there |
| `FilterMeaning.ComparisonLeaves` | kernel/device/net_io.c:547-564 | operators 1 to 5 and 13 leave 1 if the unsigned numbers are equal, less, not more, more, not less or different, and 0 if not |
| `FilterMeaning.BitwiseLeaves` | kernel/device/net_io.c:538-546 | operators 6 to 8 leave the and, or and exclusive or of the two values, bit by bit |
| `FilterMeaning.SumLeaves` | kernel/device/net_io.c:587-592 | operator 16 leaves the sum in 32 bits and operator 17 undoes it |
| `FilterMeaning.ShiftLeaves` | kernel/device/net_io.c:581-586 | operators 14 and 15 shift by the count modulo 32, with zeros from the right and copies of the sign from the left |
| `FilterMeaning.ShortCircuitsDecide` | kernel/device/net_io.c:565-580 | operators 9 and 11 end on equal values and 10 and 12 on different ones; 9 and 12 accept, 10 and 11 reject; else they go on |
| `FilterMeaning.Operands` | kernel/device/net_io.c:516-533 | arguments push a literal, zero or a word of the packet, whose absence rejects it, or nothing |
| `FilterMeaning.OwnOperand` | kernel/device/net_io.c:511-594 | an operator with an operand of its own does what the operand pushed and then the operator do |
| `FilterMeaning.Unassigned` | kernel/device/net_io.c:601-674 | the words that are no instruction: operators from 18 on, arguments 3 to 15, and a literal that is missing |
| `FilterMeaning.ComparisonFilters` | kernel/device/net_io.c:493-674 | the three-word filters that compare a word of the packet with a literal are accepted by the checker, and accept exactly the packets in which the numbers compare so |
| `FilterMeaning.PushesFitIff` | kernel/device/net_io.c:601-674 | pushes alone fit if and only if there are at most 38 |
| `FilterSafety.HeightAt` | kernel/device/net_io.c:511-594 | the height of the stack at a boundary does not depend on the packet |
| `FilterSafety.FaultIffOverruns` | kernel/device/net_io.c:493-596 | for every program and packet, the run leaves the stack if and only if it reaches an instruction for which count and operators passed exceed the stack |
| `FilterSafety.DeepIsSafe` | kernel/device/net_io.c:493-674 | an accepted filter that is deep enough at every instruction stays in the stack on every packet |
| `FilterSafety.PlainFiltersAreSafe` | kernel/device/net_io.c:493-674 | an accepted filter without short-circuit operators keeps its index in 2..40 and stays in the stack on every packet |
| `FilterSafety.ShortCircuitsEscape` | kernel/device/net_io.c:565-580 | an accepted filter with short-circuit operators that leaves the stack |
| `QueueLinks.ReorderQueue` | kernel/device/net_io.c:352-369 | two neighbours of a doubly linked ring change places and the ring stays whole |
| `FilterList.InsertKeeps` | kernel/device/net_io.c:771-781 | a filter for a new port goes behind all of its priority or above, and the list stays sorted with one entry per port |
| `FilterList.DroppedKeeps` | kernel/device/net_io.c:712-719 | taking a filter out keeps the list sorted and complete for the other ports |
| `FilterDelivery.PromoteKeeps` | kernel/device/net_io.c:450-465 | moving a filter ahead of an equal neighbour keeps the list right |
| `FilterDelivery.WalkServes` | kernel/device/net_io.c:391-472 | if a high-priority filter matches, one port of the highest matching priority gets the packet, once; else matching ports by falling priority, all or as many as buffers allow |
| `ReceiveList.Interface.BeginSet` | kernel/device/net_io.c:694-745 | a bad filter is refused and changes nothing; a filter of a known port is replaced, or runs over its structure, if and only if it has more than 40 words; else the lock is given up to allocate |
| `ReceiveList.CopyFilter` | kernel/device/net_io.c:762-769 | the copy into the structure's array stays inside it if and only if the filter has at most 40 words, and then is the filter |
| `ReceiveList.ZerosAdmitted` | kernel/device/net_io.c:601-674 | filters of any length are accepted: any number of words that neither push nor operate |
| `ReceiveList.LongFilterOverruns` | kernel/device/net_io.c:144-145 | the longest filter of a message, 64 words, that is accepted and does not fit the array |
| `ReceiveList.Interface.EndSet` | kernel/device/net_io.c:708-781 | after the allocation the lookup is repeated, so a port set meanwhile is replaced and not entered twice; the filter stays in its structure if and only if it has at most 40 words |
| `ReceiveList.Interface.RemoveFilter` | kernel/device/net_io.c:807-854 | the port has no filter any more, and the answer says whether it had one |
| `ReceiveList.Interface.Walk` | kernel/device/net_io.c:391-472 | the ports served, their counts raised by one, and the one promotion |
| `ReceiveList.Interface.Deliver` | kernel/device/net_io.c:374-491 | a fair delivery, with the first receiver given the packet itself and the others one buffer each |
| `ReceiveList.Run` | kernel/device/net_io.c:374-854 | over every run of calls interleaved at the lock and of packets, up to the first filter that runs over its structure: every answer is right for the filters then registered, and the list stays sorted with one entry per registered port |
| `ReceiveList.ShortFiltersStayInside` | kernel/device/net_io.c:694-781 | where no client sends a filter of more than 40 words, no step of any run is cut short |
| `LineEditor.Editor.Delete` | kernel/ddb/db_input.c:93-111 | the characters go, the rest closes up, and the echo is what redraws the line |
| `LineEditor.Editor.InputChar` | kernel/ddb/db_input.c:114-204 | the buffer becomes the line the key makes of it, its echo goes out, and only an end-of-line key ends; its end is stored inside the buffer if and only if the line leaves room |
| `LineProofs.EchoShows` | kernel/ddb/db_input.c:114-204 | the echo of any key takes a terminal that shows the line to one that shows the edited line, cursor and blanks included |
| `LineProofs.RemoveShows` | kernel/ddb/db_input.c:93-111 | retyping behind a gap, blanks and backups show the line without it |
| `LineProofs.EverySessionShows` | kernel/ddb/db_input.c:206-225 | after every key of every sequence a terminal fed the echo shows the line followed by blanks, with its cursor at the line's |
| `LineKeys.TypeThenErase` | kernel/ddb/db_input.c:147-201 | a character typed is undone by either erasing key |
| `LineKeys.EraseIsBackDelete` | kernel/ddb/db_input.c:119-157 | erasing backward is going back and deleting |
| `LineKeys.BackAndForward` | kernel/ddb/db_input.c:119-132 | back and forward undo each other except at the ends of the line |
| `LineKeys.StartByBacks` | kernel/ddb/db_input.c:119-139 | going to the start is going back as often as there are characters before the cursor |
| `LineKeys.EndByForwards` | kernel/ddb/db_input.c:126-146 | going to the end is going forward over every character behind it |
| `LineKeys.KillByDeletes` | kernel/ddb/db_input.c:153-162 | cutting off is deleting everything behind the cursor, and keeps what is before it |
| `LineKeys.TwiddleTwice` | kernel/ddb/db_input.c:163-174 | two exchanges cancel, and one exchanges the two characters before the cursor and no others |
| `LineKeys.TypedGoesIn` | kernel/ddb/db_input.c:186-201 | a string typed where there is room stands before the cursor, with the rest moved along |
| `LineEditor.ReadLine` | kernel/ddb/db_input.c:206-225 | the buffer gets the edited line, its length is right, and the console gets the echo of the session; the line's end and the terminator are stored inside the buffer if and only if the line is two characters shorter than it |
| `LineEditor.FullLineOverruns` | kernel/ddb/db_lex.c:55-63 | typing as many characters as the stated size makes a line that leaves no room for its end and terminator |
| `BreakSpec.NoTwoHere` | kernel/ddb/db_break.c:114-141 | breakpoints of the current map stand at different addresses |
| `BreakSpec.PlantNext` | kernel/ddb/db_break.c:195-215 | planting one more saves its true byte and disturbs no other |
| `BreakSpec.ClearNext` | kernel/ddb/db_break.c:217-232 | taking one out restores its byte and leaves the others planted |
| `Debugger.Debug.SetBreakpoints` | kernel/ddb/db_break.c:195-215 | afterwards every breakpoint of the current map is planted with its true byte saved |
| `Debugger.Debug.ClearBreakpoints` | kernel/ddb/db_break.c:217-232 | afterwards memory holds the program, with no patched byte |
| `Debugger.Debug.SetBreakpoint` | kernel/ddb/db_break.c:87-141 | a breakpoint is added unless one is there or the hundred entries are in use |
| `Debugger.Debug.DeleteBreakpoint` | kernel/ddb/db_break.c:106-166 | the breakpoint at the address goes, and its entry is free again |
| `Debugger.Debug.StopAtPc` | kernel/ddb/db_run.c:101-190 | breakpoints come out, the one at the program counter counts once, and the debugger stops if it is due or the mode says so |
| `Debugger.Debug.RestartAtPc` | kernel/ddb/db_run.c:192-238 | over a breakpoint or watchpoint by one invisible step, else freely with breakpoints in, or by steps in the other modes |
| `Debugger.Debug.Trap` | kernel/ddb/db_trap.c:75-102 | stops, obeys the operator and goes on as the ideal debugger does |
| `DebugProofs.MeetsInt3` | kernel/ddb/db_break.c:195-215 | in free running the processor meets a breakpoint instruction exactly where the list has one or the program has its own |
| `DebugProofs.PresentIff` | kernel/ddb/db_break.c:168-193 | a breakpoint is found at an address if and only if one of the current map stands there |
| `DebugProofs.StoreSurvivesIff` | kernel/ddb/db_break.c:195-232 | a store of the running program survives the removal of the breakpoints if and only if it changes no byte under one |
| `Debugger.Session` | kernel/ddb/db_run.c:101-238 | over every run of instructions, traps, commands and restarts: stops and counts are those of a debugger that never touches memory, and memory is the program but for breakpoints marked inserted |
| `DebugFacts.EveryArrivalCounts` | kernel/ddb/db_run.c:125-139 | every arrival at a breakpoint counts once, whether the program is stepped, stepped invisibly or runs freely |
| `DebugFacts.CountsDown` | kernel/ddb/db_run.c:126-132 | a breakpoint is due at the last of as many arrivals as its count, and then starts again |
| `DebugFacts.FreeProgramsStopAtEveryBreakpoint` | kernel/ddb/db_run.c:125-187 | over every run: a freely running program stops at every breakpoint, and one that is not due is passed if and only if the program is stepped in a mode that goes on |
| `DebugFacts.SkippedOnceStopsAtOnce` | kernel/ddb/db_run.c:125-187 | a program that continues into a breakpoint with count 2 stops there the first time |
| `DebugFacts.ContinueStopsExactly` | kernel/ddb/db_run.c:101-238 | for every path of the program: continuing stops at the first breakpoint reached from an address without one, or the first due one reached from another breakpoint, and nowhere else |
| `DebugFacts.MatchingReturn` | kernel/ddb/db_run.c:153-175 | tracing to the matching return goes on exactly while calls outnumber returns and no return from a trap is met |
| `DebugFacts.StepsExactly` | kernel/ddb/db_run.c:143-152 | stepping n times stops at the n-th instruction and not before |
| `DebugFacts.UntilCallOrReturn` | kernel/ddb/db_run.c:176-187 | tracing until a call or return goes on exactly while there is none |
| `CircularBuffer.Cirbuf.constructor` | kernel/device/cirbuf.c:272-288 | an empty buffer that holds one character less than its size |
| `CircularBuffer.Cirbuf.Putc` | kernel/device/cirbuf.c:84-105 | the character joins the end unless the buffer is full, which the result says |
| `CircularBuffer.Cirbuf.Getc` | kernel/device/cirbuf.c:110-133 | the first character comes off, as a signed number, or -1 when there is none; the two are the same for 0xff |
| `CharQueue.EmptyIffNot255` | kernel/device/cirbuf.c:110-133 | the answer is -1 if and only if the queue is empty or its first character is 0xff |
| `CircularBuffer.Cirbuf.QToB` | kernel/device/cirbuf.c:139-170 | as many of the first characters as asked and there, across the wrap |
| `CircularBuffer.Cirbuf.BToQ` | kernel/device/cirbuf.c:176-211 | what fits joins the end in order, across the wrap, and the number refused is returned |
| `CircularBuffer.Cirbuf.Ndqb` | kernel/device/cirbuf.c:217-237 | the contiguous characters at the front up to one that, widened to an int, has a bit of the mask |
| `CircularBuffer.Cirbuf.Ndflush` | kernel/device/cirbuf.c:242-267 | as many of the first characters as asked and there are gone |
| `CharQueue.BlockIsEachPut` | kernel/device/cirbuf.c:176-211 | a block put at once is its characters put one by one |
| `CharQueue.BlockIsEachGot` | kernel/device/cirbuf.c:139-170 | a block got at once is its characters got one by one |
| `CircularBuffer.Session` | kernel/device/cirbuf.c:56-267 | over every run of operations the answers are those of a bounded queue by single characters, and no check of the buffer fails |

## Left out

- IPC, ports and rights, VM, zones and `kalloc`: taken as operations that succeed or fail; only the structure a zone hands back with an old error count matters, and is modelled.
- Controller handshakes, head-register bits and DMA of the disk: the controller takes a start block and a count and moves consecutive sectors, with an interrupt after each.
- `HardDisk.Driver.HdIntr`: requests with `B_MD1`, format requests, which reset no transfer mode, and the panic on a write fault are not modelled.
- `DefaultPager.ReadPage`: the swap file behind the partition is a sequence of bytes; how it is stored is not modelled.
- The pager's checksums and statistics, and overflow of the 32-bit error count.
- `PageMaps.PagingObject.WriteOffset`: the source panics when paging space or memory for a map runs out; the model takes the failure that the code behind the panic would return, so every run up to a panic is covered, and the contract says exactly when one comes.
- `DefaultPager.Server.Create`: the refusal of a wrong caller or page size and the shortage of the zone are not modelled.
- `RequestChain.Queue.Sort`: the linked chain is proved by itself; the driver's queues are sequences with the same insertion, so aliasing between a request and a queue is not modelled there.
- `PageMaps.PagingObject.Extend`: maps are values, so the lifetime of the old map's memory is not modelled.
- `OpenFile.File.ReadInode`: the inode is a parameter; decoding it and the superblock, and the place of an inode on the disk, are not modelled.
- `DirectorySearch.SearchDirectory`: what follows when the code reads behind the end of a block, or when the offset passes 2^32, is not modelled.
- `PathLookup.OpenFile`: the answers of the directory search, the mount and the link's text are parameters of any value; `DirectoryPaths` takes the search from `DirectorySearch`.
- `FileReuse.ReusedAddress`: only the buffers of the open file are in its address space; that a stale address may by then belong to another part of the kernel is not modelled.
- `OpenFile.Session`: after a failure, and until the next inode is read, an answer is only said to be the value-level machine's, not to be right.
- `PagerHistory.WrongSupply`: the history meets the specification of every run; which transfers of the store bring it about is not spelled out.
- Name parsing of devices, `dev_map`, and the ports entered and removed beside an open or close.
- `DeviceOpen.EveryInterleaving`: clients issue no more closes than successful opens; nothing is said of others.
- Sending the queued packets on, the garbage collection of dead ports and the packet's copying; only who gets a packet is modelled.
- The receive list is a sequence in `ReceiveList`; the exchange of two neighbours on the links is proved in `QueueLinks`.
- `LineEditor.ReadLine`: what lies behind the buffer, and the right margin of the terminal, are not modelled.
- `Debugger.Session`: the current map does not change during a run, and the program does not store over a planted breakpoint, where `DebugProofs.StoreSurvivesIff` says what is lost; watchpoints, temporary breakpoints, instruction counts and printing are not modelled.
- The disassembler, autoconfiguration, the floppy and bitmap tables, serial and console drivers, and the loading of executables.
