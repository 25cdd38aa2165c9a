# AEX kernel: verified models of its core components

This project models five components of the AEX kernel in Dafny and proves properties of them that
hold for every input, every run or every reachable state. `dafny verify dfyconfig.toml` checks all
of it.

`Basics` holds what the components share.

**Virtual memory** (`Bitmap`, `FramePiece`, `Phys`, `PieceList`, `PageTable`, `TableSteps`, `Address`,
`Entries`, `Batches`, `Releases`, `Forks`, `Runs`, `Paging`). Physical memory is a sequence of frames of 512
words. The page-table tree is a pure function of that memory: a node is the path of slots that leads
to it. `Addresses.Flat` is the flat map from pages to raw entries that a tree stands for, and every
operation of `Pagemap` is proved against it. `PageTable.Outside` is the set of frames that are taken
from the frame allocator and belong to no node; an operation that leaves it alone neither leaks a
frame nor gives one to two owners. Where the kernel panics, methods return `ok == false`, and the
contracts say when that can happen.

**Scheduler** (`SchedulerLocks`, `ThreadRing`, `ScheduleRuns`, `LockSteps`, `Scheduler`, `Processors`).
`SchedulerLocks` is a step machine of many CPUs and of outsiders that take thread locks. `ThreadRing` is
the doubly linked ring of threads with its pointer surgery. `Scheduling.Core` is `schedule` on one CPU
over that ring, `Processors.Processors` all CPUs on it. Each call of `schedule` is proved to be a step of
`ScheduleRuns`, which proves what holds over whole runs of the ticks of all CPUs: between two ticks
everything may change but the credit of the threads and which thread each CPU runs. `LockSteps` proves that
each of these ticks is a sequence of actions of `SchedulerLocks`.

**TCP** (`Sequence`, `TcpSocket`, `TcpRuns`, `TcpRecovery`, `TcpLoss`, `TcpClass`). `Tcp` describes an established socket as a
value with events, `TcpSockets.TCPSocket` is the object whose methods are proved to do these events,
and `TcpRuns` runs two such sockets over a network in which every packet that was ever sent may arrive
at any time, any number of times, or never. `TcpRuns` proves that nothing is
lost and `TcpRecovery` that what was sent can arrive; `TcpLoss` is one such run, which loses a byte.

**Heap** (`HeapRegion`, `Slab`, `Heap`). A slab is an object whose value is a `Region`; block headers,
with length and sanity word, are bytes of its data. `Heap` is the list of slabs with `malloc`, `free`
and `realloc`.

**Byte transport** (`CircularBuffer`, `BufferRuns`, `Event`, `MessageQueue`, `Blocks`, `InodeBlocks`,
`File`, `Checksum`). The circular buffer is a class over an array, and a step machine of any number of
readers and writers with their wakeups. The message queue sits on the circular buffer. `Blocks`,
`InodeBlocks` and `File` are the block-wise read path, `Checksum` the Internet checksum.

Integers are unbounded; 32-bit sequence numbers, 16-bit block counts and 32-bit lengths are cut
explicitly where the code cuts them. Each locked section of the code is one step.

## Where the code does not do what one would expect

The models follow the code. These places are stated as theorems, with the exact condition:

- The order of 32-bit sequence numbers is wrong from a distance of 2^31 on, and at exactly 2^31 it
  depends on the numbers themselves (`SequenceNumbers.OrderExact`). A packet makes a socket lose data if
  and only if its acknowledgement is so far from a queued segment that the peer has not accepted
  (`TcpRuns.ReceiveExact`, over whole runs `TcpRuns.LossExact`). There is a run of 2^31 + 1 bytes in which
  this happens (`TcpLoss.OldAckLosesByte`); below 2^31 bytes per direction it never does
  (`TcpRuns.NothingIsLostBelowHalf`).
- `alloc` and `map` over a page that owns a frame lose that frame, and `alloc` with PAGE_NOPHYS takes
  frames that nobody owns; no other call loses one (`Batches.NothingLost`, `Batches.AllocLoses`,
  `Runs.RunOwners`). `map` of a range that starts inside a page takes one page more than it searched for
  and loses the frame of that page if it owned one (`Paging.Pagemap.Map`). When `map` finds no run it
  goes on at page 0.
- `alloc` of physical frames goes on to the next piece when the first has no room, but `free` gives every
  frame back to the first piece (`PieceLists.PieceList.Alloc`, `PieceLists.PieceList.FreedTo`).
- `frame_piece::init` clears whole bytes only, so the counter is right exactly when the last
  `amount % 8` frames start out clear (`FramePieces.FramePiece.Init`).
- A thread with positive nice is eligible only while its stored credit is at least 25000 times its
  nice, each dispatch costs it that much, and it gains none while it waits. So the credit it starts with
  bounds the number of its dispatches, and after that it never runs again
  (`ScheduleRuns.CreditBoundsDispatches`, `ScheduleRuns.NeverAgain`).
- Between the release of its current thread and the choice of the next one a CPU does not hold the lock
  of its current thread, and an outsider can (`SchedulerLocks.OutsiderDuringScan`).
- When the last thread leaves the ring, `head` and `tail` still name it (`ThreadRing.Ring.RemoveThread`).
- `INode::readBlocks` takes a 16-bit count: a read with 65536 or more whole blocks leaves a gap in the
  buffer, and no other read does (`InodeBlocks.ReadBlocks`). `INodeFile::read` also cuts the length to 32
  bits, yet moves the cursor by all of it; the bytes arrive if and only if neither cut applies
  (`Files.DeliveredWhole`, `Files.NotDelivered`). The number that it returns leaves out what came from
  the cache, or is the number requested (`Files.INodeFile.Read`).
- `BlockHandle::read` into a buffer at an odd address copies sectors from their start on and cuts the
  length to 16 bits. It works if and only if the read starts with a sector and is shorter than 65536
  bytes or ends an odd number of bytes into a sector; otherwise a byte comes from a wrong place or the
  loop never ends (`Blocks.ReadHandle`, `Blocks.OddWorks`).
- `free` takes user bytes that equal the right sanity word for a header (`HeapRegions.Imitated`). Nothing
  else imitates one: `malloc` and `free` never leave such bytes behind (`HeapRegions.AllocateNoFakes`,
  `HeapRegions.ReleaseNoFakes`, `HeapRegions.WriteNoFakes`).
- `writeAtomic` into an empty buffer waits exactly when the data does not fit before the end of the
  ring (`CircularBuffers.AtomicNeedsRoomBeforeWrap`).
- `readMessage` keeps the queue sound exactly when it asks for the length that was written
  (`MessageQueues.MessageQueue.ReadMessage`).

## Model

| member | source | states |
|---|---|---|
| `Bitmap.FreeRunFits` | mem/frame_piece.hpp:78-80 | a run of clear bits is never longer than the number of clear bits, so the early exit of `find` is right |
| `FramePieces.FramePiece.Init` | mem/frame_piece.hpp:23-32 | which bits `init` clears, and that the free counter agrees with the bitmap if and only if the last `amount % 8` bits were clear before |
| `FramePieces.FramePiece.Alloc` | mem/frame_piece.hpp:34-54 | exactly the frames asked for become taken and the free counter stays the number of clear bits |
| `FramePieces.FramePiece.Free` | mem/frame_piece.hpp:56-76 | exactly these frames become free and the counter stays the number of clear bits |
| `FramePieces.FramePiece.Find` | mem/frame_piece.hpp:78-110 | the lowest run of the length, and -1 if and only if there is none |
| `PhysAlloc.Phys.Alloc` | mem/phys.cpp:106-134 | fails if and only if there is no room; takes the lowest run of frames of the piece, all free before; available minus free frames is constant |
| `PhysAlloc.Phys.Free` | mem/phys.cpp:136-161 | exactly the frames of the range become free; addresses below the piece are ignored |
| `PieceLists.PieceList.Alloc` | mem/phys.cpp:106-134 | the walk over all pieces: the lowest run in the first piece that has one, no other piece changed; fails if and only if no piece has one |
| `PieceLists.PieceList.FreedTo` | mem/phys.cpp:136-158 | the walk of free always ends at the first piece, whichever the frame was taken from; lower addresses are ignored |
| `PageTable.GraftAt` | arch/x86_64/mem/paging.cpp:559-588 | writing one slot of one table changes that slot and no other slot anywhere in the tree, also when the write creates a table |
| `PageTable.GraftedTree` | arch/x86_64/mem/paging.cpp:559-588 | after one changed slot no frame serves two nodes, and the owned frames change by exactly what the slot gave up and got |
| `TableSteps.Link` | arch/x86_64/mem/paging.cpp:567-585 | linking a fresh zeroed table changes no page entry, leaves no frame without owner and touches no frame of others |
| `TableSteps.SetEntry` | arch/x86_64/mem/paging.cpp:504-539 | writing a page entry: what it claimed is released, what it claims is owned, all else stays |
| `TableSteps.Untouched` | arch/x86_64/mem/paging.cpp:225-261 | writes to frames that are no tables leave the tree and its owned frames alone |
| `Addresses.SameNode` | arch/x86_64/mem/paging.cpp:90-93 | two pages share a table at a level if and only if they lie in the same span, so the index arithmetic is a bijection |
| `Addresses.NothingBelow` | arch/x86_64/mem/paging.cpp:95-111 | a missing table at any level means no entry below it |
| `Entries.FlatUpdate` | arch/x86_64/mem/paging.cpp:504-516 | an entry write is a point update of the flat map |
| `Entries.Update` | arch/x86_64/mem/paging.cpp:504-539 | creating the missing tables and then writing is still one point update, with exact ownership of frames |
| `Entries.UpdateFlat` | arch/x86_64/mem/paging.cpp:504-516 | the flat map gets the entry even if the frame it names is free or has another owner |
| `Entries.ScanFree` | arch/x86_64/mem/paging.cpp:616-644 | skipping a missing table counts as 512 unmapped pages and keeps the search for the lowest run right |
| `Entries.SameLowestRun` | arch/x86_64/mem/paging.cpp:590-647 | the result of the search does not depend on the table that it creates |
| `Batches.NothingLost` | arch/x86_64/mem/paging.cpp:225-261 | a batch of entry writes leaves no frame without owner if and only if every frame it took is owned by a page and no page in the range owned one before |
| `Batches.AllocLoses` | arch/x86_64/mem/paging.cpp:225-261 | an alloc leaves no frame without owner if and only if it has no PAGE_NOPHYS and no page of the range owned one; with PAGE_NOPHYS every frame it takes is left without owner |
| `Batches.FreshPagesStep` | arch/x86_64/mem/paging.cpp:246-253 | the pages allocated so far stay mapped to pairwise different frames that were free before and stay zero while the next page is allocated, with PAGE_NOPHYS too |
| `Releases.Scrub` | arch/x86_64/mem/paging.cpp:361-366 | overwriting the frame of a page before it is freed changes no entry and no frame of anybody else |
| `Releases.FreedStep` | arch/x86_64/mem/paging.cpp:360-381 | one page of free: the pending frames are exactly the owned frames cleared and not yet given back |
| `Releases.Release` | arch/x86_64/mem/paging.cpp:352-358 | giving back one pending frame is safe: nobody owns it and it is given back once |
| `Releases.OwnedSeqDistinct` | arch/x86_64/mem/paging.cpp:342-387 | the frames that free gives back are pairwise different and are exactly those that the pages owned |
| `Runs.RunOwners` | arch/x86_64/mem/paging.cpp:225-387 | in every run of alloc, map and free every node keeps a frame of its own, and no frame is without owner afterwards if and only if no call had PAGE_NOPHYS frames or mapped over an owning page |
| `Runs.AllocIsStep` | arch/x86_64/mem/paging.cpp:225-261 | what alloc does with any flags, PAGE_NOPHYS included, is a step of these runs |
| `Paging.Machine.AllocFrame` | mem/phys.cpp:106-134 | a frame nobody had; fails only when all frames are taken |
| `Paging.Machine.FreeFrame` | mem/phys.cpp:136-161 | exactly this frame becomes free |
| `Paging.Pagemap.Create` | arch/x86_64/mem/paging.cpp:147-168 | a fresh root, an empty flat map, and no other frame touched |
| `Paging.Pagemap.FindTable` | arch/x86_64/mem/paging.cpp:90-116 | the walk finds the table exactly when it exists; otherwise it tells the span of the missing region |
| `Paging.Pagemap.FindTableEnsure` | arch/x86_64/mem/paging.cpp:559-588 | the table exists afterwards, no page entry changed, no frame lost; fails only when all frames are taken |
| `Paging.Pagemap.Assign` | arch/x86_64/mem/paging.cpp:504-516 | the flat map gets exactly this entry, whatever it is, even when tables are created on the way; ownership of frames stays exact if the frame has no other owner |
| `Paging.Pagemap.Unassign` | arch/x86_64/mem/paging.cpp:519-539 | exactly one entry is removed, and the frame the page owned, or 0, is returned |
| `Paging.Pagemap.RawOf` | arch/x86_64/mem/paging.cpp:665-676 | the walk computes the flat map |
| `Paging.Pagemap.PaddrOf` | arch/x86_64/mem/paging.cpp:649-663 | the address in the mapped frame at the same offset, or 0 if the entry names no frame |
| `Paging.ScanPages` | arch/x86_64/mem/paging.cpp:605-646 | the scan that jumps over missing tables finds the lowest run of unmapped pages, or none exists |
| `Paging.Pagemap.FindContiguous` | arch/x86_64/mem/paging.cpp:590-647 | the lowest run from the start of the search; the flat map is unchanged |
| `Paging.Pagemap.Alloc` | arch/x86_64/mem/paging.cpp:225-261 | every page of the range maps a different frame that was free and is zero now; bit b of its flags is set if and only if b is below 12 and asked for or PAGE_PRESENT; other entries and foreign frames unchanged; the lowest run from the start of the search unless fixed, never page 0; when it fails and why; and if and only if which frames are lost |
| `Paging.Pagemap.Map` | arch/x86_64/mem/paging.cpp:297-340 | address start + offset + x leads to paddr + x for every x below the length, or all pages to the marker with PAGE_ARBITRARY; the flags bit by bit, always as foreign frames; what happens to frames that the pages owned |
| `Paging.Pagemap.MapRange` | arch/x86_64/mem/paging.cpp:318-333 | the two loops: which frame every page gets, where every address leads, and every flag |
| `Batches.Translates` | arch/x86_64/mem/paging.cpp:326-333 | consecutive frames from the page of paddr on translate every address of the range, offset included |
| `Paging.Pagemap.ClearPage` | arch/x86_64/mem/paging.cpp:360-376 | the entry goes, its frame is overwritten and owned by nobody, frames of other pages and of others keep their contents |
| `Paging.Pagemap.Flush` | arch/x86_64/mem/paging.cpp:352-358 | all pending frames go back and nothing else |
| `Paging.Pagemap.Free` | arch/x86_64/mem/paging.cpp:342-387 | gives back exactly the owned frames of the range, each once, in page order, across the batches of 256; the range is unmapped and everything else unchanged |
| `Forks.ForkedParent` | arch/x86_64/mem/paging.cpp:414-469 | the parent keeps its tree and its entries while the child is filled |
| `Forks.ForkedDisjoint` | arch/x86_64/mem/paging.cpp:414-469 | no frame belongs to both parent and child |
| `Forks.Skipped` | arch/x86_64/mem/paging.cpp:95-111 | a skip passes over unmapped pages only |
| `Forks.NextStart` | arch/x86_64/mem/paging.cpp:426-429 | skips always start at the beginning of the missing region |
| `Forks.ForkCopy` | arch/x86_64/mem/paging.cpp:451-457 | a copied page gets a frame of its own with equal contents, and earlier copies stay |
| `Paging.Pagemap.CopyTable` | arch/x86_64/mem/paging.cpp:431-460 | one page table of the parent is copied completely |
| `Paging.Pagemap.Fork` | arch/x86_64/mem/paging.cpp:414-469 | terminates; the child has the same entries and flags, own frames with equal contents for owned pages, and owns every frame taken; the tables visited are exactly the existing ones, once each and in order; the parent is unchanged |
| `SchedulerLocks.StepKeeps` | proc/scheduler.cpp:31-121 | every atomic action of a CPU or an outsider keeps the invariant on locks and current threads |
| `SchedulerLocks.InitialInv` | proc/proc.cpp:230-248 | the state that setup_cores leaves satisfies it |
| `SchedulerLocks.NeverOnTwoCpus` | proc/scheduler.cpp:31-121 | in every run no thread is current on two CPUs |
| `SchedulerLocks.RunningThreadIsLocked` | proc/scheduler.cpp:38-102 | outside the middle of a switch a CPU holds the lock of its current thread, so no outsider does and the release finds it held |
| `SchedulerLocks.OutsiderDuringScan` | proc/scheduler.cpp:38-53 | a run in which an outsider holds the lock of a current thread in the middle of a switch |
| `SchedulerLocks.TakenAfterOutsider` | proc/scheduler.cpp:31-101 | a run in which a CPU passes over a thread that an outsider holds, and runs and holds it once it is let go |
| `LockSteps.DispatchIsActions` | proc/scheduler.cpp:31-121 | every dispatch of the run model is enter, release, take, set current, leave, each allowed where it happens, and leaves the CPU with the lock of the thread chosen and no other CPU changed |
| `LockSteps.TickIsActions` | proc/scheduler.cpp:13-121 | every tick is such a sequence or none, so the lock invariants hold of `schedule` |
| `SchedulerLocks.SwitchIsAlone` | proc/scheduler.cpp:47-118 | during a switch all other CPUs run threads whose locks they hold |
| `SchedulerLocks.IdleLockFree` | proc/scheduler.cpp:109-110 | the attempt to lock the idle thread always succeeds |
| `ThreadRing.Ring.constructor` | proc/proc.cpp:71-75 | the ring of one thread |
| `ThreadRing.Ring.AddThread` | proc/proc.cpp:177-190 | the ring stays a circle of `size` distinct nodes with next and prev inverse, with the thread added at the end |
| `ThreadRing.Ring.RemoveThread` | proc/proc.cpp:192-215 | the ring without the thread, still a circle with next and prev inverse if and only if another thread is left; idle threads that pointed to it go on with its successor |
| `ThreadRing.LinkedWithout` | proc/proc.cpp:204-211 | bending two pointers around a node leaves a circle of the others |
| `Scheduling.Core.Scan` | proc/scheduler.cpp:49-103 | finds the first eligible thread in ring order from the start of the scan, and none if and only if none is eligible; the one found was runnable, or asleep with its time come, or interrupted |
| `Scheduling.Core.Tick` | proc/scheduler.cpp:17-36 | exactly when the current thread goes on, and what it pays |
| `Scheduling.Core.Switch` | proc/scheduler.cpp:38-121 | the first eligible thread behind the last one dispatched runs with the credit it earned, or the idle thread if none is eligible; eligible means, field by field: lock free, CPU allowed, enough credit, and runnable, or asleep with its time come, or interrupted; locks and credit of the others are unchanged; credit stays in range; it is a step of the run model |
| `Scheduling.Core.Schedule` | proc/scheduler.cpp:13-121 | a whole tick: where the scan starts, who runs and that it was awake, field by field, what it earned or paid, where the idle thread goes on; credit of a thread nobody holds stays in 0 to 999999, all credit below 1950000, and a thread stays for at most one more non-critical tick; it is a tick of the run model |
| `Scheduling.Core.UseTick` | proc/scheduler.cpp:17-36 | the tick that the current thread uses: what it pays, and that it changes nothing else of the snapshot |
| `Scheduling.Core.Dispatch` | proc/scheduler.cpp:77-98 | credit bounds after a dispatch; the assertion on the counter holds |
| `Scheduling.ScanStarts` | proc/scheduler.cpp:42-53 | the scan starts behind the current thread, or where the idle thread left off |
| `ThreadRing.ReadyMeans` | proc/scheduler.cpp:54-85 | whom a scan can choose, in plain terms |
| `ThreadRing.AwakeMonotone` | proc/scheduler.cpp:63-67 | a thread that is awake stays awake as time goes on |
| `ThreadRing.SleepsUntil` | proc/scheduler.cpp:63-67 | a sleeper that nothing interrupts is awake from its time on and not before |
| `Processors.SetupCores` | proc/proc.cpp:230-248 | every CPU gets a current thread that it holds and that leads to the ring; all but the first one are dead threads |
| `Processors.Processors.constructor` | proc/proc.cpp:230-248 | all CPUs are sound after this and run different threads |
| `Processors.Processors.TickOn` | proc/scheduler.cpp:13-121 | `schedule` on one CPU does not touch the threads that other CPUs run, nor where their scans start |
| `Processors.Processors.Tick` | proc/scheduler.cpp:13-121 | it keeps all CPUs sound with different current threads, and is a step of the runs of all CPUs |
| `Processors.Processors.ValueOk` | proc/scheduler.cpp:13-121 | a run can start in every sound state |
| `ScheduleRuns.DispatchedWithinN` | proc/scheduler.cpp:13-121 | in every run of the ticks of all CPUs on a ring of n threads, with any change of status, locks, nice and time in between, a thread with nice of at most 0 that wants to run whenever a CPU leaves its current thread is taken by that CPU within n such ticks |
| `ScheduleRuns.SleeperDispatched` | proc/scheduler.cpp:49-103 | a free, allowed sleeper with nice of at most 0 whose time has come is taken within n such ticks |
| `ScheduleRuns.CreditNeeded` | proc/scheduler.cpp:77-85 | the credit test passes if and only if nice is not positive or the stored credit covers it |
| `ScheduleRuns.DispatchCloser` | proc/scheduler.cpp:49-103 | a dispatch that passes over a thread that wants to run brings the start of the scan closer to it |
| `ScheduleRuns.StepThread` | proc/scheduler.cpp:13-121 | a tick of any CPU keeps credit from getting negative, and gives none to a thread that it does not dispatch |
| `ScheduleRuns.CreditBoundsDispatches` | proc/scheduler.cpp:77-98 | in every such run a thread with fixed positive nice is dispatched, by all CPUs together, at most as often as its stored credit pays for |
| `ScheduleRuns.NeverAgain` | proc/scheduler.cpp:77-98 | once its stored credit is below 25000 times its nice no CPU ever dispatches it again |
| `SequenceNumbers.OrderExact` | mod/core/netstack/socket/inet/tcp.cpp:30-60 | the comparisons agree with the true order exactly for distances below 2^31, and at 2^31 for one order of the numbers |
| `SequenceNumbers.OrderAtHalf` | mod/core/netstack/socket/inet/tcp.cpp:30-60 | numbers for which they disagree |
| `Tcp.AckMoves` | mod/core/netstack/socket/inet/tcp.cpp:671-675 | the acknowledged end becomes the larger position and the window follows it, if and only if the numbers are comparable |
| `TcpRuns.ExpectedPlace` | mod/core/netstack/socket/inet/tcp.cpp:731-747 | data with the expected number is the data at the place the receiver has come to |
| `TcpRuns.ReceiveStep` | mod/core/netstack/socket/inet/tcp.cpp:731-760 | accepting, rejecting or overflowing keeps the receive stream a prefix of what was written |
| `TcpRuns.ReceivedIsPrefix` | mod/core/netstack/socket/inet/tcp.cpp:731-760 | in every run over a network that loses, duplicates and reorders, each receive stream is a prefix of what the other side wrote |
| `TcpRuns.AckRemoves` | mod/core/netstack/socket/inet/tcp.cpp:694-727 | an acknowledgement removes a segment that has not been accepted if and only if it is not comparable with it |
| `TcpRuns.ReceiveExact` | mod/core/netstack/socket/inet/tcp.cpp:671-727 | when a socket that stays open handles a packet, nothing is lost if and only if the acknowledgement is comparable with every queued segment that has not been accepted |
| `TcpRuns.OneHolder` | mod/core/netstack/socket/inet/tcp.cpp:905-941 | no byte is in two segments of the retransmission queue |
| `TcpRuns.RepeatAccepted` | mod/core/netstack/socket/inet/tcp.cpp:755-759 | data acknowledged as a repetition has been accepted if and only if the comparison was right |
| `TcpRuns.NothingIsLost` | mod/core/netstack/socket/inet/tcp.cpp:671-727 | in every run with safe steps, until a reset every sent byte that the peer has not accepted is still queued, and acknowledgements never exceed what the peer accepted |
| `TcpRuns.MoveExact` | mod/core/netstack/socket/inet/tcp.cpp:614-760 | a step keeps this, in both directions, if and only if it is safe: the comparisons it makes come out right |
| `TcpRuns.LossExact` | mod/core/netstack/socket/inet/tcp.cpp:614-760 | a run keeps it at all times if and only if all its steps are safe |
| `TcpRuns.NothingIsLostBelowHalf` | mod/core/netstack/socket/inet/tcp.cpp:905-983 | the same without further condition for fewer than 2^31 bytes in each direction |
| `TcpLoss.OldAckLosesByte` | mod/core/netstack/socket/inet/tcp.cpp:694-727 | a run from an established connection, 2^31 + 1 bytes long, in which the first acknowledgement arrives once more and a byte is lost that the peer does not have |
| `TcpLoss.Rounds` | mod/core/netstack/socket/inet/tcp.cpp:905-941 | for every n below 2^32 a run in which n bytes go over one by one, each acknowledged before the next |
| `TcpRuns.EdgeNeverMovesLeft` | mod/core/netstack/socket/inet/tcp.cpp:506-511 | the right edge of either receive window never moves left in any run |
| `TcpRuns.AdvertisedIsSafe` | mod/core/netstack/socket/inet/tcp.cpp:733-742 | data within any edge from earlier in the run never causes the overflow reset, at either side |
| `TcpRuns.AdvertisedOnWireIsSafe` | mod/core/netstack/socket/inet/tcp.cpp:587 | nor does data within an edge that any packet ever advertised, at either side, when all steps are safe |
| `TcpRuns.AdvertisedBelowHalf` | mod/core/netstack/socket/inet/tcp.cpp:587 | the same without further condition for fewer than 2^31 bytes in each direction |
| `TcpRecovery.UnaStep` | mod/core/netstack/socket/inet/tcp.cpp:671-675 | what every event does to the acknowledged end and the window, in true positions, below 2^31 bytes |
| `TcpRecovery.UnaIsLargest` | mod/core/netstack/socket/inet/tcp.cpp:671-675 | in every run below 2^31 bytes the acknowledged end of each side is the largest acknowledgement it has handled, and never beyond what the peer accepted |
| `TcpRecovery.SlicedAt` | mod/core/netstack/socket/inet/tcp.cpp:905-941 | in every run no segment, sent or queued, begins or ends inside another, and the peer has accepted whole segments |
| `TcpRecovery.NextQueued` | mod/core/netstack/socket/inet/tcp.cpp:905-983 | the first byte that the peer misses is the first byte of a queued segment |
| `TcpRecovery.Round` | mod/core/netstack/socket/inet/tcp.cpp:943-983 | retransmitting that segment and delivering it moves the peer on by its length |
| `TcpRecovery.AllSentArrives` | mod/core/netstack/socket/inet/tcp.cpp:943-983 | from every state of every run below 2^31 bytes with both sides open and retries left there is a continuation in which the second side has got all that the first sent |
| `TcpRecovery.AllSentArrivesBack` | mod/core/netstack/socket/inet/tcp.cpp:943-983 | the same the other way round |
| `TcpRecovery.AckEmpties` | mod/core/netstack/socket/inet/tcp.cpp:671-727 | the acknowledgement of all that was sent empties the retransmission queue and tells the window |
| `Tcp.Unacked` | mod/core/netstack/socket/inet/tcp.cpp:694-727 | exactly the segments not covered by the acknowledgement stay |
| `TcpSockets.TCPSocket.SendChunk` | mod/core/netstack/socket/inet/tcp.cpp:276-298 | as much as there is room for goes to the transmit buffer |
| `TcpSockets.TCPSocket.ReceiveChunk` | mod/core/netstack/socket/inet/tcp.cpp:323-347 | the bytes come out of the receive buffer in order |
| `TcpSockets.TCPSocket.Package` | mod/core/netstack/socket/inet/tcp.cpp:905-941 | the whole transmit buffer goes out in consecutive non-empty segments within mss and window, all but the last of full size, if and only if the window is large enough |
| `TcpSockets.TCPSocket.PackOne` | mod/core/netstack/socket/inet/tcp.cpp:910-940 | one segment: as long as buffer, window and mss allow, with the current acknowledgement and window, queued as it is sent |
| `TcpSockets.TCPSocket.CompAck` | mod/core/netstack/socket/inet/tcp.cpp:945-948 | what was accepted is acknowledged with the current window if no data packet has done it |
| `TcpSockets.TCPSocket.UpdateWindow` | mod/core/netstack/socket/inet/tcp.cpp:349-355 | the peer learns of the room if it had become scarce |
| `TcpSockets.TCPSocket.EraseAcked` | mod/core/netstack/socket/inet/tcp.cpp:694-727 | the erasing loop keeps exactly the segments that are not acknowledged, in order |
| `TcpSockets.TCPSocket.PacketReceived` | mod/core/netstack/socket/inet/tcp.cpp:614-760 | does exactly the receive event of the run model; in plain terms: acknowledged end and window by true position, the queue without what is acknowledged, data accepted in order, refused or reset exactly when, and the answer to repeated data |
| `TcpSockets.ReceivedIs` | mod/core/netstack/socket/inet/tcp.cpp:614-760 | the receive event in plain terms |
| `TcpSockets.AnswerIs` | mod/core/netstack/socket/inet/tcp.cpp:755-759 | its answer in plain terms |
| `TcpSockets.TCPSocket.RetransmitOne` | mod/core/netstack/socket/inet/tcp.cpp:957-978 | resets if and only if the segment has been retried five times; otherwise sends exactly one packet with its number, acknowledgement and data and the current window, and counts the retry |
| `HeapRegions.AllocateOk` | mem/heap.cpp:82-100 | taking a block keeps blocks apart, bits equal to blocks, the header bytes of all blocks, and the number of clear bits exact |
| `HeapRegions.ReleaseOk` | mem/heap.cpp:119-123 | the same for giving one back |
| `HeapRegions.AllocateKeeps` | mem/heap.cpp:92-98 | clearing and heading a new block changes no byte of another block |
| `HeapRegions.ReleaseKeeps` | mem/heap.cpp:119-123 | overwriting a freed block changes no byte of another block |
| `HeapRegions.WriteOk` | mem/heap.cpp:369-380 | writing inside a block keeps all headers, its own included, and every byte of the others |
| `HeapRegions.HeaderSays` | mem/heap.cpp:96-98 | the header bytes of a live block give its sanity word and its length back |
| `HeapRegions.LeRoundTrip` | mem/heap.cpp:96-98 | the bytes of the length give the length |
| `HeapRegions.SanityConstant` | mem/heap.cpp:20 | the bytes of the constant are those of 0x28AC829B1F5231EC, lowest first |
| `HeapRegions.FreedIsNoBlock` | mem/heap.cpp:105-123 | what free leaves behind never passes the sanity check: freeing a block twice always panics |
| `HeapRegions.FillIsNoSanity` | mem/heap.cpp:20 | neither zeroes nor the fill pattern are the sanity word of an aligned pointer |
| `HeapRegions.AllocateNoFakes` | mem/heap.cpp:92-98 | if only headers of live blocks look like headers, that stays so when a block is taken |
| `HeapRegions.ReleaseNoFakes` | mem/heap.cpp:119-123 | and when one is given back |
| `HeapRegions.WriteNoFakes` | mem/heap.cpp:105-110 | and when a user writes into a block, if and only if no piece of the block looks like a header then |
| `HeapRegions.Imitated` | mem/heap.cpp:105-110 | into every block something can be written that looks like a header and is none |
| `HeapRegions.NewIsZero` | mem/heap.cpp:92-94 | the user's bytes of a new block are zero |
| `Slabs.Slab.Create` | mem/heap.cpp:52-72 | a slab with all pieces free |
| `Slabs.Slab.FindFree` | mem/heap.cpp:218-266 | the scan that skips full words finds the lowest run, and -1 if and only if there is none |
| `Slabs.Slab.SetBits` | mem/heap.cpp:160-216 | exactly the bits of the range are set or cleared, across words |
| `Slabs.Slab.Alloc` | mem/heap.cpp:74-103 | a 16-aligned zeroed block with its header at the lowest place, or 0 if and only if there is none; makes nothing else look like a header |
| `Slabs.Slab.Free` | mem/heap.cpp:105-125 | panics if and only if the sanity word is wrong; what it clears for any header inside the slab; if the header is not imitated, exactly this block goes, it panics if and only if there is no live block, and the pointer fails the check afterwards |
| `Slabs.Slab.LiveIsSane` | mem/heap.cpp:105-110 | a live block passes the check, and the length read from memory is its length |
| `Slabs.Slab.AlignedUnforged` | mem/heap.cpp:105-110 | while only headers look like headers, the check is right for every aligned pointer |
| `Heaps.LiveBlocks` | mem/heap.cpp:127-129 | live blocks are disjoint, aligned and inside their slab |
| `Heaps.OneOwner` | mem/heap.cpp:127-129 | the slab that owns an address of a live block is the only one, in spite of the inclusive bound |
| `Heaps.FreshSlabFits` | mem/heap.cpp:299 | a fresh slab has room for any request of 1 to 67108864 bytes |
| `Heaps.Heap.constructor` | mem/heap.cpp:383-384 | an empty heap of one slab |
| `Heaps.Heap.FirstFit` | mem/heap.cpp:284-304 | the first slab with room is used, and only that one changes |
| `Heaps.Heap.Malloc` | mem/heap.cpp:273-307 | returns 0 if and only if the size is 0 or over the limit; first fit, lowest place; `heap_free` is 16 times the clear bits |
| `Heaps.Heap.Free` | mem/heap.cpp:309-332 | if no header is imitated in front of the pointer: frees exactly the block behind it, panics if and only if there is none, and a second free would panic; otherwise the check lets it through |
| `Heaps.Heap.GenuineUnforged` | mem/heap.cpp:309-332 | while only headers look like headers in all slabs, which malloc and free keep, this covers every aligned pointer |
| `Heaps.Heap.Msize` | mem/heap.cpp:334-350 | 0 for null, the room of a live block, and a panic if and only if there is none, unless a header is imitated |
| `Heaps.Heap.Realloc` | mem/heap.cpp:360-381 | the block moves with the common prefix of its bytes, the old one is freed, no other live block changes; the cases of null, size 0 and over the limit; panics if and only if there is no live block, unless a header is imitated |
| `Heaps.ReallocMoves` | mem/heap.cpp:369-380 | allocate, copy and free together keep the prefix and all other blocks |
| `Heaps.MallocKeeps` | mem/heap.cpp:273-307 | malloc changes no byte of a live block |
| `Heaps.FreeKeeps` | mem/heap.cpp:309-332 | free changes no byte of another live block |
| `CircularBuffers.ReadStored` | mem/circularbuffer.cpp:48-57 | the bytes at the read position are the oldest ones, and moving on drops exactly these |
| `CircularBuffers.WriteStored` | mem/circularbuffer.cpp:87-96 | bytes copied to the write position are appended |
| `CircularBuffers.CircularBuffer.WriteAvailable` | mem/circularbuffer.cpp:142-148 | read and write availability add up to size - 1 |
| `CircularBuffers.CircularBuffer.ReadChunk` | mem/circularbuffer.cpp:33-57 | a chunk leaves the front of the queue, as long as asked for, stored and before the end of the ring; empty if and only if nothing is stored; it is the read step of the run model |
| `CircularBuffers.CircularBuffer.WriteChunk` | mem/circularbuffer.cpp:73-96 | a chunk joins the back, as long as there is data, room and space before the end of the ring; empty if and only if the buffer is full; it is the write step of the run model |
| `CircularBuffers.CircularBuffer.WriteAtomicChunk` | mem/circularbuffer.cpp:112-135 | all or nothing, and exactly when |
| `CircularBuffers.CircularBuffer.Read` | mem/circularbuffer.cpp:24-62 | returns what was asked for in order, as far as it is stored, and comes to wait if and only if less is stored |
| `CircularBuffers.CircularBuffer.Write` | mem/circularbuffer.cpp:64-101 | appends the data as far as it fits, and comes to wait if and only if not all fits |
| `CircularBuffers.AtomicNeedsRoomBeforeWrap` | mem/circularbuffer.cpp:111-124 | when an atomic write into an empty buffer has to wait |
| `BufferRuns.MovedInOrder` | mem/circularbuffer.cpp:48-57 | copying bytes into the ring at the write position and out of it at the read position keeps what is stored the bytes committed and not yet delivered, around the end of the ring too |
| `BufferRuns.RoundMoves` | mem/circularbuffer.cpp:24-140 | what a round moves, in plain terms: the oldest bytes to a reader, the front of its data for a writer, whose rest stays to be written |
| `BufferRuns.RoundWakes` | mem/circularbuffer.cpp:32-61 | a round blocks its thread if and only if there is nothing to move, and otherwise wakes everybody who waits |
| `BufferRuns.StepInv` | mem/circularbuffer.cpp:24-140 | every round of every thread on the bytes of the ring keeps order and wakeups |
| `BufferRuns.DeliveredIsPrefix` | mem/circularbuffer.cpp:24-140 | in every run the bytes read from the ring are a prefix of the bytes committed, and at most size - 1 are stored |
| `BufferRuns.BlockedMeansStuck` | mem/circularbuffer.cpp:32-46 | in every run a blocked reader means an empty buffer and a blocked writer a full one: no wakeup is lost |
| `BufferRuns.AtomicIsWhole` | mem/circularbuffer.cpp:103-140 | an atomic write is committed whole in one step |
| `Events.Event.Wait` | ipc/event.cpp:11-43 | queued once and blocked, or asleep until the timeout, unless the event is defunct; nobody else is touched |
| `Events.Event.Raise` | ipc/event.cpp:45-59 | everybody queued becomes runnable, and only they |
| `Events.Event.Defunct` | ipc/event.cpp:61-77 | the same, and nobody waits afterwards |
| `MessageQueues.FramesAppend` | ipc/messagequeue.cpp:70-76 | writing a message appends its frame to the frames |
| `MessageQueues.HeaderOf` | ipc/messagequeue.cpp:28-34 | the header in front of the bytes tells the length of the first message |
| `MessageQueues.FrameLayout` | ipc/messagequeue.cpp:70-76 | sender and length, lowest byte first, and then the data |
| `MessageQueues.MessageQueue.WriteMessage` | ipc/messagequeue.cpp:52-80 | appended whole, or must wait, or dropped, and exactly when; the inner writes never wait; free space is 65535 minus what is stored |
| `MessageQueues.MessageQueue.ReadMessage` | ipc/messagequeue.cpp:12-50 | the first message comes out whole and the queue stays sound if and only if its length was asked for; the inner reads never wait |
| `Blocks.ReadHandle` | dev/blockhandle.cpp:41-127 | at an even address, and at an odd one if and only if the read starts with a sector and is shorter than 65536 bytes or ends an odd number of bytes into a sector, the buffer gets exactly the requested bytes; otherwise it hangs or a byte is from another place; nothing else changes, and no request exceeds the maximum |
| `Blocks.ReadAligned` | dev/blockhandle.cpp:69-127 | the loop that joins whole sectors into requests delivers exactly the requested bytes |
| `Blocks.ReadOdd` | dev/blockhandle.cpp:47-67 | the loop for odd addresses: right so far, or stuck, or wrong, and exactly when |
| `Blocks.OddLater` | dev/blockhandle.cpp:53-66 | one round of it, from the arithmetic of sector offsets and 16-bit lengths |
| `Blocks.BlockJoins` | dev/blockhandle.cpp:106-115 | a whole block joins the pending ones |
| `InodeBlocks.ReadBlocks` | fs/inodefile.hpp:141-183 | the same for inodes, with the exact gap that 16-bit counts leave: none if and only if there are fewer than 65536 whole blocks |
| `InodeBlocks.WholeIs` | fs/inodefile.hpp:149-175 | the pending blocks are exactly the whole blocks of the range |
| `Files.INodeFile.ReadCached` | fs/inodefile.hpp:34-44 | the bytes from the cache are those of the file at the cursor |
| `Files.INodeFile.Refresh` | fs/inodefile.hpp:53-57 | the cached block is the block of the file that the cursor is in |
| `Files.INodeFile.Read` | fs/inodefile.hpp:27-60 | the cursor advances by what was left, the cache still equals its block, the exact return value, and the exact bytes the buffer gets: those of the file at the cursor but for the gap of 16-bit counts and the cut at 32 bits |
| `Files.DeliveredWhole` | fs/inodefile.hpp:27-60 | below 2^32 bytes and 65536 whole blocks the buffer gets exactly the bytes of the file |
| `Files.NotDelivered` | fs/inodefile.hpp:27-60 | otherwise there is a byte that keeps what was in the buffer |
| `Files.INodeFile.Seek` | fs/inodefile.hpp:62-84 | moves the cursor if and only if the target is in the file |
| `Files.INodeFile.Dup` | fs/inodefile.hpp:90-99 | a second file at the same place with a cache of its own |
| `Checksums.WordSumSplit` | mod/core/netstack/checksum.hpp:8-19 | sums over pieces of even length add up |
| `Checksums.SumBytes` | mod/core/netstack/checksum.hpp:8-19 | the loop computes the sum of the bytes, each times 1 or 256 by the parity of its place, of any length, without overflow |
| `Checksums.WordSumIs` | mod/core/netstack/checksum.hpp:8-19 | the sum of words is the sum of bytes by their places |
| `Checksums.ChangedByteFails` | mod/core/netstack/layer/transport/tcp.cpp:22-39 | one changed byte of an accepted packet is always noticed |
| `Checksums.ToChecksum` | mod/core/netstack/checksum.hpp:21-26 | folding terminates and depends on the sum modulo 65535 only |
| `Checksums.AcceptedExact` | mod/core/netstack/checksum.hpp:21-26 | the checksum is zero if and only if the sum is a non-zero multiple of 65535 |
| `Checksums.BuildSegment` | mod/core/netstack/socket/inet/tcp.cpp:578-600 | a segment with any payload passes the check of the receiver |
| `Checksums.CheckSegment` | mod/core/netstack/layer/transport/tcp.cpp:22-39 | accepts if and only if the sum is a non-zero multiple of 65535 |
| `Checksums.FillHeader` | mod/core/netstack/layer/network/ipv4.cpp:181-184 | a filled header passes the check of the receiver |
| `Checksums.CheckHeader` | mod/core/netstack/layer/network/ipv4.cpp:63-67 | accepts if and only if the sum is a non-zero multiple of 65535 |

## Left out

- Hardware effects: TLB flushes, inter-processor interrupts, drivers and assembly. `aim_pptr` is a plain dereference.
- `gflags` of a pagemap is taken as 0, the only value the code gives it; `allocContinuous`, the destructor and the kernel half of the address space are not modelled.
- Paging.Pagemap.Alloc: a fixed range has to lie in the user half.
- Paging.Pagemap.Map: a range that would leave the user half is reported as a failure instead of being mapped.
- PhysAlloc.Phys.Alloc: one frame piece, as the page tables use it; PieceLists models the walks over several.
- PieceLists.PieceList.FreedTo: what clearing bits behind the first piece does to memory is not modelled.
- Slabs.Slab.FindFree: the loop stops at the last piece; the code compares with `<=` and would look past the bitmap when nothing fits.
- Heaps.Heap.Malloc: no concurrent callers; the address of a new slab is a parameter.
- Heaps.Heap.Free: for a pointer behind user bytes that imitate its sanity word nothing is promised but that the check passes; Slabs.Slab.Free says what is cleared if that stays inside the slab. The same holds for Heaps.Heap.Msize and Heaps.Heap.Realloc.
- Slabs.Slab.Free: memory outside the slab is not modelled: a header that would lie in front of the data counts as a failed check, and what a header with too large a length clears is left open.
- ScheduleRuns.DispatchedWithinN: a fixed ring; threads that join or leave the ring start a new run.
- Signal delivery, join, abort and process exit appear in the scheduler only as outsiders that take thread locks.
- TcpRuns.ReceivedIsPrefix: fewer than 2^32 bytes in each direction, as positions in the stream are numbered with 32 bits.
- TcpRecovery.AllSentArrives: fewer than 2^31 bytes in each direction, because beyond that an old acknowledgement can lose what would have to arrive.
- TCP connection setup and teardown, FIN, RST and options; a reset may happen at any time, and the step of `package` with a closed window is disabled. The window of a packet is taken when it is built.
- Timers of TCP: a retransmission may happen at any time.
- Blocks.ReadHandle: sector sizes are even and divide 65536, and devices take at least one sector per request.
- Files.INodeFile.Read: the inode is assumed to deliver the blocks that it is asked for; block sizes are powers of two below 65536.
- CircularBuffers.CircularBuffer.Read: the method ends where the code waits; waiting, the quota and the exit of an interrupted reader appear in the step machine. The same holds for CircularBuffers.CircularBuffer.Write.
- TcpSockets.TCPSocket.Package: holds the socket lock throughout; the release between rounds appears in the runs, where each round is an event of its own.
- TcpSockets.TCPSocket.PacketReceived: segments without SYN, FIN, RST and options.
- `CircularBuffer::resize`, reader-writer locks, path handling, date conversion, printing, system calls, ELF and ACPI parsing.
