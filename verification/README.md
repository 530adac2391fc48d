# Demand pager, scull devices and translate devices

A Dafny model of four parts of the repository, with proofs of what they are for.

**The demand pager (`working/`).** `vmem_read` and `vmem_write` give a program a flat
address space over a few frames, a page table, an inverse table and a page file; the
memory manager loads pages on demand and replaces them by FIFO, CLOCK or CLOCK2.
`PageTable` holds the tables and the policies as functions, `Runs` whole runs of accesses,
`ClockSweep` the closed forms of the clock hand, `LoadOrder` and `FaultWindows` what the
policies guarantee over runs, `Clock2Bound` and `Conservative` what CLOCK2 does and does not
guarantee, `Residency` the bijection of pages and frames, `PagedMemory` the memory as a
whole and its refinement of flat memory, `Dirty` what the CHANGED bit means over runs, and `Vmem` the two programs as they are
written: a class whose methods update the shared structure and are proved against those
functions. `FaultHandshake` splits the page fault into the steps of two processes with a
signal and a semaphore, and `Quicksort` is the demo application, which reaches its data
only through the pager.

**The scull block store (`Aufgabe4/scull/main.c`).** `Scull` is the linked list of
quantum sets in memory; `ScullStore` is its value, the addressing arithmetic and the
sparse byte file that it refines. `ScullProgram` is a program that writes, seeks and reads
in loops on the device in memory.

**The scull pipe (`Aufgabe4/scull/pipe.c`).** `PipeRing` is the circular buffer, `Pipe`
the device one call at a time, and `PipeProtocol` any number of readers and writers,
step by step, with the semaphore, the wait queues and the ring.

**The translate devices.** `Cipher` is the substitution in both versions,
`Translate` and `TranslatePipeline` the sequential ring of `Aufgabe4_final` and the two
devices in a row, `BoundedBuffer` the version of `Aufgabe4/vorlauf` with its counting
semaphores, step by step.

Sizes (pages, frames, page size, quantum, quantum set, buffers) are symbolic throughout,
every one at least 1.

Two places where the model records what the code does rather than what one might expect:

- CLOCK2 is not conservative. A policy is conservative if any window of accesses to at most as
  many pages as there are frames faults at most once per page; FIFO and CLOCK are, for all sizes.
  `ConservativeIff` gives the exact condition for CLOCK2: one frame, or a frame for every page.
  In all other sizes, the build's 128 pages and 16 frames included, windows of k pages fault
  up to exactly 2k - 1 times and up to twice on a page (`Clock2WorstCase`).
- A NUL byte does not survive the translate devices, because `strchr` also finds the
  terminator: it comes back as `[`. With 52 distinct letters it is the only one (`RoundTrip`),
  so that a stream comes back exactly as far as it holds no NUL (`PipelineRestores`).

## Model

| member | source | states |
|---|---|---|
| FaultWindows.WindowTheorem | working/mmanage.c:193-319 | from any consistent table, any window of accesses to at most as many pages as there are frames faults at most once on each page, and at most once per page of the window in all: under FIFO and CLOCK always, under CLOCK2 with one frame or a frame for every page |
| FaultWindows.WindowOfRun | working/mmanage.c:193-319 | the same for a window cut out of a run that starts with empty tables |
| FaultWindows.SweepKeeps | working/mmanage.c:236-256 | during a CLOCK fault the hand never stops at a page loaded in the window, and the sweep keeps the window invariant |
| FaultWindows.FifoStep | working/mmanage.c:224-234 | a FIFO fault inside the window loads a page that was not loaded in it before and keeps the window invariant |
| FaultWindows.AccessKeeps | working/vmaccess.c:77-96 | every access, hit or fault, keeps the window invariant of its policy; a page loaded in the window is still resident |
| Conservative.ConservativeIff | working/mmanage.c:193-319 | over all runs from vmem_init, windows after them, page counts and frame counts: a policy is conservative, by the number of loads and page by page, if and only if it is not CLOCK2, or there is one frame, or a frame for every page |
| Conservative.Clock2IsNotConservative | working/mmanage.c:283-319 | for every number of frames, every larger number of pages and every k up to the number of frames, CLOCK2 has a run from vmem_init after which reads of pages 0 to k - 1 and again 0 to k - 2 all fault |
| Conservative.Clock2WorstCase | working/mmanage.c:193-319 | with more pages than frames, k pages in the window and k at most the number of frames: over all runs from vmem_init CLOCK2 faults at most 2k - 1 times in the window and at most twice on a page, and both bounds are reached |
| Clock2Bound.Clock2Window | working/mmanage.c:193-319 | the same upper bounds from any consistent table, for any number of pages |
| Clock2Bound.EvictStarts | working/mmanage.c:283-346 | when CLOCK2 first replaces a page accessed in the window, no resident page outside it has more than one reference left |
| Clock2Bound.RecentStays | working/mmanage.c:283-319 | a page that came in after that is not replaced for the rest of the window |
| Conservative.MissLayout | working/mmanage.c:283-346 | the frames, hand and reference counts after a CLOCK2 fault, computed from those before it and the least count |
| ClockSweep.SweepClosedForm | working/mmanage.c:236-256 | for CLOCK and CLOCK2: with m the least weight, the hand stops at the first frame of weight m; frames strictly before it are passed m + 1 times, all others m times, nothing else changes; the loop makes m turns and the way to the victim in rounds |
| ClockSweep.PolicyChooses | working/mmanage.c:212-319 | with all frames occupied FIFO takes the hand's frame, CLOCK gives a second chance in terms of the first used bits, CLOCK2 takes the first frame from the hand with the fewest references; the hand ends behind the chosen frame |
| ClockSweep.ClockSecondChance | working/mmanage.c:236-256 | the CLOCK victim is the first frame from the hand with a clear used bit, or the hand's own if there is none; exactly the passed frames lose the bit |
| ClockSweep.Clock2Victim | working/mmanage.c:283-319 | from any consistent table, CLOCK2 in terms of both used bits: the first is left where a reference is, the second where two are or where it was set without the first; PRESENT, CHANGED, frames and absent pages unchanged |
| ClockSweep.Clock2VictimOfRun | working/mmanage.c:283-319 | after any run from vmem_init under CLOCK2 no page has the second used bit without the first, and after a search the second bit is left exactly where two references are |
| ClockSweep.SweepBound | working/mmanage.c:236-319 | every round of the loop takes exactly one reference away, and a search ends after at most NFRAMES rounds under CLOCK and twice as many under CLOCK2 |
| PageTable.PassHandSound | working/mmanage.c:239-251 | one round of either loop keeps the tables consistent, lowers exactly the weight of the hand's frame by one, and so the sum of all weights |
| PageTable.ChooseSound | working/mmanage.c:193-222 | choosing a frame takes a free one while there is one, and changes nothing about any page but its used bits |
| PageTable.RewireSound | working/mmanage.c:322-346 | unloading the victim and loading the page keeps page table and inverse table inverse; the victim is left with no flags and no frame |
| PageTable.FaultSound | working/mmanage.c:110-146 | after a fault the tables are consistent and the requested page is present |
| PageTable.TouchSound | working/vmaccess.c:88-96 | countUsed and the CHANGED bit of a resident page keep the tables consistent |
| PageTable.TouchFlags | working/vmaccess.c:88-132 | an access sets the first used bit, the second one if the first was set, CHANGED only if it writes; it clears no bit and touches no other page |
| PageTable.NextIsModulo | working/mmanage.c:231-234 | the rotation by comparison used in the proofs is the remainder of the source |
| Residency.FramesHoldResidentPages | working/mmanage.c:322-350 | the occupied frames hold exactly the resident pages, each once; both tables agree in both directions; their number is size |
| Residency.ResidentAfterRun | working/mmanage.c:193-210 | after any run from the start, under any policy, the number of resident pages is the smaller of the number of loads and the number of frames |
| LoadOrder.FifoReplacesInLoadOrder | working/mmanage.c:193-234 | FIFO replaces exactly the loaded pages in load order, load i by load i + nframes; read cyclically from the hand, the frames are the last nframes loads |
| Runs.InitConsistent | working/mmanage.c:405-429 | the tables that vmem_init sets up are consistent |
| PagedMemory.FaultTransparent | working/mmanage.c:110-146 | a page fault leaves the content of every page alone, whatever is replaced |
| PagedMemory.SkippedWriteBackIsSound | working/mmanage.c:258-270 | in one fault, the page file after the conditional write-back is the one that writing back the victim unconditionally would leave |
| PagedMemory.SkippedWriteBackInRuns | working/mmanage.c:258-270 | after every run from a sound memory, tables, frames and page file are those of a manager that writes every victim back |
| PagedMemory.NothingStoredForVoid | working/mmanage.c:123-128 | in every fault of every run from vmem_init the CHANGED bit behind VOID_IDX is clear when it is tested, the victim is VOID_IDX exactly while a frame is free, and until then the page file stays as it was at the start |
| Dirty.ChangedIffWritten | working/vmaccess.c:77-132 | after any run from vmem_init, under any policy, a resident page is marked CHANGED if and only if the run holds a write to it that no later load of it follows |
| Dirty.StoresExactlyTheWritten | working/mmanage.c:258-270 | in every fault of every run the victim is stored if and only if it was written since its last load |
| Dirty.ReadersStoreNothing | working/vmaccess.c:77-96 | a program that only reads leaves every page unmarked and the page file as it was |
| Dirty.AccessChanges | working/vmaccess.c:49-132 | one access under any policy: a load clears CHANGED, a write sets it, a read and accesses to other pages leave it |
| PagedMemory.AccessRefines | working/vmaccess.c:49-132 | one vmem_read returns the cell of the flat memory, one vmem_write changes exactly that cell |
| PagedMemory.PagingIsFlatMemory | working/vmaccess.c:49-132 | from the start, for every run, policy and frame count, every read returns the last value written to its address or the initial page file value |
| PagedMemory.PolicyIsInvisible | working/mmanage.c:212-222 | outputs and final memory of a run are the same for every policy and number of frames |
| PagedMemory.AddressSplit | working/vmaccess.c:55-56 | every address of the virtual memory has its page inside the page table, and page and offset determine it |
| Vmem.VmemStruct.constructor | working/mmanage.c:386-437 | vmem_init and the given page file yield the initial memory, in which every address holds the value at its place in the file |
| Vmem.VmemStruct.RotateAllocIdx | working/mmanage.c:231-234 | moves the hand one frame on, cyclically |
| Vmem.VmemStruct.FindRemoveFifo | working/mmanage.c:224-228 | takes the hand's frame and moves the hand |
| Vmem.VmemStruct.FindRemoveClock | working/mmanage.c:236-256 | the loop ends in the state of the CLOCK sweep, with the hand just past the victim, after the counted number of rounds |
| Vmem.VmemStruct.FindRemoveClock2 | working/mmanage.c:283-319 | the loop ends in the state of the CLOCK2 sweep, with the hand just past the victim, after the counted number of rounds |
| Vmem.VmemStruct.FindRemoveFrame | working/mmanage.c:193-210 | free frames first, then the policy |
| Vmem.VmemStruct.StorePage | working/mmanage.c:258-270 | writes the block of a changed page to the page file and nothing otherwise |
| Vmem.VmemStruct.FetchPage | working/mmanage.c:272-281 | copies the block of the page file into the frame of the page |
| Vmem.VmemStruct.UpdateUnload | working/mmanage.c:332-339 | the entry is left without flags and frame |
| Vmem.VmemStruct.UpdateLoad | working/mmanage.c:341-346 | both tables map the requested page and the frame to each other, PRESENT is set |
| Vmem.VmemStruct.UpdatePt | working/mmanage.c:322-330 | unloads the old page of the frame and loads the requested one |
| Vmem.VmemStruct.PageFault | working/mmanage.c:110-146 | the handler computes the fault of the value model and leaves the flat memory as it was |
| Vmem.VmemStruct.CountUsed | working/vmaccess.c:88-96 | the first used bit is set, the second if the first already was; PRESENT, CHANGED and the frame stay |
| Vmem.VmemStruct.ReadPage | working/vmaccess.c:77-86 | counts the reference, leaves CHANGED as it is and returns the cell of the page's frame |
| Vmem.VmemStruct.WritePage | working/vmaccess.c:122-132 | counts the reference, marks the page changed and sets exactly one cell |
| Vmem.VmemStruct.VmemRead | working/vmaccess.c:49-75 | returns the last value written to the address since the start, leaves the flat memory alone and marks no page CHANGED |
| Vmem.VmemStruct.VmemWrite | working/vmaccess.c:98-120 | changes exactly one address of the flat memory and marks its page CHANGED |
| FaultHandshake.HandshakeIsAtomic | working/vmaccess.c:58-72 | in every interleaving of client and manager, memory and read values between accesses are those of atomic accesses; semaphore, pending signal and running handler are one token, held only while the client waits |
| FaultHandshake.ClientTouchesFetchedPages | working/mmanage.c:128-146 | although PRESENT is set before the fetch, a client that touches a frame finds its page present and fetched |
| FaultHandshake.WaitingClientResumes | working/mmanage.c:148-161 | a waiting client can go on, or only the manager can move and each of its steps brings the client closer |
| FaultHandshake.ManagerKeeps | working/mmanage.c:110-146 | every step of the handler keeps the protocol invariant |
| FaultHandshake.ClientKeeps | working/vmaccess.c:98-132 | every step of the client keeps the protocol invariant |
| Quicksort.Sort | working/vmappl.c:63-86 | terminates with the cells l..r sorted, permuted, all other cells unchanged and no other address accessed |
| Quicksort.Partition | working/vmappl.c:66-81 | splits l..r at the pivot by moving indices and swaps through the pager |
| Quicksort.Swap | working/vmappl.c:88-94 | exchanges two cells through the pager |
| Quicksort.SortResultUnique | working/vmappl.c:63-86 | sorted, permuted and unchanged elsewhere determines the memory |
| Quicksort.SortBoth | working/vmappl.c:63-86 | two pagers with equal cells, whatever their policies, frame counts and tables, have equal cells after sorting both |
| ScullStore.PositionOfLocate | Aufgabe4/scull/main.c:161-164 | item, index in the set and offset determine the position |
| ScullStore.LocateOfPosition | Aufgabe4/scull/main.c:201-204 | every item, index and offset in range is the place of its position |
| ScullStore.SameQuantum | Aufgabe4/scull/main.c:172-174 | positions up to the end of a quantum lie in the same block at consecutive offsets |
| ScullStore.OffsetInQuantum | Aufgabe4/scull/main.c:161-164 | the offset in the quantum is the position modulo the quantum, whatever the quantum set |
| ScullStore.FollowUnseen | Aufgabe4/scull/main.c:114-138 | growing the list changes no byte of the file |
| ScullStore.FollowExtends | Aufgabe4/scull/main.c:114-138 | the list grows by empty quantum sets up to the item asked for and no further |
| ScullStore.WriteUpdates | Aufgabe4/scull/main.c:188-239 | a write sets exactly the positions from f_pos on that it reports, keeps every other byte, and sets the size to the maximum |
| ScullStore.WriteProgress | Aufgabe4/scull/main.c:221-223 | a write accepts exactly min(count, quantum - f_pos mod quantum) bytes, so something whenever something is offered, and stays inside one quantum |
| ScullStore.WriteExtends | Aufgabe4/scull/main.c:201-206 | a write makes the list long enough for its item and no longer |
| ScullStore.ReadReturns | Aufgabe4/scull/main.c:144-186 | a read returns the bytes of the file, inside file and outside holes exactly min(count, size - f_pos, quantum - f_pos mod quantum) of them, and nothing exactly at the end, in a hole or for count 0 |
| ScullStore.ReadExtends | Aufgabe4/scull/main.c:155-167 | a read beyond the end leaves the list alone, one inside makes it long enough for its item and no longer |
| ScullStore.WriteSeekRead | Aufgabe4/scull/main.c:375-399 | writing a buffer in a loop from any position a seek reaches, seeking back and reading in a loop returns the buffer, for any quantum, qset and device state |
| ScullStore.SeekReaches | Aufgabe4/scull/main.c:375-399 | SEEK_SET gives the position asked for in every state, SEEK_CUR and SEEK_END count from f_pos and from the end, and each is refused exactly in front of the start |
| ScullStore.SeekEndAppends | Aufgabe4/scull/main.c:389-391 | seeking to the end and writing in a loop keeps every byte, puts the data behind the old end and makes the file longer by exactly that much |
| ScullProgram.WriteSeekRead | Aufgabe4/scull/main.c:144-239 | on the device in memory, in any state: seeking, writing a buffer in a loop of calls, seeking back and reading in a loop of calls returns the buffer, and every other byte of the file is kept |
| ScullProgram.Append | Aufgabe4/scull/main.c:188-239 | on the device in memory, seeking to the end and writing in a loop of calls appends |
| ScullProgram.Seek | Aufgabe4/scull/main.c:375-399 | the new position, or an error for a negative one |
| Scull.ScullDev.Follow | Aufgabe4/scull/main.c:114-138 | returns node n of the list, extended by empty quantum sets where needed |
| Scull.ScullDev.Read | Aufgabe4/scull/main.c:144-186 | refines the read of the value model and returns exactly min(count, size - f_pos, quantum - f_pos mod quantum) bytes in the file, none beyond it or in a hole |
| Scull.ScullDev.Write | Aufgabe4/scull/main.c:188-239 | refines the write of the value model, with newly allocated quanta uncleared, and accepts exactly min(count, quantum - f_pos mod quantum) bytes |
| Scull.ScullDev.Trim | Aufgabe4/scull/main.c:63-84 | leaves an empty device with the current parameters |
| PipeRing.QueuedPlusFree | Aufgabe4/scull/pipe.c:182-187 | queued bytes and free space add up to buffersize - 1; the queue is empty exactly when the pointers are equal |
| PipeRing.ReadStep | Aufgabe4/scull/pipe.c:139-149 | a read takes a prefix of the queue, non-empty for a non-zero count, also across the wrap |
| PipeRing.WriteStep | Aufgabe4/scull/pipe.c:204-216 | a write appends a prefix of the request, also across the wrap |
| PipeRing.WriteChunkFits | Aufgabe4/scull/pipe.c:204-208 | what a write accepts fits before the end and before the read pointer, and is non-empty when there is space |
| Pipe.ScullPipe.Read | Aufgabe4/scull/pipe.c:119-156 | removes a prefix of the queue of exactly the length the source computes, or reports that there is nothing |
| Pipe.ScullPipe.Write | Aufgabe4/scull/pipe.c:189-227 | appends a prefix of the data of exactly the length the source computes, or reports that there is no space |
| Pipe.ScullPipe.Open | Aufgabe4/scull/pipe.c:62-91 | an open allocates the buffer if there is none and leaves the pipe empty with all its space free, also when it was open and in use before |
| PipeProtocol.NoLostWakeUp | Aufgabe4/scull/pipe.c:127-187 | in every interleaving of any number of processes, the separate loads of the tests without the semaphore included, a writer sleeps only while the pipe holds buffersize - 1 bytes or a reader is still to wake it; a reader only while it is empty or a writer is still to wake it |
| PipeProtocol.BytesInOrder | Aufgabe4/scull/pipe.c:119-227 | in every interleaving the bytes delivered are a prefix of the bytes accepted, at most buffersize - 1 behind |
| PipeProtocol.NoDeadlock | Aufgabe4/scull/pipe.c:127-179 | readers and writers can only be asleep on each other if the buffer has one byte |
| PipeProtocol.OneByteDeadlocks | Aufgabe4/scull/pipe.c:182-187 | over a buffer of one byte, whatever readers and writers there are, all of them can end up asleep, and with at least one of each, on each other |
| PipeProtocol.StepKeeps | Aufgabe4/scull/pipe.c:119-227 | every step of every process keeps mutual exclusion, the ring, the logs and the sleepers' invariant |
| PipeProtocol.LoadCalm | Aufgabe4/scull/pipe.c:170-187 | a test without the semaphore that loads the pointers one after the other, in any order, each once or again, while others move them, only sends a process to sleep that has nothing to do |
| PipeProtocol.EveryProcessCanMove | Aufgabe4/scull/pipe.c:119-227 | no guard of the step model holds a process back in a sound state |
| PipeProtocol.CheckDecides | Aufgabe4/scull/pipe.c:127-208 | holding the semaphore, a process goes to sleep exactly if the pipe is empty, or full, and otherwise transfers exactly as much as the source computes |
| Cipher.RoundTripIff | Aufgabe4_final/translate.c:23-59 | for 52 characters, decoding undoes encoding on all non-NUL bytes exactly if they are 52 distinct letters |
| Cipher.EncodesByPosition | Aufgabe4_final/translate.c:23-59 | the i-th of a..z is encoded as character i of the parameter, the i-th of A..Z as character 26 + i, every other byte as itself |
| Cipher.DecodesByPosition | Aufgabe4_final/translate.c:30-49 | a character first found at position i of the parameter is decoded as the i-th of a..zA..Z, NUL as an opening bracket, every other byte as itself |
| Cipher.PositionsDecide | Aufgabe4_final/translate.c:23-59 | these two descriptions hold of no other byte |
| Cipher.RoundTrip | Aufgabe4_final/translate.c:23-59 | with 52 distinct letters a byte comes back from encoding and decoding exactly if it is not NUL |
| Cipher.NulIsNotRestored | Aufgabe4_final/translate.c:30-40 | whatever the parameter, NUL is not encoded, but decoded to an opening bracket |
| Cipher.VersionsAgree | Aufgabe4/vorlauf/translate/translate.c:34-69 | the earlier and the final encoder and decoder agree on every byte, for every 52 characters |
| Cipher.StrChr | Aufgabe4_final/translate.c:31 | the first position of a byte, the terminator included |
| Translate.TranslateDev.Write | Aufgabe4_final/translate.c:109-159 | appends as many bytes as fit; device 0 encodes each by its position in the alphabet, any other device stores it as it is |
| Translate.TranslateDev.Read | Aufgabe4_final/translate.c:164-201 | removes as many bytes as there are; device 1 decodes each by its position in the parameter, any other device hands it out as it is |
| Translate.TranslateDev.Put | Aufgabe4_final/translate.c:133-155 | one round of the write loop: device 0 encodes the byte, any other device does not |
| Translate.TranslateDev.Take | Aufgabe4_final/translate.c:182-197 | one round of the read loop: device 1 decodes the byte, any other device does not |
| TranslatePipeline.PipelineDelivers | Aufgabe4_final/translate.c:109-201 | through both devices, for every parameter of 52 characters, all bytes and pieces of any size, what comes out is a prefix of what went in, encoded and decoded, and the rest is what the rings and the carrier hold |
| TranslatePipeline.CallConserves | Aufgabe4_final/translate.c:109-201 | every call, whatever the bytes, keeps accepted, encoded and decoded, = delivered + decoded rest |
| TranslatePipeline.PipelineRestores | Aufgabe4_final/translate.c:109-201 | with 52 distinct letters the bytes delivered are the first ones accepted, if and only if no NUL is among those |
| TranslatePipeline.Perform | Aufgabe4_final/translate.c:109-201 | every call on the line is the call on the device in memory |
| BoundedBuffer.BoundedBufferWorks | Aufgabe4/vorlauf/translate/translate.c:182-385 | in every interleaving free slots, announced items and held ones add up to bufsize, and the bytes delivered are the bytes accepted, in order, encoded by device 0 and decoded by device 1 by position |
| BoundedBuffer.EndsByPosition | Aufgabe4/vorlauf/translate/translate.c:34-69 | device 0 encodes on the way in, device 1 decodes on the way out, and neither does anything at its other end |
| BoundedBuffer.NeverTheSameCell | Aufgabe4/vorlauf/translate/translate.c:207-254 | reader and writer never work on the same cell |
| BoundedBuffer.ReaderSeesEncoded | Aufgabe4/vorlauf/translate/translate.c:239-258 | the reader never starts on a byte before it is encoded |
| BoundedBuffer.NotBothBlocked | Aufgabe4/vorlauf/translate/translate.c:185-314 | reader and writer never wait for each other |
| BoundedBuffer.WriterKeeps | Aufgabe4/vorlauf/translate/translate.c:182-264 | every step of the writer keeps the invariant |
| BoundedBuffer.ReaderKeeps | Aufgabe4/vorlauf/translate/translate.c:300-385 | every step of the reader keeps the invariant |
| BoundedBuffer.EndsCancel | Aufgabe4/vorlauf/translate/translate.c:34-57 | with 52 distinct letters, what translate0 does to a byte is undone by translate1 exactly if the byte is not NUL |

## Left out

- Shared memory mapping, signal handler installation, file opening, logging, dumps and module plumbing; the page file is an array and transfers to and from it succeed.
- Vmem.VmemStruct.PageFault: is called directly where the client sends the signal; that the signal and the semaphore make it so is the subject of FaultHandshake.
- The value of pf_count: in the C layout it shares its memory with the flags of the entry behind VOID_IDX, which the model gives a slot of its own; faults are counted as the length of Loads.
- The flag word of a page table entry is four booleans, since no other bit is ever set.
- Signals other than SIGUSR1 during a fault, and more than one client of the pager.
- The exit of find_remove_frame for a missing frame, which cannot be reached.
- Integer widths: addresses, positions and counts are unbounded, so the casts to int in scull_read and scull_write are not modelled.
- Quicksort.Partition: the order in which the two operands of a comparison are read is fixed, which C leaves open.
- Scull.ScullDev.Trim: does not model the freeing of memory, only that the list is gone.
- Failing user copies and allocations, interrupted calls of the sequential devices, and the O_NONBLOCK flag as a property of a file: in PipeProtocol it is a choice at every call.
- Concurrent calls of the scull block store and of the final translate devices; the shared items counter of the earlier translate device, which nothing depends on.
- PipeProtocol.NoLostWakeUp: is about the time between opens, because an open resets the buffer without waking anyone.
- open and close of the translate devices: one reader and one writer are assumed, which the open locks are for.
- ioctl, poll, fasync and access.c: independent of the data paths modelled here.
- Aufgabe3/, probe/, Aufgabe4/echt, Aufgabe4/yolo and Aufgabe4/try: earlier or duplicate versions.
