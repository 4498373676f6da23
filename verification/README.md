# DSA offload: verified model

This project models the core of a code base around Intel's Data Streaming Accelerator: the DTO library, which
shares memset, memcpy and memmove between the CPU and the accelerator; the idxd kernel driver, which hands
descriptors to the device and cleans up after it; the accel-config test library, which resumes faulted jobs and
recomputes checksums; and kernel tests that copy shuffled pages in batches. `dafny verify dfyconfig.toml` checks
all of it.

| file | part of the system |
|---|---|
| `Memory.dfy`, `Chunking.dfy`, `Dto.dfy` | DTO's split memory operations |
| `Tuner.dfy` | DTO's auto-tuner |
| `DescLifecycle.dfy`, `AbortDesc.dfy` | descriptor ownership in the driver, and the abort of a refused descriptor |
| `IntHandle.dfy` | revocation of interrupt handles |
| `EventLog.dfy`, `EvlInterrupt.dfy`, `FaultWork.dfy` | the event log, its interrupt, and its fault work |
| `Perfmon.dfy`, `PerfEvents.dfy` | performance counters |
| `Sysfs.dfy`, `GroupConfig.dfy` | resource accounting and group registers |
| `Resume.dfy`, `Dif.dfy`, `Crc.dfy` | resumed copies, resumed data-integrity jobs, CRC32C |
| `Shuffle.dfy` | shuffled page copies |
| `Basics.dfy` | shared definitions |

## How it is modelled

Code that updates state is a class or a method with loops, proved against a specification function or a
property. Three protocols run concurrently (descriptors, interrupt handles, the event-log interrupt); each is a
state machine whose actions are the atomic sections of the code, and its theorems hold for every interleaving.

The device, the random number generator, allocation failures and the values that other threads give to DTO's
knobs are arbitrary functions or arguments, so that a theorem holds for all of them. Assumptions about them:

- The device copies downwards exactly when an upward copy would destroy source bytes, and reports that direction
  only for a page fault. A failed job may leave anything in its destination, except that a failed overlapping
  copy has written nothing. A job beyond the queue's transfer limit always ends in an error that writes nothing
  (`Dto.Dto.Verdict`). In `Dto.dfy` a job's effect is applied when its wait returns;
  `Dto.CpuShareCommutes`, `Dto.CpuFillCommutes` and `Memory.AnyOrderIsMove` show that the moment does not matter.
- Fractions are real numbers in [0, 1). Every chunk threshold fits the 32-bit variable that holds it
  (`Dto.Dto.Valid`): beyond that the conversion in dto.c:1087 is undefined.
- Addresses do not wrap around. `memcpy` gets disjoint buffers, as C demands.
- The CRC tables are defined by their recurrence. A machine word is the sequence of its bits.
- The device logs an event only while its tail is not one slot behind its head register; it may do so between any
  two of the driver's steps. `perfmon` has at most 64 counters, the length of the
  driver's event list.
- `DescLifecycle` covers dedicated queues and descriptors that request an interrupt. Before the flush the device
  has been drained, so that it writes no further completion record.

## Where the code and its promises differ

The model follows the code. Each of these has the exact condition as a theorem.

- A `memmove` that reaches the device, runs upwards into its own source, is longer than the chunk threshold and
  moves anything with its first chunk is wrong (`Dto.Dto.Memmove`, `Chunking.ChunkedMoveCorrectIff`):
  dto.c:1176-1214 copies the chunks from low to high. The first chunk moves nothing exactly if it has no CPU share
  and its job is beyond the transfer limit (`Dto.Dto.NothingStarts`); then the CPU redoes the whole copy.
- dto.c:1181-1182 does not split a chunk of overlapping buffers although the threshold was computed for a split,
  and dto.c:1184 splits any other copy chunk with the live fraction, not with the snapshot that sized it; both let
  a job exceed the transfer limit (`Chunking.JobFitsIff`).
- submit.c:138 completes `found` where each finished descriptor is meant, and the comment at submit.c:208 says
  that the abort frees the descriptor although its caller does (`AbortDesc.AbortRightIff`,
  `AbortDesc.RefusedSubmission`, `AbortDesc.FinishedAreLeaked`).
- irq.c:169 invalidates the handle while the reference is live and submitters may be inside, so that an outdated or
  an invalid handle can be sent (`IntHandle.FailedRequestKeepsPromiseIff`).
- sysfs.c:748 checks a sum that can wrap around (`Sysfs.Idxd.WqSizeStore`; `Sysfs.WrappingStore` is an accepted size
  that does).
- device.c:674-702 forgets all reservations but not the count of free read buffers (`Sysfs.Idxd.DeviceClearState`).
- perfmon.c:285 looks an event up in the place of its counter's number, but perfmon.c:386-387 moves later events
  down one place. Right after a deletion the handler still finds every event exactly if the deleted one was among
  the two newest (`PerfEvents.LookupAfterDeleteIff`); over all later additions, exactly if it was the newest
  (`PerfEvents.LookupAfterAddsIff`); places of unwatched counters do not matter. `PerfEvents.MissedOverflow` is a
  run in which an overflow is credited to another event.
- dsa_prep.c:656 resumes the source reference tag of an update from the destination's. That is right in every run
  of this program, because dsa_prep.c:614-618 and 744-748 prepare both with the same seed and the same flags, and
  it would be wrong for any update with different seeds (`Dif.UpdateTagsRightIff`).
- accel_test.h:264-276 repairs a write fault by flipping a byte that an overlapping copy may still have to read
  (`Resume.FlippingRepairCorrectIff`).
- The split over several queues leaves table entries without a page unless the number of queues divides the
  number of pages (`Shuffle.TablesFullIff`).

## Model

| member | source | states |
|---|---|---|
| Memory.InternalMemcpymove | DSA_Userspace_Test/DSA_Library_References/dto_and_libaccel/dto/dto.c:1287-1304 | The two-direction byte loop used before initialisation is one memmove for every overlap. Every byte is stated. |
| Memory.InternalMemset | DSA_Userspace_Test/DSA_Library_References/dto_and_libaccel/dto/dto.c:1276-1285 | The byte loop used before initialisation: every byte of the range becomes the one that differs from `c` by a multiple of 256, and no other byte changes. |
| Memory.CopyInOrderCell | DSA_Userspace_Test/DSA_Library_References/dto_and_libaccel/dto/dto.c:1161-1170 | Between disjoint buffers single-byte copies by two agents in any order write exactly the bytes they name, each with its original source. |
| Memory.AnyOrderIsMove | DSA_Userspace_Test/DSA_Library_References/dto_and_libaccel/dto/dto.c:1161-1170 | Any order of byte copies, with repetitions, that names every offset performs the whole copy. |
| Chunking.DeviceShareFits | DSA_Userspace_Test/DSA_Library_References/dto_and_libaccel/dto/dto.c:1085-1097 | For every fraction in [0, 1), a chunk no longer than the threshold leaves the device at most one full transfer. |
| Chunking.JobFitsIff | DSA_Userspace_Test/DSA_Library_References/dto_and_libaccel/dto/dto.c:1172-1190 | The copy loop sizes chunks with a snapshot of the fraction but splits them with its live value, and does not split a chunk of overlapping buffers; the job stays within every transfer limit exactly when the snapshot is not above the live value, or, for overlapping buffers, is zero. |
| Chunking.ChunksAreOneMove | DSA_Userspace_Test/DSA_Library_References/dto_and_libaccel/dto/dto.c:1176-1214 | Chunks copied from low to high addresses make one memmove when the destination is not above the source or the buffers are disjoint. |
| Chunking.ChunkedMoveCorrectIff | DSA_Userspace_Test/DSA_Library_References/dto_and_libaccel/dto/dto.c:1176-1214 | A copy in non-empty chunks is right for every memory content exactly when it is a single chunk or the destination does not lie strictly above the source and inside it. |
| Chunking.ChunksLoseMark | DSA_Userspace_Test/DSA_Library_References/dto_and_libaccel/dto/dto.c:1176-1214 | In the remaining case a byte marked at the first clobbered offset disappears from memory altogether. |
| Dto.CpuShareCommutes | DSA_Userspace_Test/DSA_Library_References/dto_and_libaccel/dto/dto.c:1161-1170 | The CPU's share and the device's share of a disjoint copy commute, however the device ends. |
| Dto.CpuFillCommutes | DSA_Userspace_Test/DSA_Library_References/dto_and_libaccel/dto/dto.c:1075-1083 | The CPU's share and the device's share of a fill commute, however the device ends. |
| Dto.OverlappingIffShared | DSA_Userspace_Test/DSA_Library_References/dto_and_libaccel/dto/dto.c:1125-1131 | Buffers may be split exactly if they do not even touch. |
| Dto.CopyResumes | DSA_Userspace_Test/DSA_Library_References/dto_and_libaccel/dto/dto.c:1390-1411 | However the device ends a job of an upward copy, copying the rest on the CPU completes the whole copy. |
| Dto.WholeCopyResumes | DSA_Userspace_Test/DSA_Library_References/dto_and_libaccel/dto/dto.c:1442-1463 | The same for one job that covers an overlapping copy, forward or backward, with the direction taken from the completion record. |
| Dto.ChunkAdvances | DSA_Userspace_Test/DSA_Library_References/dto_and_libaccel/dto/dto.c:1190-1209 | One chunk after a finished prefix, under every device answer: the device copies forward, the rest remains copyable, and success extends the prefix by the chunk. |
| Dto.ChunkedRunFails | DSA_Userspace_Test/DSA_Library_References/dto_and_libaccel/dto/dto.c:1176-1214 | A chunked upward-overlapping copy, completed or cut short by rejected jobs, with or without the CPU's final memmove, differs from a memmove when one byte is marked at the first clobbered offset. |
| Dto.ChunkMoves | DSA_Userspace_Test/DSA_Library_References/dto_and_libaccel/dto/dto.c:1195-1208 | A chunk whose job completes is one move of the whole chunk; one whose job is rejected moves exactly the CPU's share. |
| Dto.Dto.DsaSubmit | DSA_Userspace_Test/DSA_Library_References/dto_and_libaccel/dto/dto.c:413-427 | A job is accepted exactly if one of three ENQCMD attempts is. |
| Dto.Dto.DsaWait | DSA_Userspace_Test/DSA_Library_References/dto_and_libaccel/dto/dto.c:394-411 | The job's effect, the bytes counted as completed, the direction and the return code for each way the device can end. |
| Dto.Dto.FillChunk | DSA_Userspace_Test/DSA_Library_References/dto_and_libaccel/dto/dto.c:1089-1110 | A fill chunk of which k bytes are counted leaves exactly its own rest to be filled; success counts all of it. |
| Dto.Dto.DtoMemset | DSA_Userspace_Test/DSA_Library_References/dto_and_libaccel/dto/dto.c:1050-1120 | Under every sequence of answers and knob values a prefix is done and counted, every job fits one transfer and has exactly the device's share, and the device is used until a job is not completed or less is left than the offload minimum. |
| Dto.Dto.DtoMemsetChunks | DSA_Userspace_Test/DSA_Library_References/dto_and_libaccel/dto/dto.c:1085-1118 | The chunk loop: the same, with termination; each job but the last is the device's share of a full chunk, and none is submitted with fewer bytes left than the minimum read before it. |
| Dto.Dto.Memset | DSA_Userspace_Test/DSA_Library_References/dto_and_libaccel/dto/dto.c:1319-1366 | memset sets each of its n bytes to the one that differs from `c` by a multiple of 256, and no other byte, under every sequence of device answers and knob values; it uses the device exactly unless the operation is below the offload minimum. |
| Dto.Dto.CopyChunk | DSA_Userspace_Test/DSA_Library_References/dto_and_libaccel/dto/dto.c:1189-1206 | One chunk of a copy does to memory what the device's answer says, with the CPU's share copied meanwhile. |
| Dto.Dto.DtoMemcpymove | DSA_Userspace_Test/DSA_Library_References/dto_and_libaccel/dto/dto.c:1133-1216 | Nothing outside the destination is touched; if the copy is recoverable, the CPU can complete it from the bytes counted and the recorded direction; otherwise, with a device that completes what it can, memory is what the low-to-high chunks make of it; and when every job is within the transfer limit. The device is used until a job is not completed or less is left than the offload minimum. |
| Dto.Dto.DtoMemcpymoveChunks | DSA_Userspace_Test/DSA_Library_References/dto_and_libaccel/dto/dto.c:1171-1215 | The chunk loop: the same, with the live fraction re-read for each chunk, and termination; every job is at most the threshold, within the transfer limit if the fraction does not fall or is zero, and the size of the first one exactly. No chunk but the first is started with fewer bytes left than that minimum. |
| Dto.Dto.NextChunk | DSA_Userspace_Test/DSA_Library_References/dto_and_libaccel/dto/dto.c:1176-1208 | One turn of the loop keeps what holds between chunks, or leaves a copy that the CPU can complete, or the record of what a copy bound to fail has done so far. |
| Dto.Dto.FirstChunk | DSA_Userspace_Test/DSA_Library_References/dto_and_libaccel/dto/dto.c:1171-1208 | The first job of an upward-overlapping copy covers all of it, or is rejected with nothing moved, or some part of the chunk is moved and destroys the same byte first. |
| Dto.Dto.Memcpy | DSA_Userspace_Test/DSA_Library_References/dto_and_libaccel/dto/dto.c:1368-1418 | memcpy on disjoint buffers leaves memory as one copy would, under every sequence of answers and knob values and any stale completion record; its jobs are within the transfer limit if the fraction never falls below the one that sized the chunks. Every byte is stated. The device is used exactly unless the operation is below the offload minimum. |
| Dto.Dto.Memmove | DSA_Userspace_Test/DSA_Library_References/dto_and_libaccel/dto/dto.c:1420-1470 | memmove is right for every device and every memory when the destination is not above the source, the buffers are disjoint, it fits one chunk, it never reaches the device, or its first chunk moves nothing; otherwise a device that completes every job within its limit already gives a wrong result on the marked memory. The device is used exactly unless the operation is below the offload minimum. |
| Tuner.Tuner.DsaWaitAndAdjust | DSA_Userspace_Test/DSA_Library_References/dto_and_libaccel/dto/dto.c:353-392 | One wait moves the tuner's counters and knobs as the step function says. |
| Tuner.RunStaysUsable | DSA_Userspace_Test/DSA_Library_References/dto_and_libaccel/dto/dto.c:353-392 | Over all runs the CPU's fraction stays in [0, 1) and the smallest offloaded size positive. |
| Tuner.KnobsRestBetweenWindows | DSA_Userspace_Test/DSA_Library_References/dto_and_libaccel/dto/dto.c:353-392 | The knobs move only at every 256th descriptor: the next 255 waits leave them alone. |
| Tuner.StepFollowsWaits | DSA_Userspace_Test/DSA_Library_References/dto_and_libaccel/dto/dto.c:339-392 | After a window with long waits the CPU's share grows by 0.01 while it is below 0.9, else the minimum by 1024 up to the bound; short waits do the reverse; waits inside the band change nothing. |
| Tuner.WindowAdjusts | DSA_Userspace_Test/DSA_Library_References/dto_and_libaccel/dto/dto.c:353-392 | Over a whole window of sixteen descriptors the same, decided by the sum of all their waits. |
| Resume.Task.ReprepMemcpy | DSA_Userspace_Test/DSA_Library_References/accel-config_references/dsa_prep.c:71-92 | The descriptor becomes what the partial completion has left, and memory is repaired at the faulting byte. |
| Resume.Task.WaitMemcpy | DSA_Userspace_Test/DSA_Library_References/accel-config_references/dsa.c:772-794 | The resume loop, for every finite sequence of faults followed by completion. |
| Resume.ResumedMoveIsMove | DSA_Userspace_Test/DSA_Library_References/accel-config_references/dsa_prep.c:71-92 | After any number of faults in either hardware direction the result is one memmove if no write fault falls on a source byte still to be read; overlap is allowed. |
| Resume.FlippingRepairCorrectIff | DSA_Userspace_Test/DSA_Library_References/accel-config_references/accel_test.h:264-276 | The byte-flipping repair is right under all faults and all memories exactly for buffers that do not overlap. |
| Resume.FatalFault | DSA_Userspace_Test/DSA_Library_References/accel-config_references/accel_test.h:264-276 | A write fault on a byte of the overlap, before anything is copied, corrupts the copy. |
| Crc.ReverseU8 | DSA_Userspace_Test/DSA_Library_References/accel-config_references/dsa.c:1729-1733 | The nibble table reverses the eight bits of a byte. |
| Crc.Reverse | DSA_Userspace_Test/DSA_Library_References/accel-config_references/dsa.c:1735-1745 | The byte loop reverses the 32 bits of a word. |
| Crc.DsaCalculateCrc32 | DSA_Userspace_Test/DSA_Library_References/accel-config_references/dsa.c:1747-1789 | For every length, seed and flag set the table-driven CRC32C is the remainder of bitwise division by the polynomial. |
| Crc.CrcContinues | DSA_Userspace_Test/DSA_Library_References/accel-config_references/dsa.c:1747-1789 | For every flag set the checksum of a concatenation is the checksum of its second part seeded with that of its first. |
| Crc.BypassIsReversal | DSA_Userspace_Test/DSA_Library_References/accel-config_references/dsa.c:1779-1784 | Bypassing data reflection equals running on bit-reversed bytes. |
| Crc.CrcIsLinear | DSA_Userspace_Test/DSA_Library_References/accel-config_references/dsa.c:1747-1789 | Without inversion the checksum is linear over exclusive or, in data and seed together. |
| Crc.CheckValues | DSA_Userspace_Test/DSA_Library_References/accel-config_references/dsa.c:1747-1789 | A literal check value for each of the four flag sets. |
| Crc.TableEntry | DSA_Userspace_Test/DSA_Library_References/accel-config_references/dsa_crc32.h:21 | Entry 128 of row 0 is the literal 0x82F63B78 of the table. |
| Crc.WordIsFourLookups | DSA_Userspace_Test/DSA_Library_References/accel-config_references/dsa.c:1760-1772 | Running the register 32 or more bits over a word is an exclusive or of four table entries, one per byte. |
| Crc.RegisterEightBytes | DSA_Userspace_Test/DSA_Library_References/accel-config_references/dsa.c:1760-1773 | One turn of the eight-byte loop is eight byte steps. |
| Crc.LookupIsSteps | DSA_Userspace_Test/DSA_Library_References/accel-config_references/dsa_crc32.h:3-284 | Row k of the table is 8k + 8 bit steps of its index. |
| Crc.RegisterIsRemainder | DSA_Userspace_Test/DSA_Library_References/accel-config_references/dsa.c:1774-1784 | The reflected register is the mirrored remainder of the message bits. |
| DescLifecycle.StepKeepsInv | DSA_Kernelspace_Test/1.kernel_test/idxd/irq.c:515-627 | Every atomic section, of whichever actor, keeps every descriptor consistent. |
| DescLifecycle.EveryRunIsClean | DSA_Kernelspace_Test/1.kernel_test/idxd/submit.c:27-71 | In every interleaving of allocation, submission, completion, interrupt thread, resubmission and flush, a descriptor is in exactly one place while its bitmap bit is set and in none otherwise, and its events form well-formed lives: what the client is told is the result that the device's status stands for, and only an invalid handle is resubmitted. The walk over the work list may have seen any of the finished descriptors. |
| DescLifecycle.CompletedBeforeReuse | DSA_Kernelspace_Test/1.kernel_test/idxd/dma.c:23-57 | Between the acceptance of a submission and the next allocation of its index, its own cookie is completed. |
| DescLifecycle.CompletedOnce | DSA_Kernelspace_Test/1.kernel_test/idxd/dma.c:46-53 | No cookie is completed twice: between two completions for an index lies a new acceptance. |
| DescLifecycle.EndedIsReported | DSA_Kernelspace_Test/1.kernel_test/idxd/dma.c:23-57 | The next thing that happens to a descriptor the device has ended: a success is reported as such, an invalid handle is resubmitted or reported as failed, any other status is reported as failed; nothing else is ever reported as a success or resubmitted. |
| DescLifecycle.HandlingByStatus | DSA_Kernelspace_Test/1.kernel_test/idxd/irq.c:560-627 | What the interrupt thread does with a descriptor, by its status: an invalid handle is completed only if no resubmission can be queued. |
| DescLifecycle.PassLeavesUnfinished | DSA_Kernelspace_Test/1.kernel_test/idxd/irq.c:560-627 | One pass of the interrupt thread handles every finished descriptor on its lists and keeps every unfinished one on the work list. |
| DescLifecycle.FreedOncePerAllocation | DSA_Kernelspace_Test/1.kernel_test/idxd/submit.c:65-71 | Allocations exceed frees by one exactly while the bitmap bit is set. |
| DescLifecycle.SelectSplits | DSA_Kernelspace_Test/1.kernel_test/idxd/irq.c:605-609 | Taking the finished descriptors off the work list loses and duplicates none. |
| AbortDesc.LlistAbortDesc | DSA_Kernelspace_Test/1.kernel_test/idxd/submit.c:95-140 | The abort of a refused descriptor: every other unfinished descriptor stays on or goes to the work list, as often as before and in the old order, the aborted one leaves it, the completions made, and when it follows a null pointer. |
| AbortDesc.ActualIs | DSA_Kernelspace_Test/1.kernel_test/idxd/submit.c:126-139 | The completions of an abort: the aborted descriptor first, not freed, then the same one freed once for every finished one. |
| AbortDesc.FinishedCounts | DSA_Kernelspace_Test/1.kernel_test/idxd/submit.c:107-124 | The finished ones are the other descriptors of the pending list that have a status, as often as they are on it. |
| AbortDesc.AbortRightIff | DSA_Kernelspace_Test/1.kernel_test/idxd/submit.c:136-139 | The abort completes each descriptor it takes off the lists exactly when no other pending descriptor has finished; otherwise it completes the aborted one again in their place. |
| AbortDesc.RefusedSubmission | DSA_Kernelspace_Test/1.kernel_test/idxd/dma.c:171-187 | The frees of a refused descriptor, counted in the completions of the abort and of the interrupt thread and with the submitter's own: exactly one precisely if the thread does not hold it and no other pending descriptor has finished, two if the thread holds it, otherwise one more for each finished one; and when the abort follows a null pointer. |
| AbortDesc.IrqProcessPending | DSA_Kernelspace_Test/1.kernel_test/idxd/irq.c:560-590 | The interrupt thread completes and frees, as often as it holds it, each descriptor that has a status, and queues each other one, in order. |
| AbortDesc.FinishedAreLeaked | DSA_Kernelspace_Test/1.kernel_test/idxd/submit.c:136-139 | A finished descriptor that an abort takes off the pending list is not freed by it, though it was meant to be, and is on no list afterwards, so that nobody frees it. |
| AbortDesc.FreesByAbort | DSA_Kernelspace_Test/1.kernel_test/idxd/submit.c:126-139 | The abort's completions free its own descriptor once for every finished one, and nothing else. |
| IntHandle.StepKeepsInv | DSA_Kernelspace_Test/1.kernel_test/idxd/irq.c:189-203 | Every atomic section of submitters, revocation and quiesce keeps the invariant of the killable reference. |
| IntHandle.PortalSeesCurrentHandle | DSA_Kernelspace_Test/1.kernel_test/idxd/submit.c:177-216 | In every interleaving each descriptor reaches the portal with the queue's handle of that moment, and that handle is valid. |
| IntHandle.HandleChangesInQuiet | DSA_Kernelspace_Test/1.kernel_test/idxd/irq.c:189-198 | The handle changes only while the reference is dead and no submitter is between taking and dropping it. |
| IntHandle.RevocationInstalls | DSA_Kernelspace_Test/1.kernel_test/idxd/irq.c:198 | A revocation installs the handle it was given: from the change on, and whenever nobody holds the mutex, the queue's handle is that of the last revocation in the run. |
| IntHandle.ReleasedOnlyAfterwards | DSA_Kernelspace_Test/1.kernel_test/idxd/submit.c:177-181 | In every run a waiter is released only when the reference is live again or the queue is quiesced for good. |
| IntHandle.SubmitterGetsThrough | DSA_Kernelspace_Test/1.kernel_test/idxd/submit.c:166-217 | While the reference is live, a new or a released submitter sends with the present handle and returns. |
| IntHandle.WaitersAreReleased | DSA_Kernelspace_Test/1.kernel_test/idxd/submit.c:177-181 | However the steps due of the submitters and of the mutex holder interleave, they come to an end, with a bound; whenever none is left every submitter has returned and each one that waited has been released. |
| IntHandle.FailedRequestKeepsPromiseIff | DSA_Kernelspace_Test/1.kernel_test/idxd/irq.c:161-173 | The branch for a failed handle request, which invalidates the handle first, lets only current, valid handles reach the portal in every continuation exactly when the reference is already dead and not about to be revived and no submitter inside has yet to send. |
| EventLog.EventLog.DeviceLogs | DSA_Kernelspace_Test/1.kernel_test/idxd/registers.h:567-583 | The device appends an entry at the tail and sets the pending bit, unless the ring would become full. |
| EventLog.EventLog.DrainPasid | DSA_Kernelspace_Test/1.kernel_test/idxd/cdev.c:333-360 | Marks exactly the unvisited entries of one process on one queue that were logged before, whatever the device logs meanwhile; the skip bits are those of marked entries between head and tail. |
| EventLog.EventLog.ProcessEntry | DSA_Kernelspace_Test/1.kernel_test/idxd/irq.c:311-352 | One visit: skip and clear the bit, ignore, queue, drop, or report, as the entry and its mark call for. |
| EventLog.EventLog.ProcessEntries | DSA_Kernelspace_Test/1.kernel_test/idxd/irq.c:354-385 | Visits every entry logged before, each once and in order, with the device logging between any two steps; what is left unvisited at the end has set the pending bit again, and no skip bit is left behind. |
| EventLog.EventLog.VisitsAreRight | DSA_Kernelspace_Test/1.kernel_test/idxd/irq.c:311-352 | An entry was skipped exactly if a drain marked that very entry, and queued fault work exactly if it was an unmarked fault that wanted a record; later entries in its slot are not affected. |
| EventLog.WorkIsInOrder | DSA_Kernelspace_Test/1.kernel_test/idxd/irq.c:333-341 | The queued work is the entries that were to be queued, each once, in the order they were logged. |
| EventLog.SkipBitsVisit | DSA_Kernelspace_Test/1.kernel_test/idxd/irq.c:318-319 | Visiting the first unvisited entry drops its slot's bit and no other, for every ring size. |
| EvlInterrupt.NothingLostIff | DSA_Kernelspace_Test/1.kernel_test/idxd/irq.c:363-384 | In every interleaving with the device no event is lost exactly because the pending bit is cleared before the tail is read. |
| EvlInterrupt.LostBetween | DSA_Kernelspace_Test/1.kernel_test/idxd/irq.c:366-370 | With the two steps swapped an entry logged between them is lost. |
| EvlInterrupt.HandlerCatchesUp | DSA_Kernelspace_Test/1.kernel_test/idxd/irq.c:363-384 | Everything logged before a tail read has been visited whenever the handler is idle again, in every interleaving with the device and with later handlers. |
| EvlInterrupt.QuietRunVisitsAll | DSA_Kernelspace_Test/1.kernel_test/idxd/irq.c:363-384 | From every reachable idle state a run of the handler that the device leaves alone ends and visits everything. |
| FaultWork.CopyCr | DSA_Kernelspace_Test/1.kernel_test/idxd/cdev.c:647-699 | With a fault possible at any byte, a reader of a record whose status starts at zero sees a non-zero status only next to the whole record, and the count returned is exactly the bytes written. |
| FaultWork.EventLogFaults.EvlFaultWork | DSA_Kernelspace_Test/1.kernel_test/idxd/irq.c:222-306 | After any sequence of faults each flag says whether its batch has lost a completion write since it last started anew, and the record delivered follows from that. What each kind of fault delivers and does to the flags is stated: a batch that lost a write always gets a record with result 1 and a failed status. |
| FaultWork.LostSnoc | DSA_Kernelspace_Test/1.kernel_test/idxd/irq.c:237-256 | How one more fault changes whether a batch has lost a write, from the whole history. |
| FaultWork.ForcedFail | DSA_Kernelspace_Test/1.kernel_test/idxd/irq.c:249-254 | A forced record has result 1 and a status other than success, and keeps a status that already was an error. |
| FaultWork.OtherBatchesDoNotMatter | DSA_Kernelspace_Test/1.kernel_test/idxd/irq.c:237-256 | Faults of other batch identifiers change nothing for a batch. |
| Perfmon.DeltaIsModular | DSA_Kernelspace_Test/1.kernel_test/idxd/perfmon.c:241-259 | For every width from 1 to 64 the shifted subtraction is the difference modulo two to the width. |
| Perfmon.WordSize | DSA_Kernelspace_Test/1.kernel_test/idxd/perfmon.c:244-257 | The 64-bit range, and that of small counters, as literals. |
| Perfmon.PerfEvent.EventUpdate | DSA_Kernelspace_Test/1.kernel_test/idxd/perfmon.c:241-259 | An update adds that difference to the 64-bit count and remembers the reading; the count stays the sum of all differences modulo 2^64, and is the true number of events under the exact condition of the next row. |
| Perfmon.CountIsTrueIff | DSA_Kernelspace_Test/1.kernel_test/idxd/perfmon.c:241-259 | After any run of updates the 64-bit count is the true number of events exactly when every gap between readings is shorter than the counter's range and the number fits 64 bits. |
| PerfEvents.FirstFreeIsLow | DSA_Kernelspace_Test/1.kernel_test/idxd/perfmon.c:134-144 | By the pigeonhole principle the first free counter is no higher than the number of used ones. |
| PerfEvents.Pmu.AssignEvent | DSA_Kernelspace_Test/1.kernel_test/idxd/perfmon.c:134-144 | The scan over 64 bits takes the first free counter, or finds all used. |
| PerfEvents.Pmu.EventAdd | DSA_Kernelspace_Test/1.kernel_test/idxd/perfmon.c:408-435 | Adding succeeds exactly below the limit; live events keep distinct, existing counters, and the used bits are theirs; while the list is aligned with the counters it stays so, and the overflow handler finds every event. |
| PerfEvents.Pmu.RemoveFromList | DSA_Kernelspace_Test/1.kernel_test/idxd/perfmon.c:378-388 | Takes one event out of the list and closes the gap, keeping the order; the last entry stays behind past the new end. |
| PerfEvents.Pmu.EventDel | DSA_Kernelspace_Test/1.kernel_test/idxd/perfmon.c:372-406 | Deleting removes one event and frees exactly its counter; afterwards the overflow handler finds every event exactly if the deleted one was among the two newest, or in the last place the handler reads or beyond. |
| PerfEvents.Pmu.OverflowPass | DSA_Kernelspace_Test/1.kernel_test/idxd/perfmon.c:280-290 | One pass of the overflow handler updates exactly the events of the overflowed counters it watches, if the lookup is right. |
| PerfEvents.LookedUpRight | DSA_Kernelspace_Test/1.kernel_test/idxd/perfmon.c:280-290 | The same of the places read, for every set of overflow bits and any number of counters. |
| PerfEvents.MissedOverflow | DSA_Kernelspace_Test/1.kernel_test/idxd/perfmon.c:285 | Three additions and one deletion, after which an overflow of counter 1 updates the event on counter 2. |
| PerfEvents.LookupAfterDeleteIff | DSA_Kernelspace_Test/1.kernel_test/idxd/perfmon.c:378-388 | The exact condition under which the lookup is right after one deletion, with the entry left behind past the end of the list. |
| PerfEvents.LookupAfterAddsIff | DSA_Kernelspace_Test/1.kernel_test/idxd/perfmon.c:284-285 | The lookup stays right in every later run of additions exactly when the deleted event was the newest or in a place the handler never reads. |
| PerfEvents.DeleteKeepsAlignedIff | DSA_Kernelspace_Test/1.kernel_test/idxd/perfmon.c:378-388 | A deletion keeps the places and counters that the handler reads aligned exactly when it removes the newest event, or one beyond them. |
| PerfEvents.AddKeepsAligned | DSA_Kernelspace_Test/1.kernel_test/idxd/perfmon.c:134-144 | Adding an event, on the first free counter, keeps them aligned. |
| Sysfs.Idxd.EngineGroupIdStore | DSA_Kernelspace_Test/1.kernel_test/idxd/sysfs.c:31-67 | The engine joins or leaves a group, each group's counter stays its number of members, and every error case. |
| Sysfs.Idxd.WqGroupIdStore | DSA_Kernelspace_Test/1.kernel_test/idxd/sysfs.c:627-666 | The same for a disabled work queue. |
| Sysfs.Idxd.RdbufsReservedStore | DSA_Kernelspace_Test/1.kernel_test/idxd/sysfs.c:132-163 | Reserved and free read buffers never exceed the device's, and add up to them after every accepted store. |
| Sysfs.Idxd.SetFreeRdbufs | DSA_Kernelspace_Test/1.kernel_test/idxd/sysfs.c:102-113 | The free count becomes what is not reserved. |
| Sysfs.Idxd.TotalClaimedWqSize | DSA_Kernelspace_Test/1.kernel_test/idxd/sysfs.c:715-727 | The loop yields the C int of the sum of the queue sizes, wrapped around where it does not fit. |
| Sysfs.Idxd.WqSizeStore | DSA_Kernelspace_Test/1.kernel_test/idxd/sysfs.c:729-753 | Every return code; whatever was claimed before, an accepted size keeps the claimed total within the device exactly when the stored size and the other queues' sizes add up within 32 bits; below 2^31 every size that fits is accepted. |
| Sysfs.WrappingStore | DSA_Kernelspace_Test/1.kernel_test/idxd/sysfs.c:748-751 | With 16 claimed, storing 2^64 - 16 for another queue is accepted and the claimed total exceeds the device. |
| Sysfs.CheckedSum | DSA_Kernelspace_Test/1.kernel_test/idxd/sysfs.c:748 | The checked 64-bit sum agrees with the new total modulo 2^32, and is that total while nothing wraps around. |
| Sysfs.Idxd.WqConfigWrite | DSA_Kernelspace_Test/1.kernel_test/idxd/device.c:899-922 | The default depth of 16 is the only change of a size, and the only other growth of the claimed total. |
| Sysfs.Idxd.DeviceClearState | DSA_Kernelspace_Test/1.kernel_test/idxd/device.c:662-737 | Clearing empties all groups and sizes, takes every queue and engine out of its group and disables every queue; the free count, which is not reset, stays exact only if nothing was reserved. |
| Sysfs.MovedCounts | DSA_Kernelspace_Test/1.kernel_test/idxd/sysfs.c:49-64 | Moving one member between groups adjusts the counters to the new memberships. |
| GroupConfig.Device.WqsSetup | DSA_Kernelspace_Test/1.kernel_test/idxd/device.c:1056-1092 | The group words say of every group exactly its queues; every error case. |
| GroupConfig.Device.EnginesSetup | DSA_Kernelspace_Test/1.kernel_test/idxd/device.c:1028-1054 | The same for engines. |
| GroupConfig.Device.GroupLoadConfig | DSA_Kernelspace_Test/1.kernel_test/idxd/device.c:1152-1204 | Items whose bit is set join the group, all others stay. |
| GroupConfig.Device.DeviceLoadConfig | DSA_Kernelspace_Test/1.kernel_test/idxd/device.c:1212-1235 | Loading encoded registers recovers exactly the encoded assignment for any number of groups, up to 255 queues and 64 engines. |
| GroupConfig.WordsGrow | DSA_Kernelspace_Test/1.kernel_test/idxd/device.c:1081-1082 | One more queue sets one bit in its own group's words and changes no other group. |
| GroupConfig.MultiU64ToBmap | DSA_Kernelspace_Test/1.kernel_test/idxd/init.c:432-443 | Unpacking words into a map takes each bit to its number. |
| GroupConfig.PackOpConfig | DSA_Kernelspace_Test/1.kernel_test/idxd/device.c:966-975 | Packing the operation map into four words. |
| GroupConfig.PackingRoundTrip | DSA_Kernelspace_Test/1.kernel_test/idxd/init.c:432-443 | Packing a 256-bit map and unpacking it is the identity, both ways round. |
| Shuffle.RandomArr | DSA_Kernelspace_Test/2.kernel_test_pages_shuffling/kernel_test_sgtable_batch.c:62-77 | For every sequence of random numbers the swap loop performs the swaps they name and yields a permutation of the pages. |
| Shuffle.EveryPermutationArises | DSA_Kernelspace_Test/2.kernel_test_pages_shuffling/kernel_test_sgtable_batch.c:62-77 | Every permutation of the pages comes from some sequence of random numbers. |
| Shuffle.PermutationNamesAll | DSA_Kernelspace_Test/2.kernel_test_pages_shuffling/kernel_test_sgtable_batch.c:62-77 | A permutation names every page (pigeonhole). |
| Shuffle.SubmitMemcpySg | DSA_Kernelspace_Test/2.kernel_test_pages_shuffling/kernel_test.h:181-206 | One batch pairs the next entries of both tables and advances both cursors past them. |
| Shuffle.DsaCopyBatches | DSA_Kernelspace_Test/2.kernel_test_pages_shuffling/kernel_test_sgtable_batch.c:430-451 | For every batch limit the batches together pair up the tables entry by entry, in order, and each is within the limit. |
| Shuffle.ShuffledCopyIsCopy | DSA_Kernelspace_Test/2.kernel_test_pages_shuffling/kernel_test_sgtable_batch.c:282-300 | Whatever the permutation and the order of execution, the destination area ends as a copy of the source area and nothing else changes. |
| Shuffle.ShuffledCopy | DSA_Kernelspace_Test/2.kernel_test_pages_shuffling/kernel_test_sgtable_batch.c:430-451 | The whole test, from the random numbers over the batches to the execution: for every batch limit and order the source area is copied and nothing else changes. |
| Shuffle.VmallocToSgtables | DSA_Kernelspace_Test/3.kernel_test_N_DSAs/kernel_test_sgtable_batch.c:266-300 | The filling loops give source and destination tables of a queue the same pages. |
| Shuffle.SharesPartition | DSA_Kernelspace_Test/3.kernel_test_N_DSAs/kernel_test_sgtable_batch.c:260-303 | For every permutation and any number of queues, each page is named by exactly one entry of one queue's table. |
| Shuffle.TablesFullIff | DSA_Kernelspace_Test/3.kernel_test_N_DSAs/kernel_test_sgtable_batch.c:260-303 | Every table entry has a page exactly when the number of queues divides the number of pages. |
| Shuffle.QueueDescs | DSA_Kernelspace_Test/3.kernel_test_N_DSAs/kernel_test_sgtable_batch.c:485-510 | One queue's batches are the next stretch of the shuffled pages, paired with themselves. |
| Shuffle.ShuffledCopyOverQueues | DSA_Kernelspace_Test/3.kernel_test_N_DSAs/kernel_test_sgtable_batch.c:475-517 | If the queues divide the pages, then whatever each queue's batch limit and however all descriptors interleave, the source area is copied and nothing else changes. |
| Dif.DifTask.ReprepDif | DSA_Userspace_Test/DSA_Library_References/accel-config_references/dsa_prep.c:622-670 | The descriptor after a partial completion, and the tag seeds it goes on with. |
| Dif.DifTask.WaitDif | DSA_Userspace_Test/DSA_Library_References/accel-config_references/dsa.c:1330-1352 | The resume loop over any sequence of partial completions; the tag seeds of the operation are those of the last record; an update prepared with equal seeds goes on with the right reference tags after all of them, however the device advances a tag. |
| Dif.DifTask.Update | DSA_Userspace_Test/DSA_Library_References/accel-config_references/dsa_prep.c:605-670 | An update, prepared by this program and resumed after any partial completions, ends with the right reference tags and the right rest, whatever the seed and however the device advances a tag. |
| Dif.UpdateTagsRightIff | DSA_Userspace_Test/DSA_Library_References/accel-config_references/dsa_prep.c:656 | The reference tags of a resumed update are right in every run exactly when it started with the same reference tag on both sides. |
| Dif.AdvanceIsImage | DSA_Userspace_Test/DSA_Library_References/accel-config_references/dsa_prep.c:622-670 | For whole blocks the code's destination advance is the block mapping of the operation. |
| Dif.BlocksAtDestination | DSA_Userspace_Test/DSA_Library_References/accel-config_references/dsa_prep.c:622-670 | What each operation makes of whole blocks, with the block sizes as literals. |
| Dif.ResumedStaysOnImage | DSA_Userspace_Test/DSA_Library_References/accel-config_references/dsa_prep.c:622-670 | After any block-aligned completions the source still ends where it did and the destination is the image of the source. |
| Dif.PiecesTile | DSA_Userspace_Test/DSA_Library_References/accel-config_references/dsa_prep.c:622-670 | Each piece starts, at source and destination, exactly where the previous one ended. |
| Dif.KeepsPaceIff | DSA_Userspace_Test/DSA_Library_References/accel-config_references/dsa_prep.c:622-670 | The destination keeps pace with the source exactly when a whole number of blocks has completed. |

## Left out

- DescLifecycle.EveryRunIsClean: does not cover shared queues, whose refused submissions `AbortDesc` treats on their own, nor descriptors without a completion interrupt, which their client polls.
- IntHandle.HandleChangesInQuiet: does not cover queues that are disabled or of user type, whose handle is replaced without quiescing.
- IntHandle.WaitersAreReleased: takes no newcomer and no further revocation; a waiter that has not run before the next revocation re-initialises the completion waits for that one's release.
- AbortDesc.RefusedSubmission: takes the interrupt thread to look at what it holds after the abort; where it had read the status just before, it frees the descriptor on its next pass instead.
- Tuner.RunStaysUsable: takes the waits of all threads one after the other; two threads that adjust the same knob at the same moment are not modelled.
- Resume.Task.WaitMemcpy: takes a finite sequence of faults, after which the job completes; the timeout exit is not modelled.
- FaultWork.CopyCr: the record is stored in ascending order; the release of the fault structure, which irq.c:266-267 skips when there is nothing to copy, is not modelled.
- PerfEvents.Pmu.EventAdd: a single event at a time; event groups are only validated against a scratch copy of the list.
- memcmp in DTO: on a reported mismatch dto.c:1258-1267 reads behind the chunk, so the sign it is meant to return is not a property of the code.
- The T10 DIF guard of dsa.c:1870-1882: the table argument of `Crc` at 16 bits.
- Shuffle.ShuffledCopyOverQueues: covers the queues' batches in any order, not only round robin; table entries without a page, and the end marks that cut such tables short, are not executed.
- The polling thread of the test with several devices.
- Device reset and re-initialisation, cdev open error paths, release of interrupt handles.
- DTO's initialisation and statistics; option parsing; timing; the other copies of the kernel tests.
- ENQCMD, UMWAIT, MMIO, PCI, IOMMU and memory mapping themselves: they appear as arbitrary answers.
