# LiveExec32 in Dafny

LiveExec32 runs 32-bit ARM iOS programs on a 64-bit system. This project models the parts of it whose
correctness is hardest to see, and proves what they are for.

| file | what it models |
|---|---|
| `EpochReclamation.dfy` | epoch-based reclamation of host memory that guest threads read without a lock |
| `GuestPages.dfy`, `GuestBytes.dfy`, `GuestVm.dfy` | guest virtual memory: page map, fast page table, reference-counted backings, placement, aliasing |
| `DebuggerMemory.dfy`, `DebuggerSession.dfy` | software breakpoints, and memory as it would be without them |
| `CallbackExecutor.dfy` | host threads submitting callbacks to one guest worker |
| `CodeDirectory.dfy`, `SuperBlob.dfy`, `Resign.dfy` | rewriting the code signature of an encrypted slice |
| `MachOSlice.dfy`, `FatImage.dfy`, `Injector.dfy` | reading Mach-O slices and images, writing the FAT image, and injecting the shim from end to end |
| `DirectoryLayout.dfy`, `SignatureLayout.dfy`, `SliceLayout.dfy`, `FatLayout.dfy` | the same formats from the writing side: what is laid out by offset is what the parsers find |
| `Commit.dfy` | swapping the new executable in |
| `FunctionStarts.dfy` | rewriting the function-starts table for a debugger |
| `PodType.dfy`, `PodShapes.dfy` | parsing and laying out struct encodings for two ABIs |
| `PathReducer.dfy` | removing dot segments from a path in place |
| `Bits.dfy`, `BigEndian.dfy`, `Wrappers.dfy` | masks and alignment, byte buffers, common types |

State that the source updates in place is a class whose methods refine a specification on values; the
properties are lemmas about that specification, over every input, run or reachable state. Where threads
run without a common lock, each lock-free store or release is a step of its own, and an arbitrary number
of steps of the others may come before it (`Interleave`, `Others`).

`dafny verify dfyconfig.toml` checks everything.

## What the proofs say about the code

- Breakpoints go by guest address, but bytes live in host cells, and `vm_remap` makes two addresses of one
  cell. With a breakpoint set through one of them the debugger is shown the trap through the other
  (`TwinShowsTrap`); set through both, removing all breakpoints reports success and leaves the trap
  (`TwinTrapStays`), and deleting the second changes what removing all would leave (`TwinDeleteShows`).
  For every command the exact condition is given under which it is invisible: `ReadIsCleanIff` for what is
  shown, `SetThenRemoveAll` for what removing all breakpoints leaves after one more was set,
  `RestoreKeepsCleanIff` for deleting, and `SessionIsPlainIff` for whole sessions. Where no patched cell is
  reached from another address, the conditions hold (`SessionIsPlain`).
- Setting a breakpoint: if the host lifts the protection of a region and cannot put it back, the error comes
  after the trap has been written; the record is dropped and the trap stays (`StrandedExample`). The exact
  condition is on the region, the records and the bytes before the call (`SetIsInvisibleIff`).
- Function starts: only a return from Thumb to ARM shifts the debugger's addresses, not every transition as
  the comment above the rewrite has it (`DebuggerIsRight`). A second run leaves the bytes alone but reports
  a change whenever the rewritten table is shorter than its space (`SecondRunReportsChange`,
  `SecondRunExample`).
- Callback executor: the promise about releases needs the worker to acknowledge each job before asking for
  the next, and no reset while a release is being copied out; both conditions are exact
  (`TakingTwiceStrandsTheActiveJob`, `ResetAnswersStand`).
- Struct encodings: the 256-byte limit can never be the reason for a refusal, since 32 fields take at most
  eight bytes each (`AppendFits`); hence acceptance does not depend on the ABI.
- Shutdown releases backings without clearing the fast table. That is safe because no guest thread is left
  to read it (`Destroy`).
- A fixed mapping with a mask larger than a page is rounded up to that mask (`Place`).
- A write through aliased pages is read back unless a later byte of the same write lands in the same host
  cell, and then that byte is read (`ReadBack`, `LaterAliasWins`).
- The checks made on a transformed directory, a packed signature and a written image never refuse one
  (`SelfCheckHolds`, `NewSignature`, `BuildImage`).

## Model

| member | source | states |
|---|---|---|
| `EpochReclamation.StepKeepsInv` | HostFrameworks/LC32/dynarmic.cpp:71-186 | every registration, guard step, publication and retirement keeps the protocol invariant: what an active participant could hold is not unmapped, each backing is retired once, retirement epochs grow, and every waiting retirement is blocked by somebody |
| `EpochReclamation.ReclaimKeepsInv` | HostFrameworks/LC32/dynarmic.cpp:79-112 | one scan frees only backings that no active participant could have loaded, and leaves none waiting that nobody blocks |
| `EpochReclamation.ScanSplits` | HostFrameworks/LC32/dynarmic.cpp:79-112 | the scan keeps exactly the blocked retirements and frees exactly the others |
| `EpochReclamation.RunKeepsInv` | HostFrameworks/LC32/dynarmic.cpp:71-186 | the invariant holds at every point of every run from the initial state |
| `EpochReclamation.ReclamationIsSafe` | HostFrameworks/LC32/dynarmic.cpp:71-186 | in every run nothing a participant could have loaded since entering its outermost guard is unmapped, nothing is unmapped twice, and once nobody is active nothing retired is left waiting |
| `EpochReclamation.HeldIsNotUnmapped` | HostFrameworks/LC32/dynarmic.cpp:71-186 | in every run, what was published at some moment is not unmapped while a thread that was active then has been active ever since |
| `EpochReclamation.RetiredIsNeverLost` | HostFrameworks/LC32/dynarmic.cpp:150-162 | whatever was retired is at every later point still waiting or unmapped; unmapping is permanent |
| `EpochReclamation.UnmappedIff` | HostFrameworks/LC32/dynarmic.cpp:71-186 | in every run a retired backing is unmapped if and only if no thread has been active from just before the retirement until now; otherwise it still waits |
| `EpochReclamation.WaitingIsHeld` | HostFrameworks/LC32/dynarmic.cpp:79-112 | what waits was retired while some thread was active that has been active ever since |
| `EpochReclamation.HeldWaits` | HostFrameworks/LC32/dynarmic.cpp:79-175 | a thread active since before a retirement keeps the backing waiting |
| `EpochReclamation.ActiveIff` | HostFrameworks/LC32/dynarmic.cpp:164-186 | in every run a thread is active if and only if it entered more guards than it left, and its depth is the difference |
| `EpochReclamation.RefreshingNestedGuardIsUnsafe` | HostFrameworks/LC32/dynarmic.cpp:164-175 | why a nested guard must not refresh its epoch: if it did, a backing the thread may hold would be unmapped |
| `EpochReclamation.EpochDomain.ReclaimLocked` | HostFrameworks/LC32/dynarmic.cpp:79-112 | the loop over the retired vector computes the scan |
| `EpochReclamation.EpochDomain.RegisterParticipant` | HostFrameworks/LC32/dynarmic.cpp:114-129 | registration is the protocol step and keeps the invariant |
| `EpochReclamation.EpochDomain.UnregisterParticipant` | HostFrameworks/LC32/dynarmic.cpp:131-148 | unregistering an inactive participant, followed by a scan, is the protocol step |
| `EpochReclamation.EpochDomain.EnterGuard` | HostFrameworks/LC32/dynarmic.cpp:164-175 | entering raises the depth by one and takes the current epoch exactly at depth zero; nothing else changes. Which backings that protects is `UnmappedIff` |
| `EpochReclamation.EpochDomain.ExitGuard` | HostFrameworks/LC32/dynarmic.cpp:177-186 | leaving lowers the depth by one; leaving the outermost guard ends the exposure and scans, any other scans nothing |
| `EpochReclamation.EpochDomain.RetireBacking` | HostFrameworks/LC32/dynarmic.cpp:150-162 | retiring advances the epoch, queues the backing under the new epoch and scans |
| `GuestPages.FindFreeRange` | HostFrameworks/LC32/dynarmic_core.cpp:555-723 | the collision-skipping search finds the lowest aligned free range at or above the hint, and reports failure only if none exists |
| `GuestPages.SkipCollision` | HostFrameworks/LC32/dynarmic_core.cpp:639-664 | skipping past a collision to the next aligned address passes over no free candidate |
| `GuestPages.AlignmentAdjustment` | HostFrameworks/LC32/dynarmic_core.cpp:555-568 | the masked adjustment rounds up to the next multiple of mask + 1, for every mask of low bits |
| `GuestPages.Place` | HostFrameworks/LC32/dynarmic_core.cpp:570-723 | the chosen place satisfies the request, and a refusal means that no place does |
| `GuestPages.ProtectionMeans` | HostFrameworks/LC32/dynarmic_memory.cpp:530-543 | a protection word grants reading, writing and executing by bits 1, 2 and 4; the host page is readable if reading or executing is granted, writable if writing is, and never executable |
| `GuestPages.CommonProtectionIff` | HostFrameworks/LC32/dynarmic_core.cpp:995-1008 | an access is common to pages if and only if each grants it |
| `GuestPages.Remap.CheckIff` | HostFrameworks/LC32/dynarmic_core.cpp:973-994 | which remap arguments pass, in numbers |
| `GuestPages.PutBalances` | HostFrameworks/LC32/dynarmic_core.cpp:160-180 | overwriting a page moves one reference: counts stay equal to the mapped pages plus what the operation holds |
| `GuestPages.DropBalances` | HostFrameworks/LC32/dynarmic_core.cpp:160-170 | dropping the last reference leaves no page that names the backing |
| `GuestVm.Vm.LoadedPointerIsSafe` | HostFrameworks/LC32/dynarmic_memory.cpp:504-564 | at any moment, even between two steps of an operation, a pointer a guarded thread can load from the fast table leads to mapped storage that its guard protects |
| `GuestVm.Vm.HeldPointerIsSafe` | HostFrameworks/LC32/dynarmic_memory.cpp:504-564 | and it stays mapped as long as the thread has been guarded since it was loaded, over the history of the memory |
| `GuestVm.Vm.StoreEntry` | HostFrameworks/LC32/dynarmic_memory.cpp:545-564 | one atomic store to the fast table, with guest threads free to act before it, keeps the state consistent and changes that entry only |
| `GuestVm.Vm.DropReference` | HostFrameworks/LC32/dynarmic_core.cpp:160-170 | the last reference retires the backing, any other only lowers the count |
| `GuestVm.Vm.InstallPage` | HostFrameworks/LC32/dynarmic_core.cpp:928-961 | a page is filled in and published before the reference it displaced is released |
| `GuestVm.Vm.WithdrawPage` | HostFrameworks/LC32/dynarmic_core.cpp:499-521 | the fast pointer is withdrawn before the page is deleted and its reference released |
| `GuestVm.Vm.ValidateMunmapRange` | HostFrameworks/LC32/dynarmic_core.cpp:396-432 | succeeds exactly for nonempty page-aligned ranges inside the address space that are mapped throughout |
| `GuestVm.Vm.Munmap` | HostFrameworks/LC32/dynarmic_core.cpp:441-526 | succeeds exactly for nonempty page-aligned ranges that are mapped throughout; then the range is gone and every other page is as it was, otherwise nothing changes; the fast table still mirrors the map and counts stay exact |
| `GuestVm.Vm.RollbackReservations` | HostFrameworks/LC32/dynarmic_core.cpp:533-553 | undoing a reservation restores the map exactly |
| `GuestVm.Vm.ReservePages` | HostFrameworks/LC32/dynarmic_core.cpp:676-723 | every unmapped page of the range gets a structure, or the map is as before |
| `GuestVm.Vm.Reserve` | HostFrameworks/LC32/dynarmic_core.cpp:570-723 | on success the range is placed and reserved; on failure the map is untouched, and with enough memory failure means the request cannot be placed |
| `GuestVm.Vm.Mmap` | HostFrameworks/LC32/dynarmic_core.cpp:793-971 | on success the range shows, byte for byte, what the host mapped from the page offset on, with the requested permissions and one fresh backing opened as they need, and no byte elsewhere changes; on failure map, backings and storage are as before; with a cooperating host it fails only for bad arguments or want of room |
| `GuestVm.Vm.MapBacking` | HostFrameworks/LC32/dynarmic_core.cpp:847-971 | storage put behind reserved pages is shown by them byte for byte, and nothing else changes |
| `GuestBytes.RunIsShown` | HostFrameworks/LC32/dynarmic_core.cpp:928-961 | consecutive pages show the stretch of storage they lie in, and no other byte changes |
| `GuestBytes.MappedIsMapping` | HostFrameworks/LC32/dynarmic_core.cpp:928-961 | the pages of a mapping show its storage from the page offset on, with exactly the requested permissions |
| `GuestBytes.BorrowedIsMapping` | HostFrameworks/LC32/dynarmic_core.cpp:757-785 | and so do the pages of a direct mapping, without a reference |
| `GuestBytes.PrivateIsReplacement` | HostFrameworks/LC32/dynarmic_core.cpp:1258-1396 | the pages of a private copy show the new bytes and then what the last page showed, with the permissions they had |
| `GuestBytes.StorageStays` | HostFrameworks/LC32/dynarmic_core.cpp:847-971 | new storage changes no byte the guest sees through pages in the old |
| `GuestVm.Vm.DirectMmap` | HostFrameworks/LC32/dynarmic_core.cpp:725-791 | on success the range shows, byte for byte, the storage of the caller, with the requested permissions and no reference taken; on failure nothing changes, and with enough memory it fails only for bad arguments or want of room |
| `GuestVm.Vm.VmRemap` | HostFrameworks/LC32/dynarmic_core.cpp:973-1039 | on success the destination holds the pre-call source pages as aliases with their references taken first, at the requested place or the lowest free one; on any failure nothing changes, and with enough memory it fails only for a bad request, a source that cannot be aliased, an occupied destination or want of room |
| `GuestVm.Vm.CollectAliases` | HostFrameworks/LC32/dynarmic_core.cpp:995-1008 | accepts exactly sources whose pages are all mapped, owned and not executable, and reports the protection common to them |
| `GuestVm.Vm.Mprotect` | HostFrameworks/LC32/dynarmic_core.cpp:1041-1210 | every page of the range, and no other, gets exactly the requested permissions, or nothing changes; reports argument and coverage errors exactly, fails otherwise only if the host refuses, and opens a host mapping only as far as the request needs, never narrowing it |
| `GuestVm.Vm.ReplaceWithPrivateCopy` | HostFrameworks/LC32/dynarmic_core.cpp:1258-1396 | afterwards the range shows the new bytes, the rest of its last page and everything else what they showed, all from one private backing; on failure nothing changes; a cooperating host lets it fail exactly for a bad range, a missing page or an unreadable tail |
| `GuestVm.Vm.Destroy` | HostFrameworks/LC32/dynarmic_core.cpp:275-292 | with no guest thread left every page is released, and every backing ever created has been unmapped exactly once |
| `GuestVm.Vm.GetMemoryPage` | HostFrameworks/LC32/dynarmic_memory.cpp:504-523 | looking in the fast table first finds what the map alone would give |
| `GuestVm.Vm.FastPathIff` | HostFrameworks/LC32/dynarmic_memory.cpp:545-564 | a page has a fast pointer if and only if it is mapped and, where permissions are enforced, may be read and written; the pointer is its storage |
| `GuestVm.Vm.MemRead` | HostFrameworks/LC32/dynarmic_core.cpp:1403-1428 | the page-chunked read succeeds exactly on mapped ranges and returns the guest bytes |
| `GuestVm.Vm.MemWrite` | HostFrameworks/LC32/dynarmic_core.cpp:1217-1256 | writes exactly the bytes before the first unmapped one, all of them if and only if it succeeds, and nothing outside the address space |
| `GuestBytes.ChunkIsBytes` | HostFrameworks/LC32/dynarmic_core.cpp:1217-1256 | copying a chunk inside a page equals writing its bytes one by one |
| `GuestBytes.ReadBack` | HostFrameworks/LC32/dynarmic_core.cpp:1217-1256 | a byte is read back as written unless a later byte of the same write lands in the same host cell |
| `GuestBytes.LaterAliasWins` | HostFrameworks/LC32/dynarmic_core.cpp:1217-1256 | and if one does, the last such byte is read |
| `GuestBytes.DestinationShowsSource` | HostFrameworks/LC32/dynarmic_core.cpp:973-1039 | after a remap the destination shows the pre-call source cells, whatever overlaps |
| `GuestBytes.AliasesAgree` | HostFrameworks/LC32/dynarmic_core.cpp:973-1039 | with disjoint ranges both show the same byte at every offset, whatever the contents come to be |
| `GuestBytes.WrittenThroughOneReadThroughOther` | HostFrameworks/LC32/dynarmic_core.cpp:973-1039 | bytes written through either range are read through the other, at any offset and across pages |
| `DebuggerMemory.CleanAt` | HostFrameworks/LC32/dynarmic_core.cpp:1751-1777 | a host cell of the breakpoint-free memory holds the byte the last record saved for it, else the physical byte |
| `DebuggerMemory.ReadIsCleanIff` | HostFrameworks/LC32/dynarmic_core.cpp:1751-1777 | laying the saved bytes over the physical ones shows the breakpoint-free memory if and only if, at each address, what a breakpoint there saved is what the records put back into the cell, and elsewhere they put back nothing or the byte that is there |
| `DebuggerMemory.UnaliasedShowsClean` | HostFrameworks/LC32/dynarmic_core.cpp:1751-1777 | that is always so where no patched cell is reached from another address |
| `DebuggerMemory.CopyIsPlainIff` | HostFrameworks/LC32/dynarmic_core.cpp:1785-1847 | writing bytes and changing records is a plain write to the breakpoint-free memory if and only if the new records put back what it leaves |
| `DebuggerMemory.WriteIsPlainIff` | HostFrameworks/LC32/dynarmic_core.cpp:1785-1847 | a write that keeps traps and updates the saved bytes is a plain write if and only if the updated records put back what it leaves |
| `DebuggerMemory.StoppedWriteIff` | HostFrameworks/LC32/dynarmic_core.cpp:1785-1847 | a write the host stops, inside a breakpoint or not, is a plain write of what the debugger would be shown if and only if the records put that back |
| `DebuggerMemory.PlainWriteIff` | HostFrameworks/LC32/dynarmic_core.cpp:1217-1256 | a write past the records, by the guest say, is a plain write if and only if the records put back what it leaves |
| `DebuggerMemory.TrapsStay` | HostFrameworks/LC32/dynarmic_core.cpp:1785-1847 | a debugger write leaves planted traps planted, where no patched cell is reached from another address |
| `DebuggerMemory.FailedRestore` | HostFrameworks/LC32/dynarmic_core.cpp:1936-1994 | a restore that stops early is hidden by the record that is kept, whatever aliases there are |
| `DebuggerMemory.RestoreKeepsCleanIff` | HostFrameworks/LC32/dynarmic_core.cpp:1936-1969 | restoring the saved bytes and dropping the record is invisible if and only if, under it, the other records put back nothing or what all of them did |
| `DebuggerMemory.PlantKeepsCleanIff` | HostFrameworks/LC32/dynarmic_core.cpp:1868-1934 | planting a trap over saved bytes is invisible if and only if whatever earlier records put back under it is there already |
| `DebuggerSession.ReachInOneRegion` | HostFrameworks/LC32/dynarmic_core.cpp:1462-1518 | a site in one host region is written completely when the region is writable, or can be made so and put back; written but reported as an error when the protection cannot be put back; not written otherwise |
| `DebuggerSession.SetSucceedsIff` | HostFrameworks/LC32/dynarmic_core.cpp:1868-1934 | setting succeeds if and only if the breakpoint is there already, or may be planted and its host region can be written |
| `DebuggerSession.SetSucceedsWhere` | HostFrameworks/LC32/dynarmic_core.cpp:1868-1934 | the same in plain terms: which addresses, kinds, pages, tracepoints and records allow a breakpoint |
| `DebuggerSession.PlantsIff` | HostFrameworks/LC32/dynarmic_core.cpp:1868-1921 | a trap is planted exactly on a mapped, aligned instruction that overlaps no tracepoint and no record |
| `DebuggerSession.AlreadySetIff` | HostFrameworks/LC32/dynarmic_core.cpp:1868-1905 | a request finds its breakpoint if and only if a record has its address and kind |
| `DebuggerSession.SetShowsTrap` | HostFrameworks/LC32/dynarmic_core.cpp:1906-1934 | after a trap was planted the guest sees the BKPT encoding byte for byte, and the record holds what was there |
| `DebuggerSession.SessionKeepsApart` | HostFrameworks/LC32/dynarmic_core.cpp:1751-1994 | in every session records are aligned instructions apart from each other and from every tracepoint |
| `DebuggerSession.SetAndCleanIff` | HostFrameworks/LC32/dynarmic_core.cpp:1868-1934 | setting does nothing to the breakpoint-free memory, or writes the trap a failed request leaves behind, if and only if what the records put back under the site was there, or is that trap |
| `DebuggerSession.SetIsInvisibleIff` | HostFrameworks/LC32/dynarmic_core.cpp:1868-1934 | setting is invisible if and only if it is refused or finds its record; or the host region cannot be written; or it can and what the records put back under the site was there; or its protection is lifted and cannot be put back and the trap left behind is hidden by a record or was there already |
| `DebuggerSession.StrandedExample` | HostFrameworks/LC32/dynarmic_core.cpp:1868-1934 | a host that lifts protection and cannot put it back, as bytes: the request fails, leaves no record and leaves the trap |
| `DebuggerSession.RestoreAndCleanIff` | HostFrameworks/LC32/dynarmic_core.cpp:1936-1969 | restoring one record is invisible if and only if the host stops it or the other records put back nothing under it or what all of them did |
| `DebuggerSession.RemoveAllIff` | HostFrameworks/LC32/dynarmic_core.cpp:1978-1994 | no record is left if and only if the host lets every one be restored, and then the storage is the breakpoint-free memory, whatever aliases there are |
| `DebuggerSession.RemoveKeepsCleanIff` | HostFrameworks/LC32/dynarmic_core.cpp:1978-1994 | the records left are exactly those the host does not let be restored, and removing is invisible if and only if these put back nothing, or what all did, under every record |
| `DebuggerSession.SetThenRemoveAll` | HostFrameworks/LC32/dynarmic_core.cpp:1868-1994 | setting one more breakpoint and removing all leaves what removing all would have left without it if and only if what the earlier records put back under the new site is there when it is set |
| `DebuggerSession.TwinShowsTrap` | HostFrameworks/LC32/dynarmic_core.cpp:1751-1934 | with a breakpoint set through one of two aliases the debugger is shown the trap through the other |
| `DebuggerSession.TwinTrapStays` | HostFrameworks/LC32/dynarmic_core.cpp:1868-1994 | with breakpoints set through both aliases removing all reports success, leaves no record and leaves the trap |
| `DebuggerSession.TwinDeleteShows` | HostFrameworks/LC32/dynarmic_core.cpp:1936-1969 | with breakpoints set through both aliases deleting the second changes what removing all would leave, from the trap to the bytes that were there |
| `DebuggerSession.TwinExample` | HostFrameworks/LC32/dynarmic_core.cpp:1868-1994 | two Thumb breakpoints on one instruction, as bytes |
| `DebuggerSession.StepIsPlainIff` | HostFrameworks/LC32/dynarmic_core.cpp:1751-1994 | a command is a plain read, a plain write or nothing to the breakpoint-free memory if and only if its condition on records, storage and host holds before the call |
| `DebuggerSession.AdmissibleActsPlainly` | HostFrameworks/LC32/dynarmic_core.cpp:1751-1994 | where no patched cell is reached from another address and stores leave saved bytes alone, every command meets its condition |
| `DebuggerSession.SessionIsPlainIff` | HostFrameworks/LC32/dynarmic_core.cpp:1751-1994 | over any script, what is shown and what removing all breakpoints would leave are at every point those of a memory in which breakpoints do not exist if and only if each command meets its condition when its turn comes |
| `DebuggerSession.SessionIsPlain` | HostFrameworks/LC32/dynarmic_core.cpp:1751-1994 | where no patched cell is ever reached from another address, and stores leave saved bytes alone, they are |
| `DebuggerSession.Debugger.WriteHost` | HostFrameworks/LC32/dynarmic_core.cpp:1462-1535 | copies region by region, lifting and restoring protection, and stops where the host does |
| `DebuggerSession.Debugger.WritePhysical` | HostFrameworks/LC32/dynarmic_core.cpp:1537-1560 | the same page by page |
| `DebuggerSession.Debugger.ReadMemory` | HostFrameworks/LC32/dynarmic_core.cpp:1751-1777 | answers exactly on ranges that are mapped throughout and end within 4 GiB, and with the breakpoint-free memory if and only if every address of the range shows it |
| `DebuggerSession.Debugger.WriteMemory` | HostFrameworks/LC32/dynarmic_core.cpp:1785-1847 | succeeds if and only if the range is valid and mapped and the host lets all of it be written; whether or not, it is a plain write if and only if the records it leaves put back what it wrote |
| `DebuggerSession.Debugger.SetBreakpoint` | HostFrameworks/LC32/dynarmic_core.cpp:1868-1934 | succeeds if and only if the breakpoint is there already, or the site is a mapped instruction of kind 2 or 4, aligned, apart from every tracepoint and record, and its host region can be written; a failure leaves the records alone; invisible, but for a trap left behind, under an exact condition |
| `DebuggerSession.Debugger.DeleteBreakpoint` | HostFrameworks/LC32/dynarmic_core.cpp:1936-1969 | the delete step, by canonical address; on success no record remains there; invisible if and only if there was no such record, or the host stops it, or the other records put back nothing under it or what all of them did |
| `DebuggerSession.Debugger.RemoveAllBreakpoints` | HostFrameworks/LC32/dynarmic_core.cpp:1978-1994 | succeeds if and only if no record is left, if and only if the host lets all be restored, and then the storage is the breakpoint-free memory; with records left, invisible under an exact condition |
| `DebuggerSession.Debugger.GuestWrite` | HostFrameworks/LC32/dynarmic_core.cpp:1217-1256 | the guest's write, as far as pages are mapped, a plain write if and only if the records put back what it leaves |
| `DebuggerSession.Debugger.Session` | HostFrameworks/LC32/dynarmic_core.cpp:1751-1994 | runs any script of commands and guest writes; the replies and the memory are those of a memory in which breakpoints do not exist if each command meets its condition, and each does where no patched cell is reached from another address |
| `CallbackExecutor.StepKeepsInv` | HostFrameworks/LC32/dynarmic.cpp:249-610 | every step keeps the invariant: the queue is the last submissions in order and nonempty only when ready, a job is unanswered exactly while queued or held, and identifiers follow the submission count |
| `CallbackExecutor.IdentifierIsNext` | HostFrameworks/LC32/dynarmic.cpp:380-382 | the identifier of the n-th submission is n modulo 2^32 - 1, plus one: wrap-around skips zero |
| `CallbackExecutor.RunKeepsInv` | HostFrameworks/LC32/dynarmic.cpp:249-610 | the invariant holds at every point of every run |
| `CallbackExecutor.DeliveryFollowsSubmission` | HostFrameworks/LC32/dynarmic.cpp:398-484 | jobs are delivered in submission order, each at most once |
| `CallbackExecutor.CompletedIff` | HostFrameworks/LC32/dynarmic.cpp:486-506 | in every run a job is completed if and only if the worker, holding it, acknowledged its identifier |
| `CallbackExecutor.SubmitterIsTold` | HostFrameworks/LC32/dynarmic.cpp:351-396 | a submitter is told yes if and only if the job was acknowledged, or is a release that was delivered |
| `CallbackExecutor.AcknowledgementCounts` | HostFrameworks/LC32/dynarmic.cpp:486-506 | the right acknowledgement completes the held job and frees the worker, and changes no other job; any other changes nothing |
| `CallbackExecutor.LifeCycle` | HostFrameworks/LC32/dynarmic.cpp:249-610 | every way from one phase to the next, and who the worker is |
| `CallbackExecutor.StopAndExitAnswer` | HostFrameworks/LC32/dynarmic.cpp:309-349 | stopping cancels exactly the queued jobs and leaves the held one; the exit of the worker cancels exactly the unanswered ones |
| `CallbackExecutor.EveryJobIsAnswered` | HostFrameworks/LC32/dynarmic.cpp:351-396 | no job is both completed and canceled, and none is left waiting once the executor has stopped or failed and the worker holds nothing |
| `CallbackExecutor.RefusedReleaseIsNeverDelivered` | HostFrameworks/LC32/dynarmic.cpp:385-395 | a release reported as not consumed was not delivered and never will be |
| `CallbackExecutor.LiveIdentifiersAreDistinct` | HostFrameworks/LC32/dynarmic.cpp:380-382 | live jobs have distinct nonzero 32-bit identifiers as long as no more are live than there are identifiers |
| `CallbackExecutor.IdentifiersRepeat` | HostFrameworks/LC32/dynarmic.cpp:380-382 | identifiers come round again after all 32-bit values but zero |
| `CallbackExecutor.LiveClashIff` | HostFrameworks/LC32/dynarmic.cpp:380-382 | two jobs live at once have one identifier if and only if more are live than there are identifiers |
| `CallbackExecutor.TakingTwiceStrandsTheActiveJob` | HostFrameworks/LC32/dynarmic.cpp:462-467 | taking a job without acknowledging the one held strands that one and no other |
| `CallbackExecutor.ResetAnswersStand` | HostFrameworks/LC32/dynarmic.cpp:287-301 | a reset answers every submitter; an answer later turns out wrong exactly for a release whose descriptor is being copied at that moment |
| `CallbackExecutor.Executor.ResetExecutor` | HostFrameworks/LC32/dynarmic.cpp:287-301 | cancels everything and returns to the unavailable state |
| `CallbackExecutor.Executor.StopExecutor` | HostFrameworks/LC32/dynarmic.cpp:309-320 | refines the stop step |
| `CallbackExecutor.Executor.ThreadExited` | HostFrameworks/LC32/dynarmic.cpp:322-349 | refines the exit step: a stopping executor stays stopping, any other fails |
| `CallbackExecutor.Executor.Enqueue` | HostFrameworks/LC32/dynarmic.cpp:351-384 | accepts exactly when ready and not shutting down |
| `CallbackExecutor.Executor.Arrive` | HostFrameworks/LC32/dynarmic.cpp:398-418 | the first arrival makes the executor ready; only that worker may wait |
| `CallbackExecutor.Executor.Deliver` | HostFrameworks/LC32/dynarmic.cpp:462-484 | with any activity of other threads while the mutex is free, exactly the oldest job is delivered, or it is canceled |
| `CallbackExecutor.Executor.Acknowledge` | HostFrameworks/LC32/dynarmic.cpp:486-506 | completes the held job only for the worker and the right identifier, and changes nothing otherwise; the worker goes on if and only if it was right and the executor is ready and not shutting down |
| `CallbackExecutor.Executor.Announce` | HostFrameworks/LC32/dynarmic.cpp:566-591 | only the first announcement starts the executor |
| `CallbackExecutor.Executor.NoteCreation` | HostFrameworks/LC32/dynarmic.cpp:593-610 | a creation error while starting fails the executor |
| `CodeDirectory.FindScatterEnd` | Tweak/FatMachO.c:617-640 | the scatter walk finds a terminator exactly when one lies on the 24-byte grid |
| `CodeDirectory.SealedIsTransformed` | Tweak/FatMachO.c:968-1168 | the transformed directory parses, with the expected header; identifier, code hashes, pre-encrypt hashes and linkage are what they were; replaced slots hold the donor hashes, other slots what they held, new slots zero; the main-binary flag is clear |
| `CodeDirectory.SmallestIsTransformable` | Tweak/FatMachO.c:507-712 | some directory parses and can be transformed |
| `CodeDirectory.SelfCheckHolds` | Tweak/FatMachO.c:1115-1161 | the check made on the output can never fail |
| `CodeDirectory.Transform` | Tweak/FatMachO.c:968-1168 | refuses exactly the directories that do not parse or fail a guard, and otherwise yields the transformed directory, with its header as `ResultIsUpdated` has it |
| `CodeDirectory.CanTransformIff` | Tweak/FatMachO.c:974-1022 | which parsed directories can be transformed, in numbers: no scatter table, signing limit before the signature, a team of 1 to 4095 bytes, and a result below 4 GiB |
| `CodeDirectory.ResultIsUpdated` | Tweak/FatMachO.c:1000-1087 | the new header, field by field: what is kept, and what version, flags, team and slot counts become |
| `DirectoryLayout.WrittenParses` | Tweak/FatMachO.c:507-712 | a directory laid out field by field in the documented format is parsed back exactly, and any layout that breaks a rule is refused, for all field values |
| `DirectoryLayout.WrittenHolds` | Tweak/FatMachO.c:507-712 | its identifier, team, code hashes and special slots are found where they were put, special slots counting backwards from the code |
| `DirectoryLayout.ScatterIff` | Tweak/FatMachO.c:617-640 | a scatter table ends if and only if some entry on the 24-byte grid has count zero |
| `DirectoryLayout.PagesIff` | Tweak/FatMachO.c:563-580 | exactly which page sizes and slot counts cover the signing limit |
| `CodeDirectory.Flags` | Tweak/FatMachO.c:310-319 | only the ad-hoc bit changes |
| `CodeDirectory.PatchedKeepsParts` | Tweak/FatMachO.c:1040-1087 | rewriting the header leaves every moved part in place |
| `CodeDirectory.SealedSlot` | Tweak/FatMachO.c:1088-1113 | the three donor hashes overwrite their own slots and nothing else |
| `CodeDirectory.MovedSlot` | Tweak/FatMachO.c:1040-1050 | before that, old slots hold what they held and new ones are zero |
| `SuperBlob.Parse` | Tweak/FatMachO.c:374-460 | accepts exactly signatures whose blobs are in range, disjoint and of distinct types, and returns them |
| `SuperBlob.ViewIsWellFormed` | Tweak/FatMachO.c:405-453 | parsed blobs have distinct types and carry their own lengths |
| `SuperBlob.PackedParses` | Tweak/FatMachO.c:1324-1350 | what is packed is what is parsed |
| `SignatureLayout.WrittenParses` | Tweak/FatMachO.c:374-460 | an index laid out entry by entry is accepted if and only if its blobs are in range, disjoint and of distinct types, and each is found where it was put |
| `SuperBlob.Pack` | Tweak/FatMachO.c:1307-1350 | the packed allocation parses into exactly the given blobs and is zero behind them |
| `Resign.Sort` | Tweak/FatMachO.c:1170-1178 | for blobs of distinct types the result is the sorted permutation |
| `Resign.Collect` | Tweak/FatMachO.c:1245-1302 | collects the kept and transformed source blobs and the donor blobs, or fails exactly when a directory is refused, none exists or there are too many |
| `Resign.NewSignature` | Tweak/FatMachO.c:1198-1357 | fails exactly when the collected blobs do not fit; otherwise the signature parses into them in order of type and the rest of the allocation is zero |
| `Resign.NewViewHoldsDonor` | Tweak/FatMachO.c:1088-1161 | the components of the new signature are the donor's, and slots 2, 5 and 7 of each of its directories hash them |
| `Resign.NewViewIsReassembled` | Tweak/FatMachO.c:1198-1357 | the new signature, in order of type: every directory of the old one transformed, the components of the donor, an empty CMS wrapper, every other blob of the old one as it was, and nothing else |
| `Resign.UsableIff` | Tweak/FatMachO.c:1205-1216 | a slice is fit for re-signing if and only if it is 32-bit ARM and encrypted and its signature has 12 bytes to 16 MiB and lies within it |
| `Resign.DirectoriesMatchComponents` | Tweak/FatMachO.c:1088-1161 | every directory of the new signature hashes, in slots 2, 5 and 7, exactly the component packed beside it, or zero where there is none |
| `Resign.ComponentsAreTheDonors` | Tweak/FatMachO.c:1286-1302 | the components of the new signature are the donor's |
| `Resign.KeptHas` | Tweak/FatMachO.c:1245-1280 | every other blob of the source survives |
| `Resign.CodeStaysValid` | Tweak/FatMachO.c:982-993 | splicing the new signature in keeps the code-page hashes of every directory exactly as valid as they were |
| `Resign.DirectoriesStayValid` | Tweak/FatMachO.c:1198-1357 | the directories of a re-signed slice have the types they had, and each holds of the slice if and only if the old one did |
| `Resign.ResignSlice` | Tweak/FatMachO.c:1198-1357 | re-signs exactly the usable slices whose new blobs fit; only the signature allocation changes, so the slice reads the same, the encrypted pages stay, every directory is as valid as it was, each hashes the donor's components packed beside it, and the new signature is the old one reassembled |
| `Resign.CreateDonor` | Tweak/FatMachO.c:807-894 | accepts exactly signatures with both entitlement forms, well-formed components and directories that hash them |
| `Resign.GivesDonorIff` | Tweak/FatMachO.c:807-894 | which signatures give a donor, by type and magic numbers and what each directory hashes |
| `FatImage.PlaceIsSound` | Tweak/FatMachO.c:2911-2937 | offsets are aligned, disjoint, behind the table, within 32 bits and padded no more than alignment needs |
| `FatImage.PlaceIff` | Tweak/FatMachO.c:2911-2937 | slices are placed in exactly one way, if at all: each at the least multiple of its alignment behind the last |
| `FatImage.LaidOutIff` | Tweak/FatMachO.c:2911-2937 | there is a layout if and only if the placement succeeds, and it is that one |
| `FatImage.Layout` | Tweak/FatMachO.c:2911-2937 | yields the one layout in which each slice starts at the next multiple of its alignment behind the last, or fails exactly when there is none within 32 bits |
| `FatImage.IndexIsPermutation` | Tweak/FatMachO.c:90-94 | every output is described exactly once |
| `FatImage.CopySlice` | Tweak/FatMachO.c:2335-2370 | chunked copying writes exactly the spliced source, for any chunk size |
| `FatImage.SliceMatches` | Tweak/FatMachO.c:2372-2416 | chunked comparison accepts exactly the spliced source, for any chunk size |
| `FatImage.Parse` | Tweak/MachOImage.c:742-885 | accepts exactly tables, of either width and byte order, whose slices are nonempty, aligned, in range, disjoint, of distinct architecture, readable and what their headers say |
| `FatLayout.WrittenParses` | Tweak/MachOImage.c:742-885 | a table laid out entry by entry, of either width and byte order, is accepted if and only if its entries hold and are apart |
| `FatLayout.WrittenIsReported` | Tweak/MachOImage.c:742-885 | and each slice is reported with the numbers written for it and what its bytes read as |
| `FatImage.ImageParses` | Tweak/MachOImage.c:742-885 | the written image parses into the outputs, shim first, each read as its contents are |
| `FatImage.WriteImage` | Tweak/FatMachO.c:2939-3016 | the table and every slice end up in place |
| `FatImage.BuildImage` | Tweak/FatMachO.c:2911-3083 | the image is refused exactly when there is no layout; the checks on what was written never refuse it |
| `MachOSlice.ReadsTheSame` | Tweak/MachOImage.c:571-740 | a slice is read the same whatever lies behind its load commands |
| `MachOSlice.ReadingIsSound` | Tweak/MachOImage.c:366-395 | what is read lies in the slice, the signature behind the load commands and apart from the encrypted range |
| `MachOSlice.ResignedReadsTheSame` | Tweak/MachOImage.c:366-395 | replacing the signature's allocation leaves the reading alone |
| `MachOSlice.ParseSlice` | Tweak/MachOImage.c:571-740 | the loop over the load commands computes the reading, which `SliceLayout.WrittenReads` fixes by what was written |
| `SliceLayout.WrittenReads` | Tweak/MachOImage.c:571-740 | a slice laid out header and load command by load command, of either width and byte order, is read back exactly, and refused if and only if it breaks a rule, for all field values |
| `SliceLayout.CommandReads` | Tweak/MachOImage.c:114-569 | every kind of load command is read as it was written, or refused by its rule |
| `SliceLayout.TableReads` | Tweak/MachOImage.c:669-709 | a table is read command by command, and only to its end |
| `SliceLayout.HeaderReads` | Tweak/MachOImage.c:571-655 | a header of either width and byte order is read as it was written, or refused |
| `SliceLayout.ArrangedIff` | Tweak/MachOImage.c:711-738 | which placements of linkedit, signature and encrypted range are accepted, in numbers |
| `MachOSlice.SmallShimReads` | Tweak/MachOImage.c:571-740 | a slice with a __LINKEDIT segment, a signature and a build version, as bytes, and what is read of it |
| `Injector.SlicesAreRead` | Tweak/MachOImage.c:742-944 | the slices of a thin or FAT image read as reported, and no two are of one architecture |
| `Injector.ParseImage` | Tweak/MachOImage.c:887-944 | a thin image is one slice, a FAT image those of its table |
| `Injector.TargetsIff` | Tweak/FatMachO.c:2735-2765 | the target's slices qualify if and only if all are ARM executables in this byte order built with one SDK |
| `Injector.ShimIff` | Tweak/FatMachO.c:2789-2821 | the shim qualifies if and only if it is a signed, unencrypted generic arm64 executable with a build version |
| `Injector.MakeOutput` | Tweak/FatMachO.c:2868-2896 | an unencrypted slice is written as it is, an encrypted one with its new signature, or refused |
| `Injector.OutputsAreSensible` | Tweak/FatMachO.c:2880-2909 | every output reads as declared, re-signed or not, and no two are of one architecture |
| `Injector.ImageIsInjected` | Tweak/FatMachO.c:3046-3083 | the written image parses into the shim and the target's slices, in order and read as they were |
| `Injector.Inject` | Tweak/FatMachO.c:2720-3083 | injection succeeds if and only if target, shim, signatures and layout allow it; then the file parses into the shim and the target's slices, and in each re-signed one the signature is the old one reassembled, and every directory holds if and only if it held in the source and hashes the components the shim's signature gave |
| `Injector.SmallIsInjectable` | Tweak/FatMachO.c:2720-3083 | some targets and shims can be injected |
| `Commit.Injection.SwapIn` | Tweak/FatMachO.c:3086-3225 | goes exactly by what its checks saw: success is one swap after which both names and files were seen right; a failure that keeps nothing has swapped back or not at all; with every call working and nobody interfering it succeeds |
| `Commit.Injection.RollBack` | Tweak/FatMachO.c:3139-3222 | swaps back if and only if the check before saw both files exchanged and the call worked; staging is kept unless the original was then seen in place |
| `Commit.Injection.Clean` | Tweak/FatMachO.c:3234-3299 | unlinks at most the one inode expected in staging, and nothing when staging is kept; with every call working it does unlink it, and removes the directory |
| `Commit.Injection.Install` | Tweak/FatMachO.c:3086-3299 | whatever other processes do, the original is unlinked only on success; left alone, the target is the replacement on success and otherwise the original, unless a kept staging directory holds it; with every call working the swap is made and staging is gone |
| `FunctionStarts.ReadEncoded` | HostFrameworks/LC32/debugger_server.cpp:61-98 | an encoded value is read back, whatever surrounds it, for all 64-bit values |
| `FunctionStarts.ReadULEB` | HostFrameworks/LC32/debugger_server.cpp:61-86 | the decoding loop, with its length and overflow limits |
| `FunctionStarts.ReadIff` | HostFrameworks/LC32/debugger_server.cpp:61-86 | a number is read if and only if its group takes at most ten bytes and 64 bits hold it, and then it is the base-128 value of the group |
| `FunctionStarts.EncodedIsGroup` | HostFrameworks/LC32/debugger_server.cpp:89-98 | what is written is a shortest group of that value |
| `FunctionStarts.AppendULEB` | HostFrameworks/LC32/debugger_server.cpp:89-98 | the encoding loop |
| `FunctionStarts.TableReadsBack` | HostFrameworks/LC32/debugger_server.cpp:276-319 | a table of nonzero deltas and its terminator reads back |
| `FunctionStarts.DebuggerIsRight` | HostFrameworks/LC32/debugger_server.cpp:100-112 | the debugger that clears the Thumb bit reads the right addresses if and only if no ARM function directly follows a Thumb one |
| `FunctionStarts.KeptTableDecodes` | HostFrameworks/LC32/debugger_server.cpp:267-342 | a rewritten table decodes, by both readings, to the code addresses the linker meant |
| `FunctionStarts.ThumbSticks` | HostFrameworks/LC32/debugger_server.cpp:300-311 | in it Thumb sticks from the first Thumb function on, and wherever that is wrong a symbol names the function |
| `FunctionStarts.UnsafeIff` | HostFrameworks/LC32/debugger_server.cpp:300-311 | a table is unsafe if and only if some ARM function behind a Thumb one has no symbol that names it |
| `FunctionStarts.InOrderIff` | HostFrameworks/LC32/debugger_server.cpp:287-299 | addresses are accepted if and only if each is in the text segment and behind the one before |
| `FunctionStarts.OutcomeIff` | HostFrameworks/LC32/debugger_server.cpp:267-342 | exactly which tables are rejected, which are kept, and which are dropped |
| `FunctionStarts.NormalisingIsIdempotent` | HostFrameworks/LC32/debugger_server.cpp:267-342 | rewriting a rewritten table yields the same bytes |
| `FunctionStarts.SecondRunReportsChange` | HostFrameworks/LC32/debugger_server.cpp:334-342 | a second run reports a change exactly when the table is shorter than its space |
| `FunctionStarts.SecondRunExample` | HostFrameworks/LC32/debugger_server.cpp:334-342 | one function and two bytes to spare: such a table, as bytes |
| `FunctionStarts.ScanIsNormalized` | HostFrameworks/LC32/debugger_server.cpp:267-319 | the one-pass scan computes decode, check, normalise and encode |
| `FunctionStarts.Normalize` | HostFrameworks/LC32/debugger_server.cpp:267-342 | the file changes in the table or in the size field only, as the outcome says, and the change is reported exactly |
| `PodType.ParseIsSound` | include/LC32PODType.h:44-91 | an accepted type has ordered, disjoint fields aligned for its ABI, and a size of at most 256 that is a multiple of its alignment |
| `PodType.AppendFits` | include/LC32PODType.h:31-42 | the size limit never decides: appending fails only for want of fields |
| `PodType.ParsesAgree` | include/LC32PODType.h:44-91 | both ABIs accept the same encodings and stop at the same place |
| `PodType.LayoutsCorrespond` | include/LC32PODType.h:93-99 | an encoding is accepted for both ABIs or neither, with the same field kinds in order and guest offsets and size no larger than native ones |
| `PodShapes.StructsAreAccepted` | include/LC32PODType.h:44-99 | the encoding of any struct, with any struct names, field names and qualifiers, is accepted for either ABI if and only if it is nested at most eight deep with at most 32 scalars; its fields are exactly its scalars in order, at the offsets the C rules for that ABI give |
| `PodShapes.ShapeParses` | include/LC32PODType.h:44-91 | the same for any type, at any depth and wherever its encoding stands |
| `PodShapes.ShapeRefused` | include/LC32PODType.h:44-91 | a type nested too deep or with too many scalars is refused wherever its encoding stands |
| `PodShapes.ScalarIsLaid` | include/LC32PODType.h:17-30 | the size of every scalar kind, in numbers, and its alignment: its size, on the guest at most four |
| `PodShapes.RoundIsLeast` | include/LC32PODType.h:17-19 | padding is as small as the alignment allows |
| `Bits.MaskAligns` | include/LC32PODType.h:17-19 | the masked addition rounds up to a multiple of the alignment |
| `PodType.AlignIs` | include/LC32PODType.h:17-19 | the masked addition rounds up to the alignment |
| `PodType.AppendTo` | include/LC32PODType.h:31-42 | appending field by field |
| `PodType.ParsePod` | include/LC32PODType.h:44-91 | the recursive parser |
| `PodType.ParseMembers` | include/LC32PODType.h:59-75 | the member loop of a struct |
| `PodType.ParseStruct` | include/LC32PODType.h:93-99 | the entry point, with the soundness of what it returns |
| `PathReducer.WalkIsEvaluate` | HostFrameworks/LC32/ap_getparents.c:5-70 | reading the text with the finished part kept as text is the evaluation on a stack of segments |
| `PathReducer.StripKeepsWalk` | HostFrameworks/LC32/ap_getparents.c:11-22 | the first pass keeps the meaning and leaves "." at most at the end |
| `PathReducer.DropKeepsWalk` | HostFrameworks/LC32/ap_getparents.c:24-29 | the second pass keeps the meaning and leaves no "." segment |
| `PathReducer.GoUp` | HostFrameworks/LC32/ap_getparents.c:35-50 | removing a ".." with the segment before it keeps the meaning |
| `PathReducer.ReducedIsClean` | HostFrameworks/LC32/ap_getparents.c:5-70 | no dot segment is left and a second run changes nothing |
| `PathReducer.ReducedNeverGrows` | HostFrameworks/LC32/ap_getparents.c:5-70 | the result is no longer than the path |
| `PathReducer.DropDots` | HostFrameworks/LC32/ap_getparents.c:11-22 | the first pass in place |
| `PathReducer.DropUps` | HostFrameworks/LC32/ap_getparents.c:31-53 | the third pass in place |
| `PathReducer.DropLastUp` | HostFrameworks/LC32/ap_getparents.c:55-69 | the fourth pass in place |
| `PathReducer.GetParents` | HostFrameworks/LC32/ap_getparents.c:5-70 | the four passes leave the segment evaluation of the path in the buffer and touch nothing behind its old end |

## Left out

- The JIT, system calls, Mach messages, Objective-C bridging and the debugger's register and thread services.
- The text segment, symbol table and load-command offsets of the function-starts rewrite are parameters.
- Creating, patching and ad-hoc signing the shim: the signed shim is an argument of the injection, which
  checks what it reads as; so is the alignment of the shim's slice.
- Hash functions: a digest is any function of type and bytes.
- 64-bit wrap-around of the guest VM epoch.
- Host failures: whether an allocation, a host mapping or a system call succeeds is a parameter or an
  arbitrary choice, and so is whether the protection of a host region can be lifted and put back; read and
  write errors while copying slices are not modelled.
- Host addresses are a region and an offset; the page map is keyed by page number. Numeric host addresses
  are not modelled.
- Memory-watch logging, which is compiled in only for diagnosis.
- Submission timeouts and condition variables: a submitter that gives up while the executor starts is a
  refused submission, and waiting is the passage of other steps.
- GuestVm.Vm.LoadedPointerIsSafe: states safety for pointers into backings the guest owns; storage mapped by the caller of a direct mapping is the caller's to keep.
- Commit.Injection.Install: takes the last identity check and the unlink behind it as one step, because no system call joins them.
- GuestVm.Vm.Destroy: models the release of the pages only, not the joining of guest threads before it.
- DebuggerSession.Debugger.Session: the page map stays as it is during a session; unmapping or remapping a page under a breakpoint is not modelled.
- DebuggerSession.SetIsInvisibleIff: is stated for a site that one host region holds; host regions end at page boundaries, and `SetAndCleanIff` covers any other.
- Injector.Inject: a refusal stands both for a target it does not apply to and for a failure.
- Tracepoints: their sites are fixed, and breakpoints keep clear of them.
- Resign.CreateDonor: models the signature's bytes; the signing that produced them is not modelled.
- Classifying a struct as a homogeneous floating-point aggregate for the native calling convention.
- The staging directory, ownership, flags and metadata of the replacement file.
