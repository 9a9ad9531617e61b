# A Dafny model of the Starry kernel's futex, clone, loader and time cores

This project models four sequential cores of the Starry kernel's Linux
personality and proves properties of them.

- **Futex engine and robust lists** (`futex.dfy`, `robust_list.dfy`).
  - A per-process table maps a futex key (address-space identity plus user address) to a FIFO wait queue and an owner-died flag.
  - `sys_futex` dispatches WAIT / WAIT_BITSET, WAKE / WAKE_BITSET and REQUEUE / CMP_REQUEUE.
  - WAIT is split at the point where the thread suspends. `WaitEnter` runs the fast path, reads the timeout, registers the waiter and makes the first evaluation of the wait predicate. `WaitFinish` runs when the scheduler resumes the thread, and takes its verdict (notified or timed out) as a parameter.
  - The robust-list exit walk follows a user linked list, given as a map from entry address to next pointer. It marks each held futex owner-died and gives up with ELOOP after 2048 entries.
- **clone(2) and fork(2) decisions** (`clone.dfy`).
  - The flag word is decoded into an exit signal and a set of CLONE_* flags, then validated.
  - For each resource, the result is a plan record: the child joins the caller's process, shares a handle, or gets an independent copy.
  - The clone properties are stated for every decoded exit signal and flag set. `Clone.FlagsOf` says which flag set a word decodes to, and `Clone.SysClone` reads the decisions back in terms of the word.
  - `Clone.SysClone` and `Clone.SysFork` follow the code as written, including the signal-action selection described under Findings. `Clone.CloneCorrected` is the same decision with the caller's own table shared under CLONE_SIGHAND.
- **The user-program loader** (`loader.dfy`, `shebang.dfy`, `utf8.dfy`, `user_access.dfy`).
  - Choosing the program path, and re-entering for `.sh` scripts and `#!` files.
  - Parsing the `#!` line: UTF-8 decoding as in Table 3-7 of the Unicode Standard, plus the two whitespace classes.
  - Mapping ELF load segments page by page, and loading the dynamic linker first.
  - Choosing the entry point, and laying out the stack and heap.
  - The per-CPU "accessing user memory" flag.
- **Time conversions** (`time.dfy`). These convert between the kernel's (seconds, nanoseconds) time value and the user `timespec` and `timeval` records.
  - On the 64-bit targets, the three timespec layouts have the same fields and the same conversion code, so one record models all three. The same holds for the three timeval layouts.

Machine integers are subset types of `int` (`ints.dfy`). Reinterpreting casts (`as i64`, `as i32`) are written out. Errors are a `Result` over Linux error numbers (`errors.dfy`).

The loader's collaborators are function-valued fields of an `Env` record:
- the file system;
- the ELF header reader and the load-segment parser;
- the builder of the initial stack image;
- the address-space operations, which may refuse.

The address space is a log of the allocations and writes applied to it. The configured layout constants (`USER_STACK_TOP`, `USER_STACK_SIZE`, `USER_HEAP_BASE`, `USER_HEAP_SIZE`, `USER_INTERP_BASE`) come from a build configuration that is not part of this model, so they are a `UserLayout` parameter. Clone's collaborators are another `Env`: the new task's id, the outcome of copying the address space, and the set of user addresses that translate.

## Model

| member | source | states |
|---|---|---|
| Time.TimespecFromTimeValue | api/src/time.rs:28-33 | nanoseconds are copied; seconds below 2^63 are copied, and larger ones wrap to the negative field secs − 2^64 |
| Time.TimespecToTimeValue | api/src/time.rs:35-40 | EINVAL exactly when nsec < 0, nsec > 999999999 or sec < 0; otherwise exactly (sec, nsec) |
| Time.TimespecRoundTrip | api/src/time.rs:28-40 | time value → timespec → time value is the identity when the seconds fit the signed field; otherwise it is rejected with EINVAL |
| Time.TimespecInverseRoundTrip | api/src/time.rs:28-40 | every accepted timespec is reproduced exactly by converting back |
| Time.TimevalFromTimeValue | api/src/time.rs:76-81 | the microsecond field is the nanoseconds truncated to whole microseconds; seconds below 2^63 are copied, and larger ones wrap to secs − 2^64 |
| Time.TimevalToTimeValue | api/src/time.rs:83-91 | EINVAL exactly when usec < 0, usec > 999999 or sec < 0; otherwise nanos = usec·1000 ≤ 999999000, a multiple of 1000, so nothing carries into the seconds |
| Time.TimevalRoundTrip | api/src/time.rs:76-91 | time value → timeval → time value keeps the seconds and truncates the nanoseconds down to a multiple of 1000 when the seconds fit the signed field; otherwise it is rejected with EINVAL |
| Time.TimevalInverseRoundTrip | api/src/time.rs:76-91 | every accepted timeval is reproduced exactly by converting back |
| Futex.CommandIgnoresOptionFlags | api/src/imp/futex.rs:44 | setting FUTEX_PRIVATE_FLAG or FUTEX_CLOCK_REALTIME never changes the command |
| Futex.Command | api/src/imp/futex.rs:44 | the command has the private and clock bits clear, and putting the word's own private and clock bits back gives the word |
| Futex.GetOrInsert | api/src/imp/futex.rs:75 | afterwards the key has an entry: the existing one, or an empty queue with the flag clear; no other entry changes |
| Futex.NotifyAllIf | api/src/imp/futex.rs:105-121 | the WAKE walk wakes at most `value` waiters, and the woken and remaining counts add up to the queue length |
| Futex.NotifyAllIfPermutes | api/src/imp/futex.rs:105-121 | woken plus remaining is a permutation of the queue: no waiter is lost or duplicated |
| Futex.WakesFirstSelected | api/src/imp/futex.rs:105-121 | the woken waiters are exactly the first min(value, k) of the k waiters the mask selects, in queue order |
| Futex.KeepsLaterSelected | api/src/imp/futex.rs:105-121 | the selected waiters still queued are exactly the selected ones past the first min(value, k) |
| Futex.KeepsPassedOver | api/src/imp/futex.rs:105-121 | every waiter the mask does not select stays queued, in its original order |
| Futex.NotifyAllIfMatchesSelection | api/src/imp/futex.rs:101-125 | the walk agrees with an independent description: it wakes the first min(value, k) of the k waiters the mask selects, keeps the other selected ones and every passed-over one, and what stays queued is the queue with the woken waiters taken out in order, so the interleaving of kept waiters is unchanged |
| Futex.WokenAreEligible | api/src/imp/futex.rs:105-121 | every woken waiter is one the mask selects |
| Futex.NotifyAllIfRemovesWoken | api/src/imp/futex.rs:105-121 | what stays queued is the queue with the woken waiters taken out in order |
| Futex.PlainWakeTakesPrefix | api/src/imp/futex.rs:105-121 | without a bitset, WAKE wakes exactly the first min(value, n) waiters and leaves the rest queued in order |
| Futex.WakeExhaustsSelected | api/src/imp/futex.rs:105-121 | when fewer than `value` were woken, no waiter the mask selects is left queued |
| Futex.WakeStep | api/src/imp/futex.rs:101-125 | no futex for the key: 0 and nothing changes; otherwise the count is ≤ value, exactly that many leave the queue, and the owner-died flag and all other keys are untouched |
| Futex.NotifyOneLoop | api/src/imp/futex.rs:139-144 | the `notify_one` loop wakes min(n, queue length) waiters from the front and leaves the rest in order |
| Futex.RequeueStep | api/src/imp/futex.rs:126-150 | an error exactly when `value` or the requeue count has bit 31 set, or CMP_REQUEUE finds an untranslatable or changed word; an error leaves the table unchanged; on success the result is non-negative and the table's keys grow by key2's futex only |
| Futex.WakeThenMove | api/src/imp/futex.rs:137-148 | for distinct keys: the front min(value, n) waiters are woken; only if that is `value` are up to value2 of the rest appended to key2's queue; the result is woken + moved; other keys are unchanged |
| Futex.Evaluate | api/src/imp/futex.rs:63-73 | the first evaluation records and returns whether the word changed; every later one returns true and changes nothing |
| Futex.OnlyFirstEvaluationReads | api/src/imp/futex.rs:63-73 | over any sequence of word values, only the first answer depends on the word, and the recorded mismatch is that first answer |
| Futex.ReadTimeout | api/src/imp/futex.rs:54-56 | a null pointer means no timeout; an untranslatable one is EFAULT; a translatable one is EINVAL exactly when the timespec is out of range |
| Futex.WaitEnter | api/src/imp/futex.rs:46-83 | a changed word is EAGAIN with nothing changed; a fault or a bad timeout changes neither the table nor the thread; only the futex for the key may be created, and no other entry changes; a blocked thread is queued on that key and only when the word re-read under the lock is unchanged |
| Futex.WaitFinish | api/src/imp/futex.rs:84-99 | a notified waiter swaps the owner-died flag to false and gets EOWNERDEAD exactly when it was set, else 0; a timed-out one gets ETIMEDOUT, leaves the queue, and the flag is untouched |
| Futex.SysFutex | api/src/imp/futex.rs:29-153 | no command ever removes a futex entry from the table |
| Futex.WaitFastPath | api/src/imp/futex.rs:47-52 | a changed word gives EAGAIN before the timeout is read, with no futex created, no waiter queued and no bitset stored |
| Futex.WaitRejectsBadTimeout | api/src/imp/futex.rs:50-56 | an out-of-range timeout is EINVAL only after the fast path passes, and still creates nothing |
| Futex.WaitRegistersIffWordUnchanged | api/src/imp/futex.rs:63-93 | past the timeout check the futex exists; the thread blocks iff the word re-read under the lock is unchanged, and is then appended with its bitset (value3 for WAIT_BITSET); otherwise EAGAIN without blocking |
| Futex.WakeWithoutFutex | api/src/imp/futex.rs:101-124 | WAKE on a key with no futex returns 0 and changes nothing |
| Futex.WakeBitsetSelects | api/src/imp/futex.rs:101-125 | WAKE_BITSET returns min(value, k) for the k waiters whose bitset meets value3; the key's queue afterwards is the old queue with the first min(value, k) of them taken out, so the other waiters keep their relative order |
| Futex.WakePlainTakesFront | api/src/imp/futex.rs:101-125 | plain WAKE returns min(value, n) and leaves the queue without its first min(value, n) waiters |
| Futex.RequeueRejectsNegativeCount | api/src/imp/futex.rs:21-27 | REQUEUE with bit 31 of `value` set is EINVAL and changes nothing |
| Futex.CmpRequeueMismatch | api/src/imp/futex.rs:128-130 | CMP_REQUEUE with a changed word is EAGAIN, with nothing woken, moved or created |
| Futex.RequeueRejectsNegativeMoveCount | api/src/imp/futex.rs:131 | a requeue count (the low 32 bits of the timeout argument) with bit 31 set is EINVAL and changes nothing |
| Futex.RequeueMoves | api/src/imp/futex.rs:126-150 | a valid REQUEUE, or a CMP_REQUEUE whose word equals value3, between distinct keys wakes, moves and counts as WakeThenMove states; key2's futex is created whether or not key1 has one; owner-died flags are untouched |
| Futex.UnknownCommand | api/src/imp/futex.rs:151 | any other command is ENOSYS and changes nothing |
| RobustList.SetRobustList | api/src/imp/futex.rs:176-189 | a wrong size is EINVAL and changes nothing; otherwise only the head address is stored |
| RobustList.GetRobustList | api/src/imp/futex.rs:155-174 | an unknown tid is ESRCH; success exactly when the thread exists and both out-pointers are writable, and then it writes that thread's head and the head size |
| RobustList.CheckedAddSigned | api/src/imp/futex.rs:192-194 | the sum is returned exactly when it stays inside the unsigned 64-bit range |
| RobustList.HandleFutexDeath | api/src/imp/futex.rs:191-209 | an overflowing address is EINVAL; no futex is an Ok no-op; otherwise the futex becomes owner-died and exactly its front waiter is woken |
| RobustList.WalkFrom | api/src/imp/futex.rs:214-232 | the walk reads at most `limit` entries, following next pointers from the cursor, none of them the head; it never hands the pending entry to the handler, and ends in Ok, EFAULT, EINVAL or ELOOP; ELOOP only after exactly `limit` entries; Ok only when the cursor is the head or the last entry read points back to the head |
| RobustList.ExitRobustList | api/src/imp/futex.rs:211-235 | at most 2048 entries are read, the pending entry is skipped, ELOOP comes only after 2048 entries, and Ok only when the list closes at the head |
| RobustList.WalkFollowsRing | api/src/imp/futex.rs:214-232 | on a well-formed circular list, the walk equals the fold of the death handler over the entries; when the list is not shorter than the budget, it is the fold over the first `limit` entries, ending in ELOOP unless a handler failed |
| RobustList.ApplyDeathsSucceeds | api/src/imp/futex.rs:191-209 | the handler never fails when no futex address overflows, so every entry is visited |
| RobustList.RingSucceedsIffShort | api/src/imp/futex.rs:211-235 | on a ring of n non-overflowing entries, the exit walk succeeds iff n ≤ 2047 and visits them all; otherwise ELOOP after exactly the first 2048 |
| RobustList.SingleEntryMarksOwnerDead | api/src/imp/futex.rs:216-224 | a list of one non-pending entry marks its futex owner-died and wakes its front waiter |
| RobustList.UnclosedWalkLoops | api/src/imp/futex.rs:220-232 | when the next pointers from the cursor reach neither the head nor a fault within `limit` entries and no futex address overflows, the walk is ELOOP after exactly `limit` entries |
| RobustList.UnclosedListLoops | api/src/imp/futex.rs:211-235 | a list that does not close within 2048 entries gives ELOOP after 2048 entries |
| RobustList.SelfLoopGivesEloop | api/src/imp/futex.rs:211-235 | an entry pointing to itself is read 2048 times and the walk gives ELOOP |
| Clone.ExitSignal | api/src/imp/task/clone.rs:92-93 | the exit signal is the low byte of the flag word: the word is that byte OR-ed with the word's bits above it |
| Clone.ExitSignalIsUnique | api/src/imp/task/clone.rs:92-93 | no other byte satisfies that decomposition, so the exit signal is exactly the word's low byte |
| Clone.FlagsOf | api/src/imp/task/clone.rs:94 | a flag is decoded exactly when its CLONE_* bit is set; unknown bits are dropped |
| Clone.Signo | api/src/imp/task/clone.rs:107 | the exit signal names a signal exactly when it is 1 to 64 |
| Clone.ChildContext | api/src/imp/task/clone.rs:109-116 | the stack pointer is replaced only for a non-zero stack, the thread pointer only under SETTLS; the return register is 0; the instruction pointer is kept |
| Clone.LineageParent | api/src/imp/task/clone.rs:140-144 | under PARENT the caller's parent, or EINVAL if it has none; otherwise the caller's own process |
| Clone.SignalActionsAsWritten | api/src/imp/task/clone.rs:159-165 | as the code selects the table: under SIGHAND, the lineage parent's table, or a default one if that process has no data; otherwise a default one |
| Clone.SignalActionsAsWrittenSharesWrongTable | api/src/imp/task/clone.rs:159-165 | with PARENT and SIGHAND, the code shares the grandparent's table, not the caller's |
| Clone.SignalActions | api/src/imp/task/clone.rs:159-165 | the caller's own table is shared exactly under SIGHAND; otherwise a default table is used |
| Clone.SignalActionsAgreeWithoutParent | api/src/imp/task/clone.rs:140-165 | without PARENT, the code as written and the corrected selection agree |
| Clone.AddressSpacePlan | api/src/imp/task/clone.rs:147-157 | under VM, the caller's own address space and page-table root; otherwise a copy with the copy's root, or the copy's error |
| Clone.SysCloneReturn | api/src/imp/task/clone.rs:210 | a successful clone returns the new thread id |
| Clone.SysClone | api/src/imp/task/clone.rs:83-211 | decoding the word, then deciding: a success has the new tid, and the parent tid is stored only when the word has CLONE_PARENT_SETTID |
| Clone.SysCloneThreadCarriesVmAndSighand | api/src/imp/task/clone.rs:104-106 | a successful clone whose word has CLONE_THREAD also has CLONE_VM and CLONE_SIGHAND |
| Clone.CloneDecoded | api/src/imp/task/clone.rs:101-211 | a rejected combination is EINVAL with nothing written; a success has a valid combination and the new tid; the parent tid is stored only under PARENT_SETTID, at a writable address, with the new tid |
| Clone.SysFork | api/src/imp/task/clone.rs:213-215 | fork stores no tid, and succeeds exactly when copying the address space succeeds |
| Clone.CloneRejectsBadCombination | api/src/imp/task/clone.rs:101-106 | a non-zero exit signal with THREAD and PARENT, or THREAD without both VM and SIGHAND, is EINVAL with no tid written |
| Clone.CloneFlagInvariants | api/src/imp/task/clone.rs:101-106 | every successful clone has THREAD ⇒ VM and SIGHAND, and THREAD with PARENT ⇒ exit signal 0 |
| Clone.CloneChildSetup | api/src/imp/task/clone.rs:109-200 | a successful child gets the new tid and the child context; its tid is stored at start iff CHILD_SETTID, cleared at exit iff CHILD_CLEARTID, and written to the parent iff PARENT_SETTID |
| Clone.CloneChildTidFault | api/src/imp/task/clone.rs:118-122 | under CHILD_SETTID, an untranslatable child-tid pointer is EFAULT before the new thread exists, with nothing written |
| Clone.CloneThreadPath | api/src/imp/task/clone.rs:133-138 | under THREAD, the child joins the caller's process on the caller's page table |
| Clone.CloneLineage | api/src/imp/task/clone.rs:140-145 | without THREAD, a new process under the caller's parent (PARENT) or the caller; EINVAL when PARENT finds no parent |
| Clone.CloneResourceDecisions | api/src/imp/task/clone.rs:147-193 | without THREAD: the signal-action table is the one the code as written selects, which without PARENT is the caller's exactly under SIGHAND; address space, descriptor table and fs context are each shared exactly when their flag is set and copied otherwise; umask, executable path and exit signal are copied |
| Clone.CorrectedCloneSharesCallerActions | api/src/imp/task/clone.rs:159-165 | with the corrected selection, a new process shares the caller's own signal-action table exactly under SIGHAND |
| Clone.CorrectedCloneAgreesWithoutParent | api/src/imp/task/clone.rs:140-165 | without PARENT, the corrected clone and the clone as written decide the same |
| Clone.CloneCopyFailure | api/src/imp/task/clone.rs:147-154 | a failed address-space copy is the clone's error |
| Clone.ForkWordDecodes | api/src/imp/task/clone.rs:213-215 | the fork flag word SIGCHLD decodes to exit signal 17 and no flags |
| Clone.ForkCopiesEverything | api/src/imp/task/clone.rs:213-215 | fork: a child of the caller with a copied address space, default signal actions, copied tables, exit signal 17, zero return register and no tid bookkeeping; it fails only when the copy fails, and returns the new tid |
| Utf8.Decode | core/src/mm.rs:123 | decoding fails only with InvalidData and yields at most one character per byte |
| Utf8.DecodeEncode | core/src/mm.rs:123 | every string's encoding decodes back to that string |
| Utf8.EncodeDecode | core/src/mm.rs:123 | bytes that decode re-encode to exactly themselves, so decoding accepts exactly the encodings |
| Utf8.AsciiWhitespaceIsWhitespace | core/src/mm.rs:126-127 | ASCII whitespace is Unicode whitespace; among ASCII characters the two classes differ only at vertical tab |
| Shebang.HeaderWindow | core/src/mm.rs:121 | the window is the bytes after `#!`, up to the first 256 bytes of the file |
| Shebang.LineEnd | core/src/mm.rs:122 | the line ends at the first line feed in the window, or at its end |
| Shebang.TrimBy | core/src/mm.rs:126-128 | the trimmed text is a slice of the input whose cut-off ends lie in the class, and which neither starts nor ends in it |
| Shebang.SplitOnce | core/src/mm.rs:127 | one part with no class character when the text has none; otherwise the text is part one, one class character, and part two, with part one free of the class |
| Shebang.TrimEach | core/src/mm.rs:128 | each part is ASCII-trimmed |
| Shebang.ShebangArgs | core/src/mm.rs:120-130 | InvalidData exactly when the line is not UTF-8; otherwise one or two parts |
| Shebang.ShebangArgsShape | core/src/mm.rs:125-130 | the first part is the trimmed line up to its first ASCII whitespace; there is one part exactly when the line has no ASCII whitespace, and it is then the whole line; a second part is the ASCII-trimmed rest after it, and then the first part is not empty |
| Shebang.SingleWordLine | core/src/mm.rs:125-130 | a line without whitespace is the one part |
| Shebang.BinShExample | core/src/mm.rs:120-131 | `#!/bin/sh` and a line feed give exactly ["/bin/sh"] |
| Loader.Apply | core/src/mm.rs:74-85 | an address-space operation fails with the refusal's error, or is appended to the log |
| Loader.SegmentRegion | core/src/mm.rs:69-80 | the mapped region is page-aligned in start and size, covers [vaddr, vaddr + memsz), and is less than one page larger than needed |
| Loader.MapSegments | core/src/mm.rs:62-87 | mapping segments keeps the address-space base and never runs out of fuel |
| Loader.MapSegmentsSucceeds | core/src/mm.rs:62-87 | mapping succeeds iff every segment's vaddr and offset agree modulo 4096, every file slice lies in the file, and every operation is accepted; it then appends each segment's allocation and copy, in order |
| Loader.MapElf | core/src/mm.rs:59-90 | a parser refusal is InvalidData with nothing mapped; success returns that parser |
| Loader.ProgramPath | core/src/mm.rs:108-110 | the explicit path, else the first argument, else InvalidInput |
| Loader.InterpPath | core/src/mm.rs:144-147 | a path exactly when the bytes end in their only NUL and the text before it is UTF-8; the path encodes back to those bytes |
| Loader.LoadInterpreter | core/src/mm.rs:136-155 | no PT_INTERP: nothing is loaded; non-raw header data panics; success means the path parsed, the file read, the ELF parsed, and the result is that parser's entry and base |
| Loader.AddrSub | core/src/mm.rs:171 | address subtraction is defined exactly when it does not go below zero |
| Loader.SetUpStack | core/src/mm.rs:169-201 | success returns sp = stack top − image length, and the log gains exactly: map the stack region [top − size, top), write the image at sp, map the heap, write the image again |
| Loader.LoadElf | core/src/mm.rs:134-203 | bytes that are not ELF give ENOEXEC with nothing mapped |
| Loader.Abandon | core/src/mm.rs:136-203 | a stage that fails or panics ends the load the same way, with the same error |
| Loader.LoadUserApp | core/src/mm.rs:102-110 | with no path and no arguments the load is InvalidInput with nothing mapped |
| Loader.ShellScriptReenters | core/src/mm.rs:112-117 | a `.sh` path re-enters with no path and `/bin/sh` prepended, without reading the script |
| Loader.ShebangReenters | core/src/mm.rs:119-132 | a `#!` file re-enters with no path and its parts prepended, or is InvalidData, with nothing mapped |
| Loader.NotElfIsNoExec | core/src/mm.rs:119-134 | a file that is neither a script nor ELF is ENOEXEC with nothing mapped |
| Loader.LoadElfEntryAndStack | core/src/mm.rs:136-203 | the entry is the dynamic linker's when one is named, else the program's; the stack fits below the stack top; the image is the one built from the program's parser, the linker's base, the arguments and the environment; sp ends it at the stack top; the last four operations map the stack, write the image, map the heap and write it again |
| UserAccess.AccessUserMemory | core/src/mm.rs:211-218 | the closure runs with the flag set; afterwards the flag is false, and the closure's result and state are passed through |
| UserAccess.AccessIgnoresPriorFlag | core/src/mm.rs:211-218 | the outcome does not depend on the flag's earlier value |
| UserAccess.NestedAccessClearsEarly | core/src/mm.rs:211-223 | after a nested call returns, the flag reads false although the outer closure is still running |
| UserAccess.ClosureSeesFlagSet | core/src/mm.rs:209-223 | a closure asking `is_accessing_user_memory` is told yes; asking after the call returns gives no |

## Left out

- Scheduling is not modelled: real blocking, the run-queue lock, `yield_now` and races between threads. A WAIT's resumption (notified or timed out) and the word re-read under the lock are parameters.
- The identity conversion of the kernel's own time value (api/src/time.rs:17-25) has no member. A `TimeValue` is used directly wherever that type is passed.
- The three timespec impls and the three timeval impls each share one model definition. Their bodies are textually identical, and their fields have the same width on 64-bit targets.
- A WAIT that was requeued and then times out is modelled as leaving the original key's queue, since the source keeps the first futex's handle. Where a requeued waiter ends up after timing out is not modelled.
- REQUEUE onto the same key is modelled as a rotation of that one queue. The source would lock the same wait queue twice, and that is not modelled.
- Page tables, the frame allocator, `map_trampoline`, the empty-address-space constructor and `copy_from_kernel` are outside the model. Address-space operations are a log that an `Env` collaborator may refuse. Changes made before a failure stay in the log.
- ELF parsing, `aux_vector` and `app_stack_region` are outside the model. Segments, the interpreter header and the stack image come from `Env` collaborators.
- File-system reads and user-pointer translation are outside the model. User memory is a partial map, and an address outside it faults.
- Errors from the underlying framework keep their kind (InvalidInput, InvalidData). Their conversion to Linux error numbers is not modelled.
- Loader.AddrSub: a virtual-address subtraction that would go below zero is modelled as a panic, like the debug-build overflow check.
- Loader.LoadUserApp: script and `#!` re-entries are bounded by a fuel parameter. The program itself does not bound them, so a chain of scripts longer than the fuel ends in OutOfFuel.
- Loader.MapSegments: the sums `offset + filesz` and `memsz + pad + 4095` are unbounded integers. The program computes them in 64 bits, and overflow there is not modelled. The contract states only the base and the kinds of outcome; Loader.MapSegmentsSucceeds states the rest.
- Futex.SysFutex: its own contract states only that entries are never removed. The behaviour of each command is stated by the lemmas in the table.
- RobustList.WalkFrom: its contract states bounds, the entries read, error kinds and when it succeeds. Its agreement with the fold over the list is RobustList.WalkFollowsRing.
- Clone.SysClone: the bits-to-decision reading of the word covers the new tid, the parent-tid write and the CLONE_THREAD requirement; the rest is stated on the decoded form by Clone.CloneDecoded and the lemmas about it.
- Clone.ExitSignal: the low byte is stated bitwise, as a decomposition of the word. The equivalent arithmetic statement (word mod 256) is not stated, because relating the bit-vector to an integer is too costly for the verifier.
- Clone.Signo: the signal subsystem's `from_repr` is not part of this model; signal numbers 1 through 64 are taken as valid.
- Creating the kernel thread is outside the model: the thread table, `ThreadData::new`, the `TaskExt` proxy, and reference-counted sharing. "Share" and "copy" are tags in the plan.
- The clone flag word is only decoded. An encoder and a round trip over all 22 flags were left out because bit-vector reasoning over that many symbolic flags is too costly.
- Logging and the per-CPU storage mechanism are not modelled.
- The socket-name wrappers in api/src/imp/net/name.rs are left out: their logic is in socket code that is not part of this model.
- core/src/lib.rs is left out because it only declares modules.

## Findings

| source | as written | input that shows it | evidently intended | confidence | as-written member | corrected member |
|---|---|---|---|---|---|---|
| api/src/imp/task/clone.rs:159-165 | under CLONE_SIGHAND, the new process shares the signal-action table of `parent`, the lineage parent, which under CLONE_PARENT is the caller's own parent | clone with VM, SIGHAND and PARENT from a process whose parent has its own table: the child shares the grandparent's handlers | CLONE_SIGHAND shares the calling process's table, as in clone(2) | medium, not executed | Clone.SignalActionsAsWrittenSharesWrongTable | Clone.SignalActions |
