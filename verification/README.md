# Verified models of the Pascal operating system

Pascal is a small preemptive operating system for Cortex-M0 processors. This
project models its hard parts in Dafny and proves that they do what the code
and its documentation promise, for all inputs and all runs.

**The kernel.** `Kernel.dfy` is the round-robin kernel as a state machine:
ticks, sleep, yield, the mutex, and the two halves of registering a task, in any
interleaving and for any number of tasks. Which sleepers wake up, who gets a free
mutex and who runs next is defined declaratively. `Scheduler.dfy` is the code:
the table of task structures as an array that every handler updates in place,
with the wake-up loop and the two wrapping scans; each handler is proved to be
the step of the same name. Over whole runs, `Fairness.dfy` proves freedom from
starvation with an explicit bound and both bounds on sleep, `MutexSafety.dfy`
proves mutual exclusion (one step keeps it exactly when the client is
disciplined), that no wake-up is lost, and that the mutex is *not* starvation
free, and `ContextSwitch.dfy` proves that one processor with a context switch
refines a machine in which each task has registers of its own.

**The circular buffer.** `CircularBuffer.dfy` keeps the history of a buffer
beside its three counters, which wrap at 2^32, and its two indices, which wrap
at the size. It proves which write a read returns in every run, overflowing or
not, that this is the oldest element exactly when the number of overflows is a
multiple of the size, that runs without overflow are a FIFO queue, that the
occupancy computed from wrapped counters is exact, and that buffers set up over
the allocator of `Allocator.dfy` do not disturb each other.

**Memory cards.** `Polynomial.dfy` and `Crc7.dfy` prove that the bitwise CRC is
division by x^7 + x^3 + 1 although its register keeps a stale bit, that the test
on the CSD and CID registers accepts exactly the multiples of this polynomial,
and that it rejects all bursts of up to seven wrong bits and any two wrong bits.
`BitField.dfy` proves that swapping the bytes of four words and applying
`UNSTUFF_BITS` gives a field of the 128-bit number that the bytes are, and
`CardInfo.dfy` that the decoders store the fields of sections 5.2 and 5.3 of the
SD Physical Layer Simplified Specification, and when the size is right.

**Formatted output.** `NumberText.dfy` proves that numbers survive being written
and read, without leading zeros and in a buffer whose size is tight, and for
exactly which numbers the 32-bit arithmetic of the code computes the numeral.
`Format.dfy` proves that the parser of directives gives back what was written and
never steps over the end of the format. `Printf.dfy` proves that the callback
gets exactly the literals and the arguments as text.

Loops and updates in place are methods over arrays and classes; their
specification functions carry the theorems. Words of 32 bits and optional values
are in `Common.dfy`, division with remainder and powers in `Modular.dfy`.

## Where the code is not what it looks like

- After an overflow the read index of a circular buffer stays where it is:
  after a, b and c are written into two cells, a read returns c
  (`CircularBuffer.OverflowBreaksOrder`; the exact condition is `ReadsOldestIff`).
- `cbuff_is_overflowed` returns a counter that wraps, so a positive multiple of
  2^32 overflows reads as none (`CircularBuffer.Cbuff.IsOverflowed`,
  `CircularBuffer.OverflowsForgotten`).
- The size of a version 1 card is computed in 32 bits and is right exactly when
  the capacity is below 4 GiB (`CardInfo.SizeIsCapacityIff`,
  `CardInfo.LargestCardReadsAsZero`). The size of a version 2 card is always too
  large (`CardInfo.Version2SizeIsWrong`).
- The fixed last byte of the CMD55 frame is not its check byte
  (`Crc7.AppCommandHasNoCheck`).
- `ll` stores "NaN" without an end mark, so what is shown depends on what is left
  in a buffer on the stack (`Printf.LongLongShowsStaleText`, and
  `Printf.LongLongRepeats` for an example).
- `ui2a` takes 64-bit numbers, but computes its divisor and the product `dgt*d`
  in 32 bits: for 5 * 10^9 in base 10 the second character stored is an `a`
  (`NumberText.WrongDigit`), and for 2^32 in base 16 it divides by zero
  (`NumberText.DivisorVanishes`). The exact range is
  `NumberText.StoresNumeralIff`. `cnprintf` passes 32-bit numbers only.
- A free mutex goes to the waiter with the least index at the next dispatch, and
  a running task may take it again before that, so a waiter may wait for ever
  (`MutexSafety.WaiterMayStarve`; how long it waits is `WaitsUntilGranted`).

## Model

| member | source | states |
|---|---|---|
| `Kernel.RunInv` | src/scheduler.c:78-209 | By induction over the run, from the first state alone: in every state, also between the two halves of a registration, exactly one task is RUNNING, it is current_tid, current_tid <= registered_tasks < MAX_TASKS, and every published slot is in one scheduling state; the table keeps its size, the clock and the number of tasks never decrease |
| `Kernel.InitInv` | src/scheduler.c:103-112 | The state after scheduler_init satisfies this invariant |
| `Kernel.Step` | src/scheduler.c:166-209 | Every enabled step leads from an invariant state to an invariant state |
| `Kernel.Dispatch` | src/scheduler.c:91-97 | Choosing a task from any state in which nobody runs restores the invariant |
| `Kernel.Wake` | src/scheduler.c:118-130 | Waking up makes nobody RUNNING and leaves idle READY |
| `Kernel.Pick` | src/scheduler.c:132-163 | The task chosen is the nearest READY one in cyclic order behind ctid, ctid excluded, and idle if there is none |
| `Kernel.PickExistsOnce` | src/scheduler.c:132-163 | This names exactly one task, from every ctid, idle included |
| `Kernel.NextInOrder` | src/scheduler.c:142-159 | In plain terms: the choice is READY and not ctid; if it is behind ctid, none in between is READY; if it is in front of ctid, none behind ctid and none before it is READY; if it is idle, nobody but ctid is READY |
| `Kernel.DispatchedTask` | src/scheduler.c:118-130 | What a dispatch does to each single task: it wakes if its time is over or it is granted the mutex, and runs if it is chosen, for which it must be READY; the mutex is locked afterwards if it was or somebody waited |
| `Kernel.StepFrame` | src/scheduler.c:78-97 | Only a tick moves the clock, by one; only publishing changes the number of tasks, by one; the table keeps its size |
| `Scheduler.FlagTests` | src/scheduler.c:115-127 | In a task with one state flag each bit test is a comparison of states, and the flags have the values of the source |
| `Scheduler.Services` | src/isr.c:51-65 | Service 0 yields, 1 sleeps for r0 read as a signed 32-bit number, 2 locks, 3 unlocks, and no other number does anything |
| `Scheduler.Kern.constructor` | src/scheduler.c:103-112 | The fields after scheduler_init stand for the initial state of the machine |
| `Scheduler.Kern.UpdateState` | src/scheduler.c:118-130 | The in-place loop wakes exactly the expired sleepers, gives a free mutex to the waiter with the least index and to nobody else, and locks it then |
| `Scheduler.Kern.ScanFromIdle` | src/scheduler.c:142-148 | The scan from idle ends at the first READY task, or at idle if there is none |
| `Scheduler.Kern.ScanFrom` | src/scheduler.c:149-159 | The wrapping scan ends at the nearest READY task behind ctid in cyclic order, never at ctid, or at idle if there is none |
| `Scheduler.Kern.PeekNext` | src/scheduler.c:132-163 | Without tasks nothing changes and idle is chosen; otherwise the tasks are woken up and the declarative choice is returned, which the contract also states on the state flags of the array, in the order of the round |
| `Scheduler.Kern.Scheduler` | src/scheduler.c:78-97 | The tick handler is the step Tick |
| `Scheduler.Kern.TaskSleep` | src/scheduler.c:166-178 | The handler is the step Sleep |
| `Scheduler.Kern.TaskYield` | src/scheduler.c:181-191 | The handler is the step Yield |
| `Scheduler.Kern.MutexLock` | src/scheduler.c:193-204 | The handler is the step Lock: it takes a free mutex without a dispatch, and blocks and dispatches otherwise |
| `Scheduler.Kern.MutexUnlock` | src/scheduler.c:206-209 | The handler is the step Unlock |
| `Scheduler.Kern.FillSlot` | src/scheduler.c:231-272 | The first half of registration is the step Fill; it returns 0, or -1 when the table is full |
| `Scheduler.Kern.PublishSlot` | src/scheduler.c:274-275 | The second half is the step Publish |
| `Scheduler.Kern.TaskSaveContext` | src/arch/arm/cortex-m0/scheduler_s.s:38-49 | psp and r4 to r7 are stored in the structure of the current task and nothing else changes |
| `Scheduler.Kern.TaskRestoreContext` | src/arch/arm/cortex-m0/scheduler_s.s:58-71 | psp and r4 to r7 are loaded from the structure of the current task and the kernel does not change |
| `Scheduler.Kern.SysTickHandler` | src/arch/arm/cortex-m0/isr_s.s:38-41 | Save, kernel step and restore are one step of the machine |
| `Scheduler.Kern.SvcCHandler` | src/isr.c:39-66 | Number by number: 0 is the step Yield, 1 Sleep for r0 as a signed number, 2 Lock, 3 Unlock, and all others change nothing |
| `Scheduler.Kern.SvcHandler` | src/arch/arm/cortex-m0/isr_s.s:48-52 | Save, the service of this number and restore are one step of the machine |
| `Fairness.DispatchApproaches` | src/scheduler.c:132-163 | A dispatch chooses a given ready task or brings it strictly nearer in cyclic order; it does not choose idle meanwhile |
| `Fairness.ReadyTaskRuns` | README.md:26 | A ready task stays READY until it is chosen, and is chosen after at most as many dispatches, of any kind, as its cyclic distance from the current task, even while tasks are being registered |
| `Fairness.NoStarvation` | README.md:26 | A ready task runs within n dispatches |
| `Fairness.NoStarvationAfterPreemption` | README.md:26 | A task that was preempted or has yielded runs again within n + 1 dispatches |
| `Fairness.SleepsLongEnough` | README.md:16 | A task that calls sleep(s) at jiffy j sleeps in every state until the clock is past j + s, so it is not current before jiffy j + s + 1 |
| `Fairness.SleepIsBounded` | README.md:16 | It is current again at the latest by the tick that makes jiffy j + s + n, for n tasks; a negative time counts as zero |
| `Fairness.FallsAsleep` | src/scheduler.c:166-178 | sleep(s) puts the caller to sleep until j + s, unless s is negative: then it is ready at once |
| `Fairness.SleepsOn` | src/scheduler.c:118-125 | One step keeps a sleeper asleep up to its deadline, and the tick past the deadline makes it run or ready |
| `Fairness.ReadyTaskRunsInTime` | src/scheduler.c:132-163 | A ready task is current before the clock has moved by its cyclic distance |
| `MutexSafety.ExclusionStep` | src/scheduler.c:118-130 | One step keeps mutual exclusion exactly when the client neither locks what it holds nor unlocks what somebody else holds |
| `MutexSafety.MutualExclusion` | src/scheduler.c:193-209 | In every state of every disciplined run at most one task holds the mutex, it does not wait for it, and mutex == 1 exactly when there is a holder |
| `MutexSafety.CountHolders` | src/scheduler.c:193-209 | So the number of holders is the value of mutex |
| `MutexSafety.HandOff` | src/scheduler.c:125-128 | A dispatch with the mutex free hands it to the waiter with the least index, which may run then, and to nobody else |
| `MutexSafety.NoHandOff` | src/scheduler.c:125-128 | Otherwise holders and mutex stay, and only a caller of lock begins to wait |
| `MutexSafety.DispatchForgetsNobody` | src/scheduler.c:118-130 | After every dispatch no task sleeps past its deadline and none waits for a free mutex |
| `MutexSafety.WaitingHasAReason` | src/scheduler.c:193-209 | Whenever a task waits in a disciplined run: if the mutex is taken, another task that does not wait holds it; if it is free, it was freed since the last dispatch |
| `MutexSafety.NextDispatchGrants` | src/scheduler.c:118-130 | A free mutex with waiters goes to the one with the least index at the next dispatch, which is then the only holder |
| `MutexSafety.WhoWaits` | src/scheduler.c:193-204 | In a dispatch exactly the task that is granted the mutex stops waiting, and exactly the caller of a failed lock begins to |
| `MutexSafety.WaitsUntilGranted` | src/scheduler.c:118-130 | In every run, disciplined or not: a task waits from state i to state k exactly if no dispatch in between finds the mutex free and nobody with a smaller index waiting |
| `MutexSafety.ContentionArises` | src/scheduler.c:193-209 | From the state after scheduler_init a disciplined run leads to a free mutex with task 1 running and task 2 waiting |
| `MutexSafety.WaiterMayStarve` | src/scheduler.c:193-209 | For every m there is a disciplined run from the state after scheduler_init in which task 1 takes the free mutex m times, is preempted and resumed before it frees it each time, and task 2 waits all the time |
| `ContextSwitch.StepKeepsContexts` | src/scheduler.c:78-275 | No kernel step writes a saved context, except that registration sets the stack pointer of its unused slot |
| `ContextSwitch.MachineInv` | src/arch/arm/cortex-m0/isr_s.s:38-52 | The kernel invariant holds in every state of every run of the machine, from the first state alone |
| `ContextSwitch.MachineRefinesIdeal` | src/arch/arm/cortex-m0/scheduler_s.s:38-71 | In every run the machine with one processor and a context switch shows each task the registers it would have on a processor of its own |
| `ContextSwitch.ResumesWithItsRegisters` | src/arch/arm/cortex-m0/isr_s.s:38-52 | A task that is switched out and runs again finds the psp and r4 to r7 it had, whatever happened in between |
| `ContextSwitch.StartsWithItsRegistration` | src/scheduler.c:267-272 | A new task starts with the stack pointer of its registration |
| `CircularBuffer.LatestIsLargest` | src/circular_buffer.c:63-84 | After any history a successful read returns write number k, the largest k congruent to the number of reads modulo the size |
| `CircularBuffer.ReadsOldestIff` | src/circular_buffer.c:86-100 | This is the head of a drop-oldest queue exactly when the number of overflows is a multiple of the size |
| `CircularBuffer.ErrorsMatch` | src/circular_buffer.c:70-73 | In every run the buffer returns as many results as a bounded queue, and the same ones are errors |
| `CircularBuffer.QueueIsTail` | src/circular_buffer.c:86-100 | The bounded queue is always what was written last, from write reads + overflows on |
| `CircularBuffer.FifoWithoutOverflow` | src/circular_buffer.c:63-100 | In a run without overflow all reads return what a FIFO queue returns, errors included |
| `CircularBuffer.OverflowBreaksOrder` | src/circular_buffer.c:89-98 | One overflow is enough to read the newest element first |
| `CircularBuffer.OccupancyIsExact` | src/circular_buffer.c:36 | _readable computed from three counters that wrap at 2^32 is the true number of elements, in arbitrarily long runs |
| `CircularBuffer.Cbuff.Init` | src/circular_buffer.c:38-48 | A buffer whose block was granted is empty and valid; the address is what sbrk returned |
| `CircularBuffer.Cbuff.IsFull` | src/circular_buffer.c:50-54 | The answer is exact |
| `CircularBuffer.Cbuff.IsOverflowed` | src/circular_buffer.c:56-60 | The number of overflows modulo 2^32, so zero exactly for its multiples |
| `CircularBuffer.OverflowsForgotten` | src/circular_buffer.c:56-60 | Every positive multiple of 2^32 overflows is reached, which reads as none |
| `CircularBuffer.Cbuff.CbuffRead` | src/circular_buffer.c:63-84 | An empty buffer gives value 0 and error 1 and stays; otherwise the element of the latest write to the cell of the read index and error 0 are returned and one more read is counted; counters, index and cells agree with it |
| `CircularBuffer.Cbuff.CbuffWrite` | src/circular_buffer.c:86-100 | The new state is that of a write to the unbounded history, and exactly one cell, in the block, changes |
| `CircularBuffer.BuffersAreIndependent` | src/circular_buffer.c:38-100 | In any interleaving of operations on disjoint blocks each block holds what it would hold alone, whatever is written to the others |
| `CircularBuffer.Interleave` | src/circular_buffer.c:63-100 | The same of calls of cbuff_read and cbuff_write on any number of buffers over one memory, in any order: each buffer ends in the state it would have alone, and its reads return what they would return alone |
| `CircularBuffer.InitsAreAlone` | src/circular_buffer.c:38-48 | Buffers set up by calls of cbuff_init that were granted their blocks satisfy what this requires |
| `CircularBuffer.InitsAreApart` | src/syscall.c:84-93 | In any sequence of cbuff_init calls the blocks granted lie in the heap and do not overlap |
| `CircularBuffer.InitsArePlaced` | src/circular_buffer.c:41 | So buffers that were set up this way are independent |
| `Allocator.Heap.SysSbrk` | src/syscall.c:70-94 | A request, positive or negative, is granted at the old top of the heap exactly if the new top lies between address 0 and the end; otherwise errno is ENOMEM and nothing else changes |
| `Polynomial.RemainderIsUnique` | src/dev/mmc/mmc_spi.c:41-59 | Division by x^7 + x^3 + 1 has one remainder |
| `Polynomial.CrcIsRemainder` | src/dev/mmc/mmc_spi.c:50-54 | The check register is M(x) * x^7 modulo x^7 + x^3 + 1 for every message |
| `Polynomial.CrcIsLinear` | src/dev/mmc/mmc_spi.c:50-54 | The check register of the exclusive or of two messages is the exclusive or of theirs |
| `Polynomial.MultiplesAreWide` | src/dev/mmc/mmc_spi.c:259 | A multiple of the generator spans at least eight bits |
| `Polynomial.OrderIs127` | src/dev/mmc/mmc_spi.c:259 | x has order 127 modulo the generator: of its powers from 1 to 127 only the last one is 1 |
| `Polynomial.TwoPowersAreNotDivisible` | src/dev/mmc/mmc_spi.c:259 | A sum of two powers less than 127 apart is not a multiple |
| `Crc7.Turn` | src/dev/mmc/mmc_spi.c:50-54 | One turn on the 8-bit register divides by one more bit, whatever its stale top bit is |
| `Crc7.FeedByte` | src/dev/mmc/mmc_spi.c:48-54 | The inner loop divides by the eight bits of a byte, most significant first |
| `Crc7.MmcCrc7` | src/dev/mmc/mmc_spi.c:41-59 | The result is the remainder of the message in the top seven bits, and the end bit |
| `Crc7.CheckRegister` | src/dev/mmc/mmc_spi.c:259 | The comparison accepts exactly the registers whose last byte is the check byte of the first 15 |
| `Crc7.AcceptsMultiples` | src/dev/mmc/mmc_spi.c:285 | The test accepts exactly the multiples of the generator that end with the end bit |
| `Crc7.ErrorIsSeenIff` | src/dev/mmc/mmc_spi.c:259 | A corrupted register is accepted exactly when the end bit is set and the error is a multiple of the generator |
| `Crc7.BurstIsRejected` | src/dev/mmc/mmc_spi.c:285 | Every corruption of a valid register by a burst of at most seven bits, a single one included, is rejected |
| `Crc7.TwoErrorsAreRejected` | src/dev/mmc/mmc_spi.c:285 | Every corruption of a valid register by two bits is rejected |
| `Crc7.ArgumentRoundTrip` | src/dev/mmc/mmc_spi.c:86-89 | The four argument bytes give the argument back |
| `Crc7.ArgumentInOrder` | src/dev/mmc/mmc_spi.c:86-89 | They are its four bytes, the most significant one first |
| `Crc7.FillFrame` | src/dev/mmc/mmc_spi.c:112-117 | Six bytes hold the command, the four bytes of the argument in order and the check byte of these five; the other bytes stay |
| `Crc7.MmcSendCmd` | src/dev/mmc/mmc_spi.c:81-92 | An idle byte and such a frame are sent |
| `Crc7.MmcSendAcmd` | src/dev/mmc/mmc_spi.c:95-119 | CMD55 with a fixed last byte, four idle bytes and such a frame are sent |
| `Crc7.AppCommandHasNoCheck` | src/dev/mmc/mmc_spi.c:100-105 | This fixed byte is not the check byte of CMD55 |
| `Crc7.ResetCommandHasCheck` | src/dev/mmc/mmc_spi.c:381-386 | The last byte 0x95 that the source writes out for the reset command is its check byte |
| `BitField.UnstuffIsField` | src/dev/mmc/mmc.h:48-60 | The macro extracts bits start to start + size - 1 of the number that four words are, for every width up to 32 and across word boundaries |
| `BitField.BitUnstuff` | src/dev/mmc/mmc.h:56-59 | Bit i of the result is bit start + i of the number, and no bit from size on is set |
| `BitField.FieldIsQuotient` | src/dev/mmc/mmc.h:48-60 | The field is floor(V / 2^start) mod 2^size |
| `BitField.SwapWords` | src/dev/mmc/mmc_spi.c:61-73 | Four bytes are reversed in place, the others stay |
| `BitField.SwapAll` | src/dev/mmc/mmc_spi.c:261-262 | The loop reverses each of the four words |
| `BitField.SwappedNumber` | src/dev/mmc/mmc_spi.c:261-262 | After swapping, the four little-endian words are the number that the 16 raw bytes are, most significant first |
| `BitField.FieldOfBytes` | src/dev/mmc/mmc.h:48-60 | Swapping and unstuffing gives floor(V / 2^start) mod 2^size for the raw bytes V |
| `BitField.FieldOfSpan` | src/dev/mmc/mmc.h:48-60 | A field that lies in some of the bytes is the field of the number that these bytes are |
| `CardInfo.MmcInfo.SdDecodeCsd` | src/dev/mmc/mmc_spi.c:200-225 | The fields stored are those of the register, by its version; for version 1 the size is floor((C_SIZE + 1) * 2^(C_SIZE_MULT + 2 + READ_BL_LEN) / 2^20) exactly when the product is below 2^32; for version 2 it is C_SIZE + 512, which exceeds the capacity in MiB; an unknown version returns -1 and leaves the size as it was |
| `CardInfo.MmcInfo.MmcDecodeCsd` | src/dev/mmc/mmc_spi.c:227-248 | The fields and the size stored are those that the other decoder stores for version 1, with the same exact condition on the size |
| `CardInfo.MmcInfo.ReadCsd` | src/dev/mmc/mmc_spi.c:259-272 | On the raw bytes: nothing changes and -1 is returned when the check fails; otherwise each field stored is given bit by bit by the bytes that hold it, the size by its version, and -1 is returned exactly for an unknown version |
| `CardInfo.MmcInfo.ReadCid` | src/dev/mmc/mmc_spi.c:285-300 | On the raw bytes: -1 and no change exactly when the check fails, otherwise each field is given by the bytes that hold it, and the two names |
| `CardInfo.CsdBytes` | src/dev/mmc/mmc_spi.c:205-219 | Which bytes hold the CSD fields that are extracted |
| `CardInfo.CidBytes` | src/dev/mmc/mmc_spi.c:293-298 | Which bytes hold the CID fields that are extracted |
| `CardInfo.StrNCpy` | src/lib/libc/string/strncpy.c:34-61 | The bytes up to the first zero, then zeros, exactly num in all |
| `CardInfo.Version1Size` | src/dev/mmc/mmc_spi.c:214-216 | The size computed in 32 bits is floor((C_SIZE + 1) * 2^(C_SIZE_MULT + 2 + READ_BL_LEN) / 2^20) exactly when the product is below 2^32 |
| `CardInfo.CapacityIsPower` | src/dev/mmc/mmc_spi.c:214-216 | The product of the three factors is (C_SIZE + 1) * 2^(C_SIZE_MULT + 2 + READ_BL_LEN) |
| `CardInfo.SizeIsCapacityIff` | src/dev/mmc/mmc_spi.c:243-245 | The same for all field values |
| `CardInfo.BlocksFit` | src/dev/mmc/mmc_spi.c:214-215 | The number of blocks does not overflow an int |
| `CardInfo.LargestCardReadsAsZero` | src/dev/mmc/mmc_spi.c:216 | A register with the largest C_SIZE and C_SIZE_MULT and blocks of 2 KiB, that is 4 GiB, reads as zero |
| `CardInfo.Version2SizeIsWrong` | src/dev/mmc/mmc_spi.c:219 | The size stored for version 2 is in no case the capacity of (C_SIZE + 1) * 512 KiB in MiB: it is too large for every C_SIZE |
| `NumberText.DigitsRoundTrip` | src/lib/libc/stdio/printf.c:173-190 | Reading the numeral of a number gives the number, in every base up to 36 |
| `NumberText.SignedRoundTrip` | src/lib/libc/stdio/printf.c:192-200 | The same for negative numbers, which alone begin with a minus sign |
| `NumberText.NoLeadingZero` | src/lib/libc/stdio/printf.c:184 | Only the numeral of zero begins with 0 |
| `NumberText.CharOfDigit` | src/lib/libc/stdio/printf.c:185 | The character stored for a digit is the one of its numeral; below 16 it is that of 0123456789ABCDEF |
| `NumberText.DigitCount` | src/lib/libc/stdio/printf.c:173-190 | A number has at most k + 1 digits exactly when it is below base^(k + 1) |
| `NumberText.TextFits` | src/lib/libc/stdio/printf.c:205 | What %d, %u and %x store of a 32-bit number fits 12 bytes, with the end mark and with 0x in front of a signed hexadecimal numeral |
| `NumberText.TextFillsBuffer` | src/lib/libc/stdio/printf.c:205 | Both bounds are reached |
| `NumberText.Fits32` | src/lib/libc/stdio/printf.c:177-183 | For every 32-bit number and every base the power for the first digit, and its product with this digit, fit 32 bits |
| `NumberText.StoresNumeral` | src/lib/libc/stdio/printf.c:173-190 | Whenever these two fit 32 bits, in any base up to 36, what the cut operators compute is the numeral |
| `NumberText.StoresSigned32` | src/lib/libc/stdio/printf.c:192-200 | So i2a stores the signed numeral of every number that cnprintf passes |
| `NumberText.StoresNumeralIff` | src/lib/libc/stdio/printf.c:173-190 | The exact range of ui2a: with the divisor and the product dgt*d cut to 32 bits as in the code, it stores the numeral of n in base 10 exactly for n below 5 * 10^9, in base 16 exactly for n below 2^32 |
| `NumberText.WrongDigit` | src/lib/libc/stdio/printf.c:181-185 | From 5 * 10^9 to 10^10 the second character is none of the numeral; for 5 * 10^9 it is an a |
| `NumberText.TooLong` | src/lib/libc/stdio/printf.c:178-187 | A number with more digits than the divisors below 2^32 have is never stored as its numeral |
| `NumberText.DivisorVanishes` | src/lib/libc/stdio/printf.c:178-179 | For 2^32 in base 16 the divisor becomes 0 and the code divides by it |
| `NumberText.LeadingPower` | src/lib/libc/stdio/printf.c:177-179 | The loop ends for all 64-bit numbers in even bases and all 32-bit numbers in any base, with the divisor, cut to 32 bits in each turn, of its specification, which is the power for the first digit when this fits |
| `NumberText.Ui2a` | src/lib/libc/stdio/printf.c:173-190 | The text that the cut operators compute, whose relation to the numeral is StoresNumeralIff, and its end mark are stored from the pointer on, and nothing else changes; it reports when the code divides by zero |
| `NumberText.I2a` | src/lib/libc/stdio/printf.c:192-200 | The same with a sign |
| `Format.ParseDirective` | src/lib/libc/stdio/printf.c:65-171 | The four stages end within the format and step over no end mark |
| `Format.Codes` | src/lib/libc/stdio/printf.c:36-55 | Characters and bits of flags, lengths and specifiers are those of the source |
| `Format.ParseSpelled` | src/lib/libc/stdio/printf.c:65-171 | However a directive is written, behind and in front of any text, the parser gives back its flag, width, length and specifier and stops right behind it |
| `Format.ParsePrinted` | src/lib/libc/stdio/printf.c:65-171 | Printing the fields of a directive and parsing the text gives the same fields |
| `Format.SFmt.FmtFlags` | src/lib/libc/stdio/printf.c:65-92 | One flag is read at most |
| `Format.SFmt.FmtWidth` | src/lib/libc/stdio/printf.c:94-117 | The digits up to the first character that is none are read as a decimal numeral |
| `Format.SFmt.FmtLength` | src/lib/libc/stdio/printf.c:119-141 | h, hh, l and ll are told apart |
| `Format.SFmt.FmtSpecifier` | src/lib/libc/stdio/printf.c:143-171 | One specifier is read, if there is one |
| `Format.SFmt.ParseNext` | src/lib/libc/stdio/printf.c:214-223 | The four stages in a row compute the specified parse |
| `Printf.StoreNumber` | src/lib/libc/stdio/printf.c:225-261 | The argument is stored as a numeral; ll stores NaN without an end mark and takes no argument |
| `Printf.StoreConversion` | src/lib/libc/stdio/printf.c:224-262 | Each specifier takes its argument and leaves the specified text in the buffer |
| `Printf.SendBuffer` | src/lib/libc/stdio/printf.c:263-267 | The buffer is sent up to its first end mark; without one the loop leaves the buffer |
| `Printf.Cnprintf` | src/lib/libc/stdio/printf.c:202-272 | On every format and whatever is on the stack the loop ends, and the callback gets the specified text, or the effect is undefined because arguments and directives do not match or the buffer has no end mark |
| `Printf.ConvertShows` | src/lib/libc/stdio/printf.c:224-262 | Whatever the buffer held, a directive without ll shows its argument |
| `Printf.ShownIsArgument` | src/lib/libc/stdio/printf.c:224-262 | What is shown, read back: a %d gives the argument word as a signed number, %u as an unsigned one, %x the signed number in base 16 behind 0x, %s the string, %c the low byte |
| `Printf.EmitShows` | src/lib/libc/stdio/printf.c:202-272 | For every format of literals and d, i, u, c, s and x directives without ll, however written, the callback gets exactly the concatenation of the literals and the arguments as text, of all items that start within the first size characters |
| `Printf.FormatShows` | src/lib/libc/stdio/printf.c:202-272 | So a call with such a format has exactly one result, whatever is on the stack |
| `Printf.SourceHasNoNul` | src/lib/libc/stdio/printf.c:209 | Such a format has no end mark inside |
| `Printf.LongLongShowsStaleText` | src/lib/libc/stdio/printf.c:225-261 | With any arguments a directive with ll takes none and stores NaN in front of what is left in the buffer, so NaN is shown exactly if there happens to be an end mark behind it |
| `Printf.LongLongAfterNumber` | src/lib/libc/stdio/printf.c:230-231 | Behind a %x, and behind a %d or %u of three characters or more, all characters of its text but the first three are shown once more |
| `Printf.LongLongRepeats` | src/lib/libc/stdio/printf.c:202-272 | For "%d%lld" and 12345 the only result is 12345NaN45 |

## Left out

- Kernel.Step: jiffy is unbounded and sleep_until does not overflow, because the comparison of src/scheduler.c:122 is not meant to survive a wrap and signed overflow is undefined in C; the handlers in `Scheduler.dfy` require that none happens.
- Scheduler.Kern.Scheduler: signals (src/scheduler.c:84-89) are not modelled; signal_flag is 0.
- MutexSafety.MutualExclusion: assumes a disciplined client, because unlock does not check who calls it; `ExclusionStep` shows that this is necessary at every step.
- Scheduler.Kern.TaskSleep: idle (tid 0) does not call it; the wake-up loop starts at 1 and would never wake it. The deadline fits a long.
- Scheduler.Kern.MutexLock: idle does not call it either.
- Scheduler.Kern.SvcCHandler: the same for services 1 and 2 called by idle, and for the deadline of service 1; reading the service number from the instruction stream is a hardware detail.
- Scheduler.Kern.SvcHandler: as for SvcCHandler.
- Scheduler.Kern.FillSlot: the stack pointer is a parameter; assembling the first stack frame and placing the stack (src/scheduler.c:237-266) is not modelled. Only one registration is in progress at a time.
- ContextSwitch.MachineRefinesIdeal: r8 to r11, the registers that the processor stacks itself, the size of 32 bytes of a task structure and reloading the timer are hardware details.
- CircularBuffer.Cbuff.Init: buffers of size 0 or whose block was refused are never valid; the source does not check for them and would write through the address.
- Allocator.Heap.SysSbrk: the heap lies in the lower half of the address space, as the RAM of a Cortex-M0 does.
- Crc7.MmcSendCmd: what is received, polling, the OCR register, sector input and output and the dialogue with the card are device code.
- CardInfo.MmcInfo.ReadCsd: the capacity of version 2 cards is what the code computes, not what the standard says.
- NumberText.LeadingPower: numbers from 2^32 on in odd bases, for which the loop of the source need not end; the source uses bases 10 and 16 only.
- NumberText.Ui2a: the same numbers in odd bases; where the code divides by zero the model stops.
- NumberText.I2a: the same, and the most negative number, which has no negation in C.
- Format.SFmt.FmtWidth: the width is unbounded, an int that overflows in the source; nothing reads it.
- Printf.Cnprintf: where an argument is missing or of the wrong kind, or the buffer has no end mark, C leaves the effect undefined and the model stops.
- Start-up, drivers (GPIO, I2C, SPI, UART, PWM, LCD), `dev.c`, the real-time clock and `getchar` would only add easy members.
