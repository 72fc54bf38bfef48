# Verified models of the Wise SDK's kernel and driver cores

This project models the parts of the Wise SDK (a C SDK on top of an RTOS for a 32-bit RISC-V core) that hold
real algorithms and protocols, and proves what they promise. One module stands for one source file or one
component of it; `Bits`, `Arithmetic` and `Wrappers` hold shared vocabulary. `dafny verify dfyconfig.toml` checks
everything.

The same shape is used throughout. A section that the source runs uninterrupted is a function on a value that
holds the whole state. A class or a method with loops carries it out step by step, as the C code does, and its
`ensures` ties it to that function. Theorems about whole runs are then proved on the functions: a run is a
sequence of states and a sequence of events, each state following from the one before by one enabled event.
What each of these functions does to the fields is stated once more without naming it, in the lemmas whose names end
in `Meaning`, `Exact`, `Shape` or `Table` and in the methods' own clauses.

- **MemSlab** – the fixed-size block allocator. Memory is a map from addresses to words, the free list is the link
  words stored in free blocks, and allocation, release, the one-slot hand-off queue, time-outs and client writes
  interleave freely.
- **TaskWatchdog** – the task watchdog: a list of subscribed tasks, a deadline on a wrapping 32-bit tick, and a
  polling thread, with unwrapped time beside it so that timing can be stated.
- **UartLock** – the interface lock of the UART driver API: any number of callers, the interrupt handler, time-outs
  and resets, one atomic step at a time, for one direction and for both.
- **Efuse**, **EfuseCommand** – bit-addressed access to 32-bit rows of a device whose requests may fail, and the
  command that parses a hexadecimal string and stores it.
- **Numbers**, **Printf**, **HexDump**, **DumpLines**, **HexPrinter**, **LogRing** – radix conversion, the kernel
  formatter and `snprintk`, hex dumps with their prefixes, and the overwriting log ring.
- **Gcov** – the coverage-data serializer, with a reader for the format it writes.
- **Atomics**, **Pool**, **MachineTimer** – compare-and-set loops under interference, the bitmap pool, and the
  tear-free read of the 64-bit `mtime` register (section 3.2.1 of the RISC-V Privileged Architecture).

## What turned out not to hold

Where a promise one would expect fails for the code, the code is kept, a concrete case is given, and the exact
condition is proved.

- A UART completion that lands between a synchronous call's time-out and its reset, or a reset that fails with the
  transfer still in flight (a *late* event), endangers the lock protocol. From every state that a run without late
  events reaches, every late event can be followed, by steps that are all on time, by two transfers in flight in one
  direction (`LateBreaks`); `LateCompletionDoublesFlight` and `FailedResetDoublesFlight` are such runs. So the protocol holds in every state of a
  run, and in whatever follows it on time, if and only if no event of the run is late (`ProtocolExact` for one
  direction, `PortProtocolExact` for both).
- `PoolMalloc` does not fail only when the pool is full: the "byte full" test uses C's exclusive or. `MallocExact`
  gives the exact condition; a fresh pool of three slots can never hand one out (`FreshPoolAllocates`).
- `console_flush` compares raw counters and takes the unflushed count modulo 2^32. A flush writes exactly the pending
  characters if and only if the counter does not wrap between the first of them and the head, and no overrun of 2^32
  or more unflushed characters looks like fewer than the buffer holds (`FlushExact`, and `NothingLostExact` for whole
  runs of any length). `LosingRun` and `OverrunRun` are runs that lose characters, for every buffer size.
- A task watchdog timeout of 2^31 ticks or more, or within the margin, is due the moment it is set
  (`DueRightAfterFeed`): a task that is added and polled for in the same tick is reported at once exactly then
  (`ReportedAtOnce`).
- The header says that `wise_task_wdt_delete(NULL)` unsubscribes the caller. The code does not map NULL there, and
  always fails (`DeleteNullFails`). The model follows the code.
- A slab task can wait although a block is free. That happens in two ways: a release falls between restoring
  interrupts and blocking on the queue (`EarlyReleaseStrands`), or, with every waiter blocked, a second release comes
  before the first receiver has emptied the one-slot queue (`SecondReleaseStrands`). `WaiterBesideFreeBlock` gives a
  run for each. In every run no task ever waits beside a free block if and only if no release is of one of these two
  kinds (`PromptExact`).
- `write_complete` in the eFuse functions is never set: the row end that would set it excludes the last bit
  (`ModifyLoop`, `EditAndAdvance`).
- A positive status of the last eFuse request is reported as an error although everything has been read or written
  (`WrittenButReported`). An access is complete exactly when all its requests are served, and reported as a success
  exactly if the last status is 0 too (`Device.Read`, `Device.Modify`).
- `hex_dump_to_buffer` does not always return the length of the whole text. With `ascii` set it never writes a text
  column, but an overflow exit counts one; and for no bytes and no buffer it returns -1 (`ResultExamples`). The result
  is that length if and only if no overflow exit is taken, or there are bytes and `ascii` is not set (`ResultExact`).

## Model

| member | source | states |
|---|---|---|
| MemSlab.EveryRun | kernel/mem_slab.c:165-258 | in every interleaving of allocs, frees, hand-offs, time-outs and client writes each block is in exactly one of free list, queue and one client's hands, and `max_used` is the running maximum of `num_used` |
| MemSlab.FreeListInEveryRun | kernel/mem_slab.c:165-258 | in every run, following the link words from `free_list` visits each block that is neither held nor queued exactly once, aligned and in bounds, and ends at NULL; `num_used` is held plus queued |
| MemSlab.NoFault | kernel/mem_slab.c:184-191 | no enabled step of any run fails the sanity check or the put assertion, or hands out a block that is held |
| MemSlab.StepKeeps | kernel/mem_slab.c:165-258 | every enabled step from a good state ends without a fault in a good state |
| MemSlab.StepMeaning | kernel/mem_slab.c:165-258 | after each step who holds which block, who waits, and what is in list and queue |
| MemSlab.WaitsOnlyWhenEmpty | kernel/mem_slab.c:197-213 | in every run a task begins to wait exactly when it asks with a timeout while the list is empty |
| MemSlab.AllocIsSane | kernel/mem_slab.c:173-193 | in a good state with a free block the sanity check passes and the head of the list is handed out |
| MemSlab.AllocMeaning | kernel/mem_slab.c:173-201 | in a good state: the head, the next block as new head and the counts; on an empty list -ENOMEM without a timeout and a wait with one |
| MemSlab.AllocKeeps | kernel/mem_slab.c:171-201 | taking the head block moves it from the list to the caller and keeps the chain, the placement and the counts |
| MemSlab.QueueGetKeeps | kernel/mem_slab.c:213-227 | a block received from the queue was in nobody's hands, and `num_used` stays right |
| MemSlab.FreeKeeps | kernel/mem_slab.c:242-257 | a freed block goes to the queue or to the front of the chain; the put never fails |
| MemSlab.WriteKeeps | kernel/mem_slab.c:173-178 | whatever a client writes into its block, the free list is unaffected |
| MemSlab.ChainUnique | kernel/mem_slab.c:61-68 | memory and the head determine the free list |
| MemSlab.ChainFrame | kernel/mem_slab.c:61-68 | only the link words of free blocks matter to the list |
| MemSlab.PtrIsGoodExact | kernel/mem_slab.c:155-163 | the pointer check accepts exactly the addresses of blocks |
| MemSlab.BlocksApart | kernel/mem_slab.c:61-68 | distinct blocks do not overlap |
| MemSlab.AddressOrderIsBlocks | kernel/mem_slab.c:61-68 | the list in address order has every block once |
| MemSlab.StartIsGood | kernel/mem_slab.c:89-111 | an initialised slab meets the invariant |
| MemSlab.StatisticsStep | kernel/mem_slab.c:194-195 | each step updates `max_used` to the maximum of itself and `num_used` |
| MemSlab.DeinitCheckSuffices | kernel/mem_slab.c:119-140 | in every run `num_used == 0` implies that the queue is empty and no block is held |
| MemSlab.PromptExact | kernel/mem_slab.c:204-258 | in every run, no task ever waits beside a free block if and only if no release strands a waiter: comes before it is blocked on the queue, or finds the queue still full |
| MemSlab.StrandsExact | kernel/mem_slab.c:244-257 | the same for one step from any good state in which nobody waits beside a free block |
| MemSlab.EarlyReleaseStrands | kernel/mem_slab.c:204-213 | from every good state with a waiter, a release that sees no blocked task puts a free block beside it |
| MemSlab.SecondReleaseStrands | kernel/mem_slab.c:244-254 | from every good state with an empty list and queue, a waiter and two held blocks, two releases that see every waiter put a free block beside one |
| MemSlab.WaiterBesideFreeBlock | kernel/mem_slab.c:204-254 | a run for each of the two ways |
| MemSlab.FreeToListKeeps | kernel/mem_slab.c:253-255 | a release to the list puts the block in front of the chain and keeps every block in one place |
| MemSlab.FreeToQueueKeeps | kernel/mem_slab.c:244-251 | a release to the queue finds room and keeps every block in one place |
| MemSlab.Slab.CreateFreeList | kernel/mem_slab.c:51-70 | -EINVAL exactly for a misaligned buffer or size; otherwise the list is all blocks in address order, and memory outside the blocks is unchanged |
| MemSlab.Slab.Init | kernel/mem_slab.c:89-117 | succeeds exactly for an aligned buffer and a queue that could be made, and then the slab is a start state of the interleaving model |
| MemSlab.Slab.Alloc | kernel/mem_slab.c:165-201 | waits exactly on an empty list with a timeout; without one -ENOMEM and NULL with nothing changed; otherwise the head block, `num_used` one higher and `max_used` its maximum, the sanity check passing |
| MemSlab.Slab.Receive | kernel/mem_slab.c:213-229 | the queue's block and 0, or -ETIME or -EINVAL with nothing changed |
| MemSlab.Slab.Free | kernel/mem_slab.c:237-258 | the block goes to the queue exactly if the list is empty, a receiver waits and the queue has space, otherwise to the front of the list with `num_used` one lower |
| TaskWatchdog.ReportInTime | api/wise/wise_task_wdt.c:131-160 | with polls at most P apart and timeout D, a run that has not reported has seen every subscribed task added or reset within 2D + 2P |
| TaskWatchdog.ReportIsJustified | api/wise/wise_task_wdt.c:138-148 | a report names at least one task, and every task it names was last added or reset at least the timeout less the margin before |
| TaskWatchdog.NoFalseAlarm | api/wise/wise_task_wdt.c:131-246 | in every run a task that has been added or reset within the timeout, less the margin, before every poll while it is subscribed is never named |
| TaskWatchdog.NotNamed | api/wise/wise_task_wdt.c:138-148 | the same for one poll and one accepted add or reset |
| TaskWatchdog.ServesIsRecorded | api/wise/wise_task_wdt.c:163-246 | an accepted add or reset counts at its time |
| TaskWatchdog.CheckFeedMeaning | api/wise/wise_task_wdt.c:92-102 | all flags cleared and the deadline moved exactly when all have reset; otherwise nothing changes |
| TaskWatchdog.ResetMeaning | api/wise/wise_task_wdt.c:222-246 | what a reset does to ids, flags, deadline and result |
| TaskWatchdog.AddMeaning | api/wise/wise_task_wdt.c:163-196 | what an add does to them |
| TaskWatchdog.DeleteMeaning | api/wise/wise_task_wdt.c:198-220 | what a delete does to them |
| TaskWatchdog.PollMeaning | api/wise/wise_task_wdt.c:136-157 | what a poll does to them |
| TaskWatchdog.FeedNeedsEveryone | api/wise/wise_task_wdt.c:92-102 | between consecutive feeds, by a call or a poll, every task still subscribed was added or reset |
| TaskWatchdog.InvInEveryRun | api/wise/wise_task_wdt.c:131-246 | in every timed run the list is well formed, the deadline is the last feed plus the timeout, and each entry's flag and age agree with the history |
| TaskWatchdog.PollStep | api/wise/wise_task_wdt.c:136-157 | a poll reports exactly when the true deadline is within the margin and some task is subscribed |
| TaskWatchdog.AddStep | api/wise/wise_task_wdt.c:163-196 | an add keeps the timed invariant, whether it succeeds or fails |
| TaskWatchdog.DeleteStep | api/wise/wise_task_wdt.c:198-220 | so does a delete |
| TaskWatchdog.ResetStep | api/wise/wise_task_wdt.c:222-246 | so does a reset |
| TaskWatchdog.DueIsTrueTime | api/wise/wise_task_wdt.c:138-138 | the wrapped signed comparison agrees with true time while the distance is below 2^31 |
| TaskWatchdog.DueRightAfterFeed | api/wise/wise_task_wdt.c:87-90 | a freshly set deadline is already due exactly for timeouts within the margin or of 2^31 ticks and more |
| TaskWatchdog.ReportedAtOnce | api/wise/wise_task_wdt.c:131-148 | a run in which a task is added and polled for in one tick reports it exactly for those timeouts |
| TaskWatchdog.CheckFeedKeeps | api/wise/wise_task_wdt.c:92-102 | after the feed check ids are distinct and a non-empty list has a task yet to reset |
| TaskWatchdog.AddKeeps | api/wise/wise_task_wdt.c:163-196 | adding keeps the list well formed |
| TaskWatchdog.DeleteKeeps | api/wise/wise_task_wdt.c:198-220 | deleting keeps the list well formed |
| TaskWatchdog.ResetKeeps | api/wise/wise_task_wdt.c:222-246 | resetting keeps the list well formed |
| TaskWatchdog.DuePollReports | api/wise/wise_task_wdt.c:138-155 | a due poll reports exactly when some task is subscribed |
| TaskWatchdog.DeleteNullFails | api/wise/wise_task_wdt.c:198-209 | deleting NULL fails and changes nothing |
| TaskWatchdog.Find | api/wise/wise_task_wdt.c:72-85 | the index of an entry with this id, or -1 exactly when there is none |
| TaskWatchdog.Watchdog.constructor | api/wise/wise_task_wdt.c:44-44 | the record before init |
| TaskWatchdog.Watchdog.Init | api/wise/wise_task_wdt.c:249-275 | a second init is refused and changes nothing; the first sets the deadline one timeout from now, also if the thread cannot be made |
| TaskWatchdog.Watchdog.CheckAllReset | api/wise/wise_task_wdt.c:58-70 | whether every task has reset |
| TaskWatchdog.Watchdog.TimerFeed | api/wise/wise_task_wdt.c:49-56 | clears every flag and nothing else |
| TaskWatchdog.Watchdog.FindEntry | api/wise/wise_task_wdt.c:72-85 | finds the last entry of an id |
| TaskWatchdog.Watchdog.FeedIfAllReset | api/wise/wise_task_wdt.c:92-102 | feeds and moves the deadline exactly when all have reset |
| TaskWatchdog.Watchdog.AddTask | api/wise/wise_task_wdt.c:163-196 | a subscribed task fails, a missing entry reports no memory, both changing nothing; otherwise the task, the caller for NULL, stands in front as one that has reset, and the feed check follows |
| TaskWatchdog.Watchdog.DeleteTask | api/wise/wise_task_wdt.c:198-220 | an unknown id fails, changing nothing; otherwise its entry is gone, the others keep id, flag and order, and the feed check follows |
| TaskWatchdog.Watchdog.ResetTask | api/wise/wise_task_wdt.c:222-246 | an unknown task fails, changing nothing; otherwise WISE_OK, the flag of that task alone is set, and if all others had reset every flag is cleared and the deadline is one timeout from now |
| TaskWatchdog.Watchdog.PollOnce | api/wise/wise_task_wdt.c:104-157 | reports exactly when due with a task subscribed, and names exactly the tasks that have not reset; entries stay, and the deadline moves exactly when due |
| UartLock.ProtocolExact | api/scm_uart.c:62-259 | in every interleaving of callers and the interrupt handler the lock protocol holds in every state of a run and in whatever follows on time, if and only if no event of the run is a late completion or a failing reset with a transfer in flight |
| UartLock.ProtocolMeaning | api/scm_uart.c:62-120 | the inductive invariant implies the protocol: at most one transfer in flight and one owner, lock free exactly without an owner, `sync` and callback those of the transfer in flight and of the owner, each acquisition released at most once, each callback run at most once and with its own call's function |
| UartLock.PortProtocolExact | api/scm_uart.c:221-376 | the same if and only if for both directions together, resets cancelling both |
| UartLock.PortLateBreaks | api/scm_uart.c:247-254 | after every late event of either direction the port can leave the protocol by on-time steps |
| UartLock.LiftTx | api/scm_uart.c:221-259 | whatever the transmit direction can do on time, the port can do |
| UartLock.LiftRx | api/scm_uart.c:298-343 | whatever the receive direction can do on time, the port can do |
| UartLock.PortStepKeeps | api/scm_uart.c:221-376 | every step of either direction that is not late keeps both invariants |
| UartLock.StepKeeps | api/scm_uart.c:62-259 | every step that is not late keeps the inductive invariant |
| UartLock.CallMeaning | api/scm_uart.c:225-245 | taking the lock, setting `sync` and the callback, and submitting: what changes, and that an asynchronous call returns with the lock taken |
| UartLock.WaitMeaning | api/scm_uart.c:247-254 | a waiter takes the completion; a time-out changes nothing; a reset that succeeds ends the transfer |
| UartLock.LeaveMeaning | api/scm_uart.c:231-258 | every way out gives the lock back once, for that call |
| UartLock.CompleteMeaning | api/scm_uart.c:94-120 | a completion signals the waiter, or runs exactly the callback its own call passed, once, and gives that call's lock back |
| UartLock.EndMeaning | api/scm_uart.c:106-108 | an error event or a reset from elsewhere only ends the transfer |
| UartLock.AsyncRun | api/scm_uart.c:261-296 | an asynchronous call from lock to callback |
| UartLock.LateBreaks | api/scm_uart.c:247-254 | from every state of the invariant, every late event can be followed by on-time steps to two transfers in flight |
| UartLock.AfterLateCompletion | api/scm_uart.c:247-256 | the steps for a completion between time-out and reset: the next call returns early and the one after it submits |
| UartLock.AfterFailedReset | api/scm_uart.c:250-256 | the steps for a reset that fails: the next call submits beside the old transfer |
| UartLock.OnTimeKeeps | api/scm_uart.c:62-259 | any sequence of on-time steps keeps the invariant |
| UartLock.LateCompletionDoublesFlight | api/scm_uart.c:247-256 | a run in which one late completion leads to two transfers in flight |
| UartLock.FailedResetDoublesFlight | api/scm_uart.c:250-256 | a run in which one failing reset does |
| UartLock.EarlyReturn | api/scm_uart.c:225-256 | with a completion left over, a call returns while its transfer is in flight |
| UartLock.SignalKeeps | api/scm_uart.c:112-113 | a completion for a waiting caller keeps the protocol |
| UartLock.HandBackKeeps | api/scm_uart.c:114-119 | a completion for an asynchronous transfer runs its callback once and hands the lock back |
| UartLock.LeaveKeeps | api/scm_uart.c:67-70 | a call that leaves with nothing in flight frees the lock |
| UartLock.CallerStepKeeps | api/scm_uart.c:237-252 | arming, submitting, waking, timing out and resetting keep the protocol |
| UartLock.ShrinkKeeps | api/scm_uart.c:106-108 | an error event or a reset, which only ends transfers, keeps the protocol |
| UartLock.Interface.constructor | api/scm_uart.c:134-143 | starts with the lock free, no completion and synchronous |
| UartLock.Interface.Unlock | api/scm_uart.c:67-70 | gives the lock back, at most once |
| UartLock.Interface.OnEvent | api/scm_uart.c:94-120 | ignores errors; otherwise signals the waiter, or runs the callback and frees the lock |
| UartLock.Interface.Transfer | api/scm_uart.c:221-259 | the result code on each path; the lock is given back on all of them, and only `sync` changes |
| UartLock.Interface.TransferAsync | api/scm_uart.c:261-296 | the result code on each path; the lock stays taken exactly on success, and the next completion frees it |
| Efuse.Device.Read | api/scm_efuse.c:26-101 | exactly the addressed bits, low first with zero fill, and nothing past them, when every row request is served; otherwise the bits of exactly the rows read before the first failure; success exactly if the last status is 0 too |
| Efuse.Device.ReadRows | api/scm_efuse.c:45-101 | the same for the part after the memset |
| Efuse.Device.ReadLoop | api/scm_efuse.c:58-92 | copies bit after bit, reading each row once, until the last bit or a failing request |
| Efuse.Device.CopyAndAdvance | api/scm_efuse.c:62-91 | one turn: one more bit copied, and at a row end the next row read |
| Efuse.Device.Modify | api/scm_efuse.c:128-188 | each touched row is written once, in order, exactly when all requests are served; otherwise exactly the rows written before the first failure carry the change and all other bits are unchanged; success exactly if the last status is 0 too |
| Efuse.Device.ModifyLoop | api/scm_efuse.c:134-172 | `write_complete` is 0 at the end; all rows but the last are saved and the last one is edited, or the loop stopped at the first failing request |
| Efuse.Device.EditAndAdvance | api/scm_efuse.c:135-171 | one turn: one more bit edited, and at a row end the row saved and the next one read; the test that sets `write_complete` fails |
| Efuse.Device.StoreAndAdvance | api/scm_efuse.c:149-167 | the row end: the row saved, `write_complete` set exactly for the last bit, otherwise the next row read |
| Efuse.Device.SaveRows | api/scm_efuse.c:128-179 | all touched rows saved, the last one behind the test of `write_complete`, or stopped at the first failing request |
| Efuse.Device.Store | api/scm_efuse.c:174-179 | saves an edited row, or leaves the device unchanged |
| Efuse.Device.Write | api/scm_efuse.c:103-189 | ORs the given bits in and leaves every other bit as it was; the failure cases as in Modify |
| Efuse.Device.Clear | api/scm_efuse.c:193-284 | refused in raw mode; clears the addressed bits and leaves every other bit as it was; the failure cases as in Modify |
| Efuse.WrittenButReported | api/scm_efuse.c:174-186 | a write whose last request has status 1: the bit is in the device and the result is WISE_ERR_IOCTL |
| Efuse.AllRowsDone | api/scm_efuse.c:134-179 | once all touched rows are saved, every bit of the device is as wanted |
| Efuse.RowStored | api/scm_efuse.c:149-149 | saving an edited row extends the edited part of the device by that row and changes nothing else |
| Efuse.NextWalk | api/scm_efuse.c:68-91 | both bit cursors move to the next bit; a new row starts exactly at a row end before the last bit |
| Efuse.EditBit | api/scm_efuse.c:135-137 | edits one bit of the row's copy and no other |
| Efuse.CopyBit | api/scm_efuse.c:62-66 | copies one bit to its place in the result and changes no other |
| Efuse.LastRow | api/scm_efuse.c:174-179 | the walk ends in the last row touched |
| EfuseCommand.AcceptedExact | api/scm_cli_efuse.c:126-141 | accepted exactly when the string is not empty and its last byte is needed and enough for the bit count |
| EfuseCommand.ShortHexCases | api/scm_cli_efuse.c:143-153 | what strtol makes of one or two characters |
| EfuseCommand.HexDigitTable | api/scm_cli_efuse.c:146-146 | the hexadecimal digits in either case |
| EfuseCommand.HexDigitOnly | api/scm_cli_efuse.c:146-146 | no other character is a digit |
| EfuseCommand.ParseHex | api/scm_cli_efuse.c:143-153 | each byte comes from its own characters; for hexadecimal digits the bytes' little-endian value is the string's value; nothing past them is written |
| EfuseCommand.WriteCommand | api/scm_cli_efuse.c:106-166 | usage error exactly for rejected lengths; success exactly when all requests are served and the last status is 0, and then the bytes parsed, for hexadecimal digits the low bits of the value, have been ORed in and nothing else changed |
| EfuseCommand.ClearAndStore | api/scm_cli_efuse.c:143-165 | after a clear the field holds the low bits of the value, other bits are unchanged; with the exact condition for success |
| EfuseCommand.StoreAndReadBack | api/scm_efuse.c:61-91 | clear, write and read back: the bytes read are the value modulo 2^bit_count; with the exact condition for success |
| EfuseCommand.ReadBackValue | api/scm_efuse.c:61-91 | a field that holds the bits of a value reads back as its low bits |
| EfuseCommand.StoredFromOr | api/scm_efuse.c:134-137 | ORing in the bytes ORs in the bits of their little-endian value |
| EfuseCommand.StoredInCleared | api/scm_efuse.c:134-179 | in a cleared field the stored bits are exactly those of the value |
| EfuseCommand.SplitLowByte | api/scm_cli_efuse.c:143-147 | the last two digits are the low byte of the value |
| EfuseCommand.StoreTwo | api/scm_cli_efuse.c:143-147 | a turn of the loop takes the next two characters from the end |
| EfuseCommand.JoinAppend | api/scm_cli_efuse.c:143-147 | appending the next byte moves it from the digits left to the bytes stored |
| Numbers.DigitsDenote | kernel/console.c:85-88 | the printed digits denote the number, are digits of the base, and start with zero only for zero |
| Numbers.DigitsFit | kernel/console.c:78-92 | a number below 2^k has at most k digits in every base from 2 to 36 |
| Numbers.Ksprintn | kernel/console.c:78-92 | stores the digits in reverse behind a NUL, at most 64 of them, and nothing past them |
| Numbers.StoreDigits | kernel/console.c:85-88 | the digit loop stores exactly the digits, low first |
| Numbers.FieldLength | kernel/console.c:356-370 | the field is max(width, tmp + max(dwidth, n)) long under the zero-padding rule |
| Numbers.FieldShape | kernel/console.c:355-409 | a number field piece by piece: blanks on the side the minus flag says, sign, prefix for the sharp flag, zeros and digits, with their counts |
| Numbers.LowerTable | kernel/console.c:86-87 | the digits 0-9a-z |
| Numbers.UpperTable | kernel/console.c:86-87 | the digits 0-9A-Z |
| Numbers.FieldReadsBack | kernel/console.c:348-409 | every number field parses back to its value, for every width, precision, flag and base |
| Printf.FormatConcat | kernel/console.c:128-424 | formats compose: a + b prints what a prints, then what b prints with the arguments a leaves over |
| Printf.FormatSuffix | kernel/console.c:128-424 | what a format prints does not depend on the text before it |
| Printf.DirectivePrefix | kernel/console.c:140-184 | a directive complete within a format is the same when the format goes on |
| Printf.PlainText | kernel/console.c:131-135 | text without a percent sign is copied |
| Printf.PrintedReadsBack | kernel/console.c:226-385 | what a numeric conversion prints reads back as the value it loaded |
| Printf.SignedReadsBack | kernel/console.c:214-347 | %d and %i read back in base 10, %y in 16 and %+r in the radix, as the argument wrapped to the length asked for |
| Printf.UnsignedReadsBack | kernel/console.c:249-327 | %u reads back in base 10, %o in 8, %x and %X in 16 and %r in the radix, as the argument wrapped to the length asked for |
| Printf.PointerReadsBack | kernel/console.c:252-257 | %p reads back in base 16 as the address |
| Printf.PlainSigned | kernel/console.c:214-218 | a plain %d or %i reads back as every int |
| Printf.EightExample | kernel/console.c:214-218 | "%d" of 8 prints "8" |
| Printf.PlainUnsigned | kernel/console.c:293-301 | a plain %u, %o, %x or %X reads back as every unsigned int |
| Printf.NumberTextShape | kernel/console.c:348-409 | sign, capitals, side, zeros and prefix of a number from the conversion and its flags |
| Printf.TextConversions | kernel/console.c:145-289 | %%, %c and %s: the text, "(null)" for none, cut off by a precision, and the arguments taken |
| Printf.FlagMeaning | kernel/console.c:140-302 | what each flag and length character sets |
| Printf.StarMeaning | kernel/console.c:155-165 | a star takes width or precision from the arguments; a negative width turns the side around |
| Printf.DigitsMeaning | kernel/console.c:166-184 | a run of digits is the width or the precision, in decimal |
| Printf.ConversionMeaning | kernel/console.c:140-302 | which characters end a directive, and which conversions there are |
| Printf.UnknownMeaning | kernel/console.c:411-421 | from an unknown conversion on the text stands as it is |
| Printf.RadixMeaning | kernel/console.c:125-126 | a radix outside 2 to 36 is taken as 10 |
| Printf.ScanIsDecimal | kernel/console.c:174-179 | a width or precision is the decimal number written in the format |
| Printf.PaddedField | kernel/console.c:188-199 | %c and %s: the text at the left or right end of a field of max(width, length), the rest fill |
| Printf.ScanDirective | kernel/console.c:140-184 | the flag loop reads the directive up to its conversion character |
| Printf.ScanDigits | kernel/console.c:174-179 | the digit loop |
| Printf.Output.PutDigits | kernel/console.c:384-385 | prints the stored digits from the last one down to the NUL |
| Printf.Output.PutNumber | kernel/console.c:348-409 | the counting of widths prints exactly the number field |
| Printf.Output.PutField | kernel/console.c:368-409 | sign, prefix, zeros and digits with the blanks on the right side of them |
| Printf.Output.PutPadded | kernel/console.c:269-289 | the padding loops print exactly the padded field |
| Printf.Output.PutConversion | kernel/console.c:145-347 | each conversion prints its text and takes its argument |
| Printf.PutDirective | kernel/console.c:136-421 | a directive prints its conversion; an unknown one is copied and ends conversion for good |
| Printf.Run | kernel/console.c:128-424 | the main loop prints what the format stands for |
| Printf.Kvprintf | kernel/console.c:94-426 | prints what the format stands for, and returns the number of characters printed |
| Printf.Snprintk | kernel/console.c:428-453 | returns the full length; stores exactly the first min(ret, size-1) characters, then NUL, and nothing past them; with size 0 nothing |
| LogRing.EveryRun | kernel/console.c:466-470 | in every run of writes and flushes, of any length, each flush writes the log from where the overflow check puts its start, or nothing if the counter wraps there |
| LogRing.NothingLostExact | kernel/console.c:644-658 | in every run each flush writes, in order and once, exactly the unflushed characters among the last PRINTK_BUFSIZ, if and only if no flush finds an overrun or a wrapped counter |
| LogRing.NothingLostBefore | kernel/console.c:644-658 | with fewer than 2^32 characters in all no flush does |
| LogRing.LosingRun | kernel/console.c:652-657 | a run, for every buffer size, in which a pending character is never shown because the counter wraps |
| LogRing.OverrunRun | kernel/console.c:648-657 | a run, for every buffer size, in which a full buffer is never shown because 2^32 unflushed characters look like none |
| LogRing.FlushesAreStretches | kernel/console.c:644-658 | flush k of a run finds unflushed exactly what came after flush k - 1 |
| LogRing.ShownIsStretch | kernel/console.c:644-658 | what a flush shows is a stretch of the whole log that starts no earlier than the flush before it ended |
| LogRing.FlushExact | kernel/console.c:644-658 | a flush writes exactly the pending characters if and only if there was no overrun and the counter does not wrap among them |
| LogRing.PendingMeaning | kernel/console.c:648-650 | the pending characters are the unflushed ones among the last PRINTK_BUFSIZ |
| LogRing.FlushFromExact | kernel/console.c:648-650 | the overflow check puts the start at the unflushed count modulo 2^32 or the buffer size before the head, across wraps |
| LogRing.FromIsOldest | kernel/console.c:648-650 | that is the oldest pending character exactly without an overrun |
| LogRing.PutHolds | kernel/console.c:466-470 | a write keeps the ring holding the last characters of the log |
| LogRing.IndexIsRemainder | kernel/console.c:457-458 | the index mask is the remainder by the buffer size, also after the counter wraps |
| LogRing.LogBuffer.PutC | kernel/console.c:466-470 | stores the character at the head and advances it |
| LogRing.LogBuffer.FlushAll | kernel/console.c:644-658 | writes the ring's pending part and empties it |
| LogRing.LogBuffer.Drain | kernel/console.c:652-655 | the flush loop |
| HexDump.HexDumpToBuffer | kernel/console.c:530-607 | on every exit path the buffer holds the NUL-terminated part of the row that fits and nothing past it is written; the result on every path, and exactly when it is the full length |
| HexDump.ResultExact | kernel/console.c:600-606 | the result is the full length if and only if no overflow exit is taken, or there are bytes and `ascii` is not set |
| HexDump.ColumnResult | kernel/console.c:553-606 | what an overflow exit returns when `ascii` is set |
| HexDump.RowLengthExact | kernel/console.c:540-544 | rows of 16 bytes, or 32 if asked for |
| HexDump.ResultExamples | kernel/console.c:603-606 | 50 for a text of two characters, and -1 or 49 for the empty text |
| HexPrinter.PrintHexDump | kernel/console.c:609-641 | one line for each row of the input, with the prefix and the address or offset of the row; the rows are complete and decode back to the input |
| HexPrinter.PrintRowAt | kernel/console.c:622-626 | the next row |
| HexPrinter.PrintLineAt | kernel/console.c:628-639 | the line of the next row |
| DumpLines.LineIsFormat | kernel/console.c:628-639 | what the formatter makes of the three line formats: prefix, address or offset, row, newline; a NULL prefix prints as "(null)" |
| DumpLines.OffsetDigits | kernel/console.c:634-634 | an offset below 2^32 is shown with exactly eight hexadecimal digits, which read back as it |
| DumpLines.PrintLine | kernel/console.c:628-639 | prints prefix, label, row and newline |
| DumpLines.StringPiece | kernel/console.c:261-289 | a leading %s prints its argument and leaves the rest of the format and arguments as they are |
| HexDump.RowsReadBack | kernel/console.c:609-641 | the rows are never cut off by the line buffer and decode back to the whole input, for every row and group size |
| HexDump.RowReadsBack | kernel/console.c:561-598 | a row decodes to the bytes it shows |
| HexDump.RowIsShort | kernel/console.c:615-626 | no row outgrows the line buffer |
| HexDump.GroupForExact | kernel/console.c:545-552 | the group size used is 1, 2 or 4 and divides the length; sizes 1, 2 and 4 that divide it are honoured, 8 becomes 4 |
| HexDump.GroupField | kernel/console.c:564-567 | %8.8x and %4.4x of a little-endian group are its bytes in hexadecimal, the last one first |
| HexDump.PieceFormat | kernel/console.c:564-567 | what the kernel's formatter makes of the group formats |
| HexDump.DumpByte | kernel/console.c:585-594 | two digits and a blank, each only with room for it and the NUL; otherwise the buffer holds the part that fits |
| HexDump.DumpBytes | kernel/console.c:584-597 | the loop for single bytes |
| HexDump.PutPiece | kernel/console.c:565-571 | the next group is printed, or cut off so that the buffer holds the part that fits |
| HexDump.DumpGroups | kernel/console.c:561-582 | the loops for groups of two and four bytes |
| HexDump.DumpRow | kernel/console.c:561-604 | both loops with their exits |
| HexDump.RowTextLength | kernel/console.c:606-606 | the length an overflow exit computes is the length of the full row |
| HexDump.PrintRow | kernel/console.c:622-626 | a row printed through the line buffer is complete |
| Gcov.RoundTrip | kernel/gcov.c:191-236 | a reader that knows only tags and lengths recovers the version, the stamp, every function with its identity, and for every active kind its values |
| Gcov.ViewFaithful | kernel/gcov.c:205-233 | the counters recovered are those of the active kinds, all of them, in order, with their values |
| Gcov.FormatWords | kernel/gcov.c:200-223 | the words of header, function record and counter record |
| Gcov.DumpFile | kernel/gcov.c:373-378 | the measuring pass returns exactly the size the writing pass fills, and the file reads back as the profile |
| Gcov.ConvertToGcda | kernel/gcov.c:191-236 | without a buffer the size, with one exactly those bytes, contiguously, and nothing after them |
| Gcov.FunctionsRead | kernel/gcov.c:205-233 | the function records read back, each with its own counters |
| Gcov.CountersRead | kernel/gcov.c:215-232 | the counter records of a function read back, with the kinds that are active |
| Gcov.CounterReads | kernel/gcov.c:222-229 | one counter record reads back |
| Gcov.PairsRoundTrip | kernel/gcov.c:162-174 | 64-bit values stored low word first read back |
| Gcov.BytesRoundTrip | kernel/gcov.c:138-148 | words stored as bytes read back |
| Gcov.StoreU32 | kernel/gcov.c:138-148 | appends one word, or only counts it |
| Gcov.StoreU64 | kernel/gcov.c:162-174 | appends two words, or only counts them |
| Gcov.StoreValues | kernel/gcov.c:226-229 | the loop over a counter's values |
| Gcov.StoreCounter | kernel/gcov.c:222-231 | tag, length and values of one counter |
| Gcov.StoreCounters | kernel/gcov.c:215-232 | the loop over the kinds, each active one with its own counter |
| Gcov.StoreHeader | kernel/gcov.c:208-213 | the record of a function |
| Gcov.StoreFunctions | kernel/gcov.c:205-233 | the loop over the functions |
| Gcov.Profile.Reset | kernel/gcov.c:273-299 | every value of every counter is 0, and lengths, identities, version, stamp and active kinds are as before |
| Gcov.ZeroCounters | kernel/gcov.c:287-296 | the same for one function |
| Gcov.ResetKeepsSize | kernel/gcov.c:273-299 | after a reset the file has the same size, and every value of every counter in it is 0 |
| Atomics.Linearizable | include/freebsd/atomic.h:213-333 | in every interleaving of any number of calls, the completed calls in order of completion return what they would one after the other and leave the counter as it is; each completes once |
| Atomics.MoveIsAtomic | include/freebsd/atomic.h:213-259 | the access that completes a call has the effect and result of the whole operation at that moment; every other access leaves the counter alone |
| Atomics.AtomicallyMeans | include/freebsd/atomic.h:213-333 | the new value and the result of each operation written out, the sums modulo 2^32 and the bit operations bit by bit |
| Atomics.GoKeeps | include/freebsd/atomic.h:213-333 | each access of each call keeps the history a legal one |
| Atomics.CmpXchgExact | include/freebsd/atomic.h:246-259 | in every run cmpxchg returns the value it found, and it swapped if and only if that is the expected one |
| Atomics.LockFree | include/freebsd/atomic.h:213-323 | in every run a call has taken at most two steps for each call completed since it was invoked, and one more, or three for cmpxchg |
| Atomics.FailureMeansProgress | include/freebsd/atomic.h:213-259 | in every run a compare-and-set that fails on a value the call read shows that another call has completed since |
| Atomics.Cell.CompareSet | include/freebsd/atomic.h:68-83 | has the effect and result of the compare-and-set at once on the value found |
| Atomics.Cell.AddUnlessLoop | include/freebsd/atomic.h:213-226 | under any interference one write of v + a modulo 2^32 over a value v other than u, or none when u was read |
| Atomics.Cell.XchgLoop | include/freebsd/atomic.h:234-244 | exactly one write, of the new value over the one returned |
| Atomics.Cell.CmpXchgLoop | include/freebsd/atomic.h:246-259 | returns the value found; one write of the new value exactly if that is the expected one |
| Atomics.Cell.FetchBitsLoop | include/freebsd/atomic.h:303-333 | exactly one write over the value returned, each bit of which is the or, and, andnot or xor of the bits |
| Bits.OrBit | include/freebsd/atomic.h:325-325 | or acts on each bit alone |
| Bits.AndBit | include/freebsd/atomic.h:326-326 | and acts on each bit alone |
| Bits.AndNotBit | include/freebsd/atomic.h:327-327 | andnot acts on each bit alone |
| Bits.XorBit | include/freebsd/atomic.h:328-328 | xor acts on each bit alone |
| Pool.EveryRun | include/mpool.h:37-97 | over every run `inusedcount` is the number of set bits, which are exactly the slots in clients' hands, none at or past s, and the next slot handed out is in nobody's hands |
| Pool.MallocExact | include/mpool.h:53-82 | PoolMalloc succeeds exactly when some byte that the line-65 test does not skip has a free slot |
| Pool.SkipTable | include/mpool.h:65-65 | the byte values passed over, for 1 to 8 slots in the byte |
| Pool.BitmapExact | include/mpool.h:58-63 | the bitmap has just enough bytes, and each byte the bits of its slots |
| Pool.FailsBeforeFull | include/mpool.h:58-75 | with a free slot left it fails exactly when every byte that has one is skipped |
| Pool.FreshPoolAllocates | include/mpool.h:58-75 | a fresh pool can hand out a slot unless it has three of them |
| Pool.MallocKeeps | include/mpool.h:77-81 | a slot handed out was free, lies in the pool and is zeroed, and no other slot changes |
| Pool.FreeKeeps | include/mpool.h:45-48 | giving a slot back keeps bitmap and count in step |
| Pool.FirstEligible | include/mpool.h:58-75 | the lowest slot that is free in a byte not skipped |
| Pool.SlotPool.constructor | include/mpool.h:30-35 | an empty pool |
| Pool.SlotPool.Search | include/mpool.h:58-75 | the nested loops find that slot, or none |
| Pool.SlotPool.Malloc | include/mpool.h:51-84 | the address of the lowest free slot not passed over, which is zeroed, and the whole new state; or no change |
| Pool.SlotPool.SetNotInUse | include/mpool.h:45-48 | clears one bit and counts down |
| Pool.SlotPool.Free | include/mpool.h:86-97 | an address in the pool gives back exactly its slot; any other leaves the pool alone |
| Pool.SlotPool.AddressInjective | include/mpool.h:49-49 | distinct slots have distinct addresses |
| MachineTimer.ReadTime | kernel/timer.c:58-78 | the result is a value the counter held during the call, however far it advances between accesses |
| MachineTimer.MiddleValue | kernel/timer.c:68-74 | equal high halves around the low half make the joined value the one at the middle access |
| MachineTimer.StableRead | kernel/timer.c:68-72 | the loop ends, with equal high halves around the low half |

## Left out

- Drivers, `open`/`close`/`ioctl` plumbing, Wi-Fi, file system, power management and all command handlers but the eFuse parser: calls into code that is not part of this model, or easy claims only.
- RTOS internals: queues, semaphores and interrupt masking are taken by their contracts (a one-slot queue, counts of at most one, uninterrupted sections); clocks, device answers, memory contents and other tasks' steps are parameters or events.
- Liveness: no claim that a slab waiter is ever served, a UART lock ever freed after an error event, or a compare-and-set loop of a task that is overtaken for ever ends.
- MemSlab.Slab.Init: the list of all slabs is not kept; the buffer must lie in the 32-bit address space at or above one block size, block size is positive, and only held blocks are freed.
- TaskWatchdog.InvInEveryRun: init comes before the first add, the semaphore that wakes the polling thread is only a poll that may come at any time, and two clock reads inside one uninterrupted section give the same tick.
- TaskWatchdog.Watchdog.Init: the conversion of seconds to ticks is not modelled, nor is a call before init, which would use a semaphore that does not exist yet.
- UartLock.ProtocolExact: the driver reports only transfers in flight and each at most once, a successful reset cancels both directions, and the port stays open or closed for the whole run; init and deinit while calls are pending are not modelled.
- UartLock.Interface.Transfer: one call without other calls in between; the interleavings are in the run theorems. Buffers and lengths are not modelled, nor is the request for the received length that `scm_uart_rx` adds, whose result it ignores.
- Efuse.Device.Modify: the device's status for each request is a fixed but arbitrary function of the request's number; a failing request changes nothing. Offsets and counts are natural numbers, of which the source's 16-bit ones are a part.
- EfuseCommand.WriteCommand: the conversion of the two numeric arguments from text and the printing are not modelled.
- Printf.Kvprintf: leaves out %b, %D, %n, a directive cut off by the end of the format (which makes the source read past it), output without an output function, and overflow of `int` in widths and counts; arguments are a typed list, with 0 or NULL for a missing one or one of the other type, and strings and formats hold no NUL.
- Printf.Run: the same formats are left out.
- Printf.PutDirective: the same formats are left out.
- Printf.Snprintk: the same formats are left out.
- HexPrinter.PrintHexDump: leaves out lengths beyond `int`.
- HexDump.HexDumpToBuffer: leaves out negative group sizes; the C library's `snprintf` is taken to print its two formats as the kernel's own formatter does.
- LogRing.EveryRun: a flush does not race with a write, and the buffer size is a power of two below 2^32.
- Gcov.ConvertToGcda: the list of profiles, file names and the printing of the buffer are not modelled; the file is little-endian, as on the target.
- Atomics.Linearizable: one counter, sequentially consistent accesses; the size-generic `cmpxchg` and `xchg` macros are not modelled.
- Pool.EveryRun: pools of 1 to 255 slots, and only addresses that were handed out and not yet given back are freed.
- MachineTimer.ReadTime: 32-bit cores; on a 64-bit core the read is a single access.
