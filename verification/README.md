# ConsoleSocket buffer and CPU work-queue bookkeeping, modelled in Dafny

This project models two sequential cores of QEMU.

- **ConsoleSocket** (`python/qemu/console_socket.py`). It is a socket wrapper that test harnesses use to read a virtual machine's console. A background asyncore thread drains the socket one byte at a time. It decodes each byte with latin1, mirrors it to an optional log file and appends it to an in-memory FIFO buffer. `recv(n)` polls every 0.5 s until `n` characters are buffered. It raises `socket.timeout` once more than `_recv_timeout_sec` seconds have passed. Otherwise it pops the `n` oldest characters and encodes them back to bytes. `close` is idempotent: it closes the dispatcher, joins the thread and closes the log.
- **CPU list and work queues** (`cpus-common.c`). Realized CPUs are kept in a global list. A CPU that arrives without an index gets one more than the largest listed index, and doing so sets a sticky "auto-assigned" flag. Each CPU has a FIFO `work_list` of work items. The `async_*` entry points queue items with fixed flags. The CPU thread drains the queue in order, marks caller-owned items done and frees the others.

Layout:

- `wrappers.dfy`: the `Option` and `Result` types.
- `latin1.dfy`: the ISO/IEC 8859-1 codec, with round-trip lemmas.
- `console_socket.dfy`: the ConsoleSocket state record and its transitions. `recv`'s poll loop is a method over an abstract clock.
- `console_trace.dfy`: runs of interleaved reads and `recv`s, with the FIFO and log-fidelity lemmas.
- `cpu_list.dfy`: `cpu_get_free_index`, `cpu_list_add` and `cpu_list_remove`.
- `cpu_work.dfy`: work items, their constructors, queuing and `process_queued_cpu_work`.

Modelling choices:

- **Clock.** The clock ticks once per 0.5 s sleep of `recv`'s loop, so there are two ticks per second (`TicksPerSecond`). The timeout is a whole number of seconds, `T`. The test `elapsed_sec > T` therefore holds exactly when more than `2T` ticks have passed.
- **Concurrent arrivals.** `arrivals[k]` holds the bytes the drain thread hands to `handle_read` during the `k`-th sleep. As in the code, the timeout is checked after each sleep and before the buffer is looked at again. So bytes that arrive during the last sleep do not prevent the timeout.
- **Negative sizes.** `recv(n)` with `n <= 0` returns `b''` at once. The source behaves this way because Python's `range(n)` is empty.
- **Log file.** The log is the string written to it so far. A file name opens a log only when it is a non-empty string, which is what Python's `if file:` does.
- **Close order.** `close` reports what it does as a list of effects, in order: close the socket, join the thread, close the log.
- **Aborts.** Failed C assertions become `Failure` results. These are the assertion at `cpus-common.c:80` and the `g_assert` at `cpus-common.c:360`.
- **CPU identity.** A CPU object's identity is a `Handle`, standing for its address. `UNASSIGNED_CPU_INDEX` is defined outside `cpus-common.c` and is modelled as `-1`.
- **Work functions.** A work item's function and argument are opaque numbers. Running an item appends it to the `executed` trace. Caller-owned (`free == false`) items are reported with `done` set.

Two points of the code are easy to misread:

- `close` closes the dispatcher (`python/qemu/console_socket.py:67`) before it joins the thread (lines 68-70). `Close` keeps that order.
- `recv` sleeps 0.5 s per poll (line 35) and compares the elapsed time with the timeout after each sleep (lines 94-97), not before it.

## Model

| member | source | states |
|---|---|---|
| Latin1.Decode | python/qemu/console_socket.py:77-81 | decoding gives exactly one character per byte, whose code point equals the byte, so it never fails |
| Latin1.Encode | python/qemu/console_socket.py:98-103 | encoding succeeds exactly when every character is below U+0100; the bytes it gives decode back to the string |
| Latin1.DecodeThenEncode | python/qemu/console_socket.py:78-81 | encoding what was decoded returns the identical bytes, for every byte string |
| Latin1.DecodeAppend | python/qemu/console_socket.py:81-86 | decoding a stream piecewise equals decoding it whole |
| Latin1.DecodeInjective | python/qemu/console_socket.py:99-103 | distinct byte strings decode to distinct strings, so encoding returns the same data a direct socket read would |
| Latin1.EveryByteRoundTrips | python/qemu/console_socket.py:78-81 | each of the 256 byte values decodes to one character and encodes back to itself |
| Latin1.EllipsisBytesRoundTrip | python/qemu/console_socket.py:78-80 | 0xE2 0x80 0xA6 stay three characters U+00E2 U+0080 U+00A6 and round-trip unchanged |
| ConsoleSocket.Init | python/qemu/console_socket.py:33-45 | a new socket has an empty buffer, is open, has its thread started and a 300 s timeout; a log exists iff the file name is a non-empty string, and it starts empty |
| ConsoleSocket.ThreadStart | python/qemu/console_socket.py:47-54 | afterwards a thread exists; if one already existed nothing changes; no other field changes |
| ConsoleSocket.ThreadStartIdempotent | python/qemu/console_socket.py:47-50 | starting the thread twice is the same as starting it once |
| ConsoleSocket.HandleClose | python/qemu/console_socket.py:56-61 | closes only the dispatcher's socket and leaves `_open`, the thread, buffer, log and timeout untouched |
| ConsoleSocket.Close | python/qemu/console_socket.py:63-73 | on an open socket: clears `_open`, closes the socket first, joins iff a thread existed, closes the log with its contents iff one existed and only after the join, and clears thread and log, with each step taken exactly once; on a closed socket it changes nothing and takes no step; buffer and timeout are kept |
| ConsoleSocket.HandleCloseThenClose | python/qemu/console_socket.py:56-73 | the drain thread's own close does not stop a later `close` from joining the thread and closing the log: the steps are the same as without it |
| ConsoleSocket.CloseIdempotent | python/qemu/console_socket.py:63-73 | a second `close` changes nothing and takes no step |
| ConsoleSocket.HandleRead | python/qemu/console_socket.py:75-86 | the decoded bytes are appended at the tail of the buffer and, when a log exists, of the log; nothing else changes; the buffer stays latin1 |
| ConsoleSocket.HandleReadTwice | python/qemu/console_socket.py:77-86 | two reads in a row have the effect of one read of the concatenated bytes |
| ConsoleSocket.HandleReadNothing | python/qemu/console_socket.py:81-86 | an empty read changes nothing |
| ConsoleSocket.Pop | python/qemu/console_socket.py:98-103 | returns `n` bytes that decode to the first `n` buffered characters and leaves exactly the rest in the buffer |
| ConsoleSocket.RecvNow | python/qemu/console_socket.py:88-103 | with nothing arriving: times out iff fewer than `n` characters are buffered, and then the state is unchanged; otherwise exactly `max(n, 0)` bytes come back, and the bytes returned followed by the new buffer are the old buffer; only the buffer changes |
| ConsoleSocket.Wait | python/qemu/console_socket.py:92-97 | the poll loop stops at the first tick at which the buffer is long enough: the buffer was short at every earlier tick. Otherwise it times out exactly when more than the limit has elapsed with the buffer still short at the last look |
| ConsoleSocket.Recv | python/qemu/console_socket.py:88-103 | times out iff the buffer is still short after the last poll within the timeout; the wait is bounded by timeout + one tick; on timeout nothing is removed and the arrivals are kept; on success exactly `max(n, 0)` bytes come back, the oldest first, and bytes returned plus buffer equal the old buffer plus arrivals, and the log gains the arrivals while nothing else changes; a buffer already long enough is served without sleeping; with no arrivals it agrees with `RecvNow` |
| ConsoleSocket.TimedOut | python/qemu/console_socket.py:93-97 | when the loop gives up, the buffer after the last poll within the timeout is shorter than `n` |
| ConsoleSocket.Served | python/qemu/console_socket.py:93-103 | when the buffer fills within the timeout it is still full at the deadline, and the pop preserves FIFO order |
| ConsoleSocket.ArrivedGrows | python/qemu/console_socket.py:85-86 | the buffer never shrinks while `recv` waits |
| ConsoleSocket.RecvAfterSetTimeout | python/qemu/console_socket.py:88-111 | after `settimeout(T)`, a `recv` that finds too little and receives nothing more times out after exactly `T` seconds plus one tick and leaves the state `settimeout` set; one that finds enough returns at once |
| ConsoleSocket.SetTimeout | python/qemu/console_socket.py:109-111 | only the timeout changes, to the given value |
| ConsoleSocket.SetBlocking | python/qemu/console_socket.py:105-107 | nothing changes |
| ConsoleTrace.Run | python/qemu/console_socket.py:75-103 | runs of reads and `recv`s keep the buffer latin1 and never touch `_open`, the socket, the thread or the timeout |
| ConsoleTrace.RunIsFifo | python/qemu/console_socket.py:85-98 | after any interleaving of reads and `recv`s, the bytes returned followed by the buffer equal the starting buffer followed by all bytes read |
| ConsoleTrace.RunFromInitIsFifo | python/qemu/console_socket.py:33-103 | from construction, the bytes received followed by the encoded buffer are exactly the bytes read |
| ConsoleTrace.RunLogs | python/qemu/console_socket.py:82-84 | the log gains exactly the decoded bytes read, in order, and `recv` never touches it |
| ConsoleTrace.ClosedLogIsStream | python/qemu/console_socket.py:71-84 | the text written to the log during any run, as `close` finds it, encodes in latin1 to exactly the byte stream read |
| ConsoleTrace.HelloScenario | python/qemu/console_socket.py:88-103 | "hello\n" read, then `recv(5)` and `recv(1)`, returns "hello" from `recv(5)`, leaving "\n" buffered, then "\n" from `recv(1)`, and empties the buffer |
| CpuList.FreeIndex | cpus-common.c:59-71 | the scan returns 0 for an empty list and otherwise the least natural number above every listed index: it is >= 0, above every index and, unless 0, one more than a listed index |
| CpuList.GetFreeIndex | cpus-common.c:57-71 | sets the sticky flag, leaves the list alone, and returns the free index: >= 0, above every listed index and, unless 0, one more than a listed index, so it is the largest listed index plus one |
| CpuList.Add | cpus-common.c:73-83 | aborts iff the CPU has an index and auto-assignment already happened; an unassigned CPU gets the free index, above every listed index, and sets the flag; a preassigned CPU is added as is; either way the CPU is appended at the tail and the others are untouched |
| CpuList.Remove | cpus-common.c:85-95 | a CPU not in the list changes nothing; otherwise exactly its entry is cut out, the rest keep their order, and the CPU's index becomes unassigned; the flag is kept |
| CpuList.RemoveUnlinks | cpus-common.c:88-94 | after removal the CPU is no longer linked and every other CPU is linked exactly as before, each once |
| CpuList.AddKeepsHandlesUnique | cpus-common.c:82 | adding an unlinked CPU keeps every CPU linked at most once |
| CpuList.AutoAddKeepsIndexesDistinct | cpus-common.c:76-78 | automatic numbering never creates a duplicate index |
| CpuList.RemoveUndoesAdd | cpus-common.c:73-95 | removing a just-added CPU restores the list and unassigns the CPU; only the sticky flag remembers |
| CpuList.AutoAssignedIsSticky | cpus-common.c:57-83 | once set, no sequence of adds and removes clears the auto-assigned flag, and every add that succeeds afterwards was of an unassigned CPU |
| CpuWork.QueueWork | cpus-common.c:106-119 | the item is appended at the tail with `done` cleared, and earlier items are untouched |
| CpuWork.AsyncItem | cpus-common.c:168-175 | `async_run_on_cpu`'s item: free, not exclusive, with the BQL, not done |
| CpuWork.AsyncNoBqlItem | cpus-common.c:182-188 | `async_run_on_cpu_no_bql`'s item: free, not exclusive, without the BQL, not done |
| CpuWork.AsyncSafeItem | cpus-common.c:328-335 | `async_safe_run_on_cpu`'s item: free, exclusive, without the BQL, not done |
| CpuWork.SyncItem | cpus-common.c:144-152 | `run_on_cpu`'s queued item: not free, not exclusive, with the BQL, not done |
| CpuWork.AsyncRunOnCpu | cpus-common.c:166-177 | appends exactly `async_run_on_cpu`'s item at the tail |
| CpuWork.AsyncRunOnCpuNoBql | cpus-common.c:179-191 | appends exactly `async_run_on_cpu_no_bql`'s item at the tail |
| CpuWork.AsyncSafeRunOnCpu | cpus-common.c:325-338 | appends exactly `async_safe_run_on_cpu`'s item at the tail |
| CpuWork.Completions | cpus-common.c:390-394 | every item reported back is a caller-owned item of the queue with `done` set |
| CpuWork.CompletionsAppend | cpus-common.c:349-394 | completions follow queue order: those of a queue followed by more items are the first part's followed by the rest's |
| CpuWork.CompletionsCoverCallerItems | cpus-common.c:390-394 | every caller-owned item of the queue is reported with `done` set |
| CpuWork.ProcessQueuedCpuWork | cpus-common.c:341-404 | succeeds iff no queued item is exclusive with the BQL; on success the queue is empty, the items ran in queue order, and the caller-owned ones were marked done in order; on failure the offending item was queued |
| CpuWork.ConstructedItemsAreRunnable | cpus-common.c:353-360 | every item the constructors build passes the exclusive branch's `!bql` assertion |
| CpuWork.SubmitAppendsRunnable | cpus-common.c:106-191 | queuing through the entry points appends the items in request order behind the existing ones, and keeps the queue free of items that would fail the assertion |

## Left out

- The asyncore event loop, creating, running and joining the thread, the AF_UNIX connect and opening the log file are I/O and concurrency. The thread is a flag, joining is an effect in `Close`'s list, and the log is an in-memory string.
- `time.time` and `time.sleep` are replaced by the tick counter. The model assumes each sleep advances the clock by exactly 0.5 s. `time.time` is the wall clock: a sleep that overruns makes the timeout fire after fewer polls, and a clock stepped backwards makes `recv` poll beyond `Recv`'s bound of the timeout plus one tick. Neither is modelled.
- ConsoleSocket.SetTimeout: takes whole seconds; Python's fractional timeouts such as 0.2 are not modelled.
- ConsoleSocket.Recv: has no default for its count. `recv()` without an argument (`buffer_size=1`, line 88) is `Recv(s, 1, arrivals)`.
- ConsoleSocket.HandleRead: accepts any number of bytes, while asyncore asks for one at a time. `HandleReadTwice` shows the two agree. The empty read that asyncore's own `recv` produces after calling `handle_close` is not part of this model.
- ConsoleTrace.ClosedLogIsStream: speaks of the text written to the log, not the file's bytes. The log file is opened in text mode with the platform's default encoding (line 42). Under a UTF-8 locale each character from 0x80 up reaches the file as two bytes. Under an ASCII locale, `write` (line 83) raises `UnicodeEncodeError` before the character reaches the buffer (lines 85-86). That failing-write path is not modelled either: `HandleRead` always appends.
- A `settimeout` call running concurrently with `recv` is not modelled. `Recv` reads the timeout once.
- `cpu_list_lock`/`cpu_list_unlock`, `QEMU_LOCK_GUARD`, the CPU mutex in `queue_work_on_cpu` and `process_queued_cpu_work`, `qemu_cpu_kick` and `qemu_cond_broadcast` are locking and wake-ups. Each operation is one atomic transition.
- CpuWork.ProcessQueuedCpuWork: runs only the items queued when it is called. The source drops the CPU lock around each work function (lines 352-389) and loops until `work_list` is empty (line 349). So items queued meanwhile, by other threads or by a running work function on its own CPU, run in the same call. The model's work functions are opaque and cannot queue work.
- The exclusive-section protocol (`start_exclusive`, `end_exclusive`, `cpu_exec_start`, `cpu_exec_end`, `exclusive_idle`) depends on atomics, memory barriers and condition variables. Running an exclusive item is recorded like any other item.
- The BQL lock and unlock calls around each work function are not modelled. Only the `!bql` assertion on exclusive items is kept.
- `run_on_cpu` is modelled only by the item it queues for another CPU (`SyncItem`). Calling the function directly on the current CPU and blocking until `done` are not modelled.
- RCU list insertion and removal are modelled as ordinary sequence updates.
- `qemu_init_cpu_list` only initializes locks and the exclusive counter.
- CpuList.FreeIndex: uses unbounded integers. The C `int` overflow when a listed index is `INT_MAX` is not modelled.
- The helper files `util/qemu-thread-common.h`, `include/qemu/tsan.h`, `stubs/cpu-lock.c` and `tests/vm/aarch64vm.py` are instrumentation, sanitizer annotations, lock stubs and test plumbing. None of them is part of this model.
