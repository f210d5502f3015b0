# Verification of libcsp_rust's portable core

This project models, in Dafny, the parts of the crate that are algorithms or protocols in their
own right, and proves what they are for. `dafny verify dfyconfig.toml` checks all of it.

| files | what they model |
|---|---|
| `Bytes.dfy`, `Runs.dfy` | little-endian words; runs of any step function, and what the transition systems share |
| `Strtok.dfy`, `Tokenization.dfy`, `CStrings.dfy` | the C string primitives of `CspArch`, `strtok_r` above all |
| `Fifo.dfy`, `RingQueue.dfy`, `QueueBackends.dfy` | the bounded FIFO, the byte-level ring that refines it, and the two back-ends side by side |
| `Monitor.dfy`, `MonitorSafety.dfy`, `MonitorLiveness.dfy`, `MonitorRuns.dfy` | the blocking `TestQueue` as a transition system: threads, one mutex, two condition variables |
| `Semaphore.dfy`, `SpinSemaphore.dfy`, `CondvarSemaphore.dfy` | the abstract binary semaphore and its two implementations |
| `Sfp.dfy`, `SfpTransfer.dfy` | the SFP callbacks, the loops around them, and the round trip |
| `HeapShim.dfy` | the header-prefixed `malloc` and `free` |
| `XorshiftStep.dfy`, `Xorshift.dfy`, `StressPayload.dfy` | the generator of the stress programs and the payload check |
| `Packet.dfy`, `BufferPool.dfy`, `Dispatcher.dfy` | packets, who owns which pool buffer, registration and the dispatch loop |
| `Sniffer.dfy` | the single-handle protocol of promiscuous mode |

Sequential code is imperative here as it is there: methods over arrays and objects, each proved
against a specification function whose properties are lemmas. Concurrent code (the blocking
queue, the semaphores, the sniffer flag) is a transition system: a state, a set of steps, and
`Do`, which says what one step does; the lemmas speak of every sequence of enabled steps. One
step is one atomic operation or one action under the lock, so every interleaving is covered.

Beside the lemmas about a specification function stand others, named `...Is`, `...At`,
`...Plainly` or `...InNumbers`, that say what it computes without its helpers, down to literal
constants, so that function and code cannot drift together.

What comes from outside is a parameter or an assumption:

- A `*mut c_char` is an index into a byte array, null apart; `delim` and the string do not overlap
  (`restrict` in section 7.24.5.8 of ISO/IEC 9899:2011 and in the `strtok_r` page of POSIX.1-2017).
- The loops that call the SFP callbacks are in C. They are assumed to make one call per fragment,
  in order, the offset advancing by the size, and to stop at the first nonzero answer. The lemmas
  of `Sfp.dfy` about arbitrary calls do not need this.
- Progress closures carry state, so they are functions of everything they have been shown so far.
- A packet handler is any function of all that has happened to a list of steps (get, send, drop,
  keep, unwrap, of any packet the program has, others' steps between them) and an answer. The
  borrow checker is what `Can` asks of a step: that the handle it moves is live. What the error
  callback does counts as going on elsewhere.
- The allocator's answer is a parameter bound by the contract of `GlobalAlloc::alloc`; giving a
  block back with any layout but its own is a failed precondition.
- Condition variables wake at most one thread per notification, may wake spuriously, and report
  a timeout only for a wait that consumed no notification. `MonitorRuns.ConsumedNotifyStrandsSleeper`
  shows that the last point is needed.
- Locking a mutex succeeds, and blocks of `interrupt::free` are atomic.
- Of the C stack it is assumed that it frees and hands over only buffers it holds, and that
  `csp_bind` refuses a port that is bound; whether it accepts a free one, and whether
  `csp_listen` succeeds, are parameters.
- `Dispatcher.Run` follows a script of what comes, with any steps of drivers, router and other
  threads before each packet; it asks only that each step be possible when its turn comes.

Where the code and its own words disagree, the model follows the code:

- `csp_bin_sem_init` (src/arch.rs:583) says that `create` returns a locked semaphore; on the host
  back-end `create` starts at one (src/arch/test_arch.rs:339 and 423). On macOS the extra post is
  harmless, with `sem_t` the count becomes two: `Semaphore.InitIsBinary`.
- `queue_enqueue` and `queue_dequeue` promise to wait (src/arch.rs:171-183); the embassy queue
  ignores its timeout and answers at once (embassy-example/src/queue.rs:46-96).
  `QueueBackends.EmbassyInfiniteEnqueue` and `EmbassyInfiniteDequeue` say when the promise is kept.
- `sfp_send_with_progress` speaks of `data.len()` as the total (src/connection.rs:175); what
  reaches C is its low 32 bits. `SfpTransfer.Transfer` says when that is the payload.
- The error callback is said to be called also when "sending a reply packet fails"
  (src/service.rs:175-179 and 212-216); sending returns nothing, and `run` calls it only for a
  result handler that answers with an error (src/service.rs:318-322): `Dispatcher.ServedInTurn`.
- `Packet::get` says it leaves the data union alone (src/packet.rs:52-53) and then clears the
  whole struct, that union included.
- The comment in `csp_queue_empty` speaks of 8 bytes, the scratch buffer has 16 (src/arch.rs:732-734).

## Model

| member | source | states |
|---|---|---|
| `Strtok.StringIs` | src/arch.rs:435-457 | in a buffer that begins with a string and a NUL, readers see that string, and as delimiters it denotes exactly its bytes, whatever follows the NUL |
| `Strtok.IsDelimiter` | src/arch.rs:449-457 | the inner scan finds a byte exactly if it stands somewhere in the delimiter string before the first NUL |
| `Strtok.SkipLeading` | src/arch.rs:447-462 | stops at the first byte from the start that is not a delimiter, the NUL included |
| `Strtok.CutToken` | src/arch.rs:471-490 | finds the first delimiter or NUL, overwrites only a delimiter, with NUL, and resumes behind it, or at the NUL |
| `Strtok.StrtokR` | src/arch.rs:435-493 | one call: returned token, new `*saveptr` and new memory, for a fresh string, a continuation and a finished string |
| `Strtok.NextTokenPlainly` | src/arch.rs:447-491 | one call in plain terms: null and nothing written if only delimiters are left; otherwise the first byte after them, a NUL over the delimiter or NUL that ends the token, and the place behind |
| `Tokenization.NullForever` | src/arch.rs:442-445 | once the saved pointer is null every later call returns null and touches nothing |
| `Tokenization.RunFollowsPlan` | src/arch.rs:435-493 | any sequence of calls, a delimiter set of its own for each, returns the tokens one would read off the untouched original string, then null, and leaves that string with a NUL at each token's end and no other change |
| `Tokenization.PlanShape` | src/arch.rs:435-493 | the tokens of any run are nonempty, ordered, separated, free of their delimiters and ended by one of them or the terminator; an n-byte string gives at most (n+1)/2 |
| `Tokenization.TokensStayReadable` | src/arch.rs:482-491 | after the last call every token returned, however early, still reads back whole as a C string |
| `Tokenization.WritesOnlyEndNuls` | src/arch.rs:482-486 | a changed byte is now NUL, lies inside the string, and was the delimiter that ended a returned token |
| `Tokenization.SaveAdvances` | src/arch.rs:464-491 | each token moves `*saveptr` strictly forward, never past the terminator; null is returned only when only delimiters are left |
| `Tokenization.FixedSetPlan` | src/arch.rs:435-493 | with one delimiter set, n calls return the first n of all tokens |
| `Tokenization.TokenizeFindsMaximalRuns` | src/arch.rs:425-493 | the tokens are exactly the maximal runs of non-delimiter bytes, in order, with none missing |
| `Tokenization.MaximalRunsUnique` | src/arch.rs:425-493 | only one list of spans has that property, so the characterization fixes the result |
| `Tokenization.TokensConserveBytes` | src/arch.rs:425-493 | the tokens put end to end are the string with its delimiters deleted |
| `Tokenization.CollectedPlainly` | src/arch.rs:430-493 | calling until null comes back on a string s with delimiter string t: the pointers are the places where a byte not in t begins s or follows one in t, in order; each byte in t after one not in t becomes NUL and no other byte changes |
| `Tokenization.TokenizeAll` | src/arch.rs:430-431 | the calling loop terminates with exactly that result, for whatever two strings the buffers hold, and a null saved pointer |
| `Tokenization.PunchedTokensReadBack` | src/arch.rs:482-491 | what that loop leaves in memory still reads, at each collected pointer, as the original run |
| `CStrings.Strncpy` | src/arch.rs:349-364 | the first n bytes become the NUL-truncated prefix padded with zeros; the rest of the destination is untouched |
| `CStrings.PaddedAt` | src/arch.rs:349-364 | byte by byte: the source's byte as long as no NUL came, then zero |
| `CStrings.Strnlen` | src/arch.rs:394-402 | the place of the first NUL, or the bound if there is none before it |
| `CStrings.PaddedKeepsPrefix` | src/arch.rs:349-364 | a copy has the prefix, hence the bounded length, of what was copied |
| `CStrings.LowerIs` | src/arch.rs:412-423 | the 26 capital letters become small ones, every other byte stays |
| `CStrings.Strncasecmp` | src/arch.rs:412-423 | the difference of the lowercased bytes at the first place where they differ or end, 0 if that is n; neither string is read beyond it |
| `CStrings.Strncmp` | src/arch.rs:918-936 | the same without folding case |
| `CStrings.DiffSign` | src/arch.rs:404-423 | a negative result means lexicographically smaller, zero means equal, and swapping the arguments negates it |
| `CStrings.CaseCmpIsTotalPreorder` | src/arch.rs:412-423 | for fixed n the comparison is reflexive, sign-antisymmetric, transitive, and its sign is the lexicographic order of the lowercased prefixes |
| `Fifo.RunConserves` | src/arch.rs:171-188 | over any run of the queue contract, stored items then accepted items equal delivered items then stored items, within the bound |
| `Fifo.ApplyIs` | src/arch.rs:171-188 | refused exactly without room or items; otherwise in at the back, out at the front; the size is the number of items |
| `RingQueue.WriteAppends` | embassy-example/src/queue.rs:54-64 | writing the slot at `tail` appends one item and leaves every other live slot's bytes alone |
| `RingQueue.AdvanceDropsFirst` | embassy-example/src/queue.rs:82-92 | moving `head` on by one, modulo the capacity, drops exactly the first item |
| `RingQueue.Queue.Enqueue` | embassy-example/src/queue.rs:46-68 | refines the bounded FIFO; only the slot at the old tail is written; refuses when full whatever the timeout |
| `RingQueue.Queue.Dequeue` | embassy-example/src/queue.rs:74-96 | refines the bounded FIFO; the first item is copied out; refuses when empty whatever the timeout |
| `RingQueue.Queue.Size` | embassy-example/src/queue.rs:98-101 | the number of stored items |
| `QueueBackends.EmbassyEnqueue` | embassy-example/src/lib.rs:131-140 | null arguments are refused without effect; otherwise the bounded FIFO |
| `QueueBackends.EmbassyDequeue` | embassy-example/src/lib.rs:142-151 | null arguments are refused without effect; otherwise the bounded FIFO |
| `QueueBackends.TestEnqueue` | src/arch/test_arch.rs:148-159 | without a wait: the bounded FIFO, and null arguments refused |
| `QueueBackends.TestDequeue` | src/arch/test_arch.rs:195-212 | without a wait: the bounded FIFO, and null arguments refused |
| `QueueBackends.RunBoth` | embassy-example/src/lib.rs:131-162 | for every capacity, item size and sequence of non-blocking operations both back-ends give the same answers and bytes; what was accepted is what was delivered and then what is stored |
| `QueueBackends.EmbassyInfiniteEnqueue` | src/arch.rs:171-176 | the promise to wait for ever is kept by the embassy queue if and only if there is room at the time of the call |
| `QueueBackends.EmbassyInfiniteDequeue` | src/arch.rs:178-183 | and by its dequeue if and only if there is an item |
| `QueueBackends.FullQueueRefusesInfiniteWait` | embassy-example/src/queue.rs:46-52 | a concrete call that breaks it: a second enqueue into one slot is refused at once |
| `QueueBackends.CspQueueEmpty` | src/arch.rs:731-741 | over the ring: drains the queue, terminates, and leaves a null queue and the buffer's bytes alone |
| `QueueBackends.CspQueueEmptyTest` | src/arch.rs:731-741 | the same over the host queue |
| `MonitorSafety.LockStep` | src/arch/test_arch.rs:125-156 | every step keeps the critical section exclusive and the tested condition true until acted on |
| `MonitorSafety.LogStep` | src/arch/test_arch.rs:155-211 | every step keeps the log a run of the bounded FIFO that ends in the stored items |
| `MonitorSafety.WakeStep` | src/arch/test_arch.rs:128-157 | every step keeps: if a thread of one side sleeps, what it could use is at most the woken threads of that side plus the notifications on their way |
| `MonitorSafety.CallStep` | src/arch/test_arch.rs:113-213 | every step keeps each call logged at most once, with its answer, and just when it has one |
| `MonitorSafety.Reachable` | src/arch/test_arch.rs:113-213 | all of the above hold in every state of every interleaving of any number of threads |
| `MonitorSafety.NoForgottenSleeper` | src/arch/test_arch.rs:130-131 | when nothing moves any more, a thread sleeps only while its condition fails |
| `MonitorLiveness.Progress` | src/arch/test_arch.rs:113-213 | no deadlock: an awake thread inside the queue, or the lock holder, can always step |
| `MonitorLiveness.InternalRunsEnd` | src/arch/test_arch.rs:113-213 | from any reachable state the threads inside take at most twelve steps each by themselves, and once none can step everyone is outside or asleep |
| `MonitorLiveness.SleeperIsServed` | src/arch/test_arch.rs:155-211 | a sleeper whose condition holds has left the queue once the threads inside come to rest, or another call of its kind succeeded meanwhile and the condition is gone |
| `MonitorSafety.FifoConserves` | src/arch/test_arch.rs:155-208 | in every reachable state the accepted items, in lock order, are the delivered ones and then the stored ones, within `max_len` |
| `MonitorSafety.AnswersAreLogged` | src/arch/test_arch.rs:113-213 | linearization: `true` means one logged effect, a refused non-blocking call was refused rightly, an expired wait had no effect, an infinite wait is never refused |
| `MonitorSafety.InfiniteWaitIsNeverRefused` | src/arch/test_arch.rs:128-132 | in every reachable state a call with timeout 0xFFFFFFFF about to return is not refused |
| `MonitorSafety.AtTheTest` | src/arch/test_arch.rs:128-153 | at the loop test a call goes on exactly if it need not wait; otherwise with timeout 0 it can only give up, with 0xFFFFFFFF only sleep, with any other both |
| `MonitorSafety.OnlyTimedWaitsExpire` | src/arch/test_arch.rs:128-147 | a sleeper can time out exactly if its timeout is above 0 and below 0xFFFFFFFF, and then answers `false` once it has the lock |
| `MonitorSafety.OnlySuccessChangesData` | src/arch/test_arch.rs:148-208 | the contents change only in the step that logs a successful push or pop |
| `MonitorSafety.RealTimeOrder` | src/arch/test_arch.rs:113-213 | an effect that happened before another call was made stays before that call's effect in the log |
| `MonitorRuns.SoloCall` | src/arch/test_arch.rs:148-158 | a call with timeout 0 made while everyone is outside is one operation of the bounded FIFO |
| `MonitorRuns.ConsumedNotifyStrandsSleeper` | src/arch/test_arch.rs:188-193 | were a notified wait reported as timed out, a reachable state would lead to a sleeper beside an item with nobody left to wake it |
| `Semaphore.PostBetweenTakes` | src/arch.rs:113-122 | between two successful waits of a binary semaphore there is a post |
| `Semaphore.AtMostOneHolder` | src/arch.rs:109-122 | used as a lock it never has two holders, and its value is zero exactly while it has one |
| `Semaphore.InitIsBinary` | src/arch.rs:577-589 | create-then-post starts the embassy and macOS semaphores at one and the POSIX one at two, where two waits succeed at once |
| `Semaphore.CreationInNumbers` | src/arch.rs:577-589 | what each back-end creates, and what a first and a second post make of it |
| `SpinSemaphore.StepRefines` | embassy-example/src/lib.rs:50-74 | every atomic swap and store is an operation of the abstract semaphore or nothing |
| `SpinSemaphore.Safe` | embassy-example/src/lib.rs:50-74 | in every interleaving: posts separate takes, and a disciplined lock has at most one holder |
| `SpinSemaphore.WaitAnswers` | embassy-example/src/lib.rs:55-67 | a wait answers `true` in the step that takes, which succeeds exactly if the flag is set, and `false` exactly in one that finds a finite timeout expired |
| `SpinSemaphore.LoopTurns` | embassy-example/src/lib.rs:55-67 | a swap that finds the flag set takes it; else the clock decides: an expired wait with a timeout below 0xFFFFFFFF gives up, any other swaps again |
| `SpinSemaphore.GivesUpExactlyWhenExpired` | embassy-example/src/lib.rs:55-67 | in every run a wait answers `false` exactly if its last step was to find its time up and its timeout was below 0xFFFFFFFF |
| `SpinSemaphore.CallTurns` | embassy-example/src/lib.rs:50-74 | a wait begins at the swap with its own timeout; a post stores `true` |
| `CondvarSemaphore.StepRefines` | src/arch/test_arch.rs:439-483 | every step under the mutex is an operation of the abstract semaphore or nothing |
| `CondvarSemaphore.WakeStep` | src/arch/test_arch.rs:447-479 | every step keeps: a posted semaphore with a sleeper has a woken waiter or a signal still to be sent |
| `CondvarSemaphore.Safe` | src/arch/test_arch.rs:439-483 | in every interleaving: the invariant, posts separate takes, and a disciplined lock has at most one holder |
| `CondvarSemaphore.NoForgottenWaiter` | src/arch/test_arch.rs:447-478 | when nothing moves any more, a waiter sleeps only while the value is zero |
| `CondvarSemaphore.InternalRunsEnd` | src/arch/test_arch.rs:439-483 | from any reachable state the threads inside take at most eight steps each by themselves, and once none can step everyone is outside or asleep |
| `CondvarSemaphore.WaiterIsServed` | src/arch/test_arch.rs:447-479 | a waiter asleep on a posted semaphore has left once the threads inside come to rest, or another wait took the value meanwhile |
| `CondvarSemaphore.WaitAnswers` | src/arch/test_arch.rs:439-464 | a wait answers `true` from the step that takes; only a timed wait gives up |
| `CondvarSemaphore.InTheLoop` | src/arch/test_arch.rs:439-464 | at the test a wait takes a posted semaphore and sleeps on any other; the sleep can expire exactly with a timeout below 0xFFFFFFFF |
| `CondvarSemaphore.InfiniteWaitNeverFails` | src/arch/test_arch.rs:445-458 | in every run a wait that answers `false` was called with a timeout below 0xFFFFFFFF |
| `CondvarSemaphore.PostTurns` | src/arch/test_arch.rs:468-483 | a post makes a zero value one and then signals, leaves a one alone, and has posted either way |
| `Sfp.SaturatingTestExact` | src/connection.rs:204-207 | the saturating bound test equals the exact one for all arguments if and only if the length is below 2^32-1 |
| `Sfp.CodesInNumbers` | src/error.rs:18-29 | the codes the callbacks answer with: 0, -2 and -200 |
| `Sfp.SendCtx.ReadCb` | src/connection.rs:197-215 | rejects a range beyond the length without a trace; otherwise copies it, ticks once, and aborts if the closure says so; and the exact case in which the saturated test lets a read run past the payload |
| `Sfp.VecCtx.WriteCb` | src/connection.rs:267-296 | sizes the buffer by the first nonzero total, rejects what does not fit, copies what does, ticks with the prefix; the cast of the end loses nothing |
| `Sfp.ReceiveIs` | src/connection.rs:275-292 | in plain terms: length, every byte, when it is taken, and the tick |
| `Sfp.TickCount` | src/connection.rs:170-175 | there are as many ticks as fragments, the least number of `mtu`-byte packets that suffices |
| `Sfp.FragmentAt` | src/connection.rs:170-175 | fragment i holds the bytes from i*mtu on, mtu of them or what is left |
| `Sfp.TicksIncrease` | src/connection.rs:173-181 | counts strictly increase by full fragments up to the last |
| `Sfp.LastTickIsTotal` | src/connection.rs:173-175 | the last count is the total |
| `Sfp.FirstTotalFixesLength` | src/connection.rs:275-277 | under any calls whatever the first nonzero total fixes the length for good |
| `Sfp.RejectedKeepsBytes` | src/connection.rs:278-284 | a rejected call changes no byte |
| `Sfp.LastWriteWins` | src/connection.rs:285-291 | under any calls whatever each byte is that of the last accepted call covering it |
| `Sfp.UncoveredIsZero` | src/connection.rs:275-291 | and zero if there is none |
| `SfpTransfer.ReadFragment` | src/connection.rs:197-215 | the callback fills the next packet with the next bytes of the payload |
| `SfpTransfer.CspSfpSend` | src/connection.rs:161-181 | under the assumed driver a send ends with all fragments out and all ticks approved, or at the first refusal, whose fragment never goes out |
| `SfpTransfer.SentIs` | src/connection.rs:170-181 | either ending in numbers: code, every tick, every fragment that went out, which ticks were approved |
| `SfpTransfer.SfpSend` | src/connection.rs:182-231 | the same for the public call, on the length as C receives it |
| `SfpTransfer.CspSfpRecv` | src/connection.rs:242-253 | under the assumed driver a receive ends with every fragment in, at the first that does not fit, or at the first refusal |
| `SfpTransfer.ReceivedIs` | src/connection.rs:242-253 | the endings in numbers: code, what was assembled, which ticks were approved |
| `SfpTransfer.AssembleReceivesAll` | src/connection.rs:267-296 | an assembled buffer is what the callbacks leave, each fragment taken |
| `SfpTransfer.SfpRecv` | src/connection.rs:254-312 | the same for the public call |
| `SfpTransfer.RoundTrip` | src/connection.rs:197-296 | for every payload and `mtu` the sender's fragments reassemble to the payload, and each receive tick has the sender's count and the payload's own prefix |
| `SfpTransfer.Transfer` | src/connection.rs:161-312 | send into receive returns what was handed to C, which is the payload if and only if its length fits a `u32`; for an empty hand-over the receiver reports what its driver does when nothing comes |
| `HeapShim.MallocKeeps` | embassy-example/src/lib.rs:177-192 | an allocation keeps all blocks aligned, disjoint, headed by their own sizes, and returns an 8-aligned pointer |
| `HeapShim.PokeKeeps` | embassy-example/src/lib.rs:174-206 | a client write anywhere in any returned block keeps them so: headers are out of reach |
| `HeapShim.FreeRebuildsLayout` | embassy-example/src/lib.rs:194-205 | `free` rebuilds exactly the base and layout of the block's `malloc`, and its unchecked addition cannot overflow |
| `HeapShim.ScribbleKeeps` | embassy-example/src/lib.rs:177-205 | the allocator's own writes outside live blocks keep the invariant |
| `HeapShim.RunKeeps` | embassy-example/src/lib.rs:177-205 | the invariant holds after every sequence of allocations, client writes, frees and writes of the allocator into its own memory |
| `HeapShim.AsksIs` | embassy-example/src/lib.rs:180-185 | a size is served up to 0x7FFFFFF0 with a 4-byte `usize` and 0x7FFFFFFFFFFFFFF0 with an 8-byte one |
| `HeapShim.MallocIs` | embassy-example/src/lib.rs:186-191 | the pointer 8 behind the base, a block of size + 8, the size in front of it least significant byte first, and no other byte changed |
| `HeapShim.InvIs` | embassy-example/src/lib.rs:170-206 | of any two blocks: aligned, within memory, apart, and each headed by its size |
| `HeapShim.Arch.Allocate` | embassy-example/src/lib.rs:177-192 | null exactly for sizes above those numbers or an exhausted heap, without effect; otherwise a new headed block of size + 8 |
| `HeapShim.Arch.Free` | embassy-example/src/lib.rs:194-205 | meets the allocator's demand for the original layout; null is ignored |
| `XorshiftStep.StepBijective` | examples/stress/mod.rs:21-28 | the xorshift step is a bijection on 32-bit words, with the inverse given |
| `XorshiftStep.StepNonzero` | examples/stress/mod.rs:21-28 | only zero steps to zero |
| `XorshiftStep.StepIsBitwise` | examples/stress/mod.rs:21-28 | bit by bit: which input bits shifting left 13, right 17 and left 5 xors together; exactly one word has those bits |
| `XorshiftStep.StepInNumbers` | examples/stress/mod.rs:21-28 | the first three outputs after the seed 0x12345678 |
| `Xorshift.NeverZero` | examples/stress/mod.rs:15-28 | a generator made by `new` is never at zero on any run |
| `Xorshift.OutputsCollide` | examples/stress/mod.rs:15-36 | two seeds give the same n-th output only if equal or 0 and 1 |
| `Xorshift.StreamPrefix` | examples/stress/mod.rs:38-49 | a shorter fill is a prefix of a longer one |
| `Xorshift.StreamConcat` | examples/stress/mod.rs:38-49 | filling whole words and then more is filling both at once |
| `Xorshift.StreamByte` | examples/stress/mod.rs:38-49 | byte k of a fill is byte k mod 4, lowest first, of output k / 4 + 1 |
| `Xorshift.StreamInNumbers` | examples/stress/mod.rs:38-49 | the first six bytes after the seed 0x12345678 |
| `Xorshift.Prng.Next` | examples/stress/mod.rs:21-28 | one step of the state, bit by bit, which is also returned and stays nonzero; 0x87985AA5 after 0x12345678 |
| `Xorshift.Prng.Fill` | examples/stress/mod.rs:38-49 | writes exactly the first bytes of the little-endian output stream and advances one step per word begun |
| `Xorshift.NextWithSeed` | examples/stress/mod.rs:30-36 | the first output of a generator with that seed, bit by bit, never zero |
| `Xorshift.Rand` | src/arch.rs:943-955 | the state steps, bit by bit, is nonzero after every call, and all but its highest bit is returned |
| `Xorshift.RandR` | src/arch.rs:961-974 | the same on the caller's word; a null seed is answered 0 |
| `StressPayload.InNumbers` | examples/stress/mod.rs:6-28 | seed, sizes, and where the generators of some counters start |
| `StressPayload.Low32Is` | examples/stress_tx.rs:86 | the seed sees the counter modulo 2^32 |
| `StressPayload.PayloadByte` | examples/stress_tx.rs:84-87 | every byte of a payload: eight of the counter, lowest first, then those of the outputs |
| `StressPayload.PayloadInNumbers` | examples/stress_tx.rs:84-87 | a whole payload |
| `StressPayload.Build` | examples/stress_tx.rs:84-87 | the sender's payload: counter, then the stream of its seed |
| `StressPayload.Rebuild` | examples/stress_rx.rs:66-73 | the receiver's reconstruction is that construction for the counter it read |
| `StressPayload.Receiver.Check` | examples/stress_rx.rs:60-86 | an error is counted exactly for a short or wrong buffer; bytes and packets only for long enough ones |
| `StressPayload.AcceptedIffBuilt` | examples/stress_rx.rs:66-84 | a buffer is accepted if and only if the sender's construction gives it for some 64-bit counter |
| `StressPayload.TamperingRejected` | examples/stress_rx.rs:75-84 | any change confined to the bytes after the counter is flagged |
| `StressPayload.CutPayloadStillAccepted` | examples/stress_rx.rs:70-75 | a payload cut short behind its counter is not flagged |
| `StressPayload.BodiesCollide` | examples/stress_tx.rs:86-87 | from one whole word on, equal bodies mean equal generators |
| `StressPayload.StartsCollide` | examples/stress_tx.rs:86 | generators are equal only for equal low counter words or the two whose seeds are 0 and 1 |
| `StressPayload.BlobEndToEnd` | examples/stress_rx.rs:118-143 | a blob built, sent and received over SFP is counted and not flagged |
| `Packet.RawPacket.Zero` | src/packet.rs:44-57 | a packet fresh from the pool shows nothing of its last user: header, timestamp, driver scratch fields and payload are zero |
| `Packet.RawPacket.SetLength` | src/packet.rs:80-85 | the length is clamped to the buffer |
| `Packet.RawPacket.Write` | src/packet.rs:201-213 | refuses what does not fit and stores the rest whole; `data` gives it back if and only if its length fits a `u16` |
| `BufferPool.DoKeeps` | src/packet.rs:34-57 | every step of handles, raw pointers and C keeps the places of buffers apart, handles one to one, and loses no buffer |
| `BufferPool.RunConserves` | src/packet.rs:216-238 | no run of get, hand-over, drop and stack steps loses or makes up a buffer or gives it two owners |
| `BufferPool.RunFollows` | src/packet.rs:216-238 | on every run each call made on a buffer, by the program or by C, finds it where that call must find it |
| `BufferPool.FreedOnce` | src/packet.rs:234-238 | between two frees of one buffer it was got from the pool |
| `BufferPool.GivenUpOnce` | src/packet.rs:29-33 | between two frees or sends of one buffer by the program it was got or handed over |
| `BufferPool.Ledger` | src/packet.rs:29-33 | the program has a buffer exactly if it had it or was handed it once more often than it gave it up |
| `BufferPool.ExactlyOneOwner` | src/packet.rs:216-238 | from start-up on each buffer is in exactly one place, and is freed once for each time it is got |
| `BufferPool.Runtime.ScopeEnd` | src/packet.rs:234-238 | a handle still live at the end of its scope frees its buffer, once; one moved or forgotten does nothing |
| `BufferPool.Runtime.PacketGet` | src/packet.rs:44-57 | `None` exactly if the pool is exhausted; otherwise one free buffer in a new handle |
| `BufferPool.Runtime.IntoRawPtr` | src/packet.rs:217-221 | the pointer comes out, the handle is gone, nothing is freed; without the `forget` C would be given a freed buffer |
| `BufferPool.Runtime.Send` | src/connection.rs:52-55 | exactly the handle's buffer moves to C |
| `BufferPool.Runtime.ReadPacket` | src/connection.rs:70-77 | a packet that came is in a new handle, its buffer no longer C's |
| `Dispatcher.RegisteredKeeps` | src/service.rs:227-291 | a registration puts no second handler on a port and replaces none |
| `Dispatcher.RegistrationsKeep` | src/service.rs:227-291 | over any sequence of registrations no handler is ever replaced and no port has one of each kind |
| `Dispatcher.NeverReplaced` | src/service.rs:227-291 | for each port: what was registered stays, only one kind, and the port bound |
| `Dispatcher.PriorityNeverMatters` | src/service.rs:300-311 | so asking result handlers before regular ones would route every packet alike |
| `Dispatcher.Dispatcher.Register` | src/service.rs:227-236 | a handler is stored if and only if the port was bound and listens; then the port had none of either kind, and no other is touched |
| `Dispatcher.Dispatcher.RegisterWithResult` | src/service.rs:265-285 | the same for a result handler |
| `Dispatcher.Dispatcher.BindService` | src/service.rs:287-291 | a port is bound and no handler touched |
| `Dispatcher.RouteInNumbers` | src/lib.rs:276-280 | regular before result handlers; without either, ports 0 to 6 are built-in services and the others nobody's |
| `Dispatcher.DeliverIsRun` | src/service.rs:297-328 | one packet, whatever its handler does, is a run of handle steps |
| `Dispatcher.HandlerAsked` | src/service.rs:306-315 | the handler called is that of the port, with the packet just read, and its own answer is what is acted on |
| `Dispatcher.RunsOwnPart` | src/service.rs:297-328 | apart from its handler: an unhandled packet is freed, a service packet given to C, and after a handler exactly its reply goes out, if it gave one; handlers may do anything else with any packet |
| `Dispatcher.ServeIsSafe` | src/service.rs:293-330 | for all handlers and all runs of any length, with the router and drivers moving buffers meanwhile: no buffer is lost or owned twice and every call on a buffer is legal where it is |
| `Dispatcher.ServedInTurn` | src/service.rs:295-324 | each packet is served once, in its turn, by the first of regular handler, result handler, built-in service and free that its port has; the callback is called exactly for the handlers that fail |
| `Dispatcher.ArrivalsOfScript` | src/service.rs:295-297 | the packets in question are those of the connections, one after another |
| `Dispatcher.TidyRunsLeakNothing` | src/service.rs:293-330 | if handlers end with what they found, the reply apart, the program ends with exactly the handles and raw pointers it had |
| `Dispatcher.EchoForever` | src/service.rs:308-310 | one buffer can come round any number of times, answered each time |
| `Dispatcher.Dispatcher.Handle` | src/service.rs:298-328 | the body of the inner loop does exactly that: one handler is called, one reply at most sent, a packet nobody was given is dropped |
| `Dispatcher.Dispatcher.Run` | src/service.rs:293-330 | over all connections: the run is safe, and every packet is served once and in its turn |
| `Sniffer.StepInv` | src/promisc.rs:27-37 | every step keeps the flag equal to the number of threads inside and the C calls alternating |
| `Sniffer.SingleHandle` | src/promisc.rs:27-60 | in every interleaving at most one thread is between winning and clearing the flag, enables and disables alternate, and the handle's owner has the mode enabled |
| `Sniffer.OpenWinsIffFree` | src/promisc.rs:28-30 | an open wins exactly when nobody is inside, and a refused one changes nothing |
| `Sniffer.FailedEnableReopens` | src/promisc.rs:32-35 | a failed enable leaves nobody inside, no C call made and the flag clear |

## Left out

- Everything behind `sys`: RDP, routing and connection tables, CFP, HMAC and CRC; the C sources are not part of this model.
- `build.rs`, the socketcan, embassy-net and linker plumbing, error, constant and port tables, the CFP bit-field helpers and the interface and route wrappers: single-branch code.
- `strcpy`, `get_ms`, `deadline`, `queue_free_slots`, ISR variants, thread creation, mutexes, panic catching, pacing and statistics of the stress programs.
- The `sem_t` semaphore as a binary one: it counts to two after `csp_bin_sem_init`, so mutual exclusion is claimed for the embassy and macOS versions only.
- How long anything waits: the model has no clock. A timed wait may time out at any moment.
- Failing `pthread` calls and poisoned Rust mutexes.
- `queue_remove` and `bin_sem_remove`: a handle is assumed live while it is used.
- QueueBackends.TestEnqueue: only the path with timeout 0; the waiting paths are in `Monitor.dfy`, on values, where the queue is shared by threads.
- QueueBackends.TestDequeue: as for `TestEnqueue`.
- QueueBackends.CspQueueEmpty: requires that a stored item fits the 16-byte scratch buffer, since the source would write past it; `CspQueueEmptyTest` the same.
- RingQueue.Queue.Enqueue: `usize` is unbounded here; indices stay below the buffer length, which the constructor requires to hold `capacity * item_size`, so the product is assumed not to overflow.
- Strtok.StrtokR: the two loops over the string and the scan they share are methods of their own.
- Sfp.SendCtx.ReadCb: says when a read would run past the payload (`past`), and nothing of what happens then.
- SfpTransfer.Transfer: `mtu` 0 is excluded; what the C loops do with it is not known here.
- HeapShim.Arch.Allocate: the header is written as a little-endian word of four or eight bytes.
- MonitorLiveness.SleeperIsServed: new calls, spurious wakeups and expiring waits are kept out while the threads inside come to rest, as they can go on for ever; so too `CondvarSemaphore.WaiterIsServed`.
- StressPayload.Receiver.Check: counters are unbounded.
- Xorshift.Rand: the static cell, which starts at 0xDEADBEEF, is a parameter; `rand` called by two threads at once, whose load and store may interleave.
- Dispatcher.Dispatcher.Run: the `listen` before the loop, lengths of timeouts, and closing a connection.
- Packet.RawPacket.Write: release builds; a debug build panics instead of truncating the length.
- BufferPool.Runtime.PacketGet: that the buffer is cleared is in `Packet.dfy`, on one buffer; contents of packets play no part in who owns them.
- Dispatcher.Dispatcher.Handle: a panic in a handler, which unwinds through `run`.
