# FreeNOS: verified models of the kernel and its libraries

FreeNOS is a microkernel operating system. This project models the parts of it
whose correctness depends on many steps or many objects at once, and proves
properties of those models for all inputs and all runs:

- **Shared memory between processes.** Every block shared by two processes is a
  pair of records, one in each process; an `attached` flag decides who frees the
  pages. `SharesSpec`, `SharesProofs` and `SharesRuns` keep a ledger over all
  processes: a frame that is handed out is named by exactly two attached records
  that name each other, or by exactly one detached record, and it is freed with
  its last record, across process death and process ID reuse.
- **Message rings.** `Ring` models one producer and one consumer over two shared
  pages as interleaved memory steps (head word reads, single byte copies, head
  word publications) with restarts of either side at any step.
- **Sleep and wakeup.** `Handshake` puts any number of rings and senders on top of
  the process state machine, with handlers that wait for messages themselves, and
  shows exactly which steps can lose a wakeup; `HandshakeRuns` has runs that do.
- **Processes and scheduling.** `KernelSpec` says what each operation does to the
  process table, run queue, sleep queue and notify lists; `KernelProofs` shows
  what each keeps and when exactly it reports FATAL; `ProcessCtl` lifts this to
  whole runs of system calls, `CallEffects` says what each call does and answers,
  `Timers` how long a process sleeps, and `Fairness` how long a Ready process waits.
- **LZ4.** `Lz4Format` and `Lz4Frame` define the format with an encoder;
  `Lz4Proofs` and `Lz4Frame` show that the decoder undoes it, and `Lz4Known` what it
  does with frames and blocks that are given byte by byte.
- **Memory allocators.** `BitArrays` and `BitAllocators` model the allocator of
  chunks and page frames with its search that skips full words; what it hands out
  is what the shares ask of it, and `PageFrames` runs the two together. `Heap` and
  `PoolAllocators` model pools over a parent allocator, and `KernelHeaps` puts the
  kernel's heap together and shows that everything live is disjoint in every run.
- **File server requests, page-wise copy, message passing between cores,
  asynchronous requests.** `FileServer`, `VMCopy`, `Mpi`, `ChannelClients`.

Where the source changes state in place there is a class (`MemoryChannel`,
`Process`, `Scheduler`, `ProcessManager`, `ProcessShares`, `Lz4Decompressor`,
`BitArray`, `BitAllocator`, `Pool`, `PoolAllocator`, `BubbleAllocator`, `KernelHeap`, `FileSystemServer`, `ChannelClient`) or
a method on an array. Their methods are proved equal to specification functions,
and the results are lemmas about those functions. Proofs use `hide` to keep
definitions they do not need out of the verifier's way.

## Conventions

- A FATAL report, which halts the kernel, is a result of its own (`Fatal`,
  `Halted`). An access outside a buffer, which the source does not check, and a
  failed assertion are `Fault` in the LZ4 decoder.
- Answers of code outside the model are parameters: the page allocator and the
  memory contexts (`Env` of shares; `PageFrames` puts the real page allocator in), the parent of the heap (`parent`), files, file
  cache and clock (`Env` of the file server), timer ticks (`now`).
- Memory is sequentially consistent and head words are accessed whole. Kernel
  calls are atomic. Ticks and wakeup counts are unbounded. Lengths in the LZ4
  decoder wrap at 32 bits as in the source.
- The constants are those of the source: pages of 4096 bytes, 1024 processes, 32
  shares and 32 requests per process, 256 interrupt vectors, pool sizes 2^2 to
  2^27. Sizes that differ between architectures (the ring head, the pool header,
  the object prefix) are parameters.

## Where the code does less than one might expect

Each of these is stated and proved, with the exact condition where it depends on one.

- A share of a process with itself is never freed (`SharesRuns.SelfShareLeaks`).
  Creation also loses pages when a mapping fails or a share table is full;
  `SharesRuns.CreateLedgerExactly` gives the exact condition.
- Keys of shares stay unique under a completed creation exactly when neither side holds the key
  (`SharesRuns.CreateUniqueExactly`); requests that name their target truthfully
  always meet this (`SharesRuns.TruthfulKeyFree`), and `SharesRuns.DoubleKeyRun` is a
  run with one that does not.
- A sender that is restarted between publishing a message and its Wakeup call leaves
  the receiver asleep (`HandshakeRuns.RestartLosesWakeup`). A handler that waits for a
  reply can take the wakeup of a channel that the scan has passed already
  (`HandshakeRuns.NestedLosesWakeup`). These are the only two ways
  (`Handshake.StepExactly`).
- A process may delete its own kernel event channel
  (`SharesRuns.DeleteKeepsKernelChannelsExactly`).
- A process may release a page of its own share by address; the allocator then hands it
  out again while the share still holds it (`PageFrames.GivesExactly`,
  `PageFrames.GivenShareRun`).
- A kernel event for a process whose event channel is full is dropped; only the wakeup
  remains (`Handshake.EventDeliveredExactly`).
- Taking a process off the run queue rotates the rest, so that stopping and resuming one
  process can keep another from ever running (`Fairness.MovedBackExactly`,
  `Fairness.Starves`).
- A read of an LZ4 frame goes on to the end of a block or of a sequence, beyond the size
  asked for (`Lz4Frame.WithinExactly`).
- Message sizes above a third of a page give a ring that can never carry a message
  (`Ring.UsableExactly`).
- A process that kills or stops itself by number instead of as SELF leaves no valid
  current process; the idle process must not be stopped, removed or put to sleep
  (`ProcessCtl.HandleExact`).
- Frames shorter than 27 bytes are refused even when well-formed
  (`Lz4Frame.InitializeExactly`, `Lz4Frame.TinyFrameRefused`).
- A match with offset zero in an LZ4 block is not refused and stands for whatever the
  buffer held there (`Lz4Known.ZeroOffset`).
- A remote page mapped to frame zero ends a copy early with Success
  (`VMCopy.VMCopyHandler`).
- A request to the chunk allocator for zero bytes takes chunks all the same. With an
  alignment it can return the address of a chunk that is taken already, and then takes
  every chunk in front of the next free one
  (`BitAllocators.BitAllocator.Allocate`).
- After an answered request the retry loop of the file server steps over the next
  pending one; the loop is repeated until a pass answers nothing, so none is
  forgotten (`FileServer.FileSystemServer.RetryAllRequests`).

In one place the code does more than its comment says. The comment at
kernel/ProcessShares.cpp:276-282 expects that a reused process ID can leave a share
that is detached in one process and attached in the other. `SharesRuns.BootLedger`
rules this out between kernel calls: an attached record always has an attached
counterpart.

## Model

| member | source | states |
|---|---|---|
| Ring.SlotInPage | lib/libipc/MemoryChannel.cpp:23-31 | every slot the index arithmetic can name lies inside the page and behind the head word |
| Ring.SlotCountExactly | lib/libipc/MemoryChannel.cpp:23-31 | the number of slots is the largest for which they all fit in a page behind a first message-sized place |
| Ring.UsableExactly | lib/libipc/MemoryChannel.cpp:23-31 | in every run no message is ever written iff three messages do not fit in a page; otherwise every message gets through a new ring |
| Ring.FullExactly | lib/libipc/MemoryChannel.cpp:143-147 | the producer's test reports full iff exactly Max-1 messages are in flight |
| Ring.EmptyExactly | lib/libipc/MemoryChannel.cpp:120-125 | the consumer's test reports empty iff no message is in flight |
| Ring.StepInv | lib/libipc/MemoryChannel.cpp:116-156 | every single memory step of either side, and every restart, keeps the ring invariant |
| Ring.RingSafety | lib/libipc/MemoryChannel.cpp:116-156 | under every interleaving: what was read is a prefix of what was written, at most Max-1 in flight, no half-written message is seen, no unread slot is overwritten |
| Ring.AccessesInPage | lib/libipc/MemoryChannel.cpp:127-154 | in every reachable state each byte copied is inside the page and outside the head word |
| Ring.RestartsRepeatAtMostOne | lib/libipc/MemoryChannel.cpp:37-62 | messages are copied out in order without gaps, and each consumer restart repeats at most one |
| Ring.RestartKeepsPublished | lib/libipc/MemoryChannel.cpp:37-52 | a soft reset at any point changes no history, no slot and nothing of the other side; the producer is then before the slot of the next message, the consumer before the first message not acknowledged, and it sees emptiness exactly |
| Ring.WriteCallEffect | lib/libipc/MemoryChannel.cpp:138-156 | an uninterrupted write is refused iff the ring is full, else puts the message in its slot and publishes it |
| Ring.ReadCallEffect | lib/libipc/MemoryChannel.cpp:116-136 | an uninterrupted read returns the oldest unread message, or nothing iff none is in flight |
| Ring.DrainDeliversAll | lib/libipc/MemoryChannel.cpp:116-136 | from any invariant state an idle consumer that reads once per message in flight has returned exactly what was written |
| Ring.NothingLost | lib/libipc/ChannelServer.h:359-383 | after any interleaving and restarts, a consumer that re-attaches and reads on returns every published message once, in order |
| MemoryChannels.CopyInto | lib/libstd/MemoryBlock.cpp:41-50 | the byte loop places exactly the source at the offset and leaves the rest alone |
| MemoryChannels.MemoryChannel.constructor | lib/libipc/MemoryChannel.cpp:23-31 | the slot count follows from the message size and the head starts at zero |
| MemoryChannels.MemoryChannel.Reset | lib/libipc/MemoryChannel.cpp:37-52 | a soft reset is the restart step of that endpoint |
| MemoryChannels.MemoryChannel.Read | lib/libipc/MemoryChannel.cpp:116-136 | the call is an uninterrupted run of consumer steps; the buffer is the oldest unread message; NotFound iff none |
| MemoryChannels.MemoryChannel.Write | lib/libipc/MemoryChannel.cpp:138-156 | the call is an uninterrupted run of producer steps; ChannelFull iff Max-1 in flight; Success iff the message was published |
| Handshake.SenderRestartExactly | server/recovery/RecoveryServer.cpp:55-110 | a restart of a sender keeps the wakeup invariant iff no receiver relies on a Wakeup call that the restarted program no longer knows of |
| Handshake.NestedSleepExactly | lib/libipc/ChannelClient.cpp:286-287 | the EnterSleep call of a handler keeps the wakeup invariant iff it takes no counted wakeup of a non-empty channel that the scan has passed |
| Handshake.StepExactly | lib/libipc/ChannelServer.h:262-290 | each step of senders, receiver, kernel and timer keeps the rings in order, and keeps the wakeup invariant iff it is not one of those two |
| Handshake.NoLostWakeup | lib/libipc/ChannelClient.cpp:286-317 | in every run without a losing step, with any number of channels, a receiver that sleeps (for all channels, or in a handler for one) while a channel it relies on holds a message has that sender's Wakeup still to come, and it makes it Ready |
| Handshake.PlainHandshake | lib/libipc/ChannelClient.cpp:286-317 | in every run without sender restarts and waiting handlers, a receiver that sleeps while any channel holds a message has that sender's Wakeup still to come |
| Handshake.EventDeliveredExactly | kernel/Process.cpp:161-170 | an event is delivered iff fewer than Max-1 are in flight on the kernel channel; the wakeup is counted either way |
| Handshake.ScanPassesOnlyEmpty | lib/libipc/ChannelServer.h:464-521 | in every run the receiver passes a channel in its scan, or goes on to sleep for it in a handler, iff that channel is empty at that step |
| Handshake.EndOfScan | lib/libipc/ChannelServer.h:262-290 | a receiver at the end of its scan consumes a counted wakeup and scans again, and else sleeps with the timer it was given |
| Handshake.OutsideEvents | kernel/ProcessManager.cpp:230-323 | being stopped, resumed or reached by a timer changes only the state and the wakeup count of the receiver, and how |
| HandshakeRuns.RestartLosesWakeup | server/recovery/RecoveryServer.cpp:55-110 | for every usable ring a run in which a sender restart leaves the receiver asleep with a message waiting and no Wakeup due |
| HandshakeRuns.NestedLosesWakeup | lib/libipc/ChannelServer.h:464-521 | for every usable ring a run in which a waiting handler does |
| ChannelClients.PlacementAgreesExactly | lib/libipc/ChannelServer.h:320-330 | connecting and accepting side agree on the pages of both directions iff they are different processes; each direction has two pages of its own |
| ChannelClients.ChannelClient.SendRequest | lib/libipc/ChannelClient.cpp:156-218 | Success registers the callback under an identifier not in use; any failure leaves the outstanding requests alone; OutOfMemory iff all 32 are outstanding |
| ChannelClients.ChannelClient.ProcessResponse | lib/libipc/ChannelClient.cpp:220-240 | a response runs exactly the callback registered for its process and identifier and retires it; anything else finds nothing |
| ProcessModel.Process.Wait | kernel/Process.cpp:110-122 | only a Ready process starts waiting, for the given process |
| ProcessModel.Process.Join | kernel/Process.cpp:124-135 | only a Waiting process becomes Ready with the result |
| ProcessModel.Process.Stop | kernel/Process.cpp:137-147 | any process but a Waiting one becomes Stopped |
| ProcessModel.Process.Resume | kernel/Process.cpp:149-159 | only a Stopped process becomes Ready |
| ProcessModel.Process.Wakeup | kernel/Process.cpp:224-242 | the wakeup is counted; a Sleeping process becomes Ready and loses its timer |
| ProcessModel.Process.Sleep | kernel/Process.cpp:244-263 | equals its specification: a counted wakeup cancels the sleep and is consumed, unless wakeups are ignored; else the process sleeps and a given timer is stored (stated field by field in KernelProofs.SleepOpInv) |
| KernelProofs.DequeueMembers | kernel/Scheduler.cpp:44-67 | dequeuing removes exactly the process, once, and finds it iff it is queued |
| KernelProofs.PushHasRoom | lib/libstd/Queue.h:55-67 | a queue of distinct process IDs never drops a new one for lack of room |
| KernelProofs.MakeReady | kernel/ProcessManager.cpp:399-412 | a process that becomes Ready is appended to the run queue, leaves the sleep queue, and the invariant holds |
| KernelProofs.TakeOff | kernel/ProcessManager.cpp:414-423 | a queued process that stops being Ready is dequeued without FATAL and the invariant holds |
| KernelProofs.CreateInv | kernel/ProcessManager.cpp:45-93 | creation puts a stopped or Ready child of the current process with everything else zero in the lowest free slot, queues it iff asked to, changes nothing else, and fails iff the table is full |
| KernelProofs.ResumeInv | kernel/ProcessManager.cpp:250-260 | succeeds iff the process is Stopped; then it is Ready, last in the run queue and off the sleep queue, and nothing else changes |
| KernelProofs.StopInv | kernel/ProcessManager.cpp:230-248 | FATAL iff the process is idle, refused without effect iff it is Waiting, else exactly Stopped and off the run queue |
| KernelProofs.WaitOpInv | kernel/ProcessManager.cpp:219-228 | FATAL iff the caller is idle, else the caller is exactly Waiting for the given process and off the run queue |
| KernelProofs.SleepOpInv | kernel/ProcessManager.cpp:274-304 | the caller is never in the sleep queue already; pending iff a wakeup is counted, which is then consumed; FATAL iff it would put idle to sleep; else the caller is exactly Sleeping, with the given timer, off the run queue, and last in the sleep queue iff there is a timer |
| KernelProofs.WakeupInv | kernel/ProcessManager.cpp:306-323 | always succeeds with one more wakeup; a sleeper is then Ready, without timer, last in the run queue and off the sleep queue; nothing else changes |
| KernelProofs.RaiseAllInv | kernel/ProcessManager.cpp:376-397 | raising events on any list of processes keeps the invariant, only appends to the run queue, and changes no more than the wakeup count of a process that was not asleep |
| KernelProofs.NotifyEffect | kernel/ProcessManager.cpp:376-397 | an interrupt counts one wakeup for exactly the processes of its list, and the sleepers among them leave the sleep queue and are queued once each in the order of the list |
| KernelProofs.RegisterInv | kernel/ProcessManager.cpp:344-359 | the list of that vector is the old one with the process behind it, all others stay, and lists stay duplicate-free and live; refused without effect iff it is on the list already |
| KernelProofs.SetIdleInv | kernel/ProcessManager.cpp:208-217 | FATAL iff the process is not queued; the invariant is kept iff no idle process was installed before |
| KernelProofs.JoinFromEffect | kernel/ProcessManager.cpp:108-130 | exactly the waiters on the process become Ready with its exit status, each queued once in table order |
| KernelProofs.RemoveInv | kernel/ProcessManager.cpp:100-153 | FATAL iff the process is idle; else it is taken out of the sleep queue and the notify lists and nothing refers to it any more, its waiters have its status, all others are untouched |
| KernelProofs.ScheduleInv | kernel/ProcessManager.cpp:155-201 | FATAL iff nothing is Ready and there is no idle process; else the head of the queue (or idle) runs, the sleep queue is its unexpired entries in order, expired sleepers are queued once each, stopped entries stay stopped |
| ProcessCtl.HandleExact | kernel/API/ProcessCtl.cpp:27-183 | a call halts the kernel iff it hits idle or a vector behind the notify table, and else leaves a running system iff the caller did not kill or stop itself by number; what each call does is stated in CallEffects |
| ProcessCtl.PoliteRunsKeepRunning | kernel/API/ProcessCtl.cpp:27-183 | no run of calls that avoid those cases ever halts the kernel, and the invariant holds after each |
| ProcessCtl.WaiterStep | kernel/API/ProcessCtl.cpp:140-156 | a waiter leaves the Waiting state only when the process it waits for is removed, with that exit status |
| ProcessCtl.WaitUntilExit | kernel/ProcessManager.cpp:108-130 | the same over whole runs with process IDs reused: the process waited for stays the same live one until the call that removes it |
| ProcessCtl.RoundRobin | kernel/Scheduler.cpp:69-80 | the process at place k of the run queue runs at the (k+1)-th scheduling pass, whatever wakes up meanwhile |
| CallEffects.SpawnEffect | kernel/API/ProcessCtl.cpp:51-58 | the lowest free process ID gets a stopped child of the caller and nothing else changes; fails iff all 1024 are taken |
| CallEffects.KillEffect | kernel/API/ProcessCtl.cpp:60-65 | the target is gone from the table and every list, its waiters are Ready with its status, its peers have a wakeup and the sleepers among them are queued, every other process is as it was; the reply, and that only SELF is followed by a scheduling pass |
| CallEffects.ScheduleCallEffect | kernel/API/ProcessCtl.cpp:73-75 | the head of the run queue runs and goes behind the others |
| CallEffects.StopCallEffect | kernel/API/ProcessCtl.cpp:77-87 | the target is exactly Stopped and off the run queue, or refuses iff it is Waiting; only SELF is followed by a scheduling pass |
| CallEffects.ResumeCallEffect | kernel/API/ProcessCtl.cpp:89-95 | a stopped target is Ready and last in the run queue, any other refuses without effect |
| CallEffects.WakeupCallEffect | kernel/API/ProcessCtl.cpp:105-112 | a sleeping target is Ready, last in the run queue, off the sleep queue, without timer and with one more wakeup; any other target only counts the wakeup; the reply in each case |
| CallEffects.WatchIRQEffect | kernel/API/ProcessCtl.cpp:114-120 | the target is appended to the list of that vector alone, and refused without effect iff it is on it |
| CallEffects.WaitPIDEffect | kernel/API/ProcessCtl.cpp:140-156 | the caller is Waiting for the target, off the run queue, and another process is scheduled |
| CallEffects.WaitTimerEffect | kernel/API/ProcessCtl.cpp:165-173 | the caller sleeps with the given timer whatever wakeups are counted, and another process is scheduled |
| CallEffects.EnterSleepEffect | kernel/API/ProcessCtl.cpp:175-179 | the caller sleeps with the given timer iff no wakeup is counted; else the count is consumed and nothing else happens |
| CallEffects.InterruptEffect | kernel/ProcessManager.cpp:376-397 | exactly the processes registered for the vector get a wakeup, and the sleepers among them are queued in list order |
| Timers.PassWakesExactly | kernel/ProcessManager.cpp:172-190 | a scheduling pass before tick `due` leaves a sleeper with that timer as it was, one at or after it makes it Ready and queues it |
| Timers.PassKeepsForever | lib/libarch/Timer.cpp:85-91 | no pass ever wakes a sleeper whose timer has no frequency |
| Timers.CallWakesExactly | kernel/API/ProcessCtl.cpp:27-183 | a call that is not aimed at a sleeper wakes it iff it makes a pass at or after the due tick, and else leaves it as it was |
| Timers.FallsAsleep | kernel/Process.cpp:244-263 | a caller that goes to sleep with a timer sleeps until the tick of that timer, or is woken at once by the pass of the call itself |
| Timers.SleepsUntilDue | kernel/ProcessManager.cpp:155-201 | over every run of calls not aimed at it, a process that went to sleep with a timer is asleep as long as all passes come before the due tick, and the first pass at or after that tick makes it Ready and queues it |
| Fairness.QueueAfter | kernel/API/ProcessCtl.cpp:27-183 | the run queue after each call: exactly whom the call takes off, exactly what it adds behind and in which order, and whether a scheduling pass follows |
| Fairness.MovedBackExactly | kernel/Scheduler.cpp:44-67 | a call without a scheduling pass moves a Ready process back iff it takes one off the queue that stands behind it and is not the last |
| Fairness.BoundedWait | kernel/API/ProcessCtl.cpp:27-183 | in every run of calls that do not take it off or move it back, the process at place k gets its turn within k+1 scheduling passes |
| Fairness.Starves | kernel/API/ProcessCtl.cpp:73-99 | for any number of repetitions a run of polite calls in which one of three Ready processes never gets its turn |
| ProcessManagers.Scheduler.Enqueue | kernel/Scheduler.cpp:32-42 | appends a Ready process within the queue's capacity |
| ProcessManagers.Scheduler.Dequeue | kernel/Scheduler.cpp:44-67 | refuses a Ready process unless told otherwise; else the pop and push loop removes the first occurrence and leaves the rest rotated, Fatal iff there is none |
| ProcessManagers.Scheduler.Select | kernel/Scheduler.cpp:69-80 | returns the head and moves it to the tail |
| ProcessManagers.ProcessManager.EnqueueProcess | kernel/ProcessManager.cpp:399-412 | equals its specification on the table, queues and lists |
| ProcessManagers.ProcessManager.DequeueProcess | kernel/ProcessManager.cpp:414-423 | equals its specification |
| ProcessManagers.ProcessManager.Create | kernel/ProcessManager.cpp:45-93 | equals its specification and keeps validity; the new process is a fresh object in the first free slot |
| ProcessManagers.ProcessManager.Resume | kernel/ProcessManager.cpp:250-260 | equals its specification and keeps validity |
| ProcessManagers.ProcessManager.Stop | kernel/ProcessManager.cpp:230-248 | equals its specification; FATAL iff the process is idle, else validity is kept |
| ProcessManagers.ProcessManager.Wait | kernel/ProcessManager.cpp:219-228 | equals its specification; FATAL iff a Ready caller is idle, else validity is kept |
| ProcessManagers.ProcessManager.Sleep | kernel/ProcessManager.cpp:274-304 | equals its specification, which KernelProofs.SleepOpInv states field by field; FATAL iff it would put idle to sleep, else validity is kept |
| ProcessManagers.ProcessManager.Wakeup | kernel/ProcessManager.cpp:306-323 | equals its specification and keeps validity |
| ProcessManagers.ProcessManager.SetIdle | kernel/ProcessManager.cpp:208-217 | equals its specification; FATAL iff the process is not queued; validity is kept iff no idle process was installed before |
| ProcessManagers.ProcessManager.JoinWaiters | kernel/ProcessManager.cpp:108-130 | the table loop equals its specification in every state of the lists |
| ProcessManagers.ProcessManager.UnregisterInterruptNotify | kernel/ProcessManager.cpp:361-374 | the process is in no notify list afterwards, the lists are otherwise unchanged |
| ProcessManagers.ProcessManager.Remove | kernel/ProcessManager.cpp:100-153 | equals its specification, also for the state in which removing idle halts the kernel; FATAL iff the process is idle; else validity is kept and nothing refers to the process any more |
| ProcessManagers.ProcessManager.Schedule | kernel/ProcessManager.cpp:155-201 | FATAL iff nothing is queued and there is no idle process; the sleep queue loop and the choice of the next process equal their specification and keep validity |
| ProcessManagers.ProcessManager.RegisterInterruptNotify | kernel/ProcessManager.cpp:344-359 | halts iff the vector lies behind the notify table; else equals its specification; keeps validity |
| ProcessManagers.ProcessManager.InterruptNotify | kernel/ProcessManager.cpp:376-397 | wakes every registered process in order and keeps validity |
| SharesProofs.LoopOwnTable | kernel/ProcessShares.cpp:254-270 | after a release loop exactly the selected slots of the own table are gone |
| SharesProofs.LoopOtherTable | kernel/ProcessShares.cpp:283-306 | another process's records are marked detached iff an attached record for it was released |
| SharesProofs.LoopFrames | kernel/ProcessShares.cpp:307-315 | exactly the frames of released detached records are returned |
| SharesProofs.LoopFreesOnce | kernel/ProcessShares.cpp:307-315 | no frame is released twice in a loop over records that own their frames |
| SharesProofs.RemoveLedger | kernel/ProcessShares.cpp:254-332 | removing the shares with one process keeps the ledger: exactly the records for it are gone, exactly its records for the caller are detached, exactly the frames of the detached ones among those removed are freed, none twice |
| SharesProofs.KillLedger | kernel/ProcessShares.cpp:33-51 | process death does the same for all its shares at once and keeps the ledger, for every combination of shares |
| SharesRuns.FindFromIs | kernel/ProcessShares.cpp:334-356 | the search returns the first matching record, and none iff there is none |
| SharesRuns.InsertIs | lib/libstd/Index.h:60-89 | a record goes to the first free slot; a full table stays as it is |
| SharesRuns.CreateAnswers | kernel/ProcessShares.cpp:142-252 | which answer a creation gives, over the slots of both tables and the fields of the request: each of InvalidArgument, AlreadyExists, DetachInProgress, OutOfMemory and Success iff its condition holds; refusals change nothing, a failed mapping keeps the pages handed out |
| SharesRuns.CreateLedgerExactly | kernel/ProcessShares.cpp:142-252 | creation keeps the ledger iff the request is refused, nothing was allocated, or both mappings succeed, the processes differ and both tables have room |
| SharesRuns.SelfShareLeaks | kernel/ProcessShares.cpp:283-306 | a share of a process with itself leaves its first frame handed out with no record after the process dies |
| SharesRuns.SpawnLedger | kernel/Process.cpp:186-216 | process creation with its kernel event channel keeps the ledger |
| SharesRuns.SpawnExactly | kernel/Process.cpp:186-216 | a new process shares exactly two pages with the kernel, in its first slot and detached, and has 31 slots free; nothing else changes |
| SharesRuns.CreateUniqueExactly | kernel/ProcessShares.cpp:142-252 | a creation that is admitted and completes keeps keys unique iff neither side held the key |
| SharesRuns.TruthfulKeyFree | kernel/ProcessShares.cpp:156-165 | for a truthful request the AlreadyExists and DetachInProgress checks rule out the key on both sides |
| SharesRuns.StepLedger | kernel/API/VMShare.cpp:25-80 | every birth, creation (truthful or not), deletion and death keeps the ledger |
| SharesRuns.StepUnique | kernel/ProcessShares.cpp:156-165 | if creation requests name their target truthfully, each step also keeps keys unique |
| SharesRuns.RunLedger | kernel/API/VMShare.cpp:25-80 | the ledger holds after every run, with process IDs reused freely |
| SharesRuns.RunUnique | kernel/ProcessShares.cpp:156-165 | no process ever holds two records with one key in a run of truthful requests |
| SharesRuns.BootLedger | kernel/API/VMShare.cpp:25-80 | both hold for every run from an empty process table |
| SharesRuns.DoubleKeyRun | kernel/ProcessShares.cpp:156-165 | a run of two births and two creations, the second with a wrong process ID in the request, after which a process holds two records with one key |
| SharesRuns.FrameHolders | kernel/ProcessShares.cpp:272-332 | a frame handed out is held by exactly two attached records that name each other, or by exactly one detached record |
| SharesRuns.FreedExactlyWithLastRecord | kernel/ProcessShares.cpp:276-315 | a step returns a frame iff it removes the last record covering it, and never one that is not handed out |
| SharesRuns.DeleteKeepsKernelChannelsExactly | kernel/API/VMShare.cpp:69-72 | a delete call keeps every kernel event channel iff it does not name the kernel |
| ProcessSharesImpl.Kernel.ReleaseBlock | kernel/ProcessShares.cpp:311-314 | the page loop returns exactly the block's frames and notices a frame that was not handed out |
| ProcessSharesImpl.Kernel.CreateProcess | kernel/Process.cpp:172-222 | equals its specification |
| ProcessSharesImpl.Kernel.Terminate | kernel/ProcessShares.cpp:33-51 | leaving the process table and then releasing every share equals its specification |
| ProcessSharesImpl.ProcessShares.FindShare | kernel/ProcessShares.cpp:334-356 | the loop returns the first matching record |
| ProcessSharesImpl.ProcessShares.DetachAll | kernel/ProcessShares.cpp:291-304 | the loop marks exactly the records for that process and core |
| ProcessSharesImpl.ProcessShares.ReleaseShare | kernel/ProcessShares.cpp:272-332 | equals its specification, also when both ends are one object |
| ProcessSharesImpl.ProcessShares.RemoveShares | kernel/ProcessShares.cpp:254-270 | equals its specification |
| ProcessSharesImpl.ProcessShares.CreateShare | kernel/ProcessShares.cpp:142-252 | equals its specification on every path; which answer that is, SharesRuns.CreateAnswers states |
| Lz4Proofs.LengthDecodes | lib/libexec/Lz4Decompressor.cpp:179-202 | a length with any number of continuation bytes decodes to itself |
| Lz4Proofs.CopyIsMatch | lib/libexec/Lz4Decompressor.cpp:251-254 | the ascending in-place copy appends the last offset bytes repeated periodically, also when the match is longer than its offset |
| Lz4Proofs.LiteralDecodes | lib/libexec/Lz4Decompressor.cpp:218-233 | token, length and literals of an encoded sequence decode to the literals |
| Lz4Proofs.MatchDecodes | lib/libexec/Lz4Decompressor.cpp:241-254 | offset and length of an encoded sequence decode to the match bytes |
| Lz4Proofs.DecodeCuts | lib/libexec/Lz4Decompressor.cpp:204-259 | with any number of bytes wanted, decoding a well-formed block writes its expansion up to the first whole sequence that reaches that number, and nothing else |
| Lz4Proofs.DecodeUndoesEncode | lib/libexec/Lz4Decompressor.cpp:204-259 | decoding the encoding of any well-formed block writes exactly its expansion and nothing else |
| Lz4Frame.InitializeExactly | lib/libexec/Lz4Decompressor.cpp:35-123 | an encoded frame is accepted iff it has at least 27 bytes, with its own parameters |
| Lz4Frame.TinyFrameRefused | lib/libexec/Lz4Decompressor.cpp:40-45 | a well-formed frame of one stored byte is refused |
| Lz4Frame.ReadyIsSettled | lib/libexec/Lz4Decompressor.cpp:35-123 | the parameters of an accepted frame depend on earlier calls only through a content size that the frame leaves out |
| Lz4Frame.ReadCuts | lib/libexec/Lz4Decompressor.cpp:130-177 | for every size asked for, exactly which bytes a read of a well-formed frame writes |
| Lz4Frame.WithinExactly | lib/libexec/Lz4Decompressor.cpp:138-174 | they are a prefix of the contents, and stay within the size asked for iff the frame has no more or the size ends at a whole block or sequence |
| Lz4Frame.OneByteWritesTwo | lib/libexec/Lz4Decompressor.cpp:159-163 | a read of one byte that writes two |
| Lz4Frame.ReadBounded | lib/libexec/Lz4Decompressor.cpp:138-174 | whatever the input, nothing is written one maximum block or more behind the size asked for |
| Lz4Frame.ReadUndoesEncode | lib/libexec/Lz4Decompressor.cpp:130-177 | reading an encoded frame yields the concatenation of its blocks' contents, compressed or stored, with or without checksums |
| Lz4Known.AcceptedExactly | lib/libexec/Lz4Decompressor.cpp:35-123 | byte by byte, which inputs are accepted and with which parameters, which are not supported, and that all others are invalid |
| Lz4Known.RefusedLeaves | lib/libexec/Lz4Decompressor.cpp:35-123 | byte by byte, the parameters that an input leaves behind, also when it is refused half way |
| Lz4Known.BlockLimitIs | lib/libexec/Lz4Decompressor.cpp:99-120 | the block limits that AcceptedExactly and StoredFrameReads name are 2 to the power 8 + 2 * code |
| Lz4Known.StoredFrameReads | lib/libexec/Lz4Decompressor.cpp:130-177 | a frame of one stored block spelled out in bytes, of any length, with or without checksums and dictionary, is accepted, and read to the literal bytes iff the block is within the limit of its code |
| Lz4Known.RunOfOne | lib/libexec/Lz4Decompressor.cpp:204-259 | six literal bytes with a match that overlaps itself and two continuation bytes decode to a run of 275 or more equal bytes |
| Lz4Known.PairThrice | lib/libexec/Lz4Decompressor.cpp:204-259 | five literal bytes with the shortest match decode to a pair of bytes three times |
| Lz4Known.FarBack | lib/libexec/Lz4Decompressor.cpp:204-259 | 256 literals and a match with a two-byte offset decode to the literals and their first five again |
| Lz4Known.LiteralsOnly | lib/libexec/Lz4Decompressor.cpp:218-239 | a last sequence decodes to its literals |
| Lz4Known.ZeroOffset | lib/libexec/Lz4Decompressor.cpp:241-254 | a match with offset zero is not refused and leaves in place what the buffer held |
| Lz4Decompressors.CopyOver | lib/libstd/MemoryBlock.cpp:41-50 | the in-place byte loop equals the overlapping copy of the specification |
| Lz4Decompressors.Lz4Decompressor.Initialize | lib/libexec/Lz4Decompressor.cpp:35-123 | equals its specification, with the fields it leaves on every path (by bytes: Lz4Known.AcceptedExactly and Lz4Known.RefusedLeaves); for an encoded frame they are the frame's |
| Lz4Decompressors.Lz4Decompressor.IntegerDecode | lib/libexec/Lz4Decompressor.cpp:179-202 | the loop equals its specification with 32-bit wrap-around |
| Lz4Decompressors.Lz4Decompressor.Decompress | lib/libexec/Lz4Decompressor.cpp:204-259 | the in-place loop equals the decoder specification |
| Lz4Decompressors.Lz4Decompressor.Read | lib/libexec/Lz4Decompressor.cpp:130-177 | for an encoded frame and any size the buffer holds exactly its contents up to the cut |
| VMCopy.CopyPage | kernel/API/VMCopy.cpp:57-90 | the bytes within one remote page move as in the flat copy, whatever overlaps |
| VMCopy.PhysicalByte | kernel/API/VMCopy.cpp:52-66 | for ReadPhys byte k is the one at physical address theirs + k, and it can move iff it lies behind page zero |
| VMCopy.RemoteByteIs | kernel/API/VMCopy.cpp:54-59 | otherwise byte k is at its offset in the frame that the remote page table gives for its page |
| VMCopy.LocalByteIs | kernel/API/VMCopy.cpp:76-90 | the same for the caller |
| VMCopy.VMCopyHandler | kernel/API/VMCopy.cpp:48-102 | the page-wise loop is the flat byte copy of exactly the bytes in front of the first that cannot move, for any offset, length, overlap and mapping; how it ends there; between separate buffers every byte arrives and nothing else changes |
| VMCopy.FlatMoves | kernel/API/VMCopy.cpp:76-90 | between buffers that share no byte the flat copy puts every byte in its place and changes nothing else |
| VMCopy.ReadBack | kernel/API/VMCopy.cpp:76-90 | reading back what was written changes nothing |
| BitArrays.BitArray.Set | lib/libstd/BitArray.cpp:50-74 | the count of clear bits stays exact |
| BitArrays.BitArray.SetNext | lib/libstd/BitArray.cpp:97-162 | the search that skips full words finds the first run that is long enough and on the boundary, none iff there is none, and sets exactly it; also what a search for no bits does |
| BitAllocators.FilledTakes | lib/libstd/BitArray.cpp:89-95 | setting a run of clear bits takes exactly its chunks, none of which was taken |
| BitAllocators.NextClearIs | lib/liballoc/BitAllocator.cpp:41-78 | the chunk named for a request of no bytes is where the search for a single chunk ends; none iff all are taken |
| BitAllocators.BitAllocator.AllocateFrom | lib/liballoc/BitAllocator.cpp:52-78 | the answer of a search from one start, for every size and alignment |
| BitAllocators.BitAllocator.Allocate | lib/liballoc/BitAllocator.cpp:41-78 | fails iff no aligned run of free chunks exists anywhere; else the block is free, aligned to the base, inside the range, and exactly its chunks are taken; for a request of no bytes the address and the chunks taken |
| BitAllocators.BitAllocator.AllocateAt | lib/liballoc/BitAllocator.cpp:80-86 | exactly the given chunk is taken |
| BitAllocators.BitAllocator.Release | lib/liballoc/BitAllocator.cpp:97-103 | exactly the given chunk is free again, and the available bytes grow by it |
| BitAllocators.PagesAreFresh | kernel/ProcessShares.cpp:184-194 | a block of pages from the chunk allocator has no frame that a share holds, and afterwards every frame of every share is taken |
| PageFrames.TakesFresh | kernel/ProcessShares.cpp:184-194 | what the ledger assumes of the page allocator follows from its bit map |
| PageFrames.LatestBlock | lib/liballoc/BitAllocator.cpp:41-78 | the pages that a birth or a creation gains are those from the bit remembered for the next search on, and none of them was taken |
| PageFrames.StepTiedExactly | kernel/ProcessShares.cpp:142-332 | births, creations, deletions and deaths on top of the bit map, other users that take any free pages, and pages given back by address keep the ledger and keep the taken pages exactly those of the shares and of the others, iff no creation wastes its pages and no page of a share is given back |
| PageFrames.GivesExactly | kernel/API/VMCtl.cpp:100-108 | giving a page back by address keeps shares and bit map together iff no share holds it |
| PageFrames.RunTied | kernel/ProcessShares.cpp:142-332 | the same over every run without such a step, so that no page is lost or handed out twice |
| PageFrames.BootTied | kernel/ProcessShares.cpp:142-332 | it holds at boot for any bit map |
| PageFrames.GivenShareRun | lib/libarch/intel/IntelPageDirectory.cpp:143-187 | a run in which a page of a share is given back and handed out again, so that it has two owners |
| PageFrames.ReleasePages | kernel/ProcessShares.cpp:309-315 | the page loop on the allocator gives back exactly the block, and every release meets what the allocator asserts |
| Heap.RequestFits | lib/liballoc/PoolAllocator.cpp:214-232 | a block holds the requested object count iff it has at least the bytes that are requested from the parent |
| Heap.Pow2Doubles | lib/liballoc/PoolAllocator.cpp:48-54 | the object size of a pool index is a power of two: it starts at one and doubles |
| Heap.FirstPayload | lib/liballoc/PoolAllocator.cpp:56-65 | the objects of the smallest pool take 16 KB together, or one object alone takes more |
| Heap.FitPool | lib/liballoc/PoolAllocator.cpp:236-253 | the sizing loop ends at the largest object count that fits, at least the one asked for |
| Heap.Pool.Allocate | lib/liballoc/BitAllocator.cpp:41-78 | fails iff no chunk is clear; else takes the next clear chunk from the last one taken, and starts over at the front if there is none |
| PoolAllocators.LinkFront | lib/liballoc/PoolAllocator.cpp:262-267 | the new pool heads a well-formed doubly linked list |
| PoolAllocators.LinkAround | lib/liballoc/PoolAllocator.cpp:280-290 | the list without the pool is a well-formed doubly linked list |
| PoolAllocators.PoolAllocator.PushFront | lib/liballoc/PoolAllocator.cpp:259-269 | all lists stay well-formed, the pool is first in the list of its size |
| PoolAllocators.PoolAllocator.Unlink | lib/liballoc/PoolAllocator.cpp:272-299 | all lists stay well-formed, exactly this pool is gone |
| PoolAllocators.PoolAllocator.AllocatePool | lib/liballoc/PoolAllocator.cpp:212-270 | fails iff the parent refuses; else adds one empty pool in front of its list, in the block the parent gave, with at least the requested and at most as many objects as fit, and keeps validity |
| PoolAllocators.PoolAllocator.FindIndex | lib/liballoc/PoolAllocator.cpp:171-184 | the smallest pool size that holds the request; there is one iff the request has at most 2^27 bytes, and above the minimum it is less than twice the request |
| PoolAllocators.PoolAllocator.FindRoom | lib/liballoc/PoolAllocator.cpp:192-207 | walks the list to the first pool of that size with room, or finds that none of all pools of that size has |
| PoolAllocators.PoolAllocator.RetrievePool | lib/liballoc/PoolAllocator.cpp:165-210 | a pool of the smallest size that holds the request: the first of its list with room, or a new empty one; none iff the request fits no pool size, or no pool of its size has room and the parent refuses; which block the parent is asked for, and that a new pool is in front of its list and uses all of the answer |
| PoolAllocators.PoolAllocator.GrowthIs | lib/liballoc/PoolAllocator.cpp:186-217 | in bytes, what the parent is asked for: a list of n pools grows by n times 16 KB of objects, or n objects when one takes more |
| PoolAllocators.PoolAllocator.SomeIndex | lib/liballoc/PoolAllocator.cpp:171-184 | every request up to 2^27 bytes has a pool size |
| PoolAllocators.PoolAllocator.Allocate | lib/liballoc/PoolAllocator.cpp:87-128 | each failure with its exact condition, leaving the objects alone; success adds one object of the rounded size in a pool of the smallest size that holds it, in the next clear chunk of the first pool with room or in the first chunk of a new pool; the request made to the parent, and where the new pool lies |
| PoolAllocators.PoolAllocator.Release | lib/liballoc/PoolAllocator.cpp:130-163 | forgets exactly the object; its pool is given up iff it is empty and the parent takes it |
| PoolAllocators.PoolAllocator.EmptyPoolExactly | lib/liballoc/PoolAllocator.cpp:156-160 | a pool's bits are all clear iff no object is recorded for it |
| PoolAllocators.PoolAllocator.LiveObjectsDisjoint | lib/liballoc/PoolAllocator.cpp:87-128 | any two live objects with their prefixes and postfixes are disjoint |
| PoolAllocators.PoolAllocator.LiveObjectPlaced | lib/liballoc/PoolAllocator.cpp:87-128 | a live object lies in its recorded pool and clear of every pool's header and bitmap, one byte per object rounded up to four |
| PoolAllocators.PoolAllocator.PostfixIsScanned | lib/liballoc/PoolAllocator.cpp:140-150 | the backward scan of release meets the object's postfix before its prefix |
| PoolAllocators.PoolAllocator.LiveCount | lib/liballoc/PoolAllocator.cpp:80-82 | a pool has exactly as many live objects as chunks that are not available |
| PoolAllocators.PoolAllocator.CalculateUsage | lib/liballoc/PoolAllocator.cpp:67-85 | over all lists, used is headers and bitmaps plus one chunk for each live object, and never more than the total |
| PoolAllocators.BubbleIsSound | lib/liballoc/BubbleAllocator.cpp:32-45 | while every pool lies in what was handed out, the growing parent meets what the pool allocator asks of a parent |
| PoolAllocators.BubbleAllocator.Allocate | lib/liballoc/BubbleAllocator.cpp:32-45 | blocks are inside the range and apart from everything handed out before; exactly the rounded size is used up |
| KernelHeaps.KernelHeap.constructor | kernel/Kernel.cpp:120-131 | the two allocators share the heap's megabyte behind their own objects, and nothing is handed out yet |
| KernelHeaps.KernelHeap.Allocate | kernel/Kernel.cpp:120-134 | keeps every pool inside what the bubble has handed out, with no assumption about the parent left; fails for lack of memory iff the pools are full and the bubble has no room for the block; exactly what is used up of the bubble, and which chunk the object gets |
| KernelHeaps.KernelHeap.FirstPoolExactly | kernel/Kernel.cpp:120-134 | while there is no pool yet, a request is served iff the bubble has room for the first pool of its size |
| KernelHeaps.KernelHeap.NewHeapServes | kernel/Kernel.cpp:120-134 | in bytes: while nothing is handed out, a request is served iff it has at most half a megabyte with prefix and postfix, provided the allocators' own objects leave a pool of that size free |
| KernelHeaps.KernelHeap.Release | kernel/Kernel.cpp:120-134 | forgets exactly the object; the bubble takes no pool back |
| KernelHeaps.KernelHeap.LiveApart | lib/liballoc/PoolAllocator.cpp:87-128 | live objects are pairwise disjoint and inside the heap |
| KernelHeaps.KernelHeap.Serve | kernel/Kernel.cpp:120-134 | after any run of requests all live objects are pairwise disjoint |
| FileServer.FindMount | lib/libfs/FileSystemServer.cpp:208-231 | the first of the longest mounts the path lies under, none iff it lies under none |
| FileServer.RearmKeepsAll | lib/libfs/FileSystemServer.cpp:364-371 | re-arming the deadline for one request never puts off another, and the deadline is the request's own or the one set before |
| FileServer.InodeAnswers | lib/libfs/FileSystemServer.cpp:246-299 | reads and writes are answered NotFound iff there is no such file, and else what the file says |
| FileServer.WaitFileAnswers | lib/libfs/FileSystemServer.cpp:301-381 | a WaitFile request is answered Success iff a file is ready, TimedOut iff none is and its tick has passed, and stays pending iff neither |
| FileServer.PathAnswers | lib/libfs/FileSystemServer.cpp:401-534 | for every kind of path request, which answer it gets when its path lies under a mount and when it does not |
| FileServer.PutOffExactly | lib/libfs/FileSystemServer.cpp:383-534 | for every kind of request, when exactly it stays pending |
| FileServer.FileSystemServer.InodeHandler | lib/libfs/FileSystemServer.cpp:246-299 | one response, or none and a retry |
| FileServer.FileSystemServer.WaitFileHandler | lib/libfs/FileSystemServer.cpp:301-381 | one response, or none, a retry and the deadline re-armed |
| FileServer.FileSystemServer.RedirectRequest | lib/libfs/FileSystemServer.cpp:208-244 | answers iff the path lies under a mount |
| FileServer.FileSystemServer.ProcessRequest | lib/libfs/FileSystemServer.cpp:383-534 | on every path exactly one response is sent unless the result is RetryAgain, then none |
| FileServer.FileSystemServer.PathHandler | lib/libfs/FileSystemServer.cpp:194-206 | the request is answered or pending, the deadline is re-armed iff it is a WaitFile put off, and the ledger of requests holds |
| FileServer.FileSystemServer.MountHandler | lib/libfs/FileSystemServer.cpp:561-610 | an entry for the path is renewed, else the first free one is taken, else the request fails; nothing else changes |
| FileServer.MountServes | lib/libfs/FileSystemServer.cpp:561-610 | after a mount exactly the paths under it are served besides those served before |
| FileServer.WaitsForMount | lib/libfs/FileSystemServer.cpp:401-534 | waiting for a file system is put off exactly while its path lies under no mount |
| FileServer.FileSystemServer.RetryRequests | lib/libfs/FileSystemServer.cpp:629-647 | a pass keeps the ledger; it shrinks the list if it answers anything, else it visited all, each was put off, and the deadline covers every pending request |
| FileServer.FileSystemServer.RetryAllRequests | lib/libipc/ChannelServer.h:251-255 | the retries end, with the ledger kept, the deadline covering every pending request, and each of them put off with the mounts as they are |
| FileServer.FileSystemServer.ProcessAll | lib/libipc/ChannelServer.h:262-272 | when the server goes to sleep, after requests and mounts in any order, every request is answered once or pending once, no pending WaitFile is due before the deadline, and each pending one was put off with the mounts as they are |
| FileServer.FileSystemServer.AfterSleep | lib/libipc/ChannelServer.h:290-302 | clearing a passed deadline and retrying restores that; before the deadline nothing happens |
| Mpi.WindowsAgree | lib/libmpi/MpiTarget.cpp:389-419 | master and slave compute the same pages for each direction, and which |
| Mpi.WindowsDisjoint | lib/libmpi/MpiTarget.cpp:231-237 | for any number of cores all windows are disjoint and inside the mapped block |
| Mpi.ReceivedIsSent | lib/libmpi/MpiTarget.cpp:78-157 | under every interleaving what was received is a prefix of what was given to send, and a receive of as many elements returns the sent buffer |
| Mpi.EverythingArrives | lib/libmpi/MpiTarget.cpp:78-157 | on every ring that can carry a message, after 2 * n * (size + 3) rounds in which each side makes at least one step, in any order, all n elements have been received |

## Left out

- Architecture code, MMU, caches and interrupt controllers: page tables are maps, cache flushes do nothing.
- Weak memory ordering, and ticks and wakeup counts that wrap around.
- Heap objects of shares and processes, and the failure of `new` in the kernel: only pages are accounted for.
- The virtual addresses and access rights of shares, and readShare, which only copies a record.
- Process::reset, privileges and entry points: they do not touch scheduling state.
- The contents of the events that interrupts and shares raise: only the wakeup they cause is modelled.
- The 32-bit range of addresses in the page-wise copy, and failure to map the temporary page there.
- A failure to allocate the kernel event channel of a new process: only births that succeed are steps of a run.
- SplitAllocator and MemoryMap around the chunk allocator, which only translate addresses.
- The contents of object memory: signatures are not stored; PostfixIsScanned states where the scan looks.
- Checksums of LZ4 frames, which the source skips, and blocks that depend on earlier ones, which it refuses.
- File cache, directories and path parsing of the file server: what they answer is part of `Env`.
- Rejection of malformed LZ4 blocks: the decoder specification covers all inputs, but which malformed blocks decode without a fault is not characterised.
- Mount paths that fill the whole path field of an entry, which the source then stores without a terminator, and getFileSystems, which only copies the table.
- The answer of a handler that has its reply sent by the server loop, and its Wakeup call: only the receiving side of the handshake has handlers.
- The user heap, whose parent maps pages on demand: PoolAllocators covers it for any sound parent.
- The MPI datatypes, which only choose a field of the message, and the start of slave programs.
- FileServer.FileSystemServer.ProcessRequest: a response that the channel does not take counts as sent, as the source drops it too.
