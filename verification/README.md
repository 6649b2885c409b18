# Redstone: a verified model

Redstone runs programs under ptrace as a deterministic simulation: their sockets, files, clocks and
descriptors are simulated, and faults are injected from seeded random generators. This project models the
parts of it on which a simulated program relies, and proves what they keep over whole runs.

- **Files** (`Disk`, `DiskRuns`): the in-memory file and the handle that writes to it directly or through a
  backlog. A buffered handle is indistinguishable from a direct one exactly under a guard a caller can check;
  what is on disk is always a prefix of what was written; the last writer wins, and flushes of backlogs that
  agree where they overlap commute however they interleave.
- **Datagram pipes** (`Faults`, `DatagramPipe`, `PipeProtocol`, `PipeOrdering`, `FaultDeterminism`,
  `SimulatorRuns`): sending
  with drops, delays and replays, and a receiver that sleeps on a condition variable. No wakeup is lost,
  packets are conserved, reordering and staleness are bounded and both bounds are tight, a pipe is first in first
  out under a spacing condition, and two simulations with one seed inject the same faults at each socket, however
  what happens at the sockets interleaves.
- **The ptrace runner** (`Barrier`, `TraceeMemory`, `Interpose`, `InterposeRuns`, `InterposeIdeal`): the reusable
  barrier, its safety and its progress, byte ranges over word transfers, and the protocol that turns a handled system call into `gettid` and
  patches its result, which a tracee that lives cannot tell from having the call answered directly.
- **Generators** (`Xoshiro`, `SplitMix`, `ByteBlocks`): xoshiro256** is a linear bijection, four consecutive
  words and its state determine each other, and the seeds of split_mix have full period exactly for an odd gamma,
  which the default one is.
- **Descriptors** (`FileDescriptors`): the allocator over every run, and, after every run, the exact look-ups that break it.
- **Clock** (`ScaledClock`): reading and sleeping agree at any scale, in exact arithmetic.

Classes follow the repository's classes and keep their updates in place; each method is proved against a
function on values, and the properties are proved about those functions over all runs. Concurrent code is a
state machine whose steps are its critical sections. `hide` statements in proofs only shorten them.

## Choices

- The condition variable, the scheduler, the steady clock, the tracee and the kernel are arbitrary: they enter as
  steps that may happen in any order, or as unconstrained functions.
- A failing `assert` of the code is modelled as an outcome (`FileDescriptors`) or as an obligation proved to hold
  (`Barrier`). The `assert` on the packet size in `src/net/datagram_socket.cpp:11` names a constant that is declared
  nowhere in the built sources, so no bound on the packet size is modelled.
- `split_mix::mix64` returns `uint32_t`: the words drawn are modelled as narrowed, and its bijectivity is stated of
  the 64-bit value before.
- `Packet.origin` and `Packet.copy` are labels of the model. Nothing the pipe does depends on them.
- The generator's state passes through `std::bernoulli_distribution` as an arbitrary function of the state.
- The replay loop ends only if some later word is at or above its threshold. The model takes such a word as given
  (a ghost bound), as the code does.
- Where `SEEK_END` is used while a queued write extends the file, or a write is positioned at or past
  `max_file_size`, the buffered and the direct handle of the code disagree: `DiskRuns.SeekEndDiffers` and
  `DiskRuns.WriteAtLimitIsLost` give inputs, and `DiskRuns.BufferedRefinesDirect` states that these are the only cases.
- `file_descriptor_table::get` inserts an entry for any number it is asked for. `FileDescriptors.GetSafeIffHarmless`
  states for which numbers a later insertion runs into a live descriptor, and `FileDescriptors.LookUpBreaksEmptyTable`
  gives one.
- `write_memory` and `read_memory` ignore failing requests and report success. `TraceeMemory.WriteExactIffMapped`
  states when they deserve it.

## Model

| member | source | states |
|---|---|---|
| Disk.DiskFile.Write | src/disk/disk.cpp:18-36 | the file after a write byte by byte: data, old bytes, zeros in a gap; -EINVAL and no change at or past the largest position; a zero-length write past the end extends the file |
| Disk.DiskFile.Read | src/disk/disk.cpp:38-57 | the caller's buffer starts with exactly the bytes available at the position and is otherwise untouched; -EINVAL at or past the end |
| Disk.OpenFile.FsyncUnlocked | src/disk/disk.cpp:133-143 | the loop applies the backlog in order and empties it; a direct handle does nothing |
| Disk.OpenFile.PWriteUnlocked | src/disk/disk.cpp:83-92 | written through, or queued with any position unchecked and the full length returned |
| Disk.OpenFile.PReadUnlocked | src/disk/disk.cpp:94-98 | flushes first, whatever the read then returns |
| Disk.OpenFile.WriteBytes | src/disk/disk.cpp:63-71 | writes at the position, directly or into the backlog, and advances it modulo 2^64 by what was written, or leaves it alone on an error |
| Disk.OpenFile.ReadBytes | src/disk/disk.cpp:73-81 | the buffer starts with the bytes at the position of the flushed file; the position advances by what was read, or stays on an error |
| Disk.OpenFile.PWriteBytes | src/disk/disk.cpp:100-103 | writes at the offset, directly or into the backlog; the position stays |
| Disk.OpenFile.PReadBytes | src/disk/disk.cpp:105-108 | the buffer starts with the bytes at the offset of the flushed file, or -EINVAL at or past its end; the position stays |
| Disk.OpenFile.LSeek | src/disk/disk.cpp:110-126 | SEEK_SET makes the position the offset, SEEK_CUR adds it to the position and SEEK_END to the size on disk, modulo 2^64; the position is returned as a signed word; -EINVAL and no change for any other |
| Disk.OpenFile.FsyncFile | src/disk/disk.cpp:128-131 | the public fsync |
| DiskRuns.LastWriterWins | src/disk/disk.cpp:18-36 | after any flush the size is the largest of the old size and the ends of valid requests, and each byte is that of the last valid request covering it, else the old byte, else zero |
| DiskRuns.WritesCommute | src/disk/disk.cpp:18-36 | two writes can be exchanged on every file if and only if they agree where they overlap |
| DiskRuns.FlushesCommute | src/disk/disk.cpp:133-143 | two handles on one file whose backlogs agree where they overlap, in particular disjoint ones, leave the same file flushed in either order or interleaved write by write |
| DiskRuns.StepPromised | src/disk/disk.cpp:61-143 | every operation on every handle: which bytes of the file the handle sees change, which are returned, and where the position goes, stated byte by byte and modulo 2^64 without the code of the handle |
| DiskRuns.EveryRunKeepsPromises | src/disk/disk.cpp:61-143 | and so does every operation of every run |
| DiskRuns.TellAfterRun | src/disk/disk.cpp:110-126 | after any run a SEEK_CUR by 0 returns the position and changes nothing |
| DiskRuns.SeeksAdd | src/disk/disk.cpp:110-126 | seeking by x and then by y from there is seeking by x + y |
| DiskRuns.StepRefines | src/disk/disk.cpp:63-143 | one operation returns the same from a buffered and a direct handle if and only if its guard holds, and then keeps them related |
| DiskRuns.BufferedRefinesDirect | src/disk/disk.cpp:63-143 | over any run the two handles return the same results and bytes if and only if every operation meets its guard; then one fsync makes the files equal |
| DiskRuns.SeekEndDiffers | src/disk/disk.cpp:119-121 | a failing input: on an empty file, one queued byte and then SEEK_END gives 0 buffered and 1 direct |
| DiskRuns.WriteAtLimitIsLost | src/disk/disk.cpp:83-92 | a failing input: a write at the largest position is refused by a direct handle, and accepted and then lost by a buffered one |
| DiskRuns.PrefixDurability | src/disk/disk.cpp:83-98 | in every state the disk holds the initial file with exactly the writes issued before the last read, pread or fsync applied in order, and the backlog is exactly the later writes in order |
| DiskRuns.DiskIsAnEarlierDirectFile | src/disk/disk.cpp:133-143 | so the file on disk is always one the direct handle went through: the one at the last sync |
| DiskRuns.ReadStep | src/disk/disk.cpp:73-81 | a read returns the bytes at the position and moves it past them; at or beyond the end, however far, it returns -EINVAL and leaves the position alone |
| DiskRuns.ChunkRoundTrip | src/disk/disk.cpp:38-126 | chunks written to an empty file and read back in pieces of any sizes give a prefix of their concatenation, with the position equal to the bytes read, buffered or direct |
| Faults.SampleIsOffset | src/random/rng.hpp:33-50 | for bounds in order, of any sign, the conversions to unsigned and back give the offset `v % (last - first)` from the first bound |
| Faults.SampleRange | src/random/rng.hpp:33-67 | every sample lies in the range if and only if the bounds are in order, and then every value of the range is reached |
| Faults.LatencyInRange | src/net/fault.hpp:16-20 | a latency lies between the two options, both included |
| Faults.LatencyIsOffset | src/net/fault.hpp:16-20 | a latency is the minimum plus the word modulo the width of the range |
| Faults.EveryLatencyDrawn | src/net/fault.hpp:16-20 | every latency of the range is that of some word |
| Faults.GenBoolIs | src/random/rng.hpp:69-80 | a word asks for a replay if and only if its value plus one is at most p times 2^64 |
| Faults.GenBoolAlways | src/random/rng.hpp:69-80 | unless p times 2^64 is within one of 2^64: then every word does |
| Faults.GenBoolMonotone | src/random/rng.hpp:69-80 | a word that asks for a replay at some probability does so at any larger one |
| Faults.ReplayCount | src/net/fault.hpp:28-36 | counts the words drawn before the first that asks for no replay, and draws exactly one more; with a probability of 0 it returns 0 |
| Faults.DroppedIffDrawn | src/net/datagram_socket.cpp:13-14 | a send is dropped if and only if the drop draw says so, and then draws nothing else |
| Faults.SendReadsItsWords | src/net/datagram_socket.cpp:16-33 | of the words after the drop draw the first gives the latency, those up to the first that asks for no replay the number of replays, and as many more their latencies |
| Faults.DecisionsFeasible | src/net/datagram_socket.cpp:13-33 | every decision a generator can take keeps to the options |
| DatagramPipe.Pipe.Send | src/net/datagram_socket.cpp:10-44 | queues exactly the original and its replays of the generator's next decision; if the drop draw says so the queue is unchanged, else it grows by one packet and as many as the replay loop counted |
| DatagramPipe.Pipe.DrawReplays | src/net/datagram_socket.cpp:26-33 | each replay is the packet again, at twice a latency of its own |
| DatagramPipe.Pipe.Push | src/net/datagram_socket.cpp:35-42 | the critical section adds the original and all replays and removes nothing |
| DatagramPipe.Pipe.LookOnce | src/net/datagram_socket.cpp:46-66 | one pass of the receive loop: nothing queued, the first packet not due, or the removal of one packet that is due and arrives no later than any other |
| DatagramPipe.LeastExists | src/net/datagram_socket.hpp:40-43 | a non-empty queue has a packet that no other precedes in the flipped order |
| DatagramPipe.Truncated | src/net/datagram_socket.cpp:97-112 | the caller gets the first bytes of the datagram, as many as it asked for |
| DatagramPipe.BatchShape | src/net/datagram_socket.cpp:18-33 | one original at its latency and as many copies as replays, of equal payload, each at twice its own latency, all within their ranges; a dropped send queues nothing |
| PipeProtocol.NoWakeupIsLost | src/net/datagram_socket.cpp:35-66 | in every interleaving of sends, notifications, timeouts and spurious wakeups, a sleeping receiver without a deadline faces an empty queue, and one with a deadline has the first arrival as its deadline |
| PipeProtocol.DuePacketIsTaken | src/net/datagram_socket.cpp:46-66 | with a due packet queued a sleeping receiver's deadline has passed, and when it runs it takes a due packet of least arrival |
| PipeProtocol.LookIsPossible | src/net/datagram_socket.cpp:46-66 | a woken receiver that gets the lock always has a next step |
| PipeOrdering.PacketsAreConserved | src/net/datagram_socket.cpp:10-67 | over any run the packets queued and received are together exactly those pushed, the sends recorded are the calls made, and each pushed the bytes it was given at exactly the latencies of its decision, all within the options |
| PipeOrdering.NothingIsEarly | src/net/datagram_socket.cpp:46-66 | in every reachable state the clock has reached the arrival of each packet received, which is the reading of its send plus the latency decided, or twice the one drawn for a copy |
| PipeOrdering.BoundedReordering | src/net/datagram_socket.cpp:10-67 | a received original comes after every surviving original sent more than max - min before it |
| PipeOrdering.OvertakingIsPossible | src/net/datagram_socket.cpp:10-67 | the bound is tight: at any smaller or equal distance some run receives the later send first |
| PipeOrdering.BoundedStaleness | src/net/datagram_socket.cpp:10-67 | once any packet of a send has been received, no packet of a send more than 2 max - min older is received again |
| PipeOrdering.StalenessIsPossible | src/net/datagram_socket.cpp:10-67 | the bound is tight: at any smaller or equal distance some run receives the later send and then a copy of the earlier one |
| PipeOrdering.QuietRunDrainsInOrder | src/net/datagram_socket.cpp:46-67 | over any run without a push, packets leave in order of arrival and before all that stay |
| PipeOrdering.QueueCanBeDrained | src/net/datagram_socket.cpp:46-67 | from every state in which nobody is about to notify, some steps empty the queue, and receive exactly the queued packets in order of arrival |
| PipeOrdering.FirstInFirstOut | src/net/datagram_socket.cpp:10-67 | without replays, and with sends further apart than latencies vary, what was received is a prefix of what was sent and not dropped |
| FaultDeterminism.Simulator.constructor | src/sim/simulator.hpp:22-25 | the simulator's generator starts with the first four words of split_mix at the configured seed |
| FaultDeterminism.Simulator.NewSocket | src/net/datagram_socket.cpp:114-118 | a socket's pipe starts empty, with the next four words of the simulator's generator, whatever the fault options |
| FaultDeterminism.SocketTakesItsWords | src/net/datagram_socket.cpp:114-118 | the k-th socket created takes words 4k to 4k + 3 of the simulator's stream |
| FaultDeterminism.SocketSeedInjective | src/net/datagram_socket.cpp:114-118 | simulators in different states give every socket a different seed |
| FaultDeterminism.SocketSeedZero | src/net/datagram_socket.cpp:114-118 | a socket's generator starts all-zero if and only if the simulator's did |
| FaultDeterminism.SendsFollowDecisions | src/net/datagram_socket.cpp:13-33 | the decisions of a run are a function of the first generator state alone, each send queues what its decision says, and the k-th queues nothing if and only if the drop draw of the state after k sends says so |
| SimulatorRuns.OneSocketAlone | src/net/datagram_socket.cpp:69-118 | in any simulation the sends to the k-th socket, and what they queue, are those of a run of its pipe alone from the k-th seed, however creations and other sockets interleave |
| SimulatorRuns.SimulatorIsDeterministic | src/sim/simulator.hpp:22-25 | in any two simulations with one seed and equal options the n-th sends to the k-th sockets are dropped, delayed and replayed alike |
| FaultDeterminism.FaultsAreDeterministic | src/net/datagram_socket.cpp:13-33 | two pipes with equal options and generator states drop, delay and replay their k-th sends alike, whatever the clocks, payloads and receives in between |
| Barrier.Barrier.Arrive | src/sim/runner/ptrace.cpp:49-62 | an arrival is the last if and only if it completes a round of `count`; any other waits out the number of rounds completed; the entry assertion holds |
| Barrier.Barrier.Retest | src/sim/runner/ptrace.cpp:62-66 | a woken thread leaves if and only if `count` threads have arrived in the epoch it waited out and in each before it |
| BarrierRuns.AnyRun | src/sim/runner/ptrace.cpp:45-75 | the invariant of the barrier holds after every run, with any number of threads |
| BarrierRuns.ArrivalsAreCounted | src/sim/runner/ptrace.cpp:49-66 | in every reachable state arrivals equal epoch * count + (count - current), the entry assertion holds, and no thread sleeps on a past epoch |
| BarrierRuns.NobodyLeavesEarly | src/sim/runner/ptrace.cpp:62-66 | a thread leaves an epoch only after `count` arrivals in each epoch up to it |
| BarrierRuns.Lockstep | src/sim/runner/ptrace.cpp:49-67 | with exactly `count` threads looping, the waits any two have completed differ by at most one |
| BarrierRuns.RoundsGoOn | src/sim/runner/ptrace.cpp:49-67 | with at least `count` threads some steps lead from every reachable state to the next epoch |
| BarrierRuns.WaiterCanReturn | src/sim/runner/ptrace.cpp:49-67 | and every thread in `wait` in a reachable state, asleep or not, can complete it |
| BarrierRuns.DeadlockIffTooFew | src/sim/runner/ptrace.cpp:49-67 | all threads can end up asleep un-notified if and only if there are fewer than `count` |
| TraceeMemory.Tracee.WriteMemory | src/sim/runner/ptrace.cpp:242-257 | the memory after the word transfers, failing ones ignored, and success reported either way; with all words touched mapped the bytes of the range become the data and every other byte stays, those in the last partial word included |
| TraceeMemory.WriteExactIffMapped | src/sim/runner/ptrace.cpp:242-257 | the range receives the data and nothing else changes, for all data and however failing requests behave, if and only if every word touched is mapped |
| TraceeMemory.WrittenAccounted | src/sim/runner/ptrace.cpp:242-257 | whatever fails, each byte keeps its value, or is in the range and becomes its data, or lies beyond the range in an unmapped last word and becomes 0xff |
| TraceeMemory.PartlyMappedWordOverruns | src/sim/runner/ptrace.cpp:251-255 | the last case occurs wherever five bytes are left before the end of what is mapped: three bytes written there overwrite the two after them |
| TraceeMemory.Tracee.ReadMemory | src/sim/runner/ptrace.cpp:259-270 | each byte of the buffer is that of the memory if its word is mapped and 0xff if not, and success is reported either way |
| TraceeMemory.WriteThenRead | src/sim/runner/ptrace.cpp:242-270 | a read of a range just written gives the data in every word that is mapped and 0xff in the others |
| Interpose.ReplaceSyscallWithResult | src/sim/runner/ptrace.cpp:116-132 | the stop the tracee is left at, the gettid it executes with the arguments of the call, and its registers: both hold the result, the others are unchanged |
| Interpose.HandleTrapped | src/sim/runner/ptrace.cpp:134-160 | acts at entry stops only: no hook, pass through, or replace |
| Interpose.Worker | src/sim/runner/ptrace.cpp:335-365 | the loop after any number of rounds |
| InterposeRuns.InterpositionStaysInStep | src/sim/runner/ptrace.cpp:116-160 | the hooks, the kernel and the tracee stay in step over any number of rounds, for any tracee, hook table and kernel in which `gettid` does not stop halfway; the tracee may be killed at any time, in a substituted call too |
| InterposeRuns.EveryRun | src/sim/runner/ptrace.cpp:335-365 | each hooked call's hook runs exactly once and no other does; a handled call reaches the kernel only as gettid and returns the hook's result; any other call runs unchanged and returns the kernel's answer |
| InterposeIdeal.RoundIsIdeal | src/sim/runner/ptrace.cpp:116-160 | one round of the worker is one round of a machine without registers, stops or substituted calls, unless the tracee is killed in a substituted one |
| InterposeIdeal.InterpositionIsIdeal | src/sim/runner/ptrace.cpp:335-365 | if a gettid that returns changes nothing, then over any number of rounds the world and every result the tracee sees are those of a machine on which hooks answer calls directly, or the tracee was killed in a substituted call and had seen the first of those results |
| InterposeIdeal.AlwaysIdeal | src/sim/runner/ptrace.cpp:335-365 | and if nothing kills it there the two never differ |
| InterposeRuns.DeliveredWithinTwoRounds | src/sim/runner/ptrace.cpp:335-365 | if the kernel does not stop within a call, every call at its entry or exit, handled or not, has its result delivered within two rounds, or the tracee is gone |
| Xoshiro.Generator.Next | src/random/xoshiro.hpp:41-56 | the in-place updates compute one step and the word of the state before it |
| Xoshiro.Generator.FillBytes | src/random/xoshiro.hpp:58-67 | any buffer receives the first bytes of the concatenated words drawn, and exactly n / 8 + 1 words are drawn |
| Xoshiro.Generator.SeedFrom | src/random/xoshiro.hpp:76-85 | the four words of the new state are the next four of the source |
| Xoshiro.Generator.SeedFromSplitMix | src/random/xoshiro.hpp:76-85 | the same with split_mix as the source |
| Xoshiro.Generator.FromBytes | src/random/xoshiro.hpp:24-26 | the state is the 32 seed bytes read as four words |
| Xoshiro.SeedFromRng | src/random/rng.hpp:15-20 | seeding through 32 bytes gives the state seeding by words gives, and leaves the source one word further |
| Xoshiro.BackStep | src/random/xoshiro.hpp:43-53 | the explicit inverse undoes a step |
| Xoshiro.StepBack | src/random/xoshiro.hpp:43-53 | and every state is reached by a step |
| Xoshiro.ScrambleBijective | src/random/xoshiro.hpp:42 | the output is a bijection of `state_[1]`, with its inverse |
| Xoshiro.StepNXor | src/random/xoshiro.hpp:41-56 | any number of steps is linear over xor |
| Xoshiro.StepNInjective | src/random/xoshiro.hpp:41-56 | distinct states stay distinct for ever |
| Xoshiro.NeverZero | src/random/xoshiro.hpp:41-56 | a run reaches the all-zero state if and only if it starts there |
| Xoshiro.RecoverDraws | src/random/xoshiro.hpp:41-56 | four consecutive words determine the state they were drawn from |
| Xoshiro.DrawsRecover | src/random/xoshiro.hpp:41-56 | any four words are drawn consecutively from exactly the state recovered |
| Xoshiro.KnownWords | src/random/xoshiro.hpp:41-56 | the first four words of the state 1, 2, 3, 4 |
| ByteBlocks.UnblockBlocks | src/random/xoshiro.hpp:58-67 | each group of eight bytes written reads back as its word |
| ByteBlocks.LittleEndian | src/random/xoshiro.hpp:24-26 | a word is the sum of its bytes times powers of 256, the first byte least |
| ByteBlocks.FillingAt | src/random/xoshiro.hpp:58-67 | byte k of a filled buffer is byte k mod 8 of word k / 8 of the n / 8 + 1 drawn |
| SplitMix.MixBijective | src/random/splitmix.hpp:38-42 | the 64-bit value computed by mix64 is a bijection of the seed, with its inverse |
| SplitMix.NarrowedMixCollides | src/random/splitmix.hpp:38-42 | the narrowed value is not: two seeds give the same word |
| SplitMix.WordsBelow2To32 | src/random/splitmix.hpp:13 | every word drawn is below 2^32 |
| SplitMix.NarrowKeepsLow | src/random/splitmix.hpp:38-42 | the narrowed word is below 2^32 and agrees with the mixed value modulo 2^32 |
| SplitMix.EveryWordDrawn | src/random/splitmix.hpp:13 | every word below 2^32 is the first one drawn from some seed |
| SplitMix.SameWord | src/random/splitmix.hpp:13 | two seeds draw the same word if and only if their mixed values agree modulo 2^32 |
| SplitMix.KnownWords | src/random/splitmix.hpp:10-42 | the first four words at seed 42 with the default gamma |
| SplitMix.FullPeriod | src/random/splitmix.hpp:30 | with an odd gamma two seeds of a run agree if and only if a multiple of 2^64 calls lies between them |
| SplitMix.DistinctSeeds | src/random/splitmix.hpp:30 | the 2^64 seeds of a round are pairwise distinct if and only if gamma is odd |
| SplitMix.DefaultSeedsDistinct | src/random/splitmix.hpp:10-30 | so they are for the default gamma, which the simulator uses |
| SplitMix.DistinctMixes | src/random/splitmix.hpp:13 | and so are the values mixed from them, before narrowing |
| SplitMix.Source.Next | src/random/splitmix.hpp:13 | advances the seed by one gamma and returns the word below 2^32 that agrees with its 64-bit mix modulo 2^32 |
| SplitMix.Source.FillBytes | src/random/splitmix.hpp:15-24 | any buffer receives the first bytes of the concatenated words drawn, and exactly n / 8 + 1 words are drawn |
| FileDescriptors.FileDescriptorTable.GetDescriptor | src/sim/file_descriptor.cpp:12-15 | returns the entry, inserting a null one if there was none |
| FileDescriptors.FileDescriptorTable.CloseDescriptor | src/sim/file_descriptor.cpp:17-30 | removes a live descriptor and frees its number, or refuses |
| FileDescriptors.FileDescriptorTable.InsertDescriptor | src/sim/file_descriptor.cpp:32-59 | reuses the last freed number, else numbers by the table's size, else fails; a failing assertion is its own outcome |
| FileDescriptors.LiveCount | src/sim/file_descriptor.cpp:32-59 | live and freed descriptors together are exactly those handed out |
| FileDescriptors.InsertKept | src/sim/file_descriptor.cpp:32-59 | insertion keeps the partition, never returns a live descriptor, and fails exactly when `capacity` are live |
| FileDescriptors.ClosePartition | src/sim/file_descriptor.cpp:17-30 | closing keeps the partition; the descriptor is no longer live, or was not and the call is refused |
| FileDescriptors.ClosedIsReused | src/sim/file_descriptor.cpp:17-59 | an insertion right after a close takes the descriptor closed, and leaves all else as before the close |
| FileDescriptors.AllocatorKeepsPromises | src/sim/file_descriptor.cpp:12-59 | over every run whose look-ups ask only for descriptors handed out, get returns the object inserted until close, and no assertion fails |
| FileDescriptors.RunKeepsPartition | src/sim/file_descriptor.cpp:12-59 | after every such run the descriptors handed out are partitioned into live and free ones, with no duplicates in the free list |
| FileDescriptors.FromEmpty | src/sim/file_descriptor.cpp:12-59 | both hold of every run on a new table |
| FileDescriptors.HarmlessRun | src/sim/file_descriptor.cpp:12-59 | over every run of harmless look-ups of any numbers no assertion fails, and the table stays sound |
| FileDescriptors.GetSafeIffHarmless | src/sim/file_descriptor.cpp:40-56 | after a look-up no number of insertions hits a live descriptor if and only if the number asked for is not a fresh one ahead of the next |
| FileDescriptors.LookUpAfterRun | src/sim/file_descriptor.cpp:12-59 | after any run on a new table that handed out n descriptors, a look-up of fd leaves all later insertions safe if and only if fd is not one of the fresh descriptors beyond the next |
| FileDescriptors.LookUpBreaksEmptyTable | src/sim/file_descriptor.cpp:12-15 | a failing input: on an empty table one look-up of the descriptor after the next fresh one makes the second insertion fail its assertion |
| ScaledClock.ClockGettime | src/hook/impls.cpp:402-421 | tv_nsec lies in [0, 10^9) and the two fields make the floor of the scaled time |
| ScaledClock.ReadingsMonotone | src/hook/impls.cpp:402-421 | successive readings never go back |
| ScaledClock.ReadingFixedPoints | src/hook/impls.cpp:402-421 | a reading at the epoch is the epoch at any scale, and at scale 1 a reading is the time |
| ScaledClock.ReadingsAtRate | src/hook/impls.cpp:402-421 | two readings differ by the elapsed time over the scale, to within one nanosecond |
| ScaledClock.SleepIsVisible | src/hook/impls.cpp:379-400 | readings either side of a clock_nanosleep differ by at least the time requested, at any scale |
| ScaledClock.SleepIsExact | src/hook/impls.cpp:379-421 | and by exactly the time requested if the clock advances by exactly what is slept for |

## Left out

- Process spawning, `/proc/<pid>/mem`, waitpid decoding, `remove_vdso` and `wait_until_execve`: foreign calls and the
  kernel's stack layout.
- Socket-creation hooks, `parse_addr`, `stream_socket`, `network`, `sys/file.cpp`, configuration, logging, metrics and
  the hook table itself: plumbing.
- Sender addresses: `send_to` always delivers a default one.
- Fragment callbacks of `src/hook/impls.cpp`: `read_memory` and `write_memory` return 0, so they never advance; nothing
  is claimed about transfers in several fragments.
- Disk.DiskFile.Write: allocation failure and the vector's own maximum size are not modelled, so no write throws.
- Disk.OpenFile.LSeek: it reads the file size without the file's mutex; the model reads it in one step.
- TraceeMemory.Tracee.WriteMemory: addresses do not wrap, and a failing POKE transfers some first bytes of its word,
  any number of them, to mapped addresses.
- DatagramPipe.Pipe.Send: arrival times are unbounded integers; the overflow of `latency * 2` and of `now + latency`
  beyond 2^63 nanoseconds is not modelled. A maximum latency of 2^63 - 1 and a probability of replay of 1 are
  excluded, since the code's own arithmetic on them overflows.
- PipeProtocol.DuePacketIsTaken: one receiver only; one `notify_one` for several packets does not support more.
- BarrierRuns.Lockstep: epochs are unbounded integers, not 64-bit ones.
- InterposeRuns.EveryRun: `gettid` is taken not to stop the tracee halfway, and the restarting of interrupted calls by
  the kernel is not modelled.
- SimulatorRuns.OneSocketAlone: sockets are created one at a time; nothing in the code keeps two threads from drawing
  from the simulator's generator at once.
- ScaledClock.SleepIsVisible: doubles are exact reals, and `sleep_for` blocks for at least the duration it is given.
- FileDescriptors.FileDescriptorTable.InsertDescriptor: the object inserted is never null, as in every call of the
  repository.
