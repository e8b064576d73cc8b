# safe-shm: protocols over shared memory, modelled and proved

safe-shm lets processes share one value or a ring of values through shared memory: seqlocks,
a futex lock, a double buffer filled by a background thread, and a key search over a ring that a
writer keeps filling. This project models those protocols at the granularity of single atomic
accesses, copied bytes and system calls, and proves what their users rely on in every interleaving.

## How the model is built

- **Cyclic buffer** (`RingProtocol`, `RingSafety`, `RingWait`, `RingWitness`). A transition system: one writer
  inside `insert`, callers of `wait_for_write`, and the kernel's wait queue. Slot counters wrap at
  2^32 and the count at 2^64. The sequence `started` records every argument of `insert`. Readers write
  nothing, so a reader's loads are samples of the run; an accepted attempt is two counter samples
  and one sample per byte, in any order in between. `RingWait` tells runs by their actions: what was passed
  to `insert`, and what each caller of `wait_for_write` asked and was told.
- **The reader as code** (`RingReader`). A class whose methods follow the C++ line by line and call
  `Interfere`, any number of steps of everybody else, before each of their own atomic accesses. Ghost
  results record which insert a read returned and how many attempts it made. The bound on inserts
  during one read (fewer than 2^31 into its slot) is never assumed of a method: results are stated
  under it.
- **The region as bytes** (`Region`, `RingRegion`). The layout arithmetic with its masks, and a
  class over a byte array whose every store is one step of the transition system, so that the
  two models cannot drift apart.
- **Temporal search** (`SearchSpec`, `SearchAnswer`, `InterpolationSpec`, `PairAnswer`, `TimeSeries`,
  `SearchRuns`, `SearchWitness`). The methods of `TimeSeries` follow the loops of `time_series.hpp` over the concurrent
  reader. Each returns the log of its `try_get` calls, and is proved equal to a walk over that log: the
  next index to read, and what each answer leads to. `SearchAnswer` and `PairAnswer` say of the log alone,
  without that walk, which result a query returns. The theorems are about every log that the reader
  can give, under any inserts; their conditions are on the run, such as how many inserts began meanwhile.
  `SearchRuns` says when a log happens in a run of the ring and shows that such logs are among those;
  `SearchWitness` builds the runs in which a search disappoints.
- **Seqlock, lock, runner, double buffer, producer/consumer** (`Seqlock`, `SeqlockSafety`, `SeqlockCalls`,
  `ShmLock`, `SwapRunner`, `DoubleBuffer`, `DoubleBufferLock`, `Swapper`, `ProducerConsumer`). Transition
  systems for any number of threads (one writer for the seqlock, one client for the double buffer),
  inductive invariants, and theorems over all runs; what a call returns is told by the actions of the run,
  such as the arguments of `store`, not by records the model keeps. `DoubleBuffer` sees the lock as a holder;
  `DoubleBufferLock` puts the futex lock in its place and shows that nothing is lost. Its runs are runs of
  `SwapRunner` (`RunnerWithin`). `Swapper` is the code of the swap and of the task over the bytes of
  the two buffers, each store one step of `DoubleBuffer`, with everybody else interfering.

## Where the code falls short of a plain reading

Each of these is proved, with the exact condition where there is one.

- A seqlock load is described as guaranteed consistent (`include/safe-shm/seqlock.hpp:86-97`). It is,
  while fewer than 2^31 stores fall between its two counter loads; with exactly 2^31 it can be torn
  (`SeqlockSafety.WindowIsTight`). The same holds of the cyclic buffer, slot by slot
  (`RingWitness.WindowIsTight`).
- `get_latest` twice in a row can go back by one insert, in every capacity above one
  (`RingWitness.LatestCanGoBack`), never by more, and never with one slot.
- `wait_for_write` compares 32 bits of a 64-bit count; `RingSafety.StaleSleepExactly` says when it
  sleeps on a stale count, and `RingWitness.SleepsThroughInserts` is a run in which it does.
- `find_closest` documents a distance limit (`include/safe-shm/time_series.hpp:47-50`), but the
  scan it starts when the read of the final `lo` fails is not given the limit (line 88).
  `SearchSpec.LimitExactly` says when the limit is kept; `SearchWitness.LimitDropped` builds, for every
  capacity and limit, a run that returns an element beyond it.
- A search under m inserts ends in [f - 1 - m, f + m], f being the first insert above the target,
  exactly unless it hits the target's key and the same key follows 1 + m inserts later
  (`SearchSpec.TieExactly`); `SearchWitness.TieEscapes` is such a run, with nothing inserted at all.
- `find_interpolation_pair` reads its two elements again after the search and does not compare them
  with the target. While no read is lapped, a pair is sure to bracket the target if and only if no insert
  is published during the query (`SearchWitness.BracketsExactly`; `PairLeaves` is the failing run for every
  number of inserts from one on). How far the pair can be is `InterpolationSpec.PairDrift`, and which such
  pairs bracket, and have a factor in [0, 1), is `InterpolationSpec.PairExactly`.
- `SwapRunner::wait` can return before its own caller's trigger has been served. It never does, in any
  run, if and only if there is one client and it waits after every trigger
  (`SwapRunner.NeverEarlyExactly`).
- A `load` over a stage not yet consumed can make the worker swap a null stage; a `load` is safe
  exactly when the stage is empty (`DoubleBuffer.LoadIsSafeExactly`).
- The per-slot stride keeps every counter aligned exactly when `sizeof(T)` is a multiple of 4 or there
  is one slot (`Region.CountersAlignedExactly`).
- A consumer callback that throws stops a `ProducerConsumer` for good
  (`ProducerConsumer.ThrowIsFinal`; `ThrowHappens` is a run that gets there).

## Model

| member | source | states |
|---|---|---|
| RingProtocol.StepInv | include/safe-shm/cyclic_buffer.hpp:77-96 | Every atomic step of `insert`, of `wait_for_write` and of the kernel keeps the ring's invariant: wrapped counters, a slot's bytes mixed from exactly two inserts while it is copied, the writer's locals in agreement with memory |
| RingSafety.SlotCounters | include/safe-shm/cyclic_buffer.hpp:77-96 | In every reachable state slot i's counter is 2*floor((W+N-1-i)/N) mod 2^32, except that the slot of the next insert is ahead by 0, 1 or 2 according to where the writer is |
| RingSafety.RunLater | include/safe-shm/cyclic_buffer.hpp:77-96 | Between any two moments of a run counts, versions and history only grow, and an even version that did not change has kept its content |
| RingSafety.EqualCounters | include/safe-shm/cyclic_buffer.hpp:254-262 | Equal even 32-bit counters with fewer than 2^31 inserts into the slot in between mean an unchanged unbounded version |
| RingSafety.EvenSlotContent | include/safe-shm/cyclic_buffer.hpp:77-90 | An even slot holds, whole, the argument of its most recent insert, which is congruent to its index modulo N |
| RingSafety.NoTornRead | include/safe-shm/cyclic_buffer.hpp:229-265 | An accepted attempt, its bytes copied in any order during any run, returns exactly the argument of one insert congruent to the slot modulo N (or zeros if the slot was never written) |
| RingWait.HistoryIsBegun | include/safe-shm/cyclic_buffer.hpp:77-96 | The history is what was passed to the calls of `insert`, in order, and its published part what has been published |
| RingWait.ReadIsArgument | include/safe-shm/cyclic_buffer.hpp:229-265 | So an accepted attempt on a written slot returns exactly what was passed to one call of `insert` |
| RingWitness.WindowIsTight | include/safe-shm/cyclic_buffer.hpp:229-265 | In every capacity and on every slot, an attempt spanning exactly 2^31 inserts into the slot can be accepted with a value no insert had |
| RingSafety.RequestedSlot | include/safe-shm/cyclic_buffer.hpp:175-184 | The slot chosen from a loaded count holds the requested insert or a newer one, now and ever after |
| RingSafety.GetReturnsRequestedOrNewer | include/safe-shm/cyclic_buffer.hpp:175-184 | A `try_get(r)` that loaded W returns insert W-1-r+kN for some k >= 0, and none newer than the count at the second counter load |
| RingSafety.NearMonotoneLatest | include/safe-shm/cyclic_buffer.hpp:156-162 | Successive `get_latest` calls go back by at most one insert, and not at all if the first was not lapped; when they do, the first returned the insert that was still unpublished when the second loaded the count |
| RingWitness.LatestCanGoBack | include/safe-shm/cyclic_buffer.hpp:90-93 | The step back is real: in every capacity above one it can follow any run with an idle writer and something published |
| RingWitness.SingleSlotNeverGoesBack | include/safe-shm/cyclic_buffer.hpp:156-162 | With one slot `get_latest` never goes back |
| RingSafety.NeverSleepsThroughWrite | include/safe-shm/cyclic_buffer.hpp:200-224 | A sleeping waiter has seen every published insert, or the writer still owes its wake-up, if fewer than 2^32 inserts fall between its load and the kernel's compare |
| RingSafety.StaleSleepExactly | include/safe-shm/cyclic_buffer.hpp:213-222 | Without that bound a waiter is put to sleep on a stale count exactly when a positive multiple of 2^32 inserts was published in between |
| RingWait.WaitReturnsNewCount | include/safe-shm/cyclic_buffer.hpp:213-223 | In every run, what `wait_for_write` returns is a count other than its argument, and was the count at some moment of that call |
| RingWait.WaitStep | include/safe-shm/cyclic_buffer.hpp:213-223 | A call ends exactly when a load finds another count, with that count, or by a timeout taken from sleep; the kernel puts it to sleep exactly if the low halves agree; a woken caller loads again |
| RingWitness.SleepsThroughInserts | include/safe-shm/cyclic_buffer.hpp:213-222 | For every capacity, a run in which a waiter loads the count 0, 2^32 inserts are published, and it is then put to sleep with no wake-up to come |
| RingSafety.RoomLeft | include/safe-shm/cyclic_buffer.hpp:175-184 | Until the insert that overwrites the requested one begins, its slot holds it, even and unmoved |
| RingReader.CyclicBufferReader.Attempt | include/safe-shm/cyclic_buffer.hpp:252-263 | One attempt succeeds exactly if the first counter is even and the second equals it; then the bytes are the slot's content at the first, unless 2^31 inserts hit the slot in between |
| RingReader.CyclicBufferReader.TryReadSlot | include/safe-shm/cyclic_buffer.hpp:247-265 | Attempts one after another: it stops at the first that succeeds, and fails only after max_retries+1 that each found the counter odd or changed |
| RingReader.CyclicBufferReader.TryGet | include/safe-shm/cyclic_buffer.hpp:175-184 | Under any interference: out of range, nothing; otherwise nothing or one insert, the requested one or newer, torn only if 2^31 inserts began meanwhile; and the requested one for certain unless the insert that overwrites it has begun |
| RingReader.CyclicBufferReader.Available | include/safe-shm/cyclic_buffer.hpp:187-191 | `min(total_writes, N)` at the moment of the load |
| Bits.SlotIndex | include/safe-shm/cyclic_buffer.hpp:182-182 | `(writes - 1 - r) & (N - 1)` in wrapping 64-bit arithmetic is the residue of the unbounded difference modulo N |
| Region.AlignUpIsCeiling | include/safe-shm/cyclic_buffer.hpp:39-40 | The mask expression rounds up to the least multiple of the alignment |
| Region.SlotsApart | include/safe-shm/cyclic_buffer.hpp:35-59 | Count, counters and payloads of different slots do not overlap and fit the region |
| Region.PayloadAligned | include/safe-shm/cyclic_buffer.hpp:35-59 | Every payload is aligned for T |
| Region.CountersAlignedExactly | include/safe-shm/cyclic_buffer.hpp:35-59 | All slot counters are 4-byte aligned exactly when sizeof(T) is a multiple of 4 or N = 1 |
| Region.FutexWordIsLowHalf | include/safe-shm/cyclic_buffer.hpp:115-119 | The region's first four little-endian bytes are the count modulo 2^32 |
| RingRegion.StoreCounter | include/safe-shm/cyclic_buffer.hpp:81-90 | Writing a counter's four bytes changes that counter in the decoded ring and nothing else |
| RingRegion.StoreByte | include/safe-shm/cyclic_buffer.hpp:87-87 | Writing a payload byte changes that byte of that slot and nothing else |
| RingSafety.IdleSlot | include/safe-shm/cyclic_buffer.hpp:335-340 | With nothing in flight the slot of every readable reverse index is even and holds that insert |
| RingRegion.CyclicBuffer.constructor | include/safe-shm/cyclic_buffer.hpp:306-309 | A zeroed region is the empty buffer |
| RingRegion.CyclicBuffer.Insert | include/safe-shm/cyclic_buffer.hpp:311-325 | Appends its argument to the history, by byte stores each of which is one protocol step |
| RingRegion.CyclicBuffer.Available | include/safe-shm/cyclic_buffer.hpp:353-357 | min of the history's length and N |
| RingRegion.CyclicBuffer.GetLatest | include/safe-shm/cyclic_buffer.hpp:327-333 | The last insert, or zeros if there is none |
| RingRegion.CyclicBuffer.GetAt | include/safe-shm/cyclic_buffer.hpp:335-340 | `get(r)` is insert number (length - 1 - r) for every readable r |
| RingRegion.CyclicBuffer.TryGet | include/safe-shm/cyclic_buffer.hpp:342-351 | Succeeds exactly for r below min(length, N), with that insert |
| RingRegion.CyclicBuffer.TryReadSlot | include/safe-shm/cyclic_buffer.hpp:385-403 | With nobody writing, reads exactly the even slots |
| SearchSpec.WalkInBounds | include/safe-shm/time_series.hpp:59-116 | Every reverse index a query reads is in range, and no bound falls below zero |
| SearchSpec.ProbeStep | include/safe-shm/time_series.hpp:66-84 | What a probe's key rules out, although reverse indices shift while the search runs |
| SearchSpec.NeighboursSuffice | include/safe-shm/time_series.hpp:86-116 | On a sorted window that stood still, the best of `lo` and its neighbours is at minimum distance over the whole window |
| SearchSpec.ErrorBound | include/safe-shm/time_series.hpp:64-116 | If m inserts land meanwhile, what is read at the final `lo`, or a neighbour strictly nearer, lies in [f-1-m, f+m], f being the first insert of the window or later above the target |
| SearchSpec.TieExactly | include/safe-shm/time_series.hpp:82-83 | An exact hit lies in that interval if and only if the insert 1 + m later does not carry the target's key |
| SearchSpec.FewTies | include/safe-shm/time_series.hpp:82-83 | So every answer does if at most 1 + m inserts carry the target's key |
| SearchSpec.QueryCost | include/safe-shm/time_series.hpp:51-127 | log2(avail)+3 reads without fallback and log2(avail)+1+avail with it, each of at most 5 attempts, whatever the writer does |
| SearchSpec.QueryFindsNearest | include/safe-shm/time_series.hpp:86-116 | What is found was read, and none of the final `lo` and its neighbours, or of all the reverse indices of a scan, that could be read was nearer |
| SearchAnswer.QueryAnswered | include/safe-shm/time_series.hpp:51-127 | What `find_closest` returns, for every log and said of the reads alone: after a failed probe of the loop, the first of the nearest elements a scan of all indices read, within the limit and nearer than the key maximum, or nothing exactly if none is; after a failed read of the final `lo`, the same without the limit; an exact hit; or the first of the nearest of the final `lo` and its neighbours, if within the limit |
| SearchAnswer.AnswerUnique | include/safe-shm/time_series.hpp:51-127 | So the log decides the result |
| SearchSpec.QueryGenuine | include/safe-shm/time_series.hpp:51-127 | While fewer than 2^31 inserts begin, what is found is one insert's argument, none older than the starting window |
| SearchSpec.QueryBounded | include/safe-shm/time_series.hpp:51-127 | If no read is lapped, no scan is made and the error is bounded, with the tie as the one exact exception |
| SearchSpec.RoomIsUnlapped | include/safe-shm/time_series.hpp:51-127 | No read of a query is lapped while none of the reverse indices it goes down to is overwritten |
| SearchSpec.RecentTarget | include/safe-shm/time_series.hpp:62-84 | A search for a target in the newer half of the window stays there, and stands about half a lap of inserts |
| SearchSpec.QueryOptimal | include/safe-shm/time_series.hpp:51-127 | On a sorted window, with nothing published meanwhile and no read lapped, the answer is closest of all, and there is none exactly when the window is empty or lies beyond the limit |
| SearchSpec.LimitExactly | include/safe-shm/time_series.hpp:86-88 | The limit is broken if and only if the read of the final `lo` failed and the scan after it met only elements beyond the limit |
| SearchSpec.ClosestFormsAgree | include/safe-shm/time_series.hpp:248-273 | At rest `find_closest` and a scan find the same distance; the scan is empty-handed exactly when that distance is the key maximum or more |
| SearchRuns.LogOfRun | include/safe-shm/cyclic_buffer.hpp:175-265 | The log of any reads whose atomic accesses happen in a run of the ring is one the theorems speak of |
| SearchRuns.ClosestOfRun | include/safe-shm/time_series.hpp:51-127 | So the theorems hold of every `find_closest` of every run |
| SearchRuns.PairOfRun | include/safe-shm/time_series.hpp:131-191 | And of every `find_interpolation_pair` |
| SearchWitness.LimitDropped | include/safe-shm/time_series.hpp:86-88 | For every capacity, limit and element beyond it within the key maximum, a run in which `find_closest` returns that element |
| SearchWitness.TieEscapes | include/safe-shm/time_series.hpp:82-83 | In every capacity from four on, a run at rest in which an exact hit lies outside the interval |
| SearchWitness.PairLeaves | include/safe-shm/time_series.hpp:176-188 | In every capacity above one, for every number of inserts from one on, a run in which they move both elements of the pair above the target and the factor out of [0, 1) |
| SearchWitness.BracketsExactly | include/safe-shm/time_series.hpp:176-188 | Over all runs, capacities and windows with growing keys: a pair of an unlapped query is sure to bracket the target and interpolate if and only if no insert is published during the query |
| TimeSeries.TimeSeries.Bisect | include/safe-shm/time_series.hpp:59-84 | The loop reads and branches as the walk does: to an exact hit, a failed probe, or the place where the target belongs |
| TimeSeries.TimeSeries.CheckAround | include/safe-shm/time_series.hpp:86-126 | From there on the result is the walk's, with the limit applied on every path but that of line 88 |
| TimeSeries.TimeSeries.FindClosestLinear | include/safe-shm/time_series.hpp:248-273 | Reads reverse indices 0 to avail-1 in order and returns what the walk's scan holds, limited |
| TimeSeries.TimeSeries.FindClosest | include/safe-shm/time_series.hpp:51-127 | Its result is the one `SearchAnswer` reads off the log, on every path; bounded cost always; genuine while fewer than 2^31 inserts begin; unlapped while the starting window stays in the buffer, and then of bounded error; optimal, and empty exactly when it should be, if nothing is published |
| InterpolationSpec.AlphaInterpolates | include/safe-shm/time_series.hpp:182-188 | For before <= target < after the factor is in [0, 1) and interpolates to the target exactly |
| InterpolationSpec.AlphaInUnitInterval | include/safe-shm/time_series.hpp:182-188 | For any two different keys the wrapping computation gives a factor in [0, 1) if and only if the target lies between them, going up from `before` around the key range |
| InterpolationSpec.PairExactly | include/safe-shm/time_series.hpp:176-188 | Wherever inserts land: `after` is always above the target; the pair brackets if and only if `before` is still the insert next to the first one above the target; the factor is in [0, 1) if and only if it brackets or `before` has come level with `after` or past it |
| PairAnswer.PairQueryAnswered | include/safe-shm/time_series.hpp:131-191 | What `find_interpolation_pair` returns, for every log and said of the reads alone: nothing if an end read failed or the target is outside, an end with itself if it has the target's key, and otherwise the last two neighbours read after a bisection, or the nearest on either side in the scan after a failed probe |
| PairAnswer.PairIsGrounded | include/safe-shm/time_series.hpp:131-191 | No pair without two end reads that succeeded and enclose the target; without a scan, none after a failed read |
| PairAnswer.PairUnique | include/safe-shm/time_series.hpp:131-191 | The log decides the result |
| InterpolationSpec.PairDrift | include/safe-shm/time_series.hpp:131-191 | If m inserts land meanwhile and no read is lapped, `before` is one of f-1..f-1+m and `after` one of f..f+m, f being the first insert above the target, or both are one element with the target's key |
| InterpolationSpec.PairCost | include/safe-shm/time_series.hpp:131-191 | log2(avail)+5 reads without fallback and log2(avail)+3+avail with it, whatever the writer does |
| InterpolationSpec.PairGenuine | include/safe-shm/time_series.hpp:131-191 | While fewer than 2^31 inserts begin, both elements are inserts no older than the starting window |
| InterpolationSpec.PairOptimal | include/safe-shm/time_series.hpp:131-191 | With nothing published meanwhile and no read lapped, a pair exactly when oldest <= target <= newest; off the boundaries adjacent in insertion order with before <= target < after, and interpolating exactly |
| InterpolationSpec.ScanFindsNearest | include/safe-shm/time_series.hpp:275-321 | Under any inserts the scan's pair is the greatest key up to the target and the least from it on among what it read |
| InterpolationSpec.ScanOptimal | include/safe-shm/time_series.hpp:275-321 | At rest the scan finds a pair exactly when the target is in range |
| InterpolationSpec.FormsAgree | include/safe-shm/time_series.hpp:275-321 | A bisected and a scanned bracket of the same target have the same `before` and factor, and the same `after` unless the target is an exact interior key |
| InterpolationSpec.PairFormsAgree | include/safe-shm/time_series.hpp:131-191 | At rest, on strictly increasing keys, both forms succeed on the same targets and agree in that sense |
| TimeSeries.TimeSeries.BisectPair | include/safe-shm/time_series.hpp:156-174 | The loop reads and branches as the walk does, to two neighbouring reverse indices or a failed probe |
| TimeSeries.TimeSeries.FindInterpolationPairLinear | include/safe-shm/time_series.hpp:275-321 | Reads reverse indices 0 to avail-1 in order and returns the pair the walk's scan holds |
| TimeSeries.TimeSeries.FindInterpolationPair | include/safe-shm/time_series.hpp:131-191 | Its result is the one `PairAnswer` reads off the log, on every path; bounded cost always; genuine while fewer than 2^31 inserts begin; near its place while no read is lapped; a bracketing pair, exactly when there is one, if nothing is published |
| Seqlock.StepInv | include/safe-shm/seqlock.hpp:57-162 | Every step of the writer, of each reader and of the kernel keeps counter, payload and every reader's partial copy consistent |
| SeqlockSafety.LoadsAreWholeStores | include/safe-shm/seqlock.hpp:98-118 | In every run with fewer than 2^31 stores inside an accepted read, what a reader got is one store's argument in full |
| SeqlockSafety.ReturnsMoveForward | include/safe-shm/seqlock.hpp:123-162 | Successive results of a reader never go back, and each return of `load_blocking` carries a strictly later store than its last |
| SeqlockSafety.NoLostWakeup | include/safe-shm/seqlock.hpp:153-160 | A sleeping reader's counter still equals its `last_seq`, or the writer has not reached its wake-up |
| SeqlockCalls.StoresAreBegun | include/safe-shm/seqlock.hpp:57-69 | The recorded stores are what was passed to the calls of `store`, in order |
| SeqlockCalls.LoadReturnsCurrent | include/safe-shm/seqlock.hpp:98-162 | With fewer than 2^31 stores inside the read, `load` and `load_blocking` return exactly what the last store finished by their second counter load was called with; `load_blocking` leaves that moment's counter in `last_seq`, not the one it was called with |
| SeqlockCalls.CallGoesOn | include/safe-shm/seqlock.hpp:98-162 | A call ends exactly with an accepted copy or by a timeout while asleep; a woken reader goes back to its loop; result and `last_seq` change with an accepted copy only |
| SeqlockCalls.LoopLooks | include/safe-shm/seqlock.hpp:138-158 | An even counter other than `last_seq` starts a copy, any other leads `load_blocking` to the kernel and `load` round its loop |
| SeqlockCalls.SleepHappens | include/safe-shm/seqlock.hpp:153-160 | Readers do sleep, from every initial state |
| SeqlockSafety.WindowIsTight | include/safe-shm/seqlock.hpp:98-118 | A run with exactly 2^31 stores in which a load returns a value nobody stored |
| ShmLock.MutualExclusion | include/safe-shm/shm_lock.hpp:38-54 | In every run of any number of threads at most one holds the lock, and one does exactly when the word is 1 |
| ShmLock.NoLostWakeup | include/safe-shm/shm_lock.hpp:38-54 | If the word is 0 and a thread sleeps, an unlocker has yet to issue its wake or a contender is awake and will retry |
| ShmLock.SomebodyGetsIn | include/safe-shm/shm_lock.hpp:38-54 | From any such state at most three steps of awake threads hand the lock to a contender |
| ShmLock.LockEndsHeld | include/safe-shm/shm_lock.hpp:38-47 | In every run, from its call of `lock` on a thread contends until its own exchange finds 0, and then it holds the lock |
| ShmLock.LockGoesOn | include/safe-shm/shm_lock.hpp:38-47 | A contender holds exactly by an exchange that finds 0, and otherwise contends; it sleeps only through its own FUTEX_WAIT while the word is 1 |
| ShmLock.UnlockGoesOn | include/safe-shm/shm_lock.hpp:49-54 | A holder holds until its own store of 0, and leaves `unlock` by its own wake-up call |
| ShmLock.OneSleepsWhileOneHolds | include/safe-shm/shm_lock.hpp:38-47 | For any two threads, a run in which one holds the lock and the other sleeps |
| ShmLock.RefinesAbstractLock | include/safe-shm/shm_lock.hpp:38-54 | Each step takes the free abstract lock, frees the held one, or leaves the holder alone |
| SwapRunner.Handshake | include/safe-shm/swap_runner.hpp:28-67 | For any number of clients, counting the actions of the run: idle is 0 only with a trigger half-done, pending or served; tasks ended never exceed triggers made and are at least the trigger/wait pairs any one client has completed |
| SwapRunner.WaitCanReturn | include/safe-shm/swap_runner.hpp:28-67 | From any reachable state at most four steps already under way set idle again |
| SwapRunner.LoneClientSeesEveryTrigger | include/safe-shm/swap_runner.hpp:28-38 | A lone client that alternates finds as many tasks ended as it has triggered whenever `wait` can return |
| SwapRunner.WaitMayReturnEarly | include/safe-shm/swap_runner.hpp:28-38 | For any two clients, or one that does not wait, a run that ends with the waiter's own trigger, still pending, while its `wait` can return |
| SwapRunner.NeverEarlyExactly | include/safe-shm/swap_runner.hpp:28-38 | For any set of clients: whenever a `wait` can return, each trigger of its own client has been followed by a whole task, in every run, if and only if there is one client and it waits after every trigger |
| SwapRunner.LoneClientIsServed | include/safe-shm/swap_runner.hpp:28-67 | For a lone client that alternates, a task that began after each of its triggers has ended when `wait` can return |
| Swapper.DoubleBufferSwapper.constructor | include/safe-shm/double_buffer_swapper.hpp:11-24 | Shared, active and published pointers set up as the protocol's initial state |
| Swapper.DoubleBufferSwapper.Stage | include/safe-shm/double_buffer_swapper.hpp:26-30 | Staging the shared buffer is the protocol's first step of a `load`, and keeps buffers, pointers and protocol state in agreement |
| Swapper.DoubleBufferSwapper.Swap | include/safe-shm/double_buffer_swapper.hpp:32-43 | Byte by byte, with everybody else interfering: the private buffer ends with the content the shared one had when the lock was taken, and is active; the stage is used up |
| Swapper.DoubleBufferSwapper.Task | include/safe-shm/image_shm.hpp:27-36 | The whole task: the published pointer leads to the content found at the lock, whatever is stored after |
| DoubleBuffer.StepInv | include/safe-shm/image_shm.hpp:27-36 | Every step of the storing processes, the client and the worker keeps lock, shared mix, private copy and turn-taking consistent |
| DoubleBuffer.TakenByThen | include/safe-shm/image_shm.hpp:60-70 | When a `wait` after a `load` has returned, the worker has taken a content |
| DoubleBuffer.SnapshotIsOneContent | include/safe-shm/image_shm.hpp:53-70 | After a `load` and its `wait` the snapshot is exactly the initial content or the argument of one finished call of `store`, none older than the last one finished before the `load` began; all told by the actions of the run |
| DoubleBuffer.StoreThenLoad | include/safe-shm/image_shm.hpp:53-70 | From every initial state, for every value, a run of a `store`, a `load` and a `wait` that ends with that value in the snapshot |
| DoubleBuffer.SnapshotSurvivesStores | include/safe-shm/image_shm.hpp:53-70 | It stays the same through any stores until the next `load` triggers |
| DoubleBufferLock.StepAgrees | include/safe-shm/image_shm.hpp:53-58 | With the futex lock in place of the holder, a thread that takes the word may take the lock, and every step is one of the double buffer's |
| DoubleBufferLock.SnapshotOverFutex | include/safe-shm/image_shm.hpp:27-70 | So the snapshot is the argument of one such `store` also with threads contending for the futex word |
| DoubleBuffer.WaitBlocksForAReason | include/safe-shm/swap_runner.hpp:35-38 | While `wait` blocks, the client is about to trigger, a trigger is pending, or the worker is at work |
| DoubleBuffer.StageNeverNull | include/safe-shm/double_buffer_swapper.hpp:32-42 | With a client that waits before it loads again, the stage is set from before the lock until the swap clears it |
| DoubleBuffer.LoadIsSafeExactly | include/safe-shm/image_shm.hpp:60-65 | After safe loads only, the next one can cause a null swap if and only if the stage is still set as it begins, in every reachable state and whatever the stores in progress |
| DoubleBuffer.AlternatingIsGuarded | include/safe-shm/dblbuf_loader.hpp:53-65 | Waiting first always finds the stage empty |
| DoubleBuffer.DoubleLoadMeetsNullStage | include/safe-shm/image_shm.hpp:60-65 | Two loads in a row can run a swap with a null stage, from every initial state |
| DoubleBuffer.RunnerWithin | include/safe-shm/dblbuf_loader.hpp:27-36 | Every run of the double buffer is a run of the runner's protocol with one client |
| ProducerConsumer.StepInv | include/safe-shm/producer_consumer.hpp:20-32 | Every step, of any number of producers and consumers, keeps the one token and the value's owner consistent |
| ProducerConsumer.ExactlyOnceInOrder | include/safe-shm/producer_consumer.hpp:20-32 | In every run semaphores and threads between wait and post sum to 1; the consumed values are a prefix of the arguments of `produce` in the order of their posts, whole, and at most one shorter |
| ProducerConsumer.NothingMovesUnderACallback | include/safe-shm/producer_consumer.hpp:27-32 | While a callback runs, no step changes the value it refers to, which is the oldest one not consumed |
| ProducerConsumer.SomebodyMoves | include/safe-shm/producer_consumer.hpp:20-32 | A waiting producer and a waiting consumer never block each other |
| ProducerConsumer.ThrowIsFinal | include/safe-shm/producer_consumer.hpp:27-32 | After a callback throws nothing is produced or consumed again |
| ProducerConsumer.ThrowHappens | include/safe-shm/producer_consumer.hpp:27-32 | Such a state is reached: from every initial state and for every value, by one producer and one consumer whose callback throws |

## Left out

- Weak memory: runs are sequentially consistent interleavings; compiler and hardware reordering and the sanitizer macros are not modelled.
- RingReader.CyclicBufferReader.TryGet: holds during the first 2^64 - 1 inserts, because `min(total_writes, N)` means nothing once the count wraps. `RingSafety` has no such limit where it does not say so.
- RingRegion.CyclicBuffer.GetAt: for readable reverse indices only, the others being undefined by its comment. The unbounded retry loop of `read_slot` is taken at its first attempt, which is accepted when nobody writes; under interference its accepted attempt is the one in `RingSafety.NoTornRead`, and that it is ever accepted is not claimed.
- TimeSeries.TimeSeries.FindClosest: the error bound is for queries none of whose reads fails or is lapped; on a fallback path under inserts what is claimed is genuineness, cost, and which of the elements read is returned.
- TimeSeries.TimeSeries.FindInterpolationPair: the same; and under inserts the pair need not bracket the target, because the code does not check it again.
- InterpolationSpec.AlphaInterpolates: the factor is an exact real; floating-point rounding is not modelled.
- ProducerConsumer.ExactlyOnceInOrder: a callback that returns is one that read every byte of the value at least once.
- DoubleBuffer.SnapshotIsOneContent: one client per object, as a second one would break the alternation.
- Swapper.DoubleBufferSwapper.Swap: of the client only a new `load` is kept out meanwhile; that an alternating client makes none then is `DoubleBuffer.StageNeverNull`.
- Keys are natural numbers up to a maximum, as for unsigned key types; `T{}` is taken to be zeros.
- Timeouts, clocks, `errno`, heartbeats and process liveness: a timeout is a return that may happen whenever a waiter sleeps.
- Shutdown of `SwapRunner`, destructors and `ShmLock::destroy`; a task that throws is logged and counts as finished.
- `shm_lifecycle.hpp`, `SanitizedKey` and its validators, `Stamped`, `ShmStats`, `Image`, `SharedMemory`, `Storage`, `Snapshot`, the logger: one-line or type-level members and calls into code outside the repository.
- `get_latest_if_fresh`: one `try_get` and a comparison.
- The separate writer, reader and combined classes repeat the same code, which is modelled once; bindings, benchmarks, examples and packaging are not modelled.
