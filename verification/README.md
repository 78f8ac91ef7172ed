# Verified models of the vhost-device backends

Dafny 4.11 models of the stateful cores of the vhost-user device backends, with proofs of what they keep
over every run. `dafny verify dfyconfig.toml` checks the whole project.

Source cells below are paths in the repository, with line numbers.

## What is modelled

**The shared-memory allocator of vhost-device-media** (`AddressRange.dfy`, `SortedRanges.dfy`,
`Alignment.dfy`, `MediaAllocator.dfy`, `AllocatorRuns.dfy`). The class `MediaAllocator` keeps a map of live
ranges and an ordered set of free ones, splits a free range on allocation and joins neighbours on release.
Its code looks at one region, or two neighbours, at a time; its contracts speak about addresses: an
allocation is the lowest aligned place where the bytes fit, live and free ranges partition the pool, and the
free list is the list of maximal free runs. Runs are sequences of operations with the outcomes they report.

**Its callers** (`VuBackend.dfy`, `GuestMemory.dfy`, `GuestMemoryMapping.dfy`, `DescriptorChain.dfy`). The map
and unmap requests with rollback, the shadow buffer of a scatter-gather list, and the reader and writer over
scattered descriptors, over guest memory as a map from address to byte.

**The alarm protocol of vhost-device-rtc** (`RtcAlarm.dfy`, section 5.23.6.6 of VIRTIO v1.4). A transition
system of guest requests, buffer submissions, the passing of time, and any number of worker threads that
sleep, read their cancellation token without a lock, and then work under the device lock or wait for a buffer.
The class `RtcDevice` holds the shared fields; each of its methods is one action.

**The interrupt protocol of vhost-device-gpio** (`GpioEvents.dfy`, section 5.18 of VIRTIO v1.2). One backend
thread and one waiter thread per armed buffer; the `handles` lock is explicit, so a waiter cannot clear its
slot before the backend has stored it.

**Smaller cores**: the bandwidth limiter of vhost-device-rng (`RngLimiter.dfy`), the event batcher of
vhost-device-input (`InputBatcher.dfy`), the frame translation of vhost-device-can (`CanFrames.dfy`), and the
device list and address index of vhost-device-i2c (`DeviceList.dfy`, `I2cMap.dfy`).

Clock readings, sleeps, kernel and frontend answers, queue contents and random data are parameters.
Code that changes fields is a class whose methods are proved against a function or relation on a value of
the state; the theorems are lemmas about that function or relation. What such a function does is stated field by
field, over the source's own numbers and bits, by the lemmas named `...Exactly`.

Each method of `RtcDevice` and `GpioBackend` that changes the shared state is proved to take it through exactly
one action of the transition system. The event loop that calls a backend's `handle_event` belongs to another crate and is
not part of this model; that an error returned to it ends the loop is what
`vhost-device-input/src/vhu_input.rs:196-200` says.

## Where the code does less than it seems to promise

Each failure has its exact condition and an input.

- A request above 2^64 - min_align bytes can overflow in the region probe, or in the end address, where
  EFAULT is due (`vhost-device-media/src/media_allocator.rs:159`, `:171`): `AllocateOverflows` names the two
  guards, `WithinBoundsNothingOverflows` the bound below which neither happens, `HugeRequestOverflows` a run.
- `new_from_list` accepts pools that overlap or touch. `NewFromList` says exactly when live and free ranges
  partition the pools and when the free list is canonical. A release loses its range exactly when a neighbouring
  region reaches into it (`InsertAt`, `OverlappingPoolsLoseRange`), which never happens over disjoint pools
  (`ReleaseOfLiveSucceeds`). Over touching ones exactly the fits that reach across regions are missed
  (`RefusedExactly`, `TouchingPoolsMissFit`).
- A refused unmap leaves a mapping over bytes that the allocator already holds free
  (`RemoveKeepsSyncIffAccepted`, `RefusedUnmapStaysMapped`); `MappedIsLiveAndStale` accounts for all of them
  over every run.
- Writing a shadow back over overlapping ranges reads back the same exactly when the shadow agrees on the
  overlap (`GatherAfterDrop`, `OverlapReadsBackDifferently`).
- A read buffer never takes more than its length modulo 2^32 (`DescriptorChainReader.ReadExact`,
  `RoomOfTwoToThe32Stalls`).
- An alarm worker past its token check can answer a later setting early
  (`FiringIsCurrentIffNotObsolete`, `ObsoleteWorkerCanFire`).
- An event buffer that is malformed, or names a line past the end, takes the rest of its batch with it
  (`LostExactly`); the first is an error (`MalformedBufferLosesRest`), the second a panic that poisons the
  `handles` lock (`LinePastEndLosesRest`). Only the waiters go on afterwards (`OnlyWaitersGoOn`).
- A SYN_REPORT at index 0 does not close a batch (`SyncWaitsExactly`, `SyncAtZeroWaits`); an overrun, which is
  no error, can cut one (`ProcessFramesExactly`, `OverrunCutsBatch`).
- A remote request with a standard id loses its RTR flag on the way out
  (`RemoteFlagOfStandardFrameIsDropped`, `RemoteRequestLosesFlag`).

## Model

| member | source | states |
|---|---|---|
| AddressRanges.AddressRange.Intersect | vhost-device-media/src/media_allocator.rs:73-77 | the addresses of the result are the common ones, for empty and inverted ranges too |
| AddressRanges.AddressRange.Overlaps | vhost-device-media/src/media_allocator.rs:69-71 | true exactly when some address lies in both |
| AddressRanges.AddressRange.Len | vhost-device-media/src/media_allocator.rs:79-86 | the number of addresses, absent exactly for the whole 64-bit range |
| AddressRanges.AddressRange.NonOverlappingRanges | vhost-device-media/src/media_allocator.rs:35-67 | the two pieces are the set difference, and are disjoint unless the argument is inverted |
| SortedRanges.CanonicalIsUnique | vhost-device-media/src/media_allocator.rs:180-229 | a sorted list of disjoint, non-adjacent ranges is determined by the addresses it covers |
| SortedRanges.OverlapIsLocal | vhost-device-media/src/media_allocator.rs:188-216 | of disjoint regions some one overlaps a slot exactly when one of its two neighbours reaches into it |
| SortedRanges.CoalesceIsUnion | vhost-device-media/src/media_allocator.rs:218-226 | merging with the touching neighbours adds exactly the slot's addresses and keeps the list disjoint, or canonical |
| SortedRanges.CarveIsDifference | vhost-device-media/src/media_allocator.rs:123-140 | carving a range out of its region removes exactly its addresses and keeps the list disjoint, or canonical |
| Alignment.PowerOfTwoExactly | vhost-device-media/src/media_allocator.rs:107-110 | the accepted alignments are exactly the powers of two |
| Alignment.AlignmentDividesWord | vhost-device-media/src/media_allocator.rs:107-110 | every power-of-two alignment that fits a word divides 2^64 |
| Alignment.AlignUpIsLeast | vhost-device-media/src/media_allocator.rs:167-170 | the rounded-up address is the least aligned one from the start on |
| Alignment.AlignUpIntermediate | vhost-device-media/src/media_allocator.rs:169 | if the rounded-up address fits a word, so does `slot.start + min_align` |
| Allocator.FitLiesInRegion | vhost-device-media/src/media_allocator.rs:153-163 | wherever the bytes fit in the pool, a single free region has room for them no later |
| Allocator.FirstFitIsLowestFit | vhost-device-media/src/media_allocator.rs:153-177 | the first region with room starts the lowest fit of all addresses; with none nothing fits anywhere |
| Allocator.RefusedExactly | vhost-device-media/src/media_allocator.rs:153-176 | over disjoint pools that may touch, no region has room exactly when every fit reaches across regions |
| Allocator.WithinBoundsNothingOverflows | vhost-device-media/src/media_allocator.rs:157-171 | pools ending below the last address and sizes up to 2^64 - min_align never overflow |
| Allocator.MediaAllocator.New | vhost-device-media/src/media_allocator.rs:99-101 | EBADR exactly for an alignment that is no power of two, else a sound allocator with the pool free |
| Allocator.MediaAllocator.NewFromList | vhost-device-media/src/media_allocator.rs:103-121 | keeps the non-empty pools in order; a partition exactly when distinct pools are disjoint, canonical exactly when they are separated |
| Allocator.MediaAllocator.AllocateFromSlot | vhost-device-media/src/media_allocator.rs:123-143 | the range is carved out of the region and becomes live |
| Allocator.MediaAllocator.Allocate | vhost-device-media/src/media_allocator.rs:145-178 | from any pools the first region with room is taken, each error exactly when due and without change; from separated pools that is the lowest aligned fit |
| Allocator.MediaAllocator.InsertAt | vhost-device-media/src/media_allocator.rs:180-229 | on any set refused exactly when a neighbour reaches into the slot; on disjoint ones exactly when it overlaps a region, and otherwise its addresses are added and a canonical list stays so |
| Allocator.MediaAllocator.Release | vhost-device-media/src/media_allocator.rs:231-238 | from any pools the id goes, and its range goes back unless a neighbour reaches into it; from separated pools it never fails and frees exactly its addresses |
| Allocator.MediaAllocator.FindOverlapping | vhost-device-media/src/media_allocator.rs:251-260 | some live range that overlaps, in whatever order the map is searched, or none when there is none |
| Allocator.MediaAllocator.ReleaseContaining | vhost-device-media/src/media_allocator.rs:240-249 | releases a live range at the address, EFAULT exactly when there is none; from separated pools it is the only one |
| Allocator.AllocateKeepsInv | vhost-device-media/src/media_allocator.rs:145-178 | allocation keeps live and free ranges a partition of the pools and the free list canonical |
| Allocator.ReleaseKeepsInv | vhost-device-media/src/media_allocator.rs:231-238 | release keeps it too |
| Allocator.PlaceIsLowestFit | vhost-device-media/src/media_allocator.rs:145-178 | over separated pools, taking the first region with room is taking the lowest fit of all addresses |
| Allocator.GiveBackIsRelease | vhost-device-media/src/media_allocator.rs:180-238 | over separated pools, joining with two neighbours is freeing exactly the live addresses |
| Allocator.PlaceKeepsPartition | vhost-device-media/src/media_allocator.rs:145-178 | over disjoint pools, touching or not, allocation keeps the partition |
| Allocator.GiveBackKeepsPartition | vhost-device-media/src/media_allocator.rs:231-238 | over disjoint pools a release fails for unknown ids only, and keeps the partition |
| AllocatorRuns.RunKeepsPartition | vhost-device-media/src/media_allocator.rs:103-260 | in every state reachable over disjoint pools live and free ranges partition the pools |
| AllocatorRuns.RunKeepsInv | vhost-device-media/src/media_allocator.rs:99-260 | over separated pools, in particular from `new`, the free list is canonical besides |
| AllocatorRuns.RunIsAddressRun | vhost-device-media/src/media_allocator.rs:145-260 | and every step of every run is a lowest fit, or frees exactly the range released |
| AllocatorRuns.ReleaseOfLiveSucceeds | vhost-device-media/src/media_allocator.rs:231-249 | in every run over disjoint pools a release succeeds exactly for a live id or address |
| AllocatorRuns.OverlappingPoolsLoseRange | vhost-device-media/src/media_allocator.rs:103-238 | two overlapping pools, an allocation and a release that fails after its id is gone |
| AllocatorRuns.TouchingPoolsMissFit | vhost-device-media/src/media_allocator.rs:103-177 | two touching pools and a request refused although it fits across them |
| AllocatorRuns.FreeListDetermined | vhost-device-media/src/media_allocator.rs:123-238 | equal pools and live addresses give equal free lists, whatever the order of operations |
| AllocatorRuns.RegionsAreMaximalRuns | vhost-device-media/src/media_allocator.rs:180-229 | a range is in the free list exactly when it is a maximal run of pool addresses that are not live |
| AllocatorRuns.AllReleasedRestoresPools | vhost-device-media/src/media_allocator.rs:180-238 | with nothing live the free list is exactly the pools |
| AllocatorRuns.ReleaseUndoesAllocate | vhost-device-media/src/media_allocator.rs:145-238 | releasing what was just allocated restores both collections |
| AllocatorRuns.StepIsDeterministic | vhost-device-media/src/media_allocator.rs:251-260 | every operation has one outcome and one next state, so the hash-map order cannot be observed |
| AllocatorRuns.RunIsDeterministic | vhost-device-media/src/media_allocator.rs:145-260 | two runs of the same operations from the same pool agree in every state and outcome |
| AllocatorRuns.AllocateIsLowestFit | vhost-device-media/src/media_allocator.rs:145-178 | in every reachable state a fresh id and a non-zero size within bounds get the lowest fit, EFAULT exactly when nothing fits |
| AllocatorRuns.HugeRequestOverflows | vhost-device-media/src/media_allocator.rs:157-160 | a run from a fresh 4 GiB pool in which the second request overflows where EFAULT is due |
| AllocatorRuns.BytesAreConserved | vhost-device-media/src/media_allocator.rs:123-249 | live bytes plus free bytes is the size of the pools in every state reachable over disjoint pools |
| AllocatorRuns.AllocateMovesSize | vhost-device-media/src/media_allocator.rs:123-178 | a successful allocation moves exactly `size` bytes from free to live |
| VuBackends.VuBackend.New | vhost-device-media/src/vhu_adapters.rs:104-112 | a sound allocator over the 4 GiB region with nothing mapped |
| VuBackends.VuBackend.AddMapping | vhost-device-media/src/vhu_adapters.rs:116-141 | success maps the lowest fit under the id; any failure leaves allocator and mappings as they were |
| VuBackends.VuBackend.RemoveMapping | vhost-device-media/src/vhu_adapters.rs:143-154 | the unmap message carries start and length of the live range at the offset, which is freed whatever the answer |
| VuBackends.AddKeepsSync | vhost-device-media/src/vhu_adapters.rs:116-141 | a map request keeps the frontend's mappings equal to the live ranges, accepted or not |
| VuBackends.RemoveKeepsSyncIffAccepted | vhost-device-media/src/vhu_adapters.rs:143-154 | an unmap keeps them equal exactly when it is accepted or nothing is there; else a stale mapping covers free bytes |
| VuBackends.RunStaysInSync | vhost-device-media/src/vhu_adapters.rs:116-155 | in every run with accepted unmaps the frontend maps exactly the live ranges |
| VuBackends.MappedIsLiveAndStale | vhost-device-media/src/vhu_adapters.rs:116-155 | in every run, whatever is refused, the frontend maps exactly the live ranges and those of refused unmaps |
| VuBackends.RefusedUnmapStaysMapped | vhost-device-media/src/vhu_adapters.rs:143-154 | one page mapped, its unmap refused: free for the allocator and still mapped |
| VuBackends.MappingsAreSound | vhost-device-media/src/vhu_adapters.rs:116-155 | those mappings are page-aligned, inside the region and pairwise disjoint |
| VuBackends.MessagesMatchMappings | vhost-device-media/src/vhu_adapters.rs:116-155 | every unmap names exactly the one outstanding mapping at its offset, every map a stretch that meets none |
| GuestMemories.LoadAfterStore | vhost-device-media/src/vhu_adapters.rs:207-217 | loading a stored address list returns the bytes exactly when they agree on repeated addresses |
| GuestMemories.DisjointMeansDistinct | vhost-device-media/src/vhu_adapters.rs:165-177 | extents that share no address flatten to a list without repetition |
| GuestMemoryMappings.GuestMemoryMapping.New | vhost-device-media/src/vhu_adapters.rs:165-185 | succeeds exactly when every entry can be read; the shadow is what was gathered |
| GuestMemoryMappings.GuestMemoryMapping.Drop | vhost-device-media/src/vhu_adapters.rs:200-218 | a clean drop changes nothing, a dirty one writes every entry back, past entries that fail |
| GuestMemoryMappings.GatherIsConcatenation | vhost-device-media/src/vhu_adapters.rs:165-177 | over mapped ranges the shadow is the concatenation of their bytes |
| GuestMemoryMappings.WriteBackIsStore | vhost-device-media/src/vhu_adapters.rs:207-217 | over mapped ranges the write-back is one store over the flat address list |
| GuestMemoryMappings.DirtyDropWritesShadow | vhost-device-media/src/vhu_adapters.rs:200-218 | over disjoint mapped ranges memory then holds the shadow there and is unchanged elsewhere |
| GuestMemoryMappings.GatherAfterDrop | vhost-device-media/src/vhu_adapters.rs:165-218 | gathering again returns the shadow exactly when it agrees with itself where ranges overlap |
| GuestMemoryMappings.OverlapReadsBackDifferently | vhost-device-media/src/vhu_adapters.rs:165-218 | two ranges on one byte and a shadow that does not come back |
| DescriptorChains.SideInOrder | vhost-device-media/src/descriptor_chain.rs:55-58 | a side of the chain is its descriptors of one direction, in chain order and none left out |
| DescriptorChains.DescriptorChainWriter.constructor | vhost-device-media/src/descriptor_chain.rs:55-66 | a new writer stands at the start of the writable descriptors, in chain order and none left out |
| DescriptorChains.DescriptorChainReader.constructor | vhost-device-media/src/descriptor_chain.rs:144-154 | a new reader stands at the start of the readable descriptors, in chain order and none left out |
| DescriptorChains.AdvanceMovesPosition | vhost-device-media/src/descriptor_chain.rs:105-110 | moving on inside a descriptor or to the next one adds exactly that many to the flat position |
| DescriptorChains.AccessWhole | vhost-device-media/src/descriptor_chain.rs:86-110 | over positive mapped descriptors one access does not fail and takes the least of the room and what is left of the descriptor |
| DescriptorChains.AccessErrorExactly | vhost-device-media/src/descriptor_chain.rs:90-103 | an access fails exactly on an address past 64 bits, or when it has a byte to move and the first is not mapped |
| DescriptorChains.RoomExactly | vhost-device-media/src/descriptor_chain.rs:164 | read lengths below 2^32 are kept, and 2^32 more make no difference |
| DescriptorChains.CurrentStretch | vhost-device-media/src/descriptor_chain.rs:86-101 | the rest of the current descriptor is the next stretch of the concatenated address list |
| DescriptorChains.DescriptorChainWriter.AddWritten | vhost-device-media/src/descriptor_chain.rs:68-72 | the count grows and the shared peak is lifted to it |
| DescriptorChains.DescriptorChainWriter.Write | vhost-device-media/src/descriptor_chain.rs:85-118 | each error exactly when due and without change; otherwise a prefix of the buffer is stored at the next flat addresses and passed; over positive mapped descriptors it stalls only at the end |
| DescriptorChains.DescriptorChainWriter.WriteAll | vhost-device-media/src/descriptor_chain.rs:81-118 | retrying stores the longest prefix the chain has room for; the error is that of the failed access, or a short write when none failed |
| DescriptorChains.DescriptorChainReader.Read | vhost-device-media/src/descriptor_chain.rs:161-187 | each error exactly when due and without change; otherwise the bytes of the next flat addresses; stalls only at the end or when the room is a multiple of 2^32 |
| DescriptorChains.DescriptorChainReader.ReadExact | vhost-device-media/src/descriptor_chain.rs:157-187 | retrying fills the least of the length modulo 2^32 and what the chain has left; the error is that of the failed access, or an early end when none failed |
| DescriptorChains.WritesAreOneStore | vhost-device-media/src/descriptor_chain.rs:85-118 | any sequence of writes is a single store of all bytes, none skipped or repeated |
| DescriptorChains.ReadsAreOneLoad | vhost-device-media/src/descriptor_chain.rs:161-187 | any sequence of reads returns the flat bytes in order |
| DescriptorChains.ReadsReturnWrites | vhost-device-media/src/descriptor_chain.rs:81-188 | a reader whose stretch is the addresses a writer stored over returns exactly what was written, however both were cut |
| DescriptorChains.WritesLeaveReadsAlone | vhost-device-media/src/descriptor_chain.rs:55-188 | within one chain whose two sides share no address, writes do not change what reads return |
| DescriptorChains.RoomOfTwoToThe32Stalls | vhost-device-media/src/descriptor_chain.rs:164 | a buffer of 2^32 bytes reads nothing although a byte is there |
| DescriptorChains.RunClones | vhost-device-media/src/descriptor_chain.rs:36-78 | whatever writers are cloned and written to, in any order, the shared peak is the largest count of any of them |
| RtcAlarms.RunKeepsInv | vhost-device-rtc/src/alarm.rs:70-178 | in every interleaving alarms match the log, live tokens belong to held workers, workers come from enables, taken buffers from armed clocks |
| RtcAlarms.SetAlarmExactly | vhost-device-rtc/src/backend.rs:296-337 | an accepted request stores the time and, by the flag, holds a new worker sleeping until then or none, sets the old token, and logs both; any other changes nothing |
| RtcAlarms.SetAlarmEnabledExactly | vhost-device-rtc/src/backend.rs:354-399 | the same with the stored time kept |
| RtcAlarms.CheckTokenExactly | vhost-device-rtc/src/alarm.rs:115-119 | a worker whose sleep is over ends exactly when its token is set |
| RtcAlarms.EnterSectionExactly | vhost-device-rtc/src/alarm.rs:123-157 | in the lock a worker ends when its alarm is off, waits without buffers, and takes the last one otherwise; nothing else changes |
| RtcAlarms.NoNotificationUntilReenabled | vhost-device-rtc/src/alarm.rs:121-146 | from any state, after an accepted disable request no buffer is taken for the clock before a later accepted enable request |
| RtcAlarms.NoPopUntilEnabled | vhost-device-rtc/src/alarm.rs:121-146 | the same over the log of every run |
| RtcAlarms.NoNotificationBeforeAlarmTime | vhost-device-rtc/src/alarm.rs:114-146 | every buffer taken goes back to an enable of its clock and comes no earlier than the alarm time then set |
| RtcAlarms.EnabledAlarmHoldsWorker | vhost-device-rtc/src/backend.rs:300-403 | an enabled alarm holds a live worker due at the later of alarm time and reading at enabling |
| RtcAlarms.NotificationsWithinEnables | vhost-device-rtc/src/alarm.rs:77-158 | the buffers taken for a clock never outnumber its enables |
| RtcAlarms.WorkersFireOnce | vhost-device-rtc/src/alarm.rs:121-157 | in every run each worker takes at most one buffer, so each enable is answered at most once |
| RtcAlarms.BuffersTakenAtMostOnce | vhost-device-rtc/src/alarm.rs:142-144 | every pushed buffer is pending or was taken, once |
| RtcAlarms.CancelledWorkerTakesNothing | vhost-device-rtc/src/alarm.rs:115-119 | a worker cancelled before its token check takes no buffer in any continuation |
| RtcAlarms.FiringIsCurrentIffNotObsolete | vhost-device-rtc/src/alarm.rs:121-146 | a worker that may take a buffer is the one its alarm holds exactly when its token is not set |
| RtcAlarms.ObsoleteWorkerCanFire | vhost-device-rtc/src/alarm.rs:116-146 | an interleaving in which a replaced worker answers for the new setting, 80 ns early |
| RtcAlarms.RtcDevice.SetAlarm | vhost-device-rtc/src/backend.rs:284-341 | the status exactly by the case; accepted, the alarm has the new time, is on with a new worker or off without one, and the old token is set |
| RtcAlarms.RtcDevice.SetAlarmEnabled | vhost-device-rtc/src/backend.rs:342-403 | the status exactly by the case; accepted, the alarm keeps its time, is on with a new worker or off without one, and the old token is set |
| RtcAlarms.RtcDevice.WorkerSection | vhost-device-rtc/src/alarm.rs:121-157 | ended, waiting or with the last buffer, by whether the alarm is on and a buffer is there |
| RtcAlarms.RtcDevice.ReadAlarm | vhost-device-rtc/src/backend.rs:250-283 | reports the last time set and whether the last switch was an enable |
| GpioEvents.TakeBatchExactly | vhost-device-gpio/src/vhu_gpio.rs:376-387 | everything in the queue is received in order, behind what was received before |
| GpioEvents.NextBufferExactly | vhost-device-gpio/src/vhu_gpio.rs:330-371 | a good buffer is held, a malformed one ends the backend, a line past the end poisons the lock; nothing else changes |
| GpioEvents.DecideExactly | vhost-device-gpio/src/vhu_gpio.rs:299-317 | an armed line without a waiter gets one and no answer; in every other case the buffer is answered Invalid and nothing is spawned |
| GpioEvents.StoreHandleExactly | vhost-device-gpio/src/vhu_gpio.rs:309-318 | exactly the slot of the line holds the new waiter |
| GpioEvents.AnswerExactly | vhost-device-gpio/src/vhu_gpio.rs:310-315 | a waiter answers its own buffer, Valid exactly on an interrupt |
| GpioEvents.ClearExactly | vhost-device-gpio/src/vhu_gpio.rs:316 | exactly the slot of its line is emptied, unless the lock is poisoned, and not while it is held |
| GpioEvents.SetIrqTypeExactly | vhost-device-gpio/src/gpio.rs:463-488 | exactly the line's type changes, to the low half of the value, when that is 0 to 15, from or to none, and taken by the device |
| GpioEvents.ArmedBufferIsAnswered | vhost-device-gpio/src/vhu_gpio.rs:296-317 | from any state, the buffer held for an armed free line gets a waiter, is stored and answered, Valid on an interrupt |
| GpioEvents.InterruptIsReported | vhost-device-gpio/src/vhu_gpio.rs:288-318 | from the start: a line is armed, its buffer gets a waiter, is answered Valid on the interrupt, and the slot is empty again |
| GpioEvents.RunKeepsSlots | vhost-device-gpio/src/vhu_gpio.rs:288-318 | in every interleaving slots and uncleared waiters match, up to the one being stored |
| GpioEvents.SlotHoldsUnclearedWaiter | vhost-device-gpio/src/vhu_gpio.rs:296-317 | outside the locked step a slot holds a waiter exactly while that waiter has not cleared it |
| GpioEvents.OneWaiterPerLine | vhost-device-gpio/src/vhu_gpio.rs:299-317 | two uncleared waiters never share a line |
| GpioEvents.BuffersAnsweredAtMostOnce | vhost-device-gpio/src/vhu_gpio.rs:288-387 | every buffer that left the queue is answered once, listened on, in hand, further on in the batch at work, or lost, exactly one of these |
| GpioEvents.LostExactly | vhost-device-gpio/src/vhu_gpio.rs:321-387 | once the backend is done with a batch, a buffer of it is lost exactly when it or one before it in the batch is malformed or names a line past the end |
| GpioEvents.OnlyWaitersGoOn | vhost-device-gpio/src/vhu_gpio.rs:309-317 | after the error or the panic nothing is received, refused or armed; waiters answer, and clear their slots unless the lock is poisoned |
| GpioEvents.MalformedBufferLosesRest | vhost-device-gpio/src/vhu_gpio.rs:330-374 | a batch whose malformed second buffer loses the good third; the first is answered |
| GpioEvents.LinePastEndLosesRest | vhost-device-gpio/src/vhu_gpio.rs:295-297 | a batch whose first buffer names a line past the end loses the good second, and the lock is poisoned |
| GpioEvents.CheckBuffer | vhost-device-gpio/src/vhu_gpio.rs:330-369 | a buffer is well formed exactly with two descriptors of the right directions and sizes and a readable request, and then names its line |
| GpioEvents.GpioBackend.NextBuffer | vhost-device-gpio/src/vhu_gpio.rs:330-371 | the error of each malformed buffer, the panic for a line past the end, and the step taken |
| GpioEvents.EndedWaiterAnsweredOnce | vhost-device-gpio/src/vhu_gpio.rs:309-317 | the buffer of a waiter that stopped listening has been answered exactly once |
| GpioEvents.GpioBackend.RefuseOrSpawn | vhost-device-gpio/src/vhu_gpio.rs:299-317 | a waiter for an armed line without one, the answer Invalid in every other case |
| GpioEvents.IrqChangesThroughNone | vhost-device-gpio/src/gpio.rs:463-488 | between two different interrupt types of a line there is a moment with none |
| GpioEvents.GpioBackend.SetIrqType | vhost-device-gpio/src/gpio.rs:463-488 | accepted exactly when valid, different, through none and taken by the device; each refusal with its error and no change; a line past the end ends the backend thread |
| RngLimiter.ResetKeepsLimit | vhost-device-rng/src/vhu_rng.rs:150-163 | a fresh quota after a whole period keeps delivered bytes plus quota within the budget |
| RngLimiter.DeliveryKeepsBudget | vhost-device-rng/src/vhu_rng.rs:170-184 | a delivery within the quota keeps the bound at every point in time |
| RngLimiter.ReplenishedExactly | vhost-device-rng/src/vhu_rng.rs:142-168 | the quota is renewed exactly when a whole period has passed or none is left, and no new period starts before the old one is over |
| RngLimiter.RngBackend.Replenish | vhost-device-rng/src/vhu_rng.rs:142-168 | that renewal, or the timer error without change; with the quota used up it returns no earlier than the end of the period |
| RngLimiter.ServeExactly | vhost-device-rng/src/vhu_rng.rs:127-189 | every request is served with the least of quota, request and source, charged, or refused for exactly what is wrong with it |
| RngLimiter.ServeAllExactly | vhost-device-rng/src/vhu_rng.rs:118-191 | so is each request of a batch in turn, up to the first refused |
| RngLimiter.RngBackend.ProcessRequest | vhost-device-rng/src/vhu_rng.rs:127-189 | accepted exactly when well formed, in time and with a usable source; the least of renewed quota, request and source is delivered and charged; the bound over the whole life is kept |
| RngLimiter.RngBackend.ProcessRequests | vhost-device-rng/src/vhu_rng.rs:118-191 | a batch is served in order with exactly these lengths up to its first failing request and its error, within the bound |
| RngLimiter.UsedWithinAsked | vhost-device-rng/src/vhu_rng.rs:170-186 | no request of a batch gets more than it asked for, nor than a period allows |
| RngLimiter.TryFrom | vhost-device-rng/src/main.rs:79-111 | accepted exactly for a period in range and a socket; the shares are the largest that fit the total |
| RngLimiter.TotalWithinConfigured | vhost-device-rng/src/main.rs:99-101 | all backends of one configuration together stay within the budget of the configured total at every time |
| InputBatcher.ProcessExactly | vhost-device-input/src/vhu_input.rs:150-215 | for each outcome which events go out over which chains, which stay, and where the last SYN_REPORT is; an overrun leaves nothing |
| InputBatcher.ProcessConservesExactly | vhost-device-input/src/vhu_input.rs:150-215 | a call keeps delivered ++ pending == fetched exactly when it neither overruns nor breaks off midway |
| InputBatcher.ProcessFramesExactly | vhost-device-input/src/vhu_input.rs:165-214 | delivered events stay framed exactly when the last one sent is a SYN_REPORT |
| InputBatcher.ProcessLeavesNoBatch | vhost-device-input/src/vhu_input.rs:151-214 | afterwards no SYN_REPORT waits past index 0 |
| InputBatcher.SyncWaitsExactly | vhost-device-input/src/vhu_input.rs:151-162 | afterwards a SYN_REPORT waits exactly when the list had one at index 0 and none further on |
| InputBatcher.SyncAtZeroWaits | vhost-device-input/src/vhu_input.rs:151-162 | a lone SYN_REPORT is not sent although the ring has room |
| InputBatcher.StreamIsWhole | vhost-device-input/src/vhu_input.rs:150-240 | over runs without errors and overruns all three hold |
| InputBatcher.DeliveredIsSubsequence | vhost-device-input/src/vhu_input.rs:150-240 | over runs up to and with the first error, overruns included, delivered is an in-order subsequence without repetition of what was fetched |
| InputBatcher.NextCallRepeatsExactly | vhost-device-input/src/vhu_input.rs:165-213 | a call after one that broke off would send an event again exactly when both send any; the loop has ended by then |
| InputBatcher.OverrunCutsBatch | vhost-device-input/src/vhu_input.rs:195-209 | a run without errors whose delivered events do not end in SYN_REPORT |
| InputBatcher.InputBackend.LastSyncIndex | vhost-device-input/src/vhu_input.rs:151-157 | the last SYN_REPORT of the list, 0 when there is none |
| InputBatcher.InputBackend.ProcessEvent | vhost-device-input/src/vhu_input.rs:150-215 | the same read off the result: true, false, or the error of the first unusable chain |
| InputBatcher.InputBackend.ProcessQueue | vhost-device-input/src/vhu_input.rs:218-240 | fetched events join the list in order before it is processed; true exactly when nothing failed, never false |
| CanFrames.TxExactly | vhost-device-can/src/vhu_can.rs:132-209 | a guest frame is accepted exactly by these bits, features and lengths, a refusal names a fault it has, and the bus word carries id and flags |
| CanFrames.RxExactly | vhost-device-can/src/vhu_can.rs:211-301 | a bus frame is accepted exactly by these bits, features and lengths, an error frame is refused as bus-off or unknown by its bit, and id and flags come apart again |
| CanFrames.TxRxRoundTrip | vhost-device-can/src/vhu_can.rs:132-301 | any accepted guest frame carried by the bus is accepted back on every interface with the same id, flags and length, and the same payload exactly when it was zero past its length |
| CanFrames.RxTxRoundTrip | vhost-device-can/src/vhu_can.rs:132-301 | any frame delivered to the guest would be accepted if sent back; the bus id returns exactly when it had no stray bits, the type is FD exactly when it counted as FD |
| CanFrames.RemoteFlagOfStandardFrameIsDropped | vhost-device-can/src/can.rs:245-261 | the id handed to the socket is the checked one exactly for extended or non-remote frames |
| CanFrames.RemoteRequestLosesFlag | vhost-device-can/src/can.rs:256-260 | a remote request for standard id 1 is accepted and handed over as a data request |
| CanFrames.CanController.CheckRxFrame | vhost-device-can/src/vhu_can.rs:211-301 | accepted exactly by the bits; bus-off exactly for error bit and bus-off bit, which marks and stops the controller; nothing else changes it |
| DeviceLists.ParseUnsignedExactly | vhost-device-i2c/src/main.rs:171-177 | a number is accepted exactly as an optional plus sign and digits of a value that fits, which it returns |
| DeviceLists.ValueIsDecimal | vhost-device-i2c/src/main.rs:171-177 | the value is the decimal one |
| DeviceLists.ParseUnsignedFault | vhost-device-i2c/src/main.rs:171-177 | a refused number is empty, has a character that is no digit, or a leading part too large, as the error says |
| DeviceLists.SplitJoins | vhost-device-i2c/src/main.rs:165-169 | the tokens contain no separator and joined give the text |
| DeviceLists.SplitUndoesJoin | vhost-device-i2c/src/main.rs:165-169 | and any such tokens come back from their joined text |
| DeviceLists.TrimExactly | vhost-device-i2c/src/main.rs:105-110 | a name loses the whitespace at its ends and nothing else |
| DeviceLists.IdentifierExactly | vhost-device-i2c/src/main.rs:171-174 | a 32-bit number names a bus by number, any other text by its trimmed name |
| DeviceLists.IsAddressExactly | vhost-device-i2c/src/main.rs:112-115 | an address is a number up to 128, of that value |
| DeviceLists.MeaningExactly | vhost-device-i2c/src/main.rs:168-179 | an entry means its first token as the bus and the others as addresses, in order |
| DeviceLists.ReadAddressesFault | vhost-device-i2c/src/main.rs:176-179 | a refused entry is refused for its first token at fault, with that fault |
| DeviceLists.ReadEntryExactly | vhost-device-i2c/src/main.rs:168-179 | an entry is accepted exactly when its addresses are numbers up to 128 without repetition, and is read as written |
| DeviceLists.PushDeviceExactly | vhost-device-i2c/src/main.rs:145-158 | a device is taken exactly when the configuration with it has no adapter or address twice |
| DeviceLists.ReadListExactly | vhost-device-i2c/src/main.rs:164-184 | a list is accepted exactly when every entry is readable, adapters differ and each address occurs once overall; the configuration is what the text says |
| DeviceLists.DeviceConfig.Push | vhost-device-i2c/src/main.rs:112-123 | an address is appended, or refused with its error and no change |
| DeviceLists.AdapterConfig.Push | vhost-device-i2c/src/main.rs:145-158 | a device is appended, or refused for its adapter or its first taken address with no change |
| DeviceLists.TryFrom | vhost-device-i2c/src/main.rs:161-186 | reading entry by entry gives what the list means or its first error, and never an ambiguous configuration |
| I2cMaps.LinearSearch | vhost-device-i2c/src/i2c.rs:597-606 | the first adapter that lists the address, if any does |
| I2cMaps.SetUpErrorExactly | vhost-device-i2c/src/i2c.rs:573-581 | setting up succeeds exactly when every kernel call does, and fails with the first that does not |
| I2cMaps.New | vhost-device-i2c/src/i2c.rs:566-595 | the map gives adapter i for an address exactly when adapter i lists it, or the first kernel failure is returned |
| I2cMaps.IndexIsLinearSearch | vhost-device-i2c/src/i2c.rs:573-606 | such a map agrees with a linear search on every address |
| I2cMaps.IndexNeedsUnambiguousAddresses | vhost-device-i2c/src/main.rs:150-154 | no such map exists when an address is on two adapters |
| I2cMaps.RoutedByEntry | vhost-device-i2c/src/main.rs:164-184 | an address named in entry i of an accepted list is routed to adapter i, whatever its spelling |
| I2cMaps.I2cMap.Transfer | vhost-device-i2c/src/i2c.rs:597-614 | the adapter a linear search finds, and no other, gets the address and all requests; an unlisted address touches none; the index stays in range |

## Left out

- Daemon start-up, command lines, socket paths, epoll, event notifiers and the vhost-user feature getters: plumbing with easy claims only.
- The vsock, scsi, sound, scmi, spi, video, gpu and console devices, and media sessions: no part of this model.
- vm-memory and virtio-queue: guest memory is a map from address to byte whose accesses stop at the first unmapped address and do nothing for length 0; chains are sequences of extents; used entries are a log.
- libgpiod, evdev, socketcan, ioctl, clock and random-source calls: their answers are parameters; a sleep lasts at least its argument and a read returns at most what was asked.
- Threads: everything done under one lock acquisition is one action, so data races inside it are not in question; fairness, `notify_one` wake-ups and any liveness of RTC workers and GPIO waiters are not modelled, and any waiting worker may look again at any time.
- Allocator.MediaAllocator: the BTreeSet of regions is the sequence it iterates over; an overflow is the error `Overflow` where a checked build panics, and a wrapping build is not modelled.
- DescriptorChains.DescriptorChainWriter.constructor: takes chains of at most 2^32 - 1 bytes, which is what the queue yields; the count of written bytes is a u32.
- DescriptorChains.DescriptorChainWriter.WriteAll: the retry loop is the one of the standard library's `write_all`, without the retry on an interrupted call, which these writers never return; likewise `ReadExact`. Over chains with empty descriptors neither says which error is returned.
- RtcAlarms: writing the notification may fail after the buffer was taken; the buffer then counts as taken with `delivered` false. Poisoning of the device lock and clocks other than their readings are not modelled.
- GpioEvents: the polling loop around `wait_for_interrupt` is the choice of when a waiter answers and what; failures to write the response are only logged by the source and do not appear.
- GpioEvents.GpioBackend.NextBuffer: what reading a buffer's first descriptor gives is part of the buffer. A malformed request on the other queue is the action `FailRequest`, which only ends the loop. What a frontend that reconnects finds is not modelled.
- GPIO direction and value requests: per-line state with easy claims only.
- RngLimiter.RngBackend.constructor: takes the periods that the configuration accepts, 1 to 65536 ms; the source's constructor checks none.
- RngLimiter.TotalWithinConfigured: covers backends that are created once; the source makes a new one with a full quota for every reconnecting guest.
- InputBatcher.InputBackend.ProcessEvent: an event written to a buffer that then fails to reach the used ring counts as not delivered.
- InputBatcher.InputBackend.ProcessQueue: fetched means fetched by this call; without the event-index feature `handle_event` fetches and discards events (`vhost-device-input/src/vhu_input.rs:410-413`), which is not modelled.
- CanFrames.TxRxRoundTrip: takes the bus as lossless from the checked frame on; the id cut in `can_out` is stated separately. The read thread, its fifo and the control requests are not modelled.
- DeviceLists.TryFrom: `split`, `trim` and `parse` of the standard library are written out; a name that trims to digits stays a name and differs from the number.
- I2cMaps.I2cMap.Transfer: needs at least one request, as the queue handler supplies; the SMBus encoding inside an adapter is a parameter.
