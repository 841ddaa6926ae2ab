# System controller timers, power-control manager and IPC multi-instance layer

This project models three parts of a Zephyr-based nRF system controller and
proves properties of each model.

1. **The virtual timer multiplexer.** `tmr_mngr` runs up to eight virtual
   timers (one-shot or periodic) on the single compare register CC[0] of the
   nRF52 RTC0. It keeps the armed timers in a binary tree ordered by
   deadline (`pot`, a pointer array sifted by `rebase_push` and
   `rebase_pop`). It hands out slots from an allocation bitmask. In the
   compare interrupt it expires every due timer, reloads the periodic ones
   and re-arms CC[0] for the new root. The internal timer service
   `tmr_srv_int` sits on top: it keeps one callback per request source and
   starts timeouts as one-shot timers whose 32-bit context carries the
   source.
2. **The power-control manager (PCM).** This covers the translators from
   sleep and performance requests to power requests, the algorithm that
   prices a traversal to a resource mode, the dispatcher that answers
   events, and the scheduler pool of delayed returns.
3. **The OpenAMP multi-instance IPC layer.** This covers the shared-memory
   layout macros, the per-instance shared-memory configuration, instance
   and endpoint initialisation, the endpoint and instance free lists,
   `ipc_send`, and the receive loop with its zero-length-message handshake.

Files and modules:

- `base.dfy` (`Base`): fixed-width integers, wrapping C arithmetic,
  `Option`, and the Zephyr errno values.
- `bitmask.dfy` (`Bitmask`): the `nrf_bitmask` bit operations the manager
  uses on its byte masks.
- `pot_element.dfy` (`PotElement`): the tree element (`pot_element_t`) and
  `pot_compare_elems`.
- `pot.dfy` (`Pot`): the sift routines as functions on the array contents,
  their permutation and heap-order properties, and the class `Tree` over
  the pointer array.
- `tmr_backend.dfy` (`TmrBackend`): the RTC0 backend. The counter is an
  input, the registers are fields of the class `Rtc`.
- `timer_state.dfy` (`TimerState`): the whole manager state as a value
  (`Timers`), one `After*` function per operation, and the lemmas about
  them. These include the invariant every operation keeps and the
  behaviour of the compare interrupt.
- `tmr_mngr.dfy` (`TmrMngr`): the class `TimerManager` with the manager's
  static arrays. Each method's postcondition ties its new state to the
  matching `After*` function.
- `tmr_srv_int.dfy` (`TmrSrvInt`): the internal timer service.
- `pm_types.dfy`, `pcm_translators.dfy`, `pcm_algorithm.dfy`,
  `pcm_scheduler.dfy`, `pcm_dispatcher.dfy`: the PCM.
- `multi_instance_h.dfy` (`MultiInstanceH`) and `multi_instance.dfy`
  (`MultiInstance`): the IPC layer.

Behaviour of the firmware that the model keeps as written, not as intended:

- `rebase_pop` looks at a node only when both of its children are in use,
  so a lone left child is never compared (`Pot.PopBreaksHeapOrder`).
- `pot_remove` sifts down only, never up (`Pot.RemoveBreaksHeapOrder`).
- `pot_pop` has no empty check.
- The outer loop of the compare interrupt ends only by arming CC[0], so it
  never ends on an empty tree (`TimerState.LastTimerHangs`).
- `tmr_mngr_start` leaves a rejected slot allocated (`TimerState.StartLeaks`).
- Expiry and the deferred stop never reset `state`
  (`TimerState.StopAfterExpiry`).
- `time_callback` hands the dispatcher the return of entry 0 whatever id
  fired.
- In `ipc_configure_shmem` the local size is computed in wrapping unsigned
  arithmetic (`MultiInstance.ShmemSizeWraps`).

Where a comment and the code disagree, the model follows the code. A
comment in multi_instance.c (line 168) calls the status region one byte,
but `VDEV_STATUS_SIZE` in multi_instance.h is 4 (line 36), and 4 is what
the model uses.

## Model

| member | source | states |
|---|---|---|
| Base.AddU64 | samples/sysctrl/src/modules/pot/tmr_mngr.c:71 | 64-bit unsigned addition wraps modulo 2^64 and stays below 2^64 |
| Base.AddU32 | lib/open-amp/multi_instance/multi_instance.c:188 | the uint32_t sum equals the mathematical sum when it is below 2^32 |
| Base.TruncU32 | samples/sysctrl/src/modules/pot/tmr_mngr_backend_nrf52.c:23 | the uint32_t cast keeps every value below 2^32 unchanged |
| Bitmask.ByteSet | samples/sysctrl/src/modules/pot/tmr_mngr.c:32 | setting bit k of a byte sets bit k and keeps every other bit |
| Bitmask.ByteClear | samples/sysctrl/src/modules/pot/tmr_mngr.c:46 | clearing bit k of a byte clears bit k and keeps every other bit |
| Bitmask.SplitIndex | samples/sysctrl/src/modules/pot/tmr_mngr.c:29-30 | two bit indices are equal exactly when their byte index and bit offset are |
| Bitmask.SetAt | samples/sysctrl/src/modules/pot/tmr_mngr.c:32 | after nrf_bitmask_bit_set(i), bit j is set iff j == i or it was set before |
| Bitmask.ClearAt | samples/sysctrl/src/modules/pot/tmr_mngr.c:46 | after nrf_bitmask_bit_clear(i), bit j is set iff j != i and it was set before |
| Bitmask.Set | samples/sysctrl/src/modules/pot/tmr_mngr.c:32 | nrf_bitmask_bit_set keeps the mask length, sets bit i and keeps all other bits |
| Bitmask.Clear | samples/sysctrl/src/modules/pot/tmr_mngr.c:46 | nrf_bitmask_bit_clear keeps the mask length, clears bit i and keeps all other bits |
| PotElement.Compare | samples/sysctrl/src/modules/pot/pot_element.h:17-20 | the comparison yields 1 exactly when p1's deadline is not later than p2's, else 0 |
| PotElement.CompareKeyOnly | samples/sysctrl/src/modules/pot/pot_element.h:17-20 | only next_cc_value takes part: elements with equal deadlines compare alike against any element |
| PotElement.CompareTotal | samples/sysctrl/src/modules/pot/pot_element.h:17-20 | for any two elements one may precede the other, and equal deadlines precede each other both ways |
| PotElement.CompareTransitive | samples/sysctrl/src/modules/pot/pot_element.h:17-20 | "may precede" is transitive, so the comparison is a total preorder |
| Pot.CompareIsLe | samples/sysctrl/src/modules/pot/pot_element.h:17-20 | pot_compare_elems on two tree entries returns 1 exactly when the first may precede the second |
| Pot.Swap | samples/sysctrl/src/modules/pot/pot.c:25-27 | the swap keeps the length of the array contents (that it exchanges exactly the two entries is SwapFacts) |
| Pot.SwapFacts | samples/sysctrl/src/modules/pot/pot.c:25-27 | a swap is a permutation that changes only the two indices |
| Pot.SiftUp | samples/sysctrl/src/modules/pot/pot.c:9-35 | rebase_push on the array contents keeps their length; its permutation, frame, root and order are stated by SiftUpFacts, SiftUpRoot and SiftUpRestores |
| Pot.SiftUpFacts | samples/sysctrl/src/modules/pot/pot.c:9-35 | rebase_push permutes the entries and leaves those from index i on unchanged |
| Pot.SiftUpRoot | samples/sysctrl/src/modules/pot/pot.c:9-35 | the root after rebase_push(i) is the old root or the entry that was at index i - 1 |
| Pot.SiftDown | samples/sysctrl/src/modules/pot/pot.c:37-84 | rebase_pop on the array contents keeps their length; its permutation and frame are SiftDownFacts and SiftDownPacked |
| Pot.SiftDownFacts | samples/sysctrl/src/modules/pot/pot.c:37-84 | rebase_pop permutes the entries and changes only indices from i - 1 below write |
| Pot.LeftStep | samples/sysctrl/src/modules/pot/pot.c:59-66 | the left-child step keeps the length of the array contents; its permutation and frame are LeftStepFacts |
| Pot.LeftStepFacts | samples/sysctrl/src/modules/pot/pot.c:59-66 | the left step permutes the entries and changes only indices from i - 1 below write |
| Pot.RightStep | samples/sysctrl/src/modules/pot/pot.c:67-83 | the right-child step keeps the length of the array contents; its permutation and frame are RightStepFacts |
| Pot.RightStepFacts | samples/sysctrl/src/modules/pot/pot.c:67-83 | the right step permutes the entries and changes only indices from i - 1 below write |
| Pot.PushFacts | samples/sysctrl/src/modules/pot/pot.c:97-112 | appending x and sifting up keeps the entries packed, adds exactly x to them, and leaves x or the old root at the root |
| Pot.AppendedPacked | samples/sysctrl/src/modules/pot/pot.c:106-107 | writing an entry at write and incrementing keeps the entries packed and adds that entry |
| Pot.PermutedPacked | samples/sysctrl/src/modules/pot/pot.c:9-84 | permuting the entries in use while keeping the rest keeps the tree packed |
| Pot.RemoveResult | samples/sysctrl/src/modules/pot/pot.c:153-161 | the contents after pot_remove keep their length; RemoveFacts states that write - 1 packed entries remain, the old ones without the one at f |
| Pot.PopResult | samples/sysctrl/src/modules/pot/pot.c:114-125 | the contents after pot_pop keep their length; it is the removal at index 0, so RemoveFacts applies (TimerState.ExpireTree) |
| Pot.RemoveFacts | samples/sysctrl/src/modules/pot/pot.c:153-161 | moving the last entry to f and sifting down leaves write - 1 packed entries: the old ones without the one at f |
| Pot.MovedPacked | samples/sysctrl/src/modules/pot/pot.c:155-157 | moving the last entry to f and nulling its place leaves write - 1 packed entries without the one at f |
| Pot.SiftDownPacked | samples/sysctrl/src/modules/pot/pot.c:37-84 | rebase_pop keeps the entries packed and permutes the prefix in use |
| Pot.FoundInPrefix | samples/sysctrl/src/modules/pot/pot.c:144-151 | the first match of the scan over arr_size entries lies below write and is the first occurrence there |
| Pot.NotInPrefix | samples/sysctrl/src/modules/pot/pot.c:144-151 | a scan that finds nothing means the element is not among the entries in use |
| Pot.RemovedPrefix | samples/sysctrl/src/modules/pot/pot.c:155-157 | the prefix after the move is the old prefix with the entry at f taken out (as a multiset) |
| Pot.IndexOf | samples/sysctrl/src/modules/pot/pot.c:144-151 | the first index holding x, or the length when x is absent; no earlier index holds x |
| Pot.RootIsMinimum | samples/sysctrl/src/modules/pot/pot.c:127-137 | in a heap-ordered tree the root returned by pot_get has the least deadline of all entries in use |
| Pot.SiftUpStep | samples/sysctrl/src/modules/pot/pot.c:23-29 | one swap of rebase_push moves the only break in heap order from above index c to above its parent |
| Pot.SiftUpRestores | samples/sysctrl/src/modules/pot/pot.c:9-35 | rebase_push restores heap order when the only break is above the entry being sifted |
| Pot.PushKeepsHeapOrder | samples/sysctrl/src/modules/pot/pot.c:97-112 | pot_push on a heap-ordered tree leaves it heap-ordered |
| Pot.PopBreaksHeapOrder | samples/sysctrl/src/modules/pot/pot.c:50-55 | counterexample: pot_pop on the heap [1,3,5] leaves [5,3], which is not heap-ordered, because a lone left child is never compared |
| Pot.RemoveTreeIsHeap | samples/sysctrl/src/modules/pot/pot.c:139-163 | the tree with deadlines [1,10,2,11,12,3] is heap-ordered (the start of the next counterexample) |
| Pot.RemoveBreaksHeapOrder | samples/sysctrl/src/modules/pot/pot.c:159 | counterexample: removing the entry with deadline 11 moves 3 under 10 and pot_remove never sifts it up, so heap order is lost |
| Pot.PrefixPermutation | samples/sysctrl/src/modules/pot/pot.c:37-84 | a permutation that keeps everything from write on permutes the prefix in use |
| Pot.Tree.Unattached | samples/sysctrl/src/modules/pot/pot.c:5-7 | before pot_init no array is attached, write is 0 and the tree is empty |
| Pot.Tree.Init | samples/sysctrl/src/modules/pot/pot.c:86-95 | pot_init attaches the array, sets arr_size, nulls its first size entries and empties the tree |
| Pot.Tree.RebasePush | samples/sysctrl/src/modules/pot/pot.c:9-35 | the array afterwards equals SiftUp of the old contents from index i |
| Pot.Tree.RebasePop | samples/sysctrl/src/modules/pot/pot.c:37-84 | the array afterwards equals SiftDown of the old contents from index i with write entries in use |
| Pot.Tree.RebasePopLeft | samples/sysctrl/src/modules/pot/pot.c:59-66 | the array afterwards equals LeftStep of the old contents |
| Pot.Tree.RebasePopRight | samples/sysctrl/src/modules/pot/pot.c:67-83 | the array afterwards equals RightStep of the old contents |
| Pot.Tree.Push | samples/sysctrl/src/modules/pot/pot.c:97-112 | -1 and nothing changed on a full tree; otherwise 0, write + 1, the contents gain the element, the array is SiftUp of the appended array |
| Pot.Tree.Pop | samples/sysctrl/src/modules/pot/pot.c:114-125 | returns the old root, write - 1, contents lose the root, array equals PopResult of the old array |
| Pot.Tree.Get | samples/sysctrl/src/modules/pot/pot.c:127-137 | NULL exactly when the tree is empty (as it is before pot_init); otherwise entry 0, which is in use |
| Pot.Tree.Remove | samples/sysctrl/src/modules/pot/pot.c:139-163 | -1 and nothing changed when the element is not in use; otherwise 0, write - 1, contents lose one copy, array equals RemoveResult at the first index found |
| TmrBackend.ConstrCheck | samples/sysctrl/src/modules/pot/tmr_mngr_backend_nrf52.c:61-70 | the deadline is accepted exactly when it lies at least 4 ticks after the counter |
| TmrBackend.SyncAccepts | samples/sysctrl/src/modules/pot/tmr_mngr_backend_nrf52.c:18 | the sync handler accepts exactly the deadlines at least 3 ticks after the counter |
| TmrBackend.CcAccepts | samples/sysctrl/src/modules/pot/tmr_mngr_backend_nrf52.c:34 | the plain handler accepts exactly the deadlines strictly after the counter |
| TmrBackend.MarginsNested | samples/sysctrl/src/modules/pot/tmr_mngr_backend_nrf52.c:13-70 | what constr_check accepts, cc_sync accepts; what cc_sync accepts, cc accepts |
| TmrBackend.CntGet | samples/sysctrl/src/modules/pot/tmr_mngr_backend_nrf52.c:56-59 | the 64-bit counter reading equals the 32-bit register value and stays below 2^32 |
| TmrBackend.Rtc.constructor | samples/sysctrl/src/modules/pot/tmr_mngr_backend_nrf52.c:81-95 | the peripheral before tmr_back_init: all registers zero, stopped |
| TmrBackend.Rtc.Init | samples/sysctrl/src/modules/pot/tmr_mngr_backend_nrf52.c:81-95 | prescaler 0 and the counter running; compare state kept |
| TmrBackend.Rtc.Arm | samples/sysctrl/src/modules/pot/tmr_mngr_backend_nrf52.c:23-25 | CC[0] holds the low 32 bits of the deadline, interrupt and event are enabled, the rest is kept |
| TmrBackend.Rtc.CcSync | samples/sysctrl/src/modules/pot/tmr_mngr_backend_nrf52.c:13-28 | 0 and CC[0] armed with the deadline exactly when SyncAccepts holds, else -EPERM and the registers unchanged |
| TmrBackend.Rtc.CcSet | samples/sysctrl/src/modules/pot/tmr_mngr_backend_nrf52.c:30-45 | 0 and CC[0] armed with the deadline exactly when CcAccepts holds, else -EPERM and the registers unchanged |
| TmrBackend.Rtc.Stop | samples/sysctrl/src/modules/pot/tmr_mngr_backend_nrf52.c:51-54 | the counter is stopped and every other register is kept |
| TmrBackend.Rtc.TakeCompareEvent | samples/sysctrl/src/modules/pot/tmr_mngr_backend_nrf52.c:74-76 | reports whether COMPARE[0] was pending and leaves it clear; other registers kept |
| TimerState.AllAvailable | samples/sysctrl/src/modules/pot/tmr_mngr_config.h:13-16 | TMR_MNGR_AVAL_TIMERS (0xFF) marks every one of the eight slots available |
| TimerState.FirstFree | samples/sysctrl/src/modules/pot/tmr_mngr.c:23-39 | the first-fit scan from i returns -ENOMEM or an index from i on below TMR_MNGR_NUM (8) |
| TimerState.FirstFreeNone | samples/sysctrl/src/modules/pot/tmr_mngr.c:23-39 | the scan returns -ENOMEM exactly when no slot from i on is available and unallocated |
| TimerState.FirstFreeFound | samples/sysctrl/src/modules/pot/tmr_mngr.c:29-34 | the slot the scan returns is available and not allocated |
| TimerState.FirstFreeFirst | samples/sysctrl/src/modules/pot/tmr_mngr.c:27-36 | no slot the scan passed over is allocatable |
| TimerState.FirstFreeIsLowest | samples/sysctrl/src/modules/pot/tmr_mngr.c:23-39 | tmr_mngr_alloc yields the lowest allocatable index, and -ENOMEM exactly when there is none |
| TimerState.FreeMask | samples/sysctrl/src/modules/pot/tmr_mngr.c:41-48 | the mask after tmr_mngr_free keeps its one byte; its bit effect is FreeClearsOnly and FreeIdempotent |
| TimerState.FreeClearsOnly | samples/sysctrl/src/modules/pot/tmr_mngr.c:41-48 | after tmr_mngr_free(i) bit i is clear and every other bit is as before |
| TimerState.FreeIdempotent | samples/sysctrl/src/modules/pot/tmr_mngr.c:41-48 | freeing a slot twice leaves the same mask as freeing it once |
| TimerState.RoomFor | samples/sysctrl/src/modules/pot/pot.c:100 | eight distinct slots without slot k are fewer than eight entries |
| TimerState.AllocatedIff | samples/sysctrl/src/modules/pot/tmr_mngr.c:21 | a slot is in the allocated set exactly when its bit in allocated_timers is set |
| TimerState.AllocatedSet | samples/sysctrl/src/modules/pot/tmr_mngr.c:32 | setting bit i adds slot i to the allocated set and nothing else |
| TimerState.AllocatedFree | samples/sysctrl/src/modules/pot/tmr_mngr.c:41-48 | freeing slot i removes slot i from the allocated set and nothing else |
| TimerState.FreeSlotFacts | samples/sysctrl/src/modules/pot/tmr_mngr.c:23-39 | the scan fails exactly when all eight slots are allocated, otherwise finds the lowest slot not allocated |
| TimerState.ConsistentSlot | samples/sysctrl/src/modules/pot/tmr_mngr.c:164-177 | rewriting a slot without touching its reload flag keeps tree, flags and mask consistent |
| TimerState.ConsistentAlloc | samples/sysctrl/src/modules/pot/tmr_mngr.c:32 | allocating one more slot keeps consistency |
| TimerState.ConsistentPush | samples/sysctrl/src/modules/pot/tmr_mngr.c:189 | pushing an allocated slot that is neither queued nor waiting keeps consistency |
| TimerState.ConsistentClear | samples/sysctrl/src/modules/pot/tmr_mngr.c:105 | clearing a reload flag keeps consistency |
| TimerState.ConsistentRemove | samples/sysctrl/src/modules/pot/tmr_mngr.c:253 | taking an entry out of the tree keeps consistency |
| TimerState.ConsistentFree | samples/sysctrl/src/modules/pot/tmr_mngr.c:263 | freeing a slot that is neither queued nor waiting keeps consistency |
| TimerState.ConsistentExpire | samples/sysctrl/src/modules/pot/tmr_mngr.c:61-84 | popping a slot and rescheduling or freeing it keeps consistency |
| TimerState.ConsistentReload | samples/sysctrl/src/modules/pot/tmr_mngr.c:103-107 | pushing back a waiting slot with its flag cleared keeps consistency |
| TimerState.RootFacts | samples/sysctrl/src/modules/pot/pot.c:127-137 | pot_get returns NULL exactly for an empty tree, otherwise a queued slot |
| TimerState.SlotKeepsInv | samples/sysctrl/src/modules/pot/tmr_mngr.c:164-177 | rewriting slot k without touching its reload flag or timer_id keeps the invariant |
| TimerState.Room | samples/sysctrl/src/modules/pot/pot.c:100 | while slot k is not queued the tree has room, so pot_push of k cannot be refused |
| TimerState.AfterPush | samples/sysctrl/src/modules/pot/pot.c:97-112 | pot_push on the manager state keeps the sizes of the static arrays; root and contents are PushRoot and PushKeepsInv |
| TimerState.PushRoot | samples/sysctrl/src/modules/pot/pot.c:97-112 | after a push the root is the pushed slot or the old root |
| TimerState.PushKeepsInv | samples/sysctrl/src/modules/pot/tmr_mngr.c:189 | pushing an allocated slot that is neither queued nor waiting keeps the invariant and queues it exactly once |
| TimerState.AfterReconfig | samples/sysctrl/src/modules/pot/tmr_mngr.c:160-201 | vrtc_reconfig keeps the allocation mask and returns 0, -EFAULT or -EPERM |
| TimerState.AfterPushSync | samples/sysctrl/src/modules/pot/tmr_mngr.c:189-198 | the push-and-resync tail keeps the allocation mask and returns 0 or the -EPERM of the sync handler |
| TimerState.ReconfigCases | samples/sysctrl/src/modules/pot/tmr_mngr.c:181-198 | -EFAULT exactly when constr_check rejects the deadline; otherwise 0, and CC[0] is re-armed with the new deadline exactly when the root changed |
| TimerState.ReconfigKeepsInv | samples/sysctrl/src/modules/pot/tmr_mngr.c:160-201 | vrtc_reconfig of a free, allocated slot keeps the invariant |
| TimerState.ReconfigQueues | samples/sysctrl/src/modules/pot/tmr_mngr.c:160-201 | vrtc_reconfig rewrites slot k only and queues it exactly when it returns 0 |
| TimerState.ReconfigResult | samples/sysctrl/src/modules/pot/tmr_mngr.c:160-201 | a deadline inside the margin gives -EFAULT with only the slot rewritten; otherwise 0 with the slot queued, and CC[0] changes only when the slot became the root |
| TimerState.AfterStart | samples/sysctrl/src/modules/pot/tmr_mngr.c:203-232 | tmr_mngr_start returns a slot index below TMR_MNGR_NUM, -EPERM or -EFAULT |
| TimerState.AllocKeepsInv | samples/sysctrl/src/modules/pot/tmr_mngr.c:206-215 | the slot tmr_mngr_alloc hands out is free and not queued, and the state after allocating it and writing its context is consistent |
| TimerState.StartKeepsInv | samples/sysctrl/src/modules/pot/tmr_mngr.c:203-232 | tmr_mngr_start keeps the invariant |
| TimerState.StartRefused | samples/sysctrl/src/modules/pot/tmr_mngr.c:206-211 | tmr_mngr_start returns -EPERM and changes nothing exactly when all slots are allocated |
| TimerState.StartCases | samples/sysctrl/src/modules/pot/tmr_mngr.c:218-228 | the result of tmr_mngr_start is the slot index on a successful reconfiguration and the reconfiguration's error otherwise |
| TimerState.StartAllocates | samples/sysctrl/src/modules/pot/tmr_mngr.c:206-224 | a successful start returns the lowest slot that was free, and that slot is now allocated |
| TimerState.StartArms | samples/sysctrl/src/modules/pot/tmr_mngr.c:213-224 | a successful start queues the slot once, gives it the deadline, mode, context and ARMED state, and changes no other slot |
| TimerState.SlotEdits | samples/sysctrl/src/modules/pot/tmr_mngr.c:215-227 | the three writes tmr_mngr_start makes to its slot combine to one slot update |
| TimerState.StartLeaks | samples/sysctrl/src/modules/pot/tmr_mngr.c:225-228 | a start whose deadline is inside the margin returns -EFAULT and resets the context, but the slot stays allocated while neither queued nor armed |
| TimerState.AfterRemove | samples/sysctrl/src/modules/pot/pot.c:139-163 | the flag is set exactly when slot k is among the entries in use; then write drops by one and the slots, the mask and CC[0] are kept; otherwise nothing changes |
| TimerState.RemoveKeepsInv | samples/sysctrl/src/modules/pot/pot.c:139-163 | removing slot k takes its single entry out of the tree, keeps the invariant and changes nothing but the tree; found exactly when k was queued |
| TimerState.RemoveFound | samples/sysctrl/src/modules/pot/pot.c:153-161 | the queued-slot case of RemoveKeepsInv |
| TimerState.FreeKeepsInv | samples/sysctrl/src/modules/pot/tmr_mngr.c:41-48 | freeing a slot that is neither queued nor waiting keeps the invariant |
| TimerState.AfterStop | samples/sysctrl/src/modules/pot/tmr_mngr.c:234-268 | tmr_mngr_stop returns 0, -EPERM, -EINPROGRESS or -EFAULT |
| TimerState.AfterCancel | samples/sysctrl/src/modules/pot/tmr_mngr.c:250-264 | the cancelling branch returns 0 or -EFAULT, never grows the tree and leaves CC[0], its interrupt and its event as they were |
| TimerState.StopKeepsInv | samples/sysctrl/src/modules/pot/tmr_mngr.c:234-268 | tmr_mngr_stop keeps the invariant |
| TimerState.StopDefers | samples/sysctrl/src/modules/pot/tmr_mngr.c:237-249 | a slot that is not ARMED gets -EPERM and nothing changes; an ARMED slot inside the margin only becomes STOPPED (-EINPROGRESS) and stays queued and allocated |
| TimerState.StopCancels | samples/sysctrl/src/modules/pot/tmr_mngr.c:250-264 | otherwise the slot leaves the tree, becomes IDLE and is freed; 0 when it was queued, -EFAULT when not |
| TimerState.StopLastLeavesCcArmed | samples/sysctrl/src/modules/pot/tmr_mngr.c:250-264 | a safe stop of the only queued timer empties the tree (pot_get gives NULL) but leaves CC[0], its interrupt and its event armed, so the old deadline can still fire |
| TimerState.AfterExpire | samples/sysctrl/src/modules/pot/tmr_mngr.c:61-97 | popping the root leaves one entry fewer in the tree |
| TimerState.ExpireKeepsInv | samples/sysctrl/src/modules/pot/tmr_mngr.c:61-84 | popping the root keeps the invariant and takes its single entry out of the tree |
| TimerState.ExpireTree | samples/sysctrl/src/modules/pot/tmr_mngr.c:61 | pot_pop takes the root out of the packed entries, one entry fewer |
| TimerState.ExpireContinues | samples/sysctrl/src/modules/pot/tmr_mngr.c:87-97 | the inner loop goes on exactly while an entry is left whose deadline is not after the counter |
| TimerState.ExpireResult | samples/sysctrl/src/modules/pot/tmr_mngr.c:61-84 | the popped slot's context is handed out exactly when it was ARMED; a periodic one moves on by one interval and waits for the reload, any other is freed; CC[0] is untouched |
| TimerState.AfterDrain | samples/sysctrl/src/modules/pot/tmr_mngr.c:58-98 | the inner loop keeps the invariant |
| TimerState.Handed | samples/sysctrl/src/modules/pot/tmr_mngr.c:63-65 | a pass hands out at most one context, and none exactly when the popped slot was not ARMED |
| TimerState.DrainUnfold | samples/sysctrl/src/modules/pot/tmr_mngr.c:58-98 | the inner loop is one expiry followed by the rest of the loop |
| TimerState.DrainTakesDue | samples/sysctrl/src/modules/pot/tmr_mngr.c:58-98 | when the inner loop ends no entry due by the counter is left, and at least the first root is gone |
| TimerState.DrainShrinks | samples/sysctrl/src/modules/pot/tmr_mngr.c:58-98 | the inner loop only takes entries out of the tree and only frees slots; CC[0] is untouched |
| TimerState.DrainSlot | samples/sysctrl/src/modules/pot/tmr_mngr.c:58-98 | each slot the inner loop touches was queued, is expired exactly once and is out of the tree afterwards |
| TimerState.DrainSlots | samples/sysctrl/src/modules/pot/tmr_mngr.c:58-98 | every slot after the inner loop is unchanged, or was queued, is no longer queued and is expired once |
| TimerState.ReloadOne | samples/sysctrl/src/modules/pot/tmr_mngr.c:103-107 | one reload step keeps the sizes of the static arrays; its effect is ReloadOneFrame and ReloadStep |
| TimerState.AfterReload | samples/sysctrl/src/modules/pot/tmr_mngr.c:101-108 | the reload loop keeps the sizes of the static arrays; its effect is ReloadKeepsInv, ReloadFrame, ReloadSlot and ReloadQueues |
| TimerState.ReloadOneFrame | samples/sysctrl/src/modules/pot/tmr_mngr.c:103-107 | one step clears flag i and changes no other slot, the mask or CC[0] |
| TimerState.ReloadStep | samples/sysctrl/src/modules/pot/tmr_mngr.c:103-107 | one step keeps the invariant and queues slot i exactly when it was waiting |
| TimerState.ReloadStepMember | samples/sysctrl/src/modules/pot/tmr_mngr.c:103-107 | seen from slot j: one step queues j exactly when j was queued already or is slot i and was waiting |
| TimerState.ReloadKeepsInv | samples/sysctrl/src/modules/pot/tmr_mngr.c:101-108 | the reload loop leaves no slot waiting and keeps the invariant |
| TimerState.ReloadFrame | samples/sysctrl/src/modules/pot/tmr_mngr.c:101-108 | the reload loop changes neither the mask nor CC[0] |
| TimerState.ReloadSlot | samples/sysctrl/src/modules/pot/tmr_mngr.c:101-108 | the reload loop clears each slot's flag and changes nothing else of it |
| TimerState.ReloadQueues | samples/sysctrl/src/modules/pot/tmr_mngr.c:101-108 | after the reload loop slot j is queued exactly when it was waiting or queued before |
| TimerState.ReloadQuiet | samples/sysctrl/src/modules/pot/tmr_mngr.c:101-108 | with no slot waiting the reload loop changes nothing |
| TimerState.DrainReload | samples/sysctrl/src/modules/pot/tmr_mngr.c:58-108 | the inner loop (when current_process is set) followed by the reload loop leaves no slot waiting; with current_process clear nothing changes |
| TimerState.IrqPass | samples/sysctrl/src/modules/pot/tmr_mngr.c:56-131 | a pass of the outer loop leaves no slot waiting, and it asks for another pass of the inner loop only with an entry left in the tree |
| TimerState.PassCases | samples/sysctrl/src/modules/pot/tmr_mngr.c:113-130 | the outcome of a pass from what the two inner loops left: spin on an empty tree, re-arm when tmr_back_cc_handler accepts the root, retry when it refuses |
| TimerState.PassEnds | samples/sysctrl/src/modules/pot/tmr_mngr.c:113-130 | a pass ends armed only for a root ahead of the counter, retries only with a root already due, and spins exactly when the tree is empty; with nothing to drain on an empty tree it changes nothing |
| TimerState.PassNoNew | samples/sysctrl/src/modules/pot/tmr_mngr.c:56-131 | after a pass every slot holds the same timer, a slot is queued only if it was before, and the allocated set only shrinks |
| TimerState.Spend | samples/sysctrl/src/modules/pot/tmr_mngr.c:56 | the fuel left for the outer loop after one pass is smaller |
| TimerState.AfterIrq | samples/sysctrl/src/modules/pot/tmr_mngr.c:50-132 | the compare IRQ leaves no slot waiting and brings in no new timer; it completes only with CC[0] armed for a root ahead of the counter; with nothing to drain on an empty tree it changes nothing |
| TimerState.IrqUnfold | samples/sysctrl/src/modules/pot/tmr_mngr.c:56-131 | the compare IRQ is one pass followed by the rest of the passes, its contexts appended in order |
| TimerState.PassSlot | samples/sysctrl/src/modules/pot/tmr_mngr.c:58-108 | seen from slot j, the first half of a pass keeps the timer in the slot, and j is queued afterwards only if it was queued before |
| TimerState.PassSlots | samples/sysctrl/src/modules/pot/tmr_mngr.c:58-108 | the first half of a pass brings in no new timer |
| TimerState.ArmedNoNew | samples/sysctrl/src/modules/pot/tmr_mngr.c:113-130 | arming CC[0] brings in no new timer |
| TimerState.LastTimerHangs | samples/sysctrl/src/modules/pot/tmr_mngr.c:56-131 | when the last queued timer is not periodic, the IRQ pops it, reports it when ARMED, frees it and never completes, having nothing to arm CC[0] for |
| TimerState.StopAfterExpiry | samples/sysctrl/src/modules/pot/tmr_mngr.c:74-77 | an expired one-shot timer is freed but stays ARMED, so tmr_mngr_stop answers -EINPROGRESS or -EFAULT for it, never -EPERM |
| TimerState.AfterInit | samples/sysctrl/src/modules/pot/tmr_mngr.c:134-158 | tmr_mngr_init returns 0 exactly when a handler is given, and -EPERM otherwise |
| TimerState.InitFacts | samples/sysctrl/src/modules/pot/tmr_mngr.c:141-152 | after a successful init nothing is queued or allocated, every slot is IDLE with its own index, and (with no slot waiting) the invariant holds |
| TmrMngr.TimerManager.constructor | samples/sysctrl/src/modules/pot/tmr_mngr.c:10-21 | the file-scope statics before init: all zero, RTC at reset |
| TmrMngr.TimerManager.Alloc | samples/sysctrl/src/modules/pot/tmr_mngr.c:23-39 | the result is FirstFree of the mask; on success that bit is set and nothing else changes |
| TmrMngr.TimerManager.MarkAllocated | samples/sysctrl/src/modules/pot/tmr_mngr.c:32 | the mask afterwards is Set of the old mask at i |
| TmrMngr.TimerManager.FreeSlot | samples/sysctrl/src/modules/pot/tmr_mngr.c:41-48 | the mask afterwards is FreeMask of the old mask |
| TmrMngr.TimerManager.Init | samples/sysctrl/src/modules/pot/tmr_mngr.c:134-158 | the state afterwards is AfterInit of the old state; the handler is stored and the RTC started on success |
| TmrMngr.TimerManager.ClearMask | samples/sysctrl/src/modules/pot/tmr_mngr.c:141-144 | every byte of allocated_timers is zero afterwards |
| TmrMngr.TimerManager.ResetSlots | samples/sysctrl/src/modules/pot/tmr_mngr.c:148-152 | every slot is IDLE with timer_id == its index, all else of it unchanged |
| TmrMngr.TimerManager.Reconfig | samples/sysctrl/src/modules/pot/tmr_mngr.c:160-201 | the state and the result equal AfterReconfig of the old state |
| TmrMngr.TimerManager.SetDeadline | samples/sysctrl/src/modules/pot/tmr_mngr.c:170-179 | slot `instance` is Configured with the mode and value; nothing else changes |
| TmrMngr.TimerManager.PushAndSync | samples/sysctrl/src/modules/pot/tmr_mngr.c:189-198 | the state and the result equal AfterPushSync of the old state |
| TmrMngr.TimerManager.Start | samples/sysctrl/src/modules/pot/tmr_mngr.c:203-232 | the state and the result equal AfterStart of the old state, and the invariant is kept |
| TmrMngr.TimerManager.Stop | samples/sysctrl/src/modules/pot/tmr_mngr.c:234-268 | the state and the result equal AfterStop of the old state, and the invariant is kept |
| TmrMngr.TimerManager.Cancel | samples/sysctrl/src/modules/pot/tmr_mngr.c:250-264 | the state and the result equal AfterCancel of the old state |
| TmrMngr.TimerManager.ExpireSlot | samples/sysctrl/src/modules/pot/tmr_mngr.c:63-84 | slot p becomes Expired of itself and is freed when FreedOnExpiry; ctx is its context exactly when it was ARMED |
| TmrMngr.TimerManager.ExpireRoot | samples/sysctrl/src/modules/pot/tmr_mngr.c:61-97 | the state, the handed context and the continue flag equal AfterExpire of the old state |
| TmrMngr.TimerManager.Drain | samples/sysctrl/src/modules/pot/tmr_mngr.c:58-98 | the state and the handed contexts equal AfterDrain of the old state |
| TmrMngr.TimerManager.ReloadEntry | samples/sysctrl/src/modules/pot/tmr_mngr.c:103-107 | the state equals ReloadOne of the old state |
| TmrMngr.TimerManager.Reload | samples/sysctrl/src/modules/pot/tmr_mngr.c:101-108 | the state equals AfterReload from slot 0 of the old state |
| TmrMngr.TimerManager.ArmRoot | samples/sysctrl/src/modules/pot/tmr_mngr.c:116-129 | the RTC state and the result equal tmr_back_cc_handler on the root deadline, and the manager stays valid |
| TmrMngr.TimerManager.Pass | samples/sysctrl/src/modules/pot/tmr_mngr.c:56-131 | the state, contexts and outcome equal IrqPass of the old state |
| TmrMngr.TimerManager.CcIrq | samples/sysctrl/src/modules/pot/tmr_mngr.c:50-132 | the state, the contexts and `done` equal AfterIrq of the old state for the given fuel |
| TmrMngr.TimerManager.RtcIrq | samples/sysctrl/src/modules/pot/tmr_mngr_backend_nrf52.c:72-79 | without a pending COMPARE[0] event nothing changes and no context is handed out; with one, the manager ends as AfterIrq of the old state |
| TmrSrvInt.Pack | samples/sysctrl/src/modules/tmr_srv_int/tmr_srv_int.c:20 | a context packs into the two low bytes of the uint32_t |
| TmrSrvInt.Unpack | samples/sysctrl/src/modules/tmr_srv_int/tmr_srv_int.c:20 | packing the unpacked context gives back the two low bytes of the uint32_t |
| TmrSrvInt.UnpackPack | samples/sysctrl/src/modules/tmr_srv_int/tmr_srv_int.c:20 | a packed context reads back as itself |
| TmrSrvInt.Register | samples/sysctrl/src/modules/tmr_srv_int/tmr_srv_int.c:43-57 | the table keeps its size and the result is 0 or -EEXIST |
| TmrSrvInt.RegisterEffect | samples/sysctrl/src/modules/tmr_srv_int/tmr_srv_int.c:43-57 | 0 exactly when the source was free, then the callback is stored there; otherwise -EEXIST and the table unchanged; no other source changes |
| TmrSrvInt.RegisterOnce | samples/sysctrl/src/modules/tmr_srv_int/tmr_srv_int.c:47-56 | once a source holds a callback every later registration for it is refused with -EEXIST and changes nothing |
| TmrSrvInt.Dispatch | samples/sysctrl/src/modules/tmr_srv_int/tmr_srv_int.c:18-23 | the call the handler makes carries the context decoded from the uint32_t |
| TmrSrvInt.DispatchPacked | samples/sysctrl/src/modules/tmr_srv_int/tmr_srv_int.c:18-23 | a timer started with a packed context reaches its source's callback with that context |
| TmrSrvInt.Deliver | samples/sysctrl/src/modules/tmr_srv_int/tmr_srv_int.c:18-23 | one call per handed-out context, in order, each the Dispatch of that context |
| TmrSrvInt.SetTimeout | samples/sysctrl/src/modules/tmr_srv_int/tmr_srv_int.c:60-68 | -EAGAIN exactly for a context of an unknown source (tmr_mngr_start never returns it), and the static array sizes are kept |
| TmrSrvInt.SetTimeoutResult | samples/sysctrl/src/modules/tmr_srv_int/tmr_srv_int.c:60-68 | -EAGAIN with the manager untouched exactly for an unknown source; otherwise a slot index of an ARMED one-shot timer queued with the timeout and ctx, or -EPERM / -EFAULT |
| TmrSrvInt.IntService.constructor | samples/sysctrl/src/modules/tmr_srv_int/tmr_srv_int.c:16 | the statics before any call: no callback, not initialised |
| TmrSrvInt.IntService.Init | samples/sysctrl/src/modules/tmr_srv_int/tmr_srv_int.c:25-41 | a repeated call returns EEXIST (positive) and touches nothing; the first initialises the manager (AfterInit with a handler) and returns 0 |
| TmrSrvInt.IntService.CallbackRegister | samples/sysctrl/src/modules/tmr_srv_int/tmr_srv_int.c:43-57 | the table and the result equal Register of the old table |
| TmrSrvInt.IntService.SetTimeoutCall | samples/sysctrl/src/modules/tmr_srv_int/tmr_srv_int.c:60-68 | the manager state and the result equal the value-level tmr_srv_set_timeout, and the manager stays valid |
| TmrSrvInt.IntService.Handler | samples/sysctrl/src/modules/tmr_srv_int/tmr_srv_int.c:18-23 | the call made equals Dispatch of the table and the context |
| PcmTranslators.GlobalOffIntoPower | include/pm/pcm/global_off.h:22-33 | domain and time copied, resource = domain, mode 1 exactly for RETENTION_SW and 0 otherwise |
| PcmTranslators.GlobalOffIgnoresLatency | include/pm/pcm/global_off.h:22-33 | the latency never reaches the power request, and all sleep states other than RETENTION_SW translate alike |
| PcmTranslators.GlobalOffInRange | include/pm/pcm/global_off.h:28-29 | the translated mode is always below PM_MODE_NUM, and the resource below PM_RESOURCE_NUM whenever the domain is |
| PcmTranslators.PerformanceIntoPower | include/pm/pcm/performance.h:22-32 | domain, time and mode copied, resource = domain |
| PcmTranslators.PerformanceIgnoresResource | include/pm/pcm/performance.h:22-32 | the request's resource field is never read |
| PcmAlgorithm.AlgorithmRun | subsys/pm/pcm/algorithm.c:15-39 | response OK; the resource is at the requested mode and every other resource keeps its mode; time 100 exactly when stepping down, 0 exactly when unchanged, 10 exactly when stepping up |
| PcmAlgorithm.FreeIffUnchanged | subsys/pm/pcm/algorithm.c:25-36 | a traversal costs 0 exactly when it leaves the state as it was |
| PcmAlgorithm.RunIdempotent | subsys/pm/pcm/algorithm.c:15-39 | repeating a request on its own result costs 0 and changes nothing |
| PcmAlgorithm.LaterRequestWins | subsys/pm/pcm/algorithm.c:36 | of two requests for one resource the later one decides the state |
| PcmAlgorithm.DistinctResourcesCommute | subsys/pm/pcm/algorithm.c:23-36 | requests for two different resources reach the same state in either order |
| PcmScheduler.FirstFreeFrom | subsys/pm/pcm/scheduler.c:21-33 | the lowest free index from `from` on, and None exactly when every entry from there on is taken |
| PcmScheduler.FirstFree | subsys/pm/pcm/scheduler.c:21-33 | the lowest free entry of the pool, and None exactly when none is free |
| PcmScheduler.ScheduleReturn | subsys/pm/pcm/scheduler.c:49-63 | the pool keeps its size, the result is 0 or -ENOMEM, and a refusal leaves the pool unchanged |
| PcmScheduler.ScheduleEffect | subsys/pm/pcm/scheduler.c:49-63 | -ENOMEM and the pool unchanged exactly when no entry is free; otherwise 0, only the lowest free entry is taken and it holds the return |
| PcmScheduler.Release | subsys/pm/pcm/scheduler.c:35-38 | giving a semaphore frees exactly entry id, keeps id and return, changes no other entry |
| PcmScheduler.ReleaseIdempotent | subsys/pm/pcm/scheduler.c:35-38 | giving a semaphore twice equals giving it once (binary semaphore, limit 1) |
| PcmScheduler.ReleaseUndoesSchedule | subsys/pm/pcm/scheduler.c:35-63 | freeing the entry a scheduled return took gives back the old pool except for the copied return |
| PcmScheduler.Scheduler.constructor | subsys/pm/pcm/scheduler.c:19 | the zeroed statics: 255 entries, none free |
| PcmScheduler.Scheduler.Init | subsys/pm/pcm/scheduler.c:65-72 | every entry i becomes free with id i, its stored return kept |
| PcmScheduler.Scheduler.Acquire | subsys/pm/pcm/scheduler.c:21-33 | -ENOMEM and nothing taken exactly when none is free; otherwise 0, the id of the lowest free entry, which is now taken |
| PcmScheduler.Scheduler.Free | subsys/pm/pcm/scheduler.c:35-38 | the pool afterwards equals Release of the old pool at id |
| PcmScheduler.Scheduler.ReturnDelayed | subsys/pm/pcm/scheduler.c:49-63 | the pool and the result equal ScheduleReturn of the old pool |
| PcmScheduler.Scheduler.TimeCallback | subsys/pm/pcm/scheduler.c:40-47 | the delayed request is handed the return of entry 0 whatever id fired, then entry id is released |
| PcmDispatcher.TraversalRequest | subsys/pm/pcm/dispatcher.c:76-112 | the response is OK and domain, resource and mode are those of the request |
| PcmDispatcher.Respond | subsys/pm/pcm/dispatcher.c:28-57 | the pool keeps its size and changes only for a delayed power event, which is then answered NONE |
| PcmDispatcher.RespondCases | subsys/pm/pcm/dispatcher.c:28-57 | non-power events: IMPOSSIBLE, pool unchanged; immediate power events: OK, pool unchanged; delayed ones: NONE exactly when a return was scheduled, ERROR exactly when not; power events answer for their own domain, resource and mode |
| PcmDispatcher.ScheduledReturnIsOk | subsys/pm/pcm/dispatcher.c:38-47 | the return a delayed power event leaves in the pool is the traversal's own, answered OK |
| PcmDispatcher.DelayedChangesNothing | subsys/pm/pcm/scheduler.c:44 | the delayed-event request of time_callback changes nothing, so discarding its answer loses nothing |
| PcmDispatcher.Dispatcher.constructor | subsys/pm/pcm/dispatcher.c:17 | the zeroed state_now: every resource at mode 0, with the given scheduler |
| PcmDispatcher.Dispatcher.Init | subsys/pm/pcm/dispatcher.c:19-26 | every resource is at mode PM_MODE_NUM - 1 |
| PcmDispatcher.Dispatcher.EventRequest | subsys/pm/pcm/dispatcher.c:28-57 | the return and the scheduler pool equal Respond of the event and the old pool |
| MultiInstanceH.AlignUp | lib/open-amp/multi_instance/multi_instance.h:43 | the aligned size is at least the size and below the size plus the alignment |
| MultiInstanceH.AlignUpLeast | lib/open-amp/multi_instance/multi_instance.h:43 | VRING_ALIGN with alignment 4 is the least multiple of 4 not below the size |
| MultiInstanceH.AlignUpMonotone | lib/open-amp/multi_instance/multi_instance.h:43 | VRING_ALIGN never puts a larger size below a smaller one |
| MultiInstanceH.VringLayout | lib/open-amp/multi_instance/multi_instance.h:39-53 | the used ring starts aligned past the descriptors and the available ring, and ends the vring |
| MultiInstanceH.InstSize | lib/open-amp/multi_instance/multi_instance.h:59-61 | an instance holds at least the status word, both buffer areas and both vrings without their padding |
| MultiInstanceH.InstSizeIncreasing | lib/open-amp/multi_instance/multi_instance.h:56-61 | a longer vring needs strictly more shared memory per instance |
| MultiInstanceH.VringSizeGet | lib/open-amp/multi_instance/multi_instance.h:67-71 | VRING_SIZE_GET is one of 1, 2, 4, 8, 16 and 32 |
| MultiInstanceH.VringSizeGetChoice | lib/open-amp/multi_instance/multi_instance.h:64-71 | VRING_SIZE_GET is 1 or the largest candidate of 32, 16, 8, 4, 2 whose consumption is below the size; 1 only when none fits |
| MultiInstanceH.InstAddr | lib/open-amp/multi_instance/multi_instance.h:84 | no instance starts before the base, and every instance but the first starts at least one instance size past it |
| MultiInstanceH.InstAddrContiguous | lib/open-amp/multi_instance/multi_instance.h:84 | instance id + 1 starts where instance id ends |
| MultiInstanceH.InstancesDisjoint | lib/open-amp/multi_instance/multi_instance.h:84 | an instance ends no later than any later instance begins |
| MultiInstanceH.AutoallocInstSize | lib/open-amp/multi_instance/multi_instance.h:75 | unless the vring size fell back to 1, IPC_INSTANCE_COUNT instances of this size take strictly less than the shared memory |
| MultiInstanceH.AutoallocInstAddr | lib/open-amp/multi_instance/multi_instance.h:79 | no instance starts before the base, and every instance but the first starts at least one automatic instance size past it |
| MultiInstanceH.AutoallocFits | lib/open-amp/multi_instance/multi_instance.h:64-79 | unless it fell back to 1, the automatic layout places all `count` instances inside the shared memory |
| MultiInstanceH.AsInt | lib/open-amp/multi_instance/multi_instance.h:265 | the uint32_t read as an int lies in the int32 range and equals the value below 2^31 |
| MultiInstanceH.EptNumGet | lib/open-amp/multi_instance/multi_instance.h:259-266 | the result is an int32 value |
| MultiInstanceH.EptNumGetCases | lib/open-amp/multi_instance/multi_instance.h:259-266 | -EINVAL without an endpoint; the address itself below 2^31; -1 for RPMSG_ADDR_ANY |
| MultiInstance.SubU32 | lib/open-amp/multi_instance/multi_instance.c:189 | uint32_t subtraction wraps modulo 2^32 |
| MultiInstance.ConfigureShmem | lib/open-amp/multi_instance/multi_instance.c:183-215 | the status register is the base; without wrap the local region starts 4 bytes in and is 4 bytes smaller than the configured size |
| MultiInstance.ShmemPlacement | lib/open-amp/multi_instance/multi_instance.c:183-215 | without address wrap the region is laid out in order and the transmit vring ends where SHMEM_INST_SIZE_GET says the instance ends |
| MultiInstance.ShmemInside | lib/open-amp/multi_instance/multi_instance.c:183-215 | when the configured size holds a whole instance both vrings lie inside the local region |
| MultiInstance.ShmemSizeWraps | lib/open-amp/multi_instance/multi_instance.c:189 | a configured size below the 4-byte status word wraps to a local size of almost 4 GiB |
| MultiInstance.InitInstance | lib/open-amp/multi_instance/multi_instance.c:335-468 | the result is -EINVAL or the set-up status, and the instance is newly marked used only on success |
| MultiInstance.InitInstanceEffect | lib/open-amp/multi_instance/multi_instance.c:335-468 | ipc_init returns 0 exactly when a callback is given and the set-up succeeds, only then marks the instance used; -EINVAL leaves the instance untouched |
| MultiInstance.EptInit | lib/open-amp/multi_instance/multi_instance.c:507-541 | the result is -EINVAL, the creation status or the status of the handshake message, and the handshake flag is kept |
| MultiInstance.EptInitEffect | lib/open-amp/multi_instance/multi_instance.c:507-541 | -EINVAL and nothing stored without a callback; otherwise the callback and argument are stored; a failed creation returns its status with nothing else changed; used exactly when it was or creation succeeded; the handshake flag never changes; after creation the result is the handshake send status, and the address is ept_no whenever ept_no fits in a uint32_t |
| MultiInstance.Send | lib/open-amp/multi_instance/multi_instance.c:543-573 | ipc_send never returns a positive value, and 0 only for an endpoint whose handshake is done |
| MultiInstance.SendCases | lib/open-amp/multi_instance/multi_instance.c:543-573 | -EINVAL without an endpoint, -ENOTCONN before the handshake; then 0 exactly when the whole buffer went, the error itself when negative, -EMSGSIZE for a short send |
| MultiInstance.Bind | lib/open-amp/multi_instance/multi_instance.c:633-640 | binding keeps the address, the flags and the callback, and leaves an endpoint with a destination unchanged |
| MultiInstance.Step | lib/open-amp/multi_instance/multi_instance.c:622-681 | one message keeps the size of the endpoint table and makes at most one notification (its cases are StepFlags and StepStops) |
| MultiInstance.StepFlags | lib/open-amp/multi_instance/multi_instance.c:633-673 | one message changes at most its own endpoint, never the used flag, at most sets the handshake flag, and reports CONNECTED only for an endpoint that had not done it |
| MultiInstance.StepStops | lib/open-amp/multi_instance/multi_instance.c:644-681 | a message stops the loop exactly when it is for no endpoint, carries data, or its handshake reply fails, with -ENXIO, 0 or that status; a zero-length message for an endpoint that has done the handshake never stops it |
| MultiInstance.Recv | lib/open-amp/multi_instance/multi_instance.c:604-695 | the receive loop keeps the size of the endpoint table and consumes at most the queued messages (its effect is RecvFlagsGrow, RecvStops and ConnectedOnce) |
| MultiInstance.RecvFlagsGrow | lib/open-amp/multi_instance/multi_instance.c:604-695 | ipc_recv never changes a used flag and never undoes a handshake |
| MultiInstance.ConnectedOnce | lib/open-amp/multi_instance/multi_instance.c:644-657 | an endpoint is reported CONNECTED at most once per call, only if it had not done the handshake, and it is done afterwards |
| MultiInstance.RecvStops | lib/open-amp/multi_instance/multi_instance.c:604-695 | all messages read past were zero-length and for known endpoints; 0 exactly when the last carried data for a known endpoint, -ENXIO when it was for none; after a last zero-length message for a known endpoint the result is its failing reply status, or -ENOENT with the whole queue read; a queue of handshakes that succeed gives -ENOENT |
| MultiInstance.ConnectedThenSend | lib/open-amp/multi_instance/multi_instance.c:543-573 | after ipc_recv reported an endpoint CONNECTED, ipc_send on it no longer answers -ENOTCONN |
| MultiInstance.IpcContext.constructor | lib/open-amp/multi_instance/multi_instance.c:54-59 | the zeroed context: no endpoint and no instance used |
| MultiInstance.IpcContext.EndpointGetNextFree | lib/open-amp/multi_instance/multi_instance.c:479-490 | the lowest endpoint not marked used, None exactly when all are used |
| MultiInstance.IpcContext.InstGetNextFree | lib/open-amp/multi_instance/multi_instance.c:492-503 | the lowest instance not marked used, None exactly when all are used |
| MultiInstance.IpcContext.Init | lib/open-amp/multi_instance/multi_instance.c:335-468 | instance i and the result equal InitInstance of the old instance; nothing else changes |
| MultiInstance.IpcContext.EptInitCall | lib/open-amp/multi_instance/multi_instance.c:507-541 | endpoint e and the result equal EptInit of the old endpoint; nothing else changes |
| MultiInstance.IpcContext.RecvCall | lib/open-amp/multi_instance/multi_instance.c:604-695 | the endpoint table, the result and the notifications equal Recv of the old table and the message queue |

## Left out

- Hardware and concurrency: `TMR_MNGR_LOCK`/`UNLOCK` (interrupt masking) and the interrupt connection in `tmr_back_init` are not modelled. Each operation runs atomically.
- The RTC counter is an input `cnt`, frozen for the duration of one call. The firmware reads the counter several times per call.
- The 24-bit wrap of the RTC counter (`HW_RTC_LEN_MASK`) is not modelled. The counter is any uint32_t read and the deadlines are uint64_t.
- pot_push of NULL is not modelled. The manager never pushes NULL.
- TmrMngr.TimerManager.CcIrq: the outer loop of tmr_mngr_back_cc_irq runs for at most `fuel` passes. The firmware's unbounded spin on an empty tree shows up as `done == false` (see TimerState.LastTimerHangs).
- The application handler is not called. The contexts it would be called with are returned as a sequence in call order.
- Pot.Tree.Pop: pot_pop's missing empty check becomes the precondition of a non-empty tree. On an empty tree the firmware underflows `write`.
- TmrMngr.TimerManager.Init: the invariant after init is established only when no slot waits for the reload. This holds from reset, because the reload flags are never left set outside the IRQ.
- TmrMngr.TimerManager.Stop: the firmware does not check `instance`. The model requires it to be a slot index below 8.
- tmr_mngr_cnt_get only forwards tmr_back_cnt_get_handler and is modelled by TmrBackend.CntGet.
- tmr_back_start_handler is empty and not modelled.
- Pot.Tree.Get is a function that reads the array, not a method.
- TmrMngr.TimerManager.PushAndSync requires the slot to be allocated and not queued, which is how vrtc_reconfig calls it.
- TmrMngr.TimerManager.CcIrq, TmrMngr.TimerManager.RtcIrq: both require a non-empty tree when the compare event is pending. The firmware handles an interrupt on an empty tree by popping NULL, underflowing `write` and dereferencing NULL, which the model cannot express. That state is reachable: a safe tmr_mngr_stop of the last queued timer leaves CC[0] armed (TimerState.StopLastLeavesCcArmed).
- TmrMngr.TimerManager.Start, TmrMngr.TimerManager.Stop, PcmScheduler.Scheduler.Acquire, PcmScheduler.Scheduler.ReturnDelayed, PcmDispatcher.Dispatcher.EventRequest: these require init to have run. Before init the C is defined: the scheduler pool has no free entry, so acquiring and scheduling return -ENOMEM; tmr_mngr_start returns a slot index although the ignored pot_push refused the timer, because no array is attached.
- TmrMngr.TimerManager.RtcIrq does not state that the COMPARE[0] event stays clear after the manager's handler runs.
- The layout of tmr_srv_int_context_t is fixed as source in byte 0 and id in byte 1, with only the low two bytes read. tmr_srv_int.h fixes the type; its bit layout in C is compiler-defined.
- TMR_SRV_NB_OF_REQ_SRCS is fixed at 2. tmr_srv_int_cfg.h is not part of this model.
- Callbacks are named by ids; calling them is the caller's part (TmrSrvInt.Deliver).
- TmrSrvInt.IntService.Init: the manager's init cannot fail here because the handler is always given, so the `ret < 0` path is not reachable.
- pm time services: time.c is not part of this model. pm_time_callback_add is not modelled, so the scheduled time callback and its pointer to the local `id` of pm_pcm_scheduler_return_delayed are not modelled either (TimeCallback takes the id as a parameter).
- PcmScheduler.Scheduler.Free: the semaphore is modelled as a free flag. The model requires init to have run (Valid), and id to be an index.
- The uninitialised `ret` that a non-power event returns in pm_pcm_dispatcher_event_request is an input `stale`.
- PcmScheduler.Scheduler.TimeCallback does not call the dispatcher. It returns what it would hand over; DelayedChangesNothing shows that the call changes nothing.
- The pm_pcm_dispatcher_traversal_request body under `#if 0` is not compiled and not modelled.
- VRING_ALIGN's bit mask is written as the removal of the remainder. The two agree for power-of-two alignments; the alignment lemmas are stated at the library's alignment of 4.
- The sizes of the vring structures (16-byte descriptor, 4-byte ring headers, 8-byte used element, 2-byte index) follow section 2.4 of the VIRTIO 1.0 specification. RPMSG_BUFFER_SIZE is taken as 512.
- IPC_INSTANCE_COUNT (a Kconfig value) is a parameter. Addresses in the header macros are unbounded naturals; ipc_configure_shmem wraps as uint32_t.
- The endpoint and instance flags words are modelled as named booleans (handshake done, used) rather than as bits of a u32_t.
- OpenAMP, libmetal and IPM calls are status inputs. The set-up part of ipc_init becomes `setupRc`; rpmsg_create_ept is `createRc`; rpmsg_send is `sendRc`/`sent`. rpmsg_get_endpoint is modelled as message routing to an endpoint index. ipc_free, ipc_deinit, the virtio callbacks and memcpy are not modelled.
- MultiInstance.EptInit: the address handed out by rpmsg_create_ept for an ept_no of -1 (RPMSG_ADDR_ANY) is not modelled; the model stores ept_no modulo 2^32, so ipc_ept_num_get of such an endpoint gives -1 where the firmware gives the allocated address.
- The call through the endpoint callback in the handshake path (line 656) is reported as a CONNECTED note. The firmware calls it even when it is NULL; the model does not.

