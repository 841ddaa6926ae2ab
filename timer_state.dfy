/** The timer manager of tmr_mngr.c as values: its slots, its tree, its
    allocation mask and the compare register it drives, and what every
    operation does to them. The class in module TmrMngr performs these
    operations in place and is proved to agree with the functions here; the
    properties of the manager are proved here, about the functions. */
module TimerState {
  import opened Base
  import opened Bitmask
  import opened PotElement
  import opened Pot
  import opened TmrBackend

  /** TMR_MNGR_NUM */
  const NUM: nat := 8

  /** TMR_MNGR_AVAL_TIMERS: all eight slots exist. */
  const AVAILABLE: seq<bv8> := [0xFF]

  lemma AllAvailable(i: nat)
    requires i < NUM
    ensures IsSet(i, AVAILABLE)
  {
  }

  /** Slot i may be handed out: it exists and is not allocated. */
  predicate Allocatable(mask: seq<bv8>, i: nat)
    requires |mask| == 1 && i < NUM
  {
    IsSet(i, AVAILABLE) && !IsSet(i, mask)
  }

  /** What the first-fit scan of tmr_mngr_alloc finds from index i on. */
  function FirstFree(mask: seq<bv8>, i: nat): (r: int)
    requires |mask| == 1
    ensures r == -ENOMEM || i <= r < NUM
    decreases NUM - i
  {
    if i >= NUM then -ENOMEM
    else if Allocatable(mask, i) then i
    else FirstFree(mask, i + 1)
  }

  /** The scan fails exactly when no slot from i on is allocatable. */
  lemma {:induction false} FirstFreeNone(mask: seq<bv8>, i: nat)
    requires |mask| == 1
    ensures FirstFree(mask, i) == -ENOMEM <==> forall j :: i <= j < NUM ==> !Allocatable(mask, j)
    decreases NUM - i
  {
    if i < NUM && !Allocatable(mask, i) {
      FirstFreeNone(mask, i + 1);
    }
  }

  /** What the scan finds is allocatable. */
  lemma {:induction false} FirstFreeFound(mask: seq<bv8>, i: nat)
    requires |mask| == 1
    ensures FirstFree(mask, i) != -ENOMEM ==> Allocatable(mask, FirstFree(mask, i))
    decreases NUM - i
  {
    if i < NUM && !Allocatable(mask, i) {
      FirstFreeFound(mask, i + 1);
    }
  }

  /** Nothing the scan passes over is allocatable. */
  lemma {:induction false} FirstFreeFirst(mask: seq<bv8>, i: nat)
    requires |mask| == 1
    ensures forall j :: i <= j < NUM && j < FirstFree(mask, i) ==> !Allocatable(mask, j)
    decreases NUM - i
  {
    if i < NUM && !Allocatable(mask, i) {
      FirstFreeFirst(mask, i + 1);
    }
  }

  /** The scan yields the lowest allocatable index, and -ENOMEM exactly when
      there is none. */
  lemma FirstFreeIsLowest(mask: seq<bv8>, i: nat)
    requires |mask| == 1
    ensures FirstFree(mask, i) == -ENOMEM <==> forall j :: i <= j < NUM ==> !Allocatable(mask, j)
    ensures FirstFree(mask, i) != -ENOMEM ==>
              i <= FirstFree(mask, i) < NUM && Allocatable(mask, FirstFree(mask, i)) &&
              forall j :: i <= j < FirstFree(mask, i) ==> !Allocatable(mask, j)
  {
    FirstFreeNone(mask, i);
    FirstFreeFound(mask, i);
    FirstFreeFirst(mask, i);
  }

  /** The allocation mask after tmr_mngr_free(i): bit i is cleared when the
      slot exists and is allocated, and nothing happens otherwise. */
  function FreeMask(i: nat, mask: seq<bv8>): (r: seq<bv8>)
    requires |mask| == 1 && i < NUM
    ensures |r| == 1
  {
    if IsSet(i, AVAILABLE) && IsSet(i, mask) then Clear(i, mask) else mask
  }

  /** Freeing clears bit i and no other bit. */
  lemma FreeClearsOnly(i: nat, mask: seq<bv8>)
    requires |mask| == 1 && i < NUM
    ensures !IsSet(i, FreeMask(i, mask))
    ensures forall j :: 0 <= j < NUM && j != i ==> IsSet(j, FreeMask(i, mask)) == IsSet(j, mask)
  {
  }

  /** Freeing twice frees once. */
  lemma FreeIdempotent(i: nat, mask: seq<bv8>)
    requires |mask| == 1 && i < NUM
    ensures FreeMask(i, FreeMask(i, mask)) == FreeMask(i, mask)
  {
    FreeClearsOnly(i, mask);
  }

  /** The absolute deadline vrtc_reconfig computes: a one-shot value is a
      deadline already, a periodic one is an interval from now (wrapping at 2^64). */
  function Deadline(mode: Mode, value: u64, cnt: u32): u64
  {
    match mode
    case Periodic => AddU64(CntGet(cnt), value)
    case OneShot => value
  }

  /** The slot as vrtc_reconfig leaves it: mode, deadline and, for a periodic
      timer, the interval written; everything else kept. */
  function Configured(s: Slot, mode: Mode, value: u64, cnt: u32): Slot
  {
    match mode
    case Periodic => s.(mode := mode, periodicValue := value, nextCc := Deadline(mode, value, cnt))
    case OneShot => s.(mode := mode, nextCc := Deadline(mode, value, cnt))
  }

  /** The slot after the compare IRQ popped it: an armed periodic timer moves
      its deadline on by exactly one interval and waits for the reload; any
      other slot is left exactly as it was, its state included. */
  function Expired(s: Slot): Slot
  {
    if s.state == Armed && s.mode == Periodic then s.(nextCc := AddU64(s.nextCc, s.periodicValue), reload := true)
    else s
  }

  /** Whether popping s gives its allocation back. */
  predicate FreedOnExpiry(s: Slot)
  {
    !(s.state == Armed && s.mode == Periodic)
  }

  /** The set of references to slots 0 .. n - 1. */
  ghost function RefsBelow(n: nat): (r: set<Ref>)
    ensures forall e :: e in r <==> e.Elem? && e.slot < n
  {
    if n == 0 then {} else RefsBelow(n - 1) + {Elem(n - 1)}
  }

  lemma {:induction false} RefsBelowSize(n: nat)
    ensures |RefsBelow(n)| == n
  {
    if n > 0 {
      RefsBelowSize(n - 1);
      assert Elem(n - 1) !in RefsBelow(n - 1);
    }
  }

  /** A multiset without repeats drawn from S has at most |S| elements. */
  lemma {:induction false} DistinctBound(m: multiset<Ref>, S: set<Ref>)
    requires forall e :: e in m ==> e in S && m[e] == 1
    ensures |m| <= |S|
    decreases |m|
  {
    if |m| > 0 {
      var e :| e in m;
      var m' := m - multiset{e};
      assert forall x :: x in m' ==> x in S - {e} && m'[x] == 1;
      DistinctBound(m', S - {e});
    }
  }

  /** Eight distinct slots without slot k are fewer than eight. */
  lemma RoomFor(m: multiset<Ref>, k: nat)
    requires k < NUM && Elem(k) !in m
    requires forall e :: e in m ==> e.Elem? && e.slot < NUM && m[e] == 1
    ensures |m| < NUM
  {
    RefsBelowSize(NUM);
    DistinctBound(m, RefsBelow(NUM) - {Elem(k)});
  }

  /** Every slot knows its own index (timer_id). */
  ghost predicate Ids(pool: seq<Slot>)
    requires |pool| == NUM
  {
    forall i :: 0 <= i < NUM ==> pool[i].timerId == i
  }

  /** No slot waits for the reload: true outside the compare IRQ. */
  ghost predicate Quiet(pool: seq<Slot>)
    requires |pool| == NUM
  {
    forall i :: 0 <= i < NUM ==> !pool[i].reload
  }

  /** The slot indices below n whose bit is set in the allocation mask. */
  ghost function AllocatedBelow(mask: seq<bv8>, n: nat): set<nat>
    requires |mask| == 1 && n <= NUM
  {
    if n == 0 then {} else AllocatedBelow(mask, n - 1) + (if IsSet(n - 1, mask) then {n - 1} else {})
  }

  /** The allocated slots, as a set of indices. */
  ghost function Allocated(mask: seq<bv8>): set<nat>
    requires |mask| == 1
  {
    AllocatedBelow(mask, NUM)
  }

  lemma {:induction false} AllocatedBelowIff(mask: seq<bv8>, n: nat)
    requires |mask| == 1 && n <= NUM
    ensures forall i: nat :: i in AllocatedBelow(mask, n) <==> i < n && IsSet(i, mask)
  {
    if n > 0 {
      AllocatedBelowIff(mask, n - 1);
    }
  }

  /** The set reads the mask bit by bit. */
  lemma AllocatedIff(mask: seq<bv8>, i: nat)
    requires |mask| == 1 && i < NUM
    ensures i in Allocated(mask) <==> IsSet(i, mask)
  {
    AllocatedBelowIff(mask, NUM);
  }

  /** Setting bit i allocates slot i and nothing else. */
  lemma AllocatedSet(mask: seq<bv8>, i: nat)
    requires |mask| == 1 && i < NUM
    ensures |Set(i, mask)| == 1 && Allocated(Set(i, mask)) == Allocated(mask) + {i}
  {
    AllocatedBelowIff(mask, NUM);
    AllocatedBelowIff(Set(i, mask), NUM);
  }

  /** Freeing slot i releases slot i and nothing else. */
  lemma AllocatedFree(mask: seq<bv8>, i: nat)
    requires |mask| == 1 && i < NUM
    ensures Allocated(FreeMask(i, mask)) == Allocated(mask) - {i}
  {
    AllocatedBelowIff(mask, NUM);
    AllocatedBelowIff(FreeMask(i, mask), NUM);
    FreeClearsOnly(i, mask);
  }

  /** The first-fit scan from slot 0 in terms of the allocated set: it fails
      exactly when every slot is allocated, and otherwise finds the lowest
      slot that is not. */
  lemma FreeSlotFacts(mask: seq<bv8>)
    requires |mask| == 1
    ensures var k := FirstFree(mask, 0);
            (k == -ENOMEM <==> forall i :: 0 <= i < NUM ==> i in Allocated(mask)) &&
            (k != -ENOMEM ==> 0 <= k < NUM && k !in Allocated(mask) && forall i :: 0 <= i < k ==> i in Allocated(mask))
  {
    FirstFreeIsLowest(mask, 0);
    forall i | 0 <= i < NUM
      ensures i in Allocated(mask) <==> !Allocatable(mask, i)
    {
      AllocatedIff(mask, i);
      AllAvailable(i);
    }
  }

  /** The tree holds each allocated slot at most once and nothing else, and a
      slot waiting for the reload is allocated and out of the tree. */
  ghost predicate Consistent(pool: seq<Slot>, c: multiset<Ref>, alloc: set<nat>)
    requires |pool| == NUM
  {
    (forall e :: e in c ==> e.Elem? && e.slot < NUM && c[e] == 1 && e.slot in alloc) &&
    (forall i :: 0 <= i < NUM && pool[i].reload ==> Elem(i) !in c && i in alloc)
  }

  /** Rewriting a slot without touching its reload flag keeps consistency. */
  lemma ConsistentSlot(pool: seq<Slot>, c: multiset<Ref>, alloc: set<nat>, k: nat, s: Slot)
    requires |pool| == NUM && Consistent(pool, c, alloc)
    requires k < NUM && s.reload == pool[k].reload
    ensures Consistent(pool[k := s], c, alloc)
  {
  }

  /** Allocating one more slot. */
  lemma ConsistentAlloc(pool: seq<Slot>, c: multiset<Ref>, alloc: set<nat>, k: nat)
    requires |pool| == NUM && Consistent(pool, c, alloc)
    ensures Consistent(pool, c, alloc + {k})
  {
  }

  /** Pushing an allocated slot that is neither in the tree nor waiting. */
  lemma ConsistentPush(pool: seq<Slot>, c: multiset<Ref>, alloc: set<nat>, k: nat)
    requires |pool| == NUM && Consistent(pool, c, alloc)
    requires k < NUM && Elem(k) !in c && k in alloc && !pool[k].reload
    ensures Consistent(pool, c + multiset{Elem(k)}, alloc)
  {
  }

  /** Clearing a reload flag only drops an obligation. */
  lemma ConsistentClear(pool: seq<Slot>, c: multiset<Ref>, alloc: set<nat>, k: nat)
    requires |pool| == NUM && Consistent(pool, c, alloc) && k < NUM
    ensures Consistent(pool[k := pool[k].(reload := false)], c, alloc)
  {
  }

  /** Taking any entry out of the tree. */
  lemma ConsistentRemove(pool: seq<Slot>, c: multiset<Ref>, alloc: set<nat>, e: Ref)
    requires |pool| == NUM && Consistent(pool, c, alloc)
    ensures Consistent(pool, c - multiset{e}, alloc)
  {
  }

  /** Freeing a slot that is neither in the tree nor waiting. */
  lemma ConsistentFree(pool: seq<Slot>, c: multiset<Ref>, alloc: set<nat>, k: nat)
    requires |pool| == NUM && Consistent(pool, c, alloc)
    requires k < NUM && Elem(k) !in c && !pool[k].reload
    ensures Consistent(pool, c, alloc - {k})
  {
  }

  /** Popping slot p in the compare IRQ. */
  lemma ConsistentExpire(pool: seq<Slot>, c: multiset<Ref>, alloc: set<nat>, p: nat)
    requires |pool| == NUM && Consistent(pool, c, alloc)
    requires p < NUM && Elem(p) in c
    ensures Elem(p) !in c - multiset{Elem(p)}
    ensures Consistent(pool[p := Expired(pool[p])], c - multiset{Elem(p)},
                       if FreedOnExpiry(pool[p]) then alloc - {p} else alloc)
  {
    assert c[Elem(p)] == 1;
    assert !pool[p].reload;
  }

  /** Pushing back a slot that waited for the reload, its flag cleared. */
  lemma ConsistentReload(pool: seq<Slot>, c: multiset<Ref>, alloc: set<nat>, k: nat)
    requires |pool| == NUM && Consistent(pool, c, alloc)
    requires k < NUM && pool[k].reload
    ensures Elem(k) !in c
    ensures Consistent(pool[k := pool[k].(reload := false)], c + multiset{Elem(k)}, alloc)
  {
  }

  /** The state of tmr_mngr.c and of the RTC registers it writes:
      vrtc_instances, p_elements with the entry count `write` of pot.c,
      allocated_timers, and CC[0] with its interrupt and event enables. */
  datatype Timers = Timers(pool: seq<Slot>, heap: seq<Ref>, write: nat, mask: seq<bv8>,
                           cc: u32, intOn: bool, evtOn: bool)

  /** The sizes of the static arrays. */
  predicate Shaped(t: Timers)
  {
    |t.pool| == NUM && |t.heap| == NUM && t.write <= NUM && |t.mask| == 1
  }

  /** The entries of the tree in use. */
  ghost function Queued(t: Timers): multiset<Ref>
    requires Shaped(t)
  {
    multiset(t.heap[..t.write])
  }

  /** What holds after tmr_mngr_init and is kept by every operation: the tree
      is packed, every slot knows its index, and the tree, the reload flags
      and the allocation mask agree. */
  ghost predicate Inv(t: Timers)
  {
    Shaped(t) && Packed(t.heap, t.write, NUM) && Ids(t.pool) &&
    Consistent(t.pool, Queued(t), Allocated(t.mask))
  }

  /** The same, outside the compare IRQ: no slot waits for the reload. */
  ghost predicate Settled(t: Timers)
  {
    Inv(t) && Quiet(t.pool)
  }

  /** pot_get on the attached array: the root entry. */
  function Root(t: Timers): Ref
    requires Shaped(t)
  {
    t.heap[0]
  }

  /** The deadline of the root slot. */
  function RootCc(t: Timers): u64
    requires Shaped(t)
  {
    SlotOf(t.pool, Root(t)).nextCc
  }

  /** pot_get returns NULL exactly for an empty tree, and otherwise a queued slot. */
  lemma RootFacts(t: Timers)
    requires Inv(t)
    ensures Root(t) == Null <==> t.write == 0
    ensures t.write > 0 ==> Root(t).Elem? && Root(t).slot < NUM && Root(t) in Queued(t)
  {
    if t.write > 0 {
      assert t.heap[..t.write][0] == Root(t);
    }
  }

  /** The invariant looks at the slots, the tree and the mask only. */
  lemma SameInv(t: Timers, u: Timers)
    requires Inv(t) && u.pool == t.pool && u.heap == t.heap && u.write == t.write && u.mask == t.mask
    ensures Inv(u) && Queued(u) == Queued(t) && (Quiet(t.pool) ==> Settled(u))
  {
  }

  /** Rewriting slot k without touching its reload flag or its index. */
  lemma SlotKeepsInv(t: Timers, k: nat, s: Slot)
    requires Inv(t) && k < NUM && s.reload == t.pool[k].reload && s.timerId == k
    ensures Inv(t.(pool := t.pool[k := s])) && Queued(t.(pool := t.pool[k := s])) == Queued(t)
    ensures Quiet(t.pool) ==> Quiet(t.pool[k := s])
  {
    ConsistentSlot(t.pool, Queued(t), Allocated(t.mask), k, s);
  }

  /** A slot that is not queued leaves room in the tree. */
  lemma Room(t: Timers, k: nat)
    requires Inv(t) && k < NUM && Elem(k) !in Queued(t)
    ensures t.write < NUM
  {
    RoomFor(Queued(t), k);
  }

  /** pot_push of slot k: refused on a full tree, otherwise appended and sifted up. */
  function AfterPush(t: Timers, k: nat): (r: Timers)
    requires Shaped(t)
    ensures Shaped(r)
  {
    if t.write >= NUM then t
    else t.(heap := SiftUp(t.heap[t.write := Elem(k)], t.write + 1, t.pool), write := t.write + 1)
  }

  /** The pushed slot becomes the root, or the root stays. */
  lemma PushRoot(t: Timers, k: nat)
    requires Shaped(t) && Packed(t.heap, t.write, NUM) && t.write < NUM
    ensures Root(AfterPush(t, k)) == Elem(k) || (t.write > 0 && Root(AfterPush(t, k)) == Root(t))
  {
    PushFacts(t.heap, t.write, NUM, Elem(k), t.pool);
  }

  /** Pushing an allocated slot that is neither queued nor waiting for the
      reload: it fits and is queued once more. */
  lemma PushKeepsInv(t: Timers, k: nat)
    requires Inv(t) && k < NUM && Elem(k) !in Queued(t) && k in Allocated(t.mask) && !t.pool[k].reload
    ensures var r := AfterPush(t, k);
            Inv(r) && r.write == t.write + 1 && Queued(r) == Queued(t) + multiset{Elem(k)}
  {
    RoomFor(Queued(t), k);
    PushFacts(t.heap, t.write, NUM, Elem(k), t.pool);
    ConsistentPush(t.pool, Queued(t), Allocated(t.mask), k);
  }

  /** The compare register armed with the low 32 bits of a deadline. */
  function ArmedAt(t: Timers, v: u64): Timers
  {
    t.(cc := TruncU32(v), intOn := true, evtOn := true)
  }

  /** tmr_back_cc_sync_handler */
  function AfterSync(t: Timers, v: u64, cnt: u32): (Timers, int)
  {
    if SyncAccepts(v, cnt) then (ArmedAt(t, v), 0) else (t, -EPERM)
  }

  /** tmr_back_cc_handler */
  function AfterCcSet(t: Timers, v: u64, cnt: u32): (Timers, int)
  {
    if CcAccepts(v, cnt) then (ArmedAt(t, v), 0) else (t, -EPERM)
  }

  /** vrtc_reconfig(k, mode, value) */
  function AfterReconfig(t: Timers, k: nat, mode: Mode, value: u64, cnt: u32): (r: (Timers, int))
    requires Shaped(t) && k < NUM
    ensures Shaped(r.0) && r.0.mask == t.mask
    ensures r.1 == 0 || r.1 == -EFAULT || r.1 == -EPERM
  {
    var t1 := t.(pool := t.pool[k := Configured(t.pool[k], mode, value, cnt)]);
    if !ConstrCheck(t1.pool[k].nextCc, cnt) then (t1, -EFAULT)
    else AfterPushSync(t1, k, Root(t), cnt)
  }

  /** The tail of vrtc_reconfig: push slot k, then re-arm the compare
      register for the new root when the root is no longer `before`. */
  function AfterPushSync(t: Timers, k: nat, before: Ref, cnt: u32): (r: (Timers, int))
    requires Shaped(t)
    ensures Shaped(r.0) && r.0.mask == t.mask
    ensures r.1 == 0 || r.1 == -EPERM
  {
    var t2 := AfterPush(t, k);
    if before != Root(t2) then AfterSync(t2, RootCc(t2), cnt) else (t2, 0)
  }

  /** The three outcomes of vrtc_reconfig once the tree has room; the re-arm
      after a change of root uses the new deadline and is never refused. */
  lemma ReconfigCases(t: Timers, k: nat, mode: Mode, value: u64, cnt: u32)
    requires Shaped(t) && k < NUM && Packed(t.heap, t.write, NUM) && t.write < NUM
    ensures var d := Deadline(mode, value, cnt);
            var t1 := t.(pool := t.pool[k := Configured(t.pool[k], mode, value, cnt)]);
            var t2 := AfterPush(t1, k);
            var res := AfterReconfig(t, k, mode, value, cnt);
            (!ConstrCheck(d, cnt) ==> res == (t1, -EFAULT)) &&
            (ConstrCheck(d, cnt) && Root(t2) == Root(t) ==> res == (t2, 0)) &&
            (ConstrCheck(d, cnt) && Root(t2) != Root(t) ==> Root(t2) == Elem(k) && res == (ArmedAt(t2, d), 0))
  {
    var t1 := t.(pool := t.pool[k := Configured(t.pool[k], mode, value, cnt)]);
    PushRoot(t1, k);
    MarginsNested(Deadline(mode, value, cnt), cnt);
  }

  /** vrtc_reconfig keeps the invariant. */
  lemma ReconfigKeepsInv(t: Timers, k: nat, mode: Mode, value: u64, cnt: u32)
    requires Settled(t) && k < NUM && k in Allocated(t.mask) && Elem(k) !in Queued(t)
    ensures Settled(AfterReconfig(t, k, mode, value, cnt).0)
  {
    Room(t, k);
    ReconfigCases(t, k, mode, value, cnt);
    var t1 := t.(pool := t.pool[k := Configured(t.pool[k], mode, value, cnt)]);
    SlotKeepsInv(t, k, t1.pool[k]);
    var t2 := AfterPush(t1, k);
    PushKeepsInv(t1, k);
    SameInv(t2, ArmedAt(t2, Deadline(mode, value, cnt)));
  }

  /** vrtc_reconfig rewrites slot k only and queues it exactly when it
      succeeds. */
  lemma ReconfigQueues(t: Timers, k: nat, mode: Mode, value: u64, cnt: u32)
    requires Settled(t) && k < NUM && k in Allocated(t.mask) && Elem(k) !in Queued(t)
    ensures var r := AfterReconfig(t, k, mode, value, cnt).0;
            var rc := AfterReconfig(t, k, mode, value, cnt).1;
            r.pool == t.pool[k := Configured(t.pool[k], mode, value, cnt)] &&
            (rc == 0 ==> Queued(r) == Queued(t) + multiset{Elem(k)}) &&
            (rc != 0 ==> Queued(r) == Queued(t))
  {
    Room(t, k);
    ReconfigCases(t, k, mode, value, cnt);
    var t1 := t.(pool := t.pool[k := Configured(t.pool[k], mode, value, cnt)]);
    SlotKeepsInv(t, k, t1.pool[k]);
    PushKeepsInv(t1, k);
  }

  /** vrtc_reconfig refuses a deadline inside the margin with -EFAULT and
      changes nothing but the slot; otherwise it queues the slot and re-arms
      the compare register exactly when the slot became the root, so no other
      result is possible. */
  lemma ReconfigResult(t: Timers, k: nat, mode: Mode, value: u64, cnt: u32)
    requires Settled(t) && k < NUM && k in Allocated(t.mask) && Elem(k) !in Queued(t)
    ensures var r := AfterReconfig(t, k, mode, value, cnt).0;
            var rc := AfterReconfig(t, k, mode, value, cnt).1;
            var d := Deadline(mode, value, cnt);
            (rc == 0 || rc == -EFAULT) && (rc == 0 <==> ConstrCheck(d, cnt)) &&
            (rc == -EFAULT ==> r.heap == t.heap && r.write == t.write &&
                               r.cc == t.cc && r.intOn == t.intOn && r.evtOn == t.evtOn) &&
            (rc == 0 && Root(r) == Root(t) ==> r.cc == t.cc && r.intOn == t.intOn && r.evtOn == t.evtOn) &&
            (rc == 0 && Root(r) != Root(t) ==> Root(r) == Elem(k) && r.cc == TruncU32(d) && r.intOn && r.evtOn) &&
            (rc == 0 && t.write == 0 ==> Root(r) == Elem(k))
  {
    Room(t, k);
    ReconfigCases(t, k, mode, value, cnt);
    RootFacts(t);
    var t1 := t.(pool := t.pool[k := Configured(t.pool[k], mode, value, cnt)]);
    PushRoot(t1, k);
  }

  /** tmr_mngr_start: the first free slot is allocated, given the context and
      configured; on success it is armed and its index returned, otherwise
      its context is reset and the error returned. */
  function AfterStart(t: Timers, mode: Mode, value: u64, context: u32, cnt: u32): (r: (Timers, int))
    requires Shaped(t)
    ensures Shaped(r.0)
    ensures 0 <= r.1 < NUM || r.1 == -EPERM || r.1 == -EFAULT
  {
    var k := FirstFree(t.mask, 0);
    if k < 0 then (t, -EPERM)
    else
      var t1 := t.(mask := Set(k, t.mask), pool := t.pool[k := t.pool[k].(context := context)]);
      var (t2, rc) := AfterReconfig(t1, k, mode, value, cnt);
      if rc == 0 then (t2.(pool := t2.pool[k := t2.pool[k].(state := Armed)]), k)
      else (t2.(pool := t2.pool[k := t2.pool[k].(context := 0)]), rc)
  }

  /** The slot tmr_mngr_alloc hands out is free and not queued, and the
      state with it allocated and its context written is consistent. */
  lemma AllocKeepsInv(t: Timers, context: u32)
    requires Settled(t) && FirstFree(t.mask, 0) >= 0
    ensures var k := FirstFree(t.mask, 0);
            var t1 := t.(mask := Set(k, t.mask), pool := t.pool[k := t.pool[k].(context := context)]);
            k < NUM && k !in Allocated(t.mask) && Elem(k) !in Queued(t) &&
            Settled(t1) && k in Allocated(t1.mask) && Elem(k) !in Queued(t1) &&
            Allocated(t1.mask) == Allocated(t.mask) + {k}
  {
    var k := FirstFree(t.mask, 0);
    FreeSlotFacts(t.mask);
    AllocatedSet(t.mask, k);
    var t0 := t.(mask := Set(k, t.mask));
    ConsistentAlloc(t.pool, Queued(t), Allocated(t.mask), k);
    SlotKeepsInv(t0, k, t0.pool[k].(context := context));
  }

  /** tmr_mngr_start keeps the invariant. */
  lemma StartKeepsInv(t: Timers, mode: Mode, value: u64, context: u32, cnt: u32)
    requires Settled(t)
    ensures Settled(AfterStart(t, mode, value, context, cnt).0)
  {
    var k := FirstFree(t.mask, 0);
    if k >= 0 {
      AllocKeepsInv(t, context);
      var t1 := t.(mask := Set(k, t.mask), pool := t.pool[k := t.pool[k].(context := context)]);
      ReconfigKeepsInv(t1, k, mode, value, cnt);
      var t2 := AfterReconfig(t1, k, mode, value, cnt).0;
      SlotKeepsInv(t2, k, t2.pool[k].(state := Armed));
      SlotKeepsInv(t2, k, t2.pool[k].(context := 0));
    }
  }

  /** tmr_mngr_start fails with -EPERM, changing nothing, exactly when every
      slot is allocated. */
  lemma StartRefused(t: Timers, mode: Mode, value: u64, context: u32, cnt: u32)
    requires Settled(t)
    ensures var res := AfterStart(t, mode, value, context, cnt);
            (res.1 == -EPERM <==> forall i :: 0 <= i < NUM ==> i in Allocated(t.mask)) &&
            (res.1 == -EPERM ==> res.0 == t)
  {
    FreeSlotFacts(t.mask);
    var k := FirstFree(t.mask, 0);
    if k >= 0 {
      AllocKeepsInv(t, context);
      var t1 := t.(mask := Set(k, t.mask), pool := t.pool[k := t.pool[k].(context := context)]);
      ReconfigResult(t1, k, mode, value, cnt);
    }
  }

  /** The outcomes of tmr_mngr_start in terms of the reconfiguration. */
  lemma StartCases(t: Timers, mode: Mode, value: u64, context: u32, cnt: u32)
    requires Shaped(t)
    ensures var k := FirstFree(t.mask, 0);
            var res := AfterStart(t, mode, value, context, cnt);
            (k < 0 ==> res == (t, -EPERM)) &&
            (k >= 0 ==>
               var t1 := t.(mask := Set(k, t.mask), pool := t.pool[k := t.pool[k].(context := context)]);
               var c := AfterReconfig(t1, k, mode, value, cnt);
               (c.1 == 0 ==> res == (c.0.(pool := c.0.pool[k := c.0.pool[k].(state := Armed)]), k)) &&
               (c.1 != 0 ==> res == (c.0.(pool := c.0.pool[k := c.0.pool[k].(context := 0)]), c.1)))
  {
  }

  /** A successful tmr_mngr_start returns the lowest free slot, which is now
      allocated. */
  lemma StartAllocates(t: Timers, mode: Mode, value: u64, context: u32, cnt: u32)
    requires Settled(t)
    ensures var r := AfterStart(t, mode, value, context, cnt).0;
            var rc := AfterStart(t, mode, value, context, cnt).1;
            rc >= 0 ==>
              rc < NUM && rc !in Allocated(t.mask) && (forall i :: 0 <= i < rc ==> i in Allocated(t.mask)) &&
              Allocated(r.mask) == Allocated(t.mask) + {rc}
  {
    StartCases(t, mode, value, context, cnt);
    var k := FirstFree(t.mask, 0);
    FreeSlotFacts(t.mask);
    if k >= 0 {
      AllocKeepsInv(t, context);
    }
  }

  /** A successful tmr_mngr_start queues the slot once and configures it with
      the deadline, the context and the armed state; no other slot changes. */
  lemma StartArms(t: Timers, mode: Mode, value: u64, context: u32, cnt: u32)
    requires Settled(t)
    ensures var r := AfterStart(t, mode, value, context, cnt).0;
            var rc := AfterStart(t, mode, value, context, cnt).1;
            rc >= 0 ==>
              rc < NUM && ConstrCheck(Deadline(mode, value, cnt), cnt) &&
              Queued(r) == Queued(t) + multiset{Elem(rc)} &&
              r.pool == t.pool[rc := Configured(t.pool[rc], mode, value, cnt).(context := context, state := Armed)]
  {
    StartCases(t, mode, value, context, cnt);
    var k := FirstFree(t.mask, 0);
    if k >= 0 {
      AllocKeepsInv(t, context);
      var t1 := t.(mask := Set(k, t.mask), pool := t.pool[k := t.pool[k].(context := context)]);
      ReconfigQueues(t1, k, mode, value, cnt);
      ReconfigResult(t1, k, mode, value, cnt);
      SlotEdits(t.pool, k, mode, value, context, cnt);
    }
  }

  /** The three writes tmr_mngr_start makes to its slot, as one. */
  lemma SlotEdits(p: seq<Slot>, k: nat, mode: Mode, value: u64, context: u32, cnt: u32)
    requires k < |p|
    ensures var p1 := p[k := p[k].(context := context)];
            var p2 := p1[k := Configured(p1[k], mode, value, cnt)];
            p2[k := p2[k].(state := Armed)] == p[k := Configured(p[k], mode, value, cnt).(context := context, state := Armed)] &&
            p2[k := p2[k].(context := 0)] == p[k := Configured(p[k], mode, value, cnt).(context := 0)]
  {
  }

  /** A tmr_mngr_start whose deadline is inside the margin returns -EFAULT
      and resets the context, but the slot stays allocated although it is
      neither queued nor armed: nothing ever frees it. */
  lemma StartLeaks(t: Timers, mode: Mode, value: u64, context: u32, cnt: u32)
    requires Settled(t)
    ensures var r := AfterStart(t, mode, value, context, cnt).0;
            var rc := AfterStart(t, mode, value, context, cnt).1;
            var k := FirstFree(t.mask, 0);
            rc != -EPERM ==>
              0 <= k < NUM && (rc >= 0 <==> ConstrCheck(Deadline(mode, value, cnt), cnt)) &&
              (rc < 0 ==>
                 rc == -EFAULT && k !in Allocated(t.mask) && Allocated(r.mask) == Allocated(t.mask) + {k} &&
                 Queued(r) == Queued(t) && Elem(k) !in Queued(r) &&
                 r.heap == t.heap && r.write == t.write && r.cc == t.cc &&
                 r.pool == t.pool[k := Configured(t.pool[k], mode, value, cnt).(context := 0)])
  {
    var k := FirstFree(t.mask, 0);
    if k >= 0 {
      AllocKeepsInv(t, context);
      var t1 := t.(mask := Set(k, t.mask), pool := t.pool[k := t.pool[k].(context := context)]);
      ReconfigQueues(t1, k, mode, value, cnt);
      ReconfigResult(t1, k, mode, value, cnt);
      SlotEdits(t.pool, k, mode, value, context, cnt);
    }
  }

  /** pot_remove of slot k: the entry is found among those in use, replaced by
      the last one and sifted down; false when it is not in the tree. */
  function AfterRemove(t: Timers, k: nat): (r: (Timers, bool))
    requires Shaped(t)
    ensures Shaped(r.0)
    ensures r.1 <==> Elem(k) in t.heap[..t.write]
    ensures !r.1 ==> r.0 == t
    ensures r.1 ==> r.0.write == t.write - 1 && r.0.pool == t.pool && r.0.mask == t.mask && r.0.cc == t.cc
  {
    if Elem(k) in t.heap[..t.write] then
      var f := IndexOf(t.heap[..t.write], Elem(k));
      (t.(heap := RemoveResult(t.heap, t.write, f, t.pool), write := t.write - 1), true)
    else (t, false)
  }

  /** Removing slot k takes its single entry out of the tree and keeps the
      invariant; nothing but the tree changes. */
  lemma RemoveKeepsInv(t: Timers, k: nat)
    requires Inv(t) && k < NUM
    ensures var r := AfterRemove(t, k).0;
            Inv(r) && (AfterRemove(t, k).1 <==> Elem(k) in Queued(t)) &&
            Queued(r) == Queued(t) - multiset{Elem(k)} && Elem(k) !in Queued(r) &&
            r.pool == t.pool && r.mask == t.mask && r.cc == t.cc && r.intOn == t.intOn && r.evtOn == t.evtOn
  {
    if Elem(k) in t.heap[..t.write] {
      RemoveFound(t, k);
    }
  }

  /** The case of RemoveKeepsInv where slot k is in the tree. */
  lemma RemoveFound(t: Timers, k: nat)
    requires Inv(t) && k < NUM && Elem(k) in t.heap[..t.write]
    ensures var r := AfterRemove(t, k).0;
            Inv(r) && Queued(r) == Queued(t) - multiset{Elem(k)} && Elem(k) !in Queued(r)
  {
    var s := t.heap[..t.write];
    var f := IndexOf(s, Elem(k));
    RemoveFacts(t.heap, t.write, NUM, f, t.pool);
    assert t.heap[f] == s[f];
    ConsistentRemove(t.pool, Queued(t), Allocated(t.mask), Elem(k));
  }

  /** Freeing a slot that is neither queued nor waiting for the reload. */
  lemma FreeKeepsInv(t: Timers, k: nat)
    requires Inv(t) && k < NUM && Elem(k) !in Queued(t) && !t.pool[k].reload
    ensures Inv(t.(mask := FreeMask(k, t.mask)))
    ensures Allocated(FreeMask(k, t.mask)) == Allocated(t.mask) - {k}
  {
    AllocatedFree(t.mask, k);
    ConsistentFree(t.pool, Queued(t), Allocated(t.mask), k);
  }

  /** tmr_mngr_stop(k) */
  function AfterStop(t: Timers, k: nat, cnt: u32): (r: (Timers, int))
    requires Shaped(t) && k < NUM
    ensures Shaped(r.0)
    ensures r.1 == 0 || r.1 == -EPERM || r.1 == -EINPROGRESS || r.1 == -EFAULT
  {
    var s := t.pool[k];
    if s.state != Armed then (t, -EPERM)
    else if !ConstrCheck(s.nextCc, cnt) then (t.(pool := t.pool[k := s.(state := Stopped)]), -EINPROGRESS)
    else AfterCancel(t, k)
  }

  /** The cancelling branch of tmr_mngr_stop(k): take slot k out of the
      tree (-EFAULT when it is not there), make it IDLE and free it. */
  function AfterCancel(t: Timers, k: nat): (r: (Timers, int))
    requires Shaped(t) && k < NUM
    ensures Shaped(r.0)
    ensures r.1 == 0 || r.1 == -EFAULT
    ensures r.0.write <= t.write && r.0.cc == t.cc && r.0.intOn == t.intOn && r.0.evtOn == t.evtOn
  {
    var (t1, found) := AfterRemove(t, k);
    (t1.(pool := t1.pool[k := t1.pool[k].(state := Idle)], mask := FreeMask(k, t1.mask)), if found then 0 else -EFAULT)
  }

  /** tmr_mngr_stop keeps the invariant. */
  lemma StopKeepsInv(t: Timers, k: nat, cnt: u32)
    requires Settled(t) && k < NUM
    ensures Settled(AfterStop(t, k, cnt).0)
  {
    var s := t.pool[k];
    if s.state == Armed {
      if !ConstrCheck(s.nextCc, cnt) {
        SlotKeepsInv(t, k, s.(state := Stopped));
      } else {
        RemoveKeepsInv(t, k);
        var t1 := AfterRemove(t, k).0;
        SlotKeepsInv(t1, k, s.(state := Idle));
        FreeKeepsInv(t1.(pool := t1.pool[k := s.(state := Idle)]), k);
      }
    }
  }

  /** tmr_mngr_stop refuses a slot that is not armed with -EPERM and changes
      nothing; an armed slot whose deadline is too close only becomes
      stopped, stays queued and allocated, and is left for the compare IRQ,
      which frees it without reporting it. */
  lemma StopDefers(t: Timers, k: nat, cnt: u32)
    requires Settled(t) && k < NUM
    ensures var r := AfterStop(t, k, cnt).0;
            var rc := AfterStop(t, k, cnt).1;
            var s := t.pool[k];
            (rc == -EPERM <==> s.state != Armed) && (rc == -EPERM ==> r == t) &&
            (rc == -EINPROGRESS <==> s.state == Armed && !ConstrCheck(s.nextCc, cnt)) &&
            (rc == -EINPROGRESS ==>
               Queued(r) == Queued(t) && r.mask == t.mask && r.pool == t.pool[k := s.(state := Stopped)] &&
               FreedOnExpiry(r.pool[k]) && r.pool[k].state != Armed &&
               r.cc == t.cc && r.intOn == t.intOn && r.evtOn == t.evtOn)
  {
  }

  /** Any other tmr_mngr_stop takes the slot out of the tree, makes it idle
      and frees it; it returns 0 when the slot was queued and -EFAULT when it
      was not. */
  lemma StopCancels(t: Timers, k: nat, cnt: u32)
    requires Settled(t) && k < NUM
    ensures var r := AfterStop(t, k, cnt).0;
            var rc := AfterStop(t, k, cnt).1;
            var s := t.pool[k];
            s.state == Armed && ConstrCheck(s.nextCc, cnt) ==>
              (rc == 0 || rc == -EFAULT) && (rc == 0 <==> Elem(k) in Queued(t)) &&
              Queued(r) == Queued(t) - multiset{Elem(k)} && Elem(k) !in Queued(r) &&
              r.pool == t.pool[k := s.(state := Idle)] && Allocated(r.mask) == Allocated(t.mask) - {k} &&
              r.cc == t.cc && r.intOn == t.intOn && r.evtOn == t.evtOn
  {
    var s := t.pool[k];
    if s.state == Armed && ConstrCheck(s.nextCc, cnt) {
      RemoveKeepsInv(t, k);
      AllocatedFree(t.mask, k);
    }
  }

  /** Stopping the only queued timer well before its deadline empties the
      tree, but leaves the compare register armed with its deadline: the
      compare interrupt can still fire with nothing to pop. */
  lemma StopLastLeavesCcArmed(t: Timers, k: nat, cnt: u32)
    requires Settled(t) && k < NUM && t.write == 1 && t.heap[0] == Elem(k)
    requires t.pool[k].state == Armed && ConstrCheck(t.pool[k].nextCc, cnt)
    ensures var u := AfterStop(t, k, cnt).0;
            u.write == 0 && Root(u) == Null && u.cc == t.cc && u.intOn == t.intOn && u.evtOn == t.evtOn
  {
  }

  /** One pass of the inner loop of tmr_mngr_back_cc_irq: pop the root and
      report its context when it is armed; an armed periodic slot moves on by
      one interval and waits for the reload, any other slot is freed. The
      flag says whether the loop goes on: the new root is due by cnt. */
  function AfterExpire(t: Timers, cnt: u32): (r: (Timers, Option<u32>, bool))
    requires Shaped(t) && 0 < t.write && Root(t).Elem? && Root(t).slot < NUM
    ensures Shaped(r.0) && r.0.write == t.write - 1
  {
    var p := Root(t).slot;
    var s := t.pool[p];
    var r := t.(heap := PopResult(t.heap, t.write, t.pool), write := t.write - 1,
                pool := t.pool[p := Expired(s)],
                mask := if FreedOnExpiry(s) then FreeMask(p, t.mask) else t.mask);
    (r, if s.state == Armed then Some(s.context) else None, !(Root(r) == Null || cnt < RootCc(r)))
  }

  /** Popping the root keeps the invariant and takes its single entry out of
      the tree. */
  lemma ExpireKeepsInv(t: Timers, cnt: u32)
    requires Inv(t) && 0 < t.write
    ensures Root(t).Elem? && Root(t).slot < NUM
    ensures var r := AfterExpire(t, cnt).0;
            Inv(r) && Queued(r) == Queued(t) - multiset{Root(t)} && Root(t) !in Queued(r)
  {
    RootFacts(t);
    ExpireTree(t, cnt);
    var p := Root(t).slot;
    var r := AfterExpire(t, cnt).0;
    ConsistentExpire(t.pool, Queued(t), Allocated(t.mask), p);
    if FreedOnExpiry(t.pool[p]) {
      AllocatedFree(t.mask, p);
    }
    assert Ids(r.pool);
  }

  /** Popping the root takes it out of the packed entries of the tree. */
  lemma ExpireTree(t: Timers, cnt: u32)
    requires Inv(t) && 0 < t.write
    ensures Root(t).Elem? && Root(t).slot < NUM
    ensures var r := AfterExpire(t, cnt).0;
            Packed(r.heap, r.write, NUM) && Queued(r) == Queued(t) - multiset{Root(t)}
  {
    RootFacts(t);
    RemoveFacts(t.heap, t.write, NUM, 0, t.pool);
    assert AfterExpire(t, cnt).0.heap == RemoveResult(t.heap, t.write, 0, t.pool);
  }

  /** The loop goes on exactly while an entry is left that is due by cnt. */
  lemma ExpireContinues(t: Timers, cnt: u32)
    requires Inv(t) && 0 < t.write
    ensures Root(t).Elem? && Root(t).slot < NUM
    ensures var r := AfterExpire(t, cnt).0;
            AfterExpire(t, cnt).2 <==> 0 < r.write && RootCc(r) <= cnt
  {
    ExpireKeepsInv(t, cnt);
    RootFacts(AfterExpire(t, cnt).0);
  }

  /** What one pass does to the slots: the popped slot is rescheduled or
      freed, its context is reported exactly when it was armed, and the
      compare register is not touched. */
  lemma ExpireResult(t: Timers, cnt: u32)
    requires Inv(t) && 0 < t.write
    ensures Root(t).Elem? && Root(t).slot < NUM
    ensures var p := Root(t).slot;
            var s := t.pool[p];
            var r := AfterExpire(t, cnt).0;
            r.pool == t.pool[p := Expired(s)] &&
            Allocated(r.mask) == (if FreedOnExpiry(s) then Allocated(t.mask) - {p} else Allocated(t.mask)) &&
            AfterExpire(t, cnt).1 == (if s.state == Armed then Some(s.context) else None) &&
            r.cc == t.cc && r.intOn == t.intOn && r.evtOn == t.evtOn
  {
    RootFacts(t);
    var p := Root(t).slot;
    if FreedOnExpiry(t.pool[p]) {
      AllocatedFree(t.mask, p);
    }
  }

  /** The inner loop of tmr_mngr_back_cc_irq: expire the root, then go on
      while the new root is due by cnt. The contexts handed to the
      application handler come out in the order of the calls. */
  function AfterDrain(t: Timers, cnt: u32): (r: (Timers, seq<u32>))
    requires Inv(t) && 0 < t.write
    ensures Inv(r.0)
    decreases t.write
  {
    ExpireKeepsInv(t, cnt);
    ExpireContinues(t, cnt);
    var e := AfterExpire(t, cnt);
    var fired := Handed(e.1);
    if e.2 then
      var d := AfterDrain(e.0, cnt);
      (d.0, fired + d.1)
    else (e.0, fired)
  }

  /** The contexts one pass of the inner loop hands to the handler. */
  function Handed(ctx: Option<u32>): (r: seq<u32>)
    ensures |r| <= 1 && (r == [] <==> ctx.None?)
  {
    if ctx.Some? then [ctx.value] else []
  }

  /** Handler calls made one after the other. */
  lemma CallsInOrder(before: seq<u32>, now: seq<u32>, after: seq<u32>)
    ensures before + (now + after) == (before + now) + after
    ensures before + [] == before
  {
  }

  /** The inner loop as one expiry followed by the rest of the loop. */
  lemma DrainUnfold(t: Timers, cnt: u32)
    requires Inv(t) && 0 < t.write
    ensures Root(t).Elem? && Root(t).slot < NUM
    ensures var e := AfterExpire(t, cnt);
            var d := AfterDrain(t, cnt);
            Inv(e.0) &&
            (!e.2 ==> d.0 == e.0 && d.1 == Handed(e.1)) &&
            (e.2 ==> 0 < e.0.write && d.0 == AfterDrain(e.0, cnt).0 && d.1 == Handed(e.1) + AfterDrain(e.0, cnt).1)
  {
    ExpireKeepsInv(t, cnt);
    ExpireContinues(t, cnt);
  }

  /** When the inner loop ends, no entry is left that is due by cnt, and at
      least the first root has gone. */
  lemma {:induction false} DrainTakesDue(t: Timers, cnt: u32)
    requires Inv(t) && 0 < t.write
    ensures var r := AfterDrain(t, cnt).0;
            r.write < t.write && (r.write == 0 || cnt < RootCc(r))
    decreases t.write
  {
    ExpireKeepsInv(t, cnt);
    ExpireContinues(t, cnt);
    var e := AfterExpire(t, cnt);
    if e.2 {
      DrainTakesDue(e.0, cnt);
    } else {
      RootFacts(e.0);
    }
  }

  /** The inner loop only takes entries out and only frees slots; the
      compare register is not touched. */
  lemma {:induction false} DrainShrinks(t: Timers, cnt: u32)
    requires Inv(t) && 0 < t.write
    ensures var r := AfterDrain(t, cnt).0;
            Queued(r) <= Queued(t) && Allocated(r.mask) <= Allocated(t.mask) &&
            r.cc == t.cc && r.intOn == t.intOn && r.evtOn == t.evtOn
    decreases t.write
  {
    ExpireKeepsInv(t, cnt);
    ExpireContinues(t, cnt);
    ExpireResult(t, cnt);
    var e := AfterExpire(t, cnt);
    if e.2 {
      DrainShrinks(e.0, cnt);
    }
  }

  /** Each slot the inner loop touches was queued and is expired exactly once:
      it is out of the tree afterwards, so it cannot come round again. */
  lemma {:induction false} DrainSlot(t: Timers, cnt: u32, j: nat)
    requires Inv(t) && 0 < t.write && j < NUM
    ensures var r := AfterDrain(t, cnt).0;
            r.pool[j] == t.pool[j] ||
            (Elem(j) in Queued(t) && Elem(j) !in Queued(r) && r.pool[j] == Expired(t.pool[j]))
    decreases t.write
  {
    ExpireKeepsInv(t, cnt);
    ExpireContinues(t, cnt);
    ExpireResult(t, cnt);
    var e := AfterExpire(t, cnt);
    if e.2 {
      DrainSlot(e.0, cnt, j);
      DrainShrinks(e.0, cnt);
    }
  }

  lemma DrainSlots(t: Timers, cnt: u32)
    requires Inv(t) && 0 < t.write
    ensures var r := AfterDrain(t, cnt).0;
            forall j :: 0 <= j < NUM ==>
              r.pool[j] == t.pool[j] ||
              (Elem(j) in Queued(t) && Elem(j) !in Queued(r) && r.pool[j] == Expired(t.pool[j]))
  {
    forall j | 0 <= j < NUM
      ensures var r := AfterDrain(t, cnt).0;
              r.pool[j] == t.pool[j] ||
              (Elem(j) in Queued(t) && Elem(j) !in Queued(r) && r.pool[j] == Expired(t.pool[j]))
    {
      DrainSlot(t, cnt, j);
    }
  }

  /** One step of the reload loop: slot i, when waiting, has its flag
      cleared and is pushed again. */
  function ReloadOne(t: Timers, i: nat): (r: Timers)
    requires Shaped(t) && i < NUM
    ensures Shaped(r)
  {
    if t.pool[i].reload then AfterPush(t.(pool := t.pool[i := t.pool[i].(reload := false)]), i) else t
  }

  /** The reload loop of tmr_mngr_back_cc_irq from slot i on. */
  function AfterReload(t: Timers, i: nat): (r: Timers)
    requires Shaped(t) && i <= NUM
    ensures Shaped(r)
    decreases NUM - i
  {
    if i == NUM then t else AfterReload(ReloadOne(t, i), i + 1)
  }

  /** One step clears flag i and changes no other slot, nor the mask or the
      compare register. */
  lemma ReloadOneFrame(t: Timers, i: nat)
    requires Shaped(t) && i < NUM
    ensures var u := ReloadOne(t, i);
            u.mask == t.mask && u.pool == t.pool[i := t.pool[i].(reload := false)] &&
            u.cc == t.cc && u.intOn == t.intOn && u.evtOn == t.evtOn
  {
    if !t.pool[i].reload {
      assert t.pool[i := t.pool[i].(reload := false)] == t.pool;
    }
  }

  /** One step keeps the invariant and queues slot i exactly when it was
      waiting. */
  lemma ReloadStep(t: Timers, i: nat)
    requires Inv(t) && i < NUM
    ensures var u := ReloadOne(t, i);
            Inv(u) && Queued(u) == (if t.pool[i].reload then Queued(t) + multiset{Elem(i)} else Queued(t))
  {
    if t.pool[i].reload {
      var t1 := t.(pool := t.pool[i := t.pool[i].(reload := false)]);
      ConsistentClear(t.pool, Queued(t), Allocated(t.mask), i);
      PushKeepsInv(t1, i);
    }
  }

  /** One step, seen from slot j. */
  lemma ReloadStepMember(t: Timers, i: nat, j: nat)
    requires Inv(t) && i < NUM && j < NUM
    ensures var u := ReloadOne(t, i);
            Inv(u) && (Elem(j) in Queued(u) <==> Elem(j) in Queued(t) || (i == j && t.pool[j].reload)) &&
            u.pool[j] == (if i == j then t.pool[j].(reload := false) else t.pool[j])
  {
    ReloadStep(t, i);
    ReloadOneFrame(t, i);
  }

  /** The reload loop leaves no slot waiting and keeps the invariant. */
  lemma {:induction false} ReloadKeepsInv(t: Timers, i: nat)
    requires Inv(t) && i <= NUM && forall j :: 0 <= j < i ==> !t.pool[j].reload
    ensures Settled(AfterReload(t, i))
    decreases NUM - i
  {
    if i < NUM {
      ReloadStep(t, i);
      ReloadOneFrame(t, i);
      ReloadKeepsInv(ReloadOne(t, i), i + 1);
    }
  }

  /** The reload loop changes neither the mask nor the compare register. */
  lemma {:induction false} ReloadFrame(t: Timers, i: nat)
    requires Shaped(t) && i <= NUM
    ensures var r := AfterReload(t, i);
            r.mask == t.mask && r.cc == t.cc && r.intOn == t.intOn && r.evtOn == t.evtOn
    decreases NUM - i
  {
    if i < NUM {
      ReloadOneFrame(t, i);
      ReloadFrame(ReloadOne(t, i), i + 1);
    }
  }

  /** The reload loop clears the flag of slot j and changes nothing else of it. */
  lemma {:induction false} ReloadSlot(t: Timers, i: nat, j: nat)
    requires Shaped(t) && i <= NUM && j < NUM
    ensures AfterReload(t, i).pool[j] == if i <= j then t.pool[j].(reload := false) else t.pool[j]
    decreases NUM - i
  {
    if i < NUM {
      ReloadOneFrame(t, i);
      ReloadSlot(ReloadOne(t, i), i + 1, j);
    }
  }

  /** The reload loop queues slot j exactly when it was waiting or queued already. */
  lemma {:induction false} ReloadQueues(t: Timers, i: nat, j: nat)
    requires Inv(t) && i <= NUM && j < NUM
    ensures Elem(j) in Queued(AfterReload(t, i)) <==> Elem(j) in Queued(t) || (i <= j && t.pool[j].reload)
    decreases NUM - i
  {
    if i < NUM {
      ReloadStepMember(t, i, j);
      ReloadQueues(ReloadOne(t, i), i + 1, j);
    }
  }

  /** With no slot waiting the reload loop changes nothing. */
  lemma {:induction false} ReloadQuiet(t: Timers, i: nat)
    requires Shaped(t) && i <= NUM && Quiet(t.pool)
    ensures AfterReload(t, i) == t
    decreases NUM - i
  {
    if i < NUM {
      ReloadQuiet(t, i + 1);
    }
  }

  /** The first half of a pass of the outer loop of tmr_mngr_back_cc_irq:
      the inner loop when `process` is set, then the reload loop. */
  function DrainReload(t: Timers, cnt: u32, process: bool): (r: (Timers, seq<u32>))
    requires Settled(t) && (process ==> 0 < t.write)
    ensures Settled(r.0)
    ensures !process ==> r == (t, [])
  {
    var d := if process then AfterDrain(t, cnt) else (t, []);
    ReloadKeepsInv(d.0, 0);
    ReloadQuiet(t, 0);
    (AfterReload(d.0, 0), d.1)
  }

  /** How a pass of the outer loop of tmr_mngr_back_cc_irq ends: the compare
      register was armed for the new root, it refused the deadline of the new
      root, or the tree is empty. */
  datatype PassEnd = Rearmed | Retry | Spin

  /** One pass of the outer loop: the inner loop when `process` is set, the
      reload loop, then the attempt to arm the compare register for the root.
      A pass ends armed only for a root still ahead of the counter, refused
      only with an entry left, and on an empty tree without anything to drain
      it changes nothing. */
  function IrqPass(t: Timers, cnt: u32, process: bool): (r: (Timers, seq<u32>, PassEnd))
    requires Settled(t) && (process ==> 0 < t.write)
    ensures Settled(r.0) && (r.2 == Retry ==> 0 < r.0.write)
  {
    var p := DrainReload(t, cnt, process);
    RootFacts(p.0);
    if Root(p.0) == Null then (p.0, p.1, Spin)
    else if CcAccepts(RootCc(p.0), cnt) then
      SameInv(p.0, ArmedAt(p.0, RootCc(p.0)));
      (ArmedAt(p.0, RootCc(p.0)), p.1, Rearmed)
    else (p.0, p.1, Retry)
  }

  /** The pass in terms of what the inner and the reload loop left. */
  lemma PassCases(t: Timers, cnt: u32, process: bool)
    requires Settled(t) && (process ==> 0 < t.write)
    ensures var d := DrainReload(t, cnt, process);
            var r := IrqPass(t, cnt, process);
            (Root(d.0) == Null <==> d.0.write == 0) &&
            (r.2 == Spin <==> Root(d.0) == Null) &&
            (r.2 == Rearmed <==> Root(d.0) != Null && CcAccepts(RootCc(d.0), cnt)) &&
            (r.2 == Rearmed ==> r.0 == ArmedAt(d.0, RootCc(d.0))) &&
            (r.2 != Rearmed ==> r.0 == d.0) &&
            r.1 == d.1
  {
    RootFacts(DrainReload(t, cnt, process).0);
  }

  /** A pass ends armed only for a root still ahead of the counter, refused
      only for a root already due, and spins only on an empty tree; on an
      empty tree with nothing to drain it changes nothing. */
  lemma PassEnds(t: Timers, cnt: u32, process: bool)
    requires Settled(t) && (process ==> 0 < t.write)
    ensures var r := IrqPass(t, cnt, process);
            (r.2 == Rearmed ==> ArmedForRoot(r.0, cnt)) &&
            (r.2 == Retry ==> 0 < r.0.write && RootCc(r.0) <= cnt) &&
            (r.2 == Spin <==> r.0.write == 0) &&
            (!process && t.write == 0 ==> r == (t, [], Spin))
  {
    PassCases(t, cnt, process);
  }

  /** A pass brings in no new timer. */
  lemma PassNoNew(t: Timers, cnt: u32, process: bool)
    requires Settled(t) && (process ==> 0 < t.write)
    ensures NoNewTimers(IrqPass(t, cnt, process).0, t)
  {
    PassCases(t, cnt, process);
    PassSlots(t, cnt, process);
    var d := DrainReload(t, cnt, process).0;
    if IrqPass(t, cnt, process).2 == Rearmed {
      ArmedNoNew(d, t, RootCc(d));
    }
  }

  /** u holds the timers of t, each possibly expired, rescheduled or freed,
      and no timer that t did not hold is queued or allocated in u. */
  ghost predicate NoNewTimers(u: Timers, t: Timers)
    requires Shaped(u) && Shaped(t)
  {
    (forall j :: 0 <= j < NUM ==> SameTimer(u.pool[j], t.pool[j])) &&
    (forall j :: 0 <= j < NUM && Elem(j) in Queued(u) ==> Elem(j) in Queued(t)) &&
    Allocated(u.mask) <= Allocated(t.mask)
  }

  /** There is an entry in the tree, its deadline is still ahead of the
      counter, and the compare register is armed for it. */
  predicate ArmedForRoot(r: Timers, cnt: u32)
  {
    Shaped(r) && 0 < r.write && cnt < RootCc(r) && r.cc == TruncU32(RootCc(r)) && r.intOn && r.evtOn
  }

  /** tmr_mngr_back_cc_irq with at most `fuel` passes of its outer loop: a
      pass that armed the compare register ends the handler; after a refused
      deadline the next pass drains again, and after an empty tree the next
      pass does nothing at all, so the loop never ends. The contexts handed to
      the application handler come out in order; the flag says whether the
      handler returned within the fuel. */
  /** The passes the handler may still make once one more has run. */
  function Spend(fuel: nat): (r: nat)
    requires 0 < fuel
    ensures r < fuel
  {
    fuel - 1
  }

  function AfterIrq(t: Timers, cnt: u32, fuel: nat, process: bool): (r: (Timers, seq<u32>, bool))
    requires Settled(t) && (process ==> 0 < t.write)
    ensures Settled(r.0) && NoNewTimers(r.0, t)
    ensures r.2 ==> ArmedForRoot(r.0, cnt)
    ensures !process && t.write == 0 ==> r == (t, [], false)
    decreases fuel
  {
    if fuel == 0 then (t, [], false)
    else
      var p := IrqPass(t, cnt, process);
      PassEnds(t, cnt, process);
      PassNoNew(t, cnt, process);
      if p.2 == Rearmed then (p.0, p.1, true)
      else
        var n := AfterIrq(p.0, cnt, Spend(fuel), p.2 == Retry);
        NoNewTimersTrans(n.0, p.0, t);
        assert !process && t.write == 0 ==> p.1 + n.1 == [];
        (n.0, p.1 + n.1, n.2)
  }

  /** The handler as one pass followed by the rest of its passes. */
  lemma IrqUnfold(t: Timers, cnt: u32, fuel: nat, process: bool)
    requires Settled(t) && (process ==> 0 < t.write) && 0 < fuel
    ensures var p := IrqPass(t, cnt, process);
            var r := AfterIrq(t, cnt, fuel, process);
            Settled(p.0) && (p.2 == Retry ==> 0 < p.0.write) &&
            (p.2 == Rearmed ==> r.0 == p.0 && r.1 == p.1 && r.2) &&
            (p.2 != Rearmed ==> r.0 == AfterIrq(p.0, cnt, Spend(fuel), p.2 == Retry).0 &&
                                r.1 == p.1 + AfterIrq(p.0, cnt, Spend(fuel), p.2 == Retry).1 &&
                                r.2 == AfterIrq(p.0, cnt, Spend(fuel), p.2 == Retry).2)
  {
  }

  lemma NoNewTimersTrans(a: Timers, b: Timers, c: Timers)
    requires Shaped(a) && Shaped(b) && Shaped(c) && NoNewTimers(a, b) && NoNewTimers(b, c)
    ensures NoNewTimers(a, c)
  {
  }

  /** The parts of a slot that describe the timer: everything but the
      deadline and the reload flag. */
  predicate SameTimer(a: Slot, b: Slot)
  {
    a.mode == b.mode && a.periodicValue == b.periodicValue && a.state == b.state &&
    a.context == b.context && a.timerId == b.timerId
  }

  /** The first half of a pass, seen from slot j: the timer in the slot stays
      the same, and the slot is queued afterwards only if it was before. */
  lemma PassSlot(t: Timers, cnt: u32, process: bool, j: nat)
    requires Settled(t) && (process ==> 0 < t.write) && j < NUM
    ensures var d := DrainReload(t, cnt, process).0;
            SameTimer(d.pool[j], t.pool[j]) && (Elem(j) in Queued(d) ==> Elem(j) in Queued(t))
  {
    if process {
      var e := AfterDrain(t, cnt).0;
      DrainSlot(t, cnt, j);
      DrainShrinks(t, cnt);
      ReloadSlot(e, 0, j);
      ReloadQueues(e, 0, j);
    } else {
      ReloadQuiet(t, 0);
    }
  }

  /** The first half of a pass brings in no new timer. */
  lemma PassSlots(t: Timers, cnt: u32, process: bool)
    requires Settled(t) && (process ==> 0 < t.write)
    ensures NoNewTimers(DrainReload(t, cnt, process).0, t)
  {
    forall j | 0 <= j < NUM
      ensures var d := DrainReload(t, cnt, process).0;
              SameTimer(d.pool[j], t.pool[j]) && (Elem(j) in Queued(d) ==> Elem(j) in Queued(t))
    {
      PassSlot(t, cnt, process, j);
    }
    if process {
      DrainShrinks(t, cnt);
      ReloadFrame(AfterDrain(t, cnt).0, 0);
    } else {
      ReloadQuiet(t, 0);
    }
  }

  /** Arming the compare register brings in no new timer either. */
  lemma ArmedNoNew(u: Timers, t: Timers, v: u64)
    requires Shaped(u) && Shaped(t) && NoNewTimers(u, t)
    ensures NoNewTimers(ArmedAt(u, v), t)
  {
    assert Queued(ArmedAt(u, v)) == Queued(u);
  }

  /** When the last queued timer is not periodic the compare IRQ pops it,
      reports it when it is armed, frees it and then never returns: nothing
      is left to arm the compare register for. */
  lemma LastTimerHangs(t: Timers, cnt: u32, fuel: nat)
    requires Settled(t) && t.write == 1 && 0 < fuel
    ensures Root(t).Elem? && Root(t).slot < NUM
    ensures var s := t.pool[Root(t).slot];
            var r := AfterIrq(t, cnt, fuel, true);
            FreedOnExpiry(s) ==>
              !r.2 && r.0.write == 0 && r.1 == (if s.state == Armed then [s.context] else []) &&
              Allocated(r.0.mask) == Allocated(t.mask) - {Root(t).slot}
  {
    RootFacts(t);
    var k := Root(t).slot;
    if FreedOnExpiry(t.pool[k]) {
      ExpireKeepsInv(t, cnt);
      ExpireResult(t, cnt);
      ExpireContinues(t, cnt);
      var e := AfterExpire(t, cnt);
      assert e.0.pool == t.pool;
      ReloadQuiet(e.0, 0);
      PassCases(t, cnt, true);
      assert IrqPass(t, cnt, true).0 == e.0;
    }
  }

  /** An armed one-shot timer that the compare IRQ popped is freed but keeps
      the armed state, so tmr_mngr_stop still accepts it: it answers
      -EINPROGRESS while the old deadline is within the margin and -EFAULT
      after that, never -EPERM as for a slot that is not armed. */
  lemma StopAfterExpiry(t: Timers, cnt: u32, cnt2: u32)
    requires Settled(t) && 0 < t.write
    ensures Root(t).Elem? && Root(t).slot < NUM
    ensures var k := Root(t).slot;
            var s := t.pool[k];
            var r := AfterExpire(t, cnt).0;
            s.state == Armed && s.mode == OneShot ==>
              r.pool[k].state == Armed && k !in Allocated(r.mask) && Elem(k) !in Queued(r) &&
              AfterStop(r, k, cnt2).1 == (if ConstrCheck(s.nextCc, cnt2) then -EFAULT else -EINPROGRESS)
  {
    RootFacts(t);
    ExpireKeepsInv(t, cnt);
    ExpireResult(t, cnt);
    var k := Root(t).slot;
    var r := AfterExpire(t, cnt).0;
    if t.pool[k].state == Armed && t.pool[k].mode == OneShot {
      assert r.pool == t.pool;
      StopCancels(r, k, cnt2);
    }
  }

  /** tmr_mngr_init: refused with -EPERM without a handler; otherwise the
      mask is cleared, the tree emptied and every slot made idle and given
      its index. The slots keep everything else, the reload flag included. */
  function AfterInit(t: Timers, hasHandler: bool): (r: (Timers, int))
    requires Shaped(t)
    ensures Shaped(r.0)
    ensures r.1 == 0 || r.1 == -EPERM
    ensures r.1 == 0 <==> hasHandler
  {
    if !hasHandler then (t, -EPERM)
    else
      var pool := seq(NUM, i requires 0 <= i < NUM => t.pool[i].(state := Idle, timerId := i));
      (t.(pool := pool, heap := seq(NUM, _ => Null), write := 0, mask := [0]), 0)
  }

  /** After a successful tmr_mngr_init nothing is queued or allocated, every
      slot is idle and the invariant holds, provided no slot was waiting for
      the reload (as in the zeroed memory at boot). */
  lemma InitFacts(t: Timers)
    requires Shaped(t)
    ensures AfterInit(t, false) == (t, -EPERM)
    ensures var r := AfterInit(t, true);
            r.1 == 0 && Queued(r.0) == multiset{} && Allocated(r.0.mask) == {} &&
            (forall i :: 0 <= i < NUM ==> r.0.pool[i].state == Idle && r.0.pool[i].timerId == i) &&
            (Quiet(t.pool) ==> Settled(r.0))
  {
    var r := AfterInit(t, true).0;
    assert r.heap[..0] == [];
    AllocatedBelowIff(r.mask, NUM);
    assert Allocated(r.mask) == {};
  }
}
