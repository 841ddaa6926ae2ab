/** tmr_mngr.c as an object: the static arrays of the timer manager, the tree
    of pot.c over p_elements and the RTC registers, updated in place. Every
    operation receives the RTC counter value `cnt` it reads (within one call
    the counter does not move) and is proved to leave the state that the
    matching function of module TimerState describes; the properties of the
    manager are proved there, about those functions. */
module TmrMngr {
  import opened Base
  import opened Bitmask
  import opened PotElement
  import opened Pot
  import opened TmrBackend
  import opened TimerState

  /** vrtc_instances, p_elements, p_app_handler and allocated_timers of
      tmr_mngr.c, the tree state of pot.c and the RTC registers. */
  class TimerManager {
    const slots: array<Slot>            // vrtc_instances
    const elements: array<Ref>          // p_elements
    const allocatedTimers: array<bv8>   // allocated_timers
    const tree: Tree
    const rtc: Rtc
    var handlerSet: bool                // p_app_handler != NULL

    /** Array sizes, and the tree kept in the manager's own array. */
    ghost predicate Shape()
      reads tree, elements
    {
      slots.Length == NUM && elements.Length == NUM && allocatedTimers.Length == 1 && tree.elems == elements &&
      tree.Valid() && (tree.attached ==> tree.arrSize == NUM)
    }

    /** The manager's state as a value. */
    ghost function Abs(): Timers
      reads slots, elements, tree, allocatedTimers, rtc
    {
      Timers(slots[..], elements[..], tree.write, allocatedTimers[..], rtc.cc, rtc.intEnabled, rtc.eventEnabled)
    }

    /** The state inside the compare IRQ: tmr_mngr_init has run and the
        invariant of TimerState holds. */
    ghost predicate IrqValid()
      reads this, slots, elements, tree, allocatedTimers, rtc
    {
      Shape() && handlerSet && tree.attached && Inv(Abs())
    }

    /** The state between calls: in addition no slot waits for the reload. */
    ghost predicate Valid()
      reads this, slots, elements, tree, allocatedTimers, rtc
    {
      IrqValid() && Quiet(slots[..])
    }

    /** The file-scope statics before tmr_mngr_init: all zero. */
    constructor ()
      ensures Shape() && !handlerSet && !tree.attached
      ensures Abs() == Timers(seq(NUM, _ => ZeroSlot), seq(NUM, _ => Null), 0, [0], 0, false, false)
      ensures fresh(slots) && fresh(elements) && fresh(allocatedTimers) && fresh(tree) && fresh(rtc)
    {
      slots := new Slot[NUM](_ => ZeroSlot);
      var buffer := new Ref[NUM](_ => Null);
      elements := buffer;
      allocatedTimers := new bv8[1](_ => 0);
      tree := new Tree.Unattached(buffer);
      rtc := new Rtc();
      handlerSet := false;
      new;
      assert slots[..] == seq(NUM, _ => ZeroSlot);
      assert elements[..] == seq(NUM, _ => Null);
    }

    /** tmr_mngr_alloc: first fit over the available, unallocated slots. */
    method Alloc() returns (r: int)
      requires allocatedTimers.Length == 1
      modifies allocatedTimers
      ensures r == FirstFree(old(allocatedTimers[..]), 0)
      ensures allocatedTimers[..] == if r >= 0 then Set(r, old(allocatedTimers[..])) else old(allocatedTimers[..])
    {
      ghost var m := allocatedTimers[..];
      r := -ENOMEM;
      var i := 0;
      while i < NUM
        invariant 0 <= i <= NUM && r == -ENOMEM
        invariant allocatedTimers[..] == m
        invariant FirstFree(m, i) == FirstFree(m, 0)
      {
        if IsSet(i, AVAILABLE) && !IsSet(i, allocatedTimers[..]) {
          MarkAllocated(i);
          r := i;
          break;
        }
        i := i + 1;
      }
    }

    /** The bit set by tmr_mngr_alloc for slot i. */
    method MarkAllocated(i: nat)
      requires allocatedTimers.Length == 1 && i < NUM
      modifies allocatedTimers
      ensures allocatedTimers[..] == Set(i, old(allocatedTimers[..]))
    {
      allocatedTimers[i / 8] := allocatedTimers[i / 8] | Bit(i % 8);
      assert allocatedTimers[..] == Set(i, old(allocatedTimers[..]));
    }

    /** tmr_mngr_free */
    method FreeSlot(instance: nat)
      requires allocatedTimers.Length == 1 && instance < NUM
      modifies allocatedTimers
      ensures allocatedTimers[..] == FreeMask(instance, old(allocatedTimers[..]))
    {
      if IsSet(instance, AVAILABLE) && IsSet(instance, allocatedTimers[..]) {
        allocatedTimers[instance / 8] := allocatedTimers[instance / 8] & !Bit(instance % 8);
        assert allocatedTimers[..] == Clear(instance, old(allocatedTimers[..]));
      }
    }

    /** tmr_mngr_init: a NULL handler is refused; otherwise the allocation mask
        is cleared, the tree emptied over p_elements, every slot made IDLE with
        its own index, the handler stored and the RTC started. */
    method Init(handlerGiven: bool) returns (r: int)
      requires Shape()
      modifies this, slots, elements, tree, allocatedTimers, rtc
      ensures Shape() && Abs() == AfterInit(old(Abs()), handlerGiven).0 && r == AfterInit(old(Abs()), handlerGiven).1
      ensures !handlerGiven ==> handlerSet == old(handlerSet) && tree.attached == old(tree.attached) &&
                                rtc.running == old(rtc.running)
      ensures handlerGiven ==> handlerSet && tree.attached && rtc.running
      ensures handlerGiven && old(Quiet(slots[..])) ==> Valid()
    {
      ghost var t := Abs();
      if !handlerGiven {
        return -EPERM;
      }
      ClearMask();
      tree.Init(NUM);
      assert elements[..] == seq(NUM, _ => Null);
      ResetSlots();
      handlerSet := true;
      rtc.Init();
      InitFacts(t);
      ghost var u := AfterInit(t, true).0;
      assert slots[..] == u.pool;
      assert elements[..] == u.heap;
      assert Abs() == u;
      return 0;
    }

    /** The first loop of tmr_mngr_init: every byte of allocated_timers zeroed. */
    method ClearMask()
      requires allocatedTimers.Length == 1
      modifies allocatedTimers
      ensures allocatedTimers[..] == [0]
    {
      var i := 0;
      while i < allocatedTimers.Length
        invariant 0 <= i <= allocatedTimers.Length
        invariant forall k :: 0 <= k < i ==> allocatedTimers[k] == 0
      {
        allocatedTimers[i] := 0;
        i := i + 1;
      }
      assert allocatedTimers[..] == [0];
    }

    /** The second loop of tmr_mngr_init: every slot IDLE and given its own
        index as timer_id; nothing else of it changes. */
    method ResetSlots()
      requires slots.Length == NUM
      modifies slots
      ensures slots[..] == seq(NUM, k requires 0 <= k < NUM => old(slots[k]).(state := Idle, timerId := k))
    {
      var i := 0;
      while i < NUM
        invariant 0 <= i <= NUM
        invariant forall k :: 0 <= k < i ==> slots[k] == old(slots[k]).(state := Idle, timerId := k)
        invariant forall k :: i <= k < NUM ==> slots[k] == old(slots[k])
      {
        slots[i] := slots[i].(state := Idle, timerId := i);
        i := i + 1;
      }
    }

    /** vrtc_reconfig: write the mode and the deadline (and, for a periodic
        timer, the interval); refuse a deadline inside the margin with
        -EFAULT; otherwise push the slot and re-arm the compare register when
        the root of the tree changed. */
    method Reconfig(instance: nat, mode: Mode, value: u64, cnt: u32) returns (rc: int)
      requires Valid() && instance < NUM
      requires instance in Allocated(allocatedTimers[..]) && Elem(instance) !in Queued(Abs())
      modifies slots, elements, tree, rtc
      ensures Abs() == AfterReconfig(old(Abs()), instance, mode, value, cnt).0
      ensures rc == AfterReconfig(old(Abs()), instance, mode, value, cnt).1
      ensures Valid() && rtc.compareEvent == old(rtc.compareEvent) && rtc.running == old(rtc.running)
    {
      ghost var t := Abs();
      ReconfigKeepsInv(t, instance, mode, value, cnt);
      Room(t, instance);
      RootFacts(t);
      slots[instance] := slots[instance].(mode := mode);
      var curr := tree.Get();
      SetDeadline(instance, mode, value, cnt);
      assert Abs() == t.(pool := t.pool[instance := Configured(t.pool[instance], mode, value, cnt)]);
      if !ConstrCheck(slots[instance].nextCc, cnt) {
        return -EFAULT;
      }
      rc := PushAndSync(instance, curr, cnt);
    }

    /** The switch of vrtc_reconfig: the deadline, and for a periodic timer
        the interval, of slot `instance`. */
    method SetDeadline(instance: nat, mode: Mode, value: u64, cnt: u32)
      requires slots.Length == NUM && instance < NUM && slots[instance].mode == mode
      modifies slots
      ensures slots[..] == old(slots[..])[instance := Configured(old(slots[instance]), mode, value, cnt)]
    {
      match mode {
        case Periodic =>
          slots[instance] := slots[instance].(periodicValue := value, nextCc := AddU64(CntGet(cnt), value));
        case OneShot =>
          slots[instance] := slots[instance].(nextCc := value);
      }
    }

    /** The tail of vrtc_reconfig: push the slot, then re-arm the compare
        register when the root is no longer `curr`. */
    method PushAndSync(instance: nat, curr: Ref, cnt: u32) returns (rc: int)
      requires Shape() && tree.attached && tree.write < NUM && instance < NUM
      requires 0 < tree.write ==> elements[0].Elem? && elements[0].slot < NUM
      modifies elements, tree, rtc
      ensures Shape() && tree.attached
      ensures Abs() == AfterPushSync(old(Abs()), instance, curr, cnt).0
      ensures rc == AfterPushSync(old(Abs()), instance, curr, cnt).1
      ensures rtc.compareEvent == old(rtc.compareEvent) && rtc.running == old(rtc.running)
    {
      ghost var t := Abs();
      ghost var t2 := AfterPush(t, instance);
      PushRoot(t, instance);
      var pushed := tree.Push(instance, slots[..]);
      assert elements[..] == t2.heap;
      assert Abs() == t2;
      var next := tree.Get();
      assert next == Root(t2);
      rc := 0;
      if curr != next {
        rc := rtc.CcSync(slots[next.slot].nextCc, cnt);
      }
    }

    /** tmr_mngr_start: allocate the first free slot (-EPERM when none is
        left), store the context and configure the slot; on success it is
        ARMED and its index returned, otherwise its context is reset to 0. */
    method Start(mode: Mode, value: u64, context: u32, cnt: u32) returns (r: int)
      requires Valid()
      modifies slots, elements, tree, allocatedTimers, rtc
      ensures Abs() == AfterStart(old(Abs()), mode, value, context, cnt).0
      ensures r == AfterStart(old(Abs()), mode, value, context, cnt).1
      ensures Valid() && rtc.compareEvent == old(rtc.compareEvent) && rtc.running == old(rtc.running)
    {
      ghost var t := Abs();
      StartKeepsInv(t, mode, value, context, cnt);
      var instance := Alloc();
      if instance < 0 {
        return -EPERM;
      }
      AllocKeepsInv(t, context);
      ghost var t1 := t.(mask := Set(instance, t.mask), pool := t.pool[instance := t.pool[instance].(context := context)]);
      slots[instance] := slots[instance].(context := context);
      assert Abs() == t1;
      r := Reconfig(instance, mode, value, cnt);
      if r == 0 {
        slots[instance] := slots[instance].(state := Armed);
        r := instance;
      } else {
        slots[instance] := slots[instance].(context := 0);
      }
    }

    /** tmr_mngr_stop: only an ARMED slot can be stopped; one whose deadline is
        inside the margin is marked STOPPED for the IRQ to reap
        (-EINPROGRESS); otherwise it is taken out of the tree, made IDLE and
        freed, with -EFAULT when it was not in the tree. The index is not
        checked by the firmware, so it must be a slot index. */
    method Stop(instance: nat, cnt: u32) returns (r: int)
      requires Valid() && instance < NUM
      modifies slots, elements, tree, allocatedTimers
      ensures (Abs(), r) == AfterStop(old(Abs()), instance, cnt)
      ensures Valid()
    {
      ghost var t := Abs();
      StopKeepsInv(t, instance, cnt);
      r := 0;
      if slots[instance].state != Armed {
        return -EPERM;
      }
      if !ConstrCheck(slots[instance].nextCc, cnt) {
        slots[instance] := slots[instance].(state := Stopped);
        r := -EINPROGRESS;
      } else {
        r := Cancel(instance);
      }
    }

    /** The cancelling branch of tmr_mngr_stop. */
    method Cancel(instance: nat) returns (r: int)
      requires Shape() && tree.attached && instance < NUM
      modifies slots, elements, tree, allocatedTimers
      ensures Shape() && tree.attached
      ensures Abs() == AfterCancel(old(Abs()), instance).0
      ensures r == AfterCancel(old(Abs()), instance).1
    {
      ghost var t := Abs();
      var removed := tree.Remove(instance, slots[..]);
      assert Abs() == AfterRemove(t, instance).0;
      r := 0;
      if removed != 0 {
        r := -EFAULT;
      }
      slots[instance] := slots[instance].(state := Idle);
      FreeSlot(instance);
    }

    /** What one pass of the inner loop of tmr_mngr_back_cc_irq does to the
        slot p it popped: an ARMED slot hands its context to the handler
        (returned in ctx), then a periodic one moves on by one interval and
        waits for the reload and a one-shot one is freed by its timer_id; any
        other slot is freed without a call. */
    method ExpireSlot(p: nat) returns (ctx: Option<u32>)
      requires slots.Length == NUM && allocatedTimers.Length == 1 && p < NUM && slots[p].timerId == p
      modifies slots, allocatedTimers
      ensures ctx == if old(slots[p]).state == Armed then Some(old(slots[p]).context) else None
      ensures slots[..] == old(slots[..])[p := Expired(old(slots[p]))]
      ensures allocatedTimers[..] ==
                if FreedOnExpiry(old(slots[p])) then FreeMask(p, old(allocatedTimers[..])) else old(allocatedTimers[..])
    {
      ctx := None;
      if slots[p].state == Armed {
        ctx := Some(slots[p].context);
        match slots[p].mode {
          case Periodic =>
            slots[p] := slots[p].(nextCc := AddU64(slots[p].nextCc, slots[p].periodicValue), reload := true);
          case OneShot =>
            FreeSlot(slots[p].timerId);
        }
      } else {
        FreeSlot(slots[p].timerId);
      }
    }

    /** One pass of the inner loop of tmr_mngr_back_cc_irq: pop the root and
        expire its slot; the loop goes on while the new root is due by cnt. */
    method ExpireRoot(cnt: u32) returns (ctx: Option<u32>, again: bool)
      requires IrqValid() && 0 < tree.write
      modifies slots, elements, tree, allocatedTimers
      ensures Root(old(Abs())).Elem? && Root(old(Abs())).slot < NUM
      ensures Abs() == AfterExpire(old(Abs()), cnt).0
      ensures ctx == AfterExpire(old(Abs()), cnt).1
      ensures again == AfterExpire(old(Abs()), cnt).2
      ensures IrqValid()
    {
      ghost var t := Abs();
      ExpireKeepsInv(t, cnt);
      ghost var r := AfterExpire(t, cnt);
      var pop := tree.Pop(slots[..]);
      ctx := ExpireSlot(pop.slot);
      assert Abs() == r.0;
      RootFacts(r.0);
      var next := tree.Get();
      assert next == Root(r.0);
      assert next != Null ==> slots[next.slot].nextCc == RootCc(r.0);
      again := true;
      if next == Null || cnt < slots[next.slot].nextCc {
        again := false;
      }
    }

    /** The inner loop of tmr_mngr_back_cc_irq: pop until the tree is empty
        or its root lies after cnt; the contexts handed to the handler come
        out in the order of the calls. */
    method Drain(cnt: u32) returns (fired: seq<u32>)
      requires IrqValid() && 0 < tree.write
      modifies slots, elements, tree, allocatedTimers
      ensures Abs() == AfterDrain(old(Abs()), cnt).0
      ensures fired == AfterDrain(old(Abs()), cnt).1
      ensures IrqValid()
    {
      ghost var t := Abs();
      ghost var goal := AfterDrain(t, cnt);
      CallsInOrder([], [], goal.1);
      fired := [];
      var again := true;
      while again
        invariant IrqValid() && (again ==> 0 < tree.write)
        invariant again ==> goal.0 == AfterDrain(Abs(), cnt).0 && goal.1 == fired + AfterDrain(Abs(), cnt).1
        invariant !again ==> goal.0 == Abs() && goal.1 == fired
        decreases tree.write
      {
        ghost var a, f0 := Abs(), fired;
        DrainUnfold(a, cnt);
        var ctx;
        ctx, again := ExpireRoot(cnt);
        fired := fired + Handed(ctx);
        if again {
          CallsInOrder(f0, Handed(ctx), AfterDrain(Abs(), cnt).1);
        }
      }
    }

    /** One step of the reload loop of tmr_mngr_back_cc_irq: a slot waiting
        for the reload has its flag cleared and is pushed back. */
    method ReloadEntry(i: nat)
      requires Shape() && tree.attached && i < NUM
      modifies slots, elements, tree
      ensures Shape() && tree.attached
      ensures Abs() == ReloadOne(old(Abs()), i)
    {
      ghost var a := Abs();
      if slots[i].reload {
        slots[i] := slots[i].(reload := false);
        ghost var a1 := Abs();
        assert a1 == a.(pool := a.pool[i := a.pool[i].(reload := false)]);
        var pushed := tree.Push(i, slots[..]);
        assert elements[..] == AfterPush(a1, i).heap;
      }
    }

    /** The reload loop of tmr_mngr_back_cc_irq: every slot waiting for the
        reload has its flag cleared and is pushed back, in slot order. */
    method Reload()
      requires IrqValid()
      modifies slots, elements, tree
      ensures Abs() == AfterReload(old(Abs()), 0)
      ensures Valid()
    {
      ghost var t := Abs();
      ReloadKeepsInv(t, 0);
      var i := 0;
      while i < NUM
        invariant 0 <= i <= NUM
        invariant Shape() && tree.attached
        invariant AfterReload(Abs(), i) == AfterReload(t, 0)
      {
        ReloadEntry(i);
        i := i + 1;
      }
    }

    /** The end of a pass of the outer loop of tmr_mngr_back_cc_irq: arm the
        compare register with the deadline of the root p. */
    method ArmRoot(p: nat, cnt: u32) returns (rc: int)
      requires Valid() && Root(Abs()) == Elem(p)
      modifies rtc
      ensures rc == AfterCcSet(old(Abs()), RootCc(old(Abs())), cnt).1
      ensures Abs() == AfterCcSet(old(Abs()), RootCc(old(Abs())), cnt).0
      ensures Valid()
    {
      ghost var a := Abs();
      RootFacts(a);
      rc := rtc.CcSet(slots[p].nextCc, cnt);
      SameInv(a, Abs());
    }

    /** One pass of the outer loop of tmr_mngr_back_cc_irq: the inner loop
        when current_process is set, the reload loop, then the attempt to arm
        the compare register for the root. */
    method Pass(cnt: u32, process: bool) returns (handed: seq<u32>, end: PassEnd)
      requires Valid() && (process ==> 0 < tree.write)
      modifies slots, elements, tree, allocatedTimers, rtc
      ensures Abs() == IrqPass(old(Abs()), cnt, process).0
      ensures handed == IrqPass(old(Abs()), cnt, process).1
      ensures end == IrqPass(old(Abs()), cnt, process).2
      ensures Valid()
    {
      ghost var a := Abs();
      ghost var dr := DrainReload(a, cnt, process);
      PassCases(a, cnt, process);
      ghost var d := if process then AfterDrain(a, cnt) else (a, []);
      handed := [];
      if process {
        handed := Drain(cnt);
      }
      assert Abs() == d.0 && handed == d.1;
      Reload();
      assert Abs() == dr.0;
      RootFacts(dr.0);
      var root := tree.Get();
      assert root == Root(dr.0);
      end := Spin;
      if root != Null {
        var rc := ArmRoot(root.slot, cnt);
        if rc == -EPERM {
          end := Retry;
        } else {
          end := Rearmed;
        }
      }
    }

    /** tmr_mngr_back_cc_irq, for at most `fuel` passes of its outer loop.
        done says that the loop ended: it ends only by arming the compare
        register for the root, so on an empty tree it would spin forever. */
    method CcIrq(cnt: u32, fuel: nat) returns (fired: seq<u32>, done: bool)
      requires Valid() && 0 < tree.write
      modifies slots, elements, tree, allocatedTimers, rtc
      ensures Abs() == AfterIrq(old(Abs()), cnt, fuel, true).0
      ensures fired == AfterIrq(old(Abs()), cnt, fuel, true).1
      ensures done == AfterIrq(old(Abs()), cnt, fuel, true).2
      ensures Valid()
    {
      ghost var goal := AfterIrq(Abs(), cnt, fuel, true);
      ghost var rest := goal;
      CallsInOrder([], [], goal.1);
      fired := [];
      var onceAgain, currentProcess := true, true;
      var f := fuel;
      while f > 0
        invariant Valid() && (currentProcess ==> 0 < tree.write)
        invariant rest == AfterIrq(Abs(), cnt, f, currentProcess)
        invariant goal.0 == rest.0 && goal.1 == fired + rest.1 && goal.2 == rest.2
        decreases f
      {
        ghost var a, f0, cp := Abs(), fired, currentProcess;
        IrqUnfold(a, cnt, f, cp);
        var handed, end := Pass(cnt, currentProcess);
        fired := fired + handed;
        if end == Rearmed {
          onceAgain := false;
          break;
        }
        currentProcess := end == Retry;
        f := Spend(f);
        rest := AfterIrq(Abs(), cnt, f, currentProcess);
        CallsInOrder(f0, handed, rest.1);
      }
      if onceAgain {
        CallsInOrder(fired, [], []);
      }
      done := !onceAgain;
    }

    /** RTC0_IRQHandler: the handler of the manager runs only when the
        COMPARE[0] event is pending; Rtc.TakeCompareEvent clears the event
        before it runs. */
    method RtcIrq(cnt: u32, fuel: nat) returns (fired: seq<u32>, done: bool)
      requires Valid() && (rtc.compareEvent ==> 0 < tree.write)
      modifies slots, elements, tree, allocatedTimers, rtc
      ensures Valid()
      ensures !old(rtc.compareEvent) ==> Abs() == old(Abs()) && fired == [] && !done
      ensures old(rtc.compareEvent) ==> Abs() == AfterIrq(old(Abs()), cnt, fuel, true).0
      ensures old(rtc.compareEvent) ==> fired == AfterIrq(old(Abs()), cnt, fuel, true).1
      ensures old(rtc.compareEvent) ==> done == AfterIrq(old(Abs()), cnt, fuel, true).2
    {
      ghost var t := Abs();
      var pending := rtc.TakeCompareEvent();
      assert Abs() == t;
      fired, done := [], false;
      if pending {
        fired, done := CcIrq(cnt, fuel);
      }
    }
  }
}
