/** The internal timer service (tmr_srv_int.c): one callback per request
    source, timeouts started as one-shot timers of the timer manager, and the
    manager's handler dispatching an expiry to the callback of the source
    carried in the timer context. */
module TmrSrvInt {
  import opened Base
  import opened PotElement
  import opened Pot
  import opened TimerState
  import opened TmrMngr

  /** tmr_srv_int_src_t with both request sources configured in. */
  const PM_SRC: nat := 0
  const EXT_SRC: nat := 1
  const SOURCES: nat := 2   // TMR_SRV_NB_OF_REQ_SRCS

  /** tmr_srv_int_context_t, travelling through the manager as a uint32_t. */
  datatype SrvContext = SrvContext(source: u8, id: u8)

  /** The uint32_t a context is carried in: the source in the low byte, the
      id in the byte above it, the two upper bytes clear. */
  function Pack(c: SrvContext): (r: u32)
    ensures r < 0x1_0000
  {
    c.source + 0x100 * c.id
  }

  /** The context a uint32_t carries: its two low bytes. */
  function Unpack(x: u32): (r: SrvContext)
    ensures Pack(r) == x % 0x1_0000
  {
    SrvContext(x % 0x100, (x / 0x100) % 0x100)
  }

  /** A packed context reads back as itself. */
  lemma UnpackPack(c: SrvContext)
    ensures Unpack(Pack(c)) == c
  {
  }

  /** A callback, named by the function it points to. */
  type Callback = nat

  /** A call the service makes: the callback and the context it is given. */
  datatype Call = Call(callback: Callback, arg: SrvContext)

  /** tmr_srv_int_callback_register on the callbacks table as a value: the
      first registration of a source stores the callback, any later one is
      refused with -EEXIST. */
  function Register(table: seq<Option<Callback>>, src: nat, callback: Option<Callback>): (r: (seq<Option<Callback>>, int))
    requires src < |table|
    ensures |r.0| == |table|
    ensures r.1 == 0 || r.1 == -EEXIST
  {
    if table[src].None? then (table[src := callback], 0) else (table, -EEXIST)
  }

  /** Registering for a free source stores the callback and touches no other
      source; registering for a taken one changes nothing. */
  lemma RegisterEffect(table: seq<Option<Callback>>, src: nat, callback: Option<Callback>)
    requires src < |table|
    ensures var (t, rc) := Register(table, src, callback);
            (rc == 0 <==> table[src].None?) && (rc != 0 ==> rc == -EEXIST && t == table) &&
            (rc == 0 ==> t[src] == callback) &&
            (forall s :: 0 <= s < |table| && s != src ==> t[s] == table[s])
  {
  }

  /** Once a source holds a callback, every further registration for it is
      refused and leaves the table alone. */
  lemma RegisterOnce(table: seq<Option<Callback>>, src: nat, first: Callback, second: Option<Callback>)
    requires src < |table| && table[src].None?
    ensures var t := Register(table, src, Some(first)).0;
            Register(t, src, second) == (t, -EEXIST) && t[src] == Some(first)
  {
  }

  /** tmr_srv_int_handler: the call made for the context an expired timer
      carries, when its source holds a callback (NRF_ASSERT checks nothing,
      so an unregistered source is a precondition). */
  function Dispatch(table: seq<Option<Callback>>, context: u32): (r: Call)
    requires Unpack(context).source < |table| && table[Unpack(context).source].Some?
    ensures r.arg == Unpack(context)
  {
    var c := Unpack(context);
    Call(table[c.source].value, c)
  }

  /** A timer started with a packed context reaches the callback of that
      context's source with the context itself. */
  lemma DispatchPacked(table: seq<Option<Callback>>, c: SrvContext)
    requires c.source < |table| && table[c.source].Some?
    ensures Dispatch(table, Pack(c)) == Call(table[c.source].value, c)
  {
    UnpackPack(c);
  }

  /** The calls the service makes for the contexts the manager hands out,
      in order. */
  function Deliver(table: seq<Option<Callback>>, fired: seq<u32>): (r: seq<Call>)
    requires forall i :: 0 <= i < |fired| ==> Unpack(fired[i]).source < |table| && table[Unpack(fired[i]).source].Some?
    ensures |r| == |fired|
    ensures forall i :: 0 <= i < |fired| ==> r[i] == Dispatch(table, fired[i])
  {
    if fired == [] then [] else [Dispatch(table, fired[0])] + Deliver(table, fired[1..])
  }

  /** tmr_srv_set_timeout on the manager's state as a value: a context of an
      unknown source is refused with -EAGAIN without touching the manager,
      any other starts a one-shot timer with the timeout as its absolute
      deadline and the context unchanged. */
  function SetTimeout(t: Timers, timeout: u64, ctx: u32, cnt: u32): (r: (Timers, int))
    requires Shaped(t)
    ensures Shaped(r.0)
    ensures r.1 == -EAGAIN <==> Unpack(ctx).source >= SOURCES
  {
    if Unpack(ctx).source >= SOURCES then (t, -EAGAIN)
    else AfterStart(t, OneShot, timeout, ctx, cnt)
  }

  /** What tmr_srv_set_timeout returns: -EAGAIN exactly for an unknown
      source; otherwise the slot index of a started timer, whose deadline is
      the timeout and whose context is ctx, or the refusal of
      tmr_mngr_start. */
  lemma SetTimeoutResult(t: Timers, timeout: u64, ctx: u32, cnt: u32)
    requires Settled(t)
    ensures var (u, rc) := SetTimeout(t, timeout, ctx, cnt);
            (Unpack(ctx).source >= SOURCES ==> rc == -EAGAIN && u == t) &&
            (Unpack(ctx).source < SOURCES && rc >= 0 ==>
               rc < NUM && u.pool[rc].state == Armed && u.pool[rc].mode == OneShot &&
               u.pool[rc].nextCc == timeout && u.pool[rc].context == ctx && Elem(rc) in Queued(u)) &&
            (Unpack(ctx).source < SOURCES && rc < 0 ==> rc == -EPERM || rc == -EFAULT)
  {
    if Unpack(ctx).source < SOURCES {
      StartArms(t, OneShot, timeout, ctx, cnt);
      StartLeaks(t, OneShot, timeout, ctx, cnt);
    }
  }

  /** callbacks and already_initialized of tmr_srv_int.c, with the timer
      manager the service runs on. */
  class IntService {
    const callbacks: array<Option<Callback>>
    var initialized: bool               // already_initialized
    const mngr: TimerManager

    /** One callback per source, in a table of the service's own, distinct
        from the manager's allocation bitmap. */
    ghost predicate Valid()
      reads this
    {
      callbacks.Length == SOURCES && (callbacks as object) != mngr.allocatedTimers
    }

    /** The statics before any call: no callback, not initialised. */
    constructor (m: TimerManager)
      ensures Valid() && callbacks[..] == [None, None]
      ensures !initialized && mngr == m && fresh(callbacks)
    {
      callbacks := new Option<Callback>[SOURCES](_ => None);
      initialized := false;
      mngr := m;
      new;
      assert callbacks[..] == [callbacks[0], callbacks[1]];
    }

    /** tmr_srv_int_init: the first call initialises the manager with the
        service's handler and returns 0; later calls return EEXIST (a
        positive code) and touch nothing. */
    method Init() returns (r: int)
      requires Valid() && mngr.Shape()
      modifies this, mngr, mngr.slots, mngr.elements, mngr.tree, mngr.allocatedTimers, mngr.rtc
      ensures old(initialized) ==> r == EEXIST && initialized && mngr.Abs() == old(mngr.Abs()) &&
                                   mngr.handlerSet == old(mngr.handlerSet)
      ensures !old(initialized) ==> r == 0 && initialized && mngr.handlerSet &&
                                    mngr.Abs() == AfterInit(old(mngr.Abs()), true).0
      ensures mngr.Shape() && callbacks[..] == old(callbacks[..])
    {
      if initialized {
        return EEXIST;
      }
      var ret := mngr.Init(true);
      InitFacts(old(mngr.Abs()));
      if ret < 0 {
        return ret;
      }
      initialized := true;
      return 0;
    }

    /** tmr_srv_int_callback_register. */
    method CallbackRegister(src: nat, callback: Option<Callback>) returns (r: int)
      requires Valid() && src < SOURCES
      modifies callbacks
      ensures callbacks[..] == Register(old(callbacks[..]), src, callback).0
      ensures r == Register(old(callbacks[..]), src, callback).1
    {
      if callbacks[src] == None {
        callbacks[src] := callback;
        return 0;
      }
      return -EEXIST;
    }

    /** tmr_srv_set_timeout. */
    method SetTimeoutCall(timeout: u64, ctx: u32, cnt: u32) returns (r: int)
      requires Unpack(ctx).source < SOURCES ==> mngr.Valid()
      requires mngr.Shape()
      modifies mngr.slots, mngr.elements, mngr.tree, mngr.allocatedTimers, mngr.rtc
      ensures mngr.Abs() == SetTimeout(old(mngr.Abs()), timeout, ctx, cnt).0
      ensures r == SetTimeout(old(mngr.Abs()), timeout, ctx, cnt).1
      ensures Unpack(ctx).source < SOURCES ==> mngr.Valid()
    {
      var src := Unpack(ctx).source;
      if src >= SOURCES {
        return -EAGAIN;
      }
      r := mngr.Start(OneShot, timeout, ctx, cnt);
    }

    /** tmr_srv_int_handler, the handler the manager calls with the context
        of an expired timer. */
    method Handler(context: u32) returns (call: Call)
      requires Valid()
      requires Unpack(context).source < SOURCES && callbacks[Unpack(context).source].Some?
      ensures call == Dispatch(callbacks[..], context)
    {
      var c := Unpack(context);
      call := Call(callbacks[c.source].value, c);
    }
  }
}
