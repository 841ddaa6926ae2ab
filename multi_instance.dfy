/** The bookkeeping of the multi-instance IPC library (multi_instance.c)
    with automatic shared-memory allocation: the static tables of endpoints
    and instances, the shared-memory layout of an instance, the result
    mapping of ipc_send and the receive loop with its zero-length handshake.
    Every call into OpenAMP, libmetal or the IPM driver is an input: the
    status it returns, or for reception the queue of messages it yields. */
module MultiInstance {
  import opened Base
  import opened MultiInstanceH

  /** uint32_t subtraction: modulo 2^32. */
  function SubU32(a: u32, b: u32): (r: u32)
    ensures b <= a ==> r == a - b
    ensures a < b ==> r == a - b + U32_LIMIT
  {
    (a - b) % U32_LIMIT
  }

  /** struct ipc_config_t, without the IPM channel names. */
  datatype IpcConfig = IpcConfig(vringSize: u8, shmemAddr: u32, shmemSize: u32)

  /** The fields ipc_configure_shmem assigns, in uint32_t arithmetic:
      status register at the base, local region after the status word, the
      receive vring after both buffer areas and the transmit vring after it. */
  function ConfigureShmem(cfg: IpcConfig): (r: ShmLayout)
    ensures r.statusReg == cfg.shmemAddr
    ensures cfg.shmemAddr + VDEV_STATUS_SIZE < U32_LIMIT ==> r.localStart == cfg.shmemAddr + VDEV_STATUS_SIZE
    ensures VDEV_STATUS_SIZE <= cfg.shmemSize ==> r.localSize == cfg.shmemSize - VDEV_STATUS_SIZE
  {
    var localStart := AddU32(cfg.shmemAddr, VDEV_STATUS_SIZE);
    var localSize := SubU32(cfg.shmemSize, VDEV_STATUS_SIZE);
    var rpmsgRegSize := 2 * VirtqueueSize(cfg.vringSize);
    var vringRegionSize := VringSize(cfg.vringSize);
    var rx := AddU32(localStart, rpmsgRegSize);
    ShmLayout(cfg.shmemAddr, localStart, localSize, rx, AddU32(rx, vringRegionSize))
  }

  /** An instance whose region does not run past the end of the address
      space is laid out in order, and its transmit vring ends exactly where
      SHMEM_INST_SIZE_GET says the instance ends. */
  lemma ShmemPlacement(cfg: IpcConfig)
    requires cfg.shmemAddr + InstSize(cfg.vringSize) < U32_LIMIT
    ensures var r := ConfigureShmem(cfg);
            r.statusReg == cfg.shmemAddr &&
            r.localStart == cfg.shmemAddr + VDEV_STATUS_SIZE &&
            r.vringRx == r.localStart + 2 * VirtqueueSize(cfg.vringSize) &&
            r.vringTx == r.vringRx + VringSize(cfg.vringSize) &&
            r.statusReg < r.localStart <= r.vringRx < r.vringTx &&
            r.vringTx + VringSize(cfg.vringSize) == cfg.shmemAddr + InstSize(cfg.vringSize)
  {
  }

  /** When the configured size holds a whole instance, both vrings lie
      inside the local region. */
  lemma ShmemInside(cfg: IpcConfig)
    requires cfg.shmemAddr + cfg.shmemSize < U32_LIMIT && InstSize(cfg.vringSize) <= cfg.shmemSize
    ensures var r := ConfigureShmem(cfg);
            r.localSize == cfg.shmemSize - VDEV_STATUS_SIZE &&
            r.localStart <= r.vringRx && r.vringTx + VringSize(cfg.vringSize) <= r.localStart + r.localSize
  {
  }

  /** The local size is computed in unsigned arithmetic: a configured size
      below the status word wraps to a size of almost 4 GiB. */
  lemma ShmemSizeWraps(cfg: IpcConfig)
    requires cfg.shmemSize < VDEV_STATUS_SIZE
    ensures ConfigureShmem(cfg).localSize == cfg.shmemSize + U32_LIMIT - VDEV_STATUS_SIZE
  {
  }

  /** ipc_init on one instance, as a value: a missing IRQ callback is
      refused with -EINVAL before the instance is touched; otherwise the
      callback, its argument and the shared-memory layout are stored, and
      the instance is marked used when the OpenAMP, libmetal and IPM set-up,
      whose first failing status is `setupRc`, succeeds. */
  function InitInstance(inst: Instance, cfg: IpcConfig, irqCb: Option<Callback>, arg: nat, setupRc: int): (r: (Instance, int))
    ensures r.1 == -EINVAL || r.1 == setupRc
    ensures r.0.used ==> inst.used || r.1 == 0
  {
    if irqCb.None? then (inst, -EINVAL)
    else
      var configured := inst.(irqCb := irqCb, arg := arg, shmem := ConfigureShmem(cfg));
      if setupRc != 0 then (configured, setupRc)
      else (configured.(used := true), 0)
  }

  /** ipc_init succeeds exactly when a callback is given and the set-up
      succeeds, and only then marks the instance used; every other flag is
      kept. */
  lemma InitInstanceEffect(inst: Instance, cfg: IpcConfig, irqCb: Option<Callback>, arg: nat, setupRc: int)
    ensures var (u, rc) := InitInstance(inst, cfg, irqCb, arg, setupRc);
            (irqCb.None? ==> rc == -EINVAL && u == inst) &&
            (irqCb.Some? ==> rc == setupRc && u.irqCb == irqCb && u.arg == arg && u.shmem == ConfigureShmem(cfg)) &&
            (rc == 0 <==> irqCb.Some? && setupRc == 0) &&
            (rc == 0 ==> u.used) && (rc != 0 ==> u.used == inst.used)
  {
  }

  /** struct ipc_ept_config_t. */
  datatype EptConfig = EptConfig(eptNo: int, cb: Option<Callback>, arg: nat)

  /** ipc_ept_init on one endpoint, as a value: a missing callback is
      refused with -EINVAL; otherwise callback and argument are stored and
      the rpmsg endpoint is created with ept_no as both its addresses
      (`createRc` is its status); once created, the endpoint is marked used
      and the result is the status `sendRc` of the empty handshake message. */
  function EptInit(e: Endpoint, cfg: EptConfig, createRc: int, sendRc: int): (r: (Endpoint, int))
    ensures r.1 == -EINVAL || r.1 == createRc || r.1 == sendRc
    ensures r.0.handshakeDone == e.handshakeDone
  {
    if cfg.cb.None? then (e, -EINVAL)
    else
      var withCb := e.(cb := cfg.cb, arg := cfg.arg);
      if createRc != 0 then (withCb, createRc)
      else
        var addr: u32 := cfg.eptNo % U32_LIMIT;
        (withCb.(addr := addr, dest := addr, used := true), sendRc)
  }

  /** An endpoint is marked used exactly when its creation succeeded, and
      initialisation never completes a handshake by itself; a failed
      creation returns its status with only the callback and its argument
      stored. */
  lemma EptInitEffect(e: Endpoint, cfg: EptConfig, createRc: int, sendRc: int)
    ensures var (u, rc) := EptInit(e, cfg, createRc, sendRc);
            (cfg.cb.None? ==> rc == -EINVAL && u == e) &&
            (cfg.cb.Some? ==> u.cb == cfg.cb && u.arg == cfg.arg) &&
            (u.used <==> e.used || (cfg.cb.Some? && createRc == 0)) &&
            u.handshakeDone == e.handshakeDone &&
            (cfg.cb.Some? && createRc != 0 ==> rc == createRc && u == e.(cb := cfg.cb, arg := cfg.arg)) &&
            (cfg.cb.Some? && createRc == 0 ==> rc == sendRc) &&
            (cfg.cb.Some? && createRc == 0 && 0 <= cfg.eptNo < U32_LIMIT ==> u.addr == cfg.eptNo)
  {
  }

  /** ipc_send's result: -EINVAL without an endpoint, -ENOTCONN before the
      handshake, and otherwise the status `sent` of rpmsg_send mapped: 0
      when it equals the size (compared as unsigned, as C converts the int),
      a negative status passed on, any other count -EMSGSIZE. */
  function Send(ept: Option<Endpoint>, size: u32, sent: int): (r: int)
    ensures r <= 0
    ensures r == 0 ==> ept.Some? && ept.value.handshakeDone
  {
    if ept.None? then -EINVAL
    else if !ept.value.handshakeDone then -ENOTCONN
    else if sent % U32_LIMIT == size then 0
    else if sent < 0 then sent
    else -EMSGSIZE
  }

  /** For any size below 2^31 and any status rpmsg_send can return, ipc_send
      reports success exactly when the whole buffer was sent, passes
      errors on and reports a short send as -EMSGSIZE. */
  lemma SendCases(ept: Option<Endpoint>, size: u32, sent: int)
    requires size < 0x8000_0000 && -0x8000_0000 <= sent < 0x8000_0000
    ensures ept.None? ==> Send(ept, size, sent) == -EINVAL
    ensures ept.Some? && !ept.value.handshakeDone ==> Send(ept, size, sent) == -ENOTCONN
    ensures ept.Some? && ept.value.handshakeDone ==>
              (Send(ept, size, sent) == 0 <==> sent == size) &&
              (sent < 0 ==> Send(ept, size, sent) == sent) &&
              (0 <= sent && sent != size ==> Send(ept, size, sent) == -EMSGSIZE)
  {
  }

  /** A message rpmsg_virtio_get_rx_buffer yields: the table index of the
      endpoint rpmsg_get_endpoint finds for its destination (None when none
      is bound there), its source address and length, and the status the
      handshake reply would get if one were sent. */
  datatype RxMsg = RxMsg(ept: Option<nat>, src: u32, len: nat, replyRc: int)

  /** What ipc_recv does besides the endpoint table: an endpoint callback
      with CONNECTED or DATA, or a buffer handed back by ipc_free. */
  datatype Note = Connected(ept: nat) | Data(ept: nat, len: nat) | Freed

  /** The effect of one message: whether reading stops, the status if it
      does, the endpoint table after it, and what was done. */
  datatype StepOutcome = StepOutcome(stop: bool, rc: int, epts: seq<Endpoint>, notes: seq<Note>)

  /** What ipc_recv ends with: its status, the endpoint table, what it did,
      and how many messages it consumed. */
  datatype RecvOutcome = RecvOutcome(rc: int, epts: seq<Endpoint>, notes: seq<Note>, taken: nat)

  /** The first message from a remote endpoint binds the destination of an
      endpoint that has none yet. */
  function Bind(e: Endpoint, src: u32): (r: Endpoint)
    ensures r.handshakeDone == e.handshakeDone && r.used == e.used && r.cb == e.cb && r.addr == e.addr
    ensures e.dest != ADDR_ANY ==> r == e
  {
    if e.dest == ADDR_ANY then e.(dest := src) else e
  }

  /** One pass of the ipc_recv loop on a message. A message for an unknown
      endpoint is freed and yields -ENXIO; a zero-length message completes
      the handshake of an endpoint that has not done it (reply, flag,
      CONNECTED; a failing reply is returned as it is) or is freed, and
      reading goes on; any other message is copied, reported as DATA when
      the endpoint has a callback, and ends the call with 0. */
  function Step(epts: seq<Endpoint>, m: RxMsg): (r: StepOutcome)
    requires m.ept.Some? ==> m.ept.value < |epts|
    ensures |r.epts| == |epts| && |r.notes| <= 1
  {
    match m.ept
    case None => StepOutcome(true, -ENXIO, epts, [Freed])
    case Some(k) =>
      var e := Bind(epts[k], m.src);
      if m.len != 0 then StepOutcome(true, 0, epts[k := e], if e.cb.Some? then [Data(k, m.len)] else [])
      else if !e.handshakeDone then
        if m.replyRc != 0 then StepOutcome(true, m.replyRc, epts[k := e], [])
        else StepOutcome(false, 0, epts[k := e.(handshakeDone := true)], [Connected(k)])
      else StepOutcome(false, 0, epts[k := e], [Freed])
  }

  /** One message changes at most the endpoint it is for, never its used
      flag, and of the handshake flag at most sets it; CONNECTED is reported
      for that endpoint only when it had not done the handshake, and leaves
      it done. */
  lemma StepFlags(epts: seq<Endpoint>, m: RxMsg)
    requires m.ept.Some? ==> m.ept.value < |epts|
    ensures var r := Step(epts, m);
            (forall j :: 0 <= j < |epts| && (m.ept.None? || j != m.ept.value) ==> r.epts[j] == epts[j]) &&
            (forall j :: 0 <= j < |epts| ==> r.epts[j].used == epts[j].used && (epts[j].handshakeDone ==> r.epts[j].handshakeDone)) &&
            (forall k: nat :: Connected(k) in r.notes ==>
               m.ept == Some(k) && !epts[k].handshakeDone && r.epts[k].handshakeDone)
  {
  }

  /** When one message ends the call, and with what status: a message for
      no endpoint, a message with data, and a zero-length message whose
      handshake reply fails stop it; a zero-length message for an endpoint
      that has done the handshake never does. */
  lemma StepStops(epts: seq<Endpoint>, m: RxMsg)
    requires m.ept.Some? ==> m.ept.value < |epts|
    ensures var r := Step(epts, m);
            (m.ept.None? ==> r.stop && r.rc == -ENXIO) &&
            (m.ept.Some? && m.len != 0 ==> r.stop && r.rc == 0) &&
            (m.ept.Some? && m.len == 0 ==> (r.stop ==> r.rc == m.replyRc && r.rc != 0)) &&
            (m.ept.Some? && m.len == 0 && m.replyRc == 0 ==> !r.stop) &&
            (m.ept.Some? && m.len == 0 && !epts[m.ept.value].handshakeDone && m.replyRc != 0 ==>
               r.stop && r.rc == m.replyRc) &&
            (m.ept.Some? && m.len == 0 && epts[m.ept.value].handshakeDone ==> !r.stop)
  {
  }

  /** Every message names an endpoint of the table or none. */
  ghost predicate Routed(q: seq<RxMsg>, n: nat)
  {
    forall i :: 0 <= i < |q| ==> q[i].ept.Some? ==> q[i].ept.value < n
  }

  /** ipc_recv on the endpoint table, as a value: passes of Step until one
      stops, or -ENOENT when no message is left. */
  function Recv(epts: seq<Endpoint>, q: seq<RxMsg>): (r: RecvOutcome)
    requires Routed(q, |epts|)
    ensures |r.epts| == |epts| && r.taken <= |q|
    decreases |q|
  {
    if q == [] then RecvOutcome(-ENOENT, epts, [], 0)
    else
      var s := Step(epts, q[0]);
      if s.stop then RecvOutcome(s.rc, s.epts, s.notes, 1)
      else
        var rest := Recv(s.epts, q[1..]);
        RecvOutcome(rest.rc, rest.epts, s.notes + rest.notes, 1 + rest.taken)
  }

  /** ipc_recv never changes whether an endpoint is used, and never undoes
      a handshake. */
  lemma {:induction false} RecvFlagsGrow(epts: seq<Endpoint>, q: seq<RxMsg>)
    requires Routed(q, |epts|)
    ensures forall k :: 0 <= k < |epts| ==>
              Recv(epts, q).epts[k].used == epts[k].used &&
              (epts[k].handshakeDone ==> Recv(epts, q).epts[k].handshakeDone)
    decreases |q|
  {
    if q != [] {
      var s := Step(epts, q[0]);
      StepFlags(epts, q[0]);
      if !s.stop {
        RecvFlagsGrow(s.epts, q[1..]);
      }
    }
  }

  /** An endpoint is reported CONNECTED at most once per call, only if it
      had not done the handshake, and with its flag set afterwards. */
  lemma {:induction false} ConnectedOnce(epts: seq<Endpoint>, q: seq<RxMsg>, k: nat)
    requires Routed(q, |epts|) && k < |epts|
    ensures multiset(Recv(epts, q).notes)[Connected(k)] <= 1
    ensures Connected(k) in Recv(epts, q).notes ==>
              !epts[k].handshakeDone && Recv(epts, q).epts[k].handshakeDone
    decreases |q|
  {
    if q != [] {
      var s := Step(epts, q[0]);
      StepFlags(epts, q[0]);
      if !s.stop {
        var rest := Recv(s.epts, q[1..]);
        ConnectedOnce(s.epts, q[1..], k);
        RecvFlagsGrow(s.epts, q[1..]);
        assert multiset(s.notes + rest.notes) == multiset(s.notes) + multiset(rest.notes);
        if Connected(k) in s.notes {
          assert Connected(k) !in rest.notes;
        }
      }
    }
  }

  /** How ipc_recv stops: every message it read past was a zero-length
      message for a known endpoint; it returns 0 exactly when the last
      message it took carried data for a known endpoint and -ENXIO when that
      one was for no endpoint; when that one was a zero-length message for a
      known endpoint, its failing reply status is the result, or the queue
      was read to the end and the result is -ENOENT; and a queue of zero-length messages for known
      endpoints whose replies succeed is read to the end, giving -ENOENT. */
  lemma {:induction false} RecvStops(epts: seq<Endpoint>, q: seq<RxMsg>)
    requires Routed(q, |epts|)
    ensures var r := Recv(epts, q);
            (forall i :: 0 <= i < r.taken - 1 ==> q[i].len == 0 && q[i].ept.Some?) &&
            (r.taken == 0 <==> q == []) &&
            (0 < r.taken ==> (r.rc == 0 <==> q[r.taken - 1].len != 0 && q[r.taken - 1].ept.Some?)) &&
            (0 < r.taken && q[r.taken - 1].ept.None? ==> r.rc == -ENXIO) &&
            (0 < r.taken && q[r.taken - 1].len == 0 && q[r.taken - 1].ept.Some? ==>
               (r.rc == q[r.taken - 1].replyRc && r.rc != 0) || (r.rc == -ENOENT && r.taken == |q|)) &&
            ((forall i :: 0 <= i < |q| ==> q[i].len == 0 && q[i].ept.Some? && q[i].replyRc == 0) ==>
               r.rc == -ENOENT && r.taken == |q|)
    decreases |q|
  {
    if q != [] {
      var s := Step(epts, q[0]);
      StepStops(epts, q[0]);
      if !s.stop {
        RecvStops(s.epts, q[1..]);
        var rest := Recv(s.epts, q[1..]);
        assert forall i :: 0 <= i < rest.taken - 1 ==> q[1..][i] == q[i + 1];
        if 0 < rest.taken {
          assert q[1..][rest.taken - 1] == q[rest.taken];
        }
      }
    }
  }

  /** Once ipc_recv has reported an endpoint CONNECTED, ipc_send on it
      passes the status of rpmsg_send through its mapping instead of
      refusing with -ENOTCONN. */
  lemma ConnectedThenSend(epts: seq<Endpoint>, q: seq<RxMsg>, k: nat, size: u32, sent: int)
    requires Routed(q, |epts|) && k < |epts| && Connected(k) in Recv(epts, q).notes
    ensures Send(Some(Recv(epts, q).epts[k]), size, sent) ==
            (if sent % U32_LIMIT == size then 0 else if sent < 0 then sent else -EMSGSIZE)
  {
    ConnectedOnce(epts, q, k);
  }

  /** Appending what one pass did and then the rest is appending both. */
  lemma NotesInOrder(a: seq<Note>, b: seq<Note>, c: seq<Note>)
    ensures a + (b + c) == (a + b) + c
  {
  }

  /** ipc_ctx: the endpoints and instances of the automatic allocation. */
  class IpcContext {
    const epts: array<Endpoint>
    const inst: array<Instance>

    /** The zero-initialised statics: no endpoint and no instance used. */
    constructor (endpointsNo: nat, instancesNo: nat)
      ensures epts.Length == endpointsNo && inst.Length == instancesNo && fresh(epts) && fresh(inst)
      ensures forall i :: 0 <= i < endpointsNo ==> epts[i] == ZERO_ENDPOINT
      ensures forall i :: 0 <= i < instancesNo ==> inst[i] == ZERO_INSTANCE
    {
      epts := new Endpoint[endpointsNo](_ => ZERO_ENDPOINT);
      inst := new Instance[instancesNo](_ => ZERO_INSTANCE);
    }

    /** ipc_endpoint_get_next_free: the lowest endpoint not marked used. */
    method EndpointGetNextFree() returns (r: Option<nat>)
      ensures r.Some? ==> r.value < epts.Length && !epts[r.value].used &&
                          forall j :: 0 <= j < r.value ==> epts[j].used
      ensures r.None? <==> forall j :: 0 <= j < epts.Length ==> epts[j].used
    {
      var i := 0;
      while i < epts.Length
        invariant 0 <= i <= epts.Length
        invariant forall j :: 0 <= j < i ==> epts[j].used
      {
        if !epts[i].used {
          return Some(i);
        }
        i := i + 1;
      }
      return None;
    }

    /** ipc_inst_get_next_free: the lowest instance not marked used. */
    method InstGetNextFree() returns (r: Option<nat>)
      ensures r.Some? ==> r.value < inst.Length && !inst[r.value].used &&
                          forall j :: 0 <= j < r.value ==> inst[j].used
      ensures r.None? <==> forall j :: 0 <= j < inst.Length ==> inst[j].used
    {
      var i := 0;
      while i < inst.Length
        invariant 0 <= i <= inst.Length
        invariant forall j :: 0 <= j < i ==> inst[j].used
      {
        if !inst[i].used {
          return Some(i);
        }
        i := i + 1;
      }
      return None;
    }

    /** ipc_init on instance i. */
    method Init(i: nat, cfg: IpcConfig, irqCb: Option<Callback>, arg: nat, setupRc: int) returns (r: int)
      requires i < inst.Length
      modifies inst
      ensures inst[..] == old(inst[..])[i := InitInstance(old(inst[i]), cfg, irqCb, arg, setupRc).0]
      ensures r == InitInstance(old(inst[i]), cfg, irqCb, arg, setupRc).1
    {
      if irqCb.None? {
        return -EINVAL;
      }
      inst[i] := inst[i].(irqCb := irqCb, arg := arg, shmem := ConfigureShmem(cfg));
      if setupRc != 0 {
        return setupRc;
      }
      inst[i] := inst[i].(used := true);
      return 0;
    }

    /** ipc_ept_init on endpoint e. */
    method EptInitCall(e: nat, cfg: EptConfig, createRc: int, sendRc: int) returns (r: int)
      requires e < epts.Length
      modifies epts
      ensures epts[..] == old(epts[..])[e := EptInit(old(epts[e]), cfg, createRc, sendRc).0]
      ensures r == EptInit(old(epts[e]), cfg, createRc, sendRc).1
    {
      if cfg.cb.None? {
        return -EINVAL;
      }
      epts[e] := epts[e].(cb := cfg.cb, arg := cfg.arg);
      if createRc != 0 {
        return createRc;
      }
      var addr: u32 := cfg.eptNo % U32_LIMIT;
      epts[e] := epts[e].(addr := addr, dest := addr, used := true);
      return sendRc;
    }

    /** ipc_recv: the do/while loop over the messages the transport yields. */
    method RecvCall(q: seq<RxMsg>) returns (rc: int, notes: seq<Note>, taken: nat)
      requires Routed(q, epts.Length)
      modifies epts
      ensures epts[..] == Recv(old(epts[..]), q).epts
      ensures rc == Recv(old(epts[..]), q).rc
      ensures notes == Recv(old(epts[..]), q).notes
      ensures taken == Recv(old(epts[..]), q).taken
    {
      ghost var whole := Recv(epts[..], q);
      notes, taken := [], 0;
      while true
        invariant taken <= |q| && Routed(q[taken..], epts.Length)
        invariant whole.rc == Recv(epts[..], q[taken..]).rc
        invariant whole.epts == Recv(epts[..], q[taken..]).epts
        invariant whole.notes == notes + Recv(epts[..], q[taken..]).notes
        invariant whole.taken == taken + Recv(epts[..], q[taken..]).taken
        decreases |q| - taken
      {
        if taken == |q| {
          assert q[taken..] == [];
          return -ENOENT, notes, taken;
        }
        ghost var pre, said := epts[..], notes;
        var m := q[taken];
        assert q[taken..][0] == m;
        ghost var s := Step(pre, m);
        if m.ept.None? {
          return -ENXIO, notes + [Freed], taken + 1;
        }
        var k := m.ept.value;
        if epts[k].dest == ADDR_ANY {
          epts[k] := epts[k].(dest := m.src);
        }
        if m.len != 0 {
          if epts[k].cb.Some? {
            notes := notes + [Data(k, m.len)];
          }
          assert epts[..] == s.epts;
          return 0, notes, taken + 1;
        }
        if !epts[k].handshakeDone {
          if m.replyRc != 0 {
            assert epts[..] == s.epts;
            return m.replyRc, notes, taken + 1;
          }
          epts[k] := epts[k].(handshakeDone := true);
          notes := notes + [Connected(k)];
        } else {
          notes := notes + [Freed];
        }
        assert epts[..] == s.epts && notes == said + s.notes && !s.stop;
        assert q[taken..][1..] == q[taken + 1..];
        taken := taken + 1;
        NotesInOrder(said, s.notes, Recv(epts[..], q[taken..]).notes);
      }
    }
  }
}
