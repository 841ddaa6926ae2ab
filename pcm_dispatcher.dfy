/** The Power Control Dispatcher (dispatcher.c): the current state of every
    resource, and the choice of response to an event, which may hand a
    return to the scheduler for later. */
module PcmDispatcher {
  import opened Base
  import opened PmTypes
  import opened PcmScheduler

  /** enum pm_pcm_dispatcher_event. */
  datatype Event = PowerEvent | PmicEvent | DelayedEvent

  /** The mode every resource starts in: the highest one. */
  const START_MODE: u8 := MODE_NUM - 1

  /** pm_pcm_dispatcher_traversal_request: the traversal itself is not
      written yet, so every request is answered OK for what it asks. */
  function TraversalRequest(req: PowerRequest): (r: PmReturn)
    ensures r.response == Ok
    ensures r.domain == req.domain && r.resource == req.resource && r.mode == req.mode
  {
    PmReturn(Ok, req.domain, req.resource, req.mode)
  }

  /** pm_pcm_dispatcher_event_request on the scheduler's pool as a value.
      A power event is answered by its traversal: at once when its time is
      0, otherwise by scheduling the traversal's return, answering NONE, or
      ERROR when the pool is exhausted. Any other event reads nothing of its
      context and answers IMPOSSIBLE in an otherwise uninitialised return,
      whose contents are the input `stale`. */
  function Respond(evt: Event, req: PowerRequest, stale: PmReturn, pool: seq<Entry>): (r: (PmReturn, seq<Entry>))
    requires Numbered(pool)
    ensures |r.1| == |pool|
    ensures r.1 != pool ==> evt == PowerEvent && req.time != 0 && r.0.response == NoResponse
  {
    if evt == PowerEvent then
      var ret := TraversalRequest(req);
      if req.time != 0 && ret.response != Impossible then
        var (p, rc) := ScheduleReturn(pool, ret);
        if rc != 0 then (ret.(response := Error), p) else (ret.(response := NoResponse), p)
      else (ret, pool)
    else (stale.(response := Impossible), pool)
  }

  /** The responses of the dispatcher, case by case: every non-power event is
      IMPOSSIBLE and leaves the pool; an immediate power event is OK and
      leaves the pool; a delayed one is NONE exactly when a return could be
      scheduled and ERROR exactly when not. A power event always answers for
      the domain, resource and mode it asked about. */
  lemma RespondCases(evt: Event, req: PowerRequest, stale: PmReturn, pool: seq<Entry>)
    requires Numbered(pool)
    ensures var (ret, p) := Respond(evt, req, stale, pool);
            (evt != PowerEvent ==> ret == stale.(response := Impossible) && p == pool) &&
            (evt == PowerEvent ==> ret.domain == req.domain && ret.resource == req.resource && ret.mode == req.mode) &&
            (evt == PowerEvent && req.time == 0 ==> ret.response == Ok && p == pool) &&
            (evt == PowerEvent && req.time != 0 ==>
               (ret.response == NoResponse <==> exists j :: 0 <= j < |pool| && pool[j].free) &&
               (ret.response == Error <==> forall j :: 0 <= j < |pool| ==> !pool[j].free) &&
               p == ScheduleReturn(pool, TraversalRequest(req)).0)
  {
    ScheduleEffect(pool, TraversalRequest(req));
  }

  /** What a delayed power event leaves in the pool is the traversal's own
      return, answered OK: the copy is taken before the response is set to
      NONE. */
  lemma ScheduledReturnIsOk(req: PowerRequest, stale: PmReturn, pool: seq<Entry>)
    requires Numbered(pool) && req.time != 0 && FirstFree(pool).Some?
    ensures var k := FirstFree(pool).value;
            var p := Respond(PowerEvent, req, stale, pool).1;
            k < |p| && p[k].ret == PmReturn(Ok, req.domain, req.resource, req.mode) && !p[k].free
  {
    ScheduleEffect(pool, TraversalRequest(req));
  }

  /** The delayed-event request of time_callback changes nothing, so
      discarding its answer loses nothing. */
  lemma DelayedChangesNothing(req: PowerRequest, stale: PmReturn, pool: seq<Entry>)
    requires Numbered(pool)
    ensures Respond(DelayedEvent, req, stale, pool).1 == pool
    ensures Respond(DelayedEvent, req, stale, pool).0.response == Impossible
  {
  }

  /** state_now, and the scheduler the dispatcher hands delayed returns to. */
  class Dispatcher {
    const stateNow: array<u8>
    const sched: Scheduler

    ghost predicate Valid()
      reads this, sched, sched.list
    {
      stateNow.Length == RESOURCE_NUM && sched.Valid()
    }

    constructor (s: Scheduler)
      ensures stateNow.Length == RESOURCE_NUM && sched == s && fresh(stateNow)
      ensures forall i :: 0 <= i < RESOURCE_NUM ==> stateNow[i] == 0
    {
      stateNow := new u8[RESOURCE_NUM](_ => 0);
      sched := s;
    }

    /** pm_pcm_dispatcher_init: every resource is put in the highest mode. */
    method Init()
      requires stateNow.Length == RESOURCE_NUM
      modifies stateNow
      ensures forall i :: 0 <= i < RESOURCE_NUM ==> stateNow[i] == START_MODE
    {
      var i := 0;
      while i < RESOURCE_NUM
        invariant 0 <= i <= RESOURCE_NUM
        invariant forall j :: 0 <= j < i ==> stateNow[j] == START_MODE
      {
        stateNow[i] := START_MODE;
        i := i + 1;
      }
    }

    /** pm_pcm_dispatcher_event_request; `req` is what a power event's
        context points to. */
    method EventRequest(evt: Event, req: PowerRequest, stale: PmReturn) returns (ret: PmReturn)
      requires Valid()
      modifies sched.list
      ensures Valid()
      ensures ret == Respond(evt, req, stale, old(sched.list[..])).0
      ensures sched.list[..] == Respond(evt, req, stale, old(sched.list[..])).1
    {
      if evt == PowerEvent {
        ret := TraversalRequest(req);
        if req.time != 0 && ret.response != Impossible {
          var rc := sched.ReturnDelayed(ret, req.time);
          if rc != 0 {
            ret := ret.(response := Error);
            return;
          }
          ret := ret.(response := NoResponse);
        }
      } else {
        ret := stale.(response := Impossible);
      }
    }
  }
}
