/** The Power Control Scheduler (scheduler.c): a pool of 255 scheduled
    returns, each guarded by a binary semaphore that is free while the
    entry is available. */
module PcmScheduler {
  import opened Base
  import opened PmTypes

  const RETURN_NUM: nat := 255   // PM_PCM_SCHEDULER_RETURN_NUM

  /** struct pm_pcm_scheduler_return; `free` is the semaphore's count of 1. */
  datatype Entry = Entry(id: u32, free: bool, ret: PmReturn)

  /** The entry of a zero-initialised static: id 0, semaphore count 0, and an
      all-zero return. */
  const ZERO_ENTRY: Entry := Entry(0, false, PmReturn(Ok, 0, 0, 0))

  /** The lowest index from `from` on whose entry is free, if any. */
  function FirstFreeFrom(s: seq<Entry>, from: nat): (r: Option<nat>)
    requires from <= |s|
    ensures r.Some? ==> from <= r.value < |s| && s[r.value].free &&
                        forall j :: from <= j < r.value ==> !s[j].free
    ensures r.None? ==> forall j :: from <= j < |s| ==> !s[j].free
    decreases |s| - from
  {
    if from == |s| then None
    else if s[from].free then Some(from)
    else FirstFreeFrom(s, from + 1)
  }

  /** The entry pm_pcm_scheduler_scheduled_return_acquire takes: the lowest
      free one. */
  function FirstFree(s: seq<Entry>): (r: Option<nat>)
    ensures r.Some? ==> r.value < |s| && s[r.value].free && forall j :: 0 <= j < r.value ==> !s[j].free
    ensures r.None? ==> forall j :: 0 <= j < |s| ==> !s[j].free
  {
    FirstFreeFrom(s, 0)
  }

  /** Every entry carries its own index as id, as pm_pcm_scheduler_init
      leaves them. */
  ghost predicate Numbered(s: seq<Entry>)
  {
    forall i :: 0 <= i < |s| ==> s[i].id == i
  }

  /** pm_pcm_scheduler_return_delayed on the pool as a value: the lowest free
      entry is taken and holds a copy of the return; with none free the pool
      is left alone and -ENOMEM is the result. */
  function ScheduleReturn(s: seq<Entry>, ret: PmReturn): (r: (seq<Entry>, int))
    requires Numbered(s)
    ensures |r.0| == |s| && (r.1 == 0 || r.1 == -ENOMEM)
    ensures r.1 != 0 ==> r.0 == s
  {
    match FirstFree(s)
    case None => (s, -ENOMEM)
    case Some(k) => (s[k := Entry(s[k].id, false, ret)], 0)
  }

  /** A scheduled return takes exactly one entry, the lowest free one, and
      stores the return there; a refused one changes nothing, and it is
      refused exactly when no entry is free. */
  lemma ScheduleEffect(s: seq<Entry>, ret: PmReturn)
    requires Numbered(s)
    ensures var (u, rc) := ScheduleReturn(s, ret);
            |u| == |s| && Numbered(u) &&
            (rc == 0 <==> exists j :: 0 <= j < |s| && s[j].free) &&
            (rc != 0 ==> rc == -ENOMEM && u == s) &&
            (rc == 0 ==> var k := FirstFree(s).value;
                         !u[k].free && u[k].ret == ret &&
                         (forall j :: 0 <= j < k ==> !s[j].free) &&
                         (forall j :: 0 <= j < |s| && j != k ==> u[j] == s[j]))
  {
    if FirstFree(s).Some? {
      var k := FirstFree(s).value;
      var u := ScheduleReturn(s, ret).0;
      assert forall j :: 0 <= j < |s| ==> u[j].id == (if j == k then s[k].id else s[j].id);
    }
  }

  /** pm_pcm_scheduler_scheduled_return_free on the pool as a value: the
      semaphore of entry id is given; a binary semaphore saturates, so an
      entry that is free stays free. */
  function Release(s: seq<Entry>, id: nat): (r: seq<Entry>)
    requires id < |s|
    ensures |r| == |s| && r[id].free
    ensures forall j :: 0 <= j < |s| && j != id ==> r[j] == s[j]
    ensures r[id].id == s[id].id && r[id].ret == s[id].ret
  {
    s[id := s[id].(free := true)]
  }

  /** Giving a semaphore twice is the same as giving it once. */
  lemma ReleaseIdempotent(s: seq<Entry>, id: nat)
    requires id < |s|
    ensures Release(Release(s, id), id) == Release(s, id)
  {
  }

  /** Freeing the entry a scheduled return took gives back the pool it was
      taken from, but for the copied return. */
  lemma ReleaseUndoesSchedule(s: seq<Entry>, ret: PmReturn)
    requires Numbered(s) && FirstFree(s).Some?
    ensures var k := FirstFree(s).value;
            Release(ScheduleReturn(s, ret).0, k) == s[k := s[k].(ret := ret)]
  {
  }

  /** scheduled_list. */
  class Scheduler {
    const list: array<Entry>

    ghost predicate Valid()
      reads this, list
    {
      list.Length == RETURN_NUM && Numbered(list[..])
    }

    /** The zero-initialised statics: no entry is free before
        pm_pcm_scheduler_init has run. */
    constructor ()
      ensures list.Length == RETURN_NUM && fresh(list)
      ensures forall i :: 0 <= i < RETURN_NUM ==> list[i] == ZERO_ENTRY
      ensures FirstFree(list[..]).None?
    {
      list := new Entry[RETURN_NUM](_ => ZERO_ENTRY);
    }

    /** pm_pcm_scheduler_init: every semaphore is initialised free and every
        entry numbered with its index; the stored returns are kept. */
    method Init()
      requires list.Length == RETURN_NUM
      modifies list
      ensures Valid()
      ensures forall i :: 0 <= i < RETURN_NUM ==> list[i] == Entry(i, true, old(list[i].ret))
    {
      var i := 0;
      while i < RETURN_NUM
        invariant 0 <= i <= RETURN_NUM
        invariant forall j :: 0 <= j < i ==> list[j] == Entry(j, true, old(list[j].ret))
        invariant forall j :: i <= j < RETURN_NUM ==> list[j] == old(list[j])
      {
        list[i] := Entry(i, true, list[i].ret);
        i := i + 1;
      }
    }

    /** pm_pcm_scheduler_scheduled_return_acquire: the first-fit scan that
        takes the lowest free entry and yields its id. */
    method Acquire() returns (rc: int, id: u32)
      requires Valid()
      modifies list
      ensures Valid()
      ensures FirstFree(old(list[..])).None? ==> rc == -ENOMEM && list[..] == old(list[..])
      ensures FirstFree(old(list[..])).Some? ==>
                rc == 0 && id == FirstFree(old(list[..])).value &&
                list[..] == old(list[..])[id := old(list[id]).(free := false)]
    {
      var i := 0;
      while i < RETURN_NUM
        invariant 0 <= i <= RETURN_NUM
        invariant FirstFree(list[..]) == FirstFreeFrom(list[..], i)
      {
        if list[i].free {
          list[i] := list[i].(free := false);
          return 0, list[i].id;
        }
        i := i + 1;
      }
      return -ENOMEM, 0;
    }

    /** pm_pcm_scheduler_scheduled_return_free; id is not range-checked by
        the firmware, so it is required to name an entry. */
    method Free(id: u32)
      requires Valid() && id < RETURN_NUM
      modifies list
      ensures Valid() && list[..] == Release(old(list[..]), id)
    {
      list[id] := list[id].(free := true);
    }

    /** pm_pcm_scheduler_return_delayed: the acquired entry receives a copy
        of the return. The time callback it registers is not modelled. */
    method ReturnDelayed(ret: PmReturn, time: u64) returns (rc: int)
      requires Valid()
      modifies list
      ensures Valid()
      ensures list[..] == ScheduleReturn(old(list[..]), ret).0
      ensures rc == ScheduleReturn(old(list[..]), ret).1
    {
      var got, id := Acquire();
      if got != 0 {
        return -ENOMEM;
      }
      list[id] := list[id].(ret := ret);
      return 0;
    }

    /** time_callback: the delayed-event request is handed the return of
        entry 0 whatever id fired, and its answer is discarded; then entry
        id is freed. `handed` is what the request receives. */
    method TimeCallback(id: u32) returns (handed: PmReturn)
      requires Valid() && id < RETURN_NUM
      modifies list
      ensures handed == old(list[0].ret)
      ensures Valid() && list[..] == Release(old(list[..]), id)
    {
      handed := list[0].ret;
      Free(id);
    }
  }
}
