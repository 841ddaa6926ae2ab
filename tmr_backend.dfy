/** The nRF52 RTC backend of the timer manager (tmr_mngr_backend_nrf52.c).
    The RTC counter is an input: every operation receives the counter value
    `cnt` it reads. The compare register CC[0], its interrupt and event
    enables, the COMPARE[0] event flag and the run state are fields. */
module TmrBackend {
  import opened Base

  /** tmr_back_constr_check_handler: a deadline is far enough ahead of the
      counter to be armed and stopped safely. */
  function ConstrCheck(ccValue: u64, cnt: u32): (ok: bool)
    ensures ok <==> ccValue >= cnt + 4
  {
    !(ccValue < cnt || ccValue - cnt <= 3)
  }

  /** The acceptance test of tmr_back_cc_sync_handler. */
  function SyncAccepts(ccValue: u64, cnt: u32): (ok: bool)
    ensures ok <==> ccValue >= cnt + 3
  {
    !(ccValue < cnt || ccValue - cnt < 3)
  }

  /** The acceptance test of tmr_back_cc_handler. */
  function CcAccepts(ccValue: u64, cnt: u32): (ok: bool)
    ensures ok <==> ccValue > cnt
  {
    !(ccValue < cnt || ccValue - cnt < 1)
  }

  /** For one counter reading the three margins are nested. */
  lemma MarginsNested(ccValue: u64, cnt: u32)
    ensures ConstrCheck(ccValue, cnt) ==> SyncAccepts(ccValue, cnt)
    ensures SyncAccepts(ccValue, cnt) ==> CcAccepts(ccValue, cnt)
  {
  }

  /** tmr_back_cnt_get_handler: the counter reading widened to 64 bits. */
  function CntGet(cnt: u32): (r: u64)
    ensures r == cnt && r < U32_LIMIT
  {
    cnt as u64
  }

  /** The RTC0 registers the backend touches. */
  class Rtc {
    var cc: u32             // CC[0]
    var intEnabled: bool    // INTENSET COMPARE0
    var eventEnabled: bool  // EVTENSET COMPARE0
    var compareEvent: bool  // EVENTS_COMPARE[0]
    var running: bool       // between TASKS_START and TASKS_STOP
    var prescaler: nat

    /** The peripheral after reset. */
    constructor ()
      ensures cc == 0 && !intEnabled && !eventEnabled && !compareEvent && !running && prescaler == 0
    {
      cc := 0;
      intEnabled := false;
      eventEnabled := false;
      compareEvent := false;
      running := false;
      prescaler := 0;
    }

    /** tmr_back_init: prescaler 0, counter started. */
    method Init()
      modifies this
      ensures running && prescaler == 0
      ensures cc == old(cc) && intEnabled == old(intEnabled) && eventEnabled == old(eventEnabled)
      ensures compareEvent == old(compareEvent)
    {
      prescaler := 0;
      running := true;
    }

    /** Arm CC[0] with the low 32 bits of ccValue and enable its interrupt and event. */
    method Arm(ccValue: u64)
      modifies this
      ensures cc == TruncU32(ccValue) && intEnabled && eventEnabled
      ensures compareEvent == old(compareEvent) && running == old(running) && prescaler == old(prescaler)
    {
      cc := TruncU32(ccValue);
      intEnabled := true;
      eventEnabled := true;
    }

    /** tmr_back_cc_sync_handler: arm only with at least 3 ticks of margin. */
    method CcSync(ccValue: u64, cnt: u32) returns (r: int)
      modifies this
      ensures r == (if SyncAccepts(ccValue, cnt) then 0 else -EPERM)
      ensures r == 0 ==> cc == TruncU32(ccValue) && intEnabled && eventEnabled
      ensures r != 0 ==> cc == old(cc) && intEnabled == old(intEnabled) && eventEnabled == old(eventEnabled)
      ensures compareEvent == old(compareEvent) && running == old(running) && prescaler == old(prescaler)
    {
      r := 0;
      var c := CntGet(cnt);
      if ccValue < c || ccValue - c < 3 {
        r := -EPERM;
      } else {
        Arm(ccValue);
      }
    }

    /** tmr_back_cc_handler: arm whenever the deadline is still ahead. */
    method CcSet(ccValue: u64, cnt: u32) returns (r: int)
      modifies this
      ensures r == (if CcAccepts(ccValue, cnt) then 0 else -EPERM)
      ensures r == 0 ==> cc == TruncU32(ccValue) && intEnabled && eventEnabled
      ensures r != 0 ==> cc == old(cc) && intEnabled == old(intEnabled) && eventEnabled == old(eventEnabled)
      ensures compareEvent == old(compareEvent) && running == old(running) && prescaler == old(prescaler)
    {
      r := 0;
      var c := CntGet(cnt);
      if ccValue < c || ccValue - c < 1 {
        r := -EPERM;
      } else {
        Arm(ccValue);
      }
    }

    /** tmr_back_stop_handler: trigger TASKS_STOP. */
    method Stop()
      modifies this
      ensures !running
      ensures cc == old(cc) && intEnabled == old(intEnabled) && eventEnabled == old(eventEnabled)
      ensures compareEvent == old(compareEvent) && prescaler == old(prescaler)
    {
      running := false;
    }

    /** The event gate of RTC0_IRQHandler: when COMPARE[0] is pending, clear it
        and report that the manager's handler is to run. */
    method TakeCompareEvent() returns (pending: bool)
      modifies this
      ensures pending == old(compareEvent) && !compareEvent
      ensures cc == old(cc) && intEnabled == old(intEnabled) && eventEnabled == old(eventEnabled)
      ensures running == old(running) && prescaler == old(prescaler)
    {
      pending := compareEvent;
      if pending {
        compareEvent := false;
      }
    }
  }
}
