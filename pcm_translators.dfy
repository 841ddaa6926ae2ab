/** The two request translators of the Power Control Module
    (global_off.h and performance.h): each turns a request of a local
    domain into the power request the dispatcher works on, with the
    requesting domain standing for the resource. */
module PcmTranslators {
  import opened Base
  import opened PmTypes

  /** pm_pcm_global_off_into_power. */
  function GlobalOffIntoPower(req: SleepRequest): (r: PowerRequest)
    ensures r.domain == req.domain && r.time == req.time && r.resource == req.domain
    ensures r.mode == 1 <==> req.state == RetentionSw
    ensures r.mode <= 1
  {
    PowerRequest(req.domain, req.time, req.domain, if req.state == RetentionSw then 1 else 0)
  }

  /** The tolerated latency of a sleep request never reaches the power
      request, and the sleep states other than RetentionSw all translate
      alike. */
  lemma GlobalOffIgnoresLatency(a: SleepRequest, b: SleepRequest)
    requires a.domain == b.domain && a.time == b.time
    requires (a.state == RetentionSw) == (b.state == RetentionSw)
    ensures GlobalOffIntoPower(a) == GlobalOffIntoPower(b)
  {
  }

  /** A translated sleep request always names a mode the algorithm accepts,
      and a resource it accepts whenever the domain number is one. */
  lemma GlobalOffInRange(req: SleepRequest)
    ensures GlobalOffIntoPower(req).mode < MODE_NUM
    ensures req.domain < RESOURCE_NUM ==> GlobalOffIntoPower(req).resource < RESOURCE_NUM
  {
  }

  /** pm_pcm_performance_into_power. */
  function PerformanceIntoPower(req: PerformanceRequest): (r: PowerRequest)
    ensures r.domain == req.domain && r.time == req.time && r.mode == req.mode
    ensures r.resource == req.domain
  {
    PowerRequest(req.domain, req.time, req.domain, req.mode)
  }

  /** The resource a performance request names is never looked at: two
      requests that differ only there translate alike. */
  lemma PerformanceIgnoresResource(a: PerformanceRequest, b: PerformanceRequest)
    requires a.domain == b.domain && a.time == b.time && a.mode == b.mode
    ensures PerformanceIntoPower(a) == PerformanceIntoPower(b)
  {
  }
}
