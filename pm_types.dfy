/** The power-management vocabulary of pm.h: resource and mode counts, the
    request records the local domains send, and the records the Power
    Control Module answers with. */
module PmTypes {
  import opened Base

  const RESOURCE_NUM: nat := 20   // PM_RESOURCE_NUM
  const MODE_NUM: nat := 10       // PM_MODE_NUM

  /** enum pm_sleep. */
  datatype Sleep = RetentionHw | RetentionSw | Assisted | SystemOff

  /** enum pm_response. */
  datatype Response = Ok | Impossible | NoResponse | Error

  /** struct pm_request_sleep. */
  datatype SleepRequest = SleepRequest(domain: u8, state: Sleep, time: u64, latency: u32)

  /** struct pm_request_performance. */
  datatype PerformanceRequest = PerformanceRequest(domain: u8, time: u64, resource: u8, mode: u8)

  /** struct pm_request_power. */
  datatype PowerRequest = PowerRequest(domain: u8, time: u64, resource: u8, mode: u8)

  /** struct pm_return. */
  datatype PmReturn = PmReturn(response: Response, domain: u8, resource: u8, mode: u8)

  /** struct pm_state: the mode of every resource. */
  type PmState = s: seq<u8> | |s| == RESOURCE_NUM witness seq(RESOURCE_NUM, _ => 0)

  /** struct pm_traversal. */
  datatype Traversal = Traversal(state: PmState, response: Response, time: u64)
}
