/** The timer slot record the tree orders (pot_element_t) and the ordering
    pot_compare_elems that the tree uses. */
module PotElement {
  import opened Base

  /** tmr_mngr_mode_t */
  datatype Mode = OneShot | Periodic

  /** tmr_mngr_state_t */
  datatype State = Idle | Stopped | Armed

  /** pot_element_t: one virtual RTC instance. */
  datatype Slot = Slot(
    nextCc: u64,         // absolute tick of the next expiry, the ordering key
    periodicValue: u64,  // reload interval of a periodic timer
    mode: Mode,
    state: State,
    reload: bool,        // set while a periodic timer waits to be pushed again
    context: u32,        // opaque value handed to the application handler
    timerId: u8)

  /** A slot as a zero-initialised static array holds it. */
  const ZeroSlot: Slot := Slot(0, 0, OneShot, Idle, false, 0, 0)

  /** pot_compare_elems: 1 when p1 may precede p2 (its key is not larger), else 0. */
  function Compare(p1: Slot, p2: Slot): (r: nat)
    ensures r == 0 || r == 1
    ensures r == 1 <==> p1.nextCc <= p2.nextCc
  {
    if p1.nextCc > p2.nextCc then 0 else 1
  }

  /** Only the key takes part: slots with equal keys compare alike against anything. */
  lemma CompareKeyOnly(p1: Slot, q1: Slot, p2: Slot)
    requires p1.nextCc == q1.nextCc
    ensures Compare(p1, p2) == Compare(q1, p2) && Compare(p2, p1) == Compare(p2, q1)
  {
  }

  /** The relation "Compare(p, q) == 1" is total, and equal keys precede each other both ways. */
  lemma CompareTotal(p1: Slot, p2: Slot)
    ensures Compare(p1, p2) == 1 || Compare(p2, p1) == 1
    ensures p1.nextCc == p2.nextCc ==> Compare(p1, p2) == 1 && Compare(p2, p1) == 1
  {
  }

  /** ... and transitive, so it is a total preorder on slots. */
  lemma CompareTransitive(p1: Slot, p2: Slot, p3: Slot)
    requires Compare(p1, p2) == 1 && Compare(p2, p3) == 1
    ensures Compare(p1, p3) == 1
  {
  }
}
