/** pm_pcm_algorithm_run (algorithm.c): the cost of moving one resource to
    a requested mode, and the state that results. */
module PcmAlgorithm {
  import opened Base
  import opened PmTypes

  /** The time of a mode change: stepping a resource down costs 100,
      stepping it up costs 10, staying costs nothing. */
  const DOWN_TIME: nat := 100
  const UP_TIME: nat := 10

  /** pm_pcm_algorithm_run: the caller's state is copied, never written;
      the copy has the resource at the requested mode. The enforce flag is
      not read. */
  function AlgorithmRun(state: PmState, resource: u8, mode: u8, enforce: bool): (r: Traversal)
    requires resource < RESOURCE_NUM && mode < MODE_NUM
    ensures r.response == Ok
    ensures r.state[resource] == mode
    ensures forall i :: 0 <= i < RESOURCE_NUM && i != resource ==> r.state[i] == state[i]
    ensures r.time == 0 <==> state[resource] == mode
    ensures r.time == DOWN_TIME <==> state[resource] > mode
    ensures r.time == UP_TIME <==> state[resource] < mode
  {
    var time := if state[resource] > mode then DOWN_TIME
                else if state[resource] == mode then 0
                else UP_TIME;
    Traversal(state[resource := mode], Ok, time)
  }

  /** A traversal costs nothing exactly when it leaves the state as it was. */
  lemma FreeIffUnchanged(state: PmState, resource: u8, mode: u8, enforce: bool)
    requires resource < RESOURCE_NUM && mode < MODE_NUM
    ensures AlgorithmRun(state, resource, mode, enforce).time == 0 <==>
            AlgorithmRun(state, resource, mode, enforce).state == state
  {
    var r := AlgorithmRun(state, resource, mode, enforce);
    if r.state == state {
      assert state[resource] == r.state[resource];
    }
  }

  /** Running the same request again on the state it produced costs nothing
      and changes nothing. */
  lemma RunIdempotent(state: PmState, resource: u8, mode: u8, enforce: bool)
    requires resource < RESOURCE_NUM && mode < MODE_NUM
    ensures var once := AlgorithmRun(state, resource, mode, enforce);
            var twice := AlgorithmRun(once.state, resource, mode, enforce);
            twice.time == 0 && twice.state == once.state
  {
    var once := AlgorithmRun(state, resource, mode, enforce);
    FreeIffUnchanged(once.state, resource, mode, enforce);
  }

  /** Of two requests for one resource the later decides the state. */
  lemma LaterRequestWins(state: PmState, resource: u8, m1: u8, m2: u8)
    requires resource < RESOURCE_NUM && m1 < MODE_NUM && m2 < MODE_NUM
    ensures AlgorithmRun(AlgorithmRun(state, resource, m1, false).state, resource, m2, false).state ==
            AlgorithmRun(state, resource, m2, false).state
  {
    var a := AlgorithmRun(AlgorithmRun(state, resource, m1, false).state, resource, m2, false).state;
    var b := AlgorithmRun(state, resource, m2, false).state;
    assert forall i :: 0 <= i < RESOURCE_NUM ==> a[i] == b[i];
  }

  /** Requests for two different resources lead to the same state in either
      order. */
  lemma DistinctResourcesCommute(state: PmState, r1: u8, m1: u8, r2: u8, m2: u8)
    requires r1 < RESOURCE_NUM && r2 < RESOURCE_NUM && r1 != r2 && m1 < MODE_NUM && m2 < MODE_NUM
    ensures AlgorithmRun(AlgorithmRun(state, r1, m1, false).state, r2, m2, false).state ==
            AlgorithmRun(AlgorithmRun(state, r2, m2, false).state, r1, m1, false).state
  {
    var a := AlgorithmRun(AlgorithmRun(state, r1, m1, false).state, r2, m2, false).state;
    var b := AlgorithmRun(AlgorithmRun(state, r2, m2, false).state, r1, m1, false).state;
    assert forall i :: 0 <= i < RESOURCE_NUM ==> a[i] == b[i];
  }
}
