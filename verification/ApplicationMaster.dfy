/**
 Container accounting of the application master: ApplicationMasterBase.java. Containers
 that fail are asked for again; the master waits until enough have succeeded. The
 callbacks may come while the first containers are still being asked for.
 */
module ApplicationMaster {

  /** The counter the master polls, its own progress, and what the cluster has been asked for, has granted and has reported. */
  datatype State = State(
    waiting: int, toAsk: nat, asked: nat, outstanding: nat, live: nat, successes: nat, failures: nat, stopped: bool)

  /** Start-up asks for one more container; the cluster grants an ask, or reports a container; the master stops waiting. */
  datatype Event = Ask | Grant | Succeed | Fail | Stop

  function Start(instances: nat): State {
    State(instances, instances, 0, 0, 0, 0, 0, false)
  }

  /** Each ask is granted once, each container reported once; the master looks at its counter once start-up is done. */
  predicate Enabled(s: State, e: Event) {
    match e
    case Ask => s.toAsk > 0
    case Grant => s.outstanding > 0
    case Succeed => s.live > 0
    case Fail => s.live > 0
    case Stop => s.toAsk == 0 && s.waiting == 0
  }

  function Step(s: State, e: Event): State
    requires Enabled(s, e)
  {
    match e
    case Ask => s.(toAsk := s.toAsk - 1, asked := s.asked + 1, outstanding := s.outstanding + 1)
    case Grant => s.(outstanding := s.outstanding - 1, live := s.live + 1)
    case Succeed => s.(live := s.live - 1, successes := s.successes + 1, waiting := s.waiting - 1)
    case Fail =>
      s.(live := s.live - 1, failures := s.failures + 1, asked := s.asked + 1, outstanding := s.outstanding + 1)
    case Stop => s.(stopped := true)
  }

  /** Does a run go through these states? */
  ghost predicate IsRun(instances: nat, states: seq<State>, events: seq<Event>) {
    && |states| == |events| + 1 && states[0] == Start(instances)
    && forall i :: 0 <= i < |events| ==> Enabled(states[i], events[i]) && states[i + 1] == Step(states[i], events[i])
  }

  ghost predicate Accounted(instances: nat, s: State) {
    && s.successes + s.waiting == instances
    && s.asked + s.toAsk == instances + s.failures
    && s.outstanding + s.live + s.toAsk == s.waiting
    && (s.stopped ==> s.waiting == 0)
  }

  /** The accounts balance in every state of every run. */
  lemma {:induction false} RunAccounted(instances: nat, states: seq<State>, events: seq<Event>, i: nat)
    requires IsRun(instances, states, events) && i < |states|
    ensures Accounted(instances, states[i])
  {
    if i == 0 {
    } else {
      RunAccounted(instances, states, events, i - 1);
      assert states[i - 1 + 1] == Step(states[i - 1], events[i - 1]);
    }
  }

  function Times(events: seq<Event>, e: Event): nat {
    if events == [] then 0 else Times(events[..|events| - 1], e) + if events[|events| - 1] == e then 1 else 0
  }

  /** Every number of a state is told by the events before it. */
  lemma {:induction false} EventsCounted(instances: nat, states: seq<State>, events: seq<Event>, i: nat)
    requires IsRun(instances, states, events) && i < |states|
    ensures var s, past := states[i], events[..i];
            && s.toAsk == instances - Times(past, Ask)
            && s.asked == Times(past, Ask) + Times(past, Fail)
            && s.outstanding == s.asked - Times(past, Grant)
            && s.live == Times(past, Grant) - Times(past, Succeed) - Times(past, Fail)
            && s.successes == Times(past, Succeed) && s.failures == Times(past, Fail)
            && s.waiting == instances - Times(past, Succeed)
            && (s.stopped <==> Times(past, Stop) > 0)
  {
    if i == 0 {
    } else {
      EventsCounted(instances, states, events, i - 1);
      assert events[..i][..i - 1] == events[..i - 1];
      assert states[i - 1 + 1] == Step(states[i - 1], events[i - 1]);
    }
  }

  /** The master can stop exactly when as many containers have succeeded as there are instances, and then nothing is outstanding or running. */
  lemma StopsExactlyWhenDone(instances: nat, states: seq<State>, events: seq<Event>, i: nat)
    requires IsRun(instances, states, events) && i < |states|
    ensures Enabled(states[i], Stop) <==> states[i].successes == instances
    ensures states[i].successes <= instances
    ensures Enabled(states[i], Stop) ==>
              states[i].outstanding == 0 && states[i].live == 0 && states[i].asked == instances + states[i].failures
  {
    RunAccounted(instances, states, events, i);
  }

  /** Until it can stop there is always something for start-up or the cluster to do. */
  lemma NeverStuck(instances: nat, states: seq<State>, events: seq<Event>, i: nat)
    requires IsRun(instances, states, events) && i < |states|
    ensures Enabled(states[i], Ask) || Enabled(states[i], Grant) || Enabled(states[i], Succeed) || Enabled(states[i], Stop)
  {
    RunAccounted(instances, states, events, i);
  }

  // ---------------------------------------------------------------- batches of reports

  const SUCCESS := 0

  function Failures(statuses: seq<int>): nat {
    if statuses == [] then 0
    else Failures(statuses[..|statuses| - 1]) + if statuses[|statuses| - 1] == SUCCESS then 0 else 1
  }

  /** Reports handled one after the other. */
  function Report(s: State, statuses: seq<int>): State
    requires s.live >= |statuses|
    ensures Report(s, statuses).live == s.live - |statuses|
  {
    if statuses == [] then s
    else
      var s' := Report(s, statuses[..|statuses| - 1]);
      Step(s', if statuses[|statuses| - 1] == SUCCESS then Succeed else Fail)
  }

  /** A batch takes its successes off the counter and asks again for its failures. */
  lemma {:induction false} ReportCounts(s: State, statuses: seq<int>)
    requires s.live >= |statuses|
    ensures Failures(statuses) <= |statuses|
    ensures var r := Report(s, statuses);
            && r.waiting == s.waiting - (|statuses| - Failures(statuses))
            && r.asked == s.asked + Failures(statuses) && r.outstanding == s.outstanding + Failures(statuses)
            && r.toAsk == s.toAsk
  {
    if statuses == [] {
    } else {
      ReportCounts(s, statuses[..|statuses| - 1]);
    }
  }

  class Master {
    const instances: nat
    var numContainersToWaitFor: int
    /** Requests made to the cluster. */
    var requests: nat

    constructor (instances: nat)
      ensures this.instances == instances && numContainersToWaitFor == 0 && requests == 0
    {
      this.instances := instances;
      numContainersToWaitFor, requests := 0, 0;
    }

    method MakeContainerRequest()
      modifies this`requests
      ensures requests == old(requests) + 1
    {
      requests := requests + 1;
    }

    /** Start-up, when no callback comes in between. */
    method MakeContainerRequests()
      modifies this
      ensures numContainersToWaitFor == instances && requests == old(requests) + instances
    {
      numContainersToWaitFor := instances;
      for i := 0 to instances
        invariant requests == old(requests) + i && numContainersToWaitFor == instances
      {
        MakeContainerRequest();
      }
    }

    method OnContainersCompleted(statuses: seq<int>)
      modifies this
      ensures numContainersToWaitFor == old(numContainersToWaitFor) - (|statuses| - Failures(statuses))
      ensures requests == old(requests) + Failures(statuses)
    {
      for i := 0 to |statuses|
        invariant numContainersToWaitFor == old(numContainersToWaitFor) - (i - Failures(statuses[..i]))
        invariant requests == old(requests) + Failures(statuses[..i])
      {
        assert statuses[..i + 1][..i] == statuses[..i];
        if statuses[i] != SUCCESS {
          MakeContainerRequest();
        } else {
          numContainersToWaitFor := numContainersToWaitFor - 1;
        }
      }
      assert statuses[..|statuses|] == statuses;
    }

    method DoneWithContainers() returns (done: bool)
      ensures done <==> numContainersToWaitFor == 0
    {
      done := numContainersToWaitFor == 0;
    }
  }
}
