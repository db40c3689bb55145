/**
 The data-request protocol: util/withDataRequest.js. A request is put in a table when its
 service has loaded; it leaves the table when it completes, times out or is cancelled.
 */
module DataRequest {

  /** What can happen to requests, by id. A timer only fires while it is armed. */
  datatype Event =
    | Register(id: nat)
    | Started(id: nat)
    | Completed(id: nat, success: bool)
    | TimerFires(id: nat)
    | Cancel(id: nat)

  /** The table, the armed timers, the ids that have been registered, the settled promises with their outcome, and the cancel events sent. */
  datatype State = State(
    requests: set<nat>, timers: set<nat>, registered: set<nat>, settled: seq<(nat, bool)>, cancelSent: seq<nat>)

  const INITIAL := State({}, {}, {}, [], [])

  /** cleanRequest: out of the table, timer cleared; nothing when it is not there. */
  function Clean(s: State, id: nat): State {
    if id in s.requests then s.(requests := s.requests - {id}, timers := s.timers - {id}) else s
  }

  function Complete(s: State, id: nat, success: bool): State {
    if id in s.requests then Clean(s, id).(settled := s.settled + [(id, success)]) else s
  }

  function Step(s: State, e: Event): State {
    match e
    case Register(id) =>
      s.(requests := s.requests + {id}, timers := s.timers + {id}, registered := s.registered + {id})
    case Started(id) => if id in s.requests then s.(timers := s.timers - {id}) else s
    case Completed(id, success) => Complete(s, id, success)
    case TimerFires(id) => Complete(s.(timers := s.timers - {id}), id, false)
    case Cancel(id) => if id in s.requests then Clean(s, id).(cancelSent := s.cancelSent + [id]) else s
  }

  /** An id is registered once, and a timer fires only while armed. */
  predicate Enabled(s: State, e: Event) {
    match e
    case Register(id) => id !in s.registered
    case TimerFires(id) => id in s.timers
    case _ => true
  }

  function Run(events: seq<Event>): State {
    if events == [] then INITIAL else Step(Run(events[..|events| - 1]), events[|events| - 1])
  }

  predicate Legal(events: seq<Event>) {
    events == [] ||
    (Legal(events[..|events| - 1]) && Enabled(Run(events[..|events| - 1]), events[|events| - 1]))
  }

  // ---------------------------------------------------------------- every reachable state

  /** Armed timers belong to requests in the table; a promise has settled at most once, and never while its request is in the table. */
  ghost predicate Sound(s: State) {
    && s.timers <= s.requests <= s.registered
    && (forall i :: 0 <= i < |s.settled| ==> s.settled[i].0 in s.registered && s.settled[i].0 !in s.requests)
    && (forall i, j :: 0 <= i < j < |s.settled| ==> s.settled[i].0 != s.settled[j].0)
  }

  lemma {:induction false} ReachableSound(events: seq<Event>)
    requires Legal(events)
    ensures Sound(Run(events))
  {
    if events == [] {
    } else {
      ReachableSound(events[..|events| - 1]);
    }
  }

  // ---------------------------------------------------------------- the table against the history

  /** Does the event end a request? */
  predicate Ends(e: Event, id: nat) {
    e.id == id && (e.Completed? || e.TimerFires? || e.Cancel?)
  }

  /** Registered, and neither completed, timed out nor cancelled since. */
  ghost predicate Open(events: seq<Event>, id: nat) {
    exists i :: 0 <= i < |events| && events[i] == Register(id) && forall j :: i < j < |events| ==> !Ends(events[j], id)
  }

  lemma OpenNext(front: seq<Event>, e: Event, id: nat)
    ensures Open(front + [e], id) <==> e == Register(id) || (Open(front, id) && !Ends(e, id))
  {
    var all := front + [e];
    if e == Register(id) {
      assert all[|front|] == Register(id);
    } else if Open(front, id) && !Ends(e, id) {
      var i :| 0 <= i < |front| && front[i] == Register(id) && forall j :: i < j < |front| ==> !Ends(front[j], id);
      assert all[i] == Register(id);
    }
    if Open(all, id) && e != Register(id) {
      var i :| 0 <= i < |all| && all[i] == Register(id) && forall j :: i < j < |all| ==> !Ends(all[j], id);
      assert front[i] == Register(id);
      assert !Ends(all[|front|], id);
      assert forall j :: i < j < |front| ==> front[j] == all[j];
    }
  }

  /** A request is in the table exactly when it is registered and neither completed nor cancelled. */
  lemma {:induction false} InTableExactly(events: seq<Event>, id: nat)
    requires Legal(events)
    ensures id in Run(events).requests <==> Open(events, id)
  {
    if events == [] {
    } else {
      var front, e := events[..|events| - 1], events[|events| - 1];
      assert events == front + [e];
      InTableExactly(front, id);
      OpenNext(front, e, id);
      ReachableSound(front);
    }
  }

  /** Registered, and neither started nor ended since. */
  ghost predicate Awaited(events: seq<Event>, id: nat) {
    exists i :: 0 <= i < |events| && events[i] == Register(id)
                && forall j :: i < j < |events| ==> !Ends(events[j], id) && events[j] != Started(id)
  }

  lemma AwaitedNext(front: seq<Event>, e: Event, id: nat)
    ensures Awaited(front + [e], id) <==>
            e == Register(id) || (Awaited(front, id) && !Ends(e, id) && e != Started(id))
  {
    var all := front + [e];
    if e == Register(id) {
      assert all[|front|] == Register(id);
    } else if Awaited(front, id) && !Ends(e, id) && e != Started(id) {
      var i :| 0 <= i < |front| && front[i] == Register(id)
               && forall j :: i < j < |front| ==> !Ends(front[j], id) && front[j] != Started(id);
      assert all[i] == Register(id);
    }
    if Awaited(all, id) && e != Register(id) {
      var i :| 0 <= i < |all| && all[i] == Register(id)
               && forall j :: i < j < |all| ==> !Ends(all[j], id) && all[j] != Started(id);
      assert front[i] == Register(id);
      assert !Ends(all[|front|], id) && all[|front|] != Started(id);
      assert forall j :: i < j < |front| ==> front[j] == all[j];
    }
  }

  /** A timer is armed exactly while its request is registered and neither started nor ended. */
  lemma {:induction false} TimerArmedExactly(events: seq<Event>, id: nat)
    requires Legal(events)
    ensures id in Run(events).timers <==> Awaited(events, id)
  {
    if events == [] {
    } else {
      var front, e := events[..|events| - 1], events[|events| - 1];
      assert events == front + [e];
      TimerArmedExactly(front, id);
      AwaitedNext(front, e, id);
      ReachableSound(front);
    }
  }

  /** Cancels that came while their request was open, in order. */
  ghost function OpenCancels(events: seq<Event>): seq<nat> {
    if events == [] then []
    else
      var front, e := events[..|events| - 1], events[|events| - 1];
      OpenCancels(front) + if e.Cancel? && Open(front, e.id) then [e.id] else []
  }

  /** Exactly those are announced, each once. */
  lemma {:induction false} CancelsAnnouncedExactly(events: seq<Event>)
    requires Legal(events)
    ensures Run(events).cancelSent == OpenCancels(events)
  {
    if events == [] {
    } else {
      var front, e := events[..|events| - 1], events[|events| - 1];
      CancelsAnnouncedExactly(front);
      InTableExactly(front, e.id);
    }
  }

  /** Any event may come at any time, but that an id is registered once, and a timer fires only while its request is registered and neither started nor ended. */
  lemma {:induction false} LegalExactly(events: seq<Event>, e: Event)
    ensures Legal([])
    ensures Legal(events + [e]) <==>
            && Legal(events)
            && (e.Register? ==> forall i :: 0 <= i < |events| ==> events[i] != e)
            && (e.TimerFires? ==> Awaited(events, e.id))
  {
    assert (events + [e])[..|events|] == events;
    RegisteredExactly(events, e.id);
    if Legal(events) {
      TimerArmedExactly(events, e.id);
    }
  }

  lemma {:induction false} RegisteredExactly(events: seq<Event>, id: nat)
    ensures id in Run(events).registered <==> exists i :: 0 <= i < |events| && events[i] == Register(id)
  {
    if events == [] {
    } else {
      var front, e := events[..|events| - 1], events[|events| - 1];
      RegisteredExactly(front, id);
      assert events == front + [e];
    }
  }

  /** The event settles the promise of an open request with the outcome. */
  predicate Settles(e: Event, id: nat, success: bool) {
    e == Completed(id, success) || (e == TimerFires(id) && !success)
  }

  /** At some event the request is open, and the event settles its promise. */
  ghost predicate SettledBy(events: seq<Event>, id: nat, success: bool) {
    exists i :: 0 <= i < |events| && Open(events[..i], id) && Settles(events[i], id, success)
  }

  lemma SettledByNext(front: seq<Event>, e: Event, id: nat, success: bool)
    ensures SettledBy(front + [e], id, success)
       <==> SettledBy(front, id, success) || (Open(front, id) && Settles(e, id, success))
  {
    var all := front + [e];
    assert forall i :: 0 <= i <= |front| ==> all[..i] == front[..i];
    assert all[..|front|] == front && all[|front|] == e;
    if SettledBy(front, id, success) {
      var i :| 0 <= i < |front| && Open(front[..i], id) && Settles(front[i], id, success);
      assert Open(all[..i], id) && Settles(all[i], id, success);
    }
  }

  lemma StepSettles(s: State, e: Event, id: nat, success: bool)
    ensures (id, success) in Step(s, e).settled
       <==> (id, success) in s.settled || (id in s.requests && Settles(e, id, success))
  {
  }

  /** A promise settles exactly by the first completion or time-out while its request is open, and with that outcome. */
  lemma {:induction false} SettlesExactly(events: seq<Event>, id: nat, success: bool)
    requires Legal(events)
    ensures (id, success) in Run(events).settled <==> SettledBy(events, id, success)
  {
    if events == [] {
    } else {
      var front, e := events[..|events| - 1], events[|events| - 1];
      SettlesExactly(front, id, success);
      InTableExactly(front, id);
      StepSettles(Run(front), e, id, success);
      SettledByNext(front, e, id, success);
      assert events == front + [e];
    }
  }

  /** The timer of a request that has been started stays unarmed. */
  lemma {:induction false} StartedStaysUnarmed(events: seq<Event>, i: nat)
    requires Legal(events) && i < |events| && events[i].Started? && events[i].id in Run(events[..i]).registered
    ensures events[i].id !in Run(events).timers && events[i].id in Run(events).registered
    decreases |events|
  {
    var n := |events| - 1;
    if i < n {
      var front := events[..n];
      assert front[..i] == events[..i];
      StartedStaysUnarmed(front, i);
    } else {
      assert events[..i] == events[..n];
      LegalPrefix(events, n);
      ReachableSound(events[..n]);
    }
  }

  lemma {:induction false} LegalPrefix(events: seq<Event>, i: nat)
    requires Legal(events) && i <= |events|
    ensures Legal(events[..i])
    decreases |events|
  {
    if i == |events| {
      assert events[..i] == events;
    } else {
      assert events[..|events| - 1][..i] == events[..i];
      LegalPrefix(events[..|events| - 1], i);
    }
  }

  /** A request that has been started never times out. */
  lemma {:induction false} StartedNeverTimesOut(events: seq<Event>, i: nat, j: nat)
    requires Legal(events) && i < j < |events|
    requires events[i].Started? && events[i].id in Run(events[..i]).registered
    ensures events[j] != TimerFires(events[i].id)
  {
    LegalPrefix(events, j);
    EnabledAt(events, j);
    assert events[..j][..i] == events[..i];
    StartedStaysUnarmed(events[..j], i);
  }

  /** Every event of a legal run is enabled when it comes. */
  lemma EnabledAt(events: seq<Event>, j: nat)
    requires Legal(events) && j < |events|
    ensures Enabled(Run(events[..j]), events[j])
  {
    LegalPrefix(events, j + 1);
    assert events[..j + 1][..j] == events[..j];
  }

  lemma {:induction false} ClosedStaysClosed(events: seq<Event>, i: nat, id: nat)
    requires Legal(events) && i <= |events|
    requires id in Run(events[..i]).registered && id !in Run(events[..i]).requests
    ensures id in Run(events).registered && id !in Run(events).requests
    ensures forall b :: (id, b) in Run(events).settled <==> (id, b) in Run(events[..i]).settled
    decreases |events|
  {
    if i == |events| {
      assert events[..i] == events;
    } else {
      var front := events[..|events| - 1];
      assert front[..i] == events[..i];
      ClosedStaysClosed(front, i, id);
    }
  }

  /** After a registered request is cancelled, completions are ignored: its promise never settles. */
  lemma CancelledNeverSettles(events: seq<Event>, i: nat, success: bool)
    requires Legal(events) && i < |events|
    requires events[i].Cancel? && events[i].id in Run(events[..i]).requests
    ensures (events[i].id, success) !in Run(events).settled
  {
    LegalPrefix(events, i);
    ReachableSound(events[..i]);
    assert events[..i + 1][..i] == events[..i];
    ClosedStaysClosed(events, i + 1, events[i].id);
  }

  // ---------------------------------------------------------------- the component

  class Requests {
    var requests: set<nat>
    var timers: set<nat>
    var registered: set<nat>
    var settled: seq<(nat, bool)>
    var cancelSent: seq<nat>
    var currentDataRequestId: nat

    function Contents(): State
      reads this
    {
      State(requests, timers, registered, settled, cancelSent)
    }

    /** Ids are handed out in order, so that no id is registered twice. */
    ghost predicate Valid()
      reads this
    {
      Sound(Contents()) && forall id :: id in registered ==> id < currentDataRequestId
    }

    constructor ()
      ensures Valid() && Contents() == INITIAL
    {
      requests, timers, registered, settled, cancelSent := {}, {}, {}, [], [];
      currentDataRequestId := 0;
    }

    method NewRequestId() returns (id: nat)
      requires Valid()
      modifies this`currentDataRequestId
      ensures Valid() && id !in registered && id == old(currentDataRequestId) < currentDataRequestId
    {
      id := currentDataRequestId;
      currentDataRequestId := currentDataRequestId + 1;
    }

    method CleanRequest(id: nat) returns (found: bool)
      modifies this`requests, this`timers
      ensures Contents() == Clean(old(Contents()), id) && found == (id in old(requests))
    {
      found := id in requests;
      if found {
        timers := timers - {id};
        requests := requests - {id};
      }
    }

    method OnRegistered(id: nat)
      requires Valid() && id < currentDataRequestId && id !in registered
      modifies this
      ensures Valid() && Contents() == Step(old(Contents()), Register(id))
    {
      requests := requests + {id};
      timers := timers + {id};
      registered := registered + {id};
    }

    method OnStarted(id: nat)
      requires Valid()
      modifies this`timers
      ensures Valid() && Contents() == Step(old(Contents()), Started(id))
    {
      if id in requests {
        timers := timers - {id};
      }
    }

    method OnCompleted(id: nat, success: bool)
      requires Valid()
      modifies this`requests, this`timers, this`settled
      ensures Valid() && Contents() == Step(old(Contents()), Completed(id, success))
    {
      var found := CleanRequest(id);
      if found {
        settled := settled + [(id, success)];
      }
    }

    /** The timer of a request runs out: it completes without success. */
    method OnTimeout(id: nat)
      requires Valid() && id in timers
      modifies this`requests, this`timers, this`settled
      ensures Valid() && Contents() == Step(old(Contents()), TimerFires(id))
    {
      timers := timers - {id};
      OnCompleted(id, false);
    }

    method OnCancel(id: nat)
      requires Valid()
      modifies this`requests, this`timers, this`cancelSent
      ensures Valid() && Contents() == Step(old(Contents()), Cancel(id))
    {
      var found := CleanRequest(id);
      if found {
        cancelSent := cancelSent + [id];
      }
    }
  }
}
