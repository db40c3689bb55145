/**
 Waiting for an object to become ready: util/withAsyncQueue.js. Callbacks and promises wait
 until the object is marked ready; unloading makes it unready again.
 */
module AsyncQueue {
  import opened Sequences
  import opened Wrappers

  /**
   All promises made so far, each pending or resolved with an object; the one that is
   handed out now; the stored object; the callbacks that wait; and those that have run,
   with what they were given.
   */
  datatype State<D> = State(
    promises: seq<Option<D>>, current: Option<nat>, objectData: Option<D>, stack: seq<nat>, ran: seq<(nat, D)>)
  {
    ghost predicate Valid() {
      current.Some? ==> current.value < |promises|
    }

    /** Is the promise that is handed out now resolved? */
    predicate Resolved()
      requires Valid()
    {
      current.Some? && promises[current.value].Some?
    }
  }

  /** A callback is registered; a promise is asked for; the object becomes ready; it is unloaded. */
  datatype Event<D> = Ready(callback: nat) | ReadyPromise | MarkReady(data: Option<D>) | Unload

  function RunAll<D>(ran: seq<(nat, D)>, stack: seq<nat>, data: D): seq<(nat, D)> {
    if stack == [] then ran
    else RunAll(ran, stack[..|stack| - 1], data) + [(stack[|stack| - 1], data)]
  }

  /** The current promise is made unless there is one. */
  function Handed<D>(s: State<D>): (r: State<D>)
    requires s.Valid()
    ensures r.Valid() && r.current.Some?
  {
    if s.current.Some? then s else s.(promises := s.promises + [None], current := Some(|s.promises|))
  }

  /** Resolves the current promise; resolving one a second time has no effect. */
  function Resolve<D>(s: State<D>, data: D): (r: State<D>)
    requires s.Valid()
    ensures r.Valid() && r.Resolved()
  {
    var h := Handed(s);
    var i := h.current.value;
    if h.promises[i].Some? then h else h.(promises := h.promises[i := Some(data)])
  }

  function Step<D>(s: State<D>, e: Event<D>): (r: State<D>)
    requires s.Valid()
    ensures r.Valid()
  {
    match e
    case Ready(c) =>
      if s.objectData.Some? then s.(ran := s.ran + [(c, s.objectData.value)]) else s.(stack := s.stack + [c])
    case ReadyPromise => Handed(s)
    case MarkReady(None) => s
    case MarkReady(Some(data)) =>
      Resolve(s, data).(objectData := Some(data), stack := [], ran := RunAll(s.ran, s.stack, data))
    case Unload => s.(current := None, objectData := None)
  }

  function IsReady<D>(s: State<D>): bool
    requires s.Valid()
  {
    if s.current.Some? then s.Resolved() else s.objectData.Some?
  }

  function Initial<D>(): State<D> {
    State([], None, None, [], [])
  }

  function Run<D>(events: seq<Event<D>>): (r: State<D>)
    ensures r.Valid()
  {
    if events == [] then Initial() else Step(Run(events[..|events| - 1]), events[|events| - 1])
  }

  // ---------------------------------------------------------------- every reachable state

  /** The callbacks registered in a run, in order. */
  function Registered<D>(events: seq<Event<D>>): seq<nat> {
    if events == [] then []
    else
      var rest, e := Registered(events[..|events| - 1]), events[|events| - 1];
      if e.Ready? then rest + [e.callback] else rest
  }

  function Callbacks<D>(ran: seq<(nat, D)>): (r: seq<nat>)
    ensures |r| == |ran|
  {
    seq(|ran|, i requires 0 <= i < |ran| => ran[i].0)
  }

  lemma {:induction false} RunAllCallbacks<D>(ran: seq<(nat, D)>, stack: seq<nat>, data: D)
    ensures Callbacks(RunAll(ran, stack, data)) == Callbacks(ran) + stack
    ensures ran <= RunAll(ran, stack, data)
    ensures forall i :: |ran| <= i < |RunAll(ran, stack, data)| ==> RunAll(ran, stack, data)[i].1 == data
  {
    if stack == [] {
    } else {
      var front, last := stack[..|stack| - 1], stack[|stack| - 1];
      RunAllCallbacks(ran, front, data);
      assert Callbacks(RunAll(ran, front, data) + [(last, data)]) == Callbacks(RunAll(ran, front, data)) + [last];
      Associative(Callbacks(ran), front, [last]);
      assert stack == front + [last];
    }
  }

  /** The promise is resolved exactly when an object is stored, and then no callback waits. */
  ghost predicate Agrees<D>(s: State<D>)
    requires s.Valid()
  {
    (s.Resolved() <==> s.objectData.Some?) && (s.objectData.Some? ==> s.stack == [])
  }

  /**
   In every reachable state the two notions of being ready agree, and the callbacks that
   have run, followed by those that wait, are the registered ones in order of registration.
   */
  lemma {:induction false} RunInOrder<D>(events: seq<Event<D>>)
    ensures var s := Run(events);
            && Agrees(s) && (IsReady(s) <==> s.objectData.Some?)
            && Callbacks(s.ran) + s.stack == Registered(events)
  {
    if events == [] {
    } else {
      var front, e := events[..|events| - 1], events[|events| - 1];
      RunInOrder(front);
      var s := Run(front);
      match e
      case Ready(c) =>
        if s.objectData.Some? {
          assert Callbacks(s.ran + [(c, s.objectData.value)]) == Callbacks(s.ran) + [c];
        } else {
          Associative(Callbacks(s.ran), s.stack, [c]);
        }
      case MarkReady(Some(data)) => RunAllCallbacks(s.ran, s.stack, data);
      case _ =>
    }
  }

  ghost predicate DistinctCallbacks(s: seq<nat>) {
    forall i, j :: 0 <= i < j < |s| ==> s[i] != s[j]
  }

  /** No callback runs more often than it was registered; in particular, callbacks registered once run at most once. */
  lemma RunsAtMostOnce<D>(events: seq<Event<D>>)
    ensures multiset(Callbacks(Run(events).ran)) <= multiset(Registered(events))
    ensures DistinctCallbacks(Registered(events)) ==> DistinctCallbacks(Callbacks(Run(events).ran))
  {
    RunInOrder(events);
    var s := Run(events);
    assert multiset(Callbacks(s.ran) + s.stack) == multiset(Callbacks(s.ran)) + multiset(s.stack);
    assert forall i :: 0 <= i < |s.ran| ==> Callbacks(s.ran)[i] == Registered(events)[i];
  }

  /** Marking ready runs every waiting callback, with the object given, and leaves none waiting. */
  lemma {:induction false} MarkReadyRunsAll<D>(events: seq<Event<D>>, data: D)
    ensures var s := Run(events + [MarkReady(Some(data))]);
            && s.stack == [] && s.objectData == Some(data)
            && Callbacks(s.ran) == Registered(events)
            && forall i :: |Run(events).ran| <= i < |s.ran| ==> s.ran[i].1 == data
  {
    DropLast(events, MarkReady(Some(data)));
    RunInOrder(events);
    var s := Run(events);
    RunAllCallbacks(s.ran, s.stack, data);
  }

  /** After a mark the promise carries the stored object exactly when the object was not ready before, or the same. */
  lemma {:induction false} PromiseValueExactly<D>(events: seq<Event<D>>, data: D)
    ensures var before, s := Run(events), Run(events + [MarkReady(Some(data))]);
            s.Resolved() &&
            (s.promises[s.current.value] == Some(data)
             <==> before.objectData.None? || (before.Resolved() && before.promises[before.current.value] == Some(data)))
  {
    DropLast(events, MarkReady(Some(data)));
    RunInOrder(events);
  }

  // ---------------------------------------------------------------- what becomes of a promise

  /** A promise keeps its object, and only the current one is ever resolved. */
  lemma StepPromises<D>(s: State<D>, e: Event<D>, i: nat)
    requires s.Valid() && i < |s.promises|
    ensures var s' := Step(s, e);
            && |s.promises| <= |s'.promises|
            && (s'.current == Some(i) <==> s.current == Some(i) && !e.Unload?)
            && s'.promises[i] ==
                 if e.MarkReady? && s.current == Some(i) && s.promises[i].None? then e.data else s.promises[i]
  {
  }

  /** The first object marked ready before the next unload. */
  function FirstMark<D>(events: seq<Event<D>>): Option<D> {
    if events == [] || events[0].Unload? then None
    else if events[0].MarkReady? && events[0].data.Some? then events[0].data
    else FirstMark(events[1..])
  }

  lemma RunConcat<D>(events: seq<Event<D>>, e: Event<D>, more: seq<Event<D>>)
    ensures Run(events + [e]) == Step(Run(events), e)
    ensures events + [e] + more == events + ([e] + more)
  {
    DropLast(events, e);
  }

  /**
   A promise that is pending is resolved later exactly when it is still the one handed
   out and an object is marked ready before the next unload, with the first such object;
   one that was pending at an unload never is.
   */
  lemma {:induction false} PendingPromiseExactly<D>(events: seq<Event<D>>, more: seq<Event<D>>, i: nat)
    requires i < |Run(events).promises| && Run(events).promises[i].None?
    ensures i < |Run(events + more).promises|
    ensures Run(events + more).promises[i] == if Run(events).current == Some(i) then FirstMark(more) else None
    decreases |more|
  {
    if more == [] {
      assert events + more == events;
    } else {
      var e, rest := more[0], more[1..];
      assert more == [e] + rest;
      RunConcat(events, e, rest);
      StepPromises(Run(events), e, i);
      if Run(events + [e]).promises[i].None? {
        PendingPromiseExactly(events + [e], rest, i);
      } else {
        ResolvedPromiseStays(events + [e], rest, i);
      }
    }
  }

  /** A resolved promise keeps its object. */
  lemma {:induction false} ResolvedPromiseStays<D>(events: seq<Event<D>>, more: seq<Event<D>>, i: nat)
    requires i < |Run(events).promises| && Run(events).promises[i].Some?
    ensures i < |Run(events + more).promises| && Run(events + more).promises[i] == Run(events).promises[i]
    decreases |more|
  {
    if more == [] {
      assert events + more == events;
    } else {
      var e, rest := more[0], more[1..];
      assert more == [e] + rest;
      RunConcat(events, e, rest);
      StepPromises(Run(events), e, i);
      ResolvedPromiseStays(events + [e], rest, i);
    }
  }

  // ---------------------------------------------------------------- the component

  datatype NoObject = NoObject

  class Queue<D> {
    /** The promises made, pending or resolved. */
    var promises: seq<Option<D>>
    var deferred: Option<nat>
    var objectData: Option<D>
    var stack: seq<nat>
    /** Calls of callbacks, in order. */
    var ran: seq<(nat, D)>

    function Contents(): State<D>
      reads this
    {
      State(promises, deferred, objectData, stack, ran)
    }

    constructor ()
      ensures Contents() == Initial()
    {
      promises, deferred, objectData, stack, ran := [], None, None, [], [];
    }

    method WhenReady(callback: nat)
      requires Contents().Valid()
      modifies this
      ensures Contents() == Step(old(Contents()), Ready(callback))
    {
      if objectData.Some? {
        ran := ran + [(callback, objectData.value)];
      } else {
        stack := stack + [callback];
      }
    }

    method Promise() returns (i: nat)
      requires Contents().Valid()
      modifies this
      ensures Contents() == Step(old(Contents()), ReadyPromise) && deferred == Some(i)
    {
      if deferred.None? {
        deferred, promises := Some(|promises|), promises + [None];
      }
      i := deferred.value;
    }

    method MarkAsReady(data: Option<D>) returns (r: Result<(), NoObject>)
      requires Contents().Valid()
      modifies this
      ensures Contents() == Step(old(Contents()), MarkReady(data)) && (r.Success? <==> data.Some?)
    {
      if data.None? {
        return Failure(NoObject);
      }
      if deferred.None? {
        deferred, promises := Some(|promises|), promises + [None];
      }
      if promises[deferred.value].None? {
        promises := promises[deferred.value := data];
      }
      objectData := data;
      ghost var before := Contents();
      for i := 0 to |stack|
        invariant Contents() == before.(ran := RunAll(before.ran, before.stack[..i], data.value))
      {
        assert before.stack[..i + 1][..i] == before.stack[..i];
        ran := ran + [(stack[i], data.value)];
      }
      assert stack[..|stack|] == stack;
      stack := [];
      r := Success(());
    }

    method UnloadObject()
      requires Contents().Valid()
      modifies this
      ensures Contents() == Step(old(Contents()), Unload)
    {
      deferred, objectData := None, None;
    }
  }
}
