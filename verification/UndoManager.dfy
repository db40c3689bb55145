/**
 Undo and redo: util/undoManager.js. Performed actions are kept on two stacks; moving an
 action from one to the other swaps its two functions.
 */
module UndoManager {
  import opened Sequences
  import opened Wrappers

  /** How to undo and how to redo an action, on a state of type W. */
  datatype Action<!W> = Action(undo: W -> W, redo: W -> W)

  function Swap<W>(a: Action<W>): Action<W> {
    Action(a.redo, a.undo)
  }

  datatype InvalidArguments = InvalidArguments

  // ---------------------------------------------------------------- the object

  class UndoManager<!W(!new)> {
    var undos: seq<Action<W>>
    var redos: seq<Action<W>>

    constructor ()
      ensures undos == [] && redos == []
    {
      undos, redos := [], [];
    }

    /** Records an action that has been performed; the redo stack is left as it is. */
    method PerformedAction(name: string, undo: Option<W -> W>, redo: Option<W -> W>)
      returns (r: Result<(), InvalidArguments>)
      modifies this
      ensures redos == old(redos)
      ensures if name != "" && undo.Some? && redo.Some?
              then r == Success(()) && undos == old(undos) + [Action(undo.value, redo.value)]
              else r.Failure? && undos == old(undos)
    {
      if name == "" || undo.None? || redo.None? {
        return Failure(InvalidArguments);
      }
      undos := undos + [Action(undo.value, redo.value)];
      r := Success(());
    }

    method Reset()
      modifies this
      ensures undos == [] && redos == []
    {
      undos, redos := [], [];
    }

    method PerformUndo(w: W) returns (w': W)
      modifies this
      ensures (History(undos, redos), w') == Step(old(History(undos, redos)), w, Undo)
    {
      undos, redos, w' := PerformWithStacks(undos, redos, w);
    }

    method PerformRedo(w: W) returns (w': W)
      modifies this
      ensures (History(undos, redos), w') == Step(old(History(undos, redos)), w, Redo)
    {
      redos, undos, w' := PerformWithStacks(redos, undos, w);
    }
  }

  /** Pops from one stack, runs the action's undo, and pushes it swapped on the other. */
  method PerformWithStacks<W>(stack1: seq<Action<W>>, stack2: seq<Action<W>>, w: W)
    returns (popped: seq<Action<W>>, pushed: seq<Action<W>>, w': W)
    ensures (popped, pushed, w') == Transfer(stack1, stack2, w)
  {
    popped, pushed, w' := stack1, stack2, w;
    if |stack1| != 0 {
      var action := stack1[|stack1| - 1];
      popped := stack1[..|stack1| - 1];
      w' := action.undo(w);
      pushed := pushed + [Swap(action)];
    }
  }

  // ---------------------------------------------------------------- runs

  datatype History<!W> = History(undos: seq<Action<W>>, redos: seq<Action<W>>)

  /** The application performs an action, or the user undoes or redoes one. */
  datatype Event<!W> = Do(action: Action<W>) | Undo | Redo

  function Transfer<W>(stack1: seq<Action<W>>, stack2: seq<Action<W>>, w: W)
    : (seq<Action<W>>, seq<Action<W>>, W)
  {
    if stack1 == [] then (stack1, stack2, w)
    else
      var action := stack1[|stack1| - 1];
      (stack1[..|stack1| - 1], stack2 + [Swap(action)], action.undo(w))
  }

  function Step<W>(h: History<W>, w: W, e: Event<W>): (History<W>, W) {
    match e
    case Do(a) => (History(h.undos + [a], h.redos), a.redo(w))
    case Undo =>
      var (undos, redos, w') := Transfer(h.undos, h.redos, w);
      (History(undos, redos), w')
    case Redo =>
      var (redos, undos, w') := Transfer(h.redos, h.undos, w);
      (History(undos, redos), w')
  }

  function Run<W>(h: History<W>, w: W, events: seq<Event<W>>): (History<W>, W) {
    if events == [] then (h, w)
    else
      var (h', w') := Run(h, w, events[..|events| - 1]);
      Step(h', w', events[|events| - 1])
  }

  /** The redo stack from its top down, each action turned back. */
  function Ahead<W>(redos: seq<Action<W>>): seq<Action<W>> {
    if redos == [] then [] else [Swap(redos[|redos| - 1])] + Ahead(redos[..|redos| - 1])
  }

  /** All actions known, in the order in which they were performed: those done, then those undone. */
  function Timeline<W>(h: History<W>): seq<Action<W>> {
    h.undos + Ahead(h.redos)
  }

  /** Actions applied in order. */
  function Replay<W>(w: W, actions: seq<Action<W>>): W {
    if actions == [] then w else Replay(actions[0].redo(w), actions[1..])
  }

  /** Along the replay of the actions, every state is good and every action can be undone where it was done. */
  ghost predicate Coherent<W>(w: W, actions: seq<Action<W>>, good: W -> bool) {
    && good(w)
    && (actions == [] ||
        var a := actions[0];
        a.undo(a.redo(w)) == w && Coherent(a.redo(w), actions[1..], good))
  }

  /** The state is what the done actions make of the first state, and the whole timeline can be walked both ways. */
  ghost predicate Consistent<W>(w0: W, h: History<W>, w: W, good: W -> bool) {
    w == Replay(w0, h.undos) && Coherent(w0, Timeline(h), good)
  }

  lemma {:induction false} ReplayConcat<W>(w: W, a: seq<Action<W>>, b: seq<Action<W>>)
    ensures Replay(w, a + b) == Replay(Replay(w, a), b)
  {
    if a == [] {
      assert a + b == b;
    } else {
      assert (a + b)[1..] == a[1..] + b;
      ReplayConcat(a[0].redo(w), a[1..], b);
    }
  }

  lemma {:induction false} CoherentConcat<W>(w: W, a: seq<Action<W>>, b: seq<Action<W>>, good: W -> bool)
    ensures Coherent(w, a + b, good) <==> Coherent(w, a, good) && Coherent(Replay(w, a), b, good)
  {
    if a == [] {
      assert a + b == b;
    } else {
      assert (a + b)[1..] == a[1..] + b;
      CoherentConcat(a[0].redo(w), a[1..], b, good);
    }
  }

  lemma AheadOfPushed<W>(redos: seq<Action<W>>, a: Action<W>)
    ensures Ahead(redos + [Swap(a)]) == [a] + Ahead(redos)
  {
    DropLast(redos, Swap(a));
  }

  /** Undo and redo never change the timeline, although every transfer swaps an action's functions. */
  lemma TransferKeepsTimeline<W>(h: History<W>, w: W, e: Event<W>)
    requires e.Undo? || e.Redo?
    ensures Timeline(Step(h, w, e).0) == Timeline(h)
  {
    if e.Undo? && h.undos != [] {
      var n := |h.undos| - 1;
      AheadOfPushed(h.redos, h.undos[n]);
      Associative(h.undos[..n], [h.undos[n]], Ahead(h.redos));
      assert h.undos == h.undos[..n] + [h.undos[n]];
    } else if e.Redo? && h.redos != [] {
      var n := |h.redos| - 1;
      Associative(h.undos, [Swap(h.redos[n])], Ahead(h.redos[..n]));
    }
  }

  lemma UndoConsistent<W>(w0: W, h: History<W>, w: W, good: W -> bool)
    requires Consistent(w0, h, w, good) && h.undos != []
    ensures Consistent(w0, Step(h, w, Undo).0, Step(h, w, Undo).1, good)
  {
    var n := |h.undos| - 1;
    var front, last := h.undos[..n], h.undos[n];
    TransferKeepsTimeline(h, w, Undo);
    assert h.undos == front + [last];
    assert Timeline(h) == front + ([last] + Ahead(h.redos));
    ReplayConcat(w0, front, [last]);
    CoherentConcat(w0, front, [last] + Ahead(h.redos), good);
  }

  lemma RedoConsistent<W>(w0: W, h: History<W>, w: W, good: W -> bool)
    requires Consistent(w0, h, w, good) && h.redos != []
    ensures Consistent(w0, Step(h, w, Redo).0, Step(h, w, Redo).1, good)
  {
    TransferKeepsTimeline(h, w, Redo);
    ReplayConcat(w0, h.undos, [Swap(h.redos[|h.redos| - 1])]);
  }

  /** A newly performed action is fit to be recorded: it can be undone where it was done, and leads to a good state. */
  ghost predicate Fits<W>(a: Action<W>, w: W, good: W -> bool) {
    a.undo(a.redo(w)) == w && good(a.redo(w))
  }

  /**
   Performing an action while others are waiting to be redone keeps the history
   consistent exactly when those could still be done, and undone, after it.
   */
  lemma DoConsistentExactly<W>(w0: W, h: History<W>, w: W, a: Action<W>, good: W -> bool)
    requires Consistent(w0, h, w, good) && Fits(a, w, good)
    ensures var (h', w') := Step(h, w, Do(a));
            Consistent(w0, h', w', good) <==> Coherent(w', Ahead(h.redos), good)
  {
    var ahead := Ahead(h.redos);
    ReplayConcat(w0, h.undos, [a]);
    CoherentConcat(w0, h.undos, ahead, good);
    CoherentConcat(w0, h.undos, [a], good);
    CoherentConcat(w0, h.undos + [a], ahead, good);
    assert Coherent(w, [a], good) by {
      CoherentStart(w, ahead, good);
    }
  }

  lemma CoherentStart<W>(w: W, actions: seq<Action<W>>, good: W -> bool)
    ensures Coherent(w, actions, good) ==> good(w)
    ensures Coherent(w, [], good) <==> good(w)
  {
  }

  /** Every action performed in the run fits where it is performed, and none is performed while redos remain. */
  ghost predicate Disciplined<W>(h: History<W>, w: W, events: seq<Event<W>>, good: W -> bool) {
    events == [] ||
    var front, e := events[..|events| - 1], events[|events| - 1];
    var (h', w') := Run(h, w, front);
    && Disciplined(h, w, front, good)
    && (e.Do? ==> h'.redos == [] && Fits(e.action, w', good))
  }

  /** Over every disciplined run the state is the first state with exactly the actions on the undo stack applied in order. */
  lemma {:induction false} RunConsistent<W>(w0: W, events: seq<Event<W>>, good: W -> bool)
    requires good(w0) && Disciplined(History([], []), w0, events, good)
    ensures var (h, w) := Run(History([], []), w0, events);
            Consistent(w0, h, w, good)
  {
    if events == [] {
    } else {
      var front, e := events[..|events| - 1], events[|events| - 1];
      RunConsistent(w0, front, good);
      var (h, w) := Run(History([], []), w0, front);
      match e
      case Do(a) =>
        DoConsistentExactly(w0, h, w, a, good);
        CoherentStart(Step(h, w, e).1, [], good);
      case Undo => if h.undos != [] { UndoConsistent(w0, h, w, good); }
      case Redo => if h.redos != [] { RedoConsistent(w0, h, w, good); }
    }
  }

  function Repeat<W>(e: Event<W>, n: nat): seq<Event<W>> {
    if n == 0 then [] else Repeat(e, n - 1) + [e]
  }

  /** Undoing n times takes the last n actions back. */
  lemma {:induction false} UndoMany<W>(w0: W, h: History<W>, w: W, n: nat, good: W -> bool)
    requires Consistent(w0, h, w, good) && n <= |h.undos|
    ensures var (h', w') := Run(h, w, Repeat(Undo, n));
            && Consistent(w0, h', w', good)
            && h'.undos == h.undos[..|h.undos| - n] && Timeline(h') == Timeline(h)
  {
    if n == 0 {
    } else {
      UndoMany(w0, h, w, n - 1, good);
      var (h', w') := Run(h, w, Repeat(Undo, n - 1));
      var events := Repeat<W>(Undo, n);
      assert events[..|events| - 1] == Repeat(Undo, n - 1);
      UndoConsistent(w0, h', w', good);
      TransferKeepsTimeline(h', w', Undo);
    }
  }

  /** Undoing everything restores the first state. */
  lemma UndoAllRestores<W>(w0: W, h: History<W>, w: W, good: W -> bool)
    requires Consistent(w0, h, w, good)
    ensures Run(h, w, Repeat(Undo, |h.undos|)).1 == w0
  {
    UndoMany(w0, h, w, |h.undos|, good);
  }

  /** An action that overwrites a number, with the overwritten one for its undo. */
  function Overwrite(before: int, after: int): Action<int> {
    Action(_ => before, _ => after)
  }

  /**
   The redo stack survives new actions. Doing 0 to 1, undoing it, doing 0 to 2, redoing
   the first and undoing it again yields 0, where the only action done is 0 to 2.
   */
  lemma DoingWhileRedosRemainBreaksUndo()
    ensures var a, b := Overwrite(0, 1), Overwrite(0, 2);
            var (h1, w1) := Step(History([], []), 0, Do(a));
            var (h2, w2) := Step(h1, w1, Undo);
            var (h3, w3) := Step(h2, w2, Do(b));
            var (h4, w4) := Step(h3, w3, Redo);
            var (h5, w5) := Step(h4, w4, Undo);
            w5 == 0 && h5.undos == [b] && Replay(0, h5.undos) == 2
  {
    var a, b := Overwrite(0, 1), Overwrite(0, 2);
    assert [] + [a] == [a] && [] + [b] == [b] && [b] + [Swap(Swap(a))] == [b, a];
    TransferTop([], a, [], 1);
    TransferTop([], Swap(a), [b], 2);
    TransferTop([b], a, [], 1);
    assert [b][1..] == [] && b.redo(0) == 2;
    assert Replay(2, [b][1..]) == 2;
  }

  lemma TransferTop<W>(below: seq<Action<W>>, a: Action<W>, other: seq<Action<W>>, w: W)
    ensures Transfer(below + [a], other, w) == (below, other + [Swap(a)], a.undo(w))
  {
    DropLast(below, a);
  }
}
