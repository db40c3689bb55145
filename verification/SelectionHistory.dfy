/**
 The history of selections: the synchronous part of appendToStack in
 data/withObjectSelection.js. A selection made again moves to the end; the current one is hidden.
 */
module SelectionHistory {
  import opened Wrappers

  /** Selected vertices, or selected edges when there are no vertices. */
  datatype Selection = Selection(vertexIds: seq<string>, edgeIds: seq<string>)
  {
    predicate IsEmpty() { vertexIds == [] && edgeIds == [] }
  }

  datatype Entry = Entry(selection: Selection, hide: bool)

  /** Edges count only when no vertices are selected. */
  function Current(vertexIds: seq<string>, edgeIds: seq<string>): Selection {
    if vertexIds != [] then Selection(vertexIds, []) else Selection([], edgeIds)
  }

  /** Does an entry list the selection? Vertices are compared when there are any, edges otherwise. */
  predicate Lists(e: Entry, s: Selection) {
    if s.vertexIds != [] then e.selection.vertexIds != [] && e.selection.vertexIds == s.vertexIds
    else e.selection.edgeIds != [] && s.edgeIds != [] && e.selection.edgeIds == s.edgeIds
  }

  // ---------------------------------------------------------------- the stack as a function

  function HideListed(stack: seq<Entry>, s: Selection): (r: seq<Entry>)
    ensures |r| == |stack|
  {
    seq(|stack|, i requires 0 <= i < |stack| => stack[i].(hide := Lists(stack[i], s)))
  }

  /** The last of the first n entries that lists the selection. */
  function ListedIndex(stack: seq<Entry>, s: Selection, n: nat): (r: Option<nat>)
    requires n <= |stack|
    ensures r.Some? ==> r.value < n && Lists(stack[r.value], s)
    ensures forall j :: (if r.Some? then r.value + 1 else 0) <= j < n ==> !Lists(stack[j], s)
  {
    if n == 0 then None
    else if Lists(stack[n - 1], s) then Some(n - 1)
    else ListedIndex(stack, s, n - 1)
  }

  function Append(stack: seq<Entry>, s: Selection): seq<Entry> {
    if s.IsEmpty() then stack
    else
      var marked := HideListed(stack, s);
      match ListedIndex(stack, s, |stack|)
      case Some(i) => marked[..i] + marked[i + 1..] + [marked[i]]
      case None => marked + [Entry(s, true)]
  }

  function NotHidden(stack: seq<Entry>): seq<Selection> {
    if stack == [] then []
    else
      var rest, e := NotHidden(stack[..|stack| - 1]), stack[|stack| - 1];
      if e.hide then rest else rest + [e.selection]
  }

  /** The last max of some selections. */
  function LastOf(s: seq<Selection>, max: int): seq<Selection> {
    var from := Max(0, |s| - max);
    if from >= |s| then [] else s[from..]
  }

  function Published(stack: seq<Entry>, max: int): seq<Selection> {
    LastOf(NotHidden(stack), max)
  }

  function History(selections: seq<Selection>): seq<Entry> {
    if selections == [] then [] else Append(History(selections[..|selections| - 1]), selections[|selections| - 1])
  }

  // ---------------------------------------------------------------- last-use order

  /** Each selection once, in the order of its last use. */
  function LastUse(s: seq<Selection>): seq<Selection> {
    if s == [] then []
    else if s[0] in s[1..] then LastUse(s[1..])
    else [s[0]] + LastUse(s[1..])
  }

  function Without(s: seq<Selection>, x: Selection): seq<Selection> {
    if s == [] then []
    else if s[0] == x then Without(s[1..], x)
    else [s[0]] + Without(s[1..], x)
  }

  ghost predicate Distinct(s: seq<Selection>) {
    forall i, j :: 0 <= i < j < |s| ==> s[i] != s[j]
  }

  lemma {:induction false} LastUseFacts(s: seq<Selection>)
    ensures Distinct(LastUse(s))
    ensures forall x :: x in LastUse(s) <==> x in s
  {
    if s == [] {
    } else {
      LastUseFacts(s[1..]);
      assert s == [s[0]] + s[1..];
    }
  }

  /** One more use moves a selection to the end. */
  lemma {:induction false} LastUseSnoc(s: seq<Selection>, x: Selection)
    ensures LastUse(s + [x]) == Without(LastUse(s), x) + [x]
  {
    if s == [] {
      assert s + [x] == [x] && [x][1..] == [];
      assert [x] == [] + [x];
    } else {
      var all := s + [x];
      assert all[1..] == s[1..] + [x];
      LastUseSnoc(s[1..], x);
      assert x in all[1..] by { assert all[1..][|s| - 1] == x; }
      if s[0] != x && s[0] !in s[1..] {
        assert LastUse(s)[1..] == LastUse(s[1..]);
      } else if s[0] == x && s[0] !in s[1..] {
        assert LastUse(s)[1..] == LastUse(s[1..]);
      }
    }
  }

  lemma {:induction false} WithoutAbsent(s: seq<Selection>, x: Selection)
    requires x !in s
    ensures Without(s, x) == s
  {
    if s == [] {
    } else {
      WithoutAbsent(s[1..], x);
      assert s == [s[0]] + s[1..];
    }
  }

  /** Taking the one occurrence out. */
  lemma {:induction false} WithoutAt(s: seq<Selection>, i: nat)
    requires Distinct(s) && i < |s|
    ensures Without(s, s[i]) == s[..i] + s[i + 1..]
  {
    if i == 0 {
      WithoutAbsent(s[1..], s[0]);
    } else {
      WithoutAt(s[1..], i - 1);
      assert s[..i] == [s[0]] + s[1..][..i - 1];
      assert s[i + 1..] == s[1..][i..];
    }
  }

  // ---------------------------------------------------------------- the stack is the last-use history

  ghost predicate Nonempty(selections: seq<Selection>) {
    forall s :: s in selections ==> (s.vertexIds != [] && s.edgeIds == []) || (s.vertexIds == [] && s.edgeIds != [])
  }

  function Selections(stack: seq<Entry>): (r: seq<Selection>)
    ensures |r| == |stack|
  {
    seq(|stack|, i requires 0 <= i < |stack| => stack[i].selection)
  }

  /** Only the last entry is hidden. */
  ghost predicate LastHidden(stack: seq<Entry>) {
    forall i :: 0 <= i < |stack| ==> (stack[i].hide <==> i == |stack| - 1)
  }

  lemma ListsExactly(e: Entry, s: Selection)
    requires !s.IsEmpty() && s == Current(s.vertexIds, s.edgeIds)
    requires !e.selection.IsEmpty() && e.selection == Current(e.selection.vertexIds, e.selection.edgeIds)
    ensures Lists(e, s) <==> e.selection == s
  {
  }

  /** Moving an entry to the end, once the entries are marked. */
  lemma MoveEffect(stack: seq<Entry>, s: Selection, i: nat)
    requires i < |stack| && forall j :: 0 <= j < |stack| ==> (Lists(stack[j], s) <==> j == i)
    ensures var marked := HideListed(stack, s);
            var all := Selections(stack);
            var moved := marked[..i] + marked[i + 1..] + [marked[i]];
            Selections(moved) == all[..i] + all[i + 1..] + [all[i]] && LastHidden(moved)
  {
    var marked := HideListed(stack, s);
    assert forall j :: 0 <= j < |stack| ==> marked[j] == stack[j].(hide := j == i);
  }

  lemma {:induction false} AppendListed(stack: seq<Entry>, s: Selection, i: nat)
    requires Distinct(Selections(stack)) && i < |stack| && !s.IsEmpty() && stack[i].selection == s
    requires forall j :: 0 <= j < |stack| ==> (Lists(stack[j], s) <==> Selections(stack)[j] == s)
    ensures Selections(Append(stack, s)) == Without(Selections(stack), s) + [s]
    ensures LastHidden(Append(stack, s))
  {
    var all := Selections(stack);
    assert all[i] == s;
    WithoutAt(all, i);
    MoveEffect(stack, s, i);
  }

  lemma {:induction false} AppendNew(stack: seq<Entry>, s: Selection)
    requires !s.IsEmpty() && forall j :: 0 <= j < |stack| ==> !Lists(stack[j], s) && Selections(stack)[j] != s
    ensures Selections(Append(stack, s)) == Without(Selections(stack), s) + [s]
    ensures LastHidden(Append(stack, s))
  {
    var all := Selections(stack);
    WithoutAbsent(all, s);
    assert Append(stack, s) == HideListed(stack, s) + [Entry(s, true)];
    assert Selections(HideListed(stack, s)) == all;
  }

  lemma {:induction false} AppendEffect(stack: seq<Entry>, s: Selection)
    requires Distinct(Selections(stack)) && Nonempty(Selections(stack))
    requires !s.IsEmpty() && s == Current(s.vertexIds, s.edgeIds)
    ensures Selections(Append(stack, s)) == Without(Selections(stack), s) + [s]
    ensures LastHidden(Append(stack, s))
  {
    var all := Selections(stack);
    forall i | 0 <= i < |stack| ensures Lists(stack[i], s) <==> all[i] == s {
      assert all[i] in all;
      ListsExactly(stack[i], s);
    }
    match ListedIndex(stack, s, |stack|)
    case Some(i) => AppendListed(stack, s, i);
    case None => AppendNew(stack, s);
  }

  /** After any selections the stack holds each distinct one once, in last-use order, and hides exactly the current one. */
  lemma {:induction false} HistoryIsLastUse(selections: seq<Selection>)
    requires Nonempty(selections)
    ensures Selections(History(selections)) == LastUse(selections)
    ensures LastHidden(History(selections))
  {
    if selections == [] {
    } else {
      var front, s := selections[..|selections| - 1], selections[|selections| - 1];
      assert selections == front + [s];
      HistoryIsLastUse(front);
      LastUseFacts(front);
      LastUseSnoc(front, s);
      AppendEffect(History(front), s);
    }
  }

  lemma {:induction false} NoneHidden(stack: seq<Entry>)
    requires forall i :: 0 <= i < |stack| ==> !stack[i].hide
    ensures NotHidden(stack) == Selections(stack)
  {
    if stack == [] {
    } else {
      NoneHidden(stack[..|stack| - 1]);
    }
  }

  /** The last at most max selections in last-use order, but for the current one. */
  ghost predicate IsRecent(published: seq<Selection>, selections: seq<Selection>, max: nat)
    requires selections != []
  {
    exists others ::
      && LastUse(selections) == others + [selections[|selections| - 1]]
      && published == others[|others| - Min(max, |others|)..]
  }

  /** What is published are the most recent selections but the current one, at most max of them. */
  lemma {:induction false} PublishedExactly(selections: seq<Selection>, max: nat)
    requires Nonempty(selections) && selections != []
    ensures IsRecent(Published(History(selections), max), selections, max)
  {
    var stack := History(selections);
    var front, s := selections[..|selections| - 1], selections[|selections| - 1];
    var others := Without(LastUse(front), s);
    assert selections == front + [s];
    HistoryIsLastUse(selections);
    LastUseSnoc(front, s);
    PublishedOthers(stack, others, s, max);
  }

  /** Publishing from a stack whose last entry alone is hidden. */
  lemma {:induction false} PublishedOthers(stack: seq<Entry>, others: seq<Selection>, s: Selection, max: nat)
    requires Selections(stack) == others + [s] && LastHidden(stack)
    ensures Published(stack, max) == others[|others| - Min(max, |others|)..]
  {
    var front := stack[..|stack| - 1];
    assert |stack| == |others| + 1;
    forall i | 0 <= i < |front| ensures Selections(front)[i] == others[i] {
      assert Selections(stack)[i] == stack[i].selection;
    }
    assert Selections(front) == others;
    NoneHidden(front);
    assert NotHidden(stack) == others;
  }

  // ---------------------------------------------------------------- the component

  class ObjectSelection {
    var stacks: map<string, seq<Entry>>
    /** The history that was published last. */
    var selectedObjectsStack: seq<Selection>

    constructor ()
      ensures stacks == map[] && selectedObjectsStack == []
    {
      stacks, selectedObjectsStack := map[], [];
    }

    function StackOf(workspaceId: string): (r: seq<Entry>)
      reads this
      ensures workspaceId in stacks ==> r == stacks[workspaceId]
      ensures workspaceId !in stacks ==> r == []
    {
      if workspaceId in stacks then stacks[workspaceId] else []
    }

    /** Records a selection in a workspace, to be published later; nothing selected changes nothing. */
    method AppendToStack(workspaceId: string, vertexIds: seq<string>, edgeIds: seq<string>) returns (toPublish: bool)
      modifies this`stacks
      ensures toPublish <==> vertexIds != [] || edgeIds != []
      ensures workspaceId in stacks
      ensures stacks[workspaceId] ==
              if vertexIds != [] then Append(old(StackOf(workspaceId)), Selection(vertexIds, []))
              else if edgeIds != [] then Append(old(StackOf(workspaceId)), Selection([], edgeIds))
              else old(StackOf(workspaceId))
      ensures forall w :: w != workspaceId ==> (w in stacks <==> w in old(stacks)) && StackOf(w) == old(StackOf(w))
    {
      var current := Current(vertexIds, edgeIds);
      var stack := StackOf(workspaceId);
      toPublish := !current.IsEmpty();
      if toPublish {
        stack := MoveToEnd(stack, current);
      }
      stacks := stacks[workspaceId := stack];
    }

    /** Once the configuration has arrived: publishes from the stack of the workspace as it is by then. */
    method PublishStack(workspaceId: string, max: int)
      modifies this`selectedObjectsStack
      ensures selectedObjectsStack == Published(StackOf(workspaceId), max)
      ensures forall selections ::
                Nonempty(selections) && selections != [] && StackOf(workspaceId) == History(selections) && max >= 0 ==>
                IsRecent(selectedObjectsStack, selections, max)
    {
      var stack := StackOf(workspaceId);
      var notHidden := RejectHidden(stack);
      selectedObjectsStack := LastOf(notHidden, max);
      forall selections | Nonempty(selections) && selections != [] && stack == History(selections) && max >= 0
        ensures IsRecent(selectedObjectsStack, selections, max)
      {
        PublishedExactly(selections, max);
      }
    }
  }

  method RejectHidden(stack: seq<Entry>) returns (notHidden: seq<Selection>)
    ensures notHidden == NotHidden(stack)
  {
    notHidden := [];
    for i := 0 to |stack|
      invariant notHidden == NotHidden(stack[..i])
    {
      assert stack[..i + 1][..i] == stack[..i];
      if !stack[i].hide {
        notHidden := notHidden + [stack[i].selection];
      }
    }
    assert stack[..|stack|] == stack;
  }

  /** Marks the entries, then moves the one that lists the selection to the end or pushes a new one. */
  method MoveToEnd(stack: seq<Entry>, current: Selection) returns (r: seq<Entry>)
    requires !current.IsEmpty()
    ensures r == Append(stack, current)
  {
    var listedIndex: Option<nat> := None;
    r := [];
    for i := 0 to |stack|
      invariant |r| == i && forall j :: 0 <= j < i ==> r[j] == stack[j].(hide := Lists(stack[j], current))
      invariant listedIndex == ListedIndex(stack, current, i)
    {
      var listed := Lists(stack[i], current);
      r := r + [stack[i].(hide := listed)];
      if listed {
        listedIndex := Some(i);
      }
    }
    assert r == HideListed(stack, current);
    if listedIndex.Some? {
      var k := listedIndex.value;
      r := r[..k] + r[k + 1..] + [r[k]];
    } else {
      r := r + [Entry(current, true)];
    }
  }
}
