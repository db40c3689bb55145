/**
 Menu icons and panes: menubar/menubar.js and toggleDisplay of app.js. Both listen to the
 same toggle event; turning an icon on triggers nested events that turn off the other
 icons of its group.
 */
module Menubar {
  import opened Wrappers

  // ---------------------------------------------------------------- icons and groups

  datatype Kind = Full | Pane | Other

  datatype Extension = Extension(identifier: string, kind: Kind)

  const FULL_NAMES := ["dashboard", "graph", "map"]
  const PANE_NAMES := ["workspaces", "search", "admin"]
  const LOGOUT := "logout"
  const UNGROUPED_NAMES := {"activity", "logout"}

  function Identifiers(extensions: seq<Extension>, kind: Kind): seq<string> {
    if extensions == [] then []
    else
      var rest, e := Identifiers(extensions[..|extensions| - 1], kind), extensions[|extensions| - 1];
      if e.kind == kind then rest + [e.identifier] else rest
  }

  /** The groups of icons of which at most one may be active: full views and panes. */
  datatype Groups = Groups(full: seq<string>, pane: seq<string>)
  {
    /** The other icons that must go off when an icon comes on. */
    ghost function GroupOf(name: string): set<string> {
      (if name in full then (set n | n in full) else {}) + (if name in pane then (set n | n in pane) else {})
    }
  }

  /** Registered extensions join the group of their kind. */
  function GroupsFor(extensions: seq<Extension>): Groups {
    Groups(FULL_NAMES + Identifiers(extensions, Full), PANE_NAMES + Identifiers(extensions, Pane))
  }

  /** Extensions have identifiers of their own. */
  ghost predicate FreshIdentifiers(extensions: seq<Extension>) {
    && (forall i, j :: 0 <= i < j < |extensions| ==> extensions[i].identifier != extensions[j].identifier)
    && forall e :: e in extensions ==>
         e.identifier !in FULL_NAMES && e.identifier !in PANE_NAMES && e.identifier !in UNGROUPED_NAMES
  }

  /** No icon is in both groups, and the logout icon is in none. */
  ghost predicate Proper(g: Groups) {
    (forall n :: n in g.full ==> n !in g.pane) && LOGOUT !in g.full && LOGOUT !in g.pane
  }

  lemma {:induction false} IdentifiersOf(extensions: seq<Extension>, kind: Kind)
    ensures forall n :: n in Identifiers(extensions, kind) <==>
              exists e :: e in extensions && e.identifier == n && e.kind == kind
  {
    if extensions == [] {
    } else {
      var front, last := extensions[..|extensions| - 1], extensions[|extensions| - 1];
      IdentifiersOf(front, kind);
      assert extensions == front + [last];
      forall n ensures n in Identifiers(extensions, kind) <==>
                exists e :: e in extensions && e.identifier == n && e.kind == kind
      {
        if e :| e in extensions && e.identifier == n && e.kind == kind {
          assert e in front || e == last;
        }
      }
    }
  }

  /** Any number of extensions with identifiers of their own makes proper groups. */
  lemma GroupsForProper(extensions: seq<Extension>)
    requires FreshIdentifiers(extensions)
    ensures Proper(GroupsFor(extensions))
  {
    IdentifiersOf(extensions, Full);
    IdentifiersOf(extensions, Pane);
    var g := GroupsFor(extensions);
    forall n | n in g.full ensures n !in g.pane {
      if n in Identifiers(extensions, Full) {
        var e :| e in extensions && e.identifier == n && e.kind == Full;
        var i :| 0 <= i < |extensions| && extensions[i] == e;
        forall d | d in extensions && d.identifier == n ensures d.kind == Full {
          var j :| 0 <= j < |extensions| && extensions[j] == d;
          assert i == j;
        }
      }
    }
  }

  /** Every extension is in the group of its kind and in no other, as are the icons that come with the application. */
  lemma JoinsItsGroup(extensions: seq<Extension>, e: Extension)
    requires FreshIdentifiers(extensions) && e in extensions
    ensures e.identifier in GroupsFor(extensions).full <==> e.kind == Full
    ensures e.identifier in GroupsFor(extensions).pane <==> e.kind == Pane
    ensures forall n :: n in ["dashboard", "graph", "map"] ==> n in GroupsFor(extensions).full
    ensures forall n :: n in ["workspaces", "search", "admin"] ==> n in GroupsFor(extensions).pane
  {
    IdentifiersOf(extensions, Full);
    IdentifiersOf(extensions, Pane);
    forall d | d in extensions && d.identifier == e.identifier ensures d == e {
      var i :| 0 <= i < |extensions| && extensions[i] == e;
      var j :| 0 <= j < |extensions| && extensions[j] == d;
      assert i == j;
    }
  }

  // ---------------------------------------------------------------- events as functions

  /** The icons that are active and the panes that are visible, by name. */
  datatype State = State(active: set<string>, visible: set<string>)

  function Flip(s: set<string>, name: string): set<string> {
    if name in s then s - {name} else s + {name}
  }

  /** The application's listener: the pane of the icon appears or disappears, but for logout. */
  function ToggleDisplay(s: State, name: string): State {
    if name == LOGOUT then s else s.(visible := Flip(s.visible, name))
  }

  function Rank(s: State, name: string): nat {
    if name in s.active then 0 else 1
  }

  /** A toggle event reaches the two listeners, in either order of registration. */
  function Trigger(g: Groups, s: State, name: string, collapse: bool, appFirst: bool): State
    decreases Rank(s, name), 3, 0
  {
    if appFirst then MenubarToggle(g, ToggleDisplay(s, name), name, collapse, appFirst)
    else ToggleDisplay(MenubarToggle(g, s, name, collapse, appFirst), name)
  }

  /** The menu bar's listener. */
  function MenubarToggle(g: Groups, s: State, name: string, collapse: bool, appFirst: bool): State
    decreases Rank(s, name), 2, 0
  {
    if name == LOGOUT then s.(active := s.active + {name})
    else if name in s.active then s.(active := Flip(s.active, name))
    else
      var s1 := if name in g.full then SwitchGroup(g, s, g.full, name, appFirst) else s;
      var s2 := if name in g.pane then SwitchGroup(g, s1, g.pane, name, appFirst) else s1;
      var isSwitch := name in g.full || name in g.pane;
      if !isSwitch || collapse then s2.(active := Flip(s2.active, name)) else s2
  }

  /** Goes through a group in order: collapses the active others by nested events, and activates the icon itself. */
  function SwitchGroup(g: Groups, s: State, names: seq<string>, name: string, appFirst: bool): State
    decreases 1, 1, |names|
  {
    if names == [] then s
    else
      var s1 := SwitchGroup(g, s, names[..|names| - 1], name, appFirst);
      var n := names[|names| - 1];
      if n == name then s1.(active := s1.active + {name})
      else if n in s1.active then Trigger(g, s1, n, true, appFirst)
      else s1
  }

  // ---------------------------------------------------------------- the invariant

  /** At most one icon of each group is active, and an icon other than logout is active just when its pane is visible. */
  ghost predicate Mirrored(g: Groups, s: State) {
    && (forall a, b :: a in g.full && b in g.full && a in s.active && b in s.active ==> a == b)
    && (forall a, b :: a in g.pane && b in g.pane && a in s.active && b in s.active ==> a == b)
    && (forall n :: n != LOGOUT ==> (n in s.active <==> n in s.visible))
  }

  /** What a toggle is meant to do to a set of names that are on. */
  ghost function Toggled(g: Groups, on: set<string>, name: string): set<string> {
    if name in on then on - {name} else on - g.GroupOf(name) + {name}
  }

  lemma TriggerActive(g: Groups, s: State, name: string, collapse: bool, appFirst: bool)
    requires name in s.active && name != LOGOUT
    ensures Trigger(g, s, name, collapse, appFirst) == State(s.active - {name}, Flip(s.visible, name))
  {
  }

  /** The logout icon only lights up. */
  lemma TriggerLogout(g: Groups, s: State, collapse: bool, appFirst: bool)
    ensures Trigger(g, s, LOGOUT, collapse, appFirst) == State(s.active + {LOGOUT}, s.visible)
  {
    assert ToggleDisplay(s, LOGOUT) == s;
    assert MenubarToggle(g, s, LOGOUT, collapse, appFirst) == State(s.active + {LOGOUT}, s.visible);
  }

  /** Of the names met, the icon is on, and the others are off with their panes. */
  ghost predicate Switched(s: State, r: State, met: set<string>, name: string) {
    && r.active == s.active - (met - {name}) + (if name in met then {name} else {})
    && r.visible == s.visible - (met - {name})
  }

  lemma SwitchOther(g: Groups, s: State, r: State, met: set<string>, name: string, n: string, appFirst: bool)
    requires Switched(s, r, met, name) && name !in s.active && n != name && n != LOGOUT
    requires n in s.active <==> n in s.visible
    ensures Switched(s, if n in r.active then Trigger(g, r, n, true, appFirst) else r, met + {n}, name)
  {
    assert (met + {n}) - {name} == (met - {name}) + {n};
    if n in r.active {
      TriggerActive(g, r, n, true, appFirst);
      assert n in r.visible;
    }
  }

  /** After part of a group, the others met so far are off, with their panes, and the icon is on if it has been met. */
  lemma {:induction false} SwitchGroupEffect(g: Groups, s: State, names: seq<string>, name: string, appFirst: bool)
    requires name !in s.active && LOGOUT !in names
    requires forall n :: n in names && n != name ==> (n in s.active <==> n in s.visible)
    ensures Switched(s, SwitchGroup(g, s, names, name, appFirst), (set n | n in names), name)
  {
    if names == [] {
    } else {
      var front, n := names[..|names| - 1], names[|names| - 1];
      SwitchGroupEffect(g, s, front, name, appFirst);
      assert names == front + [n];
      assert (set m | m in names) == (set m | m in front) + {n};
      if n != name {
        SwitchOther(g, s, SwitchGroup(g, s, front, name, appFirst), (set m | m in front), name, n, appFirst);
      }
    }
  }

  /** The menu bar's part of turning an inactive icon on. */
  lemma MenubarTurnsOn(g: Groups, s: State, name: string, collapse: bool, appFirst: bool)
    requires Proper(g) && name != LOGOUT && name !in s.active
    requires forall n :: n != LOGOUT && n != name ==> (n in s.active <==> n in s.visible)
    ensures var r := MenubarToggle(g, s, name, collapse, appFirst);
            var others := g.GroupOf(name) - {name};
            && r.visible == s.visible - others
            && r.active == s.active - others + (if collapse && g.GroupOf(name) != {} then {} else {name})
  {
    if name in g.full {
      SwitchGroupEffect(g, s, g.full, name, appFirst);
      assert name in g.GroupOf(name);
    } else if name in g.pane {
      SwitchGroupEffect(g, s, g.pane, name, appFirst);
      assert name in g.GroupOf(name);
    }
  }

  /** An event from outside, nested events included and in either order of the listeners, does just what a toggle is meant to do. */
  lemma TriggerExact(g: Groups, s: State, name: string, appFirst: bool)
    requires Proper(g) && Mirrored(g, s) && name != LOGOUT
    ensures Trigger(g, s, name, false, appFirst)
         == State(Toggled(g, s.active, name), Toggled(g, s.visible, name))
  {
    if name in s.active {
      TriggerActive(g, s, name, false, appFirst);
    } else if appFirst {
      MenubarTurnsOn(g, ToggleDisplay(s, name), name, false, appFirst);
    } else {
      MenubarTurnsOn(g, s, name, false, appFirst);
    }
  }

  lemma ToggledMirrored(g: Groups, s: State, name: string)
    requires Proper(g) && Mirrored(g, s) && name != LOGOUT
    ensures Mirrored(g, State(Toggled(g, s.active, name), Toggled(g, s.visible, name)))
  {
  }

  lemma TriggerMirrored(g: Groups, s: State, name: string, appFirst: bool)
    requires Proper(g) && Mirrored(g, s)
    ensures Mirrored(g, Trigger(g, s, name, false, appFirst))
  {
    if name != LOGOUT {
      TriggerExact(g, s, name, appFirst);
      ToggledMirrored(g, s, name);
    }
  }

  /** A collapsing event keeps icons and panes together exactly when its icon is active, or in no group: as nested ones always are. */
  lemma CollapseMirroredExactly(g: Groups, s: State, name: string, appFirst: bool)
    requires Proper(g) && Mirrored(g, s) && name != LOGOUT
    ensures Mirrored(g, Trigger(g, s, name, true, appFirst)) <==> name in s.active || g.GroupOf(name) == {}
  {
    if name in s.active {
      TriggerActive(g, s, name, true, appFirst);
    } else {
      if appFirst {
        MenubarTurnsOn(g, ToggleDisplay(s, name), name, true, appFirst);
      } else {
        MenubarTurnsOn(g, s, name, true, appFirst);
      }
      var r := Trigger(g, s, name, true, appFirst);
      if g.GroupOf(name) == {} {
        assert r == State(Toggled(g, s.active, name), Toggled(g, s.visible, name));
        ToggledMirrored(g, s, name);
      } else {
        assert name in r.visible && name !in r.active;
      }
    }
  }

  // ---------------------------------------------------------------- runs

  /** Components trigger toggles; the logout icon's highlight ends by a timer; a click may trigger a toggle in the next frame. */
  datatype Event = Toggle(name: string) | HighlightEnds | Click(name: string) | Frame

  /** A state with the toggles that wait for an animation frame. */
  datatype Page = Page(state: State, pending: seq<string>)

  /** A click on the active icon of a full view only marks it. */
  predicate ClickTriggers(g: Groups, s: State, name: string) {
    !(name in g.full && name in s.active)
  }

  function Handle(g: Groups, p: Page, e: Event, appFirst: bool): Page {
    match e
    case Toggle(name) => p.(state := Trigger(g, p.state, name, false, appFirst))
    case HighlightEnds => p.(state := p.state.(active := p.state.active - {LOGOUT}))
    case Click(name) => if ClickTriggers(g, p.state, name) then p.(pending := p.pending + [name]) else p
    case Frame =>
      if p.pending == [] then p
      else Page(Trigger(g, p.state, p.pending[0], false, appFirst), p.pending[1..])
  }

  function HandleAll(g: Groups, p: Page, events: seq<Event>, appFirst: bool): Page {
    if events == [] then p
    else Handle(g, HandleAll(g, p, events[..|events| - 1], appFirst), events[|events| - 1], appFirst)
  }

  /** Over all runs, with any extensions and any interleaving of clicks, frames and other toggles, icons mirror panes. */
  lemma {:induction false} RunMirrored(g: Groups, p: Page, events: seq<Event>, appFirst: bool)
    requires Proper(g) && Mirrored(g, p.state)
    ensures Mirrored(g, HandleAll(g, p, events, appFirst).state)
  {
    if events == [] {
    } else {
      var front, e := events[..|events| - 1], events[|events| - 1];
      RunMirrored(g, p, front, appFirst);
      var q := HandleAll(g, p, front, appFirst);
      match e
      case Toggle(name) => TriggerMirrored(g, q.state, name, appFirst);
      case Frame => if q.pending != [] { TriggerMirrored(g, q.state, q.pending[0], appFirst); }
      case _ =>
    }
  }

  /** The logout icon lights up until its timer ends; no pane and no other icon changes. */
  lemma LogoutBlinks(g: Groups, p: Page, appFirst: bool)
    ensures var lit := Handle(g, p, Toggle("logout"), appFirst);
            && lit == Page(State(p.state.active + {"logout"}, p.state.visible), p.pending)
            && Handle(g, lit, HighlightEnds, appFirst) == Page(State(p.state.active - {"logout"}, p.state.visible), p.pending)
  {
    TriggerLogout(g, p.state, false, appFirst);
    assert p.state.active + {"logout"} - {"logout"} == p.state.active - {"logout"};
  }

  /** A full view is shown. */
  ghost predicate FullShown(g: Groups, s: State) {
    exists n :: n in g.full && n in s.active
  }

  /** The toggle of a frame leaves a full view on exactly unless it is for the one that is on. */
  lemma FrameKeepsFullExactly(g: Groups, s: State, name: string, appFirst: bool)
    requires Proper(g) && Mirrored(g, s) && FullShown(g, s)
    ensures FullShown(g, Trigger(g, s, name, false, appFirst)) <==> ClickTriggers(g, s, name)
  {
    var on :| on in g.full && on in s.active;
    var r := Trigger(g, s, name, false, appFirst);
    if name != LOGOUT {
      TriggerExact(g, s, name, appFirst);
      if name in g.full && name !in s.active {
        assert name in r.active;
      } else if name !in g.full {
        assert on in r.active;
      }
    } else {
      TriggerLogout(g, s, false, appFirst);
      assert on in r.active;
    }
  }

  /** The icon whose toggle an event handles. */
  function Handled(p: Page, e: Event): Option<string> {
    match e
    case Toggle(name) => Some(name)
    case Frame => if p.pending == [] then None else Some(p.pending[0])
    case _ => None
  }

  lemma StepKeepsFullExactly(g: Groups, p: Page, e: Event, appFirst: bool)
    requires Proper(g) && Mirrored(g, p.state) && FullShown(g, p.state)
    ensures FullShown(g, Handle(g, p, e, appFirst).state)
       <==> (Handled(p, e).Some? ==> ClickTriggers(g, p.state, Handled(p, e).value))
  {
    match e
    case Toggle(name) => FrameKeepsFullExactly(g, p.state, name, appFirst);
    case HighlightEnds =>
      var on :| on in g.full && on in p.state.active;
      assert on != LOGOUT;
    case Click(_) =>
    case Frame => if p.pending != [] { FrameKeepsFullExactly(g, p.state, p.pending[0], appFirst); }
  }

  /** A full view is on in every state of the run. */
  ghost predicate AlwaysFull(g: Groups, p: Page, events: seq<Event>, appFirst: bool) {
    && FullShown(g, HandleAll(g, p, events, appFirst).state)
    && (events == [] || AlwaysFull(g, p, events[..|events| - 1], appFirst))
  }

  /** No event of the run handles a toggle for the full view that is on. */
  ghost predicate NoneTurnsOff(g: Groups, p: Page, events: seq<Event>, appFirst: bool) {
    events == [] ||
    var front := events[..|events| - 1];
    var q := HandleAll(g, p, front, appFirst);
    var name := Handled(q, events[|events| - 1]);
    NoneTurnsOff(g, p, front, appFirst) && (name.Some? ==> ClickTriggers(g, q.state, name.value))
  }

  /**
   Over all runs of clicks, frames and toggles, a full view stays on in every state exactly
   when no toggle is handled for the one that is on.
   */
  lemma {:induction false} AlwaysFullExactly(g: Groups, p: Page, events: seq<Event>, appFirst: bool)
    requires Proper(g) && Mirrored(g, p.state) && FullShown(g, p.state)
    ensures AlwaysFull(g, p, events, appFirst) <==> NoneTurnsOff(g, p, events, appFirst)
  {
    if events == [] {
    } else {
      var front, e := events[..|events| - 1], events[|events| - 1];
      AlwaysFullExactly(g, p, front, appFirst);
      RunMirrored(g, p, front, appFirst);
      if AlwaysFull(g, p, front, appFirst) {
        StepKeepsFullExactly(g, HandleAll(g, p, front, appFirst), e, appFirst);
      }
    }
  }

  /** Clicks, each handled by its frame before the next. */
  function ClickRun(g: Groups, s: State, clicks: seq<string>, appFirst: bool): State {
    if clicks == [] then s
    else
      var r, name := ClickRun(g, s, clicks[..|clicks| - 1], appFirst), clicks[|clicks| - 1];
      HandleAll(g, Page(r, []), [Click(name), Frame], appFirst).state
  }

  lemma OneClick(g: Groups, s: State, name: string, appFirst: bool)
    ensures HandleAll(g, Page(s, []), [Click(name), Frame], appFirst).state
         == if ClickTriggers(g, s, name) then Trigger(g, s, name, false, appFirst) else s
  {
    var p := Page(s, []);
    assert [Click(name), Frame][..1] == [Click(name)] && [Click(name)][..0] == [];
    assert HandleAll(g, p, [Click(name)], appFirst) == Handle(g, p, Click(name), appFirst);
    assert [] + [name] == [name];
  }

  /** Once a full view is on, runs of clicks keep exactly one on. */
  lemma {:induction false} ClicksKeepOneFullView(g: Groups, s: State, clicks: seq<string>, appFirst: bool)
    requires Proper(g) && Mirrored(g, s) && FullShown(g, s)
    ensures Mirrored(g, ClickRun(g, s, clicks, appFirst)) && FullShown(g, ClickRun(g, s, clicks, appFirst))
  {
    if clicks == [] {
    } else {
      var front, name := clicks[..|clicks| - 1], clicks[|clicks| - 1];
      ClicksKeepOneFullView(g, s, front, appFirst);
      var r := ClickRun(g, s, front, appFirst);
      OneClick(g, r, name, appFirst);
      TriggerMirrored(g, r, name, appFirst);
      FrameKeepsFullExactly(g, r, name, appFirst);
    }
  }

  /** Two clicks before the next frame both see the icon inactive, and the second toggle leaves no full view on. */
  lemma DoubleClickLeavesNoFullView(appFirst: bool)
    ensures var g := GroupsFor([]);
            var p := Page(State({"graph"}, {"graph"}), []);
            var p1 := Handle(g, p, Click("map"), appFirst);
            var p2 := Handle(g, p1, Click("map"), appFirst);
            var p3 := Handle(g, p2, Frame, appFirst);
            var p4 := Handle(g, p3, Frame, appFirst);
            FullShown(g, p.state) && p4.pending == [] && !FullShown(g, p4.state)
  {
    var g := GroupsFor([]);
    GroupsForProper([]);
    assert "graph" in g.full && "map" in g.full && g.full == FULL_NAMES;
    var s, t := State({"graph"}, {"graph"}), State({"map"}, {"map"});
    TriggerExact(g, s, "map", appFirst);
    assert "graph" in g.GroupOf("map") && Toggled(g, {"graph"}, "map") == {"map"};
    TriggerExact(g, t, "map", appFirst);
    assert Toggled(g, {"map"}, "map") == {};
  }

  // ---------------------------------------------------------------- the components

  /** The menu bar and the application's panes, with their listeners. */
  class MenubarAndPanes {
    const groups: Groups
    const appFirst: bool
    var active: set<string>
    var visible: set<string>

    function Contents(): State
      reads this
    {
      State(active, visible)
    }

    constructor (extensions: seq<Extension>, appFirst: bool)
      requires FreshIdentifiers(extensions)
      ensures Contents() == State({}, {}) && groups == GroupsFor(extensions) && this.appFirst == appFirst
      ensures Proper(groups) && Mirrored(groups, Contents())
    {
      GroupsForProper(extensions);
      groups, this.appFirst := GroupsFor(extensions), appFirst;
      active, visible := {}, {};
    }

    method TriggerToggle(name: string, collapse: bool)
      modifies this
      ensures Contents() == Trigger(groups, old(Contents()), name, collapse, appFirst)
      decreases Rank(Contents(), name), 3, 0
    {
      if appFirst {
        ShowOrHide(name);
        OnMenubarToggle(name, collapse);
      } else {
        OnMenubarToggle(name, collapse);
        ShowOrHide(name);
      }
    }

    method ShowOrHide(name: string)
      modifies this`visible
      ensures Contents() == ToggleDisplay(old(Contents()), name)
    {
      if name != LOGOUT {
        if name in visible {
          visible := visible - {name};
        } else {
          visible := visible + {name};
        }
      }
    }

    method OnMenubarToggle(name: string, collapse: bool)
      modifies this
      ensures Contents() == MenubarToggle(groups, old(Contents()), name, collapse, appFirst)
      decreases Rank(Contents(), name), 2, 0
    {
      if name == LOGOUT {
        active := active + {name};
        return;
      }
      var isSwitch := false;
      if name !in active {
        if name in groups.full {
          isSwitch := true;
          ActivateWithin(groups.full, name);
        }
        if name in groups.pane {
          isSwitch := true;
          ActivateWithin(groups.pane, name);
        }
      }
      if !isSwitch || collapse {
        active := Flip(active, name);
      }
    }

    method ActivateWithin(names: seq<string>, name: string)
      modifies this
      ensures Contents() == SwitchGroup(groups, old(Contents()), names, name, appFirst)
      decreases 1, 1, |names|
    {
      for i := 0 to |names|
        invariant Contents() == SwitchGroup(groups, old(Contents()), names[..i], name, appFirst)
      {
        assert names[..i + 1][..i] == names[..i];
        if names[i] == name {
          active := active + {name};
        } else if names[i] in active {
          TriggerToggle(names[i], true);
        }
      }
      assert names[..|names|] == names;
    }
  }
}
