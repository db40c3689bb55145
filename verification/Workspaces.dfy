/**
 Workspace updates and their inverses: data/withWorkspaces.js, with the saving of an
 update by services/workspace.js and util/store.js of the web worker. Every update the
 user makes is recorded with an inverse made from a snapshot of the vertices it touches.
 */
module Workspaces {
  import opened Sequences
  import opened Wrappers
  import opened UndoManager

  /** Where a vertex is drawn. */
  datatype Position = Position(x: real, y: real)
  {
    function Rounded(): Position { Position(Round(x), Round(y)) }
  }

  function Round(x: real): real {
    (x + 0.5).Floor as real
  }

  /** A workspace vertex, or the update of one. */
  datatype Entity = Entity(vertexId: Option<string>, graphPosition: Option<Position>, graphLayoutJson: Option<string>)
  {
    function Rounded(): Entity {
      if graphPosition.None? then this else this.(graphPosition := Some(graphPosition.value.Rounded()))
    }
  }

  /** What extending an empty object with nothing gives. */
  const EMPTY_ENTITY := Entity(None, None, None)

  type VertexMap = map<string, Entity>

  datatype Update = Update(entityUpdates: seq<Entity>, entityDeletes: seq<string>)
  {
    predicate IsEmpty() { entityUpdates == [] && entityDeletes == [] }
  }

  /** The property name an entity is stored under; a missing id reads as "undefined". */
  function KeyOf(e: Entity): string {
    match e.vertexId
    case Some(id) => id
    case None => "undefined"
  }

  /** Every vertex is stored under its own id, at whole coordinates, and none is called "undefined". */
  ghost predicate WellStored(m: VertexMap) {
    "undefined" !in m && forall k :: k in m ==> m[k].vertexId == Some(k) && m[k].Rounded() == m[k]
  }

  // ---------------------------------------------------------------- saving an update

  /** An update of a vertex that is in the workspace is dropped unless it has a position. */
  predicate IsKept(m: VertexMap, e: Entity) {
    KeyOf(e) !in m || e.graphPosition.Some?
  }

  function Kept(m: VertexMap, updates: seq<Entity>): seq<Entity> {
    if updates == [] then []
    else
      var last := updates[|updates| - 1];
      Kept(m, updates[..|updates| - 1]) + if IsKept(m, last) then [last.Rounded()] else []
  }

  function SetAll(m: VertexMap, updates: seq<Entity>): VertexMap {
    if updates == [] then m
    else
      var last := updates[|updates| - 1];
      SetAll(m, updates[..|updates| - 1])[KeyOf(last) := last]
  }

  function Apply(m: VertexMap, u: Update): VertexMap {
    SetAll(m, Kept(m, u.entityUpdates)) - (set d | d in u.entityDeletes)
  }

  /** Does the update differ from what is stored? Layouts are compared in different forms and always differ. */
  predicate ShouldSave(m: VertexMap, u: Update) {
    u.entityDeletes != [] ||
    exists e :: e in Kept(m, u.entityUpdates) && (KeyOf(e) in m ==> m[KeyOf(e)] != e || e.graphLayoutJson.Some?)
  }

  /** The save call: round, drop, compare and store. */
  method Save(m: VertexMap, u: Update) returns (saved: bool, m': VertexMap)
    ensures m' == Apply(m, u)
    ensures saved <==>
            || u.entityDeletes != []
            || exists e :: e in Kept(m, u.entityUpdates) && (KeyOf(e) in m ==> m[KeyOf(e)] != e || e.graphLayoutJson.Some?)
  {
    var updates := [];
    for i := 0 to |u.entityUpdates|
      invariant updates == Kept(m, u.entityUpdates[..i])
    {
      assert u.entityUpdates[..i + 1][..i] == u.entityUpdates[..i];
      var e := u.entityUpdates[i].Rounded();
      if IsKept(m, e) {
        updates := updates + [e];
      }
    }
    assert u.entityUpdates[..|u.entityUpdates|] == u.entityUpdates;
    saved, m' := ShouldSave(m, u), m;
    if saved {
      m' := StoreUpdates(m, updates, u.entityDeletes);
    } else {
      SavesNothing(m, u);
    }
  }

  /** What the store of the worker does with the updates and deletes that are sent. */
  method StoreUpdates(m: VertexMap, updates: seq<Entity>, deletes: seq<string>) returns (m': VertexMap)
    ensures m' == SetAll(m, updates) - (set d | d in deletes)
  {
    m' := m;
    for i := 0 to |updates|
      invariant m' == SetAll(m, updates[..i])
    {
      assert updates[..i + 1][..i] == updates[..i];
      m' := m'[KeyOf(updates[i]) := updates[i]];
    }
    assert updates[..|updates|] == updates;
    m' := m' - (set d | d in deletes);
  }

  lemma {:induction false} SetSame(m: VertexMap, updates: seq<Entity>)
    requires forall e :: e in updates ==> KeyOf(e) in m && m[KeyOf(e)] == e
    ensures SetAll(m, updates) == m
  {
    if updates == [] {
    } else {
      SetSame(m, updates[..|updates| - 1]);
      assert updates[|updates| - 1] in updates;
    }
  }

  lemma SavesNothing(m: VertexMap, u: Update)
    requires !ShouldSave(m, u)
    ensures Apply(m, u) == m
  {
    SetSame(m, Kept(m, u.entityUpdates));
  }

  // ---------------------------------------------------------------- what an update does to one vertex

  /** The last update of a vertex that takes effect, given whether the vertex is in the workspace. */
  function LastKept(present: bool, updates: seq<Entity>, k: string): (r: Option<Entity>)
    ensures r.Some? ==> KeyOf(r.value) == k && (present ==> r.value.graphPosition.Some?)
  {
    if updates == [] then None
    else
      var last := updates[|updates| - 1];
      if KeyOf(last) == k && (present ==> last.graphPosition.Some?) then Some(last.Rounded())
      else LastKept(present, updates[..|updates| - 1], k)
  }

  lemma RoundedTwice(e: Entity)
    ensures e.Rounded().Rounded() == e.Rounded()
  {
    if e.graphPosition.Some? {
      RoundTwice(e.graphPosition.value.x);
      RoundTwice(e.graphPosition.value.y);
    }
  }

  /** A coordinate is stored as a whole number at most one half away, upwards from the middle. */
  lemma RoundNearest(x: real)
    ensures x - 0.5 < Round(x) <= x + 0.5
    ensures Round(x) == Round(x).Floor as real
  {
  }

  lemma RoundTwice(x: real)
    ensures Round(Round(x)) == Round(x)
  {
    var n := (x + 0.5).Floor;
    assert (n as real + 0.5).Floor == n;
  }

  lemma {:induction false} LastKeptRounded(present: bool, updates: seq<Entity>, k: string)
    ensures var r := LastKept(present, updates, k);
            r.Some? ==> r.value.Rounded() == r.value
  {
    if updates == [] {
    } else {
      RoundedTwice(updates[|updates| - 1]);
      LastKeptRounded(present, updates[..|updates| - 1], k);
    }
  }

  lemma {:induction false} SetKept(m: VertexMap, updates: seq<Entity>, k: string)
    ensures var s, last := SetAll(m, Kept(m, updates)), LastKept(k in m, updates, k);
            && (k in s <==> k in m || last.Some?)
            && (k in s ==> s[k] == if last.Some? then last.value else m[k])
  {
    if updates == [] {
    } else {
      var front, last := updates[..|updates| - 1], updates[|updates| - 1];
      SetKept(m, front, k);
      if IsKept(m, last) {
        DropLast(Kept(m, front), last.Rounded());
        assert Kept(m, updates) == Kept(m, front) + [last.Rounded()];
        assert SetAll(m, Kept(m, updates)) == SetAll(m, Kept(m, front))[KeyOf(last) := last.Rounded()];
      } else {
        assert Kept(m, updates) == Kept(m, front);
      }
    }
  }

  /** An update leaves a vertex out when it deletes it, and otherwise gives it its last effective value. */
  lemma ApplyAt(m: VertexMap, u: Update, k: string)
    ensures var x, last := Apply(m, u), LastKept(k in m, u.entityUpdates, k);
            && (k in x <==> k !in u.entityDeletes && (k in m || last.Some?))
            && (k in x ==> x[k] == if last.Some? then last.value else m[k])
  {
    SetKept(m, u.entityUpdates, k);
  }

  /** At most one half away on each axis, at whole coordinates. */
  ghost predicate IsNear(stored: Position, p: Position) {
    && p.x - 0.5 < stored.x <= p.x + 0.5 && p.y - 0.5 < stored.y <= p.y + 0.5
    && stored.x == stored.x.Floor as real && stored.y == stored.y.Floor as real
  }

  /** The i-th entity update is the last one that counts for its vertex: one of a vertex in the workspace counts only with a position. */
  ghost predicate IsLastFor(m: VertexMap, updates: seq<Entity>, i: nat)
    requires i < |updates|
  {
    var k := KeyOf(updates[i]);
    && (k in m ==> updates[i].graphPosition.Some?)
    && forall j :: i < j < |updates| && KeyOf(updates[j]) == k ==> k in m && updates[j].graphPosition.None?
  }

  lemma {:induction false} LastKeptIs(m: VertexMap, updates: seq<Entity>, i: nat)
    requires i < |updates| && IsLastFor(m, updates, i)
    ensures LastKept(KeyOf(updates[i]) in m, updates, KeyOf(updates[i])) == Some(updates[i].Rounded())
  {
    var n := |updates| - 1;
    if i == n {
    } else {
      LastKeptIs(m, updates[..n], i);
    }
  }

  /**
   A vertex that is not deleted is stored as the last update that counts for it says:
   under its id, with its layout, and near its position if it has one.
   */
  lemma StoredAsUpdated(m: VertexMap, u: Update, i: nat)
    requires i < |u.entityUpdates| && IsLastFor(m, u.entityUpdates, i)
    requires KeyOf(u.entityUpdates[i]) !in u.entityDeletes
    ensures KeyOf(u.entityUpdates[i]) in Apply(m, u)
    ensures var e, stored := u.entityUpdates[i], Apply(m, u)[KeyOf(u.entityUpdates[i])];
            && stored.vertexId == e.vertexId && stored.graphLayoutJson == e.graphLayoutJson
            && (stored.graphPosition.Some? <==> e.graphPosition.Some?)
            && (e.graphPosition.Some? ==> IsNear(stored.graphPosition.value, e.graphPosition.value))
  {
    var e := u.entityUpdates[i];
    LastKeptIs(m, u.entityUpdates, i);
    ApplyAt(m, u, KeyOf(e));
    if e.graphPosition.Some? {
      RoundNearest(e.graphPosition.value.x);
      RoundNearest(e.graphPosition.value.y);
    }
  }

  /** The property names an update writes or removes. */
  function Touched(u: Update): set<string> {
    (set e | e in u.entityUpdates :: KeyOf(e)) + (set d | d in u.entityDeletes)
  }

  lemma {:induction false} LastKeptTouched(present: bool, updates: seq<Entity>, k: string)
    ensures LastKept(present, updates, k).Some? ==> exists e :: e in updates && KeyOf(e) == k
    ensures !present && (exists e :: e in updates && KeyOf(e) == k) ==> LastKept(present, updates, k).Some?
  {
    if updates == [] {
    } else {
      var front, last := updates[..|updates| - 1], updates[|updates| - 1];
      LastKeptTouched(present, front, k);
      assert updates == front + [last];
    }
  }

  /** Vertices that are not touched keep their value. */
  lemma ApplyFrame(m: VertexMap, u: Update)
    ensures forall k :: k !in Touched(u) ==> (k in Apply(m, u) <==> k in m)
    ensures forall k :: k !in Touched(u) && k in m ==> Apply(m, u)[k] == m[k]
  {
    forall k | k !in Touched(u)
      ensures k in Apply(m, u) <==> k in m
      ensures k in m ==> Apply(m, u)[k] == m[k]
    {
      ApplyAt(m, u, k);
      LastKeptTouched(k in m, u.entityUpdates, k);
    }
  }

  /** Updates of present vertices keep the workspace well stored. */
  lemma ApplyWellStored(m: VertexMap, u: Update)
    requires WellStored(m) && Touched(u) <= m.Keys
    ensures WellStored(Apply(m, u)) && Apply(m, u).Keys == m.Keys - (set d | d in u.entityDeletes)
  {
    forall k
      ensures k in Apply(m, u) <==> k in m && k !in u.entityDeletes
      ensures k in Apply(m, u) ==> Apply(m, u)[k].vertexId == Some(k) && Apply(m, u)[k].Rounded() == Apply(m, u)[k]
    {
      ApplyAt(m, u, k);
      LastKeptTouched(k in m, u.entityUpdates, k);
      LastKeptRounded(k in m, u.entityUpdates, k);
    }
  }

  // ---------------------------------------------------------------- the inverse

  function Snapshot(m: VertexMap, key: string): Entity {
    if key in m then m[key] else EMPTY_ENTITY
  }

  function Inverse(u: Update, m: VertexMap): Update {
    var updates := seq(|u.entityUpdates|, i requires 0 <= i < |u.entityUpdates| => Snapshot(m, KeyOf(u.entityUpdates[i])));
    var deletes := seq(|u.entityDeletes|, i requires 0 <= i < |u.entityDeletes| => Snapshot(m, u.entityDeletes[i]));
    Update(updates + deletes, [])
  }

  method ComputeInverse(u: Update, m: VertexMap) returns (inverted: Update)
    ensures inverted == Inverse(u, m)
  {
    var updates, deletes := [], [];
    for i := 0 to |u.entityUpdates|
      invariant |updates| == i
      invariant forall k :: 0 <= k < i ==> updates[k] == Snapshot(m, KeyOf(u.entityUpdates[k]))
    {
      updates := updates + [Snapshot(m, KeyOf(u.entityUpdates[i]))];
    }
    for i := 0 to |u.entityDeletes|
      invariant |deletes| == i
      invariant forall k :: 0 <= k < i ==> deletes[k] == Snapshot(m, u.entityDeletes[k])
    {
      deletes := deletes + [Snapshot(m, u.entityDeletes[i])];
    }
    inverted := Update(updates + deletes, []);
  }

  /** The members of an inverse are the snapshots of what was touched. */
  lemma InverseMembers(u: Update, m: VertexMap)
    ensures forall e :: e in Inverse(u, m).entityUpdates <==> exists k :: k in Touched(u) && e == Snapshot(m, k)
  {
    var n := |u.entityUpdates|;
    var all := Inverse(u, m).entityUpdates;
    forall e | e in all ensures exists k :: k in Touched(u) && e == Snapshot(m, k) {
      var i :| 0 <= i < |all| && all[i] == e;
      var k := if i < n then KeyOf(u.entityUpdates[i]) else u.entityDeletes[i - n];
      assert k in Touched(u) && e == Snapshot(m, k);
    }
    forall k | k in Touched(u) ensures Snapshot(m, k) in all {
      if k in u.entityDeletes {
        var i :| 0 <= i < |u.entityDeletes| && u.entityDeletes[i] == k;
        assert all[n + i] == Snapshot(m, k);
      } else {
        var e :| e in u.entityUpdates && KeyOf(e) == k;
        var i :| 0 <= i < n && u.entityUpdates[i] == e;
        assert all[i] == Snapshot(m, k);
      }
    }
  }

  /** When all updates of a vertex are the same, it has no effect exactly when it is dropped. */
  lemma {:induction false} LastKeptSame(present: bool, updates: seq<Entity>, k: string, e: Entity)
    requires e in updates && KeyOf(e) == k && e.Rounded() == e
    requires forall f :: f in updates && KeyOf(f) == k ==> f == e
    ensures LastKept(present, updates, k) == if present && e.graphPosition.None? then None else Some(e)
  {
    var front, last := updates[..|updates| - 1], updates[|updates| - 1];
    assert updates == front + [last];
    if e in front {
      LastKeptSame(present, front, k, e);
    } else {
      LastKeptTouched(present, front, k);
    }
  }

  /** Two workspaces agree on a vertex. */
  ghost predicate SameAt(m: VertexMap, m': VertexMap, k: string) {
    (k in m <==> k in m') && (k in m ==> m[k] == m'[k])
  }

  /** A vertex that is not touched is the same after an update and an inverse recorded before. */
  lemma BackUntouched(w: VertexMap, u: Update, before: VertexMap, k: string)
    requires WellStored(before) && Touched(u) <= before.Keys && k !in Touched(u)
    ensures SameAt(Apply(Apply(w, u), Inverse(u, before)), w, k)
  {
    InverseMembers(u, before);
    ApplyAt(Apply(w, u), Inverse(u, before), k);
    ApplyFrame(w, u);
    LastKeptTouched(k in Apply(w, u), Inverse(u, before).entityUpdates, k);
  }

  /** The inverse writes back a vertex that is touched, unless it is there and had no position. */
  lemma BackTouched(w: VertexMap, u: Update, before: VertexMap, k: string)
    requires WellStored(before) && Touched(u) <= before.Keys && k in Touched(u)
    ensures k in Apply(Apply(w, u), Inverse(u, before))
    ensures Apply(Apply(w, u), Inverse(u, before))[k]
         == if k in Apply(w, u) && before[k].graphPosition.None? then Apply(w, u)[k] else before[k]
  {
    var inv := Inverse(u, before);
    InverseMembers(u, before);
    ApplyAt(Apply(w, u), inv, k);
    assert Snapshot(before, k) in inv.entityUpdates;
    LastKeptSame(k in Apply(w, u), inv.entityUpdates, k, before[k]);
  }

  /** The update touches vertices of the workspace only, and gives a position to none that has no position, unless it deletes it. */
  ghost predicate Undoable(m: VertexMap, u: Update) {
    && Touched(u) <= m.Keys
    && forall e :: e in u.entityUpdates && e.graphPosition.Some? && KeyOf(e) !in u.entityDeletes ==>
         KeyOf(e) in m && m[KeyOf(e)].graphPosition.Some?
  }

  lemma {:induction false} LastKeptExists(updates: seq<Entity>, k: string)
    ensures LastKept(true, updates, k).Some? <==>
            exists e :: e in updates && e.graphPosition.Some? && KeyOf(e) == k
  {
    if updates == [] {
    } else {
      var front, last := updates[..|updates| - 1], updates[|updates| - 1];
      LastKeptExists(front, k);
      assert updates == front + [last];
    }
  }

  /** Such an update changes no vertex that it leaves there and that had no position. */
  lemma UndoableAt(m: VertexMap, u: Update)
    requires Touched(u) <= m.Keys
    ensures Undoable(m, u) <==>
            forall k :: k in Apply(m, u) && k in m && Apply(m, u)[k] != m[k] ==> m[k].graphPosition.Some?
  {
    forall k | k in m && k !in u.entityDeletes
      ensures k in Apply(m, u) && (m[k].graphPosition.None? ==>
                (Apply(m, u)[k] != m[k] <==> exists e :: e in u.entityUpdates && e.graphPosition.Some? && KeyOf(e) == k))
    {
      ApplyAt(m, u, k);
      LastKeptExists(u.entityUpdates, k);
    }
    forall k | k in Apply(m, u) && k in m ensures k !in u.entityDeletes {
      ApplyAt(m, u, k);
    }
    forall e | e in u.entityUpdates ensures KeyOf(e) in Touched(u) {
    }
  }

  /**
   Saving an update and then its inverse restores the vertices exactly when the update
   adds none and moves none that had no position.
   */
  lemma InverseRestoresExactly(m: VertexMap, u: Update)
    requires WellStored(m)
    ensures Apply(Apply(m, u), Inverse(u, m)) == m <==> Undoable(m, u)
  {
    var x := Apply(m, u);
    var back := Apply(x, Inverse(u, m));
    if Touched(u) <= m.Keys {
      ApplyFrame(m, u);
      UndoableAt(m, u);
      forall k
        ensures k in back <==> k in m
        ensures k in m ==> (back[k] == m[k] <==> (k in x && x[k] != m[k] ==> m[k].graphPosition.Some?))
      {
        if k in Touched(u) { BackTouched(m, u, m, k); } else { BackUntouched(m, u, m, k); }
      }
    } else {
      var k :| k in Touched(u) && k !in m;
      InverseMembers(u, m);
      assert EMPTY_ENTITY == Snapshot(m, k) && KeyOf(EMPTY_ENTITY) == "undefined";
      ApplyAt(x, Inverse(u, m), "undefined");
      LastKeptTouched("undefined" in x, Inverse(u, m).entityUpdates, "undefined");
      assert "undefined" in back;
    }
  }

  /** Moving a vertex that was added without a position cannot be undone: its inverse is dropped and it stays. */
  lemma FirstMoveIsKept(m: VertexMap, id: string, p: Position)
    requires WellStored(m) && id in m && m[id].graphPosition.None?
    ensures var u := Update([Entity(Some(id), Some(p), m[id].graphLayoutJson)], []);
            Apply(Apply(m, u), Inverse(u, m)) == m[id := m[id].(graphPosition := Some(p.Rounded()))]
  {
    var e := Entity(Some(id), Some(p), m[id].graphLayoutJson);
    var u := Update([e], []);
    var back := Apply(Apply(m, u), Inverse(u, m));
    assert Touched(u) == {id};
    assert LastKept(true, [e], id) == Some(e.Rounded());
    forall k ensures k in back <==> k in m
             ensures k in m ==> back[k] == if k == id then e.Rounded() else m[k]
    {
      ApplyAt(m, u, k);
      if k in Touched(u) { BackTouched(m, u, m, k); } else { BackUntouched(m, u, m, k); }
    }
  }

  // ---------------------------------------------------------------- recorded updates

  /** An update with the vertices as they were when it was made. */
  datatype Record = Record(update: Update, before: VertexMap)
  {
    ghost predicate Valid() {
      WellStored(before) && Undoable(before, update)
    }

    /** The vertices whose value the recorded inverse writes back; it leaves alone what has no position and is not deleted. */
    function Bound(): set<string> {
      set k | k in Touched(update) &&
              (k in update.entityDeletes || (k in before && before[k].graphPosition.Some?))
    }

    function ToAction(): Action<VertexMap> {
      ActionWith(update, Inverse(update, before))
    }
  }

  /** Undo triggers the inverse as an update of its own, redo the update itself. */
  function ActionWith(u: Update, inverted: Update): Action<VertexMap> {
    Action(x => Apply(x, inverted), x => Apply(x, u))
  }

  function Actions(records: seq<Record>): (r: seq<Action<VertexMap>>)
    ensures |r| == |records|
  {
    if records == [] then [] else [records[0].ToAction()] + Actions(records[1..])
  }

  lemma {:induction false} ActionsConcat(a: seq<Record>, b: seq<Record>)
    ensures Actions(a + b) == Actions(a) + Actions(b)
  {
    if a == [] {
      assert a + b == b;
    } else {
      assert (a + b)[1..] == a[1..] + b;
      ActionsConcat(a[1..], b);
    }
  }

  /** A valid record never gives a position to a vertex it does not bind. */
  lemma UnboundIsInert(r: Record, k: string)
    requires r.Valid() && k in Touched(r.update) && k !in r.Bound()
    ensures LastKept(true, r.update.entityUpdates, k).None?
  {
    LastKeptExists(r.update.entityUpdates, k);
  }

  /** The vertices a record touches are there, and those it binds are as recorded. */
  ghost predicate Fitting(w: VertexMap, r: Record) {
    Touched(r.update) <= w.Keys && forall k :: k in r.Bound() ==> k in w && k in r.before && w[k] == r.before[k]
  }

  /** A recorded update can be done and undone at other vertices exactly when those it touches are there and those it binds are as recorded. */
  lemma UndoneExactly(w: VertexMap, r: Record)
    requires WellStored(w) && r.Valid()
    ensures r.ToAction().undo(r.ToAction().redo(w)) == w
       <==> Fitting(w, r)
  {
    var u := r.update;
    var x := Apply(w, u);
    var back := Apply(x, Inverse(u, r.before));
    assert r.ToAction().undo(r.ToAction().redo(w)) == back;
    forall k ensures SameAt(back, w, k) <==> FittingAt(w, r, k) {
      UndoneAt(w, r, k);
    }
    SameExactly(back, w);
    FittingExactly(w, r);
  }

  lemma SameExactly(m: VertexMap, m': VertexMap)
    ensures m == m' <==> forall k :: SameAt(m, m', k)
  {
    if forall k :: SameAt(m, m', k) {
      forall k ensures k in m <==> k in m' {
        assert SameAt(m, m', k);
      }
      assert m.Keys == m'.Keys;
      forall k | k in m ensures m[k] == m'[k] {
        assert SameAt(m, m', k);
      }
    }
  }

  lemma FittingExactly(w: VertexMap, r: Record)
    ensures Fitting(w, r) <==> forall k :: FittingAt(w, r, k)
  {
    if forall k :: FittingAt(w, r, k) {
      forall k | k in Touched(r.update) ensures k in w {
        assert FittingAt(w, r, k);
      }
      forall k | k in r.Bound() ensures k in w && k in r.before && w[k] == r.before[k] {
        assert FittingAt(w, r, k);
      }
    }
  }

  ghost predicate FittingAt(w: VertexMap, r: Record, k: string) {
    (k in Touched(r.update) ==> k in w) && (k in r.Bound() ==> k in w && k in r.before && w[k] == r.before[k])
  }

  /** One vertex, after a recorded update has been done and undone. */
  lemma UndoneAt(w: VertexMap, r: Record, k: string)
    requires r.Valid()
    ensures SameAt(Apply(Apply(w, r.update), Inverse(r.update, r.before)), w, k) <==> FittingAt(w, r, k)
  {
    if k in Touched(r.update) { BackTouched(w, r.update, r.before, k); } else { BackUntouched(w, r.update, r.before, k); }
    ApplyAt(w, r.update, k);
    if k in Touched(r.update) && k !in r.Bound() {
      UnboundIsInert(r, k);
    }
  }

  function TouchedBy(records: seq<Record>): set<string> {
    if records == [] then {} else Touched(records[0].update) + TouchedBy(records[1..])
  }

  function BoundBy(records: seq<Record>): set<string> {
    if records == [] then {} else records[0].Bound() + BoundBy(records[1..])
  }

  /** From m to m', the vertices the records touch are still there, and those they bind are unchanged. */
  ghost predicate LeavesAlone(m: VertexMap, m': VertexMap, records: seq<Record>) {
    && TouchedBy(records) <= m'.Keys
    && forall k :: k in BoundBy(records) ==> k in m && k in m' && m'[k] == m[k]
  }

  ghost predicate AllValid(records: seq<Record>) {
    forall r :: r in records ==> r.Valid()
  }

  lemma {:induction false} BoundIsTouched(records: seq<Record>)
    ensures BoundBy(records) <= TouchedBy(records)
  {
    if records == [] {
    } else {
      BoundIsTouched(records[1..]);
    }
  }

  lemma LeavesAloneCons(m: VertexMap, m': VertexMap, r: Record, rest: seq<Record>)
    ensures LeavesAlone(m, m', [r] + rest) <==> LeavesAlone(m, m', [r]) && LeavesAlone(m, m', rest)
  {
    assert ([r] + rest)[1..] == rest && [r][1..] == [];
    assert TouchedBy([r]) == Touched(r.update) && BoundBy([r]) == r.Bound();
  }

  lemma LeavesAloneFitting(m: VertexMap, m': VertexMap, r: Record)
    requires Fitting(m, r)
    ensures LeavesAlone(m, m', [r]) <==> Fitting(m', r)
  {
    assert [r][1..] == [];
    assert TouchedBy([r]) == Touched(r.update) && BoundBy([r]) == r.Bound();
  }

  /** A vertex that survives a fitting record is the same after it at two workspaces exactly when it was the same before. */
  lemma SameAfter(m: VertexMap, m': VertexMap, r: Record, k: string)
    requires r.Valid() && Fitting(m, r) && Fitting(m', r) && k in Apply(m, r.update)
    ensures k in m && (k in Apply(m', r.update) <==> k in m')
    ensures k in m' ==> (Apply(m', r.update)[k] == Apply(m, r.update)[k] <==> m'[k] == m[k])
  {
    var u := r.update;
    ApplyAt(m, u, k);
    ApplyAt(m', u, k);
    LastKeptTouched(k in m, u.entityUpdates, k);
    LastKeptTouched(k in m', u.entityUpdates, k);
    if k in Touched(u) && k !in r.Bound() {
      UnboundIsInert(r, k);
    }
  }

  /** Where the first record fits at two workspaces, the others are left alone after it exactly when they were before. */
  lemma {:induction false} LeavesAloneNext(m: VertexMap, m': VertexMap, r: Record, rest: seq<Record>)
    requires r.Valid() && Fitting(m, r) && Fitting(m', r) && TouchedBy(rest) <= Apply(m, r.update).Keys
    ensures LeavesAlone(Apply(m, r.update), Apply(m', r.update), rest) <==> LeavesAlone(m, m', rest)
  {
    BoundIsTouched(rest);
    forall k | k in TouchedBy(rest)
      ensures k in m && (k in Apply(m', r.update) <==> k in m')
      ensures k in m' ==> (Apply(m', r.update)[k] == Apply(m, r.update)[k] <==> m'[k] == m[k])
    {
      SameAfter(m, m', r, k);
    }
  }

  lemma CoherentCons(w: VertexMap, r: Record, rest: seq<Record>)
    requires WellStored(w) && r.Valid()
    ensures Coherent(w, Actions([r] + rest), WellStored)
       <==> Fitting(w, r) && Coherent(Apply(w, r.update), Actions(rest), WellStored)
  {
    UndoneExactly(w, r);
    assert ([r] + rest)[1..] == rest;
    var all := Actions([r] + rest);
    assert all == [r.ToAction()] + Actions(rest);
    assert all[1..] == Actions(rest) && all[0] == r.ToAction();
    assert r.ToAction().redo(w) == Apply(w, r.update);
  }

  lemma {:induction false} CoherentTouches(m: VertexMap, records: seq<Record>)
    requires AllValid(records) && Coherent(m, Actions(records), WellStored)
    ensures TouchedBy(records) <= m.Keys
    decreases |records|
  {
    if records == [] {
    } else {
      var r, rest := records[0], records[1..];
      assert records == [r] + rest;
      CoherentStart(m, Actions(records), WellStored);
      CoherentCons(m, r, rest);
      CoherentTouches(Apply(m, r.update), rest);
      ApplyWellStored(m, r.update);
    }
  }

  /**
   Records that can be walked from m can be walked from m' exactly when m' leaves them
   alone.
   */
  lemma {:induction false} CoherentExactly(m: VertexMap, m': VertexMap, records: seq<Record>)
    requires WellStored(m') && AllValid(records) && Coherent(m, Actions(records), WellStored)
    ensures Coherent(m', Actions(records), WellStored) <==> LeavesAlone(m, m', records)
    decreases |records|
  {
    if records == [] {
    } else {
      var r, rest := records[0], records[1..];
      assert records == [r] + rest && r in records && AllValid(rest);
      CoherentStart(m, Actions(records), WellStored);
      CoherentCons(m, r, rest);
      CoherentCons(m', r, rest);
      LeavesAloneCons(m, m', r, rest);
      LeavesAloneFitting(m, m', r);
      if Fitting(m', r) {
        ApplyWellStored(m', r.update);
        CoherentTouches(Apply(m, r.update), rest);
        CoherentExactly(Apply(m, r.update), Apply(m', r.update), rest);
        LeavesAloneNext(m, m', r, rest);
      }
    }
  }

  // ---------------------------------------------------------------- undo and redo of updates

  datatype WorkspaceEvent = Make(update: Update) | UndoLast | RedoLast

  function WorkspaceStep(h: History<VertexMap>, m: VertexMap, e: WorkspaceEvent): (History<VertexMap>, VertexMap) {
    match e
    case Make(u) => if u.IsEmpty() then (h, m) else Step(h, m, Do(Record(u, m).ToAction()))
    case UndoLast => Step(h, m, Undo)
    case RedoLast => Step(h, m, Redo)
  }

  function WorkspaceRun(m: VertexMap, events: seq<WorkspaceEvent>): (History<VertexMap>, VertexMap) {
    if events == [] then (History([], []), m)
    else
      var (h, m') := WorkspaceRun(m, events[..|events| - 1]);
      WorkspaceStep(h, m', events[|events| - 1])
  }

  /** The updates done and those waiting to be redone, the next one first. */
  datatype Recorded = Recorded(done: seq<Record>, waiting: seq<Record>)

  function RecordStep(r: Recorded, m: VertexMap, e: WorkspaceEvent): Recorded {
    match e
    case Make(u) => if u.IsEmpty() then r else r.(done := r.done + [Record(u, m)])
    case UndoLast =>
      if r.done == [] then r
      else Recorded(r.done[..|r.done| - 1], [r.done[|r.done| - 1]] + r.waiting)
    case RedoLast =>
      if r.waiting == [] then r else Recorded(r.done + [r.waiting[0]], r.waiting[1..])
  }

  function RecordedRun(m: VertexMap, events: seq<WorkspaceEvent>): Recorded {
    if events == [] then Recorded([], [])
    else
      var front := events[..|events| - 1];
      RecordStep(RecordedRun(m, front), WorkspaceRun(m, front).1, events[|events| - 1])
  }

  /** The two stacks hold the actions of the recorded updates. */
  ghost predicate Stands(h: History<VertexMap>, r: Recorded) {
    h.undos == Actions(r.done) && Ahead(h.redos) == Actions(r.waiting)
  }

  lemma UndoStands(h: History<VertexMap>, m: VertexMap, r: Recorded)
    requires Stands(h, r) && r.done != []
    ensures Stands(WorkspaceStep(h, m, UndoLast).0, RecordStep(r, m, UndoLast))
  {
    var n := |r.done| - 1;
    var front, last := r.done[..n], r.done[n];
    assert r.done == front + [last];
    ActionsConcat(front, [last]);
    ActionsConcat([last], r.waiting);
    assert h.undos == Actions(front) + [last.ToAction()];
    DropLast(Actions(front), last.ToAction());
    AheadOfPushed(h.redos, last.ToAction());
  }

  lemma RedoStands(h: History<VertexMap>, m: VertexMap, r: Recorded)
    requires Stands(h, r) && r.waiting != []
    ensures Stands(WorkspaceStep(h, m, RedoLast).0, RecordStep(r, m, RedoLast))
  {
    var n := |h.redos| - 1;
    ActionsConcat(r.done, [r.waiting[0]]);
    assert Ahead(h.redos)[0] == Swap(h.redos[n]) && Ahead(h.redos)[1..] == Ahead(h.redos[..n]);
    assert Actions(r.waiting)[1..] == Actions(r.waiting[1..]);
  }

  lemma StepStands(h: History<VertexMap>, m: VertexMap, r: Recorded, e: WorkspaceEvent)
    requires Stands(h, r)
    ensures Stands(WorkspaceStep(h, m, e).0, RecordStep(r, m, e))
  {
    match e
    case Make(u) => ActionsConcat(r.done, [Record(u, m)]);
    case UndoLast => if r.done != [] { UndoStands(h, m, r); }
    case RedoLast => if r.waiting != [] { RedoStands(h, m, r); }
  }

  lemma {:induction false} RunStands(m: VertexMap, events: seq<WorkspaceEvent>)
    ensures Stands(WorkspaceRun(m, events).0, RecordedRun(m, events))
  {
    if events == [] {
    } else {
      var front := events[..|events| - 1];
      RunStands(m, front);
      var (h, m') := WorkspaceRun(m, front);
      StepStands(h, m', RecordedRun(m, front), events[|events| - 1]);
    }
  }

  ghost predicate Sound(m0: VertexMap, h: History<VertexMap>, m: VertexMap) {
    Consistent(m0, h, m, WellStored)
  }

  lemma SoundWellStored(m0: VertexMap, h: History<VertexMap>, m: VertexMap)
    requires Sound(m0, h, m)
    ensures WellStored(m) && Coherent(m, Ahead(h.redos), WellStored)
  {
    CoherentConcat(m0, h.undos, Ahead(h.redos), WellStored);
    CoherentStart(m, Ahead(h.redos), WellStored);
  }

  /** The update deletes no vertex that the records touch, and changes none that they bind. */
  ghost predicate KeepsFor(m: VertexMap, u: Update, records: seq<Record>) {
    && (forall k :: k in TouchedBy(records) ==> k !in u.entityDeletes)
    && forall k :: k in BoundBy(records) && k in m && LastKept(true, u.entityUpdates, k).Some? ==>
         LastKept(true, u.entityUpdates, k).value == m[k]
  }

  /** May the update be made when these updates wait to be redone? */
  ghost predicate MayMake(m: VertexMap, u: Update, waiting: seq<Record>) {
    Undoable(m, u) && KeepsFor(m, u, waiting)
  }

  lemma KeepsForExactly(m: VertexMap, u: Update, records: seq<Record>)
    requires TouchedBy(records) <= m.Keys
    ensures KeepsFor(m, u, records) <==> LeavesAlone(m, Apply(m, u), records)
  {
    BoundIsTouched(records);
    forall k | k in m
      ensures k in Apply(m, u) <==> k !in u.entityDeletes
      ensures k in Apply(m, u) ==>
                (Apply(m, u)[k] == m[k] <==>
                 (LastKept(true, u.entityUpdates, k).Some? ==> LastKept(true, u.entityUpdates, k).value == m[k]))
    {
      ApplyAt(m, u, k);
    }
  }

  /**
   Making an update keeps the history consistent exactly when the update can be undone
   and leaves alone what the updates waiting to be redone depend on.
   */
  lemma MakeSoundExactly(m0: VertexMap, h: History<VertexMap>, m: VertexMap, r: Recorded, u: Update)
    requires Sound(m0, h, m) && Stands(h, r) && AllValid(r.waiting) && !u.IsEmpty()
    ensures var (h', m') := WorkspaceStep(h, m, Make(u));
            Sound(m0, h', m') <==> MayMake(m, u, r.waiting)
  {
    SoundWellStored(m0, h, m);
    InverseRestoresExactly(m, u);
    var a := Record(u, m).ToAction();
    var (h', m') := WorkspaceStep(h, m, Make(u));
    assert m' == a.redo(m) == Apply(m, u);
    if Undoable(m, u) {
      ApplyWellStored(m, u);
      DoConsistentExactly(m0, h, m, a, WellStored);
      CoherentTouches(m, r.waiting);
      KeepsForExactly(m, u, r.waiting);
      CoherentExactly(m, m', r.waiting);
    } else if Sound(m0, h', m') {
      CoherentConcat(m0, h.undos + [a], Ahead(h.redos), WellStored);
      CoherentConcat(m0, h.undos, [a], WellStored);
      assert false;
    }
  }

  /** Every update may be made when it is made. */
  ghost predicate Tame(m: VertexMap, events: seq<WorkspaceEvent>) {
    events == [] ||
    var front, e := events[..|events| - 1], events[|events| - 1];
    && Tame(m, front)
    && (e.Make? && !e.update.IsEmpty() ==>
          MayMake(WorkspaceRun(m, front).1, e.update, RecordedRun(m, front).waiting))
  }

  ghost predicate SoundAfter(m0: VertexMap, events: seq<WorkspaceEvent>) {
    Sound(m0, WorkspaceRun(m0, events).0, WorkspaceRun(m0, events).1)
  }

  lemma StepSoundExactly(m0: VertexMap, h: History<VertexMap>, m: VertexMap, r: Recorded, e: WorkspaceEvent)
    requires Sound(m0, h, m) && Stands(h, r) && AllValid(r.done) && AllValid(r.waiting)
    ensures var (h', m') := WorkspaceStep(h, m, e);
            Sound(m0, h', m') <==> (e.Make? && !e.update.IsEmpty() ==> MayMake(m, e.update, r.waiting))
  {
    match e
    case Make(u) => if !u.IsEmpty() { MakeSoundExactly(m0, h, m, r, u); }
    case UndoLast => if h.undos != [] { UndoConsistent(m0, h, m, WellStored); }
    case RedoLast => if h.redos != [] { RedoConsistent(m0, h, m, WellStored); }
  }

  /** In every state of the run the history is consistent. */
  ghost predicate AlwaysSound(m0: VertexMap, events: seq<WorkspaceEvent>) {
    SoundAfter(m0, events) && (events == [] || AlwaysSound(m0, events[..|events| - 1]))
  }

  lemma {:induction false} TameRecordsValid(m0: VertexMap, events: seq<WorkspaceEvent>)
    requires WellStored(m0) && Tame(m0, events)
    ensures AllValid(RecordedRun(m0, events).done) && AllValid(RecordedRun(m0, events).waiting)
    ensures SoundAfter(m0, events)
  {
    if events == [] {
      CoherentStart(m0, [], WellStored);
      var none: History<VertexMap> := History([], []);
      assert Timeline(none) == [];
    } else {
      var front, e := events[..|events| - 1], events[|events| - 1];
      TameRecordsValid(m0, front);
      RunStands(m0, front);
      var (h, m) := WorkspaceRun(m0, front);
      SoundWellStored(m0, h, m);
      StepSoundExactly(m0, h, m, RecordedRun(m0, front), e);
    }
  }

  /**
   Over all runs of updates, undos and redos: in every state the vertices are the first
   ones with exactly the updates on the undo stack applied in order, and every update
   known can be walked both ways, exactly when every update may be made when it is made.
   */
  lemma {:induction false} WorkspaceRunSoundExactly(m0: VertexMap, events: seq<WorkspaceEvent>)
    requires WellStored(m0)
    ensures AlwaysSound(m0, events) <==> Tame(m0, events)
  {
    if events == [] {
      TameRecordsValid(m0, events);
    } else {
      var front, e := events[..|events| - 1], events[|events| - 1];
      WorkspaceRunSoundExactly(m0, front);
      if Tame(m0, front) {
        TameRecordsValid(m0, front);
        RunStands(m0, front);
        var (h, m) := WorkspaceRun(m0, front);
        StepSoundExactly(m0, h, m, RecordedRun(m0, front), e);
      }
    }
  }

  function SaveAll(m: VertexMap, records: seq<Record>): VertexMap
    decreases |records|
  {
    if records == [] then m else SaveAll(Apply(m, records[0].update), records[1..])
  }

  lemma {:induction false} ReplayIsSaveAll(m: VertexMap, records: seq<Record>)
    ensures Replay(m, Actions(records)) == SaveAll(m, records)
    decreases |records|
  {
    if records == [] {
    } else {
      ReplayIsSaveAll(Apply(m, records[0].update), records[1..]);
    }
  }

  /** After such a run the vertices are the first ones with the updates done saved in order, and undoing all of them restores the first vertices. */
  lemma {:induction false} UndoAllRestoresWorkspace(m0: VertexMap, events: seq<WorkspaceEvent>)
    requires WellStored(m0) && Tame(m0, events)
    ensures var (h, m) := WorkspaceRun(m0, events);
            && m == SaveAll(m0, RecordedRun(m0, events).done)
            && Run(h, m, Repeat(Undo, |h.undos|)).1 == m0
  {
    TameRecordsValid(m0, events);
    RunStands(m0, events);
    ReplayIsSaveAll(m0, RecordedRun(m0, events).done);
    var (h, m) := WorkspaceRun(m0, events);
    UndoAllRestores(m0, h, m, WellStored);
  }

  lemma RedoOfAction(h: History<VertexMap>, m: VertexMap, u: Update)
    requires !u.IsEmpty()
    ensures WorkspaceStep(h, m, Make(u)) == (History(h.undos + [Record(u, m).ToAction()], h.redos), Apply(m, u))
  {
    assert Record(u, m).ToAction().redo(m) == Apply(m, u);
  }

  lemma ApplyEmpty(m: VertexMap, u: Update)
    ensures u.IsEmpty() ==> Apply(m, u) == m
  {
  }

  // ---------------------------------------------------------------- the component

  /** The loaded workspace and the undo managers of all workspaces, one object each. */
  class WithWorkspaces {
    var currentWorkspaceId: string
    var vertices: VertexMap
    var undoManagers: map<string, UndoManager<VertexMap>>

    ghost predicate Valid()
      reads this
    {
      forall i, j :: i in undoManagers && j in undoManagers && i != j ==> undoManagers[i] != undoManagers[j]
    }

    /** The history recorded for a workspace; none before its first update. */
    ghost function HistoryOf(id: string): History<VertexMap>
      reads this, undoManagers.Values
    {
      if id in undoManagers then History(undoManagers[id].undos, undoManagers[id].redos) else History([], [])
    }

    constructor (currentWorkspaceId: string, vertices: VertexMap)
      ensures Valid() && this.vertices == vertices && this.currentWorkspaceId == currentWorkspaceId
      ensures undoManagers == map[]
    {
      this.currentWorkspaceId := currentWorkspaceId;
      this.vertices := vertices;
      undoManagers := map[];
    }

    /** Loading a workspace replaces the vertices and keeps every history. */
    method WorkspaceLoaded(id: string, vertices: VertexMap)
      requires Valid()
      modifies this`currentWorkspaceId, this`vertices
      ensures Valid() && currentWorkspaceId == id && this.vertices == vertices
      ensures forall i :: HistoryOf(i) == old(HistoryOf(i))
    {
      currentWorkspaceId := id;
      this.vertices := vertices;
    }

    method UndoManagerForWorkspace(id: string) returns (m: UndoManager<VertexMap>)
      requires Valid()
      modifies this`undoManagers
      ensures Valid() && id in undoManagers && undoManagers[id] == m
      ensures undoManagers.Keys == old(undoManagers.Keys) + {id}
      ensures id !in old(undoManagers) ==> fresh(m)
      ensures forall i :: i in old(undoManagers) ==> undoManagers[i] == old(undoManagers[i])
      ensures forall i :: HistoryOf(i) == old(HistoryOf(i))
    {
      if id in undoManagers {
        m := undoManagers[id];
      } else {
        m := new UndoManager<VertexMap>();
        undoManagers := undoManagers[id := m];
      }
    }

    /** An update from the user is recorded with its inverse; one that undo or redo triggered is not. */
    method OnUpdateWorkspace(data: Update, ignoreUndoManager: bool)
      requires Valid()
      modifies this, undoManagers.Values
      ensures Valid() && currentWorkspaceId == old(currentWorkspaceId)
      ensures vertices == Apply(old(vertices), data)
      ensures var h := old(HistoryOf(currentWorkspaceId));
              if ignoreUndoManager || (data.entityUpdates == [] && data.entityDeletes == [])
              then HistoryOf(currentWorkspaceId) == h
              else (HistoryOf(currentWorkspaceId), vertices) == WorkspaceStep(h, old(vertices), Make(data))
      ensures forall i :: i != currentWorkspaceId ==> HistoryOf(i) == old(HistoryOf(i))
    {
      ghost var h := HistoryOf(currentWorkspaceId);
      if !ignoreUndoManager && !data.IsEmpty() {
        var inverted := ComputeInverse(data, vertices);
        var manager := UndoManagerForWorkspace(currentWorkspaceId);
        assert HistoryOf(currentWorkspaceId) == h;
        var action := ActionWith(data, inverted);
        var r := manager.PerformedAction("Workspace Update", Some(action.undo), Some(action.redo));
        RedoOfAction(h, vertices, data);
        assert HistoryOf(currentWorkspaceId) == History(h.undos + [action], h.redos);
      } else {
        ApplyEmpty(vertices, data);
      }
      var saved;
      saved, vertices := Save(vertices, data);
    }

    method PerformUndo()
      requires Valid()
      modifies this`vertices, undoManagers.Values
      ensures Valid()
      ensures (HistoryOf(currentWorkspaceId), vertices)
           == WorkspaceStep(old(HistoryOf(currentWorkspaceId)), old(vertices), UndoLast)
      ensures forall i :: i != currentWorkspaceId ==> HistoryOf(i) == old(HistoryOf(i))
    {
      if currentWorkspaceId in undoManagers {
        vertices := undoManagers[currentWorkspaceId].PerformUndo(vertices);
      }
    }

    method PerformRedo()
      requires Valid()
      modifies this`vertices, undoManagers.Values
      ensures Valid()
      ensures (HistoryOf(currentWorkspaceId), vertices)
           == WorkspaceStep(old(HistoryOf(currentWorkspaceId)), old(vertices), RedoLast)
      ensures forall i :: i != currentWorkspaceId ==> HistoryOf(i) == old(HistoryOf(i))
    {
      if currentWorkspaceId in undoManagers {
        vertices := undoManagers[currentWorkspaceId].PerformRedo(vertices);
      }
    }
  }
}
