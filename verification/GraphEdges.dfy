/**
 Collapsed edges of the graph view: graph/graph.js draws all edges with the same
 compound id as one, and keeps these groups up to date on load, update and delete events.
 */
module GraphEdges {
  import opened Sequences
  import opened Wrappers

  datatype Edge = Edge(edgeId: string, outVertexId: string, inVertexId: string, relation: string)

  /** The key under which edges are drawn as one. */
  function CompoundId(e: Edge): string {
    e.outVertexId + e.inVertexId + e.relation
  }

  /** A drawn edge: its end points and type, those of its first edge; the count in its label; the edges it stands for. */
  datatype Group = Group(source: string, target: string, relation: string, count: Option<nat>, edges: seq<Edge>)

  type Groups = map<string, Group>

  /** The label mentions the number of edges when there are several. */
  function LabelCount(edges: seq<Edge>): Option<nat> {
    if |edges| > 1 then Some(|edges|) else None
  }

  function MakeGroup(edges: seq<Edge>): Group
    requires edges != []
  {
    Group(edges[0].outVertexId, edges[0].inVertexId, edges[0].relation, LabelCount(edges), edges)
  }

  function WithEdges(g: Group, edges: seq<Edge>): Group {
    g.(edges := edges, count := LabelCount(edges))
  }

  predicate Drawn(nodes: set<string>, e: Edge) {
    e.outVertexId in nodes && e.inVertexId in nodes
  }

  // ---------------------------------------------------------------- load

  /** The loaded edges by compound id, in their order. */
  function GroupBy(es: seq<Edge>): (r: map<string, seq<Edge>>)
    ensures forall c :: c in r ==> r[c] != []
  {
    if es == [] then map[]
    else
      var r, e := GroupBy(es[..|es| - 1]), es[|es| - 1];
      var c := CompoundId(e);
      r[c := (if c in r then r[c] else []) + [e]]
  }

  /** The groups whose end points are drawn. */
  function Drawable(nodes: set<string>, es: seq<Edge>): Groups {
    var r := GroupBy(es);
    map c | c in r && Drawn(nodes, r[c][0]) :: MakeGroup(r[c])
  }

  /** A load replaces everything, unless it has nothing to draw. */
  function Loaded(groups: Groups, nodes: set<string>, es: seq<Edge>): Groups {
    var r := Drawable(nodes, es);
    if r == map[] then groups else r
  }

  // ---------------------------------------------------------------- update

  /** The first edge of each id. */
  function Unique(edges: seq<Edge>): seq<Edge> {
    if edges == [] then []
    else
      var u, e := Unique(edges[..|edges| - 1]), edges[|edges| - 1];
      if exists f :: f in u && f.edgeId == e.edgeId then u else u + [e]
  }

  /** One updated edge joins its group, or waits to be added as a new group, or is dropped. */
  function UpdateStep(groups: Groups, added: seq<Edge>, nodes: set<string>, e: Edge): (Groups, seq<Edge>) {
    var c := CompoundId(e);
    if c in groups then (groups[c := WithEdges(groups[c], Unique(groups[c].edges + [e]))], added)
    else if Drawn(nodes, e) then (groups, added + [e])
    else (groups, added)
  }

  function UpdateAll(groups: Groups, nodes: set<string>, batch: seq<Edge>): (Groups, seq<Edge>) {
    if batch == [] then (groups, [])
    else
      var (g, added) := UpdateAll(groups, nodes, batch[..|batch| - 1]);
      UpdateStep(g, added, nodes, batch[|batch| - 1])
  }

  /** Adds new groups at the end; the drawing library refuses an id that is already there. */
  function AddNew(groups: Groups, added: seq<Edge>): Groups {
    if added == [] then groups
    else
      var g, e := AddNew(groups, added[..|added| - 1]), added[|added| - 1];
      if CompoundId(e) in g then g else g[CompoundId(e) := MakeGroup([e])]
  }

  function Updated(groups: Groups, nodes: set<string>, batch: seq<Edge>): Groups {
    var (g, added) := UpdateAll(groups, nodes, batch);
    AddNew(g, added)
  }

  // ---------------------------------------------------------------- delete

  function Reject(edges: seq<Edge>, edgeId: string): seq<Edge> {
    if edges == [] then []
    else
      var r, e := Reject(edges[..|edges| - 1], edgeId), edges[|edges| - 1];
      if e.edgeId == edgeId then r else r + [e]
  }

  /** Every group loses the edge, and disappears with its last edge. */
  function Deleted(groups: Groups, edgeId: string): Groups {
    map c | c in groups && Reject(groups[c].edges, edgeId) != []
      :: WithEdges(groups[c], Reject(groups[c].edges, edgeId))
  }

  // ---------------------------------------------------------------- the index against the raw edges

  ghost predicate DistinctIds(edges: seq<Edge>) {
    forall i, j :: 0 <= i < j < |edges| ==> edges[i].edgeId != edges[j].edgeId
  }

  /** An edge id names one edge. */
  ghost predicate Identified(edges: set<Edge>) {
    forall e, f :: e in edges && f in edges && e.edgeId == f.edgeId ==> e == f
  }

  ghost predicate GoodGroup(c: string, g: Group) {
    && g.edges != [] && DistinctIds(g.edges) && g.count == (if |g.edges| > 1 then Some(|g.edges|) else None)
    && forall e :: e in g.edges ==> CompoundId(e) == c
  }

  /** The groups are exactly the live edges collected by compound id, none empty, none counted twice. */
  ghost predicate Refines(groups: Groups, live: set<Edge>) {
    && (forall c :: c in groups ==> GoodGroup(c, groups[c]))
    && forall e :: e in live <==> CompoundId(e) in groups && e in groups[CompoundId(e)].edges
  }

  /** What the loaded edges become: those whose group is drawn, or nothing new. */
  ghost function LoadedLive(live: set<Edge>, nodes: set<string>, es: seq<Edge>): set<Edge> {
    if Drawable(nodes, es) == map[] then live
    else set e | e in es && CompoundId(e) in Drawable(nodes, es)
  }

  /** An updated edge becomes live when its group is, or its end points are drawn. */
  ghost predicate Accepted(live: set<Edge>, nodes: set<string>, e: Edge) {
    Drawn(nodes, e) || exists f :: f in live && CompoundId(f) == CompoundId(e)
  }

  ghost function UpdatedLive(live: set<Edge>, nodes: set<string>, batch: seq<Edge>): set<Edge> {
    live + set e | e in batch && Accepted(live, nodes, e)
  }

  ghost function DeletedLive(live: set<Edge>, edgeId: string): set<Edge> {
    set e | e in live && e.edgeId != edgeId
  }

  lemma DistinctSnoc(edges: seq<Edge>, front: seq<Edge>, last: Edge)
    requires DistinctIds(front + [last]) && DistinctIds(edges) && forall e :: e in edges ==> e in front
    ensures DistinctIds(edges + [last])
  {
    forall i | 0 <= i < |edges| ensures edges[i].edgeId != last.edgeId {
      assert edges[i] in edges;
      var k :| 0 <= k < |front| && front[k] == edges[i];
      assert (front + [last])[k].edgeId != (front + [last])[|front|].edgeId;
    }
  }

  lemma {:induction false} GroupByMembers(es: seq<Edge>)
    ensures forall e :: e in es <==> CompoundId(e) in GroupBy(es) && e in GroupBy(es)[CompoundId(e)]
    ensures forall c, e :: c in GroupBy(es) && e in GroupBy(es)[c] ==> CompoundId(e) == c
  {
    if es == [] {
    } else {
      var front, last := es[..|es| - 1], es[|es| - 1];
      GroupByMembers(front);
      assert es == front + [last];
    }
  }

  lemma {:induction false} GroupByDistinct(es: seq<Edge>, c: string)
    requires DistinctIds(es) && c in GroupBy(es)
    ensures DistinctIds(GroupBy(es)[c])
  {
    if es == [] {
    } else {
      var front, last := es[..|es| - 1], es[|es| - 1];
      var r := GroupBy(front);
      if c in r {
        GroupByDistinct(front, c);
        GroupByMembers(front);
        assert es == front + [last];
        DistinctSnoc(r[c], front, last);
      }
    }
  }

  lemma GroupByFacts(es: seq<Edge>)
    ensures forall e :: e in es <==> CompoundId(e) in GroupBy(es) && e in GroupBy(es)[CompoundId(e)]
    ensures forall c, e :: c in GroupBy(es) && e in GroupBy(es)[c] ==> CompoundId(e) == c
    ensures DistinctIds(es) ==> forall c :: c in GroupBy(es) ==> DistinctIds(GroupBy(es)[c])
  {
    GroupByMembers(es);
    forall c | DistinctIds(es) && c in GroupBy(es) ensures DistinctIds(GroupBy(es)[c]) {
      GroupByDistinct(es, c);
    }
  }

  /** A load draws exactly the groups whose first edge has both ends among the vertices drawn, between these ends. */
  lemma LoadDrawsExactly(groups: Groups, nodes: set<string>, es: seq<Edge>)
    ensures var drawable := Drawable(nodes, es);
            && (forall c :: c in drawable <==>
                  c in GroupBy(es) && GroupBy(es)[c][0].outVertexId in nodes && GroupBy(es)[c][0].inVertexId in nodes)
            && (forall c :: c in drawable ==> drawable[c].source in nodes && drawable[c].target in nodes)
            && Loaded(groups, nodes, es) == if drawable == map[] then groups else drawable
  {
  }

  /** When all end points are drawn, a load that names any edge makes exactly the loaded edges live. */
  lemma LoadedLiveDrawn(live: set<Edge>, nodes: set<string>, es: seq<Edge>)
    requires forall e :: e in es ==> Drawn(nodes, e)
    ensures LoadedLive(live, nodes, es) == if es == [] then live else EdgeSet(es)
  {
    GroupByFacts(es);
    forall e | e in es ensures CompoundId(e) in Drawable(nodes, es) {
      var first := GroupBy(es)[CompoundId(e)][0];
      assert first in GroupBy(es)[CompoundId(e)] && first in es;
    }
    if es != [] {
      assert es[0] in es;
    }
  }

  /** A load that names no edge twice leaves the groups in agreement with the edges. */
  lemma LoadRefines(groups: Groups, live: set<Edge>, nodes: set<string>, es: seq<Edge>)
    requires Refines(groups, live) && DistinctIds(es)
    ensures Refines(Loaded(groups, nodes, es), LoadedLive(live, nodes, es))
  {
    GroupByFacts(es);
    var r := GroupBy(es);
    var drawable := Drawable(nodes, es);
    if drawable != map[] {
      forall c | c in drawable ensures GoodGroup(c, drawable[c]) {
        assert drawable[c].edges == r[c];
      }
    }
  }

  // ---------------------------------------------------------------- updates keep the agreement

  lemma {:induction false} UniqueOfDistinct(edges: seq<Edge>)
    requires DistinctIds(edges)
    ensures Unique(edges) == edges
  {
    if edges == [] {
    } else {
      var front, last := edges[..|edges| - 1], edges[|edges| - 1];
      UniqueOfDistinct(front);
      assert edges == front + [last];
    }
  }

  /** An edge that joins a group without repeats joins it once. */
  lemma UniqueJoin(edges: seq<Edge>, e: Edge)
    requires DistinctIds(edges)
    requires forall f :: f in edges && f.edgeId == e.edgeId ==> f == e
    ensures DistinctIds(Unique(edges + [e]))
    ensures forall f :: f in Unique(edges + [e]) <==> f in edges || f == e
  {
    DropLast(edges, e);
    UniqueOfDistinct(edges);
  }

  function EdgeSet(es: seq<Edge>): set<Edge> {
    set e | e in es
  }

  /** The edges of a batch whose group is drawn already. */
  function Joining(groups: Groups, batch: seq<Edge>): set<Edge> {
    set e | e in batch && CompoundId(e) in groups
  }

  lemma {:induction false} UpdateAllAdds(groups: Groups, nodes: set<string>, batch: seq<Edge>)
    ensures var (g, added) := UpdateAll(groups, nodes, batch);
            && g.Keys == groups.Keys
            && (forall e :: e in added <==> e in batch && CompoundId(e) !in groups && Drawn(nodes, e))
  {
    if batch == [] {
    } else {
      var front, e := batch[..|batch| - 1], batch[|batch| - 1];
      assert batch == front + [e];
      UpdateAllAdds(groups, nodes, front);
    }
  }

  lemma IdentifiedFront(live: set<Edge>, front: seq<Edge>, e: Edge)
    requires Identified(live + EdgeSet(front + [e]))
    ensures Identified(live + EdgeSet(front))
    ensures forall f :: f in live + EdgeSet(front) && f.edgeId == e.edgeId ==> f == e
  {
    var all := live + EdgeSet(front + [e]);
    assert e in all;
    assert forall f :: f in live + EdgeSet(front) ==> f in all;
  }

  lemma JoiningSnoc(groups: Groups, front: seq<Edge>, e: Edge)
    ensures Joining(groups, front + [e]) == Joining(groups, front) + if CompoundId(e) in groups then {e} else {}
  {
  }

  lemma UpdateStepRefines(
      groups: Groups, live: set<Edge>, nodes: set<string>, front: seq<Edge>, e: Edge, g: Groups, added: seq<Edge>)
    requires Refines(g, live + Joining(groups, front)) && g.Keys == groups.Keys
    requires Identified(live + EdgeSet(front + [e]))
    ensures Refines(UpdateStep(g, added, nodes, e).0, live + Joining(groups, front + [e]))
  {
    JoiningSnoc(groups, front, e);
    var now := live + Joining(groups, front);
    var joined := if CompoundId(e) in groups then {e} else {};
    assert live + Joining(groups, front + [e]) == now + joined;
    if CompoundId(e) in groups {
      JoiningIdentified(groups, live, front, e);
      JoinRefines(g, now, e);
    } else {
      assert now + joined == now;
    }
  }

  lemma JoiningIdentified(groups: Groups, live: set<Edge>, front: seq<Edge>, e: Edge)
    requires Identified(live + EdgeSet(front + [e]))
    ensures forall f :: f in live + Joining(groups, front) && f.edgeId == e.edgeId ==> f == e
  {
    IdentifiedFront(live, front, e);
    assert Joining(groups, front) <= EdgeSet(front);
  }

  /** The drawn groups after the joins of a batch. */
  lemma {:induction false} UpdateAllRefines(groups: Groups, live: set<Edge>, nodes: set<string>, batch: seq<Edge>)
    requires Refines(groups, live) && Identified(live + EdgeSet(batch))
    ensures Refines(UpdateAll(groups, nodes, batch).0, live + Joining(groups, batch))
  {
    if batch == [] {
      assert live + Joining(groups, batch) == live;
    } else {
      var front, e := batch[..|batch| - 1], batch[|batch| - 1];
      assert batch == front + [e];
      IdentifiedFront(live, front, e);
      UpdateAllRefines(groups, live, nodes, front);
      UpdateAllAdds(groups, nodes, front);
      var (g, added) := UpdateAll(groups, nodes, front);
      UpdateStepRefines(groups, live, nodes, front, e, g, added);
    }
  }

  lemma JoinRefines(g: Groups, live: set<Edge>, e: Edge)
    requires Refines(g, live) && CompoundId(e) in g
    requires forall f :: f in live && f.edgeId == e.edgeId ==> f == e
    ensures var c := CompoundId(e);
            Refines(g[c := WithEdges(g[c], Unique(g[c].edges + [e]))], live + {e})
  {
    var c := CompoundId(e);
    var edges := g[c].edges;
    assert forall f :: f in edges ==> CompoundId(f) == c && f in live;
    UniqueJoin(edges, e);
    assert e in Unique(edges + [e]);
    assert GoodGroup(c, WithEdges(g[c], Unique(edges + [e])));
  }

  /** Adding new groups: the first edge of each compound id is drawn, and only that one. */
  lemma {:induction false} AddNewFacts(groups: Groups, added: seq<Edge>)
    requires forall e :: e in added ==> CompoundId(e) !in groups
    ensures var r := AddNew(groups, added);
            && (forall c :: c in groups ==> c in r && r[c] == groups[c])
            && (forall e :: e in added ==> CompoundId(e) in r)
            && (forall c :: c in r && c !in groups ==>
                  |r[c].edges| == 1 && r[c].edges[0] in added && CompoundId(r[c].edges[0]) == c && r[c].count == None)
  {
    if added == [] {
    } else {
      var front, e := added[..|added| - 1], added[|added| - 1];
      assert added == front + [e];
      AddNewFacts(groups, front);
    }
  }

  /** No two different edges of the batch are to start the same new group. */
  ghost predicate OnePerNewGroup(groups: Groups, nodes: set<string>, batch: seq<Edge>) {
    forall e, f ::
      (&& e in batch && f in batch && Drawn(nodes, e) && Drawn(nodes, f)
       && CompoundId(e) == CompoundId(f) && CompoundId(e) !in groups) ==> e == f
  }

  lemma AcceptedExactly(groups: Groups, live: set<Edge>, nodes: set<string>, e: Edge)
    requires Refines(groups, live)
    ensures Accepted(live, nodes, e) <==> Drawn(nodes, e) || CompoundId(e) in groups
  {
    var c := CompoundId(e);
    if c in groups {
      var f := groups[c].edges[0];
      assert f in groups[c].edges && CompoundId(f) == c;
      assert f in live;
    }
  }

  /** What a batch of updates leads to, group by group. */
  ghost predicate Outcome(groups: Groups, live: set<Edge>, nodes: set<string>, batch: seq<Edge>, r: Groups) {
    && (forall c :: c in r ==> GoodGroup(c, r[c]))
    && (forall e :: CompoundId(e) in groups ==>
          (e in live + Joining(groups, batch) <==> CompoundId(e) in r && e in r[CompoundId(e)].edges))
    && (forall e :: e in batch && CompoundId(e) !in groups && Drawn(nodes, e) ==> CompoundId(e) in r)
    && (forall c :: c in r && c !in groups ==>
          |r[c].edges| == 1 && r[c].edges[0] in batch && Drawn(nodes, r[c].edges[0]))
  }

  /** The outcome, from what is known of the joined groups and of the added ones. */
  lemma OutcomeOfParts(
      groups: Groups, live: set<Edge>, nodes: set<string>, batch: seq<Edge>, g: Groups, added: seq<Edge>, r: Groups)
    requires Refines(g, live + Joining(groups, batch)) && g.Keys == groups.Keys
    requires forall e :: e in added <==> e in batch && CompoundId(e) !in groups && Drawn(nodes, e)
    requires forall c :: c in g ==> c in r && r[c] == g[c]
    requires forall e :: e in added ==> CompoundId(e) in r
    requires forall c :: c in r && c !in g ==>
               |r[c].edges| == 1 && r[c].edges[0] in added && CompoundId(r[c].edges[0]) == c && r[c].count == None
    ensures Outcome(groups, live, nodes, batch, r)
  {
    forall c | c in r ensures GoodGroup(c, r[c]) {
      if c in g {
        assert GoodGroup(c, g[c]);
      }
    }
  }

  lemma UpdatedOutcome(groups: Groups, live: set<Edge>, nodes: set<string>, batch: seq<Edge>)
    requires Refines(groups, live) && Identified(live + EdgeSet(batch))
    ensures Outcome(groups, live, nodes, batch, Updated(groups, nodes, batch))
  {
    UpdateAllAdds(groups, nodes, batch);
    UpdateAllRefines(groups, live, nodes, batch);
    var (g, added) := UpdateAll(groups, nodes, batch);
    AddNewFacts(g, added);
    OutcomeOfParts(groups, live, nodes, batch, g, added, AddNew(g, added));
  }

  /** Which edges are live after a batch, by whether their group was drawn before. */
  lemma LiveExactly(groups: Groups, live: set<Edge>, nodes: set<string>, batch: seq<Edge>, e: Edge)
    requires Refines(groups, live)
    ensures e in UpdatedLive(live, nodes, batch) <==>
            if CompoundId(e) in groups then e in live + Joining(groups, batch) else e in batch && Drawn(nodes, e)
  {
    AcceptedExactly(groups, live, nodes, e);
  }

  /** In a new group, the edge drawn is the only edge of the batch that could be. */
  lemma NewGroupExactly(groups: Groups, live: set<Edge>, nodes: set<string>, batch: seq<Edge>, r: Groups, e: Edge)
    requires Outcome(groups, live, nodes, batch, r) && OnePerNewGroup(groups, nodes, batch)
    requires CompoundId(e) !in groups
    ensures e in batch && Drawn(nodes, e) <==> CompoundId(e) in r && e in r[CompoundId(e)].edges
  {
    var c := CompoundId(e);
    if c in r {
      var f := r[c].edges[0];
      assert GoodGroup(c, r[c]) && f in r[c].edges;
      assert r[c].edges == [f];
    }
  }

  lemma UpdateRefines(groups: Groups, live: set<Edge>, nodes: set<string>, batch: seq<Edge>)
    requires Refines(groups, live) && Identified(live + EdgeSet(batch)) && OnePerNewGroup(groups, nodes, batch)
    ensures Refines(Updated(groups, nodes, batch), UpdatedLive(live, nodes, batch))
  {
    var r, after := Updated(groups, nodes, batch), UpdatedLive(live, nodes, batch);
    UpdatedOutcome(groups, live, nodes, batch);
    forall e ensures e in after <==> CompoundId(e) in r && e in r[CompoundId(e)].edges {
      LiveExactly(groups, live, nodes, batch, e);
      if CompoundId(e) !in groups {
        NewGroupExactly(groups, live, nodes, batch, r, e);
      }
    }
  }

  /** Of two edges that are to start the same group only one is drawn. */
  lemma SecondEdgeIsLost(
      groups: Groups, live: set<Edge>, nodes: set<string>, batch: seq<Edge>, r: Groups, e: Edge, f: Edge)
    requires Refines(groups, live) && Outcome(groups, live, nodes, batch, r)
    requires Refines(r, UpdatedLive(live, nodes, batch))
    requires e in batch && f in batch && Drawn(nodes, e) && Drawn(nodes, f)
    requires CompoundId(e) == CompoundId(f) && CompoundId(e) !in groups
    ensures e == f
  {
    LiveExactly(groups, live, nodes, batch, e);
    LiveExactly(groups, live, nodes, batch, f);
    var edges := r[CompoundId(e)].edges;
    assert e in edges && f in edges && |edges| == 1;
  }

  /** A batch of updates keeps the agreement exactly when it starts no new group with two different edges. */
  lemma UpdateRefinesExactly(groups: Groups, live: set<Edge>, nodes: set<string>, batch: seq<Edge>)
    requires Refines(groups, live) && Identified(live + EdgeSet(batch))
    ensures Refines(Updated(groups, nodes, batch), UpdatedLive(live, nodes, batch))
       <==> OnePerNewGroup(groups, nodes, batch)
  {
    if OnePerNewGroup(groups, nodes, batch) {
      UpdateRefines(groups, live, nodes, batch);
    }
    if Refines(Updated(groups, nodes, batch), UpdatedLive(live, nodes, batch)) {
      UpdatedOutcome(groups, live, nodes, batch);
      forall e, f | && e in batch && f in batch && Drawn(nodes, e) && Drawn(nodes, f)
                    && CompoundId(e) == CompoundId(f) && CompoundId(e) !in groups
        ensures e == f
      {
        SecondEdgeIsLost(groups, live, nodes, batch, Updated(groups, nodes, batch), e, f);
      }
    }
  }

  // ---------------------------------------------------------------- deletes keep the agreement

  lemma {:induction false} RejectFacts(edges: seq<Edge>, edgeId: string)
    ensures forall e :: e in Reject(edges, edgeId) <==> e in edges && e.edgeId != edgeId
    ensures DistinctIds(edges) ==> DistinctIds(Reject(edges, edgeId))
  {
    if edges == [] {
    } else {
      var front, last := edges[..|edges| - 1], edges[|edges| - 1];
      RejectFacts(front, edgeId);
      assert edges == front + [last];
      var r := Reject(front, edgeId);
      if DistinctIds(edges) {
        assert DistinctIds(front);
        forall i | 0 <= i < |r| ensures r[i].edgeId != last.edgeId {
          assert r[i] in r && r[i] in front;
        }
      }
    }
  }

  lemma DeleteRefines(groups: Groups, live: set<Edge>, edgeId: string)
    requires Refines(groups, live)
    ensures Refines(Deleted(groups, edgeId), DeletedLive(live, edgeId))
  {
    var r := Deleted(groups, edgeId);
    forall c | c in groups
      ensures forall e :: e in Reject(groups[c].edges, edgeId) <==> e in groups[c].edges && e.edgeId != edgeId
      ensures c in r ==> GoodGroup(c, r[c])
    {
      RejectFacts(groups[c].edges, edgeId);
    }
    forall e ensures e in DeletedLive(live, edgeId) <==> CompoundId(e) in r && e in r[CompoundId(e)].edges {
      var c := CompoundId(e);
      if c in groups && e in Reject(groups[c].edges, edgeId) {
        assert Reject(groups[c].edges, edgeId) != [];
      }
    }
  }

  // ---------------------------------------------------------------- runs

  /** An event, with the vertices drawn when it is handled. */
  datatype Event =
    | Load(nodes: set<string>, edges: seq<Edge>)
    | Update(nodes: set<string>, batch: seq<Edge>)
    | Delete(edgeId: string)

  function Handle(groups: Groups, e: Event): Groups {
    match e
    case Load(nodes, es) => Loaded(groups, nodes, es)
    case Update(nodes, batch) => Updated(groups, nodes, batch)
    case Delete(id) => Deleted(groups, id)
  }

  ghost function HandleLive(live: set<Edge>, e: Event): set<Edge> {
    match e
    case Load(nodes, es) => LoadedLive(live, nodes, es)
    case Update(nodes, batch) => UpdatedLive(live, nodes, batch)
    case Delete(id) => DeletedLive(live, id)
  }

  function HandleAll(events: seq<Event>): Groups {
    if events == [] then map[] else Handle(HandleAll(events[..|events| - 1]), events[|events| - 1])
  }

  ghost function LiveAfter(events: seq<Event>): set<Edge> {
    if events == [] then {} else HandleLive(LiveAfter(events[..|events| - 1]), events[|events| - 1])
  }

  /** Loads name no edge twice; updates agree with the live edges on what an id means and start no group with two edges. */
  ghost predicate Orderly(events: seq<Event>) {
    events == [] ||
    var front, e := events[..|events| - 1], events[|events| - 1];
    && Orderly(front)
    && match e
       case Load(_, es) => DistinctIds(es)
       case Update(nodes, batch) =>
         && Identified(LiveAfter(front) + EdgeSet(batch))
         && OnePerNewGroup(HandleAll(front), nodes, batch)
       case Delete(_) => true
  }

  /** After every orderly sequence of events the groups equal the grouping of the live edges. */
  lemma {:induction false} IndexRefinesEdges(events: seq<Event>)
    requires Orderly(events)
    ensures Refines(HandleAll(events), LiveAfter(events))
  {
    if events == [] {
    } else {
      var front, e := events[..|events| - 1], events[|events| - 1];
      IndexRefinesEdges(front);
      match e
      case Load(nodes, es) => LoadRefines(HandleAll(front), LiveAfter(front), nodes, es);
      case Update(nodes, batch) => UpdateRefinesExactly(HandleAll(front), LiveAfter(front), nodes, batch);
      case Delete(id) => DeleteRefines(HandleAll(front), LiveAfter(front), id);
    }
  }

  /** An update starts a group exactly for the edges of the batch with both ends among the vertices drawn. */
  lemma UpdateStartsExactly(groups: Groups, nodes: set<string>, batch: seq<Edge>, c: string)
    requires c !in groups
    ensures c in Updated(groups, nodes, batch) <==>
            exists e :: e in batch && CompoundId(e) == c && e.outVertexId in nodes && e.inVertexId in nodes
  {
    var (g, added) := UpdateAll(groups, nodes, batch);
    UpdateAllAdds(groups, nodes, batch);
    AddNewFacts(g, added);
    if c in Updated(groups, nodes, batch) {
      var e := Updated(groups, nodes, batch)[c].edges[0];
      assert e in added && CompoundId(e) == c;
    }
  }

  // ---------------------------------------------------------------- what a group stands for

  ghost predicate SameEnds(e: Edge, f: Edge) {
    e.outVertexId == f.outVertexId && e.inVertexId == f.inVertexId && e.relation == f.relation
  }

  ghost predicate SameLengths(e: Edge, f: Edge) {
    |e.outVertexId| == |f.outVertexId| && |e.inVertexId| == |f.inVertexId|
  }

  /** Edges with one compound id join the same vertices by the same relation exactly when the lengths of their vertex ids agree. */
  lemma SameEndsExactly(e: Edge, f: Edge)
    requires CompoundId(e) == CompoundId(f)
    ensures SameEnds(e, f) <==> SameLengths(e, f)
  {
    if SameLengths(e, f) {
      var m, n := |e.outVertexId|, |e.outVertexId| + |e.inVertexId|;
      assert e.outVertexId == CompoundId(e)[..m] == f.outVertexId;
      assert e.inVertexId == CompoundId(e)[m..n] == f.inVertexId;
      assert e.relation == CompoundId(e)[n..] == f.relation;
    }
  }

  /** No two of the edges have one compound id and vertex ids of different lengths. */
  ghost predicate CollisionFree(edges: set<Edge>) {
    forall e, f :: e in edges && f in edges && CompoundId(e) == CompoundId(f) ==> SameLengths(e, f)
  }

  /** All edges of each group join the same vertices by the same relation. */
  ghost predicate OneRelationPerGroup(groups: Groups) {
    forall c, e, f :: c in groups && e in groups[c].edges && f in groups[c].edges ==> SameEnds(e, f)
  }

  lemma CollisionFreeIsOneRelation(groups: Groups, live: set<Edge>)
    requires Refines(groups, live) && CollisionFree(live)
    ensures OneRelationPerGroup(groups)
  {
    forall c, e, f | c in groups && e in groups[c].edges && f in groups[c].edges ensures SameEnds(e, f) {
      assert GoodGroup(c, groups[c]);
      assert CompoundId(e) == c && CompoundId(f) == c;
      assert e in live && f in live;
      SameEndsExactly(e, f);
    }
  }

  lemma OneRelationIsCollisionFree(groups: Groups, live: set<Edge>)
    requires Refines(groups, live) && OneRelationPerGroup(groups)
    ensures CollisionFree(live)
  {
    forall e, f | e in live && f in live && CompoundId(e) == CompoundId(f) ensures SameLengths(e, f) {
      assert e in groups[CompoundId(e)].edges && f in groups[CompoundId(e)].edges;
      assert SameEnds(e, f);
    }
  }

  /** After an orderly run, every group's edges join the same vertices by the same relation exactly when the live edges are free of collisions. */
  lemma {:induction false} OneRelationPerGroupExactly(events: seq<Event>)
    requires Orderly(events)
    ensures OneRelationPerGroup(HandleAll(events)) <==> CollisionFree(LiveAfter(events))
  {
    IndexRefinesEdges(events);
    if CollisionFree(LiveAfter(events)) {
      CollisionFreeIsOneRelation(HandleAll(events), LiveAfter(events));
    } else if OneRelationPerGroup(HandleAll(events)) {
      OneRelationIsCollisionFree(HandleAll(events), LiveAfter(events));
      assert false;
    }
  }

  /** The group is drawn between the end points of the edge, as its relation. */
  ghost predicate Shows(g: Group, e: Edge) {
    g.source == e.outVertexId && g.target == e.inVertexId && g.relation == e.relation
  }

  /** Every group is drawn as what each of its edges is. */
  ghost predicate DrawnTrue(groups: Groups) {
    forall c, e :: c in groups && e in groups[c].edges ==> Shows(groups[c], e)
  }

  lemma TrueIsCollisionFree(groups: Groups, live: set<Edge>)
    requires Refines(groups, live) && DrawnTrue(groups)
    ensures CollisionFree(live)
  {
    forall e, f | e in live && f in live && CompoundId(e) == CompoundId(f) ensures SameLengths(e, f) {
      assert Shows(groups[CompoundId(e)], e) && Shows(groups[CompoundId(e)], f);
    }
  }

  /** Without collisions it is enough that each group shows one of its edges. */
  lemma OneShownIsTrue(groups: Groups, live: set<Edge>)
    requires Refines(groups, live) && CollisionFree(live)
    requires forall c :: c in groups ==> exists f :: f in groups[c].edges && Shows(groups[c], f)
    ensures DrawnTrue(groups)
  {
    forall c, e | c in groups && e in groups[c].edges ensures Shows(groups[c], e) {
      var f :| f in groups[c].edges && Shows(groups[c], f);
      assert GoodGroup(c, groups[c]);
      assert CompoundId(e) == c && CompoundId(f) == c;
      assert e in live && f in live;
      SameEndsExactly(e, f);
    }
  }

  lemma {:induction false} UpdateAllEnds(groups: Groups, nodes: set<string>, batch: seq<Edge>, c: string)
    requires c in groups
    ensures var g := UpdateAll(groups, nodes, batch).0;
            c in g && g[c].source == groups[c].source && g[c].target == groups[c].target && g[c].relation == groups[c].relation
  {
    if batch == [] {
    } else {
      UpdateAllEnds(groups, nodes, batch[..|batch| - 1], c);
    }
  }

  lemma {:induction false} AddNewEnds(groups: Groups, added: seq<Edge>)
    ensures forall c :: c in groups ==> c in AddNew(groups, added) && AddNew(groups, added)[c] == groups[c]
    ensures forall c :: c in AddNew(groups, added) && c !in groups ==>
              exists f :: f in AddNew(groups, added)[c].edges && Shows(AddNew(groups, added)[c], f)
  {
    if added == [] {
    } else {
      var e := added[|added| - 1];
      AddNewEnds(groups, added[..|added| - 1]);
      assert e in MakeGroup([e]).edges && Shows(MakeGroup([e]), e);
    }
  }

  lemma LoadShows(groups: Groups, nodes: set<string>, es: seq<Edge>)
    requires DrawnTrue(groups) && forall c :: c in groups ==> groups[c].edges != []
    ensures var r := Loaded(groups, nodes, es);
            forall c :: c in r ==> exists f :: f in r[c].edges && Shows(r[c], f)
  {
    var r := Loaded(groups, nodes, es);
    forall c | c in r ensures exists f :: f in r[c].edges && Shows(r[c], f) {
      assert r[c].edges[0] in r[c].edges && Shows(r[c], r[c].edges[0]);
    }
  }

  lemma UpdateShows(groups: Groups, live: set<Edge>, nodes: set<string>, batch: seq<Edge>)
    requires Refines(groups, live) && Refines(Updated(groups, nodes, batch), UpdatedLive(live, nodes, batch))
    requires DrawnTrue(groups)
    ensures var r := Updated(groups, nodes, batch);
            forall c :: c in r ==> exists f :: f in r[c].edges && Shows(r[c], f)
  {
    var (g, added) := UpdateAll(groups, nodes, batch);
    var r := Updated(groups, nodes, batch);
    UpdateAllAdds(groups, nodes, batch);
    AddNewEnds(g, added);
    forall c | c in groups ensures exists f :: f in r[c].edges && Shows(r[c], f) {
      UpdateAllEnds(groups, nodes, batch, c);
      assert GoodGroup(c, groups[c]);
      var f := groups[c].edges[0];
      assert f in groups[c].edges && CompoundId(f) == c;
      assert f in live && Shows(groups[c], f);
      assert f in r[c].edges && Shows(r[c], f);
    }
  }

  lemma DeleteShows(groups: Groups, edgeId: string)
    requires DrawnTrue(groups)
    ensures DrawnTrue(Deleted(groups, edgeId))
  {
    var r := Deleted(groups, edgeId);
    forall c, e | c in r && e in r[c].edges ensures Shows(r[c], e) {
      RejectFacts(groups[c].edges, edgeId);
      assert e in groups[c].edges;
    }
  }

  lemma StepTrue(groups: Groups, live: set<Edge>, e: Event)
    requires Refines(groups, live) && Refines(Handle(groups, e), HandleLive(live, e))
    requires DrawnTrue(groups) && CollisionFree(HandleLive(live, e))
    ensures DrawnTrue(Handle(groups, e))
  {
    match e
    case Load(nodes, es) =>
      assert forall c :: c in groups ==> GoodGroup(c, groups[c]);
      LoadShows(groups, nodes, es);
      OneShownIsTrue(Handle(groups, e), HandleLive(live, e));
    case Update(nodes, batch) =>
      UpdateShows(groups, live, nodes, batch);
      OneShownIsTrue(Handle(groups, e), HandleLive(live, e));
    case Delete(id) => DeleteShows(groups, id);
  }

  /** In every state of the run the groups are drawn as what their edges are. */
  ghost predicate AlwaysTrue(events: seq<Event>) {
    DrawnTrue(HandleAll(events)) && (events == [] || AlwaysTrue(events[..|events| - 1]))
  }

  ghost predicate AlwaysCollisionFree(events: seq<Event>) {
    CollisionFree(LiveAfter(events)) && (events == [] || AlwaysCollisionFree(events[..|events| - 1]))
  }

  /**
   Over every orderly run, in every state each group joins the two vertices and has the
   relation of all its edges, exactly when in every state no two live edges with one
   compound id differ in the lengths of their vertex ids.
   */
  lemma {:induction false} GroupsAreTrueExactly(events: seq<Event>)
    requires Orderly(events)
    ensures AlwaysTrue(events) <==> AlwaysCollisionFree(events)
  {
    IndexRefinesEdges(events);
    if events == [] {
    } else {
      var front, e := events[..|events| - 1], events[|events| - 1];
      GroupsAreTrueExactly(front);
      IndexRefinesEdges(front);
      if DrawnTrue(HandleAll(events)) {
        TrueIsCollisionFree(HandleAll(events), LiveAfter(events));
      } else if AlwaysTrue(front) && CollisionFree(LiveAfter(events)) {
        StepTrue(HandleAll(front), LiveAfter(front), e);
        assert false;
      }
    }
  }

  /** Compound ids run ids together, so edges between different vertices can be drawn as one. */
  lemma CompoundIdsCollide()
    ensures var e, f := Edge("1", "ab", "c", "knows"), Edge("2", "a", "bc", "knows");
            var r := HandleAll([Load({"ab", "c", "a", "bc"}, [e, f])]);
            && e.outVertexId != f.outVertexId
            && CompoundId(e) in r && r[CompoundId(e)].edges == [e, f]
  {
    var e, f := Edge("1", "ab", "c", "knows"), Edge("2", "a", "bc", "knows");
    var nodes := {"ab", "c", "a", "bc"};
    assert "ab" + "c" + "knows" == "a" + "bc" + "knows" == CompoundId(e) == CompoundId(f);
    assert [e, f][..1] == [e] && [e][..0] == [];
    assert GroupBy([e]) == map[][CompoundId(e) := [] + [e]];
    assert GroupBy([e, f])[CompoundId(e)] == [e] + [f];
    var event := Load(nodes, [e, f]);
    assert [event][..0] == [];
    assert CompoundId(e) in Drawable(nodes, [e, f]);
    assert HandleAll([event]) == Handle(map[], event);
  }

  // ---------------------------------------------------------------- the component

  /** The handlers as the component runs them, changing the drawn groups in place. */
  class EdgeView {
    var groups: Groups

    constructor ()
      ensures groups == map[]
    {
      groups := map[];
    }

    method OnEdgesLoaded(nodes: set<string>, edges: seq<Edge>)
      modifies this
      ensures groups == Loaded(old(groups), nodes, edges)
    {
      var byId := GroupEdges(edges);
      var relationshipEdges: Groups := map[];
      var rest := byId.Keys;
      while rest != {}
        invariant rest <= byId.Keys
        invariant forall c :: c in relationshipEdges <==> c in byId && c !in rest && Drawn(nodes, byId[c][0])
        invariant forall c :: c in relationshipEdges ==> relationshipEdges[c] == MakeGroup(byId[c])
        decreases |rest|
      {
        var c :| c in rest;
        if Drawn(nodes, byId[c][0]) {
          relationshipEdges := relationshipEdges[c := MakeGroup(byId[c])];
        }
        rest := rest - {c};
      }
      assert relationshipEdges == Drawable(nodes, edges);
      if relationshipEdges != map[] {
        groups := relationshipEdges;
      }
    }

    method OnEdgesUpdated(nodes: set<string>, batch: seq<Edge>)
      modifies this
      ensures groups == Updated(old(groups), nodes, batch)
    {
      var newEdges := [];
      for i := 0 to |batch|
        invariant (groups, newEdges) == UpdateAll(old(groups), nodes, batch[..i])
      {
        assert batch[..i + 1][..i] == batch[..i];
        var edge := batch[i];
        var c := CompoundId(edge);
        if c in groups {
          var edges := UniqueEdges(groups[c].edges + [edge]);
          groups := groups[c := WithEdges(groups[c], edges)];
        } else if Drawn(nodes, edge) {
          newEdges := newEdges + [edge];
        }
      }
      assert batch[..|batch|] == batch;
      ghost var joined := groups;
      for i := 0 to |newEdges|
        invariant groups == AddNew(joined, newEdges[..i])
      {
        assert newEdges[..i + 1][..i] == newEdges[..i];
        var c := CompoundId(newEdges[i]);
        if c !in groups {
          groups := groups[c := MakeGroup([newEdges[i]])];
        }
      }
      assert newEdges[..|newEdges|] == newEdges;
    }

    method OnEdgesDeleted(edgeId: string)
      modifies this
      ensures groups == Deleted(old(groups), edgeId)
    {
      var before := groups;
      var rest := before.Keys;
      while rest != {}
        invariant rest <= before.Keys
        invariant forall c :: c in groups <==> c in rest || (c in before && Reject(before[c].edges, edgeId) != [])
        invariant forall c :: c in groups ==>
          groups[c] == if c in rest then before[c] else WithEdges(before[c], Reject(before[c].edges, edgeId))
        decreases |rest|
      {
        var c :| c in rest;
        var edges := RejectEdge(before[c].edges, edgeId);
        if edges != [] {
          groups := groups[c := WithEdges(before[c], edges)];
        } else {
          groups := groups - {c};
        }
        rest := rest - {c};
      }
      assert groups == Deleted(before, edgeId);
    }
  }

  method GroupEdges(edges: seq<Edge>) returns (byId: map<string, seq<Edge>>)
    ensures byId == GroupBy(edges)
  {
    byId := map[];
    for i := 0 to |edges|
      invariant byId == GroupBy(edges[..i])
    {
      assert edges[..i + 1][..i] == edges[..i];
      var c := CompoundId(edges[i]);
      byId := byId[c := (if c in byId then byId[c] else []) + [edges[i]]];
    }
    assert edges[..|edges|] == edges;
  }

  method UniqueEdges(edges: seq<Edge>) returns (r: seq<Edge>)
    ensures r == Unique(edges)
  {
    r := [];
    for i := 0 to |edges|
      invariant r == Unique(edges[..i])
    {
      assert edges[..i + 1][..i] == edges[..i];
      if !exists f :: f in r && f.edgeId == edges[i].edgeId {
        r := r + [edges[i]];
      }
    }
    assert edges[..|edges|] == edges;
  }

  method RejectEdge(edges: seq<Edge>, edgeId: string) returns (r: seq<Edge>)
    ensures r == Reject(edges, edgeId)
  {
    r := [];
    for i := 0 to |edges|
      invariant r == Reject(edges[..i], edgeId)
    {
      assert edges[..i + 1][..i] == edges[..i];
      if edges[i].edgeId != edgeId {
        r := r + [edges[i]];
      }
    }
    assert edges[..|edges|] == edges;
  }
}
