/**
 Tracked flights: FlightRepository.java. Airplanes are linked to an origin and a
 destination airport; vertices read from the graph are snapshots, which a cache keeps
 until the repository knows that their edges have changed.
 */
module FlightRepository {
  import opened Sequences
  import opened Wrappers

  // ---------------------------------------------------------------- state

  /** An airplane vertex as it was when it was read: the airports at the other ends of its edges. */
  datatype Airplane = Airplane(id: string, origins: seq<string>, destinations: seq<string>)

  /** The graph, with the airports of each airplane's edges, and the caches. */
  datatype State = State(
    vertices: set<string>,
    origins: map<string, seq<string>>,
    destinations: map<string, seq<string>>,
    identToVertex: map<string, Airplane>,
    airportCodeToVertex: map<string, string>)

  datatype Flight = Flight(ident: string, origin: string, destination: string)

  function AirplaneId(ident: string): string { "FlightTrack_Airplane_" + ident }

  function AirportId(code: string): string { "FlightTrack_Airport_" + code }

  lemma AirplaneIdInjective(a: string, b: string)
    ensures AirplaneId(a) == AirplaneId(b) <==> a == b
  {
    var n := |"FlightTrack_Airplane_"|;
    assert AirplaneId(a)[n..] == a && AirplaneId(b)[n..] == b;
  }

  lemma AirportIdInjective(a: string, b: string)
    ensures AirportId(a) == AirportId(b) <==> a == b
  {
    var n := |"FlightTrack_Airport_"|;
    assert AirportId(a)[n..] == a && AirportId(b)[n..] == b;
  }

  /** The ends of an airplane's edges of one kind. */
  function Ends(edges: map<string, seq<string>>, id: string): seq<string> {
    if id in edges then edges[id] else []
  }

  // ---------------------------------------------------------------- one kind of edge

  function Without(ends: seq<string>, deleted: seq<string>): seq<string> {
    if ends == [] then []
    else
      var rest, last := Without(ends[..|ends| - 1], deleted), ends[|ends| - 1];
      if last in deleted then rest else rest + [last]
  }

  /** Adding an edge whose id is in use leaves one edge. */
  function AddEnd(ends: seq<string>, airport: string): seq<string> {
    if airport in ends then ends else ends + [airport]
  }

  /** Does the snapshot call for a change of the edge? */
  predicate Differs(snapshot: seq<string>, airport: string) {
    snapshot == [] || snapshot[0] != airport
  }

  /** The ends after an update that goes by a snapshot: its edges are deleted and the new one added, if they differ. */
  function UpdatedEnds(ends: seq<string>, snapshot: seq<string>, airport: string): seq<string> {
    if Differs(snapshot, airport) then AddEnd(Without(ends, snapshot), airport) else ends
  }

  lemma {:induction false} WithoutAll(ends: seq<string>, deleted: seq<string>)
    ensures forall e :: e in Without(ends, deleted) <==> e in ends && e !in deleted
    ensures (forall e :: e in ends ==> e in deleted) ==> Without(ends, deleted) == []
  {
    if ends == [] {
    } else {
      WithoutAll(ends[..|ends| - 1], deleted);
      assert ends == ends[..|ends| - 1] + [ends[|ends| - 1]];
    }
  }

  // ---------------------------------------------------------------- saving as functions

  function SaveAirplane(s: State, ident: string): (State, Airplane) {
    var id := AirplaneId(ident);
    if ident in s.identToVertex then (s, s.identToVertex[ident])
    else if id in s.vertices then
      var v := Airplane(id, Ends(s.origins, id), Ends(s.destinations, id));
      (s.(identToVertex := s.identToVertex[ident := v]), v)
    else
      var v := Airplane(id, [], []);
      (s.(vertices := s.vertices + {id}, identToVertex := s.identToVertex[ident := v]), v)
  }

  function SaveAirport(s: State, code: string): (State, string) {
    var id := AirportId(code);
    if code in s.airportCodeToVertex then (s, s.airportCodeToVertex[code])
    else (s.(vertices := s.vertices + {id}, airportCodeToVertex := s.airportCodeToVertex[code := id]), id)
  }

  function UpdateOrigin(s: State, v: Airplane, airport: string): (State, bool) {
    if Differs(v.origins, airport)
    then (s.(origins := s.origins[v.id := UpdatedEnds(Ends(s.origins, v.id), v.origins, airport)]), true)
    else (s, false)
  }

  function UpdateDestination(s: State, v: Airplane, airport: string): (State, bool) {
    if Differs(v.destinations, airport)
    then (s.(destinations := s.destinations[v.id := UpdatedEnds(Ends(s.destinations, v.id), v.destinations, airport)]), true)
    else (s, false)
  }

  /** The destination is looked at only when the origin has not changed. */
  function UpdateRoute(s: State, v: Airplane, origin: string, destination: string): (State, bool) {
    var (s', changed) := UpdateOrigin(s, v, origin);
    if changed then (s', true) else UpdateDestination(s', v, destination)
  }

  function SaveFlight(s: State, f: Flight): State {
    var (s1, v) := SaveAirplane(s, f.ident);
    var (s2, origin) := SaveAirport(s1, f.origin);
    var (s3, destination) := SaveAirport(s2, f.destination);
    var (s4, changed) := UpdateRoute(s3, v, origin, destination);
    if changed then s4.(identToVertex := s4.identToVertex - {f.ident}) else s4
  }

  function SaveAll(s: State, flights: seq<Flight>): State {
    if flights == [] then s else SaveFlight(SaveAll(s, flights[..|flights| - 1]), flights[|flights| - 1])
  }

  // ---------------------------------------------------------------- the invariant

  ghost predicate CacheFresh(s: State) {
    forall i :: i in s.identToVertex ==>
      var id := AirplaneId(i);
      s.identToVertex[i] == Airplane(id, Ends(s.origins, id), Ends(s.destinations, id)) && id in s.vertices
  }

  ghost predicate AtMostOne(s: State) {
    forall id :: |Ends(s.origins, id)| <= 1 && |Ends(s.destinations, id)| <= 1
  }

  ghost predicate EdgesOfVertices(s: State) {
    forall id :: id !in s.vertices ==> Ends(s.origins, id) == [] && Ends(s.destinations, id) == []
  }

  ghost predicate AirportsKnown(s: State) {
    forall c :: c in s.airportCodeToVertex ==>
      s.airportCodeToVertex[c] == AirportId(c) && AirportId(c) in s.vertices
  }

  /** Cached airplanes agree with the graph, and no airplane has two origins or two destinations. */
  ghost predicate Sound(s: State) {
    CacheFresh(s) && AtMostOne(s) && EdgesOfVertices(s) && AirportsKnown(s)
  }

  lemma SaveAirplaneSound(s: State, ident: string)
    requires Sound(s)
    ensures var (s', v) := SaveAirplane(s, ident);
            && Sound(s') && s'.origins == s.origins && s'.destinations == s.destinations
            && v.id == AirplaneId(ident) && Snapshot(s', v)
  {
  }

  lemma SaveAirplaneCaches(s: State, ident: string)
    ensures var s' := SaveAirplane(s, ident).0;
            s'.identToVertex.Keys == s.identToVertex.Keys + {ident} && s'.airportCodeToVertex == s.airportCodeToVertex
  {
  }

  lemma SaveAirportCaches(s: State, code: string)
    ensures var s' := SaveAirport(s, code).0;
            && s'.identToVertex == s.identToVertex
            && s'.airportCodeToVertex.Keys == s.airportCodeToVertex.Keys + {code}
  {
  }

  lemma SaveAirportSound(s: State, code: string)
    requires Sound(s)
    ensures var (s', id) := SaveAirport(s, code);
            && Sound(s') && id == AirportId(code) && s.vertices <= s'.vertices
            && s'.origins == s.origins && s'.destinations == s.destinations
  {
  }

  /** Once an up-to-date snapshot with at most one edge differs, the edge is replaced. */
  lemma UpdatedEndsExact(ends: seq<string>, airport: string)
    requires |ends| <= 1
    ensures UpdatedEnds(ends, ends, airport) == [airport]
  {
    WithoutAll(ends, ends);
  }

  /** The ends of every airplane but one, under a change of that one. */
  lemma EndsAfter(edges: map<string, seq<string>>, id: string, ends: seq<string>, other: string)
    ensures Ends(edges[id := ends], other) == if other == id then ends else Ends(edges, other)
  {
  }

  ghost predicate Snapshot(s: State, v: Airplane) {
    v == Airplane(v.id, Ends(s.origins, v.id), Ends(s.destinations, v.id)) && v.id in s.vertices
  }

  lemma UpdateOriginExact(s: State, v: Airplane, origin: string)
    requires Sound(s) && Snapshot(s, v)
    ensures var (s', changed) := UpdateOrigin(s, v, origin);
            && s' == s.(origins := s'.origins)
            && (changed <==> v.origins != [origin]) && (!changed ==> s' == s)
            && forall id :: Ends(s'.origins, id) == if id == v.id then [origin] else Ends(s.origins, id)
  {
    assert |Ends(s.origins, v.id)| <= 1;
    UpdatedEndsExact(v.origins, origin);
    var s' := UpdateOrigin(s, v, origin).0;
    forall id ensures Ends(s'.origins, id) == if id == v.id then [origin] else Ends(s.origins, id) {
      EndsAfter(s.origins, v.id, [origin], id);
    }
  }

  lemma UpdateDestinationExact(s: State, v: Airplane, destination: string)
    requires Sound(s) && Snapshot(s, v)
    ensures var (s', changed) := UpdateDestination(s, v, destination);
            && s' == s.(destinations := s'.destinations)
            && (changed <==> v.destinations != [destination]) && (!changed ==> s' == s)
            && forall id :: Ends(s'.destinations, id) == if id == v.id then [destination] else Ends(s.destinations, id)
  {
    assert |Ends(s.destinations, v.id)| <= 1;
    UpdatedEndsExact(v.destinations, destination);
    var s' := UpdateDestination(s, v, destination).0;
    forall id ensures Ends(s'.destinations, id) == if id == v.id then [destination] else Ends(s.destinations, id) {
      EndsAfter(s.destinations, v.id, [destination], id);
    }
  }

  lemma UpdateRouteExact(s: State, v: Airplane, origin: string, destination: string)
    requires Sound(s) && Snapshot(s, v)
    ensures var (s', changed) := UpdateRoute(s, v, origin, destination);
            && s' == s.(origins := s'.origins, destinations := s'.destinations)
            && (changed <==> v.origins != [origin] || v.destinations != [destination])
            && (!changed ==> s' == s)
            && (forall id :: Ends(s'.origins, id) == if id == v.id then [origin] else Ends(s.origins, id))
            && (forall id :: Ends(s'.destinations, id) ==
                  if id == v.id && v.origins == [origin] then [destination] else Ends(s.destinations, id))
  {
    UpdateOriginExact(s, v, origin);
    UpdateDestinationExact(s, v, destination);
  }

  /** Evicting the one airplane whose edges have changed leaves the cache fresh. */
  lemma EvictionKeepsSound(s: State, s': State, ident: string)
    requires Sound(s) && AirplaneId(ident) in s.vertices
    requires s' == s.(origins := s'.origins, destinations := s'.destinations)
    requires forall id :: id != AirplaneId(ident) ==>
               Ends(s'.origins, id) == Ends(s.origins, id) && Ends(s'.destinations, id) == Ends(s.destinations, id)
    requires |Ends(s'.origins, AirplaneId(ident))| <= 1 && |Ends(s'.destinations, AirplaneId(ident))| <= 1
    ensures Sound(s'.(identToVertex := s'.identToVertex - {ident}))
  {
    var r := s'.(identToVertex := s'.identToVertex - {ident});
    forall i | i in r.identToVertex
      ensures var id := AirplaneId(i);
              r.identToVertex[i] == Airplane(id, Ends(r.origins, id), Ends(r.destinations, id)) && id in r.vertices
    {
      AirplaneIdInjective(i, ident);
      assert i in s.identToVertex;
    }
  }

  /** What one save of a flight makes of the edges. */
  ghost predicate Saved(s: State, f: Flight, s': State) {
    var plane := "FlightTrack_Airplane_" + f.ident;
    var origin, destination := "FlightTrack_Airport_" + f.origin, "FlightTrack_Airport_" + f.destination;
    && (forall id :: Ends(s'.origins, id) == if id == plane then [origin] else Ends(s.origins, id))
    && (forall id :: Ends(s'.destinations, id) ==
          if id == plane && Ends(s.origins, plane) == [origin] then [destination] else Ends(s.destinations, id))
  }

  /**
   One save of a flight, from any sound state: the state stays sound, the origin becomes
   the recorded one, and the destination does unless the origin had to be changed.
   Nothing changes for any other airplane.
   */
  lemma SaveFlightExact(s: State, f: Flight)
    requires Sound(s)
    ensures Sound(SaveFlight(s, f)) && Saved(s, f, SaveFlight(s, f))
  {
    SaveAirplaneSound(s, f.ident);
    var (s1, v) := SaveAirplane(s, f.ident);
    SaveAirportSound(s1, f.origin);
    var (s2, origin) := SaveAirport(s1, f.origin);
    SaveAirportSound(s2, f.destination);
    var (s3, destination) := SaveAirport(s2, f.destination);
    UpdateRouteExact(s3, v, origin, destination);
    var (s4, changed) := UpdateRoute(s3, v, origin, destination);
    if changed {
      EvictionKeepsSound(s3, s4, f.ident);
    }
  }

  /** What looking up the airplane and its airports leaves in the caches, and whether the route is then changed. */
  lemma LookUp(s: State, f: Flight)
    requires Sound(s)
    ensures var (s1, v) := SaveAirplane(s, f.ident);
            var (s2, origin) := SaveAirport(s1, f.origin);
            var (s3, destination) := SaveAirport(s2, f.destination);
            && s3.identToVertex.Keys == s.identToVertex.Keys + {f.ident}
            && s3.airportCodeToVertex.Keys == s.airportCodeToVertex.Keys + {f.origin, f.destination}
            && (UpdateRoute(s3, v, origin, destination).1 <==> !HasRoute(s, f))
            && UpdateRoute(s3, v, origin, destination).0.identToVertex == s3.identToVertex
            && UpdateRoute(s3, v, origin, destination).0.airportCodeToVertex == s3.airportCodeToVertex
  {
    SaveAirplaneSound(s, f.ident);
    SaveAirplaneCaches(s, f.ident);
    var (s1, v) := SaveAirplane(s, f.ident);
    SaveAirportSound(s1, f.origin);
    SaveAirportCaches(s1, f.origin);
    var (s2, origin) := SaveAirport(s1, f.origin);
    SaveAirportSound(s2, f.destination);
    SaveAirportCaches(s2, f.destination);
    var (s3, destination) := SaveAirport(s2, f.destination);
    UpdateRouteExact(s3, v, origin, destination);
  }

  /** After a save the airports are cached, and the airplane exactly when its route was right before; no other airplane is. */
  lemma CachedExactly(s: State, f: Flight)
    requires Sound(s)
    ensures var s' := SaveFlight(s, f);
            && (f.ident in s'.identToVertex <==> HasRoute(s, f))
            && (forall i :: i != f.ident ==> (i in s'.identToVertex <==> i in s.identToVertex))
            && s'.airportCodeToVertex.Keys == s.airportCodeToVertex.Keys + {f.origin, f.destination}
  {
    LookUp(s, f);
  }

  /** A single save gets the destination right exactly when the origin or the destination was right before. */
  lemma OneSaveExactly(s: State, f: Flight)
    requires Sound(s)
    ensures Ends(SaveFlight(s, f).destinations, AirplaneId(f.ident)) == [AirportId(f.destination)]
       <==> || Ends(s.origins, AirplaneId(f.ident)) == [AirportId(f.origin)]
            || Ends(s.destinations, AirplaneId(f.ident)) == [AirportId(f.destination)]
  {
    SaveFlightExact(s, f);
  }

  /** The same edges in both states. */
  ghost predicate SameEdges(s: State, t: State) {
    forall id :: Ends(s.origins, id) == Ends(t.origins, id) && Ends(s.destinations, id) == Ends(t.destinations, id)
  }

  ghost predicate HasRoute(s: State, f: Flight) {
    && Ends(s.origins, "FlightTrack_Airplane_" + f.ident) == ["FlightTrack_Airport_" + f.origin]
    && Ends(s.destinations, "FlightTrack_Airplane_" + f.ident) == ["FlightTrack_Airport_" + f.destination]
  }

  /** An airplane has one route at a time, and the route tells the codes of its airports. */
  lemma RouteIsOne(s: State, f: Flight, g: Flight)
    requires HasRoute(s, f) && HasRoute(s, g) && f.ident == g.ident
    ensures f == g
  {
    AirportIdInjective(f.origin, g.origin);
    AirportIdInjective(f.destination, g.destination);
  }

  lemma SavedTwice(s: State, f: Flight, s1: State, s2: State, s3: State)
    requires Saved(s, f, s1) && Saved(s1, f, s2) && Saved(s2, f, s3)
    ensures HasRoute(s2, f) && SameEdges(s3, s2)
  {
  }

  /** Saving the same flight twice yields exactly its origin and destination, from any sound state, and a third save adds nothing. */
  lemma TwoSavesConverge(s: State, f: Flight)
    requires Sound(s)
    ensures var s2 := SaveFlight(SaveFlight(s, f), f);
            HasRoute(s2, f) && SameEdges(SaveFlight(s2, f), s2)
  {
    SaveFlightExact(s, f);
    var s1 := SaveFlight(s, f);
    SaveFlightExact(s1, f);
    var s2 := SaveFlight(s1, f);
    SaveFlightExact(s2, f);
    SavedTwice(s, f, s1, s2, SaveFlight(s2, f));
  }

  /** A repository over an empty graph, and every state it can reach, is sound. */
  lemma {:induction false} ReachableSound(flights: seq<Flight>)
    ensures Sound(SaveAll(State({}, map[], map[], map[], map[]), flights))
  {
    if flights == [] {
    } else {
      ReachableSound(flights[..|flights| - 1]);
      SaveFlightExact(SaveAll(State({}, map[], map[], map[], map[]), flights[..|flights| - 1]), flights[|flights| - 1]);
    }
  }

  lemma SaveAllSnoc(s: State, flights: seq<Flight>, f: Flight)
    ensures SaveAll(s, flights + [f]) == SaveFlight(SaveAll(s, flights), f)
  {
    DropLast(flights, f);
  }

  /** After any history, a flight recorded twice in a row has its route in the graph. */
  lemma RouteAfterRepeatedSave(flights: seq<Flight>, f: Flight)
    ensures HasRoute(SaveAll(State({}, map[], map[], map[], map[]), flights + [f] + [f]), f)
  {
    var empty := State({}, map[], map[], map[], map[]);
    SaveAllSnoc(empty, flights, f);
    SaveAllSnoc(empty, flights + [f], f);
    ReachableSound(flights);
    TwoSavesConverge(SaveAll(empty, flights), f);
  }

  // ---------------------------------------------------------------- the repository

  class FlightRepository {
    var vertices: set<string>
    var origins: map<string, seq<string>>
    var destinations: map<string, seq<string>>
    var identToVertex: map<string, Airplane>
    var airportCodeToVertex: map<string, string>

    function Contents(): State
      reads this
    {
      State(vertices, origins, destinations, identToVertex, airportCodeToVertex)
    }

    constructor ()
      ensures Contents() == State({}, map[], map[], map[], map[])
    {
      vertices, origins, destinations, identToVertex, airportCodeToVertex := {}, map[], map[], map[], map[];
    }

    method FetchAirplane(ident: string) returns (v: Airplane)
      modifies this`identToVertex, this`vertices
      ensures (Contents(), v) == SaveAirplane(old(Contents()), ident)
    {
      if ident in identToVertex {
        return identToVertex[ident];
      }
      var id := AirplaneId(ident);
      if id in vertices {
        v := Airplane(id, Ends(origins, id), Ends(destinations, id));
        identToVertex := identToVertex[ident := v];
        return;
      }
      vertices := vertices + {id};
      v := Airplane(id, [], []);
      identToVertex := identToVertex[ident := v];
    }

    method FetchAirport(code: string) returns (id: string)
      modifies this`airportCodeToVertex, this`vertices
      ensures (Contents(), id) == SaveAirport(old(Contents()), code)
    {
      if code in airportCodeToVertex {
        return airportCodeToVertex[code];
      }
      id := AirportId(code);
      if id in vertices {
        assert vertices + {id} == vertices;
      } else {
        vertices := vertices + {id};
      }
      airportCodeToVertex := airportCodeToVertex[code := id];
    }

    method ReplaceOrigin(v: Airplane, airport: string) returns (changed: bool)
      modifies this`origins
      ensures (Contents(), changed) == UpdateOrigin(old(Contents()), v, airport)
    {
      changed := |v.origins| == 0 || v.origins[0] != airport;
      if changed {
        var ends := DeleteEnds(Ends(origins, v.id), v.origins);
        origins := origins[v.id := AddEnd(ends, airport)];
      }
    }

    method ReplaceDestination(v: Airplane, airport: string) returns (changed: bool)
      modifies this`destinations
      ensures (Contents(), changed) == UpdateDestination(old(Contents()), v, airport)
    {
      changed := |v.destinations| == 0 || v.destinations[0] != airport;
      if changed {
        var ends := DeleteEnds(Ends(destinations, v.id), v.destinations);
        destinations := destinations[v.id := AddEnd(ends, airport)];
      }
    }

    method SaveFlightData(f: Flight)
      modifies this
      ensures Contents() == SaveFlight(old(Contents()), f)
    {
      var airplane := FetchAirplane(f.ident);
      var origin := FetchAirport(f.origin);
      var destination := FetchAirport(f.destination);
      var changed := ReplaceOrigin(airplane, origin);
      if !changed {
        changed := ReplaceDestination(airplane, destination);
      }
      if changed {
        identToVertex := identToVertex - {f.ident};
      }
    }
  }

  /** Deletes edges one after the other. */
  method DeleteEnds(ends: seq<string>, deleted: seq<string>) returns (r: seq<string>)
    ensures r == Without(ends, deleted)
  {
    r := [];
    for i := 0 to |ends|
      invariant r == Without(ends[..i], deleted)
    {
      assert ends[..i + 1][..i] == ends[..i];
      if ends[i] !in deleted {
        r := r + [ends[i]];
      }
    }
    assert ends[..|ends|] == ends;
  }

  // ---------------------------------------------------------------- the airline of an airplane

  /** The longest prefix of at least two characters that is a key. */
  ghost predicate LongestKey(keys: set<string>, ident: string, n: nat) {
    && 2 <= n <= |ident| && ident[..n] in keys
    && forall m :: n < m <= |ident| ==> ident[..m] !in keys
  }

  /** findAirlineFromIdent, on an identifier in lower case: drops characters from the end until a prefix is known. */
  method FindAirline<T>(airlines: map<string, T>, ident: string) returns (r: Option<T>)
    ensures match r
            case Some(airline) => exists n: nat :: LongestKey(airlines.Keys, ident, n) && airlines[ident[..n]] == airline
            case None => forall m :: 2 <= m <= |ident| ==> ident[..m] !in airlines
  {
    var prefix := ident;
    while |prefix| > 1
      invariant prefix <= ident && prefix == ident[..|prefix|]
      invariant forall m :: |prefix| < m <= |ident| && 2 <= m ==> ident[..m] !in airlines
    {
      if prefix in airlines {
        assert LongestKey(airlines.Keys, ident, |prefix|);
        return Some(airlines[prefix]);
      }
      prefix := prefix[..|prefix| - 1];
    }
    r := None;
  }
}
