/**
 Clustering the features of the map: map/clusterStrategy.js. Features join the latest
 cluster whose seed is near them, or seed a new one; small clusters are taken apart again.
 */
module ClusterStrategy {
  import opened Sequences
  import opened Wrappers

  /** located tells whether the feature has a geometry. */
  datatype Feature = Feature(id: string, located: bool)

  /** A cluster keeps the place of its seed; the features that joined it follow. */
  datatype Cluster = Cluster(seed: Feature, joined: seq<Feature>)
  {
    function Members(): seq<Feature> { [seed] + joined }

    function Count(): nat { |joined| + 1 }

    function Add(f: Feature): Cluster { Cluster(seed, joined + [f]) }
  }

  /** What is put on the layer. */
  datatype Element = Clustered(cluster: Cluster) | Alone(feature: Feature)

  /** Is a feature near enough to the seed of a cluster? */
  type Near = (Feature, Feature) -> bool

  // ---------------------------------------------------------------- clustering as functions

  /** The latest of the first n clusters whose seed is near the feature. */
  function FindCluster(near: Near, clusters: seq<Cluster>, f: Feature, n: nat): (r: Option<nat>)
    requires n <= |clusters|
    ensures r.Some? ==> r.value < n && near(clusters[r.value].seed, f)
    ensures forall j :: (if r.Some? then r.value + 1 else 0) <= j < n ==> !near(clusters[j].seed, f)
  {
    if n == 0 then None
    else if near(clusters[n - 1].seed, f) then Some(n - 1)
    else FindCluster(near, clusters, f, n - 1)
  }

  function Place(near: Near, clusters: seq<Cluster>, f: Feature): seq<Cluster> {
    match FindCluster(near, clusters, f, |clusters|)
    case Some(j) => clusters[j := clusters[j].Add(f)]
    case None => clusters + [Cluster(f, [])]
  }

  /** The clusters before the threshold is applied. */
  function Clusters(near: Near, features: seq<Feature>): seq<Cluster> {
    if features == [] then []
    else
      var clusters, f := Clusters(near, features[..|features| - 1]), features[|features| - 1];
      if f.located then Place(near, clusters, f) else clusters
  }

  function Singles(features: seq<Feature>): (r: seq<Element>)
    ensures |r| == |features|
  {
    seq(|features|, i requires 0 <= i < |features| => Alone(features[i]))
  }

  /** A cluster below a threshold greater than one is replaced by its members. */
  function ElementsOf(c: Cluster, threshold: int): seq<Element> {
    if threshold > 1 && c.Count() < threshold then Singles(c.Members()) else [Clustered(c)]
  }

  function Elements(clusters: seq<Cluster>, threshold: int): seq<Element> {
    if clusters == [] then []
    else Elements(clusters[..|clusters| - 1], threshold) + ElementsOf(clusters[|clusters| - 1], threshold)
  }

  // ---------------------------------------------------------------- what clustering promises

  /** Every member is near its seed. */
  ghost predicate NearSeed(near: Near, c: Cluster) {
    forall f :: f in c.joined ==> near(c.seed, f)
  }

  /** Members are near their seeds, and no seed is near an earlier one. */
  ghost predicate WellClustered(near: Near, clusters: seq<Cluster>) {
    && (forall i :: 0 <= i < |clusters| ==> NearSeed(near, clusters[i]))
    && (forall i, j :: 0 <= i < j < |clusters| ==> !near(clusters[i].seed, clusters[j].seed))
  }

  function Located(features: seq<Feature>): seq<Feature> {
    if features == [] then []
    else
      var rest, f := Located(features[..|features| - 1]), features[|features| - 1];
      if f.located then rest + [f] else rest
  }

  function AllMembers(clusters: seq<Cluster>): multiset<Feature> {
    if clusters == [] then multiset{}
    else AllMembers(clusters[..|clusters| - 1]) + multiset(clusters[|clusters| - 1].Members())
  }

  function Shown(elements: seq<Element>): multiset<Feature> {
    if elements == [] then multiset{}
    else
      Shown(elements[..|elements| - 1])
      + match elements[|elements| - 1]
        case Clustered(c) => multiset(c.Members())
        case Alone(f) => multiset{f}
  }

  lemma AllMembersSnoc(clusters: seq<Cluster>, c: Cluster)
    ensures AllMembers(clusters + [c]) == AllMembers(clusters) + multiset(c.Members())
  {
    DropLast(clusters, c);
  }

  lemma AddMember(c: Cluster, f: Feature)
    ensures multiset(c.Add(f).Members()) == multiset(c.Members()) + multiset{f}
  {
    assert c.Add(f).Members() == c.Members() + [f];
  }

  lemma LastJoins(front: seq<Cluster>, last: Cluster, f: Feature)
    ensures AllMembers(front + [last.Add(f)]) == AllMembers(front + [last]) + multiset{f}
  {
    AllMembersSnoc(front, last.Add(f));
    AllMembersSnoc(front, last);
    AddMember(last, f);
  }

  /** A feature that joins a cluster joins the whole once. */
  lemma {:induction false} MembersJoin(clusters: seq<Cluster>, j: nat, f: Feature)
    requires j < |clusters|
    ensures AllMembers(clusters[j := clusters[j].Add(f)]) == AllMembers(clusters) + multiset{f}
  {
    var n := |clusters| - 1;
    var front, last := clusters[..n], clusters[n];
    assert clusters == front + [last];
    if j == n {
      assert clusters[j := last.Add(f)] == front + [last.Add(f)];
      LastJoins(front, last, f);
    } else {
      var front' := front[j := front[j].Add(f)];
      assert clusters[j := clusters[j].Add(f)] == front' + [last];
      AllMembersSnoc(front', last);
      AllMembersSnoc(front, last);
      MembersJoin(front, j, f);
    }
  }

  lemma JoinWellClustered(near: Near, clusters: seq<Cluster>, j: nat, f: Feature)
    requires WellClustered(near, clusters) && j < |clusters| && near(clusters[j].seed, f)
    ensures WellClustered(near, clusters[j := clusters[j].Add(f)])
  {
    var r := clusters[j := clusters[j].Add(f)];
    assert forall i :: 0 <= i < |r| ==> r[i].seed == clusters[i].seed;
    forall i | 0 <= i < |r| ensures NearSeed(near, r[i]) {
      assert NearSeed(near, clusters[i]);
    }
  }

  lemma SeedWellClustered(near: Near, clusters: seq<Cluster>, f: Feature)
    requires WellClustered(near, clusters) && forall j :: 0 <= j < |clusters| ==> !near(clusters[j].seed, f)
    ensures WellClustered(near, clusters + [Cluster(f, [])])
  {
    var r := clusters + [Cluster(f, [])];
    forall i | 0 <= i < |r| ensures NearSeed(near, r[i]) {
      assert i < |clusters| ==> NearSeed(near, clusters[i]);
    }
  }

  lemma PlaceWellClustered(near: Near, clusters: seq<Cluster>, f: Feature)
    requires WellClustered(near, clusters)
    ensures WellClustered(near, Place(near, clusters, f))
    ensures AllMembers(Place(near, clusters, f)) == AllMembers(clusters) + multiset{f}
  {
    match FindCluster(near, clusters, f, |clusters|)
    case Some(j) =>
      MembersJoin(clusters, j, f);
      JoinWellClustered(near, clusters, j, f);
    case None =>
      AllMembersSnoc(clusters, Cluster(f, []));
      SeedWellClustered(near, clusters, f);
  }

  /**
   Before the threshold: each located feature is in exactly one cluster, near its seed,
   and no two seeds could have been put together.
   */
  lemma {:induction false} ClustersPartition(near: Near, features: seq<Feature>)
    ensures WellClustered(near, Clusters(near, features))
    ensures AllMembers(Clusters(near, features)) == multiset(Located(features))
  {
    if features == [] {
    } else {
      var front, f := features[..|features| - 1], features[|features| - 1];
      ClustersPartition(near, front);
      if f.located {
        PlaceWellClustered(near, Clusters(near, front), f);
      }
    }
  }

  // ---------------------------------------------------------------- which cluster a feature is in

  /** The latest of the seeds that is near the feature. */
  function LatestNear(near: Near, seeds: seq<Feature>, f: Feature): (r: Option<nat>)
    ensures r.Some? ==> r.value < |seeds| && near(seeds[r.value], f)
    ensures forall j :: (if r.Some? then r.value + 1 else 0) <= j < |seeds| ==> !near(seeds[j], f)
  {
    if seeds == [] then None
    else if near(seeds[|seeds| - 1], f) then Some(|seeds| - 1)
    else LatestNear(near, seeds[..|seeds| - 1], f)
  }

  /** A sieve: the located features that no seed before them is near. */
  function SeedsOf(near: Near, features: seq<Feature>): seq<Feature> {
    if features == [] then []
    else
      var seeds, f := SeedsOf(near, features[..|features| - 1]), features[|features| - 1];
      if f.located && LatestNear(near, seeds, f).None? then seeds + [f] else seeds
  }

  /** The features, in order, whose latest near seed before them is the i-th, and that seed. */
  function MembersOf(near: Near, features: seq<Feature>, i: nat): seq<Feature> {
    if features == [] then []
    else
      var front, f := features[..|features| - 1], features[|features| - 1];
      var seeds := SeedsOf(near, front);
      var owner := LatestNear(near, seeds, f);
      MembersOf(near, front, i)
      + if f.located && i == (if owner.Some? then owner.value else |seeds|) then [f] else []
  }

  /** One place of the sieve. */
  ghost predicate SievedAt(near: Near, clusters: seq<Cluster>, features: seq<Feature>, i: nat) {
    if i < |clusters| then
      && i < |SeedsOf(near, features)| && clusters[i].seed == SeedsOf(near, features)[i]
      && clusters[i].Members() == MembersOf(near, features, i)
    else MembersOf(near, features, i) == []
  }

  ghost predicate AreSieved(near: Near, clusters: seq<Cluster>, features: seq<Feature>) {
    |clusters| == |SeedsOf(near, features)| && forall i: nat :: SievedAt(near, clusters, features, i)
  }

  /** The cluster found from the latest to the first is that of the latest near seed. */
  lemma FindsLatestNear(near: Near, clusters: seq<Cluster>, seeds: seq<Feature>, f: Feature)
    requires |clusters| == |seeds| && forall i :: 0 <= i < |seeds| ==> clusters[i].seed == seeds[i]
    ensures FindCluster(near, clusters, f, |clusters|) == LatestNear(near, seeds, f)
  {
  }

  lemma MembersNext(near: Near, front: seq<Feature>, f: Feature, i: nat)
    requires f.located
    ensures var seeds, owner := SeedsOf(near, front), LatestNear(near, SeedsOf(near, front), f);
            && SeedsOf(near, front + [f]) == seeds + (if owner.None? then [f] else [])
            && MembersOf(near, front + [f], i)
            == if i == (if owner.Some? then owner.value else |seeds|) then MembersOf(near, front, i) + [f]
               else MembersOf(near, front, i)
  {
    DropLast(front, f);
  }

  lemma SievedJoin(near: Near, clusters: seq<Cluster>, front: seq<Feature>, f: Feature, i: nat)
    requires f.located && LatestNear(near, SeedsOf(near, front), f).Some?
    requires |clusters| == |SeedsOf(near, front)| && SievedAt(near, clusters, front, i)
    ensures var j := LatestNear(near, SeedsOf(near, front), f).value;
            SievedAt(near, clusters[j := clusters[j].Add(f)], front + [f], i)
  {
    var j := LatestNear(near, SeedsOf(near, front), f).value;
    MembersNext(near, front, f, i);
    assert clusters[j].Add(f).Members() == clusters[j].Members() + [f];
  }

  lemma SievedSeed(near: Near, clusters: seq<Cluster>, front: seq<Feature>, f: Feature, i: nat)
    requires f.located && LatestNear(near, SeedsOf(near, front), f).None?
    requires |clusters| == |SeedsOf(near, front)| && SievedAt(near, clusters, front, i)
    ensures SievedAt(near, clusters + [Cluster(f, [])], front + [f], i)
  {
    MembersNext(near, front, f, i);
    if i == |clusters| {
      assert MembersOf(near, front, i) == [] && [] + [f] == [f];
      assert Cluster(f, []).Members() == [f];
    } else if i < |clusters| {
      assert (clusters + [Cluster(f, [])])[i] == clusters[i];
    }
  }

  lemma SievedPlace(near: Near, clusters: seq<Cluster>, front: seq<Feature>, f: Feature)
    requires AreSieved(near, clusters, front) && f.located
    ensures AreSieved(near, Place(near, clusters, f), front + [f])
  {
    var r := Place(near, clusters, f);
    forall i | 0 <= i < |clusters| ensures clusters[i].seed == SeedsOf(near, front)[i] {
      assert SievedAt(near, clusters, front, i);
    }
    FindsLatestNear(near, clusters, SeedsOf(near, front), f);
    MembersNext(near, front, f, 0);
    forall i: nat ensures SievedAt(near, r, front + [f], i) {
      assert SievedAt(near, clusters, front, i);
      match LatestNear(near, SeedsOf(near, front), f)
      case Some(j) => SievedJoin(near, clusters, front, f, i);
      case None => SievedSeed(near, clusters, front, f, i);
    }
  }

  /**
   Clustering in place gives what the sieve gives: the seeds are the sieved features, and
   the members of each cluster are, in order, its seed and the features whose latest near
   seed it is.
   */
  lemma {:induction false} ClustersAreSieved(near: Near, features: seq<Feature>)
    ensures AreSieved(near, Clusters(near, features), features)
  {
    if features == [] {
    } else {
      var front, f := features[..|features| - 1], features[|features| - 1];
      var clusters := Clusters(near, front);
      ClustersAreSieved(near, front);
      assert features == front + [f];
      if f.located {
        SievedPlace(near, clusters, front, f);
      } else {
        assert forall i: nat :: SievedAt(near, clusters, front, i) ==> SievedAt(near, clusters, features, i);
      }
    }
  }

  lemma {:induction false} ShownConcat(a: seq<Element>, b: seq<Element>)
    ensures Shown(a + b) == Shown(a) + Shown(b)
  {
    if b == [] {
      assert a + b == a;
    } else {
      var n := |b| - 1;
      assert (a + b)[..|a + b| - 1] == a + b[..n];
      ShownConcat(a, b[..n]);
    }
  }

  lemma {:induction false} ShownSingles(features: seq<Feature>)
    ensures Shown(Singles(features)) == multiset(features)
  {
    if features == [] {
    } else {
      var n := |features| - 1;
      assert Singles(features)[..n] == Singles(features[..n]);
      ShownSingles(features[..n]);
      assert features == features[..n] + [features[n]];
    }
  }

  /** Where an element comes from. */
  ghost predicate ComesFrom(e: Element, c: Cluster, threshold: int) {
    if e.Clustered? then e.cluster == c && (threshold > 1 ==> c.Count() >= threshold)
    else e.feature in c.Members() && c.Count() < threshold
  }

  /** What the threshold makes of one cluster. */
  lemma ElementsOfFacts(c: Cluster, threshold: int)
    ensures Shown(ElementsOf(c, threshold)) == multiset(c.Members())
    ensures forall e :: e in ElementsOf(c, threshold) ==> ComesFrom(e, c, threshold)
  {
    if threshold > 1 && c.Count() < threshold {
      ShownSingles(c.Members());
    } else {
      assert [Clustered(c)][..0] == [];
    }
  }

  /** Applying the threshold keeps every feature. */
  lemma {:induction false} ElementsKeepFeatures(clusters: seq<Cluster>, threshold: int)
    ensures Shown(Elements(clusters, threshold)) == AllMembers(clusters)
  {
    if clusters == [] {
    } else {
      var n := |clusters| - 1;
      ElementsKeepFeatures(clusters[..n], threshold);
      ElementsOfFacts(clusters[n], threshold);
      ShownConcat(Elements(clusters[..n], threshold), ElementsOf(clusters[n], threshold));
    }
  }

  /** Every element comes from one of the clusters. */
  lemma {:induction false} ElementComesFrom(clusters: seq<Cluster>, threshold: int, e: Element) returns (i: nat)
    requires e in Elements(clusters, threshold)
    ensures i < |clusters| && ComesFrom(e, clusters[i], threshold)
  {
    var n := |clusters| - 1;
    if e in ElementsOf(clusters[n], threshold) {
      ElementsOfFacts(clusters[n], threshold);
      i := n;
    } else {
      i := ElementComesFrom(clusters[..n], threshold, e);
    }
  }

  /** A cluster is shown as one exactly when there is no threshold above one or it reaches it; a feature by itself is a member of a cluster that does not. */
  lemma {:induction false} ThresholdExactly(clusters: seq<Cluster>, threshold: int)
    ensures forall c :: Clustered(c) in Elements(clusters, threshold) <==>
              c in clusters && (threshold <= 1 || |c.joined| + 1 >= threshold)
    ensures forall f :: Alone(f) in Elements(clusters, threshold) <==>
              exists c :: c in clusters && threshold > 1 && |c.joined| + 1 < threshold && (f == c.seed || f in c.joined)
  {
    if clusters == [] {
    } else {
      var front, last := clusters[..|clusters| - 1], clusters[|clusters| - 1];
      ThresholdExactly(front, threshold);
      assert clusters == front + [last];
      SinglesMembers(last.Members());
      assert forall e :: e in Elements(clusters, threshold) <==>
               e in Elements(front, threshold) || e in ElementsOf(last, threshold);
    }
  }

  lemma SinglesMembers(features: seq<Feature>)
    ensures forall e :: e in Singles(features) <==> e.Alone? && e.feature in features
  {
    assert forall i :: 0 <= i < |features| ==> Singles(features)[i] == Alone(features[i]);
    forall f | f in features ensures Alone(f) in Singles(features) {
      var i :| 0 <= i < |features| && features[i] == f;
      assert Singles(features)[i] == Alone(f);
    }
  }

  /**
   The whole strategy: every located feature is shown in exactly one element; a cluster
   shown has its members near its seed and reaches the threshold.
   */
  lemma ClusteringPartitions(near: Near, features: seq<Feature>, threshold: int)
    ensures var elements := Elements(Clusters(near, features), threshold);
            && Shown(elements) == multiset(Located(features))
            && forall e :: e in elements && e.Clustered? ==>
                 NearSeed(near, e.cluster) && (threshold > 1 ==> e.cluster.Count() >= threshold)
  {
    var clusters := Clusters(near, features);
    ClustersPartition(near, features);
    ElementsKeepFeatures(clusters, threshold);
    forall e | e in Elements(clusters, threshold) && e.Clustered?
      ensures NearSeed(near, e.cluster) && (threshold > 1 ==> e.cluster.Count() >= threshold)
    {
      var i := ElementComesFrom(clusters, threshold, e);
    }
  }

  // ---------------------------------------------------------------- the strategy object

  function Ids(features: seq<Feature>): set<string> {
    set f | f in features :: f.id
  }

  /** The features whose id is not among some ids. */
  function Excluding(features: seq<Feature>, ids: set<string>): seq<Feature> {
    if features == [] then []
    else
      var rest, f := Excluding(features[..|features| - 1], ids), features[|features| - 1];
      if f.id in ids then rest else rest + [f]
  }

  lemma {:induction false} ExcludingConcat(a: seq<Feature>, b: seq<Feature>, ids: set<string>)
    ensures Excluding(a + b, ids) == Excluding(a, ids) + Excluding(b, ids)
  {
    if b == [] {
      assert a + b == a;
    } else {
      var n := |b| - 1;
      assert (a + b)[..|a + b| - 1] == a + b[..n];
      ExcludingConcat(a, b[..n], ids);
    }
  }

  lemma {:induction false} ExcludingNone(a: seq<Feature>, ids: set<string>)
    requires forall f :: f in a ==> f.id !in ids
    ensures Excluding(a, ids) == a
  {
    if a == [] {
    } else {
      var n := |a| - 1;
      ExcludingNone(a[..n], ids);
      assert a == a[..n] + [a[n]];
    }
  }

  lemma {:induction false} ExcludingAll(a: seq<Feature>, excluded: set<string>, ids: set<string>)
    requires Ids(a) <= ids
    ensures Excluding(Excluding(a, excluded), ids) == []
  {
    if a == [] {
    } else {
      var n := |a| - 1;
      var rest := Excluding(a[..n], excluded);
      assert Ids(a[..n]) <= Ids(a);
      ExcludingAll(a[..n], excluded, ids);
      assert a[n].id in Ids(a);
      ExcludingConcat(rest, [a[n]], ids);
      assert [a[n]][..0] == [];
    }
  }

  /** Removing features that were just added, and were not there before, restores the list. */
  lemma RemoveUndoesAdd(features: seq<Feature>, added: seq<Feature>)
    ensures Excluding(features + Excluding(added, Ids(features)), Ids(added)) == features
       <==> Ids(features) !! Ids(added)
  {
    var ids := Ids(added);
    ExcludingConcat(features, Excluding(added, Ids(features)), ids);
    ExcludingAll(added, Ids(features), ids);
    if Ids(features) !! ids {
      assert forall f :: f in features ==> f.id in Ids(features);
      ExcludingNone(features, ids);
    } else {
      var id :| id in Ids(features) && id in ids;
      var f :| f in features && f.id == id;
      ExcludingMembers(features, ids);
      assert f !in Excluding(features, ids);
    }
  }

  lemma {:induction false} ExcludingMembers(features: seq<Feature>, ids: set<string>)
    ensures forall f :: f in Excluding(features, ids) <==> f in features && f.id !in ids
  {
    if features == [] {
    } else {
      var n := |features| - 1;
      ExcludingMembers(features[..n], ids);
      assert features == features[..n] + [features[n]];
    }
  }

  /** The threshold, and whether a feature is near a seed at a resolution. */
  datatype Config = Config(threshold: int, shouldCluster: int -> Near)
  {
    /** The clustering of some features. */
    function Clustering(resolution: int, features: seq<Feature>): seq<Element> {
      Elements(Clusters(shouldCluster(resolution), features), threshold)
    }
  }

  /** The features known, the clusters made of them, what the layer shows, and what was seen when they were made. */
  datatype View = View(
    features: Option<seq<Feature>>, clusters: seq<Element>, layer: seq<Element>,
    previousCount: Option<nat>, resolution: Option<int>)
  {
    function Known(): seq<Feature> { if features.Some? then features.value else [] }

    /** Does the layer still have all clusters? */
    predicate ClustersExist() { clusters != [] && |clusters| == |layer| }
  }

  const NEW_VIEW := View(None, [], [], None, None)

  /** The map moves or zooms, or asks for clustering; features are added to or taken off the layer; all are. */
  datatype Event =
    | MoveEnd(zoomChanged: bool, resolution: int)
    | Added(added: seq<Feature>, resolution: int)
    | Removed(removed: seq<Feature>)
    | Cleared

  /** Is there anything to cluster, and has the resolution, the layer or the number of features changed? */
  predicate IsOutdated(v: View, resolution: int) {
    v.features.Some? &&
    (v.resolution != Some(resolution) || !v.ClustersExist() || v.previousCount != Some(|v.features.value|))
  }

  function Recluster(c: Config, v: View, resolution: int): View {
    if IsOutdated(v, resolution) then
      var clusters := c.Clustering(resolution, v.Known());
      View(v.features, clusters, clusters, Some(|v.Known()|), Some(resolution))
    else v
  }

  function Add(v: View, added: seq<Feature>): View {
    v.(features := Some(v.Known() + Excluding(added, Ids(v.Known()))))
  }

  /** The layer loses the features that it shows by themselves; members of a cluster are not on it. */
  function TakeOff(layer: seq<Element>, ids: set<string>): seq<Element> {
    if layer == [] then []
    else
      var rest, e := TakeOff(layer[..|layer| - 1], ids), layer[|layer| - 1];
      if e.Alone? && e.feature.id in ids then rest else rest + [e]
  }

  /** What the strategy makes of a removal from the layer. */
  function Remove(v: View, removed: seq<Feature>): View {
    v.(features := Some(Excluding(v.Known(), Ids(removed))))
  }

  function Handle(c: Config, v: View, e: Event): View {
    match e
    case MoveEnd(zoomChanged, resolution) => if zoomChanged then Recluster(c, v, resolution) else v
    case Added(added, resolution) => Recluster(c, Add(v, added), resolution)
    case Removed(removed) => Remove(v.(layer := TakeOff(v.layer, Ids(removed))), removed)
    case Cleared => v.(features := Some([]), clusters := [], layer := [])
  }

  function HandleAll(c: Config, events: seq<Event>): View {
    if events == [] then NEW_VIEW
    else Handle(c, HandleAll(c, events[..|events| - 1]), events[|events| - 1])
  }

  predicate Reclusters(v: View, e: Event) {
    match e
    case MoveEnd(zoomChanged, resolution) => zoomChanged && IsOutdated(v, resolution)
    case Added(added, resolution) => IsOutdated(Add(v, added), resolution)
    case Removed(_) => false
    case Cleared => false
  }

  // ---------------------------------------------------------------- when the layer shows what is known

  /** The layer shows the located features known, each once, and nothing else. */
  ghost predicate Current(v: View) {
    Shown(v.layer) == multiset(Located(v.Known()))
  }

  /** The event takes no member of a cluster away, and brings no new located feature. */
  ghost predicate Harmless(v: View, e: Event) {
    match e
    case MoveEnd(_, _) => true
    case Added(added, _) => forall f :: f in added && f.id !in Ids(v.Known()) ==> !f.located
    case Removed(removed) =>
      forall x, f :: x in v.layer && x.Clustered? && f in x.cluster.Members() ==> f.id !in Ids(removed)
    case Cleared => true
  }

  /** The features shown inside clusters. */
  function MembersShown(layer: seq<Element>): multiset<Feature> {
    if layer == [] then multiset{}
    else
      var rest, e := MembersShown(layer[..|layer| - 1]), layer[|layer| - 1];
      if e.Clustered? then rest + multiset(e.cluster.Members()) else rest
  }

  lemma {:induction false} InClustersExactly(layer: seq<Element>, f: Feature)
    ensures f in MembersShown(layer) <==> exists x :: x in layer && x.Clustered? && f in x.cluster.Members()
  {
    if layer == [] {
    } else {
      var front, last := layer[..|layer| - 1], layer[|layer| - 1];
      InClustersExactly(front, f);
      assert layer == front + [last];
    }
  }

  lemma ShownSnoc(layer: seq<Element>, e: Element)
    ensures Shown(layer + [e]) == Shown(layer) + (if e.Clustered? then multiset(e.cluster.Members()) else multiset{e.feature})
  {
    DropLast(layer, e);
  }

  /** Taking features off the layer takes away those shown by themselves. */
  lemma {:induction false} TakeOffExactly(layer: seq<Element>, ids: set<string>, f: Feature)
    ensures Shown(TakeOff(layer, ids))[f] == if f.id in ids then MembersShown(layer)[f] else Shown(layer)[f]
  {
    if layer == [] {
    } else {
      var front, last := layer[..|layer| - 1], layer[|layer| - 1];
      TakeOffExactly(front, ids, f);
      ShownSnoc(TakeOff(front, ids), last);
    }
  }

  lemma {:induction false} LocatedConcat(a: seq<Feature>, b: seq<Feature>)
    ensures Located(a + b) == Located(a) + Located(b)
  {
    if b == [] {
      assert a + b == a;
    } else {
      var n := |b| - 1;
      assert (a + b)[..|a + b| - 1] == a + b[..n];
      LocatedConcat(a, b[..n]);
    }
  }

  lemma {:induction false} LocatedMembers(features: seq<Feature>)
    ensures forall f :: f in Located(features) <==> f in features && f.located
  {
    if features == [] {
    } else {
      var n := |features| - 1;
      LocatedMembers(features[..n]);
      assert features == features[..n] + [features[n]];
    }
  }

  lemma CountLocated(features: seq<Feature>, last: Feature, f: Feature)
    ensures multiset(Located(features + [last]))[f]
         == multiset(Located(features))[f] + if last.located && last == f then 1 else 0
  {
    DropLast(features, last);
    assert multiset(Located(features) + [last]) == multiset(Located(features)) + multiset{last};
  }

  lemma {:induction false} LocatedExcluding(features: seq<Feature>, ids: set<string>, f: Feature)
    ensures multiset(Located(Excluding(features, ids)))[f]
         == if f.id in ids then 0 else multiset(Located(features))[f]
  {
    if features == [] {
    } else {
      var front, last := features[..|features| - 1], features[|features| - 1];
      LocatedExcluding(front, ids, f);
      CountLocated(Excluding(front, ids), last, f);
      CountLocated(front, last, f);
      assert front + [last] == features;
      assert Excluding(features, ids) == if last.id in ids then Excluding(front, ids) else Excluding(front, ids) + [last];
    }
  }

  lemma ReclusteredIsCurrent(c: Config, v: View, resolution: int)
    requires IsOutdated(v, resolution)
    ensures Current(Recluster(c, v, resolution))
  {
    ClusteringPartitions(c.shouldCluster(resolution), v.Known(), c.threshold);
  }

  lemma AddedCurrentExactly(v: View, added: seq<Feature>)
    requires Current(v)
    ensures Current(Add(v, added)) <==> forall f :: f in added && f.id !in Ids(v.Known()) ==> !f.located
  {
    var brought := Excluding(added, Ids(v.Known()));
    LocatedConcat(v.Known(), brought);
    ExcludingMembers(added, Ids(v.Known()));
    LocatedMembers(brought);
    var news := Located(brought);
    assert multiset(Located(v.Known()) + news) == multiset(Located(v.Known())) + multiset(news);
    assert |multiset(news)| == |news|;
    if news != [] {
      assert news[0] in news;
    }
  }

  lemma RemovedCurrentExactly(c: Config, v: View, removed: seq<Feature>)
    requires Current(v)
    ensures Current(Handle(c, v, Removed(removed))) <==> Harmless(v, Removed(removed))
  {
    var ids := Ids(removed);
    var layer, known := TakeOff(v.layer, ids), Excluding(v.Known(), ids);
    forall f
      ensures Shown(layer)[f] == multiset(Located(known))[f] <==> (f.id in ids ==> f !in MembersShown(v.layer))
      ensures f in MembersShown(v.layer) <==> exists x :: x in v.layer && x.Clustered? && f in x.cluster.Members()
    {
      TakeOffExactly(v.layer, ids, f);
      LocatedExcluding(v.Known(), ids, f);
      InClustersExactly(v.layer, f);
    }
    if Harmless(v, Removed(removed)) {
      assert forall f :: Shown(layer)[f] == multiset(Located(known))[f];
    } else {
      var x, f :| x in v.layer && x.Clustered? && f in x.cluster.Members() && f.id in ids;
      assert f in MembersShown(v.layer);
      assert Shown(layer)[f] != multiset(Located(known))[f];
    }
  }

  /** From a state in which the layer is current, the next one is exactly when the event clusters anew or is harmless. */
  lemma StepCurrentExactly(c: Config, v: View, e: Event)
    requires Current(v)
    ensures Current(Handle(c, v, e)) <==> Reclusters(v, e) || Harmless(v, e)
  {
    match e
    case MoveEnd(_, resolution) =>
      if Reclusters(v, e) { ReclusteredIsCurrent(c, v, resolution); }
    case Added(added, resolution) =>
      if Reclusters(v, e) { ReclusteredIsCurrent(c, Add(v, added), resolution); }
      else { AddedCurrentExactly(v, added); }
    case Removed(removed) => RemovedCurrentExactly(c, v, removed);
    case Cleared =>
  }

  /** Every event of the run clusters anew or is harmless when it comes. */
  ghost predicate AllHarmless(c: Config, events: seq<Event>) {
    events == [] ||
    var front, e := events[..|events| - 1], events[|events| - 1];
    AllHarmless(c, front) && (Reclusters(HandleAll(c, front), e) || Harmless(HandleAll(c, front), e))
  }

  /** The layer is current in every state of the run. */
  ghost predicate AlwaysCurrent(c: Config, events: seq<Event>) {
    Current(HandleAll(c, events)) && (events == [] || AlwaysCurrent(c, events[..|events| - 1]))
  }

  /** Over all runs, the layer is current in every state exactly when each event clusters anew or is harmless. */
  lemma {:induction false} AlwaysCurrentExactly(c: Config, events: seq<Event>)
    ensures AlwaysCurrent(c, events) <==> AllHarmless(c, events)
  {
    if events == [] {
    } else {
      var front, e := events[..|events| - 1], events[|events| - 1];
      AlwaysCurrentExactly(c, front);
      if Current(HandleAll(c, front)) {
        StepCurrentExactly(c, HandleAll(c, front), e);
      }
    }
  }

  /** As many new features come as known ones go, none of which the layer shows by itself. */
  ghost predicate Replaces(v: View, removed: seq<Feature>, added: seq<Feature>) {
    && (forall x :: x in v.layer && x.Alone? ==> x.feature.id !in Ids(removed))
    && Ids(added) !! Ids(v.Known())
    && |Excluding(v.Known(), Ids(removed))| + |added| == |v.Known()|
  }

  /** The clusters on the layer were made of as many features as are known. */
  ghost predicate Settled(v: View) {
    Current(v) && v.ClustersExist() && v.resolution.Some? && v.previousCount == Some(|v.Known()|)
  }

  /**
   Members of a cluster that are removed and replaced by as many new features, at the same
   resolution, stay on the layer, and the new ones are missing: neither the number of
   features nor the layer has changed.
   */
  lemma ReplacementIsMissed(c: Config, v: View, removed: seq<Feature>, added: seq<Feature>)
    requires Settled(v) && Replaces(v, removed, added)
    ensures var v' := Handle(c, Handle(c, v, Removed(removed)), Added(added, v.resolution.value));
            && v'.Known() == Excluding(v.Known(), Ids(removed)) + added && v'.layer == v.layer
            && (forall f :: f in v.Known() && f.located && f.id in Ids(removed) ==> f in Shown(v'.layer))
            && (forall f :: f in added ==> f !in Shown(v'.layer))
  {
    var kept := Excluding(v.Known(), Ids(removed));
    TakesNothingOff(v.layer, Ids(removed));
    NewFeaturesStay(v.Known(), kept, removed, added);
    AddsOnly(c, Remove(v, removed), added, v.resolution.value);
    CurrentShows(v, added);
  }

  lemma AddsOnly(c: Config, v: View, added: seq<Feature>, resolution: int)
    requires Excluding(added, Ids(v.Known())) == added && |v.Known() + added| == |v.Known()| + |added|
    requires v.resolution == Some(resolution) && v.ClustersExist() && v.previousCount == Some(|v.Known()| + |added|)
    ensures var v' := Handle(c, v, Added(added, resolution));
            v'.Known() == v.Known() + added && v'.layer == v.layer
  {
    UpToDateStays(c, Add(v, added), resolution);
  }

  lemma UpToDateStays(c: Config, v: View, resolution: int)
    requires !IsOutdated(v, resolution)
    ensures Recluster(c, v, resolution) == v
  {
  }

  /** A current layer shows the located features known, and none of an unknown id. */
  lemma CurrentShows(v: View, unknown: seq<Feature>)
    requires Current(v) && Ids(unknown) !! Ids(v.Known())
    ensures forall f :: f in v.Known() && f.located ==> f in Shown(v.layer)
    ensures forall f :: f in unknown ==> f !in Shown(v.layer)
  {
    LocatedMembers(v.Known());
    forall f | f in unknown ensures f !in Shown(v.layer) {
      assert f.id in Ids(unknown) && (f in v.Known() ==> f.id in Ids(v.Known()));
    }
  }

  lemma {:induction false} TakesNothingOff(layer: seq<Element>, ids: set<string>)
    requires forall x :: x in layer && x.Alone? ==> x.feature.id !in ids
    ensures TakeOff(layer, ids) == layer
  {
    if layer == [] {
    } else {
      var front, last := layer[..|layer| - 1], layer[|layer| - 1];
      TakesNothingOff(front, ids);
      assert layer == front + [last];
    }
  }

  lemma {:induction false} NewFeaturesStay(known: seq<Feature>, kept: seq<Feature>, removed: seq<Feature>, added: seq<Feature>)
    requires kept == Excluding(known, Ids(removed)) && Ids(added) !! Ids(known)
    ensures Excluding(added, Ids(kept)) == added
  {
    ExcludingMembers(known, Ids(removed));
    assert forall f :: f in added ==> f.id in Ids(added);
    assert forall f :: f in kept ==> f.id in Ids(known);
    ExcludingNone(added, Ids(kept));
  }

  /** A run to that: two features are clustered, one of them is removed and a third added; the layer still shows the two. */
  lemma ReplacedMemberStays(c: Config, resolution: int, a: Feature, b: Feature, g: Feature)
    requires a.located && b.located && g.located && a.id != b.id && b.id != g.id && g.id != a.id
    requires c.shouldCluster(resolution)(a, b) && c.threshold <= 2
    ensures var v := HandleAll(c, [Added([a, b], resolution), Removed([b]), Added([g], resolution)]);
            v.Known() == [a, g] && v.layer == [Clustered(Cluster(a, [b]))]
  {
    HandleThree(c, Added([a, b], resolution), Removed([b]), Added([g], resolution));
    PairIsShown(c, resolution, a, b);
    ReclusteredIsCurrent(c, Add(NEW_VIEW, [a, b]), resolution);
    PairIsReplaced(c, Handle(c, NEW_VIEW, Added([a, b], resolution)), resolution, a, b, g);
  }

  lemma HandleThree(c: Config, e1: Event, e2: Event, e3: Event)
    ensures HandleAll(c, [e1, e2, e3]) == Handle(c, Handle(c, Handle(c, NEW_VIEW, e1), e2), e3)
  {
    assert [e1][..0] == [] && [e1, e2][..1] == [e1] && [e1, e2, e3][..2] == [e1, e2];
    assert HandleAll(c, [e1]) == Handle(c, NEW_VIEW, e1);
    assert HandleAll(c, [e1, e2]) == Handle(c, HandleAll(c, [e1]), e2);
  }

  lemma {:induction false} PairIsReplaced(c: Config, v: View, resolution: int, a: Feature, b: Feature, g: Feature)
    requires v.Known() == [a, b] && v.clusters == v.layer == [Clustered(Cluster(a, [b]))]
    requires v.previousCount == Some(2) && v.resolution == Some(resolution) && Current(v)
    requires a.id != b.id && b.id != g.id && g.id != a.id
    ensures var v' := Handle(c, Handle(c, v, Removed([b])), Added([g], resolution));
            v'.Known() == [a, g] && v'.layer == v.layer
  {
    ExcludingOne(a, b);
    ReplacementIsMissed(c, v, [b], [g]);
  }

  lemma ExcludingOne(a: Feature, b: Feature)
    requires a.id != b.id
    ensures Excluding([a, b], Ids([b])) == [a]
  {
    assert [a, b] == [a] + [b];
    ExcludingConcat([a], [b], Ids([b]));
    ExcludingNone([a], Ids([b]));
    assert [b][..0] == [] && b.id in Ids([b]);
  }

  lemma {:induction false} PairIsShown(c: Config, resolution: int, a: Feature, b: Feature)
    requires a.located && b.located && c.shouldCluster(resolution)(a, b) && c.threshold <= 2
    ensures var v := Handle(c, NEW_VIEW, Added([a, b], resolution));
            && v.Known() == [a, b] && v.clusters == v.layer == [Clustered(Cluster(a, [b]))]
            && v.previousCount == Some(2) && v.resolution == Some(resolution)
  {
    assert Ids([]) == {};
    ExcludingNone([a, b], {});
    var x := Add(NEW_VIEW, [a, b]);
    assert x.Known() == [a, b];
    PairIsClustered(c, resolution, a, b);
  }

  lemma {:induction false} PairIsClustered(c: Config, resolution: int, a: Feature, b: Feature)
    requires a.located && b.located && c.shouldCluster(resolution)(a, b) && c.threshold <= 2
    ensures c.Clustering(resolution, [a, b]) == [Clustered(Cluster(a, [b]))]
  {
    var near := c.shouldCluster(resolution);
    assert [a, b][..1] == [a] && [a][..0] == [];
    assert Clusters(near, [a]) == Place(near, [], a) == [Cluster(a, [])];
    var one, two := Cluster(a, []), Cluster(a, []).Add(b);
    assert FindCluster(near, [one], b, 1) == Some(0);
    assert two == Cluster(a, [b]);
    assert Clusters(near, [a, b]) == Place(near, [one], b) == [one][0 := two] == [two];
    assert [two][..0] == [];
    assert Elements([two], c.threshold) == [] + ElementsOf(two, c.threshold);
  }

  // ---------------------------------------------------------------- when the clusters are up to date

  /** The features at the last clustering. */
  function Basis(c: Config, events: seq<Event>): seq<Feature> {
    if events == [] then []
    else
      var front, e := events[..|events| - 1], events[|events| - 1];
      if e.Cleared? || Reclusters(HandleAll(c, front), e) then HandleAll(c, events).Known() else Basis(c, front)
  }

  /** Has any known feature been removed since the last clustering? */
  predicate RemovedSince(c: Config, events: seq<Event>) {
    events != [] &&
    var front, e := events[..|events| - 1], events[|events| - 1];
    !e.Cleared? && !Reclusters(HandleAll(c, front), e) &&
    (RemovedSince(c, front) || (e.Removed? && exists f :: f in HandleAll(c, front).Known() && f.id in Ids(e.removed)))
  }

  /** The clusters are the clustering of these features at the last resolution. */
  ghost predicate Shows(c: Config, v: View, features: seq<Feature>) {
    if v.resolution.None? then v.clusters == [] && features == []
    else v.clusters == c.Clustering(v.resolution.value, features)
  }

  /** The clusters are those of the basis, and the count is its length while there are any. */
  ghost predicate MadeOf(c: Config, v: View, basis: seq<Feature>) {
    && Shows(c, v, basis)
    && (v.clusters != [] ==> v.previousCount == Some(|basis|))
    && (v.resolution.None? ==> v.Known() == [])
  }

  lemma StepMadeOf(c: Config, v: View, basis: seq<Feature>, e: Event)
    requires MadeOf(c, v, basis)
    ensures MadeOf(c, Handle(c, v, e), if e.Cleared? || Reclusters(v, e) then Handle(c, v, e).Known() else basis)
  {
    match e
    case MoveEnd(_, resolution) => if !IsOutdated(v, resolution) { UpToDateStays(c, v, resolution); }
    case Added(added, resolution) =>
      if !IsOutdated(Add(v, added), resolution) { UpToDateStays(c, Add(v, added), resolution); }
    case Removed(removed) => assert v.Known() == [] ==> Excluding(v.Known(), Ids(removed)) == [];
    case Cleared =>
  }

  /** In every state, the clusters are those of the features at the last clustering. */
  lemma {:induction false} ShowsBasis(c: Config, events: seq<Event>)
    ensures MadeOf(c, HandleAll(c, events), Basis(c, events))
  {
    if events == [] {
    } else {
      var front, e := events[..|events| - 1], events[|events| - 1];
      ShowsBasis(c, front);
      StepMadeOf(c, HandleAll(c, front), Basis(c, front), e);
    }
  }

  lemma {:induction false} KnownIsBasis(c: Config, events: seq<Event>)
    requires !RemovedSince(c, events)
    ensures HandleAll(c, events).Known() == Basis(c, events)
  {
    if events == [] {
    } else {
      var front, e := events[..|events| - 1], events[|events| - 1];
      var v := HandleAll(c, front);
      if !e.Cleared? && !Reclusters(v, e) {
        KnownIsBasis(c, front);
        ShowsBasis(c, front);
        match e
        case MoveEnd(_, _) =>
        case Added(added, _) => assert Excluding(added, Ids(v.Known())) == [];
        case Removed(removed) => ExcludingNone(v.Known(), Ids(removed));
      }
    }
  }

  /** The resolution of the map at the last zoom or addition. */
  function SeenResolution(events: seq<Event>): Option<int> {
    if events == [] then None
    else
      match events[|events| - 1]
      case MoveEnd(true, resolution) => Some(resolution)
      case Added(_, resolution) => Some(resolution)
      case _ => SeenResolution(events[..|events| - 1])
  }

  /** Once features are known, a zoom and an addition leave clusters of the resolution of the map. */
  lemma ResolutionFollows(c: Config, v: View, added: seq<Feature>, resolution: int)
    ensures v.features.Some? ==> Handle(c, v, MoveEnd(true, resolution)).resolution == Some(resolution)
    ensures Handle(c, v, Added(added, resolution)).resolution == Some(resolution)
  {
  }

  /** A zoom clusters anew when the resolution, the number of features or the number of elements on the layer has changed, and else changes nothing. */
  lemma ZoomRefreshesExactly(c: Config, v: View, resolution: int)
    requires v.features.Some?
    ensures var v' := Handle(c, v, MoveEnd(true, resolution));
            var clusters := Elements(Clusters(c.shouldCluster(resolution), v.features.value), c.threshold);
            if v.resolution == Some(resolution) && v.previousCount == Some(|v.features.value|)
               && v.clusters != [] && |v.layer| == |v.clusters|
            then v' == v
            else v' == View(v.features, clusters, clusters, Some(|v.features.value|), Some(resolution))
  {
  }

  /** In every state with features known, the resolution kept is the last one seen, unless nothing has been added since the strategy was made. */
  lemma {:induction false} KeepsSeenResolution(c: Config, events: seq<Event>)
    ensures var v := HandleAll(c, events);
            && (v.features.None? ==> v.resolution == None && v.clusters == [])
            && (v.features.Some? && v.resolution.Some? ==> v.resolution == SeenResolution(events))
            && (v.resolution.None? ==> v.clusters == [] && v.Known() == [])
  {
    if events == [] {
    } else {
      var front, e := events[..|events| - 1], events[|events| - 1];
      KeepsSeenResolution(c, front);
      var v := HandleAll(c, front);
      assert e.Removed? && v.Known() == [] ==> HandleAll(c, events).Known() == [];
    }
  }

  lemma {:induction false} AloneIsShown(elements: seq<Element>, f: Feature)
    requires Alone(f) in elements
    ensures f in Shown(elements)
  {
    var n := |elements| - 1;
    if elements[n] == Alone(f) {
    } else {
      AloneIsShown(elements[..n], f);
    }
  }

  /** A removal of unknown features takes nothing off a layer that shows known ones only. */
  lemma RemovesNothing(layer: seq<Element>, known: seq<Feature>, ids: set<string>)
    requires Shown(layer) == multiset(Located(known)) && forall f :: f in known ==> f.id !in ids
    ensures TakeOff(layer, ids) == layer
  {
    LocatedMembers(known);
    forall x | x in layer && x.Alone? ensures x.feature.id !in ids {
      AloneIsShown(layer, x.feature);
      assert x.feature in multiset(Located(known));
      assert x.feature in Located(known);
    }
    TakesNothingOff(layer, ids);
  }

  /** While no known feature is removed after a clustering, the layer shows the clusters. */
  lemma {:induction false} LayerIsClusters(c: Config, events: seq<Event>)
    requires !RemovedSince(c, events)
    ensures HandleAll(c, events).layer == HandleAll(c, events).clusters
  {
    if events == [] {
    } else {
      var front, e := events[..|events| - 1], events[|events| - 1];
      var v := HandleAll(c, front);
      if !e.Cleared? && !Reclusters(v, e) {
        LayerIsClusters(c, front);
        KnownIsBasis(c, front);
        ShowsBasis(c, front);
        if e.Removed? {
          if v.resolution.Some? {
            ClusteringPartitions(c.shouldCluster(v.resolution.value), v.Known(), c.threshold);
          }
          RemovesNothing(v.layer, v.Known(), Ids(e.removed));
        }
      }
    }
  }

  /**
   While no known feature is removed after a clustering, the layer shows the clustering of
   all features known, at the resolution of the map at the last zoom or addition.
   */
  lemma FreshUnlessRemoved(c: Config, events: seq<Event>)
    requires !RemovedSince(c, events)
    ensures var v := HandleAll(c, events);
            v.layer == match SeenResolution(events)
                       case None => []
                       case Some(r) => Elements(Clusters(c.shouldCluster(r), v.Known()), c.threshold)
  {
    KnownIsBasis(c, events);
    ShowsBasis(c, events);
    LayerIsClusters(c, events);
    KeepsSeenResolution(c, events);
  }

  // ---------------------------------------------------------------- the component

  class Strategy {
    var features: Option<seq<Feature>>
    var clusters: seq<Element>
    /** The features on the layer. */
    var layer: seq<Element>
    var previousCount: Option<nat>
    var resolution: Option<int>
    /** Set while the strategy itself changes the layer, whose events are then ignored. */
    var clustering: bool
    const config: Config

    function Value(): View
      reads this
    {
      View(features, clusters, layer, previousCount, resolution)
    }

    constructor (config: Config)
      ensures Value() == NEW_VIEW && !clustering && this.config == config
    {
      features, clusters, layer, previousCount, resolution, clustering := None, [], [], None, None, false;
      this.config := config;
    }

    /** Clusters anew when called without an event or by one that changed the zoom, and something has changed. */
    method Cluster(zoomChanged: Option<bool>, currentResolution: int)
      requires !clustering
      modifies this
      ensures !clustering
      ensures Value() == if zoomChanged == Some(false) then old(Value())
                         else Recluster(config, old(Value()), currentResolution)
    {
      if zoomChanged != Some(false) && features.Some? {
        var known := features.value;
        if Some(currentResolution) != resolution || !Value().ClustersExist() || previousCount != Some(|known|) {
          previousCount := Some(|known|);
          resolution := Some(currentResolution);
          var found := BuildClusters(config.shouldCluster(currentResolution), known);
          clustering := true;
          layer := [];
          clustering := false;
          var elements := [];
          if |found| > 0 {
            elements := ApplyThreshold(found, config.threshold);
            clustering := true;
            layer := elements;
            clustering := false;
          }
          clusters := elements;
        }
      }
    }

    /** Keeps features that are new, and clusters; the layer does not get to show them by itself. */
    method CacheFeatures(added: seq<Feature>, currentResolution: int) returns (propagate: bool)
      modifies this
      ensures clustering == old(clustering) == propagate
      ensures Value() == if clustering then old(Value())
                         else Handle(config, old(Value()), Added(added, currentResolution))
    {
      propagate := true;
      if !clustering {
        ghost var before := Value();
        var known := if features.Some? then features.value else [];
        var currentIds := Ids(known);
        for i := 0 to |added|
          invariant known == before.Known() + Excluding(added[..i], currentIds)
        {
          assert added[..i + 1][..i] == added[..i];
          if added[i].id !in currentIds {
            known := known + [added[i]];
          }
        }
        assert added[..|added|] == added;
        features := Some(known);
        assert Value() == Add(before, added);
        Cluster(None, currentResolution);
        propagate := false;
      }
    }

    /** Called when features have been taken off the layer. */
    method RemoveFeatures(removed: seq<Feature>)
      modifies this`features
      ensures Value() == if clustering then old(Value()) else Remove(old(Value()), removed)
    {
      if !clustering {
        var existingIds := Ids(removed);
        var known := if features.Some? then features.value else [];
        var kept := [];
        for i := 0 to |known|
          invariant features == old(features)
          invariant kept == Excluding(known[..i], existingIds)
        {
          assert known[..i + 1][..i] == known[..i];
          if known[i].id !in existingIds {
            kept := kept + [known[i]];
          }
        }
        assert known[..|known|] == known;
        features := Some(kept);
      }
    }
  }

  /** The nested loops: features in order, clusters from the latest to the first. */
  method BuildClusters(near: Near, features: seq<Feature>) returns (clusters: seq<Cluster>)
    ensures clusters == Clusters(near, features)
  {
    clusters := [];
    for i := 0 to |features|
      invariant clusters == Clusters(near, features[..i])
    {
      assert features[..i + 1][..i] == features[..i];
      var feature := features[i];
      if feature.located {
        var clustered := false;
        var j := |clusters|;
        ghost var before := clusters;
        while j > 0
          invariant 0 <= j <= |before| && !clustered && clusters == before
          invariant FindCluster(near, before, feature, |before|) == FindCluster(near, before, feature, j)
        {
          j := j - 1;
          if near(clusters[j].seed, feature) {
            clusters := clusters[j := clusters[j].Add(feature)];
            clustered := true;
            break;
          }
        }
        if !clustered {
          clusters := clusters + [Cluster(feature, [])];
        }
      }
    }
    assert features[..|features|] == features;
  }

  method ApplyThreshold(clusters: seq<Cluster>, threshold: int) returns (elements: seq<Element>)
    ensures elements == Elements(clusters, threshold)
  {
    elements := [];
    for i := 0 to |clusters|
      invariant elements == Elements(clusters[..i], threshold)
    {
      assert clusters[..i + 1][..i] == clusters[..i];
      if threshold > 1 && clusters[i].Count() < threshold {
        elements := elements + Singles(clusters[i].Members());
      } else {
        elements := elements + [Clustered(clusters[i])];
      }
    }
    assert clusters[..|clusters|] == clusters;
  }
}
