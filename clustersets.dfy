/**
 * A fixed array of k clusters filled through a write cursor, with the
 * nearest-centroid choice and the lookup of a row's cluster.
 */
module ClusterSets {
  import opened Attributes
  import opened Results
  import opened DataSpec
  import opened Dataset
  import opened Clusters

  // ---------------------------------------------------------------------------
  // What the scans compute
  // ---------------------------------------------------------------------------

  /** Every centroid is a well-formed tuple of values over atts. */
  predicate AllCompatible(atts: seq<Attribute>, cs: seq<seq<Value>>) {
    forall j :: 0 <= j < |cs| ==> Compatible(atts, cs[j])
  }

  /**
   * Index of the least number, scanning from the first and moving on only to
   * a strictly smaller one.
   */
  function Lowest(ds: seq<real>): (b: nat)
    requires |ds| > 0
    ensures b < |ds|
  {
    if |ds| == 1 then 0
    else
      var b := Lowest(ds[..|ds| - 1]);
      if ds[|ds| - 1] < ds[b] then |ds| - 1 else b
  }

  /** The scan's choice is a least number, and every number before it is strictly greater. */
  lemma {:induction false} LowestIsLeast(ds: seq<real>)
    requires |ds| > 0
    ensures var b := Lowest(ds);
      (forall j :: 0 <= j < |ds| ==> ds[b] <= ds[j]) && (forall j :: 0 <= j < b ==> ds[j] > ds[b])
  {
    if |ds| > 1 {
      LowestIsLeast(ds[..|ds| - 1]);
    }
  }

  /** The distances to one more centroid extend those to the earlier ones. */
  lemma DistancesNext(atts: seq<Attribute>, x: seq<Value>, cs: seq<seq<Value>>, n: nat)
    requires n < |cs| && Compatible(atts, x) && AllCompatible(atts, cs)
    ensures Distances(atts, x, cs[..n + 1]) == Distances(atts, x, cs[..n]) + [TupleDistance(atts, x, cs[n])]
  {
    assert cs[..n + 1][..n] == cs[..n];
  }

  /** Index of the centroid nearest to x; ties go to the lowest index. */
  function Nearest(atts: seq<Attribute>, x: seq<Value>, cs: seq<seq<Value>>): (b: nat)
    requires |cs| > 0 && Compatible(atts, x) && AllCompatible(atts, cs)
    ensures b < |cs|
    ensures forall j :: 0 <= j < |cs| ==> TupleDistance(atts, x, cs[b]) <= TupleDistance(atts, x, cs[j])
    ensures forall j :: 0 <= j < b ==> TupleDistance(atts, x, cs[j]) > TupleDistance(atts, x, cs[b])
  {
    var ds := Distances(atts, x, cs);
    LowestIsLeast(ds);
    Lowest(ds)
  }

  /** The centroids cs with the first j recomputed from the rows of their clusters. */
  ghost function RecomputedUpTo(cs: seq<seq<Value>>, rows: seq<seq<Value>>, atts: seq<Attribute>, ms: seq<set<int>>, j: nat)
    : (r: seq<seq<Value>>)
    requires |ms| == |cs| && j <= |cs| && MembersIn(ms, |rows|) && AllCompatible(atts, cs)
    ensures |r| == |cs|
  {
    seq(|cs|, m requires 0 <= m < |cs| => if m < j then Recomputed(cs[m], rows, atts, ms[m]) else cs[m])
  }

  /** Recomputing centroid j as well extends the recomputed prefix by one. */
  lemma RecomputedUpToNext(cs: seq<seq<Value>>, rows: seq<seq<Value>>, atts: seq<Attribute>, ms: seq<set<int>>, j: nat)
    requires |ms| == |cs| && j < |cs| && MembersIn(ms, |rows|) && AllCompatible(atts, cs)
    ensures var r := RecomputedUpTo(cs, rows, atts, ms, j);
      RecomputedUpTo(cs, rows, atts, ms, j + 1) == r[j := Recomputed(r[j], rows, atts, ms[j])]
  {
  }

  /** Index of the first set holding id; -1 when none does. */
  function FirstWith(ms: seq<set<int>>, id: int): (j: int)
    ensures -1 <= j < |ms|
    ensures j >= 0 ==> id in ms[j] && forall m :: 0 <= m < j ==> id !in ms[m]
    ensures j == -1 <==> forall m :: 0 <= m < |ms| ==> id !in ms[m]
  {
    if |ms| == 0 then -1
    else if id in ms[0] then 0
    else
      var j := FirstWith(ms[1..], id);
      if j < 0 then -1 else j + 1
  }

  /** Every row id of every cluster names a row. */
  predicate MembersIn(ms: seq<set<int>>, n: int) {
    forall j :: 0 <= j < |ms| ==> IdsIn(ms[j], n)
  }

  /** No row id sits in two clusters. */
  predicate Disjoint(ms: seq<set<int>>) {
    forall a, b, q :: 0 <= a < |ms| && 0 <= b < |ms| && q in ms[a] && q in ms[b] ==> a == b
  }

  /** Row r sits in cluster j exactly when j is the centroid nearest to row r. */
  predicate Settled(rows: seq<seq<Value>>, atts: seq<Attribute>, ms: seq<set<int>>, cs: seq<seq<Value>>, r: int)
    requires WellFormedData(rows, atts) && |cs| > 0 && AllCompatible(atts, cs) && 0 <= r < |rows|
  {
    forall j :: 0 <= j < |ms| ==> (r in ms[j] <==> j == Nearest(atts, rows[r], cs))
  }

  /** Every row sits in the cluster of its nearest centroid and in no other. */
  predicate AtNearest(rows: seq<seq<Value>>, atts: seq<Attribute>, ms: seq<set<int>>, cs: seq<seq<Value>>)
    requires WellFormedData(rows, atts) && |cs| > 0 && AllCompatible(atts, cs)
  {
    forall r :: 0 <= r < |rows| ==> Settled(rows, atts, ms, cs, r)
  }

  /** The centroids determine the clusters: two assignments of all rows to their nearest centroids agree. */
  lemma AtNearestDetermines(rows: seq<seq<Value>>, atts: seq<Attribute>, ms1: seq<set<int>>, ms2: seq<set<int>>, cs: seq<seq<Value>>)
    requires WellFormedData(rows, atts) && |cs| > 0 && AllCompatible(atts, cs) && |ms1| == |ms2|
    requires MembersIn(ms1, |rows|) && MembersIn(ms2, |rows|)
    requires AtNearest(rows, atts, ms1, cs) && AtNearest(rows, atts, ms2, cs)
    ensures ms1 == ms2
  {
    forall j | 0 <= j < |ms1|
      ensures ms1[j] == ms2[j]
    {
      forall q | q in ms1[j] ensures q in ms2[j] {
        assert Settled(rows, atts, ms1, cs, q) && Settled(rows, atts, ms2, cs, q);
      }
      forall q | q in ms2[j] ensures q in ms1[j] {
        assert Settled(rows, atts, ms1, cs, q) && Settled(rows, atts, ms2, cs, q);
      }
    }
  }

  /** Some cluster holds row r. */
  predicate InSome(ms: seq<set<int>>, r: int) {
    exists j :: 0 <= j < |ms| && r in ms[j]
  }

  /**
   * When every row sits at its nearest centroid, every row sits in exactly
   * one cluster.
   */
  lemma AtNearestPartitions(rows: seq<seq<Value>>, atts: seq<Attribute>, ms: seq<set<int>>, cs: seq<seq<Value>>)
    requires WellFormedData(rows, atts) && |cs| > 0 && AllCompatible(atts, cs) && |ms| == |cs|
    requires AtNearest(rows, atts, ms, cs) && MembersIn(ms, |rows|)
    ensures Disjoint(ms)
    ensures forall r :: 0 <= r < |rows| ==> InSome(ms, r)
  {
    forall r | 0 <= r < |rows|
      ensures InSome(ms, r)
    {
      assert Compatible(atts, rows[r]);
      var j := Nearest(atts, rows[r], cs);
      assert Settled(rows, atts, ms, cs, r);
      assert r in ms[j];
    }
    forall a, b, q | 0 <= a < |ms| && 0 <= b < |ms| && q in ms[a] && q in ms[b]
      ensures a == b
    {
      assert 0 <= q < |rows|;
      assert Settled(rows, atts, ms, cs, q);
    }
  }

  /** Where several centroids are equally near, the scan keeps the first of them. */
  lemma NearestBreaksTiesLow(atts: seq<Attribute>, x: seq<Value>, cs: seq<seq<Value>>, j: int)
    requires |cs| > 0 && Compatible(atts, x) && AllCompatible(atts, cs)
    requires 0 <= j < |cs| && forall m :: 0 <= m < |cs| ==> TupleDistance(atts, x, cs[j]) <= TupleDistance(atts, x, cs[m])
    ensures Nearest(atts, x, cs) <= j
    ensures TupleDistance(atts, x, cs[Nearest(atts, x, cs)]) == TupleDistance(atts, x, cs[j])
  {
  }

  /** A row equal to a centroid is nearest to the first centroid equal to it. */
  lemma NearestOfCentroid(atts: seq<Attribute>, x: seq<Value>, cs: seq<seq<Value>>, j: int)
    requires |cs| > 0 && Compatible(atts, x) && AllCompatible(atts, cs)
    requires 0 <= j < |cs| && cs[j] == x && forall m :: 0 <= m < j ==> cs[m] != x
    ensures Nearest(atts, x, cs) == j
  {
    var b := Nearest(atts, x, cs);
    assert TupleDistance(atts, x, cs[j]) == 0.0;
    assert TupleDistance(atts, x, cs[b]) == 0.0;
  }

  class ClusterSet {
    const C: array<Cluster?>
    var i: nat

    /** A set with room for k clusters and none stored yet. */
    constructor (k: nat)
      ensures fresh(C) && C.Length == k && i == 0 && Valid()
    {
      C := new Cluster?[k](_ => null);
      i := 0;
    }

    /**
     * A set with room for k clusters; a negative k is refused with
     * OutOfRangeSampleSize, while 0 is accepted here and refused by sampling.
     */
    static method Create(k: int) returns (r: Result<ClusterSet>)
      ensures r.Err? <==> k < 0
      ensures r.Err? ==> r.error == OutOfRangeSampleSize
      ensures r.Ok? ==> fresh(r.value) && fresh(r.value.C) && r.value.C.Length == k && r.value.i == 0 && r.value.Valid()
    {
      if k < 0 {
        return Err(OutOfRangeSampleSize);
      }
      var s := new ClusterSet(k);
      return Ok(s);
    }

    /** The clusters stored so far. */
    ghost function Clusters(): set<Cluster>
      reads C
    {
      set c: Cluster | c in C[..]
    }

    /** The item arrays of the stored centroids. */
    ghost function Tuples(): set<array<Item?>>
      reads C
    {
      set c: Cluster | c in C[..] :: c.centroid.tuple
    }

    /** The items of the stored centroids. */
    ghost function AllItems(): set<Item>
      reads C, Tuples()
    {
      set c: Cluster, x: Item | c in C[..] && x in c.centroid.Items() :: x
    }

    /**
     * The first i slots hold clusters over well-formed centroids; distinct
     * slots hold distinct clusters whose centroids share no item.
     */
    ghost predicate Valid()
      reads this, C, Tuples()
    {
      Stored() &&
      (forall a, b :: 0 <= a < b < i ==> C[a] != C[b] && C[a].centroid.Items() !! C[b].centroid.Items())
    }

    /** The first i slots hold clusters over well-formed centroids. */
    ghost predicate Stored()
      reads this, C, Tuples()
    {
      i <= C.Length && forall j :: 0 <= j < i ==> C[j] != null && C[j].centroid.Valid()
    }

    /** The rows of each stored cluster. */
    ghost function Members(): (ms: seq<set<int>>)
      reads this, C, Clusters()
      requires i <= C.Length && forall j :: 0 <= j < i ==> C[j] != null
      ensures |ms| == i && forall j :: 0 <= j < i ==> ms[j] == C[j].clusteredData
    {
      seq(i, j reads this, C, Clusters() requires 0 <= j < i && j < C.Length && C[j] != null =>
        assert C[j] in C[..];
        C[j].clusteredData)
    }

    /** The centroid values of each stored cluster. */
    ghost function Centroids(): (cs: seq<seq<Value>>)
      reads this, C, Tuples(), AllItems()
      requires Stored()
      ensures |cs| == i && forall j :: 0 <= j < i ==> cs[j] == C[j].centroid.Values()
    {
      seq(i, j reads this, C, Tuples(), AllItems() requires 0 <= j < i && j < C.Length && C[j] != null && C[j].centroid.Valid() =>
        assert C[j] in C[..];
        C[j].centroid.Values())
    }

    /** The attributes of each stored centroid. */
    ghost function Schemas(): (ss: seq<seq<Attribute>>)
      reads this, C, Tuples()
      requires Stored()
      ensures |ss| == i && forall j :: 0 <= j < i ==> ss[j] == C[j].centroid.Attributes()
    {
      seq(i, j reads this, C, Tuples() requires 0 <= j < i && j < C.Length && C[j] != null && C[j].centroid.Valid() =>
        assert C[j] in C[..];
        C[j].centroid.Attributes())
    }

    /**
     * Every stored centroid is a well-formed tuple over the dataset's
     * attributes, its numbers within their columns' ranges.
     */
    ghost predicate Over(data: Data)
      reads this, C, Tuples(), AllItems()
      requires Valid()
    {
      forall j :: 0 <= j < i ==>
        (Schemas()[j] == data.attributeSet &&
         Compatible(data.attributeSet, Centroids()[j]) && AllInRange(data.attributeSet, Centroids()[j]))
    }

    /**
     * Every slot holds a cluster over the dataset, with well-formed centroids
     * and rows that name rows of the dataset.
     */
    ghost predicate Ready(data: Data)
      reads this, C, Tuples(), AllItems(), Clusters()
    {
      Valid() && i == C.Length && C.Length > 0 && data.Valid() && Over(data) &&
      AllCompatible(data.attributeSet, Centroids()) && MembersIn(Members(), |data.data|)
    }

    /** Stores c at the cursor and moves the cursor on. */
    method Add(c: Cluster)
      requires Valid() && i < C.Length && c.centroid.Valid()
      requires forall j :: 0 <= j < i ==> C[j] != c && C[j].centroid.Items() !! c.centroid.Items()
      modifies this, C
      ensures C[..] == old(C[..])[old(i) := c] && i == old(i) + 1
      ensures Valid()
    {
      C[i] := c;
      i := i + 1;
    }

    function Get(j: int): (c: Cluster?)
      reads C
      requires 0 <= j < C.Length
      ensures c == C[j]
    {
      C[j]
    }

    /** Stores, at the cursor, a new cluster with no rows around a fresh tuple of the given row. */
    method AddCentroid(data: Data, row: int)
      requires Valid() && i < C.Length && data.Valid() && 0 <= row < |data.data|
      modifies this, C
      ensures Valid() && i == old(i) + 1 && C[..] == old(C[..])[old(i) := C[old(i)]]
      ensures fresh(C[old(i)]) && fresh(C[old(i)].centroid.tuple) && fresh(C[old(i)].centroid.Items())
      ensures C[old(i)].clusteredData == {} && C[old(i)].CentroidOver(data)
      ensures C[old(i)].centroid.Values() == data.data[row]
    {
      var centroidI := data.GetItemSet(row);
      assert Compatible(data.attributeSet, data.data[row]);
      var cluster := new Cluster(centroidI);
      Add(cluster);
    }

    /**
     * Samples as many rows as there are slots and stores one cluster per
     * sampled row, in sample order: its centroid is a fresh tuple of that row
     * and it has no rows yet. A failed sampling stores nothing.
     */
    method InitializeCentroids(data: Data, draws: seq<int>) returns (o: Outcome)
      requires Valid() && i == 0 && data.Valid() && DrawsIn(draws, |data.data|)
      modifies this, C
      ensures o.Fail? <==> Sample(data.data, draws, C.Length).Err?
      ensures o.Fail? ==> o.error == Sample(data.data, draws, C.Length).error && i == 0
      ensures o.Fail? ==> Valid() && C[..] == old(C[..])
      ensures o.Pass? ==> Valid() && i == C.Length && Over(data)
      ensures o.Pass? ==> fresh(Clusters()) && fresh(AllItems())
      ensures o.Pass? ==> forall j :: 0 <= j < i ==> C[j].clusteredData == {}
      ensures o.Pass? ==> forall j :: 0 <= j < i ==>
        C[j].centroid.Values() == data.data[Sample(data.data, draws, C.Length).value[j]]
    {
      var r := data.Sampling(C.Length, draws);
      if r.Err? {
        return Fail(r.error);
      }
      var centroidIndexes := r.value;
      for j := 0 to |centroidIndexes|
        invariant i == j && Valid()
        invariant forall m :: 0 <= m < j ==>
          fresh(C[m]) && fresh(C[m].centroid.tuple) && fresh(C[m].centroid.Items()) &&
          C[m].clusteredData == {} && C[m].CentroidOver(data) &&
          C[m].centroid.Values() == data.data[centroidIndexes[m]]
      {
        AddCentroid(data, centroidIndexes[j]);
      }
      o := Pass;
    }

    /** The clusters are stored with centroids cs, and tuple holds x over atts. */
    ghost predicate Fixed(tuple: Tuple, atts: seq<Attribute>, x: seq<Value>, cs: seq<seq<Value>>)
      reads this, C, Tuples(), AllItems(), tuple.tuple, tuple.Items()
    {
      Stored() && Centroids() == cs && tuple.Valid() && tuple.Values() == x && tuple.Attributes() == atts
    }

    /** The distance from tuple to the centroid of cluster j. */
    method DistanceTo(tuple: Tuple, j: nat, ghost atts: seq<Attribute>, ghost x: seq<Value>, ghost cs: seq<seq<Value>>)
      returns (d: real)
      requires Fixed(tuple, atts, x, cs) && j < i && Compatible(atts, x) && AllCompatible(atts, cs)
      ensures Fixed(tuple, atts, x, cs) && d == TupleDistance(atts, x, cs[j])
    {
      var centroid := C[j].GetCentroid();
      assert centroid.Values()[..tuple.tuple.Length] == cs[j];
      label start:
      d := tuple.GetDistance(centroid);
      StoredKept@start();
      assert x == tuple.Values() && atts == tuple.Attributes() && cs[j] == centroid.Values();
    }

    /**
     * The cluster whose centroid is nearest to tuple: a strictly nearer
     * centroid replaces the current choice, so ties go to the lowest index.
     */
    method NearestCluster(tuple: Tuple) returns (c: Cluster)
      requires Stored() && i == C.Length && C.Length > 0
      requires tuple.Valid() && Compatible(tuple.Attributes(), tuple.Values())
      requires AllCompatible(tuple.Attributes(), Centroids())
      ensures Stored() && tuple.Valid() && Compatible(tuple.Attributes(), tuple.Values())
      ensures AllCompatible(tuple.Attributes(), Centroids())
      ensures c == C[Nearest(tuple.Attributes(), tuple.Values(), Centroids())]
    {
      ghost var atts, x, cs := tuple.Attributes(), tuple.Values(), Centroids();
      var min := DistanceTo(tuple, 0, atts, x, cs);
      c := C[0];
      ghost var best, ds := 0, [min];
      assert ds == Distances(atts, x, cs[..1]);
      for j := 1 to C.Length
        invariant |ds| == j && best == Lowest(ds) && c == C[best] && min == ds[best]
        invariant ds == Distances(atts, x, cs[..j])
        invariant Fixed(tuple, atts, x, cs)
      {
        var tmp := DistanceTo(tuple, j, atts, x, cs);
        DistancesNext(atts, x, cs, j);
        assert (ds + [tmp])[..j] == ds;
        if tmp < min {
          min := tmp;
          c := C[j];
          best := j;
        }
        ds := ds + [tmp];
      }
      assert cs[..C.Length] == cs;
    }

    /** The first cluster holding id, or null when no cluster does. */
    method CurrentCluster(id: int) returns (c: Cluster?)
      requires Valid() && i == C.Length
      ensures var j := FirstWith(Members(), id); if j < 0 then c == null else c == C[j]
      ensures Valid() && Centroids() == old(Centroids()) && Schemas() == old(Schemas()) && Members() == old(Members())
    {
      for j := 0 to C.Length
        invariant forall m :: 0 <= m < j ==> id !in C[m].clusteredData
      {
        if C[j].Contain(id) {
          return C[j];
        }
      }
      return null;
    }

    /**
     * Recomputes the centroid of cluster j; every other centroid and every
     * cluster's rows stay as they were.
     */
    method ComputeCentroidAt(data: Data, j: nat) returns (defined: bool)
      requires Valid() && j < i && data.Valid() && Over(data) && MembersIn(Members(), |data.data|)
      modifies C[j].centroid.Items()
      ensures Valid() && Over(data) && Members() == old(Members()) && Schemas() == old(Schemas())
      ensures Centroids() == old(Centroids())[j := Recomputed(old(Centroids())[j], data.data, data.attributeSet, Members()[j])]
      ensures defined <==> PrototypesDefined(data.attributeSet, Members()[j])
    {
      ghost var cs, ms, ss := Centroids(), Members(), Schemas();
      assert C[j] in C[..];
      assert C[j].CentroidOver(data);
      label before:
      defined := C[j].ComputeCentroid(data);
      ShapeKept@before();
      CentroidsAfter@before(j);
    }

    /**
     * A change confined to centroid items keeps the stored clusters, their
     * rows and their centroids' attributes.
     */
    twostate lemma ShapeKept()
      requires old(Valid()) && unchanged(this, C)
      requires forall t :: t in old(Tuples()) ==> unchanged(t)
      requires forall c :: c in old(Clusters()) ==> unchanged(c)
      ensures Valid() && Tuples() == old(Tuples()) && Clusters() == old(Clusters())
      ensures Schemas() == old(Schemas()) && Members() == old(Members())
    {
    }

    /** A change confined to the clusters' rows keeps the centroids. */
    twostate lemma CentroidsKept()
      requires old(Valid()) && unchanged(this, C)
      requires forall t :: t in old(Tuples()) ==> unchanged(t)
      requires forall x :: x in old(AllItems()) ==> unchanged(x)
      ensures Valid() && Tuples() == old(Tuples()) && AllItems() == old(AllItems())
      ensures Schemas() == old(Schemas()) && Centroids() == old(Centroids())
    {
    }

    /** A step that changes no slot and no centroid keeps the centroids. */
    twostate lemma StoredKept()
      requires old(Stored()) && unchanged(this, C)
      requires forall t :: t in old(Tuples()) ==> unchanged(t)
      requires forall x :: x in old(AllItems()) ==> unchanged(x)
      ensures Stored() && Centroids() == old(Centroids())
    {
    }

    /** A step that changes nothing stored keeps the clusters, their rows and their centroids. */
    twostate lemma AllKept()
      requires old(Valid()) && unchanged(this, C)
      requires forall t :: t in old(Tuples()) ==> unchanged(t)
      requires forall x :: x in old(AllItems()) ==> unchanged(x)
      requires forall c :: c in old(Clusters()) ==> unchanged(c)
      ensures Valid() && Schemas() == old(Schemas()) && Centroids() == old(Centroids())
      ensures Members() == old(Members())
    {
      CentroidsKept();
    }

    /** While the slots and the centroid arrays stay, so do the clusters and the centroid items. */
    twostate lemma FootprintKept()
      requires unchanged(this, C)
      requires forall t :: t in old(Tuples()) ==> unchanged(t)
      ensures Clusters() == old(Clusters()) && Tuples() == old(Tuples()) && AllItems() == old(AllItems())
    {
    }

    /** Ready depends only on the centroids, their attributes and the rows. */
    twostate lemma ReadyKept(data: Data)
      requires old(Ready(data)) && Valid() && unchanged(this)
      requires Schemas() == old(Schemas()) && Centroids() == old(Centroids())
      requires MembersIn(Members(), |data.data|)
      ensures Ready(data)
    {
    }

    /** A change confined to the items of centroid j keeps every other centroid. */
    twostate lemma CentroidsAfter(j: nat)
      requires old(Valid()) && Valid() && j < i && unchanged(this, C)
      requires forall t :: t in old(Tuples()) ==> unchanged(t)
      requires forall m, x :: 0 <= m < i && m != j && x in old(C[m].centroid.Items()) ==> unchanged(x)
      ensures Centroids() == old(Centroids())[j := C[j].centroid.Values()]
    {
      forall m | 0 <= m < i && m != j
        ensures C[m].centroid.Values() == old(C[m].centroid.Values())
      {
        assert C[m] in old(C[..]);
        assert C[m].centroid.tuple in old(Tuples());
        assert C[m].centroid.Items() == old(C[m].centroid.Items());
      }
    }

    /**
     * Recomputes the centroid of every cluster from its rows; the rows do not
     * change. allDefined reports whether every prototype was defined.
     */
    method UpdateCentroids(data: Data) returns (allDefined: bool)
      requires Valid() && i == C.Length && data.Valid() && Over(data) && MembersIn(Members(), |data.data|)
      modifies AllItems()
      ensures Valid() && Over(data) && Members() == old(Members())
      ensures forall j :: 0 <= j < i ==>
        Centroids()[j] == Recomputed(old(Centroids())[j], data.data, data.attributeSet, Members()[j])
      ensures allDefined <==> forall j :: 0 <= j < i ==> PrototypesDefined(data.attributeSet, Members()[j])
      ensures Clusters() == old(Clusters()) && AllItems() == old(AllItems())
    {
      label start:
      ghost var before, ms := Centroids(), Members();
      ghost var rows, atts := data.data, data.attributeSet;
      assert AllCompatible(atts, before);
      allDefined := true;
      for j := 0 to C.Length
        invariant Valid() && Over(data) && Members() == ms
        invariant Centroids() == RecomputedUpTo(before, rows, atts, ms, j)
        invariant allDefined <==> forall m :: 0 <= m < j ==> PrototypesDefined(atts, ms[m])
      {
        var d := ComputeCentroidAt(data, j);
        RecomputedUpToNext(before, rows, atts, ms, j);
        allDefined := allDefined && d;
      }
      FootprintKept@start();
    }
  }
}
