/**
 * The K-Means loop: sample k rows as centroids, then alternately move every
 * row to the cluster of its nearest centroid and recompute the centroids,
 * until a pass moves no row.
 */
module Miner {
  import opened Attributes
  import opened Results
  import opened DataSpec
  import opened Dataset
  import opened Clusters
  import opened ClusterSets

  /** The clusters after row r joins cluster b and leaves every other one. */
  function Moved(ms: seq<set<int>>, r: int, b: int): (ms': seq<set<int>>)
    ensures |ms'| == |ms|
    ensures forall j :: 0 <= j < |ms| ==> (r in ms'[j] <==> j == b)
    ensures forall j, q :: 0 <= j < |ms| && q != r ==> (q in ms'[j] <==> q in ms[j])
  {
    seq(|ms|, j requires 0 <= j < |ms| => if j == b then ms[j] + {r} else ms[j] - {r})
  }

  /** Moving a row to the one cluster that already holds it changes nothing. */
  lemma MovedInPlace(ms: seq<set<int>>, r: int, b: int)
    requires 0 <= b < |ms| && r in ms[b] && Disjoint(ms)
    ensures Moved(ms, r, b) == ms
  {
    var ms' := Moved(ms, r, b);
    forall j | 0 <= j < |ms|
      ensures ms'[j] == ms[j]
    {
      if j != b {
        assert r !in ms[j];
      }
    }
  }

  /** Moving a row of the data keeps every cluster within the rows of the data. */
  lemma MovedIn(ms: seq<set<int>>, r: int, b: int, n: int)
    requires MembersIn(ms, n) && 0 <= r < n
    ensures MembersIn(Moved(ms, r, b), n)
  {
  }

  /** Moving a row keeps every row in at most one cluster. */
  lemma MovedDisjoint(ms: seq<set<int>>, r: int, b: int)
    requires Disjoint(ms)
    ensures Disjoint(Moved(ms, r, b))
  {
    var ms' := Moved(ms, r, b);
    forall a, c, q | 0 <= a < |ms'| && 0 <= c < |ms'| && q in ms'[a] && q in ms'[c]
      ensures a == c
    {
      if q != r {
        assert q in ms[a] && q in ms[c];
      }
    }
  }

  /** Moving row r to its nearest cluster settles it and leaves every other row where it was. */
  lemma MovedSettles(rows: seq<seq<Value>>, atts: seq<Attribute>, ms: seq<set<int>>, cs: seq<seq<Value>>, r: int)
    requires WellFormedData(rows, atts) && |cs| > 0 && AllCompatible(atts, cs) && 0 <= r < |rows|
    ensures Compatible(atts, rows[r])
    ensures Settled(rows, atts, Moved(ms, r, Nearest(atts, rows[r], cs)), cs, r)
  {
  }

  /**
   * Over disjoint clusters, row r is already settled exactly when the cluster
   * of its nearest centroid holds it.
   */
  lemma SettledIffHeld(rows: seq<seq<Value>>, atts: seq<Attribute>, ms: seq<set<int>>, cs: seq<seq<Value>>, r: int)
    requires WellFormedData(rows, atts) && |cs| > 0 && AllCompatible(atts, cs) && 0 <= r < |rows|
    requires Disjoint(ms) && |ms| == |cs|
    ensures Compatible(atts, rows[r])
    ensures Settled(rows, atts, ms, cs, r) <==> r in ms[Nearest(atts, rows[r], cs)]
  {
    assert Compatible(atts, rows[r]);
  }

  /**
   * Where a scan stands after its first r rows, starting from clusters ms0:
   * those rows sit at their nearest centroids, later rows where they were,
   * every row in at most one cluster, and changed records whether some
   * scanned row was not already settled.
   */
  ghost predicate Scanned(rows: seq<seq<Value>>, atts: seq<Attribute>, cs: seq<seq<Value>>,
                    ms0: seq<set<int>>, ms: seq<set<int>>, r: int, changed: bool)
    requires WellFormedData(rows, atts) && |cs| > 0 && AllCompatible(atts, cs) && 0 <= r <= |rows|
  {
    |ms0| == |cs| && |ms| == |cs| && Disjoint(ms) &&
    (forall q :: 0 <= q < r ==> Settled(rows, atts, ms, cs, q)) &&
    (forall j, q :: 0 <= j < |ms| && r <= q ==> (q in ms[j] <==> q in ms0[j])) &&
    (changed <==> exists q :: 0 <= q < r && !Settled(rows, atts, ms0, cs, q)) &&
    (!changed ==> ms == ms0)
  }

  /** Before the first row nothing has moved. */
  lemma ScanStarts(rows: seq<seq<Value>>, atts: seq<Attribute>, cs: seq<seq<Value>>, ms0: seq<set<int>>)
    requires WellFormedData(rows, atts) && |cs| > 0 && AllCompatible(atts, cs)
    requires |ms0| == |cs| && Disjoint(ms0)
    ensures Scanned(rows, atts, cs, ms0, ms0, 0, false)
  {
  }

  /** Moving row r to its nearest cluster extends the scan by one row. */
  lemma ScanStep(rows: seq<seq<Value>>, atts: seq<Attribute>, cs: seq<seq<Value>>,
                 ms0: seq<set<int>>, ms: seq<set<int>>, r: int, changed: bool)
    requires WellFormedData(rows, atts) && |cs| > 0 && AllCompatible(atts, cs) && 0 <= r < |rows|
    requires Scanned(rows, atts, cs, ms0, ms, r, changed)
    ensures Compatible(atts, rows[r])
    ensures var b := Nearest(atts, rows[r], cs);
      Scanned(rows, atts, cs, ms0, Moved(ms, r, b), r + 1, changed || r !in ms[b])
  {
    assert Compatible(atts, rows[r]);
    var b := Nearest(atts, rows[r], cs);
    var ms' := Moved(ms, r, b);
    MovedDisjoint(ms, r, b);
    MovedSettles(rows, atts, ms, cs, r);
    forall q | 0 <= q < r
      ensures Settled(rows, atts, ms', cs, q)
    {
      assert Settled(rows, atts, ms, cs, q);
    }
    SettledIffHeld(rows, atts, ms, cs, r);
    assert Settled(rows, atts, ms, cs, r) <==> Settled(rows, atts, ms0, cs, r);
    if !changed && r in ms[b] {
      MovedInPlace(ms, r, b);
    }
  }

  /** After the last row every row is settled, and a change was seen exactly when some row was not settled before. */
  lemma ScanEnds(rows: seq<seq<Value>>, atts: seq<Attribute>, cs: seq<seq<Value>>,
                 ms0: seq<set<int>>, ms: seq<set<int>>, changed: bool)
    requires WellFormedData(rows, atts) && |cs| > 0 && AllCompatible(atts, cs)
    requires Scanned(rows, atts, cs, ms0, ms, |rows|, changed)
    ensures Disjoint(ms) && AtNearest(rows, atts, ms, cs)
    ensures changed <==> !AtNearest(rows, atts, ms0, cs)
    ensures !changed ==> ms == ms0
  {
  }

  /**
   * A centroid recomputed from a cluster whose prototypes are all defined is
   * left as it is by recomputing it again from the same cluster.
   */
  lemma RecomputedStable(rows: seq<seq<Value>>, atts: seq<Attribute>, p: seq<Value>, c: seq<Value>, ids: set<int>)
    requires WellFormedData(rows, atts) && IdsIn(ids, |rows|) && |p| == |atts| && Compatible(atts, c)
    requires PrototypesDefined(atts, ids) && c == Recomputed(p, rows, atts, ids)
    ensures Recomputed(c, rows, atts, ids) == c
  {
    RecomputedCentroid(c, p, rows, atts, ids);
  }

  // ---------------------------------------------------------------------------
  // The passes of the loop, stated on plain values
  // ---------------------------------------------------------------------------

  /** Every draw of the sample names a row, and there is at least one. */
  predicate SeedsIn(seeds: seq<int>, n: int) {
    |seeds| > 0 && forall j :: 0 <= j < |seeds| ==> 0 <= seeds[j] < n
  }

  /** Every centroid is a well-formed tuple over atts whose numbers lie in their columns' ranges. */
  predicate CentroidsOver(atts: seq<Attribute>, cs: seq<seq<Value>>) {
    |cs| > 0 && AllCompatible(atts, cs) && forall j :: 0 <= j < |cs| ==> AllInRange(atts, cs[j])
  }

  /** The first centroids: the rows the sample chose, in sample order. */
  ghost function Seeds(rows: seq<seq<Value>>, atts: seq<Attribute>, seeds: seq<int>): (cs: seq<seq<Value>>)
    requires WellFormedData(rows, atts) && SeedsIn(seeds, |rows|)
    ensures |cs| == |seeds| && CentroidsOver(atts, cs)
    ensures forall j :: 0 <= j < |seeds| ==> cs[j] == rows[seeds[j]]
  {
    assert forall j :: 0 <= j < |seeds| ==> Compatible(atts, rows[seeds[j]]);
    seq(|seeds|, j requires 0 <= j < |seeds| => rows[seeds[j]])
  }

  /** The clusters of the rows around the centroids cs: each row joins its nearest centroid. */
  ghost function Assign(rows: seq<seq<Value>>, atts: seq<Attribute>, cs: seq<seq<Value>>): (ms: seq<set<int>>)
    requires WellFormedData(rows, atts) && |cs| > 0 && AllCompatible(atts, cs)
    ensures |ms| == |cs| && MembersIn(ms, |rows|)
  {
    seq(|cs|, j requires 0 <= j < |cs| =>
      set r | 0 <= r < |rows| && Nearest(atts, rows[r], cs) == j)
  }

  /** The assigned clusters put every row at its nearest centroid. */
  lemma AssignedAtNearest(rows: seq<seq<Value>>, atts: seq<Attribute>, cs: seq<seq<Value>>)
    requires WellFormedData(rows, atts) && |cs| > 0 && AllCompatible(atts, cs)
    ensures AtNearest(rows, atts, Assign(rows, atts, cs), cs)
  {
    var ms := Assign(rows, atts, cs);
    forall r | 0 <= r < |rows|
      ensures Settled(rows, atts, ms, cs, r)
    {
      assert Compatible(atts, rows[r]);
    }
  }

  /** Clusters of the rows sit at their nearest centroids exactly when they are the assigned ones. */
  lemma AtNearestIffAssigned(rows: seq<seq<Value>>, atts: seq<Attribute>, ms: seq<set<int>>, cs: seq<seq<Value>>)
    requires WellFormedData(rows, atts) && |cs| > 0 && AllCompatible(atts, cs)
    requires |ms| == |cs| && MembersIn(ms, |rows|)
    ensures AtNearest(rows, atts, ms, cs) <==> ms == Assign(rows, atts, cs)
  {
    AssignedAtNearest(rows, atts, cs);
    if AtNearest(rows, atts, ms, cs) {
      AtNearestDetermines(rows, atts, ms, Assign(rows, atts, cs), cs);
    }
  }

  /** One pass: every centroid recomputed from the rows nearest to it. */
  ghost function Step(rows: seq<seq<Value>>, atts: seq<Attribute>, cs: seq<seq<Value>>): (cs': seq<seq<Value>>)
    requires WellFormedData(rows, atts) && CentroidsOver(atts, cs)
    ensures |cs'| == |cs| && CentroidsOver(atts, cs')
    ensures forall j :: 0 <= j < |cs| ==> cs'[j] == Recomputed(cs[j], rows, atts, Assign(rows, atts, cs)[j])
  {
    var ms := Assign(rows, atts, cs);
    forall j | 0 <= j < |cs|
      ensures Compatible(atts, Recomputed(cs[j], rows, atts, ms[j]))
      ensures AllInRange(atts, Recomputed(cs[j], rows, atts, ms[j]))
    {
      RecomputedCompatible(cs[j], rows, atts, ms[j]);
    }
    seq(|cs|, j requires 0 <= j < |cs| => Recomputed(cs[j], rows, atts, ms[j]))
  }

  /** The centroids after n passes from the sampled rows. */
  ghost function Lloyd(rows: seq<seq<Value>>, atts: seq<Attribute>, seeds: seq<int>, n: nat): (cs: seq<seq<Value>>)
    requires WellFormedData(rows, atts) && SeedsIn(seeds, |rows|)
    ensures |cs| == |seeds| && CentroidsOver(atts, cs)
  {
    if n == 0 then Seeds(rows, atts, seeds) else Step(rows, atts, Lloyd(rows, atts, seeds, n - 1))
  }

  /**
   * The clusters after n passes from the sampled rows: empty before the
   * first pass, then the clusters of the centroids the last pass started from.
   */
  ghost function ClustersAfter(rows: seq<seq<Value>>, atts: seq<Attribute>, seeds: seq<int>, n: nat): (ms: seq<set<int>>)
    requires WellFormedData(rows, atts) && SeedsIn(seeds, |rows|)
    ensures |ms| == |seeds| && MembersIn(ms, |rows|)
  {
    if n == 0 then seq(|seeds|, j => {}) else Assign(rows, atts, Lloyd(rows, atts, seeds, n - 1))
  }

  /** Pass m moves no row: it leaves the clusters as it found them. */
  ghost predicate Unmoved(rows: seq<seq<Value>>, atts: seq<Attribute>, seeds: seq<int>, m: nat)
    requires WellFormedData(rows, atts) && SeedsIn(seeds, |rows|)
  {
    m >= 1 && ClustersAfter(rows, atts, seeds, m - 1) == ClustersAfter(rows, atts, seeds, m)
  }

  /** The first pass moves a row: the first row joins a cluster, and all were empty. */
  lemma FirstPassMoves(rows: seq<seq<Value>>, atts: seq<Attribute>, seeds: seq<int>)
    requires WellFormedData(rows, atts) && SeedsIn(seeds, |rows|)
    ensures !Unmoved(rows, atts, seeds, 1)
  {
    var cs := Lloyd(rows, atts, seeds, 0);
    assert 0 <= seeds[0] < |rows| && Compatible(atts, rows[0]);
    var b := Nearest(atts, rows[0], cs);
    assert 0 in ClustersAfter(rows, atts, seeds, 1)[b];
    assert 0 !in ClustersAfter(rows, atts, seeds, 0)[b];
  }

  /** Every prototype of every cluster is defined. */
  predicate AllDefined(atts: seq<Attribute>, ms: seq<set<int>>) {
    forall j :: 0 <= j < |ms| ==> PrototypesDefined(atts, ms[j])
  }

  /** After pass m every prototype is defined; before the first pass there is nothing to define. */
  ghost predicate DefinedAt(rows: seq<seq<Value>>, atts: seq<Attribute>, seeds: seq<int>, m: nat)
    requires WellFormedData(rows, atts) && SeedsIn(seeds, |rows|)
  {
    m == 0 || AllDefined(atts, ClustersAfter(rows, atts, seeds, m))
  }

  /** Pass m lets the loop go on: it left every prototype defined and moved some row. */
  ghost predicate GoesOn(rows: seq<seq<Value>>, atts: seq<Attribute>, seeds: seq<int>, m: nat)
    requires WellFormedData(rows, atts) && SeedsIn(seeds, |rows|)
  {
    DefinedAt(rows, atts, seeds, m) && !Unmoved(rows, atts, seeds, m)
  }

  /**
   * How a loop of passes ends from where it stands after n passes, given for
   * every pass m of the budget whether it left every prototype defined
   * (defined[m]) and whether it moved no row (still[m]): a pass that leaves a
   * prototype undefined ends it with UndefinedPrototype, else a pass that
   * moves no row ends it with its count, else a budget used up ends it with
   * NoConvergence.
   */
  function Ends(defined: seq<bool>, still: seq<bool>, n: nat): (r: Result<nat>)
    requires |defined| == |still| && n < |defined|
    ensures r.Ok? ==> n <= r.value < |defined|
    ensures r.Err? ==> r.error == NoConvergence || r.error == UndefinedPrototype
    decreases |defined| - n
  {
    if !defined[n] then Err(UndefinedPrototype)
    else if still[n] then Ok(n)
    else if n + 1 == |defined| then Err(NoConvergence)
    else Ends(defined, still, n + 1)
  }

  lemma {:induction false} EndsOk(defined: seq<bool>, still: seq<bool>, n: nat, k: nat)
    requires |defined| == |still| && n < |defined|
    ensures Ends(defined, still, n) == Ok(k) <==>
      n <= k < |defined| && defined[k] && still[k] && forall m :: n <= m < k ==> defined[m] && !still[m]
    decreases |defined| - n
  {
    if defined[n] && !still[n] && n + 1 < |defined| {
      EndsOk(defined, still, n + 1, k);
    }
  }

  lemma {:induction false} EndsNoConvergence(defined: seq<bool>, still: seq<bool>, n: nat)
    requires |defined| == |still| && n < |defined|
    ensures Ends(defined, still, n) == Err(NoConvergence) <==>
      forall m :: n <= m < |defined| ==> defined[m] && !still[m]
    decreases |defined| - n
  {
    if defined[n] && !still[n] && n + 1 < |defined| {
      EndsNoConvergence(defined, still, n + 1);
    }
  }

  lemma {:induction false} EndsUndefined(defined: seq<bool>, still: seq<bool>, n: nat)
    requires |defined| == |still| && n < |defined|
    ensures Ends(defined, still, n) == Err(UndefinedPrototype) <==>
      exists k :: n <= k < |defined| && !defined[k] && forall m :: n <= m < k ==> defined[m] && !still[m]
    decreases |defined| - n
  {
    if !defined[n] {
    } else if !still[n] && n + 1 < |defined| {
      EndsUndefined(defined, still, n + 1);
      if Ends(defined, still, n) == Err(UndefinedPrototype) {
        var k :| n + 1 <= k < |defined| && !defined[k] && forall m :: n + 1 <= m < k ==> defined[m] && !still[m];
        assert forall m :: n <= m < k ==> defined[m] && !still[m];
      }
    }
  }

  /** For every pass of the budget, whether it left every prototype defined. */
  ghost function DefinedFlags(rows: seq<seq<Value>>, atts: seq<Attribute>, seeds: seq<int>, maxPasses: nat): (d: seq<bool>)
    requires WellFormedData(rows, atts) && SeedsIn(seeds, |rows|)
    ensures |d| == maxPasses + 1 && forall m :: 0 <= m <= maxPasses ==> d[m] == DefinedAt(rows, atts, seeds, m)
  {
    seq(maxPasses + 1, m requires 0 <= m <= maxPasses => DefinedAt(rows, atts, seeds, m))
  }

  /** For every pass of the budget, whether it moved no row. */
  ghost function StillFlags(rows: seq<seq<Value>>, atts: seq<Attribute>, seeds: seq<int>, maxPasses: nat): (u: seq<bool>)
    requires WellFormedData(rows, atts) && SeedsIn(seeds, |rows|)
    ensures |u| == maxPasses + 1 && forall m :: 0 <= m <= maxPasses ==> u[m] == Unmoved(rows, atts, seeds, m)
  {
    seq(maxPasses + 1, m requires 0 <= m <= maxPasses => Unmoved(rows, atts, seeds, m))
  }

  /** How the loop ends from where it stands after n passes, with a budget of maxPasses passes. */
  ghost function RunFrom(rows: seq<seq<Value>>, atts: seq<Attribute>, seeds: seq<int>, n: nat, maxPasses: nat): Result<nat>
    requires WellFormedData(rows, atts) && SeedsIn(seeds, |rows|) && n <= maxPasses
  {
    Ends(DefinedFlags(rows, atts, seeds, maxPasses), StillFlags(rows, atts, seeds, maxPasses), n)
  }

  /** The result of the loop from the sampled rows with a budget of maxPasses passes. */
  ghost function Run(rows: seq<seq<Value>>, atts: seq<Attribute>, seeds: seq<int>, maxPasses: nat): Result<nat>
    requires WellFormedData(rows, atts) && SeedsIn(seeds, |rows|)
  {
    RunFrom(rows, atts, seeds, 0, maxPasses)
  }

  /**
   * The loop returns k exactly when pass k, within the budget, moved no row
   * and left every prototype defined, and every pass before it went on; such
   * a k is at least 2.
   */
  lemma RunOk(rows: seq<seq<Value>>, atts: seq<Attribute>, seeds: seq<int>, maxPasses: nat, k: nat)
    requires WellFormedData(rows, atts) && SeedsIn(seeds, |rows|)
    ensures Run(rows, atts, seeds, maxPasses) == Ok(k) <==>
      1 <= k <= maxPasses && DefinedAt(rows, atts, seeds, k) && Unmoved(rows, atts, seeds, k) &&
      forall m :: 1 <= m < k ==> GoesOn(rows, atts, seeds, m)
    ensures Run(rows, atts, seeds, maxPasses) == Ok(k) ==> k >= 2
  {
    var d, u := DefinedFlags(rows, atts, seeds, maxPasses), StillFlags(rows, atts, seeds, maxPasses);
    EndsOk(d, u, 0, k);
    FirstPassMoves(rows, atts, seeds);
    assert forall m :: 0 <= m < |u| && m < 2 ==> !u[m];
    if Run(rows, atts, seeds, maxPasses) == Ok(k) {
      forall m | 1 <= m < k
        ensures GoesOn(rows, atts, seeds, m)
      {
        assert d[m] && !u[m];
      }
    } else if 1 <= k <= maxPasses && DefinedAt(rows, atts, seeds, k) && Unmoved(rows, atts, seeds, k) {
      if forall m :: 1 <= m < k ==> GoesOn(rows, atts, seeds, m) {
        forall m | 0 <= m < k
          ensures d[m] && !u[m]
        {
          if m > 0 {
            assert GoesOn(rows, atts, seeds, m);
          }
        }
        assert false;
      }
    }
  }

  /** The loop fails with NoConvergence exactly when every pass of the budget went on. */
  lemma RunNoConvergence(rows: seq<seq<Value>>, atts: seq<Attribute>, seeds: seq<int>, maxPasses: nat)
    requires WellFormedData(rows, atts) && SeedsIn(seeds, |rows|)
    ensures Run(rows, atts, seeds, maxPasses) == Err(NoConvergence) <==>
      forall m :: 1 <= m <= maxPasses ==> GoesOn(rows, atts, seeds, m)
  {
    var d, u := DefinedFlags(rows, atts, seeds, maxPasses), StillFlags(rows, atts, seeds, maxPasses);
    EndsNoConvergence(d, u, 0);
    if Run(rows, atts, seeds, maxPasses) == Err(NoConvergence) {
      forall m | 1 <= m <= maxPasses
        ensures GoesOn(rows, atts, seeds, m)
      {
        assert d[m] && !u[m];
      }
    } else if forall m :: 1 <= m <= maxPasses ==> GoesOn(rows, atts, seeds, m) {
      forall m | 0 <= m < |d|
        ensures d[m] && !u[m]
      {
        if m > 0 {
          assert GoesOn(rows, atts, seeds, m);
        }
      }
      assert false;
    }
  }

  /** The flag form and the pass form of "pass k is the first to leave a prototype undefined" agree. */
  lemma UndefinedFirstAt(rows: seq<seq<Value>>, atts: seq<Attribute>, seeds: seq<int>, maxPasses: nat, k: nat)
    requires WellFormedData(rows, atts) && SeedsIn(seeds, |rows|) && k <= maxPasses
    ensures var d, u := DefinedFlags(rows, atts, seeds, maxPasses), StillFlags(rows, atts, seeds, maxPasses);
      (!d[k] && forall m :: 0 <= m < k ==> d[m] && !u[m]) <==>
      (1 <= k && !DefinedAt(rows, atts, seeds, k) && forall m :: 1 <= m < k ==> GoesOn(rows, atts, seeds, m))
  {
    var d, u := DefinedFlags(rows, atts, seeds, maxPasses), StillFlags(rows, atts, seeds, maxPasses);
    if 1 <= k && forall m :: 1 <= m < k ==> GoesOn(rows, atts, seeds, m) {
      forall m | 0 <= m < k
        ensures d[m] && !u[m]
      {
        if m > 0 {
          assert GoesOn(rows, atts, seeds, m);
        }
      }
    }
  }

  /**
   * The loop fails with UndefinedPrototype exactly when some pass of the
   * budget left a prototype undefined and every pass before it went on.
   */
  lemma RunUndefined(rows: seq<seq<Value>>, atts: seq<Attribute>, seeds: seq<int>, maxPasses: nat)
    requires WellFormedData(rows, atts) && SeedsIn(seeds, |rows|)
    ensures Run(rows, atts, seeds, maxPasses) == Err(UndefinedPrototype) <==>
      exists k :: 1 <= k <= maxPasses && !DefinedAt(rows, atts, seeds, k) && forall m :: 1 <= m < k ==> GoesOn(rows, atts, seeds, m)
  {
    var d, u := DefinedFlags(rows, atts, seeds, maxPasses), StillFlags(rows, atts, seeds, maxPasses);
    EndsUndefined(d, u, 0);
    forall k | 0 <= k <= maxPasses
      ensures (!d[k] && forall m :: 0 <= m < k ==> d[m] && !u[m]) <==>
        (1 <= k && !DefinedAt(rows, atts, seeds, k) && forall m :: 1 <= m < k ==> GoesOn(rows, atts, seeds, m))
    {
      UndefinedFirstAt(rows, atts, seeds, maxPasses, k);
    }
  }

  /**
   * The loop stopped after n passes at a pass that moved no row: cs are the
   * centroids of n passes, ms the clusters after n passes, every prototype of
   * them is defined, and at least two passes ran.
   */
  ghost predicate Converged(rows: seq<seq<Value>>, atts: seq<Attribute>, seeds: seq<int>, n: nat,
                            ms: seq<set<int>>, cs: seq<seq<Value>>)
  {
    WellFormedData(rows, atts) && SeedsIn(seeds, |rows|) && n >= 2 &&
    cs == Lloyd(rows, atts, seeds, n) && ms == ClustersAfter(rows, atts, seeds, n) &&
    Unmoved(rows, atts, seeds, n) && AllDefined(atts, ms)
  }

  /**
   * Where the loop stands after n passes from the sample with a budget of
   * maxPasses: cs are the centroids of n passes and ms the clusters after n
   * passes; the loop sees a change exactly when pass n moved some row, sees
   * every prototype defined exactly when pass n left them so, and ends as
   * RunFrom says it ends from here.
   */
  ghost predicate Reached(rows: seq<seq<Value>>, atts: seq<Attribute>, seeds: seq<int>, maxPasses: nat, n: nat,
                          ms: seq<set<int>>, cs: seq<seq<Value>>, changed: bool, defined: bool)
  {
    WellFormedData(rows, atts) && SeedsIn(seeds, |rows|) &&
    cs == Lloyd(rows, atts, seeds, n) &&
    ms == ClustersAfter(rows, atts, seeds, n) &&
    (changed <==> !Unmoved(rows, atts, seeds, n)) &&
    (defined <==> DefinedAt(rows, atts, seeds, n)) &&
    n <= maxPasses && Run(rows, atts, seeds, maxPasses) == RunFrom(rows, atts, seeds, n, maxPasses)
  }

  /**
   * One more pass from where the loop stands after n passes and goes on: the
   * rows are assigned to the current centroids, the centroids are recomputed
   * from those clusters, a change is seen exactly when the clusters differ
   * from the old ones, and the loop then stands after n' = n + 1 passes.
   */
  lemma LloydPass(rows: seq<seq<Value>>, atts: seq<Attribute>, seeds: seq<int>, maxPasses: nat, n: nat, n': nat,
                  members: seq<set<int>>, before: seq<seq<Value>>, ms: seq<set<int>>, cs: seq<seq<Value>>,
                  changed: bool, defined: bool)
    requires WellFormedData(rows, atts) && SeedsIn(seeds, |rows|) && n' == n + 1 && n < maxPasses
    requires Reached(rows, atts, seeds, maxPasses, n, members, before, true, true)
    requires CentroidsOver(atts, before) && ms == Assign(rows, atts, before) && cs == Step(rows, atts, before)
    requires changed <==> members != ms
    requires defined <==> AllDefined(atts, ms)
    ensures Reached(rows, atts, seeds, maxPasses, n', ms, cs, changed, defined)
  {
  }

  /** Where the loop stops, it returns what Run says. */
  lemma RunEnds(rows: seq<seq<Value>>, atts: seq<Attribute>, seeds: seq<int>, maxPasses: nat, n: nat,
                ms: seq<set<int>>, cs: seq<seq<Value>>, changed: bool, defined: bool)
    requires WellFormedData(rows, atts) && SeedsIn(seeds, |rows|)
    requires Reached(rows, atts, seeds, maxPasses, n, ms, cs, changed, defined)
    requires !(changed && defined && n < maxPasses)
    ensures Run(rows, atts, seeds, maxPasses) ==
      if !defined then Err(UndefinedPrototype) else if !changed then Ok(n) else Err(NoConvergence)
  {
  }

  /**
   * Once the loop has converged after n passes and every prototype of the
   * clusters is defined, the centroids stop changing: they are those of the
   * pass before, the rows sit at them, and recomputing any of them gives it
   * back.
   */
  lemma LloydSettles(rows: seq<seq<Value>>, atts: seq<Attribute>, seeds: seq<int>, n: nat,
                     ms: seq<set<int>>, cs: seq<seq<Value>>)
    requires Converged(rows, atts, seeds, n, ms, cs)
    ensures cs == Lloyd(rows, atts, seeds, n - 1)
    ensures AtNearest(rows, atts, ms, cs) && forall j :: 0 <= j < |cs| ==> cs[j] == Recomputed(cs[j], rows, atts, ms[j])
  {
    var a, b, c := Lloyd(rows, atts, seeds, n - 2), Lloyd(rows, atts, seeds, n - 1), Lloyd(rows, atts, seeds, n);
    assert b == Step(rows, atts, a) && c == Step(rows, atts, b);
    assert Assign(rows, atts, a) == ms;
    forall j | 0 <= j < |seeds|
      ensures c[j] == b[j]
    {
      assert b[j] == Recomputed(a[j], rows, atts, ms[j]) && j < |ms|;
      RecomputedStable(rows, atts, a[j], b[j], ms[j]);
    }
    assert c == b;
    AssignedAtNearest(rows, atts, b);
  }

  class KMeansMiner {
    const C: ClusterSet

    /** A miner for k clusters, none computed yet. */
    constructor (k: nat)
      ensures fresh(C) && fresh(C.C) && C.C.Length == k && C.i == 0 && C.Valid()
    {
      C := new ClusterSet(k);
    }

    /** A miner for k clusters; a negative k is refused with OutOfRangeSampleSize. */
    static method Create(k: int) returns (r: Result<KMeansMiner>)
      ensures r.Err? <==> k < 0
      ensures r.Err? ==> r.error == OutOfRangeSampleSize
      ensures r.Ok? ==> fresh(r.value) && fresh(r.value.C) && fresh(r.value.C.C)
      ensures r.Ok? ==> r.value.C.C.Length == k && r.value.C.i == 0 && r.value.C.Valid()
    {
      if k < 0 {
        return Err(OutOfRangeSampleSize);
      }
      var m := new KMeansMiner(k);
      return Ok(m);
    }

    function GetC(): (c: ClusterSet)
      ensures c == C
    {
      C
    }

    /**
     * Moves row id to the cluster of its nearest centroid: the nearest
     * cluster gains it and, if it did not hold it already, the cluster that
     * held it loses it. Reports whether the nearest cluster gained it.
     */
    method MoveRow(data: Data, id: int) returns (currentChange: bool)
      requires C.Ready(data) && Disjoint(C.Members()) && 0 <= id < |data.data|
      modifies C.Clusters()
      ensures C.Ready(data) && C.Centroids() == old(C.Centroids()) && C.Schemas() == old(C.Schemas())
      ensures Compatible(data.attributeSet, data.data[id])
      ensures var b := Nearest(data.attributeSet, data.data[id], C.Centroids());
        C.Members() == Moved(old(C.Members()), id, b) && (currentChange <==> id !in old(C.Members())[b])
    {
      ghost var ms, cs := C.Members(), C.Centroids();
      assert Compatible(data.attributeSet, data.data[id]);
      ghost var b := Nearest(data.attributeSet, data.data[id], cs);
      var nearestCluster, oldCluster := Locate(data, id);
      currentChange := Shift(data, id, b, nearestCluster, oldCluster);
    }

    /** The cluster nearest to row id and the first cluster holding it, if any. */
    method Locate(data: Data, id: int) returns (nearestCluster: Cluster, oldCluster: Cluster?)
      requires C.Ready(data) && 0 <= id < |data.data|
      ensures C.Ready(data) && C.Centroids() == old(C.Centroids()) && C.Schemas() == old(C.Schemas())
      ensures C.Members() == old(C.Members())
      ensures Compatible(data.attributeSet, data.data[id])
      ensures nearestCluster == C.C[Nearest(data.attributeSet, data.data[id], C.Centroids())]
      ensures var f := FirstWith(C.Members(), id); if f < 0 then oldCluster == null else oldCluster == C.C[f]
    {
      label start:
      var tuple := data.GetItemSet(id);
      C.AllKept@start();
      assert Compatible(data.attributeSet, data.data[id]);
      label located:
      nearestCluster := C.NearestCluster(tuple);
      C.AllKept@located();
      assert tuple.Values() == data.data[id] && tuple.Attributes() == data.attributeSet;
      oldCluster := C.CurrentCluster(id);
      C.ReadyKept@located(data);
    }

    /**
     * Adds id to the nearest cluster and, when that cluster did not hold it,
     * removes it from the cluster that did.
     */
    method Shift(ghost data: Data, id: int, ghost b: nat, nearestCluster: Cluster, oldCluster: Cluster?) returns (currentChange: bool)
      requires C.Ready(data) && 0 <= id < |data.data|
      requires b < C.i && nearestCluster == C.C[b] && Disjoint(C.Members())
      requires var f := FirstWith(C.Members(), id); if f < 0 then oldCluster == null else oldCluster == C.C[f]
      modifies nearestCluster, oldCluster
      ensures C.Ready(data) && C.Centroids() == old(C.Centroids()) && C.Schemas() == old(C.Schemas())
      ensures C.Members() == Moved(old(C.Members()), id, b)
      ensures currentChange <==> id !in old(C.Members())[b]
    {
      ghost var ms := C.Members();
      ghost var f := FirstWith(ms, id);
      label located:
      currentChange := nearestCluster.AddData(id);
      if currentChange && oldCluster != null {
        oldCluster.RemoveTuple(id);
      }
      C.CentroidsKept@located();
      ghost var moved := Moved(ms, id, b);
      forall j | 0 <= j < |ms|
        ensures C.Members()[j] == moved[j]
      {
        if j != b && j != f {
          assert id !in ms[j];
        }
      }
      MovedIn(ms, id, b, |data.data|);
      C.ReadyKept@located(data);
    }

    /**
     * One pass over the rows in index order, each moved to the cluster of its
     * nearest centroid; reports whether some row changed cluster.
     */
    method Reassign(data: Data) returns (changedCluster: bool)
      requires C.Ready(data) && Disjoint(C.Members())
      modifies C.Clusters()
      ensures C.Ready(data) && C.Centroids() == old(C.Centroids()) && C.Schemas() == old(C.Schemas())
      ensures Disjoint(C.Members()) && AtNearest(data.data, data.attributeSet, C.Members(), C.Centroids())
      ensures changedCluster <==> !AtNearest(data.data, data.attributeSet, old(C.Members()), C.Centroids())
      ensures !changedCluster ==> C.Members() == old(C.Members())
      ensures C.Clusters() == old(C.Clusters()) && C.AllItems() == old(C.AllItems())
    {
      label start:
      ghost var rows, atts, cs, ss, ms0 := data.data, data.attributeSet, C.Centroids(), C.Schemas(), C.Members();
      ScanStarts(rows, atts, cs, ms0);
      changedCluster := false;
      var n := data.GetNumberOfExamples();
      for r := 0 to n
        invariant C.Ready(data) && C.Centroids() == cs && C.Schemas() == ss
        invariant Scanned(rows, atts, cs, ms0, C.Members(), r, changedCluster)
      {
        ghost var ms := C.Members();
        ScanStep(rows, atts, cs, ms0, ms, r, changedCluster);
        var currentChange := MoveRow(data, r);
        if currentChange {
          changedCluster := true;
        }
      }
      ScanEnds(rows, atts, cs, ms0, C.Members(), changedCluster);
      C.FootprintKept@start();
    }

    /**
     * One pass of the loop: every row moves to the cluster of its nearest
     * centroid, then every centroid is recomputed from its cluster's rows. The
     * clusters become those Assign gives for the old centroids and the
     * centroids those Step gives; a change is reported exactly when the
     * clusters differ from the old ones, and allDefined tells whether every
     * prototype of the new clusters is defined.
     */
    method Pass(data: Data, ghost members: seq<set<int>>, ghost before: seq<seq<Value>>)
      returns (changedCluster: bool, allDefined: bool, ghost ms: seq<set<int>>, ghost cs: seq<seq<Value>>)
      requires C.Ready(data) && Disjoint(C.Members())
      requires members == C.Members() && before == C.Centroids()
      modifies C.Clusters(), C.AllItems()
      ensures C.Ready(data) && Disjoint(C.Members())
      ensures C.Clusters() == old(C.Clusters()) && C.AllItems() == old(C.AllItems())
      ensures ms == C.Members() && cs == C.Centroids() && CentroidsOver(data.attributeSet, before)
      ensures ms == Assign(data.data, data.attributeSet, before) && cs == Step(data.data, data.attributeSet, before)
      ensures changedCluster <==> members != ms
      ensures allDefined <==> AllDefined(data.attributeSet, ms)
    {
      ghost var rows, atts := data.data, data.attributeSet;
      assert CentroidsOver(atts, before);
      changedCluster := Reassign(data);
      ms := C.Members();
      AtNearestIffAssigned(rows, atts, ms, before);
      AtNearestIffAssigned(rows, atts, members, before);
      allDefined := C.UpdateCentroids(data);
      cs := C.Centroids();
    }

    /**
     * The loop of passes, from the sampled centroids with empty clusters: it
     * stops at the first pass that moves no row, at a pass whose clusters
     * leave a prototype undefined, or after maxPasses passes, and returns
     * what Run says.
     */
    method Iterate(data: Data, ghost seeds: seq<int>, maxPasses: nat)
      returns (r: Result<nat>, ghost ms: seq<set<int>>, ghost cs: seq<seq<Value>>)
      requires C.Ready(data) && Disjoint(C.Members())
      requires SeedsIn(seeds, |data.data|) && |seeds| == C.i
      requires Reached(data.data, data.attributeSet, seeds, maxPasses, 0, C.Members(), C.Centroids(), true, true)
      modifies C.Clusters(), C.AllItems()
      ensures C.Clusters() == old(C.Clusters()) && C.AllItems() == old(C.AllItems())
      ensures C.Ready(data) && Disjoint(C.Members()) && ms == C.Members() && cs == C.Centroids()
      ensures r == Run(data.data, data.attributeSet, seeds, maxPasses)
      ensures r.Ok? ==> Reached(data.data, data.attributeSet, seeds, maxPasses, r.value, ms, cs, false, true)
    {
      ghost var rows, atts := data.data, data.attributeSet;
      ms, cs := C.Members(), C.Centroids();
      var numberOfIterations: nat := 0;
      ghost var passes: nat := 0;
      var changedCluster, allDefined := true, true;
      while changedCluster && allDefined && numberOfIterations < maxPasses
        invariant C.Ready(data) && Disjoint(C.Members())
        invariant C.Clusters() == old(C.Clusters()) && C.AllItems() == old(C.AllItems())
        invariant numberOfIterations <= maxPasses && |seeds| == C.i
        invariant ms == C.Members() && cs == C.Centroids()
        invariant passes == numberOfIterations
        invariant Reached(rows, atts, seeds, maxPasses, passes, ms, cs, changedCluster, allDefined)
        decreases maxPasses - numberOfIterations
      {
        changedCluster, allDefined, ms, cs, passes := Round(data, seeds, maxPasses, passes, ms, cs);
        numberOfIterations := numberOfIterations + 1;
      }
      RunEnds(rows, atts, seeds, maxPasses, passes, ms, cs, changedCluster, allDefined);
      if !allDefined {
        r := Err(UndefinedPrototype);
      } else if changedCluster {
        r := Err(NoConvergence);
      } else {
        r := Ok(numberOfIterations);
      }
    }

    /**
     * One pass of the loop seen against the passes on plain values: from
     * where the loop stands after n passes and goes on, it stands after n + 1.
     */
    method Round(data: Data, ghost seeds: seq<int>, ghost maxPasses: nat, ghost n: nat,
                 ghost members: seq<set<int>>, ghost before: seq<seq<Value>>)
      returns (changedCluster: bool, allDefined: bool, ghost ms: seq<set<int>>, ghost cs: seq<seq<Value>>, ghost n': nat)
      requires C.Ready(data) && Disjoint(C.Members())
      requires SeedsIn(seeds, |data.data|) && |seeds| == C.i && n < maxPasses
      requires members == C.Members() && before == C.Centroids()
      requires Reached(data.data, data.attributeSet, seeds, maxPasses, n, members, before, true, true)
      modifies C.Clusters(), C.AllItems()
      ensures C.Ready(data) && Disjoint(C.Members())
      ensures C.Clusters() == old(C.Clusters()) && C.AllItems() == old(C.AllItems())
      ensures ms == C.Members() && cs == C.Centroids()
      ensures n' == n + 1
      ensures Reached(data.data, data.attributeSet, seeds, maxPasses, n', ms, cs, changedCluster, allDefined)
    {
      n' := n + 1;
      ghost var rows, atts := data.data, data.attributeSet;
      changedCluster, allDefined, ms, cs := Pass(data, members, before);
      LloydPass(rows, atts, seeds, maxPasses, n, n', members, before, ms, cs, changedCluster, allDefined);
    }

    /**
     * Runs K-Means over data with the given random draws: samples the first
     * centroids, then repeats passes until one moves no row, and returns the
     * number of passes. Failing to sample is reported as sampling reports it;
     * more than maxPasses passes give NoConvergence, and a prototype that
     * cannot be computed gives UndefinedPrototype.
     */
    method KMeans(data: Data, draws: seq<int>, maxPasses: nat) returns (r: Result<nat>)
      requires data.Valid() && DrawsIn(draws, |data.data|) && C.Valid() && C.i == 0
      modifies C, C.C
      ensures var s := Sample(data.data, draws, C.C.Length);
        (s.Err? ==> r == Err(s.error)) &&
        (s.Ok? ==> r == Run(data.data, data.attributeSet, s.value, maxPasses))
      ensures r.Ok? ==> 2 <= r.value <= maxPasses && C.Ready(data) && Disjoint(C.Members())
      ensures r.Ok? ==> AtNearest(data.data, data.attributeSet, C.Members(), C.Centroids())
      ensures r.Ok? ==> forall j :: 0 <= j < C.i ==>
        PrototypesDefined(data.attributeSet, C.Members()[j]) &&
        C.Centroids()[j] == Recomputed(C.Centroids()[j], data.data, data.attributeSet, C.Members()[j])
      ensures var s := Sample(data.data, draws, C.C.Length);
        s.Ok? && r.Ok? ==> Converged(data.data, data.attributeSet, s.value, r.value, C.Members(), C.Centroids())
    {
      var init := C.InitializeCentroids(data, draws);
      if init.Fail? {
        return Err(init.error);
      }
      ghost var rows, atts := data.data, data.attributeSet;
      ghost var seeds := Sample(rows, draws, C.C.Length).value;
      assert C.Centroids() == Lloyd(rows, atts, seeds, 0);
      assert C.Members() == ClustersAfter(rows, atts, seeds, 0);
      assert Reached(rows, atts, seeds, maxPasses, 0, C.Members(), C.Centroids(), true, true);
      ghost var ms, cs;
      r, ms, cs := Iterate(data, seeds, maxPasses);
      if r.Ok? {
        RunOk(rows, atts, seeds, maxPasses, r.value);
        LloydSettles(rows, atts, seeds, r.value, ms, cs);
      }
    }
  }
}
