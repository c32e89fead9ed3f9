/**
 * What the dataset's operations compute, stated on plain values: the shape of
 * a dataset, the frequency of a discrete value, the mode and the mean used as
 * prototypes, and which random draws the sampling keeps.
 */
module DataSpec {
  import opened Attributes
  import opened Results

  /**
   * The dataset as the ingestion layer builds it: attribute c sits at column c,
   * every row has one value of the right kind per attribute, every continuous
   * value lies within its column's [min, max] and every discrete value belongs
   * to its column's domain.
   */
  predicate WellFormedData(rows: seq<seq<Value>>, atts: seq<Attribute>) {
    (forall c :: 0 <= c < |atts| ==> atts[c].index == c && WellFormed(atts[c])) &&
    (forall r :: 0 <= r < |rows| ==> Compatible(atts, rows[r])) &&
    (forall r, c :: 0 <= r < |rows| && 0 <= c < |atts| && |rows[r]| == |atts| ==>
       InRange(atts[c], rows[r][c]) && InDomain(atts[c], rows[r][c]))
  }

  /** An attribute of a well-formed dataset sits at the column its index names. */
  lemma OwnedColumn(rows: seq<seq<Value>>, atts: seq<Attribute>, a: Attribute)
    requires WellFormedData(rows, atts) && a in atts
    ensures 0 <= a.index < |atts| && atts[a.index] == a
  {
    var c :| 0 <= c < |atts| && atts[c] == a;
  }

  /** A non-empty set has an element. */
  lemma NonEmptyHasElement(s: set<int>)
    requires s != {}
    ensures exists r :: r in s
  {
    if forall r :: r !in s {
      assert false;
    }
  }

  /** Some element of a non-empty set. */
  ghost function Pick(s: set<int>): (r: int)
    requires s != {}
    ensures r in s
  {
    NonEmptyHasElement(s);
    var r :| r in s; r
  }

  /** Every id names a row. */
  predicate IdsIn(ids: set<int>, n: int) {
    forall r :: r in ids ==> 0 <= r < n
  }

  // ---------------------------------------------------------------------------
  // Frequency of a discrete value
  // ---------------------------------------------------------------------------

  /** The ids whose row holds the string v in column col. */
  function Matching(rows: seq<seq<Value>>, ids: set<int>, col: int, v: string): set<int> {
    set r | r in ids && 0 <= r < |rows| && 0 <= col < |rows[r]| && rows[r][col] == Discrete(v)
  }

  /** How many of the ids hold v in column col. */
  function Count(rows: seq<seq<Value>>, ids: set<int>, col: int, v: string): (n: nat)
    ensures n <= |ids|
    ensures ids == {} ==> n == 0
  {
    var m := Matching(rows, ids, col, v);
    assert m <= ids;
    SubsetCardinality(m, ids);
    |m|
  }

  lemma SubsetCardinality(a: set<int>, b: set<int>)
    requires a <= b
    ensures |a| <= |b|
  {
    assert b == a + (b - a);
  }

  /** Adding one more id to the counted ones adds one exactly when its row matches. */
  lemma CountAddOne(rows: seq<seq<Value>>, ids: set<int>, col: int, v: string, r: int)
    requires r !in ids
    ensures Count(rows, ids + {r}, col, v) ==
      Count(rows, ids, col, v) + (if 0 <= r < |rows| && 0 <= col < |rows[r]| && rows[r][col] == Discrete(v) then 1 else 0)
  {
    var before, after := Matching(rows, ids, col, v), Matching(rows, ids + {r}, col, v);
    if 0 <= r < |rows| && 0 <= col < |rows[r]| && rows[r][col] == Discrete(v) {
      assert after == before + {r};
    } else {
      assert after == before;
    }
  }

  /** The frequency of each domain value, in domain order. */
  function Frequencies(rows: seq<seq<Value>>, ids: set<int>, col: int, values: seq<string>): (fs: seq<nat>)
    ensures |fs| == |values|
    ensures forall j :: 0 <= j < |values| ==> fs[j] == Count(rows, ids, col, values[j])
  {
    seq(|values|, j requires 0 <= j < |values| => Count(rows, ids, col, values[j]))
  }

  // ---------------------------------------------------------------------------
  // Mode: the first strictly maximal frequency
  // ---------------------------------------------------------------------------

  /**
   * Scanning fs from the front and keeping a candidate only on a strictly larger
   * count (starting from 0), the index finally kept; -1 when no count exceeds 0.
   */
  function FirstStrictMax(fs: seq<nat>): (b: int)
    ensures -1 <= b < |fs|
    ensures b == -1 <==> forall j :: 0 <= j < |fs| ==> fs[j] == 0
    ensures b >= 0 ==> fs[b] > 0
    ensures b >= 0 ==> forall j :: 0 <= j < |fs| ==> fs[j] <= fs[b]
    ensures b >= 0 ==> forall j :: 0 <= j < b ==> fs[j] < fs[b]
  {
    if |fs| == 0 then -1
    else
      var n := |fs| - 1;
      var b := FirstStrictMax(fs[..n]);
      var best := if b < 0 then 0 else fs[b];
      if fs[n] > best then n else b
  }

  /**
   * Prototype of a discrete attribute: the domain value of largest frequency,
   * the first one in domain order on a tie, and "" when every frequency is 0.
   */
  function DiscretePrototype(rows: seq<seq<Value>>, ids: set<int>, a: Attribute): string
    requires a.DiscreteAttribute?
  {
    var b := FirstStrictMax(Frequencies(rows, ids, a.index, a.values));
    if b < 0 then "" else a.values[b]
  }

  /**
   * The discrete prototype is either "" with every frequency 0, or the domain
   * value of maximal, positive frequency that comes first in domain order.
   */
  lemma DiscretePrototypeIsFirstMode(rows: seq<seq<Value>>, ids: set<int>, a: Attribute)
    requires a.DiscreteAttribute?
    ensures var p := DiscretePrototype(rows, ids, a);
      (p == "" && forall w :: w in a.values ==> Count(rows, ids, a.index, w) == 0) ||
      (exists b :: 0 <= b < |a.values| && p == a.values[b] &&
         Count(rows, ids, a.index, p) > 0 &&
         (forall w :: w in a.values ==> Count(rows, ids, a.index, w) <= Count(rows, ids, a.index, p)) &&
         (forall j :: 0 <= j < b ==> Count(rows, ids, a.index, a.values[j]) < Count(rows, ids, a.index, p)))
  {
    var fs := Frequencies(rows, ids, a.index, a.values);
    var b := FirstStrictMax(fs);
    if b >= 0 {
      var p := a.values[b];
      forall w | w in a.values
        ensures Count(rows, ids, a.index, w) <= Count(rows, ids, a.index, p)
      {
        var j :| 0 <= j < |a.values| && a.values[j] == w;
        assert fs[j] <= fs[b];
      }
    } else {
      forall w | w in a.values
        ensures Count(rows, ids, a.index, w) == 0
      {
        var j :| 0 <= j < |a.values| && a.values[j] == w;
        assert fs[j] == 0;
      }
    }
  }

  /**
   * Over a well-formed dataset, the discrete prototype of a non-empty id set is
   * a value of the domain that occurs in at least one of the rows.
   */
  lemma DiscretePrototypeOfNonEmptySet(rows: seq<seq<Value>>, atts: seq<Attribute>, ids: set<int>, c: int)
    requires WellFormedData(rows, atts) && IdsIn(ids, |rows|)
    requires 0 <= c < |atts| && atts[c].DiscreteAttribute?
    requires ids != {}
    ensures DiscretePrototype(rows, ids, atts[c]) in atts[c].values
    ensures Count(rows, ids, c, DiscretePrototype(rows, ids, atts[c])) > 0
  {
    var a := atts[c];
    var r := Pick(ids);
    assert Compatible(atts, rows[r]) && Fits(atts[c], rows[r][c]) && InDomain(atts[c], rows[r][c]);
    var v := rows[r][c].s;
    assert r in Matching(rows, ids, c, v);
    var j :| 0 <= j < |a.values| && a.values[j] == v;
    var fs := Frequencies(rows, ids, a.index, a.values);
    assert fs[j] > 0;
  }

  // ---------------------------------------------------------------------------
  // Sums and means of a continuous column
  // ---------------------------------------------------------------------------

  /** The sum of w over the ids, in no particular order. */
  ghost function SumOver(ids: set<int>, w: seq<real>): real
    requires IdsIn(ids, |w|)
    decreases ids
  {
    if ids == {} then 0.0
    else
      var r := Pick(ids);
      w[r] + SumOver(ids - {r}, w)
  }

  /** The sum does not depend on which id is taken first. */
  lemma {:induction false} SumOverRemove(ids: set<int>, w: seq<real>, y: int)
    requires IdsIn(ids, |w|) && y in ids
    ensures SumOver(ids, w) == w[y] + SumOver(ids - {y}, w)
    decreases ids
  {
    var r := Pick(ids);
    if r != y {
      SumOverRemove(ids - {r}, w, y);
      SumOverRemove(ids - {y}, w, r);
      assert ids - {r} - {y} == ids - {y} - {r};
    }
  }

  /** Each term within [lo, hi] puts the sum within [n * lo, n * hi]. */
  lemma {:induction false} SumOverBounds(ids: set<int>, w: seq<real>, lo: real, hi: real)
    requires IdsIn(ids, |w|)
    requires forall r :: r in ids ==> lo <= w[r] <= hi
    ensures |ids| as real * lo <= SumOver(ids, w) <= |ids| as real * hi
    decreases ids
  {
    if ids != {} {
      var r := Pick(ids);
      SumOverRemove(ids, w, r);
      SumOverBounds(ids - {r}, w, lo, hi);
    }
  }

  /** The number in column col of a row, 0 where the cell is not a number. */
  function Cell(vs: seq<Value>, col: int): real {
    if 0 <= col < |vs| && vs[col].Continuous? then vs[col].x else 0.0
  }

  /** Column col of the dataset as numbers. */
  function Column(rows: seq<seq<Value>>, col: int): (w: seq<real>)
    ensures |w| == |rows| && forall r :: 0 <= r < |rows| ==> w[r] == Cell(rows[r], col)
  {
    seq(|rows|, r requires 0 <= r < |rows| => Cell(rows[r], col))
  }

  /**
   * Prototype of a continuous attribute: the arithmetic mean of the column over
   * the ids; None for an empty id set, where the source divides 0 by 0.
   */
  ghost function ContinuousPrototype(rows: seq<seq<Value>>, ids: set<int>, col: int): (p: Option<real>)
    requires IdsIn(ids, |rows|)
    ensures p.Some? <==> ids != {}
    ensures p.Some? ==> p.value * |ids| as real == SumOver(ids, Column(rows, col))
  {
    if ids == {} then None else Some(SumOver(ids, Column(rows, col)) / |ids| as real)
  }

  /** The mean of the values of a column lies within the column's [min, max]. */
  lemma MeanWithinRange(rows: seq<seq<Value>>, atts: seq<Attribute>, ids: set<int>, c: int)
    requires WellFormedData(rows, atts) && IdsIn(ids, |rows|)
    requires 0 <= c < |atts| && atts[c].ContinuousAttribute? && ids != {}
    ensures atts[c].min <= ContinuousPrototype(rows, ids, c).value <= atts[c].max
  {
    var a, w := atts[c], Column(rows, c);
    forall r | r in ids
      ensures a.min <= w[r] <= a.max
    {
      assert Compatible(atts, rows[r]) && Fits(atts[c], rows[r][c]) && InRange(atts[c], rows[r][c]);
    }
    SumOverBounds(ids, w, a.min, a.max);
    QuotientBounds(SumOver(ids, w), |ids| as real, a.min, a.max);
  }

  // ---------------------------------------------------------------------------
  // Prototypes of a whole centroid
  // ---------------------------------------------------------------------------

  /** Prototype of one attribute over the ids: a mode, or a mean (None when undefined). */
  ghost function Prototype(rows: seq<seq<Value>>, ids: set<int>, a: Attribute): (p: Option<Value>)
    requires IdsIn(ids, |rows|)
    ensures p.Some? ==> Fits(a, p.value)
    ensures p.None? <==> a.ContinuousAttribute? && ids == {}
  {
    match a
    case ContinuousAttribute(_, index, _, _) =>
      (match ContinuousPrototype(rows, ids, index)
       case None => None
       case Some(m) => Some(Continuous(m)))
    case DiscreteAttribute(_, _, _) => Some(Discrete(DiscretePrototype(rows, ids, a)))
  }

  /** Every attribute has a prototype over ids: the set is non-empty or no column is continuous. */
  predicate PrototypesDefined(atts: seq<Attribute>, ids: set<int>) {
    ids != {} || forall c :: 0 <= c < |atts| ==> atts[c].DiscreteAttribute?
  }

  /**
   * A centroid after recomputation over ids: each position holds the prototype
   * of its attribute, or keeps its old value where the prototype is undefined.
   */
  ghost function Recomputed(old_: seq<Value>, rows: seq<seq<Value>>, atts: seq<Attribute>, ids: set<int>): (cs: seq<Value>)
    requires |old_| == |atts| && IdsIn(ids, |rows|)
    ensures |cs| == |atts|
    ensures forall c :: 0 <= c < |atts| ==>
      cs[c] == (var p := Prototype(rows, ids, atts[c]); if p.Some? then p.value else old_[c])
  {
    seq(|atts|, c requires 0 <= c < |atts| =>
      var p := Prototype(rows, ids, atts[c]); if p.Some? then p.value else old_[c])
  }

  /**
   * When every prototype is defined the recomputed centroid does not depend on
   * the old one, and it is a well-formed centroid whose numbers stay in range.
   */
  lemma RecomputedCentroid(old1: seq<Value>, old2: seq<Value>, rows: seq<seq<Value>>, atts: seq<Attribute>, ids: set<int>)
    requires WellFormedData(rows, atts) && IdsIn(ids, |rows|)
    requires Compatible(atts, old1) && |old2| == |atts|
    requires PrototypesDefined(atts, ids)
    ensures Recomputed(old1, rows, atts, ids) == Recomputed(old2, rows, atts, ids)
    ensures Compatible(atts, Recomputed(old1, rows, atts, ids))
    ensures AllInRange(atts, Recomputed(old1, rows, atts, ids))
  {
    var cs1, cs2 := Recomputed(old1, rows, atts, ids), Recomputed(old2, rows, atts, ids);
    forall c | 0 <= c < |atts|
      ensures cs1[c] == cs2[c] && Fits(atts[c], cs1[c]) && InRange(atts[c], cs1[c])
    {
      if atts[c].ContinuousAttribute? {
        assert ids != {};
        MeanWithinRange(rows, atts, ids, c);
      }
    }
  }

  /** Recomputation leaves a well-formed centroid well formed, defined or not. */
  lemma RecomputedCompatible(old_: seq<Value>, rows: seq<seq<Value>>, atts: seq<Attribute>, ids: set<int>)
    requires WellFormedData(rows, atts) && IdsIn(ids, |rows|)
    requires Compatible(atts, old_) && AllInRange(atts, old_)
    ensures Compatible(atts, Recomputed(old_, rows, atts, ids))
    ensures AllInRange(atts, Recomputed(old_, rows, atts, ids))
  {
    var cs := Recomputed(old_, rows, atts, ids);
    forall c | 0 <= c < |atts|
      ensures Fits(atts[c], cs[c]) && InRange(atts[c], cs[c])
    {
      if atts[c].ContinuousAttribute? && ids != {} {
        MeanWithinRange(rows, atts, ids, c);
      }
    }
  }

  // ---------------------------------------------------------------------------
  // Distances from a tuple to the rows
  // ---------------------------------------------------------------------------

  /** Distance from the centroid values cs to each row. */
  function Distances(atts: seq<Attribute>, cs: seq<Value>, rows: seq<seq<Value>>): (w: seq<real>)
    requires Compatible(atts, cs) && forall r :: 0 <= r < |rows| ==> Compatible(atts, rows[r])
    ensures |w| == |rows|
    ensures forall r :: 0 <= r < |rows| ==> w[r] == TupleDistance(atts, cs, rows[r])
  {
    seq(|rows|, r requires 0 <= r < |rows| => TupleDistance(atts, cs, rows[r]))
  }

  /**
   * Mean distance from cs to the rows of the ids; None for an empty id set,
   * where the source divides 0 by 0.
   */
  ghost function MeanDistance(atts: seq<Attribute>, cs: seq<Value>, rows: seq<seq<Value>>, ids: set<int>): (m: Option<real>)
    requires Compatible(atts, cs) && WellFormedData(rows, atts) && IdsIn(ids, |rows|)
    ensures m.Some? <==> ids != {}
  {
    var w := Distances(atts, cs, rows);
    if ids == {} then None else Some(SumOver(ids, w) / |ids| as real)
  }

  /**
   * With every value in range, the mean distance lies within [0, number of
   * attributes].
   */
  lemma MeanDistanceBounds(atts: seq<Attribute>, cs: seq<Value>, rows: seq<seq<Value>>, ids: set<int>)
    requires Compatible(atts, cs) && WellFormedData(rows, atts) && AllInRange(atts, cs)
    requires IdsIn(ids, |rows|) && ids != {}
    ensures 0.0 <= MeanDistance(atts, cs, rows, ids).value <= |atts| as real
  {
    var w, hi := Distances(atts, cs, rows), |atts| as real;
    DistancesBounded(atts, cs, rows);
    assert forall r :: r in ids ==> 0.0 <= w[r] <= hi;
    SumOverBounds(ids, w, 0.0, hi);
    QuotientBounds(SumOver(ids, w), |ids| as real, 0.0, hi);
  }

  /** Each distance from an in-range centroid to a row lies within [0, number of attributes]. */
  lemma DistancesBounded(atts: seq<Attribute>, cs: seq<Value>, rows: seq<seq<Value>>)
    requires Compatible(atts, cs) && WellFormedData(rows, atts) && AllInRange(atts, cs)
    ensures forall r :: 0 <= r < |rows| ==> 0.0 <= Distances(atts, cs, rows)[r] <= |atts| as real
  {
    forall r | 0 <= r < |rows|
      ensures TupleDistance(atts, cs, rows[r]) <= |atts| as real
    {
      assert Compatible(atts, rows[r]);
      assert AllInRange(atts, rows[r]);
      TupleDistanceAtMostLength(atts, cs, rows[r]);
    }
  }

  // ---------------------------------------------------------------------------
  // Sampling: which draws are kept
  // ---------------------------------------------------------------------------

  /** Every draw names a row, as nextInt(row count) guarantees. */
  predicate DrawsIn(draws: seq<int>, n: int) {
    forall d :: 0 <= d < |draws| ==> 0 <= draws[d] < n
  }

  /** Some chosen index names a row equal to row c in every column. */
  predicate RowTaken(rows: seq<seq<Value>>, chosen: seq<int>, c: int)
    requires 0 <= c < |rows| && forall j :: 0 <= j < |chosen| ==> 0 <= chosen[j] < |rows|
  {
    exists j :: 0 <= j < |chosen| && rows[chosen[j]] == rows[c]
  }

  /**
   * The draws kept when each draw is retried until its row differs from every
   * row chosen before: a draw is dropped exactly when it repeats a chosen row.
   */
  function Accepted(rows: seq<seq<Value>>, draws: seq<int>): (acc: seq<int>)
    requires DrawsIn(draws, |rows|)
    ensures |acc| <= |draws|
    ensures forall j :: 0 <= j < |acc| ==> 0 <= acc[j] < |rows|
  {
    if draws == [] then []
    else
      var n := |draws| - 1;
      var prev := Accepted(rows, draws[..n]);
      if RowTaken(rows, prev, draws[n]) then prev else prev + [draws[n]]
  }

  /** One more draw is kept exactly when its row is not among the rows kept so far. */
  lemma AcceptedStep(rows: seq<seq<Value>>, draws: seq<int>, n: nat)
    requires DrawsIn(draws, |rows|) && n < |draws|
    ensures Accepted(rows, draws[..n + 1]) ==
      if RowTaken(rows, Accepted(rows, draws[..n]), draws[n]) then Accepted(rows, draws[..n])
      else Accepted(rows, draws[..n]) + [draws[n]]
  {
    assert draws[..n + 1][..n] == draws[..n];
  }

  /** The chosen rows differ pairwise. */
  predicate Distinct(rows: seq<seq<Value>>, chosen: seq<int>)
    requires forall j :: 0 <= j < |chosen| ==> 0 <= chosen[j] < |rows|
  {
    forall i, j :: 0 <= i < j < |chosen| ==> rows[chosen[i]] != rows[chosen[j]]
  }

  /** The kept rows differ pairwise. */
  lemma {:induction false} AcceptedDistinct(rows: seq<seq<Value>>, draws: seq<int>)
    requires DrawsIn(draws, |rows|)
    ensures Distinct(rows, Accepted(rows, draws))
  {
    if draws != [] {
      var n := |draws| - 1;
      var prev := Accepted(rows, draws[..n]);
      AcceptedDistinct(rows, draws[..n]);
      if !RowTaken(rows, prev, draws[n]) {
        var acc := prev + [draws[n]];
        assert Accepted(rows, draws) == acc;
        forall i, j | 0 <= i < j < |acc|
          ensures rows[acc[i]] != rows[acc[j]]
        {
          if j == |prev| {
            assert acc[i] == prev[i] && acc[j] == draws[n];
            assert rows[prev[i]] != rows[draws[n]];
          } else {
            assert acc[i] == prev[i] && acc[j] == prev[j];
          }
        }
      }
    }
  }

  /** Drawing more never changes what was already kept. */
  lemma {:induction false} AcceptedPrefix(rows: seq<seq<Value>>, draws: seq<int>, p: nat)
    requires DrawsIn(draws, |rows|) && p <= |draws|
    ensures |Accepted(rows, draws[..p])| <= |Accepted(rows, draws)|
    ensures Accepted(rows, draws)[..|Accepted(rows, draws[..p])|] == Accepted(rows, draws[..p])
    decreases |draws| - p
  {
    if p < |draws| {
      AcceptedPrefix(rows, draws, p + 1);
      assert draws[..p + 1][..p] == draws[..p];
    } else {
      assert draws[..p] == draws;
    }
  }

  /** The rows chosen by sampling k of them from the draws, if the draws suffice. */
  function Sample(rows: seq<seq<Value>>, draws: seq<int>, k: int): (r: Result<seq<int>>)
    requires DrawsIn(draws, |rows|)
    ensures r.Ok? ==> |r.value| == k && 1 <= k <= |rows|
    ensures r.Ok? ==> forall j :: 0 <= j < k ==> 0 <= r.value[j] < |rows|
    ensures r.Ok? ==> Distinct(rows, r.value)
    ensures r == Err(OutOfRangeSampleSize) <==> k <= 0 || k > |rows|
  {
    if k <= 0 || k > |rows| then Err(OutOfRangeSampleSize)
    else
      var acc := Accepted(rows, draws);
      AcceptedDistinct(rows, draws);
      if |acc| < k then Err(DrawsExhausted)
      else
        assert forall j :: 0 <= j < k ==> acc[..k][j] == acc[j];
        Ok(acc[..k])
  }

  /** n * lo <= total <= n * hi with n > 0 puts total / n within [lo, hi]. */
  lemma QuotientBounds(total: real, n: real, lo: real, hi: real)
    requires n > 0.0 && n * lo <= total <= n * hi
    ensures lo <= total / n <= hi
  {
    var m := total / n;
    assert m * n == total;
    if m < lo {
      ProductOfPositives(lo - m, n);
    }
    if m > hi {
      ProductOfPositives(m - hi, n);
    }
  }
}
