/**
 * Attributes (columns) of a mixed continuous/categorical dataset, the values
 * they take, and the distance rules of items and tuples.
 */
module Attributes {

  /** A cell of the dataset: a number of a continuous column or a string of a discrete one. */
  datatype Value = Continuous(x: real) | Discrete(s: string)

  /**
   * A column of the dataset, with its symbolic name and its column index.
   * A continuous column carries the range [min, max] its values are scaled by;
   * a discrete column carries its domain, in the order its set iterates.
   */
  datatype Attribute =
    | ContinuousAttribute(name: string, index: int, min: real, max: real)
    | DiscreteAttribute(name: string, index: int, values: seq<string>)
  {
    function GetName(): string { name }

    function GetIndex(): int { index }

    /** The printed form of an attribute is its name. */
    function ToString(): string { name }

    /** Number of values of a discrete domain. */
    function GetNumberOfDistinctValues(): nat
      requires DiscreteAttribute?
    {
      |values|
    }

    /** The domain in iteration order; each value occurs once (see WellFormed). */
    function Iterator(): seq<string>
      requires DiscreteAttribute?
    {
      values
    }

    /**
     * Min-max scaling of a continuous value. The source divides by max - min
     * without a guard, so a constant column (max == min) is excluded here.
     */
    function GetScaledValue(v: real): (r: real)
      requires ContinuousAttribute? && min < max
      ensures r * (max - min) == v - min
      ensures v == min ==> r == 0.0
      ensures v == max ==> r == 1.0
      ensures min <= v <= max ==> 0.0 <= r <= 1.0
    {
      (v - min) / (max - min)
    }
  }

  /** No value occurs twice in s. */
  predicate NoDuplicates<T(==)>(s: seq<T>) {
    forall i, j :: 0 <= i < j < |s| ==> s[i] != s[j]
  }

  /** A continuous column has a proper range; a discrete domain lists each value once. */
  predicate WellFormed(a: Attribute) {
    match a
    case ContinuousAttribute(_, _, min, max) => min < max
    case DiscreteAttribute(_, _, values) => NoDuplicates(values)
  }

  /** The value has the kind of the attribute (a double for a continuous column, a string otherwise). */
  predicate Fits(a: Attribute, v: Value) {
    (a.ContinuousAttribute? && v.Continuous?) || (a.DiscreteAttribute? && v.Discrete?)
  }

  /** A continuous value lies in the [min, max] range of its column. */
  predicate InRange(a: Attribute, v: Value) {
    a.ContinuousAttribute? && v.Continuous? ==> a.min <= v.x <= a.max
  }

  /** A discrete value belongs to the domain of its column. */
  predicate InDomain(a: Attribute, v: Value) {
    a.DiscreteAttribute? && v.Discrete? ==> v.s in a.values
  }

  /** Every attribute is well formed and every value has the kind of its attribute. */
  predicate Compatible(atts: seq<Attribute>, vs: seq<Value>) {
    |vs| == |atts| &&
    (forall c :: 0 <= c < |atts| ==> WellFormed(atts[c])) &&
    (forall c :: 0 <= c < |atts| ==> Fits(atts[c], vs[c]))
  }

  /** Every continuous value lies in the range of its attribute. */
  predicate AllInRange(atts: seq<Attribute>, vs: seq<Value>)
    requires |vs| == |atts|
  {
    forall c :: 0 <= c < |atts| ==> InRange(atts[c], vs[c])
  }

  function Abs(x: real): real {
    if x < 0.0 then -x else x
  }

  /** Distance of two values of a continuous column: the gap between their scaled values. */
  function ContinuousDistance(a: Attribute, v: real, w: real): (d: real)
    requires a.ContinuousAttribute? && a.min < a.max
    ensures d >= 0.0
    ensures d == 0.0 <==> v == w
    ensures d * (a.max - a.min) == Abs(v - w)
  {
    Abs(a.GetScaledValue(v) - a.GetScaledValue(w))
  }

  /** Distance of two values of a discrete column: 0 when equal, 1 otherwise. */
  function DiscreteDistance(v: string, w: string): (d: real)
    ensures d == 0.0 <==> v == w
    ensures d == 1.0 <==> v != w
  {
    if v == w then 0.0 else 1.0
  }

  /** The distance of an item, chosen by the kind of its attribute. */
  function ItemDistance(a: Attribute, v: Value, w: Value): (d: real)
    requires WellFormed(a) && Fits(a, v) && Fits(a, w)
    ensures d >= 0.0
    ensures d == 0.0 <==> v == w
  {
    match a
    case ContinuousAttribute(_, _, _, _) => ContinuousDistance(a, v.x, w.x)
    case DiscreteAttribute(_, _, _) => DiscreteDistance(v.s, w.s)
  }

  /**
   * Distance of two tuples over the same attributes: the plain sum of the
   * item distances, accumulated in position order.
   */
  function TupleDistance(atts: seq<Attribute>, xs: seq<Value>, ys: seq<Value>): (d: real)
    requires Compatible(atts, xs) && Compatible(atts, ys)
    ensures d >= 0.0
    ensures d == 0.0 <==> xs == ys
    decreases |atts|
  {
    if |atts| == 0 then 0.0
    else
      var n := |atts| - 1;
      TupleDistance(atts[..n], xs[..n], ys[..n]) + ItemDistance(atts[n], xs[n], ys[n])
  }

  // ---------------------------------------------------------------------------
  // Properties of the attribute layer
  // ---------------------------------------------------------------------------

  /** The accessors return what the constructor was given; the fields never change. */
  lemma AttributeKeepsNameAndIndex(name: string, index: int, min: real, max: real, values: seq<string>)
    ensures ContinuousAttribute(name, index, min, max).GetName() == name
    ensures ContinuousAttribute(name, index, min, max).GetIndex() == index
    ensures ContinuousAttribute(name, index, min, max).ToString() == name
    ensures DiscreteAttribute(name, index, values).GetName() == name
    ensures DiscreteAttribute(name, index, values).GetIndex() == index
    ensures DiscreteAttribute(name, index, values).ToString() == name
    ensures ContinuousAttribute(name, index, min, max).min == min
    ensures ContinuousAttribute(name, index, min, max).max == max
  {
  }

  /** Scaling preserves the order of values. */
  lemma ScaledValueMonotone(a: Attribute, v: real, w: real)
    requires a.ContinuousAttribute? && a.min < a.max
    requires v <= w
    ensures a.GetScaledValue(v) <= a.GetScaledValue(w)
  {
    var sv, sw, d := a.GetScaledValue(v), a.GetScaledValue(w), a.max - a.min;
    assert (sv - sw) * d == sv * d - sw * d;
    assert (sv - sw) * d == v - w;
    if sw < sv {
      ProductOfPositives(sv - sw, d);
    }
  }

  lemma ProductOfPositives(x: real, y: real)
    requires x > 0.0 && y > 0.0
    ensures x * y > 0.0
  {
  }

  /** A domain listed without duplicates has as many distinct values as entries. */
  lemma {:induction false} DistinctValuesCount(values: seq<string>)
    requires NoDuplicates(values)
    ensures |set v | v in values| == |values|
  {
    if |values| > 0 {
      var n := |values| - 1;
      DistinctValuesCount(values[..n]);
      assert (set v | v in values) == (set v | v in values[..n]) + {values[n]};
      assert values[n] !in (set v | v in values[..n]);
    }
  }

  /** The iterator of a discrete attribute yields each domain value exactly once. */
  lemma IteratorYieldsEachValueOnce(a: Attribute, v: string)
    requires a.DiscreteAttribute? && WellFormed(a)
    ensures v in a.values ==> exists i :: 0 <= i < |a.Iterator()| && a.Iterator()[i] == v
    ensures forall i, j :: 0 <= i < |a.Iterator()| && 0 <= j < |a.Iterator()| && a.Iterator()[i] == v && a.Iterator()[j] == v ==> i == j
    ensures a.GetNumberOfDistinctValues() == |set w | w in a.values|
  {
    DistinctValuesCount(a.values);
    if v in a.values {
      var i :| 0 <= i < |a.values| && a.values[i] == v;
      assert a.Iterator()[i] == v;
    }
  }

  /** Continuous distance does not depend on the order of its arguments. */
  lemma ContinuousDistanceSymmetric(a: Attribute, v: real, w: real)
    requires a.ContinuousAttribute? && a.min < a.max
    ensures ContinuousDistance(a, v, w) == ContinuousDistance(a, w, v)
  {
  }

  /** Two values of a continuous column within its range are at most 1 apart. */
  lemma ContinuousDistanceAtMostOne(a: Attribute, v: real, w: real)
    requires a.ContinuousAttribute? && a.min < a.max
    requires a.min <= v <= a.max && a.min <= w <= a.max
    ensures ContinuousDistance(a, v, w) <= 1.0
  {
    var sv, sw := a.GetScaledValue(v), a.GetScaledValue(w);
    assert 0.0 <= sv <= 1.0 && 0.0 <= sw <= 1.0;
  }

  /** Discrete distance is symmetric and only ever 0 or 1. */
  lemma DiscreteDistanceSymmetric(v: string, w: string)
    ensures DiscreteDistance(v, w) == DiscreteDistance(w, v)
    ensures DiscreteDistance(v, w) == 0.0 || DiscreteDistance(v, w) == 1.0
  {
  }

  /** Item distance is symmetric. */
  lemma ItemDistanceSymmetric(a: Attribute, v: Value, w: Value)
    requires WellFormed(a) && Fits(a, v) && Fits(a, w)
    ensures ItemDistance(a, v, w) == ItemDistance(a, w, v)
  {
    if a.ContinuousAttribute? {
      ContinuousDistanceSymmetric(a, v.x, w.x);
    }
  }

  /** Item distance lies in [0, 1] when both values lie in the attribute's range. */
  lemma ItemDistanceAtMostOne(a: Attribute, v: Value, w: Value)
    requires WellFormed(a) && Fits(a, v) && Fits(a, w)
    requires InRange(a, v) && InRange(a, w)
    ensures ItemDistance(a, v, w) <= 1.0
  {
    if a.ContinuousAttribute? {
      ContinuousDistanceAtMostOne(a, v.x, w.x);
    }
  }

  /** Tuple distance is symmetric. */
  lemma {:induction false} TupleDistanceSymmetric(atts: seq<Attribute>, xs: seq<Value>, ys: seq<Value>)
    requires Compatible(atts, xs) && Compatible(atts, ys)
    ensures TupleDistance(atts, xs, ys) == TupleDistance(atts, ys, xs)
    decreases |atts|
  {
    if |atts| > 0 {
      var n := |atts| - 1;
      TupleDistanceSymmetric(atts[..n], xs[..n], ys[..n]);
      ItemDistanceSymmetric(atts[n], xs[n], ys[n]);
    }
  }

  /** Tuple distance lies in [0, number of attributes] when every value is in range. */
  lemma {:induction false} TupleDistanceAtMostLength(atts: seq<Attribute>, xs: seq<Value>, ys: seq<Value>)
    requires Compatible(atts, xs) && Compatible(atts, ys)
    requires AllInRange(atts, xs) && AllInRange(atts, ys)
    ensures TupleDistance(atts, xs, ys) <= |atts| as real
    decreases |atts|
  {
    if |atts| > 0 {
      var n := |atts| - 1;
      TupleDistanceAtMostLength(atts[..n], xs[..n], ys[..n]);
      ItemDistanceAtMostOne(atts[n], xs[n], ys[n]);
    }
  }
}
