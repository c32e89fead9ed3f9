/**
 * A raw row of the table as the database layer reads it, and the order on
 * rows that its comparison defines.
 */
module Examples {
  import opened Attributes

  /** The order of two numbers as Double.compareTo gives it (no NaN, no signed zero): -1, 0 or 1. */
  function CompareNumbers(x: real, y: real): (c: int)
    ensures c == 0 <==> x == y
    ensures c < 0 <==> x < y
    ensures -1 <= c <= 1
  {
    if x < y then -1 else if x > y then 1 else 0
  }

  /**
   * The order of two strings as String.compareTo gives it: the difference of
   * the first differing characters, else the difference of the lengths.
   * Characters are compared as Unicode scalar values, which agrees with
   * compareTo's UTF-16 code units inside the Basic Multilingual Plane.
   */
  function CompareStrings(s: string, t: string): (c: int)
    ensures c == 0 <==> s == t
    decreases |s|
  {
    if |s| == 0 || |t| == 0 then |s| - |t|
    else if s[0] != t[0] then s[0] as int - t[0] as int
    else
      assert s == [s[0]] + s[1..] && t == [t[0]] + t[1..];
      CompareStrings(s[1..], t[1..])
  }

  /** Two values can be compared when they have the same kind. */
  predicate SameKind(v: Value, w: Value) {
    v.Continuous? == w.Continuous?
  }

  /** The order of two values of the same kind. */
  function CompareValues(v: Value, w: Value): (c: int)
    requires SameKind(v, w)
    ensures c == 0 <==> v == w
  {
    match v
    case Continuous(x) => CompareNumbers(x, w.x)
    case Discrete(s) => CompareStrings(s, w.s)
  }

  /**
   * The first position, below the length of both, where xs and ys differ;
   * -1 when they agree on all those positions.
   */
  function FirstDifference(xs: seq<Value>, ys: seq<Value>): (p: int)
    ensures -1 <= p < |xs| && p < |ys|
    ensures p >= 0 ==> xs[p] != ys[p] && forall q :: 0 <= q < p ==> xs[q] == ys[q]
    ensures p == -1 ==> forall q :: 0 <= q < |xs| && q < |ys| ==> xs[q] == ys[q]
  {
    if |xs| == 0 || |ys| == 0 then -1
    else if xs[0] != ys[0] then 0
    else
      var p := FirstDifference(xs[1..], ys[1..]);
      if p < 0 then -1 else p + 1
  }

  /**
   * What comparing xs with ys demands: the other row (ys) is no longer unless
   * the rows differ before its end, and the values at the first difference
   * have the same kind (otherwise the comparison would raise a cast error).
   */
  predicate Comparable(xs: seq<Value>, ys: seq<Value>) {
    var p := FirstDifference(xs, ys);
    (p < 0 ==> |ys| <= |xs|) && (p >= 0 ==> SameKind(xs[p], ys[p]))
  }

  /** Lexicographic comparison of xs with ys, negative when xs comes first. */
  function LexCompare(xs: seq<Value>, ys: seq<Value>): int
    requires Comparable(xs, ys)
  {
    var p := FirstDifference(xs, ys);
    if p < 0 then 0 else CompareValues(xs[p], ys[p])
  }

  /** xs comes strictly before ys: they agree up to a position where xs holds the smaller value. */
  predicate Precedes(xs: seq<Value>, ys: seq<Value>) {
    exists p :: 0 <= p < |xs| && p < |ys| && xs[..p] == ys[..p] &&
      SameKind(xs[p], ys[p]) && CompareValues(xs[p], ys[p]) < 0
  }

  /** One raw row, filled by appending its values column by column. */
  class Example {
    var example: seq<Value>

    constructor ()
      ensures example == []
    {
      example := [];
    }

    /** Appends o; the earlier positions keep their values. */
    method Add(o: Value)
      modifies this
      ensures example == old(example) + [o]
    {
      example := example + [o];
    }

    function Get(i: int): Value
      reads this
      requires 0 <= i < |example|
    {
      example[i]
    }

    /**
     * Compares this row with ex as the source does: at the first position where
     * they differ it compares the value of ex with the value of this, so the
     * result is the lexicographic order with its sign reversed.
     */
    method CompareTo(ex: Example) returns (r: int)
      requires Comparable(example, ex.example)
      ensures r == -LexCompare(example, ex.example)
    {
      var others := ex.example;
      ghost var p := FirstDifference(example, others);
      var i := 0;
      while i < |others|
        invariant 0 <= i <= |others|
        invariant p < 0 || i <= p
        invariant forall q :: 0 <= q < i ==> example[q] == others[q]
      {
        var o := others[i];
        if o != example[i] {
          CompareValuesAntisymmetric(example[i], o);
          return CompareValues(o, example[i]);
        }
        i := i + 1;
      }
      return 0;
    }

    /** The comparison as its documentation describes it: negative when this row comes first. */
    method CompareToAsDocumented(ex: Example) returns (r: int)
      requires Comparable(example, ex.example)
      ensures r < 0 <==> Precedes(example, ex.example)
      ensures r == 0 <==> |ex.example| <= |example| && ex.example == example[..|ex.example|]
    {
      var others := ex.example;
      ghost var p := FirstDifference(example, others);
      var i := 0;
      while i < |others|
        invariant 0 <= i <= |others|
        invariant p < 0 || i <= p
        invariant forall q :: 0 <= q < i ==> example[q] == others[q]
      {
        var o := others[i];
        if o != example[i] {
          r := CompareValues(example[i], o);
          LexCompareMeansPrecedes(example, others);
          LexCompareZeroMeansPrefix(example, others);
          return;
        }
        i := i + 1;
      }
      LexCompareMeansPrecedes(example, others);
      LexCompareZeroMeansPrefix(example, others);
      return 0;
    }
  }

  // ---------------------------------------------------------------------------
  // Properties of the order
  // ---------------------------------------------------------------------------

  /** Swapping the strings negates their comparison. */
  lemma {:induction false} CompareStringsAntisymmetric(s: string, t: string)
    ensures CompareStrings(s, t) == -CompareStrings(t, s)
    decreases |s|
  {
    if |s| > 0 && |t| > 0 && s[0] == t[0] {
      CompareStringsAntisymmetric(s[1..], t[1..]);
    }
  }

  /** Swapping two values of the same kind negates their comparison. */
  lemma CompareValuesAntisymmetric(v: Value, w: Value)
    requires SameKind(v, w)
    ensures CompareValues(v, w) == -CompareValues(w, v)
  {
    if v.Discrete? {
      CompareStringsAntisymmetric(v.s, w.s);
    }
  }

  /** A row compares equal to itself. */
  lemma CompareToSelfIsZero(xs: seq<Value>)
    ensures Comparable(xs, xs) && LexCompare(xs, xs) == 0
  {
  }

  /** The comparison is 0 exactly when ys is xs, or a prefix of it. */
  lemma LexCompareZeroMeansPrefix(xs: seq<Value>, ys: seq<Value>)
    requires Comparable(xs, ys)
    ensures LexCompare(xs, ys) == 0 <==> |ys| <= |xs| && ys == xs[..|ys|]
  {
    var p := FirstDifference(xs, ys);
    if p >= 0 && |ys| <= |xs| {
      assert xs[..|ys|][p] != ys[p];
    } else if p < 0 {
      assert ys == xs[..|ys|];
    }
  }

  /** The comparison is negative exactly when xs comes first. */
  lemma LexCompareMeansPrecedes(xs: seq<Value>, ys: seq<Value>)
    requires Comparable(xs, ys)
    ensures LexCompare(xs, ys) < 0 <==> Precedes(xs, ys)
  {
    var p := FirstDifference(xs, ys);
    if p >= 0 {
      assert xs[..p] == ys[..p];
      if Precedes(xs, ys) {
        var q :| 0 <= q < |xs| && q < |ys| && xs[..q] == ys[..q] &&
          SameKind(xs[q], ys[q]) && CompareValues(xs[q], ys[q]) < 0;
      }
    }
  }

  /** Rows of equal length compare with opposite signs in the two directions. */
  lemma LexCompareAntisymmetric(xs: seq<Value>, ys: seq<Value>)
    requires |xs| == |ys| && Comparable(xs, ys)
    ensures Comparable(ys, xs) && LexCompare(xs, ys) == -LexCompare(ys, xs)
  {
    FirstDifferenceSymmetric(xs, ys);
    var p := FirstDifference(xs, ys);
    if p >= 0 {
      CompareValuesAntisymmetric(xs[p], ys[p]);
    }
  }

  /** The first difference does not depend on which row comes first. */
  lemma FirstDifferenceSymmetric(xs: seq<Value>, ys: seq<Value>)
    ensures FirstDifference(xs, ys) == FirstDifference(ys, xs)
  {

  }

  /**
   * The source's comparison has the reverse sign of its documentation: the
   * row (1.0) comes before the row (2.0), yet comparing it with (2.0) gives a
   * positive result.
   */
  lemma CompareToSignReversed()
    ensures Precedes([Continuous(1.0)], [Continuous(2.0)])
    ensures Comparable([Continuous(1.0)], [Continuous(2.0)])
    ensures -LexCompare([Continuous(1.0)], [Continuous(2.0)]) == 1
  {
    var xs, ys := [Continuous(1.0)], [Continuous(2.0)];
    assert xs[..0] == ys[..0];
    assert FirstDifference(xs, ys) == 0;
  }
}
