/**
 * The in-memory dataset and its building blocks: items (an attribute with a
 * value that prototypes overwrite), tuples (fixed arrays of items), the
 * dataset itself with its sampling and prototype computations, and the
 * frequency count of a discrete value.
 */
module Dataset {
  import opened Attributes
  import opened Results
  import opened DataSpec

  /** An attribute paired with a value; recomputing a centroid overwrites the value. */
  class Item {
    const attribute: Attribute
    var value: Value

    constructor (attribute: Attribute, value: Value)
      ensures GetAttribute() == attribute && GetValue() == value
    {
      this.attribute := attribute;
      this.value := value;
    }

    function GetAttribute(): Attribute {
      attribute
    }

    function GetValue(): Value
      reads this
    {
      value
    }

    /**
     * Distance from this item's value to a, by the rule of the item's own
     * attribute: scaled gap for a continuous one, 0/1 indicator for a discrete one.
     */
    function Distance(a: Value): (d: real)
      reads this
      requires WellFormed(attribute) && Fits(attribute, value) && Fits(attribute, a)
      ensures d >= 0.0
      ensures d == 0.0 <==> a == value
      ensures d == ItemDistance(attribute, a, value)
      ensures InRange(attribute, value) && InRange(attribute, a) ==> d <= 1.0
    {
      ItemDistanceSymmetric(attribute, value, a);
      var d := ItemDistance(attribute, value, a);
      if InRange(attribute, value) && InRange(attribute, a) then
        ItemDistanceAtMostOne(attribute, value, a);
        d
      else
        d
    }

    /**
     * Sets the value to the prototype of the item's attribute over the given
     * rows. A prototype that is undefined (the mean of no rows) leaves the value
     * as it was, and defined reports which case happened.
     */
    method Update(data: Data, clusteredData: set<int>) returns (defined: bool)
      requires data.Valid() && data.Owns(attribute) && IdsIn(clusteredData, |data.data|)
      modifies this
      ensures var p := Prototype(data.data, clusteredData, attribute);
        defined == p.Some? && value == (if p.Some? then p.value else old(value))
    {
      var p := data.ComputePrototype(clusteredData, attribute);
      if p.Some? {
        value := p.value;
      }
      defined := p.Some?;
    }
  }

  /** A fixed-length array of items, one per attribute. */
  class Tuple {
    const tuple: array<Item?>

    /** A tuple of the given length whose slots are all empty. */
    constructor (size: nat)
      ensures fresh(tuple)
      ensures GetLength() == size && forall i :: 0 <= i < size ==> tuple[i] == null
    {
      tuple := new Item?[size](_ => null);
    }

    /** Every slot holds an item and no item sits in two slots. */
    ghost predicate Valid()
      reads tuple
    {
      (forall i :: 0 <= i < tuple.Length ==> tuple[i] != null) &&
      (forall i, j :: 0 <= i < j < tuple.Length ==> tuple[i] != tuple[j])
    }

    /** The items held by the tuple. */
    ghost function Items(): set<Item>
      reads tuple
    {
      set x: Item | x in tuple[..]
    }

    /** The values of the items, position by position. */
    ghost function Values(): (vs: seq<Value>)
      reads tuple, Items()
      requires Valid()
      ensures |vs| == tuple.Length
      ensures forall i :: 0 <= i < tuple.Length ==> vs[i] == tuple[i].value
    {
      seq(tuple.Length, i reads tuple, Items() requires 0 <= i < tuple.Length && tuple[i] != null =>
        tuple[i].value)
    }

    /** The attributes of the items, position by position. */
    ghost function Attributes(): (atts: seq<Attribute>)
      reads tuple
      requires Valid()
      ensures |atts| == tuple.Length
      ensures forall i :: 0 <= i < tuple.Length ==> atts[i] == tuple[i].attribute
    {
      seq(tuple.Length, i reads tuple requires 0 <= i < tuple.Length && tuple[i] != null =>
        tuple[i].attribute)
    }

    function GetLength(): (n: nat)
      ensures n == tuple.Length
    {
      tuple.Length
    }

    function Get(i: int): Item?
      reads tuple
      requires 0 <= i < tuple.Length
    {
      tuple[i]
    }

    /** Stores c in slot i; every other slot keeps its item. */
    method Add(c: Item, i: int)
      requires 0 <= i < tuple.Length
      modifies tuple
      ensures tuple[..] == old(tuple[..])[i := c]
    {
      tuple[i] := c;
    }

    /**
     * Sum over the positions of this tuple of the distance from its item to the
     * value of t at the same position; t may be longer, its extra slots are
     * ignored.
     */
    method GetDistance(t: Tuple) returns (distance: real)
      requires Valid() && t.Valid() && tuple.Length <= t.tuple.Length
      requires Compatible(Attributes(), Values()) && Compatible(Attributes(), t.Values()[..tuple.Length])
      ensures distance == TupleDistance(Attributes(), Values(), t.Values()[..tuple.Length])
    {
      var n := tuple.Length;
      ghost var atts, xs, ys := Attributes(), Values(), t.Values()[..n];
      distance := 0.0;
      for i := 0 to n
        invariant Compatible(atts[..i], xs[..i]) && Compatible(atts[..i], ys[..i])
        invariant distance == TupleDistance(atts[..i], xs[..i], ys[..i])
      {
        assert atts[..i + 1][..i] == atts[..i];
        assert xs[..i + 1][..i] == xs[..i];
        assert ys[..i + 1][..i] == ys[..i];
        distance := distance + tuple[i].Distance(t.Get(i).GetValue());
      }
      assert atts[..n] == atts && xs[..n] == xs && ys[..n] == ys;
    }

    /** The distance from this tuple to a fresh tuple of row r of the dataset. */
    method DistanceToRow(data: Data, r: int) returns (d: real)
      requires Valid() && data.Valid() && Attributes() == data.attributeSet
      requires Compatible(data.attributeSet, Values()) && 0 <= r < |data.data|
      ensures d == TupleDistance(data.attributeSet, Values(), data.data[r])
      ensures Valid() && Values() == old(Values()) && Attributes() == old(Attributes())
    {
      var t := data.GetItemSet(r);
      d := GetDistance(t);
      assert t.Values()[..tuple.Length] == data.data[r];
    }

    /**
     * Mean distance from this tuple to the rows of the given ids; None for an
     * empty id set, where the source divides 0 by 0.
     */
    method AvgDistance(data: Data, clusteredData: set<int>) returns (p: Option<real>)
      requires Valid() && data.Valid() && Attributes() == data.attributeSet
      requires Compatible(data.attributeSet, Values()) && IdsIn(clusteredData, |data.data|)
      ensures p == MeanDistance(data.attributeSet, Values(), data.data, clusteredData)
    {
      ghost var vs := Values();
      ghost var w := Distances(data.attributeSet, vs, data.data);
      var sumD := 0.0;
      var rest := clusteredData;
      while rest != {}
        invariant rest <= clusteredData
        invariant Values() == vs
        invariant sumD + SumOver(rest, w) == SumOver(clusteredData, w)
        decreases rest
      {
        NonEmptyHasElement(rest);
        var i :| i in rest;
        var d := DistanceToRow(data, i);
        SumOverRemove(rest, w, i);
        sumD := sumD + d;
        rest := rest - {i};
      }
      assert sumD == SumOver(clusteredData, w);
      if |clusteredData| == 0 {
        p := None;
      } else {
        p := Some(sumD / |clusteredData| as real);
      }
    }
  }

  /**
   * The dataset: its rows, their count and the attribute of each column. Rows
   * and attributes are given by the caller and never change afterwards.
   */
  class Data {
    const data: seq<seq<Value>>
    const numberOfExamples: nat
    const attributeSet: seq<Attribute>

    constructor (rows: seq<seq<Value>>, attributes: seq<Attribute>)
      requires WellFormedData(rows, attributes)
      ensures Valid() && data == rows && attributeSet == attributes
      ensures GetNumberOfExamples() == |rows| && GetNumberOfAttributes() == |attributes|
    {
      data := rows;
      numberOfExamples := |rows|;
      attributeSet := attributes;
    }

    /** The cached row count is right and the rows fit the attributes. */
    ghost predicate Valid() {
      numberOfExamples == |data| && WellFormedData(data, attributeSet)
    }

    /** The attribute is one of the dataset's columns. */
    predicate Owns(a: Attribute) {
      a in attributeSet
    }

    function GetNumberOfExamples(): (n: nat)
      ensures Valid() ==> n == |data|
    {
      numberOfExamples
    }

    function GetNumberOfAttributes(): (n: nat)
      ensures n == |attributeSet|
    {
      |attributeSet|
    }

    /** The value of row exampleIndex in column attributeIndex, of that column's kind. */
    function GetAttributeValue(exampleIndex: int, attributeIndex: int): (v: Value)
      requires 0 <= exampleIndex < |data| && 0 <= attributeIndex < |data[exampleIndex]|
      ensures v == data[exampleIndex][attributeIndex]
      ensures Valid() ==> attributeIndex < |attributeSet| && Fits(attributeSet[attributeIndex], v)
    {
      data[exampleIndex][attributeIndex]
    }

    /** The attribute of column index, which records that index. */
    function GetAttribute(index: int): (a: Attribute)
      requires 0 <= index < |attributeSet|
      ensures a == attributeSet[index]
      ensures Valid() ==> a.index == index && Owns(a)
    {
      attributeSet[index]
    }

    /** A fresh tuple of fresh items holding row index, item i carrying attribute i. */
    method GetItemSet(index: int) returns (tuple: Tuple)
      requires Valid() && 0 <= index < |data|
      ensures fresh(tuple) && fresh(tuple.tuple) && fresh(tuple.Items())
      ensures tuple.Valid() && tuple.Attributes() == attributeSet && tuple.Values() == data[index]
    {
      var n := |attributeSet|;
      assert Compatible(attributeSet, data[index]);
      tuple := new Tuple(n);
      for i := 0 to n
        invariant forall j :: 0 <= j < i ==>
          tuple.tuple[j] != null && fresh(tuple.tuple[j]) &&
          tuple.tuple[j].attribute == attributeSet[j] && tuple.tuple[j].value == data[index][j]
        invariant forall j :: i <= j < n ==> tuple.tuple[j] == null
        invariant forall j, m :: 0 <= j < m < i ==> tuple.tuple[j] != tuple.tuple[m]
      {
        var item := new Item(attributeSet[i], data[index][i]);
        tuple.Add(item, i);
      }
    }

    /** Whether rows i and j agree in every column. */
    method Compare(i: int, j: int) returns (same: bool)
      requires Valid() && 0 <= i < |data| && 0 <= j < |data|
      ensures same <==> data[i] == data[j]
    {
      assert Compatible(attributeSet, data[i]) && Compatible(attributeSet, data[j]);
      for k := 0 to |attributeSet|
        invariant data[i][..k] == data[j][..k]
      {
        if data[i][k] != data[j][k] {
          return false;
        }
        assert data[i][..k + 1] == data[i][..k] + [data[i][k]];
        assert data[j][..k + 1] == data[j][..k] + [data[j][k]];
      }
      assert data[i][..|attributeSet|] == data[i] && data[j][..|attributeSet|] == data[j];
      return true;
    }

    /**
     * Chooses k rows that differ pairwise in some column. Each choice takes the
     * next draw of the random generator and retries while the drawn row equals
     * a row chosen before; the draws are supplied by the caller.
     */
    method Sampling(k: int, draws: seq<int>) returns (r: Result<seq<int>>)
      requires Valid() && DrawsIn(draws, |data|)
      ensures r == Sample(data, draws, k)
    {
      if k <= 0 || k > |data| {
        return Err(OutOfRangeSampleSize);
      }
      var centroidIndexes := new int[k];
      var next := 0;
      var i := 0;
      while i < k
        invariant 0 <= i <= k && 0 <= next <= |draws|
        invariant centroidIndexes[..i] == Accepted(data, draws[..next])
        invariant forall m :: 0 <= m < i ==> 0 <= centroidIndexes[m] < |data|
      {
        var found := true;
        var c := 0;
        while found
          invariant 0 <= next <= |draws|
          invariant found ==> centroidIndexes[..i] == Accepted(data, draws[..next])
          invariant !found ==> 0 <= c < |data| && centroidIndexes[..i] + [c] == Accepted(data, draws[..next])
          modifies {}
          decreases |draws| - next
        {
          if next == |draws| {
            assert draws[..next] == draws;
            return Err(DrawsExhausted);
          }
          c := draws[next];
          found := Taken(centroidIndexes, i, c);
          AcceptedStep(data, draws, next);
          next := next + 1;
        }
        centroidIndexes[i] := c;
        assert centroidIndexes[..i + 1] == centroidIndexes[..i] + [c];
        i := i + 1;
      }
      AcceptedPrefix(data, draws, next);
      assert centroidIndexes[..] == centroidIndexes[..k];
      assert Accepted(data, draws)[..k] == centroidIndexes[..k];
      return Ok(centroidIndexes[..]);
    }

    /** Whether row c equals one of the first i chosen rows (the inner scan of the sampling retry). */
    method Taken(chosen: array<int>, i: int, c: int) returns (found: bool)
      requires Valid() && 0 <= i <= chosen.Length && 0 <= c < |data|
      requires forall m :: 0 <= m < i ==> 0 <= chosen[m] < |data|
      ensures found <==> RowTaken(data, chosen[..i], c)
    {
      for j := 0 to i
        invariant forall m :: 0 <= m < j ==> data[chosen[m]] != data[c]
      {
        var same := Compare(chosen[j], c);
        if same {
          assert chosen[..i][j] == chosen[j];
          return true;
        }
      }
      return false;
    }

    /** The prototype of the attribute over the ids: its mode or its mean. */
    method ComputePrototype(idList: set<int>, attribute: Attribute) returns (p: Option<Value>)
      requires Valid() && Owns(attribute) && IdsIn(idList, |data|)
      ensures p == Prototype(data, idList, attribute)
    {
      if attribute.ContinuousAttribute? {
        var m := ComputeContinuousPrototype(idList, attribute);
        if m.Some? {
          p := Some(Continuous(m.value));
        } else {
          p := None;
        }
      } else {
        var s := ComputeDiscretePrototype(idList, attribute);
        p := Some(Discrete(s));
      }
    }

    /**
     * Mode of a discrete attribute: walks the domain in iteration order and
     * keeps a value only when its frequency beats the best so far.
     */
    method ComputeDiscretePrototype(idList: set<int>, attribute: Attribute) returns (prototype: string)
      requires Valid() && Owns(attribute) && attribute.DiscreteAttribute? && IdsIn(idList, |data|)
      ensures prototype == DiscretePrototype(data, idList, attribute)
    {
      var max := 0;
      prototype := "";
      var values := attribute.Iterator();
      ghost var fs := Frequencies(data, idList, attribute.index, values);
      for j := 0 to |values|
        invariant var b := FirstStrictMax(fs[..j]);
          max == (if b < 0 then 0 else fs[b]) && prototype == (if b < 0 then "" else values[b])
      {
        var tmp := Frequency(attribute, this, idList, values[j]);
        assert fs[..j + 1][..j] == fs[..j];
        if tmp > max {
          max := tmp;
          prototype := values[j];
        }
      }
      assert fs[..|values|] == fs;
    }

    /** Mean of a continuous attribute over the ids; None for no ids. */
    method ComputeContinuousPrototype(idList: set<int>, attribute: Attribute) returns (p: Option<real>)
      requires Valid() && Owns(attribute) && attribute.ContinuousAttribute? && IdsIn(idList, |data|)
      ensures p == ContinuousPrototype(data, idList, attribute.index)
    {
      OwnedColumn(data, attributeSet, attribute);
      var col := attribute.GetIndex();
      ghost var w := Column(data, col);
      var sum := 0.0;
      var rest := idList;
      while rest != {}
        invariant rest <= idList
        invariant sum + SumOver(rest, w) == SumOver(idList, w)
        decreases rest
      {
        NonEmptyHasElement(rest);
        var i :| i in rest;
        assert Compatible(attributeSet, data[i]) && Fits(attributeSet[col], data[i][col]);
        SumOverRemove(rest, w, i);
        sum := sum + GetAttributeValue(i, col).x;
        rest := rest - {i};
      }
      if |idList| == 0 {
        p := None;
      } else {
        p := Some(sum / |idList| as real);
      }
    }
  }

  /**
   * Frequency of the discrete value v among the rows of the ids, in the
   * column of the attribute.
   */
  method Frequency(attribute: Attribute, data: Data, idList: set<int>, v: string) returns (count: nat)
    requires attribute.DiscreteAttribute? && data.Valid() && data.Owns(attribute)
    requires IdsIn(idList, |data.data|)
    ensures count == Count(data.data, idList, attribute.index, v)
  {
    OwnedColumn(data.data, data.attributeSet, attribute);
    var col := attribute.GetIndex();
    count := 0;
    var rest := idList;
    while rest != {}
      invariant rest <= idList
      invariant count == Count(data.data, idList - rest, col, v)
      decreases rest
    {
      NonEmptyHasElement(rest);
      var i :| i in rest;
      assert Compatible(data.attributeSet, data.data[i]);
      CountAddOne(data.data, idList - rest, col, v, i);
      assert idList - (rest - {i}) == (idList - rest) + {i};
      if data.GetAttributeValue(i, col) == Discrete(v) {
        count := count + 1;
      }
      rest := rest - {i};
    }
    assert idList - rest == idList;
  }
}
