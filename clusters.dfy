/** A cluster: a centroid tuple and the set of row ids assigned to it. */
module Clusters {
  import opened Attributes
  import opened DataSpec
  import opened Dataset

  class Cluster {
    const centroid: Tuple
    var clusteredData: set<int>

    /** A cluster around the given centroid, with no rows yet. */
    constructor (centroid: Tuple)
      ensures GetCentroid() == centroid && clusteredData == {}
    {
      this.centroid := centroid;
      clusteredData := {};
    }

    function GetCentroid(): Tuple {
      centroid
    }

    /**
     * The centroid is a well-formed tuple over the dataset's attributes whose
     * numbers lie within their columns' ranges.
     */
    ghost predicate CentroidOver(data: Data)
      reads centroid.tuple, centroid.Items()
    {
      centroid.Valid() && centroid.Attributes() == data.attributeSet &&
      Compatible(data.attributeSet, centroid.Values()) && AllInRange(data.attributeSet, centroid.Values())
    }

    /**
     * Sets each position of the centroid to the prototype of its attribute over
     * the cluster's rows. Positions whose prototype is undefined (a continuous
     * attribute of an empty cluster) keep their value, and defined reports
     * whether every prototype was defined. The rows do not change.
     */
    method ComputeCentroid(data: Data) returns (defined: bool)
      requires data.Valid() && CentroidOver(data) && IdsIn(clusteredData, |data.data|)
      modifies centroid.Items()
      ensures CentroidOver(data)
      ensures centroid.Values() == Recomputed(old(centroid.Values()), data.data, data.attributeSet, clusteredData)
      ensures defined <==> PrototypesDefined(data.attributeSet, clusteredData)
    {
      var n := centroid.GetLength();
      ghost var atts := data.attributeSet;
      ghost var before := centroid.Values();
      ghost var after := Recomputed(before, data.data, atts, clusteredData);
      RecomputedCompatible(before, data.data, atts, clusteredData);
      defined := true;
      for i := 0 to n
        invariant centroid.Valid() && centroid.Attributes() == atts
        invariant forall c :: 0 <= c < i ==> centroid.tuple[c].value == after[c]
        invariant forall c :: i <= c < n ==> centroid.tuple[c].value == before[c]
        invariant defined <==> forall c :: 0 <= c < i ==> Prototype(data.data, clusteredData, atts[c]).Some?
      {
        assert centroid.tuple[i] in centroid.tuple[..];
        var d := centroid.Get(i).Update(data, clusteredData);
        defined := defined && d;
      }
      assert centroid.Values() == after;
    }

    /** Adds id to the rows; reports whether it was not there before. */
    method AddData(id: int) returns (added: bool)
      modifies this
      ensures added <==> id !in old(clusteredData)
      ensures clusteredData == old(clusteredData) + {id}
    {
      added := id !in clusteredData;
      clusteredData := clusteredData + {id};
    }

    /** Whether id is one of the cluster's rows. */
    function Contain(id: int): (b: bool)
      reads this
      ensures b <==> id in clusteredData
    {
      id in clusteredData
    }

    /** Removes id from the rows; every other row stays. */
    method RemoveTuple(id: int)
      modifies this
      ensures clusteredData == old(clusteredData) - {id}
    {
      clusteredData := clusteredData - {id};
    }
  }
}
