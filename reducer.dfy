/**
 * The geometry dispatcher: one order array per polygon or line of a GeoJSON
 * geometry, recursing into geometry collections, and the `Reducer` that
 * stores a feature's result under its "Order" property.
 */
module Reducer {
  import opened Points
  import opened QueueSpec
  import opened PriorityOrders

  /** A GeoJSON geometry: its type string and the coordinate fields the dispatcher reads. */
  datatype Geometry = Geometry(
    typ: string,
    lineString: seq<Coord>,
    multiLineString: seq<seq<Coord>>,
    polygon: seq<seq<Coord>>,
    multiPolygon: seq<seq<seq<Coord>>>,
    geometries: seq<Geometry>)

  /** How many order arrays a geometry of each type yields. */
  function OrderCount(g: Geometry): nat {
    if g.typ == "MultiPolygon" then |g.multiPolygon|
    else if g.typ == "Polygon" || g.typ == "LineString" then 1
    else if g.typ == "MultiLineString" then |g.multiLineString|
    else if g.typ == "GeometryCollection" then |g.geometries|
    else 0
  }

  /**
   * The geometries `ReduceGeometry` handles without a Go panic: every polygon
   * has a first ring, and every member of a collection yields at least one
   * array, since the collection takes element 0 of each member's result.
   */
  ghost predicate Reducible(g: Geometry)
    decreases g
  {
    if g.typ == "MultiPolygon" then forall i :: 0 <= i < |g.multiPolygon| ==> |g.multiPolygon[i]| >= 1
    else if g.typ == "Polygon" then |g.polygon| >= 1
    else if g.typ == "GeometryCollection" then
      forall i :: 0 <= i < |g.geometries| ==> Reducible(g.geometries[i]) && OrderCount(g.geometries[i]) > 0
    else true
  }

  /**
   * `ReduceGeometry`: the order arrays of a geometry, one per polygon or
   * line; a line is run as a one-ring polygon. Its error result is always
   * nil, so only the arrays are modelled.
   */
  function ReduceGeometry(g: Geometry): (r: seq<seq<real>>)
    requires Reducible(g)
    ensures |r| == OrderCount(g)
    decreases g
  {
    if g.typ == "MultiPolygon" then
      seq(|g.multiPolygon|, i requires 0 <= i < |g.multiPolygon| => PriorityOrder(g.multiPolygon[i]))
    else if g.typ == "Polygon" then [PriorityOrder(g.polygon)]
    else if g.typ == "MultiLineString" then
      seq(|g.multiLineString|, i requires 0 <= i < |g.multiLineString| => PriorityOrder([g.multiLineString[i]]))
    else if g.typ == "LineString" then [PriorityOrder([g.lineString])]
    else if g.typ == "GeometryCollection" then
      seq(|g.geometries|, i requires 0 <= i < |g.geometries| => ReduceGeometry(g.geometries[i])[0])
    else []
  }

  /**
   * The polygon each order array is computed from, in result order: the
   * members of a multi-geometry, a line as a one-ring polygon, and for a
   * collection the first of each member's.
   */
  function Sources(g: Geometry): (s: seq<seq<seq<Coord>>>)
    requires Reducible(g)
    ensures |s| == OrderCount(g)
    ensures forall i :: 0 <= i < |s| ==> |s[i]| >= 1
    decreases g
  {
    if g.typ == "MultiPolygon" then g.multiPolygon
    else if g.typ == "Polygon" then [g.polygon]
    else if g.typ == "MultiLineString" then
      seq(|g.multiLineString|, i requires 0 <= i < |g.multiLineString| => [g.multiLineString[i]])
    else if g.typ == "LineString" then [[g.lineString]]
    else if g.typ == "GeometryCollection" then
      seq(|g.geometries|, i requires 0 <= i < |g.geometries| => Sources(g.geometries[i])[0])
    else []
  }

  /** Every order array of the result is the priority order of its source polygon. */
  lemma {:induction false} ReduceGeometryFromSources(g: Geometry)
    requires Reducible(g)
    ensures forall i :: 0 <= i < OrderCount(g) ==> ReduceGeometry(g)[i] == PriorityOrder(Sources(g)[i])
    decreases g
  {
    if g.typ == "GeometryCollection" {
      forall i | 0 <= i < |g.geometries|
        ensures ReduceGeometry(g)[i] == PriorityOrder(Sources(g)[i])
      {
        ReduceGeometryFromSources(g.geometries[i]);
      }
    } else if g.typ == "MultiPolygon" {
      assert Sources(g) == g.multiPolygon;
    } else if g.typ == "MultiLineString" {
      forall i | 0 <= i < |g.multiLineString|
        ensures ReduceGeometry(g)[i] == PriorityOrder(Sources(g)[i])
      {
        assert Sources(g)[i] == [g.multiLineString[i]];
      }
    } else if g.typ == "Polygon" || g.typ == "LineString" {
      assert |ReduceGeometry(g)| == 1;
    } else {
      assert OrderCount(g) == 0;
    }
  }

  /**
   * Every order array of the result scores the vertices of its source's
   * first ring (or line) as `getQueuePriorityOrder` does.
   */
  lemma ReduceGeometryScores(g: Geometry)
    requires Reducible(g)
    ensures forall i :: 0 <= i < OrderCount(g) ==> VertexScores(ReduceGeometry(g)[i], |Sources(g)[i][0]|)
  {
    ReduceGeometryFromSources(g);
    forall i | 0 <= i < OrderCount(g) ensures VertexScores(ReduceGeometry(g)[i], |Sources(g)[i][0]|) {
      PriorityOrderScores(Sources(g)[i]);
    }
  }

  /** A polygon's holes do not change its order array. */
  lemma PolygonHolesIgnored(g: Geometry)
    requires g.typ == "Polygon" && |g.polygon| >= 1
    ensures ReduceGeometry(g) == ReduceGeometry(g.(polygon := g.polygon[..1]))
  {
    OnlyFirstRingCounts(g.polygon, g.polygon[..1]);
  }

  /** A value stored in a feature's properties. */
  datatype Property = OrderProperty(order: seq<seq<real>>) | OtherProperty(text: string)

  /** A GeoJSON feature: its geometry and its properties. */
  datatype Feature = Feature(geometry: Geometry, properties: map<string, Property>)

  /** The feature after `ReduceFeature`: the geometry's order arrays stored under "Order". */
  function Reduced(f: Feature): (r: Feature)
    requires Reducible(f.geometry)
    ensures r.geometry == f.geometry
    ensures "Order" in r.properties && r.properties["Order"] == OrderProperty(ReduceGeometry(f.geometry))
    ensures forall k :: k != "Order" ==> (k in r.properties <==> k in f.properties)
    ensures forall k :: k != "Order" && k in f.properties ==> r.properties[k] == f.properties[k]
  {
    f.(properties := f.properties["Order" := OrderProperty(ReduceGeometry(f.geometry))])
  }

  /** Reducing a feature twice gives what reducing it once does. */
  lemma ReducedIdempotent(f: Feature)
    requires Reducible(f.geometry)
    ensures Reduced(Reduced(f)) == Reduced(f)
  {
    assert Reduced(Reduced(f)).properties == Reduced(f).properties;
  }

  /** `Reducer`: the features of a collection, reduced one at a time. */
  class Reducer {
    var data: seq<Feature>

    constructor (features: seq<Feature>)
      ensures data == features
    {
      data := features;
    }

    /** `ReduceFeature(index)`: set the feature's "Order" property; nothing else changes. */
    method ReduceFeature(index: nat)
      requires index < |data| && Reducible(data[index].geometry)
      modifies this
      ensures data == old(data)[index := Reduced(old(data)[index])]
    {
      var order := ReduceGeometry(data[index].geometry);
      var f := data[index];
      data := data[index := f.(properties := f.properties["Order" := OrderProperty(order)])];
    }

    /** `BatchReduceGEOJSON`'s loop run one feature after another: every feature reduced. */
    method BatchReduce()
      requires forall i :: 0 <= i < |data| ==> Reducible(data[i].geometry)
      modifies this
      ensures |data| == |old(data)| && forall i :: 0 <= i < |data| ==> data[i] == Reduced(old(data)[i])
    {
      var idx := 0;
      while idx < |data|
        invariant idx <= |data| == |old(data)|
        invariant forall i :: 0 <= i < idx ==> data[i] == Reduced(old(data)[i])
        invariant forall i :: idx <= i < |data| ==> data[i] == old(data)[i]
      {
        ReduceFeature(idx);
        idx := idx + 1;
      }
    }
  }
}
