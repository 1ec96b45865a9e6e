/** Conversion of a placemark's shape to the feature layer's wire form: a
    point becomes its x and y, lines become paths, polygons become rings, and
    every result is tagged with spatial reference 4326 (WGS 84).  Coordinate
    values are of an arbitrary type `N`; nothing is computed with them. */
module Geometry {
  import opened Common

  /** The spatial reference id every converted shape carries. */
  const Wgs84: nat := 4326

  /** One coordinate tuple: x, y and an optional z. */
  datatype Vertex<N> = Vertex(x: N, y: N, z: Option<N>)

  /** A polygon: its exterior ring and its holes, each a list of vertices. */
  datatype Polygon<N> = Polygon(exterior: seq<Vertex<N>>, interiors: seq<seq<Vertex<N>>>)

  /** The shapes the scripts tell apart; any other geometry type is `OtherShape`. */
  datatype Shape<N> =
    | Point(at: Vertex<N>)
    | LineString(coords: seq<Vertex<N>>)
    | PolygonShape(polygon: Polygon<N>)
    | MultiPolygon(polygons: seq<Polygon<N>>)
    | MultiLineString(lines: seq<seq<Vertex<N>>>)
    | OtherShape

  /** The wire form: `{x, y}`, `{paths}` or `{rings}`, with a spatial reference. */
  datatype Wire<N> =
    | XY(x: N, y: N, wkid: nat)
    | Paths(paths: seq<seq<Vertex<N>>>, wkid: nat)
    | Rings(rings: seq<seq<Vertex<N>>>, wkid: nat)

  /** The rings of one polygon: the exterior first, then the holes in order. */
  function PolygonRings<N>(p: Polygon<N>): (rings: seq<seq<Vertex<N>>>)
    ensures |rings| == 1 + |p.interiors| && rings[0] == p.exterior
    ensures forall k :: 0 <= k < |p.interiors| ==> rings[k + 1] == p.interiors[k]
  {
    [p.exterior] + p.interiors
  }

  /** The rings of several polygons, one polygon after the other. */
  function AllRings<N>(ps: seq<Polygon<N>>): seq<seq<Vertex<N>>>
  {
    if ps == [] then [] else AllRings(ps[..|ps| - 1]) + PolygonRings(ps[|ps| - 1])
  }

  /** Total number of holes. */
  function HoleCount<N>(ps: seq<Polygon<N>>): nat
  {
    if ps == [] then 0 else HoleCount(ps[..|ps| - 1]) + |ps[|ps| - 1].interiors|
  }

  /** N polygons with h1 … hN holes give N + h1 + … + hN rings. */
  lemma {:induction false} AllRingsCount<N>(ps: seq<Polygon<N>>)
    ensures |AllRings(ps)| == |ps| + HoleCount(ps)
  {
    if ps != [] {
      AllRingsCount(ps[..|ps| - 1]);
    }
  }

  /** The rings of a concatenation are the rings of each part in order: which
      polygon a ring came from is not recorded, only the order. */
  lemma {:induction false} AllRingsConcat<N>(a: seq<Polygon<N>>, b: seq<Polygon<N>>)
    ensures AllRings(a + b) == AllRings(a) + AllRings(b)
    decreases |b|
  {
    if b == [] {
      assert a + b == a;
    } else {
      var n := |b| - 1;
      assert (a + b)[..|a + b| - 1] == a + b[..n];
      assert (a + b)[|a + b| - 1] == b[n];
      AllRingsConcat(a, b[..n]);
    }
  }

  /** The loop over the polygons of a multipolygon: append each exterior,
      then extend with its holes. */
  method CollectRings<N>(ps: seq<Polygon<N>>) returns (rings: seq<seq<Vertex<N>>>)
    ensures rings == AllRings(ps)
    ensures |rings| == |ps| + HoleCount(ps)
  {
    rings := [];
    var i := 0;
    while i < |ps|
      invariant 0 <= i <= |ps|
      invariant rings == AllRings(ps[..i])
    {
      var poly := ps[i];
      assert ps[..i + 1][..i] == ps[..i];
      rings := rings + [poly.exterior];
      rings := rings + poly.interiors;
      i := i + 1;
    }
    assert ps[..i] == ps;
    AllRingsCount(ps);
  }

  /** The wire form of a shape, or `None` for an empty multi-shape and for
      any other geometry type. */
  function WireOf<N>(s: Shape<N>): (w: Option<Wire<N>>)
    ensures w.Some? ==> w.value.wkid == Wgs84
  {
    match s
    case Point(v) => Some(XY(v.x, v.y, Wgs84))
    case LineString(coords) => Some(Paths([coords], Wgs84))
    case PolygonShape(p) => Some(Rings(PolygonRings(p), Wgs84))
    case MultiPolygon(ps) =>
      var rings := AllRings(ps);
      if rings != [] then Some(Rings(rings, Wgs84)) else None
    case MultiLineString(lines) =>
      if lines != [] then Some(Paths(lines, Wgs84)) else None
    case OtherShape => None
  }

  /** The conversion branch of the feature loop. */
  method ConvertGeometry<N>(s: Shape<N>) returns (w: Option<Wire<N>>)
    ensures w == WireOf(s)
    ensures w.Some? ==> w.value.wkid == Wgs84
  {
    match s {
      case Point(v) =>
        w := Some(XY(v.x, v.y, Wgs84));
      case LineString(coords) =>
        w := Some(Paths([coords], Wgs84));
      case PolygonShape(p) =>
        w := Some(Rings([p.exterior] + p.interiors, Wgs84));
      case MultiPolygon(ps) =>
        var rings := CollectRings(ps);
        w := if rings != [] then Some(Rings(rings, Wgs84)) else None;
      case MultiLineString(lines) =>
        w := if lines != [] then Some(Paths(lines, Wgs84)) else None;
      case OtherShape =>
        w := None;
    }
  }

  /** What each shape becomes: a point its coordinates, a line one path, a
      polygon 1 + (holes) rings with the exterior first, N polygons N + (all
      holes) rings in input order, a multi-line one path per line; exactly
      the empty multi-shapes and other types give nothing. */
  lemma {:induction false} WireOfShapes<N>(s: Shape<N>)
    ensures s.Point? ==> WireOf(s) == Some(XY(s.at.x, s.at.y, Wgs84))
    ensures s.LineString? ==> WireOf(s) == Some(Paths([s.coords], Wgs84))
    ensures s.PolygonShape? ==>
      (WireOf(s).Some? && WireOf(s).value.Rings? &&
       |WireOf(s).value.rings| == 1 + |s.polygon.interiors| && WireOf(s).value.rings[0] == s.polygon.exterior)
    ensures s.MultiPolygon? ==>
      ((WireOf(s).Some? <==> s.polygons != []) &&
       (s.polygons != [] ==> WireOf(s).value.Rings? && |WireOf(s).value.rings| == |s.polygons| + HoleCount(s.polygons)))
    ensures s.MultiLineString? ==>
      ((WireOf(s).Some? <==> s.lines != []) &&
       (s.lines != [] ==> WireOf(s).value.Paths? && |WireOf(s).value.paths| == |s.lines|))
    ensures s.OtherShape? ==> WireOf(s) == None
  {
    if s.MultiPolygon? {
      AllRingsCount(s.polygons);
    }
  }
}
