/**
 * The helpers the coverage sweep is built from (geohash/GeoHashUtils.java,
 * GeoHashUtils.java and their private copies in PolygonGeoHash.java and
 * GeoHashesInPolygon.java): a cell's centre with its half-extents, the
 * west-of test on longitudes, a polygon's bounding box, the neighbouring
 * cell in a direction, and the 0/1 inside test.
 */
module GeoHashUtils {
  import opened Wrappers
  import opened Coords
  import opened Base32
  import opened GeoHash
  import PointInPolygon

  /** `Double.MAX_VALUE`, `(2^53 - 1) * 2^971`, the sentinel `polyToBB` starts from. */
  const DOUBLE_MAX: real := 179769313486231570814527423731704356798070567525844996598917476803157260780028538760589558632766878171540458953514382464234321326889464182768467546703537516986049910576551282076245490090389328944075868508455133942304583236903222948165808559332123348274797826204144723168738177180919299881250404026184124858368.0

  /**
   * The centre of a rectangle and its distances to the northern and eastern
   * edges, as `decodeWithError` computes them from the `decode_bbox` array.
   */
  function Centre(bbox: Box): (c: CoordWithError)
    ensures c.lat - c.latErr == bbox.minLat && c.lat + c.latErr == bbox.maxLat
    ensures c.lon - c.lonErr == bbox.minLon && c.lon + c.lonErr == bbox.maxLon
  {
    var lat := (bbox.minLat + bbox.maxLat) / 2.0;
    var lon := (bbox.minLon + bbox.maxLon) / 2.0;
    var latErr := bbox.maxLat - lat;
    var lonErr := bbox.maxLon - lon;
    CoordWithError(lat, lon, latErr, lonErr)
  }

  /**
   * `decodeWithError` / `decode`: the centre of the cell with its
   * half-extents; `None` where `decode_bbox` throws.
   */
  function DecodeWithError(hash: string): (r: Option<CoordWithError>)
    ensures r.Some? <==> ValidHash(ToLower(hash))
    ensures r.Some? ==> var b := CellBox(ToLower(hash)); var c := r.value;
      0.0 < c.latErr && c.lat - c.latErr == b.minLat && c.lat + c.latErr == b.maxLat &&
      0.0 < c.lonErr && c.lon - c.lonErr == b.minLon && c.lon + c.lonErr == b.maxLon
  {
    match CellOf(hash)
    case None => None
    case Some(bbox) => Some(Centre(bbox))
  }

  /** A rectangle's centre lies strictly inside it. */
  lemma CentreCovers(b: Box)
    requires WellFormed(b)
    ensures Covers(b, Centre(b).lat, Centre(b).lon)
  {
  }

  /** Re-encoding a decoded centre at the same length gives back the (lower-cased) hash. */
  lemma DecodeReencodes(hash: string)
    requires ValidHash(ToLower(hash))
    ensures var c := DecodeWithError(hash).value; GeoHashOf(c.lat, c.lon, |hash|) == ToLower(hash)
  {
    var t := ToLower(hash);
    var b := CellBox(t);
    var c := Centre(b);
    CentreCovers(b);
    EncodeIffCovers(t, c.lat, c.lon);
  }

  /**
   * `isWest(lon1, lon2)`: `lon2` lies less than half a turn east of `lon1`,
   * either directly or across the 180th meridian (the `+ 360` branch).
   */
  predicate IsWest(lon1: real, lon2: real) {
    (lon1 < lon2 && lon2 - lon1 < 180.0) || (lon1 > lon2 && lon2 - lon1 + 360.0 < 180.0)
  }

  /** How far east one must travel from `lon1` to reach `lon2`, in `[0, 360)` for valid longitudes. */
  function EastwardDistance(lon1: real, lon2: real): real {
    if lon2 >= lon1 then lon2 - lon1 else lon2 - lon1 + 360.0
  }

  /**
   * On the longitudes of `[-180, 180)`, `isWest` is "strictly less than half
   * a turn to the east".
   */
  lemma IsWestEastward(lon1: real, lon2: real)
    requires -180.0 <= lon1 < 180.0 && -180.0 <= lon2 < 180.0
    ensures 0.0 <= EastwardDistance(lon1, lon2) < 360.0
    ensures IsWest(lon1, lon2) <==> 0.0 < EastwardDistance(lon1, lon2) < 180.0
  {
  }

  /** With `lon1 < lon2` it holds exactly when `lon2 - lon1 < 180`; with `lon1 > lon2` exactly when `lon1 - lon2 > 180`. */
  lemma IsWestCases(lon1: real, lon2: real)
    ensures lon1 < lon2 ==> (IsWest(lon1, lon2) <==> lon2 - lon1 < 180.0)
    ensures lon1 > lon2 ==> (IsWest(lon1, lon2) <==> lon1 - lon2 > 180.0)
    ensures lon1 == lon2 ==> !IsWest(lon1, lon2)
  {
  }

  /** No longitude is west of itself, and two longitudes are never west of each other. */
  lemma IsWestAsymmetric(lon1: real, lon2: real)
    ensures !IsWest(lon1, lon1)
    ensures !(IsWest(lon1, lon2) && IsWest(lon2, lon1))
  {
  }

  /**
   * Worked examples across the seam: 179 is west of -179, and -179 is not west of 179; but
   * 180 also counts as west of -180, the same meridian, which is why the
   * closed range is excluded above.
   */
  lemma IsWestSeam()
    ensures IsWest(179.0, -179.0) && !IsWest(-179.0, 179.0)
    ensures IsWest(180.0, -180.0)
  {
  }

  /**
   * `b` is the bounding box `polyToBB` computes for `vs`: every vertex lies in
   * it, and each bound is a vertex's coordinate or, when none reaches it, the
   * `Double.MAX_VALUE` sentinel it started from.
   */
  predicate IsBounds(b: Box, vs: seq<Coord>) {
    (forall k :: 0 <= k < |vs| ==> b.minLat <= vs[k].lat <= b.maxLat && b.minLon <= vs[k].lon <= b.maxLon) &&
    b.minLat <= DOUBLE_MAX && b.minLon <= DOUBLE_MAX && -DOUBLE_MAX <= b.maxLat && -DOUBLE_MAX <= b.maxLon &&
    (b.minLat == DOUBLE_MAX || exists k :: 0 <= k < |vs| && vs[k].lat == b.minLat) &&
    (b.minLon == DOUBLE_MAX || exists k :: 0 <= k < |vs| && vs[k].lon == b.minLon) &&
    (b.maxLat == -DOUBLE_MAX || exists k :: 0 <= k < |vs| && vs[k].lat == b.maxLat) &&
    (b.maxLon == -DOUBLE_MAX || exists k :: 0 <= k < |vs| && vs[k].lon == b.maxLon)
  }

  /** `Math.min` on values that are not NaN. */
  function Min(a: real, b: real): real {
    if a <= b then a else b
  }

  /** `Math.max` on values that are not NaN. */
  function Max(a: real, b: real): real {
    if a >= b then a else b
  }

  /**
   * `polyToBB`: `{minLat, minLon, maxLat, maxLon}` of the vertices, by
   * running minima and maxima started at `Double.MAX_VALUE` and its negation.
   */
  method PolyToBB(polygon: array<Coord>) returns (bb: Box)
    ensures IsBounds(bb, polygon[..])
    ensures bb == Bounds(polygon[..])
  {
    var minLat := DOUBLE_MAX;
    var minLon, maxLat, maxLon := minLat, -minLat, -minLat;
    var i := 0;
    while i < polygon.Length
      invariant 0 <= i <= polygon.Length
      invariant IsBounds(Box(minLat, minLon, maxLat, maxLon), polygon[..i])
    {
      var p := polygon[i];
      ghost var before := Box(minLat, minLon, maxLat, maxLon);
      minLat := Min(minLat, p.lat);
      minLon := Min(minLon, p.lon);
      maxLat := Max(maxLat, p.lat);
      maxLon := Max(maxLon, p.lon);
      BoundsStep(before, Box(minLat, minLon, maxLat, maxLon), polygon[..i], p);
      assert polygon[..i + 1] == polygon[..i] + [p];
      i := i + 1;
    }
    assert polygon[..i] == polygon[..];
    bb := Box(minLat, minLon, maxLat, maxLon);
    BoundsIsBounds(polygon[..]);
    BoundsUnique(bb, Bounds(polygon[..]), polygon[..]);
  }

  /** The bounding box as a fold over the vertices, first to last. */
  function Bounds(vs: seq<Coord>): Box {
    if |vs| == 0 then Box(DOUBLE_MAX, DOUBLE_MAX, -DOUBLE_MAX, -DOUBLE_MAX)
    else
      var b, p := Bounds(vs[..|vs| - 1]), vs[|vs| - 1];
      Box(Min(b.minLat, p.lat), Min(b.minLon, p.lon), Max(b.maxLat, p.lat), Max(b.maxLon, p.lon))
  }

  /** The fold meets the bounding-box contract. */
  lemma {:induction false} BoundsIsBounds(vs: seq<Coord>)
    ensures IsBounds(Bounds(vs), vs)
  {
    if |vs| > 0 {
      var init := vs[..|vs| - 1];
      BoundsIsBounds(init);
      BoundsStep(Bounds(init), Bounds(vs), init, vs[|vs| - 1]);
      assert init + [vs[|vs| - 1]] == vs;
    }
  }

  /** Folding one more vertex into the running bounds keeps them the bounds. */
  lemma BoundsStep(b: Box, b': Box, vs: seq<Coord>, p: Coord)
    requires IsBounds(b, vs)
    requires b' == Box(Min(b.minLat, p.lat), Min(b.minLon, p.lon), Max(b.maxLat, p.lat), Max(b.maxLon, p.lon))
    ensures IsBounds(b', vs + [p])
  {
    var ws := vs + [p];
    var n := |vs|;
    assert ws[n] == p;
    forall k | 0 <= k < n
      ensures ws[k] == vs[k]
    {
    }
  }

  /** A vertex representable as a finite `double`. */
  predicate Finite(c: Coord) {
    -DOUBLE_MAX <= c.lat <= DOUBLE_MAX && -DOUBLE_MAX <= c.lon <= DOUBLE_MAX
  }

  /** For a non-empty polygon of finite vertices every bound is attained by some vertex. */
  lemma BoundsAttained(b: Box, vs: seq<Coord>)
    requires IsBounds(b, vs) && |vs| > 0
    requires forall k :: 0 <= k < |vs| ==> Finite(vs[k])
    ensures exists k :: 0 <= k < |vs| && vs[k].lat == b.minLat
    ensures exists k :: 0 <= k < |vs| && vs[k].lon == b.minLon
    ensures exists k :: 0 <= k < |vs| && vs[k].lat == b.maxLat
    ensures exists k :: 0 <= k < |vs| && vs[k].lon == b.maxLon
  {
    assert Finite(vs[0]);
  }

  /** The bounds are determined by the vertices: two boxes meeting `IsBounds` are equal. */
  lemma BoundsUnique(b: Box, c: Box, vs: seq<Coord>)
    requires IsBounds(b, vs) && IsBounds(c, vs)
    ensures b == c
  {
  }

  /** An empty polygon leaves the sentinels in place. */
  lemma BoundsEmpty(b: Box)
    requires IsBounds(b, [])
    ensures b == Box(DOUBLE_MAX, DOUBLE_MAX, -DOUBLE_MAX, -DOUBLE_MAX)
  {
  }

  /** The point `neighbor` re-encodes: the centre moved by `direction` whole cells. */
  function NeighborPoint(c: CoordWithError, dLat: int, dLon: int): Coord {
    Coord(c.lat + dLat as real * c.latErr * 2.0, c.lon + dLon as real * c.lonErr * 2.0)
  }

  /**
   * `neighbor(hash, {dLat, dLon})`: the hash, at the same length, of the
   * centre moved by `dLat` cell heights and `dLon` cell widths.
   */
  function Neighbor(hash: string, dLat: int, dLon: int): (r: Option<string>)
    ensures r.Some? <==> ValidHash(ToLower(hash))
    ensures r.Some? ==> |r.value| == |hash| && ValidHash(r.value)
    ensures r.Some? ==> var p := NeighborPoint(DecodeWithError(hash).value, dLat, dLon);
      Covers(CellBox(r.value), p.lat, p.lon)
  {
    match DecodeWithError(hash)
    case None => None
    case Some(lonlat) =>
      var p := NeighborPoint(lonlat, dLat, dLon);
      EncodeCovers(p.lat, p.lon, |hash|);
      Some(GeoHashOf(p.lat, p.lon, |hash|))
  }

  /** The direction `{0, 0}` leads back to the hash itself. */
  lemma NeighborIdentity(hash: string)
    requires ValidHash(hash)
    ensures Neighbor(hash, 0, 0) == Some(hash)
  {
    ToLowerValid(hash);
    DecodeReencodes(hash);
  }

  /** Each step moves the centre by exactly one cell height or width. */
  lemma NeighborDistance(b: Box, dLat: int, dLon: int)
    ensures var c := Centre(b); var p := NeighborPoint(c, dLat, dLon);
      p.lat - c.lat == dLat as real * (b.maxLat - b.minLat) && p.lon - c.lon == dLon as real * (b.maxLon - b.minLon)
  {
    var c := Centre(b);
    var h, w := b.maxLat - b.minLat, b.maxLon - b.minLon;
    assert c.latErr * 2.0 == h && c.lonErr * 2.0 == w;
    assert dLat as real * c.latErr * 2.0 == dLat as real * h;
    assert dLon as real * c.lonErr * 2.0 == dLon as real * w;
  }

  /** `inside(point, polygon)`: `1` when the ray-casting test puts the point inside, else `0`. */
  function Inside(point: Coord, polygon: seq<Coord>): (r: int)
    ensures r == 0 || r == 1
    ensures r == 1 <==> PointInPolygon.Pip(point.lon, point.lat, polygon)
  {
    (if PointInPolygon.Pip(point.lon, point.lat, polygon) then 1 else 0) % 2
  }
}
