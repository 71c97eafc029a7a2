/**
 * The even-odd ray-casting test (W. R. Franklin's pnpoly): a point lies
 * inside a polygon when a ray cast from it towards increasing longitude
 * crosses the polygon's edges an odd number of times.
 *
 * `x` is the longitude and `y` the latitude of the point; a polygon is the
 * sequence of its vertices, closed implicitly by the edge from the first
 * vertex back to the last.
 */
module PointInPolygon {
  import opened Coords

  /** An edge, as the two vertices `(vs[i], vs[j])` the loop pairs up. */
  datatype Edge = Edge(a: Coord, b: Coord)

  /** The index the loop pairs with `i`: its predecessor, cyclically. */
  function Prev(i: nat, n: nat): nat
    requires i < n
  {
    if i == 0 then n - 1 else i - 1
  }

  /** The edges in the order the loop visits them: `(i, i - 1 mod n)`. */
  function Edges(vs: seq<Coord>): (es: seq<Edge>)
    ensures |es| == |vs|
  {
    seq(|vs|, i requires 0 <= i < |vs| => Edge(vs[i], vs[Prev(i, |vs|)]))
  }

  /**
   * The loop's `intersect`: the edge from `(xi, yi)` to `(xj, yj)` straddles
   * the horizontal line through `(x, y)` and meets it east of the point. The
   * division is only reached when `yi != yj`, as with Java's short-circuit
   * `&&`.
   */
  predicate Intersect(x: real, y: real, xi: real, yi: real, xj: real, yj: real) {
    ((yi > y) != (yj > y)) && (x < (xj - xi) * (y - yi) / (yj - yi) + xi)
  }

  /** Whether the ray from `(x, y)` crosses edge `e`. */
  predicate Crosses(x: real, y: real, e: Edge) {
    Intersect(x, y, e.a.lon, e.a.lat, e.b.lon, e.b.lat)
  }

  /** The number of edges of `es` the ray crosses. */
  function Crossings(x: real, y: real, es: seq<Edge>): nat {
    if |es| == 0 then 0
    else Crossings(x, y, es[..|es| - 1]) + (if Crosses(x, y, es[|es| - 1]) then 1 else 0)
  }

  /** The even-odd rule over the closed polygon. */
  predicate Pip(x: real, y: real, vs: seq<Coord>) {
    Crossings(x, y, Edges(vs)) % 2 == 1
  }

  /**
   * `pointInPolygon` / `pip`: `point` is `[longitude, latitude]`; the flag
   * flips once per crossing edge.
   */
  method PointInPolygon(point: array<real>, vs: array<Coord>) returns (inside: bool)
    requires point.Length >= 2
    ensures inside == Pip(point[0], point[1], vs[..])
  {
    var x, y := point[0], point[1];
    ghost var es := Edges(vs[..]);
    inside := false;
    var i, j := 0, vs.Length - 1;
    while i < vs.Length
      invariant 0 <= i <= vs.Length
      invariant i < vs.Length ==> j == Prev(i, vs.Length)
      invariant inside == (Crossings(x, y, es[..i]) % 2 == 1)
    {
      var xi, yi := vs[i].lon, vs[i].lat;
      var xj, yj := vs[j].lon, vs[j].lat;
      var intersect := Intersect(x, y, xi, yi, xj, yj);
      assert es[i] == Edge(vs[i], vs[j]);
      assert intersect == Crosses(x, y, es[i]);
      CrossingsSnoc(x, y, es, i);
      if intersect {
        inside := !inside;
      }
      j, i := i, i + 1;
    }
    assert es[..i] == es;
  }

  /** One more edge adds one when it is crossed. */
  lemma CrossingsSnoc(x: real, y: real, es: seq<Edge>, i: nat)
    requires i < |es|
    ensures Crossings(x, y, es[..i + 1]) == Crossings(x, y, es[..i]) + (if Crosses(x, y, es[i]) then 1 else 0)
  {
    assert es[..i + 1][..i] == es[..i];
  }

  /** Counting over a concatenation adds up. */
  lemma {:induction false} CrossingsAppend(x: real, y: real, s: seq<Edge>, t: seq<Edge>)
    ensures Crossings(x, y, s + t) == Crossings(x, y, s) + Crossings(x, y, t)
  {
    if |t| == 0 {
      assert s + t == s;
    } else {
      CrossingsAppend(x, y, s, t[..|t| - 1]);
      assert (s + t)[..|s + t| - 1] == s + t[..|t| - 1];
    }
  }

  /** A polygon without vertices contains no point. */
  lemma PipEmpty(x: real, y: real)
    ensures !Pip(x, y, [])
  {
  }

  /** An edge whose end points share a latitude is never crossed. */
  lemma HorizontalNeverCrosses(x: real, y: real, e: Edge)
    requires e.a.lat == e.b.lat
    ensures !Crosses(x, y, e)
  {
  }

  /** No edge crossed means nothing counted. */
  lemma {:induction false} NoCrossings(x: real, y: real, es: seq<Edge>)
    requires forall k :: 0 <= k < |es| ==> !Crosses(x, y, es[k])
    ensures Crossings(x, y, es) == 0
  {
    if |es| > 0 {
      NoCrossings(x, y, es[..|es| - 1]);
    }
  }

  /**
   * A point on or north of every vertex, or strictly south of every vertex,
   * is outside: no edge straddles its latitude.
   */
  lemma PipOutsideLatitudes(x: real, y: real, vs: seq<Coord>)
    requires (forall k :: 0 <= k < |vs| ==> vs[k].lat <= y) || (forall k :: 0 <= k < |vs| ==> vs[k].lat > y)
    ensures !Pip(x, y, vs)
  {
    var es := Edges(vs);
    forall k | 0 <= k < |es|
      ensures !Crosses(x, y, es[k])
    {
      assert es[k].a == vs[k] && es[k].b == vs[Prev(k, |vs|)];
    }
    NoCrossings(x, y, es);
  }

  /** The polygon whose vertex list starts at `vs[k]` and wraps around. */
  function Rotate(vs: seq<Coord>, k: nat): seq<Coord>
    requires k <= |vs|
  {
    vs[k..] + vs[..k]
  }

  /** Starting the vertex list one later starts the edge list one later. */
  lemma EdgesRotateOne(vs: seq<Coord>)
    requires |vs| > 0
    ensures Edges(Rotate(vs, 1)) == Edges(vs)[1..] + [Edges(vs)[0]]
  {
    var n := |vs|;
    var r := Rotate(vs, 1);
    var lhs, rhs := Edges(r), Edges(vs)[1..] + [Edges(vs)[0]];
    forall i | 0 <= i < n
      ensures lhs[i] == rhs[i]
    {
      if i == n - 1 {
        assert r[i] == vs[0] && r[Prev(i, n)] == vs[n - 1];
      } else {
        assert r[i] == vs[i + 1] && r[Prev(i, n)] == vs[Prev(i + 1, n)];
      }
    }
  }

  /** Rotating by `k + 1` is rotating by `k` and then by one. */
  lemma RotateStep(vs: seq<Coord>, k: nat)
    requires k < |vs|
    ensures Rotate(vs, k + 1) == Rotate(Rotate(vs, k), 1)
  {
    var r := Rotate(vs, k);
    assert r[0] == vs[k];
    assert r[1..] == vs[k + 1..] + vs[..k];
    assert vs[..k + 1] == vs[..k] + [vs[k]];
  }

  /** Rotating by one moves the first edge to the end, which keeps the count. */
  lemma CrossingsRotateOne(x: real, y: real, vs: seq<Coord>)
    requires |vs| > 0
    ensures Crossings(x, y, Edges(Rotate(vs, 1))) == Crossings(x, y, Edges(vs))
  {
    EdgesRotateOne(vs);
    var es := Edges(vs);
    var e := [es[0]];
    CrossingsAppend(x, y, es[1..], e);
    CrossingsAppend(x, y, e, es[1..]);
    assert e + es[1..] == es;
  }

  /** Rotating the vertex list keeps the edge set, and so the answer. */
  lemma {:induction false} PipRotate(x: real, y: real, vs: seq<Coord>, k: nat)
    requires k <= |vs|
    ensures Crossings(x, y, Edges(Rotate(vs, k))) == Crossings(x, y, Edges(vs))
    ensures Pip(x, y, Rotate(vs, k)) == Pip(x, y, vs)
  {
    if k == 0 {
      assert Rotate(vs, 0) == vs;
    } else {
      PipRotate(x, y, vs, k - 1);
      RotateStep(vs, k - 1);
      CrossingsRotateOne(x, y, Rotate(vs, k - 1));
    }
  }
}
