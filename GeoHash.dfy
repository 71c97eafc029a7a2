/**
 * The geohash codec of geohash/GeoHash.java (and its copies in
 * PolygonGeoHash.java): bit-by-bit bisection of the longitude and latitude
 * intervals, five bits per base-32 character, and the inverse replay that
 * recovers a cell's bounding box.
 *
 * Coordinates are exact reals, so every halving is exact.
 */
module GeoHash {
  import opened Wrappers
  import opened Base32
  import opened Coords

  /** Half the latitude range, LATITUDE_RANGE. */
  const LATITUDE_RANGE: real := 90.0
  /** Half the longitude range, LONGITUDE_RANGE. */
  const LONGITUDE_RANGE: real := 180.0
  /** DEFAULT_PRECISION: the number of characters `encode(lat, lon)` produces. */
  const DEFAULT_PRECISION: nat := 12

  /** A cell rectangle, in the order of the Java arrays `{minlat, minlon, maxlat, maxlon}`. */
  datatype Box = Box(minLat: real, minLon: real, maxLat: real, maxLon: real)

  /** The rectangle both bisections start from. */
  const World: Box := Box(-LATITUDE_RANGE, -LONGITUDE_RANGE, LATITUDE_RANGE, LONGITUDE_RANGE)

  /** A non-empty rectangle inside the world. */
  predicate WellFormed(b: Box) {
    -LATITUDE_RANGE <= b.minLat < b.maxLat <= LATITUDE_RANGE &&
    -LONGITUDE_RANGE <= b.minLon < b.maxLon <= LONGITUDE_RANGE
  }

  /** `inner` lies inside `outer`. */
  predicate Within(inner: Box, outer: Box) {
    outer.minLat <= inner.minLat && inner.maxLat <= outer.maxLat &&
    outer.minLon <= inner.minLon && inner.maxLon <= outer.maxLon
  }

  /** Global bit `k` refines longitude when even and latitude when odd. */
  predicate IsLonBit(k: nat) {
    k % 2 == 0
  }

  /** The midpoint of one axis of `b`. */
  function Middle(b: Box, isLon: bool): real {
    if isLon then (b.minLon + b.maxLon) / 2.0 else (b.minLat + b.maxLat) / 2.0
  }

  /** One bisection step: a set bit keeps the upper half, a clear bit the lower half. */
  function Refine(b: Box, isLon: bool, bit: bool): Box {
    var mid := Middle(b, isLon);
    if isLon then
      (if bit then b.(minLon := mid) else b.(maxLon := mid))
    else
      (if bit then b.(minLat := mid) else b.(maxLat := mid))
  }

  /** The rectangle left after replaying `bits` from the world, longitude first. */
  function BoxAfter(bits: seq<bool>): (b: Box)
    ensures WellFormed(b)
  {
    if |bits| == 0 then World
    else
      var k := |bits| - 1;
      Refine(BoxAfter(bits[..k]), IsLonBit(k), bits[k])
  }

  /** The coordinate an axis bisects. */
  function AxisValue(lat: real, lon: real, isLon: bool): real {
    if isLon then lon else lat
  }

  /**
   * The first `k` bits the encoder chooses for a point: each is set exactly
   * when the coordinate exceeds the midpoint of the current interval.
   */
  function BisectBits(lat: real, lon: real, k: nat): (bits: seq<bool>)
    ensures |bits| == k
  {
    if k == 0 then []
    else
      var prev := BisectBits(lat, lon, k - 1);
      var isLon := IsLonBit(k - 1);
      prev + [AxisValue(lat, lon, isLon) > Middle(BoxAfter(prev), isLon)]
  }

  /**
   * Membership of one axis value in `[lo, hi]` as the bisection decides it:
   * values on a midpoint belong to the lower half; a side that was never
   * moved also takes every value beyond the world's edge on that side.
   */
  predicate InAxis(lo: real, hi: real, v: real, worldLo: real, worldHi: real) {
    (lo < v || lo == worldLo) && (v <= hi || hi == worldHi)
  }

  /** The point `(lat, lon)` is assigned to the rectangle `b`. */
  predicate Covers(b: Box, lat: real, lon: real) {
    InAxis(b.minLat, b.maxLat, lat, -LATITUDE_RANGE, LATITUDE_RANGE) &&
    InAxis(b.minLon, b.maxLon, lon, -LONGITUDE_RANGE, LONGITUDE_RANGE)
  }

  /** One step of bisection keeps a point exactly when the bit agrees with the point. */
  lemma RefineCovers(b: Box, isLon: bool, bit: bool, lat: real, lon: real)
    requires WellFormed(b)
    ensures Covers(Refine(b, isLon, bit), lat, lon) <==>
      Covers(b, lat, lon) && (AxisValue(lat, lon, isLon) > Middle(b, isLon)) == bit
  {
  }

  /**
   * A replayed rectangle covers a point exactly when the encoder, given that
   * point, chooses those very bits.
   */
  lemma {:induction false} CoversIffBits(bits: seq<bool>, lat: real, lon: real)
    ensures Covers(BoxAfter(bits), lat, lon) <==> BisectBits(lat, lon, |bits|) == bits
  {
    if |bits| > 0 {
      var k := |bits| - 1;
      var init := bits[..k];
      assert bits == init + [bits[k]];
      var isLon := IsLonBit(k);
      CoversIffBits(init, lat, lon);
      RefineCovers(BoxAfter(init), isLon, bits[k], lat, lon);
      var prev := BisectBits(lat, lon, k);
      if BisectBits(lat, lon, |bits|) == bits {
        assert BisectBits(lat, lon, |bits|)[..k] == prev;
      }
    }
  }

  /** The bits of the first `k` steps do not depend on how many steps follow. */
  lemma {:induction false} BisectPrefix(lat: real, lon: real, m: nat, k: nat)
    requires k <= m
    ensures BisectBits(lat, lon, m)[..k] == BisectBits(lat, lon, k)
  {
    if k < m {
      var bits, prev := BisectBits(lat, lon, m), BisectBits(lat, lon, m - 1);
      BisectPrefix(lat, lon, m - 1, k);
      assert bits[..m - 1] == prev;
      assert bits[..k] == prev[..k];
    }
  }

  /** The geohash of a point with `n` characters: `encode(lat, lon, n)`. */
  function GeoHashOf(lat: real, lon: real, n: nat): (h: string)
    ensures |h| == n && ValidHash(h)
  {
    Chars(BisectBits(lat, lon, 5 * n), n)
  }

  /** The rectangle of a valid geohash: `decode_bbox` on a lower-case hash. */
  function CellBox(h: string): (b: Box)
    requires ValidHash(h)
    ensures WellFormed(b)
  {
    BoxAfter(HashBits(h))
  }

  /**
   * The central fact: a valid geohash is the encoding of a point exactly
   * when its cell covers the point.
   */
  lemma EncodeIffCovers(h: string, lat: real, lon: real)
    requires ValidHash(h)
    ensures GeoHashOf(lat, lon, |h|) == h <==> Covers(CellBox(h), lat, lon)
  {
    var bits := HashBits(h);
    CoversIffBits(bits, lat, lon);
    CharsOfHashBits(h);
    if GeoHashOf(lat, lon, |h|) == h {
      HashBitsOfChars(BisectBits(lat, lon, 5 * |h|), |h|);
    }
  }

  /** Round trip: the cell of a point's geohash contains the point. */
  lemma EncodeCovers(lat: real, lon: real, n: nat)
    ensures Covers(CellBox(GeoHashOf(lat, lon, n)), lat, lon)
  {
    EncodeIffCovers(GeoHashOf(lat, lon, n), lat, lon);
  }

  /**
   * The cell of a point's geohash is the rectangle the encoder's `low`/`high`
   * arrays hold when it stops.
   */
  lemma EncodeCell(lat: real, lon: real, n: nat)
    ensures CellBox(GeoHashOf(lat, lon, n)) == BoxAfter(BisectBits(lat, lon, 5 * n))
  {
    HashBitsOfChars(BisectBits(lat, lon, 5 * n), n);
  }

  /**
   * For a point inside the world rectangle, the cell of its geohash holds it
   * between its edges on both axes.
   */
  lemma EncodeBounds(lat: real, lon: real, n: nat)
    requires InRange(lat, lon)
    ensures var b := CellBox(GeoHashOf(lat, lon, n));
      b.minLat <= lat <= b.maxLat && b.minLon <= lon <= b.maxLon
  {
    EncodeCovers(lat, lon, n);
  }

  /**
   * `b` has the extents of a cell after `k` bisections: 360 / 2^ceil(k/2)
   * degrees of longitude and 180 / 2^floor(k/2) degrees of latitude.
   */
  predicate HasWidths(b: Box, k: nat) {
    (b.maxLon - b.minLon) * Pow2((k + 1) / 2) as real == 360.0 &&
    (b.maxLat - b.minLat) * Pow2(k / 2) as real == 180.0
  }

  /** Halving a width while doubling the factor keeps the product. */
  lemma HalveWidth(w: real, p: real, c: real)
    requires w * p == c
    ensures (w / 2.0) * (2.0 * p) == c
  {
  }

  /** One bisection step turns the extents after `k` steps into those after `k + 1`. */
  lemma RefineWidths(b: Box, k: nat, bit: bool)
    requires HasWidths(b, k)
    ensures HasWidths(Refine(b, IsLonBit(k), bit), k + 1)
  {
    var r := Refine(b, IsLonBit(k), bit);
    var p := Pow2((k + 1) / 2) as real;
    var q := Pow2(k / 2) as real;
    if IsLonBit(k) {
      assert (k + 2) / 2 == (k + 1) / 2 + 1 && (k + 1) / 2 == k / 2;
      assert r.maxLon - r.minLon == (b.maxLon - b.minLon) / 2.0;
      HalveWidth(b.maxLon - b.minLon, p, 360.0);
    } else {
      assert (k + 2) / 2 == (k + 1) / 2 && (k + 1) / 2 == k / 2 + 1;
      assert r.maxLat - r.minLat == (b.maxLat - b.minLat) / 2.0;
      HalveWidth(b.maxLat - b.minLat, q, 180.0);
    }
  }

  /** After `k` bits a cell has the extents of `k` bisections. */
  lemma {:induction false} BoxWidths(bits: seq<bool>)
    ensures HasWidths(BoxAfter(bits), |bits|)
  {
    if |bits| > 0 {
      var k := |bits| - 1;
      BoxWidths(bits[..k]);
      RefineWidths(BoxAfter(bits[..k]), k, bits[k]);
    }
  }

  /** Replaying more bits only shrinks the rectangle. */
  lemma {:induction false} BoxAfterWithin(bits: seq<bool>, k: nat)
    requires k <= |bits|
    ensures Within(BoxAfter(bits), BoxAfter(bits[..k]))
  {
    if k < |bits| {
      var n := |bits| - 1;
      BoxAfterWithin(bits[..n], k);
      assert bits[..n][..k] == bits[..k];
    } else {
      assert bits[..k] == bits;
    }
  }

  /** Prefix nesting: the cell of a hash lies inside the cell of each of its prefixes. */
  lemma CellWithinPrefix(h: string, k: nat)
    requires ValidHash(h) && k <= |h|
    ensures ValidHash(h[..k]) && Within(CellBox(h), CellBox(h[..k]))
  {
    HashBitsPrefix(h, k);
    BoxAfterWithin(HashBits(h), 5 * k);
  }

  /** The cell of a hash with `n` characters has the widths of `5 * n` bisections. */
  lemma CellWidths(h: string)
    requires ValidHash(h)
    ensures HasWidths(CellBox(h), 5 * |h|)
  {
    BoxWidths(HashBits(h));
  }

  /** Prefix consistency: a shorter geohash of a point is a prefix of a longer one. */
  lemma GeoHashPrefix(lat: real, lon: real, m: nat, k: nat)
    requires k <= m
    ensures GeoHashOf(lat, lon, m)[..k] == GeoHashOf(lat, lon, k)
  {
    CharsPrefix(BisectBits(lat, lon, 5 * m), m, k);
    BisectPrefix(lat, lon, 5 * m, 5 * k);
  }

  /** `Character.toLowerCase` on the ASCII letters; every other character is kept. */
  function LowerChar(c: char): char {
    if 'A' <= c <= 'Z' then (c as int - 'A' as int + 'a' as int) as char else c
  }

  /** `String.toLowerCase`, character by character. */
  function ToLower(s: string): (t: string)
    ensures |t| == |s|
  {
    if |s| == 0 then "" else ToLower(s[..|s| - 1]) + [LowerChar(s[|s| - 1])]
  }

  /** The character at each position of a lower-cased string. */
  lemma {:induction false} ToLowerAt(s: string, i: nat)
    requires i < |s|
    ensures ToLower(s)[i] == LowerChar(s[i])
  {
    if i < |s| - 1 {
      ToLowerAt(s[..|s| - 1], i);
    }
  }

  /** Lower-casing leaves a valid geohash unchanged: its symbols are digits and lower-case letters. */
  lemma {:induction false} ToLowerValid(s: string)
    requires ValidHash(s)
    ensures ToLower(s) == s
  {
    if |s| > 0 {
      ToLowerValid(s[..|s| - 1]);
    }
  }

  /**
   * `decode_bbox`: the cell of a hash after lower-casing it, or `None` when a
   * character is not in the alphabet (the Java lookup yields null and
   * unboxing it throws).
   */
  function CellOf(s: string): Option<Box> {
    var t := ToLower(s);
    if ValidHash(t) then Some(CellBox(t)) else None
  }

  /** The encoder's state after some bisection steps: the bits chosen so far and the rectangle left. */
  datatype Bisection = Bisection(bits: seq<bool>, box: Box)

  /**
   * The first `k` bisection steps for a point, carrying the rectangle along
   * as the encoder's `low`/`high` arrays do instead of replaying the bits.
   */
  function Bisect(lat: real, lon: real, k: nat): (s: Bisection)
    ensures |s.bits| == k
  {
    if k == 0 then Bisection([], World)
    else
      var s := Bisect(lat, lon, k - 1);
      var isLon := IsLonBit(k - 1);
      var bit := AxisValue(lat, lon, isLon) > Middle(s.box, isLon);
      Bisection(s.bits + [bit], Refine(s.box, isLon, bit))
  }

  /** One more bisection step appends the bit the point's side of the midpoint gives. */
  lemma BisectStep(lat: real, lon: real, k: nat, s: Bisection)
    requires s == Bisect(lat, lon, k)
    ensures var bit := AxisValue(lat, lon, IsLonBit(k)) > Middle(s.box, IsLonBit(k));
      Bisect(lat, lon, k + 1) == Bisection(s.bits + [bit], Refine(s.box, IsLonBit(k), bit))
  {
  }

  /** Carrying the rectangle along gives the replayed bits and the replayed rectangle. */
  lemma {:induction false} BisectAgrees(lat: real, lon: real, k: nat)
    ensures Bisect(lat, lon, k).bits == BisectBits(lat, lon, k)
    ensures Bisect(lat, lon, k).box == BoxAfter(BisectBits(lat, lon, k))
  {
    if k > 0 {
      BisectAgrees(lat, lon, k - 1);
      var prev := BisectBits(lat, lon, k - 1);
      var bits := BisectBits(lat, lon, k);
      assert bits[..k - 1] == prev;
    }
  }

  /** The geohash with one more character appends the symbol of the next five bits. */
  lemma GeoHashStep(lat: real, lon: real, p: nat, hash: string, charBits: nat)
    requires hash == GeoHashOf(lat, lon, p)
    requires charBits == BitsValue(Bisect(lat, lon, 5 * p + 5).bits[5 * p..])
    ensures charBits < |CharMap|
    ensures hash + [CharMap[charBits]] == GeoHashOf(lat, lon, p + 1)
  {
    var m := 5 * p + 5;
    assert 5 * (p + 1) == m;
    BisectAgrees(lat, lon, m);
    var bits := BisectBits(lat, lon, m);
    FiveBitsBound(bits[5 * p..]);
    BisectPrefix(lat, lon, m, 5 * p);
    assert GeoHashOf(lat, lon, p + 1) == Chars(bits, p + 1) == Chars(bits[..5 * p], p) + [Symbol(charBits)];
  }

  /** Shifting a bit into the low end of a value: `(v << 1) | bit`. */
  lemma ShiftInBit(done: seq<bool>, from: nat, bit: bool)
    requires from <= |done|
    ensures BitsValue((done + [bit])[from..]) == 2 * BitsValue(done[from..]) + (if bit then 1 else 0)
  {
    assert (done + [bit])[from..] == done[from..] + [bit];
  }

  /**
   * One bisection of the encoder's arrays on index `axis` (0 longitude, 1
   * latitude): the value is compared with the midpoint and the bound on its
   * side moves to the midpoint.
   */
  method Halve(low: array<real>, high: array<real>, value: array<real>, axis: nat) returns (upper: bool)
    requires low.Length == 2 && high.Length == 2 && value.Length == 2
    requires low != high && value != low && value != high
    requires axis < 2
    modifies low, high
    ensures upper == (value[axis] > Middle(old(Box(low[1], low[0], high[1], high[0])), axis == 0))
    ensures Box(low[1], low[0], high[1], high[0]) == Refine(old(Box(low[1], low[0], high[1], high[0])), axis == 0, upper)
  {
    var middle := (high[axis] + low[axis]) / 2.0;
    upper := value[axis] > middle;
    if upper {
      low[axis] := middle;
    } else {
      high[axis] := middle;
    }
  }

  /**
   * One pass of `encode`'s inner loop: global bit `start + b` halves the
   * axis `bit % 2` and is shifted into `charBits`.
   */
  method EncodeBit(latitude: real, longitude: real, start: nat, b: nat, charBits0: nat,
                   low: array<real>, high: array<real>, value: array<real>)
    returns (charBits: nat)
    requires low.Length == 2 && high.Length == 2 && value.Length == 2
    requires low != high && value != low && value != high
    requires value[0] == longitude && value[1] == latitude
    requires Box(low[1], low[0], high[1], high[0]) == Bisect(latitude, longitude, start + b).box
    requires charBits0 == BitsValue(Bisect(latitude, longitude, start + b).bits[start..])
    modifies low, high
    ensures Box(low[1], low[0], high[1], high[0]) == Bisect(latitude, longitude, start + b + 1).box
    ensures charBits == BitsValue(Bisect(latitude, longitude, start + b + 1).bits[start..])
  {
    var bit := start + b;
    charBits := charBits0 * 2;
    var axis := bit % 2;
    assert IsLonBit(bit) == (axis == 0);
    assert value[axis] == AxisValue(latitude, longitude, IsLonBit(bit));
    ghost var before := Bisect(latitude, longitude, bit);
    var upper := Halve(low, high, value, axis);
    assert upper == (AxisValue(latitude, longitude, IsLonBit(bit)) > Middle(before.box, IsLonBit(bit)));
    assert Box(low[1], low[0], high[1], high[0]) == Refine(before.box, IsLonBit(bit), upper);
    if upper {
      charBits := charBits + 1;  // `charBits |= 1` on an even number
    }
    BisectStep(latitude, longitude, bit, before);
    ShiftInBit(before.bits, start, upper);
  }

  /**
   * The inner loop of `encode`: five bisection steps on the `low`/`high`
   * arrays, shifting each chosen bit into `charBits`.
   */
  method EncodeChar(latitude: real, longitude: real, start: nat, low: array<real>, high: array<real>, value: array<real>)
    returns (charBits: nat)
    requires low.Length == 2 && high.Length == 2 && value.Length == 2
    requires low != high && value != low && value != high
    requires value[0] == longitude && value[1] == latitude
    requires Box(low[1], low[0], high[1], high[0]) == Bisect(latitude, longitude, start).box
    modifies low, high
    ensures Box(low[1], low[0], high[1], high[0]) == Bisect(latitude, longitude, start + 5).box
    ensures charBits == BitsValue(Bisect(latitude, longitude, start + 5).bits[start..])
  {
    charBits := 0;
    var b := 0;
    while b < 5
      invariant 0 <= b <= 5
      invariant Box(low[1], low[0], high[1], high[0]) == Bisect(latitude, longitude, start + b).box
      invariant charBits == BitsValue(Bisect(latitude, longitude, start + b).bits[start..])
    {
      charBits := EncodeBit(latitude, longitude, start, b, charBits, low, high, value);
      b := b + 1;
    }
  }


  /**
   * The outer loop of `encode`: `precision` characters, each from the five
   * bisection steps that continue on the `low`/`high` arrays.
   */
  method EncodeChars(latitude: real, longitude: real, precision: int, low: array<real>, high: array<real>, value: array<real>)
    returns (hash: string)
    requires low.Length == 2 && high.Length == 2 && value.Length == 2
    requires low != high && value != low && value != high
    requires value[0] == longitude && value[1] == latitude
    requires Box(low[1], low[0], high[1], high[0]) == World
    modifies low, high
    ensures hash == GeoHashOf(latitude, longitude, if precision < 0 then 0 else precision)
    ensures Box(low[1], low[0], high[1], high[0]) == CellBox(hash)
  {
    hash := "";
    ghost var n: nat := if precision < 0 then 0 else precision;
    var p := 0;
    while p < precision
      invariant 0 <= p <= n
      invariant value[0] == longitude && value[1] == latitude
      invariant Box(low[1], low[0], high[1], high[0]) == Bisect(latitude, longitude, 5 * p).box
      invariant hash == GeoHashOf(latitude, longitude, p)
    {
      var charBits := EncodeChar(latitude, longitude, 5 * p, low, high, value);
      GeoHashStep(latitude, longitude, p, hash, charBits);
      ghost var next := GeoHashOf(latitude, longitude, p + 1);
      hash := hash + [CharMap[charBits]];
      assert hash == next;
      p := p + 1;
      assert hash == GeoHashOf(latitude, longitude, p);
    }
    assert p == n;
    BisectCell(latitude, longitude, n);
  }

  /** The intervals left after `5n` bisection steps are the cell of the `n`-character hash. */
  lemma BisectCell(lat: real, lon: real, n: nat)
    ensures Bisect(lat, lon, 5 * n).box == CellBox(GeoHashOf(lat, lon, n))
  {
    BisectAgrees(lat, lon, 5 * n);
    EncodeCell(lat, lon, n);
  }

  /** `boxes` lists the rectangles a point's first `k` bisection steps pass through. */
  lemma {:induction false} BisectBoxes(lat: real, lon: real, boxes: seq<Box>, k: nat)
    requires k < |boxes| && boxes[0] == World
    requires forall i :: 0 <= i < k ==> var isLon := IsLonBit(i);
      boxes[i + 1] == Refine(boxes[i], isLon, AxisValue(lat, lon, isLon) > Middle(boxes[i], isLon))
    ensures Bisect(lat, lon, k).box == boxes[k]
    decreases k
  {
    if k > 0 {
      BisectBoxes(lat, lon, boxes, k - 1);
    }
  }

  /** The Java `encode`: `precision` characters, none when it is not positive. */
  method Encode(latitude: real, longitude: real, precision: int) returns (hash: string)
    ensures hash == GeoHashOf(latitude, longitude, if precision < 0 then 0 else precision)
  {
    var high := new real[2];
    var low := new real[2];
    var value := new real[2];
    high[0], high[1] := LONGITUDE_RANGE, LATITUDE_RANGE;
    low[0], low[1] := -LONGITUDE_RANGE, -LATITUDE_RANGE;
    value[0], value[1] := longitude, latitude;
    hash := EncodeChars(latitude, longitude, precision, low, high, value);
  }

  /** Taking one more element of a sequence appends that element. */
  lemma TakeSnoc<T>(s: seq<T>, j: nat)
    requires j < |s|
    ensures s[..j + 1] == s[..j] + [s[j]]
  {
  }

  /** Appending one more element of `s` to `a` extends the concatenation by that element. */
  lemma AppendTakeSnoc<T>(a: seq<T>, s: seq<T>, j: nat)
    requires j < |s|
    ensures a + s[..j + 1] == a + s[..j] + [s[j]]
  {
    TakeSnoc(s, j);
  }

  /** Consecutive global bits alternate between the axes. */
  lemma AxisAlternates(k: nat)
    ensures IsLonBit(k + 1) == !IsLonBit(k)
  {
  }

  /** Replaying one more bit refines the rectangle on that bit's axis. */
  lemma BoxAfterSnoc(done: seq<bool>, bit: bool)
    ensures BoxAfter(done + [bit]) == Refine(BoxAfter(done), IsLonBit(|done|), bit)
  {
    assert (done + [bit])[..|done|] == done;
  }

  /**
   * One step of `decode_bbox`'s inner loop: a set bit raises the lower edge
   * of the axis being read to its midpoint, a clear bit lowers the upper edge.
   */
  method HalveBox(box0: Box, isLon: bool, bit: nat) returns (box: Box)
    requires bit < 2
    ensures box == Refine(box0, isLon, bit == 1)
  {
    box := box0;
    if isLon {
      var mid := (box.maxLon + box.minLon) / 2.0;
      if bit == 1 {
        box := box.(minLon := mid);
      } else {
        box := box.(maxLon := mid);
      }
    } else {
      var mid := (box.maxLat + box.minLat) / 2.0;
      if bit == 1 {
        box := box.(minLat := mid);
      } else {
        box := box.(maxLat := mid);
      }
    }
  }

  /** Bit `j` of a character, most significant first, is `(v >> (4 - j)) & 1`. */
  lemma CharBitRead(v: nat, j: nat)
    requires v < 32 && j < 5
    ensures CharBits(v)[j] == (Shr(v, 4 - j) % 2 == 1)
  {
    BitsAt(v, 5, 4 - j);
  }

  /** Replaying the next bit of `s` after `done` halves the rectangle on that bit's axis. */
  lemma BoxAfterAppendStep(done: seq<bool>, s: seq<bool>, j: nat)
    requires j < |s|
    ensures BoxAfter(done + s[..j + 1]) == Refine(BoxAfter(done + s[..j]), IsLonBit(|done| + j), s[j])
  {
    var cur := done + s[..j];
    AppendTakeSnoc(done, s, j);
    BoxAfterSnoc(cur, s[j]);
    assert |cur| == |done| + j;
  }

  /**
   * One pass of `decode_bbox`'s inner loop: reads bit `bits` of the
   * character, `(hash_value >> bits) & 1`, halves the box on the current
   * axis and switches the axis.
   */
  method DecodeBit(hashValue: nat, bits: nat, ghost done: seq<bool>, ghost j: nat, box0: Box, isLon0: bool)
    returns (box: Box, isLon: bool)
    requires hashValue < 32 && j < 5 && bits == 4 - j
    requires box0 == BoxAfter(done + CharBits(hashValue)[..j]) && isLon0 == IsLonBit(|done| + j)
    ensures box == BoxAfter(done + CharBits(hashValue)[..j + 1]) && isLon == IsLonBit(|done| + j + 1)
  {
    var bit := Shr(hashValue, bits) % 2;
    CharBitRead(hashValue, j);
    BoxAfterAppendStep(done, CharBits(hashValue), j);
    AxisAlternates(|done| + j);
    box := HalveBox(box0, isLon0, bit);
    isLon := !isLon0;
  }

  /**
   * The inner loop of `decode_bbox`: the five bits of one character, read
   * with `(hash_value >> bits) & 1` from bit 4 down to bit 0, each halving
   * the longitude or latitude interval as `islon` alternates. The four Java
   * locals `minlat`, `minlon`, `maxlat`, `maxlon` are the fields of `box`.
   */
  method DecodeChar(hashValue: nat, ghost done: seq<bool>, box0: Box, isLon0: bool) returns (box: Box, isLon: bool)
    requires hashValue < 32
    requires box0 == BoxAfter(done) && isLon0 == IsLonBit(|done|)
    ensures box == BoxAfter(done + CharBits(hashValue)) && isLon == IsLonBit(|done| + 5)
  {
    box, isLon := box0, isLon0;
    ghost var j := 0;
    assert done + CharBits(hashValue)[..0] == done;
    var bits := 4;
    while bits >= 0
      invariant -1 <= bits <= 4 && j == 4 - bits
      invariant box == BoxAfter(done + CharBits(hashValue)[..j]) && isLon == IsLonBit(|done| + j)
    {
      box, isLon := DecodeBit(hashValue, bits, done, j, box, isLon);
      bits := bits - 1;
      j := j + 1;
    }
    assert CharBits(hashValue)[..5] == CharBits(hashValue);
  }

  /**
   * `decode_bbox`: lower-cases the hash and replays the bisection of every
   * character; a character outside the alphabet yields `None` (the Java
   * lookup returns null and unboxing it throws).
   */
  method DecodeBBox(hashString: string) returns (r: Option<Box>)
    ensures r == CellOf(hashString)
  {
    var t := ToLower(hashString);
    var isLon := true;
    var box := World;
    LookupInverse();
    var i := 0;
    while i < |t|
      invariant 0 <= i <= |t|
      invariant ValidHash(t[..i])
      invariant box == CellBox(t[..i]) && isLon == IsLonBit(5 * i)
    {
      var code := t[i];
      if code !in LookupTable {
        assert !IsSymbol(t[i]);
        return None;
      }
      var hashValue := LookupTable[code];
      box, isLon := DecodeChar(hashValue, HashBits(t[..i]), box, isLon);
      CellBoxSnoc(t, i);
      i := i + 1;
    }
    assert t[..i] == t;
    return Some(box);
  }


  /** One more character of `t` refines the cell of the prefix by that character's five bits. */
  lemma CellBoxSnoc(t: string, i: nat)
    requires i < |t| && ValidHash(t[..i]) && IsSymbol(t[i])
    ensures ValidHash(t[..i + 1])
    ensures CellBox(t[..i + 1]) == BoxAfter(HashBits(t[..i]) + CharBits(SymbolValue(t[i])))
  {
    assert t[..i + 1] == t[..i] + [t[i]];
    HashBitsSnoc(t[..i], t[i]);
  }

  /**
   * `getBits`: the bits of a lower-cased hash, five per character, most
   * significant first; `None` for a character outside the alphabet.
   */
  method GetBits(hash: string) returns (r: Option<seq<bool>>)
    ensures r == (var t := ToLower(hash); if ValidHash(t) then Some(HashBits(t)) else None)
  {
    var t := ToLower(hash);
    var bits: seq<bool> := [];
    LookupInverse();
    var i := 0;
    while i < |t|
      invariant 0 <= i <= |t|
      invariant ValidHash(t[..i]) && bits == HashBits(t[..i])
    {
      if t[i] !in LookupTable {
        assert !IsSymbol(t[i]);
        return None;
      }
      var charValue := LookupTable[t[i]];
      ghost var five := CharBits(charValue);
      ghost var v := charValue;
      var j := 0;
      while j < BITS_PER_CHAR
        invariant 0 <= j <= BITS_PER_CHAR && charValue == Shl(v, j)
        invariant bits == HashBits(t[..i]) + five[..j]
      {
        ShrShl(v, j, 4);
        BitsAt(v, 5, 4 - j);
        bits := bits + [Shr(charValue, 4) % 2 == 1];  // `(charValue & 0x10) == 0x10`
        TakeSnoc(five, j);
        j := j + 1;
        charValue := charValue * 2;  // `charValue <<= 1`
      }
      assert five[..5] == five;
      assert t[..i + 1] == t[..i] + [t[i]];
      HashBitsSnoc(t[..i], t[i]);
      i := i + 1;
    }
    assert t[..i] == t;
    return Some(bits);
  }

  /** The interval of `b` on one axis, lower end first. */
  function Span(b: Box, isLon: bool): (real, real) {
    if isLon then (b.minLon, b.maxLon) else (b.minLat, b.maxLat)
  }

  /** A bisection step moves one end of its own axis to the midpoint and leaves the other axis alone. */
  lemma RefineSpan(b: Box, isLon: bool, bit: bool)
    ensures Span(Refine(b, isLon, bit), isLon) ==
      (if bit then ((Span(b, isLon).1 + Span(b, isLon).0) / 2.0, Span(b, isLon).1)
       else (Span(b, isLon).0, (Span(b, isLon).1 + Span(b, isLon).0) / 2.0))
    ensures Span(Refine(b, isLon, bit), !isLon) == Span(b, !isLon)
  {
  }

  /** The interval on one axis after the first `k` bits (all of them once `k` passes the end). */
  function AxisAfter(bits: seq<bool>, k: nat, isLon: bool): (real, real) {
    Span(BoxAfter(bits[..if k < |bits| then k else |bits|]), isLon)
  }

  /** Bit `i` refines its own axis; bit `i + 1` leaves that axis alone. */
  lemma AxisAfterStep(bits: seq<bool>, i: nat, isLon: bool)
    requires i < |bits| && IsLonBit(i) == isLon
    ensures var lh := AxisAfter(bits, i, isLon); var mid := (lh.1 + lh.0) / 2.0;
      AxisAfter(bits, i + 2, isLon) == if bits[i] then (mid, lh.1) else (lh.0, mid)
  {
    TakeSnoc(bits, i);
    BoxAfterSnoc(bits[..i], bits[i]);
    RefineSpan(BoxAfter(bits[..i]), isLon, bits[i]);
    if i + 1 < |bits| {
      TakeSnoc(bits, i + 1);
      BoxAfterSnoc(bits[..i + 1], bits[i + 1]);
      AxisAlternates(i);
      RefineSpan(BoxAfter(bits[..i + 1]), !isLon, bits[i + 1]);
    }
  }

  /**
   * `decodeBits`: replays only the bits of one axis (odd positions for
   * latitude, even ones for longitude) and returns that axis of the cell,
   * `{high, low}` for latitude and `{low, high}` for longitude.
   */
  method DecodeBits(bits: seq<bool>, latitude: bool) returns (r: (real, real))
    ensures var b := BoxAfter(bits);
      r == if latitude then (b.maxLat, b.minLat) else (b.minLon, b.maxLon)
  {
    var low, high: real;
    var offset: nat;
    if latitude {
      offset, low, high := 1, -LATITUDE_RANGE, LATITUDE_RANGE;
    } else {
      offset, low, high := 0, -LONGITUDE_RANGE, LONGITUDE_RANGE;
    }
    AxisAfterStart(bits, !latitude);
    var i := offset;
    while i < |bits|
      invariant offset <= i <= |bits| + 1 && i % 2 == offset
      invariant (low, high) == AxisAfter(bits, i, !latitude)
    {
      var middle := (high + low) / 2.0;
      if bits[i] {
        low := middle;
      } else {
        high := middle;
      }
      AxisAfterStep(bits, i, !latitude);
      i := i + 2;
    }
    AxisAfterEnd(bits, i, !latitude);
    if latitude {
      r := (high, low);
    } else {
      r := (low, high);
    }
  }

  /** Before the loop: longitude starts from the world's span, latitude after the first (longitude) bit. */
  lemma AxisAfterStart(bits: seq<bool>, isLon: bool)
    ensures AxisAfter(bits, if isLon then 0 else 1, isLon) ==
      if isLon then (-LONGITUDE_RANGE, LONGITUDE_RANGE) else (-LATITUDE_RANGE, LATITUDE_RANGE)
  {
    assert bits[..0] == [];
    if !isLon && |bits| > 0 {
      TakeSnoc(bits, 0);
      BoxAfterSnoc([], bits[0]);
      RefineSpan(World, true, bits[0]);
    }
  }

  /** After the loop: past the end, the interval is that of the whole cell. */
  lemma AxisAfterEnd(bits: seq<bool>, i: nat, isLon: bool)
    requires i >= |bits|
    ensures AxisAfter(bits, i, isLon) == Span(BoxAfter(bits), isLon)
  {
    assert bits[..|bits|] == bits;
  }

  /** The base-32 number a valid hash spells, first character most significant. */
  function Base32Value(s: string): nat
    requires ValidHash(s)
  {
    if |s| == 0 then 0 else 32 * Base32Value(s[..|s| - 1]) + SymbolValue(s[|s| - 1])
  }

  /** `n` characters spell a number below `2^(5 n)`. */
  lemma {:induction false} Base32ValueBound(s: string)
    requires ValidHash(s)
    ensures Base32Value(s) < Pow2(5 * |s|)
  {
    if |s| > 0 {
      var n := |s| - 1;
      Base32ValueBound(s[..n]);
      Pow2Add(5 * n, 5);
      Pow2Five();
      assert 5 * |s| == 5 * n + 5;
    }
  }

  /** `2^(a + b) == 2^a * 2^b`. */
  lemma {:induction false} Pow2Add(a: nat, b: nat)
    ensures Pow2(a + b) == Pow2(a) * Pow2(b)
  {
    if b > 0 {
      Pow2Add(a, b - 1);
      assert Pow2(a + b) == 2 * Pow2(a + b - 1);
    }
  }

  /** Appending `b` shifts the value of `a` left by `|b|` bits and adds that of `b`. */
  lemma {:induction false} BitsValueAppend(a: seq<bool>, b: seq<bool>)
    ensures BitsValue(a + b) == BitsValue(a) * Pow2(|b|) + BitsValue(b)
  {
    if |b| > 0 {
      var init := b[..|b| - 1];
      BitsValueAppend(a, init);
      assert (a + b)[..|a + b| - 1] == a + init;
      assert (a + b)[|a + b| - 1] == b[|b| - 1];
      assert BitsValue(b) == 2 * BitsValue(init) + (if b[|b| - 1] then 1 else 0);
      assert Pow2(|b|) == 2 * Pow2(|init|);
      assert BitsValue(a) * Pow2(|b|) == 2 * (BitsValue(a) * Pow2(|init|));
      assert BitsValue(a + b) == 2 * BitsValue(a + init) + (if b[|b| - 1] then 1 else 0);
    } else {
      assert a + b == a;
    }
  }

  /** The number a hash spells is the value of its bits: `hashToLong` agrees with `getBits`. */
  lemma {:induction false} Base32ValueBits(s: string)
    requires ValidHash(s)
    ensures Base32Value(s) == BitsValue(HashBits(s))
  {
    if |s| > 0 {
      var init := s[..|s| - 1];
      Base32ValueBits(init);
      var v := SymbolValue(s[|s| - 1]);
      BitsValueAppend(HashBits(init), CharBits(v));
      Pow2Five();
      CharBitsValue(v);
    }
  }

  /**
   * `hashToLong`: the number the first (at most) 12 characters spell, read
   * without lower-casing; `None` for a character outside the alphabet. The
   * value stays below `2^60`, so the Java `long` never wraps.
   */
  method HashToLong(hash: string) returns (r: Option<nat>)
    ensures var s := if |hash| > 12 then hash[..12] else hash;
      r == if ValidHash(s) then Some(Base32Value(s)) else None
    ensures r.Some? ==> r.value < Pow2(60)
  {
    var longForm := 0;
    var s := hash;
    if |s| > 12 {
      s := s[..12];
    }
    LookupInverse();
    var i := 0;
    while i < |s|
      invariant 0 <= i <= |s|
      invariant ValidHash(s[..i]) && longForm == Base32Value(s[..i])
    {
      var c := s[i];
      if c !in LookupTable {
        assert !IsSymbol(s[i]);
        return None;
      }
      ShlFive(longForm);
      longForm := Shl(longForm, BITS_PER_CHAR) + LookupTable[c];  // `longForm <<= 5; longForm |= lookup`
      assert s[..i + 1] == s[..i] + [c];
      i := i + 1;
    }
    assert s[..i] == s;
    Base32ValueBound(s);
    Pow2Mono(5 * |s|, 60);
    return Some(longForm);
  }

  /** Shifting left by one character multiplies by 32. */
  lemma ShlFive(v: nat)
    ensures Shl(v, BITS_PER_CHAR) == 32 * v
  {
    assert Shl(v, 1) == 2 * v;
    assert Shl(v, 3) == 8 * v;
  }

  /** `2^a <= 2^b` when `a <= b`. */
  lemma {:induction false} Pow2Mono(a: nat, b: nat)
    requires a <= b
    ensures Pow2(a) <= Pow2(b)
  {
    if a < b {
      Pow2Mono(a, b - 1);
    }
  }

}
