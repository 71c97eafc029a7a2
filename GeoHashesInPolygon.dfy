/**
 * The coverage sweep (GeoHashesInPolygon.java and its copies in
 * polygon/, runner/ and PolygonGeoHash.java): starting from the cell at the
 * north-west corner of the polygon's bounding box, walk each row of cells
 * eastwards while the cell's west edge is west of the box's eastern edge,
 * collect the cells whose centre the ray-casting test puts inside the
 * polygon, and step one row south while the next row's north edge is north
 * of the box's southern edge.
 *
 * The Java loops have no bound; here each row and each column step spends
 * one unit of an explicit `fuel`, and the result is `None` when it runs out.
 */
module GeoHashesInPolygon {
  import opened Wrappers
  import opened Coords
  import opened Base32
  import opened GeoHash
  import opened GeoHashUtils
  import opened EnclosingGeoHash
  import PointInPolygon

  /** `decode(hash)` of a hash known to be valid. */
  function Decoded(h: string): (c: CoordWithError)
    requires ValidHash(h)
    ensures c == Centre(CellBox(h))
  {
    ToLowerValid(h);
    DecodeWithError(h).value
  }

  /** `neighbor(hash, {dLat, dLon})` of a hash known to be valid. */
  function Step(h: string, dLat: int, dLon: int): (n: string)
    requires ValidHash(h)
    ensures ValidHash(n) && |n| == |h|
  {
    ToLowerValid(h);
    Neighbor(h, dLat, dLon).value
  }

  /** `inside(decode(hash), polygon) % 2 == 1`: the sweep keeps the cell. */
  predicate Keeps(polygon: seq<Coord>, h: string)
    requires ValidHash(h)
  {
    var c := Decoded(h);
    Inside(Coord(c.lat, c.lon), polygon) % 2 == 1
  }

  /** The collected set after visiting `h`. */
  function Collect(polygon: seq<Coord>, h: string, acc: set<string>): set<string>
    requires ValidHash(h)
  {
    if Keeps(polygon, h) then acc + {h} else acc
  }

  /** Every entry of `cells` is a valid hash of `n` characters. */
  predicate AllValid(cells: seq<string>, n: nat) {
    forall i :: 0 <= i < |cells| ==> ValidHash(cells[i]) && |cells[i]| == n
  }

  /**
   * The cells the column loop visits from `columnHash` on, west to east,
   * and the fuel left, or `None` when the fuel runs out first.
   */
  function RowCells(maxLon: real, columnHash: string, fuel: nat): (r: Option<(seq<string>, nat)>)
    requires ValidHash(columnHash)
    ensures r.Some? ==> AllValid(r.value.0, |columnHash|) && r.value.1 <= fuel
    decreases fuel
  {
    if !IsWest(CellBox(columnHash).minLon, maxLon) then Some(([], fuel))
    else if fuel == 0 then None
    else
      var rest := RowCells(maxLon, Step(columnHash, 0, 1), fuel - 1);
      if rest.None? then None else Some(([columnHash] + rest.value.0, rest.value.1))
  }

  /** The cells of `cells` the sweep keeps. */
  function Kept(polygon: seq<Coord>, cells: seq<string>, n: nat): set<string>
    requires AllValid(cells, n)
    decreases |cells|
  {
    if |cells| == 0 then {} else Collect(polygon, cells[0], Kept(polygon, cells[1..], n))
  }

  /**
   * The column loop from `columnHash` on: the cells collected (added to
   * `acc`) and the fuel left, or `None` when the fuel runs out first.
   */
  function ColumnSweep(polygon: seq<Coord>, maxLon: real, columnHash: string, acc: set<string>, fuel: nat)
    : (r: Option<(set<string>, nat)>)
    requires ValidHash(columnHash)
    ensures r.Some? ==> r.value.1 <= fuel
    decreases fuel
  {
    if !IsWest(CellBox(columnHash).minLon, maxLon) then Some((acc, fuel))
    else if fuel == 0 then None
    else ColumnSweep(polygon, maxLon, Step(columnHash, 0, 1), Collect(polygon, columnHash, acc), fuel - 1)
  }

  /**
   * The do-while row loop from `rowHash` on: sweep the row, step south, and
   * go on while the new row's north edge is north of `bounding.minLat`.
   */
  function RowSweep(polygon: seq<Coord>, bounding: Box, rowHash: string, acc: set<string>, fuel: nat)
    : Option<set<string>>
    requires ValidHash(rowHash)
    decreases fuel
  {
    if fuel == 0 then None
    else
      match ColumnSweep(polygon, bounding.maxLon, rowHash, acc, fuel - 1)
      case None => None
      case Some((acc', fuel')) =>
        var next := Step(rowHash, -1, 0);
        if CellBox(next).maxLat > bounding.minLat then RowSweep(polygon, bounding, next, acc', fuel')
        else Some(acc')
  }

  /** The number of characters `encode` produces for a requested precision. */
  function Length(precision: int): nat {
    if precision < 0 then 0 else precision
  }

  /** The whole sweep: from the bounding box's north-west corner, at `precision` characters. */
  function Sweep(polygon: seq<Coord>, precision: int, fuel: nat): Option<set<string>> {
    var bounding := Bounds(polygon);
    RowSweep(polygon, bounding, GeoHashOf(bounding.maxLat, bounding.minLon, Length(precision)), {}, fuel)
  }

  /**
   * `hashesInPoly(polygon, precision)`: the bounding box, the hash of its
   * north-west corner, then the row loop `SweepRows`, whose column loop is
   * `SweepColumns`.
   */
  method HashesInPoly(polygon: array<Coord>, precision: int, fuel: nat) returns (r: Option<set<string>>)
    ensures r == Sweep(polygon[..], precision, fuel)
  {
    var bounding := PolyToBB(polygon);
    var poly := polygon[..];
    var rowHash := Encode(bounding.maxLat, bounding.minLon, precision);
    var rowBox := DecodeCell(rowHash);
    r := SweepRows(poly, bounding, rowHash, rowBox, fuel);
  }

  /** The do-while row loop of `hashesInPoly`, from `rowHash` on. */
  method SweepRows(polygon: seq<Coord>, bounding: Box, rowHash0: string, rowBox0: Box, fuel: nat)
    returns (r: Option<set<string>>)
    requires ValidHash(rowHash0) && rowBox0 == CellBox(rowHash0)
    ensures r == RowSweep(polygon, bounding, rowHash0, {}, fuel)
  {
    ghost var target := RowSweep(polygon, bounding, rowHash0, {}, fuel);
    var allHashes: set<string> := {};
    var rowHash, rowBox := rowHash0, rowBox0;
    var fuelLeft := fuel;
    while true
      invariant ValidHash(rowHash) && rowBox == CellBox(rowHash)
      invariant RowSweep(polygon, bounding, rowHash, allHashes, fuelLeft) == target
      decreases fuelLeft
    {
      if fuelLeft == 0 {
        return None;
      }
      var swept := SweepColumns(polygon, bounding.maxLon, rowHash, rowBox, allHashes, fuelLeft - 1);
      if swept.None? {
        return None;
      }
      RowSweepUnfold(polygon, bounding, rowHash, allHashes, fuelLeft, target);
      allHashes, fuelLeft := swept.value.0, swept.value.1;
      rowHash := Step(rowHash, -1, 0);
      rowBox := DecodeCell(rowHash);
      if !(rowBox.maxLat > bounding.minLat) {
        return Some(allHashes);
      }
    }
  }

  /** One pass of the row loop's body, when its column loop finishes. */
  lemma RowSweepUnfold(polygon: seq<Coord>, bounding: Box, h: string, acc: set<string>, fuel: nat, r: Option<set<string>>)
    requires ValidHash(h) && fuel > 0
    requires ColumnSweep(polygon, bounding.maxLon, h, acc, fuel - 1).Some?
    requires r == RowSweep(polygon, bounding, h, acc, fuel)
    ensures var c := ColumnSweep(polygon, bounding.maxLon, h, acc, fuel - 1).value;
      var next := Step(h, -1, 0);
      r == if CellBox(next).maxLat > bounding.minLat then RowSweep(polygon, bounding, next, c.0, c.1) else Some(c.0)
  {
  }

  /**
   * The column loop of one row: from `rowHash` east while the cell's west
   * edge `isWest` of `maxLon`, adding each kept cell.
   */
  method SweepColumns(polygon: seq<Coord>, maxLon: real, rowHash: string, rowBox: Box, allHashes0: set<string>, fuel: nat)
    returns (r: Option<(set<string>, nat)>)
    requires ValidHash(rowHash) && rowBox == CellBox(rowHash)
    ensures r == ColumnSweep(polygon, maxLon, rowHash, allHashes0, fuel)
  {
    var allHashes, fuelLeft := allHashes0, fuel;
    var columnHash, columnBox := rowHash, rowBox;
    ghost var target := ColumnSweep(polygon, maxLon, rowHash, allHashes0, fuel);
    while true
      invariant ValidHash(columnHash) && columnBox == CellBox(columnHash)
      invariant ColumnSweep(polygon, maxLon, columnHash, allHashes, fuelLeft) == target
      decreases fuelLeft
    {
      if !IsWest(columnBox.minLon, maxLon) {
        ColumnSweepStop(polygon, maxLon, columnHash, allHashes, fuelLeft, target);
        return Some((allHashes, fuelLeft));
      }
      if fuelLeft == 0 {
        ColumnSweepOutOfFuel(polygon, maxLon, columnHash, allHashes, target);
        return None;
      }
      ColumnSweepUnfold(polygon, maxLon, columnHash, allHashes, fuelLeft, target);
      var next := Step(columnHash, 0, 1);
      allHashes := VisitCell(polygon, columnHash, allHashes);
      fuelLeft := fuelLeft - 1;
      columnHash := next;
      columnBox := DecodeCell(columnHash);
    }
  }

  /** The column loop's body: add `columnHash` when its centre is inside the polygon. */
  method VisitCell(polygon: seq<Coord>, columnHash: string, allHashes0: set<string>) returns (allHashes: set<string>)
    requires ValidHash(columnHash)
    ensures allHashes == Collect(polygon, columnHash, allHashes0)
  {
    allHashes := allHashes0;
    var point := Decoded(columnHash);
    var inside := Inside(Coord(point.lat, point.lon), polygon);
    if inside % 2 == 1 {
      allHashes := allHashes + {columnHash};
    }
  }

  /** `decode_bbox` of a hash known to be valid. */
  method DecodeCell(h: string) returns (box: Box)
    requires ValidHash(h)
    ensures box == CellBox(h)
  {
    ToLowerValid(h);
    var r := DecodeBBox(h);
    box := r.value;
  }

  /**
   * `hashesInPoly(polygon)`: the sweep at two characters more than the
   * longest hash enclosing every vertex.
   */
  method HashesInPolyAuto(polygon: array<Coord>, fuel: nat) returns (r: Option<set<string>>)
    ensures r == Sweep(polygon[..], |CommonPrefix(VertexHashes(polygon[..]))| + 2, fuel)
  {
    var longestEnclosingHash := LongestEnclosingHash(polygon);
    ghost var hashes := VertexHashes(polygon[..]);
    LongestCommonPrefixIsFold(longestEnclosingHash, hashes);
    var precision := |longestEnclosingHash| + 2;
    assert precision == |CommonPrefix(hashes)| + 2;
    r := HashesInPoly(polygon, precision, fuel);
  }

  /** A cell of `n` characters whose centre the ray-casting test puts inside the polygon. */
  predicate SoundCell(polygon: seq<Coord>, n: nat, h: string) {
    |h| == n && ValidHash(h) && PointInPolygon.Pip(Decoded(h).lon, Decoded(h).lat, polygon)
  }

  /** Every cell in `s` is sound. */
  predicate Sound(polygon: seq<Coord>, n: nat, s: set<string>) {
    forall h :: h in s ==> SoundCell(polygon, n, h)
  }

  /** A kept cell is sound. */
  lemma KeepsSound(polygon: seq<Coord>, h: string)
    requires ValidHash(h) && Keeps(polygon, h)
    ensures SoundCell(polygon, |h|, h)
  {
  }

  /** Visiting `h` first adds it when it is kept. */
  lemma KeptCons(polygon: seq<Coord>, h: string, cells: seq<string>, n: nat)
    requires ValidHash(h) && |h| == n && AllValid(cells, n)
    ensures AllValid([h] + cells, n)
    ensures Kept(polygon, [h] + cells, n) == Collect(polygon, h, Kept(polygon, cells, n))
  {
    assert ([h] + cells)[1..] == cells;
  }

  /** Visiting a cell keeps the collected set sound. */
  lemma CollectSound(polygon: seq<Coord>, n: nat, h: string, acc: set<string>)
    requires ValidHash(h) && |h| == n && Sound(polygon, n, acc)
    ensures Sound(polygon, n, Collect(polygon, h, acc))
  {
    if Keeps(polygon, h) {
      KeepsSound(polygon, h);
    }
  }

  /** Every kept cell is sound. */
  lemma {:induction false} KeptSound(polygon: seq<Coord>, cells: seq<string>, n: nat)
    requires AllValid(cells, n)
    ensures Sound(polygon, n, Kept(polygon, cells, n))
    decreases |cells|
  {
    if |cells| > 0 {
      KeptSound(polygon, cells[1..], n);
      CollectSound(polygon, n, cells[0], Kept(polygon, cells[1..], n));
    }
  }

  /** One pass of the column loop's body. */
  lemma ColumnSweepUnfold(polygon: seq<Coord>, maxLon: real, h: string, acc: set<string>, fuel: nat, r: Option<(set<string>, nat)>)
    requires ValidHash(h) && IsWest(CellBox(h).minLon, maxLon) && fuel > 0
    requires r == ColumnSweep(polygon, maxLon, h, acc, fuel)
    ensures r == ColumnSweep(polygon, maxLon, Step(h, 0, 1), Collect(polygon, h, acc), fuel - 1)
  {
  }

  /** The column loop gives up when it has a cell to visit and no fuel left. */
  lemma ColumnSweepOutOfFuel(polygon: seq<Coord>, maxLon: real, h: string, acc: set<string>, r: Option<(set<string>, nat)>)
    requires ValidHash(h) && IsWest(CellBox(h).minLon, maxLon)
    requires r == ColumnSweep(polygon, maxLon, h, acc, 0)
    ensures r == None
  {
  }

  /** The column loop ends where the cell's west edge is no longer west of `maxLon`. */
  lemma ColumnSweepStop(polygon: seq<Coord>, maxLon: real, h: string, acc: set<string>, fuel: nat, r: Option<(set<string>, nat)>)
    requires ValidHash(h) && !IsWest(CellBox(h).minLon, maxLon)
    requires r == ColumnSweep(polygon, maxLon, h, acc, fuel)
    ensures r == Some((acc, fuel))
  {
  }

  /**
   * The column loop collects `acc` plus the kept cells among those it
   * visits, and fails exactly when the visit runs out of fuel.
   */
  lemma {:induction false} ColumnSweepCells(polygon: seq<Coord>, maxLon: real, h: string, acc: set<string>, fuel: nat)
    requires ValidHash(h)
    ensures var r, w := ColumnSweep(polygon, maxLon, h, acc, fuel), RowCells(maxLon, h, fuel);
      r.Some? == w.Some? && (w.Some? ==> r.value.0 == acc + Kept(polygon, w.value.0, |h|) && r.value.1 == w.value.1)
    decreases fuel
  {
    if !IsWest(CellBox(h).minLon, maxLon) {
      assert RowCells(maxLon, h, fuel) == Some(([], fuel));
      assert Kept(polygon, [], |h|) == {};
      assert acc + {} == acc;
    } else if fuel > 0 {
      var next := Step(h, 0, 1);
      var acc' := Collect(polygon, h, acc);
      ColumnSweepCells(polygon, maxLon, next, acc', fuel - 1);
      assert ColumnSweep(polygon, maxLon, h, acc, fuel) == ColumnSweep(polygon, maxLon, next, acc', fuel - 1);
      var rest := RowCells(maxLon, next, fuel - 1);
      if rest.Some? {
        var cells := rest.value.0;
        assert RowCells(maxLon, h, fuel) == Some(([h] + cells, rest.value.1));
        KeptCons(polygon, h, cells, |h|);
        var k := Kept(polygon, cells, |h|);
        assert acc' + k == acc + Collect(polygon, h, k);
      } else {
        assert RowCells(maxLon, h, fuel) == None;
      }
    }
  }

  /** The column loop only adds sound cells. */
  lemma ColumnSweepSound(polygon: seq<Coord>, maxLon: real, n: nat, h: string, acc: set<string>, fuel: nat)
    requires ValidHash(h) && |h| == n && Sound(polygon, n, acc)
    ensures ColumnSweep(polygon, maxLon, h, acc, fuel).Some? ==> Sound(polygon, n, ColumnSweep(polygon, maxLon, h, acc, fuel).value.0)
  {
    ColumnSweepCells(polygon, maxLon, h, acc, fuel);
    var walk := RowCells(maxLon, h, fuel);
    if walk.Some? {
      KeptSound(polygon, walk.value.0, n);
    }
  }

  /** The row loop only adds sound cells. */
  lemma {:induction false} RowSweepSound(polygon: seq<Coord>, bounding: Box, n: nat, h: string, acc: set<string>, fuel: nat)
    requires ValidHash(h) && |h| == n && Sound(polygon, n, acc)
    ensures var r := RowSweep(polygon, bounding, h, acc, fuel); r.Some? ==> Sound(polygon, n, r.value)
    decreases fuel
  {
    if fuel > 0 {
      ColumnSweepSound(polygon, bounding.maxLon, n, h, acc, fuel - 1);
      var c := ColumnSweep(polygon, bounding.maxLon, h, acc, fuel - 1);
      if c.Some? {
        var swept, fuel' := c.value.0, c.value.1;
        assert Sound(polygon, n, swept);
        RowSweepUnfold(polygon, bounding, h, acc, fuel, RowSweep(polygon, bounding, h, acc, fuel));
        var next := Step(h, -1, 0);
        if CellBox(next).maxLat > bounding.minLat {
          RowSweepSound(polygon, bounding, n, next, swept, fuel');
        }
      }
    }
  }

  /**
   * Sweep soundness: every collected cell has `precision` characters and
   * its centre inside the polygon.
   */
  lemma SweepSound(polygon: seq<Coord>, precision: int, fuel: nat)
    ensures var r := Sweep(polygon, precision, fuel); r.Some? ==> Sound(polygon, Length(precision), r.value)
  {
    var bounding := Bounds(polygon);
    var n := Length(precision);
    RowSweepSound(polygon, bounding, n, GeoHashOf(bounding.maxLat, bounding.minLon, n), {}, fuel);
  }

  /**
   * The collected set does not steer the walk: sweeping a row into `acc`
   * gives `acc` plus what sweeping it from nothing gives, so re-adding a
   * cell already collected changes nothing.
   */
  lemma ColumnSweepUnion(polygon: seq<Coord>, maxLon: real, h: string, acc: set<string>, fuel: nat)
    requires ValidHash(h)
    ensures var r, r0 := ColumnSweep(polygon, maxLon, h, acc, fuel), ColumnSweep(polygon, maxLon, h, {}, fuel);
      r.Some? == r0.Some? && (r.Some? ==> r.value == (acc + r0.value.0, r0.value.1))
  {
    ColumnSweepCells(polygon, maxLon, h, acc, fuel);
    ColumnSweepCells(polygon, maxLon, h, {}, fuel);
    var walk := RowCells(maxLon, h, fuel);
    if walk.Some? {
      var k := Kept(polygon, walk.value.0, |h|);
      assert {} + k == k;
    }
  }

  /** The row loop body always runs once: a successful sweep has swept its first row. */
  lemma FirstRowSwept(polygon: seq<Coord>, bounding: Box, h: string, acc: set<string>, fuel: nat)
    requires ValidHash(h)
    requires RowSweep(polygon, bounding, h, acc, fuel).Some?
    ensures fuel > 0
    ensures var c := ColumnSweep(polygon, bounding.maxLon, h, acc, fuel - 1);
      c.Some? && c.value.0 <= RowSweep(polygon, bounding, h, acc, fuel).value
  {
    var c := ColumnSweep(polygon, bounding.maxLon, h, acc, fuel - 1);
    var next := Step(h, -1, 0);
    if CellBox(next).maxLat > bounding.minLat {
      RowSweepGrows(polygon, bounding, next, c.value.0, c.value.1);
    }
  }

  /** The row loop never removes a collected cell. */
  lemma {:induction false} RowSweepGrows(polygon: seq<Coord>, bounding: Box, h: string, acc: set<string>, fuel: nat)
    requires ValidHash(h)
    ensures var r := RowSweep(polygon, bounding, h, acc, fuel); r.Some? ==> acc <= r.value
    decreases fuel
  {
    if fuel > 0 {
      ColumnSweepGrows(polygon, bounding.maxLon, h, acc, fuel - 1);
      var c := ColumnSweep(polygon, bounding.maxLon, h, acc, fuel - 1);
      if c.Some? {
        RowSweepUnfold(polygon, bounding, h, acc, fuel, RowSweep(polygon, bounding, h, acc, fuel));
        var next := Step(h, -1, 0);
        if CellBox(next).maxLat > bounding.minLat {
          RowSweepGrows(polygon, bounding, next, c.value.0, c.value.1);
        }
      }
    }
  }

  /** The column loop never removes a collected cell. */
  lemma ColumnSweepGrows(polygon: seq<Coord>, maxLon: real, h: string, acc: set<string>, fuel: nat)
    requires ValidHash(h)
    ensures var r := ColumnSweep(polygon, maxLon, h, acc, fuel); r.Some? ==> acc <= r.value.0
  {
    ColumnSweepCells(polygon, maxLon, h, acc, fuel);
  }

  /**
   * `encode` clamps instead of wrapping round the 180th meridian, so the
   * east neighbour of a cell on the world's eastern edge is the cell itself.
   */
  lemma EastEdgeStep(h: string)
    requires ValidHash(h) && CellBox(h).maxLon == LONGITUDE_RANGE
    ensures Step(h, 0, 1) == h
  {
    ToLowerValid(h);
    var b := CellBox(h);
    var c := Centre(b);
    var p := NeighborPoint(c, 0, 1);
    CentreCovers(b);
    assert Covers(b, p.lat, p.lon);
    EncodeIffCovers(h, p.lat, p.lon);
  }

  /**
   * Hence a row whose easternmost cell is still west of `maxLon` never
   * ends: for every bound on the steps, the column loop runs out of it.
   */
  lemma {:induction false} ColumnSweepNeverEnds(polygon: seq<Coord>, maxLon: real, h: string, acc: set<string>, fuel: nat)
    requires ValidHash(h) && CellBox(h).maxLon == LONGITUDE_RANGE && IsWest(CellBox(h).minLon, maxLon)
    ensures ColumnSweep(polygon, maxLon, h, acc, fuel) == None
    decreases fuel
  {
    if fuel > 0 {
      EastEdgeStep(h);
      ColumnSweepNeverEnds(polygon, maxLon, h, Collect(polygon, h, acc), fuel - 1);
    }
  }

  /**
   * Likewise `encode` clamps latitudes below -90, so the south neighbour
   * of a cell on the world's southern edge is the cell itself.
   */
  lemma SouthEdgeStep(h: string)
    requires ValidHash(h) && CellBox(h).minLat == -LATITUDE_RANGE
    ensures Step(h, -1, 0) == h
  {
    ToLowerValid(h);
    var b := CellBox(h);
    var c := Centre(b);
    var p := NeighborPoint(c, -1, 0);
    CentreCovers(b);
    assert Covers(b, p.lat, p.lon);
    EncodeIffCovers(h, p.lat, p.lon);
  }

  /**
   * Hence a sweep that reaches a row on the southern edge whose north edge
   * is still north of `bounding.minLat` never ends: the row loop sweeps
   * the same row again and again until every bound runs out.
   */
  lemma {:induction false} RowSweepNeverEnds(polygon: seq<Coord>, bounding: Box, h: string, acc: set<string>, fuel: nat)
    requires ValidHash(h) && CellBox(h).minLat == -LATITUDE_RANGE && CellBox(h).maxLat > bounding.minLat
    ensures RowSweep(polygon, bounding, h, acc, fuel) == None
    decreases fuel
  {
    if fuel > 0 {
      var c := ColumnSweep(polygon, bounding.maxLon, h, acc, fuel - 1);
      if c.Some? {
        SouthEdgeStep(h);
        RowSweepUnfold(polygon, bounding, h, acc, fuel, RowSweep(polygon, bounding, h, acc, fuel));
        RowSweepNeverEnds(polygon, bounding, h, c.value.0, c.value.1);
      }
    }
  }

  /**
   * A concrete case: at one character, cell `0` spans latitudes -90 to
   * -45, so every sweep that reaches it with `minLat` below -45 never ends.
   */
  lemma RowSweepNeverEndsAtZero(polygon: seq<Coord>, bounding: Box, acc: set<string>, fuel: nat)
    requires bounding.minLat < -45.0
    ensures RowSweep(polygon, bounding, "0", acc, fuel) == None
  {
    CellZero();
    RowSweepNeverEnds(polygon, bounding, "0", acc, fuel);
  }

  /** At one character, cell `0` spans latitudes -90 to -45 and longitudes -180 to -135. */
  lemma CellZero()
    ensures ValidHash("0") && CellBox("0") == Box(-90.0, -180.0, -45.0, -135.0)
  {
    SymbolValueOf(0);
    assert Symbol(0) == '0';
    assert ValidHash("0");
    assert CharBits(0) == [false, false, false, false, false];
    HashBitsSnoc("", '0');
    assert "" + ['0'] == "0";
    var bits := [false, false, false, false, false];
    assert HashBits("0") == bits;
    assert bits[..1] == [false] && bits[..1][..0] == [];
    assert BoxAfter(bits[..1]) == Box(-90.0, -180.0, 90.0, 0.0);
    assert bits[..2][..1] == bits[..1];
    assert BoxAfter(bits[..2]) == Box(-90.0, -180.0, 0.0, 0.0);
    assert bits[..3][..2] == bits[..2];
    assert BoxAfter(bits[..3]) == Box(-90.0, -180.0, 0.0, -90.0);
    assert bits[..4][..3] == bits[..3];
    assert BoxAfter(bits[..4]) == Box(-90.0, -180.0, -45.0, -90.0);
    assert bits[..4] == bits[..|bits| - 1];
    assert CellBox("0") == Box(-90.0, -180.0, -45.0, -135.0);
  }

  /**
   * A concrete case: at one character, cell `z` spans longitudes 135 to
   * 180. A polygon whose eastern bound is 170 reaches that column, so the
   * row sweep from `z` never ends.
   */
  lemma ColumnSweepNeverEndsAtZ(polygon: seq<Coord>, acc: set<string>, fuel: nat)
    ensures ColumnSweep(polygon, 170.0, "z", acc, fuel) == None
  {
    CellZ();
    ColumnSweepNeverEnds(polygon, 170.0, "z", acc, fuel);
  }

  /** At one character, cell `z` spans latitudes 45 to 90 and longitudes 135 to 180. */
  lemma CellZ()
    ensures ValidHash("z") && CellBox("z") == Box(45.0, 135.0, 90.0, 180.0)
  {
    SymbolValueOf(31);
    assert Symbol(31) == 'z';
    assert ValidHash("z");
    assert CharBits(31) == [true, true, true, true, true];
    HashBitsSnoc("", 'z');
    assert "" + ['z'] == "z";
    var bits := [true, true, true, true, true];
    assert HashBits("z") == bits;
    assert bits[..1] == [true] && bits[..1][..0] == [];
    assert BoxAfter(bits[..1]) == Box(-90.0, 0.0, 90.0, 180.0);
    assert bits[..2][..1] == bits[..1];
    assert BoxAfter(bits[..2]) == Box(0.0, 0.0, 90.0, 180.0);
    assert bits[..3][..2] == bits[..2];
    assert BoxAfter(bits[..3]) == Box(0.0, 90.0, 90.0, 180.0);
    assert bits[..4][..3] == bits[..3];
    assert BoxAfter(bits[..4]) == Box(45.0, 90.0, 90.0, 180.0);
    assert bits[..4] == bits[..|bits| - 1];
    assert CellBox("z") == Box(45.0, 135.0, 90.0, 180.0);
  }

  /**
   * The coverage set can shrink when the precision grows. The square with
   * corners at latitudes and longitudes 22.4 and 22.6 yields the one
   * cell `s` at one character, since that cell's centre (22.5, 22.5) is the
   * square's centre. At two characters the point (22.5, 22.5) is a corner
   * of the grid: the four cells the sweep visits have their centres away
   * from the square, and the result is empty.
   */
  const Square: seq<Coord> := [Coord(22.4, 22.4), Coord(22.4, 22.6), Coord(22.6, 22.6), Coord(22.6, 22.4)]

  /** The square's bounding box. */
  lemma SquareBounds()
    ensures Bounds(Square) == Box(22.4, 22.4, 22.6, 22.6)
  {
    var v := Square;
    assert v[..1][..0] == [];
    assert Bounds(v[..1]) == Box(22.4, 22.4, 22.4, 22.4);
    assert v[..2][..1] == v[..1];
    assert Bounds(v[..2]) == Box(22.4, 22.4, 22.4, 22.6);
    assert v[..3][..2] == v[..2];
    assert Bounds(v[..3]) == Box(22.4, 22.4, 22.6, 22.6);
    assert v[..|v| - 1] == v[..3];
  }

  /** The cell whose centre is `(lat, lon)` is not kept: the centre lies north or south of the square. */
  lemma SquareDropsCentre(h: string, lat: real, lon: real)
    requires ValidHash(h) && Centre(CellBox(h)).lat == lat && Centre(CellBox(h)).lon == lon
    requires lat < 22.4 || lat >= 22.6
    ensures !Keeps(Square, h)
  {
    PointInPolygon.PipOutsideLatitudes(lon, lat, Square);
  }

  /** The square's centre passes the ray-casting test: only the eastern edge is crossed. */
  lemma SquareKeepsCentre()
    ensures PointInPolygon.Pip(22.5, 22.5, Square)
  {
    var es := PointInPolygon.Edges(Square);
    assert es == [PointInPolygon.Edge(Square[0], Square[3]), PointInPolygon.Edge(Square[1], Square[0]),
                  PointInPolygon.Edge(Square[2], Square[1]), PointInPolygon.Edge(Square[3], Square[2])];
    assert !PointInPolygon.Crosses(22.5, 22.5, es[0]);
    assert !PointInPolygon.Crosses(22.5, 22.5, es[1]);
    assert PointInPolygon.Crosses(22.5, 22.5, es[2]);
    assert !PointInPolygon.Crosses(22.5, 22.5, es[3]);
    assert es[..1][..0] == [];
    assert PointInPolygon.Crossings(22.5, 22.5, es[..1]) == 0;
    assert es[..2][..1] == es[..1];
    assert PointInPolygon.Crossings(22.5, 22.5, es[..2]) == 0;
    assert es[..3][..2] == es[..2];
    assert PointInPolygon.Crossings(22.5, 22.5, es[..3]) == 1;
    assert es[..|es| - 1] == es[..3];
    assert PointInPolygon.Crossings(22.5, 22.5, es) == 1;
  }

  /** A row the column loop leaves after one cell. */
  lemma OneColumn(polygon: seq<Coord>, maxLon: real, h: string, acc: set<string>, fuel: nat)
    requires ValidHash(h) && fuel >= 1
    requires IsWest(CellBox(h).minLon, maxLon) && !IsWest(CellBox(Step(h, 0, 1)).minLon, maxLon)
    ensures ColumnSweep(polygon, maxLon, h, acc, fuel) == Some((Collect(polygon, h, acc), fuel - 1))
  {
    var r := ColumnSweep(polygon, maxLon, h, acc, fuel);
    ColumnSweepUnfold(polygon, maxLon, h, acc, fuel, r);
    ColumnSweepStop(polygon, maxLon, Step(h, 0, 1), Collect(polygon, h, acc), fuel - 1, r);
  }

  /** A row the column loop leaves after two cells. */
  lemma TwoColumns(polygon: seq<Coord>, maxLon: real, h: string, acc: set<string>, fuel: nat)
    requires ValidHash(h) && fuel >= 2
    requires IsWest(CellBox(h).minLon, maxLon) && IsWest(CellBox(Step(h, 0, 1)).minLon, maxLon)
    requires !IsWest(CellBox(Step(Step(h, 0, 1), 0, 1)).minLon, maxLon)
    ensures ColumnSweep(polygon, maxLon, h, acc, fuel)
      == Some((Collect(polygon, Step(h, 0, 1), Collect(polygon, h, acc)), fuel - 2))
  {
    ColumnSweepUnfold(polygon, maxLon, h, acc, fuel, ColumnSweep(polygon, maxLon, h, acc, fuel));
    OneColumn(polygon, maxLon, Step(h, 0, 1), Collect(polygon, h, acc), fuel - 1);
  }

  /** A sweep of one row of one cell: the cell south of `h` already lies south of the box. */
  lemma OneByOne(polygon: seq<Coord>, bounding: Box, h: string, fuel: nat)
    requires ValidHash(h) && fuel >= 2
    requires IsWest(CellBox(h).minLon, bounding.maxLon) && !IsWest(CellBox(Step(h, 0, 1)).minLon, bounding.maxLon)
    requires !(CellBox(Step(h, -1, 0)).maxLat > bounding.minLat)
    ensures RowSweep(polygon, bounding, h, {}, fuel) == Some(Collect(polygon, h, {}))
  {
    OneColumn(polygon, bounding.maxLon, h, {}, fuel - 1);
    RowSweepUnfold(polygon, bounding, h, {}, fuel, RowSweep(polygon, bounding, h, {}, fuel));
  }

  /** A sweep of two rows of two cells each, from `h` and from the cell `south` of it. */
  lemma TwoByTwo(polygon: seq<Coord>, bounding: Box, h: string, south: string, fuel: nat)
    requires ValidHash(h) && fuel >= 6 && south == Step(h, -1, 0)
    requires IsWest(CellBox(h).minLon, bounding.maxLon) && IsWest(CellBox(Step(h, 0, 1)).minLon, bounding.maxLon)
    requires !IsWest(CellBox(Step(Step(h, 0, 1), 0, 1)).minLon, bounding.maxLon)
    requires IsWest(CellBox(south).minLon, bounding.maxLon) && IsWest(CellBox(Step(south, 0, 1)).minLon, bounding.maxLon)
    requires !IsWest(CellBox(Step(Step(south, 0, 1), 0, 1)).minLon, bounding.maxLon)
    requires CellBox(south).maxLat > bounding.minLat && !(CellBox(Step(south, -1, 0)).maxLat > bounding.minLat)
    ensures RowSweep(polygon, bounding, h, {}, fuel)
      == Some(Collect(polygon, Step(south, 0, 1), Collect(polygon, south, Collect(polygon, Step(h, 0, 1), Collect(polygon, h, {})))))
  {
    var first := Collect(polygon, Step(h, 0, 1), Collect(polygon, h, {}));
    TwoColumns(polygon, bounding.maxLon, h, {}, fuel - 1);
    RowSweepUnfold(polygon, bounding, h, {}, fuel, RowSweep(polygon, bounding, h, {}, fuel));
    TwoColumns(polygon, bounding.maxLon, south, first, fuel - 4);
    RowSweepUnfold(polygon, bounding, south, first, fuel - 3, RowSweep(polygon, bounding, south, first, fuel - 3));
  }

  /** The sweep starts from the hash of the bounding box's north-west corner. */
  lemma SweepFrom(polygon: seq<Coord>, precision: int, fuel: nat, bounding: Box, h: string)
    requires Bounds(polygon) == bounding && GeoHashOf(bounding.maxLat, bounding.minLon, Length(precision)) == h
    ensures ValidHash(h) && Sweep(polygon, precision, fuel) == RowSweep(polygon, bounding, h, {}, fuel)
  {
  }

  /** A cell whose centre passes the ray-casting test is kept. */
  lemma KeepsCentre(polygon: seq<Coord>, h: string, lat: real, lon: real)
    requires ValidHash(h) && Centre(CellBox(h)).lat == lat && Centre(CellBox(h)).lon == lon
    requires PointInPolygon.Pip(lon, lat, polygon)
    ensures Keeps(polygon, h) && Collect(polygon, h, {}) == {h}
  {
  }

  /**
   * `neighbor` moves to the cell of the point `(lat, lon)` one cell away,
   * whose bisection steps pass through `boxes`.
   */
  lemma StepCell(h: string, dLat: int, dLon: int, lat: real, lon: real, boxes: seq<Box>)
    requires ValidHash(h) && NeighborPoint(Centre(CellBox(h)), dLat, dLon) == Coord(lat, lon)
    requires |boxes| == 5 * |h| + 1 && boxes[0] == World
    requires forall i :: 0 <= i < 5 * |h| ==> var isLon := IsLonBit(i);
      boxes[i + 1] == Refine(boxes[i], isLon, AxisValue(lat, lon, isLon) > Middle(boxes[i], isLon))
    ensures CellBox(Step(h, dLat, dLon)) == boxes[5 * |h|]
  {
    ToLowerValid(h);
    BisectBoxes(lat, lon, boxes, 5 * |h|);
    BisectCell(lat, lon, |h|);
  }

  /** The cell of `(22.6, 22.4)` at one character. */
  lemma Square1Start()
    ensures CellBox(GeoHashOf(22.6, 22.4, 1)) == Box(0.0, 0.0, 45.0, 45.0)
  {
    var boxes := [
      Box(-90.0, -180.0, 90.0, 180.0),
      Box(-90.0, 0.0, 90.0, 180.0),
      Box(0.0, 0.0, 90.0, 180.0),
      Box(0.0, 0.0, 90.0, 90.0),
      Box(0.0, 0.0, 45.0, 90.0),
      Box(0.0, 0.0, 45.0, 45.0)];
    BisectBoxes(22.6, 22.4, boxes, 5);
    BisectCell(22.6, 22.4, 1);
  }

  /** At one character the cell east of cell `s` starts at longitude 45. */
  lemma Square1East(h: string)
    requires ValidHash(h) && |h| == 1 && CellBox(h) == Box(0.0, 0.0, 45.0, 45.0)
    ensures CellBox(Step(h, 0, 1)) == Box(0.0, 45.0, 45.0, 90.0)
  {
    StepCell(h, 0, 1, 22.5, 67.5, [
      Box(-90.0, -180.0, 90.0, 180.0),
      Box(-90.0, 0.0, 90.0, 180.0),
      Box(0.0, 0.0, 90.0, 180.0),
      Box(0.0, 0.0, 90.0, 90.0),
      Box(0.0, 0.0, 45.0, 90.0),
      Box(0.0, 45.0, 45.0, 90.0)]);
  }

  /** At one character the cell south of cell `s` ends at latitude 0. */
  lemma Square1South(h: string)
    requires ValidHash(h) && |h| == 1 && CellBox(h) == Box(0.0, 0.0, 45.0, 45.0)
    ensures CellBox(Step(h, -1, 0)) == Box(-45.0, 0.0, 0.0, 45.0)
  {
    StepCell(h, -1, 0, -22.5, 22.5, [
      Box(-90.0, -180.0, 90.0, 180.0),
      Box(-90.0, 0.0, 90.0, 180.0),
      Box(-90.0, 0.0, 0.0, 180.0),
      Box(-90.0, 0.0, 0.0, 90.0),
      Box(-45.0, 0.0, 0.0, 90.0),
      Box(-45.0, 0.0, 0.0, 45.0)]);
  }

  /** The cell of `(22.6, 22.4)` at two characters. */
  lemma Square2Start()
    ensures CellBox(GeoHashOf(22.6, 22.4, 2)) == Box(22.5, 11.25, 28.125, 22.5)
  {
    var boxes := [
      Box(-90.0, -180.0, 90.0, 180.0),
      Box(-90.0, 0.0, 90.0, 180.0),
      Box(0.0, 0.0, 90.0, 180.0),
      Box(0.0, 0.0, 90.0, 90.0),
      Box(0.0, 0.0, 45.0, 90.0),
      Box(0.0, 0.0, 45.0, 45.0),
      Box(22.5, 0.0, 45.0, 45.0),
      Box(22.5, 0.0, 45.0, 22.5),
      Box(22.5, 0.0, 33.75, 22.5),
      Box(22.5, 11.25, 33.75, 22.5),
      Box(22.5, 11.25, 28.125, 22.5)];
    BisectBoxes(22.6, 22.4, boxes, 10);
    BisectCell(22.6, 22.4, 2);
  }

  /** At two characters, the second cell of the first row. */
  lemma Square2East00(h: string)
    requires ValidHash(h) && |h| == 2 && CellBox(h) == Box(22.5, 11.25, 28.125, 22.5)
    ensures CellBox(Step(h, 0, 1)) == Box(22.5, 22.5, 28.125, 33.75)
  {
    StepCell(h, 0, 1, 25.3125, 28.125, [
      Box(-90.0, -180.0, 90.0, 180.0),
      Box(-90.0, 0.0, 90.0, 180.0),
      Box(0.0, 0.0, 90.0, 180.0),
      Box(0.0, 0.0, 90.0, 90.0),
      Box(0.0, 0.0, 45.0, 90.0),
      Box(0.0, 0.0, 45.0, 45.0),
      Box(22.5, 0.0, 45.0, 45.0),
      Box(22.5, 22.5, 45.0, 45.0),
      Box(22.5, 22.5, 33.75, 45.0),
      Box(22.5, 22.5, 33.75, 33.75),
      Box(22.5, 22.5, 28.125, 33.75)]);
  }

  /** At two characters, the cell east of the first row's second cell starts at longitude 33.75. */
  lemma Square2East01(h: string)
    requires ValidHash(h) && |h| == 2 && CellBox(h) == Box(22.5, 22.5, 28.125, 33.75)
    ensures CellBox(Step(h, 0, 1)) == Box(22.5, 33.75, 28.125, 45.0)
  {
    StepCell(h, 0, 1, 25.3125, 39.375, [
      Box(-90.0, -180.0, 90.0, 180.0),
      Box(-90.0, 0.0, 90.0, 180.0),
      Box(0.0, 0.0, 90.0, 180.0),
      Box(0.0, 0.0, 90.0, 90.0),
      Box(0.0, 0.0, 45.0, 90.0),
      Box(0.0, 0.0, 45.0, 45.0),
      Box(22.5, 0.0, 45.0, 45.0),
      Box(22.5, 22.5, 45.0, 45.0),
      Box(22.5, 22.5, 33.75, 45.0),
      Box(22.5, 33.75, 33.75, 45.0),
      Box(22.5, 33.75, 28.125, 45.0)]);
  }

  /** At two characters, the first cell of the second row. */
  lemma Square2South00(h: string)
    requires ValidHash(h) && |h| == 2 && CellBox(h) == Box(22.5, 11.25, 28.125, 22.5)
    ensures CellBox(Step(h, -1, 0)) == Box(16.875, 11.25, 22.5, 22.5)
  {
    StepCell(h, -1, 0, 19.6875, 16.875, [
      Box(-90.0, -180.0, 90.0, 180.0),
      Box(-90.0, 0.0, 90.0, 180.0),
      Box(0.0, 0.0, 90.0, 180.0),
      Box(0.0, 0.0, 90.0, 90.0),
      Box(0.0, 0.0, 45.0, 90.0),
      Box(0.0, 0.0, 45.0, 45.0),
      Box(0.0, 0.0, 22.5, 45.0),
      Box(0.0, 0.0, 22.5, 22.5),
      Box(11.25, 0.0, 22.5, 22.5),
      Box(11.25, 11.25, 22.5, 22.5),
      Box(16.875, 11.25, 22.5, 22.5)]);
  }

  /** At two characters, the second cell of the second row. */
  lemma Square2East10(h: string)
    requires ValidHash(h) && |h| == 2 && CellBox(h) == Box(16.875, 11.25, 22.5, 22.5)
    ensures CellBox(Step(h, 0, 1)) == Box(16.875, 22.5, 22.5, 33.75)
  {
    StepCell(h, 0, 1, 19.6875, 28.125, [
      Box(-90.0, -180.0, 90.0, 180.0),
      Box(-90.0, 0.0, 90.0, 180.0),
      Box(0.0, 0.0, 90.0, 180.0),
      Box(0.0, 0.0, 90.0, 90.0),
      Box(0.0, 0.0, 45.0, 90.0),
      Box(0.0, 0.0, 45.0, 45.0),
      Box(0.0, 0.0, 22.5, 45.0),
      Box(0.0, 22.5, 22.5, 45.0),
      Box(11.25, 22.5, 22.5, 45.0),
      Box(11.25, 22.5, 22.5, 33.75),
      Box(16.875, 22.5, 22.5, 33.75)]);
  }

  /** At two characters, the cell east of the second row's second cell starts at longitude 33.75. */
  lemma Square2East11(h: string)
    requires ValidHash(h) && |h| == 2 && CellBox(h) == Box(16.875, 22.5, 22.5, 33.75)
    ensures CellBox(Step(h, 0, 1)) == Box(16.875, 33.75, 22.5, 45.0)
  {
    StepCell(h, 0, 1, 19.6875, 39.375, [
      Box(-90.0, -180.0, 90.0, 180.0),
      Box(-90.0, 0.0, 90.0, 180.0),
      Box(0.0, 0.0, 90.0, 180.0),
      Box(0.0, 0.0, 90.0, 90.0),
      Box(0.0, 0.0, 45.0, 90.0),
      Box(0.0, 0.0, 45.0, 45.0),
      Box(0.0, 0.0, 22.5, 45.0),
      Box(0.0, 22.5, 22.5, 45.0),
      Box(11.25, 22.5, 22.5, 45.0),
      Box(11.25, 33.75, 22.5, 45.0),
      Box(16.875, 33.75, 22.5, 45.0)]);
  }

  /** At two characters, the row south of the second ends at latitude 16.875. */
  lemma Square2South10(h: string)
    requires ValidHash(h) && |h| == 2 && CellBox(h) == Box(16.875, 11.25, 22.5, 22.5)
    ensures CellBox(Step(h, -1, 0)) == Box(11.25, 11.25, 16.875, 22.5)
  {
    StepCell(h, -1, 0, 14.0625, 16.875, [
      Box(-90.0, -180.0, 90.0, 180.0),
      Box(-90.0, 0.0, 90.0, 180.0),
      Box(0.0, 0.0, 90.0, 180.0),
      Box(0.0, 0.0, 90.0, 90.0),
      Box(0.0, 0.0, 45.0, 90.0),
      Box(0.0, 0.0, 45.0, 45.0),
      Box(0.0, 0.0, 22.5, 45.0),
      Box(0.0, 0.0, 22.5, 22.5),
      Box(11.25, 0.0, 22.5, 22.5),
      Box(11.25, 11.25, 22.5, 22.5),
      Box(11.25, 11.25, 16.875, 22.5)]);
  }
  /** The hash of `(22.6, 22.4)` at one character is `s`. */
  lemma Square1Corner()
    ensures GeoHashOf(22.6, 22.4, 1) == "s"
  {
  }

  /**
   * From cell `s`, the one-character sweep of the square visits `s` alone,
   * and keeps it.
   */
  lemma Square1From(h: string, fuel: nat)
    requires ValidHash(h) && |h| == 1 && CellBox(h) == Box(0.0, 0.0, 45.0, 45.0) && fuel >= 2
    ensures RowSweep(Square, Box(22.4, 22.4, 22.6, 22.6), h, {}, fuel) == Some({h})
  {
    Square1East(h);
    Square1South(h);
    OneByOne(Square, Box(22.4, 22.4, 22.6, 22.6), h, fuel);
    SquareKeepsCentre();
    KeepsCentre(Square, h, 22.5, 22.5);
  }

  /**
   * At one character the sweep of the square collects exactly the cell `s`:
   * the next column starts at longitude 45, east of 22.6, and the next row
   * ends at latitude 0, south of 22.4.
   */
  lemma SquareSweepAt1(fuel: nat)
    requires fuel >= 2
    ensures Sweep(Square, 1, fuel) == Some({"s"})
  {
    var h := GeoHashOf(22.6, 22.4, 1);
    SquareBounds();
    SweepFrom(Square, 1, fuel, Box(22.4, 22.4, 22.6, 22.6), h);
    Square1Start();
    Square1From(h, fuel);
    Square1Corner();
  }

  /**
   * From the two-character cell of the square's north-west corner, the
   * sweep visits two rows of two cells, none of whose centres lies inside.
   */
  lemma Square2From(h: string, fuel: nat)
    requires ValidHash(h) && |h| == 2 && CellBox(h) == Box(22.5, 11.25, 28.125, 22.5) && fuel >= 6
    ensures RowSweep(Square, Box(22.4, 22.4, 22.6, 22.6), h, {}, fuel) == Some({})
  {
    var east, south := Step(h, 0, 1), Step(h, -1, 0);
    var southEast := Step(south, 0, 1);
    Square2East00(h);
    Square2East01(east);
    Square2South00(h);
    Square2East10(south);
    Square2East11(southEast);
    Square2South10(south);
    TwoByTwo(Square, Box(22.4, 22.4, 22.6, 22.6), h, south, fuel);
    SquareDropsCentre(h, 25.3125, 16.875);
    SquareDropsCentre(east, 25.3125, 28.125);
    SquareDropsCentre(south, 19.6875, 16.875);
    SquareDropsCentre(southEast, 19.6875, 28.125);
  }

  /**
   * At two characters the sweep of the same square collects nothing: the
   * coverage set shrinks from `{s}` to the empty set as the precision grows.
   */
  lemma SquareSweepAt2(fuel: nat)
    requires fuel >= 6
    ensures Sweep(Square, 2, fuel) == Some({})
  {
    var h := GeoHashOf(22.6, 22.4, 2);
    SquareBounds();
    SweepFrom(Square, 2, fuel, Box(22.4, 22.4, 22.6, 22.6), h);
    Square2Start();
    Square2From(h, fuel);
  }
}
