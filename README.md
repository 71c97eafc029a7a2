# GeoHashesInPolygon in Dafny

A verified model of GeoHashesInPolygon. Given a simple polygon and a
precision, the library computes the set of geohash cells at that precision
whose centres lie inside the polygon. It has five parts, and the model
follows them module by module:

- `Base32` and `GeoHash` model the geohash codec (`src/geohash/GeoHash.java`):
  - the 32-symbol alphabet and its lookup table;
  - `encode`, which bisects longitude on even bits and latitude on odd bits and packs
    five bits per character;
  - `decode_bbox`, which replays the bisection to recover the cell;
  - the bit-list decoder `getBits` / `decodeBits`;
  - `hashToLong`.
- `PointInPolygon` models the even-odd ray-casting test `pointInPolygon` / `pip`.
- `GeoHashUtils` models the helpers:
  - `decode` / `decodeWithError`, which give a cell's centre and half-extents;
  - the circular longitude comparison `isWest`;
  - the bounding box `polyToBB`;
  - `neighbor`, which steps one cell by re-encoding a shifted centre;
  - `inside`.
- `EnclosingGeoHash` models `longestCommonPrefix` and `longestEnclosingHash`.
  The latter is the common prefix of the twelve-character hashes of a polygon's
  vertices.
- `GeoHashesInPolygon` models the coverage sweep `hashesInPoly`:
  - it starts at the cell of the bounding box's north-west corner;
  - it walks each row eastwards and steps one row south between rows;
  - it keeps each cell whose centre the ray-casting test puts inside;
  - the auto-precision overload uses the enclosing prefix's length plus two.

`Wrappers` holds `Option` and `Coords` holds the coordinate value types.

Coordinates are exact `real`s. Every operation that loops or updates state
in the Java code is a `method` with loop invariants, proved against a
specification function:

| method | specification function |
|---|---|
| `Encode` | `GeoHashOf` |
| `DecodeBBox` | `CellOf` / `CellBox` |
| `PointInPolygon` | `Pip` |
| `PolyToBB` | `Bounds` |
| `HashesInPoly` | `Sweep` |

The lemmas then prove, about those functions, what the library relies on. The
central one is `GeoHash.EncodeIffCovers`: a point encodes to hash `h` exactly
when it lies in `h`'s cell. Because `encode` sends a value on a midpoint
to the lower half (`value > middle`), a cell contains its northern and
eastern edges but not its southern and western ones. The exception is along
the world's southern and western edges, where cells contain those edges too.
Cells on a world edge also take every point beyond it.

The Java code fails with an exception when it looks up a character that is
not in the alphabet, because it unboxes the missing lookup result. The model returns `None` there instead. The Java
sweep loops have no bound. The model gives them an explicit `fuel` and returns
`None` when the fuel runs out.

## Copies

The repository holds several copies of the same operations. Each one maps
onto one member of the model:

- `encode`:
  - `src/geohash/GeoHash.java:78-117` and `src/PolygonGeoHash.java:116-155` are `GeoHash.Encode`.
  - The `double` overloads (`src/geohash/GeoHash.java:122-131`) are `GeoHash.Encode`,
    with precision `DEFAULT_PRECISION` for the two-argument overload.
- `decode_bbox`: `src/geohash/GeoHash.java:222-255` and `src/PolygonGeoHash.java:185-218` are `GeoHash.DecodeBBox`.
- The alphabet and lookup table:
  - `charMap` / `BASE32_CHARS` (`src/geohash/GeoHash.java:25-29`, `src/PolygonGeoHash.java:13-17`,
    `src/GeoHashUtils.java:39-40`, `src/GeoHashesInPolygon.java:11-15`) is `Base32.CharMap`.
  - The static blocks that fill the lookup maps are `Base32.BuildLookupTable`.
- `decode` (`src/GeoHashUtils.java:54-61`, `src/PolygonGeoHash.java:165-172`) and `decodeWithError`
  (`src/geohash/GeoHashUtils.java:12-19`) are `GeoHashUtils.DecodeWithError`.
- `isWest`: the three copies are `GeoHashUtils.IsWest`.
- `polyToBB`: the three copies are `GeoHashUtils.PolyToBB`.
  - `src/PolygonGeoHash.java` passes vertices as `double[]`, with `p[0]` the longitude and `p[1]` the latitude.
  - The other copies pass `Coordinates`.
  - All of them are `Coord(lat, lon)` here.
- `neighbor`: the three copies are `GeoHashUtils.Neighbor`. Inside the sweep it is used through `GeoHashesInPolygon.Step`.
- `inside`: the three copies are `GeoHashUtils.Inside`.
- `pip` (`src/PolygonGeoHash.java:37-52`) and `pointInPolygon` (`src/polygon/PointInPolygon.java:11-26`) are
  `PointInPolygon.PointInPolygon`, with `point = [longitude, latitude]`.
- The sweep `hashesInPoly(polygon, precision)` is `GeoHashesInPolygon.HashesInPoly`. It has four copies:
  - `src/PolygonGeoHash.java:69-94`;
  - `src/GeoHashesInPolygon.java:45-67`;
  - `src/polygon/GeoHashesInPolygon.java:36-58`;
  - `src/runner/GeoHashesInPolygon.java:40-62`.
- `geohashPoly` and `geohashesInPolygon` only return `hashesInPoly(polygon, precision)`. They are `HashesInPoly` itself.
- The auto-precision overload `hashesInPoly(polygon)` is `GeoHashesInPolygon.HashesInPolyAuto`. It appears in
  `src/GeoHashesInPolygon.java:38-42`, `src/polygon/GeoHashesInPolygon.java:25-29` and
  `src/runner/GeoHashesInPolygon.java:28-32`.

## Model

| member | source | states |
|---|---|---|
| Base32.CharMapLiteral | src/geohash/GeoHash.java:25-29 | the alphabet is `0123456789bcdefghjkmnpqrstuvwxyz`, element by element |
| Base32.AlphabetShape | src/GeoHashUtils.java:39-40 | the alphabet has 32 pairwise distinct symbols and contains none of `a`, `i`, `l`, `o` |
| Base32.LookupInverse | src/GeoHashUtils.java:42-46 | the lookup table maps each alphabet symbol to its index, and only alphabet symbols are in it, so it is the exact inverse of the alphabet |
| Base32.BuildLookupTable | src/geohash/GeoHash.java:39-43 | the static block's loop builds a map whose keys are exactly the alphabet and which sends `charMap[i]` to `i` |
| Base32.HashBitsOfChars | src/geohash/GeoHash.java:202-219 | turning `5n` bits into `n` characters and back gives the same bits |
| Base32.CharsOfHashBits | src/geohash/GeoHash.java:202-219 | a hash's bits, read back five at a time, give the same hash, so `getBits` loses nothing |
| Base32.HashBitsPrefix | src/geohash/GeoHash.java:202-219 | the bits of the first `k` characters are the first `5k` bits of the hash |
| GeoHash.GeoHashOf | src/geohash/GeoHash.java:95-116 | the encoding at precision `n` has exactly `n` characters, all from the alphabet |
| GeoHash.CoversIffBits | src/geohash/GeoHash.java:99-111 | a point lies in the rectangle that a bit list bisects down to exactly when bisecting the point yields that bit list |
| GeoHash.BisectPrefix | src/geohash/GeoHash.java:95-114 | the first `k` bits of a point's bisection do not depend on how many more follow |
| GeoHash.EncodeIffCovers | src/geohash/GeoHash.java:78-117 | for a valid hash `h`, encoding `(lat, lon)` at the length of `h` gives `h` exactly when `(lat, lon)` lies in `decode_bbox(h)`, with out-of-range points clamped to the world's edges |
| GeoHash.EncodeCovers | src/geohash/GeoHash.java:222-255 | `decode_bbox(encode(lat, lon, n))` contains `(lat, lon)` |
| GeoHash.EncodeCell | src/geohash/GeoHash.java:222-255 | `decode_bbox(encode(lat, lon, n))` is the rectangle that `encode`'s intervals shrink to after `5n` halvings |
| GeoHash.EncodeBounds | src/geohash/GeoHash.java:104-110 | for an in-range point, `low[k] <= value[k] <= high[k]` holds on both axes of the final cell |
| GeoHash.CellWithinPrefix | src/geohash/GeoHash.java:230-253 | the cell of a hash lies inside the cell of each of its prefixes |
| GeoHash.CellWidths | src/geohash/GeoHash.java:230-253 | after `n` characters the cell is `360 / 2^ceil(5n/2)` degrees wide and `180 / 2^floor(5n/2)` degrees high |
| GeoHash.GeoHashPrefix | src/geohash/GeoHash.java:95-114 | encoding at precision `k` gives the first `k` characters of the encoding at a larger precision |
| GeoHash.GeoHashStep | src/geohash/GeoHash.java:98-113 | the character index `charBits` built from five bits is below 32, and appending `charMap[charBits]` gives the encoding one character longer |
| GeoHash.EncodeBit | src/geohash/GeoHash.java:100-110 | one pass of the inner loop: global bit `p * 5 + b` halves the interval of axis `bit % 2`, and `charBits` becomes the value of the character's bits so far with that bit shifted in |
| GeoHash.Halve | src/geohash/GeoHash.java:104-110 | one step halves the interval of the axis `bit % 2` on the side of `value`, and returns whether the value is above the middle |
| GeoHash.EncodeChar | src/geohash/GeoHash.java:97-113 | the inner loop refines `low`/`high` by five more bisections of the point and leaves their bits in `charBits` |
| GeoHash.EncodeChars | src/geohash/GeoHash.java:93-116 | starting from the whole world, the outer loop builds the point's geohash of `precision` characters, or the empty string for a negative precision, and leaves in `low`/`high` exactly the rectangle `decode_bbox` gives for that hash |
| GeoHash.Encode | src/geohash/GeoHash.java:78-117 | `encode` returns the point's geohash at `max(precision, 0)` characters |
| GeoHash.DecodeChar | src/geohash/GeoHash.java:234-252 | the five bisections of one character turn the cell of the bits so far into the cell of those bits followed by the character's five bits, and toggle `islon` five times |
| GeoHash.DecodeBit | src/geohash/GeoHash.java:235-251 | one pass of the inner loop reads bit `bits` of the character with `(hash_value >> bits) & 1`, turns the cell of the bits so far into the cell with that bit appended, and toggles `islon` |
| GeoHash.HalveBox | src/geohash/GeoHash.java:236-250 | a set bit raises the lower edge of the axis being read to its midpoint; a clear bit lowers the upper edge |
| GeoHash.DecodeBBox | src/geohash/GeoHash.java:222-255 | `decode_bbox` lower-cases its input and returns the cell of the hash, or `None` when a character is not in the alphabet |
| GeoHash.GetBits | src/geohash/GeoHash.java:202-219 | `getBits` lower-cases its input and returns five bits per character, most significant first, or `None` when a character is not in the alphabet |
| GeoHash.DecodeBits | src/geohash/GeoHash.java:164-194 | `decodeBits` returns the latitude interval `(high, low)` or the longitude interval `(low, high)` of the rectangle that the bit list bisects down to |
| GeoHash.HashToLong | src/geohash/GeoHash.java:139-153 | `hashToLong` is the base-32 value of the first `min(len, 12)` characters, below `2^60`, or `None` when one of them is not in the alphabet |
| GeoHash.Base32ValueBits | src/geohash/GeoHash.java:139-153 | the base-32 value of a hash equals the binary value of its `getBits` bit list |
| GeoHash.Base32ValueBound | src/geohash/GeoHash.java:139-153 | the base-32 value of `k` characters is below `2^(5k)` |
| GeoHashUtils.Centre | src/GeoHashUtils.java:54-61 | the centre minus and plus each half-extent gives the rectangle's two edges on that axis |
| GeoHashUtils.DecodeWithError | src/geohash/GeoHashUtils.java:12-19 | `decodeWithError` succeeds exactly for hashes over the alphabet. It gives the cell's midpoint with positive half-extents `max - centre` that reach both edges |
| GeoHashUtils.CentreCovers | src/PolygonGeoHash.java:165-172 | a cell's decoded centre lies in that cell |
| GeoHashUtils.DecodeReencodes | src/PolygonGeoHash.java:96-104 | re-encoding the decoded centre at the hash's length gives the (lower-cased) hash back |
| GeoHashUtils.IsWest | src/geohash/GeoHashUtils.java:25-27 | `isWest(lon1, lon2)`: `lon1 < lon2` with a difference below 180, or `lon1 > lon2` with `lon2 - lon1 + 360 < 180`; its meaning is stated by the four lemmas below |
| GeoHashUtils.IsWestEastward | src/geohash/GeoHashUtils.java:25-27 | for longitudes in `[-180, 180)`, `isWest(a, b)` holds exactly when going east from `a` reaches `b` within less than 180 degrees, across the seam through the `+360` branch |
| GeoHashUtils.IsWestCases | src/GeoHashUtils.java:68-70 | with `a < b`, `isWest(a, b)` holds exactly when `b - a < 180`; with `a > b`, exactly when `a - b > 180`; with `a == b` it is false |
| GeoHashUtils.IsWestAsymmetric | src/PolygonGeoHash.java:179-181 | `isWest` is irreflexive, and `isWest(a, b)` and `isWest(b, a)` never both hold |
| GeoHashUtils.IsWestSeam | src/geohash/GeoHashUtils.java:25-27 | 179 is west of -179 and not the other way round, and 180 counts as west of -180 |
| GeoHashUtils.PolyToBB | src/GeoHashUtils.java:78-88 | the loop returns `{minLat, minLon, maxLat, maxLon}`, bounding every vertex with each bound attained or still at its `Double.MAX_VALUE` start, and equal to the reference `Bounds` |
| GeoHashUtils.BoundsIsBounds | src/geohash/GeoHashUtils.java:45-54 | the reference fold of `Math.min`/`Math.max` bounds every vertex |
| GeoHashUtils.BoundsAttained | src/PolygonGeoHash.java:221-230 | for a non-empty polygon with finite coordinates, each of the four bounds is attained by some vertex |
| GeoHashUtils.BoundsUnique | src/GeoHashUtils.java:78-88 | the bounding box is determined by the vertices |
| GeoHashUtils.BoundsEmpty | src/GeoHashUtils.java:79 | an empty polygon leaves the initial values `{MAX, MAX, -MAX, -MAX}` |
| GeoHashUtils.Neighbor | src/geohash/GeoHashUtils.java:60-69 | `neighbor` succeeds exactly for hashes over the alphabet. It returns a hash of the input's length whose cell covers the centre shifted by twice the half-extents times the direction |
| GeoHashUtils.NeighborIdentity | src/PolygonGeoHash.java:96-104 | the direction `{0, 0}` returns the hash itself |
| GeoHashUtils.NeighborDistance | src/GeoHashesInPolygon.java:69-78 | a step of `(dLat, dLon)` moves the centre by exactly `dLat` cell heights and `dLon` cell widths |
| GeoHashUtils.Inside | src/geohash/GeoHashUtils.java:74-80 | `inside` returns 0 or 1, and 1 exactly when `pointInPolygon([lon, lat], polygon)` holds |
| PointInPolygon.PointInPolygon | src/polygon/PointInPolygon.java:11-26 | the loop over `(i, j)`, starting at `j = n - 1`, returns the parity of the number of crossed edges over the cyclic edge list `(i, i - 1 mod n)` |
| PointInPolygon.PipEmpty | src/polygon/PointInPolygon.java:15-16 | a polygon without vertices contains no point |
| PointInPolygon.HorizontalNeverCrosses | src/polygon/PointInPolygon.java:20-21 | an edge with `yi == yj` is never counted, so the division is never reached for it |
| PointInPolygon.PipOutsideLatitudes | src/polygon/PointInPolygon.java:20 | a point on or north of every vertex, or south of every vertex, is outside |
| PointInPolygon.PipRotate | src/polygon/PointInPolygon.java:16-23 | rotating the vertex array cyclically changes neither the crossing count nor the result |
| EnclosingGeoHash.LongestCommonPrefix | src/EnclosingGeoHash.java:27-42 | `""` for no strings; otherwise a prefix of every string that is the whole first string or stops where some string ends or differs |
| EnclosingGeoHash.LongestCommonPrefixMaximal | src/EnclosingGeoHash.java:32-41 | every common prefix of the strings is a prefix of the result |
| EnclosingGeoHash.LongestCommonPrefixUnique | src/EnclosingGeoHash.java:27-42 | the result is determined by the strings |
| EnclosingGeoHash.LongestCommonPrefixSingleton | src/EnclosingGeoHash.java:32-41 | one string is its own longest common prefix |
| EnclosingGeoHash.LongestCommonPrefixLength | src/EnclosingGeoHash.java:35-37 | the result is no longer than any input |
| EnclosingGeoHash.CommonPrefixIsLongest | src/EnclosingGeoHash.java:27-42 | folding the pairwise common prefix over the strings satisfies the contract of `longestCommonPrefix` |
| EnclosingGeoHash.LongestCommonPrefixIsFold | src/EnclosingGeoHash.java:27-42 | whatever satisfies that contract equals the fold |
| EnclosingGeoHash.LongestEnclosingHash | src/EnclosingGeoHash.java:9-19 | the result is the longest common prefix of the vertices' hashes at `DEFAULT_PRECISION` |
| EnclosingGeoHash.EnclosingHashCovers | src/EnclosingGeoHash.java:9-19 | the enclosing hash has at most 12 characters and is a valid hash; it is each vertex's own geohash at its length, and its cell covers every vertex |
| GeoHashesInPolygon.HashesInPoly | src/polygon/GeoHashesInPolygon.java:36-58 | the sweep returns what the reference `Sweep` gives: rows from `encode(maxLat, minLon, precision)` of the bounding box, each swept east, stepping south |
| GeoHashesInPolygon.SweepRows | src/polygon/GeoHashesInPolygon.java:41-55 | the do-while loop over rows computes the reference row sweep from the first row hash |
| GeoHashesInPolygon.SweepColumns | src/polygon/GeoHashesInPolygon.java:42-51 | the column loop, running while `isWest(columnBox[1], maxLon)` and stepping by `(0, 1)`, computes the reference column sweep |
| GeoHashesInPolygon.VisitCell | src/polygon/GeoHashesInPolygon.java:45-48 | a cell is added exactly when `inside(decodeWithError(cell), polygon) % 2 == 1` |
| GeoHashesInPolygon.HashesInPolyAuto | src/GeoHashesInPolygon.java:38-42 | the auto overload sweeps at precision `longestEnclosingHash(polygon).length() + 2` |
| GeoHashesInPolygon.ColumnSweepCells | src/polygon/GeoHashesInPolygon.java:44-51 | a row's sweep adds to the set exactly the kept cells among those the walk east visits, and fails exactly when that walk runs out of fuel |
| GeoHashesInPolygon.ColumnSweepSound | src/polygon/GeoHashesInPolygon.java:44-51 | sweeping a row only adds valid hashes of the row's length whose centres are inside the polygon |
| GeoHashesInPolygon.SweepSound | src/GeoHashesInPolygon.java:45-67 | every hash in the result has `precision` characters and a decoded centre that the ray-casting test puts inside the polygon |
| GeoHashesInPolygon.ColumnSweepUnion | src/polygon/GeoHashesInPolygon.java:38-47 | the set collected so far does not steer the walk: sweeping into `acc` gives `acc` plus what sweeping into the empty set gives |
| GeoHashesInPolygon.FirstRowSwept | src/polygon/GeoHashesInPolygon.java:41-55 | the do-while body runs at least once: a finished sweep has swept its first row, and the result contains that row's cells |
| GeoHashesInPolygon.RowSweepGrows | src/runner/GeoHashesInPolygon.java:45-59 | the row loop never removes a collected hash |
| GeoHashesInPolygon.ColumnSweepGrows | src/runner/GeoHashesInPolygon.java:48-55 | the column loop never removes a collected hash |
| GeoHashesInPolygon.EastEdgeStep | src/geohash/GeoHashUtils.java:60-69 | the east neighbour of a cell on the world's eastern edge is that same cell, because `encode` clamps rather than wrapping past 180 |
| GeoHashesInPolygon.ColumnSweepNeverEnds | src/polygon/GeoHashesInPolygon.java:44-51 | when a row reaches a cell on the eastern edge and that cell is still west of `maxLon`, the column loop never ends: every bound on the steps runs out |
| GeoHashesInPolygon.ColumnSweepNeverEndsAtZ | src/polygon/GeoHashesInPolygon.java:44-51 | a concrete case: at one character, cell `z` spans longitudes 135 to 180, and with `maxLon = 170` the column loop from `z` fails for every bound on the steps |
| GeoHashesInPolygon.SouthEdgeStep | src/geohash/GeoHashUtils.java:60-69 | the south neighbour of a cell on the world's southern edge is that same cell, because `encode` puts a latitude below -90 into the southernmost cell |
| GeoHashesInPolygon.RowSweepNeverEnds | src/polygon/GeoHashesInPolygon.java:41-55 | when the sweep reaches a row on the southern edge whose north edge is above `minLat`, the row loop never ends: every bound on the steps runs out |
| GeoHashesInPolygon.RowSweepNeverEndsAtZero | src/polygon/GeoHashesInPolygon.java:41-55 | a concrete case: at one character, cell `0` spans latitudes -90 to -45, and with `minLat` below -45 the sweep from `0` fails for every bound on the steps |
| GeoHashesInPolygon.OneByOne | src/polygon/GeoHashesInPolygon.java:41-55 | a sweep whose first row has one cell west of `maxLon`, and whose next row lies south of `minLat`, returns that cell when it is kept and nothing otherwise |
| GeoHashesInPolygon.TwoByTwo | src/polygon/GeoHashesInPolygon.java:41-55 | a sweep over two rows of two cells west of `maxLon`, followed by a row south of `minLat`, returns the kept ones among those four cells |
| GeoHashesInPolygon.SquareSweepAt1 | src/polygon/GeoHashesInPolygon.java:36-58 | for the square with corners at latitudes and longitudes 22.4 and 22.6, the sweep at one character returns exactly `{s}` |
| GeoHashesInPolygon.SquareSweepAt2 | src/polygon/GeoHashesInPolygon.java:36-58 | the same square swept at two characters returns the empty set, so a higher precision can give a smaller coverage set |
| GeoHash.BisectBoxes | src/geohash/GeoHash.java:99-111 | after `k` bisection steps of a point the rectangle is the `k`-th entry of any list that starts at the world and halves each entry on the point's side |

## Left out

- Floating point: coordinates are exact reals.
  - The float cast of the `double` overloads of `encode` (`src/geohash/GeoHash.java:122-131`) is not modelled.
  - Neither is `float` rounding in `encode` / `decodeBits`, nor `NaN` in `Math.min` / `Math.max`.
  - So the cell counts and prefixes that depend on concrete `float` inputs are not modelled.
- Termination of the sweep: neither Java loop has a bound.
  - `HashesInPoly` and `HashesInPolyAuto` take a `fuel` bound on the total number of row and column steps.
  - They return `None` when it runs out.
  - The Java sweep does not terminate for some polygons, in either loop. `encode`'s bisection puts a coordinate past the
    world's edge into the edge cell instead of wrapping it round (`src/geohash/GeoHash.java:104-110`). So `neighbor`
    (`src/geohash/GeoHashUtils.java:60-69`) returns a cell on the world's eastern edge as its own east neighbour,
    and a cell on the southern edge as its own south neighbour.
  - Column loop (`src/polygon/GeoHashesInPolygon.java:44-51`): it never ends once the eastward walk of a row
    reaches a cell on the eastern edge whose west edge is still `isWest` of `maxLon`.
    - This takes two conditions. The row's first cell must be west of `maxLon`, that is,
      `0 < maxLon - westEdge < 180` when the two do not straddle the seam. And the walk must get as far as the
      last column.
    - A polygon whose `maxLon` lies in the easternmost column but whose walk never starts, or stops earlier, sweeps normally.
    - The case is proved for cell `z` with `maxLon = 170` at precision 1.
  - Row loop (`src/polygon/GeoHashesInPolygon.java:41-55`): it never ends once the sweep reaches a row on the
    southern edge whose north edge is still above `minLat`. The same row is then swept again and again.
    - At precision 1 that is any sweep reaching cell `0` (latitudes -90 to -45) with `minLat` below -45.
  - The model returns `None` for every bound in these cases. The lemmas are `ColumnSweepNeverEnds`,
    `ColumnSweepNeverEndsAtZ`, `RowSweepNeverEnds` and `RowSweepNeverEndsAtZero`.
  - That the sweep tiles the bounding box, that is, that every cell inside it is visited, is not stated.
- Growth with the precision: no lemma says that the coverage set grows, or keeps its size, as the precision rises, because the sweep does not do that.
  - Take the square with corners `(22.4, 22.4)`, `(22.4, 22.6)`, `(22.6, 22.6)` and `(22.6, 22.4)`.
  - At one character the sweep returns `{s}`: the centre of cell `s` is `(22.5, 22.5)`, the square's centre.
  - At two characters `(22.5, 22.5)` is a corner of four cells. The sweep visits two rows of two cells, and none of their centres lies inside the square. The result is empty.
  - The lemmas are `SquareSweepAt1` and `SquareSweepAt2`.
- GeoHashesInPolygon.SweepSound: states soundness only. Completeness, that every cell whose centre is inside
  the polygon is returned, is not stated. The Java code does not promise it, since a cell whose west edge is
  not west of `maxLon` is never visited.
- Errors: the exception Java raises when unboxing the lookup of a character outside the alphabet is modelled as `None`.
- Lower-casing: `toLowerCase` is modelled on ASCII letters only.
- `hashToLong`: a Java `long` holds the value, which is below `2^60` and so never wraps. It is modelled as a `nat`.
- Factored loop bodies: `Encode`, `DecodeBBox` and `HashesInPoly` run their inner loops through helper methods in the same order:
  - `EncodeChars`, `EncodeChar`, `EncodeBit` and `Halve`;
  - `DecodeChar`, `DecodeBit` and `HalveBox`;
  - `SweepRows`, `SweepColumns`, `VisitCell` and `DecodeCell`.
- Hash sets: Java's `HashSet` / `HashMap` are Dafny `set` / `map`. The commented-out JavaScript filter in `src/PolygonGeoHash.java:61-64` is not modelled.
- `suitableHashLength` (`src/EnclosingGeoHash.java:50-65`) is not modelled. It measures haversine distances, and the `GeoHashUtils.decode_bbox` it calls does not exist.
- Classes that are not part of this model:
  - `geohash.LongestEnclosingGeoHash`, used only by `src/polygon/GeoHashesInPolygon.java:6,26`.
    That sweep is taken to call `longestEnclosingHash` as in `src/EnclosingGeoHash.java`.
  - `polygon.EnclosingGeoHash`, `polygon.GeoHash`, `polygon.GeoHashUtils` and `polygon.Coordinates`, imported by
    `src/runner/GeoHashesInPolygon.java:3-6`.
    - The runner's sweep is taken to use them as if they were `src/EnclosingGeoHash.java` and `src/geohash/*.java`.
    - It is mapped onto those in "## Copies".
  - `PointInPolygon.pip`, called by `src/GeoHashesInPolygon.java:81-87`. It is taken to be the same ray-casting test.
- `GeoGeometry`, `SpatialRange`, the coordinate value classes beyond plain datatypes, and the runners' console output are not modelled.
