/**
 * The value carriers of the repository (Coordinates, Coordinate,
 * CoordinateWithError, LatLonPair, Error, Pair) as plain datatypes.
 */
module Coords {
  /** A geographic point in degrees. */
  datatype Coord = Coord(lat: real, lon: real)

  /** A cell centre together with its half-extents ("errors") on both axes. */
  datatype CoordWithError = CoordWithError(lat: real, lon: real, latErr: real, lonErr: real)

  /** The valid range of a geographic point. */
  predicate InRange(lat: real, lon: real) {
    -90.0 <= lat <= 90.0 && -180.0 <= lon <= 180.0
  }
}
