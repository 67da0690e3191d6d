/**
 * Geographic values the World Wind classes pass around: locations, positions,
 * sectors and screen points. Angles are real numbers of degrees and
 * elevations real numbers of metres.
 */
module Geo {
  /** A latitude and longitude. */
  datatype LatLon = LatLon(latitude: real, longitude: real)

  /** A latitude, longitude and elevation. */
  datatype Position = Position(latitude: real, longitude: real, elevation: real)

  /** A latitude/longitude rectangle. */
  datatype Sector = Sector(minLatitude: real, maxLatitude: real, minLongitude: real, maxLongitude: real)

  /** Sector.FULL_SPHERE. */
  const FullSphere: Sector := Sector(-90.0, 90.0, -180.0, 180.0)

  /** An android.graphics.Point in screen coordinates. */
  datatype Point = Point(x: int, y: int)
}
