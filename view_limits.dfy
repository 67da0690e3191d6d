/**
 * gov.nasa.worldwind.view.BasicViewPropertyLimits and BasicOrbitViewLimits:
 * the ranges a view's eye location, eye elevation, heading, pitch and roll,
 * and an orbit view's centre location, centre elevation and zoom, are kept
 * in, and the static functions that clamp a value into them. Angles are
 * held as real degrees (Angle.compareTo compares degrees) and doubles as
 * reals.
 */
module ViewLimits {
  import opened JavaLang
  import opened Geo

  /**
   * The clamp every limit function performs: the minimum for a value below
   * it, else the maximum for a value above it, else the value itself.
   */
  function Clamp(x: real, min: real, max: real): (r: real)
    ensures r == min || r == max || r == x
    ensures min <= max ==> min <= r <= max
    ensures min <= x <= max ==> r == x
    ensures x < min ==> r == min
  {
    if x < min then min else if x > max then max else x
  }

  /** Clamping into ordered limits twice is clamping once. */
  lemma ClampIdempotent(x: real, min: real, max: real)
    requires min <= max
    ensures Clamp(Clamp(x, min, max), min, max) == Clamp(x, min, max)
  {
  }

  /** Clamping into ordered limits keeps the order of two values. */
  lemma ClampMonotone(x: real, y: real, min: real, max: real)
    requires min <= max && x <= y
    ensures Clamp(x, min, max) <= Clamp(y, min, max)
  {
  }

  /**
   * The setters do not check that the minimum is at most the maximum. With
   * inverted limits every value ends up outside them: the minimum for a
   * value below it, the maximum for every other.
   */
  lemma InvertedLimits(x: real, min: real, max: real)
    requires max < min
    ensures Clamp(x, min, max) == (if x < min then min else max)
    ensures Clamp(x, min, max) < min || Clamp(x, min, max) > max
  {
  }

  /** A latitude and a longitude clamped, each on its own, into a sector. */
  function ClampToSector(latitude: real, longitude: real, limits: Sector): (r: LatLon)
    ensures r.latitude == Clamp(latitude, limits.minLatitude, limits.maxLatitude)
    ensures r.longitude == Clamp(longitude, limits.minLongitude, limits.maxLongitude)
  {
    LatLon(Clamp(latitude, limits.minLatitude, limits.maxLatitude),
           Clamp(longitude, limits.minLongitude, limits.maxLongitude))
  }

  /** Whether a sector's bounds are ordered. */
  predicate OrderedSector(s: Sector) {
    s.minLatitude <= s.maxLatitude && s.minLongitude <= s.maxLongitude
  }

  /** Whether a location lies in a sector, bounds included. */
  predicate InSector(l: LatLon, s: Sector) {
    s.minLatitude <= l.latitude <= s.maxLatitude && s.minLongitude <= l.longitude <= s.maxLongitude
  }

  /** Clamping into an ordered sector lands in it, keeps a location already in it, and is idempotent. */
  lemma ClampToSectorProperties(latitude: real, longitude: real, limits: Sector)
    requires OrderedSector(limits)
    ensures InSector(ClampToSector(latitude, longitude, limits), limits)
    ensures InSector(LatLon(latitude, longitude), limits) ==> ClampToSector(latitude, longitude, limits) == LatLon(latitude, longitude)
    ensures var l := ClampToSector(latitude, longitude, limits);
            ClampToSector(l.latitude, l.longitude, limits) == l
  {
    ClampIdempotent(latitude, limits.minLatitude, limits.maxLatitude);
    ClampIdempotent(longitude, limits.minLongitude, limits.maxLongitude);
  }

  /** The limits a BasicViewPropertyLimits holds, as one value. */
  datatype PropertyLimits = PropertyLimits(
    eyeLocationLimits: Sector,
    minHeading: real, maxHeading: real,
    minPitch: real, maxPitch: real,
    minRoll: real, maxRoll: real,
    minEyeElevation: real, maxEyeElevation: real)

  /** The limits a new BasicViewPropertyLimits starts with. */
  const PropertyDefaults: PropertyLimits :=
    PropertyLimits(FullSphere, -180.0, 180.0, 0.0, 90.0, -180.0, 180.0, -DoubleMax, DoubleMax)

  class BasicViewPropertyLimits {
    var eyeLocationLimits: Sector
    var minHeading: real
    var maxHeading: real
    var minPitch: real
    var maxPitch: real
    var minRoll: real
    var maxRoll: real
    var minEyeElevation: real
    var maxEyeElevation: real

    /** The current limits. */
    function State(): PropertyLimits
      reads this
    {
      PropertyLimits(eyeLocationLimits, minHeading, maxHeading, minPitch, maxPitch,
                     minRoll, maxRoll, minEyeElevation, maxEyeElevation)
    }

    /** The whole sphere, any elevation, heading and roll in [-180, 180], pitch in [0, 90]. */
    constructor ()
      ensures State() == PropertyDefaults
    {
      eyeLocationLimits := FullSphere;
      minEyeElevation, maxEyeElevation := -DoubleMax, DoubleMax;
      minHeading, maxHeading := -180.0, 180.0;
      minPitch, maxPitch := 0.0, 90.0;
      minRoll, maxRoll := -180.0, 180.0;
    }

    /** Replaces the eye location limits; a null sector is rejected with no change. */
    method SetEyeLocationLimits(sector: Option<Sector>) returns (status: Status)
      modifies this
      ensures sector.None? ==> status == Threw(IllegalArgument) && State() == old(State())
      ensures sector.Some? ==> status == Completed && State() == old(State()).(eyeLocationLimits := sector.value)
    {
      if sector.None? {
        return Threw(IllegalArgument);
      }
      eyeLocationLimits := sector.value;
      return Completed;
    }

    /** Replaces the eye elevation limits, ordered or not. */
    method SetEyeElevationLimits(minValue: real, maxValue: real)
      modifies this
      ensures State() == old(State()).(minEyeElevation := minValue, maxEyeElevation := maxValue)
    {
      minEyeElevation, maxEyeElevation := minValue, maxValue;
    }

    /** Replaces the heading limits; a null bound is rejected with no change. */
    method SetHeadingLimits(minAngle: Option<real>, maxAngle: Option<real>) returns (status: Status)
      modifies this
      ensures minAngle.None? || maxAngle.None? ==> status == Threw(IllegalArgument) && State() == old(State())
      ensures minAngle.Some? && maxAngle.Some? ==>
                status == Completed && State() == old(State()).(minHeading := minAngle.value, maxHeading := maxAngle.value)
    {
      if minAngle.None? || maxAngle.None? {
        return Threw(IllegalArgument);
      }
      minHeading, maxHeading := minAngle.value, maxAngle.value;
      return Completed;
    }

    /** Replaces the pitch limits; a null bound is rejected with no change. */
    method SetPitchLimits(minAngle: Option<real>, maxAngle: Option<real>) returns (status: Status)
      modifies this
      ensures minAngle.None? || maxAngle.None? ==> status == Threw(IllegalArgument) && State() == old(State())
      ensures minAngle.Some? && maxAngle.Some? ==>
                status == Completed && State() == old(State()).(minPitch := minAngle.value, maxPitch := maxAngle.value)
    {
      if minAngle.None? || maxAngle.None? {
        return Threw(IllegalArgument);
      }
      minPitch, maxPitch := minAngle.value, maxAngle.value;
      return Completed;
    }

    /** Replaces the roll limits; a null bound is rejected with no change. */
    method SetRollLimits(minAngle: Option<real>, maxAngle: Option<real>) returns (status: Status)
      modifies this
      ensures minAngle.None? || maxAngle.None? ==> status == Threw(IllegalArgument) && State() == old(State())
      ensures minAngle.Some? && maxAngle.Some? ==>
                status == Completed && State() == old(State()).(minRoll := minAngle.value, maxRoll := maxAngle.value)
    {
      if minAngle.None? || maxAngle.None? {
        return Threw(IllegalArgument);
      }
      minRoll, maxRoll := minAngle.value, maxAngle.value;
      return Completed;
    }
  }

  /** limitHeading: a null angle or null limits are rejected; otherwise the angle clamped into the heading limits. */
  function LimitHeading(angle: Option<real>, viewLimits: BasicViewPropertyLimits?): (r: Outcome<real>)
    reads viewLimits
    ensures r.Throw? <==> angle.None? || viewLimits == null
    ensures r.Throw? ==> r.exception == IllegalArgument
    ensures r.Return? ==> r.value == Clamp(angle.value, viewLimits.minHeading, viewLimits.maxHeading)
    ensures r.Return? && viewLimits.minHeading <= viewLimits.maxHeading ==>
              viewLimits.minHeading <= r.value <= viewLimits.maxHeading
  {
    if angle.None? || viewLimits == null then Throw(IllegalArgument)
    else Return(Clamp(angle.value, viewLimits.minHeading, viewLimits.maxHeading))
  }

  /** limitPitch: as limitHeading, with the pitch limits. */
  function LimitPitch(angle: Option<real>, viewLimits: BasicViewPropertyLimits?): (r: Outcome<real>)
    reads viewLimits
    ensures r.Throw? <==> angle.None? || viewLimits == null
    ensures r.Throw? ==> r.exception == IllegalArgument
    ensures r.Return? ==> r.value == Clamp(angle.value, viewLimits.minPitch, viewLimits.maxPitch)
    ensures r.Return? && viewLimits.minPitch <= viewLimits.maxPitch ==>
              viewLimits.minPitch <= r.value <= viewLimits.maxPitch
  {
    if angle.None? || viewLimits == null then Throw(IllegalArgument)
    else Return(Clamp(angle.value, viewLimits.minPitch, viewLimits.maxPitch))
  }

  /** limitRoll: as limitHeading, with the roll limits. */
  function LimitRoll(angle: Option<real>, viewLimits: BasicViewPropertyLimits?): (r: Outcome<real>)
    reads viewLimits
    ensures r.Throw? <==> angle.None? || viewLimits == null
    ensures r.Throw? ==> r.exception == IllegalArgument
    ensures r.Return? ==> r.value == Clamp(angle.value, viewLimits.minRoll, viewLimits.maxRoll)
    ensures r.Return? && viewLimits.minRoll <= viewLimits.maxRoll ==>
              viewLimits.minRoll <= r.value <= viewLimits.maxRoll
  {
    if angle.None? || viewLimits == null then Throw(IllegalArgument)
    else Return(Clamp(angle.value, viewLimits.minRoll, viewLimits.maxRoll))
  }

  /** limitEyeElevation: null limits are rejected; otherwise the elevation clamped into the eye elevation limits. */
  function LimitEyeElevation(elevation: real, viewLimits: BasicViewPropertyLimits?): (r: Outcome<real>)
    reads viewLimits
    ensures r.Throw? <==> viewLimits == null
    ensures r.Throw? ==> r.exception == IllegalArgument
    ensures r.Return? ==> r.value == Clamp(elevation, viewLimits.minEyeElevation, viewLimits.maxEyeElevation)
    ensures r.Return? && viewLimits.minEyeElevation <= viewLimits.maxEyeElevation ==>
              viewLimits.minEyeElevation <= r.value <= viewLimits.maxEyeElevation
  {
    if viewLimits == null then Throw(IllegalArgument)
    else Return(Clamp(elevation, viewLimits.minEyeElevation, viewLimits.maxEyeElevation))
  }

  /**
   * limitEyePositionLocation: a null latitude or longitude, or null limits,
   * are rejected; otherwise each coordinate is clamped on its own into the
   * eye location sector.
   */
  function LimitEyePositionLocation(latitude: Option<real>, longitude: Option<real>, viewLimits: BasicViewPropertyLimits?)
    : (r: Outcome<LatLon>)
    reads viewLimits
    ensures r.Throw? <==> latitude.None? || longitude.None? || viewLimits == null
    ensures r.Throw? ==> r.exception == IllegalArgument
    ensures r.Return? ==> r.value == ClampToSector(latitude.value, longitude.value, viewLimits.eyeLocationLimits)
    ensures r.Return? && OrderedSector(viewLimits.eyeLocationLimits) ==> InSector(r.value, viewLimits.eyeLocationLimits)
  {
    if latitude.None? || longitude.None? || viewLimits == null then Throw(IllegalArgument)
    else Return(ClampToSector(latitude.value, longitude.value, viewLimits.eyeLocationLimits))
  }

  /** The limits a BasicOrbitViewLimits adds to those it inherits, as one value. */
  datatype OrbitLimits = OrbitLimits(
    centerLocationLimits: Sector,
    minCenterElevation: real, maxCenterElevation: real,
    minZoom: real, maxZoom: real)

  /** The added limits a new BasicOrbitViewLimits starts with. */
  const OrbitDefaults: OrbitLimits := OrbitLimits(FullSphere, -DoubleMax, DoubleMax, 0.0, DoubleMax)

  /**
   * A BasicOrbitViewLimits: the limits it inherits from
   * BasicViewPropertyLimits are held by base, which the inherited setters and
   * limit functions act on, and the centre and zoom limits are its own.
   */
  class BasicOrbitViewLimits {
    const base: BasicViewPropertyLimits
    var centerLocationLimits: Sector
    var minCenterElevation: real
    var maxCenterElevation: real
    var minZoom: real
    var maxZoom: real

    /** The current centre and zoom limits. */
    function State(): OrbitLimits
      reads this
    {
      OrbitLimits(centerLocationLimits, minCenterElevation, maxCenterElevation, minZoom, maxZoom)
    }

    /**
     * The inherited limits start as in BasicViewPropertyLimits (the heading
     * and pitch the constructor sets again are the same values); the centre
     * may be anywhere at any elevation and the zoom is in [0, Double.MAX_VALUE].
     */
    constructor ()
      ensures fresh(base) && base.State() == PropertyDefaults && State() == OrbitDefaults
    {
      base := new BasicViewPropertyLimits();
      centerLocationLimits := FullSphere;
      minCenterElevation, maxCenterElevation := -DoubleMax, DoubleMax;
      minZoom, maxZoom := 0.0, DoubleMax;
      new;
      var _ := base.SetHeadingLimits(Some(-180.0), Some(180.0));
      var _ := base.SetPitchLimits(Some(0.0), Some(90.0));
    }

    /** Replaces the centre location limits; a null sector is rejected with no change. */
    method SetCenterLocationLimits(sector: Option<Sector>) returns (status: Status)
      modifies this
      ensures sector.None? ==> status == Threw(IllegalArgument) && State() == old(State())
      ensures sector.Some? ==> status == Completed && State() == old(State()).(centerLocationLimits := sector.value)
    {
      if sector.None? {
        return Threw(IllegalArgument);
      }
      centerLocationLimits := sector.value;
      return Completed;
    }

    /** Replaces the centre elevation limits, ordered or not. */
    method SetCenterElevationLimits(minValue: real, maxValue: real)
      modifies this
      ensures State() == old(State()).(minCenterElevation := minValue, maxCenterElevation := maxValue)
    {
      minCenterElevation, maxCenterElevation := minValue, maxValue;
    }

    /** Replaces the zoom limits, ordered or not. */
    method SetZoomLimits(minValue: real, maxValue: real)
      modifies this
      ensures State() == old(State()).(minZoom := minValue, maxZoom := maxValue)
    {
      minZoom, maxZoom := minValue, maxValue;
    }
  }

  /** limitCenterLocation: as limitEyePositionLocation, with the centre location sector. */
  function LimitCenterLocation(latitude: Option<real>, longitude: Option<real>, viewLimits: BasicOrbitViewLimits?)
    : (r: Outcome<LatLon>)
    reads viewLimits
    ensures r.Throw? <==> latitude.None? || longitude.None? || viewLimits == null
    ensures r.Throw? ==> r.exception == IllegalArgument
    ensures r.Return? ==> r.value == ClampToSector(latitude.value, longitude.value, viewLimits.centerLocationLimits)
    ensures r.Return? && OrderedSector(viewLimits.centerLocationLimits) ==> InSector(r.value, viewLimits.centerLocationLimits)
  {
    if latitude.None? || longitude.None? || viewLimits == null then Throw(IllegalArgument)
    else Return(ClampToSector(latitude.value, longitude.value, viewLimits.centerLocationLimits))
  }

  /** limitCenterElevation: null limits are rejected; otherwise the value clamped into the centre elevation limits. */
  function LimitCenterElevation(value: real, viewLimits: BasicOrbitViewLimits?): (r: Outcome<real>)
    reads viewLimits
    ensures r.Throw? <==> viewLimits == null
    ensures r.Throw? ==> r.exception == IllegalArgument
    ensures r.Return? ==> r.value == Clamp(value, viewLimits.minCenterElevation, viewLimits.maxCenterElevation)
    ensures r.Return? && viewLimits.minCenterElevation <= viewLimits.maxCenterElevation ==>
              viewLimits.minCenterElevation <= r.value <= viewLimits.maxCenterElevation
  {
    if viewLimits == null then Throw(IllegalArgument)
    else Return(Clamp(value, viewLimits.minCenterElevation, viewLimits.maxCenterElevation))
  }

  /** limitZoom: null limits are rejected; otherwise the value clamped into the zoom limits. */
  function LimitZoom(value: real, viewLimits: BasicOrbitViewLimits?): (r: Outcome<real>)
    reads viewLimits
    ensures r.Throw? <==> viewLimits == null
    ensures r.Throw? ==> r.exception == IllegalArgument
    ensures r.Return? ==> r.value == Clamp(value, viewLimits.minZoom, viewLimits.maxZoom)
    ensures r.Return? && viewLimits.minZoom <= viewLimits.maxZoom ==> viewLimits.minZoom <= r.value <= viewLimits.maxZoom
  {
    if viewLimits == null then Throw(IllegalArgument)
    else Return(Clamp(value, viewLimits.minZoom, viewLimits.maxZoom))
  }

  /**
   * limitLookAtPosition: a null position or null limits are rejected;
   * otherwise the position's location limited by limitCenterLocation and its
   * elevation by limitCenterElevation.
   */
  function LimitLookAtPosition(position: Option<Position>, viewLimits: BasicOrbitViewLimits?): (r: Outcome<Position>)
    reads viewLimits
    ensures r.Throw? <==> position.None? || viewLimits == null
    ensures r.Throw? ==> r.exception == IllegalArgument
    ensures r.Return? ==>
              var p := position.value;
              var l := LimitCenterLocation(Some(p.latitude), Some(p.longitude), viewLimits);
              var e := LimitCenterElevation(p.elevation, viewLimits);
              l.Return? && e.Return? &&
              r.value == Position(l.value.latitude, l.value.longitude, e.value)
  {
    if position.None? || viewLimits == null then Throw(IllegalArgument)
    else
      var p := position.value;
      var l := LimitCenterLocation(Some(p.latitude), Some(p.longitude), viewLimits).value;
      Return(Position(l.latitude, l.longitude, LimitCenterElevation(p.elevation, viewLimits).value))
  }

  /** Whether an orbit view's centre limits are ordered. */
  predicate OrderedCenter(viewLimits: BasicOrbitViewLimits)
    reads viewLimits
  {
    OrderedSector(viewLimits.centerLocationLimits) && viewLimits.minCenterElevation <= viewLimits.maxCenterElevation
  }

  /**
   * With ordered centre limits, a limited look-at position lies within them,
   * a position already within them is kept, and limiting twice is limiting
   * once.
   */
  lemma LookAtPositionLimited(p: Position, viewLimits: BasicOrbitViewLimits)
    requires OrderedCenter(viewLimits)
    ensures var q := LimitLookAtPosition(Some(p), viewLimits).value;
            InSector(LatLon(q.latitude, q.longitude), viewLimits.centerLocationLimits) &&
            viewLimits.minCenterElevation <= q.elevation <= viewLimits.maxCenterElevation
    ensures InSector(LatLon(p.latitude, p.longitude), viewLimits.centerLocationLimits) &&
            viewLimits.minCenterElevation <= p.elevation <= viewLimits.maxCenterElevation ==>
              LimitLookAtPosition(Some(p), viewLimits) == Return(p)
    ensures var q := LimitLookAtPosition(Some(p), viewLimits).value;
            LimitLookAtPosition(Some(q), viewLimits) == Return(q)
  {
    var s := viewLimits.centerLocationLimits;
    ClampToSectorProperties(p.latitude, p.longitude, s);
    var q := LimitLookAtPosition(Some(p), viewLimits).value;
    ClampToSectorProperties(q.latitude, q.longitude, s);
    ClampIdempotent(p.elevation, viewLimits.minCenterElevation, viewLimits.maxCenterElevation);
  }
}
