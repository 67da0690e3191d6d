/**
 * gov.nasa.worldwind.kml.impl.KMLUtil: translating KML unit and altitude-mode
 * strings to World Wind's constants and back, turning a lat/lon box into a
 * sector, and collecting the positions of a geometry with their altitudes.
 */
module KmlUtil {
  import opened JavaLang
  import opened Geo

  /** The KML unit strings. */
  const KmlPixels: string := "pixels"
  const KmlFraction: string := "fraction"
  const KmlInsetPixels: string := "insetPixels"

  /** The World Wind unit constants AVKey.PIXELS, AVKey.FRACTION and AVKey.INSET_PIXELS. */
  datatype Units = Pixels | Fraction | InsetPixels

  /** The World Wind altitude modes AVKey.CLAMP_TO_GROUND, AVKey.RELATIVE_TO_GROUND and AVKey.ABSOLUTE. */
  datatype AltitudeMode = ClampToGround | RelativeToGround | Absolute

  /** The styleState value that marks a highlight sub-style. */
  const Highlight: string := "highlight"

  /** A KML sub-style, seen only through its styleState field. */
  datatype SubStyle = SubStyle(styleState: Option<string>)

  /** Whether a sub-style, possibly null, has the highlight style state. */
  function IsHighlightStyleState(subStyle: Option<SubStyle>): (r: bool)
    ensures r <==> subStyle.Some? && subStyle.value.styleState == Some(Highlight)
  {
    subStyle.Some? && subStyle.value.styleState.Some? && subStyle.value.styleState.value == Highlight
  }

  /** The World Wind altitude mode of a KML altitude mode string; relative to ground for anything else, null included. */
  function ConvertAltitudeMode(altMode: Option<string>): (r: AltitudeMode)
    ensures altMode == Some("clampToGround") <==> r == ClampToGround
    ensures altMode == Some("absolute") <==> r == Absolute
    ensures altMode != Some("clampToGround") && altMode != Some("absolute") <==> r == RelativeToGround
  {
    if altMode == Some("clampToGround") then ClampToGround
    else if altMode == Some("relativeToGround") then RelativeToGround
    else if altMode == Some("absolute") then Absolute
    else RelativeToGround
  }

  /** kmlUnitsToWWUnits: the World Wind units of a KML units string, or null when it is not one. */
  function KmlUnitsToWWUnits(units: Option<string>): (r: Option<Units>)
    ensures r == Some(Pixels) <==> units == Some(KmlPixels)
    ensures r == Some(Fraction) <==> units == Some(KmlFraction)
    ensures r == Some(InsetPixels) <==> units == Some(KmlInsetPixels)
  {
    if units == Some(KmlPixels) then Some(Pixels)
    else if units == Some(KmlFraction) then Some(Fraction)
    else if units == Some(KmlInsetPixels) then Some(InsetPixels)
    else None
  }

  /**
   * A String passed as World Wind units: one of the three AVKey unit
   * constants, or any other string.
   */
  datatype UnitsString = UnitsKey(units: Units) | OtherString(text: string)

  /** The argument string of World Wind units, or of null. */
  function KeyOf(units: Option<Units>): (r: Option<UnitsString>)
    ensures r.None? <==> units.None?
    ensures units.Some? ==> r == Some(UnitsKey(units.value))
  {
    if units.None? then None else Some(UnitsKey(units.value))
  }

  /** wwUnitsToKMLUnits: the KML units string of World Wind units, or null for null and any other string. */
  function WWUnitsToKmlUnits(units: Option<UnitsString>): (r: Option<string>)
    ensures r == Some(KmlPixels) <==> units == Some(UnitsKey(Pixels))
    ensures r == Some(KmlFraction) <==> units == Some(UnitsKey(Fraction))
    ensures r == Some(KmlInsetPixels) <==> units == Some(UnitsKey(InsetPixels))
    ensures r.None? <==> units.None? || units.value.OtherString?
  {
    match units
    case Some(UnitsKey(Pixels)) => Some(KmlPixels)
    case Some(UnitsKey(Fraction)) => Some(KmlFraction)
    case Some(UnitsKey(InsetPixels)) => Some(KmlInsetPixels)
    case _ => None
  }

  /** Translating a KML unit string to World Wind units and back gives it back; anything else comes back null. */
  lemma KmlUnitsRoundTrip(units: Option<string>)
    ensures units in {Some(KmlPixels), Some(KmlFraction), Some(KmlInsetPixels)} ==>
              WWUnitsToKmlUnits(KeyOf(KmlUnitsToWWUnits(units))) == units
    ensures units !in {Some(KmlPixels), Some(KmlFraction), Some(KmlInsetPixels)} ==>
              WWUnitsToKmlUnits(KeyOf(KmlUnitsToWWUnits(units))).None?
  {
  }

  /** Translating World Wind units to KML and back gives them back; any other string comes back null. */
  lemma WWUnitsRoundTrip(units: Option<UnitsString>)
    ensures units.Some? && units.value.UnitsKey? ==> KmlUnitsToWWUnits(WWUnitsToKmlUnits(units)) == Some(units.value.units)
    ensures units.None? || units.value.OtherString? ==> KmlUnitsToWWUnits(WWUnitsToKmlUnits(units)).None?
  {
  }

  /** The north, south, east and west coordinates of a KML lat/lon box, each possibly unspecified. */
  datatype LatLonBox = LatLonBox(north: Option<real>, south: Option<real>, east: Option<real>, west: Option<real>)

  function Min(a: real, b: real): real {
    if a <= b then a else b
  }

  function Max(a: real, b: real): real {
    if a >= b then a else b
  }

  /**
   * createSectorFromLatLonBox: the sector spanning the box's latitudes and
   * longitudes, null when a coordinate is unspecified; a null box is
   * rejected.
   */
  function CreateSectorFromLatLonBox(box: Option<LatLonBox>): (r: Outcome<Option<Sector>>)
    ensures box.None? <==> r.Throw?
    ensures r.Throw? ==> r.exception == IllegalArgument
    ensures r.Return? && r.value.None? <==>
              box.Some? && (box.value.north.None? || box.value.south.None? || box.value.east.None? || box.value.west.None?)
    ensures r.Return? && r.value.Some? ==>
              var s, b := r.value.value, box.value;
              s.minLatitude <= s.maxLatitude && s.minLongitude <= s.maxLongitude
              && {s.minLatitude, s.maxLatitude} == {b.north.value, b.south.value}
              && {s.minLongitude, s.maxLongitude} == {b.east.value, b.west.value}
  {
    if box.None? then Throw(IllegalArgument)
    else
      var b := box.value;
      if b.north.None? || b.south.None? || b.east.None? || b.west.None? then Return(None)
      else
        var north, south, east, west := b.north.value, b.south.value, b.east.value, b.west.value;
        Return(Some(Sector(Min(north, south), Max(north, south), Min(east, west), Max(east, west))))
  }

  /**
   * computeAltitude for one position: the same latitude and longitude, at
   * the ground elevation there (clampToGround), that plus the position's own
   * elevation (relativeToGround, and any unknown mode), or the position's own
   * elevation (absolute). The globe is given by its elevation function.
   */
  function ComputeAltitude(elevation: (real, real) -> real, position: Position, altitudeMode: Option<string>): (r: Position)
    ensures r.latitude == position.latitude && r.longitude == position.longitude
    ensures altitudeMode == Some("clampToGround") ==> r.elevation == elevation(position.latitude, position.longitude)
    ensures altitudeMode == Some("absolute") ==> r.elevation == position.elevation
    ensures altitudeMode != Some("clampToGround") && altitudeMode != Some("absolute") ==>
              r.elevation == elevation(position.latitude, position.longitude) + position.elevation
  {
    var ground := elevation(position.latitude, position.longitude);
    var height :=
      match ConvertAltitudeMode(altitudeMode)
      case ClampToGround => ground
      case RelativeToGround => ground + position.elevation
      case Absolute => position.elevation;
    Position(position.latitude, position.longitude, height)
  }

  /** computeAltitude for a list: a new list holding each position with its altitude, in order. */
  method ComputeAltitudes(elevation: (real, real) -> real, positions: seq<Position>, altitudeMode: Option<string>)
    returns (out: seq<Position>)
    ensures |out| == |positions|
    ensures forall i :: 0 <= i < |positions| ==> out[i] == ComputeAltitude(elevation, positions[i], altitudeMode)
  {
    out := [];
    var i := 0;
    while i < |positions|
      invariant 0 <= i <= |positions|
      invariant |out| == i
      invariant forall j :: 0 <= j < i ==> out[j] == ComputeAltitude(elevation, positions[j], altitudeMode)
    {
      out := out + [ComputeAltitude(elevation, positions[i], altitudeMode)];
      i := i + 1;
    }
  }

  /** The positions with their altitudes, in order, as a function. */
  function Altitudes(elevation: (real, real) -> real, positions: seq<Position>, altitudeMode: Option<string>): (r: seq<Position>)
    decreases |positions|
  {
    if |positions| == 0 then []
    else Altitudes(elevation, positions[..|positions| - 1], altitudeMode)
         + [ComputeAltitude(elevation, positions[|positions| - 1], altitudeMode)]
  }

  /** Altitudes holds each position's counterpart, in order. */
  lemma {:induction false} AltitudesAt(elevation: (real, real) -> real, positions: seq<Position>, altitudeMode: Option<string>)
    ensures |Altitudes(elevation, positions, altitudeMode)| == |positions|
    ensures forall i :: 0 <= i < |positions| ==>
              Altitudes(elevation, positions, altitudeMode)[i] == ComputeAltitude(elevation, positions[i], altitudeMode)
    decreases |positions|
  {
    if |positions| > 0 {
      AltitudesAt(elevation, positions[..|positions| - 1], altitudeMode);
    }
  }

  /**
   * A KML geometry: a point, a model at a location, a line string (a linear
   * ring is one), a polygon with its outer boundary, a multi-geometry with
   * its children, or any other geometry; a null geometry behaves as any
   * other geometry does. Each coordinate, location or boundary may be
   * missing.
   */
  datatype Geometry =
    | PointGeometry(coordinates: Option<Position>, altitudeMode: Option<string>)
    | ModelGeometry(location: Option<Option<Position>>, altitudeMode: Option<string>)
    | LineString(positionList: Option<seq<Position>>, altitudeMode: Option<string>)
    | Polygon(outerBoundary: Option<Geometry>)
    | MultiGeometry(geometries: seq<Geometry>)
    | OtherGeometry

  /** The positions getPositions adds for a geometry, in the order it adds them. */
  function PositionsOf(elevation: (real, real) -> real, geometry: Geometry): seq<Position>
    decreases geometry, 1
  {
    match geometry
    case PointGeometry(pos, mode) =>
      if pos.Some? then [ComputeAltitude(elevation, pos.value, mode)] else []
    case ModelGeometry(location, mode) =>
      if location.Some? && location.value.Some? then [ComputeAltitude(elevation, location.value.value, mode)] else []
    case LineString(list, mode) =>
      if list.Some? then Altitudes(elevation, list.value, mode) else []
    case Polygon(ring) => if ring.Some? then PositionsOf(elevation, ring.value) else []
    case MultiGeometry(geoms) => ChildPositions(elevation, geometry, |geoms|)
    case OtherGeometry => []
  }

  /** The positions of the first n children of a multi-geometry, in order. */
  function ChildPositions(elevation: (real, real) -> real, parent: Geometry, n: nat): seq<Position>
    requires parent.MultiGeometry? && n <= |parent.geometries|
    decreases parent, 0, n
  {
    if n == 0 then []
    else ChildPositions(elevation, parent, n - 1) + PositionsOf(elevation, parent.geometries[n - 1])
  }

  /** A list of positions changed in place, as the caller's List<Position>. */
  class PositionList {
    var items: seq<Position>

    constructor ()
      ensures items == []
    {
      items := [];
    }

    method Add(p: Position)
      modifies this
      ensures items == old(items) + [p]
    {
      items := items + [p];
    }

    method AddAll(ps: seq<Position>)
      modifies this
      ensures items == old(items) + ps
    {
      items := items + ps;
    }
  }

  /** getPositions: appends the positions of a geometry, with their altitudes, to positions. */
  method GetPositions(elevation: (real, real) -> real, geometry: Geometry, positions: PositionList)
    modifies positions
    ensures positions.items == old(positions.items) + PositionsOf(elevation, geometry)
    decreases geometry
  {
    var g := geometry;
    if g.PointGeometry? {
      if g.coordinates.Some? {
        positions.Add(ComputeAltitude(elevation, g.coordinates.value, g.altitudeMode));
      }
    } else if g.ModelGeometry? {
      if g.location.Some? {
        if g.location.value.Some? {
          positions.Add(ComputeAltitude(elevation, g.location.value.value, g.altitudeMode));
        }
      }
    } else if g.LineString? {
      if g.positionList.Some? {
        var out := ComputeAltitudes(elevation, g.positionList.value, g.altitudeMode);
        AltitudesAt(elevation, g.positionList.value, g.altitudeMode);
        assert out == Altitudes(elevation, g.positionList.value, g.altitudeMode);
        positions.AddAll(out);
      }
    } else if g.Polygon? {
      if g.outerBoundary.Some? {
        GetPositions(elevation, g.outerBoundary.value, positions);
      }
    } else if g.MultiGeometry? {
      var geoms := g.geometries;
      var i := 0;
      while i < |geoms|
        invariant 0 <= i <= |geoms|
        invariant positions.items == old(positions.items) + ChildPositions(elevation, geometry, i)
      {
        GetPositions(elevation, geoms[i], positions);
        i := i + 1;
      }
    }
  }

  /** The positions of a multi-geometry are its children's, one child after another. */
  lemma {:induction false} MultiGeometryPositions(elevation: (real, real) -> real, a: seq<Geometry>, b: seq<Geometry>)
    ensures PositionsOf(elevation, MultiGeometry(a + b))
            == PositionsOf(elevation, MultiGeometry(a)) + PositionsOf(elevation, MultiGeometry(b))
    decreases |b|
  {
    if |b| > 0 {
      var b' := b[..|b| - 1];
      MultiGeometryPositions(elevation, a, b');
      ChildPrefix(elevation, a + b', a + b);
      ChildPrefix(elevation, b', b);
      assert (a + b)[|a + b| - 1] == b[|b| - 1];
    } else {
      assert a + b == a;
    }
  }

  /** The children of a multi-geometry that start another's contribute the same positions. */
  lemma ChildPrefix(elevation: (real, real) -> real, a: seq<Geometry>, c: seq<Geometry>)
    requires |a| < |c| && c[..|a|] == a
    ensures ChildPositions(elevation, MultiGeometry(c), |a|) == PositionsOf(elevation, MultiGeometry(a))
  {
    ChildPrefixUpTo(elevation, a, c, |a|);
  }

  lemma {:induction false} ChildPrefixUpTo(elevation: (real, real) -> real, a: seq<Geometry>, c: seq<Geometry>, n: nat)
    requires n <= |a| < |c| && c[..|a|] == a
    ensures ChildPositions(elevation, MultiGeometry(c), n) == ChildPositions(elevation, MultiGeometry(a), n)
    decreases n
  {
    if n > 0 {
      ChildPrefixUpTo(elevation, a, c, n - 1);
      assert c[n - 1] == a[n - 1];
    }
  }
}
