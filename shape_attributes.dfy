/**
 * gov.nasa.worldwind.render.BasicShapeAttributes, the attribute bundle a
 * shape is drawn with, and the parts of AbstractShape that choose and keep
 * a shape's attributes: the active bundle chosen each frame, the altitude
 * mode and outline pick width setters, and the triangle vertex count.
 */
module Shapes {
  import opened JavaLang
  import opened JavaInt
  import opened Colors
  import opened Geo

  /** The values a bundle holds, with its two colours as components. */
  datatype Attributes = Attributes(
    unresolved: bool,
    enableLighting: bool,
    enableInterior: bool,
    interiorColor: Rgba,
    enableOutline: bool,
    outlineColor: Rgba,
    outlineWidth: real)

  /** A new bundle: lighting off, a white interior and a black outline drawn, outline width 1. */
  const NewAttributes: Attributes := Attributes(false, false, true, White, true, Black, 1.0)

  /** Whether writing into a's colours leaves b's colours alone: they are the same bundle or own different colours. */
  predicate SeparateColors(a: BasicShapeAttributes, b: BasicShapeAttributes?) {
    b == null || a == b || {a.interiorColor, a.outlineColor} !! {b.interiorColor, b.outlineColor}
  }

  class BasicShapeAttributes {
    var unresolved: bool
    var enableLighting: bool
    var enableInterior: bool
    /** The bundle's own interior colour, which the setters copy into. */
    const interiorColor: Color
    var enableOutline: bool
    /** The bundle's own outline colour, which the setters copy into. */
    const outlineColor: Color
    var outlineWidth: real

    /** The two colours are different objects. */
    predicate Valid() {
      interiorColor != outlineColor
    }

    /** The bundle's current values. */
    function Value(): Attributes
      reads this, interiorColor, outlineColor
    {
      Attributes(unresolved, enableLighting, enableInterior, interiorColor.Components(),
                 enableOutline, outlineColor.Components(), outlineWidth)
    }

    /** The default bundle, with colours of its own. */
    constructor ()
      ensures Valid() && fresh(interiorColor) && fresh(outlineColor)
      ensures Value() == NewAttributes
    {
      unresolved, enableLighting, enableInterior := false, false, true;
      interiorColor := new Color.FromRgba(White);
      enableOutline := true;
      outlineColor := new Color.FromRgba(Black);
      outlineWidth := 1.0;
    }

    /**
     * The copy constructor for a non-null bundle: every value but unresolved
     * is copied, the colours into new Color objects; unresolved starts false.
     */
    constructor FromAttributes(attributes: BasicShapeAttributes)
      ensures Valid() && fresh(interiorColor) && fresh(outlineColor)
      ensures Value() == attributes.Value().(unresolved := false)
    {
      unresolved := false;
      enableLighting := attributes.enableLighting;
      enableInterior := attributes.enableInterior;
      interiorColor := new Color.FromRgba(attributes.interiorColor.Components());
      enableOutline := attributes.enableOutline;
      outlineColor := new Color.FromRgba(attributes.outlineColor.Components());
      outlineWidth := attributes.outlineWidth;
    }

    /** new BasicShapeAttributes(attributes): a null bundle is rejected. */
    static method Copy(attributes: BasicShapeAttributes?) returns (r: Outcome<BasicShapeAttributes>)
      ensures attributes == null ==> r.Throw? && r.exception == IllegalArgument
      ensures attributes != null ==> r.Return? && fresh(r.value) && fresh(r.value.interiorColor) && fresh(r.value.outlineColor)
      ensures attributes != null ==> r.value.Valid() && r.value.Value() == attributes.Value().(unresolved := false)
    {
      if attributes == null {
        return Throw(IllegalArgument);
      }
      var c := new BasicShapeAttributes.FromAttributes(attributes);
      return Return(c);
    }

    /**
     * set: copies every value but unresolved from another bundle, the colours
     * component by component into this bundle's own; null is rejected with
     * no change.
     */
    method Set(attributes: BasicShapeAttributes?) returns (status: Status)
      requires Valid() && SeparateColors(this, attributes)
      modifies this, interiorColor, outlineColor
      ensures attributes == null ==> status == Threw(IllegalArgument) && Value() == old(Value())
      ensures attributes != null ==> status == Completed && Value() == old(attributes.Value()).(unresolved := old(unresolved))
    {
      if attributes == null {
        return Threw(IllegalArgument);
      }
      enableLighting := attributes.enableLighting;
      enableInterior := attributes.enableInterior;
      var _ := interiorColor.Set(attributes.interiorColor);
      enableOutline := attributes.enableOutline;
      var _ := outlineColor.Set(attributes.outlineColor);
      outlineWidth := attributes.outlineWidth;
      return Completed;
    }

    /**
     * setInteriorColor: copies the colour's components into the bundle's own
     * interior colour, so later changes to the argument do not reach the
     * bundle; null is rejected with no change.
     */
    method SetInteriorColor(color: Color?) returns (status: Status)
      requires Valid()
      modifies interiorColor
      ensures color == null ==> status == Threw(IllegalArgument) && Value() == old(Value())
      ensures color != null ==> status == Completed && Value() == old(Value()).(interiorColor := old(color.Components()))
    {
      if color == null {
        return Threw(IllegalArgument);
      }
      status := interiorColor.Set(color);
    }

    /** setOutlineColor: as setInteriorColor, into the outline colour. */
    method SetOutlineColor(color: Color?) returns (status: Status)
      requires Valid()
      modifies outlineColor
      ensures color == null ==> status == Threw(IllegalArgument) && Value() == old(Value())
      ensures color != null ==> status == Completed && Value() == old(Value()).(outlineColor := old(color.Components()))
    {
      if color == null {
        return Threw(IllegalArgument);
      }
      status := outlineColor.Set(color);
    }

    /** setOutlineWidth: a width that is not positive is rejected with no change. */
    method SetOutlineWidth(width: real) returns (status: Status)
      modifies this
      ensures width <= 0.0 ==> status == Threw(IllegalArgument) && Value() == old(Value())
      ensures width > 0.0 ==> status == Completed && Value() == old(Value()).(outlineWidth := width)
    {
      if width <= 0.0 {
        return Threw(IllegalArgument);
      }
      outlineWidth := width;
      return Completed;
    }
  }

  /** What AbstractShape's static initialiser leaves in defaultAttributes: a new bundle with a light gray interior and a dark gray outline. */
  const ShapeDefaults: Attributes := NewAttributes.(interiorColor := LightGray, outlineColor := DarkGray)

  /** Builds AbstractShape.defaultAttributes. */
  method MakeDefaultAttributes() returns (d: BasicShapeAttributes)
    ensures fresh(d) && fresh(d.interiorColor) && fresh(d.outlineColor) && d.Valid()
    ensures d.Value() == ShapeDefaults
  {
    d := new BasicShapeAttributes();
    var lightGray := new Color.FromRgba(LightGray);
    var darkGray := new Color.FromRgba(DarkGray);
    var _ := d.SetInteriorColor(lightGray);
    var _ := d.SetOutlineColor(darkGray);
  }

  /** DEFAULT_OUTLINE_PICK_WIDTH. */
  const DefaultOutlinePickWidth: int := 10

  /** AVKey.ABSOLUTE; AVKey.java is not part of this model, so the key is a constant of its own. */
  const AvKeyAbsolute: string := "gov.nasa.worldwind.avkey.AbsoluteKey"

  /** GLES20.GL_TRIANGLES, GL_TRIANGLE_STRIP and GL_TRIANGLE_FAN. */
  const GlTriangles: int := 0x0004
  const GlTriangleStrip: int := 0x0005
  const GlTriangleFan: int := 0x0006

  /** The vertices one primitive of a given size and type contributes: its size for triangles, 3 per triangle of a fan or strip, none otherwise. */
  function PrimitiveVertices(size: nat, primType: int): int {
    if primType == GlTriangles then size
    else if primType == GlTriangleFan || primType == GlTriangleStrip then (size - 2) * 3
    else 0
  }

  /** The exact vertex count of the first n primitives. */
  function ExactVertices(prims: seq<seq<int>>, primTypes: seq<int>, n: nat): int
    requires n <= |prims| && n <= |primTypes|
  {
    if n == 0 then 0 else ExactVertices(prims, primTypes, n - 1) + PrimitiveVertices(|prims[n - 1]|, primTypes[n - 1])
  }

  /** The count countTriangleVertices holds after n primitives, each product and sum wrapping as int arithmetic does. */
  function WrappedVertices(prims: seq<seq<int>>, primTypes: seq<int>, n: nat): (r: int)
    requires n <= |prims| && n <= |primTypes|
    ensures IsInt(r)
  {
    if n == 0 then 0
    else Wrap(WrappedVertices(prims, primTypes, n - 1) + Wrap(PrimitiveVertices(|prims[n - 1]|, primTypes[n - 1])))
  }

  /** The int count is the exact count wrapped to an int: the two agree whenever the exact count fits. */
  lemma {:induction false} WrappedVerticesExact(prims: seq<seq<int>>, primTypes: seq<int>, n: nat)
    requires n <= |prims| && n <= |primTypes|
    ensures WrappedVertices(prims, primTypes, n) == Wrap(ExactVertices(prims, primTypes, n))
    ensures IsInt(ExactVertices(prims, primTypes, n)) ==> WrappedVertices(prims, primTypes, n) == ExactVertices(prims, primTypes, n)
    decreases n
  {
    if n > 0 {
      WrappedVerticesExact(prims, primTypes, n - 1);
      var a, e := WrappedVertices(prims, primTypes, n - 1), ExactVertices(prims, primTypes, n - 1);
      var v := PrimitiveVertices(|prims[n - 1]|, primTypes[n - 1]);
      WrapIsCongruent(e);
      WrapIsCongruent(v);
      AddCongruent(a, e, Wrap(v), v);
      WrapCongruent(a + Wrap(v), e + v);
    }
  }

  /** A list of triangles, and fans or strips of at least two vertices each, never has a negative exact count. */
  lemma {:induction false} ExactVerticesNonNegative(prims: seq<seq<int>>, primTypes: seq<int>, n: nat)
    requires n <= |prims| && n <= |primTypes|
    requires forall i :: 0 <= i < n ==> primTypes[i] == GlTriangles || |prims[i]| >= 2
    ensures ExactVertices(prims, primTypes, n) >= 0
    decreases n
  {
    if n > 0 {
      ExactVerticesNonNegative(prims, primTypes, n - 1);
    }
  }

  /** The state of an AbstractShape that the modelled methods read or write. */
  datatype ShapeState = ShapeState(
    normalAttrs: BasicShapeAttributes?,
    highlightAttrs: BasicShapeAttributes?,
    highlighted: bool,
    altitudeMode: Option<string>,
    outlinePickWidth: int,
    sector: Option<Sector>,
    shapeData: set<nat>)

  class AbstractShape {
    var normalAttrs: BasicShapeAttributes?
    var highlightAttrs: BasicShapeAttributes?
    /** The bundle re-determined each frame, owned by the shape. */
    const activeAttributes: BasicShapeAttributes
    var highlighted: bool
    var altitudeMode: Option<string>
    var outlinePickWidth: int
    /** The shape's bounding sector, computed on demand. */
    var sector: Option<Sector>
    /** The keys of the per-globe entries in the shape data cache. */
    var shapeData: set<nat>

    function State(): ShapeState
      reads this
    {
      ShapeState(normalAttrs, highlightAttrs, highlighted, altitudeMode, outlinePickWidth, sector, shapeData)
    }

    /** The field initialisers: no attributes, not highlighted, the default altitude mode, pick width 10. */
    constructor ()
      ensures fresh(activeAttributes) && fresh(activeAttributes.interiorColor) && fresh(activeAttributes.outlineColor)
      ensures activeAttributes.Valid() && activeAttributes.Value() == NewAttributes
      ensures State() == ShapeState(null, null, false, None, DefaultOutlinePickWidth, None, {})
    {
      normalAttrs, highlightAttrs := null, null;
      activeAttributes := new BasicShapeAttributes();
      highlighted := false;
      altitudeMode := None;
      outlinePickWidth := DefaultOutlinePickWidth;
      sector := None;
      shapeData := {};
    }

    /** reset: empties the shape data cache and forgets the sector. */
    method Reset()
      modifies this
      ensures State() == old(State()).(sector := None, shapeData := {})
    {
      shapeData := {};
      sector := None;
    }

    /** setAltitudeMode: an equal mode (null equal to null) changes nothing; any other is stored and the shape reset. */
    method SetAltitudeMode(altitudeMode: Option<string>)
      modifies this
      ensures old(this.altitudeMode) == altitudeMode ==> State() == old(State())
      ensures old(this.altitudeMode) != altitudeMode ==>
                State() == old(State()).(altitudeMode := altitudeMode, sector := None, shapeData := {})
    {
      if this.altitudeMode == altitudeMode {
        return;
      }
      this.altitudeMode := altitudeMode;
      Reset();
    }

    /** setOutlinePickWidth: a width below 1 is rejected with no change. */
    method SetOutlinePickWidth(outlinePickWidth: int) returns (status: Status)
      modifies this
      ensures outlinePickWidth < 1 ==> status == Threw(IllegalArgument) && State() == old(State())
      ensures outlinePickWidth >= 1 ==> status == Completed && State() == old(State()).(outlinePickWidth := outlinePickWidth)
    {
      if outlinePickWidth < 1 {
        return Threw(IllegalArgument);
      }
      this.outlinePickWidth := outlinePickWidth;
      return Completed;
    }

    /**
     * isTerrainDependent: a mode is set and it is not AVKey.ABSOLUTE. A null
     * mode stands for the default, ABSOLUTE, so it is not terrain dependent.
     */
    predicate IsTerrainDependent(): (r: bool)
      reads this
      ensures altitudeMode.None? || altitudeMode == Some(AvKeyAbsolute) ==> !r
      ensures altitudeMode.Some? && altitudeMode.value != AvKeyAbsolute ==> r
    {
      altitudeMode.Some? && altitudeMode.value != AvKeyAbsolute
    }

    /**
     * determineActiveAttributes: when highlighted, a copy of the highlight
     * attributes, or failing those the normal (or else the default)
     * attributes with a white interior and outline; when not highlighted, the
     * normal attributes, or the defaults when there are none. The active
     * bundle's own unresolved flag is never overwritten.
     */
    method DetermineActiveAttributes(defaultAttributes: BasicShapeAttributes)
      requires activeAttributes.Valid()
      requires SeparateColors(activeAttributes, normalAttrs) && SeparateColors(activeAttributes, highlightAttrs)
      requires SeparateColors(activeAttributes, defaultAttributes)
      modifies activeAttributes, activeAttributes.interiorColor, activeAttributes.outlineColor
      ensures State() == old(State())
      ensures highlighted && highlightAttrs != null ==>
                activeAttributes.Value() == old(highlightAttrs.Value()).(unresolved := old(activeAttributes.unresolved))
      ensures highlighted && highlightAttrs == null && normalAttrs != null ==>
                activeAttributes.Value() ==
                  old(normalAttrs.Value()).(unresolved := old(activeAttributes.unresolved), interiorColor := White, outlineColor := White)
      ensures highlighted && highlightAttrs == null && normalAttrs == null ==>
                activeAttributes.Value() ==
                  old(defaultAttributes.Value()).(unresolved := old(activeAttributes.unresolved), interiorColor := White, outlineColor := White)
      ensures !highlighted && normalAttrs != null ==>
                activeAttributes.Value() == old(normalAttrs.Value()).(unresolved := old(activeAttributes.unresolved))
      ensures !highlighted && normalAttrs == null ==>
                activeAttributes.Value() == old(defaultAttributes.Value()).(unresolved := old(activeAttributes.unresolved))
    {
      if highlighted {
        if highlightAttrs != null {
          var _ := activeAttributes.Set(highlightAttrs);
        } else {
          if normalAttrs != null {
            var _ := activeAttributes.Set(normalAttrs);
          } else {
            var _ := activeAttributes.Set(defaultAttributes);
          }
          var white := new Color.FromRgba(White);
          var _ := activeAttributes.SetInteriorColor(white);
          var _ := activeAttributes.SetOutlineColor(white);
        }
      } else if normalAttrs != null {
        var _ := activeAttributes.Set(normalAttrs);
      } else {
        var _ := activeAttributes.Set(defaultAttributes);
      }
    }

    /**
     * countTriangleVertices: the vertices of the triangles the primitives
     * describe, in int arithmetic. A type list shorter than the primitive
     * list makes primTypes.get throw.
     */
    method CountTriangleVertices(prims: seq<seq<int>>, primTypes: seq<int>) returns (r: Outcome<int>)
      ensures r.Throw? <==> |primTypes| < |prims|
      ensures r.Throw? ==> r.exception == IndexOutOfBounds
      ensures r.Return? ==> r.value == Wrap(ExactVertices(prims, primTypes, |prims|))
    {
      var numVertices := 0;
      var i := 0;
      while i < |prims|
        invariant 0 <= i <= |prims|
        invariant i <= |primTypes|
        invariant numVertices == WrappedVertices(prims, primTypes, i)
      {
        if i >= |primTypes| {
          return Throw(IndexOutOfBounds);
        }
        var primType := primTypes[i];
        if primType == GlTriangles {
          numVertices := Wrap(numVertices + Wrap(|prims[i]|));
        } else if primType == GlTriangleFan {
          numVertices := Wrap(numVertices + Wrap((|prims[i]| - 2) * 3));
        } else if primType == GlTriangleStrip {
          numVertices := Wrap(numVertices + Wrap((|prims[i]| - 2) * 3));
        }
        i := i + 1;
      }
      WrappedVerticesExact(prims, primTypes, |prims|);
      return Return(numVertices);
    }
  }
}
