/**
 * The per-frame drawing state of gov.nasa.worldwind.render.DrawContext: the
 * viewport, the pick-colour generator, the queue of ordered renderables and
 * the objects found at the pick point.
 */
module DrawContexts {
  import opened JavaInt
  import opened JavaLang
  import opened Geo
  import opened Colors
  import opened Picking

  /** A renderable drawn in eye-distance order, by identity and its distance from the eye. */
  datatype OrderedRenderable = OrderedRenderable(id: nat, distanceFromEye: real)

  /** DrawContext.OrderedRenderableEntry: the renderable, the distance it was queued at and its insertion time. */
  datatype OrderedRenderableEntry = OrderedRenderableEntry(renderable: OrderedRenderable, distanceFromEye: real, time: int)

  /** OrderedRenderableEntry.compareTo: farther entries first, then earlier insertion first. */
  function CompareTo(a: OrderedRenderableEntry, b: OrderedRenderableEntry): (r: int)
    ensures r == -1 || r == 0 || r == 1
    ensures r == 0 <==> a.distanceFromEye == b.distanceFromEye && a.time == b.time
    ensures r < 0 <==> a.distanceFromEye > b.distanceFromEye || (a.distanceFromEye == b.distanceFromEye && a.time < b.time)
  {
    var dA := a.distanceFromEye;
    var dB := b.distanceFromEye;
    if dA > dB then -1
    else if dA == dB then (if a.time < b.time then -1 else if a.time == b.time then 0 else 1)
    else 1
  }

  /** compareTo is antisymmetric. */
  lemma CompareToAntisymmetric(a: OrderedRenderableEntry, b: OrderedRenderableEntry)
    ensures CompareTo(a, b) == -CompareTo(b, a)
  {
  }

  /** compareTo is transitive, so the priority queue's order is a total preorder. */
  lemma CompareToTransitive(a: OrderedRenderableEntry, b: OrderedRenderableEntry, c: OrderedRenderableEntry)
    requires CompareTo(a, b) <= 0 && CompareTo(b, c) <= 0
    ensures CompareTo(a, c) <= 0
  {
  }

  /** An entry queued to the back (at Double.MAX_VALUE) sorts before every entry queued at a smaller distance. */
  lemma ToBackSortsFirst(back: OrderedRenderableEntry, e: OrderedRenderableEntry)
    requires back.distanceFromEye == DoubleMax && e.distanceFromEye < DoubleMax
    ensures CompareTo(back, e) == -1 && CompareTo(e, back) == 1
  {
  }

  /** Entries queued to the back come out in insertion order. */
  lemma ToBackInInsertionOrder(e1: OrderedRenderableEntry, e2: OrderedRenderableEntry)
    requires e1.distanceFromEye == DoubleMax && e2.distanceFromEye == DoubleMax && e1.time < e2.time
    ensures CompareTo(e1, e2) == -1
  {
  }

  const PickNumberLimit: int := 0xFF_FFFF

  /**
   * The pick number getUniquePickColor moves to from n with clear colour
   * clear: the next number, skipping the clear colour, wrapping back to 1 at
   * 0xFFFFFF.
   */
  function NextPickNumber(n: int, clear: int): (r: int)
    ensures r != clear
    ensures 0 <= n < PickNumberLimit ==> 1 <= r < PickNumberLimit
    ensures 0 <= n < PickNumberLimit ==> r > n || r <= 2
    ensures 0 <= n && n + 1 < PickNumberLimit && n + 1 != clear ==> r == n + 1
  {
    var n1 := Wrap(n + 1);
    var n2 := if n1 == clear then Wrap(n1 + 1) else n1;
    if n2 >= PickNumberLimit then (if 1 == clear then 2 else 1) else n2
  }

  /** Running out of pick numbers starts again at 1 (2 when the clear colour is 1). */
  lemma PickNumbersWrap(clear: int)
    requires clear != PickNumberLimit - 1
    ensures NextPickNumber(PickNumberLimit - 2, clear) == PickNumberLimit - 1
    ensures NextPickNumber(PickNumberLimit - 1, clear) == (if clear == 1 then 2 else 1)
  {
  }

  /** Pick numbers are those of the colour ints of black alpha: a 24-bit RGB value. */
  lemma PickNumberIsRgb(n: int, clear: int)
    requires 0 <= n < PickNumberLimit
    ensures ColorIntAlpha(NextPickNumber(n, clear)) == 0
    ensures MakeColorInt3(ColorIntRed(NextPickNumber(n, clear)), ColorIntGreen(NextPickNumber(n, clear)),
                          ColorIntBlue(NextPickNumber(n, clear))) == NextPickNumber(n, clear)
  {
    RgbRoundTrip(NextPickNumber(n, clear));
  }

  /**
   * What getPickColor reports for the pixel bytes red, green, blue under
   * clear colour clear: 0 for the clear colour (and for black), otherwise
   * the 24-bit colour int of those bytes.
   */
  function PickColorOf(clear: int, red: int, green: int, blue: int): (c: int)
    ensures c == 0 <==> MakeColorInt3(red, green, blue) == 0 || MakeColorInt3(red, green, blue) == clear
    ensures c != 0 ==> c != clear && ColorIntAlpha(c) == 0
    ensures c != 0 ==> ColorIntRed(c) == LowByte(red) && ColorIntGreen(c) == LowByte(green) && ColorIntBlue(c) == LowByte(blue)
  {
    MakeColorInt3Fields(red, green, blue);
    var colorInt := MakeColorInt3(red, green, blue);
    if colorInt != clear then colorInt else 0
  }

  /** A pick number drawn as a colour is read back as itself, unless it is the clear colour. */
  lemma PickNumberReadBack(n: int, clear: int)
    requires 0 < n < PickNumberLimit && n != clear
    ensures PickColorOf(clear, ColorIntRed(n), ColorIntGreen(n), ColorIntBlue(n)) == n
  {
    RgbRoundTrip(n);
  }

  class DrawContext {
    var viewportWidth: int
    var viewportHeight: int
    var clearColor: int
    var verticalExaggeration: real
    var frameTimestamp: int
    var orderedRenderingMode: bool
    /** The priority queue's contents in insertion order. */
    var orderedRenderables: seq<OrderedRenderableEntry>
    var pickingMode: bool
    var deepPickingMode: bool
    var uniquePickNumber: int
    var pickPoint: Option<Point>
    const objectsAtPickPoint: PickedObjectList

    /** The pick number stays within the 24-bit range getUniquePickColor hands out. */
    predicate Valid()
      reads this
    {
      0 <= uniquePickNumber < PickNumberLimit
    }

    constructor ()
      ensures Valid() && fresh(objectsAtPickPoint) && objectsAtPickPoint.items == []
      ensures clearColor == 0 && uniquePickNumber == 0 && verticalExaggeration == 1.0
      ensures orderedRenderables == [] && !pickingMode && !deepPickingMode
    {
      viewportWidth := 0;
      viewportHeight := 0;
      clearColor := 0;
      verticalExaggeration := 1.0;
      frameTimestamp := 0;
      orderedRenderingMode := false;
      orderedRenderables := [];
      pickingMode := false;
      deepPickingMode := false;
      uniquePickNumber := 0;
      pickPoint := None;
      objectsAtPickPoint := new PickedObjectList();
    }

    /**
     * The state of a context at the start of a frame: the given viewport,
     * clear colour, vertical exaggeration, time stamp and pick point, with an
     * empty queue and picked list, ordered rendering and picking off and pick
     * number 0.
     */
    predicate FrameStart(width: int, height: int, clear: int, exaggeration: real, timeStamp: int, point: Option<Point>)
      reads this, objectsAtPickPoint
    {
      Valid() && viewportWidth == width && viewportHeight == height
      && verticalExaggeration == exaggeration && frameTimestamp == timeStamp
      && !orderedRenderingMode && orderedRenderables == []
      && !pickingMode && !deepPickingMode && uniquePickNumber == 0 && pickPoint == point
      && objectsAtPickPoint.items == [] && clearColor == clear
    }

    /** The state initialize leaves: a frame start with exaggeration 1, time stamp 0 and no pick point. */
    predicate FrameReset(width: int, height: int, clear: int)
      reads this, objectsAtPickPoint
    {
      FrameStart(width, height, clear, 1.0, 0, None)
    }

    /** Prepares the context for a frame: negative viewport sizes are rejected and everything per-frame is reset. */
    method Initialize(width: int, height: int) returns (status: Status)
      modifies this, objectsAtPickPoint
      ensures width < 0 || height < 0 ==>
        status == Threw(IllegalArgument) && unchanged(this) && unchanged(objectsAtPickPoint)
      ensures width >= 0 && height >= 0 ==> status == Completed && FrameReset(width, height, old(clearColor))
    {
      if width < 0 {
        return Threw(IllegalArgument);
      }
      if height < 0 {
        return Threw(IllegalArgument);
      }
      objectsAtPickPoint.Clear();
      viewportWidth, viewportHeight := width, height;
      verticalExaggeration, frameTimestamp := 1.0, 0;
      orderedRenderingMode, orderedRenderables := false, [];
      pickingMode, deepPickingMode := false, false;
      uniquePickNumber, pickPoint := 0, None;
      return Completed;
    }

    /** Sets the vertical exaggeration and nothing else. */
    method SetVerticalExaggeration(exaggeration: real)
      modifies this`verticalExaggeration
      ensures verticalExaggeration == exaggeration
    {
      verticalExaggeration := exaggeration;
    }

    /** Sets the frame time stamp and nothing else. */
    method SetFrameTimeStamp(timeStamp: int)
      modifies this`frameTimestamp
      ensures frameTimestamp == timeStamp
    {
      frameTimestamp := timeStamp;
    }

    /** Sets the pick point, or clears it with null, and nothing else. */
    method SetPickPoint(point: Option<Point>)
      modifies this`pickPoint
      ensures pickPoint == point
    {
      pickPoint := point;
    }

    /** Hands out the next unique pick colour, never the clear colour; only the pick number changes. */
    method GetUniquePickColor() returns (r: int)
      requires Valid()
      modifies this`uniquePickNumber
      ensures Valid() && r == uniquePickNumber
      ensures r == NextPickNumber(old(uniquePickNumber), clearColor)
    {
      uniquePickNumber := Wrap(uniquePickNumber + 1);
      if uniquePickNumber == clearColor {
        uniquePickNumber := Wrap(uniquePickNumber + 1);
      }
      if uniquePickNumber >= PickNumberLimit {
        uniquePickNumber := 1;
        if uniquePickNumber == clearColor {
          uniquePickNumber := uniquePickNumber + 1;
        }
      }
      return uniquePickNumber;
    }

    /**
     * The colour int under a screen point, given the red, green and blue
     * bytes glReadPixels leaves there; 0 when that is the clear colour.
     */
    method GetPickColor(point: Option<Point>, red: int, green: int, blue: int) returns (r: Outcome<int>)
      ensures point.None? ==> r.Throw? && r.exception == IllegalArgument
      ensures point.Some? ==> r.Return? && r.value == PickColorOf(clearColor, red, green, blue)
    {
      if point.None? {
        return Throw(IllegalArgument);
      }
      var colorInt := MakeColorInt3(red, green, blue);
      return Return(if colorInt != clearColor then colorInt else 0);
    }

    /** Queues a renderable at its own eye distance; null is ignored. Only the queue changes. */
    method AddOrderedRenderable(renderable: Option<OrderedRenderable>, nanoTime: int)
      modifies this`orderedRenderables
      ensures renderable.None? ==> orderedRenderables == old(orderedRenderables)
      ensures renderable.Some? ==>
                orderedRenderables == old(orderedRenderables)
                  + [OrderedRenderableEntry(renderable.value, renderable.value.distanceFromEye, nanoTime)]
    {
      if renderable.None? {
        return;
      }
      orderedRenderables := orderedRenderables
        + [OrderedRenderableEntry(renderable.value, renderable.value.distanceFromEye, nanoTime)];
    }

    /** Queues a renderable behind all others, at distance Double.MAX_VALUE; null is ignored. Only the queue changes. */
    method AddOrderedRenderableToBack(renderable: Option<OrderedRenderable>, nanoTime: int)
      modifies this`orderedRenderables
      ensures renderable.None? ==> orderedRenderables == old(orderedRenderables)
      ensures renderable.Some? ==>
                orderedRenderables == old(orderedRenderables) + [OrderedRenderableEntry(renderable.value, DoubleMax, nanoTime)]
    {
      if renderable.None? {
        return;
      }
      orderedRenderables := orderedRenderables + [OrderedRenderableEntry(renderable.value, DoubleMax, nanoTime)];
    }

    /** Adds an object to the list of objects at the pick point; null is rejected. */
    method AddPickedObject(pickedObject: PickedObject?) returns (status: Status)
      modifies objectsAtPickPoint
      ensures pickedObject == null ==> status == Threw(IllegalArgument) && unchanged(objectsAtPickPoint)
      ensures pickedObject != null ==>
                status == Completed && objectsAtPickPoint.items == old(objectsAtPickPoint.items) + [pickedObject]
    {
      if pickedObject == null {
        return Threw(IllegalArgument);
      }
      objectsAtPickPoint.Add(pickedObject);
      return Completed;
    }
  }
}
