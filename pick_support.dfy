/**
 * gov.nasa.worldwind.pick.PickSupport: the objects drawn in this frame,
 * keyed by the unique colour each was drawn in, and the lookup of the one
 * under the pick point.
 */
module PickSupports {
  import opened JavaLang
  import opened Geo
  import opened Picking
  import opened DrawContexts

  class PickSupport {
    var pickableObjects: map<int, PickedObject>

    /** Every object is stored under its own colour code. */
    predicate Valid()
      reads this, pickableObjects.Values
    {
      forall code :: code in pickableObjects ==> pickableObjects[code].colorCode == code
    }

    constructor ()
      ensures Valid() && pickableObjects == map[]
    {
      pickableObjects := map[];
    }

    /** Stores po under its colour code, replacing whatever was stored under that code. */
    method AddPickableObject(po: PickedObject)
      requires Valid()
      modifies this
      ensures Valid()
      ensures pickableObjects == old(pickableObjects)[po.colorCode := po]
    {
      pickableObjects := pickableObjects[po.colorCode := po];
    }

    /** addPickableObject(colorCode, o, position, isTerrain): stores a new picked object for o under colorCode. */
    method AddPickableTerrainObject(colorCode: int, o: Option<nat>, position: Option<Position>, isTerrain: bool)
      returns (po: PickedObject)
      requires Valid()
      modifies this
      ensures Valid() && fresh(po)
      ensures pickableObjects == old(pickableObjects)[colorCode := po]
      ensures po.colorCode == colorCode && po.userObject == o && po.position == position && po.isTerrain == isTerrain
      ensures !po.onTop && po.parentLayer.None?
    {
      po := new PickedObject(colorCode, o, position, isTerrain);
      pickableObjects := pickableObjects[colorCode := po];
    }

    /** addPickableObject(colorCode, o, position): a picked object that is not the terrain. */
    method AddPickablePositionedObject(colorCode: int, o: Option<nat>, position: Option<Position>)
      returns (po: PickedObject)
      requires Valid()
      modifies this
      ensures Valid() && fresh(po)
      ensures pickableObjects == old(pickableObjects)[colorCode := po]
      ensures po.colorCode == colorCode && po.userObject == o && po.position == position && !po.isTerrain
    {
      po := AddPickableTerrainObject(colorCode, o, position, false);
    }

    /** addPickableObject(colorCode, o): a picked object with no position that is not the terrain. */
    method AddPickableCodedObject(colorCode: int, o: Option<nat>) returns (po: PickedObject)
      requires Valid()
      modifies this
      ensures Valid() && fresh(po)
      ensures pickableObjects == old(pickableObjects)[colorCode := po]
      ensures po.colorCode == colorCode && po.userObject == o && po.position.None? && !po.isTerrain
    {
      po := AddPickableTerrainObject(colorCode, o, None, false);
    }

    method ClearPickList()
      modifies this
      ensures Valid() && pickableObjects == map[]
    {
      pickableObjects := map[];
    }

    /**
     * The object drawn at the pick point, whose pixel holds the bytes red,
     * green and blue: null when nothing is pickable, when the pixel is the
     * clear colour, or when no object was drawn in that colour. A null pick
     * point is rejected by getPickColor, but only when there is something to
     * pick.
     */
    method GetTopObject(dc: DrawContext, pickPoint: Option<Point>, red: int, green: int, blue: int)
      returns (r: Outcome<PickedObject?>)
      requires Valid()
      ensures pickableObjects == map[] ==> r.Return? && r.value == null
      ensures pickableObjects != map[] && pickPoint.None? ==> r.Throw? && r.exception == IllegalArgument
      ensures pickableObjects != map[] && pickPoint.Some? ==> r.Return?
      ensures r.Return? && r.value != null ==>
                r.value.colorCode == PickColorOf(dc.clearColor, red, green, blue) != 0
                && r.value.colorCode in pickableObjects && pickableObjects[r.value.colorCode] == r.value
      ensures r.Return? && r.value == null && pickableObjects != map[] ==>
                PickColorOf(dc.clearColor, red, green, blue) == 0
                || PickColorOf(dc.clearColor, red, green, blue) !in pickableObjects
    {
      if pickableObjects == map[] {
        return Return(null);
      }
      var colorCode := dc.GetPickColor(pickPoint, red, green, blue);
      if colorCode.Throw? {
        return Throw(colorCode.exception);
      }
      if colorCode.value == 0 {
        return Return(null);
      }
      if colorCode.value !in pickableObjects {
        return Return(null);
      }
      return Return(pickableObjects[colorCode.value]);
    }

    /**
     * Looks up the top object, gives it the layer as parent when there is
     * one, adds it to the draw context's picked objects and empties the
     * pickable map. An exception from the lookup leaves everything as it was.
     */
    method ResolvePick(dc: DrawContext, pickPoint: Option<Point>, red: int, green: int, blue: int, layer: Option<nat>)
      returns (r: Outcome<PickedObject?>)
      requires Valid()
      modifies this, dc.objectsAtPickPoint, pickableObjects.Values
      ensures r.Throw? ==> r.exception == IllegalArgument && old(pickableObjects) != map[] && pickPoint.None?
      ensures r.Throw? ==> unchanged(this) && unchanged(dc.objectsAtPickPoint) && unchanged(old(pickableObjects.Values))
      ensures r.Return? ==> Valid() && pickableObjects == map[]
      ensures r.Return? && r.value == null ==> unchanged(dc.objectsAtPickPoint) && unchanged(old(pickableObjects.Values))
      ensures r.Return? && r.value != null ==>
                r.value in old(pickableObjects.Values) && r.value.colorCode == PickColorOf(dc.clearColor, red, green, blue)
                && dc.objectsAtPickPoint.items == old(dc.objectsAtPickPoint.items) + [r.value]
                && r.value.parentLayer == (if layer.Some? then layer else old(r.value.parentLayer))
                && r.value.onTop == old(r.value.onTop)
      ensures r.Return? && r.value != null ==>
                forall po :: po in old(pickableObjects.Values) && po != r.value ==> unchanged(po)
    {
      var found := GetTopObject(dc, pickPoint, red, green, blue);
      if found.Throw? {
        return found;
      }
      var pickedObject := found.value;
      if pickedObject != null {
        if layer.Some? {
          pickedObject.SetParentLayer(layer);
        }
        var _ := dc.AddPickedObject(pickedObject);
      }
      ClearPickList();
      return found;
    }
  }
}
