/**
 * Picked objects and the list of objects found under the pick point
 * (gov.nasa.worldwind.pick.PickedObject and PickedObjectList).
 */
module Picking {
  import opened JavaLang
  import opened Geo

  /**
   * What a pick found: the pick colour it was drawn in, the object it stands
   * for (by identity; None for null), where it was picked and whether it is
   * the terrain. Its on-top mark and parent layer may change afterwards.
   */
  class PickedObject {
    const colorCode: int
    const userObject: Option<nat>
    const position: Option<Position>
    const isTerrain: bool
    var onTop: bool
    var parentLayer: Option<nat>

    constructor (colorCode: int, userObject: Option<nat>, position: Option<Position>, isTerrain: bool)
      ensures this.colorCode == colorCode && this.userObject == userObject
      ensures this.position == position && this.isTerrain == isTerrain
      ensures !onTop && parentLayer.None?
    {
      this.colorCode := colorCode;
      this.userObject := userObject;
      this.position := position;
      this.isTerrain := isTerrain;
      onTop := false;
      parentLayer := None;
    }

    method SetOnTop()
      modifies this
      ensures onTop && parentLayer == old(parentLayer)
    {
      onTop := true;
    }

    method SetParentLayer(layer: Option<nat>)
      modifies this
      ensures parentLayer == layer && onTop == old(onTop)
    {
      parentLayer := layer;
    }
  }

  /** The index of the first terrain object of s at or after i. */
  function FirstTerrainFrom(s: seq<PickedObject>, i: nat): (r: Option<nat>)
    requires i <= |s|
    decreases |s| - i
    ensures r.Some? ==> i <= r.value < |s| && s[r.value].isTerrain
    ensures r.Some? ==> forall j :: i <= j < r.value ==> !s[j].isTerrain
    ensures r.None? <==> forall j :: i <= j < |s| ==> !s[j].isTerrain
  {
    if i == |s| then None
    else if s[i].isTerrain then Some(i)
    else FirstTerrainFrom(s, i + 1)
  }

  /** The index of the first object of s at or after i that is marked on top. */
  function FirstOnTopFrom(s: seq<PickedObject>, i: nat): (r: Option<nat>)
    requires i <= |s|
    reads s
    decreases |s| - i
    ensures r.Some? ==> i <= r.value < |s| && s[r.value].onTop
    ensures r.Some? ==> forall j :: i <= j < r.value ==> !s[j].onTop
    ensures r.None? <==> forall j :: i <= j < |s| ==> !s[j].onTop
  {
    if i == |s| then None
    else if s[i].onTop then Some(i)
    else FirstOnTopFrom(s, i + 1)
  }

  /** The element at an optional index. */
  function At(s: seq<PickedObject>, k: Option<nat>): PickedObject?
    requires k.Some? ==> k.value < |s|
  {
    if k.Some? then s[k.value] else null
  }

  /**
   * The object getTopPickedObject reports: on a list of two or more, the
   * first one marked on top; otherwise (or when none is marked) the first.
   */
  function TopOf(s: seq<PickedObject>): (r: PickedObject?)
    reads s
    ensures |s| == 0 <==> r == null
    ensures |s| == 1 ==> r == s[0]
    ensures |s| > 1 && (exists j :: 0 <= j < |s| && s[j].onTop) ==>
              r != null && r.onTop && exists j :: 0 <= j < |s| && s[j] == r && forall i :: 0 <= i < j ==> !s[i].onTop
    ensures (forall j :: 0 <= j < |s| ==> !s[j].onTop) && |s| > 0 ==> r == s[0]
  {
    if 1 < |s| && FirstOnTopFrom(s, 0).Some? then s[FirstOnTopFrom(s, 0).value]
    else if 0 < |s| then s[0]
    else null
  }

  /** A list of picked objects, in the order they were found (an ArrayList). */
  class PickedObjectList {
    var items: seq<PickedObject>

    constructor ()
      ensures items == []
    {
      items := [];
    }

    method Add(po: PickedObject)
      modifies this
      ensures items == old(items) + [po]
    {
      items := items + [po];
    }

    method Clear()
      modifies this
      ensures items == []
    {
      items := [];
    }

    /** Replaces the contents by list's; set(this) clears before copying, leaving the list empty. */
    method Set(list: PickedObjectList)
      modifies this
      ensures list != this ==> items == old(list.items)
      ensures list == this ==> items == []
    {
      items := [];
      items := items + list.items;
    }

    /** The first terrain object, or null. */
    method GetTerrainObject() returns (r: PickedObject?)
      ensures r == At(items, FirstTerrainFrom(items, 0))
    {
      var i := 0;
      while i < |items|
        invariant 0 <= i <= |items|
        invariant FirstTerrainFrom(items, i) == FirstTerrainFrom(items, 0)
      {
        if items[i].isTerrain {
          return items[i];
        }
        i := i + 1;
      }
      return null;
    }

    method HasNonTerrainObjects() returns (r: bool)
      ensures r <==> |items| > 1 || (|items| == 1 && !items[0].isTerrain)
    {
      var terrain := GetTerrainObject();
      r := |items| > 1 || (|items| == 1 && terrain == null);
    }

    method GetTopPickedObject() returns (r: PickedObject?)
      ensures r == TopOf(items)
    {
      var size := |items|;
      if 1 < size {
        var i := 0;
        while i < size
          invariant 0 <= i <= size
          invariant FirstOnTopFrom(items, i) == FirstOnTopFrom(items, 0)
        {
          if items[i].onTop {
            return items[i];
          }
          i := i + 1;
        }
      }
      if 0 < size {
        return items[0];
      }
      return null;
    }

    /** The top picked object's user object, or None when there is none. */
    method GetTopObject() returns (r: Option<nat>)
      ensures TopOf(items) == null ==> r.None?
      ensures TopOf(items) != null ==> r == TopOf(items).userObject
    {
      var po := GetTopPickedObject();
      r := if po != null then po.userObject else None;
    }

    function GetMostRecentPickedObject(): (r: PickedObject?)
      reads this
      ensures r == null <==> |items| == 0
      ensures r != null ==> r == items[|items| - 1]
    {
      if |items| > 0 then items[|items| - 1] else null
    }
  }
}
