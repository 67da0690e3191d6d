/**
 * The picking bookkeeping of gov.nasa.worldwind.SceneController: the frame's
 * argument checks, marking the top picked object, and merging the objects of
 * a deep pick into the objects already picked.
 */
module SceneControllers {
  import opened JavaLang
  import opened Geo
  import opened Picking
  import opened DrawContexts

  /** Some element of s that is not the terrain stands for object o. */
  predicate HoldsObject(s: seq<PickedObject>, o: Option<nat>) {
    exists i :: 0 <= i < |s| && !s[i].isTerrain && s[i].userObject == o
  }

  /** hasNonTerrainObjects of a list with contents s. */
  predicate HasNonTerrain(s: seq<PickedObject>) {
    |s| > 1 || (|s| == 1 && !s[0].isTerrain)
  }

  /** One step of the merge: pb is appended unless it is terrain or its object is already held. */
  function MergeStep(a: seq<PickedObject>, pb: PickedObject): seq<PickedObject> {
    if pb.isTerrain || HoldsObject(a, pb.userObject) then a else a + [pb]
  }

  /** The contents of listA after merging the elements of b into a, in order. */
  function MergeInto(a: seq<PickedObject>, b: seq<PickedObject>): seq<PickedObject>
    decreases |b|
  {
    if |b| == 0 then a else MergeStep(MergeInto(a, b[..|b| - 1]), b[|b| - 1])
  }

  /** The merge keeps listA's elements, in their order, at the front. */
  lemma {:induction false} MergeKeepsPrefix(a: seq<PickedObject>, b: seq<PickedObject>)
    ensures |a| <= |MergeInto(a, b)| && MergeInto(a, b)[..|a|] == a
    decreases |b|
  {
    if |b| > 0 {
      MergeKeepsPrefix(a, b[..|b| - 1]);
    }
  }

  /** Everything the merge appends is a non-terrain element of b. */
  lemma {:induction false} MergeAppendsFromB(a: seq<PickedObject>, b: seq<PickedObject>)
    ensures |a| <= |MergeInto(a, b)|
    ensures forall k :: |a| <= k < |MergeInto(a, b)| ==> !MergeInto(a, b)[k].isTerrain && MergeInto(a, b)[k] in b
    decreases |b|
  {
    if |b| > 0 {
      var b' := b[..|b| - 1];
      MergeAppendsFromB(a, b');
      var m := MergeInto(a, b');
      assert forall k :: |a| <= k < |m| ==> m[k] in b' && m[k] in b by {
        forall k | |a| <= k < |m| ensures m[k] in b {
          var i :| 0 <= i < |b'| && b'[i] == m[k];
          assert b[i] == m[k];
        }
      }
    }
  }

  /** Each appended element's object is not held by any earlier non-terrain element. */
  lemma {:induction false} MergeAppendsNewObjects(a: seq<PickedObject>, b: seq<PickedObject>)
    ensures |a| <= |MergeInto(a, b)|
    ensures forall k :: |a| <= k < |MergeInto(a, b)| ==> !HoldsObject(MergeInto(a, b)[..k], MergeInto(a, b)[k].userObject)
    decreases |b|
  {
    if |b| > 0 {
      var b' := b[..|b| - 1];
      MergeAppendsNewObjects(a, b');
      var m := MergeInto(a, b');
      var m' := MergeInto(a, b);
      if m' != m {
        assert m' == m + [b[|b| - 1]];
        assert m'[..|m|] == m;
        forall k | |a| <= k < |m| ensures !HoldsObject(m'[..k], m'[k].userObject) {
          assert m'[..k] == m[..k];
        }
      }
    }
  }

  /** After the merge every non-terrain object of b is held by the result. */
  lemma {:induction false} MergeHoldsB(a: seq<PickedObject>, b: seq<PickedObject>)
    ensures forall j :: 0 <= j < |b| && !b[j].isTerrain ==> HoldsObject(MergeInto(a, b), b[j].userObject)
    decreases |b|
  {
    if |b| > 0 {
      var b' := b[..|b| - 1];
      MergeHoldsB(a, b');
      var m := MergeInto(a, b');
      var m' := MergeInto(a, b);
      HoldsGrows(m, m');
      var pb := b[|b| - 1];
      if !pb.isTerrain && !HoldsObject(m, pb.userObject) {
        assert m'[|m|] == pb;
      }
      forall j | 0 <= j < |b| - 1 && !b[j].isTerrain ensures HoldsObject(m', b[j].userObject) {
        assert b[j] == b'[j];
      }
    }
  }

  /** Whatever a list holds, a list it is a prefix of holds too. */
  lemma HoldsGrows(m: seq<PickedObject>, m': seq<PickedObject>)
    requires |m| <= |m'| && m'[..|m|] == m
    ensures forall o :: HoldsObject(m, o) ==> HoldsObject(m', o)
  {
    forall o | HoldsObject(m, o) ensures HoldsObject(m', o) {
      var i :| 0 <= i < |m| && !m[i].isTerrain && m[i].userObject == o;
      assert m'[i] == m[i];
    }
  }

  /** Merging a list into itself changes nothing: every non-terrain element already holds its own object. */
  lemma {:induction false} MergeWithItself(a: seq<PickedObject>, n: nat)
    requires n <= |a|
    ensures MergeInto(a, a[..n]) == a
    decreases n
  {
    if n > 0 {
      MergeWithItself(a, n - 1);
      assert a[..n][..n - 1] == a[..n - 1];
      var pb := a[n - 1];
      if !pb.isTerrain {
        assert HoldsObject(a, pb.userObject);
      }
    }
  }

  /**
   * A scene controller: the draw context it draws with, and the vertical
   * exaggeration and pick point it hands to that context each frame.
   */
  class SceneController {
    const dc: DrawContext
    var verticalExaggeration: real
    var pickPoint: Option<Point>

    /** A controller with the configured vertical exaggeration and no pick point. */
    constructor (dc: DrawContext, verticalExaggeration: real)
      ensures this.dc == dc && this.verticalExaggeration == verticalExaggeration && pickPoint.None?
    {
      this.dc := dc;
      this.verticalExaggeration := verticalExaggeration;
      pickPoint := None;
    }

    /** Sets the exaggeration later frames use, and nothing else. */
    method SetVerticalExaggeration(exaggeration: real)
      modifies this`verticalExaggeration
      ensures verticalExaggeration == exaggeration
    {
      verticalExaggeration := exaggeration;
    }

    /** Sets the pick point later frames use, or clears it with null, and nothing else. */
    method SetPickPoint(point: Option<Point>)
      modifies this`pickPoint
      ensures pickPoint == point
    {
      pickPoint := point;
    }

    /**
     * drawFrame's argument checks and its first step, initializeDrawContext:
     * the draw context is reset for a frame of the given size and then given
     * the controller's vertical exaggeration, the frame time stamp (the clock
     * reading timeStamp) and the controller's pick point. The drawing that
     * follows is not modelled.
     */
    method DrawFrame(viewportWidth: int, viewportHeight: int, timeStamp: int) returns (status: Status)
      modifies dc, dc.objectsAtPickPoint
      ensures viewportWidth < 0 || viewportHeight < 0 ==>
                status == Threw(IllegalArgument) && unchanged(dc) && unchanged(dc.objectsAtPickPoint)
      ensures viewportWidth >= 0 && viewportHeight >= 0 ==>
                status == Completed
                && dc.FrameStart(viewportWidth, viewportHeight, old(dc.clearColor), verticalExaggeration, timeStamp, pickPoint)
    {
      if viewportWidth < 0 {
        return Threw(IllegalArgument);
      }
      if viewportHeight < 0 {
        return Threw(IllegalArgument);
      }
      status := dc.Initialize(viewportWidth, viewportHeight);
      dc.SetVerticalExaggeration(verticalExaggeration);
      dc.SetFrameTimeStamp(timeStamp);
      dc.SetPickPoint(pickPoint);
    }

    /**
     * Marks the top object of the draw context's picked list: the only one
     * when there is one; otherwise the first whose colour code is the nonzero
     * colour under the pick point (whose pixel holds red, green, blue).
     */
    method ResolveTopPick(red: int, green: int, blue: int) returns (status: Status)
      modifies dc.objectsAtPickPoint.items
      ensures var items := dc.objectsAtPickPoint.items;
              |items| == 1 ==>
                status == Completed && items[0].onTop && forall po :: po in items && po != items[0] ==> unchanged(po)
      ensures var items := dc.objectsAtPickPoint.items;
              |items| > 1 && dc.pickPoint.None? ==>
                status == Threw(IllegalArgument) && forall po :: po in items ==> unchanged(po)
      ensures var items := dc.objectsAtPickPoint.items;
              var code := PickColorOf(dc.clearColor, red, green, blue);
              |items| > 1 && dc.pickPoint.Some? ==>
                status == Completed
                && (code == 0 ==> forall po :: po in items ==> unchanged(po))
                && (code != 0 ==> forall i :: 0 <= i < |items| ==>
                      items[i].onTop == (old(items[i].onTop) || items[i] == At(items, FirstWithCode(items, code, 0))))
      ensures |dc.objectsAtPickPoint.items| == 0 ==> status == Completed
      ensures forall po :: po in dc.objectsAtPickPoint.items ==> po.parentLayer == old(po.parentLayer)
    {
      var pickedObjects := dc.objectsAtPickPoint;
      var items := pickedObjects.items;
      if |items| == 1 {
        items[0].SetOnTop();
        return Completed;
      } else if |items| > 1 {
        var colorCode := dc.GetPickColor(dc.pickPoint, red, green, blue);
        if colorCode.Throw? {
          return Threw(colorCode.exception);
        }
        if colorCode.value != 0 {
          var i := 0;
          while i < |items|
            invariant 0 <= i <= |items|
            invariant FirstWithCode(items, colorCode.value, i) == FirstWithCode(items, colorCode.value, 0)
            invariant forall po :: po in items ==> unchanged(po)
          {
            if items[i].colorCode == colorCode.value {
              items[i].SetOnTop();
              break;
            }
            i := i + 1;
          }
        }
      }
      return Completed;
    }
  }

  /** The index of the first element of s at or after i with colour code code. */
  function FirstWithCode(s: seq<PickedObject>, code: int, i: nat): (r: Option<nat>)
    requires i <= |s|
    decreases |s| - i
    ensures r.Some? ==> i <= r.value < |s| && s[r.value].colorCode == code
    ensures r.Some? ==> forall j :: i <= j < r.value ==> s[j].colorCode != code
    ensures r.None? <==> forall j :: i <= j < |s| ==> s[j].colorCode != code
  {
    if i == |s| then None
    else if s[i].colorCode == code then Some(i)
    else FirstWithCode(s, code, i + 1)
  }

  /**
   * mergePickedObjectLists: returns listA, into which, when both lists have
   * non-terrain objects, the non-terrain elements of listB whose objects
   * listA does not already hold have been appended.
   */
  method MergePickedObjectLists(listA: PickedObjectList?, listB: PickedObjectList?) returns (r: PickedObjectList?)
    modifies listA
    ensures r == listA
    ensures listA == null || listB == null || !HasNonTerrain(old(listA.items)) || !HasNonTerrain(old(listB.items)) ==>
              listA == null || unchanged(listA)
    ensures listA != null && listB != null && HasNonTerrain(old(listA.items)) && HasNonTerrain(old(listB.items)) ==>
              listA.items == MergeInto(old(listA.items), old(listB.items))
  {
    if listA == null || listB == null {
      return listA;
    }
    var hasA := listA.HasNonTerrainObjects();
    var hasB := listB.HasNonTerrainObjects();
    if !hasA || !hasB {
      return listA;
    }
    ghost var a0 := listA.items;
    var bs := listB.items;
    var j := 0;
    while j < |bs|
      invariant 0 <= j <= |bs|
      invariant listA.items == MergeInto(a0, bs[..j])
    {
      var pb := bs[j];
      assert bs[..j + 1][..j] == bs[..j];
      if !pb.isTerrain {
        var common := false;
        var itemsA := listA.items;
        var o := pb.userObject;
        var i := 0;
        while i < |itemsA|
          invariant 0 <= i <= |itemsA|
          invariant common ==> HoldsObject(itemsA, o)
          invariant !common ==> forall k :: 0 <= k < i ==> itemsA[k].isTerrain || itemsA[k].userObject != o
        {
          if !itemsA[i].isTerrain && itemsA[i].userObject == o {
            common := true;
            break;
          }
          i := i + 1;
        }
        if !common {
          listA.Add(pb);
        }
      }
      j := j + 1;
    }
    assert bs[..|bs|] == bs;
    return listA;
  }

  /** Merging a list with itself, as deep picking may, leaves it as it is. */
  lemma MergeSelf(a: seq<PickedObject>)
    ensures MergeInto(a, a) == a
  {
    MergeWithItself(a, |a|);
    assert a[..|a|] == a;
  }
}
