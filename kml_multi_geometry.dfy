/**
 * gov.nasa.worldwind.kml.KMLMultiGeometry: a KML MultiGeometry element, the
 * list of geometries parsed inside it, and the update (applyChange) that
 * merges the geometries of another MultiGeometry into it, replacing the
 * existing geometries that share an id with an incoming one.
 */
module KmlMultiGeometries {
  import opened JavaLang

  /**
   * A parsed KML geometry, compared by identity as List.remove compares
   * KML objects: key tells two objects apart and id is its KML id attribute.
   */
  datatype KmlGeometry = KmlGeometry(key: nat, id: Option<string>)

  /** !WWUtil.isEmpty(id): the id is neither null nor the empty string. */
  predicate NonEmpty(id: Option<string>) {
    id.Some? && |id.value| > 0
  }

  /** Whether an existing geometry carries the non-empty id of an incoming one. */
  predicate Matches(g: KmlGeometry, id: string) {
    NonEmpty(g.id) && g.id.value == id
  }

  /** The list l once the inner loop has visited copy[..n], removing from l each visited geometry that matches id. */
  function RemoveMatching(l: seq<KmlGeometry>, copy: seq<KmlGeometry>, id: string, n: nat): seq<KmlGeometry>
    requires n <= |copy|
  {
    if n == 0 then l
    else
      var l' := RemoveMatching(l, copy, id, n - 1);
      if Matches(copy[n - 1], id) then RemoveFirst(l', copy[n - 1]) else l'
  }

  /** One turn of the outer loop: the matches of an incoming geometry with a non-empty id removed, then the geometry appended. */
  function MergeStep(l: seq<KmlGeometry>, copy: seq<KmlGeometry>, g: KmlGeometry): seq<KmlGeometry> {
    (if NonEmpty(g.id) then RemoveMatching(l, copy, g.id.value, |copy|) else l) + [g]
  }

  /** The list l once the outer loop has handled src[..n], looking for matches in copy. */
  function Merged(l: seq<KmlGeometry>, copy: seq<KmlGeometry>, src: seq<KmlGeometry>, n: nat): seq<KmlGeometry>
    requires n <= |src|
  {
    if n == 0 then l else MergeStep(Merged(l, copy, src, n - 1), copy, src[n - 1])
  }

  /** No geometry occurs twice. */
  predicate NoDuplicates(s: seq<KmlGeometry>) {
    forall i, j :: 0 <= i < j < |s| ==> s[i] != s[j]
  }

  /** l without the geometries in r, in order. */
  function Keep(l: seq<KmlGeometry>, r: set<KmlGeometry>): seq<KmlGeometry> {
    if |l| == 0 then [] else (if l[0] in r then [] else [l[0]]) + Keep(l[1..], r)
  }

  /** Keep keeps exactly the geometries of l outside r. */
  lemma {:induction false} KeepMembers(l: seq<KmlGeometry>, r: set<KmlGeometry>, x: KmlGeometry)
    ensures x in Keep(l, r) <==> x in l && x !in r
    decreases |l|
  {
    if |l| > 0 {
      KeepMembers(l[1..], r, x);
      assert l == [l[0]] + l[1..];
    }
  }

  /** The geometries of copy[..n] that match id. */
  function MatchSet(copy: seq<KmlGeometry>, id: string, n: nat): set<KmlGeometry>
    requires n <= |copy|
  {
    if n == 0 then {} else MatchSet(copy, id, n - 1) + (if Matches(copy[n - 1], id) then {copy[n - 1]} else {})
  }

  /** MatchSet holds exactly the matching geometries of copy[..n]. */
  lemma {:induction false} MatchSetMembers(copy: seq<KmlGeometry>, id: string, n: nat, x: KmlGeometry)
    requires n <= |copy|
    ensures x in MatchSet(copy, id, n) <==> x in copy[..n] && Matches(x, id)
    decreases n
  {
    if n > 0 {
      MatchSetMembers(copy, id, n - 1, x);
      assert copy[..n] == copy[..n - 1] + [copy[n - 1]];
    }
  }

  /** The existing geometries cur that src[..n] replace: those matching the non-empty id of one of them. */
  function Replaced(cur: seq<KmlGeometry>, src: seq<KmlGeometry>, n: nat): set<KmlGeometry>
    requires n <= |src|
  {
    if n == 0 then {}
    else Replaced(cur, src, n - 1) + (if NonEmpty(src[n - 1].id) then MatchSet(cur, src[n - 1].id.value, |cur|) else {})
  }

  /** An existing geometry is replaced exactly when it has a non-empty id that one of the incoming geometries also has. */
  lemma {:induction false} ReplacedMembers(cur: seq<KmlGeometry>, src: seq<KmlGeometry>, n: nat, x: KmlGeometry)
    requires n <= |src|
    ensures x in Replaced(cur, src, n) <==>
              x in cur && NonEmpty(x.id) && exists k :: 0 <= k < n && src[k].id == x.id
    decreases n
  {
    if n > 0 {
      ReplacedMembers(cur, src, n - 1, x);
      assert cur[..|cur|] == cur;
      if NonEmpty(src[n - 1].id) {
        MatchSetMembers(cur, src[n - 1].id.value, |cur|, x);
      }
    }
  }

  /** Keeping all of a list keeps it whole. */
  lemma {:induction false} KeepNothing(l: seq<KmlGeometry>)
    ensures Keep(l, {}) == l
    decreases |l|
  {
    if |l| > 0 {
      KeepNothing(l[1..]);
    }
  }

  /** Removing a geometry l does not hold changes nothing. */
  lemma {:induction false} KeepAbsent(l: seq<KmlGeometry>, r: set<KmlGeometry>, e: KmlGeometry)
    requires e !in l
    ensures Keep(l, r + {e}) == Keep(l, r)
    decreases |l|
  {
    if |l| > 0 {
      KeepAbsent(l[1..], r, e);
    }
  }

  /** The first index of x is the one index holding x with no x before it. */
  lemma IndexOfUnique(s: seq<KmlGeometry>, x: KmlGeometry, i: nat)
    requires i < |s| && s[i] == x && x !in s[..i]
    ensures IndexOf(s, x) == i
  {
    var k := IndexOf(s, x);
    assert forall j :: 0 <= j < i ==> s[..i][j] == s[j];
    assert forall j :: 0 <= j < k ==> s[..k][j] == s[j];
  }

  /** Removing the first e of h + t, when e is not in h, removes it from t. */
  lemma RemoveFirstAfter(h: seq<KmlGeometry>, t: seq<KmlGeometry>, e: KmlGeometry)
    requires e !in h && e in t
    ensures RemoveFirst(h + t, e) == h + RemoveFirst(t, e)
  {
    var k := IndexOf(t, e);
    var s := h + t;
    assert s[..|h| + k] == h + t[..k];
    IndexOfUnique(s, e, |h| + k);
    assert s[|h| + k + 1..] == t[k + 1..];
    assert RemoveFirst(s, e) == (h + t[..k]) + t[k + 1..];
    assert RemoveFirst(t, e) == t[..k] + t[k + 1..];
  }

  /** Removing the first e of h + t, when e is in h, removes it from h. */
  lemma RemoveFirstBefore(h: seq<KmlGeometry>, t: seq<KmlGeometry>, e: KmlGeometry)
    requires e in h
    ensures RemoveFirst(h + t, e) == RemoveFirst(h, e) + t
  {
    var k := IndexOf(h, e);
    var s := h + t;
    assert s[..k] == h[..k];
    IndexOfUnique(s, e, k);
    assert s[k + 1..] == h[k + 1..] + t;
  }

  /** The tail of a list without duplicates has none, and does not hold the head. */
  lemma NoDuplicatesTail(cur: seq<KmlGeometry>)
    requires NoDuplicates(cur) && |cur| > 0
    ensures NoDuplicates(cur[1..]) && cur[0] !in cur[1..]
  {
    var t := cur[1..];
    forall i, j | 0 <= i < j < |t| ensures t[i] != t[j] {
      assert t[i] == cur[i + 1] && t[j] == cur[j + 1];
    }
    forall j | 0 <= j < |t| ensures t[j] != cur[0] {
      assert t[j] == cur[j + 1];
    }
  }

  /** In a list without duplicates, removing the first e of the kept geometries is keeping one geometry fewer. */
  lemma {:induction false} KeepRemove(cur: seq<KmlGeometry>, r: set<KmlGeometry>, e: KmlGeometry)
    requires NoDuplicates(cur) && e in cur && e !in r
    ensures RemoveFirst(Keep(cur, r), e) == Keep(cur, r + {e})
    decreases |cur|
  {
    var t := cur[1..];
    NoDuplicatesTail(cur);
    if cur[0] == e {
      assert Keep(cur, r) == [e] + Keep(t, r);
      assert Keep(cur, r + {e}) == Keep(t, r + {e});
      KeepAbsent(t, r, e);
    } else {
      var h := if cur[0] in r then [] else [cur[0]];
      assert Keep(cur, r) == h + Keep(t, r);
      assert Keep(cur, r + {e}) == h + Keep(t, r + {e});
      assert cur == [cur[0]] + t;
      KeepRemove(t, r, e);
      KeepMembers(t, r, e);
      RemoveFirstAfter(h, Keep(t, r), e);
    }
  }

  /** The inner loop, on a list of kept geometries followed by geometries appended since, removes the matches from the kept part. */
  lemma {:induction false} RemoveMatchingKeep(cur: seq<KmlGeometry>, r: set<KmlGeometry>, p: seq<KmlGeometry>, id: string, n: nat)
    requires NoDuplicates(cur) && n <= |cur|
    requires forall x :: x in p ==> x !in cur
    ensures RemoveMatching(Keep(cur, r) + p, cur, id, n) == Keep(cur, r + MatchSet(cur, id, n)) + p
    decreases n
  {
    if n == 0 {
      assert r + MatchSet(cur, id, n) == r;
    } else {
      RemoveMatchingKeep(cur, r, p, id, n - 1);
      var r' := r + MatchSet(cur, id, n - 1);
      var e := cur[n - 1];
      var prev := Keep(cur, r') + p;
      assert RemoveMatching(Keep(cur, r) + p, cur, id, n) == if Matches(e, id) then RemoveFirst(prev, e) else prev;
      if Matches(e, id) {
        assert r + MatchSet(cur, id, n) == r' + {e};
        RemoveKept(cur, r', p, e);
      } else {
        assert r + MatchSet(cur, id, n) == r';
      }
    }
  }

  /** Removing the first e from kept geometries followed by geometries not among them keeps one geometry fewer. */
  lemma RemoveKept(cur: seq<KmlGeometry>, r: set<KmlGeometry>, p: seq<KmlGeometry>, e: KmlGeometry)
    requires NoDuplicates(cur) && e in cur
    requires forall x :: x in p ==> x !in cur
    ensures RemoveFirst(Keep(cur, r) + p, e) == Keep(cur, r + {e}) + p
  {
    if e in r {
      assert r + {e} == r;
      KeepMembers(cur, r, e);
      assert e !in Keep(cur, r) + p;
    } else {
      KeepMembers(cur, r, e);
      RemoveFirstBefore(Keep(cur, r), p, e);
      KeepRemove(cur, r, e);
    }
  }

  /**
   * After handling src[..n], when the existing geometries have no
   * duplicates and none of them is also incoming, the list holds the
   * existing geometries not replaced, in order, then src[..n].
   */
  lemma {:induction false} MergedKeep(cur: seq<KmlGeometry>, src: seq<KmlGeometry>, n: nat)
    requires NoDuplicates(cur) && n <= |src|
    requires forall x :: x in src ==> x !in cur
    ensures Merged(cur, cur, src, n) == Keep(cur, Replaced(cur, src, n)) + src[..n]
    decreases n
  {
    if n == 0 {
      KeepNothing(cur);
    } else {
      MergedKeep(cur, src, n - 1);
      var g := src[n - 1];
      var r := Replaced(cur, src, n - 1);
      assert src[..n] == src[..n - 1] + [g];
      assert forall x :: x in src[..n - 1] ==> x !in cur;
      if NonEmpty(g.id) {
        RemoveMatchingKeep(cur, r, src[..n - 1], g.id.value, |cur|);
      } else {
        assert Replaced(cur, src, n) == r;
      }
    }
  }

  /**
   * What merging is meant to do: every incoming geometry is appended, in
   * order, after the existing geometries that keep their place, and an
   * existing geometry loses its place exactly when one of the incoming
   * geometries has the same non-empty id.
   */
  lemma MergeReplacesById(cur: seq<KmlGeometry>, src: seq<KmlGeometry>)
    requires NoDuplicates(cur)
    requires forall x :: x in src ==> x !in cur
    ensures Merged(cur, cur, src, |src|) == Keep(cur, Replaced(cur, src, |src|)) + src
    ensures forall x :: x in Replaced(cur, src, |src|) <==>
              x in cur && NonEmpty(x.id) && exists k :: 0 <= k < |src| && src[k].id == x.id
  {
    MergedKeep(cur, src, |src|);
    assert src[..|src|] == src;
    forall x {
      ReplacedMembers(cur, src, |src|, x);
    }
  }

  /** With no existing geometries, merging appends the incoming ones in order. */
  lemma {:induction false} MergeIntoEmpty(src: seq<KmlGeometry>, n: nat)
    requires n <= |src|
    ensures Merged([], [], src, n) == src[..n]
    decreases n
  {
    if n > 0 {
      MergeIntoEmpty(src, n - 1);
      assert src[..n] == src[..n - 1] + [src[n - 1]];
    }
  }

  /** Replacing the one existing geometry with an incoming one of the same id. */
  lemma ReplaceOne()
    ensures Merged([KmlGeometry(0, Some("a"))], [KmlGeometry(0, Some("a"))], [KmlGeometry(1, Some("a"))], 1)
            == [KmlGeometry(1, Some("a"))]
  {
    assert MatchSet([KmlGeometry(0, Some("a"))], "a", 1) == {KmlGeometry(0, Some("a"))};
  }

  /** What applyChange is handed: null, a KML object of another element, or a MultiGeometry. */
  datatype SourceValues = Null | OtherObject | MultiGeometry(value: KMLMultiGeometry)

  /** What parsing hands doAddEventContent: a geometry, or other content. */
  datatype Content = GeometryContent(geometry: KmlGeometry) | OtherContent

  class KMLMultiGeometry {
    var geometries: seq<KmlGeometry>

    constructor ()
      ensures geometries == []
    {
      geometries := [];
    }

    /** addGeometry: appends. */
    method AddGeometry(o: KmlGeometry)
      modifies this
      ensures geometries == old(geometries) + [o]
    {
      geometries := geometries + [o];
    }

    /** doAddEventContent: parsed geometries are appended in document order; other content goes to the superclass, unmodelled here. */
    method DoAddEventContent(o: Content)
      modifies this
      ensures o.GeometryContent? ==> geometries == old(geometries) + [o.geometry]
      ensures o.OtherContent? ==> geometries == old(geometries)
    {
      if o.GeometryContent? {
        AddGeometry(o.geometry);
      }
    }

    /**
     * The loops of mergeGeometries: for each incoming geometry, in order,
     * the geometries of copy that match its non-empty id are removed from
     * the list, then it is appended.
     */
    method ReplaceAndAppend(copy: seq<KmlGeometry>, src: seq<KmlGeometry>)
      modifies this
      ensures geometries == Merged(old(geometries), copy, src, |src|)
    {
      var j := 0;
      while j < |src|
        invariant 0 <= j <= |src|
        invariant geometries == Merged(old(geometries), copy, src, j)
      {
        var g := src[j];
        if NonEmpty(g.id) {
          ghost var start := geometries;
          var k := 0;
          while k < |copy|
            invariant 0 <= k <= |copy|
            invariant geometries == RemoveMatching(start, copy, g.id.value, k)
          {
            var existing := copy[k];
            if NonEmpty(existing.id) && existing.id.value == g.id.value {
              geometries := RemoveFirst(geometries, existing);
            }
            k := k + 1;
          }
        }
        geometries := geometries + [g];
        j := j + 1;
      }
    }

    /**
     * mergeGeometries as written: the copy of the list is a new, empty
     * ArrayList, so Collections.copy throws whenever the list is not empty;
     * only an empty list gets the incoming geometries, appended in order.
     */
    method MergeGeometriesAsWritten(sourceMultiGeometry: KMLMultiGeometry) returns (status: Status)
      modifies this
      ensures |old(geometries)| > 0 ==> status == Threw(IndexOutOfBounds) && geometries == old(geometries)
      ensures |old(geometries)| == 0 ==> status == Completed && geometries == old(sourceMultiGeometry.geometries)
    {
      var geometriesCopy: seq<KmlGeometry> := [];
      if |geometries| > |geometriesCopy| {
        return Threw(IndexOutOfBounds);
      }
      var src := sourceMultiGeometry.geometries;
      ReplaceAndAppend(geometriesCopy, src);
      MergeIntoEmpty(src, |src|);
      assert src[..|src|] == src;
      return Completed;
    }

    /**
     * mergeGeometries as intended: the loops look for matches in a true copy
     * of the list, so existing geometries sharing an incoming geometry's id
     * are replaced.
     */
    method MergeGeometries(sourceMultiGeometry: KMLMultiGeometry)
      modifies this
      ensures geometries == Merged(old(geometries), old(geometries), old(sourceMultiGeometry.geometries), |old(sourceMultiGeometry.geometries)|)
    {
      var geometriesCopy := geometries;
      ReplaceAndAppend(geometriesCopy, sourceMultiGeometry.geometries);
    }

    /**
     * applyChange as written: anything but a MultiGeometry (null included) is
     * rejected with no change; the geometries of a MultiGeometry that has any
     * go to the as-written mergeGeometries, which throws whenever this
     * multi-geometry already has geometries and otherwise takes the incoming
     * ones.
     */
    method ApplyChangeAsWritten(sourceValues: SourceValues) returns (status: Status)
      modifies this
      ensures !sourceValues.MultiGeometry? ==> status == Threw(IllegalArgument) && geometries == old(geometries)
      ensures sourceValues.MultiGeometry? && |old(sourceValues.value.geometries)| == 0 ==>
                status == Completed && geometries == old(geometries)
      ensures sourceValues.MultiGeometry? && |old(sourceValues.value.geometries)| > 0 && |old(geometries)| > 0 ==>
                status == Threw(IndexOutOfBounds) && geometries == old(geometries)
      ensures sourceValues.MultiGeometry? && |old(sourceValues.value.geometries)| > 0 && |old(geometries)| == 0 ==>
                status == Completed && geometries == old(sourceValues.value.geometries)
    {
      if !sourceValues.MultiGeometry? {
        return Threw(IllegalArgument);
      }
      var multiGeometry := sourceValues.value;
      if |multiGeometry.geometries| > 0 {
        status := MergeGeometriesAsWritten(multiGeometry);
        return;
      }
      return Completed;
    }

    /**
     * applyChange with the corrected mergeGeometries: anything but a
     * MultiGeometry (null included) is rejected with no change; the
     * geometries of a MultiGeometry that has any are merged in by id.
     */
    method ApplyChange(sourceValues: SourceValues) returns (status: Status)
      modifies this
      ensures !sourceValues.MultiGeometry? ==> status == Threw(IllegalArgument) && geometries == old(geometries)
      ensures sourceValues.MultiGeometry? ==> status == Completed
      ensures sourceValues.MultiGeometry? && |old(sourceValues.value.geometries)| == 0 ==> geometries == old(geometries)
      ensures sourceValues.MultiGeometry? ==>
                var src := old(sourceValues.value.geometries);
                geometries == Merged(old(geometries), old(geometries), src, |src|)
    {
      if !sourceValues.MultiGeometry? {
        return Threw(IllegalArgument);
      }
      var multiGeometry := sourceValues.value;
      if |multiGeometry.geometries| > 0 {
        MergeGeometries(multiGeometry);
      }
      return Completed;
    }
  }
}
