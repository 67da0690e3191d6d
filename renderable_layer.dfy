/**
 * gov.nasa.worldwind.layers.RenderableLayer: a layer holding a queue of
 * renderables. It listens to the property changes of every renderable that is
 * an AVList while that renderable is in the queue, and disposes the
 * disposable ones when it is disposed.
 */
module RenderableLayers {
  import opened JavaLang

  /**
   * A renderable, compared by value as the queue's equals does: an identity
   * and whether it is an AVList (it takes property change listeners) and a
   * Disposable.
   */
  datatype Renderable = Renderable(id: nat, isAVList: bool, isDisposable: bool)

  /** The AVList elements of s, counted with their repetitions. */
  function AVLists(s: seq<Renderable>): multiset<Renderable>
    decreases |s|
  {
    if |s| == 0 then multiset{}
    else AVLists(s[..|s| - 1]) + (if s[|s| - 1].isAVList then multiset{s[|s| - 1]} else multiset{})
  }

  /** The Disposable elements of s, in order. */
  function Disposables(s: seq<Renderable>): seq<Renderable>
    decreases |s|
  {
    if |s| == 0 then []
    else Disposables(s[..|s| - 1]) + (if s[|s| - 1].isDisposable then [s[|s| - 1]] else [])
  }

  /** The non-null elements of s, in order. */
  function NonNull(s: seq<Option<Renderable>>): seq<Renderable>
    decreases |s|
  {
    if |s| == 0 then []
    else NonNull(s[..|s| - 1]) + (if s[|s| - 1].Some? then [s[|s| - 1].value] else [])
  }

  /** The AVList elements of a concatenation are those of its parts. */
  lemma {:induction false} AVListsAppend(s: seq<Renderable>, t: seq<Renderable>)
    ensures AVLists(s + t) == AVLists(s) + AVLists(t)
    decreases |t|
  {
    if |t| > 0 {
      var t', x := t[..|t| - 1], t[|t| - 1];
      assert t == t' + [x];
      assert s + t == (s + t') + [x];
      AVListsAppend(s, t');
      AVListsSnoc(s + t', x);
      AVListsSnoc(t', x);
    } else {
      assert s + t == s;
    }
  }

  /** Appending one renderable adds it to the AVList elements when it is one. */
  lemma AVListsSnoc(s: seq<Renderable>, x: Renderable)
    ensures AVLists(s + [x]) == AVLists(s) + (if x.isAVList then multiset{x} else multiset{})
  {
    assert (s + [x])[..|s|] == s;
  }

  /** Every AVList element s holds is one of s's elements, and every AVList element is held. */
  lemma {:induction false} AVListsMembers(s: seq<Renderable>, x: Renderable)
    ensures x in AVLists(s) <==> x in s && x.isAVList
    decreases |s|
  {
    if |s| > 0 {
      var s' := s[..|s| - 1];
      AVListsMembers(s', x);
      assert s == s' + [s[|s| - 1]];
    }
  }

  /** Removing the first x takes exactly one x out of the queue's contents. */
  lemma RemoveFirstTakesOne(s: seq<Renderable>, x: Renderable)
    requires x in s
    ensures multiset(RemoveFirst(s, x)) == multiset(s) - multiset{x}
  {
    var k := IndexOf(s, x);
    assert s == s[..k] + [x] + s[k + 1..];
  }

  /** Removing the first x from s takes x, once, out of s's AVList elements when x is one. */
  lemma RemoveFirstAVLists(s: seq<Renderable>, x: Renderable)
    requires x in s
    ensures AVLists(RemoveFirst(s, x)) == AVLists(s) - (if x.isAVList then multiset{x} else multiset{})
  {
    var k := IndexOf(s, x);
    assert s == s[..k] + [x] + s[k + 1..];
    AVListsAppend(s[..k] + [x], s[k + 1..]);
    AVListsAppend(s[..k], [x]);
    AVListsAppend(s[..k], s[k + 1..]);
    assert AVLists([x]) == AVLists([]) + (if x.isAVList then multiset{x} else multiset{});
  }

  /** Adding a renderable and then removing it leaves the queue as it was, when it was not queued before. */
  lemma AddThenRemove(s: seq<Renderable>, x: Renderable)
    requires x !in s
    ensures RemoveFirst(s + [x], x) == s
  {
    assert x in s + [x];
    var k := IndexOf(s + [x], x);
    assert k == |s|;
    assert (s + [x])[..|s|] == s;
  }

  /** Taking the AVList elements of s[..i] and then s[i] out of l takes those of s[..i + 1]. */
  lemma UnlistenStep(l: multiset<Renderable>, s: seq<Renderable>, i: nat)
    requires i < |s|
    ensures l - AVLists(s[..i + 1]) == l - AVLists(s[..i]) - (if s[i].isAVList then multiset{s[i]} else multiset{})
  {
    assert s[..i + 1] == s[..i] + [s[i]];
    AVListsSnoc(s[..i], s[i]);
  }

  /** The registrations left in l once each AVList element of s, in order, has been unregistered once. */
  method Unlisten(l: multiset<Renderable>, s: seq<Renderable>) returns (r: multiset<Renderable>)
    ensures r == l - AVLists(s)
  {
    r := l;
    var i := 0;
    while i < |s|
      invariant 0 <= i <= |s|
      invariant r == l - AVLists(s[..i])
    {
      UnlistenStep(l, s, i);
      if s[i].isAVList {
        r := r - multiset{s[i]};
      }
      i := i + 1;
    }
    assert s[..i] == s;
  }

  class RenderableLayer {
    /** The queue of renderables, in insertion order. */
    var renderables: seq<Renderable>
    /** The renderables this layer listens to, once per registration. */
    var listeningTo: multiset<Renderable>
    /** The renderables whose dispose this layer called, in call order. */
    var disposed: seq<Renderable>

    /** The layer listens to exactly its AVList renderables, once per occurrence in the queue. */
    predicate Valid()
      reads this
    {
      listeningTo == AVLists(renderables)
    }

    constructor ()
      ensures Valid() && renderables == [] && disposed == []
    {
      renderables := [];
      listeningTo := multiset{};
      disposed := [];
    }

    /** The number of renderables the layer holds. */
    function GetNumRenderables(): (r: int)
      reads this
      ensures r == |renderables|
    {
      |renderables|
    }

    /**
     * Appends a renderable and, when it is an AVList, listens to it. A null
     * renderable is rejected.
     */
    method AddRenderable(renderable: Option<Renderable>) returns (status: Status)
      requires Valid()
      modifies this
      ensures Valid() && disposed == old(disposed)
      ensures renderable.None? ==> status == Threw(IllegalArgument) && unchanged(this)
      ensures renderable.Some? ==> status == Completed && renderables == old(renderables) + [renderable.value]
      ensures renderable.Some? ==>
                listeningTo == old(listeningTo) + (if renderable.value.isAVList then multiset{renderable.value} else multiset{})
    {
      if renderable.None? {
        return Threw(IllegalArgument);
      }
      var x := renderable.value;
      AVListsSnoc(renderables, x);
      renderables := renderables + [x];
      if x.isAVList {
        listeningTo := listeningTo + multiset{x};
      }
      return Completed;
    }

    /**
     * Appends the non-null elements of an iterable, in order, listening to
     * the AVList ones. A null iterable is rejected.
     */
    method AddAllRenderables(items: Option<seq<Option<Renderable>>>) returns (status: Status)
      requires Valid()
      modifies this
      ensures Valid() && disposed == old(disposed)
      ensures items.None? ==> status == Threw(IllegalArgument) && unchanged(this)
      ensures items.Some? ==> status == Completed && renderables == old(renderables) + NonNull(items.value)
      ensures items.Some? ==> listeningTo == old(listeningTo) + AVLists(NonNull(items.value))
    {
      if items.None? {
        return Threw(IllegalArgument);
      }
      var s := items.value;
      ghost var r0 := renderables;
      var i := 0;
      while i < |s|
        invariant 0 <= i <= |s|
        invariant renderables == r0 + NonNull(s[..i])
        invariant Valid() && disposed == old(disposed)
      {
        assert s[..i + 1][..i] == s[..i];
        if s[i].Some? {
          var _ := AddRenderable(s[i]);
        }
        i := i + 1;
      }
      assert s[..i] == s;
      AVListsAppend(r0, NonNull(s));
      return Completed;
    }

    /**
     * Removes the first occurrence of a renderable and, when one was removed
     * and it is an AVList, stops listening to it once. A null renderable is
     * rejected.
     */
    method RemoveRenderable(renderable: Option<Renderable>) returns (status: Status)
      requires Valid()
      modifies this
      ensures Valid() && disposed == old(disposed)
      ensures renderable.None? ==> status == Threw(IllegalArgument) && unchanged(this)
      ensures renderable.Some? ==> status == Completed && renderables == RemoveFirst(old(renderables), renderable.value)
      ensures renderable.Some? && renderable.value in old(renderables) && renderable.value.isAVList ==>
                listeningTo == old(listeningTo) - multiset{renderable.value}
      ensures renderable.Some? && (renderable.value !in old(renderables) || !renderable.value.isAVList) ==>
                listeningTo == old(listeningTo)
    {
      if renderable.None? {
        return Threw(IllegalArgument);
      }
      var x := renderable.value;
      var removed := x in renderables;
      if removed {
        RemoveFirstAVLists(renderables, x);
        renderables := RemoveFirst(renderables, x);
        if x.isAVList {
          listeningTo := listeningTo - multiset{x};
        }
      }
      return Completed;
    }

    /** Stops listening to every AVList renderable, once per occurrence, then empties the queue. */
    method RemoveAllRenderables()
      modifies this
      ensures renderables == [] && disposed == old(disposed)
      ensures listeningTo == old(listeningTo) - AVLists(old(renderables))
      ensures old(Valid()) ==> Valid() && listeningTo == multiset{}
    {
      var l := Unlisten(listeningTo, renderables);
      listeningTo, renderables := l, [];
    }

    /**
     * Calls dispose on every Disposable renderable, in queue order, going on
     * past any that throws, then removes all renderables.
     */
    method Dispose()
      modifies this
      ensures disposed == old(disposed) + Disposables(old(renderables))
      ensures renderables == [] && listeningTo == old(listeningTo) - AVLists(old(renderables))
      ensures old(Valid()) ==> Valid() && listeningTo == multiset{}
    {
      var s := renderables;
      var i := 0;
      while i < |s|
        invariant 0 <= i <= |s|
        invariant renderables == s && listeningTo == old(listeningTo)
        invariant disposed == old(disposed) + Disposables(s[..i])
      {
        assert s[..i + 1][..i] == s[..i];
        if s[i].isDisposable {
          disposed := disposed + [s[i]];
        }
        i := i + 1;
      }
      assert s[..i] == s;
      RemoveAllRenderables();
    }
  }
}
