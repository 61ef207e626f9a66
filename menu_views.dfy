/**
 * The static state of MenuView for one loaded scene, as an object: the
 * registry `_views`, the `_enabled` flag of every view, the `LastViews`
 * history and the error log. Each engine method is proved to leave exactly
 * the state that the functions of module Transitions describe, so the lemmas
 * there say what the methods do.
 */
module MenuViews {
  import opened Optional
  import opened SceneTree
  import opened Transitions

  class MenuViews {
    /** The loaded scene (its transforms do not change while it is loaded). */
    const scene: Scene
    /** `_views`, as FindObjectsOfType returned it. */
    const views: seq<nat>
    /** The `_enabled` field of the view on each transform. */
    var enabled: seq<bool>
    /** `LastViews`: per layer, the view that was current before the last change. */
    var lastViews: map<int, nat>
    /** The messages passed to Debug.LogError, oldest first. */
    var errors: seq<string>

    /** What the lookups need: a well-formed scene, a registry of its views
        and a flag per transform. */
    predicate Loaded()
      reads this
    {
      WellFormed(scene) && AllViews(scene, views) && |enabled| == |scene.nodes|
    }

    /** The invariant of the engine: the registry holds every view exactly
        once and every history entry is a view of its own layer. */
    ghost predicate Valid()
      reads this
    {
      && Loaded()
      && ValidRegistry(scene, views)
      && HistoryInLayers(scene, lastViews)
    }

    /** The one startup fill of `_views` from `found`, made by InitMenus after
        the first scene loads: no `_enabled` field has been set yet and the
        static `LastViews` is still empty. */
    constructor Load(s: Scene, found: seq<nat>)
      requires ValidRegistry(s, found)
      ensures Valid()
      ensures scene == s && views == found
      ensures |enabled| == |s.nodes| && forall v :: 0 <= v < |enabled| ==> !enabled[v]
      ensures lastViews == map[] && errors == []
    {
      scene := s;
      views := found;
      enabled := seq(|s.nodes|, _ => false);
      lastViews := map[];
      errors := [];
    }

    // ---------------------------------------------------------- Lookups

    /** The Parent getter: walk up from the parent transform, stopping below
        the topmost transform, and return the first view met. */
    method Parent(v: nat) returns (r: Option<nat>)
      requires Loaded() && HasView(scene, v)
      ensures r == ParentView(scene, v)
    {
      var obj := scene.nodes[v].parent;
      while scene.nodes[obj].parent >= 0
        invariant 0 <= obj < |scene.nodes|
        invariant ViewAncestorFrom(scene, obj) == ParentView(scene, v)
        decreases obj
      {
        if HasView(scene, obj) {
          return Some(obj);
        }
        obj := scene.nodes[obj].parent;
      }
      return None;
    }

    /** The Layer getter. */
    method GetLayer(v: nat) returns (l: int)
      requires Loaded() && HasView(scene, v)
      ensures l == Layer(scene, v)
    {
      var p := Parent(v);
      l := if p.Some? then SubLayer(scene, p.value) else DefaultLayer;
    }

    /** The LastView property of view `v`: the history entry of its layer. */
    function LastView(v: nat): (r: Option<nat>)
      reads this
      requires Valid() && HasView(scene, v)
      ensures r.Some? <==> Layer(scene, v) in lastViews
      ensures r.Some? ==> InLayer(scene, r.value, Layer(scene, v))
    {
      var l := Layer(scene, v);
      if l in lastViews then Some(lastViews[l]) else None
    }

    /** GetCurrentView(layer): the registry scan for an enabled view of `layer`. */
    method GetCurrentView(layer: int) returns (r: Option<nat>)
      requires Loaded()
      ensures r == CurrentView(scene, views, enabled, layer)
    {
      var k := 0;
      while k < |views|
        invariant 0 <= k <= |views|
        invariant AllViews(scene, views[k..])
        invariant CurrentView(scene, views[k..], enabled, layer) == CurrentView(scene, views, enabled, layer)
      {
        var view := views[k];
        CurrentViewFrom(scene, views, enabled, layer, k);
        var l := GetLayer(view);
        if enabled[view] && l == layer {
          return Some(view);
        }
        k := k + 1;
      }
      return None;
    }

    /** The instance GetCurrentView(): the current view of the layer of `v`. */
    method GetCurrentViewOf(v: nat) returns (r: Option<nat>)
      requires Loaded() && HasView(scene, v)
      ensures r == CurrentView(scene, views, enabled, Layer(scene, v))
    {
      var l := GetLayer(v);
      r := GetCurrentView(l);
    }

    /** The home-page search over the Children of `v`. */
    method FindHomePage(v: nat) returns (r: Option<nat>)
      requires Loaded() && HasView(scene, v)
      ensures r == HomeChild(scene, v)
    {
      var children := Children(scene, v);
      var k := 0;
      while k < |children|
        invariant 0 <= k <= |children|
        invariant forall c :: c in children[k..] ==> HasView(scene, c)
        invariant FirstHome(scene, children[k..], v) == FirstHome(scene, children, v)
      {
        var c := children[k];
        FirstHomeFrom(scene, children, v, k);
        if Info(scene, c).homePageOfParent {
          var p := Parent(c);
          if p == Some(v) {
            return Some(c);
          }
        }
        k := k + 1;
      }
      return None;
    }

    /** The registry scan of the generic calls: the first view whose exact
        type is `kind`. */
    method FindView(kind: TypeName) returns (r: Option<nat>)
      requires Loaded()
      ensures r == FirstOfType(scene, views, kind)
    {
      var k := 0;
      while k < |views|
        invariant 0 <= k <= |views|
        invariant AllViews(scene, views[k..])
        invariant FirstOfType(scene, views[k..], kind) == FirstOfType(scene, views, kind)
      {
        var view := views[k];
        assert views[k..][0] == view && views[k..][1..] == views[k + 1..];
        if Info(scene, view).kind == kind {
          return Some(view);
        }
        k := k + 1;
      }
      return None;
    }

    // ------------------------------------------------------ Transitions

    /** ChangeCurrentView(toMenuType, layer): record the current view of
        `layer` as its last view when it is not the target, then sweep the
        registry: every view of `layer` is enabled exactly when it is the
        target, and on meeting the target its home page is changed to. */
    method ChangeCurrentView(target: nat, layer: int)
      requires Valid() && HasView(scene, target)
      modifies this
      ensures Valid() && errors == old(errors)
      ensures enabled == EnabledAfter(scene, old(enabled), Steps(scene, target, layer))
      ensures lastViews == HistoryAfter(scene, views, old(enabled), old(lastViews), Steps(scene, target, layer))
      decreases |scene.nodes| - target, 1
    {
      ghost var en0 := enabled;
      ghost var last0 := lastViews;
      RecordCurrent(target, layer);
      ghost var recursed := false;
      Registered(scene, views, target);
      ghost var tpos :| 0 <= tpos < |views| && views[tpos] == target;
      SweepStarts(scene, views, en0, last0, target, layer, tpos, lastViews);
      var k := 0;
      while k < |views|
        invariant 0 <= k <= |views|
        invariant Valid() && errors == old(errors)
        invariant Swept(scene, views, en0, last0, target, layer, tpos, k, recursed, enabled, lastViews)
      {
        recursed := SweepVisit(target, layer, k, en0, last0, tpos, recursed);
        k := k + 1;
      }
      SweepEnds(scene, views, en0, last0, target, layer, tpos, recursed, enabled, lastViews);
    }

    /** The history step of ChangeCurrentView: the current view of `layer`,
        when there is one and it is not `target`, becomes its last view. */
    method RecordCurrent(target: nat, layer: int)
      requires Valid()
      modifies this
      ensures Valid() && enabled == old(enabled) && errors == old(errors)
      ensures lastViews == Record(scene, views, old(enabled), old(lastViews), Step(target, layer))
    {
      var current := GetCurrentView(layer);
      if current.Some? && current.value != target {
        lastViews := lastViews[layer := current.value];
      }
      RecordInLayers(scene, views, enabled, old(lastViews), Step(target, layer));
    }

    /** One turn of the sweep of ChangeCurrentView: the view at `views[k]`
        is enabled exactly when it is the target, if it is in `layer`; on
        meeting the target, its home page is changed to. */
    method SweepVisit(target: nat, layer: int, k: nat, ghost en0: seq<bool>, ghost last0: map<int, nat>,
                      ghost tpos: nat, ghost recursed: bool)
      returns (ghost recursed': bool)
      requires Valid() && HasView(scene, target) && k < |views| && |en0| == |scene.nodes|
      requires tpos < |views| && views[tpos] == target
      requires Swept(scene, views, en0, last0, target, layer, tpos, k, recursed, enabled, lastViews)
      modifies this
      ensures Valid() && errors == old(errors)
      ensures Swept(scene, views, en0, last0, target, layer, tpos, k + 1, recursed', enabled, lastViews)
      decreases |scene.nodes| - target, 0
    {
      recursed' := recursed;
      var view := views[k];
      var l := GetLayer(view);
      if l == layer {
        ghost var enBefore := enabled;
        enabled := enabled[view := view == target];
        if view == target {
          var home := FindHomePage(view);
          if home.Some? {
            assert tpos == k;
            SweepRecurses(scene, views, en0, last0, target, layer, k, enBefore, lastViews, home.value);
            ChangeToThisView(home.value);
            recursed' := true;
          } else {
            SweepSets(scene, views, en0, last0, target, layer, tpos, k, recursed, enBefore, lastViews);
          }
        } else {
          SweepSets(scene, views, en0, last0, target, layer, tpos, k, recursed, enBefore, lastViews);
        }
      } else {
        SweepPassesOver(scene, views, en0, last0, target, layer, tpos, k, recursed, enabled, lastViews);
      }
    }

    /** ChangeToThisView: change to `v` in its own layer. */
    method ChangeToThisView(v: nat)
      requires Valid() && HasView(scene, v)
      modifies this
      ensures Valid() && errors == old(errors)
      ensures enabled == EnabledAfter(scene, old(enabled), Steps(scene, v, Layer(scene, v)))
      ensures lastViews == HistoryAfter(scene, views, old(enabled), old(lastViews), Steps(scene, v, Layer(scene, v)))
      decreases |scene.nodes| - v, 2
    {
      var l := GetLayer(v);
      ChangeCurrentView(v, l);
    }

    /** ChangeToLastView(layer): change back to the recorded view of `layer`,
        if there is one. */
    method ChangeToLastView(layer: int)
      requires Valid()
      modifies this
      ensures Valid() && errors == old(errors)
      ensures layer !in old(lastViews) ==> enabled == old(enabled) && lastViews == old(lastViews)
      ensures layer in old(lastViews) ==>
        var back := Steps(scene, old(lastViews)[layer], layer);
        && enabled == EnabledAfter(scene, old(enabled), back)
        && lastViews == HistoryAfter(scene, views, old(enabled), old(lastViews), back)
    {
      if layer !in lastViews {
        return;
      }
      ChangeToThisView(lastViews[layer]);
    }

    /** The instance ChangeToLastView(): go back in the layer of `v`. */
    method ChangeToLastViewOf(v: nat)
      requires Valid() && HasView(scene, v)
      modifies this
      ensures Valid() && errors == old(errors)
      ensures Layer(scene, v) !in old(lastViews) ==> enabled == old(enabled) && lastViews == old(lastViews)
      ensures Layer(scene, v) in old(lastViews) ==>
        var back := Steps(scene, old(lastViews)[Layer(scene, v)], Layer(scene, v));
        && enabled == EnabledAfter(scene, old(enabled), back)
        && lastViews == HistoryAfter(scene, views, old(enabled), old(lastViews), back)
    {
      var l := GetLayer(v);
      ChangeToLastView(l);
    }

    /** CloseThisView: clear the Enabled flag of `v`. */
    method CloseThisView(v: nat)
      requires Valid() && HasView(scene, v)
      modifies this
      ensures Valid() && errors == old(errors) && lastViews == old(lastViews)
      ensures enabled == old(enabled)[v := false]
    {
      enabled := enabled[v := false];
    }

    /** CloseAll(layer): close every view of `layer`. */
    method CloseAll(layer: int)
      requires Valid()
      modifies this
      ensures Valid() && errors == old(errors) && lastViews == old(lastViews)
      ensures enabled == ClosedLayer(scene, old(enabled), layer)
    {
      ghost var en0 := enabled;
      var k := 0;
      while k < |views|
        invariant 0 <= k <= |views|
        invariant Valid() && errors == old(errors) && lastViews == old(lastViews)
        invariant forall v :: 0 <= v < |scene.nodes| ==>
                    enabled[v] == if HasView(scene, v) && Layer(scene, v) == layer && v in views[..k] then false else en0[v]
      {
        var view := views[k];
        assert views[..k + 1] == views[..k] + [view];
        var l := GetLayer(view);
        if l == layer {
          CloseThisView(view);
        }
        k := k + 1;
      }
      forall v | 0 <= v < |scene.nodes| && HasView(scene, v) && Layer(scene, v) == layer
        ensures !enabled[v]
      {
        Registered(scene, views, v);
        assert views[..k] == views;
      }
    }

    /** The instance CloseAll(): close every view of the layer of `v`. */
    method CloseAllOf(v: nat)
      requires Valid() && HasView(scene, v)
      modifies this
      ensures Valid() && errors == old(errors) && lastViews == old(lastViews)
      ensures enabled == ClosedLayer(scene, old(enabled), Layer(scene, v))
    {
      var l := GetLayer(v);
      CloseAll(l);
    }

    // ------------------------------------------------ Calls by view type

    /** ChangeCurrentView<T>: change to the first view of type `kind`, or log
        that there is none. */
    method ChangeCurrentViewOfType(kind: TypeName)
      requires Valid()
      modifies this
      ensures Valid()
      ensures match FirstOfType(scene, views, kind)
        case Some(v) =>
          && enabled == EnabledAfter(scene, old(enabled), Steps(scene, v, Layer(scene, v)))
          && lastViews == HistoryAfter(scene, views, old(enabled), old(lastViews), Steps(scene, v, Layer(scene, v)))
          && errors == old(errors)
        case None =>
          enabled == old(enabled) && lastViews == old(lastViews) && errors == old(errors) + [NotFound(kind)]
    {
      var found := FindView(kind);
      if found.Some? {
        ChangeToThisView(found.value);
        return;
      }
      errors := errors + [NotFound(kind)];
    }

    /** CloseView<T>: close the first view of type `kind`, or log that there
        is none. */
    method CloseViewOfType(kind: TypeName)
      requires Valid()
      modifies this
      ensures Valid() && lastViews == old(lastViews)
      ensures match FirstOfType(scene, views, kind)
        case Some(v) => enabled == old(enabled)[v := false] && errors == old(errors)
        case None => enabled == old(enabled) && errors == old(errors) + [NotFound(kind)]
    {
      var found := FindView(kind);
      if found.Some? {
        CloseThisView(found.value);
        return;
      }
      errors := errors + [NotFound(kind)];
    }

    /** GetView<T>: the first view of type `kind`; null, with an error logged,
        when there is none. */
    method GetViewOfType(kind: TypeName) returns (r: Option<nat>)
      requires Valid()
      modifies this
      ensures Valid() && enabled == old(enabled) && lastViews == old(lastViews)
      ensures r == FirstOfType(scene, views, kind)
      ensures errors == if r.Some? then old(errors) else old(errors) + [NotFound(kind)]
    {
      r := FindView(kind);
      if r.None? {
        errors := errors + [NotFound(kind)];
      }
    }

    // ----------------------------------------------------------- Startup

    /** InitMenus after the registry is filled: change to the first view that
        has no parent view and is flagged homePageOfParent. */
    method InitMenus()
      requires Valid()
      modifies this
      ensures Valid() && errors == old(errors)
      ensures match FirstRootHome(scene, views)
        case Some(r) =>
          && enabled == EnabledAfter(scene, old(enabled), Steps(scene, r, Layer(scene, r)))
          && lastViews == HistoryAfter(scene, views, old(enabled), old(lastViews), Steps(scene, r, Layer(scene, r)))
        case None => enabled == old(enabled) && lastViews == old(lastViews)
    {
      var k := 0;
      while k < |views|
        invariant 0 <= k <= |views|
        invariant AllViews(scene, views[k..])
        invariant FirstRootHome(scene, views[k..]) == FirstRootHome(scene, views)
        invariant Valid() && enabled == old(enabled) && lastViews == old(lastViews) && errors == old(errors)
      {
        var view := views[k];
        assert views[k..][0] == view && views[k..][1..] == views[k + 1..];
        var p := Parent(view);
        if p.None? && Info(scene, view).homePageOfParent {
          ChangeToThisView(view);
          return;
        }
        k := k + 1;
      }
    }
  }

  /** The message Debug.LogError receives when no view has type `kind`. */
  function NotFound(kind: TypeName): (m: string)
    ensures |m| == |kind| + 16 && m[10..10 + |kind|] == kind
  {
    "Not found " + kind + " view."
  }
}
