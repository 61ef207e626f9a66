/**
 * The scene tree the menu views live in, and the parts of MenuView that only
 * look at that tree: the Parent and Children lookups and the Layer and
 * SubLayer keys. The tree does not change while a scene is loaded, so the
 * lazily filled `_parent` and `_children` caches are the functions below.
 */
module SceneTree {
  import opened Optional

  /** The exact runtime type of a view, as compared by `GetType() == typeof(T)`. */
  type TypeName = string

  /** A MenuView component: its runtime type, the serialized homePageOfParent
      flag, and the instance's GetHashCode, which keys the layer of its children. */
  datatype ViewInfo = ViewInfo(kind: TypeName, homePageOfParent: bool, hash: int)

  /** A transform of the scene: the index of its parent transform (-1 for a
      top-level object) and the MenuView on its GameObject, if there is one. */
  datatype Transform = Transform(parent: int, view: Option<ViewInfo>)

  datatype Scene = Scene(nodes: seq<Transform>)

  /** The layer of views without a parent view (`default` of int). */
  const DefaultLayer: int := 0

  /** Parents are listed before their children; every view sits below some
      transform (the Parent lookup reads `transform.parent.parent`); hash codes
      of views are nonzero and pairwise distinct, so that layer keys never
      collide with each other or with DefaultLayer. */
  predicate WellFormed(s: Scene) {
    && (forall n :: 0 <= n < |s.nodes| ==> -1 <= s.nodes[n].parent < n)
    && (forall n :: 0 <= n < |s.nodes| && s.nodes[n].view.Some? ==>
          s.nodes[n].parent >= 0 && s.nodes[n].view.value.hash != DefaultLayer)
    && (forall m, n :: 0 <= m < n < |s.nodes| && s.nodes[m].view.Some? && s.nodes[n].view.Some? ==>
          s.nodes[m].view.value.hash != s.nodes[n].view.value.hash)
  }

  predicate HasView(s: Scene, n: int) {
    0 <= n < |s.nodes| && s.nodes[n].view.Some?
  }

  function Info(s: Scene, v: int): ViewInfo
    requires HasView(s, v)
  {
    s.nodes[v].view.value
  }

  /** Transform `a` lies strictly above transform `n`. */
  predicate IsProperAncestor(s: Scene, a: int, n: nat)
    requires WellFormed(s) && n < |s.nodes|
    decreases n
  {
    var p := s.nodes[n].parent;
    p >= 0 && (p == a || IsProperAncestor(s, a, p))
  }

  lemma {:induction false} AncestorIsEarlier(s: Scene, a: int, n: nat)
    requires WellFormed(s) && n < |s.nodes|
    requires IsProperAncestor(s, a, n)
    ensures 0 <= a < n
    decreases n
  {
    var p := s.nodes[n].parent;
    if p != a {
      AncestorIsEarlier(s, a, p);
    }
  }

  lemma NotOwnAncestor(s: Scene, n: nat)
    requires WellFormed(s) && n < |s.nodes|
    ensures !IsProperAncestor(s, n, n)
  {
    if IsProperAncestor(s, n, n) {
      AncestorIsEarlier(s, n, n);
    }
  }

  lemma {:induction false} AncestorTransitive(s: Scene, a: nat, b: nat, c: nat)
    requires WellFormed(s) && b < |s.nodes| && c < |s.nodes|
    requires IsProperAncestor(s, a, b) && IsProperAncestor(s, b, c)
    ensures IsProperAncestor(s, a, c)
    decreases c
  {
    var p := s.nodes[c].parent;
    if p != b {
      AncestorTransitive(s, a, b, p);
    }
  }

  /** Two transforms above the same transform lie on one path to the top. */
  lemma {:induction false} AncestorsComparable(s: Scene, a: nat, b: nat, x: nat)
    requires WellFormed(s) && a < |s.nodes| && b < |s.nodes| && x < |s.nodes|
    requires IsProperAncestor(s, a, x) && IsProperAncestor(s, b, x)
    ensures a == b || IsProperAncestor(s, a, b) || IsProperAncestor(s, b, a)
    decreases x
  {
    var p := s.nodes[x].parent;
    if a != p && b != p {
      AncestorsComparable(s, a, b, p);
    }
  }

  // ---------------------------------------------------------------- Parent

  /** The loop of the Parent getter from transform `a` upward. A transform is
      inspected only while it has a parent itself (`while (obj.parent)`); a
      well-formed scene has no view on a topmost transform, so this stop
      never changes the result (ViewAncestorFromSeesAll). */
  function ViewAncestorFrom(s: Scene, a: nat): (r: Option<nat>)
    requires WellFormed(s) && a < |s.nodes|
    ensures r.Some? ==> HasView(s, r.value) && s.nodes[r.value].parent >= 0
    ensures r.Some? ==> r.value == a || IsProperAncestor(s, r.value, a)
    decreases a
  {
    if s.nodes[a].parent < 0 then None
    else if s.nodes[a].view.Some? then Some(a)
    else ViewAncestorFrom(s, s.nodes[a].parent)
  }

  /** The Parent property: the search starts at the view's own parent transform. */
  function ParentView(s: Scene, v: nat): (r: Option<nat>)
    requires WellFormed(s) && HasView(s, v)
    ensures r.Some? ==> HasView(s, r.value) && IsProperAncestor(s, r.value, v) && r.value < v
  {
    var r := ViewAncestorFrom(s, s.nodes[v].parent);
    if r.Some? then AncestorIsEarlier(s, r.value, v); r else r
  }

  /** Every view met on the way up from `a`, short of the topmost transform,
      is the one found or lies above it: the search returns the nearest. */
  lemma {:induction false} ViewAncestorFromIsNearest(s: Scene, a: nat, x: nat)
    requires WellFormed(s) && a < |s.nodes| && x < |s.nodes|
    requires x == a || IsProperAncestor(s, x, a)
    requires HasView(s, x) && s.nodes[x].parent >= 0
    ensures ViewAncestorFrom(s, a).Some?
    ensures ViewAncestorFrom(s, a).value == x || IsProperAncestor(s, x, ViewAncestorFrom(s, a).value)
    decreases a
  {
    var p := s.nodes[a].parent;
    if p >= 0 && s.nodes[a].view.None? {
      ViewAncestorFromIsNearest(s, p, x);
    }
  }

  /** Parent yields the nearest view above `v`; it yields none only when no
      transform above `v` carries a view. */
  lemma ParentViewIsNearest(s: Scene, v: nat, x: nat)
    requires WellFormed(s) && HasView(s, v) && x < |s.nodes|
    requires HasView(s, x) && IsProperAncestor(s, x, v)
    ensures ParentView(s, v).Some?
    ensures ParentView(s, v).value == x || IsProperAncestor(s, x, ParentView(s, v).value)
  {
    ViewAncestorFromIsNearest(s, s.nodes[v].parent, x);
  }

  /** The nearest view at or above transform `a`, the topmost transform
      included: the search without the `while (obj.parent)` stop. */
  function NearestViewFrom(s: Scene, a: nat): Option<nat>
    requires WellFormed(s) && a < |s.nodes|
    decreases a
  {
    if s.nodes[a].view.Some? then Some(a)
    else if s.nodes[a].parent < 0 then None
    else NearestViewFrom(s, s.nodes[a].parent)
  }

  /** The stop below the topmost transform never changes the result: in a
      well-formed scene a transform without a parent carries no view, so
      the Parent search finds the nearest view above, wherever it is. */
  lemma {:induction false} ViewAncestorFromSeesAll(s: Scene, a: nat)
    requires WellFormed(s) && a < |s.nodes|
    ensures ViewAncestorFrom(s, a) == NearestViewFrom(s, a)
    decreases a
  {
    if s.nodes[a].parent >= 0 && s.nodes[a].view.None? {
      ViewAncestorFromSeesAll(s, s.nodes[a].parent);
    }
  }

  // -------------------------------------------------------------- Children

  /** The transforms of the subtree rooted at `n`, `n` first, each child's
      subtree in turn: the traversal order of GetComponentsInChildren. */
  function Subtree(s: Scene, n: nat): seq<nat>
    requires n < |s.nodes|
    decreases |s.nodes| - n, 0
  {
    [n] + ChildSubtrees(s, n, n + 1)
  }

  /** The subtrees of the children of `n` at index `i` or later. */
  function ChildSubtrees(s: Scene, n: nat, i: nat): seq<nat>
    requires i <= |s.nodes|
    decreases |s.nodes| - i, 1
  {
    if i == |s.nodes| then []
    else (if s.nodes[i].parent == n then Subtree(s, i) else []) + ChildSubtrees(s, n, i + 1)
  }

  lemma {:induction false} SubtreeBelow(s: Scene, n: nat)
    requires WellFormed(s) && n < |s.nodes|
    ensures forall x :: x in Subtree(s, n) ==> x == n || (x < |s.nodes| && IsProperAncestor(s, n, x))
    decreases |s.nodes| - n, 0
  {
    ChildSubtreesBelow(s, n, n + 1);
  }

  lemma {:induction false} ChildSubtreesBelow(s: Scene, n: nat, i: nat)
    requires WellFormed(s) && n < |s.nodes| && i <= |s.nodes|
    ensures forall x :: x in ChildSubtrees(s, n, i) ==> x < |s.nodes| && IsProperAncestor(s, n, x)
    decreases |s.nodes| - i, 1
  {
    if i < |s.nodes| {
      ChildSubtreesBelow(s, n, i + 1);
      if s.nodes[i].parent == n {
        SubtreeBelow(s, i);
        forall x | x in Subtree(s, i)
          ensures x < |s.nodes| && IsProperAncestor(s, n, x)
        {
          if x != i {
            AncestorTransitive(s, n, i, x);
          }
        }
      }
    }
  }

  /** The views among the transforms `ns`, in order (GetComponentsInChildren<MenuView>). */
  function ViewsAmong(s: Scene, ns: seq<nat>): (r: seq<nat>)
    ensures forall c :: c in r ==> HasView(s, c) && c in ns
  {
    if ns == [] then []
    else (if HasView(s, ns[0]) then [ns[0]] else []) + ViewsAmong(s, ns[1..])
  }

  /** The Children property: the views of the subtree of `v` in traversal
      order, with `v` itself, which heads that listing, removed. */
  function Children(s: Scene, v: nat): (r: seq<nat>)
    requires WellFormed(s) && HasView(s, v)
    ensures forall c :: c in r ==> HasView(s, c) && IsProperAncestor(s, v, c)
    ensures v !in r
  {
    ChildSubtreesBelow(s, v, v + 1);
    assert Subtree(s, v)[1..] == ChildSubtrees(s, v, v + 1);
    NotOwnAncestor(s, v);
    ViewsAmong(s, Subtree(s, v)[1..])
  }

  /** A view among the transforms `ns` is listed by ViewsAmong. */
  lemma {:induction false} ViewsAmongComplete(s: Scene, ns: seq<nat>, x: nat)
    requires x in ns && HasView(s, x)
    ensures x in ViewsAmong(s, ns)
  {
    if ns[0] != x {
      ViewsAmongComplete(s, ns[1..], x);
    }
  }

  /** The child of `n` on the path from `n` down to `x`. */
  lemma {:induction false} PathChild(s: Scene, n: nat, x: nat) returns (c: nat)
    requires WellFormed(s) && x < |s.nodes| && IsProperAncestor(s, n, x)
    ensures c < |s.nodes| && s.nodes[c].parent == n
    ensures c == x || IsProperAncestor(s, c, x)
    decreases x
  {
    var p := s.nodes[x].parent;
    if p == n {
      c := x;
    } else {
      c := PathChild(s, n, p);
    }
  }

  /** The subtree of a child `c` of `n` at index `i` or later is part of the
      listing of `n`'s child subtrees from `i`. */
  lemma {:induction false} ChildSubtreesHas(s: Scene, n: nat, i: nat, c: nat)
    requires i <= c < |s.nodes| && s.nodes[c].parent == n
    ensures forall y :: y in Subtree(s, c) ==> y in ChildSubtrees(s, n, i)
    decreases |s.nodes| - i
  {
    if i < c {
      ChildSubtreesHas(s, n, i + 1, c);
    }
  }

  /** Every transform strictly below `n` is listed among its child subtrees. */
  lemma {:induction false} InChildSubtrees(s: Scene, n: nat, x: nat)
    requires WellFormed(s) && n < |s.nodes| && x < |s.nodes| && IsProperAncestor(s, n, x)
    ensures x in ChildSubtrees(s, n, n + 1)
    decreases x - n
  {
    AncestorIsEarlier(s, n, x);
    var c := PathChild(s, n, x);
    if c != x {
      AncestorIsEarlier(s, c, x);
      InChildSubtrees(s, c, x);
      assert x in Subtree(s, c);
    } else {
      assert Subtree(s, c)[0] == x;
    }
    ChildSubtreesHas(s, n, n + 1, c);
  }

  /** Children lists every view strictly below `v`: with the Children
      contract, exactly the views below `v`. */
  lemma ChildrenComplete(s: Scene, v: nat, x: nat)
    requires WellFormed(s) && HasView(s, v) && HasView(s, x) && IsProperAncestor(s, v, x)
    ensures x in Children(s, v)
  {
    InChildSubtrees(s, v, x);
    assert Subtree(s, v)[1..] == ChildSubtrees(s, v, v + 1);
    ViewsAmongComplete(s, Subtree(s, v)[1..], x);
  }

  // ----------------------------------------------------------------- Layers

  /** The SubLayer property: the view's hash code. */
  function SubLayer(s: Scene, v: int): int
    requires HasView(s, v)
  {
    Info(s, v).hash
  }

  /** The Layer property: the SubLayer of the resolved parent, or DefaultLayer. */
  function Layer(s: Scene, v: nat): (l: int)
    requires WellFormed(s) && HasView(s, v)
    ensures l == DefaultLayer <==> ParentView(s, v).None?
  {
    match ParentView(s, v)
    case Some(p) => SubLayer(s, p)
    case None => DefaultLayer
  }

  lemma SubLayerInjective(s: Scene, m: nat, n: nat)
    requires WellFormed(s) && HasView(s, m) && HasView(s, n)
    requires SubLayer(s, m) == SubLayer(s, n)
    ensures m == n
  {
  }

  /** Layers partition the views by resolved parent: two views share a layer
      exactly when they share a parent view (or both have none). */
  lemma SameLayerIffSameParent(s: Scene, a: nat, b: nat)
    requires WellFormed(s) && HasView(s, a) && HasView(s, b)
    ensures Layer(s, a) == Layer(s, b) <==> ParentView(s, a) == ParentView(s, b)
  {
    if ParentView(s, a).Some? && ParentView(s, b).Some? && Layer(s, a) == Layer(s, b) {
      SubLayerInjective(s, ParentView(s, a).value, ParentView(s, b).value);
    }
  }

  /** A view never shares a layer with a view below it. */
  lemma DescendantInOtherLayer(s: Scene, c: nat, v: nat)
    requires WellFormed(s) && HasView(s, c) && HasView(s, v)
    requires IsProperAncestor(s, c, v)
    ensures Layer(s, v) != Layer(s, c)
  {
    ParentViewIsNearest(s, v, c);
    var pv := ParentView(s, v).value;
    assert c <= pv by {
      if pv != c {
        AncestorIsEarlier(s, c, pv);
      }
    }
    assert Layer(s, v) == SubLayer(s, pv);
    match ParentView(s, c)
    case None =>
      assert Layer(s, c) == DefaultLayer;
    case Some(q) =>
      assert q < c;
      assert Layer(s, c) == SubLayer(s, q);
      if SubLayer(s, pv) == SubLayer(s, q) {
        SubLayerInjective(s, pv, q);
      }
  }

  // -------------------------------------------------------------- Home pages

  /** The home-page search of ChangeCurrentView over `candidates`: the first
      one flagged homePageOfParent whose resolved Parent is `v`. */
  function FirstHome(s: Scene, candidates: seq<nat>, v: nat): (r: Option<nat>)
    requires WellFormed(s) && forall c :: c in candidates ==> HasView(s, c)
    ensures r.Some? ==> r.value in candidates && Info(s, r.value).homePageOfParent
    ensures r.Some? ==> ParentView(s, r.value) == Some(v)
    ensures r.None? ==> forall c :: c in candidates ==>
              !(Info(s, c).homePageOfParent && ParentView(s, c) == Some(v))
  {
    if candidates == [] then None
    else if Info(s, candidates[0]).homePageOfParent && ParentView(s, candidates[0]) == Some(v)
    then Some(candidates[0])
    else FirstHome(s, candidates[1..], v)
  }

  /** The home page found comes no later among the candidates than any
      other qualifying candidate: the search stops at the first match. */
  lemma {:induction false} FirstHomeIsFirst(s: Scene, candidates: seq<nat>, v: nat, i: nat)
    requires WellFormed(s) && (forall c :: c in candidates ==> HasView(s, c)) && i < |candidates|
    requires Info(s, candidates[i]).homePageOfParent && ParentView(s, candidates[i]) == Some(v)
    ensures FirstHome(s, candidates, v).Some?
    ensures FirstHome(s, candidates, v).value in candidates[..i + 1]
  {
    var c0 := candidates[0];
    if Info(s, c0).homePageOfParent && ParentView(s, c0) == Some(v) {
      assert candidates[..i + 1][0] == c0;
    } else {
      var tail := candidates[1..];
      assert tail[i - 1] == candidates[i];
      FirstHomeIsFirst(s, tail, v, i - 1);
      assert candidates[..i + 1] == [c0] + tail[..i];
    }
  }

  /** The home-page search, one candidate at a time. */
  lemma FirstHomeFrom(s: Scene, candidates: seq<nat>, v: nat, k: nat)
    requires WellFormed(s) && (forall c :: c in candidates ==> HasView(s, c)) && k < |candidates|
    ensures forall c :: c in candidates[k..] ==> HasView(s, c)
    ensures forall c :: c in candidates[k + 1..] ==> HasView(s, c)
    ensures FirstHome(s, candidates[k..], v)
         == if Info(s, candidates[k]).homePageOfParent && ParentView(s, candidates[k]) == Some(v)
            then Some(candidates[k]) else FirstHome(s, candidates[k + 1..], v)
  {
    assert candidates[k..][0] == candidates[k] && candidates[k..][1..] == candidates[k + 1..];
  }

  /** The home page of `v`: a view below `v` whose own Parent is `v`. */
  function HomeChild(s: Scene, v: nat): (r: Option<nat>)
    requires WellFormed(s) && HasView(s, v)
    ensures r.Some? ==> HasView(s, r.value) && Info(s, r.value).homePageOfParent
    ensures r.Some? ==> ParentView(s, r.value) == Some(v) && v < r.value
    ensures r.Some? ==> Layer(s, r.value) == SubLayer(s, v)
  {
    FirstHome(s, Children(s, v), v)
  }
}
