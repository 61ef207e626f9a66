/**
 * The transition engine of MenuView stated as functions of the state it
 * changes: the Enabled flag of every view and the LastViews history. The
 * methods of MenuViews.MenuViews are proved to produce exactly these states;
 * the lemmas here say what the states mean.
 */
module Transitions {
  import opened Optional
  import opened SceneTree

  predicate AllViews(s: Scene, reg: seq<nat>) {
    forall i :: 0 <= i < |reg| ==> HasView(s, reg[i])
  }

  /** `_views` as InitMenus fills it: every view of the scene exactly once
      (FindObjectsOfType with includeInactive also finds disabled views). */
  ghost predicate ValidRegistry(s: Scene, reg: seq<nat>) {
    && WellFormed(s)
    && AllViews(s, reg)
    && (forall i, j :: 0 <= i < j < |reg| ==> reg[i] != reg[j])
    && (forall v :: v in ViewSet(s) ==> v in reg)
  }

  /** The views of the scene. */
  function ViewSet(s: Scene): set<nat> {
    set v: nat | v < |s.nodes| && HasView(s, v)
  }

  /** Every view of the scene is registered. */
  lemma Registered(s: Scene, reg: seq<nat>, v: nat)
    requires ValidRegistry(s, reg) && HasView(s, v)
    ensures v in reg
  {
    assert v in ViewSet(s);
  }

  predicate InLayer(s: Scene, v: nat, layer: int)
    requires WellFormed(s)
  {
    HasView(s, v) && Layer(s, v) == layer
  }

  /** GetCurrentView(layer): the first registered view that is enabled and in
      `layer`, in registry order; none when the layer has no enabled view. */
  function CurrentView(s: Scene, reg: seq<nat>, en: seq<bool>, layer: int): (r: Option<nat>)
    requires WellFormed(s) && |en| == |s.nodes| && AllViews(s, reg)
    ensures r.Some? ==> r.value in reg && HasView(s, r.value) && en[r.value] && Layer(s, r.value) == layer
    ensures r.None? <==> forall i :: 0 <= i < |reg| ==> !(en[reg[i]] && Layer(s, reg[i]) == layer)
  {
    if reg == [] then None
    else if en[reg[0]] && Layer(s, reg[0]) == layer then Some(reg[0])
    else
      var r := CurrentView(s, reg[1..], en, layer);
      assert forall i :: 1 <= i < |reg| ==> reg[i] == reg[1..][i - 1];
      r
  }

  /** The current view comes no later in the registry than any enabled view
      of the layer: the scan returns the first one. */
  lemma {:induction false} CurrentViewIsFirst(s: Scene, reg: seq<nat>, en: seq<bool>, layer: int, i: nat)
    requires WellFormed(s) && |en| == |s.nodes| && AllViews(s, reg)
    requires i < |reg| && en[reg[i]] && Layer(s, reg[i]) == layer
    ensures CurrentView(s, reg, en, layer).Some?
    ensures CurrentView(s, reg, en, layer).value in reg[..i + 1]
  {
    if en[reg[0]] && Layer(s, reg[0]) == layer {
      assert reg[..i + 1][0] == reg[0];
    } else {
      var tail := reg[1..];
      assert AllViews(s, tail);
      assert tail[i - 1] == reg[i];
      CurrentViewIsFirst(s, tail, en, layer, i - 1);
      assert reg[..i + 1] == [reg[0]] + tail[..i];
    }
  }

  /** The registry scan of GetCurrentView, one element at a time. */
  lemma CurrentViewFrom(s: Scene, reg: seq<nat>, en: seq<bool>, layer: int, k: nat)
    requires WellFormed(s) && |en| == |s.nodes| && AllViews(s, reg) && k < |reg|
    ensures AllViews(s, reg[k..]) && AllViews(s, reg[k + 1..])
    ensures CurrentView(s, reg[k..], en, layer)
         == if en[reg[k]] && Layer(s, reg[k]) == layer then Some(reg[k]) else CurrentView(s, reg[k + 1..], en, layer)
  {
    assert reg[k..][0] == reg[k] && reg[k..][1..] == reg[k + 1..];
  }

  /** GetCurrentView looks at the Enabled flags of the views of `layer` only. */
  lemma {:induction false} CurrentViewFrame(s: Scene, reg: seq<nat>, enA: seq<bool>, enB: seq<bool>, layer: int)
    requires WellFormed(s) && |enA| == |s.nodes| && |enB| == |s.nodes| && AllViews(s, reg)
    requires forall v :: HasView(s, v) && Layer(s, v) == layer ==> enA[v] == enB[v]
    ensures CurrentView(s, reg, enA, layer) == CurrentView(s, reg, enB, layer)
  {
    if reg != [] {
      assert AllViews(s, reg[1..]);
      CurrentViewFrame(s, reg[1..], enA, enB, layer);
      var v := reg[0];
      assert HasView(s, v);
      if Layer(s, v) == layer {
        assert enA[v] == enB[v];
      }
    }
  }

  /** A registered view that is the only enabled view of its layer is that
      layer's current view. */
  lemma SoleEnabledIsCurrent(s: Scene, reg: seq<nat>, en: seq<bool>, x: nat, layer: int)
    requires ValidRegistry(s, reg) && |en| == |s.nodes|
    requires InLayer(s, x, layer)
    requires forall v :: HasView(s, v) && Layer(s, v) == layer ==> en[v] == (v == x)
    ensures CurrentView(s, reg, en, layer) == Some(x)
  {
    Registered(s, reg, x);
    var i :| 0 <= i < |reg| && reg[i] == x;
    assert en[reg[i]] && Layer(s, reg[i]) == layer;
  }

  /** At most one view per layer is enabled. */
  ghost predicate AtMostOneEnabledPerLayer(s: Scene, en: seq<bool>)
    requires WellFormed(s) && |en| == |s.nodes|
  {
    forall v, w :: HasView(s, v) && HasView(s, w) && en[v] && en[w] && Layer(s, v) == Layer(s, w) ==> v == w
  }

  // ------------------------------------------------------------ Activations

  /** One activation: `view` becomes the enabled view of `layer`. */
  datatype Step = Step(view: nat, layer: int)

  /** The activations ChangeCurrentView(target, layer) performs: the target's
      own in `layer`, then, when the target is a view of `layer` that has a
      home page, the activations of that home page in its own layer. */
  function Steps(s: Scene, target: nat, layer: int): seq<Step>
    requires WellFormed(s) && target < |s.nodes|
    decreases |s.nodes| - target
  {
    [Step(target, layer)] +
    (if InLayer(s, target, layer) && HomeChild(s, target).Some?
     then Steps(s, HomeChild(s, target).value, Layer(s, HomeChild(s, target).value))
     else [])
  }

  predicate DistinctLayers(steps: seq<Step>) {
    forall i, j :: 0 <= i < j < |steps| ==> steps[i].layer != steps[j].layer
  }

  /** The view an activation of `steps` enables in `layer`, if one touches it. */
  function TargetAt(steps: seq<Step>, layer: int): (r: Option<nat>)
    ensures r.Some? ==> Step(r.value, layer) in steps
    ensures r.None? <==> forall i :: 0 <= i < |steps| ==> steps[i].layer != layer
  {
    if steps == [] then None
    else if steps[0].layer == layer then Some(steps[0].view)
    else
      var r := TargetAt(steps[1..], layer);
      assert forall i :: 1 <= i < |steps| ==> steps[i] == steps[1..][i - 1];
      r
  }

  lemma {:induction false} TargetAtDistinct(steps: seq<Step>, i: nat)
    requires DistinctLayers(steps) && i < |steps|
    ensures TargetAt(steps, steps[i].layer) == Some(steps[i].view)
  {
    if i > 0 {
      assert steps[0].layer != steps[i].layer;
      assert steps[1..][i - 1] == steps[i];
      TargetAtDistinct(steps[1..], i - 1);
    }
  }

  /** A view lying at or below `t` does not key the layer of `t`. */
  lemma LayerNotKeyedFromBelow(s: Scene, t: nat, y: nat)
    requires WellFormed(s) && HasView(s, t) && HasView(s, y)
    requires y == t || IsProperAncestor(s, t, y)
    ensures Layer(s, t) != SubLayer(s, y)
  {
    if y != t {
      AncestorIsEarlier(s, t, y);
    }
    if ParentView(s, t).Some? && Layer(s, t) == SubLayer(s, y) {
      SubLayerInjective(s, ParentView(s, t).value, y);
    }
  }

  /** The chain starts with the request itself and continues, when the
      target is a view of `layer` with a home page, with that page's chain. */
  lemma StepsUnfold(s: Scene, t: nat, layer: int)
    requires WellFormed(s) && t < |s.nodes|
    ensures var st := Steps(s, t, layer);
      && st[0] == Step(t, layer)
      && (|st| > 1 <==> InLayer(s, t, layer) && HomeChild(s, t).Some?)
      && (|st| > 1 ==> st[1..] == Steps(s, HomeChild(s, t).value, Layer(s, HomeChild(s, t).value)))
  {
    var st := Steps(s, t, layer);
    if InLayer(s, t, layer) && HomeChild(s, t).Some? {
      var h := HomeChild(s, t).value;
      assert st == [Step(t, layer)] + Steps(s, h, Layer(s, h));
    }
  }

  /** Each further activation is the home page of the one before, in that
      view's sub-layer, and the chain stops at a view without a home page. */
  lemma {:induction false} StepsFollowHomePages(s: Scene, t: nat, layer: int)
    requires WellFormed(s) && t < |s.nodes|
    ensures var st := Steps(s, t, layer);
      && (forall i :: 0 <= i < |st| - 1 ==>
            InLayer(s, st[i].view, st[i].layer) && HomeChild(s, st[i].view) == Some(st[i + 1].view))
      && (forall i :: 1 <= i < |st| ==>
            InLayer(s, st[i].view, st[i].layer) && st[i].layer == SubLayer(s, st[i - 1].view))
      && !(InLayer(s, st[|st| - 1].view, st[|st| - 1].layer) && HomeChild(s, st[|st| - 1].view).Some?)
    decreases |s.nodes| - t
  {
    var st := Steps(s, t, layer);
    StepsUnfold(s, t, layer);
    if |st| > 1 {
      var h := HomeChild(s, t).value;
      var rest := st[1..];
      StepsFollowHomePages(s, h, Layer(s, h));
      StepsUnfold(s, h, Layer(s, h));
      forall i | 0 <= i < |st| - 1
        ensures InLayer(s, st[i].view, st[i].layer) && HomeChild(s, st[i].view) == Some(st[i + 1].view)
      {
        if i > 0 {
          assert st[i] == rest[i - 1] && st[i + 1] == rest[i];
        } else {
          assert st[1] == rest[0];
        }
      }
      forall i | 1 <= i < |st|
        ensures InLayer(s, st[i].view, st[i].layer) && st[i].layer == SubLayer(s, st[i - 1].view)
      {
        if i > 1 {
          assert st[i] == rest[i - 1] && st[i - 1] == rest[i - 2];
        } else {
          assert st[1] == rest[0];
        }
      }
      assert st[|st| - 1] == rest[|rest| - 1];
    }
  }

  /** Every view of the chain is the target or lies below it. */
  lemma {:induction false} StepsBelowTarget(s: Scene, t: nat, layer: int)
    requires WellFormed(s) && t < |s.nodes|
    ensures var st := Steps(s, t, layer);
      forall i :: 0 <= i < |st| ==>
        st[i].view < |s.nodes| && (st[i].view == t || IsProperAncestor(s, t, st[i].view))
    decreases |s.nodes| - t
  {
    var st := Steps(s, t, layer);
    StepsUnfold(s, t, layer);
    if |st| > 1 {
      var h := HomeChild(s, t).value;
      var rest := Steps(s, h, Layer(s, h));
      StepsBelowTarget(s, h, Layer(s, h));
      assert IsProperAncestor(s, t, h);
      forall i | 1 <= i < |st|
        ensures st[i].view < |s.nodes| && IsProperAncestor(s, t, st[i].view)
      {
        assert st[i] == rest[i - 1];
        if rest[i - 1].view != h {
          AncestorTransitive(s, t, h, rest[i - 1].view);
        }
      }
    }
  }

  /** No two activations of a chain touch the same layer. */
  lemma {:induction false} StepsDistinctLayers(s: Scene, t: nat, layer: int)
    requires WellFormed(s) && t < |s.nodes|
    ensures DistinctLayers(Steps(s, t, layer))
    decreases |s.nodes| - t
  {
    var st := Steps(s, t, layer);
    StepsUnfold(s, t, layer);
    if |st| > 1 {
      var h := HomeChild(s, t).value;
      var rest := st[1..];
      StepsDistinctLayers(s, h, Layer(s, h));
      StepsFollowHomePages(s, h, Layer(s, h));
      StepsBelowTarget(s, h, Layer(s, h));
      StepsUnfold(s, h, Layer(s, h));
      assert IsProperAncestor(s, t, h);
      forall k | 0 <= k < |rest|
        ensures rest[k].layer != layer
      {
        var y := if k == 0 then t else rest[k - 1].view;
        assert rest[k].layer == SubLayer(s, y);
        if y != t && y != h {
          AncestorTransitive(s, t, h, y);
        }
        LayerNotKeyedFromBelow(s, t, y);
      }
      forall i, j | 0 <= i < j < |st|
        ensures st[i].layer != st[j].layer
      {
        assert st[j] == rest[j - 1];
        if i > 0 {
          assert st[i] == rest[i - 1];
        }
      }
    }
  }

  /** The Enabled flags after the activations `steps`: in every layer an
      activation touches, exactly the view it activates is enabled; the flags
      of views in other layers are unchanged. */
  function EnabledAfter(s: Scene, en: seq<bool>, steps: seq<Step>): (r: seq<bool>)
    requires WellFormed(s) && |en| == |s.nodes|
    ensures |r| == |s.nodes|
  {
    seq(|en|, v requires 0 <= v < |en| =>
      if HasView(s, v) && TargetAt(steps, Layer(s, v)).Some?
      then v == TargetAt(steps, Layer(s, v)).value
      else en[v])
  }

  /** The history update of one activation: the current view of the layer,
      when there is one and it is not the view being activated, is recorded
      as the layer's last view. */
  function Record(s: Scene, reg: seq<nat>, en: seq<bool>, last: map<int, nat>, step: Step): map<int, nat>
    requires WellFormed(s) && |en| == |s.nodes| && AllViews(s, reg)
  {
    var current := CurrentView(s, reg, en, step.layer);
    if current.Some? && current.value != step.view then last[step.layer := current.value] else last
  }

  /** LastViews after the activations `steps`, each judged against the flags
      `en` from before them (they touch distinct layers). */
  function HistoryAfter(s: Scene, reg: seq<nat>, en: seq<bool>, last: map<int, nat>, steps: seq<Step>): map<int, nat>
    requires WellFormed(s) && |en| == |s.nodes| && AllViews(s, reg)
    decreases |steps|
  {
    if steps == [] then last
    else HistoryAfter(s, reg, en, Record(s, reg, en, last, steps[0]), steps[1..])
  }

  /** Every recorded last view belongs to the layer it is recorded for, so
      going back to it (ChangeToLastView) is a change within that layer. */
  predicate HistoryInLayers(s: Scene, last: map<int, nat>)
    requires WellFormed(s)
  {
    forall l :: l in last ==> HasView(s, last[l]) && Layer(s, last[l]) == l
  }

  /** One history step records only a view of the layer it is keyed by. */
  lemma RecordInLayers(s: Scene, reg: seq<nat>, en: seq<bool>, last: map<int, nat>, step: Step)
    requires WellFormed(s) && |en| == |s.nodes| && AllViews(s, reg) && HistoryInLayers(s, last)
    ensures HistoryInLayers(s, Record(s, reg, en, last, step))
  {
  }

  lemma {:induction false} HistoryAfterInLayers(s: Scene, reg: seq<nat>, en: seq<bool>, last: map<int, nat>,
                                                steps: seq<Step>)
    requires WellFormed(s) && |en| == |s.nodes| && AllViews(s, reg) && HistoryInLayers(s, last)
    ensures HistoryInLayers(s, HistoryAfter(s, reg, en, last, steps))
    decreases |steps|
  {
    if steps != [] {
      HistoryAfterInLayers(s, reg, en, Record(s, reg, en, last, steps[0]), steps[1..]);
    }
  }

  /** Two history maps agree on key `k`. */
  predicate SameAt(m1: map<int, nat>, m2: map<int, nat>, k: int) {
    (k in m1 <==> k in m2) && (k in m1 ==> m1[k] == m2[k])
  }

  /** Per layer, the history after a chain is that layer's own record, or
      the old entry when no activation touches the layer. */
  lemma {:induction false} HistoryAfterAt(s: Scene, reg: seq<nat>, en: seq<bool>, last: map<int, nat>,
                                          steps: seq<Step>, layer: int)
    requires WellFormed(s) && |en| == |s.nodes| && AllViews(s, reg)
    requires DistinctLayers(steps)
    ensures match TargetAt(steps, layer)
      case None => SameAt(HistoryAfter(s, reg, en, last, steps), last, layer)
      case Some(t) => SameAt(HistoryAfter(s, reg, en, last, steps), Record(s, reg, en, last, Step(t, layer)), layer)
    decreases |steps|
  {
    if steps != [] {
      var last1 := Record(s, reg, en, last, steps[0]);
      var rest := steps[1..];
      assert DistinctLayers(rest) by {
        assert forall i :: 0 <= i < |rest| ==> rest[i] == steps[i + 1];
      }
      HistoryAfterAt(s, reg, en, last1, rest, layer);
      if steps[0].layer == layer {
        assert forall i :: 0 <= i < |rest| ==> rest[i] == steps[i + 1];
        assert TargetAt(rest, layer).None?;
      } else {
        assert SameAt(last1, last, layer);
        match TargetAt(rest, layer)
        case None =>
        case Some(t) =>
          var current := CurrentView(s, reg, en, layer);
          assert SameAt(Record(s, reg, en, last1, Step(t, layer)), Record(s, reg, en, last, Step(t, layer)), layer);
      }
    }
  }

  /** The history of a chain does not look at the Enabled flags of a layer
      none of its activations touches. */
  lemma {:induction false} HistoryAfterFrame(s: Scene, reg: seq<nat>, enA: seq<bool>, enB: seq<bool>,
                                             last: map<int, nat>, steps: seq<Step>, layer: int)
    requires WellFormed(s) && |enA| == |s.nodes| && |enB| == |s.nodes| && AllViews(s, reg)
    requires forall v :: HasView(s, v) && Layer(s, v) != layer ==> enA[v] == enB[v]
    requires forall i :: 0 <= i < |steps| ==> steps[i].layer != layer
    ensures HistoryAfter(s, reg, enA, last, steps) == HistoryAfter(s, reg, enB, last, steps)
    decreases |steps|
  {
    if steps != [] {
      CurrentViewFrame(s, reg, enA, enB, steps[0].layer);
      HistoryAfterFrame(s, reg, enA, enB, Record(s, reg, enA, last, steps[0]), steps[1..], layer);
    }
  }

  /** ChangeCurrentView recurses into the home page in the middle of its
      sweep over `layer`; the chain that recursion applies never activates a
      view in `layer`. */
  lemma HomeChainAvoidsLayer(s: Scene, target: nat, layer: int)
    requires WellFormed(s) && target < |s.nodes|
    requires InLayer(s, target, layer) && HomeChild(s, target).Some?
    ensures var steps := Steps(s, target, layer);
      && |steps| > 1 && steps[0] == Step(target, layer)
      && steps[1..] == Steps(s, HomeChild(s, target).value, Layer(s, HomeChild(s, target).value))
      && forall i :: 1 <= i < |steps| ==> steps[i].layer != layer
  {
    StepsUnfold(s, target, layer);
    StepsDistinctLayers(s, target, layer);
  }

  /** Activations outside `layer` leave the flags of `layer` alone. */
  lemma EnabledAfterUntouched(s: Scene, en: seq<bool>, steps: seq<Step>, layer: int)
    requires WellFormed(s) && |en| == |s.nodes|
    requires forall i :: 0 <= i < |steps| ==> steps[i].layer != layer
    ensures forall v: nat :: InLayer(s, v, layer) ==> EnabledAfter(s, en, steps)[v] == en[v]
  {
    assert TargetAt(steps, layer).None?;
  }

  /** Off `layer`, the flags after a chain that starts in `layer` depend only
      on the rest of the chain and on the flags off `layer`: the recursion
      may run on partly swept flags. */
  lemma EnabledAfterHeadFrame(s: Scene, en0: seq<bool>, enMid: seq<bool>, steps: seq<Step>, layer: int)
    requires WellFormed(s) && |en0| == |s.nodes| && |enMid| == |s.nodes|
    requires |steps| > 0 && steps[0].layer == layer
    requires forall v :: 0 <= v < |s.nodes| && !InLayer(s, v, layer) ==> enMid[v] == en0[v]
    ensures forall v :: 0 <= v < |s.nodes| && !InLayer(s, v, layer) ==>
      EnabledAfter(s, enMid, steps[1..])[v] == EnabledAfter(s, en0, steps)[v]
  {
    forall v | 0 <= v < |s.nodes| && !InLayer(s, v, layer)
      ensures EnabledAfter(s, enMid, steps[1..])[v] == EnabledAfter(s, en0, steps)[v]
    {
      if HasView(s, v) {
        assert TargetAt(steps, Layer(s, v)) == TargetAt(steps[1..], Layer(s, v));
      }
    }
  }

  /** The history of a chain that starts in `layer`, with the first record
      taken against `en0` and the rest against flags that differ from `en0`
      only in `layer`, is the history of the whole chain against `en0`. */
  lemma HistoryAfterHeadFrame(s: Scene, reg: seq<nat>, en0: seq<bool>, enMid: seq<bool>, last0: map<int, nat>,
                              steps: seq<Step>, layer: int)
    requires WellFormed(s) && |en0| == |s.nodes| && |enMid| == |s.nodes| && AllViews(s, reg)
    requires |steps| > 0 && steps[0].layer == layer
    requires forall i :: 1 <= i < |steps| ==> steps[i].layer != layer
    requires forall v :: 0 <= v < |s.nodes| && !InLayer(s, v, layer) ==> enMid[v] == en0[v]
    ensures HistoryAfter(s, reg, enMid, Record(s, reg, en0, last0, steps[0]), steps[1..])
         == HistoryAfter(s, reg, en0, last0, steps)
  {
    var rest := steps[1..];
    assert forall i :: 0 <= i < |rest| ==> rest[i] == steps[i + 1];
    HistoryAfterFrame(s, reg, enMid, en0, Record(s, reg, en0, last0, steps[0]), rest, layer);
  }

  /** The state of ChangeCurrentView's sweep after the registry prefix
      `reg[..k]`, with the history step already taken: the views of `layer`
      met so far are set, the others of `layer` are as they were, and the
      home-page recursion, made when the target (at `reg[tpos]`) was met,
      has applied the rest of the chain. */
  ghost predicate Swept(s: Scene, reg: seq<nat>, en0: seq<bool>, last0: map<int, nat>, target: nat, layer: int,
                        tpos: nat, k: nat, recursed: bool, en: seq<bool>, last: map<int, nat>)
    requires ValidRegistry(s, reg) && |en0| == |s.nodes| && target < |s.nodes| && k <= |reg|
  {
    && |en| == |s.nodes|
    && (recursed <==> tpos < k && InLayer(s, target, layer) && HomeChild(s, target).Some?)
    && (forall i :: 0 <= i < k && InLayer(s, reg[i], layer) ==> en[reg[i]] == (reg[i] == target))
    && (forall i :: k <= i < |reg| && InLayer(s, reg[i], layer) ==> en[reg[i]] == en0[reg[i]])
    && (forall v :: 0 <= v < |s.nodes| && !InLayer(s, v, layer) ==>
          en[v] == if recursed then EnabledAfter(s, en0, Steps(s, target, layer))[v] else en0[v])
    && last == if recursed then HistoryAfter(s, reg, en0, last0, Steps(s, target, layer))
               else Record(s, reg, en0, last0, Step(target, layer))
  }

  lemma SweptIntro(s: Scene, reg: seq<nat>, en0: seq<bool>, last0: map<int, nat>, target: nat, layer: int,
                   tpos: nat, k: nat, recursed: bool, en: seq<bool>, last: map<int, nat>)
    requires ValidRegistry(s, reg) && |en0| == |s.nodes| && target < |s.nodes| && k <= |reg|
    requires |en| == |s.nodes|
    requires recursed <==> tpos < k && InLayer(s, target, layer) && HomeChild(s, target).Some?
    requires forall i :: 0 <= i < k && InLayer(s, reg[i], layer) ==> en[reg[i]] == (reg[i] == target)
    requires forall i :: k <= i < |reg| && InLayer(s, reg[i], layer) ==> en[reg[i]] == en0[reg[i]]
    requires forall v :: 0 <= v < |s.nodes| && !InLayer(s, v, layer) ==>
          en[v] == if recursed then EnabledAfter(s, en0, Steps(s, target, layer))[v] else en0[v]
    requires last == if recursed then HistoryAfter(s, reg, en0, last0, Steps(s, target, layer))
               else Record(s, reg, en0, last0, Step(target, layer))
    ensures Swept(s, reg, en0, last0, target, layer, tpos, k, recursed, en, last)
  {
  }

  /** Before the sweep, with only the history step taken, nothing is swept. */
  lemma SweepStarts(s: Scene, reg: seq<nat>, en0: seq<bool>, last0: map<int, nat>, target: nat, layer: int,
                    tpos: nat, last: map<int, nat>)
    requires ValidRegistry(s, reg) && |en0| == |s.nodes| && target < |s.nodes|
    requires last == Record(s, reg, en0, last0, Step(target, layer))
    ensures Swept(s, reg, en0, last0, target, layer, tpos, 0, false, en0, last)
  {
  }

  /** Visiting `reg[k]` in `layer`: once its flag is set to whether it is the
      target (by flags `en'` that agree with that on `layer`), the prefix
      clause of the sweep extends to `reg[..k + 1]`. */
  lemma SweepVisitsLayerView(s: Scene, reg: seq<nat>, en0: seq<bool>, target: nat, layer: int,
                             k: nat, en: seq<bool>, en': seq<bool>)
    requires WellFormed(s) && AllViews(s, reg) && k < |reg|
    requires forall i, j :: 0 <= i < j < |reg| ==> reg[i] != reg[j]
    requires |en0| == |s.nodes| && |en| == |s.nodes| && |en'| == |s.nodes|
    requires forall i :: 0 <= i < k && InLayer(s, reg[i], layer) ==> en[reg[i]] == (reg[i] == target)
    requires forall i :: k <= i < |reg| && InLayer(s, reg[i], layer) ==> en[reg[i]] == en0[reg[i]]
    requires forall v: nat :: InLayer(s, v, layer) ==> en'[v] == en[reg[k] := reg[k] == target][v]
    ensures forall i :: 0 <= i < k + 1 && InLayer(s, reg[i], layer) ==> en'[reg[i]] == (reg[i] == target)
    ensures forall i :: k + 1 <= i < |reg| && InLayer(s, reg[i], layer) ==> en'[reg[i]] == en0[reg[i]]
  {
    forall i | 0 <= i < k + 1 && InLayer(s, reg[i], layer)
      ensures en'[reg[i]] == (reg[i] == target)
    {
      if i < k {
        assert reg[i] != reg[k];
      }
    }
    forall i | k + 1 <= i < |reg| && InLayer(s, reg[i], layer)
      ensures en'[reg[i]] == en0[reg[i]]
    {
      assert reg[i] != reg[k];
    }
  }

  /** A registry entry outside `layer` is passed over. */
  lemma SweepPassesOver(s: Scene, reg: seq<nat>, en0: seq<bool>, last0: map<int, nat>, target: nat, layer: int,
                        tpos: nat, k: nat, recursed: bool, en: seq<bool>, last: map<int, nat>)
    requires ValidRegistry(s, reg) && |en0| == |s.nodes| && HasView(s, target) && k < |reg|
    requires tpos < |reg| && reg[tpos] == target
    requires Swept(s, reg, en0, last0, target, layer, tpos, k, recursed, en, last)
    requires !InLayer(s, reg[k], layer)
    ensures Swept(s, reg, en0, last0, target, layer, tpos, k + 1, recursed, en, last)
  {
    assert tpos == k ==> !InLayer(s, target, layer);
    forall i | 0 <= i < k + 1 && InLayer(s, reg[i], layer)
      ensures en[reg[i]] == (reg[i] == target)
    {
      assert i < k;
    }
    SweptIntro(s, reg, en0, last0, target, layer, tpos, k + 1, recursed, en, last);
  }

  /** A view of `layer` is enabled exactly when it is the target; this is
      the whole step when the target has no home page to recurse into. */
  lemma SweepSets(s: Scene, reg: seq<nat>, en0: seq<bool>, last0: map<int, nat>, target: nat, layer: int,
                  tpos: nat, k: nat, recursed: bool, en: seq<bool>, last: map<int, nat>)
    requires ValidRegistry(s, reg) && |en0| == |s.nodes| && HasView(s, target) && k < |reg|
    requires tpos < |reg| && reg[tpos] == target
    requires Swept(s, reg, en0, last0, target, layer, tpos, k, recursed, en, last)
    requires InLayer(s, reg[k], layer)
    requires reg[k] == target ==> HomeChild(s, target).None?
    ensures Swept(s, reg, en0, last0, target, layer, tpos, k + 1, recursed, en[reg[k] := reg[k] == target], last)
  {
    var en' := en[reg[k] := reg[k] == target];
    SweepVisitsLayerView(s, reg, en0, target, layer, k, en, en');
    forall v | 0 <= v < |s.nodes| && !InLayer(s, v, layer)
      ensures en'[v] == en[v]
    {
    }
    assert tpos == k ==> HomeChild(s, target).None?;
    assert recursed <==> tpos < k + 1 && InLayer(s, target, layer) && HomeChild(s, target).Some?;
    SweptIntro(s, reg, en0, last0, target, layer, tpos, k + 1, recursed, en', last);
  }

  /** Meeting the target in `layer` (at `reg[k]`): enable it, and the
      recursion into its home page `h` gives every view of the scene the flag
      the whole chain gives it, except that the views of `layer` after
      `reg[k]` are not swept yet. */
  lemma SweepRecursesFlags(s: Scene, reg: seq<nat>, en0: seq<bool>, target: nat, layer: int,
                           k: nat, en: seq<bool>, h: nat)
    requires WellFormed(s) && AllViews(s, reg) && k < |reg| && reg[k] == target
    requires forall i, j :: 0 <= i < j < |reg| ==> reg[i] != reg[j]
    requires InLayer(s, target, layer) && HomeChild(s, target) == Some(h)
    requires |en0| == |s.nodes| && |en| == |s.nodes|
    requires forall i :: 0 <= i < k && InLayer(s, reg[i], layer) ==> en[reg[i]] == (reg[i] == target)
    requires forall i :: k <= i < |reg| && InLayer(s, reg[i], layer) ==> en[reg[i]] == en0[reg[i]]
    requires forall v :: 0 <= v < |s.nodes| && !InLayer(s, v, layer) ==> en[v] == en0[v]
    ensures var en' := EnabledAfter(s, en[target := true], Steps(s, h, Layer(s, h)));
      && (forall i :: 0 <= i < k + 1 && InLayer(s, reg[i], layer) ==> en'[reg[i]] == (reg[i] == target))
      && (forall i :: k + 1 <= i < |reg| && InLayer(s, reg[i], layer) ==> en'[reg[i]] == en0[reg[i]])
      && (forall v :: 0 <= v < |s.nodes| && !InLayer(s, v, layer) ==>
            en'[v] == EnabledAfter(s, en0, Steps(s, target, layer))[v])
  {
    var rest := Steps(s, h, Layer(s, h));
    var enMid := en[target := true];
    var steps := Steps(s, target, layer);
    var en' := EnabledAfter(s, enMid, rest);
    HomeChainAvoidsLayer(s, target, layer);
    assert forall i :: 0 <= i < |rest| ==> rest[i] == steps[i + 1];
    EnabledAfterUntouched(s, enMid, rest, layer);
    assert enMid == en[reg[k] := reg[k] == target];
    SweepVisitsLayerView(s, reg, en0, target, layer, k, en, en');
    EnabledAfterHeadFrame(s, en0, enMid, steps, layer);
  }

  /** The history after the recursion is the history of the whole chain. */
  lemma SweepRecursesHistory(s: Scene, reg: seq<nat>, en0: seq<bool>, last0: map<int, nat>, target: nat, layer: int,
                             en: seq<bool>, last: map<int, nat>, h: nat)
    requires WellFormed(s) && AllViews(s, reg)
    requires InLayer(s, target, layer) && HomeChild(s, target) == Some(h)
    requires |en0| == |s.nodes| && |en| == |s.nodes|
    requires forall v :: 0 <= v < |s.nodes| && !InLayer(s, v, layer) ==> en[v] == en0[v]
    requires last == Record(s, reg, en0, last0, Step(target, layer))
    ensures HistoryAfter(s, reg, en[target := true], last, Steps(s, h, Layer(s, h)))
         == HistoryAfter(s, reg, en0, last0, Steps(s, target, layer))
  {
    HomeChainAvoidsLayer(s, target, layer);
    HistoryAfterHeadFrame(s, reg, en0, en[target := true], last0, Steps(s, target, layer), layer);
  }

  /** Meeting the target in `layer` with a home page `h`: the sweep state
      after the recursion. */
  lemma SweepRecurses(s: Scene, reg: seq<nat>, en0: seq<bool>, last0: map<int, nat>, target: nat, layer: int,
                      k: nat, en: seq<bool>, last: map<int, nat>, h: nat)
    requires ValidRegistry(s, reg) && |en0| == |s.nodes| && HasView(s, target) && k < |reg|
    requires Swept(s, reg, en0, last0, target, layer, k, k, false, en, last)
    requires reg[k] == target && Layer(s, target) == layer && HomeChild(s, target) == Some(h)
    ensures Swept(s, reg, en0, last0, target, layer, k, k + 1, true,
                  EnabledAfter(s, en[target := true], Steps(s, h, Layer(s, h))),
                  HistoryAfter(s, reg, en[target := true], last, Steps(s, h, Layer(s, h))))
  {
    SweepRecursesFlags(s, reg, en0, target, layer, k, en, h);
    SweepRecursesHistory(s, reg, en0, last0, target, layer, en, last, h);
    SweptIntro(s, reg, en0, last0, target, layer, k, k + 1, true,
               EnabledAfter(s, en[target := true], Steps(s, h, Layer(s, h))),
               HistoryAfter(s, reg, en[target := true], last, Steps(s, h, Layer(s, h))));
  }

  /** After the whole registry the sweep has produced the state the chain
      describes. */
  lemma SweepEnds(s: Scene, reg: seq<nat>, en0: seq<bool>, last0: map<int, nat>, target: nat, layer: int,
                  tpos: nat, recursed: bool, en: seq<bool>, last: map<int, nat>)
    requires ValidRegistry(s, reg) && |en0| == |s.nodes| && HasView(s, target)
    requires tpos < |reg| && reg[tpos] == target
    requires Swept(s, reg, en0, last0, target, layer, tpos, |reg|, recursed, en, last)
    ensures en == EnabledAfter(s, en0, Steps(s, target, layer))
    ensures last == HistoryAfter(s, reg, en0, last0, Steps(s, target, layer))
  {
    var steps := Steps(s, target, layer);
    var after := EnabledAfter(s, en0, steps);
    StepsUnfold(s, target, layer);
    assert TargetAt(steps, layer) == Some(target);
    if !recursed {
      assert steps == [Step(target, layer)];
      assert HistoryAfter(s, reg, en0, last0, steps)
          == HistoryAfter(s, reg, en0, Record(s, reg, en0, last0, Step(target, layer)), []);
    }
    forall v | 0 <= v < |s.nodes|
      ensures en[v] == after[v]
    {
      if InLayer(s, v, layer) {
        Registered(s, reg, v);
        var i :| 0 <= i < |reg| && reg[i] == v;
      } else if HasView(s, v) && !recursed {
        assert TargetAt(steps, Layer(s, v)).None?;
      }
    }
  }

  // ------------------------------------------------ What a transition does

  /** After ChangeCurrentView(target, layer) the target is the only enabled
      view of `layer` and so its current view; a target that is not a view of
      `layer` leaves every view of `layer` disabled and the layer without one. */
  lemma ChangeActivatesTarget(s: Scene, reg: seq<nat>, en: seq<bool>, target: nat, layer: int)
    requires ValidRegistry(s, reg) && |en| == |s.nodes| && target < |s.nodes|
    ensures var en' := EnabledAfter(s, en, Steps(s, target, layer));
      && (forall v :: HasView(s, v) && Layer(s, v) == layer ==> en'[v] == (v == target))
      && CurrentView(s, reg, en', layer) == (if InLayer(s, target, layer) then Some(target) else None)
  {
    var st := Steps(s, target, layer);
    var en' := EnabledAfter(s, en, st);
    StepsUnfold(s, target, layer);
    assert TargetAt(st, layer) == Some(target);
    if InLayer(s, target, layer) {
      SoleEnabledIsCurrent(s, reg, en', target, layer);
    }
  }

  /** Every activation of the chain holds afterwards: each home page down the
      chain is the current view of its layer. */
  lemma ChangeActivatesHomeChain(s: Scene, reg: seq<nat>, en: seq<bool>, target: nat, layer: int, i: nat)
    requires ValidRegistry(s, reg) && |en| == |s.nodes| && target < |s.nodes|
    requires InLayer(s, target, layer) && i < |Steps(s, target, layer)|
    ensures var st := Steps(s, target, layer);
      var en' := EnabledAfter(s, en, st);
      && CurrentView(s, reg, en', st[i].layer) == Some(st[i].view)
      && (forall v :: HasView(s, v) && Layer(s, v) == st[i].layer ==> en'[v] == (v == st[i].view))
  {
    var st := Steps(s, target, layer);
    var en' := EnabledAfter(s, en, st);
    StepsUnfold(s, target, layer);
    StepsDistinctLayers(s, target, layer);
    StepsFollowHomePages(s, target, layer);
    TargetAtDistinct(st, i);
    SoleEnabledIsCurrent(s, reg, en', st[i].view, st[i].layer);
  }

  /** Activating a view activates its home page: the first view below it
      flagged homePageOfParent whose Parent is the target becomes the only
      enabled view of the target's sub-layer; no later home-flagged sibling does. */
  lemma ChangeActivatesHomePage(s: Scene, reg: seq<nat>, en: seq<bool>, target: nat, layer: int)
    requires ValidRegistry(s, reg) && |en| == |s.nodes| && target < |s.nodes|
    requires InLayer(s, target, layer) && HomeChild(s, target).Some?
    ensures var h := HomeChild(s, target).value;
      var en' := EnabledAfter(s, en, Steps(s, target, layer));
      && CurrentView(s, reg, en', SubLayer(s, target)) == Some(h)
      && (forall v :: HasView(s, v) && Layer(s, v) == SubLayer(s, target) ==> en'[v] == (v == h))
  {
    StepsUnfold(s, target, layer);
    StepsUnfold(s, HomeChild(s, target).value, Layer(s, HomeChild(s, target).value));
    ChangeActivatesHomeChain(s, reg, en, target, layer, 1);
  }

  /** No activation of a chain touches the layer of a view outside `layer`
      that does not lie below an activated target. */
  lemma StepsAvoidLayerOf(s: Scene, target: nat, layer: int, v: nat)
    requires WellFormed(s) && target < |s.nodes|
    requires HasView(s, v) && Layer(s, v) != layer
    requires !(InLayer(s, target, layer) && IsProperAncestor(s, target, v))
    ensures forall i :: 0 <= i < |Steps(s, target, layer)| ==> Steps(s, target, layer)[i].layer != Layer(s, v)
  {
    var st := Steps(s, target, layer);
    StepsUnfold(s, target, layer);
    StepsFollowHomePages(s, target, layer);
    StepsBelowTarget(s, target, layer);
    forall i | 1 <= i < |st|
      ensures st[i].layer != Layer(s, v)
    {
      var y := st[i - 1].view;
      assert st[i].layer == SubLayer(s, y);
      assert InLayer(s, target, layer);
      if ParentView(s, v).Some? && SubLayer(s, ParentView(s, v).value) == SubLayer(s, y) {
        SubLayerInjective(s, ParentView(s, v).value, y);
        if y != target {
          AncestorTransitive(s, target, y, v);
        }
        assert false;
      }
    }
  }

  /** Views outside `layer` keep their Enabled flag and their layer's history,
      unless they lie below a target that was activated in `layer`. */
  lemma ChangeFrame(s: Scene, reg: seq<nat>, en: seq<bool>, last: map<int, nat>, target: nat, layer: int, v: nat)
    requires ValidRegistry(s, reg) && |en| == |s.nodes| && target < |s.nodes|
    requires HasView(s, v) && Layer(s, v) != layer
    requires !(InLayer(s, target, layer) && IsProperAncestor(s, target, v))
    ensures EnabledAfter(s, en, Steps(s, target, layer))[v] == en[v]
    ensures SameAt(HistoryAfter(s, reg, en, last, Steps(s, target, layer)), last, Layer(s, v))
  {
    var st := Steps(s, target, layer);
    StepsAvoidLayerOf(s, target, layer, v);
    StepsDistinctLayers(s, target, layer);
    assert TargetAt(st, Layer(s, v)).None?;
    HistoryAfterAt(s, reg, en, last, st, Layer(s, v));
  }

  /** The subtree of a view that the change disables is left alone: every
      view below another view of `layer` keeps its flag and its layer's history. */
  lemma ChangeLeavesDeactivatedSubtree(s: Scene, reg: seq<nat>, en: seq<bool>, last: map<int, nat>,
                                       target: nat, layer: int, c: nat, v: nat)
    requires ValidRegistry(s, reg) && |en| == |s.nodes| && target < |s.nodes|
    requires InLayer(s, c, layer) && c != target
    requires HasView(s, v) && IsProperAncestor(s, c, v)
    ensures EnabledAfter(s, en, Steps(s, target, layer))[v] == en[v]
    ensures SameAt(HistoryAfter(s, reg, en, last, Steps(s, target, layer)), last, Layer(s, v))
  {
    DescendantInOtherLayer(s, c, v);
    if InLayer(s, target, layer) && IsProperAncestor(s, target, v) {
      AncestorsComparable(s, target, c, v);
      if IsProperAncestor(s, target, c) {
        DescendantInOtherLayer(s, target, c);
      } else {
        DescendantInOtherLayer(s, c, target);
      }
      assert false;
    }
    ChangeFrame(s, reg, en, last, target, layer, v);
  }

  /** The history of `layer` changes only on a real change of view: it then
      records the view that was current; changing to the current view, or
      changing while no view is current, leaves it as it was. */
  lemma ChangeRecordsHistory(s: Scene, reg: seq<nat>, en: seq<bool>, last: map<int, nat>, target: nat, layer: int)
    requires ValidRegistry(s, reg) && |en| == |s.nodes| && target < |s.nodes|
    ensures var last' := HistoryAfter(s, reg, en, last, Steps(s, target, layer));
      match CurrentView(s, reg, en, layer)
      case Some(c) =>
        if c != target then layer in last' && last'[layer] == c else SameAt(last', last, layer)
      case None => SameAt(last', last, layer)
  {
    var st := Steps(s, target, layer);
    StepsUnfold(s, target, layer);
    StepsDistinctLayers(s, target, layer);
    assert TargetAt(st, layer) == Some(target);
    HistoryAfterAt(s, reg, en, last, st, layer);
  }

  /** A change keeps at most one view enabled per layer. */
  lemma ChangeKeepsOneEnabledPerLayer(s: Scene, en: seq<bool>, target: nat, layer: int)
    requires WellFormed(s) && |en| == |s.nodes| && target < |s.nodes|
    requires AtMostOneEnabledPerLayer(s, en)
    ensures AtMostOneEnabledPerLayer(s, EnabledAfter(s, en, Steps(s, target, layer)))
  {
    var en' := EnabledAfter(s, en, Steps(s, target, layer));
    forall v, w | HasView(s, v) && HasView(s, w) && en'[v] && en'[w] && Layer(s, v) == Layer(s, w)
      ensures v == w
    {
    }
  }

  /** Going back: with `a` current in `layer`, changing to another view `b`
      of the layer records `a`, and changing to the recorded view (what
      ChangeToLastView(layer) does) makes `a` current again. */
  lemma ChangeThenBackRestores(s: Scene, reg: seq<nat>, en: seq<bool>, last: map<int, nat>,
                               layer: int, a: nat, b: nat)
    requires ValidRegistry(s, reg) && |en| == |s.nodes|
    requires CurrentView(s, reg, en, layer) == Some(a)
    requires InLayer(s, b, layer) && b != a
    ensures var st := Steps(s, b, layer);
      var last' := HistoryAfter(s, reg, en, last, st);
      var en' := EnabledAfter(s, en, st);
      && layer in last' && last'[layer] == a && Layer(s, a) == layer
      && CurrentView(s, reg, EnabledAfter(s, en', Steps(s, a, Layer(s, a))), layer) == Some(a)
  {
    ChangeRecordsHistory(s, reg, en, last, b, layer);
    var en' := EnabledAfter(s, en, Steps(s, b, layer));
    ChangeActivatesTarget(s, reg, en', a, layer);
  }

  // ---------------------------------------------------------------- Closing

  /** The Enabled flags after CloseAll(layer): every view of `layer` closed. */
  function ClosedLayer(s: Scene, en: seq<bool>, layer: int): (r: seq<bool>)
    requires WellFormed(s) && |en| == |s.nodes|
    ensures |r| == |s.nodes|
  {
    seq(|en|, v requires 0 <= v < |en| => if HasView(s, v) && Layer(s, v) == layer then false else en[v])
  }

  /** After CloseAll(layer) the layer has no current view, and the current
      view of every other layer is what it was. */
  lemma CloseAllLeavesNoCurrent(s: Scene, reg: seq<nat>, en: seq<bool>, layer: int, other: int)
    requires ValidRegistry(s, reg) && |en| == |s.nodes|
    requires other != layer
    ensures CurrentView(s, reg, ClosedLayer(s, en, layer), layer) == None
    ensures CurrentView(s, reg, ClosedLayer(s, en, layer), other) == CurrentView(s, reg, en, other)
  {
    var en' := ClosedLayer(s, en, layer);
    forall i | 0 <= i < |reg|
      ensures !(en'[reg[i]] && Layer(s, reg[i]) == layer)
    {
      assert HasView(s, reg[i]);
    }
    forall v | HasView(s, v) && Layer(s, v) == other
      ensures en'[v] == en[v]
    {
    }
    CurrentViewFrame(s, reg, en', en, other);
  }

  /** Clearing flags keeps at most one view enabled per layer: this covers
      the all-false flags of a loaded scene, CloseThisView (one flag
      cleared) and CloseAll (ClosedLayer). */
  lemma ClosingKeepsOneEnabledPerLayer(s: Scene, en: seq<bool>, en': seq<bool>)
    requires WellFormed(s) && |en| == |s.nodes| && |en'| == |s.nodes|
    requires AtMostOneEnabledPerLayer(s, en)
    requires forall v :: 0 <= v < |en'| && en'[v] ==> en[v]
    ensures AtMostOneEnabledPerLayer(s, en')
  {
  }

  /** CloseAll(layer) keeps at most one view enabled per layer. */
  lemma CloseAllKeepsOneEnabledPerLayer(s: Scene, en: seq<bool>, layer: int)
    requires WellFormed(s) && |en| == |s.nodes|
    requires AtMostOneEnabledPerLayer(s, en)
    ensures AtMostOneEnabledPerLayer(s, ClosedLayer(s, en, layer))
  {
    ClosingKeepsOneEnabledPerLayer(s, en, ClosedLayer(s, en, layer));
  }

  // ----------------------------------------------------- Lookups by type

  /** The registry scan of ChangeCurrentView<T>, CloseView<T> and GetView<T>:
      the first registered view whose exact runtime type is `kind`. */
  function FirstOfType(s: Scene, reg: seq<nat>, kind: TypeName): (r: Option<nat>)
    requires AllViews(s, reg)
    ensures r.Some? ==> r.value in reg && HasView(s, r.value) && Info(s, r.value).kind == kind
    ensures r.None? <==> forall i :: 0 <= i < |reg| ==> Info(s, reg[i]).kind != kind
  {
    if reg == [] then None
    else if Info(s, reg[0]).kind == kind then Some(reg[0])
    else
      var r := FirstOfType(s, reg[1..], kind);
      assert forall i :: 1 <= i < |reg| ==> reg[i] == reg[1..][i - 1];
      r
  }

  /** The view found by type comes no later than any view of that type. */
  lemma {:induction false} FirstOfTypeIsFirst(s: Scene, reg: seq<nat>, kind: TypeName, i: nat)
    requires AllViews(s, reg) && i < |reg| && Info(s, reg[i]).kind == kind
    ensures FirstOfType(s, reg, kind).Some?
    ensures FirstOfType(s, reg, kind).value in reg[..i + 1]
  {
    if Info(s, reg[0]).kind == kind {
      assert reg[..i + 1][0] == reg[0];
    } else {
      var tail := reg[1..];
      assert AllViews(s, tail);
      assert tail[i - 1] == reg[i];
      FirstOfTypeIsFirst(s, tail, kind, i - 1);
      assert reg[..i + 1] == [reg[0]] + tail[..i];
    }
  }

  /** A candidate for the first screen: a view with no parent view that is
      flagged homePageOfParent. */
  predicate RootHome(s: Scene, v: nat)
    requires WellFormed(s) && HasView(s, v)
  {
    ParentView(s, v).None? && Info(s, v).homePageOfParent
  }

  /** The selection of InitMenus: the first registered view that has no
      parent view and is flagged homePageOfParent. */
  function FirstRootHome(s: Scene, reg: seq<nat>): (r: Option<nat>)
    requires WellFormed(s) && AllViews(s, reg)
    ensures r.Some? ==> r.value in reg && HasView(s, r.value) && RootHome(s, r.value)
    ensures r.None? <==> forall i :: 0 <= i < |reg| ==> !RootHome(s, reg[i])
  {
    if reg == [] then None
    else if RootHome(s, reg[0]) then Some(reg[0])
    else
      var tail := reg[1..];
      assert AllViews(s, tail);
      var r := FirstRootHome(s, tail);
      assert forall i :: 1 <= i < |reg| ==> reg[i] == tail[i - 1];
      r
  }

  /** The startup scan, one entry at a time. */
  lemma FirstRootHomeSkips(s: Scene, reg: seq<nat>)
    requires WellFormed(s) && AllViews(s, reg) && |reg| > 0
    ensures AllViews(s, reg[1..])
    ensures FirstRootHome(s, reg) == if RootHome(s, reg[0]) then Some(reg[0]) else FirstRootHome(s, reg[1..])
  {
  }

  /** The startup view comes no later than any other candidate: the scan
      stops at the first one. */
  lemma {:induction false} FirstRootHomeIsFirst(s: Scene, reg: seq<nat>, i: nat)
    requires WellFormed(s) && AllViews(s, reg) && i < |reg| && RootHome(s, reg[i])
    ensures FirstRootHome(s, reg).Some?
    ensures FirstRootHome(s, reg).value in reg[..i + 1]
  {
    FirstRootHomeSkips(s, reg);
    if RootHome(s, reg[0]) {
      assert reg[..i + 1][0] == reg[0];
    } else {
      var tail := reg[1..];
      assert tail[i - 1] == reg[i];
      FirstRootHomeIsFirst(s, tail, i - 1);
      assert reg[..i + 1] == [reg[0]] + tail[..i];
    }
  }

  /** From a scene where no view is enabled, a chain enables exactly the
      views it activates, each in its own layer. */
  lemma EnabledFromNothing(s: Scene, en: seq<bool>, steps: seq<Step>, v: nat)
    requires WellFormed(s) && |en| == |s.nodes| && DistinctLayers(steps)
    requires forall w :: 0 <= w < |en| ==> !en[w]
    requires HasView(s, v)
    ensures EnabledAfter(s, en, steps)[v] <==> Step(v, Layer(s, v)) in steps
  {
    if Step(v, Layer(s, v)) in steps {
      var i :| 0 <= i < |steps| && steps[i] == Step(v, Layer(s, v));
      TargetAtDistinct(steps, i);
    }
  }

  /** With no view enabled no layer has a current view, so a chain records
      no history. */
  lemma {:induction false} NothingEnabledRecordsNothing(s: Scene, reg: seq<nat>, en: seq<bool>, last: map<int, nat>,
                                                        steps: seq<Step>)
    requires WellFormed(s) && |en| == |s.nodes| && AllViews(s, reg)
    requires forall v :: 0 <= v < |en| ==> !en[v]
    ensures HistoryAfter(s, reg, en, last, steps) == last
    decreases |steps|
  {
    if steps != [] {
      assert CurrentView(s, reg, en, steps[0].layer).None?;
      NothingEnabledRecordsNothing(s, reg, en, last, steps[1..]);
    }
  }

  /** Starting from a freshly loaded scene (no view enabled), the selection of
      InitMenus enables exactly the chosen root view and its home-page chain;
      the root is the current view of the default layer. */
  lemma InitialScreen(s: Scene, reg: seq<nat>, en: seq<bool>, last: map<int, nat>)
    requires ValidRegistry(s, reg) && |en| == |s.nodes|
    requires forall v :: 0 <= v < |en| ==> !en[v]
    requires FirstRootHome(s, reg).Some?
    ensures var r := FirstRootHome(s, reg).value;
      var st := Steps(s, r, Layer(s, r));
      var en' := EnabledAfter(s, en, st);
      && Layer(s, r) == DefaultLayer
      && CurrentView(s, reg, en', DefaultLayer) == Some(r)
      && (forall v :: HasView(s, v) ==> (en'[v] <==> Step(v, Layer(s, v)) in st))
      && HistoryAfter(s, reg, en, last, st) == last
  {
    var r := FirstRootHome(s, reg).value;
    var st := Steps(s, r, Layer(s, r));
    StepsDistinctLayers(s, r, Layer(s, r));
    ChangeActivatesTarget(s, reg, en, r, Layer(s, r));
    forall v | HasView(s, v)
      ensures EnabledAfter(s, en, st)[v] <==> Step(v, Layer(s, v)) in st
    {
      EnabledFromNothing(s, en, st, v);
    }
    NothingEnabledRecordsNothing(s, reg, en, last, st);
  }
}
