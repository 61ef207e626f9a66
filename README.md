# MenuView transition engine and SyncMenuView mailbox, in Dafny

This project models the core of the MenuView package for Unity: the
`MenuView` transition engine, which turns a tree of scene nodes into layers of
mutually exclusive menu screens, and the `SyncMenuView` mailbox, which
collects menu requests and replays them once per frame.

- `optional.dfy` (module `Optional`): the nullable view reference as `Option`.
- `scene.dfy` (module `SceneTree`): the loaded scene as a sequence of
  transforms, each with the index of its parent transform (parents come
  first) and the MenuView component on it, if any. The lazily cached `Parent`
  and `Children` properties become functions of this static tree. The
  `Parent` loop stops below the topmost transform, but a well-formed scene
  carries no view on a topmost transform, so the stop never changes which
  view is found (`ViewAncestorFromSeesAll`). `Layer`
  is the parent's `SubLayer` (its hash code), or 0 for a parentless view.
- `transition.dfy` (module `Transitions`): the transition engine as functions
  of the state it changes. `Steps` is the activation chain of
  `ChangeCurrentView(target, layer)`: the target in `layer`, then its home
  page in the target's sub-layer, and so on down. `EnabledAfter` and
  `HistoryAfter` give the `_enabled` flags and the `LastViews` map after that
  chain. The lemmas state what a transition means: the target becomes the
  only enabled view of its layer, the home chain activates, history changes
  only on a real change of view, other layers are untouched, and going back
  restores the previous view. `ChangeCurrentView` keeps at most one view
  enabled per layer (`ChangeKeepsOneEnabledPerLayer`), and so does every
  operation that only clears flags (`ClosingKeepsOneEnabledPerLayer`). With
  the `ensures` of the `MenuViews` methods, which give the new flags as
  `EnabledAfter`, `ClosedLayer` or one flag cleared, this carries the
  invariant across `Load`, `ChangeCurrentView`, `CloseThisView` and
  `CloseAll`. It is not part of `Valid()`, because during the sweep the
  home-page recursion can leave two views of the swept layer enabled for a
  moment.
- `menu_views.dfy` (module `MenuViews`): class `MenuViews` holds the static
  state of one loaded scene: the registry `_views`, the `_enabled` flag of
  each view, the `LastViews` history and the `Debug.LogError` log. Its methods
  follow the C# loops (registry scans with early return, the sweep that
  recurses into the home page mid-loop). Each method is proved to leave
  exactly the state the functions of `Transitions` describe.
- `sync_menu_view.dfy` (module `SyncMenu`): the mailbox. It is stated on the
  value `Mailbox` by `Submit` (a request) and `Drain` (one `Update`), and
  also held as class `SyncMenuView`, whose methods are proved to follow those
  functions. The MenuView calls that `Update` makes are appended to a log.
- `scenario.dfy` (module `MenuScenario`): a concrete scene with a root menu,
  its home page and a second root menu, followed through startup and a change
  of screen.

Two consequences of the code show up in the model:

- Changing away from a view does not touch the views below it. Their
  `_enabled` flags and their layers' history stay as they were
  (`ChangeLeavesDeactivatedSubtree`, `DemoSettingsFlags`). Unity hides them
  only because their ancestor's GameObject is inactive. So after switching
  from `Root` to `Settings`, `GetCurrentView` on Root's sub-layer still
  returns Root's home page.
- The recursion into the home page happens in the middle of the sweep over
  the registry. The model shows that this recursion never touches the layer
  being swept (`HomeChainAvoidsLayer`). Because of that, the result equals
  applying the whole chain against the flags from before the call.

Model assumptions: every view's transform has a parent transform, so the
`Parent` getter never dereferences null. Hash codes of views are nonzero and
pairwise distinct, so layer keys never collide with each other or with the
default layer 0. There is one MenuView per GameObject, so a view is identified
with its node. The registry lists every view of the scene exactly once, as
`FindObjectsOfType<MenuView>(true)` does.

## Model

| member | source | states |
|---|---|---|
| SceneTree.ViewAncestorFrom | Runtime/MenuView.cs:47-55 | the ancestor loop yields a view at or above its start whose transform is not the topmost one, or none |
| SceneTree.ViewAncestorFromIsNearest | Runtime/MenuView.cs:47-55 | when some view lies on the way up below the topmost transform, the loop finds one, and it is the nearest |
| SceneTree.ViewAncestorFromSeesAll | Runtime/MenuView.cs:47-55 | the stop below the topmost transform never changes the result: the loop finds the nearest view at or above its start, wherever it lies |
| SceneTree.ParentView | Runtime/MenuView.cs:42-57 | the resolved Parent is a view strictly above the view, earlier in the tree |
| SceneTree.ParentViewIsNearest | Runtime/MenuView.cs:42-57 | Parent is the nearest view above; it is null only if no eligible transform above carries a view |
| SceneTree.Children | Runtime/MenuView.cs:26-40 | Children holds only views strictly below the view and never the view itself |
| SceneTree.ChildrenComplete | Runtime/MenuView.cs:26-40 | Children holds every view strictly below the view, so with the row above it holds exactly those views |
| SceneTree.SubLayer | Runtime/MenuView.cs:61 | the key of the layer a view's children live in: the view's hash code |
| SceneTree.Layer | Runtime/MenuView.cs:59 | the layer is the default 0 exactly when the view has no parent |
| SceneTree.SubLayerInjective | Runtime/MenuView.cs:61 | distinct views have distinct sub-layer keys |
| SceneTree.SameLayerIffSameParent | Runtime/MenuView.cs:59-61 | two views share a layer exactly when they share a resolved parent |
| SceneTree.DescendantInOtherLayer | Runtime/MenuView.cs:59-61 | a view never shares a layer with a view below it |
| SceneTree.FirstHome | Runtime/MenuView.cs:120-121 | the home search yields a candidate flagged homePageOfParent whose Parent is the view; none only when no candidate qualifies |
| SceneTree.FirstHomeIsFirst | Runtime/MenuView.cs:120-124 | the home page found comes no later among the Children than any other qualifying child: first match wins |
| SceneTree.HomeChild | Runtime/MenuView.cs:119-125 | a home page is a flagged view below the view, whose parent is the view, in the view's sub-layer |
| Transitions.CurrentView | Runtime/MenuView.cs:73-80 | GetCurrentView yields a registered enabled view of the layer; it yields none exactly when the layer has no enabled view |
| Transitions.CurrentViewIsFirst | Runtime/MenuView.cs:76-78 | the view GetCurrentView yields comes no later in the registry than any enabled view of the layer |
| Transitions.CurrentViewFrame | Runtime/MenuView.cs:73-80 | the current view of a layer depends only on the flags of that layer's views |
| Transitions.SoleEnabledIsCurrent | Runtime/MenuView.cs:73-80 | a view that is the only enabled one of its layer is that layer's current view |
| Transitions.Steps | Runtime/MenuView.cs:114-126 | the activations ChangeCurrentView performs: the target in the layer, then, if the target is a view of that layer with a home page, the home page's activations in its own layer |
| Transitions.EnabledAfter | Runtime/MenuView.cs:114-118 | the `_enabled` flags after a chain of activations: in each layer the chain touches, only its target is enabled; every other flag is as before |
| Transitions.Record | Runtime/MenuView.cs:107-112 | the history step of one activation: the layer's current view is recorded when there is one and it differs from the target |
| Transitions.HistoryAfter | Runtime/MenuView.cs:105-127 | `LastViews` after a chain of activations: the history step of each activation in turn, each judged against the flags from before the call |
| Transitions.StepsFollowHomePages | Runtime/MenuView.cs:119-125 | each activation after the first is the home page of the previous one, in its sub-layer; the chain ends at a view with no home page |
| Transitions.StepsBelowTarget | Runtime/MenuView.cs:119-125 | every view the chain activates is the target or lies below it |
| Transitions.StepsDistinctLayers | Runtime/MenuView.cs:114-126 | no two activations of a chain touch the same layer |
| Transitions.HomeChainAvoidsLayer | Runtime/MenuView.cs:119-126 | the home-page recursion made during the sweep never activates a view of the layer being swept |
| Transitions.HistoryAfterAt | Runtime/MenuView.cs:107-112 | per layer, the history after a chain is that layer's own record, or the old entry if the chain does not touch the layer |
| Transitions.HistoryAfterInLayers | Runtime/MenuView.cs:107-112 | every history entry stays a view of the layer it is keyed by |
| Transitions.ChangeActivatesTarget | Runtime/MenuView.cs:114-118 | after a change, the target is the only enabled view of the layer and its current view; a target outside the layer leaves every view of the layer disabled |
| Transitions.ChangeActivatesHomeChain | Runtime/MenuView.cs:119-125 | every view down the home chain is afterwards the only enabled view and the current view of its layer |
| Transitions.ChangeActivatesHomePage | Runtime/MenuView.cs:119-125 | the first qualifying home page of the target becomes the only enabled view of the target's sub-layer, so no later home-flagged sibling is enabled |
| Transitions.ChangeFrame | Runtime/MenuView.cs:114-126 | a view outside the layer that is not below the activated target keeps its flag and its layer's history |
| Transitions.ChangeLeavesDeactivatedSubtree | Runtime/MenuView.cs:114-126 | views below another view of the layer keep their flags and their layers' history |
| Transitions.ChangeRecordsHistory | Runtime/MenuView.cs:107-112 | history of the layer records the previous current view when it differs from the target, and is untouched when it equals the target or no view is current |
| Transitions.ChangeKeepsOneEnabledPerLayer | Runtime/MenuView.cs:114-126 | a change preserves "at most one enabled view per layer" |
| Transitions.ChangeThenBackRestores | Runtime/MenuView.cs:89-112 | with A current, changing to B records A, and changing back to the recorded view makes A current again |
| Transitions.ClosedLayer | Runtime/MenuView.cs:152-157 | the `_enabled` flags after CloseAll(layer): every view of the layer disabled, every other flag as before |
| Transitions.CloseAllLeavesNoCurrent | Runtime/MenuView.cs:152-157 | after CloseAll(layer) the layer has no current view and every other layer keeps its current view |
| Transitions.ClosingKeepsOneEnabledPerLayer | Runtime/MenuView.cs:142-157 | clearing flags, as CloseThisView and CloseAll do, keeps at most one enabled view per layer |
| Transitions.CloseAllKeepsOneEnabledPerLayer | Runtime/MenuView.cs:152-157 | CloseAll keeps at most one enabled view per layer |
| Transitions.FirstOfType | Runtime/MenuView.cs:131-136 | the type lookup yields a registered view of exactly that type; none exactly when no registered view has it |
| Transitions.FirstOfTypeIsFirst | Runtime/MenuView.cs:131-136 | the view found by type comes no later in the registry than any view of that type |
| Transitions.FirstRootHome | Runtime/MenuView.cs:188-193 | the startup selection yields a registered parentless view flagged homePageOfParent; none exactly when there is none |
| Transitions.FirstRootHomeIsFirst | Runtime/MenuView.cs:188-193 | the startup view comes no later in the registry than any other parentless home-flagged view |
| Transitions.NothingEnabledRecordsNothing | Runtime/MenuView.cs:107-112 | while no view is enabled, a change records no history |
| Transitions.InitialScreen | Runtime/MenuView.cs:184-193 | from a fresh scene, startup enables exactly the chosen root and its home chain, the root is current in the default layer, and no history is recorded |
| MenuViews.MenuViews.Load | Runtime/MenuView.cs:186 | the one startup fill of the registry: no view enabled, the never-cleared history still empty, and the engine invariant holds |
| MenuViews.MenuViews.Parent | Runtime/MenuView.cs:42-57 | the Parent getter's loop returns the resolved parent |
| MenuViews.MenuViews.GetLayer | Runtime/MenuView.cs:59-61 | the Layer getter returns the view's layer |
| MenuViews.MenuViews.LastView | Runtime/MenuView.cs:24 | LastView is non-null exactly when the view's layer has history, and is then a view of that layer |
| MenuViews.MenuViews.GetCurrentView | Runtime/MenuView.cs:73-80 | the registry scan returns the layer's current view |
| MenuViews.MenuViews.GetCurrentViewOf | Runtime/MenuView.cs:82-85 | the instance form returns the current view of the view's own layer |
| MenuViews.MenuViews.FindHomePage | Runtime/MenuView.cs:120-125 | the scan of Children returns the view's home page |
| MenuViews.MenuViews.FindView | Runtime/MenuView.cs:131-136 | the scan by exact type returns the first registered view of that type |
| MenuViews.MenuViews.ChangeCurrentView | Runtime/MenuView.cs:105-127 | the flags and the history afterwards are those of the activation chain; the invariant holds and nothing is logged |
| MenuViews.MenuViews.RecordCurrent | Runtime/MenuView.cs:107-112 | the history step records the layer's current view when it exists and differs from the target |
| MenuViews.MenuViews.SweepVisit | Runtime/MenuView.cs:114-126 | one pass of the sweep sets the visited view of the layer and recurses into the home page on meeting the target |
| MenuViews.MenuViews.ChangeToThisView | Runtime/MenuView.cs:100-103 | a change to the view in its own layer |
| MenuViews.MenuViews.ChangeToLastView | Runtime/MenuView.cs:89-93 | no state changes without history for the layer; otherwise a change to the recorded view |
| MenuViews.MenuViews.ChangeToLastViewOf | Runtime/MenuView.cs:95-98 | the instance form goes back in the view's own layer |
| MenuViews.MenuViews.CloseThisView | Runtime/MenuView.cs:142-145 | only the view's own flag is cleared; history and all other flags are unchanged |
| MenuViews.MenuViews.CloseAll | Runtime/MenuView.cs:152-157 | every view of the layer is disabled, other flags and the history are unchanged |
| MenuViews.MenuViews.CloseAllOf | Runtime/MenuView.cs:147-150 | the instance form closes the view's own layer |
| MenuViews.MenuViews.ChangeCurrentViewOfType | Runtime/MenuView.cs:129-139 | changes to the first view of the type; with none, state is unchanged and one "Not found" error is logged |
| MenuViews.MenuViews.CloseViewOfType | Runtime/MenuView.cs:159-169 | closes only the first view of the type; with none, state is unchanged and one error is logged |
| MenuViews.MenuViews.GetViewOfType | Runtime/MenuView.cs:171-181 | returns the first view of the type, or null with one error logged; flags and history are unchanged |
| MenuViews.MenuViews.InitMenus | Runtime/MenuView.cs:188-193 | changes to the first parentless home-flagged view only; with none, state is unchanged |
| MenuViews.NotFound | Runtime/MenuView.cs:138 | the logged message embeds the missing type's name |
| SyncMenu.Initial | Runtime/SyncMenuView.cs:10-16 | the static fields as initialised: both type slots hold SyncMenuView, the layer slot 0, every flag clear |
| SyncMenu.Submit | Runtime/SyncMenuView.cs:51-71 | one request method: it overwrites its own slot, raises its own flag and the shared flag |
| SyncMenu.Drain | Runtime/SyncMenuView.cs:18-43 | one Update: nothing without the shared flag; otherwise every flag cleared and the pending close-all, change and close calls made in that order |
| SyncMenu.InitialIsIdle | Runtime/SyncMenuView.cs:10-16 | the initial fields have every flag clear, so Update does nothing until the first request |
| SyncMenu.SubmitWritesOwnSlot | Runtime/SyncMenuView.cs:51-71 | a request writes its own slot and raises its own flag and the shared flag; other slots and flags are unchanged |
| SyncMenu.SubmitKeepsCoherent | Runtime/SyncMenuView.cs:51-71 | after a request the shared flag is raised, in step with the per-kind flags |
| SyncMenu.DrainKeepsCoherent | Runtime/SyncMenuView.cs:18-43 | after Update nothing is pending |
| SyncMenu.IdleUpdateDoesNothing | Runtime/SyncMenuView.cs:20 | Update with the shared flag clear makes no call and changes nothing |
| SyncMenu.DrainIsIdempotent | Runtime/SyncMenuView.cs:20-41 | a second Update with no request in between makes no call |
| SyncMenu.DrainClearsFlags | Runtime/SyncMenuView.cs:21-41 | a pending Update clears every flag and keeps the targets |
| SyncMenu.DrainOrder | Runtime/SyncMenuView.cs:23-41 | calls come in the order close-all, change, close, so no kind runs twice |
| SyncMenu.DrainRunsPending | Runtime/SyncMenuView.cs:21-41 | a pending Update runs exactly the kinds whose flag is set, each with its slot's target |
| SyncMenu.LatestRequestWins | Runtime/SyncMenuView.cs:51-71 | a same-kind request overwrites the earlier one entirely |
| SyncMenu.TwoChangesCoalesce | Runtime/SyncMenuView.cs:29-34 | two change requests before an Update produce one change, to the later target |
| SyncMenu.RequestsOfOtherKindsCommute | Runtime/SyncMenuView.cs:51-71 | requests of different kinds commute |
| SyncMenu.LastChangeIsLatest | Runtime/SyncMenuView.cs:53-54 | the remembered change target is that of the last change request |
| SyncMenu.LastCloseIsLatest | Runtime/SyncMenuView.cs:60-61 | the remembered close target is that of the last close request |
| SyncMenu.LastCloseAllIsLatest | Runtime/SyncMenuView.cs:68 | the remembered close-all layer is that of the last close-all request |
| SyncMenu.SubmitAllChangeSlot | Runtime/SyncMenuView.cs:51-57 | after a run of requests the change slot holds the latest change target, and its flag says whether a change was requested |
| SyncMenu.SubmitAllCloseSlot | Runtime/SyncMenuView.cs:58-64 | after a run of requests the close slot holds the latest close target, and its flag says whether a close was requested |
| SyncMenu.SubmitAllCloseAllSlot | Runtime/SyncMenuView.cs:66-71 | after a run of requests the close-all slot holds the latest layer, and its flag says whether a close-all was requested |
| SyncMenu.SubmitAllPending | Runtime/SyncMenuView.cs:51-71 | after a run of requests the shared flag is raised when any request was posted |
| SyncMenu.SubmitAllSlots | Runtime/SyncMenuView.cs:51-71 | after a run of requests each slot holds the latest target of its kind and each flag says whether that kind was requested |
| SyncMenu.RequestWindow | Runtime/SyncMenuView.cs:18-71 | from an idle mailbox, requests then one Update make one call per kind requested, with the latest target, in the fixed order |
| SyncMenu.SyncMenuView.constructor | Runtime/SyncMenuView.cs:10-16 | the fields start as the initial mailbox with an empty call log |
| SyncMenu.SyncMenuView.Update | Runtime/SyncMenuView.cs:18-43 | the fields become the drained mailbox and the calls are appended to the log |
| SyncMenu.SyncMenuView.ChangeCurrentView | Runtime/SyncMenuView.cs:51-57 | the fields become the mailbox with the change request submitted |
| SyncMenu.SyncMenuView.CloseView | Runtime/SyncMenuView.cs:58-64 | the fields become the mailbox with the close request submitted |
| SyncMenu.SyncMenuView.CloseAll | Runtime/SyncMenuView.cs:66-71 | the fields become the mailbox with the close-all request submitted |
| MenuScenario.DemoParents | Runtime/MenuView.cs:42-61 | views directly under a top-level object are parentless and in layer 0; a view under a view takes that view's hash as its layer |
| MenuScenario.DemoSelectsRoot | Runtime/MenuView.cs:188-193 | startup selects the root menu flagged homePageOfParent |
| MenuScenario.DemoStartupFlags | Runtime/MenuView.cs:114-126 | startup enables the root menu and its home page, and nothing else |
| MenuScenario.DemoStartupHistory | Runtime/MenuView.cs:107-112 | startup records no history |
| MenuScenario.DemoSettingsFlags | Runtime/MenuView.cs:114-126 | changing to Settings disables Root and enables Settings; Root's home page keeps its flag |
| MenuScenario.DemoSettingsHistory | Runtime/MenuView.cs:107-112 | changing to Settings records Root as the last view of layer 0 |

## Left out

- Unity host primitives are not modelled: `GetComponentsInChildren`, `GetComponent`, `FindObjectsOfType`, `transform` traversal and `new GameObject(...).AddComponent`. They are replaced by the static scene tree and a registry that lists every view once.
- `gameObject.SetActive` is not modelled: only the `_enabled` field is tracked, and visibility through inactive ancestors is outside the model.
- The order in which `GetComponentsInChildren` lists views is taken to be depth-first preorder, with siblings in scene order. Unity defines the actual order, which only matters for which home page is found first.
- `Debug.LogError` becomes an appended message in the `errors` log.
- `GetHashCode` is not a real hash: it is an opaque per-view value, assumed nonzero and distinct across views.
- SceneTree.ViewAncestorFrom: the stop of the `Parent` loop below the topmost transform never shows. A view on a top-level object has no parent transform, and the model excludes it, as the next line says. In the C# code such a view makes `Parent` throw, and startup reads its `Parent` or its `Layer`. So the stop changes nothing in a run that does not crash.
- The null dereference in `Parent` when a view's transform has no parent is excluded by a precondition: every view has a parent transform.
- The lazy `_parent` and `_children` caches are not modelled as state: the tree is static, so they always equal the functions `ParentView` and `Children`. A failed `Parent` lookup is not cached, but it would fail again on the same tree.
- The abstract `Init` hook and overrides of the virtual `ChangeToThisView` and `CloseThisView` are not modelled; only the base behaviour is.
- The generic type parameter `T` of `ChangeCurrentView<T>`, `CloseView<T>` and `GetView<T>` becomes a type name compared with each view's exact runtime type. The cast in `GetView<T>` is not modelled.
- The non-generic `MenuView.ChangeCurrentView(Type)` and `MenuView.CloseView(Type)` that `SyncMenuView.Update` calls are not part of this model. The mailbox records them in its call log without running them, and so it records `MenuView.CloseAll` too.
- The `lock` statements and cross-thread races of `SyncMenuView` are not modelled; the mailbox is single-threaded.
- `RuntimeInitializeOnLoadMethod` registration and `SyncMenuView.InitMenus`, which creates the GameObject, are left out. `MenuViews.Load` stands for the single startup call of `MenuView.InitMenus`, which fills `_views` after the first scene loads. Its empty history would not hold for a later rebuild, because the static `LastViews` is never cleared.
