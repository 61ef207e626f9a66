/**
 * SyncMenuView: a mailbox through which any code path asks for a menu
 * change, drained once per frame by Update. Each kind of request has a slot
 * for its target and a flag; a shared flag says that something is pending.
 * The state machine is stated on the value `Mailbox` by `Submit` and
 * `Drain`; the class holds the same state in fields and its methods are
 * proved to follow those functions. The MenuView calls a drain makes are
 * appended to a log instead of being run.
 */
module SyncMenu {
  import opened Optional
  import opened SceneTree

  /** The type both target slots hold before any request: typeof(SyncMenuView). */
  const SyncMenuViewType: TypeName := "SyncMenuView"

  /** A call the mailbox makes into MenuView. */
  datatype EngineCall =
    | CloseAllCall(layer: int)
    | ChangeViewCall(kind: TypeName)
    | CloseViewCall(kind: TypeName)

  /** A request, as posted by ChangeCurrentView<T>, CloseView<T> or CloseAll. */
  datatype Request =
    | ChangeRequest(kind: TypeName)
    | CloseRequest(kind: TypeName)
    | CloseAllRequest(layer: int)

  /** The static fields of SyncMenuView. */
  datatype Mailbox = Mailbox(
    targetOfChange: TypeName, hasChangeView: bool,
    targetOfClose: TypeName, hasClose: bool,
    targetLayerOfCloseAll: int, hasCloseAll: bool,
    hasChange: bool)

  /** The fields as initialised: both type slots name SyncMenuView, the
      layer slot holds 0 and every flag is clear. */
  function Initial(): Mailbox {
    Mailbox(SyncMenuViewType, false, SyncMenuViewType, false, 0, false, false)
  }

  /** The shared flag is raised exactly when some request is pending. */
  predicate Coherent(m: Mailbox) {
    m.hasChange <==> m.hasCloseAll || m.hasChangeView || m.hasClose
  }

  /** A request method: it overwrites its own slot and raises its own flag
      and the shared one. */
  function Submit(m: Mailbox, r: Request): Mailbox {
    match r
    case ChangeRequest(kind) => m.(targetOfChange := kind, hasChange := true, hasChangeView := true)
    case CloseRequest(kind) => m.(targetOfClose := kind, hasChange := true, hasClose := true)
    case CloseAllRequest(layer) => m.(targetLayerOfCloseAll := layer, hasChange := true, hasCloseAll := true)
  }

  /** Several requests, in the order they were posted (the last one is
      applied last). */
  function SubmitAll(m: Mailbox, rs: seq<Request>): Mailbox
    decreases |rs|
  {
    if rs == [] then m else Submit(SubmitAll(m, rs[..|rs| - 1]), rs[|rs| - 1])
  }

  datatype Drained = Drained(state: Mailbox, calls: seq<EngineCall>)

  /** Update: nothing when no request is pending; otherwise clear the shared
      flag, then run the close-all, change and close requests whose flags
      are raised, in that order, clearing each flag. */
  function Drain(m: Mailbox): Drained {
    if !m.hasChange then Drained(m, [])
    else
      Drained(
        m.(hasChange := false, hasCloseAll := false, hasChangeView := false, hasClose := false),
        (if m.hasCloseAll then [CloseAllCall(m.targetLayerOfCloseAll)] else [])
        + (if m.hasChangeView then [ChangeViewCall(m.targetOfChange)] else [])
        + (if m.hasClose then [CloseViewCall(m.targetOfClose)] else []))
  }

  /** Requests of the same kind use the same slot. */
  predicate SameKind(a: Request, b: Request) {
    || (a.ChangeRequest? && b.ChangeRequest?)
    || (a.CloseRequest? && b.CloseRequest?)
    || (a.CloseAllRequest? && b.CloseAllRequest?)
  }

  /** The position of a call in the fixed order of Update. */
  function Rank(c: EngineCall): nat {
    match c
    case CloseAllCall(_) => 0
    case ChangeViewCall(_) => 1
    case CloseViewCall(_) => 2
  }

  // ------------------------------------------------------------ Properties

  /** The fields as initialised are coherent and Update leaves them alone
      until the first request. */
  lemma InitialIsIdle()
    ensures Coherent(Initial())
    ensures Drain(Initial()) == Drained(Initial(), [])
    ensures Initial().targetOfChange == SyncMenuViewType && Initial().targetOfClose == SyncMenuViewType
  {
  }

  /** A request writes its own slot and raises its own flag and the shared
      one; the other slots and flags keep their values. */
  lemma SubmitWritesOwnSlot(m: Mailbox, r: Request)
    ensures var n := Submit(m, r);
      && n.hasChange
      && (if r.ChangeRequest? then n.targetOfChange == r.kind && n.hasChangeView
          else n.targetOfChange == m.targetOfChange && n.hasChangeView == m.hasChangeView)
      && (if r.CloseRequest? then n.targetOfClose == r.kind && n.hasClose
          else n.targetOfClose == m.targetOfClose && n.hasClose == m.hasClose)
      && (if r.CloseAllRequest? then n.targetLayerOfCloseAll == r.layer && n.hasCloseAll
          else n.targetLayerOfCloseAll == m.targetLayerOfCloseAll && n.hasCloseAll == m.hasCloseAll)
  {
  }

  /** Requests and Update keep the shared flag in step with the others. */
  lemma SubmitKeepsCoherent(m: Mailbox, r: Request)
    requires Coherent(m)
    ensures Coherent(Submit(m, r)) && Submit(m, r).hasChange
  {
  }

  lemma DrainKeepsCoherent(m: Mailbox)
    requires Coherent(m)
    ensures Coherent(Drain(m).state) && !Drain(m).state.hasChange
  {
  }

  /** Update with nothing pending makes no call and changes nothing. */
  lemma IdleUpdateDoesNothing(m: Mailbox)
    requires !m.hasChange
    ensures Drain(m).state == m && Drain(m).calls == []
  {
  }

  /** A second Update with no request in between makes no call. */
  lemma DrainIsIdempotent(m: Mailbox)
    ensures Drain(Drain(m).state) == Drained(Drain(m).state, [])
  {
  }

  /** Update clears every flag and keeps the targets. */
  lemma DrainClearsFlags(m: Mailbox)
    ensures var d := Drain(m).state;
      && !d.hasChange
      && (m.hasChange ==> !d.hasCloseAll && !d.hasChangeView && !d.hasClose)
      && d.targetOfChange == m.targetOfChange && d.targetOfClose == m.targetOfClose
      && d.targetLayerOfCloseAll == m.targetLayerOfCloseAll
  {
  }

  /** The calls of one Update come in the order close-all, change, close,
      so no kind is run twice. */
  lemma DrainOrder(m: Mailbox)
    ensures forall i, j :: 0 <= i < j < |Drain(m).calls| ==> Rank(Drain(m).calls[i]) < Rank(Drain(m).calls[j])
  {
  }

  /** With the shared flag raised, Update runs exactly the pending requests,
      each with the target its slot holds. */
  lemma DrainRunsPending(m: Mailbox)
    requires m.hasChange
    ensures forall l :: CloseAllCall(l) in Drain(m).calls <==> m.hasCloseAll && l == m.targetLayerOfCloseAll
    ensures forall k :: ChangeViewCall(k) in Drain(m).calls <==> m.hasChangeView && k == m.targetOfChange
    ensures forall k :: CloseViewCall(k) in Drain(m).calls <==> m.hasClose && k == m.targetOfClose
  {
  }

  /** Coalescing: of two requests of one kind before an Update only the later
      one is remembered. */
  lemma LatestRequestWins(m: Mailbox, r1: Request, r2: Request)
    requires SameKind(r1, r2)
    ensures Submit(Submit(m, r1), r2) == Submit(m, r2)
  {
  }

  /** Two change requests between Updates make one change, to the later target. */
  lemma TwoChangesCoalesce(m: Mailbox, first: TypeName, second: TypeName)
    requires Coherent(m) && !m.hasChange
    ensures Drain(Submit(Submit(m, ChangeRequest(first)), ChangeRequest(second))).calls == [ChangeViewCall(second)]
  {
  }

  /** Requests of different kinds do not interfere: the order in which they
      are posted does not matter, Update imposes its own. */
  lemma RequestsOfOtherKindsCommute(m: Mailbox, r1: Request, r2: Request)
    requires !SameKind(r1, r2)
    ensures Submit(Submit(m, r1), r2) == Submit(Submit(m, r2), r1)
  {
  }

  /** The target of the last request of one kind among `rs`. */
  function LastChange(rs: seq<Request>): (r: Option<TypeName>)
    ensures r.Some? <==> exists i :: 0 <= i < |rs| && rs[i].ChangeRequest?
    decreases |rs|
  {
    if rs == [] then None
    else if rs[|rs| - 1].ChangeRequest? then Some(rs[|rs| - 1].kind)
    else
      var r := LastChange(rs[..|rs| - 1]);
      assert forall i :: 0 <= i < |rs| - 1 ==> rs[..|rs| - 1][i] == rs[i];
      r
  }

  function LastClose(rs: seq<Request>): (r: Option<TypeName>)
    ensures r.Some? <==> exists i :: 0 <= i < |rs| && rs[i].CloseRequest?
    decreases |rs|
  {
    if rs == [] then None
    else if rs[|rs| - 1].CloseRequest? then Some(rs[|rs| - 1].kind)
    else
      var r := LastClose(rs[..|rs| - 1]);
      assert forall i :: 0 <= i < |rs| - 1 ==> rs[..|rs| - 1][i] == rs[i];
      r
  }

  function LastCloseAll(rs: seq<Request>): (r: Option<int>)
    ensures r.Some? <==> exists i :: 0 <= i < |rs| && rs[i].CloseAllRequest?
    decreases |rs|
  {
    if rs == [] then None
    else if rs[|rs| - 1].CloseAllRequest? then Some(rs[|rs| - 1].layer)
    else
      var r := LastCloseAll(rs[..|rs| - 1]);
      assert forall i :: 0 <= i < |rs| - 1 ==> rs[..|rs| - 1][i] == rs[i];
      r
  }

  /** LastChange yields the target of the change request after which no other came. */
  lemma {:induction false} LastChangeIsLatest(rs: seq<Request>, i: nat)
    requires i < |rs| && rs[i].ChangeRequest?
    requires forall j :: i < j < |rs| ==> !rs[j].ChangeRequest?
    ensures LastChange(rs) == Some(rs[i].kind)
    decreases |rs|
  {
    if i < |rs| - 1 {
      LastChangeIsLatest(rs[..|rs| - 1], i);
    }
  }

  /** LastClose yields the target of the close request after which no other came. */
  lemma {:induction false} LastCloseIsLatest(rs: seq<Request>, i: nat)
    requires i < |rs| && rs[i].CloseRequest?
    requires forall j :: i < j < |rs| ==> !rs[j].CloseRequest?
    ensures LastClose(rs) == Some(rs[i].kind)
    decreases |rs|
  {
    if i < |rs| - 1 {
      LastCloseIsLatest(rs[..|rs| - 1], i);
    }
  }

  /** LastCloseAll yields the target of the close-all request after which no other came. */
  lemma {:induction false} LastCloseAllIsLatest(rs: seq<Request>, i: nat)
    requires i < |rs| && rs[i].CloseAllRequest?
    requires forall j :: i < j < |rs| ==> !rs[j].CloseAllRequest?
    ensures LastCloseAll(rs) == Some(rs[i].layer)
    decreases |rs|
  {
    if i < |rs| - 1 {
      LastCloseAllIsLatest(rs[..|rs| - 1], i);
    }
  }

  /** The calls an Update makes after the requests `rs` reach a mailbox with
      nothing pending: one per kind requested, with the latest target. */
  function WindowCalls(rs: seq<Request>): seq<EngineCall> {
    (if LastCloseAll(rs).Some? then [CloseAllCall(LastCloseAll(rs).value)] else [])
    + (if LastChange(rs).Some? then [ChangeViewCall(LastChange(rs).value)] else [])
    + (if LastClose(rs).Some? then [CloseViewCall(LastClose(rs).value)] else [])
  }

  /** After the requests `rs` the change slot holds the latest change
      target and its flag says whether a change was requested. */
  lemma {:induction false} SubmitAllChangeSlot(m: Mailbox, rs: seq<Request>)
    ensures var n := SubmitAll(m, rs);
      && n.hasChangeView == (m.hasChangeView || LastChange(rs).Some?)
      && n.targetOfChange == (if LastChange(rs).Some? then LastChange(rs).value else m.targetOfChange)
    decreases |rs|
  {
    if rs != [] {
      SubmitAllChangeSlot(m, rs[..|rs| - 1]);
    }
  }

  /** After the requests `rs` the close slot holds the latest close target
      and its flag says whether a close was requested. */
  lemma {:induction false} SubmitAllCloseSlot(m: Mailbox, rs: seq<Request>)
    ensures var n := SubmitAll(m, rs);
      && n.hasClose == (m.hasClose || LastClose(rs).Some?)
      && n.targetOfClose == (if LastClose(rs).Some? then LastClose(rs).value else m.targetOfClose)
    decreases |rs|
  {
    if rs != [] {
      SubmitAllCloseSlot(m, rs[..|rs| - 1]);
    }
  }

  /** After the requests `rs` the close-all slot holds the latest layer and
      its flag says whether a close-all was requested. */
  lemma {:induction false} SubmitAllCloseAllSlot(m: Mailbox, rs: seq<Request>)
    ensures var n := SubmitAll(m, rs);
      && n.hasCloseAll == (m.hasCloseAll || LastCloseAll(rs).Some?)
      && n.targetLayerOfCloseAll == (if LastCloseAll(rs).Some? then LastCloseAll(rs).value else m.targetLayerOfCloseAll)
    decreases |rs|
  {
    if rs != [] {
      SubmitAllCloseAllSlot(m, rs[..|rs| - 1]);
    }
  }

  /** After the requests `rs` the shared flag is raised when any was posted. */
  lemma {:induction false} SubmitAllPending(m: Mailbox, rs: seq<Request>)
    ensures SubmitAll(m, rs).hasChange == (m.hasChange || rs != [])
    decreases |rs|
  {
    if rs != [] {
      SubmitAllPending(m, rs[..|rs| - 1]);
    }
  }

  /** After the requests `rs` each slot holds the latest target of its kind
      and each flag says whether that kind was requested. */
  lemma SubmitAllSlots(m: Mailbox, rs: seq<Request>)
    ensures var n := SubmitAll(m, rs);
      && n.hasChange == (m.hasChange || rs != [])
      && n.hasChangeView == (m.hasChangeView || LastChange(rs).Some?)
      && n.targetOfChange == (if LastChange(rs).Some? then LastChange(rs).value else m.targetOfChange)
      && n.hasClose == (m.hasClose || LastClose(rs).Some?)
      && n.targetOfClose == (if LastClose(rs).Some? then LastClose(rs).value else m.targetOfClose)
      && n.hasCloseAll == (m.hasCloseAll || LastCloseAll(rs).Some?)
      && n.targetLayerOfCloseAll == (if LastCloseAll(rs).Some? then LastCloseAll(rs).value else m.targetLayerOfCloseAll)
  {
    SubmitAllPending(m, rs);
    SubmitAllChangeSlot(m, rs);
    SubmitAllCloseSlot(m, rs);
    SubmitAllCloseAllSlot(m, rs);
  }

  /** One request window: from a mailbox with nothing pending, the requests
      `rs` followed by an Update make exactly one call per kind requested,
      with the latest target of that kind, in the fixed order. */
  lemma RequestWindow(m: Mailbox, rs: seq<Request>)
    requires Coherent(m) && !m.hasChange
    ensures Drain(SubmitAll(m, rs)).calls == WindowCalls(rs)
  {
    SubmitAllSlots(m, rs);
    if rs != [] {
      assert LastChange(rs).Some? || LastClose(rs).Some? || LastCloseAll(rs).Some? by {
        var last := rs[|rs| - 1];
        assert last.ChangeRequest? || last.CloseRequest? || last.CloseAllRequest?;
      }
    }
  }

  // ---------------------------------------------------------------- State

  /** The static state of SyncMenuView and the log of the MenuView calls it
      has made. */
  class SyncMenuView {
    var targetOfChange: TypeName
    var hasChangeView: bool
    var targetOfClose: TypeName
    var hasClose: bool
    var targetLayerOfCloseAll: int
    var hasCloseAll: bool
    var hasChange: bool
    /** MenuView.CloseAll, ChangeCurrentView(Type) and CloseView(Type), as called. */
    var log: seq<EngineCall>

    /** The fields as one value. */
    function Box(): Mailbox
      reads this
    {
      Mailbox(targetOfChange, hasChangeView, targetOfClose, hasClose, targetLayerOfCloseAll, hasCloseAll, hasChange)
    }

    /** The static initialisers. */
    constructor ()
      ensures Box() == Initial() && log == []
    {
      targetOfChange := SyncMenuViewType;
      hasChangeView := false;
      targetOfClose := SyncMenuViewType;
      hasClose := false;
      targetLayerOfCloseAll := 0;
      hasCloseAll := false;
      hasChange := false;
      log := [];
    }

    /** Update: drain the pending requests once. */
    method Update()
      modifies this
      ensures Box() == Drain(old(Box())).state
      ensures log == old(log) + Drain(old(Box())).calls
    {
      if !hasChange {
        return;
      }
      hasChange := false;
      if hasCloseAll {
        hasCloseAll := false;
        log := log + [CloseAllCall(targetLayerOfCloseAll)];
      }
      if hasChangeView {
        hasChangeView := false;
        log := log + [ChangeViewCall(targetOfChange)];
      }
      if hasClose {
        hasClose := false;
        log := log + [CloseViewCall(targetOfClose)];
      }
    }

    /** ChangeCurrentView<T>: ask for a change to the view of type `kind`. */
    method ChangeCurrentView(kind: TypeName)
      modifies this
      ensures Box() == Submit(old(Box()), ChangeRequest(kind)) && log == old(log)
    {
      targetOfChange := kind;
      hasChange := true;
      hasChangeView := true;
    }

    /** CloseView<T>: ask for the view of type `kind` to be closed. */
    method CloseView(kind: TypeName)
      modifies this
      ensures Box() == Submit(old(Box()), CloseRequest(kind)) && log == old(log)
    {
      targetOfClose := kind;
      hasChange := true;
      hasClose := true;
    }

    /** CloseAll(layer): ask for every view of `layer` to be closed. */
    method CloseAll(layer: int)
      modifies this
      ensures Box() == Submit(old(Box()), CloseAllRequest(layer)) && log == old(log)
    {
      targetLayerOfCloseAll := layer;
      hasChange := true;
      hasCloseAll := true;
    }
  }
}
