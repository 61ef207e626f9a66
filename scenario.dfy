/**
 * A concrete scene: a top-level canvas holding the root menu `Root` (flagged
 * homePageOfParent) with its home page `Main` below it, and a second
 * root-level menu `Settings`. The lemmas follow the startup selection and a
 * change to Settings through the transition functions.
 */
module MenuScenario {
  import opened Optional
  import opened SceneTree
  import opened Transitions

  const Canvas: nat := 0
  const Root: nat := 1
  const Main: nat := 2
  const Settings: nat := 3

  /** Hash codes of the three views (any nonzero distinct values do). */
  const RootHash: int := 11
  const MainHash: int := 12
  const SettingsHash: int := 13

  function DemoScene(): Scene {
    Scene([
      Transform(-1, None),
      Transform(Canvas, Some(ViewInfo("RootMenu", true, RootHash))),
      Transform(Root, Some(ViewInfo("MainMenu", true, MainHash))),
      Transform(Canvas, Some(ViewInfo("SettingsMenu", false, SettingsHash)))
    ])
  }

  /** `_views` in the order the scene lists its menus. */
  function DemoRegistry(): seq<nat> {
    [Root, Main, Settings]
  }

  lemma DemoIsValid()
    ensures ValidRegistry(DemoScene(), DemoRegistry())
  {
    var s := DemoScene();
    forall v | v in ViewSet(s)
      ensures v in DemoRegistry()
    {
    }
  }

  /** Root and Settings sit directly under the top-level canvas, which
      carries no view, so neither has a view above it: both are root views
      of the default layer; Main's parent is Root. */
  lemma DemoParents()
    ensures WellFormed(DemoScene())
    ensures ParentView(DemoScene(), Root) == None
    ensures ParentView(DemoScene(), Settings) == None
    ensures ParentView(DemoScene(), Main) == Some(Root)
    ensures Layer(DemoScene(), Root) == DefaultLayer && Layer(DemoScene(), Settings) == DefaultLayer
    ensures Layer(DemoScene(), Main) == RootHash
  {
    DemoIsValid();
  }

  /** Main is the home page of Root; Main and Settings have none. */
  lemma DemoHomePages()
    ensures WellFormed(DemoScene())
    ensures HomeChild(DemoScene(), Root) == Some(Main)
    ensures HomeChild(DemoScene(), Main) == None
    ensures HomeChild(DemoScene(), Settings) == None
  {
    var s := DemoScene();
    DemoParents();
    assert Subtree(s, Main) == [Main];
    assert Subtree(s, Root) == [Root, Main];
    assert Subtree(s, Settings) == [Settings];
    assert Children(s, Root) == [Main];
    assert Children(s, Main) == [];
    assert Children(s, Settings) == [];
  }

  /** The flags after InitMenus in the freshly loaded scene. */
  function AfterInit(): seq<bool> {
    [false, true, true, false]
  }

  /** InitMenus selects Root, the first parentless view flagged homePageOfParent. */
  lemma DemoSelectsRoot()
    ensures ValidRegistry(DemoScene(), DemoRegistry())
    ensures FirstRootHome(DemoScene(), DemoRegistry()) == Some(Root)
  {
    DemoIsValid();
    DemoParents();
    assert RootHome(DemoScene(), Root);
  }

  /** Changing to Root activates Root, then its home page Main. */
  lemma DemoRootChain()
    ensures WellFormed(DemoScene())
    ensures Steps(DemoScene(), Root, DefaultLayer) == [Step(Root, DefaultLayer), Step(Main, RootHash)]
  {
    var s := DemoScene();
    DemoParents();
    DemoHomePages();
    assert Steps(s, Main, RootHash) == [Step(Main, RootHash)];
  }

  /** Startup enables Root and Main and nothing else. */
  lemma DemoStartupFlags()
    ensures WellFormed(DemoScene())
    ensures EnabledAfter(DemoScene(), [false, false, false, false], Steps(DemoScene(), Root, DefaultLayer)) == AfterInit()
  {
    var s := DemoScene();
    DemoParents();
    DemoRootChain();
    var st := Steps(s, Root, DefaultLayer);
    assert TargetAt(st, DefaultLayer) == Some(Root);
    assert TargetAt(st, RootHash) == Some(Main);
    var en := EnabledAfter(s, [false, false, false, false], st);
    assert en[0] == false && en[1] == true && en[2] == true && en[3] == false;
  }

  /** Startup in an empty history records nothing: no layer had a current view. */
  lemma DemoStartupHistory()
    ensures ValidRegistry(DemoScene(), DemoRegistry())
    ensures HistoryAfter(DemoScene(), DemoRegistry(), [false, false, false, false], map[],
                         Steps(DemoScene(), Root, DefaultLayer)) == map[]
  {
    DemoIsValid();
    NothingEnabledRecordsNothing(DemoScene(), DemoRegistry(), [false, false, false, false], map[],
                                 Steps(DemoScene(), Root, DefaultLayer));
  }

  /** ChangeCurrentView<SettingsMenu> finds Settings. */
  lemma DemoFindsSettings()
    ensures ValidRegistry(DemoScene(), DemoRegistry())
    ensures FirstOfType(DemoScene(), DemoRegistry(), "SettingsMenu") == Some(Settings)
  {
    DemoIsValid();
  }

  /** Settings has no home page, so changing to it is a single activation. */
  lemma DemoSettingsChain()
    ensures WellFormed(DemoScene())
    ensures Steps(DemoScene(), Settings, DefaultLayer) == [Step(Settings, DefaultLayer)]
  {
    DemoParents();
    DemoHomePages();
  }

  /** After startup, changing to Settings replaces Root in the default layer.
      Main, in Root's sub-layer, keeps its Enabled flag: closing Root does
      not reach it. */
  lemma DemoSettingsFlags()
    ensures WellFormed(DemoScene())
    ensures EnabledAfter(DemoScene(), AfterInit(), Steps(DemoScene(), Settings, DefaultLayer))
         == [false, false, true, true]
  {
    var s := DemoScene();
    DemoParents();
    DemoSettingsChain();
    var st := Steps(s, Settings, DefaultLayer);
    assert TargetAt(st, DefaultLayer) == Some(Settings);
    assert TargetAt(st, RootHash) == None;
    var en := EnabledAfter(s, AfterInit(), st);
    assert en[0] == false;
    assert en[1] == false;
    assert en[2] == true;
    assert en[3] == true;
  }

  /** The change to Settings records Root as the last view of the default layer. */
  lemma DemoSettingsHistory()
    ensures ValidRegistry(DemoScene(), DemoRegistry())
    ensures HistoryAfter(DemoScene(), DemoRegistry(), AfterInit(), map[],
                         Steps(DemoScene(), Settings, DefaultLayer)) == map[DefaultLayer := Root]
  {
    var s := DemoScene();
    var reg := DemoRegistry();
    DemoIsValid();
    DemoParents();
    DemoSettingsChain();
    var st := Steps(s, Settings, DefaultLayer);
    assert CurrentView(s, reg, AfterInit(), DefaultLayer) == Some(Root);
    assert HistoryAfter(s, reg, AfterInit(), map[], st)
        == HistoryAfter(s, reg, AfterInit(), map[DefaultLayer := Root], []);
  }
}
