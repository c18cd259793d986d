/**
 * AppMenuModel (plugin/appmenumodel.cpp): the list model the applet shows.
 * It discovers the active window's menu from the two appmenu window
 * properties (the same walk up the transient chain as the X11 backend),
 * owns the DBusMenuImporter of the menu it found, coalesces its own
 * modelNeedsUpdate signals into a single queued update(), and presents the
 * top-level actions of the importer's root menu as rows.
 *
 * The model is a value (Model), each slot a function of it and of the
 * Desktop snapshot the window system reports; the class AppMenuModel
 * carries out the same slots step by step and is proved against them.
 * Calls posted with Qt::QueuedConnection wait in `queue` until the event
 * loop runs them (ProcessQueued); emitted signals are kept in a log.
 */
module AppMenuModel {
  import opened Wrappers
  import opened WindowSystem
  import opened Utf8
  import opened MenuAction
  import opened MenuTree
  import Importer

  /** Qt::UserRole + 1: the text of a top-level action. */
  const MenuRole: int := 257
  /** Qt::UserRole + 2: the top-level action itself. */
  const ActionRole: int := 258

  /** The signals of the model, as they appear in the log. */
  datatype ModelSignal =
    | MenuAvailableChanged
    | ModelNeedsUpdate
    | FilterByActiveChanged
    | FilterChildrenChanged
    | VisibleChanged
    | ScreenGeometryChanged
    | WinIdChanged
    | ModelReset              // beginResetModel() and endResetModel()
    | DataChanged(row: int)
    | RequestActivateIndex(index: int)

  /** A call posted to the event loop: update() on the model, or updateMenu() on the importer of one generation. */
  datatype Queued = RunUpdate | RefreshMenu(importer: nat)

  /**
   * What m_menu points at: nothing, the root menu of the current importer,
   * or the root menu of a replaced importer that the event loop has not
   * deleted yet (its objects frozen as they were at the replacement).
   */
  datatype MenuRef = NoMenu | CurrentMenu | RetiredMenu(objects: Tree)

  /** A QVariant that data() returns. */
  datatype RoleValue = MenuText(text: string) | ActionPointer(action: Handle)

  /** The properties of the model and the windows it follows. */
  datatype View = View(
    filterByActive: bool,
    filterChildren: bool,
    menuAvailable: bool,
    visible: bool,
    screenGeometry: Rect,
    winId: int,
    currentWindowId: WId,
    delayedMenuWindowId: WId,
    filterInstalled: bool)

  /**
   * Where the menu comes from: the service and object path in use, the
   * services watched, the state of m_importer, the number of importers
   * created (so that a queued updateMenu can be told apart from one posted
   * to a replaced importer), what m_menu points at, and, per top-level
   * action of the current importer, the number of changed and destroyed
   * connections made to it.
   */
  datatype Source = Source(
    serviceName: seq<byte>,
    menuObjectPath: seq<byte>,
    watchedServices: seq<seq<byte>>,
    importer: Option<Importer.State>,
    generation: nat,
    menu: MenuRef,
    watches: multiset<Handle>)

  /** The members of AppMenuModel, the calls it has posted, and the signals it has emitted. */
  datatype Model = Model(view: View, source: Source, updatePending: bool, queue: seq<Queued>, signals: seq<ModelSignal>)

  /** An update() is pending exactly when one is queued, and never more than one is. */
  predicate QueueInv(m: Model)
  {
    (m.updatePending <==> RunUpdate in m.queue) && multiset(m.queue)[RunUpdate] <= 1
  }

  /**
   * The importer's state is consistent; a service in use always has an
   * importer; m_menu points at the current importer's menu only when
   * there is one, and a retired menu's objects
   * are well formed.
   */
  predicate SourceInv(s: Source)
  {
    (s.importer.Some? ==> Importer.Inv(s.importer.value))
    && (s.serviceName != [] ==> s.importer.Some?)
    && MenuOwned(s)
    && (s.menu.RetiredMenu? ==> Valid(s.menu.objects))
  }

  /** m_menu points at the current importer's menu only when there is an importer. */
  predicate MenuOwned(s: Source)
  {
    s.menu.CurrentMenu? ==> s.importer.Some?
  }

  predicate Inv(m: Model)
  {
    QueueInv(m) && SourceInv(m.source)
  }

  /** The members' initial values; m_menuAvailable has no initializer and is a parameter. */
  function Start(menuAvailable: bool): (m: Model)
    ensures Inv(m) && m.view.winId == -1 && m.view.currentWindowId == 0
    ensures m.source.importer.None? && m.source.menu.NoMenu?
    ensures !m.updatePending && m.queue == [] && m.signals == []
  {
    Model(View(false, false, menuAvailable, true, NullRect, -1, 0, 0, false),
          Source([], [], [], None, 0, NoMenu, multiset{}),
          false, [], [])
  }

  /** Only the view and the signal log differ. */
  predicate ViewOnly(m: Model, r: Model)
  {
    r.source == m.source && r.updatePending == m.updatePending && r.queue == m.queue
  }

  /** A model whose view and signal log differ from an invariant-holding one keeps the invariant. */
  lemma ViewOnlyKeepsInv(m: Model, r: Model)
    requires Inv(m) && ViewOnly(m, r)
    ensures Inv(r)
  {
  }

  // ---------------------------------------------------------------------
  // Coalesced updates
  // ---------------------------------------------------------------------

  /** emit modelNeedsUpdate(), with the connected lambda: queue update() unless one is pending. */
  function AfterNeedsUpdate(m: Model): (r: Model)
    ensures r.updatePending && r.signals == m.signals + [ModelNeedsUpdate]
    ensures r.view == m.view && r.source == m.source
  {
    var m1 := m.(signals := m.signals + [ModelNeedsUpdate]);
    if m.updatePending then m1 else m1.(updatePending := true, queue := m.queue + [RunUpdate])
  }

  /** update(): the model is reset and no update is pending any more. */
  function AfterUpdate(m: Model): Model
  {
    m.(signals := m.signals + [ModelReset], updatePending := false)
  }

  /** `k` modelNeedsUpdate signals in a row. */
  function NeedsUpdateTimes(m: Model, k: nat): Model
  {
    if k == 0 then m else AfterNeedsUpdate(NeedsUpdateTimes(m, k - 1))
  }

  /** Every modelNeedsUpdate after the first one only adds its signal: the queue holds one update() whatever `k` is. */
  lemma {:induction false} UpdatesCoalesce(m: Model, k: nat)
    requires k >= 1
    ensures var r := NeedsUpdateTimes(m, k);
      && r.queue == AfterNeedsUpdate(m).queue && r.updatePending
      && r.signals == m.signals + seq(k, i => ModelNeedsUpdate)
      && r.view == m.view && r.source == m.source
  {
    if k > 1 {
      UpdatesCoalesce(m, k - 1);
      var r := NeedsUpdateTimes(m, k - 1);
      assert r.signals + [ModelNeedsUpdate] == m.signals + seq(k, i => ModelNeedsUpdate);
    } else {
      assert seq(1, i => ModelNeedsUpdate) == [ModelNeedsUpdate];
    }
  }

  /** The queued update() runs: the model is reset and the next modelNeedsUpdate queues a new one. */
  lemma UpdateRearms(m: Model)
    requires Inv(m) && m.queue != [] && m.queue[0] == RunUpdate
    ensures var r := AfterQueuedCall(m);
      && !r.updatePending && RunUpdate !in r.queue
      && r.signals == m.signals + [ModelReset]
      && AfterNeedsUpdate(r).queue == r.queue + [RunUpdate]
  {
    assert multiset(m.queue) == multiset{m.queue[0]} + multiset(m.queue[1..]) by {
      assert m.queue == [m.queue[0]] + m.queue[1..];
    }
  }

  // ---------------------------------------------------------------------
  // Properties and visibility
  // ---------------------------------------------------------------------

  /** setVisible. */
  function AfterSetVisible(m: Model, v: bool): (r: Model)
    ensures ViewOnly(m, r) && r.view == m.view.(visible := v)
  {
    if m.view.visible == v then m
    else m.(view := m.view.(visible := v), signals := m.signals + [VisibleChanged])
  }

  /** filterWindow(info of `w`): only the current window has its visibility recomputed. */
  function AfterFilterWindow(m: Model, d: Desktop, w: WId): (r: Model)
    ensures ViewOnly(m, r)
    ensures r.view == (if m.view.currentWindowId == w
                       then m.view.(visible := Shown(m.view.filterByActive, m.view.screenGeometry, d, w))
                       else m.view)
  {
    if m.view.currentWindowId == w then AfterSetVisible(m, Shown(m.view.filterByActive, m.view.screenGeometry, d, w))
    else m
  }

  /** onWindowChanged(id). */
  function AfterWindowChanged(m: Model, d: Desktop, id: WId): (r: Model)
    ensures ViewOnly(m, r)
  {
    if m.view.currentWindowId == id then AfterFilterWindow(m, d, id) else m
  }

  /** setMenuAvailable: on a change, store it, re-filter the current window, then notify. */
  function AfterSetMenuAvailable(m: Model, d: Desktop, v: bool): (r: Model)
    ensures ViewOnly(m, r)
    ensures r.view.menuAvailable == v && r.view == m.view.(menuAvailable := v, visible := r.view.visible)
  {
    if m.view.menuAvailable == v then m
    else
      var m1 := AfterWindowChanged(m.(view := m.view.(menuAvailable := v)), d, m.view.currentWindowId);
      m1.(signals := m1.signals + [MenuAvailableChanged])
  }

  /** setMenuAvailable(false) followed by modelNeedsUpdate: the menu is gone and the view is told to reload. */
  function AfterMenuLost(m: Model, d: Desktop): (r: Model)
  {
    AfterNeedsUpdate(AfterSetMenuAvailable(m, d, false))
  }

  /** onWindowRemoved(id). */
  function AfterWindowRemoved(m: Model, d: Desktop, id: WId): (r: Model)
    ensures ViewOnly(m, r)
  {
    if m.view.currentWindowId == id then AfterSetVisible(AfterSetMenuAvailable(m, d, false), false) else m
  }

  function AfterSetFilterByActive(m: Model, v: bool): (r: Model)
    ensures ViewOnly(m, r) && r.view == m.view.(filterByActive := v)
  {
    if m.view.filterByActive == v then m
    else m.(view := m.view.(filterByActive := v), signals := m.signals + [FilterByActiveChanged])
  }

  function AfterSetFilterChildren(m: Model, v: bool): (r: Model)
    ensures ViewOnly(m, r) && r.view == m.view.(filterChildren := v)
  {
    if m.view.filterChildren == v then m
    else m.(view := m.view.(filterChildren := v), signals := m.signals + [FilterChildrenChanged])
  }

  /** setScreenGeometry, with the screenGeometryChanged handler: re-filter the current window. */
  function AfterSetScreenGeometry(m: Model, d: Desktop, g: Rect): (r: Model)
    ensures ViewOnly(m, r) && r.view == m.view.(screenGeometry := g, visible := r.view.visible)
  {
    if m.view.screenGeometry == g then m
    else
      var m1 := m.(view := m.view.(screenGeometry := g), signals := m.signals + [ScreenGeometryChanged]);
      AfterWindowChanged(m1, d, m.view.currentWindowId)
  }

  // ---------------------------------------------------------------------
  // The importer
  // ---------------------------------------------------------------------

  /**
   * The new source when updateApplicationMenu receives another service or
   * path: the old importer is replaced by a new one (which asks for the
   * root layout) and only the new service is watched. m_menu keeps pointing
   * at the old menu, which is now retired, and the connections to the old
   * actions go with them.
   */
  function Replaced(s: Source, service: seq<byte>, path: seq<byte>): (r: Source)
    requires MenuOwned(s)
    ensures r.importer == Some(Importer.Initial()) && r.generation == s.generation + 1
  {
    Source(service, path, [service], Some(Importer.Initial()), s.generation + 1,
           if s.menu.CurrentMenu? then RetiredMenu(s.importer.value.objects) else s.menu,
           multiset{})
  }

  /**
   * updateApplicationMenu: the same service and path re-queue updateMenu on
   * the importer there is; another pair replaces the importer and queues
   * updateMenu on the new one.
   */
  function AfterUpdateApplicationMenu(m: Model, service: seq<byte>, path: seq<byte>): (r: Model)
    requires MenuOwned(m.source)
    ensures r.view == m.view && r.signals == m.signals && r.updatePending == m.updatePending
  {
    if m.source.serviceName == service && m.source.menuObjectPath == path then
      if m.source.importer.Some? then m.(queue := m.queue + [RefreshMenu(m.source.generation)]) else m
    else
      var s := Replaced(m.source, service, path);
      m.(source := s, queue := m.queue + [RefreshMenu(s.generation)])
  }

  /** The requests for the submenus of `hs` that the menuUpdated handler sends, in order: aboutToShow, then "opened". */
  function OpenCalls(t: Tree, hs: seq<Handle>): seq<Importer.Call>
    requires forall h | h in hs :: h in t.actions
    decreases |hs|
  {
    if hs == [] then []
    else
      OpenCalls(t, hs[..|hs| - 1]) + SubmenuCalls(t, hs[|hs| - 1])
  }

  /** The calls one root action adds: its submenu, if it has one, is opened (updateMenu). */
  function SubmenuCalls(t: Tree, h: Handle): seq<Importer.Call>
    requires h in t.actions
  {
    if t.actions[h].hasSubmenu
    then [Importer.AboutToShow(MenuId(t, Sub(h))), Importer.Event(MenuId(t, Sub(h)), "opened")]
    else []
  }

  /** The source after the root menuUpdated: m_menu is the root menu, its actions are connected and their submenus opened. */
  function RootConnected(s: Source): Source
    requires SourceInv(s) && s.importer.Some?
  {
    var st := s.importer.value;
    var roots := st.objects.menus[Root];
    s.(menu := CurrentMenu, watches := s.watches + multiset(roots),
       importer := Some(st.(calls := st.calls + OpenCalls(st.objects, roots))))
  }

  /**
   * The menuUpdated handler: m_menu becomes the importer's root menu; for
   * the root menu itself, every top-level action gets its changed and
   * destroyed connections, every one with a submenu has that submenu
   * opened, the menu becomes available and a model update is asked for.
   */
  function AfterMenuUpdated(m: Model, d: Desktop, o: Owner): Model
    requires SourceInv(m.source) && m.source.importer.Some?
  {
    if o != Root then m.(source := m.source.(menu := CurrentMenu))
    else AfterNeedsUpdate(AfterSetMenuAvailable(m.(source := RootConnected(m.source)), d, true))
  }

  /**
   * A call the event loop runs: update(), or updateMenu() on the current
   * importer; a call posted to a replaced importer is dropped with it.
   */
  function AfterQueuedCall(m: Model): (r: Model)
    requires SourceInv(m.source) && m.queue != []
    ensures r.queue == m.queue[1..] && r.view == m.view
  {
    var m1 := m.(queue := m.queue[1..]);
    match m.queue[0]
    case RunUpdate => AfterUpdate(m1)
    case RefreshMenu(g) =>
      if g == m.source.generation && m.source.importer.Some?
      then m1.(source := m.source.(importer := Some(Importer.MenuOpened(m.source.importer.value, Root))))
      else m1
  }

  /** The event loop deletes the retired menu m_menu points at. */
  function AfterRetiredMenuDeleted(m: Model): (r: Model)
    requires m.source.menu.RetiredMenu?
    ensures r.source.menu.NoMenu? && r == m.(source := r.source)
  {
    m.(source := m.source.(menu := NoMenu))
  }

  // ---------------------------------------------------------------------
  // Active-window discovery
  // ---------------------------------------------------------------------

  /** onActiveWindowChanged(id). */
  function AfterActiveWindowChanged(m: Model, d: Desktop, id: WId): (r: Model)
    requires MenuOwned(m.source)
  {
    var m0 := m.(view := m.view.(filterInstalled := false));
    var v := m0.view;
    if v.winId != -1 && v.winId != id then m0 else AfterActivation(m0, d, id)
  }

  /** The handler past the pinned-window check: no active window, a skipped one, or discovery for a new current window. */
  function AfterActivation(m: Model, d: Desktop, id: WId): (r: Model)
    requires MenuOwned(m.source)
  {
    if id == 0 then AfterMenuLost(m, d)
    else if IsSkipped(Info(d, id)) then AfterSkippedActivation(m, d, id)
    else AfterDiscovery(m.(view := m.view.(currentWindowId := id)), d, id)
  }

  /** A skipped window (a plasmoid popup, say) became active: the menu stays with its owner when the owner is in its chain, otherwise it is hidden when filtering by the active window. */
  function AfterSkippedActivation(m: Model, d: Desktop, id: WId): (r: Model)
    ensures ViewOnly(m, r)
  {
    var v := m.view;
    if v.filterByActive && v.currentWindowId in Ancestors(d, id) then AfterFilterWindow(m, d, id)
    else if v.filterByActive then AfterSetVisible(m, false)
    else m
  }

  /** The menu of the first window in the discovery order that exports one is shown; with none, the window is watched for the properties to appear. */
  function AfterDiscovery(m: Model, d: Desktop, id: WId): (r: Model)
    requires MenuOwned(m.source)
  {
    match FirstWithMenu(d, Candidates(d, id, m.view.filterChildren))
    case Some(w) => AfterMenuFound(m, d, id, w)
    case None => AfterMenuDelayed(m, d, id)
  }

  /** Window `w` exports the menu shown for `id`: its importer is (re)used and `id` re-filtered. */
  function AfterMenuFound(m: Model, d: Desktop, id: WId, w: WId): (r: Model)
    requires MenuOwned(m.source)
  {
    AfterFilterWindow(AfterUpdateApplicationMenu(m, ServiceName(d, w), MenuObjectPath(d, w)), d, id)
  }

  /** No window exports a menu yet: the event filter watches `id` and the menu becomes unavailable. */
  function AfterMenuDelayed(m: Model, d: Desktop, id: WId): (r: Model)
  {
    AfterMenuLost(m.(view := m.view.(filterInstalled := true, delayedMenuWindowId := id)), d)
  }

  // ---------------------------------------------------------------------
  // The invariant is kept
  // ---------------------------------------------------------------------

  /** modelNeedsUpdate leaves exactly one update() queued. */
  lemma NeedsUpdateKeepsInv(m: Model)
    requires QueueInv(m)
    ensures QueueInv(AfterNeedsUpdate(m)) && multiset(AfterNeedsUpdate(m).queue)[RunUpdate] == 1
  {
    if !m.updatePending {
      assert multiset(m.queue + [RunUpdate]) == multiset(m.queue) + multiset{RunUpdate};
    }
  }

  /** Queuing an updateMenu leaves the pending update() alone. */
  lemma RefreshKeepsQueueInv(m: Model, r: Model, g: nat)
    requires QueueInv(m) && r.updatePending == m.updatePending && r.queue == m.queue + [RefreshMenu(g)]
    ensures QueueInv(r)
  {
    assert multiset(r.queue) == multiset(m.queue) + multiset{RefreshMenu(g)};
  }

  /** A new importer starts consistent, and the menu it retires is well formed. */
  lemma ReplacedKeepsInv(s: Source, service: seq<byte>, path: seq<byte>)
    requires SourceInv(s)
    ensures SourceInv(Replaced(s, service, path))
  {
  }

  lemma UpdateApplicationMenuKeepsInv(m: Model, service: seq<byte>, path: seq<byte>)
    requires Inv(m)
    ensures Inv(AfterUpdateApplicationMenu(m, service, path))
  {
    var r := AfterUpdateApplicationMenu(m, service, path);
    if m.source.serviceName == service && m.source.menuObjectPath == path {
      if m.source.importer.Some? {
        RefreshKeepsQueueInv(m, r, m.source.generation);
      }
    } else {
      ReplacedKeepsInv(m.source, service, path);
      RefreshKeepsQueueInv(m, r, r.source.generation);
    }
  }

  /** Discovery keeps the model's invariant. */
  lemma ActiveWindowChangedKeepsInv(m: Model, d: Desktop, id: WId)
    requires Inv(m)
    ensures Inv(AfterActiveWindowChanged(m, d, id))
  {
    var m0 := m.(view := m.view.(filterInstalled := false));
    if m0.view.winId == -1 || m0.view.winId == id {
      ActivationKeepsInv(m0, d, id);
    }
  }

  lemma ActivationKeepsInv(m: Model, d: Desktop, id: WId)
    requires Inv(m)
    ensures Inv(AfterActivation(m, d, id))
  {
    if id == 0 {
      MenuLostKeepsInv(m, d);
    } else if IsSkipped(Info(d, id)) {
      ViewOnlyKeepsInv(m, AfterSkippedActivation(m, d, id));
    } else {
      DiscoveryKeepsInv(m.(view := m.view.(currentWindowId := id)), d, id);
    }
  }

  lemma MenuLostKeepsInv(m: Model, d: Desktop)
    requires Inv(m)
    ensures Inv(AfterMenuLost(m, d))
  {
    NeedsUpdateKeepsInv(AfterSetMenuAvailable(m, d, false));
  }

  lemma DiscoveryKeepsInv(m: Model, d: Desktop, id: WId)
    requires Inv(m)
    ensures Inv(AfterDiscovery(m, d, id))
  {
    match FirstWithMenu(d, Candidates(d, id, m.view.filterChildren))
    case Some(w) =>
      UpdateApplicationMenuKeepsInv(m, ServiceName(d, w), MenuObjectPath(d, w));
    case None =>
      MenuLostKeepsInv(m.(view := m.view.(filterInstalled := true, delayedMenuWindowId := id)), d);
  }

  /** The root menuUpdated only adds requests to the importer, so it stays consistent. */
  lemma MenuUpdatedKeepsInv(m: Model, d: Desktop, o: Owner)
    requires Inv(m) && m.source.importer.Some?
    ensures Inv(AfterMenuUpdated(m, d, o))
  {
    if o == Root {
      var m1 := m.(source := RootConnected(m.source));
      assert Inv(m1);
      NeedsUpdateKeepsInv(AfterSetMenuAvailable(m1, d, true));
    }
  }

  lemma QueuedCallKeepsInv(m: Model)
    requires Inv(m) && m.queue != []
    ensures Inv(AfterQueuedCall(m))
  {
    assert multiset(m.queue) == multiset{m.queue[0]} + multiset(m.queue[1..]) by {
      assert m.queue == [m.queue[0]] + m.queue[1..];
    }
  }

  lemma ActionDestroyedKeepsInv(m: Model, h: Handle)
    requires Inv(m)
    ensures Inv(AfterActionDestroyed(m, h))
  {
    NeedsUpdateTimesKeeps(m, m.source.watches[h]);
  }

  lemma ServiceUnregisteredKeepsInv(m: Model, d: Desktop, name: seq<byte>)
    requires Inv(m)
    ensures Inv(AfterServiceUnregistered(m, d, name))
  {
    if name == m.source.serviceName {
      MenuLostKeepsInv(m, d);
    }
  }

  /** The construction: the members' initial values, then onActiveWindowChanged for the active window. */
  function Constructed(d: Desktop, menuAvailable: bool): Model
  {
    AfterActiveWindowChanged(Start(menuAvailable), d, d.active)
  }

  /** nativeEventFilter: a change of an appmenu property of the delayed window re-runs discovery for the active window. */
  function AfterNativeEvent(m: Model, d: Desktop, e: NativeEvent): Model
    requires MenuOwned(m.source)
  {
    if AppMenuPropertyChanged(d, e, m.view.delayedMenuWindowId) then AfterActiveWindowChanged(m, d, d.active) else m
  }

  /** The window the winIdChanged handler runs discovery for, as written: the new id as an unsigned int. */
  function WinIdTargetAsWritten(id: int): WId
  {
    ToUInt(id)
  }

  /** The window the winIdChanged handler should run discovery for: the pinned one, or the active one once unpinned. */
  function WinIdTarget(d: Desktop, id: int): WId
  {
    if id != -1 then ToUInt(id) else d.active
  }

  /** setWinId, with the winIdChanged handler as written. */
  function AfterSetWinIdAsWritten(m: Model, d: Desktop, id: int): Model
    requires MenuOwned(m.source)
  {
    if m.view.winId == id then m
    else
      var m1 := m.(view := m.view.(winId := id), signals := m.signals + [WinIdChanged]);
      AfterActiveWindowChanged(m1, d, WinIdTargetAsWritten(id))
  }

  /** setWinId, with the winIdChanged handler corrected to follow the active window once unpinned. */
  function AfterSetWinId(m: Model, d: Desktop, id: int): Model
    requires MenuOwned(m.source)
  {
    if m.view.winId == id then m
    else
      var m1 := m.(view := m.view.(winId := id), signals := m.signals + [WinIdChanged]);
      AfterActiveWindowChanged(m1, d, WinIdTarget(d, id))
  }

  /** The serviceUnregistered handler: losing the current menu's service makes the menu unavailable. */
  function AfterServiceUnregistered(m: Model, d: Desktop, name: seq<byte>): (r: Model)
    ensures r.source == m.source
  {
    if name == m.source.serviceName then AfterMenuLost(m, d) else m
  }

  // ---------------------------------------------------------------------
  // Rows
  // ---------------------------------------------------------------------

  /** The objects of the menu m_menu points at. */
  function ShownObjects(m: Model): (t: Tree)
    requires SourceInv(m.source)
    ensures Valid(t)
  {
    match m.source.menu
    case NoMenu => Empty()
    case CurrentMenu => m.source.importer.value.objects
    case RetiredMenu(t) => t
  }

  /** m_menu->actions(): the top-level actions of the menu m_menu points at, none without a menu. */
  function ShownActions(m: Model): (hs: seq<Handle>)
    requires SourceInv(m.source)
    ensures forall h | h in hs :: h in ShownObjects(m).actions
    ensures m.source.menu.NoMenu? ==> hs == []
  {
    ShownObjects(m).menus[Root]
  }

  /** rowCount. */
  function RowCount(m: Model): int
    requires SourceInv(m.source)
  {
    if !m.view.menuAvailable || m.source.menu.NoMenu? then 0 else |ShownActions(m)|
  }

  /** data(index, role). */
  function Data(m: Model, row: int, role: int): Option<RoleValue>
    requires SourceInv(m.source)
  {
    if row < 0 || !m.view.menuAvailable || m.source.menu.NoMenu? then None
    else
      var actions := ShownActions(m);
      if row >= |actions| then None
      else if role == MenuRole then Some(MenuText(ShownObjects(m).actions[actions[row]].text))
      else if role == ActionRole then Some(ActionPointer(actions[row]))
      else None
  }

  /**
   * The rows and their data agree: each of the rowCount rows has the text
   * of its action under MenuRole and the action itself under ActionRole,
   * any other role is empty, and every row outside the range is empty.
   */
  lemma RowsHaveData(m: Model, row: int, role: int)
    requires SourceInv(m.source)
    ensures 0 <= row < RowCount(m) && role == MenuRole ==>
      Data(m, row, role) == Some(MenuText(ShownObjects(m).actions[ShownActions(m)[row]].text))
    ensures 0 <= row < RowCount(m) && role == ActionRole ==>
      Data(m, row, role) == Some(ActionPointer(ShownActions(m)[row]))
    ensures (row < 0 || row >= RowCount(m) || (role != MenuRole && role != ActionRole)) ==> Data(m, row, role).None?
  {
  }

  /** No rows while the menu is unavailable or missing; otherwise one row per top-level action. */
  lemma RowCountFollowsMenu(m: Model)
    requires SourceInv(m.source)
    ensures RowCount(m) >= 0
    ensures RowCount(m) == 0 <== !m.view.menuAvailable || m.source.menu.NoMenu?
    ensures m.view.menuAvailable && m.source.menu.CurrentMenu? ==>
      RowCount(m) == |m.source.importer.value.objects.menus[Root]|
  {
  }

  // ---------------------------------------------------------------------
  // Action handlers
  // ---------------------------------------------------------------------

  /** QList::indexOf: the first position of `h`, -1 when absent. */
  function IndexOf(hs: seq<Handle>, h: Handle): (i: int)
    ensures -1 <= i < |hs|
    ensures i == -1 <==> h !in hs
    ensures i >= 0 ==> hs[i] == h && h !in hs[..i]
    decreases |hs|
  {
    if hs == [] then -1
    else if hs[0] == h then 0
    else
      var j := IndexOf(hs[1..], h);
      assert j >= 0 ==> hs[..j + 1] == [hs[0]] + hs[1..][..j];
      if j == -1 then -1 else j + 1
  }

  /**
   * The row of action `h` of the current importer in m_menu: -1 when m_menu
   * is a retired menu, whose actions are other objects.
   */
  function CurrentRow(m: Model, h: Handle): int
    requires SourceInv(m.source)
  {
    if m.source.menu.CurrentMenu? then IndexOf(m.source.importer.value.objects.menus[Root], h) else -1
  }

  /** What one changed connection of `h` emits. */
  function ChangeSignals(m: Model, h: Handle): seq<ModelSignal>
    requires SourceInv(m.source)
  {
    if m.view.menuAvailable && !m.source.menu.NoMenu? && CurrentRow(m, h) > -1 then [DataChanged(CurrentRow(m, h))] else []
  }

  /** `s` repeated `k` times. */
  function Repeat(s: seq<ModelSignal>, k: nat): seq<ModelSignal>
  {
    if k == 0 then [] else Repeat(s, k - 1) + s
  }

  /** QAction::changed of `h`: every connection made to it runs the handler. */
  function AfterActionChanged(m: Model, h: Handle): Model
    requires SourceInv(m.source)
  {
    m.(signals := m.signals + Repeat(ChangeSignals(m, h), m.source.watches[h]))
  }

  /**
   * A change of a shown top-level action reports its row once per
   * connection; any other change reports nothing, and nothing but the
   * signal log changes.
   */
  lemma {:induction false} ChangeReportsRow(m: Model, h: Handle)
    requires SourceInv(m.source)
    ensures var r := AfterActionChanged(m, h);
      && ViewOnly(m, r) && r.view == m.view
      && |r.signals| == |m.signals| + (if ChangeSignals(m, h) == [] then 0 else m.source.watches[h])
      && r.signals[..|m.signals|] == m.signals
      && forall i | |m.signals| <= i < |r.signals| ::
           r.signals[i] == DataChanged(CurrentRow(m, h)) && ShownActions(m)[CurrentRow(m, h)] == h
  {
    var sig := ChangeSignals(m, h);
    var rep := Repeat(sig, m.source.watches[h]);
    RepeatOne(sig, m.source.watches[h]);
    var r := AfterActionChanged(m, h);
    assert r.signals == m.signals + rep;
    assert r.signals[..|m.signals|] == m.signals;
    if sig != [] {
      var row := CurrentRow(m, h);
      assert sig == [DataChanged(row)] && m.source.menu.CurrentMenu?;
      assert 0 <= row < |ShownActions(m)| && ShownActions(m)[row] == h;
      forall i | |m.signals| <= i < |r.signals|
        ensures r.signals[i] == DataChanged(row) && ShownActions(m)[row] == h
      {
        assert r.signals[i] == rep[i - |m.signals|];
      }
    }
  }

  lemma {:induction false} RepeatOne(s: seq<ModelSignal>, k: nat)
    requires |s| <= 1
    ensures |Repeat(s, k)| == |s| * k
    ensures forall i | 0 <= i < |Repeat(s, k)| :: Repeat(s, k)[i] == s[0]
  {
    if k > 0 {
      RepeatOne(s, k - 1);
    }
  }

  /** QAction::destroyed of `h`: every connection emits modelNeedsUpdate, and the connections go. */
  function AfterActionDestroyed(m: Model, h: Handle): Model
  {
    var m1 := NeedsUpdateTimes(m, m.source.watches[h]);
    m1.(source := m1.source.(watches := m1.source.watches[h := 0]))
  }

  /** A run of modelNeedsUpdate signals keeps the queue invariant and changes neither the view nor the source. */
  lemma {:induction false} NeedsUpdateTimesKeeps(m: Model, k: nat)
    requires QueueInv(m)
    ensures QueueInv(NeedsUpdateTimes(m, k))
    ensures k > 0 ==> NeedsUpdateTimes(m, k).updatePending
    ensures NeedsUpdateTimes(m, k).view == m.view && NeedsUpdateTimes(m, k).source == m.source
  {
    if k > 0 {
      NeedsUpdateTimesKeeps(m, k - 1);
      NeedsUpdateKeepsInv(NeedsUpdateTimes(m, k - 1));
    }
  }

  /** The actionActivationRequested handler: a shown top-level action asks for its row to be activated. */
  function AfterActivationRequested(m: Model, h: Handle): Model
    requires SourceInv(m.source)
  {
    if !m.view.menuAvailable || m.source.menu.NoMenu? then m
    else if CurrentRow(m, h) != -1 then m.(signals := m.signals + [RequestActivateIndex(CurrentRow(m, h))])
    else m
  }

  /**
   * An activation request emits requestActivateIndex for the first row
   * holding the action, exactly when the menu is available and the action
   * is a top-level action of the current importer's menu; nothing else
   * changes.
   */
  lemma ActivationFindsRow(m: Model, h: Handle)
    requires SourceInv(m.source)
    ensures var r := AfterActivationRequested(m, h);
      && (m.view.menuAvailable && m.source.menu.CurrentMenu? && h in ShownActions(m) ==>
            exists i :: 0 <= i < |ShownActions(m)| && ShownActions(m)[i] == h && h !in ShownActions(m)[..i]
              && r == m.(signals := m.signals + [RequestActivateIndex(i)]))
      && (!(m.view.menuAvailable && m.source.menu.CurrentMenu? && h in ShownActions(m)) ==> r == m)
  {
  }

  // ---------------------------------------------------------------------
  // Properties of discovery
  // ---------------------------------------------------------------------

  /** Visibility is recomputed only for the current window, by the filterWindow formula. */
  lemma FilterWindowFormula(m: Model, d: Desktop, w: WId)
    ensures var r := AfterFilterWindow(m, d, w);
      && (m.view.currentWindowId == w ==>
            r == m.(view := m.view.(visible := Shown(m.view.filterByActive, m.view.screenGeometry, d, w)), signals := r.signals))
      && (m.view.currentWindowId == w && m.view.visible != r.view.visible ==> r.signals == m.signals + [VisibleChanged])
      && (m.view.currentWindowId != w ==> r == m)
  {
  }

  /** With a pinned window, an activation of any other window only takes the native filter out. */
  lemma PinnedIgnoresOthers(m: Model, d: Desktop, id: WId)
    requires SourceInv(m.source) && m.view.winId != -1 && m.view.winId != id
    ensures AfterActiveWindowChanged(m, d, id) == m.(view := m.view.(filterInstalled := false))
  {
  }

  /** No active window: the menu is unavailable, an update is pending, and the current and delayed windows stay. */
  lemma NoActiveWindow(m: Model, d: Desktop)
    requires SourceInv(m.source) && (m.view.winId == -1 || m.view.winId == 0)
    ensures var r := AfterActiveWindowChanged(m, d, 0);
      && !r.view.menuAvailable && r.updatePending && r.source == m.source
      && r.signals[|r.signals| - 1] == ModelNeedsUpdate
      && r.view.currentWindowId == m.view.currentWindowId
      && r.view.delayedMenuWindowId == m.view.delayedMenuWindowId
      && !r.view.filterInstalled
  {
  }

  /**
   * A skip-taskbar, utility or desktop window never becomes current and
   * leaves the menu alone. With filterByActive it hides the menu unless its
   * transient chain reaches the current window, in which case nothing
   * changes: filterWindow runs for the skipped window, which is not the
   * current one.
   */
  lemma {:induction false} SkippedWindowKeepsCurrent(m: Model, d: Desktop, id: WId)
    requires SourceInv(m.source) && (m.view.winId == -1 || m.view.winId == id)
    requires id != 0 && IsSkipped(Info(d, id)) && ChainEnds(d, id)
    ensures var r := AfterActiveWindowChanged(m, d, id);
      && ViewOnly(m, r)
      && r.view == m.view.(filterInstalled := false, visible := r.view.visible)
      && (m.view.filterByActive && m.view.currentWindowId in Ancestors(d, id) ==>
            r == m.(view := m.view.(filterInstalled := false)))
      && (m.view.filterByActive && m.view.currentWindowId !in Ancestors(d, id) ==> !r.view.visible)
      && (!m.view.filterByActive ==> r == m.(view := m.view.(filterInstalled := false)))
  {
    if m.view.filterByActive && m.view.currentWindowId in Ancestors(d, id) {
      NotOwnAncestor(d, id);
      assert m.view.currentWindowId != id;
    }
  }

  /**
   * A window that is not skipped becomes current. If it or (unless children
   * are filtered) a transient ancestor announces a menu, the nearest such
   * window's service and path become the model's, with an importer and an
   * updateMenu queued on it, and the visibility follows filterWindow.
   */
  lemma {:induction false} MenuDiscovered(m: Model, d: Desktop, id: WId, w: WId)
    requires SourceInv(m.source) && (m.view.winId == -1 || m.view.winId == id)
    requires id != 0 && !IsSkipped(Info(d, id))
    requires FirstWithMenu(d, Candidates(d, id, m.view.filterChildren)) == Some(w)
    ensures var r := AfterActiveWindowChanged(m, d, id);
      && r.view.currentWindowId == id
      && r.source.serviceName == ServiceName(d, w) && r.source.menuObjectPath == MenuObjectPath(d, w)
      && r.source.importer.Some? && r.queue == m.queue + [RefreshMenu(r.source.generation)]
      && r.view.visible == Shown(m.view.filterByActive, m.view.screenGeometry, d, id)
      && r.view.menuAvailable == m.view.menuAvailable && !r.view.filterInstalled
  {
    FirstWithMenuIsFirst(d, Candidates(d, id, m.view.filterChildren));
    var m0 := m.(view := m.view.(filterInstalled := false));
    var m1 := m0.(view := m0.view.(currentWindowId := id));
    assert AfterActiveWindowChanged(m, d, id) == AfterMenuFound(m1, d, id, w);
  }

  /**
   * When neither the window nor (unless children are filtered) any
   * transient ancestor announces a menu, the window becomes current and
   * delayed, the native filter is installed, the menu is unavailable and an
   * update is pending; the menu source is left as it was.
   */
  lemma {:induction false} MenuDelayed(m: Model, d: Desktop, id: WId)
    requires SourceInv(m.source) && (m.view.winId == -1 || m.view.winId == id)
    requires id != 0 && !IsSkipped(Info(d, id))
    requires FirstWithMenu(d, Candidates(d, id, m.view.filterChildren)).None?
    ensures var r := AfterActiveWindowChanged(m, d, id);
      && r.view.currentWindowId == id && r.view.delayedMenuWindowId == id && r.view.filterInstalled
      && !r.view.menuAvailable && r.updatePending && r.source == m.source
  {
  }

  /** Only a change of an appmenu property of the delayed window re-runs discovery; every other event changes nothing. */
  lemma NativeEventRediscovers(m: Model, d: Desktop, e: NativeEvent)
    requires SourceInv(m.source)
    ensures AppMenuPropertyChanged(d, e, m.view.delayedMenuWindowId) ==>
      AfterNativeEvent(m, d, e) == AfterActiveWindowChanged(m, d, d.active)
    ensures (e.eventType != GenericEventType || e.window != m.view.delayedMenuWindowId
             || (e.atom != d.serviceAtom && e.atom != d.pathAtom)) ==> AfterNativeEvent(m, d, e) == m
  {
  }

  /** Removing the current window leaves the menu unavailable and hidden; any other removal changes nothing. */
  lemma RemovalHides(m: Model, d: Desktop, id: WId)
    ensures var r := AfterWindowRemoved(m, d, id);
      && (m.view.currentWindowId == id ==> !r.view.menuAvailable && !r.view.visible)
      && (m.view.currentWindowId != id ==> r == m)
      && r.view.currentWindowId == m.view.currentWindowId
  {
  }

  /** Losing the service of the current menu makes it unavailable and asks for an update; other services do not matter. */
  lemma ServiceLossHidesMenu(m: Model, d: Desktop, name: seq<byte>)
    ensures var r := AfterServiceUnregistered(m, d, name);
      && (name == m.source.serviceName ==> !r.view.menuAvailable && r.updatePending)
      && (name != m.source.serviceName ==> r == m)
  {
  }

  /** The same service and path keep the importer and only queue updateMenu on it. */
  lemma SameMenuKeepsImporter(m: Model, service: seq<byte>, path: seq<byte>)
    requires SourceInv(m.source) && m.source.serviceName == service && m.source.menuObjectPath == path
    requires service != []
    ensures AfterUpdateApplicationMenu(m, service, path) == m.(queue := m.queue + [RefreshMenu(m.source.generation)])
  {
  }

  /**
   * A new service or path replaces the importer with a fresh one that asks
   * for the root layout, watches that service alone, queues updateMenu on
   * the new importer, retires the current menu, and leaves the view alone.
   */
  lemma NewMenuReplacesImporter(m: Model, service: seq<byte>, path: seq<byte>)
    requires SourceInv(m.source) && (m.source.serviceName != service || m.source.menuObjectPath != path)
    ensures var r := AfterUpdateApplicationMenu(m, service, path);
      && r.source.importer == Some(Importer.Initial()) && r.source.generation == m.source.generation + 1
      && r.source.serviceName == service && r.source.menuObjectPath == path && r.source.watchedServices == [service]
      && r.queue == m.queue + [RefreshMenu(r.source.generation)]
      && (m.source.menu.CurrentMenu? ==> r.source.menu == RetiredMenu(m.source.importer.value.objects))
      && r.source.watches == multiset{} && r.view == m.view
  {
  }

  /** A queued updateMenu posted to a replaced importer is dropped; the current importer's opens the root menu. */
  lemma QueuedRefreshTargetsCurrent(m: Model, g: nat)
    requires SourceInv(m.source) && m.queue != [] && m.queue[0] == RefreshMenu(g)
    ensures var r := AfterQueuedCall(m);
      && r.view == m.view && r.signals == m.signals
      && (g != m.source.generation ==> r.source == m.source)
      && (g == m.source.generation && m.source.importer.Some? ==>
            r.source == m.source.(importer := Some(Importer.MenuOpened(m.source.importer.value, Root))))
  {
  }

  /** Every submenu of a listed action is opened: its aboutToShow call is among the handler's requests. */
  lemma {:induction false} OpenCallsCoverSubmenus(t: Tree, hs: seq<Handle>, k: int)
    requires forall h | h in hs :: h in t.actions
    requires 0 <= k < |hs| && t.actions[hs[k]].hasSubmenu
    ensures Importer.AboutToShow(MenuId(t, Sub(hs[k]))) in OpenCalls(t, hs)
    decreases |hs|
  {
    var n := |hs| - 1;
    var rest := OpenCalls(t, hs[..n]);
    if k < n {
      OpenCallsCoverSubmenus(t, hs[..n], k);
      assert OpenCalls(t, hs) == rest + OpenCalls(t, hs)[|rest|..];
    } else {
      assert OpenCalls(t, hs)[|rest|] == Importer.AboutToShow(MenuId(t, Sub(hs[k])));
    }
  }

  /** The handler asks only for submenus of the listed actions: two requests per action that has one. */
  lemma {:induction false} OpenCallsOnlySubmenus(t: Tree, hs: seq<Handle>)
    requires forall h | h in hs :: h in t.actions
    ensures forall c | c in OpenCalls(t, hs) ::
      exists h | h in hs && t.actions[h].hasSubmenu ::
        c == Importer.AboutToShow(MenuId(t, Sub(h))) || c == Importer.Event(MenuId(t, Sub(h)), "opened")
    decreases |hs|
  {
    if hs != [] {
      OpenCallsOnlySubmenus(t, hs[..|hs| - 1]);
      forall c | c in OpenCalls(t, hs)
        ensures exists h | h in hs && t.actions[h].hasSubmenu ::
          c == Importer.AboutToShow(MenuId(t, Sub(h))) || c == Importer.Event(MenuId(t, Sub(h)), "opened")
      {
        var last := hs[|hs| - 1];
        if c in OpenCalls(t, hs[..|hs| - 1]) {
          var h :| h in hs[..|hs| - 1] && t.actions[h].hasSubmenu
            && (c == Importer.AboutToShow(MenuId(t, Sub(h))) || c == Importer.Event(MenuId(t, Sub(h)), "opened"));
          assert h in hs;
        } else {
          assert last in hs;
        }
      }
    }
  }

  /**
   * The root menuUpdated makes m_menu the current root menu, shown in full
   * (one row per top-level action), connects each top-level action once
   * more, and leaves an update pending; the importer only gains requests.
   */
  lemma RootUpdateShowsMenu(m: Model, d: Desktop)
    requires SourceInv(m.source) && m.source.importer.Some?
    ensures var r := AfterMenuUpdated(m, d, Root);
      && var st := m.source.importer.value;
      && r.source.menu.CurrentMenu? && r.view.menuAvailable && r.updatePending
      && RowCount(r) == |st.objects.menus[Root]|
      && r.source.watches == m.source.watches + multiset(st.objects.menus[Root])
      && r.source.importer == Some(st.(calls := st.calls + OpenCalls(st.objects, st.objects.menus[Root])))
  {
  }

  /** A menuUpdated for a submenu only points m_menu at the root menu. */
  lemma SubmenuUpdateOnlyRepoints(m: Model, d: Desktop, h: Handle)
    requires SourceInv(m.source) && m.source.importer.Some?
    ensures AfterMenuUpdated(m, d, Sub(h)) == m.(source := m.source.(menu := CurrentMenu))
  {
  }

  // ---------------------------------------------------------------------
  // The winIdChanged handler
  // ---------------------------------------------------------------------

  /**
   * As written, unpinning runs discovery for window 0xFFFFFFFF (the
   * unsigned value of -1) instead of the active window: unknown to the
   * window system, it becomes the current and delayed window and the menu
   * goes unavailable, whatever the active window announces.
   */
  lemma UnpinningAsWrittenAdoptsNoWindow(m: Model, d: Desktop)
    requires SourceInv(m.source) && m.view.winId != -1
    requires UIntModulus - 1 !in d.windows && UIntModulus - 1 !in d.serviceProperty
    ensures var r := AfterSetWinIdAsWritten(m, d, -1);
      && r.view.currentWindowId == UIntModulus - 1
      && r.view.delayedMenuWindowId == UIntModulus - 1
      && !r.view.menuAvailable
  {
    var w := UIntModulus - 1;
    var m1 := m.(view := m.view.(winId := -1), signals := m.signals + [WinIdChanged]);
    assert WinIdTargetAsWritten(-1) == w;
    assert !HasMenu(d, w);
    assert Ancestors(d, w) == [];
    var c := Candidates(d, w, m1.view.filterChildren);
    assert c == [w] && c[1..] == [];
    assert FirstWithMenu(d, c) == None;
    MenuDelayed(m1, d, w);
  }

  /** With the corrected handler, unpinning runs discovery for the active window, and pinning for the pinned one. */
  lemma UnpinningFollowsActiveWindow(m: Model, d: Desktop, id: int)
    requires SourceInv(m.source) && m.view.winId != id
    ensures var m1 := m.(view := m.view.(winId := id), signals := m.signals + [WinIdChanged]);
      && (id == -1 ==> AfterSetWinId(m, d, id) == AfterActiveWindowChanged(m1, d, d.active))
      && (0 <= id < UIntModulus ==> AfterSetWinId(m, d, id) == AfterActiveWindowChanged(m1, d, id))
  {
  }

  /** After unpinning, an active window that is not skipped becomes the current window. */
  lemma UnpinnedActiveBecomesCurrent(m: Model, d: Desktop)
    requires SourceInv(m.source) && m.view.winId != -1
    requires d.active != 0 && !IsSkipped(Info(d, d.active))
    ensures AfterSetWinId(m, d, -1).view.currentWindowId == d.active
  {
    var m1 := m.(view := m.view.(winId := -1), signals := m.signals + [WinIdChanged]);
    match FirstWithMenu(d, Candidates(d, d.active, m1.view.filterChildren))
    case Some(w) =>
      MenuDiscovered(m1, d, d.active, w);
    case None =>
      MenuDelayed(m1, d, d.active);
  }

  // ---------------------------------------------------------------------
  // The class
  // ---------------------------------------------------------------------

  /**
   * AppMenuModel itself. Calls the source posts with Qt::QueuedConnection
   * wait in `queue` until ProcessQueued runs them; the signals of the
   * importer and of the window system arrive as calls of the slot methods.
   * `generation` and `menu` stand for the identity of the importer a queued
   * call was posted to and of the QMenu m_menu guards.
   */
  class AppMenuModel {
    var filterByActive: bool
    var filterChildren: bool
    var menuAvailable: bool
    var visible: bool
    var screenGeometry: Rect
    var winId: int
    var currentWindowId: WId
    var delayedMenuWindowId: WId
    var filterInstalled: bool
    var serviceName: seq<byte>
    var menuObjectPath: seq<byte>
    var watchedServices: seq<seq<byte>>
    var importer: Importer.DBusMenuImporter?
    var generation: nat
    var menu: MenuRef
    var watches: multiset<Handle>
    var updatePending: bool
    var queue: seq<Queued>
    var signals: seq<ModelSignal>

    function ViewSnapshot(): View
      reads this`filterByActive, this`filterChildren, this`menuAvailable, this`visible, this`screenGeometry,
             this`winId, this`currentWindowId, this`delayedMenuWindowId, this`filterInstalled
    {
      View(filterByActive, filterChildren, menuAvailable, visible, screenGeometry, winId,
           currentWindowId, delayedMenuWindowId, filterInstalled)
    }

    function SourceSnapshot(): Source
      reads this`serviceName, this`menuObjectPath, this`watchedServices, this`importer, this`generation,
             this`menu, this`watches, importer
    {
      Source(serviceName, menuObjectPath, watchedServices,
             if importer == null then None else Some(importer.Snapshot()),
             generation, menu, watches)
    }

    function Snapshot(): Model
      reads this, importer
    {
      Model(ViewSnapshot(), SourceSnapshot(), updatePending, queue, signals)
    }

    predicate Valid()
      reads this, importer
    {
      Inv(Snapshot())
    }

    /** Connects the handlers, then runs discovery for the active window. */
    constructor(d: Desktop, available: bool)
      requires ChainEnds(d, d.active)
      ensures Snapshot() == Constructed(d, available) && Valid()
    {
      filterByActive := false;
      filterChildren := false;
      menuAvailable := available;
      visible := true;
      screenGeometry := NullRect;
      winId := -1;
      currentWindowId := 0;
      delayedMenuWindowId := 0;
      filterInstalled := false;
      serviceName := [];
      menuObjectPath := [];
      watchedServices := [];
      importer := null;
      generation := 0;
      menu := NoMenu;
      watches := multiset{};
      updatePending := false;
      queue := [];
      signals := [];
      new;
      assert Snapshot() == Start(available);
      OnActiveWindowChanged(d, d.active);
      ActiveWindowChangedKeepsInv(Start(available), d, d.active);
    }

    /** emit modelNeedsUpdate(), with the connected lambda. */
    method EmitModelNeedsUpdate()
      modifies this`signals, this`updatePending, this`queue
      ensures Snapshot() == AfterNeedsUpdate(old(Snapshot()))
    {
      signals := signals + [ModelNeedsUpdate];
      if !updatePending {
        updatePending := true;
        queue := queue + [RunUpdate];
      }
    }

    method Update()
      modifies this`signals, this`updatePending
      ensures Snapshot() == AfterUpdate(old(Snapshot()))
    {
      signals := signals + [ModelReset];
      updatePending := false;
    }

    method SetVisible(v: bool)
      modifies this`visible, this`signals
      ensures Snapshot() == AfterSetVisible(old(Snapshot()), v)
    {
      if visible != v {
        visible := v;
        signals := signals + [VisibleChanged];
      }
    }

    method FilterWindow(d: Desktop, w: WId)
      modifies this`visible, this`signals
      ensures Snapshot() == AfterFilterWindow(old(Snapshot()), d, w)
    {
      if currentWindowId == w {
        SetVisible(Shown(filterByActive, screenGeometry, d, w));
      }
    }

    method OnWindowChanged(d: Desktop, id: WId)
      modifies this`visible, this`signals
      ensures Snapshot() == AfterWindowChanged(old(Snapshot()), d, id)
    {
      if currentWindowId == id {
        FilterWindow(d, id);
      }
    }

    method SetMenuAvailable(d: Desktop, v: bool)
      modifies this`menuAvailable, this`visible, this`signals
      ensures Snapshot() == AfterSetMenuAvailable(old(Snapshot()), d, v)
    {
      if menuAvailable != v {
        menuAvailable := v;
        OnWindowChanged(d, currentWindowId);
        signals := signals + [MenuAvailableChanged];
      }
    }

    method LoseMenu(d: Desktop)
      modifies this`menuAvailable, this`visible, this`signals, this`updatePending, this`queue
      ensures Snapshot() == AfterMenuLost(old(Snapshot()), d)
    {
      SetMenuAvailable(d, false);
      EmitModelNeedsUpdate();
    }

    method OnWindowRemoved(d: Desktop, id: WId)
      modifies this`menuAvailable, this`visible, this`signals
      ensures Snapshot() == AfterWindowRemoved(old(Snapshot()), d, id)
    {
      if currentWindowId == id {
        SetMenuAvailable(d, false);
        SetVisible(false);
      }
    }

    method SetFilterByActive(active: bool)
      modifies this`filterByActive, this`signals
      ensures Snapshot() == AfterSetFilterByActive(old(Snapshot()), active)
    {
      if filterByActive != active {
        filterByActive := active;
        signals := signals + [FilterByActiveChanged];
      }
    }

    method SetFilterChildren(hideChildren: bool)
      modifies this`filterChildren, this`signals
      ensures Snapshot() == AfterSetFilterChildren(old(Snapshot()), hideChildren)
    {
      if filterChildren != hideChildren {
        filterChildren := hideChildren;
        signals := signals + [FilterChildrenChanged];
      }
    }

    /** setScreenGeometry; screenGeometryChanged runs onWindowChanged for the current window. */
    method SetScreenGeometry(d: Desktop, geometry: Rect)
      modifies this`screenGeometry, this`visible, this`signals
      ensures Snapshot() == AfterSetScreenGeometry(old(Snapshot()), d, geometry)
    {
      if screenGeometry != geometry {
        screenGeometry := geometry;
        signals := signals + [ScreenGeometryChanged];
        OnWindowChanged(d, currentWindowId);
      }
    }

    method UpdateApplicationMenu(service: seq<byte>, path: seq<byte>)
      requires MenuOwned(Snapshot().source)
      modifies this`serviceName, this`menuObjectPath, this`watchedServices, this`importer,
               this`generation, this`menu, this`watches, this`queue
      ensures Snapshot() == AfterUpdateApplicationMenu(old(Snapshot()), service, path)
    {
      if serviceName == service && menuObjectPath == path {
        if importer != null {
          queue := queue + [RefreshMenu(generation)];
        }
        return;
      }
      ReplaceImporter(service, path);
      queue := queue + [RefreshMenu(generation)];
    }

    /** Takes the new service and path, retires m_menu's menu with the old importer, and creates the new importer. */
    method ReplaceImporter(service: seq<byte>, path: seq<byte>)
      requires MenuOwned(SourceSnapshot())
      modifies this`serviceName, this`menuObjectPath, this`watchedServices, this`importer,
               this`generation, this`menu, this`watches
      ensures SourceSnapshot() == Replaced(old(SourceSnapshot()), service, path) && fresh(importer)
    {
      serviceName := service;
      watchedServices := [service];
      menuObjectPath := path;
      if menu.CurrentMenu? {
        menu := RetiredMenu(importer.objects);
      }
      watches := multiset{};
      importer := NewImporter();
      generation := generation + 1;
    }

    /** new KDBusMenuImporter(serviceName, menuObjectPath, this). */
    static method NewImporter() returns (imp: Importer.DBusMenuImporter)
      ensures fresh(imp) && imp.Snapshot() == Importer.Initial()
    {
      imp := new Importer.DBusMenuImporter();
    }

    method OnActiveWindowChanged(d: Desktop, id: WId)
      requires MenuOwned(Snapshot().source) && ChainEnds(d, id)
      modifies this
      ensures Snapshot() == AfterActiveWindowChanged(old(Snapshot()), d, id)
    {
      ghost var m := Snapshot();
      filterInstalled := false;
      assert Snapshot() == m.(view := m.view.(filterInstalled := false));
      if winId == -1 || winId == id {
        Activate(d, id);
      }
    }

    method Activate(d: Desktop, id: WId)
      requires MenuOwned(Snapshot().source) && ChainEnds(d, id)
      modifies this
      ensures Snapshot() == AfterActivation(old(Snapshot()), d, id)
    {
      ghost var m0 := Snapshot();
      if id == 0 {
        LoseMenu(d);
      } else if IsSkipped(Info(d, id)) {
        OnSkippedActivation(d, id);
      } else {
        currentWindowId := id;
        assert Snapshot() == m0.(view := m0.view.(currentWindowId := id));
        DiscoverMenu(d, id);
      }
    }

    method OnSkippedActivation(d: Desktop, id: WId)
      requires ChainEnds(d, id)
      modifies this`visible, this`signals
      ensures Snapshot() == AfterSkippedActivation(old(Snapshot()), d, id)
    {
      if filterByActive {
        var reached := ChainReaches(d, Info(d, id).transientFor, currentWindowId);
        if reached {
          FilterWindow(d, id);
          return;
        }
        SetVisible(false);
      }
    }

    method DiscoverMenu(d: Desktop, id: WId)
      requires MenuOwned(Snapshot().source) && ChainEnds(d, id)
      modifies this
      ensures Snapshot() == AfterDiscovery(old(Snapshot()), d, id)
    {
      DiscoveryOrder(d, id, filterChildren);
      var found := None;
      if !filterChildren {
        found := FirstMenuInChain(d, Info(d, id).transientFor);
      }
      if found.Some? {
        ShowMenuOf(d, id, found.value);
      } else if HasMenu(d, id) {
        ShowMenuOf(d, id, id);
      } else {
        DelayMenu(d, id);
      }
    }

    method ShowMenuOf(d: Desktop, id: WId, w: WId)
      requires MenuOwned(Snapshot().source)
      modifies this
      ensures Snapshot() == AfterMenuFound(old(Snapshot()), d, id, w)
    {
      UpdateApplicationMenu(ServiceName(d, w), MenuObjectPath(d, w));
      FilterWindow(d, id);
    }

    method DelayMenu(d: Desktop, id: WId)
      modifies this`filterInstalled, this`delayedMenuWindowId, this`menuAvailable, this`visible, this`signals,
               this`updatePending, this`queue
      ensures Snapshot() == AfterMenuDelayed(old(Snapshot()), d, id)
    {
      ghost var m := Snapshot();
      filterInstalled := true;
      delayedMenuWindowId := id;
      assert Snapshot() == m.(view := m.view.(filterInstalled := true, delayedMenuWindowId := id));
      LoseMenu(d);
    }

    /** Called for each native event while the filter is installed; never consumes it. */
    method NativeEventFilter(d: Desktop, e: NativeEvent) returns (handled: bool)
      requires MenuOwned(Snapshot().source) && ChainEnds(d, d.active)
      modifies this
      ensures !handled && Snapshot() == AfterNativeEvent(old(Snapshot()), d, e)
    {
      if e.eventType != GenericEventType {
        return false;
      }
      if e.responseType & 0x7F == PropertyNotify && e.window == delayedMenuWindowId {
        if d.serviceAtom != 0 && d.pathAtom != 0 {
          if e.atom == d.serviceAtom || e.atom == d.pathAtom {
            OnActiveWindowChanged(d, d.active);
          }
        }
      }
      return false;
    }

    /** setWinId, with winIdChanged running discovery for the new id read as an unsigned int. */
    method SetWinId(d: Desktop, id: int)
      requires MenuOwned(Snapshot().source) && ChainEnds(d, ToUInt(id))
      modifies this
      ensures Snapshot() == AfterSetWinIdAsWritten(old(Snapshot()), d, id)
    {
      if winId == id {
        return;
      }
      ghost var m0 := Snapshot();
      winId := id;
      signals := signals + [WinIdChanged];
      assert Snapshot() == m0.(view := m0.view.(winId := id), signals := m0.signals + [WinIdChanged]);
      OnActiveWindowChanged(d, ToUInt(winId));
    }

    /** The serviceUnregistered handler. */
    method OnServiceUnregistered(d: Desktop, name: seq<byte>)
      modifies this`menuAvailable, this`visible, this`signals, this`updatePending, this`queue
      ensures Snapshot() == AfterServiceUnregistered(old(Snapshot()), d, name)
    {
      if name == serviceName {
        LoseMenu(d);
      }
    }

    /** The menuUpdated handler of the current importer. */
    method OnMenuUpdated(d: Desktop, o: Owner)
      requires SourceInv(Snapshot().source) && importer != null
      modifies this`menu, this`watches, this`menuAvailable, this`visible, this`signals,
               this`updatePending, this`queue, importer
      ensures Snapshot() == AfterMenuUpdated(old(Snapshot()), d, o)
    {
      menu := CurrentMenu;
      if o != Root {
        return;
      }
      ConnectRootActions();
      SetMenuAvailable(d, true);
      EmitModelNeedsUpdate();
    }

    /** The loop over m_menu->actions(): connect each action, and open the submenu of each one that has it. */
    method ConnectRootActions()
      requires SourceInv(Snapshot().source) && importer != null && menu.CurrentMenu?
      modifies this`watches, importer
      ensures Snapshot() == old(Snapshot()).(source := RootConnected(old(Snapshot()).source))
    {
      var roots := importer.objects.menus[Root];
      watches := watches + multiset(roots);
      OpenSubmenus(importer, roots);
    }

    /** Each root action's submenu, where it has one, is opened (updateMenu), in menu order. */
    static method OpenSubmenus(imp: Importer.DBusMenuImporter, roots: seq<Handle>)
      requires imp.Consistent()
      requires forall h | h in roots :: h in imp.objects.actions
      requires forall h | h in roots && imp.objects.actions[h].hasSubmenu :: Sub(h) in imp.objects.menus
      modifies imp
      ensures imp.Snapshot()
        == old(imp.Snapshot()).(calls := old(imp.calls) + OpenCalls(old(imp.objects), roots))
    {
      ghost var st := imp.Snapshot();
      for i := 0 to |roots|
        invariant imp.Consistent() && imp.objects == st.objects
        invariant imp.Snapshot() == st.(calls := st.calls + OpenCalls(st.objects, roots[..i]))
      {
        assert roots[..i + 1][..i] == roots[..i];
        assert OpenCalls(st.objects, roots[..i + 1])
          == OpenCalls(st.objects, roots[..i]) + SubmenuCalls(st.objects, roots[i]);
        if imp.objects.actions[roots[i]].hasSubmenu {
          imp.UpdateMenu(Sub(roots[i]));
        }
      }
      assert roots[..|roots|] == roots;
    }

    /** The event loop runs the first queued call. */
    method ProcessQueued()
      requires SourceInv(Snapshot().source) && queue != []
      modifies this`queue, this`signals, this`updatePending, importer
      ensures Snapshot() == AfterQueuedCall(old(Snapshot()))
    {
      var call := queue[0];
      queue := queue[1..];
      match call
      case RunUpdate =>
        Update();
      case RefreshMenu(g) =>
        if g == generation && importer != null {
          importer.UpdateMenu(Root);
        }
    }

    /** The event loop deletes the retired menu; the QPointer m_menu becomes null. */
    method OnRetiredMenuDeleted()
      requires menu.RetiredMenu?
      modifies this`menu
      ensures Snapshot() == AfterRetiredMenuDeleted(old(Snapshot()))
    {
      menu := NoMenu;
    }

    /** m_menu->actions().indexOf(a), and std::find over the same list. */
    static method FindRow(hs: seq<Handle>, h: Handle) returns (i: int)
      ensures i == IndexOf(hs, h)
    {
      i := 0;
      while i < |hs| && hs[i] != h
        invariant 0 <= i <= |hs|
        invariant h !in hs[..i]
        invariant IndexOf(hs, h) == -1 || i <= IndexOf(hs, h)
      {
        i := i + 1;
      }
      if i == |hs| {
        assert hs[..i] == hs;
        i := -1;
      }
    }

    /** The changed handler of one connection of `h`. */
    method ActionChangedHandler(h: Handle)
      requires SourceInv(Snapshot().source)
      modifies this`signals
      ensures signals == old(signals) + ChangeSignals(old(Snapshot()), h)
    {
      if menuAvailable && !menu.NoMenu? {
        var row := -1;
        if menu.CurrentMenu? {
          row := FindRow(importer.objects.menus[Root], h);
        }
        if row > -1 {
          signals := signals + [DataChanged(row)];
        }
      }
    }

    /** QAction::changed of `h`: each of its connections runs the handler. */
    method OnActionChanged(h: Handle)
      requires SourceInv(Snapshot().source)
      modifies this`signals
      ensures Snapshot() == AfterActionChanged(old(Snapshot()), h)
    {
      ghost var emitted := ChangeSignals(Snapshot(), h);
      for k := 0 to watches[h]
        invariant signals == old(signals) + Repeat(emitted, k)
        invariant Snapshot() == old(Snapshot()).(signals := signals)
        modifies this`signals
      {
        ActionChangedHandler(h);
      }
    }

    /** QAction::destroyed of `h`: each connection emits modelNeedsUpdate; the object and its connections go. */
    method OnActionDestroyed(h: Handle)
      modifies this`signals, this`updatePending, this`queue, this`watches
      ensures Snapshot() == AfterActionDestroyed(old(Snapshot()), h)
    {
      for k := 0 to watches[h]
        invariant Snapshot() == NeedsUpdateTimes(old(Snapshot()), k) && importer == old(importer)
      {
        EmitModelNeedsUpdate();
      }
      watches := watches[h := 0];
    }

    /** The actionActivationRequested handler. */
    method OnActionActivationRequested(h: Handle)
      requires SourceInv(Snapshot().source)
      modifies this`signals
      ensures Snapshot() == AfterActivationRequested(old(Snapshot()), h)
    {
      if !menuAvailable || menu.NoMenu? {
        return;
      }
      var row := -1;
      if menu.CurrentMenu? {
        row := FindRow(importer.objects.menus[Root], h);
      }
      if row != -1 {
        signals := signals + [RequestActivateIndex(row)];
      }
    }
  }
}
