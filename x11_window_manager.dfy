/**
 * X11FallbackWindowManager (plugin/wm/x11fallbackwindowmanager.cpp): the
 * backend that reads the _KDE_NET_WM_APPMENU_* properties of the active
 * window and of its transient parents. Its AbstractWindowManager is its
 * `base`; its own members are the window whose menu may be announced late
 * and whether its native event filter is installed. The handlers it
 * connects to its own winIdChanged, menuAvailableChanged and
 * screenGeometryChanged signals run inside the setters that emit them.
 * Each operation is a function of the manager and the Desktop snapshot;
 * the class is proved against them.
 */
module X11FallbackWindowManager {
  import opened Wrappers
  import opened WindowSystem
  import opened WindowManager

  datatype X11 = X11(store: Store, delayedMenuWindowId: int, filterInstalled: bool)

  function Announce(x: X11, sig: Signal): X11
  {
    x.(store := Emitted(x.store, sig))
  }

  function AfterSetVisible(x: X11, v: bool): X11
  {
    x.(store := Set(x.store, Visible, Flag(v)))
  }

  /** filterWindow(info of `w`): only the current window has its visibility recomputed. */
  function AfterFilterWindow(x: X11, d: Desktop, w: WId): X11
  {
    if x.store.currentWindowId == w then
      AfterSetVisible(x, Shown(x.store.data.filterByActive, x.store.data.screenGeometry, d, w))
    else x
  }

  /** onWindowChanged(id). */
  function AfterWindowChanged(x: X11, d: Desktop, id: WId): X11
  {
    if x.store.currentWindowId == id then AfterFilterWindow(x, d, id) else x
  }

  /** setMenuAvailable, with the menuAvailableChanged handler: re-filter the current window. */
  function AfterSetMenuAvailable(x: X11, d: Desktop, v: bool): X11
  {
    if x.store.data.menuAvailable == v then x
    else AfterWindowChanged(x.(store := Set(x.store, MenuAvailable, Flag(v))), d, ToUInt(x.store.currentWindowId))
  }

  /** onWindowRemoved(id). */
  function AfterWindowRemoved(x: X11, d: Desktop, id: WId): X11
  {
    if x.store.currentWindowId == id then AfterSetVisible(AfterSetMenuAvailable(x, d, false), false) else x
  }

  /** onActiveWindowChanged(id). */
  function AfterActiveWindowChanged(x: X11, d: Desktop, id: WId): X11
  {
    var x0 := x.(filterInstalled := false);
    var data := x0.store.data;
    if data.userWindowId != -1 && data.userWindowId != id then x0
    else if id == 0 then Announce(AfterSetMenuAvailable(x0, d, false), ModelNeedsUpdate)
    else if IsSkipped(Info(d, id)) then
      if data.filterByActive && x0.store.currentWindowId in Ancestors(d, id) then AfterFilterWindow(x0, d, id)
      else if data.filterByActive then AfterSetVisible(x0, false)
      else x0
    else
      var x1 := x0.(store := x0.store.(currentWindowId := id));
      match FirstWithMenu(d, Candidates(d, id, data.filterChildren))
      case Some(w) =>
        AfterFilterWindow(Announce(x1, ApplicationMenuChanged(ServiceName(d, w), MenuObjectPath(d, w))), d, id)
      case None =>
        Announce(AfterSetMenuAvailable(x1.(filterInstalled := true, delayedMenuWindowId := id), d, false), ModelNeedsUpdate)
  }

  /** The construction: no window yet, then onActiveWindowChanged for the active window. */
  function Started(d: Desktop): X11
  {
    AfterActiveWindowChanged(X11(Initial(), -1, false), d, d.active)
  }

  /**
   * nativeEventFilter: a property change of one of the two appmenu atoms on
   * the delayed window re-runs discovery for the active window.
   */
  predicate Rediscovers(x: X11, d: Desktop, e: NativeEvent)
  {
    AppMenuPropertyChanged(d, e, x.delayedMenuWindowId)
  }

  function AfterNativeEvent(x: X11, d: Desktop, e: NativeEvent): X11
  {
    if Rediscovers(x, d, e) then AfterActiveWindowChanged(x, d, d.active) else x
  }

  /** The window the winIdChanged handler runs discovery for, as written: the new id as an unsigned int. */
  function WinIdTargetAsWritten(x: X11): WId
  {
    ToUInt(x.store.data.userWindowId)
  }

  /** The window the winIdChanged handler should run discovery for: the pinned one, or the active one once unpinned. */
  function WinIdTarget(x: X11, d: Desktop): WId
  {
    if x.store.data.userWindowId != -1 then ToUInt(x.store.data.userWindowId) else d.active
  }

  /** setWinId, with the winIdChanged handler as written. */
  function AfterSetWinIdAsWritten(x: X11, d: Desktop, id: int): X11
  {
    if x.store.data.userWindowId == id then x
    else
      var x1 := x.(store := Set(x.store, WinId, Id(id)));
      AfterActiveWindowChanged(x1, d, WinIdTargetAsWritten(x1))
  }

  /** setWinId, with the winIdChanged handler corrected to follow the active window once unpinned. */
  function AfterSetWinId(x: X11, d: Desktop, id: int): X11
  {
    if x.store.data.userWindowId == id then x
    else
      var x1 := x.(store := Set(x.store, WinId, Id(id)));
      AfterActiveWindowChanged(x1, d, WinIdTarget(x1, d))
  }

  /** setScreenGeometry, with the screenGeometryChanged handler: re-filter the current window. */
  function AfterSetScreenGeometry(x: X11, d: Desktop, r: Rect): X11
  {
    if x.store.data.screenGeometry == r then x
    else AfterWindowChanged(x.(store := Set(x.store, ScreenGeometry, Geometry(r))), d, ToUInt(x.store.currentWindowId))
  }

  /**
   * setData: every property written, then dataChanged, whose six signals
   * run this manager's handlers as they are emitted (the winIdChanged
   * handler as written, as in AfterSetWinIdAsWritten).
   */
  function AfterSetData(x: X11, d: Desktop, data: WMData): X11
  {
    var x1 := x.(store := Store(data, x.store.currentWindowId, x.store.signals + [DataChanged]));
    var x2 := AfterWindowChanged(Announce(x1, MenuAvailableChanged), d, ToUInt(x1.store.currentWindowId));
    var x3 := Announce(Announce(Announce(x2, FilterByActiveChanged), FilterChildrenChanged), VisibleChanged);
    var x4 := AfterWindowChanged(Announce(x3, ScreenGeometryChanged), d, ToUInt(x3.store.currentWindowId));
    var x5 := Announce(x4, WinIdChanged);
    AfterActiveWindowChanged(x5, d, WinIdTargetAsWritten(x5))
  }

  // ---------------------------------------------------------------------
  // Properties
  // ---------------------------------------------------------------------

  /** Visibility is recomputed only for the current window, by the filterWindow formula, and nothing else changes. */
  lemma FilterWindowFormula(x: X11, d: Desktop, w: WId)
    ensures var r := AfterFilterWindow(x, d, w);
      && (x.store.currentWindowId == w ==>
            r.store.data == x.store.data.(visible := Shown(x.store.data.filterByActive, x.store.data.screenGeometry, d, w)))
      && (x.store.currentWindowId != w ==> r == x)
      && r.store.currentWindowId == x.store.currentWindowId
      && r.delayedMenuWindowId == x.delayedMenuWindowId && r.filterInstalled == x.filterInstalled
  {
  }

  /** With a pinned window, an activation of any other window only takes the native filter out. */
  lemma PinnedIgnoresOthers(x: X11, d: Desktop, id: WId)
    requires x.store.data.userWindowId != -1 && x.store.data.userWindowId != id
    ensures AfterActiveWindowChanged(x, d, id) == x.(filterInstalled := false)
  {
  }

  /** No active window: the menu is unavailable and a model update is asked for; the current and delayed windows stay. */
  lemma NoActiveWindow(x: X11, d: Desktop)
    requires x.store.data.userWindowId == -1 || x.store.data.userWindowId == 0
    ensures var r := AfterActiveWindowChanged(x, d, 0);
      && !r.store.data.menuAvailable
      && r.store.signals[|r.store.signals| - 1] == ModelNeedsUpdate
      && r.store.currentWindowId == x.store.currentWindowId
      && r.delayedMenuWindowId == x.delayedMenuWindowId && !r.filterInstalled
  {
  }

  /**
   * A skip-taskbar, utility or desktop window never becomes current and
   * touches no menu state. With filterByActive it hides the menu unless its
   * transient chain reaches the current window, in which case nothing
   * changes at all: filterWindow runs for the skipped window itself, which
   * is not the current one.
   */
  lemma {:induction false} SkippedWindowKeepsCurrent(x: X11, d: Desktop, id: WId)
    requires x.store.data.userWindowId == -1 || x.store.data.userWindowId == id
    requires id != 0 && IsSkipped(Info(d, id)) && ChainEnds(d, id)
    ensures var r := AfterActiveWindowChanged(x, d, id);
      && r.store.currentWindowId == x.store.currentWindowId
      && r.delayedMenuWindowId == x.delayedMenuWindowId
      && r.store.data.menuAvailable == x.store.data.menuAvailable
      && (x.store.data.filterByActive && x.store.currentWindowId in Ancestors(d, id) ==> r == x.(filterInstalled := false))
      && (x.store.data.filterByActive && x.store.currentWindowId !in Ancestors(d, id) ==> !r.store.data.visible)
      && (!x.store.data.filterByActive ==> r == x.(filterInstalled := false))
  {
    if x.store.data.filterByActive && x.store.currentWindowId in Ancestors(d, id) {
      NotOwnAncestor(d, id);
      assert x.store.currentWindowId != id;
    }
  }

  /**
   * A window that is not skipped becomes current. If it or (unless children
   * are filtered) a transient ancestor announces a menu, the nearest such
   * window's service name and object path are announced, both non-empty,
   * and the menu's visibility follows filterWindow.
   */
  lemma {:induction false} MenuDiscovered(x: X11, d: Desktop, id: WId, w: WId)
    requires x.store.data.userWindowId == -1 || x.store.data.userWindowId == id
    requires id != 0 && !IsSkipped(Info(d, id))
    requires FirstWithMenu(d, Candidates(d, id, x.store.data.filterChildren)) == Some(w)
    ensures var r := AfterActiveWindowChanged(x, d, id);
      && r.store.currentWindowId == id
      && r.store.data == x.store.data.(visible := Shown(x.store.data.filterByActive, x.store.data.screenGeometry, d, id))
      && |r.store.signals| > |x.store.signals|
      && r.store.signals[|x.store.signals|] == ApplicationMenuChanged(ServiceName(d, w), MenuObjectPath(d, w))
      && ServiceName(d, w) != [] && MenuObjectPath(d, w) != []
      && r.delayedMenuWindowId == x.delayedMenuWindowId && !r.filterInstalled
  {
    FirstWithMenuIsFirst(d, Candidates(d, id, x.store.data.filterChildren));
  }

  /**
   * When neither the window nor (unless children are filtered) any
   * transient ancestor announces a menu, the window becomes current and
   * delayed, the native filter is installed, the menu is unavailable and
   * the last signal asks for a model update; nothing is announced.
   */
  lemma {:induction false} MenuDelayed(x: X11, d: Desktop, id: WId)
    requires x.store.data.userWindowId == -1 || x.store.data.userWindowId == id
    requires id != 0 && !IsSkipped(Info(d, id))
    requires FirstWithMenu(d, Candidates(d, id, x.store.data.filterChildren)).None?
    ensures var r := AfterActiveWindowChanged(x, d, id);
      && r.store.currentWindowId == id && r.delayedMenuWindowId == id && r.filterInstalled
      && !r.store.data.menuAvailable
      && r.store.signals[|r.store.signals| - 1] == ModelNeedsUpdate
      && forall i :: |x.store.signals| <= i < |r.store.signals| ==> !r.store.signals[i].ApplicationMenuChanged?
  {
  }

  /** Only a change of an appmenu atom on the delayed window re-runs discovery; every other event changes nothing. */
  lemma NativeEventRediscovers(x: X11, d: Desktop, e: NativeEvent)
    ensures Rediscovers(x, d, e) ==> AfterNativeEvent(x, d, e) == AfterActiveWindowChanged(x, d, d.active)
    ensures (e.eventType != GenericEventType || e.window != x.delayedMenuWindowId
             || (e.atom != d.serviceAtom && e.atom != d.pathAtom)) ==> AfterNativeEvent(x, d, e) == x
  {
  }

  /** Removing the current window leaves the menu unavailable and hidden; any other removal changes nothing. */
  lemma RemovalHides(x: X11, d: Desktop, id: WId)
    ensures var r := AfterWindowRemoved(x, d, id);
      && (x.store.currentWindowId == id ==> !r.store.data.menuAvailable && !r.store.data.visible)
      && (x.store.currentWindowId != id ==> r == x)
      && r.store.currentWindowId == x.store.currentWindowId
  {
  }

  /**
   * As written, unpinning makes the manager adopt window 0xFFFFFFFF (the
   * unsigned value of -1) instead of the active window: unknown to the
   * window system, it becomes the current and delayed window and the menu
   * goes unavailable, whatever the active window announces.
   */
  lemma UnpinningAsWrittenAdoptsNoWindow(x: X11, d: Desktop)
    requires x.store.data.userWindowId != -1
    requires UIntModulus - 1 !in d.windows && UIntModulus - 1 !in d.serviceProperty
    ensures var r := AfterSetWinIdAsWritten(x, d, -1);
      && r.store.currentWindowId == UIntModulus - 1
      && r.delayedMenuWindowId == UIntModulus - 1
      && !r.store.data.menuAvailable
  {
    var w := UIntModulus - 1;
    var x1 := x.(store := Set(x.store, WinId, Id(-1)));
    assert WinIdTargetAsWritten(x1) == w;
    assert !HasMenu(d, w);
    assert Ancestors(d, w) == [];
    var c := Candidates(d, w, x1.store.data.filterChildren);
    assert c == [w] && c[1..] == [];
    assert FirstWithMenu(d, c) == None;
    var x2 := x1.(filterInstalled := false).(store := x1.store.(currentWindowId := w));
    var x3 := AfterSetMenuAvailable(x2.(filterInstalled := true, delayedMenuWindowId := w), d, false);
    assert !x3.store.data.menuAvailable && x3.delayedMenuWindowId == w;
  }

  /** With the corrected handler, unpinning runs discovery for the active window, and pinning for the pinned one. */
  lemma UnpinningFollowsActiveWindow(x: X11, d: Desktop, id: int)
    requires x.store.data.userWindowId != id
    ensures var x1 := x.(store := Set(x.store, WinId, Id(id)));
      && (id == -1 ==> AfterSetWinId(x, d, id) == AfterActiveWindowChanged(x1, d, d.active))
      && (0 <= id < UIntModulus ==> AfterSetWinId(x, d, id) == AfterActiveWindowChanged(x1, d, id))
  {
  }

  /** After unpinning, an active window that is not skipped becomes the current window. */
  lemma UnpinnedActiveBecomesCurrent(x: X11, d: Desktop)
    requires x.store.data.userWindowId != -1
    requires d.active != 0 && !IsSkipped(Info(d, d.active))
    ensures AfterSetWinId(x, d, -1).store.currentWindowId == d.active
  {
    var x1 := x.(store := Set(x.store, WinId, Id(-1)));
    var r := AfterActiveWindowChanged(x1, d, d.active);
    match FirstWithMenu(d, Candidates(d, d.active, x1.store.data.filterChildren))
    case Some(w) =>
      MenuDiscovered(x1, d, d.active, w);
    case None =>
      MenuDelayed(x1, d, d.active);
  }

  // ---------------------------------------------------------------------
  // The object
  // ---------------------------------------------------------------------

  class X11FallbackWindowManager {
    const base: AbstractWindowManager
    var delayedMenuWindowId: int
    var filterInstalled: bool

    function Snapshot(): X11
      reads this, base
    {
      X11(base.Snapshot(), delayedMenuWindowId, filterInstalled)
    }

    /** Connects the handlers, then runs discovery for the active window. */
    constructor(d: Desktop)
      requires ChainEnds(d, d.active)
      ensures fresh(base) && Snapshot() == Started(d)
    {
      base := new AbstractWindowManager();
      delayedMenuWindowId := -1;
      filterInstalled := false;
      new;
      assert Snapshot() == X11(Initial(), -1, false);
      OnActiveWindowChanged(d, d.active);
    }

    method FilterWindow(d: Desktop, w: WId)
      modifies base
      ensures Snapshot() == AfterFilterWindow(old(Snapshot()), d, w)
    {
      if base.currentWindowId == w {
        base.SetVisible(Shown(base.filterByActive, base.screenGeometry, d, w));
      }
    }

    method OnWindowChanged(d: Desktop, id: WId)
      modifies base
      ensures Snapshot() == AfterWindowChanged(old(Snapshot()), d, id)
    {
      if base.currentWindowId == id {
        FilterWindow(d, id);
      }
    }

    method SetMenuAvailable(d: Desktop, available: bool)
      modifies base
      ensures Snapshot() == AfterSetMenuAvailable(old(Snapshot()), d, available)
    {
      var changed := base.menuAvailable != available;
      base.SetMenuAvailable(available);
      if changed {
        OnWindowChanged(d, ToUInt(base.currentWindowId));
      }
    }

    method OnWindowRemoved(d: Desktop, id: WId)
      modifies base
      ensures Snapshot() == AfterWindowRemoved(old(Snapshot()), d, id)
    {
      if base.currentWindowId == id {
        SetMenuAvailable(d, false);
        base.SetVisible(false);
      }
    }

    method OnActiveWindowChanged(d: Desktop, id: WId)
      requires ChainEnds(d, id)
      modifies this, base
      ensures Snapshot() == AfterActiveWindowChanged(old(Snapshot()), d, id)
    {
      filterInstalled := false;
      if base.HasUserWindowId() && base.userWindowId != id {
        return;
      }
      if id == 0 {
        SetMenuAvailable(d, false);
        base.Emit(ModelNeedsUpdate);
        return;
      }
      var info := Info(d, id);
      if IsSkipped(info) {
        if base.filterByActive {
          var reached := ChainReaches(d, info.transientFor, base.currentWindowId);
          if reached {
            FilterWindow(d, id);
            return;
          }
        }
        if base.filterByActive {
          base.SetVisible(false);
        }
        return;
      }
      base.SetCurrentWindowId(id);
      DiscoveryOrder(d, id, base.filterChildren);
      if !base.filterChildren {
        var found := FirstMenuInChain(d, info.transientFor);
        if found.Some? {
          base.Emit(ApplicationMenuChanged(ServiceName(d, found.value), MenuObjectPath(d, found.value)));
          FilterWindow(d, id);
          return;
        }
      }
      if HasMenu(d, id) {
        base.Emit(ApplicationMenuChanged(ServiceName(d, id), MenuObjectPath(d, id)));
        FilterWindow(d, id);
        return;
      }
      filterInstalled := true;
      delayedMenuWindowId := id;
      SetMenuAvailable(d, false);
      base.Emit(ModelNeedsUpdate);
    }

    /** Called for each native event while the filter is installed; never consumes it. */
    method NativeEventFilter(d: Desktop, e: NativeEvent) returns (handled: bool)
      requires filterInstalled && ChainEnds(d, d.active)
      modifies this, base
      ensures !handled && Snapshot() == AfterNativeEvent(old(Snapshot()), d, e)
    {
      if e.eventType != GenericEventType {
        return false;
      }
      if e.responseType & 0x7F == PropertyNotify && e.window == delayedMenuWindowId {
        if d.serviceAtom != 0 && d.pathAtom != 0 {
          if e.atom == d.serviceAtom || e.atom == d.pathAtom {
            OnActiveWindowChanged(d, d.active);
          }
        }
      }
      return false;
    }

    method SetWinId(d: Desktop, id: int)
      requires ChainEnds(d, ToUInt(id))
      modifies this, base
      ensures Snapshot() == AfterSetWinIdAsWritten(old(Snapshot()), d, id)
    {
      var changed := base.userWindowId != id;
      base.SetWinId(id);
      if changed {
        OnActiveWindowChanged(d, ToUInt(base.userWindowId));
      }
    }

    method SetScreenGeometry(d: Desktop, geometry: Rect)
      modifies base
      ensures Snapshot() == AfterSetScreenGeometry(old(Snapshot()), d, geometry)
    {
      var changed := base.screenGeometry != geometry;
      base.SetScreenGeometry(geometry);
      if changed {
        OnWindowChanged(d, ToUInt(base.currentWindowId));
      }
    }

    method SetFilterByActive(active: bool)
      modifies base
      ensures Snapshot() == old(Snapshot()).(store := Set(old(base.Snapshot()), FilterByActive, Flag(active)))
    {
      base.SetFilterByActive(active);
    }

    method SetFilterChildren(hideChildren: bool)
      modifies base
      ensures Snapshot() == old(Snapshot()).(store := Set(old(base.Snapshot()), FilterChildren, Flag(hideChildren)))
    {
      base.SetFilterChildren(hideChildren);
    }

    method SetData(d: Desktop, data: WMData)
      requires ChainEnds(d, ToUInt(data.userWindowId))
      modifies this, base
      ensures Snapshot() == AfterSetData(old(Snapshot()), d, data)
    {
      ghost var x := Snapshot();
      base.WriteData(data);
      base.Emit(DataChanged);
      ghost var x1 := x.(store := Store(data, x.store.currentWindowId, x.store.signals + [DataChanged]));
      assert Snapshot() == x1;
      AnnounceAndRefilter(d, MenuAvailableChanged);
      base.Emit(FilterByActiveChanged);
      base.Emit(FilterChildrenChanged);
      base.Emit(VisibleChanged);
      AnnounceAndRefilter(d, ScreenGeometryChanged);
      base.Emit(WinIdChanged);
      assert base.userWindowId == data.userWindowId;
      OnActiveWindowChanged(d, ToUInt(base.userWindowId));
    }

    /** Emits `sig`, whose handler is onWindowChanged for the current window. */
    method AnnounceAndRefilter(d: Desktop, sig: Signal)
      modifies base
      ensures Snapshot() == AfterWindowChanged(Announce(old(Snapshot()), sig), d, ToUInt(old(base.currentWindowId)))
      ensures base.userWindowId == old(base.userWindowId)
    {
      base.Emit(sig);
      OnWindowChanged(d, ToUInt(base.currentWindowId));
    }
  }
}
