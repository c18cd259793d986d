/**
 * AbstractWindowManager (plugin/wm/abstractwindowmanager.cpp): the six
 * properties a window-manager backend shares with the applet, setters that
 * notify only on change, the WMData snapshot that data()/setData() copy in
 * and out, and the dataChanged signal that fans out to the six per-property
 * signals. Emitted signals are kept in an append-only log. The store is a
 * value here (Store, with one function per setter) and the class
 * AbstractWindowManager is proved against it. The handler the task-model
 * backends (generic and Wayland) run on an active-task change is defined
 * here too, since both run the same code over this store.
 */
module WindowManager {
  import opened WindowSystem
  import opened Utf8

  /** The signals of AbstractWindowManager, as they appear in the log. */
  datatype Signal =
    | ApplicationMenuChanged(serviceName: seq<byte>, menuObjectPath: seq<byte>)
    | ModelNeedsUpdate
    | DataChanged
    | MenuAvailableChanged
    | FilterByActiveChanged
    | FilterChildrenChanged
    | VisibleChanged
    | ScreenGeometryChanged
    | WinIdChanged

  /** WMData; the user window id is the integer the QVariant holds (-1 for none). */
  datatype WMData = WMData(
    filterByActive: bool,
    filterChildren: bool,
    menuAvailable: bool,
    visible: bool,
    screenGeometry: Rect,
    userWindowId: int)

  /** The defaults of WMData and of the manager's own members. */
  const Defaults: WMData := WMData(false, false, false, true, NullRect, -1)

  /** One of the six properties. */
  datatype Field = FilterByActive | FilterChildren | MenuAvailable | Visible | ScreenGeometry | WinId

  /** A value one of the properties can hold. */
  datatype FieldValue = Flag(b: bool) | Geometry(r: Rect) | Id(i: int)

  predicate Fits(f: Field, v: FieldValue)
  {
    match f
    case ScreenGeometry => v.Geometry?
    case WinId => v.Id?
    case _ => v.Flag?
  }

  /** The getter of property `f`. */
  function Get(d: WMData, f: Field): (v: FieldValue)
    ensures Fits(f, v)
  {
    match f
    case FilterByActive => Flag(d.filterByActive)
    case FilterChildren => Flag(d.filterChildren)
    case MenuAvailable => Flag(d.menuAvailable)
    case Visible => Flag(d.visible)
    case ScreenGeometry => Geometry(d.screenGeometry)
    case WinId => Id(d.userWindowId)
  }

  /** Property `f` overwritten with `v`. */
  function Put(d: WMData, f: Field, v: FieldValue): WMData
    requires Fits(f, v)
  {
    match f
    case FilterByActive => d.(filterByActive := v.b)
    case FilterChildren => d.(filterChildren := v.b)
    case MenuAvailable => d.(menuAvailable := v.b)
    case Visible => d.(visible := v.b)
    case ScreenGeometry => d.(screenGeometry := v.r)
    case WinId => d.(userWindowId := v.i)
  }

  /** The signal that announces a change of property `f`. */
  function Notifies(f: Field): Signal
  {
    match f
    case FilterByActive => FilterByActiveChanged
    case FilterChildren => FilterChildrenChanged
    case MenuAvailable => MenuAvailableChanged
    case Visible => VisibleChanged
    case ScreenGeometry => ScreenGeometryChanged
    case WinId => WinIdChanged
  }

  /** A property reads back what was put in it, and the others are untouched. */
  lemma PutThenGet(d: WMData, f: Field, v: FieldValue, g: Field)
    requires Fits(f, v)
    ensures Get(Put(d, f, v), g) == (if g == f then v else Get(d, g))
  {
  }

  /** Putting back what a property holds changes nothing. */
  lemma GetThenPut(d: WMData, f: Field)
    ensures Put(d, f, Get(d, f)) == d
  {
  }

  /** The six properties make up the whole of WMData. */
  lemma FieldsDetermineData(d: WMData, e: WMData)
    requires forall f :: Get(d, f) == Get(e, f)
    ensures d == e
  {
    assert Get(d, FilterByActive) == Get(e, FilterByActive);
    assert Get(d, FilterChildren) == Get(e, FilterChildren);
    assert Get(d, MenuAvailable) == Get(e, MenuAvailable);
    assert Get(d, Visible) == Get(e, Visible);
    assert Get(d, ScreenGeometry) == Get(e, ScreenGeometry);
    assert Get(d, WinId) == Get(e, WinId);
  }

  /** The manager: its properties, the current window (-1 for none) and the signal log. */
  datatype Store = Store(data: WMData, currentWindowId: int, signals: seq<Signal>)

  /** A new manager: the defaults, no current window, nothing emitted. */
  function Initial(): (s: Store)
    ensures s.data.filterByActive == false && s.data.filterChildren == false
    ensures s.data.menuAvailable == false && s.data.visible == true
    ensures s.data.screenGeometry == NullRect && s.data.userWindowId == -1
    ensures s.currentWindowId == -1 && s.signals == []
  {
    Store(Defaults, -1, [])
  }

  /** A setter: nothing when the value is already there, else store it and emit its signal. */
  function Set(s: Store, f: Field, v: FieldValue): Store
    requires Fits(f, v)
  {
    if Get(s.data, f) == v then s
    else Store(Put(s.data, f, v), s.currentWindowId, s.signals + [Notifies(f)])
  }

  function Emitted(s: Store, sig: Signal): Store
  {
    s.(signals := s.signals + [sig])
  }

  /** A setter leaves the value in place, changes no other property, and emits its signal exactly when the value changed. */
  lemma SetStores(s: Store, f: Field, v: FieldValue)
    requires Fits(f, v)
    ensures var r := Set(s, f, v);
      && Get(r.data, f) == v
      && (forall g | g != f :: Get(r.data, g) == Get(s.data, g))
      && r.currentWindowId == s.currentWindowId
      && (Get(s.data, f) != v ==> r.signals == s.signals + [Notifies(f)])
      && (Get(s.data, f) == v ==> r.signals == s.signals)
  {
    forall g | g != f
      ensures Get(Set(s, f, v).data, g) == Get(s.data, g)
    {
      PutThenGet(s.data, f, v, g);
    }
  }

  /** Setting the value a property already holds is a no-op, so a setter is idempotent. */
  lemma SetIdempotent(s: Store, f: Field, v: FieldValue)
    requires Fits(f, v)
    ensures Set(s, f, Get(s.data, f)) == s
    ensures Set(Set(s, f, v), f, v) == Set(s, f, v)
  {
    SetStores(s, f, v);
  }

  /** The per-property signals dataChanged is connected to, in connection order. */
  const FanOut: seq<Signal> :=
    [MenuAvailableChanged, FilterByActiveChanged, FilterChildrenChanged,
     VisibleChanged, ScreenGeometryChanged, WinIdChanged]

  /** The fan-out names every property's signal, each once. */
  lemma FanOutCoversEachField(f: Field)
    ensures exists i :: 0 <= i < |FanOut| && FanOut[i] == Notifies(f)
    ensures forall i, j :: 0 <= i < j < |FanOut| ==> FanOut[i] != FanOut[j]
  {
    match f
    case MenuAvailable => assert FanOut[0] == Notifies(f);
    case FilterByActive => assert FanOut[1] == Notifies(f);
    case FilterChildren => assert FanOut[2] == Notifies(f);
    case Visible => assert FanOut[3] == Notifies(f);
    case ScreenGeometry => assert FanOut[4] == Notifies(f);
    case WinId => assert FanOut[5] == Notifies(f);
  }

  /** setData: all six properties overwritten, then dataChanged and its fan-out, whatever changed. */
  function WithData(s: Store, d: WMData): Store
  {
    Store(d, s.currentWindowId, s.signals + [DataChanged] + FanOut)
  }

  function Count(sigs: seq<Signal>, sig: Signal): nat
  {
    |set i | 0 <= i < |sigs| && sigs[i] == sig|
  }

  /** data() after setData(d) is d; dataChanged is emitted exactly once, before the six signals. */
  lemma SetDataRoundTrip(s: Store, d: WMData)
    ensures WithData(s, d).data == d
    ensures var added := WithData(s, d).signals[|s.signals|..];
      added[0] == DataChanged && Count(added, DataChanged) == 1 && added[1..] == FanOut
  {
    var added := WithData(s, d).signals[|s.signals|..];
    assert added == [DataChanged] + FanOut;
    assert (set i | 0 <= i < |added| && added[i] == DataChanged) == {0};
  }

  // ---------------------------------------------------------------------
  // The task-model backends
  // ---------------------------------------------------------------------

  /**
   * onActiveWindowChanged of GenericWindowManager and WaylandWindowManager,
   * given the object path and service name the task model reports for the
   * active task.
   */
  function TaskChanged(s: Store, objectPath: seq<byte>, serviceName: seq<byte>): Store
  {
    if objectPath != [] && serviceName != [] then
      var s1 := Emitted(Set(s, MenuAvailable, Flag(true)), ApplicationMenuChanged(serviceName, objectPath));
      Emitted(Set(s1, Visible, Flag(true)), ModelNeedsUpdate)
    else
      Set(Set(s, MenuAvailable, Flag(false)), Visible, Flag(false))
  }

  /** The menu is available and visible exactly when both strings are non-empty; the window, pin and filters stay. */
  lemma TaskChangedAvailability(s: Store, objectPath: seq<byte>, serviceName: seq<byte>)
    ensures var r := TaskChanged(s, objectPath, serviceName);
      && (r.data.menuAvailable <==> objectPath != [] && serviceName != [])
      && (r.data.visible <==> objectPath != [] && serviceName != [])
      && r.data.(menuAvailable := s.data.menuAvailable, visible := s.data.visible) == s.data
      && r.currentWindowId == s.currentWindowId
  {
  }

  /** On success the log grows by the availability change (if any), the menu, the visibility change (if any) and a model update, in that order. */
  lemma TaskChangedSuccess(s: Store, objectPath: seq<byte>, serviceName: seq<byte>)
    requires objectPath != [] && serviceName != []
    ensures TaskChanged(s, objectPath, serviceName).signals ==
      s.signals
      + (if s.data.menuAvailable then [] else [MenuAvailableChanged])
      + [ApplicationMenuChanged(serviceName, objectPath)]
      + (if s.data.visible then [] else [VisibleChanged])
      + [ModelNeedsUpdate]
  {
  }

  /** On failure nothing but the two property signals can be emitted: no menu and no model update. */
  lemma TaskChangedFailure(s: Store, objectPath: seq<byte>, serviceName: seq<byte>)
    requires objectPath == [] || serviceName == []
    ensures TaskChanged(s, objectPath, serviceName).signals ==
      s.signals
      + (if s.data.menuAvailable then [MenuAvailableChanged] else [])
      + (if s.data.visible then [VisibleChanged] else [])
  {
  }

  /** Repeating a successful change announces the menu again but no property change. */
  lemma TaskChangedRepeated(s: Store, objectPath: seq<byte>, serviceName: seq<byte>)
    requires objectPath != [] && serviceName != []
    ensures var r := TaskChanged(s, objectPath, serviceName);
      TaskChanged(r, objectPath, serviceName).signals ==
        r.signals + [ApplicationMenuChanged(serviceName, objectPath), ModelNeedsUpdate]
  {
    var r := TaskChanged(s, objectPath, serviceName);
    TaskChangedAvailability(s, objectPath, serviceName);
    TaskChangedSuccess(r, objectPath, serviceName);
  }

  /** The handler keeps nothing of its own: two stores that agree on the properties agree after it. */
  lemma TaskChangedStateless(s: Store, t: Store, objectPath: seq<byte>, serviceName: seq<byte>)
    requires s.data == t.data
    ensures TaskChanged(s, objectPath, serviceName).data == TaskChanged(t, objectPath, serviceName).data
  {
  }

  // ---------------------------------------------------------------------
  // The object
  // ---------------------------------------------------------------------

  class AbstractWindowManager {
    var filterByActive: bool
    var filterChildren: bool
    var menuAvailable: bool
    var visible: bool
    var screenGeometry: Rect
    var userWindowId: int
    var currentWindowId: int
    var signals: seq<Signal>

    /** data(). */
    function Data(): WMData
      reads this
    {
      WMData(filterByActive, filterChildren, menuAvailable, visible, screenGeometry, userWindowId)
    }

    function Snapshot(): Store
      reads this
    {
      Store(Data(), currentWindowId, signals)
    }

    constructor()
      ensures Snapshot() == Initial()
    {
      filterByActive := false;
      filterChildren := false;
      menuAvailable := false;
      visible := true;
      screenGeometry := NullRect;
      userWindowId := -1;
      currentWindowId := -1;
      signals := [];
    }

    /** hasUserWindowId: the applet pinned a window. */
    predicate HasUserWindowId()
      reads this
    {
      userWindowId != -1
    }

    method SetFilterByActive(active: bool)
      modifies this
      ensures Snapshot() == Set(old(Snapshot()), FilterByActive, Flag(active))
    {
      if filterByActive == active {
        return;
      }
      filterByActive := active;
      signals := signals + [FilterByActiveChanged];
    }

    method SetFilterChildren(hideChildren: bool)
      modifies this
      ensures Snapshot() == Set(old(Snapshot()), FilterChildren, Flag(hideChildren))
    {
      if filterChildren == hideChildren {
        return;
      }
      filterChildren := hideChildren;
      signals := signals + [FilterChildrenChanged];
    }

    method SetMenuAvailable(available: bool)
      modifies this
      ensures Snapshot() == Set(old(Snapshot()), MenuAvailable, Flag(available))
    {
      if menuAvailable != available {
        menuAvailable := available;
        signals := signals + [MenuAvailableChanged];
      }
    }

    method SetScreenGeometry(geometry: Rect)
      modifies this
      ensures Snapshot() == Set(old(Snapshot()), ScreenGeometry, Geometry(geometry))
    {
      if screenGeometry == geometry {
        return;
      }
      screenGeometry := geometry;
      signals := signals + [ScreenGeometryChanged];
    }

    method SetVisible(visible': bool)
      modifies this
      ensures Snapshot() == Set(old(Snapshot()), Visible, Flag(visible'))
    {
      if visible != visible' {
        visible := visible';
        signals := signals + [VisibleChanged];
      }
    }

    method SetWinId(id: int)
      modifies this
      ensures Snapshot() == Set(old(Snapshot()), WinId, Id(id))
    {
      if userWindowId == id {
        return;
      }
      userWindowId := id;
      signals := signals + [WinIdChanged];
    }

    /** setData: the fields written, then dataChanged, whose connections emit the six property signals. */
    method SetData(data: WMData)
      modifies this
      ensures Snapshot() == WithData(old(Snapshot()), data)
    {
      WriteData(data);
      signals := signals + [DataChanged] + FanOut;
    }

    /** The six assignments of setData, before it emits. */
    method WriteData(data: WMData)
      modifies this
      ensures Snapshot() == old(Snapshot()).(data := data)
    {
      filterByActive := data.filterByActive;
      filterChildren := data.filterChildren;
      menuAvailable := data.menuAvailable;
      visible := data.visible;
      screenGeometry := data.screenGeometry;
      userWindowId := data.userWindowId;
    }

    method Emit(sig: Signal)
      modifies this
      ensures Snapshot() == Emitted(old(Snapshot()), sig)
    {
      signals := signals + [sig];
    }

    method SetCurrentWindowId(id: int)
      modifies this
      ensures Snapshot() == old(Snapshot()).(currentWindowId := id)
    {
      currentWindowId := id;
    }
  }
}
