/**
 * What the window managers and the application menu model learn from the
 * X11 server and KWindowSystem, as a snapshot handed in with each event:
 * the windows' types, states, transient parents and (already scaled)
 * geometry centres, the active window, the raw bytes of the two
 * _KDE_NET_WM_APPMENU_* properties, and the atoms interned for them.
 * On top of it: the trailing-NUL trim of getWindowPropertyString, the
 * QRect arithmetic of filterWindow, the walk along the transientFor chain,
 * and the two loops of onActiveWindowChanged that walk it.
 */
module WindowSystem {
  import opened Wrappers
  import opened Utf8

  /** An X11 window id; 0 is no window. */
  type WId = nat

  const UIntModulus: int := 0x1_0000_0000

  /** QVariant::toUInt of an integer: its low 32 bits. */
  function ToUInt(v: int): (r: WId)
    ensures r < UIntModulus
    ensures 0 <= v < UIntModulus ==> r == v
    ensures v < 0 && -UIntModulus <= v ==> r == v + UIntModulus
  {
    v % UIntModulus
  }

  // ---------------------------------------------------------------------
  // QPoint and QRect
  // ---------------------------------------------------------------------

  datatype Point = Point(x: int, y: int)

  /** A QRect by its corners; both corners are inside the rectangle. */
  datatype Rect = Rect(x1: int, y1: int, x2: int, y2: int)

  /** QRect(): the null rectangle. */
  const NullRect: Rect := Rect(0, 0, -1, -1)

  /** QRect::isNull: width and height are both 0. */
  predicate IsNull(r: Rect)
  {
    r.x2 == r.x1 - 1 && r.y2 == r.y1 - 1
  }

  /** QRect::contains(point, proper = false): within the corners once they are put in order. */
  predicate Contains(r: Rect, p: Point)
  {
    var left := if r.x2 < r.x1 - 1 then r.x2 else r.x1;
    var right := if r.x2 < r.x1 - 1 then r.x1 else r.x2;
    var top := if r.y2 < r.y1 - 1 then r.y2 else r.y1;
    var bottom := if r.y2 < r.y1 - 1 then r.y1 else r.y2;
    left <= p.x <= right && top <= p.y <= bottom
  }

  /** A null rectangle contains no point, so filterWindow tests it first. */
  lemma NullContainsNothing(r: Rect, p: Point)
    requires IsNull(r)
    ensures !Contains(r, p)
  {
  }

  // ---------------------------------------------------------------------
  // The desktop as the window system reports it
  // ---------------------------------------------------------------------

  /**
   * KWindowInfo of one window: skip-taskbar state, utility and desktop
   * types, minimized state, transient parent (0 for none), and the centre
   * of its geometry divided by the device pixel ratio.
   */
  datatype WindowInfo = WindowInfo(
    skipTaskbar: bool,
    utility: bool,
    desktop: bool,
    minimized: bool,
    transientFor: WId,
    center: Point)

  /**
   * The window system at the moment of an event. `serviceProperty` and
   * `pathProperty` hold the bytes of the two appmenu properties of the
   * windows that have them as 8-bit strings; `serviceAtom` and `pathAtom`
   * are the atoms interned for their names, 0 (XCB_ATOM_NONE) when
   * interning failed.
   */
  datatype Desktop = Desktop(
    windows: map<WId, WindowInfo>,
    active: WId,
    serviceProperty: map<WId, seq<byte>>,
    pathProperty: map<WId, seq<byte>>,
    serviceAtom: nat,
    pathAtom: nat)

  /**
   * KWindowInfo of a window; for a window the server does not know: no
   * state, no type, no parent, an empty geometry.
   */
  function Info(d: Desktop, w: WId): WindowInfo
  {
    if w in d.windows then d.windows[w] else WindowInfo(false, false, false, false, 0, Point(0, 0))
  }

  function TransientFor(d: Desktop, w: WId): WId
  {
    Info(d, w).transientFor
  }

  /** Skip-taskbar, utility and desktop windows never take over the menu. */
  predicate IsSkipped(info: WindowInfo)
  {
    info.skipTaskbar || info.utility || info.desktop
  }

  /**
   * filterWindow's verdict for window `w`: active (when only the active
   * window counts), not minimized, and centred on the screen (a null
   * screen rectangle accepts every window).
   */
  predicate Shown(filterByActive: bool, screen: Rect, d: Desktop, w: WId)
  {
    (!filterByActive || w == d.active)
    && !Info(d, w).minimized
    && (IsNull(screen) || Contains(screen, Info(d, w).center))
  }

  // ---------------------------------------------------------------------
  // The appmenu properties
  // ---------------------------------------------------------------------

  /** The long_length of the xcb_get_property request, in 32-bit units. */
  const MaxPropSize: nat := 10000

  /** The bytes the server returns: at most MaxPropSize 32-bit units of the property. */
  function Received(raw: seq<byte>): (r: seq<byte>)
    ensures r <= raw && |r| <= 4 * MaxPropSize
    ensures |raw| <= 4 * MaxPropSize ==> r == raw
  {
    if |raw| <= 4 * MaxPropSize then raw else raw[..4 * MaxPropSize]
  }

  /** getWindowPropertyString's value: the bytes received, less a terminating NUL. */
  function TrimNul(data: seq<byte>): seq<byte>
  {
    if data != [] && data[|data| - 1] == 0 then data[..|data| - 1] else data
  }

  /** A NUL-terminated value loses its terminator and nothing else. */
  lemma TrimNulTerminated(s: seq<byte>)
    ensures TrimNul(s + [0]) == s
  {
    assert (s + [0])[..|s|] == s;
  }

  /** A value that does not end in NUL is kept whole. */
  lemma TrimNulUnterminated(s: seq<byte>)
    requires s == [] || s[|s| - 1] != 0
    ensures TrimNul(s) == s
  {
  }

  /** At most one byte goes, and only a NUL. */
  lemma TrimNulDropsOneNul(s: seq<byte>)
    ensures TrimNul(s) <= s && |s| - 1 <= |TrimNul(s)|
    ensures |TrimNul(s)| < |s| ==> s[|s| - 1] == 0
  {
  }

  /** Whatever the trim does, the text decoded from the value is the same. */
  lemma {:induction false} TrimNulKeepsText(b: seq<byte>)
    ensures UpToNul(TrimNul(b)) == UpToNul(b)
  {
    var t := TrimNul(b);
    var u := UpToNul(b);
    if |t| < |b| {
      UpToNulPrefix(t, b);
    }
  }

  /** Cutting a value anywhere after its first NUL, or at its end, keeps its text. */
  lemma {:induction false} UpToNulPrefix(t: seq<byte>, b: seq<byte>)
    requires t <= b && (|t| == |b| || 0 in b[..|t| + 1] || |UpToNul(b)| <= |t|)
    ensures UpToNul(t) == UpToNul(b)
    decreases |t|
  {
    if t == [] {
      if b != [] {
        assert b[..1] == [b[0]];
      }
    } else if t[0] == 0 {
    } else if |t| < |b| {
      assert t[1..] <= b[1..];
      if 0 in b[..|t| + 1] {
        assert 0 in b[1..][..|t[1..]| + 1] by {
          var i :| 0 <= i < |t| + 1 && b[..|t| + 1][i] == 0;
          assert i != 0;
          assert b[1..][..|t[1..]| + 1][i - 1] == 0;
        }
      }
      UpToNulPrefix(t[1..], b[1..]);
    } else {
      assert t == b;
    }
  }

  /**
   * getWindowPropertyString followed by QString::fromUtf8: empty when the
   * atom could not be interned or the window has no such property.
   */
  function PropertyText(atom: nat, property: map<WId, seq<byte>>, w: WId): seq<byte>
  {
    if atom == 0 || w !in property then [] else UpToNul(TrimNul(Received(property[w])))
  }

  function ServiceName(d: Desktop, w: WId): seq<byte>
  {
    PropertyText(d.serviceAtom, d.serviceProperty, w)
  }

  function MenuObjectPath(d: Desktop, w: WId): seq<byte>
  {
    PropertyText(d.pathAtom, d.pathProperty, w)
  }

  /** updateMenuFromWindowIfHasMenu succeeds: both texts are non-empty. */
  predicate HasMenu(d: Desktop, w: WId)
  {
    ServiceName(d, w) != [] && MenuObjectPath(d, w) != []
  }

  /** A window announces a menu exactly when both properties start with a byte other than NUL. */
  lemma {:induction false} HasMenuBytes(d: Desktop, w: WId)
    requires d.serviceAtom != 0 && d.pathAtom != 0
    ensures HasMenu(d, w) <==>
      (w in d.serviceProperty && d.serviceProperty[w] != [] && d.serviceProperty[w][0] != 0
       && w in d.pathProperty && d.pathProperty[w] != [] && d.pathProperty[w][0] != 0)
  {
    if w in d.serviceProperty {
      FirstByteDecides(d.serviceProperty[w]);
    }
    if w in d.pathProperty {
      FirstByteDecides(d.pathProperty[w]);
    }
  }

  lemma FirstByteDecides(raw: seq<byte>)
    ensures UpToNul(TrimNul(Received(raw))) != [] <==> (raw != [] && raw[0] != 0)
  {
    var r := Received(raw);
    var t := TrimNul(r);
    if raw != [] && raw[0] != 0 {
      assert r[0] == raw[0];
      assert |t| >= 1 by {
        if |r| == 1 {
          assert r[0] != 0;
        }
      }
      assert t[0] == raw[0];
    } else if raw != [] {
      if t != [] {
        assert t[0] == raw[0];
      }
    }
  }

  // ---------------------------------------------------------------------
  // The transientFor chain
  // ---------------------------------------------------------------------

  /**
   * The windows met following transientFor from `w`, nearest first, up to
   * the window 0 or a window met before (in `seen`).
   */
  function Walk(d: Desktop, w: WId, seen: set<WId>): (r: seq<WId>)
    ensures 0 !in r
    decreases d.windows.Keys - seen
  {
    if w == 0 || w in seen then []
    else if w !in d.windows then [w]
    else [w] + Walk(d, d.windows[w].transientFor, seen + {w})
  }

  /** Following transientFor from `w` reaches the window 0 without meeting a window of `seen`. */
  predicate Ends(d: Desktop, w: WId, seen: set<WId>)
    decreases d.windows.Keys - seen
  {
    if w == 0 then true
    else if w in seen then false
    else if w !in d.windows then true
    else Ends(d, d.windows[w].transientFor, seen + {w})
  }

  /** The transient ancestors of `id`, nearest first. */
  function Ancestors(d: Desktop, id: WId): seq<WId>
  {
    Walk(d, TransientFor(d, id), {})
  }

  /** The loops over the ancestors of `id` terminate: the chain has no cycle. */
  predicate ChainEnds(d: Desktop, id: WId)
  {
    Ends(d, TransientFor(d, id), {})
  }

  /** One step of a walk that ends: `w` itself, then the walk from its parent. */
  lemma WalkStep(d: Desktop, w: WId, seen: set<WId>)
    requires w != 0 && Ends(d, w, seen)
    ensures w !in seen && Ends(d, TransientFor(d, w), seen + {w})
    ensures Walk(d, w, seen) == [w] + Walk(d, TransientFor(d, w), seen + {w})
  {
  }

  /** Each window of an ending walk is followed by its own transient parent. */
  lemma {:induction false} WalkFollowsParents(d: Desktop, w: WId, seen: set<WId>)
    requires Ends(d, w, seen)
    ensures var r := Walk(d, w, seen);
      (w != 0 ==> r != [] && r[0] == w)
      && (forall i :: 0 <= i < |r| - 1 ==> r[i + 1] == TransientFor(d, r[i]))
      && (r != [] ==> TransientFor(d, r[|r| - 1]) == 0)
    decreases d.windows.Keys - seen
  {
    if w != 0 && w in d.windows {
      WalkStep(d, w, seen);
      var p := TransientFor(d, w);
      WalkFollowsParents(d, p, seen + {w});
      var r := Walk(d, w, seen);
      var tail := Walk(d, p, seen + {w});
      assert r == [w] + tail;
      assert forall i :: 1 <= i < |r| ==> r[i] == tail[i - 1];
    }
  }

  /** In an ending walk no window leads back to the start or to `seen`. */
  lemma {:induction false} EndsNoReturn(d: Desktop, w: WId, seen: set<WId>, x: WId)
    requires Ends(d, w, seen) && x in Walk(d, w, seen)
    ensures TransientFor(d, x) == 0 || TransientFor(d, x) !in seen + {w}
    decreases d.windows.Keys - seen
  {
    if w in d.windows {
      var p := d.windows[w].transientFor;
      if x != w {
        EndsNoReturn(d, p, seen + {w}, x);
      }
    }
  }

  /** A window whose chain ends is not among its own ancestors. */
  lemma NotOwnAncestor(d: Desktop, id: WId)
    requires ChainEnds(d, id)
    ensures id !in Ancestors(d, id)
  {
    var p := TransientFor(d, id);
    if id in Ancestors(d, id) {
      EndsNoReturn(d, p, {}, id);
      assert false;
    }
  }

  // ---------------------------------------------------------------------
  // Menu discovery
  // ---------------------------------------------------------------------

  /** The first window of `ws` that announces a menu. */
  function FirstWithMenu(d: Desktop, ws: seq<WId>): Option<WId>
    decreases |ws|
  {
    if ws == [] then None
    else if HasMenu(d, ws[0]) then Some(ws[0])
    else FirstWithMenu(d, ws[1..])
  }

  /** The window found announces a menu and every window before it does not; none is found only when no window has one. */
  lemma FirstWithMenuIsFirst(d: Desktop, ws: seq<WId>)
    ensures var r := FirstWithMenu(d, ws);
      && (r.None? <==> forall i :: 0 <= i < |ws| ==> !HasMenu(d, ws[i]))
      && (r.Some? ==> exists i :: (0 <= i < |ws| && ws[i] == r.value && HasMenu(d, ws[i])
            && forall j :: 0 <= j < i ==> !HasMenu(d, ws[j])))
  {
    FirstWithMenuNone(d, ws);
    if FirstWithMenu(d, ws).Some? {
      var i := FirstWithMenuAt(d, ws);
    }
  }

  /** None is found exactly when no window announces a menu. */
  lemma {:induction false} FirstWithMenuNone(d: Desktop, ws: seq<WId>)
    ensures FirstWithMenu(d, ws).None? <==> forall i :: 0 <= i < |ws| ==> !HasMenu(d, ws[i])
    decreases |ws|
  {
    if ws != [] && !HasMenu(d, ws[0]) {
      FirstWithMenuNone(d, ws[1..]);
      assert forall i :: 1 <= i < |ws| ==> ws[i] == ws[1..][i - 1];
    }
  }

  /** The position of the window found: it announces a menu and none before it does. */
  lemma {:induction false} FirstWithMenuAt(d: Desktop, ws: seq<WId>) returns (i: nat)
    requires FirstWithMenu(d, ws).Some?
    ensures i < |ws| && ws[i] == FirstWithMenu(d, ws).value && HasMenu(d, ws[i])
    ensures forall j :: 0 <= j < i ==> !HasMenu(d, ws[j])
    decreases |ws|
  {
    if HasMenu(d, ws[0]) {
      i := 0;
    } else {
      var k := FirstWithMenuAt(d, ws[1..]);
      i := k + 1;
      assert ws[i] == ws[1..][k];
      forall j | 0 < j < i ensures !HasMenu(d, ws[j]) {
        assert ws[j] == ws[1..][j - 1];
      }
    }
  }

  /** Windows without a menu in front of a list change nothing. */
  lemma {:induction false} FirstWithMenuSkips(d: Desktop, a: seq<WId>, b: seq<WId>)
    requires forall i :: 0 <= i < |a| ==> !HasMenu(d, a[i])
    ensures FirstWithMenu(d, a + b) == FirstWithMenu(d, b)
    decreases |a|
  {
    if a != [] {
      assert (a + b)[0] == a[0] && !HasMenu(d, a[0]);
      assert (a + b)[1..] == a[1..] + b;
      assert forall i :: 1 <= i < |a| ==> a[1..][i - 1] == a[i];
      FirstWithMenuSkips(d, a[1..], b);
      assert FirstWithMenu(d, a + b) == FirstWithMenu(d, (a + b)[1..]);
    } else {
      assert a + b == b;
    }
  }

  /**
   * The windows onActiveWindowChanged asks for a menu, in order: the
   * transient ancestors nearest first (unless children are filtered out),
   * then the window itself.
   */
  function Candidates(d: Desktop, id: WId, filterChildren: bool): seq<WId>
  {
    (if filterChildren then [] else Ancestors(d, id)) + [id]
  }

  /**
   * The window whose menu is taken: the nearest ancestor with a menu,
   * else the window itself if it has one; only the window itself when
   * children are filtered out.
   */
  lemma {:induction false} DiscoveryOrder(d: Desktop, id: WId, filterChildren: bool)
    ensures var r := FirstWithMenu(d, Candidates(d, id, filterChildren));
      && (filterChildren ==> r == (if HasMenu(d, id) then Some(id) else None))
      && (!filterChildren && FirstWithMenu(d, Ancestors(d, id)).Some? ==> r == FirstWithMenu(d, Ancestors(d, id)))
      && (!filterChildren && FirstWithMenu(d, Ancestors(d, id)).None? ==> r == (if HasMenu(d, id) then Some(id) else None))
  {
    var anc := Ancestors(d, id);
    if filterChildren {
      assert Candidates(d, id, filterChildren) == [id];
    } else if FirstWithMenu(d, anc).None? {
      FirstWithMenuIsFirst(d, anc);
      FirstWithMenuSkips(d, anc, [id]);
    } else {
      FirstWithMenuPrefix(d, anc, [id]);
    }
  }

  /** A list whose first menu is in its front part keeps that first menu when extended. */
  lemma {:induction false} FirstWithMenuPrefix(d: Desktop, a: seq<WId>, b: seq<WId>)
    requires FirstWithMenu(d, a).Some?
    ensures FirstWithMenu(d, a + b) == FirstWithMenu(d, a)
    decreases |a|
  {
    assert (a + b)[0] == a[0];
    if !HasMenu(d, a[0]) {
      assert (a + b)[1..] == a[1..] + b;
      assert forall i :: 1 <= i < |a| ==> a[i] == a[1..][i - 1];
      FirstWithMenuPrefix(d, a[1..], b);
    }
  }

  /**
   * The first loop of onActiveWindowChanged for a skipped window: follow
   * transientFor from `start` and tell whether `target` comes up.
   */
  method ChainReaches(d: Desktop, start: WId, target: int) returns (found: bool)
    requires Ends(d, start, {})
    ensures found <==> target in Walk(d, start, {})
  {
    var w := start;
    ghost var seen: set<WId> := {};
    while w != 0
      invariant Ends(d, w, seen)
      invariant (target in Walk(d, start, {})) == (target in Walk(d, w, seen))
      decreases |Walk(d, w, seen)|
    {
      WalkStep(d, w, seen);
      if w == target {
        return true;
      }
      seen := seen + {w};
      w := TransientFor(d, w);
    }
    return false;
  }

  /**
   * The second loop of onActiveWindowChanged: follow transientFor from
   * `start` and stop at the first window that announces a menu.
   */
  method FirstMenuInChain(d: Desktop, start: WId) returns (r: Option<WId>)
    requires Ends(d, start, {})
    ensures r == FirstWithMenu(d, Walk(d, start, {}))
  {
    var w := start;
    ghost var seen: set<WId> := {};
    while w != 0
      invariant Ends(d, w, seen)
      invariant FirstWithMenu(d, Walk(d, start, {})) == FirstWithMenu(d, Walk(d, w, seen))
      decreases |Walk(d, w, seen)|
    {
      WalkStep(d, w, seen);
      ghost var rest := Walk(d, TransientFor(d, w), seen + {w});
      assert Walk(d, w, seen) == [w] + rest;
      if HasMenu(d, w) {
        return Some(w);
      }
      FirstWithMenuSkips(d, [w], rest);
      seen := seen + {w};
      w := TransientFor(d, w);
    }
    return None;
  }

  // ---------------------------------------------------------------------
  // Native events
  // ---------------------------------------------------------------------

  /** XCB_PROPERTY_NOTIFY. */
  const PropertyNotify: bv8 := 28

  /** The native event type the filters accept. */
  const GenericEventType: string := "xcb_generic_event_t"

  /** A native event: its type name, and for an xcb event its response type, window and atom. */
  datatype NativeEvent = NativeEvent(eventType: string, responseType: bv8, window: WId, atom: nat)

  /**
   * The event is a PropertyNotify (the response type without its
   * "sent by SendEvent" bit 0x80) for `window` and for one of the two
   * appmenu atoms, both of which were interned.
   */
  predicate AppMenuPropertyChanged(d: Desktop, e: NativeEvent, window: int)
  {
    e.eventType == GenericEventType
    && e.responseType & 0x7F == PropertyNotify
    && e.window == window
    && d.serviceAtom != 0 && d.pathAtom != 0
    && (e.atom == d.serviceAtom || e.atom == d.pathAtom)
  }
}
