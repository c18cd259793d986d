/**
 * DBusMenuImporter (plugin/libdbusmenuqt/dbusmenuimporter.cpp) as a state
 * machine: the objects of MenuTree, the two id sets and the single-shot
 * timer that coalesce LayoutUpdated signals, the menus whose aboutToHide is
 * connected, and append-only logs of the calls sent to the menu's owner and
 * of the signals emitted. Replies, the timer's expiry and the event loop's
 * deferred deletions are inputs. Each slot is a function of the state here;
 * the class DBusMenuImporter carries out the same slots step by step and is
 * proved against these functions.
 */
module Importer {
  import opened Wrappers
  import opened MenuTypes
  import opened MenuAction
  import opened MenuTree

  /** A call on the com.canonical.dbusmenu interface of the menu's owner. */
  datatype Call =
    | GetLayout(parentId: int, recursionDepth: int, propertyNames: seq<string>)
    | AboutToShow(id: int)
    | Event(id: int, eventId: string)

  /** A signal of the importer. */
  datatype Signal = MenuUpdated(menu: Owner) | ActionActivationRequested(action: Handle)

  datatype State = State(
    objects: Tree,
    refreshed: set<int>,
    pending: set<int>,
    timerActive: bool,
    hideWatched: set<Owner>,
    calls: seq<Call>,
    signals: seq<Signal>)

  /** The objects are valid and only existing menus have aboutToHide connected. */
  predicate Inv(s: State)
  {
    Valid(s.objects) && s.hideWatched <= s.objects.menus.Keys
  }

  /** refresh(id): ask for the layout of `id`, one level deep, with every property. */
  function Refresh(s: State, id: int): State
  {
    s.(calls := s.calls + [GetLayout(id, 1, [])])
  }

  /** The constructor: nothing imported yet, and the root layout requested. */
  function Initial(): (s: State)
    ensures Inv(s) && s.calls == [GetLayout(0, 1, [])] && s.signals == []
  {
    Refresh(State(Empty(), {}, {}, false, {}, [], []), 0)
  }

  // ---------------------------------------------------------------------
  // Coalescing of LayoutUpdated
  // ---------------------------------------------------------------------

  /**
   * slotLayoutUpdated: an id that AboutToShow has just refreshed is taken out
   * of that set and nothing else happens; any other id joins the pending
   * set, and the timer starts unless it is running already.
   */
  function LayoutUpdated(s: State, parentId: int): State
  {
    if parentId in s.refreshed then s.(refreshed := s.refreshed - {parentId})
    else s.(pending := s.pending + {parentId}, timerActive := true)
  }

  /** Several LayoutUpdated signals, in order. */
  function LayoutUpdatedAll(s: State, ids: seq<int>): State
    decreases |ids|
  {
    if ids == [] then s else LayoutUpdated(LayoutUpdatedAll(s, ids[..|ids| - 1]), ids[|ids| - 1])
  }

  /** `order` lists each element of `ids` once: an iteration order of the set. */
  predicate Enumerates(order: seq<int>, ids: set<int>)
  {
    (forall i, j :: 0 <= i < j < |order| ==> order[i] != order[j])
    && (forall id :: id in ids ==> id in order)
    && (forall id :: id in order ==> id in ids)
  }

  /** The GetLayout calls for `order`, in that order. */
  function Refreshes(order: seq<int>): (r: seq<Call>)
    ensures |r| == |order|
    ensures forall k :: 0 <= k < |order| ==> r[k] == GetLayout(order[k], 1, [])
    decreases |order|
  {
    if order == [] then [] else Refreshes(order[..|order| - 1]) + [GetLayout(order[|order| - 1], 1, [])]
  }

  /**
   * processPendingLayoutUpdates, when the timer fires: the pending set is
   * taken and cleared, and each id in it is refreshed, in the set's order.
   */
  function Fired(s: State, order: seq<int>): State
    requires Enumerates(order, s.pending)
  {
    s.(pending := {}, timerActive := false, calls := s.calls + Refreshes(order))
  }

  // ---------------------------------------------------------------------
  // Replies and the menus' own signals
  // ---------------------------------------------------------------------

  /** Whether the second loop creates an action: some child's id is not mapped. */
  predicate CreatesAction(t: Tree, children: seq<LayoutItem>)
  {
    exists i :: 0 <= i < |children| && children[i].id !in t.actionForId
  }

  /**
   * slotGetLayoutFinished: a failed call only reports the menu, if there is
   * one; a reply for an id without a menu is dropped; otherwise the menu is
   * reconciled with the reply's children, its aboutToHide is connected when
   * a child was created, and the menu is reported once.
   */
  function GetLayoutFinished(s: State, parentId: int, reply: Option<LayoutItem>): State
    requires Inv(s)
  {
    var menu := MenuForId(s.objects, parentId);
    if reply.None? then
      if menu.Some? then s.(signals := s.signals + [MenuUpdated(menu.value)]) else s
    else if menu.None? then s
    else
      MenuForIdExists(s.objects, parentId);
      var o := menu.value;
      var children := reply.value.children;
      s.(objects := Reconcile(s.objects, o, children),
         hideWatched := if CreatesAction(s.objects, children) then s.hideWatched + {o} else s.hideWatched,
         signals := s.signals + [MenuUpdated(o)])
  }

  /** The `triggered` handler of an action: a "clicked" event for the id it was created for. */
  function Triggered(s: State, h: Handle): State
    requires h in s.objects.actions
  {
    s.(calls := s.calls + [Event(s.objects.actions[h].id, "clicked")])
  }

  /** updateMenu(menu): AboutToShow for the menu's id, then an "opened" event for it. */
  function MenuOpened(s: State, o: Owner): State
    requires Inv(s) && o in s.objects.menus
  {
    var id := MenuId(s.objects, o);
    s.(calls := s.calls + [AboutToShow(id), Event(id, "opened")])
  }

  /**
   * slotAboutToShowDBusCallFinished: nothing without a menu; a failed call
   * reports the menu; a reply asking for a refresh, or a menu without
   * actions, records the id and refreshes it; otherwise the menu is reported.
   */
  function AboutToShowFinished(s: State, id: int, reply: Option<bool>): State
    requires Inv(s)
  {
    var menu := MenuForId(s.objects, id);
    if menu.None? then s
    else
      MenuForIdExists(s.objects, id);
      var o := menu.value;
      if reply.None? then s.(signals := s.signals + [MenuUpdated(o)])
      else if reply.value || s.objects.menus[o] == [] then Refresh(s.(refreshed := s.refreshed + {id}), id)
      else s.(signals := s.signals + [MenuUpdated(o)])
  }

  /** slotMenuAboutToHide, which only the menus into which an action was created are connected to. */
  function MenuAboutToHide(s: State, o: Owner): State
    requires Inv(s) && o in s.objects.menus
  {
    if o in s.hideWatched then s.(calls := s.calls + [Event(MenuId(s.objects, o), "closed")]) else s
  }

  /** slotMenuAboutToShow, which every submenu (and not the root menu) is connected to. */
  function MenuAboutToShow(s: State, o: Owner): State
    requires Inv(s) && o in s.objects.menus
  {
    if o.Sub? then MenuOpened(s, o) else s
  }

  /** slotItemActivationRequested: the action of a known id is reported; an unknown id is ignored. */
  function ItemActivationRequested(s: State, id: int): State
  {
    if id in s.objects.actionForId then s.(signals := s.signals + [ActionActivationRequested(s.objects.actionForId[id])])
    else s
  }

  // ---------------------------------------------------------------------
  // ItemsPropertiesUpdated
  // ---------------------------------------------------------------------

  /** The action mapped to `id` updated with `keys` looked up in `props`; an unknown id changes nothing. */
  function UpdateMapped(t: Tree, id: int, props: seq<Property>, keys: seq<string>): (r: Tree)
    requires MapLive(t)
    ensures MapLive(r) && r.actionForId == t.actionForId && r.menus == t.menus
    ensures r.stale == t.stale && r.next == t.next && r.actions.Keys == t.actions.Keys
  {
    if id in t.actionForId then
      var h := t.actionForId[id];
      t.(actions := t.actions[h := UpdateActionKeys(t.actions[h], props, keys)])
    else t
  }

  /** The first loop: every property of each updated item, in order. */
  function UpdateAll(t: Tree, updated: seq<MenuItem>): (r: Tree)
    requires MapLive(t)
    ensures MapLive(r) && r.actionForId == t.actionForId && r.menus == t.menus
    ensures r.stale == t.stale && r.next == t.next && r.actions.Keys == t.actions.Keys
    decreases |updated|
  {
    if updated == [] then t
    else
      var item := updated[|updated| - 1];
      UpdateMapped(UpdateAll(t, updated[..|updated| - 1]), item.id, item.properties, Keys(item.properties))
  }

  /** The second loop: each removed key of each item set to an invalid value. */
  function RemoveAll(t: Tree, removed: seq<MenuItemKeys>): (r: Tree)
    requires MapLive(t)
    ensures MapLive(r) && r.actionForId == t.actionForId && r.menus == t.menus
    ensures r.stale == t.stale && r.next == t.next && r.actions.Keys == t.actions.Keys
    decreases |removed|
  {
    if removed == [] then t
    else
      var item := removed[|removed| - 1];
      UpdateMapped(RemoveAll(t, removed[..|removed| - 1]), item.id, [], item.properties)
  }

  /** slotItemsPropertiesUpdated: the updated properties, then the removed ones. */
  function ItemsPropertiesUpdated(s: State, updated: seq<MenuItem>, removed: seq<MenuItemKeys>): State
    requires Inv(s)
  {
    s.(objects := RemoveAll(UpdateAll(s.objects, updated), removed))
  }

  /** The event loop destroys the actions handed to deleteLater; their submenus go with them. */
  function Settled(s: State): State
    requires Inv(s)
  {
    var t := Settle(s.objects);
    s.(objects := t, hideWatched := set o | o in s.hideWatched && o in t.menus)
  }

  // ---------------------------------------------------------------------
  // Lemmas: coalescing
  // ---------------------------------------------------------------------

  /** LayoutUpdated for the same id twice is LayoutUpdated once, unless the first is swallowed. */
  lemma LayoutUpdatedIdempotent(s: State, id: int)
    requires id !in s.refreshed
    ensures LayoutUpdated(LayoutUpdated(s, id), id) == LayoutUpdated(s, id)
  {
  }

  /** The order of two LayoutUpdated signals does not matter. */
  lemma LayoutUpdatedCommute(s: State, a: int, b: int)
    ensures LayoutUpdated(LayoutUpdated(s, a), b) == LayoutUpdated(LayoutUpdated(s, b), a)
  {
  }

  /** An id that AboutToShow refreshed swallows the next LayoutUpdated for it; the one after that is queued. */
  lemma RefreshedIdSwallowsOneUpdate(s: State, id: int)
    requires id in s.refreshed
    ensures var r1 := LayoutUpdated(s, id); var r2 := LayoutUpdated(r1, id);
      r1.pending == s.pending && r1.timerActive == s.timerActive && id !in r1.refreshed
      && id in r2.pending && r2.timerActive
  {
  }

  /** A burst of LayoutUpdated signals leaves each id pending once and the timer running, and sends nothing. */
  lemma {:induction false} UpdatesCoalesce(s: State, ids: seq<int>)
    requires forall i | 0 <= i < |ids| :: ids[i] !in s.refreshed
    ensures var r := LayoutUpdatedAll(s, ids);
      r.pending == s.pending + (set x | x in ids)
      && r.timerActive == (s.timerActive || ids != [])
      && r.refreshed == s.refreshed && r.calls == s.calls && r.signals == s.signals && r.objects == s.objects
    decreases |ids|
  {
    if ids != [] {
      var pre := ids[..|ids| - 1];
      UpdatesCoalesce(s, pre);
      assert (set x | x in ids) == (set x | x in pre) + {ids[|ids| - 1]};
    }
  }

  /** A sequence without repetitions has as many elements as its set. */
  lemma {:induction false} DistinctCard(order: seq<int>)
    requires forall i, j :: 0 <= i < j < |order| ==> order[i] != order[j]
    ensures |set x | x in order| == |order|
    decreases |order|
  {
    if order != [] {
      var pre := order[..|order| - 1];
      var last := order[|order| - 1];
      DistinctCard(pre);
      assert (set x | x in order) == (set x | x in pre) + {last};
      assert last !in (set x | x in pre);
    }
  }

  /** An enumeration of a set is as long as the set is large. */
  lemma EnumeratesCard(order: seq<int>, ids: set<int>)
    requires Enumerates(order, ids)
    ensures |ids| == |order|
  {
    assert ids == set x | x in order by {
      forall x ensures x in ids <==> x in (set y | y in order) {
      }
    }
    DistinctCard(order);
  }

  /** The calls for an enumeration name each of its ids, and name each once. */
  lemma RefreshesNameEach(order: seq<int>, ids: set<int>)
    requires Enumerates(order, ids)
    ensures var sent := Refreshes(order);
      (forall id :: id in ids <==> GetLayout(id, 1, []) in sent)
      && (forall k :: 0 <= k < |sent| ==> sent[k].GetLayout?)
      && (forall k, l :: 0 <= k < l < |sent| ==> sent[k] != sent[l])
  {
    var sent := Refreshes(order);
    forall id ensures id in ids <==> GetLayout(id, 1, []) in sent {
      if id in ids {
        var k :| 0 <= k < |order| && order[k] == id;
        assert sent[k] == GetLayout(id, 1, []);
      }
    }
  }

  /** When the timer fires every pending id is refreshed exactly once, and nothing else is sent. */
  lemma FiredRefreshesPending(s: State, order: seq<int>)
    requires Enumerates(order, s.pending)
    ensures var r := Fired(s, order);
      |r.calls| == |s.calls| + |s.pending| && r.calls[..|s.calls|] == s.calls
      && (forall id :: id in s.pending <==> GetLayout(id, 1, []) in r.calls[|s.calls|..])
      && (forall k :: |s.calls| <= k < |r.calls| ==> r.calls[k].GetLayout?)
      && (forall k, l :: |s.calls| <= k < l < |r.calls| ==> r.calls[k] != r.calls[l])
      && r.pending == {} && !r.timerActive
  {
    var r := Fired(s, order);
    EnumeratesCard(order, s.pending);
    RefreshesNameEach(order, s.pending);
    assert r.calls[|s.calls|..] == Refreshes(order);
    assert forall k | |s.calls| <= k < |r.calls| :: r.calls[k] == Refreshes(order)[k - |s.calls|];
  }

  /** A burst of signals, then the timer: one GetLayout per distinct id, however often it was signalled. */
  lemma BurstRefreshesEachIdOnce(s: State, ids: seq<int>, order: seq<int>)
    requires s.pending == {} && forall i | 0 <= i < |ids| :: ids[i] !in s.refreshed
    requires Enumerates(order, LayoutUpdatedAll(s, ids).pending)
    ensures var r := Fired(LayoutUpdatedAll(s, ids), order);
      |r.calls| == |s.calls| + |set x | x in ids| && r.calls[..|s.calls|] == s.calls
      && (forall id :: id in ids <==> GetLayout(id, 1, []) in r.calls[|s.calls|..])
      && (forall k, l :: |s.calls| <= k < l < |r.calls| ==> r.calls[k] != r.calls[l])
  {
    UpdatesCoalesce(s, ids);
    FiredRefreshesPending(LayoutUpdatedAll(s, ids), order);
  }

  // ---------------------------------------------------------------------
  // Lemmas: layout replies
  // ---------------------------------------------------------------------

  /** A layout reply keeps the objects consistent and loses no menu. */
  lemma ReconcileKeepsMenus(t: Tree, o: Owner, items: seq<LayoutItem>)
    requires Valid(t) && o in t.menus
    ensures Valid(Reconcile(t, o, items)) && t.menus.Keys <= Reconcile(t, o, items).menus.Keys
  {
    ReconcileValid(t, o, items);
    DropValid(t, o, ChildIds(items));
    PlaceAllOtherMenus(Drop(t, o, ChildIds(items)), o, items);
  }

  /**
   * Whatever the reply, the importer stays consistent, sends nothing, and
   * reports the menu once exactly when the id has one; a failed call
   * changes no object.
   */
  lemma GetLayoutFinishedReports(s: State, parentId: int, reply: Option<LayoutItem>)
    requires Inv(s)
    ensures var r := GetLayoutFinished(s, parentId, reply); var menu := MenuForId(s.objects, parentId);
      Inv(r) && r.calls == s.calls
      && (menu.Some? ==> r.signals == s.signals + [MenuUpdated(menu.value)])
      && (menu.None? ==> r == s)
      && (reply.None? ==> r.objects == s.objects)
  {
    var menu := MenuForId(s.objects, parentId);
    MenuForIdExists(s.objects, parentId);
    if reply.Some? && menu.Some? {
      ReconcileKeepsMenus(s.objects, menu.value, reply.value.children);
    }
  }

  /**
   * A reply for a coherent menu with distinct child ids shows exactly the
   * children, in reply order, once the deleted actions are gone, and maps
   * every child's id.
   */
  lemma GetLayoutFinishedShows(s: State, parentId: int, item: LayoutItem)
    requires Inv(s) && MenuForId(s.objects, parentId).Some?
    requires Coherent(s.objects, MenuForId(s.objects, parentId).value) && DistinctIds(item.children)
    ensures var r := GetLayoutFinished(s, parentId, Some(item)); var o := MenuForId(s.objects, parentId).value;
      Inv(r) && o in r.objects.menus
      && (forall i | 0 <= i < |item.children| :: item.children[i].id in r.objects.actionForId)
      && Filter(r.objects.menus[o], r.objects.stale) == Placed(r.objects, item.children)
  {
    GetLayoutFinishedReports(s, parentId, Some(item));
    ReconcileShows(s.objects, MenuForId(s.objects, parentId).value, item.children);
  }

  /** A reply that creates an action in a menu connects its aboutToHide: hiding it sends "closed". */
  lemma CreationWatchesHide(s: State, parentId: int, item: LayoutItem)
    requires Inv(s) && MenuForId(s.objects, parentId).Some? && CreatesAction(s.objects, item.children)
    ensures var r := GetLayoutFinished(s, parentId, Some(item)); var o := MenuForId(s.objects, parentId).value;
      Inv(r) && o in r.objects.menus
      && MenuAboutToHide(r, o).calls == r.calls + [Event(MenuId(r.objects, o), "closed")]
  {
    GetLayoutFinishedReports(s, parentId, Some(item));
  }

  /** A menu that no reply has created an action in sends nothing when it hides. */
  lemma UnwatchedHideSilent(s: State, o: Owner)
    requires Inv(s) && o in s.objects.menus && o !in s.hideWatched
    ensures MenuAboutToHide(s, o) == s
  {
  }

  // ---------------------------------------------------------------------
  // Lemmas: showing a menu
  // ---------------------------------------------------------------------

  /**
   * Showing a submenu sends AboutToShow and then "opened", both for the id
   * that finds the submenu again; showing the root menu sends nothing.
   */
  lemma MenuAboutToShowCalls(s: State, o: Owner)
    requires Inv(s) && o in s.objects.menus
    requires o.Sub? ==> var a := s.objects.actions[o.action];
      a.id != 0 && a.id in s.objects.actionForId && s.objects.actionForId[a.id] == o.action
    ensures var r := MenuAboutToShow(s, o);
      (o.Root? ==> r == s)
      && (o.Sub? ==> exists id :: (MenuForId(s.objects, id) == Some(o)
            && r.calls == s.calls + [AboutToShow(id), Event(id, "opened")]))
      && r.objects == s.objects && r.signals == s.signals
  {
    if o.Sub? {
      MenuIdRoundTrip(s.objects, o);
      var id := MenuId(s.objects, o);
      assert MenuForId(s.objects, id) == Some(o);
    }
  }

  /**
   * The AboutToShow reply: for an id with a menu, exactly one of two things
   * happens. Either the id is refreshed (the reply asks for it or the menu
   * has no actions) and recorded, or the menu is reported. Nothing happens
   * for an id without a menu.
   */
  lemma AboutToShowFinishedOutcome(s: State, id: int, reply: Option<bool>)
    requires Inv(s)
    ensures var r := AboutToShowFinished(s, id, reply); var menu := MenuForId(s.objects, id);
      r.objects == s.objects && Inv(r)
      && (menu.None? ==> r == s)
      && (menu.Some? ==>
        var refresh := reply.Some? && (reply.value || s.objects.menus[menu.value] == []);
        (refresh ==> r.calls == s.calls + [GetLayout(id, 1, [])] && r.refreshed == s.refreshed + {id} && r.signals == s.signals)
        && (!refresh ==> r.calls == s.calls && r.refreshed == s.refreshed && r.signals == s.signals + [MenuUpdated(menu.value)]))
  {
    MenuForIdExists(s.objects, id);
  }

  /** The refresh an AboutToShow reply asks for swallows the owner's next LayoutUpdated for that id. */
  lemma AboutToShowRefreshSwallowsUpdate(s: State, id: int)
    requires Inv(s) && MenuForId(s.objects, id).Some?
    ensures var r := AboutToShowFinished(s, id, Some(true)); var r1 := LayoutUpdated(r, id);
      r.calls == s.calls + [GetLayout(id, 1, [])]
      && r1.pending == s.pending && r1.timerActive == s.timerActive && r1.calls == r.calls
      && id in LayoutUpdated(r1, id).pending
  {
    AboutToShowFinishedOutcome(s, id, Some(true));
    RefreshedIdSwallowsOneUpdate(AboutToShowFinished(s, id, Some(true)), id);
  }

  // ---------------------------------------------------------------------
  // Lemmas: actions
  // ---------------------------------------------------------------------

  /** Triggering the action mapped to an id sends a "clicked" event for that id. */
  lemma TriggeredSendsOwnId(s: State, id: int)
    requires Inv(s) && id in s.objects.actionForId
    ensures Triggered(s, s.objects.actionForId[id]).calls == s.calls + [Event(id, "clicked")]
  {
  }

  /** An activation request reports the action created for the id, and is ignored for an unknown id. */
  lemma ActivationReportsMapped(s: State, id: int)
    requires Inv(s)
    ensures var r := ItemActivationRequested(s, id);
      (id in s.objects.actionForId ==> exists h :: (h in s.objects.actions && s.objects.actions[h].id == id
        && r.signals == s.signals + [ActionActivationRequested(h)]))
      && (id !in s.objects.actionForId ==> r == s)
      && r.objects == s.objects && r.calls == s.calls
  {
    if id in s.objects.actionForId {
      var h := s.objects.actionForId[id];
      assert s.objects.actions[h].id == id;
    }
  }

  // ---------------------------------------------------------------------
  // Lemmas: property updates
  // ---------------------------------------------------------------------

  /** The fields that the updated items carrying `id` name. */
  function UpdatedFields(updated: seq<MenuItem>, id: int): set<Field>
    decreases |updated|
  {
    if updated == [] then {}
    else
      var item := updated[|updated| - 1];
      UpdatedFields(updated[..|updated| - 1], id) + (if item.id == id then FieldsOf(Keys(item.properties)) else {})
  }

  /** The fields that the removed keys of the items carrying `id` name. */
  function RemovedFields(removed: seq<MenuItemKeys>, id: int): set<Field>
    decreases |removed|
  {
    if removed == [] then {}
    else
      var item := removed[|removed| - 1];
      RemovedFields(removed[..|removed| - 1], id) + (if item.id == id then FieldsOf(item.properties) else {})
  }

  lemma AgreeOutsideTrans(a: Action, b: Action, c: Action, f: set<Field>, g: set<Field>)
    requires AgreeOutside(a, b, f) && AgreeOutside(b, c, g)
    ensures AgreeOutside(a, c, f + g)
  {
  }

  /** Updating one mapped action keeps the objects consistent. */
  lemma UpdateMappedValid(t: Tree, id: int, props: seq<Property>, keys: seq<string>)
    requires Valid(t)
    ensures Valid(UpdateMapped(t, id, props, keys))
  {
    if id in t.actionForId {
      var h := t.actionForId[id];
      UpdateTouchesOnlyNamed(t.actions[h], props, keys);
      ReplacedValid(t, h, UpdateActionKeys(t.actions[h], props, keys));
    }
  }

  /** Replacing an action by one of the same kind and id keeps the objects consistent. */
  lemma ReplacedValid(t: Tree, h: Handle, a: Action)
    requires Valid(t) && h in t.actions && Fixed(t.actions[h], a)
    ensures Valid(t.(actions := t.actions[h := a]))
  {
    var r := t.(actions := t.actions[h := a]);
    assert r.actions.Keys == t.actions.Keys;
    forall x | x in r.actions ensures r.actions[x].id == t.actions[x].id && r.actions[x].hasSubmenu == t.actions[x].hasSubmenu
      && r.actions[x].kdeTitle == t.actions[x].kdeTitle {
    }
  }

  /** Step of the two property loops: action `h` changes only in the fields named for its id. */
  lemma UpdateMappedStep(t: Tree, t': Tree, id: int, props: seq<Property>, keys: seq<string>, h: Handle, f: set<Field>)
    requires Valid(t) && Valid(t') && h in t.actions && h in t'.actions && t'.actionForId == t.actionForId
    requires AgreeOutside(t.actions[h], t'.actions[h], f)
    ensures var r := UpdateMapped(t', id, props, keys);
      Valid(r) && AgreeOutside(t.actions[h], r.actions[h], f + (if id == t.actions[h].id then FieldsOf(keys) else {}))
  {
    UpdateMappedValid(t', id, props, keys);
    if id in t'.actionForId && t'.actionForId[id] == h {
      UpdateTouchesOnlyNamed(t'.actions[h], props, keys);
      AgreeOutsideTrans(t.actions[h], t'.actions[h], UpdateMapped(t', id, props, keys).actions[h], f, FieldsOf(keys));
    }
  }

  /** The first loop: an action changes only in the fields its id's items name. */
  lemma {:induction false} UpdateAllOnlyNamed(t: Tree, updated: seq<MenuItem>, h: Handle)
    requires Valid(t) && h in t.actions
    ensures var r := UpdateAll(t, updated);
      Valid(r) && AgreeOutside(t.actions[h], r.actions[h], UpdatedFields(updated, t.actions[h].id))
    decreases |updated|
  {
    if updated != [] {
      var pre := updated[..|updated| - 1];
      var item := updated[|updated| - 1];
      UpdateAllOnlyNamed(t, pre, h);
      UpdateMappedStep(t, UpdateAll(t, pre), item.id, item.properties, Keys(item.properties), h, UpdatedFields(pre, t.actions[h].id));
    }
  }

  /** The second loop: an action changes only in the fields its id's removed keys name. */
  lemma {:induction false} RemoveAllOnlyNamed(t: Tree, removed: seq<MenuItemKeys>, h: Handle)
    requires Valid(t) && h in t.actions
    ensures var r := RemoveAll(t, removed);
      Valid(r) && AgreeOutside(t.actions[h], r.actions[h], RemovedFields(removed, t.actions[h].id))
    decreases |removed|
  {
    if removed != [] {
      var pre := removed[..|removed| - 1];
      var item := removed[|removed| - 1];
      RemoveAllOnlyNamed(t, pre, h);
      UpdateMappedStep(t, RemoveAll(t, pre), item.id, [], item.properties, h, RemovedFields(pre, t.actions[h].id));
    }
  }

  /**
   * ItemsPropertiesUpdated keeps the importer consistent, changes neither
   * the map nor any menu, and changes an action only in the fields named for
   * its id, by updated or by removed keys.
   */
  lemma PropertiesChangeOnlyNamed(s: State, updated: seq<MenuItem>, removed: seq<MenuItemKeys>, h: Handle)
    requires Inv(s) && h in s.objects.actions
    ensures var r := ItemsPropertiesUpdated(s, updated, removed); var id := s.objects.actions[h].id;
      Inv(r) && r.objects.actionForId == s.objects.actionForId && r.objects.menus == s.objects.menus
      && r.calls == s.calls && r.signals == s.signals
      && AgreeOutside(s.objects.actions[h], r.objects.actions[h], UpdatedFields(updated, id) + RemovedFields(removed, id))
  {
    var t := s.objects;
    var u := UpdateAll(t, updated);
    UpdateAllOnlyNamed(t, updated, h);
    RemoveAllOnlyNamed(u, removed, h);
    AgreeOutsideTrans(t.actions[h], u.actions[h], RemoveAll(u, removed).actions[h],
      UpdatedFields(updated, t.actions[h].id), RemovedFields(removed, t.actions[h].id));
  }

  /** Both property loops keep the objects consistent. */
  lemma {:induction false} PropertiesKeepValid(t: Tree, updated: seq<MenuItem>, removed: seq<MenuItemKeys>)
    requires Valid(t)
    ensures Valid(UpdateAll(t, updated)) && Valid(RemoveAll(UpdateAll(t, updated), removed))
    decreases |updated| + |removed|
  {
    if removed != [] {
      var item := removed[|removed| - 1];
      PropertiesKeepValid(t, updated, removed[..|removed| - 1]);
      UpdateMappedValid(RemoveAll(UpdateAll(t, updated), removed[..|removed| - 1]), item.id, [], item.properties);
    } else if updated != [] {
      var item := updated[|updated| - 1];
      PropertiesKeepValid(t, updated[..|updated| - 1], []);
      UpdateMappedValid(UpdateAll(t, updated[..|updated| - 1]), item.id, item.properties, Keys(item.properties));
    }
  }

  /** Items whose ids are not mapped change nothing. */
  lemma {:induction false} UnknownItemsIgnored(s: State, updated: seq<MenuItem>, removed: seq<MenuItemKeys>)
    requires Inv(s)
    requires forall i | 0 <= i < |updated| :: updated[i].id !in s.objects.actionForId
    requires forall i | 0 <= i < |removed| :: removed[i].id !in s.objects.actionForId
    ensures ItemsPropertiesUpdated(s, updated, removed) == s
  {
    UpdateAllUnknown(s.objects, updated);
    RemoveAllUnknown(s.objects, removed);
  }

  lemma {:induction false} UpdateAllUnknown(t: Tree, updated: seq<MenuItem>)
    requires MapLive(t) && forall i | 0 <= i < |updated| :: updated[i].id !in t.actionForId
    ensures UpdateAll(t, updated) == t
    decreases |updated|
  {
    if updated != [] {
      UpdateAllUnknown(t, updated[..|updated| - 1]);
    }
  }

  lemma {:induction false} RemoveAllUnknown(t: Tree, removed: seq<MenuItemKeys>)
    requires MapLive(t) && forall i | 0 <= i < |removed| :: removed[i].id !in t.actionForId
    ensures RemoveAll(t, removed) == t
    decreases |removed|
  {
    if removed != [] {
      RemoveAllUnknown(t, removed[..|removed| - 1]);
    }
  }

  /** An updated item's properties land in its action: each key's field holds the converted value. */
  lemma UpdatedPropertyApplied(s: State, item: MenuItem, key: string)
    requires Inv(s) && item.id in s.objects.actionForId && key in Keys(item.properties)
    ensures var r := ItemsPropertiesUpdated(s, [item], []); var h := s.objects.actionForId[item.id];
      Holds(r.objects.actions[h], Convert(FieldOf(key), Lookup(item.properties, key)))
  {
    var t := s.objects;
    var h := t.actionForId[item.id];
    assert [item][..0] == [];
    var a := UpdateActionKeys(t.actions[h], item.properties, Keys(item.properties));
    UpdateAppliesNamed(t.actions[h], item.properties, Keys(item.properties), key);
    var u := UpdateAll(t, [item]);
    assert UpdateAll(t, [item][..0]) == t;
    assert u == UpdateMapped(t, [item][0].id, [item][0].properties, Keys([item][0].properties));
    assert u.actions == t.actions[h := a];
    assert RemoveAll(u, []) == u;
  }

  /**
   * A removed key resets its field: enabled and visible become true and the
   * label is cleared, while the toggle state stays.
   */
  lemma RemovedPropertiesReset(s: State, item: MenuItemKeys)
    requires Inv(s) && item.id in s.objects.actionForId
    ensures var r := ItemsPropertiesUpdated(s, [], [item]); var h := s.objects.actionForId[item.id];
      var a := r.objects.actions[h]; var keys := item.properties;
      ("enabled" in keys ==> a.enabled) && ("visible" in keys ==> a.visible)
      && ("label" in keys ==> a.text == "") && a.checked == s.objects.actions[h].checked
  {
    var t := s.objects;
    var h := t.actionForId[item.id];
    assert [item][..0] == [];
    var a := UpdateActionKeys(t.actions[h], [], item.properties);
    RemovedKeysReset(t.actions[h], item.properties);
    assert UpdateAll(t, []) == t;
    var u := RemoveAll(t, [item]);
    assert RemoveAll(t, [item][..0]) == t;
    assert u == UpdateMapped(t, [item][0].id, [], [item][0].properties);
    assert u.actions == t.actions[h := a];
  }

  /** Destroying the deleted actions keeps the importer consistent. */
  lemma SettledInv(s: State)
    requires Inv(s)
    ensures Inv(Settled(s))
  {
    SettleValid(s.objects);
  }

  // ---------------------------------------------------------------------
  // Steps of the loops
  // ---------------------------------------------------------------------

  lemma HasElement(ids: set<int>)
    requires ids != {}
    ensures exists id :: id in ids
  {
    if forall id :: id !in ids {
      assert false;
    }
  }

  lemma RefreshesSnoc(calls: seq<Call>, order: seq<int>, id: int)
    ensures calls + Refreshes(order + [id]) == calls + Refreshes(order) + [GetLayout(id, 1, [])]
  {
    assert (order + [id])[..|order|] == order;
  }

  lemma UpdateAllSnoc(t: Tree, updated: seq<MenuItem>, i: nat)
    requires MapLive(t) && i < |updated|
    ensures UpdateAll(t, updated[..i + 1])
      == UpdateMapped(UpdateAll(t, updated[..i]), updated[i].id, updated[i].properties, Keys(updated[i].properties))
  {
    assert updated[..i + 1][..i] == updated[..i];
  }

  lemma RemoveAllSnoc(t: Tree, removed: seq<MenuItemKeys>, i: nat)
    requires MapLive(t) && i < |removed|
    ensures RemoveAll(t, removed[..i + 1]) == UpdateMapped(RemoveAll(t, removed[..i]), removed[i].id, [], removed[i].properties)
  {
    assert removed[..i + 1][..i] == removed[..i];
  }

  lemma OutdatedSnoc(t: Tree, m: seq<Handle>, j: nat, newIds: set<int>)
    requires j < |m| && forall h | h in m :: h in t.actions
    ensures forall h | h in m[..j + 1] :: h in t.actions
    ensures var id := IdProperty(t.actions[m[j]]);
      Outdated(t, m[..j + 1], newIds) == Outdated(t, m[..j], newIds) + (if id in newIds then {} else {m[j]})
      && OutdatedIds(t, m[..j + 1], newIds) == OutdatedIds(t, m[..j], newIds) + (if id in newIds then {} else {id})
  {
    assert m[..j + 1] == m[..j] + [m[j]];
  }

  lemma PlaceAllSnoc(d: Tree, o: Owner, items: seq<LayoutItem>, i: nat)
    requires MapLive(d) && o in d.menus && i < |items|
    ensures PlaceAll(d, o, items[..i + 1]) == Place(PlaceAll(d, o, items[..i]), o, items[i])
  {
    var s := items[..i + 1];
    assert s != [] && |s| - 1 == i && s[..i] == items[..i] && s[i] == items[i];
  }

  /** The statements that create a child, as Place describes them. */
  lemma PlaceNew(t: Tree, o: Owner, item: LayoutItem)
    requires MapLive(t) && o in t.menus && item.id !in t.actionForId
    ensures var h := t.next;
      var a := CreatedAction(item.id, item.properties);
      var menus := if a.hasSubmenu then t.menus[Sub(h) := []] else t.menus;
      Place(t, o, item) == t.(actionForId := t.actionForId[item.id := h], actions := t.actions[h := a],
                              menus := menus[o := t.menus[o] + [h]], next := t.next + 1)
  {
  }

  /** The statements that update and move a child, as Place describes them. */
  lemma PlaceKnown(t: Tree, o: Owner, item: LayoutItem)
    requires MapLive(t) && o in t.menus && item.id in t.actionForId
    ensures var h := t.actionForId[item.id];
      var a := UpdateActionKeys(t.actions[h], item.properties, FilteredKeys(item.properties));
      Place(t, o, item) == t.(actions := t.actions[h := a], menus := t.menus[o := Filter(t.menus[o], {h}) + [h]])
  {
  }

  /** Whether one of the first `i` children has an id that `d` does not map. */
  predicate CreatesBefore(d: Tree, items: seq<LayoutItem>, i: nat)
  {
    exists j :: 0 <= j < i && j < |items| && items[j].id !in d.actionForId
  }

  /** The second loop creates an action for child `i` exactly when no earlier child did for the same id. */
  lemma CreatesStep(d: Tree, o: Owner, items: seq<LayoutItem>, i: nat)
    requires MapLive(d) && o in d.menus && i < |items|
    ensures CreatesBefore(d, items, i + 1)
      == (CreatesBefore(d, items, i) || items[i].id !in PlaceAll(d, o, items[..i]).actionForId)
  {
    var r := PlaceAll(d, o, items[..i]);
    PlaceAllKeepsEntries(d, o, items[..i]);
    if items[i].id !in d.actionForId && items[i].id in r.actionForId {
      assert items[i].id in ChildIds(items[..i]);
      var k :| 0 <= k < i && items[..i][k].id == items[i].id;
      assert items[k].id !in d.actionForId;
    }
  }

  /** The first loop removes no child's id, so it creates nothing the map before it had. */
  lemma CreatesAfterDrop(t: Tree, o: Owner, items: seq<LayoutItem>)
    requires MapLive(t) && o in t.menus && forall h | h in t.menus[o] :: h in t.actions
    ensures CreatesAction(Drop(t, o, ChildIds(items)), items) == CreatesAction(t, items)
  {
    OutdatedIdsNotChildren(t, t.menus[o], ChildIds(items));
    forall i | 0 <= i < |items| ensures items[i].id in ChildIds(items) {
    }
  }

  // ---------------------------------------------------------------------
  // The importer object
  // ---------------------------------------------------------------------

  /**
   * The QObject and its private part: the objects it created, the two id
   * sets, whether the single-shot timer runs, the menus whose aboutToHide
   * it connected, and the calls and signals so far. Each method is one slot
   * (or one event the source reacts to), carried out step by step, and ends
   * in the state the function of the same event describes.
   */
  class DBusMenuImporter {
    var objects: Tree
    var refreshed: set<int>
    var pending: set<int>
    var timerActive: bool
    var hideWatched: set<Owner>
    var calls: seq<Call>
    var signals: seq<Signal>

    function Snapshot(): State
      reads this
    {
      State(objects, refreshed, pending, timerActive, hideWatched, calls, signals)
    }

    predicate Consistent()
      reads this
    {
      Inv(Snapshot())
    }

    /** Nothing imported yet; the root layout is requested. */
    constructor()
      ensures Snapshot() == Initial() && Consistent()
    {
      objects := Empty();
      refreshed := {};
      pending := {};
      timerActive := false;
      hideWatched := {};
      calls := [];
      signals := [];
      new;
      RequestLayout(0);
    }

    /** refresh(id). */
    method RequestLayout(id: int)
      modifies this`calls
      ensures Snapshot() == Refresh(old(Snapshot()), id)
    {
      calls := calls + [GetLayout(id, 1, [])];
    }

    /** sendEvent(id, eventId). */
    method SendEvent(id: int, eventId: string)
      modifies this`calls
      ensures Snapshot() == old(Snapshot()).(calls := old(calls) + [Event(id, eventId)])
    {
      calls := calls + [Event(id, eventId)];
    }

    method SlotLayoutUpdated(parentId: int)
      modifies this`refreshed, this`pending, this`timerActive
      ensures Snapshot() == LayoutUpdated(old(Snapshot()), parentId)
    {
      if parentId in refreshed {
        refreshed := refreshed - {parentId};
        return;
      }
      pending := pending + {parentId};
      if !timerActive {
        timerActive := true;
      }
    }

    /** The timer's timeout: `order` is the order in which the set of pending ids is walked. */
    method ProcessPendingLayoutUpdates() returns (ghost order: seq<int>)
      modifies this`timerActive, this`pending, this`calls
      ensures Enumerates(order, old(pending)) && Snapshot() == Fired(old(Snapshot()), order)
    {
      timerActive := false;
      var ids := pending;
      pending := {};
      order := [];
      while ids != {}
        invariant forall i, j :: 0 <= i < j < |order| ==> order[i] != order[j]
        invariant forall id :: id in order ==> id in old(pending) && id !in ids
        invariant forall id :: id in old(pending) ==> id in order || id in ids
        invariant ids <= old(pending)
        invariant calls == old(calls) + Refreshes(order)
        modifies this`calls
        decreases |ids|
      {
        HasElement(ids);
        var id :| id in ids;
        RequestLayout(id);
        RefreshesSnoc(old(calls), order, id);
        order := order + [id];
        ids := ids - {id};
      }
    }

    method SlotItemsPropertiesUpdated(updated: seq<MenuItem>, removed: seq<MenuItemKeys>)
      requires Consistent()
      modifies this`objects
      ensures Snapshot() == ItemsPropertiesUpdated(old(Snapshot()), updated, removed) && Consistent()
    {
      PropertiesKeepValid(objects, updated, removed);
      ApplyUpdated(updated);
      ApplyRemoved(removed);
    }

    /** The first loop: each known item's properties, key by key. */
    method ApplyUpdated(updated: seq<MenuItem>)
      requires MapLive(objects)
      modifies this`objects
      ensures Snapshot() == old(Snapshot()).(objects := UpdateAll(old(objects), updated))
    {
      var i := 0;
      while i < |updated|
        invariant 0 <= i <= |updated|
        invariant objects == UpdateAll(old(objects), updated[..i])
      {
        var item := updated[i];
        if item.id in objects.actionForId {
          var h := objects.actionForId[item.id];
          var a := UpdateAction(objects.actions[h], item.properties, Keys(item.properties));
          objects := objects.(actions := objects.actions[h := a]);
        }
        UpdateAllSnoc(old(objects), updated, i);
        i := i + 1;
      }
      assert updated[..i] == updated;
    }

    /** The second loop: each known item's removed keys, with an invalid value. */
    method ApplyRemoved(removed: seq<MenuItemKeys>)
      requires MapLive(objects)
      modifies this`objects
      ensures Snapshot() == old(Snapshot()).(objects := RemoveAll(old(objects), removed))
    {
      var i := 0;
      while i < |removed|
        invariant 0 <= i <= |removed|
        invariant objects == RemoveAll(old(objects), removed[..i])
      {
        var item := removed[i];
        if item.id in objects.actionForId {
          var h := objects.actionForId[item.id];
          var a := UpdateAction(objects.actions[h], [], item.properties);
          objects := objects.(actions := objects.actions[h := a]);
        }
        RemoveAllSnoc(old(objects), removed, i);
        i := i + 1;
      }
      assert removed[..i] == removed;
    }

    method SlotItemActivationRequested(id: int)
      modifies this`signals
      ensures Snapshot() == ItemActivationRequested(old(Snapshot()), id)
    {
      if id !in objects.actionForId {
        return;
      }
      signals := signals + [ActionActivationRequested(objects.actionForId[id])];
    }

    method SlotGetLayoutFinished(parentId: int, reply: Option<LayoutItem>)
      requires Consistent()
      modifies this`objects, this`hideWatched, this`signals
      ensures Snapshot() == GetLayoutFinished(old(Snapshot()), parentId, reply) && Consistent()
    {
      GetLayoutFinishedReports(Snapshot(), parentId, reply);
      assert Valid(objects);
      var menu := MenuForId(objects, parentId);
      if reply.None? {
        if menu.Some? {
          signals := signals + [MenuUpdated(menu.value)];
        }
        return;
      }
      if menu.None? {
        return;
      }
      MenuForIdExists(objects, parentId);
      var o := menu.value;
      var children := reply.value.children;
      var newIds := CollectIds(children);
      ghost var t := objects;
      RemoveOutdated(o, newIds);
      CreatesAfterDrop(t, o, children);
      InsertChildren(o, children);
      signals := signals + [MenuUpdated(o)];
    }

    /** The ids of a reply's children. */
    static method CollectIds(children: seq<LayoutItem>) returns (newIds: set<int>)
      ensures newIds == ChildIds(children)
    {
      newIds := {};
      var k := 0;
      while k < |children|
        invariant 0 <= k <= |children| && newIds == ChildIds(children[..k])
      {
        newIds := newIds + {children[k].id};
        assert children[..k + 1][..k] == children[..k];
        ChildIdsSnoc(children[..k + 1]);
        k := k + 1;
      }
      assert children[..k] == children;
    }

    /** The first loop: every action of menu `o` whose id property is not among `newIds` is dropped. */
    method RemoveOutdated(o: Owner, newIds: set<int>)
      requires Valid(objects) && o in objects.menus
      modifies this`objects
      ensures Snapshot() == old(Snapshot()).(objects := Drop(old(objects), o, newIds))
    {
      ghost var t := objects;
      var m := objects.menus[o];
      var j := 0;
      while j < |m|
        invariant 0 <= j <= |m|
        invariant objects.actions == t.actions && objects.menus == t.menus && objects.next == t.next
        invariant objects.stale == t.stale + Outdated(t, m[..j], newIds)
        invariant objects.actionForId == t.actionForId - OutdatedIds(t, m[..j], newIds)
      {
        DropNext(t, m, j, newIds);
        j := j + 1;
      }
      assert m[..j] == m;
    }

    /** One turn of the first loop: action `m[j]` is dropped when its id is not among `newIds`. */
    method DropNext(ghost t: Tree, m: seq<Handle>, j: nat, newIds: set<int>)
      requires j < |m| && forall h | h in m :: h in t.actions
      requires objects.actions == t.actions && objects.menus == t.menus && objects.next == t.next
      requires objects.stale == t.stale + Outdated(t, m[..j], newIds)
      requires objects.actionForId == t.actionForId - OutdatedIds(t, m[..j], newIds)
      modifies this`objects
      ensures objects.actions == t.actions && objects.menus == t.menus && objects.next == t.next
      ensures objects.stale == t.stale + Outdated(t, m[..j + 1], newIds)
      ensures objects.actionForId == t.actionForId - OutdatedIds(t, m[..j + 1], newIds)
    {
      var h := m[j];
      var id := IdProperty(objects.actions[h]);
      if id !in newIds {
        objects := objects.(stale := objects.stale + {h});
        objects := objects.(actionForId := objects.actionForId - {id});
      }
      OutdatedSnoc(t, m, j, newIds);
    }

    /** The second loop: the children in reply order, each created or updated and moved to the end. */
    method InsertChildren(o: Owner, children: seq<LayoutItem>)
      requires MapLive(objects) && o in objects.menus
      modifies this`objects, this`hideWatched
      ensures Snapshot() == old(Snapshot()).(objects := PlaceAll(old(objects), o, children),
        hideWatched := old(hideWatched) + (if CreatesAction(old(objects), children) then {o} else {}))
    {
      ghost var d := objects;
      var created := false;
      var i := 0;
      while i < |children|
        invariant 0 <= i <= |children|
        invariant objects == PlaceAll(d, o, children[..i])
        invariant created == CreatesBefore(d, children, i)
        invariant hideWatched == old(hideWatched) + (if created then {o} else {})
      {
        created := PlaceNext(o, children, i, d, old(hideWatched), created);
        i := i + 1;
      }
      assert children[..i] == children;
      assert created == CreatesAction(d, children);
    }

    /** One turn of the second loop: child `i` placed after the ones before it. */
    method PlaceNext(o: Owner, children: seq<LayoutItem>, i: nat, ghost d: Tree, ghost watched: set<Owner>,
                     created: bool) returns (created': bool)
      requires MapLive(d) && o in d.menus && i < |children|
      requires objects == PlaceAll(d, o, children[..i]) && created == CreatesBefore(d, children, i)
      requires hideWatched == watched + (if created then {o} else {})
      modifies this`objects, this`hideWatched
      ensures objects == PlaceAll(d, o, children[..i + 1]) && created' == CreatesBefore(d, children, i + 1)
      ensures hideWatched == watched + (if created' then {o} else {})
    {
      PlaceAllSnoc(d, o, children, i);
      CreatesStep(d, o, children, i);
      var isNew := PlaceChild(o, children[i]);
      created' := created || isNew;
    }

    /** One child of the reply: created when its id is unknown, updated and moved to the end otherwise. */
    method PlaceChild(o: Owner, item: LayoutItem) returns (isNew: bool)
      requires MapLive(objects) && o in objects.menus
      modifies this`objects, this`hideWatched
      ensures isNew == (item.id !in old(objects).actionForId)
      ensures objects == Place(old(objects), o, item)
      ensures hideWatched == old(hideWatched) + (if isNew then {o} else {})
    {
      isNew := item.id !in objects.actionForId;
      if isNew {
        AddChild(o, item);
      } else {
        MoveChild(o, item);
      }
    }

    /** A child with an unknown id: createAction, its map entry, addAction, and the aboutToHide connection. */
    method AddChild(o: Owner, item: LayoutItem)
      requires MapLive(objects) && o in objects.menus && item.id !in objects.actionForId
      modifies this`objects, this`hideWatched
      ensures objects == Place(old(objects), o, item) && hideWatched == old(hideWatched) + {o}
    {
      var t := objects;
      PlaceNew(t, o, item);
      var h := t.next;
      var a := CreatedAction(item.id, item.properties);
      var menus := if a.hasSubmenu then t.menus[Sub(h) := []] else t.menus;
      objects := t.(actionForId := t.actionForId[item.id := h], actions := t.actions[h := a],
                    menus := menus[o := t.menus[o] + [h]], next := t.next + 1);
      hideWatched := hideWatched + {o};
    }

    /** A child with a known id: updateAction with the mutable keys, then removeAction and addAction. */
    method MoveChild(o: Owner, item: LayoutItem)
      requires MapLive(objects) && o in objects.menus && item.id in objects.actionForId
      modifies this`objects
      ensures objects == Place(old(objects), o, item)
    {
      var t := objects;
      PlaceKnown(t, o, item);
      var h := t.actionForId[item.id];
      var a := UpdateAction(t.actions[h], item.properties, FilteredKeys(item.properties));
      objects := t.(actions := t.actions[h := a]);
      objects := objects.(menus := objects.menus[o := Filter(objects.menus[o], {h}) + [h]]);
    }

    /** The `triggered` handler of action `h`: sendClickedEvent with the id it was created for. */
    method SendClickedEvent(h: Handle)
      requires h in objects.actions
      modifies this`calls
      ensures Snapshot() == Triggered(old(Snapshot()), h)
    {
      SendEvent(objects.actions[h].id, "clicked");
    }

    method UpdateMenu(o: Owner)
      requires Consistent() && o in objects.menus
      modifies this`calls
      ensures Snapshot() == MenuOpened(old(Snapshot()), o) && Consistent()
    {
      var id := MenuId(objects, o);
      calls := calls + [AboutToShow(id)];
      SendEvent(id, "opened");
    }

    method SlotAboutToShowDBusCallFinished(id: int, reply: Option<bool>)
      requires Consistent()
      modifies this`refreshed, this`calls, this`signals
      ensures Snapshot() == AboutToShowFinished(old(Snapshot()), id, reply) && Consistent()
    {
      var menu := MenuForId(objects, id);
      if menu.None? {
        return;
      }
      MenuForIdExists(objects, id);
      if reply.None? {
        signals := signals + [MenuUpdated(menu.value)];
        return;
      }
      var needRefresh := reply.value;
      if needRefresh || objects.menus[menu.value] == [] {
        refreshed := refreshed + {id};
        RequestLayout(id);
      } else {
        signals := signals + [MenuUpdated(menu.value)];
      }
    }

    /** Connected only to the menus an action was created in. */
    method SlotMenuAboutToHide(o: Owner)
      requires Consistent() && o in objects.menus && o in hideWatched
      modifies this`calls
      ensures Snapshot() == MenuAboutToHide(old(Snapshot()), o) && Consistent()
    {
      SendEvent(MenuId(objects, o), "closed");
    }

    /** Connected only to submenus; the palette copy is not modelled. */
    method SlotMenuAboutToShow(o: Owner)
      requires Consistent() && o in objects.menus && o.Sub?
      modifies this`calls
      ensures Snapshot() == MenuAboutToShow(old(Snapshot()), o) && Consistent()
    {
      UpdateMenu(o);
    }

    /** The event loop destroys the actions handed to deleteLater. */
    method DestroyDeletedActions()
      requires Consistent()
      modifies this`objects, this`hideWatched
      ensures Snapshot() == Settled(old(Snapshot())) && Consistent()
    {
      SettledInv(Snapshot());
      objects := Settle(objects);
      hideWatched := set o | o in hideWatched && o in objects.menus;
    }
  }
}
