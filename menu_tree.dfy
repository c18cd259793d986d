/**
 * The objects the importer of plugin/libdbusmenuqt/dbusmenuimporter.cpp
 * keeps: the id-to-action map, the actions themselves (by identity), the
 * ordered action list of every menu, and the actions handed to deleteLater
 * that the event loop has not destroyed yet. A layout reply reconciles one
 * menu with the reply's children (slotGetLayoutFinished); Settle is the
 * deferred deletion, with the `destroyed` handler each new action carries.
 */
module MenuTree {
  import opened Wrappers
  import opened MenuTypes
  import opened MenuAction

  /** The identity of an action object (the QAction pointer). */
  type Handle = nat

  /** A menu: the importer's root menu, or the submenu an action owns. */
  datatype Owner = Root | Sub(action: Handle)

  datatype Tree = Tree(
    actionForId: map<int, Handle>,
    actions: map<Handle, Action>,
    menus: map<Owner, seq<Handle>>,
    stale: set<Handle>,
    next: Handle)

  /**
   * The map points at live actions carrying the id it files them under;
   * every submenu belongs to a live action that has one, and every action
   * that has one has its menu; menus hold live actions; handles not yet
   * given out are at or above `next`.
   */
  predicate Valid(t: Tree)
  {
    MapLive(t)
    && (forall id | id in t.actionForId :: t.actions[t.actionForId[id]].id == id)
    && (forall h | h in t.actions :: h < t.next)
    && t.stale <= t.actions.Keys
    && Root in t.menus
    && (forall o | o in t.menus :: o.Sub? ==> o.action in t.actions && t.actions[o.action].hasSubmenu)
    && (forall h | h in t.actions && t.actions[h].hasSubmenu :: Sub(h) in t.menus && !t.actions[h].kdeTitle)
    && (forall o, h | o in t.menus && h in t.menus[o] :: h in t.actions)
  }

  /** Every map entry points at a live action. */
  predicate MapLive(t: Tree)
  {
    forall id | id in t.actionForId :: t.actionForId[id] in t.actions
  }

  /** A new importer: an empty root menu and nothing else. */
  function Empty(): (t: Tree)
    ensures Valid(t)
  {
    Tree(map[], map[], map[Root := []], {}, 0)
  }

  function Elements(s: seq<Handle>): set<Handle>
  {
    set h | h in s
  }

  /** The handles of `s` that are not in `drop`, in order. */
  function Filter(s: seq<Handle>, drop: set<Handle>): (r: seq<Handle>)
    ensures forall h :: h in r <==> h in s && h !in drop
    decreases |s|
  {
    if s == [] then [] else (if s[0] in drop then [] else [s[0]]) + Filter(s[1..], drop)
  }

  // ---------------------------------------------------------------------
  // Menus and their ids
  // ---------------------------------------------------------------------

  /** menuForId: id 0 is the root menu; another id names the submenu of the action mapped to it. */
  function MenuForId(t: Tree, id: int): (r: Option<Owner>)
    requires MapLive(t)
    ensures r == Some(Root) <==> id == 0
  {
    if id == 0 then Some(Root)
    else if id in t.actionForId && t.actions[t.actionForId[id]].hasSubmenu then Some(Sub(t.actionForId[id]))
    else None
  }

  /** The id property of a menu's menuAction: 0 for the root menu, which no action owns. */
  function MenuId(t: Tree, o: Owner): int
    requires o.Sub? ==> o.action in t.actions
  {
    if o.Root? then 0 else IdProperty(t.actions[o.action])
  }

  // ---------------------------------------------------------------------
  // slotGetLayoutFinished
  // ---------------------------------------------------------------------

  function ChildIds(items: seq<LayoutItem>): set<int>
  {
    set i | 0 <= i < |items| :: items[i].id
  }

  /** The actions of `m` whose id property the reply does not list. */
  function Outdated(t: Tree, m: seq<Handle>, newIds: set<int>): set<Handle>
    requires forall h | h in m :: h in t.actions
  {
    set h | h in m && IdProperty(t.actions[h]) !in newIds
  }

  /** Their id properties: the ids removed from the map. */
  function OutdatedIds(t: Tree, m: seq<Handle>, newIds: set<int>): set<int>
    requires forall h | h in m :: h in t.actions
  {
    set h | h in m && IdProperty(t.actions[h]) !in newIds :: IdProperty(t.actions[h])
  }

  /**
   * The first loop of slotGetLayoutFinished: each outdated action of the
   * menu goes to deleteLater and its id property leaves the map; the action
   * stays in the menu until it is destroyed.
   */
  function Drop(t: Tree, o: Owner, newIds: set<int>): (r: Tree)
    requires MapLive(t) && o in t.menus && forall h | h in t.menus[o] :: h in t.actions
    ensures MapLive(r) && r.menus == t.menus && r.actions == t.actions && r.next == t.next
  {
    var m := t.menus[o];
    t.(stale := t.stale + Outdated(t, m, newIds), actionForId := t.actionForId - OutdatedIds(t, m, newIds))
  }

  /** Action `h` replaced by `a`, which keeps its kind and id, and moved to the end of menu `o`. */
  function Moved(t: Tree, o: Owner, h: Handle, a: Action): (r: Tree)
    requires MapLive(t) && o in t.menus && h in t.actions
    ensures MapLive(r) && o in r.menus && r.stale == t.stale && r.next == t.next
  {
    t.(actions := t.actions[h := a], menus := t.menus[o := Filter(t.menus[o], {h}) + [h]])
  }

  /** A new action `a` for `id`, with an empty submenu when it has one, appended to menu `o`. */
  function Added(t: Tree, o: Owner, id: int, a: Action): (r: Tree)
    requires MapLive(t) && o in t.menus
    ensures MapLive(r) && o in r.menus && r.stale == t.stale && r.next == t.next + 1
  {
    var h := t.next;
    var withSubmenu := if a.hasSubmenu then t.menus[Sub(h) := []] else t.menus;
    t.(actionForId := t.actionForId[id := h], actions := t.actions[h := a],
       menus := withSubmenu[o := t.menus[o] + [h]], next := t.next + 1)
  }

  /**
   * One child of the reply. An unknown id gets a new action (with an empty
   * submenu when it asks for one) appended to the menu; a known id has its
   * action updated with the item's mutable properties and moved to the end
   * of the menu.
   */
  function Place(t: Tree, o: Owner, item: LayoutItem): (r: Tree)
    requires MapLive(t) && o in t.menus
    ensures MapLive(r) && o in r.menus && r.stale == t.stale && t.next <= r.next
  {
    if item.id in t.actionForId then
      var h := t.actionForId[item.id];
      Moved(t, o, h, UpdateActionKeys(t.actions[h], item.properties, FilteredKeys(item.properties)))
    else
      Added(t, o, item.id, CreatedAction(item.id, item.properties))
  }

  /** The second loop of slotGetLayoutFinished: the children in reply order. */
  function PlaceAll(t: Tree, o: Owner, items: seq<LayoutItem>): (r: Tree)
    requires MapLive(t) && o in t.menus
    ensures MapLive(r) && o in r.menus && r.stale == t.stale && t.next <= r.next
    decreases |items|
  {
    if items == [] then t else Place(PlaceAll(t, o, items[..|items| - 1]), o, items[|items| - 1])
  }

  /** A valid layout reply for menu `o`, both loops. */
  function Reconcile(t: Tree, o: Owner, items: seq<LayoutItem>): (r: Tree)
    requires MapLive(t) && o in t.menus && forall h | h in t.menus[o] :: h in t.actions
    ensures MapLive(r) && o in r.menus
  {
    PlaceAll(Drop(t, o, ChildIds(items)), o, items)
  }

  // ---------------------------------------------------------------------
  // Deferred deletion
  // ---------------------------------------------------------------------

  /** The ids the `destroyed` handlers of the stale actions captured when they were created. */
  function StaleIds(t: Tree): set<int>
    requires t.stale <= t.actions.Keys
  {
    set h | h in t.stale :: t.actions[h].id
  }

  /**
   * The event loop destroys every stale action: it leaves every menu and
   * the action set, its submenu is no longer reachable, and its `destroyed`
   * handler removes the id it was created for from the map, whichever action
   * the map holds for that id by then.
   */
  function Settle(t: Tree): (r: Tree)
    requires t.stale <= t.actions.Keys
    ensures r.stale == {} && r.next == t.next
  {
    var gone := StaleIds(t);
    Tree(
      map id | id in t.actionForId && id !in gone :: t.actionForId[id],
      map h | h in t.actions && h !in t.stale :: t.actions[h],
      map o | o in t.menus && (o.Sub? ==> o.action !in t.stale) :: Filter(t.menus[o], t.stale),
      {},
      t.next)
  }

  // ---------------------------------------------------------------------
  // Lemmas
  // ---------------------------------------------------------------------

  /** Menus found by id exist. */
  lemma MenuForIdExists(t: Tree, id: int)
    requires Valid(t)
    ensures MenuForId(t, id).Some? ==> MenuForId(t, id).value in t.menus
  {
  }

  lemma MovedValid(t: Tree, o: Owner, h: Handle, a: Action)
    requires Valid(t) && o in t.menus && h in t.actions && Fixed(t.actions[h], a)
    ensures Valid(Moved(t, o, h, a))
  {
  }

  lemma AddedValid(t: Tree, o: Owner, id: int, a: Action)
    requires Valid(t) && o in t.menus && id !in t.actionForId && a.id == id && (a.kdeTitle ==> !a.hasSubmenu)
    ensures Valid(Added(t, o, id, a))
  {
  }

  lemma PlaceValid(t: Tree, o: Owner, item: LayoutItem)
    requires Valid(t) && o in t.menus
    ensures Valid(Place(t, o, item))
  {
    if item.id in t.actionForId {
      var h := t.actionForId[item.id];
      UpdateTouchesOnlyNamed(t.actions[h], item.properties, FilteredKeys(item.properties));
      MovedValid(t, o, h, UpdateActionKeys(t.actions[h], item.properties, FilteredKeys(item.properties)));
    } else {
      CreatedId(item.id, item.properties);
      AddedValid(t, o, item.id, CreatedAction(item.id, item.properties));
    }
  }

  lemma {:induction false} PlaceAllValid(t: Tree, o: Owner, items: seq<LayoutItem>)
    requires Valid(t) && o in t.menus
    ensures Valid(PlaceAll(t, o, items))
    decreases |items|
  {
    if items != [] {
      PlaceAllValid(t, o, items[..|items| - 1]);
      PlaceValid(PlaceAll(t, o, items[..|items| - 1]), o, items[|items| - 1]);
    }
  }

  lemma DropValid(t: Tree, o: Owner, newIds: set<int>)
    requires Valid(t) && o in t.menus
    ensures Valid(Drop(t, o, newIds))
  {
  }

  /** A valid reply keeps the objects consistent. */
  lemma ReconcileValid(t: Tree, o: Owner, items: seq<LayoutItem>)
    requires Valid(t) && o in t.menus
    ensures Valid(Reconcile(t, o, items))
  {
    DropValid(t, o, ChildIds(items));
    PlaceAllValid(Drop(t, o, ChildIds(items)), o, items);
  }

  /** Destroying the stale actions keeps the objects consistent. */
  lemma SettleValid(t: Tree)
    requires Valid(t)
    ensures Valid(Settle(t))
  {
  }

  lemma {:induction false} FilterConcat(a: seq<Handle>, b: seq<Handle>, drop: set<Handle>)
    ensures Filter(a + b, drop) == Filter(a, drop) + Filter(b, drop)
    decreases |a|
  {
    if a == [] {
      assert a + b == b;
    } else {
      assert (a + b)[1..] == a[1..] + b;
      FilterConcat(a[1..], b, drop);
    }
  }

  lemma {:induction false} FilterFilter(s: seq<Handle>, a: set<Handle>, b: set<Handle>)
    ensures Filter(Filter(s, a), b) == Filter(s, a + b)
    decreases |s|
  {
    if s != [] {
      FilterFilter(s[1..], a, b);
      FilterConcat(if s[0] in a then [] else [s[0]], Filter(s[1..], a), b);
    }
  }

  lemma {:induction false} FilterKeep(s: seq<Handle>, drop: set<Handle>)
    requires forall h | h in s :: h !in drop
    ensures Filter(s, drop) == s
    decreases |s|
  {
    if s != [] {
      FilterKeep(s[1..], drop);
    }
  }

  lemma FilterNone(s: seq<Handle>, drop: set<Handle>)
    requires forall h | h in s :: h in drop
    ensures Filter(s, drop) == []
  {
  }

  lemma {:induction false} FilterAbsent(s: seq<Handle>, drop: set<Handle>, h: Handle)
    requires h !in s
    ensures Filter(s, drop + {h}) == Filter(s, drop)
    decreases |s|
  {
    if s != [] {
      FilterAbsent(s[1..], drop, h);
    }
  }

  lemma ChildIdsSnoc(items: seq<LayoutItem>)
    requires items != []
    ensures ChildIds(items) == ChildIds(items[..|items| - 1]) + {items[|items| - 1].id}
  {
    var pre := items[..|items| - 1];
    forall id | id in ChildIds(items) ensures id in ChildIds(pre) + {items[|items| - 1].id} {
      var i :| 0 <= i < |items| && items[i].id == id;
      if i < |pre| {
        assert pre[i].id == items[i].id;
      }
    }
    forall id | id in ChildIds(pre) ensures id in ChildIds(items) {
      var i :| 0 <= i < |pre| && pre[i].id == id;
      assert items[i].id == pre[i].id;
    }
  }

  /** One child: map entries stay, and the only new one is the child's, for a new handle. */
  lemma PlaceKeepsEntries(t: Tree, o: Owner, item: LayoutItem)
    requires MapLive(t) && o in t.menus
    ensures var r := Place(t, o, item);
      (forall id | id in t.actionForId :: id in r.actionForId && r.actionForId[id] == t.actionForId[id])
      && (forall id | id in r.actionForId && id !in t.actionForId :: id == item.id && r.actionForId[id] == t.next)
      && item.id in r.actionForId
  {
  }

  /** One child: an action carrying another id is untouched. */
  lemma PlaceUntouched(t: Tree, o: Owner, item: LayoutItem, h: Handle)
    requires Valid(t) && o in t.menus && h in t.actions && t.actions[h].id != item.id
    ensures var r := Place(t, o, item); h in r.actions && r.actions[h] == t.actions[h]
  {
  }

  /** One child: the other menus keep their actions. */
  lemma PlaceOtherMenus(t: Tree, o: Owner, item: LayoutItem)
    requires Valid(t) && o in t.menus
    ensures var r := Place(t, o, item);
      forall m | m in t.menus && m != o :: m in r.menus && r.menus[m] == t.menus[m]
  {
  }

  /** The second loop keeps every map entry; the new ones are children's ids, for new handles. */
  lemma {:induction false} PlaceAllKeepsEntries(t: Tree, o: Owner, items: seq<LayoutItem>)
    requires MapLive(t) && o in t.menus
    ensures var r := PlaceAll(t, o, items);
      (forall id | id in t.actionForId :: id in r.actionForId && r.actionForId[id] == t.actionForId[id])
      && (forall id | id in r.actionForId && id !in t.actionForId :: id in ChildIds(items) && r.actionForId[id] >= t.next)
    decreases |items|
  {
    if items != [] {
      var pre := items[..|items| - 1];
      var r' := PlaceAll(t, o, pre);
      PlaceAllKeepsEntries(t, o, pre);
      PlaceKeepsEntries(r', o, items[|items| - 1]);
      ChildIdsSnoc(items);
    }
  }

  /** After the second loop every child id is mapped. */
  lemma {:induction false} PlaceAllMapsChildren(t: Tree, o: Owner, items: seq<LayoutItem>)
    requires MapLive(t) && o in t.menus
    ensures var r := PlaceAll(t, o, items);
      forall i | 0 <= i < |items| :: items[i].id in r.actionForId
    decreases |items|
  {
    if items != [] {
      var pre := items[..|items| - 1];
      var r' := PlaceAll(t, o, pre);
      var last := items[|items| - 1];
      PlaceAllMapsChildren(t, o, pre);
      PlaceKeepsEntries(r', o, last);
      var r := Place(r', o, last);
      assert PlaceAll(t, o, items) == r;
      forall i | 0 <= i < |items| ensures items[i].id in r.actionForId {
        if i < |pre| {
          assert pre[i].id == items[i].id;
          assert items[i].id in r'.actionForId;
        } else {
          assert i == |items| - 1;
        }
      }
    }
  }

  /** The second loop leaves alone every action whose id no child has. */
  lemma {:induction false} PlaceAllUntouched(t: Tree, o: Owner, items: seq<LayoutItem>, h: Handle)
    requires Valid(t) && o in t.menus && h in t.actions && t.actions[h].id !in ChildIds(items)
    ensures var r := PlaceAll(t, o, items); h in r.actions && r.actions[h] == t.actions[h]
    decreases |items|
  {
    if items != [] {
      var pre := items[..|items| - 1];
      var r' := PlaceAll(t, o, pre);
      ChildIdsSnoc(items);
      PlaceAllUntouched(t, o, pre, h);
      PlaceAllValid(t, o, pre);
      PlaceUntouched(r', o, items[|items| - 1], h);
    }
  }

  /** The second loop changes no other menu. */
  lemma {:induction false} PlaceAllOtherMenus(t: Tree, o: Owner, items: seq<LayoutItem>)
    requires Valid(t) && o in t.menus
    ensures var r := PlaceAll(t, o, items);
      forall m | m in t.menus && m != o :: m in r.menus && r.menus[m] == t.menus[m]
    decreases |items|
  {
    if items != [] {
      var pre := items[..|items| - 1];
      PlaceAllOtherMenus(t, o, pre);
      PlaceAllValid(t, o, pre);
      PlaceOtherMenus(PlaceAll(t, o, pre), o, items[|items| - 1]);
    }
  }

  predicate DistinctIds(items: seq<LayoutItem>)
  {
    forall i, j :: 0 <= i < j < |items| ==> items[i].id != items[j].id
  }

  /** The actions the children ended up with, in reply order. */
  function Placed(t: Tree, items: seq<LayoutItem>): (r: seq<Handle>)
    requires forall i | 0 <= i < |items| :: items[i].id in t.actionForId
    ensures |r| == |items|
  {
    seq(|items|, i requires 0 <= i < |items| => t.actionForId[items[i].id])
  }

  /** Extending the reply by one child extends the placed handles by that child's handle. */
  lemma PlacedSnoc(r': Tree, r: Tree, items: seq<LayoutItem>)
    requires items != []
    requires forall i | 0 <= i < |items| - 1 :: items[i].id in r'.actionForId
    requires forall id | id in r'.actionForId :: id in r.actionForId && r.actionForId[id] == r'.actionForId[id]
    requires items[|items| - 1].id in r.actionForId
    ensures forall i | 0 <= i < |items| :: items[i].id in r.actionForId
    ensures Placed(r, items) == Placed(r', items[..|items| - 1]) + [r.actionForId[items[|items| - 1].id]]
  {
    var pre := items[..|items| - 1];
    forall i | 0 <= i < |items| ensures items[i].id in r.actionForId {
      if i < |pre| {
        assert pre[i].id == items[i].id;
      }
    }
    forall i | 0 <= i < |pre| ensures Placed(r, items)[i] == Placed(r', pre)[i] {
      assert pre[i].id == items[i].id;
    }
  }

  /** One child: the menu ends with the child's handle, which is the known one or the next. */
  lemma PlaceMenu(t: Tree, o: Owner, item: LayoutItem)
    requires Valid(t) && o in t.menus
    ensures var r := Place(t, o, item);
      item.id in r.actionForId && var h := r.actionForId[item.id];
      r.menus[o] == Filter(t.menus[o], {h}) + [h]
      && (item.id in t.actionForId ==> h == t.actionForId[item.id])
      && (item.id !in t.actionForId ==> h == t.next && h !in t.actions)
  {
    if item.id !in t.actionForId {
      forall x | x in t.menus[o] ensures x !in {t.next} {
        assert x in t.actions;
      }
      FilterKeep(t.menus[o], {t.next});
    }
  }

  /**
   * One child: a known id keeps its action, updated with the item's mutable
   * properties; an unknown id gets a new action made from the item, with an
   * empty submenu exactly when it has one.
   */
  lemma PlaceOutcome(t: Tree, o: Owner, item: LayoutItem)
    requires Valid(t) && o in t.menus
    ensures var r := Place(t, o, item);
      item.id in r.actionForId && var h := r.actionForId[item.id];
      (item.id in t.actionForId ==>
        h == t.actionForId[item.id]
        && r.actions[h] == UpdateActionKeys(t.actions[h], item.properties, FilteredKeys(item.properties)))
      && (item.id !in t.actionForId ==>
        h == t.next && h !in t.actions && r.actions[h] == CreatedAction(item.id, item.properties)
        && (Sub(h) in r.menus <==> r.actions[h].hasSubmenu) && (Sub(h) in r.menus ==> r.menus[Sub(h)] == []))
  {
  }

  /** The menu shape after one more child: its handle leaves the kept part and goes to the end. */
  lemma MenuSnoc(m: seq<Handle>, placed: seq<Handle>, h: Handle)
    requires h !in placed
    ensures Filter(Filter(m, Elements(placed)) + placed, {h}) + [h]
      == Filter(m, Elements(placed + [h])) + (placed + [h])
  {
    assert Elements(placed + [h]) == Elements(placed) + {h};
    FilterConcat(Filter(m, Elements(placed)), placed, {h});
    FilterFilter(m, Elements(placed), {h});
    FilterKeep(placed, {h});
  }

  /**
   * Menu `o` of `t` is what was kept of `m` followed by the actions of
   * `items`, in order.
   */
  predicate Ordered(m: seq<Handle>, t: Tree, o: Owner, items: seq<LayoutItem>)
  {
    o in t.menus
    && (forall i | 0 <= i < |items| :: items[i].id in t.actionForId)
    && var placed := Placed(t, items);
    t.menus[o] == Filter(m, Elements(placed)) + placed
  }

  /** One more child keeps the menu in the shape "kept actions, then the children's". */
  lemma PlaceOrderStep(m: seq<Handle>, t: Tree, o: Owner, items: seq<LayoutItem>)
    requires Valid(t) && items != [] && DistinctIds(items) && Ordered(m, t, o, items[..|items| - 1])
    ensures Ordered(m, Place(t, o, items[|items| - 1]), o, items)
  {
    var n := |items| - 1;
    var pre := items[..n];
    var last := items[n];
    var r := Place(t, o, last);
    forall i | 0 <= i < n ensures items[i].id in t.actionForId {
      assert pre[i].id == items[i].id;
    }
    PlaceKeepsEntries(t, o, last);
    PlaceMenu(t, o, last);
    var h := r.actionForId[last.id];
    PlacedSnoc(t, r, items);
    var placed' := Placed(t, pre);
    assert h !in placed' by {
      forall i | 0 <= i < n ensures placed'[i] != h {
        assert t.actions[placed'[i]].id == pre[i].id;
        assert pre[i].id == items[i].id;
      }
    }
    MenuSnoc(m, placed', h);
  }

  /** With distinct child ids the second loop leaves the menu as its untouched actions followed by the children's. */
  lemma {:induction false} PlaceAllOrder(t: Tree, o: Owner, items: seq<LayoutItem>)
    requires Valid(t) && o in t.menus && DistinctIds(items)
    ensures Ordered(t.menus[o], PlaceAll(t, o, items), o, items)
    decreases |items|
  {
    if items == [] {
      FilterKeep(t.menus[o], {});
      assert Elements(Placed(t, items)) == {};
    } else {
      var pre := items[..|items| - 1];
      assert DistinctIds(pre) by {
        forall i, j | 0 <= i < j < |pre| ensures pre[i].id != pre[j].id {
          assert pre[i].id == items[i].id && pre[j].id == items[j].id;
        }
      }
      PlaceAllOrder(t, o, pre);
      PlaceAllValid(t, o, pre);
      PlaceOrderStep(t.menus[o], PlaceAll(t, o, pre), o, items);
    }
  }

  /**
   * What the second loop made of `item`, starting from `t`: a known id keeps
   * its action, updated with the item's mutable properties; an unknown id
   * has a new action made from the item, with an empty submenu exactly when
   * it has one.
   */
  predicate PlacedAs(t: Tree, r: Tree, item: LayoutItem)
  {
    item.id in r.actionForId && var h := r.actionForId[item.id];
    h in r.actions
    && (item.id in t.actionForId ==>
      h == t.actionForId[item.id] && h in t.actions
      && r.actions[h] == UpdateActionKeys(t.actions[h], item.properties, FilteredKeys(item.properties)))
    && (item.id !in t.actionForId ==>
      h !in t.actions && r.actions[h] == CreatedAction(item.id, item.properties)
      && (Sub(h) in r.menus <==> r.actions[h].hasSubmenu) && (Sub(h) in r.menus ==> r.menus[Sub(h)] == []))
  }

  /** The child placed last, when the earlier ones left its id as it was in `t`. */
  lemma PlaceLastOutcome(t: Tree, r': Tree, o: Owner, last: LayoutItem)
    requires Valid(t) && Valid(r') && o in r'.menus && t.next <= r'.next
    requires last.id in t.actionForId ==>
      last.id in r'.actionForId && r'.actionForId[last.id] == t.actionForId[last.id]
      && t.actionForId[last.id] in r'.actions && r'.actions[t.actionForId[last.id]] == t.actions[t.actionForId[last.id]]
    requires last.id !in t.actionForId ==> last.id !in r'.actionForId
    ensures PlacedAs(t, Place(r', o, last), last)
  {
    PlaceOutcome(r', o, last);
  }

  /** A later child with another id leaves what an earlier child became. */
  lemma PlaceKeepsOutcome(t: Tree, r': Tree, o: Owner, last: LayoutItem, item: LayoutItem)
    requires Valid(r') && o in r'.menus && (o.Sub? ==> o.action in t.actions)
    requires PlacedAs(t, r', item) && item.id != last.id
    ensures PlacedAs(t, Place(r', o, last), item)
  {
    var h := r'.actionForId[item.id];
    PlaceKeepsEntries(r', o, last);
    PlaceUntouched(r', o, last, h);
    PlaceValid(r', o, last);
    PlaceOtherMenus(r', o, last);
  }

  /** The last child of a reply with distinct ids ends up as `PlacedAs` describes. */
  lemma PlaceAllOutcomeLast(t: Tree, o: Owner, items: seq<LayoutItem>)
    requires Valid(t) && o in t.menus && DistinctIds(items) && items != []
    ensures PlacedAs(t, PlaceAll(t, o, items), items[|items| - 1])
  {
    var n := |items| - 1;
    var pre := items[..n];
    var last := items[n];
    var r' := PlaceAll(t, o, pre);
    PlaceAllKeepsEntries(t, o, pre);
    PlaceAllValid(t, o, pre);
    assert last.id !in ChildIds(pre) by {
      forall j | 0 <= j < |pre| ensures pre[j].id != last.id {
        assert items[j].id == pre[j].id;
      }
    }
    if last.id in t.actionForId {
      PlaceAllUntouched(t, o, pre, t.actionForId[last.id]);
    }
    PlaceLastOutcome(t, r', o, last);
  }

  /** Each child of a reply with distinct ids ends up as `PlacedAs` describes. */
  lemma {:induction false} PlaceAllOutcome(t: Tree, o: Owner, items: seq<LayoutItem>, i: nat)
    requires Valid(t) && o in t.menus && DistinctIds(items) && i < |items|
    ensures PlacedAs(t, PlaceAll(t, o, items), items[i])
    decreases |items|
  {
    var n := |items| - 1;
    if i == n {
      PlaceAllOutcomeLast(t, o, items);
    } else {
      var pre := items[..n];
      assert DistinctIds(pre) by {
        forall a, b | 0 <= a < b < |pre| ensures pre[a].id != pre[b].id {
          assert pre[a] == items[a] && pre[b] == items[b];
        }
      }
      PlaceAllOutcome(t, o, pre, i);
      assert pre[i] == items[i] && items[i].id != items[n].id;
      PlaceAllKeepsOutcome(t, o, items, i);
    }
  }

  /** The last child of a reply leaves what an earlier child with another id became. */
  lemma PlaceAllKeepsOutcome(t: Tree, o: Owner, items: seq<LayoutItem>, i: nat)
    requires Valid(t) && o in t.menus && i < |items| - 1 && items[i].id != items[|items| - 1].id
    requires PlacedAs(t, PlaceAll(t, o, items[..|items| - 1]), items[i])
    ensures PlacedAs(t, PlaceAll(t, o, items), items[i])
  {
    var pre := items[..|items| - 1];
    PlaceAllValid(t, o, pre);
    PlaceKeepsOutcome(t, PlaceAll(t, o, pre), o, items[|items| - 1], items[i]);
  }

  // ---------------------------------------------------------------------
  // A whole layout reply
  // ---------------------------------------------------------------------

  /** No map entry points at an action waiting for deletion. */
  predicate FreshMap(t: Tree)
  {
    forall id | id in t.actionForId :: t.actionForId[id] !in t.stale
  }

  /**
   * Menu `o` is in step with the map: each of its actions that is not
   * waiting for deletion is an ordinary (not title) action that the map
   * files under its id.
   */
  predicate Coherent(t: Tree, o: Owner)
  {
    o in t.menus && FreshMap(t)
    && forall h | h in t.menus[o] && h !in t.stale ::
      h in t.actions && !t.actions[h].kdeTitle
      && t.actions[h].id in t.actionForId && t.actionForId[t.actions[h].id] == h
  }

  /** The first loop removes exactly the outdated ids, and no child's id. */
  lemma OutdatedIdsNotChildren(t: Tree, m: seq<Handle>, newIds: set<int>)
    requires forall h | h in m :: h in t.actions
    ensures forall id | id in OutdatedIds(t, m, newIds) :: id !in newIds
  {
  }

  /** On a coherent menu the first loop keeps the map fresh, and every action it spares is mapped to. */
  lemma DropCoherent(t: Tree, o: Owner, newIds: set<int>)
    requires Valid(t) && Coherent(t, o)
    ensures var d := Drop(t, o, newIds);
      FreshMap(d)
      && forall h | h in t.menus[o] && h !in d.stale ::
        t.actions[h].id in newIds && t.actions[h].id in d.actionForId && d.actionForId[t.actions[h].id] == h
  {
    var m := t.menus[o];
    var d := Drop(t, o, newIds);
    forall id | id in d.actionForId ensures d.actionForId[id] !in d.stale {
      var h := t.actionForId[id];
      if h in m && h !in t.stale {
        assert IdProperty(t.actions[h]) == id;
      }
    }
    forall h | h in m && h !in d.stale
      ensures t.actions[h].id in newIds && t.actions[h].id in d.actionForId && d.actionForId[t.actions[h].id] == h
    {
      OutdatedIdsNotChildren(t, m, newIds);
      assert IdProperty(t.actions[h]) == t.actions[h].id;
    }
  }

  /** The second loop keeps the map fresh: its new entries are new actions. */
  lemma PlaceAllFresh(t: Tree, o: Owner, items: seq<LayoutItem>)
    requires Valid(t) && o in t.menus && FreshMap(t)
    ensures FreshMap(PlaceAll(t, o, items))
  {
    PlaceAllKeepsEntries(t, o, items);
  }

  /**
   * After a layout reply for a coherent menu, the menu's actions that are not
   * waiting for deletion are exactly the children's, in reply order; once the
   * event loop has destroyed the stale actions the menu shows just those.
   */
  lemma ReconcileShows(t: Tree, o: Owner, items: seq<LayoutItem>)
    requires Valid(t) && Coherent(t, o) && DistinctIds(items)
    ensures var r := Reconcile(t, o, items);
      Valid(r)
      && (forall i | 0 <= i < |items| :: items[i].id in r.actionForId)
      && Filter(r.menus[o], r.stale) == Placed(r, items)
      && ((o.Sub? ==> o.action !in r.stale) ==> o in Settle(r).menus && Settle(r).menus[o] == Placed(r, items))
  {
    var m := t.menus[o];
    var d := Drop(t, o, ChildIds(items));
    ReconcileValid(t, o, items);
    DropValid(t, o, ChildIds(items));
    DropCoherent(t, o, ChildIds(items));
    PlaceAllOrder(d, o, items);
    PlaceAllFresh(d, o, items);
    PlaceAllKeepsEntries(d, o, items);
    var r := PlaceAll(d, o, items);
    var placed := Placed(r, items);
    var s := r.stale;
    FilterConcat(Filter(m, Elements(placed)), placed, s);
    forall h | h in placed ensures h !in s {
      var i :| 0 <= i < |placed| && placed[i] == h;
      assert h == r.actionForId[items[i].id];
    }
    FilterKeep(placed, s);
    FilterFilter(m, Elements(placed), s);
    forall h | h in m ensures h in Elements(placed) + s {
      if h !in s {
        var id := t.actions[h].id;
        var i :| 0 <= i < |items| && items[i].id == id;
        assert placed[i] == h;
      }
    }
    FilterNone(m, Elements(placed) + s);
  }

  /**
   * The map after a layout reply: the outdated actions go to deleteLater and
   * their ids leave the map, the other entries stay, every child's id is
   * mapped, and the only new entries are children's ids.
   */
  lemma ReconcileMapsChildren(t: Tree, o: Owner, items: seq<LayoutItem>)
    requires Valid(t) && o in t.menus
    ensures var r := Reconcile(t, o, items); var m := t.menus[o];
      var gone := OutdatedIds(t, m, ChildIds(items));
      r.stale == t.stale + Outdated(t, m, ChildIds(items))
      && (forall id | id in t.actionForId && id !in gone :: id in r.actionForId && r.actionForId[id] == t.actionForId[id])
      && (forall id | id in gone :: id !in r.actionForId)
      && (forall id | id in r.actionForId && id !in t.actionForId :: id in ChildIds(items))
      && (forall i | 0 <= i < |items| :: items[i].id in r.actionForId)
  {
    var d := Drop(t, o, ChildIds(items));
    OutdatedIdsNotChildren(t, t.menus[o], ChildIds(items));
    PlaceAllKeepsEntries(d, o, items);
    PlaceAllMapsChildren(d, o, items);
  }

  /** Each child of a layout reply with distinct ids ends up as `PlacedAs` describes, relative to the tree before the reply. */
  lemma ReconcileOutcome(t: Tree, o: Owner, items: seq<LayoutItem>, i: nat)
    requires Valid(t) && o in t.menus && DistinctIds(items) && i < |items|
    ensures PlacedAs(t, Reconcile(t, o, items), items[i])
  {
    var d := Drop(t, o, ChildIds(items));
    DropValid(t, o, ChildIds(items));
    OutdatedIdsNotChildren(t, t.menus[o], ChildIds(items));
    assert items[i].id in ChildIds(items);
    PlaceAllOutcome(d, o, items, i);
  }

  /** The id updateMenu reads from a menu finds that menu again, when its action is the one mapped to its id. */
  lemma MenuIdRoundTrip(t: Tree, o: Owner)
    requires Valid(t) && o in t.menus
    requires o.Sub? ==> var a := t.actions[o.action]; a.id != 0 && a.id in t.actionForId && t.actionForId[a.id] == o.action
    ensures MenuForId(t, MenuId(t, o)) == Some(o)
  {
  }

  /** A menu found by id carries that id. */
  lemma MenuForIdRoundTrip(t: Tree, id: int)
    requires Valid(t)
    ensures var r := MenuForId(t, id); r.Some? ==> r.value in t.menus && MenuId(t, r.value) == id
  {
  }

  // ---------------------------------------------------------------------
  // Two replies before the event loop runs: a reused id loses its entry
  // ---------------------------------------------------------------------

  /** The first reply for id 5 creates action 0. */
  lemma ReusedIdFirstReply()
    ensures Reconcile(Empty(), Root, [LayoutItem(5, [], [])])
      == Tree(map[5 := 0], map[0 := NewAction(5)], map[Root := [0]], {}, 1)
  {
    var item := LayoutItem(5, [], []);
    assert [item][..0] == [];
    assert CreatedAction(5, []) == NewAction(5);
    assert ChildIds([item]) == {5} by {
      assert [item][0].id in ChildIds([item]);
    }
    var d := Drop(Empty(), Root, {5});
    assert d == Empty();
    assert Reconcile(Empty(), Root, [item]) == PlaceAll(d, Root, [item]);
    assert PlaceAll(d, Root, [item]) == Place(PlaceAll(d, Root, []), Root, item);
    assert Place(d, Root, item) == Added(d, Root, 5, NewAction(5));
    assert [] + [0] == [0];
  }

  /** While action 0 waits for deletion, a reply listing id 5 again creates action 1. */
  lemma ReusedIdThirdReply()
    ensures Reconcile(Tree(map[], map[0 := NewAction(5)], map[Root := [0]], {0}, 1), Root, [LayoutItem(5, [], [])])
      == Tree(map[5 := 1], map[0 := NewAction(5), 1 := NewAction(5)], map[Root := [0, 1]], {0}, 2)
  {
    var t := Tree(map[], map[0 := NewAction(5)], map[Root := [0]], {0}, 1);
    var item := LayoutItem(5, [], []);
    assert [item][..0] == [];
    assert CreatedAction(5, []) == NewAction(5);
    assert ChildIds([item]) == {5} by {
      assert [item][0].id in ChildIds([item]);
    }
    var d := Drop(t, Root, {5});
    assert Outdated(t, [0], {5}) == {};
    assert d == t;
    assert [0] + [1] == [0, 1];
    assert Reconcile(t, Root, [item]) == PlaceAll(d, Root, [item]);
    assert PlaceAll(d, Root, [item]) == Place(PlaceAll(d, Root, []), Root, item);
    assert Place(d, Root, item) == Added(d, Root, 5, NewAction(5));
  }

  /** Destroying action 0 runs its handler, which removes id 5, now filed for action 1. */
  lemma ReusedIdSettle()
    ensures Settle(Tree(map[5 := 1], map[0 := NewAction(5), 1 := NewAction(5)], map[Root := [0, 1]], {0}, 2))
      == Tree(map[], map[1 := NewAction(5)], map[Root := [1]], {}, 2)
  {
    var t := Tree(map[5 := 1], map[0 := NewAction(5), 1 := NewAction(5)], map[Root := [0, 1]], {0}, 2);
    assert StaleIds(t) == {5};
    assert Filter([0, 1], {0}) == [1] by {
      assert [0, 1][1..] == [1];
      assert [1][1..] == [];
    }
    var r := Settle(t);
    assert r.actionForId == map[];
    assert r.actions == map[1 := NewAction(5)];
    assert r.menus == map[Root := [1]];
  }

  /** A reply without children marks action 0 for deletion and unmaps id 5. */
  lemma ReusedIdSecondReply()
    ensures Reconcile(Tree(map[5 := 0], map[0 := NewAction(5)], map[Root := [0]], {}, 1), Root, [])
      == Tree(map[], map[0 := NewAction(5)], map[Root := [0]], {0}, 1)
  {
    var t := Tree(map[5 := 0], map[0 := NewAction(5)], map[Root := [0]], {}, 1);
    assert Outdated(t, [0], {}) == {0};
  }

  /** With id 5 unmapped, the next reply listing it creates a second action beside action 1. */
  lemma ReusedIdNextReply()
    ensures Reconcile(Tree(map[], map[1 := NewAction(5)], map[Root := [1]], {}, 2), Root, [LayoutItem(5, [], [])])
      == Tree(map[5 := 2], map[1 := NewAction(5), 2 := NewAction(5)], map[Root := [1, 2]], {}, 3)
  {
    var t := Tree(map[], map[1 := NewAction(5)], map[Root := [1]], {}, 2);
    var item := LayoutItem(5, [], []);
    assert [item][..0] == [];
    assert CreatedAction(5, []) == NewAction(5);
    assert ChildIds([item]) == {5} by {
      assert [item][0].id in ChildIds([item]);
    }
    var d := Drop(t, Root, {5});
    assert Outdated(t, [1], {5}) == {};
    assert d == t;
    assert [1] + [2] == [1, 2];
    assert Reconcile(t, Root, [item]) == PlaceAll(d, Root, [item]);
    assert PlaceAll(d, Root, [item]) == Place(PlaceAll(d, Root, []), Root, item);
    assert Place(d, Root, item) == Added(d, Root, 5, NewAction(5));
  }

  /**
   * A `destroyed` handler removes the id it was created for, whichever action
   * the map holds for it by then. Replies listing id 5, then nothing, then id
   * 5 again, handled before the event loop deletes the outdated action, leave
   * the menu with the new action but id 5 unmapped.
   */
  lemma DestroyedHandlerDropsReusedId()
    ensures var item := LayoutItem(5, [], []);
      var t1 := Reconcile(Empty(), Root, [item]);
      t1 == Tree(map[5 := 0], map[0 := NewAction(5)], map[Root := [0]], {}, 1)
      && var t2 := Reconcile(t1, Root, []);
      t2 == Tree(map[], map[0 := NewAction(5)], map[Root := [0]], {0}, 1)
      && var t4 := Settle(Reconcile(t2, Root, [item]));
      t4 == Tree(map[], map[1 := NewAction(5)], map[Root := [1]], {}, 2)
      && t4.menus[Root] == [1] && t4.actions[1].id == 5 && 5 !in t4.actionForId
  {
    ReusedIdFirstReply();
    ReusedIdSecondReply();
    ReusedIdThirdReply();
    ReusedIdSettle();
  }

  /** After that, the next reply listing id 5 shows two actions for it. */
  lemma ReusedIdShownTwice()
    ensures var t5 := Reconcile(Tree(map[], map[1 := NewAction(5)], map[Root := [1]], {}, 2), Root, [LayoutItem(5, [], [])]);
      t5.menus[Root] == [1, 2] && t5.actions[1].id == 5 && t5.actions[2].id == 5
  {
    ReusedIdNextReply();
  }

  // ---------------------------------------------------------------------
  // A title read back as id 0
  // ---------------------------------------------------------------------

  /** The first reply with title item 7 creates its wrapper, action 0. */
  lemma TitleFirstReply()
    ensures var title := LayoutItem(7, [Property("x-kde-title", VBool(true))], []);
      Reconcile(Empty(), Root, [title]) == Tree(map[7 := 0], map[0 := TitleWrapper(7)], map[Root := [0]], {}, 1)
  {
    var title := LayoutItem(7, [Property("x-kde-title", VBool(true))], []);
    assert [title][..0] == [];
    assert CreatedAction(7, title.properties) == TitleWrapper(7);
    assert ChildIds([title]) == {7} by {
      assert [title][0].id in ChildIds([title]);
    }
    var d := Drop(Empty(), Root, {7});
    assert d == Empty();
    assert Reconcile(Empty(), Root, [title]) == PlaceAll(d, Root, [title]);
    assert PlaceAll(d, Root, [title]) == Place(PlaceAll(d, Root, []), Root, title);
    assert Place(d, Root, title) == Added(d, Root, 7, TitleWrapper(7));
    assert [] + [0] == [0];
  }

  /** Updating the wrapper with the title's properties changes nothing: x-kde-title is not a property updateAction handles. */
  lemma TitleUpdateKeepsWrapper()
    ensures var props := [Property("x-kde-title", VBool(true))];
      UpdateActionKeys(TitleWrapper(7), props, FilteredKeys(props)) == TitleWrapper(7)
  {
    var props := [Property("x-kde-title", VBool(true))];
    assert Without(props, ImmutableKeys) == props;
    assert FilteredKeys(props) == ["x-kde-title"];
    assert Settings(props, ["x-kde-title"]) == [Convert(Unhandled, VBool(true))];
  }

  /** The same reply again: the wrapper reads back id 0, so the first loop finds it outdated. */
  lemma TitleSecondDrop()
    ensures Drop(Tree(map[7 := 0], map[0 := TitleWrapper(7)], map[Root := [0]], {}, 1), Root, {7})
      == Tree(map[7 := 0], map[0 := TitleWrapper(7)], map[Root := [0]], {0}, 1)
  {
    var t := Tree(map[7 := 0], map[0 := TitleWrapper(7)], map[Root := [0]], {}, 1);
    assert Outdated(t, [0], {7}) == {0};
    assert OutdatedIds(t, [0], {7}) == {0};
  }

  /** The map still files the wrapper under 7, so the second loop updates it and keeps it in the menu. */
  lemma TitleSecondPlace()
    ensures var title := LayoutItem(7, [Property("x-kde-title", VBool(true))], []);
      PlaceAll(Tree(map[7 := 0], map[0 := TitleWrapper(7)], map[Root := [0]], {0}, 1), Root, [title])
        == Tree(map[7 := 0], map[0 := TitleWrapper(7)], map[Root := [0]], {0}, 1)
  {
    var d := Tree(map[7 := 0], map[0 := TitleWrapper(7)], map[Root := [0]], {0}, 1);
    var title := LayoutItem(7, [Property("x-kde-title", VBool(true))], []);
    assert [title][..0] == [];
    TitleUpdateKeepsWrapper();
    assert PlaceAll(d, Root, [title]) == Place(d, Root, title);
    assert Place(d, Root, title) == Moved(d, Root, 0, TitleWrapper(7));
    TitleMoveKeepsTree(d);
  }

  /** Moving the wrapper to the end of a menu that holds only it leaves the tree as it was. */
  lemma TitleMoveKeepsTree(d: Tree)
    requires d == Tree(map[7 := 0], map[0 := TitleWrapper(7)], map[Root := [0]], {0}, 1)
    ensures Moved(d, Root, 0, TitleWrapper(7)) == d
  {
    assert Filter([0], {0}) + [0] == [0];
    assert d.actions[0 := TitleWrapper(7)] == d.actions;
    assert d.menus[Root := [0]] == d.menus;
  }

  /** So the second reply leaves the wrapper in the menu and the map, waiting for deletion. */
  lemma TitleSecondReply()
    ensures var title := LayoutItem(7, [Property("x-kde-title", VBool(true))], []);
      Reconcile(Tree(map[7 := 0], map[0 := TitleWrapper(7)], map[Root := [0]], {}, 1), Root, [title])
        == Tree(map[7 := 0], map[0 := TitleWrapper(7)], map[Root := [0]], {0}, 1)
  {
    var title := LayoutItem(7, [Property("x-kde-title", VBool(true))], []);
    assert ChildIds([title]) == {7} by {
      assert [title][0].id in ChildIds([title]);
    }
    TitleSecondDrop();
    TitleSecondPlace();
  }

  /** Destroying the wrapper empties the menu and removes id 7. */
  lemma TitleSettle()
    ensures Settle(Tree(map[7 := 0], map[0 := TitleWrapper(7)], map[Root := [0]], {0}, 1))
      == Tree(map[], map[], map[Root := []], {}, 1)
  {
    var t := Tree(map[7 := 0], map[0 := TitleWrapper(7)], map[Root := [0]], {0}, 1);
    assert StaleIds(t) == {7};
    var r := Settle(t);
    assert r.actionForId == map[];
    assert r.actions == map[];
    assert r.menus == map[Root := []];
  }

  /**
   * A title's wrapper carries no id property, so the first loop reads 0 for
   * it: the same reply handled twice leaves, once the event loop has run,
   * an empty menu with the title's id unmapped.
   */
  lemma TitleLostOnRepeatedReply()
    ensures var title := LayoutItem(7, [Property("x-kde-title", VBool(true))], []);
      var t1 := Reconcile(Empty(), Root, [title]);
      t1 == Tree(map[7 := 0], map[0 := TitleWrapper(7)], map[Root := [0]], {}, 1)
      && t1.menus[Root] == [0] && t1.actions[0].kdeTitle
      && var t2 := Settle(Reconcile(t1, Root, [title]));
      t2.menus[Root] == [] && 7 !in t2.actionForId
  {
    TitleFirstReply();
    TitleSecondReply();
    TitleSettle();
  }
}
