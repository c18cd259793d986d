/**
 * A menu action as the importer of plugin/libdbusmenuqt/dbusmenuimporter.cpp
 * builds it from the properties of a dbusmenu item (createAction) and
 * updates it afterwards (updateAction and updateActionProperty with its
 * per-property helpers).
 */
module MenuAction {
  import opened MenuTypes
  import opened Utf8
  import opened Mnemonic
  import opened Shortcut

  /** The icon an action shows: none, the icon named by the theme, or an image decoded from bytes. */
  datatype Icon = NoIcon | ThemeIcon(name: string) | PixmapIcon(data: seq<byte>)

  /**
   * A menu action. `id` is the dbusmenu id the importer created it for (the
   * id its signal handlers remember); `kdeTitle` marks the wrapper that
   * replaces an "x-kde-title" action and carries no id property of its own.
   * `iconName` and `iconDataHash` are the two bookkeeping properties the
   * importer stores on the action.
   */
  datatype Action = Action(
    id: int,
    kdeTitle: bool,
    text: string,
    enabled: bool,
    visible: bool,
    checkable: bool,
    radioGroup: bool,
    checked: bool,
    separator: bool,
    hasSubmenu: bool,
    icon: Icon,
    iconName: string,
    iconDataHash: nat,
    shortcut: string)

  /** The "_dbusmenu_id" property read back as an int: 0 when it was never set. */
  function IdProperty(a: Action): int
  {
    if a.kdeTitle then 0 else a.id
  }

  /** A fresh action carrying the id property `id`; everything else as a new action starts. */
  function NewAction(id: int): Action
  {
    Action(id, false, "", true, true, false, false, false, false, false, NoIcon, "", 0, "")
  }

  /** The widget action createKdeTitle puts in place of a title action. */
  function TitleWrapper(id: int): Action
  {
    NewAction(id).(kdeTitle := true)
  }

  /** qHash of a byte array with seed 0 (Qt 5): h = 31 * h + byte over the bytes, in 32 bits. */
  function ByteArrayHash(data: seq<byte>): nat
    decreases |data|
  {
    if data == [] then 0
    else (31 * ByteArrayHash(data[..|data| - 1]) + data[|data| - 1] as int) % 0x1_0000_0000
  }

  /** The fields no property update changes. */
  predicate Fixed(a: Action, r: Action)
  {
    r.id == a.id && r.kdeTitle == a.kdeTitle && r.checkable == a.checkable && r.radioGroup == a.radioGroup
    && r.separator == a.separator && r.hasSubmenu == a.hasSubmenu
  }

  /** What a property key governs. */
  datatype Field = LabelField | EnabledField | ToggleStateField | IconNameField | IconDataField
                 | VisibleField | ShortcutField | Unhandled

  /** The key dispatch of updateActionProperty. */
  function FieldOf(key: string): Field
  {
    if key == "label" then LabelField
    else if key == "enabled" then EnabledField
    else if key == "toggle-state" then ToggleStateField
    else if key == "icon-name" then IconNameField
    else if key == "icon-data" then IconDataField
    else if key == "visible" then VisibleField
    else if key == "shortcut" then ShortcutField
    else Unhandled
  }

  /** The fields a list of keys governs. */
  function FieldsOf(keys: seq<string>): set<Field>
  {
    set i | 0 <= i < |keys| :: FieldOf(keys[i])
  }

  /** `r` differs from `a` only in the fields in `fields`. */
  predicate AgreeOutside(a: Action, r: Action, fields: set<Field>)
  {
    Fixed(a, r)
    && (LabelField !in fields ==> r.text == a.text)
    && (EnabledField !in fields ==> r.enabled == a.enabled)
    && (ToggleStateField !in fields ==> r.checked == a.checked)
    && (VisibleField !in fields ==> r.visible == a.visible)
    && (ShortcutField !in fields ==> r.shortcut == a.shortcut)
    && (IconNameField !in fields ==> r.iconName == a.iconName)
    && (IconDataField !in fields ==> r.iconDataHash == a.iconDataHash)
    && (IconNameField !in fields && IconDataField !in fields ==> r.icon == a.icon)
  }

  /** What one setter is asked to do: the value of a property, converted for the field it governs. */
  datatype Setting =
    | SetText(text: string)
    | SetEnabled(enabled: bool)
    | SetChecked(valid: bool, state: int)
    | SetIconName(iconName: string)
    | SetIconData(data: seq<byte>)
    | SetVisible(visible: bool)
    | SetShortcut(shortcut: string)
    | Ignore

  function SettingField(s: Setting): Field
  {
    match s
    case SetText(_) => LabelField
    case SetEnabled(_) => EnabledField
    case SetChecked(_, _) => ToggleStateField
    case SetIconName(_) => IconNameField
    case SetIconData(_) => IconDataField
    case SetVisible(_) => VisibleField
    case SetShortcut(_) => ShortcutField
    case Ignore => Unhandled
  }

  /**
   * The conversions of updateActionLabel (the mnemonic goes from `_` to `&`),
   * updateActionEnabled and updateActionVisible (a missing value means true),
   * updateActionChecked, the two icon updates and updateActionShortcut.
   */
  function Convert(field: Field, value: Value): (s: Setting)
    ensures SettingField(s) == field
  {
    match field
    case LabelField => SetText(Swapped(ToString(value), '_', '&', false))
    case EnabledField => SetEnabled(if IsValid(value) then ToBool(value) else true)
    case ToggleStateField => SetChecked(IsValid(value), ToInt(value))
    case IconNameField => SetIconName(ToString(value))
    case IconDataField => SetIconData(ToBytes(value))
    case VisibleField => SetVisible(if IsValid(value) then ToBool(value) else true)
    case ShortcutField => SetShortcut(KeySequenceText(ToShortcut(value)))
    case Unhandled => Ignore
  }

  /**
   * The setters. The toggle state is set only on a checkable action and for a
   * valid value; an icon is replaced only when its name, or the hash of its
   * data, differs from the one recorded last, and cleared for an empty name
   * or for data that is empty.
   */
  function Apply(a: Action, s: Setting): (r: Action)
    ensures AgreeOutside(a, r, {SettingField(s)})
    ensures Holds(r, s)
  {
    match s
    case SetText(text) => a.(text := text)
    case SetEnabled(enabled) => a.(enabled := enabled)
    case SetChecked(valid, state) => if a.checkable && valid then a.(checked := state == 1) else a
    case SetIconName(iconName) =>
      if a.iconName == iconName then a
      else a.(iconName := iconName, icon := if iconName == "" then NoIcon else ThemeIcon(iconName))
    case SetIconData(data) =>
      var dataHash := ByteArrayHash(data);
      if a.iconDataHash == dataHash then a
      else a.(iconDataHash := dataHash, icon := if data == [] then NoIcon else PixmapIcon(data))
    case SetVisible(visible) => a.(visible := visible)
    case SetShortcut(shortcut) => a.(shortcut := shortcut)
    case Ignore => a
  }

  /** updateActionProperty: one key, dispatched to the field it governs; unknown keys are ignored. */
  function UpdateActionProperty(a: Action, key: string, value: Value): (r: Action)
    ensures AgreeOutside(a, r, {FieldOf(key)})
  {
    Apply(a, Convert(FieldOf(key), value))
  }

  /**
   * The field `s` governs holds what `s` sets. For the toggle state that is
   * so only where the setter acts: on a checkable action, for a valid value.
   */
  predicate Holds(r: Action, s: Setting)
  {
    match s
    case SetText(text) => r.text == text
    case SetEnabled(enabled) => r.enabled == enabled
    case SetChecked(valid, state) => r.checkable && valid ==> r.checked == (state == 1)
    case SetIconName(iconName) => r.iconName == iconName
    case SetIconData(data) => r.iconDataHash == ByteArrayHash(data)
    case SetVisible(visible) => r.visible == visible
    case SetShortcut(shortcut) => r.shortcut == shortcut
    case Ignore => true
  }

  /** The settings updateAction performs: one per requested key, with the value the map holds for it. */
  function Settings(props: seq<Property>, keys: seq<string>): (r: seq<Setting>)
    ensures |r| == |keys| && forall i :: 0 <= i < |keys| ==> r[i] == Convert(FieldOf(keys[i]), Lookup(props, keys[i]))
  {
    seq(|keys|, i requires 0 <= i < |keys| => Convert(FieldOf(keys[i]), Lookup(props, keys[i])))
  }

  /** The settings applied in order. */
  function ApplyAll(a: Action, settings: seq<Setting>): Action
    decreases |settings|
  {
    if settings == [] then a else Apply(ApplyAll(a, settings[..|settings| - 1]), settings[|settings| - 1])
  }

  /** updateAction(action, map, requestedProperties) as a value. */
  function UpdateActionKeys(a: Action, props: seq<Property>, keys: seq<string>): Action
  {
    ApplyAll(a, Settings(props, keys))
  }

  /** updateAction(action, map, requestedProperties): the loop over the requested keys. */
  method UpdateAction(a: Action, props: seq<Property>, requestedProperties: seq<string>) returns (r: Action)
    ensures r == UpdateActionKeys(a, props, requestedProperties)
  {
    r := a;
    var i := 0;
    while i < |requestedProperties|
      invariant 0 <= i <= |requestedProperties|
      invariant r == ApplyAll(a, Settings(props, requestedProperties[..i]))
    {
      var key := requestedProperties[i];
      ApplyAllNext(a, props, requestedProperties, i);
      r := UpdateActionProperty(r, key, Lookup(props, key));
      i := i + 1;
    }
    assert requestedProperties[..i] == requestedProperties;
  }

  /** One more requested key applies one more setting. */
  lemma ApplyAllNext(a: Action, props: seq<Property>, keys: seq<string>, i: nat)
    requires i < |keys|
    ensures ApplyAll(a, Settings(props, keys[..i + 1]))
      == Apply(ApplyAll(a, Settings(props, keys[..i])), Convert(FieldOf(keys[i]), Lookup(props, keys[i])))
  {
    var done := Settings(props, keys[..i]);
    var next := Settings(props, keys[..i + 1]);
    assert next[..i] == done;
  }

  /** The fields a sequence of settings governs. */
  function SettingFields(settings: seq<Setting>): set<Field>
  {
    set i | 0 <= i < |settings| :: SettingField(settings[i])
  }

  lemma SettingFieldsSnoc(settings: seq<Setting>)
    requires settings != []
    ensures SettingFields(settings) ==
      SettingFields(settings[..|settings| - 1]) + {SettingField(settings[|settings| - 1])}
  {
    var prefix := settings[..|settings| - 1];
    forall f | f in SettingFields(settings)
      ensures f in SettingFields(prefix) + {SettingField(settings[|settings| - 1])}
    {
      var i :| 0 <= i < |settings| && SettingField(settings[i]) == f;
      if i < |prefix| {
        assert prefix[i] == settings[i];
      }
    }
    forall f | f in SettingFields(prefix) ensures f in SettingFields(settings) {
      var i :| 0 <= i < |prefix| && SettingField(prefix[i]) == f;
      assert settings[i] == prefix[i];
    }
  }

  /** Applying settings changes only the fields they govern. */
  lemma {:induction false} ApplyAllOnlyNamed(a: Action, settings: seq<Setting>)
    ensures AgreeOutside(a, ApplyAll(a, settings), SettingFields(settings))
    decreases |settings|
  {
    if settings != [] {
      ApplyAllOnlyNamed(a, settings[..|settings| - 1]);
      SettingFieldsSnoc(settings);
    }
  }

  /** Every setting of the field `s` governs is `s` itself. */
  predicate Uniform(settings: seq<Setting>, s: Setting)
  {
    forall i :: 0 <= i < |settings| && SettingField(settings[i]) == SettingField(s) ==> settings[i] == s
  }

  /** When every setting of a field is the same, the field ends up holding it. */
  lemma {:induction false} ApplyAllUniform(a: Action, settings: seq<Setting>, s: Setting)
    requires Uniform(settings, s) && (s in settings || Holds(a, s))
    ensures Holds(ApplyAll(a, settings), s)
    decreases |settings|
  {
    if settings != [] {
      var prefix := settings[..|settings| - 1];
      var last := settings[|settings| - 1];
      if SettingField(last) != SettingField(s) {
        assert s in prefix || Holds(a, s) by {
          if s in settings {
            var i :| 0 <= i < |settings| && settings[i] == s;
            assert prefix[i] == s;
          }
        }
        ApplyAllUniform(a, prefix, s);
        assert forall i :: 0 <= i < |prefix| ==> prefix[i] == settings[i];
      }
    }
  }

  /** A toggle-state setting that cannot act leaves the toggle state alone. */
  lemma {:induction false} ApplyAllCheckedKept(a: Action, settings: seq<Setting>, s: Setting)
    requires s.SetChecked? && Uniform(settings, s) && !(a.checkable && s.valid)
    ensures ApplyAll(a, settings).checked == a.checked
    decreases |settings|
  {
    if settings != [] {
      var prefix := settings[..|settings| - 1];
      ApplyAllCheckedKept(a, prefix, s);
      ApplyAllOnlyNamed(a, prefix);
    }
  }

  /** Different keys never govern the same field. */
  lemma FieldOfInjective(k1: string, k2: string)
    requires FieldOf(k1) == FieldOf(k2) && FieldOf(k1) != Unhandled
    ensures k1 == k2
  {
  }

  /** The settings of a key list agree on every field a handled key governs. */
  lemma SettingsUniform(props: seq<Property>, keys: seq<string>, key: string)
    requires FieldOf(key) != Unhandled
    ensures Uniform(Settings(props, keys), Convert(FieldOf(key), Lookup(props, key)))
  {
    forall i | 0 <= i < |keys| && FieldOf(keys[i]) == FieldOf(key) ensures keys[i] == key {
      FieldOfInjective(keys[i], key);
    }
  }

  lemma SettingsFields(props: seq<Property>, keys: seq<string>)
    ensures SettingFields(Settings(props, keys)) == FieldsOf(keys)
  {
    var ss := Settings(props, keys);
    forall f | f in FieldsOf(keys) ensures f in SettingFields(ss) {
      var i :| 0 <= i < |keys| && FieldOf(keys[i]) == f;
      assert SettingField(ss[i]) == f;
    }
  }

  /** An update touches only the fields governed by the keys it is given. */
  lemma UpdateTouchesOnlyNamed(a: Action, props: seq<Property>, keys: seq<string>)
    ensures AgreeOutside(a, UpdateActionKeys(a, props, keys), FieldsOf(keys))
  {
    ApplyAllOnlyNamed(a, Settings(props, keys));
    SettingsFields(props, keys);
  }

  /** Every requested key leaves its field holding what the map says for that key. */
  lemma UpdateAppliesNamed(a: Action, props: seq<Property>, keys: seq<string>, key: string)
    requires key in keys
    ensures Holds(UpdateActionKeys(a, props, keys), Convert(FieldOf(key), Lookup(props, key)))
  {
    var s := Convert(FieldOf(key), Lookup(props, key));
    if FieldOf(key) != Unhandled {
      var i :| 0 <= i < |keys| && keys[i] == key;
      assert Settings(props, keys)[i] == s;
      SettingsUniform(props, keys, key);
      ApplyAllUniform(a, Settings(props, keys), s);
    }
  }

  /** A toggle state that is missing, or sent to an action that is not checkable, changes nothing. */
  lemma UpdateToggleStateKept(a: Action, props: seq<Property>, keys: seq<string>)
    requires !(a.checkable && IsValid(Lookup(props, "toggle-state")))
    ensures UpdateActionKeys(a, props, keys).checked == a.checked
  {
    SettingsUniform(props, keys, "toggle-state");
    ApplyAllCheckedKept(a, Settings(props, keys), Convert(ToggleStateField, Lookup(props, "toggle-state")));
  }

  /**
   * Keys removed from an item are applied with an invalid value: enabled and
   * visible go back to true, the label is cleared and the toggle state stays
   * as it was.
   */
  lemma RemovedKeysReset(a: Action, keys: seq<string>)
    ensures var r := UpdateActionKeys(a, [], keys);
      ("enabled" in keys ==> r.enabled) && ("visible" in keys ==> r.visible)
      && ("label" in keys ==> r.text == "") && r.checked == a.checked
  {
    if "enabled" in keys {
      UpdateAppliesNamed(a, [], keys, "enabled");
    }
    if "visible" in keys {
      UpdateAppliesNamed(a, [], keys, "visible");
    }
    if "label" in keys {
      UpdateAppliesNamed(a, [], keys, "label");
      assert Swapped("", '_', '&', false) == "";
    }
    UpdateToggleStateKept(a, [], keys);
  }

  /** The keys createAction consumes before it hands the rest to updateAction. */
  const CreationKeys: set<string> := {"type", "children-display", "toggle-type", "x-kde-title"}

  /** The keys updateAction skips when an existing item comes back in a layout. */
  const ImmutableKeys: set<string> := {"type", "toggle-type", "children-display"}

  /**
   * The keys of a layout item with the immutable ones taken out (each key
   * occurs once, so removing one occurrence removes it).
   */
  function FilteredKeys(props: PropertyMap): (keys: seq<string>)
    ensures forall k :: k in keys <==> k in Keys(props) && k !in ImmutableKeys
  {
    var kept := Without(props, ImmutableKeys);
    assert forall k :: k in Keys(kept) <==> exists i :: 0 <= i < |kept| && kept[i].key == k;
    assert forall k :: k in Keys(props) <==> exists i :: 0 <= i < |props| && props[i].key == k;
    Keys(kept)
  }

  /** The action before the remaining properties are applied. */
  function Prepared(id: int, props: PropertyMap): Action
  {
    var toggleType := ToString(Lookup(props, "toggle-type"));
    NewAction(id).(
      separator := ToString(Lookup(props, "type")) == "separator",
      hasSubmenu := ToString(Lookup(props, "children-display")) == "submenu",
      checkable := toggleType != "",
      radioGroup := toggleType == "radio")
  }

  /**
   * createAction, without the allocation of the action and its submenu: the
   * type, submenu and toggle keys are read once, the rest goes through
   * updateAction, and a title is replaced by its wrapper.
   */
  function CreatedAction(id: int, props: PropertyMap): Action
  {
    if ToBool(Lookup(props, "x-kde-title")) then TitleWrapper(id)
    else
      var rest := Without(props, CreationKeys);
      UpdateActionKeys(Prepared(id, props), rest, Keys(rest))
  }

  /** A new action's fixed kind: separator, submenu owner, checkable, radio. */
  lemma CreatedKind(id: int, props: PropertyMap)
    requires !ToBool(Lookup(props, "x-kde-title"))
    ensures var r := CreatedAction(id, props);
      var toggleType := ToString(Lookup(props, "toggle-type"));
      r.id == id && IdProperty(r) == id
      && (r.separator <==> ToString(Lookup(props, "type")) == "separator")
      && (r.hasSubmenu <==> ToString(Lookup(props, "children-display")) == "submenu")
      && (r.checkable <==> toggleType != "")
      && (r.radioGroup <==> toggleType == "radio")
  {
    var rest := Without(props, CreationKeys);
    UpdateTouchesOnlyNamed(Prepared(id, props), rest, Keys(rest));
  }

  /** The key whose value a handled field takes. */
  function KeyOf(f: Field): (key: string)
    requires f != Unhandled
    ensures FieldOf(key) == f && key !in CreationKeys
  {
    match f
    case LabelField => "label"
    case EnabledField => "enabled"
    case ToggleStateField => "toggle-state"
    case IconNameField => "icon-name"
    case IconDataField => "icon-data"
    case VisibleField => "visible"
    case ShortcutField => "shortcut"
  }

  /** A fresh action holds what each field's setter makes of a missing value. */
  lemma DefaultsHold(a: Action, f: Field)
    requires a.text == "" && a.enabled && a.visible && a.iconName == "" && a.iconDataHash == 0 && a.shortcut == ""
    requires !a.checked
    ensures Holds(a, Convert(f, Invalid))
  {
    assert Swapped("", '_', '&', false) == "";
    assert KeySequenceText([]) == "" by { assert seq(0, i requires 0 <= i < 0 => "") == []; }
  }

  /**
   * Every field of a new action other than the toggle state holds what the
   * item's property for it says, a property the item leaves out counting as
   * an invalid value.
   */
  lemma CreatedFields(id: int, props: PropertyMap, f: Field)
    requires !ToBool(Lookup(props, "x-kde-title")) && f != Unhandled
    ensures Holds(CreatedAction(id, props), Convert(f, Lookup(props, KeyOf(f))))
  {
    var rest := Without(props, CreationKeys);
    var keys := Keys(rest);
    var p := Prepared(id, props);
    var key := KeyOf(f);
    LookupWithout(props, CreationKeys, key);
    if key in keys {
      UpdateAppliesNamed(p, rest, keys, key);
    } else {
      forall i | 0 <= i < |rest| ensures rest[i].key != key {
        assert keys[i] == rest[i].key;
      }
      CreatedUnnamedField(id, props, f);
    }
  }

  /** A field whose key the item leaves out keeps the default of a new action. */
  lemma CreatedUnnamedField(id: int, props: PropertyMap, f: Field)
    requires !ToBool(Lookup(props, "x-kde-title")) && f != Unhandled
    requires KeyOf(f) !in Keys(Without(props, CreationKeys))
    ensures Holds(CreatedAction(id, props), Convert(f, Invalid))
  {
    var rest := Without(props, CreationKeys);
    var keys := Keys(rest);
    var p := Prepared(id, props);
    assert f !in FieldsOf(keys) by {
      if f in FieldsOf(keys) {
        var i :| 0 <= i < |keys| && FieldOf(keys[i]) == f;
        FieldOfInjective(keys[i], KeyOf(f));
      }
    }
    DefaultsHold(p, f);
    UpdateTouchesOnlyNamed(p, rest, keys);
  }

  /** A new action is checked exactly when it is checkable and its toggle state is 1. */
  lemma CreatedToggleState(id: int, props: PropertyMap)
    requires !ToBool(Lookup(props, "x-kde-title"))
    ensures var r := CreatedAction(id, props);
      var v := Lookup(props, "toggle-state");
      r.checked == (r.checkable && IsValid(v) && ToInt(v) == 1)
  {
    CreatedKind(id, props);
    if Prepared(id, props).checkable && IsValid(Lookup(props, "toggle-state")) {
      CreatedToggleStateSet(id, props);
    } else {
      CreatedToggleStateKept(id, props);
    }
  }

  /** A checkable new action with a valid toggle state is checked exactly when the state is 1. */
  lemma CreatedToggleStateSet(id: int, props: PropertyMap)
    requires !ToBool(Lookup(props, "x-kde-title"))
    requires Prepared(id, props).checkable && IsValid(Lookup(props, "toggle-state"))
    ensures CreatedAction(id, props).checked == (ToInt(Lookup(props, "toggle-state")) == 1)
  {
    assert KeyOf(ToggleStateField) == "toggle-state";
    CreatedFields(id, props, ToggleStateField);
    CreatedKind(id, props);
  }

  /** Otherwise a new action starts unchecked. */
  lemma CreatedToggleStateKept(id: int, props: PropertyMap)
    requires !ToBool(Lookup(props, "x-kde-title"))
    requires !(Prepared(id, props).checkable && IsValid(Lookup(props, "toggle-state")))
    ensures !CreatedAction(id, props).checked
  {
    var rest := Without(props, CreationKeys);
    var key := KeyOf(ToggleStateField);
    assert key == "toggle-state";
    LookupWithout(props, CreationKeys, key);
    UpdateToggleStateKept(Prepared(id, props), rest, Keys(rest));
  }

  /** A new action carries the id it was created for, and a title wrapper owns no submenu. */
  lemma CreatedId(id: int, props: PropertyMap)
    ensures var r := CreatedAction(id, props);
      r.id == id && (r.kdeTitle ==> !r.hasSubmenu)
  {
    if !ToBool(Lookup(props, "x-kde-title")) {
      CreatedKind(id, props);
      var rest := Without(props, CreationKeys);
      UpdateTouchesOnlyNamed(Prepared(id, props), rest, Keys(rest));
    }
  }

  /** A title item becomes a wrapper that reads back id 0 and owns no submenu. */
  lemma CreatedTitle(id: int, props: PropertyMap)
    requires ToBool(Lookup(props, "x-kde-title"))
    ensures var r := CreatedAction(id, props);
      r.kdeTitle && r.id == id && IdProperty(r) == 0 && !r.hasSubmenu
  {
  }
}
