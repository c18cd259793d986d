# applet-window-appmenu, modelled in Dafny

This project models the core of the Plasma "window appmenu" applet, which shows the global menu of the active window in a panel. It covers these parts:

- **The D-Bus menu importer** (`plugin/libdbusmenuqt/dbusmenuimporter.cpp`). It mirrors a remote `com.canonical.dbusmenu` menu as a tree of Qt menus and actions.
  - `MenuTypes` holds the QVariant conversions and property maps it uses.
  - `Utf8` models `QString::toUtf8` and `QString::fromUtf8` of a byte array, which those conversions apply.
  - `MenuAction` models how an action is created from a layout item and updated from properties.
  - `MenuTree` models a layout reply reconciled into a menu, and the deferred deletion of outdated actions.
  - `Importer` holds the importer's slots as transition functions over a `State`. The class `Importer.DBusMenuImporter` has one field per piece of that state, and every slot is proved against its function.
- **Its helpers**:
  - mnemonic translation between `_` and `&` (`plugin/libdbusmenuqt/utils.cpp`, module `Mnemonic`);
  - shortcut conversion between Qt key sequences and dbusmenu key tokens (`plugin/libdbusmenuqt/dbusmenushortcut_p.cpp`, module `Shortcut`, over the `QString` operations of `QtStrings`);
  - the QML-side label escaping and mnemonic underlining (`package/contents/code/util.js`, module `HtmlUtil`).
- **The window managers**, which decide whose menu is shown:
  - `WindowManager` models the property store and setters of `AbstractWindowManager`. It also holds the task-model handler that `GenericWindowManager` and `WaylandWindowManager` share.
  - `X11FallbackWindowManager` models window discovery over X11: skipped windows, transient parents, the delayed menu window and the native event filter.
  - `WindowSystem` describes the window server these depend on. A `Desktop` value gives the windows' information and the raw bytes of their appmenu properties.
- **The applet model** `AppMenuModel` (`plugin/appmenumodel.cpp`). It is a list model whose rows are the top-level actions of the current importer's root menu. It covers:
  - window discovery and its coalesced `update()`;
  - replacing the importer when the service changes;
  - the menuUpdated, changed, destroyed and activation handlers.
- **The colour-scheme list** `Schemes` (`plugin/schemesmodel.cpp`) and the data-path helpers `CommonTools` (`plugin/commontools.cpp`).

Where the source changes state, the model is a class: its methods change its fields and are proved against a function of the old state (`Snapshot() == Spec(old(Snapshot()))`). The properties the source promises are proved about those functions as lemmas.

Where the source loops, the model has a method with a loop and its invariants. Where the source only computes, the model has a function and lemmas.

Emitted Qt signals, D-Bus calls sent and calls queued on the event loop are kept as sequences in the state. That way the order in which they are emitted and sent can be stated.

## Model

| member | source | states |
|---|---|---|
| QtStrings.FoldIdempotent | plugin/schemesmodel.cpp:160 | case folding leaves no ASCII capital, so folding twice is folding once |
| QtStrings.FoldEqualIff | plugin/schemesmodel.cpp:160 | two names fold alike exactly when they agree character by character up to ASCII case |
| QtStrings.JoinSplit | plugin/libdbusmenuqt/dbusmenushortcut_p.cpp:46-67 | joining the parts of a split with the same separator gives back the string |
| QtStrings.ReplaceAbsent | plugin/libdbusmenuqt/dbusmenushortcut_p.cpp:38 | replace leaves a string without the pattern unchanged |
| QtStrings.ReplaceAllLength | plugin/libdbusmenuqt/dbusmenushortcut_p.cpp:38 | replacing by a string of the same length keeps the length |
| QtStrings.SplitPartsFree | plugin/libdbusmenuqt/dbusmenushortcut_p.cpp:52 | no part of a split contains the separator |
| QtStrings.SplitFirstIsPrefix | plugin/libdbusmenuqt/dbusmenushortcut_p.cpp:46 | the first part of a split is a prefix of the string |
| QtStrings.ReplaceAfterPlain | plugin/libdbusmenuqt/dbusmenushortcut_p.cpp:51 | replace copies a stretch that cannot start the pattern and rewrites the occurrence after it |
| QtStrings.SplitAfterPlain | plugin/libdbusmenuqt/dbusmenushortcut_p.cpp:52 | split cuts at the first separator after a stretch that cannot start one |
| QtStrings.SplitPlain | plugin/libdbusmenuqt/dbusmenushortcut_p.cpp:52 | a string without the separator's first character is a single part |
| QtStrings.ReplaceWhole | plugin/libdbusmenuqt/dbusmenushortcut_p.cpp:38 | a token that is exactly the pattern becomes the replacement |
| QtStrings.SkipsWithoutFirstChar | plugin/libdbusmenuqt/dbusmenushortcut_p.cpp:38 | a token without the pattern's first character is unchanged by replace |
| Mnemonic.SwapMnemonicChar | plugin/libdbusmenuqt/utils.cpp:26-64 | the loop with its mnemonicFound flag produces the scan Swapped defines |
| Mnemonic.SwappedAt | plugin/libdbusmenuqt/utils.cpp:31-61 | one step at position pos, for each of the five branches of the loop |
| Mnemonic.SwappedLength | plugin/libdbusmenuqt/utils.cpp:31-61 | the output is at most twice as long as the input |
| Mnemonic.SwappedPlainPrefix | plugin/libdbusmenuqt/utils.cpp:52-60 | a stretch without src is copied with every dst doubled, and the mnemonic state is kept |
| Mnemonic.CopiesPlainText | plugin/libdbusmenuqt/utils.cpp:57-60 | characters other than src and dst are copied unchanged and in order |
| Mnemonic.CopiesOnlyEscapes | plugin/libdbusmenuqt/utils.cpp:52-60 | without src, the result is the dst-escaped input, whatever the mnemonic state |
| Mnemonic.FirstLoneSrcIsMnemonic | plugin/libdbusmenuqt/utils.cpp:42-46 | the first lone src becomes dst and sets the flag |
| Mnemonic.LaterLoneSrcDropped | plugin/libdbusmenuqt/utils.cpp:47-50 | once a mnemonic has been found, a later lone src is dropped |
| Mnemonic.DoubledSrcIsLiteral | plugin/libdbusmenuqt/utils.cpp:38-41 | a doubled src is emitted once and consumes both characters |
| Mnemonic.TrailingSrcDropped | plugin/libdbusmenuqt/utils.cpp:34-36 | a src that is the last character is dropped |
| Mnemonic.UnswapEscaped | plugin/libdbusmenuqt/utils.cpp:52-56 | the translation back undoes the doubling of dst |
| Mnemonic.RoundTripWithMnemonic | plugin/libdbusmenuqt/utils.cpp:26-64 | a label with one mnemonic marker, translated and translated back, is restored |
| Mnemonic.RoundTripWithoutMnemonic | plugin/libdbusmenuqt/utils.cpp:26-64 | a label without a marker is restored by the round trip |
| HtmlUtil.ToHtmlEscaped | package/contents/code/util.js:24-32 | the escaped text has no `<` or `>` and is at least as long as the input |
| HtmlUtil.EscapeCharRoundTrip | package/contents/code/util.js:25-31 | each escaped character reads back as itself |
| HtmlUtil.EscapeRoundTrip | package/contents/code/util.js:24-32 | reading the three entities back restores the label (FromHtmlEscaped is the inverse) |
| HtmlUtil.EscapeAppend | package/contents/code/util.js:24-32 | escaping distributes over concatenation |
| HtmlUtil.EscapeKeepsPlainText | package/contents/code/util.js:24-32 | text without `&`, `<` and `>` is left unchanged |
| HtmlUtil.EscapedLabel | package/contents/code/util.js:24-32 | the escaped label is its escaped parts in place |
| HtmlUtil.EscapedMnemonic | package/contents/code/util.js:24-32 | the mnemonic marker `&c` escapes to `&amp;` followed by the escaped c |
| HtmlUtil.MatchGroup | package/contents/code/util.js:48 | the regular expression's alternation takes the first alternative that matches |
| HtmlUtil.StylizePlainPrefix | package/contents/code/util.js:47-49 | text without `&` is copied by the scan |
| HtmlUtil.StylizeEscapedPrefix | package/contents/code/util.js:41-49 | an escaped label without `&` is copied: its `&lt;` and `&gt;` do not match |
| HtmlUtil.StylizeWithoutAmp | package/contents/code/util.js:47-49 | text without `&amp;` is left unchanged |
| HtmlUtil.StylizeTrailingAmp | package/contents/code/util.js:47-49 | a trailing `&amp;` with nothing after it is left unchanged |
| HtmlUtil.StylizeDoubledAmp | package/contents/code/util.js:34-49 | an escaped doubled ampersand becomes one `&amp;` |
| HtmlUtil.StylizeUnderlined | package/contents/code/util.js:34-49 | `&amp;` followed by an ordinary character c becomes `<u>c</u>` |
| HtmlUtil.StylizeAround | package/contents/code/util.js:47-49 | in an escaped label with `&`-free ends, only the middle part can change |
| HtmlUtil.LabelMnemonicUnderlined | package/contents/code/util.js:24-49 | a label with one mnemonic `&c` is shown escaped with exactly c underlined |
| HtmlUtil.LabelDoubledAmpersand | package/contents/code/util.js:24-49 | a literal `&&` is shown as one escaped ampersand and nothing is underlined |
| HtmlUtil.LessThanMnemonicAsWritten | package/contents/code/util.js:41-49 | as written, the mnemonic `&<` is shown as an underlined `&` followed by `lt;` |
| HtmlUtil.StylizeEntity | package/contents/code/util.js:34-49 | with the entities as alternatives, `&amp;` followed by an entity underlines the whole entity |
| HtmlUtil.EntityAwareUnderlinesMnemonic | package/contents/code/util.js:41-49 | with the entities as alternatives, every mnemonic (`<` and `>` included) is underlined as its whole escaped form |
| MenuTypes.Lookup | plugin/libdbusmenuqt/dbusmenuimporter.cpp:162-166 | a missing key gives an invalid value; with unique keys, the value stored under the key |
| MenuTypes.KeysLookup | plugin/libdbusmenuqt/dbusmenuimporter.cpp:144 | the keys passed to updateAction are the keys holding a value: any other key looks up an invalid value, and a listed key (with unique keys) its stored value |
| MenuTypes.Without | plugin/libdbusmenuqt/dbusmenuimporter.cpp:116-143 | the entries not taken out, in order; unique keys stay unique |
| MenuTypes.LookupWithout | plugin/libdbusmenuqt/dbusmenuimporter.cpp:116-144 | taking keys out does not change what the other keys hold |
| MenuTypes.ParseIntText | plugin/libdbusmenuqt/dbusmenuimporter.cpp:197-201 | the text of a 64-bit integer parses back to it |
| MenuTypes.IntTextRoundTrip | plugin/libdbusmenuqt/dbusmenuimporter.cpp:197-201 | a 32-bit integer sent as text converts back to itself with toInt |
| MenuTypes.BoolTextRoundTrip | plugin/libdbusmenuqt/dbusmenuimporter.cpp:193-195 | a boolean sent as text converts back to itself with toBool |
| MenuTypes.ToString | plugin/libdbusmenuqt/dbusmenuimporter.cpp:188-190 | a string is kept; a 64-bit number's text parses back to it; a byte array gives text without NUL whose UTF-8 form is the array when the array is well-formed UTF-8 without NUL; an invalid value gives "" |
| MenuTypes.ToBool | plugin/libdbusmenuqt/dbusmenuimporter.cpp:193-195 | an invalid value is false; a number is true exactly when it is not 0; a string, or a byte array read as Latin-1, is false exactly when it is empty, "0" or "false" in any case |
| MenuTypes.ToInt | plugin/libdbusmenuqt/dbusmenuimporter.cpp:197-201 | the result is a 32-bit int; a 32-bit number is kept; an invalid value gives 0 |
| MenuTypes.ToBytes | plugin/libdbusmenuqt/dbusmenuimporter.cpp:221-222 | a byte array is kept; a string without NUL, a 32-bit number and a boolean are sent as bytes that toString, toInt and toBool read back; an invalid value gives no bytes |
| MenuTypes.FalseTextIff | plugin/libdbusmenuqt/dbusmenuimporter.cpp:143 | the lower-cased test for false holds exactly for "", "0" and "false" in any mix of cases |
| MenuTypes.IntBytesRoundTrip | plugin/libdbusmenuqt/dbusmenuimporter.cpp:197-201 | a 32-bit integer sent as the bytes of its text converts back to itself with toInt |
| MenuTypes.BoolBytes | plugin/libdbusmenuqt/dbusmenuimporter.cpp:193-195 | "true" and "false" sent as bytes convert back to the boolean with toBool |
| Utf8.FromUtf8 | plugin/libdbusmenuqt/dbusmenuimporter.cpp:188-190 | the text of a byte array never contains U+0000, since decoding stops at the first NUL |
| Utf8.DecodeHasNoNul | plugin/libdbusmenuqt/dbusmenuimporter.cpp:188-190 | bytes without NUL decode to text without U+0000 |
| Utf8.DecodeEncodeChar | plugin/libdbusmenuqt/dbusmenuimporter.cpp:221-222 | the UTF-8 form of a character decodes to that character, consuming exactly its bytes |
| Utf8.EncodeDecodeOne | plugin/libdbusmenuqt/dbusmenuimporter.cpp:188-190 | a well-formed sequence is the UTF-8 form of the character it decodes to |
| Utf8.DecodeEncode | plugin/libdbusmenuqt/dbusmenuimporter.cpp:221-222 | decoding the UTF-8 form of any string gives the string back |
| Utf8.EncodeDecode | plugin/libdbusmenuqt/dbusmenuimporter.cpp:188-190 | encoding the text of well-formed bytes gives the bytes back |
| Utf8.FromUtf8RoundTrip | plugin/libdbusmenuqt/dbusmenuimporter.cpp:221-222 | fromUtf8 inverts toUtf8 for every string without U+0000 |
| Utf8.ToUtf8RoundTrip | plugin/libdbusmenuqt/dbusmenuimporter.cpp:188-190 | toUtf8 inverts fromUtf8 on well-formed bytes without NUL |
| Shortcut.ProcessKeyTokens | plugin/libdbusmenuqt/dbusmenushortcut_p.cpp:15-40 | each token goes through the four table rows in order, from the src column to the dst column |
| Shortcut.ReplaceInStrings | plugin/libdbusmenuqt/dbusmenushortcut_p.cpp:38 | replace is applied to every string of the list |
| Shortcut.TranslateOneMoreRow | plugin/libdbusmenuqt/dbusmenushortcut_p.cpp:34-39 | one more iteration of the table loop applies one more replace |
| Shortcut.TranslateByTable | plugin/libdbusmenuqt/dbusmenushortcut_p.cpp:25-39 | the whole table is four nested replaces in table order |
| Shortcut.ToDbusSteps | plugin/libdbusmenuqt/dbusmenushortcut_p.cpp:25-39 | sending replaces Meta, Ctrl, `+` and `-`, in that order |
| Shortcut.FromDbusSteps | plugin/libdbusmenuqt/dbusmenushortcut_p.cpp:25-39 | reading back replaces Super, Control, plus and minus, in that order |
| Shortcut.UnnamedTokenUnchanged | plugin/libdbusmenuqt/dbusmenushortcut_p.cpp:34-39 | a token containing none of the source names is left as it is |
| Shortcut.MetaIsSuper | plugin/libdbusmenuqt/dbusmenushortcut_p.cpp:25 | Meta is sent as Super |
| Shortcut.SuperIsMeta | plugin/libdbusmenuqt/dbusmenushortcut_p.cpp:25 | Super is read back as Meta |
| Shortcut.CtrlIsControl | plugin/libdbusmenuqt/dbusmenushortcut_p.cpp:26 | Ctrl is sent as Control |
| Shortcut.ControlIsCtrl | plugin/libdbusmenuqt/dbusmenushortcut_p.cpp:26 | Control is read back as Ctrl |
| Shortcut.PlusIsPlus | plugin/libdbusmenuqt/dbusmenushortcut_p.cpp:30 | `+` is sent as plus |
| Shortcut.PlusNameIsPlus | plugin/libdbusmenuqt/dbusmenushortcut_p.cpp:30 | plus is read back as `+` |
| Shortcut.MinusIsMinus | plugin/libdbusmenuqt/dbusmenushortcut_p.cpp:31 | `-` is sent as minus |
| Shortcut.MinusNameIsMinus | plugin/libdbusmenuqt/dbusmenushortcut_p.cpp:31 | minus is read back as `-` |
| Shortcut.PlusNameSentAsIs | plugin/libdbusmenuqt/dbusmenushortcut_p.cpp:30-31 | the token plus is sent unchanged (its `+` row does not match it) |
| Shortcut.TokenRoundTrip | plugin/libdbusmenuqt/dbusmenushortcut_p.cpp:15-40 | sending a table name, or a token naming none, and reading it back restores it |
| Shortcut.FromKeySequence | plugin/libdbusmenuqt/dbusmenushortcut_p.cpp:42-57 | the loop over the ", "-separated chords builds the bus shortcut DbusShortcut defines |
| Shortcut.ToKeySequence | plugin/libdbusmenuqt/dbusmenushortcut_p.cpp:59-69 | the loop over the chords builds the text KeySequenceText defines |
| Shortcut.ChordRoundTrip | plugin/libdbusmenuqt/dbusmenushortcut_p.cpp:42-69 | a chord without "++" whose tokens round-trip is restored by sending and reading back |
| Shortcut.KeySequenceRoundTrip | plugin/libdbusmenuqt/dbusmenushortcut_p.cpp:42-69 | a key sequence whose chords round-trip gives back the same text |
| Shortcut.CtrlPlusRewritten | plugin/libdbusmenuqt/dbusmenushortcut_p.cpp:48-51 | "Ctrl++" is rewritten to "Ctrl+plus" before the split |
| Shortcut.CtrlPlusSplit | plugin/libdbusmenuqt/dbusmenushortcut_p.cpp:52 | "Ctrl+plus" splits into Ctrl and plus |
| Shortcut.CtrlPlusSent | plugin/libdbusmenuqt/dbusmenushortcut_p.cpp:47-54 | "Ctrl++" is sent as the tokens Control and plus |
| Shortcut.CtrlPlusReadBack | plugin/libdbusmenuqt/dbusmenushortcut_p.cpp:62-65 | the tokens Control and plus are read back as "Ctrl++" |
| CommonTools.StandardPaths | plugin/commontools.cpp:57-72 | the locations as listed when localfirst, reversed otherwise |
| CommonTools.StandardPathsFor | plugin/commontools.cpp:74-85 | each location in search order joined with the sub-path, with "/" between them unless the sub-path starts with one |
| CommonTools.StandardPath | plugin/commontools.cpp:29-55 | the first existing candidate in search order; failing that, the fallback under /usr/share if it exists; "" otherwise |
| Schemes.LexLessIrreflexive | plugin/schemesmodel.cpp:160 | no name compares less than itself |
| Schemes.LexLessTransitive | plugin/schemesmodel.cpp:160 | the comparison is transitive |
| Schemes.LexLessTotal | plugin/schemesmodel.cpp:160 | of two different names, one compares less |
| Schemes.InsertPosition | plugin/schemesmodel.cpp:155-169 | the scheme goes after every scheme whose name is not greater, and before the first greater one |
| Schemes.InsertKeepsSorted | plugin/schemesmodel.cpp:151-172 | inserting at that position keeps a sorted list sorted |
| Schemes.InsertIsStable | plugin/schemesmodel.cpp:157-169 | the new scheme goes after every scheme with an equal name |
| Schemes.InsertAddsOne | plugin/schemesmodel.cpp:171 | insertion adds exactly the scheme; removing it gives back the list (a permutation plus one) |
| Schemes.FirstOccurrences | plugin/schemesmodel.cpp:141-146 | only file names that some directory lists are loaded |
| Schemes.FirstOccurrencesUnique | plugin/schemesmodel.cpp:141-147 | no file name is loaded twice |
| Schemes.FirstOccurrencesListed | plugin/schemesmodel.cpp:137-148 | a file name is loaded exactly when some search path lists it |
| Schemes.FirstOccurrencesFirst | plugin/schemesmodel.cpp:137-148 | the file loaded for a name is its first occurrence in search order |
| Schemes.InsertEachSorted | plugin/schemesmodel.cpp:137-148 | inserting the loaded schemes one by one into a sorted list leaves it sorted |
| Schemes.InsertEachAddsAll | plugin/schemesmodel.cpp:137-148 | the insertions add exactly the loaded schemes: the result is a permutation of the list and the schemes together |
| Schemes.SchemesModel.constructor | plugin/schemesmodel.cpp:29-33 | the current-window option starts hidden; the list is the current scheme with the first occurrence of each scheme file inserted in search order, hence sorted and a permutation of those schemes |
| Schemes.SchemesModel.SetCurrentOptionIsShown | plugin/schemesmodel.cpp:45-53 | the flag is stored; the signal is emitted only on a change |
| Schemes.SchemesModel.InsertSchemeInList | plugin/schemesmodel.cpp:151-172 | the loop finds InsertPosition; the list stays sorted and gains exactly the new scheme |
| Schemes.SchemesModel.InitSchemes | plugin/schemesmodel.cpp:125-149 | the list is exactly the current scheme with the first occurrence of each file of all paths inserted in turn, in search order (so equal names keep that order); it is sorted and, as a multiset, those schemes |
| Schemes.SchemesModel.RegisterDirectory | plugin/schemesmodel.cpp:141-147 | the inner loop keeps the Loaded invariant over the files of one directory |
| Schemes.SchemesModel.RegisterFile | plugin/schemesmodel.cpp:142-146 | a file with a new name is loaded, inserted and registered; a registered one is skipped |
| Schemes.SchemesModel.SkipRegistered | plugin/schemesmodel.cpp:142 | skipping a registered name keeps the invariant |
| Schemes.SchemesModel.RegisterNew | plugin/schemesmodel.cpp:142-146 | inserting the scheme of a new name at its position keeps the invariant |
| Schemes.SchemesModel.RegisteredIffListed | plugin/schemesmodel.cpp:142 | registeredSchemes.contains is "listed earlier in search order" |
| Schemes.SchemesModel.DataPresent | plugin/schemesmodel.cpp:55-103 | data is non-empty exactly for a valid index in column 0 of a row below rowCount (one per scheme) and one of the four roles |
| Schemes.SchemesModel.BackgroundOf | plugin/schemesmodel.cpp:116-123 | a row's background is what data returns for the background role; transparent outside the list |
| Schemes.SchemesModel.FileIndex | plugin/schemesmodel.cpp:174-193 | 0, 1, -1 or the index of a scheme with that file |
| Schemes.SchemesModel.IndexOf | plugin/schemesmodel.cpp:174-193 | the special names first; otherwise the first scheme with that file, and -1 exactly when there is none |
| Schemes.SchemesModel.IndexOfFileRole | plugin/schemesmodel.cpp:174-193 | indexOf inverts the file role: a row's file value leads back to that row |
| Schemes.FirstWithFile | plugin/schemesmodel.cpp:184-192 | the first index whose file matches, -1 when there is none |
| WindowSystem.ToUInt | plugin/wm/x11fallbackwindowmanager.cpp:48 | toUInt keeps a 32-bit value and wraps a negative one modulo 2^32 |
| WindowSystem.NullContainsNothing | plugin/wm/x11fallbackwindowmanager.cpp:107 | a null screen rectangle contains no point, so it is checked first |
| WindowSystem.Received | plugin/wm/x11fallbackwindowmanager.cpp:154-155 | at most MAX_PROP_SIZE 32-bit units of the property are received, as a prefix |
| WindowSystem.TrimNulTerminated | plugin/wm/x11fallbackwindowmanager.cpp:163-170 | a NUL-terminated value loses its terminator only |
| WindowSystem.TrimNulUnterminated | plugin/wm/x11fallbackwindowmanager.cpp:163-170 | a value not ending in NUL is kept whole |
| WindowSystem.TrimNulDropsOneNul | plugin/wm/x11fallbackwindowmanager.cpp:163-170 | at most one byte is dropped, and only a NUL |
| Utf8.UpToNul | plugin/wm/x11fallbackwindowmanager.cpp:177-178 | the text is the bytes before the first NUL |
| WindowSystem.TrimNulKeepsText | plugin/wm/x11fallbackwindowmanager.cpp:163-178 | the NUL trim never changes the decoded text |
| WindowSystem.HasMenuBytes | plugin/wm/x11fallbackwindowmanager.cpp:135-186 | a window announces a menu exactly when both properties start with a non-NUL byte |
| WindowSystem.FirstByteDecides | plugin/wm/x11fallbackwindowmanager.cpp:135-178 | the decoded property is non-empty exactly when its first byte is not NUL |
| WindowSystem.WalkFollowsParents | plugin/wm/x11fallbackwindowmanager.cpp:218-229 | the walk follows transientFor one window at a time and ends at a window without a parent |
| WindowSystem.NotOwnAncestor | plugin/wm/x11fallbackwindowmanager.cpp:218-229 | a window whose chain ends is not among its own ancestors |
| WindowSystem.FirstWithMenuIsFirst | plugin/wm/x11fallbackwindowmanager.cpp:218-235 | the window found announces a menu and none before it does; none is found only when no window has one |
| WindowSystem.FirstWithMenuNone | plugin/wm/x11fallbackwindowmanager.cpp:218-235 | none is found exactly when no window announces a menu |
| WindowSystem.FirstWithMenuAt | plugin/wm/x11fallbackwindowmanager.cpp:218-235 | the position of the window found: it announces a menu and none before it does |
| WindowSystem.DiscoveryOrder | plugin/wm/x11fallbackwindowmanager.cpp:216-235 | the nearest ancestor with a menu wins over the window itself; only the window itself counts when children are filtered |
| WindowSystem.ChainReaches | plugin/wm/x11fallbackwindowmanager.cpp:197-206 | the loop tells whether the target is among the windows of the transient chain |
| WindowSystem.FirstMenuInChain | plugin/wm/x11fallbackwindowmanager.cpp:219-229 | the loop stops at the first window of the chain that announces a menu |
| WindowManager.Get | plugin/wm/abstractwindowmanager.cpp:131-143 | each getter returns a value of its property's type |
| WindowManager.PutThenGet | plugin/wm/abstractwindowmanager.cpp:131-155 | a property reads back what was stored, and the others are untouched |
| WindowManager.GetThenPut | plugin/wm/abstractwindowmanager.cpp:131-155 | storing back what a property holds changes nothing |
| WindowManager.FieldsDetermineData | plugin/wm/abstractwindowmanager.cpp:131-143 | the six properties make up the whole of WMData |
| WindowManager.Initial | plugin/wm/abstractwindowmanager.h:85-93 | the initial values: filters off, menu unavailable, visible, null geometry, no pinned window, no current window |
| WindowManager.SetStores | plugin/wm/abstractwindowmanager.cpp:44-124 | a setter stores the value, changes no other property, and emits its signal exactly when the value changed |
| WindowManager.SetIdempotent | plugin/wm/abstractwindowmanager.cpp:44-124 | setting the held value is a no-op, so setters are idempotent |
| WindowManager.FanOutCoversEachField | plugin/wm/abstractwindowmanager.cpp:27-32 | dataChanged fans out to every property's signal, each once |
| WindowManager.SetDataRoundTrip | plugin/wm/abstractwindowmanager.cpp:145-155 | data() after setData(d) is d; dataChanged is emitted once, then the six signals |
| WindowManager.TaskChangedAvailability | plugin/wm/genericwindowmanager.cpp:49-64 | the menu is available and visible exactly when both the object path and the service name are non-empty; nothing else changes |
| WindowManager.TaskChangedSuccess | plugin/wm/genericwindowmanager.cpp:55-59 | on success: the availability change if any, the menu, the visibility change if any, then a model update |
| WindowManager.TaskChangedFailure | plugin/wm/genericwindowmanager.cpp:60-63 | on failure only the two property signals can be emitted |
| WindowManager.TaskChangedRepeated | plugin/wm/genericwindowmanager.cpp:55-59 | a repeated success announces the menu again but no property change |
| WindowManager.TaskChangedStateless | plugin/wm/genericwindowmanager.cpp:49-64 | the handler depends only on the properties and the two strings of the active TaskManager entry |
| WindowManager.AbstractWindowManager.constructor | plugin/wm/abstractwindowmanager.cpp:24-33 | a new manager is in the initial state |
| WindowManager.AbstractWindowManager.SetFilterByActive | plugin/wm/abstractwindowmanager.cpp:44-52 | the setter as Set describes it |
| WindowManager.AbstractWindowManager.SetFilterChildren | plugin/wm/abstractwindowmanager.cpp:59-67 | the setter as Set describes it |
| WindowManager.AbstractWindowManager.SetMenuAvailable | plugin/wm/abstractwindowmanager.cpp:75-81 | the setter as Set describes it |
| WindowManager.AbstractWindowManager.SetScreenGeometry | plugin/wm/abstractwindowmanager.cpp:88-96 | the setter as Set describes it |
| WindowManager.AbstractWindowManager.SetVisible | plugin/wm/abstractwindowmanager.cpp:103-109 | the setter as Set describes it |
| WindowManager.AbstractWindowManager.SetWinId | plugin/wm/abstractwindowmanager.cpp:116-124 | the setter as Set describes it |
| WindowManager.AbstractWindowManager.SetData | plugin/wm/abstractwindowmanager.cpp:145-155 | all six fields are written, then dataChanged and its fan-out are emitted |
| WindowManager.AbstractWindowManager.WriteData | plugin/wm/abstractwindowmanager.cpp:147-152 | the six assignments replace the data and nothing else |
| GenericWindowManager.GenericWindowManager.constructor | plugin/wm/genericwindowmanager.cpp:30-43 | the base manager starts in the initial state |
| GenericWindowManager.GenericWindowManager.OnActiveWindowChanged | plugin/wm/genericwindowmanager.cpp:49-64 | the handler as TaskChanged describes it |
| WaylandWindowManager.WaylandWindowManager.constructor | plugin/wm/waylandwindowmanager.cpp:30-43 | the base manager starts in the initial state |
| WaylandWindowManager.WaylandWindowManager.OnActiveWindowChanged | plugin/wm/waylandwindowmanager.cpp:49-64 | the handler as TaskChanged describes it |
| X11FallbackWindowManager.FilterWindowFormula | plugin/wm/x11fallbackwindowmanager.cpp:96-113 | only the current window has its visibility recomputed: active if filtering, not minimized, centred on the screen |
| X11FallbackWindowManager.PinnedIgnoresOthers | plugin/wm/x11fallbackwindowmanager.cpp:117-122 | with a pinned window, activating another window only removes the native filter |
| X11FallbackWindowManager.NoActiveWindow | plugin/wm/x11fallbackwindowmanager.cpp:124-128 | no active window: the menu is unavailable and a model update is asked for |
| X11FallbackWindowManager.SkippedWindowKeepsCurrent | plugin/wm/x11fallbackwindowmanager.cpp:190-214 | a skipped window never becomes current; with filterByActive it hides the menu unless its chain reaches the current window |
| X11FallbackWindowManager.MenuDiscovered | plugin/wm/x11fallbackwindowmanager.cpp:216-235 | a non-skipped window becomes current; the nearest window with a menu is announced with non-empty strings, and visibility follows filterWindow |
| X11FallbackWindowManager.MenuDelayed | plugin/wm/x11fallbackwindowmanager.cpp:237-244 | with no menu, the window becomes the delayed window, the filter is installed, the menu is unavailable, a model update is asked for and nothing is announced |
| X11FallbackWindowManager.NativeEventRediscovers | plugin/wm/x11fallbackwindowmanager.cpp:251-285 | only a change of an appmenu atom on the delayed window re-runs discovery; any other event changes nothing |
| X11FallbackWindowManager.RemovalHides | plugin/wm/x11fallbackwindowmanager.cpp:88-94 | removing the current window makes the menu unavailable and hidden; other removals change nothing |
| X11FallbackWindowManager.UnpinningAsWrittenAdoptsNoWindow | plugin/wm/x11fallbackwindowmanager.cpp:47-49 | as written, unpinning adopts window 0xFFFFFFFF and loses the menu |
| X11FallbackWindowManager.UnpinningFollowsActiveWindow | plugin/wm/x11fallbackwindowmanager.cpp:47-49 | corrected: unpinning runs discovery for the active window, and pinning for the pinned one |
| X11FallbackWindowManager.UnpinnedActiveBecomesCurrent | plugin/wm/x11fallbackwindowmanager.cpp:47-49 | corrected: after unpinning, a non-skipped active window becomes current |
| X11FallbackWindowManager.X11FallbackWindowManager.constructor | plugin/wm/x11fallbackwindowmanager.cpp:40-74 | connects the handlers and runs discovery for the active window |
| X11FallbackWindowManager.X11FallbackWindowManager.FilterWindow | plugin/wm/x11fallbackwindowmanager.cpp:96-113 | filterWindow as AfterFilterWindow describes it |
| X11FallbackWindowManager.X11FallbackWindowManager.OnWindowChanged | plugin/wm/x11fallbackwindowmanager.cpp:80-86 | onWindowChanged as AfterWindowChanged describes it |
| X11FallbackWindowManager.X11FallbackWindowManager.SetMenuAvailable | plugin/wm/x11fallbackwindowmanager.cpp:68-70 | the setter, then the menuAvailableChanged handler re-filters the current window |
| X11FallbackWindowManager.X11FallbackWindowManager.OnWindowRemoved | plugin/wm/x11fallbackwindowmanager.cpp:88-94 | onWindowRemoved as AfterWindowRemoved describes it |
| X11FallbackWindowManager.X11FallbackWindowManager.OnActiveWindowChanged | plugin/wm/x11fallbackwindowmanager.cpp:115-249 | onActiveWindowChanged, with both chain loops, as AfterActiveWindowChanged describes it |
| X11FallbackWindowManager.X11FallbackWindowManager.NativeEventFilter | plugin/wm/x11fallbackwindowmanager.cpp:251-285 | never consumes the event; the state changes as AfterNativeEvent describes |
| X11FallbackWindowManager.X11FallbackWindowManager.SetWinId | plugin/wm/x11fallbackwindowmanager.cpp:47-49 | the setter, then discovery for the new id read as an unsigned int, as written (0xFFFFFFFF after unpinning) |
| X11FallbackWindowManager.X11FallbackWindowManager.SetScreenGeometry | plugin/wm/x11fallbackwindowmanager.cpp:64-66 | the setter, then the current window is re-filtered |
| X11FallbackWindowManager.X11FallbackWindowManager.SetFilterByActive | plugin/wm/abstractwindowmanager.cpp:44-52 | the inherited setter; no handler runs |
| X11FallbackWindowManager.X11FallbackWindowManager.SetFilterChildren | plugin/wm/abstractwindowmanager.cpp:59-67 | the inherited setter; no handler runs |
| X11FallbackWindowManager.X11FallbackWindowManager.SetData | plugin/wm/abstractwindowmanager.cpp:145-155 | setData, with this manager's handlers run for the fan-out signals; winIdChanged runs discovery for the new id read as an unsigned int, as written |
| X11FallbackWindowManager.X11FallbackWindowManager.AnnounceAndRefilter | plugin/wm/x11fallbackwindowmanager.cpp:64-70 | a signal whose handler re-filters the current window |
| MenuAction.Convert | plugin/libdbusmenuqt/dbusmenuimporter.cpp:188-252 | each property's conversion produces a setting for that property's field |
| MenuAction.Apply | plugin/libdbusmenuqt/dbusmenuimporter.cpp:188-252 | a setter changes only its own field, which then holds what the setting says |
| MenuAction.UpdateActionProperty | plugin/libdbusmenuqt/dbusmenuimporter.cpp:168-186 | one key changes only the field it governs; unknown keys change nothing |
| MenuAction.UpdateAction | plugin/libdbusmenuqt/dbusmenuimporter.cpp:162-166 | the loop over the requested keys computes UpdateActionKeys |
| MenuAction.ApplyAllOnlyNamed | plugin/libdbusmenuqt/dbusmenuimporter.cpp:162-166 | applying settings changes only the fields they govern |
| MenuAction.ApplyAllUniform | plugin/libdbusmenuqt/dbusmenuimporter.cpp:162-166 | when every setting of a field is the same, the field ends up holding it |
| MenuAction.ApplyAllCheckedKept | plugin/libdbusmenuqt/dbusmenuimporter.cpp:197-201 | a toggle state that cannot act leaves the checked state alone |
| MenuAction.FieldOfInjective | plugin/libdbusmenuqt/dbusmenuimporter.cpp:168-186 | different keys never govern the same field |
| MenuAction.UpdateTouchesOnlyNamed | plugin/libdbusmenuqt/dbusmenuimporter.cpp:162-186 | an update touches only the fields governed by its keys |
| MenuAction.UpdateAppliesNamed | plugin/libdbusmenuqt/dbusmenuimporter.cpp:162-186 | every requested key leaves its field holding the map's converted value |
| MenuAction.UpdateToggleStateKept | plugin/libdbusmenuqt/dbusmenuimporter.cpp:197-201 | a missing toggle state, or one sent to a non-checkable action, changes nothing |
| MenuAction.RemovedKeysReset | plugin/libdbusmenuqt/dbusmenuimporter.cpp:188-244 | keys applied with an invalid value: enabled and visible become true, the label is cleared, the checked state stays |
| MenuAction.FilteredKeys | plugin/libdbusmenuqt/dbusmenuimporter.cpp:462-465 | the item's keys without type, toggle-type and children-display |
| MenuAction.CreatedKind | plugin/libdbusmenuqt/dbusmenuimporter.cpp:116-141 | a new action's id, and whether it is a separator, owns a submenu, is checkable and is a radio |
| MenuAction.CreatedFields | plugin/libdbusmenuqt/dbusmenuimporter.cpp:143-144 | every other field of a new action holds the item's converted value |
| MenuAction.CreatedUnnamedField | plugin/libdbusmenuqt/dbusmenuimporter.cpp:143-144 | a field the item leaves out keeps a new action's default |
| MenuAction.CreatedToggleState | plugin/libdbusmenuqt/dbusmenuimporter.cpp:132-144 | a new action is checked exactly when it is checkable and its toggle state is 1 |
| MenuAction.CreatedToggleStateSet | plugin/libdbusmenuqt/dbusmenuimporter.cpp:197-201 | with a valid toggle state on a checkable action, checked means the state is 1 |
| MenuAction.CreatedToggleStateKept | plugin/libdbusmenuqt/dbusmenuimporter.cpp:132-144 | otherwise a new action starts unchecked |
| MenuAction.CreatedId | plugin/libdbusmenuqt/dbusmenuimporter.cpp:116-151 | a new action carries its id; a title wrapper owns no submenu |
| MenuAction.CreatedTitle | plugin/libdbusmenuqt/dbusmenuimporter.cpp:143-148 | a title item becomes a wrapper that reads back id 0 and owns no submenu |
| MenuTree.Empty | plugin/libdbusmenuqt/dbusmenuimporter.cpp:332-339 | a new importer: an empty root menu, objects consistent |
| MenuTree.MenuForId | plugin/libdbusmenuqt/dbusmenuimporter.cpp:254-266 | id 0 finds the root menu, and only id 0 does |
| MenuTree.Drop | plugin/libdbusmenuqt/dbusmenuimporter.cpp:423-433 | the first loop changes only the map and the deletion set |
| MenuTree.Moved | plugin/libdbusmenuqt/dbusmenuimporter.cpp:460-470 | an updated and moved action keeps the map live and the deletion set |
| MenuTree.Added | plugin/libdbusmenuqt/dbusmenuimporter.cpp:440-459 | a created action takes exactly one new handle |
| MenuTree.Place | plugin/libdbusmenuqt/dbusmenuimporter.cpp:436-470 | one child keeps the map live and the deletion set |
| MenuTree.PlaceAll | plugin/libdbusmenuqt/dbusmenuimporter.cpp:436-471 | the second loop keeps the map live and the deletion set |
| MenuTree.Reconcile | plugin/libdbusmenuqt/dbusmenuimporter.cpp:415-471 | both loops keep the map live and the menu present |
| MenuTree.Settle | plugin/libdbusmenuqt/dbusmenuimporter.cpp:445-447 | after the event loop nothing waits for deletion |
| MenuTree.MenuForIdExists | plugin/libdbusmenuqt/dbusmenuimporter.cpp:254-266 | a menu found by id exists |
| MenuTree.PlaceAllValid | plugin/libdbusmenuqt/dbusmenuimporter.cpp:436-471 | the second loop keeps the objects consistent |
| MenuTree.DropValid | plugin/libdbusmenuqt/dbusmenuimporter.cpp:423-433 | the first loop keeps the objects consistent |
| MenuTree.ReconcileValid | plugin/libdbusmenuqt/dbusmenuimporter.cpp:415-471 | a layout reply keeps the objects consistent |
| MenuTree.SettleValid | plugin/libdbusmenuqt/dbusmenuimporter.cpp:445-447 | destroying the stale actions keeps the objects consistent |
| MenuTree.PlaceKeepsEntries | plugin/libdbusmenuqt/dbusmenuimporter.cpp:437-443 | one child: map entries stay; the only new one is the child's, for a new handle |
| MenuTree.PlaceUntouched | plugin/libdbusmenuqt/dbusmenuimporter.cpp:436-470 | one child leaves an action with another id untouched |
| MenuTree.PlaceOtherMenus | plugin/libdbusmenuqt/dbusmenuimporter.cpp:436-470 | one child leaves the other menus alone |
| MenuTree.PlaceAllKeepsEntries | plugin/libdbusmenuqt/dbusmenuimporter.cpp:436-471 | the second loop keeps every entry; new entries are children's ids for new handles |
| MenuTree.PlaceAllMapsChildren | plugin/libdbusmenuqt/dbusmenuimporter.cpp:436-471 | after the second loop every child id is mapped |
| MenuTree.PlaceAllUntouched | plugin/libdbusmenuqt/dbusmenuimporter.cpp:436-471 | the second loop leaves alone every action whose id no child has |
| MenuTree.PlaceAllOtherMenus | plugin/libdbusmenuqt/dbusmenuimporter.cpp:436-471 | the second loop changes no other menu |
| MenuTree.PlaceMenu | plugin/libdbusmenuqt/dbusmenuimporter.cpp:459-469 | one child: the menu ends with the child's handle, known or new |
| MenuTree.PlaceOutcome | plugin/libdbusmenuqt/dbusmenuimporter.cpp:436-470 | a known id keeps its action, updated with the mutable keys; an unknown id gets a created action with an empty submenu when it has one |
| MenuTree.PlaceAllOrder | plugin/libdbusmenuqt/dbusmenuimporter.cpp:467-469 | with distinct ids the menu is its untouched actions followed by the children's, in reply order |
| MenuTree.PlaceKeepsOutcome | plugin/libdbusmenuqt/dbusmenuimporter.cpp:436-470 | a later child with another id leaves what an earlier child became |
| MenuTree.PlaceAllOutcomeLast | plugin/libdbusmenuqt/dbusmenuimporter.cpp:436-471 | the last child ends up as PlacedAs describes |
| MenuTree.PlaceAllOutcome | plugin/libdbusmenuqt/dbusmenuimporter.cpp:436-471 | every child of a reply with distinct ids ends up as PlacedAs describes |
| MenuTree.PlaceAllKeepsOutcome | plugin/libdbusmenuqt/dbusmenuimporter.cpp:436-471 | one more child leaves what an earlier child with another id became |
| MenuTree.OutdatedIdsNotChildren | plugin/libdbusmenuqt/dbusmenuimporter.cpp:423-433 | the first loop removes no child's id |
| MenuTree.DropCoherent | plugin/libdbusmenuqt/dbusmenuimporter.cpp:423-433 | on a coherent menu the map stays fresh and every spared action is a child's, mapped to itself |
| MenuTree.PlaceAllFresh | plugin/libdbusmenuqt/dbusmenuimporter.cpp:436-471 | the second loop never maps an id to an action waiting for deletion |
| MenuTree.ReconcileShows | plugin/libdbusmenuqt/dbusmenuimporter.cpp:415-473 | the menu's live actions are exactly the children's, in reply order; once settled the menu shows just those |
| MenuTree.ReconcileMapsChildren | plugin/libdbusmenuqt/dbusmenuimporter.cpp:415-471 | outdated actions go to deleteLater and their ids leave the map; other entries stay; every child is mapped; new entries are children's |
| MenuTree.ReconcileOutcome | plugin/libdbusmenuqt/dbusmenuimporter.cpp:415-471 | every child ends up as PlacedAs describes, relative to the tree before the reply |
| MenuTree.MenuIdRoundTrip | plugin/libdbusmenuqt/dbusmenuimporter.cpp:490-493 | the id updateMenu reads from a menu finds that menu again |
| MenuTree.MenuForIdRoundTrip | plugin/libdbusmenuqt/dbusmenuimporter.cpp:254-266 | a menu found by id carries that id |
| MenuTree.ReusedIdFirstReply | plugin/libdbusmenuqt/dbusmenuimporter.cpp:436-459 | scenario: the first reply for id 5 creates action 0 |
| MenuTree.ReusedIdSecondReply | plugin/libdbusmenuqt/dbusmenuimporter.cpp:423-433 | scenario: an empty reply marks action 0 for deletion and unmaps id 5 |
| MenuTree.ReusedIdThirdReply | plugin/libdbusmenuqt/dbusmenuimporter.cpp:423-459 | scenario: listing id 5 again creates action 1 beside the doomed action 0 |
| MenuTree.ReusedIdSettle | plugin/libdbusmenuqt/dbusmenuimporter.cpp:445-447 | scenario: destroying action 0 removes id 5, which now names action 1 |
| MenuTree.ReusedIdNextReply | plugin/libdbusmenuqt/dbusmenuimporter.cpp:436-459 | scenario: the next reply creates a second action for id 5 |
| MenuTree.DestroyedHandlerDropsReusedId | plugin/libdbusmenuqt/dbusmenuimporter.cpp:423-447 | a destroyed handler removes its id whichever action the map holds, leaving a shown action unmapped |
| MenuTree.ReusedIdShownTwice | plugin/libdbusmenuqt/dbusmenuimporter.cpp:436-459 | after that, id 5 is shown by two actions |
| MenuTree.TitleFirstReply | plugin/libdbusmenuqt/dbusmenuimporter.cpp:143-148 | scenario: a title item becomes wrapper action 0 |
| MenuTree.TitleUpdateKeepsWrapper | plugin/libdbusmenuqt/dbusmenuimporter.cpp:462-466 | updating the wrapper with the title's properties changes nothing |
| MenuTree.TitleSecondDrop | plugin/libdbusmenuqt/dbusmenuimporter.cpp:423-433 | the wrapper reads id 0, so the repeated reply's first loop finds it outdated |
| MenuTree.TitleSecondPlace | plugin/libdbusmenuqt/dbusmenuimporter.cpp:460-470 | the map still names the wrapper, so the second loop keeps it |
| MenuTree.TitleMoveKeepsTree | plugin/libdbusmenuqt/dbusmenuimporter.cpp:467-469 | moving the only action to the end changes nothing |
| MenuTree.TitleSecondReply | plugin/libdbusmenuqt/dbusmenuimporter.cpp:415-471 | the repeated reply leaves the wrapper in the menu and the map, waiting for deletion |
| MenuTree.TitleSettle | plugin/libdbusmenuqt/dbusmenuimporter.cpp:445-447 | destroying the wrapper empties the menu and removes id 7 |
| MenuTree.TitleLostOnRepeatedReply | plugin/libdbusmenuqt/dbusmenuimporter.cpp:415-471 | the same reply twice leaves an empty menu with the title's id unmapped |
| Importer.Initial | plugin/libdbusmenuqt/dbusmenuimporter.cpp:275-296 | nothing imported, the root layout requested, nothing emitted |
| Importer.Refreshes | plugin/libdbusmenuqt/dbusmenuimporter.cpp:327-329 | one GetLayout per id, in the order given |
| Importer.LayoutUpdatedIdempotent | plugin/libdbusmenuqt/dbusmenuimporter.cpp:307-320 | a repeated LayoutUpdated for the same id changes nothing more |
| Importer.LayoutUpdatedCommute | plugin/libdbusmenuqt/dbusmenuimporter.cpp:307-320 | the order of two LayoutUpdated signals does not matter |
| Importer.RefreshedIdSwallowsOneUpdate | plugin/libdbusmenuqt/dbusmenuimporter.cpp:311-313 | an id refreshed by AboutToShow swallows the next update; the one after is queued |
| Importer.UpdatesCoalesce | plugin/libdbusmenuqt/dbusmenuimporter.cpp:307-320 | a burst leaves each id pending once with the timer running, and sends nothing |
| Importer.FiredRefreshesPending | plugin/libdbusmenuqt/dbusmenuimporter.cpp:322-330 | the timer refreshes each pending id exactly once, and the pending set is cleared |
| Importer.BurstRefreshesEachIdOnce | plugin/libdbusmenuqt/dbusmenuimporter.cpp:307-330 | a burst then the timer: one GetLayout per distinct id |
| Importer.ReconcileKeepsMenus | plugin/libdbusmenuqt/dbusmenuimporter.cpp:415-471 | a layout reply keeps the objects consistent and loses no menu |
| Importer.GetLayoutFinishedReports | plugin/libdbusmenuqt/dbusmenuimporter.cpp:386-474 | the importer stays consistent and sends nothing; the menu is reported once exactly when the id has one; a failed call changes no object |
| Importer.GetLayoutFinishedShows | plugin/libdbusmenuqt/dbusmenuimporter.cpp:386-474 | a reply for a coherent menu shows exactly the children, in order, and maps every child |
| Importer.CreationWatchesHide | plugin/libdbusmenuqt/dbusmenuimporter.cpp:536-546 | a menu an action was created in sends "closed" when it hides |
| Importer.UnwatchedHideSilent | plugin/libdbusmenuqt/dbusmenuimporter.cpp:457 | a menu never connected to aboutToHide sends nothing |
| Importer.MenuAboutToShowCalls | plugin/libdbusmenuqt/dbusmenuimporter.cpp:548-565 | showing a submenu sends AboutToShow, then "opened", for the id that finds it again |
| Importer.AboutToShowFinishedOutcome | plugin/libdbusmenuqt/dbusmenuimporter.cpp:505-534 | for a known menu, either a refresh is sent and recorded (asked for, or the menu is empty) or the menu is reported; nothing happens otherwise |
| Importer.AboutToShowRefreshSwallowsUpdate | plugin/libdbusmenuqt/dbusmenuimporter.cpp:526-530 | the refresh AboutToShow asks for swallows the next LayoutUpdated for that id |
| Importer.TriggeredSendsOwnId | plugin/libdbusmenuqt/dbusmenuimporter.cpp:449-451 | triggering a mapped action sends "clicked" for its id |
| Importer.ActivationReportsMapped | plugin/libdbusmenuqt/dbusmenuimporter.cpp:379-384 | an activation request reports the action created for the id; an unknown id is ignored |
| Importer.UpdateMapped | plugin/libdbusmenuqt/dbusmenuimporter.cpp:344-357 | updating one mapped action changes no map entry, menu or handle |
| Importer.UpdateAll | plugin/libdbusmenuqt/dbusmenuimporter.cpp:343-358 | the updated-items loop changes no map entry, menu or handle |
| Importer.RemoveAll | plugin/libdbusmenuqt/dbusmenuimporter.cpp:360-371 | the removed-keys loop changes no map entry, menu or handle |
| Importer.UpdateAllOnlyNamed | plugin/libdbusmenuqt/dbusmenuimporter.cpp:343-358 | an action changes only in the fields its id's updated items name |
| Importer.RemoveAllOnlyNamed | plugin/libdbusmenuqt/dbusmenuimporter.cpp:360-371 | an action changes only in the fields its id's removed keys name |
| Importer.PropertiesChangeOnlyNamed | plugin/libdbusmenuqt/dbusmenuimporter.cpp:341-372 | the importer stays consistent; neither the map nor any menu changes; an action changes only in the fields named for its id |
| Importer.PropertiesKeepValid | plugin/libdbusmenuqt/dbusmenuimporter.cpp:341-372 | both property loops keep the objects consistent |
| Importer.UnknownItemsIgnored | plugin/libdbusmenuqt/dbusmenuimporter.cpp:341-372 | items with unmapped ids change nothing |
| Importer.UpdateAllUnknown | plugin/libdbusmenuqt/dbusmenuimporter.cpp:344-349 | updated items with unmapped ids are skipped |
| Importer.RemoveAllUnknown | plugin/libdbusmenuqt/dbusmenuimporter.cpp:361-366 | removed keys of unmapped ids are skipped |
| Importer.UpdatedPropertyApplied | plugin/libdbusmenuqt/dbusmenuimporter.cpp:355-357 | an updated item's key leaves its field holding the converted value |
| Importer.RemovedPropertiesReset | plugin/libdbusmenuqt/dbusmenuimporter.cpp:368-370 | a removed key resets enabled and visible to true and clears the label; the checked state stays |
| Importer.SettledInv | plugin/libdbusmenuqt/dbusmenuimporter.cpp:445-447 | destroying the deleted actions keeps the importer consistent |
| Importer.PlaceNew | plugin/libdbusmenuqt/dbusmenuimporter.cpp:440-459 | the creation statements are what Place does for an unknown id |
| Importer.PlaceKnown | plugin/libdbusmenuqt/dbusmenuimporter.cpp:460-470 | the update and move statements are what Place does for a known id |
| Importer.CreatesAfterDrop | plugin/libdbusmenuqt/dbusmenuimporter.cpp:423-443 | the first loop removes no child's id, so it does not change which children are created |
| Importer.DBusMenuImporter.constructor | plugin/libdbusmenuqt/dbusmenuimporter.cpp:275-296 | nothing imported, the root layout requested |
| Importer.DBusMenuImporter.RequestLayout | plugin/libdbusmenuqt/dbusmenuimporter.cpp:93-101 | refresh sends GetLayout(id, 1, all properties) |
| Importer.DBusMenuImporter.SendEvent | plugin/libdbusmenuqt/dbusmenuimporter.cpp:270-272 | one Event call, appended |
| Importer.DBusMenuImporter.SlotLayoutUpdated | plugin/libdbusmenuqt/dbusmenuimporter.cpp:307-320 | slotLayoutUpdated as LayoutUpdated describes it |
| Importer.DBusMenuImporter.ProcessPendingLayoutUpdates | plugin/libdbusmenuqt/dbusmenuimporter.cpp:322-330 | the loop over the pending set, in some iteration order of it, as Fired describes |
| Importer.DBusMenuImporter.SlotItemsPropertiesUpdated | plugin/libdbusmenuqt/dbusmenuimporter.cpp:341-372 | both loops, as ItemsPropertiesUpdated describes |
| Importer.DBusMenuImporter.ApplyUpdated | plugin/libdbusmenuqt/dbusmenuimporter.cpp:343-358 | the first loop computes UpdateAll |
| Importer.DBusMenuImporter.ApplyRemoved | plugin/libdbusmenuqt/dbusmenuimporter.cpp:360-371 | the second loop computes RemoveAll |
| Importer.DBusMenuImporter.SlotItemActivationRequested | plugin/libdbusmenuqt/dbusmenuimporter.cpp:379-384 | as ItemActivationRequested describes |
| Importer.DBusMenuImporter.SlotGetLayoutFinished | plugin/libdbusmenuqt/dbusmenuimporter.cpp:386-474 | both loops and the report, as GetLayoutFinished describes |
| Importer.DBusMenuImporter.CollectIds | plugin/libdbusmenuqt/dbusmenuimporter.cpp:416-421 | the set of the children's ids |
| Importer.DBusMenuImporter.RemoveOutdated | plugin/libdbusmenuqt/dbusmenuimporter.cpp:423-433 | the first loop computes Drop |
| Importer.DBusMenuImporter.DropNext | plugin/libdbusmenuqt/dbusmenuimporter.cpp:424-432 | one turn of the first loop extends the dropped set by the current action when it is outdated |
| Importer.DBusMenuImporter.InsertChildren | plugin/libdbusmenuqt/dbusmenuimporter.cpp:436-471 | the second loop computes PlaceAll and connects aboutToHide when it creates an action |
| Importer.DBusMenuImporter.PlaceNext | plugin/libdbusmenuqt/dbusmenuimporter.cpp:436-471 | one turn of the second loop |
| Importer.DBusMenuImporter.PlaceChild | plugin/libdbusmenuqt/dbusmenuimporter.cpp:437-470 | a child is created exactly when its id is unknown; the tree becomes Place's |
| Importer.DBusMenuImporter.AddChild | plugin/libdbusmenuqt/dbusmenuimporter.cpp:440-459 | createAction, the map entry, addAction and the aboutToHide connection |
| Importer.DBusMenuImporter.MoveChild | plugin/libdbusmenuqt/dbusmenuimporter.cpp:460-470 | updateAction with the filtered keys, then the move to the end |
| Importer.DBusMenuImporter.SendClickedEvent | plugin/libdbusmenuqt/dbusmenuimporter.cpp:476-479 | "clicked" for the id the action was created for |
| Importer.DBusMenuImporter.UpdateMenu | plugin/libdbusmenuqt/dbusmenuimporter.cpp:486-503 | AboutToShow, then "opened", for the menu's id |
| Importer.DBusMenuImporter.SlotAboutToShowDBusCallFinished | plugin/libdbusmenuqt/dbusmenuimporter.cpp:505-534 | as AboutToShowFinished describes |
| Importer.DBusMenuImporter.SlotMenuAboutToHide | plugin/libdbusmenuqt/dbusmenuimporter.cpp:536-546 | "closed" for the menu's id |
| Importer.DBusMenuImporter.SlotMenuAboutToShow | plugin/libdbusmenuqt/dbusmenuimporter.cpp:548-565 | updateMenu for the submenu |
| Importer.DBusMenuImporter.DestroyDeletedActions | plugin/libdbusmenuqt/dbusmenuimporter.cpp:445-447 | the event loop's deferred deletes, as Settled describes |
| AppMenuModel.Start | plugin/appmenumodel.h:112-125 | the members' initial values: no pinned window, no current window, no importer, no menu, nothing queued |
| AppMenuModel.AfterNeedsUpdate | plugin/appmenumodel.cpp:89-95 | modelNeedsUpdate is logged and leaves an update pending |
| AppMenuModel.UpdatesCoalesce | plugin/appmenumodel.cpp:89-95 | any number of modelNeedsUpdate signals queue one update() |
| AppMenuModel.UpdateRearms | plugin/appmenumodel.cpp:215-220 | update() resets the model, and the next modelNeedsUpdate queues a new one |
| AppMenuModel.NeedsUpdateKeepsInv | plugin/appmenumodel.cpp:89-95 | exactly one update() is queued after modelNeedsUpdate |
| AppMenuModel.NeedsUpdateTimesKeeps | plugin/appmenumodel.cpp:89-95 | a run of modelNeedsUpdate signals keeps the queue invariant and changes neither view nor source |
| AppMenuModel.AfterSetVisible | plugin/appmenumodel.cpp:181-187 | only visibility and the log change |
| AppMenuModel.AfterFilterWindow | plugin/appmenumodel.cpp:376-393 | only the current window has its visibility recomputed |
| AppMenuModel.FilterWindowFormula | plugin/appmenumodel.cpp:376-393 | the visibility formula, and visibleChanged exactly on a change |
| AppMenuModel.AfterWindowChanged | plugin/appmenumodel.cpp:360-366 | only the view and the log change |
| AppMenuModel.AfterSetMenuAvailable | plugin/appmenumodel.cpp:152-159 | availability is stored and only visibility can change with it |
| AppMenuModel.AfterWindowRemoved | plugin/appmenumodel.cpp:368-374 | only the view and the log change |
| AppMenuModel.RemovalHides | plugin/appmenumodel.cpp:368-374 | removing the current window makes the menu unavailable and hidden; others change nothing |
| AppMenuModel.AfterSetFilterByActive | plugin/appmenumodel.cpp:121-129 | the flag is stored, nothing else in the view changes |
| AppMenuModel.AfterSetFilterChildren | plugin/appmenumodel.cpp:136-144 | the flag is stored, nothing else in the view changes |
| AppMenuModel.AfterSetScreenGeometry | plugin/appmenumodel.cpp:166-174 | the geometry is stored; only visibility can change with it |
| AppMenuModel.Replaced | plugin/appmenumodel.cpp:436-446 | a new importer in its initial state, one generation later |
| AppMenuModel.AfterUpdateApplicationMenu | plugin/appmenumodel.cpp:426-446 | the view, log and pending flag are untouched |
| AppMenuModel.SameMenuKeepsImporter | plugin/appmenumodel.cpp:428-434 | the same service and path only queue updateMenu on the importer there is |
| AppMenuModel.NewMenuReplacesImporter | plugin/appmenumodel.cpp:436-446 | a new pair: a fresh importer, only that service watched, updateMenu queued on it, the old menu retired |
| AppMenuModel.ReplacedKeepsInv | plugin/appmenumodel.cpp:436-446 | a new importer starts consistent and the retired menu is well formed |
| AppMenuModel.UpdateApplicationMenuKeepsInv | plugin/appmenumodel.cpp:426-446 | updateApplicationMenu keeps the model invariant |
| AppMenuModel.RefreshKeepsQueueInv | plugin/appmenumodel.cpp:428-431 | queuing updateMenu leaves the pending update() alone |
| AppMenuModel.AfterQueuedCall | plugin/appmenumodel.cpp:426-446 | the event loop takes the first queued call; the view is untouched |
| AppMenuModel.QueuedRefreshTargetsCurrent | plugin/appmenumodel.cpp:441-446 | an updateMenu queued on a replaced importer is dropped; the current one opens its root menu |
| AppMenuModel.QueuedCallKeepsInv | plugin/appmenumodel.cpp:426-446 | running a queued call keeps the invariant |
| AppMenuModel.AfterRetiredMenuDeleted | plugin/appmenumodel.cpp:441-443 | the QPointer to the deleted menu becomes null, nothing else changes |
| AppMenuModel.AfterSkippedActivation | plugin/appmenumodel.cpp:298-322 | only the view and the log change |
| AppMenuModel.PinnedIgnoresOthers | plugin/appmenumodel.cpp:225-230 | with a pinned window, activating another only removes the native filter |
| AppMenuModel.NoActiveWindow | plugin/appmenumodel.cpp:232-236 | no active window: the menu is unavailable and an update is pending |
| AppMenuModel.SkippedWindowKeepsCurrent | plugin/appmenumodel.cpp:298-322 | a skipped window never becomes current; it hides the menu when filtering unless its chain reaches the current window |
| AppMenuModel.MenuDiscovered | plugin/appmenumodel.cpp:324-344 | a non-skipped window becomes current; the nearest menu's service and path become the model's, with updateMenu queued, and visibility follows filterWindow |
| AppMenuModel.MenuDelayed | plugin/appmenumodel.cpp:346-353 | with no menu: the delayed window, the native filter installed, the menu unavailable, an update pending, the source untouched |
| AppMenuModel.ActiveWindowChangedKeepsInv | plugin/appmenumodel.cpp:223-358 | discovery keeps the model invariant |
| AppMenuModel.ActivationKeepsInv | plugin/appmenumodel.cpp:232-354 | the handler past the pinned-window check keeps the invariant |
| AppMenuModel.MenuLostKeepsInv | plugin/appmenumodel.cpp:233-234 | setMenuAvailable(false) and modelNeedsUpdate keep the invariant |
| AppMenuModel.DiscoveryKeepsInv | plugin/appmenumodel.cpp:324-353 | the discovery part keeps the invariant |
| AppMenuModel.NativeEventRediscovers | plugin/appmenumodel.cpp:496-530 | only an appmenu property change on the delayed window re-runs discovery; other events change nothing |
| AppMenuModel.AfterServiceUnregistered | plugin/appmenumodel.cpp:106-111 | the source is untouched |
| AppMenuModel.ServiceLossHidesMenu | plugin/appmenumodel.cpp:106-111 | losing the current service makes the menu unavailable and asks for an update; other services do not matter |
| AppMenuModel.ServiceUnregisteredKeepsInv | plugin/appmenumodel.cpp:106-111 | the handler keeps the invariant |
| AppMenuModel.ShownActions | plugin/appmenumodel.cpp:411 | m_menu->actions() are actions of the shown objects; none without a menu |
| AppMenuModel.RowCountFollowsMenu | plugin/appmenumodel.cpp:204-213 | no rows when the menu is unavailable or missing; otherwise one row per top-level action |
| AppMenuModel.RowsHaveData | plugin/appmenumodel.cpp:403-424 | each row has its action's text under MenuRole and the action under ActionRole; everything else is empty |
| AppMenuModel.IndexOf | plugin/appmenumodel.cpp:461 | the first position of the action, -1 exactly when it is absent |
| AppMenuModel.ChangeReportsRow | plugin/appmenumodel.cpp:458-468 | a change of a shown action reports its row once per connection; nothing else changes |
| AppMenuModel.ActionDestroyedKeepsInv | plugin/appmenumodel.cpp:470 | the destroyed connections keep the invariant |
| AppMenuModel.ActivationFindsRow | plugin/appmenumodel.cpp:481-493 | requestActivateIndex for the first row holding the action, exactly when the menu is available and the action is shown |
| AppMenuModel.OpenCallsCoverSubmenus | plugin/appmenumodel.cpp:472-474 | every top-level submenu is opened |
| AppMenuModel.OpenCallsOnlySubmenus | plugin/appmenumodel.cpp:456-475 | only top-level submenus are opened, with two requests each |
| AppMenuModel.MenuUpdatedKeepsInv | plugin/appmenumodel.cpp:448-479 | the root menuUpdated only adds requests, so the importer stays consistent |
| AppMenuModel.RootUpdateShowsMenu | plugin/appmenumodel.cpp:448-479 | m_menu becomes the root menu, shown in full and available; each action is connected once more; an update is pending |
| AppMenuModel.SubmenuUpdateOnlyRepoints | plugin/appmenumodel.cpp:449-453 | a submenu's menuUpdated only points m_menu at the root menu |
| AppMenuModel.UnpinningAsWrittenAdoptsNoWindow | plugin/appmenumodel.cpp:75-77 | as written, unpinning adopts window 0xFFFFFFFF and loses the menu |
| AppMenuModel.UnpinningFollowsActiveWindow | plugin/appmenumodel.cpp:75-77 | corrected: unpinning runs discovery for the active window, and pinning for the pinned one |
| AppMenuModel.UnpinnedActiveBecomesCurrent | plugin/appmenumodel.cpp:75-77 | corrected: after unpinning, a non-skipped active window becomes current |
| AppMenuModel.AppMenuModel.constructor | plugin/appmenumodel.cpp:67-112 | the initial values, then discovery for the active window |
| AppMenuModel.AppMenuModel.EmitModelNeedsUpdate | plugin/appmenumodel.cpp:89-95 | the signal and its coalescing lambda |
| AppMenuModel.AppMenuModel.Update | plugin/appmenumodel.cpp:215-220 | the model reset and the pending flag cleared |
| AppMenuModel.AppMenuModel.SetVisible | plugin/appmenumodel.cpp:181-187 | the setter |
| AppMenuModel.AppMenuModel.FilterWindow | plugin/appmenumodel.cpp:376-393 | filterWindow |
| AppMenuModel.AppMenuModel.OnWindowChanged | plugin/appmenumodel.cpp:360-366 | onWindowChanged |
| AppMenuModel.AppMenuModel.SetMenuAvailable | plugin/appmenumodel.cpp:152-159 | the setter: store, re-filter the current window, then notify |
| AppMenuModel.AppMenuModel.LoseMenu | plugin/appmenumodel.cpp:233-234 | setMenuAvailable(false), then modelNeedsUpdate |
| AppMenuModel.AppMenuModel.OnWindowRemoved | plugin/appmenumodel.cpp:368-374 | onWindowRemoved |
| AppMenuModel.AppMenuModel.SetFilterByActive | plugin/appmenumodel.cpp:121-129 | the setter |
| AppMenuModel.AppMenuModel.SetFilterChildren | plugin/appmenumodel.cpp:136-144 | the setter |
| AppMenuModel.AppMenuModel.SetScreenGeometry | plugin/appmenumodel.cpp:166-174 | the setter; its handler re-filters the current window |
| AppMenuModel.AppMenuModel.UpdateApplicationMenu | plugin/appmenumodel.cpp:426-494 | updateApplicationMenu |
| AppMenuModel.AppMenuModel.ReplaceImporter | plugin/appmenumodel.cpp:436-445 | the new service and path, the old importer retired, a fresh importer |
| AppMenuModel.AppMenuModel.NewImporter | plugin/appmenumodel.cpp:445 | a fresh importer in its initial state |
| AppMenuModel.AppMenuModel.OnActiveWindowChanged | plugin/appmenumodel.cpp:223-358 | onActiveWindowChanged |
| AppMenuModel.AppMenuModel.Activate | plugin/appmenumodel.cpp:232-354 | the handler past the pinned-window check |
| AppMenuModel.AppMenuModel.OnSkippedActivation | plugin/appmenumodel.cpp:298-322 | the skipped-window branch with its chain loop |
| AppMenuModel.AppMenuModel.DiscoverMenu | plugin/appmenumodel.cpp:324-353 | the discovery branch with its chain loop |
| AppMenuModel.AppMenuModel.ShowMenuOf | plugin/appmenumodel.cpp:332-343 | updateApplicationMenu for the window found, then filterWindow |
| AppMenuModel.AppMenuModel.DelayMenu | plugin/appmenumodel.cpp:346-353 | the filter installed, the window delayed, the menu lost |
| AppMenuModel.AppMenuModel.NativeEventFilter | plugin/appmenumodel.cpp:496-530 | never consumes the event; the state changes as AfterNativeEvent describes |
| AppMenuModel.AppMenuModel.SetWinId | plugin/appmenumodel.cpp:194-202 | the setter, then discovery for the new id read as an unsigned int, as written (0xFFFFFFFF after unpinning) |
| AppMenuModel.AppMenuModel.OnServiceUnregistered | plugin/appmenumodel.cpp:106-111 | the serviceUnregistered handler |
| AppMenuModel.AppMenuModel.OnMenuUpdated | plugin/appmenumodel.cpp:448-479 | the menuUpdated handler |
| AppMenuModel.AppMenuModel.ConnectRootActions | plugin/appmenumodel.cpp:456-475 | the loop connects every root action and opens its submenu |
| AppMenuModel.AppMenuModel.OpenSubmenus | plugin/appmenumodel.cpp:472-474 | updateMenu on each root submenu, in menu order |
| AppMenuModel.AppMenuModel.ProcessQueued | plugin/appmenumodel.cpp:426-446 | the event loop runs the first queued call |
| AppMenuModel.AppMenuModel.OnRetiredMenuDeleted | plugin/appmenumodel.cpp:441-443 | the retired menu is deleted and m_menu becomes null |
| AppMenuModel.AppMenuModel.FindRow | plugin/appmenumodel.cpp:461 | the loop finds IndexOf |
| AppMenuModel.AppMenuModel.ActionChangedHandler | plugin/appmenumodel.cpp:458-468 | one changed connection emits dataChanged for the action's row, if shown |
| AppMenuModel.AppMenuModel.OnActionChanged | plugin/appmenumodel.cpp:458-468 | every connection of the action runs its handler |
| AppMenuModel.AppMenuModel.OnActionDestroyed | plugin/appmenumodel.cpp:470 | every destroyed connection emits modelNeedsUpdate; the connections go |
| AppMenuModel.AppMenuModel.OnActionActivationRequested | plugin/appmenumodel.cpp:481-493 | the actionActivationRequested handler |

## Left out

- X11 atom interning (`s_atoms`, `xcb_intern_atom`) is not modelled. The two atoms are part of the `Desktop` value; an atom of 0 stands for one that could not be interned.
- `xcb_get_property` is modelled by the bytes the server holds and the `MAX_PROP_SIZE` cut. The reply type and format checks are folded into "the window has the property".
- The service names and object paths read from X11 properties are kept as the bytes before the first NUL (`Utf8.UpToNul`). They are compared and passed on, never decoded.
- `qApp->devicePixelRatio()` is taken as 1, and `KWindowSystem::isPlatformX11()` is taken as true in the X11 manager and in `AppMenuModel`. The non-X11 early returns of their constructors are not modelled.
- `QVariant` window ids are integers, and `toUInt` is their value modulo 2^32. `WId` values are naturals.
- X11FallbackWindowManager.X11FallbackWindowManager.OnActiveWindowChanged: requires the transient chain of the window to end (`ChainEnds`). The source loops forever on a transient cycle. The same applies to the constructor, NativeEventFilter, SetWinId and SetData of that class.
- AppMenuModel.AppMenuModel.OnActiveWindowChanged: requires `ChainEnds` for the same reason. The same applies to the constructor, Activate, DiscoverMenu, OnSkippedActivation, NativeEventFilter and SetWinId.
- The TaskManager models of `GenericWindowManager` and `WaylandWindowManager` are inputs. Their `setScreenGeometry` forwarding lambda is not modelled.
- D-Bus is not modelled as a transport. Calls sent are logged as `Importer.Call` values, replies are parameters of the `*Finished` slots, and an invalid reply is `None`. The service watcher is reduced to the service names it watches.
- Deferred deletion (`deleteLater`) happens when `MenuTree.Settle` or `AppMenuModel.AfterRetiredMenuDeleted` runs. Calls queued on a replaced importer are dropped with it. A retired menu's objects are frozen. The changed and destroyed connections of the old importer's actions are not modelled.
- Icons are reduced to their name, or their data bytes with the `qHash` value of those bytes. Image decoding fails only for empty data. `QIcon::fromTheme` is a name lookup.
- The `createKdeTitle` widget is reduced to the wrapper action: no id property, and the title's id kept for its handlers. Its font and tool button are left out.
- `QKeySequence` parsing and printing are left out. A shortcut is the text handed to `QKeySequence::fromString`, and a key sequence is given by its `toString()` text.
- The pending-layout timer and the event loop are flags and queues. Timer delays and real time are left out.
- Directory listings (`QDir::entryList`) and file existence (`QFileInfo::exists`) are function parameters. `SchemeColors` loading is a function from the file path to the scheme.
- QtStrings.FoldEqualIff: case folding covers ASCII letters only.
- MenuAction.Convert, MenuTypes.ToString/ToBool/ToInt/ToBytes: only the value types a dbusmenu reply carries are modelled: booleans, integers, strings, byte arrays and the shortcut struct. QVariant's other types (doubles, unsigned and 64-bit integers as distinct types, QChar, lists and maps) are left out. A shortcut struct, like an invalid value, converts to "", false, 0 and no bytes.
- MenuTypes.ToBool: a byte array is lower-cased as ASCII, where `QByteArray::toLower` folds Latin-1. The two agree on whether the result is "", "0" or "false".
- Utf8.Decode: each byte that does not start a well-formed sequence becomes one U+FFFD. Qt releases differ in how many U+FFFD they emit for a malformed sequence, and the model takes this one rule.
- Strings are sequences of Unicode scalar values. The UTF-16 code units of `QString` and JavaScript are not modelled. So the model does not capture a `.` in the util.js regular expression matching half of a surrogate pair, nor the order `QString::compare` gives to characters outside the Basic Multilingual Plane.
- Palette copying in `slotMenuAboutToShow` is left out.
- `roleNames` is left out; the role numbers are constants.
- Logging (`qDebug`, `qCWarning`) is left out.
- MenuTree.ReconcileShows: proved for replies whose child ids are distinct and for menus that are coherent with the map. For other replies the source promises nothing, and MenuTree.DestroyedHandlerDropsReusedId and MenuTree.TitleLostOnRepeatedReply exhibit what happens.
- Schemes.SchemesModel.IndexOfFileRole: stated for lists whose scheme files are distinct and avoid the special names. With duplicates, indexOf returns the first row.
- Shortcut.TokenRoundTrip: stated for the table's names and for tokens naming none of them. A token that contains a bus name, such as "Superb", is rewritten on reading back.

## Findings

| source | as written | input that shows it | evidently intended | confidence | as-written member | corrected member |
|---|---|---|---|---|---|---|
| package/contents/code/util.js:47-49 | `&amp;(&amp;\|.)` matches one character after the escaped ampersand, so an escaped `<` or `>` mnemonic is cut inside its entity | the label `&<`, escaped to `&amp;&lt;`, becomes `<u>&</u>lt;` | underline the whole escaped character | not executed | HtmlUtil.LessThanMnemonicAsWritten | HtmlUtil.EntityAwareUnderlinesMnemonic |
| plugin/wm/x11fallbackwindowmanager.cpp:47-49 | the winIdChanged handler runs discovery for `m_userWindowId.toUInt()` even after unpinning | `setWinId(-1)` runs discovery for window 0xFFFFFFFF, which makes the menu unavailable | once unpinned, follow the active window | not executed | X11FallbackWindowManager.UnpinningAsWrittenAdoptsNoWindow | X11FallbackWindowManager.UnpinningFollowsActiveWindow |
| plugin/appmenumodel.cpp:75-77 | the winIdChanged handler runs discovery for `m_winId.toUInt()` even after unpinning | `setWinId(-1)` runs discovery for window 0xFFFFFFFF, which makes the menu unavailable | once unpinned, follow the active window | not executed | AppMenuModel.UnpinningAsWrittenAdoptsNoWindow | AppMenuModel.UnpinningFollowsActiveWindow |
