/**
 * Shortcut conversion between the widget toolkit's key-sequence text
 * ("Ctrl+Shift+A, Ctrl+B") and the com.canonical.dbusmenu "shortcut"
 * property (a list of chords, each a list of key tokens such as
 * ["Control", "Shift", "A"]), as in plugin/libdbusmenuqt/dbusmenushortcut_p.cpp.
 */
module Shortcut {
  import opened QtStrings

  /** The two columns of the name table: the toolkit's names and the bus names. */
  datatype Column = QtColumn | DbusColumn

  datatype Row = Row(qt: string, dbus: string)

  function Cell(row: Row, col: Column): string
  {
    match col
    case QtColumn => row.qt
    case DbusColumn => row.dbus
  }

  /** The name table, applied top to bottom. */
  const Table: seq<Row> := [Row("Meta", "Super"), Row("Ctrl", "Control"), Row("+", "plus"), Row("-", "minus")]

  predicate CellsNonEmpty(rows: seq<Row>)
  {
    forall k :: 0 <= k < |rows| ==> rows[k].qt != [] && rows[k].dbus != []
  }

  /** A token after the first |rows| table rows have replaced their `src` name by their `dst` name. */
  function TranslateToken(t: string, rows: seq<Row>, src: Column, dst: Column): string
    requires CellsNonEmpty(rows)
    decreases |rows|
  {
    if rows == [] then t
    else
      var last := rows[|rows| - 1];
      ReplaceAll(TranslateToken(t, rows[..|rows| - 1], src, dst), Cell(last, src), Cell(last, dst))
  }

  function ToDbusToken(t: string): string
  {
    TranslateToken(t, Table, QtColumn, DbusColumn)
  }

  function FromDbusToken(t: string): string
  {
    TranslateToken(t, Table, DbusColumn, QtColumn)
  }

  /**
   * processKeyTokens: for each table row in order, replaceInStrings(from, to)
   * over the whole token list.
   */
  method ProcessKeyTokens(tokens: seq<string>, src: Column, dst: Column) returns (r: seq<string>)
    ensures |r| == |tokens|
    ensures forall j :: 0 <= j < |r| ==> r[j] == TranslateToken(tokens[j], Table, src, dst)
  {
    r := tokens;
    var i := 0;
    while i < |Table|
      invariant 0 <= i <= |Table| && |r| == |tokens|
      invariant forall j :: 0 <= j < |r| ==> r[j] == TranslateToken(tokens[j], Table[..i], src, dst)
    {
      r := ReplaceInStrings(r, Cell(Table[i], src), Cell(Table[i], dst));
      forall k | 0 <= k < |r|
        ensures r[k] == TranslateToken(tokens[k], Table[..i + 1], src, dst)
      {
        TranslateOneMoreRow(tokens[k], i, src, dst);
      }
      i := i + 1;
    }
    assert Table[..|Table|] == Table;
  }

  /** QStringList::replaceInStrings(before, after): replace applied to every string of the list. */
  method ReplaceInStrings(list: seq<string>, before: string, after: string) returns (r: seq<string>)
    requires before != []
    ensures |r| == |list|
    ensures forall k :: 0 <= k < |r| ==> r[k] == ReplaceAll(list[k], before, after)
  {
    r := list;
    var j := 0;
    while j < |r|
      invariant 0 <= j <= |r| && |r| == |list|
      invariant forall k :: 0 <= k < j ==> r[k] == ReplaceAll(list[k], before, after)
      invariant forall k :: j <= k < |r| ==> r[k] == list[k]
    {
      r := r[j := ReplaceAll(r[j], before, after)];
      j := j + 1;
    }
  }

  lemma TranslateOneMoreRow(t: string, i: nat, src: Column, dst: Column)
    requires i < |Table|
    ensures TranslateToken(t, Table[..i + 1], src, dst) ==
      ReplaceAll(TranslateToken(t, Table[..i], src, dst), Cell(Table[i], src), Cell(Table[i], dst))
  {
    assert Table[..i + 1][..i] == Table[..i];
  }

  /** The key tokens one chord of a key sequence becomes on the bus. */
  function ChordToDbus(chord: string): seq<string>
  {
    var keyTokens := Split(ReplaceAll(chord, "++", "+plus"), "+");
    seq(|keyTokens|, j requires 0 <= j < |keyTokens| => ToDbusToken(keyTokens[j]))
  }

  /** The text of one chord read back from its bus key tokens. */
  function ChordFromDbus(keyTokens: seq<string>): string
  {
    Join(seq(|keyTokens|, j requires 0 <= j < |keyTokens| => FromDbusToken(keyTokens[j])), "+")
  }

  /** The bus shortcut of a key sequence's text: its ", "-separated chords, each translated. */
  function DbusShortcut(sequence: string): seq<seq<string>>
  {
    var chords := Split(sequence, ", ");
    seq(|chords|, i requires 0 <= i < |chords| => ChordToDbus(chords[i]))
  }

  /** DBusMenuShortcut::fromKeySequence, given the sequence's text. */
  method FromKeySequence(sequence: string) returns (shortcut: seq<seq<string>>)
    ensures shortcut == DbusShortcut(sequence)
  {
    var tokens := Split(sequence, ", ");
    shortcut := [];
    var i := 0;
    while i < |tokens|
      invariant 0 <= i <= |tokens| && |shortcut| == i
      invariant forall k :: 0 <= k < i ==> shortcut[k] == ChordToDbus(tokens[k])
    {
      var token := ReplaceAll(tokens[i], "++", "+plus");
      var keyTokens := Split(token, "+");
      keyTokens := ProcessKeyTokens(keyTokens, QtColumn, DbusColumn);
      assert keyTokens == ChordToDbus(tokens[i]);
      shortcut := shortcut + [keyTokens];
      i := i + 1;
    }
  }

  /** The text DBusMenuShortcut::toKeySequence hands to the key-sequence parser. */
  function KeySequenceText(shortcut: seq<seq<string>>): string
  {
    Join(seq(|shortcut|, i requires 0 <= i < |shortcut| => ChordFromDbus(shortcut[i])), ", ")
  }

  /** DBusMenuShortcut::toKeySequence, up to the final parse of the text. */
  method ToKeySequence(shortcut: seq<seq<string>>) returns (text: string)
    ensures text == KeySequenceText(shortcut)
  {
    var tmp: seq<string> := [];
    var i := 0;
    while i < |shortcut|
      invariant 0 <= i <= |shortcut| && |tmp| == i
      invariant forall k :: 0 <= k < i ==> tmp[k] == ChordFromDbus(shortcut[k])
    {
      var keyTokens := ProcessKeyTokens(shortcut[i], DbusColumn, QtColumn);
      assert keyTokens == seq(|shortcut[i]|, j requires 0 <= j < |shortcut[i]| => FromDbusToken(shortcut[i][j]));
      tmp := tmp + [Join(keyTokens, "+")];
      i := i + 1;
    }
    assert tmp == seq(|shortcut|, i requires 0 <= i < |shortcut| => ChordFromDbus(shortcut[i]));
    text := Join(tmp, ", ");
  }

  /** A token that contains none of the `src` names is left as it is. */
  lemma {:induction false} UnnamedTokenUnchanged(t: string, rows: seq<Row>, src: Column, dst: Column)
    requires CellsNonEmpty(rows)
    requires forall k :: 0 <= k < |rows| ==> !Occurs(t, Cell(rows[k], src))
    ensures TranslateToken(t, rows, src, dst) == t
    decreases |rows|
  {
    if rows != [] {
      var init := rows[..|rows| - 1];
      var last := rows[|rows| - 1];
      assert forall k :: 0 <= k < |init| ==> init[k] == rows[k];
      UnnamedTokenUnchanged(t, init, src, dst);
      ReplaceAbsent(t, Cell(last, src), Cell(last, dst));
    }
  }

  /** The table, unrolled: the four replacements in their order. */
  lemma TranslateByTable(t: string, src: Column, dst: Column)
    ensures TranslateToken(t, Table, src, dst) ==
      ReplaceAll(ReplaceAll(ReplaceAll(ReplaceAll(t,
        Cell(Table[0], src), Cell(Table[0], dst)),
        Cell(Table[1], src), Cell(Table[1], dst)),
        Cell(Table[2], src), Cell(Table[2], dst)),
        Cell(Table[3], src), Cell(Table[3], dst))
  {
    var t0 := TranslateToken(t, Table[..0], src, dst);
    var t1 := TranslateToken(t, Table[..1], src, dst);
    var t2 := TranslateToken(t, Table[..2], src, dst);
    var t3 := TranslateToken(t, Table[..3], src, dst);
    assert t0 == t;
    assert Table[..1][..0] == Table[..0];
    assert t1 == ReplaceAll(t0, Cell(Table[0], src), Cell(Table[0], dst));
    assert Table[..2][..1] == Table[..1];
    assert t2 == ReplaceAll(t1, Cell(Table[1], src), Cell(Table[1], dst));
    assert Table[..3][..2] == Table[..2];
    assert t3 == ReplaceAll(t2, Cell(Table[2], src), Cell(Table[2], dst));
    assert Table[..3] == Table[..|Table| - 1];
  }

  /** Neither a toolkit name nor a bus name of the table occurs in `t`. */
  predicate Unnamed(t: string)
  {
    forall k :: 0 <= k < |Table| ==> !Occurs(t, Table[k].qt) && !Occurs(t, Table[k].dbus)
  }

  /** Sending a token: Meta, Ctrl, "+" and "-" are replaced in that order. */
  lemma ToDbusSteps(t: string)
    ensures ToDbusToken(t) ==
      ReplaceAll(ReplaceAll(ReplaceAll(ReplaceAll(t, "Meta", "Super"), "Ctrl", "Control"), "+", "plus"), "-", "minus")
  {
    TranslateByTable(t, QtColumn, DbusColumn);
  }

  /** Reading a token back: Super, Control, plus and minus are replaced in that order. */
  lemma FromDbusSteps(t: string)
    ensures FromDbusToken(t) ==
      ReplaceAll(ReplaceAll(ReplaceAll(ReplaceAll(t, "Super", "Meta"), "Control", "Ctrl"), "plus", "+"), "minus", "-")
  {
    TranslateByTable(t, DbusColumn, QtColumn);
  }

  /** Sending a token whose four replacement steps give t1, t2, t3 and then r. */
  lemma ToDbusVia(t: string, t1: string, t2: string, t3: string, r: string)
    requires ReplaceAll(t, "Meta", "Super") == t1 && ReplaceAll(t1, "Ctrl", "Control") == t2
    requires ReplaceAll(t2, "+", "plus") == t3 && ReplaceAll(t3, "-", "minus") == r
    ensures ToDbusToken(t) == r
  {
    ToDbusSteps(t);
  }

  /** Reading a token back whose four replacement steps give t1, t2, t3 and then r. */
  lemma FromDbusVia(t: string, t1: string, t2: string, t3: string, r: string)
    requires ReplaceAll(t, "Super", "Meta") == t1 && ReplaceAll(t1, "Control", "Ctrl") == t2
    requires ReplaceAll(t2, "plus", "+") == t3 && ReplaceAll(t3, "minus", "-") == r
    ensures FromDbusToken(t) == r
  {
    FromDbusSteps(t);
  }

  lemma MetaIsSuper()
    ensures ToDbusToken("Meta") == "Super"
  {
    ReplaceWhole("Meta", "Super");
    SkipsWithoutFirstChar("Super", "Ctrl", "Control");
    SkipsWithoutFirstChar("Super", "+", "plus");
    SkipsWithoutFirstChar("Super", "-", "minus");
    ToDbusVia("Meta", "Super", "Super", "Super", "Super");
  }

  lemma SuperIsMeta()
    ensures FromDbusToken("Super") == "Meta"
  {
    ReplaceWhole("Super", "Meta");
    SkipsWithoutFirstChar("Meta", "Control", "Ctrl");
    SkipsWithoutFirstChar("Meta", "plus", "+");
    SkipsWithoutFirstChar("Meta", "minus", "-");
    FromDbusVia("Super", "Meta", "Meta", "Meta", "Meta");
  }

  lemma CtrlIsControl()
    ensures ToDbusToken("Ctrl") == "Control"
  {
    SkipsWithoutFirstChar("Ctrl", "Meta", "Super");
    ReplaceWhole("Ctrl", "Control");
    SkipsWithoutFirstChar("Control", "+", "plus");
    SkipsWithoutFirstChar("Control", "-", "minus");
    ToDbusVia("Ctrl", "Ctrl", "Control", "Control", "Control");
  }

  lemma ControlIsCtrl()
    ensures FromDbusToken("Control") == "Ctrl"
  {
    SkipsWithoutFirstChar("Control", "Super", "Meta");
    ReplaceWhole("Control", "Ctrl");
    SkipsWithoutFirstChar("Ctrl", "plus", "+");
    SkipsWithoutFirstChar("Ctrl", "minus", "-");
    FromDbusVia("Control", "Control", "Ctrl", "Ctrl", "Ctrl");
  }

  lemma PlusIsPlus()
    ensures ToDbusToken("+") == "plus"
  {
    SkipsWithoutFirstChar("+", "Meta", "Super");
    SkipsWithoutFirstChar("+", "Ctrl", "Control");
    ReplaceWhole("+", "plus");
    SkipsWithoutFirstChar("plus", "-", "minus");
    ToDbusVia("+", "+", "+", "plus", "plus");
  }

  lemma PlusNameIsPlus()
    ensures FromDbusToken("plus") == "+"
  {
    SkipsWithoutFirstChar("plus", "Super", "Meta");
    SkipsWithoutFirstChar("plus", "Control", "Ctrl");
    ReplaceWhole("plus", "+");
    SkipsWithoutFirstChar("+", "minus", "-");
    FromDbusVia("plus", "plus", "plus", "+", "+");
  }

  lemma MinusIsMinus()
    ensures ToDbusToken("-") == "minus"
  {
    SkipsWithoutFirstChar("-", "Meta", "Super");
    SkipsWithoutFirstChar("-", "Ctrl", "Control");
    SkipsWithoutFirstChar("-", "+", "plus");
    ReplaceWhole("-", "minus");
    ToDbusVia("-", "-", "-", "-", "minus");
  }

  lemma MinusNameIsMinus()
    ensures FromDbusToken("minus") == "-"
  {
    SkipsWithoutFirstChar("minus", "Super", "Meta");
    SkipsWithoutFirstChar("minus", "Control", "Ctrl");
    SkipsWithoutFirstChar("minus", "plus", "+");
    ReplaceWhole("minus", "-");
    FromDbusVia("minus", "minus", "minus", "minus", "-");
  }

  /** A token whose round trip the table preserves: one of its toolkit names, or a token naming none. */
  predicate KnownOrUnnamed(t: string)
  {
    t == "Meta" || t == "Ctrl" || t == "+" || t == "-" || Unnamed(t)
  }

  /** Sending a token and reading it back restores it. */
  lemma TokenRoundTrip(t: string)
    requires KnownOrUnnamed(t)
    ensures FromDbusToken(ToDbusToken(t)) == t
  {
    if t == "Meta" {
      MetaIsSuper(); SuperIsMeta();
    } else if t == "Ctrl" {
      CtrlIsControl(); ControlIsCtrl();
    } else if t == "+" {
      PlusIsPlus(); PlusNameIsPlus();
    } else if t == "-" {
      MinusIsMinus(); MinusNameIsMinus();
    } else {
      UnnamedTokenUnchanged(t, Table, QtColumn, DbusColumn);
      UnnamedTokenUnchanged(t, Table, DbusColumn, QtColumn);
    }
  }

  /** A chord that can be read back: no "++" in it, and each of its "+"-separated tokens round-trips. */
  predicate ChordRoundTrips(chord: string)
  {
    !Occurs(chord, "++") && forall j :: 0 <= j < |Split(chord, "+")| ==> KnownOrUnnamed(Split(chord, "+")[j])
  }

  /** Sending a chord and reading it back restores it. */
  lemma ChordRoundTrip(chord: string)
    requires ChordRoundTrips(chord)
    ensures ChordFromDbus(ChordToDbus(chord)) == chord
  {
    ReplaceAbsent(chord, "++", "+plus");
    var keyTokens := Split(chord, "+");
    var sent := ChordToDbus(chord);
    var back := seq(|sent|, j requires 0 <= j < |sent| => FromDbusToken(sent[j]));
    forall j | 0 <= j < |keyTokens| ensures back[j] == keyTokens[j] {
      TokenRoundTrip(keyTokens[j]);
    }
    assert back == keyTokens;
    JoinSplit(chord, "+");
  }

  /** Sending a key sequence and reading it back gives the same text when every chord round-trips. */
  lemma KeySequenceRoundTrip(sequence: string)
    requires forall i :: 0 <= i < |Split(sequence, ", ")| ==> ChordRoundTrips(Split(sequence, ", ")[i])
    ensures KeySequenceText(DbusShortcut(sequence)) == sequence
  {
    var chords := Split(sequence, ", ");
    var shortcut := DbusShortcut(sequence);
    var back := seq(|shortcut|, i requires 0 <= i < |shortcut| => ChordFromDbus(shortcut[i]));
    forall i | 0 <= i < |chords| ensures back[i] == chords[i] {
      ChordRoundTrip(chords[i]);
    }
    assert back == chords;
    JoinSplit(sequence, ", ");
  }

  lemma CtrlPlusRewritten()
    ensures ReplaceAll("Ctrl++", "++", "+plus") == "Ctrl+plus"
  {
    ReplaceAfterPlain("Ctrl", "++", "+plus", "");
    assert "Ctrl" + "++" + "" == "Ctrl++";
    assert "Ctrl" + "+plus" + "" == "Ctrl+plus";
  }

  lemma CtrlPlusSplit()
    ensures Split("Ctrl+plus", "+") == ["Ctrl", "plus"]
  {
    SplitAfterPlain("Ctrl", "+", "plus");
    assert "Ctrl" + "+" + "plus" == "Ctrl+plus";
    SplitPlain("plus", "+");
  }

  lemma PlusNameSentAsIs()
    ensures ToDbusToken("plus") == "plus"
  {
    SkipsWithoutFirstChar("plus", "Meta", "Super");
    SkipsWithoutFirstChar("plus", "Ctrl", "Control");
    SkipsWithoutFirstChar("plus", "+", "plus");
    SkipsWithoutFirstChar("plus", "-", "minus");
    ToDbusVia("plus", "plus", "plus", "plus", "plus");
  }

  /** "Ctrl++" (Control and the plus key) is sent as the tokens Control and plus. */
  lemma CtrlPlusSent()
    ensures ChordToDbus("Ctrl++") == ["Control", "plus"]
  {
    CtrlPlusRewritten();
    CtrlPlusSplit();
    CtrlIsControl();
    PlusNameSentAsIs();
    var sent := ChordToDbus("Ctrl++");
    assert |sent| == 2 && sent[0] == ToDbusToken("Ctrl") && sent[1] == ToDbusToken("plus");
    assert sent[0] == "Control" && sent[1] == "plus";
    assert sent == [sent[0], sent[1]];
  }

  /** The tokens Control and plus are read back as "Ctrl++". */
  lemma CtrlPlusReadBack()
    ensures ChordFromDbus(["Control", "plus"]) == "Ctrl++"
  {
    var keyTokens := ["Control", "plus"];
    ControlIsCtrl();
    PlusNameIsPlus();
    var back := seq(|keyTokens|, j requires 0 <= j < |keyTokens| => FromDbusToken(keyTokens[j]));
    assert back == ["Ctrl", "+"];
    assert Join(["Ctrl", "+"], "+") == "Ctrl" + "+" + "+";
  }
}
