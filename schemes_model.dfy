/**
 * The colour-scheme list model of plugin/schemesmodel.cpp: a list of
 * schemes kept sorted by name (compared without regard to case), the
 * lookups the configuration page uses, and the discovery of scheme files
 * over the data locations. Reading a scheme file and listing a directory
 * are inputs.
 */
module Schemes {
  import opened QtStrings

  /** A colour as the scheme file names it; "transparent" is the toolkit's transparent colour. */
  datatype Color = Color(name: string)

  const Transparent: Color := Color("transparent")

  /** One colour scheme: its file, the name it declares and its two colours. */
  datatype SchemeColors = SchemeColors(file: string, name: string, background: Color, text: Color)

  /** The item roles of the model. */
  const DisplayRole: int := 0
  const UserRole: int := 0x0100
  const FileRole: int := UserRole + 4
  const BackgroundColorRole: int := UserRole + 5
  const TextColorRole: int := UserRole + 6

  /** A model value: none, a string or a colour. */
  datatype Variant = Empty | Text(s: string) | ColorValue(c: Color)

  // ---------------------------------------------------------------------
  // Case-insensitive ordering of names
  // ---------------------------------------------------------------------

  /** Lexicographic order of characters: a proper prefix comes first. */
  predicate LexLess(a: string, b: string)
    decreases |a|
  {
    if a == [] then b != []
    else if b == [] then false
    else if a[0] != b[0] then a[0] < b[0]
    else LexLess(a[1..], b[1..])
  }

  /** `QString::compare(a, b, Qt::CaseInsensitive) < 0`. */
  predicate LessCI(a: string, b: string)
  {
    LexLess(Fold(a), Fold(b))
  }

  lemma {:induction false} LexLessIrreflexive(a: string)
    ensures !LexLess(a, a)
    decreases |a|
  {
    if a != [] {
      LexLessIrreflexive(a[1..]);
    }
  }

  lemma {:induction false} LexLessTransitive(a: string, b: string, c: string)
    requires LexLess(a, b) && LexLess(b, c)
    ensures LexLess(a, c)
    decreases |a|
  {
    if a != [] && b != [] && c != [] && a[0] == b[0] && b[0] == c[0] {
      LexLessTransitive(a[1..], b[1..], c[1..]);
    }
  }

  lemma {:induction false} LexLessTotal(a: string, b: string)
    ensures a == b || LexLess(a, b) || LexLess(b, a)
    decreases |a|
  {
    if a != [] && b != [] && a[0] == b[0] {
      LexLessTotal(a[1..], b[1..]);
      if a[1..] == b[1..] {
        assert a == [a[0]] + a[1..] && b == [b[0]] + b[1..];
      }
    }
  }

  /** Sorted by name, case-insensitively: no scheme's name is less than an earlier one's. */
  predicate Sorted(list: seq<SchemeColors>)
  {
    forall i, j :: 0 <= i < j < |list| ==> !LessCI(list[j].name, list[i].name)
  }

  // ---------------------------------------------------------------------
  // Sorted insertion
  // ---------------------------------------------------------------------

  /** Where insertSchemeInList puts `s`: before the first scheme whose name is greater, else at the end. */
  function InsertPosition(list: seq<SchemeColors>, s: SchemeColors): (pos: nat)
    ensures pos <= |list|
    ensures forall i :: 0 <= i < pos ==> !LessCI(s.name, list[i].name)
    ensures pos < |list| ==> LessCI(s.name, list[pos].name)
  {
    if list == [] then 0
    else if LessCI(s.name, list[0].name) then 0
    else 1 + InsertPosition(list[1..], s)
  }

  /** `list` with `s` inserted at `pos`. */
  function InsertAt(list: seq<SchemeColors>, pos: nat, s: SchemeColors): seq<SchemeColors>
    requires pos <= |list|
  {
    list[..pos] + [s] + list[pos..]
  }

  /** Inserting at the insertion position keeps a sorted list sorted. */
  lemma InsertKeepsSorted(list: seq<SchemeColors>, s: SchemeColors)
    requires Sorted(list)
    ensures Sorted(InsertAt(list, InsertPosition(list, s), s))
  {
    var pos := InsertPosition(list, s);
    var r := InsertAt(list, pos, s);
    assert forall i :: 0 <= i < pos ==> r[i] == list[i];
    assert r[pos] == s;
    assert forall i :: pos < i < |r| ==> r[i] == list[i - 1];
    forall i, j | 0 <= i < j < |r|
      ensures !LessCI(r[j].name, r[i].name)
    {
      var fi, fj, fs := Fold(r[i].name), Fold(r[j].name), Fold(s.name);
      if i == pos {
        // s is less than list[pos], and list[pos] is not greater than r[j]
        if j > pos + 1 {
          NotLessAfterLess(fs, Fold(list[pos].name), fj);
        } else {
          LexLessAsymmetric(fs, fj);
        }
      } else if j == pos {
        // r[i] = list[i] is not greater than s
        assert !LexLess(fs, fi);
        LexLessTotal(fs, fi);
        if LexLess(fj, fi) {
          LexLessTransitive(fi, fs, fi);
          LexLessIrreflexive(fi);
        }
      }
    }
  }

  lemma LexLessAsymmetric(a: string, b: string)
    requires LexLess(a, b)
    ensures !LexLess(b, a)
  {
    if LexLess(b, a) {
      LexLessTransitive(a, b, a);
      LexLessIrreflexive(a);
    }
  }

  /** a < b and not c < b give a < c, hence not c < a. */
  lemma NotLessAfterLess(a: string, b: string, c: string)
    requires LexLess(a, b) && !LexLess(c, b)
    ensures !LexLess(c, a)
  {
    LexLessTotal(b, c);
    if b == c {
      LexLessAsymmetric(a, c);
    } else {
      LexLessTransitive(a, b, c);
      LexLessAsymmetric(a, c);
    }
  }

  /** Insertion is stable: `s` goes after every scheme whose name equals its own. */
  lemma InsertIsStable(list: seq<SchemeColors>, s: SchemeColors, i: nat)
    requires Sorted(list) && i < |list| && Fold(list[i].name) == Fold(s.name)
    ensures i < InsertPosition(list, s)
  {
    if InsertPosition(list, s) == i {
      LexLessIrreflexive(Fold(s.name));
    }
  }

  /** Insertion adds exactly `s`, and removing it gives back the list: the others keep their order. */
  lemma InsertAddsOne(list: seq<SchemeColors>, s: SchemeColors)
    ensures var pos := InsertPosition(list, s);
      var r := InsertAt(list, pos, s);
      |r| == |list| + 1 && r[pos] == s && r[..pos] + r[pos + 1..] == list
      && multiset(r) == multiset(list) + multiset{s}
  {
    var pos := InsertPosition(list, s);
    var r := InsertAt(list, pos, s);
    assert r[..pos] == list[..pos] && r[pos + 1..] == list[pos..];
    assert list[..pos] + list[pos..] == list;
    assert r == list[..pos] + ([s] + list[pos..]);
  }

  // ---------------------------------------------------------------------
  // Scheme discovery over the data locations
  // ---------------------------------------------------------------------

  /** A scheme file found in a directory: the directory and the file name. */
  datatype Found = Found(dir: string, filename: string)

  function FullPath(f: Found): string
  {
    f.dir + "/" + f.filename
  }

  /** The scheme files of one directory, in listing order. */
  function DirEntries(dir: string, listing: string -> seq<string>): (r: seq<Found>)
    ensures |r| == |listing(dir)|
    ensures forall j :: 0 <= j < |r| ==> r[j] == Found(dir, listing(dir)[j])
  {
    seq(|listing(dir)|, j requires 0 <= j < |listing(dir)| => Found(dir, listing(dir)[j]))
  }

  lemma DirEntriesGrow(dir: string, listing: string -> seq<string>, j: nat)
    requires j < |listing(dir)|
    ensures DirEntries(dir, listing)[..j + 1] == DirEntries(dir, listing)[..j] + [Found(dir, listing(dir)[j])]
  {
  }

  /** All scheme files of the search paths, path by path. */
  function AllEntries(paths: seq<string>, listing: string -> seq<string>): seq<Found>
    decreases |paths|
  {
    if paths == [] then []
    else AllEntries(paths[..|paths| - 1], listing) + DirEntries(paths[|paths| - 1], listing)
  }

  predicate NameListed(name: string, entries: seq<Found>)
  {
    exists k :: 0 <= k < |entries| && entries[k].filename == name
  }

  /** The entries whose file name has not been seen earlier: the first path wins. */
  function FirstOccurrences(entries: seq<Found>): (r: seq<Found>)
    ensures forall k :: 0 <= k < |r| ==> NameListed(r[k].filename, entries)
    decreases |entries|
  {
    if entries == [] then []
    else
      var prev := entries[..|entries| - 1];
      var last := entries[|entries| - 1];
      var r := FirstOccurrences(prev);
      if NameListed(last.filename, prev) then r else r + [last]
  }

  function Names(entries: seq<Found>): (r: seq<string>)
    ensures |r| == |entries|
    ensures forall k :: 0 <= k < |entries| ==> r[k] == entries[k].filename
  {
    seq(|entries|, k requires 0 <= k < |entries| => entries[k].filename)
  }

  predicate NoDuplicates(names: seq<string>)
  {
    forall i, j :: 0 <= i < j < |names| ==> names[i] != names[j]
  }

  /** Dropping the last entry keeps every listed name listed. */
  lemma ListedInPrefix(entries: seq<Found>)
    requires entries != []
    ensures forall name :: NameListed(name, entries[..|entries| - 1]) ==> NameListed(name, entries)
    ensures forall name :: NameListed(name, entries) ==>
      NameListed(name, entries[..|entries| - 1]) || name == entries[|entries| - 1].filename
  {
    var prev := entries[..|entries| - 1];
    forall name | NameListed(name, prev) ensures NameListed(name, entries) {
      var k :| 0 <= k < |prev| && prev[k].filename == name;
      assert entries[k] == prev[k];
    }
    forall name | NameListed(name, entries)
      ensures NameListed(name, prev) || name == entries[|entries| - 1].filename
    {
      var k :| 0 <= k < |entries| && entries[k].filename == name;
      if k < |prev| {
        assert prev[k] == entries[k];
      }
    }
  }

  /** No file name is loaded twice. */
  lemma {:induction false} FirstOccurrencesUnique(entries: seq<Found>)
    ensures NoDuplicates(Names(FirstOccurrences(entries)))
    decreases |entries|
  {
    if entries != [] {
      var prev := entries[..|entries| - 1];
      var last := entries[|entries| - 1];
      FirstOccurrencesUnique(prev);
      FirstOccurrencesListed(prev);
    }
  }

  /** A file name is loaded exactly when some search path lists it. */
  lemma {:induction false} FirstOccurrencesListed(entries: seq<Found>)
    ensures forall name :: NameListed(name, entries) <==> NameListed(name, FirstOccurrences(entries))
    decreases |entries|
  {
    if entries != [] {
      var prev := entries[..|entries| - 1];
      var last := entries[|entries| - 1];
      var r := FirstOccurrences(prev);
      FirstOccurrencesListed(prev);
      ListedInPrefix(entries);
      if !NameListed(last.filename, prev) {
        var r' := r + [last];
        assert r' != [] && r'[..|r'| - 1] == r && r'[|r'| - 1] == last;
        ListedInPrefix(r');
        assert NameListed(last.filename, r') by { assert r'[|r|] == last; }
      }
    }
  }

  /** The entry loaded for a file name is its first occurrence in search order. */
  lemma {:induction false} FirstOccurrencesFirst(entries: seq<Found>)
    ensures forall k :: 0 <= k < |FirstOccurrences(entries)| ==>
      exists i :: 0 <= i < |entries| && entries[i] == FirstOccurrences(entries)[k]
        && !NameListed(entries[i].filename, entries[..i])
    decreases |entries|
  {
    if entries != [] {
      var prev := entries[..|entries| - 1];
      var last := entries[|entries| - 1];
      var r := FirstOccurrences(prev);
      var r' := FirstOccurrences(entries);
      FirstOccurrencesFirst(prev);
      forall k | 0 <= k < |r'|
        ensures exists i :: 0 <= i < |entries| && entries[i] == r'[k] && !NameListed(entries[i].filename, entries[..i])
      {
        if k < |r| {
          assert r'[k] == r[k];
          var i :| 0 <= i < |prev| && prev[i] == r[k] && !NameListed(prev[i].filename, prev[..i]);
          assert entries[i] == prev[i] && entries[..i] == prev[..i];
        } else {
          assert r' == r + [last] && r'[k] == last;
          assert entries[|prev|] == last && entries[..|prev|] == prev;
        }
      }
    } else {
      assert FirstOccurrences(entries) == [];
    }
  }

  /** The schemes loaded from a list of scheme files, in order. */
  function LoadAll(found: seq<Found>, load: string -> SchemeColors): (r: seq<SchemeColors>)
    ensures |r| == |found|
    ensures forall k :: 0 <= k < |found| ==> r[k] == load(FullPath(found[k]))
  {
    seq(|found|, k requires 0 <= k < |found| => load(FullPath(found[k])))
  }

  /** An entry whose name no earlier entry lists is a first occurrence. */
  lemma FirstOccurrencesNew(seen: seq<Found>, x: Found)
    requires !NameListed(x.filename, seen)
    ensures FirstOccurrences(seen + [x]) == FirstOccurrences(seen) + [x]
  {
    var next := seen + [x];
    assert next[..|next| - 1] == seen && next[|next| - 1] == x;
  }

  lemma LoadAllSnoc(found: seq<Found>, x: Found, load: string -> SchemeColors)
    ensures LoadAll(found + [x], load) == LoadAll(found, load) + [load(FullPath(x))]
  {
  }

  /** The list after inserting each scheme of `ss`, in order, at its insertion position. */
  function InsertEach(list: seq<SchemeColors>, ss: seq<SchemeColors>): seq<SchemeColors>
    decreases |ss|
  {
    if ss == [] then list
    else
      var l := InsertEach(list, ss[..|ss| - 1]);
      InsertAt(l, InsertPosition(l, ss[|ss| - 1]), ss[|ss| - 1])
  }

  /** Inserting schemes one by one into a sorted list leaves it sorted. */
  lemma {:induction false} InsertEachSorted(list: seq<SchemeColors>, ss: seq<SchemeColors>)
    requires Sorted(list)
    ensures Sorted(InsertEach(list, ss))
    decreases |ss|
  {
    if ss != [] {
      InsertEachSorted(list, ss[..|ss| - 1]);
      InsertKeepsSorted(InsertEach(list, ss[..|ss| - 1]), ss[|ss| - 1]);
    }
  }

  /** The insertions add exactly the inserted schemes: the result is a permutation of both lists together. */
  lemma {:induction false} InsertEachAddsAll(list: seq<SchemeColors>, ss: seq<SchemeColors>)
    ensures multiset(InsertEach(list, ss)) == multiset(list) + multiset(ss)
    decreases |ss|
  {
    if ss != [] {
      var pre := ss[..|ss| - 1];
      InsertEachAddsAll(list, pre);
      InsertAddsOne(InsertEach(list, pre), ss[|ss| - 1]);
      assert ss == pre + [ss[|ss| - 1]];
    }
  }

  lemma NamesSnoc(found: seq<Found>, x: Found)
    ensures Names(found + [x]) == Names(found) + [x.filename]
  {
  }

  // ---------------------------------------------------------------------
  // The model
  // ---------------------------------------------------------------------

  /**
   * The state of initSchemes after the entries `seen`: the list is the
   * current scheme with the first occurrence of each file name inserted in
   * turn, and the registered names are those file names.
   */
  predicate Loaded(schemes: seq<SchemeColors>, registered: seq<string>, seen: seq<Found>,
                   current: SchemeColors, load: string -> SchemeColors)
  {
    schemes == InsertEach([current], LoadAll(FirstOccurrences(seen), load))
    && registered == Names(FirstOccurrences(seen))
  }

  datatype SchemesSignal = CurrentOptionIsShownChanged

  class SchemesModel {
    var currentOptionIsShown: bool
    var schemes: seq<SchemeColors>
    var emitted: seq<SchemesSignal>

    /**
     * The constructor: the "current window" option is hidden, then
     * initSchemes runs over the current scheme file and the scheme
     * directories (the data locations joined with "color-schemes").
     */
    constructor(currentSchemePath: string, standardPaths: seq<string>,
                listing: string -> seq<string>, load: string -> SchemeColors)
      ensures !currentOptionIsShown && emitted == []
      ensures schemes == InsertEach([load(currentSchemePath)], LoadAll(FirstOccurrences(AllEntries(standardPaths, listing)), load))
      ensures Sorted(schemes)
      ensures multiset(schemes) ==
        multiset{load(currentSchemePath)} + multiset(LoadAll(FirstOccurrences(AllEntries(standardPaths, listing)), load))
    {
      currentOptionIsShown := false;
      emitted := [];
      schemes := [];
      new;
      InitSchemes(currentSchemePath, standardPaths, listing, load);
    }

    /** setCurrentOptionIsShown: notifies only when the value changes. */
    method SetCurrentOptionIsShown(isShown: bool)
      modifies this
      ensures currentOptionIsShown == isShown && schemes == old(schemes)
      ensures emitted == old(emitted) + (if old(currentOptionIsShown) != isShown then [CurrentOptionIsShownChanged] else [])
    {
      if currentOptionIsShown == isShown {
        return;
      }
      currentOptionIsShown := isShown;
      emitted := emitted + [CurrentOptionIsShownChanged];
    }

    /** insertSchemeInList: the scheme goes before the first scheme with a greater name. */
    method InsertSchemeInList(tempScheme: SchemeColors)
      modifies this`schemes
      ensures schemes == InsertAt(old(schemes), InsertPosition(old(schemes), tempScheme), tempScheme)
      ensures Sorted(old(schemes)) ==> Sorted(schemes)
      ensures multiset(schemes) == multiset(old(schemes)) + multiset{tempScheme}
    {
      var atPos := 0;
      var i := 0;
      while i < |schemes|
        invariant 0 <= i <= |schemes| && atPos == i
        invariant forall k :: 0 <= k < i ==> !LessCI(tempScheme.name, schemes[k].name)
      {
        if LessCI(tempScheme.name, schemes[i].name) {
          atPos := i;
          break;
        } else {
          atPos := i + 1;
        }
        i := i + 1;
      }
      assert atPos == InsertPosition(schemes, tempScheme) by {
        PositionUnique(schemes, tempScheme, atPos);
      }
      if Sorted(schemes) {
        InsertKeepsSorted(schemes, tempScheme);
      }
      InsertAddsOne(schemes, tempScheme);
      schemes := schemes[..atPos] + [tempScheme] + schemes[atPos..];
    }

    /**
     * initSchemes: the current scheme first, then every scheme file of the
     * directories whose file name was not registered yet.
     */
    method InitSchemes(currentSchemePath: string, standardPaths: seq<string>,
                       listing: string -> seq<string>, load: string -> SchemeColors)
      modifies this`schemes
      ensures schemes == InsertEach([load(currentSchemePath)], LoadAll(FirstOccurrences(AllEntries(standardPaths, listing)), load))
      ensures Sorted(schemes)
      ensures multiset(schemes) ==
        multiset{load(currentSchemePath)} + multiset(LoadAll(FirstOccurrences(AllEntries(standardPaths, listing)), load))
    {
      schemes := [];
      InsertSchemeInList(load(currentSchemePath));
      var registeredSchemes: seq<string> := [];
      var p := 0;
      while p < |standardPaths|
        invariant 0 <= p <= |standardPaths|
        invariant Loaded(schemes, registeredSchemes, AllEntries(standardPaths[..p], listing), load(currentSchemePath), load)
      {
        assert standardPaths[..p + 1][..p] == standardPaths[..p];
        registeredSchemes := RegisterDirectory(standardPaths[p], registeredSchemes,
          AllEntries(standardPaths[..p], listing), currentSchemePath, listing, load);
        p := p + 1;
      }
      assert standardPaths[..p] == standardPaths;
      var all := LoadAll(FirstOccurrences(AllEntries(standardPaths, listing)), load);
      InsertEachSorted([load(currentSchemePath)], all);
      InsertEachAddsAll([load(currentSchemePath)], all);
    }

    /**
     * The inner loop of initSchemes over the scheme files of one directory:
     * each file whose name is not registered yet is loaded, inserted and
     * registered.
     */
    method RegisterDirectory(path: string, registered: seq<string>, ghost seen: seq<Found>,
                             currentSchemePath: string, listing: string -> seq<string>, load: string -> SchemeColors)
      returns (registeredSchemes: seq<string>)
      requires Loaded(schemes, registered, seen, load(currentSchemePath), load)
      modifies this`schemes
      ensures Loaded(schemes, registeredSchemes, seen + DirEntries(path, listing), load(currentSchemePath), load)
    {
      registeredSchemes := registered;
      var tempSchemes := listing(path);
      ghost var scanned := seen;
      var j := 0;
      while j < |tempSchemes|
        invariant 0 <= j <= |tempSchemes| && scanned == seen + DirEntries(path, listing)[..j]
        invariant Loaded(schemes, registeredSchemes, scanned, load(currentSchemePath), load)
      {
        var filename := tempSchemes[j];
        registeredSchemes := RegisterFile(path, filename, registeredSchemes, scanned, currentSchemePath, load);
        DirEntriesGrow(path, listing, j);
        scanned := scanned + [Found(path, filename)];
        j := j + 1;
      }
      assert DirEntries(path, listing)[..j] == DirEntries(path, listing);
    }

    /** One scheme file: loaded, inserted and registered unless its name is registered already. */
    method RegisterFile(path: string, filename: string, registered: seq<string>, ghost seen: seq<Found>,
                        currentSchemePath: string, load: string -> SchemeColors)
      returns (registeredSchemes: seq<string>)
      requires Loaded(schemes, registered, seen, load(currentSchemePath), load)
      modifies this`schemes
      ensures Loaded(schemes, registeredSchemes, seen + [Found(path, filename)], load(currentSchemePath), load)
    {
      RegisteredIffListed(seen, registered, filename);
      if filename !in registered {
        var fullPath := path + "/" + filename;
        ghost var previous := schemes;
        InsertSchemeInList(load(fullPath));
        RegisterNew(previous, schemes, registered, seen, Found(path, filename), load(currentSchemePath), load);
        registeredSchemes := registered + [filename];
      } else {
        SkipRegistered(schemes, registered, seen, Found(path, filename), load(currentSchemePath), load);
        registeredSchemes := registered;
      }
    }

    static lemma SkipRegistered(schemes: seq<SchemeColors>, registered: seq<string>, seen: seq<Found>, x: Found,
                                current: SchemeColors, load: string -> SchemeColors)
      requires Loaded(schemes, registered, seen, current, load) && x.filename in registered
      ensures Loaded(schemes, registered, seen + [x], current, load)
    {
      RegisteredIffListed(seen, registered, x.filename);
      var next := seen + [x];
      assert next[..|next| - 1] == seen && next[|next| - 1] == x;
    }

    /** A file with a new name is loaded, inserted and registered. */
    static lemma RegisterNew(schemes: seq<SchemeColors>, schemes': seq<SchemeColors>, registered: seq<string>,
                             seen: seq<Found>, x: Found, current: SchemeColors, load: string -> SchemeColors)
      requires Loaded(schemes, registered, seen, current, load) && x.filename !in registered
      requires schemes' == InsertAt(schemes, InsertPosition(schemes, load(FullPath(x))), load(FullPath(x)))
      ensures Loaded(schemes', registered + [x.filename], seen + [x], current, load)
    {
      RegisteredIffListed(seen, registered, x.filename);
      var r := FirstOccurrences(seen);
      FirstOccurrencesNew(seen, x);
      LoadAllSnoc(r, x, load);
      NamesSnoc(r, x);
      var loaded := LoadAll(r, load);
      assert (loaded + [load(FullPath(x))])[..|loaded|] == loaded;
    }

    /** The file name is registered exactly when an earlier entry lists it. */
    static lemma RegisteredIffListed(seen: seq<Found>, registered: seq<string>, filename: string)
      requires registered == Names(FirstOccurrences(seen))
      ensures filename in registered <==> NameListed(filename, seen)
    {
      FirstOccurrencesListed(seen);
      var r := FirstOccurrences(seen);
      if NameListed(filename, r) {
        var k :| 0 <= k < |r| && r[k].filename == filename;
        assert registered[k] == filename;
      }
      if filename in registered {
        var k :| 0 <= k < |registered| && registered[k] == filename;
        assert r[k].filename == filename;
      }
    }

    static lemma PositionUnique(list: seq<SchemeColors>, s: SchemeColors, pos: nat)
      requires pos <= |list|
      requires forall k :: 0 <= k < pos ==> !LessCI(s.name, list[k].name)
      requires pos < |list| ==> LessCI(s.name, list[pos].name)
      ensures pos == InsertPosition(list, s)
    {
    }

    /** rowCount: no rows under a valid parent, one row per scheme otherwise. */
    function RowCount(parentIsValid: bool): (n: nat)
      reads this
      ensures n == (if parentIsValid then 0 else |schemes|)
    {
      if parentIsValid then 0 else |schemes|
    }

    /** data(index, role), for an index of the given validity, row and column. */
    function Data(valid: bool, row: int, column: int, role: int): Variant
      reads this
    {
      if !valid || column != 0 || row < 0 || row >= |schemes| then Empty
      else
        var d := schemes[row];
        if role == DisplayRole then
          if row == 0 then Text("Default")
          else if row == 1 && currentOptionIsShown then Text("Current Window")
          else Text(d.name)
        else if role == FileRole then
          if row == 0 then Text("_default_")
          else if row == 1 && currentOptionIsShown then Text("_current_")
          else Text(d.file)
        else if role == BackgroundColorRole then ColorValue(d.background)
        else if role == TextColorRole then ColorValue(d.text)
        else Empty
    }

    /** A value is returned exactly for a valid index in column 0 of an existing row and one of the four roles. */
    lemma DataPresent(valid: bool, row: int, column: int, role: int)
      ensures Data(valid, row, column, role) != Empty <==>
        valid && column == 0 && 0 <= row < RowCount(false)
        && role in {DisplayRole, FileRole, BackgroundColorRole, TextColorRole}
    {
    }

    /** backgroundOf: the row's background colour, transparent outside the list. */
    function BackgroundOf(index: int): (c: Color)
      reads this
      ensures 0 <= index < |schemes| ==> Data(true, index, 0, BackgroundColorRole) == ColorValue(c)
      ensures !(0 <= index < |schemes|) ==> c == Transparent && Data(true, index, 0, BackgroundColorRole) == Empty
    {
      if 0 <= index < |schemes| then schemes[index].background else Transparent
    }

    /** The index indexOf returns for `file`. */
    function FileIndex(file: string): (r: int)
      reads this
      ensures r == 0 || r == 1 || r == -1 || (0 <= r < |schemes| && schemes[r].file == file)
    {
      if file == "" || file == "_default_" then 0
      else if file == "_current_" then 1
      else FirstWithFile(schemes, file)
    }

    /** indexOf: the special names first, then the first scheme whose file is `file`, else -1. */
    method IndexOf(file: string) returns (r: int)
      ensures r == FileIndex(file)
      ensures file != "" && file != "_default_" && file != "_current_" ==>
        (r == -1 <==> forall k :: 0 <= k < |schemes| ==> schemes[k].file != file)
      ensures file != "" && file != "_default_" && file != "_current_" && r != -1 ==>
        0 <= r < |schemes| && schemes[r].file == file && forall k :: 0 <= k < r ==> schemes[k].file != file
    {
      if file == "" || file == "_default_" {
        return 0;
      }
      if file == "_current_" {
        return 1;
      }
      var i := 0;
      while i < |schemes|
        invariant 0 <= i <= |schemes|
        invariant forall k :: 0 <= k < i ==> schemes[k].file != file
      {
        if schemes[i].file == file {
          FirstWithFileIs(schemes, file, i);
          return i;
        }
        i := i + 1;
      }
      FirstWithFileIs(schemes, file, -1);
      return -1;
    }

    /**
     * indexOf inverts the file role: the file value shown for any row leads
     * back to that row, when scheme files are distinct and none uses a
     * special name.
     */
    lemma IndexOfFileRole(row: int)
      requires 0 <= row < |schemes|
      requires forall i, j :: 0 <= i < j < |schemes| ==> schemes[i].file != schemes[j].file
      requires forall i :: 0 <= i < |schemes| ==> schemes[i].file !in {"", "_default_", "_current_"}
      ensures Data(true, row, 0, FileRole).Text? && FileIndex(Data(true, row, 0, FileRole).s) == row
    {
      var file := Data(true, row, 0, FileRole).s;
      if row != 0 && !(row == 1 && currentOptionIsShown) {
        assert file == schemes[row].file;
        FirstWithFileIs(schemes, file, row);
      }
    }
  }

  /** The index of the first scheme whose file is `file`, or -1. */
  function FirstWithFile(list: seq<SchemeColors>, file: string): (r: int)
    ensures -1 <= r < |list|
    ensures r >= 0 ==> list[r].file == file
    ensures forall k :: 0 <= k < (if r == -1 then |list| else r) ==> list[k].file != file
    decreases |list|
  {
    if list == [] then -1
    else if list[0].file == file then 0
    else
      var r := FirstWithFile(list[1..], file);
      if r == -1 then -1 else r + 1
  }

  /** FirstWithFile is the first matching index, -1 when there is none. */
  lemma {:induction false} FirstWithFileIs(list: seq<SchemeColors>, file: string, r: int)
    requires -1 <= r < |list|
    requires r >= 0 ==> list[r].file == file
    requires forall k :: 0 <= k < (if r == -1 then |list| else r) ==> list[k].file != file
    ensures FirstWithFile(list, file) == r
    decreases |list|
  {
    if list != [] && list[0].file != file {
      FirstWithFileIs(list[1..], file, if r == -1 then -1 else r - 1);
    }
  }
}
