/**
 * The QString / QStringList operations the core relies on: replace,
 * split (keeping empty parts), join and startsWith.
 */
module QtStrings {

  /** `pat` occurs in `s` at position 0. */
  predicate StartsWith(s: string, pat: string)
  {
    |pat| <= |s| && s[..|pat|] == pat
  }

  /** `pat` occurs somewhere in `s`. */
  predicate Occurs(s: string, pat: string)
    decreases |s|
  {
    StartsWith(s, pat) || (s != [] && Occurs(s[1..], pat))
  }

  /** QString::replace(before, after): every occurrence, scanned left to right, without overlap. */
  function ReplaceAll(s: string, before: string, after: string): string
    requires before != []
    decreases |s|
  {
    if |s| < |before| then s
    else if StartsWith(s, before) then after + ReplaceAll(s[|before|..], before, after)
    else [s[0]] + ReplaceAll(s[1..], before, after)
  }

  /** Adds `c` in front of the first part of a non-empty split result. */
  function PrependChar(c: char, parts: seq<string>): (r: seq<string>)
    requires |parts| >= 1
    ensures |r| == |parts| && r[0] == [c] + parts[0] && r[1..] == parts[1..]
  {
    [[c] + parts[0]] + parts[1..]
  }

  /** QString::split(sep) with empty parts kept: the pieces between non-overlapping separators. */
  function Split(s: string, sep: string): (r: seq<string>)
    requires sep != []
    ensures |r| >= 1
    decreases |s|
  {
    if |s| < |sep| then [s]
    else if StartsWith(s, sep) then [[]] + Split(s[|sep|..], sep)
    else PrependChar(s[0], Split(s[1..], sep))
  }

  /** QStringList::join(sep). */
  function Join(parts: seq<string>, sep: string): string
    decreases |parts|
  {
    if parts == [] then []
    else if |parts| == 1 then parts[0]
    else parts[0] + sep + Join(parts[1..], sep)
  }

  /** Case folding (and lower-casing) of one character, for ASCII letters only. */
  function FoldChar(c: char): char
  {
    if 'A' <= c <= 'Z' then (c as int + 32) as char else c
  }

  /** The case-folded string Qt::CaseInsensitive compares. */
  function Fold(s: string): (r: string)
    ensures |r| == |s|
    ensures forall i :: 0 <= i < |s| ==> r[i] == FoldChar(s[i])
  {
    seq(|s|, i requires 0 <= i < |s| => FoldChar(s[i]))
  }

  /** Two characters that are the same, or the same ASCII letter in either case. */
  predicate SameIgnoringCase(a: char, b: char)
  {
    a == b || ('A' <= a <= 'Z' && b as int == a as int + 32) || ('A' <= b <= 'Z' && a as int == b as int + 32)
  }

  /** Folding leaves no ASCII capital behind, so folding twice is folding once. */
  lemma {:induction false} FoldIdempotent(s: string)
    ensures forall i :: 0 <= i < |s| ==> !('A' <= Fold(s)[i] <= 'Z')
    ensures Fold(Fold(s)) == Fold(s)
  {
    var f := Fold(s);
    assert forall i :: 0 <= i < |f| ==> Fold(f)[i] == f[i];
  }

  /** Two strings fold to the same string exactly when they agree character by character up to ASCII case. */
  lemma {:induction false} FoldEqualIff(s: string, t: string)
    ensures Fold(s) == Fold(t) <==> |s| == |t| && forall i :: 0 <= i < |s| ==> SameIgnoringCase(s[i], t[i])
  {
    if Fold(s) == Fold(t) {
      forall i | 0 <= i < |s|
        ensures SameIgnoringCase(s[i], t[i])
      {
        assert FoldChar(s[i]) == Fold(s)[i] == Fold(t)[i] == FoldChar(t[i]);
      }
    }
    if |s| == |t| && forall i :: 0 <= i < |s| ==> SameIgnoringCase(s[i], t[i]) {
      forall i | 0 <= i < |s|
        ensures Fold(s)[i] == Fold(t)[i]
      {
        assert SameIgnoringCase(s[i], t[i]);
      }
    }
  }

  lemma AppendAssoc(a: string, b: string, c: string)
    ensures (a + b) + c == a + (b + c)
  {
  }

  lemma JoinPrepend(c: char, parts: seq<string>, sep: string)
    requires |parts| >= 1
    ensures Join(PrependChar(c, parts), sep) == [c] + Join(parts, sep)
  {
    var p := PrependChar(c, parts);
    if |parts| > 1 {
      assert p[1..] == parts[1..];
      AppendAssoc([c], parts[0], sep + Join(parts[1..], sep));
    }
  }

  /** Joining the parts of a split with the same separator gives back the string. */
  lemma {:induction false} JoinSplit(s: string, sep: string)
    requires sep != []
    ensures Join(Split(s, sep), sep) == s
    decreases |s|
  {
    if |s| < |sep| {
    } else if StartsWith(s, sep) {
      var rest := Split(s[|sep|..], sep);
      var parts: seq<string> := [[]] + rest;
      assert Split(s, sep) == parts;
      JoinSplit(s[|sep|..], sep);
      assert parts[0] == [] && parts[1..] == rest && |parts| > 1;
      assert Join(parts, sep) == [] + sep + Join(rest, sep);
      assert s == s[..|sep|] + s[|sep|..];
    } else {
      var rest := Split(s[1..], sep);
      assert Split(s, sep) == PrependChar(s[0], rest);
      JoinSplit(s[1..], sep);
      JoinPrepend(s[0], rest, sep);
      assert s == [s[0]] + s[1..];
    }
  }

  /** A string in which `before` does not occur is left unchanged by replace. */
  lemma {:induction false} ReplaceAbsent(s: string, before: string, after: string)
    requires before != [] && !Occurs(s, before)
    ensures ReplaceAll(s, before, after) == s
    decreases |s|
  {
    if |s| >= |before| {
      ReplaceAbsent(s[1..], before, after);
      assert s == [s[0]] + s[1..];
    }
  }

  /** Replacing by a string of the same length keeps the length. */
  lemma {:induction false} ReplaceAllLength(s: string, before: string, after: string)
    requires before != [] && |before| == |after|
    ensures |ReplaceAll(s, before, after)| == |s|
    decreases |s|
  {
    if |s| < |before| {
    } else if StartsWith(s, before) {
      ReplaceAllLength(s[|before|..], before, after);
    } else {
      ReplaceAllLength(s[1..], before, after);
    }
  }

  /** No part of a split contains the separator. */
  lemma {:induction false} SplitPartsFree(s: string, sep: string)
    requires sep != []
    ensures forall i :: 0 <= i < |Split(s, sep)| ==> !Occurs(Split(s, sep)[i], sep)
    decreases |s|
  {
    var r := Split(s, sep);
    if |s| < |sep| {
      ShortFree(s, sep);
    } else if StartsWith(s, sep) {
      SplitPartsFree(s[|sep|..], sep);
      assert !Occurs([], sep);
      assert forall i :: 1 <= i < |r| ==> r[i] == Split(s[|sep|..], sep)[i - 1];
    } else {
      var rest := Split(s[1..], sep);
      SplitPartsFree(s[1..], sep);
      assert r[0] == [s[0]] + rest[0];
      SplitFirstIsPrefix(s, sep);
      assert ([s[0]] + rest[0])[1..] == rest[0];
      assert forall i :: 1 <= i < |r| ==> r[i] == rest[i];
    }
  }

  /** The first part of a split is a prefix of the string. */
  lemma {:induction false} SplitFirstIsPrefix(s: string, sep: string)
    requires sep != []
    ensures |Split(s, sep)[0]| <= |s| && Split(s, sep)[0] == s[..|Split(s, sep)[0]|]
    decreases |s|
  {
    if |s| < |sep| {
    } else if StartsWith(s, sep) {
    } else {
      SplitFirstIsPrefix(s[1..], sep);
      var p := Split(s[1..], sep)[0];
      assert s[..|p| + 1] == [s[0]] + s[1..][..|p|];
    }
  }

  lemma {:induction false} ShortFree(s: string, sep: string)
    requires sep != [] && |s| < |sep|
    ensures !Occurs(s, sep)
    decreases |s|
  {
    if s != [] {
      ShortFree(s[1..], sep);
    }
  }

  /** A string whose first character does not occur in `s` does not occur in `s`. */
  lemma {:induction false} AbsentFirstChar(s: string, pat: string)
    requires pat != [] && pat[0] !in s
    ensures !Occurs(s, pat)
    decreases |s|
  {
    if s != [] {
      assert pat[0] !in s[1..] by { assert forall i :: 0 <= i < |s[1..]| ==> s[1..][i] == s[i + 1]; }
      AbsentFirstChar(s[1..], pat);
    }
  }

  lemma SkipsWithoutFirstChar(s: string, before: string, after: string)
    requires before != [] && before[0] !in s
    ensures ReplaceAll(s, before, after) == s
  {
    AbsentFirstChar(s, before);
    ReplaceAbsent(s, before, after);
  }

  /** Replacing a whole string. */
  lemma ReplaceWhole(s: string, after: string)
    requires s != []
    ensures ReplaceAll(s, s, after) == after
  {
    assert s[|s|..] == [];
    assert after + [] == after;
  }

  lemma TailHasNo(s: string, c: char)
    requires s != [] && c !in s
    ensures c !in s[1..]
  {
    assert forall i :: 0 <= i < |s[1..]| ==> s[1..][i] == s[i + 1];
  }

  /** Replace copies a stretch that cannot start an occurrence, then replaces the occurrence after it. */
  lemma {:induction false} ReplaceAfterPlain(a: string, before: string, after: string, b: string)
    requires before != [] && before[0] !in a
    ensures ReplaceAll(a + before + b, before, after) == a + after + ReplaceAll(b, before, after)
    decreases |a|
  {
    if a == [] {
      assert a + before + b == before + b;
      assert (before + b)[..|before|] == before && (before + b)[|before|..] == b;
    } else {
      var s := a + before + b;
      assert s[0] == a[0] && s[1..] == a[1..] + before + b;
      TailHasNo(a, before[0]);
      ReplaceAfterPlain(a[1..], before, after, b);
      assert !StartsWith(s, before) by { assert s[0] != before[0]; }
      AppendAssoc([a[0]], a[1..] + after, ReplaceAll(b, before, after));
      assert [a[0]] + (a[1..] + after) == a + after;
    }
  }

  /** Split cuts at the first separator when the stretch before it cannot start one. */
  lemma {:induction false} SplitAfterPlain(a: string, sep: string, b: string)
    requires sep != [] && sep[0] !in a
    ensures Split(a + sep + b, sep) == [a] + Split(b, sep)
    decreases |a|
  {
    if a == [] {
      assert a + sep + b == sep + b;
      assert (sep + b)[..|sep|] == sep && (sep + b)[|sep|..] == b;
    } else {
      var s := a + sep + b;
      assert s[0] == a[0] && s[1..] == a[1..] + sep + b;
      TailHasNo(a, sep[0]);
      SplitAfterPlain(a[1..], sep, b);
      assert !StartsWith(s, sep) by { assert s[0] != sep[0]; }
      assert [a[0]] + a[1..] == a;
    }
  }

  /** A string in which the separator's first character does not occur is one part. */
  lemma {:induction false} SplitPlain(a: string, sep: string)
    requires sep != [] && sep[0] !in a
    ensures Split(a, sep) == [a]
    decreases |a|
  {
    if |a| >= |sep| {
      TailHasNo(a, sep[0]);
      SplitPlain(a[1..], sep);
      assert !StartsWith(a, sep) by { assert a[0] != sep[0]; }
      assert [a[0]] + a[1..] == a;
    }
  }
}
