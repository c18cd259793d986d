/**
 * The label helpers of the applet's QML side (package/contents/code/util.js):
 * HTML escaping of a menu label and the underlining of its escaped mnemonic.
 * Strings are sequences of Unicode scalar values, not of the UTF-16 code
 * units JavaScript works on.
 */
module HtmlUtil {
  import opened QtStrings

  const Amp: string := "&amp;"
  const Lt: string := "&lt;"
  const Gt: string := "&gt;"

  /** The escaped form of one character (the callback of toHtmlEscaped). */
  function EscapeChar(c: char): string
  {
    if c == '&' then Amp else if c == '<' then Lt else if c == '>' then Gt else [c]
  }

  /** toHtmlEscaped: `s.replace(/[&<>]/g, ...)`, one character at a time. */
  function ToHtmlEscaped(s: string): (r: string)
    ensures '<' !in r && '>' !in r
    ensures |r| >= |s|
    decreases |s|
  {
    if s == [] then []
    else EscapeChar(s[0]) + ToHtmlEscaped(s[1..])
  }

  /** Reads the three entities back; any other text is copied. The independent inverse of ToHtmlEscaped. */
  function FromHtmlEscaped(s: string): string
    decreases |s|
  {
    if s == [] then []
    else if StartsWith(s, Amp) then "&" + FromHtmlEscaped(s[|Amp|..])
    else if StartsWith(s, Lt) then "<" + FromHtmlEscaped(s[|Lt|..])
    else if StartsWith(s, Gt) then ">" + FromHtmlEscaped(s[|Gt|..])
    else [s[0]] + FromHtmlEscaped(s[1..])
  }

  /** JavaScript's line terminators, which `.` does not match. */
  predicate IsLineTerminator(c: char)
  {
    c == '\n' || c == '\r' || c == '\U{2028}' || c == '\U{2029}'
  }

  /** underlineAmpersands(match, p): the replacement for one match with group `p`. */
  function UnderlineAmpersands(p: string): (r: string)
    ensures p == Amp ==> r == Amp
    ensures p != Amp ==> r == "<u>" + p + "</u>"
  {
    if p == Amp then p else "<u>" + p + "</u>"
  }

  /**
   * The index of the first alternative of the group that `rest` starts with,
   * or |groups| when none does.
   */
  function MatchGroup(rest: string, groups: seq<string>): (k: nat)
    ensures k <= |groups|
    ensures k < |groups| ==> StartsWith(rest, groups[k])
    ensures forall j :: 0 <= j < k ==> !StartsWith(rest, groups[j])
  {
    if groups == [] then 0
    else if StartsWith(rest, groups[0]) then 0
    else 1 + MatchGroup(rest, groups[1..])
  }

  /**
   * `text.replace(/&amp;(g1|...|gn|.)/g, underlineAmpersands)` for the literal
   * alternatives `groups`: the expression is tried at each position from the
   * left; after a match the scan resumes behind it, otherwise one character
   * is copied.
   */
  function StylizeWith(s: string, groups: seq<string>): string
    decreases |s|
  {
    if s == [] then []
    else if StartsWith(s, Amp) && |s| > |Amp| then
      var rest := s[|Amp|..];
      var k := MatchGroup(rest, groups);
      if k < |groups| then UnderlineAmpersands(groups[k]) + StylizeWith(rest[|groups[k]|..], groups)
      else if !IsLineTerminator(rest[0]) then UnderlineAmpersands([rest[0]]) + StylizeWith(rest[1..], groups)
      else [s[0]] + StylizeWith(s[1..], groups)
    else [s[0]] + StylizeWith(s[1..], groups)
  }

  /** stylizeEscapedMnemonics: `text.replace(/&amp;(&amp;|.)/g, underlineAmpersands)`. */
  function StylizeEscapedMnemonics(text: string): string
  {
    StylizeWith(text, [Amp])
  }

  /**
   * The same scan with the two other entities as alternatives, so that an
   * escaped `<` or `>` mnemonic is underlined as a whole entity.
   */
  function StylizeEscapedMnemonicsEntityAware(text: string): string
  {
    StylizeWith(text, [Amp, Lt, Gt])
  }

  /** Alternatives that are entities: non-empty and starting with `&`. */
  predicate EntityGroups(groups: seq<string>)
  {
    forall k :: 0 <= k < |groups| ==> groups[k] != [] && groups[k][0] == '&'
  }

  lemma EscapeCharRoundTrip(c: char, r: string)
    ensures FromHtmlEscaped(EscapeChar(c) + r) == [c] + FromHtmlEscaped(r)
  {
    var e := EscapeChar(c) + r;
    if c == '&' {
      assert e[..|Amp|] == Amp && e[|Amp|..] == r;
    } else if c == '<' {
      assert e[..|Lt|] == Lt && e[|Lt|..] == r;
      assert !StartsWith(e, Amp) by { assert e[1] != Amp[1]; }
    } else if c == '>' {
      assert e[..|Gt|] == Gt && e[|Gt|..] == r;
      assert !StartsWith(e, Amp) by { assert e[1] != Amp[1]; }
      assert !StartsWith(e, Lt) by { assert e[1] != Lt[1]; }
    } else {
      assert e[0] == c && e[1..] == r;
      assert !StartsWith(e, Amp) && !StartsWith(e, Lt) && !StartsWith(e, Gt) by { assert e[0] != '&'; }
    }
  }

  /** Reading an escaped label back gives the label. */
  lemma {:induction false} EscapeRoundTrip(s: string)
    ensures FromHtmlEscaped(ToHtmlEscaped(s)) == s
    decreases |s|
  {
    if s != [] {
      EscapeRoundTrip(s[1..]);
      EscapeCharRoundTrip(s[0], ToHtmlEscaped(s[1..]));
      assert [s[0]] + s[1..] == s;
    }
  }

  /** Escaping distributes over concatenation. */
  lemma {:induction false} EscapeAppend(a: string, b: string)
    ensures ToHtmlEscaped(a + b) == ToHtmlEscaped(a) + ToHtmlEscaped(b)
    decreases |a|
  {
    if a == [] {
      assert a + b == b;
    } else {
      assert (a + b)[0] == a[0] && (a + b)[1..] == a[1..] + b;
      EscapeAppend(a[1..], b);
      AppendAssoc(EscapeChar(a[0]), ToHtmlEscaped(a[1..]), ToHtmlEscaped(b));
    }
  }

  /** Every character other than `&`, `<` and `>` is copied unchanged and in order. */
  lemma {:induction false} EscapeKeepsPlainText(s: string)
    requires '&' !in s && '<' !in s && '>' !in s
    ensures ToHtmlEscaped(s) == s
    decreases |s|
  {
    if s != [] {
      assert s[1..] == s[1..] && forall i :: 0 <= i < |s[1..]| ==> s[1..][i] == s[i + 1];
      EscapeKeepsPlainText(s[1..]);
      assert [s[0]] + s[1..] == s;
    }
  }

  /** Text without `&` is copied by the scan. */
  lemma {:induction false} StylizePlainPrefix(a: string, r: string, groups: seq<string>)
    requires '&' !in a
    ensures StylizeWith(a + r, groups) == a + StylizeWith(r, groups)
    decreases |a|
  {
    if a == [] {
      assert a + r == r;
    } else {
      var s := a + r;
      assert s[0] == a[0] && s[1..] == a[1..] + r;
      assert !StartsWith(s, Amp) by { assert s[0] != Amp[0]; }
      TailHasNo(a, '&');
      StylizePlainPrefix(a[1..], r, groups);
      assert StylizeWith(s, groups) == [a[0]] + (a[1..] + StylizeWith(r, groups));
      AppendAssoc([a[0]], a[1..], StylizeWith(r, groups));
      assert [a[0]] + a[1..] == a;
    }
  }

  /** An escaped label without `&` is copied by the scan: its `&lt;` and `&gt;` do not match. */
  lemma {:induction false} StylizeEscapedPrefix(a: string, r: string, groups: seq<string>)
    requires '&' !in a
    ensures StylizeWith(ToHtmlEscaped(a) + r, groups) == ToHtmlEscaped(a) + StylizeWith(r, groups)
    decreases |a|
  {
    if a == [] {
      assert ToHtmlEscaped(a) + r == r;
    } else {
      TailHasNo(a, '&');
      StylizeEscapedPrefix(a[1..], r, groups);
      var tail := ToHtmlEscaped(a[1..]) + r;
      var e := EscapeChar(a[0]);
      AppendAssoc(e, ToHtmlEscaped(a[1..]), r);
      if a[0] == '<' || a[0] == '>' {
        var s := e + tail;
        assert s[0] == '&' && s[1..] == e[1..] + tail;
        assert !StartsWith(s, Amp) by { assert s[1] != Amp[1]; }
        assert '&' !in e[1..];
        StylizePlainPrefix(e[1..], tail, groups);
        AppendAssoc([s[0]], e[1..], StylizeWith(tail, groups));
        assert [s[0]] + e[1..] == e;
      } else {
        StylizePlainPrefix(e, tail, groups);
      }
      AppendAssoc(e, ToHtmlEscaped(a[1..]), StylizeWith(r, groups));
    }
  }

  /** Text in which `&amp;` does not occur is left unchanged. */
  lemma {:induction false} StylizeWithoutAmp(s: string, groups: seq<string>)
    requires !Occurs(s, Amp)
    ensures StylizeWith(s, groups) == s
    decreases |s|
  {
    if s != [] {
      StylizeWithoutAmp(s[1..], groups);
      assert [s[0]] + s[1..] == s;
    }
  }

  /** A trailing `&amp;` with nothing after it is left unchanged. */
  lemma StylizeTrailingAmp(a: string, groups: seq<string>)
    requires '&' !in a
    ensures StylizeWith(a + Amp, groups) == a + Amp
  {
    StylizePlainPrefix(a, Amp, groups);
    var t := Amp[1..];
    assert '&' !in t;
    StylizePlainPrefix(t, [], groups);
    assert t + [] == t && [Amp[0]] + t == Amp;
  }

  /** `&amp;&amp;` (an escaped doubled ampersand) becomes a single `&amp;`. */
  lemma StylizeDoubledAmp(r: string, groups: seq<string>)
    requires |groups| >= 1 && groups[0] == Amp
    ensures StylizeWith(Amp + Amp + r, groups) == Amp + StylizeWith(r, groups)
  {
    var s := Amp + Amp + r;
    assert s[..|Amp|] == Amp && s[|Amp|..] == Amp + r;
    assert (Amp + r)[..|Amp|] == Amp && (Amp + r)[|Amp|..] == r;
  }

  /** `&amp;` followed by a character `c` that is no line terminator and starts no alternative becomes `<u>c</u>`. */
  lemma StylizeUnderlined(c: char, r: string, groups: seq<string>)
    requires EntityGroups(groups) && c != '&' && !IsLineTerminator(c)
    ensures StylizeWith(Amp + [c] + r, groups) == "<u>" + [c] + "</u>" + StylizeWith(r, groups)
  {
    var s := Amp + [c] + r;
    var rest := [c] + r;
    assert s[..|Amp|] == Amp && s[|Amp|..] == rest;
    assert MatchGroup(rest, groups) == |groups| by {
      forall k | 0 <= k < |groups| ensures !StartsWith(rest, groups[k]) {
        assert rest[0] != groups[k][0];
      }
      MatchNone(rest, groups);
    }
    assert rest[1..] == r;
    assert UnderlineAmpersands([c]) == "<u>" + [c] + "</u>";
  }

  lemma {:induction false} MatchNone(rest: string, groups: seq<string>)
    requires forall k :: 0 <= k < |groups| ==> !StartsWith(rest, groups[k])
    ensures MatchGroup(rest, groups) == |groups|
    decreases |groups|
  {
    if groups != [] {
      MatchNone(rest, groups[1..]);
    }
  }

  /** The escaped form of a label `a m b` is the escaped parts in place. */
  lemma EscapedLabel(a: string, m: string, b: string)
    ensures ToHtmlEscaped(a + m + b) == ToHtmlEscaped(a) + ToHtmlEscaped(m) + ToHtmlEscaped(b)
  {
    EscapeAppend(a + m, b);
    EscapeAppend(a, m);
  }

  /** The escaped mnemonic marker `&c`. */
  lemma EscapedMnemonic(c: char)
    ensures ToHtmlEscaped(['&', c]) == Amp + EscapeChar(c)
  {
    assert ['&', c][1..] == [c];
    assert ToHtmlEscaped([c]) == EscapeChar(c) + ToHtmlEscaped([]);
  }

  /**
   * The scan over an escaped label `a m b` with `a` and `b` free of `&`:
   * only the middle part `m` can change.
   */
  lemma StylizeAround(a: string, mid: string, b: string, out: string, groups: seq<string>)
    requires '&' !in a && '&' !in b
    requires StylizeWith(mid + ToHtmlEscaped(b), groups) == out + StylizeWith(ToHtmlEscaped(b), groups)
    ensures StylizeWith(ToHtmlEscaped(a) + mid + ToHtmlEscaped(b), groups)
      == ToHtmlEscaped(a) + out + ToHtmlEscaped(b)
  {
    var ea, eb := ToHtmlEscaped(a), ToHtmlEscaped(b);
    AppendAssoc(ea, mid, eb);
    StylizeEscapedPrefix(a, mid + eb, groups);
    StylizeEscapedPrefix(b, [], groups);
    assert eb + [] == eb;
    AppendAssoc(ea, out, eb);
  }

  /**
   * A label with one mnemonic `&c` (c an ordinary character) is shown escaped,
   * with exactly `c` underlined.
   */
  lemma LabelMnemonicUnderlined(a: string, c: char, b: string, groups: seq<string>)
    requires '&' !in a && '&' !in b && EntityGroups(groups)
    requires c != '&' && c != '<' && c != '>' && !IsLineTerminator(c)
    ensures StylizeWith(ToHtmlEscaped(a + ['&', c] + b), groups)
      == ToHtmlEscaped(a) + ("<u>" + [c] + "</u>") + ToHtmlEscaped(b)
  {
    EscapedLabel(a, ['&', c], b);
    EscapedMnemonic(c);
    StylizeUnderlined(c, ToHtmlEscaped(b), groups);
    StylizeAround(a, Amp + [c], b, "<u>" + [c] + "</u>", groups);
  }

  /** A doubled `&&` in a label, a literal ampersand, is shown as one escaped `&amp;` and underlines nothing. */
  lemma LabelDoubledAmpersand(a: string, b: string, groups: seq<string>)
    requires '&' !in a && '&' !in b && |groups| >= 1 && groups[0] == Amp
    ensures StylizeWith(ToHtmlEscaped(a + "&&" + b), groups) == ToHtmlEscaped(a) + Amp + ToHtmlEscaped(b)
  {
    EscapedLabel(a, "&&", b);
    EscapedMnemonic('&');
    assert ['&', '&'] == "&&";
    StylizeDoubledAmp(ToHtmlEscaped(b), groups);
    StylizeAround(a, Amp + Amp, b, Amp, groups);
  }

  /**
   * As written, a `<` mnemonic ("&<") underlines the entity's ampersand and
   * leaves "lt;" behind: the label is shown as "&lt;" instead of "<".
   */
  lemma LessThanMnemonicAsWritten()
    ensures ToHtmlEscaped("&<") == Amp + Lt
    ensures StylizeEscapedMnemonics(ToHtmlEscaped("&<")) == "<u>&</u>lt;"
  {
    assert "&<"[1..] == "<";
    assert ToHtmlEscaped("<") == Lt + ToHtmlEscaped([]);
    var s := Amp + Lt;
    assert s[..|Amp|] == Amp && s[|Amp|..] == Lt;
    assert !StartsWith(Lt, Amp) by { assert Lt[1] != Amp[1]; }
    assert Lt[1..] == "lt;";
    StylizePlainPrefix("lt;", [], [Amp]);
    assert "lt;" + [] == "lt;";
  }

  /** With the entities as alternatives, `&amp;` followed by an entity underlines the whole entity. */
  lemma StylizeEntity(e: string, r: string)
    requires e == Lt || e == Gt
    ensures StylizeWith(Amp + e + r, [Amp, Lt, Gt]) == "<u>" + e + "</u>" + StylizeWith(r, [Amp, Lt, Gt])
  {
    var groups := [Amp, Lt, Gt];
    var s := Amp + e + r;
    var rest := e + r;
    assert s[..|Amp|] == Amp && s[|Amp|..] == rest;
    assert rest[..|e|] == e && rest[|e|..] == r;
    assert !StartsWith(rest, Amp) by { assert rest[1] != Amp[1]; }
    if e == Gt {
      assert !StartsWith(rest, Lt) by { assert rest[1] != Lt[1]; }
      assert StartsWith(rest, Gt);
      assert MatchGroup(rest, [Gt]) == 0;
      assert [Lt, Gt][1..] == [Gt];
      assert MatchGroup(rest, [Lt, Gt]) == 1;
      assert groups[1..] == [Lt, Gt];
    } else {
      assert MatchGroup(rest, groups) == 1 by {
        assert groups[1..] == [Lt, Gt];
      }
    }
  }

  /**
   * With the entities as alternatives, the mnemonic of a label `a & c b` is
   * underlined as its whole escaped form, for every character c that is not
   * `&` or a line terminator, `<` and `>` included.
   */
  lemma EntityAwareUnderlinesMnemonic(a: string, c: char, b: string)
    requires '&' !in a && '&' !in b && c != '&' && !IsLineTerminator(c)
    ensures StylizeEscapedMnemonicsEntityAware(ToHtmlEscaped(a + ['&', c] + b))
      == ToHtmlEscaped(a) + ("<u>" + EscapeChar(c) + "</u>") + ToHtmlEscaped(b)
  {
    var groups := [Amp, Lt, Gt];
    EscapedLabel(a, ['&', c], b);
    EscapedMnemonic(c);
    if c == '<' || c == '>' {
      StylizeEntity(EscapeChar(c), ToHtmlEscaped(b));
    } else {
      StylizeUnderlined(c, ToHtmlEscaped(b), groups);
    }
    StylizeAround(a, Amp + EscapeChar(c), b, "<u>" + EscapeChar(c) + "</u>", groups);
  }
}
