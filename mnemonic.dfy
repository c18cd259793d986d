/**
 * Translation of a label's mnemonic marker between two conventions
 * (`_File` on the bus, `&File` in the widget toolkit), as done by
 * swapMnemonicChar in plugin/libdbusmenuqt/utils.cpp.
 */
module Mnemonic {
  import opened QtStrings

  /** `s` with every `dst` character doubled (its escaped form in the `dst` convention). */
  function Escaped(s: string, dst: char): (r: string)
    ensures |r| >= |s|
  {
    if s == [] then []
    else (if s[0] == dst then [dst, dst] else [s[0]]) + Escaped(s[1..], dst)
  }

  /**
   * What swapMnemonicChar appends for the unread rest `s` of its input,
   * given whether it has already emitted the mnemonic (`found`).
   */
  function Swapped(s: string, src: char, dst: char, found: bool): string
  {
    if s == [] then []
    else if s[0] == src then
      if |s| == 1 then []                                   // trailing src is skipped
      else if s[1] == src then [src] + Swapped(s[2..], src, dst, found)  // doubled src is a literal src
      else if !found then [dst] + Swapped(s[1..], src, dst, true)       // the first lone src is the mnemonic
      else Swapped(s[1..], src, dst, found)                 // later lone src are dropped
    else if s[0] == dst then [dst, dst] + Swapped(s[1..], src, dst, found)
    else [s[0]] + Swapped(s[1..], src, dst, found)
  }

  /** swapMnemonicChar(in, src, dst): the loop over `pos` with the `mnemonicFound` flag. */
  method SwapMnemonicChar(input: string, src: char, dst: char) returns (out: string)
    ensures out == Swapped(input, src, dst, false)
  {
    out := [];
    var mnemonicFound := false;
    var pos := 0;
    while pos < |input|
      invariant 0 <= pos <= |input|
      invariant out + Swapped(input[pos..], src, dst, mnemonicFound) == Swapped(input, src, dst, false)
      decreases |input| - pos
    {
      var ch := input[pos];
      SwappedAt(input, pos, src, dst, mnemonicFound);
      var emit: string := [];
      var step := 1;
      if ch == src {
        if pos == |input| - 1 {
        } else if input[pos + 1] == src {
          emit := [src];
          step := 2;
        } else if !mnemonicFound {
          mnemonicFound := true;
          emit := [dst];
        }
      } else if ch == dst {
        emit := [dst, dst];
      } else {
        emit := [ch];
      }
      AppendAssoc(out, emit, Swapped(input[pos + step..], src, dst, mnemonicFound));
      out := out + emit;
      pos := pos + step;
    }
    assert input[pos..] == [];
  }

  /** One step of the scan at position `pos`, as the loop of SwapMnemonicChar takes it. */
  lemma SwappedAt(s: string, pos: nat, src: char, dst: char, found: bool)
    requires pos < |s|
    ensures Swapped(s[pos..], src, dst, found) ==
      if s[pos] == src then
        if pos == |s| - 1 then []
        else if s[pos + 1] == src then [src] + Swapped(s[pos + 2..], src, dst, found)
        else if !found then [dst] + Swapped(s[pos + 1..], src, dst, true)
        else Swapped(s[pos + 1..], src, dst, found)
      else if s[pos] == dst then [dst, dst] + Swapped(s[pos + 1..], src, dst, found)
      else [s[pos]] + Swapped(s[pos + 1..], src, dst, found)
  {
    var rest := s[pos..];
    assert rest[0] == s[pos] && rest[1..] == s[pos + 1..];
    if pos < |s| - 1 {
      assert rest[1] == s[pos + 1] && rest[2..] == s[pos + 2..];
    }
  }

  /** The output is at most twice as long as the input (each step reads 1 or 2 and writes at most 2). */
  lemma {:induction false} SwappedLength(s: string, src: char, dst: char, found: bool)
    ensures |Swapped(s, src, dst, found)| <= 2 * |s|
    decreases |s|
  {
    if s == [] {
    } else if s[0] == src {
      if |s| == 1 {
      } else if s[1] == src {
        SwappedLength(s[2..], src, dst, found);
      } else if !found {
        SwappedLength(s[1..], src, dst, true);
      } else {
        SwappedLength(s[1..], src, dst, found);
      }
    } else {
      SwappedLength(s[1..], src, dst, found);
    }
  }

  /**
   * A stretch without `src` is copied in order, every `dst` in it doubled,
   * and it does not change the mnemonic state.
   */
  lemma {:induction false} SwappedPlainPrefix(a: string, r: string, src: char, dst: char, found: bool)
    requires src !in a
    ensures Swapped(a + r, src, dst, found) == Escaped(a, dst) + Swapped(r, src, dst, found)
    decreases |a|
  {
    if a == [] {
      assert a + r == r;
    } else {
      assert (a + r)[0] == a[0] && (a + r)[1..] == a[1..] + r;
      SwappedPlainPrefix(a[1..], r, src, dst, found);
    }
  }

  /** Characters other than `src` and `dst` are copied unchanged and in order. */
  lemma CopiesPlainText(s: string, src: char, dst: char, found: bool)
    requires src !in s && dst !in s
    ensures Swapped(s, src, dst, found) == s
  {
    SwappedPlainPrefix(s, [], src, dst, found);
    assert s + [] == s;
    EscapedIdentity(s, dst);
  }

  lemma {:induction false} EscapedIdentity(s: string, dst: char)
    requires dst !in s
    ensures Escaped(s, dst) == s
    decreases |s|
  {
    if s != [] {
      assert dst !in s[1..] by { assert forall i :: 0 <= i < |s[1..]| ==> s[1..][i] == s[i + 1]; }
      EscapedIdentity(s[1..], dst);
    }
  }

  /** The first lone `src` (not doubled, not last) becomes `dst`; what precedes it is escaped. */
  lemma FirstLoneSrcIsMnemonic(a: string, b: string, src: char, dst: char)
    requires src !in a && b != [] && b[0] != src
    ensures Swapped(a + [src] + b, src, dst, false) == Escaped(a, dst) + [dst] + Swapped(b, src, dst, true)
  {
    assert a + [src] + b == a + ([src] + b);
    SwappedPlainPrefix(a, [src] + b, src, dst, false);
    assert ([src] + b)[1..] == b;
  }

  /** Once the mnemonic is found, a later lone `src` is dropped. */
  lemma LaterLoneSrcDropped(a: string, b: string, src: char, dst: char)
    requires src !in a && b != [] && b[0] != src
    ensures Swapped(a + [src] + b, src, dst, true) == Escaped(a, dst) + Swapped(b, src, dst, true)
  {
    assert a + [src] + b == a + ([src] + b);
    SwappedPlainPrefix(a, [src] + b, src, dst, true);
    assert ([src] + b)[1..] == b;
  }

  /** A doubled `src` is emitted once and consumes both characters. */
  lemma DoubledSrcIsLiteral(a: string, b: string, src: char, dst: char, found: bool)
    requires src !in a
    ensures Swapped(a + [src, src] + b, src, dst, found) == Escaped(a, dst) + [src] + Swapped(b, src, dst, found)
  {
    AppendAssoc(a, [src, src], b);
    SwappedPlainPrefix(a, [src, src] + b, src, dst, found);
    assert ([src, src] + b)[0] == src && ([src, src] + b)[1] == src && ([src, src] + b)[2..] == b;
    AppendAssoc(Escaped(a, dst), [src], Swapped(b, src, dst, found));
  }

  /** A `src` that is the last character is dropped. */
  lemma TrailingSrcDropped(a: string, src: char, dst: char, found: bool)
    requires src !in a
    ensures Swapped(a + [src], src, dst, found) == Escaped(a, dst)
  {
    SwappedPlainPrefix(a, [src], src, dst, found);
  }

  /** Reading back an escaped stretch in the opposite direction restores it. */
  lemma {:induction false} UnswapEscaped(a: string, r: string, src: char, dst: char, found: bool)
    requires src != dst && src !in a
    ensures Swapped(Escaped(a, dst) + r, dst, src, found) == a + Swapped(r, dst, src, found)
    decreases |a|
  {
    if a == [] {
      assert Escaped(a, dst) + r == r;
    } else {
      var head: string := if a[0] == dst then [dst, dst] else [a[0]];
      var rest := Escaped(a[1..], dst) + r;
      assert src !in a[1..] by { assert forall i :: 0 <= i < |a[1..]| ==> a[1..][i] == a[i + 1]; }
      UnswapEscaped(a[1..], r, src, dst, found);
      AppendAssoc(head, Escaped(a[1..], dst), r);
      assert Swapped(head + rest, dst, src, found) == [a[0]] + Swapped(rest, dst, src, found) by {
        if a[0] == dst {
          assert (head + rest)[0] == dst && (head + rest)[1] == dst && (head + rest)[2..] == rest;
        } else {
          assert (head + rest)[0] == a[0] && (head + rest)[1..] == rest;
        }
      }
      AppendAssoc([a[0]], a[1..], Swapped(r, dst, src, found));
      assert [a[0]] + a[1..] == a;
    }
  }

  /**
   * Round trip: a label with exactly one mnemonic marker, not last and not
   * in front of a `dst`, is restored by translating it back.
   */
  lemma RoundTripWithMnemonic(a: string, b: string, src: char, dst: char)
    requires src != dst && src !in a && src !in b && b != [] && b[0] != dst
    ensures Swapped(Swapped(a + [src] + b, src, dst, false), dst, src, false) == a + [src] + b
  {
    var ea, eb := Escaped(a, dst), Escaped(b, dst);
    FirstLoneSrcIsMnemonic(a, b, src, dst);
    CopiesOnlyEscapes(b, src, dst);
    assert Swapped(a + [src] + b, src, dst, false) == ea + ([dst] + eb) by {
      AppendAssoc(ea, [dst], eb);
    }
    assert eb != [] && eb[0] == b[0] by {
      assert eb == (if b[0] == dst then [dst, dst] else [b[0]]) + Escaped(b[1..], dst);
    }
    UnswapEscaped(a, [dst] + eb, src, dst, false);
    assert Swapped([dst] + eb, dst, src, false) == [src] + Swapped(eb, dst, src, true) by {
      assert ([dst] + eb)[0] == dst && ([dst] + eb)[1] == eb[0] && ([dst] + eb)[1..] == eb;
    }
    UnswapEscaped(b, [], src, dst, true);
    assert eb + [] == eb && b + [] == b;
    AppendAssoc(a, [src], b);
  }

  /** Round trip for a label without any mnemonic marker. */
  lemma RoundTripWithoutMnemonic(a: string, src: char, dst: char)
    requires src != dst && src !in a
    ensures Swapped(Swapped(a, src, dst, false), dst, src, false) == a
  {
    CopiesOnlyEscapes(a, src, dst);
    assert Escaped(a, dst) + [] == Escaped(a, dst);
    UnswapEscaped(a, [], src, dst, false);
    assert a + [] == a;
  }

  lemma CopiesOnlyEscapes(a: string, src: char, dst: char)
    requires src !in a
    ensures forall found :: Swapped(a, src, dst, found) == Escaped(a, dst)
  {
    forall found: bool ensures Swapped(a, src, dst, found) == Escaped(a, dst) {
      SwappedPlainPrefix(a, [], src, dst, found);
      assert a + [] == a;
    }
  }
}
