/**
 * The values that travel in a com.canonical.dbusmenu reply and the
 * conversions the importer applies to them (QVariant::isValid, toString,
 * toBool, toInt, toByteArray, and the shortcut demarshalling), and the
 * structs of plugin/libdbusmenuqt/dbusmenutypes_p.h as plain values.
 */
module MenuTypes {
  import opened QtStrings
  import opened Wrappers
  import opened Utf8

  /** A property value: a missing value, or one of the D-Bus types the menu protocol uses. */
  datatype Value =
    | Invalid
    | VBool(b: bool)
    | VInt(i: int)
    | VString(s: string)
    | VBytes(data: seq<byte>)
    | VShortcut(chords: seq<seq<string>>)

  predicate IsValid(v: Value)
  {
    v != Invalid
  }

  // ---------------------------------------------------------------------
  // Decimal text
  // ---------------------------------------------------------------------

  predicate IsDigit(c: char)
  {
    '0' <= c <= '9'
  }

  predicate AllDigits(s: string)
  {
    forall i :: 0 <= i < |s| ==> IsDigit(s[i])
  }

  function DigitChar(d: nat): char
    requires d < 10
  {
    (('0' as int) + d) as char
  }

  /** The decimal digits of `n`, most significant first. */
  function Digits(n: nat): (r: string)
    ensures r != [] && AllDigits(r)
    decreases n
  {
    if n < 10 then [DigitChar(n)] else Digits(n / 10) + [DigitChar(n % 10)]
  }

  /** The number a run of decimal digits spells. */
  function DigitsValue(s: string): nat
    requires AllDigits(s)
    decreases |s|
  {
    if s == [] then 0 else DigitsValue(s[..|s| - 1]) * 10 + (s[|s| - 1] as int - '0' as int)
  }

  /** QString::number for an int. */
  function IntToString(i: int): string
  {
    if i < 0 then "-" + Digits(-i) else Digits(i)
  }

  /** The white space C's isspace skips, which QByteArray's number parser uses. */
  predicate IsAsciiSpace(c: char)
  {
    c == ' ' || c == '\t' || c == '\n' || c == '\U{B}' || c == '\U{C}' || c == '\r'
  }

  /** QChar::isSpace: the ASCII white space, U+0085, and the Unicode space, line and paragraph separators. */
  predicate IsSpace(c: char)
  {
    IsAsciiSpace(c) || c == '\U{85}' || c == '\U{A0}' || c == '\U{1680}'
    || ('\U{2000}' <= c <= '\U{200A}') || c == '\U{2028}' || c == '\U{2029}'
    || c == '\U{202F}' || c == '\U{205F}' || c == '\U{3000}'
  }

  /** The white space skipped around a number: QString's (`ascii` false) or QByteArray's (`ascii` true). */
  predicate Space(c: char, ascii: bool)
  {
    if ascii then IsAsciiSpace(c) else IsSpace(c)
  }

  function TrimStart(s: string, ascii: bool): string
    decreases |s|
  {
    if s != [] && Space(s[0], ascii) then TrimStart(s[1..], ascii) else s
  }

  function TrimEnd(s: string, ascii: bool): string
    decreases |s|
  {
    if s != [] && Space(s[|s| - 1], ascii) then TrimEnd(s[..|s| - 1], ascii) else s
  }

  const Int64Min: int := -0x8000_0000_0000_0000
  const Int64Max: int := 0x7FFF_FFFF_FFFF_FFFF
  const Int32Min: int := -0x8000_0000
  const Int32Max: int := 0x7FFF_FFFF

  /** An optional sign and decimal digits, within 64 bits. */
  function ParseDecimal(t: string): Option<int>
  {
    var signed := t != [] && (t[0] == '-' || t[0] == '+');
    var digits := if signed then t[1..] else t;
    if digits == [] || !AllDigits(digits) then None
    else
      var v: int := if signed && t[0] == '-' then 0 - (DigitsValue(digits) as int) else DigitsValue(digits);
      if Int64Min <= v <= Int64Max then Some(v) else None
  }

  /** QString::toLongLong: a decimal number between white space. */
  function ParseLongLong(s: string): Option<int>
  {
    ParseDecimal(TrimEnd(TrimStart(s, false), false))
  }

  /** QByteArray::toLongLong: a decimal number between ASCII white space, in the bytes before the first NUL. */
  function ParseByteText(b: seq<byte>): Option<int>
  {
    ParseDecimal(TrimEnd(TrimStart(Latin1(UpToNul(b)), true), true))
  }

  /** The C++ conversion of a 64-bit integer to a 32-bit int: the low 32 bits, two's complement. */
  function Wrap32(n: int): (r: int)
    ensures Int32Min <= r <= Int32Max
  {
    (n - Int32Min) % 0x1_0000_0000 + Int32Min
  }

  /** Bytes read one character each, as Latin-1. */
  function Latin1(d: seq<byte>): (r: string)
    ensures |r| == |d| && forall i :: 0 <= i < |d| ==> r[i] as int == d[i] as int
  {
    seq(|d|, i requires 0 <= i < |d| => d[i] as int as char)
  }

  /** Text that spells "false" in any mix of cases. */
  predicate SpellsFalse(s: string)
  {
    |s| == 5 && forall i :: 0 <= i < 5 ==> SameIgnoringCase(s[i], "false"[i])
  }

  /** The text toBool reads as false: once lower-cased, empty, "0" or "false". */
  predicate FalseText(s: string)
  {
    var l := Fold(s);
    l == "" || l == "0" || l == "false"
  }

  /** Lower-casing first changes which texts are false only by letting "false" take any case. */
  lemma FalseTextIff(s: string)
    ensures FalseText(s) <==> s == "" || s == "0" || SpellsFalse(s)
  {
    assert Fold("") == "" && Fold("0") == "0" && Fold("false") == "false";
    FoldEqualIff(s, "");
    FoldEqualIff(s, "0");
    FoldEqualIff(s, "false");
    if |s| == 1 && SameIgnoringCase(s[0], "0"[0]) {
      assert s == "0";
    }
  }

  /** A byte array is empty or "0" exactly when its Latin-1 text is. */
  lemma Latin1Short(d: seq<byte>)
    ensures Latin1(d) == "" <==> d == []
    ensures Latin1(d) == "0" <==> d == [0x30]
  {
    if d == [0x30] {
      assert Latin1(d)[0] == '0';
    }
    if Latin1(d) == "0" {
      assert d[0] as int == '0' as int;
    }
  }

  // ---------------------------------------------------------------------
  // QVariant conversions
  // ---------------------------------------------------------------------

  /**
   * QVariant::toString: a string as it is, a number as its decimal text, a
   * boolean as "true" or "false", a byte array as the UTF-8 text before its
   * first NUL; nothing from an invalid value or a D-Bus struct.
   */
  function ToString(v: Value): (r: string)
    ensures v.VString? ==> r == v.s
    ensures v.VInt? && Int64Min <= v.i <= Int64Max ==> ParseLongLong(r) == Some(v.i)
    ensures v.VBytes? ==> '\0' !in r
    ensures v.VBytes? && 0 !in v.data && WellFormed(v.data) ==> Encode(r) == v.data
    ensures !IsValid(v) ==> r == ""
  {
    match v
    case VBool(b) => if b then "true" else "false"
    case VInt(i) =>
      if Int64Min <= i <= Int64Max then ParseIntText(i); IntToString(i) else IntToString(i)
    case VString(s) => s
    case VBytes(d) =>
      if 0 !in d && WellFormed(d) then ToUtf8RoundTrip(d); FromUtf8(d) else FromUtf8(d)
    case _ => ""
  }

  /**
   * QVariant::toBool: a number is true when it is not 0; a string, or a
   * byte array read as Latin-1, is false when it is empty, "0" or "false"
   * in any case; an invalid value or a D-Bus struct is false.
   */
  function ToBool(v: Value): (r: bool)
    ensures !IsValid(v) ==> !r
    ensures v.VInt? ==> (r <==> v.i != 0)
    ensures v.VString? ==> (!r <==> v.s == "" || v.s == "0" || SpellsFalse(v.s))
    ensures v.VBytes? ==> (!r <==> v.data == [] || v.data == [0x30] || SpellsFalse(Latin1(v.data)))
  {
    match v
    case VBool(b) => b
    case VInt(i) => i != 0
    case VString(s) => FalseTextIff(s); !FalseText(s)
    case VBytes(d) => FalseTextIff(Latin1(d)); Latin1Short(d); !FalseText(Latin1(d))
    case _ => false
  }

  /**
   * QVariant::toInt: a number cut to 32 bits; a string (toLongLong) or a
   * byte array (QByteArray::toLongLong) parsed and cut to 32 bits, 0 when
   * it does not parse; a boolean as 1 or 0.
   */
  function ToInt(v: Value): (r: int)
    ensures Int32Min <= r <= Int32Max
    ensures v.VInt? && Int32Min <= v.i <= Int32Max ==> r == v.i
    ensures !IsValid(v) ==> r == 0
  {
    match v
    case VBool(b) => if b then 1 else 0
    case VInt(i) => if Int32Min <= i <= Int32Max then Wrap32Small(i); Wrap32(i) else Wrap32(i)
    case VString(s) => (match ParseLongLong(s) case Some(n) => Wrap32(n) case None => 0)
    case VBytes(d) => (match ParseByteText(d) case Some(n) => Wrap32(n) case None => 0)
    case _ => 0
  }

  /**
   * QVariant::toByteArray: a byte array as it is; a string, a number or a
   * boolean as the UTF-8 form of its text; nothing from an invalid value.
   */
  function ToBytes(v: Value): (r: seq<byte>)
    ensures v.VBytes? ==> r == v.data
    ensures v.VString? && '\0' !in v.s ==> ToString(VBytes(r)) == v.s
    ensures v.VInt? && Int32Min <= v.i <= Int32Max ==> ToInt(VBytes(r)) == v.i
    ensures v.VBool? ==> ToBool(VBytes(r)) == v.b
    ensures !IsValid(v) ==> r == []
  {
    match v
    case VBytes(d) => d
    case VString(s) => if '\0' !in s then FromUtf8RoundTrip(s); Encode(s) else Encode(s)
    case VInt(i) => if Int32Min <= i <= Int32Max then IntBytesRoundTrip(i); Encode(IntToString(i)) else Encode(IntToString(i))
    case VBool(b) => BoolBytes(b); Encode(ToString(v))
    case _ => []
  }

  /** Demarshalling a DBusMenuShortcut: nothing is read from anything but a shortcut argument. */
  function ToShortcut(v: Value): seq<seq<string>>
  {
    if v.VShortcut? then v.chords else []
  }

  lemma DigitsValueOfDigits(n: nat)
    ensures DigitsValue(Digits(n)) == n
    decreases n
  {
    if n >= 10 {
      var d := Digits(n / 10);
      DigitsValueOfDigits(n / 10);
      assert (d + [DigitChar(n % 10)])[..|d|] == d;
    }
  }

  /** The text of an integer has no white space at its ends. */
  lemma TrimDigits(s: string, ascii: bool)
    requires s != [] && (AllDigits(s) || (s[0] == '-' && AllDigits(s[1..]) && |s| > 1))
    ensures TrimEnd(TrimStart(s, ascii), ascii) == s
  {
    assert !Space(s[0], ascii);
    assert !Space(s[|s| - 1], ascii) by {
      if s[0] == '-' && |s| > 1 {
        assert s[|s| - 1] == s[1..][|s| - 2];
      }
    }
  }

  /** The text of an integer is all ASCII. */
  predicate IsAscii(s: string)
  {
    forall i :: 0 <= i < |s| ==> s[i] as int < 0x80
  }

  lemma IntTextAscii(i: int)
    ensures IsAscii(IntToString(i)) && '\0' !in IntToString(i)
    ensures IntToString(i) != [] && (AllDigits(IntToString(i)) || (i < 0 && IntToString(i)[0] == '-' && AllDigits(IntToString(i)[1..]) && |IntToString(i)| > 1))
  {
    if i < 0 {
      assert IntToString(i)[1..] == Digits(-i);
    }
  }

  /** The text of an integer, without its surrounding white space, is read back by ParseDecimal. */
  lemma {:induction false} ParseDecimalText(i: int)
    requires Int64Min <= i <= Int64Max
    ensures ParseDecimal(IntToString(i)) == Some(i)
  {
    if i < 0 {
      var d := Digits(-i);
      DigitsValueOfDigits(-i);
      var t := "-" + d;
      assert t[0] == '-' && t[1..] == d;
    } else {
      DigitsValueOfDigits(i);
    }
  }

  /** The text of an integer parses back to it. */
  lemma ParseIntText(i: int)
    requires Int64Min <= i <= Int64Max
    ensures ParseLongLong(IntToString(i)) == Some(i)
  {
    IntTextAscii(i);
    TrimDigits(IntToString(i), false);
    ParseDecimalText(i);
  }

  /** The UTF-8 form of ASCII text, read as Latin-1, is the text. */
  lemma {:induction false} AsciiBytes(s: string)
    requires IsAscii(s)
    ensures Latin1(Encode(s)) == s && |Encode(s)| == |s|
    decreases |s|
  {
    if s != [] {
      var t := s[1..];
      assert IsAscii(t) by { assert forall i :: 0 <= i < |t| ==> t[i] == s[i + 1]; }
      AsciiBytes(t);
      var e := Encode(s);
      assert e == [s[0] as int as byte] + Encode(t);
      forall i | 0 <= i < |s|
        ensures Latin1(e)[i] == s[i]
      {
        if i > 0 {
          assert e[i] == Encode(t)[i - 1] && Latin1(Encode(t))[i - 1] == t[i - 1];
        }
      }
    }
  }

  /** A 32-bit integer sent as the bytes of its text converts back through toInt. */
  lemma IntBytesRoundTrip(i: int)
    requires Int32Min <= i <= Int32Max
    ensures ToInt(VBytes(Encode(IntToString(i)))) == i
  {
    var t := IntToString(i);
    IntTextAscii(i);
    EncodeHasNoNul(t);
    NoNulUpToNul(Encode(t));
    AsciiBytes(t);
    TrimDigits(t, true);
    ParseDecimalText(i);
    Wrap32Small(i);
  }

  /** "true" and "false" sent as bytes convert back through toBool. */
  lemma BoolBytes(b: bool)
    ensures ToBool(VBytes(Encode(ToString(VBool(b))))) == b
  {
    var t := ToString(VBool(b));
    assert IsAscii(t);
    AsciiBytes(t);
    FalseTextIff(t);
    Latin1Short(Encode(t));
    if b {
      assert Fold(t)[0] == 't';
    } else {
      assert Fold(t) == "false";
    }
  }

  /** A 32-bit integer sent as text converts back through toInt. */
  lemma IntTextRoundTrip(i: int)
    requires Int32Min <= i <= Int32Max
    ensures ToInt(VString(IntToString(i))) == i
  {
    ParseIntText(i);
    Wrap32Small(i);
  }

  /** A value that already fits in 32 bits is its own low 32 bits. */
  lemma Wrap32Small(n: int)
    requires Int32Min <= n <= Int32Max
    ensures Wrap32(n) == n
  {
    var a := n - Int32Min;
    assert 0 <= a < 0x1_0000_0000;
    assert a % 0x1_0000_0000 == a;
  }

  /** A boolean survives the trip through its text. */
  lemma BoolTextRoundTrip(b: bool)
    ensures ToBool(VString(ToString(VBool(b)))) == b
  {
    if !b {
      assert Fold("false") == "false";
    } else {
      assert Fold("true")[0] == 't';
    }
  }

  // ---------------------------------------------------------------------
  // Property maps (QVariantMap) and the structs of a reply
  // ---------------------------------------------------------------------

  datatype Property = Property(key: string, value: Value)

  predicate UniqueKeys(props: seq<Property>)
  {
    forall i, j :: 0 <= i < j < |props| ==> props[i].key != props[j].key
  }

  /** A QVariantMap: its entries in iteration order, each key once. */
  type PropertyMap = props: seq<Property> | UniqueKeys(props) witness []

  /** QMap::value: the value stored under `key`, or an invalid value. */
  function Lookup(props: seq<Property>, key: string): (v: Value)
    ensures (forall i :: 0 <= i < |props| ==> props[i].key != key) ==> v == Invalid
    ensures UniqueKeys(props) ==> forall i :: 0 <= i < |props| && props[i].key == key ==> v == props[i].value
    decreases |props|
  {
    if props == [] then Invalid
    else if props[0].key == key then props[0].value
    else
      assert forall i :: 1 <= i < |props| ==> props[1..][i - 1] == props[i];
      Lookup(props[1..], key)
  }

  /** QMap::keys. */
  function Keys(props: seq<Property>): (r: seq<string>)
    ensures |r| == |props| && forall i :: 0 <= i < |props| ==> r[i] == props[i].key
  {
    seq(|props|, i requires 0 <= i < |props| => props[i].key)
  }

  /** The keys are the keys the map holds a value under: any other key looks up an invalid value. */
  lemma {:induction false} KeysLookup(props: seq<Property>, key: string)
    ensures key !in Keys(props) ==> Lookup(props, key) == Invalid
    ensures UniqueKeys(props) ==> forall i :: 0 <= i < |props| && Keys(props)[i] == key ==> Lookup(props, key) == props[i].value
  {
    if key !in Keys(props) {
      assert forall i :: 0 <= i < |props| ==> props[i].key == Keys(props)[i] != key;
    }
  }

  /** The map after QMap::take of every key in `drop`: the other entries, in order. */
  function Without(props: seq<Property>, drop: set<string>): (r: seq<Property>)
    ensures forall p :: p in r <==> p in props && p.key !in drop
    ensures UniqueKeys(props) ==> UniqueKeys(r)
    decreases |props|
  {
    if props == [] then []
    else
      var rest := Without(props[1..], drop);
      if props[0].key in drop then rest
      else
        assert UniqueKeys(props) ==> forall p :: p in rest ==> p.key != props[0].key by {
          if UniqueKeys(props) {
            forall p | p in rest ensures p.key != props[0].key {
              var i :| 0 <= i < |props[1..]| && props[1..][i] == p;
              assert props[i + 1] == p;
            }
          }
        }
        [props[0]] + rest
  }

  /** Taking keys out of a map does not change what the other keys hold. */
  lemma LookupWithout(props: PropertyMap, drop: set<string>, key: string)
    requires key !in drop
    ensures Lookup(Without(props, drop), key) == Lookup(props, key)
  {
    var r := Without(props, drop);
    if i :| 0 <= i < |props| && props[i].key == key {
      assert props[i] in r;
      var j :| 0 <= j < |r| && r[j] == props[i];
    } else {
      forall j | 0 <= j < |r| ensures r[j].key != key {
        assert r[j] in props;
      }
    }
  }

  /** DBusMenuItem: the properties of one item in an ItemsPropertiesUpdated signal. */
  datatype MenuItem = MenuItem(id: int, properties: PropertyMap)

  /** DBusMenuItemKeys: the properties one item has lost. */
  datatype MenuItemKeys = MenuItemKeys(id: int, properties: seq<string>)

  /** DBusMenuLayoutItem: an item, its properties and its children. */
  datatype LayoutItem = LayoutItem(id: int, properties: PropertyMap, children: seq<LayoutItem>)
}
