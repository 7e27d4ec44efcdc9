/**
  Compact JSON text of a value, as `serde_json::Value::to_string` writes it:
  no whitespace, strings quoted with `"`, the characters `"` and `\` and the
  control characters escaped, object members in ascending key order (the
  map of `serde_json` without its order-preserving feature is a B-tree).

  The only consumer in the emulator is the route of a Logic result, whose
  text is compared with edge labels; this is why a string route keeps its
  quotes.
*/
module JsonText {
  import opened Wrappers
  import opened JsonValue
  import Text

  // ---------------------------------------------------------------------
  // Numbers

  function DigitChar(d: nat): (c: char)
    requires d < 10
    ensures '0' <= c <= '9'
  {
    ('0' as int + d) as char
  }

  /** Decimal digits of a natural number, most significant first. */
  function NatText(n: nat): (t: string)
    ensures |t| >= 1
    ensures forall i :: 0 <= i < |t| ==> '0' <= t[i] <= '9'
    decreases n
  {
    if n < 10 then [DigitChar(n)] else NatText(n / 10) + [DigitChar(n % 10)]
  }

  /** The value of a string of decimal digits. */
  function DigitsValue(t: string): nat
    requires forall i :: 0 <= i < |t| ==> '0' <= t[i] <= '9'
  {
    if |t| == 0 then 0
    else DigitsValue(t[..|t| - 1]) * 10 + (t[|t| - 1] as int - '0' as int)
  }

  /** Reading the digits back gives the number: the text is positional decimal. */
  lemma {:induction false} NatTextValue(n: nat)
    ensures DigitsValue(NatText(n)) == n
    decreases n
  {
    if n >= 10 {
      var t := NatText(n);
      assert t[..|t| - 1] == NatText(n / 10);
      NatTextValue(n / 10);
    }
  }

  /** `itoa`: a minus sign for negative numbers, then the digits. */
  function IntText(n: int): (t: string)
    ensures |t| >= 1
    ensures (t[0] == '-') <==> n < 0
    ensures forall i :: 0 <= i < |t| && (i > 0 || n >= 0) ==> '0' <= t[i] <= '9'
  {
    if n < 0 then "-" + NatText(-n) else NatText(n)
  }

  // ---------------------------------------------------------------------
  // Strings

  const Hex: string := "0123456789abcdef"

  /** The escape `serde_json` writes for one character of a string. */
  function EscapeChar(c: char): (t: string)
    ensures Plain(c) ==> t == [c]
    ensures !Plain(c) ==> |t| >= 2 && t[0] == '\\'
  {
    if c == '"' then "\\\""
    else if c == '\\' then "\\\\"
    else if c == '\U{08}' then "\\b"
    else if c == '\U{09}' then "\\t"
    else if c == '\U{0A}' then "\\n"
    else if c == '\U{0C}' then "\\f"
    else if c == '\U{0D}' then "\\r"
    else if (c as int) < 0x20 then "\\u00" + [Hex[c as int / 16], Hex[c as int % 16]]
    else [c]
  }

  /** A character written as itself inside a JSON string. */
  predicate Plain(c: char) {
    c != '"' && c != '\\' && (c as int) >= 0x20
  }

  function Escape(s: string): (t: string)
    ensures |t| >= |s|
  {
    if |s| == 0 then [] else EscapeChar(s[0]) + Escape(s[1..])
  }

  function Quote(s: string): (t: string)
    ensures |t| >= |s| + 2
    ensures t[0] == '"' && t[|t| - 1] == '"'
  {
    "\"" + Escape(s) + "\""
  }

  /** The text of a string without special characters is the string between quotes. */
  lemma {:induction false} EscapePlain(s: string)
    requires forall i :: 0 <= i < |s| ==> Plain(s[i])
    ensures Escape(s) == s
  {
    if |s| > 0 {
      EscapePlain(s[1..]);
      assert s == [s[0]] + s[1..];
    }
  }

  function HexValue(c: char): (v: nat)
    ensures v < 16
  {
    if '0' <= c <= '9' then c as int - '0' as int
    else if 'a' <= c <= 'f' then c as int - 'a' as int + 10
    else 0
  }

  /** Undoes `Escape` (JSON string decoding, restricted to the escapes `Escape` writes). */
  function Unescape(t: string): string
    decreases |t|
  {
    if |t| == 0 then []
    else if t[0] != '\\' || |t| == 1 then [t[0]] + Unescape(t[1..])
    else if t[1] == 'b' then ['\U{08}'] + Unescape(t[2..])
    else if t[1] == 't' then ['\U{09}'] + Unescape(t[2..])
    else if t[1] == 'n' then ['\U{0A}'] + Unescape(t[2..])
    else if t[1] == 'f' then ['\U{0C}'] + Unescape(t[2..])
    else if t[1] == 'r' then ['\U{0D}'] + Unescape(t[2..])
    else if t[1] == 'u' && |t| >= 6 then
      [(HexValue(t[4]) * 16 + HexValue(t[5])) as char] + Unescape(t[6..])
    else [t[1]] + Unescape(t[2..])
  }

  /** A plain character is read back as itself. */
  lemma UnescapePlainChar(c: char, rest: string)
    requires Plain(c)
    ensures Unescape(EscapeChar(c) + rest) == [c] + Unescape(rest)
  {
    assert ([c] + rest)[1..] == rest;
  }

  /** A two-character escape is read back as the character it stands for. */
  lemma UnescapeShortChar(c: char, rest: string)
    requires c in {'"', '\\', '\U{08}', '\U{09}', '\U{0A}', '\U{0C}', '\U{0D}'}
    ensures Unescape(EscapeChar(c) + rest) == [c] + Unescape(rest)
  {
    var e := EscapeChar(c);
    assert |e| == 2 && e[0] == '\\';
    assert (e + rest)[2..] == rest;
  }

  /** A `\u00XY` escape is read back as the control character it encodes. */
  lemma UnescapeHexChar(c: char, rest: string)
    requires (c as int) < 0x20 && c !in {'\U{08}', '\U{09}', '\U{0A}', '\U{0C}', '\U{0D}'}
    ensures Unescape(EscapeChar(c) + rest) == [c] + Unescape(rest)
  {
    var hi, lo := c as int / 16, c as int % 16;
    var e := EscapeChar(c);
    assert e == ['\\', 'u', '0', '0', Hex[hi], Hex[lo]];
    assert HexValue(Hex[hi]) == hi && HexValue(Hex[lo]) == lo;
    assert (e + rest)[6..] == rest;
  }

  /** Every escape is read back as the character it came from. */
  lemma UnescapeChar(c: char, rest: string)
    ensures Unescape(EscapeChar(c) + rest) == [c] + Unescape(rest)
  {
    if Plain(c) {
      UnescapePlainChar(c, rest);
    } else if c in {'"', '\\', '\U{08}', '\U{09}', '\U{0A}', '\U{0C}', '\U{0D}'} {
      UnescapeShortChar(c, rest);
    } else {
      UnescapeHexChar(c, rest);
    }
  }

  /** Escaping loses nothing: decoding the escaped text gives the string back. */
  lemma {:induction false} UnescapeEscape(s: string)
    ensures Unescape(Escape(s)) == s
  {
    if |s| > 0 {
      UnescapeChar(s[0], Escape(s[1..]));
      UnescapeEscape(s[1..]);
      assert s == [s[0]] + s[1..];
    }
  }

  // ---------------------------------------------------------------------
  // Key order

  /** Lexicographic order by character code (the byte order of UTF-8). */
  predicate KeyLe(a: string, b: string)
    decreases |a|
  {
    |a| == 0 || (|b| > 0 && (a[0] < b[0] || (a[0] == b[0] && KeyLe(a[1..], b[1..]))))
  }

  lemma {:induction false} KeyLeAntisymmetric(a: string, b: string)
    requires KeyLe(a, b) && KeyLe(b, a)
    ensures a == b
    decreases |a|
  {
    if |a| > 0 {
      KeyLeAntisymmetric(a[1..], b[1..]);
      assert a == [a[0]] + a[1..] && b == [b[0]] + b[1..];
    }
  }

  lemma {:induction false} KeyLeTotal(a: string, b: string)
    ensures KeyLe(a, b) || KeyLe(b, a)
    decreases |a|
  {
    if |a| > 0 && |b| > 0 && a[0] == b[0] {
      KeyLeTotal(a[1..], b[1..]);
    }
  }

  lemma {:induction false} KeyLeTransitive(a: string, b: string, c: string)
    requires KeyLe(a, b) && KeyLe(b, c)
    ensures KeyLe(a, c)
    decreases |a|
  {
    if |a| > 0 && a[0] == b[0] && b[0] == c[0] {
      KeyLeTransitive(a[1..], b[1..], c[1..]);
    }
  }

  lemma {:induction false} KeyLeReflexive(a: string)
    ensures KeyLe(a, a)
    decreases |a|
  {
    if |a| > 0 {
      KeyLeReflexive(a[1..]);
    }
  }

  predicate IsLeast(k: string, s: set<string>) {
    k in s && forall x :: x in s ==> KeyLe(k, x)
  }

  lemma {:induction false} LeastExists(s: set<string>)
    requires s != {}
    ensures exists k :: IsLeast(k, s)
    decreases |s|
  {
    var y :| y in s;
    KeyLeReflexive(y);
    if s == {y} {
      assert IsLeast(y, s);
    } else {
      LeastExists(s - {y});
      var k :| IsLeast(k, s - {y});
      KeyLeTotal(k, y);
      if KeyLe(k, y) {
        assert IsLeast(k, s);
      } else {
        forall x | x in s ensures KeyLe(y, x) {
          if x != y {
            KeyLeTransitive(y, k, x);
          }
        }
        assert IsLeast(y, s);
      }
    }
  }

  /** The keys of a map in ascending order, each once. */
  function SortedKeys(s: set<string>): (r: seq<string>)
    ensures |r| == |s|
    ensures forall k :: k in r <==> k in s
    ensures forall i, j :: 0 <= i < j < |r| ==> KeyLe(r[i], r[j]) && r[i] != r[j]
    decreases |s|
  {
    if s == {} then []
    else
      LeastExists(s);
      forall a, b | IsLeast(a, s) && IsLeast(b, s) ensures a == b {
        KeyLeAntisymmetric(a, b);
      }
      var k :| IsLeast(k, s);
      [k] + SortedKeys(s - {k})
  }

  // ---------------------------------------------------------------------
  // Values

  /** The compact text of a JSON value. */
  function Serialize(j: Json): (t: string)
    ensures |t| >= 1
    ensures |t| >= 2 || j.JNum?
    ensures j.JStr? <==> t[0] == '"'
    ensures j.JArr? <==> t[0] == '['
    ensures j.JObj? <==> t[0] == '{'
    ensures j.JNum? <==> t[0] == '-' || '0' <= t[0] <= '9'
    ensures j.JStr? ==> t[|t| - 1] == '"'
    ensures j.JArr? ==> t[|t| - 1] == ']'
    ensures j.JObj? ==> t[|t| - 1] == '}'
    decreases j
  {
    match j
    case JNull => "null"
    case JBool(b) => if b then "true" else "false"
    case JNum(n) => IntText(n)
    case JStr(s) => Quote(s)
    case JArr(xs) =>
      "[" + Text.JoinWith(seq(|xs|, i requires 0 <= i < |xs| => Serialize(xs[i])), ',') + "]"
    case JObj(m) =>
      var ks := SortedKeys(m.Keys);
      "{" + Text.JoinWith(seq(|ks|, i requires 0 <= i < |ks| => Quote(ks[i]) + ":" + Serialize(m[ks[i]])), ',') + "}"
  }

  /** A string value is never written as its bare content: it keeps its quotes. */
  lemma StringTextKeepsQuotes(s: string)
    ensures Serialize(JStr(s)) != s
  {
  }

  /** A plain string is written as itself between two quote characters. */
  lemma PlainStringText(s: string)
    requires forall i :: 0 <= i < |s| ==> Plain(s[i])
    ensures Serialize(JStr(s)) == "\"" + s + "\""
  {
    EscapePlain(s);
  }

  /** Different numbers have different texts. */
  lemma IntTextInjective(a: int, b: int)
    requires IntText(a) == IntText(b)
    ensures a == b
  {
    assert (a < 0) == (b < 0);
    var ma: nat, mb: nat := if a < 0 then -a else a, if b < 0 then -b else b;
    assert NatText(ma) == NatText(mb) by {
      if a < 0 {
        assert IntText(a) == "-" + NatText(ma) && IntText(b) == "-" + NatText(mb);
        assert ("-" + NatText(ma))[1..] == NatText(ma);
        assert ("-" + NatText(mb))[1..] == NatText(mb);
      }
    }
    NatTextValue(ma);
    NatTextValue(mb);
  }

  /** Different strings have different quoted texts. */
  lemma QuoteInjective(a: string, b: string)
    requires Quote(a) == Quote(b)
    ensures a == b
  {
    var t := Quote(a);
    assert Escape(a) == t[1..|t| - 1] == Escape(b);
    UnescapeEscape(a);
    UnescapeEscape(b);
  }

  /** Two scalar values with the same text are the same value: a route text
      names one null, boolean, number or string. */
  lemma ScalarTextInjective(j: Json, k: Json)
    requires !j.JArr? && !j.JObj? && !k.JArr? && !k.JObj?
    requires Serialize(j) == Serialize(k)
    ensures j == k
  {
    match j
    case JNum(a) =>
      IntTextInjective(a, k.n);
    case JStr(a) =>
      QuoteInjective(a, k.s);
    case _ =>
  }
}
