/** Untyped JSON values as the runner handles them (serde_json's `Value`),
    the field lookup `value[key]`, and the compact text `value.to_string()`. */
module Json {
  import opened Wrappers
  import opened Text

  /** A JSON value. Numbers are integers; an object is its fields in
      iteration order (a lookup takes the first field with its key). */
  datatype Json =
    | JNull
    | JBool(b: bool)
    | JNum(n: int)
    | JStr(s: string)
    | JArr(items: seq<Json>)
    | JObj(fields: seq<(string, Json)>)

  /** The keys of an object's fields, in order. */
  function KeysOf(fields: seq<(string, Json)>): (ks: seq<string>)
    ensures |ks| == |fields|
    ensures forall i :: 0 <= i < |fields| ==> ks[i] == fields[i].0
  {
    if |fields| == 0 then [] else [fields[0].0] + KeysOf(fields[1..])
  }

  /** The value stored under `key` among `fields`, if any: that of the
      first field with the key. */
  function Lookup(fields: seq<(string, Json)>, key: string): (r: Option<Json>)
    ensures r.None? <==> forall i :: 0 <= i < |fields| ==> fields[i].0 != key
    ensures r.Some? ==> exists i :: 0 <= i < |fields| && fields[i] == (key, r.value)
                                    && forall j :: 0 <= j < i ==> fields[j].0 != key
  {
    if |fields| == 0 then None
    else if fields[0].0 == key then Some(fields[0].1)
    else
      var r := Lookup(fields[1..], key);
      assert r.Some? ==> exists i :: 0 <= i < |fields| && fields[i] == (key, r.value)
                                     && forall j :: 0 <= j < i ==> fields[j].0 != key by {
        if r.Some? {
          var tail := fields[1..];
          var i :| 0 <= i < |tail| && tail[i] == (key, r.value) && forall j :: 0 <= j < i ==> tail[j].0 != key;
          assert fields[i + 1] == tail[i];
          forall j | 0 <= j < i + 1 ensures fields[j].0 != key {
            if j > 0 {
              assert fields[j] == tail[j - 1];
            }
          }
        }
      }
      r
  }

  /** `value[key]`: the value of the object's first field with that key,
      or `null` when `value` is not an object or has no such key (indexing
      never fails). */
  function Field(v: Json, key: string): (r: Json)
    ensures !v.JObj? ==> r == JNull
    ensures v.JObj? && (forall i :: 0 <= i < |v.fields| ==> v.fields[i].0 != key) ==> r == JNull
    ensures v.JObj? && (exists i :: 0 <= i < |v.fields| && v.fields[i].0 == key) ==>
              exists i :: 0 <= i < |v.fields| && v.fields[i] == (key, r)
                          && forall j :: 0 <= j < i ==> v.fields[j].0 != key
  {
    if v.JObj? then
      match Lookup(v.fields, key)
      case Some(x) => x
      case None => JNull
    else JNull
  }

  // String escaping, as serde_json writes string contents.

  /** A character that serde_json writes unchanged inside a string. */
  predicate IsPlainChar(c: char) {
    c != '"' && c != '\\' && c as int >= 0x20
  }

  predicate IsPlain(s: string) {
    forall i :: 0 <= i < |s| ==> IsPlainChar(s[i])
  }

  function HexDigit(k: nat): char
    requires k < 16
  {
    "0123456789abcdef"[k]
  }

  predicate IsHexDigit(c: char) {
    ('0' <= c <= '9') || ('a' <= c <= 'f') || ('A' <= c <= 'F')
  }

  function HexDigitValue(c: char): (k: nat)
    requires IsHexDigit(c)
    ensures k < 16
  {
    if '0' <= c <= '9' then c as int - '0' as int
    else if 'a' <= c <= 'f' then c as int - 'a' as int + 10
    else c as int - 'A' as int + 10
  }

  /** The value of four hexadecimal digits. */
  function Hex4Value(h: string): (v: nat)
    requires |h| == 4 && forall i :: 0 <= i < 4 ==> IsHexDigit(h[i])
    ensures v < 0x10000
  {
    ((HexDigitValue(h[0]) * 16 + HexDigitValue(h[1])) * 16 + HexDigitValue(h[2])) * 16
      + HexDigitValue(h[3])
  }

  /** How serde_json writes one character inside a string literal. */
  function EscapeChar(c: char): (e: string)
    ensures |e| >= 1
    ensures |e| == 1 <==> IsPlainChar(c)
    ensures |e| == 1 ==> e == [c]
  {
    if c == '"' then "\\\""
    else if c == '\\' then "\\\\"
    else if c == '\n' then "\\n"
    else if c == '\r' then "\\r"
    else if c == '\t' then "\\t"
    else if c as int == 0x08 then "\\b"
    else if c as int == 0x0C then "\\f"
    else if c as int < 0x20 then "\\u00" + [HexDigit(c as int / 16), HexDigit(c as int % 16)]
    else [c]
  }

  /** The contents of the string literal serde_json writes for `s`. */
  function Escape(s: string): (e: string)
    ensures |e| >= |s|
  {
    if |s| == 0 then [] else EscapeChar(s[0]) + Escape(s[1..])
  }

  /** The character a two-character escape `\k` stands for. */
  function ShortEscape(k: char): Option<char>
  {
    if k == '"' then Some('"')
    else if k == '\\' then Some('\\')
    else if k == '/' then Some('/')
    else if k == 'n' then Some('\n')
    else if k == 'r' then Some('\r')
    else if k == 't' then Some('\t')
    else if k == 'b' then Some(0x08 as char)
    else if k == 'f' then Some(0x0C as char)
    else None
  }

  /** Reads the contents of a JSON string literal back; `None` for text
      that is not valid literal contents. Surrogate escapes are refused. */
  function Unescape(e: string): Option<string>
    decreases |e|
  {
    if |e| == 0 then Some([])
    else if e[0] == '\\' then
      if |e| < 2 then None
      else if e[1] == 'u' then
        if |e| < 6 || !(forall i :: 2 <= i < 6 ==> IsHexDigit(e[i])) then None
        else
          var v := Hex4Value(e[2..6]);
          if 0xD800 <= v < 0xE000 then None
          else Prepend(v as char, Unescape(e[6..]))
      else
        match ShortEscape(e[1])
        case Some(c) => Prepend(c, Unescape(e[2..]))
        case None => None
    else if e[0] == '"' || e[0] as int < 0x20 then None
    else Prepend(e[0], Unescape(e[1..]))
  }

  function Prepend(c: char, r: Option<string>): Option<string>
  {
    match r
    case Some(t) => Some([c] + t)
    case None => None
  }

  /** A two-character escape reads back as its character. */
  lemma UnescapeShort(k: char, c: char, rest: string)
    requires ShortEscape(k) == Some(c)
    ensures Unescape(['\\', k] + rest) == Prepend(c, Unescape(rest))
  {
    var e := ['\\', k] + rest;
    assert e[0] == '\\' && e[1] == k;
    assert k != 'u';
    assert e[2..] == rest;
  }

  /** A six-character `\u00XX` escape of a control character reads back
      as that character. */
  lemma UnescapeControl(c: char, rest: string)
    requires c as int < 0x20
    ensures Unescape("\\u00" + [HexDigit(c as int / 16), HexDigit(c as int % 16)] + rest)
            == Prepend(c, Unescape(rest))
  {
    var hi, lo := c as int / 16, c as int % 16;
    var e := "\\u00" + [HexDigit(hi), HexDigit(lo)] + rest;
    assert e[0] == '\\' && e[1] == 'u';
    assert e[2..6] == ['0', '0', HexDigit(hi), HexDigit(lo)];
    assert HexDigitValue(HexDigit(hi)) == hi;
    assert HexDigitValue(HexDigit(lo)) == lo;
    assert Hex4Value(e[2..6]) == c as int;
    assert e[6..] == rest;
  }

  lemma UnescapeEscapeChar(c: char, rest: string)
    ensures Unescape(EscapeChar(c) + rest) == Prepend(c, Unescape(rest))
  {
    if c == '"' {
      UnescapeShort('"', c, rest);
    } else if c == '\\' {
      UnescapeShort('\\', c, rest);
    } else if c == '\n' {
      UnescapeShort('n', c, rest);
    } else if c == '\r' {
      UnescapeShort('r', c, rest);
    } else if c == '\t' {
      UnescapeShort('t', c, rest);
    } else if c as int == 0x08 {
      UnescapeShort('b', c, rest);
    } else if c as int == 0x0C {
      UnescapeShort('f', c, rest);
    } else if c as int < 0x20 {
      UnescapeControl(c, rest);
    } else {
      var e := EscapeChar(c) + rest;
      assert e[1..] == rest;
    }
  }

  /** Reading back what serde_json writes for a string gives the string. */
  lemma {:induction false} EscapeRoundTrip(s: string)
    ensures Unescape(Escape(s)) == Some(s)
  {
    if |s| > 0 {
      EscapeRoundTrip(s[1..]);
      UnescapeEscapeChar(s[0], Escape(s[1..]));
      assert s == [s[0]] + s[1..];
    }
  }

  /** Escaping works character by character. */
  lemma {:induction false} EscapeConcat(x: string, y: string)
    ensures Escape(x + y) == Escape(x) + Escape(y)
    decreases |x|
  {
    if |x| == 0 {
      assert x + y == y;
    } else {
      EscapeFront(x, y);
      EscapeConcat(x[1..], y);
      assert EscapeChar(x[0]) + (Escape(x[1..]) + Escape(y))
             == (EscapeChar(x[0]) + Escape(x[1..])) + Escape(y);
    }
  }

  /** Escaping `x + y` starts with the escape of `x`'s first character. */
  lemma EscapeFront(x: string, y: string)
    requires |x| > 0
    ensures Escape(x + y) == EscapeChar(x[0]) + Escape(x[1..] + y)
  {
    assert (x + y)[0] == x[0];
    assert (x + y)[1..] == x[1..] + y;
  }

  /** Escaping leaves a string unchanged exactly when it has no `"`, no
      `\` and no control character. */
  lemma {:induction false} EscapeIdentity(s: string)
    ensures Escape(s) == s <==> IsPlain(s)
  {
    if |s| > 0 {
      EscapeIdentity(s[1..]);
      if IsPlainChar(s[0]) {
        assert Escape(s) == [s[0]] + Escape(s[1..]);
        assert s == [s[0]] + s[1..];
        assert IsPlain(s) <==> IsPlain(s[1..]);
      } else {
        assert |Escape(s)| >= |s| + 1;
      }
    }
  }

  /** Joins `parts` with `sep` between consecutive parts. */
  function Join(parts: seq<string>, sep: string): string
  {
    if |parts| == 0 then []
    else if |parts| == 1 then parts[0]
    else parts[0] + sep + Join(parts[1..], sep)
  }

  /** Each part appears in the joined text. */
  lemma {:induction false} JoinContains(parts: seq<string>, sep: string, i: nat)
    requires i < |parts|
    ensures Contains(Join(parts, sep), parts[i])
    decreases i
  {
    if |parts| == 1 {
      ContainsSelf(parts[0]);
    } else {
      var rest := Join(parts[1..], sep);
      assert Join(parts, sep) == parts[0] + (sep + rest);
      assert Join(parts, sep) == (parts[0] + sep) + rest;
      if i == 0 {
        ContainsSelf(parts[0]);
        ContainsInPrefix(parts[0], sep + rest, parts[0]);
      } else {
        JoinContains(parts[1..], sep, i - 1);
        ContainsInSuffix(parts[0] + sep, rest, parts[i]);
      }
    }
  }

  /** serde_json keeps a number as an integer only when it fits in an
      `i64` or a `u64`; any other number is an `f64`, written in float form. */
  predicate IsIntegerNumber(n: int) {
    -0x8000_0000_0000_0000 <= n < 0x1_0000_0000_0000_0000
  }

  /** The decimal text of an integer. */
  function IntToText(n: int): (t: string)
    ensures |t| > 0
  {
    if n < 0 then "-" + NatToDigits(-n) else NatToDigits(n)
  }

  /** `value.to_string()`: serde_json's compact text of a value. */
  function ToText(v: Json): (t: string)
    ensures |t| > 0
    decreases v
  {
    match v
    case JNull => "null"
    case JBool(b) => if b then "true" else "false"
    case JNum(n) => IntToText(n)
    case JStr(s) => "\"" + Escape(s) + "\""
    case JArr(items) =>
      "[" + Join(seq(|items|, i requires 0 <= i < |items| => ToText(items[i])), ",") + "]"
    case JObj(fields) =>
      "{" + Join(seq(|fields|, i requires 0 <= i < |fields| =>
                       "\"" + Escape(fields[i].0) + "\":" + ToText(fields[i].1)), ",") + "}"
  }

  /** Only a string's text begins with `"`, and the text of null, a
      boolean or a number holds no `"` at all. */
  lemma TextQuotes(v: Json)
    ensures ToText(v)[0] == '"' <==> v.JStr?
    ensures (v.JNull? || v.JBool? || v.JNum?) ==> '"' !in ToText(v)
  {
  }

  /** A string's text is the escaped string between two quotes. */
  lemma {:induction false} StringText(s: string)
    ensures ToText(JStr(s)) == "\"" + Escape(s) + "\""
    ensures |ToText(JStr(s))| >= |s| + 2
    ensures Unescape(ToText(JStr(s))[1..|ToText(JStr(s))| - 1]) == Some(s)
  {
    var t := ToText(JStr(s));
    assert t[1..|t| - 1] == Escape(s);
    EscapeRoundTrip(s);
  }

  /** A non-negative integer number's text is its decimal digits, which
      read back as the number. */
  lemma NumberText(n: nat)
    requires IsIntegerNumber(n)
    ensures AllDigits(ToText(JNum(n)))
    ensures DigitsValue(ToText(JNum(n))) == n
  {
    DigitsRoundTrip(n);
  }

  /** An array's text is bracketed and holds the text of each item. */
  lemma ArrayText(items: seq<Json>)
    ensures ToText(JArr(items))[0] == '['
    ensures ToText(JArr(items))[|ToText(JArr(items))| - 1] == ']'
    ensures forall i :: 0 <= i < |items| ==> Contains(ToText(JArr(items)), ToText(items[i]))
  {
    var parts := seq(|items|, i requires 0 <= i < |items| => ToText(items[i]));
    var body := Join(parts, ",");
    assert ToText(JArr(items)) == "[" + body + "]";
    forall i | 0 <= i < |items|
      ensures Contains(ToText(JArr(items)), ToText(items[i]))
    {
      JoinContains(parts, ",", i);
      ContainsInSuffix("[", body, parts[i]);
      ContainsInPrefix("[" + body, "]", parts[i]);
    }
  }

  /** An object's text is braced and holds each field as its quoted,
      escaped key, a colon and the value's text. */
  lemma ObjectText(fields: seq<(string, Json)>)
    ensures ToText(JObj(fields))[0] == '{'
    ensures ToText(JObj(fields))[|ToText(JObj(fields))| - 1] == '}'
    ensures forall i :: 0 <= i < |fields| ==>
              Contains(ToText(JObj(fields)),
                       "\"" + Escape(fields[i].0) + "\":" + ToText(fields[i].1))
  {
    var parts := seq(|fields|, i requires 0 <= i < |fields| =>
                       "\"" + Escape(fields[i].0) + "\":" + ToText(fields[i].1));
    var body := Join(parts, ",");
    assert ToText(JObj(fields)) == "{" + body + "}";
    forall i | 0 <= i < |fields|
      ensures Contains(ToText(JObj(fields)),
                       "\"" + Escape(fields[i].0) + "\":" + ToText(fields[i].1))
    {
      JoinContains(parts, ",", i);
      ContainsInSuffix("{", body, parts[i]);
      ContainsInPrefix("{" + body, "}", parts[i]);
    }
  }
}
