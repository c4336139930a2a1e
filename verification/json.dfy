/**
 * JSON values as the hub handles them (`serde_json::Value`): compact
 * serialisation with `serde_json`'s string escaping and its UTF-8 byte
 * length, key lookup, and JSON Pointer lookup (`Value::pointer`, the
 * syntax of section 3 of RFC 6901 with the `~1`/`~0` unescaping of its
 * section 4).
 *
 * Objects are key/value lists. `serde_json` stores them in a map ordered
 * by key, which `WellFormed` states; floating-point numbers keep their
 * text and are not interpreted.
 */
module JsonValues {
  import opened Wrappers
  import opened Text

  datatype Json =
    | Null
    | Bool(b: bool)
    | Int(n: int)               // a Number that is an i64 or u64
    | Float(text: string)       // a Number that is an f64, by its text
    | Str(s: string)
    | Array(items: seq<Json>)
    | Object(fields: seq<(string, Json)>)

  // ---------------------------------------------------------------------------
  // Key order and well-formed objects
  // ---------------------------------------------------------------------------

  /** `String`'s `Ord`: lexicographic by code point (the same as by UTF-8 bytes). */
  predicate StrLess(a: string, b: string)
  {
    if |a| == 0 then |b| > 0
    else if |b| == 0 then false
    else if a[0] != b[0] then a[0] < b[0]
    else StrLess(a[1..], b[1..])
  }

  lemma {:induction false} StrLessIrreflexive(a: string)
    ensures !StrLess(a, a)
  {
    if |a| > 0 {
      StrLessIrreflexive(a[1..]);
    }
  }

  predicate KeysSorted(fields: seq<(string, Json)>)
  {
    forall i :: 0 <= i < |fields| - 1 ==> StrLess(fields[i].0, fields[i + 1].0)
  }

  /** Every object, at every depth, lists its keys in strictly increasing order. */
  predicate WellFormed(j: Json)
  {
    match j
    case Array(items) => forall i :: 0 <= i < |items| ==> WellFormed(items[i])
    case Object(fields) => KeysSorted(fields) && forall i :: 0 <= i < |fields| ==> WellFormed(fields[i].1)
    case _ => true
  }

  /** The value stored under `key`, if any (`Map::get`). */
  function Get(fields: seq<(string, Json)>, key: string): (r: Option<Json>)
    ensures r.Some? <==> exists i :: 0 <= i < |fields| && fields[i].0 == key
    ensures r.Some? ==> exists i :: 0 <= i < |fields| && fields[i] == (key, r.value)
  {
    if |fields| == 0 then None
    else if fields[0].0 == key then Some(fields[0].1)
    else
      var r := Get(fields[1..], key);
      assert forall i :: 1 <= i < |fields| ==> fields[i] == fields[1..][i - 1];
      r
  }

  /** `value.get(key)` on any value: only objects have keys. */
  function Field(j: Json, key: string): (r: Option<Json>)
    ensures !j.Object? ==> r == None
  {
    if j.Object? then Get(j.fields, key) else None
  }

  // ---------------------------------------------------------------------------
  // JSON Pointer
  // ---------------------------------------------------------------------------

  /** A reference token with `~1` read as `/` and then `~0` read as `~`. */
  function Unescape(token: string): string
  {
    Replace(Replace(token, "~1", "/"), "~0", "~")
  }

  /**
   * The array index a token denotes: decimal digits without a sign or a
   * leading zero (`serde_json`'s `parse_index`).
   */
  function ParseIndex(token: string): (r: Option<nat>)
    ensures r.Some? ==> |token| > 0 && token[0] != '+' && AllDigits(token)
    ensures r.Some? && |token| > 1 ==> token[0] != '0'
  {
    if |token| > 0 && token[0] == '+' then None
    else if |token| > 0 && token[0] == '0' && |token| != 1 then None
    else ParseUsize(token)
  }

  /** One step of a pointer: an object key, or an index into an array. */
  function Step(j: Json, token: string): (r: Option<Json>)
    ensures j.Object? ==> r == Get(j.fields, token)
    ensures !j.Object? && !j.Array? ==> r == None
  {
    match j
    case Object(fields) => Get(fields, token)
    case Array(items) =>
      (match ParseIndex(token)
       case Some(i) => if i < |items| then Some(items[i]) else None
       case None => None)
    case _ => None
  }

  /** Follow a list of (unescaped) reference tokens from `j`. */
  function Walk(j: Json, tokens: seq<string>): (r: Option<Json>)
    ensures |tokens| == 1 ==> r == Step(j, tokens[0])
    decreases |tokens|
  {
    if |tokens| == 0 then Some(j)
    else
      match Step(j, tokens[0])
      case None => None
      case Some(child) => Walk(child, tokens[1..])
  }

  /** The unescaped reference tokens of a pointer that starts with `/`. */
  function PointerTokens(p: string): seq<string>
  {
    var raw := Split(p, '/')[1..];
    seq(|raw|, i requires 0 <= i < |raw| => Unescape(raw[i]))
  }

  /** `Value::pointer(p)`: the empty pointer is the whole value; otherwise `p` must start with `/`. */
  function Pointer(j: Json, p: string): (r: Option<Json>)
    ensures p == "" ==> r == Some(j)
    ensures p != "" && p[0] != '/' ==> r == None
  {
    if p == "" then Some(j)
    else if p[0] != '/' then None
    else Walk(j, PointerTokens(p))
  }

  /** The tokens of `/` followed by one `/`-free token. */
  lemma SingleToken(token: string)
    requires '/' !in token
    ensures Split("/" + token, '/') == [[], token]
  {
    var p := "/" + token;
    assert OccursAt(p, ['/'], 0);
    FindSpec(p, ['/']);
    assert p[1..] == token;
    FindAbsent(token, ['/']);
  }

  /** On an object, `/key` finds the value stored under a key that has no `/` or `~`. */
  lemma PointerToField(fields: seq<(string, Json)>, key: string)
    requires '/' !in key && '~' !in key
    ensures Pointer(Object(fields), "/" + key) == Get(fields, key)
  {
    SingleToken(key);
    TildeFreeUnescape(key);
    assert PointerTokens("/" + key) == [key];
  }

  lemma {:induction false} DecimalNoLeadingZero(n: nat)
    requires n > 0
    ensures Decimal(n)[0] != '0'
  {
    if n >= 10 {
      DecimalNoLeadingZero(n / 10);
    }
  }

  /** On an array, `/i` with `i` in decimal finds element `i`. */
  lemma PointerToElement(items: seq<Json>, i: nat)
    requires i < |items| && i < 0x1_0000_0000_0000_0000
    ensures Pointer(Array(items), "/" + Decimal(i)) == Some(items[i])
  {
    var token := Decimal(i);
    assert '/' !in token && '~' !in token by {
      assert AllDigits(token);
    }
    SingleToken(token);
    TildeFreeUnescape(token);
    assert PointerTokens("/" + token) == [token];
    DecimalValue(i);
    if i > 0 {
      DecimalNoLeadingZero(i);
    }
    assert token[0] != '+' by {
      assert IsDigit(token[0]);
    }
    ParseU64Decimal(i);
    assert ParseIndex(token) == Some(i);
  }

  lemma TildeFreeUnescape(key: string)
    requires '~' !in key
    ensures Unescape(key) == key
  {
    FindAbsent(key, "~1");
    FindAbsent(key, "~0");
  }

  // ---------------------------------------------------------------------------
  // Serialisation
  // ---------------------------------------------------------------------------

  const HEX_DIGITS: string := "0123456789abcdef"

  /** How `serde_json` writes one character inside a string literal. */
  function EscapeChar(c: char): (r: string)
    ensures |r| >= 1
  {
    if c == '"' then "\\\""
    else if c == '\\' then "\\\\"
    else if c == '\U{8}' then "\\b"
    else if c == '\U{C}' then "\\f"
    else if c == '\n' then "\\n"
    else if c == '\r' then "\\r"
    else if c == '\t' then "\\t"
    else if (c as int) < 0x20 then "\\u00" + [HEX_DIGITS[(c as int) / 16], HEX_DIGITS[(c as int) % 16]]
    else [c]
  }

  function Escape(s: string): string
  {
    if |s| == 0 then [] else EscapeChar(s[0]) + Escape(s[1..])
  }

  /** A string literal: the escaped text in double quotes. */
  function Quote(s: string): (r: string)
    ensures |r| >= 2 && r[0] == '"' && r[|r| - 1] == '"'
  {
    "\"" + Escape(s) + "\""
  }

  /** `Value::to_string`: compact JSON text, no spaces. */
  function Serialize(j: Json): string
    decreases j, 1
  {
    match j
    case Null => "null"
    case Bool(b) => if b then "true" else "false"
    case Int(n) => SignedDecimal(n)
    case Float(text) => text
    case Str(s) => Quote(s)
    case Array(items) => "[" + SerializeItems(j, items) + "]"
    case Object(fields) => "{" + SerializeFields(j, fields) + "}"
  }

  function SerializeItems(parent: Json, items: seq<Json>): string
    requires forall i :: 0 <= i < |items| ==> items[i] < parent
    decreases parent, 0, |items|
  {
    if |items| == 0 then []
    else if |items| == 1 then Serialize(items[0])
    else Serialize(items[0]) + "," + SerializeItems(parent, items[1..])
  }

  function SerializeFields(parent: Json, fields: seq<(string, Json)>): string
    requires forall i :: 0 <= i < |fields| ==> fields[i].1 < parent
    decreases parent, 0, |fields|
  {
    if |fields| == 0 then []
    else
      var entry := Quote(fields[0].0) + ":" + Serialize(fields[0].1);
      if |fields| == 1 then entry else entry + "," + SerializeFields(parent, fields[1..])
  }

  // ---------------------------------------------------------------------------
  // Reading escapes back
  // ---------------------------------------------------------------------------

  /** The value of a hexadecimal digit, in either case. */
  function HexValue(c: char): (r: Option<nat>)
    ensures r.Some? ==> r.value < 16
  {
    if '0' <= c <= '9' then Some(c as int - '0' as int)
    else if 'a' <= c <= 'f' then Some(c as int - 'a' as int + 10)
    else if 'A' <= c <= 'F' then Some(c as int - 'A' as int + 10)
    else None
  }

  /** The character a two-character escape `\e` stands for, if `e` names one. */
  function ShortEscape(e: char): Option<char>
  {
    if e == '"' then Some('"') else if e == '\\' then Some('\\') else if e == '/' then Some('/')
    else if e == 'b' then Some('\U{8}') else if e == 'f' then Some('\U{C}') else if e == 'n' then Some('\n')
    else if e == 'r' then Some('\r') else if e == 't' then Some('\t') else None
  }

  /**
   * The escape at the start of `t`, which starts with a backslash: the
   * character it stands for and how many characters it spans. A `\u`
   * escape needs four hexadecimal digits and must not name a surrogate.
   */
  function EscapeAt(t: string): (r: Option<(char, nat)>)
    requires |t| >= 1 && t[0] == '\\'
    ensures r.Some? ==> 2 <= r.value.1 <= |t|
  {
    if |t| < 2 then None
    else if t[1] == 'u' then
      if |t| < 6 then None
      else
        match (HexValue(t[2]), HexValue(t[3]), HexValue(t[4]), HexValue(t[5]))
        case (Some(a), Some(b), Some(c), Some(d)) =>
          var code := ((a * 16 + b) * 16 + c) * 16 + d;
          if 0xD800 <= code < 0xE000 then None else Some((code as char, 6))
        case _ => None
    else
      match ShortEscape(t[1])
      case None => None
      case Some(ch) => Some((ch, 2))
  }

  /** `c` in front of a decoded rest, if the rest decoded. */
  function Prepend(c: char, rest: Option<string>): (r: Option<string>)
    ensures r.Some? <==> rest.Some?
    ensures r.Some? ==> r.value == [c] + rest.value
  {
    match rest
    case Some(tail) => Some([c] + tail)
    case None => None
  }

  /** Decode the body of a string literal; `None` if an escape is malformed. */
  function UnescapeLiteral(t: string): Option<string>
    decreases |t|
  {
    if |t| == 0 then Some([])
    else if t[0] != '\\' then Prepend(t[0], UnescapeLiteral(t[1..]))
    else
      match EscapeAt(t)
      case None => None
      case Some((ch, n)) => Prepend(ch, UnescapeLiteral(t[n..]))
  }

  /** A control character's `\u00XX` escape reads back as that character. */
  lemma UnicodeEscapeReads(c: char, rest: string)
    requires (c as int) < 0x20
    ensures EscapeAt("\\u00" + [HEX_DIGITS[(c as int) / 16], HEX_DIGITS[(c as int) % 16]] + rest) == Some((c, 6))
  {
    var hi, lo := (c as int) / 16, (c as int) % 16;
    assert HexValue(HEX_DIGITS[hi]) == Some(hi);
    assert HexValue(HEX_DIGITS[lo]) == Some(lo);
    assert ((0 * 16 + 0) * 16 + hi) * 16 + lo == c as int;
  }

  /** Decoding an escaped character followed by more text gives the character, then the decoded rest. */
  lemma UnescapeEscapeChar(c: char, rest: string)
    ensures UnescapeLiteral(EscapeChar(c) + rest) == Prepend(c, UnescapeLiteral(rest))
  {
    var t := EscapeChar(c) + rest;
    if c == '"' || c == '\\' || c == '\U{8}' || c == '\U{C}' || c == '\n' || c == '\r' || c == '\t' {
      assert EscapeAt(t) == Some((c, 2));
      assert t[2..] == rest;
    } else if (c as int) < 0x20 {
      UnicodeEscapeReads(c, rest);
      assert t[6..] == rest;
    } else {
      assert t[1..] == rest;
    }
  }

  /** Escaping loses nothing: decoding an escaped string gives it back. */
  lemma {:induction false} UnescapeEscape(s: string)
    ensures UnescapeLiteral(Escape(s)) == Some(s)
  {
    if |s| > 0 {
      UnescapeEscape(s[1..]);
      UnescapeEscapeChar(s[0], Escape(s[1..]));
      assert [s[0]] + s[1..] == s;
    }
  }

  // ---------------------------------------------------------------------------
  // Byte length
  // ---------------------------------------------------------------------------

  /** Bytes of one character in UTF-8. */
  function Utf8Width(c: char): (n: nat)
    ensures 1 <= n <= 4
  {
    if (c as int) < 0x80 then 1 else if (c as int) < 0x800 then 2 else if (c as int) < 0x1_0000 then 3 else 4
  }

  /** `str::len`: the UTF-8 byte length. */
  function Utf8Len(s: string): (n: nat)
    ensures |s| <= n <= 4 * |s|
  {
    if |s| == 0 then 0 else Utf8Width(s[0]) + Utf8Len(s[1..])
  }

  lemma {:induction false} Utf8LenAppend(a: string, b: string)
    ensures Utf8Len(a + b) == Utf8Len(a) + Utf8Len(b)
    decreases |a|
  {
    if |a| > 0 {
      assert (a + b)[1..] == a[1..] + b;
      Utf8LenAppend(a[1..], b);
    } else {
      assert a + b == b;
    }
  }

  /** For ASCII text the byte length is the character count. */
  lemma {:induction false} Utf8LenAscii(s: string)
    requires forall k :: 0 <= k < |s| ==> (s[k] as int) < 0x80
    ensures Utf8Len(s) == |s|
  {
    if |s| > 0 {
      Utf8LenAscii(s[1..]);
    }
  }
}
