/** The session cookie's value (lib/auth.ts): `JSON.stringify({ key, isAdmin })` when
    written, `JSON.parse` when read back. The reader accepts any JSON text, so the whole
    JSON grammar is parsed into a `Value`; what the session gate makes of a value that is
    not the writer's object is decided in `Auth`. */
module SessionCodec {
  import opened Common
  import AccessKeys

  /** A JSON value as `JSON.parse` builds it. A number keeps the text it was written with;
      an object keeps its members in the order written, duplicates included. */
  datatype Value =
    | Null
    | Bool(b: bool)
    | Number(text: string)
    | Str(s: string)
    | Array(items: seq<Value>)
    | Object(members: seq<(string, Value)>)

  const HexDigits: string := "0123456789abcdef"

  function HexDigit(n: nat): char
    requires n < 16
  {
    HexDigits[n]
  }

  /** A hexadecimal digit of either case, as `\u` escapes accept. */
  function HexValue(c: char): (r: Option<nat>)
    ensures r.Some? ==> r.value < 16
  {
    if '0' <= c <= '9' then Some(c as nat - '0' as nat)
    else if 'a' <= c <= 'f' then Some(c as nat - 'a' as nat + 10)
    else if 'A' <= c <= 'F' then Some(c as nat - 'A' as nat + 10)
    else None
  }

  lemma HexDigitValue(n: nat)
    requires n < 16
    ensures HexValue(HexDigit(n)) == Some(n)
  {
  }

  /** `JSON.stringify` on one character: the quote and the backslash are escaped, the
      five control characters with a short escape use it, the other control characters
      become `\u00xx` in lower-case hexadecimal, and everything else stays as is. */
  function EscapeChar(c: char): (r: string)
    ensures |r| >= 1
    ensures r[0] == '\\' <==> (c == '"' || c == '\\' || c < ' ')
    ensures c != '"' && c != '\\' && c >= ' ' ==> r == [c]
    ensures forall i :: 0 <= i < |r| ==> r[i] >= ' '
  {
    if c == '"' then "\\\""
    else if c == '\\' then "\\\\"
    else if c == '\U{0008}' then "\\b"
    else if c == '\U{000C}' then "\\f"
    else if c == '\n' then "\\n"
    else if c == '\r' then "\\r"
    else if c == '\t' then "\\t"
    else if c < ' ' then "\\u00" + [HexDigit(c as nat / 16), HexDigit(c as nat % 16)]
    else [c]
  }

  /** The body of a JSON string literal. */
  function Escape(s: string): (r: string)
    ensures |r| >= |s|
  {
    if |s| == 0 then "" else EscapeChar(s[0]) + Escape(s[1..])
  }

  /** The flag's JSON text: the number 1 or 0 is written as a digit, a boolean as
      `true` or `false`. */
  function FlagText(f: AccessKeys.AdminFlag): string {
    match f
    case Bit(b) => if b then "1" else "0"
    case Boolean(b) => if b then "true" else "false"
  }

  /** The value `JSON.parse` makes of the flag's text. */
  function FlagValue(f: AccessKeys.AdminFlag): Value {
    match f
    case Bit(b) => Number(if b then "1" else "0")
    case Boolean(b) => Bool(b)
  }

  /** `JSON.stringify({ key, isAdmin })`: no whitespace, members in declaration order. */
  function Encode(key: string, isAdmin: AccessKeys.AdminFlag): (r: string)
    ensures |r| >= |key| + 22
    ensures r[0] == '{' && r[|r| - 1] == '}'
  {
    "{" + ("\"key\":" + ("\"" + Escape(key) + "\"" + ("," + ("\"isAdmin\":" + (FlagText(isAdmin) + "}")))))
  }

  /** The object `JSON.parse` makes of a written cookie. */
  function SessionObject(key: string, isAdmin: AccessKeys.AdminFlag): Value {
    Object([("key", Str(key)), ("isAdmin", FlagValue(isAdmin))])
  }

  /** The four whitespace characters of the JSON grammar. */
  predicate IsJsonWhitespace(c: char) {
    c == ' ' || c == '\t' || c == '\n' || c == '\r'
  }

  function SkipWs(s: string): (r: string)
    ensures |r| <= |s|
    ensures |r| == 0 || !IsJsonWhitespace(r[0])
  {
    if |s| > 0 && IsJsonWhitespace(s[0]) then SkipWs(s[1..]) else s
  }

  /** `s` after optional whitespace and the exact text `lit`. */
  function Token(lit: string, s: string): (r: Option<string>)
    ensures r.Some? ==> |r.value| + |lit| <= |s|
  {
    var t := SkipWs(s);
    if |lit| <= |t| && t[..|lit|] == lit then Some(t[|lit|..]) else None
  }

  /** The character an escape stands for, given the text after the backslash, and the text
      after the escape. A `\u` escape naming a UTF-16 surrogate is refused. */
  function Unescape1(s: string): (r: Option<(char, string)>)
    ensures r.Some? ==> |r.value.1| < |s|
  {
    if |s| == 0 then None
    else if s[0] == '"' || s[0] == '\\' || s[0] == '/' then Some((s[0], s[1..]))
    else if s[0] == 'b' then Some(('\U{0008}', s[1..]))
    else if s[0] == 'f' then Some(('\U{000C}', s[1..]))
    else if s[0] == 'n' then Some(('\n', s[1..]))
    else if s[0] == 'r' then Some(('\r', s[1..]))
    else if s[0] == 't' then Some(('\t', s[1..]))
    else if s[0] == 'u' && |s| >= 5 then
      var d := [HexValue(s[1]), HexValue(s[2]), HexValue(s[3]), HexValue(s[4])];
      if d[0].None? || d[1].None? || d[2].None? || d[3].None? then None
      else
        var v := ((d[0].value * 16 + d[1].value) * 16 + d[2].value) * 16 + d[3].value;
        if 0xD800 <= v < 0xE000 then None else Some((v as char, s[5..]))
    else None
  }

  /** The body of a string literal up to its closing quote: the decoded text and what
      follows the quote. A raw control character or a bad escape is a syntax error. */
  function Unquote(s: string): (r: Option<(string, string)>)
    ensures r.Some? ==> |r.value.1| < |s|
    decreases |s|
  {
    if |s| == 0 then None
    else if s[0] == '"' then Some(("", s[1..]))
    else if s[0] < ' ' then None
    else if s[0] == '\\' then
      match Unescape1(s[1..])
      case None => None
      case Some((c, rest)) =>
        match Unquote(rest)
        case None => None
        case Some((body, after)) => Some(([c] + body, after))
    else
      match Unquote(s[1..])
      case None => None
      case Some((body, after)) => Some(([s[0]] + body, after))
  }

  /** `t` begins with the text `lit`. */
  predicate StartsWith(t: string, lit: string) {
    |lit| <= |t| && t[..|lit|] == lit
  }

  predicate IsDigit(c: char) {
    '0' <= c <= '9'
  }

  /** The number of decimal digits `s` starts with. */
  function Digits(s: string): (n: nat)
    ensures n <= |s|
    ensures forall i :: 0 <= i < n ==> IsDigit(s[i])
    ensures n < |s| ==> !IsDigit(s[n])
  {
    if |s| > 0 && IsDigit(s[0]) then 1 + Digits(s[1..]) else 0
  }

  /** The length of the JSON number `s` starts with: an optional minus; `0` or a run of
      digits not starting with `0`; optionally `.` and digits; optionally `e` or `E`, a
      sign and digits. `None` when no number starts there. */
  function NumberLength(s: string): (r: Option<nat>)
    ensures r.Some? ==> 0 < r.value <= |s| && (s[0] == '-' || IsDigit(s[0]))
  {
    var i := if |s| > 0 && s[0] == '-' then 1 else 0;
    var whole := if i < |s| && s[i] == '0' then 1 else Digits(s[i..]);
    if whole == 0 then None
    else
      var j := i + whole;
      var hasFraction := j < |s| && s[j] == '.';
      var fraction := if hasFraction then Digits(s[j + 1..]) else 0;
      if hasFraction && fraction == 0 then None
      else
        var k := if hasFraction then j + 1 + fraction else j;
        if k < |s| && (s[k] == 'e' || s[k] == 'E') then
          var m := if k + 1 < |s| && (s[k + 1] == '+' || s[k + 1] == '-') then k + 2 else k + 1;
          var exponent := Digits(s[m..]);
          if exponent == 0 then None else Some(m + exponent)
        else Some(k)
  }

  /** The first character of a value's text determines its kind. */
  predicate Opens(c: char, v: Value) {
    match v
    case Null => c == 'n'
    case Bool(b) => c == (if b then 't' else 'f')
    case Number(_) => c == '-' || IsDigit(c)
    case Str(_) => c == '"'
    case Array(_) => c == '['
    case Object(_) => c == '{'
  }

  /** One JSON value at the start of `s`, after optional whitespace: the value and the
      text after it. */
  function ParseValue(s: string): (r: Option<(Value, string)>)
    ensures r.Some? ==> |r.value.1| < |s|
    ensures r.Some? ==> |SkipWs(s)| > 0 && Opens(SkipWs(s)[0], r.value.0)
    decreases |s|, 0
  {
    var t := SkipWs(s);
    if |t| == 0 then None
    else if t[0] == '{' then ParseObject(t[1..])
    else if t[0] == '[' then ParseArray(t[1..])
    else if t[0] == '"' then
      match Unquote(t[1..])
      case None => None
      case Some((body, rest)) => Some((Str(body), rest))
    else if StartsWith(t, "true") then Some((Bool(true), t[4..]))
    else if StartsWith(t, "false") then Some((Bool(false), t[5..]))
    else if StartsWith(t, "null") then Some((Null, t[4..]))
    else
      match NumberLength(t)
      case None => None
      case Some(n) => Some((Number(t[..n]), t[n..]))
  }

  /** An object after its `{`: empty, or members up to the closing `}`. */
  function ParseObject(s: string): (r: Option<(Value, string)>)
    ensures r.Some? ==> |r.value.1| < |s| && r.value.0.Object?
    decreases |s|, 2
  {
    var t := SkipWs(s);
    if |t| > 0 && t[0] == '}' then Some((Object([]), t[1..]))
    else ParseMembers(t, [])
  }

  /** The members of an object from a member's opening quote on, after the members `acc`
      already read. */
  function ParseMembers(s: string, acc: seq<(string, Value)>): (r: Option<(Value, string)>)
    ensures r.Some? ==> |r.value.1| < |s| && r.value.0.Object?
    decreases |s|, 1
  {
    var t := SkipWs(s);
    if |t| == 0 || t[0] != '"' then None
    else
      match Unquote(t[1..])
      case None => None
      case Some((name, afterName)) =>
        match Token(":", afterName)
        case None => None
        case Some(afterColon) =>
          match ParseValue(afterColon)
          case None => None
          case Some((v, afterValue)) =>
            var u := SkipWs(afterValue);
            if |u| > 0 && u[0] == ',' then ParseMembers(u[1..], acc + [(name, v)])
            else if |u| > 0 && u[0] == '}' then Some((Object(acc + [(name, v)]), u[1..]))
            else None
  }

  /** An array after its `[`: empty, or elements up to the closing `]`. */
  function ParseArray(s: string): (r: Option<(Value, string)>)
    ensures r.Some? ==> |r.value.1| < |s| && r.value.0.Array?
    decreases |s|, 2
  {
    var t := SkipWs(s);
    if |t| > 0 && t[0] == ']' then Some((Array([]), t[1..]))
    else ParseElements(t, [])
  }

  /** The elements of an array from an element on, after the elements `acc` already read. */
  function ParseElements(s: string, acc: seq<Value>): (r: Option<(Value, string)>)
    ensures r.Some? ==> |r.value.1| < |s| && r.value.0.Array?
    decreases |s|, 1
  {
    match ParseValue(s)
    case None => None
    case Some((v, afterValue)) =>
      var u := SkipWs(afterValue);
      if |u| > 0 && u[0] == ',' then ParseElements(u[1..], acc + [v])
      else if |u| > 0 && u[0] == ']' then Some((Array(acc + [v]), u[1..]))
      else None
  }

  /** `JSON.parse(text)`: one value with nothing but whitespace around it; `None` is the
      `SyntaxError` it throws. */
  function Decode(text: string): (r: Option<Value>)
    ensures r.Some? ==> |SkipWs(text)| > 0 && Opens(SkipWs(text)[0], r.value)
  {
    match ParseValue(text)
    case None => None
    case Some((v, rest)) => if |SkipWs(rest)| == 0 then Some(v) else None
  }

  /** The value of the last member named `name`: `JSON.parse` lets a later duplicate
      overwrite an earlier one. */
  function LastMember(ms: seq<(string, Value)>, name: string): (r: Option<Value>)
    ensures r.None? <==> forall i :: 0 <= i < |ms| ==> ms[i].0 != name
    ensures r.Some? ==>
      exists i :: 0 <= i < |ms| && ms[i] == (name, r.value) && forall j :: i < j < |ms| ==> ms[j].0 != name
  {
    if |ms| == 0 then None
    else if ms[|ms| - 1].0 == name then Some(ms[|ms| - 1].1)
    else
      var r := LastMember(ms[..|ms| - 1], name);
      assert forall i :: 0 <= i < |ms| - 1 ==> ms[..|ms| - 1][i] == ms[i];
      r
  }

  /** `value[name]` on a parsed value; `None` is `undefined`. Only an object has members:
      a string, a number, a boolean or an array answers `undefined`. */
  function Member(v: Value, name: string): (r: Option<Value>)
    ensures r.Some? ==> v.Object? && (name, r.value) in v.members
    ensures v.Object? ==> r == LastMember(v.members, name)
    ensures !v.Object? ==> r.None?
  {
    if v.Object? then LastMember(v.members, name) else None
  }

  /** No digit from 1 to 9 comes before the exponent of a number's text. */
  predicate ZeroMantissa(t: string) {
    |t| == 0 || t[0] == 'e' || t[0] == 'E' || (!('1' <= t[0] <= '9') && ZeroMantissa(t[1..]))
  }

  /** JavaScript truthiness of a member read; `None` is `undefined`. A number is falsy
      exactly when its value is zero, however it is spelt. */
  predicate ValueTruthy(v: Option<Value>) {
    match v
    case None => false
    case Some(Null) => false
    case Some(Bool(b)) => b
    case Some(Number(text)) => !ZeroMantissa(text)
    case Some(Str(s)) => s != ""
    case Some(_) => true
  }

  /** Decoding one escaped character and then the rest is decoding the rest. */
  lemma UnquoteOne(c: char, tail: string)
    ensures Unquote(EscapeChar(c) + tail) ==
      match Unquote(tail)
      case None => None
      case Some((body, after)) => Some(([c] + body, after))
  {
    var e := EscapeChar(c);
    var s := e + tail;
    if c < ' ' && c != '\U{0008}' && c != '\U{000C}' && c != '\n' && c != '\r' && c != '\t' {
      UnicodeEscapeOne(c, tail);
      assert s[1..] == e[1..] + tail;
    } else if c == '"' || c == '\\' || c < ' ' {
      assert s[1..] == e[1..] + tail;
    } else {
      assert s[0] == c && s[1..] == tail;
    }
  }

  /** A control character without a short escape reads back from its `\u00XY` form. */
  lemma UnicodeEscapeOne(c: char, tail: string)
    requires c < ' ' && c != '\U{0008}' && c != '\U{000C}' && c != '\n' && c != '\r' && c != '\t'
    ensures Unescape1(EscapeChar(c)[1..] + tail) == Some((c, tail))
  {
    var hi, lo := c as nat / 16, c as nat % 16;
    HexDigitValue(hi);
    HexDigitValue(lo);
    assert EscapeChar(c)[1..] + tail == ['u', HexDigit(0), HexDigit(0), HexDigit(hi), HexDigit(lo)] + tail;
  }

  /** The string body the writer produces reads back as the original text, stopping at
      the closing quote. */
  lemma {:induction false} UnquoteEscape(k: string, rest: string)
    ensures Unquote(Escape(k) + "\"" + rest) == Some((k, rest))
  {
    if |k| == 0 {
      assert Escape(k) + "\"" + rest == ['"'] + rest;
    } else {
      var tail := Escape(k[1..]) + "\"" + rest;
      assert Escape(k) == EscapeChar(k[0]) + Escape(k[1..]);
      assert Escape(k) + "\"" + rest == EscapeChar(k[0]) + tail;
      UnquoteOne(k[0], tail);
      UnquoteEscape(k[1..], rest);
      assert [k[0]] + k[1..] == k;
    }
  }

  lemma TokenPrefix(lit: string, rest: string)
    requires |lit| > 0 && !IsJsonWhitespace(lit[0])
    ensures Token(lit, lit + rest) == Some(rest)
  {
    assert (lit + rest)[..|lit|] == lit;
    assert (lit + rest)[|lit|..] == rest;
  }

  /** Text with no quote, backslash or control character is written as it is. */
  lemma {:induction false} EscapePlain(s: string)
    requires forall i :: 0 <= i < |s| ==> s[i] != '"' && s[i] != '\\' && s[i] >= ' '
    ensures Escape(s) == s
  {
    if |s| > 0 {
      EscapePlain(s[1..]);
      assert [s[0]] + s[1..] == s;
    }
  }

  /** A written string literal parses back as the string it was written for. */
  lemma ParseString(k: string, rest: string)
    ensures ParseValue("\"" + Escape(k) + "\"" + rest) == Some((Str(k), rest))
  {
    var t := "\"" + Escape(k) + "\"" + rest;
    assert t[1..] == Escape(k) + "\"" + rest;
    UnquoteEscape(k, rest);
  }

  /** A member whose value is followed by a comma: the remaining members are read next. */
  lemma MemberThenComma(name: string, text: string, v: Value, tail: string, acc: seq<(string, Value)>)
    requires ParseValue(text) == Some((v, "," + tail))
    ensures ParseMembers("\"" + Escape(name) + "\":" + text, acc) == ParseMembers(tail, acc + [(name, v)])
  {
    MemberName(name, text);
    var u := "," + tail;
    assert SkipWs(u) == u && u[1..] == tail;
  }

  /** A member whose value is followed by `}`: the object ends there. */
  lemma MemberThenClose(name: string, text: string, v: Value, tail: string, acc: seq<(string, Value)>)
    requires ParseValue(text) == Some((v, "}" + tail))
    ensures ParseMembers("\"" + Escape(name) + "\":" + text, acc) == Some((Object(acc + [(name, v)]), tail))
  {
    MemberName(name, text);
    var u := "}" + tail;
    assert SkipWs(u) == u && u[1..] == tail;
  }

  /** A member's written name and colon read back as the name, leaving the value's text. */
  lemma MemberName(name: string, text: string)
    ensures var t := "\"" + Escape(name) + "\":" + text;
      && SkipWs(t) == t && t[0] == '"'
      && Unquote(t[1..]) == Some((name, ":" + text))
      && Token(":", ":" + text) == Some(text)
  {
    var t := "\"" + Escape(name) + "\":" + text;
    assert t[1..] == Escape(name) + "\"" + (":" + text);
    UnquoteEscape(name, ":" + text);
    TokenPrefix(":", text);
  }

  /** The flag's text parses back as its value, in front of a comma or a closing brace. */
  lemma ParseFlag(f: AccessKeys.AdminFlag, rest: string)
    requires |rest| > 0 && (rest[0] == ',' || rest[0] == '}')
    ensures ParseValue(FlagText(f) + rest) == Some((FlagValue(f), rest))
  {
    match f
    case Bit(b) => ParseDigit(if b then '1' else '0', rest);
    case Boolean(b) => ParseBoolean(b, rest);
  }

  lemma ParseDigit(d: char, rest: string)
    requires d == '0' || d == '1'
    requires |rest| > 0 && (rest[0] == ',' || rest[0] == '}')
    ensures ParseValue([d] + rest) == Some((Number([d]), rest))
  {
    var t := [d] + rest;
    assert t[0] == d && t[1..] == rest;
    assert SkipWs(t) == t;
    assert !StartsWith(t, "true") && !StartsWith(t, "false") && !StartsWith(t, "null");
    assert Digits(t[1..]) == 0;
    assert Digits(t) == 1;
    assert NumberLength(t) == Some(1);
    assert t[..1] == [d];
  }

  lemma ParseBoolean(b: bool, rest: string)
    requires |rest| > 0 && (rest[0] == ',' || rest[0] == '}')
    ensures ParseValue((if b then "true" else "false") + rest) == Some((Bool(b), rest))
  {
    var t := (if b then "true" else "false") + rest;
    assert SkipWs(t) == t;
    if b {
      assert StartsWith(t, "true") && t[4..] == rest;
    } else {
      assert t[0] == 'f' && !StartsWith(t, "true");
      assert StartsWith(t, "false") && t[5..] == rest;
    }
  }

  /** Reading back what was written gives the writer's object: the cookie round trip, for
      every key text and both spellings of the flag. */
  lemma DecodeEncode(key: string, f: AccessKeys.AdminFlag)
    ensures Decode(Encode(key, f)) == Some(SessionObject(key, f))
  {
    ParseEncoded(key, f, "");
    assert Encode(key, f) + "" == Encode(key, f);
    assert SkipWs("") == "";
  }

  /** `JSON.parse` refuses the writer's text with anything but whitespace appended: the
      object is one complete value, and what follows it is left over. */
  lemma DecodeRefusesTrailing(key: string, f: AccessKeys.AdminFlag, extra: string)
    requires |SkipWs(extra)| > 0
    ensures Decode(Encode(key, f) + extra).None?
  {
    ParseEncoded(key, f, extra);
  }

  /** The writer's text reads as the writer's object and stops at its closing brace,
      whatever follows. */
  lemma ParseEncoded(key: string, f: AccessKeys.AdminFlag, extra: string)
    ensures ParseValue(Encode(key, f) + extra) == Some((SessionObject(key, f), extra))
  {
    var second := "\"isAdmin\":" + (FlagText(f) + ("}" + extra));
    var first := "\"key\":" + ("\"" + Escape(key) + "\"" + ("," + second));
    assert Encode(key, f) + extra == "{" + first;
    KeyMemberParses(key, second, [("key", Str(key))]);
    AdminMemberParses(f, [("key", Str(key))], extra);
    assert [("key", Str(key))] + [("isAdmin", FlagValue(f))] == [("key", Str(key)), ("isAdmin", FlagValue(f))];
    ObjectText(first);
  }

  /** The `key` member, followed by a comma: the members after it are read next. */
  lemma KeyMemberParses(key: string, second: string, acc: seq<(string, Value)>)
    requires acc == [("key", Str(key))]
    ensures ParseMembers("\"key\":" + ("\"" + Escape(key) + "\"" + ("," + second)), []) == ParseMembers(second, acc)
  {
    var value := "\"" + Escape(key) + "\"" + ("," + second);
    KeyMemberText(value);
    ParseString(key, "," + second);
    MemberThenComma("key", value, Str(key), second, []);
    assert [] + [("key", Str(key))] == acc;
  }

  /** The `isAdmin` member, followed by the closing brace: the object ends with it. */
  lemma AdminMemberParses(f: AccessKeys.AdminFlag, acc: seq<(string, Value)>, tail: string)
    ensures ParseMembers("\"isAdmin\":" + (FlagText(f) + ("}" + tail)), acc) == Some((Object(acc + [("isAdmin", FlagValue(f))]), tail))
  {
    AdminMemberText(FlagText(f) + ("}" + tail));
    ParseFlag(f, "}" + tail);
    MemberThenClose("isAdmin", FlagText(f) + ("}" + tail), FlagValue(f), tail, acc);
  }

  /** `JSON.parse` does not care about member order: the writer's two members the other
      way round read as the same members. */
  lemma DecodeReordered(key: string, f: AccessKeys.AdminFlag)
    ensures var text := "{" + ("\"isAdmin\":" + (FlagText(f) + ("," + ("\"key\":" + ("\"" + Escape(key) + "\"" + "}")))));
      && Decode(text).Some?
      && Member(Decode(text).value, "key") == Some(Str(key))
      && Member(Decode(text).value, "isAdmin") == Some(FlagValue(f))
  {
    ParseReordered(key, f);
    ReorderedMembers(key, f);
  }

  lemma ParseReordered(key: string, f: AccessKeys.AdminFlag)
    ensures var text := "{" + ("\"isAdmin\":" + (FlagText(f) + ("," + ("\"key\":" + ("\"" + Escape(key) + "\"" + "}")))));
      Decode(text) == Some(Object([("isAdmin", FlagValue(f)), ("key", Str(key))]))
  {
    var second := "\"key\":" + ("\"" + Escape(key) + "\"" + "}");
    var first := "\"isAdmin\":" + (FlagText(f) + ("," + second));
    AdminMemberText(FlagText(f) + ("," + second));
    ParseFlag(f, "," + second);
    MemberThenComma("isAdmin", FlagText(f) + ("," + second), FlagValue(f), second, []);
    KeyLastMember(key, [("isAdmin", FlagValue(f))]);
    assert [("isAdmin", FlagValue(f))] + [("key", Str(key))] == [("isAdmin", FlagValue(f)), ("key", Str(key))];
    assert [] + [("isAdmin", FlagValue(f))] == [("isAdmin", FlagValue(f))];
    DecodeObject(first, Object([("isAdmin", FlagValue(f)), ("key", Str(key))]));
  }

  /** The `key` member, followed by the closing brace: the object ends with it. */
  lemma KeyLastMember(key: string, acc: seq<(string, Value)>)
    ensures ParseMembers("\"key\":" + ("\"" + Escape(key) + "\"" + "}"), acc) == Some((Object(acc + [("key", Str(key))]), ""))
  {
    KeyMemberText("\"" + Escape(key) + "\"" + "}");
    ParseString(key, "}");
    assert "}" + "" == "}";
    MemberThenClose("key", "\"" + Escape(key) + "\"" + "}", Str(key), "", acc);
  }

  lemma ReorderedMembers(key: string, f: AccessKeys.AdminFlag)
    ensures var v := Object([("isAdmin", FlagValue(f)), ("key", Str(key))]);
      Member(v, "key") == Some(Str(key)) && Member(v, "isAdmin") == Some(FlagValue(f))
  {
    var ms := [("isAdmin", FlagValue(f)), ("key", Str(key))];
    assert ms[..1] == [("isAdmin", FlagValue(f))];
    assert ms[1].0 != "isAdmin";
    assert LastMember(ms, "isAdmin") == LastMember(ms[..1], "isAdmin");
    assert LastMember(ms[..1], "isAdmin") == Some(FlagValue(f));
  }

  /** Texts that are JSON but not an object parse as well: a number, `null`, an array and
      a string. */
  lemma DecodeScalars()
    ensures Decode("5") == Some(Number("5"))
    ensures Decode("null") == Some(Null)
    ensures Decode("[]") == Some(Array([]))
  {
    assert SkipWs("5") == "5" && SkipWs("null") == "null" && SkipWs("[]") == "[]";
    assert Digits("5"[1..]) == 0;
    assert NumberLength("5") == Some(1);
    assert "5"[..1] == "5" && "5"[1..] == "" && SkipWs("") == "";
    assert StartsWith("null", "null");
    assert SkipWs("]") == "]";
  }

  lemma KeyMemberText(rest: string)
    ensures "\"" + Escape("key") + "\":" + rest == "\"key\":" + rest
  {
    EscapePlain("key");
  }

  lemma AdminMemberText(rest: string)
    ensures "\"" + Escape("isAdmin") + "\":" + rest == "\"isAdmin\":" + rest
  {
    EscapePlain("isAdmin");
  }

  /** An object text whose members read to the end parses as that object. */
  lemma DecodeObject(body: string, v: Value)
    requires |body| > 0 && body[0] == '"'
    requires ParseMembers(body, []) == Some((v, ""))
    ensures Decode("{" + body) == Some(v)
  {
    ObjectText(body);
    assert SkipWs("") == "";
  }

  /** An opening brace followed by a member: the value read is the members read. */
  lemma ObjectText(body: string)
    requires |body| > 0 && body[0] == '"'
    ensures ParseValue("{" + body) == ParseMembers(body, [])
  {
    var t := "{" + body;
    assert t[0] == '{' && t[1..] == body;
    assert SkipWs(body) == body;
    assert ParseObject(body) == ParseMembers(body, []);
    assert SkipWs(t) == t;
  }

  /** Both spellings of a flag have the truthiness of the flag. */
  lemma FlagTruthiness(f: AccessKeys.AdminFlag)
    ensures ValueTruthy(Some(FlagValue(f))) == f.b
  {
    if f.Bit? {
      assert !ZeroMantissa("1");
      assert ZeroMantissa("0") by {
        assert ZeroMantissa("0"[1..]);
      }
    }
  }
}
