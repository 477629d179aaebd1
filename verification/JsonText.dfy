/** Trees of JSON values, the text mozilla::JSONWriter prints for them, and a parser for section 2 of RFC 4627.
    A char stands for one byte of UTF-8 text. */
module JsonText {
  import opened Wrappers

  datatype Style = MultiLine | SingleLine

  /** What a caller prints: every collection asks for a style. */
  datatype Tree =
    | TNull
    | TBool(b: bool)
    | TInt(text: string)
    | TString(s: string)
    | TArray(style: Style, items: seq<Tree>)
    | TObject(style: Style, members: seq<TMember>)
  datatype TMember = TMember(name: string, value: Tree)

  /** What a reader gets back. */
  datatype Json =
    | Null
    | Bool(b: bool)
    | Number(text: string)
    | String(s: string)
    | Array(items: seq<Json>)
    | Object(members: seq<Member>)
  datatype Member = Member(name: string, value: Json)

  function Erase(t: Tree): Json
    decreases t
  {
    match t
    case TNull => Null
    case TBool(b) => Bool(b)
    case TInt(text) => Number(text)
    case TString(s) => String(s)
    case TArray(_, items) => Array(EraseItems(items))
    case TObject(_, members) => Object(EraseMembers(members))
  }

  function EraseItems(items: seq<Tree>): seq<Json>
    decreases items
  {
    if items == [] then [] else [Erase(items[0])] + EraseItems(items[1..])
  }

  function EraseMembers(members: seq<TMember>): seq<Member>
    decreases members
  {
    if members == [] then []
    else [Member(members[0].name, Erase(members[0].value))] + EraseMembers(members[1..])
  }

  // ----- characters

  const BACKSPACE: char := 8 as char
  const FORM_FEED: char := 12 as char

  predicate IsWs(c: char) {
    c == ' ' || c == '\t' || c == '\n' || c == '\r'
  }

  predicate IsDigit(c: char) {
    '0' <= c <= '9'
  }

  predicate IsNumberChar(c: char) {
    IsDigit(c) || c == '-' || c == '+' || c == '.' || c == 'e' || c == 'E'
  }

  /** An integer in the number syntax of RFC 4627, section 2.4. */
  predicate IsInteger(text: string) {
    var digits := if text != [] && text[0] == '-' then text[1..] else text;
    && digits != []
    && (forall i :: 0 <= i < |digits| ==> IsDigit(digits[i]))
    && (digits[0] == '0' ==> |digits| == 1)
  }

  // ----- escaping

  /** gTwoCharEscapes: the second character of a two-character escape. */
  function TwoCharEscape(c: char): Option<char> {
    if c == BACKSPACE then Some('b')
    else if c == '\t' then Some('t')
    else if c == '\n' then Some('n')
    else if c == FORM_FEED then Some('f')
    else if c == '\r' then Some('r')
    else if c == '"' then Some('"')
    else if c == '\\' then Some('\\')
    else None
  }

  function HexDigitToAsciiChar(u: nat): char
    requires u < 16
  {
    if u < 10 then '0' + u as char else 'a' + (u - 10) as char
  }

  function EscapeChar(c: char): string {
    if TwoCharEscape(c).Some? then ['\\', TwoCharEscape(c).value]
    else if c as int <= 0x1f then
      ['\\', 'u', '0', '0', HexDigitToAsciiChar(c as int / 16), HexDigitToAsciiChar(c as int % 16)]
    else [c]
  }

  function Escape(s: string): string {
    if s == [] then [] else EscapeChar(s[0]) + Escape(s[1..])
  }

  /** The part of a span before its first NUL. */
  function UpToNul(s: string): string {
    if s == [] || s[0] == 0 as char then [] else [s[0]] + UpToNul(s[1..])
  }

  predicate NulFree(s: string) {
    0 as char !in s
  }

  // ----- the printed text

  function Spaces(n: nat): string {
    if n == 0 then [] else [' '] + Spaces(n - 1)
  }

  /** What Separator() writes at a depth above 0. */
  function SeparatorText(first: bool, nl0: bool, nl: bool, depth: nat): string {
    (if first then "" else ",") +
    (if nl then "\n" + Spaces(depth) else if !first && nl0 then " " else "")
  }

  function NameText(name: string, nl0: bool): string {
    "\"" + Escape(name) + "\":" + (if nl0 then " " else "")
  }

  function ClosingText(nl: bool, depth: nat, close: char): string {
    (if nl then "\n" + Spaces(depth) else "") + [close]
  }

  predicate Inner(nl: bool, style: Style) {
    nl && style == MultiLine
  }

  /** The text of a value printed at the given depth; nl0 and nl are mNeedNewlines there and at the top. */
  function Render(t: Tree, nl0: bool, nl: bool, depth: nat): string
    decreases t
  {
    match t
    case TNull => "null"
    case TBool(b) => if b then "true" else "false"
    case TInt(text) => text
    case TString(s) => "\"" + Escape(s) + "\""
    case TArray(style, items) =>
      "[" + RenderItems(items, true, nl0, Inner(nl, style), depth + 1) + ClosingText(Inner(nl, style), depth, ']')
    case TObject(style, members) =>
      "{" + RenderMembers(members, true, nl0, Inner(nl, style), depth + 1) + ClosingText(Inner(nl, style), depth, '}')
  }

  function RenderItems(items: seq<Tree>, first: bool, nl0: bool, nl: bool, depth: nat): string
    decreases items
  {
    if items == [] then ""
    else SeparatorText(first, nl0, nl, depth) + Render(items[0], nl0, nl, depth) + RenderItems(items[1..], false, nl0, nl, depth)
  }

  function RenderMembers(members: seq<TMember>, first: bool, nl0: bool, nl: bool, depth: nat): string
    decreases members
  {
    if members == [] then ""
    else SeparatorText(first, nl0, nl, depth) + NameText(members[0].name, nl0) +
         Render(members[0].value, nl0, nl, depth) + RenderMembers(members[1..], false, nl0, nl, depth)
  }

  /** A whole document: its top object, and a final newline unless the writer is single-line. */
  function RenderDocument(style: Style, members: seq<TMember>, nl0: bool): string {
    Render(TObject(style, members), nl0, nl0, 0) + if nl0 then "\n" else ""
  }

  // ----- what may be printed

  predicate Printable(t: Tree)
    decreases t
  {
    match t
    case TInt(text) => IsInteger(text)
    case TString(s) => NulFree(s)
    case TArray(_, items) => PrintableItems(items)
    case TObject(_, members) => PrintableMembers(members)
    case _ => true
  }

  predicate PrintableItems(items: seq<Tree>)
    decreases items
  {
    items == [] || (Printable(items[0]) && PrintableItems(items[1..]))
  }

  predicate PrintableMembers(members: seq<TMember>)
    decreases members
  {
    members == [] ||
    (members[0].name != "" && NulFree(members[0].name) && Printable(members[0].value) && PrintableMembers(members[1..]))
  }

  // ----- parsing (RFC 4627, section 2)

  function Skip(s: string): (r: string)
    ensures |r| <= |s|
  {
    if s != [] && IsWs(s[0]) then Skip(s[1..]) else s
  }

  function HexValue(c: char): Option<nat> {
    if '0' <= c <= '9' then Some(c as int - '0' as int)
    else if 'a' <= c <= 'f' then Some(c as int - 'a' as int + 10)
    else if 'A' <= c <= 'F' then Some(c as int - 'A' as int + 10)
    else None
  }

  /** The character after a backslash; \u escapes beyond one byte of UTF-8 are not decoded. */
  function ParseEscape(s: string): (r: Option<(char, string)>)
    ensures r.Some? ==> |r.value.1| < |s|
  {
    if s == [] then None
    else if s[0] == '"' || s[0] == '\\' || s[0] == '/' then Some((s[0], s[1..]))
    else if s[0] == 'b' then Some((BACKSPACE, s[1..]))
    else if s[0] == 'f' then Some((FORM_FEED, s[1..]))
    else if s[0] == 'n' then Some(('\n', s[1..]))
    else if s[0] == 'r' then Some(('\r', s[1..]))
    else if s[0] == 't' then Some(('\t', s[1..]))
    else if s[0] == 'u' && |s| >= 5 then
      var a, b, c, d := HexValue(s[1]), HexValue(s[2]), HexValue(s[3]), HexValue(s[4]);
      if a == Some(0) && b == Some(0) && c.Some? && d.Some? && c.value < 8 && d.value < 16 then
        Some(((c.value * 16 + d.value) as char, s[5..]))
      else None
    else None
  }

  /** The characters of a string up to its closing quotation mark. */
  function ParseChars(s: string): (r: Option<(string, string)>)
    ensures r.Some? ==> |r.value.1| < |s|
  {
    if s == [] then None
    else if s[0] == '"' then Some(("", s[1..]))
    else if s[0] == '\\' then
      match ParseEscape(s[1..])
      case None => None
      case Some((c, rest)) =>
        match ParseChars(rest)
        case None => None
        case Some((cs, rest')) => Some(([c] + cs, rest'))
    else if s[0] as int < 0x20 then None
    else
      match ParseChars(s[1..])
      case None => None
      case Some((cs, rest)) => Some(([s[0]] + cs, rest))
  }

  function NumberRun(s: string): (n: nat)
    ensures n <= |s|
  {
    if s != [] && IsNumberChar(s[0]) then 1 + NumberRun(s[1..]) else 0
  }

  function ParseValue(s: string): (r: Option<(Json, string)>)
    ensures r.Some? ==> |r.value.1| < |s|
    decreases |s|, 2
  {
    var t := Skip(s);
    if t == [] then None
    else if t[0] == '{' then
      match ParseMembers(t[1..], true)
      case None => None
      case Some((members, rest)) => Some((Object(members), rest))
    else if t[0] == '[' then
      match ParseItems(t[1..], true)
      case None => None
      case Some((items, rest)) => Some((Array(items), rest))
    else if t[0] == '"' then
      match ParseChars(t[1..])
      case None => None
      case Some((cs, rest)) => Some((String(cs), rest))
    else if "null" <= t then Some((Null, t[4..]))
    else if "true" <= t then Some((Bool(true), t[4..]))
    else if "false" <= t then Some((Bool(false), t[5..]))
    else
      var n := NumberRun(t);
      if n > 0 && IsInteger(t[..n]) then Some((Number(t[..n]), t[n..])) else None
  }

  /** The values of an array up to its closing bracket; only the first may be missing. */
  function ParseItems(s: string, first: bool): (r: Option<(seq<Json>, string)>)
    ensures r.Some? ==> |r.value.1| < |s|
    decreases |s|, 3
  {
    var t := Skip(s);
    if first && t != [] && t[0] == ']' then Some(([], t[1..]))
    else
      match ParseValue(s)
      case None => None
      case Some((v, rest)) =>
        var u := Skip(rest);
        if u == [] then None
        else if u[0] == ']' then Some(([v], u[1..]))
        else if u[0] == ',' then
          match ParseItems(u[1..], false)
          case None => None
          case Some((vs, rest')) => Some(([v] + vs, rest'))
        else None
  }

  function ParseMembers(s: string, first: bool): (r: Option<(seq<Member>, string)>)
    ensures r.Some? ==> |r.value.1| < |s|
    decreases |s|, 3
  {
    var t := Skip(s);
    if t == [] then None
    else if first && t[0] == '}' then Some(([], t[1..]))
    else if t[0] != '"' then None
    else
      match ParseChars(t[1..])
      case None => None
      case Some((name, afterName)) =>
        var colon := Skip(afterName);
        if colon == [] || colon[0] != ':' then None
        else
          match ParseValue(colon[1..])
          case None => None
          case Some((v, rest)) =>
            var u := Skip(rest);
            if u == [] then None
            else if u[0] == '}' then Some(([Member(name, v)], u[1..]))
            else if u[0] == ',' then
              match ParseMembers(u[1..], false)
              case None => None
              case Some((ms, rest')) => Some(([Member(name, v)] + ms, rest'))
            else None
  }

  /** A JSON text: an object or array with nothing but whitespace around it. */
  function ParseText(s: string): Option<Json> {
    match ParseValue(s)
    case None => None
    case Some((v, rest)) => if Skip(rest) == [] && (v.Object? || v.Array?) then Some(v) else None
  }
}
