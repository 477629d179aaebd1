/** What JSONWriter prints parses back to the tree that was printed, in every mixture of styles. */
module JsonRoundTrip {
  import opened Wrappers
  import opened JsonText

  // ----- whitespace

  ghost predicate WsOnly(w: string) {
    forall i :: 0 <= i < |w| ==> IsWs(w[i])
  }

  lemma {:induction false} SkipWs(w: string, x: string)
    requires WsOnly(w)
    ensures Skip(w + x) == Skip(x)
  {
    if w == [] {
      assert w + x == x;
    } else {
      assert (w + x)[1..] == w[1..] + x;
      SkipWs(w[1..], x);
    }
  }

  lemma {:induction false} SpacesAreWs(n: nat)
    ensures WsOnly(Spaces(n)) && WsOnly("\n" + Spaces(n))
  {
    if n > 0 {
      SpacesAreWs(n - 1);
    }
  }

  /** Leading whitespace changes nothing for a value. */
  lemma ValueAfterWs(w: string, x: string)
    requires WsOnly(w)
    ensures ParseValue(w + x) == ParseValue(x)
  {
    SkipWs(w, x);
  }

  // ----- strings

  lemma HexRoundTrip(u: nat)
    requires u < 16
    ensures HexValue(HexDigitToAsciiChar(u)) == Some(u)
  {
  }

  lemma ParseOneChar(c: char, t: string)
    requires c != 0 as char
    ensures ParseChars(EscapeChar(c) + t) ==
            match ParseChars(t) case None => None case Some((cs, rest)) => Some(([c] + cs, rest))
  {
    var s := EscapeChar(c) + t;
    if TwoCharEscape(c).Some? {
      assert s[1..] == [TwoCharEscape(c).value] + t;
      assert s[1..][1..] == t;
    } else if c as int <= 0x1f {
      HexRoundTrip(c as int / 16);
      HexRoundTrip(c as int % 16);
      assert s[1..] == ['u', '0', '0', HexDigitToAsciiChar(c as int / 16), HexDigitToAsciiChar(c as int % 16)] + t;
      assert s[1..][5..] == t;
    } else {
      assert s[1..] == t;
    }
  }

  /** Escaping is inverted by the parser, whatever follows the closing quotation mark. */
  lemma {:induction false} ParseEscaped(s: string, rest: string)
    requires NulFree(s)
    ensures ParseChars(Escape(s) + ("\"" + rest)) == Some((s, rest))
  {
    var k := "\"" + rest;
    if s == [] {
      assert Escape(s) + k == k && k[1..] == rest;
    } else {
      ParseEscaped(s[1..], rest);
      assert Escape(s) + k == EscapeChar(s[0]) + (Escape(s[1..]) + k);
      ParseOneChar(s[0], Escape(s[1..]) + k);
      assert [s[0]] + s[1..] == s;
    }
  }

  // ----- numbers

  ghost predicate EndsNumber(rest: string) {
    rest == [] || !IsNumberChar(rest[0])
  }

  lemma {:induction false} NumberRunAll(text: string, rest: string)
    requires forall i :: 0 <= i < |text| ==> IsNumberChar(text[i])
    requires EndsNumber(rest)
    ensures NumberRun(text + rest) == |text|
  {
    if text == [] {
      assert text + rest == rest;
    } else {
      assert (text + rest)[1..] == text[1..] + rest;
      NumberRunAll(text[1..], rest);
    }
  }

  lemma ParseInteger(text: string, rest: string)
    requires IsInteger(text) && EndsNumber(rest)
    ensures ParseValue(text + rest) == Some((Number(text), rest))
    ensures text != [] && (text[0] == '-' || IsDigit(text[0]))
  {
    var digits := if text[0] == '-' then text[1..] else text;
    assert forall i :: 0 <= i < |text| ==> IsNumberChar(text[i]) by {
      forall i | 0 <= i < |text|
        ensures IsNumberChar(text[i])
      {
        if text[0] == '-' && i > 0 {
          assert text[i] == digits[i - 1];
        }
      }
    }
    NumberRunAll(text, rest);
    var s := text + rest;
    assert Skip(s) == s;
    assert s[..|text|] == text && s[|text|..] == rest;
    assert s[0] == text[0];
  }

  // ----- values

  /** A printed value starts with a character that is neither whitespace nor a closing bracket. */
  lemma RenderHead(t: Tree, nl0: bool, nl: bool, depth: nat)
    requires Printable(t)
    ensures var s := Render(t, nl0, nl, depth);
            s != [] && !IsWs(s[0]) && s[0] != ']' && s[0] != '}'
  {
    if t.TInt? {
      ParseInteger(t.text, []);
    }
  }

  lemma SeparatorParts(first: bool, nl0: bool, nl: bool, depth: nat) returns (w: string)
    ensures WsOnly(w)
    ensures SeparatorText(first, nl0, nl, depth) == (if first then "" else ",") + w
  {
    SpacesAreWs(depth);
    w := if nl then "\n" + Spaces(depth) else if !first && nl0 then " " else "";
  }

  lemma ClosingParts(nl: bool, depth: nat, close: char, rest: string) returns (w: string)
    ensures WsOnly(w) && ClosingText(nl, depth, close) + rest == w + ([close] + rest)
  {
    SpacesAreWs(depth);
    w := if nl then "\n" + Spaces(depth) else "";
  }

  // ----- one step of the parser

  lemma ParseLiteral(rest: string)
    ensures ParseValue("null" + rest) == Some((Null, rest))
    ensures ParseValue("true" + rest) == Some((Bool(true), rest))
    ensures ParseValue("false" + rest) == Some((Bool(false), rest))
  {
    assert ("null" + rest)[4..] == rest;
    assert ("true" + rest)[4..] == rest;
    assert ("false" + rest)[5..] == rest;
  }

  lemma StringStep(x: string, cs: string, rest: string)
    requires ParseChars(x) == Some((cs, rest))
    ensures ParseValue("\"" + x) == Some((String(cs), rest))
  {
    assert ("\"" + x)[1..] == x;
  }

  lemma ArrayStep(x: string, items: seq<Json>, rest: string)
    requires ParseItems(x, true) == Some((items, rest))
    ensures ParseValue("[" + x) == Some((Array(items), rest))
  {
    hide ParseItems, ParseMembers;
    assert ("[" + x)[1..] == x;
  }

  lemma ObjectStep(x: string, members: seq<Member>, rest: string)
    requires ParseMembers(x, true) == Some((members, rest))
    ensures ParseValue("{" + x) == Some((Object(members), rest))
  {
    hide ParseItems, ParseMembers;
    assert ("{" + x)[1..] == x;
  }

  lemma NoItems(w: string, rest: string)
    requires WsOnly(w)
    ensures ParseItems(w + ("]" + rest), true) == Some(([], rest))
  {
    hide ParseValue;
    SkipWs(w, "]" + rest);
    assert ("]" + rest)[1..] == rest;
  }

  lemma LastItem(s: string, first: bool, v: Json, w: string, rest: string)
    requires ParseValue(s) == Some((v, w + ("]" + rest))) && WsOnly(w)
    requires Skip(s) == [] || Skip(s)[0] != ']'
    ensures ParseItems(s, first) == Some(([v], rest))
  {
    hide ParseValue;
    SkipWs(w, "]" + rest);
    assert ("]" + rest)[1..] == rest;
  }

  lemma MoreItems(s: string, first: bool, v: Json, x: string, vs: seq<Json>, rest: string)
    requires ParseValue(s) == Some((v, "," + x)) && ParseItems(x, false) == Some((vs, rest))
    requires Skip(s) == [] || Skip(s)[0] != ']'
    ensures ParseItems(s, first) == Some(([v] + vs, rest))
  {
    hide ParseValue;
    assert ("," + x)[1..] == x;
    var t := Skip(s);
    assert Skip("," + x) == "," + x;
  }

  lemma NoMembers(w: string, rest: string)
    requires WsOnly(w)
    ensures ParseMembers(w + ("}" + rest), true) == Some(([], rest))
  {
    hide ParseValue;
    SkipWs(w, "}" + rest);
    assert ("}" + rest)[1..] == rest;
  }

  lemma LastMember(s: string, first: bool, chars: string, name: string, x: string, v: Json, w: string, rest: string)
    requires Skip(s) == "\"" + chars && ParseChars(chars) == Some((name, ":" + x))
    requires ParseValue(x) == Some((v, w + ("}" + rest))) && WsOnly(w)
    ensures ParseMembers(s, first) == Some(([Member(name, v)], rest))
  {
    hide ParseValue, ParseChars;
    assert ("\"" + chars)[1..] == chars;
    assert Skip(":" + x) == ":" + x && (":" + x)[1..] == x;
    SkipWs(w, "}" + rest);
    assert ("}" + rest)[1..] == rest;
  }

  lemma MoreMembers(s: string, first: bool, chars: string, name: string, x: string, v: Json, y: string,
                    ms: seq<Member>, rest: string)
    requires Skip(s) == "\"" + chars && ParseChars(chars) == Some((name, ":" + x))
    requires ParseValue(x) == Some((v, "," + y)) && ParseMembers(y, false) == Some((ms, rest))
    ensures ParseMembers(s, first) == Some(([Member(name, v)] + ms, rest))
  {
    hide ParseValue, ParseChars;
    assert ("\"" + chars)[1..] == chars;
    assert Skip(":" + x) == ":" + x && (":" + x)[1..] == x;
    assert Skip("," + y) == "," + y && ("," + y)[1..] == y;
  }

  // ----- the shape of printed collections

  /** The items from one on without the separator before the first, up to the end of the array. */
  function ItemsFrom(items: seq<Tree>, nl0: bool, nl: bool, depth: nat, close: string): string
    requires items != []
  {
    Render(items[0], nl0, nl, depth) + (RenderItems(items[1..], false, nl0, nl, depth) + close)
  }

  lemma ItemsShape(items: seq<Tree>, first: bool, nl0: bool, nl: bool, depth: nat, close: string)
    requires items != []
    ensures RenderItems(items, first, nl0, nl, depth) + close ==
            SeparatorText(first, nl0, nl, depth) + ItemsFrom(items, nl0, nl, depth, close)
  {
    hide Render, SeparatorText;
    var a, b, c := SeparatorText(first, nl0, nl, depth), Render(items[0], nl0, nl, depth), RenderItems(items[1..], false, nl0, nl, depth);
    assert (a + b + c) + close == a + (b + (c + close));
  }

  function MembersFrom(members: seq<TMember>, nl0: bool, nl: bool, depth: nat, close: string): string
    requires members != []
  {
    "\"" + (Escape(members[0].name) + ("\"" + (":" + ((if nl0 then " " else "") +
      (Render(members[0].value, nl0, nl, depth) + (RenderMembers(members[1..], false, nl0, nl, depth) + close))))))
  }

  lemma MembersShape(members: seq<TMember>, first: bool, nl0: bool, nl: bool, depth: nat, close: string)
    requires members != []
    ensures RenderMembers(members, first, nl0, nl, depth) + close ==
            SeparatorText(first, nl0, nl, depth) + MembersFrom(members, nl0, nl, depth, close)
  {
    hide Render, SeparatorText, Escape;
    var a, n := SeparatorText(first, nl0, nl, depth), NameText(members[0].name, nl0);
    var b, c := Render(members[0].value, nl0, nl, depth), RenderMembers(members[1..], false, nl0, nl, depth);
    assert (a + n + b + c) + close == a + (n + (b + (c + close)));
    NameShape(members[0].name, nl0, b + (c + close));
  }

  lemma NameShape(name: string, nl0: bool, x: string)
    ensures NameText(name, nl0) + x == "\"" + (Escape(name) + ("\"" + (":" + ((if nl0 then " " else "") + x))))
  {
    hide Escape;
    var e, gap := Escape(name), if nl0 then " " else "";
    assert "\":" == "\"" + ":";
    assert ("\"" + e + "\":" + gap) + x == "\"" + (e + ("\"" + (":" + (gap + x))));
  }

  // ----- the round trip

  lemma {:induction false} ParseRender(t: Tree, nl0: bool, nl: bool, depth: nat, rest: string)
    requires Printable(t) && EndsNumber(rest)
    ensures ParseValue(Render(t, nl0, nl, depth) + rest) == Some((Erase(t), rest))
    decreases t, 1
  {
    hide ParseValue, ParseItems, ParseMembers, ParseChars, RenderItems, RenderMembers, ClosingText, Escape, IsInteger;
    match t
    case TNull => ParseLiteral(rest);
    case TBool(_) => ParseLiteral(rest);
    case TInt(text) => ParseInteger(text, rest);
    case TString(s) =>
      ParseEscaped(s, rest);
      StringStep(Escape(s) + ("\"" + rest), s, rest);
      assert Render(t, nl0, nl, depth) + rest == "\"" + (Escape(s) + ("\"" + rest));
    case TArray(style, items) =>
      var inner := Inner(nl, style);
      var body, close := RenderItems(items, true, nl0, inner, depth + 1), ClosingText(inner, depth, ']');
      assert Render(t, nl0, nl, depth) + rest == "[" + (body + (close + rest));
      ParseRenderArray(items, nl0, inner, depth, rest);
      ArrayStep(body + (close + rest), EraseItems(items), rest);
    case TObject(style, members) =>
      var inner := Inner(nl, style);
      var body, close := RenderMembers(members, true, nl0, inner, depth + 1), ClosingText(inner, depth, '}');
      assert Render(t, nl0, nl, depth) + rest == "{" + (body + (close + rest));
      ParseRenderObject(members, nl0, inner, depth, rest);
      ObjectStep(body + (close + rest), EraseMembers(members), rest);
  }

  lemma {:induction false} ParseRenderArray(items: seq<Tree>, nl0: bool, nl: bool, depth: nat, rest: string)
    requires PrintableItems(items)
    ensures ParseItems(RenderItems(items, true, nl0, nl, depth + 1) + (ClosingText(nl, depth, ']') + rest), true)
            == Some((EraseItems(items), rest))
    decreases items, 1
  {
    hide ParseValue, ParseItems, Render, ClosingText, SeparatorText, ItemsFrom, PrintableItems;
    var close := ClosingText(nl, depth, ']') + rest;
    if items == [] {
      assert RenderItems(items, true, nl0, nl, depth + 1) + close == close;
      var w := ClosingParts(nl, depth, ']', rest);
      NoItems(w, rest);
    } else {
      var w := SeparatorParts(true, nl0, nl, depth + 1);
      assert "" + w == w;
      ItemsShape(items, true, nl0, nl, depth + 1, close);
      ParseRenderItems(items, true, w, nl0, nl, depth, rest);
    }
  }

  lemma {:induction false} ParseRenderItems(items: seq<Tree>, first: bool, w: string, nl0: bool, nl: bool, depth: nat, rest: string)
    requires items != [] && PrintableItems(items) && WsOnly(w)
    ensures ParseItems(w + ItemsFrom(items, nl0, nl, depth + 1, ClosingText(nl, depth, ']') + rest), first)
            == Some((EraseItems(items), rest))
    decreases items, 0
  {
    hide ParseValue, ParseItems, Render, ClosingText, SeparatorText, Erase, Skip, WsOnly, IsWs;
    var close := ClosingText(nl, depth, ']') + rest;
    var tail := RenderItems(items[1..], false, nl0, nl, depth + 1) + close;
    var s := w + ItemsFrom(items, nl0, nl, depth + 1, close);
    ItemStart(items, w, nl0, nl, depth + 1, close);
    if items[1..] == [] {
      var closeWs := ClosingParts(nl, depth, ']', rest);
      assert tail == closeWs + ("]" + rest);
      ClosesNumber(closeWs, ']', rest);
      ParseRender(items[0], nl0, nl, depth + 1, tail);
      LastItem(s, first, Erase(items[0]), closeWs, rest);
      assert EraseItems(items) == [Erase(items[0])] + EraseItems(items[1..]) == [Erase(items[0])];
    } else {
      var w' := SeparatorParts(false, nl0, nl, depth + 1);
      var x := w' + ItemsFrom(items[1..], nl0, nl, depth + 1, close);
      ItemsShape(items[1..], false, nl0, nl, depth + 1, close);
      assert tail == "," + x;
      ParseRender(items[0], nl0, nl, depth + 1, tail);
      ParseRenderItems(items[1..], false, w', nl0, nl, depth, rest);
      MoreItems(s, first, Erase(items[0]), x, EraseItems(items[1..]), rest);
    }
  }

  lemma ClosesNumber(w: string, close: char, rest: string)
    requires WsOnly(w) && (close == ']' || close == '}')
    ensures EndsNumber(w + ([close] + rest))
  {
    assert w != [] ==> IsWs(w[0]);
  }

  lemma ItemStart(items: seq<Tree>, w: string, nl0: bool, nl: bool, depth: nat, close: string)
    requires items != [] && PrintableItems(items) && WsOnly(w)
    ensures var s := w + ItemsFrom(items, nl0, nl, depth, close);
            && ParseValue(s) == ParseValue(Render(items[0], nl0, nl, depth) + (RenderItems(items[1..], false, nl0, nl, depth) + close))
            && (Skip(s) == [] || Skip(s)[0] != ']')
  {
    hide ParseItems, ParseMembers, Render, RenderItems;
    RenderHead(items[0], nl0, nl, depth);
    var x := ItemsFrom(items, nl0, nl, depth, close);
    assert x[0] == Render(items[0], nl0, nl, depth)[0];
    SkipWs(w, x);
    ValueAfterWs(w, x);
  }

  lemma {:induction false} ParseRenderObject(members: seq<TMember>, nl0: bool, nl: bool, depth: nat, rest: string)
    requires PrintableMembers(members)
    ensures ParseMembers(RenderMembers(members, true, nl0, nl, depth + 1) + (ClosingText(nl, depth, '}') + rest), true)
            == Some((EraseMembers(members), rest))
    decreases members, 1
  {
    hide ParseValue, ParseMembers, Render, ClosingText, SeparatorText, MembersFrom, PrintableMembers;
    var close := ClosingText(nl, depth, '}') + rest;
    if members == [] {
      assert RenderMembers(members, true, nl0, nl, depth + 1) + close == close;
      var w := ClosingParts(nl, depth, '}', rest);
      NoMembers(w, rest);
    } else {
      var w := SeparatorParts(true, nl0, nl, depth + 1);
      assert "" + w == w;
      MembersShape(members, true, nl0, nl, depth + 1, close);
      ParseRenderMembers(members, true, w, nl0, nl, depth, rest);
    }
  }

  lemma {:induction false} ParseRenderMembers(members: seq<TMember>, first: bool, w: string, nl0: bool, nl: bool, depth: nat, rest: string)
    requires members != [] && PrintableMembers(members) && WsOnly(w)
    ensures ParseMembers(w + MembersFrom(members, nl0, nl, depth + 1, ClosingText(nl, depth, '}') + rest), first)
            == Some((EraseMembers(members), rest))
    decreases members, 0
  {
    hide ParseValue, ParseMembers, ParseChars, Render, ClosingText, SeparatorText, Erase, Skip, WsOnly, IsWs, Escape;
    var close := ClosingText(nl, depth, '}') + rest;
    var name := members[0].name;
    var tail := RenderMembers(members[1..], false, nl0, nl, depth + 1) + close;
    var gap := if nl0 then " " else "";
    var x := gap + (Render(members[0].value, nl0, nl, depth + 1) + tail);
    var chars := Escape(name) + ("\"" + (":" + x));
    var s := w + MembersFrom(members, nl0, nl, depth + 1, close);
    MemberStart(w, chars, gap, Render(members[0].value, nl0, nl, depth + 1) + tail);
    ParseEscaped(name, ":" + x);
    if members[1..] == [] {
      var closeWs := ClosingParts(nl, depth, '}', rest);
      assert tail == closeWs + ("}" + rest);
      ClosesNumber(closeWs, '}', rest);
      ParseRender(members[0].value, nl0, nl, depth + 1, tail);
      LastMember(s, first, chars, name, x, Erase(members[0].value), closeWs, rest);
      assert EraseMembers(members) == [Member(name, Erase(members[0].value))] + EraseMembers(members[1..])
        == [Member(name, Erase(members[0].value))];
    } else {
      var w' := SeparatorParts(false, nl0, nl, depth + 1);
      var y := w' + MembersFrom(members[1..], nl0, nl, depth + 1, close);
      MembersShape(members[1..], false, nl0, nl, depth + 1, close);
      assert tail == "," + y;
      ParseRender(members[0].value, nl0, nl, depth + 1, tail);
      ParseRenderMembers(members[1..], false, w', nl0, nl, depth, rest);
      MoreMembers(s, first, chars, name, x, Erase(members[0].value), y, EraseMembers(members[1..]), rest);
    }
  }

  lemma MemberStart(w: string, chars: string, gap: string, x: string)
    requires WsOnly(w) && (gap == "" || gap == " ")
    ensures Skip(w + ("\"" + chars)) == "\"" + chars
    ensures ParseValue(gap + x) == ParseValue(x)
  {
    hide ParseValue;
    SkipWs(w, "\"" + chars);
    ValueAfterWs(gap, x);
  }

  /** The text printed for an object parses back to that object. */
  lemma DocumentRoundTrip(style: Style, members: seq<TMember>, nl0: bool)
    requires PrintableMembers(members)
    ensures ParseText(RenderDocument(style, members, nl0)) == Some(Object(EraseMembers(members)))
  {
    hide ParseValue, Render;
    var newline := if nl0 then "\n" else "";
    ParseRender(TObject(style, members), nl0, nl0, 0, newline);
    SkipWs(newline, "");
    assert newline + "" == newline;
  }

  // ----- the compact style

  /** No whitespace outside string tokens; quoted says whether s starts inside one. */
  predicate Compact(s: string, quoted: bool)
    decreases |s|
  {
    s == [] ||
    if quoted then
      if s[0] == '\\' then |s| >= 2 && Compact(s[2..], true) else Compact(s[1..], s[0] != '"')
    else !IsWs(s[0]) && Compact(s[1..], s[0] == '"')
  }

  lemma CompactEscapeChar(c: char, rest: string)
    requires Compact(rest, true)
    ensures Compact(EscapeChar(c) + rest, true)
  {
    var s := EscapeChar(c) + rest;
    if TwoCharEscape(c).Some? {
      assert s[2..] == rest;
    } else if c as int <= 0x1f {
      var h, l := HexDigitToAsciiChar(c as int / 16), HexDigitToAsciiChar(c as int % 16);
      CompactPlain(l, rest);
      CompactPlain(h, [l] + rest);
      CompactPlain('0', [h] + ([l] + rest));
      CompactPlain('0', ['0'] + ([h] + ([l] + rest)));
      assert s[2..] == ['0'] + (['0'] + ([h] + ([l] + rest)));
    } else {
      assert s[1..] == rest;
    }
  }

  lemma CompactPlain(c: char, rest: string)
    requires Compact(rest, true) && c != '\\' && c != '"'
    ensures Compact([c] + rest, true)
  {
    assert ([c] + rest)[1..] == rest;
  }

  lemma {:induction false} CompactEscaped(s: string, rest: string)
    requires Compact(rest, false)
    ensures Compact(Escape(s) + ("\"" + rest), true)
  {
    if s == [] {
      assert Escape(s) + ("\"" + rest) == "\"" + rest;
      assert ("\"" + rest)[1..] == rest;
    } else {
      CompactEscaped(s[1..], rest);
      CompactEscapeChar(s[0], Escape(s[1..]) + ("\"" + rest));
      assert Escape(s) + ("\"" + rest) == EscapeChar(s[0]) + (Escape(s[1..]) + ("\"" + rest));
    }
  }

  lemma CompactQuoted(s: string, rest: string)
    requires Compact(rest, false)
    ensures Compact("\"" + (Escape(s) + ("\"" + rest)), false)
  {
    CompactEscaped(s, rest);
    var x := Escape(s) + ("\"" + rest);
    assert ("\"" + x)[1..] == x;
  }

  /** Text without whitespace, quotation marks or strings. */
  lemma {:induction false} CompactBare(text: string, rest: string)
    requires Compact(rest, false) && forall i :: 0 <= i < |text| ==> !IsWs(text[i]) && text[i] != '"'
    ensures Compact(text + rest, false)
  {
    if text == [] {
      assert text + rest == rest;
    } else {
      CompactBare(text[1..], rest);
      assert (text + rest)[1..] == text[1..] + rest;
    }
  }

  lemma IntegerIsBare(text: string)
    requires IsInteger(text)
    ensures forall i :: 0 <= i < |text| ==> !IsWs(text[i]) && text[i] != '"'
  {
    var digits := if text[0] == '-' then text[1..] else text;
    forall i | 0 <= i < |text|
      ensures !IsWs(text[i]) && text[i] != '"'
    {
      if text[0] == '-' {
        assert i > 0 ==> IsDigit(digits[i - 1]) && text[i] == digits[i - 1];
      } else {
        assert IsDigit(digits[i]);
      }
    }
  }

  lemma {:induction false} CompactRender(t: Tree, depth: nat, rest: string)
    requires Printable(t) && Compact(rest, false)
    ensures Compact(Render(t, false, false, depth) + rest, false)
    decreases t, 1
  {
    hide Compact, Escape, RenderItems, RenderMembers, IsInteger;
    match t
    case TNull => CompactBare("null", rest);
    case TBool(b) => CompactBare(if b then "true" else "false", rest);
    case TInt(text) =>
      IntegerIsBare(text);
      CompactBare(text, rest);
    case TString(s) =>
      CompactQuoted(s, rest);
      assert Render(t, false, false, depth) + rest == "\"" + (Escape(s) + ("\"" + rest));
    case TArray(style, items) =>
      CompactBare("]", rest);
      CompactItems(items, true, depth + 1, "]" + rest);
      CompactArray(style, items, depth, rest);
    case TObject(style, members) =>
      CompactBare("}", rest);
      CompactMembers(members, true, depth + 1, "}" + rest);
      CompactObject(style, members, depth, rest);
  }

  lemma CompactArray(style: Style, items: seq<Tree>, depth: nat, rest: string)
    requires Compact(RenderItems(items, true, false, false, depth + 1) + ("]" + rest), false)
    ensures Compact(Render(TArray(style, items), false, false, depth) + rest, false)
  {
    hide Compact, RenderItems;
    var body := RenderItems(items, true, false, false, depth + 1);
    CompactBare("[", body + ("]" + rest));
    assert Render(TArray(style, items), false, false, depth) + rest == "[" + (body + ("]" + rest));
  }

  lemma CompactObject(style: Style, members: seq<TMember>, depth: nat, rest: string)
    requires Compact(RenderMembers(members, true, false, false, depth + 1) + ("}" + rest), false)
    ensures Compact(Render(TObject(style, members), false, false, depth) + rest, false)
  {
    hide Compact, RenderMembers;
    var body := RenderMembers(members, true, false, false, depth + 1);
    CompactBare("{", body + ("}" + rest));
    assert Render(TObject(style, members), false, false, depth) + rest == "{" + (body + ("}" + rest));
  }

  lemma {:induction false} CompactItems(items: seq<Tree>, first: bool, depth: nat, rest: string)
    requires PrintableItems(items) && Compact(rest, false)
    ensures Compact(RenderItems(items, first, false, false, depth) + rest, false)
    decreases items, 0
  {
    hide Compact, Render;
    if items == [] {
      assert RenderItems(items, first, false, false, depth) + rest == rest;
    } else {
      var tail := RenderItems(items[1..], false, false, false, depth);
      var v, comma := Render(items[0], false, false, depth), if first then "" else ",";
      CompactItems(items[1..], false, depth, rest);
      CompactRender(items[0], depth, tail + rest);
      CompactBare(comma, v + (tail + rest));
      assert RenderItems(items, first, false, false, depth) + rest == comma + (v + (tail + rest));
    }
  }

  lemma {:induction false} CompactMembers(members: seq<TMember>, first: bool, depth: nat, rest: string)
    requires PrintableMembers(members) && Compact(rest, false)
    ensures Compact(RenderMembers(members, first, false, false, depth) + rest, false)
    decreases members, 0
  {
    hide Compact, Render, Escape, RenderMembers, SeparatorText;
    if members == [] {
      RenderNothing(first, depth, rest);
    } else {
      var name, tail := members[0].name, RenderMembers(members[1..], false, false, false, depth);
      var v := Render(members[0].value, false, false, depth);
      CompactMembers(members[1..], false, depth, rest);
      CompactRender(members[0].value, depth, tail + rest);
      CompactBare(":", v + (tail + rest));
      CompactQuoted(name, ":" + (v + (tail + rest)));
      assert "" + (v + (tail + rest)) == v + (tail + rest);
      CompactBare(if first then "" else ",", MembersFrom(members, false, false, depth, rest));
      MembersShape(members, first, false, false, depth, rest);
      NoSpaces(first, depth);
    }
  }

  lemma RenderNothing(first: bool, depth: nat, rest: string)
    ensures RenderMembers([], first, false, false, depth) + rest == rest
  {
  }

  lemma NoSpaces(first: bool, depth: nat)
    ensures SeparatorText(first, false, false, depth) == if first then "" else ","
  {
  }

  /** A writer built single-line prints no whitespace outside strings, whatever styles are requested. */
  lemma SingleLineIsCompact(style: Style, members: seq<TMember>)
    requires PrintableMembers(members)
    ensures Compact(RenderDocument(style, members, false), false)
  {
    hide Render;
    CompactRender(TObject(style, members), 0, "");
  }
}
