/**
 * How the text of mozilla::JSONWriter is laid out: which collections stand on one line, how far the
 * items of the others are indented, and where a single space is printed.
 */
module JsonLayout {
  import opened Wrappers
  import opened JsonText

  // ----- one line

  lemma EscapedOnOneLine(c: char)
    ensures '\n' !in EscapeChar(c)
  {
    if TwoCharEscape(c).None? && c as int <= 0x1f {
      var h, l := HexDigitToAsciiChar(c as int / 16), HexDigitToAsciiChar(c as int % 16);
      assert h >= '0' && l >= '0';
    }
  }

  lemma {:induction false} EscapeOnOneLine(s: string)
    ensures '\n' !in Escape(s)
  {
    if s != [] {
      EscapedOnOneLine(s[0]);
      EscapeOnOneLine(s[1..]);
    }
  }

  /** Whatever styles a value asks for inside: where newlines are off its text has none. */
  lemma {:induction false} StaysOnOneLine(t: Tree, nl0: bool, depth: nat)
    requires Printable(t)
    ensures '\n' !in Render(t, nl0, false, depth)
    decreases t, 1
  {
    hide Escape, RenderItems, RenderMembers;
    match t
    case TInt(text) => NoNewlineInInteger(text);
    case TString(s) => EscapeOnOneLine(s);
    case TArray(style, items) => ItemsOnOneLine(items, true, nl0, depth + 1);
    case TObject(style, members) => MembersOnOneLine(members, true, nl0, depth + 1);
    case _ =>
  }

  lemma NoNewlineInInteger(text: string)
    requires IsInteger(text)
    ensures '\n' !in text
  {
    var digits := if text[0] == '-' then text[1..] else text;
    assert forall i :: 0 <= i < |text| ==> text[i] == '-' || IsDigit(text[i]) by {
      forall i | 0 <= i < |text|
        ensures text[i] == '-' || IsDigit(text[i])
      {
        if text[0] == '-' {
          assert i > 0 ==> text[i] == digits[i - 1];
        } else {
          assert text[i] == digits[i];
        }
      }
    }
  }

  lemma {:induction false} ItemsOnOneLine(items: seq<Tree>, first: bool, nl0: bool, depth: nat)
    requires PrintableItems(items)
    ensures '\n' !in RenderItems(items, first, nl0, false, depth)
    decreases items, 0
  {
    hide Render;
    if items != [] {
      StaysOnOneLine(items[0], nl0, depth);
      ItemsOnOneLine(items[1..], false, nl0, depth);
    }
  }

  lemma {:induction false} MembersOnOneLine(members: seq<TMember>, first: bool, nl0: bool, depth: nat)
    requires PrintableMembers(members)
    ensures '\n' !in RenderMembers(members, first, nl0, false, depth)
    decreases members, 0
  {
    hide Render, Escape;
    if members != [] {
      EscapeOnOneLine(members[0].name);
      StaysOnOneLine(members[0].value, nl0, depth);
      MembersOnOneLine(members[1..], false, nl0, depth);
    }
  }

  /** A collection asked for in single-line style has no newline in its text, in any writer, at any depth, whatever
      is around it and whatever styles the collections inside it ask for. */
  lemma SingleLineHasNoNewline(t: Tree, nl0: bool, nl: bool, depth: nat)
    requires Printable(t)
    requires (t.TArray? || t.TObject?) && t.style == SingleLine
    ensures '\n' !in Render(t, nl0, nl, depth)
  {
    hide RenderItems, RenderMembers;
    match t
    case TArray(_, items) => ItemsOnOneLine(items, true, nl0, depth + 1);
    case TObject(_, members) => MembersOnOneLine(members, true, nl0, depth + 1);
  }

  /** Styles matter only where newlines are on: without them the same value has the same text, at any depth. */
  lemma {:induction false} StylesAreIgnored(t: Tree, u: Tree, nl0: bool, d: nat, e: nat)
    requires Erase(t) == Erase(u)
    ensures Render(t, nl0, false, d) == Render(u, nl0, false, e)
    decreases t, 1
  {
    hide Escape, RenderItems, RenderMembers;
    match t
    case TArray(_, items) => ItemStylesAreIgnored(items, u.items, true, nl0, d + 1, e + 1);
    case TObject(_, members) => MemberStylesAreIgnored(members, u.members, true, nl0, d + 1, e + 1);
    case _ =>
  }

  lemma {:induction false} ItemStylesAreIgnored(a: seq<Tree>, b: seq<Tree>, first: bool, nl0: bool, d: nat, e: nat)
    requires EraseItems(a) == EraseItems(b)
    ensures RenderItems(a, first, nl0, false, d) == RenderItems(b, first, nl0, false, e)
    decreases a, 0
  {
    hide Render, Erase;
    if a != [] {
      ErasedItems(a);
      ErasedItems(b);
      StylesAreIgnored(a[0], b[0], nl0, d, e);
      ItemStylesAreIgnored(a[1..], b[1..], false, nl0, d, e);
    }
  }

  lemma ErasedItems(a: seq<Tree>)
    requires a != []
    ensures EraseItems(a)[0] == Erase(a[0]) && EraseItems(a)[1..] == EraseItems(a[1..])
  {
  }

  lemma {:induction false} MemberStylesAreIgnored(a: seq<TMember>, b: seq<TMember>, first: bool, nl0: bool, d: nat, e: nat)
    requires EraseMembers(a) == EraseMembers(b)
    ensures RenderMembers(a, first, nl0, false, d) == RenderMembers(b, first, nl0, false, e)
    decreases a, 0
  {
    hide Render, Erase, Escape;
    if a != [] {
      ErasedMembers(a);
      ErasedMembers(b);
      StylesAreIgnored(a[0].value, b[0].value, nl0, d, e);
      MemberStylesAreIgnored(a[1..], b[1..], false, nl0, d, e);
    }
  }

  lemma ErasedMembers(a: seq<TMember>)
    requires a != []
    ensures EraseMembers(a)[0] == Member(a[0].name, Erase(a[0].value)) && EraseMembers(a)[1..] == EraseMembers(a[1..])
  {
  }

  /** Only quotation marks, backslashes and control characters are escaped; those with a two-character escape get
      it, the others six characters with the code in lower-case hexadecimal digits. */
  lemma EscapesWhereNeeded(c: char)
    ensures EscapeChar(c) == [c] <==> c as int >= 0x20 && c != '"' && c != '\\'
    ensures |EscapeChar(c)| == 2 <==> c as int in {8, 9, 10, 12, 13, 34, 92}
    ensures |EscapeChar(c)| == 6 <==> c as int < 0x20 && c as int !in {8, 9, 10, 12, 13}
    ensures |EscapeChar(c)| == 6 ==>
      EscapeChar(c)[..4] == "\\u00" && forall i :: 4 <= i < 6 ==> EscapeChar(c)[i] in "0123456789abcdef"
  {
    if |EscapeChar(c)| == 6 {
      HexDigitIs(c as int / 16);
      HexDigitIs(c as int % 16);
    }
  }

  lemma HexDigitIs(u: nat)
    requires u < 16
    ensures HexDigitToAsciiChar(u) == "0123456789abcdef"[u]
  {
    var digits := "0123456789abcdef";
    assert u < 10 ==> digits[u] == '0' + u as char;
    assert u >= 10 ==> digits[u] == 'a' + (u - 10) as char;
  }

  // ----- integers

  function Digits(n: nat): string {
    if n < 10 then [('0' as int + n) as char] else Digits(n / 10) + [('0' as int + n % 10) as char]
  }

  /** The decimal text of an integer, as printf writes it. */
  function Decimal(n: int): string {
    if n < 0 then "-" + Digits(-n) else Digits(n)
  }

  lemma {:induction false} DigitsAre(n: nat)
    ensures Digits(n) != [] && (Digits(n)[0] == '0' ==> n == 0 && |Digits(n)| == 1)
    ensures forall i :: 0 <= i < |Digits(n)| ==> '0' <= Digits(n)[i] <= '9'
  {
    if n >= 10 {
      DigitsAre(n / 10);
    }
  }

  /** Every integer may be printed: its text is a number of the grammar. */
  lemma DecimalIsInteger(n: int)
    ensures IsInteger(Decimal(n)) && Printable(TInt(Decimal(n)))
  {
    if n < 0 {
      DigitsAre(-n);
      var digits := Digits(-n);
      assert Decimal(n)[1..] == digits;
      assert forall i :: 0 <= i < |digits| ==> IsDigit(digits[i]);
    } else {
      DigitsAre(n);
      var digits := Decimal(n);
      assert digits[0] != '-';
      assert forall i :: 0 <= i < |digits| ==> IsDigit(digits[i]);
    }
  }

  // ----- items, their separators and their indentation

  /** A newline and exactly so many spaces. */
  function NewLine(spaces: nat): string {
    "\n" + seq(spaces, _ => ' ')
  }

  lemma {:induction false} SpacesAre(n: nat)
    ensures "\n" + Spaces(n) == NewLine(n) && |Spaces(n)| == n
  {
    if n > 0 {
      SpacesAre(n - 1);
      assert Spaces(n - 1) == NewLine(n - 1)[1..] == seq(n - 1, _ => ' ');
    }
  }

  lemma SeparatorIs(first: bool, nl0: bool, nl: bool, depth: nat)
    ensures SeparatorText(first, nl0, nl, depth)
            == (if first then "" else ",") + (if nl then NewLine(depth) else if !first && nl0 then " " else "")
  {
    hide NewLine;
    SpacesAre(depth);
  }

  lemma ArrayText(style: Style, items: seq<Tree>, nl0: bool, nl: bool, depth: nat)
    ensures Render(TArray(style, items), nl0, nl, depth)
            == "[" + RenderItems(items, true, nl0, nl && style == MultiLine, depth + 1)
               + (if nl && style == MultiLine then NewLine(depth) else "") + "]"
  {
    hide RenderItems, NewLine;
    SpacesAre(depth);
  }

  lemma ObjectText(style: Style, members: seq<TMember>, nl0: bool, nl: bool, depth: nat)
    ensures Render(TObject(style, members), nl0, nl, depth)
            == "{" + RenderMembers(members, true, nl0, nl && style == MultiLine, depth + 1)
               + (if nl && style == MultiLine then NewLine(depth) else "") + "}"
  {
    hide RenderMembers, NewLine;
    SpacesAre(depth);
  }

  /** An item among the others: only what separates it from the one before it stands before it. */
  lemma {:induction false} ItemStands(items: seq<Tree>, i: nat, first: bool, nl0: bool, nl: bool, depth: nat)
    returns (pre: string, post: string)
    requires i < |items|
    ensures RenderItems(items, first, nl0, nl, depth)
            == pre + SeparatorText(first && i == 0, nl0, nl, depth) + Render(items[i], nl0, nl, depth) + post
    ensures i == 0 ==> pre == ""
    decreases i
  {
    hide Render, SeparatorText;
    if i == 0 {
      pre, post := "", RenderItems(items[1..], false, nl0, nl, depth);
      assert "" + SeparatorText(first, nl0, nl, depth) == SeparatorText(first, nl0, nl, depth);
    } else {
      var sep, v := SeparatorText(first, nl0, nl, depth), Render(items[0], nl0, nl, depth);
      var rest;
      rest, post := ItemStands(items[1..], i - 1, false, nl0, nl, depth);
      pre := sep + v + rest;
      var mine, it := SeparatorText(false, nl0, nl, depth), Render(items[i], nl0, nl, depth);
      assert sep + v + (rest + mine + it + post) == pre + mine + it + post;
    }
  }

  lemma {:induction false} MemberStands(members: seq<TMember>, i: nat, first: bool, nl0: bool, nl: bool, depth: nat)
    returns (pre: string, post: string)
    requires i < |members|
    ensures RenderMembers(members, first, nl0, nl, depth)
            == pre + SeparatorText(first && i == 0, nl0, nl, depth) + NameText(members[i].name, nl0)
               + Render(members[i].value, nl0, nl, depth) + post
    ensures i == 0 ==> pre == ""
    decreases i
  {
    hide Render, SeparatorText, NameText;
    if i == 0 {
      pre, post := "", RenderMembers(members[1..], false, nl0, nl, depth);
      assert "" + SeparatorText(first, nl0, nl, depth) == SeparatorText(first, nl0, nl, depth);
    } else {
      var sep, name, v := SeparatorText(first, nl0, nl, depth), NameText(members[0].name, nl0), Render(members[0].value, nl0, nl, depth);
      var rest;
      rest, post := MemberStands(members[1..], i - 1, false, nl0, nl, depth);
      pre := sep + name + v + rest;
      var mine, called := SeparatorText(false, nl0, nl, depth), NameText(members[i].name, nl0);
      var it := Render(members[i].value, nl0, nl, depth);
      assert sep + name + v + (rest + mine + called + it + post) == pre + mine + called + it + post;
    }
  }

  /** What stands before the i-th item: a comma unless it is the first; then a newline and the indentation in
      a multi-line collection, a space after a comma in a single-line one, and nothing in a single-line writer. */
  function Before(i: nat, nl0: bool, multiLine: bool, depth: nat): string {
    (if i == 0 then "" else ",") + (if multiLine then NewLine(depth) else if i > 0 && nl0 then " " else "")
  }

  /**
   * Where an array's items stand. Where newlines are on, each item of a multi-line
   * array begins after a newline and as many spaces as its depth, and the closing
   * bracket after a newline and one space fewer; otherwise items follow each other
   * after a comma and, in a multi-line writer, a space.
   */
  lemma ArrayItem(style: Style, items: seq<Tree>, i: nat, nl0: bool, nl: bool, depth: nat) returns (pre: string, post: string)
    requires i < |items|
    ensures var multiLine := nl && style == MultiLine;
            Render(TArray(style, items), nl0, nl, depth)
            == "[" + pre + Before(i, nl0, multiLine, depth + 1) + Render(items[i], nl0, multiLine, depth + 1) + post
               + (if multiLine then NewLine(depth) else "") + "]"
    ensures i == 0 ==> pre == ""
  {
    hide RenderItems, Render, NewLine, SeparatorText;
    pre, post := ItemStands(items, i, true, nl0, nl && style == MultiLine, depth + 1);
    ArrayText(style, items, nl0, nl, depth);
    SeparatorIs(i == 0, nl0, nl && style == MultiLine, depth + 1);
  }

  /** The same for the members of an object; a name is followed by a colon and, in a multi-line writer, a space. */
  lemma ObjectMember(style: Style, members: seq<TMember>, i: nat, nl0: bool, nl: bool, depth: nat) returns (pre: string, post: string)
    requires i < |members|
    ensures var multiLine := nl && style == MultiLine;
            Render(TObject(style, members), nl0, nl, depth)
            == "{" + pre + Before(i, nl0, multiLine, depth + 1)
               + ("\"" + Escape(members[i].name) + "\":" + (if nl0 then " " else ""))
               + Render(members[i].value, nl0, multiLine, depth + 1) + post
               + (if multiLine then NewLine(depth) else "") + "}"
    ensures i == 0 ==> pre == ""
  {
    hide RenderMembers, Render, NewLine, SeparatorText, Escape;
    pre, post := MemberStands(members, i, true, nl0, nl && style == MultiLine, depth + 1);
    ObjectText(style, members, nl0, nl, depth);
    SeparatorIs(i == 0, nl0, nl && style == MultiLine, depth + 1);
  }

  /** Without items there is nothing between the brackets but the newline of a multi-line collection. */
  lemma EmptyCollections(style: Style, nl0: bool, nl: bool, depth: nat)
    ensures Render(TArray(style, []), nl0, nl, depth) == "[" + (if nl && style == MultiLine then NewLine(depth) else "") + "]"
    ensures Render(TObject(style, []), nl0, nl, depth) == "{" + (if nl && style == MultiLine then NewLine(depth) else "") + "}"
  {
    hide NewLine;
    ArrayText(style, [], nl0, nl, depth);
    ObjectText(style, [], nl0, nl, depth);
  }

  // ----- at any depth

  function Child(t: Tree, i: nat): Option<Tree> {
    match t
    case TArray(_, items) => if i < |items| then Some(items[i]) else None
    case TObject(_, members) => if i < |members| then Some(members[i].value) else None
    case _ => None
  }

  /** The value at a path of positions, if every collection it leads through asks for the multi-line style. */
  function Through(t: Tree, path: seq<nat>): Option<Tree>
    decreases |path|
  {
    if path == [] then Some(t)
    else if (t.TArray? || t.TObject?) && t.style == MultiLine && Child(t, path[0]).Some? then Through(Child(t, path[0]).value, path[1..])
    else None
  }

  /** Inside multi-line collections a value is printed as such at the depth of its path, newlines on. */
  lemma {:induction false} PrintedAtDepth(t: Tree, path: seq<nat>, depth: nat) returns (pre: string, post: string)
    requires Through(t, path).Some?
    ensures Render(t, true, true, depth) == pre + Render(Through(t, path).value, true, true, depth + |path|) + post
    decreases |path|
  {
    hide Render, NewLine, Escape;
    if path == [] {
      pre, post := "", "";
      assert "" + Render(t, true, true, depth) + "" == Render(t, true, true, depth);
    } else {
      var i, child := path[0], Child(t, path[0]).value;
      var before, after, a, b;
      if t.TArray? {
        a, b := ArrayItem(MultiLine, t.items, i, true, true, depth);
        before := "[" + a + Before(i, true, true, depth + 1);
        after := b + NewLine(depth) + "]";
      } else {
        a, b := ObjectMember(MultiLine, t.members, i, true, true, depth);
        before := "{" + a + Before(i, true, true, depth + 1) + ("\"" + Escape(t.members[i].name) + "\":" + " ");
        after := b + NewLine(depth) + "}";
      }
      assert Render(t, true, true, depth) == before + Render(child, true, true, depth + 1) + after;
      var p, q := PrintedAtDepth(child, path[1..], depth + 1);
      pre, post := before + p, q + after;
      Enclosed(before, p, Render(Through(t, path).value, true, true, depth + |path|), q, after);
    }
  }

  lemma Enclosed(a: string, b: string, x: string, c: string, d: string)
    ensures a + (b + x + c) + d == (a + b) + x + (c + d)
  {
  }
}
