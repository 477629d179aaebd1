/** mozilla::JSONWriter: a streaming printer driven by per-depth stacks of flags. */
module JsonWriters {
  import opened Wrappers
  import opened JsonLayout
  import opened JsonText
  import opened JsonRoundTrip

  // ----- EscapedString

  function Extra(c: char): nat {
    if TwoCharEscape(c).Some? then 1 else if c as int <= 0x1f then 5 else 0
  }

  lemma EscapeCharLength(c: char)
    ensures |EscapeChar(c)| == 1 + Extra(c)
    ensures Extra(c) == 0 ==> EscapeChar(c) == [c]
  {
  }

  lemma {:induction false} EscapeSnoc(s: string, c: char)
    ensures Escape(s + [c]) == Escape(s) + EscapeChar(c)
  {
    hide EscapeChar;
    if s == [] {
      assert s + [c] == [c] && [c][1..] == [];
      assert Escape([c]) == EscapeChar(c) + Escape([]);
    } else {
      assert (s + [c])[1..] == s[1..] + [c];
      EscapeSnoc(s[1..], c);
    }
  }

  lemma {:induction false} UpToNulSplit(s: string, k: nat)
    requires k <= |s| && NulFree(s[..k])
    ensures UpToNul(s) == s[..k] + UpToNul(s[k..])
  {
    if k > 0 {
      assert s[..k][0] == s[0];
      assert s[1..][..k - 1] == s[..k][1..];
      UpToNulSplit(s[1..], k - 1);
      assert s[1..][k - 1..] == s[k..];
      assert s[..k] == [s[0]] + s[1..][..k - 1];
    }
  }

  lemma {:induction false} UpToNulFree(s: string)
    requires NulFree(s)
    ensures UpToNul(s) == s
  {
    UpToNulSplit(s, |s|);
    assert s[..|s|] == s && s[|s|..] == [];
  }

  /** Two passes: measure and cut at the first NUL, then fill a buffer of exactly the measured length. */
  method EscapedString(str: string) returns (r: string)
    ensures r == Escape(UpToNul(str))
  {
    hide EscapeChar, Extra, TwoCharEscape;
    var span := str;
    var nExtra: nat := 0;
    var k := 0;
    while k < |str|
      invariant k <= |str| && span == str && NulFree(str[..k])
      invariant |Escape(str[..k])| == k + nExtra
      invariant nExtra == 0 ==> Escape(str[..k]) == str[..k]
    {
      if str[k] == 0 as char {
        break;
      }
      assert str[..k + 1] == str[..k] + [str[k]];
      EscapeSnoc(str[..k], str[k]);
      EscapeCharLength(str[k]);
      assert Escape(str[..k + 1]) == Escape(str[..k]) + EscapeChar(str[k]);
      nExtra := nExtra + Extra(str[k]);
      k := k + 1;
    }
    UpToNulSplit(str, k);
    span := str[..k];
    assert k < |str| ==> str[k..][0] == 0 as char;
    assert UpToNul(str) == span;
    if nExtra == 0 {
      return span;
    }
    var owned := new char[|span| + nExtra];
    var i := 0;
    for j := 0 to |span|
      invariant i == |Escape(span[..j])| <= owned.Length
      invariant owned[..i] == Escape(span[..j])
    {
      EscapeSnoc(span[..j], span[j]);
      assert span[..j + 1] == span[..j] + [span[j]];
      EscapePrefix(span, j + 1);
      i := WriteEscape(owned, i, span[j]);
    }
    assert span[..|span|] == span;
    return owned[..i];
  }

  lemma {:induction false} EscapePrefix(s: string, k: nat)
    requires k <= |s|
    ensures |Escape(s[..k])| <= |Escape(s)|
    decreases |s| - k
  {
    if k == |s| {
      assert s[..k] == s;
    } else {
      assert s[..k + 1] == s[..k] + [s[k]];
      EscapeSnoc(s[..k], s[k]);
      EscapePrefix(s, k + 1);
    }
  }

  /** The body of the second loop: one character's escape into the buffer at a running index. */
  method WriteEscape(owned: array<char>, start: nat, c: char) returns (i: nat)
    requires start + |EscapeChar(c)| <= owned.Length
    modifies owned
    ensures i == start + |EscapeChar(c)|
    ensures owned[..i] == old(owned[..start]) + EscapeChar(c)
  {
    i := start;
    if TwoCharEscape(c).Some? {
      owned[i] := '\\';
      owned[i + 1] := TwoCharEscape(c).value;
      i := i + 2;
    } else if c as int <= 0x1f {
      owned[i] := '\\';
      owned[i + 1] := 'u';
      owned[i + 2] := '0';
      owned[i + 3] := '0';
      owned[i + 4] := HexDigitToAsciiChar(c as int / 16);
      owned[i + 5] := HexDigitToAsciiChar(c as int % 16);
      i := i + 6;
    } else {
      owned[i] := c;
      i := i + 1;
    }
  }

  // ----- the writer

  class JSONWriter {
    var out: string
    var mNeedComma: seq<bool>
    var mNeedNewlines: seq<bool>
    var mDepth: nat

    predicate Ready()
      reads this
    {
      mDepth < |mNeedComma| && mDepth < |mNeedNewlines|
    }

    function Nl0(): bool
      requires Ready()
      reads this
    {
      mNeedNewlines[0]
    }

    function Nl(): bool
      requires Ready()
      reads this
    {
      mNeedNewlines[mDepth]
    }

    function First(): bool
      requires Ready()
      reads this
    {
      !mNeedComma[mDepth]
    }

    constructor (style: Style)
      ensures Ready() && mDepth == 0 && out == "" && First() && Nl0() == (style == MultiLine)
    {
      out := "";
      mDepth := 0;
      mNeedComma := [false];
      mNeedNewlines := [style == MultiLine];
    }

    method Write(s: string)
      modifies this`out
      ensures out == old(out) + s
    {
      out := out + s;
    }

    method Indent()
      modifies this`out
      ensures out == old(out) + Spaces(mDepth)
    {
      for i := 0 to mDepth
        invariant out == old(out) + Spaces(i)
      {
        SpacesSnoc(i);
        Write(" ");
      }
    }

    /** The text Separator() writes in the current state. */
    function Separation(): string
      requires Ready()
      reads this
    {
      (if First() then "" else ",") +
      (if mDepth > 0 && Nl() then "\n" + Spaces(mDepth) else if !First() && Nl0() then " " else "")
    }

    method Separator()
      requires Ready()
      modifies this`out
      ensures out == old(out) + old(Separation())
    {
      if mNeedComma[mDepth] {
        Write(",");
      }
      if mDepth > 0 && mNeedNewlines[mDepth] {
        Write("\n");
        Indent();
      } else if mNeedComma[mDepth] && mNeedNewlines[0] {
        Write(" ");
      }
    }

    function NameIfAny(name: string): string
      requires Ready()
      reads this
    {
      if name == "" then "" else NameText(UpToNul(name), Nl0())
    }

    method PropertyNameAndColon(name: string)
      requires Ready()
      modifies this`out
      ensures out == old(out) + NameText(UpToNul(name), Nl0())
    {
      hide Escape, UpToNul;
      Write("\"");
      var escaped := EscapedString(name);
      Write(escaped);
      Write("\":");
      if mNeedNewlines[0] {
        Write(" ");
      }
    }

    method Scalar(name: string, value: string)
      requires Ready()
      modifies this`out, this`mNeedComma
      ensures out == old(out) + old(Separation()) + old(NameIfAny(name)) + value
      ensures mNeedComma == old(mNeedComma)[mDepth := true]
    {
      hide NameText;
      ghost var o, sep := out, Separation();
      Separator();
      if name != "" {
        PropertyNameAndColon(name);
      }
      Write(value);
      mNeedComma := mNeedComma[mDepth := true];
      assert out == o + sep + NameIfAny(name) + value;
    }

    method QuotedScalar(name: string, value: string)
      requires Ready()
      modifies this`out, this`mNeedComma
      ensures out == old(out) + old(Separation()) + old(NameIfAny(name)) + ("\"" + value + "\"")
      ensures mNeedComma == old(mNeedComma)[mDepth := true]
    {
      hide NameText;
      ghost var o, sep := out, Separation();
      Separator();
      if name != "" {
        PropertyNameAndColon(name);
      }
      Write("\"");
      Write(value);
      Write("\"");
      mNeedComma := mNeedComma[mDepth := true];
      assert out == o + sep + NameIfAny(name) + ("\"" + value + "\"");
    }

    /** Both vectors are cut or grown to mDepth + 1 entries and the last one is set. */
    method NewVectorEntries(needNewLines: bool)
      requires mDepth <= |mNeedComma| && mDepth <= |mNeedNewlines|
      modifies this`mNeedComma, this`mNeedNewlines
      ensures mNeedComma == old(mNeedComma)[..mDepth] + [false]
      ensures mNeedNewlines == old(mNeedNewlines)[..mDepth] + [needNewLines]
    {
      mNeedComma := mNeedComma[..mDepth] + [false];
      mNeedNewlines := mNeedNewlines[..mDepth] + [needNewLines];
    }

    method StartCollection(name: string, startChar: char, style: Style)
      requires Ready()
      modifies this
      ensures out == old(out) + old(Separation()) + old(NameIfAny(name)) + [startChar]
      ensures mDepth == old(mDepth) + 1
      ensures mNeedComma == old(mNeedComma)[..old(mDepth)] + [true, false]
      ensures mNeedNewlines == old(mNeedNewlines)[..old(mDepth) + 1] + [Inner(old(Nl()), style)]
    {
      hide NameText;
      ghost var o, sep := out, Separation();
      Separator();
      if name != "" {
        PropertyNameAndColon(name);
      }
      Write([startChar]);
      assert out == o + sep + NameIfAny(name) + [startChar];
      mNeedComma := mNeedComma[mDepth := true];
      mDepth := mDepth + 1;
      NewVectorEntries(mNeedNewlines[mDepth - 1] && style == MultiLine);
    }

    method EndCollection(endChar: char)
      requires Ready() && mDepth > 0
      modifies this`out, this`mDepth
      ensures mDepth == old(mDepth) - 1
      ensures out == old(out) + ClosingText(old(Nl()), mDepth, endChar)
    {
      if mNeedNewlines[mDepth] {
        Write("\n");
        mDepth := mDepth - 1;
        Indent();
      } else {
        mDepth := mDepth - 1;
      }
      Write([endChar]);
    }

    method Start(style: Style)
      requires Ready()
      modifies this
      ensures out == old(out) + old(Separation()) + "{"
      ensures mDepth == old(mDepth) + 1
      ensures mNeedComma == old(mNeedComma)[..old(mDepth)] + [true, false]
      ensures mNeedNewlines == old(mNeedNewlines)[..old(mDepth) + 1] + [Inner(old(Nl()), style)]
    {
      StartCollection("", '{', style);
    }

    method End()
      requires Ready() && mDepth > 0
      modifies this`out, this`mDepth
      ensures mDepth == old(mDepth) - 1
      ensures out == old(out) + ClosingText(old(Nl()), mDepth, '}') + if mNeedNewlines[mDepth] then "\n" else ""
    {
      EndCollection('}');
      if mNeedNewlines[mDepth] {
        Write("\n");
      }
    }

    // ----- driving the writer over a tree

    /** What a caller may rely on after printing a value at depth d: flags below d are untouched. */
    ghost predicate Stands(d: nat, commas: seq<bool>, newlines: seq<bool>)
      reads this
    {
      && mDepth == d && Ready()
      && d < |commas| && d < |newlines|
      && mNeedComma[..d] == commas[..d]
      && mNeedNewlines[..d + 1] == newlines[..d + 1]
    }

    /** The property or element calls for one value; an empty name prints an element. */
    method PrintValue(name: string, t: Tree)
      requires Ready() && mDepth > 0 && Printable(t) && NulFree(name)
      modifies this
      ensures Stands(old(mDepth), old(mNeedComma), old(mNeedNewlines)) && !First()
      ensures out == old(out) + SeparatorText(old(First()), old(Nl0()), old(Nl()), old(mDepth)) +
                     (if name == "" then "" else NameText(name, old(Nl0()))) + Render(t, old(Nl0()), old(Nl()), old(mDepth))
      decreases t, 2
    {
      hide NameText, RenderItems, RenderMembers, SeparatorText, Printable, Escape, ClosingText, NulFree;
      ghost var o, d, commas, newlines := out, mDepth, mNeedComma, mNeedNewlines;
      ghost var pre := Separation() + NameIfAny(name);
      UpToNulFree(name);
      SeparationIs();
      PrintableParts(t);
      match t {
        case TNull => Scalar(name, "null");
        case TBool(b) => Scalar(name, if b then "true" else "false");
        case TInt(text) => Scalar(name, text);
        case TString(s) =>
          var escaped := EscapedString(s);
          QuotedScalar(name, escaped);
        case TArray(style, items) => PrintArray(name, style, items);
        case TObject(style, members) => PrintObject(name, style, members);
      }
    }

    /** StartArrayProperty or StartArrayElement, the items, EndArray. */
    method PrintArray(name: string, style: Style, items: seq<Tree>)
      requires Ready() && mDepth > 0 && PrintableItems(items)
      modifies this
      ensures Stands(old(mDepth), old(mNeedComma), old(mNeedNewlines)) && !First()
      ensures out == old(out) + old(Separation()) + old(NameIfAny(name)) +
                     Render(TArray(style, items), old(Nl0()), old(Nl()), old(mDepth))
      decreases items, 1
    {
      hide NameText, RenderItems, Escape, ClosingText, Separation, NameIfAny;
      ghost var o, d, commas, newlines := out, mDepth, mNeedComma, mNeedNewlines;
      ghost var pre, inner := Separation() + NameIfAny(name), Inner(Nl(), style);
      StartCollection(name, '[', style);
      PrintItems(items);
      Returns(d, commas, newlines, inner, mNeedComma, mNeedNewlines);
      EndCollection(']');
      assert out == o + pre + ("[" + RenderItems(items, true, newlines[0], inner, d + 1) + ClosingText(inner, d, ']'));
    }

    method PrintObject(name: string, style: Style, members: seq<TMember>)
      requires Ready() && mDepth > 0 && PrintableMembers(members)
      modifies this
      ensures Stands(old(mDepth), old(mNeedComma), old(mNeedNewlines)) && !First()
      ensures out == old(out) + old(Separation()) + old(NameIfAny(name)) +
                     Render(TObject(style, members), old(Nl0()), old(Nl()), old(mDepth))
      decreases members, 1
    {
      hide NameText, RenderMembers, Escape, ClosingText, Separation, NameIfAny;
      ghost var o, d, commas, newlines := out, mDepth, mNeedComma, mNeedNewlines;
      ghost var pre, inner := Separation() + NameIfAny(name), Inner(Nl(), style);
      StartCollection(name, '{', style);
      PrintMembers(members);
      Returns(d, commas, newlines, inner, mNeedComma, mNeedNewlines);
      EndCollection('}');
      assert out == o + pre + ("{" + RenderMembers(members, true, newlines[0], inner, d + 1) + ClosingText(inner, d, '}'));
    }

    lemma SeparationIs()
      requires Ready() && mDepth > 0
      ensures Separation() == SeparatorText(First(), Nl0(), Nl(), mDepth)
    {
    }

    method PrintItems(items: seq<Tree>)
      requires Ready() && mDepth > 0 && PrintableItems(items)
      modifies this
      ensures Stands(old(mDepth), old(mNeedComma), old(mNeedNewlines))
      ensures out == old(out) + RenderItems(items, old(First()), old(Nl0()), old(Nl()), old(mDepth))
      decreases items, 0
    {
      hide NameText, Render, SeparatorText, Printable;
      if items != [] {
        PrintValue("", items[0]);
        PrintItems(items[1..]);
      }
    }

    method PrintMembers(members: seq<TMember>)
      requires Ready() && mDepth > 0 && PrintableMembers(members)
      modifies this
      ensures Stands(old(mDepth), old(mNeedComma), old(mNeedNewlines))
      ensures out == old(out) + RenderMembers(members, old(First()), old(Nl0()), old(Nl()), old(mDepth))
      decreases members, 0
    {
      hide NameText, Render, SeparatorText, Printable, NulFree;
      if members != [] {
        PrintValue(members[0].name, members[0].value);
        PrintMembers(members[1..]);
      }
    }
  }

  /** The flags at and below depth d survive whatever was printed at depth d + 1. */
  lemma Returns(d: nat, commas: seq<bool>, newlines: seq<bool>, inner: bool, commas': seq<bool>, newlines': seq<bool>)
    requires d < |commas| && d < |newlines| && d + 1 < |commas'| && d + 1 < |newlines'|
    requires commas'[..d + 1] == (commas[..d] + [true, false])[..d + 1]
    requires newlines'[..d + 2] == (newlines[..d + 1] + [inner])[..d + 2]
    ensures commas'[..d] == commas[..d] && commas'[d]
    ensures newlines'[..d + 1] == newlines[..d + 1] && newlines'[d + 1] == inner
    ensures newlines'[0] == newlines[0]
  {
    var c, n := commas'[..d + 1], newlines'[..d + 2];
    assert commas'[..d] == c[..d] && commas'[d] == c[d];
    assert newlines'[..d + 1] == n[..d + 1] && newlines'[d + 1] == n[d + 1];
    assert newlines'[0] == newlines'[..d + 1][0];
  }

  lemma PrintableParts(t: Tree)
    requires Printable(t)
    ensures t.TString? ==> UpToNul(t.s) == t.s
    ensures t.TArray? ==> PrintableItems(t.items)
    ensures t.TObject? ==> PrintableMembers(t.members)
  {
    if t.TString? {
      UpToNulFree(t.s);
    }
  }

  lemma {:induction false} SpacesSnoc(n: nat)
    ensures Spaces(n + 1) == Spaces(n) + " "
  {
    if n > 0 {
      SpacesSnoc(n - 1);
    }
  }

  /** Start, the members, End on a new writer: the text parses back to the same object, and a writer built
      single-line has printed no whitespace outside strings. */
  method PrintDocument(writerStyle: Style, style: Style, members: seq<TMember>) returns (text: string)
    requires PrintableMembers(members)
    ensures text == RenderDocument(style, members, writerStyle == MultiLine)
    ensures ParseText(text) == Some(Object(EraseMembers(members)))
    ensures writerStyle == SingleLine ==> Compact(text, false)
    ensures writerStyle == MultiLine ==>
      text != "" && text[|text| - 1] == '\n' && (style == SingleLine ==> '\n' !in text[..|text| - 1])
  {
    hide PrintableMembers, RenderMembers, ParseText, Compact;
    var w := new JSONWriter(writerStyle);
    var nl0 := writerStyle == MultiLine;
    w.Start(style);
    w.PrintMembers(members);
    w.End();
    text := w.out;
    assert text == "{" + RenderMembers(members, true, nl0, Inner(nl0, style), 1) +
                   ClosingText(Inner(nl0, style), 0, '}') + (if nl0 then "\n" else "");
    DocumentRoundTrip(style, members, nl0);
    if nl0 && style == SingleLine {
      MembersOnOneLine(members, true, true, 1);
    }
    if !nl0 {
      SingleLineIsCompact(style, members);
    }
  }
}
