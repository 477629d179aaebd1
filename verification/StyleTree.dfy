/**
 * The preprocessor tree of config/check_spidermonkey_style.py: reading a file
 * into nested blocks and printing it back. Lines come classified; the pieces of
 * an include line are its prefix, name, suffix and possibly a final newline.
 */
module StyleTrees {
  import opened StyleLines

  datatype ReadError = EndifWithoutIf(linenum: nat) | ElseWithoutIf(linenum: nat) | UnmatchedIf
  datatype Outcome = Tree(block: Snippet) | Failed(error: ReadError)

  function Quote(inclname: string, isSystem: bool): string {
    if isSystem then "<" + inclname + ">" else "\"" + inclname + "\""
  }

  function Concat(texts: seq<string>): string {
    if texts == [] then "" else Concat(texts[..|texts| - 1]) + texts[|texts| - 1]
  }

  function ToSource(s: Snippet): string
    decreases s, 1
  {
    match s
    case Include(prefix, inclname, suffix, _, isSystem) => prefix + Quote(inclname, isSystem) + suffix + "\n"
    case Code(lines) => Concat(lines)
    case Block(start, kids, end) => start + KidsSource(kids) + end
  }

  function KidsSource(kids: seq<Snippet>): string
    decreases kids, 0
  {
    if kids == [] then "" else KidsSource(kids[..|kids| - 1]) + ToSource(kids[|kids| - 1])
  }

  /** The characters of a line. */
  function Text(line: Line): string {
    match line
    case IncludeLine(prefix, inclname, suffix, isSystem, ended) =>
      prefix + Quote(inclname, isSystem) + suffix + (if ended then "\n" else "")
    case IfLine(text) => text
    case ElseLine(text) => text
    case EndifLine(text) => text
    case OrdinaryLine(text) => text
  }

  function FileText(lines: seq<Line>): string {
    if lines == [] then "" else FileText(lines[..|lines| - 1]) + Text(lines[|lines| - 1])
  }

  // ----- nesting

  predicate Balanced(lines: seq<Line>) {
    NestedUpTo(lines, |lines|) && Level(lines) == 0
  }

  /** The first line at fault, or blocks left open at the end. */
  predicate Explains(lines: seq<Line>, error: ReadError) {
    match error
    case EndifWithoutIf(n) =>
      1 <= n <= |lines| && lines[n - 1].EndifLine? && Level(lines[..n - 1]) == 0 && NestedUpTo(lines, n - 1)
    case ElseWithoutIf(n) =>
      1 <= n <= |lines| && lines[n - 1].ElseLine? && Level(lines[..n - 1]) == 0 && NestedUpTo(lines, n - 1)
    case UnmatchedIf => NestedUpTo(lines, |lines|) && Level(lines) > 0
  }

  lemma ExplainedIsUnbalanced(lines: seq<Line>, error: ReadError)
    requires Explains(lines, error)
    ensures !Balanced(lines)
  {
    if !error.UnmatchedIf? {
      assert !NestedAt(lines, error.linenum - 1);
    }
  }

  // ----- the bracket structure shared by a file and its tree

  datatype Token =
    | IncludeToken(s: Snippet)
    | CodeToken(text: string)
    | Open(start: string)
    | Close(end: string)

  function CodeTokens(lines: seq<string>): seq<Token> {
    if lines == [] then [] else CodeTokens(lines[..|lines| - 1]) + [CodeToken(lines[|lines| - 1])]
  }

  function SnippetTokens(s: Snippet): seq<Token>
    decreases s, 1
  {
    match s
    case Include(_, _, _, _, _) => [IncludeToken(s)]
    case Code(lines) => CodeTokens(lines)
    case Block(start, kids, end) => [Open(start)] + Tokens(kids) + [Close(end)]
  }

  function Tokens(kids: seq<Snippet>): seq<Token>
    decreases kids, 0
  {
    if kids == [] then [] else Tokens(kids[..|kids| - 1]) + SnippetTokens(kids[|kids| - 1])
  }

  /** A line #else or #elif closes a block, without any text of its own, and opens its neighbour. */
  function LineTokens(line: Line, linenum: nat): seq<Token> {
    match line
    case IncludeLine(prefix, inclname, suffix, isSystem, _) => [IncludeToken(Include(prefix, inclname, suffix, linenum, isSystem))]
    case IfLine(text) => [Open(text)]
    case ElseLine(text) => [Close(""), Open(text)]
    case EndifLine(text) => [Close(text)]
    case OrdinaryLine(text) => [CodeToken(text)]
  }

  function FileTokens(lines: seq<Line>): seq<Token> {
    if lines == [] then [] else FileTokens(lines[..|lines| - 1]) + LineTokens(lines[|lines| - 1], |lines|)
  }

  /** Consecutive ordinary lines share one node. */
  predicate Merged(kids: seq<Snippet>)
    decreases kids
  {
    kids == [] ||
    var n, s := |kids| - 1, kids[|kids| - 1];
    Merged(kids[..n]) &&
    match s
    case Include(_, _, _, _, _) => true
    case Code(lines) => lines != [] && (n == 0 || !kids[n - 1].Code?)
    case Block(_, inner, _) => Merged(inner)
  }

  // ----- reading

  /** The tokens read so far, from the outermost open block to the innermost. */
  function StackTokens(stack: seq<Frame>): seq<Token> {
    if stack == [] then []
    else
      var n := |stack| - 1;
      StackTokens(stack[..n]) + (if n == 0 then [] else [Open(stack[n].start)]) + Tokens(stack[n].kids)
  }

  predicate StackMerged(stack: seq<Frame>) {
    forall i :: 0 <= i < |stack| ==> Merged(stack[i].kids)
  }

  function AppendOrdinaryLine(kids: seq<Snippet>, text: string): (r: seq<Snippet>)
    requires Merged(kids)
    ensures Merged(r) && Tokens(r) == Tokens(kids) + [CodeToken(text)]
  {
    var n := |kids| - 1;
    if kids == [] || !kids[n].Code? then
      assert (kids + [Code([text])])[..n + 1] == kids;
      assert CodeTokens([text]) == [CodeToken(text)] by {
        assert [text][..0] == [];
      }
      kids + [Code([text])]
    else
      var lines := kids[n].lines;
      assert (lines + [text])[..|lines|] == lines;
      assert kids[n := Code(lines + [text])][..n] == kids[..n];
      kids[n := Code(lines + [text])]
  }

  /** A line of code leaves blocks and includes as they are and is the last line the kids were read from. */
  lemma OrdinaryAppended(kids: seq<Snippet>, text: string)
    requires Merged(kids)
    ensures var r := AppendOrdinaryLine(kids, text);
            && !Dangling(r) && BlockCount(r) == BlockCount(kids) && Unread(r) == Unread(kids) + [OrdinaryLine(text)]
            && (forall own, next :: TreeHomes(r, own, next) == TreeHomes(kids, own, next))
            && (Paired(kids) && !Dangling(kids) ==> Paired(r))
  {
    hide Tokens, Merged;
    var n := |kids| - 1;
    if kids == [] || !kids[n].Code? {
      assert (kids + [Code([text])])[..n + 1] == kids;
      assert Ordinary([text]) == [OrdinaryLine(text)] by {
        assert [text][..0] == [];
      }
    } else {
      var lines := kids[n].lines;
      assert (lines + [text])[..|lines|] == lines;
      assert kids[n := Code(lines + [text])][..n] == kids[..n];
    }
  }

  lemma PushKid(kids: seq<Snippet>, s: Snippet)
    ensures Tokens(kids + [s]) == Tokens(kids) + SnippetTokens(s)
    ensures Merged(kids) && (s.Include? || (s.Block? && Merged(s.kids))) ==> Merged(kids + [s])
  {
    assert (kids + [s])[..|kids|] == kids;
  }

  lemma PushFrame(stack: seq<Frame>, f: Frame)
    ensures StackTokens(stack + [f]) ==
            StackTokens(stack) + (if stack == [] then [] else [Open(f.start)]) + Tokens(f.kids)
  {
    assert (stack + [f])[..|stack|] == stack;
  }

  lemma CloseTokens(stack: seq<Frame>, end: string)
    requires |stack| >= 2 && StackMerged(stack)
    ensures |CloseTop(stack, end)| == |stack| - 1
    ensures StackTokens(CloseTop(stack, end)) == StackTokens(stack) + [Close(end)]
    ensures StackMerged(CloseTop(stack, end))
  {
    hide Tokens, StackTokens, Merged;
    var n := |stack| - 1;
    var f, g, below := stack[n], stack[n - 1], stack[..n - 1];
    assert stack == (below + [g]) + [f];
    PushFrame(below + [g], f);
    PushFrame(below, g);
    PushFrame(below, AddKid(g, Block(f.start, f.kids, end)));
    PushKid(g.kids, Block(f.start, f.kids, end));
  }

  lemma OpenTokens(stack: seq<Frame>, start: string)
    requires stack != [] && StackMerged(stack)
    ensures StackTokens(stack + [Frame(start, [])]) == StackTokens(stack) + [Open(start)]
    ensures StackMerged(stack + [Frame(start, [])])
  {
    PushFrame(stack, Frame(start, []));
  }

  /** One line: the blocks open after it, none if it closes or continues a block that is not there. */
  method ReadLine(stack: seq<Frame>, line: Line, linenum: nat) returns (next: seq<Frame>)
    requires stack != [] && StackMerged(stack)
    ensures next == [] <==> |stack| == 1 && (line.EndifLine? || line.ElseLine?)
    ensures next != [] ==> StackMerged(next) && StackTokens(next) == StackTokens(stack) + LineTokens(line, linenum)
    ensures next != [] ==> |next| == |stack| + (if line.IfLine? then 1 else if line.EndifLine? then -1 else 0)
    ensures next != [] ==> Reads(stack, line, linenum, next)
  {
    hide Tokens, Merged, StackTokens, CloseTop, Reads;
    var n := |stack| - 1;
    var top, under := stack[n], stack[..n];
    assert stack == under + [top];
    assert n > 0 ==> under == under[..n - 1] + [under[n - 1]];
    match line
    case IncludeLine(prefix, inclname, suffix, isSystem, _) =>
      var s := Include(prefix, inclname, suffix, linenum, isSystem);
      PushFrame(under, top);
      PushKid(top.kids, s);
      IncludeTokens(s);
      PushFrame(under, AddKid(top, s));
      ReadsInclude(under, top, line, linenum);
      next := under + [AddKid(top, s)];
    case IfLine(text) =>
      OpenTokens(stack, text);
      ReadsIf(stack, line, linenum);
      next := stack + [Frame(text, [])];
    case ElseLine(text) =>
      if n == 0 {
        return [];
      }
      CloseTokens(stack, "");
      OpenTokens(CloseTop(stack, ""), text);
      ReadsElse(under[..n - 1], under[n - 1], top, line, linenum);
      next := CloseTop(stack, "") + [Frame(text, [])];
    case EndifLine(text) =>
      if n == 0 {
        return [];
      }
      CloseTokens(stack, text);
      ReadsEndif(under[..n - 1], under[n - 1], top, line, linenum);
      next := CloseTop(stack, text);
    case OrdinaryLine(text) =>
      var f := Frame(top.start, AppendOrdinaryLine(top.kids, text));
      PushFrame(under, top);
      PushFrame(under, f);
      OrdinaryAppended(top.kids, text);
      ReadsOrdinary(under, top, f.kids, line, linenum);
      next := under + [f];
  }

  method ReadFile(lines: seq<Line>) returns (r: Outcome)
    ensures r.Failed? ==> Explains(lines, r.error)
    ensures r.Tree? ==> Balanced(lines) && r.block.Block? && r.block.start == "" == r.block.end
    ensures r.Tree? ==> Tokens(r.block.kids) == FileTokens(lines) && Merged(r.block.kids)
    // every block is the one its line opened, continued or closed, and every include stands where its line does
    ensures r.Tree? ==> TreeHomes(r.block.kids, 0, 1) == Homes(lines)
    ensures r.Tree? && AllWorded(lines) ==>
      && Unread(r.block.kids) == BareLines(lines) && Paired(r.block.kids) && !Dangling(r.block.kids)
      && Starts(r.block.kids) == Openers(lines) && CodeLines(r.block.kids) == Ordinaries(lines) && Ends(r.block.kids) == Closers(lines)
  {
    hide Tokens, Merged, StackTokens, FileTokens, LineTokens, Reads, ReadFrom, Unread, TreeHomes, Homes, BareLines, Paired,
      Starts, Openers, CodeLines, Ordinaries, Ends, Closers;
    ReadNothing();
    var stack := [Frame("", [])];
    InitialStack();
    var i := 0;
    while i < |lines|
      invariant 0 <= i <= |lines|
      invariant |stack| == Level(lines[..i]) + 1 && |stack| >= 1 && NestedUpTo(lines, i)
      invariant StackMerged(stack) && StackTokens(stack) == FileTokens(lines[..i]) && ReadFrom(lines[..i], stack)
    {
      ReadOne(lines, i);
      var next := ReadLine(stack, lines[i], i + 1);
      if next == [] {
        return Failed(if lines[i].EndifLine? then EndifWithoutIf(i + 1) else ElseWithoutIf(i + 1));
      }
      ReadNext(lines, i, stack, next);
      stack := next;
      i := i + 1;
    }
    assert lines[..|lines|] == lines;
    if |stack| > 1 {
      return Failed(UnmatchedIf);
    }
    assert stack == [] + [stack[0]];
    PushFrame([], stack[0]);
    NoTokens();
    assert stack == [Frame(stack[0].start, stack[0].kids)];
    ReadAll(lines, stack[0].start, stack[0].kids);
    r := Tree(Block("", stack[0].kids, ""));
  }

  lemma InitialStack()
    ensures StackMerged([Frame("", [])]) && StackTokens([Frame("", [])]) == FileTokens([])
  {
  }

  lemma NoTokens()
    ensures Tokens([]) == [] && Merged([]) && StackTokens([]) == []
  {
  }

  lemma IncludeTokens(s: Snippet)
    requires s.Include?
    ensures SnippetTokens(s) == [IncludeToken(s)]
  {
  }

  lemma ReadOne(lines: seq<Line>, i: nat)
    requires i < |lines|
    ensures FileTokens(lines[..i + 1]) == FileTokens(lines[..i]) + LineTokens(lines[i], i + 1)
    ensures Level(lines[..i + 1]) == Level(lines[..i]) + (if lines[i].IfLine? then 1 else if lines[i].EndifLine? then -1 else 0)
  {
    assert lines[..i + 1][..i] == lines[..i];
  }

  /** The kids of the block at a path of positions. */
  function KidsAt(kids: seq<Snippet>, path: seq<nat>): seq<Snippet>
    decreases |path|
  {
    if path == [] then kids
    else if path[0] < |kids| && kids[path[0]].Block? then KidsAt(kids[path[0]].kids, path[1..])
    else []
  }

  lemma {:induction false} MergedAt(kids: seq<Snippet>, i: nat)
    requires Merged(kids) && i < |kids|
    ensures kids[i].Code? ==> kids[i].lines != [] && (i > 0 ==> !kids[i - 1].Code?)
    ensures kids[i].Block? ==> Merged(kids[i].kids)
    decreases |kids|
  {
    if i < |kids| - 1 {
      MergedAt(kids[..|kids| - 1], i);
    }
  }

  /** At every depth a stretch of code between includes and blocks is one node, and no node is empty. */
  lemma {:induction false} CodeIsMaximal(kids: seq<Snippet>, path: seq<nat>)
    requires Merged(kids)
    ensures var here := KidsAt(kids, path);
            forall i :: 0 <= i < |here| && here[i].Code? ==> here[i].lines != [] && (i > 0 ==> !here[i - 1].Code?)
    decreases |path|
  {
    hide Merged;
    if path == [] {
      forall i | 0 <= i < |kids| && kids[i].Code?
        ensures kids[i].lines != [] && (i > 0 ==> !kids[i - 1].Code?)
      {
        MergedAt(kids, i);
      }
    } else if path[0] < |kids| && kids[path[0]].Block? {
      MergedAt(kids, path[0]);
      CodeIsMaximal(kids[path[0]].kids, path[1..]);
      assert KidsAt(kids, path) == KidsAt(kids[path[0]].kids, path[1..]);
    } else {
      assert KidsAt(kids, path) == [];
    }
  }

  // ----- printing back

  function TokenText(t: Token): string {
    match t
    case IncludeToken(s) => ToSource(s)
    case CodeToken(text) => text
    case Open(start) => start
    case Close(end) => end
  }

  function TokensText(ts: seq<Token>): string {
    if ts == [] then "" else TokensText(ts[..|ts| - 1]) + TokenText(ts[|ts| - 1])
  }

  lemma {:induction false} TextAppend(a: seq<Token>, b: seq<Token>)
    ensures TokensText(a + b) == TokensText(a) + TokensText(b)
  {
    hide TokenText;
    if b == [] {
      assert a + b == a;
    } else {
      var n := |b| - 1;
      assert (a + b)[..|a| + n] == a + b[..n];
      TextAppend(a, b[..n]);
    }
  }

  lemma {:induction false} CodeText(lines: seq<string>)
    ensures TokensText(CodeTokens(lines)) == Concat(lines)
  {
    if lines != [] {
      var n := |lines| - 1;
      CodeText(lines[..n]);
      var ts := CodeTokens(lines);
      assert ts[..|ts| - 1] == CodeTokens(lines[..n]);
    }
  }

  lemma OneToken(t: Token)
    ensures TokensText([t]) == TokenText(t)
  {
    assert [t][..0] == [];
  }

  /** A tree prints the text of its tokens. */
  lemma {:induction false} TreeText(kids: seq<Snippet>)
    ensures TokensText(Tokens(kids)) == KidsSource(kids)
    decreases kids
  {
    hide TokensText;
    if kids == [] {
      EmptyText();
    } else {
      var n, s := |kids| - 1, kids[|kids| - 1];
      TreeText(kids[..n]);
      TextAppend(Tokens(kids[..n]), SnippetTokens(s));
      match s
      case Include(_, _, _, _, _) => OneToken(IncludeToken(s));
      case Code(lines) => CodeText(lines);
      case Block(start, inner, end) =>
        TreeText(inner);
        TextAppend([Open(start)] + Tokens(inner), [Close(end)]);
        TextAppend([Open(start)], Tokens(inner));
        OneToken(Open(start));
        OneToken(Close(end));
    }
  }

  lemma EmptyText()
    ensures TokensText([]) == ""
  {
  }

  /** Include lines without a final newline: the last line of a file may be one. */
  function Unended(lines: seq<Line>): nat {
    if lines == [] then 0
    else
      var last := lines[|lines| - 1];
      Unended(lines[..|lines| - 1]) + (if last.IncludeLine? && !last.ended then 1 else 0)
  }

  lemma {:induction false} LinesText(lines: seq<Line>)
    ensures |TokensText(FileTokens(lines))| == |FileText(lines)| + Unended(lines)
    ensures Unended(lines) == 0 ==> TokensText(FileTokens(lines)) == FileText(lines)
  {
    hide TokensText;
    if lines == [] {
      EmptyText();
    } else {
      var n, last := |lines| - 1, lines[|lines| - 1];
      LinesText(lines[..n]);
      TextAppend(FileTokens(lines[..n]), LineTokens(last, |lines|));
      LineText(last, |lines|);
    }
  }

  lemma LineText(line: Line, linenum: nat)
    ensures var newline := if line.IncludeLine? && !line.ended then "\n" else "";
            TokensText(LineTokens(line, linenum)) == Text(line) + newline
  {
    hide TokensText;
    if line.ElseLine? {
      TextAppend([Close("")], [Open(line.text)]);
      OneToken(Close(""));
      OneToken(Open(line.text));
      assert LineTokens(line, linenum) == [Close("")] + [Open(line.text)];
    } else {
      OneToken(LineTokens(line, linenum)[0]);
    }
  }

  /** Whatever tree reading yields prints back as the file exactly when every include line ends in a newline. */
  lemma RoundTrip(lines: seq<Line>, block: Snippet)
    requires block.Block? && block.start == "" == block.end && Tokens(block.kids) == FileTokens(lines)
    ensures ToSource(block) == FileText(lines) <==> Unended(lines) == 0
  {
    TreeText(block.kids);
    LinesText(lines);
  }

  /** A file that ends in an include line without a newline gains one. */
  lemma UnendedGainsNewline(lines: seq<Line>, block: Snippet)
    requires block.Block? && block.start == "" == block.end && Tokens(block.kids) == FileTokens(lines)
    requires lines != [] && lines[|lines| - 1].IncludeLine? && !lines[|lines| - 1].ended
    requires Unended(lines[..|lines| - 1]) == 0
    ensures ToSource(block) == FileText(lines) + "\n"
  {
    hide TokensText, FileTokens, Tokens, LineTokens, Text, FileText, Unended, KidsSource;
    var n := |lines| - 1;
    TreeText(block.kids);
    LinesText(lines[..n]);
    LastLine(lines);
    TextAppend(FileTokens(lines[..n]), LineTokens(lines[n], n + 1));
    LineText(lines[n], n + 1);
    assert "" + KidsSource(block.kids) + "" == KidsSource(block.kids);
  }

  lemma LastLine(lines: seq<Line>)
    requires lines != []
    ensures var n := |lines| - 1;
            && FileText(lines) == FileText(lines[..n]) + Text(lines[n])
            && FileTokens(lines) == FileTokens(lines[..n]) + LineTokens(lines[n], n + 1)
  {
  }

  /** The one-line file that shows it. */
  method ReadUnendedInclude() returns (lines: seq<Line>, r: Outcome)
    ensures FileText(lines) == "#include \"a.h\""
    ensures r.Tree? && ToSource(r.block) == "#include \"a.h\"\n"
  {
    lines := [IncludeLine("#include ", "a.h", "", false, false)];
    r := ReadFile(lines);
    assert lines[..0] == [] && Text(lines[0]) == "#include \"a.h\"";
    assert Balanced(lines) by {
      assert Level(lines) == 0;
    }
    BalancedIsRead(lines, r);
    UnendedGainsNewline(lines, r.block);
  }

  lemma BalancedIsRead(lines: seq<Line>, r: Outcome)
    requires Balanced(lines) && (r.Failed? ==> Explains(lines, r.error))
    ensures r.Tree?
  {
    if r.Failed? {
      ExplainedIsUnbalanced(lines, r.error);
    }
  }

  // ----- the tokens determine the tree

  function TokenStep(stack: seq<Frame>, t: Token): seq<Frame> {
    if stack == [] then stack
    else
      var n := |stack| - 1;
      var f := stack[n];
      match t
      case IncludeToken(s) => stack[n := AddKid(f, s)]
      case CodeToken(text) =>
        var m := |f.kids| - 1;
        if m >= 0 && f.kids[m].Code? then stack[n := Frame(f.start, f.kids[m := Code(f.kids[m].lines + [text])])]
        else stack[n := AddKid(f, Code([text]))]
      case Open(start) => stack + [Frame(start, [])]
      case Close(end) => if n == 0 then stack else CloseTop(stack, end)
  }

  function Rebuild(stack: seq<Frame>, ts: seq<Token>): seq<Frame> {
    if ts == [] then stack else TokenStep(Rebuild(stack, ts[..|ts| - 1]), ts[|ts| - 1])
  }

  lemma {:induction false} RebuildAppend(stack: seq<Frame>, a: seq<Token>, b: seq<Token>)
    ensures Rebuild(stack, a + b) == Rebuild(Rebuild(stack, a), b)
  {
    hide TokenStep;
    if b == [] {
      assert a + b == a;
    } else {
      var n := |b| - 1;
      assert (a + b)[..|a| + n] == a + b[..n];
      RebuildAppend(stack, a, b[..n]);
    }
  }

  lemma RebuildOne(stack: seq<Frame>, t: Token)
    ensures Rebuild(stack, [t]) == TokenStep(stack, t)
  {
    hide TokenStep;
    assert [t][..0] == [];
  }

  lemma {:induction false} RebuildCode(below: seq<Frame>, start: string, kids: seq<Snippet>, lines: seq<string>)
    requires lines != [] && (kids == [] || !kids[|kids| - 1].Code?)
    ensures Rebuild(below + [Frame(start, kids)], CodeTokens(lines)) == below + [Frame(start, kids + [Code(lines)])]
  {
    var n := |lines| - 1;
    var stack, ts := below + [Frame(start, kids)], CodeTokens(lines[..n]);
    assert (ts + [CodeToken(lines[n])])[..|ts|] == ts;
    assert lines == lines[..n] + [lines[n]];
    if n > 0 {
      RebuildCode(below, start, kids, lines[..n]);
      assert (kids + [Code(lines[..n])])[|kids| := Code(lines)] == kids + [Code(lines)];
    }
  }

  lemma {:induction false} RebuildTree(below: seq<Frame>, start: string, kids: seq<Snippet>)
    requires Merged(kids)
    ensures Rebuild(below + [Frame(start, [])], Tokens(kids)) == below + [Frame(start, kids)]
    decreases kids
  {
    hide Rebuild, TokenStep;
    if kids == [] {
      NoRebuild(below + [Frame(start, [])]);
    } else {
      var n, s, stack := |kids| - 1, kids[|kids| - 1], below + [Frame(start, [])];
      assert kids == kids[..n] + [s];
      RebuildTree(below, start, kids[..n]);
      RebuildAppend(stack, Tokens(kids[..n]), SnippetTokens(s));
      match s
      case Include(_, _, _, _, _) => RebuildInclude(below, start, kids[..n], s);
      case Code(lines) => RebuildCode(below, start, kids[..n], lines);
      case Block(start1, inner, end) =>
        RebuildTree(below + [Frame(start, kids[..n])], start1, inner);
        RebuildBlock(below, start, kids[..n], s);
    }
  }

  lemma NoRebuild(stack: seq<Frame>)
    ensures Rebuild(stack, []) == stack
  {
  }

  lemma RebuildInclude(below: seq<Frame>, start: string, kids: seq<Snippet>, s: Snippet)
    requires s.Include?
    ensures Rebuild(below + [Frame(start, kids)], [IncludeToken(s)]) == below + [Frame(start, kids + [s])]
  {
    RebuildOne(below + [Frame(start, kids)], IncludeToken(s));
  }

  lemma RebuildBlock(below: seq<Frame>, start: string, kids: seq<Snippet>, s: Snippet)
    requires s.Block?
    requires var outer := below + [Frame(start, kids)];
             Rebuild(outer + [Frame(s.start, [])], Tokens(s.kids)) == outer + [Frame(s.start, s.kids)]
    ensures Rebuild(below + [Frame(start, kids)], SnippetTokens(s)) == below + [Frame(start, kids + [s])]
  {
    hide Rebuild, Tokens;
    var outer := below + [Frame(start, kids)];
    RebuildAppend(outer, [Open(s.start)] + Tokens(s.kids), [Close(s.end)]);
    RebuildAppend(outer, [Open(s.start)], Tokens(s.kids));
    RebuildOne(outer, Open(s.start));
    RebuildOne(outer + [Frame(s.start, s.kids)], Close(s.end));
    assert (outer + [Frame(s.start, s.kids)])[..|below|] == below;
  }

  /** Two trees with the same brackets, includes and code lines, in the same order, are the same tree. */
  lemma TreeIsUnique(a: seq<Snippet>, b: seq<Snippet>)
    requires Merged(a) && Merged(b) && Tokens(a) == Tokens(b)
    ensures a == b
  {
    RebuildTree([], "", a);
    RebuildTree([], "", b);
    assert ([] + [Frame("", a)])[0] == ([] + [Frame("", b)])[0];
  }
}
