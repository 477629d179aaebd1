/**
 * Classified lines of a file and preprocessor trees of config/check_spidermonkey_style.py,
 * and how the one is found in the other: which line opened, continued or closed a block,
 * and which block an include stands in.
 */
module StyleLines {
  datatype Line =
    | IncludeLine(prefix: string, inclname: string, suffix: string, isSystem: bool, ended: bool)
    | IfLine(text: string)
    | ElseLine(text: string)
    | EndifLine(text: string)
    | OrdinaryLine(text: string)

  datatype Snippet =
    | Include(prefix: string, inclname: string, suffix: string, linenum: nat, isSystem: bool)
    | Code(lines: seq<string>)
    | Block(start: string, kids: seq<Snippet>, end: string)

  /** A block that is still open. */
  datatype Frame = Frame(start: string, kids: seq<Snippet>)

  function AddKid(f: Frame, s: Snippet): Frame {
    Frame(f.start, f.kids + [s])
  }

  /** The innermost block is closed and becomes the last kid of the block around it. */
  function CloseTop(stack: seq<Frame>, end: string): seq<Frame>
    requires |stack| >= 2
  {
    var n := |stack| - 1;
    stack[..n - 1] + [AddKid(stack[n - 1], Block(stack[n].start, stack[n].kids, end))]
  }

  // ----- the lines a tree was read from

  /** The last kid is a block that no #endif has closed. */
  predicate Dangling(kids: seq<Snippet>) {
    kids != [] && kids[|kids| - 1].Block? && kids[|kids| - 1].end == ""
  }

  function Ordinary(lines: seq<string>): seq<Line> {
    if lines == [] then [] else Ordinary(lines[..|lines| - 1]) + [OrdinaryLine(lines[|lines| - 1])]
  }

  function Opener(continues: bool, start: string): Line {
    if continues then ElseLine(start) else IfLine(start)
  }

  /** A block right after one without an #endif is its #else or #elif. */
  function SnippetLines(s: Snippet, continues: bool): seq<Line>
    decreases s, 1
  {
    match s
    case Include(prefix, inclname, suffix, _, isSystem) => [IncludeLine(prefix, inclname, suffix, isSystem, true)]
    case Code(lines) => Ordinary(lines)
    case Block(start, kids, end) => [Opener(continues, start)] + Unread(kids) + (if end == "" then [] else [EndifLine(end)])
  }

  function Unread(kids: seq<Snippet>): seq<Line>
    decreases kids, 0
  {
    if kids == [] then []
    else
      var n := |kids| - 1;
      Unread(kids[..n]) + SnippetLines(kids[n], Dangling(kids[..n]))
  }

  /** A block without an #endif stands beside the block that continues it, and never last. */
  predicate Paired(kids: seq<Snippet>)
    decreases kids
  {
    kids == [] ||
    var n := |kids| - 1;
    && Paired(kids[..n])
    && (Dangling(kids[..n]) ==> kids[n].Block?)
    && (kids[n].Block? ==> Paired(kids[n].kids) && !Dangling(kids[n].kids))
  }

  /** What is kept of a line: all but whether an include line ends in a newline. */
  function Bare(line: Line): Line {
    if line.IncludeLine? then line.(ended := true) else line
  }

  function BareLines(lines: seq<Line>): seq<Line> {
    if lines == [] then [] else BareLines(lines[..|lines| - 1]) + [Bare(lines[|lines| - 1])]
  }

  /** An #endif line is never empty. */
  predicate Worded(line: Line) {
    line.EndifLine? ==> line.text != ""
  }

  predicate AllWorded(lines: seq<Line>) {
    forall i :: 0 <= i < |lines| ==> Worded(lines[i])
  }

  // ----- the same for a stack of open blocks

  function StackLines(stack: seq<Frame>): seq<Line> {
    if stack == [] then []
    else
      var n := |stack| - 1;
      StackLines(stack[..n]) + (if n == 0 then [] else [Opener(Dangling(stack[n - 1].kids), stack[n].start)]) + Unread(stack[n].kids)
  }

  /** Every open block is paired so far, and the innermost one has nothing to be continued. */
  predicate StackPaired(stack: seq<Frame>) {
    stack != [] && !Dangling(stack[|stack| - 1].kids) && forall i :: 0 <= i < |stack| ==> Paired(stack[i].kids)
  }

  lemma PushLines(stack: seq<Frame>, f: Frame)
    ensures StackLines(stack + [f]) ==
            StackLines(stack)
            + (if stack == [] then [] else [Opener(Dangling(stack[|stack| - 1].kids), f.start)]) + Unread(f.kids)
  {
    assert (stack + [f])[..|stack|] == stack;
  }

  lemma KidLines(kids: seq<Snippet>, s: Snippet)
    ensures Unread(kids + [s]) == Unread(kids) + SnippetLines(s, Dangling(kids))
    ensures Paired(kids) && (Dangling(kids) ==> s.Block?) && (s.Block? ==> Paired(s.kids) && !Dangling(s.kids)) ==>
              Paired(kids + [s])
  {
    assert (kids + [s])[..|kids|] == kids;
  }

  /** Closing f inside g adds the #endif line, or nothing if the block is to be continued. */
  lemma CloseLines(below: seq<Frame>, g: Frame, f: Frame, end: string)
    requires StackPaired((below + [g]) + [f])
    ensures var stack := below + [AddKid(g, Block(f.start, f.kids, end))];
            && CloseTop((below + [g]) + [f], end) == stack
            && StackLines(stack) == StackLines((below + [g]) + [f]) + (if end == "" then [] else [EndifLine(end)])
            && (Dangling(AddKid(g, Block(f.start, f.kids, end)).kids) <==> end == "")
            && (end != "" ==> StackPaired(stack))
            && forall i :: 0 <= i < |stack| ==> Paired(stack[i].kids)
  {
    hide Unread, StackLines, Paired, StackPaired, Dangling;
    var s := Block(f.start, f.kids, end);
    SplitPaired(below, g, f);
    KidLines(g.kids, s);
    LastKid(g, s);
    JoinPaired(below, AddKid(g, s), end == "");
    CloseText(below, g, f, end);
  }

  lemma CloseText(below: seq<Frame>, g: Frame, f: Frame, end: string)
    ensures StackLines(below + [AddKid(g, Block(f.start, f.kids, end))])
            == StackLines((below + [g]) + [f]) + (if end == "" then [] else [EndifLine(end)])
  {
    hide Unread, StackLines, Paired, StackPaired, Dangling;
    var s := Block(f.start, f.kids, end);
    PushLines(below + [g], f);
    PushLines(below, g);
    PushLines(below, AddKid(g, s));
    KidLines(g.kids, s);
    var before := StackLines(below) + (if below == [] then [] else [Opener(Dangling(below[|below| - 1].kids), g.start)]);
    var opener, inner, closer := [Opener(Dangling(g.kids), f.start)], Unread(f.kids), if end == "" then [] else [EndifLine(end)];
    assert before + (Unread(g.kids) + (opener + inner + closer)) == ((before + Unread(g.kids)) + opener + inner) + closer;
  }

  lemma LastKid(g: Frame, s: Snippet)
    requires s.Block?
    ensures Dangling(AddKid(g, s).kids) <==> s.end == ""
  {
  }

  lemma SplitPaired(below: seq<Frame>, g: Frame, f: Frame)
    requires StackPaired((below + [g]) + [f])
    ensures Paired(g.kids) && Paired(f.kids) && !Dangling(f.kids) && forall i :: 0 <= i < |below| ==> Paired(below[i].kids)
  {
    hide Paired;
    var stack := (below + [g]) + [f];
    assert stack[|below|] == g && stack[|below| + 1] == f;
    assert forall i :: 0 <= i < |below| ==> stack[i] == below[i];
  }

  lemma JoinPaired(below: seq<Frame>, f: Frame, dangles: bool)
    requires Paired(f.kids) && (forall i :: 0 <= i < |below| ==> Paired(below[i].kids)) && (Dangling(f.kids) <==> dangles)
    ensures forall i :: 0 <= i < |below| + 1 ==> Paired((below + [f])[i].kids)
    ensures !dangles ==> StackPaired(below + [f])
  {
    hide Paired;
  }

  lemma {:induction false} OpenLines(stack: seq<Frame>, start: string)
    requires stack != [] && forall i :: 0 <= i < |stack| ==> Paired(stack[i].kids)
    ensures StackLines(stack + [Frame(start, [])]) == StackLines(stack) + [Opener(Dangling(stack[|stack| - 1].kids), start)]
    ensures StackPaired(stack + [Frame(start, [])])
  {
    PushLines(stack, Frame(start, []));
  }

  /** A kid that is no block, or a longer last kid, at the end of the innermost block. */
  lemma TopLines(under: seq<Frame>, top: Frame, kids: seq<Snippet>, more: seq<Line>)
    requires StackPaired(under + [top]) && Paired(kids) && !Dangling(kids) && Unread(kids) == Unread(top.kids) + more
    ensures StackLines(under + [Frame(top.start, kids)]) == StackLines(under + [top]) + more
    ensures StackPaired(under + [Frame(top.start, kids)])
  {
    hide Unread, Paired;
    PushLines(under, top);
    PushLines(under, Frame(top.start, kids));
    assert forall i :: 0 <= i < |under| ==> (under + [top])[i] == (under + [Frame(top.start, kids)])[i] == under[i];
  }

  // ----- texts, by what they are for

  function Openers(lines: seq<Line>): seq<string> {
    if lines == [] then []
    else
      var last := lines[|lines| - 1];
      Openers(lines[..|lines| - 1]) + (if last.IfLine? || last.ElseLine? then [last.text] else [])
  }

  function Ordinaries(lines: seq<Line>): seq<string> {
    if lines == [] then []
    else
      var last := lines[|lines| - 1];
      Ordinaries(lines[..|lines| - 1]) + (if last.OrdinaryLine? then [last.text] else [])
  }

  function Closers(lines: seq<Line>): seq<string> {
    if lines == [] then []
    else
      var last := lines[|lines| - 1];
      Closers(lines[..|lines| - 1]) + (if last.EndifLine? then [last.text] else [])
  }

  /** Block starts in the order of traversal. */
  function Starts(kids: seq<Snippet>): seq<string>
    decreases kids
  {
    if kids == [] then []
    else
      var s := kids[|kids| - 1];
      Starts(kids[..|kids| - 1]) + (if s.Block? then [s.start] + Starts(s.kids) else [])
  }

  /** Lines of code in the order of traversal. */
  function CodeLines(kids: seq<Snippet>): seq<string>
    decreases kids
  {
    if kids == [] then []
    else
      var s := kids[|kids| - 1];
      CodeLines(kids[..|kids| - 1]) + (if s.Block? then CodeLines(s.kids) else if s.Code? then s.lines else [])
  }

  /** The ends that blocks have, in the order in which the blocks end. */
  function Ends(kids: seq<Snippet>): seq<string>
    decreases kids
  {
    if kids == [] then []
    else
      var s := kids[|kids| - 1];
      Ends(kids[..|kids| - 1]) + (if s.Block? then Ends(s.kids) + (if s.end == "" then [] else [s.end]) else [])
  }

  lemma {:induction false} TextsAppend(a: seq<Line>, b: seq<Line>)
    ensures Openers(a + b) == Openers(a) + Openers(b)
    ensures Ordinaries(a + b) == Ordinaries(a) + Ordinaries(b)
    ensures Closers(a + b) == Closers(a) + Closers(b)
  {
    hide Openers, Ordinaries, Closers;
    if b == [] {
      assert a + b == a;
      NoTexts();
    } else {
      var n := |b| - 1;
      TextsAppend(a, b[..n]);
      TextsSnoc(b[..n], b[n]);
      TextsSnoc(a + b[..n], b[n]);
      assert b == b[..n] + [b[n]] && a + b == (a + b[..n]) + [b[n]];
    }
  }

  lemma TextsSnoc(lines: seq<Line>, line: Line)
    ensures Openers(lines + [line]) == Openers(lines) + (if line.IfLine? || line.ElseLine? then [line.text] else [])
    ensures Ordinaries(lines + [line]) == Ordinaries(lines) + (if line.OrdinaryLine? then [line.text] else [])
    ensures Closers(lines + [line]) == Closers(lines) + (if line.EndifLine? then [line.text] else [])
  {
    assert (lines + [line])[..|lines|] == lines;
  }

  lemma OneLine(line: Line)
    ensures Openers([line]) == if line.IfLine? || line.ElseLine? then [line.text] else []
    ensures Ordinaries([line]) == if line.OrdinaryLine? then [line.text] else []
    ensures Closers([line]) == if line.EndifLine? then [line.text] else []
  {
    assert [line][..0] == [];
  }

  lemma {:induction false} OrdinaryTexts(lines: seq<string>)
    ensures Openers(Ordinary(lines)) == [] && Ordinaries(Ordinary(lines)) == lines && Closers(Ordinary(lines)) == []
  {
    hide Openers, Ordinaries, Closers;
    if lines == [] {
      NoTexts();
    } else {
      var n := |lines| - 1;
      OrdinaryTexts(lines[..n]);
      TextsSnoc(Ordinary(lines[..n]), OrdinaryLine(lines[n]));
      assert lines[..n] + [lines[n]] == lines;
    }
  }

  lemma {:induction false} TreeTexts(kids: seq<Snippet>)
    ensures Openers(Unread(kids)) == Starts(kids) && Ordinaries(Unread(kids)) == CodeLines(kids) && Closers(Unread(kids)) == Ends(kids)
    decreases kids
  {
    hide Openers, Ordinaries, Closers;
    if kids == [] {
      NoTexts();
    } else {
      var n, s := |kids| - 1, kids[|kids| - 1];
      var continues := Dangling(kids[..n]);
      TreeTexts(kids[..n]);
      TextsAppend(Unread(kids[..n]), SnippetLines(s, continues));
      match s
      case Include(prefix, inclname, suffix, _, isSystem) => OneLine(IncludeLine(prefix, inclname, suffix, isSystem, true));
      case Code(lines) => OrdinaryTexts(lines);
      case Block(start, inner, end) =>
        TreeTexts(inner);
        BlockTexts(Opener(continues, start), Unread(inner), end);
    }
  }

  lemma BlockTexts(opener: Line, inner: seq<Line>, end: string)
    requires opener.IfLine? || opener.ElseLine?
    ensures var ls := [opener] + inner + (if end == "" then [] else [EndifLine(end)]);
            && Openers(ls) == [opener.text] + Openers(inner) && Ordinaries(ls) == Ordinaries(inner)
            && Closers(ls) == Closers(inner) + (if end == "" then [] else [end])
  {
    hide Openers, Ordinaries, Closers;
    NoTexts();
    TextsAppend([opener], inner);
    OneLine(opener);
    OneLine(EndifLine(end));
    TextsAppend([opener] + inner, if end == "" then [] else [EndifLine(end)]);
  }

  lemma NoTexts()
    ensures Openers([]) == [] && Ordinaries([]) == [] && Closers([]) == []
  {
  }

  lemma {:induction false} BareTexts(lines: seq<Line>)
    ensures Openers(BareLines(lines)) == Openers(lines) && Ordinaries(BareLines(lines)) == Ordinaries(lines)
    ensures Closers(BareLines(lines)) == Closers(lines)
  {
    hide Openers, Ordinaries, Closers;
    if lines == [] {
      NoTexts();
    } else {
      var n := |lines| - 1;
      BareTexts(lines[..n]);
      TextsSnoc(BareLines(lines[..n]), Bare(lines[n]));
      TextsSnoc(lines[..n], lines[n]);
      assert lines[..n] + [lines[n]] == lines;
    }
  }

  // ----- which block an include stands in

  /** An include and the number of the block it stands in: 0 for the file, k for the k-th block that starts. */
  datatype Home = Home(s: Snippet, block: nat)

  /** Blocks at any depth. */
  function BlockCount(kids: seq<Snippet>): nat
    decreases kids
  {
    if kids == [] then 0
    else
      var s := kids[|kids| - 1];
      BlockCount(kids[..|kids| - 1]) + (if s.Block? then 1 + BlockCount(s.kids) else 0)
  }

  /** The includes of a tree; own is the number of the block these kids are in, next that of the first block among them. */
  function TreeHomes(kids: seq<Snippet>, own: nat, next: nat): seq<Home>
    decreases kids
  {
    if kids == [] then []
    else
      var n, s := |kids| - 1, kids[|kids| - 1];
      var number := next + BlockCount(kids[..n]);
      TreeHomes(kids[..n], own, next)
      + (if s.Include? then [Home(s, own)] else if s.Block? then TreeHomes(s.kids, number, number + 1) else [])
  }

  /** Lines that start a block. */
  function Opened(lines: seq<Line>): nat {
    if lines == [] then 0
    else
      var last := lines[|lines| - 1];
      Opened(lines[..|lines| - 1]) + (if last.IfLine? || last.ElseLine? then 1 else 0)
  }

  function ButLast(s: seq<nat>): seq<nat> {
    if s == [] then [] else s[..|s| - 1]
  }

  /** One line more: an #if opens a block, an #endif ends the innermost one, an #else or #elif does both. */
  function OpenAfter(open: seq<nat>, count: nat, line: Line): seq<nat> {
    match line
    case IfLine(_) => open + [count + 1]
    case ElseLine(_) => ButLast(open) + [count + 1]
    case EndifLine(_) => ButLast(open)
    case _ => open
  }

  /** The numbers of the blocks open after these lines, the file itself first. */
  function OpenBlocks(lines: seq<Line>): seq<nat> {
    if lines == [] then [0]
    else
      var n := |lines| - 1;
      OpenAfter(OpenBlocks(lines[..n]), Opened(lines[..n]), lines[n])
  }

  function Innermost(open: seq<nat>): nat {
    if open == [] then 0 else open[|open| - 1]
  }

  function HomeOf(open: seq<nat>, line: Line, linenum: nat): seq<Home> {
    match line
    case IncludeLine(prefix, inclname, suffix, isSystem, _) =>
      [Home(Include(prefix, inclname, suffix, linenum, isSystem), Innermost(open))]
    case _ => []
  }

  /** The includes of a file, each with its line number and the innermost block open there. */
  function Homes(lines: seq<Line>): seq<Home> {
    if lines == [] then []
    else
      var n := |lines| - 1;
      Homes(lines[..n]) + HomeOf(OpenBlocks(lines[..n]), lines[n], n + 1)
  }

  // ----- the same for a stack of open blocks

  function Number(stack: seq<Frame>): nat {
    if |stack| <= 1 then 0
    else
      var n := |stack| - 1;
      Number(stack[..n]) + 1 + BlockCount(stack[n - 1].kids)
  }

  function Numbers(stack: seq<Frame>): seq<nat> {
    if stack == [] then [] else Numbers(stack[..|stack| - 1]) + [Number(stack)]
  }

  function StackHomes(stack: seq<Frame>): seq<Home> {
    if stack == [] then []
    else StackHomes(stack[..|stack| - 1]) + TreeHomes(stack[|stack| - 1].kids, Number(stack), Number(stack) + 1)
  }

  function StackOpened(stack: seq<Frame>): nat {
    if stack == [] then 0 else Number(stack) + BlockCount(stack[|stack| - 1].kids)
  }

  lemma PushHomes(stack: seq<Frame>, f: Frame)
    ensures Number(stack + [f]) == if stack == [] then 0 else StackOpened(stack) + 1
    ensures Numbers(stack + [f]) == Numbers(stack) + [Number(stack + [f])]
    ensures StackHomes(stack + [f]) == StackHomes(stack) + TreeHomes(f.kids, Number(stack + [f]), Number(stack + [f]) + 1)
    ensures StackOpened(stack + [f]) == Number(stack + [f]) + BlockCount(f.kids)
  {
    assert (stack + [f])[..|stack|] == stack;
  }

  lemma {:induction false} KidCount(kids: seq<Snippet>, s: Snippet)
    ensures BlockCount(kids + [s]) == BlockCount(kids) + (if s.Block? then 1 + BlockCount(s.kids) else 0)
  {
    assert (kids + [s])[..|kids|] == kids;
  }

  lemma {:induction false} KidHomes(kids: seq<Snippet>, s: Snippet, own: nat, next: nat)
    ensures BlockCount(kids + [s]) == BlockCount(kids) + (if s.Block? then 1 + BlockCount(s.kids) else 0)
    ensures var number := next + BlockCount(kids);
            TreeHomes(kids + [s], own, next) == TreeHomes(kids, own, next)
            + (if s.Include? then [Home(s, own)] else if s.Block? then TreeHomes(s.kids, number, number + 1) else [])
  {
    hide BlockCount, TreeHomes;
    KidCount(kids, s);
    var all := kids + [s];
    assert all[..|all| - 1] == kids && all[|all| - 1] == s;
    LastHomes(all, own, next);
  }

  lemma {:induction false} LastHomes(kids: seq<Snippet>, own: nat, next: nat)
    requires kids != []
    ensures var n, s := |kids| - 1, kids[|kids| - 1];
            var number := next + BlockCount(kids[..n]);
            TreeHomes(kids, own, next) == TreeHomes(kids[..n], own, next)
            + (if s.Include? then [Home(s, own)] else if s.Block? then TreeHomes(s.kids, number, number + 1) else [])
  {
    hide BlockCount;
  }

  /** The innermost block gets other kids with as many blocks among them. */
  lemma TopHomes(under: seq<Frame>, top: Frame, kids: seq<Snippet>, more: seq<Home>)
    requires BlockCount(kids) == BlockCount(top.kids)
    requires var number := Number(under + [top]); TreeHomes(kids, number, number + 1) == TreeHomes(top.kids, number, number + 1) + more
    ensures var next := under + [Frame(top.start, kids)];
            && Numbers(next) == Numbers(under + [top]) && StackOpened(next) == StackOpened(under + [top])
            && StackHomes(next) == StackHomes(under + [top]) + more
  {
    hide Number, Numbers, StackHomes, StackOpened, TreeHomes, BlockCount;
    PushHomes(under, top);
    PushHomes(under, Frame(top.start, kids));
  }

  lemma OpenHomes(stack: seq<Frame>, start: string)
    requires stack != []
    ensures var next := stack + [Frame(start, [])];
            && Numbers(next) == Numbers(stack) + [StackOpened(stack) + 1] && StackOpened(next) == StackOpened(stack) + 1
            && StackHomes(next) == StackHomes(stack)
  {
    hide Number, Numbers, StackHomes, StackOpened;
    PushHomes(stack, Frame(start, []));
  }

  lemma CloseHomes(below: seq<Frame>, g: Frame, f: Frame, end: string)
    ensures var stack, next := (below + [g]) + [f], below + [AddKid(g, Block(f.start, f.kids, end))];
            && Numbers(next) == ButLast(Numbers(stack)) && StackOpened(next) == StackOpened(stack)
            && StackHomes(next) == StackHomes(stack)
  {
    hide Numbers, StackHomes, StackOpened, TreeHomes, BlockCount, Number;
    var s := Block(f.start, f.kids, end);
    PushHomes(below + [g], f);
    PushHomes(below, g);
    PushHomes(below, AddKid(g, s));
    var number := Number(below + [g]);
    KidHomes(g.kids, s, number, number + 1);
  }

  // ----- one line read

  /** What reading a line does to the open blocks, in terms of the lines read and of the blocks includes stand in. */
  ghost predicate Reads(stack: seq<Frame>, line: Line, linenum: nat, next: seq<Frame>) {
    && Numbers(next) == OpenAfter(Numbers(stack), StackOpened(stack), line)
    && StackOpened(next) == StackOpened(stack) + (if line.IfLine? || line.ElseLine? then 1 else 0)
    && StackHomes(next) == StackHomes(stack) + HomeOf(Numbers(stack), line, linenum)
    && (Worded(line) && StackPaired(stack) ==> StackPaired(next) && StackLines(next) == StackLines(stack) + [Bare(line)])
  }

  lemma ReadsInclude(under: seq<Frame>, top: Frame, line: Line, linenum: nat)
    requires line.IncludeLine?
    ensures var s := Include(line.prefix, line.inclname, line.suffix, linenum, line.isSystem);
            Reads(under + [top], line, linenum, under + [AddKid(top, s)])
  {
    hide StackLines, StackPaired, Numbers, StackHomes, StackOpened, Number, TreeHomes, BlockCount, Unread, Paired, Dangling;
    var s := Include(line.prefix, line.inclname, line.suffix, linenum, line.isSystem);
    var number := Number(under + [top]);
    KidHomes(top.kids, s, number, number + 1);
    PushHomes(under, top);
    TopHomes(under, top, top.kids + [s], [Home(s, number)]);
    if StackPaired(under + [top]) {
      TopIsPaired(under, top);
      KidLines(top.kids, s);
      NotDangling(top.kids, s);
      TopLines(under, top, top.kids + [s], [Bare(line)]);
    }
  }

  /** kids gains one line of code at its end. */
  lemma ReadsOrdinary(under: seq<Frame>, top: Frame, kids: seq<Snippet>, line: Line, linenum: nat)
    requires line.OrdinaryLine? && !Dangling(kids) && BlockCount(kids) == BlockCount(top.kids)
    requires forall own, next :: TreeHomes(kids, own, next) == TreeHomes(top.kids, own, next)
    requires Unread(kids) == Unread(top.kids) + [line] && (Paired(top.kids) && !Dangling(top.kids) ==> Paired(kids))
    ensures Reads(under + [top], line, linenum, under + [Frame(top.start, kids)])
  {
    hide StackLines, StackPaired, Numbers, StackHomes, StackOpened, Number, TreeHomes, BlockCount, Unread, Paired, Dangling;
    var number := Number(under + [top]);
    assert TreeHomes(kids, number, number + 1) == TreeHomes(top.kids, number, number + 1) + [];
    TopHomes(under, top, kids, []);
    if StackPaired(under + [top]) {
      TopIsPaired(under, top);
      TopLines(under, top, kids, [line]);
    }
  }

  lemma TopIsPaired(under: seq<Frame>, top: Frame)
    requires StackPaired(under + [top])
    ensures Paired(top.kids) && !Dangling(top.kids)
  {
    hide Paired;
    assert (under + [top])[|under|] == top;
  }

  lemma NotDangling(kids: seq<Snippet>, s: Snippet)
    requires !s.Block?
    ensures !Dangling(kids + [s])
  {
  }

  lemma ReadsIf(stack: seq<Frame>, line: Line, linenum: nat)
    requires line.IfLine? && stack != []
    ensures Reads(stack, line, linenum, stack + [Frame(line.text, [])])
  {
    hide StackLines, Numbers, StackHomes, StackOpened, Unread, Paired, Dangling;
    OpenHomes(stack, line.text);
    if StackPaired(stack) {
      OpenLines(stack, line.text);
    }
  }

  lemma ReadsEndif(below: seq<Frame>, g: Frame, f: Frame, line: Line, linenum: nat)
    requires line.EndifLine?
    ensures Reads((below + [g]) + [f], line, linenum, CloseTop((below + [g]) + [f], line.text))
  {
    hide StackLines, StackPaired, Numbers, StackHomes, StackOpened, Unread, Paired, Dangling;
    CloseHomes(below, g, f, line.text);
    CloseTopIs(below, g, f, line.text);
    if StackPaired((below + [g]) + [f]) {
      CloseLines(below, g, f, line.text);
    }
  }

  lemma CloseTopIs(below: seq<Frame>, g: Frame, f: Frame, end: string)
    ensures CloseTop((below + [g]) + [f], end) == below + [AddKid(g, Block(f.start, f.kids, end))]
  {
  }

  lemma ReadsElse(below: seq<Frame>, g: Frame, f: Frame, line: Line, linenum: nat)
    requires line.ElseLine?
    ensures Reads((below + [g]) + [f], line, linenum, CloseTop((below + [g]) + [f], "") + [Frame(line.text, [])])
  {
    hide StackLines, StackPaired, Numbers, StackHomes, StackOpened, Unread, Paired, Dangling;
    CloseHomes(below, g, f, "");
    CloseTopIs(below, g, f, "");
    var closed := CloseTop((below + [g]) + [f], "");
    OpenHomes(closed, line.text);
    if StackPaired((below + [g]) + [f]) {
      CloseLines(below, g, f, "");
      OpenLines(closed, line.text);
    }
  }

  /** A tree read line by line from a file. */
  ghost predicate ReadFrom(lines: seq<Line>, stack: seq<Frame>) {
    && Numbers(stack) == OpenBlocks(lines) && StackOpened(stack) == Opened(lines) && StackHomes(stack) == Homes(lines)
    && (AllWorded(lines) ==> StackPaired(stack) && StackLines(stack) == BareLines(lines))
  }

  lemma ReadNext(lines: seq<Line>, i: nat, stack: seq<Frame>, next: seq<Frame>)
    requires i < |lines| && ReadFrom(lines[..i], stack) && Reads(stack, lines[i], i + 1, next)
    ensures ReadFrom(lines[..i + 1], next)
  {
    hide StackLines, StackPaired, Numbers, StackHomes, StackOpened, OpenAfter, HomeOf, Bare, Worded;
    var more := lines[..i + 1];
    assert more[..i] == lines[..i];
    assert AllWorded(more) ==> AllWorded(lines[..i]) && Worded(more[i]);
  }

  lemma ReadNothing()
    ensures ReadFrom([], [Frame("", [])])
  {
  }

  /** What the only block left at the end was read from. */
  lemma ReadAll(lines: seq<Line>, start: string, kids: seq<Snippet>)
    requires ReadFrom(lines, [Frame(start, kids)])
    ensures TreeHomes(kids, 0, 1) == Homes(lines)
    ensures AllWorded(lines) ==>
              && Unread(kids) == BareLines(lines) && Paired(kids) && !Dangling(kids)
              && Starts(kids) == Openers(lines) && CodeLines(kids) == Ordinaries(lines) && Ends(kids) == Closers(lines)
  {
    hide Unread, Paired, Openers, Ordinaries, Closers, TreeHomes, BareLines, Homes;
    assert [] + [Frame(start, kids)] == [Frame(start, kids)];
    PushHomes([], Frame(start, kids));
    PushLines([], Frame(start, kids));
    NoFrames();
    TreeTexts(kids);
    BareTexts(lines);
    if AllWorded(lines) {
      TopIsPaired([], Frame(start, kids));
    }
  }

  lemma NoFrames()
    ensures StackHomes([]) == [] && StackLines([]) == []
  {
  }

  // ----- sharing a block

  /** From line i to line j the block open at i is neither closed nor continued, and no other is open at j. */
  predicate Together(lines: seq<Line>, i: nat, j: nat)
    requires i <= j <= |lines|
  {
    && Level(lines[..j]) == Level(lines[..i])
    && Unbroken(lines, i, j)
  }

  predicate Unbroken(lines: seq<Line>, i: nat, j: nat)
    requires i <= j <= |lines|
  {
    forall k :: i <= k < j ==> !BreaksAt(lines, i, k)
  }

  /** Line k is the #endif, #else or #elif of the block open at i. */
  predicate BreaksAt(lines: seq<Line>, i: nat, k: nat)
    requires i <= k < |lines|
  {
    (lines[k].EndifLine? || lines[k].ElseLine?) && Level(lines[..k]) <= Level(lines[..i])
  }

  /** Blocks opened and not closed. */
  function Level(lines: seq<Line>): int {
    if lines == [] then 0
    else
      var last := lines[|lines| - 1];
      Level(lines[..|lines| - 1]) + (if last.IfLine? then 1 else if last.EndifLine? then -1 else 0)
  }

  /** Line k closes or continues a block only if one is open. */
  predicate NestedAt(lines: seq<Line>, k: nat)
    requires k < |lines|
  {
    lines[k].EndifLine? || lines[k].ElseLine? ==> Level(lines[..k]) >= 1
  }

  predicate NestedUpTo(lines: seq<Line>, n: nat)
    requires n <= |lines|
  {
    forall k :: 0 <= k < n ==> NestedAt(lines, k)
  }

  /** Block numbers grow along the open blocks, and no number is used before its block starts. */
  lemma {:induction false} OpenGrows(lines: seq<Line>, n: nat)
    requires n <= |lines| && NestedUpTo(lines, n)
    ensures var open := OpenBlocks(lines[..n]);
            && |open| == Level(lines[..n]) + 1 && open != [] && open[|open| - 1] <= Opened(lines[..n])
            && (forall i, j :: 0 <= i < j < |open| ==> open[i] < open[j])
  {
    if n > 0 {
      OpenGrows(lines, n - 1);
      assert NestedAt(lines, n - 1);
      assert lines[..n][..n - 1] == lines[..n - 1];
    }
  }

  /** While the block open at i goes on, it stays where it was among the open blocks; after that its number never comes back. */
  lemma {:induction false} StaysOpen(lines: seq<Line>, i: nat, j: nat)
    requires i <= j <= |lines| && NestedUpTo(lines, j)
    ensures var before, open := OpenBlocks(lines[..i]), OpenBlocks(lines[..j]);
            && Opened(lines[..i]) <= Opened(lines[..j])
            && (Unbroken(lines, i, j) ==> before <= open)
            && (!Unbroken(lines, i, j) ==> Innermost(before) !in open)
    decreases j
  {
    hide Unbroken, OpenAfter, Innermost, OpenBlocks, Opened, Level, BreaksAt;
    assert NestedUpTo(lines, i);
    OpenGrows(lines, i);
    LastIsInnermost(OpenBlocks(lines[..i]));
    UnbrokenEmpty(lines, i);
    if i < j {
      StaysOpen(lines, i, j - 1);
      OpenGrows(lines, j - 1);
      OpenStep(lines, j - 1);
      BreaksMeans(lines, i, j - 1);
      UnbrokenStep(lines, i, j);
      KeepStep(OpenBlocks(lines[..i]), OpenBlocks(lines[..j - 1]), Opened(lines[..j - 1]), lines[j - 1]);
    }
  }

  lemma OpenStep(lines: seq<Line>, j: nat)
    requires j < |lines|
    ensures OpenBlocks(lines[..j + 1]) == OpenAfter(OpenBlocks(lines[..j]), Opened(lines[..j]), lines[j])
    ensures Opened(lines[..j]) <= Opened(lines[..j + 1])
  {
    hide OpenAfter;
    assert lines[..j + 1][..j] == lines[..j];
  }

  lemma BreaksMeans(lines: seq<Line>, i: nat, k: nat)
    requires i <= k < |lines|
    ensures BreaksAt(lines, i, k) <==> (lines[k].EndifLine? || lines[k].ElseLine?) && Level(lines[..k]) <= Level(lines[..i])
  {
  }

  lemma KeepStep(before: seq<nat>, open: seq<nat>, count: nat, line: Line)
    requires before != [] && open != [] && Innermost(before) <= count
    requires forall a, b :: 0 <= a < b < |open| ==> open[a] < open[b]
    ensures before <= open && !((line.EndifLine? || line.ElseLine?) && |open| <= |before|) ==> before <= OpenAfter(open, count, line)
    ensures before <= open && (line.EndifLine? || line.ElseLine?) && |open| <= |before| ==>
              Innermost(before) !in OpenAfter(open, count, line)
    ensures Innermost(before) !in open ==> Innermost(before) !in OpenAfter(open, count, line)
  {
  }

  lemma UnbrokenEmpty(lines: seq<Line>, i: nat)
    requires i <= |lines|
    ensures Unbroken(lines, i, i)
  {
  }

  lemma LastIsInnermost(open: seq<nat>)
    ensures open != [] ==> Innermost(open) == open[|open| - 1]
  {
  }

  lemma UnbrokenStep(lines: seq<Line>, i: nat, j: nat)
    requires i < j <= |lines|
    ensures Unbroken(lines, i, j) <==> Unbroken(lines, i, j - 1) && !BreaksAt(lines, i, j - 1)
  {
  }

  /** Two lines of a well-nested file stand in one block exactly when that block goes on between them. */
  lemma SameBlockIff(lines: seq<Line>, i: nat, j: nat)
    requires i <= j <= |lines| && NestedUpTo(lines, j)
    ensures Innermost(OpenBlocks(lines[..i])) == Innermost(OpenBlocks(lines[..j])) <==> Together(lines, i, j)
  {
    hide Unbroken, OpenBlocks, Level, Opened;
    assert NestedUpTo(lines, i);
    OpenGrows(lines, i);
    OpenGrows(lines, j);
    StaysOpen(lines, i, j);
    var before, open := OpenBlocks(lines[..i]), OpenBlocks(lines[..j]);
    if Unbroken(lines, i, j) {
      assert open[|before| - 1] == before[|before| - 1];
    }
  }

  /** Direct kids carry the number of their own block, all others the number of a block further in. */
  lemma {:induction false} OwnIsDirect(kids: seq<Snippet>, own: nat, next: nat, h: Home)
    requires h in TreeHomes(kids, own, next) && own < next
    ensures h.block == own || next <= h.block < next + BlockCount(kids)
    ensures h.block == own ==> h.s in kids
    decreases kids
  {
    var n, s := |kids| - 1, kids[|kids| - 1];
    if h in TreeHomes(kids[..n], own, next) {
      OwnIsDirect(kids[..n], own, next, h);
    } else if s.Block? {
      OwnIsDirect(s.kids, next + BlockCount(kids[..n]), next + BlockCount(kids[..n]) + 1, h);
    }
  }

  /** Each include line has one home, that of its line. */
  lemma {:induction false} HomeAt(lines: seq<Line>, h: Home)
    requires h in Homes(lines)
    ensures h.s.Include? && 1 <= h.s.linenum <= |lines|
    ensures h.block == Innermost(OpenBlocks(lines[..h.s.linenum - 1]))
  {
    hide OpenBlocks, Innermost;
    var n := |lines| - 1;
    if h in Homes(lines[..n]) {
      HomeAt(lines[..n], h);
      assert lines[..n][..h.s.linenum - 1] == lines[..h.s.linenum - 1];
    }
  }

  /** Two includes share a block of the tree exactly when no #endif, #else or #elif of that block and no unclosed #if separates them. */
  lemma IncludesShareBlock(lines: seq<Line>, kids: seq<Snippet>, g: Home, h: Home)
    requires TreeHomes(kids, 0, 1) == Homes(lines) && NestedUpTo(lines, |lines|)
    requires g in TreeHomes(kids, 0, 1) && h in TreeHomes(kids, 0, 1) && g.s.Include? && h.s.Include? && g.s.linenum <= h.s.linenum
    ensures 1 <= g.s.linenum && h.s.linenum <= |lines|
    ensures g.block == h.block <==> Together(lines, g.s.linenum - 1, h.s.linenum - 1)
  {
    hide TreeHomes, Homes, Together, OpenBlocks;
    HomeAt(lines, g);
    HomeAt(lines, h);
    SameBlockIff(lines, g.s.linenum - 1, h.s.linenum - 1);
  }
}
