/**
 * The repair mode of config/check_spidermonkey_style.py: includes are sorted
 * within batches that no #if boundary and no other code interrupts.
 */
module StyleSort {
  import opened Wrappers
  import opened StyleLines
  import opened StyleTrees

  /** The file being repaired, and the names that count as its own header. */
  datatype Context = Context(enclosing: string, moduleHeaders: set<string>)

  const ODDLY_ORDERED: set<string> := {
    "ctypes/typedefs.h", "frontend/ReservedWordsGenerated.h", "gc/StatsPhasesGenerated.h",
    "gc/StatsPhasesGenerated.inc", "psapi.h", "machine/endian.h", "process.h", "winbase.h", "windef.h", "windows.h"
  }

  // ----- text

  predicate EndsWith(s: string, t: string) {
    |t| <= |s| && s[|s| - |t|..] == t
  }

  predicate Contains(s: string, t: string) {
    t <= s || (s != [] && Contains(s[1..], t))
  }

  function LowerChar(c: char): char {
    if 'A' <= c <= 'Z' then c + ' ' else c
  }

  function Lower(s: string): string {
    if s == "" then "" else [LowerChar(s[0])] + Lower(s[1..])
  }

  predicate LessString(a: string, b: string) {
    b != "" && (a == "" || a[0] < b[0] || (a[0] == b[0] && LessString(a[1..], b[1..])))
  }

  predicate IsSpace(c: char) {
    var n := c as int;
    9 <= n <= 13 || 28 <= n <= 32 || n == 0x85 || n == 0xa0 || n == 0x1680 || 0x2000 <= n <= 0x200a
    || n == 0x2028 || n == 0x2029 || n == 0x202f || n == 0x205f || n == 0x3000
  }

  predicate IsBlank(text: string) {
    text != "" && forall i :: 0 <= i < |text| ==> IsSpace(text[i])
  }

  // ----- keys

  function Section(c: Context, s: Snippet): nat
    requires s.Include?
  {
    if s.isSystem then 2
    else if !EndsWith(s.inclname, ".h") then 7
    else if s.inclname in c.moduleHeaders then 0
    else if '/' in s.inclname then
      if "mozilla/" <= s.inclname then 1 else if EndsWith(s.inclname, "-inl.h") then 6 else 4
    else if EndsWith(s.inclname, "inlines.h") then 5
    else 3
  }

  /** The order of sort keys: the section first, then the lower-case name. */
  predicate Before(c: Context, a: Snippet, b: Snippet)
    requires a.Include? && b.Include?
  {
    Section(c, a) < Section(c, b) || (Section(c, a) == Section(c, b) && LessString(Lower(a.inclname), Lower(b.inclname)))
  }

  predicate SameKey(c: Context, a: Snippet, b: Snippet)
    requires a.Include? && b.Include?
  {
    Section(c, a) == Section(c, b) && Lower(a.inclname) == Lower(b.inclname)
  }

  type Includes = s: seq<Snippet> | forall i :: 0 <= i < |s| ==> s[i].Include? witness []

  predicate InOrder(c: Context, s: Includes) {
    forall i :: 0 <= i < |s| - 1 ==> !Before(c, s[i + 1], s[i])
  }

  predicate DistinctKeys(c: Context, s: Includes) {
    forall i, j :: 0 <= i < j < |s| ==> !SameKey(c, s[i], s[j])
  }

  /** A stable sort: equal keys stay in their order. */
  function Insert(c: Context, x: Snippet, s: Includes): Includes
    requires x.Include?
  {
    if s == [] || !Before(c, s[0], x) then [x] + s else [s[0]] + Insert(c, x, s[1..])
  }

  function SortByKey(c: Context, s: Includes): Includes {
    if s == [] then [] else Insert(c, s[0], SortByKey(c, s[1..]))
  }

  // ----- one batch

  /** What may stay in a batch: includes and blank code. */
  predicate Batchable(s: Snippet) {
    s.Include? || (s.Code? && IsBlank(Concat(s.lines)))
  }

  predicate Batch(batch: seq<Snippet>) {
    forall i :: 0 <= i < |batch| ==> Batchable(batch[i])
  }

  function IncludesOf(batch: seq<Snippet>): Includes {
    if batch == [] then []
    else
      var n := |batch| - 1;
      IncludesOf(batch[..n]) + (if batch[n].Include? then [batch[n]] else [])
  }

  /** Everything after the last include. */
  function Trailing(batch: seq<Snippet>): seq<Snippet> {
    if batch == [] || batch[|batch| - 1].Include? then []
    else Trailing(batch[..|batch| - 1]) + [batch[|batch| - 1]]
  }

  predicate Exempt(c: Context, includes: Includes) {
    Contains(c.enclosing, "tests/style/BadIncludes")
    || exists i :: 0 <= i < |includes| && includes[i].inclname in ODDLY_ORDERED
  }

  predicate ShouldTryToSort(c: Context, includes: Includes) {
    !Exempt(c, includes) && includes != SortByKey(c, includes)
  }

  const BLANK_LINE := Code(["\n"])

  /** A blank line wherever the section changes; before is what precedes. */
  function Layout(c: Context, before: Option<nat>, includes: Includes): seq<Snippet>
    decreases |includes|
  {
    if includes == [] then []
    else
      var section := Section(c, includes[0]);
      (if before.Some? && before.value != section then [BLANK_LINE] else [])
      + [includes[0]] + Layout(c, Some(section), includes[1..])
  }

  /** None where sorting pairs of equal keys would compare the includes themselves, which have no order. */
  function PrettySortedIncludes(c: Context, includes: Includes): Option<seq<Snippet>> {
    if InOrder(c, includes) then Some(includes)
    else if !DistinctKeys(c, includes) then None
    else Some(Layout(c, None, SortByKey(c, includes)))
  }

  function Flush(c: Context, batch: seq<Snippet>): Option<seq<Snippet>> {
    var includes := IncludesOf(batch);
    if !ShouldTryToSort(c, includes) then Some(batch)
    else
      var pretty := PrettySortedIncludes(c, includes);
      if pretty.None? then None else Some(pretty.value + Trailing(batch))
  }

  // ----- a block

  function SortedKids(c: Context, kids: seq<Snippet>, batch: seq<Snippet>): Option<seq<Snippet>>
    decreases kids, 0
  {
    if kids == [] then Flush(c, batch)
    else if Batchable(kids[0]) then SortedKids(c, kids[1..], batch + [kids[0]])
    else
      var flushed, rest := Flush(c, batch), SortedKids(c, kids[1..], []);
      var kid := if kids[0].Block? then Sorted(c, kids[0]) else Some(kids[0]);
      if flushed.None? || kid.None? || rest.None? then None
      else Some(flushed.value + ([kid.value] + rest.value))
  }

  function Sorted(c: Context, s: Snippet): (r: Option<Snippet>)
    requires s.Block?
    ensures r.Some? ==> r.value.Block? && r.value.start == s.start && r.value.end == s.end
    decreases s
  {
    var kids := SortedKids(c, s.kids, []);
    if kids.None? then None else Some(Block(s.start, kids.value, s.end))
  }

  method FlushBatch(c: Context, batch: seq<Snippet>) returns (output: Option<seq<Snippet>>)
    ensures output == Flush(c, batch)
  {
    var includes: Includes := [];
    var cutoff, i := 0, 0;
    while i < |batch|
      invariant 0 <= cutoff <= i <= |batch|
      invariant includes == IncludesOf(batch[..i]) && Trailing(batch[..i]) == batch[cutoff..i]
    {
      assert batch[..i + 1][..i] == batch[..i];
      if batch[i].Include? {
        includes := includes + [batch[i]];
        cutoff := i + 1;
      }
      i := i + 1;
    }
    assert batch[..|batch|] == batch;
    if !ShouldTryToSort(c, includes) {
      return Some(batch);
    }
    var pretty := PrettySortedIncludes(c, includes);
    output := if pretty.None? then None else Some(pretty.value + batch[cutoff..]);
  }

  method SortBlock(c: Context, block: Snippet) returns (r: Option<Snippet>)
    requires block.Block?
    ensures r == Sorted(c, block)
    decreases block
  {
    var kids := block.kids;
    var output, batch, i := [], [], 0;
    assert kids[0..] == kids;
    JoinNothing(SortedKids(c, kids, []));
    while i < |kids|
      invariant 0 <= i <= |kids|
      invariant var rest := SortedKids(c, kids[i..], batch);
                SortedKids(c, kids, []) == if rest.None? then None else Some(output + rest.value)
    {
      var kid := kids[i];
      assert kids[i..][0] == kid && kids[i..][1..] == kids[i + 1..];
      if Batchable(kid) {
        batch := batch + [kid];
      } else {
        var flushed := FlushBatch(c, batch);
        if flushed.None? {
          return None;
        }
        var sortedKid := Some(kid);
        if kid.Block? {
          sortedKid := SortBlock(c, kid);
          if sortedKid.None? {
            return None;
          }
        }
        JoinOutput(c, output, flushed.value, sortedKid.value, kids[i + 1..]);
        output, batch := output + flushed.value + [sortedKid.value], [];
      }
      i := i + 1;
    }
    var flushed := FlushBatch(c, batch);
    if flushed.None? {
      return None;
    }
    r := Some(Block(block.start, output + flushed.value, block.end));
  }

  lemma JoinNothing<T>(kids: Option<seq<T>>)
    ensures kids == if kids.None? then None else Some([] + kids.value)
  {
    if kids.Some? {
      assert [] + kids.value == kids.value;
    }
  }

  lemma JoinOutput(c: Context, output: seq<Snippet>, flushed: seq<Snippet>, kid: Snippet, kids: seq<Snippet>)
    ensures var rest := SortedKids(c, kids, []);
            rest.Some? ==> output + (flushed + ([kid] + rest.value)) == (output + flushed + [kid]) + rest.value
  {
  }

  // ----- what the names and keys mean

  /** Among ASCII characters the blank ones are tab to carriage return, the four separators and the space. */
  lemma AsciiSpaces(c: char)
    requires c as int < 128
    ensures IsSpace(c) <==> c as int in {9, 10, 11, 12, 13, 28, 29, 30, 31, 32}
  {
  }

  /** Lexicographic order by character codes: at the first difference, a prefix coming first. */
  lemma {:induction false} LessIff(a: string, b: string)
    ensures LessString(a, b) <==>
            exists k: nat :: k <= |a| && k < |b| && a[..k] == b[..k] && (k == |a| || a[k] < b[k])
  {
    if a != "" && b != "" && a[0] == b[0] {
      LessIff(a[1..], b[1..]);
      if LessString(a, b) {
        var k: nat :| k <= |a[1..]| && k < |b[1..]| && a[1..][..k] == b[1..][..k] && (k == |a[1..]| || a[1..][k] < b[1..][k]);
        assert a[..k + 1] == [a[0]] + a[1..][..k] && b[..k + 1] == [b[0]] + b[1..][..k];
        assert k + 1 <= |a| && k + 1 < |b| && a[..k + 1] == b[..k + 1] && (k + 1 == |a| || a[k + 1] < b[k + 1]);
      }
      if k: nat :| k <= |a| && k < |b| && a[..k] == b[..k] && (k == |a| || a[k] < b[k]) {
        assert k > 0;
        assert a[1..][..k - 1] == a[..k][1..] && b[1..][..k - 1] == b[..k][1..];
        assert k - 1 <= |a[1..]| && k - 1 < |b[1..]| && (k - 1 == |a[1..]| || a[1..][k - 1] < b[1..][k - 1]);
      }
    } else if LessString(a, b) {
      assert a[..0] == b[..0];
    }
  }

  lemma {:induction false} LowerIs(s: string)
    ensures |Lower(s)| == |s|
    ensures forall i :: 0 <= i < |s| ==>
              Lower(s)[i] == if 65 <= s[i] as int <= 90 then (s[i] as int + 32) as char else s[i]
  {
    if s != "" {
      LowerIs(s[1..]);
    }
  }

  predicate OccursAt(s: string, t: string, k: nat) {
    k + |t| <= |s| && s[k..k + |t|] == t
  }

  lemma {:induction false} ContainsIff(s: string, t: string)
    ensures Contains(s, t) <==> exists k: nat :: OccursAt(s, t, k)
  {
    if t <= s {
      assert OccursAt(s, t, 0);
    } else if s != [] {
      ContainsIff(s[1..], t);
      if k: nat :| OccursAt(s[1..], t, k) {
        assert s[1..][k..k + |t|] == s[k + 1..k + 1 + |t|];
        assert OccursAt(s, t, k + 1);
      }
      if k: nat :| OccursAt(s, t, k) {
        assert k > 0 && s[1..][k - 1..k - 1 + |t|] == s[k..k + |t|];
        assert OccursAt(s[1..], t, k - 1);
      }
    }
  }

  // the eight sections, by the form of the name

  function Named(name: string, isSystem: bool): Snippet {
    Include("", name, "", 0, isSystem)
  }

  /** Only the name, and whether it stands in angle brackets, decides; system headers come third. */
  lemma SectionOfName(c: Context, s: Snippet)
    requires s.Include?
    ensures Section(c, s) == Section(c, Named(s.inclname, s.isSystem)) && Section(c, Named(s.inclname, true)) == 2
    ensures |s.inclname| < 2 || s.inclname[|s.inclname| - 2..] != ".h" ==> Section(c, Named(s.inclname, false)) == 7
  {
    hide Contains;
  }

  lemma EndsAppend(stem: string, a: string, b: string)
    ensures EndsWith(stem + b, b) && (EndsWith(stem + b, a + b) <==> EndsWith(stem, a))
  {
    assert (stem + b)[|stem|..] == b;
    if |a| <= |stem| {
      var cut := |stem| - |a|;
      assert (stem + b)[cut..] == stem[cut..] + b;
      if stem[cut..] + b == a + b {
        assert stem[cut..] == (stem[cut..] + b)[..|a|] == (a + b)[..|a|] == a;
      }
    }
  }

  /** The file's own header comes first, then headers of mozilla/. */
  lemma SectionOfModule(c: Context, stem: string)
    ensures stem + ".h" in c.moduleHeaders ==> Section(c, Named(stem + ".h", false)) == 0
    ensures "mozilla/" + stem + ".h" !in c.moduleHeaders ==> Section(c, Named("mozilla/" + stem + ".h", false)) == 1
  {
    EndsAppend(stem, "", ".h");
    EndsAppend("mozilla/" + stem, "", ".h");
    var name := "mozilla/" + stem + ".h";
    assert name[7] == '/' && name[..8] == "mozilla/";
  }

  lemma SectionOfHeader(c: Context, name: string)
    requires EndsWith(name, ".h") && name !in c.moduleHeaders
    ensures Section(c, Named(name, false)) ==
            if '/' in name then (if "mozilla/" <= name then 1 else if EndsWith(name, "-inl.h") then 6 else 4)
            else if EndsWith(name, "inlines.h") then 5 else 3
  {
    hide EndsWith;
  }

  /** Headers without a directory, inline ones after the others. */
  lemma SectionOfPlainName(c: Context, stem: string)
    requires '/' !in stem
    ensures stem + ".h" !in c.moduleHeaders && !EndsWith(stem, "inlines") ==> Section(c, Named(stem + ".h", false)) == 3
    ensures stem + "inlines.h" !in c.moduleHeaders ==> Section(c, Named(stem + "inlines.h", false)) == 5
  {
    hide EndsWith, Section;
    EndsAppend(stem, "inlines", ".h");
    EndsAppend(stem, "", "inlines.h");
    HeaderSuffix(stem);
    NoSlash(stem, ".h");
    NoSlash(stem, "inlines.h");
    if stem + ".h" !in c.moduleHeaders {
      SectionOfHeader(c, stem + ".h");
    }
    if stem + "inlines.h" !in c.moduleHeaders {
      SectionOfHeader(c, stem + "inlines.h");
    }
  }

  lemma HeaderSuffix(stem: string)
    ensures EndsWith(stem + ".h", ".h") && EndsWith(stem + "inlines.h", ".h") && EndsWith(stem + "-inl.h", ".h")
    ensures "inlines" + ".h" == "inlines.h" && "-inl" + ".h" == "-inl.h"
  {
    EndsAppend(stem, "", ".h");
    EndsAppend(stem + "inlines", "", ".h");
    EndsAppend(stem + "-inl", "", ".h");
    assert (stem + "inlines") + ".h" == stem + "inlines.h" && (stem + "-inl") + ".h" == stem + "-inl.h";
  }

  lemma NoSlash(stem: string, suffix: string)
    requires '/' !in stem && '/' !in suffix
    ensures '/' !in stem + suffix
  {
  }

  /** Headers with a directory other than mozilla/, inline ones after the others. */
  lemma SectionOfPath(c: Context, stem: string)
    requires '/' in stem && !("mozilla/" <= stem)
    ensures stem + ".h" !in c.moduleHeaders && !EndsWith(stem, "-inl") ==> Section(c, Named(stem + ".h", false)) == 4
    ensures stem + "-inl.h" !in c.moduleHeaders ==> Section(c, Named(stem + "-inl.h", false)) == 6
  {
    hide EndsWith, Section;
    EndsAppend(stem, "-inl", ".h");
    EndsAppend(stem, "", "-inl.h");
    HeaderSuffix(stem);
    NotMozilla(stem, ".h");
    NotMozilla(stem, "-inl.h");
    if stem + ".h" !in c.moduleHeaders {
      SectionOfHeader(c, stem + ".h");
    }
    if stem + "-inl.h" !in c.moduleHeaders {
      SectionOfHeader(c, stem + "-inl.h");
    }
  }

  lemma NotMozilla(stem: string, suffix: string)
    requires '/' in stem && !("mozilla/" <= stem)
    ensures !("mozilla/" <= stem + suffix) && '/' in stem + suffix
  {
    var k :| 0 <= k < |stem| && stem[k] == '/';
    assert (stem + suffix)[k] == '/';
  }

  // ----- sorting

  lemma {:induction false} LessAsymmetric(a: string, b: string)
    requires LessString(a, b)
    ensures !LessString(b, a)
  {
    if a != "" && a[0] == b[0] {
      LessAsymmetric(a[1..], b[1..]);
    }
  }

  lemma {:induction false} LessTotal(a: string, b: string)
    ensures LessString(a, b) || LessString(b, a) || a == b
  {
    if a != "" && b != "" && a[0] == b[0] {
      LessTotal(a[1..], b[1..]);
      assert a == [a[0]] + a[1..] && b == [b[0]] + b[1..];
    }
  }

  /** Keys that are not the same are ordered one way exactly. */
  lemma KeysAreTotal(c: Context, a: Snippet, b: Snippet)
    requires a.Include? && b.Include?
    ensures !(Before(c, a, b) && Before(c, b, a))
    ensures !Before(c, a, b) && !Before(c, b, a) <==> SameKey(c, a, b)
  {
    hide Section;
    var x, y := Lower(a.inclname), Lower(b.inclname);
    LessTotal(x, y);
    if LessString(x, y) {
      LessAsymmetric(x, y);
    }
    if LessString(y, x) {
      LessAsymmetric(y, x);
    }
  }

  lemma PrependOrdered(c: Context, x: Snippet, s: Includes)
    requires x.Include? && InOrder(c, s) && (s == [] || !Before(c, s[0], x))
    ensures InOrder(c, [x] + s)
  {
    hide Before;
    var u := [x] + s;
    forall i | 0 <= i < |u| - 1
      ensures !Before(c, u[i + 1], u[i])
    {
      assert u[i + 1] == s[i] && (i > 0 ==> u[i] == s[i - 1]);
    }
  }

  lemma TailOrdered(c: Context, s: Includes)
    requires s != [] && InOrder(c, s)
    ensures InOrder(c, s[1..])
  {
    hide Before;
    assert forall i :: 0 <= i < |s| - 1 ==> s[1..][i] == s[i + 1];
  }

  lemma {:induction false} InsertSorts(c: Context, x: Snippet, s: Includes)
    requires x.Include? && InOrder(c, s)
    ensures InOrder(c, Insert(c, x, s))
    ensures Insert(c, x, s) != [] && (Insert(c, x, s)[0] == x || (s != [] && Insert(c, x, s)[0] == s[0]))
    ensures multiset(Insert(c, x, s)) == multiset(s) + multiset{x}
  {
    hide Before, InOrder;
    if s == [] || !Before(c, s[0], x) {
      PrependOrdered(c, x, s);
    } else {
      assert s == [s[0]] + s[1..];
      TailOrdered(c, s);
      InsertSorts(c, x, s[1..]);
      KeysAreTotal(c, s[0], x);
      SecondFollows(c, s);
      PrependOrdered(c, s[0], Insert(c, x, s[1..]));
    }
  }

  lemma SecondFollows(c: Context, s: Includes)
    requires |s| > 1 ==> InOrder(c, s)
    ensures |s| > 1 ==> !Before(c, s[1], s[0])
  {
  }

  lemma {:induction false} SortIsSorted(c: Context, s: Includes)
    ensures InOrder(c, SortByKey(c, s)) && multiset(SortByKey(c, s)) == multiset(s)
  {
    if s != [] {
      SortIsSorted(c, s[1..]);
      InsertSorts(c, s[0], SortByKey(c, s[1..]));
      assert s == [s[0]] + s[1..];
    }
  }

  /** Sorting changes a batch exactly when it is out of order. */
  lemma {:induction false} SortKeepsOrdered(c: Context, s: Includes)
    ensures SortByKey(c, s) == s <==> InOrder(c, s)
  {
    if InOrder(c, s) && s != [] {
      assert forall i :: 0 <= i < |s| - 1 ==> s[1..][i] == s[i + 1];
      SortKeepsOrdered(c, s[1..]);
      assert SortByKey(c, s[1..]) == s[1..];
    }
    SortIsSorted(c, s);
  }

  // ----- one batch

  lemma {:induction false} IncludesAppend(a: seq<Snippet>, b: seq<Snippet>)
    ensures IncludesOf(a + b) == IncludesOf(a) + IncludesOf(b)
  {
    if b == [] {
      assert a + b == a;
    } else {
      var n := |b| - 1;
      assert (a + b)[..|a| + n] == a + b[..n];
      IncludesAppend(a, b[..n]);
    }
  }

  lemma {:induction false} TrailingHasNone(batch: seq<Snippet>)
    requires Batch(batch)
    ensures IncludesOf(Trailing(batch)) == [] && Batch(Trailing(batch))
  {
    if batch != [] && !batch[|batch| - 1].Include? {
      var n := |batch| - 1;
      TrailingHasNone(batch[..n]);
      IncludesAppend(Trailing(batch[..n]), [batch[n]]);
      OneInclude(batch[n]);
    }
  }

  lemma OneInclude(s: Snippet)
    ensures IncludesOf([s]) == if s.Include? then [s] else []
  {
    assert [s][..0] == [];
  }

  lemma BlankLineIsBlank()
    ensures Batchable(BLANK_LINE)
  {
    assert ["\n"][..0] == [];
    assert Concat(["\n"]) == "\n";
  }

  lemma {:induction false} LayoutKeeps(c: Context, before: Option<nat>, includes: Includes)
    ensures IncludesOf(Layout(c, before, includes)) == includes && Batch(Layout(c, before, includes))
    decreases |includes|
  {
    hide Section, Batchable, IncludesOf;
    if includes == [] {
      NoIncludes();
    } else {
      var section := Section(c, includes[0]);
      var gap := if before.Some? && before.value != section then [BLANK_LINE] else [];
      var rest := Layout(c, Some(section), includes[1..]);
      LayoutKeeps(c, Some(section), includes[1..]);
      IncludesAppend(gap + [includes[0]], rest);
      IncludesAppend(gap, [includes[0]]);
      OneInclude(includes[0]);
      OneInclude(BLANK_LINE);
      NoIncludes();
      BlankLineIsBlank();
      IncludeIsBatchable(includes[0]);
    }
  }

  lemma NoIncludes()
    ensures IncludesOf([]) == []
  {
  }

  lemma IncludeIsBatchable(s: Snippet)
    requires s.Include?
    ensures Batchable(s)
  {
  }

  lemma {:induction false} IncludesOnly(s: Includes)
    ensures IncludesOf(s) == s && Batch(s)
  {
    if s != [] {
      IncludesOnly(s[..|s| - 1]);
    }
  }

  /** What a batch becomes: the same includes, in order unless left alone, before the same trailing blank code. */
  lemma FlushFacts(c: Context, batch: seq<Snippet>)
    requires Batch(batch) && Flush(c, batch).Some?
    ensures var out := Flush(c, batch).value;
            Batch(out) &&
            IncludesOf(out) == if ShouldTryToSort(c, IncludesOf(batch)) then SortByKey(c, IncludesOf(batch)) else IncludesOf(batch)
    ensures !ShouldTryToSort(c, IncludesOf(batch)) ==> Flush(c, batch).value == batch
  {
    hide IncludesOf, Trailing, Batchable, Layout, SortByKey;
    var includes := IncludesOf(batch);
    if ShouldTryToSort(c, includes) {
      SortKeepsOrdered(c, includes);
      LayoutKeeps(c, None, SortByKey(c, includes));
      TrailingHasNone(batch);
      IncludesAppend(Layout(c, None, SortByKey(c, includes)), Trailing(batch));
    }
  }

  lemma ExemptBySet(c: Context, a: Includes, b: Includes)
    requires multiset(a) == multiset(b) && Exempt(c, a)
    ensures Exempt(c, b)
  {
    if !Contains(c.enclosing, "tests/style/BadIncludes") {
      var i :| 0 <= i < |a| && a[i].inclname in ODDLY_ORDERED;
      assert a[i] in multiset(b);
      var j :| 0 <= j < |b| && b[j] == a[i];
      assert b[j].inclname in ODDLY_ORDERED;
    }
  }

  lemma FlushIsStable(c: Context, batch: seq<Snippet>)
    requires Batch(batch) && Flush(c, batch).Some?
    ensures Flush(c, Flush(c, batch).value) == Flush(c, batch)
  {
    hide IncludesOf, Trailing, Batchable, Layout, PrettySortedIncludes;
    FlushFacts(c, batch);
    var includes := IncludesOf(batch);
    SortIsSorted(c, includes);
    SortKeepsOrdered(c, SortByKey(c, includes));
  }

  /** A batch is refused exactly when it should be sorted and two of its keys are equal. */
  lemma FlushRefuses(c: Context, batch: seq<Snippet>)
    ensures Flush(c, batch).None? <==>
            !Exempt(c, IncludesOf(batch)) && !InOrder(c, IncludesOf(batch)) && !DistinctKeys(c, IncludesOf(batch))
  {
    SortKeepsOrdered(c, IncludesOf(batch));
  }

  /** A blank line stands exactly where the section of the next include differs. */
  predicate LaidOut(c: Context, before: Option<nat>, out: seq<Snippet>)
    decreases |out|
  {
    out == [] ||
    if out[0].Include? then
      (before.Some? ==> before.value == Section(c, out[0])) && LaidOut(c, Some(Section(c, out[0])), out[1..])
    else
      out[0] == BLANK_LINE && |out| >= 2 && out[1].Include? && before.Some? && before.value != Section(c, out[1])
      && LaidOut(c, Some(Section(c, out[1])), out[2..])
  }

  lemma {:induction false} LayoutSeparates(c: Context, before: Option<nat>, includes: Includes)
    ensures LaidOut(c, before, Layout(c, before, includes))
    decreases |includes|
  {
    if includes != [] {
      var section := Section(c, includes[0]);
      var rest := Layout(c, Some(section), includes[1..]);
      LayoutSeparates(c, Some(section), includes[1..]);
      var out := Layout(c, before, includes);
      if out[0].Include? {
        assert out[1..] == rest;
      } else {
        assert out[2..] == rest;
      }
    }
  }

  /** A sorted batch: the includes in order with sections set apart, then the trailing blank code untouched. */
  lemma SortedBatchLayout(c: Context, batch: seq<Snippet>)
    requires Batch(batch) && ShouldTryToSort(c, IncludesOf(batch)) && Flush(c, batch).Some?
    ensures exists pretty :: Flush(c, batch).value == pretty + Trailing(batch) && LaidOut(c, None, pretty)
                             && IncludesOf(pretty) == SortByKey(c, IncludesOf(batch))
  {
    var includes := IncludesOf(batch);
    SortKeepsOrdered(c, includes);
    LayoutSeparates(c, None, SortByKey(c, includes));
    LayoutKeeps(c, None, SortByKey(c, includes));
    assert Flush(c, batch).value == Layout(c, None, SortByKey(c, includes)) + Trailing(batch);
  }

  /** The batches that are left alone whatever their order. */
  lemma ExemptIff(c: Context, includes: Includes)
    ensures Exempt(c, includes) <==>
            || (exists k: nat :: OccursAt(c.enclosing, "tests/style/BadIncludes", k))
            || exists i :: 0 <= i < |includes| && includes[i].inclname in {
                 "ctypes/typedefs.h", "frontend/ReservedWordsGenerated.h", "gc/StatsPhasesGenerated.h",
                 "gc/StatsPhasesGenerated.inc", "psapi.h", "machine/endian.h", "process.h", "winbase.h", "windef.h", "windows.h"}
  {
    hide Contains;
    ContainsIff(c.enclosing, "tests/style/BadIncludes");
  }

  /** A batch comes out as it went in exactly if it is exempt or in order. */
  lemma LeftAloneIff(c: Context, batch: seq<Snippet>)
    requires Batch(batch)
    ensures Flush(c, batch) == Some(batch) <==> Exempt(c, IncludesOf(batch)) || InOrder(c, IncludesOf(batch))
  {
    hide Exempt, IncludesOf, Batchable;
    SortKeepsOrdered(c, IncludesOf(batch));
    if Flush(c, batch).Some? {
      FlushFacts(c, batch);
    }
  }

  /** A batch that is sorted: sections never decrease, and within one the lower-case names never do. */
  lemma {:induction false} OrderedKeys(c: Context, s: Includes, i: nat, j: nat)
    requires InOrder(c, s) && i <= j < |s|
    ensures Section(c, s[i]) <= Section(c, s[j])
    ensures Section(c, s[i]) == Section(c, s[j]) ==> !LessString(Lower(s[j].inclname), Lower(s[i].inclname))
    decreases j - i
  {
    hide Section, Lower, LessString;
    var a, b := Lower(s[i].inclname), Lower(s[j].inclname);
    if i == j {
      LessIrreflexive(a);
    } else {
      assert !Before(c, s[i + 1], s[i]);
      OrderedKeys(c, s, i + 1, j);
      var m := Lower(s[i + 1].inclname);
      if LessString(b, a) {
        LessTotal(a, m);
        LessTotal(m, b);
        if LessString(a, m) {
          LessTransitive(b, a, m);
        }
      }
    }
  }

  lemma {:induction false} LessIrreflexive(a: string)
    ensures !LessString(a, a)
  {
    if a != "" {
      LessIrreflexive(a[1..]);
    }
  }

  lemma {:induction false} LessTransitive(a: string, b: string, d: string)
    requires LessString(a, b) && LessString(b, d)
    ensures LessString(a, d)
  {
    if a != "" && a[0] == b[0] && b[0] == d[0] {
      LessTransitive(a[1..], b[1..], d[1..]);
    }
  }

  /** Where the i-th include stands in a sorted batch: the next one follows at once, or after one blank line if its
      section is another; nothing follows the last. */
  lemma {:induction false} LayoutAt(c: Context, before: Option<nat>, includes: Includes, i: nat) returns (p: nat)
    requires i < |includes|
    ensures var out := Layout(c, before, includes);
            && p < |out| && out[p] == includes[i]
            && (i == 0 ==> p == if before.Some? && before.value != Section(c, includes[0]) then 1 else 0)
            && (if i + 1 == |includes| then p + 1 == |out|
                else if Section(c, includes[i]) == Section(c, includes[i + 1]) then p + 1 < |out| && out[p + 1] == includes[i + 1]
                else p + 2 < |out| && out[p + 1] == Code(["\n"]) && out[p + 2] == includes[i + 1])
    decreases |includes|
  {
    hide Section;
    var section := Section(c, includes[0]);
    var gap: seq<Snippet> := if before.Some? && before.value != section then [BLANK_LINE] else [];
    var rest := Layout(c, Some(section), includes[1..]);
    assert Layout(c, before, includes) == gap + [includes[0]] + rest;
    if i == 0 {
      p := |gap|;
      if |includes| > 1 {
        LayoutStarts(c, section, includes[1..]);
      } else {
        assert rest == [];
      }
    } else {
      var q := LayoutAt(c, Some(section), includes[1..], i - 1);
      p := |gap| + 1 + q;
    }
  }

  lemma LayoutStarts(c: Context, section: nat, includes: Includes)
    requires includes != []
    ensures var out := Layout(c, Some(section), includes);
            if section == Section(c, includes[0]) then out != [] && out[0] == includes[0]
            else |out| > 1 && out[0] == Code(["\n"]) && out[1] == includes[0]
  {
    hide Section;
  }

  // ----- the whole tree

  /** Nothing may cross a wall of other code or a nested block; between walls the includes count, and the blank
      code after the last of them. */
  datatype Piece =
    | Gap(includes: multiset<Snippet>, tail: seq<Snippet>)
    | Wall(lines: seq<string>)
    | Inner(start: string, pieces: seq<Piece>, end: string)

  function Outline(kids: seq<Snippet>, gap: multiset<Snippet>, tail: seq<Snippet>): seq<Piece>
    decreases kids, 0
  {
    if kids == [] then [Gap(gap, tail)]
    else if kids[0].Include? then Outline(kids[1..], gap + multiset{kids[0]}, [])
    else if kids[0].Code? && IsBlank(Concat(kids[0].lines)) then Outline(kids[1..], gap, tail + [kids[0]])
    else [Gap(gap, tail), OutlineOf(kids[0])] + Outline(kids[1..], multiset{}, [])
  }

  function OutlineOf(s: Snippet): Piece
    decreases s, 1
  {
    match s
    case Include(_, _, _, _, _) => Gap(multiset{s}, [])
    case Code(lines) => Wall(lines)
    case Block(start, kids, end) => Inner(start, Outline(kids, multiset{}, []), end)
  }

  /** What stands after the last include, tail being what stood there before these kids. */
  function After(tail: seq<Snippet>, kids: seq<Snippet>): seq<Snippet>
    decreases |kids|
  {
    if kids == [] then tail else After(if kids[0].Include? then [] else tail + [kids[0]], kids[1..])
  }

  lemma {:induction false} AfterAppend(tail: seq<Snippet>, a: seq<Snippet>, b: seq<Snippet>)
    ensures After(tail, a + b) == After(After(tail, a), b)
    decreases |a|
  {
    if a == [] {
      assert a + b == b;
    } else {
      assert (a + b)[1..] == a[1..] + b;
      AfterAppend(if a[0].Include? then [] else tail + [a[0]], a[1..], b);
    }
  }

  lemma AfterOne(tail: seq<Snippet>, s: Snippet)
    ensures After(tail, [s]) == if s.Include? then [] else tail + [s]
  {
    assert [s][1..] == [];
  }

  lemma {:induction false} AfterNoIncludes(tail: seq<Snippet>, a: seq<Snippet>)
    requires forall i :: 0 <= i < |a| ==> !a[i].Include?
    ensures After(tail, a) == tail + a
    decreases |a|
  {
    if a == [] {
      assert tail + a == tail;
    } else {
      AfterNoIncludes(tail + [a[0]], a[1..]);
      assert (tail + [a[0]]) + a[1..] == tail + a;
    }
  }

  lemma {:induction false} TrailingIsAfter(batch: seq<Snippet>)
    ensures Trailing(batch) == After([], batch)
    ensures forall i :: 0 <= i < |Trailing(batch)| ==> !Trailing(batch)[i].Include?
  {
    if batch != [] {
      var n := |batch| - 1;
      assert batch == batch[..n] + [batch[n]];
      TrailingIsAfter(batch[..n]);
      AfterAppend([], batch[..n], [batch[n]]);
      AfterOne(After([], batch[..n]), batch[n]);
    }
  }

  lemma {:induction false} LayoutEndsWithInclude(c: Context, before: Option<nat>, includes: Includes)
    requires includes != []
    ensures var out := Layout(c, before, includes); out != [] && out[|out| - 1].Include?
    decreases |includes|
  {
    hide Section;
    if |includes| > 1 {
      LayoutEndsWithInclude(c, Some(Section(c, includes[0])), includes[1..]);
    } else {
      assert includes[1..] == [];
    }
  }

  /** Flushing a batch leaves what stands after its last include. */
  lemma FlushKeepsTail(c: Context, batch: seq<Snippet>)
    requires Batch(batch) && Flush(c, batch).Some?
    ensures After([], Flush(c, batch).value) == After([], batch)
  {
    hide IncludesOf, Trailing, Batchable, Layout, SortByKey, After;
    var includes := IncludesOf(batch);
    if ShouldTryToSort(c, includes) {
      SortKeepsOrdered(c, includes);
      SortIsSorted(c, includes);
      var sorted := SortByKey(c, includes);
      var out, tail := Layout(c, None, sorted), Trailing(batch);
      LayoutEndsWithInclude(c, None, sorted);
      assert Flush(c, batch).value == out + tail;
      assert out == out[..|out| - 1] + [out[|out| - 1]];
      AfterAppend([], out[..|out| - 1], [out[|out| - 1]]);
      AfterOne(After([], out[..|out| - 1]), out[|out| - 1]);
      AfterAppend([], out, tail);
      TrailingIsAfter(batch);
      AfterNoIncludes([], tail);
      assert [] + tail == tail;
    }
  }

  /** Whatever stands after the last include of a batch is what its flushed form ends in, right after an include. */
  lemma FlushEndsWithTail(c: Context, front: seq<Snippet>, x: Snippet, tail: seq<Snippet>)
    requires x.Include? && Batch(front + [x] + tail) && (forall i :: 0 <= i < |tail| ==> !tail[i].Include?)
    requires Flush(c, front + [x] + tail).Some?
    ensures var out := Flush(c, front + [x] + tail).value;
            && |out| > |tail| && out[|out| - |tail|..] == tail && out[|out| - |tail| - 1].Include?
  {
    hide Flush, After, Batchable, IncludesOf;
    var batch := front + [x] + tail;
    FlushKeepsTail(c, batch);
    AfterLast(front, x, tail);
    FlushKeepsIncludes(c, batch);
    HasInclude(front, x, tail);
    assert x in multiset(IncludesOf(Flush(c, batch).value));
    EndsWithAfter(Flush(c, batch).value, tail);
  }

  lemma HasInclude(front: seq<Snippet>, x: Snippet, tail: seq<Snippet>)
    requires x.Include?
    ensures x in multiset(IncludesOf(front + [x] + tail))
  {
    hide IncludesOf;
    IncludesAppend(front + [x], tail);
    IncludesAppend(front, [x]);
    OneInclude(x);
  }

  /** Kids with an include end in what After says, which follows an include. */
  lemma EndsWithAfter(out: seq<Snippet>, tail: seq<Snippet>)
    requires After([], out) == tail && IncludesOf(out) != []
    ensures |out| > |tail| && out[|out| - |tail|..] == tail && out[|out| - |tail| - 1].Include?
  {
    hide After, IncludesOf;
    var i := LastInclude(out);
    var rest := out[i + 1..];
    assert forall j :: 0 <= j < |rest| ==> rest[j] == out[i + 1 + j];
    AfterLast(out[..i], out[i], rest);
    assert out == out[..i] + [out[i]] + rest;
    assert tail == rest;
  }

  lemma AfterLast(front: seq<Snippet>, x: Snippet, tail: seq<Snippet>)
    requires x.Include? && forall i :: 0 <= i < |tail| ==> !tail[i].Include?
    ensures After([], front + [x] + tail) == tail
  {
    hide After;
    AfterAppend([], front + [x], tail);
    AfterAppend([], front, [x]);
    AfterOne(After([], front), x);
    AfterNoIncludes([], tail);
    assert [] + tail == tail;
  }

  lemma {:induction false} LastInclude(out: seq<Snippet>) returns (i: nat)
    requires IncludesOf(out) != []
    ensures i < |out| && out[i].Include? && forall j :: i < j < |out| ==> !out[j].Include?
  {
    var n := |out| - 1;
    if out[n].Include? {
      i := n;
    } else {
      assert IncludesOf(out) == IncludesOf(out[..n]);
      i := LastInclude(out[..n]);
    }
  }

  lemma BatchableMeans(s: Snippet)
    ensures Batchable(s) <==> s.Include? || (s.Code? && IsBlank(Concat(s.lines)))
  {
  }

  lemma {:induction false} OutlineBatch(a: seq<Snippet>, rest: seq<Snippet>, gap: multiset<Snippet>, tail: seq<Snippet>)
    requires Batch(a)
    ensures Outline(a + rest, gap, tail) == Outline(rest, gap + multiset(IncludesOf(a)), After(tail, a))
    decreases |a|
  {
    hide Batchable, IncludesOf;
    if a == [] {
      NoIncludes();
      assert a + rest == rest && gap + multiset(IncludesOf(a)) == gap;
    } else {
      assert (a + rest)[1..] == a[1..] + rest;
      BatchableMeans(a[0]);
      var gap1 := if a[0].Include? then gap + multiset{a[0]} else gap;
      OutlineBatch(a[1..], rest, gap1, if a[0].Include? then [] else tail + [a[0]]);
      IncludesAppend([a[0]], a[1..]);
      OneInclude(a[0]);
      assert [a[0]] + a[1..] == a;
      assert gap1 + multiset(IncludesOf(a[1..])) == gap + multiset(IncludesOf([a[0]]) + IncludesOf(a[1..]));
    }
  }

  lemma {:induction false} KidsKeepOutline(c: Context, kids: seq<Snippet>, batch: seq<Snippet>)
    requires Batch(batch) && SortedKids(c, kids, batch).Some?
    ensures Outline(SortedKids(c, kids, batch).value, multiset{}, []) == Outline(kids, multiset(IncludesOf(batch)), After([], batch))
    decreases kids
  {
    hide Batchable, IncludesOf, Flush, After;
    var out := SortedKids(c, kids, batch).value;
    if kids == [] {
      FlushKeepsIncludes(c, batch);
      FlushKeepsTail(c, batch);
      OutlineBatch(out, [], multiset{}, []);
      assert out + [] == out;
    } else if Batchable(kids[0]) {
      BatchableMeans(kids[0]);
      KidsKeepOutline(c, kids[1..], batch + [kids[0]]);
      IncludesAppend(batch, [kids[0]]);
      OneInclude(kids[0]);
      AfterAppend([], batch, [kids[0]]);
      AfterOne(After([], batch), kids[0]);
      var gap := multiset(IncludesOf(batch));
      assert multiset(IncludesOf(batch) + IncludesOf([kids[0]])) == if kids[0].Include? then gap + multiset{kids[0]} else gap;
    } else {
      var flushed, rest := Flush(c, batch).value, SortedKids(c, kids[1..], []).value;
      var kid := if kids[0].Block? then Sorted(c, kids[0]).value else kids[0];
      FlushKeepsIncludes(c, batch);
      FlushKeepsTail(c, batch);
      NoIncludes();
      KidsKeepOutline(c, kids[1..], []);
      if kids[0].Block? {
        KidsKeepOutline(c, kids[0].kids, []);
      }
      AfterNothing();
      BatchableMeans(kids[0]);
      OutlineBatch(flushed, [kid] + rest, multiset{}, []);
      OutlineWall(c, kids[0], kid, rest, multiset(IncludesOf(batch)), After([], batch));
    }
  }

  lemma AfterNothing()
    ensures After([], []) == []
  {
  }

  lemma FlushKeepsIncludes(c: Context, batch: seq<Snippet>)
    requires Batch(batch) && Flush(c, batch).Some?
    ensures Batch(Flush(c, batch).value) && multiset(IncludesOf(Flush(c, batch).value)) == multiset(IncludesOf(batch))
    ensures multiset{} + multiset(IncludesOf(batch)) == multiset(IncludesOf(batch))
  {
    hide Flush;
    FlushFacts(c, batch);
    SortIsSorted(c, IncludesOf(batch));
  }

  lemma OutlineWall(c: Context, before: Snippet, kid: Snippet, rest: seq<Snippet>, gap: multiset<Snippet>, tail: seq<Snippet>)
    requires !Batchable(before) && (if before.Block? then Sorted(c, before) == Some(kid) else kid == before)
    requires before.Block? ==> Outline(kid.kids, multiset{}, []) == Outline(before.kids, multiset{}, [])
    ensures !before.Include?
    ensures Outline([kid] + rest, gap, tail) == [Gap(gap, tail), OutlineOf(before)] + Outline(rest, multiset{}, [])
  {
    assert ([kid] + rest)[1..] == rest;
  }

  /** Sorting keeps every include exactly once, in the same gap between the same walls and #if boundaries, and the
      blank code after the last include of each gap. */
  lemma SortingKeepsOutline(c: Context, block: Snippet)
    requires block.Block? && Sorted(c, block).Some?
    ensures OutlineOf(Sorted(c, block).value) == OutlineOf(block)
  {
    NoIncludes();
    AfterNothing();
    KidsKeepOutline(c, block.kids, []);
  }

  // ----- sorting twice

  lemma {:induction false} SortBatchFirst(c: Context, a: seq<Snippet>, rest: seq<Snippet>, batch: seq<Snippet>)
    requires Batch(a)
    ensures SortedKids(c, a + rest, batch) == SortedKids(c, rest, batch + a)
    decreases |a|
  {
    hide Batchable, Flush;
    if a == [] {
      assert a + rest == rest && batch + a == batch;
    } else {
      assert (a + rest)[1..] == a[1..] + rest;
      SortBatchFirst(c, a[1..], rest, batch + [a[0]]);
      assert (batch + [a[0]]) + a[1..] == batch + a;
    }
  }

  lemma {:induction false} KidsSortedTwice(c: Context, kids: seq<Snippet>, batch: seq<Snippet>)
    requires Batch(batch) && SortedKids(c, kids, batch).Some?
    ensures SortedKids(c, SortedKids(c, kids, batch).value, []) == SortedKids(c, kids, batch)
    decreases kids
  {
    hide Batchable, Flush;
    var out := SortedKids(c, kids, batch).value;
    if kids == [] {
      FlushKeepsIncludes(c, batch);
      FlushIsStable(c, batch);
      SortBatchFirst(c, out, [], []);
      assert out + [] == out && [] + out == out;
    } else if Batchable(kids[0]) {
      KidsSortedTwice(c, kids[1..], batch + [kids[0]]);
    } else {
      var flushed, rest := Flush(c, batch).value, SortedKids(c, kids[1..], []).value;
      var kid := if kids[0].Block? then Sorted(c, kids[0]).value else kids[0];
      FlushKeepsIncludes(c, batch);
      FlushIsStable(c, batch);
      KidsSortedTwice(c, kids[1..], []);
      if kids[0].Block? {
        KidsSortedTwice(c, kids[0].kids, []);
      }
      SortBatchFirst(c, flushed, [kid] + rest, []);
      assert [] + flushed == flushed;
      WallSortedTwice(c, kids[0], kid, rest, flushed);
    }
  }

  lemma WallSortedTwice(c: Context, before: Snippet, kid: Snippet, rest: seq<Snippet>, flushed: seq<Snippet>)
    requires !Batchable(before) && (if before.Block? then Sorted(c, before) == Some(kid) else kid == before)
    requires before.Block? ==> SortedKids(c, kid.kids, []) == Some(kid.kids)
    requires Flush(c, flushed) == Some(flushed) && SortedKids(c, rest, []) == Some(rest)
    ensures SortedKids(c, [kid] + rest, flushed) == Some(flushed + ([kid] + rest))
  {
    hide Flush;
    assert ([kid] + rest)[1..] == rest;
  }

  lemma SortingIsIdempotent(c: Context, block: Snippet)
    requires block.Block? && Sorted(c, block).Some?
    ensures Sorted(c, Sorted(c, block).value) == Sorted(c, block)
  {
    KidsSortedTwice(c, block.kids, []);
  }

  // ----- the order the checker accepts

  /** The test applied to two includes that follow each other. */
  predicate OrderAccepted(c: Context, a: Snippet, b: Snippet)
    requires a.Include? && b.Include?
  {
    a.inclname in ODDLY_ORDERED || b.inclname in ODDLY_ORDERED ||
    !(Section(c, a) > Section(c, b) || (Section(c, a) == Section(c, b) && LessString(Lower(b.inclname), Lower(a.inclname))))
  }

  predicate PairsAccepted(c: Context, includes: Includes) {
    forall i :: 0 <= i < |includes| - 1 ==> OrderAccepted(c, includes[i], includes[i + 1])
  }

  /** Every batch at every depth passes, but for those that are left alone. */
  predicate BatchesAccepted(c: Context, kids: seq<Snippet>, batch: seq<Snippet>)
    decreases kids
  {
    if kids == [] then Exempt(c, IncludesOf(batch)) || PairsAccepted(c, IncludesOf(batch))
    else if Batchable(kids[0]) then BatchesAccepted(c, kids[1..], batch + [kids[0]])
    else
      (Exempt(c, IncludesOf(batch)) || PairsAccepted(c, IncludesOf(batch)))
      && (kids[0].Block? ==> BatchesAccepted(c, kids[0].kids, []))
      && BatchesAccepted(c, kids[1..], [])
  }

  lemma FlushIsAccepted(c: Context, batch: seq<Snippet>)
    requires Batch(batch) && Flush(c, batch).Some?
    ensures var out := IncludesOf(Flush(c, batch).value); Exempt(c, out) || PairsAccepted(c, out)
  {
    hide IncludesOf, Flush, Section, Contains;
    FlushFacts(c, batch);
    var includes, out := IncludesOf(batch), IncludesOf(Flush(c, batch).value);
    SortIsSorted(c, includes);
    SortKeepsOrdered(c, includes);
    if Exempt(c, includes) {
      ExemptBySet(c, includes, out);
    }
  }

  lemma {:induction false} AcceptBatchFirst(c: Context, a: seq<Snippet>, rest: seq<Snippet>, batch: seq<Snippet>)
    requires Batch(a)
    ensures BatchesAccepted(c, a + rest, batch) == BatchesAccepted(c, rest, batch + a)
    decreases |a|
  {
    hide Batchable, PairsAccepted, Exempt, IncludesOf;
    if a == [] {
      assert a + rest == rest && batch + a == batch;
    } else {
      assert (a + rest)[1..] == a[1..] + rest;
      AcceptBatchFirst(c, a[1..], rest, batch + [a[0]]);
      assert (batch + [a[0]]) + a[1..] == batch + a;
    }
  }

  lemma {:induction false} KidsAccepted(c: Context, kids: seq<Snippet>, batch: seq<Snippet>)
    requires Batch(batch) && SortedKids(c, kids, batch).Some?
    ensures BatchesAccepted(c, SortedKids(c, kids, batch).value, [])
    decreases kids
  {
    hide Batchable, Flush, PairsAccepted, Exempt, IncludesOf;
    var out := SortedKids(c, kids, batch).value;
    if kids == [] {
      FlushKeepsIncludes(c, batch);
      FlushIsAccepted(c, batch);
      AcceptBatchFirst(c, out, [], []);
      assert out + [] == out && [] + out == out;
    } else if Batchable(kids[0]) {
      KidsAccepted(c, kids[1..], batch + [kids[0]]);
    } else {
      var flushed, rest := Flush(c, batch).value, SortedKids(c, kids[1..], []).value;
      var kid := if kids[0].Block? then Sorted(c, kids[0]).value else kids[0];
      FlushKeepsIncludes(c, batch);
      FlushIsAccepted(c, batch);
      KidsAccepted(c, kids[1..], []);
      if kids[0].Block? {
        KidsAccepted(c, kids[0].kids, []);
      }
      AcceptBatchFirst(c, flushed, [kid] + rest, []);
      assert [] + flushed == flushed;
      WallAccepted(c, kids[0], kid, rest, flushed);
    }
  }

  lemma WallAccepted(c: Context, before: Snippet, kid: Snippet, rest: seq<Snippet>, flushed: seq<Snippet>)
    requires !Batchable(before) && (if before.Block? then Sorted(c, before) == Some(kid) else kid == before)
    requires before.Block? ==> BatchesAccepted(c, kid.kids, [])
    requires Exempt(c, IncludesOf(flushed)) || PairsAccepted(c, IncludesOf(flushed))
    requires BatchesAccepted(c, rest, [])
    ensures BatchesAccepted(c, [kid] + rest, flushed)
  {
    hide PairsAccepted, Exempt, IncludesOf;
    assert ([kid] + rest)[1..] == rest;
  }

  lemma SortingIsAccepted(c: Context, block: Snippet)
    requires block.Block? && Sorted(c, block).Some?
    ensures BatchesAccepted(c, Sorted(c, block).value.kids, [])
  {
    KidsAccepted(c, block.kids, []);
  }

  // ----- when sorting fails

  predicate SortableBatch(c: Context, includes: Includes) {
    Exempt(c, includes) || InOrder(c, includes) || DistinctKeys(c, includes)
  }

  predicate Sortable(c: Context, kids: seq<Snippet>, batch: seq<Snippet>)
    decreases kids
  {
    if kids == [] then SortableBatch(c, IncludesOf(batch))
    else if Batchable(kids[0]) then Sortable(c, kids[1..], batch + [kids[0]])
    else
      SortableBatch(c, IncludesOf(batch)) && (kids[0].Block? ==> Sortable(c, kids[0].kids, [])) && Sortable(c, kids[1..], [])
  }

  /** Sorting raises exactly when some batch is out of order, not exempt, and holds two includes with one key. */
  lemma {:induction false} SortingSucceeds(c: Context, kids: seq<Snippet>, batch: seq<Snippet>)
    ensures SortedKids(c, kids, batch).Some? <==> Sortable(c, kids, batch)
    decreases kids
  {
    hide Batchable, Flush, Exempt, InOrder, DistinctKeys, IncludesOf;
    if kids == [] {
      FlushRefuses(c, batch);
    } else if Batchable(kids[0]) {
      SortingSucceeds(c, kids[1..], batch + [kids[0]]);
    } else {
      FlushRefuses(c, batch);
      SortingSucceeds(c, kids[1..], []);
      if kids[0].Block? {
        SortingSucceeds(c, kids[0].kids, []);
      }
    }
  }
}
