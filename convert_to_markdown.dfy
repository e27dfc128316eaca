/** The converter from saved HTML pages to Markdown: the whitespace clean-up applied
    to the converted text, the name of the Markdown file, and the progress
    bookkeeping of its main loop. */
module ConvertToMarkdown {
  import opened PyStr
  import opened ProgressFile
  import opened ScrapeRevealjs

  datatype Option<T> = None | Some(value: T)

  const Newline: set<char> := {'\n'}

  // ---------------------------------------------------------------------------
  // Clean-up of the converted text
  // ---------------------------------------------------------------------------

  /** Three newlines in a row: two or more blank lines. */
  predicate HasBlankRun(s: string) {
    exists i :: 0 <= i < |s| - 2 && s[i] == '\n' && s[i + 1] == '\n' && s[i + 2] == '\n'
  }

  /** The length of the run of newlines that `s` starts with. */
  function NewlineRunLength(s: string): (n: nat)
    ensures n <= |s|
    ensures forall i :: 0 <= i < n ==> s[i] == '\n'
    ensures n < |s| ==> s[n] != '\n'
  {
    if s != [] && s[0] == '\n' then 1 + NewlineRunLength(s[1..]) else 0
  }

  /** `re.sub(r'\n{3,}', '\n\n', s)`: the regular expression matches, leftmost and
      greedily, each maximal run of three or more newlines, and each such run becomes
      exactly two; shorter runs do not match and stay as they are. */
  function CollapseBlankLines(s: string): (r: string)
    ensures |r| <= |s|
    ensures s != [] ==> r != [] && r[0] == s[0]
    decreases |s|
  {
    if s == [] then []
    else if s[0] != '\n' then [s[0]] + CollapseBlankLines(s[1..])
    else
      var n := NewlineRunLength(s);
      (if n >= 3 then "\n\n" else s[..n]) + CollapseBlankLines(s[n..])
  }

  lemma NoBlankRunAfterShortRun(a: string, b: string)
    requires |a| <= 2 && !HasBlankRun(b) && (b == [] || b[0] != '\n')
    ensures !HasBlankRun(a + b)
  {
    var ab := a + b;
    forall i | 0 <= i < |ab| - 2
      ensures !(ab[i] == '\n' && ab[i + 1] == '\n' && ab[i + 2] == '\n')
    {
      if i >= |a| {
        var k := i - |a|;
        assert ab[i] == b[k] && ab[i + 1] == b[k + 1] && ab[i + 2] == b[k + 2];
      } else {
        assert ab[|a|] == b[0];
      }
    }
  }

  lemma NoBlankRunAfterChar(c: char, b: string)
    requires c != '\n' && !HasBlankRun(b)
    ensures !HasBlankRun([c] + b)
  {
    var cb := [c] + b;
    forall i | 1 <= i < |cb| - 2
      ensures !(cb[i] == '\n' && cb[i + 1] == '\n' && cb[i + 2] == '\n')
    {
      assert cb[i] == b[i - 1] && cb[i + 1] == b[i] && cb[i + 2] == b[i + 1];
    }
  }

  /** After the substitution no three newlines follow each other. */
  lemma {:induction false} CollapseLeavesNoBlankRun(s: string)
    ensures !HasBlankRun(CollapseBlankLines(s))
    decreases |s|
  {
    if s != [] {
      if s[0] != '\n' {
        CollapseLeavesNoBlankRun(s[1..]);
        NoBlankRunAfterChar(s[0], CollapseBlankLines(s[1..]));
      } else {
        var n := NewlineRunLength(s);
        CollapseLeavesNoBlankRun(s[n..]);
        NoBlankRunAfterShortRun(if n >= 3 then "\n\n" else s[..n], CollapseBlankLines(s[n..]));
      }
    }
  }

  /** The substitution touches nothing but newlines: every other character is kept,
      in order. */
  lemma {:induction false} CollapseKeepsText(s: string)
    ensures Without(CollapseBlankLines(s), Newline) == Without(s, Newline)
    decreases |s|
  {
    if s != [] {
      if s[0] != '\n' {
        CollapseKeepsText(s[1..]);
        WithoutConcat([s[0]], CollapseBlankLines(s[1..]), Newline);
      } else {
        var n := NewlineRunLength(s);
        var run := if n >= 3 then "\n\n" else s[..n];
        CollapseKeepsText(s[n..]);
        WithoutConcat(run, CollapseBlankLines(s[n..]), Newline);
        WithoutAll(run, Newline);
        assert s == s[..n] + s[n..];
        WithoutConcat(s[..n], s[n..], Newline);
        WithoutAll(s[..n], Newline);
      }
    }
  }

  /** `k` newlines in a row. */
  function Newlines(k: nat): (r: string)
    ensures |r| == k && forall i :: 0 <= i < k ==> r[i] == '\n'
  {
    if k == 0 then [] else "\n" + Newlines(k - 1)
  }

  /** A run of three or more newlines becomes exactly two; a shorter run stays. */
  lemma CollapseRun(k: nat)
    ensures CollapseBlankLines(Newlines(k)) == if k >= 3 then "\n\n" else Newlines(k)
  {
    var s := Newlines(k);
    if k > 0 {
      assert NewlineRunLength(s) == k;
      assert s[k..] == [];
      assert s[..k] == s;
    }
  }

  /** The substitution works on each side of a character that is not a newline
      separately, whether the character ends the left part or starts the right one:
      no match spans it. */
  lemma CollapseSplitsAtText(a: string, b: string)
    requires a == [] || b == [] || a[|a| - 1] != '\n' || b[0] != '\n'
    ensures CollapseBlankLines(a + b) == CollapseBlankLines(a) + CollapseBlankLines(b)
  {
    if b == [] || b[0] != '\n' {
      CollapseSplitsBeforeText(a, b);
    } else {
      CollapseSplitsAfterText(a, b);
    }
  }

  lemma {:induction false} CollapseSplitsAfterText(a: string, b: string)
    requires a == [] || a[|a| - 1] != '\n'
    ensures CollapseBlankLines(a + b) == CollapseBlankLines(a) + CollapseBlankLines(b)
    decreases |a|
  {
    if a == [] {
      assert a + b == b;
    } else {
      var n := if a[0] != '\n' then 1 else NewlineRunLength(a);
      var head := if a[0] != '\n' then [a[0]] else if n >= 3 then "\n\n" else a[..n];
      var t := a[n..];
      if a[0] != '\n' {
        CollapseSplitsAtFirst(a, b);
      } else {
        RunStopsInside(a, b);
        CollapseSplitsAtRun(a, b);
      }
      assert |t| == |a| - n;
      if t != [] {
        assert t[|t| - 1] == a[|a| - 1];
      }
      CollapseSplitsAfterText(t, b);
      ConcatAssoc(head, CollapseBlankLines(t), CollapseBlankLines(b));
    }
  }

  lemma {:induction false} CollapseSplitsBeforeText(a: string, b: string)
    requires b == [] || b[0] != '\n'
    ensures CollapseBlankLines(a + b) == CollapseBlankLines(a) + CollapseBlankLines(b)
    decreases |a|
  {
    if a == [] {
      assert a + b == b;
    } else {
      var n := if a[0] != '\n' then 1 else NewlineRunLength(a);
      var head := if a[0] != '\n' then [a[0]] else if n >= 3 then "\n\n" else a[..n];
      var t := a[n..];
      if a[0] != '\n' {
        CollapseSplitsAtFirst(a, b);
      } else {
        RunStopsInside(a, b);
        CollapseSplitsAtRun(a, b);
      }
      CollapseSplitsBeforeText(t, b);
      ConcatAssoc(head, CollapseBlankLines(t), CollapseBlankLines(b));
    }
  }

  lemma ConcatAssoc(x: string, y: string, z: string)
    ensures x + (y + z) == (x + y) + z
  {
  }

  /** One step of the substitution on `a + b` when `a` starts with text. */
  lemma CollapseSplitsAtFirst(a: string, b: string)
    requires a != [] && a[0] != '\n'
    ensures CollapseBlankLines(a + b) == [a[0]] + CollapseBlankLines(a[1..] + b)
    ensures CollapseBlankLines(a) == [a[0]] + CollapseBlankLines(a[1..])
  {
    assert (a + b)[0] == a[0];
    assert (a + b)[1..] == a[1..] + b;
  }

  /** One step of the substitution on `a + b` when `a` starts with a run of newlines
      that ends inside `a` or where `a` ends and is not continued by `b`. */
  lemma CollapseSplitsAtRun(a: string, b: string)
    requires a != [] && a[0] == '\n' && NewlineRunLength(a + b) == NewlineRunLength(a)
    ensures var n := NewlineRunLength(a);
      var run := if n >= 3 then "\n\n" else a[..n];
      CollapseBlankLines(a + b) == run + CollapseBlankLines(a[n..] + b) &&
      CollapseBlankLines(a) == run + CollapseBlankLines(a[n..])
  {
    var n := NewlineRunLength(a);
    assert (a + b)[0] == a[0];
    assert (a + b)[..n] == a[..n];
    assert (a + b)[n..] == a[n..] + b;
  }

  lemma RunStopsInside(a: string, b: string)
    requires a != [] && (b == [] || a[|a| - 1] != '\n' || b[0] != '\n')
    ensures NewlineRunLength(a + b) == NewlineRunLength(a)
  {
    var n := NewlineRunLength(a);
    if n < |a| {
      assert (a + b)[n] == a[n];
    } else if b != [] {
      assert (a + b)[n] == b[0];
    }
  }

  /** Text without two blank lines in a row comes out of the substitution unchanged. */
  lemma {:induction false} CollapseKeepsShortRuns(s: string)
    requires !HasBlankRun(s)
    ensures CollapseBlankLines(s) == s
    decreases |s|
  {
    if s != [] {
      if s[0] != '\n' {
        NoBlankRunInSuffix(s, 1);
        CollapseKeepsShortRuns(s[1..]);
      } else {
        var n := NewlineRunLength(s);
        if |s| >= 3 {
          assert !(s[0] == '\n' && s[1] == '\n' && s[2] == '\n');
        }
        NoBlankRunInSuffix(s, n);
        CollapseKeepsShortRuns(s[n..]);
        assert s == s[..n] + s[n..];
      }
    }
  }

  lemma NoBlankRunInSuffix(s: string, k: nat)
    requires k <= |s| && !HasBlankRun(s)
    ensures !HasBlankRun(s[k..])
  {
    var t := s[k..];
    forall i | 0 <= i < |t| - 2
      ensures !(t[i] == '\n' && t[i + 1] == '\n' && t[i + 2] == '\n')
    {
      assert t[i] == s[k + i] && t[i + 1] == s[k + i + 1] && t[i + 2] == s[k + i + 2];
    }
  }

  /** `[line.rstrip(chars) for line in lines]` */
  function RStripEach(lines: seq<string>, chars: set<char>): (r: seq<string>)
    ensures |r| == |lines|
    ensures forall i :: 0 <= i < |r| ==> r[i] == RStrip(lines[i], chars)
  {
    if lines == [] then [] else [RStrip(lines[0], chars)] + RStripEach(lines[1..], chars)
  }

  /** `'\n'.join(line.rstrip() for line in s.split('\n'))`: trimming the lines
      removes only whitespace. */
  function RStripLines(s: string): (r: string)
    ensures Without(r, Whitespace) == Without(s, Whitespace)
  {
    TrimmedLinesKeepOthers(s, Whitespace);
    Join(RStripEach(Split(s, '\n'), Whitespace), '\n')
  }

  lemma RStripEachSepFree(lines: seq<string>, chars: set<char>, sep: char)
    requires forall i :: 0 <= i < |lines| ==> sep !in lines[i]
    ensures forall i :: 0 <= i < |lines| ==> sep !in RStripEach(lines, chars)[i]
  {
    forall i | 0 <= i < |lines|
      ensures sep !in RStripEach(lines, chars)[i]
    {
      var r := RStrip(lines[i], chars);
      RStripSpec(lines[i], chars);
      assert forall k :: 0 <= k < |r| ==> r[k] == lines[i][k];
    }
  }

  /** Trimming the lines keeps every line break: the text has as many lines as before. */
  lemma RStripLinesKeepsNewlines(s: string)
    ensures multiset(RStripLines(s))['\n'] == multiset(s)['\n']
  {
    var lines := Split(s, '\n');
    RStripEachSepFree(lines, Whitespace, '\n');
    JoinCount(RStripEach(lines, Whitespace), '\n');
    SplitCount(s, '\n');
  }

  /** The lines of the result are the lines of `s`, each right-stripped, so none of
      them ends in whitespace. */
  lemma RStripLinesTrimsEveryLine(s: string)
    ensures var before, after := Split(s, '\n'), Split(RStripLines(s), '\n');
      |after| == |before| &&
      forall i :: 0 <= i < |after| ==>
        after[i] == RStrip(before[i], Whitespace) &&
        (after[i] == [] || after[i][|after[i]| - 1] !in Whitespace)
  {
    TrimmedLinesSplit(s, Whitespace);
    assert RStripLines(s) == Join(RStripEach(Split(s, '\n'), Whitespace), '\n');
  }

  lemma TrimmedLinesSplit(s: string, chars: set<char>)
    ensures var before, after := Split(s, '\n'), Split(Join(RStripEach(Split(s, '\n'), chars), '\n'), '\n');
      |after| == |before| &&
      forall i :: 0 <= i < |after| ==>
        after[i] == RStrip(before[i], chars) &&
        (after[i] == [] || after[i][|after[i]| - 1] !in chars)
  {
    var lines := Split(s, '\n');
    RStripEachSepFree(lines, chars, '\n');
    SplitJoin(RStripEach(lines, chars), '\n');
    forall i | 0 <= i < |lines| {
      RStripSpec(lines[i], chars);
    }
  }

  lemma TrimmedLinesKeepOthers(s: string, chars: set<char>)
    requires '\n' in chars
    ensures Without(Join(RStripEach(Split(s, '\n'), chars), '\n'), chars) == Without(s, chars)
  {
    var lines := Split(s, '\n');
    forall i | 0 <= i < |lines|
      ensures Without(RStripEach(lines, chars)[i], chars) == Without(lines[i], chars)
    {
      RStripKeepsOthers(lines[i], chars, chars);
    }
    JoinKeepsOthers(RStripEach(lines, chars), lines, '\n', chars);
    JoinSplit(s, '\n');
  }

  /** The clean-up of `convert_html_to_markdown`: collapse runs of blank lines, strip
      trailing whitespace from every line, strip the whole text. The result neither
      starts nor ends with whitespace. */
  function Cleanup(markdown: string): (r: string)
    ensures r == [] || (r[0] !in Whitespace && r[|r| - 1] !in Whitespace)
  {
    StripSpec(RStripLines(CollapseBlankLines(markdown)), Whitespace);
    Strip(RStripLines(CollapseBlankLines(markdown)), Whitespace)
  }

  /** The clean-up only ever removes whitespace: the visible text is kept, in order. */
  lemma CleanupKeepsText(markdown: string)
    ensures Without(Cleanup(markdown), Whitespace) == Without(markdown, Whitespace)
  {
    var collapsed := CollapseBlankLines(markdown);
    CollapseKeepsText(markdown);
    WithoutTwice(collapsed, Newline, Whitespace);
    WithoutTwice(markdown, Newline, Whitespace);
    StripKeepsOthers(RStripLines(collapsed), Whitespace, Whitespace);
  }

  /** The clean-up gives `""` exactly when the text is all whitespace. */
  lemma CleanupEmptyIffBlank(markdown: string)
    ensures Cleanup(markdown) == [] <==> forall i :: 0 <= i < |markdown| ==> markdown[i] in Whitespace
  {
    var r := Cleanup(markdown);
    CleanupKeepsText(markdown);
    WithoutEmptyIff(markdown, Whitespace);
    WithoutEmptyIff(r, Whitespace);
  }

  /** The collapse runs before the lines are trimmed, so a line of spaces between
      blank lines survives it and is emptied only afterwards: the result can hold
      three newlines in a row, and cleaning it again changes it. */
  lemma CleanupCanLeaveBlankRun()
    ensures !HasBlankRun("a\n\n \n\nb")
    ensures Cleanup("a\n\n \n\nb") == "a\n\n\n\nb"
    ensures HasBlankRun(Cleanup("a\n\n \n\nb"))
    ensures Cleanup(Cleanup("a\n\n \n\nb")) == "a\n\nb"
  {
    CleanupOfSpacedBlankLines();
    var t := "a\n\n\n\nb";
    assert t[1] == '\n' && t[2] == '\n' && t[3] == '\n';
    CleanupOfBlankRun();
  }

  lemma CleanupOfSpacedBlankLines()
    ensures !HasBlankRun("a\n\n \n\nb")
    ensures Cleanup("a\n\n \n\nb") == "a\n\n\n\nb"
  {
    SpacedBlankLinesHaveNoRun();
    SpacedBlankLinesCollapsed();
    SpacedLinesNewlineFree();
    CleanupThroughLines("a\n\n \n\nb", ["a", "", " ", "", "b"]);
    SpacedBlankLinesTrimmed();
    StripVisibleEnds("a\n\n\n\nb");
  }

  lemma SpacedBlankLinesHaveNoRun()
    ensures !HasBlankRun("a\n\n \n\nb")
  {
    var s := "a\n\n \n\nb";
    forall i | 0 <= i < |s| - 2
      ensures !(s[i] == '\n' && s[i + 1] == '\n' && s[i + 2] == '\n')
    {
    }
  }

  lemma SpacedBlankLinesJoined()
    ensures Join(["a", "", " ", "", "b"], '\n') == "a\n\n \n\nb"
  {
  }

  lemma SpacedLinesNewlineFree()
    ensures forall i :: 0 <= i < |["a", "", " ", "", "b"]| ==> '\n' !in ["a", "", " ", "", "b"][i]
  {
  }

  /** The substitution leaves the text alone. */
  lemma SpacedBlankLinesCollapsed()
    ensures CollapseBlankLines("a\n\n \n\nb") == Join(["a", "", " ", "", "b"], '\n')
  {
    SpacedBlankLinesHaveNoRun();
    CollapseKeepsShortRuns("a\n\n \n\nb");
    SpacedBlankLinesJoined();
  }

  lemma SpacedBlankLinesTrimmed()
    ensures Join(RStripEach(["a", "", " ", "", "b"], Whitespace), '\n') == "a\n\n\n\nb"
  {
    var r := RStripEach(["a", "", " ", "", "b"], Whitespace);
    LettersAreVisible();
    assert r[2] == RStrip(" ", Whitespace) == "";
    assert r == ["a", "", "", "", "b"];
    BlankLinesJoined();
  }

  lemma BlankLinesJoined()
    ensures Join(["a", "", "", "", "b"], '\n') == "a\n\n\n\nb"
  {
  }

  lemma LettersAreVisible()
    ensures RStrip("a", Whitespace) == "a" && RStrip("b", Whitespace) == "b"
  {
    assert 'a' !in Whitespace && 'b' !in Whitespace;
  }

  /** Once the substitution has produced the lines `lines`, the clean-up trims each of
      them and strips the joined text. */
  lemma CleanupThroughLines(s: string, lines: seq<string>)
    requires |lines| > 0 && forall i :: 0 <= i < |lines| ==> '\n' !in lines[i]
    requires CollapseBlankLines(s) == Join(lines, '\n')
    ensures Cleanup(s) == Strip(Join(RStripEach(lines, Whitespace), '\n'), Whitespace)
  {
    SplitJoin(lines, '\n');
  }

  lemma CleanupOfBlankRun()
    ensures Cleanup("a\n\n\n\nb") == "a\n\nb"
  {
    var lines := ["a", "", "b"];
    BlankRunCollapsed();
    CleanupThroughLines("a\n\n\n\nb", lines);
    CollapsedLinesTrimmed();
    StripVisibleEnds("a\n\nb");
  }

  lemma BlankRunCollapsed()
    ensures CollapseBlankLines("a\n\n\n\nb") == Join(["a", "", "b"], '\n')
  {
    var t := "a\n\n\n\nb";
    var rest := t[1..];
    assert NewlineRunLength(rest) == 4 by {
      assert rest[..4] == "\n\n\n\n" && rest[4] == 'b';
    }
    assert rest[4..] == "b";
    assert CollapseBlankLines(rest) == "\n\nb";
    assert CollapseBlankLines(t) == "a\n\nb";
  }

  lemma CollapsedLinesTrimmed()
    ensures Join(["a", "", "b"], '\n') == "a\n\nb"
    ensures RStripEach(["a", "", "b"], Whitespace) == ["a", "", "b"]
  {
    var r := RStripEach(["a", "", "b"], Whitespace);
    LettersAreVisible();
    assert r[1] == RStrip("", Whitespace) == "";
  }

  /** A text from `a` to `b` has nothing to strip. */
  lemma StripVisibleEnds(t: string)
    requires |t| >= 2 && t[0] == 'a' && t[|t| - 1] == 'b'
    ensures Strip(t, Whitespace) == t
  {
    assert 'a' !in Whitespace && 'b' !in Whitespace;
  }

  /** `convert_html_to_markdown`, given the article element's Markdown from the
      converter (`None` when the page has no article element). */
  function ConvertHtmlToMarkdown(article: Option<string>): (r: Option<string>)
    ensures article.None? ==> r.None?
    ensures article.Some? ==> r.Some? && Without(r.value, Whitespace) == Without(article.value, Whitespace)
    ensures article.Some? ==> (r.value == [] <==> forall i :: 0 <= i < |article.value| ==> article.value[i] in Whitespace)
    ensures article.Some? ==> r.value == Cleanup(article.value)
    ensures article.Some? && r.value != [] ==> r.value[0] !in Whitespace && r.value[|r.value| - 1] !in Whitespace
  {
    match article
    case None => None
    case Some(markdown) =>
      CleanupKeepsText(markdown);
      CleanupEmptyIffBlank(markdown);
      Some(Cleanup(markdown))
  }

  /** `PurePath.stem`: the name without its last suffix. A suffix starts at the last
      `.`, and only when that dot is neither the first nor the last character, so a
      hidden name such as `.html` is its own stem. */
  function Stem(name: string): (r: string)
    ensures r <= name
    ensures |r| < |name| ==>
      0 < |r| < |name| - 1 && name[|r|] == '.' && forall j :: |r| < j < |name| ==> name[j] != '.'
    ensures (exists k :: 0 < k < |name| - 1 && name[k] == '.' && forall j :: k < j < |name| ==> name[j] != '.') ==>
      |r| < |name|
  {
    var i := RFind(name, '.');
    if 0 < i < |name| - 1 then name[..i] else name
  }

  /** A name `x.html` with a non-empty `x` has the stem `x`. */
  lemma HtmlStem(name: string)
    requires HasSuffix(name, ".html") && |name| > 5
    ensures Stem(name) == name[..|name| - 5]
  {
    var k := |name| - 5;
    assert name[k..] == ".html";
    assert name[k] == '.';
    assert forall j :: k < j < |name| ==> name[j] != '.' by {
      assert forall j :: k < j < |name| ==> name[j] == ".html"[j - k];
    }
    assert RFind(name, '.') == k;
  }

  /** `html_file.stem + ".md"`: the Markdown file of `x.html` is `x.md`. */
  function MarkdownFilename(htmlName: string): (r: string)
    ensures HasSuffix(r, ".md")
    ensures HasSuffix(htmlName, ".html") && |htmlName| > 5 ==> r == htmlName[..|htmlName| - 5] + ".md"
  {
    var stem := Stem(htmlName);
    assert (stem + ".md")[|stem|..] == ".md";
    if HasSuffix(htmlName, ".html") && |htmlName| > 5 then
      HtmlStem(htmlName);
      stem + ".md"
    else
      stem + ".md"
  }

  /** Distinct HTML files named `x.html` with a non-empty `x` are converted to
      distinct Markdown files. */
  lemma MarkdownFilenameInjective(a: string, b: string)
    requires HasSuffix(a, ".html") && |a| > 5 && HasSuffix(b, ".html") && |b| > 5
    requires MarkdownFilename(a) == MarkdownFilename(b)
    ensures a == b
  {
    var sa, sb := a[..|a| - 5], b[..|b| - 5];
    assert (sa + ".md")[..|sa|] == sa;
    assert (sb + ".md")[..|sb|] == sb;
    assert a == sa + ".html";
    assert b == sb + ".html";
  }

  /** The glob for `*.html` also lists a hidden file `.html`, whose stem is the whole
      name: it is converted to the same file as `.html.html`. */
  lemma HiddenHtmlNamesCollide()
    ensures ".html" != ".html.html"
    ensures MarkdownFilename(".html") == MarkdownFilename(".html.html") == ".html.md"
  {
    var hidden := ".html";
    assert hidden[0] == '.' && forall j :: 0 < j < |hidden| ==> hidden[j] != '.';
    assert RFind(hidden, '.') == 0;
    assert Stem(hidden) == hidden;
    HtmlStem(".html.html");
    assert ".html.html"[..5] == hidden;
  }

  /** The scraper saves the root page as `home.html`, which is converted to `home.md`. */
  lemma RootMarkdownName()
    ensures |GetFilename("/")| > 5
    ensures MarkdownFilename(GetFilename("/")) == "home.md"
  {
    MarkdownOfHtml("home");
    assert "home" + ".html" == "home.html";
  }

  /** A section page `/x/` is saved as `x.html` and converted to `x.md`. */
  lemma SectionMarkdownName(path: string)
    requires IsSectionPath(path)
    ensures |GetFilename(path)| > 5
    ensures MarkdownFilename(GetFilename(path)) == path[1..|path| - 1] + ".md"
  {
    SectionFilename(path);
    MarkdownOfHtml(path[1..|path| - 1]);
  }

  lemma MarkdownOfHtml(stem: string)
    requires stem != []
    ensures HasSuffix(stem + ".html", ".html") && |stem + ".html"| > 5
    ensures MarkdownFilename(stem + ".html") == stem + ".md"
  {
    var h := stem + ".html";
    assert h[..|h| - 5] == stem;
    assert h[|h| - 5..] == ".html";
  }

  // ---------------------------------------------------------------------------
  // Progress bookkeeping of the main loop
  // ---------------------------------------------------------------------------

  /** What reading and converting one file gave. */
  datatype Conversion =
    /** Reading the file or converting it raised. */
    | ReadOrConvertRaised
    /** The conversion ran; `article` is the converter's Markdown for the article
        element, or `None` when the page has none. */
    | Converted(article: Option<string>)

  /** What happened to one file inside the `try` block: the conversion, whether
      writing the Markdown file raised, and whether saving the progress file raised
      (after the list was updated). */
  datatype ConvertOutcome = ConvertOutcome(conversion: Conversion, writeRaises: bool, saveRaises: bool)

  /** The article has visible text: exactly when `if markdown:` takes its first
      branch, the cleaned Markdown being non-empty. */
  predicate HasContent(o: ConvertOutcome)
    ensures HasContent(o) <==>
      (o.conversion.Converted? &&
       var markdown := ConvertHtmlToMarkdown(o.conversion.article);
       markdown.Some? && markdown.value != [])
  {
    o.conversion.Converted? && o.conversion.article.Some? &&
    exists i :: 0 <= i < |o.conversion.article.value| && o.conversion.article.value[i] !in Whitespace
  }

  /** The file was converted to non-empty Markdown, written, and the progress saved. */
  predicate ConvertedCleanly(o: ConvertOutcome) {
    HasContent(o) && !o.writeRaises && !o.saveRaises
  }

  /** One iteration of the main loop on the file `name`. */
  function ConvertStep(s: Lists, name: string, o: ConvertOutcome): (r: Lists)
    ensures name in s.completed ==> r == s
    ensures s.completed <= r.completed && s.failed <= r.failed
    ensures name in r.completed || name in r.failed
    ensures name !in s.completed ==>
      r.completed == if HasContent(o) && !o.writeRaises then s.completed + [name] else s.completed
    ensures name !in s.completed && o.conversion.Converted? && !HasContent(o) ==>
      r.failed == s.failed + [name]
    ensures ConvertedCleanly(o) ==> r.failed == s.failed
    ensures (o.conversion.ReadOrConvertRaised? || HasContent(o)) && name in s.failed ==> r.failed == s.failed
    ensures name !in s.completed && (o.conversion.ReadOrConvertRaised? || (HasContent(o) && (o.writeRaises || o.saveRaises))) ==>
      r.failed == AppendIfAbsent(s.failed, name)
    ensures forall x :: x != name ==> (x in r.completed <==> x in s.completed) && (x in r.failed <==> x in s.failed)
    ensures NoDuplicates(s.completed) ==> NoDuplicates(r.completed)
    ensures NoDuplicates(s.failed) && name !in s.failed ==> NoDuplicates(r.failed)
  {
    if name in s.completed then s
    else match o.conversion
      case ReadOrConvertRaised => Lists(s.completed, AppendIfAbsent(s.failed, name))
      case Converted(article) =>
        var markdown := ConvertHtmlToMarkdown(article);
        RecordConversion(s, name, markdown, o.writeRaises, o.saveRaises)
  }

  /** The `if markdown:` branch of the loop body, for a file not yet completed. */
  function RecordConversion(s: Lists, name: string, markdown: Option<string>, writeRaises: bool, saveRaises: bool): (r: Lists)
    requires name !in s.completed
    ensures s.completed <= r.completed && s.failed <= r.failed
    ensures name in r.completed || name in r.failed
    ensures r.completed == if markdown.Some? && markdown.value != [] && !writeRaises then s.completed + [name] else s.completed
    ensures !(markdown.Some? && markdown.value != []) ==> r.failed == s.failed + [name]
    ensures markdown.Some? && markdown.value != [] && !writeRaises && !saveRaises ==> r.failed == s.failed
    ensures markdown.Some? && markdown.value != [] && name in s.failed ==> r.failed == s.failed
    ensures markdown.Some? && markdown.value != [] && (writeRaises || saveRaises) ==> r.failed == AppendIfAbsent(s.failed, name)
    ensures forall x :: x != name ==> (x in r.completed <==> x in s.completed) && (x in r.failed <==> x in s.failed)
    ensures NoDuplicates(s.completed) ==> NoDuplicates(r.completed)
    ensures NoDuplicates(s.failed) && name !in s.failed ==> NoDuplicates(r.failed)
  {
    if markdown.Some? && markdown.value != [] then
      if writeRaises then Lists(s.completed, AppendIfAbsent(s.failed, name))
      else
        var completed := s.completed + [name];
        Lists(completed, if saveRaises then AppendIfAbsent(s.failed, name) else s.failed)
    else
      var failed := s.failed + [name];
      assert NoDuplicates(s.failed) && name !in s.failed ==> NoDuplicates(failed);
      Lists(s.completed, if saveRaises then AppendIfAbsent(failed, name) else failed)
  }

  /** The main loop over `files`, the i-th file meeting `outcomes[i]`. */
  function ConvertRun(s: Lists, files: seq<string>, outcomes: seq<ConvertOutcome>): (r: Lists)
    requires |outcomes| == |files|
    ensures s.completed <= r.completed && s.failed <= r.failed
  {
    if files == [] then s
    else
      var n := |files| - 1;
      ConvertStep(ConvertRun(s, files[..n], outcomes[..n]), files[n], outcomes[n])
  }

  /** The "could not extract content" branch appends without looking: a file that
      failed on an earlier run and fails again in the same way is listed twice. */
  lemma FailedCanGainDuplicates()
    ensures var s := Lists([], ["code.html"]);
      NoDuplicates(s.failed) &&
      ConvertStep(s, "code.html", ConvertOutcome(Converted(None), false, false)).failed == ["code.html", "code.html"]
  {
  }

  /** `completed` stays duplicate-free across a run. */
  lemma {:induction false} ConvertRunKeepsCompletedUnique(s: Lists, files: seq<string>, outcomes: seq<ConvertOutcome>)
    requires |outcomes| == |files|
    requires NoDuplicates(s.completed)
    ensures NoDuplicates(ConvertRun(s, files, outcomes).completed)
  {
    if files != [] {
      var n := |files| - 1;
      ConvertRunKeepsCompletedUnique(s, files[..n], outcomes[..n]);
    }
  }

  /** The lists only grow, every file of the run ends up recorded in one of them,
      and nothing but the run's files is added. */
  lemma {:induction false} ConvertRunRecordsEveryFile(s: Lists, files: seq<string>, outcomes: seq<ConvertOutcome>)
    requires |outcomes| == |files|
    ensures var r := ConvertRun(s, files, outcomes);
      s.completed <= r.completed && s.failed <= r.failed &&
      (forall f :: f in files ==> f in r.completed || f in r.failed) &&
      (forall x :: x in r.completed ==> x in s.completed || x in files) &&
      (forall x :: x in r.failed ==> x in s.failed || x in files)
  {
    if files != [] {
      var n := |files| - 1;
      var prev := ConvertRun(s, files[..n], outcomes[..n]);
      ConvertRunRecordsEveryFile(s, files[..n], outcomes[..n]);
      var r := ConvertStep(prev, files[n], outcomes[n]);
      assert r == ConvertRun(s, files, outcomes);
      assert prev.completed <= r.completed && prev.failed <= r.failed;
      forall f | f in files
        ensures f in r.completed || f in r.failed
      {
        if f != files[n] {
          assert f in files[..n];
        }
      }
      forall x | x in r.completed
        ensures x in s.completed || x in files
      {
        if x != files[n] {
          assert x in prev.completed;
        }
      }
      forall x | x in r.failed
        ensures x in s.failed || x in files
      {
        if x != files[n] {
          assert x in prev.failed;
        }
      }
    }
  }

  /** A file is added to `failed` only when it was not converted cleanly: reading or
      converting it raised, it had no content, or writing or saving raised. */
  lemma {:induction false} ConvertRunFailuresExplained(s: Lists, files: seq<string>, outcomes: seq<ConvertOutcome>)
    requires |outcomes| == |files|
    ensures forall x :: x in ConvertRun(s, files, outcomes).failed && x !in s.failed ==>
      exists i :: 0 <= i < |files| && files[i] == x && !ConvertedCleanly(outcomes[i])
  {
    if files != [] {
      var n := |files| - 1;
      var prev := ConvertRun(s, files[..n], outcomes[..n]);
      ConvertRunFailuresExplained(s, files[..n], outcomes[..n]);
      var r := ConvertStep(prev, files[n], outcomes[n]);
      assert r == ConvertRun(s, files, outcomes);
      forall x | x in r.failed && x !in s.failed
        ensures exists i :: 0 <= i < |files| && files[i] == x && !ConvertedCleanly(outcomes[i])
      {
        if x in prev.failed {
          var i :| 0 <= i < n && files[..n][i] == x && !ConvertedCleanly(outcomes[..n][i]);
          assert files[i] == x && !ConvertedCleanly(outcomes[i]);
        } else {
          assert files[n] == x && !ConvertedCleanly(outcomes[n]);
        }
      }
    }
  }

  /** `failed` stays duplicate-free when each file is visited once and none of them
      had failed before: only a repeated failure can list a file twice. */
  lemma {:induction false} ConvertRunKeepsFailedUnique(s: Lists, files: seq<string>, outcomes: seq<ConvertOutcome>)
    requires |outcomes| == |files|
    requires NoDuplicates(files) && NoDuplicates(s.failed)
    requires forall f :: f in files ==> f !in s.failed
    ensures NoDuplicates(ConvertRun(s, files, outcomes).failed)
  {
    if files != [] {
      var n := |files| - 1;
      var prefix := files[..n];
      assert forall f :: f in prefix ==> f in files;
      assert NoDuplicates(prefix);
      ConvertRunKeepsFailedUnique(s, prefix, outcomes[..n]);
      ConvertRunRecordsEveryFile(s, prefix, outcomes[..n]);
      assert files[n] !in prefix;
    }
  }

  /** Resuming after every file is completed changes nothing. */
  lemma {:induction false} ConvertRunWhenAllDone(s: Lists, files: seq<string>, outcomes: seq<ConvertOutcome>)
    requires |outcomes| == |files|
    requires forall f :: f in files ==> f in s.completed
    ensures ConvertRun(s, files, outcomes) == s
  {
    if files != [] {
      var n := |files| - 1;
      assert forall f :: f in files[..n] ==> f in files;
      ConvertRunWhenAllDone(s, files[..n], outcomes[..n]);
    }
  }

  /** `main`: the loop over the HTML files found, with the progress file already
      loaded into `progress`. Reading, converting and writing are abstracted into
      `outcomes`. */
  method ConvertAll(progress: Progress, files: seq<string>, outcomes: seq<ConvertOutcome>)
    requires |outcomes| == |files|
    modifies progress
    ensures progress.State() == ConvertRun(old(progress.State()), files, outcomes)
  {
    for i := 0 to |files|
      invariant progress.State() == ConvertRun(old(progress.State()), files[..i], outcomes[..i])
    {
      assert files[..i + 1][..i] == files[..i] && outcomes[..i + 1][..i] == outcomes[..i];
      var name := files[i];
      if name in progress.completed {
        continue;
      }
      var o := outcomes[i];
      match o.conversion
      case ReadOrConvertRaised =>
        progress.MarkFailedIfAbsent(name);
      case Converted(article) =>
        var markdown := ConvertHtmlToMarkdown(article);
        if markdown.Some? && markdown.value != [] {
          if o.writeRaises {
            progress.MarkFailedIfAbsent(name);
          } else {
            progress.MarkCompleted(name);
            if o.saveRaises {
              progress.MarkFailedIfAbsent(name);
            }
          }
        } else {
          progress.MarkFailed(name);
          if o.saveRaises {
            progress.MarkFailedIfAbsent(name);
          }
        }
    }
    assert files[..|files|] == files && outcomes[..|files|] == outcomes;
  }
}
