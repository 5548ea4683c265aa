/** The extractors that cut a LaTeX source into its header, its body, the
    macro definitions of its header, its figure blocks and the content of a
    named environment. The regular expressions they use are literals,
    sometimes followed by `.*`; `.` never matches '\n', so each such match
    stays on one line. */
module Latex {
  import opened Wrappers
  import opened Strings
  import opened Braces
  import opened Comments

  const BeginDocument := "begin{document}"
  const EndDocument := "end{document}"

  predicate EndsWith(s: string, suffix: string) {
    |suffix| <= |s| && s[|s| - |suffix|..] == suffix
  }

  function Min(a: nat, b: nat): nat {
    if a < b then a else b
  }

  /** get_latex_header: the source up to the end of the first
      `begin{document}`; None where the source raises (no such marker). */
  function Header(data: string): (r: Option<string>)
    ensures r.None? <==> !Contains(data, BeginDocument)
    ensures r.Some? ==> IsPrefix(r.value, data) && EndsWith(r.value, BeginDocument)
    ensures r.Some? ==> Find(r.value, BeginDocument) == Some(|r.value| - |BeginDocument|)
  {
    match Find(data, BeginDocument)
    case None => None
    case Some(i) =>
      FindFromPrefix(data, BeginDocument, 0, i, i + |BeginDocument|);
      Some(data[..i + |BeginDocument|])
  }

  /** The header of a header is the header itself: the marker it ends with
      is its first. */
  lemma HeaderOfHeader(data: string)
    requires Header(data).Some?
    ensures Header(Header(data).value) == Header(data)
  {
    var h := Header(data).value;
    assert h[..|h|] == h;
  }

  /** get_latex_body: the comment-cleared text between the end of the first
      `begin{document}` and the start of the first `end{document}` (empty
      when the latter comes first); None where the source raises. */
  function Body(data: string): (r: Option<string>)
    ensures r.None? <==> !Contains(data, BeginDocument) || !Contains(data, EndDocument)
    ensures r.Some? ==> Uncommented(r.value)
  {
    match Find(data, BeginDocument)
    case None => None
    case Some(i) =>
      match Find(data, EndDocument)
      case None => None
      case Some(j) =>
        var text := PySlice(data, i + |BeginDocument|, j);
        ClearedUncommented(text);
        Some(Cleared(text))
  }

  /** The body is what lies between the first `begin{document}` and the
      first `end{document}` after it, cleared of its comments. */
  lemma BodyBetween(data: string, pre: string, x: string, post: string)
    requires data == pre + BeginDocument + x + EndDocument + post
    requires forall p: nat :: p < |pre| ==> !OccursAt(data, BeginDocument, p)
    requires forall p: nat :: p < |pre| + |BeginDocument| + |x| ==> !OccursAt(data, EndDocument, p)
    ensures Body(data) == Some(Cleared(x))
  {
    var i := |pre|;
    var j := i + |BeginDocument| + |x|;
    assert data[i..i + |BeginDocument|] == BeginDocument;
    assert data[j..j + |EndDocument|] == EndDocument;
    FindFromFirst(data, BeginDocument, 0, i);
    FindFromFirst(data, EndDocument, 0, j);
    assert data[i + |BeginDocument|..j] == x;
  }

  /** A small document: the body loses the comment but keeps the backslash
      of `\end`, since the slice stops where `end{document}` starts. */
  lemma BodyExample(data: string)
    requires data == "\\" + BeginDocument + "\nHi % note\n\\" + EndDocument
    ensures Body(data) == Some("\nHi \n\\")
  {
    var text := "\nHi % note\n\\";
    BodyExampleMarkers(data);
    assert PySlice(data, 16, 28) == text by {
      assert data[16..28] == text;
    }
    BodyText(text);
    BodyExampleCleared(text);
  }

  lemma BodyText(text: string)
    requires text == "\nHi % note\n\\"
    ensures text == "\n" + "Hi % note" + "\n" + "\\"
  {
  }

  lemma BodyExampleMarkers(data: string)
    requires data == "\\" + BeginDocument + "\nHi % note\n\\" + EndDocument
    ensures Find(data, BeginDocument) == Some(1)
    ensures Find(data, EndDocument) == Some(28)
  {
    assert data[1..16] == BeginDocument;
    Mismatch(data, BeginDocument, 0, 0);
    FindFromFirst(data, BeginDocument, 0, 1);
    assert data[28..] == EndDocument;
    EndAbsentFront(data);
    EndAbsentBack(data);
    FindFromFirst(data, EndDocument, 0, 28);
  }

  lemma EndAbsentFront(data: string)
    requires data == "\\" + BeginDocument + "\nHi % note\n\\" + EndDocument
    ensures forall j :: 0 <= j < 13 ==> !OccursAt(data, EndDocument, j)
  {
    assert data[0..2] == "\\b";
    assert data[3..12] == "gin{docum";
    FirstCharAbsent(data, EndDocument, 0, 2);
    Mismatch(data, EndDocument, 2, 3);
    FirstCharAbsent(data, EndDocument, 3, 12);
    Mismatch(data, EndDocument, 12, 3);
  }

  lemma EndAbsentBack(data: string)
    requires data == "\\" + BeginDocument + "\nHi % note\n\\" + EndDocument
    ensures forall j :: 13 <= j < 28 ==> !OccursAt(data, EndDocument, j)
  {
    assert data[13..25] == "nt}\nHi % not";
    assert data[26..28] == "\n\\";
    FirstCharAbsent(data, EndDocument, 13, 25);
    Mismatch(data, EndDocument, 25, 3);
    FirstCharAbsent(data, EndDocument, 26, 28);
  }

  lemma BodyExampleLines(text: string)
    requires text == "\n" + "Hi % note" + "\n" + "\\"
    ensures SplitLines(text) == ["", "Hi % note", "\\"]
  {
    var t1 := text[1..];
    assert t1 == "Hi % note" + "\n" + "\\";
    LinesTail(t1);
    assert SplitLines(text) == [""] + SplitLines(t1) by {
      assert IndexOfLineBreak(text, 0) == 0;
      assert text[..0] == "";
    }
  }

  lemma LinesTail(t1: string)
    requires t1 == "Hi % note" + "\n" + "\\"
    ensures SplitLines(t1) == ["Hi % note", "\\"]
  {
    var t2 := t1[10..];
    assert t2 == "\\";
    assert SplitLines(t2) == ["\\"] by {
      assert IndexOfLineBreak(t2, 0) == 1;
    }
    assert t1[9] == '\n';
    assert NoLineBreak("Hi % note");
    assert forall j :: 0 <= j < 9 ==> t1[j] == "Hi % note"[j];
    assert IndexOfLineBreak(t1, 0) == 9;
    assert t1[..9] == "Hi % note";
  }

  lemma BodyExampleCleared(text: string)
    requires text == "\n" + "Hi % note" + "\n" + "\\"
    ensures Cleared(text) == "\nHi \n\\"
  {
    BodyExampleLines(text);
    var cs := ["", "Hi ", "\\"];
    ExampleCut(["", "Hi % note", "\\"]);
    assert JoinWith("\n", cs) == "" + "\n" + ("Hi " + "\n" + "\\") by {
      assert cs[1..] == ["Hi ", "\\"];
      assert cs[1..][1..] == ["\\"];
    }
  }

  lemma ExampleCut(ls: seq<string>)
    requires ls == ["", "Hi % note", "\\"]
    ensures CutAll(ls) == ["", "Hi ", "\\"]
  {
    assert CutComment("Hi % note") == "Hi " by {
      assert CommentStart("Hi % note", 0) == 3;
    }
    assert CutComment("\\") == "\\";
    var l1 := ls[..1];
    var l2 := ls[..2];
    assert l1 == [""] && l1[..0] == [];
    assert CutAll(l1) == [""];
    assert l2 == ["", "Hi % note"] && l2[..1] == l1;
    assert CutAll(l2) == CutAll(l1) + [CutComment("Hi % note")];
    assert ls[..2] == l2 && ls[2] == "\\";
  }

  /* ---------- get_latex_macros ---------- */

  const CommandOpen := "command{"

  /** The match of `command{.*}` within one line: from the first `command{`
      of the line to the last `}` that follows it, if there is one. */
  function LineCommand(line: string): (r: Option<string>)
    ensures r.Some? ==> Find(line, CommandOpen).Some?
    ensures r.Some? ==>
      var p := Find(line, CommandOpen).value;
      && p + |r.value| <= |line|
      && r.value == line[p..p + |r.value|]
      && IsPrefix(CommandOpen, r.value)
      && r.value[|r.value| - 1] == '}'
      && forall j :: p + |r.value| <= j < |line| ==> line[j] != '}'
    ensures r.None? && Find(line, CommandOpen).Some? ==>
      forall j :: Find(line, CommandOpen).value + |CommandOpen| <= j < |line| ==> line[j] != '}'
  {
    match Find(line, CommandOpen)
    case None => None
    case Some(p) =>
      match LastIndexFrom(line, '}', p + |CommandOpen|)
      case None => None
      case Some(q) =>
        assert line[p..q + 1][..|CommandOpen|] == line[p..p + |CommandOpen|];
        Some(line[p..q + 1])
  }

  /** The match of `pat.*` within one line: from the first pat to the end of
      the line. */
  function LineFrom(line: string, pat: string): (r: Option<string>)
    ensures r.Some? <==> Contains(line, pat)
    ensures r.Some? ==> IsPrefix(pat, r.value) && EndsWith(line, r.value)
  {
    match Find(line, pat)
    case None => None
    case Some(p) =>
      assert line[p..][..|pat|] == line[p..p + |pat|];
      Some(line[p..])
  }

  /** The `command{...}` match of every line, in line order. */
  function CommandsOf(lines: seq<string>): (r: seq<string>)
    ensures forall k :: 0 <= k < |r| ==> IsPrefix(CommandOpen, r[k])
    decreases |lines|
  {
    if lines == [] then []
    else CommandsOf(lines[..|lines| - 1]) + OptionToSeq(LineCommand(lines[|lines| - 1]))
  }

  /** A text is a match exactly when it is the match of one of the lines. */
  lemma {:induction false} CommandsMembers(lines: seq<string>)
    ensures forall x :: x in CommandsOf(lines) <==>
      exists k :: 0 <= k < |lines| && LineCommand(lines[k]) == Some(x)
    decreases |lines|
  {
    if lines != [] {
      var init := lines[..|lines| - 1];
      var last := lines[|lines| - 1];
      CommandsMembers(init);
      assert lines == init + [last];
      CommandsSnoc(init, last);
      assert forall k :: 0 <= k < |init| ==> init[k] == lines[k];
    }
  }

  /** The matches keep the line order: those of a + b are the matches of a
      followed by those of b. */
  lemma {:induction false} CommandsConcat(a: seq<string>, b: seq<string>)
    ensures CommandsOf(a + b) == CommandsOf(a) + CommandsOf(b)
    decreases |b|
  {
    if b == [] {
      assert a + b == a;
    } else {
      var init := b[..|b| - 1];
      var last := b[|b| - 1];
      assert b == init + [last];
      assert a + b == (a + init) + [last];
      CommandsConcat(a, init);
      CommandsSnoc(a + init, last);
      CommandsSnoc(init, last);
      SnocRegroup(CommandsOf(a + b), CommandsOf(a), CommandsOf(init), CommandsOf(b),
        OptionToSeq(LineCommand(last)));
    }
  }

  lemma CommandsSnoc(lines: seq<string>, line: string)
    ensures CommandsOf(lines + [line]) == CommandsOf(lines) + OptionToSeq(LineCommand(line))
  {
    assert (lines + [line])[..|lines|] == lines;
  }

  /** One line gives its match, if it has one. */
  lemma CommandsOfLine(line: string)
    ensures CommandsOf([line]) == OptionToSeq(LineCommand(line))
  {
    assert [line][..0] == [];
  }

  /** The `pat.*` match of every line, in line order. */
  function MatchesOf(lines: seq<string>, pat: string): (r: seq<string>)
    ensures forall k :: 0 <= k < |r| ==> IsPrefix(pat, r[k])
    decreases |lines|
  {
    if lines == [] then []
    else MatchesOf(lines[..|lines| - 1], pat) + OptionToSeq(LineFrom(lines[|lines| - 1], pat))
  }

  /** The definitions holding at least one closed brace group, in order. */
  function WithGroups(ds: seq<string>): (r: seq<string>)
    ensures |r| <= |ds|
    ensures forall d :: d in r <==> d in ds && Groups(d) != []
    decreases |ds|
  {
    if ds == [] then []
    else
      var rest := WithGroups(ds[..|ds| - 1]);
      assert ds == ds[..|ds| - 1] + [ds[|ds| - 1]];
      if Groups(ds[|ds| - 1]) != [] then rest + [ds[|ds| - 1]] else rest
  }

  lemma MatchesSnoc(lines: seq<string>, line: string, pat: string)
    ensures MatchesOf(lines + [line], pat) == MatchesOf(lines, pat) + OptionToSeq(LineFrom(line, pat))
  {
    assert (lines + [line])[..|lines|] == lines;
  }

  /** One line gives its `pat.*` match, if it has one. */
  lemma MatchesOfLine(line: string, pat: string)
    ensures MatchesOf([line], pat) == OptionToSeq(LineFrom(line, pat))
  {
    MatchesSnoc([], line, pat);
    assert [] + [line] == [line];
  }

  /** The matches keep the line order: those of a + b are the matches of a
      followed by those of b. */
  lemma {:induction false} MatchesConcat(a: seq<string>, b: seq<string>, pat: string)
    ensures MatchesOf(a + b, pat) == MatchesOf(a, pat) + MatchesOf(b, pat)
    decreases |b|
  {
    if b == [] {
      assert a + b == a;
    } else {
      var init := b[..|b| - 1];
      var last := b[|b| - 1];
      assert b == init + [last];
      assert a + b == (a + init) + [last];
      MatchesConcat(a, init, pat);
      MatchesSnoc(a + init, last, pat);
      MatchesSnoc(init, last, pat);
      SnocRegroup(MatchesOf(a + b, pat), MatchesOf(a, pat), MatchesOf(init, pat), MatchesOf(b, pat),
        OptionToSeq(LineFrom(last, pat)));
    }
  }

  lemma WithGroupsSnoc(ds: seq<string>, d: string)
    ensures WithGroups(ds + [d]) == WithGroups(ds) + (if Groups(d) != [] then [d] else [])
  {
    assert (ds + [d])[..|ds|] == ds;
  }

  /** One definition is kept exactly when it holds a closed group. */
  lemma WithGroupsOne(d: string)
    ensures WithGroups([d]) == if Groups(d) != [] then [d] else []
  {
    WithGroupsSnoc([], d);
    assert [] + [d] == [d];
  }

  /** The filter keeps order and repeats: filtering a + b is filtering a,
      then b. */
  lemma {:induction false} WithGroupsConcat(a: seq<string>, b: seq<string>)
    ensures WithGroups(a + b) == WithGroups(a) + WithGroups(b)
    decreases |b|
  {
    if b == [] {
      assert a + b == a;
    } else {
      var init := b[..|b| - 1];
      var last := b[|b| - 1];
      assert b == init + [last];
      assert a + b == (a + init) + [last];
      WithGroupsConcat(a, init);
      WithGroupsSnoc(a + init, last);
      WithGroupsSnoc(init, last);
      SnocRegroup(WithGroups(a + b), WithGroups(a), WithGroups(init), WithGroups(b),
        if Groups(last) != [] then [last] else []);
    }
  }

  lemma SnocRegroup(w: seq<string>, x: seq<string>, y: seq<string>, v: seq<string>, z: seq<string>)
    requires w == (x + y) + z && v == y + z
    ensures w == x + v
  {
  }

  /** The macro text of a header h: the `command{...}` matches joined with
      "\n" and with every `command` turned into `\providecommand`, followed
      directly (no newline between) by the kept `\def` then `\gdef` lines. */
  function MacroText(h: string): string {
    var lines := SplitOn(h, '\n');
    Replace(JoinWith("\n", CommandsOf(lines)), "command", "\\providecommand")
      + JoinWith("\n", WithGroups(MatchesOf(lines, "\\def")) + WithGroups(MatchesOf(lines, "\\gdef")))
  }

  /** The rewrite of `command` works match by match: the macro text is the
      rewritten matches joined by newlines, then the kept definitions. */
  lemma MacroTextPerMatch(h: string)
    ensures var lines := SplitOn(h, '\n');
      var cs := CommandsOf(lines);
      MacroText(h)
        == JoinWith("\n", seq(|cs|, k requires 0 <= k < |cs| => Replace(cs[k], "command", "\\providecommand")))
         + JoinWith("\n", WithGroups(MatchesOf(lines, "\\def")) + WithGroups(MatchesOf(lines, "\\gdef")))
  {
    var cs := CommandsOf(SplitOn(h, '\n'));
    ReplaceJoin(cs, '\n', "command", "\\providecommand");
  }

  /** A header none of whose lines holds a `command{...}` match gives the
      kept `\def` and `\gdef` lines alone, joined by newlines. */
  lemma MacroTextWithoutCommands(h: string)
    requires forall k :: 0 <= k < |SplitOn(h, '\n')| ==> LineCommand(SplitOn(h, '\n')[k]).None?
    ensures var lines := SplitOn(h, '\n');
      MacroText(h) == JoinWith("\n", WithGroups(MatchesOf(lines, "\\def")) + WithGroups(MatchesOf(lines, "\\gdef")))
  {
    NoLineCommands(SplitOn(h, '\n'));
    assert !Contains([], "command");
  }

  lemma {:induction false} NoLineCommands(lines: seq<string>)
    requires forall k :: 0 <= k < |lines| ==> LineCommand(lines[k]).None?
    ensures CommandsOf(lines) == []
    decreases |lines|
  {
    if lines != [] {
      var init := lines[..|lines| - 1];
      assert lines == init + [lines[|lines| - 1]];
      NoLineCommands(init);
      CommandsSnoc(init, lines[|lines| - 1]);
    }
  }

  /** get_latex_macros(data): the macro text of data's header; None where
      the source raises (no `begin{document}`). */
  function Macros(data: string): (r: Option<string>)
    ensures r.None? <==> !Contains(data, BeginDocument)
  {
    match Header(data)
    case None => None
    case Some(h) => Some(MacroText(h))
  }

  /** The document passes its header rather than its source: same result. */
  lemma MacrosOfHeader(data: string)
    requires Header(data).Some?
    ensures Macros(Header(data).value) == Macros(data)
  {
    HeaderOfHeader(data);
  }

  /** A definition whose braces close on a later line (no `}` on its own
      line) is never kept. */
  lemma MultilineDefDropped(ds: seq<string>, d: string)
    requires '}' !in d
    ensures d !in WithGroups(ds)
  {
    NoCloseNoGroups(d);
  }

  lemma {:induction false} NoCommands(lines: seq<string>)
    requires forall k :: 0 <= k < |lines| ==> !Contains(lines[k], CommandOpen)
    ensures CommandsOf(lines) == []
    decreases |lines|
  {
    if lines != [] {
      NoCommands(lines[..|lines| - 1]);
    }
  }

  lemma {:induction false} NoMatches(lines: seq<string>, pat: string)
    requires forall k :: 0 <= k < |lines| ==> !Contains(lines[k], pat)
    ensures MatchesOf(lines, pat) == []
    decreases |lines|
  {
    if lines != [] {
      NoMatches(lines[..|lines| - 1], pat);
    }
  }

  /** A header without `command{`, `\def` and `\gdef` defines no macro. */
  lemma NoMacros(h: string)
    requires !Contains(h, CommandOpen) && !Contains(h, "\\def") && !Contains(h, "\\gdef")
    ensures MacroText(h) == []
  {
    var lines := SplitOn(h, '\n');
    forall k | 0 <= k < |lines|
      ensures !Contains(lines[k], CommandOpen) && !Contains(lines[k], "\\def") && !Contains(lines[k], "\\gdef")
    {
      if Contains(lines[k], CommandOpen) { JoinContains(['\n'], lines, k, CommandOpen); }
      if Contains(lines[k], "\\def") { JoinContains(['\n'], lines, k, "\\def"); }
      if Contains(lines[k], "\\gdef") { JoinContains(['\n'], lines, k, "\\gdef"); }
    }
    NoCommands(lines);
    NoMatches(lines, "\\def");
    NoMatches(lines, "\\gdef");
    assert !Contains([], "command");
  }

  /* ---------- get_latex_figures ---------- */

  const BeginFigure := "begin{figure"
  const EndFigure := "end{figure"

  predicate SpansIn(s: string, spans: seq<(nat, nat)>) {
    forall k :: 0 <= k < |spans| ==> spans[k].0 <= spans[k].1 <= |s|
  }

  /** Each span ends before the next one starts: spans in text order,
      none repeated. */
  predicate InTextOrder(spans: seq<(nat, nat)>) {
    forall i, j :: 0 <= i < j < |spans| ==> spans[i].1 < spans[j].0
  }

  /** The spans of the lines that contain pat, in the order given. */
  function LinesWith(s: string, spans: seq<(nat, nat)>, pat: string): (r: seq<(nat, nat)>)
    requires SpansIn(s, spans)
    ensures SpansIn(s, r)
    ensures forall k :: 0 <= k < |r| ==> r[k] in spans && Contains(s[r[k].0..r[k].1], pat)
    ensures forall sp :: sp in spans && Contains(s[sp.0..sp.1], pat) ==> sp in r
    decreases |spans|
  {
    if spans == [] then []
    else
      var sp := spans[|spans| - 1];
      var rest := LinesWith(s, spans[..|spans| - 1], pat);
      assert spans == spans[..|spans| - 1] + [sp];
      if Contains(s[sp.0..sp.1], pat) then rest + [sp] else rest
  }

  /** The lines kept come in the order given: kept from lines in text
      order, they are in text order. */
  lemma {:induction false} LinesWithInOrder(s: string, spans: seq<(nat, nat)>, pat: string)
    requires SpansIn(s, spans) && InTextOrder(spans)
    ensures InTextOrder(LinesWith(s, spans, pat))
    decreases |spans|
  {
    if spans != [] {
      var sp := spans[|spans| - 1];
      var init := spans[..|spans| - 1];
      assert spans == init + [sp];
      assert InTextOrder(init) by {
        assert forall k :: 0 <= k < |init| ==> init[k] == spans[k];
      }
      LinesWithInOrder(s, init, pat);
      OrderAfterPrefix(init, sp, LinesWith(s, init, pat));
    }
  }

  /** Picking from the spans before sp and then sp keeps text order. */
  lemma OrderAfterPrefix(init: seq<(nat, nat)>, sp: (nat, nat), rest: seq<(nat, nat)>)
    requires forall k :: 0 <= k < |rest| ==> rest[k] in init
    requires InTextOrder(init) ==> InTextOrder(rest)
    ensures InTextOrder(init + [sp]) ==> InTextOrder(rest) && InTextOrder(rest + [sp])
  {
    if InTextOrder(init + [sp]) {
      var all := init + [sp];
      assert forall i, j :: 0 <= i < j < |init| ==> init[i] == all[i] && init[j] == all[j];
      forall k | 0 <= k < |rest|
        ensures rest[k].1 < sp.0
      {
        var i :| 0 <= i < |init| && init[i] == rest[k];
        assert all[i] == rest[k] && all[|init|] == sp;
      }
    }
  }

  /** The lines of a text come in text order. */
  lemma LinesInTextOrder(s: string)
    ensures InTextOrder(LineSpans(s, 0))
  {
    forall i, j | 0 <= i < j < |LineSpans(s, 0)|
      ensures LineSpans(s, 0)[i].1 < LineSpans(s, 0)[j].0
    {
      SpansOrdered(s, 0, j, i);
    }
  }

  /** The lines that open a figure: each match of `(?<!%).*begin{figure`
      starts at the start of such a line, the lookbehind seeing the '\n'
      before it. */
  function FigureBegins(body: string): seq<(nat, nat)> {
    LinesWith(body, LineSpans(body, 0), BeginFigure)
  }

  /** The lines that close a figure: each match of `(?<!%).*end{figure.*`
      ends at the end of such a line. */
  function FigureEnds(body: string): seq<(nat, nat)> {
    LinesWith(body, LineSpans(body, 0), EndFigure)
  }

  /** Begin lines and end lines are each listed in text order: an earlier
      one ends before a later one starts, so figures are numbered in the
      order their first lines appear. */
  lemma FigureLinesInTextOrder(body: string)
    ensures InTextOrder(FigureBegins(body))
    ensures InTextOrder(FigureEnds(body))
  {
    LinesInTextOrder(body);
    LinesWithInOrder(body, LineSpans(body, 0), BeginFigure);
    LinesWithInOrder(body, LineSpans(body, 0), EndFigure);
  }

  /** get_latex_figures: the k-th begin line paired with the k-th end line
      (surplus ones ignored), each block running from the start of the one
      to the end of the other. */
  function FigureBlocks(body: string): (r: seq<string>)
    ensures |r| == Min(|FigureBegins(body)|, |FigureEnds(body)|)
  {
    var bs := FigureBegins(body);
    var es := FigureEnds(body);
    seq(Min(|bs|, |es|), k requires 0 <= k < Min(|bs|, |es|) => PySlice(body, bs[k].0, es[k].1))
  }

  /** The text from the start of one line to the end of a later one holds
      both lines whole. */
  lemma BlockHoldsLines(s: string, b: (nat, nat), e: (nat, nat))
    requires b.0 <= b.1 <= e.1 <= |s| && b.0 <= e.0 <= e.1
    requires Contains(s[b.0..b.1], BeginFigure) && Contains(s[e.0..e.1], EndFigure)
    ensures IsPrefix(s[b.0..b.1], s[b.0..e.1])
    ensures EndsWith(s[b.0..e.1], s[e.0..e.1])
    ensures Contains(s[b.0..e.1], BeginFigure) && Contains(s[b.0..e.1], EndFigure)
  {
    var block := s[b.0..e.1];
    assert block[0..b.1 - b.0] == s[b.0..b.1];
    ContainsSlice(block, 0, b.1 - b.0, BeginFigure);
    assert block[e.0 - b.0..|block|] == s[e.0..e.1];
    ContainsSlice(block, e.0 - b.0, |block|, EndFigure);
  }

  /** The k-th begin line and the k-th end line are two lines of the
      body: when the begin line starts no later than the end line ends, it
      is the same line or an earlier one. */
  lemma FigureLinesOrdered(body: string, k: nat)
    requires k < |FigureBegins(body)| && k < |FigureEnds(body)|
    requires FigureBegins(body)[k].0 <= FigureEnds(body)[k].1
    ensures FigureBegins(body)[k].0 <= FigureEnds(body)[k].0
    ensures FigureBegins(body)[k].1 <= FigureEnds(body)[k].1
  {
    var spans := LineSpans(body, 0);
    var b := FigureBegins(body)[k];
    var e := FigureEnds(body)[k];
    assert b in spans && e in spans;
    var i :| 0 <= i < |spans| && spans[i] == b;
    var j :| 0 <= j < |spans| && spans[j] == e;
    SpansOrdered(body, 0, i, j);
  }

  /** A block whose begin line starts no later than its end line ends holds
      both lines whole, so both markers; otherwise the block is empty. */
  lemma FigureBlockLines(body: string, k: nat)
    requires k < |FigureBlocks(body)|
    ensures var b := FigureBegins(body)[k];
            var e := FigureEnds(body)[k];
            b.0 <= e.1 ==>
              && IsPrefix(body[b.0..b.1], FigureBlocks(body)[k])
              && EndsWith(FigureBlocks(body)[k], body[e.0..e.1])
              && Contains(FigureBlocks(body)[k], BeginFigure)
              && Contains(FigureBlocks(body)[k], EndFigure)
    ensures var b := FigureBegins(body)[k];
            var e := FigureEnds(body)[k];
            e.1 < b.0 ==> FigureBlocks(body)[k] == []
  {
    var b := FigureBegins(body)[k];
    var e := FigureEnds(body)[k];
    assert FigureBlocks(body)[k] == PySlice(body, b.0, e.1);
    if b.0 <= e.1 {
      FigureLinesOrdered(body, k);
      BlockHoldsLines(body, b, e);
    }
  }

  /* ---------- get_latex_environment ---------- */

  /** get_latex_environment(env, data, onlyContent): the k-th `begin{env`
      occurrence paired with the first `end{env` of the k-th line that has
      one. With onlyContent the text strictly between them, one character
      dropped at each side (the `}` of the opening tag, the `\` of the
      closing one); otherwise from one character before `begin` to the end
      of the closing line. */
  function Environment(env: string, data: string, onlyContent: bool): (r: seq<string>)
    ensures |r| == Min(|FindAllFrom(data, "begin{" + env, 0)|, |MatchesToEol(data, "end{" + env, 0)|)
  {
    var open := "begin{" + env;
    var begins := FindAllFrom(data, open, 0);
    var ends := MatchesToEol(data, "end{" + env, 0);
    var n := Min(|begins|, |ends|);
    if onlyContent then
      seq(n, k requires 0 <= k < n => PySlice(data, begins[k] + |open| + 1, (ends[k].0 as int) - 1))
    else
      seq(n, k requires 0 <= k < n => PySlice(data, (begins[k] as int) - 1, ends[k].1))
  }

  /** Nothing is found exactly when either tag is missing. */
  lemma EnvironmentEmpty(env: string, data: string, onlyContent: bool)
    ensures Environment(env, data, onlyContent) == []
        <==> !Contains(data, "begin{" + env) || !Contains(data, "end{" + env)
  {
    var begins := FindAllFrom(data, "begin{" + env, 0);
    var ends := MatchesToEol(data, "end{" + env, 0);
    assert begins == [] <==> !Contains(data, "begin{" + env);
    assert ends == [] <==> !Contains(data, "end{" + env);
  }

  /** One environment, written `\\begin{env}x\\end{env...`, with no other
      opening or closing tag: the content is x. */
  lemma EnvironmentSingle(env: string, data: string, pre: string, x: string, post: string)
    requires data == pre + ("begin{" + env) + "}" + x + "\\" + ("end{" + env) + post
    requires forall p :: OccursAt(data, "begin{" + env, p) ==> p == |pre|
    requires forall p :: OccursAt(data, "end{" + env, p) ==> p == |pre| + |env| + |x| + 8
    ensures Environment(env, data, true) == [x]
  {
    EnvironmentPieces(env, data, pre, x, post);
    ContentOnce(env, data, |pre|, |pre| + |env| + |x| + 8, x);
  }

  /** The same environment in full: from one character before `begin` to
      the end of the closing line, which is the end of the text when no
      line break follows. */
  lemma EnvironmentSingleWhole(env: string, data: string, pre: string, x: string, post: string)
    requires data == pre + ("begin{" + env) + "}" + x + "\\" + ("end{" + env) + post
    requires forall p :: OccursAt(data, "begin{" + env, p) ==> p == |pre|
    requires forall p :: OccursAt(data, "end{" + env, p) ==> p == |pre| + |env| + |x| + 8
    requires |pre| > 0
    ensures Environment(env, data, false) == [data[|pre| - 1..EndOfLine(data, |pre| + 2 * |env| + |x| + 12)]]
    ensures '\n' !in post ==> Environment(env, data, false) == [data[|pre| - 1..]]
  {
    var q := |pre| + |env| + |x| + 8;
    var c := |pre| + 2 * |env| + |x| + 12;
    EnvironmentPieces(env, data, pre, x, post);
    TagsOnce(env, data, |pre|, q, c);
    EnvironmentWhole(env, data, |pre|, q, c, post);
  }

  /** Where the tags and the enclosed text of such a source lie. */
  lemma EnvironmentPieces(env: string, data: string, pre: string, x: string, post: string)
    requires data == pre + ("begin{" + env) + "}" + x + "\\" + ("end{" + env) + post
    ensures OccursAt(data, "begin{" + env, |pre|)
    ensures OccursAt(data, "end{" + env, |pre| + |env| + |x| + 8)
    ensures data[|pre| + |env| + 7..|pre| + |env| + |x| + 7] == x
    ensures data[|pre| + 2 * |env| + |x| + 12..] == post
  {
  }

  /** Tags that occur once only are found once. */
  lemma TagsOnce(env: string, data: string, i: nat, q: nat, c: nat)
    requires c == q + 4 + |env|
    requires OccursAt(data, "begin{" + env, i)
    requires OccursAt(data, "end{" + env, q)
    requires forall p :: OccursAt(data, "begin{" + env, p) ==> p == i
    requires forall p :: OccursAt(data, "end{" + env, p) ==> p == q
    ensures FindAllFrom(data, "begin{" + env, 0) == [i]
    ensures MatchesToEol(data, "end{" + env, 0) == [(q, EndOfLine(data, c))]
  {
    FindAllSingle(data, "begin{" + env, i);
    MatchesToEolSingle(data, "end{" + env, q);
  }

  /** The only opening tag at i and the only closing tag at q enclose x. */
  lemma ContentOnce(env: string, data: string, i: nat, q: nat, x: string)
    requires OccursAt(data, "begin{" + env, i) && OccursAt(data, "end{" + env, q)
    requires forall p :: OccursAt(data, "begin{" + env, p) ==> p == i
    requires forall p :: OccursAt(data, "end{" + env, p) ==> p == q
    requires i + |env| + 7 <= q - 1 && data[i + |env| + 7..q - 1] == x
    ensures Environment(env, data, true) == [x]
  {
    TagsOnce(env, data, i, q, q + 4 + |env|);
    EnvironmentContent(env, data, i, q, EndOfLine(data, q + 4 + |env|), x);
  }

  /** The one pair of tags, at i and q, encloses x. */
  lemma EnvironmentContent(env: string, data: string, i: nat, q: nat, e: nat, x: string)
    requires FindAllFrom(data, "begin{" + env, 0) == [i]
    requires MatchesToEol(data, "end{" + env, 0) == [(q, e)]
    requires i + |env| + 7 <= q - 1 <= |data| && data[i + |env| + 7..q - 1] == x
    ensures Environment(env, data, true) == [x]
  {
    ContentSlice(env, data, i, q, e);
  }

  /** The one pair of tags, at i and q, with post after the closing tag,
      gives one full environment. */
  lemma EnvironmentWhole(env: string, data: string, i: nat, q: nat, c: nat, post: string)
    requires 0 < i < q < c <= |data|
    requires FindAllFrom(data, "begin{" + env, 0) == [i]
    requires MatchesToEol(data, "end{" + env, 0) == [(q, EndOfLine(data, c))]
    requires data[c..] == post
    ensures Environment(env, data, false) == [data[i - 1..EndOfLine(data, c)]]
    ensures '\n' !in post ==> Environment(env, data, false) == [data[i - 1..]]
  {
    WholeSlice(env, data, i, q, EndOfLine(data, c));
    if '\n' !in post {
      EndOfLineAbsent(data, c);
      assert data[i - 1..|data|] == data[i - 1..];
    }
  }

  lemma ContentSlice(env: string, data: string, i: nat, q: nat, e: nat)
    requires FindAllFrom(data, "begin{" + env, 0) == [i]
    requires MatchesToEol(data, "end{" + env, 0) == [(q, e)]
    ensures Environment(env, data, true) == [PySlice(data, i + |env| + 7, (q as int) - 1)]
  {
    var r := Environment(env, data, true);
    assert |"begin{" + env| == |env| + 6;
    assert |r| == 1 && r[0] == PySlice(data, i + |env| + 7, (q as int) - 1);
  }

  lemma WholeSlice(env: string, data: string, i: nat, q: nat, e: nat)
    requires FindAllFrom(data, "begin{" + env, 0) == [i]
    requires MatchesToEol(data, "end{" + env, 0) == [(q, e)]
    ensures Environment(env, data, false) == [PySlice(data, (i as int) - 1, e)]
  {
  }

  /** With no line break after from, the line runs to the end of the text. */
  lemma EndOfLineAbsent(s: string, from: nat)
    requires from <= |s| && '\n' !in s[from..]
    ensures EndOfLine(s, from) == |s|
  {
  }

  /** A one-environment text: the content is what the tags enclose, the
      full form the whole text. */
  lemma EnvironmentExample(data: string)
    requires data == "\\begin{a}\nHi\n\\end{a}"
    ensures Environment("a", data, true) == ["\nHi\n"]
    ensures Environment("a", data, false) == [data]
  {
    assert "begin{" + "a" == "begin{a";
    assert "end{" + "a" == "end{a";
    assert data == "\\" + "begin{a" + "}\nHi\n\\" + "end{a" + "}";
    EnvironmentExampleBegins(data);
    EnvironmentExampleEnds(data);
    EnvironmentExampleInner(data);
    EnvironmentExampleWhole(data);
  }

  lemma EnvironmentExampleInner(data: string)
    requires data == "\\" + "begin{a" + "}\nHi\n\\" + "end{a" + "}"
    requires FindAllFrom(data, "begin{a", 0) == [1]
    requires MatchesToEol(data, "end{a", 0) == [(14, 20)]
    ensures Environment("a", data, true) == ["\nHi\n"]
  {
    assert "begin{" + "a" == "begin{a";
    assert "end{" + "a" == "end{a";
    var r := Environment("a", data, true);
    assert |r| == 1;
    assert r[0] == "\nHi\n" by {
      assert r[0] == PySlice(data, 1 + 7 + 1, 14 - 1);
      assert data[9..13] == "\nHi\n";
    }
  }

  lemma EnvironmentExampleWhole(data: string)
    requires data == "\\" + "begin{a" + "}\nHi\n\\" + "end{a" + "}"
    requires FindAllFrom(data, "begin{a", 0) == [1]
    requires MatchesToEol(data, "end{a", 0) == [(14, 20)]
    ensures Environment("a", data, false) == [data]
  {
    assert "begin{" + "a" == "begin{a";
    assert "end{" + "a" == "end{a";
    var r := Environment("a", data, false);
    assert |r| == 1;
    assert r[0] == data by {
      assert r[0] == PySlice(data, 1 - 1, 20);
      assert data[0..20] == data;
    }
  }

  lemma EnvironmentExampleBegins(data: string)
    requires data == "\\" + "begin{a" + "}\nHi\n\\" + "end{a" + "}"
    ensures FindAllFrom(data, "begin{a", 0) == [1]
  {
    assert data[1..8] == "begin{a";
    assert data[8..20] == "}\nHi\n\\end{a}";
    Mismatch(data, "begin{a", 0, 0);
    FindFromFirst(data, "begin{a", 0, 1);
    FirstCharAbsent(data, "begin{a", 8, 20);
    FindFromNone(data, "begin{a", 8);
  }

  lemma EnvironmentExampleEnds(data: string)
    requires data == "\\" + "begin{a" + "}\nHi\n\\" + "end{a" + "}"
    ensures MatchesToEol(data, "end{a", 0) == [(14, 20)]
  {
    assert data[0..2] == "\\b";
    assert data[3..14] == "gin{a}\nHi\n\\";
    assert data[14..19] == "end{a";
    FirstCharAbsent(data, "end{a", 0, 2);
    Mismatch(data, "end{a", 2, 3);
    FirstCharAbsent(data, "end{a", 3, 14);
    FindFromFirst(data, "end{a", 0, 14);
    assert EndOfLine(data, 19) == 20;
    assert FindFrom(data, "end{a", 20) == None;
  }
}
