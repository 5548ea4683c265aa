/** Document: a LaTeX source split into header and body, with its macros,
    its figures numbered from 1 in document order and counted by the
    `\ref{label}` citations of their labels, and its abstract, found by a
    chain of fallbacks and cleaned of empty lines. */
module Documents {
  import opened Wrappers
  import opened Strings
  import opened Command
  import opened Latex
  import opened Figures

  const AbstractName := "abstract"

  /* ---------- figure references ---------- */

  /** The text `\ref{label}` that cites a figure. */
  function RefTag(name: string): string {
    "\\ref{" + name + "}"
  }

  /** The reference count _update_figure_references gives a labelled
      figure: the non-overlapping citations of its label in the source. */
  function References(code: string, name: string): nat {
    CountOccurrences(code, RefTag(name))
  }

  /** The count is that of the leftmost scan: it finds citations only
      where they occur, never two that overlap, and every citation in the
      source lies within one it finds. */
  lemma ReferencesCount(code: string, name: string)
    ensures var ps := FindAllFrom(code, RefTag(name), 0);
      && References(code, name) == |ps|
      && (forall k :: 0 <= k < |ps| ==> OccursAt(code, RefTag(name), ps[k]))
      && (forall k :: 0 < k < |ps| ==> ps[k - 1] + |RefTag(name)| <= ps[k])
      && forall p: nat :: OccursAt(code, RefTag(name), p) ==> Covered(ps, |RefTag(name)|, p)
  {
    forall p: nat | OccursAt(code, RefTag(name), p)
      ensures Covered(FindAllFrom(code, RefTag(name), 0), |RefTag(name)|, p)
    {
      FindAllComplete(code, RefTag(name), 0, p);
    }
  }

  /** A label is cited at least once exactly when its `\ref` occurs. */
  lemma ReferencedIff(code: string, name: string)
    ensures References(code, name) > 0 <==> Contains(code, RefTag(name))
  {
    var all := FindAllFrom(code, RefTag(name), 0);
    assert all != [] <==> FindFrom(code, RefTag(name), 0).Some?;
  }

  /** Every citation of the label adds one: a source that is a citation
      followed by more text counts one more than that text, when the
      citation is its own occurrence. */
  lemma ReferencesPrefix(code: string, name: string)
    ensures References(RefTag(name) + code, name) == References(code, name) + 1
  {
    var t := RefTag(name);
    var s := t + code;
    assert OccursAt(s, t, 0);
    FindFromFirst(s, t, 0, 0);
    assert s[|t|..] == code;
    ShiftedFindAll(s, code, t, |t|, 0, |t|);
  }

  /** Document._update_figure_references for one figure: a labelled figure
      gets the citations of its label, an unlabelled one keeps its count. */
  function Updated(code: string, info: Info, count: int): int {
    match info.labelText
    case Some(l) => References(code, l)
    case None => count
  }

  /* ---------- abstract ---------- */

  /** The lines that are not empty, in order. */
  function NonEmpty(ls: seq<string>): (r: seq<string>)
    ensures forall k :: 0 <= k < |r| ==> r[k] != [] && r[k] in ls
    ensures forall x :: x in r <==> x in ls && x != []
    ensures (forall k :: 0 <= k < |ls| ==> ls[k] != []) ==> r == ls
  {
    if ls == [] then []
    else
      var rest := NonEmpty(ls[1..]);
      assert ls == [ls[0]] + ls[1..];
      if ls[0] == [] then rest else [ls[0]] + rest
  }

  /** Filtering keeps the order: the lines of a + b that are kept are the
      kept lines of a followed by the kept lines of b. */
  lemma {:induction false} NonEmptyConcat(a: seq<string>, b: seq<string>)
    ensures NonEmpty(a + b) == NonEmpty(a) + NonEmpty(b)
    decreases |a|
  {
    if a != [] {
      assert (a + b)[1..] == a[1..] + b;
      NonEmptyConcat(a[1..], b);
    } else {
      assert a + b == b;
    }
  }

  /** The text with its empty lines removed: its non-empty lines joined
      again by newlines. */
  function Clean(s: string): string {
    JoinWith("\n", NonEmpty(SplitLines(s)))
  }

  /** The cleaned text's lines are exactly the non-empty lines of the
      text, in order. */
  lemma CleanLines(s: string)
    ensures SplitLines(Clean(s)) == NonEmpty(SplitLines(s))
  {
    var ls := NonEmpty(SplitLines(s));
    assert forall k :: 0 <= k < |ls| ==> NoLineBreak(ls[k]);
    SplitLinesJoin(ls);
  }

  /** Cleaning twice is cleaning once, so re-reading the cached abstract
      returns the same text. */
  lemma CleanTwice(s: string)
    ensures Clean(Clean(s)) == Clean(s)
  {
    CleanLines(s);
  }

  /** The abstract before cleaning: the first five groups after
      `\abstract` in the body (the A&A form) joined by newlines; failing
      that, the first group after `\abstract` in the whole source; failing
      that, the contents of every abstract environment joined by spaces. */
  function AbstractSource(code: string, body: string): string {
    match ParseCommand(AbstractName, body, 5)
    case Some(Several(items)) => JoinWith("\n", items)
    case _ =>
      match ParseCommand(AbstractName, code, 1)
      case Some(Single(t)) => t
      case _ => JoinWith(" ", Environment(AbstractName, code, true))
  }

  /** The abstract: the fallback text cleaned of its empty lines. */
  function AbstractOf(code: string, body: string): (r: string)
    ensures forall k :: 0 <= k < |SplitLines(r)| ==> SplitLines(r)[k] != []
  {
    CleanLines(AbstractSource(code, body));
    Clean(AbstractSource(code, body))
  }

  /** A source that never says "abstract" has an empty abstract: no
      command, no environment. */
  lemma NoAbstract(code: string, body: string)
    requires !Contains(code, AbstractName) && !Contains(body, AbstractName)
    ensures AbstractOf(code, body) == []
  {
    AbsentCommand(AbstractName, body, 5);
    AbsentCommand(AbstractName, code, 1);
    assert !Contains(code, "begin{" + AbstractName) by {
      if Contains(code, "begin{" + AbstractName) {
        ContainsSuffix(code, "begin{", AbstractName);
      }
    }
    EnvironmentEmpty(AbstractName, code, true);
  }

  /** With `\abstract` in the body, the abstract is its groups, one per
      line, empty lines dropped. */
  lemma AbstractFromBody(code: string, body: string)
    requires Contains(Cleaned(AbstractName, body), "\\" + SafeName(AbstractName))
    ensures ParseCommand(AbstractName, body, 5).Some?
    ensures AbstractOf(code, body) == Clean(JoinWith("\n", ParseCommand(AbstractName, body, 5).value.items))
  {
    ParseSeveral(AbstractName, body, 5);
  }

  /** Without `\abstract` in the body, the abstract is the first group
      after `\abstract` in the whole source, when there is one. */
  lemma AbstractFromSource(code: string, body: string)
    requires !Contains(Cleaned(AbstractName, body), "\\" + SafeName(AbstractName))
    requires Arguments(AbstractName, code).Some? && Arguments(AbstractName, code).value != []
    ensures AbstractOf(code, body) == Clean(Arguments(AbstractName, code).value[0])
  {
    ParseFirstGroup(AbstractName, code);
  }

  /** Without `\abstract` in the body and without a group after
      `\abstract` in the source, the abstract is the contents of the
      abstract environments, joined by spaces. */
  lemma AbstractFromEnvironment(code: string, body: string)
    requires !Contains(Cleaned(AbstractName, body), "\\" + SafeName(AbstractName))
    requires Arguments(AbstractName, code).None? || Arguments(AbstractName, code).value == []
    ensures AbstractOf(code, body) == Clean(JoinWith(" ", Environment(AbstractName, code, true)))
  {
  }

  /** In particular, a source with one abstract environment, and
      `\\abstract` nowhere else to take it from, has that environment's
      content as its abstract. */
  lemma AbstractFromOneEnvironment(code: string, body: string, pre: string, x: string, post: string)
    requires !Contains(Cleaned(AbstractName, body), "\\" + SafeName(AbstractName))
    requires Arguments(AbstractName, code).None? || Arguments(AbstractName, code).value == []
    requires code == pre + ("begin{" + AbstractName) + "}" + x + "\\" + ("end{" + AbstractName) + post
    requires forall p :: OccursAt(code, "begin{" + AbstractName, p) ==> p == |pre|
    requires forall p :: OccursAt(code, "end{" + AbstractName, p) ==> p == |pre| + |AbstractName| + |x| + 8
    ensures AbstractOf(code, body) == Clean(x)
  {
    AbstractFromEnvironment(code, body);
    EnvironmentSingle(AbstractName, code, pre, x, post);
    assert JoinWith(" ", [x]) == x;
  }

  /* ---------- the document ---------- */

  /** The figures are different objects. */
  ghost predicate Distinct(figs: seq<Figure>) {
    forall i, j :: 0 <= i < j < |figs| ==> figs[i] != figs[j]
  }

  class Document {
    const code: string
    const header: string
    const body: string
    const macros: string
    var figures: seq<Figure>
    /** The cached abstract (_abstract), None until first read. */
    var abstractText: Option<string>

    /** The cache holds nothing or the cleaned abstract. */
    ghost predicate Valid()
      reads this
    {
      abstractText.None? || abstractText == Some(AbstractOf(code, body))
    }

    /** Document(data): header, body and macros of the source; one figure
        per figure block, numbered from 1, with its reference count. The
        source raises when a document marker is missing; Open models that. */
    constructor(data: string)
      requires Body(data).Some?
      ensures code == data && Header(data) == Some(header) && Body(data) == Some(body)
      ensures macros == MacroText(header)
      ensures |figures| == |FigureBlocks(body)| && Distinct(figures)
      ensures forall i :: 0 <= i < |figures| ==> fresh(figures[i])
      ensures forall i :: 0 <= i < |figures| ==>
        figures[i].nReferences == Updated(data, figures[i].info, 0)
      ensures Numbered(figures, FigureBlocks(body)) && AllParsed(figures)
      ensures abstractText.None? && Valid()
    {
      var b := Body(data).value;
      var h := Header(data).value;
      var figs := LoadFigures(data, b);
      code := data;
      header := h;
      body := b;
      macros := MacroText(h);
      figures := figs;
      abstractText := None;
    }

    /** _update_figure_references: every labelled figure gets the number
        of citations of its label, the others keep theirs. */
    method UpdateFigureReferences()
      modifies set i | 0 <= i < |figures| :: figures[i]
      ensures forall i :: 0 <= i < |figures| ==>
        figures[i].nReferences == Updated(code, figures[i].info, old(figures[i].nReferences))
    {
      UpdateReferences(code, figures);
    }

    /** The abstract property: the fallback text, cleaned, and cached. */
    method Abstract() returns (a: string)
      requires Valid()
      modifies this
      ensures a == AbstractOf(code, body)
      ensures abstractText == Some(a) && figures == old(figures) && Valid()
    {
      if abstractText.None? {
        abstractText := Some(AbstractSource(code, body));
      } else {
        CleanTwice(AbstractSource(code, body));
      }
      a := Clean(abstractText.value);
      abstractText := Some(a);
    }
  }

  /** The k-th figure is that of the k-th block, numbered k (from 1). */
  ghost predicate Numbered(figs: seq<Figure>, blocks: seq<string>) {
    && |figs| == |blocks|
    && forall i :: 0 <= i < |figs| ==> figs[i].code == blocks[i] && figs[i].number == i + 1
  }

  /** Every figure's info is what _parse reads from its block. */
  ghost predicate AllParsed(figs: seq<Figure>) {
    forall i :: 0 <= i < |figs| ==> figs[i].Parsed()
  }

  /** [Figure(k, e) for e, k in enumerate(blocks, 1)]: a new figure per
      block, numbered from 1, with no references yet. */
  method NumberedFigures(blocks: seq<string>) returns (figs: seq<Figure>)
    ensures |figs| == |blocks| && Distinct(figs)
    ensures forall i :: 0 <= i < |figs| ==> fresh(figs[i])
    ensures Numbered(figs, blocks) && AllParsed(figs)
    ensures forall i :: 0 <= i < |figs| ==> figs[i].nReferences == 0
  {
    figs := [];
    for e := 0 to |blocks|
      invariant Numbered(figs, blocks[..e])
      invariant AllParsed(figs)
      invariant Distinct(figs)
      invariant forall i :: 0 <= i < |figs| ==> fresh(figs[i])
      invariant forall i :: 0 <= i < |figs| ==> figs[i].nReferences == 0
    {
      var f := new Figure(blocks[e], e + 1);
      assert f !in figs;
      FiguresSnoc(figs, blocks, e, f);
      figs := figs + [f];
    }
    assert blocks[..|blocks|] == blocks;
  }

  lemma FiguresSnoc(figs: seq<Figure>, blocks: seq<string>, e: nat, f: Figure)
    requires e < |blocks| && Numbered(figs, blocks[..e]) && AllParsed(figs) && Distinct(figs)
    requires f.code == blocks[e] && f.number == e + 1 && f.Parsed() && f !in figs
    ensures Numbered(figs + [f], blocks[..e + 1]) && AllParsed(figs + [f]) && Distinct(figs + [f])
  {
    NumberedSnoc(figs, blocks, e, f);
    ParsedSnoc(figs, f);
    DistinctSnoc(figs, f);
  }

  lemma ParsedSnoc(figs: seq<Figure>, f: Figure)
    requires AllParsed(figs) && f.Parsed()
    ensures AllParsed(figs + [f])
  {
    var g := figs + [f];
    forall i | 0 <= i < |g|
      ensures g[i].Parsed()
    {
      if i < |figs| { assert g[i] == figs[i]; } else { assert g[i] == f; }
    }
  }

  lemma DistinctSnoc(figs: seq<Figure>, f: Figure)
    requires Distinct(figs) && f !in figs
    ensures Distinct(figs + [f])
  {
  }

  lemma NumberedSnoc(figs: seq<Figure>, blocks: seq<string>, e: nat, f: Figure)
    requires e < |blocks| && Numbered(figs, blocks[..e])
    requires f.code == blocks[e] && f.number == e + 1
    ensures Numbered(figs + [f], blocks[..e + 1])
  {
    assert blocks[..e + 1] == blocks[..e] + [blocks[e]];
  }

  /** The figures of a new document: one per block of the body, numbered,
      with the reference counts _update_figure_references sets. */
  method LoadFigures(code: string, body: string) returns (figs: seq<Figure>)
    ensures |figs| == |FigureBlocks(body)| && Distinct(figs)
    ensures forall i :: 0 <= i < |figs| ==> fresh(figs[i])
    ensures Numbered(figs, FigureBlocks(body)) && AllParsed(figs)
    ensures forall i :: 0 <= i < |figs| ==> figs[i].nReferences == Updated(code, figs[i].info, 0)
  {
    figs := NumberedFigures(FigureBlocks(body));
    UpdateReferences(code, figs);
  }

  /** The loop of _update_figure_references over the figures of a text. */
  method UpdateReferences(code: string, figs: seq<Figure>)
    modifies set i | 0 <= i < |figs| :: figs[i]
    ensures forall i :: 0 <= i < |figs| ==>
      figs[i].nReferences == Updated(code, figs[i].info, old(figs[i].nReferences))
  {
    for k := 0 to |figs|
      invariant forall i :: 0 <= i < |figs| ==>
        figs[i].nReferences ==
          if figs[i] in figs[..k] then Updated(code, figs[i].info, old(figs[i].nReferences))
          else old(figs[i].nReferences)
    {
      var fig := figs[k];
      assert forall i :: 0 <= i < |figs| ==>
        (figs[i] in figs[..k + 1] <==> figs[i] in figs[..k] || figs[i] == fig);
      if fig.info.labelText.Some? {
        var n := CountOccurrences(code, RefTag(fig.info.labelText.value));
        fig.SetNumberOfReferences(n);
      }
    }
    assert figs[..|figs|] == figs;
  }

  /** Document(data), with the exception the source raises when a document
      marker is missing as None. */
  method Open(data: string) returns (d: Option<Document>)
    ensures d.None? <==> !Contains(data, BeginDocument) || !Contains(data, EndDocument)
    ensures d.Some? ==> fresh(d.value) && d.value.code == data && d.value.Valid()
  {
    if Body(data).None? {
      d := None;
    } else {
      var doc := new Document(data);
      d := Some(doc);
    }
  }
}
