/** ArXivPaper: an arXiv listing entry with its author list and the authors
    to highlight; the author strings shown for it; and the two passes that
    look for listed family names among the authors of many papers
    (highlight_papers keeps every paper, filter_papers only those that
    cite a listed name). */
module Papers {
  import opened Wrappers
  import opened Strings

  /* ---------- the author string ---------- */

  /** `\hl{name}`: how a highlighted author is marked. */
  function Hl(name: string): (r: string)
    ensures |r| == |name| + 5
  {
    "\\hl{" + name + "}"
  }

  /** Different names get different marks. */
  lemma HlInjective(a: string, b: string)
    requires Hl(a) == Hl(b)
    ensures a == b
  {
    assert a == Hl(a)[4..|Hl(a)| - 1];
    assert b == Hl(b)[4..|Hl(b)| - 1];
  }

  /** One turn of the loop in ArXivPaper.authors: every occurrence of the
      name marked, when it occurs. For a non-empty name the `in` test
      changes nothing, since replacing a missing name is the identity. */
  function HighlightOne(authors: string, name: string): (r: string)
    ensures name != [] ==> r == Replace(authors, name, Hl(name))
    ensures Contains(authors, name) ==> Contains(r, Hl(name))
  {
    if Contains(authors, name) then
      ReplaceContains(authors, name, Hl(name));
      Replace(authors, name, Hl(name))
    else authors
  }

  /** The loop of ArXivPaper.authors over the highlighted names, in order. */
  function HighlightAll(authors: string, names: seq<string>): string
    decreases |names|
  {
    if names == [] then authors
    else HighlightOne(HighlightAll(authors, names[..|names| - 1]), names[|names| - 1])
  }

  /** ArXivPaper.authors: the names joined with ", ", each highlighted name
      marked. */
  function AuthorsOf(list: seq<string>, highlights: seq<string>): string {
    HighlightAll(JoinWith(", ", list), highlights)
  }

  /** Highlighted names that do not occur leave the author string as the
      plain join. */
  lemma {:induction false} HighlightAbsent(s: string, names: seq<string>)
    requires forall k :: 0 <= k < |names| ==> names[k] != [] && !Contains(s, names[k])
    ensures HighlightAll(s, names) == s
    decreases |names|
  {
    if names != [] {
      HighlightAbsent(s, names[..|names| - 1]);
    }
  }

  /** Marking only lengthens the author string. */
  lemma {:induction false} HighlightLonger(s: string, names: seq<string>)
    ensures |HighlightAll(s, names)| >= |s|
    decreases |names|
  {
    if names != [] {
      var front := HighlightAll(s, names[..|names| - 1]);
      HighlightLonger(s, names[..|names| - 1]);
      var name := names[|names| - 1];
      ReplaceLonger(front, name, Hl(name));
    }
  }

  lemma {:induction false} ReplaceLonger(s: string, pat: string, repl: string)
    requires |repl| >= |pat|
    ensures |Replace(s, pat, repl)| >= |s|
    decreases |s|
  {
    if pat == [] {
      InterleaveLonger(s, repl);
    } else {
      var f := Find(s, pat);
      if f.Some? {
        var i := f.value;
        var j := i + |pat|;
        FindBounds(s, pat, i, j);
        ReplaceStep(s, pat, repl, i, j);
        ReplaceLonger(s[j..], pat, repl);
      }
    }
  }

  lemma {:induction false} InterleaveLonger(s: string, repl: string)
    ensures |Interleave(s, repl)| >= |s|
    decreases |s|
  {
    if s != [] {
      InterleaveLonger(s[1..], repl);
    }
  }

  /** n names joined with ", " take at least 2(n - 1) characters. */
  lemma {:induction false} JoinLength(xs: seq<string>)
    requires xs != []
    ensures |JoinWith(", ", xs)| >= 2 * (|xs| - 1)
    decreases |xs|
  {
    if |xs| > 1 {
      JoinLength(xs[1..]);
    }
  }

  /* ---------- the short author string ---------- */

  /** Some highlighted name occurs in the first author's name. */
  predicate MentionsAny(first: string, highlights: seq<string>) {
    exists k :: 0 <= k < |highlights| && Contains(first, highlights[k])
  }

  /** The marked highlighted names other than the first author, in order;
      the first author is never listed again. */
  function Incl(highlights: seq<string>, first: string): (r: seq<string>)
    ensures |r| <= |highlights|
    ensures Hl(first) !in r
    ensures forall x :: x in r <==>
      exists k :: 0 <= k < |highlights| && highlights[k] != first && x == Hl(highlights[k])
    decreases |highlights|
  {
    if highlights == [] then []
    else
      var init := highlights[..|highlights| - 1];
      var front := Incl(init, first);
      var name := highlights[|highlights| - 1];
      assert forall k :: 0 <= k < |init| ==> init[k] == highlights[k];
      if name != first then
        assert Hl(first) != Hl(name) by {
          if Hl(first) == Hl(name) {
            HlInjective(first, name);
          }
        }
        front + [Hl(name)]
      else front
  }

  /** Incl keeps the order of the highlighted names: the names of a + b
      are listed as those of a followed by those of b. */
  lemma {:induction false} InclConcat(a: seq<string>, b: seq<string>, first: string)
    ensures Incl(a + b, first) == Incl(a, first) + Incl(b, first)
    decreases |b|
  {
    if b == [] {
      assert a + b == a;
    } else {
      var c := a + b;
      assert c[..|c| - 1] == a + b[..|b| - 1];
      assert c[|c| - 1] == b[|b| - 1];
      InclConcat(a, b[..|b| - 1], first);
    }
  }

  /** The short form: the first author (marked when a highlighted name
      occurs in it) and "et al.", then the other highlighted names. */
  function Abbreviated(list: seq<string>, highlights: seq<string>): string
    requires list != []
  {
    var first := list[0];
    var head := if MentionsAny(first, highlights) then Hl(first) + ", et al." else first + ", et al.";
    if |highlights| > 0 then head + "; incl. " + JoinWith(",", Incl(highlights, first)) else head
  }

  /** ArXivPaper.short_authors as evidently intended: every author when
      there are fewer than five, the short form otherwise. */
  function ShortAuthorsOf(list: seq<string>, highlights: seq<string>): (r: string)
    ensures |list| >= 5 && highlights == [] ==> r == list[0] + ", et al."
    ensures |list| >= 5 ==> IsPrefix(list[0] + ", et al.", r) || IsPrefix(Hl(list[0]) + ", et al.", r)
  {
    if |list| < 5 then AuthorsOf(list, highlights) else Abbreviated(list, highlights)
  }

  /** ArXivPaper.short_authors as written: the test is on the length of the
      author string, not on the number of authors; None where indexing
      the first author raises. */
  function ShortAuthorsAsWritten(list: seq<string>, highlights: seq<string>): Option<string> {
    var full := AuthorsOf(list, highlights);
    if |full| < 5 then Some(full)
    else if list == [] then None
    else Some(Abbreviated(list, highlights))
  }

  /** With five or more authors the two versions agree: such an author
      string is never shorter than five characters. */
  lemma AsWrittenAgreesMany(list: seq<string>, highlights: seq<string>)
    requires |list| >= 5
    ensures ShortAuthorsAsWritten(list, highlights) == Some(ShortAuthorsOf(list, highlights))
  {
    JoinLength(list);
    HighlightLonger(JoinWith(", ", list), highlights);
  }

  /** A short author string comes from at most three authors, and the two
      versions agree on it. */
  lemma AsWrittenAgreesShort(list: seq<string>, highlights: seq<string>)
    requires |AuthorsOf(list, highlights)| < 5
    ensures |list| <= 3
    ensures ShortAuthorsAsWritten(list, highlights) == Some(ShortAuthorsOf(list, highlights))
  {
    HighlightLonger(JoinWith(", ", list), highlights);
    if list != [] {
      JoinLength(list);
    }
  }

  /** The discrepancy: a paper by one author whose name has five or more
      characters is shown as that author "et al." by the code as written,
      and as the author alone by the intended test. */
  lemma AsWrittenSingleAuthor(a: string)
    requires |a| >= 5
    ensures ShortAuthorsAsWritten([a], []) == Some(a + ", et al.")
    ensures ShortAuthorsOf([a], []) == a
  {
    assert JoinWith(", ", [a]) == a;
  }

  /* ---------- family-name matches ---------- */

  /** A name with a non-space character, as every entry of the list of
      staff names is. */
  predicate HasWord(name: string) {
    exists i :: 0 <= i < |name| && !IsSpace(name[i])
  }

  /** An author string that contains such a name has a last word. */
  lemma ContainedWord(author: string, name: string)
    requires HasWord(name) && Contains(author, name)
    ensures Words(author) != []
  {
    var i :| 0 <= i < |name| && !IsSpace(name[i]);
    var p := Find(author, name).value;
    assert author[p..p + |name|][i] == author[p + i];
    WordsNonempty(author, p + i);
  }

  /** `name in author` and `name == author.split()[-1]`: the name is the
      author's family name (last word). */
  predicate FamilyMatch(name: string, author: string) {
    Contains(author, name) && var w := Words(author); w != [] && name == w[|w| - 1]
  }

  /** The authors whose family name is name, in order. */
  function MatchesFor(name: string, authors: seq<string>): seq<string>
    decreases |authors|
  {
    if authors == [] then []
    else
      var front := MatchesFor(name, authors[..|authors| - 1]);
      var author := authors[|authors| - 1];
      if FamilyMatch(name, author) then front + [author] else front
  }

  /** What the two inner loops append to highlight_authors: for each
      listed name in turn, the authors with that family name. */
  function Matches(authors: seq<string>, names: seq<string>): seq<string>
    decreases |names|
  {
    if names == [] then []
    else Matches(authors, names[..|names| - 1]) + MatchesFor(names[|names| - 1], authors)
  }

  lemma MatchesPrefix(authors: seq<string>, names: seq<string>, j: nat)
    requires j < |names|
    ensures Matches(authors, names[..j + 1]) == Matches(authors, names[..j]) + MatchesFor(names[j], authors)
  {
    assert names[..j + 1][..j] == names[..j];
  }

  /** Some listed name is the family name of a. */
  predicate Listed(names: seq<string>, a: string)
  {
    exists k :: 0 <= k < |names| && FamilyMatch(names[k], a)
  }

  lemma ListedSnoc(names: seq<string>, a: string)
    requires names != []
    ensures Listed(names, a) <==>
      Listed(names[..|names| - 1], a) || FamilyMatch(names[|names| - 1], a)
  {
    var front := names[..|names| - 1];
    if Listed(names, a) {
      var k :| 0 <= k < |names| && FamilyMatch(names[k], a);
      if k < |front| {
        assert front[k] == names[k];
      }
    }
    if Listed(front, a) {
      var k :| 0 <= k < |front| && FamilyMatch(front[k], a);
      assert names[k] == front[k];
    }
  }

  /** Every appended author has a listed name as family name, and every
      author whose family name is listed is appended. */
  lemma {:induction false} MatchesComplete(authors: seq<string>, names: seq<string>, a: string)
    ensures a in Matches(authors, names) <==> a in authors && Listed(names, a)
    decreases |names|
  {
    if names != [] {
      var front := names[..|names| - 1];
      var name := names[|names| - 1];
      MatchesComplete(authors, front, a);
      MatchesForComplete(name, authors, a);
      ListedSnoc(names, a);
    }
  }

  lemma {:induction false} MatchesForComplete(name: string, authors: seq<string>, a: string)
    ensures a in MatchesFor(name, authors) <==> a in authors && FamilyMatch(name, a)
    decreases |authors|
  {
    if authors != [] {
      MatchesForComplete(name, authors[..|authors| - 1], a);
      assert authors == authors[..|authors| - 1] + [authors[|authors| - 1]];
    }
  }

  /* ---------- the paper ---------- */

  class ArXivPaper {
    const identifier: string
    var title: string
    /** _authors */
    var authorList: seq<string>
    var highlightAuthors: seq<string>
    var comment: string

    constructor(identifier: string)
      ensures this.identifier == identifier
      ensures title == [] && authorList == [] && highlightAuthors == [] && comment == []
    {
      this.identifier := identifier;
      title := [];
      authorList := [];
      highlightAuthors := [];
      comment := [];
    }

    /** The authors property: the joined names, marked in turn. */
    method Authors() returns (a: string)
      ensures a == AuthorsOf(authorList, highlightAuthors)
    {
      a := JoinWith(", ", authorList);
      if |highlightAuthors| > 0 {
        for k := 0 to |highlightAuthors|
          invariant a == HighlightAll(JoinWith(", ", authorList), highlightAuthors[..k])
        {
          assert highlightAuthors[..k + 1][..k] == highlightAuthors[..k];
          var name := highlightAuthors[k];
          if Contains(a, name) {
            a := Replace(a, name, Hl(name));
          }
        }
        assert highlightAuthors[..|highlightAuthors|] == highlightAuthors;
      }
    }

    /** The short_authors property, with the count of authors tested. */
    method ShortAuthors() returns (s: string)
      ensures s == ShortAuthorsOf(authorList, highlightAuthors)
    {
      if |authorList| < 5 {
        s := Authors();
        return;
      }
      var first := authorList[0];
      if MentionsAny(first, highlightAuthors) {
        s := Hl(first) + ", et al.";
      } else {
        s := first + ", et al.";
      }
      if |highlightAuthors| > 0 {
        var incl: seq<string> := [];
        for k := 0 to |highlightAuthors|
          invariant incl == Incl(highlightAuthors[..k], first)
        {
          assert highlightAuthors[..k + 1][..k] == highlightAuthors[..k];
          var name := highlightAuthors[k];
          if name != first {
            incl := incl + [Hl(name)];
          }
        }
        assert highlightAuthors[..|highlightAuthors|] == highlightAuthors;
        s := s + "; incl. " + JoinWith(",", incl);
      }
    }

    /** The two inner loops of highlight_papers and filter_papers for this
        paper: every author whose family name is listed is appended to
        highlight_authors, once per listed name that matches. */
    method HighlightFamily(names: seq<string>)
      requires forall k :: 0 <= k < |names| ==> HasWord(names[k])
      modifies this
      ensures highlightAuthors == old(highlightAuthors) + Matches(authorList, names)
      ensures authorList == old(authorList) && title == old(title) && comment == old(comment)
    {
      for j := 0 to |names|
        invariant highlightAuthors == old(highlightAuthors) + Matches(authorList, names[..j])
        invariant authorList == old(authorList) && title == old(title) && comment == old(comment)
      {
        HighlightName(names[j]);
        MatchesPrefix(authorList, names, j);
      }
      assert names[..|names|] == names;
    }

    /** The inner loop for one listed name. */
    method HighlightName(name: string)
      requires HasWord(name)
      modifies this
      ensures highlightAuthors == old(highlightAuthors) + MatchesFor(name, authorList)
      ensures authorList == old(authorList) && title == old(title) && comment == old(comment)
    {
      for m := 0 to |authorList|
        invariant authorList == old(authorList) && title == old(title) && comment == old(comment)
        invariant highlightAuthors == old(highlightAuthors) + MatchesFor(name, authorList[..m])
      {
        var author := authorList[m];
        assert authorList[..m + 1] == authorList[..m] + [author];
        if Contains(author, name) {
          ContainedWord(author, name);
          var words := Words(author);
          if name == words[|words| - 1] {
            highlightAuthors := highlightAuthors + [author];
          }
        }
      }
      assert authorList[..|authorList|] == authorList;
    }
  }

  /** Each paper is listed once. */
  ghost predicate Distinct(papers: seq<ArXivPaper>) {
    forall i, j :: 0 <= i < j < |papers| ==> papers[i] != papers[j]
  }

  /** highlight_papers: every paper kept, each with its family-name
      matches appended. */
  method HighlightPapers(papers: seq<ArXivPaper>, names: seq<string>) returns (keep: seq<ArXivPaper>)
    requires forall k :: 0 <= k < |names| ==> HasWord(names[k])
    requires Distinct(papers)
    modifies set p | p in papers
    ensures keep == papers
    ensures forall i :: 0 <= i < |papers| ==>
      && papers[i].authorList == old(papers[i].authorList)
      && papers[i].highlightAuthors == old(papers[i].highlightAuthors) + Matches(old(papers[i].authorList), names)
  {
    keep := [];
    for k := 0 to |papers|
      invariant keep == papers[..k]
      invariant forall i :: 0 <= i < k ==>
        && papers[i].authorList == old(papers[i].authorList)
        && papers[i].highlightAuthors == old(papers[i].highlightAuthors) + Matches(old(papers[i].authorList), names)
      invariant forall i :: k <= i < |papers| ==>
        papers[i].authorList == old(papers[i].authorList) && papers[i].highlightAuthors == old(papers[i].highlightAuthors)
    {
      papers[k].HighlightFamily(names);
      keep := keep + [papers[k]];
    }
  }

  /** Some listed name occurs in the joined author string. */
  predicate Cites(authors: string, names: seq<string>) {
    exists k :: 0 <= k < |names| && Contains(authors, names[k])
  }

  /** The papers whose author string cites a listed name, in order. */
  ghost function Kept(papers: seq<ArXivPaper>, names: seq<string>): (r: seq<ArXivPaper>)
    reads set p | p in papers
    ensures |r| <= |papers|
    decreases |papers|
  {
    if papers == [] then []
    else
      var p := papers[|papers| - 1];
      Kept(papers[..|papers| - 1], names)
        + if Cites(AuthorsOf(p.authorList, p.highlightAuthors), names) then [p] else []
  }

  /** filter_papers: the papers that cite a listed name, in order, each
      with its family-name matches appended; the others untouched. */
  method FilterPapers(papers: seq<ArXivPaper>, names: seq<string>) returns (keep: seq<ArXivPaper>)
    requires forall k :: 0 <= k < |names| ==> HasWord(names[k])
    requires Distinct(papers)
    modifies set p | p in papers
    ensures keep == old(Kept(papers, names))
    ensures forall i :: 0 <= i < |papers| ==>
      && papers[i].authorList == old(papers[i].authorList)
      && papers[i].highlightAuthors == old(papers[i].highlightAuthors)
           + if old(Cites(AuthorsOf(papers[i].authorList, papers[i].highlightAuthors), names))
             then Matches(old(papers[i].authorList), names) else []
  {
    keep := [];
    for k := 0 to |papers|
      invariant keep == old(Kept(papers[..k], names))
      invariant forall i :: 0 <= i < k ==>
        && papers[i].authorList == old(papers[i].authorList)
        && papers[i].highlightAuthors == old(papers[i].highlightAuthors)
             + if old(Cites(AuthorsOf(papers[i].authorList, papers[i].highlightAuthors), names))
               then Matches(old(papers[i].authorList), names) else []
      invariant forall i :: k <= i < |papers| ==>
        papers[i].authorList == old(papers[i].authorList) && papers[i].highlightAuthors == old(papers[i].highlightAuthors)
    {
      assert papers[..k + 1][..k] == papers[..k];
      var paper := papers[k];
      var authors := paper.Authors();
      if Cites(authors, names) {
        paper.HighlightFamily(names);
        keep := keep + [paper];
      }
    }
    assert papers[..|papers|] == papers;
  }
}
