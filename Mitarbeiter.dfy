/** get_mitarbeiter: the authors of interest, one per line of a list, each
    reduced to initials and family name ("Inga-Marie Groot" becomes
    "I.-M. Groot"), then sorted with repeats dropped. Lines starting with
    '#' are comments. The file is given as the lines Python's file
    iteration yields, each with its line break; an IndexError the source
    raises on a line makes the whole result None. */
module Mitarbeiter {
  import opened Wrappers
  import opened Strings
  import opened StringOrder

  /** The initial of a word: its first letter followed by a period, or
      None for an empty word, where indexing it raises. */
  function Initial(w: string): Option<string> {
    if w == [] then None else Some([w[0], '.'])
  }

  /** One initial per piece, in order, or None when a piece is empty. */
  function Initials(pieces: seq<string>): (r: Option<seq<string>>)
    ensures r.Some? <==> forall k :: 0 <= k < |pieces| ==> pieces[k] != []
    ensures r.Some? ==> |r.value| == |pieces|
    ensures r.Some? ==> forall k :: 0 <= k < |pieces| ==> r.value[k] == [pieces[k][0], '.']
    decreases |pieces|
  {
    if pieces == [] then Some([])
    else
      var n := |pieces| - 1;
      assert forall k :: 0 <= k < n ==> pieces[..n][k] == pieces[k];
      match Initials(pieces[..n])
      case None => None
      case Some(inits) =>
        match Initial(pieces[n])
        case None => None
        case Some(i) => Some(inits + [i])
  }

  /** One more piece adds its initial. */
  lemma InitialsSnoc(ps: seq<string>, inits: seq<string>, p: string)
    requires Initials(ps) == Some(inits) && p != []
    ensures Initials(ps + [p]) == Some(inits + [[p[0], '.']])
  {
    assert (ps + [p])[..|ps|] == ps;
  }

  /** What a word before the family name becomes: for a hyphenated word
      the initials of its parts joined by '-', otherwise its initial. */
  function Abbreviation(w: string): Option<string> {
    if '-' in w then
      match Initials(SplitOn(w, '-'))
      case None => None
      case Some(inits) => Some(JoinWith("-", inits))
    else Initial(w)
  }

  /** shortname before the family name is appended: the abbreviation of
      every word, or None as soon as one raises. */
  function Abbreviations(ws: seq<string>): (r: Option<seq<string>>)
    ensures r.Some? <==> forall k :: 0 <= k < |ws| ==> Abbreviation(ws[k]).Some?
    ensures r.Some? ==> |r.value| == |ws|
    ensures r.Some? ==> forall k :: 0 <= k < |ws| ==> Some(r.value[k]) == Abbreviation(ws[k])
    decreases |ws|
  {
    if ws == [] then Some([])
    else
      var n := |ws| - 1;
      assert forall k :: 0 <= k < n ==> ws[..n][k] == ws[k];
      match Abbreviations(ws[..n])
      case None => None
      case Some(ab) =>
        match Abbreviation(ws[n])
        case None => None
        case Some(a) => Some(ab + [a])
  }

  /** What one line of the file contributes. */
  datatype Entry = Comment | Name(short: string) | Broken

  /** A line starting with '#' is a comment; any other line becomes its
      words with all but the last abbreviated, joined by spaces. An empty
      line, a line of whitespace only (no last word) and a hyphenated word
      with an empty part raise IndexError. */
  function EntryOf(line: string): Entry {
    if line == [] then Broken
    else if line[0] == '#' then Comment
    else
      var ws := Words(line);
      if ws == [] then Broken
      else
        match Abbreviations(ws[..|ws| - 1])
        case None => Broken
        case Some(ab) => Name(JoinWith(" ", ab + [ws[|ws| - 1]]))
  }

  /** The entry of every line, in file order. */
  function Entries(lines: seq<string>): (es: seq<Entry>)
    ensures |es| == |lines|
  {
    seq(|lines|, k requires 0 <= k < |lines| => EntryOf(lines[k]))
  }

  /** The list mitarbeiter once every entry is read, or None when a line
      raised. */
  function Collected(es: seq<Entry>): Option<seq<string>>
    decreases |es|
  {
    if es == [] then Some([])
    else
      var n := |es| - 1;
      match Collected(es[..n])
      case None => None
      case Some(m) =>
        match es[n]
        case Comment => Some(m)
        case Name(s) => Some(m + [s])
        case Broken => None
  }

  /** get_mitarbeiter: the collected short names, without repeats, in
      ascending order; None when a line raises. */
  function MitarbeiterOf(lines: seq<string>): Option<seq<string>> {
    match Collected(Entries(lines))
    case None => None
    case Some(m) => Some(SortedSet(m))
  }

  /** Some line raises. */
  predicate HasBroken(es: seq<Entry>) {
    exists k :: 0 <= k < |es| && es[k].Broken?
  }

  /** Some line names y. */
  predicate Named(es: seq<Entry>, y: string) {
    exists k :: 0 <= k < |es| && es[k] == Name(y)
  }

  /** The list is built exactly when no line raises, and it then holds
      the short name of every name line and nothing else. */
  lemma {:induction false} CollectedLines(es: seq<Entry>)
    ensures Collected(es).None? <==> HasBroken(es)
    ensures Collected(es).Some? ==>
      forall y :: y in Collected(es).value <==> Named(es, y)
    decreases |es|
  {
    if es != [] {
      var n := |es| - 1;
      var p := es[..n];
      CollectedLines(p);
      assert forall k :: 0 <= k < n ==> p[k] == es[k];
      assert HasBroken(es) <==> HasBroken(p) || es[n].Broken?;
      assert forall y :: Named(es, y) <==> Named(p, y) || es[n] == Name(y);
    }
  }

  /** get_mitarbeiter fails exactly when a line raises; otherwise its
      result is strictly increasing (sorted, no repeats) and holds exactly
      the short names of the name lines. */
  lemma MitarbeiterSorted(lines: seq<string>)
    ensures MitarbeiterOf(lines).None? <==> HasBroken(Entries(lines))
    ensures MitarbeiterOf(lines).Some? ==> StrictlySorted(MitarbeiterOf(lines).value)
    ensures MitarbeiterOf(lines).Some? ==>
      forall y :: y in MitarbeiterOf(lines).value <==> Named(Entries(lines), y)
  {
    CollectedLines(Entries(lines));
  }

  /** Only the names matter: two files that name the same people, in any
      order, with repeats or comments, give the same list. */
  lemma MitarbeiterSameNames(lines: seq<string>, lines': seq<string>)
    requires !HasBroken(Entries(lines)) && !HasBroken(Entries(lines'))
    requires forall y :: Named(Entries(lines), y) <==> Named(Entries(lines'), y)
    ensures MitarbeiterOf(lines).Some? && MitarbeiterOf(lines) == MitarbeiterOf(lines')
  {
    MitarbeiterSorted(lines);
    MitarbeiterSorted(lines');
    SortedUnique(MitarbeiterOf(lines).value, MitarbeiterOf(lines').value);
  }

  /** The pieces of s.split(sep) are made of characters of s. */
  lemma SplitOnChars(s: string, sep: char, k: nat, i: nat)
    requires k < |SplitOn(s, sep)| && i < |SplitOn(s, sep)[k]|
    ensures SplitOn(s, sep)[k][i] in s
  {
    var ps := SplitOn(s, sep);
    JoinChars([sep], ps);
    assert ps[k][i] in ps[k];
  }

  /** The abbreviation of a word is a word without spaces. */
  lemma AbbreviationNoSpace(w: string)
    requires IsWord(w) && Abbreviation(w).Some?
    ensures ' ' !in Abbreviation(w).value
  {
    assert IsSpace(' ');
    var a := Abbreviation(w).value;
    if '-' in w {
      var ps := SplitOn(w, '-');
      var inits := Initials(ps).value;
      forall k | 0 <= k < |inits|
        ensures ' ' !in inits[k]
      {
        SplitOnChars(w, '-', k, 0);
        var j :| 0 <= j < |w| && w[j] == ps[k][0];
        assert inits[k] == [w[j], '.'];
      }
      JoinChars("-", inits);
    }
  }

  /** The three outcomes for a word before the family name: it raises
      exactly when it is hyphenated with an empty part (a leading, trailing
      or doubled '-'); a hyphenated word otherwise splits on '-' into the
      initials of its parts; a plain word becomes its initial. */
  lemma AbbreviationForms(w: string)
    requires IsWord(w)
    ensures Abbreviation(w).None? <==>
      '-' in w && exists k :: 0 <= k < |SplitOn(w, '-')| && SplitOn(w, '-')[k] == []
    ensures '-' in w && Abbreviation(w).Some? ==>
      var ps := SplitOn(w, '-');
      var qs := SplitOn(Abbreviation(w).value, '-');
      |qs| == |ps| && forall k :: 0 <= k < |ps| ==> ps[k] != [] && qs[k] == [ps[k][0], '.']
    ensures '-' !in w ==> Abbreviation(w) == Some([w[0], '.'])
  {
    if '-' in w && Abbreviation(w).Some? {
      var ps := SplitOn(w, '-');
      var inits := Initials(ps).value;
      forall k | 0 <= k < |inits|
        ensures '-' !in inits[k]
      {
        assert ps[k][0] in ps[k];
      }
      SplitOnJoin(inits, '-');
    }
  }

  /** A name line becomes its words, all but the last abbreviated and the
      family name kept whole: splitting the short name on spaces gives one
      abbreviation per given name and then the family name. */
  lemma ShortNameParts(line: string)
    requires EntryOf(line).Name?
    ensures var ws := Words(line);
      var ps := SplitOn(EntryOf(line).short, ' ');
      && ws != [] && |ps| == |ws| && ps[|ps| - 1] == ws[|ws| - 1]
      && forall k :: 0 <= k < |ps| - 1 ==> Abbreviation(ws[k]) == Some(ps[k])
  {
    var ws := Words(line);
    var n := |ws| - 1;
    var ab := Abbreviations(ws[..n]).value;
    var xs := ab + [ws[n]];
    assert IsSpace(' ');
    forall k | 0 <= k < |xs|
      ensures ' ' !in xs[k]
    {
      if k < n {
        assert ws[..n][k] == ws[k];
        AbbreviationNoSpace(ws[k]);
      }
    }
    SplitOnJoin(xs, ' ');
    forall k | 0 <= k < n
      ensures Abbreviation(ws[k]) == Some(xs[k])
    {
      assert ws[..n][k] == ws[k];
    }
  }

  /** A full given name abbreviated: the line "Inga-Marie Groot" gives
      "I.-M. Groot", the form the source's documentation names as the
      ideal one. */
  lemma GrootExample(line: string)
    requires line == "Inga-Marie Groot\n"
    ensures EntryOf(line) == Name("I.-M. Groot")
  {
    var given, family, short := "Inga-Marie", "Groot", "I.-M.";
    GrootText(line, given, family, short);
    LiteralWord(given);
    LiteralWord(family);
    TwoWords(line, given, family);
    GrootInitials(given);
    TwoWordEntry(line, given, family, short);
  }

  /** A name already in the documented form "I.-M. Groot" is kept as it
      is: the initials of "I.-M." are "I.-M." again. */
  lemma GrootDocumentedForm(line: string)
    requires line == "I.-M. Groot\n"
    ensures EntryOf(line) == Name("I.-M. Groot")
  {
    var short, family := "I.-M.", "Groot";
    DocumentedText(line, short, family);
    LiteralWord(short);
    LiteralWord(family);
    TwoWords(line, short, family);
    DocumentedInitials(short);
    TwoWordEntry(line, short, family, short);
  }

  lemma DocumentedText(line: string, short: string, family: string)
    requires line == "I.-M. Groot\n" && short == "I.-M." && family == "Groot"
    ensures line == short + " " + family + "\n" && line[0] != '#'
    ensures short + " " + family == "I.-M. Groot"
  {
  }

  lemma DocumentedInitials(w: string)
    requires w == "I.-M."
    ensures Abbreviation(w) == Some("I.-M.")
  {
    var first, second := "I.", "M.";
    DocumentedSplit(w, first, second);
    TwoPieceAbbreviation(w, first, second);
    assert [first[0], '.'] + "-" + [second[0], '.'] == "I.-M.";
  }

  lemma DocumentedSplit(w: string, first: string, second: string)
    requires w == "I.-M." && first == "I." && second == "M."
    ensures '-' in w && SplitOn(w, '-') == [first, second]
  {
    assert w == first + "-" + second;
    assert w[2] == '-';
    assert IndexOfFrom(w, '-', 0) == 2;
    assert w[..2] == first && w[3..] == second;
    assert '-' !in second;
    assert IndexOfFrom(second, '-', 0) == 2;
  }

  /** A word of two non-empty hyphenated parts abbreviates to their
      initials joined by '-'. */
  lemma TwoPieceAbbreviation(w: string, first: string, second: string)
    requires '-' in w && SplitOn(w, '-') == [first, second] && first != [] && second != []
    ensures Abbreviation(w) == Some([first[0], '.'] + "-" + [second[0], '.'])
  {
    var i1, i2 := [first[0], '.'], [second[0], '.'];
    var r := Initials([first, second]);
    assert r.Some? && |r.value| == 2;
    assert r.value == [i1, i2];
    assert [i1, i2][1..] == [i2];
    assert JoinWith("-", [i1, i2]) == i1 + "-" + i2;
  }

  lemma GrootText(line: string, given: string, family: string, short: string)
    requires line == "Inga-Marie Groot\n"
    requires given == "Inga-Marie" && family == "Groot" && short == "I.-M."
    ensures line == given + " " + family + "\n" && line[0] != '#'
    ensures short + " " + family == "I.-M. Groot"
  {
  }

  /** A literal of letters and '-' is a word. */
  lemma LiteralWord(w: string)
    requires w == "Inga-Marie" || w == "Groot" || w == "I.-M."
    ensures IsWord(w)
  {
    forall i | 0 <= i < |w|
      ensures !IsSpace(w[i])
    {
      assert w[i] in w;
    }
  }

  /** A line of two words separated by a space, with its line break. */
  lemma TwoWords(line: string, a: string, b: string)
    requires IsWord(a) && IsWord(b) && line == a + " " + b + "\n"
    ensures Words(line) == [a, b]
  {
    assert IsSpace(' ') && IsSpace('\n');
    var i, j := |a|, |a| + 1 + |b|;
    assert line[i] == ' ' && line[j] == '\n' && |line| == j + 1;
    assert forall k :: 0 <= k < i ==> line[k] == a[k];
    assert forall k :: i < k < j ==> line[k] == b[k - i - 1];
    assert SkipSpace(line, 0) == 0 && IndexOfSpace(line, 0) == i;
    assert SkipSpace(line, i) == i + 1 && IndexOfSpace(line, i + 1) == j;
    assert SkipSpace(line, j) == |line|;
    assert line[0..i] == a && line[i + 1..j] == b;
    assert WordsFrom(line, j) == [];
    assert WordsFrom(line, i) == [b];
  }

  /** The entry of a two-word line is the abbreviated given name and the
      family name. */
  lemma TwoWordEntry(line: string, given: string, family: string, short: string)
    requires line != [] && line[0] != '#' && Words(line) == [given, family]
    requires Abbreviation(given) == Some(short)
    ensures EntryOf(line) == Name(short + " " + family)
  {
    assert Words(line)[..1] == [given];
    assert Abbreviations([given]) == Some([short]) by {
      assert [given][..0] == [] && [given][0] == given;
      assert Abbreviations([]) == Some([]);
      assert [] + [short] == [short];
    }
    var xs := [short] + [family];
    assert xs[1..] == [family];
    assert JoinWith(" ", xs) == short + " " + family;
  }

  lemma GrootInitials(w: string)
    requires w == "Inga-Marie"
    ensures Abbreviation(w) == Some("I.-M.")
  {
    var first, second := "Inga", "Marie";
    GrootSplit(w, first, second);
    TwoPieceAbbreviation(w, first, second);
    assert [first[0], '.'] + "-" + [second[0], '.'] == "I.-M.";
  }

  lemma GrootSplit(w: string, first: string, second: string)
    requires w == "Inga-Marie" && first == "Inga" && second == "Marie"
    ensures '-' in w && SplitOn(w, '-') == [first, second]
  {
    assert w == first + "-" + second;
    assert w[4] == '-';
    assert IndexOfFrom(w, '-', 0) == 4;
    assert w[..4] == first && w[5..] == second;
    assert '-' !in second;
    assert IndexOfFrom(second, '-', 0) == 5;
  }

  /** get_mitarbeiter's loop over the lines. */
  method GetMitarbeiter(lines: seq<string>) returns (r: Option<seq<string>>)
    ensures r == MitarbeiterOf(lines)
  {
    ghost var es := Entries(lines);
    var mitarbeiter: seq<string> := [];
    for i := 0 to |lines|
      invariant Collected(es[..i]) == Some(mitarbeiter)
    {
      var e := ShortName(lines[i]);
      CollectedStep(es, i, mitarbeiter);
      if e.Broken? {
        return None;
      }
      if e.Name? {
        mitarbeiter := mitarbeiter + [e.short];
      }
    }
    assert es[..|lines|] == es;
    r := Some(SortedSet(mitarbeiter));
  }

  /** One more line read: a line that raises ends the whole collection,
      any other extends the list read so far by its short name, if any. */
  lemma CollectedStep(es: seq<Entry>, i: nat, m: seq<string>)
    requires i < |es| && Collected(es[..i]) == Some(m)
    ensures es[i].Broken? ==> Collected(es).None?
    ensures es[i].Comment? ==> Collected(es[..i + 1]) == Some(m)
    ensures es[i].Name? ==> Collected(es[..i + 1]) == Some(m + [es[i].short])
  {
    assert es[..i + 1][..i] == es[..i];
    if es[i].Broken? {
      CollectedLines(es);
      assert es[..i + 1][i] == es[i];
    }
  }

  /** The body of the loop for one line: its entry. */
  method ShortName(name: string) returns (e: Entry)
    ensures e == EntryOf(name)
  {
    if name == [] {
      return Broken;
    }
    if name[0] == '#' {
      return Comment;
    }
    var names := Words(name);
    if names == [] {
      return Broken;
    }
    var n := |names| - 1;
    var shortname := AbbreviateAll(names[..n]);
    if shortname.None? {
      return Broken;
    }
    e := Name(JoinWith(" ", shortname.value + [names[n]]));
  }

  /** The inner loop over the words before the family name: each word's
      abbreviation appended in turn, None as soon as one raises. */
  method AbbreviateAll(ws: seq<string>) returns (r: Option<seq<string>>)
    ensures r == Abbreviations(ws)
  {
    var shortname: seq<string> := [];
    for j := 0 to |ws|
      invariant Abbreviations(ws[..j]) == Some(shortname)
    {
      assert ws[..j + 1][..j] == ws[..j];
      var rest := Abbreviate(ws[j]);
      if rest.None? {
        return None;
      }
      shortname := shortname + [rest.value];
    }
    assert ws[..|ws|] == ws;
    r := Some(shortname);
  }

  /** The abbreviation of one word, with the list comprehension over the
      parts of a hyphenated word as a loop. */
  method Abbreviate(name: string) returns (r: Option<string>)
    ensures r == Abbreviation(name)
  {
    if '-' in name {
      var parts := SplitOn(name, '-');
      var inits: seq<string> := [];
      for k := 0 to |parts|
        invariant Initials(parts[..k]) == Some(inits)
      {
        assert parts[..k + 1][..k] == parts[..k];
        if parts[k] == [] {
          return None;
        }
        inits := inits + [[parts[k][0], '.']];
      }
      assert parts[..|parts|] == parts;
      r := Some(JoinWith("-", inits));
    } else if name == [] {
      r := None;
    } else {
      r := Some([name[0], '.']);
    }
  }
}
