/** Literal text scanning with the semantics of the Python string operations
    the extraction code relies on: `in`, find, replace, strip, split,
    splitlines, join and slicing, and regular-expression searches whose
    pattern is a literal (optionally followed by `.*`, which runs to the end
    of the line because `.` never matches a newline). */
module Strings {
  import opened Wrappers

  /** Python's str.isspace, which is also what str.split(), str.strip() and
      the regular-expression class \s test. */
  predicate IsSpace(c: char) {
    || ('\t' <= c <= '\r')
    || ('\U{001C}' <= c <= ' ')
    || c == '\U{0085}' || c == '\U{00A0}' || c == '\U{1680}'
    || ('\U{2000}' <= c <= '\U{200A}')
    || c == '\U{2028}' || c == '\U{2029}' || c == '\U{202F}' || c == '\U{205F}' || c == '\U{3000}'
  }

  /** The line boundaries of Python's str.splitlines ("\r\n" counts as one). */
  predicate IsLineBreak(c: char) {
    || ('\n' <= c <= '\r')
    || ('\U{001C}' <= c <= '\U{001E}')
    || c == '\U{0085}' || c == '\U{2028}' || c == '\U{2029}'
  }

  predicate NoSpace(s: string) {
    forall i :: 0 <= i < |s| ==> !IsSpace(s[i])
  }

  predicate NoLineBreak(s: string) {
    forall i :: 0 <= i < |s| ==> !IsLineBreak(s[i])
  }

  predicate OccursAt(s: string, pat: string, i: nat) {
    i + |pat| <= |s| && s[i..i + |pat|] == pat
  }

  predicate IsPrefix(p: string, s: string) {
    |p| <= |s| && s[..|p|] == p
  }

  /** Leftmost occurrence of pat in s at or after from. */
  function FindFrom(s: string, pat: string, from: nat): (r: Option<nat>)
    ensures r.Some? ==> from <= r.value && OccursAt(s, pat, r.value)
    ensures forall i :: from <= i && (r.None? || i < r.value) ==> !OccursAt(s, pat, i)
    decreases |s| - from
  {
    if |s| < from + |pat| then None
    else if s[from..from + |pat|] == pat then Some(from)
    else FindFrom(s, pat, from + 1)
  }

  /** str.find, and re.search on a literal pattern. */
  function Find(s: string, pat: string): Option<nat> {
    FindFrom(s, pat, 0)
  }

  /** Python's `pat in s`. */
  predicate Contains(s: string, pat: string) {
    Find(s, pat).Some?
  }

  lemma OccursContains(s: string, pat: string, i: nat)
    requires OccursAt(s, pat, i)
    ensures Contains(s, pat)
  {
  }

  /** The converse of FindFrom's contract: an occurrence with none before
      it is the one found. */
  lemma {:induction false} FindFromFirst(s: string, pat: string, from: nat, i: nat)
    requires from <= i && OccursAt(s, pat, i)
    requires forall j :: from <= j < i ==> !OccursAt(s, pat, j)
    ensures FindFrom(s, pat, from) == Some(i)
    decreases i - from
  {
    if from < i {
      assert !OccursAt(s, pat, from);
      FindFromFirst(s, pat, from + 1, i);
    }
  }

  /** No occurrence at or after from: nothing is found. */
  lemma {:induction false} FindFromNone(s: string, pat: string, from: nat)
    requires forall j :: from <= j ==> !OccursAt(s, pat, j)
    ensures FindFrom(s, pat, from) == None
    decreases |s| - from
  {
    if from + |pat| <= |s| {
      assert !OccursAt(s, pat, from);
      FindFromNone(s, pat, from + 1);
    }
  }

  /** No occurrence can start where the pattern's first character is absent. */
  lemma FirstCharAbsent(s: string, pat: string, from: nat, to: nat)
    requires from <= to <= |s| && pat != []
    requires pat[0] !in s[from..to]
    ensures forall j :: from <= j < to ==> !OccursAt(s, pat, j)
  {
    forall j | from <= j < to
      ensures !OccursAt(s, pat, j)
    {
      assert s[from..to][j - from] == s[j];
    }
  }

  /** A pattern whose first character is absent does not occur. */
  lemma NotContains(s: string, pat: string)
    requires pat != [] && pat[0] !in s
    ensures !Contains(s, pat)
  {
    assert s[0..|s|] == s;
    FirstCharAbsent(s, pat, 0, |s|);
    FindFromNone(s, pat, 0);
  }

  /** A character absent from a slice is absent at each of its positions. */
  lemma CharAbsent(s: string, c: char, from: nat, to: nat)
    requires from <= to <= |s|
    requires c !in s[from..to]
    ensures forall j :: from <= j < to ==> s[j] != c
  {
    forall j | from <= j < to
      ensures s[j] != c
    {
      assert s[from..to][j - from] == s[j];
    }
  }

  /** An occurrence of c + pat holds an occurrence of pat. */
  lemma ContainsTail(s: string, c: char, pat: string)
    requires Contains(s, [c] + pat)
    ensures Contains(s, pat)
  {
    var i := Find(s, [c] + pat).value;
    assert s[i + 1..i + 1 + |pat|] == s[i..i + 1 + |pat|][1..];
    OccursContains(s, pat, i + 1);
  }

  /** Whatever contains p + q contains q. */
  lemma ContainsSuffix(s: string, p: string, q: string)
    requires Contains(s, p + q)
    ensures Contains(s, q)
  {
    var i := Find(s, p + q).value;
    assert s[i + |p|..i + |p| + |q|] == s[i..i + |p| + |q|][|p|..];
    OccursContains(s, q, i + |p|);
  }

  /** One mismatching character rules out an occurrence. */
  lemma Mismatch(s: string, pat: string, j: nat, d: nat)
    requires d < |pat| && j + d < |s| && s[j + d] != pat[d]
    ensures !OccursAt(s, pat, j)
  {
    if j + |pat| <= |s| {
      assert s[j..j + |pat|][d] == s[j + d];
    }
  }

  /** Cutting s after the leftmost occurrence does not change where it is. */
  lemma {:induction false} FindFromPrefix(s: string, pat: string, from: nat, i: nat, n: nat)
    requires FindFrom(s, pat, from) == Some(i)
    requires i + |pat| <= n <= |s|
    ensures FindFrom(s[..n], pat, from) == Some(i)
    decreases |s| - from
  {
    assert from <= i;
    if s[from..from + |pat|] != pat {
      assert s[..n][from..from + |pat|] == s[from..from + |pat|];
      FindFromPrefix(s, pat, from + 1, i, n);
    } else {
      assert s[..n][from..from + |pat|] == s[from..from + |pat|];
    }
  }

  /** A one-character pattern occurs exactly when the character does. */
  lemma ContainsChar(s: string, c: char)
    ensures Contains(s, [c]) <==> c in s
  {
    if c in s {
      var i :| 0 <= i < |s| && s[i] == c;
      assert s[i..i + 1] == [c];
      OccursContains(s, [c], i);
    }
    if Contains(s, [c]) {
      var i := Find(s, [c]).value;
      assert s[i..i + 1][0] == s[i];
    }
  }

  /** An occurrence inside a slice is an occurrence in the whole text. */
  lemma ContainsSlice(s: string, i: nat, j: nat, pat: string)
    requires i <= j <= |s|
    requires Contains(s[i..j], pat)
    ensures Contains(s, pat)
  {
    var t := s[i..j];
    var p := Find(t, pat).value;
    var q := p + |pat|;
    assert OccursAt(t, pat, p);
    var a := i + p;
    var b := a + |pat|;
    assert b <= j;
    forall m | 0 <= m < |pat|
      ensures s[a..b][m] == pat[m]
    {
      assert t[p..q][m] == t[p + m] == s[a + m];
    }
    OccursContains(s, pat, a);
  }

  /** Index of the first c in s at or after from, or |s| when there is none. */
  function IndexOfFrom(s: string, c: char, from: nat): (r: nat)
    requires from <= |s|
    ensures from <= r <= |s|
    ensures r < |s| ==> s[r] == c
    ensures forall j :: from <= j < r ==> s[j] != c
    decreases |s| - from
  {
    if from == |s| || s[from] == c then from else IndexOfFrom(s, c, from + 1)
  }

  /** Index of the first whitespace character of s, or |s|. */
  function IndexOfSpace(s: string, from: nat): (r: nat)
    requires from <= |s|
    ensures from <= r <= |s|
    ensures r < |s| ==> IsSpace(s[r])
    ensures forall j :: from <= j < r ==> !IsSpace(s[j])
    decreases |s| - from
  {
    if from == |s| || IsSpace(s[from]) then from else IndexOfSpace(s, from + 1)
  }

  /** Index of the first non-whitespace character of s at or after from, or |s|. */
  function SkipSpace(s: string, from: nat): (r: nat)
    requires from <= |s|
    ensures from <= r <= |s|
    ensures r < |s| ==> !IsSpace(s[r])
    ensures forall j :: from <= j < r ==> IsSpace(s[j])
    decreases |s| - from
  {
    if from == |s| || !IsSpace(s[from]) then from else SkipSpace(s, from + 1)
  }

  /** Index of the first splitlines boundary of s, or |s|. */
  function IndexOfLineBreak(s: string, from: nat): (r: nat)
    requires from <= |s|
    ensures from <= r <= |s|
    ensures r < |s| ==> IsLineBreak(s[r])
    ensures forall j :: from <= j < r ==> !IsLineBreak(s[j])
    decreases |s| - from
  {
    if from == |s| || IsLineBreak(s[from]) then from else IndexOfLineBreak(s, from + 1)
  }

  /** Index of the last c in s at or after from, if any. */
  function LastIndexFrom(s: string, c: char, from: nat): (r: Option<nat>)
    ensures r.Some? ==> from <= r.value < |s| && s[r.value] == c
    ensures forall j :: from <= j < |s| && (r.None? || r.value < j) ==> s[j] != c
    decreases |s|
  {
    if |s| <= from then None
    else if s[|s| - 1] == c then Some(|s| - 1)
    else LastIndexFrom(s[..|s| - 1], c, from)
  }

  /** End of the line holding position i: the next '\n' at or after i, or |s|. */
  function EndOfLine(s: string, i: nat): nat
    requires i <= |s|
  {
    IndexOfFrom(s, '\n', i)
  }

  /** The step re.finditer takes past a match of pat. */
  function Width(pat: string): nat {
    if |pat| == 0 then 1 else |pat|
  }

  /** re.finditer on a literal pattern: start offsets of the leftmost,
      non-overlapping occurrences at or after from. */
  function FindAllFrom(s: string, pat: string, from: nat): (r: seq<nat>)
    ensures forall k :: 0 <= k < |r| ==> from <= r[k] && OccursAt(s, pat, r[k])
    ensures forall k :: 0 < k < |r| ==> r[k - 1] + Width(pat) <= r[k]
    decreases |s| + 1 - from
  {
    match FindFrom(s, pat, from)
    case None => []
    case Some(i) => [i] + FindAllFrom(s, pat, i + Width(pat))
  }

  /** Position p lies within one of the matches at the offsets in r, each
      w characters wide. */
  predicate Covered(r: seq<nat>, w: nat, p: nat) {
    exists k :: 0 <= k < |r| && r[k] <= p < r[k] + w
  }

  /** No occurrence is skipped: every occurrence at or after from lies
      within one of the matches found, a match at the same place or one
      that overlaps it. */
  lemma {:induction false} FindAllComplete(s: string, pat: string, from: nat, p: nat)
    requires from <= p && OccursAt(s, pat, p)
    ensures Covered(FindAllFrom(s, pat, from), Width(pat), p)
    decreases |s| + 1 - from
  {
    var f := FindFrom(s, pat, from);
    assert f.Some?;
    var i := f.value;
    var rest := FindAllFrom(s, pat, i + Width(pat));
    assert FindAllFrom(s, pat, from) == [i] + rest;
    if i + Width(pat) <= p {
      FindAllComplete(s, pat, i + Width(pat), p);
    }
    CoveredCons(i, rest, Width(pat), p);
  }

  lemma CoveredCons(i: nat, rest: seq<nat>, w: nat, p: nat)
    requires i <= p
    requires p < i + w || Covered(rest, w, p)
    ensures Covered([i] + rest, w, p)
  {
    var r := [i] + rest;
    if p < i + w {
      assert r[0] == i;
    } else {
      var k :| 0 <= k < |rest| && rest[k] <= p < rest[k] + w;
      assert r[k + 1] == rest[k];
    }
  }

  /** re.findall(pat, s) on a literal pattern counted: the number of
      non-overlapping occurrences. */
  function CountOccurrences(s: string, pat: string): nat {
    |FindAllFrom(s, pat, 0)|
  }

  /** Scanning a text behind a prefix of length d finds the same matches,
      shifted by d. */
  lemma {:induction false} ShiftedFindAll(s: string, code: string, t: string, d: nat, from: nat, from': nat)
    requires d <= |s| && s[d..] == code && t != [] && from' == from + d
    ensures |FindAllFrom(s, t, from')| == |FindAllFrom(code, t, from)|
    decreases |code| + 1 - from
  {
    var f := FindFrom(code, t, from);
    if f.Some? {
      var i := f.value;
      var i' := i + d;
      var j := i + |t|;
      var j' := i' + |t|;
      assert from < j <= |code| && j' == j + d;
      ShiftedFindSome(s, code, t, d, from, from', i, i');
      ShiftedFindAll(s, code, t, d, j, j');
      FindAllCount(code, t, from, i, j);
      FindAllCount(s, t, from', i', j');
    } else {
      ShiftedFind(s, code, t, d, from, from');
      FindAllNone(code, t, from);
      FindAllNone(s, t, from');
    }
  }

  lemma ShiftedFindSome(s: string, code: string, t: string, d: nat, from: nat, from': nat, i: nat, i': nat)
    requires d <= |s| && s[d..] == code && from' == from + d && i' == i + d
    requires FindFrom(code, t, from) == Some(i)
    ensures FindFrom(s, t, from') == Some(i')
  {
    ShiftedFind(s, code, t, d, from, from');
  }

  lemma FindAllNone(s: string, t: string, from: nat)
    requires FindFrom(s, t, from).None?
    ensures FindAllFrom(s, t, from) == []
  {
  }

  /** One step of re.findall: a match, then the matches past it. */
  lemma FindAllCount(s: string, t: string, from: nat, i: nat, j: nat)
    requires t != [] && FindFrom(s, t, from) == Some(i) && j == i + |t|
    ensures |FindAllFrom(s, t, from)| == 1 + |FindAllFrom(s, t, j)|
  {
  }

  /** The scan of a text behind a prefix of length d meets the same
      occurrences, each d further on. */
  lemma {:induction false} ShiftedFind(s: string, code: string, t: string, d: nat, from: nat, from': nat)
    requires d <= |s| && s[d..] == code && from' == from + d
    ensures FindFrom(s, t, from') == ShiftBy(FindFrom(code, t, from), d)
    decreases |code| + 1 - from
  {
    if from + |t| <= |code| {
      var e := from + |t|;
      ShiftedSlice(s, code, d, from, e);
      if code[from..e] != t {
        ShiftedFind(s, code, t, d, from + 1, from' + 1);
        assert FindFrom(s, t, from') == FindFrom(s, t, from' + 1);
        assert FindFrom(code, t, from) == FindFrom(code, t, from + 1);
      } else {
        assert FindFrom(s, t, from') == Some(from');
        assert FindFrom(code, t, from) == Some(from);
      }
    } else {
      assert |s| == |code| + d;
      assert FindFrom(s, t, from') == None && FindFrom(code, t, from) == None;
    }
  }

  lemma ShiftedSlice(s: string, code: string, d: nat, from: nat, e: nat)
    requires d <= |s| && s[d..] == code && from <= e <= |code|
    ensures s[from + d..e + d] == code[from..e]
  {
    forall m | 0 <= m < e - from
      ensures s[from + d..e + d][m] == code[from..e][m]
    {
      assert code[from..e][m] == code[from + m] == s[d..][from + m];
    }
  }

  function ShiftBy(o: Option<nat>, d: nat): Option<nat> {
    if o.None? then None else Some(o.value + d)
  }

  /** re.finditer for the pattern `pat.*` (pat a literal): each match starts at
      the leftmost occurrence of pat and runs to the end of that line. The
      result lists the (start, end) span of every match at or after from. */
  function MatchesToEol(s: string, pat: string, from: nat): (r: seq<(nat, nat)>)
    ensures forall k :: 0 <= k < |r| ==> IsEolMatch(s, pat, from, r[k])
    decreases |s| + 1 - from
  {
    var f := FindFrom(s, pat, from);
    if f.None? then []
    else
      var e := EndOfLine(s, f.value + |pat|);
      [(f.value, e)] + MatchesToEol(s, pat, if e > f.value then e else f.value + 1)
  }

  /** The matches come in text order and do not overlap: each starts after
      the previous one starts and no earlier than it ends. */
  lemma {:induction false} EolMatchesOrdered(s: string, pat: string, from: nat, k: nat)
    requires 0 < k < |MatchesToEol(s, pat, from)|
    ensures var r := MatchesToEol(s, pat, from);
      r[k - 1].0 < r[k].0 && r[k - 1].1 <= r[k].0
    decreases |s| + 1 - from
  {
    if k == 1 {
      EolFirstOrdered(s, pat, from);
    } else {
      var r := MatchesToEol(s, pat, from);
      var i := FindFrom(s, pat, from).value;
      var j := i + |pat|;
      var e := EndOfLine(s, j);
      var next := if e > i then e else i + 1;
      EolUnfold(s, pat, from, i, j, e, next);
      var rest := MatchesToEol(s, pat, next);
      EolMatchesOrdered(s, pat, next, k - 1);
      assert r[k - 1] == rest[k - 2] && r[k] == rest[k - 1];
    }
  }

  /** The first two matches are in order and do not overlap. */
  lemma EolFirstOrdered(s: string, pat: string, from: nat)
    requires 1 < |MatchesToEol(s, pat, from)|
    ensures var r := MatchesToEol(s, pat, from);
      r[0].0 < r[1].0 && r[0].1 <= r[1].0
  {
    var r := MatchesToEol(s, pat, from);
    var i := FindFrom(s, pat, from).value;
    var j := i + |pat|;
    var e := EndOfLine(s, j);
    var next := if e > i then e else i + 1;
    EolUnfold(s, pat, from, i, j, e, next);
    var rest := MatchesToEol(s, pat, next);
    assert IsEolMatch(s, pat, next, rest[0]);
    assert r[0] == (i, e) && r[1] == rest[0];
  }

  lemma EolUnfold(s: string, pat: string, from: nat, i: nat, j: nat, e: nat, next: nat)
    requires FindFrom(s, pat, from) == Some(i) && j == i + |pat| && j <= |s|
    requires e == EndOfLine(s, j) && next == if e > i then e else i + 1
    ensures MatchesToEol(s, pat, from) == [(i, e)] + MatchesToEol(s, pat, next)
  {
  }

  /** A pattern that occurs once only is found once, where it occurs. */
  lemma FindAllSingle(s: string, pat: string, i: nat)
    requires OccursAt(s, pat, i)
    requires forall p :: OccursAt(s, pat, p) ==> p == i
    ensures FindAllFrom(s, pat, 0) == [i]
  {
    FindFromFirst(s, pat, 0, i);
    FindFromNone(s, pat, i + Width(pat));
  }

  /** A pattern that occurs once only gives one match, running from where
      it occurs to the end of that line. */
  lemma MatchesToEolSingle(s: string, pat: string, i: nat)
    requires OccursAt(s, pat, i)
    requires forall p :: OccursAt(s, pat, p) ==> p == i
    ensures MatchesToEol(s, pat, 0) == [(i, EndOfLine(s, i + |pat|))]
  {
    FindFromFirst(s, pat, 0, i);
    var e := EndOfLine(s, i + |pat|);
    var next := if e > i then e else i + 1;
    EolUnfold(s, pat, 0, i, i + |pat|, e, next);
    FindFromNone(s, pat, next);
  }

  /** m is a match of `pat.*` starting at or after from. */
  predicate IsEolMatch(s: string, pat: string, from: nat, m: (nat, nat)) {
    from <= m.0 && OccursAt(s, pat, m.0) && m.1 == EndOfLine(s, m.0 + |pat|)
  }

  /** The '\n'-separated lines of s[from..], as half-open spans. */
  function LineSpans(s: string, from: nat): (r: seq<(nat, nat)>)
    requires from <= |s|
    ensures |r| >= 1 && r[0].0 == from && r[|r| - 1].1 == |s|
    ensures forall k :: 0 <= k < |r| ==>
              r[k].0 <= r[k].1 <= |s| && forall j :: r[k].0 <= j < r[k].1 ==> s[j] != '\n'
    ensures forall k :: 0 <= k < |r| - 1 ==> r[k].1 < |s| && s[r[k].1] == '\n' && r[k + 1].0 == r[k].1 + 1
    decreases |s| - from
  {
    var i := IndexOfFrom(s, '\n', from);
    if i == |s| then [(from, |s|)] else [(from, i)] + LineSpans(s, i + 1)
  }

  /** Line spans come in text order: an earlier line starts and ends no
      later than a later one, and a later line starts after an earlier one
      ends. */
  lemma {:induction false} SpansOrdered(s: string, from: nat, i: nat, j: nat)
    requires from <= |s|
    requires i < |LineSpans(s, from)| && j < |LineSpans(s, from)|
    ensures i <= j ==> LineSpans(s, from)[i].0 <= LineSpans(s, from)[j].0
    ensures i <= j ==> LineSpans(s, from)[i].1 <= LineSpans(s, from)[j].1
    ensures j < i ==> LineSpans(s, from)[j].1 < LineSpans(s, from)[i].0
    decreases if i <= j then j - i else i - j
  {
    var r := LineSpans(s, from);
    if i < j {
      SpansOrdered(s, from, i, j - 1);
      assert r[j - 1].1 < r[j].0;
    } else if j < i {
      if j + 1 < i {
        SpansOrdered(s, from, j + 1, i);
      }
      assert r[j + 1].0 == r[j].1 + 1;
    }
  }

  /** Python's s.replace(pat, repl): every leftmost non-overlapping occurrence,
      left to right; an empty pat inserts repl around every character. */
  function Replace(s: string, pat: string, repl: string): string {
    if pat == [] then Interleave(s, repl) else ReplaceEach(s, pat, repl)
  }

  /** s.replace(pat, repl) for a nonempty pat. */
  function ReplaceEach(s: string, pat: string, repl: string): string
    requires pat != []
    decreases |s|
  {
    var f := Find(s, pat);
    if f.None? then s
    else s[..f.value] + repl + ReplaceEach(s[f.value + |pat|..], pat, repl)
  }

  /** A pattern that does not occur leaves the text as it is. */
  lemma ReplaceAbsent(s: string, pat: string, repl: string)
    requires pat != [] && !Contains(s, pat)
    ensures Replace(s, pat, repl) == s
  {
  }

  /** The leftmost occurrence lies inside the text. */
  lemma FindBounds(s: string, pat: string, i: nat, j: nat)
    requires Find(s, pat) == Some(i) && j == i + |pat|
    ensures j <= |s| && s[i..j] == pat
  {
  }

  /** A single occurrence: the text before it, the replacement, and the
      rest as it is. */
  lemma ReplaceOnce(s: string, pat: string, repl: string, i: nat, j: nat)
    requires pat != [] && Find(s, pat) == Some(i) && j == i + |pat| && j <= |s|
    requires !Contains(s[j..], pat)
    ensures Replace(s, pat, repl) == s[..i] + repl + s[j..]
  {
    ReplaceStep(s, pat, repl, i, j);
    ReplaceAbsent(s[j..], pat, repl);
  }

  /** One step of the replacement: the text before the leftmost
      occurrence, the replacement, and the rest replaced. */
  lemma ReplaceStep(s: string, pat: string, repl: string, i: nat, j: nat)
    requires pat != [] && Find(s, pat) == Some(i) && j == i + |pat| && j <= |s|
    ensures Replace(s, pat, repl) == s[..i] + repl + Replace(s[j..], pat, repl)
  {
  }

  /** Replacing an occurring pattern leaves the replacement in the result. */
  lemma ReplaceContains(s: string, pat: string, repl: string)
    requires Contains(s, pat)
    ensures Contains(Replace(s, pat, repl), repl)
  {
    var r := Replace(s, pat, repl);
    if pat == [] {
      OccursContains(r, repl, 0);
    } else {
      var i := Find(s, pat).value;
      var j := i + |pat|;
      FindBounds(s, pat, i, j);
      ReplaceStep(s, pat, repl, i, j);
      assert r[i..i + |repl|] == repl;
      OccursContains(r, repl, i);
    }
  }

  /** Where a pattern without the character c can occur in a + [c] + b:
      inside a, or inside b, never across c. */
  lemma OccursAcross(a: string, c: char, b: string, pat: string, p: nat)
    requires c !in pat
    ensures p + |pat| <= |a| ==> (OccursAt(a + [c] + b, pat, p) <==> OccursAt(a, pat, p))
    ensures p <= |a| < p + |pat| ==> !OccursAt(a + [c] + b, pat, p)
    ensures p > |a| ==> (OccursAt(a + [c] + b, pat, p) <==> OccursAt(b, pat, p - |a| - 1))
  {
    var s := a + [c] + b;
    if p + |pat| <= |a| {
      assert s[p..p + |pat|] == a[p..p + |pat|];
    }
    if p <= |a| < p + |pat| <= |s| {
      assert s[p..p + |pat|][|a| - p] == c;
    }
    if p > |a| && p + |pat| <= |s| {
      assert s[p..p + |pat|] == b[p - |a| - 1..p - |a| - 1 + |pat|];
    }
  }

  /** Replacing in a + [c] + b, for a pattern without c, replaces in a and
      in b separately: no occurrence crosses c. */
  lemma {:induction false} ReplaceAcross(a: string, c: char, b: string, pat: string, repl: string)
    requires pat != [] && c !in pat
    ensures ReplaceEach(a + [c] + b, pat, repl) == ReplaceEach(a, pat, repl) + [c] + ReplaceEach(b, pat, repl)
    decreases |a|
  {
    match Find(a, pat)
    case Some(i) =>
      ReplaceAcross(a[i + |pat|..], c, b, pat, repl);
      ReplaceInA(a, c, b, pat, repl, i);
    case None =>
      match Find(b, pat)
      case Some(i) =>
        ReplaceInB(a, c, b, pat, repl, i);
      case None =>
        ReplaceInNeither(a, c, b, pat, repl);
  }

  /** The step of ReplaceAcross where a holds the first occurrence. */
  lemma ReplaceInA(a: string, c: char, b: string, pat: string, repl: string, i: nat)
    requires pat != [] && c !in pat && Find(a, pat) == Some(i)
    requires i + |pat| <= |a|
    requires ReplaceEach(a[i + |pat|..] + [c] + b, pat, repl)
          == ReplaceEach(a[i + |pat|..], pat, repl) + [c] + ReplaceEach(b, pat, repl)
    ensures ReplaceEach(a + [c] + b, pat, repl) == ReplaceEach(a, pat, repl) + [c] + ReplaceEach(b, pat, repl)
  {
    var j := i + |pat|;
    FirstInA(a, c, b, pat, i);
    SplitInA(a, c, b, pat, i);
    EachSplit(a[..i], a[j..] + [c] + b, pat, repl);
    EachSplit(a[..i], a[j..], pat, repl);
    Regroup(a[..i] + repl, ReplaceEach(a[j..], pat, repl), c, ReplaceEach(b, pat, repl));
  }

  /** The case of ReplaceAcross where b holds the first occurrence. */
  lemma ReplaceInB(a: string, c: char, b: string, pat: string, repl: string, i: nat)
    requires pat != [] && c !in pat && Find(a, pat).None? && Find(b, pat) == Some(i)
    ensures ReplaceEach(a + [c] + b, pat, repl) == ReplaceEach(a, pat, repl) + [c] + ReplaceEach(b, pat, repl)
  {
    var j := i + |pat|;
    FirstInB(a, c, b, pat, i);
    SplitInB(a, c, b, pat, i);
    EachSplit(a + [c] + b[..i], b[j..], pat, repl);
    EachSplit(b[..i], b[j..], pat, repl);
    RegroupAfter(a, c, b[..i], repl, ReplaceEach(b[j..], pat, repl));
  }

  /** One step of the replacement, with the text around the leftmost
      occurrence named. */
  lemma EachSplit(x: string, y: string, pat: string, repl: string)
    requires pat != [] && Find(x + pat + y, pat) == Some(|x|)
    ensures ReplaceEach(x + pat + y, pat, repl) == x + repl + ReplaceEach(y, pat, repl)
  {
    var s := x + pat + y;
    assert s[..|x|] == x && s[|x| + |pat|..] == y;
  }

  lemma SplitInA(a: string, c: char, b: string, pat: string, i: nat)
    requires OccursAt(a, pat, i)
    ensures a == a[..i] + pat + a[i + |pat|..]
    ensures a + [c] + b == a[..i] + pat + (a[i + |pat|..] + [c] + b)
  {
    assert a == a[..i] + pat + a[i + |pat|..];
  }

  lemma SplitInB(a: string, c: char, b: string, pat: string, i: nat)
    requires OccursAt(b, pat, i)
    ensures b == b[..i] + pat + b[i + |pat|..]
    ensures a + [c] + b == (a + [c] + b[..i]) + pat + b[i + |pat|..]
  {
    assert b == b[..i] + pat + b[i + |pat|..];
  }

  /** The case of ReplaceAcross with no occurrence at all. */
  lemma ReplaceInNeither(a: string, c: char, b: string, pat: string, repl: string)
    requires pat != [] && c !in pat && Find(a, pat).None? && Find(b, pat).None?
    ensures ReplaceEach(a + [c] + b, pat, repl) == ReplaceEach(a, pat, repl) + [c] + ReplaceEach(b, pat, repl)
  {
    var s := a + [c] + b;
    forall p: nat
      ensures !OccursAt(s, pat, p)
    {
      OccursAcross(a, c, b, pat, p);
    }
    FindFromNone(s, pat, 0);
  }

  lemma Regroup(x: string, y: string, c: char, z: string)
    ensures x + (y + [c] + z) == (x + y) + [c] + z
  {
  }

  lemma RegroupAfter(x: string, c: char, y: string, r: string, z: string)
    ensures x + [c] + y + r + z == x + [c] + (y + r + z)
  {
  }

  /** The first occurrence in a is the first in a + [c] + b. */
  lemma FirstInA(a: string, c: char, b: string, pat: string, i: nat)
    requires pat != [] && c !in pat && Find(a, pat) == Some(i)
    ensures i + |pat| <= |a| && Find(a + [c] + b, pat) == Some(i)
  {
    FindBounds(a, pat, i, i + |pat|);
    forall p: nat | p <= i
      ensures OccursAt(a + [c] + b, pat, p) <==> OccursAt(a, pat, p)
    {
      OccursAcross(a, c, b, pat, p);
    }
    FindFromFirst(a + [c] + b, pat, 0, i);
  }

  /** With none in a, the first occurrence in b is the first in a + [c] + b. */
  lemma FirstInB(a: string, c: char, b: string, pat: string, i: nat)
    requires pat != [] && c !in pat && Find(a, pat).None? && Find(b, pat) == Some(i)
    ensures i + |pat| <= |b| && Find(a + [c] + b, pat) == Some(|a| + 1 + i)
  {
    FindBounds(b, pat, i, i + |pat|);
    forall p: nat | p <= |a| + 1 + i
      ensures OccursAt(a + [c] + b, pat, p) <==> p > |a| && OccursAt(b, pat, p - |a| - 1)
    {
      OccursAcross(a, c, b, pat, p);
    }
    FindFromFirst(a + [c] + b, pat, 0, |a| + 1 + i);
  }

  /** Replacing in lines joined by c, for a pattern without c, is replacing
      in each line: the replacement works match by match within a line. */
  lemma {:induction false} ReplaceJoin(xs: seq<string>, c: char, pat: string, repl: string)
    requires pat != [] && c !in pat
    ensures Replace(JoinWith([c], xs), pat, repl)
         == JoinWith([c], seq(|xs|, k requires 0 <= k < |xs| => Replace(xs[k], pat, repl)))
    decreases |xs|
  {
    var ys := seq(|xs|, k requires 0 <= k < |xs| => Replace(xs[k], pat, repl));
    if |xs| > 1 {
      var t := JoinWith([c], xs[1..]);
      var ys1 := seq(|xs| - 1, k requires 0 <= k < |xs| - 1 => Replace(xs[1..][k], pat, repl));
      assert JoinWith([c], xs) == xs[0] + [c] + t;
      ReplaceJoin(xs[1..], c, pat, repl);
      ReplaceJoinCons(xs[0], t, ys1, c, pat, repl);
      assert ys == [Replace(xs[0], pat, repl)] + ys1;
    } else if |xs| == 1 {
      assert JoinWith([c], xs) == xs[0] && JoinWith([c], ys) == ys[0];
    } else {
      assert ReplaceEach([], pat, repl) == [];
    }
  }

  lemma ReplaceJoinCons(x: string, t: string, ys: seq<string>, c: char, pat: string, repl: string)
    requires pat != [] && c !in pat && ys != []
    requires Replace(t, pat, repl) == JoinWith([c], ys)
    ensures Replace(x + [c] + t, pat, repl) == JoinWith([c], [Replace(x, pat, repl)] + ys)
  {
    ReplaceAcross(x, c, t, pat, repl);
    assert ([Replace(x, pat, repl)] + ys)[1..] == ys;
  }

  /** repl before, between and after every character of s. */
  function Interleave(s: string, repl: string): (r: string)
    ensures IsPrefix(repl, r)
  {
    if s == [] then repl else repl + [s[0]] + Interleave(s[1..], repl)
  }

  lemma {:induction false} ReplaceBySelf(s: string, pat: string)
    requires pat != []
    ensures Replace(s, pat, pat) == s
    decreases |s|
  {
    var f := Find(s, pat);
    if f.Some? {
      var i := f.value;
      var j := i + |pat|;
      FindBounds(s, pat, i, j);
      ReplaceStep(s, pat, pat, i, j);
      ReplaceBySelf(s[j..], pat);
      assert s == s[..i] + s[i..j] + s[j..];
    }
  }

  /** str.lstrip() */
  function TrimLeft(s: string): (r: string)
    ensures |r| <= |s| && r == s[|s| - |r|..]
    ensures r == [] || !IsSpace(r[0])
    ensures forall i :: 0 <= i < |s| - |r| ==> IsSpace(s[i])
  {
    if s != [] && IsSpace(s[0]) then TrimLeft(s[1..]) else s
  }

  /** str.rstrip() */
  function TrimRight(s: string): (r: string)
    ensures |r| <= |s| && r == s[..|r|]
    ensures r == [] || !IsSpace(r[|r| - 1])
    ensures forall i :: |r| <= i < |s| ==> IsSpace(s[i])
  {
    if s != [] && IsSpace(s[|s| - 1]) then TrimRight(s[..|s| - 1]) else s
  }

  predicate Trimmed(s: string) {
    s == [] || (!IsSpace(s[0]) && !IsSpace(s[|s| - 1]))
  }

  /** Every character of s outside s[i..j] is white space. */
  predicate SpaceOutside(s: string, i: nat, j: nat) {
    forall k :: 0 <= k < |s| && !(i <= k < j) ==> IsSpace(s[k])
  }

  /** s.lstrip().rstrip(), which is s.strip(): a slice of s with only white
      space around it, starting and ending with a character that is not. */
  function Strip(s: string): (r: string)
    ensures Trimmed(r)
    ensures |r| <= |s|
    ensures exists i, j :: 0 <= i <= j <= |s| && r == s[i..j] && SpaceOutside(s, i, j)
  {
    var l := TrimLeft(s);
    var r := TrimRight(l);
    StripSpan(s, l, r);
    r
  }

  lemma StripSpan(s: string, l: string, r: string)
    requires |l| <= |s| && l == s[|s| - |l|..] && forall k :: 0 <= k < |s| - |l| ==> IsSpace(s[k])
    requires |r| <= |l| && r == l[..|r|] && forall k :: |r| <= k < |l| ==> IsSpace(l[k])
    ensures r == s[|s| - |l|..|s| - |l| + |r|]
    ensures SpaceOutside(s, |s| - |l|, |s| - |l| + |r|)
  {
    var i := |s| - |l|;
    forall k | 0 <= k < |s| && !(i <= k < i + |r|)
      ensures IsSpace(s[k])
    {
      if k >= i { assert s[k] == l[k - i]; }
    }
  }

  lemma StripTrimmed(s: string)
    requires Trimmed(s)
    ensures Strip(s) == s
  {
  }

  /** The strings of xs with sep between consecutive ones: Python's
      sep.join(xs). */
  function JoinWith(sep: string, xs: seq<string>): string {
    if |xs| == 0 then [] else if |xs| == 1 then xs[0] else xs[0] + sep + JoinWith(sep, xs[1..])
  }

  lemma {:induction false} JoinWithSnoc(sep: string, xs: seq<string>, x: string)
    requires xs != []
    ensures JoinWith(sep, xs + [x]) == JoinWith(sep, xs) + sep + x
    decreases |xs|
  {
    if |xs| > 1 {
      assert (xs + [x])[1..] == xs[1..] + [x];
      JoinWithSnoc(sep, xs[1..], x);
    }
  }

  /** A piece of a join is part of the joined text. */
  lemma {:induction false} JoinContains(sep: string, xs: seq<string>, k: nat, pat: string)
    requires k < |xs|
    requires Contains(xs[k], pat)
    ensures Contains(JoinWith(sep, xs), pat)
    decreases |xs|
  {
    var s := JoinWith(sep, xs);
    if |xs| > 1 {
      var t := JoinWith(sep, xs[1..]);
      assert s == xs[0] + sep + t;
      if k == 0 {
        assert s[..|xs[0]|] == xs[0];
        ContainsSlice(s, 0, |xs[0]|, pat);
      } else {
        JoinContains(sep, xs[1..], k - 1, pat);
        var u := xs[0] + sep;
        assert s == u + t;
        assert s[|u|..|s|] == t;
        ContainsSlice(s, |u|, |s|, pat);
      }
    }
  }

  /** s.split(sep) for a one-character separator. */
  function SplitOn(s: string, sep: char): (r: seq<string>)
    ensures |r| >= 1
    ensures forall k :: 0 <= k < |r| ==> sep !in r[k]
    ensures JoinWith([sep], r) == s
    decreases |s|
  {
    var i := IndexOfFrom(s, sep, 0);
    if i == |s| then [s]
    else
      var rest := SplitOn(s[i + 1..], sep);
      assert s == s[..i] + [sep] + s[i + 1..];
      [s[..i]] + rest
  }

  lemma {:induction false} SplitOnJoin(xs: seq<string>, sep: char)
    requires |xs| >= 1
    requires forall k :: 0 <= k < |xs| ==> sep !in xs[k]
    ensures SplitOn(JoinWith([sep], xs), sep) == xs
    decreases |xs|
  {
    var s := JoinWith([sep], xs);
    if |xs| > 1 {
      assert s == xs[0] + [sep] + JoinWith([sep], xs[1..]);
      assert s[|xs[0]|] == sep;
      assert IndexOfFrom(s, sep, 0) == |xs[0]|;
      assert s[..|xs[0]|] == xs[0];
      assert s[|xs[0]| + 1..] == JoinWith([sep], xs[1..]);
      SplitOnJoin(xs[1..], sep);
      assert xs == [xs[0]] + xs[1..];
    } else {
      assert IndexOfFrom(s, sep, 0) == |s|;
    }
  }

  /** s.split(): the maximal runs of non-whitespace characters. */
  function Words(s: string): (r: seq<string>)
    ensures forall k :: 0 <= k < |r| ==> IsWord(r[k])
  {
    WordsFrom(s, 0)
  }

  /** The words of s[from..]. */
  function WordsFrom(s: string, from: nat): (r: seq<string>)
    requires from <= |s|
    ensures forall k :: 0 <= k < |r| ==> IsWord(r[k])
    decreases |s| - from
  {
    var b := SkipSpace(s, from);
    if b == |s| then []
    else
      var e := IndexOfSpace(s, b);
      [s[b..e]] + WordsFrom(s, e)
  }

  /** A text with a non-space character has at least one word. */
  lemma WordsNonempty(s: string, j: nat)
    requires j < |s| && !IsSpace(s[j])
    ensures Words(s) != []
  {
    assert SkipSpace(s, 0) <= j;
  }

  /** A non-empty run of non-whitespace characters. */
  predicate IsWord(w: string) {
    w != [] && NoSpace(w)
  }

  /** The characters of a join are those of its pieces, and of the
      separator when there are two pieces or more. */
  lemma {:induction false} JoinChars(sep: string, xs: seq<string>)
    ensures forall c :: c in JoinWith(sep, xs) <==>
      (|xs| > 1 && c in sep) || exists k :: 0 <= k < |xs| && c in xs[k]
    decreases |xs|
  {
    if |xs| > 1 {
      JoinChars(sep, xs[1..]);
      forall c
        ensures (exists k :: 0 <= k < |xs| && c in xs[k]) <==>
          c in xs[0] || exists k :: 0 <= k < |xs[1..]| && c in xs[1..][k]
      {
        if exists k :: 0 <= k < |xs| && c in xs[k] {
          var k :| 0 <= k < |xs| && c in xs[k];
          if k > 0 {
            assert c in xs[1..][k - 1];
          }
        }
      }
    }
  }

  /** s.splitlines(): the lines of s without their boundaries; a final
      boundary does not open an empty last line. */
  function SplitLines(s: string): (r: seq<string>)
    ensures forall k :: 0 <= k < |r| ==> NoLineBreak(r[k])
    ensures s == [] <==> r == []
    decreases |s|
  {
    if s == [] then []
    else
      var i := IndexOfLineBreak(s, 0);
      if i == |s| then [s]
      else
        var w := if s[i] == '\r' && i + 1 < |s| && s[i + 1] == '\n' then 2 else 1;
        [s[..i]] + SplitLines(s[i + w..])
  }

  lemma {:induction false} SplitLinesJoin(ls: seq<string>)
    requires forall k :: 0 <= k < |ls| ==> NoLineBreak(ls[k])
    requires ls != [] ==> ls[|ls| - 1] != []
    ensures SplitLines(JoinWith("\n", ls)) == ls
    decreases |ls|
  {
    var s := JoinWith("\n", ls);
    if |ls| == 1 {
      assert IndexOfLineBreak(s, 0) == |s|;
    } else if |ls| > 1 {
      assert s == ls[0] + "\n" + JoinWith("\n", ls[1..]);
      assert IsLineBreak(s[|ls[0]|]);
      assert IndexOfLineBreak(s, 0) == |ls[0]|;
      assert s[..|ls[0]|] == ls[0];
      assert s[|ls[0]| + 1..] == JoinWith("\n", ls[1..]);
      SplitLinesJoin(ls[1..]);
      assert ls == [ls[0]] + ls[1..];
    }
  }

  /** Python's s[i:j]: negative bounds count from the end, bounds are clamped
      to the string, and the slice is empty when the start is not below the end. */
  function PySlice(s: string, i: int, j: int): (r: string)
    ensures |r| <= |s|
    ensures 0 <= i <= j <= |s| ==> r == s[i..j]
  {
    var a := Clamp(if i < 0 then i + |s| else i, |s|);
    var b := Clamp(if j < 0 then j + |s| else j, |s|);
    if a < b then s[a..b] else []
  }

  function Clamp(x: int, n: nat): (r: nat)
    ensures r <= n
    ensures 0 <= x <= n ==> r == x
  {
    if x < 0 then 0 else if x > n then n else x
  }

  /** Python's xs[:n]. */
  function Take<T(==)>(xs: seq<T>, n: int): (r: seq<T>)
    ensures IsSeqPrefix(r, xs)
    ensures 0 <= n ==> |r| == if n < |xs| then n else |xs|
  {
    xs[..Clamp(if n < 0 then n + |xs| else n, |xs|)]
  }

  predicate IsSeqPrefix<T(==)>(p: seq<T>, s: seq<T>) {
    |p| <= |s| && s[..|p|] == p
  }
}
