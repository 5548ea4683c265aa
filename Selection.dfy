/** ExportPDFLatexTemplate.select_figures: the figures sorted by reference
    count, most referenced first, with Python's stable sort keeping figures
    of equal count in document order, and the first N of them kept. The
    figures are named by their positions in the document's figure list, so
    the list itself is never reordered. */
module Selection {
  import opened Strings

  /** Figure a comes before figure b in the sorted list: more references,
      or as many and earlier in the document. */
  predicate Before(counts: seq<int>, a: nat, b: nat)
    requires a < |counts| && b < |counts|
  {
    counts[a] > counts[b] || (counts[a] == counts[b] && a < b)
  }

  /** Every entry is a figure position, and the entries are in the order
      sorted(..., reverse=True) produces. */
  predicate Ranked(counts: seq<int>, r: seq<nat>) {
    && (forall k :: 0 <= k < |r| ==> r[k] < |counts|)
    && (forall i, j :: 0 <= i < j < |r| ==> Before(counts, r[i], r[j]))
  }

  /** Figure i inserted into a ranked list of earlier figures: after every
      figure with at least as many references, before the first with fewer. */
  function InsertRanked(counts: seq<int>, r: seq<nat>, i: nat): (q: seq<nat>)
    requires i < |counts| && Ranked(counts, r)
    requires forall k :: 0 <= k < |r| ==> r[k] < i
    ensures |q| == |r| + 1
    ensures forall x :: x in q <==> x in r || x == i
    ensures Ranked(counts, q)
    decreases |r|
  {
    if r == [] then [i]
    else if counts[r[0]] < counts[i] then [i] + r
    else
      var rest := InsertRanked(counts, r[1..], i);
      assert forall k :: 0 <= k < |rest| ==> rest[k] in r[1..] || rest[k] == i;
      assert forall x :: x in r <==> x == r[0] || x in r[1..];
      [r[0]] + rest
  }

  /** sorted(figures, key=number_of_references, reverse=True), on the
      first n figure positions. */
  function Sorted(counts: seq<int>, n: nat): (r: seq<nat>)
    requires n <= |counts|
    ensures |r| == n
    ensures forall x: int :: x in r <==> 0 <= x < n
    ensures Ranked(counts, r)
  {
    if n == 0 then []
    else
      var r := Sorted(counts, n - 1);
      assert forall k :: 0 <= k < |r| ==> r[k] in r;
      var q := InsertRanked(counts, r, n - 1);
      assert forall x: int :: x in q <==> x in r || x == n - 1;
      q
  }

  /** select_figures(document, N): the first N of the sorted figures. */
  function Select(counts: seq<int>, n: int): seq<nat> {
    Take(Sorted(counts, |counts|), n)
  }

  /** The selection holds min(N, number of figures) figures, each at most
      once, ordered by non-increasing reference count, figures of equal
      count in document order; and every figure left out comes after every
      figure kept. */
  lemma SelectTop(counts: seq<int>, n: int)
    requires n >= 0
    ensures var s := Select(counts, n);
      && |s| == (if n < |counts| then n else |counts|)
      && (forall i, j :: 0 <= i < j < |s| ==> s[i] != s[j])
      && (forall i, j :: 0 <= i < j < |s| ==> counts[s[i]] >= counts[s[j]])
      && (forall i, j :: 0 <= i < j < |s| && counts[s[i]] == counts[s[j]] ==> s[i] < s[j])
      && (forall k, b: nat :: 0 <= k < |s| && b < |counts| && b !in s ==> Before(counts, s[k], b))
  {
    var r := Sorted(counts, |counts|);
    var s := Select(counts, n);
    assert s == r[..|s|];
    forall k, b: nat | 0 <= k < |s| && b < |counts| && b !in s
      ensures Before(counts, s[k], b)
    {
      assert b in r;
      var j :| 0 <= j < |r| && r[j] == b;
      assert j >= |s|;
    }
  }

  /** Every figure is selected when N is at least the number of figures. */
  lemma SelectAll(counts: seq<int>, n: int)
    requires n >= |counts|
    ensures forall b: int :: b in Select(counts, n) <==> 0 <= b < |counts|
  {
    var r := Sorted(counts, |counts|);
    assert Select(counts, n) == r[..|r|] == r;
  }

  /** Two orders that both rank the same figures are the same order: the
      sort is determined by the counts, with ties broken by position. */
  lemma {:induction false} RankedUnique(counts: seq<int>, r: seq<nat>, q: seq<nat>)
    requires Ranked(counts, r) && Ranked(counts, q)
    requires forall x :: x in r <==> x in q
    ensures r == q
    decreases |r|
  {
    assert r != [] ==> r[0] in r && r[0] in q;
    assert q != [] ==> q[0] in q && q[0] in r;
    if r != [] && q != [] {
      var i :| 0 <= i < |q| && q[i] == r[0];
      var j :| 0 <= j < |r| && r[j] == q[0];
      assert j == 0 || Before(counts, r[0], q[0]);
      assert i == 0;
      forall x | x in r[1..]
        ensures x in q[1..]
      {
        assert x in r;
        var i :| 1 <= i < |r| && r[i] == x;
        assert Before(counts, r[0], r[i]);
      }
      forall x | x in q[1..]
        ensures x in r[1..]
      {
        assert x in q;
        var i :| 1 <= i < |q| && q[i] == x;
        assert Before(counts, q[0], q[i]);
      }
      RankedUnique(counts, r[1..], q[1..]);
      assert r == [r[0]] + r[1..] && q == [q[0]] + q[1..];
    }
  }

  /** The selection is the one any stable descending sort gives: whatever
      list of all figures is ranked, its first N are the selection. */
  lemma SelectIsStableSort(counts: seq<int>, n: int, order: seq<nat>)
    requires Ranked(counts, order)
    requires forall x: int :: x in order <==> 0 <= x < |counts|
    ensures Select(counts, n) == Take(order, n)
  {
    RankedUnique(counts, Sorted(counts, |counts|), order);
  }
}
