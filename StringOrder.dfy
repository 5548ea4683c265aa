/** Python's ordering of strings (code point by code point, a proper prefix
    first) and sorted(set(xs)) on lists of strings. */
module StringOrder {

  /** a < b for Python strings. */
  predicate Less(a: string, b: string)
    decreases |a|
  {
    if a == [] then b != []
    else b != [] && (a[0] < b[0] || (a[0] == b[0] && Less(a[1..], b[1..])))
  }

  lemma {:induction false} LessIrreflexive(a: string)
    ensures !Less(a, a)
    decreases |a|
  {
    if a != [] {
      LessIrreflexive(a[1..]);
    }
  }

  lemma {:induction false} LessTransitive(a: string, b: string, c: string)
    requires Less(a, b) && Less(b, c)
    ensures Less(a, c)
    decreases |a|
  {
    if a != [] && a[0] == b[0] && b[0] == c[0] {
      LessTransitive(a[1..], b[1..], c[1..]);
    }
  }

  lemma LessAsymmetric(a: string, b: string)
    ensures !(Less(a, b) && Less(b, a))
  {
    if Less(a, b) && Less(b, a) {
      LessTransitive(a, b, a);
      LessIrreflexive(a);
    }
  }

  lemma {:induction false} LessTotal(a: string, b: string)
    requires a != b
    ensures Less(a, b) || Less(b, a)
    decreases |a|
  {
    if a != [] && b != [] && a[0] == b[0] {
      assert a[1..] != b[1..] by {
        assert a == [a[0]] + a[1..] && b == [b[0]] + b[1..];
      }
      LessTotal(a[1..], b[1..]);
    }
  }

  /** Strictly increasing: sorted and without repeats. */
  predicate StrictlySorted(r: seq<string>) {
    forall i, j :: 0 <= i < j < |r| ==> Less(r[i], r[j])
  }

  /** x added to a strictly sorted list, unless it is there already. */
  function InsertSorted(r: seq<string>, x: string): (q: seq<string>)
    requires StrictlySorted(r)
    ensures StrictlySorted(q)
    ensures forall y :: y in q <==> y in r || y == x
    decreases |r|
  {
    if r == [] then [x]
    else if x == r[0] then r
    else if Less(x, r[0]) then
      assert forall j :: 0 <= j < |r| ==> Less(x, r[j]) by {
        forall j | 0 <= j < |r|
          ensures Less(x, r[j])
        {
          if j > 0 {
            LessTransitive(x, r[0], r[j]);
          }
        }
      }
      [x] + r
    else
      LessTotal(x, r[0]);
      var rest := InsertSorted(r[1..], x);
      assert forall y :: y in r <==> y == r[0] || y in r[1..];
      assert forall k :: 0 <= k < |rest| ==> Less(r[0], rest[k]) by {
        forall k | 0 <= k < |rest|
          ensures Less(r[0], rest[k])
        {
          assert rest[k] in rest;
        }
      }
      [r[0]] + rest
  }

  /** The distinct strings of xs in strictly increasing code-point order:
      Python's sorted(set(xs)). */
  function SortedSet(xs: seq<string>): (r: seq<string>)
    ensures StrictlySorted(r)
    ensures forall y :: y in r <==> y in xs
    decreases |xs|
  {
    if xs == [] then []
    else
      var r := InsertSorted(SortedSet(xs[..|xs| - 1]), xs[|xs| - 1]);
      assert xs == xs[..|xs| - 1] + [xs[|xs| - 1]];
      r
  }

  /** A strictly sorted list is determined by its elements: sorted(set(xs))
      is the only strictly increasing list of the distinct elements of xs. */
  lemma {:induction false} SortedUnique(r: seq<string>, q: seq<string>)
    requires StrictlySorted(r) && StrictlySorted(q)
    requires forall y :: y in r <==> y in q
    ensures r == q
    decreases |r|
  {
    assert r != [] ==> r[0] in r && r[0] in q;
    assert q != [] ==> q[0] in q && q[0] in r;
    if r != [] && q != [] {
      var i :| 0 <= i < |q| && q[i] == r[0];
      var j :| 0 <= j < |r| && r[j] == q[0];
      assert j == 0 || Less(r[0], q[0]);
      assert i == 0 || Less(q[0], r[0]);
      LessAsymmetric(r[0], q[0]);
      assert r[0] == q[0];
      forall y | y in r[1..]
        ensures y in q[1..]
      {
        assert y in r;
        var k :| 1 <= k < |r| && r[k] == y;
        assert Less(r[0], y);
        LessIrreflexive(y);
        var m :| 0 <= m < |q| && q[m] == y;
        assert m != 0;
        assert q[1..][m - 1] == y;
      }
      forall y | y in q[1..]
        ensures y in r[1..]
      {
        assert y in q;
        var k :| 1 <= k < |q| && q[k] == y;
        assert Less(q[0], y);
        LessIrreflexive(y);
        var m :| 0 <= m < |r| && r[m] == y;
        assert m != 0;
        assert r[1..][m - 1] == y;
      }
      SortedUnique(r[1..], q[1..]);
      assert r == [r[0]] + r[1..] && q == [q[0]] + q[1..];
    }
  }
}
