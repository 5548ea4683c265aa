/** clear_comments: every line of a LaTeX text cut just before its first
    comment mark, the lines joined again with "\n". */
module Comments {
  import opened Strings

  /** A `%` that is not escaped by a backslash right before it: a match of
      the regular expression `(?<!\\)%`. */
  predicate IsCommentMark(line: string, i: nat)
    requires i < |line|
  {
    line[i] == '%' && (i == 0 || line[i - 1] != '\\')
  }

  /** No comment mark anywhere in the line. */
  predicate Uncommented(line: string) {
    forall i :: 0 <= i < |line| ==> !IsCommentMark(line, i)
  }

  /** The index of the first comment mark at or after from, or |line|. */
  function CommentStart(line: string, from: nat): (r: nat)
    requires from <= |line|
    ensures from <= r <= |line|
    ensures r < |line| ==> IsCommentMark(line, r)
    ensures forall i :: from <= i < r ==> !IsCommentMark(line, i)
    decreases |line| - from
  {
    if from == |line| then from
    else if IsCommentMark(line, from) then from
    else CommentStart(line, from + 1)
  }

  /** One line with its comment removed: the text before the first mark, or
      the whole line when it has none. */
  function CutComment(line: string): (r: string)
    ensures IsPrefix(r, line)
    ensures Uncommented(r)
    ensures |r| < |line| ==> IsCommentMark(line, |r|)
    ensures Uncommented(line) ==> r == line
    ensures NoLineBreak(line) ==> NoLineBreak(r)
  {
    var i := CommentStart(line, 0);
    var r := line[..i];
    assert forall j :: 0 <= j < |r| ==> (IsCommentMark(r, j) <==> IsCommentMark(line, j));
    r
  }

  /** Every line of ls with its comment removed. */
  function CutAll(ls: seq<string>): (r: seq<string>)
    ensures |r| == |ls|
    decreases |ls|
  {
    if ls == [] then [] else CutAll(ls[..|ls| - 1]) + [CutComment(ls[|ls| - 1])]
  }

  /** The text clear_comments returns. */
  function Cleared(data: string): string {
    JoinWith("\n", CutAll(SplitLines(data)))
  }

  /** clear_comments(data): the loop over data.splitlines() appending each
      cut line. */
  method ClearComments(data: string) returns (r: string)
    ensures r == Cleared(data)
  {
    var ls := SplitLines(data);
    var lines: seq<string> := [];
    var k := 0;
    while k < |ls|
      invariant 0 <= k <= |ls|
      invariant lines == CutAll(ls[..k])
    {
      assert ls[..k + 1][..k] == ls[..k];
      lines := lines + [CutComment(ls[k])];
      k := k + 1;
    }
    assert ls[..|ls|] == ls;
    r := JoinWith("\n", lines);
  }

  /** Output line k is input line k cut at its first comment mark: the
      lines are neither merged, split nor reordered. */
  lemma {:induction false} CutAllLines(ls: seq<string>)
    ensures forall k :: 0 <= k < |ls| ==> CutAll(ls)[k] == CutComment(ls[k])
    decreases |ls|
  {
    if ls != [] {
      CutAllLines(ls[..|ls| - 1]);
    }
  }

  /** Read back line by line, the cleared text holds one line per input
      line, each its input line cut at its first comment mark, unless the
      last line was entirely comment (then splitlines drops it). */
  lemma ClearedLines(data: string)
    requires var ls := SplitLines(data); ls != [] ==> CutComment(ls[|ls| - 1]) != []
    ensures |SplitLines(Cleared(data))| == |SplitLines(data)|
    ensures forall k :: 0 <= k < |SplitLines(data)| ==>
      SplitLines(Cleared(data))[k] == CutComment(SplitLines(data)[k])
  {
    var ls := SplitLines(data);
    CutAllLines(ls);
    SplitLinesJoin(CutAll(ls));
  }

  /** Joining uncommented lines with "\n" creates no comment mark: the
      newline before each line is not a backslash. */
  lemma {:induction false} JoinUncommented(ls: seq<string>)
    requires forall k :: 0 <= k < |ls| ==> Uncommented(ls[k])
    ensures Uncommented(JoinWith("\n", ls))
    decreases |ls|
  {
    if |ls| > 1 {
      var t := JoinWith("\n", ls[1..]);
      JoinUncommented(ls[1..]);
      var s := ls[0] + "\n" + t;
      assert s == JoinWith("\n", ls);
      var n := |ls[0]|;
      forall i | 0 <= i < |s|
        ensures !IsCommentMark(s, i)
      {
        if i < n {
          assert IsCommentMark(s, i) == IsCommentMark(ls[0], i);
        } else if i > n {
          assert s[i] == t[i - n - 1];
          assert IsCommentMark(s, i) == IsCommentMark(t, i - n - 1);
        }
      }
    }
  }

  /** The cleared text holds no comment mark at all. */
  lemma ClearedUncommented(data: string)
    ensures Uncommented(Cleared(data))
  {
    var ls := CutAll(SplitLines(data));
    CutAllLines(SplitLines(data));
    JoinUncommented(ls);
  }

  /** Clearing twice is clearing once, under the same proviso. */
  lemma ClearedTwice(data: string)
    requires var ls := SplitLines(data); ls != [] ==> CutComment(ls[|ls| - 1]) != []
    ensures Cleared(Cleared(data)) == Cleared(data)
  {
    var ls := SplitLines(data);
    ClearedLines(data);
    var ms := SplitLines(Cleared(data));
    CutAllLines(ms);
    CutAllLines(ls);
    assert CutAll(ms) == CutAll(ls);
  }

  /** An escaped `\%` is not a comment mark: a line holding it is kept. */
  lemma EscapedPercentKept()
    ensures Cleared("x = 5\\% less") == "x = 5\\% less"
  {
    var line := "x = 5\\% less";
    assert Uncommented(line) by {
      forall i | 0 <= i < |line|
        ensures !IsCommentMark(line, i)
      {
        if i == 6 {
          assert line[5] == '\\';
        } else {
          assert line[i] != '%';
        }
      }
    }
    assert NoLineBreak(line);
    SplitLinesJoin([line]);
  }

  /** Without the proviso clearing is not idempotent: an all-comment last
      line leaves a trailing newline, which a second pass removes. */
  lemma NotIdempotent()
    ensures Cleared("a\n%c") == "a\n"
    ensures Cleared("a\n") == "a"
  {
    assert IndexOfLineBreak("a\n%c", 0) == 1;
    assert "a\n%c"[2..] == "%c";
    assert IndexOfLineBreak("%c", 0) == 2;
    assert SplitLines("%c") == ["%c"];
    assert "a\n%c"[..1] == "a";
    assert SplitLines("a\n%c") == ["a", "%c"];
    assert CutComment("%c") == [];
    assert CutComment("a") == "a";
    assert IndexOfLineBreak("a\n", 0) == 1;
    assert "a\n"[2..] == [];
    assert "a\n"[..1] == "a";
    assert SplitLines("a\n") == ["a"];
    assert CutAll(["a", "%c"]) == ["a", ""] by {
      assert ["a", "%c"][..1] == ["a"];
      assert ["a"][..0] == [];
    }
    assert CutAll(["a"]) == ["a"] by {
      assert ["a"][..0] == [];
    }
  }
}
