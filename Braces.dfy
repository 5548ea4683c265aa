/** balanced_braces: the content of every top-level `{...}` group of a text,
    whitespace-trimmed, left to right. The depth counter is an unbounded
    integer that a stray `}` drives below zero. */
module Braces {
  import opened Strings

  /** The scanner's state: the depth counter n, the buffer of the group being
      read and the groups emitted so far. */
  datatype Scan = Scan(depth: int, chars: string, parts: seq<string>)

  const Start := Scan(0, [], [])

  /** One character of the scan. */
  function Step(st: Scan, c: char): Scan {
    if c == '{' then
      Scan(st.depth + 1, if st.depth > 0 then st.chars + [c] else st.chars, st.parts)
    else if c == '}' then
      if st.depth - 1 > 0 then Scan(st.depth - 1, st.chars + [c], st.parts)
      else if st.depth - 1 == 0 then Scan(0, [], st.parts + [Strip(st.chars)])
      else Scan(st.depth - 1, st.chars, st.parts)
    else if st.depth > 0 then Scan(st.depth, st.chars + [c], st.parts)
    else st
  }

  /** The scan of s from state st. */
  function Run(st: Scan, s: string): Scan
    decreases |s|
  {
    if s == [] then st else Step(Run(st, s[..|s| - 1]), s[|s| - 1])
  }

  /** balanced_braces on one string: a string without `{` is skipped. */
  function Groups(s: string): seq<string> {
    if '{' !in s then [] else Run(Start, s).parts
  }

  /** balanced_braces on a list: the groups of every string, in order. */
  function GroupsOfAll(args: seq<string>): seq<string>
    decreases |args|
  {
    if args == [] then [] else GroupsOfAll(args[..|args| - 1]) + Groups(args[|args| - 1])
  }

  /** balanced_braces(args) for a list of strings. */
  method BalancedBracesAll(args: seq<string>) returns (parts: seq<string>)
    ensures parts == GroupsOfAll(args)
  {
    parts := [];
    var k := 0;
    while k < |args|
      invariant 0 <= k <= |args|
      invariant parts == GroupsOfAll(args[..k])
    {
      var arg := args[k];
      assert args[..k + 1][..k] == args[..k];
      if '{' in arg {
        ghost var before := parts;
        parts := ScanChars(arg, parts);
        RunParts(0, [], before, arg);
      }
      k := k + 1;
    }
    assert args[..|args|] == args;
  }

  /** The character loop over one string: the counter n and the buffer
      start afresh, and each group read is appended to parts. */
  method ScanChars(arg: string, parts0: seq<string>) returns (parts: seq<string>)
    ensures parts == Run(Scan(0, [], parts0), arg).parts
  {
    parts := parts0;
    var chars: string := [];
    var n := 0;
    var i := 0;
    while i < |arg|
      invariant 0 <= i <= |arg|
      invariant Scan(n, chars, parts) == Run(Scan(0, [], parts0), arg[..i])
    {
      var c := arg[i];
      assert arg[..i + 1][..i] == arg[..i];
      if c == '{' {
        if n > 0 {
          chars := chars + [c];
        }
        n := n + 1;
      } else if c == '}' {
        n := n - 1;
        if n > 0 {
          chars := chars + [c];
        } else if n == 0 {
          parts := parts + [Strip(chars)];
          chars := [];
        }
      } else if n > 0 {
        chars := chars + [c];
      }
      i := i + 1;
    }
    assert arg[..|arg|] == arg;
  }

  /** balanced_braces(s) for a single string, which the source wraps in a list. */
  method BalancedBraces(s: string) returns (parts: seq<string>)
    ensures parts == Groups(s)
  {
    parts := BalancedBracesAll([s]);
    assert [s][..0] == [];
  }

  /** st with the groups p emitted before it. */
  function After(p: seq<string>, st: Scan): Scan {
    Scan(st.depth, st.chars, p + st.parts)
  }

  /** The groups emitted before the scan do not influence it. */
  lemma {:induction false} RunParts(d: int, c: string, p: seq<string>, s: string)
    ensures Run(Scan(d, c, p), s) == After(p, Run(Scan(d, c, []), s))
    decreases |s|
  {
    if s != [] {
      var s' := s[..|s| - 1];
      RunParts(d, c, p, s');
      StepAfter(p, Run(Scan(d, c, []), s'), s[|s| - 1]);
    }
  }

  lemma StepAfter(p: seq<string>, st: Scan, x: char)
    ensures Step(After(p, st), x) == After(p, Step(st, x))
  {
    if x == '}' && st.depth - 1 == 0 {
      assert p + st.parts + [Strip(st.chars)] == p + (st.parts + [Strip(st.chars)]);
    }
  }

  /** Scanning a concatenation is scanning its parts in turn. */
  lemma {:induction false} RunConcat(st: Scan, a: string, b: string)
    ensures Run(st, a + b) == Run(Run(st, a), b)
    decreases |b|
  {
    if b == [] {
      assert a + b == a;
    } else {
      assert (a + b)[..|a + b| - 1] == a + b[..|b| - 1];
      RunConcat(st, a, b[..|b| - 1]);
    }
  }

  /** At depth zero or below the buffer is empty. */
  ghost predicate Settled(st: Scan) {
    st.depth <= 0 ==> st.chars == []
  }

  lemma {:induction false} RunSettled(st: Scan, s: string)
    requires Settled(st)
    ensures Settled(Run(st, s))
    decreases |s|
  {
    if s != [] {
      RunSettled(st, s[..|s| - 1]);
    }
  }

  /** Without an opening brace the scan never rises above depth zero and
      emits nothing. */
  lemma {:induction false} RunWithoutOpen(st: Scan, s: string)
    requires st.depth <= 0
    requires '{' !in s
    ensures Run(st, s).depth <= 0 && Run(st, s).parts == st.parts
    decreases |s|
  {
    if s != [] {
      assert s[..|s| - 1] + [s[|s| - 1]] == s;
      RunWithoutOpen(st, s[..|s| - 1]);
    }
  }

  /** The shortcut for strings without `{` returns what the scan would. */
  lemma GroupsIsScan(s: string)
    ensures Groups(s) == Run(Start, s).parts
  {
    if '{' !in s {
      RunWithoutOpen(Start, s);
    }
  }

  /** Brace depth of s: opening minus closing braces. */
  function Depth(s: string): int
    decreases |s|
  {
    if s == [] then 0
    else Depth(s[..|s| - 1]) + (if s[|s| - 1] == '{' then 1 else if s[|s| - 1] == '}' then -1 else 0)
  }

  /** No prefix of s closes more braces than it opens. */
  ghost predicate Nested(s: string) {
    forall k :: 0 <= k <= |s| ==> Depth(s[..k]) >= 0
  }

  /** Inside an open group, text whose prefixes never close more than they
      open is buffered verbatim and emits nothing. */
  lemma {:induction false} RunInside(st: Scan, x: string)
    requires st.depth >= 1
    requires Nested(x)
    ensures Run(st, x) == Scan(st.depth + Depth(x), st.chars + x, st.parts)
    decreases |x|
  {
    if x != [] {
      var x' := x[..|x| - 1];
      assert forall k :: 0 <= k <= |x'| ==> x'[..k] == x[..k];
      assert Nested(x');
      RunInside(st, x');
      assert x[..|x|] == x;
      assert x' + [x[|x| - 1]] == x;
    }
  }

  /** Scanning a balanced group `{x}` ends back at depth zero with exactly
      its trimmed content emitted, inner braces kept verbatim. */
  lemma GroupRun(x: string)
    requires Nested(x) && Depth(x) == 0
    ensures Run(Start, "{" + x + "}") == Scan(0, [], [Strip(x)])
  {
    assert Run(Start, "{" + x) == Scan(1, x, []) by {
      OpenOne();
      RunConcat(Start, "{", x);
      RunInside(Scan(1, [], []), x);
    }
    assert Run(Start, "{" + x + "}") == Run(Scan(1, x, []), "}") by {
      RunConcat(Start, "{" + x, "}");
    }
    CloseOne(x);
  }

  lemma OpenOne()
    ensures Run(Start, "{") == Scan(1, [], [])
  {
    assert "{"[..0] == [];
  }

  lemma CloseOne(x: string)
    ensures Run(Scan(1, x, []), "}") == Scan(0, [], [Strip(x)])
  {
    assert "}"[..0] == [];
  }

  /** A balanced group `{x}` yields exactly its trimmed content. */
  lemma SingleGroup(x: string)
    requires Nested(x) && Depth(x) == 0
    ensures Groups("{" + x + "}") == [Strip(x)]
  {
    var s := "{" + x + "}";
    assert '{' in s by {
      assert s[0] == '{';
    }
    assert Run(Start, s).parts == [Strip(x)] by {
      GroupRun(x);
    }
  }

  /** Text without braces has depth zero. */
  lemma {:induction false} PlainDepth(x: string)
    requires '{' !in x && '}' !in x
    ensures Depth(x) == 0
    decreases |x|
  {
    if x != [] {
      PlainDepth(x[..|x| - 1]);
    }
  }

  /** Text without braces is a balanced group content. */
  lemma PlainNested(x: string)
    requires '{' !in x && '}' !in x
    ensures Nested(x) && Depth(x) == 0
  {
    PlainDepth(x);
    forall k | 0 <= k <= |x|
      ensures Depth(x[..k]) >= 0
    {
      PlainDepth(x[..k]);
    }
  }

  /** A brace-free word in braces yields itself. */
  lemma PlainGroup(x: string)
    requires '{' !in x && '}' !in x
    requires x != [] && !IsSpace(x[0]) && !IsSpace(x[|x| - 1])
    ensures Groups("{" + x + "}") == [x]
  {
    PlainNested(x);
    SingleGroup(x);
    StripTrimmed(x);
  }

  /** The nested example: `{A{B}C}` yields `A{B}C`. */
  lemma NestedExample(s: string)
    requires s == "{A{B}C}"
    ensures Groups(s) == ["A{B}C"]
  {
    var x := "A{B}C";
    ExampleSplit(s, x);
    ExampleBalanced();
    SingleGroup(x);
    ExampleStripped(x);
  }

  lemma ExampleSplit(s: string, x: string)
    requires s == "{A{B}C}" && x == "A{B}C"
    ensures s == "{" + x + "}"
  {
  }

  lemma ExampleStripped(x: string)
    requires x == "A{B}C"
    ensures Strip(x) == x
  {
    assert !IsSpace(x[0]) && !IsSpace(x[|x| - 1]);
    StripTrimmed(x);
  }

  /** `A{B}C` never closes more braces than it opens and ends balanced. */
  lemma ExampleBalanced()
    ensures Nested("A{B}C") && Depth("A{B}C") == 0
  {
    var x := "A{B}C";
    assert Depth("A") == 0 by { assert "A"[..0] == []; }
    assert Depth("A{") == 1 by { assert "A{"[..1] == "A"; }
    assert Depth("A{B") == 1 by { assert "A{B"[..2] == "A{"; }
    assert Depth("A{B}") == 0 by { assert "A{B}"[..3] == "A{B"; }
    assert Depth(x) == 0 by { assert x[..4] == "A{B}"; }
    forall k | 0 <= k <= |x|
      ensures Depth(x[..k]) >= 0
    {
      if k == 0 {
        assert x[..k] == [];
      } else if k == 1 {
        assert x[..k] == "A";
      } else if k == 2 {
        assert x[..k] == "A{";
      } else if k == 3 {
        assert x[..k] == "A{B";
      } else if k == 4 {
        assert x[..k] == "A{B}";
      } else {
        assert x[..k] == x;
      }
    }
  }

  /** A text that ends at depth zero splits the groups: those of the text,
      then those of what follows. */
  lemma GroupsConcat(a: string, b: string)
    requires Run(Start, a).depth == 0
    ensures Groups(a + b) == Groups(a) + Groups(b)
  {
    GroupsIsScan(a + b);
    GroupsIsScan(a);
    GroupsIsScan(b);
    RunConcat(Start, a, b);
    RunSettled(Start, a);
    RunParts(0, [], Run(Start, a).parts, b);
    assert Run(Start, a) == Scan(0, [], Run(Start, a).parts);
  }

  /** A group still open at the end of the text is dropped. */
  lemma UnclosedDropped(a: string, x: string)
    requires Run(Start, a).depth == 0
    requires Nested(x)
    ensures Groups(a + "{" + x) == Groups(a)
  {
    GroupsIsScan(a + "{" + x);
    GroupsIsScan(a);
    RunConcat(Start, a + "{", x);
    RunConcat(Start, a, "{");
    RunSettled(Start, a);
    RunInside(Run(Start, a + "{"), x);
  }

  /** A stray `}` at depth zero sends the counter to -1: the next group's
      braces then only bring it back to zero, so that group is lost and the
      groups nested inside it are emitted in its place. */
  lemma StrayCloseShifts(x: string)
    requires Nested(x) && Depth(x) == 0
    ensures Groups("}{" + x + "}") == Groups(x)
  {
    RunConcat(Start, "}{" + x, "}");
    RunConcat(Start, "}{", x);
    assert Run(Start, "}{") == Start;
    GroupsIsScan("}{" + x + "}");
    GroupsIsScan(x);
    RunDepth(Start, x);
  }

  /** The counter follows the brace depth. */
  lemma {:induction false} RunDepth(st: Scan, s: string)
    ensures Run(st, s).depth == st.depth + Depth(s)
    decreases |s|
  {
    if s != [] {
      RunDepth(st, s[..|s| - 1]);
    }
  }

  /** Every group is trimmed. */
  lemma {:induction false} RunTrimmed(st: Scan, s: string)
    requires forall k :: 0 <= k < |st.parts| ==> Trimmed(st.parts[k])
    ensures forall k :: 0 <= k < |Run(st, s).parts| ==> Trimmed(Run(st, s).parts[k])
    decreases |s|
  {
    if s != [] {
      RunTrimmed(st, s[..|s| - 1]);
    }
  }

  lemma GroupsTrimmed(s: string)
    ensures forall k :: 0 <= k < |Groups(s)| ==> Trimmed(Groups(s)[k])
  {
    RunTrimmed(Start, s);
  }

  /** Groups are only emitted on a `}`: a text without one yields none, so
      a definition whose braces close on a later line has no group. */
  lemma {:induction false} RunWithoutClose(st: Scan, s: string)
    requires '}' !in s
    ensures Run(st, s).parts == st.parts
    decreases |s|
  {
    if s != [] {
      assert s[..|s| - 1] + [s[|s| - 1]] == s;
      RunWithoutClose(st, s[..|s| - 1]);
    }
  }

  lemma NoCloseNoGroups(s: string)
    requires '}' !in s
    ensures Groups(s) == []
  {
    RunWithoutClose(Start, s);
  }

  /** A balanced group followed by more text: its content comes first, then
      the groups of the rest. */
  lemma GroupThenRest(x: string, rest: string)
    requires Nested(x) && Depth(x) == 0
    ensures Groups("{" + x + "}" + rest) == [Strip(x)] + Groups(rest)
  {
    var s := "{" + x + "}";
    assert Run(Start, s).depth == 0 by {
      GroupRun(x);
    }
    assert Groups(s) == [Strip(x)] by {
      SingleGroup(x);
    }
    GroupsConcat(s, rest);
  }
}
