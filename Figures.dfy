/** Figure: what one figure block declares (caption, label and the data
    files of includegraphics, plotone, plottwo or subfigures), read with
    parse_command, and how often the text cites it. */
module Figures {
  import opened Wrappers
  import opened Strings
  import opened Braces
  import opened Command

  /** The one-argument commands Figure._parse looks for, in its order. */
  const Commands: seq<string> := [Caption, Label, IncludeGraphics, PlotOne]

  const Caption := "caption"
  const Label := "label"
  const IncludeGraphics := "includegraphics"
  const PlotOne := "plotone"
  const PlotTwo := "plottwo"
  const Subfigure := "subfigure"

  /** The info dictionary; a key the parse never sets reads as None. */
  datatype Info = Info(
    caption: Option<string>,
    labelText: Option<string>,
    includegraphics: Option<string>,
    plotone: Option<string>,
    plottwo: Option<seq<string>>,
    subfigures: Option<seq<string>>)
  {
    /** Figure.files: includegraphics and plotone when present, then every
        plottwo item, then every subfigures item. */
    function Files(): (r: seq<string>)
      ensures includegraphics.Some? ==> |r| > 0 && r[0] == includegraphics.value
      ensures |r| == |OptionToSeq(includegraphics)| + |OptionToSeq(plotone)|
                     + |OptionOrEmpty(plottwo)| + |OptionOrEmpty(subfigures)|
    {
      OptionToSeq(includegraphics) + OptionToSeq(plotone) + OptionOrEmpty(plottwo) + OptionOrEmpty(subfigures)
    }
  }

  function OptionOrEmpty(o: Option<seq<string>>): seq<string> {
    if o.Some? then o.value else []
  }

  /** What the outer `except` leaves: the four commands None, nothing else set. */
  const Fallback := Info(None, None, None, None, None, None)

  /** parse_command(command, code) with its IndexError caught as None. */
  function Arg1(command: string, code: string): Option<string> {
    Text(ParseCommand(command, code, 1))
  }

  /** The arguments found in one subfigure's text: each of cs that parses,
      in the order of cs. */
  function FoundIn(newcode: string, cs: seq<string>): (r: seq<string>)
    ensures |r| <= |cs|
    ensures forall k :: 0 <= k < |r| ==> Trimmed(r[k])
    decreases |cs|
  {
    if cs == [] then []
    else
      var a := Arg1(cs[|cs| - 1], newcode);
      if a.Some? then
        ParseFirstTrimmed(cs[|cs| - 1], newcode);
        FoundIn(newcode, cs[..|cs| - 1]) + [a.value]
      else FoundIn(newcode, cs[..|cs| - 1])
  }

  /** A one-token parse that succeeds returns a trimmed group. */
  lemma ParseFirstTrimmed(command: string, code: string)
    requires Arg1(command, code).Some?
    ensures Trimmed(Arg1(command, code).value)
  {
    ParseFirstGroup(command, code);
  }

  predicate SpansWithin(code: string, ms: seq<(nat, nat)>) {
    forall k :: 0 <= k < |ms| ==> ms[k].0 <= ms[k].1 <= |code|
  }

  /** The matches of `subfigure.*`: from each `subfigure` to its line end. */
  function SubfigureMatches(code: string): (r: seq<(nat, nat)>)
    ensures SpansWithin(code, r)
  {
    var r := MatchesToEol(code, Subfigure, 0);
    assert forall k :: 0 <= k < |r| ==> IsEolMatch(code, Subfigure, 0, r[k]);
    r
  }

  /** What one subfigure match contributes: the arguments in the first
      group of its text; None when it has no group (the IndexError). */
  function MatchArgs(text: string, cs: seq<string>): (r: Option<seq<string>>)
    ensures r.None? <==> Groups(text) == []
    ensures r.Some? ==> |r.value| <= |cs|
  {
    var gs := Groups(text);
    if gs == [] then None else Some(FoundIn(gs[0], cs))
  }

  /** The found list of the subfigure loop over the matches ms, or None
      once a match has no group: that IndexError escapes the loop. */
  function FoundAll(code: string, ms: seq<(nat, nat)>, cs: seq<string>): (r: Option<seq<string>>)
    requires SpansWithin(code, ms)
    decreases |ms|
  {
    if ms == [] then Some([])
    else
      var m := ms[|ms| - 1];
      var before := FoundAll(code, ms[..|ms| - 1], cs);
      var more := MatchArgs(code[m.0..m.1], cs);
      if before.None? || more.None? then None
      else Some(before.value + more.value)
  }

  /** A match whose text holds no closed group. */
  predicate Groupless(code: string, m: (nat, nat)) {
    m.0 <= m.1 <= |code| && Groups(code[m.0..m.1]) == []
  }

  /** The loop fails exactly when some match has no group. */
  lemma {:induction false} FoundAllFails(code: string, ms: seq<(nat, nat)>, cs: seq<string>)
    requires SpansWithin(code, ms)
    ensures FoundAll(code, ms, cs).None? <==> exists k :: 0 <= k < |ms| && Groupless(code, ms[k])
    decreases |ms|
  {
    if ms != [] {
      var ms' := ms[..|ms| - 1];
      FoundAllFails(code, ms', cs);
      FoundAllSnoc(code, ms, cs);
      assert ms == ms' + [ms[|ms| - 1]];
      GrouplessSnoc(code, ms, ms', ms[|ms| - 1]);
    }
  }

  /** The last match fails the loop, or the loop over the others does. */
  lemma FoundAllSnoc(code: string, ms: seq<(nat, nat)>, cs: seq<string>)
    requires SpansWithin(code, ms) && ms != []
    ensures SpansWithin(code, ms[..|ms| - 1])
    ensures FoundAll(code, ms, cs).None? <==>
      FoundAll(code, ms[..|ms| - 1], cs).None? || Groupless(code, ms[|ms| - 1])
  {
  }

  /** Some match is groupless exactly when one of the others is or the
      last one is. */
  lemma GrouplessSnoc(code: string, ms: seq<(nat, nat)>, front: seq<(nat, nat)>, m: (nat, nat))
    requires ms == front + [m]
    ensures (exists k :: 0 <= k < |ms| && Groupless(code, ms[k])) <==>
      (exists k :: 0 <= k < |front| && Groupless(code, front[k])) || Groupless(code, m)
  {
    assert forall k :: 0 <= k < |front| ==> front[k] == ms[k];
    assert ms[|front|] == m;
  }

  /** Figure._parse(code) as a function of the block. */
  function FigureInfo(code: string): Info {
    if Contains(code, Subfigure) then
      match FoundAll(code, SubfigureMatches(code), Commands)
      case None => Fallback
      case Some(found) => Info(Arg1(Caption, code), Arg1(Label, code), None, None, None, Some(found))
    else
      Info(Arg1(Caption, code), Arg1(Label, code), Arg1(IncludeGraphics, code), Arg1(PlotOne, code),
           Items(ParseCommand(PlotTwo, code, 2)), None)
  }

  /** Figure._parse: the subfigure loop, or the five commands of a plain
      block. */
  method ParseInfo(code: string) returns (info: Info)
    ensures info == FigureInfo(code)
  {
    if Contains(code, Subfigure) {
      var found := SubfigureLoop(code, SubfigureMatches(code));
      if found.None? {
        info := Fallback;
      } else {
        var caption := Arg1(Caption, code);
        var labelText := Arg1(Label, code);
        info := Info(caption, labelText, None, None, None, found);
      }
    } else {
      var caption := Arg1(Caption, code);
      var labelText := Arg1(Label, code);
      var includegraphics := Arg1(IncludeGraphics, code);
      var plotone := Arg1(PlotOne, code);
      var plottwo := Items(ParseCommand(PlotTwo, code, 2));
      info := Info(caption, labelText, includegraphics, plotone, plottwo, None);
    }
  }

  /** The loop over the subfigure matches: it stops at the first match
      without a group, where the IndexError escapes. */
  method SubfigureLoop(code: string, ms: seq<(nat, nat)>) returns (found: Option<seq<string>>)
    requires SpansWithin(code, ms)
    ensures found == FoundAll(code, ms, Commands)
  {
    var acc: seq<string> := [];
    var failed := false;
    var k := 0;
    while k < |ms| && !failed
      invariant 0 <= k <= |ms|
      invariant !failed ==> FoundAll(code, ms[..k], Commands) == Some(acc)
      invariant failed ==> FoundAll(code, ms[..k], Commands).None?
    {
      assert ms[..k + 1][..k] == ms[..k];
      var gs := BalancedBraces(code[ms[k].0..ms[k].1]);
      if gs == [] {
        failed := true;
      } else {
        var more := FoundInGroup(gs[0]);
        acc := acc + more;
      }
      k := k + 1;
    }
    if failed {
      FoundAllNone(code, ms, Commands, k);
      found := None;
    } else {
      assert ms[..|ms|] == ms;
      found := Some(acc);
    }
  }

  /** The inner loop: each command parsed in the subfigure's text, the
      ones found appended. */
  method FoundInGroup(newcode: string) returns (found: seq<string>)
    ensures found == FoundIn(newcode, Commands)
  {
    found := ParseEach(newcode, Commands);
  }

  /** The inner loop over a list of commands cs. */
  method ParseEach(newcode: string, cs: seq<string>) returns (found: seq<string>)
    ensures found == FoundIn(newcode, cs)
  {
    found := [];
    for j := 0 to |cs|
      invariant found == FoundIn(newcode, cs[..j])
    {
      var a := Arg1(cs[j], newcode);
      if a.Some? {
        found := found + [a.value];
      }
      FoundInStep(newcode, cs, j);
    }
    assert cs[..|cs|] == cs;
  }

  lemma FoundInStep(newcode: string, cs: seq<string>, j: nat)
    requires j < |cs|
    ensures FoundIn(newcode, cs[..j + 1]) == FoundIn(newcode, cs[..j]) + OptionToSeq(Arg1(cs[j], newcode))
  {
    assert cs[..j + 1][..j] == cs[..j];
  }

  /** Once a match without a group is met, the whole loop fails. */
  lemma FoundAllNone(code: string, ms: seq<(nat, nat)>, cs: seq<string>, k: nat)
    requires SpansWithin(code, ms)
    requires k <= |ms|
    requires SpansWithin(code, ms[..k]) && FoundAll(code, ms[..k], cs).None?
    ensures FoundAll(code, ms, cs).None?
  {
    FoundAllFails(code, ms[..k], cs);
    FoundAllFails(code, ms, cs);
    var i :| 0 <= i < k && Groupless(code, ms[..k][i]);
    assert ms[..k][i] == ms[i];
  }

  /** A figure: its block, its number in the document, its info and its
      reference count. */
  class Figure {
    const code: string
    const number: int
    const info: Info
    var nReferences: int

    constructor(code: string, number: int)
      ensures this.code == code && this.number == number
      ensures Parsed()
      ensures nReferences == 0
    {
      var parsed := ParseInfo(code);
      this.code := code;
      this.number := number;
      this.info := parsed;
      this.nReferences := 0;
    }

    /** The info is what _parse reads from the block. */
    ghost predicate Parsed() {
      info == FigureInfo(code)
    }

    /** set_number_of_references. */
    method SetNumberOfReferences(n: int)
      modifies this
      ensures nReferences == n
    {
      nReferences := n;
    }
  }

  /** A block without `subfigure`: caption and label from the block, the
      files are the includegraphics argument, the plotone argument and the
      plottwo arguments, in that order. */
  lemma PlainFigure(code: string)
    requires !Contains(code, Subfigure)
    ensures FigureInfo(code).caption == Arg1(Caption, code)
    ensures FigureInfo(code).labelText == Arg1(Label, code)
    ensures FigureInfo(code).subfigures.None?
    ensures FigureInfo(code).Files()
         == OptionToSeq(Arg1(IncludeGraphics, code)) + OptionToSeq(Arg1(PlotOne, code))
            + OptionOrEmpty(Items(ParseCommand(PlotTwo, code, 2)))
  {
  }

  /** A block with subfigures whose every match has a group: caption and
      label from the whole block, the files are everything the subfigures
      declared (captions and labels included), and includegraphics,
      plotone and plottwo are never set. */
  lemma SubfigureFigure(code: string)
    requires Contains(code, Subfigure)
    requires forall k :: 0 <= k < |SubfigureMatches(code)| ==> !Groupless(code, SubfigureMatches(code)[k])
    ensures FigureInfo(code).caption == Arg1(Caption, code)
    ensures FigureInfo(code).labelText == Arg1(Label, code)
    ensures FigureInfo(code).includegraphics.None? && FigureInfo(code).plotone.None?
    ensures FigureInfo(code).plottwo.None?
    ensures FoundAll(code, SubfigureMatches(code), Commands).Some?
         && FigureInfo(code).Files() == FoundAll(code, SubfigureMatches(code), Commands).value
  {
    FoundAllFails(code, SubfigureMatches(code), Commands);
  }

  /** A subfigure match without a closed group throws away everything:
      all four fields None and no file. */
  lemma SubfigureWithoutGroup(code: string, k: nat)
    requires Contains(code, Subfigure)
    requires k < |SubfigureMatches(code)|
    requires Groupless(code, SubfigureMatches(code)[k])
    ensures FigureInfo(code) == Fallback
    ensures FigureInfo(code).labelText.None? && FigureInfo(code).Files() == []
  {
    FoundAllFails(code, SubfigureMatches(code), Commands);
  }

  /** The `\begin{subfigure}{width}` line is such a match: its `}` right
      after the name sends the depth to -1, so the width group is lost. */
  lemma SubfigureEnvironmentLine(w: string, x: string)
    requires '{' !in w && '}' !in w && '{' !in x && '}' !in x
    ensures Groups(w + "}{" + x + "}") == []
  {
    PlainDepth(w);
    RunDepth(Start, w);
    GroupsConcat(w, "}{" + x + "}");
    NoCloseNoGroups(w);
    PlainNested(x);
    StrayCloseShifts(x);
    NoCloseNoGroups(x);
    assert w + "}{" + x + "}" == w + ("}{" + x + "}");
  }

  /** A block in which neither `subfigure` nor any command name occurs has
      no caption, no label and no file. */
  lemma FigureWithoutCommands(code: string)
    requires !Contains(code, Subfigure)
    requires !Contains(code, Caption) && !Contains(code, Label)
    requires !Contains(code, IncludeGraphics) && !Contains(code, PlotOne) && !Contains(code, PlotTwo)
    ensures FigureInfo(code).caption.None? && FigureInfo(code).labelText.None?
    ensures FigureInfo(code).Files() == []
  {
    PlainFigure(code);
    PlainNames();
    ArgAbsent(Caption, code);
    ArgAbsent(Label, code);
    ArgAbsent(IncludeGraphics, code);
    ArgAbsent(PlotOne, code);
    AbsentCommand(PlotTwo, code, 2);
    assert OptionOrEmpty(Items(ParseCommand(PlotTwo, code, 2))) == [];
  }

  /** No command name holds a backslash. */
  lemma PlainNames()
    ensures '\\' !in Caption && '\\' !in Label && '\\' !in IncludeGraphics
    ensures '\\' !in PlotOne && '\\' !in PlotTwo
  {
  }

  lemma ArgAbsent(command: string, code: string)
    requires '\\' !in command
    requires !Contains(code, command)
    ensures Arg1(command, code).None?
  {
    AbsentCommand(command, code, 1);
  }
}
