/** parse_command: the brace arguments that follow the first occurrence of a
    LaTeX command, after a `[...]` option group has been cut out of the
    text. Python's IndexError is the None case. The command name is taken
    to hold no regular-expression metacharacter, so every pattern built
    from it is a literal scan. */
module Command {
  import opened Wrappers
  import opened Strings
  import opened Braces

  /** What parse_command returns: one string when one token is asked for,
      a list otherwise. */
  datatype Arg = Single(text: string) | Several(items: seq<string>)

  /** command.replace('\\', ''): the name the patterns are built from. */
  function SafeName(command: string): string {
    Replace(command, "\\", "")
  }

  /** The end of a match of `safe\s*\[.*\]` starting at an occurrence p of
      safe: any whitespace (newlines included), a `[`, and then the last `]`
      of the line that `[` is on. */
  function OptionAt(code: string, safe: string, p: nat): (r: Option<nat>)
    requires OccursAt(code, safe, p)
    ensures r.Some? ==> IsOptionMatch(code, safe, p, r.value)
  {
    var q := SkipSpace(code, p + |safe|);
    if q < |code| && code[q] == '[' then
      var e := EndOfLine(code, q);
      match LastIndexFrom(code[..e], ']', q + 1)
      case Some(c) => Some(c + 1)
      case None => None
    else None
  }

  /** code[p..b] is an option group after safe: the `[` opening it is the
      first character after the whitespace, the `]` closing it is the last
      one of that line. */
  predicate IsOptionMatch(code: string, safe: string, p: nat, b: nat) {
    && p + |safe| <= |code|
    && var q := SkipSpace(code, p + |safe|);
    && q + 1 < b <= |code| && code[q] == '[' && code[b - 1] == ']'
    && (forall j :: q <= j < b ==> code[j] != '\n')
    && forall j :: b <= j < EndOfLine(code, q) ==> code[j] != ']'
  }

  /** OptionAt finds every option group there is: the closing `]` is
      determined by the match. */
  lemma OptionAtComplete(code: string, safe: string, p: nat, b: nat)
    requires OccursAt(code, safe, p)
    requires IsOptionMatch(code, safe, p, b)
    ensures OptionAt(code, safe, p) == Some(b)
  {
    var q := SkipSpace(code, p + |safe|);
    var e := EndOfLine(code, q);
    assert b <= e;
    assert code[..e][b - 1] == ']';
    var c := LastIndexFrom(code[..e], ']', q + 1).value;
    assert code[..e][c] == code[c];
  }

  /** The span (start, end) of the first match of `safe\s*\[.*\]` at or after
      from: the first occurrence of safe that is followed by an option group. */
  function OptionFrom(code: string, safe: string, from: nat): (r: Option<(nat, nat)>)
    ensures r.Some? ==>
      && from <= r.value.0 && OccursAt(code, safe, r.value.0)
      && IsOptionMatch(code, safe, r.value.0, r.value.1)
    ensures forall p :: from <= p && (r.None? || p < r.value.0) && OccursAt(code, safe, p) ==>
      OptionAt(code, safe, p).None?
    decreases |code| + 1 - from
  {
    match FindFrom(code, safe, from)
    case None => None
    case Some(p) =>
      match OptionAt(code, safe, p)
      case Some(b) => Some((p, b))
      case None =>
        var r := OptionFrom(code, safe, p + 1);
        assert forall q :: from <= q && (r.None? || q < r.value.0) && OccursAt(code, safe, q) ==>
          OptionAt(code, safe, q).None? by {
          forall q | from <= q && (r.None? || q < r.value.0) && OccursAt(code, safe, q)
            ensures OptionAt(code, safe, q).None?
          {
            if q == p { assert OptionAt(code, safe, p).None?; }
            else { assert p + 1 <= q; }
          }
        }
        r
  }

  /** The code parse_command searches, as the source writes it: unchanged
      when there is no option match; otherwise every occurrence of the
      option match, with every occurrence of command taken out of it, is
      removed from the code. For a command written with its backslash the
      match starts with the bare name, so the name goes with the option. */
  function CleanedAsWritten(command: string, code: string): string {
    match OptionFrom(code, SafeName(command), 0)
    case None => code
    case Some((a, b)) => Replace(code, Replace(code[a..b], command, ""), "")
  }

  /** The code parse_command evidently means to search: the option match
      with the bare name taken out, so only the option group is removed. */
  function Cleaned(command: string, code: string): string {
    match OptionFrom(code, SafeName(command), 0)
    case None => code
    case Some((a, b)) => Replace(code, Replace(code[a..b], SafeName(command), ""), "")
  }

  /** The brace groups of the text after the first `\safe` of c; None when
      there is none (the IndexError). */
  function GroupsAfter(c: string, safe: string): (r: Option<seq<string>>)
    ensures r.None? <==> !Contains(c, "\\" + safe)
    ensures r.Some? ==> forall k :: 0 <= k < |r.value| ==> Trimmed(r.value[k])
  {
    var pat := "\\" + safe;
    match Find(c, pat)
    case None => None
    case Some(i) =>
      GroupsTrimmed(c[i + |pat|..]);
      Some(Groups(c[i + |pat|..]))
  }

  /** The groups parse_command picks its tokens from. */
  function Arguments(command: string, code: string): Option<seq<string>> {
    GroupsAfter(Cleaned(command, code), SafeName(command))
  }

  /** The tokens taken from the groups: the first one as a string when one
      is asked for (IndexError when there is none), else the list cut at
      tokens. */
  function Pick(args: Option<seq<string>>, tokens: int): (r: Option<Arg>)
    ensures r.None? <==> args.None? || (tokens == 1 && args.value == [])
    ensures tokens == 1 && r.Some? ==> r == Some(Single(args.value[0]))
    ensures tokens != 1 && r.Some? ==> r.value.Several? && IsSeqPrefix(r.value.items, args.value)
  {
    match args
    case None => None
    case Some(gs) =>
      var t := Take(gs, tokens);
      if tokens == 1 then
        if t == [] then None else Some(Single(t[0]))
      else Some(Several(t))
  }

  /** parse_command(command, code, tokens) with the option removal
      corrected. */
  function ParseCommand(command: string, code: string, tokens: int): Option<Arg> {
    Pick(Arguments(command, code), tokens)
  }

  /** parse_command(command, code, tokens) as the source writes it. */
  function ParseCommandAsWritten(command: string, code: string, tokens: int): Option<Arg> {
    Pick(GroupsAfter(CleanedAsWritten(command, code), SafeName(command)), tokens)
  }

  /** The string of a one-token parse, or None where the source catches the
      IndexError. */
  function Text(a: Option<Arg>): (r: Option<string>)
    ensures r.Some? <==> a.Some? && a.value.Single?
  {
    match a
    case Some(Single(t)) => Some(t)
    case _ => None
  }

  /** The list of a several-token parse, or None where the source catches
      the IndexError. */
  function Items(a: Option<Arg>): (r: Option<seq<string>>)
    ensures r.Some? <==> a.Some? && a.value.Several?
  {
    match a
    case Some(Several(items)) => Some(items)
    case _ => None
  }

  /** Asking for one token gives the first group after the command, trimmed. */
  lemma ParseFirstGroup(command: string, code: string)
    requires Arguments(command, code).Some? && Arguments(command, code).value != []
    ensures ParseCommand(command, code, 1) == Some(Single(Arguments(command, code).value[0]))
    ensures Trimmed(ParseCommand(command, code, 1).value.text)
  {
  }

  /** Asking for several tokens never fails once the command is found; the
      list is the first groups after it, shorter when there are fewer. */
  lemma ParseSeveral(command: string, code: string, tokens: nat)
    requires tokens != 1
    requires Contains(Cleaned(command, code), "\\" + SafeName(command))
    ensures ParseCommand(command, code, tokens).Some?
    ensures var items := ParseCommand(command, code, tokens).value.items;
      && IsSeqPrefix(items, Arguments(command, code).value)
      && |items| == if tokens < |Arguments(command, code).value| then tokens else |Arguments(command, code).value|
  {
  }

  /** Asking for more tokens extends the list; the one-token string is its
      first element. */
  lemma ParseTokensPrefix(command: string, code: string, n: nat, m: nat)
    requires 1 < n <= m
    requires ParseCommand(command, code, n).Some?
    ensures ParseCommand(command, code, m).Some?
    ensures IsSeqPrefix(ParseCommand(command, code, n).value.items, ParseCommand(command, code, m).value.items)
    ensures ParseCommand(command, code, 1).Some? ==>
      ParseCommand(command, code, n).value.items[0] == ParseCommand(command, code, 1).value.text
  {
    var gs := Arguments(command, code).value;
    assert Take(gs, n) == Take(gs, m)[..|Take(gs, n)|];
  }

  /** Without any `[` there is no option match and nothing is removed. */
  lemma {:induction false} NoOptionFrom(code: string, safe: string, from: nat)
    requires '[' !in code
    ensures OptionFrom(code, safe, from).None?
    decreases |code| + 1 - from
  {
    match FindFrom(code, safe, from)
    case None =>
    case Some(p) =>
      NoOptionFrom(code, safe, p + 1);
  }

  lemma NoOptionUnchanged(command: string, code: string)
    requires '[' !in code
    ensures Cleaned(command, code) == code
  {
    NoOptionFrom(code, SafeName(command), 0);
  }

  /** Without a `[`, the arguments are those after the first `\command`. */
  lemma ArgumentsWithoutOption(command: string, code: string, i: nat)
    requires '[' !in code
    requires Find(code, "\\" + SafeName(command)) == Some(i)
    ensures Arguments(command, code) == Some(Groups(code[i + 1 + |SafeName(command)|..]))
  {
    NoOptionUnchanged(command, code);
  }

  /** For a command written without a backslash the bare name is the
      command, and the source's option removal is the corrected one. */
  lemma AsWrittenAgrees(command: string, code: string, tokens: int)
    requires '\\' !in command
    ensures ParseCommandAsWritten(command, code, tokens) == ParseCommand(command, code, tokens)
  {
    ContainsChar(command, '\\');
    ReplaceAbsent(command, "\\", "");
  }

  /** The bare name of `\section` is `section`. */
  lemma SectionName()
    ensures SafeName("\\section") == "section"
  {
    var c := "\\section";
    assert OccursAt(c, "\\", 0);
    FindFromFirst(c, "\\", 0, 0);
    assert c[1..] == "section";
    NotContains("section", "\\");
    ReplaceOnce(c, "\\", "", 0, 1);
  }

  /** In `\name` followed by an option group and a text without `]`, the
      option match runs from the name to the end of the group. */
  lemma OptionExample(code: string, safe: string, opt: string, rest: string, p: nat, b: nat)
    requires code == "\\" + safe + opt + rest
    requires safe != [] && safe[0] != '\\'
    requires |opt| >= 2 && opt[0] == '[' && opt[|opt| - 1] == ']' && '\n' !in opt
    requires ']' !in rest
    requires p == 1 + |safe| && b == p + |opt|
    ensures OptionFrom(code, safe, 0) == Some((1, b))
  {
    assert code[1..p] == safe;
    assert code[p..b] == opt;
    assert code[b..] == rest;
    assert OccursAt(code, safe, 1);
    assert !OccursAt(code, safe, 0) by {
      Mismatch(code, safe, 0, 0);
    }
    FindFromFirst(code, safe, 0, 1);
    assert SkipSpace(code, p) == p by {
      assert code[p] == opt[0];
    }
    CharAbsent(code, '\n', p, b);
    CharAbsent(code, ']', b, |code|);
    assert code[b - 1] == opt[|opt| - 1];
    assert IsOptionMatch(code, safe, 1, b);
    OptionAtComplete(code, safe, 1, b);
  }

  /** In `\section[S]{Long}` the option match is `section[S]`. */
  lemma SectionOption(code: string)
    requires code == "\\section" + "[S]" + "{Long}"
    ensures OptionFrom(code, "section", 0) == Some((1, 11))
  {
    assert code == "\\" + "section" + "[S]" + "{Long}";
    OptionExample(code, "section", "[S]", "{Long}", 8, 11);
  }

  /** As written, parse_command loses `\section` together with its option
      and finds no title: the IndexError. */
  lemma SectionOptionAsWritten(command: string, code: string)
    requires command == "\\section"
    requires code == "\\section" + "[S]" + "{Long}"
    ensures ParseCommandAsWritten(command, code, 1).None?
  {
    var c := "\\" + "{Long}";
    assert CleanedAsWritten(command, code) == c by {
      SectionName();
      SectionOption(code);
      SectionAsWrittenRemoval(code);
    }
    assert GroupsAfter(c, "section").None? by {
      assert |c| < |"\\section"|;
    }
    SectionName();
  }

  /** The as-written removal in `\section[S]{Long}`: the option match
      keeps its name and is cut out whole. */
  lemma SectionAsWrittenRemoval(code: string)
    requires code == "\\section" + "[S]" + "{Long}"
    ensures Replace(code, Replace(code[1..11], "\\section", ""), "") == "\\" + "{Long}"
  {
    var opt := code[1..11];
    assert opt == "section[S]";
    assert Replace(opt, "\\section", "") == opt by {
      NotContains(opt, "\\section");
      ReplaceAbsent(opt, "\\section", "");
    }
    assert Replace(code, opt, "") == "\\" + "{Long}" by {
      assert OccursAt(code, opt, 1);
      assert !OccursAt(code, opt, 0) by {
        Mismatch(code, opt, 0, 0);
      }
      FindFromFirst(code, opt, 0, 1);
      assert code[..1] == "\\" && code[11..] == "{Long}";
      NotContains("{Long}", opt);
      ReplaceOnce(code, opt, "", 1, 11);
    }
  }

  /** Corrected, only the option group goes and the title is found. */
  lemma SectionOptionFixed(command: string, code: string)
    requires command == "\\section"
    requires code == "\\section" + "[S]" + "{Long}"
    ensures ParseCommand(command, code, 1) == Some(Single("Long"))
  {
    var c := "\\section" + "{Long}";
    assert Cleaned(command, code) == c by {
      SectionName();
      SectionOption(code);
      SectionFixedRemoval(code);
    }
    assert GroupsAfter(c, "section") == Some(["Long"]) by {
      SectionFixedGroups(c);
    }
    SectionName();
  }

  /** The corrected removal in `\section[S]{Long}` cuts out `[S]` only. */
  lemma SectionFixedRemoval(code: string)
    requires code == "\\section" + "[S]" + "{Long}"
    ensures Replace(code, Replace(code[1..11], "section", ""), "") == "\\section" + "{Long}"
  {
    var opt := code[1..11];
    assert opt == "section[S]";
    assert Replace(opt, "section", "") == "[S]" by {
      assert OccursAt(opt, "section", 0);
      FindFromFirst(opt, "section", 0, 0);
      assert opt[7..] == "[S]";
      NotContains("[S]", "section");
      ReplaceOnce(opt, "section", "", 0, 7);
    }
    assert Replace(code, "[S]", "") == "\\section" + "{Long}" by {
      assert OccursAt(code, "[S]", 8);
      assert code[0..8] == "\\section";
      FirstCharAbsent(code, "[S]", 0, 8);
      FindFromFirst(code, "[S]", 0, 8);
      assert code[11..] == "{Long}";
      NotContains("{Long}", "[S]");
      ReplaceOnce(code, "[S]", "", 8, 11);
    }
  }

  lemma SectionFixedGroups(c: string)
    requires c == "\\section" + "{Long}"
    ensures GroupsAfter(c, "section") == Some(["Long"])
  {
    assert Find(c, "\\section") == Some(0) by {
      assert OccursAt(c, "\\section", 0);
      FindFromFirst(c, "\\section", 0, 0);
    }
    var x := "Long";
    assert c[8..] == "{" + x + "}";
    assert Groups("{" + x + "}") == [x] by {
      assert !IsSpace(x[0]) && !IsSpace(x[3]);
      PlainGroup(x);
    }
  }

  /** `\includegraphics[width=3cm]{a.png}` gives `a.png`: the option group
      is removed before the file name is read. */
  lemma IncludeGraphicsExample(command: string, code: string)
    requires command == "includegraphics"
    requires code == "\\includegraphics" + "[width=3cm]" + "{a.png}"
    ensures ParseCommand(command, code, 1) == Some(Single("a.png"))
  {
    var c := "\\includegraphics" + "{a.png}";
    assert SafeName(command) == command by {
      NotContains(command, "\\");
      ReplaceAbsent(command, "\\", "");
    }
    assert Cleaned(command, code) == c by {
      IncludeGraphicsOption(command, code);
      IncludeGraphicsRemoval(command, code);
    }
    assert GroupsAfter(c, command) == Some(["a.png"]) by {
      IncludeGraphicsGroups(command, c);
    }
  }

  lemma IncludeGraphicsOption(safe: string, code: string)
    requires safe == "includegraphics"
    requires code == "\\includegraphics" + "[width=3cm]" + "{a.png}"
    ensures OptionFrom(code, safe, 0) == Some((1, 27))
  {
    assert code == "\\" + safe + "[width=3cm]" + "{a.png}";
    OptionExample(code, safe, "[width=3cm]", "{a.png}", 16, 27);
  }

  lemma IncludeGraphicsRemoval(safe: string, code: string)
    requires safe == "includegraphics"
    requires code == "\\includegraphics" + "[width=3cm]" + "{a.png}"
    ensures Replace(code, Replace(code[1..27], safe, ""), "") == "\\includegraphics" + "{a.png}"
  {
    var opt := "[width=3cm]";
    assert code[1..27] == safe + opt;
    assert Replace(safe + opt, safe, "") == opt by {
      NameStripped(safe, opt);
    }
    assert Replace(code, opt, "") == "\\includegraphics" + "{a.png}" by {
      OptionCut(code, opt);
    }
  }

  lemma NameStripped(safe: string, opt: string)
    requires safe == "includegraphics" && opt == "[width=3cm]"
    ensures Replace(safe + opt, safe, "") == opt
  {
    assert OccursAt(safe + opt, safe, 0);
    FindFromFirst(safe + opt, safe, 0, 0);
    assert (safe + opt)[15..] == opt;
    assert Find(opt, safe) == None;
    ReplaceOnce(safe + opt, safe, "", 0, 15);
  }

  lemma OptionCut(code: string, opt: string)
    requires opt == "[width=3cm]"
    requires code == "\\includegraphics" + opt + "{a.png}"
    ensures Replace(code, opt, "") == "\\includegraphics" + "{a.png}"
  {
    assert OccursAt(code, opt, 16);
    assert code[0..16] == "\\includegraphics";
    FirstCharAbsent(code, opt, 0, 16);
    FindFromFirst(code, opt, 0, 16);
    assert code[27..] == "{a.png}";
    NotContains("{a.png}", opt);
    ReplaceOnce(code, opt, "", 16, 27);
  }

  lemma IncludeGraphicsGroups(safe: string, c: string)
    requires safe == "includegraphics"
    requires c == "\\includegraphics" + "{a.png}"
    ensures GroupsAfter(c, safe) == Some(["a.png"])
  {
    assert Find(c, "\\" + safe) == Some(0) by {
      assert OccursAt(c, "\\" + safe, 0);
      FindFromFirst(c, "\\" + safe, 0, 0);
    }
    var x := "a.png";
    assert c[16..] == "{" + x + "}";
    assert Groups("{" + x + "}") == [x] by {
      assert !IsSpace(x[0]) && !IsSpace(x[4]);
      PlainGroup(x);
    }
  }

  /** A command whose name does not occur in the code is not found, however
      many tokens are asked for. */
  lemma AbsentCommand(command: string, code: string, tokens: int)
    requires '\\' !in command
    requires !Contains(code, command)
    ensures ParseCommand(command, code, tokens).None?
  {
    NotContains(command, "\\");
    ReplaceAbsent(command, "\\", "");
    assert SafeName(command) == command;
    assert Cleaned(command, code) == code;
    if Contains(code, "\\" + command) {
      ContainsTail(code, '\\', command);
    }
  }
}
