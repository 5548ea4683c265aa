# arxiv_on_deck: the LaTeX extraction core, in Dafny

arxiv_on_deck reads the LaTeX source of an arXiv paper and builds a small
document model from it, without a LaTeX grammar:

- its header, comment-free body and macro definitions;
- its figures, numbered in document order, with the files they include and
  how often the text cites them;
- its abstract;
- its section outline;
- the three most cited figures.

It also marks a group's staff in the author lists of arXiv papers.

This project models that core of `app.py` in Dafny and proves properties of
the model. Regular expressions become explicit literal scans over
`seq<char>`. Python's string built-ins are spelled out in module `Strings`:

- `find`, `count`/`findall` of a literal, `replace` (including the empty
  pattern), `strip`, `split()`, `split(sep)`, `splitlines`, `join`;
- slicing with negative and out-of-range bounds.

An `IndexError` the code raises or catches becomes `Option.None`.

The modules follow the program:

| module | models |
|---|---|
| `Braces` | `balanced_braces` |
| `Comments` | `clear_comments` |
| `Latex` | `get_latex_header`, `get_latex_body`, `get_latex_macros`, `get_latex_figures`, `get_latex_environment` |
| `Command` | `parse_command` |
| `Figures` | class `Figure` |
| `Documents` | class `Document` (figures, references, abstract) |
| `Structure` | `Document._parse_structure` |
| `Selection` | `ExportPDFLatexTemplate.select_figures` |
| `Papers` | class `ArXivPaper`, `highlight_papers`, `filter_papers` |
| `Mitarbeiter` | `get_mitarbeiter` |
| `StringOrder` | the order `sorted` uses on strings |

Where the code works step by step, the model is imperative: loops with
invariants, and classes whose methods update their fields. Each such
method is proved equal to a specification function, and the properties are
proved about that function.

Two behaviours of the code shape the model:

- `parse_command` reads only the first occurrence of `\command`
  (app.py:147); a later occurrence is never looked at.
- A stray `}` outside any group drives the depth counter of
  `balanced_braces` to -1 (app.py:61-67), so the outer braces of the next
  group are lost; `Braces.StrayCloseShifts` states this.

## Model

| member | source | states |
|---|---|---|
| Braces.BalancedBraces | app.py:49-72 | the character loop with its depth counter, buffer and parts yields exactly the groups of the string |
| Braces.ScanChars | app.py:53-71 | the character loop over one string appends to the parts exactly what the scan from depth 0 with an empty buffer emits |
| Braces.BalancedBracesAll | app.py:47-72 | a string argument is treated as a one-element list; the list form is the concatenation of the groups of each string |
| Braces.Groups | app.py:49-72 | balanced_braces of one string: the parts the depth-counting scan emits from depth 0, none for a string without `{`; `BalancedBraces` is proved equal to it and the `Braces` lemmas state its properties |
| Braces.GroupsIsScan | app.py:53-71 | the groups of a string are the parts of the scan from depth 0, so the scan reading can be used for proofs |
| Braces.RunConcat | app.py:56-71 | scanning a + b is scanning b from the state left after a |
| Braces.SingleGroup | app.py:56-67 | a balanced `{x}` yields exactly one part, the stripped inner text |
| Braces.NestedExample | app.py:56-67 | inner braces are kept verbatim: `{A{B}C}` yields `A{B}C` |
| Braces.GroupsConcat | app.py:56-71 | after a prefix that returns to depth 0, the groups of the rest follow the groups of the prefix |
| Braces.GroupThenRest | app.py:56-71 | a leading balanced group is emitted first, then the groups of the rest |
| Braces.UnclosedDropped | app.py:53-67 | a group still open at the end of the string contributes nothing |
| Braces.StrayCloseShifts | app.py:61-67 | a stray `}` at depth 0 drives the counter to -1, so a following balanced string yields only the groups inside it |
| Braces.RunDepth | app.py:55-62 | the final depth is the starting depth plus the count of `{` minus the count of `}`, never clamped |
| Braces.GroupsTrimmed | app.py:66 | every emitted part is whitespace-trimmed |
| Braces.NoCloseNoGroups | app.py:61-67 | a string without `}` yields nothing: only a closing brace emits a part |
| Braces.RunWithoutOpen | app.py:50-52 | from depth 0 or below, a string without `{` adds no part and leaves the depth at most 0 |
| Comments.CutComment | app.py:106-110 | the cut line is a prefix of the line with no unescaped `%`; it stops exactly at the first unescaped `%`; a line without one is unchanged |
| Comments.ClearComments | app.py:103-111 | the loop over the lines equals cutting every line and joining the lines with newlines |
| Comments.Cleared | app.py:103-111 | the text clear_comments returns: every `splitlines` line cut at its first unescaped `%`, joined with "\n"; `ClearComments` is proved equal to it |
| Comments.CutAllLines | app.py:105-110 | the k-th output line is the k-th input line cut at its comment |
| Comments.ClearedLines | app.py:103-111 | one output line per input line, each the input line cut at its comment |
| Comments.ClearedUncommented | app.py:103-111 | the cleared text contains no unescaped `%` |
| Comments.ClearedTwice | app.py:103-111 | clearing again changes nothing when the last line does not clear to empty |
| Comments.EscapedPercentKept | app.py:107 | a line containing only `\%` is kept unchanged |
| Comments.NotIdempotent | app.py:105-111 | a final line that clears to empty loses its newline on a second pass |
| Latex.Header | app.py:82-85 | the header is None exactly when `begin{document}` is missing; otherwise it is the prefix of the source ending at the first marker |
| Latex.HeaderOfHeader | app.py:82-85 | the header of the header is the header |
| Latex.Body | app.py:75-79 | the body is None exactly when either marker is missing; otherwise it contains no unescaped `%` |
| Latex.BodyBetween | app.py:75-79 | when the first `begin{document}` ends before the text x and the first `end{document}` follows it directly, the body is x with its comments cleared |
| Latex.BodyExample | app.py:75-79 | the body is taken between the markers with comments cut, as in a worked example |
| Latex.LineFrom | app.py:94-95 | a `\def`-style match exists exactly when the line contains the pattern; it starts with the pattern and runs to the end of the line |
| Latex.MatchesOf | app.py:94-95 | the `pat.*` matches of the header lines: every item starts with the pattern; `MatchesOfLine` and `MatchesConcat` give which lines contribute, in what order |
| Latex.MatchesOfLine | app.py:94-95 | one line contributes its `pat.*` match, or nothing when it lacks the pattern |
| Latex.MatchesConcat | app.py:94-95 | matches keep line order and multiplicity: the matches of two blocks of lines are those of the first followed by those of the second |
| Latex.LineCommand | app.py:91 | a `command{...}` match is the slice of the line from its first `command{` through its last `}` |
| Latex.WithGroups | app.py:94-95 | the definitions kept are exactly those with at least one closed brace group |
| Latex.WithGroupsOne | app.py:94-95 | one definition is kept, once, exactly when balanced_braces finds a group in it |
| Latex.WithGroupsConcat | app.py:94-95 | the filter keeps order and repeats: filtering two lists joined is joining the two filtered lists |
| Latex.MultilineDefDropped | app.py:93-95 | a definition line without `}` is never kept |
| Latex.Macros | app.py:88-100 | the macros are None exactly when the header cannot be taken |
| Latex.MacroText | app.py:90-96 | the macro text of a header: the `command{.*}` matches joined by "\n" with `command` replaced by `\providecommand`, then the kept `\def` lines and the kept `\gdef` lines, each in line order; `MacroTextPerMatch` and `MacroTextWithoutCommands` state it, and `MatchesOfLine`, `MatchesConcat`, `WithGroupsOne` and `WithGroupsConcat` say which lines enter, in what order and how often |
| Latex.CommandsMembers | app.py:91 | a text is a `command{.*}` match exactly when it is the match of one of the header's lines |
| Latex.CommandsConcat | app.py:91 | matches keep line order: the matches of two blocks of lines are those of the first followed by those of the second |
| Latex.CommandsOfLine | app.py:91 | one line gives its own match, or none |
| Latex.NoLineCommands | app.py:91 | lines none of which holds a match give no matches |
| Latex.MacroTextPerMatch | app.py:91-96 | the `command` to `\providecommand` rewrite acts match by match: the macro text is the rewritten matches joined by newlines, followed directly by the kept `\def` and `\gdef` lines |
| Latex.MacroTextWithoutCommands | app.py:91-96 | a header without any `command{...}` line gives the kept `\def` then `\gdef` lines joined by newlines, nothing else |
| Latex.MacrosOfHeader | app.py:88-90 | macros of the header equal macros of the whole source, so the document passing its header is harmless |
| Latex.NoMacros | app.py:91-96 | a header with no `command{`, `\def` or `\gdef` gives no macro text |
| Latex.LinesWith | app.py:116-117 | exactly the lines that contain the pattern, taken from the lines given |
| Latex.LinesWithInOrder | app.py:116-117 | when the lines given are in text order, so are the ones kept |
| Latex.LinesInTextOrder | app.py:116-117 | the lines of a text come in text order, each ending before the next starts |
| Latex.FigureBegins | app.py:116 | the lines matched by `(?<!%).*begin{figure`, each match starting at the start of its line |
| Latex.FigureEnds | app.py:117 | the lines matched by `(?<!%).*end{figure.*`, each match ending at the end of its line |
| Latex.FigureLinesInTextOrder | app.py:116-118 | begin lines and end lines are each listed in text order, so the k-th block starts before the (k+1)-th and figures are numbered in document order |
| Latex.FigureBlocks | app.py:114-119 | there are as many blocks as the shorter of the begin and end match lists |
| Latex.FigureLinesOrdered | app.py:116-118 | a block that does not run backwards starts at its begin line and ends at its end line |
| Latex.FigureBlockLines | app.py:118 | the k-th block runs from the start of the k-th begin line to the end of the k-th end line |
| Latex.Environment | app.py:154-182 | one content per begin/end pair matched by position: as many as the fewer of the two tag lists |
| Latex.EnvironmentSingle | app.py:178-182 | a source holding one `begin{env}` and one `end{env}` around text x gives exactly [x] in content mode |
| Latex.EnvironmentSingleWhole | app.py:174-177 | the same source gives, in whole mode, one slice from the character before `begin{env}` to the end of the `end{env}` line (to the end of the source when no newline follows) |
| Latex.EnvironmentEmpty | app.py:174-182 | there is no content exactly when `begin{env}` or `end{env}` is missing |
| Latex.EnvironmentExample | app.py:174-181 | both modes on an example: the inner text with one character sliced off each side, or the whole environment |
| Command.OptionAt | app.py:143 | an option found after the command is a match of `safe\s*\[.*\]` |
| Command.OptionAtComplete | app.py:143 | every match of the option pattern at that point is the one found |
| Command.OptionFrom | app.py:143 | an option found starts at an occurrence of the name at or after the start, and the pattern matches there; no earlier occurrence from the start carries an option, so a None means no occurrence does |
| Command.OptionExample | app.py:143-146 | `\cmd[opt]rest` with no `]` in rest: the option runs from the command name through the `]` |
| Command.GroupsAfter | app.py:147-148 | None exactly when `\command` is missing; otherwise the groups found after its first occurrence, all trimmed |
| Command.CleanedAsWritten | app.py:142-146 | the code searched as written: unchanged without an option match, else with every occurrence of the match, less every occurrence of the command, removed |
| Command.Cleaned | app.py:142-146 | the code searched as intended: the same, with the bare name rather than the command taken out of the match, so only the option goes; `NoOptionUnchanged` gives the no-option case |
| Command.ParseCommand | app.py:142-151 | parse_command with the option removal corrected: None where the source raises IndexError, else the picked groups after the first `\name` of the cleaned code; for a name without a backslash it equals the code as written (`AsWrittenAgrees`), which covers every name the figure and abstract code passes |
| Command.ParseCommandAsWritten | app.py:142-151 | parse_command as the code writes it; for `\section[S]{Long}` it raises where the corrected one gives `Long` (`SectionOptionAsWritten`) |
| Command.Pick | app.py:148-151 | tokens=1 gives the first group, and fails when there is none; any other count gives a prefix of the groups and never fails |
| Command.ParseFirstGroup | app.py:147-150 | with at least one group, tokens=1 returns the first, trimmed |
| Command.ParseSeveral | app.py:147-151 | tokens>1 succeeds whenever the command occurs, with at most `tokens` groups |
| Command.ParseTokensPrefix | app.py:148 | asking for more tokens extends the list; the single token is its first item |
| Command.NoOptionUnchanged | app.py:143-146 | a source without `[` is searched unchanged |
| Command.ArgumentsWithoutOption | app.py:147-148 | without an option, the groups are those of the text after the first `\command` |
| Command.AbsentCommand | app.py:147 | a missing command raises (None) for every token count |
| Command.IncludeGraphicsExample | app.py:142-150 | `\includegraphics[width=3cm]{a.png}` gives `a.png` |
| Command.AsWrittenAgrees | app.py:142-146 | for a command name without a backslash, the code as written and the corrected removal agree |
| Command.SectionOptionAsWritten | app.py:142-147 | as written, `\section` with an option raises: the option's removal also deletes the command name |
| Command.SectionOptionFixed | app.py:142-150 | removing only the option, `\section[S]{Long}` gives `Long` |
| Figures.ParseInfo | app.py:204-244 | `_parse` equals the figure-info function: the subfigure path, or the five commands |
| Figures.FigureInfo | app.py:204-244 | Figure._parse as a function of the block: the subfigure path or the five commands of a plain block, the all-None fallback when a subfigure match has no group; `ParseInfo` is proved equal to it |
| Figures.Info.Files | app.py:246-258 | Figure.files: includegraphics and plotone when present, then the plottwo and subfigures items; the first file is the includegraphics one when it is present |
| Figures.SubfigureLoop | app.py:211-221 | the loop over the subfigure matches collects each match's arguments and stops with None at the first match without a group |
| Figures.FoundInGroup | app.py:216-220 | the commands found in one subfigure group, in command order, missing ones skipped |
| Figures.ParseEach | app.py:216-220 | the inner loop over a command list collects each command found, in order |
| Figures.FoundIn | app.py:216-220 | at most one argument per command, each trimmed |
| Figures.MatchArgs | app.py:215-220 | a match fails exactly when its text has no group |
| Figures.FoundAllFails | app.py:213-221 | the subfigure loop fails exactly when some match has no group |
| Figures.SubfigureMatches | app.py:213-214 | every subfigure match lies inside the block |
| Figures.PlainFigure | app.py:228-258 | without `subfigure`: caption and label from the block; files are includegraphics, then plotone, then the plottwo items |
| Figures.SubfigureFigure | app.py:211-258 | with `subfigure` and every match grouped: caption and label from the block; the files are the found subfigure list only |
| Figures.SubfigureWithoutGroup | app.py:209-242 | a subfigure match without a group sends the whole parse to the all-None fallback, with no label and no files |
| Figures.SubfigureEnvironmentLine | app.py:213-215 | a `\begin{subfigure}{w}` line has no group once the match starts at `subfigure`, so it triggers the fallback |
| Figures.FigureWithoutCommands | app.py:229-258 | a block with none of the commands has no caption, no label and no files |
| Figures.Figure.constructor | app.py:189-193 | a figure keeps its code and number, is parsed, and has no references |
| Figures.Figure.SetNumberOfReferences | app.py:195-197 | sets the reference count and nothing else |
| Documents.Document.constructor | app.py:279-295 | sets code, header, body and macros; creates one new, distinct figure per block, in block order, numbered from 1, with the info parsed from its block and its reference count; the abstract is not cached |
| Documents.Open | app.py:279-282 | a document exists exactly when both markers occur; otherwise construction raises |
| Documents.NumberedFigures | app.py:290 | one fresh, distinct figure per block, in block order: the figure at position k holds block k, is numbered k+1 and carries the info parsed from that block; none has references yet |
| Documents.LoadFigures | app.py:290-295 | the numbered figures, each with the count that updating the references sets |
| Documents.UpdateReferences | app.py:298-303 | a labelled figure gets the number of `\ref{label}` citations in the source; an unlabelled figure keeps its count |
| Documents.References | app.py:302 | the count of non-overlapping `\ref{label}` occurrences in the source; `ReferencesCount`, `ReferencedIff` and `ReferencesPrefix` state it |
| Documents.ReferencesCount | app.py:302 | the count is that of the leftmost scan: every citation it finds occurs in the source, no two overlap, and every citation in the source lies within one it finds |
| Documents.Document.UpdateFigureReferences | app.py:298-303 | the same update for the document's own figures and source |
| Documents.ReferencedIff | app.py:302 | a label is counted as cited exactly when `\ref{label}` occurs |
| Documents.ReferencesPrefix | app.py:302 | each citation in front of the text adds one to the count |
| Documents.NonEmpty | app.py:356 | keeps exactly the non-empty lines of the list, and keeps every line when none is empty |
| Documents.NonEmptyConcat | app.py:356 | the filter keeps order: filtering two lists joined is joining the two filtered lists |
| Documents.Clean | app.py:356 | the text with its empty lines dropped and the rest joined by "\n"; `CleanLines` and `CleanTwice` state it |
| Documents.CleanLines | app.py:356 | the cleaned abstract's lines are exactly the non-empty lines, in order |
| Documents.CleanTwice | app.py:346-356 | cleaning is idempotent, so re-reading the cached abstract gives the same text |
| Documents.AbstractOf | app.py:344-357 | the abstract has no empty line |
| Documents.AbstractSource | app.py:346-354 | the abstract before cleaning: five body groups, else the first source group, else the joined environments; the `AbstractFrom` lemmas state each branch |
| Documents.NoAbstract | app.py:347-354 | a source that never mentions `abstract` has an empty abstract |
| Documents.AbstractFromBody | app.py:348-356 | when `\abstract` occurs in the body, the abstract is its first five groups, one per line, cleaned |
| Documents.AbstractFromSource | app.py:351-352 | when the body gives no `\abstract` and the source's `\abstract` has a group, the abstract is that first group, cleaned |
| Documents.AbstractFromEnvironment | app.py:353-354 | when neither the body nor the source gives an `\abstract` group, the abstract is the `abstract` environments of the source joined by spaces, cleaned |
| Documents.AbstractFromOneEnvironment | app.py:353-354 | with one `abstract` environment around text x, that fallback gives x cleaned |
| Documents.Document.Abstract | app.py:344-357 | returns the cleaned fallback abstract and caches it; the figures are unchanged |
| Structure.Level | app.py:365-373 | a tag is one level deeper exactly when it lies at or past the appendix boundary |
| Structure.ParseStructure | app.py:368-393 | the loop builds the outline of the tags; it is at most three levels deep, and every child is deeper than its parent |
| Structure.Outline | app.py:370-391 | the outline built tag by tag in order; `OutlineShape` and `WalkIsTags` state its shape and contents |
| Structure.Place | app.py:381-391 | where one node goes: top level, under the last top-level node, or under its last child; `PlaceShape`, `PlaceWalk` and `PlaceKeepsLast` state it |
| Structure.InsertTag | app.py:371-391 | one loop turn: the tag's node is placed, after the Appendix node when that is pushed |
| Structure.OutlineShape | app.py:376-391 | the outline is at most three levels deep, and every child's level exceeds its parent's |
| Structure.PlaceShape | app.py:381-391 | placing a node keeps the depth bound and the level order |
| Structure.PlaceWalk | app.py:376-391 | a placed node always comes last in the pre-order walk |
| Structure.PlaceKeepsLast | app.py:381-389 | a deeper node never replaces the last top-level node |
| Structure.FirstPast | app.py:379-380 | the first tag, not counting the first, that lies past the boundary |
| Structure.WalkIsTags | app.py:363-391 | read in pre-order, the outline lists every tag in document order with its level, and one Appendix node in front of the first non-first tag past the boundary |
| Structure.StepPushesAppendix | app.py:379-380 | the Appendix node is pushed exactly once, when the first non-first tag past the boundary arrives |
| Structure.NoAppendix | app.py:365-367 | with no appendix mark, every tag keeps its base level and no Appendix node appears |
| Selection.Sorted | app.py:486-488 | the ranking is a permutation of the figure indices, with counts non-increasing and ties in their original order |
| Selection.InsertRanked | app.py:486-488 | inserting an index keeps the ranking and adds exactly that index |
| Selection.SelectTop | app.py:485-489 | min(N, n) distinct figures with non-increasing counts, equal counts in list order, and none left out that ranks above a chosen one |
| Selection.Select | app.py:485-489 | select_figures: the first N of the figures sorted by descending reference count, ties in document order; `SelectTop` and `SelectIsStableSort` state it |
| Selection.SelectAll | app.py:485-489 | N at least the number of figures selects every figure |
| Selection.RankedUnique | app.py:486-488 | two rankings of the same indices are equal: the stable sort is unique |
| Selection.SelectIsStableSort | app.py:485-489 | the selection is the first N of any stable descending sort of the figures |
| Papers.Hl | app.py:759 | `\hl{name}` is five characters longer than the name |
| Papers.HlInjective | app.py:759 | different names get different marks |
| Papers.HighlightOne | app.py:758-759 | marks every occurrence of a non-empty name, and the mark occurs when the name did |
| Papers.HighlightAbsent | app.py:756-759 | names that do not occur leave the author string as it was |
| Papers.HighlightLonger | app.py:756-759 | marking never shortens the author string |
| Papers.ArXivPaper.constructor | app.py:740-747 | the identifier is kept; title, authors, highlighted authors and comment are empty |
| Papers.ArXivPaper.Authors | app.py:753-760 | the names joined with ", ", each highlighted name marked in turn |
| Papers.AuthorsOf | app.py:754-760 | the author names joined with ", ", each highlighted name that occurs replaced by its mark; `HighlightAbsent` and `HighlightLonger` state it |
| Papers.ShortAuthorsOf | app.py:762-777 | with five or more authors, the first author, marked or not, followed by ", et al.", then the other highlighted names |
| Papers.ArXivPaper.ShortAuthors | app.py:762-777 | the short author string as the count test intends |
| Papers.AsWrittenAgreesMany | app.py:764 | with five or more authors, the length test as written agrees with the count test |
| Papers.AsWrittenAgreesShort | app.py:764-765 | an author string shorter than five characters has at most three authors, and both tests agree on it |
| Papers.AsWrittenSingleAuthor | app.py:764-770 | as written, a single author with a name of five or more characters becomes "name, et al." |
| Papers.ShortAuthorsAsWritten | app.py:762-777 | short_authors with the length test of app.py:764 on the author string; it agrees with `ShortAuthorsOf` for five or more authors and for strings under five characters, and differs for one author of five or more characters |
| Papers.Incl | app.py:771-776 | the marked names are exactly `\hl{name}` for each highlighted name other than the first author, so the first author's mark never appears |
| Papers.InclConcat | app.py:773-775 | the loop keeps list order: the marks of two lists of names joined are the marks of the first followed by those of the second |
| Papers.MatchesComplete | app.py:902-911 | an author is appended exactly when listed in the paper and some listed name is their family name (contained in and equal to the last word) |
| Papers.Matches | app.py:902-911 | what the two inner loops append: for each listed name in turn, the authors whose last word is that name; `MatchesComplete` states it |
| Papers.ArXivPaper.HighlightName | app.py:903-911 | for one listed name, appends the authors whose last word it is; nothing else changes |
| Papers.ArXivPaper.HighlightFamily | app.py:902-911 | appends the family-name matches for every listed name, in order; nothing else changes |
| Papers.HighlightPapers | app.py:885-913 | keeps every paper, in order, each with its matches appended |
| Papers.FilterPapers | app.py:916-942 | keeps the papers that cite a listed name, in order; only those get their matches appended |
| Papers.Kept | app.py:930-942 | the papers whose marked author string contains a listed name, in order; `FilterPapers` returns them |
| Mitarbeiter.Initials | app.py:876 | the initials exist exactly when no piece is empty; the k-th is the first letter of the k-th piece and a dot |
| Mitarbeiter.Abbreviations | app.py:874-879 | the abbreviations exist exactly when every given name abbreviates; the k-th is that of the k-th name |
| Mitarbeiter.AbbreviationForms | app.py:875-878 | a hyphenated given name becomes its parts' initials joined by `-`, and fails on an empty part; a plain one becomes its initial |
| Mitarbeiter.AbbreviationNoSpace | app.py:875-878 | an abbreviation contains no space |
| Mitarbeiter.ShortNameParts | app.py:872-881 | a staff line's short name splits at spaces into the abbreviated given names followed by the family name |
| Mitarbeiter.GrootExample | app.py:870-881 | the line "Inga-Marie Groot" becomes "I.-M. Groot" |
| Mitarbeiter.GrootDocumentedForm | app.py:860-861 | a line already in the documented form "I.-M. Groot" is kept as it is |
| Mitarbeiter.CollectedLines | app.py:869-881 | the loop fails exactly when some line fails; a name is collected exactly when some line yields it |
| Mitarbeiter.CollectedStep | app.py:870-881 | reading one more line: a line that raises ends the collection with no result, a comment leaves the list as it was, a name line appends its short name |
| Mitarbeiter.MitarbeiterSorted | app.py:869-882 | the result is strictly sorted, with no duplicates, and holds exactly the names of the lines; it fails exactly when some line fails |
| Mitarbeiter.MitarbeiterSameNames | app.py:882 | lines naming the same staff give the same list, whatever the order or repetition |
| Mitarbeiter.GetMitarbeiter | app.py:868-882 | the loop over the lines returns the sorted, deduplicated short names, or fails |
| Mitarbeiter.MitarbeiterOf | app.py:868-882 | get_mitarbeiter: the short names without repeats in ascending order, None when a line raises; `MitarbeiterSorted` and `MitarbeiterSameNames` state it |
| Mitarbeiter.ShortName | app.py:871-881 | one line: a comment, a short name, or a failure |
| Mitarbeiter.EntryOf | app.py:870-881 | one line: a comment, a short name (every word but the last abbreviated), or the IndexError of an empty line, a blank line or an empty hyphen part; `ShortNameParts` and `ShortName` state it |
| Mitarbeiter.AbbreviateAll | app.py:874-879 | the loop over the given names returns the abbreviation of every one, or None when one raises |
| Mitarbeiter.Abbreviate | app.py:874-879 | the abbreviation of one given name |
| StringOrder.LessTransitive | app.py:882 | the string order `sorted` uses is transitive |
| StringOrder.LessTotal | app.py:882 | and total on different strings |
| StringOrder.SortedSet | app.py:882 | `sorted(set(xs))`: strictly sorted, with exactly the elements of xs |
| StringOrder.SortedUnique | app.py:882 | two strictly sorted lists with the same elements are equal |
| Strings.Strip | app.py:66 | `strip()`: a slice of the input, trimmed, with only white space outside it |
| Strings.StripTrimmed | app.py:66 | strip leaves trimmed text unchanged |
| Strings.SplitLinesJoin | app.py:356 | `splitlines` undoes joining with newlines when no line has a line break and the last line is not empty |
| Strings.SplitOnJoin | app.py:876 | `split(sep)` undoes `sep.join` when no piece contains sep |
| Strings.ReplaceOnce | app.py:759 | `replace` of a pattern that occurs once substitutes that occurrence only |
| Strings.ReplaceBySelf | app.py:759 | replacing a pattern by itself changes nothing |
| Strings.ReplaceAcross | app.py:92 | `replace` of a pattern that does not hold a character c acts separately on the two sides of any c |
| Strings.ReplaceJoin | app.py:91-92 | so `replace` after `'\n'.join` equals the join of each piece replaced, when the pattern holds no newline |
| Strings.FindAllSingle | app.py:179 | `finditer` of a pattern occurring at one position only gives that position alone |
| Strings.MatchesToEolSingle | app.py:180 | `finditer` of `pat.*` for a pattern occurring once gives one match, from there to the end of its line |
| Strings.FindAllFrom | app.py:302 | `findall` of a literal: occurrences in increasing order, none overlapping |
| Strings.FindAllComplete | app.py:302 | `finditer` skips nothing: every occurrence at or after the start lies within one of the matches found |
| Strings.Take | app.py:489 | `xs[:n]`: a prefix of length min(n, len(xs)) for n at least 0; Python's reading of negative n |
| Strings.PySlice | app.py:177-181 | Python slicing: the plain slice when the bounds are in range; empty or clamped otherwise |

## Left out

- Network access and files are not modelled. This covers `get_new_papers`, `ArXivPaper.get_abstract`, `from_identifier`, `retrieve_document_source` and `make_postage` (app.py:749-854). It also covers the file read in `get_mitarbeiter`, whose lines are a parameter of `Mitarbeiter.GetMitarbeiter`.
- `DocumentSource` is not modelled (app.py:529-627). It reads files, asks the user to choose a file, and runs `pdflatex`.
- The two `HTMLParser` subclasses are not modelled (app.py:630-731). Their behaviour depends on a library's tokenisation, which is not part of this model.
- Template rendering is not modelled: `figure_to_latex`, `apply_to_document` and mpia.py. mpia.py is not part of this model.
- `Document.arxivertag` is not modelled (app.py:305-310). It looks in the comment-free body for a tag that only exists inside a comment, so it has no stable behaviour to state.
- `Document.title` and `Document.authors` are not modelled separately (app.py:312-322). They are cached calls of `parse_command`, which `Command` models.
- `Document.short_authors` is not modelled (app.py:324-342). Its "incl." list follows the iteration order of a Python `set`, which is unspecified. `ArXivPaper.short_authors` is modelled instead.
- `print_structure`, the `__repr__` methods, `print` diagnostics, `running_options`, `main` and the Python 2 shims are not modelled.
- Structure.ParseStructure: the cache in `_structure` (app.py:360-361, 392) is not modelled. Each call builds the outline.
- Structure.ParseStructure: the tags are an input of (offset, base level, title). The `\\([^\s]*)section` search and its `KeyError` on other tags are not modelled. Titles are kept abstract, because the code parses them from the whole source at a body offset (app.py:363, 372).
- Structure.ParseStructure: the appendix boundary is an input of `Level`, `Outline` and `ParseStructure`. The code takes it as the end of the first `\\([^\s]*)appendix` match in the body, or `len(self._code)` when there is none (app.py:364-367). Neither the search nor the fallback is modelled. That regex also matches text such as `\label{sec:appendix}`, so such a label before the real `\appendix` moves the boundary in the code. The fallback lies past every body offset, because the body is no longer than the source; `Structure.NoAppendix` covers that case.
- Structure.WalkIsTags: requires increasing offsets and titles other than "Appendix". A section titled "Appendix" would also stop the Appendix node from being pushed (app.py:379).
- Documents.UpdateReferences: the label is matched literally. The code puts it unescaped into a regular expression (app.py:302), so a label holding regex metacharacters is counted differently there. A label made of digits is one case: for `\label{2}` the pattern `\\ref{2}` reads `{2}` as a repetition count, matching `\reff` rather than `\ref{2}`.
- Documents.Document.constructor: requires both document markers. Documents.Open models the exception raised when one is missing.
- Selection.SelectTop: works on the figures' reference counts and returns figure indices. The figure objects themselves are not sorted.
- Papers.ArXivPaper.HighlightName: requires every listed name to contain a non-space character. Only then does `author.split()[-1]` always have a word to take (app.py:909).
- Papers.HighlightPapers: requires each paper to be listed once, so that the frame is one paper per entry. With a repeated paper, the code appends to the same object twice.
- Papers.FilterPapers: requires each paper to be listed once, for the same reason.
- Figures.Figure.constructor: the figure's `info` is stated by the `Parsed` predicate. `label` and `caption` are plain reads of that record's fields.
- Regular expressions are read as literal scans. A command name or environment name with regex metacharacters is not modelled.

## Findings

| source | as written | input that shows it | evidently intended | confidence | as-written member | corrected member |
|---|---|---|---|---|---|---|
| app.py:143-147 | the option text removed is `opt.replace(command, '')`, but the option match starts at the name without its backslash, so for a command given as `\section` (as `_parse_structure` passes it, app.py:372) the command name is removed with the option and `\section` is no longer found | `parse_command('\\section', '\\section[S]{Long}')` | remove only `[S]` and return `Long` | medium, not executed | Command.SectionOptionAsWritten | Command.SectionOptionFixed |
| app.py:764 | `len(self.authors) < 5` measures the joined author string, not the number of authors | one author named `Groot`: the short form is `Groot, et al.` | fewer than five authors are listed in full | medium, not executed | Papers.AsWrittenSingleAuthor | Papers.ShortAuthorsOf |
