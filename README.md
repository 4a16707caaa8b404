# gop workspace engine, in Dafny

gop is an interactive Go REPL. Each input line is either a command or a Go
fragment. A fragment is merged into a *workspace* that holds:

- the active imports (`pkgs`);
- the imports offered but not in use (`pkgsNotimport`);
- the top-level declarations (`defs`);
- the statements of `main` (`codes`);
- the command-line arguments for the built program (`args`).

The workspace is printed as one Go program. The fragment is kept only if
that program builds and runs silently; otherwise the workspace is restored.

The line editor is a continuation editor. It accumulates lines while a
fragment is still open, shows the bracket depth in the prompt, and folds a
finished or aborted buffer into one history entry.

## Modules

This project models that engine and proves what its operations guarantee:

- `Wrappers`: `Option`.
- `Text`: the string functions the program relies on, written out:
  - `TrimSpace`, `Split`, `Join`, `HasPrefix`;
  - `Itoa` and a 64-bit `Atoi`;
  - `Index` and `LastIndex`.
- `Syntax`: the trees the workspace keeps, reduced to what the code
  inspects, and the interfaces of the collaborators it drives (the Go
  parser, `go build`, the built program, file reading). All of these are
  given as values of type `Oracles`:
  - an import spec is a (path literal, alias) pair, with alias `<nil>` when
    there is none;
  - a statement is a `:=` with its left-hand names, a `_ = name`, or any
    other statement;
  - each node carries the text the Go printer gives for it.
- `Masks`: the index-list parser of the remove command (`getIndices`), the
  mask filter (`removeSlice`), and the splitting of one mask over the two
  import lists.
- `Assemble`: the deterministic rendering of the workspace as a program
  (`Workspace.source`).
- `Merge`: the workspace operations as functions of the workspace value:
  - defaults and `reset`;
  - the `echo`/`help` alias;
  - removal;
  - statement and declaration insertion;
  - import reconciliation from compiler diagnostics.
- `Repl`: the numeric position prefix, the speculative
  build–reconcile–build–run transaction of `parseGo`, template loading,
  `execSpecial` and `dispatch`, and the properties that span them.
- `Gop`: the `Workspace` class. Its fields are updated in place by methods
  that follow the source's loops. Each method is proved to leave the
  workspace equal to the corresponding function of `Merge` or `Repl`.
- `Liner`: the `contLiner` class and its pieces:
  - the buffer and depth fields;
  - the prompt string;
  - `Prompt`, `Accepted`, `Reindent`;
  - the bracket count of `countDepth`, over the bracket tokens that Go's
    text scanner yields outside comments and literals.

## Behaviour worth noting

- After a `:=` statement, the statements inserted are `_ = name`, not
  prints. Each is inserted at the same position, so they come out in
  reverse order of the left-hand names (`Merge.Echoes`).
- Any `scanner.ErrorList` from the statement parser counts as "input not
  complete", whatever the error says (`Syntax.ParseOutcome.ScanErrors`).
- The undefined-name match is the regular expression `["|/]name"`. It also
  accepts a literal `|` before the name (`Merge.Provides`).

## Model

| member | source | states |
|---|---|---|
| Gop.Workspace.constructor | main.go:34-41 | A new workspace has no imports, declarations or statements, and empty arguments. |
| Gop.Workspace.Source | main.go:43-122 | The text built piece by piece by the loops equals `SourceText`: package clause, active imports, optionally the inactive ones marked ` // imported and not used`, a blank line, the declarations, then `main` with the statements. `Assemble.SourceLineNumbers` and `Assemble.ImportLineAt` state what the labels and numbers are. |
| Gop.ImportRows | main.go:50-73 | The import loop yields one `import` line per spec, labelled `p<k>:` in the labelled view, with k counting on from the given base. |
| Gop.DefRows | main.go:77-88 | The declaration loop yields each declaration, labelled `d<pos>:` with its continuation lines indented by a tab in the labelled view, followed by a blank line. |
| Gop.CodeRows | main.go:95-106 | The statement loop yields each statement indented one tab, or `c<pos>:` and two tabs in the labelled view, with every continuation line indented to match. |
| Gop.NumberSource | main.go:113-119 | The numbering loop prefixes the k-th line (counting from 1) with k and a tab. |
| Assemble.SourceLineNumbers | main.go:113-119 | With line numbers, line k of the output is `k+1`, a tab and line k of the unnumbered program, with one extra empty numbered line from the final line break. |
| Assemble.NumberedLines | main.go:113-119 | For lines without line breaks, splitting the numbered text gives each line behind its number, plus one final empty piece. |
| Assemble.ImportLineAt | main.go:50-73 | The rows of an import list are the rows before position k, then the k-th import labelled base+k, then the rest labelled from base+k+1. So labels run consecutively, and the inactive list continues from the number of active imports. |
| Assemble.RowsAppend | main.go:50-73 | Rendering two consecutive lists equals rendering the first, then the second with its numbering continued. |
| Assemble.StatementIndented | main.go:95-106 | In the unlabelled view, every printed line of a statement appears as its own line behind one tab. |
| Assemble.IndentedLines | main.go:101-103 | Joining lines with a break plus indentation gives exactly the indented lines when split again. |
| Gop.Workspace.SourceDefaults | main.go:221-245 | The inactive imports gain, in order, each default package not already active under the same path without alias. Nothing else changes. |
| Merge.MissingDefaultsMembers | main.go:221-245 | A spec is added by the defaults step exactly when it is a default and not already active. |
| Merge.MissingDefaultsAll | main.go:221-245 | On an empty active list, every default is added, in order. |
| Merge.DefaultsDistinct | main.go:222-229 | The six default packages are pairwise different. |
| Gop.Workspace.Reset | main.go:323-330 | `reset` equals `Merge.Reset`: all lists are emptied, then the defaults are added. |
| Merge.ResetState | main.go:323-330 | After `reset`, the workspace is exactly the six defaults as inactive imports, with the arguments kept. The imports are then free of duplicates. |
| Gop.ExecAlias | main.go:247-261 | The rewritten line equals `Merge.Alias`: `help` becomes `?`, and each line starting `echo ` becomes `println(` rest `)`. |
| Merge.AliasLineStable | main.go:253-258 | Rewriting one line twice equals rewriting it once. No line break is introduced. Only `help` itself yields `help`. |
| Merge.AliasLinesStable | main.go:252-260 | Rewriting a list of lines is idempotent and keeps each line free of line breaks. |
| Merge.AliasNotHelp | main.go:247-261 | A line other than `help` is never rewritten into `help`. |
| Merge.AliasOfQuery | main.go:247-251 | The help alias `?` is left unchanged by a second rewrite. |
| Merge.AliasIdempotent | main.go:247-261 | Applying the alias rewrite twice equals applying it once. |
| Masks.GetIndices | main.go:412-459 | The mask has length n. A blank index list marks exactly index n-1. Otherwise index k is marked iff 0 <= k < n and some comma-separated token is the integer k, or a range `a-b` with a <= k <= b. |
| Masks.ExpandTokens | main.go:421-440 | The first pass turns the tokens into index texts: a two-part `a-b` with both parts integers is spelled out as a..b, any other two-part token gives nothing, and any other token is kept as it is. |
| Masks.RangeTexts | main.go:434-436 | The range loop yields the decimal text of every integer from a to b, in order, and nothing when b < a (the loop with the wrap-around at MaxInt64 corrected; see Findings). |
| Masks.MarkItems | main.go:442-456 | Index k < n is marked iff some index text parses as the integer k. Blank, non-numeric and out-of-range texts mark nothing. |
| Masks.HitItems | main.go:421-456 | An index is hit by the expanded texts iff some original token selects it. So expanding first and marking afterwards selects exactly what the tokens name. |
| Masks.HitRange | main.go:434-436 | For 64-bit bounds, k is among the texts of a range a..b iff a <= k <= b. |
| Masks.RangeStringsCons | main.go:434-436 | A non-empty range a..b is the text of a followed by the range a+1..b. |
| Masks.Inc64 | main.go:434 | `k++` on a 64-bit counter stays in the 64-bit range, and is k+1 below MaxInt64. |
| Masks.RangeToMaxNeverEnds | main.go:434-436 | The range loop as written, on a 64-bit counter, has not finished after any number of rounds when the range ends at MaxInt64. |
| Masks.WrappingRangeAgrees | main.go:434-436 | For an upper end below MaxInt64, the loop as written finishes within b-a+1 rounds with the texts `Masks.RangeTexts` returns. |
| Masks.AnySelectsSnoc | main.go:421-440 | Some token of a list selects k iff some token before the last does, or the last does. |
| Masks.SelectsByItems | main.go:412-459 | A non-blank index list selects an in-range k iff k is among the texts its tokens expand to. |
| Masks.HitToken | main.go:421-440 | The texts one token contributes denote k iff the token selects k. |
| Text.AtoiItoa | main.go:434-446 | A decimal text produced for a range index parses back to the same index. |
| Masks.RemoveSlice | main.go:461-476 | The result equals `Kept(s, mask)`, the items at unmarked positions (or beyond the mask) in their original order. |
| Masks.KeptAppend | main.go:461-476 | Filtering a concatenation filters each part, the second with the mask shifted by the first's length. |
| Masks.KeptUnmarked | main.go:461-476 | With no position marked, the list is unchanged. |
| Masks.KeptDropsLast | main.go:415-419 | A mask marking exactly the last position removes exactly the last item. |
| Masks.KeptMember | main.go:461-476 | Every unmarked item survives the filter. |
| Masks.KeptFrom | main.go:461-476 | Everything that survives the filter was in the list. |
| Masks.KeptDistinct | main.go:461-476 | Filtering keeps a duplicate-free list duplicate-free, and a marked item of such a list does not survive. |
| Masks.SplitMask | main.go:397-404 | The mask is split at the number of active imports: the first part has that length (or the whole mask), and the parts concatenate back to the mask. |
| Gop.Workspace.RemoveByIndex | main.go:370-410 | The workspace becomes `Merge.Remove`. An empty argument, an unknown item type or an empty list of that kind changes nothing. `d` and `c` filter their list by the mask. `p` filters the active imports by the first part of one mask over both lists, and the inactive imports by the rest. |
| Merge.RemoveImportsSplit | main.go:397-406 | For `p`, the active imports are filtered by the mask's first part and the inactive ones by its remainder. |
| Merge.KeptSplit | main.go:397-406 | Filtering two lists by the two parts of one mask equals filtering their concatenation by the whole mask. |
| Merge.RemoveImportsCombined | main.go:376-409 | Removing imports is filtering the combined list (active then inactive) with one index space over both. |
| Merge.RemoveLastStatement | main.go:391-419 | `-c` with a blank index list removes exactly the last statement. |
| Merge.MaskBlank | main.go:415-419 | A blank index list yields a mask marking only the last index. |
| Merge.KeptPrefixMask | main.go:397-405 | Filtering by a mask or by its prefix of the list's length gives the same result. |
| Merge.KeptSameMask | main.go:461-476 | Two masks that agree on the list's positions filter it alike. |
| Merge.RemoveKeepsImportsDistinct | main.go:370-410 | Removal keeps active and inactive imports free of duplicates, within and across the two lists. |
| Gop.PositionPrefix | main.go:479-491 | The prefix step equals `Repl.Place`. All digits mean nothing to do. A number beyond 64 bits is an error. Otherwise the number is the position and the trimmed rest is the fragment. Without leading digits there is no position. |
| Repl.FirstNonDigit | main.go:480-484 | The result is the first non-digit index, with all digits before it, or None when every character is a digit. |
| Repl.PlaceNumbered | main.go:479-491 | A line made of a number's decimal text and a fragment starting with a non-digit is placed at that number, with the fragment trimmed. |
| Repl.FirstNonDigitAfter | main.go:480-485 | After a run of digits, the first non-digit is found at the run's length. |
| Gop.Workspace.InsertStatements | main.go:513-536 | The backward insertion loop leaves `codes` as old[0,p), then the expanded fragment, then old[p,..). p is the position, or the length of `codes` when the position is negative or too large. Nothing else changes. |
| Gop.Workspace.InsertEchoes | main.go:518-530 | The `_ = name` statements of one `:=` are inserted at the position, one per name other than `_`, last name first. The rest of `codes` and the other fields are unchanged. |
| Merge.ClampPos | main.go:514-516 | The clamped position is at most the length, and it equals the given position when that is already in range. |
| Merge.EchoesAppend | main.go:519-529 | The echoes of a longer name list put those of the later names first. |
| Merge.EchoExamples | main.go:517-533 | `a, b := …` expands to itself, `_ = b`, `_ = a`. `a, _ := …` expands to itself and `_ = a`. |
| Merge.EchoesAreDiscards | main.go:519-529 | The inserted echoes are all `_ = name` statements. |
| Merge.ExpandKeepsFragment | main.go:513-536 | Dropping the inserted `_ =` statements from the expanded fragment gives back the fragment, in order. |
| Merge.OriginalsAppend | main.go:513-536 | Dropping the inserted statements distributes over concatenation. |
| Gop.Workspace.InsertDeclarations | main.go:537-586 | Every import spec of the fragment that is not yet active or inactive is appended to the active imports, in the order the loop visits them. The other declarations go into `defs` at the clamped position, in fragment order. |
| Gop.AddSpecs | main.go:544-578 | The spec loop of one import declaration appends each spec not yet known, active or inactive, to the active imports, and skips the rest. |
| Gop.Listed | main.go:547-570 | The search loop reports exactly whether the spec, path and alias alike, is in the list. |
| Merge.AddImportsSpec | main.go:544-578 | The old active imports stay as a prefix. Every spec of the fragment ends up active or inactive. Nothing but fragment specs is added. Imports free of duplicates across both lists stay so. |
| Merge.IndexOf | main.go:604-611 | The result is the first position of an equal spec, or None when there is none. |
| Merge.FirstProvider | main.go:617-624 | The result is the first inactive import whose alias is the name, or whose path matches `["|/]name"`, or None when there is none. |
| Gop.Workspace.ReconcileImports | main.go:599-626 | The two loops leave the workspace equal to `Merge.Reconcile`: first each unused-import diagnostic is applied in order, then each undefined-name diagnostic. |
| Gop.Workspace.DeactivateImport | main.go:604-612 | The first active import with the path and alias (`<nil>` when none) moves to the end of the inactive list. Without one, nothing changes. |
| Gop.Workspace.ActivateImport | main.go:617-625 | The first inactive import providing the name moves to the end of the active list. Without one, nothing changes. |
| Merge.DeactivateMoves | main.go:604-612 | Deactivating keeps the multiset of all imports, and keeps declarations, statements and arguments. |
| Merge.ActivateMoves | main.go:617-625 | Activating keeps the multiset of all imports, and keeps declarations, statements and arguments. |
| Merge.UnusedPassMoves | main.go:599-613 | The unused-import pass only moves imports between the lists. |
| Merge.UndefinedPassMoves | main.go:615-626 | The undefined-name pass only moves imports between the lists. |
| Merge.ReconcileMoves | main.go:599-626 | Reconciliation keeps the combined multiset of active and inactive imports, and everything else. |
| Merge.ReconcileKeepsImportsDistinct | main.go:599-626 | Reconciliation keeps imports free of duplicates within and across the two lists. |
| Merge.UnusedPassKeepsDistinct | main.go:599-613 | The unused-import pass keeps imports free of duplicates. |
| Merge.UnusedPassDeactivates | main.go:599-613 | In a duplicate-free workspace, every import reported unused that was active ends up inactive after the first pass. |
| Merge.UnusedImportDeactivated | main.go:599-626 | When every diagnostic is an unused import, each reported active import ends up inactive after reconciliation. |
| Merge.UndefinedPassIdle | main.go:615-626 | With no undefined-name diagnostics, the second pass changes nothing. |
| Merge.DeactivateLast | main.go:604-612 | In a duplicate-free workspace, a deactivated spec is no longer active and is inactive. |
| Merge.DeactivateKeepsOut | main.go:604-612 | An inactive spec that is not active stays so when another spec is deactivated. |
| Merge.MovedMember | main.go:599-626 | An import present before a move is still present in one of the two lists. |
| Gop.Workspace.ParseGo | main.go:478-649 | The whole of parseGo equals `Repl.ParseGo`. An unreadable prefix or a digits-only line does nothing. A `scanner.ErrorList` reports "not complete". Another parse error is returned. A parsed fragment goes through the transaction. |
| Gop.Workspace.Speculate | main.go:506-648 | Backup, merge, build, reconcile and second build, run, and restore equal `Repl.Build` applied to the merged workspace, down to the texts handed to the build. |
| Repl.ParseGoAtomic | main.go:506-648 | A fragment builds at most twice. A fragment that is placed and parses as declarations or statements builds the merged workspace first, and the result is the build candidate (the merged workspace, or that one reconciled with the first build's diagnostics) exactly when the candidate builds and runs silently, and otherwise the old workspace. Any other fragment builds nothing and changes nothing. Whenever "not complete" or an error is reported, the workspace is unchanged. |
| Repl.BuildAtomic | main.go:594-648 | The transaction builds the merged workspace, and only if that fails builds it again reconciled with the diagnostics. It commits the candidate exactly when the candidate builds and its run neither fails nor prints, and otherwise restores the snapshot exactly. No error is reported exactly when the candidate builds and its run does not fail. |
| Repl.ParseGoKeepsImportsDistinct | main.go:478-649 | A fragment merge never creates duplicate imports, within or across the two lists. |
| Repl.ParseGoPlacesStatements | main.go:513-536 | When the workspace with the statements inserted runs silently, they sit, expanded, at the clamped position of `codes`, with the declarations unchanged. When it does not, the workspace is unchanged. |
| Gop.Workspace.BuildCandidate | main.go:594-633 | The first build and, if it fails, the reconciliation and its build leave the workspace as `Repl.Candidate` of the merged one. The returned text is the candidate's, with its build outcome, and the texts built are the merged text, then the candidate's when the first build failed. |
| Gop.Workspace.ParseGo4Import | main.go:651-696 | The template merge equals `Repl.ParseGo4Import`. Statements are appended to `codes`. Each import spec is appended to the active imports without deduplication. Other declarations are appended to `defs`. Parse errors report "not complete" or the error and change nothing. |
| Gop.Workspace.AppendStatements | main.go:666-669 | Every statement of the fragment is appended to `codes`, in order. |
| Gop.Workspace.AppendDeclarations | main.go:670-689 | The fragment's import specs are appended to the active imports and its other declarations to `defs`, both in order. |
| Gop.Workspace.AppendDeclaration | main.go:671-688 | One declaration adds its specs to the active imports, or itself to `defs`. Nothing else changes. |
| Gop.Workspace.AppendImports | main.go:674-684 | The specs of one import declaration are appended to the active imports, in order. |
| Gop.Workspace.LoadTemplate | main.go:295-320 | Loading a template's text equals `Repl.LoadTemplate`: strip the first `func main() {`, then the last `}` of the remaining text wherever it stands (one before the header if none follows it), empty the lists, feed the lines cumulatively to the template merge, and add the defaults. |
| Repl.StripMainFrame | main.go:295-301 | A template written as head, `func main() {`, body, `}`, tail (tail without braces) becomes head, body, tail. |
| Repl.HeaderFound | main.go:296 | The header is found at the end of a head that does not contain it. |
| Repl.LastBrace | main.go:298-299 | The last `}` is found before a tail without braces, and removing it joins the two sides. |
| Repl.FindAt | main.go:296 | The first occurrence search returns k when the text occurs at k and nowhere before. |
| Repl.Find | main.go:296 | A found index is an occurrence, and no earlier position starts one. |
| Repl.LoadLinesArgs | main.go:303-320 | The template loop never touches the arguments. |
| Repl.LoadTemplateReplaces | main.go:303-320 | Loading a template does not depend on the previous lists: only the arguments carry over. |
| Repl.LoadTemplateKeepsArgs | main.go:275-322 | Loading a template gives the same workspace for any prior state, up to the arguments, which are kept. |
| Gop.Workspace.LoadCommand | main.go:275-322 | A `<name` command adds `.tmpl` when missing. When the file cannot be read it changes nothing; otherwise it loads the template. This is the `<` branch of `Repl.Special`. |
| Gop.Workspace.ExecSpecial | main.go:263-368 | The command is handled iff `Repl.Special` recognises it (`>`, `<` but not `<-`, `reset`, `list`, `arg`, `arg x`). The workspace becomes the state it gives; an unrecognised line changes nothing. |
| Repl.ArgCommand | main.go:357-366 | `arg ` followed by text that starts with `=` or `:=` is not a command (it is Go code). Any other text sets the arguments to the trimmed text and changes nothing else. |
| Repl.SpecialKeepsImportsDistinct | main.go:263-368 | Every special command except a template load keeps imports free of duplicates. |
| Gop.Workspace.Dispatch | main.go:698-737 | One input line equals `Repl.Dispatch`: trim and alias, then a special command, `?`, `-` removal, `!`/`!!` listing (the program text is returned), or a fragment. |
| Repl.DispatchKeepsImportsDistinct | main.go:698-737 | Every input line except a template load keeps imports free of duplicates. |
| Repl.DispatchErrorsChangeNothing | main.go:698-737 | Whenever a line reports an error or "not complete", the workspace is unchanged. |
| Liner.ContLiner.constructor | liner.go:20-30 | A new editor has an empty buffer and depth 0. |
| Liner.ContLiner.PromptString | liner.go:32-38 | With an empty buffer, the prompt is the given one. Otherwise it is `.....` followed by four spaces per depth level, and nothing else. |
| Liner.ContLiner.Prompt | liner.go:40-64 | The prompt shown is the prompt string from before the read. A line is appended to the buffer behind a line break, or becomes the buffer when it was empty. An abort folds a pending buffer into a history entry and clears it, and is not an error. End of input and terminal failures are errors that keep the buffer. The whole buffer is returned. |
| Liner.ContLiner.Accepted | liner.go:66-77 | The returned history entry is `HistoryEntry` of the old buffer and has no line break. The buffer is cleared; the depth is kept. |
| Liner.HistoryEntry | liner.go:66-77 | A history entry never contains a line break. |
| Liner.HistoryEntryOfLines | liner.go:66-77 | For two or more non-empty lines, the entry is the first line glued to the second, the middle lines joined by `;`, and the last line glued on. |
| Liner.Semicolons | liner.go:75 | The same text with every line break replaced by `;`, position by position. |
| Liner.CollapseSpec | liner.go:67 | After collapsing, no two line breaks are adjacent. The text is empty iff it was. The first character is kept. The non-break characters are unchanged. |
| Liner.CollapseIdentity | liner.go:67 | Text without adjacent line breaks is left unchanged by collapsing. |
| Liner.CollapseIdempotent | liner.go:67 | Collapsing twice equals collapsing once. |
| Liner.CollapseRun | liner.go:67 | Two line breaks between two texts collapse to what one line break does. |
| Liner.CollapseBlankLines | liner.go:67 | Any run of one or more line breaks between two texts collapses to what one line break does. |
| Liner.FirstBreakDropped | liner.go:69-71 | Removing the first line break of joined lines glues the first line to the rest. |
| Liner.LastBreakAt | liner.go:72-74 | Removing the last line break before a final line without breaks glues that line to the front. |
| Liner.ContLiner.CountDepth | liner.go:95-115 | The loop result equals `Depth` of the buffer: the number of opening minus closing brackets, clamped at zero once at the end. |
| Liner.Depth | liner.go:95-115 | The depth is never negative. It is at least the net bracket count, and it equals that count unless it is 0. |
| Liner.DepthCounts | liner.go:95-115 | The depth is the surplus of `{`/`(` over `}`/`)` tokens, or 0 when there is none. |
| Liner.NetCounts | liner.go:101-109 | The running count equals the number of opening tokens minus the number of closing ones. |
| Liner.ClampAtEnd | liner.go:111-113 | The clamp is applied once, not per token: `)(` has depth 0, and `)((` has depth 1. |
| Liner.LineCommentIgnored | liner.go:98-108 | Brackets inside a `//` comment are not counted. |
| Liner.StringIgnored | liner.go:98-108 | Brackets inside a string literal are not counted. |
| Liner.BreakIgnored | liner.go:98-108 | A line break contributes no bracket token. |
| Liner.ContLiner.Reindent | liner.go:79-93 | The depth becomes the recomputed depth of the unchanged buffer. Only when the depth dropped and the buffer has several lines is a redraw produced: the new prompt string followed by the last line. |

## Left out

- The `go build` and run subprocesses, the file writes and the stdout/stderr copying goroutines (main.go:124-195) are not modelled. They are the `compile` and `run` functions of `Syntax.Oracles`: a build yields success or structured diagnostics, and a run yields whether it failed and whether it printed.
- The regular-expression tokenising of the arguments (main.go:152-155) only feeds the subprocess and is left out.
- The Go parser, the printer and `token.FileSet` (main.go:197-219, 493-504) are foreign libraries. They are left out: parsing is the `parse` oracle, and printed text is carried by each node.
- Diagnostics are taken already structured. The regular expressions that pick them out of the build output (main.go:599, 615) are left out.
- The `>` command only writes a file, printing nothing, so it changes no workspace state and is left out with the file system (main.go:264-274). `list`, `arg` without a value and `?` only print (main.go:331-360, 711-721).
- The two file reads of `<` (the name as given, then under the home directory) are one `read` oracle that returns None when neither can be read.
- Signal handling, history files and start-up (main.go:739-821) are process glue and are left out.
- complete.go (code completion through the file system and `gocode`) is not part of this model.
- The terminal calls, ANSI redraw escapes and `AppendHistory` of liner.go (liner.go:26-30, 75, 86-90) are left out. `Accepted` returns the history entry and `Reindent` the redrawn text instead.
- `println` on end of input and on an abort with an empty buffer (liner.go:44, 49) is left out.
- Go's `text/scanner` is reduced to what decides the bracket count: comments, interpreted, rune and raw literals, and single characters. Other tokens are never brackets, so they are skipped character by character.
- Liner.StringIgnored: covers literals without escapes, line breaks or quotes. The general case is what `Liner.Brackets` defines, but it is not stated as a lemma.
- Digits are ASCII digits only. `unicode.IsDigit` also accepts other Unicode digits, which the model does not.
- Text.Atoi: accepts an optional sign and decimal digits within the 64-bit range. Underscores and other bases are rejected, as `strconv.Atoi` does for base 10.
- Repl.Find: the "not found" direction is not in its contract. `Repl.FindAt` states the converse: an occurrence at k with none before gives k.
- Repl.DispatchKeepsImportsDistinct: excludes template loads, because `parseGo4import` appends imports without deduplication (main.go:674-684), so a template can create duplicates.
- Merge.FirstProvider: the name is matched literally. The source splices it into the regular expression `["|/]name"` unescaped (main.go:619), so a qualified name such as `fmt.Foo` has its `.` match any character there; the model does not capture that wildcard match.
- The `return` after a matching import in the reconciliation loops stands for the source's `break` (main.go:610, 623).
- The model keeps each import as its own spec. The source wraps each in its own single-spec `import` declaration; the printed text is the same.
- Gop.Workspace.ParseGo: the `default` branch for an unknown tree type (main.go:587-589) cannot be reached with the parse outcomes modelled, so it is left out.
- Masks.RangeTexts: counts on an unbounded integer, so a range ending at MaxInt64 ends there. The source's `int` counter wraps to MinInt64 and its loop never ends (main.go:434). `Masks.WrappingCounts` models that loop, and the defect is listed under Findings.
- Masks.ExpandTokens: spells out ranges through `Masks.RangeTexts`, so it ends on a range up to MaxInt64, where the source's first pass never ends.
- Masks.GetIndices: inherits the correction from `Masks.ExpandTokens`. For an index list with a range ending at MaxInt64 the source does not return at all.

## Findings

| source | as written | input that shows it | evidently intended | confidence | as-written member | corrected member |
|---|---|---|---|---|---|---|
| main.go:434 | `for k := i; k <= j; k++` on a 64-bit `int`: when j is MaxInt64, `k++` wraps to MinInt64, which is still <= j, so the loop never ends and keeps appending texts | the command `-c 9223372036854775806-9223372036854775807` with at least one code line | spell out the indices i..j once and stop after j | not executed | Masks.RangeToMaxNeverEnds | Masks.RangeTexts |
