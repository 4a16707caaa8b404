/**
 * The commands of the REPL as functions of the workspace value: the
 * position prefix and the speculative transaction of parseGo, the plain
 * appends of parseGo4import, loading a template, the special commands and
 * the dispatcher that routes one input line.
 */
module Repl {
  import opened Wrappers
  import opened Text
  import opened Syntax
  import opened Assemble
  import opened Merge

  /** What a command reports back: more input wanted, or an error. */
  datatype Error = BadPosition | ParseFailed(msg: string) | CompileFailed(diags: seq<Diagnostic>) | RunFailed
  datatype Reply = Reply(notComplete: bool, err: Option<Error>)

  const Done := Reply(false, None)

  // ----------------------------------------------------------------- prefix

  /** The optional leading insertion position of a fragment. */
  datatype Placement = Placed(pos: int, text: string) | DigitsOnly | BadNumber

  /** The index of the first character that is not a digit. */
  function FirstNonDigit(s: string): (r: Option<nat>)
    ensures r.Some? ==> r.value < |s| && !IsDigit(s[r.value]) && AllDigits(s[..r.value])
    ensures r.None? ==> AllDigits(s)
  {
    if s == [] then None
    else if !IsDigit(s[0]) then Some(0)
    else match FirstNonDigit(s[1..])
      case None => None
      case Some(i) => assert s[..i + 1] == [s[0]] + s[1..][..i]; Some(i + 1)
  }

  /**
   * A line starting with a digit carries a position: the leading digits are
   * the number, the rest (trimmed) the fragment. A line of digits only is
   * ignored; a number out of the 64-bit range is an error. Without a
   * leading digit the position is -1, which means "append".
   */
  function Place(line: string): Placement
    requires line != []
  {
    if !IsDigit(line[0]) then Placed(-1, line)
    else match FirstNonDigit(line[1..])
      case None => DigitsOnly
      case Some(i) =>
        match Atoi(line[..i + 1])
        case None => BadNumber
        case Some(p) => Placed(p, TrimSpace(line[i + 1..]))
  }

  /** Writing a position in front of a fragment that starts with a non-digit gives that position back. */
  lemma PlaceNumbered(n: nat, text: string)
    requires n <= MaxInt64
    requires text != [] && !IsDigit(text[0])
    ensures Place(Itoa(n) + text) == Placed(n, TrimSpace(text))
  {
    var digits := Itoa(n);
    var line := digits + text;
    assert line[1..] == digits[1..] + text;
    FirstNonDigitAfter(digits[1..], text);
    assert line[..|digits|] == digits;
    assert line[|digits|..] == text;
    AtoiItoa(n);
  }

  lemma FirstNonDigitAfter(digits: string, text: string)
    requires AllDigits(digits) && text != [] && !IsDigit(text[0])
    ensures FirstNonDigit(digits + text) == Some(|digits|)
  {
    if digits != [] {
      assert (digits + text)[1..] == digits[1..] + text;
      FirstNonDigitAfter(digits[1..], text);
    } else {
      assert digits + text == text;
    }
  }

  // ------------------------------------------------------------ transaction

  /** The source that is built and run: no labels, no line numbers, no inactive imports. */
  function Render(st: State): string {
    SourceText(st, false, false, false)
  }

  /** Merge a parsed fragment at a position. */
  function Apply(st: State, pos: int, tree: ParseOutcome): State
    requires tree.Decls? || tree.Stmts?
  {
    if tree.Stmts? then InsertStmts(st, pos, tree.stmts) else InsertDecls(st, pos, tree.decls)
  }

  /** The state a command leaves, its reply, and the sources it handed to the build, in order. */
  datatype Step = Step(state: State, reply: Reply, compiled: seq<string>)

  /** Run the built candidate: a failure or any output restores the state from before. */
  function Run(before: State, after: State, compiled: seq<string>, o: Oracles): Step {
    var rr := o.run(Render(after), after.args);
    if rr.failed then Step(before, Reply(false, Some(RunFailed)), compiled)
    else if rr.hasOutput then Step(before, Done, compiled)
    else Step(after, Done, compiled)
  }

  /** Build the candidate; on failure reconcile the imports once and build again. */
  function Build(before: State, after: State, o: Oracles): Step {
    match o.compile(Render(after))
    case Built => Run(before, after, [Render(after)], o)
    case Failed(diags) =>
      var fixed := Reconcile(after, diags);
      match o.compile(Render(fixed))
      case Built => Run(before, fixed, [Render(after), Render(fixed)], o)
      case Failed(diags2) => Step(before, Reply(false, Some(CompileFailed(diags2))), [Render(after), Render(fixed)])
  }

  /** parseGo: the speculative merge of one fragment. */
  function ParseGo(st: State, line: string, o: Oracles): Step
    requires line != []
  {
    match Place(line)
    case DigitsOnly => Step(st, Done, [])
    case BadNumber => Step(st, Reply(false, Some(BadPosition)), [])
    case Placed(pos, text) =>
      match o.parse(text)
      case ScanErrors => Step(st, Reply(true, None), [])
      case OtherError(msg) => Step(st, Reply(false, Some(ParseFailed(msg))), [])
      case Decls(_) => Build(st, Apply(st, pos, o.parse(text)), o)
      case Stmts(_) => Build(st, Apply(st, pos, o.parse(text)), o)
  }

  /** The workspace the last build sees: the merged one, reconciled when its first build failed. */
  function Candidate(after: State, o: Oracles): State {
    match o.compile(Render(after))
    case Built => after
    case Failed(diags) => Reconcile(after, diags)
  }

  /** Whether a merged workspace is kept: its candidate builds, and running it neither fails nor prints. */
  predicate Silent(after: State, o: Oracles) {
    var c := Candidate(after, o);
    o.compile(Render(c)) == Built && o.run(Render(c), c.args) == RunResult(false, false)
  }

  /** Whether a line is a fragment that parses, so that parseGo merges and builds it. */
  predicate Merges(line: string, o: Oracles)
    requires line != []
  {
    Place(line).Placed? && (o.parse(Place(line).text).Decls? || o.parse(Place(line).text).Stmts?)
  }

  /**
   * All or nothing: a fragment that parses is kept, as merged or as
   * reconciled, exactly when that workspace builds and runs silently, and
   * otherwise the state from before is restored; any other line changes
   * nothing and builds nothing. At most two builds are asked for, the first
   * of the merged source. An error or an incomplete fragment never changes
   * the state.
   */
  lemma ParseGoAtomic(st: State, line: string, o: Oracles)
    requires line != []
    ensures var r := ParseGo(st, line, o);
      && |r.compiled| <= 2
      && (Merges(line, o) ==>
            var after := Apply(st, Place(line).pos, o.parse(Place(line).text));
            && r.state == (if Silent(after, o) then Candidate(after, o) else st)
            && r.compiled != [] && r.compiled[0] == Render(after))
      && (!Merges(line, o) ==> r.state == st && r.compiled == [])
      && (r.state == st
          || (r.reply == Done && o.compile(Render(r.state)) == Built
              && o.run(Render(r.state), r.state.args) == RunResult(false, false)))
      && (r.reply.notComplete || r.reply.err.Some? ==> r.state == st)
  {
    match Place(line)
    case DigitsOnly =>
    case BadNumber =>
    case Placed(pos, text) =>
      match o.parse(text)
      case ScanErrors =>
      case OtherError(_) =>
      case Decls(_) => BuildAtomic(st, Apply(st, pos, o.parse(text)), o);
      case Stmts(_) => BuildAtomic(st, Apply(st, pos, o.parse(text)), o);
  }

  /**
   * The transaction: the candidate is committed exactly when it builds and
   * runs silently, and the snapshot is restored otherwise; the build sees
   * the merged source, and after a failure the reconciled one; the reply is
   * an error exactly when no build succeeded or the run failed.
   */
  lemma BuildAtomic(before: State, after: State, o: Oracles)
    ensures var r := Build(before, after, o);
      var c := Candidate(after, o);
      && r.state == (if Silent(after, o) then c else before)
      && r.compiled == (if o.compile(Render(after)).Built? then [Render(after)] else [Render(after), Render(c)])
      && !r.reply.notComplete
      && (r.reply.err.None? <==> o.compile(Render(c)) == Built && !o.run(Render(c), c.args).failed)
      && (r.state == before
          || (r.reply == Done && o.compile(Render(r.state)) == Built
              && o.run(Render(r.state), r.state.args) == RunResult(false, false)))
  {
    match o.compile(Render(after))
    case Built =>
    case Failed(diags) =>
  }

  /** parseGo never leaves a duplicate import behind. */
  lemma ParseGoKeepsImportsDistinct(st: State, line: string, o: Oracles)
    requires line != [] && ImportsDistinct(st)
    ensures ImportsDistinct(ParseGo(st, line, o).state)
  {
    if Place(line).Placed? && (o.parse(Place(line).text).Decls? || o.parse(Place(line).text).Stmts?) {
      var pos := Place(line).pos;
      var tree := o.parse(Place(line).text);
      var after := Apply(st, pos, tree);
      if tree.Decls? {
        AddImportsSpec(st.pkgs, st.pkgsNotimport, ImportsOf(tree.decls));
      }
      assert ImportsDistinct(after);
      BuildAtomic(st, after, o);
      if o.compile(Render(after)).Failed? {
        ReconcileKeepsImportsDistinct(after, o.compile(Render(after)).diags);
      }
    }
  }

  /**
   * A statement fragment that builds and runs silently lands at its
   * position, echoes included, between the statements that were before and
   * after it, and the definitions stay as they were; any other statement
   * fragment leaves the workspace as it was.
   */
  lemma ParseGoPlacesStatements(st: State, line: string, o: Oracles, stmts: seq<Stmt>)
    requires line != [] && Place(line).Placed? && o.parse(Place(line).text) == Stmts(stmts)
    ensures var r := ParseGo(st, line, o);
      var after := InsertStmts(st, Place(line).pos, stmts);
      var p := ClampPos(Place(line).pos, |st.codes|);
      && (Silent(after, o) ==> r.state.codes == st.codes[..p] + Expand(stmts) + st.codes[p..] && r.state.defs == st.defs)
      && (!Silent(after, o) ==> r.state == st)
  {
    var after := Apply(st, Place(line).pos, Stmts(stmts));
    BuildAtomic(st, after, o);
    if o.compile(Render(after)).Failed? {
      ReconcileMoves(after, o.compile(Render(after)).diags);
    }
  }

  // ---------------------------------------------------------------- template

  /** The import specs of a declaration list in fragment order. */
  function FlatImports(decls: seq<TopDecl>): seq<ImportSpec> {
    if decls == [] then [] else SpecsOf(decls[0]) + FlatImports(decls[1..])
  }

  /** parseGo4import: append a parsed fragment, without positions, checks or builds. */
  function Append(st: State, tree: ParseOutcome): State
    requires tree.Decls? || tree.Stmts?
  {
    if tree.Stmts? then st.(codes := st.codes + tree.stmts)
    else st.(pkgs := st.pkgs + FlatImports(tree.decls), defs := st.defs + DefsOf(tree.decls))
  }

  /** parseGo4import with its reply. */
  function ParseGo4Import(st: State, text: string, parse: string -> ParseOutcome): (State, Reply) {
    match parse(text)
    case ScanErrors => (st, Reply(true, None))
    case OtherError(msg) => (st, Reply(false, Some(ParseFailed(msg))))
    case Decls(_) => (Append(st, parse(text)), Done)
    case Stmts(_) => (Append(st, parse(text)), Done)
  }

  /**
   * The template loop: lines accumulate until they parse; an incomplete
   * fragment waits for more lines, any other parse error stops the load.
   */
  function LoadLines(st: State, pending: string, lines: seq<string>, parse: string -> ParseOutcome): State
    decreases |lines|
  {
    if lines == [] then st
    else
      var text := pending + lines[0] + "\n";
      var (s, reply) := ParseGo4Import(st, text, parse);
      if reply.err.Some? then s
      else if reply.notComplete then LoadLines(s, text, lines[1..], parse)
      else LoadLines(s, "", lines[1..], parse)
  }

  const MainHeader := "func main() {"

  /** The index of the first occurrence of sub in s. */
  function Find(s: string, sub: string): (r: Option<nat>)
    ensures r.Some? ==> r.value + |sub| <= |s| && s[r.value..r.value + |sub|] == sub
    ensures r.Some? ==> forall i :: 0 <= i < r.value ==> !HasPrefix(s[i..], sub)
    decreases |s|
  {
    if HasPrefix(s, sub) then Some(0)
    else if s == [] then None
    else match Find(s[1..], sub)
      case None => None
      case Some(k) => assert forall i :: 1 <= i <= k + 1 ==> s[i..] == s[1..][i - 1..]; Some(k + 1)
  }

  /**
   * A saved template loses its first `func main() {` and then the last `}` of
   * what remains, wherever that brace stands: with no `}` after the header it
   * is one before it, such as a struct literal's.
   */
  function StripMain(text: string): string {
    match Find(text, MainHeader)
    case None => text
    case Some(p) =>
      var t := text[..p] + text[p + |MainHeader|..];
      match FindLast(t, '}')
      case None => t
      case Some(q) => t[..q] + t[q + 1..]
  }

  /**
   * A template written as head, `func main() {`, body, `}` and a tail without
   * braces loses exactly the header and that brace, so its statements load
   * as top-level fragments.
   */
  lemma StripMainFrame(head: string, body: string, tail: string)
    requires forall i :: 0 <= i < |head| ==> !HasPrefix((head + MainHeader + body)[i..], MainHeader)
    requires '}' !in tail
    ensures StripMain(head + MainHeader + body + "}" + tail) == head + body + tail
  {
    var text := head + MainHeader + body + "}" + tail;
    HeaderFound(head, body, tail);
    var t := text[..|head|] + text[|head| + |MainHeader|..];
    assert t == head + body + "}" + tail by {
      assert text[..|head|] == head;
      assert text[|head| + |MainHeader|..] == body + "}" + tail;
    }
    LastBrace(head + body, tail);
  }

  lemma HeaderFound(head: string, body: string, tail: string)
    requires forall i :: 0 <= i < |head| ==> !HasPrefix((head + MainHeader + body)[i..], MainHeader)
    ensures Find(head + MainHeader + body + "}" + tail, MainHeader) == Some(|head|)
  {
    var x := head + MainHeader + body;
    var text := x + "}" + tail;
    assert text == head + MainHeader + body + "}" + tail;
    forall i | 0 <= i < |head| ensures !HasPrefix(text[i..], MainHeader) {
      assert text[i..][..|MainHeader|] == x[i..][..|MainHeader|];
    }
    assert text[|head|..|head| + |MainHeader|] == MainHeader;
    FindAt(text, MainHeader, |head|);
  }

  lemma LastBrace(front: string, tail: string)
    requires '}' !in tail
    ensures var t := front + "}" + tail;
      FindLast(t, '}') == Some(|front|) && t[..|front|] + t[|front| + 1..] == front + tail
  {
    var t := front + "}" + tail;
    assert t[|front| + 1..] == tail;
    assert t[..|front|] == front;
    FindLastAt(t, '}', |front|);
  }

  /** An occurrence with none before it is the one Find reports. */
  lemma {:induction false} FindAt(s: string, sub: string, k: nat)
    requires k + |sub| <= |s| && s[k..k + |sub|] == sub
    requires forall i :: 0 <= i < k ==> !HasPrefix(s[i..], sub)
    ensures Find(s, sub) == Some(k)
    decreases k
  {
    if k == 0 {
      assert s[..|sub|] == sub;
    } else {
      assert !HasPrefix(s[0..], sub);
      assert s[0..] == s;
      var rest := s[1..];
      assert rest[k - 1..k - 1 + |sub|] == sub;
      forall i | 0 <= i < k - 1 ensures !HasPrefix(rest[i..], sub) {
        assert rest[i..] == s[i + 1..];
      }
      FindAt(rest, sub, k - 1);
    }
  }

  /** The `<` command: wipe the workspace, load the template line by line, restore the defaults. */
  function LoadTemplate(st: State, text: string, parse: string -> ParseOutcome): State {
    WithDefaults(LoadLines(st.(pkgs := [], pkgsNotimport := [], defs := [], codes := []), "", Split(StripMain(text), '\n'), parse))
  }

  lemma {:induction false} LoadLinesArgs(st: State, pending: string, lines: seq<string>, parse: string -> ParseOutcome, a: string)
    ensures LoadLines(st.(args := a), pending, lines, parse) == LoadLines(st, pending, lines, parse).(args := a)
    decreases |lines|
  {
    if lines != [] {
      var text := pending + lines[0] + "\n";
      var (s, reply) := ParseGo4Import(st, text, parse);
      assert ParseGo4Import(st.(args := a), text, parse) == (s.(args := a), reply);
      if reply.err.Some? {
      } else if reply.notComplete {
        LoadLinesArgs(s, text, lines[1..], parse, a);
      } else {
        LoadLinesArgs(s, "", lines[1..], parse, a);
      }
    }
  }

  /** Loading a template replaces the whole workspace but the argument string: what was there before does not matter. */
  lemma LoadTemplateReplaces(st: State, text: string, parse: string -> ParseOutcome)
    ensures LoadTemplate(st, text, parse) == LoadTemplate(State([], [], [], [], st.args), text, parse)
  {
    var cleared := st.(pkgs := [], pkgsNotimport := [], defs := [], codes := []);
    assert cleared == State([], [], [], [], st.args);
  }

  /** The loaded workspace depends on the argument string only through keeping it. */
  lemma LoadTemplateKeepsArgs(st: State, text: string, parse: string -> ParseOutcome)
    ensures LoadTemplate(st, text, parse) == LoadTemplate(State([], [], [], [], ""), text, parse).(args := st.args)
  {
    var lines := Split(StripMain(text), '\n');
    LoadLinesArgs(State([], [], [], [], ""), "", lines, parse, st.args);
    assert State([], [], [], [], "").(args := st.args) == State([], [], [], [], st.args);
    LoadTemplateReplaces(st, text, parse);
  }

  // ---------------------------------------------------------------- commands

  predicate LoadsTemplate(line: string) {
    HasPrefix(line, "<") && !HasPrefix(line, "<-")
  }

  /** The file a `<` command names, with `.tmpl` added when missing. */
  function TemplateFile(name: string): string {
    if HasSuffix(name, ".tmpl") then name else name + ".tmpl"
  }

  /**
   * execSpecial: the state after a special command, or None when the line is
   * not one. Writing (`>`), listing (`list`) and showing the arguments (`arg`)
   * only print or write files. A template that cannot be read changes nothing.
   */
  function Special(st: State, line: string, o: Oracles): Option<State> {
    if HasPrefix(line, ">") then Some(st)
    else if LoadsTemplate(line) then
      var name := TrimSpace(line[1..]);
      if name == [] then Some(st)
      else match o.read(TemplateFile(name))
        case None => Some(st)
        case Some(text) => Some(LoadTemplate(st, text, o.parse))
    else if line == "reset" then Some(Reset(st))
    else if line == "list" || line == "arg" then Some(st)
    else if HasPrefix(line, "arg ") && !HasPrefix(line, "arg =") && !HasPrefix(line, "arg :=") then
      Some(st.(args := TrimSpace(line[4..])))
    else None
  }

  /** A `<` line is never taken for `>`: it loads the named template, or changes nothing. */
  lemma SpecialLoads(st: State, line: string, o: Oracles)
    requires LoadsTemplate(line)
    ensures var name := TrimSpace(line[1..]);
      Special(st, line, o) ==
        if name == [] || o.read(TemplateFile(name)).None? then Some(st)
        else Some(LoadTemplate(st, o.read(TemplateFile(name)).value, o.parse))
  {
    assert !HasPrefix(line, ">") by {
      assert line[0] == '<';
    }
  }

  /** `arg x` sets the arguments, but `arg = …` and `arg := …` are Go code. */
  lemma ArgCommand(st: State, rest: string, o: Oracles)
    ensures Special(st, "arg " + rest, o) ==
      if HasPrefix(rest, "=") || HasPrefix(rest, ":=") then None else Some(st.(args := TrimSpace(rest)))
  {
    var line := "arg " + rest;
    assert !HasPrefix(line, ">") && !LoadsTemplate(line) by {
      assert line[0] == 'a';
    }
    assert line != "reset" && line != "list" && line != "arg" by {
      assert line[0] == 'a' && |line| >= 4;
    }
    assert HasPrefix(line, "arg ") by {
      assert line[..4] == "arg ";
    }
    assert HasPrefix(line, "arg =") <==> HasPrefix(rest, "=") by {
      assert "arg =" == "arg " + "=";
      PrefixAfter("arg ", "=", rest);
    }
    assert HasPrefix(line, "arg :=") <==> HasPrefix(rest, ":=") by {
      assert "arg :=" == "arg " + ":=";
      PrefixAfter("arg ", ":=", rest);
    }
    assert line[4..] == rest;
  }

  lemma PrefixAfter(a: string, b: string, s: string)
    ensures HasPrefix(a + s, a + b) <==> HasPrefix(s, b)
  {
    if |b| <= |s| {
      assert (a + s)[..|a + b|] == a + s[..|b|];
      if (a + s)[..|a + b|] == a + b {
        assert s[..|b|] == (a + s)[..|a + b|][|a|..];
      }
    }
  }

  /** The state after one input line, the reply, and the text shown for `!` and `!!`. */
  datatype Outcome = Outcome(state: State, reply: Reply, shown: Option<string>)

  /** dispatch: trim, expand aliases, then route to a special command, removal, inspection or parseGo. */
  ghost function Dispatch(st: State, input: string, o: Oracles): Outcome {
    var line := Alias(TrimSpace(input));
    if line == [] then Outcome(st, Done, None)
    else match Special(st, line, o)
      case Some(s) => Outcome(s, Done, None)
      case None =>
        if line[0] == '?' then Outcome(st, Done, None)
        else if line[0] == '-' then Outcome(Remove(st, TrimSpace(line[1..])), Done, None)
        else if line[0] == '!' then Outcome(st, Done, Some(SourceText(st, true, TrimSpace(line[1..]) == "!", true)))
        else
          var r := ParseGo(st, line, o);
          Outcome(r.state, r.reply, None)
  }

  /** Every command but a template load keeps the imports free of duplicates. */
  lemma DispatchKeepsImportsDistinct(st: State, input: string, o: Oracles)
    requires ImportsDistinct(st)
    requires !LoadsTemplate(Alias(TrimSpace(input)))
    ensures ImportsDistinct(Dispatch(st, input, o).state)
  {
    var line := Alias(TrimSpace(input));
    var next := Dispatch(st, input, o).state;
    if line == [] {
      assert next == st;
    } else if Special(st, line, o).Some? {
      assert next == Special(st, line, o).value;
      SpecialKeepsImportsDistinct(st, line, o);
    } else if line[0] == '-' {
      assert next == Remove(st, TrimSpace(line[1..]));
      RemoveKeepsImportsDistinct(st, TrimSpace(line[1..]));
    } else if line[0] != '?' && line[0] != '!' {
      assert next == ParseGo(st, line, o).state;
      ParseGoKeepsImportsDistinct(st, line, o);
    } else {
      assert next == st;
    }
  }

  /** The special commands other than a template load touch at most the arguments, or reset. */
  lemma SpecialKeepsImportsDistinct(st: State, line: string, o: Oracles)
    requires ImportsDistinct(st)
    requires !LoadsTemplate(line)
    requires Special(st, line, o).Some?
    ensures ImportsDistinct(Special(st, line, o).value)
  {
    if !HasPrefix(line, ">") && line == "reset" {
      ResetState(st);
    }
  }

  /** A command that reports an error or wants more input leaves the workspace as it was. */
  lemma DispatchErrorsChangeNothing(st: State, input: string, o: Oracles)
    ensures var out := Dispatch(st, input, o);
      out.reply.err.Some? || out.reply.notComplete ==> out.state == st
  {
    var line := Alias(TrimSpace(input));
    if line != [] && Special(st, line, o).None? && line[0] != '?' && line[0] != '-' && line[0] != '!' {
      ParseGoAtomic(st, line, o);
    }
  }
}
