/**
 * The workspace object of the REPL and the operations that update it in
 * place. Each method is proved against the function of the workspace value
 * that specifies it (modules Assemble, Merge and Repl).
 */
module Gop {
  import opened Wrappers
  import opened Text
  import opened Syntax
  import opened Masks
  import opened Assemble
  import opened Merge
  import opened Repl

  /** Whether spec occurs in list: the search loops over the import lists. */
  method Listed(list: seq<ImportSpec>, spec: ImportSpec) returns (found: bool)
    ensures found <==> spec in list
  {
    found := false;
    var j := 0;
    while j < |list| && !found
      invariant 0 <= j <= |list|
      invariant found <==> spec in list[..j]
    {
      if list[j] == spec {
        found := true;
      }
      j := j + 1;
    }
    assert !found ==> list[..j] == list;
  }

  /** execAlias */
  method ExecAlias(line: string) returns (r: string)
    ensures r == Alias(line)
  {
    if line == "help" {
      return "?";
    }
    var sps: seq<string> := [];
    var parts := Split(line, '\n');
    for i := 0 to |parts|
      invariant sps == AliasLines(parts[..i])
    {
      var sp := parts[i];
      if HasPrefix(sp, "echo ") {
        sps := sps + ["println(" + sp[5..] + ")"];
      } else {
        sps := sps + [sp];
      }
      assert parts[..i + 1][..i] == parts[..i];
    }
    assert parts[..|parts|] == parts;
    r := Join(sps, "\n");
  }

  class Workspace {
    var pkgs: seq<ImportSpec>
    var pkgsNotimport: seq<ImportSpec>
    var defs: seq<Def>
    var codes: seq<Stmt>
    var args: string

    /** The workspace as a value. */
    function Value(): State
      reads this
    {
      State(pkgs, pkgsNotimport, defs, codes, args)
    }

    /** The empty workspace of start-up, before the defaults are added. */
    constructor ()
      ensures Value() == State([], [], [], [], "")
    {
      pkgs, pkgsNotimport, defs, codes, args := [], [], [], [], "";
    }

    /** source: the program text, assembled piece by piece. */
    method Source(printDpc: bool, printLinenums: bool, printNotimport: bool) returns (source: string)
      ensures source == SourceText(Value(), printDpc, printLinenums, printNotimport)
    {
      source := Lead(printDpc) + "package main\n\n";
      var active := ImportRows(pkgs, 0, printDpc, []);
      source := source + active;
      var inactive := [];
      if printNotimport {
        inactive := ImportRows(pkgsNotimport, |pkgs|, printDpc, NotUsedMarker);
      }
      source := source + inactive + "\n";
      var declarations := DefRows(defs, printDpc);
      source := source + declarations + Lead(printDpc) + "func main() {\n";
      var statements := CodeRows(codes, printDpc);
      source := source + statements + Lead(printDpc) + "}\n";
      if printLinenums {
        source := NumberSource(source);
      }
    }

    /** sourceDefaultDPC: each default import not active without an alias is added as inactive. */
    method SourceDefaults()
      modifies this
      ensures Value() == WithDefaults(old(Value()))
    {
      for i := 0 to |DefaultImports|
        invariant pkgsNotimport == old(pkgsNotimport) + MissingDefaults(pkgs, DefaultImports[..i])
        invariant pkgs == old(pkgs) && defs == old(defs) && codes == old(codes) && args == old(args)
      {
        assert DefaultImports[..i + 1][..i] == DefaultImports[..i];
        var found := Listed(pkgs, DefaultImports[i]);
        if found {
          continue;
        }
        pkgsNotimport := pkgsNotimport + [DefaultImports[i]];
      }
      assert DefaultImports[..|DefaultImports|] == DefaultImports;
    }

    /** The `reset` command. */
    method Reset()
      modifies this
      ensures Value() == Merge.Reset(old(Value()))
    {
      pkgs := [];
      pkgsNotimport := [];
      defs := [];
      codes := [];
      SourceDefaults();
    }

    /** removeByIndex */
    method RemoveByIndex(cmdArgs: string)
      modifies this
      ensures Value() == Remove(old(Value()), cmdArgs)
    {
      if |cmdArgs| == 0 {
        return;
      }
      var itemType := cmdArgs[0];
      var itemListLen :=
        if itemType == 'd' then |defs|
        else if itemType == 'p' then |pkgs| + |pkgsNotimport|
        else if itemType == 'c' then |codes|
        else -1;
      if itemListLen == -1 || itemListLen == 0 {
        return;
      }
      var itemsToRemove := GetIndices(itemListLen, cmdArgs[1..]);
      assert itemsToRemove == Mask(itemListLen, cmdArgs[1..]);
      if itemType == 'd' {
        defs := RemoveSlice(defs, itemsToRemove);
      } else if itemType == 'p' {
        var items4import, items4notimport := SplitMask(itemsToRemove, |pkgs|);
        assert items4import == itemsToRemove[..|pkgs|] && items4notimport == itemsToRemove[|pkgs|..];
        pkgs := RemoveSlice(pkgs, items4import);
        pkgsNotimport := RemoveSlice(pkgsNotimport, items4notimport);
      } else {
        codes := RemoveSlice(codes, itemsToRemove);
      }
    }

    /** The statement branch of parseGo: insert the fragment, last statement first, each followed by its echoes. */
    method InsertStatements(at: int, v: seq<Stmt>)
      modifies this
      ensures Value() == InsertStmts(old(Value()), at, v)
    {
      var pos := at;
      if pos > |codes| || pos < 0 {
        pos := |codes|;
      }
      ghost var front, back := codes[..pos], codes[pos..];
      assert codes == front + Expand(v[|v|..]) + back;
      var i := |v|;
      while i > 0
        invariant 0 <= i <= |v|
        invariant codes == front + Expand(v[i..]) + back
        invariant pkgs == old(pkgs) && pkgsNotimport == old(pkgsNotimport) && defs == old(defs) && args == old(args)
      {
        i := i - 1;
        ghost var before := codes;
        ghost var echoes := if v[i].Define? then Echoes(v[i].names) else [];
        if v[i].Define? {
          InsertEchoes(pos, v[i].names);
        } else {
          assert codes[..pos] + echoes + codes[pos..] == codes;
        }
        ghost var mid := codes;
        codes := codes[..pos] + [v[i]] + codes[pos..];
        StatementInserted(front, back, v, i, echoes, before, mid, codes);
      }
    }

    /** The `_ = name` statements of one `:=`, each inserted at the same position. */
    method InsertEchoes(pos: nat, names: seq<string>)
      requires pos <= |codes|
      modifies this
      ensures codes == old(codes)[..pos] + Echoes(names) + old(codes)[pos..]
      ensures pkgs == old(pkgs) && pkgsNotimport == old(pkgsNotimport) && defs == old(defs) && args == old(args)
    {
      ghost var front, back := codes[..pos], codes[pos..];
      for n := 0 to |names|
        invariant codes == front + Echoes(names[..n]) + back
        invariant pkgs == old(pkgs) && pkgsNotimport == old(pkgsNotimport) && defs == old(defs) && args == old(args)
      {
        assert names[..n + 1][..n] == names[..n];
        if names[n] == "_" {
          continue;
        }
        InsertSeam(front, Echoes(names[..n]), back, [Discard(names[n])]);
        codes := codes[..pos] + [Discard(names[n])] + codes[pos..];
      }
      assert names[..|names|] == names;
    }

    /**
     * The declaration branch of parseGo: walking the fragment backwards, each
     * import spec not known yet is appended to the active imports, and every
     * other declaration is inserted at the position.
     */
    method InsertDeclarations(at: int, v: seq<TopDecl>)
      modifies this
      ensures Value() == InsertDecls(old(Value()), at, v)
    {
      var pos := at;
      if pos > |defs| || pos < 0 {
        pos := |defs|;
      }
      var active, inactive, decls := pkgs, pkgsNotimport, defs;
      ghost var base, front, back := pkgs, defs[..pos], defs[pos..];
      assert v[|v|..] == [];
      assert decls == front + DefsOf(v[|v|..]) + back;
      var i := |v|;
      while i > 0
        invariant 0 <= i <= |v|
        invariant active == AddImports(base, inactive, ImportsOf(v[i..]))
        invariant decls == front + DefsOf(v[i..]) + back
        modifies {}
      {
        i := i - 1;
        ghost var seen, now := ImportsOf(v[i + 1..]), ImportsOf(v[i..]);
        assert now == seen + SpecsOf(v[i]) by {
          assert v[i..][1..] == v[i + 1..];
        }
        if v[i].ImportGroup? {
          active := AddSpecs(active, inactive, v[i].specs, base, seen);
          assert DefsOf(v[i..]) == DefsOf(v[i + 1..]) by {
            assert v[i..][1..] == v[i + 1..];
          }
          continue;
        }
        assert now == seen by {
          assert seen + [] == seen;
        }
        ghost var before := decls;
        decls := decls[..pos] + [Def(v[i].text)] + decls[pos..];
        DefinitionInserted(front, back, v, i, before, decls);
      }
      assert v[0..] == v;
      pkgs, defs := active, decls;
    }

    /**
     * The two reconciliation loops of parseGo: first every unused import is
     * deactivated, then every undefined name activates its first provider.
     */
    method ReconcileImports(diags: seq<Diagnostic>)
      modifies this
      ensures Value() == Reconcile(old(Value()), diags)
    {
      for d := 0 to |diags|
        invariant Value() == UnusedPass(old(Value()), diags[..d])
      {
        assert diags[..d + 1][..d] == diags[..d];
        if diags[d].Unused? {
          DeactivateImport(UnusedImport(diags[d].path, diags[d].alias));
        }
      }
      assert diags[..|diags|] == diags;
      ghost var mid := Value();
      for d := 0 to |diags|
        invariant Value() == UndefinedPass(mid, diags[..d])
      {
        assert diags[..d + 1][..d] == diags[..d];
        if diags[d].Undefined? {
          ActivateImport(diags[d].name);
        }
      }
    }

    /** One unused-import diagnostic: its first active occurrence moves to the end of the inactive list. */
    method DeactivateImport(spec: ImportSpec)
      modifies this
      ensures Value() == Deactivate(old(Value()), spec)
    {
      var pos := 0;
      while pos < |pkgs|
        invariant 0 <= pos <= |pkgs| && Value() == old(Value())
        invariant spec !in pkgs[..pos]
      {
        if pkgs[pos] == spec {
          var pkg := pkgs[pos];
          pkgs := pkgs[..pos] + pkgs[pos + 1..];
          pkgsNotimport := pkgsNotimport + [pkg];
          return;
        }
        assert pkgs[..pos + 1] == pkgs[..pos] + [pkgs[pos]];
        pos := pos + 1;
      }
      assert pkgs[..pos] == pkgs;
    }

    /** One undefined-name diagnostic: the first inactive import providing the name moves to the end of the active list. */
    method ActivateImport(name: string)
      modifies this
      ensures Value() == Activate(old(Value()), name)
    {
      var pos := 0;
      while pos < |pkgsNotimport|
        invariant 0 <= pos <= |pkgsNotimport| && Value() == old(Value())
        invariant forall k :: 0 <= k < pos ==> !Provides(pkgsNotimport[k], name)
      {
        if Provides(pkgsNotimport[pos], name) {
          var pkg := pkgsNotimport[pos];
          pkgsNotimport := pkgsNotimport[..pos] + pkgsNotimport[pos + 1..];
          pkgs := pkgs + [pkg];
          return;
        }
        pos := pos + 1;
      }
    }

    /**
     * parseGo: merge one fragment speculatively, build it (reconciling the
     * imports once if the build fails), run it, and keep it only when it
     * builds and runs silently; otherwise every list is restored.
     */
    method ParseGo(line: string, o: Oracles) returns (notComplete: bool, err: Option<Error>, ghost compiled: seq<string>)
      requires line != []
      modifies this
      ensures var r := Repl.ParseGo(old(Value()), line, o);
        Value() == r.state && Reply(notComplete, err) == r.reply && compiled == r.compiled
    {
      notComplete, err, compiled := false, None, [];
      var placement := PositionPrefix(line);
      if placement.DigitsOnly? {
        return;
      }
      if placement.BadNumber? {
        err := Some(BadPosition);
        return;
      }
      var pos, text := placement.pos, placement.text;
      ghost var st := Value();

      var tree := o.parse(text);
      if tree.ScanErrors? {
        notComplete := true;
        return;
      }
      if tree.OtherError? {
        err := Some(ParseFailed(tree.msg));
        return;
      }

      assert Repl.ParseGo(st, line, o) == Build(st, Apply(st, pos, tree), o);
      err, compiled := Speculate(pos, tree, o);
    }

    /**
     * The speculative part of parseGo: back up the lists, merge, build (and
     * reconcile and build again), run, and restore unless the fragment
     * built and ran silently.
     */
    method Speculate(pos: int, tree: ParseOutcome, o: Oracles) returns (err: Option<Error>, ghost compiled: seq<string>)
      requires tree.Decls? || tree.Stmts?
      modifies this
      ensures var r := Build(old(Value()), Apply(old(Value()), pos, tree), o);
        Value() == r.state && Reply(false, err) == r.reply && compiled == r.compiled
    {
      err := None;
      ghost var before := Value();
      var bkupPkgs, bkupPkgsNotimport, bkupCodes, bkupDefs := pkgs, pkgsNotimport, codes, defs;
      if tree.Stmts? {
        InsertStatements(pos, tree.stmts);
      } else {
        InsertDeclarations(pos, tree.decls);
      }
      ghost var after := Value();
      assert after == Apply(before, pos, tree);
      var result, src;
      result, src, compiled := BuildCandidate(o);
      BuildByCandidate(before, after, o);
      if result.Failed? {
        err := Some(CompileFailed(result.diags));
      } else {
        var rr := o.run(src, args);
        if rr.failed {
          err := Some(RunFailed);
        } else if !rr.hasOutput {
          return;
        }
      }
      assert args == before.args;
      pkgs, pkgsNotimport, codes, defs := bkupPkgs, bkupPkgsNotimport, bkupCodes, bkupDefs;
    }

    /**
     * The builds of parseGo: build the merged workspace; when that fails,
     * reconcile the imports from the diagnostics and build once more.
     */
    method BuildCandidate(o: Oracles) returns (result: CompileResult, src: string, ghost compiled: seq<string>)
      modifies this
      ensures Value() == Candidate(old(Value()), o) && args == old(args)
      ensures src == Render(Value()) && result == o.compile(src)
      ensures compiled == if o.compile(Render(old(Value()))).Built? then [Render(old(Value()))] else [Render(old(Value())), src]
    {
      ghost var after := Value();
      src := Source(false, false, false);
      result := o.compile(src);
      compiled := [src];
      if result.Failed? {
        ReconcileImports(result.diags);
        ReconcileMoves(after, result.diags);
        src := Source(false, false, false);
        result := o.compile(src);
        compiled := compiled + [src];
      }
    }

    /** parseGo4import: append a fragment as it is, with no position, dedupe or build. */
    method ParseGo4Import(text: string, parse: string -> ParseOutcome) returns (notComplete: bool, err: Option<Error>)
      modifies this
      ensures (Value(), Reply(notComplete, err)) == Repl.ParseGo4Import(old(Value()), text, parse)
    {
      notComplete, err := false, None;
      var tree := parse(text);
      if tree.ScanErrors? {
        notComplete := true;
        return;
      }
      if tree.OtherError? {
        err := Some(ParseFailed(tree.msg));
        return;
      }
      if tree.Stmts? {
        AppendStatements(tree.stmts);
      } else {
        AppendDeclarations(tree.decls);
      }
    }

    /** The statement case of parseGo4import: every statement goes to the end of main. */
    method AppendStatements(v: seq<Stmt>)
      modifies this
      ensures Value() == old(Value()).(codes := old(codes) + v)
    {
      for e := 0 to |v|
        invariant Value() == old(Value()).(codes := old(codes) + v[..e])
      {
        assert v[..e + 1] == v[..e] + [v[e]];
        codes := codes + [v[e]];
      }
      assert v[..|v|] == v;
    }

    /** The declaration case of parseGo4import: import specs go to the active imports, the rest to the end of the definitions. */
    method AppendDeclarations(v: seq<TopDecl>)
      modifies this
      ensures Value() == old(Value()).(pkgs := old(pkgs) + FlatImports(v), defs := old(defs) + DefsOf(v))
    {
      for e := 0 to |v|
        invariant pkgs == old(pkgs) + FlatImports(v[..e]) && defs == old(defs) + DefsOf(v[..e])
        invariant pkgsNotimport == old(pkgsNotimport) && codes == old(codes) && args == old(args)
      {
        AppendDeclaration(v[e]);
        FlatImportsSnoc(v[..e], v[e]);
        DefsOfSnoc(v[..e], v[e]);
        assert v[..e + 1] == v[..e] + [v[e]];
        Regroup(old(pkgs), FlatImports(v[..e]), SpecsOf(v[e]));
        Regroup(old(defs), DefsOf(v[..e]), if v[e].Definition? then [Def(v[e].text)] else []);
      }
      assert v[..|v|] == v;
    }

    /** One declaration of parseGo4import: an import declaration contributes its specs, anything else itself. */
    method AppendDeclaration(d: TopDecl)
      modifies this
      ensures pkgs == old(pkgs) + SpecsOf(d)
      ensures defs == old(defs) + if d.Definition? then [Def(d.text)] else []
      ensures pkgsNotimport == old(pkgsNotimport) && codes == old(codes) && args == old(args)
    {
      if d.ImportGroup? {
        AppendImports(d.specs);
        return;
      }
      defs := defs + [Def(d.text)];
    }

    /** The specs of one import declaration, each appended to the active imports. */
    method AppendImports(specs: seq<ImportSpec>)
      modifies this
      ensures Value() == old(Value()).(pkgs := old(pkgs) + specs)
    {
      for k := 0 to |specs|
        invariant Value() == old(Value()).(pkgs := old(pkgs) + specs[..k])
      {
        assert specs[..k + 1] == specs[..k] + [specs[k]];
        pkgs := pkgs + [specs[k]];
      }
      assert specs[..|specs|] == specs;
    }

    /** The loading loop of the `<` command: wipe, feed the template line by line, restore the defaults. */
    method LoadTemplate(text: string, parse: string -> ParseOutcome)
      modifies this
      ensures Value() == Repl.LoadTemplate(old(Value()), text, parse)
    {
      pkgs := [];
      pkgsNotimport := [];
      codes := [];
      defs := [];
      ghost var target := LoadLines(Value(), "", Split(StripMain(text), '\n'), parse);
      var lines := Split(StripMain(text), '\n');
      var tmpline := "";
      for i := 0 to |lines|
        invariant LoadLines(Value(), tmpline, lines[i..], parse) == target
      {
        assert lines[i..][1..] == lines[i + 1..];
        tmpline := tmpline + lines[i] + "\n";
        var notComplete, err := ParseGo4Import(tmpline, parse);
        if err.Some? {
          break;
        }
        if notComplete {
          continue;
        }
        tmpline := "";
      }
      SourceDefaults();
    }

    /** execSpecial: true when the line was a special command, which it then carries out. */
    method ExecSpecial(line: string, o: Oracles) returns (handled: bool)
      modifies this
      ensures handled <==> Special(old(Value()), line, o).Some?
      ensures Value() == if handled then Special(old(Value()), line, o).value else old(Value())
    {
      if HasPrefix(line, ">") {
        return true;
      }
      if HasPrefix(line, "<") && !HasPrefix(line, "<-") {
        LoadCommand(line, o);
        return true;
      }
      if line == "reset" {
        Reset();
        return true;
      }
      if line == "list" || line == "arg" {
        return true;
      }
      if HasPrefix(line, "arg ") && !HasPrefix(line, "arg =") && !HasPrefix(line, "arg :=") {
        args := TrimSpace(line[4..]);
        return true;
      }
      return false;
    }

    /** The `<` branch of execSpecial: load a template when the file can be read. */
    method LoadCommand(line: string, o: Oracles)
      requires LoadsTemplate(line)
      modifies this
      ensures Special(old(Value()), line, o) == Some(Value())
    {
      SpecialLoads(Value(), line, o);
      var file := TrimSpace(line[1..]);
      if file == "" {
        return;
      }
      ghost var name := file;
      if !HasSuffix(file, ".tmpl") {
        file := file + ".tmpl";
      }
      assert file == TemplateFile(name);
      var bs := o.read(file);
      if bs.None? {
        return;
      }
      LoadTemplate(bs.value, o.parse);
    }

    /** dispatch: one input line of the REPL. */
    method Dispatch(input: string, o: Oracles) returns (notComplete: bool, err: Option<Error>, shown: Option<string>)
      modifies this
      ensures var out := Repl.Dispatch(old(Value()), input, o);
        Value() == out.state && Reply(notComplete, err) == out.reply && shown == out.shown
    {
      notComplete, err, shown := false, None, None;
      var line := TrimSpace(input);
      line := ExecAlias(line);
      if line == "" {
        return;
      }
      var handled := ExecSpecial(line, o);
      if handled {
        return;
      }
      if line[0] == '?' {
      } else if line[0] == '-' {
        RemoveByIndex(TrimSpace(line[1..]));
      } else if line[0] == '!' {
        var cmdArgs := TrimSpace(line[1..]);
        var text := Source(true, cmdArgs == "!", true);
        shown := Some(text);
      } else {
        ghost var compiled;
        notComplete, err, compiled := ParseGo(line, o);
      }
    }
  }

  /** The position prefix of parseGo: leading digits give the insertion position, the trimmed rest is the fragment. */
  method PositionPrefix(line: string) returns (placement: Placement)
    requires line != []
    ensures placement == Place(line)
  {
    if !IsDigit(line[0]) {
      return Placed(-1, line);
    }
    var idx := FirstNonDigit(line[1..]);
    if idx.None? {
      return DigitsOnly;
    }
    var number := Atoi(line[..idx.value + 1]);
    if number.None? {
      return BadNumber;
    }
    placement := Placed(number.value, TrimSpace(line[idx.value + 1..]));
  }

  /** The import loops of source: one line per import, labelled from base on. */
  method ImportRows(imports: seq<ImportSpec>, base: nat, printDpc: bool, suffix: string) returns (rows: string)
    ensures rows == ImportLines(imports, base, printDpc, suffix)
  {
    rows := "";
    var pkgsNum := base;
    for i := 0 to |imports|
      invariant pkgsNum == base + i
      invariant rows == ImportLines(imports[..i], base, printDpc, suffix)
    {
      ImportLinesStep(imports, i, base, printDpc, suffix);
      var row := "";
      if printDpc {
        row := "p" + Itoa(pkgsNum) + ":\t";
      }
      row := row + RenderImport(imports[i]) + suffix + "\n";
      rows := rows + row;
      pkgsNum := pkgsNum + 1;
    }
    assert imports[..|imports|] == imports;
  }

  /** The declaration loop of source. */
  method DefRows(defs: seq<Def>, printDpc: bool) returns (rows: string)
    ensures rows == DefBlocks(defs, printDpc)
  {
    rows := "";
    for pos := 0 to |defs|
      invariant rows == DefBlocks(defs[..pos], printDpc)
    {
      DefBlocksStep(defs, pos, printDpc);
      var row;
      if printDpc {
        row := "d" + Itoa(pos) + ":\t";
        row := row + Join(Split(defs[pos].text, '\n'), "\n\t");
      } else {
        row := defs[pos].text;
      }
      row := row + "\n\n";
      rows := rows + row;
    }
    assert defs[..|defs|] == defs;
  }

  /** The statement loop of source: the body of main. */
  method CodeRows(codes: seq<Stmt>, printDpc: bool) returns (rows: string)
    ensures rows == CodeBlocks(codes, printDpc)
  {
    rows := "";
    for pos := 0 to |codes|
      invariant rows == CodeBlocks(codes[..pos], printDpc)
    {
      CodeBlocksStep(codes, pos, printDpc);
      var row;
      if printDpc {
        row := "c" + Itoa(pos) + ":\t";
        row := row + "\t" + Join(Split(RenderStmt(codes[pos]), '\n'), "\n\t\t");
      } else {
        row := "\t" + Join(Split(RenderStmt(codes[pos]), '\n'), "\n\t");
      }
      row := row + "\n";
      rows := rows + row;
    }
    assert codes[..|codes|] == codes;
  }

  /** The line-number pass of source. */
  method NumberSource(source: string) returns (newsource: string)
    ensures newsource == NumberLines(Split(source, '\n'), 1)
  {
    newsource := "";
    var items := Split(source, '\n');
    for line := 0 to |items|
      invariant newsource == NumberLines(items[..line], 1)
    {
      NumberLinesStep(items, line);
      newsource := newsource + (Itoa(line + 1) + "\t" + items[line] + "\n");
    }
    assert items[..|items|] == items;
  }

  /** The transaction in the order Speculate takes it: build the candidate, then report its failed build or run it. */
  lemma BuildByCandidate(before: State, after: State, o: Oracles)
    ensures var c := Candidate(after, o);
      var compiled := if o.compile(Render(after)).Built? then [Render(after)] else [Render(after), Render(c)];
      Build(before, after, o) == match o.compile(Render(c))
        case Built => Run(before, c, compiled, o)
        case Failed(d) => Step(before, Reply(false, Some(CompileFailed(d))), compiled)
  {
  }

  lemma StatementInserted(front: seq<Stmt>, back: seq<Stmt>, v: seq<Stmt>, i: nat, echoes: seq<Stmt>,
                          before: seq<Stmt>, mid: seq<Stmt>, after: seq<Stmt>)
    requires i < |v| && echoes == (if v[i].Define? then Echoes(v[i].names) else [])
    requires before == front + Expand(v[i + 1..]) + back
    requires mid == before[..|front|] + echoes + before[|front|..]
    requires after == mid[..|front|] + [v[i]] + mid[|front|..]
    ensures after == front + Expand(v[i..]) + back
  {
    ExpandStep(v, i);
    var rest := Expand(v[i + 1..]);
    InsertSeam(front, rest, back, echoes);
    InsertSeam(front, echoes + rest, back, [v[i]]);
    assert [v[i]] + (echoes + rest) == [v[i]] + echoes + rest;
  }

  /** Inserting e at the seam after front puts it in front of the middle part. */
  lemma InsertSeam<T>(front: seq<T>, mid: seq<T>, back: seq<T>, e: seq<T>)
    ensures var c := front + mid + back;
      c[..|front|] + e + c[|front|..] == front + (e + mid) + back
  {
    var c := front + mid + back;
    assert c[..|front|] == front;
    assert c[|front|..] == mid + back;
  }

  /** The spec loop of one import declaration in parseGo: a spec already known, active or not, is skipped. */
  method AddSpecs(pkgs: seq<ImportSpec>, notimport: seq<ImportSpec>, specs: seq<ImportSpec>,
                  ghost base: seq<ImportSpec>, ghost seen: seq<ImportSpec>) returns (r: seq<ImportSpec>)
    requires pkgs == AddImports(base, notimport, seen)
    ensures r == AddImports(base, notimport, seen + specs)
  {
    r := pkgs;
    assert seen + specs[..0] == seen;
    for k := 0 to |specs|
      invariant r == AddImports(base, notimport, seen + specs[..k])
    {
      AddSpecStep(base, notimport, seen, specs, k);
      var active := Listed(r, specs[k]);
      if active {
        continue;
      }
      var inactive := Listed(notimport, specs[k]);
      if inactive {
        continue;
      }
      r := r + [specs[k]];
    }
    assert specs[..|specs|] == specs;
  }

  /** One turn of the spec loop: the next spec is added unless it is already known. */
  lemma AddSpecStep(base: seq<ImportSpec>, notimport: seq<ImportSpec>, seen: seq<ImportSpec>, specs: seq<ImportSpec>, k: nat)
    requires k < |specs|
    ensures var p := AddImports(base, notimport, seen + specs[..k]);
      AddImports(base, notimport, seen + specs[..k + 1]) == if specs[k] in p || specs[k] in notimport then p else p + [specs[k]]
  {
    assert seen + specs[..k + 1] == (seen + specs[..k]) + [specs[k]];
    AddImportsSnoc(base, notimport, seen + specs[..k], specs[k]);
  }

  lemma AddImportsSnoc(pkgs: seq<ImportSpec>, notimport: seq<ImportSpec>, specs: seq<ImportSpec>, s: ImportSpec)
    ensures var p := AddImports(pkgs, notimport, specs);
      AddImports(pkgs, notimport, specs + [s]) == if s in p || s in notimport then p else p + [s]
  {
    assert (specs + [s])[..|specs|] == specs;
  }

  lemma DefinitionInserted(front: seq<Def>, back: seq<Def>, v: seq<TopDecl>, i: nat, before: seq<Def>, after: seq<Def>)
    requires i < |v| && !v[i].ImportGroup?
    requires before == front + DefsOf(v[i + 1..]) + back
    requires after == before[..|front|] + [Def(v[i].text)] + before[|front|..]
    ensures after == front + DefsOf(v[i..]) + back
  {
    assert v[i..][1..] == v[i + 1..];
    assert before[..|front|] == front;
    assert before[|front|..] == DefsOf(v[i + 1..]) + back;
  }

  lemma FlatImportsSnoc(decls: seq<TopDecl>, d: TopDecl)
    ensures FlatImports(decls + [d]) == FlatImports(decls) + SpecsOf(d)
  {
    if decls != [] {
      assert (decls + [d])[1..] == decls[1..] + [d];
      FlatImportsSnoc(decls[1..], d);
    }
  }

  lemma DefsOfSnoc(decls: seq<TopDecl>, d: TopDecl)
    ensures DefsOf(decls + [d]) == DefsOf(decls) + (if d.Definition? then [Def(d.text)] else [])
  {
    if decls != [] {
      assert (decls + [d])[1..] == decls[1..] + [d];
      DefsOfSnoc(decls[1..], d);
    }
  }

  lemma ExpandStep(v: seq<Stmt>, i: nat)
    requires i < |v|
    ensures Expand(v[i..]) == [v[i]] + (if v[i].Define? then Echoes(v[i].names) else []) + Expand(v[i + 1..])
  {
    assert v[i..][1..] == v[i + 1..];
  }

  lemma ImportLinesStep(imports: seq<ImportSpec>, i: nat, base: nat, dpc: bool, suffix: string)
    requires i < |imports|
    ensures ImportLines(imports[..i + 1], base, dpc, suffix)
      == ImportLines(imports[..i], base, dpc, suffix) + ImportLine(imports[i], base + i, dpc, suffix)
  {
    assert imports[..i + 1][..i] == imports[..i];
  }

  lemma DefBlocksStep(defs: seq<Def>, pos: nat, dpc: bool)
    requires pos < |defs|
    ensures DefBlocks(defs[..pos + 1], dpc) == DefBlocks(defs[..pos], dpc) + DefBlock(defs[pos], pos, dpc)
  {
    assert defs[..pos + 1][..pos] == defs[..pos];
  }

  lemma CodeBlocksStep(codes: seq<Stmt>, pos: nat, dpc: bool)
    requires pos < |codes|
    ensures CodeBlocks(codes[..pos + 1], dpc) == CodeBlocks(codes[..pos], dpc) + CodeBlock(codes[pos], pos, dpc)
  {
    assert codes[..pos + 1][..pos] == codes[..pos];
  }

  lemma NumberLinesStep(items: seq<string>, k: nat)
    requires k < |items|
    ensures NumberLines(items[..k + 1], 1) == NumberLines(items[..k], 1) + NumberedLine(items[k], k + 1)
  {
    assert items[..k + 1][..k] == items[..k];
  }
}
