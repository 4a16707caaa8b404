/**
 * The workspace operations as functions of the workspace value: defaults and
 * reset, the `echo` alias, removal by index, merging a parsed fragment,
 * reconciling imports from compiler diagnostics, and the speculative
 * build-run-commit-or-restore transaction around a fragment.
 */
module Merge {
  import opened Wrappers
  import opened Text
  import opened Syntax
  import opened Masks
  import opened Assemble

  // ---------------------------------------------------------------- defaults

  /** The standard packages offered as inactive imports after start-up and reset, each quoted and without alias. */
  const DefaultImports: seq<ImportSpec> := [
    ImportSpec("\"fmt\"", NoName), ImportSpec("\"strconv\"", NoName), ImportSpec("\"strings\"", NoName),
    ImportSpec("\"time\"", NoName), ImportSpec("\"encoding/json\"", NoName), ImportSpec("\"bytes\"", NoName)]

  /** The given defaults, in order, that are not already active under the same path and no alias. */
  function MissingDefaults(pkgs: seq<ImportSpec>, defaults: seq<ImportSpec>): seq<ImportSpec> {
    if defaults == [] then []
    else
      var n := |defaults| - 1;
      MissingDefaults(pkgs, defaults[..n]) + (if defaults[n] in pkgs then [] else [defaults[n]])
  }

  /** sourceDefaultDPC */
  function WithDefaults(st: State): State {
    st.(pkgsNotimport := st.pkgsNotimport + MissingDefaults(st.pkgs, DefaultImports))
  }

  /** The `reset` command. */
  function Reset(st: State): State {
    WithDefaults(st.(pkgs := [], pkgsNotimport := [], defs := [], codes := []))
  }

  /** Exactly the defaults missing from the active imports are added, each once. */
  lemma {:induction false} MissingDefaultsMembers(pkgs: seq<ImportSpec>, defaults: seq<ImportSpec>, x: ImportSpec)
    ensures x in MissingDefaults(pkgs, defaults) <==> x !in pkgs && x in defaults
  {
    if defaults != [] {
      var n := |defaults| - 1;
      MissingDefaultsMembers(pkgs, defaults[..n], x);
      assert defaults == defaults[..n] + [defaults[n]];
    }
  }

  /** Against an empty active list every default is missing. */
  lemma {:induction false} MissingDefaultsAll(defaults: seq<ImportSpec>)
    ensures MissingDefaults([], defaults) == defaults
  {
    if defaults != [] {
      MissingDefaultsAll(defaults[..|defaults| - 1]);
      assert defaults == defaults[..|defaults| - 1] + [defaults[|defaults| - 1]];
    }
  }

  /** After a reset only the six default imports remain, all inactive, and the argument string is kept. */
  lemma ResetState(st: State)
    ensures Reset(st) == State([], DefaultImports, [], [], st.args)
    ensures ImportsDistinct(Reset(st))
  {
    MissingDefaultsAll(DefaultImports);
    assert [] + DefaultImports == DefaultImports;
    DefaultsDistinct();
  }

  /** The six defaults differ in the first letter of the path, or in the fourth for strconv and strings. */
  lemma DefaultsDistinct()
    ensures Distinct(DefaultImports)
  {
    var r := DefaultImports;
    var first := [r[0].path[1], r[1].path[1], r[2].path[1], r[3].path[1], r[4].path[1], r[5].path[1]];
    assert first == ['f', 's', 's', 't', 'e', 'b'];
    assert r[1].path[4] == 'c' && r[2].path[4] == 'i';
    forall i, j | 0 <= i < j < |r| ensures r[i] != r[j] {
      if i == 1 && j == 2 {
        assert r[i].path[4] != r[j].path[4];
      } else {
        assert first[i] != first[j];
      }
    }
  }

  // ------------------------------------------------------------------- alias

  /** One line of the `echo x` alias. */
  function AliasLine(line: string): string {
    if HasPrefix(line, "echo ") then "println(" + line[5..] + ")" else line
  }

  function AliasLines(lines: seq<string>): (r: seq<string>)
    ensures |r| == |lines|
    ensures forall i :: 0 <= i < |lines| ==> r[i] == AliasLine(lines[i])
  {
    if lines == [] then [] else AliasLines(lines[..|lines| - 1]) + [AliasLine(lines[|lines| - 1])]
  }

  /** execAlias: `help` becomes `?`, and every line `echo x` becomes `println(x)`. */
  function Alias(line: string): string {
    if line == "help" then "?" else Join(AliasLines(Split(line, '\n')), "\n")
  }

  lemma AliasLineStable(line: string)
    ensures AliasLine(AliasLine(line)) == AliasLine(line)
    ensures '\n' !in line ==> '\n' !in AliasLine(line)
    ensures AliasLine(line) != "help" || line == "help"
  {
    if HasPrefix(line, "echo ") {
      var r := "println(" + line[5..] + ")";
      assert r[..5] == "print";
      assert r[0] == 'p';
    }
  }

  lemma AliasLinesStable(lines: seq<string>)
    requires forall i :: 0 <= i < |lines| ==> '\n' !in lines[i]
    ensures forall i :: 0 <= i < |lines| ==> '\n' !in AliasLines(lines)[i]
    ensures AliasLines(AliasLines(lines)) == AliasLines(lines)
  {
    forall i | 0 <= i < |lines| ensures '\n' !in AliasLines(lines)[i] && AliasLine(AliasLines(lines)[i]) == AliasLines(lines)[i] {
      AliasLineStable(lines[i]);
    }
  }

  lemma AliasNotHelp(line: string)
    requires line != "help"
    ensures Alias(line) != "help"
  {
    var parts := Split(line, '\n');
    var mapped := AliasLines(parts);
    if |mapped| == 1 {
      assert "\n" == ['\n'];
      JoinSplit(line, '\n');
      AliasLineStable(parts[0]);
    } else {
      assert Alias(line) == mapped[0] + "\n" + Join(mapped[1..], "\n");
      assert Alias(line)[|mapped[0]|] == '\n';
    }
  }

  lemma AliasOfQuery()
    ensures Alias("?") == "?"
  {
    SplitNoSeparator("?", '\n');
    assert AliasLine("?") == "?";
    assert AliasLines(["?"]) == ["?"];
  }

  /** Expanding aliases twice is expanding them once. */
  lemma AliasIdempotent(line: string)
    ensures Alias(Alias(line)) == Alias(line)
  {
    if line == "help" {
      AliasOfQuery();
    } else {
      var mapped := AliasLines(Split(line, '\n'));
      AliasNotHelp(line);
      AliasLinesStable(Split(line, '\n'));
      SplitJoin(mapped, '\n');
      assert "\n" == ['\n'];
    }
  }

  // ------------------------------------------------------------------ remove

  /** getIndices as a value: the selection of each of the n positions. */
  ghost function Mask(n: nat, spec: string): (m: seq<bool>)
    ensures |m| == n
  {
    seq(n, k requires 0 <= k < n => Selects(n, spec, k))
  }

  /**
   * removeByIndex: `d`, `c` or `p` followed by an index list. Imports are
   * numbered through the active list and then the inactive one. An unknown
   * kind, or a kind with no items, changes nothing.
   */
  ghost function Remove(st: State, cmdArgs: string): State {
    if cmdArgs == [] then st
    else
      var kind := cmdArgs[0];
      var spec := cmdArgs[1..];
      if kind == 'd' && |st.defs| > 0 then
        st.(defs := Kept(st.defs, Mask(|st.defs|, spec)))
      else if kind == 'p' && |st.pkgs| + |st.pkgsNotimport| > 0 then
        var m := Mask(|st.pkgs| + |st.pkgsNotimport|, spec);
        st.(pkgs := Kept(st.pkgs, m[..|st.pkgs|]), pkgsNotimport := Kept(st.pkgsNotimport, m[|st.pkgs|..]))
      else if kind == 'c' && |st.codes| > 0 then
        st.(codes := Kept(st.codes, Mask(|st.codes|, spec)))
      else st
  }

  /** Removing imports is filtering the combined list: active then inactive, one index space. */
  lemma RemoveImportsCombined(st: State, spec: string)
    requires |st.pkgs| + |st.pkgsNotimport| > 0
    ensures var r := Remove(st, ['p'] + spec);
      r.pkgs + r.pkgsNotimport == Kept(st.pkgs + st.pkgsNotimport, Mask(|st.pkgs| + |st.pkgsNotimport|, spec))
  {
    RemoveImportsSplit(st, spec);
    KeptSplit(st.pkgs, st.pkgsNotimport, Mask(|st.pkgs| + |st.pkgsNotimport|, spec));
  }

  /** Filtering two lists against the two halves of one mask is filtering their concatenation. */
  lemma KeptSplit<T>(a: seq<T>, b: seq<T>, m: seq<bool>)
    requires |a| <= |m|
    ensures Kept(a, m[..|a|]) + Kept(b, m[|a|..]) == Kept(a + b, m)
  {
    KeptPrefixMask(a, m);
    KeptAppend(a, b, m);
    assert From(m, |a|) == m[|a|..];
  }

  /** Removing imports splits the mask at the end of the active list. */
  lemma RemoveImportsSplit(st: State, spec: string)
    requires |st.pkgs| + |st.pkgsNotimport| > 0
    ensures var m, r := Mask(|st.pkgs| + |st.pkgsNotimport|, spec), Remove(st, ['p'] + spec);
      r.pkgs == Kept(st.pkgs, m[..|st.pkgs|]) && r.pkgsNotimport == Kept(st.pkgsNotimport, m[|st.pkgs|..])
  {
    assert (['p'] + spec)[0] == 'p' && (['p'] + spec)[1..] == spec;
  }

  /** Only the mask positions within the list matter. */
  lemma {:induction false} KeptPrefixMask<T>(s: seq<T>, mask: seq<bool>)
    requires |s| <= |mask|
    ensures Kept(s, mask[..|s|]) == Kept(s, mask)
  {
    if s != [] {
      var n := |s| - 1;
      KeptPrefixMask(s[..n], mask);
      assert mask[..n] == mask[..|s|][..n];
      KeptSameMask(s[..n], mask[..n], mask[..|s|]);
    }
  }

  lemma {:induction false} KeptSameMask<T>(s: seq<T>, m1: seq<bool>, m2: seq<bool>)
    requires forall i: nat :: i < |s| ==> Marked(m1, i) == Marked(m2, i)
    ensures Kept(s, m1) == Kept(s, m2)
  {
    if s != [] {
      KeptSameMask(s[..|s| - 1], m1, m2);
    }
  }

  /** With a blank index list the most recent item of that kind goes. */
  lemma RemoveLastStatement(st: State, spec: string)
    requires |st.codes| > 0 && TrimSpace(spec) == []
    ensures Remove(st, ['c'] + spec) == st.(codes := st.codes[..|st.codes| - 1])
  {
    var n := |st.codes|;
    var m := Mask(n, spec);
    assert Remove(st, ['c'] + spec) == st.(codes := Kept(st.codes, m)) by {
      assert (['c'] + spec)[0] == 'c' && (['c'] + spec)[1..] == spec;
    }
    MaskBlank(n, spec);
    KeptDropsLast(st.codes, m);
  }

  /** A blank index list selects the last position only. */
  lemma MaskBlank(n: nat, spec: string)
    requires TrimSpace(spec) == []
    ensures forall k :: 0 <= k < n ==> (Mask(n, spec)[k] <==> k == n - 1)
  {
    forall k | 0 <= k < n
      ensures Mask(n, spec)[k] <==> k == n - 1
    {
      assert Mask(n, spec)[k] == Selects(n, spec, k);
    }
  }

  /** Removal never creates a duplicate import. */
  lemma RemoveKeepsImportsDistinct(st: State, cmdArgs: string)
    requires ImportsDistinct(st)
    ensures ImportsDistinct(Remove(st, cmdArgs))
  {
    if cmdArgs != [] && cmdArgs[0] == 'p' && |st.pkgs| + |st.pkgsNotimport| > 0 {
      RemoveImportsCombined(st, cmdArgs[1..]);
      assert ['p'] + cmdArgs[1..] == cmdArgs;
      KeptDistinct(st.pkgs + st.pkgsNotimport, Mask(|st.pkgs| + |st.pkgsNotimport|, cmdArgs[1..]));
    }
  }

  // -------------------------------------------------------------- statements

  /** An out-of-range insertion position (negative or past the end) means "append". */
  function ClampPos(pos: int, len: nat): (p: nat)
    ensures p <= len
    ensures 0 <= pos <= len ==> p == pos
  {
    if pos > len || pos < 0 then len else pos
  }

  function Echo(name: string): seq<Stmt> {
    if name == "_" then [] else [Discard(name)]
  }

  /** The `_ = name` statements after a `:=`: one per name but `_`, last name first. */
  function Echoes(names: seq<string>): seq<Stmt> {
    if names == [] then [] else Echo(names[|names| - 1]) + Echoes(names[..|names| - 1])
  }

  /** A statement fragment with the echoes placed after each `:=`. */
  function Expand(stmts: seq<Stmt>): seq<Stmt> {
    if stmts == [] then []
    else [stmts[0]] + (if stmts[0].Define? then Echoes(stmts[0].names) else []) + Expand(stmts[1..])
  }

  /** parseGo on a statement list: the expanded fragment goes in at the (clamped) position. */
  function InsertStmts(st: State, pos: int, stmts: seq<Stmt>): State {
    var p := ClampPos(pos, |st.codes|);
    st.(codes := st.codes[..p] + Expand(stmts) + st.codes[p..])
  }

  /** The echoes of a longer list of names: those of the later names come first. */
  lemma {:induction false} EchoesAppend(a: seq<string>, b: seq<string>)
    ensures Echoes(a + b) == Echoes(b) + Echoes(a)
  {
    if b == [] {
      assert a + b == a;
    } else {
      var n := |b| - 1;
      assert (a + b)[..|a + b| - 1] == a + b[..n];
      assert (a + b)[|a + b| - 1] == b[n];
      EchoesAppend(a, b[..n]);
    }
  }

  /** `a, b := 1, 2` is followed by `_ = b` then `_ = a`; `a, _ := 1, 2` only by `_ = a`. */
  lemma EchoExamples(t: string)
    ensures Expand([Define(["a", "b"], t)]) == [Define(["a", "b"], t), Discard("b"), Discard("a")]
    ensures Expand([Define(["a", "_"], t)]) == [Define(["a", "_"], t), Discard("a")]
  {
    assert ["a", "b"][..1] == ["a"] && ["a", "_"][..1] == ["a"] && ["a"][..0] == [];
    assert Echoes(["a"]) == [Discard("a")];
    assert Echoes(["a", "b"]) == [Discard("b"), Discard("a")];
    assert Echoes(["a", "_"]) == [Discard("a")];
    assert [Define(["a", "b"], t)][1..] == [];
  }

  function Originals(stmts: seq<Stmt>): seq<Stmt> {
    if stmts == [] then [] else (if stmts[0].Discard? then [] else [stmts[0]]) + Originals(stmts[1..])
  }

  lemma {:induction false} OriginalsAppend(a: seq<Stmt>, b: seq<Stmt>)
    ensures Originals(a + b) == Originals(a) + Originals(b)
  {
    if a != [] {
      assert (a + b)[1..] == a[1..] + b;
      OriginalsAppend(a[1..], b);
    } else {
      assert a + b == b;
    }
  }

  lemma {:induction false} EchoesAreDiscards(names: seq<string>)
    ensures Originals(Echoes(names)) == []
  {
    if names != [] {
      EchoesAreDiscards(names[..|names| - 1]);
      OriginalsAppend(Echo(names[|names| - 1]), Echoes(names[..|names| - 1]));
    }
  }

  /** Taking the echoes out of an expanded fragment gives back the fragment, in order. */
  lemma {:induction false} ExpandKeepsFragment(stmts: seq<Stmt>)
    requires forall i :: 0 <= i < |stmts| ==> !stmts[i].Discard?
    ensures Originals(Expand(stmts)) == stmts
  {
    if stmts != [] {
      ExpandKeepsFragment(stmts[1..]);
      var echoes := if stmts[0].Define? then Echoes(stmts[0].names) else [];
      EchoesAreDiscards(if stmts[0].Define? then stmts[0].names else []);
      OriginalsAppend([stmts[0]] + echoes, Expand(stmts[1..]));
      OriginalsAppend([stmts[0]], echoes);
      assert Originals([stmts[0]]) == [stmts[0]];
      assert [stmts[0]] + stmts[1..] == stmts;
    }
  }

  // ------------------------------------------------------------ declarations

  function SpecsOf(d: TopDecl): seq<ImportSpec> {
    if d.ImportGroup? then d.specs else []
  }

  /** The import specs of a declaration list in the order parseGo visits them: last declaration first. */
  function ImportsOf(decls: seq<TopDecl>): seq<ImportSpec> {
    if decls == [] then [] else ImportsOf(decls[1..]) + SpecsOf(decls[0])
  }

  /** The non-import declarations, in fragment order. */
  function DefsOf(decls: seq<TopDecl>): seq<Def> {
    if decls == [] then []
    else (if decls[0].Definition? then [Def(decls[0].text)] else []) + DefsOf(decls[1..])
  }

  /** Each spec not yet known, active or inactive, becomes a new active import. */
  function AddImports(pkgs: seq<ImportSpec>, notimport: seq<ImportSpec>, specs: seq<ImportSpec>): seq<ImportSpec> {
    if specs == [] then pkgs
    else
      var p := AddImports(pkgs, notimport, specs[..|specs| - 1]);
      var s := specs[|specs| - 1];
      if s in p || s in notimport then p else p + [s]
  }

  /** parseGo on a declaration list. */
  function InsertDecls(st: State, pos: int, decls: seq<TopDecl>): State {
    var p := ClampPos(pos, |st.defs|);
    st.(pkgs := AddImports(st.pkgs, st.pkgsNotimport, ImportsOf(decls)),
        defs := st.defs[..p] + DefsOf(decls) + st.defs[p..])
  }

  /**
   * New imports are appended after the old ones; every spec of the fragment
   * ends up known; nothing else is added; and no import becomes a duplicate.
   */
  lemma {:induction false} AddImportsSpec(pkgs: seq<ImportSpec>, notimport: seq<ImportSpec>, specs: seq<ImportSpec>)
    ensures var r := AddImports(pkgs, notimport, specs);
      && |pkgs| <= |r| && r[..|pkgs|] == pkgs
      && (forall s :: s in specs ==> s in r || s in notimport)
      && (forall x :: x in r ==> x in pkgs || x in specs)
      && (Distinct(pkgs + notimport) ==> Distinct(r + notimport))
  {
    if specs != [] {
      var n := |specs| - 1;
      AddImportsSpec(pkgs, notimport, specs[..n]);
      var p := AddImports(pkgs, notimport, specs[..n]);
      var s := specs[n];
      assert specs == specs[..n] + [s];
      if !(s in p || s in notimport) && Distinct(pkgs + notimport) {
        var r := p + [s];
        assert r + notimport == (p + notimport)[..|p|] + [s] + (p + notimport)[|p|..];
        forall i, j | 0 <= i < j < |r + notimport| ensures (r + notimport)[i] != (r + notimport)[j] {
          if i == |p| {
            assert (r + notimport)[j] in notimport;
          } else if j == |p| {
            assert (r + notimport)[i] in p;
          } else {
            var i' := if i < |p| then i else i - 1;
            var j' := if j < |p| then j else j - 1;
            assert (r + notimport)[i] == (p + notimport)[i'];
            assert (r + notimport)[j] == (p + notimport)[j'];
          }
        }
      }
    }
  }

  // --------------------------------------------------------------- reconcile

  /** The position of the first occurrence of x. */
  function IndexOf(list: seq<ImportSpec>, x: ImportSpec): (r: Option<nat>)
    ensures r.Some? ==> r.value < |list| && list[r.value] == x && x !in list[..r.value]
    ensures r.None? ==> x !in list
  {
    if list == [] then None
    else if list[0] == x then Some(0)
    else match IndexOf(list[1..], x)
      case None => None
      case Some(i) => assert list[1..][..i] == list[1..i + 1]; Some(i + 1)
  }

  /**
   * Whether an inactive import can supply the undefined name: its alias is
   * the name, or its path literal contains the name closed by the final quote
   * and opened by a quote, `/` or `|` (the character class `["|/]`).
   */
  predicate Provides(spec: ImportSpec, name: string) {
    spec.name == name
    || Contains(spec.path, "\"" + name + "\"")
    || Contains(spec.path, "|" + name + "\"")
    || Contains(spec.path, "/" + name + "\"")
  }

  function FirstProvider(list: seq<ImportSpec>, name: string): (r: Option<nat>)
    ensures r.Some? ==> r.value < |list| && Provides(list[r.value], name)
    ensures r.Some? ==> forall k :: 0 <= k < r.value ==> !Provides(list[k], name)
    ensures r.None? ==> forall k :: 0 <= k < |list| ==> !Provides(list[k], name)
  {
    if list == [] then None
    else if Provides(list[0], name) then Some(0)
    else match FirstProvider(list[1..], name)
      case None => None
      case Some(i) => Some(i + 1)
  }

  /** The import an unused-import diagnostic names; no alias reads as NoName. */
  function UnusedImport(path: string, alias: string): ImportSpec {
    ImportSpec(path, if alias == [] then NoName else alias)
  }

  /** Move the first active import equal to spec to the end of the inactive list. */
  function Deactivate(st: State, spec: ImportSpec): State {
    match IndexOf(st.pkgs, spec)
    case None => st
    case Some(i) => st.(pkgs := st.pkgs[..i] + st.pkgs[i + 1..], pkgsNotimport := st.pkgsNotimport + [st.pkgs[i]])
  }

  /** Move the first inactive import that provides name to the end of the active list. */
  function Activate(st: State, name: string): State {
    match FirstProvider(st.pkgsNotimport, name)
    case None => st
    case Some(i) =>
      st.(pkgsNotimport := st.pkgsNotimport[..i] + st.pkgsNotimport[i + 1..], pkgs := st.pkgs + [st.pkgsNotimport[i]])
  }

  /** The first pass: every unused-import diagnostic, in order. */
  function UnusedPass(st: State, diags: seq<Diagnostic>): State {
    if diags == [] then st
    else
      var s := UnusedPass(st, diags[..|diags| - 1]);
      var d := diags[|diags| - 1];
      if d.Unused? then Deactivate(s, UnusedImport(d.path, d.alias)) else s
  }

  /** The second pass: every undefined-name diagnostic, in order. */
  function UndefinedPass(st: State, diags: seq<Diagnostic>): State {
    if diags == [] then st
    else
      var s := UndefinedPass(st, diags[..|diags| - 1]);
      var d := diags[|diags| - 1];
      if d.Undefined? then Activate(s, d.name) else s
  }

  function Reconcile(st: State, diags: seq<Diagnostic>): State {
    UndefinedPass(UnusedPass(st, diags), diags)
  }

  /** Imports only move between the two lists: the other fields stay. */
  predicate ImportsMoved(a: State, b: State) {
    && multiset(b.pkgs + b.pkgsNotimport) == multiset(a.pkgs + a.pkgsNotimport)
    && b.defs == a.defs && b.codes == a.codes && b.args == a.args
  }

  lemma DeactivateMoves(st: State, spec: ImportSpec)
    ensures ImportsMoved(st, Deactivate(st, spec))
  {
    match IndexOf(st.pkgs, spec)
    case None =>
    case Some(i) =>
      assert st.pkgs == st.pkgs[..i] + [st.pkgs[i]] + st.pkgs[i + 1..];
  }

  lemma ActivateMoves(st: State, name: string)
    ensures ImportsMoved(st, Activate(st, name))
  {
    match FirstProvider(st.pkgsNotimport, name)
    case None =>
    case Some(i) =>
      var ns := st.pkgsNotimport;
      assert ns == ns[..i] + [ns[i]] + ns[i + 1..];
  }

  lemma {:induction false} ReconcileMoves(st: State, diags: seq<Diagnostic>)
    ensures ImportsMoved(st, UnusedPass(st, diags))
    ensures ImportsMoved(st, Reconcile(st, diags))
  {
    UnusedPassMoves(st, diags);
    UndefinedPassMoves(UnusedPass(st, diags), diags);
  }

  lemma {:induction false} UnusedPassMoves(st: State, diags: seq<Diagnostic>)
    ensures ImportsMoved(st, UnusedPass(st, diags))
  {
    if diags != [] {
      var d := diags[|diags| - 1];
      UnusedPassMoves(st, diags[..|diags| - 1]);
      if d.Unused? {
        DeactivateMoves(UnusedPass(st, diags[..|diags| - 1]), UnusedImport(d.path, d.alias));
      }
    }
  }

  lemma {:induction false} UndefinedPassMoves(st: State, diags: seq<Diagnostic>)
    ensures ImportsMoved(st, UndefinedPass(st, diags))
  {
    if diags != [] {
      var d := diags[|diags| - 1];
      UndefinedPassMoves(st, diags[..|diags| - 1]);
      if d.Undefined? {
        ActivateMoves(UndefinedPass(st, diags[..|diags| - 1]), d.name);
      }
    }
  }

  /** A list is free of repeats exactly when no element occurs twice in its multiset. */
  lemma {:induction false} DistinctMultiset<T>(s: seq<T>)
    ensures Distinct(s) <==> forall x :: multiset(s)[x] <= 1
  {
    if s != [] {
      var n := |s| - 1;
      DistinctMultiset(s[..n]);
      assert s == s[..n] + [s[n]];
      if Distinct(s) {
        assert s[n] !in s[..n];
      }
      if forall x :: multiset(s)[x] <= 1 {
        assert forall x :: multiset(s[..n])[x] <= multiset(s)[x];
        forall i, j | 0 <= i < j < |s| ensures s[i] != s[j] {
          if j < n {
            assert s[..n][i] == s[i] && s[..n][j] == s[j];
          } else {
            assert s[i] in s[..n];
            assert multiset(s)[s[n]] == multiset(s[..n])[s[n]] + 1;
          }
        }
      }
    }
  }

  /** Reconciliation never duplicates an import. */
  lemma ReconcileKeepsImportsDistinct(st: State, diags: seq<Diagnostic>)
    requires ImportsDistinct(st)
    ensures ImportsDistinct(Reconcile(st, diags))
  {
    var r := Reconcile(st, diags);
    ReconcileMoves(st, diags);
    DistinctMultiset(st.pkgs + st.pkgsNotimport);
    DistinctMultiset(r.pkgs + r.pkgsNotimport);
  }

  /**
   * Convergence: when the compiler reports an active import unused (and no
   * name undefined), reconciliation takes it out of the active list and
   * leaves it inactive.
   */
  lemma UnusedImportDeactivated(st: State, diags: seq<Diagnostic>, k: nat)
    requires ImportsDistinct(st)
    requires k < |diags| && diags[k].Unused? && UnusedImport(diags[k].path, diags[k].alias) in st.pkgs
    requires forall i :: 0 <= i < |diags| ==> diags[i].Unused?
    ensures var r := Reconcile(st, diags);
      UnusedImport(diags[k].path, diags[k].alias) !in r.pkgs && UnusedImport(diags[k].path, diags[k].alias) in r.pkgsNotimport
  {
    var spec := UnusedImport(diags[k].path, diags[k].alias);
    UndefinedPassIdle(UnusedPass(st, diags), diags);
    UnusedPassDeactivates(st, diags, k);
  }

  lemma {:induction false} UndefinedPassIdle(st: State, diags: seq<Diagnostic>)
    requires forall i :: 0 <= i < |diags| ==> diags[i].Unused?
    ensures UndefinedPass(st, diags) == st
  {
    if diags != [] {
      UndefinedPassIdle(st, diags[..|diags| - 1]);
    }
  }

  lemma UnusedPassKeepsDistinct(st: State, diags: seq<Diagnostic>)
    requires ImportsDistinct(st)
    ensures ImportsDistinct(UnusedPass(st, diags))
  {
    var r := UnusedPass(st, diags);
    UnusedPassMoves(st, diags);
    DistinctMultiset(st.pkgs + st.pkgsNotimport);
    DistinctMultiset(r.pkgs + r.pkgsNotimport);
  }

  lemma MovedMember(a: State, b: State, x: ImportSpec)
    requires ImportsMoved(a, b) && (x in a.pkgs || x in a.pkgsNotimport)
    ensures x in b.pkgs || x in b.pkgsNotimport
  {
    assert x in multiset(a.pkgs + a.pkgsNotimport);
  }

  lemma DeactivateLast(s: State, spec: ImportSpec)
    requires ImportsDistinct(s) && (spec in s.pkgs || spec in s.pkgsNotimport)
    ensures spec !in Deactivate(s, spec).pkgs && spec in Deactivate(s, spec).pkgsNotimport
  {
    if spec in s.pkgs {
      var i := IndexOf(s.pkgs, spec).value;
      assert (s.pkgs + s.pkgsNotimport)[i] == spec;
      DistinctPieces(s.pkgs + s.pkgsNotimport, i);
      assert s.pkgs[i + 1..] == (s.pkgs + s.pkgsNotimport)[i + 1..|s.pkgs|];
      assert spec !in s.pkgs[i + 1..];
      assert spec !in s.pkgs[..i];
      assert spec !in s.pkgs[..i] + s.pkgs[i + 1..];
    } else {
      assert spec in s.pkgsNotimport;
      forall i | 0 <= i < |s.pkgs| ensures s.pkgs[i] != spec {
        var j :| 0 <= j < |s.pkgsNotimport| && s.pkgsNotimport[j] == spec;
        assert (s.pkgs + s.pkgsNotimport)[|s.pkgs| + j] == spec;
        assert (s.pkgs + s.pkgsNotimport)[i] == s.pkgs[i];
      }
    }
  }

  lemma {:induction false} UnusedPassDeactivates(st: State, diags: seq<Diagnostic>, k: nat)
    requires ImportsDistinct(st)
    requires k < |diags| && diags[k].Unused? && UnusedImport(diags[k].path, diags[k].alias) in st.pkgs
    ensures var r := UnusedPass(st, diags);
      UnusedImport(diags[k].path, diags[k].alias) !in r.pkgs && UnusedImport(diags[k].path, diags[k].alias) in r.pkgsNotimport
  {
    var spec := UnusedImport(diags[k].path, diags[k].alias);
    var n := |diags| - 1;
    var s := UnusedPass(st, diags[..n]);
    if k < n {
      assert diags[..n][k] == diags[k];
      UnusedPassDeactivates(st, diags[..n], k);
      if diags[n].Unused? {
        DeactivateKeepsOut(s, UnusedImport(diags[n].path, diags[n].alias), spec);
      }
    } else {
      UnusedPassMoves(st, diags[..n]);
      UnusedPassKeepsDistinct(st, diags[..n]);
      MovedMember(st, s, spec);
      DeactivateLast(s, spec);
    }
  }

  /** In a list without repeats the element at i occurs nowhere else. */
  lemma DistinctPieces<T>(s: seq<T>, i: nat)
    requires Distinct(s) && i < |s|
    ensures s[i] !in s[..i] && s[i] !in s[i + 1..]
  {
  }

  /** Once an import is inactive and not active, a later deactivation does not bring it back. */
  lemma DeactivateKeepsOut(s: State, x: ImportSpec, spec: ImportSpec)
    requires spec !in s.pkgs && spec in s.pkgsNotimport
    ensures spec !in Deactivate(s, x).pkgs && spec in Deactivate(s, x).pkgsNotimport
  {
    match IndexOf(s.pkgs, x)
    case None =>
    case Some(i) =>
      assert forall y :: y in s.pkgs[..i] + s.pkgs[i + 1..] ==> y in s.pkgs;
  }
}
