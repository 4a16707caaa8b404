/**
 * The syntax trees the REPL keeps, reduced to what it inspects, and the
 * interfaces of the collaborators it drives (the Go parser, `go build`, the
 * built program). Every tree node carries the text `go/printer` prints for it.
 */
module Syntax {
  import opened Wrappers
  import opened Text

  /** What `(*ast.Ident)(nil).String()` yields: the name of an import without an alias. */
  const NoName: string := "<nil>"

  /**
   * One import spec: the path literal as written, quotes included (`"fmt"`),
   * and the alias, or NoName when there is none. The workspace keeps each as
   * its own single-spec `import` declaration.
   */
  datatype ImportSpec = ImportSpec(path: string, name: string)

  /** A top-level declaration of a fragment: an import declaration, or anything else. */
  datatype TopDecl = ImportGroup(specs: seq<ImportSpec>) | Definition(text: string)

  /** A non-import top-level declaration kept in the workspace. */
  datatype Def = Def(text: string)

  /**
   * A statement of `main`: a short variable declaration (`:=`) with the names
   * on its left, the synthetic `_ = name` the REPL inserts after one, or any
   * other statement.
   */
  datatype Stmt = Define(names: seq<string>, text: string) | Discard(name: string) | Plain(text: string)

  function RenderImport(spec: ImportSpec): string {
    if spec.name == NoName then "import " + spec.path else "import " + spec.name + " " + spec.path
  }

  function RenderStmt(st: Stmt): string {
    match st
    case Define(_, text) => text
    case Discard(name) => "_ = " + name
    case Plain(text) => text
  }

  /**
   * What the fragment parser makes of a text: a declaration list, a statement
   * list, a `scanner.ErrorList` (the REPL reads any of these as "input not
   * complete yet"), or an error of another type.
   */
  datatype ParseOutcome =
    | Decls(decls: seq<TopDecl>)
    | Stmts(stmts: seq<Stmt>)
    | ScanErrors
    | OtherError(msg: string)

  /**
   * A diagnostic `go build` printed, as the REPL's two patterns pick it out:
   * `imported and not used: "<path>"[ as <alias>]` (alias "" when absent) and
   * `undefined: <name>`.
   */
  datatype Diagnostic = Unused(path: string, alias: string) | Undefined(name: string)

  datatype CompileResult = Built | Failed(diags: seq<Diagnostic>)

  /** The built program's exit: whether it failed, and whether it wrote to stdout or stderr. */
  datatype RunResult = RunResult(failed: bool, hasOutput: bool)

  /**
   * The collaborators: the fragment parser, `go build` of the rendered source,
   * running the result with the argument string, and reading a template file
   * (its whole text, or None when neither the name as given nor the name under
   * the template directory can be read).
   */
  datatype Oracles = Oracles(
    parse: string -> ParseOutcome,
    compile: string -> CompileResult,
    run: (string, string) -> RunResult,
    read: string -> Option<string>)

  /** The workspace as a value: the four ordered lists and the argument string. */
  datatype State = State(
    pkgs: seq<ImportSpec>,
    pkgsNotimport: seq<ImportSpec>,
    defs: seq<Def>,
    codes: seq<Stmt>,
    args: string)

  predicate Distinct<T(==)>(s: seq<T>) {
    forall i, j :: 0 <= i < j < |s| ==> s[i] != s[j]
  }

  /** No import is listed twice, nor as both active and inactive. */
  predicate ImportsDistinct(st: State) {
    Distinct(st.pkgs + st.pkgsNotimport)
  }
}
