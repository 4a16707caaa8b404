/**
 * The source assembler (Workspace.source): the text of the whole program,
 * rebuilt from the workspace's lists on every call, with three presentation
 * switches: `p`/`d`/`c` item labels, line numbers, and the inactive imports.
 */
module Assemble {
  import opened Text
  import opened Syntax

  const NotUsedMarker: string := " // imported and not used"

  /** The tab that starts the unlabelled lines of the labelled view. */
  function Lead(dpc: bool): string {
    if dpc then "\t" else ""
  }

  /** The item label, `p3:` followed by a tab, in the labelled view only. */
  function Label(kind: char, k: int, dpc: bool): string {
    if dpc then [kind] + Itoa(k) + ":\t" else ""
  }

  /** The printed text with every line break followed by `sep`'s indentation. */
  function Indent(text: string, sep: string): string {
    Join(Split(text, '\n'), sep)
  }

  /** The rows printed for a list, the item at position i as row(item, first + i). */
  function Rows<T>(items: seq<T>, first: int, row: (T, int) -> string): string {
    if items == [] then []
    else Rows(items[..|items| - 1], first, row) + row(items[|items| - 1], first + |items| - 1)
  }

  function ImportLine(spec: ImportSpec, k: int, dpc: bool, suffix: string): string {
    Label('p', k, dpc) + RenderImport(spec) + suffix + "\n"
  }

  /** One line per import, labels counting up from base. */
  function ImportLines(imports: seq<ImportSpec>, base: nat, dpc: bool, suffix: string): string {
    Rows(imports, base, (spec, k) => ImportLine(spec, k, dpc, suffix))
  }

  function DefBlock(d: Def, pos: int, dpc: bool): string {
    (if dpc then Label('d', pos, true) + Indent(d.text, "\n\t") else d.text) + "\n\n"
  }

  function DefBlocks(defs: seq<Def>, dpc: bool): string {
    Rows(defs, 0, (d, pos) => DefBlock(d, pos, dpc))
  }

  function CodeBlock(c: Stmt, pos: int, dpc: bool): string {
    (if dpc then Label('c', pos, true) + "\t" + Indent(RenderStmt(c), "\n\t\t")
     else "\t" + Indent(RenderStmt(c), "\n\t")) + "\n"
  }

  function CodeBlocks(codes: seq<Stmt>, dpc: bool): string {
    Rows(codes, 0, (c, pos) => CodeBlock(c, pos, dpc))
  }

  /**
   * The program in its fixed order: package clause, active imports, inactive
   * imports when asked for (numbered on from the active ones), a blank line,
   * the declarations, and `main` holding the statements.
   */
  function Program(st: State, dpc: bool, notimport: bool): string {
    Lead(dpc) + "package main\n\n"
    + ImportLines(st.pkgs, 0, dpc, [])
    + (if notimport then ImportLines(st.pkgsNotimport, |st.pkgs|, dpc, NotUsedMarker) else [])
    + "\n"
    + DefBlocks(st.defs, dpc)
    + Lead(dpc) + "func main() {\n"
    + CodeBlocks(st.codes, dpc)
    + Lead(dpc) + "}\n"
  }

  function NumberedLine(line: string, k: int): string {
    Itoa(k) + "\t" + line + "\n"
  }

  /** Each line prefixed with its number, counting from first, and a tab. */
  function NumberLines(lines: seq<string>, first: int): string {
    Rows(lines, first, NumberedLine)
  }

  /** Workspace.source */
  function SourceText(st: State, dpc: bool, linenums: bool, notimport: bool): string {
    var program := Program(st, dpc, notimport);
    if linenums then NumberLines(Split(program, '\n'), 1) else program
  }

  /** The rows of two consecutive lists: the second list's numbering continues the first's. */
  lemma {:induction false} RowsAppend<T>(a: seq<T>, b: seq<T>, first: int, row: (T, int) -> string)
    ensures Rows(a + b, first, row) == Rows(a, first, row) + Rows(b, first + |a|, row)
  {
    if b == [] {
      assert a + b == a;
    } else {
      var n := |b| - 1;
      var ab := a + b;
      var m := |ab| - 1;
      var x, y, z := Rows(a, first, row), Rows(b[..n], first + |a|, row), row(b[n], first + |a| + n);
      assert Rows(ab[..m], first, row) == x + y by {
        assert ab[..m] == a + b[..n];
        RowsAppend(a, b[..n], first, row);
      }
      assert Rows(ab, first, row) == (x + y) + z by {
        assert ab[m] == b[n] && first + m == first + |a| + n;
      }
      assert Rows(b, first + |a|, row) == y + z;
      assert (x + y) + z == x + (y + z);
    }
  }

  /** The first row, then the rest numbered from the next number. */
  lemma RowsCons<T>(items: seq<T>, first: int, row: (T, int) -> string)
    requires items != []
    ensures Rows(items, first, row) == row(items[0], first) + Rows(items[1..], first + 1, row)
  {
    RowsAppend([items[0]], items[1..], first, row);
    assert [items[0]] + items[1..] == items;
    assert [items[0]][..0] == [];
  }

  lemma ItoaNoNewline(k: int)
    ensures '\n' !in Itoa(k)
  {
    var digits := NatToString(if k < 0 then -k else k);
    assert forall i :: 0 <= i < |digits| ==> IsDigit(digits[i]);
    if k < 0 {
      assert Itoa(k) == "-" + digits;
    }
  }

  /** The lines of a numbered text: line k is its number (counting from first), a tab and the original line k; a last empty line follows. */
  predicate NumberedAs(out: seq<string>, lines: seq<string>, first: int) {
    && |out| == |lines| + 1 && out[|lines|] == []
    && forall k :: 0 <= k < |lines| ==> out[k] == Itoa(first + k) + "\t" + lines[k]
  }

  lemma {:induction false} NumberedLines(lines: seq<string>, first: int)
    requires forall i :: 0 <= i < |lines| ==> '\n' !in lines[i]
    ensures NumberedAs(Split(NumberLines(lines, first), '\n'), lines, first)
  {
    if lines != [] {
      var head := Itoa(first) + "\t" + lines[0];
      var tail := NumberLines(lines[1..], first + 1);
      assert '\n' !in head by {
        ItoaNoNewline(first);
      }
      assert NumberLines(lines, first) == head + "\n" + tail by {
        RowsCons(lines, first, NumberedLine);
      }
      NumberedLines(lines[1..], first + 1);
      assert Split(NumberLines(lines, first), '\n') == [head] + Split(tail, '\n') by {
        SplitConcat(head, tail, '\n');
      }
      NumberedCons(Split(tail, '\n'), lines, first);
    }
  }

  lemma NumberedCons(rest: seq<string>, lines: seq<string>, first: int)
    requires lines != [] && NumberedAs(rest, lines[1..], first + 1)
    ensures NumberedAs([Itoa(first) + "\t" + lines[0]] + rest, lines, first)
  {
    var out := [Itoa(first) + "\t" + lines[0]] + rest;
    forall k | 0 <= k < |lines| ensures out[k] == Itoa(first + k) + "\t" + lines[k] {
      if k > 0 {
        assert out[k] == rest[k - 1] && lines[1..][k - 1] == lines[k];
      }
    }
  }

  /**
   * With line numbers on, the k-th line of the output is k (counting from 1),
   * a tab and the k-th line of the plain text, and the text still ends with a
   * line break.
   */
  lemma SourceLineNumbers(st: State, dpc: bool, notimport: bool)
    ensures var plain := Split(SourceText(st, dpc, false, notimport), '\n');
      var numbered := Split(SourceText(st, dpc, true, notimport), '\n');
      && |numbered| == |plain| + 1 && numbered[|plain|] == []
      && forall k :: 0 <= k < |plain| ==> numbered[k] == Itoa(k + 1) + "\t" + plain[k]
  {
    NumberedLines(Split(Program(st, dpc, notimport), '\n'), 1);
  }

  /**
   * The import at position k of a list is printed on its own line labelled
   * p(base+k), between the lines of the imports before and after it. The
   * inactive imports are printed with base |pkgs|, so labels run on through
   * both lists in the order removal by index counts them.
   */
  lemma ImportLineAt(imports: seq<ImportSpec>, base: nat, dpc: bool, suffix: string, k: nat)
    requires k < |imports|
    ensures ImportLines(imports, base, dpc, suffix)
      == ImportLines(imports[..k], base, dpc, suffix)
       + ImportLine(imports[k], base + k, dpc, suffix)
       + ImportLines(imports[k + 1..], base + k + 1, dpc, suffix)
  {
    RowsAt(imports, base, (spec, k) => ImportLine(spec, k, dpc, suffix), k);
  }

  /** Any list's rows split around the row of its item at k. */
  lemma RowsAt<T>(items: seq<T>, first: int, row: (T, int) -> string, k: nat)
    requires k < |items|
    ensures Rows(items, first, row) == Rows(items[..k], first, row) + row(items[k], first + k) + Rows(items[k + 1..], first + k + 1, row)
  {
    var rest := items[k..];
    assert items == items[..k] + rest;
    assert rest[0] == items[k] && rest[1..] == items[k + 1..];
    RowsAppend(items[..k], rest, first, row);
    RowsCons(rest, first + k, row);
  }

  lemma {:induction false} IndentedLines(lines: seq<string>, tab: string)
    requires |lines| >= 1
    requires '\n' !in tab
    requires forall i :: 0 <= i < |lines| ==> '\n' !in lines[i]
    ensures var out := Split(tab + Join(lines, "\n" + tab), '\n');
      |out| == |lines| && forall k :: 0 <= k < |lines| ==> out[k] == tab + lines[k]
  {
    if |lines| > 1 {
      IndentedLines(lines[1..], tab);
      assert tab + Join(lines, "\n" + tab) == (tab + lines[0]) + "\n" + (tab + Join(lines[1..], "\n" + tab));
      SplitConcat(tab + lines[0], tab + Join(lines[1..], "\n" + tab), '\n');
    } else {
      SplitNoSeparator(tab + lines[0], '\n');
    }
  }

  /**
   * In the compiled text every line a statement prints to is indented by a
   * tab inside `main`, and its block ends the line.
   */
  lemma StatementIndented(c: Stmt, pos: nat)
    ensures var out := Split(CodeBlock(c, pos, false), '\n');
      var lines := Split(RenderStmt(c), '\n');
      && |out| == |lines| + 1 && out[|lines|] == []
      && forall k :: 0 <= k < |lines| ==> out[k] == "\t" + lines[k]
  {
    var lines := Split(RenderStmt(c), '\n');
    var body := "\t" + Join(lines, "\n\t");
    IndentedLines(lines, "\t");
    assert "\n" + "\t" == "\n\t";
    assert CodeBlock(c, pos, false) == body + "\n";
    JoinSplit(body, '\n');
    var parts := Split(body, '\n');
    assert |parts| == |lines|;
    assert body == Join(parts, ['\n']);
    JoinSnocEmpty(parts, '\n');
    assert Join(parts + [[]], ['\n']) == body + "\n";
    SplitJoin(parts + [[]], '\n');
    assert Split(body + "\n", '\n') == parts + [[]];
  }

  lemma JoinSnocEmpty(parts: seq<string>, sep: char)
    requires |parts| >= 1
    ensures Join(parts + [[]], [sep]) == Join(parts, [sep]) + [sep]
  {
    if |parts| > 1 {
      JoinSnocEmpty(parts[1..], sep);
      assert (parts + [[]])[1..] == parts[1..] + [[]];
    }
  }
}
