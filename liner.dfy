/**
 * The continuation line editor of the REPL: input lines accumulate in a
 * buffer until a fragment is complete, the prompt shows the bracket depth
 * of the buffer, and an accepted buffer is folded into one history entry.
 */
module Liner {
  import opened Wrappers
  import opened Text

  const PromptContinue: string := "....."
  const IndentUnit: string := "    "

  // ----------------------------------------------------------------- scanner

  /** The bracket tokens the depth count looks at: `{` and `(` open, `}` and `)` close. */
  datatype Bracket = Open | Close

  /** The rest of the text after a `//` comment, which ends before the line break. */
  function AfterLineComment(s: string): (r: string)
    ensures |r| <= |s| && r == s[|s| - |r|..]
  {
    if s == [] || s[0] == '\n' then s else AfterLineComment(s[1..])
  }

  /** The rest of the text after the opening of a block comment, up to and including its first close; unterminated, it runs to the end. */
  function AfterBlockComment(s: string): (r: string)
    ensures |r| <= |s| && r == s[|s| - |r|..]
  {
    if s == [] then s
    else if HasPrefix(s, "*/") then s[2..]
    else AfterBlockComment(s[1..])
  }

  /**
   * The rest of the text after a quoted literal opened by q: it ends after
   * the closing q, or before a line break or at the end when unterminated;
   * a backslash escapes the next character unless that is a line break.
   */
  function AfterQuoted(s: string, q: char): (r: string)
    ensures |r| <= |s| && r == s[|s| - |r|..]
  {
    if s == [] || s[0] == '\n' then s
    else if s[0] == q then s[1..]
    else if s[0] == '\\' && |s| >= 2 && s[1] != '\n' then AfterQuoted(s[2..], q)
    else AfterQuoted(s[1..], q)
  }

  /** The rest of the text after a raw string, which ends after the next backquote. */
  function AfterRaw(s: string): (r: string)
    ensures |r| <= |s| && r == s[|s| - |r|..]
  {
    if s == [] then s
    else if s[0] == '`' then s[1..]
    else AfterRaw(s[1..])
  }

  /** The bracket tokens of Go source text: brackets inside comments and literals do not count. */
  function Brackets(s: string): seq<Bracket>
    decreases |s|
  {
    if s == [] then []
    else if s[0] == '{' || s[0] == '(' then [Open] + Brackets(s[1..])
    else if s[0] == '}' || s[0] == ')' then [Close] + Brackets(s[1..])
    else if HasPrefix(s, "//") then Brackets(AfterLineComment(s[2..]))
    else if HasPrefix(s, "/*") then Brackets(AfterBlockComment(s[2..]))
    else if s[0] == '"' || s[0] == '\'' then Brackets(AfterQuoted(s[1..], s[0]))
    else if s[0] == '`' then Brackets(AfterRaw(s[1..]))
    else Brackets(s[1..])
  }

  function Count(toks: seq<Bracket>, b: Bracket): nat {
    if toks == [] then 0 else Count(toks[..|toks| - 1], b) + (if toks[|toks| - 1] == b then 1 else 0)
  }

  /** The depth count before the final clamp: up on an opening bracket, down on a closing one. */
  function Net(toks: seq<Bracket>): int {
    if toks == [] then 0 else Net(toks[..|toks| - 1]) + (if toks[|toks| - 1] == Open then 1 else -1)
  }

  lemma {:induction false} NetCounts(toks: seq<Bracket>)
    ensures Net(toks) == Count(toks, Open) - Count(toks, Close)
  {
    if toks != [] {
      NetCounts(toks[..|toks| - 1]);
    }
  }

  /** countDepth as a value: the net count, clamped at zero once at the end. */
  function Depth(s: string): (d: nat)
    ensures d == 0 || d == Net(Brackets(s))
    ensures d >= Net(Brackets(s))
  {
    var n := Net(Brackets(s));
    if n < 0 then 0 else n
  }

  /** The depth is the surplus of opening over closing brackets, or zero when there is none. */
  lemma DepthCounts(s: string)
    ensures var opens, closes := Count(Brackets(s), Open), Count(Brackets(s), Close);
      Depth(s) == if opens >= closes then opens - closes else 0
  {
    NetCounts(Brackets(s));
  }

  /** A closing bracket that comes first is not lost: the clamp is not applied token by token. */
  lemma ClampAtEnd()
    ensures Depth(")(") == 0 && Depth(")((") == 1
  {
    assert Brackets(")(") == [Close] + Brackets("(");
    assert Brackets("(") == [Open] + Brackets("");
    assert Brackets(")((") == [Close] + Brackets("((");
    assert Brackets("((") == [Open] + Brackets("(");
    assert Brackets(")(") == [Close, Open];
    assert Brackets(")((") == [Close, Open, Open];
    assert [Close, Open][..1] == [Close] && [Close, Open, Open][..2] == [Close, Open] && [Close][..0] == [];
    assert Net([Close]) == -1;
    assert Net([Close, Open]) == 0;
    assert Net([Close, Open, Open]) == 1;
  }

  /** A `//` comment hides its brackets up to the end of its line. */
  lemma LineCommentIgnored(comment: string, rest: string)
    requires '\n' !in comment
    ensures Brackets("//" + comment + "\n" + rest) == Brackets(rest)
  {
    var tail := "\n" + rest;
    var s := "//" + (comment + tail);
    assert s == "//" + comment + "\n" + rest;
    assert s[2..] == comment + tail;
    CommentOpens(s);
    CommentSkip(comment, tail);
    BreakIgnored(rest);
  }

  lemma CommentOpens(s: string)
    requires HasPrefix(s, "//")
    ensures Brackets(s) == Brackets(AfterLineComment(s[2..]))
  {
    assert s[0] == '/';
  }

  lemma BreakIgnored(rest: string)
    ensures Brackets("\n" + rest) == Brackets(rest)
  {
    var s := "\n" + rest;
    assert s[0] == '\n' && !HasPrefix(s, "//") && !HasPrefix(s, "/*");
    assert s[1..] == rest;
  }

  lemma {:induction false} CommentSkip(comment: string, rest: string)
    requires '\n' !in comment && rest != [] && rest[0] == '\n'
    ensures AfterLineComment(comment + rest) == rest
  {
    if comment != [] {
      assert (comment + rest)[1..] == comment[1..] + rest;
      CommentSkip(comment[1..], rest);
    } else {
      assert comment + rest == rest;
    }
  }

  /** The brackets of a string literal without escapes do not count. */
  lemma StringIgnored(text: string, rest: string)
    requires '"' !in text && '\\' !in text && '\n' !in text
    ensures Brackets("\"" + text + "\"" + rest) == Brackets(rest)
  {
    var s, inner := "\"" + text + "\"" + rest, "\"" + rest;
    assert s[1..] == text + inner;
    calc {
      Brackets(s);
    == { QuoteOpens(s); }
      Brackets(AfterQuoted(text + inner, '"'));
    == { QuotedSkip(text, inner); }
      Brackets(inner[1..]);
    == { assert inner[1..] == rest; }
      Brackets(rest);
    }
  }

  lemma QuoteOpens(s: string)
    requires s != [] && s[0] == '"'
    ensures Brackets(s) == Brackets(AfterQuoted(s[1..], '"'))
  {
    assert !HasPrefix(s, "//") && !HasPrefix(s, "/*");
  }

  lemma {:induction false} QuotedSkip(text: string, rest: string)
    requires '"' !in text && '\\' !in text && '\n' !in text && rest != [] && rest[0] == '"'
    ensures AfterQuoted(text + rest, '"') == rest[1..]
  {
    if text != [] {
      assert (text + rest)[1..] == text[1..] + rest;
      QuotedSkip(text[1..], rest);
    } else {
      assert text + rest == rest;
    }
  }

  // ------------------------------------------------------------ history entry

  /** Runs of line breaks collapsed to one (the `\n+` replacement). */
  function Collapse(s: string): string {
    if s == [] then []
    else if |s| >= 2 && s[0] == '\n' && s[1] == '\n' then Collapse(s[1..])
    else [s[0]] + Collapse(s[1..])
  }

  predicate NoDoubleBreak(s: string) {
    forall i :: 0 <= i < |s| - 1 ==> !(s[i] == '\n' && s[i + 1] == '\n')
  }

  /** After collapsing no two line breaks are adjacent, and nothing else was removed. */
  lemma {:induction false} CollapseSpec(s: string)
    ensures NoDoubleBreak(Collapse(s))
    ensures Collapse(s) == [] <==> s == []
    ensures s != [] ==> Collapse(s)[0] == s[0]
    ensures NonBreaks(Collapse(s)) == NonBreaks(s)
  {
    if s != [] {
      CollapseSpec(s[1..]);
      if |s| >= 2 && s[0] == '\n' && s[1] == '\n' {
        assert NonBreaks(s) == NonBreaks(s[1..]);
      } else {
        var r := [s[0]] + Collapse(s[1..]);
        assert r[1..] == Collapse(s[1..]);
        forall i | 0 <= i < |r| - 1 ensures !(r[i] == '\n' && r[i + 1] == '\n') {
          if i > 0 {
            assert r[i] == Collapse(s[1..])[i - 1] && r[i + 1] == Collapse(s[1..])[i];
          }
        }
      }
    }
  }

  /** The characters other than line breaks, in order. */
  function NonBreaks(s: string): string {
    if s == [] then [] else (if s[0] == '\n' then [] else [s[0]]) + NonBreaks(s[1..])
  }

  /** Text without adjacent line breaks is left alone; so collapsing is idempotent. */
  lemma {:induction false} CollapseIdentity(s: string)
    requires NoDoubleBreak(s)
    ensures Collapse(s) == s
  {
    if s != [] {
      assert NoDoubleBreak(s[1..]) by {
        forall i | 0 <= i < |s[1..]| - 1 ensures !(s[1..][i] == '\n' && s[1..][i + 1] == '\n') {
          assert s[1..][i] == s[i + 1] && s[1..][i + 1] == s[i + 2];
        }
      }
      CollapseIdentity(s[1..]);
      assert [s[0]] + s[1..] == s;
    }
  }

  /** A run of two line breaks collapses like a single one; with CollapseIdentity this fixes Collapse on every text. */
  lemma {:induction false} CollapseRun(a: string, b: string)
    ensures Collapse(a + "\n\n" + b) == Collapse(a + "\n" + b)
  {
    var s, t := a + "\n\n" + b, a + "\n" + b;
    if a == [] {
      assert s[1..] == t;
    } else {
      CollapseRun(a[1..], b);
      assert s[0] == t[0] == a[0];
      assert s[1..] == a[1..] + "\n\n" + b && t[1..] == a[1..] + "\n" + b;
      assert s[1] == t[1];
    }
  }

  /** Blank lines vanish: a line, any number of line breaks, and another line collapse to the two lines around one break. */
  lemma {:induction false} CollapseBlankLines(a: string, n: nat, b: string)
    requires n >= 1
    ensures Collapse(a + Repeat("\n", n) + b) == Collapse(a + "\n" + b)
  {
    if n > 1 {
      assert Repeat("\n", n) == "\n" + Repeat("\n", n - 1);
      assert Repeat("\n", n - 1) == "\n" + Repeat("\n", n - 2);
      assert a + Repeat("\n", n) + b == a + "\n\n" + (Repeat("\n", n - 2) + b);
      assert a + Repeat("\n", n - 1) + b == a + "\n" + (Repeat("\n", n - 2) + b);
      CollapseRun(a, Repeat("\n", n - 2) + b);
      CollapseBlankLines(a, n - 1, b);
    } else {
      assert Repeat("\n", 1) == "\n";
    }
  }

  lemma CollapseIdempotent(s: string)
    ensures Collapse(Collapse(s)) == Collapse(s)
  {
    CollapseSpec(s);
    CollapseIdentity(Collapse(s));
  }

  /** Remove the first occurrence of c, if any. */
  function DropFirst(s: string, c: char): string {
    match FindChar(s, c)
    case None => s
    case Some(p) => s[..p] + s[p + 1..]
  }

  /** Remove the last occurrence of c, if any. */
  function DropLast(s: string, c: char): string {
    match FindLast(s, c)
    case None => s
    case Some(p) => s[..p] + s[p + 1..]
  }

  /** Every line break written as `;`. */
  function Semicolons(s: string): (r: string)
    ensures |r| == |s|
    ensures forall i :: 0 <= i < |s| ==> r[i] == if s[i] == '\n' then ';' else s[i]
  {
    if s == [] then [] else Semicolons(s[..|s| - 1]) + [if s[|s| - 1] == '\n' then ';' else s[|s| - 1]]
  }

  /** Accepted: the history entry recorded for a buffer, always a single line. */
  function HistoryEntry(buffer: string): (r: string)
    ensures '\n' !in r
  {
    Semicolons(DropLast(DropFirst(Collapse(buffer), '\n'), '\n'))
  }

  lemma JoinLinesShape(lines: seq<string>)
    requires |lines| >= 1
    requires forall i :: 0 <= i < |lines| ==> lines[i] != [] && '\n' !in lines[i]
    ensures var j := Join(lines, "\n");
      NoDoubleBreak(j) && j != [] && j[0] != '\n' && j[|j| - 1] != '\n'
  {
    if |lines| > 1 {
      JoinLinesShape(lines[1..]);
      var rest := Join(lines[1..], "\n");
      var j := lines[0] + "\n" + rest;
      assert j == Join(lines, "\n");
      forall i | 0 <= i < |j| - 1 ensures !(j[i] == '\n' && j[i + 1] == '\n') {
        if i < |lines[0]| {
          assert j[i] == lines[0][i];
        } else if i == |lines[0]| {
          assert j[i + 1] == rest[0];
        } else {
          assert j[i] == rest[i - |lines[0]| - 1] && j[i + 1] == rest[i - |lines[0]|];
        }
      }
    }
  }

  lemma SemicolonsAppend(a: string, b: string)
    ensures Semicolons(a + b) == Semicolons(a) + Semicolons(b)
  {
  }

  lemma {:induction false} SemicolonsJoin(lines: seq<string>)
    requires OneLine(lines)
    ensures Semicolons(Join(lines, "\n")) == Join(lines, ";")
  {
    if |lines| == 1 {
      assert Semicolons(lines[0]) == lines[0];
    } else if |lines| > 1 {
      SemicolonsJoin(lines[1..]);
      SemicolonsAppend(lines[0] + "\n", Join(lines[1..], "\n"));
      SemicolonsAppend(lines[0], "\n");
      assert Semicolons(lines[0]) == lines[0];
      assert Semicolons("\n") == ";";
    }
  }

  lemma {:induction false} JoinSnoc(lines: seq<string>, sep: string)
    requires |lines| >= 2
    ensures Join(lines, sep) == Join(lines[..|lines| - 1], sep) + sep + lines[|lines| - 1]
  {
    if |lines| > 2 {
      JoinSnoc(lines[1..], sep);
      assert lines[1..][..|lines[1..]| - 1] == lines[..|lines| - 1][1..];
    } else {
      assert lines[..1] == [lines[0]];
    }
  }

  /**
   * For a buffer of two or more non-empty lines, the entry glues the first
   * line to the second and the last line to the one before it, and joins
   * the lines in between with `;`.
   */
  lemma HistoryEntryOfLines(lines: seq<string>)
    requires |lines| >= 2
    requires forall i :: 0 <= i < |lines| ==> lines[i] != [] && '\n' !in lines[i]
    ensures HistoryEntry(Join(lines, "\n")) == lines[0] + Join(lines[1..|lines| - 1], ";") + lines[|lines| - 1]
  {
    var j := Join(lines, "\n");
    var rest := lines[1..];
    var once := DropFirst(Collapse(j), '\n');
    assert once == lines[0] + Join(rest, "\n") by {
      CollapseJoin(lines);
      FirstBreakDropped(lines);
    }
    var entry := Semicolons(DropLast(once, '\n'));
    assert entry == lines[0] + Join(rest[..|rest| - 1], ";") + rest[|rest| - 1] by {
      OneLineTail(lines);
      LastBreakDropped(lines[0], rest);
    }
    assert rest[..|rest| - 1] == lines[1..|lines| - 1] && rest[|rest| - 1] == lines[|lines| - 1] by {
      Middle(lines);
    }
    assert HistoryEntry(j) == entry;
  }

  lemma OneLineTail(lines: seq<string>)
    requires |lines| >= 1
    requires forall i :: 0 <= i < |lines| ==> lines[i] != [] && '\n' !in lines[i]
    ensures OneLine(lines[1..])
  {
    var rest := lines[1..];
    forall i | 0 <= i < |rest| ensures '\n' !in rest[i] {
      assert rest[i] == lines[i + 1];
    }
  }

  lemma Middle<T>(s: seq<T>)
    requires |s| >= 2
    ensures s[1..][..|s| - 2] == s[1..|s| - 1] && s[1..][|s| - 2] == s[|s| - 1]
  {
  }

  /** Lines without line breaks, none of them empty, join into text that collapsing leaves alone. */
  lemma CollapseJoin(lines: seq<string>)
    requires |lines| >= 1
    requires forall i :: 0 <= i < |lines| ==> lines[i] != [] && '\n' !in lines[i]
    ensures Collapse(Join(lines, "\n")) == Join(lines, "\n")
  {
    JoinLinesShape(lines);
    CollapseIdentity(Join(lines, "\n"));
  }

  predicate OneLine(lines: seq<string>) {
    forall i :: 0 <= i < |lines| ==> '\n' !in lines[i]
  }

  lemma SemicolonsPlain(s: string)
    requires '\n' !in s
    ensures Semicolons(s) == s
  {
  }

  lemma LastBreakDropped(first: string, rest: seq<string>)
    requires |rest| >= 1 && '\n' !in first && OneLine(rest)
    ensures Semicolons(DropLast(first + Join(rest, "\n"), '\n')) == first + Join(rest[..|rest| - 1], ";") + rest[|rest| - 1]
  {
    var last := rest[|rest| - 1];
    var init := rest[..|rest| - 1];
    assert '\n' !in last;
    if |rest| == 1 {
      TwoLines(first, last);
    } else {
      JoinSnoc(rest, "\n");
      var m := Join(init, "\n");
      Regroup(first, m + "\n", last);
      Regroup(first, m, "\n");
      LastBreakAt(first + m, last);
      assert OneLine(init) by {
        forall i | 0 <= i < |init| ensures '\n' !in init[i] {
          assert init[i] == rest[i];
        }
      }
      SemicolonsJoin(init);
      SemicolonsAppend(first + m, last);
      SemicolonsAppend(first, m);
      SemicolonsPlain(first);
      SemicolonsPlain(last);
    }
  }

  lemma FirstBreakDropped(lines: seq<string>)
    requires |lines| >= 2 && '\n' !in lines[0]
    ensures DropFirst(Join(lines, "\n"), '\n') == lines[0] + Join(lines[1..], "\n")
  {
    var rest := Join(lines[1..], "\n");
    var j := lines[0] + "\n" + rest;
    assert j == Join(lines, "\n");
    assert j[|lines[0]|] == '\n' && j[..|lines[0]|] == lines[0];
    assert FindChar(j, '\n') == Some(|lines[0]|);
    assert j[|lines[0]| + 1..] == rest;
  }

  lemma TwoLines(a: string, b: string)
    requires '\n' !in a && '\n' !in b
    ensures Semicolons(DropLast(a + b, '\n')) == a + Join([], ";") + b
  {
    assert '\n' !in a + b;
    assert Semicolons(a + b) == a + b;
  }

  lemma LastBreakAt(front: string, last: string)
    requires '\n' !in last
    ensures DropLast(front + "\n" + last, '\n') == front + last
  {
    var s := front + "\n" + last;
    assert s[|front| + 1..] == last;
    FindLastAt(s, '\n', |front|);
    assert s[..|front|] == front;
  }

  // ------------------------------------------------------------------ editor

  /** What the terminal answered to one prompt. */
  datatype TermInput = Line(text: string) | EndOfFile | Aborted | Failure(msg: string)

  datatype PromptError = Eof | Failed(msg: string)

  class ContLiner {
    var buffer: string
    var depth: nat

    constructor ()
      ensures buffer == [] && depth == 0
    {
      buffer := [];
      depth := 0;
    }

    /** promptString: the continuation prompt, indented by depth, while a fragment is pending. */
    function PromptString(p: string): (r: string)
      reads this
      ensures buffer == [] ==> r == p
      ensures buffer != [] ==> |r| == |PromptContinue| + |IndentUnit| * depth && r[..|PromptContinue|] == PromptContinue
      ensures buffer != [] ==> forall i :: |PromptContinue| <= i < |r| ==> r[i] == ' '
    {
      if buffer != [] then PromptContinue + Repeat(IndentUnit, depth) else p
    }

    /**
     * Prompt: show the prompt, take the terminal's answer, and return the
     * whole pending buffer. An abort folds a pending buffer into history
     * and is not an error; end of input is.
     */
    method Prompt(p: string, input: TermInput) returns (shown: string, text: string, err: Option<PromptError>, entry: Option<string>)
      modifies this
      ensures shown == old(PromptString(p))
      ensures depth == old(depth)
      ensures input.Line? ==> buffer == (if old(buffer) != [] then old(buffer) + "\n" + input.text else input.text)
      ensures input.Aborted? ==> buffer == [] && entry == (if old(buffer) != [] then Some(HistoryEntry(old(buffer))) else None)
      ensures input.EndOfFile? || input.Failure? ==> buffer == old(buffer)
      ensures !input.Aborted? ==> entry == None
      ensures err == match input
        case EndOfFile => Some(Eof)
        case Failure(msg) => Some(Failed(msg))
        case _ => None
      ensures text == buffer
    {
      shown := PromptString(p);
      entry := None;
      err := None;
      match input {
        case EndOfFile =>
          err := Some(Eof);
        case Aborted =>
          if buffer != [] {
            var e := Accepted();
            entry := Some(e);
          }
        case Failure(msg) =>
          err := Some(Failed(msg));
        case Line(line) =>
          if buffer != [] {
            buffer := buffer + "\n" + line;
          } else {
            buffer := line;
          }
      }
      text := buffer;
    }

    /** Accepted: fold the buffer into one history entry and clear it. */
    method Accepted() returns (entry: string)
      modifies this
      ensures entry == HistoryEntry(old(buffer)) && '\n' !in entry
      ensures buffer == [] && depth == old(depth)
    {
      var text := Collapse(buffer);
      ghost var collapsed := text;
      var p := FindChar(text, '\n');
      if p.Some? {
        text := text[..p.value] + text[p.value + 1..];
      }
      assert text == DropFirst(collapsed, '\n');
      ghost var once := text;
      var q := FindLast(text, '\n');
      if q.Some? {
        text := text[..q.value] + text[q.value + 1..];
      }
      assert text == DropLast(once, '\n');
      entry := Semicolons(text);
      buffer := [];
    }

    /** countDepth: scan the buffer, count brackets up and down, clamp at zero at the end. */
    method CountDepth() returns (d: nat)
      ensures d == Depth(buffer)
    {
      var depth := 0;
      var toks := Brackets(buffer);
      for i := 0 to |toks|
        invariant depth == Net(toks[..i])
      {
        assert toks[..i + 1][..i] == toks[..i];
        match toks[i] {
          case Open => depth := depth + 1;
          case Close => depth := depth - 1;
        }
      }
      assert toks[..|toks|] == toks;
      if depth < 0 {
        depth := 0;
      }
      return depth;
    }

    /**
     * Reindent: recompute the depth; when it dropped and the buffer has more
     * than one line, the last line is drawn again behind the new prompt.
     */
    method Reindent() returns (redraw: Option<string>)
      modifies this
      ensures buffer == old(buffer) && depth == Depth(buffer)
      ensures var lines := Split(buffer, '\n');
        redraw == if depth < old(depth) && |lines| > 1 then Some(PromptString("") + lines[|lines| - 1]) else None
    {
      var oldDepth := depth;
      var d := CountDepth();
      depth := d;
      redraw := None;
      if d < oldDepth {
        var lines := Split(buffer, '\n');
        if |lines| > 1 {
          var lastLine := lines[|lines| - 1];
          var prompt := PromptString("");
          redraw := Some(prompt + lastLine);
        }
      }
    }
  }
}
