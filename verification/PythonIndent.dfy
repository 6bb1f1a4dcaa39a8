/**
 Tab-aware column arithmetic for the Python editor: visual columns, the running
 column of a statement, and indentation text of a given width.
 */
module PythonIndent {
  import opened Sequences
  import opened PythonLexer

  // ---------- Columns ----------

  /** The column after one more byte; continuation bytes of UTF-8 take none. */
  function Advance(column: nat, c: char, tabSize: nat): nat
    requires 0 < tabSize
  {
    if c == '\t' then column + tabSize - column % tabSize
    else if 0x80 <= c as int < 0xc0 then column
    else column + 1
  }

  /** A tab leads to the next tab stop, a character one column on. */
  lemma TabStops(column: nat, tabSize: nat)
    requires 0 < tabSize
    ensures Advance(column, '\t', tabSize) % tabSize == 0
    ensures column < Advance(column, '\t', tabSize) <= column + tabSize
    ensures forall c: char :: c != '\t' && (c as int < 0x80 || c as int >= 0xc0) ==>
              Advance(column, c, tabSize) == column + 1
  {
    var stop := column + tabSize - column % tabSize;
    assert stop == (column / tabSize + 1) * tabSize by {
      assert (column / tabSize + 1) * tabSize == column / tabSize * tabSize + tabSize;
    }
    MultipleModulo(column / tabSize + 1, tabSize);
  }

  lemma MultiplesApart(k: int, n: int)
    requires 0 < n
    ensures k > 0 ==> k * n >= n
    ensures k < 0 ==> k * n <= -n
  {
  }

  lemma MultipleModulo(k: nat, n: nat)
    requires 0 < n
    ensures (k * n) % n == 0
  {
    var quotient, rest := k * n / n, k * n % n;
    assert (k - quotient) * n == k * n - quotient * n == rest;
    MultiplesApart(k - quotient, n);
  }

  function Columns(text: string, tabSize: nat, column: nat): nat
    requires 0 < tabSize
  {
    if text == "" then column
    else Advance(Columns(text[..|text| - 1], tabSize, column), text[|text| - 1], tabSize)
  }

  method MeasureColumns(text: string, tabSize: nat, start: nat) returns (column: nat)
    requires 0 < tabSize
    ensures column == Columns(text, tabSize, start)
  {
    column := start;
    for i := 0 to |text|
      invariant column == Columns(text[..i], tabSize, start)
    {
      column := Advance(column, text[i], tabSize);
      assert text[..i + 1][..i] == text[..i];
    }
    assert text[..|text|] == text;
  }

  /** Columns is a left fold: measuring in two pieces is measuring at once. */
  lemma {:induction false} ColumnsJoin(a: string, b: string, tabSize: nat, column: nat)
    requires 0 < tabSize
    ensures Columns(a + b, tabSize, column) == Columns(b, tabSize, Columns(a, tabSize, column))
  {
    if b == "" {
      assert a + b == a;
    } else {
      assert (a + b)[..|a + b| - 1] == a + b[..|b| - 1];
      ColumnsJoin(a, b[..|b| - 1], tabSize, column);
    }
  }

  /** Every byte moves the column forward or leaves it. */
  lemma {:induction false} ColumnsGrow(text: string, tabSize: nat, column: nat, k: nat)
    requires 0 < tabSize && k <= |text|
    ensures Columns(text[..k], tabSize, column) <= Columns(text, tabSize, column)
    decreases |text|
  {
    if k < |text| {
      assert text[..|text| - 1][..k] == text[..k];
      ColumnsGrow(text[..|text| - 1], tabSize, column, k);
    } else {
      assert text[..k] == text;
    }
  }

  // ---------- The running column of a statement ----------

  class Statement {
    const tabSize: nat
    var column: nat
    var columnByte: nat

    ghost predicate Valid(text: string)
      reads this
    {
      0 < tabSize && columnByte <= |text| && column == Columns(text[..columnByte], tabSize, 0)
    }

    constructor (tabSize: nat)
      requires 0 < tabSize
      ensures this.tabSize == tabSize && Valid("")
    {
      this.tabSize := tabSize;
      column, columnByte := 0, 0;
    }

    method BeginLine(text: string)
      requires 0 < tabSize
      modifies this
      ensures Valid(text) && columnByte == 0
    {
      column, columnByte := 0, 0;
    }

    /** Move on to an outer token; comments and tokens inside replacement fields are ignored. */
    method Consume(text: string, token: Token)
      requires Valid(text) && columnByte <= token.begin <= |text|
      modifies this
      ensures Valid(text)
      ensures token.outer && token.kind != Comment ==>
                columnByte == token.begin && column == Columns(text[..token.begin], tabSize, 0)
      ensures !token.outer || token.kind == Comment ==> column == old(column) && columnByte == old(columnByte)
    {
      if !token.outer || token.kind == Comment {
        return;
      }
      ColumnsJoin(text[..columnByte], text[columnByte..token.begin], tabSize, 0);
      assert text[..columnByte] + text[columnByte..token.begin] == text[..token.begin];
      column := MeasureColumns(text[columnByte..token.begin], tabSize, column);
      columnByte := token.begin;
    }
  }

  predicate Counts(token: Token) {
    token.outer && token.kind != Comment
  }

  /**
   Lex a line and feed its tokens to the statement: the column recorded for each
   outer token is that of the whole text before it.
   */
  method AnalyzeLine(lexer: Lexer, statement: Statement, text: string) returns (tokens: seq<Token>, columns: seq<nat>)
    requires lexer.Valid(false) && 0 < statement.tabSize
    modifies lexer, statement
    ensures lexer.Valid(true) && LexedTo(text, old(lexer.contexts), tokens, lexer.contexts)
    ensures TokensOf(text, tokens, |text|) && |columns| == |tokens|
    ensures forall i :: 0 <= i < |tokens| && Counts(tokens[i]) ==>
              columns[i] == Columns(text[..tokens[i].begin], statement.tabSize, 0)
  {
    hide Lexes, Gaps;
    statement.BeginLine(text);
    ghost var turns, stacks;
    tokens, turns, stacks := lexer.Line(text);
    assert LexedTo(text, old(lexer.contexts), tokens, lexer.contexts);
    columns := MeasureTokens(statement, text, tokens);
  }

  method MeasureTokens(statement: Statement, text: string, tokens: seq<Token>) returns (columns: seq<nat>)
    requires statement.Valid(text) && statement.columnByte == 0 && TokensOf(text, tokens, |text|)
    modifies statement
    ensures |columns| == |tokens|
    ensures forall i :: 0 <= i < |tokens| && Counts(tokens[i]) ==>
              columns[i] == Columns(text[..tokens[i].begin], statement.tabSize, 0)
  {
    columns := [];
    for i := 0 to |tokens|
      invariant statement.Valid(text) && |columns| == i
      invariant statement.columnByte <= if i < |tokens| then tokens[i].begin else |text|
      invariant forall k :: 0 <= k < i && Counts(tokens[k]) ==>
                  columns[k] == Columns(text[..tokens[k].begin], statement.tabSize, 0)
    {
      statement.Consume(text, tokens[i]);
      columns := columns + [statement.column];
    }
  }

  /** Line n is lexed in the contexts carried to it, and the next line gets what its line break leaves. */
  ghost predicate LineCarried(lines: seq<string>, carried: seq<seq<Context>>, analyzed: seq<seq<Token>>, n: nat)
    requires n < |lines| == |analyzed| && |carried| == |lines| + 1
  {
    exists ended :: LexedTo(lines[n], carried[n], analyzed[n], ended) && Continues(ended, carried[n + 1])
  }

  /** The tokens of all lines, with the contexts each line starts in. */
  ghost predicate Analyzed(lines: seq<string>, carried: seq<seq<Context>>, analyzed: seq<seq<Token>>) {
    && |analyzed| == |lines| && |carried| == |lines| + 1 && carried[0] == []
    && forall n: nat :: n < |lines| ==> LineCarried(lines, carried, analyzed, n)
  }

  lemma AnalyzedOneMore(lines: seq<string>, carried: seq<seq<Context>>, analyzed: seq<seq<Token>>,
                        line: string, tokens: seq<Token>, ended: seq<Context>, next: seq<Context>)
    requires Analyzed(lines, carried, analyzed)
    requires LexedTo(line, carried[|lines|], tokens, ended) && Continues(ended, next)
    ensures Analyzed(lines + [line], carried + [next], analyzed + [tokens])
  {
    hide LexedTo, Continues;
    var more, stacks, all := lines + [line], carried + [next], analyzed + [tokens];
    forall n: nat | n < |more| ensures LineCarried(more, stacks, all, n) {
      if n < |lines| {
        assert LineCarried(lines, carried, analyzed, n);
        var before :| LexedTo(lines[n], carried[n], analyzed[n], before) && Continues(before, carried[n + 1]);
        assert LexedTo(more[n], stacks[n], all[n], before) && Continues(before, stacks[n + 1]);
      } else {
        assert LexedTo(more[n], stacks[n], all[n], ended) && Continues(ended, stacks[n + 1]);
      }
    }
  }

  /** All lines of a document, each lexed in the contexts that the lines before it leave. */
  method AnalyzeLines(lines: seq<string>, tabSize: nat)
    returns (analyzed: seq<seq<Token>>, ghost carried: seq<seq<Context>>)
    requires 0 < tabSize
    ensures Analyzed(lines, carried, analyzed)
    ensures forall n :: 0 <= n < |lines| ==> TokensOf(lines[n], analyzed[n], |lines[n]|)
  {
    hide LexedTo, Continues, WellStacked, NoFlag, FlagOnTopOnly, LineCarried;
    var lexer := new Lexer();
    var statement := new Statement(tabSize);
    analyzed, carried := [], [lexer.contexts];
    for n := 0 to |lines|
      invariant lexer.Valid(false) && fresh(lexer) && fresh(statement) && 0 < statement.tabSize
      invariant Analyzed(lines[..n], carried, analyzed) && carried[n] == lexer.contexts
      invariant forall k :: 0 <= k < n ==> TokensOf(lines[k], analyzed[k], |lines[k]|)
    {
      var tokens, columns := AnalyzeLine(lexer, statement, lines[n]);
      ghost var ended := lexer.contexts;
      lexer.NewLine();
      AnalyzedOneMore(lines[..n], carried, analyzed, lines[n], tokens, ended, lexer.contexts);
      assert lines[..n] + [lines[n]] == lines[..n + 1];
      analyzed, carried := analyzed + [tokens], carried + [lexer.contexts];
    }
    assert lines[..|lines|] == lines;
  }

  // ---------- Indentation text ----------

  predicate Blank(text: string) {
    forall i :: 0 <= i < |text| ==> text[i] == ' ' || text[i] == '\t'
  }

  /** The longest prefix that fits into a number of columns. */
  ghost predicate LongestFit(preferred: string, k: nat, width: nat, tabSize: nat)
    requires 0 < tabSize
  {
    && k <= |preferred| && Columns(preferred[..k], tabSize, 0) <= width
    && (k < |preferred| ==> Columns(preferred[..k + 1], tabSize, 0) > width)
  }

  predicate Spaces(text: string) {
    forall i :: 0 <= i < |text| ==> text[i] == ' '
  }

  lemma {:induction false} SpacesColumns(n: nat, tabSize: nat, column: nat)
    requires 0 < tabSize
    ensures Columns(Repeat(' ', n), tabSize, column) == column + n
  {
    if n > 0 {
      assert Repeat(' ', n)[..n - 1] == Repeat(' ', n - 1);
      SpacesColumns(n - 1, tabSize, column);
    }
  }

  /** What is promised of an indentation text. */
  ghost predicate Indents(result: string, preferred: string, width: nat, tabSize: nat)
    requires 0 < tabSize
  {
    && Blank(result) && Columns(result, tabSize, 0) == width
    && exists k: nat :: LongestFit(preferred, k, width, tabSize) && preferred[..k] <= result
                   && (Spaces(result[k..]) || ('\t' in preferred && ' ' !in preferred))
  }

  method MakeIndent(requested: int, preferred: string, tabSize: nat) returns (result: string)
    requires 0 < tabSize && Blank(preferred)
    ensures Indents(result, preferred, if requested < 0 then 0 else requested, tabSize)
    ensures Columns(preferred, tabSize, 0) == requested ==> result == preferred
  {
    var width: nat := if requested < 0 then 0 else requested;
    var measured := MeasureColumns(preferred, tabSize, 0);
    if measured == width {
      KeptIndents(preferred, tabSize);
      return preferred;
    }
    if '\t' !in preferred {
      SpacesIndent(preferred, width, tabSize);
      return Repeat(' ', width);
    }
    var column;
    result, column := KeepPrefix(preferred, width, tabSize);
    ghost var kept := |result|;
    if ' ' !in preferred {
      result, column := AddTabs(result, column, width, tabSize);
    }
    FilledIndents(preferred, kept, result, column, width, tabSize);
    result := result + Repeat(' ', width - column);
  }

  lemma KeptIndents(preferred: string, tabSize: nat)
    requires 0 < tabSize && Blank(preferred)
    ensures Indents(preferred, preferred, Columns(preferred, tabSize, 0), tabSize)
  {
    assert preferred[..|preferred|] == preferred && preferred[|preferred|..] == "";
    assert LongestFit(preferred, |preferred|, Columns(preferred, tabSize, 0), tabSize);
  }

  lemma SpacesIndent(preferred: string, width: nat, tabSize: nat)
    requires 0 < tabSize && Spaces(preferred)
    ensures Indents(Repeat(' ', width), preferred, width, tabSize)
  {
    SpacesColumns(width, tabSize, 0);
    SpacesFit(preferred, width, tabSize);
  }

  /** The kept prefix, perhaps more tabs, and spaces up to the width. */
  lemma FilledIndents(preferred: string, kept: nat, tabbed: string, column: nat, width: nat, tabSize: nat)
    requires 0 < tabSize && LongestFit(preferred, kept, width, tabSize) && preferred[..kept] <= tabbed && Blank(tabbed)
    requires column == Columns(tabbed, tabSize, 0) <= width
    requires |tabbed| == kept || ('\t' in preferred && ' ' !in preferred)
    ensures Indents(tabbed + Repeat(' ', width - column), preferred, width, tabSize)
  {
    var spaces := Repeat(' ', width - column);
    SpacesColumns(width - column, tabSize, column);
    ColumnsJoin(tabbed, spaces, tabSize, 0);
    assert preferred[..kept] <= tabbed + spaces;
    assert |tabbed| == kept ==> (tabbed + spaces)[kept..] == spaces;
  }

  lemma SpacesFit(preferred: string, width: nat, tabSize: nat)
    requires 0 < tabSize && Spaces(preferred)
    ensures exists k: nat :: LongestFit(preferred, k, width, tabSize) && preferred[..k] <= Repeat(' ', width)
                        && Spaces(Repeat(' ', width)[k..])
  {
    var k := if |preferred| <= width then |preferred| else width;
    assert preferred[..k] == Repeat(' ', k);
    SpacesColumns(k, tabSize, 0);
    if k < |preferred| {
      assert preferred[..k + 1] == Repeat(' ', k + 1);
      SpacesColumns(k + 1, tabSize, 0);
    }
    assert LongestFit(preferred, k, width, tabSize);
  }

  /** Copy the preferred prefix as long as it fits. */
  method KeepPrefix(preferred: string, width: nat, tabSize: nat) returns (result: string, column: nat)
    requires 0 < tabSize && Blank(preferred)
    ensures LongestFit(preferred, |result|, width, tabSize) && result == preferred[..|result|]
    ensures column == Columns(result, tabSize, 0) <= width
  {
    result, column := "", 0;
    for i := 0 to |preferred|
      invariant result == preferred[..i] && column == Columns(result, tabSize, 0) <= width
    {
      var next := if preferred[i] == '\t' then column + tabSize - column % tabSize else column + 1;
      assert preferred[..i + 1][..i] == preferred[..i];
      if next > width {
        return;
      }
      result := result + [preferred[i]];
      assert result == preferred[..i + 1];
      column := next;
    }
  }

  /** Add tab stops as long as they fit. */
  method AddTabs(kept: string, start: nat, width: nat, tabSize: nat) returns (result: string, column: nat)
    requires 0 < tabSize && Blank(kept) && start == Columns(kept, tabSize, 0) <= width
    ensures kept <= result && Blank(result)
    ensures column == Columns(result, tabSize, 0) <= width && width < column + tabSize - column % tabSize
  {
    result, column := kept, start;
    while column + tabSize - column % tabSize <= width
      invariant kept <= result && Blank(result)
      invariant column == Columns(result, tabSize, 0) <= width
      decreases width - column
    {
      assert (result + ['\t'])[..|result|] == result;
      result := result + ['\t'];
      column := column + (tabSize - column % tabSize);
    }
  }
}
