/** The two helpers of the editor's module fixtures
    (packages/core/src/Module_examples.ts) that do more than build literals:
    `create_statement` and `add_source_positions`. Statements and their
    expressions are JavaScript objects shared by reference, so they are
    classes here; their payload is the intermediate representation's
    expression data. */
module ModuleExamples {
  import opened Wrappers
  import IR = CoreIR

  /** An `IR.Expression` object: its data and its optional source position. */
  class Expression {
    var data: IR.ExpressionData
    var sourcePosition: Option<IR.SourcePosition>

    constructor(data: IR.ExpressionData)
      ensures this.data == data && sourcePosition.None?
    {
      this.data := data;
      sourcePosition := None;
    }
  }

  /** An `IR.Statement` object, holding its expression by reference. */
  class Statement {
    const expression: Expression

    constructor(expression: Expression)
      ensures this.expression == expression
    {
      this.expression := expression;
    }
  }

  /** `create_statement`: a new statement around `expression`; when a
      position is given it is copied onto the expression itself, which the
      caller shares. */
  method CreateStatement(expression: Expression, sourcePosition: Option<IR.SourcePosition>) returns (statement: Statement)
    modifies expression
    ensures fresh(statement) && statement.expression == expression
    ensures expression.data == old(expression.data)
    ensures sourcePosition.Some? ==>
      expression.sourcePosition == Some(IR.SourcePosition(sourcePosition.value.line, sourcePosition.value.column))
    ensures sourcePosition.None? ==> expression.sourcePosition == old(expression.sourcePosition)
  {
    statement := new Statement(expression);
    if sourcePosition.Some? {
      expression.sourcePosition := Some(IR.SourcePosition(sourcePosition.value.line, sourcePosition.value.column));
    }
  }

  /** How many of the indices before `index` are listed in
      `additionalNewLines`. */
  function ExtraLinesBefore(additionalNewLines: seq<int>, index: nat): (r: nat)
    ensures r <= index
  {
    if index == 0 then 0
    else ExtraLinesBefore(additionalNewLines, index - 1) + (if index - 1 in additionalNewLines then 1 else 0)
  }

  /** The line `add_source_positions` gives statement `index`. */
  function LineAt(startLine: int, additionalNewLines: seq<int>, index: nat): int {
    startLine + index + ExtraLinesBefore(additionalNewLines, index)
  }

  /** The statements' expressions are distinct objects, as each fixture
      statement is built around its own expression literal. */
  predicate DistinctExpressions(statements: array<Statement>)
    reads statements
  {
    forall i, j :: 0 <= i < j < statements.Length ==> statements[i].expression != statements[j].expression
  }

  /** `add_source_positions`: statement `index` is placed on the start line
      plus one line per earlier statement plus one more for each earlier
      index listed in `additionalNewLines`, at the start column. Only the
      expressions' positions change. */
  method AddSourcePositions(statements: array<Statement>, start: IR.SourcePosition, additionalNewLines: seq<int>)
    requires DistinctExpressions(statements)
    modifies set i | 0 <= i < statements.Length :: statements[i].expression
    ensures forall i :: 0 <= i < statements.Length ==>
      statements[i].expression.sourcePosition == Some(IR.SourcePosition(LineAt(start.line, additionalNewLines, i), start.column))
    ensures forall i :: 0 <= i < statements.Length ==> statements[i].expression.data == old(statements[i].expression.data)
  {
    var line := start.line;
    var column := start.column;
    for index := 0 to statements.Length
      invariant line == LineAt(start.line, additionalNewLines, index)
      invariant forall i :: 0 <= i < index ==>
        statements[i].expression.sourcePosition == Some(IR.SourcePosition(LineAt(start.line, additionalNewLines, i), start.column))
      invariant forall i :: 0 <= i < statements.Length ==> statements[i].expression.data == old(statements[i].expression.data)
    {
      statements[index].expression.sourcePosition := Some(IR.SourcePosition(line, column));
      line := line + 1;
      if index in additionalNewLines {
        line := line + 1;
      }
    }
  }

  /** Lines strictly increase along the statements, and the gap between two
      statements is one line per step plus the extra lines listed between
      them. */
  lemma {:induction false} LinesIncrease(startLine: int, additionalNewLines: seq<int>, i: nat, j: nat)
    requires i < j
    ensures LineAt(startLine, additionalNewLines, i) + (j - i) <= LineAt(startLine, additionalNewLines, j)
    ensures LineAt(startLine, additionalNewLines, j) <= LineAt(startLine, additionalNewLines, i) + 2 * (j - i)
    decreases j - i
  {
    if i + 1 < j {
      LinesIncrease(startLine, additionalNewLines, i, j - 1);
    }
  }

  /** Without extra new lines the statements take consecutive lines. */
  lemma {:induction false} ConsecutiveLines(startLine: int, additionalNewLines: seq<int>, index: nat)
    requires forall k :: 0 <= k < index ==> k !in additionalNewLines
    ensures LineAt(startLine, additionalNewLines, index) == startLine + index
  {
    if index > 0 {
      ConsecutiveLines(startLine, additionalNewLines, index - 1);
    }
  }

  /** Each listed index adds exactly one line after that statement. */
  lemma ExtraLineAfter(startLine: int, additionalNewLines: seq<int>, index: nat)
    ensures LineAt(startLine, additionalNewLines, index + 1)
         == LineAt(startLine, additionalNewLines, index) + 1 + (if index in additionalNewLines then 1 else 0)
  {
  }
}
