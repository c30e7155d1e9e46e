/** The intermediate-to-core encoder as the editor writes it
    (Tools/vscode/H-editor/packages/core/src/Core_intermediate_representation.ts):
    every `intermediate_to_core_*_expression` pushes an empty slot onto a
    shared array of core expressions, fills the slot once it knows the
    node, and encodes each child at the array's current end after writing
    that end into the node. */
module CoreEncoding {
  import opened Wrappers
  import opened CoreIR

  /** The array the encoders push onto. */
  class ExpressionBuffer {
    var expressions: seq<CoreExpression>

    constructor ()
      ensures expressions == []
    {
      expressions := [];
    }

    /** `intermediate_to_core_expression`: appends the encoding of `e`; the
        source position is copied onto the node last. */
    method Encode(e: Expression)
      modifies this
      ensures expressions == old(expressions) + FlattenExpression(e, |old(expressions)|)
      decreases e, 1
    {
      var index := |expressions|;
      match e.data {
      case Variable(_, _) => EncodeVariable(e.data);
      case Access(_, _, _) => EncodeAccess(e.data);
      case AccessArray(_, _) => EncodeAccessArray(e.data);
      case Assignment(_, _, _) => EncodeAssignment(e.data);
      case Binary(_, _, _) => EncodeBinary(e.data);
      case Unary(_, _) => EncodeUnary(e.data);
      case Parenthesis(_) => EncodeParenthesis(e.data);
      case Call(_, _) => EncodeCall(e.data);
      case Return(_) => EncodeReturn(e.data);
      case Constant(_, _) => EncodeConstant(e.data);
      case Break(_) => EncodeBreak(e.data);
      case Continue => EncodeContinue(e.data);
      case NullPointer => EncodeNullPointer(e.data);
      case Block(_) => EncodeBlock(e.data);
      }
      ghost var f := FlattenExpression(Expression(e.data, None), index);
      assert expressions == old(expressions) + [f[0]] + f[1..];
      PositionAtHead(e, index);
      if e.sourcePosition.Some? {
        ReplaceHead(old(expressions), f[0], f[0].(sourcePosition := e.sourcePosition), f[1..]);
        expressions := expressions[index := expressions[index].(sourcePosition := e.sourcePosition)];
      } else {
        assert e == Expression(e.data, None);
      }
    }

    method EncodeVariable(d: ExpressionData)
      requires d.Variable?
      modifies this
      ensures expressions == old(expressions) + FlattenExpression(Expression(d, None), |old(expressions)|)
      decreases d, 0
    {
      var index := |expressions|;
      expressions := expressions + [CoreExpression(Placeholder, None)];
      expressions := expressions[index := CoreExpression(CoreVariable(d.name, d.accessType), None)];
    }

    method EncodeConstant(d: ExpressionData)
      requires d.Constant?
      modifies this
      ensures expressions == old(expressions) + FlattenExpression(Expression(d, None), |old(expressions)|)
      decreases d, 0
    {
      var index := |expressions|;
      expressions := expressions + [CoreExpression(Placeholder, None)];
      expressions := expressions[index := CoreExpression(CoreConstant(ToCoreTypeReference(d.constantType), d.data), None)];
    }

    method EncodeBreak(d: ExpressionData)
      requires d.Break?
      modifies this
      ensures expressions == old(expressions) + FlattenExpression(Expression(d, None), |old(expressions)|)
      decreases d, 0
    {
      var index := |expressions|;
      expressions := expressions + [CoreExpression(Placeholder, None)];
      expressions := expressions[index := CoreExpression(CoreBreak(d.loopCount), None)];
    }

    method EncodeContinue(d: ExpressionData)
      requires d.Continue?
      modifies this
      ensures expressions == old(expressions) + FlattenExpression(Expression(d, None), |old(expressions)|)
      decreases d, 0
    {
      var index := |expressions|;
      expressions := expressions + [CoreExpression(Placeholder, None)];
      expressions := expressions[index := CoreExpression(CoreContinue, None)];
    }

    method EncodeNullPointer(d: ExpressionData)
      requires d.NullPointer?
      modifies this
      ensures expressions == old(expressions) + FlattenExpression(Expression(d, None), |old(expressions)|)
      decreases d, 0
    {
      var index := |expressions|;
      expressions := expressions + [CoreExpression(Placeholder, None)];
      expressions := expressions[index := CoreExpression(CoreNullPointer, None)];
    }

    method EncodeAccess(d: ExpressionData)
      requires d.Access?
      modifies this
      ensures expressions == old(expressions) + FlattenExpression(Expression(d, None), |old(expressions)|)
      decreases d, 0
    {
      var index := |expressions|;
      expressions := expressions + [CoreExpression(Placeholder, None)];
      expressions := expressions[index := CoreExpression(CoreAccess(-1, d.memberName, d.accessType), None)];
      expressions := expressions[index := CoreExpression(CoreAccess(|expressions|, d.memberName, d.accessType), None)];
      Encode(d.expression);
    }

    method EncodeUnary(d: ExpressionData)
      requires d.Unary?
      modifies this
      ensures expressions == old(expressions) + FlattenExpression(Expression(d, None), |old(expressions)|)
      decreases d, 0
    {
      var index := |expressions|;
      expressions := expressions + [CoreExpression(Placeholder, None)];
      expressions := expressions[index := CoreExpression(CoreUnary(-1, d.unaryOperation), None)];
      expressions := expressions[index := CoreExpression(CoreUnary(|expressions|, d.unaryOperation), None)];
      Encode(d.expression);
    }

    method EncodeParenthesis(d: ExpressionData)
      requires d.Parenthesis?
      modifies this
      ensures expressions == old(expressions) + FlattenExpression(Expression(d, None), |old(expressions)|)
      decreases d, 0
    {
      var index := |expressions|;
      expressions := expressions + [CoreExpression(Placeholder, None)];
      expressions := expressions[index := CoreExpression(CoreParenthesis(-1), None)];
      expressions := expressions[index := CoreExpression(CoreParenthesis(|expressions|), None)];
      Encode(d.expression);
    }

    method EncodeAccessArray(d: ExpressionData)
      requires d.AccessArray?
      modifies this
      ensures expressions == old(expressions) + FlattenExpression(Expression(d, None), |old(expressions)|)
      decreases d, 0
    {
      var index := |expressions|;
      ghost var f1 := FlattenExpression(d.expression, index + 1);
      ghost var pending := CoreExpression(CoreAccessArray(index + 1, -1), None);
      ghost var node := CoreExpression(CoreAccessArray(index + 1, index + 1 + |f1|), None);
      expressions := expressions + [CoreExpression(CoreAccessArray(index + 1, -1), None)];
      Encode(d.expression);
      assert expressions == old(expressions) + [pending] + f1;
      ReplaceHead(old(expressions), pending, node, f1);
      expressions := expressions[index := CoreExpression(CoreAccessArray(index + 1, |expressions|), None)];
      assert expressions == old(expressions) + [node] + f1;
      Encode(d.index);
      AccessArrayShape(d, index);
    }

    method EncodeAssignment(d: ExpressionData)
      requires d.Assignment?
      modifies this
      ensures expressions == old(expressions) + FlattenExpression(Expression(d, None), |old(expressions)|)
      decreases d, 0
    {
      var index := |expressions|;
      ghost var f1 := FlattenExpression(d.leftHandSide, index + 1);
      ghost var pending := CoreExpression(CoreAssignment(index + 1, -1, d.additionalOperation), None);
      ghost var node := CoreExpression(CoreAssignment(index + 1, index + 1 + |f1|, d.additionalOperation), None);
      expressions := expressions + [CoreExpression(CoreAssignment(index + 1, -1, d.additionalOperation), None)];
      Encode(d.leftHandSide);
      assert expressions == old(expressions) + [pending] + f1;
      ReplaceHead(old(expressions), pending, node, f1);
      expressions := expressions[index := CoreExpression(CoreAssignment(index + 1, |expressions|, d.additionalOperation), None)];
      assert expressions == old(expressions) + [node] + f1;
      Encode(d.rightHandSide);
      AssignmentShape(d, index);
    }

    method EncodeBinary(d: ExpressionData)
      requires d.Binary?
      modifies this
      ensures expressions == old(expressions) + FlattenExpression(Expression(d, None), |old(expressions)|)
      decreases d, 0
    {
      var index := |expressions|;
      ghost var f1 := FlattenExpression(d.leftHandSide, index + 1);
      ghost var pending := CoreExpression(CoreBinary(index + 1, -1, d.operation), None);
      ghost var node := CoreExpression(CoreBinary(index + 1, index + 1 + |f1|, d.operation), None);
      expressions := expressions + [CoreExpression(CoreBinary(index + 1, -1, d.operation), None)];
      Encode(d.leftHandSide);
      assert expressions == old(expressions) + [pending] + f1;
      ReplaceHead(old(expressions), pending, node, f1);
      expressions := expressions[index := CoreExpression(CoreBinary(index + 1, |expressions|, d.operation), None)];
      assert expressions == old(expressions) + [node] + f1;
      Encode(d.rightHandSide);
      BinaryShape(d, index);
    }

    method EncodeReturn(d: ExpressionData)
      requires d.Return?
      modifies this
      ensures expressions == old(expressions) + FlattenExpression(Expression(d, None), |old(expressions)|)
      decreases d, 0
    {
      var index := |expressions|;
      expressions := expressions + [CoreExpression(Placeholder, None)];
      expressions := expressions[index := CoreExpression(CoreReturn(if d.returned.Some? then Some(-1) else None), None)];
      if d.returned.Some? {
        expressions := expressions[index := CoreExpression(CoreReturn(Some(|expressions|)), None)];
        Encode(d.returned.value);
      }
    }

    /** The block's statements are encoded each into an array of its own. */
    method EncodeBlock(d: ExpressionData)
      requires d.Block?
      modifies this
      ensures expressions == old(expressions) + FlattenExpression(Expression(d, None), |old(expressions)|)
      decreases d, 0
    {
      var index := |expressions|;
      expressions := expressions + [CoreExpression(Placeholder, None)];
      var statements := EncodeStatements(d.statements);
      expressions := expressions[index := CoreExpression(CoreBlock(Vector(|d.statements|, statements)), None)];
    }

    /** The argument vector starts empty, gains the index of each argument
        as that argument is encoded, and has its size set last. */
    method EncodeCall(d: ExpressionData)
      requires d.Call?
      modifies this
      ensures expressions == old(expressions) + FlattenExpression(Expression(d, None), |old(expressions)|)
      decreases d, 0
    {
      var index := |expressions|;
      var indices: seq<int> := [];
      expressions := expressions + [CoreExpression(CoreCall(index + 1, Vector(0, indices)), None)];
      Encode(d.expression);
      ghost var f1 := FlattenExpression(d.expression, index + 1);
      ghost var argumentsBase := index + 1 + |f1|;
      assert d.arguments[..0] == [];
      var i := 0;
      while i < |d.arguments|
        invariant 0 <= i <= |d.arguments|
        invariant indices == ArgumentIndices(d.arguments[..i], argumentsBase)
        invariant expressions == old(expressions) + [CoreExpression(CoreCall(index + 1, Vector(0, indices)), None)]
                                 + (f1 + FlattenArguments(d.arguments[..i], argumentsBase))
      {
        ghost var before := expressions;
        ghost var previous := indices;
        indices := indices + [|expressions|];
        expressions := expressions[index := CoreExpression(CoreCall(index + 1, Vector(0, indices)), None)];
        ghost var patched := expressions;
        Encode(d.arguments[i]);
        CallStep(old(expressions), index + 1, f1, d.arguments, i, argumentsBase, previous, indices, before, patched, expressions);
        i := i + 1;
      }
      ghost var current := expressions;
      expressions := expressions[index := CoreExpression(CoreCall(index + 1, Vector(|indices|, indices)), None)];
      CallDone(old(expressions), d, f1, argumentsBase, indices, current, expressions);
    }
  }

  /** `intermediate_to_core_statement`: the statement's expression encoded
      into a fresh array. */
  method EncodeStatement(s: Statement) returns (r: CoreStatement)
    ensures r == ToCoreStatement(s)
    decreases s, 2
  {
    var buffer := new ExpressionBuffer();
    buffer.Encode(s.expression);
    r := CoreStatement(Vector(|buffer.expressions|, buffer.expressions));
  }

  /** The encoding of each statement, in order. */
  method EncodeStatements(ss: seq<Statement>) returns (r: seq<CoreStatement>)
    ensures r == ToCoreStatements(ss)
    decreases ss, 2
  {
    r := [];
    var i := 0;
    while i < |ss|
      invariant 0 <= i <= |ss|
      invariant r == ToCoreStatements(ss[..i])
    {
      var statement := EncodeStatement(ss[i]);
      StatementsSnoc(ss[..i], ss[i]);
      assert ss[..i + 1] == ss[..i] + [ss[i]];
      r := r + [statement];
      i := i + 1;
    }
    assert ss[..|ss|] == ss;
  }

  /** The source position of an expression lands on its node only. */
  lemma PositionAtHead(e: Expression, base: int)
    ensures var f := FlattenExpression(Expression(e.data, None), base);
      FlattenExpression(e, base) == [f[0].(sourcePosition := e.sourcePosition)] + f[1..]
  {
  }

  lemma AccessArrayShape(d: ExpressionData, base: int)
    requires d.AccessArray?
    ensures var f1 := FlattenExpression(d.expression, base + 1);
      FlattenExpression(Expression(d, None), base)
        == [CoreExpression(CoreAccessArray(base + 1, base + 1 + |f1|), None)] + f1 + FlattenExpression(d.index, base + 1 + |f1|)
  {
  }

  lemma AssignmentShape(d: ExpressionData, base: int)
    requires d.Assignment?
    ensures var f1 := FlattenExpression(d.leftHandSide, base + 1);
      FlattenExpression(Expression(d, None), base)
        == [CoreExpression(CoreAssignment(base + 1, base + 1 + |f1|, d.additionalOperation), None)] + f1 + FlattenExpression(d.rightHandSide, base + 1 + |f1|)
  {
  }

  lemma BinaryShape(d: ExpressionData, base: int)
    requires d.Binary?
    ensures var f1 := FlattenExpression(d.leftHandSide, base + 1);
      FlattenExpression(Expression(d, None), base)
        == [CoreExpression(CoreBinary(base + 1, base + 1 + |f1|, d.operation), None)] + f1 + FlattenExpression(d.rightHandSide, base + 1 + |f1|)
  {
  }

  /** The encoding of the first `i + 1` arguments extends that of the
      first `i` by the encoding of argument `i`, and so do their indices. */
  lemma ArgumentStep(args: seq<Expression>, i: int, base: int)
    requires 0 <= i < |args|
    ensures var done := FlattenArguments(args[..i], base);
      && FlattenArguments(args[..i + 1], base) == done + FlattenExpression(args[i], base + |done|)
      && ArgumentIndices(args[..i + 1], base) == ArgumentIndices(args[..i], base) + [base + |done|]
  {
    assert args[..i + 1] == args[..i] + [args[i]];
    FlattenArgumentsSnoc(args[..i], args[i], base);
    ArgumentIndicesSnoc(args[..i], args[i], base);
  }

  /** One turn of the argument loop of `EncodeCall`: the next argument's
      index is added to the call node, then the argument is encoded. */
  lemma CallStep(prefix: seq<CoreExpression>, callee: int, f1: seq<CoreExpression>, args: seq<Expression>, i: int, base: int,
                 previous: seq<int>, indices: seq<int>, before: seq<CoreExpression>, patched: seq<CoreExpression>,
                 current: seq<CoreExpression>)
    requires 0 <= i < |args| && base == |prefix| + 1 + |f1|
    requires previous == ArgumentIndices(args[..i], base) && indices == previous + [|before|]
    requires before == prefix + [CoreExpression(CoreCall(callee, Vector(0, previous)), None)]
                       + (f1 + FlattenArguments(args[..i], base))
    requires patched == before[|prefix| := CoreExpression(CoreCall(callee, Vector(0, indices)), None)]
    requires current == patched + FlattenExpression(args[i], |patched|)
    ensures indices == ArgumentIndices(args[..i + 1], base)
    ensures current == prefix + [CoreExpression(CoreCall(callee, Vector(0, indices)), None)]
                       + (f1 + FlattenArguments(args[..i + 1], base))
  {
    ArgumentStep(args, i, base);
    var done := FlattenArguments(args[..i], base);
    assert |before| == base + |done|;
    var node := CoreExpression(CoreCall(callee, Vector(0, indices)), None);
    ReplaceHead(prefix, CoreExpression(CoreCall(callee, Vector(0, previous)), None), node, f1 + done);
    assert patched == prefix + [node] + (f1 + done);
    var next := FlattenExpression(args[i], base + |done|);
    assert current == prefix + [node] + (f1 + done) + next;
    AppendRest(prefix, node, f1, done, next);
    assert f1 + FlattenArguments(args[..i + 1], base) == f1 + (done + next);
  }

  /** The end of `EncodeCall`: the argument vector's size is set. */
  lemma CallDone(prefix: seq<CoreExpression>, d: ExpressionData, f1: seq<CoreExpression>, base: int, indices: seq<int>,
                 current: seq<CoreExpression>, final: seq<CoreExpression>)
    requires d.Call? && f1 == FlattenExpression(d.expression, |prefix| + 1) && base == |prefix| + 1 + |f1|
    requires indices == ArgumentIndices(d.arguments[..|d.arguments|], base)
    requires current == prefix + [CoreExpression(CoreCall(|prefix| + 1, Vector(0, indices)), None)]
                        + (f1 + FlattenArguments(d.arguments[..|d.arguments|], base))
    requires final == current[|prefix| := CoreExpression(CoreCall(|prefix| + 1, Vector(|indices|, indices)), None)]
    ensures final == prefix + FlattenExpression(Expression(d, None), |prefix|)
  {
    assert d.arguments[..|d.arguments|] == d.arguments;
    var node := CoreExpression(CoreCall(|prefix| + 1, Vector(|indices|, indices)), None);
    var rest := FlattenArguments(d.arguments, base);
    ReplaceHead(prefix, current[|prefix|], node, f1 + rest);
    assert FlattenExpression(Expression(d, None), |prefix|) == [node] + f1 + rest;
  }

  lemma AppendRest(prefix: seq<CoreExpression>, node: CoreExpression, f1: seq<CoreExpression>, done: seq<CoreExpression>, next: seq<CoreExpression>)
    ensures prefix + [node] + (f1 + done) + next == prefix + [node] + (f1 + (done + next))
  {
  }

  lemma ReplaceHead(prefix: seq<CoreExpression>, node: CoreExpression, node': CoreExpression, rest: seq<CoreExpression>)
    ensures (prefix + [node] + rest)[|prefix| := node'] == prefix + [node'] + rest
  {
    assert (prefix + [node] + rest)[|prefix| := node'] == prefix + [node'] + rest;
  }

  /** Encoding one more argument appends its encoding ... */
  lemma {:induction false} FlattenArgumentsSnoc(args: seq<Expression>, a: Expression, base: int)
    ensures FlattenArguments(args + [a], base)
      == FlattenArguments(args, base) + FlattenExpression(a, base + |FlattenArguments(args, base)|)
    decreases |args|
  {
    if |args| == 0 {
      assert [a][1..] == [];
    } else {
      var f := FlattenExpression(args[0], base);
      assert (args + [a])[0] == args[0];
      assert (args + [a])[1..] == args[1..] + [a];
      FlattenArgumentsSnoc(args[1..], a, base + |f|);
    }
  }

  /** ... and the index where that encoding starts. */
  lemma {:induction false} ArgumentIndicesSnoc(args: seq<Expression>, a: Expression, base: int)
    ensures ArgumentIndices(args + [a], base)
      == ArgumentIndices(args, base) + [base + |FlattenArguments(args, base)|]
    decreases |args|
  {
    if |args| == 0 {
      assert [a][1..] == [];
    } else {
      var f := FlattenExpression(args[0], base);
      assert (args + [a])[0] == args[0];
      assert (args + [a])[1..] == args[1..] + [a];
      ArgumentIndicesSnoc(args[1..], a, base + |f|);
      assert |FlattenArguments(args, base)| == |f| + |FlattenArguments(args[1..], base + |f|)|;
    }
  }

  lemma {:induction false} StatementsSnoc(ss: seq<Statement>, s: Statement)
    ensures ToCoreStatements(ss + [s]) == ToCoreStatements(ss) + [ToCoreStatement(s)]
    decreases |ss|
  {
    if |ss| == 0 {
      assert [s][1..] == [];
    } else {
      assert (ss + [s])[0] == ss[0];
      assert (ss + [s])[1..] == ss[1..] + [s];
      StatementsSnoc(ss[1..], s);
    }
  }
}
