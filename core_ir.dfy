/** The editor's two forms of a module body
    (Tools/vscode/H-editor/packages/core/src/Core_intermediate_representation.ts):
    the intermediate form, where an expression holds its sub-expressions, and
    the core form, where a statement is a flat array of expressions and a
    sub-expression is referred to by its index in that array. */
module CoreIR {
  import opened Wrappers
  import opened Operations

  /** A core vector: a length field beside the elements. */
  datatype Vector<T> = Vector(size: int, elements: seq<T>)

  function ToVector<T>(s: seq<T>): (v: Vector<T>)
    ensures v.size == |v.elements| && v.elements == s
  {
    Vector(|s|, s)
  }

  datatype SourcePosition = SourcePosition(line: int, column: int)
  datatype ModuleReference = ModuleReference(name: string)
  datatype CustomTypeReference = CustomTypeReference(moduleReference: ModuleReference, name: string)

  // ----- Intermediate form -----

  datatype TypeReference =
    | BuiltinType(value: string)
    | ConstantArrayType(valueType: seq<TypeReference>, size: int)
    | CustomType(custom: CustomTypeReference)
    | FundamentalTypeReference(fundamental: FundamentalType)
    | FunctionPointerType(functionType: FunctionType, inputParameterNames: seq<string>, outputParameterNames: seq<string>)
    | IntegerType(numberOfBits: int, isSigned: bool)
    | NullPointerType
    | ParameterType(name: string)
    | PointerType(elementType: seq<TypeReference>, isMutable: bool)
    | TypeInstance(typeConstructor: CustomTypeReference, arguments: seq<Statement>)

  datatype FunctionType = FunctionType(inputParameterTypes: seq<TypeReference>, outputParameterTypes: seq<TypeReference>, isVariadic: bool)

  datatype Statement = Statement(expression: Expression)

  datatype Expression = Expression(data: ExpressionData, sourcePosition: Option<SourcePosition>)

  datatype ExpressionData =
    | Variable(name: string, accessType: AccessType)
    | Access(expression: Expression, memberName: string, accessType: AccessType)
    | AccessArray(expression: Expression, index: Expression)
    | Assignment(leftHandSide: Expression, rightHandSide: Expression, additionalOperation: Option<BinaryOperation>)
    | Binary(leftHandSide: Expression, rightHandSide: Expression, operation: BinaryOperation)
    | Unary(expression: Expression, unaryOperation: UnaryOperation)
    | Parenthesis(expression: Expression)
    | Call(expression: Expression, arguments: seq<Expression>)
    | Return(returned: Option<Expression>)
    | Constant(constantType: TypeReference, data: string)
    | Break(loopCount: int)
    | Continue
    | NullPointer
    | Block(statements: seq<Statement>)

  // ----- Core form -----

  datatype CoreTypeReference =
    | CoreBuiltinType(value: string)
    | CoreConstantArrayType(valueType: Vector<CoreTypeReference>, size: int)
    | CoreCustomType(custom: CustomTypeReference)
    | CoreFundamentalType(fundamental: FundamentalType)
    | CoreFunctionPointerType(functionType: CoreFunctionType, inputParameterNames: Vector<string>, outputParameterNames: Vector<string>)
    | CoreIntegerType(numberOfBits: int, isSigned: bool)
    | CoreNullPointerType
    | CoreParameterType(name: string)
    | CorePointerType(elementType: Vector<CoreTypeReference>, isMutable: bool)
    | CoreTypeInstance(typeConstructor: CustomTypeReference, arguments: Vector<CoreStatement>)

  datatype CoreFunctionType = CoreFunctionType(inputParameterTypes: Vector<CoreTypeReference>, outputParameterTypes: Vector<CoreTypeReference>, isVariadic: bool)

  datatype CoreStatement = CoreStatement(expressions: Vector<CoreExpression>)

  datatype CoreExpression = CoreExpression(data: CoreExpressionData, sourcePosition: Option<SourcePosition>)

  /** `Placeholder` is the empty object an encoder pushes to reserve a slot
      before it knows the slot's contents. */
  datatype CoreExpressionData =
    | Placeholder
    | CoreVariable(name: string, accessType: AccessType)
    | CoreAccess(expression: int, memberName: string, accessType: AccessType)
    | CoreAccessArray(expression: int, index: int)
    | CoreAssignment(leftHandSide: int, rightHandSide: int, additionalOperation: Option<BinaryOperation>)
    | CoreBinary(leftHandSide: int, rightHandSide: int, operation: BinaryOperation)
    | CoreUnary(expression: int, unaryOperation: UnaryOperation)
    | CoreParenthesis(expression: int)
    | CoreCall(expression: int, arguments: Vector<int>)
    | CoreReturn(returned: Option<int>)
    | CoreConstant(constantType: CoreTypeReference, data: string)
    | CoreBreak(loopCount: int)
    | CoreContinue
    | CoreNullPointer
    | CoreBlock(statements: Vector<CoreStatement>)

  /** The indices a core expression refers to. */
  function Children(d: CoreExpressionData): seq<int> {
    match d
    case CoreAccess(c, _, _) => [c]
    case CoreAccessArray(c, i) => [c, i]
    case CoreAssignment(l, r, _) => [l, r]
    case CoreBinary(l, r, _) => [l, r]
    case CoreUnary(c, _) => [c]
    case CoreParenthesis(c) => [c]
    case CoreCall(c, args) => [c] + args.elements
    case CoreReturn(r) => if r.Some? then [r.value] else []
    case _ => []
  }

  // ----- Encoding (intermediate to core) -----

  /** `intermediate_to_core_type_reference`. */
  function ToCoreTypeReference(t: TypeReference): CoreTypeReference
    decreases t, 0
  {
    match t
    case BuiltinType(v) => CoreBuiltinType(v)
    case ConstantArrayType(vt, n) => CoreConstantArrayType(ToVector(ToCoreTypeReferences(vt)), n)
    case CustomType(c) => CoreCustomType(c)
    case FundamentalTypeReference(f) => CoreFundamentalType(f)
    case FunctionPointerType(ft, ins, outs) =>
      CoreFunctionPointerType(
        CoreFunctionType(ToVector(ToCoreTypeReferences(ft.inputParameterTypes)), ToVector(ToCoreTypeReferences(ft.outputParameterTypes)), ft.isVariadic),
        ToVector(ins), ToVector(outs))
    case IntegerType(b, s) => CoreIntegerType(b, s)
    case NullPointerType => CoreNullPointerType
    case ParameterType(n) => CoreParameterType(n)
    case PointerType(et, m) => CorePointerType(ToVector(ToCoreTypeReferences(et)), m)
    case TypeInstance(tc, args) => CoreTypeInstance(tc, ToVector(ToCoreStatements(args)))
  }

  function ToCoreTypeReferences(ts: seq<TypeReference>): (r: seq<CoreTypeReference>)
    ensures |r| == |ts|
    decreases ts, 0
  {
    if |ts| == 0 then [] else [ToCoreTypeReference(ts[0])] + ToCoreTypeReferences(ts[1..])
  }

  /** `intermediate_to_core_statement`: the statement's expression tree,
      flattened into a fresh array. */
  function ToCoreStatement(s: Statement): CoreStatement
    decreases s, 0
  {
    CoreStatement(ToVector(FlattenExpression(s.expression, 0)))
  }

  function ToCoreStatements(ss: seq<Statement>): (r: seq<CoreStatement>)
    ensures |r| == |ss|
    decreases ss, 0
  {
    if |ss| == 0 then [] else [ToCoreStatement(ss[0])] + ToCoreStatements(ss[1..])
  }

  /** The core expressions appended by `intermediate_to_core_expression(e,
      expressions)` when `expressions` has length `base`: the node of `e`
      first, then its children's encodings in source order, each child's
      index being the array length just before the child is encoded. */
  function FlattenExpression(e: Expression, base: int): (r: seq<CoreExpression>)
    ensures |r| >= 1
    decreases e, 0
  {
    [CoreExpression(NodeData(e.data, base), e.sourcePosition)] + FlattenChildren(e.data, base)
  }

  /** The node an expression is encoded to when the node sits at `base`. */
  function NodeData(d: ExpressionData, base: int): CoreExpressionData
    decreases d, 0
  {
    match d
    case Variable(n, a) => CoreVariable(n, a)
    case Access(c, m, a) => CoreAccess(base + 1, m, a)
    case AccessArray(c, i) => CoreAccessArray(base + 1, base + 1 + |FlattenExpression(c, base + 1)|)
    case Assignment(l, r, op) => CoreAssignment(base + 1, base + 1 + |FlattenExpression(l, base + 1)|, op)
    case Binary(l, r, op) => CoreBinary(base + 1, base + 1 + |FlattenExpression(l, base + 1)|, op)
    case Unary(c, op) => CoreUnary(base + 1, op)
    case Parenthesis(c) => CoreParenthesis(base + 1)
    case Call(c, args) =>
      CoreCall(base + 1, ToVector(ArgumentIndices(args, base + 1 + |FlattenExpression(c, base + 1)|)))
    case Return(r) => CoreReturn(if r.None? then None else Some(base + 1))
    case Constant(t, data) => CoreConstant(ToCoreTypeReference(t), data)
    case Break(n) => CoreBreak(n)
    case Continue => CoreContinue
    case NullPointer => CoreNullPointer
    case Block(ss) => CoreBlock(ToVector(ToCoreStatements(ss)))
  }

  /** The encodings of an expression's children, in source order, from
      `base + 1`. */
  function FlattenChildren(d: ExpressionData, base: int): seq<CoreExpression>
    decreases d, 0
  {
    match d
    case Access(c, _, _) => FlattenExpression(c, base + 1)
    case AccessArray(c, i) =>
      var f1 := FlattenExpression(c, base + 1);
      f1 + FlattenExpression(i, base + 1 + |f1|)
    case Assignment(l, r, _) =>
      var f1 := FlattenExpression(l, base + 1);
      f1 + FlattenExpression(r, base + 1 + |f1|)
    case Binary(l, r, _) =>
      var f1 := FlattenExpression(l, base + 1);
      f1 + FlattenExpression(r, base + 1 + |f1|)
    case Unary(c, _) => FlattenExpression(c, base + 1)
    case Parenthesis(c) => FlattenExpression(c, base + 1)
    case Call(c, args) =>
      var f1 := FlattenExpression(c, base + 1);
      f1 + FlattenArguments(args, base + 1 + |f1|)
    case Return(r) => if r.None? then [] else FlattenExpression(r.value, base + 1)
    case _ => []
  }

  /** The encodings of call arguments, one after the other from `base`. */
  function FlattenArguments(args: seq<Expression>, base: int): seq<CoreExpression>
    decreases args, 0
  {
    if |args| == 0 then []
    else
      var f := FlattenExpression(args[0], base);
      f + FlattenArguments(args[1..], base + |f|)
  }

  /** The index of each argument's node when the arguments are encoded from `base`. */
  function ArgumentIndices(args: seq<Expression>, base: int): (r: seq<int>)
    ensures |r| == |args|
    decreases args, 0
  {
    if |args| == 0 then []
    else [base] + ArgumentIndices(args[1..], base + |FlattenExpression(args[0], base)|)
  }

  // ----- Decoding (core to intermediate) -----

  /** `core_to_intermediate_type_reference`. It fails only where a type
      instance argument fails to decode. */
  function ToIntermediateTypeReference(t: CoreTypeReference): Result<TypeReference>
    decreases t, 0, 0
  {
    match t
    case CoreBuiltinType(v) => Ok(BuiltinType(v))
    case CoreConstantArrayType(vt, n) =>
      var ts :- ToIntermediateTypeReferences(vt.elements);
      Ok(ConstantArrayType(ts, n))
    case CoreCustomType(c) => Ok(CustomType(c))
    case CoreFundamentalType(f) => Ok(FundamentalTypeReference(f))
    case CoreFunctionPointerType(ft, ins, outs) =>
      var inputs :- ToIntermediateTypeReferences(ft.inputParameterTypes.elements);
      var outputs :- ToIntermediateTypeReferences(ft.outputParameterTypes.elements);
      Ok(FunctionPointerType(FunctionType(inputs, outputs, ft.isVariadic), ins.elements, outs.elements))
    case CoreIntegerType(b, s) => Ok(IntegerType(b, s))
    case CoreNullPointerType => Ok(NullPointerType)
    case CoreParameterType(n) => Ok(ParameterType(n))
    case CorePointerType(et, m) =>
      var ts :- ToIntermediateTypeReferences(et.elements);
      Ok(PointerType(ts, m))
    case CoreTypeInstance(tc, args) =>
      var ss :- ToIntermediateStatements(args.elements);
      Ok(TypeInstance(tc, ss))
  }

  function ToIntermediateTypeReferences(ts: seq<CoreTypeReference>): Result<seq<TypeReference>>
    decreases ts, 0, 0
  {
    if |ts| == 0 then Ok([])
    else
      var t :- ToIntermediateTypeReference(ts[0]);
      var rest :- ToIntermediateTypeReferences(ts[1..]);
      Ok([t] + rest)
  }

  /** `core_to_intermediate_statement`: decodes the expression at index 0.
      The fuel given to the tree decoder is the array length, which bounds
      the depth of any tree laid out in the array; a cyclic index makes the
      source recurse without end, and here runs out of fuel. */
  function ToIntermediateStatement(s: CoreStatement): Result<Statement>
    decreases s, |s.expressions.elements| + 1, 0, 0
  {
    if |s.expressions.elements| == 0 then Err("statement without expressions")
    else
      var e :- ToIntermediateExpression(s, 0, |s.expressions.elements|);
      Ok(Statement(e))
  }

  function ToIntermediateStatements(ss: seq<CoreStatement>): Result<seq<Statement>>
    decreases ss, 0, 0, 0
  {
    if |ss| == 0 then Ok([])
    else
      var s :- ToIntermediateStatement(ss[0]);
      var rest :- ToIntermediateStatements(ss[1..]);
      Ok([s] + rest)
  }

  /** `core_to_intermediate_expression(statement.expressions.elements[index],
      statement)`. An index outside the array or a slot still holding a
      placeholder fails, as reading `.data` of `undefined` or of `{}` does. */
  function ToIntermediateExpression(s: CoreStatement, index: int, fuel: nat): Result<Expression>
    decreases s, fuel, 1, 0
  {
    if fuel == 0 then Err("expression tree deeper than the array")
    else if !(0 <= index < |s.expressions.elements|) then Err("expression index out of range")
    else
      var data :- ToIntermediateExpressionData(s, index, fuel - 1);
      Ok(Expression(data, s.expressions.elements[index].sourcePosition))
  }

  /** The `core_to_intermediate_*_expression` function for the kind of the
      node at `index`, whose children are decoded with `fuel`. */
  function ToIntermediateExpressionData(s: CoreStatement, index: int, fuel: nat): Result<ExpressionData>
    requires 0 <= index < |s.expressions.elements|
    decreases s, fuel, 2, 0
  {
    match s.expressions.elements[index].data
    case Placeholder => Err("unfilled expression")
    case CoreVariable(n, a) => Ok(Variable(n, a))
    case CoreAccess(c, m, a) =>
      var ce :- ToIntermediateExpression(s, c, fuel);
      Ok(Access(ce, m, a))
    case CoreAccessArray(c, i) =>
      var ce :- ToIntermediateExpression(s, c, fuel);
      var ie :- ToIntermediateExpression(s, i, fuel);
      Ok(AccessArray(ce, ie))
    case CoreAssignment(l, r, op) =>
      var le :- ToIntermediateExpression(s, l, fuel);
      var re :- ToIntermediateExpression(s, r, fuel);
      Ok(Assignment(le, re, op))
    case CoreBinary(l, r, op) =>
      var le :- ToIntermediateExpression(s, l, fuel);
      var re :- ToIntermediateExpression(s, r, fuel);
      Ok(Binary(le, re, op))
    case CoreUnary(c, op) =>
      var ce :- ToIntermediateExpression(s, c, fuel);
      Ok(Unary(ce, op))
    case CoreParenthesis(c) =>
      var ce :- ToIntermediateExpression(s, c, fuel);
      Ok(Parenthesis(ce))
    case CoreCall(c, args) =>
      var ce :- ToIntermediateExpression(s, c, fuel);
      var arguments :- ToIntermediateArguments(s, args.elements, fuel);
      Ok(Call(ce, arguments))
    case CoreReturn(r) =>
      if r.None? then Ok(Return(None))
      else
        var re :- ToIntermediateExpression(s, r.value, fuel);
        Ok(Return(Some(re)))
    case CoreConstant(t, d) =>
      var it :- ToIntermediateTypeReference(t);
      Ok(Constant(it, d))
    case CoreBreak(n) => Ok(Break(n))
    case CoreContinue => Ok(Continue)
    case CoreNullPointer => Ok(NullPointer)
    case CoreBlock(ss) =>
      var statements :- ToIntermediateStatements(ss.elements);
      Ok(Block(statements))
  }

  /** The call arguments at `indices`, decoded in order. */
  function ToIntermediateArguments(s: CoreStatement, indices: seq<int>, fuel: nat): Result<seq<Expression>>
    decreases s, fuel, 1, |indices| + 1
  {
    if |indices| == 0 then Ok([])
    else
      var e :- ToIntermediateExpression(s, indices[0], fuel);
      var rest :- ToIntermediateArguments(s, indices[1..], fuel);
      Ok([e] + rest)
  }

  // ----- Layout of the flat array -----

  /** The node at slot `index` is filled in, refers only to later slots
      below `limit`, and its vectors' `size` fields equal their lengths. */
  predicate NodeForward(n: CoreExpression, index: int, limit: int) {
    && n.data != Placeholder
    && (forall c :: c in Children(n.data) ==> index < c < limit)
    && (n.data.CoreCall? ==> n.data.arguments.size == |n.data.arguments.elements|)
    && (n.data.CoreBlock? ==> n.data.statements.size == |n.data.statements.elements|)
  }

  /** Every node of `f`, laid out from slot `base`, is `NodeForward`. */
  predicate Forward(f: seq<CoreExpression>, base: int, limit: int) {
    forall k :: 0 <= k < |f| ==> NodeForward(f[k], base + k, limit)
  }

  lemma ForwardConcat(a: seq<CoreExpression>, b: seq<CoreExpression>, base: int, limit: int)
    requires Forward(a, base, limit) && Forward(b, base + |a|, limit)
    ensures Forward(a + b, base, limit)
  {
    forall k | 0 <= k < |a + b|
      ensures NodeForward((a + b)[k], base + k, limit)
    {
      if k >= |a| {
        assert (a + b)[k] == b[k - |a|];
      } else {
        assert (a + b)[k] == a[k];
      }
    }
  }

  lemma ForwardWiden(a: seq<CoreExpression>, base: int, limit: int, limit': int)
    requires Forward(a, base, limit) && limit <= limit'
    ensures Forward(a, base, limit')
  {
    forall k | 0 <= k < |a| ensures NodeForward(a[k], base + k, limit') {
      assert NodeForward(a[k], base + k, limit);
    }
  }

  /** A node followed by the encodings of its (up to two) children. */
  lemma NodeThenChildren(node: CoreExpression, f1: seq<CoreExpression>, f2: seq<CoreExpression>, base: int)
    requires NodeForward(node, base, base + 1 + |f1| + |f2|)
    requires Forward(f1, base + 1, base + 1 + |f1|)
    requires Forward(f2, base + 1 + |f1|, base + 1 + |f1| + |f2|)
    ensures Forward([node] + f1 + f2, base, base + 1 + |f1| + |f2|)
  {
    var limit := base + 1 + |f1| + |f2|;
    ForwardWiden(f1, base + 1, base + 1 + |f1|, limit);
    ForwardConcat(f1, f2, base + 1, limit);
    assert Forward([node], base, limit);
    ForwardConcat([node], f1 + f2, base, limit);
    assert [node] + f1 + f2 == [node] + (f1 + f2);
  }

  lemma {:induction false} ArgumentIndicesRange(args: seq<Expression>, base: int)
    ensures forall c :: c in ArgumentIndices(args, base) ==> base <= c < base + |FlattenArguments(args, base)|
    decreases args
  {
    if |args| > 0 {
      ArgumentIndicesRange(args[1..], base + |FlattenExpression(args[0], base)|);
    }
  }

  /** Every child index an encoder writes is strictly greater than the index
      of its parent and lies inside the part of the array the encoding of
      the whole expression occupies; no placeholder survives; and the size of
      a call's argument vector is the number of argument indices pushed. */
  lemma {:induction false} FlattenLayout(e: Expression, base: int)
    ensures Forward(FlattenExpression(e, base), base, base + |FlattenExpression(e, base)|)
    decreases e, 1
  {
    match e.data
    case Access(_, _, _) => AccessLayout(e, base);
    case Unary(_, _) => UnaryLayout(e, base);
    case Parenthesis(_) => ParenthesisLayout(e, base);
    case Return(r) => if r.Some? { ReturnLayout(e, base); } else { LeafLayout(e, base); }
    case AccessArray(_, _) => AccessArrayLayout(e, base);
    case Assignment(_, _, _) => AssignmentLayout(e, base);
    case Binary(_, _, _) => BinaryLayout(e, base);
    case Call(_, _) =>
      FlattenLayout(e.data.expression, base + 1);
      ArgumentsLayout(e.data.arguments, base + 1 + |FlattenExpression(e.data.expression, base + 1)|);
      CallLayout(e, base);
    case _ => LeafLayout(e, base);
  }

  /** A node whose children are encoded right after it. */
  lemma NodeWithChildren(f: seq<CoreExpression>, node: CoreExpression, f1: seq<CoreExpression>, f2: seq<CoreExpression>, base: int)
    requires f == [node] + f1 + f2
    requires NodeForward(node, base, base + |f|)
    requires Forward(f1, base + 1, base + 1 + |f1|)
    requires Forward(f2, base + 1 + |f1|, base + 1 + |f1| + |f2|)
    ensures Forward(f, base, base + |f|)
  {
    NodeThenChildren(node, f1, f2, base);
  }

  lemma {:induction false} AccessLayout(e: Expression, base: int)
    requires e.data.Access?
    ensures Forward(FlattenExpression(e, base), base, base + |FlattenExpression(e, base)|)
    decreases e, 0
  {
    var f1 := FlattenExpression(e.data.expression, base + 1);
    var node := CoreExpression(CoreAccess(base + 1, e.data.memberName, e.data.accessType), e.sourcePosition);
    assert FlattenExpression(e, base) == [node] + f1 + [];
    FlattenLayout(e.data.expression, base + 1);
    NodeWithChildren(FlattenExpression(e, base), node, f1, [], base);
  }

  lemma {:induction false} UnaryLayout(e: Expression, base: int)
    requires e.data.Unary?
    ensures Forward(FlattenExpression(e, base), base, base + |FlattenExpression(e, base)|)
    decreases e, 0
  {
    var f1 := FlattenExpression(e.data.expression, base + 1);
    var node := CoreExpression(CoreUnary(base + 1, e.data.unaryOperation), e.sourcePosition);
    assert FlattenExpression(e, base) == [node] + f1 + [];
    FlattenLayout(e.data.expression, base + 1);
    NodeWithChildren(FlattenExpression(e, base), node, f1, [], base);
  }

  lemma {:induction false} ParenthesisLayout(e: Expression, base: int)
    requires e.data.Parenthesis?
    ensures Forward(FlattenExpression(e, base), base, base + |FlattenExpression(e, base)|)
    decreases e, 0
  {
    var f1 := FlattenExpression(e.data.expression, base + 1);
    var node := CoreExpression(CoreParenthesis(base + 1), e.sourcePosition);
    assert FlattenExpression(e, base) == [node] + f1 + [];
    FlattenLayout(e.data.expression, base + 1);
    NodeWithChildren(FlattenExpression(e, base), node, f1, [], base);
  }

  lemma {:induction false} ReturnLayout(e: Expression, base: int)
    requires e.data.Return? && e.data.returned.Some?
    ensures Forward(FlattenExpression(e, base), base, base + |FlattenExpression(e, base)|)
    decreases e, 0
  {
    var f1 := FlattenExpression(e.data.returned.value, base + 1);
    var node := CoreExpression(CoreReturn(Some(base + 1)), e.sourcePosition);
    assert FlattenExpression(e, base) == [node] + f1 + [];
    FlattenLayout(e.data.returned.value, base + 1);
    NodeWithChildren(FlattenExpression(e, base), node, f1, [], base);
  }

  lemma {:induction false} AccessArrayLayout(e: Expression, base: int)
    requires e.data.AccessArray?
    ensures Forward(FlattenExpression(e, base), base, base + |FlattenExpression(e, base)|)
    decreases e, 0
  {
    var f1 := FlattenExpression(e.data.expression, base + 1);
    var f2 := FlattenExpression(e.data.index, base + 1 + |f1|);
    var node := CoreExpression(CoreAccessArray(base + 1, base + 1 + |f1|), e.sourcePosition);
    assert FlattenExpression(e, base) == [node] + f1 + f2;
    FlattenLayout(e.data.expression, base + 1);
    FlattenLayout(e.data.index, base + 1 + |f1|);
    NodeWithChildren(FlattenExpression(e, base), node, f1, f2, base);
  }

  lemma {:induction false} AssignmentLayout(e: Expression, base: int)
    requires e.data.Assignment?
    ensures Forward(FlattenExpression(e, base), base, base + |FlattenExpression(e, base)|)
    decreases e, 0
  {
    var f1 := FlattenExpression(e.data.leftHandSide, base + 1);
    var f2 := FlattenExpression(e.data.rightHandSide, base + 1 + |f1|);
    var node := CoreExpression(CoreAssignment(base + 1, base + 1 + |f1|, e.data.additionalOperation), e.sourcePosition);
    assert FlattenExpression(e, base) == [node] + f1 + f2;
    FlattenLayout(e.data.leftHandSide, base + 1);
    FlattenLayout(e.data.rightHandSide, base + 1 + |f1|);
    NodeWithChildren(FlattenExpression(e, base), node, f1, f2, base);
  }

  lemma {:induction false} BinaryLayout(e: Expression, base: int)
    requires e.data.Binary?
    ensures Forward(FlattenExpression(e, base), base, base + |FlattenExpression(e, base)|)
    decreases e, 0
  {
    var f1 := FlattenExpression(e.data.leftHandSide, base + 1);
    var f2 := FlattenExpression(e.data.rightHandSide, base + 1 + |f1|);
    var node := CoreExpression(CoreBinary(base + 1, base + 1 + |f1|, e.data.operation), e.sourcePosition);
    assert FlattenExpression(e, base) == [node] + f1 + f2;
    FlattenLayout(e.data.leftHandSide, base + 1);
    FlattenLayout(e.data.rightHandSide, base + 1 + |f1|);
    NodeWithChildren(FlattenExpression(e, base), node, f1, f2, base);
  }

  lemma CallLayout(e: Expression, base: int)
    requires e.data.Call?
    requires var c := e.data.expression;
      Forward(FlattenExpression(c, base + 1), base + 1, base + 1 + |FlattenExpression(c, base + 1)|)
    requires var b2 := base + 1 + |FlattenExpression(e.data.expression, base + 1)|;
      Forward(FlattenArguments(e.data.arguments, b2), b2, b2 + |FlattenArguments(e.data.arguments, b2)|)
    ensures Forward(FlattenExpression(e, base), base, base + |FlattenExpression(e, base)|)
  {
    var c, args := e.data.expression, e.data.arguments;
    var f := FlattenExpression(e, base);
    var f1 := FlattenExpression(c, base + 1);
    CallEncoding(e, base);
    ArgumentIndicesRange(args, base + 1 + |f1|);
    NodeThenChildren(f[0], f1, FlattenArguments(args, base + 1 + |f1|), base);
  }

  /** The encoding of a call is its node, the encoding of the callee and the
      encodings of the arguments; its argument vector lists where each
      argument's encoding starts. */
  lemma CallEncoding(e: Expression, base: int)
    requires e.data.Call?
    ensures var f := FlattenExpression(e, base);
      var f1 := FlattenExpression(e.data.expression, base + 1);
      var argumentsBase := base + 1 + |f1|;
      && f == [f[0]] + f1 + FlattenArguments(e.data.arguments, argumentsBase)
      && f[0] == CoreExpression(CoreCall(base + 1, ToVector(ArgumentIndices(e.data.arguments, argumentsBase))), e.sourcePosition)
  {
  }

  /** An expression without child expressions is encoded as a single node. */
  lemma LeafLayout(e: Expression, base: int)
    requires !(e.data.Access? || e.data.Unary? || e.data.Parenthesis? || e.data.Return?
               || e.data.AccessArray? || e.data.Assignment? || e.data.Binary? || e.data.Call?)
             || (e.data.Return? && e.data.returned.None?)
    ensures Forward(FlattenExpression(e, base), base, base + |FlattenExpression(e, base)|)
  {
    assert FlattenChildren(e.data, base) == [];
    assert Children(NodeData(e.data, base)) == [];
  }

  lemma {:induction false} ArgumentsLayout(args: seq<Expression>, base: int)
    ensures Forward(FlattenArguments(args, base), base, base + |FlattenArguments(args, base)|)
    decreases args, 0
  {
    if |args| > 0 {
      var f := FlattenExpression(args[0], base);
      var rest := FlattenArguments(args[1..], base + |f|);
      FlattenLayout(args[0], base);
      ArgumentsLayout(args[1..], base + |f|);
      ForwardWiden(f, base, base + |f|, base + |f| + |rest|);
      ForwardConcat(f, rest, base, base + |f| + |rest|);
    }
  }

  /** Encoding a statement puts the root expression at index 0: slot 0
      carries the root's source position, no slot refers back to it, and the
      array is laid out forward. */
  lemma StatementLayout(s: Statement)
    ensures var elements := ToCoreStatement(s).expressions.elements;
      && elements[0].sourcePosition == s.expression.sourcePosition
      && Forward(elements, 0, |elements|)
      && forall k, c :: 0 <= k < |elements| && c in Children(elements[k].data) ==> c != 0
  {
    FlattenLayout(s.expression, 0);
  }

  // ----- Round trips -----

  /** `f` occupies the slots `base ..` of the statement's array. */
  predicate LaidOutAt(s: CoreStatement, f: seq<CoreExpression>, base: int) {
    0 <= base && base + |f| <= |s.expressions.elements| && s.expressions.elements[base..base + |f|] == f
  }

  lemma LaidOutSplit(s: CoreStatement, a: seq<CoreExpression>, b: seq<CoreExpression>, base: int)
    requires LaidOutAt(s, a + b, base)
    ensures LaidOutAt(s, a, base) && LaidOutAt(s, b, base + |a|)
  {
    var e := s.expressions.elements;
    assert e[base..base + |a|] == (a + b)[..|a|];
    assert e[base + |a|..base + |a| + |b|] == (a + b)[|a|..];
  }

  lemma LaidOutHead(s: CoreStatement, f: seq<CoreExpression>, base: int)
    requires LaidOutAt(s, f, base) && |f| > 0
    ensures s.expressions.elements[base] == f[0]
  {
    assert s.expressions.elements[base..base + |f|][0] == f[0];
  }

  /** The slots of a node followed by the encodings of its children. */
  lemma NodeSlots(s: CoreStatement, f: seq<CoreExpression>, node: CoreExpression, f1: seq<CoreExpression>, f2: seq<CoreExpression>, base: int)
    requires f == [node] + f1 + f2 && LaidOutAt(s, f, base)
    ensures s.expressions.elements[base] == node
    ensures LaidOutAt(s, f1, base + 1) && LaidOutAt(s, f2, base + 1 + |f1|)
  {
    assert f == [node] + (f1 + f2);
    LaidOutHead(s, f, base);
    LaidOutSplit(s, [node], f1 + f2, base);
    LaidOutSplit(s, f1, f2, base + 1);
  }

  // Single decoding steps: the node at `index` and its decoded children give
  // the decoded expression.

  lemma DecodeAccessStep(s: CoreStatement, index: int, fuel: nat, p: Option<SourcePosition>, c: int, m: string, a: AccessType, ce: Expression)
    requires fuel > 0 && 0 <= index < |s.expressions.elements|
    requires s.expressions.elements[index] == CoreExpression(CoreAccess(c, m, a), p)
    requires ToIntermediateExpression(s, c, fuel - 1) == Ok(ce)
    ensures ToIntermediateExpression(s, index, fuel) == Ok(Expression(Access(ce, m, a), p))
  {
    assert ToIntermediateExpressionData(s, index, fuel - 1) == Ok(Access(ce, m, a));
  }

  lemma DecodeUnaryStep(s: CoreStatement, index: int, fuel: nat, p: Option<SourcePosition>, c: int, op: UnaryOperation, ce: Expression)
    requires fuel > 0 && 0 <= index < |s.expressions.elements|
    requires s.expressions.elements[index] == CoreExpression(CoreUnary(c, op), p)
    requires ToIntermediateExpression(s, c, fuel - 1) == Ok(ce)
    ensures ToIntermediateExpression(s, index, fuel) == Ok(Expression(Unary(ce, op), p))
  {
    assert ToIntermediateExpressionData(s, index, fuel - 1) == Ok(Unary(ce, op));
  }

  lemma DecodeParenthesisStep(s: CoreStatement, index: int, fuel: nat, p: Option<SourcePosition>, c: int, ce: Expression)
    requires fuel > 0 && 0 <= index < |s.expressions.elements|
    requires s.expressions.elements[index] == CoreExpression(CoreParenthesis(c), p)
    requires ToIntermediateExpression(s, c, fuel - 1) == Ok(ce)
    ensures ToIntermediateExpression(s, index, fuel) == Ok(Expression(Parenthesis(ce), p))
  {
    assert ToIntermediateExpressionData(s, index, fuel - 1) == Ok(Parenthesis(ce));
  }

  lemma DecodeAccessArrayStep(s: CoreStatement, index: int, fuel: nat, p: Option<SourcePosition>, c: int, i: int, ce: Expression, ie: Expression)
    requires fuel > 0 && 0 <= index < |s.expressions.elements|
    requires s.expressions.elements[index] == CoreExpression(CoreAccessArray(c, i), p)
    requires ToIntermediateExpression(s, c, fuel - 1) == Ok(ce)
    requires ToIntermediateExpression(s, i, fuel - 1) == Ok(ie)
    ensures ToIntermediateExpression(s, index, fuel) == Ok(Expression(AccessArray(ce, ie), p))
  {
    assert ToIntermediateExpressionData(s, index, fuel - 1) == Ok(AccessArray(ce, ie));
  }

  lemma DecodeAssignmentStep(s: CoreStatement, index: int, fuel: nat, p: Option<SourcePosition>, c: int, i: int, op: Option<BinaryOperation>, ce: Expression, ie: Expression)
    requires fuel > 0 && 0 <= index < |s.expressions.elements|
    requires s.expressions.elements[index] == CoreExpression(CoreAssignment(c, i, op), p)
    requires ToIntermediateExpression(s, c, fuel - 1) == Ok(ce)
    requires ToIntermediateExpression(s, i, fuel - 1) == Ok(ie)
    ensures ToIntermediateExpression(s, index, fuel) == Ok(Expression(Assignment(ce, ie, op), p))
  {
    assert ToIntermediateExpressionData(s, index, fuel - 1) == Ok(Assignment(ce, ie, op));
  }

  lemma DecodeBinaryStep(s: CoreStatement, index: int, fuel: nat, p: Option<SourcePosition>, c: int, i: int, op: BinaryOperation, ce: Expression, ie: Expression)
    requires fuel > 0 && 0 <= index < |s.expressions.elements|
    requires s.expressions.elements[index] == CoreExpression(CoreBinary(c, i, op), p)
    requires ToIntermediateExpression(s, c, fuel - 1) == Ok(ce)
    requires ToIntermediateExpression(s, i, fuel - 1) == Ok(ie)
    ensures ToIntermediateExpression(s, index, fuel) == Ok(Expression(Binary(ce, ie, op), p))
  {
    assert ToIntermediateExpressionData(s, index, fuel - 1) == Ok(Binary(ce, ie, op));
  }

  lemma DecodeReturnStep(s: CoreStatement, index: int, fuel: nat, p: Option<SourcePosition>, c: int, ce: Expression)
    requires fuel > 0 && 0 <= index < |s.expressions.elements|
    requires s.expressions.elements[index] == CoreExpression(CoreReturn(Some(c)), p)
    requires ToIntermediateExpression(s, c, fuel - 1) == Ok(ce)
    ensures ToIntermediateExpression(s, index, fuel) == Ok(Expression(Return(Some(ce)), p))
  {
    assert ToIntermediateExpressionData(s, index, fuel - 1) == Ok(Return(Some(ce)));
  }

  lemma DecodeCallStep(s: CoreStatement, index: int, fuel: nat, p: Option<SourcePosition>, c: int, args: Vector<int>,
                       ce: Expression, arguments: seq<Expression>)
    requires fuel > 0 && 0 <= index < |s.expressions.elements|
    requires s.expressions.elements[index] == CoreExpression(CoreCall(c, args), p)
    requires ToIntermediateExpression(s, c, fuel - 1) == Ok(ce)
    requires ToIntermediateArguments(s, args.elements, fuel - 1) == Ok(arguments)
    ensures ToIntermediateExpression(s, index, fuel) == Ok(Expression(Call(ce, arguments), p))
  {
    assert ToIntermediateExpressionData(s, index, fuel - 1) == Ok(Call(ce, arguments));
  }

  /** Decoding the slot where an expression's encoding starts gives the
      expression back, given as much fuel as the encoding has slots. */
  lemma {:induction false} FlattenRoundTrip(s: CoreStatement, e: Expression, base: int, fuel: nat)
    requires LaidOutAt(s, FlattenExpression(e, base), base)
    requires fuel >= |FlattenExpression(e, base)|
    ensures ToIntermediateExpression(s, base, fuel) == Ok(e)
    decreases e, 1
  {
    match e.data
    case Access(_, _, _) => AccessRoundTrip(s, e, base, fuel);
    case Unary(_, _) => UnaryRoundTrip(s, e, base, fuel);
    case Parenthesis(_) => ParenthesisRoundTrip(s, e, base, fuel);
    case Return(r) => ReturnRoundTrip(s, e, base, fuel);
    case AccessArray(_, _) => AccessArrayRoundTrip(s, e, base, fuel);
    case Assignment(_, _, _) => AssignmentRoundTrip(s, e, base, fuel);
    case Binary(_, _, _) => BinaryRoundTrip(s, e, base, fuel);
    case Call(_, _) => CallRoundTrip(s, e, base, fuel);
    case Constant(t, _) =>
      TypeReferenceRoundTrip(t);
      ConstantRoundTrip(s, e, base, fuel);
    case Block(ss) =>
      StatementsRoundTrip(ss);
      BlockRoundTrip(s, e, base, fuel);
    case _ =>
      LaidOutHead(s, FlattenExpression(e, base), base);
      assert ToIntermediateExpressionData(s, base, fuel - 1) == Ok(e.data);
  }

  /** A constant sits in one slot. */
  lemma ConstantRoundTrip(s: CoreStatement, e: Expression, base: int, fuel: nat)
    requires e.data.Constant?
    requires ToIntermediateTypeReference(ToCoreTypeReference(e.data.constantType)) == Ok(e.data.constantType)
    requires LaidOutAt(s, FlattenExpression(e, base), base)
    requires fuel >= |FlattenExpression(e, base)|
    ensures ToIntermediateExpression(s, base, fuel) == Ok(e)
  {
    LaidOutHead(s, FlattenExpression(e, base), base);
    assert s.expressions.elements[base] == CoreExpression(CoreConstant(ToCoreTypeReference(e.data.constantType), e.data.data), e.sourcePosition);
    DecodeConstantStep(s, base, fuel, e.sourcePosition, ToCoreTypeReference(e.data.constantType), e.data.data, e.data.constantType);
  }

  lemma DecodeConstantStep(s: CoreStatement, index: int, fuel: nat, p: Option<SourcePosition>, ct: CoreTypeReference, d: string, t: TypeReference)
    requires fuel > 0 && 0 <= index < |s.expressions.elements|
    requires s.expressions.elements[index] == CoreExpression(CoreConstant(ct, d), p)
    requires ToIntermediateTypeReference(ct) == Ok(t)
    ensures ToIntermediateExpression(s, index, fuel) == Ok(Expression(Constant(t, d), p))
  {
    assert ToIntermediateExpressionData(s, index, fuel - 1) == Ok(Constant(t, d));
  }

  /** A block sits in one slot, its statements encoded inside it. */
  lemma BlockRoundTrip(s: CoreStatement, e: Expression, base: int, fuel: nat)
    requires e.data.Block?
    requires ToIntermediateStatements(ToCoreStatements(e.data.statements)) == Ok(e.data.statements)
    requires LaidOutAt(s, FlattenExpression(e, base), base)
    requires fuel >= |FlattenExpression(e, base)|
    ensures ToIntermediateExpression(s, base, fuel) == Ok(e)
  {
    LaidOutHead(s, FlattenExpression(e, base), base);
    var cs := ToVector(ToCoreStatements(e.data.statements));
    assert s.expressions.elements[base] == CoreExpression(CoreBlock(cs), e.sourcePosition);
    DecodeBlockStep(s, base, fuel, e.sourcePosition, cs, e.data.statements);
  }

  lemma DecodeBlockStep(s: CoreStatement, index: int, fuel: nat, p: Option<SourcePosition>, cs: Vector<CoreStatement>, ss: seq<Statement>)
    requires fuel > 0 && 0 <= index < |s.expressions.elements|
    requires s.expressions.elements[index] == CoreExpression(CoreBlock(cs), p)
    requires ToIntermediateStatements(cs.elements) == Ok(ss)
    ensures ToIntermediateExpression(s, index, fuel) == Ok(Expression(Block(ss), p))
  {
    assert ToIntermediateExpressionData(s, index, fuel - 1) == Ok(Block(ss));
  }

  lemma {:induction false} AccessRoundTrip(s: CoreStatement, e: Expression, base: int, fuel: nat)
    requires e.data.Access?
    requires LaidOutAt(s, FlattenExpression(e, base), base)
    requires fuel >= |FlattenExpression(e, base)|
    ensures ToIntermediateExpression(s, base, fuel) == Ok(e)
    decreases e, 0
  {
    var f1 := FlattenExpression(e.data.expression, base + 1);
    var node := CoreExpression(CoreAccess(base + 1, e.data.memberName, e.data.accessType), e.sourcePosition);
    assert NodeData(e.data, base) == node.data && FlattenChildren(e.data, base) == f1;
    NodeSlots(s, FlattenExpression(e, base), node, f1, [], base);
    FlattenRoundTrip(s, e.data.expression, base + 1, fuel - 1);
    DecodeAccessStep(s, base, fuel, e.sourcePosition, base + 1, e.data.memberName, e.data.accessType, e.data.expression);
  }

  lemma {:induction false} UnaryRoundTrip(s: CoreStatement, e: Expression, base: int, fuel: nat)
    requires e.data.Unary?
    requires LaidOutAt(s, FlattenExpression(e, base), base)
    requires fuel >= |FlattenExpression(e, base)|
    ensures ToIntermediateExpression(s, base, fuel) == Ok(e)
    decreases e, 0
  {
    var f1 := FlattenExpression(e.data.expression, base + 1);
    var node := CoreExpression(CoreUnary(base + 1, e.data.unaryOperation), e.sourcePosition);
    assert NodeData(e.data, base) == node.data && FlattenChildren(e.data, base) == f1;
    NodeSlots(s, FlattenExpression(e, base), node, f1, [], base);
    FlattenRoundTrip(s, e.data.expression, base + 1, fuel - 1);
    DecodeUnaryStep(s, base, fuel, e.sourcePosition, base + 1, e.data.unaryOperation, e.data.expression);
  }

  lemma {:induction false} ParenthesisRoundTrip(s: CoreStatement, e: Expression, base: int, fuel: nat)
    requires e.data.Parenthesis?
    requires LaidOutAt(s, FlattenExpression(e, base), base)
    requires fuel >= |FlattenExpression(e, base)|
    ensures ToIntermediateExpression(s, base, fuel) == Ok(e)
    decreases e, 0
  {
    var f1 := FlattenExpression(e.data.expression, base + 1);
    var node := CoreExpression(CoreParenthesis(base + 1), e.sourcePosition);
    assert NodeData(e.data, base) == node.data && FlattenChildren(e.data, base) == f1;
    NodeSlots(s, FlattenExpression(e, base), node, f1, [], base);
    FlattenRoundTrip(s, e.data.expression, base + 1, fuel - 1);
    DecodeParenthesisStep(s, base, fuel, e.sourcePosition, base + 1, e.data.expression);
  }

  lemma {:induction false} ReturnRoundTrip(s: CoreStatement, e: Expression, base: int, fuel: nat)
    requires e.data.Return?
    requires LaidOutAt(s, FlattenExpression(e, base), base)
    requires fuel >= |FlattenExpression(e, base)|
    ensures ToIntermediateExpression(s, base, fuel) == Ok(e)
    decreases e, 0
  {
    if e.data.returned.Some? {
      var f1 := FlattenExpression(e.data.returned.value, base + 1);
      var node := CoreExpression(CoreReturn(Some(base + 1)), e.sourcePosition);
      NodeSlots(s, FlattenExpression(e, base), node, f1, [], base);
      FlattenRoundTrip(s, e.data.returned.value, base + 1, fuel - 1);
      DecodeReturnStep(s, base, fuel, e.sourcePosition, base + 1, e.data.returned.value);
    } else {
      LaidOutHead(s, FlattenExpression(e, base), base);
      assert ToIntermediateExpressionData(s, base, fuel - 1) == Ok(e.data);
    }
  }

  lemma {:induction false} AccessArrayRoundTrip(s: CoreStatement, e: Expression, base: int, fuel: nat)
    requires e.data.AccessArray?
    requires LaidOutAt(s, FlattenExpression(e, base), base)
    requires fuel >= |FlattenExpression(e, base)|
    ensures ToIntermediateExpression(s, base, fuel) == Ok(e)
    decreases e, 0
  {
    var f1 := FlattenExpression(e.data.expression, base + 1);
    var f2 := FlattenExpression(e.data.index, base + 1 + |f1|);
    var node := CoreExpression(CoreAccessArray(base + 1, base + 1 + |f1|), e.sourcePosition);
    assert FlattenExpression(e, base) == [node] + f1 + f2 by {
      assert NodeData(e.data, base) == node.data && FlattenChildren(e.data, base) == f1 + f2;
    }
    NodeSlots(s, FlattenExpression(e, base), node, f1, f2, base);
    FlattenRoundTrip(s, e.data.expression, base + 1, fuel - 1);
    FlattenRoundTrip(s, e.data.index, base + 1 + |f1|, fuel - 1);
    DecodeAccessArrayStep(s, base, fuel, e.sourcePosition, base + 1, base + 1 + |f1|, e.data.expression, e.data.index);
  }

  lemma {:induction false} AssignmentRoundTrip(s: CoreStatement, e: Expression, base: int, fuel: nat)
    requires e.data.Assignment?
    requires LaidOutAt(s, FlattenExpression(e, base), base)
    requires fuel >= |FlattenExpression(e, base)|
    ensures ToIntermediateExpression(s, base, fuel) == Ok(e)
    decreases e, 0
  {
    var f1 := FlattenExpression(e.data.leftHandSide, base + 1);
    var f2 := FlattenExpression(e.data.rightHandSide, base + 1 + |f1|);
    var node := CoreExpression(CoreAssignment(base + 1, base + 1 + |f1|, e.data.additionalOperation), e.sourcePosition);
    assert FlattenExpression(e, base) == [node] + f1 + f2 by {
      assert NodeData(e.data, base) == node.data && FlattenChildren(e.data, base) == f1 + f2;
    }
    NodeSlots(s, FlattenExpression(e, base), node, f1, f2, base);
    FlattenRoundTrip(s, e.data.leftHandSide, base + 1, fuel - 1);
    FlattenRoundTrip(s, e.data.rightHandSide, base + 1 + |f1|, fuel - 1);
    DecodeAssignmentStep(s, base, fuel, e.sourcePosition, base + 1, base + 1 + |f1|, e.data.additionalOperation, e.data.leftHandSide, e.data.rightHandSide);
  }

  lemma {:induction false} BinaryRoundTrip(s: CoreStatement, e: Expression, base: int, fuel: nat)
    requires e.data.Binary?
    requires LaidOutAt(s, FlattenExpression(e, base), base)
    requires fuel >= |FlattenExpression(e, base)|
    ensures ToIntermediateExpression(s, base, fuel) == Ok(e)
    decreases e, 0
  {
    var f1 := FlattenExpression(e.data.leftHandSide, base + 1);
    var f2 := FlattenExpression(e.data.rightHandSide, base + 1 + |f1|);
    var node := CoreExpression(CoreBinary(base + 1, base + 1 + |f1|, e.data.operation), e.sourcePosition);
    assert FlattenExpression(e, base) == [node] + f1 + f2 by {
      assert NodeData(e.data, base) == node.data && FlattenChildren(e.data, base) == f1 + f2;
    }
    NodeSlots(s, FlattenExpression(e, base), node, f1, f2, base);
    FlattenRoundTrip(s, e.data.leftHandSide, base + 1, fuel - 1);
    FlattenRoundTrip(s, e.data.rightHandSide, base + 1 + |f1|, fuel - 1);
    DecodeBinaryStep(s, base, fuel, e.sourcePosition, base + 1, base + 1 + |f1|, e.data.operation, e.data.leftHandSide, e.data.rightHandSide);
  }

  lemma {:induction false} CallRoundTrip(s: CoreStatement, e: Expression, base: int, fuel: nat)
    requires e.data.Call?
    requires LaidOutAt(s, FlattenExpression(e, base), base)
    requires fuel >= |FlattenExpression(e, base)|
    ensures ToIntermediateExpression(s, base, fuel) == Ok(e)
    decreases e, 0
  {
    var f1 := FlattenExpression(e.data.expression, base + 1);
    var f2 := FlattenArguments(e.data.arguments, base + 1 + |f1|);
    var f := FlattenExpression(e, base);
    CallEncoding(e, base);
    assert |f| == 1 + |f1| + |f2|;
    NodeSlots(s, f, f[0], f1, f2, base);
    FlattenRoundTrip(s, e.data.expression, base + 1, fuel - 1);
    ArgumentsRoundTrip(s, e.data.arguments, base + 1 + |f1|, fuel - 1);
    DecodeCallStep(s, base, fuel, e.sourcePosition, base + 1, ToVector(ArgumentIndices(e.data.arguments, base + 1 + |f1|)),
      e.data.expression, e.data.arguments);
  }

  lemma {:induction false} ArgumentsRoundTrip(s: CoreStatement, args: seq<Expression>, base: int, fuel: nat)
    requires LaidOutAt(s, FlattenArguments(args, base), base)
    requires fuel >= |FlattenArguments(args, base)|
    ensures ToIntermediateArguments(s, ArgumentIndices(args, base), fuel) == Ok(args)
    decreases args, 1
  {
    if |args| > 0 {
      var f := FlattenExpression(args[0], base);
      LaidOutSplit(s, f, FlattenArguments(args[1..], base + |f|), base);
      FlattenRoundTrip(s, args[0], base, fuel);
      ArgumentsRoundTrip(s, args[1..], base + |f|, fuel);
      assert ArgumentIndices(args, base)[1..] == ArgumentIndices(args[1..], base + |f|);
      assert [args[0]] + args[1..] == args;
    }
  }

  /** Decoding an encoded statement gives back the original expression tree. */
  lemma {:induction false} StatementRoundTrip(st: Statement)
    ensures ToIntermediateStatement(ToCoreStatement(st)) == Ok(st)
    decreases st, 1
  {
    var cs := ToCoreStatement(st);
    var f := FlattenExpression(st.expression, 0);
    assert cs.expressions.elements[0..|f|] == f;
    FlattenRoundTrip(cs, st.expression, 0, |f|);
  }

  lemma {:induction false} StatementsRoundTrip(ss: seq<Statement>)
    ensures ToIntermediateStatements(ToCoreStatements(ss)) == Ok(ss)
    decreases ss, 1
  {
    if |ss| > 0 {
      StatementRoundTrip(ss[0]);
      StatementsRoundTrip(ss[1..]);
      assert ToCoreStatements(ss)[1..] == ToCoreStatements(ss[1..]);
      assert [ss[0]] + ss[1..] == ss;
    }
  }

  /** Type references round-trip through the core form. */
  lemma {:induction false} TypeReferenceRoundTrip(t: TypeReference)
    ensures ToIntermediateTypeReference(ToCoreTypeReference(t)) == Ok(t)
    decreases t, 1
  {
    match t
    case ConstantArrayType(vt, _) => TypeReferencesRoundTrip(vt);
    case FunctionPointerType(ft, _, _) =>
      TypeReferencesRoundTrip(ft.inputParameterTypes);
      TypeReferencesRoundTrip(ft.outputParameterTypes);
    case PointerType(et, _) => TypeReferencesRoundTrip(et);
    case TypeInstance(_, args) => StatementsRoundTrip(args);
    case _ =>
  }

  lemma {:induction false} TypeReferencesRoundTrip(ts: seq<TypeReference>)
    ensures ToIntermediateTypeReferences(ToCoreTypeReferences(ts)) == Ok(ts)
    decreases ts, 1
  {
    if |ts| > 0 {
      TypeReferenceRoundTrip(ts[0]);
      TypeReferencesRoundTrip(ts[1..]);
      assert ToCoreTypeReferences(ts)[1..] == ToCoreTypeReferences(ts[1..]);
      assert [ts[0]] + ts[1..] == ts;
    }
  }
}
