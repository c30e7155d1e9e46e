/** The control helpers of the compiler's code generator
    (Source/Compiler/Expressions.cpp) that do not depend on LLVM: the
    search for the target block of `break` and `continue`, the defer
    stacks and the order in which deferred expressions run, variable
    lookup in a function's scope, terminator detection, the choice of cast
    instruction, string-literal escapes and the number of basic blocks of
    an if chain. Basic blocks and LLVM values are opaque numbers. */
module CodeGenerationControl {
  import opened Wrappers
  import opened Operations
  import opened Strings
  import opened CompilerTypes
  import CompilerValidation
  import CompilerStatementValidation
  import PT = ParseTreeMappings

  // ----- Statements as the code generator sees them -----

  datatype Expression =
    | BreakExpression(loopCount: nat)
    | ContinueExpression
    | ReturnExpression
    | DeferExpression(expressionToDefer: nat)
    | ConstantExpression(constantType: TypeReference, data: string)
    | OtherExpression

  datatype Statement = Statement(expressions: seq<Expression>)

  // ----- Blocks -----

  datatype BlockType = NoBlock | ForLoop | IfBlock | Switch | WhileLoop

  /** `Block_info`: the kind of block and the basic blocks a `continue`
      (`repeatBlock`) or a `break` (`afterBlock`) jumps to. */
  datatype BlockInfo = BlockInfo(blockType: BlockType, repeatBlock: Option<nat>, afterBlock: Option<nat>)

  const BreakTargets: seq<BlockType> := [ForLoop, Switch, WhileLoop]
  const ContinueTargets: seq<BlockType> := [ForLoop, WhileLoop]

  /** The number of blocks of a type in `targets` among the `d` innermost
      blocks. */
  function CountMatches(blocks: seq<BlockInfo>, targets: seq<BlockType>, d: nat): nat
    requires d <= |blocks|
  {
    if d == 0 then 0
    else CountMatches(blocks, targets, d - 1) + (if blocks[|blocks| - d].blockType in targets then 1 else 0)
  }

  /** `find_target_block`: scanning from the innermost block outwards, the
      `max(1, breakCount)`-th block whose type is in `targets`, with the
      number of blocks to pop to reach it (its distance plus one); `Err`
      when there are not that many such blocks. */
  method FindTargetBlock(blocks: seq<BlockInfo>, breakCount: nat, targets: seq<BlockType>) returns (r: Result<(nat, nat)>)
    ensures var target := if breakCount <= 1 then 1 else breakCount;
      r.Err? <==> CountMatches(blocks, targets, |blocks|) < target
    ensures var target := if breakCount <= 1 then 1 else breakCount;
      r.Ok? ==> var (blockIndex, popCount) := r.value;
        1 <= popCount <= |blocks| && blockIndex == |blocks| - popCount &&
        blocks[blockIndex].blockType in targets && CountMatches(blocks, targets, popCount) == target
  {
    var targetBreakCount := if breakCount <= 1 then 1 else breakCount;
    var foundBreakBlocks := 0;
    for index := 0 to |blocks|
      invariant foundBreakBlocks == CountMatches(blocks, targets, index) < targetBreakCount
    {
      var blockIndex := |blocks| - index - 1;
      if blocks[blockIndex].blockType in targets {
        foundBreakBlocks := foundBreakBlocks + 1;
        if foundBreakBlocks == targetBreakCount {
          CountMatchesMonotone(blocks, targets, index + 1, |blocks|);
          return Ok((blockIndex, index + 1));
        }
      }
    }
    return Err("Could not find block to break!");
  }

  /** The count of matching blocks only grows outwards, by one at each
      matching block, so the block `FindTargetBlock` finds is the only one
      its postcondition allows. */
  lemma {:induction false} CountMatchesMonotone(blocks: seq<BlockInfo>, targets: seq<BlockType>, d: nat, e: nat)
    requires d <= e <= |blocks|
    ensures CountMatches(blocks, targets, d) <= CountMatches(blocks, targets, e)
    decreases e - d
  {
    if d < e {
      CountMatchesMonotone(blocks, targets, d, e - 1);
    }
  }

  lemma TargetBlockUnique(blocks: seq<BlockInfo>, targets: seq<BlockType>, p: nat, q: nat)
    requires 1 <= p <= |blocks| && 1 <= q <= |blocks|
    requires blocks[|blocks| - p].blockType in targets && blocks[|blocks| - q].blockType in targets
    ensures CountMatches(blocks, targets, p) == CountMatches(blocks, targets, q) <==> p == q
  {
    if p < q {
      CountMatchesMonotone(blocks, targets, p, q - 1);
    } else if q < p {
      CountMatchesMonotone(blocks, targets, q, p - 1);
    }
  }

  /** `create_break_expression_value`: the basic block after the target
      block, and how many blocks to pop. */
  method BreakTarget(blocks: seq<BlockInfo>, loopCount: nat) returns (r: Result<(Option<nat>, nat)>)
    ensures var target := if loopCount <= 1 then 1 else loopCount;
      r.Err? <==> CountMatches(blocks, BreakTargets, |blocks|) < target
    ensures var target := if loopCount <= 1 then 1 else loopCount;
      r.Ok? ==> (1 <= r.value.1 <= |blocks| && r.value.0 == blocks[|blocks| - r.value.1].afterBlock
      && blocks[|blocks| - r.value.1].blockType in BreakTargets
      && CountMatches(blocks, BreakTargets, r.value.1) == target)
  {
    var found := FindTargetBlock(blocks, loopCount, BreakTargets);
    if found.Err? {
      return Err(found.reason);
    }
    var (blockIndex, popCount) := found.value;
    return Ok((blocks[blockIndex].afterBlock, popCount));
  }

  /** `create_continue_expression_value`: the repeat block of the innermost
      loop, and how many blocks to pop. */
  method ContinueTarget(blocks: seq<BlockInfo>) returns (r: Result<(Option<nat>, nat)>)
    ensures r.Err? <==> CountMatches(blocks, ContinueTargets, |blocks|) == 0
    ensures r.Ok? ==> (1 <= r.value.1 <= |blocks| && r.value.0 == blocks[|blocks| - r.value.1].repeatBlock
      && blocks[|blocks| - r.value.1].blockType in ContinueTargets
      && CountMatches(blocks, ContinueTargets, r.value.1 - 1) == 0)
  {
    var found := FindTargetBlock(blocks, 1, ContinueTargets);
    if found.Err? {
      return Err(found.reason);
    }
    var (blockIndex, popCount) := found.value;
    assert CountMatches(blocks, ContinueTargets, popCount) == CountMatches(blocks, ContinueTargets, popCount - 1) + 1;
    return Ok((blocks[blockIndex].repeatBlock, popCount));
  }

  // ----- The validator's view of the blocks -----

  /** The blocks the validator tracks: for loops, switches and while loops,
      outermost first. */
  function ValidatorBlocks(blocks: seq<BlockInfo>): seq<CompilerStatementValidation.BlockKind> {
    if |blocks| == 0 then []
    else ValidatorBlock(blocks[0]) + ValidatorBlocks(blocks[1..])
  }

  /** The validator's block for one code generator block, if it tracks one. */
  function ValidatorBlock(b: BlockInfo): seq<CompilerStatementValidation.BlockKind> {
    match b.blockType
    case ForLoop => [CompilerStatementValidation.ForLoopBlock]
    case Switch => [CompilerStatementValidation.SwitchBlock]
    case WhileLoop => [CompilerStatementValidation.WhileLoopBlock]
    case _ => []
  }

  lemma HasLoopBlockConcat(a: seq<CompilerStatementValidation.BlockKind>, b: seq<CompilerStatementValidation.BlockKind>)
    ensures CompilerStatementValidation.HasLoopBlock(a + b)
        <==> CompilerStatementValidation.HasLoopBlock(a) || CompilerStatementValidation.HasLoopBlock(b)
  {
    if CompilerStatementValidation.HasLoopBlock(a + b) {
      var k :| 0 <= k < |a + b| && CompilerStatementValidation.IsLoopBlock((a + b)[k]);
      if k < |a| {
        assert (a + b)[k] == a[k];
      } else {
        assert (a + b)[k] == b[k - |a|];
      }
    }
    if CompilerStatementValidation.HasLoopBlock(b) {
      var k :| 0 <= k < |b| && CompilerStatementValidation.IsLoopBlock(b[k]);
      assert (a + b)[|a| + k] == b[k];
    }
    if CompilerStatementValidation.HasLoopBlock(a) {
      var k :| 0 <= k < |a| && CompilerStatementValidation.IsLoopBlock(a[k]);
      assert (a + b)[k] == a[k];
    }
  }

  lemma {:induction false} CountMatchesDropOutermost(blocks: seq<BlockInfo>, targets: seq<BlockType>, d: nat)
    requires d < |blocks|
    ensures CountMatches(blocks, targets, d) == CountMatches(blocks[1..], targets, d)
  {
    if d > 0 {
      CountMatchesDropOutermost(blocks, targets, d - 1);
    }
  }

  /** Every block the validator tracks is a break target, and the loops
      among them are the continue targets. */
  lemma {:induction false} ValidatorBlocksCount(blocks: seq<BlockInfo>)
    ensures |ValidatorBlocks(blocks)| == CountMatches(blocks, BreakTargets, |blocks|)
    ensures CompilerStatementValidation.HasLoopBlock(ValidatorBlocks(blocks)) <==> CountMatches(blocks, ContinueTargets, |blocks|) > 0
  {
    if |blocks| > 0 {
      ValidatorBlocksCount(blocks[1..]);
      CountMatchesDropOutermost(blocks, BreakTargets, |blocks| - 1);
      CountMatchesDropOutermost(blocks, ContinueTargets, |blocks| - 1);
      assert blocks[|blocks| - |blocks|] == blocks[0];
      var head := ValidatorBlock(blocks[0]);
      HasLoopBlockConcat(head, ValidatorBlocks(blocks[1..]));
      assert |head| == (if blocks[0].blockType in BreakTargets then 1 else 0);
      assert CompilerStatementValidation.HasLoopBlock(head) <==> blocks[0].blockType in ContinueTargets;
    }
  }

  /** A `break` or `continue` that the validator accepts always finds its
      target block in the code generator, whose blocks hold the validator's
      blocks among if blocks and function bodies. */
  lemma AcceptedJumpsFindTarget(blocks: seq<BlockInfo>, loopCount: nat, range: Option<CompilerValidation.SourceRange>)
    ensures CompilerStatementValidation.BreakDiagnostics(ValidatorBlocks(blocks), loopCount, range) == [] ==>
      CountMatches(blocks, BreakTargets, |blocks|) >= (if loopCount <= 1 then 1 else loopCount)
    ensures CompilerStatementValidation.ContinueDiagnostics(ValidatorBlocks(blocks), range) == [] ==>
      CountMatches(blocks, ContinueTargets, |blocks|) > 0
  {
    ValidatorBlocksCount(blocks);
  }

  // ----- Defer stacks -----

  /** `create_defer_block`: a copy of the enclosing blocks' defer lists
      with a new, empty list for the block being entered. */
  method CreateDeferBlock(currentBlock: seq<seq<Statement>>) returns (newBlock: seq<seq<Statement>>)
    ensures |newBlock| == |currentBlock| + 1
    ensures newBlock[..|currentBlock|] == currentBlock
    ensures newBlock[|currentBlock|] == []
  {
    var resized := new seq<Statement>[|currentBlock| + 1](_ => []);
    for index := 0 to |currentBlock|
      invariant forall k :: 0 <= k < index ==> resized[k] == currentBlock[k]
      invariant forall k :: index <= k < resized.Length ==> resized[k] == []
    {
      resized[index] := currentBlock[index];
    }
    newBlock := resized[..];
  }

  /** A defer statement is registered in the innermost block's list; out
      of any function block it is an error. */
  function RegisterDefer(deferExpressionsPerBlock: seq<seq<Statement>>, statement: Statement): (r: Result<seq<seq<Statement>>>)
    ensures r.Err? <==> |deferExpressionsPerBlock| == 0
    ensures r.Ok? ==> (|r.value| == |deferExpressionsPerBlock|
      && r.value[..|r.value| - 1] == deferExpressionsPerBlock[..|deferExpressionsPerBlock| - 1]
      && r.value[|r.value| - 1] == deferExpressionsPerBlock[|deferExpressionsPerBlock| - 1] + [statement])
  {
    if |deferExpressionsPerBlock| == 0 then Err("Can only have defer expressions inside function blocks!")
    else
      var last := |deferExpressionsPerBlock| - 1;
      Ok(deferExpressionsPerBlock[last := deferExpressionsPerBlock[last] + [statement]])
  }

  /** What the code generator emits at the end of a block: the deferred
      expression of a statement (by its index in the statement), or the
      release of a block's dynamic stack allocations. */
  datatype EndOfBlockAction =
    | RunDeferred(statement: Statement, expressionIndex: nat)
    | FreeDynamicArrays(blockIndex: nat)

  /** The action a registered statement contributes: only a statement whose
      first expression is a `defer` runs its deferred expression. */
  function DeferAction(s: Statement): seq<EndOfBlockAction> {
    if |s.expressions| > 0 && s.expressions[0].DeferExpression? then [RunDeferred(s, s.expressions[0].expressionToDefer)] else []
  }

  /** The deferred expressions of one block, last registered first. */
  function DeferActions(statements: seq<Statement>): seq<EndOfBlockAction> {
    if |statements| == 0 then []
    else DeferActions(statements[1..]) + DeferAction(statements[0])
  }

  /** `create_defer_instructions_at_end_of_block`: the loop walks the
      block's defer list from its end. */
  method DeferInstructionsAtEndOfBlock(deferExpressionsPerBlock: seq<seq<Statement>>, blockIndex: nat) returns (actions: seq<EndOfBlockAction>)
    requires blockIndex < |deferExpressionsPerBlock|
    ensures actions == DeferActions(deferExpressionsPerBlock[blockIndex])
  {
    var blockDeferExpressions := deferExpressionsPerBlock[blockIndex];
    actions := [];
    for expressionIndex := 0 to |blockDeferExpressions|
      invariant actions == DeferActions(blockDeferExpressions[|blockDeferExpressions| - expressionIndex..])
    {
      var reverseExpressionIndex := |blockDeferExpressions| - 1 - expressionIndex;
      var deferExpressionStatement := blockDeferExpressions[reverseExpressionIndex];
      assert blockDeferExpressions[reverseExpressionIndex..][1..] == blockDeferExpressions[reverseExpressionIndex + 1..];
      if |deferExpressionStatement.expressions| > 0 {
        var firstExpression := deferExpressionStatement.expressions[0];
        if firstExpression.DeferExpression? {
          actions := actions + [RunDeferred(deferExpressionStatement, firstExpression.expressionToDefer)];
        }
      }
    }
    assert blockDeferExpressions[0..] == blockDeferExpressions;
  }

  /** The actions at the end of block `b`: its deferred expressions, then
      the release of its stack allocations if it saved the stack. */
  function EndOfBlockActions(deferExpressionsPerBlock: seq<seq<Statement>>, savesStack: seq<bool>, b: nat): seq<EndOfBlockAction>
    requires b < |deferExpressionsPerBlock| && b < |savesStack|
  {
    DeferActions(deferExpressionsPerBlock[b]) + (if savesStack[b] then [FreeDynamicArrays(b)] else [])
  }

  /** The actions of popping the `count` innermost blocks, innermost first. */
  function PopActions(deferExpressionsPerBlock: seq<seq<Statement>>, savesStack: seq<bool>, count: nat): seq<EndOfBlockAction>
    requires |savesStack| == |deferExpressionsPerBlock| && count <= |deferExpressionsPerBlock|
  {
    if count == 0 then []
    else (PopActions(deferExpressionsPerBlock, savesStack, count - 1)
      + EndOfBlockActions(deferExpressionsPerBlock, savesStack, |deferExpressionsPerBlock| - count))
  }

  /** `create_instructions_pop_blocks`; `savesStack[b]` says whether block
      `b` has a stack save pointer. */
  method PopBlocks(deferExpressionsPerBlock: seq<seq<Statement>>, savesStack: seq<bool>, blocksToPopCount: nat)
    returns (actions: seq<EndOfBlockAction>)
    requires |savesStack| == |deferExpressionsPerBlock| && blocksToPopCount <= |deferExpressionsPerBlock|
    ensures actions == PopActions(deferExpressionsPerBlock, savesStack, blocksToPopCount)
  {
    actions := [];
    for blockIndex := 0 to blocksToPopCount
      invariant actions == PopActions(deferExpressionsPerBlock, savesStack, blockIndex)
    {
      var reverseBlockIndex := |deferExpressionsPerBlock| - 1 - blockIndex;
      var deferred := DeferInstructionsAtEndOfBlock(deferExpressionsPerBlock, reverseBlockIndex);
      actions := actions + deferred;
      if savesStack[reverseBlockIndex] {
        actions := actions + [FreeDynamicArrays(reverseBlockIndex)];
      }
    }
  }

  lemma {:induction false} DeferActionsSnoc(statements: seq<Statement>, statement: Statement)
    ensures DeferActions(statements + [statement]) == DeferAction(statement) + DeferActions(statements)
  {
    if |statements| > 0 {
      assert (statements + [statement])[1..] == statements[1..] + [statement];
      DeferActionsSnoc(statements[1..], statement);
    } else {
      assert ([] + [statement])[1..] == [];
    }
  }

  /** A defer registered later runs earlier: registering a statement in the
      innermost block puts its deferred expression first among that
      block's actions. */
  lemma DeferRunsBeforeEarlierDefers(deferExpressionsPerBlock: seq<seq<Statement>>, statement: Statement)
    requires |deferExpressionsPerBlock| > 0
    ensures var last := |deferExpressionsPerBlock| - 1;
      RegisterDefer(deferExpressionsPerBlock, statement).Ok? &&
      DeferActions(RegisterDefer(deferExpressionsPerBlock, statement).value[last])
      == DeferAction(statement) + DeferActions(deferExpressionsPerBlock[last])
  {
    DeferActionsSnoc(deferExpressionsPerBlock[|deferExpressionsPerBlock| - 1], statement);
  }

  predicate IsDeferStatement(s: Statement) {
    s.expressions != [] && s.expressions[0].DeferExpression?
  }

  /** Every registered defer statement runs at the end of its block. */
  lemma {:induction false} DeferActionPresent(statements: seq<Statement>, i: nat)
    requires i < |statements| && IsDeferStatement(statements[i])
    ensures exists q :: 0 <= q < |DeferActions(statements)| && DeferActions(statements)[q] == DeferAction(statements[i])[0]
  {
    var tail := DeferActions(statements[1..]);
    if i == 0 {
      assert DeferActions(statements)[|tail|] == DeferAction(statements[0])[0];
    } else {
      DeferActionPresent(statements[1..], i - 1);
      var q :| 0 <= q < |tail| && tail[q] == DeferAction(statements[1..][i - 1])[0];
      assert DeferActions(statements)[q] == tail[q];
    }
  }

  /** The defers of a block run in the reverse of their registration order. */
  lemma {:induction false} DeferActionsReverse(statements: seq<Statement>, i: nat, j: nat)
    requires i < j < |statements| && IsDeferStatement(statements[i]) && IsDeferStatement(statements[j])
    ensures exists p, q :: (0 <= p < q < |DeferActions(statements)| &&
      DeferActions(statements)[p] == DeferAction(statements[j])[0] && DeferActions(statements)[q] == DeferAction(statements[i])[0])
  {
    var rest := statements[1..];
    var tail := DeferActions(rest);
    if i == 0 {
      DeferActionPresent(rest, j - 1);
      var p :| 0 <= p < |tail| && tail[p] == DeferAction(rest[j - 1])[0];
      assert DeferActions(statements)[p] == tail[p];
      assert DeferActions(statements)[|tail|] == DeferAction(statements[0])[0];
    } else {
      DeferActionsReverse(rest, i - 1, j - 1);
      var p, q :| 0 <= p < q < |tail| && tail[p] == DeferAction(rest[j - 1])[0] && tail[q] == DeferAction(rest[i - 1])[0];
      assert DeferActions(statements)[p] == tail[p];
      assert DeferActions(statements)[q] == tail[q];
    }
  }

  // ----- Variables -----

  /** `Value_and_type`: a named LLVM value (opaque) and its type. */
  datatype ValueAndType = ValueAndType(name: string, value: nat, valueType: Option<TypeReference>)

  /** The last element named `name`, searching from the end (`rbegin`). */
  function FindLast(elements: seq<ValueAndType>, name: string): (r: Option<nat>)
    ensures r.Some? ==> (r.value < |elements| && elements[r.value].name == name
      && forall k :: r.value < k < |elements| ==> elements[k].name != name)
    ensures r.None? ==> forall k :: 0 <= k < |elements| ==> elements[k].name != name
  {
    if |elements| == 0 then None
    else if elements[|elements| - 1].name == name then Some(|elements| - 1)
    else FindLast(elements[..|elements| - 1], name)
  }

  /** The first element named `name`. */
  function FindFirst(elements: seq<ValueAndType>, name: string): (r: Option<nat>)
    ensures r.Some? ==> (r.value < |elements| && elements[r.value].name == name
      && forall k :: 0 <= k < r.value ==> elements[k].name != name)
    ensures r.None? ==> forall k :: 0 <= k < |elements| ==> elements[k].name != name
  {
    if |elements| == 0 then None
    else if elements[0].name == name then Some(0)
    else match FindFirst(elements[1..], name)
      case None => None
      case Some(k) => Some(k + 1)
  }

  /** `search_in_function_scope`: the most recently declared local variable
      of that name, else the first function argument of that name. */
  function SearchInFunctionScope(variableName: string, functionArguments: seq<ValueAndType>, localVariables: seq<ValueAndType>): (r: Option<ValueAndType>)
    ensures r.Some? ==> r.value.name == variableName
    ensures r.None? <==> ((forall k :: 0 <= k < |localVariables| ==> localVariables[k].name != variableName)
                      && (forall k :: 0 <= k < |functionArguments| ==> functionArguments[k].name != variableName))
  {
    match FindLast(localVariables, variableName)
    case Some(k) => Some(localVariables[k])
    case None =>
      match FindFirst(functionArguments, variableName)
      case Some(k) => Some(functionArguments[k])
      case None => None
  }

  /** Locals shadow arguments, and a newly declared local shadows every
      earlier local of the same name. */
  lemma ShadowingRules(variableName: string, functionArguments: seq<ValueAndType>, localVariables: seq<ValueAndType>, local: ValueAndType)
    requires local.name == variableName
    ensures SearchInFunctionScope(variableName, functionArguments, localVariables + [local]) == Some(local)
    ensures (exists k :: 0 <= k < |localVariables| && localVariables[k].name == variableName) ==>
      SearchInFunctionScope(variableName, functionArguments, localVariables).value in localVariables
    ensures (forall k :: 0 <= k < |localVariables| ==> localVariables[k].name != variableName) ==>
      SearchInFunctionScope(variableName, functionArguments, localVariables) ==
        (var k := FindFirst(functionArguments, variableName); if k.Some? then Some(functionArguments[k.value]) else None)
  {
  }

  // ----- Statements -----

  /** `can_store`: a constant array of size zero cannot be stored. */
  predicate CanStore(t: Option<TypeReference>) {
    !(t.Some? && t.value.ConstantArrayType? && t.value.size == 0)
  }

  /** The instructions a variable declaration emits, in order: loading the
      right-hand side (`load_if_needed`), allocating the variable, its debug
      description and the store into it. */
  datatype DeclarationInstruction = LoadValue | Alloca | DebugDescription | StoreValue

  /** The value a declaration evaluates to: none (no alloca could be
      created), the alloca it created, or the alloca an `Instantiate`
      right-hand side already made. */
  datatype DeclaredValue = NoValue | NewAlloca | RightHandAlloca

  datatype Declaration = Declaration(instructions: seq<DeclarationInstruction>, value: DeclaredValue)

  /** Every store comes after the allocation and the load it needs. */
  predicate StoresAfterAllocation(s: seq<DeclarationInstruction>) {
    forall i :: 0 <= i < |s| && s[i] == StoreValue ==> Alloca in s[..i] && LoadValue in s[..i]
  }

  const InsideFunctionsOnly := "Can only create variables inside functions!"

  /** `create_variable_declaration_expression_value` (`var x = e`): the
      right-hand side is always loaded; `allocaCreated` stands for
      `create_alloca_instruction` returning an instruction, without which
      the declaration has no value. */
  function UntypedDeclaration(insideFunction: bool, rightHandType: Option<TypeReference>, withDebugInfo: bool, allocaCreated: bool): Result<Declaration> {
    if !insideFunction then Err(InsideFunctionsOnly)
    else if !allocaCreated then Ok(Declaration([LoadValue], NoValue))
    else
      Ok(Declaration([LoadValue, Alloca]
        + (if withDebugInfo then [DebugDescription] else [])
        + (if CanStore(rightHandType) then [StoreValue] else []), NewAlloca))
  }

  /** `create_variable_declaration_with_type_expression_value`
      (`var x: T = e`): an `Instantiate` right-hand side that is already an
      alloca becomes the variable; otherwise the value is loaded and stored
      only when `can_store` allows it for the declared type. */
  function TypedDeclaration(insideFunction: bool, declaredType: TypeReference, rightHandIsInstantiate: bool, rightHandIsAlloca: bool, withDebugInfo: bool): Result<Declaration> {
    if !insideFunction then Err(InsideFunctionsOnly)
    else if rightHandIsInstantiate && rightHandIsAlloca then
      Ok(Declaration(if withDebugInfo then [DebugDescription] else [], RightHandAlloca))
    else
      var storeValue := CanStore(Some(declaredType));
      Ok(Declaration((if storeValue then [LoadValue] else []) + [Alloca]
        + (if withDebugInfo then [DebugDescription] else [])
        + (if storeValue then [StoreValue] else []), NewAlloca))
  }

  /** Without a written type, a declaration inside a function always loads
      its right-hand side first; it allocates exactly when an alloca can be
      created, is then that alloca, and stores exactly when it allocated and
      the type is not an empty constant array, after allocating. */
  lemma UntypedDeclarationLoadsAlways(insideFunction: bool, rightHandType: Option<TypeReference>, withDebugInfo: bool, allocaCreated: bool)
    ensures var r := UntypedDeclaration(insideFunction, rightHandType, withDebugInfo, allocaCreated);
      && (r.Err? <==> !insideFunction)
      && (r.Ok? ==> var s := r.value.instructions;
        && |s| > 0 && s[0] == LoadValue
        && (Alloca in s <==> allocaCreated)
        && (r.value.value == NewAlloca <==> allocaCreated)
        && (DebugDescription in s <==> allocaCreated && withDebugInfo)
        && (StoreValue in s <==> allocaCreated && !(rightHandType.Some? && rightHandType.value.ConstantArrayType? && rightHandType.value.size == 0))
        && StoresAfterAllocation(s))
  {
  }

  /** With a written type, a declaration inside a function either reuses
      the alloca of an `Instantiate` right-hand side (emitting no load,
      alloca or store), or allocates a new variable, loading and storing
      exactly when the declared type is not an empty constant array. */
  lemma TypedDeclarationStoresUnlessEmptyArray(insideFunction: bool, declaredType: TypeReference, rightHandIsInstantiate: bool, rightHandIsAlloca: bool, withDebugInfo: bool)
    ensures var r := TypedDeclaration(insideFunction, declaredType, rightHandIsInstantiate, rightHandIsAlloca, withDebugInfo);
      && (r.Err? <==> !insideFunction)
      && (r.Ok? ==> var s := r.value.instructions;
        && (DebugDescription in s <==> withDebugInfo)
        && (r.value.value == RightHandAlloca <==> rightHandIsInstantiate && rightHandIsAlloca)
        && (r.value.value == RightHandAlloca ==> LoadValue !in s && Alloca !in s && StoreValue !in s)
        && (r.value.value != RightHandAlloca ==>
          (&& r.value.value == NewAlloca && Alloca in s
           && (StoreValue in s <==> !(declaredType.ConstantArrayType? && declaredType.size == 0))
           && (LoadValue in s <==> StoreValue in s)))
        && StoresAfterAllocation(s))
  {
  }

  /** The two forms emit the same instructions for a storable type; for an
      empty constant array only the untyped form loads its right-hand
      side. */
  lemma DeclarationFormsAgreeUnlessEmptyArray(t: TypeReference, withDebugInfo: bool)
    ensures CanStore(Some(t)) ==>
      UntypedDeclaration(true, Some(t), withDebugInfo, true) == TypedDeclaration(true, t, false, false, withDebugInfo)
    ensures !CanStore(Some(t)) ==>
      LoadValue in UntypedDeclaration(true, Some(t), withDebugInfo, true).value.instructions &&
      LoadValue !in TypedDeclaration(true, t, false, false, withDebugInfo).value.instructions
  {
    assert [LoadValue, Alloca] == [LoadValue] + [Alloca];
  }

  /** The expressions after which control does not reach the end of a block. */
  predicate IsTerminator(e: Expression) {
    e.BreakExpression? || e.ContinueExpression? || e.ReturnExpression?
  }

  /** `ends_with_terminator_statement`. */
  function EndsWithTerminatorStatement(statements: seq<Statement>): bool {
    if |statements| == 0 then false
    else
      var lastStatement := statements[|statements| - 1];
      if |lastStatement.expressions| == 0 then false
      else
        var firstExpression := lastStatement.expressions[0];
        firstExpression.BreakExpression? || firstExpression.ContinueExpression? || firstExpression.ReturnExpression?
  }

  /** Only the last statement decides: appending a statement that starts
      with a terminator ends the block, appending any other statement does
      not, whatever came before. */
  lemma TerminatorIsLastStatement(statements: seq<Statement>, last: Statement)
    ensures !EndsWithTerminatorStatement([])
    ensures EndsWithTerminatorStatement(statements + [last])
        <==> |last.expressions| > 0 && IsTerminator(last.expressions[0])
  {
  }

  /** The end of `create_statement_values`: when asked to, and when the
      statements do not end with a terminator, the innermost block's
      end-of-block actions (`create_instructions_at_end_of_block`). */
  function BlockFallThroughActions(statements: seq<Statement>, createDeferExpressionsAtEnd: bool,
                                   deferExpressionsPerBlock: seq<seq<Statement>>, savesStack: seq<bool>): seq<EndOfBlockAction>
    requires |savesStack| == |deferExpressionsPerBlock|
  {
    if createDeferExpressionsAtEnd && !EndsWithTerminatorStatement(statements) && |deferExpressionsPerBlock| > 0 then
      EndOfBlockActions(deferExpressionsPerBlock, savesStack, |deferExpressionsPerBlock| - 1)
    else []
  }

  /** A block closed by `return`, `break` or `continue` runs nothing on
      falling through, since the jump itself pops the blocks; any other
      block runs exactly the actions of popping its innermost block. */
  lemma FallThroughSkipsTerminatedBlocks(statements: seq<Statement>, last: Statement,
                                         deferExpressionsPerBlock: seq<seq<Statement>>, savesStack: seq<bool>)
    requires |savesStack| == |deferExpressionsPerBlock| && |deferExpressionsPerBlock| > 0
    ensures |last.expressions| > 0 && IsTerminator(last.expressions[0]) ==>
      BlockFallThroughActions(statements + [last], true, deferExpressionsPerBlock, savesStack) == []
    ensures !(|last.expressions| > 0 && IsTerminator(last.expressions[0])) ==>
      BlockFallThroughActions(statements + [last], true, deferExpressionsPerBlock, savesStack)
        == PopActions(deferExpressionsPerBlock, savesStack, 1)
  {
    TerminatorIsLastStatement(statements, last);
  }

  /** `is_true_constant`: a statement made of one `true` constant of type
      `Bool`, or of one `C_bool` constant other than `false` and `0`. */
  function IsTrueConstant(statement: Statement): (r: bool)
    ensures r <==> (|statement.expressions| == 1 && statement.expressions[0].ConstantExpression?
      && ((statement.expressions[0].constantType == FundamentalTypeReference(Bool) && statement.expressions[0].data == "true")
          || (statement.expressions[0].constantType == FundamentalTypeReference(CBool)
              && statement.expressions[0].data != "false" && statement.expressions[0].data != "0")))
  {
    if |statement.expressions| != 1 then false
    else
      var expression := statement.expressions[0];
      if !expression.ConstantExpression? then false
      else if expression.constantType == FundamentalTypeReference(Bool) then expression.data == "true"
      else if expression.constantType == FundamentalTypeReference(CBool) then expression.data != "false" && expression.data != "0"
      else false
  }

  /** The basic blocks `create_while_loop_expression_value` creates, numbered
      in creation order from `first`, and the block it pushes for the body:
      a loop on a constant true condition has no condition block and
      continues straight into its body. */
  datatype WhileLoopBlocks = WhileLoopBlocks(conditionBlock: Option<nat>, thenBlock: nat, afterBlock: nat, info: BlockInfo)

  function WhileLoopExpressionBlocks(condition: Statement, first: nat): WhileLoopBlocks {
    if IsTrueConstant(condition) then
      WhileLoopBlocks(None, first, first + 1, BlockInfo(WhileLoop, Some(first), Some(first + 1)))
    else
      WhileLoopBlocks(Some(first), first + 1, first + 2, BlockInfo(WhileLoop, Some(first), Some(first + 2)))
  }

  /** A `continue` in the body goes back to the condition when there is one
      and to the body otherwise; a `break` leaves for the after block. And
      the condition block is left out exactly for a constant true condition. */
  lemma WhileLoopTargets(condition: Statement, first: nat)
    ensures var w := WhileLoopExpressionBlocks(condition, first);
      && (w.conditionBlock.None? <==> IsTrueConstant(condition))
      && w.info.repeatBlock == Some(if w.conditionBlock.Some? then w.conditionBlock.value else w.thenBlock)
      && w.info.afterBlock == Some(w.afterBlock)
      && w.info.blockType in ContinueTargets
      && (w.conditionBlock.Some? ==> w.conditionBlock.value < w.thenBlock) && w.thenBlock < w.afterBlock
  {
  }

  /** A `Bool` condition is constant true only when written `true`; a
      `C_bool` one unless written `false` or `0`; a condition with more than
      one expression never is. */
  lemma BoolConstantShortcut(t: FundamentalType, data: string, rest: seq<Expression>)
    requires t == Bool || t == CBool
    ensures IsTrueConstant(Statement([ConstantExpression(FundamentalTypeReference(t), data)]))
        <==> (if t == Bool then data == "true" else data != "false" && data != "0")
    ensures |rest| > 0 ==> !IsTrueConstant(Statement([ConstantExpression(FundamentalTypeReference(t), data)] + rest))
  {
  }

  // ----- Casts -----

  /** The LLVM types a cast distinguishes. */
  datatype LlvmType = IntegerLlvm(bitWidth: nat) | HalfLlvm | FloatLlvm | DoubleLlvm | OtherLlvm

  datatype CastOp = Trunc | SExt | ZExt | SIToFP | UIToFP | FPToSI | FPToUI | FPTrunc | FPExt

  predicate IsFloatingPoint(t: LlvmType) { t.HalfLlvm? || t.FloatLlvm? || t.DoubleLlvm? }

  /** `getFPMantissaWidth` of the IEEE half, single and double types. */
  function MantissaWidth(t: LlvmType): nat
    requires IsFloatingPoint(t)
  {
    match t
    case HalfLlvm => 11
    case FloatLlvm => 24
    case DoubleLlvm => 53
  }

  /** A core type as `get_cast_type` sees it: whether `is_signed_integer`
      and `is_pointer` hold for it. */
  datatype CoreTypeTraits = CoreTypeTraits(isSignedInteger: bool, isPointer: bool)

  /** `get_cast_type`: the LLVM cast instruction converting a value of the
      source type to the destination type; `Ok(None)` between two
      pointers, `Err` ("Invalid cast!") for every other pair. */
  function GetCastType(source: CoreTypeTraits, sourceLlvm: LlvmType, destination: CoreTypeTraits, destinationLlvm: LlvmType): (r: Result<Option<CastOp>>)
    ensures r.Ok? <==>
      (sourceLlvm.IntegerLlvm? && (destinationLlvm.IntegerLlvm? || IsFloatingPoint(destinationLlvm))) ||
      (IsFloatingPoint(sourceLlvm) && (destinationLlvm.IntegerLlvm? || IsFloatingPoint(destinationLlvm))) ||
      (!sourceLlvm.IntegerLlvm? && !IsFloatingPoint(sourceLlvm) && source.isPointer && destination.isPointer)
    ensures r == Ok(None) <==> !sourceLlvm.IntegerLlvm? && !IsFloatingPoint(sourceLlvm) && source.isPointer && destination.isPointer
    ensures r in {Ok(Some(Trunc)), Ok(Some(SExt)), Ok(Some(ZExt))} <==> sourceLlvm.IntegerLlvm? && destinationLlvm.IntegerLlvm?
    ensures r == Ok(Some(SExt)) ==> source.isSignedInteger && destination.isSignedInteger
    ensures r == Ok(Some(Trunc)) <==> sourceLlvm.IntegerLlvm? && destinationLlvm.IntegerLlvm? && sourceLlvm.bitWidth > destinationLlvm.bitWidth
    ensures sourceLlvm.IntegerLlvm? && destinationLlvm.IntegerLlvm? && sourceLlvm.bitWidth <= destinationLlvm.bitWidth ==>
      (r == Ok(Some(SExt)) <==> source.isSignedInteger && destination.isSignedInteger)
    ensures sourceLlvm.IntegerLlvm? && IsFloatingPoint(destinationLlvm) ==>
      r == Ok(Some(if source.isSignedInteger then SIToFP else UIToFP))
    ensures IsFloatingPoint(sourceLlvm) && destinationLlvm.IntegerLlvm? ==>
      r == Ok(Some(if destination.isSignedInteger then FPToSI else FPToUI))
    ensures IsFloatingPoint(sourceLlvm) && IsFloatingPoint(destinationLlvm) ==>
      r == Ok(Some(if MantissaWidth(sourceLlvm) > MantissaWidth(destinationLlvm) then FPTrunc else FPExt))
  {
    if sourceLlvm.IntegerLlvm? then
      if destinationLlvm.IntegerLlvm? then
        if sourceLlvm.bitWidth > destinationLlvm.bitWidth then Ok(Some(Trunc))
        else if source.isSignedInteger && destination.isSignedInteger then Ok(Some(SExt))
        else Ok(Some(ZExt))
      else if IsFloatingPoint(destinationLlvm) then
        if source.isSignedInteger then Ok(Some(SIToFP)) else Ok(Some(UIToFP))
      else Err("Invalid cast!")
    else if IsFloatingPoint(sourceLlvm) then
      if destinationLlvm.IntegerLlvm? then
        if destination.isSignedInteger then Ok(Some(FPToSI)) else Ok(Some(FPToUI))
      else if IsFloatingPoint(destinationLlvm) then
        if MantissaWidth(sourceLlvm) > MantissaWidth(destinationLlvm) then Ok(Some(FPTrunc)) else Ok(Some(FPExt))
      else Err("Invalid cast!")
    else if source.isPointer && destination.isPointer then Ok(None)
    else Err("Invalid cast!")
  }

  /** Narrowing one way is widening the other way, for integers and for
      floating point, and integer/floating point conversions pair up. */
  lemma CastReversal(a: CoreTypeTraits, aLlvm: LlvmType, b: CoreTypeTraits, bLlvm: LlvmType)
    ensures aLlvm.IntegerLlvm? && bLlvm.IntegerLlvm? && aLlvm.bitWidth != bLlvm.bitWidth ==>
      (GetCastType(a, aLlvm, b, bLlvm) == Ok(Some(Trunc)) <==> GetCastType(b, bLlvm, a, aLlvm) in {Ok(Some(SExt)), Ok(Some(ZExt))})
    ensures IsFloatingPoint(aLlvm) && IsFloatingPoint(bLlvm) && aLlvm != bLlvm ==>
      (GetCastType(a, aLlvm, b, bLlvm) == Ok(Some(FPTrunc)) <==> GetCastType(b, bLlvm, a, aLlvm) == Ok(Some(FPExt)))
    ensures aLlvm.IntegerLlvm? && IsFloatingPoint(bLlvm) ==>
      (GetCastType(a, aLlvm, b, bLlvm) == Ok(Some(SIToFP)) <==> GetCastType(b, bLlvm, a, aLlvm) == Ok(Some(FPToSI)))
  {
  }

  /** Casting a floating point type to itself is an extension, never a
      truncation; an integer to itself is an extension too. */
  lemma SameTypeCastIsExtension(t: CoreTypeTraits, llvmType: LlvmType)
    requires llvmType.IntegerLlvm? || IsFloatingPoint(llvmType)
    ensures GetCastType(t, llvmType, t, llvmType) in {Ok(Some(SExt)), Ok(Some(ZExt)), Ok(Some(FPExt))}
  {
  }

  /** `is_fundamental_type_signed`: the signed C integer types. */
  predicate IsFundamentalTypeSigned(t: FundamentalType) {
    t in {CChar, CSchar, CShort, CInt, CLong, CLonglong}
  }

  /** Among the C types with a literal suffix, the signed ones are those
      other than `C_bool` whose suffix does not start `cu`, and each has an
      unsigned partner whose suffix does; `C_schar`, which has no suffix, is
      the only other signed type, so the H types and `C_longdouble` never
      are. */
  lemma FundamentalSignednessMatchesSuffix(t: FundamentalType)
    ensures HasCSuffix(t) ==> (IsFundamentalTypeSigned(t) <==> t != CBool && PT.CTypeSuffix(t)[..2] != "cu")
    ensures !HasCSuffix(t) ==> (IsFundamentalTypeSigned(t) <==> t == CSchar)
    ensures IsFundamentalTypeSigned(t) && t != CSchar ==>
      var partner := PT.CSuffixType("cu" + PT.CTypeSuffix(t)[1..]);
      partner.Some? && !IsFundamentalTypeSigned(partner.value)
  {
    if HasCSuffix(t) {
      var prefix := PT.CTypeSuffix(t)[..2];
      var partnerSuffix := "cu" + PT.CTypeSuffix(t)[1..];
      match t
      case CChar => assert prefix == "cc" && partnerSuffix == "cuc";
      case CShort => assert prefix == "cs" && partnerSuffix == "cus";
      case CInt => assert prefix == "ci" && partnerSuffix == "cui";
      case CLong => assert prefix == "cl" && partnerSuffix == "cul";
      case CLonglong => assert prefix == "cl" && partnerSuffix == "cull";
      case CUchar => assert prefix == "cu";
      case CUshort => assert prefix == "cu";
      case CUint => assert prefix == "cu";
      case CUlong => assert prefix == "cu";
      case CUlonglong => assert prefix == "cu";
      case _ =>
    }
  }

  // ----- String literals -----

  /** The two characters `\` and `n` of an escape written in a literal. */
  const NewlineEscape: string := ['\\', 'n']

  /** An escape starts at position `k` of `s`. */
  predicate EscapeAt(s: string, k: int) {
    0 <= k && k + 1 < |s| && s[k] == '\\' && s[k + 1] == 'n'
  }

  lemma EscapeAtIsMatch(s: string)
    ensures forall k :: MatchAt(s, NewlineEscape, k) <==> EscapeAt(s, k)
  {
    forall k | 0 <= k && k + 2 <= |s|
      ensures MatchAt(s, NewlineEscape, k) <==> EscapeAt(s, k)
    {
      assert s[k..k + 2] == [s[k], s[k + 1]];
    }
  }

  /** The first escape at or after `from`, or -1. */
  function NextEscape(s: string, from: nat): (r: int)
    ensures r == -1 || (from <= r && EscapeAt(s, r))
    ensures r == -1 ==> forall m :: from <= m ==> !EscapeAt(s, m)
    ensures r != -1 ==> forall m :: from <= m < r ==> !EscapeAt(s, m)
    decreases |s| - from
  {
    if from + 1 >= |s| then -1
    else if EscapeAt(s, from) then from
    else NextEscape(s, from + 1)
  }

  /** `find("\\n", from)` finds the first escape. */
  lemma FindIsNextEscape(s: string, from: nat)
    ensures FindFrom(s, NewlineEscape, from) == NextEscape(s, from)
  {
    EscapeAtIsMatch(s);
  }

  /** `replace_string_literal_special_values` as written: each escape
      found at or after `index` becomes a newline character, and the
      search resumes two characters after it. */
  function ReplacedFrom(s: string, index: nat): string
    decreases |s| - index
  {
    var k := NextEscape(s, index);
    if k == -1 then s
    else ReplacedFrom(s[..k] + "\n" + s[k + 2..], k + 2)
  }

  method ReplaceStringLiteralSpecialValues(value: string) returns (output: string)
    ensures output == ReplacedFrom(value, 0)
  {
    output := value;
    var index := 0;
    while true
      invariant ReplacedFrom(output, index) == ReplacedFrom(value, 0)
      decreases |output| - index
    {
      var found := FindFrom(output, NewlineEscape, index);
      FindIsNextEscape(output, index);
      if found == -1 {
        break;
      }
      output := output[..found] + "\n" + output[found + 2..];
      index := found + 2;
    }
  }

  /** Replacing never lengthens the literal, shortens it when it has an
      escape, and leaves one without an escape unchanged. */
  lemma {:induction false} ReplacedFromShorter(s: string, index: nat)
    ensures |ReplacedFrom(s, index)| <= |s|
    ensures NextEscape(s, index) == -1 ==> ReplacedFrom(s, index) == s
    ensures NextEscape(s, index) != -1 ==> |ReplacedFrom(s, index)| < |s|
    decreases |s| - index
  {
    var k := NextEscape(s, index);
    if k != -1 {
      ReplacedFromShorter(s[..k] + "\n" + s[k + 2..], k + 2);
    }
  }

  /** The intended replacement: every escape becomes a newline character,
      scanning left to right; none is left in the result. */
  function ReplaceNewlineEscapes(s: string): (r: string)
    ensures forall k :: !EscapeAt(r, k)
    ensures |r| <= |s|
    ensures |s| >= 1 ==> |r| >= 1 && r[0] == (if EscapeAt(s, 0) then '\n' else s[0])
    decreases |s|
  {
    if |s| == 0 then s
    else
      var first := if EscapeAt(s, 0) then '\n' else s[0];
      var rest := ReplaceNewlineEscapes(s[if EscapeAt(s, 0) then 2 else 1..]);
      assert forall k :: 1 <= k ==> !EscapeAt([first] + rest, k) by {
        forall k | 1 <= k ensures !EscapeAt([first] + rest, k) {
          assert !EscapeAt(rest, k - 1);
        }
      }
      [first] + rest
  }

  /** The intended replacement copies a prefix in which no escape starts. */
  lemma {:induction false} IntendedCopiesPrefix(t: string, j: nat)
    requires j <= |t|
    requires forall k :: 0 <= k < j ==> !EscapeAt(t, k)
    ensures ReplaceNewlineEscapes(t) == t[..j] + ReplaceNewlineEscapes(t[j..])
  {
    if j > 0 {
      assert !EscapeAt(t, 0);
      forall k | 0 <= k < j - 1
        ensures !EscapeAt(t[1..], k)
      {
        assert !EscapeAt(t, k + 1);
      }
      IntendedCopiesPrefix(t[1..], j - 1);
      assert t[1..][j - 1..] == t[j..];
      assert t[..j] == [t[0]] + t[1..][..j - 1];
    }
  }

  /** No escape starts right where the previous one ends (at or after `from`). */
  predicate NoAdjacentEscapes(s: string, from: nat) {
    forall m :: from <= m < |s| ==> !AdjacentEscapesAt(s, m)
  }

  /** An escape at `m` directly followed by another. */
  predicate AdjacentEscapesAt(s: string, m: int) {
    EscapeAt(s, m) && EscapeAt(s, m + 2)
  }

  /** The intended replacement of `s[i..]`, when the first escape at or
      after `i` is at `k`. */
  lemma IntendedAtFirstEscape(s: string, i: nat, k: nat)
    requires i <= k && EscapeAt(s, k)
    requires forall m :: i <= m < k ==> !EscapeAt(s, m)
    ensures ReplaceNewlineEscapes(s[i..]) == s[i..k] + ("\n" + ReplaceNewlineEscapes(s[k + 2..]))
  {
    var t := s[i..];
    forall m | 0 <= m < k - i ensures !EscapeAt(t, m) {
      assert !EscapeAt(s, i + m);
    }
    IntendedCopiesPrefix(t, k - i);
    assert t[k - i..] == s[k..] && t[..k - i] == s[i..k];
    IntendedAtEscape(s[k..]);
    assert s[k..][2..] == s[k + 2..];
  }

  lemma IntendedAtEscape(t: string)
    requires EscapeAt(t, 0)
    ensures ReplaceNewlineEscapes(t) == "\n" + ReplaceNewlineEscapes(t[2..])
  {
  }


  /** Where no escape directly follows another, the code as written agrees
      with the intended replacement. */
  lemma {:induction false} ReplacedFromAgrees(s: string, i: nat)
    requires i <= |s| && NoAdjacentEscapes(s, i)
    ensures ReplacedFrom(s, i) == s[..i] + ReplaceNewlineEscapes(s[i..])
    decreases |s| - i
  {
    var k := NextEscape(s, i);
    if k == -1 {
      NoEscapeLeft(s, i);
    } else {
      var u := s[..k] + "\n" + s[k + 2..];
      if k + 2 == |s| {
        EscapeAtEnd(s, k, u);
      } else {
        NextAfterEscape(s, i, k, u);
        ReplacedFromAgrees(u, k + 2);
      }
      AgreesStep(s, i, k, u);
    }
  }

  lemma NoEscapeLeft(s: string, i: nat)
    requires i <= |s| && NextEscape(s, i) == -1
    ensures ReplacedFrom(s, i) == s[..i] + ReplaceNewlineEscapes(s[i..])
  {
    ReplacedFromNoEscape(s, i);
    NoEscapeInSuffix(s, i);
    IntendedNoEscape(s[i..]);
    assert s[..i] + s[i..] == s;
  }

  /** With no escape left, the code as written returns the literal. */
  lemma ReplacedFromNoEscape(s: string, i: nat)
    requires NextEscape(s, i) == -1
    ensures ReplacedFrom(s, i) == s
  {
  }

  lemma NoEscapeInSuffix(s: string, i: nat)
    requires i <= |s| && NextEscape(s, i) == -1
    ensures forall m :: !EscapeAt(s[i..], m)
  {
    forall m | 0 <= m < |s| - i ensures !EscapeAt(s[i..], m) {
      assert !EscapeAt(s, i + m);
    }
  }

  /** The intended replacement leaves a literal without escapes unchanged. */
  lemma IntendedNoEscape(t: string)
    requires forall m :: !EscapeAt(t, m)
    ensures ReplaceNewlineEscapes(t) == t
  {
    IntendedCopiesPrefix(t, |t|);
    assert t[..|t|] == t && t[|t|..] == [];
  }

  lemma EscapeAtEnd(s: string, k: nat, u: string)
    requires k + 2 == |s| && u == s[..k] + "\n" + s[k + 2..]
    ensures ReplacedFrom(u, k + 2) == s[..k] + ("\n" + ReplaceNewlineEscapes(s[k + 2..]))
  {
    assert s[k + 2..] == [];
    assert NextEscape(u, k + 2) == -1;
  }

  lemma AgreesStep(s: string, i: nat, k: int, u: string)
    requires k == NextEscape(s, i) && k != -1
    requires u == s[..k] + "\n" + s[k + 2..]
    requires ReplacedFrom(u, k + 2) == s[..k] + ("\n" + ReplaceNewlineEscapes(s[k + 2..]))
    ensures ReplacedFrom(s, i) == s[..i] + ReplaceNewlineEscapes(s[i..])
  {
    ReplacedFromStep(s, i, k);
    IntendedAtFirstEscape(s, i, k);
    PrefixConcat(s, i, k, "\n" + ReplaceNewlineEscapes(s[k + 2..]));
  }



  lemma PrefixConcat(s: string, i: nat, k: nat, x: string)
    requires i <= k <= |s|
    ensures s[..i] + (s[i..k] + x) == s[..k] + x
  {
    assert s[..k] == s[..i] + s[i..k];
  }

  lemma ReplacedFromStep(s: string, i: nat, k: int)
    requires k == NextEscape(s, i) && k != -1
    ensures ReplacedFrom(s, i) == ReplacedFrom(s[..k] + "\n" + s[k + 2..], k + 2)
  {
  }

  /** The step of `ReplacedFromAgrees` after replacing the escape at `k`:
      the character after it is copied, and the rest still has no adjacent
      escapes. */
  lemma NextAfterEscape(s: string, i: nat, k: nat, u: string)
    requires i <= k && k + 2 < |s| && EscapeAt(s, k) && NoAdjacentEscapes(s, i)
    requires u == s[..k] + "\n" + s[k + 2..]
    ensures NoAdjacentEscapes(u, k + 2)
    ensures u[..k + 2] + ReplaceNewlineEscapes(u[k + 2..]) == s[..k] + ("\n" + ReplaceNewlineEscapes(s[k + 2..]))
  {
    assert !AdjacentEscapesAt(s, k);
    var r := s[k + 2..];
    assert !EscapeAt(r, 0);
    IntendedCopiesPrefix(r, 1);
    assert r[1..] == s[k + 3..];
    assert u[..k + 2] == s[..k] + "\n" + [s[k + 2]];
    assert u[k + 2..] == s[k + 3..];
    forall m | k + 2 <= m < |u|
      ensures !AdjacentEscapesAt(u, m)
    {
      assert !AdjacentEscapesAt(s, m + 1);
    }
  }

  /** Two escapes in a row: the code as written replaces the first and
      leaves the second, which the intended replacement does not. */
  lemma ConsecutiveEscapesMissed()
    ensures ReplacedFrom(NewlineEscape + NewlineEscape, 0) == "\n" + NewlineEscape
    ensures EscapeAt(ReplacedFrom(NewlineEscape + NewlineEscape, 0), 1)
    ensures ReplaceNewlineEscapes(NewlineEscape + NewlineEscape) == "\n\n"
  {
    var s := NewlineEscape + NewlineEscape;
    assert s[0..2] == NewlineEscape;
    assert NextEscape(s, 0) == 0;
    var t := s[..0] + "\n" + s[2..];
    assert t == "\n" + NewlineEscape;
    assert NextEscape(t, 2) == -1;
    assert ReplacedFrom(t, 2) == t;
    assert s[2..] == NewlineEscape;
    assert s[2..][2..] == "";
  }

  // ----- If chains -----

  /** A `Condition_statement_pair` of an if/else-if/else chain, reduced to
      whether it has a condition (the `else` has none). */
  datatype ConditionStatementPair = ConditionStatementPair(hasCondition: bool, thenStatements: seq<Statement>)

  const Uint32Modulus: nat := 0x1_0000_0000

  /** The number of basic blocks `create_if_expression_value` creates for a
      chain (`calculate_number_of_blocks`), computed in 32 bits. */
  function NumberOfIfBlocks(series: seq<ConditionStatementPair>): (r: nat)
    requires |series| >= 1
    ensures r < Uint32Modulus
  {
    if |series| == 1 then 2
    else
      var blocksExceptLast := (2 * (|series| - 1)) % Uint32Modulus;
      var last := if series[|series| - 1].hasCondition then 2 else 1;
      (blocksExceptLast + last) % Uint32Modulus
  }

  /** The role `get_block_name` gives the block at `index` of `count`. */
  datatype BlockRole = ThenRole | ElseRole | AfterRole

  function BlockNameRole(index: nat, lastIndex: nat): BlockRole {
    if index == 0 then ThenRole
    else if index == lastIndex then AfterRole
    else if index % 2 != 0 then ElseRole
    else ThenRole
  }

  /** Every series but the last has a condition: the shape the parser
      produces. */
  predicate WellFormedChain(series: seq<ConditionStatementPair>) {
    |series| >= 1 && series[0].hasCondition &&
    forall i :: 0 <= i < |series| - 1 ==> series[i].hasCondition
  }

  /** For a chain of fewer than 2^31 series, the blocks the conditional
      series branch to (`2 i` then, `2 i + 1` else) exist, a then block is
      never the end block, and the names match the roles; the last block
      is the end block. */
  lemma IfChainBlocks(series: seq<ConditionStatementPair>, i: nat)
    requires WellFormedChain(series) && |series| < 0x8000_0000
    requires i < |series| && series[i].hasCondition
    ensures 2 * i + 1 < NumberOfIfBlocks(series)
    ensures 2 * i != NumberOfIfBlocks(series) - 1
    ensures BlockNameRole(2 * i, NumberOfIfBlocks(series) - 1) == ThenRole
    ensures BlockNameRole(2 * i + 1, NumberOfIfBlocks(series) - 1) == (if 2 * i + 1 == NumberOfIfBlocks(series) - 1 then AfterRole else ElseRole)
  {
  }

  /** Without wrap-around: two blocks per conditional series and one for
      the final `else`; the last series' else block is the end block when it
      has a condition. */
  lemma IfChainBlockCount(series: seq<ConditionStatementPair>)
    requires WellFormedChain(series) && |series| < 0x8000_0000
    ensures NumberOfIfBlocks(series) == 2 * |series| - (if series[|series| - 1].hasCondition then 0 else 1)
    ensures series[|series| - 1].hasCondition ==> 2 * (|series| - 1) + 1 == NumberOfIfBlocks(series) - 1
  {
  }
}
