/** The compiler's type rules (Source/Compiler/Validation.cpp):
    when two type references are compatible, when a value of one type may be
    assigned to a location of another, and how a type is read out of the
    per-expression type information.

    The declaration database is abstract: `underlying` stands for
    `get_underlying_type` (which resolves aliases and may fail), `declared`
    for the custom types `find_declaration` finds and `uniqueNames` for the
    `unique_name` field of the declaration a custom type reference names. */
module CompilerTypes {
  import opened Wrappers
  import opened Operations

  datatype FunctionType = FunctionType(inputParameterTypes: seq<TypeReference>, outputParameterTypes: seq<TypeReference>, isVariadic: bool)

  /** `h::Type_reference`, without its source range. */
  datatype TypeReference =
    | BuiltinType(value: string)
    | ConstantArrayType(valueType: seq<TypeReference>, size: nat)
    | CustomType(moduleName: string, name: string)
    | FundamentalTypeReference(fundamental: FundamentalType)
    | FunctionPointerType(functionType: FunctionType, inputParameterNames: seq<string>, outputParameterNames: seq<string>)
    | IntegerType(numberOfBits: nat, isSigned: bool)
    | NullPointerType
    | ParameterType(parameterName: string)
    | PointerType(elementType: seq<TypeReference>, isMutable: bool)
    | ArraySliceType(elementType: seq<TypeReference>, isMutable: bool)

  datatype Database = Database(
    modules: set<string>,
    declared: set<(string, string)>,
    uniqueNames: map<(string, string), string>,
    underlying: TypeReference -> Option<TypeReference>,
    isEnum: TypeReference -> bool)

  /** `find_type_unique_name`: only a custom type reference whose
      declaration carries a unique name has one. */
  function UniqueName(db: Database, t: TypeReference): (r: Option<string>)
    ensures r.Some? <==> t.CustomType? && (t.moduleName, t.name) in db.uniqueNames
    ensures r.Some? ==> r.value == db.uniqueNames[(t.moduleName, t.name)]
  {
    if t.CustomType? && (t.moduleName, t.name) in db.uniqueNames then Some(db.uniqueNames[(t.moduleName, t.name)]) else None
  }

  /** Both underlying types have a unique name: the two are then compared by it alone. */
  predicate BothNamed(db: Database, a: TypeReference, b: TypeReference) {
    UniqueName(db, a).Some? && UniqueName(db, b).Some?
  }

  /** `are_compatible_types(first, second)`. The last rule compares the
      references as written, not their underlying types. */
  predicate AreCompatibleTypes(db: Database, first: Option<TypeReference>, second: Option<TypeReference>) {
    if first.None? || second.None? then false
    else
      var a := db.underlying(first.value);
      var b := db.underlying(second.value);
      if a.None? || b.None? then false
      else if BothNamed(db, a.value, b.value) then UniqueName(db, a.value) == UniqueName(db, b.value)
      else if a.value.PointerType? && b.value.NullPointerType? then true
      else if a.value.NullPointerType? && b.value.PointerType? then true
      else if a.value.FunctionPointerType? && b.value.NullPointerType? then true
      else if a.value.NullPointerType? && b.value.FunctionPointerType? then true
      else if a.value.FunctionPointerType? && b.value.FunctionPointerType? then a.value.functionType == b.value.functionType
      else first == second
  }

  /** The element rule shared by pointers and array slices: an empty element
      type on both sides (or, for pointers, on the destination side) accepts. */
  predicate CanAssignElement(db: Database, destination: seq<TypeReference>, source: seq<TypeReference>, fuel: nat)
    requires |destination| > 0 && |source| > 0
    decreases fuel, 0
  {
    fuel > 0 && CanAssignType(db, Some(destination[0]), Some(source[0]), fuel - 1)
  }

  /** `can_assign_type(destination, source)`. The source recurses on the
      element types of pointers and array slices; on a self-referential
      alias that recursion would not end, so the model counts it down with
      `fuel` and rejects once the fuel runs out. */
  predicate CanAssignType(db: Database, destination: Option<TypeReference>, source: Option<TypeReference>, fuel: nat)
    decreases fuel, 1
  {
    if destination.None? || source.None? then false
    else
      var d := db.underlying(destination.value);
      var s := db.underlying(source.value);
      if d.None? || s.None? then false
      else if BothNamed(db, d.value, s.value) then UniqueName(db, d.value) == UniqueName(db, s.value)
      else if d.value.PointerType? then
        if s.value.NullPointerType? then true
        else if !s.value.PointerType? then false
        else if d.value.isMutable && !s.value.isMutable then false
        else if |d.value.elementType| == 0 then true
        else if |s.value.elementType| == 0 then false
        else CanAssignElement(db, d.value.elementType, s.value.elementType, fuel)
      else if d.value.FunctionPointerType? && s.value.NullPointerType? then true
      else if d.value.ArraySliceType? && s.value.ArraySliceType? then
        if d.value.isMutable && !s.value.isMutable then false
        else if |d.value.elementType| == 0 && |s.value.elementType| == 0 then true
        else if |d.value.elementType| == 0 || |s.value.elementType| == 0 then false
        else CanAssignElement(db, d.value.elementType, s.value.elementType, fuel)
      else if d.value.ArraySliceType? && s.value.ConstantArrayType? then
        if |d.value.elementType| == 0 && |s.value.valueType| == 0 then true
        else if |d.value.elementType| == 0 || |s.value.valueType| == 0 then false
        else CanAssignElement(db, d.value.elementType, s.value.valueType, fuel)
      else if d.value == FundamentalTypeReference(AnyType) then true
      else AreCompatibleTypes(db, destination, source)
  }

  // ----- Compatibility -----

  /** Compatibility does not depend on the order of its arguments. */
  lemma CompatibleSymmetric(db: Database, first: Option<TypeReference>, second: Option<TypeReference>)
    ensures AreCompatibleTypes(db, first, second) == AreCompatibleTypes(db, second, first)
  {
  }

  /** The null type is compatible with pointers and function pointers, in both directions. */
  lemma NullCompatibleWithPointers(db: Database, pointer: TypeReference, nullType: TypeReference)
    requires db.underlying(nullType) == Some(NullPointerType)
    requires db.underlying(pointer).Some?
    requires db.underlying(pointer).value.PointerType? || db.underlying(pointer).value.FunctionPointerType?
    ensures AreCompatibleTypes(db, Some(pointer), Some(nullType))
    ensures AreCompatibleTypes(db, Some(nullType), Some(pointer))
  {
  }

  /** Two function pointers are compatible exactly when their function types
      are equal; the parameter names play no part. */
  lemma FunctionPointersMatchByType(db: Database, first: TypeReference, second: TypeReference)
    requires db.underlying(first).Some? && db.underlying(first).value.FunctionPointerType?
    requires db.underlying(second).Some? && db.underlying(second).value.FunctionPointerType?
    ensures AreCompatibleTypes(db, Some(first), Some(second))
        <==> db.underlying(first).value.functionType == db.underlying(second).value.functionType
  {
  }

  /** Types whose declarations have unique names are compatible exactly when the names agree. */
  lemma NamedTypesMatchByName(db: Database, first: TypeReference, second: TypeReference)
    requires db.underlying(first).Some? && db.underlying(second).Some?
    requires BothNamed(db, db.underlying(first).value, db.underlying(second).value)
    ensures AreCompatibleTypes(db, Some(first), Some(second))
        <==> UniqueName(db, db.underlying(first).value) == UniqueName(db, db.underlying(second).value)
    ensures CanAssignType(db, Some(first), Some(second), 0) == AreCompatibleTypes(db, Some(first), Some(second))
  {
  }

  /** A missing type, or one whose underlying type cannot be found, is
      compatible with nothing and assignable in no direction. */
  lemma UnresolvedTypesRejected(db: Database, t: Option<TypeReference>, other: Option<TypeReference>, fuel: nat)
    requires t.None? || db.underlying(t.value).None?
    ensures !AreCompatibleTypes(db, t, other) && !AreCompatibleTypes(db, other, t)
    ensures !CanAssignType(db, t, other, fuel) && !CanAssignType(db, other, t, fuel)
  {
  }

  /** As written, the last rule compares the references themselves,
      so `A`, an alias of `Int32`, is not compatible with `Int32` itself,
      although both resolve to the same type. */
  lemma ScalarAliasIncompatible(db: Database)
    requires db.underlying(CustomType("m", "A")) == Some(IntegerType(32, true))
    requires db.underlying(IntegerType(32, true)) == Some(IntegerType(32, true))
    ensures !AreCompatibleTypes(db, Some(CustomType("m", "A")), Some(IntegerType(32, true)))
    ensures AreCompatibleTypes(db, Some(IntegerType(32, true)), Some(IntegerType(32, true)))
  {
  }

  /** Compatibility with the last rule comparing the underlying types: two
      references that resolve to the same type are compatible. */
  predicate AreCompatibleResolvedTypes(db: Database, first: Option<TypeReference>, second: Option<TypeReference>) {
    AreCompatibleTypes(db, first, second)
    || (first.Some? && second.Some? && db.underlying(first.value).Some?
        && db.underlying(first.value) == db.underlying(second.value))
  }

  /** The corrected rule keeps everything the written one accepts, stays
      symmetric, accepts the alias of `ScalarAliasIncompatible`, and differs
      from the written rule only on references that resolve to one type. */
  lemma ResolvedCompatibility(db: Database, first: Option<TypeReference>, second: Option<TypeReference>)
    ensures AreCompatibleTypes(db, first, second) ==> AreCompatibleResolvedTypes(db, first, second)
    ensures AreCompatibleResolvedTypes(db, first, second) == AreCompatibleResolvedTypes(db, second, first)
    ensures AreCompatibleResolvedTypes(db, first, second) && !AreCompatibleTypes(db, first, second) ==>
      first != second && db.underlying(first.value) == db.underlying(second.value)
  {
    CompatibleSymmetric(db, first, second);
  }

  lemma ScalarAliasCompatibleResolved(db: Database)
    requires db.underlying(CustomType("m", "A")) == Some(IntegerType(32, true))
    requires db.underlying(IntegerType(32, true)) == Some(IntegerType(32, true))
    ensures AreCompatibleResolvedTypes(db, Some(CustomType("m", "A")), Some(IntegerType(32, true)))
  {
  }

  // ----- Assignment -----

  /** The pointer-destination rules: null is accepted; a non-pointer is
      rejected; a mutable pointer does not take an immutable one; an empty
      destination element type takes any pointer; otherwise the element
      types decide. */
  lemma PointerAssignment(db: Database, destination: TypeReference, source: TypeReference, fuel: nat)
    requires db.underlying(destination).Some? && db.underlying(destination).value.PointerType?
    requires db.underlying(source).Some?
    ensures var d := db.underlying(destination).value; var s := db.underlying(source).value;
      && (s.NullPointerType? ==> CanAssignType(db, Some(destination), Some(source), fuel))
      && (!s.NullPointerType? && !s.PointerType? ==> !CanAssignType(db, Some(destination), Some(source), fuel))
      && (s.PointerType? && d.isMutable && !s.isMutable ==> !CanAssignType(db, Some(destination), Some(source), fuel))
      && (s.PointerType? && (!d.isMutable || s.isMutable) && |d.elementType| == 0 ==> CanAssignType(db, Some(destination), Some(source), fuel))
      && (s.PointerType? && (!d.isMutable || s.isMutable) && |d.elementType| > 0 && |s.elementType| == 0 ==> !CanAssignType(db, Some(destination), Some(source), fuel))
      && (s.PointerType? && (!d.isMutable || s.isMutable) && |d.elementType| > 0 && |s.elementType| > 0 ==>
            (CanAssignType(db, Some(destination), Some(source), fuel) <==>
              fuel > 0 && CanAssignType(db, Some(d.elementType[0]), Some(s.elementType[0]), fuel - 1)))
  {
  }

  /** The array-slice rules: a mutable slice does not take an immutable one;
      two empty element types match, one empty one does not; a constant
      array is taken when its value type is assignable to the element type. */
  lemma ArraySliceAssignment(db: Database, destination: TypeReference, source: TypeReference, fuel: nat)
    requires db.underlying(destination).Some? && db.underlying(destination).value.ArraySliceType?
    requires db.underlying(source).Some?
    ensures var d := db.underlying(destination).value; var s := db.underlying(source).value;
      && (s.ArraySliceType? && d.isMutable && !s.isMutable ==> !CanAssignType(db, Some(destination), Some(source), fuel))
      && (s.ArraySliceType? && (!d.isMutable || s.isMutable) && |d.elementType| == 0 ==>
            (CanAssignType(db, Some(destination), Some(source), fuel) <==> |s.elementType| == 0))
      && (s.ArraySliceType? && (!d.isMutable || s.isMutable) && |d.elementType| > 0 && |s.elementType| > 0 ==>
            (CanAssignType(db, Some(destination), Some(source), fuel) <==>
              fuel > 0 && CanAssignType(db, Some(d.elementType[0]), Some(s.elementType[0]), fuel - 1)))
      && (s.ConstantArrayType? && |d.elementType| == 0 ==>
            (CanAssignType(db, Some(destination), Some(source), fuel) <==> |s.valueType| == 0))
      && (s.ConstantArrayType? && |d.elementType| > 0 && |s.valueType| > 0 ==>
            (CanAssignType(db, Some(destination), Some(source), fuel) <==>
              fuel > 0 && CanAssignType(db, Some(d.elementType[0]), Some(s.valueType[0]), fuel - 1)))
  {
  }

  /** A function-pointer destination takes a null source, and an `Any_type`
      destination takes any source that resolves. */
  lemma AnyAndFunctionPointerAssignment(db: Database, destination: TypeReference, source: TypeReference, fuel: nat)
    requires db.underlying(destination).Some? && db.underlying(source).Some?
    requires db.underlying(destination).value.FunctionPointerType? ==> db.underlying(source).value.NullPointerType?
    requires db.underlying(destination).value.FunctionPointerType? || db.underlying(destination).value == FundamentalTypeReference(AnyType)
    ensures CanAssignType(db, Some(destination), Some(source), fuel)
  {
  }

  /** For every other destination, assignability falls back to compatibility. */
  lemma AssignmentFallsBackToCompatibility(db: Database, destination: TypeReference, source: TypeReference, fuel: nat)
    requires db.underlying(destination).Some? && db.underlying(source).Some?
    requires var d := db.underlying(destination).value;
      !d.PointerType? && !d.FunctionPointerType? && !d.ArraySliceType? && d != FundamentalTypeReference(AnyType)
    ensures CanAssignType(db, Some(destination), Some(source), fuel) == AreCompatibleTypes(db, Some(destination), Some(source))
  {
  }

  /** More recursion fuel never turns an accepted assignment into a rejected
      one: the fuel bound only cuts off the recursion the source would run
      forever. */
  lemma {:induction false} CanAssignFuelMonotone(db: Database, destination: Option<TypeReference>, source: Option<TypeReference>, fuel: nat, more: nat)
    requires fuel <= more
    requires CanAssignType(db, destination, source, fuel)
    ensures CanAssignType(db, destination, source, more)
    decreases fuel
  {
    var d := db.underlying(destination.value).value;
    var s := db.underlying(source.value).value;
    if BothNamed(db, d, s) {
    } else if d.PointerType? && s.PointerType? && |d.elementType| > 0 && |s.elementType| > 0 && (!d.isMutable || s.isMutable) {
      CanAssignFuelMonotone(db, Some(d.elementType[0]), Some(s.elementType[0]), fuel - 1, more - 1);
    } else if d.ArraySliceType? && s.ArraySliceType? && |d.elementType| > 0 && |s.elementType| > 0 && (!d.isMutable || s.isMutable) {
      CanAssignFuelMonotone(db, Some(d.elementType[0]), Some(s.elementType[0]), fuel - 1, more - 1);
    } else if d.ArraySliceType? && s.ConstantArrayType? && |d.elementType| > 0 && |s.valueType| > 0 {
      CanAssignFuelMonotone(db, Some(d.elementType[0]), Some(s.valueType[0]), fuel - 1, more - 1);
    }
  }

  // ----- Type information of expressions -----

  /** `Type_info`: the type the analysis computed for one expression. */
  datatype TypeInfo = TypeInfo(typeReference: TypeReference, isMutable: bool)

  /** `get_expression_type_from_type_info`: an index past the end, or an
      expression without type information, gives no type. */
  function ExpressionTypeFromTypeInfo(typeInfos: seq<Option<TypeInfo>>, expressionIndex: nat): (r: Option<TypeReference>)
    ensures r.Some? <==> expressionIndex < |typeInfos| && typeInfos[expressionIndex].Some?
    ensures r.Some? ==> r.value == typeInfos[expressionIndex].value.typeReference
  {
    if expressionIndex >= |typeInfos| then None
    else if typeInfos[expressionIndex].None? then None
    else Some(typeInfos[expressionIndex].value.typeReference)
  }

  /** `get_expression_type_from_type_info_from_call_arguments`: the same
      lookup, but an argument whose address is taken has the pointer type to
      its type, mutable when the argument is. */
  function CallArgumentTypeFromTypeInfo(typeInfos: seq<Option<TypeInfo>>, expressionIndex: nat, takeAddressOf: bool): (r: Option<TypeReference>)
    ensures r.Some? <==> ExpressionTypeFromTypeInfo(typeInfos, expressionIndex).Some?
    ensures !takeAddressOf ==> r == ExpressionTypeFromTypeInfo(typeInfos, expressionIndex)
    ensures takeAddressOf && r.Some? ==>
      r.value == PointerType([ExpressionTypeFromTypeInfo(typeInfos, expressionIndex).value], typeInfos[expressionIndex].value.isMutable)
  {
    if expressionIndex >= |typeInfos| then None
    else if typeInfos[expressionIndex].None? then None
    else if takeAddressOf then Some(PointerType([typeInfos[expressionIndex].value.typeReference], typeInfos[expressionIndex].value.isMutable))
    else Some(typeInfos[expressionIndex].value.typeReference)
  }

  /** `get_call_aguments`: the call's arguments, preceded by the implicit
      first argument when there is one. */
  function CallArguments(arguments: seq<nat>, implicitFirstArgument: Option<nat>): (r: seq<nat>)
    ensures implicitFirstArgument.None? ==> r == arguments
    ensures implicitFirstArgument.Some? ==>
      |r| == |arguments| + 1 && r[0] == implicitFirstArgument.value && r[1..] == arguments
  {
    if implicitFirstArgument.None? then arguments else [implicitFirstArgument.value] + arguments
  }

  // ----- Call arguments -----

  /** `Implicit_argument`: the receiver of a call written `a.f(...)`, passed
      by address when `takeAddressOf` holds. */
  datatype ImplicitArgument = ImplicitArgument(expression: nat, takeAddressOf: bool)

  /** The two diagnostics of a call's argument check: the wrong number of
      arguments, or an argument (by position and expression index) whose
      type the parameter does not take. */
  datatype CallIssue =
    | ArgumentCountMismatch(expected: nat, provided: nat)
    | ArgumentTypeMismatch(argumentIndex: nat, expressionIndex: nat)

  function ImplicitExpression(implicit: Option<ImplicitArgument>): Option<nat> {
    if implicit.Some? then Some(implicit.value.expression) else None
  }

  /** Whether a call provides the number of arguments its function type
      asks for: at least that many for a variadic function. */
  predicate ArgumentCountAccepted(provided: nat, expected: nat, isVariadic: bool) {
    if isVariadic then provided >= expected else provided == expected
  }

  /** The type the check sees for argument `i`. */
  function ArgumentType(typeInfos: seq<Option<TypeInfo>>, callArguments: seq<nat>, implicit: Option<ImplicitArgument>, i: nat): Option<TypeReference>
    requires i < |callArguments|
  {
    CallArgumentTypeFromTypeInfo(typeInfos, callArguments[i], i == 0 && implicit.Some? && implicit.value.takeAddressOf)
  }

  /** The type diagnostics of the first `n` parameters. */
  function ArgumentIssues(db: Database, fuel: nat, typeInfos: seq<Option<TypeInfo>>, callArguments: seq<nat>,
                          implicit: Option<ImplicitArgument>, parameterTypes: seq<TypeReference>, n: nat): seq<CallIssue>
    requires n <= |parameterTypes| && n <= |callArguments|
  {
    if n == 0 then []
    else
      ArgumentIssues(db, fuel, typeInfos, callArguments, implicit, parameterTypes, n - 1)
      + (if CanAssignType(db, Some(parameterTypes[n - 1]), ArgumentType(typeInfos, callArguments, implicit, n - 1), fuel) then []
         else [ArgumentTypeMismatch(n - 1, callArguments[n - 1])])
  }

  /** The argument part of `validate_call_expression`: a count mismatch
      alone, or else one diagnostic per parameter whose argument it cannot
      take, in parameter order. */
  function CallDiagnostics(db: Database, fuel: nat, typeInfos: seq<Option<TypeInfo>>, arguments: seq<nat>,
                           implicit: Option<ImplicitArgument>, functionType: FunctionType): seq<CallIssue>
  {
    var callArguments := CallArguments(arguments, ImplicitExpression(implicit));
    var parameterTypes := functionType.inputParameterTypes;
    if !ArgumentCountAccepted(|callArguments|, |parameterTypes|, functionType.isVariadic) then
      [ArgumentCountMismatch(|parameterTypes|, |callArguments|)]
    else ArgumentIssues(db, fuel, typeInfos, callArguments, implicit, parameterTypes, |parameterTypes|)
  }

  /** `validate_call_expression` from the argument list on: the count check,
      then the loop over the parameters. */
  method ValidateCallArguments(db: Database, fuel: nat, typeInfos: seq<Option<TypeInfo>>, arguments: seq<nat>,
                               implicit: Option<ImplicitArgument>, functionType: FunctionType)
    returns (diagnostics: seq<CallIssue>)
    ensures diagnostics == CallDiagnostics(db, fuel, typeInfos, arguments, implicit, functionType)
  {
    var callArguments := CallArguments(arguments, ImplicitExpression(implicit));
    var parameterTypes := functionType.inputParameterTypes;
    if functionType.isVariadic {
      if |callArguments| < |parameterTypes| {
        return [ArgumentCountMismatch(|parameterTypes|, |callArguments|)];
      }
    } else if |callArguments| != |parameterTypes| {
      return [ArgumentCountMismatch(|parameterTypes|, |callArguments|)];
    }
    diagnostics := [];
    for argumentIndex := 0 to |parameterTypes|
      invariant diagnostics == ArgumentIssues(db, fuel, typeInfos, callArguments, implicit, parameterTypes, argumentIndex)
    {
      var expressionIndex := callArguments[argumentIndex];
      var takeAddressOf := argumentIndex == 0 && implicit.Some? && implicit.value.takeAddressOf;
      var argumentType := CallArgumentTypeFromTypeInfo(typeInfos, expressionIndex, takeAddressOf);
      if !CanAssignType(db, Some(parameterTypes[argumentIndex]), argumentType, fuel) {
        diagnostics := diagnostics + [ArgumentTypeMismatch(argumentIndex, expressionIndex)];
      }
    }
  }

  /** Parameter `i` is reported exactly when it cannot take its argument's
      type, and every report names a parameter below `n` with its argument's
      expression. */
  lemma {:induction false} ArgumentIssuesExact(db: Database, fuel: nat, typeInfos: seq<Option<TypeInfo>>, callArguments: seq<nat>,
                                               implicit: Option<ImplicitArgument>, parameterTypes: seq<TypeReference>, n: nat, i: nat)
    requires n <= |parameterTypes| && n <= |callArguments|
    ensures var issues := ArgumentIssues(db, fuel, typeInfos, callArguments, implicit, parameterTypes, n);
      i < n ==>
        (ArgumentTypeMismatch(i, callArguments[i]) in issues
         <==> !CanAssignType(db, Some(parameterTypes[i]), ArgumentType(typeInfos, callArguments, implicit, i), fuel))
    ensures forall issue :: issue in ArgumentIssues(db, fuel, typeInfos, callArguments, implicit, parameterTypes, n) ==>
      issue.ArgumentTypeMismatch? && issue.argumentIndex < n && issue.expressionIndex == callArguments[issue.argumentIndex]
  {
    if n > 0 {
      ArgumentIssuesExact(db, fuel, typeInfos, callArguments, implicit, parameterTypes, n - 1, i);
    }
  }

  /** A call with the wrong number of arguments gets exactly the count
      diagnostic; one with an accepted count gets only type diagnostics, one
      for each parameter that cannot take its argument. */
  lemma CallDiagnosticsRule(db: Database, fuel: nat, typeInfos: seq<Option<TypeInfo>>, arguments: seq<nat>,
                            implicit: Option<ImplicitArgument>, functionType: FunctionType, i: nat)
    ensures var callArguments := CallArguments(arguments, ImplicitExpression(implicit));
      var parameterTypes := functionType.inputParameterTypes;
      var r := CallDiagnostics(db, fuel, typeInfos, arguments, implicit, functionType);
      && (!ArgumentCountAccepted(|callArguments|, |parameterTypes|, functionType.isVariadic) ==>
            r == [ArgumentCountMismatch(|parameterTypes|, |callArguments|)])
      && (ArgumentCountAccepted(|callArguments|, |parameterTypes|, functionType.isVariadic) ==>
            (forall issue :: issue in r ==> issue.ArgumentTypeMismatch? && issue.argumentIndex < |parameterTypes|)
            && (i < |parameterTypes| ==>
                 (ArgumentTypeMismatch(i, callArguments[i]) in r
                  <==> !CanAssignType(db, Some(parameterTypes[i]), ArgumentType(typeInfos, callArguments, implicit, i), fuel))))
  {
    var callArguments := CallArguments(arguments, ImplicitExpression(implicit));
    var parameterTypes := functionType.inputParameterTypes;
    if ArgumentCountAccepted(|callArguments|, |parameterTypes|, functionType.isVariadic) {
      ArgumentIssuesExact(db, fuel, typeInfos, callArguments, implicit, parameterTypes, |parameterTypes|, i);
    }
  }

  /** An argument without type information is always reported, as no
      parameter takes a missing type. */
  lemma UntypedArgumentReported(db: Database, fuel: nat, typeInfos: seq<Option<TypeInfo>>, arguments: seq<nat>,
                                implicit: Option<ImplicitArgument>, functionType: FunctionType, i: nat)
    requires var callArguments := CallArguments(arguments, ImplicitExpression(implicit));
      && ArgumentCountAccepted(|callArguments|, |functionType.inputParameterTypes|, functionType.isVariadic)
      && i < |functionType.inputParameterTypes|
      && ExpressionTypeFromTypeInfo(typeInfos, callArguments[i]).None?
    ensures var callArguments := CallArguments(arguments, ImplicitExpression(implicit));
      ArgumentTypeMismatch(i, callArguments[i]) in CallDiagnostics(db, fuel, typeInfos, arguments, implicit, functionType)
  {
    var callArguments := CallArguments(arguments, ImplicitExpression(implicit));
    UnresolvedTypesRejected(db, ArgumentType(typeInfos, callArguments, implicit, i), Some(functionType.inputParameterTypes[i]), fuel);
    CallDiagnosticsRule(db, fuel, typeInfos, arguments, implicit, functionType, i);
  }

  /** A receiver passed by address is checked as a pointer to its own type,
      so a mutable-pointer parameter rejects an immutable receiver. */
  lemma ImmutableReceiverRejected(db: Database, fuel: nat, typeInfos: seq<Option<TypeInfo>>, arguments: seq<nat>,
                                  receiver: nat, functionType: FunctionType)
    requires receiver < |typeInfos| && typeInfos[receiver].Some? && !typeInfos[receiver].value.isMutable
    requires |functionType.inputParameterTypes| > 0
    requires ArgumentCountAccepted(|arguments| + 1, |functionType.inputParameterTypes|, functionType.isVariadic)
    requires var p := functionType.inputParameterTypes[0];
      db.underlying(p).Some? && db.underlying(p).value.PointerType? && db.underlying(p).value.isMutable
    requires var pointer := PointerType([typeInfos[receiver].value.typeReference], false);
      db.underlying(pointer) == Some(pointer)
    ensures ArgumentTypeMismatch(0, receiver) in CallDiagnostics(db, fuel, typeInfos, arguments, Some(ImplicitArgument(receiver, true)), functionType)
  {
    var implicit := Some(ImplicitArgument(receiver, true));
    var pointer := PointerType([typeInfos[receiver].value.typeReference], false);
    PointerAssignment(db, functionType.inputParameterTypes[0], pointer, fuel);
    CallDiagnosticsRule(db, fuel, typeInfos, arguments, implicit, functionType, 0);
  }
}
