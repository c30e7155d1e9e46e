/** The compiler's module-level checks (Source/Compiler/Validation.cpp):
    import aliases and imported modules, type references, declaration names
    (duplicates and reserved keywords), enum values and struct members.
    Each check collects diagnostics in a loop, tracking the names seen so far
    in an `all_names` set; each loop is proved equal to a specification
    function, and the properties the validator promises are lemmas about
    those functions. */
module CompilerValidation {
  import opened Wrappers
  import opened Strings
  import opened CompilerTypes

  datatype Position = Position(line: nat, column: nat)
  datatype SourceRange = SourceRange(start: Position, end: Position)

  /** `create_source_range_from_source_location` (on a `Source_location`) and
      `create_source_range_from_source_position`: the range of `count`
      columns on the line where `start` is. */
  function SourceRangeAt(start: Option<Position>, count: nat): (r: Option<SourceRange>)
    ensures r.Some? <==> start.Some?
    ensures r.Some? ==> r.value.start == start.value && r.value.end.line == start.value.line
    ensures r.Some? ==> r.value.end.column == r.value.start.column + count
  {
    if start.None? then None
    else Some(SourceRange(start.value, Position(start.value.line, start.value.column + count)))
  }

  /** `create_source_range_from_source_location` on a `Source_range_location`:
      only the start of the declaration's range is kept. */
  function SourceRangeFromRangeLocation(location: Option<SourceRange>, count: nat): (r: Option<SourceRange>)
    ensures r.Some? <==> location.Some?
    ensures r.Some? ==> r.value.start == location.value.start && r.value.end.line == location.value.start.line
    ensures r.Some? ==> r.value.end.column == location.value.start.column + count
  {
    if location.None? then None else SourceRangeAt(Some(location.value.start), count)
  }

  /** Where a diagnostic points. `SubRange` stands for
      `create_sub_source_range(base, offset, length)`, which is computed
      outside this model. */
  datatype DiagnosticRange =
    | Range(range: Option<SourceRange>)
    | SubRange(base: Option<SourceRange>, offset: nat, length: nat)

  /** What a diagnostic reports. Messages are tags; `External` holds a
      diagnostic produced by a check this model does not compute. */
  datatype Issue =
    | DuplicateImportAlias(alias: string)
    | ModuleNotFound(moduleName: string)
    | TypeDoesNotExist(typeReference: TypeReference)
    | DuplicateDeclarationName(declarationName: string)
    | ReservedKeywordDeclarationName(declarationName: string)
    | DuplicateEnumValueName(enumName: string, valueName: string)
    | DuplicateStructMemberName(structName: string, memberName: string)
    | NotComputableAtCompileTime(ownerName: string, valueName: string)
    | EnumValueNotInt32(enumName: string, valueName: string)
    | MemberTypeMismatch(provided: Option<TypeReference>, expected: TypeReference)
    | BreakOutsideLoop
    | InvalidBreakLoopCount(loopCount: nat)
    | ContinueOutsideLoop
    | InvalidSwitchConditionType(provided: Option<TypeReference>)
    | MultipleDefaultCases
    | SwitchCaseTypeMismatch(caseType: Option<TypeReference>, conditionType: Option<TypeReference>)
    | SwitchCaseNotComputableAtCompileTime
    | DuplicateInstantiateMember(memberName: string)
    | CannotDeduceInstantiateType
    | InstantiateDeclarationNotFound
    | UnknownInstantiateMember(memberName: string)
    | InstantiateMemberTypeMismatch(memberName: string, provided: Option<TypeReference>, expected: TypeReference)
    | InstantiateMembersNotSorted
    | ExplicitInstantiateMemberNotSet(memberName: string)
    | External(message: string)

  /** An error diagnostic of the compiler. */
  datatype Diagnostic = Diagnostic(range: DiagnosticRange, issue: Issue)

  /** The number of diagnostics that report `issue`. */
  function CountOf(ds: seq<Diagnostic>, issue: Issue): nat {
    if |ds| == 0 then 0 else CountOf(ds[..|ds| - 1], issue) + (if ds[|ds| - 1].issue == issue then 1 else 0)
  }

  lemma {:induction false} CountOfConcat(a: seq<Diagnostic>, b: seq<Diagnostic>, issue: Issue)
    ensures CountOf(a + b, issue) == CountOf(a, issue) + CountOf(b, issue)
    decreases |b|
  {
    if |b| > 0 {
      assert (a + b)[..|a + b| - 1] == a + b[..|b| - 1];
      CountOfConcat(a, b[..|b| - 1], issue);
    } else {
      assert a + b == a;
    }
  }

  lemma CountOfSingle(d: Diagnostic, issue: Issue)
    ensures CountOf([d], issue) == if d.issue == issue then 1 else 0
  {
    assert [d][..0] == [];
  }

  /** The `all_names` test: diagnostic `d` when `name` was seen before. */
  function RepeatCheck(seen: seq<string>, name: string, d: Diagnostic): seq<Diagnostic> {
    if name in seen then [d] else []
  }

  lemma RepeatCheckCount(seen: seq<string>, name: string, d: Diagnostic, issue: Issue)
    ensures CountOf(RepeatCheck(seen, name, d), issue) == if name in seen && d.issue == issue then 1 else 0
  {
    CountOfSingle(d, issue);
  }

  /** The number of repeats of `name` after its first occurrence grows by
      one exactly when the last element repeats it. */
  lemma RepeatsStep(names: seq<string>, name: string)
    requires |names| > 0
    ensures var previous := names[..|names| - 1]; var last := names[|names| - 1];
      (if Occurrences(names, name) > 0 then Occurrences(names, name) - 1 else 0)
      == (if Occurrences(previous, name) > 0 then Occurrences(previous, name) - 1 else 0)
         + (if last == name && last in previous then 1 else 0)
  {
    OccurrencesPositive(names[..|names| - 1], name);
  }

  // ----- validate_imports -----

  datatype ImportModule = ImportModule(moduleName: string, alias: string, range: Option<SourceRange>)

  /** The imports' aliases, in order. */
  function Aliases(imports: seq<ImportModule>): (r: seq<string>)
    ensures |r| == |imports|
  {
    if |imports| == 0 then [] else Aliases(imports[..|imports| - 1]) + [imports[|imports| - 1].alias]
  }

  /** The imported modules' names, in order. */
  function ImportedModuleNames(imports: seq<ImportModule>): (r: seq<string>)
    ensures |r| == |imports|
  {
    if |imports| == 0 then [] else ImportedModuleNames(imports[..|imports| - 1]) + [imports[|imports| - 1].moduleName]
  }

  function DuplicateAliasDiagnostic(i: ImportModule): Diagnostic {
    Diagnostic(SubRange(i.range, 11 + |i.moduleName|, |i.alias|), DuplicateImportAlias(i.alias))
  }

  /** A module the database does not hold. */
  function ModuleCheck(db: Database, i: ImportModule): seq<Diagnostic> {
    if i.moduleName in db.modules then []
    else [Diagnostic(SubRange(i.range, 7, |i.moduleName|), ModuleNotFound(i.moduleName))]
  }

  /** Per import, in order: a repeated alias, then a module not found. */
  function ImportDiagnostics(db: Database, imports: seq<ImportModule>): seq<Diagnostic> {
    if |imports| == 0 then []
    else
      var previous := imports[..|imports| - 1];
      var last := imports[|imports| - 1];
      ImportDiagnostics(db, previous) + RepeatCheck(Aliases(previous), last.alias, DuplicateAliasDiagnostic(last)) + ModuleCheck(db, last)
  }

  /** One more import: its diagnostics follow those of the imports before. */
  lemma ImportDiagnosticsStep(db: Database, imports: seq<ImportModule>, i: nat)
    requires i < |imports|
    ensures Aliases(imports[..i + 1]) == Aliases(imports[..i]) + [imports[i].alias]
    ensures ImportDiagnostics(db, imports[..i + 1])
         == ImportDiagnostics(db, imports[..i])
            + RepeatCheck(Aliases(imports[..i]), imports[i].alias, DuplicateAliasDiagnostic(imports[i]))
            + ModuleCheck(db, imports[i])
  {
    assert imports[..i + 1][..i] == imports[..i];
  }

  /** `validate_imports`. */
  method ValidateImports(db: Database, imports: seq<ImportModule>) returns (diagnostics: seq<Diagnostic>)
    ensures diagnostics == ImportDiagnostics(db, imports)
  {
    diagnostics := [];
    var allNames: set<string> := {};
    for i := 0 to |imports|
      invariant forall x :: x in allNames <==> x in Aliases(imports[..i])
      invariant diagnostics == ImportDiagnostics(db, imports[..i])
    {
      ImportDiagnosticsStep(db, imports, i);
      var current := imports[i];
      ghost var repeat := RepeatCheck(Aliases(imports[..i]), current.alias, DuplicateAliasDiagnostic(current));
      ghost var missing := ModuleCheck(db, current);
      ghost var before := diagnostics;
      if current.alias in allNames {
        diagnostics := diagnostics + [DuplicateAliasDiagnostic(current)];
      } else {
        allNames := allNames + {current.alias};
      }
      assert diagnostics == before + repeat;
      if current.moduleName !in db.modules {
        diagnostics := diagnostics + [Diagnostic(SubRange(current.range, 7, |current.moduleName|), ModuleNotFound(current.moduleName))];
      }
      assert diagnostics == before + repeat + missing;
    }
    assert imports[..|imports|] == imports;
  }

  /** One duplicate-alias diagnostic for each repeat of an alias after its
      first occurrence, and one module-not-found diagnostic for each import
      of a module the database does not hold. */
  lemma ImportDiagnosticCounts(db: Database, imports: seq<ImportModule>, alias: string, moduleName: string)
    ensures CountOf(ImportDiagnostics(db, imports), DuplicateImportAlias(alias))
         == if Occurrences(Aliases(imports), alias) > 0 then Occurrences(Aliases(imports), alias) - 1 else 0
    ensures CountOf(ImportDiagnostics(db, imports), ModuleNotFound(moduleName))
         == if moduleName in db.modules then 0 else Occurrences(ImportedModuleNames(imports), moduleName)
  {
    DuplicateAliasCount(db, imports, alias);
    ModuleNotFoundCount(db, imports, moduleName);
  }

  /** How the count of an issue grows with the last import. */
  lemma ImportDiagnosticsCountStep(db: Database, imports: seq<ImportModule>, issue: Issue)
    requires |imports| > 0
    ensures var previous := imports[..|imports| - 1]; var last := imports[|imports| - 1];
      CountOf(ImportDiagnostics(db, imports), issue)
      == CountOf(ImportDiagnostics(db, previous), issue)
         + CountOf(RepeatCheck(Aliases(previous), last.alias, DuplicateAliasDiagnostic(last)), issue)
         + CountOf(ModuleCheck(db, last), issue)
  {
    var previous := imports[..|imports| - 1];
    var last := imports[|imports| - 1];
    var repeat := RepeatCheck(Aliases(previous), last.alias, DuplicateAliasDiagnostic(last));
    CountOfConcat(ImportDiagnostics(db, previous) + repeat, ModuleCheck(db, last), issue);
    CountOfConcat(ImportDiagnostics(db, previous), repeat, issue);
  }

  lemma {:induction false} DuplicateAliasCount(db: Database, imports: seq<ImportModule>, alias: string)
    ensures CountOf(ImportDiagnostics(db, imports), DuplicateImportAlias(alias))
         == if Occurrences(Aliases(imports), alias) > 0 then Occurrences(Aliases(imports), alias) - 1 else 0
  {
    if |imports| > 0 {
      var n := |imports| - 1;
      var previous := imports[..n];
      var last := imports[n];
      DuplicateAliasCount(db, previous, alias);
      ImportDiagnosticsCountStep(db, imports, DuplicateImportAlias(alias));
      RepeatCheckCount(Aliases(previous), last.alias, DuplicateAliasDiagnostic(last), DuplicateImportAlias(alias));
      var missing := ModuleCheck(db, last);
      if missing != [] {
        CountOfSingle(missing[0], DuplicateImportAlias(alias));
      }
      assert Aliases(imports)[..n] == Aliases(previous);
      RepeatsStep(Aliases(imports), alias);
    }
  }

  lemma {:induction false} ModuleNotFoundCount(db: Database, imports: seq<ImportModule>, moduleName: string)
    ensures CountOf(ImportDiagnostics(db, imports), ModuleNotFound(moduleName))
         == if moduleName in db.modules then 0 else Occurrences(ImportedModuleNames(imports), moduleName)
  {
    if |imports| > 0 {
      var n := |imports| - 1;
      var previous := imports[..n];
      var last := imports[n];
      ModuleNotFoundCount(db, previous, moduleName);
      ImportDiagnosticsCountStep(db, imports, ModuleNotFound(moduleName));
      RepeatCheckCount(Aliases(previous), last.alias, DuplicateAliasDiagnostic(last), ModuleNotFound(moduleName));
      var missing := ModuleCheck(db, last);
      if missing != [] {
        CountOfSingle(missing[0], ModuleNotFound(moduleName));
      }
      assert ImportedModuleNames(imports)[..n] == ImportedModuleNames(previous);
    }
  }

  // ----- validate_type_references -----

  /** A type reference met by the module's type-reference visitor, with its source range. */
  datatype LocatedType = LocatedType(typeReference: TypeReference, range: Option<SourceRange>)

  /** `validate_integer_type`: only 8, 16, 32 and 64 bits name an integer type. */
  predicate IsValidIntegerWidth(numberOfBits: nat) {
    numberOfBits == 8 || numberOfBits == 16 || numberOfBits == 32 || numberOfBits == 64
  }

  /** `validate_type_reference`: a custom type must be declared, an integer
      type must have a valid width, and nothing else is checked. */
  function TypeReferenceDiagnostics(db: Database, t: LocatedType): (r: seq<Diagnostic>)
    ensures |r| <= 1
    ensures r == [] <==>
      (t.typeReference.CustomType? ==> (t.typeReference.moduleName, t.typeReference.name) in db.declared)
      && (t.typeReference.IntegerType? ==> IsValidIntegerWidth(t.typeReference.numberOfBits))
    ensures r != [] ==> r == [Diagnostic(Range(t.range), TypeDoesNotExist(t.typeReference))]
  {
    match t.typeReference
    case CustomType(m, n) =>
      if (m, n) in db.declared then [] else [Diagnostic(Range(t.range), TypeDoesNotExist(t.typeReference))]
    case IntegerType(bits, _) =>
      if IsValidIntegerWidth(bits) then [] else [Diagnostic(Range(t.range), TypeDoesNotExist(t.typeReference))]
    case _ => []
  }

  function AllTypeReferenceDiagnostics(db: Database, types: seq<LocatedType>): seq<Diagnostic> {
    if |types| == 0 then []
    else AllTypeReferenceDiagnostics(db, types[..|types| - 1]) + TypeReferenceDiagnostics(db, types[|types| - 1])
  }

  /** `validate_type_references`, over the type references the visitor meets, in its order. */
  method ValidateTypeReferences(db: Database, types: seq<LocatedType>) returns (diagnostics: seq<Diagnostic>)
    ensures diagnostics == AllTypeReferenceDiagnostics(db, types)
  {
    diagnostics := [];
    for i := 0 to |types|
      invariant diagnostics == AllTypeReferenceDiagnostics(db, types[..i])
    {
      assert types[..i + 1][..i] == types[..i];
      diagnostics := diagnostics + TypeReferenceDiagnostics(db, types[i]);
    }
    assert types[..|types|] == types;
  }

  /** The type-reference pass is silent exactly when every custom type is
      declared and every integer type has a valid width. */
  lemma {:induction false} TypeReferencesAccepted(db: Database, types: seq<LocatedType>)
    ensures AllTypeReferenceDiagnostics(db, types) == [] <==>
      forall k :: 0 <= k < |types| ==> TypeReferenceDiagnostics(db, types[k]) == []
  {
    if |types| > 0 {
      var previous := types[..|types| - 1];
      TypeReferencesAccepted(db, previous);
      assert forall k :: 0 <= k < |previous| ==> previous[k] == types[k];
    }
  }

  // ----- Enum and struct declarations -----

  /** What the expression analysis outside this model says about a value's
      statement: whether it is computable at compile time, its type (or the
      per-expression type information), and the range of its first expression. */
  datatype ValueStatement = ValueStatement(isComputableAtCompileTime: bool, valueType: Option<TypeReference>, range: Option<SourceRange>)

  datatype EnumValue = EnumValue(name: string, location: Option<Position>, value: Option<ValueStatement>)

  const Int32: TypeReference := IntegerType(32, true)

  /** The values' names, in order. */
  function EnumValueNames(values: seq<EnumValue>): (r: seq<string>)
    ensures |r| == |values|
  {
    if |values| == 0 then [] else EnumValueNames(values[..|values| - 1]) + [values[|values| - 1].name]
  }

  function DuplicateEnumValueDiagnostic(enumName: string, v: EnumValue): Diagnostic {
    Diagnostic(Range(SourceRangeAt(v.location, |v.name|)), DuplicateEnumValueName(enumName, v.name))
  }

  /** The checks of an enum value's statement, when it has one: it must be
      computable at compile time and, if it is, of type `Int32`. */
  function EnumValueCheck(enumName: string, v: EnumValue): (r: seq<Diagnostic>)
    ensures |r| <= 1
    ensures |r| == 1 ==> r[0].issue.NotComputableAtCompileTime? || r[0].issue.EnumValueNotInt32?
  {
    if v.value.None? then []
    else if !v.value.value.isComputableAtCompileTime
    then [Diagnostic(Range(v.value.value.range), NotComputableAtCompileTime(enumName, v.name))]
    else if v.value.value.valueType != Some(Int32)
    then [Diagnostic(Range(v.value.value.range), EnumValueNotInt32(enumName, v.name))]
    else []
  }

  /** Per value, in order: a repeated name, then the statement's checks. */
  function EnumDiagnostics(enumName: string, values: seq<EnumValue>): seq<Diagnostic> {
    if |values| == 0 then []
    else
      var previous := values[..|values| - 1];
      var last := values[|values| - 1];
      EnumDiagnostics(enumName, previous)
      + RepeatCheck(EnumValueNames(previous), last.name, DuplicateEnumValueDiagnostic(enumName, last))
      + EnumValueCheck(enumName, last)
  }

  /** One more value: its diagnostics follow those of the values before. */
  lemma EnumDiagnosticsStep(enumName: string, values: seq<EnumValue>, i: nat)
    requires i < |values|
    ensures EnumValueNames(values[..i + 1]) == EnumValueNames(values[..i]) + [values[i].name]
    ensures EnumDiagnostics(enumName, values[..i + 1])
         == EnumDiagnostics(enumName, values[..i])
            + RepeatCheck(EnumValueNames(values[..i]), values[i].name, DuplicateEnumValueDiagnostic(enumName, values[i]))
            + EnumValueCheck(enumName, values[i])
  {
    assert values[..i + 1][..i] == values[..i];
  }

  /** `validate_enum_declaration`. */
  method ValidateEnumDeclaration(enumName: string, values: seq<EnumValue>) returns (diagnostics: seq<Diagnostic>)
    ensures diagnostics == EnumDiagnostics(enumName, values)
  {
    diagnostics := [];
    var allNames: set<string> := {};
    for i := 0 to |values|
      invariant forall x :: x in allNames <==> x in EnumValueNames(values[..i])
      invariant diagnostics == EnumDiagnostics(enumName, values[..i])
    {
      EnumDiagnosticsStep(enumName, values, i);
      var v := values[i];
      ghost var named := diagnostics
        + RepeatCheck(EnumValueNames(values[..i]), v.name, DuplicateEnumValueDiagnostic(enumName, v));
      if v.name in allNames {
        diagnostics := diagnostics + [DuplicateEnumValueDiagnostic(enumName, v)];
      } else {
        allNames := allNames + {v.name};
      }
      assert diagnostics == named;
      if v.value.Some? {
        var statement := v.value.value;
        if !statement.isComputableAtCompileTime {
          diagnostics := diagnostics + [Diagnostic(Range(statement.range), NotComputableAtCompileTime(enumName, v.name))];
          continue;
        }
        if statement.valueType.None? || statement.valueType.value != Int32 {
          diagnostics := diagnostics + [Diagnostic(Range(statement.range), EnumValueNotInt32(enumName, v.name))];
        }
      }
    }
    assert values[..|values|] == values;
  }

  /** At most one diagnostic, which does not report `issue`. */
  lemma CountOfOther(ds: seq<Diagnostic>, issue: Issue)
    requires |ds| <= 1 && (|ds| == 1 ==> ds[0].issue != issue)
    ensures CountOf(ds, issue) == 0
  {
    if |ds| == 1 {
      assert ds == [ds[0]];
      CountOfSingle(ds[0], issue);
    }
  }

  /** The count of `issue` after a repeat check and a check that cannot
      report it. */
  lemma RepeatThenOtherCount(before: seq<Diagnostic>, seen: seq<string>, name: string, d: Diagnostic,
                             check: seq<Diagnostic>, issue: Issue)
    requires |check| <= 1 && (|check| == 1 ==> check[0].issue != issue)
    ensures CountOf(before + RepeatCheck(seen, name, d) + check, issue)
         == CountOf(before, issue) + (if name in seen && d.issue == issue then 1 else 0)
  {
    CountOfConcat(before + RepeatCheck(seen, name, d), check, issue);
    CountOfConcat(before, RepeatCheck(seen, name, d), issue);
    RepeatCheckCount(seen, name, d, issue);
    CountOfOther(check, issue);
  }

  /** One duplicate diagnostic for each repeat of a value name after its
      first occurrence. */
  lemma {:induction false} EnumDuplicateCount(enumName: string, values: seq<EnumValue>, name: string)
    ensures CountOf(EnumDiagnostics(enumName, values), DuplicateEnumValueName(enumName, name))
         == if Occurrences(EnumValueNames(values), name) > 0 then Occurrences(EnumValueNames(values), name) - 1 else 0
  {
    if |values| > 0 {
      var n := |values| - 1;
      var previous := values[..n];
      var last := values[n];
      var issue := DuplicateEnumValueName(enumName, name);
      EnumDuplicateCount(enumName, previous, name);
      var repeat := RepeatCheck(EnumValueNames(previous), last.name, DuplicateEnumValueDiagnostic(enumName, last));
      CountOfConcat(EnumDiagnostics(enumName, previous) + repeat, EnumValueCheck(enumName, last), issue);
      CountOfConcat(EnumDiagnostics(enumName, previous), repeat, issue);
      RepeatCheckCount(EnumValueNames(previous), last.name, DuplicateEnumValueDiagnostic(enumName, last), issue);
      CountOfOther(EnumValueCheck(enumName, last), issue);
      assert EnumValueNames(values)[..n] == EnumValueNames(previous);
      RepeatsStep(EnumValueNames(values), name);
    }
  }

  /** A struct member's default value: compile-time computability, the
      per-expression type information of its statement, and its range. */
  datatype DefaultValue = DefaultValue(isComputableAtCompileTime: bool, typeInfos: seq<Option<TypeInfo>>, range: Option<SourceRange>)

  datatype StructMember = StructMember(name: string, position: Option<Position>, memberType: TypeReference, defaultValue: DefaultValue)

  /** The members' names, in order. */
  function StructMemberNames(members: seq<StructMember>): (r: seq<string>)
    ensures |r| == |members|
  {
    if |members| == 0 then [] else StructMemberNames(members[..|members| - 1]) + [members[|members| - 1].name]
  }

  function DuplicateStructMemberDiagnostic(structName: string, m: StructMember): Diagnostic {
    Diagnostic(Range(SourceRangeAt(m.position, |m.name|)), DuplicateStructMemberName(structName, m.name))
  }

  /** The checks of a member's default value: it must be computable at
      compile time and, if it is, the type of its first expression must be
      compatible with the member's type. */
  function StructMemberCheck(db: Database, structName: string, m: StructMember): (r: seq<Diagnostic>)
    ensures |r| <= 1
    ensures |r| == 1 ==> r[0].issue.NotComputableAtCompileTime? || r[0].issue.MemberTypeMismatch?
  {
    if !m.defaultValue.isComputableAtCompileTime
    then [Diagnostic(Range(m.defaultValue.range), NotComputableAtCompileTime(structName, m.name))]
    else
      var provided := ExpressionTypeFromTypeInfo(m.defaultValue.typeInfos, 0);
      if !AreCompatibleTypes(db, provided, Some(m.memberType))
      then [Diagnostic(Range(m.defaultValue.range), MemberTypeMismatch(provided, m.memberType))]
      else []
  }

  /** Per member, in order: a repeated name, then the default value's checks. */
  function StructDiagnostics(db: Database, structName: string, members: seq<StructMember>): seq<Diagnostic> {
    if |members| == 0 then []
    else
      var previous := members[..|members| - 1];
      var last := members[|members| - 1];
      StructDiagnostics(db, structName, previous)
      + RepeatCheck(StructMemberNames(previous), last.name, DuplicateStructMemberDiagnostic(structName, last))
      + StructMemberCheck(db, structName, last)
  }

  /** One more member: its diagnostics follow those of the members before. */
  lemma StructDiagnosticsStep(db: Database, structName: string, members: seq<StructMember>, i: nat)
    requires i < |members|
    ensures StructMemberNames(members[..i + 1]) == StructMemberNames(members[..i]) + [members[i].name]
    ensures StructDiagnostics(db, structName, members[..i + 1])
         == StructDiagnostics(db, structName, members[..i])
            + RepeatCheck(StructMemberNames(members[..i]), members[i].name, DuplicateStructMemberDiagnostic(structName, members[i]))
            + StructMemberCheck(db, structName, members[i])
  {
    assert members[..i + 1][..i] == members[..i];
  }

  /** `validate_struct_declaration`. */
  method ValidateStructDeclaration(db: Database, structName: string, members: seq<StructMember>) returns (diagnostics: seq<Diagnostic>)
    ensures diagnostics == StructDiagnostics(db, structName, members)
  {
    diagnostics := [];
    var allNames: set<string> := {};
    for i := 0 to |members|
      invariant forall x :: x in allNames <==> x in StructMemberNames(members[..i])
      invariant diagnostics == StructDiagnostics(db, structName, members[..i])
    {
      StructDiagnosticsStep(db, structName, members, i);
      var m := members[i];
      ghost var named := diagnostics
        + RepeatCheck(StructMemberNames(members[..i]), m.name, DuplicateStructMemberDiagnostic(structName, m));
      if m.name in allNames {
        diagnostics := diagnostics + [DuplicateStructMemberDiagnostic(structName, m)];
      } else {
        allNames := allNames + {m.name};
      }
      assert diagnostics == named;
      if !m.defaultValue.isComputableAtCompileTime {
        diagnostics := diagnostics + [Diagnostic(Range(m.defaultValue.range), NotComputableAtCompileTime(structName, m.name))];
        continue;
      }
      var provided := ExpressionTypeFromTypeInfo(m.defaultValue.typeInfos, 0);
      if !AreCompatibleTypes(db, provided, Some(m.memberType)) {
        diagnostics := diagnostics + [Diagnostic(Range(m.defaultValue.range), MemberTypeMismatch(provided, m.memberType))];
      }
    }
    assert members[..|members|] == members;
  }

  /** One duplicate diagnostic for each repeat of a member name after its
      first occurrence. */
  lemma {:induction false} StructDuplicateCount(db: Database, structName: string, members: seq<StructMember>, name: string)
    ensures CountOf(StructDiagnostics(db, structName, members), DuplicateStructMemberName(structName, name))
         == if Occurrences(StructMemberNames(members), name) > 0 then Occurrences(StructMemberNames(members), name) - 1 else 0
  {
    if |members| > 0 {
      var n := |members| - 1;
      StructDuplicateCount(db, structName, members[..n], name);
      StructDuplicateStep(db, structName, members, name);
      assert StructMemberNames(members)[..n] == StructMemberNames(members[..n]);
      RepeatsStep(StructMemberNames(members), name);
    }
  }

  /** The last member adds a duplicate diagnostic for `name` exactly when
      it repeats `name`. */
  lemma StructDuplicateStep(db: Database, structName: string, members: seq<StructMember>, name: string)
    requires |members| > 0
    ensures var previous := members[..|members| - 1]; var last := members[|members| - 1];
      CountOf(StructDiagnostics(db, structName, members), DuplicateStructMemberName(structName, name))
      == CountOf(StructDiagnostics(db, structName, previous), DuplicateStructMemberName(structName, name))
         + (if last.name == name && last.name in StructMemberNames(previous) then 1 else 0)
  {
    var previous := members[..|members| - 1];
    var last := members[|members| - 1];
    var check := StructMemberCheck(db, structName, last);
    assert StructDiagnostics(db, structName, members)
      == StructDiagnostics(db, structName, previous)
         + RepeatCheck(StructMemberNames(previous), last.name, DuplicateStructMemberDiagnostic(structName, last))
         + check;
    RepeatThenOtherCount(StructDiagnostics(db, structName, previous), StructMemberNames(previous), last.name,
      DuplicateStructMemberDiagnostic(structName, last), check, DuplicateStructMemberName(structName, name));
  }

  // ----- validate_declarations -----

  /** `get_reserved_keywords`. */
  const ReservedKeywords: seq<string> := [
    "Byte", "Int8", "Int16", "Int32", "Int64",
    "Uint8", "Uint16", "Uint32", "Uint64",
    "Float16", "Float32", "Float64",
    "true", "false"]

  /** A declaration body: enums and structs are checked by this model; the
      diagnostics of global variables, unions and functions come from checks
      outside it; aliases and constructors have no checks of their own. */
  datatype DeclarationBody =
    | AliasBody
    | EnumBody(values: seq<EnumValue>)
    | GlobalVariableBody(globalDiagnostics: seq<ExternalDiagnostic>)
    | StructBody(members: seq<StructMember>)
    | UnionBody(unionDiagnostics: seq<ExternalDiagnostic>)
    | FunctionBody(functionDiagnostics: seq<ExternalDiagnostic>)
    | FunctionConstructorBody
    | TypeConstructorBody

  datatype ExternalDiagnostic = ExternalDiagnostic(range: Option<SourceRange>, message: string)

  datatype Declaration = Declaration(name: string, location: Option<SourceRange>, body: DeclarationBody)

  /** One bucket list of a module (`export_declarations` or `internal_declarations`). */
  datatype Declarations = Declarations(
    aliases: seq<Declaration>, enums: seq<Declaration>, globalVariables: seq<Declaration>,
    structs: seq<Declaration>, unions: seq<Declaration>, functions: seq<Declaration>,
    functionConstructors: seq<Declaration>, typeConstructors: seq<Declaration>)

  /** The order in which `validate_declarations` visits the declarations:
      kind by kind, the exported bucket before the internal one. */
  function VisitOrder(exported: Declarations, internal: Declarations): seq<Declaration> {
    exported.aliases + internal.aliases
    + exported.enums + internal.enums
    + exported.globalVariables + internal.globalVariables
    + exported.structs + internal.structs
    + exported.unions + internal.unions
    + exported.functions + internal.functions
    + exported.functionConstructors + internal.functionConstructors
    + exported.typeConstructors + internal.typeConstructors
  }

  /** The declarations' names, in visit order. */
  function DeclarationNames(ds: seq<Declaration>): (r: seq<string>)
    ensures |r| == |ds|
  {
    if |ds| == 0 then [] else DeclarationNames(ds[..|ds| - 1]) + [ds[|ds| - 1].name]
  }

  function ExternalDiagnostics(es: seq<ExternalDiagnostic>): (r: seq<Diagnostic>)
    ensures |r| == |es| && forall k :: 0 <= k < |es| ==> r[k] == Diagnostic(Range(es[k].range), External(es[k].message))
  {
    seq(|es|, k requires 0 <= k < |es| => Diagnostic(Range(es[k].range), External(es[k].message)))
  }

  function DeclarationNameRange(d: Declaration): DiagnosticRange {
    Range(SourceRangeFromRangeLocation(d.location, |d.name|))
  }

  function DuplicateDeclarationDiagnostic(d: Declaration): Diagnostic {
    Diagnostic(DeclarationNameRange(d), DuplicateDeclarationName(d.name))
  }

  /** The reserved-keyword half of `process_declaration_name`. */
  function ReservedKeywordCheck(d: Declaration): (r: seq<Diagnostic>)
    ensures r == [] <==> d.name !in ReservedKeywords
    ensures r != [] ==> r == [Diagnostic(DeclarationNameRange(d), ReservedKeywordDeclarationName(d.name))]
  {
    if d.name in ReservedKeywords then [Diagnostic(DeclarationNameRange(d), ReservedKeywordDeclarationName(d.name))] else []
  }

  /** The checks of the declaration's own kind. */
  function BodyDiagnostics(db: Database, d: Declaration): seq<Diagnostic> {
    match d.body
    case EnumBody(values) => EnumDiagnostics(d.name, values)
    case StructBody(members) => StructDiagnostics(db, d.name, members)
    case GlobalVariableBody(es) => ExternalDiagnostics(es)
    case UnionBody(es) => ExternalDiagnostics(es)
    case FunctionBody(es) => ExternalDiagnostics(es)
    case _ => []
  }

  /** Per declaration, in visit order: a repeated name, a reserved keyword,
      then the kind's own checks. */
  function DeclarationDiagnostics(db: Database, ds: seq<Declaration>): seq<Diagnostic> {
    if |ds| == 0 then []
    else
      var previous := ds[..|ds| - 1];
      var last := ds[|ds| - 1];
      DeclarationDiagnostics(db, previous)
      + RepeatCheck(DeclarationNames(previous), last.name, DuplicateDeclarationDiagnostic(last))
      + ReservedKeywordCheck(last)
      + BodyDiagnostics(db, last)
  }

  /** The per-kind validator `validate_declarations` calls after the name checks. */
  method ValidateDeclarationBody(db: Database, d: Declaration) returns (diagnostics: seq<Diagnostic>)
    ensures diagnostics == BodyDiagnostics(db, d)
  {
    match d.body {
      case EnumBody(values) =>
        diagnostics := ValidateEnumDeclaration(d.name, values);
      case StructBody(members) =>
        diagnostics := ValidateStructDeclaration(db, d.name, members);
      case GlobalVariableBody(es) =>
        diagnostics := ExternalDiagnostics(es);
      case UnionBody(es) =>
        diagnostics := ExternalDiagnostics(es);
      case FunctionBody(es) =>
        diagnostics := ExternalDiagnostics(es);
      case _ =>
        diagnostics := [];
    }
  }

  /** `validate_declarations`, before the final `sort_diagnostics`: the name
      checks and the kind's own checks of every declaration, in visit order,
      with one `all_names` set shared by all kinds. */
  method ValidateDeclarations(db: Database, exported: Declarations, internal: Declarations) returns (diagnostics: seq<Diagnostic>)
    ensures diagnostics == DeclarationDiagnostics(db, VisitOrder(exported, internal))
  {
    diagnostics := ValidateDeclarationsInOrder(db, VisitOrder(exported, internal));
  }

  lemma DeclarationDiagnosticsStep(db: Database, ds: seq<Declaration>, i: nat)
    requires i < |ds|
    ensures DeclarationDiagnostics(db, ds[..i + 1])
         == DeclarationDiagnostics(db, ds[..i])
            + (RepeatCheck(DeclarationNames(ds[..i]), ds[i].name, DuplicateDeclarationDiagnostic(ds[i])) + ReservedKeywordCheck(ds[i]))
            + BodyDiagnostics(db, ds[i])
  {
    assert ds[..i + 1][..i] == ds[..i];
  }

  /** The loop of `validate_declarations` over the declarations in visit order. */
  method ValidateDeclarationsInOrder(db: Database, ds: seq<Declaration>) returns (diagnostics: seq<Diagnostic>)
    ensures diagnostics == DeclarationDiagnostics(db, ds)
  {
    diagnostics := [];
    var allNames: set<string> := {};
    for i := 0 to |ds|
      invariant forall x :: x in allNames <==> x in DeclarationNames(ds[..i])
      invariant diagnostics == DeclarationDiagnostics(db, ds[..i])
    {
      DeclarationDiagnosticsStep(db, ds, i);
      DeclarationNamesStep(ds, i);
      var nameDiagnostics;
      nameDiagnostics, allNames := CheckDeclarationName(allNames, DeclarationNames(ds[..i]), ds[i]);
      var bodyDiagnostics := ValidateDeclarationBody(db, ds[i]);
      diagnostics := diagnostics + nameDiagnostics + bodyDiagnostics;
    }
    assert ds[..|ds|] == ds;
  }

  lemma DeclarationNamesStep(ds: seq<Declaration>, i: nat)
    requires i < |ds|
    ensures DeclarationNames(ds[..i + 1]) == DeclarationNames(ds[..i]) + [ds[i].name]
  {
    assert ds[..i + 1][..i] == ds[..i];
  }

  /** The name checks of `validate_declarations` for one declaration:
      a repeat of an earlier name, then a reserved keyword; the name joins
      `allNames`. */
  method CheckDeclarationName(allNames: set<string>, ghost previous: seq<string>, d: Declaration)
    returns (nameDiagnostics: seq<Diagnostic>, names: set<string>)
    requires forall x :: x in allNames <==> x in previous
    ensures nameDiagnostics == RepeatCheck(previous, d.name, DuplicateDeclarationDiagnostic(d)) + ReservedKeywordCheck(d)
    ensures forall x :: x in names <==> x in previous + [d.name]
  {
    nameDiagnostics := [];
    names := allNames;
    if d.name in allNames {
      nameDiagnostics := [DuplicateDeclarationDiagnostic(d)];
    } else {
      names := allNames + {d.name};
    }
    if d.name in ReservedKeywords {
      nameDiagnostics := nameDiagnostics + [Diagnostic(DeclarationNameRange(d), ReservedKeywordDeclarationName(d.name))];
    }
  }

  /** No diagnostic in `ds` reports a declaration name. */
  predicate NoNameIssues(ds: seq<Diagnostic>) {
    forall k :: 0 <= k < |ds| ==> !ds[k].issue.DuplicateDeclarationName? && !ds[k].issue.ReservedKeywordDeclarationName?
  }

  lemma {:induction false} NoNameIssuesCount(ds: seq<Diagnostic>, name: string)
    requires NoNameIssues(ds)
    ensures CountOf(ds, DuplicateDeclarationName(name)) == 0
    ensures CountOf(ds, ReservedKeywordDeclarationName(name)) == 0
  {
    if |ds| > 0 {
      NoNameIssuesCount(ds[..|ds| - 1], name);
    }
  }

  lemma {:induction false} EnumReportsNoNames(enumName: string, values: seq<EnumValue>)
    ensures NoNameIssues(EnumDiagnostics(enumName, values))
  {
    if |values| > 0 {
      EnumReportsNoNames(enumName, values[..|values| - 1]);
    }
  }

  lemma {:induction false} StructReportsNoNames(db: Database, structName: string, members: seq<StructMember>)
    ensures NoNameIssues(StructDiagnostics(db, structName, members))
  {
    if |members| > 0 {
      StructReportsNoNames(db, structName, members[..|members| - 1]);
    }
  }

  /** The kind's own checks never report a declaration name. */
  lemma BodyReportsNoNames(db: Database, d: Declaration)
    ensures NoNameIssues(BodyDiagnostics(db, d))
  {
    match d.body
    case EnumBody(values) => EnumReportsNoNames(d.name, values);
    case StructBody(members) => StructReportsNoNames(db, d.name, members);
    case _ =>
  }

  /** The name diagnostics the last declaration adds. */
  lemma DeclarationStepCounts(db: Database, ds: seq<Declaration>, name: string)
    requires |ds| > 0
    ensures var previous := ds[..|ds| - 1]; var last := ds[|ds| - 1];
      && CountOf(DeclarationDiagnostics(db, ds), DuplicateDeclarationName(name))
         == CountOf(DeclarationDiagnostics(db, previous), DuplicateDeclarationName(name))
            + (if last.name == name && last.name in DeclarationNames(previous) then 1 else 0)
      && CountOf(DeclarationDiagnostics(db, ds), ReservedKeywordDeclarationName(name))
         == CountOf(DeclarationDiagnostics(db, previous), ReservedKeywordDeclarationName(name))
            + (if last.name == name && name in ReservedKeywords then 1 else 0)
  {
    var previous := ds[..|ds| - 1];
    var last := ds[|ds| - 1];
    var duplicate := DuplicateDeclarationName(name);
    var reserved := ReservedKeywordDeclarationName(name);
    var dd := DeclarationDiagnostics(db, previous);
    var repeat := RepeatCheck(DeclarationNames(previous), last.name, DuplicateDeclarationDiagnostic(last));
    var keyword := ReservedKeywordCheck(last);
    var body := BodyDiagnostics(db, last);
    assert DeclarationDiagnostics(db, ds) == dd + repeat + keyword + body;
    CountOfConcat(dd + repeat + keyword, body, duplicate);
    CountOfConcat(dd + repeat + keyword, body, reserved);
    CountOfConcat(dd + repeat, keyword, duplicate);
    CountOfConcat(dd + repeat, keyword, reserved);
    CountOfConcat(dd, repeat, duplicate);
    CountOfConcat(dd, repeat, reserved);
    RepeatCheckCount(DeclarationNames(previous), last.name, DuplicateDeclarationDiagnostic(last), duplicate);
    RepeatCheckCount(DeclarationNames(previous), last.name, DuplicateDeclarationDiagnostic(last), reserved);
    if keyword != [] {
      CountOfSingle(keyword[0], duplicate);
      CountOfSingle(keyword[0], reserved);
    }
    BodyReportsNoNames(db, last);
    NoNameIssuesCount(body, name);
  }

  /** One duplicate diagnostic for each repeat of a declaration name after
      its first occurrence (across all kinds and both buckets), and one
      reserved-keyword diagnostic for every declaration named by a reserved
      keyword. */
  lemma {:induction false} DeclarationNameCounts(db: Database, ds: seq<Declaration>, name: string)
    ensures CountOf(DeclarationDiagnostics(db, ds), DuplicateDeclarationName(name))
         == if Occurrences(DeclarationNames(ds), name) > 0 then Occurrences(DeclarationNames(ds), name) - 1 else 0
    ensures CountOf(DeclarationDiagnostics(db, ds), ReservedKeywordDeclarationName(name))
         == if name in ReservedKeywords then Occurrences(DeclarationNames(ds), name) else 0
  {
    if |ds| > 0 {
      var n := |ds| - 1;
      var previous := ds[..n];
      var last := ds[n];
      DeclarationNameCounts(db, previous, name);
      DeclarationStepCounts(db, ds, name);
      assert DeclarationNames(ds)[..n] == DeclarationNames(previous);
      RepeatsStep(DeclarationNames(ds), name);
    }
  }

  // ----- validate_module -----

  /** The first non-empty list of the three passes, or none. */
  function FirstNonEmpty(first: seq<Diagnostic>, second: seq<Diagnostic>, third: seq<Diagnostic>): (r: seq<Diagnostic>)
    ensures r == [] <==> first == [] && second == [] && third == []
    ensures r != [] ==> r == first || (first == [] && r == second) || (first == [] && second == [] && r == third)
  {
    if first != [] then first else if second != [] then second else third
  }

  /** `validate_module`: the import pass, then the type-reference pass, then
      the declaration pass; the first one that reports anything decides. */
  method ValidateModule(db: Database, imports: seq<ImportModule>, types: seq<LocatedType>, exported: Declarations, internal: Declarations)
    returns (diagnostics: seq<Diagnostic>)
    ensures diagnostics == FirstNonEmpty(
      ImportDiagnostics(db, imports),
      AllTypeReferenceDiagnostics(db, types),
      DeclarationDiagnostics(db, VisitOrder(exported, internal)))
  {
    diagnostics := ValidateImports(db, imports);
    if diagnostics != [] {
      return;
    }
    diagnostics := ValidateTypeReferences(db, types);
    if diagnostics != [] {
      return;
    }
    diagnostics := ValidateDeclarations(db, exported, internal);
  }
}
