/** The compiler's checks of control-flow and instantiate expressions
    (Source/Compiler/Validation.cpp): `break` and `continue` nesting, the
    switch condition and its single default case, and the members of an
    instantiate expression (no duplicates, declaration order, every member
    set when the instantiation is explicit). */
module CompilerStatementValidation {
  import opened Wrappers
  import opened Strings
  import opened CompilerTypes
  import opened CompilerValidation

  /** The kinds of expression the validator pushes onto `scope.blocks`
      (for loops, switches and while loops); innermost last. */
  datatype BlockKind = ForLoopBlock | SwitchBlock | WhileLoopBlock

  predicate IsLoopBlock(b: BlockKind) {
    b.ForLoopBlock? || b.WhileLoopBlock?
  }

  // ----- validate_break_expression -----

  /** A `break` with `loopCount` enclosing blocks to leave. */
  function BreakDiagnostics(blocks: seq<BlockKind>, loopCount: nat, range: Option<SourceRange>): (r: seq<Diagnostic>)
    ensures |r| <= 1
    ensures r == [] <==> |blocks| > 0 && loopCount <= |blocks|
    ensures |blocks| == 0 ==> r == [Diagnostic(Range(range), BreakOutsideLoop)]
    ensures 0 < |blocks| < loopCount ==> r == [Diagnostic(SubRange(range, 6, 1), InvalidBreakLoopCount(loopCount))]
  {
    if |blocks| == 0 then [Diagnostic(Range(range), BreakOutsideLoop)]
    else if |blocks| < loopCount then [Diagnostic(SubRange(range, 6, 1), InvalidBreakLoopCount(loopCount))]
    else []
  }

  // ----- validate_continue_expression -----

  function HasLoopBlock(blocks: seq<BlockKind>): (r: bool)
    ensures r <==> exists k :: 0 <= k < |blocks| && IsLoopBlock(blocks[k])
  {
    if |blocks| == 0 then false
    else IsLoopBlock(blocks[0]) || (assert forall k :: 0 <= k < |blocks| - 1 ==> blocks[1..][k] == blocks[k + 1];
                                    HasLoopBlock(blocks[1..]))
  }

  /** A `continue` needs an enclosing for or while loop; a switch does not count. */
  function ContinueDiagnostics(blocks: seq<BlockKind>, range: Option<SourceRange>): (r: seq<Diagnostic>)
    ensures r == [] <==> exists k :: 0 <= k < |blocks| && IsLoopBlock(blocks[k])
    ensures r != [] ==> r == [Diagnostic(Range(range), ContinueOutsideLoop)]
  {
    if HasLoopBlock(blocks) then [] else [Diagnostic(Range(range), ContinueOutsideLoop)]
  }

  /** Every `continue` accepted by the validator is also accepted by `break`,
      but not conversely: inside a switch that no loop encloses, `break`
      is accepted and `continue` is rejected. */
  lemma ContinueStricterThanBreak(blocks: seq<BlockKind>, range: Option<SourceRange>)
    ensures ContinueDiagnostics(blocks, range) == [] ==> BreakDiagnostics(blocks, 1, range) == []
    ensures BreakDiagnostics([SwitchBlock], 1, range) == []
    ensures ContinueDiagnostics([SwitchBlock], range) != []
  {
    if ContinueDiagnostics(blocks, range) == [] {
      var k :| 0 <= k < |blocks| && IsLoopBlock(blocks[k]);
    }
    assert !IsLoopBlock([SwitchBlock][0]);
  }

  // ----- The statements of a block -----

  /** The statements whose checks depend on the enclosing blocks; every
      other statement's diagnostics are computed outside this model and
      are carried by `OtherStatement`. */
  datatype Statement =
    | BreakStatement(loopCount: nat, range: Option<SourceRange>)
    | ContinueStatement(range: Option<SourceRange>)
    | OtherStatement(diagnostics: seq<Diagnostic>)

  function StatementDiagnostics(blocks: seq<BlockKind>, s: Statement): seq<Diagnostic> {
    match s
    case BreakStatement(loopCount, range) => BreakDiagnostics(blocks, loopCount, range)
    case ContinueStatement(range) => ContinueDiagnostics(blocks, range)
    case OtherStatement(diagnostics) => diagnostics
  }

  /** `validate_statements`: the diagnostics of each statement, in order. */
  function StatementsDiagnostics(blocks: seq<BlockKind>, statements: seq<Statement>): seq<Diagnostic> {
    if |statements| == 0 then []
    else StatementsDiagnostics(blocks, statements[..|statements| - 1]) + StatementDiagnostics(blocks, statements[|statements| - 1])
  }

  // ----- validate_switch_expression -----

  /** The condition or a case value: its type, whether it is computable at
      compile time, and where it is. */
  datatype SwitchValue = SwitchValue(valueType: Option<TypeReference>, isComputableAtCompileTime: bool, range: Option<SourceRange>)

  /** A case; `caseValue == None` is the default case. */
  datatype SwitchCase = SwitchCase(caseValue: Option<SwitchValue>, statements: seq<Statement>)

  /** The condition must have an enum or an integer type. */
  predicate IsValidSwitchCondition(db: Database, conditionType: Option<TypeReference>) {
    conditionType.Some? && (db.isEnum(conditionType.value) || conditionType.value.IntegerType?)
  }

  function DefaultCount(cases: seq<SwitchCase>): nat {
    if |cases| == 0 then 0
    else DefaultCount(cases[..|cases| - 1]) + (if cases[|cases| - 1].caseValue.None? then 1 else 0)
  }

  /** The diagnostics of one non-default case: a type mismatch, else a
      value not known at compile time; then those of its statements,
      which are checked inside the switch's block. */
  function CaseDiagnostics(db: Database, blocks: seq<BlockKind>, conditionType: Option<TypeReference>, c: SwitchCase): seq<Diagnostic>
    requires c.caseValue.Some?
  {
    var v := c.caseValue.value;
    var valueCheck :=
      if !AreCompatibleTypes(db, conditionType, v.valueType) then [Diagnostic(Range(v.range), SwitchCaseTypeMismatch(v.valueType, conditionType))]
      else if !v.isComputableAtCompileTime then [Diagnostic(Range(v.range), SwitchCaseNotComputableAtCompileTime)]
      else [];
    valueCheck + StatementsDiagnostics(blocks + [SwitchBlock], c.statements)
  }

  /** The diagnostics of all cases in order; a default case contributes none. */
  function CasesDiagnostics(db: Database, blocks: seq<BlockKind>, conditionType: Option<TypeReference>, cases: seq<SwitchCase>): seq<Diagnostic> {
    if |cases| == 0 then []
    else
      var last := cases[|cases| - 1];
      CasesDiagnostics(db, blocks, conditionType, cases[..|cases| - 1])
        + (if last.caseValue.None? then [] else CaseDiagnostics(db, blocks, conditionType, last))
  }

  /** What `validate_switch_expression` reports: a bad condition alone;
      else a second default case alone (everything found before it is
      dropped); else the diagnostics of every case. */
  function SwitchDiagnostics(db: Database, blocks: seq<BlockKind>, condition: SwitchValue, cases: seq<SwitchCase>, range: Option<SourceRange>): seq<Diagnostic> {
    if !IsValidSwitchCondition(db, condition.valueType) then [Diagnostic(Range(condition.range), InvalidSwitchConditionType(condition.valueType))]
    else if DefaultCount(cases) > 1 then [Diagnostic(Range(range), MultipleDefaultCases)]
    else CasesDiagnostics(db, blocks, condition.valueType, cases)
  }

  lemma SwitchCaseStep(db: Database, blocks: seq<BlockKind>, t: Option<TypeReference>, cases: seq<SwitchCase>, i: nat)
    requires i < |cases|
    ensures DefaultCount(cases[..i + 1]) == DefaultCount(cases[..i]) + (if cases[i].caseValue.None? then 1 else 0)
    ensures CasesDiagnostics(db, blocks, t, cases[..i + 1])
         == CasesDiagnostics(db, blocks, t, cases[..i]) + (if cases[i].caseValue.None? then [] else CaseDiagnostics(db, blocks, t, cases[i]))
  {
    assert cases[..i + 1][..i] == cases[..i];
  }

  lemma {:induction false} DefaultCountPrefix(cases: seq<SwitchCase>, i: nat)
    requires i <= |cases|
    ensures DefaultCount(cases[..i]) <= DefaultCount(cases)
    decreases |cases| - i
  {
    if i < |cases| {
      DefaultCountPrefix(cases[..|cases| - 1], i);
      assert cases[..|cases| - 1][..i] == cases[..i];
    } else {
      assert cases[..i] == cases;
    }
  }

  /** The body of the loop of `validate_switch_expression` for a case that
      has a value. */
  method ValidateCase(db: Database, blocks: seq<BlockKind>, conditionType: Option<TypeReference>, c: SwitchCase)
    returns (diagnostics: seq<Diagnostic>)
    requires c.caseValue.Some?
    ensures diagnostics == CaseDiagnostics(db, blocks, conditionType, c)
  {
    var v := c.caseValue.value;
    diagnostics := [];
    if !AreCompatibleTypes(db, conditionType, v.valueType) {
      diagnostics := [Diagnostic(Range(v.range), SwitchCaseTypeMismatch(v.valueType, conditionType))];
    } else if !v.isComputableAtCompileTime {
      diagnostics := [Diagnostic(Range(v.range), SwitchCaseNotComputableAtCompileTime)];
    }
    diagnostics := diagnostics + StatementsDiagnostics(blocks + [SwitchBlock], c.statements);
  }

  /** The loop of `validate_switch_expression`. */
  method ValidateSwitch(db: Database, blocks: seq<BlockKind>, condition: SwitchValue, cases: seq<SwitchCase>, range: Option<SourceRange>)
    returns (diagnostics: seq<Diagnostic>)
    ensures diagnostics == SwitchDiagnostics(db, blocks, condition, cases, range)
  {
    var conditionType := condition.valueType;
    if conditionType.None? || (!db.isEnum(conditionType.value) && !conditionType.value.IntegerType?) {
      return [Diagnostic(Range(condition.range), InvalidSwitchConditionType(conditionType))];
    }
    diagnostics := [];
    var defaultCaseCount := 0;
    for i := 0 to |cases|
      invariant defaultCaseCount == DefaultCount(cases[..i]) <= 1
      invariant diagnostics == CasesDiagnostics(db, blocks, conditionType, cases[..i])
    {
      SwitchCaseStep(db, blocks, conditionType, cases, i);
      var c := cases[i];
      if c.caseValue.None? {
        defaultCaseCount := defaultCaseCount + 1;
        if defaultCaseCount > 1 {
          DefaultCountPrefix(cases, i + 1);
          return [Diagnostic(Range(range), MultipleDefaultCases)];
        }
        continue;
      }
      var caseDiagnostics := ValidateCase(db, blocks, conditionType, c);
      diagnostics := diagnostics + caseDiagnostics;
    }
    assert cases[..|cases|] == cases;
    DefaultCountPrefix(cases, |cases|);
  }

  /** More than one default case means two distinct cases are defaults. */
  lemma {:induction false} TwoDefaults(cases: seq<SwitchCase>)
    ensures DefaultCount(cases) > 1 <==>
      exists i, j :: 0 <= i < j < |cases| && cases[i].caseValue.None? && cases[j].caseValue.None?
  {
    if |cases| > 0 {
      var init := cases[..|cases| - 1];
      TwoDefaults(init);
      OneDefault(init);
      if DefaultCount(cases) > 1 {
        if cases[|cases| - 1].caseValue.None? && DefaultCount(init) == 1 {
          var i :| 0 <= i < |init| && init[i].caseValue.None?;
          assert cases[i].caseValue.None?;
        } else {
          var i, j :| 0 <= i < j < |init| && init[i].caseValue.None? && init[j].caseValue.None?;
          assert cases[i].caseValue.None? && cases[j].caseValue.None?;
        }
      }
      if exists i, j :: 0 <= i < j < |cases| && cases[i].caseValue.None? && cases[j].caseValue.None? {
        var i, j :| 0 <= i < j < |cases| && cases[i].caseValue.None? && cases[j].caseValue.None?;
        if j < |cases| - 1 {
          assert init[i].caseValue.None? && init[j].caseValue.None?;
        } else {
          assert init[i].caseValue.None?;
        }
      }
    }
  }

  lemma {:induction false} OneDefault(cases: seq<SwitchCase>)
    ensures DefaultCount(cases) > 0 <==> exists i :: 0 <= i < |cases| && cases[i].caseValue.None?
  {
    if |cases| > 0 {
      var init := cases[..|cases| - 1];
      OneDefault(init);
      if exists i :: 0 <= i < |cases| && cases[i].caseValue.None? {
        var i :| 0 <= i < |cases| && cases[i].caseValue.None?;
        if i < |cases| - 1 {
          assert init[i].caseValue.None?;
        }
      }
      if exists i :: 0 <= i < |init| && init[i].caseValue.None? {
        var i :| 0 <= i < |init| && init[i].caseValue.None?;
        assert cases[i].caseValue.None?;
      }
    }
  }

  /** A switch whose condition is valid is reported as a whole, with the
      single diagnostic of a second default case, exactly when two of its
      cases are default cases; otherwise every case is checked. */
  lemma SwitchSingleDefaultRule(db: Database, blocks: seq<BlockKind>, condition: SwitchValue, cases: seq<SwitchCase>, range: Option<SourceRange>)
    requires IsValidSwitchCondition(db, condition.valueType)
    ensures (exists i, j :: 0 <= i < j < |cases| && cases[i].caseValue.None? && cases[j].caseValue.None?) ==>
      SwitchDiagnostics(db, blocks, condition, cases, range) == [Diagnostic(Range(range), MultipleDefaultCases)]
    ensures !(exists i, j :: 0 <= i < j < |cases| && cases[i].caseValue.None? && cases[j].caseValue.None?) ==>
      SwitchDiagnostics(db, blocks, condition, cases, range) == CasesDiagnostics(db, blocks, condition.valueType, cases)
  {
    TwoDefaults(cases);
  }

  /** The statements of a default case are never checked: the loop moves
      on to the next case as soon as it has counted the default. */
  lemma DefaultCaseStatementsIgnored(db: Database, blocks: seq<BlockKind>, condition: SwitchValue, cases: seq<SwitchCase>,
                                     range: Option<SourceRange>, i: nat, statements: seq<Statement>)
    requires i < |cases| && cases[i].caseValue.None?
    ensures SwitchDiagnostics(db, blocks, condition, cases[i := SwitchCase(None, statements)], range)
         == SwitchDiagnostics(db, blocks, condition, cases, range)
  {
    DefaultCaseUpdate(db, blocks, condition.valueType, cases, i, statements);
  }

  lemma DefaultCaseUpdate(db: Database, blocks: seq<BlockKind>, t: Option<TypeReference>, cases: seq<SwitchCase>,
                          i: nat, statements: seq<Statement>)
    requires i < |cases| && cases[i].caseValue.None?
    ensures DefaultCount(cases[i := SwitchCase(None, statements)]) == DefaultCount(cases)
    ensures CasesDiagnostics(db, blocks, t, cases[i := SwitchCase(None, statements)]) == CasesDiagnostics(db, blocks, t, cases)
  {
    DefaultCountUpdate(cases, i, statements);
    CasesDiagnosticsUpdate(db, blocks, t, cases, i, statements);
  }

  lemma {:induction false} DefaultCountUpdate(cases: seq<SwitchCase>, i: nat, statements: seq<Statement>)
    requires i < |cases| && cases[i].caseValue.None?
    ensures DefaultCount(cases[i := SwitchCase(None, statements)]) == DefaultCount(cases)
  {
    var updated := cases[i := SwitchCase(None, statements)];
    var n := |cases|;
    if i < n - 1 {
      assert updated[..n - 1] == cases[..n - 1][i := SwitchCase(None, statements)];
      assert updated[n - 1] == cases[n - 1];
      DefaultCountUpdate(cases[..n - 1], i, statements);
    } else {
      assert updated[..n - 1] == cases[..n - 1];
    }
  }

  lemma {:induction false} CasesDiagnosticsUpdate(db: Database, blocks: seq<BlockKind>, t: Option<TypeReference>, cases: seq<SwitchCase>,
                                                  i: nat, statements: seq<Statement>)
    requires i < |cases| && cases[i].caseValue.None?
    ensures CasesDiagnostics(db, blocks, t, cases[i := SwitchCase(None, statements)]) == CasesDiagnostics(db, blocks, t, cases)
  {
    var updated := cases[i := SwitchCase(None, statements)];
    var n := |cases|;
    if i < n - 1 {
      assert updated[..n - 1] == cases[..n - 1][i := SwitchCase(None, statements)];
      assert updated[n - 1] == cases[n - 1];
      CasesDiagnosticsUpdate(db, blocks, t, cases[..n - 1], i, statements);
    } else {
      assert updated[..n - 1] == cases[..n - 1];
    }
  }

  // ----- validate_instantiate_expression -----

  datatype InstantiateKind = DefaultInstantiate | ExplicitInstantiate

  /** A `member: value` pair of an instantiate expression. `valueType` is
      the type `get_expression_type` gives the value, with the member's
      type as hint, and `valueRange` where the value is. */
  datatype InstantiateMember = InstantiateMember(memberName: string, range: Option<SourceRange>,
                                                 valueType: Option<TypeReference>, valueRange: Option<SourceRange>)

  /** `Declaration_member_info`: a member of the instantiated struct or
      union, in declaration order. */
  datatype MemberInfo = MemberInfo(memberName: string, memberType: TypeReference)

  function InstantiateMemberNames(members: seq<InstantiateMember>): (r: seq<string>)
    ensures |r| == |members| && forall k :: 0 <= k < |members| ==> r[k] == members[k].memberName
  {
    seq(|members|, k requires 0 <= k < |members| => members[k].memberName)
  }

  function MemberInfoNames(infos: seq<MemberInfo>): (r: seq<string>)
    ensures |r| == |infos| && forall k :: 0 <= k < |infos| ==> r[k] == infos[k].memberName
  {
    seq(|infos|, k requires 0 <= k < |infos| => infos[k].memberName)
  }

  predicate Distinct(names: seq<string>) {
    forall i, j :: 0 <= i < j < |names| ==> names[i] != names[j]
  }

  /** The first position that repeats an earlier name, or -1. */
  function FirstRepeat(names: seq<string>): (r: int)
    ensures -1 <= r < |names|
    ensures r >= 0 ==> names[r] in names[..r] && forall k :: 0 <= k < r ==> names[k] !in names[..k]
    ensures r == -1 <==> Distinct(names)
  {
    if |names| == 0 then -1
    else
      var init := names[..|names| - 1];
      var p := FirstRepeat(init);
      assert forall k :: 0 <= k <= |init| ==> init[..k] == names[..k];
      if p >= 0 then p
      else if names[|names| - 1] in init then |names| - 1
      else
        assert forall i, j :: 0 <= i < j < |names| ==> names[i] != names[j] by {
          forall i, j | 0 <= i < j < |names|
            ensures names[i] != names[j]
          {
            if j < |names| - 1 {
              assert init[i] != init[j];
            } else {
              assert names[i] == init[i];
            }
          }
        }
        -1
  }

  /** The checks of the member at position `k` against the declaration's
      members: it must exist, its value must be assignable to it, and it
      must not come before the previous member in declaration order. */
  function MemberIssue(db: Database, fuel: nat, infos: seq<MemberInfo>, members: seq<InstantiateMember>,
                       range: Option<SourceRange>, k: nat): Option<Diagnostic>
    requires k < |members|
  {
    var m := members[k];
    var names := MemberInfoNames(infos);
    var index := IndexOf(names, m.memberName);
    if index < 0 then Some(Diagnostic(SubRange(m.range, 0, |m.memberName|), UnknownInstantiateMember(m.memberName)))
    else if !CanAssignType(db, Some(infos[index].memberType), m.valueType, fuel) then
      Some(Diagnostic(Range(m.valueRange), InstantiateMemberTypeMismatch(m.memberName, m.valueType, infos[index].memberType)))
    else if k > 0 && index < IndexOf(names, members[k - 1].memberName) then Some(Diagnostic(Range(range), InstantiateMembersNotSorted))
    else None
  }

  /** The issue of each member, in order. */
  function MemberIssues(db: Database, fuel: nat, infos: seq<MemberInfo>, members: seq<InstantiateMember>,
                        range: Option<SourceRange>): (r: seq<Option<Diagnostic>>)
    ensures |r| == |members|
  {
    seq(|members|, k requires 0 <= k < |members| => MemberIssue(db, fuel, infos, members, range, k))
  }

  /** The first issue from position `k` on, alone, or nothing. */
  function FirstIssue(issues: seq<Option<Diagnostic>>, k: nat): seq<Diagnostic>
    requires k <= |issues|
    decreases |issues| - k
  {
    if k == |issues| then []
    else match issues[k]
      case Some(d) => [d]
      case None => FirstIssue(issues, k + 1)
  }

  /** The loop over the members stops at the first member with an issue. */
  function OrderDiagnostics(db: Database, fuel: nat, infos: seq<MemberInfo>, members: seq<InstantiateMember>,
                            range: Option<SourceRange>): seq<Diagnostic>
  {
    FirstIssue(MemberIssues(db, fuel, infos, members, range), 0)
  }

  /** One diagnostic per declared member that the expression does not set. */
  function UnsetMembers(infos: seq<MemberInfo>, memberNames: seq<string>, range: Option<SourceRange>): seq<Diagnostic> {
    if |infos| == 0 then []
    else
      var last := infos[|infos| - 1];
      UnsetMembers(infos[..|infos| - 1], memberNames, range)
        + (if last.memberName in memberNames then [] else [Diagnostic(Range(range), ExplicitInstantiateMemberNotSet(last.memberName))])
  }

  /** What `validate_instantiate_expression` reports. `typeToInstantiate`
      is the expression's deduced type, and `declarationMembers` stands for
      `find_declaration_to_instantiate` followed by
      `get_declaration_member_infos`. */
  function InstantiateDiagnostics(db: Database, fuel: nat, kind: InstantiateKind, members: seq<InstantiateMember>,
                                  typeToInstantiate: Option<TypeReference>,
                                  declarationMembers: TypeReference -> Option<seq<MemberInfo>>,
                                  range: Option<SourceRange>): seq<Diagnostic>
  {
    var names := InstantiateMemberNames(members);
    var repeat := FirstRepeat(names);
    if repeat >= 0 then
      [Diagnostic(SubRange(members[repeat].range, 0, |members[repeat].memberName|), DuplicateInstantiateMember(members[repeat].memberName))]
    else if typeToInstantiate.None? then [Diagnostic(Range(range), CannotDeduceInstantiateType)]
    else if declarationMembers(typeToInstantiate.value).None? then [Diagnostic(Range(range), InstantiateDeclarationNotFound)]
    else
      var infos := declarationMembers(typeToInstantiate.value).value;
      var order := OrderDiagnostics(db, fuel, infos, members, range);
      if order != [] then order
      else if kind.ExplicitInstantiate? && |members| != |infos| then UnsetMembers(infos, names, range)
      else []
  }

  /** The first loop: the position of the first member whose name an
      earlier member already has. */
  method FindDuplicateMember(members: seq<InstantiateMember>) returns (r: int)
    ensures r == FirstRepeat(InstantiateMemberNames(members))
  {
    ghost var names := InstantiateMemberNames(members);
    var memberIndex := 1;
    while memberIndex < |members|
      invariant forall k :: 0 <= k < memberIndex && k < |members| ==> names[k] !in names[..k]
    {
      var pair := members[memberIndex];
      var duplicate := false;
      for other := 0 to memberIndex
        invariant duplicate <==> exists j :: 0 <= j < other && members[j].memberName == pair.memberName
      {
        if members[other].memberName == pair.memberName {
          duplicate := true;
        }
      }
      if duplicate {
        FirstRepeatAt(names, memberIndex);
        return memberIndex;
      }
      memberIndex := memberIndex + 1;
    }
    FirstRepeatNone(names);
    return -1;
  }

  lemma FirstRepeatAt(names: seq<string>, i: nat)
    requires i < |names| && names[i] in names[..i]
    requires forall k :: 0 <= k < i ==> names[k] !in names[..k]
    ensures FirstRepeat(names) == i
  {
    var j :| 0 <= j < i && names[..i][j] == names[i];
    assert names[j] == names[i];
  }

  lemma FirstRepeatNone(names: seq<string>)
    requires forall k :: 0 <= k < |names| ==> names[k] !in names[..k]
    ensures FirstRepeat(names) == -1
  {
    forall a, b | 0 <= a < b < |names|
      ensures names[a] != names[b]
    {
      assert names[..b][a] == names[a];
    }
  }

  /** The second loop: each member must exist, take an assignable value
      and not precede the previous member in declaration order. */
  method CheckMemberOrder(db: Database, fuel: nat, infos: seq<MemberInfo>, members: seq<InstantiateMember>, range: Option<SourceRange>)
    returns (diagnostics: seq<Diagnostic>)
    ensures diagnostics == OrderDiagnostics(db, fuel, infos, members, range)
  {
    var names := MemberInfoNames(infos);
    var previousOriginalIndex := 0;
    for memberIndex := 0 to |members|
      invariant OrderDiagnostics(db, fuel, infos, members, range) == FirstIssue(MemberIssues(db, fuel, infos, members, range), memberIndex)
      invariant memberIndex > 0 ==> previousOriginalIndex == IndexOf(names, members[memberIndex - 1].memberName)
    {
      var pair := members[memberIndex];
      var location := IndexOf(names, pair.memberName);
      if location < 0 {
        return [Diagnostic(SubRange(pair.range, 0, |pair.memberName|), UnknownInstantiateMember(pair.memberName))];
      }
      var memberType := infos[location].memberType;
      if !CanAssignType(db, Some(memberType), pair.valueType, fuel) {
        return [Diagnostic(Range(pair.valueRange), InstantiateMemberTypeMismatch(pair.memberName, pair.valueType, memberType))];
      }
      if memberIndex > 0 {
        if location < previousOriginalIndex {
          return [Diagnostic(Range(range), InstantiateMembersNotSorted)];
        }
      }
      previousOriginalIndex := location;
    }
    return [];
  }

  /** The third loop, for an explicit instantiation that does not set as
      many members as the declaration has. */
  method ReportUnsetMembers(infos: seq<MemberInfo>, members: seq<InstantiateMember>, range: Option<SourceRange>)
    returns (diagnostics: seq<Diagnostic>)
    ensures diagnostics == UnsetMembers(infos, InstantiateMemberNames(members), range)
  {
    var memberNames := InstantiateMemberNames(members);
    diagnostics := [];
    for memberIndex := 0 to |infos|
      invariant diagnostics == UnsetMembers(infos[..memberIndex], memberNames, range)
    {
      assert infos[..memberIndex + 1][..memberIndex] == infos[..memberIndex];
      var memberInfo := infos[memberIndex];
      if memberInfo.memberName !in memberNames {
        diagnostics := diagnostics + [Diagnostic(Range(range), ExplicitInstantiateMemberNotSet(memberInfo.memberName))];
      }
    }
    assert infos[..|infos|] == infos;
  }

  /** `validate_instantiate_expression`. */
  method ValidateInstantiate(db: Database, fuel: nat, kind: InstantiateKind, members: seq<InstantiateMember>,
                             typeToInstantiate: Option<TypeReference>,
                             declarationMembers: TypeReference -> Option<seq<MemberInfo>>,
                             range: Option<SourceRange>)
    returns (diagnostics: seq<Diagnostic>)
    ensures diagnostics == InstantiateDiagnostics(db, fuel, kind, members, typeToInstantiate, declarationMembers, range)
  {
    var duplicate := FindDuplicateMember(members);
    if duplicate >= 0 {
      var pair := members[duplicate];
      return [Diagnostic(SubRange(pair.range, 0, |pair.memberName|), DuplicateInstantiateMember(pair.memberName))];
    }
    if typeToInstantiate.None? {
      return [Diagnostic(Range(range), CannotDeduceInstantiateType)];
    }
    var declaration := declarationMembers(typeToInstantiate.value);
    if declaration.None? {
      return [Diagnostic(Range(range), InstantiateDeclarationNotFound)];
    }
    var memberInfos := declaration.value;
    diagnostics := CheckMemberOrder(db, fuel, memberInfos, members, range);
    if diagnostics != [] {
      return;
    }
    if kind.ExplicitInstantiate? && |members| != |memberInfos| {
      diagnostics := ReportUnsetMembers(memberInfos, members, range);
    }
  }

  // ----- Properties of the instantiate check -----

  /** The declaration-order position of each member of the expression. */
  function OriginalIndices(infos: seq<MemberInfo>, members: seq<InstantiateMember>): (r: seq<int>)
    ensures |r| == |members| && forall k :: 0 <= k < |members| ==> r[k] == IndexOf(MemberInfoNames(infos), members[k].memberName)
  {
    seq(|members|, k requires 0 <= k < |members| => IndexOf(MemberInfoNames(infos), members[k].memberName))
  }

  /** Every member names a declared member and takes an assignable value. */
  predicate MembersKnownAndAssignable(db: Database, fuel: nat, infos: seq<MemberInfo>, members: seq<InstantiateMember>) {
    forall k :: 0 <= k < |members| ==>
      var index := IndexOf(MemberInfoNames(infos), members[k].memberName);
      index >= 0 && CanAssignType(db, Some(infos[index].memberType), members[k].valueType, fuel)
  }

  /** No step down between neighbours from position `k` on. */
  predicate SortedFrom(indices: seq<int>, k: nat)
    requires k >= 1
  {
    forall j :: k <= j < |indices| ==> indices[j - 1] <= indices[j]
  }

  lemma {:induction false} FirstIssueSorted(issues: seq<Option<Diagnostic>>, indices: seq<int>, range: Option<SourceRange>, k: nat)
    requires 1 <= k <= |issues| == |indices|
    requires forall j :: 1 <= j < |issues| ==>
      issues[j] == if indices[j - 1] <= indices[j] then None else Some(Diagnostic(Range(range), InstantiateMembersNotSorted))
    ensures FirstIssue(issues, k) == if SortedFrom(indices, k) then [] else [Diagnostic(Range(range), InstantiateMembersNotSorted)]
    decreases |issues| - k
  {
    if k < |issues| {
      FirstIssueSorted(issues, indices, range, k + 1);
      assert SortedFrom(indices, k) <==> indices[k - 1] <= indices[k] && SortedFrom(indices, k + 1);
    }
  }

  lemma {:induction false} FirstIssueShape(issues: seq<Option<Diagnostic>>, k: nat)
    requires k <= |issues|
    ensures var r := FirstIssue(issues, k);
      (r == [] <==> forall j :: k <= j < |issues| ==> issues[j].None?) &&
      (r != [] ==> |r| == 1 && exists j :: k <= j < |issues| && issues[j] == Some(r[0]))
    decreases |issues| - k
  {
    if k < |issues| {
      FirstIssueShape(issues, k + 1);
    }
  }

  lemma MemberIssueWhenKnown(db: Database, fuel: nat, infos: seq<MemberInfo>, members: seq<InstantiateMember>,
                              range: Option<SourceRange>, k: nat)
    requires 1 <= k < |members|
    requires MembersKnownAndAssignable(db, fuel, infos, members)
    ensures var indices := OriginalIndices(infos, members);
      MemberIssue(db, fuel, infos, members, range, k)
      == if indices[k - 1] <= indices[k] then None else Some(Diagnostic(Range(range), InstantiateMembersNotSorted))
  {
  }

  /** With every member known and assignable, the order check reports
      exactly when the declaration-order positions of the members step
      down somewhere. */
  lemma InstantiateOrderRule(db: Database, fuel: nat, infos: seq<MemberInfo>, members: seq<InstantiateMember>, range: Option<SourceRange>)
    requires MembersKnownAndAssignable(db, fuel, infos, members)
    ensures OrderDiagnostics(db, fuel, infos, members, range)
         == if NonDecreasing(OriginalIndices(infos, members)) then [] else [Diagnostic(Range(range), InstantiateMembersNotSorted)]
  {
    if |members| > 0 {
      forall j | 1 <= j < |members|
        ensures MemberIssues(db, fuel, infos, members, range)[j]
             == if OriginalIndices(infos, members)[j - 1] <= OriginalIndices(infos, members)[j] then None
                else Some(Diagnostic(Range(range), InstantiateMembersNotSorted))
      {
        MemberIssueWhenKnown(db, fuel, infos, members, range, j);
      }
      FirstIssueSorted(MemberIssues(db, fuel, infos, members, range), OriginalIndices(infos, members), range, 1);
    }
  }

  /** Members pass the order check only if every one of them is declared. */
  lemma OrderPassedMembersKnown(db: Database, fuel: nat, infos: seq<MemberInfo>, members: seq<InstantiateMember>, range: Option<SourceRange>)
    requires OrderDiagnostics(db, fuel, infos, members, range) == []
    ensures forall j :: 0 <= j < |members| ==> members[j].memberName in MemberInfoNames(infos)
  {
    var issues := MemberIssues(db, fuel, infos, members, range);
    FirstIssueShape(issues, 0);
    forall j | 0 <= j < |members|
      ensures members[j].memberName in MemberInfoNames(infos)
    {
      assert issues[j].None?;
    }
  }

  /** An unset declared member is reported exactly when it is unset. */
  lemma {:induction false} UnsetMembersReported(infos: seq<MemberInfo>, memberNames: seq<string>, range: Option<SourceRange>, name: string)
    ensures Diagnostic(Range(range), ExplicitInstantiateMemberNotSet(name)) in UnsetMembers(infos, memberNames, range)
        <==> name in MemberInfoNames(infos) && name !in memberNames
    ensures UnsetMembers(infos, memberNames, range) == [] <==> forall k :: 0 <= k < |infos| ==> infos[k].memberName in memberNames
  {
    if |infos| > 0 {
      var init := infos[..|infos| - 1];
      UnsetMembersReported(init, memberNames, range, name);
      assert MemberInfoNames(infos) == MemberInfoNames(init) + [infos[|infos| - 1].memberName];
      if UnsetMembers(infos, memberNames, range) == [] {
        forall k | 0 <= k < |infos|
          ensures infos[k].memberName in memberNames
        {
          if k < |infos| - 1 {
            assert init[k].memberName in memberNames;
          }
        }
      }
    }
  }

  lemma {:induction false} DistinctCardinality(names: seq<string>)
    requires Distinct(names)
    ensures |set x | x in names| == |names|
  {
    if |names| > 0 {
      var init := names[..|names| - 1];
      DistinctCardinality(init);
      assert (set x | x in names) == (set x | x in init) + {names[|names| - 1]};
    }
  }

  /** Counting: as many distinct set members as distinct declared members,
      all declared, means every declared member is set. */
  lemma SameSizeSetsAll(set_: seq<string>, declared: seq<string>)
    requires Distinct(set_) && Distinct(declared) && |set_| == |declared|
    requires forall k :: 0 <= k < |set_| ==> set_[k] in declared
    ensures forall k :: 0 <= k < |declared| ==> declared[k] in set_
  {
    var a := set x | x in set_;
    var b := set x | x in declared;
    DistinctCardinality(set_);
    DistinctCardinality(declared);
    assert a <= b;
    assert |b - a| == 0 by {
      assert |b| == |a| + |b - a| by {
        assert b == a + (b - a);
      }
    }
    assert b - a == {};
    forall k | 0 <= k < |declared|
      ensures declared[k] in set_
    {
      assert declared[k] in b;
    }
  }

  /** An explicit instantiation that passes the earlier checks is accepted
      exactly when it sets every declared member, and otherwise each unset
      member is reported; comparing sizes first loses nothing, because
      the members set are distinct and all declared. */
  lemma ExplicitInstantiationSetsEveryMember(db: Database, fuel: nat, members: seq<InstantiateMember>,
                                             typeToInstantiate: Option<TypeReference>,
                                             declarationMembers: TypeReference -> Option<seq<MemberInfo>>,
                                             range: Option<SourceRange>, name: string)
    requires Distinct(InstantiateMemberNames(members)) && typeToInstantiate.Some?
    requires declarationMembers(typeToInstantiate.value).Some?
    requires Distinct(MemberInfoNames(declarationMembers(typeToInstantiate.value).value))
    requires OrderDiagnostics(db, fuel, declarationMembers(typeToInstantiate.value).value, members, range) == []
    ensures var infos := declarationMembers(typeToInstantiate.value).value;
      var r := InstantiateDiagnostics(db, fuel, ExplicitInstantiate, members, typeToInstantiate, declarationMembers, range);
      (r == [] <==> forall k :: 0 <= k < |infos| ==> infos[k].memberName in InstantiateMemberNames(members)) &&
      (Diagnostic(Range(range), ExplicitInstantiateMemberNotSet(name)) in r <==>
        name in MemberInfoNames(infos) && name !in InstantiateMemberNames(members))
  {
    var infos := declarationMembers(typeToInstantiate.value).value;
    var names := InstantiateMemberNames(members);
    assert InstantiateDiagnostics(db, fuel, ExplicitInstantiate, members, typeToInstantiate, declarationMembers, range)
        == if |members| != |infos| then UnsetMembers(infos, names, range) else [];
    OrderPassedMembersKnown(db, fuel, infos, members, range);
    UnsetMembersReported(infos, names, range, name);
    if |members| == |infos| {
      SameSizeSetsAll(names, MemberInfoNames(infos));
    }
  }

  /** The order check reports at most one diagnostic, about a member. */
  lemma OrderDiagnosticsKinds(db: Database, fuel: nat, infos: seq<MemberInfo>, members: seq<InstantiateMember>, range: Option<SourceRange>)
    ensures var r := OrderDiagnostics(db, fuel, infos, members, range);
      |r| <= 1 && forall j :: 0 <= j < |r| ==>
        r[j].issue.UnknownInstantiateMember? || r[j].issue.InstantiateMemberTypeMismatch? || r[j].issue.InstantiateMembersNotSorted?
  {
    var issues := MemberIssues(db, fuel, infos, members, range);
    FirstIssueShape(issues, 0);
    var r := FirstIssue(issues, 0);
    if r != [] {
      var j :| 0 <= j < |issues| && issues[j] == Some(r[0]);
      assert MemberIssue(db, fuel, infos, members, range, j) == Some(r[0]);
    }
  }

  lemma {:induction false} UnsetMembersKinds(infos: seq<MemberInfo>, memberNames: seq<string>, range: Option<SourceRange>)
    ensures forall j :: 0 <= j < |UnsetMembers(infos, memberNames, range)| ==>
      UnsetMembers(infos, memberNames, range)[j].issue.ExplicitInstantiateMemberNotSet?
  {
    if |infos| > 0 {
      var init := infos[..|infos| - 1];
      UnsetMembersKinds(init, memberNames, range);
      var last := infos[|infos| - 1];
      var tail := if last.memberName in memberNames then [] else [Diagnostic(Range(range), ExplicitInstantiateMemberNotSet(last.memberName))];
      assert UnsetMembers(infos, memberNames, range) == UnsetMembers(init, memberNames, range) + tail;
    }
  }

  /** Duplicate member names are reported alone, and only they produce a
      duplicate diagnostic. */
  lemma InstantiateDuplicatesRejected(db: Database, fuel: nat, kind: InstantiateKind, members: seq<InstantiateMember>,
                                      typeToInstantiate: Option<TypeReference>,
                                      declarationMembers: TypeReference -> Option<seq<MemberInfo>>,
                                      range: Option<SourceRange>)
    ensures var r := InstantiateDiagnostics(db, fuel, kind, members, typeToInstantiate, declarationMembers, range);
      !Distinct(InstantiateMemberNames(members)) <==> |r| == 1 && r[0].issue.DuplicateInstantiateMember?
  {
    if typeToInstantiate.Some? && declarationMembers(typeToInstantiate.value).Some? {
      var infos := declarationMembers(typeToInstantiate.value).value;
      OrderDiagnosticsKinds(db, fuel, infos, members, range);
      UnsetMembersKinds(infos, InstantiateMemberNames(members), range);
    }
  }

  /** An instantiation whose members are distinct, declared and assignable
      is rejected for its order exactly when the members' declaration-order
      positions step down somewhere. */
  lemma InstantiateMembersFollowDeclarationOrder(db: Database, fuel: nat, kind: InstantiateKind, members: seq<InstantiateMember>,
                                                 typeToInstantiate: Option<TypeReference>,
                                                 declarationMembers: TypeReference -> Option<seq<MemberInfo>>,
                                                 range: Option<SourceRange>)
    requires Distinct(InstantiateMemberNames(members)) && typeToInstantiate.Some?
    requires declarationMembers(typeToInstantiate.value).Some?
    requires MembersKnownAndAssignable(db, fuel, declarationMembers(typeToInstantiate.value).value, members)
    ensures var infos := declarationMembers(typeToInstantiate.value).value;
      var r := InstantiateDiagnostics(db, fuel, kind, members, typeToInstantiate, declarationMembers, range);
      (!NonDecreasing(OriginalIndices(infos, members)) <==> r == [Diagnostic(Range(range), InstantiateMembersNotSorted)])
  {
    var infos := declarationMembers(typeToInstantiate.value).value;
    InstantiateOrderRule(db, fuel, infos, members, range);
    UnsetMembersKinds(infos, InstantiateMemberNames(members), range);
    var r := InstantiateDiagnostics(db, fuel, kind, members, typeToInstantiate, declarationMembers, range);
    if NonDecreasing(OriginalIndices(infos, members)) {
      assert |r| == 0 || r[0].issue.ExplicitInstantiateMemberNotSet?;
    }
  }
}
