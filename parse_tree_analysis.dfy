/** The editor's parse-tree analysis helpers (`Parse_tree_analysis.ts`):
    Levenshtein distance and best-match selection, cursor arithmetic,
    member names, alias chains and descent along a cursor position. */
module EditorAnalysis {
  import opened Wrappers
  import opened CoreIR

  // ----- get_levenshtein_distance -----

  function Min(x: nat, y: nat): nat { if x <= y then x else y }

  /** The edit distance by its recurrence on the last characters: a match
      costs nothing, and otherwise the cheapest of substitution, insertion
      and deletion plus one. */
  function EditDistance(a: string, b: string): nat
    decreases |a| + |b|
  {
    if |a| == 0 then |b|
    else if |b| == 0 then |a|
    else
      var a', b' := a[..|a| - 1], b[..|b| - 1];
      if a[|a| - 1] == b[|b| - 1] then EditDistance(a', b')
      else 1 + Min(EditDistance(a', b'), Min(EditDistance(a', b), EditDistance(a, b')))
  }

  /** The recurrence at cell `(i, j)` of the matrix: row `i` is the prefix
      of `b`, column `j` the prefix of `a`. */
  lemma EditDistanceStep(a: string, b: string, i: nat, j: nat)
    requires 1 <= i <= |b| && 1 <= j <= |a|
    ensures EditDistance(a[..j], b[..i]) ==
      if b[i - 1] == a[j - 1] then EditDistance(a[..j - 1], b[..i - 1])
      else 1 + Min(EditDistance(a[..j - 1], b[..i - 1]), Min(EditDistance(a[..j - 1], b[..i]), EditDistance(a[..j], b[..i - 1])))
  {
    assert a[..j][..j - 1] == a[..j - 1];
    assert b[..i][..i - 1] == b[..i - 1];
  }

  /** `get_levenshtein_distance(a, b)`, filling the matrix row by row. */
  method GetLevenshteinDistance(a: string, b: string) returns (d: nat)
    ensures d == EditDistance(a, b)
  {
    var matrix := new nat[|b| + 1, |a| + 1];
    for i := 0 to |b| + 1
      invariant forall k :: 0 <= k < i ==> matrix[k, 0] == k
    {
      matrix[i, 0] := i;
    }
    for j := 0 to |a| + 1
      invariant forall k :: 0 <= k <= |b| ==> matrix[k, 0] == k
      invariant forall k :: 0 <= k < j ==> matrix[0, k] == k
    {
      matrix[0, j] := j;
    }
    for i := 1 to |b| + 1
      invariant forall r, c :: 0 <= r < i && 0 <= c <= |a| ==> matrix[r, c] == EditDistance(a[..c], b[..r])
      invariant forall r :: i <= r <= |b| ==> matrix[r, 0] == r
    {
      FillRow(matrix, a, b, i);
    }
    d := matrix[|b|, |a|];
    assert a[..|a|] == a && b[..|b|] == b;
  }

  /** One row of the matrix: the distances from each prefix of `a` to the
      first `i` characters of `b`; the later rows are left as they are. */
  method FillRow(matrix: array2<nat>, a: string, b: string, i: nat)
    requires matrix.Length0 == |b| + 1 && matrix.Length1 == |a| + 1 && 1 <= i <= |b|
    requires forall r, c :: 0 <= r < i && 0 <= c <= |a| ==> matrix[r, c] == EditDistance(a[..c], b[..r])
    requires matrix[i, 0] == i
    modifies matrix
    ensures forall r, c :: 0 <= r <= i && 0 <= c <= |a| ==> matrix[r, c] == EditDistance(a[..c], b[..r])
    ensures forall r, c :: i < r <= |b| && 0 <= c <= |a| ==> matrix[r, c] == old(matrix[r, c])
  {
    assert matrix[i, 0] == EditDistance(a[..0], b[..i]);
    for j := 1 to |a| + 1
      invariant forall r, c :: 0 <= r < i && 0 <= c <= |a| ==> matrix[r, c] == EditDistance(a[..c], b[..r])
      invariant forall c :: 0 <= c < j ==> matrix[i, c] == EditDistance(a[..c], b[..i])
      invariant forall r, c :: i < r <= |b| && 0 <= c <= |a| ==> matrix[r, c] == old(matrix[r, c])
    {
      EditDistanceStep(a, b, i, j);
      if b[i - 1] == a[j - 1] {
        matrix[i, j] := matrix[i - 1, j - 1];
      } else {
        matrix[i, j] := Min(matrix[i - 1, j - 1] + 1, Min(matrix[i, j - 1] + 1, matrix[i - 1, j] + 1));
      }
    }
  }

  /** The distance is zero exactly between equal strings. */
  lemma {:induction false} EditDistanceZero(a: string, b: string)
    ensures EditDistance(a, b) == 0 <==> a == b
    decreases |a| + |b|
  {
    if |a| > 0 && |b| > 0 {
      var a', b' := a[..|a| - 1], b[..|b| - 1];
      EditDistanceZero(a', b');
      assert a == a' + [a[|a| - 1]] && b == b' + [b[|b| - 1]];
      if a == b {
        assert a' == b';
      }
    }
  }

  /** The distance to the empty string is the length. */
  lemma EditDistanceEmpty(a: string)
    ensures EditDistance(a, "") == |a| && EditDistance("", a) == |a|
  {
  }

  // ----- find_best_string_match -----

  /** `find_best_string_match`: the first option at the least distance
      from `target`. The source reads `options[0]` unguarded, and on an
      empty list measures the distance to `undefined`, which throws; that
      is `Err` here. */
  method FindBestStringMatch(target: string, options: seq<string>) returns (r: Result<string>)
    ensures r.Err? <==> |options| == 0
    ensures r.Ok? ==> exists k :: (0 <= k < |options| && r.value == options[k]
      && (forall m :: 0 <= m < |options| ==> EditDistance(target, r.value) <= EditDistance(target, options[m]))
      && (forall m :: 0 <= m < k ==> EditDistance(target, options[m]) > EditDistance(target, r.value)))
  {
    if |options| == 0 {
      return Err("cannot read the length of undefined");
    }
    ghost var bestIndex := 0;
    var best := options[0];
    var smallestDistance := GetLevenshteinDistance(target, best);
    for i := 1 to |options|
      invariant 0 <= bestIndex < i && best == options[bestIndex]
      invariant smallestDistance == EditDistance(target, best)
      invariant forall m :: 0 <= m < i ==> smallestDistance <= EditDistance(target, options[m])
      invariant forall m :: 0 <= m < bestIndex ==> EditDistance(target, options[m]) > smallestDistance
    {
      var distance := GetLevenshteinDistance(target, options[i]);
      if distance < smallestDistance {
        smallestDistance := distance;
        best := options[i];
        bestIndex := i;
      }
    }
    return Ok(best);
  }

  // ----- get_cursor_parameter_index_at_expression -----

  /** `get_cursor_parameter_index_at_expression`. Positions are paths of
      child indices; reading past the end of the cursor path gives
      `undefined` in the source, and `Math.ceil(undefined / 2)` is `NaN`,
      which is `None` here. */
  function CursorParameterIndex(callPosition: seq<int>, cursorPosition: seq<int>): (r: Option<int>)
    ensures |callPosition| < |cursorPosition| && cursorPosition[|callPosition|] == 1 ==> r == Some(0)
    ensures |callPosition| + 1 < |cursorPosition| && cursorPosition[|callPosition|] == 2 ==>
      var argument := cursorPosition[|callPosition| + 1];
      r.Some? && argument <= 2 * r.value < argument + 2
    ensures (|callPosition| >= |cursorPosition| || cursorPosition[|callPosition|] !in {1, 2}) ==> r == Some(-1)
  {
    if |callPosition| < |cursorPosition| && cursorPosition[|callPosition|] == 1 then Some(0)
    else if |callPosition| < |cursorPosition| && cursorPosition[|callPosition|] == 2 then
      if |callPosition| + 1 < |cursorPosition| then Some(CeilHalf(cursorPosition[|callPosition| + 1])) else None
    else Some(-1)
  }

  /** `Math.ceil(x / 2)` on an integer. */
  function CeilHalf(x: int): (r: int)
    ensures x <= 2 * r < x + 2
  {
    (x + 1) / 2
  }

  /** The arguments of a call sit at even child indices with the commas in
      between: the cursor on argument `k`, or just after the comma before
      it, is on parameter `k`. */
  lemma CursorOnArgument(callPosition: seq<int>, k: nat, rest: seq<int>)
    ensures CursorParameterIndex(callPosition, callPosition + [2, 2 * k] + rest) == Some(k)
    ensures k > 0 ==> CursorParameterIndex(callPosition, callPosition + [2, 2 * k - 1] + rest) == Some(k)
  {
    var p := callPosition + [2, 2 * k] + rest;
    assert p[|callPosition|] == 2 && p[|callPosition| + 1] == 2 * k;
    if k > 0 {
      var q := callPosition + [2, 2 * k - 1] + rest;
      assert q[|callPosition|] == 2 && q[|callPosition| + 1] == 2 * k - 1;
    }
  }

  // ----- Declarations -----

  /** A declaration with the parts the analysis helpers read. */
  datatype DeclarationValue =
    | AliasValue(aliasType: seq<CoreTypeReference>)
    | EnumValue(valueNames: seq<string>)
    | FunctionValue
    | GlobalVariableValue
    | StructValue(memberNames: seq<string>)
    | UnionValue(memberNames: seq<string>)
    | TypeConstructorValue
    | FunctionConstructorValue

  datatype Declaration = Declaration(name: string, value: DeclarationValue)

  /** `get_member_names`: enum value names, struct or union member names,
      and nothing for every other kind. */
  function GetMemberNames(d: Declaration): (r: seq<string>)
    ensures d.value.EnumValue? ==> r == d.value.valueNames
    ensures d.value.StructValue? || d.value.UnionValue? ==> r == d.value.memberNames
    ensures |r| > 0 ==> d.value.EnumValue? || d.value.StructValue? || d.value.UnionValue?
  {
    match d.value
    case EnumValue(names) => names
    case StructValue(names) => names
    case UnionValue(names) => names
    case _ => []
  }

  // ----- get_underlying_type_declaration / get_underlying_type -----

  /** A declaration together with the name of the module declaring it. */
  datatype Located = Located(moduleName: string, declaration: Declaration)

  /** The modules `get_core_module` can load, by name. */
  type ModuleDatabase = map<string, seq<Declaration>>

  /** The first declaration called `name`, as `Array.find` gives it. */
  function FindByName(ds: seq<Declaration>, name: string): (r: Option<Declaration>)
    ensures r.Some? ==> r.value in ds && r.value.name == name
    ensures r.None? ==> forall k :: 0 <= k < |ds| ==> ds[k].name != name
  {
    if |ds| == 0 then None
    else if ds[0].name == name then Some(ds[0])
    else FindByName(ds[1..], name)
  }

  /** `get_custom_type_reference_declaration`. */
  function CustomTypeDeclaration(db: ModuleDatabase, t: CustomTypeReference): (r: Option<Located>)
    ensures r.Some? ==> r.value.moduleName == t.moduleReference.name && r.value.declaration.name == t.name
  {
    var moduleName := t.moduleReference.name;
    if moduleName !in db then None
    else
      var d := FindByName(db[moduleName], t.name);
      if d.None? then None else Some(Located(moduleName, d.value))
  }

  /** `get_type_reference_declaration`: only a custom type reference names
      a declaration. */
  function TypeReferenceDeclaration(db: ModuleDatabase, t: seq<CoreTypeReference>): Option<Located> {
    if |t| == 0 || !t[0].CoreCustomType? then None else CustomTypeDeclaration(db, t[0].custom)
  }

  predicate IsAlias(l: Located) { l.declaration.value.AliasValue? }

  /** The loop of `get_underlying_type_declaration` from `current`, with
      at most `fuel` further alias steps (`None` when they run out). */
  function AliasChain(db: ModuleDatabase, original: Located, current: Located, fuel: nat): Option<Located>
    decreases fuel
  {
    if !IsAlias(current) then Some(current)
    else
      var aliasType := current.declaration.value.aliasType;
      if |aliasType| == 0 || !aliasType[0].CoreCustomType? then Some(original)
      else
        var next := CustomTypeDeclaration(db, aliasType[0].custom);
        if next.None? then None
        else if fuel == 0 then None
        else AliasChain(db, original, next.value, fuel - 1)
  }

  /** `get_underlying_type_declaration`. The source loops forever on a
      cyclic alias chain; here `fuel` bounds the number of steps. */
  method UnderlyingTypeDeclaration(db: ModuleDatabase, start: Located, fuel: nat) returns (r: Option<Located>)
    ensures r == AliasChain(db, start, start, fuel)
  {
    if !IsAlias(start) {
      return Some(start);
    }
    var current := start;
    var steps := fuel;
    while IsAlias(current)
      invariant AliasChain(db, start, current, steps) == AliasChain(db, start, start, fuel)
      decreases steps
    {
      var aliasType := current.declaration.value.aliasType;
      if |aliasType| == 0 || !aliasType[0].CoreCustomType? {
        return Some(start);
      }
      var next := CustomTypeDeclaration(db, aliasType[0].custom);
      if next.None? || steps == 0 {
        return None;
      }
      current := next.value;
      steps := steps - 1;
    }
    return Some(current);
  }

  /** The chain ends at the declaration it started from or at one that is
      not an alias; a non-alias start is returned unchanged. */
  lemma {:induction false} AliasChainResult(db: ModuleDatabase, original: Located, current: Located, fuel: nat)
    ensures var r := AliasChain(db, original, current, fuel);
      r.Some? ==> r.value == original || !IsAlias(r.value)
    ensures !IsAlias(current) ==> AliasChain(db, original, current, fuel) == Some(current)
    decreases fuel
  {
    if IsAlias(current) {
      var aliasType := current.declaration.value.aliasType;
      if |aliasType| > 0 && aliasType[0].CoreCustomType? && fuel > 0 {
        var next := CustomTypeDeclaration(db, aliasType[0].custom);
        if next.Some? {
          AliasChainResult(db, original, next.value, fuel - 1);
        }
      }
    }
  }

  /** One alias step to a custom type: the chain continues from the
      declaration the type names, in the module that declares it. */
  lemma AliasChainStep(db: ModuleDatabase, original: Located, current: Located, t: CustomTypeReference, rest: seq<CoreTypeReference>, fuel: nat)
    requires current.declaration.value == AliasValue([CoreCustomType(t)] + rest)
    requires CustomTypeDeclaration(db, t).Some?
    ensures AliasChain(db, original, current, fuel + 1) == AliasChain(db, original, CustomTypeDeclaration(db, t).value, fuel)
  {
  }

  /** `get_underlying_type`: follows aliases through their target types;
      at most `fuel` steps (`None` when they run out). */
  function UnderlyingType(db: ModuleDatabase, t: seq<CoreTypeReference>, fuel: nat): (r: Option<seq<CoreTypeReference>>)
    ensures r.Some? ==> var d := TypeReferenceDeclaration(db, r.value); d.None? || !IsAlias(d.value)
    ensures (var d := TypeReferenceDeclaration(db, t); d.None? || !IsAlias(d.value)) ==> r == Some(t)
    decreases fuel
  {
    var d := TypeReferenceDeclaration(db, t);
    if d.Some? && IsAlias(d.value) then
      if fuel == 0 then None else UnderlyingType(db, d.value.declaration.value.aliasType, fuel - 1)
    else Some(t)
  }

  // ----- go_to_next_block -----

  /** A parse-tree node: its word's text and its children. */
  datatype Node = Node(word: string, children: seq<Node>)

  /** The loop of `go_to_next_block` over the remaining `path` of child
      indices. An index with no child makes the source read a property of
      `undefined`, which throws: that is the `Err` case. */
  function NextBlock(node: Node, path: seq<int>, position: seq<int>, text: string): Result<Option<(Node, seq<int>)>>
    decreases |path|
  {
    if |path| == 0 then Ok(None)
    else if !(0 <= path[0] < |node.children|) then Err("no child at this index")
    else
      var child := node.children[path[0]];
      if child.word == text then Ok(Some((child, position + [path[0]])))
      else NextBlock(child, path[1..], position + [path[0]], text)
  }

  /** `go_to_next_block`. */
  method GoToNextBlock(cursorPosition: seq<int>, node: Node, position: seq<int>, text: string)
    returns (r: Result<Option<(Node, seq<int>)>>)
    ensures r == NextBlock(node, if |position| < |cursorPosition| then cursorPosition[|position|..] else [], position, text)
  {
    var currentNode := node;
    var currentPosition := position;
    while |currentPosition| < |cursorPosition|
      invariant |position| <= |currentPosition|
      invariant |currentPosition| <= |cursorPosition| ==> currentPosition == position + cursorPosition[|position|..|currentPosition|]
      invariant NextBlock(currentNode, if |currentPosition| < |cursorPosition| then cursorPosition[|currentPosition|..] else [], currentPosition, text)
             == NextBlock(node, if |position| < |cursorPosition| then cursorPosition[|position|..] else [], position, text)
      decreases |cursorPosition| - |currentPosition|
    {
      var childIndex := cursorPosition[|currentPosition|];
      if !(0 <= childIndex < |currentNode.children|) {
        return Err("no child at this index");
      }
      ghost var rest := cursorPosition[|currentPosition|..];
      assert rest[0] == childIndex && rest[1..] == if |currentPosition| + 1 < |cursorPosition| then cursorPosition[|currentPosition| + 1..] else [];
      currentNode := currentNode.children[childIndex];
      currentPosition := currentPosition + [childIndex];
      if currentNode.word == text {
        return Ok(Some((currentNode, currentPosition)));
      }
    }
    return Ok(None);
  }

  /** The node a path of child indices leads to, if every index is valid. */
  function Descend(node: Node, path: seq<int>): Option<Node>
    decreases |path|
  {
    if |path| == 0 then Some(node)
    else if !(0 <= path[0] < |node.children|) then None
    else Descend(node.children[path[0]], path[1..])
  }

  /** What `go_to_next_block` finds lies on the cursor path: its position
      extends `position` by a non-empty prefix of `path`, it is the node
      that prefix leads to, and it is the first node on the way carrying
      the label. Without a result, no node on the path carries it. */
  lemma {:induction false} NextBlockOnPath(node: Node, path: seq<int>, position: seq<int>, text: string)
    ensures var r := NextBlock(node, path, position, text);
      && (r.Ok? && r.value.Some? ==>
        var (found, p) := r.value.value;
        && |position| < |p| <= |position| + |path|
        && p == position + path[..|p| - |position|]
        && Descend(node, path[..|p| - |position|]) == Some(found)
        && found.word == text
        && forall k :: 0 < k < |p| - |position| ==> Descend(node, path[..k]).Some? && Descend(node, path[..k]).value.word != text)
      && (r == Ok(None) ==> forall k :: 0 < k <= |path| ==> Descend(node, path[..k]).Some? && Descend(node, path[..k]).value.word != text)
    decreases |path|
  {
    if |path| > 0 && 0 <= path[0] < |node.children| {
      var child := node.children[path[0]];
      assert Descend(node, path[..1]) == Some(child) by {
        assert path[..1][1..] == [];
      }
      if child.word != text {
        NextBlockOnPath(child, path[1..], position + [path[0]], text);
        forall k | 0 < k <= |path|
          ensures Descend(node, path[..k]) == Descend(child, path[1..][..k - 1])
        {
          assert path[..k][1..] == path[1..][..k - 1];
        }
        var r := NextBlock(child, path[1..], position + [path[0]], text);
        if r.Ok? && r.value.Some? {
          var p := r.value.value.1;
          assert path[..|p| - |position|] == [path[0]] + path[1..][..|p| - |position| - 1];
        }
      }
    }
  }

  // ----- select_access_expression_component -----

  /** An access-expression component (`module.member` parts) with the
      position of its parse-tree node. */
  datatype AccessComponent = AccessComponent(nodePosition: seq<int>)

  /** The length of the longest common prefix of two positions. */
  function CommonPrefixLength(p: seq<int>, q: seq<int>): (n: nat)
    ensures n <= |p| && n <= |q| && p[..n] == q[..n]
    ensures n < |p| && n < |q| ==> p[n] != q[n]
  {
    if |p| == 0 || |q| == 0 || p[0] != q[0] then 0
    else
      var n := 1 + CommonPrefixLength(p[1..], q[1..]);
      assert p[..n] == [p[0]] + p[1..][..n - 1];
      assert q[..n] == [q[0]] + q[1..][..n - 1];
      n
  }

  /** The callback of the `reduce` in `select_access_expression_component`:
      keep the accumulated component unless the current one shares a
      longer prefix with `cursor`. */
  function Closer(previous: AccessComponent, current: AccessComponent, cursor: seq<int>): AccessComponent {
    if CommonPrefixLength(previous.nodePosition, cursor) >= CommonPrefixLength(current.nodePosition, cursor) then previous
    else current
  }

  /** `reduce` without an initial value over `[first] + rest`. */
  function ReduceComponents(first: AccessComponent, rest: seq<AccessComponent>, cursor: seq<int>): (r: AccessComponent)
    decreases |rest|
  {
    if |rest| == 0 then first
    else Closer(ReduceComponents(first, rest[..|rest| - 1], cursor), rest[|rest| - 1], cursor)
  }

  /** The position in `[first] + rest` of the component the reduce keeps. */
  function ReducedIndex(first: AccessComponent, rest: seq<AccessComponent>, cursor: seq<int>): (k: nat)
    ensures k <= |rest| && ([first] + rest)[k] == ReduceComponents(first, rest, cursor)
    decreases |rest|
  {
    if |rest| == 0 then 0
    else
      var k := ReducedIndex(first, rest[..|rest| - 1], cursor);
      assert ([first] + rest)[k] == ([first] + rest[..|rest| - 1])[k];
      if CommonPrefixLength(ReduceComponents(first, rest[..|rest| - 1], cursor).nodePosition, cursor)
         >= CommonPrefixLength(rest[|rest| - 1].nodePosition, cursor)
      then k
      else |rest|
  }

  /** The kept component shares a prefix with `cursor` at least as long as
      every component's, and strictly longer than every earlier one's: the
      earliest of the closest. */
  lemma {:induction false} ReduceComponentsClosest(first: AccessComponent, rest: seq<AccessComponent>, cursor: seq<int>, m: nat)
    requires m <= |rest|
    ensures var all := [first] + rest;
      var best := CommonPrefixLength(ReduceComponents(first, rest, cursor).nodePosition, cursor);
      && CommonPrefixLength(all[m].nodePosition, cursor) <= best
      && (m < ReducedIndex(first, rest, cursor) ==> CommonPrefixLength(all[m].nodePosition, cursor) < best)
    decreases |rest|
  {
    if |rest| > 0 {
      var init := rest[..|rest| - 1];
      assert ([first] + rest)[m] == if m < |rest| then ([first] + init)[m] else rest[|rest| - 1];
      if m < |rest| {
        ReduceComponentsClosest(first, init, cursor, m);
      }
    }
  }

  /** `select_access_expression_component`: after a `.` the cursor counts
      as being on the node after it. `reduce` without an initial value
      throws on an empty array, which is `Err` here. */
  function SelectAccessExpressionComponent(components: seq<AccessComponent>, beforeCursorNode: Option<Node>,
                                           beforeCursorPosition: seq<int>, afterCursorPosition: seq<int>): (r: Result<AccessComponent>)
    ensures r.Err? <==> |components| == 0
    ensures r.Ok? ==> r.value in components
  {
    var cursor := SelectionCursor(beforeCursorNode, beforeCursorPosition, afterCursorPosition);
    if |components| == 0 then Err("reduce of empty array with no initial value")
    else
      var k := ReducedIndex(components[0], components[1..], cursor);
      assert components[k] == ([components[0]] + components[1..])[k];
      Ok(ReduceComponents(components[0], components[1..], cursor))
  }

  /** The cursor position the selection measures against. */
  function SelectionCursor(beforeCursorNode: Option<Node>, beforeCursorPosition: seq<int>, afterCursorPosition: seq<int>): seq<int> {
    if beforeCursorNode.Some? && beforeCursorNode.value.word == "." then afterCursorPosition else beforeCursorPosition
  }

  /** The selected component is the earliest of those sharing the longest
      prefix with the cursor. */
  lemma SelectedIsClosest(components: seq<AccessComponent>, beforeCursorNode: Option<Node>,
                          beforeCursorPosition: seq<int>, afterCursorPosition: seq<int>, m: nat)
    requires m < |components|
    ensures var r := SelectAccessExpressionComponent(components, beforeCursorNode, beforeCursorPosition, afterCursorPosition);
      var cursor := SelectionCursor(beforeCursorNode, beforeCursorPosition, afterCursorPosition);
      var k := ReducedIndex(components[0], components[1..], cursor);
      && r == Ok(components[k])
      && CommonPrefixLength(components[m].nodePosition, cursor) <= CommonPrefixLength(r.value.nodePosition, cursor)
      && (m < k ==> CommonPrefixLength(components[m].nodePosition, cursor) < CommonPrefixLength(r.value.nodePosition, cursor))
  {
    var cursor := SelectionCursor(beforeCursorNode, beforeCursorPosition, afterCursorPosition);
    assert [components[0]] + components[1..] == components;
    ReduceComponentsClosest(components[0], components[1..], cursor, m);
  }
}
