/** Module-level conversion between the editor's intermediate form and its
    core form (Tools/vscode/H-editor/packages/core/src/Core_intermediate_representation.ts):
    `create_core_module` sorts declarations into export and internal buckets
    and collects function definitions; `create_declarations` lists the
    buckets back as declarations, finding each function's definition by
    name. The contents of non-function declarations are converted by code
    outside this model, so a bucket entry keeps only the declaration's name. */
module CoreModule {
  import opened Wrappers
  import opened CoreIR
  import CoreEncoding

  datatype DeclarationKind = Alias | Enum | Function | FunctionConstructor | GlobalVariable | Struct | TypeConstructor | Union

  /** The bucket order of `create_declarations`. */
  const Kinds: seq<DeclarationKind> := [Alias, Enum, Function, FunctionConstructor, GlobalVariable, Struct, TypeConstructor, Union]

  datatype FunctionDefinition = FunctionDefinition(name: string, statements: seq<Statement>)

  /** A declaration of the intermediate form; only a function carries a
      definition, and it may lack one. */
  datatype Declaration = Declaration(name: string, kind: DeclarationKind, isExport: bool, definition: Option<FunctionDefinition>)

  datatype Module = Module(name: string, declarations: seq<Declaration>)

  datatype CoreDeclaration = CoreDeclaration(name: string)

  datatype CoreFunctionDefinition = CoreFunctionDefinition(name: string, statements: Vector<CoreStatement>)

  /** One vector per declaration kind, as in `Core.Declarations`. */
  datatype Buckets = Buckets(
    aliasTypeDeclarations: Vector<CoreDeclaration>, enumDeclarations: Vector<CoreDeclaration>,
    functionDeclarations: Vector<CoreDeclaration>, functionConstructors: Vector<CoreDeclaration>,
    globalVariableDeclarations: Vector<CoreDeclaration>, structDeclarations: Vector<CoreDeclaration>,
    typeConstructors: Vector<CoreDeclaration>, unionDeclarations: Vector<CoreDeclaration>)
  {
    function Get(k: DeclarationKind): Vector<CoreDeclaration> {
      match k
      case Alias => aliasTypeDeclarations
      case Enum => enumDeclarations
      case Function => functionDeclarations
      case FunctionConstructor => functionConstructors
      case GlobalVariable => globalVariableDeclarations
      case Struct => structDeclarations
      case TypeConstructor => typeConstructors
      case Union => unionDeclarations
    }
  }

  datatype CoreModuleValue = CoreModuleValue(
    name: string, exportDeclarations: Buckets, internalDeclarations: Buckets,
    functionDefinitions: Vector<CoreFunctionDefinition>)

  // ----- create_core_module -----

  /** The bucket that `create_core_module` fills for kind `k` and export
      flag `isExport`: the matching declarations in source order. */
  function Bucket(ds: seq<Declaration>, k: DeclarationKind, isExport: bool): seq<CoreDeclaration>
  {
    if |ds| == 0 then []
    else
      var d := ds[|ds| - 1];
      Bucket(ds[..|ds| - 1], k, isExport) + (if d.kind == k && d.isExport == isExport then [CoreDeclaration(d.name)] else [])
  }

  function ToCoreFunctionDefinition(f: FunctionDefinition): CoreFunctionDefinition {
    CoreFunctionDefinition(f.name, ToVector(ToCoreStatements(f.statements)))
  }

  /** The definitions of the function declarations that have one, in source order. */
  function Definitions(ds: seq<Declaration>): seq<CoreFunctionDefinition>
  {
    if |ds| == 0 then []
    else
      var d := ds[|ds| - 1];
      Definitions(ds[..|ds| - 1])
        + (if d.kind == Function && d.definition.Some? then [ToCoreFunctionDefinition(d.definition.value)] else [])
  }

  function BucketsOf(ds: seq<Declaration>, isExport: bool): Buckets {
    Buckets(
      ToVector(Bucket(ds, Alias, isExport)), ToVector(Bucket(ds, Enum, isExport)),
      ToVector(Bucket(ds, Function, isExport)), ToVector(Bucket(ds, FunctionConstructor, isExport)),
      ToVector(Bucket(ds, GlobalVariable, isExport)), ToVector(Bucket(ds, Struct, isExport)),
      ToVector(Bucket(ds, TypeConstructor, isExport)), ToVector(Bucket(ds, Union, isExport)))
  }

  /** What `create_core_module` returns: the internal `function_constructors`
      vector is built from the export list. */
  function CoreModuleAsWritten(m: Module): CoreModuleValue {
    var internal := BucketsOf(m.declarations, false);
    CoreModuleValue(m.name, BucketsOf(m.declarations, true),
      internal.(functionConstructors := ToVector(Bucket(m.declarations, FunctionConstructor, true))),
      ToVector(Definitions(m.declarations)))
  }

  /** `create_core_module` with every internal bucket built from the
      internal list. */
  function CoreModuleIntended(m: Module): CoreModuleValue {
    CoreModuleValue(m.name, BucketsOf(m.declarations, true), BucketsOf(m.declarations, false),
      ToVector(Definitions(m.declarations)))
  }

  /** The sixteen bucket arrays of `create_core_module`, as filled so far. */
  datatype Lists = Lists(
    alias: seq<CoreDeclaration>, enums: seq<CoreDeclaration>, functions: seq<CoreDeclaration>,
    functionConstructors: seq<CoreDeclaration>, globalVariables: seq<CoreDeclaration>,
    structs: seq<CoreDeclaration>, typeConstructors: seq<CoreDeclaration>, unions: seq<CoreDeclaration>)
  {
    function Get(k: DeclarationKind): seq<CoreDeclaration> {
      match k
      case Alias => alias
      case Enum => enums
      case Function => functions
      case FunctionConstructor => functionConstructors
      case GlobalVariable => globalVariables
      case Struct => structs
      case TypeConstructor => typeConstructors
      case Union => unions
    }

    /** `array.push(...)` on the array for kind `k`. */
    function Push(k: DeclarationKind, x: CoreDeclaration): (r: Lists)
      ensures r.Get(k) == Get(k) + [x]
      ensures forall j :: j != k ==> r.Get(j) == Get(j)
    {
      match k
      case Alias => this.(alias := alias + [x])
      case Enum => this.(enums := enums + [x])
      case Function => this.(functions := functions + [x])
      case FunctionConstructor => this.(functionConstructors := functionConstructors + [x])
      case GlobalVariable => this.(globalVariables := globalVariables + [x])
      case Struct => this.(structs := structs + [x])
      case TypeConstructor => this.(typeConstructors := typeConstructors + [x])
      case Union => this.(unions := unions + [x])
    }
  }

  const EmptyLists := Lists([], [], [], [], [], [], [], [])

  /** The object literal `create_core_module` returns for one set of arrays. */
  function ToBuckets(l: Lists): (b: Buckets)
    ensures forall k :: b.Get(k) == ToVector(l.Get(k))
  {
    Buckets(
      ToVector(l.alias), ToVector(l.enums), ToVector(l.functions), ToVector(l.functionConstructors),
      ToVector(l.globalVariables), ToVector(l.structs), ToVector(l.typeConstructors), ToVector(l.unions))
  }

  /** Arrays holding the buckets of `ds` form `BucketsOf(ds, isExport)`. */
  lemma ListsAreBuckets(ds: seq<Declaration>, isExport: bool, l: Lists)
    requires forall k :: l.Get(k) == Bucket(ds, k, isExport)
    ensures ToBuckets(l) == BucketsOf(ds, isExport)
  {
    assert l.Get(Alias) == Bucket(ds, Alias, isExport);
    assert l.Get(Enum) == Bucket(ds, Enum, isExport);
    assert l.Get(Function) == Bucket(ds, Function, isExport);
    assert l.Get(FunctionConstructor) == Bucket(ds, FunctionConstructor, isExport);
    assert l.Get(GlobalVariable) == Bucket(ds, GlobalVariable, isExport);
    assert l.Get(Struct) == Bucket(ds, Struct, isExport);
    assert l.Get(TypeConstructor) == Bucket(ds, TypeConstructor, isExport);
    assert l.Get(Union) == Bucket(ds, Union, isExport);
  }

  /** The arrays after pushing, in order, each declaration of `ds` whose
      export flag is `isExport`. */
  function Pushed(ds: seq<Declaration>, isExport: bool): Lists {
    if |ds| == 0 then EmptyLists
    else
      var d := ds[|ds| - 1];
      var l := Pushed(ds[..|ds| - 1], isExport);
      if d.isExport == isExport then l.Push(d.kind, CoreDeclaration(d.name)) else l
  }

  /** Pushing fills each array with exactly the bucket of its kind. */
  lemma {:induction false} PushedBuckets(ds: seq<Declaration>, isExport: bool, k: DeclarationKind)
    ensures Pushed(ds, isExport).Get(k) == Bucket(ds, k, isExport)
  {
    if |ds| > 0 {
      PushedBuckets(ds[..|ds| - 1], isExport, k);
    }
  }

  /** `create_core_module`: one pass over the declarations, pushing each
      onto the export or internal array of its kind and each existing
      function definition onto the definitions array. */
  method CreateCoreModule(m: Module) returns (c: CoreModuleValue)
    ensures c == CoreModuleAsWritten(m)
  {
    var exports := EmptyLists;
    var internals := EmptyLists;
    var definitions: seq<CoreFunctionDefinition> := [];
    var ds := m.declarations;
    var i := 0;
    while i < |ds|
      invariant 0 <= i <= |ds|
      invariant exports == Pushed(ds[..i], true)
      invariant internals == Pushed(ds[..i], false)
      invariant definitions == Definitions(ds[..i])
    {
      var d := ds[i];
      assert ds[..i + 1][..i] == ds[..i];
      if d.isExport {
        exports := exports.Push(d.kind, CoreDeclaration(d.name));
      } else {
        internals := internals.Push(d.kind, CoreDeclaration(d.name));
      }
      if d.kind == Function && d.definition.Some? {
        var statements := CoreEncoding.EncodeStatements(d.definition.value.statements);
        definitions := definitions + [CoreFunctionDefinition(d.definition.value.name, ToVector(statements))];
      }
      i := i + 1;
    }
    assert ds[..i] == ds;
    forall k ensures exports.Get(k) == Bucket(ds, k, true) && internals.Get(k) == Bucket(ds, k, false) {
      PushedBuckets(ds, true, k);
      PushedBuckets(ds, false, k);
    }
    ListsAreBuckets(ds, true, exports);
    ListsAreBuckets(ds, false, internals);
    c := CoreModuleValue(m.name, ToBuckets(exports),
      ToBuckets(internals.(functionConstructors := exports.functionConstructors)),
      ToVector(definitions));
  }

  // ----- Properties of create_core_module -----

  /** A bucket holds exactly the declarations of its kind and export flag. */
  lemma {:induction false} BucketMembers(ds: seq<Declaration>, k: DeclarationKind, isExport: bool, x: CoreDeclaration)
    ensures x in Bucket(ds, k, isExport)
        <==> exists i :: 0 <= i < |ds| && ds[i].kind == k && ds[i].isExport == isExport && x == CoreDeclaration(ds[i].name)
  {
    if |ds| > 0 {
      var p := ds[..|ds| - 1];
      BucketMembers(p, k, isExport, x);
      if x in Bucket(p, k, isExport) {
        var i :| 0 <= i < |p| && p[i].kind == k && p[i].isExport == isExport && x == CoreDeclaration(p[i].name);
        assert ds[i] == p[i];
      }
      if exists i :: 0 <= i < |ds| && ds[i].kind == k && ds[i].isExport == isExport && x == CoreDeclaration(ds[i].name) {
        var i :| 0 <= i < |ds| && ds[i].kind == k && ds[i].isExport == isExport && x == CoreDeclaration(ds[i].name);
        if i < |p| {
          assert p[i] == ds[i];
        }
      }
    }
  }

  /** The buckets of one kind split its declarations by export flag. */
  lemma {:induction false} BucketSizes(ds: seq<Declaration>, k: DeclarationKind)
    ensures |Bucket(ds, k, true)| + |Bucket(ds, k, false)| == |KindCount(ds, k)|
  {
    if |ds| > 0 {
      BucketSizes(ds[..|ds| - 1], k);
    }
  }

  /** The declarations of kind `k`. */
  function KindCount(ds: seq<Declaration>, k: DeclarationKind): seq<Declaration> {
    if |ds| == 0 then []
    else KindCount(ds[..|ds| - 1], k) + (if ds[|ds| - 1].kind == k then [ds[|ds| - 1]] else [])
  }

  /** Every vector of a module built by `create_core_module` has its `size`
      equal to the length of its elements. */
  predicate SizesMatch(b: Buckets) {
    forall k :: b.Get(k).size == |b.Get(k).elements|
  }

  lemma CoreModuleSizes(m: Module)
    ensures var c := CoreModuleAsWritten(m);
      SizesMatch(c.exportDeclarations) && SizesMatch(c.internalDeclarations)
      && c.functionDefinitions.size == |c.functionDefinitions.elements|
  {
    var c := CoreModuleAsWritten(m);
    forall k ensures c.internalDeclarations.Get(k).size == |c.internalDeclarations.Get(k).elements| {
      match k
      case FunctionConstructor =>
      case _ =>
    }
  }

  /** A definition is collected exactly for each function declaration that has one. */
  lemma {:induction false} DefinitionsMembers(ds: seq<Declaration>, x: CoreFunctionDefinition)
    ensures x in Definitions(ds)
        <==> exists i :: 0 <= i < |ds| && ds[i].kind == Function && ds[i].definition.Some?
                         && x == ToCoreFunctionDefinition(ds[i].definition.value)
  {
    if |ds| > 0 {
      var p := ds[..|ds| - 1];
      DefinitionsMembers(p, x);
      if x in Definitions(p) {
        var i :| 0 <= i < |p| && p[i].kind == Function && p[i].definition.Some? && x == ToCoreFunctionDefinition(p[i].definition.value);
        assert ds[i] == p[i];
      }
      if exists i :: 0 <= i < |ds| && ds[i].kind == Function && ds[i].definition.Some? && x == ToCoreFunctionDefinition(ds[i].definition.value) {
        var i :| 0 <= i < |ds| && ds[i].kind == Function && ds[i].definition.Some? && x == ToCoreFunctionDefinition(ds[i].definition.value);
        if i < |p| {
          assert p[i] == ds[i];
        }
      }
    }
  }

  /** As written, an internal function constructor lands in no bucket and
      an exported one lands in both. */
  lemma AsWrittenLosesInternalFunctionConstructors()
    ensures var m := Module("m", [Declaration("f", FunctionConstructor, false, None)]);
      var c := CoreModuleAsWritten(m);
      c.internalDeclarations.functionConstructors.elements == []
      && c.exportDeclarations.functionConstructors.elements == []
    ensures var m := Module("m", [Declaration("g", FunctionConstructor, true, None)]);
      CoreModuleAsWritten(m).internalDeclarations.functionConstructors.elements == [CoreDeclaration("g")]
  {
    var ds := [Declaration("f", FunctionConstructor, false, None)];
    assert ds[..0] == [];
    var es := [Declaration("g", FunctionConstructor, true, None)];
    assert es[..0] == [];
  }

  /** The written and intended modules differ exactly when the exported and
      internal function constructors differ. */
  lemma AsWrittenMatchesIntended(m: Module)
    ensures CoreModuleAsWritten(m) == CoreModuleIntended(m)
        <==> Bucket(m.declarations, FunctionConstructor, true) == Bucket(m.declarations, FunctionConstructor, false)
  {
    if CoreModuleAsWritten(m) == CoreModuleIntended(m) {
      assert CoreModuleAsWritten(m).internalDeclarations.functionConstructors.elements
          == CoreModuleIntended(m).internalDeclarations.functionConstructors.elements;
    }
  }

  /** With the internal list used for internal buckets, a declaration is in
      the export bucket of its kind iff it is exported and in the internal
      one iff it is not. */
  lemma IntendedBuckets(m: Module, i: int)
    requires 0 <= i < |m.declarations|
    ensures var d := m.declarations[i];
      var c := CoreModuleIntended(m);
      && (CoreDeclaration(d.name) in c.exportDeclarations.Get(d.kind).elements <== d.isExport)
      && (CoreDeclaration(d.name) in c.internalDeclarations.Get(d.kind).elements <== !d.isExport)
  {
    var d := m.declarations[i];
    BucketMembers(m.declarations, d.kind, d.isExport, CoreDeclaration(d.name));
    IntendedGet(m, d.kind);
  }

  lemma IntendedGet(m: Module, k: DeclarationKind)
    ensures CoreModuleIntended(m).exportDeclarations.Get(k).elements == Bucket(m.declarations, k, true)
    ensures CoreModuleIntended(m).internalDeclarations.Get(k).elements == Bucket(m.declarations, k, false)
  {
    match k
    case _ =>
  }

  /** Every entry of an intended bucket comes from a declaration of that
      kind and export flag. */
  lemma IntendedBucketEntries(m: Module, k: DeclarationKind, isExport: bool, x: CoreDeclaration)
    requires x in (if isExport then CoreModuleIntended(m).exportDeclarations else CoreModuleIntended(m).internalDeclarations).Get(k).elements
    ensures exists i :: 0 <= i < |m.declarations| && m.declarations[i].kind == k
                        && m.declarations[i].isExport == isExport && x == CoreDeclaration(m.declarations[i].name)
  {
    IntendedGet(m, k);
    BucketMembers(m.declarations, k, isExport, x);
  }

  // ----- create_declarations -----

  /** `findIndex` over the definitions by name. */
  function FindDefinition(definitions: seq<CoreFunctionDefinition>, name: string): (r: Option<nat>)
    ensures r.None? <==> forall j :: 0 <= j < |definitions| ==> definitions[j].name != name
    ensures r.Some? ==> r.value < |definitions| && definitions[r.value].name == name
                        && forall j :: 0 <= j < r.value ==> definitions[j].name != name
  {
    if |definitions| == 0 then None
    else if definitions[0].name == name then Some(0)
    else
      var rest := FindDefinition(definitions[1..], name);
      if rest.None? then None else Some(rest.value + 1)
  }

  function ToIntermediateFunctionDefinition(f: CoreFunctionDefinition): Result<FunctionDefinition> {
    var statements :- ToIntermediateStatements(f.statements.elements);
    Ok(FunctionDefinition(f.name, statements))
  }

  /** `core_to_intermediate_function`: the definition is the first one
      with the declaration's name, and there is none when no definition
      has that name. */
  function ToIntermediateFunction(c: CoreModuleValue, d: CoreDeclaration, isExport: bool): Result<Declaration> {
    var index := FindDefinition(c.functionDefinitions.elements, d.name);
    if index.None? then Ok(Declaration(d.name, Function, isExport, None))
    else
      var definition :- ToIntermediateFunctionDefinition(c.functionDefinitions.elements[index.value]);
      Ok(Declaration(d.name, Function, isExport, Some(definition)))
  }

  function ToIntermediateDeclaration(c: CoreModuleValue, d: CoreDeclaration, k: DeclarationKind, isExport: bool): Result<Declaration> {
    if k == Function then ToIntermediateFunction(c, d, isExport)
    else Ok(Declaration(d.name, k, isExport, None))
  }

  function ToIntermediateBucket(c: CoreModuleValue, entries: seq<CoreDeclaration>, k: DeclarationKind, isExport: bool): Result<seq<Declaration>>
  {
    if |entries| == 0 then Ok([])
    else
      var first :- ToIntermediateBucket(c, entries[..|entries| - 1], k, isExport);
      var last :- ToIntermediateDeclaration(c, entries[|entries| - 1], k, isExport);
      Ok(first + [last])
  }

  /** The buckets listed in `create_declarations` order from position `from` of `Kinds`. */
  function ToIntermediateBuckets(c: CoreModuleValue, b: Buckets, isExport: bool, from: nat): Result<seq<Declaration>>
    requires from <= |Kinds|
    decreases |Kinds| - from
  {
    if from == |Kinds| then Ok([])
    else
      var first :- ToIntermediateBucket(c, b.Get(Kinds[from]).elements, Kinds[from], isExport);
      var rest :- ToIntermediateBuckets(c, b, isExport, from + 1);
      Ok(first + rest)
  }

  /** `create_declarations`: the export buckets, then the internal ones. */
  function CreateDeclarations(c: CoreModuleValue): Result<seq<Declaration>> {
    var exports :- ToIntermediateBuckets(c, c.exportDeclarations, true, 0);
    var internals :- ToIntermediateBuckets(c, c.internalDeclarations, false, 0);
    Ok(exports + internals)
  }

  // ----- Round trip -----

  /** The declarations of kind `k` and export flag `isExport`, in order. */
  function Matching(ds: seq<Declaration>, k: DeclarationKind, isExport: bool): seq<Declaration> {
    if |ds| == 0 then []
    else
      var d := ds[|ds| - 1];
      Matching(ds[..|ds| - 1], k, isExport) + (if d.kind == k && d.isExport == isExport then [d] else [])
  }

  function MatchingFrom(ds: seq<Declaration>, isExport: bool, from: nat): seq<Declaration>
    requires from <= |Kinds|
    decreases |Kinds| - from
  {
    if from == |Kinds| then [] else Matching(ds, Kinds[from], isExport) + MatchingFrom(ds, isExport, from + 1)
  }

  /** The declarations grouped as `create_declarations` lists them. */
  function Grouped(ds: seq<Declaration>): seq<Declaration> {
    MatchingFrom(ds, true, 0) + MatchingFrom(ds, false, 0)
  }

  /** Only functions carry definitions, each named as its declaration, and
      no two function declarations share a name. */
  predicate WellFormed(ds: seq<Declaration>) {
    && (forall i :: 0 <= i < |ds| && ds[i].kind != Function ==> ds[i].definition.None?)
    && (forall i :: 0 <= i < |ds| && ds[i].definition.Some? ==> ds[i].definition.value.name == ds[i].name)
    && (forall i, j :: 0 <= i < j < |ds| && ds[i].kind == Function && ds[j].kind == Function ==> ds[i].name != ds[j].name)
  }

  /** Looking up a function's name among the collected definitions finds its
      own definition, or nothing when it has none. */
  lemma FindOwnDefinition(ds: seq<Declaration>, i: int)
    requires WellFormed(ds) && 0 <= i < |ds| && ds[i].kind == Function
    ensures var r := FindDefinition(Definitions(ds), ds[i].name);
      && (ds[i].definition.None? ==> r.None?)
      && (ds[i].definition.Some? ==> r.Some? && Definitions(ds)[r.value] == ToCoreFunctionDefinition(ds[i].definition.value))
  {
    var defs := Definitions(ds);
    var r := FindDefinition(defs, ds[i].name);
    if ds[i].definition.Some? {
      var x := ToCoreFunctionDefinition(ds[i].definition.value);
      DefinitionsMembers(ds, x);
      assert x in defs;
      var k :| 0 <= k < |defs| && defs[k] == x;
      assert defs[k].name == ds[i].name;
    }
    if r.Some? {
      var x := defs[r.value];
      DefinitionsMembers(ds, x);
      var j :| 0 <= j < |ds| && ds[j].kind == Function && ds[j].definition.Some? && x == ToCoreFunctionDefinition(ds[j].definition.value);
      assert ds[j].name == x.name;
      assert j == i;
    }
  }

  lemma DefinitionRoundTrip(f: FunctionDefinition)
    ensures ToIntermediateFunctionDefinition(ToCoreFunctionDefinition(f)) == Ok(f)
  {
    StatementsRoundTrip(f.statements);
  }

  /** A bucket entry decodes to its declaration in any module whose
      definitions are those collected from the declarations. */
  lemma DeclarationRoundTrip(ds: seq<Declaration>, c: CoreModuleValue, i: int)
    requires WellFormed(ds) && 0 <= i < |ds| && c.functionDefinitions.elements == Definitions(ds)
    ensures ToIntermediateDeclaration(c, CoreDeclaration(ds[i].name), ds[i].kind, ds[i].isExport) == Ok(ds[i])
  {
    var d := ds[i];
    if d.kind == Function {
      FindOwnDefinition(ds, i);
      match d.definition
      case Some(f) => DefinitionRoundTrip(f);
      case None =>
    }
  }

  /** One more bucket entry decodes to one more declaration. */
  lemma BucketSnocDecodes(c: CoreModuleValue, entries: seq<CoreDeclaration>, x: CoreDeclaration, k: DeclarationKind, isExport: bool,
                          decoded: seq<Declaration>, d: Declaration)
    requires ToIntermediateBucket(c, entries, k, isExport) == Ok(decoded)
    requires ToIntermediateDeclaration(c, x, k, isExport) == Ok(d)
    ensures ToIntermediateBucket(c, entries + [x], k, isExport) == Ok(decoded + [d])
  {
    assert (entries + [x])[..|entries|] == entries;
  }

  /** Each bucket decodes to the declarations of its kind and flag. */
  lemma {:induction false} BucketRoundTrip(ds: seq<Declaration>, c: CoreModuleValue, prefix: nat, k: DeclarationKind, isExport: bool)
    requires WellFormed(ds) && prefix <= |ds| && c.functionDefinitions.elements == Definitions(ds)
    ensures ToIntermediateBucket(c, Bucket(ds[..prefix], k, isExport), k, isExport) == Ok(Matching(ds[..prefix], k, isExport))
  {
    var p := ds[..prefix];
    if prefix > 0 {
      var q := ds[..prefix - 1];
      var d := ds[prefix - 1];
      assert p[..|p| - 1] == q;
      assert p[|p| - 1] == d;
      BucketRoundTrip(ds, c, prefix - 1, k, isExport);
      if d.kind == k && d.isExport == isExport {
        assert Bucket(p, k, isExport) == Bucket(q, k, isExport) + [CoreDeclaration(d.name)];
        assert Matching(p, k, isExport) == Matching(q, k, isExport) + [d];
        DeclarationRoundTrip(ds, c, prefix - 1);
        BucketSnocDecodes(c, Bucket(q, k, isExport), CoreDeclaration(d.name), k, isExport, Matching(q, k, isExport), d);
      } else {
        assert Bucket(p, k, isExport) == Bucket(q, k, isExport);
        assert Matching(p, k, isExport) == Matching(q, k, isExport);
      }
    }
  }

  lemma {:induction false} BucketsRoundTrip(ds: seq<Declaration>, c: CoreModuleValue, b: Buckets, isExport: bool, from: nat)
    requires WellFormed(ds) && from <= |Kinds| && c.functionDefinitions.elements == Definitions(ds)
    requires forall k :: b.Get(k).elements == Bucket(ds, k, isExport)
    ensures ToIntermediateBuckets(c, b, isExport, from) == Ok(MatchingFrom(ds, isExport, from))
    decreases |Kinds| - from
  {
    if from < |Kinds| {
      assert ds[..|ds|] == ds;
      BucketRoundTrip(ds, c, |ds|, Kinds[from], isExport);
      BucketsRoundTrip(ds, c, b, isExport, from + 1);
    }
  }

  /** `create_declarations` after the intended `create_core_module` gives
      back every declaration, grouped by export flag and then by kind. */
  lemma ModuleRoundTrip(m: Module)
    requires WellFormed(m.declarations)
    ensures CreateDeclarations(CoreModuleIntended(m)) == Ok(Grouped(m.declarations))
  {
    var c := CoreModuleIntended(m);
    forall k ensures c.exportDeclarations.Get(k).elements == Bucket(m.declarations, k, true)
      && c.internalDeclarations.Get(k).elements == Bucket(m.declarations, k, false) {
      IntendedGet(m, k);
    }
    BucketsRoundTrip(m.declarations, c, c.exportDeclarations, true, 0);
    BucketsRoundTrip(m.declarations, c, c.internalDeclarations, false, 0);
  }

  /** A declaration without a definition of its name decodes without one. */
  lemma FunctionWithoutDefinition(c: CoreModuleValue, d: CoreDeclaration, isExport: bool)
    requires forall j :: 0 <= j < |c.functionDefinitions.elements| ==> c.functionDefinitions.elements[j].name != d.name
    ensures ToIntermediateFunction(c, d, isExport) == Ok(Declaration(d.name, Function, isExport, None))
  {
  }
}
