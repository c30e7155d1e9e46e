# A verified model of the rule-based core of the H toolchain

The H language toolchain has a compiler written in C++ and an editor extension
written in TypeScript. This project models the parts of both that are
self-contained rules over values, and proves what those rules promise:

- **Intermediate and core forms** (`core_ir.dfy`, `core_encoding.dfy`,
  `core_module.dfy`). The editor has two module forms. In the intermediate
  form an expression holds its sub-expressions. In the core form a statement
  is a flat array of expressions, and a sub-expression is an index into that
  array. The encoder reserves a slot, encodes the children at the array's
  end and writes their indices back. The encoder is an imperative class
  proved equal to a flattening function. The decoder is a recursive function.
  Decoding an encoded statement gives it back. `create_core_module` sorts
  declarations into export and internal buckets, and `create_declarations`
  lists them back.
- **Tables between operations, literals and words** (`parse_tree_mappings.dfy`,
  `js_number.dfy`). Operator symbols and production-rule labels, literal
  suffixes (`i8`, `u64`, `f16`, `cc` ... `cb`, `c`) and comment formatting.
  The printers and parsers round-trip. `js_number.dfy` models JavaScript's
  `Number` on strings (section 7.1.4.1.1 of ECMA-262), which the editor uses
  to read bit counts.
- **The editor's validator** (`editor_validation.dfy`). `deep_equal`,
  `sort_and_remove_duplicates`, duplicate counting, literal validation, the
  instantiate-order check, pointer compatibility, the enum "previous values"
  rule and the operation classifiers.
- **The editor's analysis helpers** (`parse_tree_analysis.dfy`). Levenshtein
  distance and best match, cursor arithmetic, member names, alias chains,
  `go_to_next_block` and the access-component choice.
- **The compiler's validator** (`compiler_types.dfy`,
  `compiler_validation.dfy`, `compiler_statement_validation.dfy`). Type
  compatibility and assignability. Module-level checks of imports, type
  references, declaration names, reserved keywords, enum values and struct
  members. `break`, `continue`, `switch` and instantiate expressions.
- **The code generator's control helpers** (`code_generation_control.dfy`).
  Target blocks of `break` and `continue`, defer stacks and their order,
  scope lookup, terminators, cast kinds, string-literal escapes and the
  number of blocks of an if chain. LLVM values are opaque numbers.
- **The compiler's parse-tree convertor** (`parser_convertor.dfy`). Literal
  suffixes, `parse_uint64` with `strtoull`, `encode_comment`, the operator
  tables, parameter lists, the slot each converted expression takes, and
  the constant branch of `node_to_expression_constant`.
- **The C++ header scanner that generates JSON readers** (`code_generator.dfy`).
  Indentation, lower-casing, template arguments, joining, variant enum
  names, `using` declarations, the type classifiers and the reader states.
- **The module fixtures' helpers** (`module_examples.dfy`).
  `create_statement` and `add_source_positions`, on shared objects.

`wrappers.dfy`, `operations.dfy` and `strings.dfy` hold shared definitions:
`Option` and `Result`, the four enumerations of the intermediate
representation, and string helpers. An exception thrown by the modelled code
is an `Err`. The toolchain's build-and-release scripts are not modelled.

## Model

| member | source | states |
|---|---|---|
| CoreIR.ToVector | Tools/vscode/H-editor/packages/core/src/Core_intermediate_representation.ts:268-271 | a core vector's `size` equals the length of its `elements`, which are the given sequence |
| CoreIR.ToCoreTypeReferences | Tools/vscode/H-editor/packages/core/src/Core_intermediate_representation.ts:739-822 | one core type reference per type reference |
| CoreIR.ToCoreStatements | Tools/vscode/H-editor/packages/core/src/Core_intermediate_representation.ts:1470-1486 | one core statement per statement |
| CoreIR.FlattenExpression | Tools/vscode/H-editor/packages/core/src/Core_intermediate_representation.ts:3069-3222 | the encoding of an expression occupies at least one slot (its own node) |
| CoreIR.ArgumentIndices | Tools/vscode/H-editor/packages/core/src/Core_intermediate_representation.ts:1547-1575 | one argument index per argument |
| CoreIR.FlattenLayout | Tools/vscode/H-editor/packages/core/src/Core_intermediate_representation.ts:1227-1247 | every child index an encoder writes is strictly greater than the parent's index and inside the part of the array the expression occupies; no placeholder survives; call and block vectors have `size` equal to their length |
| CoreIR.AccessLayout | Tools/vscode/H-editor/packages/core/src/Core_intermediate_representation.ts:1227-1247 | the access node refers forward to its operand's encoding |
| CoreIR.UnaryLayout | Tools/vscode/H-editor/packages/core/src/Core_intermediate_representation.ts:2629-2648 | the unary node refers forward to its operand's encoding |
| CoreIR.ParenthesisLayout | Tools/vscode/H-editor/packages/core/src/Core_intermediate_representation.ts:2298-2316 | the parenthesis node refers forward to its operand's encoding |
| CoreIR.ReturnLayout | Tools/vscode/H-editor/packages/core/src/Core_intermediate_representation.ts:2388-2406 | a return with a value refers forward to that value's encoding |
| CoreIR.AccessArrayLayout | Tools/vscode/H-editor/packages/core/src/Core_intermediate_representation.ts:1274-1298 | both child indices of an array access point forward, the index after the accessed expression |
| CoreIR.AssignmentLayout | Tools/vscode/H-editor/packages/core/src/Core_intermediate_representation.ts:1366-1391 | both child indices of an assignment point forward, the right side after the left |
| CoreIR.BinaryLayout | Tools/vscode/H-editor/packages/core/src/Core_intermediate_representation.ts:1420-1445 | both child indices of a binary expression point forward, the right side after the left |
| CoreIR.CallLayout | Tools/vscode/H-editor/packages/core/src/Core_intermediate_representation.ts:1547-1575 | the callee and every argument index of a call point forward, and the argument vector's `size` is the number of indices pushed |
| CoreIR.CallEncoding | Tools/vscode/H-editor/packages/core/src/Core_intermediate_representation.ts:1547-1575 | a call is its node, the callee's encoding and the arguments' encodings, its vector listing where each argument starts |
| CoreIR.LeafLayout | Tools/vscode/H-editor/packages/core/src/Core_intermediate_representation.ts:1185-1199 | an expression with no child expressions is one node with no child index |
| CoreIR.ArgumentsLayout | Tools/vscode/H-editor/packages/core/src/Core_intermediate_representation.ts:1569-1572 | the arguments' encodings laid one after the other are all forward |
| CoreIR.ArgumentIndicesRange | Tools/vscode/H-editor/packages/core/src/Core_intermediate_representation.ts:1569-1572 | every argument index lies inside the arguments' encoding |
| CoreIR.StatementLayout | Tools/vscode/H-editor/packages/core/src/Core_intermediate_representation.ts:261-272 | encoding a statement puts the root expression at index 0 (it carries the root's position and no slot refers to it) and the array is laid out forward |
| CoreIR.DecodeAccessStep | Tools/vscode/H-editor/packages/core/src/Core_intermediate_representation.ts:1219-1225 | decoding an access node decodes its operand index and rebuilds the access |
| CoreIR.DecodeUnaryStep | Tools/vscode/H-editor/packages/core/src/Core_intermediate_representation.ts:2622-2627 | decoding a unary node decodes its operand index and keeps the operation |
| CoreIR.DecodeParenthesisStep | Tools/vscode/H-editor/packages/core/src/Core_intermediate_representation.ts:2292-2296 | decoding a parenthesis node decodes its operand index |
| CoreIR.DecodeAccessArrayStep | Tools/vscode/H-editor/packages/core/src/Core_intermediate_representation.ts:1267-1272 | decoding an array access decodes both child indices |
| CoreIR.DecodeAssignmentStep | Tools/vscode/H-editor/packages/core/src/Core_intermediate_representation.ts:1358-1364 | decoding an assignment decodes both sides and keeps the additional operation |
| CoreIR.DecodeBinaryStep | Tools/vscode/H-editor/packages/core/src/Core_intermediate_representation.ts:1412-1418 | decoding a binary node decodes both sides and keeps the operation |
| CoreIR.DecodeReturnStep | Tools/vscode/H-editor/packages/core/src/Core_intermediate_representation.ts:2382-2386 | decoding a return with a value decodes the value's index |
| CoreIR.DecodeCallStep | Tools/vscode/H-editor/packages/core/src/Core_intermediate_representation.ts:1540-1545 | decoding a call decodes the callee and every argument index in order |
| CoreIR.DecodeConstantStep | Tools/vscode/H-editor/packages/core/src/Core_intermediate_representation.ts:1720-1725 | decoding a constant decodes its type and keeps its data |
| CoreIR.DecodeBlockStep | Tools/vscode/H-editor/packages/core/src/Core_intermediate_representation.ts:1464-1468 | decoding a block decodes each of its statements |
| CoreIR.FlattenRoundTrip | Tools/vscode/H-editor/packages/core/src/Core_intermediate_representation.ts:2843-3067 | decoding the slot where an expression's encoding starts gives the expression back |
| CoreIR.ConstantRoundTrip | Tools/vscode/H-editor/packages/core/src/Core_intermediate_representation.ts:1720-1741 | a constant decodes back to itself |
| CoreIR.BlockRoundTrip | Tools/vscode/H-editor/packages/core/src/Core_intermediate_representation.ts:1464-1486 | a block decodes back to its statements |
| CoreIR.AccessRoundTrip | Tools/vscode/H-editor/packages/core/src/Core_intermediate_representation.ts:1219-1247 | an access decodes back to itself |
| CoreIR.UnaryRoundTrip | Tools/vscode/H-editor/packages/core/src/Core_intermediate_representation.ts:2622-2648 | a unary expression decodes back to itself |
| CoreIR.ParenthesisRoundTrip | Tools/vscode/H-editor/packages/core/src/Core_intermediate_representation.ts:2292-2316 | a parenthesised expression decodes back to itself |
| CoreIR.ReturnRoundTrip | Tools/vscode/H-editor/packages/core/src/Core_intermediate_representation.ts:2382-2406 | a return, with or without a value, decodes back to itself |
| CoreIR.AccessArrayRoundTrip | Tools/vscode/H-editor/packages/core/src/Core_intermediate_representation.ts:1267-1298 | an array access decodes back to itself |
| CoreIR.AssignmentRoundTrip | Tools/vscode/H-editor/packages/core/src/Core_intermediate_representation.ts:1358-1391 | an assignment decodes back to itself |
| CoreIR.BinaryRoundTrip | Tools/vscode/H-editor/packages/core/src/Core_intermediate_representation.ts:1412-1445 | a binary expression decodes back to itself |
| CoreIR.CallRoundTrip | Tools/vscode/H-editor/packages/core/src/Core_intermediate_representation.ts:1540-1575 | a call decodes back to itself |
| CoreIR.ArgumentsRoundTrip | Tools/vscode/H-editor/packages/core/src/Core_intermediate_representation.ts:1540-1575 | the argument indices decode back to the arguments |
| CoreIR.StatementRoundTrip | Tools/vscode/H-editor/packages/core/src/Core_intermediate_representation.ts:255-272 | decoding an encoded statement gives back the original expression tree |
| CoreIR.StatementsRoundTrip | Tools/vscode/H-editor/packages/core/src/Core_intermediate_representation.ts:1464-1486 | a list of statements decodes back to itself |
| CoreIR.TypeReferenceRoundTrip | Tools/vscode/H-editor/packages/core/src/Core_intermediate_representation.ts:670-822 | `core_to_intermediate_type_reference(intermediate_to_core_type_reference(t)) == t` |
| CoreIR.TypeReferencesRoundTrip | Tools/vscode/H-editor/packages/core/src/Core_intermediate_representation.ts:670-822 | a list of type references round-trips |
| CoreEncoding.ExpressionBuffer.Encode | Tools/vscode/H-editor/packages/core/src/Core_intermediate_representation.ts:3069-3222 | appending the encoding of an expression to the shared array leaves the old slots and adds exactly its flat encoding at the old length |
| CoreEncoding.ExpressionBuffer.EncodeVariable | Tools/vscode/H-editor/packages/core/src/Core_intermediate_representation.ts:1185-1199 | a variable appends one node |
| CoreEncoding.ExpressionBuffer.EncodeConstant | Tools/vscode/H-editor/packages/core/src/Core_intermediate_representation.ts:1727-1741 | a constant appends one node with its core type |
| CoreEncoding.ExpressionBuffer.EncodeBreak | Tools/vscode/H-editor/packages/core/src/Core_intermediate_representation.ts:1509-1522 | a break appends one node |
| CoreEncoding.ExpressionBuffer.EncodeContinue | Tools/vscode/H-editor/packages/core/src/Core_intermediate_representation.ts:1802-1814 | a continue appends one node |
| CoreEncoding.ExpressionBuffer.EncodeNullPointer | Tools/vscode/H-editor/packages/core/src/Core_intermediate_representation.ts:2264-2276 | a null pointer appends one node |
| CoreEncoding.ExpressionBuffer.EncodeAccess | Tools/vscode/H-editor/packages/core/src/Core_intermediate_representation.ts:1227-1247 | push a placeholder, encode the operand at the next index, patch the node in place |
| CoreEncoding.ExpressionBuffer.EncodeUnary | Tools/vscode/H-editor/packages/core/src/Core_intermediate_representation.ts:2629-2648 | push a placeholder, encode the operand, patch the node |
| CoreEncoding.ExpressionBuffer.EncodeParenthesis | Tools/vscode/H-editor/packages/core/src/Core_intermediate_representation.ts:2298-2316 | push a placeholder, encode the operand, patch the node |
| CoreEncoding.ExpressionBuffer.EncodeAccessArray | Tools/vscode/H-editor/packages/core/src/Core_intermediate_representation.ts:1274-1298 | push a placeholder, encode the accessed expression and then the index, each at the array length just before it, patch the node |
| CoreEncoding.ExpressionBuffer.EncodeAssignment | Tools/vscode/H-editor/packages/core/src/Core_intermediate_representation.ts:1366-1391 | push a placeholder, encode left then right side, patch the node with both indices |
| CoreEncoding.ExpressionBuffer.EncodeBinary | Tools/vscode/H-editor/packages/core/src/Core_intermediate_representation.ts:1420-1445 | push a placeholder, encode left then right side, patch the node with both indices |
| CoreEncoding.ExpressionBuffer.EncodeReturn | Tools/vscode/H-editor/packages/core/src/Core_intermediate_representation.ts:2388-2406 | push a placeholder, encode the value when there is one, patch the node |
| CoreEncoding.ExpressionBuffer.EncodeBlock | Tools/vscode/H-editor/packages/core/src/Core_intermediate_representation.ts:1470-1486 | a block appends one node whose statements are encoded into arrays of their own |
| CoreEncoding.ExpressionBuffer.EncodeCall | Tools/vscode/H-editor/packages/core/src/Core_intermediate_representation.ts:1547-1575 | the argument vector starts empty, gains each argument's index as it is encoded, and has its size set last; the result is the call's flat encoding |
| CoreEncoding.EncodeStatement | Tools/vscode/H-editor/packages/core/src/Core_intermediate_representation.ts:261-272 | the statement's expression encoded into a fresh array equals the reference encoding |
| CoreEncoding.EncodeStatements | Tools/vscode/H-editor/packages/core/src/Core_intermediate_representation.ts:1470-1486 | each statement encoded in order |
| CoreEncoding.PositionAtHead | Tools/vscode/H-editor/packages/core/src/Core_intermediate_representation.ts:3218-3221 | the source position is copied onto the expression's own node only |
| CoreEncoding.AccessArrayShape | Tools/vscode/H-editor/packages/core/src/Core_intermediate_representation.ts:1274-1298 | an encoded array access is its node, then the accessed expression, then the index |
| CoreEncoding.AssignmentShape | Tools/vscode/H-editor/packages/core/src/Core_intermediate_representation.ts:1366-1391 | an encoded assignment is its node, then the left and the right side |
| CoreEncoding.BinaryShape | Tools/vscode/H-editor/packages/core/src/Core_intermediate_representation.ts:1420-1445 | an encoded binary expression is its node, then the left and the right side |
| CoreEncoding.ArgumentStep | Tools/vscode/H-editor/packages/core/src/Core_intermediate_representation.ts:1569-1572 | one more argument extends the arguments' encoding by its own and the index list by where it starts |
| CoreEncoding.CallStep | Tools/vscode/H-editor/packages/core/src/Core_intermediate_representation.ts:1569-1572 | one turn of the argument loop: the next index is pushed onto the call node, then the argument is encoded |
| CoreEncoding.CallDone | Tools/vscode/H-editor/packages/core/src/Core_intermediate_representation.ts:1574 | setting the vector's size last completes the call's encoding |
| CoreEncoding.FlattenArgumentsSnoc | Tools/vscode/H-editor/packages/core/src/Core_intermediate_representation.ts:1569-1572 | encoding one more argument appends its encoding |
| CoreEncoding.ArgumentIndicesSnoc | Tools/vscode/H-editor/packages/core/src/Core_intermediate_representation.ts:1569-1572 | one more argument appends the index where its encoding starts |
| CoreEncoding.StatementsSnoc | Tools/vscode/H-editor/packages/core/src/Core_intermediate_representation.ts:1479-1480 | one more statement appends its encoding |
| CoreModule.ToBuckets | Tools/vscode/H-editor/packages/core/src/Core_intermediate_representation.ts:102-180 | every vector of the returned object has `size` equal to its array's length and holds that array |
| CoreModule.ListsAreBuckets | Tools/vscode/H-editor/packages/core/src/Core_intermediate_representation.ts:102-180 | arrays holding each kind's bucket give the module's buckets |
| CoreModule.PushedBuckets | Tools/vscode/H-editor/packages/core/src/Core_intermediate_representation.ts:53-100 | pushing the declarations in order fills each kind's array with exactly the declarations of that kind and export flag, in order |
| CoreModule.CreateCoreModule | Tools/vscode/H-editor/packages/core/src/Core_intermediate_representation.ts:31-186 | the loop over the declarations returns the module as written (export/internal buckets per kind, the existing function definitions, the internal function constructors taken from the export list) |
| CoreModule.BucketMembers | Tools/vscode/H-editor/packages/core/src/Core_intermediate_representation.ts:53-100 | a bucket holds exactly the declarations of its kind and export flag |
| CoreModule.BucketSizes | Tools/vscode/H-editor/packages/core/src/Core_intermediate_representation.ts:53-100 | the export and internal buckets of a kind together hold all its declarations |
| CoreModule.CoreModuleSizes | Tools/vscode/H-editor/packages/core/src/Core_intermediate_representation.ts:102-186 | every bucket's `size` equals the length of its `elements` |
| CoreModule.DefinitionsMembers | Tools/vscode/H-editor/packages/core/src/Core_intermediate_representation.ts:65-73 | a definition is emitted exactly for each function declaration that has one |
| CoreModule.AsWrittenLosesInternalFunctionConstructors | Tools/vscode/H-editor/packages/core/src/Core_intermediate_representation.ts:154-157 | an internal function constructor lands in no bucket, and an exported one lands in both |
| CoreModule.AsWrittenMatchesIntended | Tools/vscode/H-editor/packages/core/src/Core_intermediate_representation.ts:154-157 | the module as written equals the corrected one iff the exported and internal function-constructor buckets coincide |
| CoreModule.IntendedBuckets | Tools/vscode/H-editor/packages/core/src/Core_intermediate_representation.ts:53-100 | with the internal list used for the internal bucket, a declaration is in the export bucket of its kind when exported and in the internal one when not |
| CoreModule.IntendedGet | Tools/vscode/H-editor/packages/core/src/Core_intermediate_representation.ts:102-180 | the corrected module's buckets are exactly the buckets of the declarations |
| CoreModule.IntendedBucketEntries | Tools/vscode/H-editor/packages/core/src/Core_intermediate_representation.ts:53-100 | every entry of a corrected bucket comes from a declaration of that kind and flag |
| CoreModule.FindDefinition | Tools/vscode/H-editor/packages/core/src/Core_intermediate_representation.ts:239-240 | `findIndex` by name: none iff no definition has the name; otherwise the first one that does |
| CoreModule.FindOwnDefinition | Tools/vscode/H-editor/packages/core/src/Core_intermediate_representation.ts:237-248 | a function finds its own definition, or none when it has none |
| CoreModule.DefinitionRoundTrip | Tools/vscode/H-editor/packages/core/src/Core_intermediate_representation.ts:1154-1171 | a function definition round-trips through the core form |
| CoreModule.DeclarationRoundTrip | Tools/vscode/H-editor/packages/core/src/Core_intermediate_representation.ts:208-248 | a bucket entry decodes to its declaration when the definitions are those collected |
| CoreModule.BucketSnocDecodes | Tools/vscode/H-editor/packages/core/src/Core_intermediate_representation.ts:210-227 | one more bucket entry decodes to one more declaration |
| CoreModule.BucketRoundTrip | Tools/vscode/H-editor/packages/core/src/Core_intermediate_representation.ts:210-227 | each bucket decodes to the declarations of its kind and flag, in order |
| CoreModule.BucketsRoundTrip | Tools/vscode/H-editor/packages/core/src/Core_intermediate_representation.ts:210-227 | the buckets decode in the order `create_declarations` lists them |
| CoreModule.ModuleRoundTrip | Tools/vscode/H-editor/packages/core/src/Core_intermediate_representation.ts:31-248 | `create_declarations` after the corrected `create_core_module` gives every declaration back, grouped by export flag and then by kind |
| CoreModule.FunctionWithoutDefinition | Tools/vscode/H-editor/packages/core/src/Core_intermediate_representation.ts:237-248 | a function whose name has no definition decodes with `definition: undefined` |
| ParseTreeMappings.LabelToBinaryOperation | Tools/vscode/H-editor/packages/core/src/Parse_tree_convertor_mappings.ts:3306-3333 | the label parser is the exact inverse of `binary_operation_to_string` (1095-1117): a text parses to op iff op prints as it; every other text is rejected |
| ParseTreeMappings.BinaryLabelsRoundTrip | Tools/vscode/H-editor/packages/core/src/Parse_tree_convertor_mappings.ts:1095-1117 | all 19 operations print to 19 different labels, each parsing back to its operation |
| ParseTreeMappings.AssignmentOperationToString | Tools/vscode/H-editor/packages/core/src/Parse_tree_convertor_mappings.ts:1049-1068 | defined exactly for plain assignment and the ten compound operations; a compound prints as its operator followed by `=` |
| ParseTreeMappings.LabelToAssignmentOperation | Tools/vscode/H-editor/packages/core/src/Parse_tree_convertor_mappings.ts:3264-3283 | a label gives op iff op's compound symbol is that label; `=` and every unknown label give `undefined` |
| ParseTreeMappings.AssignmentRoundTrip | Tools/vscode/H-editor/packages/core/src/Parse_tree_convertor_mappings.ts:1049-1068 | every printable assignment operation (`undefined` as `=` included) parses back to itself |
| ParseTreeMappings.UnaryOperationToString | Tools/vscode/H-editor/packages/core/src/Parse_tree_convertor_mappings.ts:1541-1556 | the prefix printer is defined exactly for the non-postfix operations |
| ParseTreeMappings.PostfixUnarySymbol | Tools/vscode/H-editor/packages/core/src/Parse_tree_convertor_mappings.ts:1503-1539 | the postfix symbol is defined exactly for post-increment and post-decrement |
| ParseTreeMappings.SymbolToUnaryOperation | Tools/vscode/H-editor/packages/core/src/Parse_tree_convertor_mappings.ts:3851-3885 | a symbol parses to op iff op prints as it and is not an increment or decrement, so Not, Bitwise_not, Minus, Address_of and Indirection parse back |
| ParseTreeMappings.IncrementSymbolsRejected | Tools/vscode/H-editor/packages/core/src/Parse_tree_convertor_mappings.ts:3858-3870 | the increment and decrement symbols are printed (prefix or postfix) but the parser rejects them |
| ParseTreeMappings.IntendedSymbolToUnaryOperation | Tools/vscode/H-editor/packages/core/src/Parse_tree_convertor_mappings.ts:3851-3885 | the corrected prefix parser: a symbol parses to op iff op prints as it, `++` and `--` included |
| ParseTreeMappings.IntendedPrefixRoundTrip | Tools/vscode/H-editor/packages/core/src/Parse_tree_convertor_mappings.ts:1541-1556 | the corrected parser inverts the prefix printer on every prefix operation, and differs from the parser as written exactly on `++` and `--` (3858-3877) |
| ParseTreeMappings.CTypeSuffix | Tools/vscode/H-editor/packages/core/src/Parse_tree_convertor_mappings.ts:376-408 | every C suffix starts with `c` and has at least two characters |
| ParseTreeMappings.ConstantToWord | Tools/vscode/H-editor/packages/core/src/Parse_tree_convertor_mappings.ts:351-438 | printing succeeds exactly for fundamental, integer and C-string types |
| ParseTreeMappings.ScannedSuffix | Tools/vscode/H-editor/packages/core/src/Parse_tree_convertor_mappings.ts:3439 | the suffix is a tail of the word |
| ParseTreeMappings.FirstLetter | Tools/vscode/H-editor/packages/core/src/Parse_tree_convertor_mappings.ts:3439 | the position of the first letter, with no letter before it |
| ParseTreeMappings.CSuffixType | Tools/vscode/H-editor/packages/core/src/Parse_tree_convertor_mappings.ts:3505-3531 | the parser's C table is the inverse of the printer's C suffixes |
| ParseTreeMappings.FloatSuffixType | Tools/vscode/H-editor/packages/core/src/Parse_tree_convertor_mappings.ts:3459-3477 | a float suffix is accepted iff its width reads as 16, 32 or 64 |
| ParseTreeMappings.NodeToConstant | Tools/vscode/H-editor/packages/core/src/Parse_tree_convertor_mappings.ts:3419-3585 | a string word gives a String or C-string constant; comments and other words are errors |
| ParseTreeMappings.JsNumberOfInt | Tools/vscode/H-editor/packages/core/src/Parse_tree_convertor_mappings.ts:3443 | `Number` reads the decimal text of an integer back as that integer |
| ParseTreeMappings.NumberWord | Tools/vscode/H-editor/packages/core/src/Parse_tree_convertor_mappings.ts:3436-3439 | a number word splits into the digits of its value and its suffix at the first letter |
| ParseTreeMappings.FirstLetterOf | Tools/vscode/H-editor/packages/core/src/Parse_tree_convertor_mappings.ts:3436-3439 | the first letter of value + suffix is at the end of the value |
| ParseTreeMappings.IntegerSuffixType | Tools/vscode/H-editor/packages/core/src/Parse_tree_convertor_mappings.ts:3441-3457 | an `i`/`u` suffix with a width denotes that integer type, signed iff `i` |
| ParseTreeMappings.IntegerConstantRoundTrip | Tools/vscode/H-editor/packages/core/src/Parse_tree_convertor_mappings.ts:414-424 | integer constants print without suffix iff signed 32-bit, and parse back with the same width and signedness (parser at 3436-3457) |
| ParseTreeMappings.FloatWidthDigits | Tools/vscode/H-editor/packages/core/src/Parse_tree_convertor_mappings.ts:361-372 | the digits after `f` in `f16`/`f32`/`f64` read as 16, 32, 64 |
| ParseTreeMappings.TwoDigitNumber | Tools/vscode/H-editor/packages/core/src/Parse_tree_convertor_mappings.ts:3443 | `Number` of two decimal digits is their value |
| ParseTreeMappings.FloatConstantRoundTrip | Tools/vscode/H-editor/packages/core/src/Parse_tree_convertor_mappings.ts:361-372 | Float16, Float32 and Float64 constants parse back to the same type (parser at 3459-3477) |
| ParseTreeMappings.UnsupportedFloatWidth | Tools/vscode/H-editor/packages/core/src/Parse_tree_convertor_mappings.ts:3459-3477 | any other float width is an error |
| ParseTreeMappings.CConstantWord | Tools/vscode/H-editor/packages/core/src/Parse_tree_convertor_mappings.ts:376-408 | a C-typed constant prints as its digits and its type's suffix |
| ParseTreeMappings.CConstantRoundTrip | Tools/vscode/H-editor/packages/core/src/Parse_tree_convertor_mappings.ts:376-408 | the C suffixes `cc` ... `cb` parse back to their types (parser at 3491-3537) |
| ParseTreeMappings.CSuffixTypeResult | Tools/vscode/H-editor/packages/core/src/Parse_tree_convertor_mappings.ts:3491-3537 | a `c` suffix in the table denotes that C type |
| ParseTreeMappings.ClosingQuote | Tools/vscode/H-editor/packages/core/src/Parse_tree_convertor_mappings.ts:374-375 | the closing quote of a printed string is its last quote |
| ParseTreeMappings.StringConstantRoundTrip | Tools/vscode/H-editor/packages/core/src/Parse_tree_convertor_mappings.ts:3539-3571 | string and C-string constants parse back, whatever their text |
| ParseTreeMappings.PlainStringConstantRoundTrip | Tools/vscode/H-editor/packages/core/src/Parse_tree_convertor_mappings.ts:3558-3568 | a printed string (`"data"`) parses back to `data` via `slice(1, -1)` |
| ParseTreeMappings.CStringConstantRoundTrip | Tools/vscode/H-editor/packages/core/src/Parse_tree_convertor_mappings.ts:3541-3557 | a printed C string (`"data"c`) parses back via `slice(1, -2)` |
| ParseTreeMappings.QuotedWord | Tools/vscode/H-editor/packages/core/src/Parse_tree_convertor_mappings.ts:3539-3571 | a quoted word's suffix is the text after its last quote and its slice is the inner text |
| ParseTreeMappings.MapCommentToWord | Tools/vscode/H-editor/packages/core/src/Parse_tree_convertor_mappings.ts:210-230 | the comment becomes a comment word |
| ParseTreeMappings.RemoveCommentsFormatting | Tools/vscode/H-editor/packages/core/src/Parse_tree_convertor_mappings.ts:4200-4214 | the loop computes the reference unformatting: each line's text after `//` and one optional space, then every `\r` dropped, joined with `\n` |
| ParseTreeMappings.RemoveAllConcat | Tools/vscode/H-editor/packages/core/src/Parse_tree_convertor_mappings.ts:4211 | removing `\r` distributes over concatenation |
| ParseTreeMappings.RemoveAllJoin | Tools/vscode/H-editor/packages/core/src/Parse_tree_convertor_mappings.ts:4211-4213 | removing `\r` line by line is removing it from the joined text |
| ParseTreeMappings.StripFormatted | Tools/vscode/H-editor/packages/core/src/Parse_tree_convertor_mappings.ts:4206-4208 | stripping `// ` from a formatted line gives the line back |
| ParseTreeMappings.CommentRoundTrip | Tools/vscode/H-editor/packages/core/src/Parse_tree_convertor_mappings.ts:4200-4214 | `remove_comments_formatting` undoes `map_comment_to_word` (210-230), except that it also drops every `\r` |
| ParseTreeMappings.ClassLabelsDistinct | Tools/vscode/H-editor/packages/core/src/Parse_tree_convertor_mappings.ts:1926-2023 | different precedence classes have different labels |
| ParseTreeMappings.PrecedenceClassOf | Tools/vscode/H-editor/packages/core/src/Parse_tree_convertor_mappings.ts:1934-1966 | each binary operation lies in exactly one precedence class and maps to that class's label; `Has` shares the bitwise-and class |
| ParseTreeMappings.ClassesDisjoint | Tools/vscode/H-editor/packages/core/src/Parse_tree_convertor_mappings.ts:1934-1966 | no operation is in two classes |
| ParseTreeMappings.ExpressionLabel | Tools/vscode/H-editor/packages/core/src/Parse_tree_convertor_mappings.ts:1926-2023 | no label exactly for the kinds the switch does not list; binary kinds get their precedence label; a unary kind gets `Expression_unary_0` iff it is postfix |
| JsNumbers.NonDecimal | Tools/vscode/H-editor/packages/core/src/Parse_tree_convertor_mappings.ts:3443 | a `0x`/`0o`/`0b` body is a finite number exactly when it is non-empty and every character is a digit of that radix; otherwise NaN |
| JsNumbers.DecimalRadix | Tools/vscode/H-editor/packages/core/src/Parse_tree_convertor_mappings.ts:3443 | base-10 radix digits are exactly the decimal digits and have their decimal value |
| JsNumbers.ExponentMark | Tools/vscode/H-editor/packages/core/src/Parse_tree_convertor_mappings.ts:3443 | the split point of a decimal literal is within the text and, when inside it, is an `e` or `E` |
| JsNumbers.UnsignedDecimal | Tools/vscode/H-editor/packages/core/src/Parse_tree_convertor_mappings.ts:3443 | an unsigned literal never yields negative infinity |
| JsNumbers.IntegerValue | Tools/vscode/H-editor/packages/core/src/Parse_tree_convertor_mappings.ts:3443-3453 | a number gives an integer width exactly when it is finite and whole, and then it is that integer |
| JsNumbers.TrimSurrounded | Tools/vscode/H-editor/packages/core/src/Validation.ts:1500 | white space around a text is dropped by `Number`'s trimming, and nothing else is |
| JsNumbers.TrimStartDrops | Tools/vscode/H-editor/packages/core/src/Validation.ts:1500 | leading white space is dropped up to the first non-space character |
| JsNumbers.TrimEndDrops | Tools/vscode/H-editor/packages/core/src/Validation.ts:1500 | trailing white space is dropped back to the last non-space character |
| JsNumbers.TrimUnchanged | Tools/vscode/H-editor/packages/core/src/Validation.ts:1500 | a text with no white space at either end is not trimmed |
| JsNumbers.MantissaOfDigits | Tools/vscode/H-editor/packages/core/src/Validation.ts:1500 | a non-empty digit string is a mantissa with its decimal value |
| JsNumbers.NoExponentInDigits | Tools/vscode/H-editor/packages/core/src/Validation.ts:1500 | a digit string has no exponent mark |
| JsNumbers.ExponentMarkAt | Tools/vscode/H-editor/packages/core/src/Validation.ts:1500 | the exponent mark is the first `e`/`E` of the literal |
| JsNumbers.DigitsDecimal | Tools/vscode/H-editor/packages/core/src/Validation.ts:1500 | an unsigned digit string is the finite number of its decimal value |
| JsNumbers.SignedLiteral | Tools/vscode/H-editor/packages/core/src/Validation.ts:1500 | a leading `+` reads the rest unchanged and a leading `-` negates it |
| JsNumbers.DecimalLiteral | Tools/vscode/H-editor/packages/core/src/Validation.ts:1500 | a literal starting with a digit and no radix prefix is read as decimal |
| JsNumbers.NumberOfDigits | Tools/vscode/H-editor/packages/core/src/Validation.ts:1500 | `Number` of a digit string such as the suffix width `32` is that integer |
| JsNumbers.NumberOfNegatedDigits | Tools/vscode/H-editor/packages/core/src/Validation.ts:1500-1512 | `Number` of `-` and digits is the negated integer, so `i-8` reaches the bit-range test instead of the NaN test |
| JsNumbers.NegateFinite | Tools/vscode/H-editor/packages/core/src/Validation.ts:1500 | negating a finite integer gives its negation |
| JsNumbers.ExponentOfDigits | Tools/vscode/H-editor/packages/core/src/Validation.ts:1500 | a non-empty digit string is an exponent of its decimal value |
| JsNumbers.ExponentParts | Tools/vscode/H-editor/packages/core/src/Validation.ts:1500 | a decimal literal with an exponent is its mantissa scaled by ten to that exponent |
| JsNumbers.ExponentScales | Tools/vscode/H-editor/packages/core/src/Validation.ts:1500-1512 | `Number` of digits, `e`, digits is m * 10^x, so `i3e1` is a 30-bit width |
| JsNumbers.ExponentSplit | Tools/vscode/H-editor/packages/core/src/Validation.ts:1500 | digits, `e`, digits split back at the `e` into the two digit strings |
| JsNumbers.HexadecimalValue | Tools/vscode/H-editor/packages/core/src/Validation.ts:1500-1512 | a `0x` width such as `i0x20`, with any surrounding white space, is its hexadecimal value |
| EditorValidation.Get | Tools/vscode/H-editor/packages/core/src/Validation.ts:2966 | a property read gives `undefined` or the value stored under that key |
| EditorValidation.DeepEqualKeyCount | Tools/vscode/H-editor/packages/core/src/Validation.ts:2944-2958 | objects that `deep_equal` accepts have as many keys |
| EditorValidation.DeepEqualIgnoresSourceLocation | Tools/vscode/H-editor/packages/core/src/Validation.ts:2961-2964 | erasing every `source_location` value, at any depth, never changes the result of `deep_equal` |
| EditorValidation.DeepEqualReflexive | Tools/vscode/H-editor/packages/core/src/Validation.ts:2944-2972 | every well-formed value is `deep_equal` to itself |
| EditorValidation.DeepEqualNotSymmetric | Tools/vscode/H-editor/packages/core/src/Validation.ts:2955-2966 | `{a: undefined}` is `deep_equal` to `{b: 1}` but not the other way round, because a missing key reads as `undefined` |
| EditorValidation.MutuallyDeepEqual | Tools/vscode/H-editor/packages/core/src/Validation.ts:2944-2972 | the two-way comparison is true exactly when `deep_equal` holds both ways, and throws exactly when either direction throws |
| EditorValidation.MutuallyDeepEqualSymmetric | Tools/vscode/H-editor/packages/core/src/Validation.ts:2944-2972 | the two-way comparison is symmetric and tells apart the two objects `deep_equal` confuses |
| EditorValidation.MutuallyDeepEqualReflexive | Tools/vscode/H-editor/packages/core/src/Validation.ts:2944-2972 | the two-way comparison holds of every well-formed value and itself |
| EditorValidation.MakeObject | Tools/vscode/H-editor/packages/core/src/Validation.ts:2955-2956 | an object literal has one entry per key |
| EditorValidation.MakeObjectDeepEqual | Tools/vscode/H-editor/packages/core/src/Validation.ts:2955-2969 | objects with the same plain keys are `deep_equal` exactly when their values are, position by position |
| EditorValidation.PairDeepEqual | Tools/vscode/H-editor/packages/core/src/Validation.ts:2955-2969 | two-key objects are `deep_equal` exactly when both values are |
| EditorValidation.DeepEqualOfObjects | Tools/vscode/H-editor/packages/core/src/Validation.ts:2955-2971 | on objects with equally many keys, `deep_equal` is the loop over the first object's keys |
| EditorValidation.PositionDeepEqual | Tools/vscode/H-editor/packages/core/src/Validation.ts:2944-2972 | two source positions are `deep_equal` exactly when they are equal |
| EditorValidation.LocationDeepEqual | Tools/vscode/H-editor/packages/core/src/Validation.ts:2944-2972 | two locations are `deep_equal` exactly when uri, start and end agree |
| EditorValidation.DiagnosticValuesDeepEqual | Tools/vscode/H-editor/packages/core/src/Validation.ts:2944-2972 | the values of two diagnostic objects are all comparable, and all `deep_equal` exactly when the diagnostics are equal |
| EditorValidation.SameDiagnosticIsEquality | Tools/vscode/H-editor/packages/core/src/Validation.ts:202 | `deep_equal` on two diagnostics is equality of the diagnostics |
| EditorValidation.InsertByStart | Tools/vscode/H-editor/packages/core/src/Validation.ts:181-197 | inserting a diagnostic adds exactly that one to the multiset |
| EditorValidation.InsertSorted | Tools/vscode/H-editor/packages/core/src/Validation.ts:181-197 | insertion keeps a list sorted by start line, then start column |
| EditorValidation.SortByStart | Tools/vscode/H-editor/packages/core/src/Validation.ts:181-197 | the sort is a permutation of its input and sorted by start line, then start column |
| EditorValidation.FindSame | Tools/vscode/H-editor/packages/core/src/Validation.ts:202 | `findIndex` gives -1 exactly when no kept diagnostic is `deep_equal` to the new one, and otherwise an index of one that is |
| EditorValidation.NotFoundIsAbsent | Tools/vscode/H-editor/packages/core/src/Validation.ts:202-205 | a diagnostic `findIndex` does not find is not yet kept |
| EditorValidation.DistinctNoneSame | Tools/vscode/H-editor/packages/core/src/Validation.ts:199-208 | distinct kept diagnostics are never `deep_equal` |
| EditorValidation.KeepIfNew | Tools/vscode/H-editor/packages/core/src/Validation.ts:201-206 | one loop step keeps the list duplicate-free and appends the diagnostic exactly when it is not yet kept |
| EditorValidation.KeepFirstProperties | Tools/vscode/H-editor/packages/core/src/Validation.ts:199-208 | keeping first occurrences gives a duplicate-free list with the same elements, sorted when its input is |
| EditorValidation.SortAndRemoveDuplicates | Tools/vscode/H-editor/packages/core/src/Validation.ts:179-209 | the result is the first occurrence of each diagnostic of the stable sort, sorted by start, no two `deep_equal`, with exactly the input's diagnostics |
| EditorValidation.IsDuplicate | Tools/vscode/H-editor/packages/core/src/Validation.ts:396-407 | the alias (or declaration name, 544-555) is a duplicate exactly when it occurs at two positions |
| EditorValidation.ValidateConstant | Tools/vscode/H-editor/packages/core/src/Validation.ts:1474-1590 | `true`/`false` are the only accepted alphanumeric constants; a string is accepted exactly with no suffix or `c`; other word kinds pass |
| EditorValidation.ScannedNumber | Tools/vscode/H-editor/packages/core/src/Validation.ts:1496 | the scanner splits digits plus a letter-led suffix back into the digits and the suffix |
| EditorValidation.IntegerWordValidation | Tools/vscode/H-editor/packages/core/src/Validation.ts:1499-1540 | an `i`/`u` word with a decimal width is rejected out of 1..64, then rejected with a fractional part, otherwise accepted |
| EditorValidation.IntegerWidthValidation | Tools/vscode/H-editor/packages/core/src/Validation.ts:1501-1540 | the same rule for every width JavaScript's `Number` reads as a whole number |
| EditorValidation.HexadecimalWidthValidation | Tools/vscode/H-editor/packages/core/src/Validation.ts:1501-1523 | a hexadecimal width such as `i0x10` is read by `Number` and checked as its value |
| EditorValidation.PrintedIntegerValidation | Tools/vscode/H-editor/packages/core/src/Validation.ts:1499-1540 | a printed integer constant is accepted exactly when its width is in 1..64 and its digits have no point |
| EditorValidation.PrintedFloatValidation | Tools/vscode/H-editor/packages/core/src/Validation.ts:1543-1558 | printed Float16, Float32 and Float64 constants are accepted |
| EditorValidation.FloatSuffixAccepted | Tools/vscode/H-editor/packages/core/src/Validation.ts:1543-1558 | a number with suffix `f` and width 16, 32 or 64 is accepted |
| EditorValidation.PrintedStringValidation | Tools/vscode/H-editor/packages/core/src/Validation.ts:1570-1586 | printed string and C-string constants are accepted |
| EditorValidation.CSuffixRejected | Tools/vscode/H-editor/packages/core/src/Validation.ts:1560-1568 | a number whose suffix starts with `c` is rejected as an unexpected suffix |
| EditorValidation.PrintedCConstantRejected | Tools/vscode/H-editor/packages/core/src/Parse_tree_convertor_mappings.ts:376-408 | every C-typed constant the printer writes (`cc` ... `cb`) is rejected by the validator although the parser (3491-3525) reads it back to itself |
| EditorValidation.ValidateConstantWithCTypes | Tools/vscode/H-editor/packages/core/src/Parse_tree_convertor_mappings.ts:3491-3525 | the corrected validator accepts a `c` suffix exactly when the parser's table names a C type, and otherwise agrees with the written one |
| EditorValidation.CSuffixValidationMatchesParser | Tools/vscode/H-editor/packages/core/src/Parse_tree_convertor_mappings.ts:3491-3525 | on `c` suffixes the corrected validator accepts exactly what the parser converts |
| EditorValidation.PrintedCConstantAccepted | Tools/vscode/H-editor/packages/core/src/Parse_tree_convertor_mappings.ts:376-408 | every printed C-typed constant passes the corrected validator and parses back to itself |
| EditorValidation.MemberIndices | Tools/vscode/H-editor/packages/core/src/Validation.ts:1983-1997 | the member indices read are never more than the members given |
| EditorValidation.MemberIndexAt | Tools/vscode/H-editor/packages/core/src/Validation.ts:1983-1997 | each read index is the declaration index of a named, declared member, and reading stops at the first member without a name or not declared |
| EditorValidation.InstantiateMembersUnsorted | Tools/vscode/H-editor/packages/core/src/Validation.ts:1973-2011 | the error is raised exactly when the member indices read step down somewhere |
| EditorValidation.InstantiateOrderAllKnown | Tools/vscode/H-editor/packages/core/src/Validation.ts:1973-2011 | with every member declared, the check passes exactly the member lists in declaration order |
| EditorValidation.AreCompatiblePointerTypes | Tools/vscode/H-editor/packages/core/src/Validation.ts:2539-2555 | compatible types are both pointers or null, and are equal or one of them is null |
| EditorValidation.PointerCompatibility | Tools/vscode/H-editor/packages/core/src/Validation.ts:2539-2575 | compatibility is symmetric, reflexive on pointers, relates null to every pointer, and on two pointers is equality |
| EditorValidation.ReferenceDiagnostics | Tools/vscode/H-editor/packages/core/src/Validation.ts:640-667 | the inner loop reports each use of an unknown name or of a name not declared earlier |
| EditorValidation.ValidateEnumValues | Tools/vscode/H-editor/packages/core/src/Validation.ts:616-671 | the diagnostics are those of every member, in member order, against the names of the named members |
| EditorValidation.MemberIssuesEmpty | Tools/vscode/H-editor/packages/core/src/Validation.ts:634-668 | a member has no diagnostics exactly when every name it uses is declared before it |
| EditorValidation.EnumValuesUsePreviousValues | Tools/vscode/H-editor/packages/core/src/Validation.ts:616-671 | with every member named, the enum passes exactly when every value uses only names of strictly earlier members |
| EditorValidation.ClassifiersPartition | Tools/vscode/H-editor/packages/core/src/Validation.ts:1199-1255 | every binary operation but `Has` is in exactly one class and `Has` in none; the unary classes (2577-2596) are disjoint and leave out exactly bitwise not, indirection and address-of |
| CompilerTypes.UniqueName | Source/Compiler/Validation.cpp:80-131 | only a custom type reference whose declaration has a unique name has one, and it is that name |
| CompilerTypes.CompatibleSymmetric | Source/Compiler/Validation.cpp:133-182 | `are_compatible_types` does not depend on the order of its arguments |
| CompilerTypes.NullCompatibleWithPointers | Source/Compiler/Validation.cpp:162-172 | the null type is compatible with pointers and function pointers, both ways round |
| CompilerTypes.FunctionPointersMatchByType | Source/Compiler/Validation.cpp:174-179 | two function pointers are compatible exactly when their function types are equal |
| CompilerTypes.NamedTypesMatchByName | Source/Compiler/Validation.cpp:150-160 | two types with unique names are compatible exactly when the names agree, and `can_assign_type` (203-213) gives the same answer |
| CompilerTypes.UnresolvedTypesRejected | Source/Compiler/Validation.cpp:139-148 | a missing or unresolvable type is compatible with nothing and assignable in neither direction (190-201) |
| CompilerTypes.ScalarAliasIncompatible | Source/Compiler/Validation.cpp:181 | as written, an alias `A` of `Int32` is not compatible with `Int32`, though `Int32` is compatible with itself |
| CompilerTypes.ResolvedCompatibility | Source/Compiler/Validation.cpp:133-182 | comparing underlying types on the last rule accepts everything the written rule does, stays symmetric, and differs only on references that resolve to one type |
| CompilerTypes.ScalarAliasCompatibleResolved | Source/Compiler/Validation.cpp:142-181 | with the corrected last rule the alias `A` is compatible with `Int32` |
| CompilerTypes.PointerAssignment | Source/Compiler/Validation.cpp:215-236 | a pointer destination takes null, rejects non-pointers and immutable sources when mutable, takes any pointer when its element type is empty, and otherwise recurses on the element types |
| CompilerTypes.ArraySliceAssignment | Source/Compiler/Validation.cpp:241-272 | an array-slice destination rejects an immutable slice when mutable, matches two empty element types, rejects one, and takes a constant array by its value type |
| CompilerTypes.AnyAndFunctionPointerAssignment | Source/Compiler/Validation.cpp:238-239 | a function-pointer destination takes null, and `Any_type` (274-275) takes every resolvable source |
| CompilerTypes.AssignmentFallsBackToCompatibility | Source/Compiler/Validation.cpp:277 | every other destination is assignable exactly when compatible |
| CompilerTypes.CanAssignFuelMonotone | Source/Compiler/Validation.cpp:184-278 | more recursion fuel never turns an accepted assignment into a rejected one |
| CompilerTypes.ExpressionTypeFromTypeInfo | Source/Compiler/Validation.cpp:3674-3687 | a type is found exactly when the index is in range and has type information, and it is that information's type |
| CompilerTypes.CallArgumentTypeFromTypeInfo | Source/Compiler/Validation.cpp:3697-3714 | the same lookup; an argument whose address is taken has the pointer to its type, mutable when the argument is |
| CompilerTypes.CallArguments | Source/Compiler/Validation.cpp:4172-4188 | the arguments, preceded by the implicit first argument when there is one |
| CompilerTypes.ValidateCallArguments | Source/Compiler/Validation.cpp:2293-2374 | the loop produces exactly the specified diagnostics of the count check and the per-parameter check |
| CompilerTypes.ArgumentIssuesExact | Source/Compiler/Validation.cpp:2342-2371 | parameter i is reported exactly when it cannot take its argument's type, and every report names a parameter in range with its argument |
| CompilerTypes.CallDiagnosticsRule | Source/Compiler/Validation.cpp:2306-2371 | a wrong argument count (at least, when variadic) gives exactly the count diagnostic; otherwise one type diagnostic per parameter that cannot take its argument |
| CompilerTypes.UntypedArgumentReported | Source/Compiler/Validation.cpp:2346-2350 | an argument without type information is always reported |
| CompilerTypes.ImmutableReceiverRejected | Source/Compiler/Validation.cpp:2345-2350 | a receiver passed by address is checked as a pointer to its type, so a mutable-pointer parameter rejects an immutable receiver |
| CompilerValidation.SourceRangeAt | Source/Compiler/Validation.cpp:3991-4012 | a range exists exactly when a start does; it starts there and spans `count` columns on that line (also 4037-4058) |
| CompilerValidation.SourceRangeFromRangeLocation | Source/Compiler/Validation.cpp:4014-4035 | a range exists exactly when the location does; only its start is kept, widened by `count` columns on the start line |
| CompilerValidation.Aliases | Source/Compiler/Validation.cpp:352 | one alias per import |
| CompilerValidation.ImportedModuleNames | Source/Compiler/Validation.cpp:373 | one module name per import |
| CompilerValidation.ImportDiagnosticsStep | Source/Compiler/Validation.cpp:352-388 | one more import appends its duplicate-alias check against the earlier aliases, then its module lookup |
| CompilerValidation.ValidateImports | Source/Compiler/Validation.cpp:342-391 | the loop produces exactly the specified import diagnostics |
| CompilerValidation.ImportDiagnosticCounts | Source/Compiler/Validation.cpp:352-388 | one duplicate-alias diagnostic per repeat of an alias after its first use, and one module-not-found diagnostic per import of a module the database lacks |
| CompilerValidation.TypeReferenceDiagnostics | Source/Compiler/Validation.cpp:424-506 | at most one diagnostic, \"does not exist\", given exactly when a custom type is not declared or an integer type has a width other than 8, 16, 32 or 64 |
| CompilerValidation.ValidateTypeReferences | Source/Compiler/Validation.cpp:393-422 | the loop concatenates the diagnostics of every type reference in visit order |
| CompilerValidation.TypeReferencesAccepted | Source/Compiler/Validation.cpp:393-422 | the type pass is silent exactly when every type reference is |
| CompilerValidation.EnumValueNames | Source/Compiler/Validation.cpp:758 | one name per enum value |
| CompilerValidation.EnumValueCheck | Source/Compiler/Validation.cpp:775-828 | a value gets at most one diagnostic: not computable at compile time, or not `Int32` |
| CompilerValidation.EnumDiagnosticsStep | Source/Compiler/Validation.cpp:758-833 | one more value appends its duplicate check against the earlier names, then its value check |
| CompilerValidation.ValidateEnumDeclaration | Source/Compiler/Validation.cpp:743-836 | the loop produces exactly the specified enum diagnostics |
| CompilerValidation.EnumDuplicateCount | Source/Compiler/Validation.cpp:760-773 | one duplicate diagnostic per repeat of a value name after its first occurrence |
| CompilerValidation.StructMemberNames | Source/Compiler/Validation.cpp:913 | one name per member |
| CompilerValidation.StructMemberCheck | Source/Compiler/Validation.cpp:935-988 | a member gets at most one diagnostic: not computable at compile time, or a type mismatch |
| CompilerValidation.StructDiagnosticsStep | Source/Compiler/Validation.cpp:911-989 | one more member appends its duplicate check, then its default-value check |
| CompilerValidation.ValidateStructDeclaration | Source/Compiler/Validation.cpp:900-992 | the loop produces exactly the specified struct diagnostics |
| CompilerValidation.StructDuplicateCount | Source/Compiler/Validation.cpp:920-933 | one duplicate diagnostic per repeat of a member name after its first occurrence |
| CompilerValidation.StructDuplicateStep | Source/Compiler/Validation.cpp:920-933 | the last member adds a duplicate diagnostic for a name exactly when it repeats it |
| CompilerValidation.DeclarationNames | Source/Compiler/Validation.cpp:553-737 | one name per declaration, in visit order |
| CompilerValidation.ReservedKeywordCheck | Source/Compiler/Validation.cpp:540-550 | a declaration is reported exactly when its name is one of the 14 reserved keywords (280-299) |
| CompilerValidation.ValidateDeclarationBody | Source/Compiler/Validation.cpp:563-717 | each kind gets its own validator: enums and structs theirs, functions and other kinds their external diagnostics, aliases and constructors none |
| CompilerValidation.ValidateDeclarations | Source/Compiler/Validation.cpp:508-738 | the diagnostics are those of the declarations in the source's visit order, both buckets kind by kind |
| CompilerValidation.ValidateDeclarationsInOrder | Source/Compiler/Validation.cpp:553-737 | the loop produces exactly the specified diagnostics for any visit order |
| CompilerValidation.CheckDeclarationName | Source/Compiler/Validation.cpp:520-551 | the name is reported when it occurred earlier and when it is reserved; the set of names afterwards is the earlier names plus this one |
| CompilerValidation.BodyReportsNoNames | Source/Compiler/Validation.cpp:563-717 | the kind validators never report a declaration name |
| CompilerValidation.DeclarationStepCounts | Source/Compiler/Validation.cpp:520-551 | the last declaration adds a duplicate-name diagnostic exactly when it repeats an earlier name, and a reserved-keyword one exactly when reserved |
| CompilerValidation.DeclarationNameCounts | Source/Compiler/Validation.cpp:508-738 | one duplicate diagnostic per repeat of a name after its first occurrence, across every kind and both buckets, and one reserved-keyword diagnostic per declaration with a reserved name |
| CompilerValidation.FirstNonEmpty | Source/Compiler/Validation.cpp:309-339 | the result is empty exactly when all three passes are, and otherwise the first that is not |
| CompilerValidation.ValidateModule | Source/Compiler/Validation.cpp:301-340 | the module's diagnostics are those of the first of imports, type references and declarations that reports anything |
| CompilerStatementValidation.BreakDiagnostics | Source/Compiler/Validation.cpp:1916-1952 | a `break` is accepted exactly when some block encloses it and its loop count does not exceed the blocks; outside any block the whole range is reported, too large a count at column 6 |
| CompilerStatementValidation.HasLoopBlock | Source/Compiler/Validation.cpp:2452-2461 | true exactly when some enclosing block is a for or while loop |
| CompilerStatementValidation.ContinueDiagnostics | Source/Compiler/Validation.cpp:2446-2475 | a `continue` is accepted exactly when a for or while loop encloses it; otherwise one diagnostic over its range |
| CompilerStatementValidation.ContinueStricterThanBreak | Source/Compiler/Validation.cpp:1922-1948 | every accepted `continue` is an accepted one-level `break` (2452-2462), and in a switch alone `break` is accepted and `continue` rejected |
| CompilerStatementValidation.ValidateCase | Source/Compiler/Validation.cpp:3040-3084 | a case with a value gets its type-mismatch or not-constant diagnostic, then its statements' diagnostics |
| CompilerStatementValidation.ValidateSwitch | Source/Compiler/Validation.cpp:2986-3088 | the loop produces exactly the specified switch diagnostics |
| CompilerStatementValidation.TwoDefaults | Source/Compiler/Validation.cpp:3014-3035 | the default count exceeds one exactly when two distinct cases are defaults |
| CompilerStatementValidation.SwitchSingleDefaultRule | Source/Compiler/Validation.cpp:3019-3038 | with a valid condition, two default cases give exactly the single multiple-defaults diagnostic; otherwise every case with a value is checked in order |
| CompilerStatementValidation.DefaultCaseStatementsIgnored | Source/Compiler/Validation.cpp:3021-3038 | the statements of a default case never change the diagnostics, because the loop moves on after counting it |
| CompilerStatementValidation.InstantiateMemberNames | Source/Compiler/Validation.cpp:2693-2702 | one name per instantiate member, in order |
| CompilerStatementValidation.MemberInfoNames | Source/Compiler/Validation.cpp:2763-2770 | one name per declared member, in order |
| CompilerStatementValidation.FirstRepeat | Source/Compiler/Validation.cpp:2693-2720 | the first position whose name occurs earlier, or -1 exactly when the names are distinct |
| CompilerStatementValidation.MemberIssues | Source/Compiler/Validation.cpp:2759-2840 | one possible issue per member |
| CompilerStatementValidation.FindDuplicateMember | Source/Compiler/Validation.cpp:2693-2720 | the first loop finds exactly the first repeated member name |
| CompilerStatementValidation.CheckMemberOrder | Source/Compiler/Validation.cpp:2757-2840 | the second loop produces exactly the specified member diagnostics |
| CompilerStatementValidation.ReportUnsetMembers | Source/Compiler/Validation.cpp:2848-2875 | the third loop reports exactly the declared members that are not set, in declaration order |
| CompilerStatementValidation.ValidateInstantiate | Source/Compiler/Validation.cpp:2687-2882 | the method produces exactly the specified instantiate diagnostics |
| CompilerStatementValidation.OriginalIndices | Source/Compiler/Validation.cpp:2824 | each member's position within the declared members |
| CompilerStatementValidation.InstantiateOrderRule | Source/Compiler/Validation.cpp:2824-2839 | with every member declared and assignable, the order check reports exactly when the declaration positions step down somewhere |
| CompilerStatementValidation.OrderPassedMembersKnown | Source/Compiler/Validation.cpp:2772-2786 | members pass the order check only if every one is declared |
| CompilerStatementValidation.UnsetMembersReported | Source/Compiler/Validation.cpp:2848-2875 | an unset diagnostic names a member exactly when it is declared and not set; none exactly when every declared member is set |
| CompilerStatementValidation.SameSizeSetsAll | Source/Compiler/Validation.cpp:2844 | as many distinct declared members set as declared means every declared member is set |
| CompilerStatementValidation.ExplicitInstantiationSetsEveryMember | Source/Compiler/Validation.cpp:2842-2879 | an explicit instantiation that passes the earlier checks is accepted exactly when it sets every declared member; the size test first loses nothing |
| CompilerStatementValidation.OrderDiagnosticsKinds | Source/Compiler/Validation.cpp:2759-2840 | the member loop reports at most one diagnostic, about an unknown member, a type mismatch or the order |
| CompilerStatementValidation.InstantiateDuplicatesRejected | Source/Compiler/Validation.cpp:2693-2720 | duplicate member names are reported alone, and nothing else yields a duplicate diagnostic |
| CompilerStatementValidation.InstantiateMembersFollowDeclarationOrder | Source/Compiler/Validation.cpp:2687-2882 | distinct, declared and assignable members are rejected for their order exactly when their declaration positions step down |
| CodeGenerationControl.FindTargetBlock | Source/Compiler/Expressions.cpp:151-178 | the search fails exactly when fewer than max(1, count) blocks have a target type; otherwise it returns the block where that many are reached, scanning from the innermost outwards, with its distance plus one |
| CodeGenerationControl.CountMatchesMonotone | Source/Compiler/Expressions.cpp:160-175 | the count of target blocks only grows as the scan moves outwards |
| CodeGenerationControl.TargetBlockUnique | Source/Compiler/Expressions.cpp:160-175 | two target blocks at different distances have different counts, so the block found is the only one allowed |
| CodeGenerationControl.BreakTarget | Source/Compiler/Expressions.cpp:1485-1503 | a `break n` fails exactly when fewer than max(1, n) for, switch or while blocks enclose it; otherwise it jumps to the after block of the max(1, n)-th such block counted outwards, and pops the blocks up to and including it |
| CodeGenerationControl.ContinueTarget | Source/Compiler/Expressions.cpp:2259-2276 | a `continue` fails exactly when no loop encloses it; otherwise it jumps to the innermost loop's repeat block |
| CodeGenerationControl.ValidatorBlocksCount | Source/Compiler/Validation.cpp:1922-1948 | the blocks the validator tracks are exactly the code generator's break targets, and its loops exactly the continue targets |
| CodeGenerationControl.AcceptedJumpsFindTarget | Source/Compiler/Validation.cpp:1916-1952 | every `break` the validator accepts finds its target in the code generator (1485-1503 of Expressions.cpp), and so does every accepted `continue` (2446-2475) |
| CodeGenerationControl.CreateDeferBlock | Source/Compiler/Expressions.cpp:136-147 | the new defer lists are the old ones plus one empty list for the block being entered |
| CodeGenerationControl.RegisterDefer | Source/Compiler/Expressions.cpp:4093-4101 | a defer outside any function block is an error; otherwise it is appended to the innermost list and the other lists are unchanged |
| CodeGenerationControl.DeferInstructionsAtEndOfBlock | Source/Compiler/Expressions.cpp:4334-4365 | the loop emits exactly the block's deferred expressions, walking its list from the end |
| CodeGenerationControl.PopBlocks | Source/Compiler/Expressions.cpp:4389-4400 | popping n blocks emits, innermost first, each block's deferred expressions followed by its stack restore when it saved one (4367-4377) |
| CodeGenerationControl.DeferRunsBeforeEarlierDefers | Source/Compiler/Expressions.cpp:4093-4101 | a defer registered later runs before every earlier defer of its block |
| CodeGenerationControl.DeferActionPresent | Source/Compiler/Expressions.cpp:4343-4361 | every registered defer statement runs at the end of its block |
| CodeGenerationControl.DeferActionsReverse | Source/Compiler/Expressions.cpp:4343-4361 | the defers of a block run in the reverse of their registration order |
| CodeGenerationControl.FindLast | Source/Compiler/Expressions.cpp:262 | the last element with that name, or none when no element has it |
| CodeGenerationControl.FindFirst | Source/Compiler/Expressions.cpp:269 | the first element with that name, or none when no element has it |
| CodeGenerationControl.SearchInFunctionScope | Source/Compiler/Expressions.cpp:249-275 | a variable is found exactly when a local or an argument has its name, and the one found has that name |
| CodeGenerationControl.ShadowingRules | Source/Compiler/Expressions.cpp:260-272 | the newest local of a name shadows earlier locals, and any local shadows an argument |
| CodeGenerationControl.UntypedDeclarationLoadsAlways | Source/Compiler/Expressions.cpp:3538-3578 | `var x = e` fails outside a function; inside one it always loads `e` first, allocates exactly when an alloca can be created and then evaluates to it, and stores exactly when it allocated and the type of `e` is not an empty constant array (`can_store`, 224-233), after the alloca and the load |
| CodeGenerationControl.TypedDeclarationStoresUnlessEmptyArray | Source/Compiler/Expressions.cpp:3580-3640 | `var x: T = e` fails outside a function; an `Instantiate` right-hand side that is already an alloca becomes the variable with no load, alloca or store (3607-3621); otherwise it allocates a new variable and loads and stores exactly when `T` is not an empty constant array (3624-3636) |
| CodeGenerationControl.DeclarationFormsAgreeUnlessEmptyArray | Source/Compiler/Expressions.cpp:3538-3640 | for a storable type both forms emit the same instructions; for an empty constant array only the untyped form loads its right-hand side (3550 against 3625) |
| CodeGenerationControl.TerminatorIsLastStatement | Source/Compiler/Expressions.cpp:235-247 | an empty block never ends with a terminator, and a block does exactly when its last statement starts with return, break or continue |
| CodeGenerationControl.FallThroughSkipsTerminatedBlocks | Source/Compiler/Expressions.cpp:4327-4331 | a block closed by a terminator emits nothing on falling through; any other block emits exactly the actions of popping its innermost block |
| CodeGenerationControl.IsTrueConstant | Source/Compiler/Expressions.cpp:3864-3886 | a single `Bool` constant `true`, or a single `C_bool` constant other than `false` and `0` |
| CodeGenerationControl.WhileLoopTargets | Source/Compiler/Expressions.cpp:3931-3990 | the loop has no condition block exactly for a constant true condition; `continue` repeats at the condition when there is one, else at the body, and `break` leaves for the after block |
| CodeGenerationControl.BoolConstantShortcut | Source/Compiler/Expressions.cpp:3864-3886 | a `Bool` condition is constant true only written `true`, a `C_bool` one unless `false` or `0`, and one with more than one expression never |
| CodeGenerationControl.GetCastType | Source/Compiler/Expressions.cpp:1831-1897 | a cast exists exactly between integers and floating point types in any combination, or none between two pointers; every other pair is \"Invalid cast!\"; a wider integer truncates, otherwise the extension is signed exactly when both types are signed integers; integer to floating point and back converts signed exactly when the integer side is signed; between floating point types the one with the larger mantissa truncates, otherwise it extends |
| CodeGenerationControl.FundamentalSignednessMatchesSuffix | Source/Compiler/Expressions.cpp:1955-1977 | among the C types with a literal suffix the signed ones are those other than `C_bool` whose suffix does not start `cu`, each with an unsigned partner; `C_schar` is the only other signed type, and no H type is |
| CodeGenerationControl.CastReversal | Source/Compiler/Expressions.cpp:1838-1889 | narrowing one way is widening the other, for integers and for floating point, and integer and floating point conversions pair up |
| CodeGenerationControl.SameTypeCastIsExtension | Source/Compiler/Expressions.cpp:1844-1888 | a cast from a numeric type to itself is an extension, never a truncation |
| CodeGenerationControl.NextEscape | Source/Compiler/Expressions.cpp:1988 | the first `\\n` escape at or after the index, or -1 when none follows |
| CodeGenerationControl.FindIsNextEscape | Source/Compiler/Expressions.cpp:1988 | `find("\\n", from)` finds the first escape |
| CodeGenerationControl.ReplaceStringLiteralSpecialValues | Source/Compiler/Expressions.cpp:1981-1998 | the loop produces exactly the as-written replacement |
| CodeGenerationControl.ReplacedFromShorter | Source/Compiler/Expressions.cpp:1981-1998 | the replacement never lengthens a literal, shortens one with an escape, and leaves one without escapes unchanged |
| CodeGenerationControl.ReplaceNewlineEscapes | Source/Compiler/Expressions.cpp:1981-1998 | the intended replacement leaves no escape, is never longer, and turns a leading escape into a newline |
| CodeGenerationControl.ReplacedFromAgrees | Source/Compiler/Expressions.cpp:1986-1995 | where no escape directly follows another, the code as written agrees with the intended replacement |
| CodeGenerationControl.ReplacedFromNoEscape | Source/Compiler/Expressions.cpp:1988-1990 | with no escape left the code returns the literal |
| CodeGenerationControl.IntendedNoEscape | Source/Compiler/Expressions.cpp:1981-1998 | the intended replacement leaves a literal without escapes unchanged |
| CodeGenerationControl.ConsecutiveEscapesMissed | Source/Compiler/Expressions.cpp:1994 | on two escapes in a row the code replaces the first and leaves the second, where the intended replacement gives two newlines |
| CodeGenerationControl.NumberOfIfBlocks | Source/Compiler/Expressions.cpp:2536-2548 | the block count is computed in 32 bits, so it is below 2^32 |
| CodeGenerationControl.IfChainBlocks | Source/Compiler/Expressions.cpp:2550-2604 | for fewer than 2^31 series, each conditional series' then block (2i) and else block (2i + 1) exist, a then block is never the end block, and the names follow the roles |
| CodeGenerationControl.IfChainBlockCount | Source/Compiler/Expressions.cpp:2536-2548 | without wrap-around, two blocks per conditional series and one for a final else; when the last series has a condition its else block is the end block |
| ParserConvertor.FirstLetterFrom | Source/Parser/Convertor.cpp:49-55 | the scan stops at the first letter at or after the start, and no letter lies before it |
| ParserConvertor.GetNumberSuffix | Source/Parser/Convertor.cpp:43-58 | the suffix is the tail of the literal from the first letter after an optional leading `0x`, empty when there is none, and starts with a letter when non-empty |
| ParserConvertor.NumberSuffixOfPrinted | Source/Parser/Convertor.cpp:43-58 | a literal printed as digits followed by a letter suffix (not starting with `x`) gives that suffix back |
| ParserConvertor.HexDigitsTakenAsSuffix | Source/Parser/Convertor.cpp:47-54 | after `0x`, hexadecimal letters are taken as the suffix (`0xff` gives `ff`), while `10i32` gives `i32` and `1.5` gives none |
| ParserConvertor.GetStringSuffix | Source/Parser/Convertor.cpp:60-66 | the suffix is the tail after the last quote and holds no quote; without a quote, `npos + 1` wraps to 0 and the whole text is returned |
| ParserConvertor.StringSuffixOfPrinted | Source/Parser/Convertor.cpp:60-66 | a literal `"data"suffix` gives its suffix back |
| ParserConvertor.LeadingDigits | Source/Parser/Convertor.cpp:83 | the digits `strtoull` reads are the longest prefix of decimal digits |
| ParserConvertor.Strtoull | Source/Parser/Convertor.cpp:83-84 | the converted value always fits in 64 bits |
| ParserConvertor.StrtoullSignAndSpace | Source/Parser/Convertor.cpp:83-84 | after leading white space, `-n` converts to 2^64 - n and `+n` to n |
| ParserConvertor.UnsignedDigits | Source/Parser/Convertor.cpp:83-84 | text starting with a digit converts to its leading digits' value, saturated at 2^64 - 1 |
| ParserConvertor.ParseUint64 | Source/Parser/Convertor.cpp:68-85 | `parse_uint64` converts only the first 20 characters, and its result fits in 64 bits |
| ParserConvertor.ParseUint64RoundTrip | Source/Parser/Convertor.cpp:68-85 | every 64-bit value's decimal text parses back to that value, and text after the first 20 characters is ignored |
| ParserConvertor.ContentEnd | Source/Parser/Convertor.cpp:101-105 | a line's content ends at its `\n` (or the end of the text), one earlier before a `\r` |
| ParserConvertor.NextCommentStart | Source/Parser/Convertor.cpp:98 | the position returned is -1 or holds `//` at or after the start |
| ParserConvertor.NextCommentStartFirst | Source/Parser/Convertor.cpp:98 | no `//` starts before the position returned |
| ParserConvertor.FindIsNextCommentStart | Source/Parser/Convertor.cpp:98 | `find("//", index)` agrees with the first-match definition |
| ParserConvertor.NextNewline | Source/Parser/Convertor.cpp:99 | the position returned is -1 or holds `\n` at or after the start |
| ParserConvertor.NextNewlineFirst | Source/Parser/Convertor.cpp:99 | no `\n` lies before the position returned |
| ParserConvertor.FindIsNextNewline | Source/Parser/Convertor.cpp:99 | `find("\n", index + 2)` agrees with the first-match definition |
| ParserConvertor.EncodedFromLast | Source/Parser/Convertor.cpp:107-115 | the last line contributes its content, after a `\n` unless it is the first |
| ParserConvertor.EncodedFromNext | Source/Parser/Convertor.cpp:107-117 | a line followed by a `\n` contributes its content and encoding goes on after that `\n` |
| ParserConvertor.EncodeComment | Source/Parser/Convertor.cpp:87-121 | the loop builds exactly the line-by-line encoding of the comment text |
| ParserConvertor.AppendLinePiece | Source/Parser/Convertor.cpp:96-118 | one turn of the loop appends the current line's piece and moves to the next line, or stops at the last |
| ParserConvertor.LastPieceAppended | Source/Parser/Convertor.cpp:110-115 | the last turn appends its line's piece and stops |
| ParserConvertor.NextPieceAppended | Source/Parser/Convertor.cpp:110-117 | a turn with a following `\n` appends its line's piece and continues after the `\n` |
| ParserConvertor.NextNewlineAt | Source/Parser/Convertor.cpp:99 | the search finds the first `\n` when the text before it has none |
| ParserConvertor.LineContentBetween | Source/Parser/Convertor.cpp:101-109 | a line `//...` has as content the text after `//` up to its end, less a trailing `\r` |
| ParserConvertor.FirstCommentLine | Source/Parser/Convertor.cpp:98-109 | in text laid out as `//`-lines, the first line starts with `//` at the index and ends where the line does |
| ParserConvertor.CommentLinesLaidOut | Source/Parser/Convertor.cpp:96-118 | `//`-lines joined with `\n` are laid out line by line from the index |
| ParserConvertor.LaidOutFirstLine | Source/Parser/Convertor.cpp:98-117 | the loop reads the first laid-out line's content, less a trailing `\r`, and finds the next line after its `\n` |
| ParserConvertor.LaidOutReadsLines | Source/Parser/Convertor.cpp:96-118 | the loop reads laid-out lines back one by one |
| ParserConvertor.EncodeReadLines | Source/Parser/Convertor.cpp:96-118 | encoding the lines read keeps each line's content and joins the lines with `\n` |
| ParserConvertor.EncodeCommentOfLines | Source/Parser/Convertor.cpp:87-121 | encoding `//l1\n//l2...` gives `l1\nl2...`, each line without a trailing `\r` |
| ParserConvertor.GetAssignmentOperation | Source/Parser/Convertor.cpp:1692-1707 | a symbol gives an operation exactly when the editor prints that operation's compound assignment as that symbol; `=` and unknown symbols give none |
| ParserConvertor.AssignmentParsersAgree | Source/Parser/Convertor.cpp:1692-1707 | the compiler and editor parsers give the same result on every assignment symbol |
| ParserConvertor.BinaryParsersAgree | Source/Parser/Convertor.cpp:1709-1732 | the compiler and editor parsers agree on every binary symbol, with the compiler's `Add` for unknown ones |
| ParserConvertor.UnaryParsersAgree | Source/Parser/Convertor.cpp:1734-1745 | the parsers agree on every unary symbol the editor accepts, and only the compiler accepts `++` and `--`; the editor's corrected parser agrees with the compiler on every symbol it accepts |
| ParserConvertor.BinaryRoundTrip | Source/Parser/Convertor.cpp:1709-1732 | every binary symbol the editor prints parses back to its operation |
| ParserConvertor.UnaryRoundTrip | Source/Parser/Convertor.cpp:1734-1745 | every unary symbol the editor prints parses back to its operation |
| ParserConvertor.UnaryDefault | Source/Parser/Convertor.cpp:1744 | a symbol printed for no unary operation gives `Not` |
| ParserConvertor.ParameterCount | Source/Parser/Convertor.cpp:492-501 | the lists hold no more entries than there are nodes |
| ParserConvertor.ParameterNodesToNames | Source/Parser/Convertor.cpp:525-560 | one name per parameter, in order, and `""` where the name child is missing |
| ParserConvertor.ParameterNodesToTypeReferences | Source/Parser/Convertor.cpp:481-523 | one type per parameter, in order, and the default type where the type child is missing or does not convert |
| ParserConvertor.VariadicDropsLastNode | Source/Parser/Convertor.cpp:1010-1021 | a list ending in `...` has one entry fewer than it has nodes, and any other list keeps every node |
| ParserConvertor.OperandIndices | Source/Parser/Convertor.cpp:1527-1690 | one index is returned per operand |
| ParserConvertor.OperandsStep | Source/Parser/Convertor.cpp:1527-1690 | converting one more operand appends that operand's slots after those already appended |
| ParserConvertor.StatementBuilder.NodeToExpression | Source/Parser/Convertor.cpp:1527-1690 | the slot at the old size is reserved before the sub-expressions are converted, then filled; an unknown symbol leaves the reserved slot and returns the invalid index |
| ParserConvertor.StatementBuilder.ConvertOperands | Source/Parser/Convertor.cpp:1979-2006 | converting operands in order appends their slots one after the other and returns their indices |
| ParserConvertor.RootAtBase | Source/Parser/Convertor.cpp:1547-1548 | a node with a known symbol owns the slot at the old size and that slot holds its symbol; any other node appends at most the reserved slot and yields the invalid index |
| ParserConvertor.AppendedRefersForward | Source/Parser/Convertor.cpp:1527-1690 | every slot appended for a node refers only to later slots of the same subtree |
| ParserConvertor.OperandsRefersForward | Source/Parser/Convertor.cpp:1527-1690 | converted operands refer only forwards, and their indices lie within the appended slots |
| ParserConvertor.NumberConstant | Source/Parser/Convertor.cpp:2094-2242 | a converted number keeps the literal without its suffix as its data |
| ParserConvertor.StringConstant | Source/Parser/Convertor.cpp:2243-2266 | text with no quote fails (the substring is out of range); otherwise the constant is a C string exactly when the suffix is `c` |
| ParserConvertor.NodeToExpressionConstant | Source/Parser/Convertor.cpp:2073-2269 | it fails only for a string without a quote; a missing child or unknown choice gives the default constant; a Boolean keeps its text |
| ParserConvertor.NumberConstantMatchesSuffixTable | Source/Parser/Convertor.cpp:2094-2242 | on every suffix the language's table accepts, the converter gives the table's type and the literal without its suffix |
| ParserConvertor.NumberConstantOfPrinted | Source/Parser/Convertor.cpp:2094-2242 | a printed number is split back into its digits and its suffix |
| ParserConvertor.FloatWidthFallback | Source/Parser/Convertor.cpp:2141-2148 | a float width other than 16, 32 and 64 gives `Float32` where the table rejects the suffix |
| ParserConvertor.UnknownCSuffix | Source/Parser/Convertor.cpp:2151-2241 | a `c` suffix outside the C type table gives the default constant where the table reports an error |
| ParserConvertor.CheckedNumberConstant | Source/Parser/Convertor.cpp:2094-2242 | a converted number keeps the literal without its suffix as its data |
| ParserConvertor.CheckedSuffixTypeMatchesTable | Source/Parser/Convertor.cpp:2094-2242 | the checked suffix rule and the table accept the same suffixes and give them the same type |
| ParserConvertor.CheckedNumberConstantMatchesTable | Source/Parser/Convertor.cpp:2094-2242 | the checked converter accepts a printed number exactly when the table does, and then gives the same constant |
| ParserConvertor.StringConstantOfPrinted | Source/Parser/Convertor.cpp:2243-2266 | a printed literal `"data"suffix` converts back to `data`, as a C string exactly for the suffix `c` |
| ParserConvertor.StringConstantRoundTrip | Source/Parser/Convertor.cpp:2243-2266 | the literals the editor prints for string constants convert back to the same constant |
| EditorAnalysis.EditDistanceStep | Tools/vscode/H-editor/packages/core/src/Parse_tree_analysis.ts:1590-1602 | each matrix cell obeys the recurrence: a match copies the diagonal, otherwise 1 + the least of substitution, insertion and deletion |
| EditorAnalysis.GetLevenshteinDistance | Tools/vscode/H-editor/packages/core/src/Parse_tree_analysis.ts:1578-1606 | the nested loops over the matrix return the edit distance of the two strings |
| EditorAnalysis.FillRow | Tools/vscode/H-editor/packages/core/src/Parse_tree_analysis.ts:1589-1603 | after the inner loop row i holds the distances from every prefix of `a` to the first i characters of `b`; earlier rows are kept and later rows untouched |
| EditorAnalysis.EditDistanceZero | Tools/vscode/H-editor/packages/core/src/Parse_tree_analysis.ts:1578-1606 | the distance is 0 iff the strings are equal, so d(a, a) = 0 |
| EditorAnalysis.EditDistanceEmpty | Tools/vscode/H-editor/packages/core/src/Parse_tree_analysis.ts:1581-1587 | d(a, "") = \|a\| and d("", a) = \|a\| |
| EditorAnalysis.FindBestStringMatch | Tools/vscode/H-editor/packages/core/src/Parse_tree_analysis.ts:1559-1576 | an error iff there are no options (`options[0]` is unguarded); otherwise an option at least distance from the target, with every earlier option strictly farther (the earliest wins ties) |
| EditorAnalysis.CursorParameterIndex | Tools/vscode/H-editor/packages/core/src/Parse_tree_analysis.ts:1247-1262 | child 1 gives 0, child 2 gives ceil(argument / 2), anything else gives -1; reading past the cursor path gives no number |
| EditorAnalysis.CeilHalf | Tools/vscode/H-editor/packages/core/src/Parse_tree_analysis.ts:1256 | `Math.ceil(x / 2)` on an integer: x <= 2r < x + 2 |
| EditorAnalysis.CursorOnArgument | Tools/vscode/H-editor/packages/core/src/Parse_tree_analysis.ts:1247-1262 | with the cursor on argument k (child 2k) or just after the comma before it (child 2k - 1), the parameter index is k |
| EditorAnalysis.GetMemberNames | Tools/vscode/H-editor/packages/core/src/Parse_tree_analysis.ts:1541-1557 | enum value names, struct or union member names in order, and [] for any other declaration kind |
| EditorAnalysis.FindByName | Tools/vscode/H-editor/packages/core/src/Parse_tree_analysis.ts:1046 | `Array.find` by name: a found declaration is in the list with that name; none found means no declaration has it |
| EditorAnalysis.CustomTypeDeclaration | Tools/vscode/H-editor/packages/core/src/Parse_tree_analysis.ts:1036-1055 | a found declaration lies in the referenced module and carries the referenced name |
| EditorAnalysis.UnderlyingTypeDeclaration | Tools/vscode/H-editor/packages/core/src/Parse_tree_analysis.ts:1073-1110 | the `while` loop returns exactly the reference alias chain (bounded by fuel) |
| EditorAnalysis.AliasChainResult | Tools/vscode/H-editor/packages/core/src/Parse_tree_analysis.ts:1073-1110 | a non-alias declaration is returned unchanged; any result is the original declaration or a non-alias one |
| EditorAnalysis.AliasChainStep | Tools/vscode/H-editor/packages/core/src/Parse_tree_analysis.ts:1090-1101 | an alias to a custom type continues from the declaration that type names, in its module |
| EditorAnalysis.UnderlyingType | Tools/vscode/H-editor/packages/core/src/Parse_tree_analysis.ts:1057-1071 | a non-alias type is returned unchanged, and any result is a non-alias type |
| EditorAnalysis.GoToNextBlock | Tools/vscode/H-editor/packages/core/src/Parse_tree_analysis.ts:567-585 | the `while` loop returns exactly the reference descent along the cursor path |
| EditorAnalysis.NextBlockOnPath | Tools/vscode/H-editor/packages/core/src/Parse_tree_analysis.ts:567-585 | a found node lies on the cursor path below the start, is the node that prefix leads to, carries the label, and is the first such; no result means no node on the path carries it |
| EditorAnalysis.CommonPrefixLength | Tools/vscode/H-editor/packages/core/src/Parse_tree_analysis.ts:1772-1773 | the longest common prefix of two positions: equal up to n and different at n when both go on |
| EditorAnalysis.ReducedIndex | Tools/vscode/H-editor/packages/core/src/Parse_tree_analysis.ts:1771-1775 | the position of the component the `reduce` keeps |
| EditorAnalysis.ReduceComponentsClosest | Tools/vscode/H-editor/packages/core/src/Parse_tree_analysis.ts:1771-1775 | the kept component shares a prefix with the cursor at least as long as any other's and strictly longer than every earlier one's |
| EditorAnalysis.SelectAccessExpressionComponent | Tools/vscode/H-editor/packages/core/src/Parse_tree_analysis.ts:1764-1779 | an error iff there are no components (`reduce` without an initial value); otherwise a component of the list |
| EditorAnalysis.SelectedIsClosest | Tools/vscode/H-editor/packages/core/src/Parse_tree_analysis.ts:1764-1779 | the selection is the earliest of the components sharing the longest prefix with the cursor (after a `.`, the node after it) |
| CodeGenerator.Indent | Tools/code_generator/Code_generator.cpp:23-26 | `indent(n)` is exactly n characters, all spaces |
| CodeGenerator.IndentAdds | Tools/code_generator/Code_generator.cpp:23-26 | indentation adds up: indent(a) + indent(b) == indent(a + b) |
| CodeGenerator.Lowercase | Tools/code_generator/Code_generator.cpp:28-41 | lower-casing keeps the length of the string |
| CodeGenerator.ToLowercase | Tools/code_generator/Code_generator.cpp:28-41 | the loop over a resized string yields exactly the per-character lower-casing of the input |
| CodeGenerator.LowercaseProperties | Tools/code_generator/Code_generator.cpp:28-41 | no upper-case letter is left, every other character is kept, concatenations are lower-cased part by part, and lower-casing twice changes nothing more |
| CodeGenerator.SubstrBetweenCases | Tools/code_generator/Code_generator.cpp:229-249 | `substr(open + 1, close - open - 1)` with `npos` wrap-around: the text strictly between the brackets, the rest after `<`, the text before `>`, or the whole name |
| CodeGenerator.AngleBracketContentCases | Tools/code_generator/Code_generator.cpp:229-249 | `get_optional_value_type` / `get_vector_value_type` give the text between the first `<` and the last `>` when both occur in order, and the stated fallbacks otherwise |
| CodeGenerator.AngleBracketContentOfTemplate | Tools/code_generator/Code_generator.cpp:229-249 | a printed template `prefix<inner>` gives `inner` back |
| CodeGenerator.NextComma | Tools/code_generator/Code_generator.cpp:271 | the first comma at or after the start, or the end of the text |
| CodeGenerator.FindComma | Tools/code_generator/Code_generator.cpp:271 | the `std::find` step returns the next comma position |
| CodeGenerator.GetVariadicTypes | Tools/code_generator/Code_generator.cpp:251-282 | the result is the text between the first `<` and the last `>` split at every comma |
| CodeGenerator.SplitAtCommas | Tools/code_generator/Code_generator.cpp:264-279 | the `while (true)` loop yields exactly the comma-split of the text |
| CodeGenerator.PartsFromIsSplit | Tools/code_generator/Code_generator.cpp:264-279 | cutting at each next comma from a start position is the split of the rest of the text |
| CodeGenerator.VariadicTypesRejoin | Tools/code_generator/Code_generator.cpp:251-282 | the parts number one more than the commas, and joining them with `,` gives the bracketed text back |
| CodeGenerator.VariadicTypesOfVariant | Tools/code_generator/Code_generator.cpp:251-282 | `std::variant<A,B,...>` with comma-free alternatives gives exactly the alternatives back |
| CodeGenerator.JoinStrings | Tools/code_generator/Code_generator.cpp:2056-2073 | the loop's output equals the join of the strings with the delimiter |
| CodeGenerator.JoinShape | Tools/code_generator/Code_generator.cpp:2056-2073 | the empty list joins to "", one element to itself, longer lists end with one delimiter and the last element (no trailing delimiter) |
| CodeGenerator.VariantTypesEnumName | Tools/code_generator/Code_generator.cpp:2075-2089 | every enum name ends in `_enum` |
| CodeGenerator.VariantTypesEnumNameRecoversNames | Tools/code_generator/Code_generator.cpp:2075-2089 | for a parent other than `Type_reference`/`Expression`, names without `_` are recovered by splitting the name before `_enum` at `_` |
| CodeGenerator.VariantTypesEnumNameCollision | Tools/code_generator/Code_generator.cpp:2075-2089 | the join is not injective: `["A_B"]` and `["A","B"]` give the same enum name |
| CodeGenerator.FirstSemicolonToken | Tools/code_generator/Code_generator.cpp:933-951 | the first token at or after the start that ends in `;`, or -1 when there is none |
| CodeGenerator.ParseUsingType | Tools/code_generator/Code_generator.cpp:921-954 | the loop's result equals the reference `UsingType`: nullopt unless the first token is `using` and there are at least 4 tokens, the tokens from index 3 run together up to the first one ending in `;` with that `;` removed |
| CodeGenerator.UsingTypeOfDeclaration | Tools/code_generator/Code_generator.cpp:921-954 | `using name = parts... last;` declares `name` as the parts and `last` concatenated, whatever follows |
| CodeGenerator.UsingTypeUnterminated | Tools/code_generator/Code_generator.cpp:933-953 | with no token from index 3 on ending in `;` the result is nullopt |
| CodeGenerator.ClassifiedTypesAreCpp | Tools/code_generator/Code_generator.cpp:117-226 | every bool, integer, floating, string, vector, optional and variant name satisfies `is_cpp_type` |
| CodeGenerator.TemplateKindsExclusive | Tools/code_generator/Code_generator.cpp:125-152 | no type name is two of vector, optional and variant |
| CodeGenerator.KeyStateCount | Tools/code_generator/Code_generator.cpp:308-341 | the key code reports 1 or 2 states |
| CodeGenerator.ValueStateCount | Tools/code_generator/Code_generator.cpp:376-545 | the value code uses at least one state |
| CodeGenerator.VariantValueStates | Tools/code_generator/Code_generator.cpp:411-534 | a variant that is neither a scanned struct nor enum takes 4 + 3k states, k being the alternatives (commas + 1) |
| CodeGenerator.KeyStates | Tools/code_generator/Code_generator.cpp:597-628 | one key state per member |
| CodeGenerator.ValueStates | Tools/code_generator/Code_generator.cpp:656-674 | one value start state per member |
| CodeGenerator.CountsAgree | Tools/code_generator/Code_generator.cpp:308-341 | key and value counts agree exactly for non-variants and for variants that are scanned enums |
| CodeGenerator.StatesFrom | Tools/code_generator/Code_generator.cpp:597-674 | one state per count |
| CodeGenerator.KeyCounts | Tools/code_generator/Code_generator.cpp:597-628 | the counts are the per-member key counts |
| CodeGenerator.ValueCounts | Tools/code_generator/Code_generator.cpp:656-674 | the counts are the per-member value counts |
| CodeGenerator.KeyStatesFrom | Tools/code_generator/Code_generator.cpp:597-628 | the key states are the running sums of the key counts from the first state |
| CodeGenerator.ValueStatesFrom | Tools/code_generator/Code_generator.cpp:656-674 | the value states are the running sums of the value counts from the first state |
| CodeGenerator.StatesFromMatch | Tools/code_generator/Code_generator.cpp:597-674 | two runs of counts reach the same states iff they agree on every count but the last |
| CodeGenerator.KeyStatesMatchValueStates | Tools/code_generator/Code_generator.cpp:597-674 | each key switches to its member's value code iff every member but the last has equal key and value counts |
| CodeGenerator.KeyStatesAsWrittenMisdirect | Tools/code_generator/Code_generator.cpp:324-331 | after a variant member, the next key switches to state + 1, while that member's value code starts at state + 4 + 3k |
| CodeGenerator.KeyStateCountIntended | Tools/code_generator/Code_generator.cpp:308-341 | the corrected key count is at least 1 |
| CodeGenerator.IntendedCountIsValueCount | Tools/code_generator/Code_generator.cpp:308-341 | the corrected key count equals the value count for every member |
| CodeGenerator.KeyStatesIntended | Tools/code_generator/Code_generator.cpp:597-628 | one corrected key state per member |
| CodeGenerator.ValueStatesContiguous | Tools/code_generator/Code_generator.cpp:656-674 | value blocks follow one another with no gap or overlap from the first state |
| CodeGenerator.KeyStatesIntendedMatch | Tools/code_generator/Code_generator.cpp:597-674 | with the corrected counts every key leads to the first state of its member's value code |
| ModuleExamples.CreateStatement | Tools/vscode/H-editor/packages/core/src/Module_examples.ts:6115-6126 | the new statement wraps the given expression; with a position the expression's position becomes a copy of it, without one it keeps its position; the expression's data is untouched |
| ModuleExamples.ExtraLinesBefore | Tools/vscode/H-editor/packages/core/src/Module_examples.ts:6145-6147 | the number of earlier listed indices never exceeds the statement's index |
| ModuleExamples.AddSourcePositions | Tools/vscode/H-editor/packages/core/src/Module_examples.ts:6128-6151 | every statement gets the start column and the line start + i + (listed indices below i); only positions change |
| ModuleExamples.LinesIncrease | Tools/vscode/H-editor/packages/core/src/Module_examples.ts:6139-6149 | assigned lines strictly increase: the gap between statements i < j is at least j - i and at most 2(j - i) |
| ModuleExamples.ConsecutiveLines | Tools/vscode/H-editor/packages/core/src/Module_examples.ts:6139-6149 | with no listed index below i, statement i is on line start + i |
| ModuleExamples.ExtraLineAfter | Tools/vscode/H-editor/packages/core/src/Module_examples.ts:6145-6149 | each statement's line is the previous one plus one, plus one more when the previous index is listed |

## Left out

- CoreIR.FlattenExpression: the codec covers 14 of the 36 `Expression_enum` kinds (Variable, Access, Access_array, Assignment, Binary, Unary, Parenthesis, Call, Return, Constant, Break, Continue, Null_pointer, Block). The other 22 kinds are not modelled: If, For_loop, While_loop, Switch, Cast, Defer, Instantiate, Struct, Ternary_condition, Variable_declaration, Variable_declaration_with_type, Constant_array, Dereference_and_access, Function, Instance_call, Reflection, Type, Union, Assert, Comment, Compile_time and Invalid. Their encoders and decoders follow the same slot-then-children pattern, and leaving them out keeps the round-trip proofs small.
- CoreIR.ToIntermediateExpression: decoding uses a fuel bound equal to the number of slots. The TypeScript decoder would recurse forever on a cyclic index, and the model returns `None` there instead.
- CoreModule.CreateCoreModule: a module keeps only its name and declarations. `imports`, `language_version`, `comment` and `source_file_path` are copied unchanged by the source and are not modelled. A non-function declaration's payload is converted by code outside this model, so its bucket entry keeps only the declaration's name.
- CompilerValidation.ValidateDeclarations: the diagnostics are the ones `validate_declarations` collects before its closing `sort_diagnostics` call (Source/Compiler/Validation.cpp:739). The definition of `sort_diagnostics` is not part of this model, so the final order is not modelled.
- CompilerValidation.SourceRangeAt: the end column is `column + count` on unbounded integers. The source adds two `uint32` values, and wrap-around past 2^32 is not modelled.
- CompilerTypes.CanAssignType: recursion into element types carries a fuel bound, because the alias resolver `underlying` is abstract and may not reach a fixed point. `CanAssignFuelMonotone` shows that more fuel never turns an accepted assignment into a rejected one.
- EditorAnalysis.AliasChain: on a cyclic alias chain the loop of `get_underlying_type_declaration` (Tools/vscode/H-editor/packages/core/src/Parse_tree_analysis.ts:1079-1110) never terminates. The model bounds the chain by fuel and returns `None` when the fuel runs out. `get_underlying_type` (1057-1071) is bounded the same way.
- EditorValidation.AreCompatiblePointerTypes: `deep_equal(first, second)` on the two type-reference arrays is modelled as structural equality `==`. These core type references carry no `source_location` keys and no `undefined` fields, which are the two places where `deep_equal` differs from equality.
- CodeGenerator.KeyStates: the generated reader code is reduced to the state numbers it switches to and the number of states each member's code takes. The C++ text it writes to the output stream is not modelled.
- CodeGenerator.VariantTypesEnumName: kept as written, although it is not injective (`VariantTypesEnumNameCollision`). No separator that would make it injective is evident from the source.
- ParseTreeMappings.SuffixType: when the bit count after `i` or `u` is NaN, infinite or fractional, the model returns an `Err`. The source builds an `Integer_type` whose `number_of_bits` is that value (Tools/vscode/H-editor/packages/core/src/Parse_tree_convertor_mappings.ts:3443-3453).
- JsNumbers.Number: values are exact rationals, so the rounding of a decimal literal to the nearest double is not modelled. Two literals that round to the same double can therefore differ in the model. Bit counts are small integers, where the two agree.
- ParserConvertor.NumberConstant: `parse_number_of_bits` is called by `node_to_expression_constant`, but its definition is not part of this model. It is a parameter `numberOfBits`, and the lemmas that compare the convertor with the editor's table assume it reads decimal digits as numbers.
- ParserConvertor.ParameterNodesToNames and ParserConvertor.ParameterNodesToTypeReferences: tree-sitter nodes, `get_child_node` and `node_to_type_reference` are not modelled. A parameter node is given as its optional name and its optional converted type.
- ParserConvertor.StatementBuilder.NodeToExpression: only the slot allocation is modelled. An expression node is given as its symbol and its operand nodes, and the per-kind conversions (`node_to_expression_access` and the others) are reduced to converting those operands in order.
- `Scanner.get_suffix`, `extract_comments_from_stack`, `Parser_node.find_node_common_root` and `get_next_terminal_node` are not part of this model. The word type the scanner assigns is a parameter of the editor's tables.
- LLVM IR emission (`IRBuilder` calls, allocas, loads and stores, debug information, `fold_constant`), tree-sitter parsing and file input and output, rapidjson and stream output, and allocators are not modelled. They are foreign libraries or I/O.
- EditorAnalysis.GetLevenshteinDistance, EditorAnalysis.EditDistance and CodeGenerator.ToLowercase: strings are sequences of Unicode characters, so lengths and positions count characters. The TypeScript distance counts UTF-16 code units, and the C++ `to_lowercase`, `substr` and `find` count bytes. Outside the Basic Multilingual Plane or ASCII the two differ: the distance between `😀` and the empty string is 2 in TypeScript and 1 in the model.
- CodeGenerationControl.UntypedDeclaration and CodeGenerationControl.TypedDeclaration: whether the declaration is inside a function, whether `create_alloca_instruction` returns an instruction, and whether the typed form's right-hand side is an `Instantiate` expression whose value is an alloca are parameters. `create_alloca_instruction` is not part of this model, and the right-hand side's code generation is reduced to these facts. A load stands for `load_if_needed`, whether or not that emits a load instruction.
- Floating-point literal values (`strtof`, `strtod`) and floating-point arithmetic are not modelled. Only the width-based choice of a floating-point cast is in scope.
- Diagnostic messages are opaque tags, and `format_type_reference` text is not modelled.
- Test files and static fixture data are not modelled: the golden LLVM IR comparisons and the fixture modules of `Module_examples.ts`.

## Findings

| source | as written | input that shows it | evidently intended | confidence | as-written member | corrected member |
|---|---|---|---|---|---|---|
| Tools/vscode/H-editor/packages/core/src/Core_intermediate_representation.ts:154-157 | the internal bucket's `function_constructors` is filled from the export list | a module whose only declaration is an internal function constructor `f`: no bucket holds `f`, and an exported one lands in both buckets | the internal list fills the internal bucket, so a declaration lands in the bucket of its own visibility | not executed | CoreModule.AsWrittenLosesInternalFunctionConstructors | CoreModule.IntendedBuckets |
| Tools/code_generator/Code_generator.cpp:324-331 | each member's key code switches to the current state, and the state then advances by what the member's value code is taken to need, 2 for a struct or a vector (339), but 1 for a variant (the `return 1` at 327), although a variant's value code takes `4 + 3k` states for k alternatives | a variant member with k alternatives at state `s`, followed by any member: that member's key switches to `s + 1`, the variant's end-of-object state, while its own value code starts at `s + 4 + 3k` | each key switches to the first state of its own member's value code | not executed | CodeGenerator.KeyStatesAsWrittenMisdirect | CodeGenerator.KeyStatesIntendedMatch |
| Tools/vscode/H-editor/packages/core/src/Validation.ts:1560-1568 | a number suffix other than empty, `i`, `u` or `f` is reported as unexpected, `c` included | the constant `1cc`, which the printer writes for a `C_char` constant (Parse_tree_convertor_mappings.ts:376-408) and the parser reads back (3491-3525) | a `c` suffix is accepted exactly when it names a C type | not executed | EditorValidation.PrintedCConstantRejected | EditorValidation.ValidateConstantWithCTypes |
| Source/Parser/Convertor.cpp:2141-2148 | any float width other than 16 and 64 gives `Float32`, and an unknown `c` suffix gives the default constant | the literal `1.0f8` gives a `Float32` constant, and `1cx` a constant with no type, where the editor's table reports an error for both | an unsupported width or C suffix is an error, as in the editor's table | not executed | ParserConvertor.FloatWidthFallback | ParserConvertor.CheckedNumberConstant |
| Source/Compiler/Expressions.cpp:1994 | after replacing a two-character escape by one character, `index` advances by 2 | the literal `\n\n` (two escapes) gives a newline followed by the second escape unchanged | every escape becomes a newline; the model of `replace_string_literal_special_values` keeps the written behaviour | not executed | CodeGenerationControl.ConsecutiveEscapesMissed | CodeGenerationControl.ReplaceNewlineEscapes |
| Source/Compiler/Validation.cpp:181 | the last rule of `are_compatible_types` compares the two references themselves | an alias `A` of `Int32` is not compatible with `Int32`, although both resolve to the same type | references are compared after resolution, which keeps every written acceptance and stays symmetric | not executed | CompilerTypes.ScalarAliasIncompatible | CompilerTypes.ResolvedCompatibility |
| Tools/vscode/H-editor/packages/core/src/Parse_tree_convertor_mappings.ts:3858-3877 | the symbol switch of `node_to_expression_unary` has no case for `++` or `--`, so the read-write marking for `Pre_increment` and `Pre_decrement` after it never applies | the expression `++x`, which the printer writes for a `Pre_increment` (1546), makes the parser throw "Did not expect '++'" | `++` and `--` parse to the prefix increment and decrement, as the compiler's own parser reads them (Source/Parser/Convertor.cpp:1734-1745) | not executed | ParseTreeMappings.IncrementSymbolsRejected | ParseTreeMappings.IntendedSymbolToUnaryOperation |
| Tools/vscode/H-editor/packages/core/src/Validation.ts:2955-2966 | `deep_equal` iterates only the first object's keys, and a key missing from the second reads as `undefined` | `{a: undefined}` is `deep_equal` to `{b: 1}`, but `{b: 1}` is not `deep_equal` to `{a: undefined}` | structural equality that holds in both directions | not executed | EditorValidation.DeepEqualNotSymmetric | EditorValidation.MutuallyDeepEqualSymmetric |
