/** The helpers of the C++ header scanner and JSON reader generator
    (Tools/code_generator/Code_generator.cpp): indentation, lower-casing,
    template arguments, joining, the variant enum names, `using` aliases,
    the type classifiers and the reader states each struct member takes. */
module CodeGenerator {
  import opened Wrappers
  import opened Strings

  // ----- indent -----

  /** `indent(n)`: the empty string formatted to width `n`. */
  function Indent(n: nat): (r: string)
    ensures |r| == n
    ensures forall i :: 0 <= i < |r| ==> r[i] == ' '
  {
    if n == 0 then "" else Indent(n - 1) + " "
  }

  /** Nested indentation adds up: `indent(a) + indent(b)` is `indent(a + b)`. */
  lemma IndentAdds(a: nat, b: nat)
    ensures Indent(a) + Indent(b) == Indent(a + b)
  {
    assert forall i :: 0 <= i < a + b ==> (Indent(a) + Indent(b))[i] == ' ';
  }

  // ----- to_lowercase -----

  /** `std::tolower` in the "C" locale. */
  function LowerChar(c: char): char {
    if 'A' <= c <= 'Z' then (c as int + 32) as char else c
  }

  predicate IsUpper(c: char) { 'A' <= c <= 'Z' }

  /** Each character of `s` lower-cased on its own. */
  function Lowercase(s: string): (r: string)
    ensures |r| == |s|
  {
    seq(|s|, i requires 0 <= i < |s| => LowerChar(s[i]))
  }

  /** `to_lowercase`: a string of the same size, filled character by
      character. */
  method ToLowercase(s: string) returns (r: string)
    ensures r == Lowercase(s)
  {
    var lowercase := new char[|s|](_ => '\0');
    for index := 0 to |s|
      invariant forall j :: 0 <= j < index ==> lowercase[j] == LowerChar(s[j])
    {
      lowercase[index] := LowerChar(s[index]);
    }
    r := lowercase[..];
  }

  /** Lower-casing leaves no upper-case letter, keeps every other character,
      works on each part of a concatenation separately and changes nothing
      the second time. */
  lemma LowercaseProperties(a: string, b: string)
    ensures forall i :: 0 <= i < |a| ==> !IsUpper(Lowercase(a)[i])
    ensures forall i :: 0 <= i < |a| && !IsUpper(a[i]) ==> Lowercase(a)[i] == a[i]
    ensures Lowercase(a + b) == Lowercase(a) + Lowercase(b)
    ensures Lowercase(Lowercase(a)) == Lowercase(a)
  {
    assert forall i :: 0 <= i < |a| ==> Lowercase(a + b)[i] == (Lowercase(a) + Lowercase(b))[i];
    assert forall i :: |a| <= i < |a + b| ==> Lowercase(a + b)[i] == (Lowercase(a) + Lowercase(b))[i];
  }

  // ----- Template arguments -----

  /** `std::string::npos`. */
  const Npos: nat := 0xFFFF_FFFF_FFFF_FFFF

  /** A position from `find_first_of` / `find_last_of`: `npos` when absent. */
  function FoundAt(k: int): nat
    requires k >= -1
  {
    if k == -1 then Npos else k
  }

  /** `substr(open + 1, close - open - 1)` on `size_t` positions, where
      `open` is a position in the text or `npos`. */
  function SubstrBetween(name: string, open: nat, close: nat): string
    requires |name| < Npos && (open < |name| || open == Npos)
  {
    var position := Wrap64(open + 1);
    assert position <= |name|;
    Substr(name, position, Wrap64(close - open - 1))
  }

  /** `get_optional_value_type` and `get_vector_value_type`, which have
      the same body: the text between the first `<` and the last `>`, on
      positions that wrap around when a bracket is missing. */
  function AngleBracketContent(name: string): (r: string)
    requires |name| < Npos
  {
    SubstrBetween(name, FoundAt(FirstIndexOf(name, '<')), FoundAt(LastIndexOf(name, '>')))
  }

  /** The type has a `<` before its last `>`. */
  predicate Bracketed(name: string) {
    FirstIndexOf(name, '<') != -1 && FirstIndexOf(name, '<') < LastIndexOf(name, '>')
  }

  /** The text strictly between the first `<` and the last `>`. */
  function BracketContent(name: string): string
    requires Bracketed(name)
  {
    name[FirstIndexOf(name, '<') + 1..LastIndexOf(name, '>')]
  }

  /** The three shapes of `SubstrBetween`: both positions in order, an
      `open` with no `close` after it, and `open` at `npos`. */
  lemma SubstrBetweenCases(name: string, open: nat, close: nat)
    requires |name| < Npos && (open < |name| || open == Npos) && (close < |name| || close == Npos)
    ensures open < close < |name| ==> SubstrBetween(name, open, close) == name[open + 1..close]
    ensures open < |name| && (close == Npos || close <= open) ==> SubstrBetween(name, open, close) == name[open + 1..]
    ensures open == Npos && close < |name| ==> SubstrBetween(name, open, close) == name[..close]
    ensures open == Npos && close == Npos ==> SubstrBetween(name, open, close) == name
  {
    if open < |name| {
      assert Wrap64(open + 1) == open + 1;
      if close == Npos {
        assert Wrap64(close - open - 1) == Npos - open - 1;
      } else if close <= open {
        assert Wrap64(close - open - 1) == close - open - 1 + Uint64Modulus;
      } else {
        assert Wrap64(close - open - 1) == close - open - 1;
      }
    } else {
      assert Wrap64(open + 1) == 0;
      if close == Npos {
        assert Wrap64(close - open - 1) == Npos;
      } else {
        assert Wrap64(close - open - 1) == close;
      }
    }
  }

  /** On a bracketed type name the value type is the text between the
      brackets; with `<` but no later `>` it is the rest after `<`; with no
      `<` the position and count wrap, giving the text before the last `>`
      or the whole name. */
  lemma AngleBracketContentCases(name: string)
    requires |name| < Npos
    ensures Bracketed(name) ==> AngleBracketContent(name) == BracketContent(name)
    ensures FirstIndexOf(name, '<') != -1 && LastIndexOf(name, '>') <= FirstIndexOf(name, '<') ==>
      AngleBracketContent(name) == name[FirstIndexOf(name, '<') + 1..]
    ensures FirstIndexOf(name, '<') == -1 && LastIndexOf(name, '>') != -1 ==>
      AngleBracketContent(name) == name[..LastIndexOf(name, '>')]
    ensures FirstIndexOf(name, '<') == -1 && LastIndexOf(name, '>') == -1 ==>
      AngleBracketContent(name) == name
  {
    SubstrBetweenCases(name, FoundAt(FirstIndexOf(name, '<')), FoundAt(LastIndexOf(name, '>')));
  }

  /** A printed template `prefix<inner>` gives `inner` back, whatever
      brackets `inner` itself holds. */
  lemma AngleBracketContentOfTemplate(prefix: string, inner: string)
    requires '<' !in prefix && |prefix| + |inner| + 2 < Npos
    ensures Bracketed(prefix + "<" + inner + ">")
    ensures AngleBracketContent(prefix + "<" + inner + ">") == inner
  {
    var name := prefix + "<" + inner + ">";
    assert name[|prefix|] == '<';
    assert forall j :: 0 <= j < |prefix| ==> name[j] == prefix[j];
    FirstIndexAt(name, '<', |prefix|);
    LastIndexAt(name, '>', |name| - 1);
    AngleBracketContentCases(name);
    assert name[|prefix| + 1..|name| - 1] == inner;
  }

  // ----- get_variadic_types -----

  /** The first comma at or after `from`, or the end of the text. */
  function NextComma(s: string, from: nat): (r: nat)
    requires from <= |s|
    ensures from <= r <= |s|
    ensures r < |s| ==> s[r] == ','
    ensures forall j :: from <= j < r ==> s[j] != ','
    decreases |s| - from
  {
    if from == |s| || s[from] == ',' then from else NextComma(s, from + 1)
  }

  /** The parts from `start` on, each running up to the next comma. */
  function PartsFrom(s: string, start: nat): seq<string>
    requires start <= |s|
    decreases |s| - start
  {
    var comma := NextComma(s, start);
    if comma == |s| then [s[start..]] else [s[start..comma]] + PartsFrom(s, comma + 1)
  }

  /** `get_variadic_types`: the text between the first `<` and the last
      `>`, cut at each comma. */
  method GetVariadicTypes(name: string) returns (types: seq<string>)
    requires Bracketed(name)
    ensures types == Split(BracketContent(name), ',')
  {
    types := SplitAtCommas(BracketContent(name));
  }

  /** The `while (true)` loop of `get_variadic_types`: each part runs from
      `start` to the next comma (`std::find`), the last one to the end. */
  method SplitAtCommas(typesString: string) returns (types: seq<string>)
    ensures types == Split(typesString, ',')
  {
    types := [];
    var start := 0;
    while true
      invariant 0 <= start <= |typesString|
      invariant types + PartsFrom(typesString, start) == PartsFrom(typesString, 0)
      decreases |typesString| - start
    {
      var comma := FindComma(typesString, start);
      var part := typesString[start..comma];
      if comma == |typesString| {
        PartsFromStep(typesString, start, comma);
        assert part == typesString[start..];
        types := types + [part];
        assert types == PartsFrom(typesString, 0);
        break;
      }
      var after := PartsFrom(typesString, comma + 1);
      PartsFromStep(typesString, start, comma);
      assert types + ([part] + after) == (types + [part]) + after;
      types := types + [part];
      start := comma + 1;
    }
    PartsFromIsSplit(typesString, 0);
    assert typesString[0..] == typesString;
  }

  lemma PartsFromStep(s: string, start: nat, comma: nat)
    requires start <= |s| && comma == NextComma(s, start)
    ensures comma == |s| ==> PartsFrom(s, start) == [s[start..]]
    ensures comma < |s| ==> PartsFrom(s, start) == [s[start..comma]] + PartsFrom(s, comma + 1)
  {
  }

  /** `std::find(start, end, ',')`. */
  method FindComma(s: string, start: nat) returns (comma: nat)
    requires start <= |s|
    ensures comma == NextComma(s, start)
  {
    comma := start;
    while comma < |s| && s[comma] != ','
      invariant start <= comma <= |s|
      invariant NextComma(s, comma) == NextComma(s, start)
    {
      comma := comma + 1;
    }
  }

  /** Cutting at each next comma is `split` on the rest of the text. */
  lemma {:induction false} PartsFromIsSplit(s: string, start: nat)
    requires start <= |s|
    ensures PartsFrom(s, start) == Split(s[start..], ',')
    decreases |s| - start
  {
    var comma := NextComma(s, start);
    SplitAtComma(s, start, comma);
    if comma < |s| {
      PartsFromIsSplit(s, comma + 1);
    }
  }

  /** One step of the comma search from `start`: `comma` is the first comma
      at or after `start`, or the end of the text. */
  lemma SplitAtComma(s: string, start: nat, comma: nat)
    requires start <= comma <= |s|
    requires forall j :: start <= j < comma ==> s[j] != ','
    requires comma < |s| ==> s[comma] == ','
    ensures comma == |s| ==> Split(s[start..], ',') == [s[start..]]
    ensures comma < |s| ==> Split(s[start..], ',') == [s[start..comma]] + Split(s[comma + 1..], ',')
  {
    var rest := s[start..];
    if comma < |s| {
      assert rest[comma - start] == ',';
      FirstIndexAt(rest, ',', comma - start);
      SplitStep(rest, ',', comma - start);
      assert rest[..comma - start] == s[start..comma];
      assert rest[comma - start + 1..] == s[comma + 1..];
    } else {
      assert forall j :: 0 <= j < |rest| ==> rest[j] != ',';
    }
  }

  /** The variadic types are one more than the commas between the
      brackets, and joining them with `,` gives that text back. */
  lemma VariadicTypesRejoin(name: string)
    requires Bracketed(name)
    ensures |Split(BracketContent(name), ',')| == Count(BracketContent(name), ',') + 1
    ensures Join(Split(BracketContent(name), ','), ",") == BracketContent(name)
  {
    SplitCount(BracketContent(name), ',');
    SplitJoin(BracketContent(name), ',');
  }

  /** `std::variant<A,B,...>` written with comma-free alternatives gives
      the alternatives back. */
  lemma VariadicTypesOfVariant(prefix: string, alternatives: seq<string>)
    requires '<' !in prefix && |alternatives| >= 1
    requires forall i :: 0 <= i < |alternatives| ==> ',' !in alternatives[i]
    requires |prefix| + |Join(alternatives, ",")| + 2 < Npos
    ensures Bracketed(prefix + "<" + Join(alternatives, ",") + ">")
    ensures Split(BracketContent(prefix + "<" + Join(alternatives, ",") + ">"), ',') == alternatives
  {
    AngleBracketContentOfTemplate(prefix, Join(alternatives, ","));
    JoinSplit(alternatives, ',');
  }

  // ----- join -----

  lemma {:induction false} JoinSnoc(parts: seq<string>, last: string, delimiter: string)
    requires |parts| >= 1
    ensures Join(parts + [last], delimiter) == Join(parts, delimiter) + delimiter + last
  {
    if |parts| == 1 {
      assert (parts + [last])[1..] == [last];
    } else {
      assert (parts + [last])[1..] == parts[1..] + [last];
      JoinSnoc(parts[1..], last, delimiter);
    }
  }

  /** Joining from position `i`: the element there, then the delimiter and
      the rest when there is a rest. */
  lemma JoinFrom(strings: seq<string>, i: nat, delimiter: string)
    requires i < |strings|
    ensures i + 1 == |strings| ==> Join(strings[i..], delimiter) == strings[i]
    ensures i + 1 < |strings| ==>
      Join(strings[i..], delimiter) == strings[i] + delimiter + Join(strings[i + 1..], delimiter)
  {
    assert strings[i..][1..] == strings[i + 1..];
  }

  /** `join`: each element followed by the delimiter, except the last. */
  method JoinStrings(strings: seq<string>, delimiter: string) returns (output: string)
    ensures output == Join(strings, delimiter)
  {
    output := "";
    ghost var joined := Join(strings, delimiter);
    assert strings[0..] == strings;
    var i := 0;
    while i < |strings|
      invariant i <= |strings|
      invariant output + Join(strings[i..], delimiter) == joined
    {
      JoinFrom(strings, i, delimiter);
      output := output + strings[i];
      if i + 1 == |strings| {
        break;
      }
      output := output + delimiter;
      i := i + 1;
    }
    assert i == |strings| ==> output + Join(strings[i..], delimiter) == output;
  }

  /** The empty list joins to "", one element to itself, and a longer list
      ends with its last element with a single delimiter before it, so no
      delimiter trails. */
  lemma JoinShape(parts: seq<string>, delimiter: string)
    ensures |parts| == 0 ==> Join(parts, delimiter) == ""
    ensures |parts| == 1 ==> Join(parts, delimiter) == parts[0]
    ensures |parts| >= 2 ==>
      Join(parts, delimiter) == Join(parts[..|parts| - 1], delimiter) + delimiter + parts[|parts| - 1]
  {
    if |parts| >= 2 {
      JoinSnoc(parts[..|parts| - 1], parts[|parts| - 1], delimiter);
      assert parts[..|parts| - 1] + [parts[|parts| - 1]] == parts;
    }
  }

  // ----- generate_variant_types_enum_name -----

  /** `generate_variant_types_enum_name`. */
  function VariantTypesEnumName(parentTypeName: string, variantTypeNames: seq<string>): (r: string)
    ensures |r| >= 5 && r[|r| - 5..] == "_enum"
  {
    if parentTypeName == "Type_reference" then "Type_reference_enum"
    else if parentTypeName == "Expression" then "Expression_enum"
    else Join(variantTypeNames, "_") + "_enum"
  }

  /** For any other parent, names without `_` can be read back from the
      enum name. */
  lemma VariantTypesEnumNameRecoversNames(parentTypeName: string, names: seq<string>)
    requires parentTypeName != "Type_reference" && parentTypeName != "Expression"
    requires |names| >= 1 && forall i :: 0 <= i < |names| ==> '_' !in names[i]
    ensures var r := VariantTypesEnumName(parentTypeName, names);
      Split(r[..|r| - 5], '_') == names
  {
    var r := VariantTypesEnumName(parentTypeName, names);
    assert r[..|r| - 5] == Join(names, "_");
    JoinSplit(names, '_');
  }

  /** As written, names that contain `_` can collide. */
  lemma VariantTypesEnumNameCollision()
    ensures VariantTypesEnumName("Statement", ["A_B"]) == VariantTypesEnumName("Statement", ["A", "B"])
  {
    assert Join(["A", "B"], "_") == "A" + "_" + Join(["B"], "_");
  }

  // ----- parse_using_type -----

  predicate EndsWithSemicolon(s: string) {
    |s| > 0 && s[|s| - 1] == ';'
  }

  /** The tokens concatenated in order. */
  function Concat(tokens: seq<string>): string {
    if |tokens| == 0 then "" else Concat(tokens[..|tokens| - 1]) + tokens[|tokens| - 1]
  }

  /** The index of the first token at or after `from` that ends in `;`, or
      -1. */
  function FirstSemicolonToken(tokens: seq<string>, from: nat): (r: int)
    ensures r == -1 || (from <= r < |tokens| && EndsWithSemicolon(tokens[r]))
    ensures forall j :: from <= j < |tokens| && (r == -1 || j < r) ==> !EndsWithSemicolon(tokens[j])
    decreases |tokens| - from
  {
    if from >= |tokens| then -1
    else if EndsWithSemicolon(tokens[from]) then from
    else FirstSemicolonToken(tokens, from + 1)
  }

  /** What `using Name = T ... ;` declares: the name (token 1) and the
      tokens from index 3 up to the first one ending in `;`, joined, with
      that `;` removed. */
  function UsingType(tokens: seq<string>): Option<(string, string)>
    requires |tokens| > 0
  {
    if tokens[0] != "using" || |tokens| < 4 then None
    else
      var k := FirstSemicolonToken(tokens, 3);
      if k == -1 then None
      else Some((tokens[1], Concat(tokens[3..k]) + tokens[k][..|tokens[k]| - 1]))
  }

  /** `parse_using_type`: streams the tokens from index 3 until one ends in
      `;`. The first token is read before the size check, so the list must
      not be empty. */
  method ParseUsingType(tokens: seq<string>) returns (r: Option<(string, string)>)
    requires |tokens| > 0
    ensures r == UsingType(tokens)
  {
    if tokens[0] != "using" || |tokens| < 4 {
      return None;
    }
    var name := tokens[1];
    var stream := "";
    for i := 3 to |tokens|
      invariant stream == Concat(tokens[3..i])
      invariant forall j :: 3 <= j < i ==> !EndsWithSemicolon(tokens[j])
    {
      var token := tokens[i];
      if EndsWithSemicolon(token) {
        var value := token[..|token| - 1];
        stream := stream + value;
        assert FirstSemicolonToken(tokens, 3) == i;
        return Some((name, stream));
      }
      assert tokens[3..i + 1][..i - 3] == tokens[3..i];
      stream := stream + token;
    }
    assert FirstSemicolonToken(tokens, 3) == -1;
    return None;
  }

  /** A declaration `using name = parts... last;` declares `name` as the
      parts and `last` run together, whatever follows it. */
  lemma UsingTypeOfDeclaration(name: string, equals: string, parts: seq<string>, last: string, rest: seq<string>)
    requires forall i :: 0 <= i < |parts| ==> !EndsWithSemicolon(parts[i])
    ensures UsingType(["using", name, equals] + parts + [last + ";"] + rest) == Some((name, Concat(parts) + last))
  {
    var tokens := ["using", name, equals] + parts + [last + ";"] + rest;
    var k := 3 + |parts|;
    DeclarationTokens(name, equals, parts, last, rest);
    FirstSemicolonAt(tokens, 3, k);
    assert (last + ";")[..|last|] == last;
  }

  /** Where the pieces of a `using` declaration sit among its tokens. */
  lemma DeclarationTokens(name: string, equals: string, parts: seq<string>, last: string, rest: seq<string>)
    requires forall i :: 0 <= i < |parts| ==> !EndsWithSemicolon(parts[i])
    ensures var tokens := ["using", name, equals] + parts + [last + ";"] + rest;
      var k := 3 + |parts|;
      && k < |tokens| && tokens[0] == "using" && tokens[1] == name
      && tokens[k] == last + ";" && tokens[3..k] == parts
      && forall j :: 3 <= j < k ==> !EndsWithSemicolon(tokens[j])
  {
    var tokens := ["using", name, equals] + parts + [last + ";"] + rest;
    var k := 3 + |parts|;
    assert tokens[3..k] == parts;
    forall j | 3 <= j < k
      ensures !EndsWithSemicolon(tokens[j])
    {
      assert tokens[j] == parts[j - 3];
    }
  }

  lemma {:induction false} FirstSemicolonAt(tokens: seq<string>, from: nat, k: nat)
    requires from <= k < |tokens| && EndsWithSemicolon(tokens[k])
    requires forall j :: from <= j < k ==> !EndsWithSemicolon(tokens[j])
    ensures FirstSemicolonToken(tokens, from) == k
    decreases k - from
  {
    if from < k {
      FirstSemicolonAt(tokens, from + 1, k);
    }
  }

  /** Without a token ending in `;` there is no alias. */
  lemma UsingTypeUnterminated(tokens: seq<string>)
    requires |tokens| > 0 && forall j :: 3 <= j < |tokens| ==> !EndsWithSemicolon(tokens[j])
    ensures UsingType(tokens) == None
  {
    if tokens[0] == "using" && |tokens| >= 4 {
      assert FirstSemicolonToken(tokens, 3) == -1;
    }
  }

  // ----- Type classifiers -----

  predicate StartsWith(s: string, prefix: string) {
    |prefix| <= |s| && s[..|prefix|] == prefix
  }

  /** `is_enum_type` / `is_struct_type`: the name is a key of the map of
      scanned enums (structs), modelled by the set of its keys. */
  predicate IsEnumType(name: string, enumTypes: set<string>) { name in enumTypes }
  predicate IsStructType(name: string, structTypes: set<string>) { name in structTypes }

  predicate IsVectorType(name: string) {
    StartsWith(name, "std::vector") || StartsWith(name, "std::pmr::vector")
  }

  predicate IsOptionalType(name: string) { StartsWith(name, "std::optional") }

  predicate IsVariantType(name: string) { StartsWith(name, "std::variant") }

  predicate IsBoolType(name: string) { name == "bool" }

  predicate IsIntType(name: string) {
    name == "std::int8_t" || name == "std::int16_t" || name == "std::int32_t" || name == "int"
  }

  predicate IsInt64Type(name: string) { name == "std::int64_t" }

  predicate IsUintType(name: string) {
    name == "std::uint8_t" || name == "std::uint16_t" || name == "std::uint32_t" || name == "unsigned"
  }

  predicate IsUint64Type(name: string) { name == "std::uint64_t" || name == "std::size_t" }

  predicate IsDoubleType(name: string) { name == "float" || name == "double" }

  predicate IsStringType(name: string) { name == "std::string" || name == "std::pmr::string" }

  predicate IsCppType(name: string) {
    StartsWith(name, "std::") || IsBoolType(name) || IsIntType(name) || IsUintType(name) || IsDoubleType(name)
  }

  lemma StartsWithPrefix(s: string, p: string, q: string)
    requires StartsWith(s, p) && StartsWith(p, q)
    ensures StartsWith(s, q)
  {
    assert s[..|q|] == s[..|p|][..|q|];
  }

  /** Every scalar, string and standard template type counts as a C++
      type, and so is never looked up among the scanned structs. */
  lemma ClassifiedTypesAreCpp(name: string)
    ensures (IsBoolType(name) || IsIntType(name) || IsInt64Type(name) || IsUintType(name)
          || IsUint64Type(name) || IsDoubleType(name) || IsStringType(name)
          || IsVectorType(name) || IsOptionalType(name) || IsVariantType(name)) ==> IsCppType(name)
  {
    if StartsWith(name, "std::vector") {
      StartsWithPrefix(name, "std::vector", "std::");
    } else if StartsWith(name, "std::pmr::vector") {
      StartsWithPrefix(name, "std::pmr::vector", "std::");
    } else if IsOptionalType(name) {
      StartsWithPrefix(name, "std::optional", "std::");
    } else if IsVariantType(name) {
      StartsWithPrefix(name, "std::variant", "std::");
    } else if name == "std::int64_t" || name == "std::uint64_t" || name == "std::size_t" {
      assert name[..5] == "std::";
    } else if name == "std::string" || name == "std::pmr::string" {
      assert name[..5] == "std::";
    }
  }

  /** A type name is at most one of vector, optional and variant. */
  lemma TemplateKindsExclusive(name: string)
    ensures !(IsVectorType(name) && IsOptionalType(name))
    ensures !(IsVectorType(name) && IsVariantType(name))
    ensures !(IsOptionalType(name) && IsVariantType(name))
  {
    if StartsWith(name, "std::vector") {
      StartsWithChar(name, "std::vector", 5);
      StartsWithChar(name, "std::vector", 6);
    }
    if StartsWith(name, "std::pmr::vector") {
      StartsWithChar(name, "std::pmr::vector", 5);
    }
    if IsOptionalType(name) {
      StartsWithChar(name, "std::optional", 5);
    }
    if IsVariantType(name) {
      StartsWithChar(name, "std::variant", 5);
      StartsWithChar(name, "std::variant", 6);
    }
  }

  lemma StartsWithChar(s: string, prefix: string, i: nat)
    requires StartsWith(s, prefix) && i < |prefix|
    ensures s[i] == prefix[i]
  {
    assert s[..|prefix|][i] == s[i];
  }

  // ----- Reader states -----

  /** A struct member as the scanner records it. */
  datatype Member = Member(name: string, typeName: string)

  /** Variant members name their alternatives between brackets. */
  predicate WellFormedMember(m: Member) {
    IsVariantType(m.typeName) ==> Bracketed(m.typeName)
  }

  /** The states `generate_read_struct_member_key_code` reports: one for a
      variant, two for a struct or vector member, one otherwise. */
  function KeyStateCount(m: Member, structTypes: set<string>): (r: nat)
    ensures r == 1 || r == 2
  {
    if IsVariantType(m.typeName) then 1
    else if IsStructType(m.typeName, structTypes) || IsVectorType(m.typeName) then 2
    else 1
  }

  /** The states `generate_read_struct_member_value_code` emits: two for a
      struct or vector (its nested object), one for an enum, four plus three
      per alternative for a variant, one otherwise. */
  function ValueStateCount(m: Member, enumTypes: set<string>, structTypes: set<string>): (r: nat)
    requires WellFormedMember(m)
    ensures r >= 1
  {
    if IsStructType(m.typeName, structTypes) || IsVectorType(m.typeName) then 2
    else if IsEnumType(m.typeName, enumTypes) then 1
    else if IsVariantType(m.typeName) then 4 + 3 * |Split(BracketContent(m.typeName), ',')|
    else 1
  }

  /** A variant with `k` alternatives, that is `k - 1` commas between its
      brackets, takes `4 + 3k` states. */
  lemma VariantValueStates(m: Member, enumTypes: set<string>, structTypes: set<string>)
    requires IsVariantType(m.typeName) && Bracketed(m.typeName)
    requires !IsStructType(m.typeName, structTypes) && !IsEnumType(m.typeName, enumTypes)
    ensures ValueStateCount(m, enumTypes, structTypes) == 4 + 3 * (Count(BracketContent(m.typeName), ',') + 1)
  {
    TemplateKindsExclusive(m.typeName);
    SplitCount(BracketContent(m.typeName), ',');
  }

  /** The first state a struct's member keys and values use; 0, 1 and 2
      are the object's own. */
  const FirstMemberParseState: nat := 3

  /** The state each member's key code switches to, counted on from
      `state` by the key code's reported counts (the first loop of
      `generate_read_struct_json_code`). */
  function KeyStates(members: seq<Member>, state: nat, structTypes: set<string>): (r: seq<nat>)
    ensures |r| == |members|
  {
    if |members| == 0 then []
    else [state] + KeyStates(members[1..], state + KeyStateCount(members[0], structTypes), structTypes)
  }

  /** The state at which each member's value code starts (the second loop). */
  function ValueStates(members: seq<Member>, state: nat, enumTypes: set<string>, structTypes: set<string>): (r: seq<nat>)
    requires forall i :: 0 <= i < |members| ==> WellFormedMember(members[i])
    ensures |r| == |members|
  {
    if |members| == 0 then []
    else [state] + ValueStates(members[1..], state + ValueStateCount(members[0], enumTypes, structTypes), enumTypes, structTypes)
  }

  /** Key and value counts agree exactly on members that are not variants,
      and on variants that are also scanned enums. */
  lemma CountsAgree(m: Member, enumTypes: set<string>, structTypes: set<string>)
    requires WellFormedMember(m)
    ensures KeyStateCount(m, structTypes) == ValueStateCount(m, enumTypes, structTypes)
        <==> !IsVariantType(m.typeName) || (IsEnumType(m.typeName, enumTypes) && !IsStructType(m.typeName, structTypes))
  {
    TemplateKindsExclusive(m.typeName);
  }

  /** Every member but the last has equal key and value counts. */
  predicate CountsAgreeBeforeLast(members: seq<Member>, enumTypes: set<string>, structTypes: set<string>)
    requires forall i :: 0 <= i < |members| ==> WellFormedMember(members[i])
  {
    forall i :: 0 <= i < |members| - 1 ==>
      KeyStateCount(members[i], structTypes) == ValueStateCount(members[i], enumTypes, structTypes)
  }

  /** The states a run of counts reaches from `state`: each entry starts
      where the previous one's count ends. */
  function StatesFrom(counts: seq<nat>, state: nat): (r: seq<nat>)
    ensures |r| == |counts|
  {
    if |counts| == 0 then [] else [state] + StatesFrom(counts[1..], state + counts[0])
  }

  function KeyCounts(members: seq<Member>, structTypes: set<string>): (r: seq<nat>)
    ensures |r| == |members|
    ensures forall i :: 0 <= i < |members| ==> r[i] == KeyStateCount(members[i], structTypes)
  {
    seq(|members|, i requires 0 <= i < |members| => KeyStateCount(members[i], structTypes))
  }

  function ValueCounts(members: seq<Member>, enumTypes: set<string>, structTypes: set<string>): (r: seq<nat>)
    requires forall i :: 0 <= i < |members| ==> WellFormedMember(members[i])
    ensures |r| == |members|
    ensures forall i :: 0 <= i < |members| ==> r[i] == ValueStateCount(members[i], enumTypes, structTypes)
  {
    seq(|members|, i requires 0 <= i < |members| => ValueStateCount(members[i], enumTypes, structTypes))
  }

  lemma {:induction false} KeyStatesFrom(members: seq<Member>, state: nat, structTypes: set<string>)
    ensures KeyStates(members, state, structTypes) == StatesFrom(KeyCounts(members, structTypes), state)
  {
    if |members| > 0 {
      KeyStatesFrom(members[1..], state + KeyStateCount(members[0], structTypes), structTypes);
      assert KeyCounts(members, structTypes)[1..] == KeyCounts(members[1..], structTypes);
    }
  }

  lemma {:induction false} ValueStatesFrom(members: seq<Member>, state: nat, enumTypes: set<string>, structTypes: set<string>)
    requires forall i :: 0 <= i < |members| ==> WellFormedMember(members[i])
    ensures ValueStates(members, state, enumTypes, structTypes) == StatesFrom(ValueCounts(members, enumTypes, structTypes), state)
  {
    if |members| > 0 {
      ValueStatesFrom(members[1..], state + ValueStateCount(members[0], enumTypes, structTypes), enumTypes, structTypes);
      assert ValueCounts(members, enumTypes, structTypes)[1..] == ValueCounts(members[1..], enumTypes, structTypes);
    }
  }

  lemma ConsEqual(a: nat, x: seq<nat>, y: seq<nat>)
    ensures [a] + x == [a] + y <==> x == y
  {
    if [a] + x == [a] + y {
      assert x == ([a] + x)[1..];
      assert y == ([a] + y)[1..];
    }
  }

  /** Two runs of counts reach the same states exactly when they agree on
      every count but the last. */
  lemma {:induction false} StatesFromMatch(a: seq<nat>, b: seq<nat>, state: nat)
    requires |a| == |b|
    ensures StatesFrom(a, state) == StatesFrom(b, state) <==> forall i :: 0 <= i < |a| - 1 ==> a[i] == b[i]
  {
    if |a| > 0 {
      var ra := StatesFrom(a[1..], state + a[0]);
      var rb := StatesFrom(b[1..], state + b[0]);
      ConsEqual(state, ra, rb);
      if a[0] == b[0] {
        StatesFromMatch(a[1..], b[1..], state + a[0]);
        assert (forall i :: 0 <= i < |a| - 1 ==> a[i] == b[i])
          <==> (forall i :: 0 <= i < |a| - 2 ==> a[1..][i] == b[1..][i]) by {
          if forall i :: 0 <= i < |a| - 2 ==> a[1..][i] == b[1..][i] {
            forall i | 0 <= i < |a| - 1 ensures a[i] == b[i] {
              if i > 0 { assert a[i] == a[1..][i - 1] && b[i] == b[1..][i - 1]; }
            }
          }
        }
      } else if |a| > 1 {
        assert ra[0] != rb[0];
      }
    }
  }

  /** As written, each key leads to its member's value code exactly when
      every member but the last has equal key and value counts. */
  lemma KeyStatesMatchValueStates(members: seq<Member>, state: nat, enumTypes: set<string>, structTypes: set<string>)
    requires forall i :: 0 <= i < |members| ==> WellFormedMember(members[i])
    ensures KeyStates(members, state, structTypes) == ValueStates(members, state, enumTypes, structTypes)
        <==> CountsAgreeBeforeLast(members, enumTypes, structTypes)
  {
    KeyStatesFrom(members, state, structTypes);
    ValueStatesFrom(members, state, enumTypes, structTypes);
    StatesFromMatch(KeyCounts(members, structTypes), ValueCounts(members, enumTypes, structTypes), state);
  }

  /** So a variant member followed by any other member misdirects that
      member's key: it switches to `state + 1`, the variant's end-of-object
      state, while that member's value code starts `4 + 3k` states on. */
  lemma KeyStatesAsWrittenMisdirect(variant: Member, next: Member, state: nat, enumTypes: set<string>, structTypes: set<string>)
    requires IsVariantType(variant.typeName) && Bracketed(variant.typeName)
    requires !IsStructType(variant.typeName, structTypes) && !IsEnumType(variant.typeName, enumTypes)
    requires WellFormedMember(next)
    ensures KeyStates([variant, next], state, structTypes)[1] == state + 1
    ensures ValueStates([variant, next], state, enumTypes, structTypes)[1]
         == state + 4 + 3 * (Count(BracketContent(variant.typeName), ',') + 1)
  {
    VariantValueStates(variant, enumTypes, structTypes);
    assert [variant, next][1..] == [next];
  }

  /** The intended key count: a key advances past as many states as its
      member's value code uses. */
  function KeyStateCountIntended(m: Member, enumTypes: set<string>, structTypes: set<string>): (r: nat)
    requires WellFormedMember(m)
    ensures r >= 1
  {
    if IsStructType(m.typeName, structTypes) || IsVectorType(m.typeName) then 2
    else if IsVariantType(m.typeName) && !IsEnumType(m.typeName, enumTypes) then 4 + 3 * |Split(BracketContent(m.typeName), ',')|
    else 1
  }

  /** The intended key count is the value count, member by member. */
  lemma IntendedCountIsValueCount(m: Member, enumTypes: set<string>, structTypes: set<string>)
    requires WellFormedMember(m)
    ensures KeyStateCountIntended(m, enumTypes, structTypes) == ValueStateCount(m, enumTypes, structTypes)
  {
    TemplateKindsExclusive(m.typeName);
  }

  function KeyStatesIntended(members: seq<Member>, state: nat, enumTypes: set<string>, structTypes: set<string>): (r: seq<nat>)
    requires forall i :: 0 <= i < |members| ==> WellFormedMember(members[i])
    ensures |r| == |members|
  {
    if |members| == 0 then []
    else [state] + KeyStatesIntended(members[1..], state + KeyStateCountIntended(members[0], enumTypes, structTypes), enumTypes, structTypes)
  }

  /** The value blocks follow one another without gap or overlap, from
      `state` on. */
  lemma {:induction false} ValueStatesContiguous(members: seq<Member>, state: nat, enumTypes: set<string>, structTypes: set<string>)
    requires forall i :: 0 <= i < |members| ==> WellFormedMember(members[i])
    ensures forall i :: 0 <= i < |members| - 1 ==>
      ValueStates(members, state, enumTypes, structTypes)[i + 1]
        == ValueStates(members, state, enumTypes, structTypes)[i] + ValueStateCount(members[i], enumTypes, structTypes)
    ensures forall i :: 0 <= i < |members| ==> ValueStates(members, state, enumTypes, structTypes)[i] >= state
  {
    if |members| > 0 {
      var rest := members[1..];
      var next := state + ValueStateCount(members[0], enumTypes, structTypes);
      ValueStatesContiguous(rest, next, enumTypes, structTypes);
      var tail := ValueStates(rest, next, enumTypes, structTypes);
      var vs := ValueStates(members, state, enumTypes, structTypes);
      assert vs == [state] + tail;
      forall i | 0 <= i < |members| - 1
        ensures vs[i + 1] == vs[i] + ValueStateCount(members[i], enumTypes, structTypes)
      {
        if i > 0 {
          assert members[i] == rest[i - 1];
          assert vs[i] == tail[i - 1] && vs[i + 1] == tail[i];
        }
      }
    }
  }

  /** With the intended counts every key leads to the first state of its
      member's value code. */
  lemma {:induction false} KeyStatesIntendedMatch(members: seq<Member>, state: nat, enumTypes: set<string>, structTypes: set<string>)
    requires forall i :: 0 <= i < |members| ==> WellFormedMember(members[i])
    ensures KeyStatesIntended(members, state, enumTypes, structTypes) == ValueStates(members, state, enumTypes, structTypes)
  {
    if |members| > 0 {
      var m := members[0];
      var rest := members[1..];
      assert forall i :: 0 <= i < |rest| ==> WellFormedMember(rest[i]);
      var next := state + ValueStateCount(m, enumTypes, structTypes);
      IntendedCountIsValueCount(m, enumTypes, structTypes);
      assert KeyStatesIntended(members, state, enumTypes, structTypes) == [state] + KeyStatesIntended(rest, next, enumTypes, structTypes);
      KeyStatesIntendedMatch(rest, next, enumTypes, structTypes);
    }
  }
}
