/** The editor's tables between the intermediate representation and the
    words of the parse tree
    (Tools/vscode/H-editor/packages/core/src/Parse_tree_convertor_mappings.ts):
    operator symbols, literal suffixes, comment formatting and the
    production-rule text chosen for an expression. */
module ParseTreeMappings {
  import opened Wrappers
  import opened Operations
  import opened Strings
  import opened CoreIR
  import JsNumbers

  /** `Grammar.Word_type`. `ScannedType` stands for the type the scanner
      assigns to a word of arbitrary text, which is decided outside this model. */
  datatype WordType = Alphanumeric | Comment | Number | StringWord | ScannedType

  datatype Word = Word(value: string, wordType: WordType)

  // ----- Binary operations -----

  /** `binary_operation_to_string`. */
  function BinaryOperationToString(op: BinaryOperation): string {
    match op
    case Add => "+"
    case Subtract => "-"
    case Multiply => "*"
    case Divide => "/"
    case Modulus => "%"
    case Equal => "=="
    case NotEqual => "!="
    case LessThan => "<"
    case LessThanOrEqualTo => "<="
    case GreaterThan => ">"
    case GreaterThanOrEqualTo => ">="
    case LogicalAnd => "&&"
    case LogicalOr => "||"
    case BitwiseAnd => "&"
    case BitwiseOr => "|"
    case BitwiseXor => "^"
    case BitShiftLeft => "<<"
    case BitShiftRight => ">>"
    case Has => "has"
  }

  /** `map_production_rule_label_to_binary_operation`; `None` where the
      source throws. It is the exact inverse of the printer: a text parses
      to `op` iff `op` prints as that text, so the printer is injective
      and every text it does not print is rejected. */
  function LabelToBinaryOperation(text: string): (r: Option<BinaryOperation>)
    ensures forall op :: r == Some(op) <==> BinaryOperationToString(op) == text
  {
    if text == "+" then Some(Add)
    else if text == "-" then Some(Subtract)
    else if text == "*" then Some(Multiply)
    else if text == "/" then Some(Divide)
    else if text == "%" then Some(Modulus)
    else if text == "==" then Some(Equal)
    else if text == "!=" then Some(NotEqual)
    else if text == "<" then Some(LessThan)
    else if text == "<=" then Some(LessThanOrEqualTo)
    else if text == ">" then Some(GreaterThan)
    else if text == ">=" then Some(GreaterThanOrEqualTo)
    else if text == "&&" then Some(LogicalAnd)
    else if text == "||" then Some(LogicalOr)
    else if text == "&" then Some(BitwiseAnd)
    else if text == "|" then Some(BitwiseOr)
    else if text == "^" then Some(BitwiseXor)
    else if text == "<<" then Some(BitShiftLeft)
    else if text == ">>" then Some(BitShiftRight)
    else if text == "has" then Some(Has)
    else None
  }

  /** All 19 operations print to 19 different labels, each of which parses back. */
  lemma BinaryLabelsRoundTrip()
    ensures forall i :: 0 <= i < |AllBinaryOperations| ==>
      LabelToBinaryOperation(BinaryOperationToString(AllBinaryOperations[i])) == Some(AllBinaryOperations[i])
    ensures forall i, j :: 0 <= i < j < |AllBinaryOperations| ==>
      BinaryOperationToString(AllBinaryOperations[i]) != BinaryOperationToString(AllBinaryOperations[j])
  {
    forall i, j | 0 <= i < j < |AllBinaryOperations|
      ensures BinaryOperationToString(AllBinaryOperations[i]) != BinaryOperationToString(AllBinaryOperations[j])
    {
      var r := LabelToBinaryOperation(BinaryOperationToString(AllBinaryOperations[i]));
      assert r == Some(AllBinaryOperations[i]);
    }
  }

  // ----- Assignment operations -----

  /** `assignment_binary_operation_to_string`: `None` (plain assignment)
      prints as "=", the ten compound operations as their compound symbol;
      any other operation is an error. */
  function AssignmentOperationToString(op: Option<BinaryOperation>): (r: Result<string>)
    ensures r.Ok? <==> op.None? || HasCompoundAssignment(op.value)
    ensures r.Ok? && op.Some? ==> r.value == BinaryOperationToString(op.value) + "="
  {
    match op
    case None => Ok("=")
    case Some(Add) => Ok("+=")
    case Some(Subtract) => Ok("-=")
    case Some(Multiply) => Ok("*=")
    case Some(Divide) => Ok("/=")
    case Some(Modulus) => Ok("%=")
    case Some(BitwiseAnd) => Ok("&=")
    case Some(BitwiseOr) => Ok("|=")
    case Some(BitwiseXor) => Ok("^=")
    case Some(BitShiftLeft) => Ok("<<=")
    case Some(BitShiftRight) => Ok(">>=")
    case Some(_) => Err("not an assignment operation")
  }

  /** `map_production_rule_label_to_assignment_binary_operation`: "=" and
      every unknown text give `None`; a compound symbol gives the
      operation that prints as it. */
  function LabelToAssignmentOperation(text: string): (r: Option<BinaryOperation>)
    ensures forall op :: r == Some(op) <==> AssignmentOperationToString(Some(op)) == Ok(text)
  {
    if text == "+=" then Some(Add)
    else if text == "-=" then Some(Subtract)
    else if text == "*=" then Some(Multiply)
    else if text == "/=" then Some(Divide)
    else if text == "%=" then Some(Modulus)
    else if text == "&=" then Some(BitwiseAnd)
    else if text == "|=" then Some(BitwiseOr)
    else if text == "^=" then Some(BitwiseXor)
    else if text == "<<=" then Some(BitShiftLeft)
    else if text == ">>=" then Some(BitShiftRight)
    else None
  }

  /** Every printable assignment operation, plain assignment included,
      parses back to itself. */
  lemma AssignmentRoundTrip(op: Option<BinaryOperation>)
    requires op.None? || HasCompoundAssignment(op.value)
    ensures LabelToAssignmentOperation(AssignmentOperationToString(op).value) == op
  {
    if op.Some? {
      assert AssignmentOperationToString(Some(op.value)) == Ok(AssignmentOperationToString(op).value);
    }
  }

  // ----- Unary operations -----

  /** `unary_operation_to_string`, the symbol of a prefix operation; the
      postfix operations are an error here. */
  function UnaryOperationToString(op: UnaryOperation): (r: Result<string>)
    ensures r.Ok? <==> !(op == PostIncrement || op == PostDecrement)
  {
    match op
    case Not => Ok("!")
    case BitwiseNot => Ok("~")
    case Minus => Ok("-")
    case PreIncrement => Ok("++")
    case PreDecrement => Ok("--")
    case Indirection => Ok("*")
    case AddressOf => Ok("&")
    case _ => Err("not a prefix operation")
  }

  /** The symbol chosen for a postfix operation
      (`choose_production_rule_expression_unary_0_symbol`); any other
      operation is an error. */
  function PostfixUnarySymbol(op: UnaryOperation): (r: Result<string>)
    ensures r.Ok? <==> (op == PostIncrement || op == PostDecrement)
  {
    match op
    case PostIncrement => Ok("++")
    case PostDecrement => Ok("--")
    case _ => Err("not a postfix operation")
  }

  /** The prefix-symbol parser of `node_to_expression_unary`: a symbol parses
      to `op` iff `op` prints as it and is not an increment or decrement. */
  function SymbolToUnaryOperation(symbol: string): (r: Result<UnaryOperation>)
    ensures forall op :: r == Ok(op) <==>
      (UnaryOperationToString(op) == Ok(symbol) && op != PreIncrement && op != PreDecrement)
  {
    if symbol == "!" then Ok(Not)
    else if symbol == "~" then Ok(BitwiseNot)
    else if symbol == "-" then Ok(Minus)
    else if symbol == "&" then Ok(AddressOf)
    else if symbol == "*" then Ok(Indirection)
    else Err("unexpected unary symbol")
  }

  /** Increment and decrement symbols are printed, in prefix or postfix
      position, but the parser rejects them. */
  lemma IncrementSymbolsRejected(op: UnaryOperation)
    requires op in {PreIncrement, PreDecrement, PostIncrement, PostDecrement}
    ensures var printed := if op == PreIncrement || op == PreDecrement then UnaryOperationToString(op) else PostfixUnarySymbol(op);
      printed.Ok? && SymbolToUnaryOperation(printed.value).Err?
  {
    var printed := if op == PreIncrement || op == PreDecrement then UnaryOperationToString(op) else PostfixUnarySymbol(op);
    assert printed.value == "++" || printed.value == "--";
  }

  /** The prefix-symbol parser as the read-write check on `Pre_increment`
      and `Pre_decrement` after its switch evidently intends: `++` and `--`
      parse to the prefix increment and decrement, every other symbol as
      before. */
  function IntendedSymbolToUnaryOperation(symbol: string): (r: Result<UnaryOperation>)
    ensures forall op :: r == Ok(op) <==> UnaryOperationToString(op) == Ok(symbol)
  {
    if symbol == "++" then Ok(PreIncrement)
    else if symbol == "--" then Ok(PreDecrement)
    else SymbolToUnaryOperation(symbol)
  }

  /** The intended parser inverts the prefix printer on every prefix
      operation, and differs from the parser as written exactly on the
      increment and decrement symbols. */
  lemma IntendedPrefixRoundTrip(op: UnaryOperation, symbol: string)
    ensures UnaryOperationToString(op).Ok? ==> IntendedSymbolToUnaryOperation(UnaryOperationToString(op).value) == Ok(op)
    ensures IntendedSymbolToUnaryOperation(symbol) != SymbolToUnaryOperation(symbol) <==> symbol == "++" || symbol == "--"
  {
    if UnaryOperationToString(op).Ok? {
      assert UnaryOperationToString(op) == Ok(UnaryOperationToString(op).value);
    }
  }

  // ----- Constants -----

  datatype ConstantExpression = ConstantExpression(constantType: TypeReference, data: string)

  /** `is_c_string`: a pointer whose first element type is `C_char`. */
  predicate IsCString(t: TypeReference) {
    t.PointerType? && |t.elementType| > 0 && t.elementType[0] == FundamentalTypeReference(CChar)
  }

  /** The literal suffix of a C fundamental type. */
  function CTypeSuffix(t: FundamentalType): (r: string)
    requires HasCSuffix(t)
    ensures |r| >= 2 && r[0] == 'c'
  {
    match t
    case CChar => "cc"
    case CShort => "cs"
    case CInt => "ci"
    case CLong => "cl"
    case CLonglong => "cll"
    case CUchar => "cuc"
    case CUshort => "cus"
    case CUint => "cui"
    case CUlong => "cul"
    case CUlonglong => "cull"
    case CBool => "cb"
  }

  /** The decimal text of an integer, as a template literal writes it. */
  function IntToString(n: int): string {
    if n < 0 then "-" + NatToString(-n) else NatToString(n)
  }

  /** `constant_expression_to_word`. */
  function ConstantToWord(c: ConstantExpression): (r: Result<Word>)
    ensures r.Ok? <==> c.constantType.FundamentalTypeReference? || c.constantType.IntegerType? || IsCString(c.constantType)
  {
    match c.constantType
    case FundamentalTypeReference(t) =>
      if t == Float16 || t == Float32 || t == Float64 then Ok(Word(c.data + FloatSuffix(t), Number))
      else if t == String then Ok(Word("\"" + c.data + "\"", StringWord))
      else if HasCSuffix(t) then Ok(Word(c.data + CTypeSuffix(t), Number))
      else Ok(Word(c.data, ScannedType))
    case IntegerType(bits, signed) =>
      if signed && bits == 32 then Ok(Word(c.data, Number))
      else Ok(Word(c.data + (if signed then "i" else "u") + IntToString(bits), Number))
    case PointerType(_, _) =>
      if IsCString(c.constantType) then Ok(Word("\"" + c.data + "\"c", StringWord))
      else Err("not a constant type")
    case _ => Err("not a constant type")
  }

  /** The suffix the scanner reports for a word: for a number, the text from
      its first letter; for a string, the text after its last quote. */
  function ScannedSuffix(w: Word): (r: string)
    ensures |r| <= |w.value| && r == w.value[|w.value| - |r|..]
  {
    if w.wordType == StringWord then
      var k := LastIndexOf(w.value, '"');
      if k == -1 then "" else w.value[k + 1..]
    else
      var k := FirstLetter(w.value);
      w.value[k..]
  }

  /** The position of the first letter of `s`, or `|s|`. */
  function FirstLetter(s: string): (k: nat)
    ensures k <= |s| && NoLetters(s[..k]) && (k < |s| ==> IsLetter(s[k]))
  {
    if |s| == 0 then 0
    else if IsLetter(s[0]) then 0
    else
      var k := 1 + FirstLetter(s[1..]);
      assert s[..k] == [s[0]] + s[1..][..k - 1];
      k
  }

  /** The C fundamental type with a given suffix, as the parser's table has it. */
  function CSuffixType(suffix: string): (r: Option<FundamentalType>)
    ensures forall t :: r == Some(t) <==> HasCSuffix(t) && CTypeSuffix(t) == suffix
  {
    if suffix == "cc" then Some(CChar)
    else if suffix == "cs" then Some(CShort)
    else if suffix == "ci" then Some(CInt)
    else if suffix == "cl" then Some(CLong)
    else if suffix == "cll" then Some(CLonglong)
    else if suffix == "cuc" then Some(CUchar)
    else if suffix == "cus" then Some(CUshort)
    else if suffix == "cui" then Some(CUint)
    else if suffix == "cul" then Some(CUlong)
    else if suffix == "cull" then Some(CUlonglong)
    else if suffix == "cb" then Some(CBool)
    else None
  }

  /** The type a number suffix denotes in `node_to_expression_constant`:
      none is a signed 32-bit integer, `i`/`u` an integer of the width
      JavaScript's `Number` reads from the rest, `f16`/`f32`/`f64` a float
      and `cc` ... `cb` a C type; any other suffix is an error. */
  function SuffixType(suffix: string): Result<TypeReference> {
    if |suffix| == 0 then Ok(IntegerType(32, true))
    else if suffix[0] == 'i' || suffix[0] == 'u' then
      var bits := JsNumbers.IntegerValue(JsNumbers.Number(suffix[1..]));
      if bits.None? then Err("the bit count is not an integer")
      else Ok(IntegerType(bits.value, suffix[0] != 'u'))
    else if suffix[0] == 'f' then FloatSuffixType(JsNumbers.Number(suffix[1..]))
    else if suffix[0] == 'c' then
      var t := CSuffixType(suffix);
      if t.None? then Err("not a supported C type") else Ok(FundamentalTypeReference(t.value))
    else Err("could not convert number")
  }

  /** The float type of a suffix's bit count; only 16, 32 and 64 are supported. */
  function FloatSuffixType(bits: JsNumbers.JsNum): (r: Result<TypeReference>)
    ensures r.Ok? <==> IsFloatWidth(bits)
  {
    if bits == JsNumbers.Finite(16.0) then Ok(FundamentalTypeReference(Float16))
    else if bits == JsNumbers.Finite(32.0) then Ok(FundamentalTypeReference(Float32))
    else if bits == JsNumbers.Finite(64.0) then Ok(FundamentalTypeReference(Float64))
    else Err("only f16, f32 or f64 are supported")
  }

  /** 16, 32 or 64, the widths of the supported float types. */
  predicate IsFloatWidth(bits: JsNumbers.JsNum) {
    bits == JsNumbers.Finite(16.0) || bits == JsNumbers.Finite(32.0) || bits == JsNumbers.Finite(64.0)
  }

  /** The numeric branch of `node_to_expression_constant`: the suffix gives
      the type and the text before it the value. */
  function NumberToConstant(w: Word): Result<ConstantExpression> {
    var suffix := ScannedSuffix(w);
    var t :- SuffixType(suffix);
    Ok(ConstantExpression(t, w.value[..|w.value| - |suffix|]))
  }

  /** JavaScript's `s.slice(1, -back)`. */
  function SliceInner(s: string, back: nat): string {
    if 1 <= |s| - back then s[1..|s| - back] else ""
  }

  /** `node_to_expression_constant`. As in the source's switch, an
      alphanumeric word other than `true`/`false` falls through to the
      numeric branch. */
  function NodeToConstant(w: Word): (r: Result<ConstantExpression>)
    ensures r.Ok? && w.wordType == StringWord ==>
      r.value.constantType == FundamentalTypeReference(String) || IsCString(r.value.constantType)
    ensures w.wordType == Comment || w.wordType == ScannedType ==> r.Err?
  {
    match w.wordType
    case Alphanumeric =>
      if w.value == "true" || w.value == "false" then Ok(ConstantExpression(FundamentalTypeReference(Bool), w.value))
      else NumberToConstant(w)
    case Number => NumberToConstant(w)
    case StringWord =>
      var suffix := ScannedSuffix(w);
      if suffix == "c" then Ok(ConstantExpression(PointerType([FundamentalTypeReference(CChar)], false), SliceInner(w.value, 2)))
      else if suffix == "" then Ok(ConstantExpression(FundamentalTypeReference(String), SliceInner(w.value, 1)))
      else Err("constant expression not handled")
    case _ => Err("constant expression not handled")
  }

  /** JavaScript reads the decimal text of an integer back as that integer. */
  lemma JsNumberOfInt(n: int)
    ensures JsNumbers.Number(IntToString(n)) == JsNumbers.Finite(n as real)
  {
    if n < 0 {
      JsNumbers.NumberOfNegatedDigits(NatToString(-n));
    } else {
      JsNumbers.NumberOfDigits(NatToString(n));
    }
  }

  /** A number word is the digits of its value followed by its suffix, when
      the value has no letters and the suffix starts with one. */
  lemma NumberWord(data: string, suffix: string)
    requires NoLetters(data) && (|suffix| == 0 || IsLetter(suffix[0]))
    ensures NumberToConstant(Word(data + suffix, Number))
         == (if SuffixType(suffix).Ok? then Ok(ConstantExpression(SuffixType(suffix).value, data)) else Err(SuffixType(suffix).reason))
  {
    var v := data + suffix;
    FirstLetterOf(data, suffix);
    assert v[|data|..] == suffix;
    assert v[..|v| - |suffix|] == data;
  }

  lemma {:induction false} FirstLetterOf(data: string, suffix: string)
    requires NoLetters(data) && (|suffix| == 0 || IsLetter(suffix[0]))
    ensures FirstLetter(data + suffix) == |data|
  {
    if |data| > 0 {
      assert (data + suffix)[1..] == data[1..] + suffix;
      FirstLetterOf(data[1..], suffix);
    } else {
      assert data + suffix == suffix;
    }
  }

  /** An `i`/`u` suffix followed by a width denotes that integer type. */
  lemma IntegerSuffixType(bits: int, signed: bool)
    ensures var suffix := (if signed then "i" else "u") + IntToString(bits);
      IsLetter(suffix[0]) && SuffixType(suffix) == Ok(IntegerType(bits, signed))
  {
    var suffix := (if signed then "i" else "u") + IntToString(bits);
    assert suffix[1..] == IntToString(bits);
    JsNumberOfInt(bits);
  }

  /** Integer constants print with no suffix exactly when they are signed
      32-bit, and parse back to the same width and signedness. */
  lemma IntegerConstantRoundTrip(bits: int, signed: bool, data: string)
    requires NoLetters(data)
    ensures var c := ConstantExpression(IntegerType(bits, signed), data);
      && (ConstantToWord(c).value.value == data <==> (signed && bits == 32))
      && NodeToConstant(ConstantToWord(c).value) == Ok(c)
  {
    var c := ConstantExpression(IntegerType(bits, signed), data);
    if signed && bits == 32 {
      NumberWord(data, "");
      assert data + "" == data;
    } else {
      var suffix := (if signed then "i" else "u") + IntToString(bits);
      assert ConstantToWord(c).value == Word(data + suffix, Number);
      IntegerSuffixType(bits, signed);
      NumberWord(data, suffix);
      assert |data + suffix| > |data|;
    }
  }

  /** The suffix a Float16, Float32 or Float64 constant is printed with. */
  function FloatSuffix(t: FundamentalType): string {
    if t == Float16 then "f16" else if t == Float32 then "f32" else "f64"
  }

  /** JavaScript reads the width digits of each float suffix as 16, 32 or 64. */
  lemma FloatWidthDigits(t: FundamentalType)
    requires t == Float16 || t == Float32 || t == Float64
    ensures var suffix := FloatSuffix(t);
      |suffix| == 3 && suffix[0] == 'f' && IsLetter(suffix[0])
      && JsNumbers.Number(suffix[1..]) == JsNumbers.Finite(if t == Float16 then 16.0 else if t == Float32 then 32.0 else 64.0)
  {
    var digits := FloatSuffix(t)[1..];
    if t == Float16 {
      assert digits == "16";
      TwoDigitNumber(digits, 16);
    } else if t == Float32 {
      assert digits == "32";
      TwoDigitNumber(digits, 32);
    } else {
      assert digits == "64";
      TwoDigitNumber(digits, 64);
    }
  }

  lemma TwoDigitNumber(digits: string, n: nat)
    requires |digits| == 2 && IsDigit(digits[0]) && IsDigit(digits[1])
    requires n == 10 * (digits[0] as int - '0' as int) + (digits[1] as int - '0' as int)
    ensures JsNumbers.Number(digits) == JsNumbers.Finite(n as real)
  {
    assert AllDigits(digits);
    assert digits[..1] == [digits[0]] && [digits[0]][..0] == [];
    assert DigitsValue(digits[..1]) == digits[0] as int - '0' as int;
    assert DigitsValue(digits) == n;
    JsNumbers.NumberOfDigits(digits);
  }

  /** Float16, Float32 and Float64 constants parse back to the same type. */
  lemma FloatConstantRoundTrip(t: FundamentalType, data: string)
    requires t == Float16 || t == Float32 || t == Float64
    requires NoLetters(data)
    ensures var c := ConstantExpression(FundamentalTypeReference(t), data);
      NodeToConstant(ConstantToWord(c).value) == Ok(c)
  {
    var suffix := FloatSuffix(t);
    var c := ConstantExpression(FundamentalTypeReference(t), data);
    assert ConstantToWord(c) == Ok(Word(data + suffix, Number));
    FloatWidthDigits(t);
    assert SuffixType(suffix) == Ok(FundamentalTypeReference(t));
    NumberWord(data, suffix);
    assert NodeToConstant(Word(data + suffix, Number)) == NumberToConstant(Word(data + suffix, Number));
  }

  /** Any float width other than 16, 32 and 64 is rejected. */
  lemma UnsupportedFloatWidth(data: string, bits: nat)
    requires NoLetters(data) && bits != 16 && bits != 32 && bits != 64
    ensures NodeToConstant(Word(data + "f" + NatToString(bits), Number)).Err?
  {
    var suffix := "f" + NatToString(bits);
    assert data + "f" + NatToString(bits) == data + suffix;
    assert suffix[1..] == IntToString(bits);
    JsNumberOfInt(bits);
    assert SuffixType(suffix).Err?;
    NumberWord(data, suffix);
  }

  /** A C-typed constant prints as its digits and the type's suffix. */
  lemma CConstantWord(t: FundamentalType, data: string)
    requires HasCSuffix(t)
    ensures ConstantToWord(ConstantExpression(FundamentalTypeReference(t), data)) == Ok(Word(data + CTypeSuffix(t), Number))
  {
    assert t != Float16 && t != Float32 && t != Float64 && t != String;
  }

  /** The C suffixes `cc` ... `cb` parse back to their types. */
  lemma CConstantRoundTrip(t: FundamentalType, data: string)
    requires HasCSuffix(t) && NoLetters(data)
    ensures var c := ConstantExpression(FundamentalTypeReference(t), data);
      NodeToConstant(ConstantToWord(c).value) == Ok(c)
  {
    var suffix := CTypeSuffix(t);
    CConstantWord(t, data);
    assert CSuffixType(suffix) == Some(t);
    CSuffixTypeResult(suffix);
    NumberWord(data, suffix);
  }

  /** A suffix starting with `c` denotes the C type of the parser's table. */
  lemma CSuffixTypeResult(suffix: string)
    requires |suffix| > 0 && suffix[0] == 'c' && CSuffixType(suffix).Some?
    ensures SuffixType(suffix) == Ok(FundamentalTypeReference(CSuffixType(suffix).value))
  {
  }

  /** The closing quote of a printed string is its last quote. */
  lemma ClosingQuote(data: string, tail: string)
    requires tail == "" || tail == "c"
    ensures LastIndexOf("\"" + data + "\"" + tail, '"') == |data| + 1
  {
    var w := "\"" + data + "\"" + tail;
    assert w[|data| + 1] == '"';
    assert forall j :: |data| + 1 < j < |w| ==> w[j] == tail[j - |data| - 2];
    LastIndexAt(w, '"', |data| + 1);
  }

  /** String and C-string constants parse back, whatever their text. */
  lemma StringConstantRoundTrip(data: string, isCString: bool)
    ensures var c := ConstantExpression(
        if isCString then PointerType([FundamentalTypeReference(CChar)], false) else FundamentalTypeReference(String), data);
      NodeToConstant(ConstantToWord(c).value) == Ok(c)
  {
    if isCString {
      CStringConstantRoundTrip(data);
    } else {
      PlainStringConstantRoundTrip(data);
    }
  }

  lemma PlainStringConstantRoundTrip(data: string)
    ensures var c := ConstantExpression(FundamentalTypeReference(String), data);
      NodeToConstant(ConstantToWord(c).value) == Ok(c)
  {
    var w := "\"" + data + "\"";
    assert ConstantToWord(ConstantExpression(FundamentalTypeReference(String), data)) == Ok(Word(w, StringWord));
    QuotedWord(data, "");
    assert w + "" == w;
    assert SliceInner(w, 1) == data;
  }

  lemma CStringConstantRoundTrip(data: string)
    ensures var c := ConstantExpression(PointerType([FundamentalTypeReference(CChar)], false), data);
      NodeToConstant(ConstantToWord(c).value) == Ok(c)
  {
    var w := "\"" + data + "\"c";
    assert ConstantToWord(ConstantExpression(PointerType([FundamentalTypeReference(CChar)], false), data)) == Ok(Word(w, StringWord));
    assert w == "\"" + data + "\"" + "c";
    QuotedWord(data, "c");
    assert SliceInner(w, 2) == data;
  }

  /** The suffix and the inner text of a quoted word. */
  lemma QuotedWord(data: string, tail: string)
    requires tail == "" || tail == "c"
    ensures var w := "\"" + data + "\"" + tail;
      ScannedSuffix(Word(w, StringWord)) == tail && SliceInner(w, |tail| + 1) == data
  {
    var w := "\"" + data + "\"" + tail;
    ClosingQuote(data, tail);
    assert w[|data| + 2..] == tail;
    assert w[1..|w| - |tail| - 1] == data;
  }

  // ----- Comments -----

  /** `map_comment_to_word`: each line of the comment prefixed by "// ". */
  function MapCommentToWord(comments: string): (r: Word)
    ensures r.wordType == Comment
  {
    var lines := Split(comments, '\n');
    Word(Join(seq(|lines|, i requires 0 <= i < |lines| => "// " + lines[i]), "\n"), Comment)
  }

  /** One line of `remove_comments_formatting`: the text after "//" and one
      optional space. Without "//" the search gives -1, so one or two
      characters are dropped. */
  function StripCommentPrefix(line: string): string {
    var k := FindFrom(line, "//", 0);
    var start := if 0 <= k + 2 < |line| && line[k + 2] == ' ' then k + 3 else k + 2;
    if start <= |line| then line[start..] else ""
  }

  /** What `remove_comments_formatting` computes. */
  function UnformattedComment(comments: string): string {
    var lines := Split(comments, '\n');
    Join(seq(|lines|, i requires 0 <= i < |lines| => RemoveAll(StripCommentPrefix(lines[i]), '\r')), "\n")
  }

  /** `remove_comments_formatting`: strips each line, then drops every `\r`. */
  method RemoveCommentsFormatting(comments: string) returns (r: string)
    ensures r == UnformattedComment(comments)
  {
    var lines := Split(comments, '\n');
    var unformatted: seq<string> := [];
    for i := 0 to |lines|
      invariant unformatted == seq(i, j requires 0 <= j < i => StripCommentPrefix(lines[j]))
    {
      unformatted := unformatted + [StripCommentPrefix(lines[i])];
    }
    var withoutLineBreaks := seq(|unformatted|, j requires 0 <= j < |unformatted| => RemoveAll(unformatted[j], '\r'));
    assert withoutLineBreaks == seq(|lines|, j requires 0 <= j < |lines| => RemoveAll(StripCommentPrefix(lines[j]), '\r'));
    r := Join(withoutLineBreaks, "\n");
  }

  lemma {:induction false} RemoveAllConcat(a: string, b: string, c: char)
    ensures RemoveAll(a + b, c) == RemoveAll(a, c) + RemoveAll(b, c)
  {
    if |a| == 0 {
      assert a + b == b;
    } else {
      assert (a + b)[1..] == a[1..] + b;
      RemoveAllConcat(a[1..], b, c);
    }
  }

  /** Removing `c` line by line is removing it from the joined text, when
      the delimiter does not contain `c`. */
  lemma {:induction false} RemoveAllJoin(parts: seq<string>, d: char, c: char)
    requires d != c
    ensures Join(seq(|parts|, i requires 0 <= i < |parts| => RemoveAll(parts[i], c)), [d]) == RemoveAll(Join(parts, [d]), c)
  {
    var mapped := seq(|parts|, i requires 0 <= i < |parts| => RemoveAll(parts[i], c));
    if |parts| > 1 {
      RemoveAllJoin(parts[1..], d, c);
      assert mapped[1..] == seq(|parts[1..]|, i requires 0 <= i < |parts[1..]| => RemoveAll(parts[1..][i], c));
      RemoveAllConcat(parts[0] + [d], Join(parts[1..], [d]), c);
      RemoveAllConcat(parts[0], [d], c);
      assert RemoveAll([d], c) == [d] by { assert [d][1..] == []; }
    }
  }

  lemma StripFormatted(line: string)
    ensures StripCommentPrefix("// " + line) == line
  {
    var s := "// " + line;
    assert s[0..2] == "//";
    assert FindFrom(s, "//", 0) == 0;
    assert s[3..] == line;
  }

  /** `remove_comments_formatting` undoes `map_comment_to_word`, except that
      it also drops every carriage return. */
  lemma CommentRoundTrip(comments: string)
    ensures UnformattedComment(MapCommentToWord(comments).value) == RemoveAll(comments, '\r')
  {
    var lines := Split(comments, '\n');
    var prefixed := seq(|lines|, i requires 0 <= i < |lines| => "// " + lines[i]);
    SplitParts(comments, '\n');
    forall i | 0 <= i < |prefixed| ensures '\n' !in prefixed[i] {
      assert '\n' !in lines[i];
      assert prefixed[i] == "// " + lines[i];
    }
    JoinSplit(prefixed, '\n');
    assert Split(MapCommentToWord(comments).value, '\n') == prefixed;
    var stripped := seq(|prefixed|, i requires 0 <= i < |prefixed| => RemoveAll(StripCommentPrefix(prefixed[i]), '\r'));
    forall i | 0 <= i < |prefixed| ensures stripped[i] == RemoveAll(lines[i], '\r') {
      StripFormatted(lines[i]);
    }
    assert stripped == seq(|lines|, i requires 0 <= i < |lines| => RemoveAll(lines[i], '\r'));
    RemoveAllJoin(lines, '\n', '\r');
    SplitJoin(comments, '\n');
  }

  // ----- Production-rule labels -----

  /** `Expression_enum`, with the operation for binary and unary expressions. */
  datatype ExpressionKind =
    | AccessKind | AccessArrayKind | AssertKind | AssignmentKind | BinaryKind(operation: BinaryOperation)
    | BlockKind | BreakKind | CallKind | CastKind | CommentKind | CompileTimeKind | ConstantKind
    | ConstantArrayKind | ContinueKind | DeferKind | DereferenceAndAccessKind | ForLoopKind | FunctionKind
    | InstanceCallKind | IfKind | InstantiateKind | InvalidKind | NullPointerKind | ParenthesisKind
    | ReflectionKind | ReturnKind | StructKind | SwitchKind | TernaryConditionKind | TypeKind
    | UnaryKind(unaryOperation: UnaryOperation) | UnionKind | VariableDeclarationKind
    | VariableDeclarationWithTypeKind | VariableKind | WhileLoopKind

  /** The precedence-class text of a binary operation. */
  function BinaryPrecedenceLabel(op: BinaryOperation): string {
    match op
    case Add | Subtract => "Expression_binary_addition"
    case Multiply | Divide | Modulus => "Expression_binary_multiplication"
    case Equal | NotEqual => "Expression_binary_relational_equal"
    case LessThan | LessThanOrEqualTo | GreaterThan | GreaterThanOrEqualTo => "Expression_binary_relational"
    case LogicalAnd => "Expression_binary_logical_and"
    case LogicalOr => "Expression_binary_logical_or"
    case BitwiseAnd | Has => "Expression_binary_bitwise_and"
    case BitwiseOr => "Expression_binary_bitwise_or"
    case BitwiseXor => "Expression_binary_bitwise_xor"
    case BitShiftLeft | BitShiftRight => "Expression_binary_bitwise_shift"
  }

  /** The binary precedence classes of the grammar. */
  datatype PrecedenceClass =
    | Addition | Multiplication | RelationalEqual | Relational | LogicalAndClass | LogicalOrClass
    | BitwiseAndClass | BitwiseOrClass | BitwiseXorClass | BitwiseShift

  /** The production-rule label of each class. */
  function ClassLabel(c: PrecedenceClass): string {
    match c
    case Addition => "Expression_binary_addition"
    case Multiplication => "Expression_binary_multiplication"
    case RelationalEqual => "Expression_binary_relational_equal"
    case Relational => "Expression_binary_relational"
    case LogicalAndClass => "Expression_binary_logical_and"
    case LogicalOrClass => "Expression_binary_logical_or"
    case BitwiseAndClass => "Expression_binary_bitwise_and"
    case BitwiseOrClass => "Expression_binary_bitwise_or"
    case BitwiseXorClass => "Expression_binary_bitwise_xor"
    case BitwiseShift => "Expression_binary_bitwise_shift"
  }

  /** The operations of each class, as the grammar groups them. */
  function ClassMembers(c: PrecedenceClass): set<BinaryOperation> {
    match c
    case Addition => {Add, Subtract}
    case Multiplication => {Multiply, Divide, Modulus}
    case RelationalEqual => {Equal, NotEqual}
    case Relational => {LessThan, LessThanOrEqualTo, GreaterThan, GreaterThanOrEqualTo}
    case LogicalAndClass => {LogicalAnd}
    case LogicalOrClass => {LogicalOr}
    case BitwiseAndClass => {BitwiseAnd, Has}
    case BitwiseOrClass => {BitwiseOr}
    case BitwiseXorClass => {BitwiseXor}
    case BitwiseShift => {BitShiftLeft, BitShiftRight}
  }

  /** Different classes have different labels. */
  lemma ClassLabelsDistinct(c1: PrecedenceClass, c2: PrecedenceClass)
    requires c1 != c2
    ensures ClassLabel(c1) != ClassLabel(c2)
  {
  }

  /** Every operation lies in exactly one precedence class, and its label is
      that class's label; `Has` shares the bitwise-and class. */
  lemma PrecedenceClassOf(op: BinaryOperation)
    ensures exists c :: op in ClassMembers(c)
    ensures forall c :: op in ClassMembers(c) <==> BinaryPrecedenceLabel(op) == ClassLabel(c)
    ensures BinaryPrecedenceLabel(Has) == BinaryPrecedenceLabel(BitwiseAnd)
  {
    var c0 := match op
      case Add | Subtract => Addition
      case Multiply | Divide | Modulus => Multiplication
      case Equal | NotEqual => RelationalEqual
      case LessThan | LessThanOrEqualTo | GreaterThan | GreaterThanOrEqualTo => Relational
      case LogicalAnd => LogicalAndClass
      case LogicalOr => LogicalOrClass
      case BitwiseAnd | Has => BitwiseAndClass
      case BitwiseOr => BitwiseOrClass
      case BitwiseXor => BitwiseXorClass
      case BitShiftLeft | BitShiftRight => BitwiseShift;
    assert op in ClassMembers(c0) && BinaryPrecedenceLabel(op) == ClassLabel(c0);
    forall c ensures op in ClassMembers(c) <==> BinaryPrecedenceLabel(op) == ClassLabel(c) {
      if c != c0 {
        ClassLabelsDistinct(c, c0);
        ClassesDisjoint(c, c0, op);
      }
    }
  }

  lemma ClassesDisjoint(c1: PrecedenceClass, c2: PrecedenceClass, op: BinaryOperation)
    requires c1 != c2 && op in ClassMembers(c2)
    ensures op !in ClassMembers(c1)
  {
  }

  /** `map_expression_type_to_production_rule_label`; the kinds the source's
      switch does not list give `None` (the function returns `undefined`). */
  function ExpressionLabel(kind: ExpressionKind): (r: Option<string>)
    ensures r.None? <==> kind in {AssertKind, CompileTimeKind, DereferenceAndAccessKind, FunctionKind,
                                  InstanceCallKind, ReflectionKind, StructKind, TypeKind, UnionKind}
    ensures kind.BinaryKind? ==> r == Some(BinaryPrecedenceLabel(kind.operation))
    ensures kind.UnaryKind? ==> r.Some? && (r.value == "Expression_unary_0" <==> PostfixUnarySymbol(kind.unaryOperation).Ok?)
  {
    match kind
    case AccessKind => Some("Expression_access")
    case AccessArrayKind => Some("Expression_access_array")
    case AssignmentKind => Some("Expression_assignment")
    case BinaryKind(op) => Some(BinaryPrecedenceLabel(op))
    case BlockKind => Some("Expression_block")
    case BreakKind => Some("Expression_break")
    case CallKind => Some("Expression_call")
    case CastKind => Some("Expression_cast")
    case CommentKind => Some("Expression_comment")
    case ConstantKind => Some("Expression_constant")
    case ConstantArrayKind => Some("Expression_create_array")
    case ContinueKind => Some("Expression_continue")
    case DeferKind => Some("Expression_defer")
    case ForLoopKind => Some("Expression_for_loop")
    case IfKind => Some("Expression_if")
    case InstantiateKind => Some("Expression_instantiate")
    case InvalidKind => Some("Expression_invalid")
    case NullPointerKind => Some("Expression_null_pointer")
    case ParenthesisKind => Some("Expression_parenthesis")
    case ReturnKind => Some("Expression_return")
    case SwitchKind => Some("Expression_switch")
    case TernaryConditionKind => Some("Expression_ternary_condition")
    case UnaryKind(op) => if op == PostIncrement || op == PostDecrement then Some("Expression_unary_0") else Some("Expression_unary_1")
    case VariableKind => Some("Expression_variable")
    case VariableDeclarationKind => Some("Expression_variable_declaration")
    case VariableDeclarationWithTypeKind => Some("Expression_variable_declaration_with_type")
    case WhileLoopKind => Some("Expression_while_loop")
    case _ => None
  }
}
