/** The enumerations of the H language's intermediate representation shared
    by the compiler (C++) and the editor (TypeScript):
    `Binary_operation`, `Unary_operation`, `Access_type` and
    `Fundamental_type`, in declaration order. */
module Operations {

  datatype BinaryOperation =
    | Add | Subtract | Multiply | Divide | Modulus
    | Equal | NotEqual | LessThan | LessThanOrEqualTo | GreaterThan | GreaterThanOrEqualTo
    | LogicalAnd | LogicalOr
    | BitwiseAnd | BitwiseOr | BitwiseXor
    | BitShiftLeft | BitShiftRight
    | Has

  /** All 19 binary operations, in declaration order. */
  const AllBinaryOperations: seq<BinaryOperation> :=
    [Add, Subtract, Multiply, Divide, Modulus,
     Equal, NotEqual, LessThan, LessThanOrEqualTo, GreaterThan, GreaterThanOrEqualTo,
     LogicalAnd, LogicalOr, BitwiseAnd, BitwiseOr, BitwiseXor,
     BitShiftLeft, BitShiftRight, Has]

  /** The ten operations that have a compound assignment form (`+=` ... `>>=`). */
  predicate HasCompoundAssignment(op: BinaryOperation) {
    op in {Add, Subtract, Multiply, Divide, Modulus, BitwiseAnd, BitwiseOr, BitwiseXor, BitShiftLeft, BitShiftRight}
  }

  datatype UnaryOperation =
    | Not | BitwiseNot | Minus
    | PreIncrement | PostIncrement | PreDecrement | PostDecrement
    | Indirection | AddressOf

  datatype AccessType = Read | Write | ReadWrite

  datatype FundamentalType =
    | Bool | Byte | Float16 | Float32 | Float64 | String | AnyType
    | CBool | CChar | CSchar | CUchar | CShort | CUshort | CInt | CUint
    | CLong | CUlong | CLonglong | CUlonglong | CLongdouble

  /** The eleven C fundamental types that have a literal suffix (`cc` ... `cb`). */
  predicate HasCSuffix(t: FundamentalType) {
    t in {CChar, CShort, CInt, CLong, CLonglong, CUchar, CUshort, CUint, CUlong, CUlonglong, CBool}
  }
}
