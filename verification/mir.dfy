/** The subset of MIR (the compiler's typed control-flow-graph IR) the
    translator consumes: types, places, operands, r-values, statements,
    terminators and function bodies. */
module Mir {
  import opened Results

  type Local = nat
  type BlockId = nat

  const U128_LIMIT: nat := 0x1_0000_0000_0000_0000_0000_0000_0000_0000

  /** The switch values of MIR are `u128`. */
  type U128 = n: nat | n < U128_LIMIT

  datatype IntTy = I8 | I16 | I32 | I64 | I128 | Isize
  datatype UintTy = U8 | U16 | U32 | U64 | U128 | Usize

  /** `bit_width()`: the width of a fixed-size integer type; the
      pointer-sized types have none. */
  function IntBitWidth(t: IntTy): Option<nat> {
    match t
    case I8 => Some(8)
    case I16 => Some(16)
    case I32 => Some(32)
    case I64 => Some(64)
    case I128 => Some(128)
    case Isize => None
  }

  function UintBitWidth(t: UintTy): Option<nat> {
    match t
    case U8 => Some(8)
    case U16 => Some(16)
    case U32 => Some(32)
    case U64 => Some(64)
    case U128 => Some(128)
    case Usize => None
  }

  datatype Mutability = Not | Mut

  datatype AdtKind = Struct | Union | Enum

  /** Source types. Field types of an ADT are taken already instantiated
      with the ADT's type arguments; `args` holds only the type arguments. */
  datatype Ty =
    | Bool
    | Char
    | Int(ity: IntTy)
    | Uint(uty: UintTy)
    | Float
    | Str
    | Array(elem: Ty, len: nat)
    | Tuple(elems: seq<Ty>)
    | Adt(def: AdtDef, args: seq<Ty>)
    | Ref(mutability: Mutability, pointee: Ty)
    | FnDef(defId: nat, substs: seq<Ty>)

  /** An ADT definition: its debug path, its kind and its fields (for a
      struct or union; an enum's fields are those of all its variants). */
  datatype AdtDef = AdtDef(path: string, kind: AdtKind, fields: seq<FieldDef>)

  datatype FieldDef = FieldDef(name: string, ty: Ty)

  const PHANTOM_DATA_PATH := "core::marker::PhantomData"

  /** `is_phantom_data()`. */
  predicate IsPhantomData(t: Ty) {
    t.Adt? && t.def.path == PHANTOM_DATA_PATH
  }

  datatype ProjElem =
    | Deref
    | Field(field: nat, fieldTy: Ty)
    | Index(indexLocal: Local)

  /** A storage location: a local and a chain of projections. */
  datatype Place = Place(local: Local, projection: seq<ProjElem>)

  datatype Scalar = ScalarInt(bits: nat) | ScalarPtr

  datatype ConstValue = Scalar(scalar: Scalar) | ZeroSized | Slice

  datatype Const = Val(value: ConstValue, ty: Ty) | Unevaluated(ty: Ty)

  datatype Operand = Copy(place: Place) | Move(place: Place) | Constant(constant: Const)

  datatype UnOp = Not | Neg

  datatype BinOp =
    | Add | AddUnchecked | Sub | Mul | Div | Rem
    | BitXor | BitAnd | BitOr | Shl | Shr
    | Eq | Lt | Le | Ne | Ge | Gt | Offset

  datatype CastKind = IntToInt | IntToFloat | FloatToInt | PtrToPtr | Transmute

  datatype Rvalue =
    | Use(operand: Operand)
    | UnaryOp(unOp: UnOp, operand: Operand)
    | BinaryOp(binOp: BinOp, lhs: Operand, rhs: Operand)
    | CheckedBinaryOp(binOp: BinOp, lhs: Operand, rhs: Operand)
    | Ref(mutability: Mutability, place: Place)
    | Cast(kind: CastKind, operand: Operand, ty: Ty)
    | Len(place: Place)
    | Discriminant(place: Place)
    | Aggregate(operands: seq<Operand>)

  datatype Statement =
    | Assign(place: Place, rvalue: Rvalue)
    | StorageLive(local: Local)
    | StorageDead(local: Local)
    | FakeRead(place: Place)
    | Nop

  /** The arms of a `SwitchInt`: value/target pairs and the default target. */
  datatype SwitchTargets = SwitchTargets(values: seq<(U128, BlockId)>, otherwise: BlockId)

  /** `all_targets()`: the arm targets followed by the default. */
  function AllTargets(t: SwitchTargets): seq<BlockId> {
    seq(|t.values|, i requires 0 <= i < |t.values| => t.values[i].1) + [t.otherwise]
  }

  datatype Terminator =
    | Goto(target: BlockId)
    | SwitchInt(discr: Operand, targets: SwitchTargets)
    | Return
    | Assert(cond: Operand, expected: bool, target: BlockId)
    | Call(func: Operand, args: seq<Operand>, destination: Place, callTarget: Option<BlockId>)
    | Drop(place: Place, target: BlockId)
    | Unreachable

  datatype BasicBlock = BasicBlock(id: BlockId, statements: seq<Statement>, terminator: Terminator)

  /** A function body: the declared type of each local, and the basic blocks
      in the order the translator visits them (reverse postorder). */
  datatype Body = Body(localDecls: seq<Ty>, blocks: seq<BasicBlock>)

  /** The type reached by one projection; a projection that does not fit
      its base type means the MIR is malformed. */
  function ProjectTy(t: Ty, p: ProjElem): Result<Ty> {
    match p
    case Deref => if t.Ref? then Success(t.pointee) else Failure(InvariantViolation)
    case Field(_, fieldTy) => Success(fieldTy)
    case Index(_) => if t.Array? then Success(t.elem) else Failure(InvariantViolation)
  }

  function ProjectionTy(t: Ty, ps: seq<ProjElem>): Result<Ty>
    decreases |ps|
  {
    if |ps| == 0 then Success(t)
    else
      var t' :- ProjectTy(t, ps[0]);
      ProjectionTy(t', ps[1..])
  }

  /** `Place::ty`: the type of a place. */
  function PlaceTy(body: Body, p: Place): Result<Ty> {
    if p.local < |body.localDecls| then ProjectionTy(body.localDecls[p.local], p.projection)
    else Failure(InvariantViolation)
  }

  /** `Operand::ty`: the type of an operand. */
  function OperandTy(body: Body, o: Operand): Result<Ty> {
    match o
    case Copy(p) => PlaceTy(body, p)
    case Move(p) => PlaceTy(body, p)
    case Constant(c) => Success(c.ty)
  }
}
