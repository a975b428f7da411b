/** The destination AST: the structure of a Boogie program, and the few smart
    constructors the translator relies on. */
module BoogieAst {
  import opened Results

  /** Boogie types. `TypeParam`, `Map` and `DataType` are the shapes built by
      `Type::parameter`, `Type::map` and `Type::datatype`. */
  datatype Type =
    | Bool
    | Bv(width: nat)
    | Int
    | Map(key: Type, value: Type)
    | Array(elementType: Type, len: nat)
    | TypeParam(name: string)
    | DataType(name: string, arguments: seq<Type>)

  /** A function or procedure parameter. */
  datatype Parameter = Parameter(name: string, typ: Type)

  /** Literals. Bit-vector and integer values are unbounded: a bit-vector
      literal is never truncated to its width. */
  datatype Literal =
    | Bool(b: bool)
    | Bv(width: nat, value: nat)
    | Int(i: int)

  /** `Literal::bv`: the bit-vector literal of the given width and value. */
  function BvLiteral(width: nat, value: nat): (r: Literal)
    ensures r.Bv? && r.width == width
    ensures r.value == value
  {
    Literal.Bv(width, value)
  }

  datatype UnaryOp = Not | Neg

  datatype BinaryOp =
    | And | Or | Eq | Neq | Lt | Lte | Gt | Gte | Add | Sub | Mul | Div | Mod

  /** Boogie expressions. `Field`, `Extract`, `SignExtend` and `ZeroExtend`
      are the nodes built by `Expr::Field`, `Expr::extract`,
      `Expr::sign_extend` and `Expr::zero_extend`: `Extract(e, high, low)`
      keeps bits `low` up to (excluding) `high` of `e`, and the two extension
      nodes widen `e` by `width` bits. */
  datatype Expr =
    | Literal(lit: Literal)
    | Symbol(name: string)
    | UnaryOp(unaryOp: UnaryOp, operand: Expr)
    | BinaryOp(binaryOp: BinaryOp, left: Expr, right: Expr)
    | FunctionCall(symbol: string, arguments: seq<Expr>)
    | Index(base: Expr, index: Expr)
    | Field(base: Expr, field: string)
    | Extract(base: Expr, high: nat, low: nat)
    | SignExtend(base: Expr, width: nat)
    | ZeroExtend(base: Expr, width: nat)

  /** `Expr::function_call`: a call of `symbol` on `arguments`, in order. */
  function FunctionCallOf(symbol: string, arguments: seq<Expr>): (r: Expr)
    ensures r.FunctionCall? && r.symbol == symbol
    ensures |r.arguments| == |arguments|
    ensures forall i :: 0 <= i < |arguments| ==> r.arguments[i] == arguments[i]
  {
    FunctionCall(symbol, arguments)
  }

  /** `Expr::not`: logical negation. */
  function NotOf(e: Expr): (r: Expr)
    ensures r.UnaryOp? && r.unaryOp == Not && r.operand == e
  {
    UnaryOp(Not, e)
  }

  /** Boogie statements; `Null` is the statement that stands for nothing. */
  datatype Stmt =
    | Assignment(target: string, value: Expr)
    | Assert(condition: Expr)
    | Assume(condition: Expr)
    | Block(statements: seq<Stmt>)
    | Break
    | Call(symbol: string, arguments: seq<Expr>)
    | Decl(name: string, typ: Type)
    | Havoc(name: string)
    | If(condition: Expr, body: Stmt, elseBody: Option<Stmt>)
    | Goto(labelName: string)
    | Label(labelName: string, statement: Stmt)
    | Return
    | While(condition: Expr, body: Stmt)
    | Null

  /** The straight-line sequence a statement stands for: a block stands for
      the concatenation of its children, every other statement for itself. */
  function Linearize(s: Stmt): seq<Stmt>
    decreases s, 1
  {
    match s
    case Block(ss) => LinearizeAll(ss)
    case _ => [s]
  }

  function LinearizeAll(ss: seq<Stmt>): seq<Stmt>
    decreases ss, 0
  {
    if |ss| == 0 then [] else Linearize(ss[0]) + LinearizeAll(ss[1..])
  }

  /** Linearizing distributes over concatenation of statement lists. */
  lemma {:induction false} LinearizeAllAppend(a: seq<Stmt>, b: seq<Stmt>)
    ensures LinearizeAll(a + b) == LinearizeAll(a) + LinearizeAll(b)
    decreases |a|
  {
    if |a| == 0 {
      assert a + b == b;
    } else {
      assert (a + b)[1..] == a[1..] + b;
      LinearizeAllAppend(a[1..], b);
    }
  }

  /** A statement is canonical when no block anywhere in it holds exactly
      one statement. */
  predicate Canonical(s: Stmt) {
    match s
    case Block(ss) => |ss| != 1 && forall i :: 0 <= i < |ss| ==> Canonical(ss[i])
    case If(_, body, elseBody) =>
      Canonical(body) && (elseBody.Some? ==> Canonical(elseBody.value))
    case Label(_, inner) => Canonical(inner)
    case While(_, body) => Canonical(body)
    case _ => true
  }

  /** `Stmt::block`: a block of the given statements, except that a single
      statement is returned as itself. The result stands for the same
      straight-line sequence as its input and is canonical whenever the
      statements are. */
  function BlockOf(statements: seq<Stmt>): (r: Stmt)
    ensures |statements| == 1 ==> r == statements[0]
    ensures |statements| != 1 ==> r.Block? && r.statements == statements
    ensures Linearize(r) == LinearizeAll(statements)
    ensures (forall i :: 0 <= i < |statements| ==> Canonical(statements[i])) ==> Canonical(r)
  {
    if |statements| == 1 then
      assert LinearizeAll(statements) == Linearize(statements[0]) + LinearizeAll([]);
      statements[0]
    else
      Block(statements)
  }

  /** The optional contract of a procedure. */
  datatype Contract = Contract(
    preconditions: seq<Expr>,
    postconditions: seq<Expr>,
    frame: seq<Expr>)

  /** A procedure: a named body statement with parameters and an optional contract. */
  datatype Procedure = Procedure(
    name: string,
    parameters: seq<Parameter>,
    returnParameters: seq<(string, Type)>,
    contract: Option<Contract>,
    body: Stmt)

  /** A mathematical function; without a body it is uninterpreted, and its
      attributes may bind it to a solver primitive. */
  datatype Function = Function(
    name: string,
    parameters: seq<Parameter>,
    returnType: Type,
    body: Option<Expr>,
    attributes: seq<string>)

  datatype DataTypeConstructor = DataTypeConstructor(name: string, fields: seq<Parameter>)

  /** A generic algebraic datatype declaration. */
  datatype DataTypeDeclaration = DataTypeDeclaration(
    name: string,
    typeParameters: seq<string>,
    constructors: seq<DataTypeConstructor>)

  // Declarations the translator never creates; they carry no content.
  datatype TypeDeclaration = TypeDeclaration
  datatype ConstDeclaration = ConstDeclaration
  datatype VarDeclaration = VarDeclaration
  datatype Axiom = Axiom

  datatype BoogieProgram = BoogieProgram(
    typeDeclarations: seq<TypeDeclaration>,
    constDeclarations: seq<ConstDeclaration>,
    varDeclarations: seq<VarDeclaration>,
    axioms: seq<Axiom>,
    datatypes: seq<DataTypeDeclaration>,
    functions: seq<Function>,
    procedures: seq<Procedure>)

  /** `BoogieProgram::new`: the program with no declarations at all. */
  function NewProgram(): (p: BoogieProgram)
    ensures |p.typeDeclarations| == 0 && |p.constDeclarations| == 0
    ensures |p.varDeclarations| == 0 && |p.axioms| == 0
    ensures |p.datatypes| == 0 && |p.functions| == 0 && |p.procedures| == 0
  {
    BoogieProgram([], [], [], [], [], [], [])
  }

  /** The declarations of `q` other than its functions and procedures are those of `p`. */
  predicate SameOtherDeclarations(p: BoogieProgram, q: BoogieProgram) {
    && q.typeDeclarations == p.typeDeclarations
    && q.constDeclarations == p.constDeclarations
    && q.varDeclarations == p.varDeclarations
    && q.axioms == p.axioms
    && q.datatypes == p.datatypes
  }

  /** `add_procedure`: appends exactly one procedure at the end. */
  function AddProcedure(p: BoogieProgram, proc: Procedure): (r: BoogieProgram)
    ensures |r.procedures| == |p.procedures| + 1
    ensures r.procedures[..|p.procedures|] == p.procedures
    ensures r.procedures[|p.procedures|] == proc
    ensures r.functions == p.functions && SameOtherDeclarations(p, r)
  {
    p.(procedures := p.procedures + [proc])
  }

  /** `add_function`: appends exactly one function at the end. */
  function AddFunction(p: BoogieProgram, f: Function): (r: BoogieProgram)
    ensures |r.functions| == |p.functions| + 1
    ensures r.functions[..|p.functions|] == p.functions
    ensures r.functions[|p.functions|] == f
    ensures r.procedures == p.procedures && SameOtherDeclarations(p, r)
  {
    p.(functions := p.functions + [f])
  }

  /** `add_datatype`: appends exactly one datatype declaration at the end. */
  function AddDatatype(p: BoogieProgram, d: DataTypeDeclaration): (r: BoogieProgram)
    ensures |r.datatypes| == |p.datatypes| + 1
    ensures r.datatypes[..|p.datatypes|] == p.datatypes
    ensures r.datatypes[|p.datatypes|] == d
    ensures r.functions == p.functions && r.procedures == p.procedures
    ensures r.typeDeclarations == p.typeDeclarations && r.axioms == p.axioms
    ensures r.constDeclarations == p.constDeclarations && r.varDeclarations == p.varDeclarations
  {
    p.(datatypes := p.datatypes + [d])
  }
}
