/** Lowering of places, operands, constants and r-values to Boogie
    expressions. Reads consult the alias table first, so that a place a
    reference was taken into is replaced by the expression recorded for it;
    arithmetic, bitwise and comparison operators on bit-vectors become calls
    of the builtins of the catalog. */
module ExprLowering {
  import opened Results
  import opened BoogieAst
  import M = Mir
  import opened Names
  import opened External
  import Builtins
  import opened TypeLowering

  /** The alias table: for each place a reference was assigned to, the
      expression of the place the reference points at. */
  type AliasTable = map<M.Place, Expr>

  /** `codegen_local`: the variable of a local. */
  function LowerLocal(l: M.Local): Expr {
    Symbol(LocalName(l))
  }

  /** Distinct locals lower to distinct variables. */
  lemma LowerLocalInjective(a: M.Local, b: M.Local)
    ensures LowerLocal(a) == LowerLocal(b) <==> a == b
  {
    LocalNameInjective(a, b);
  }

  /** The expression an access path starts from: the root of its chain of
      index and field selections. */
  function Root(e: Expr): Expr {
    match e
    case Index(base, _) => Root(base)
    case Field(base, _) => Root(base)
    case _ => e
  }

  /** An expression with no function call anywhere in it. */
  predicate CallFree(e: Expr) {
    match e
    case Literal(_) => true
    case Symbol(_) => true
    case UnaryOp(_, operand) => CallFree(operand)
    case BinaryOp(_, left, right) => CallFree(left) && CallFree(right)
    case FunctionCall(_, _) => false
    case Index(base, index) => CallFree(base) && CallFree(index)
    case Field(base, _) => CallFree(base)
    case Extract(base, _, _) => CallFree(base)
    case SignExtend(base, _) => CallFree(base)
    case ZeroExtend(base, _) => CallFree(base)
  }

  /** An expression whose every function call is a call of a builtin. */
  predicate CallsOnlyBuiltins(e: Expr) {
    match e
    case Literal(_) => true
    case Symbol(_) => true
    case UnaryOp(_, operand) => CallsOnlyBuiltins(operand)
    case BinaryOp(_, left, right) => CallsOnlyBuiltins(left) && CallsOnlyBuiltins(right)
    case FunctionCall(symbol, args) =>
      Builtins.FromName(symbol).Some? && forall i :: 0 <= i < |args| ==> CallsOnlyBuiltins(args[i])
    case Index(base, index) => CallsOnlyBuiltins(base) && CallsOnlyBuiltins(index)
    case Field(base, _) => CallsOnlyBuiltins(base)
    case Extract(base, _, _) => CallsOnlyBuiltins(base)
    case SignExtend(base, _) => CallsOnlyBuiltins(base)
    case ZeroExtend(base, _) => CallsOnlyBuiltins(base)
  }

  lemma {:induction false} CallFreeCallsOnlyBuiltins(e: Expr)
    requires CallFree(e)
    ensures CallsOnlyBuiltins(e)
  {
    match e
    case UnaryOp(_, operand) => CallFreeCallsOnlyBuiltins(operand);
    case BinaryOp(_, left, right) =>
      CallFreeCallsOnlyBuiltins(left);
      CallFreeCallsOnlyBuiltins(right);
    case Index(base, index) =>
      CallFreeCallsOnlyBuiltins(base);
      CallFreeCallsOnlyBuiltins(index);
    case Field(base, _) => CallFreeCallsOnlyBuiltins(base);
    case Extract(base, _, _) => CallFreeCallsOnlyBuiltins(base);
    case SignExtend(base, _) => CallFreeCallsOnlyBuiltins(base);
    case ZeroExtend(base, _) => CallFreeCallsOnlyBuiltins(base);
    case _ =>
  }

  /** Every expression recorded in the table is call-free. */
  predicate AliasesCallFree(alias: AliasTable) {
    forall q :: q in alias ==> CallFree(alias[q])
  }

  /** One projection applied to the expression built so far. An index
      selects by the index local's variable; a field is resolved against
      the type of the place's base local (not the type reached so far): by
      name in the single variant of a struct or union, not at all for a
      tuple; a dereference, like every other projection kind, leaves the
      expression as it is. */
  function ProjectStep(localTy: M.Ty, acc: Expr, p: M.ProjElem): (r: Result<Expr>)
    ensures r.Success? ==> Root(r.value) == Root(acc)
    ensures r.Success? && CallFree(acc) ==> CallFree(r.value)
    ensures p.Index? ==> r == Success(Index(acc, Symbol(LocalName(p.indexLocal))))
    ensures p.Deref? ==> r == Success(acc)
    ensures p.Field? && localTy.Tuple? ==> r == Success(acc)
    ensures p.Field? && localTy.Adt? && localTy.def.kind != M.Enum && p.field < |localTy.def.fields| ==>
      r == Success(Field(acc, localTy.def.fields[p.field].name))
    ensures p.Field? && localTy.Adt? && (localTy.def.kind == M.Enum || p.field >= |localTy.def.fields|) ==>
      r == Failure(InvariantViolation)
    ensures p.Field? && !localTy.Adt? && !localTy.Tuple? ==> r == Failure(Unsupported)
  {
    match p
    case Index(i) => Success(Index(acc, LowerLocal(i)))
    case Field(f, _) =>
      (match localTy
       case Adt(def, _) =>
         // `non_enum_variant().fields[f]`
         if def.kind == M.Enum || f >= |def.fields| then Failure(InvariantViolation)
         else Success(Field(acc, def.fields[f].name))
       case Tuple(_) => Success(acc)
       case _ => Failure(Unsupported))
    case Deref => Success(acc)
  }

  /** The left fold of `ProjectStep` over a projection chain. */
  function FoldProjections(localTy: M.Ty, base: Expr, ps: seq<M.ProjElem>): (r: Result<Expr>)
    ensures r.Success? ==> Root(r.value) == Root(base)
    ensures r.Success? && CallFree(base) ==> CallFree(r.value)
    decreases |ps|
  {
    if |ps| == 0 then Success(base)
    else
      var acc :- FoldProjections(localTy, base, ps[..|ps| - 1]);
      ProjectStep(localTy, acc, ps[|ps| - 1])
  }

  /** A failed prefix makes the whole fold fail with the same error. */
  lemma {:induction false} FoldFailureSticks(localTy: M.Ty, base: Expr, ps: seq<M.ProjElem>, n: nat)
    requires n <= |ps|
    requires FoldProjections(localTy, base, ps[..n]).Failure?
    ensures FoldProjections(localTy, base, ps) == FoldProjections(localTy, base, ps[..n])
    decreases |ps| - n
  {
    if n < |ps| {
      assert ps[..n] == ps[..|ps| - 1][..n];
      FoldFailureSticks(localTy, base, ps[..|ps| - 1], n);
    } else {
      assert ps[..n] == ps;
    }
  }

  /** The iterative accumulator form of the projection fold. */
  method FoldProjectionsIter(localTy: M.Ty, base: Expr, ps: seq<M.ProjElem>) returns (r: Result<Expr>)
    ensures r == FoldProjections(localTy, base, ps)
  {
    var acc := base;
    var i := 0;
    while i < |ps|
      invariant 0 <= i <= |ps|
      invariant FoldProjections(localTy, base, ps[..i]) == Success(acc)
    {
      assert ps[..i + 1][..i] == ps[..i];
      var step := ProjectStep(localTy, acc, ps[i]);
      if step.Failure? {
        FoldFailureSticks(localTy, base, ps, i + 1);
        return Failure(step.error);
      }
      acc := step.value;
      i := i + 1;
    }
    assert ps[..i] == ps;
    return Success(acc);
  }

  /** `codegen_place`. A place with a recorded alias is that alias; any
      other place is an access path rooted at its local's variable. */
  function LowerPlace(body: M.Body, alias: AliasTable, p: M.Place): (r: Result<Expr>)
    ensures p in alias ==> r == Success(alias[p])
    ensures p !in alias && p.local >= |body.localDecls| ==> r == Failure(InvariantViolation)
    ensures p !in alias && r.Success? ==> Root(r.value) == Symbol(LocalName(p.local))
    ensures p !in alias && p.projection == [] && p.local < |body.localDecls| ==>
      r == Success(Symbol(LocalName(p.local)))
    ensures r.Success? && AliasesCallFree(alias) ==> CallFree(r.value)
  {
    if p in alias then Success(alias[p])
    else if p.local >= |body.localDecls| then Failure(InvariantViolation)
    else FoldProjections(body.localDecls[p.local], LowerLocal(p.local), p.projection)
  }

  /** Without aliases in the way, a place with one more projection is the
      shorter place's lowering with that projection applied, or the shorter
      place's failure. */
  lemma LowerPlaceSnoc(body: M.Body, alias: AliasTable, x: M.Local, ps: seq<M.ProjElem>, e: M.ProjElem)
    requires M.Place(x, ps) !in alias && M.Place(x, ps + [e]) !in alias
    ensures var pre := LowerPlace(body, alias, M.Place(x, ps));
      LowerPlace(body, alias, M.Place(x, ps + [e])) ==
        if pre.Failure? then Failure(pre.error) else ProjectStep(body.localDecls[x], pre.value, e)
  {
    assert (ps + [e])[..|ps|] == ps;
  }

  /** Copying and moving a place lower alike. */
  lemma CopyMoveAgree(body: M.Body, alias: AliasTable, p: M.Place)
    ensures LowerOperand(body, alias, M.Copy(p)) == LowerOperand(body, alias, M.Move(p))
  {
  }

  /** `codegen_scalar`: a boolean scalar becomes a boolean literal, an
      integer scalar a bit-vector literal of its type's width holding the
      scalar's bits; nothing else is supported. */
  function LowerScalar(s: M.Scalar, ty: M.Ty): (r: Result<Expr>)
    ensures r.Success? ==> r.value.Literal?
    ensures r.Success? && ty.Bool? ==>
      s.ScalarInt? && r.value.lit.Bool? && (r.value.lit.b <==> s.bits == 1)
    ensures s.ScalarInt? && ty.Bool? ==> (r.Success? <==> s.bits <= 1)
    ensures s.ScalarInt? && ty.Bool? && s.bits >= 2 ==> r == Failure(InvariantViolation)
    ensures s.ScalarPtr? ==> r == Failure(Unsupported)
    ensures r.Success? ==> s.ScalarInt? && LiteralBits(r.value.lit) == s.bits
    ensures s.ScalarInt? && (ty.Int? || ty.Uint?) ==>
      r.Success? && r.value.lit.Bv? && r.value.lit.value == s.bits
    ensures r.Success? && (ty.Int? || ty.Uint?) ==>
      r.value.lit.Bv? && IntegerWidth(ty) == Some(r.value.lit.width)
    ensures !(ty.Bool? || ty.Int? || ty.Uint?) ==> r == Failure(Unsupported)
  {
    match s
    case ScalarInt(bits) =>
      (match ty
       case Bool =>
         // `to_bool` accepts only 0 and 1
         if bits == 0 then Success(Literal(Literal.Bool(false)))
         else if bits == 1 then Success(Literal(Literal.Bool(true)))
         else Failure(InvariantViolation)
       case Int(ity) => Success(Literal(BvLiteral(IntWidth(ity), bits)))
       case Uint(uty) => Success(Literal(BvLiteral(UintWidth(uty), bits)))
       case _ => Failure(Unsupported))
    case ScalarPtr => Failure(Unsupported)
  }

  /** The raw bits a literal denotes: 0 or 1 for a boolean, the value of a
      bit-vector or integer. */
  function LiteralBits(lit: Literal): int {
    match lit
    case Bool(b) => if b then 1 else 0
    case Bv(_, v) => v
    case Int(i) => i
  }

  /** `codegen_constant`: only evaluated scalar constants are supported,
      and they are lowered as scalars of the constant's type. */
  function LowerConstant(c: M.Const): (r: Result<Expr>)
    ensures r.Success? ==> r.value.Literal?
    ensures c.Val? && c.value.Scalar? ==> r == LowerScalar(c.value.scalar, c.ty)
    ensures !(c.Val? && c.value.Scalar?) ==> r == Failure(Unsupported)
  {
    match c
    case Val(v, ty) => if v.Scalar? then LowerScalar(v.scalar, ty) else Failure(Unsupported)
    case Unevaluated(_) => Failure(Unsupported)
  }

  /** A lowered constant is a literal from which the constant's scalar
      bits can be read back, and a boolean constant lowers to exactly its
      own truth value. */
  lemma ConstantLiteralKeepsBits(c: M.Const)
    requires LowerConstant(c).Success?
    ensures c.Val? && c.value.Scalar? && c.value.scalar.ScalarInt?
    ensures LiteralBits(LowerConstant(c).value.lit) == c.value.scalar.bits
    ensures c.ty.Bool? ==> LowerConstant(c).value.lit == Literal.Bool(c.value.scalar.bits == 1)
  {
  }

  /** `codegen_operand`: a copied or moved place is lowered as a place, a
      constant as a constant. */
  function LowerOperand(body: M.Body, alias: AliasTable, op: M.Operand): (r: Result<Expr>)
    ensures r.Success? && AliasesCallFree(alias) ==> CallFree(r.value)
    ensures op.Copy? || op.Move? ==> r == LowerPlace(body, alias, op.place)
    ensures op.Constant? ==> r == LowerConstant(op.constant)
  {
    match op
    case Copy(p) => LowerPlace(body, alias, p)
    case Move(p) => LowerPlace(body, alias, p)
    case Constant(c) => LowerConstant(c)
  }

  /** A call of builtin `b`. */
  function BuiltinCall(b: Builtins.SmtBvBuiltin, args: seq<Expr>): Expr {
    FunctionCallOf(Builtins.Name(b), args)
  }

  /** `codegen_unary_op`: logical not is Boogie's own negation; arithmetic
      negation is a call of the `BvNot` builtin (the source's choice). */
  function LowerUnary(body: M.Body, alias: AliasTable, op: M.UnOp, operand: M.Operand)
    : (r: Result<(Option<Stmt>, Expr)>)
    ensures r.Success? <==> LowerOperand(body, alias, operand).Success?
    ensures r.Failure? ==> r.error == LowerOperand(body, alias, operand).error
    ensures r.Success? ==> r.value.0.None?
    ensures r.Success? && op == M.UnOp.Not ==> r.value.1.UnaryOp?
    ensures r.Success? && op == M.UnOp.Neg ==> r.value.1.FunctionCall?
  {
    var e :- LowerOperand(body, alias, operand);
    match op
    case Not => Success((None, NotOf(e)))
    case Neg => Success((None, BuiltinCall(Builtins.SmtBvBuiltin.Not, [e])))
  }

  /** The less-than builtin for operands of type `ty`. */
  function LessThanBuiltin(ty: M.Ty): Result<Builtins.SmtBvBuiltin> {
    match ty
    case Int(_) => Success(Builtins.SignedLessThan)
    case Uint(_) => Success(Builtins.UnsignedLessThan)
    case _ => Failure(Unsupported)
  }

  /** `codegen_binary_op`. */
  function LowerBinary(body: M.Body, alias: AliasTable, op: M.BinOp, lhs: M.Operand, rhs: M.Operand)
    : (r: Result<(Option<Stmt>, Expr)>)
    ensures LowerOperand(body, alias, lhs).Failure? ==> r == Failure(LowerOperand(body, alias, lhs).error)
    ensures LowerOperand(body, alias, lhs).Success? && LowerOperand(body, alias, rhs).Failure? ==>
      r == Failure(LowerOperand(body, alias, rhs).error)
    ensures r.Success? ==> SupportedBinOp(op) && r.value.0.None?
    ensures r.Success? && op != M.Eq ==> r.value.1.FunctionCall? || r.value.1.UnaryOp?
    ensures LowerOperand(body, alias, lhs).Success? && LowerOperand(body, alias, rhs).Success? ==>
      var args := [LowerOperand(body, alias, lhs).value, LowerOperand(body, alias, rhs).value];
      && (op == M.BitAnd ==> r == Success((None, FunctionCallOf(Builtins.Name(Builtins.SmtBvBuiltin.And), args))))
      && (op == M.BitOr ==> r == Success((None, FunctionCallOf(Builtins.Name(Builtins.SmtBvBuiltin.Or), args))))
      && (op == M.Shl || op == M.Shr ==> (r.Success? <==> M.OperandTy(body, lhs).Success?))
      && (op == M.Shl && r.Success? ==> r.value.1 == FunctionCallOf(Builtins.Name(Builtins.Shl), args))
      && (op == M.Shr && r.Success? ==> r.value.1 == FunctionCallOf(Builtins.Name(Builtins.Shr), args))
  {
    var left :- LowerOperand(body, alias, lhs);
    var right :- LowerOperand(body, alias, rhs);
    var e :- match op
      case Eq => Success(BinaryOp(BinaryOp.Eq, left, right))
      case Add | AddUnchecked =>
        var leftTy :- M.OperandTy(body, lhs);
        var rightTy :- M.OperandTy(body, rhs);
        if rightTy != leftTy then Failure(Unsupported)
        else if leftTy.Int? || leftTy.Uint? then
          Success(BuiltinCall(Builtins.SmtBvBuiltin.Add, [left, right]))
        else Failure(Unsupported)
      case Lt | Ge =>
        var leftTy :- M.OperandTy(body, lhs);
        var rightTy :- M.OperandTy(body, rhs);
        if leftTy != rightTy then Failure(InvariantViolation)
        else
          var b :- LessThanBuiltin(leftTy);
          var call := BuiltinCall(b, [left, right]);
          Success(if op == M.Lt then call else NotOf(call))
      case BitAnd => Success(BuiltinCall(Builtins.SmtBvBuiltin.And, [left, right]))
      case BitOr => Success(BuiltinCall(Builtins.SmtBvBuiltin.Or, [left, right]))
      case Shr =>
        var leftTy :- M.OperandTy(body, lhs);
        Success(BuiltinCall(Builtins.Shr, [left, right]))
      case Shl =>
        var leftTy :- M.OperandTy(body, lhs);
        Success(BuiltinCall(Builtins.Shl, [left, right]))
      case _ => Failure(Unsupported);
    Success((None, e))
  }

  /** The integer-to-integer conversion of `e` from a `fromWidth`-bit value
      of type `fromTy` to a `toWidth`-bit value. */
  function CastBv(e: Expr, fromTy: M.Ty, fromWidth: nat, toWidth: nat): (r: Result<Expr>)
    ensures r.Success? <==> fromWidth >= toWidth || fromTy.Int? || fromTy.Uint?
    ensures r.Failure? ==> r.error == Unsupported
    ensures fromWidth == toWidth ==> r == Success(e)
    ensures forall env :: r.Success? && WidthOf(env, e) == Some(fromWidth) ==> WidthOf(env, r.value) == Some(toWidth)
  {
    if fromWidth > toWidth then Success(Extract(e, toWidth, 0))
    else if fromWidth < toWidth then
      (match fromTy
       case Int(_) => Success(SignExtend(e, toWidth - fromWidth))
       case Uint(_) => Success(ZeroExtend(e, toWidth - fromWidth))
       case _ => Failure(Unsupported))
    else Success(e)
  }

  /** `codegen_rvalue`. No r-value produces a side statement yet. A checked
      binary operation is lowered like the unchecked one, and lengths,
      discriminants and aggregates are unsupported. */
  function LowerRvalue(o: Oracles, body: M.Body, alias: AliasTable, rv: M.Rvalue)
    : (r: Result<(Option<Stmt>, Expr)>)
    ensures r.Success? ==> r.value.0.None?
    ensures rv.Use? ==>
      && (r.Success? <==> LowerOperand(body, alias, rv.operand).Success?)
      && (r.Success? ==> r.value.1 == LowerOperand(body, alias, rv.operand).value)
      && (r.Failure? ==> r.error == LowerOperand(body, alias, rv.operand).error)
    ensures rv.Ref? ==>
      && (r.Success? <==> LowerPlace(body, alias, rv.place).Success?)
      && (r.Success? ==> r.value.1 == LowerPlace(body, alias, rv.place).value)
      && (r.Failure? ==> r.error == LowerPlace(body, alias, rv.place).error)
    ensures rv.UnaryOp? ==> r == LowerUnary(body, alias, rv.unOp, rv.operand)
    ensures rv.BinaryOp? || rv.CheckedBinaryOp? ==> r == LowerBinary(body, alias, rv.binOp, rv.lhs, rv.rhs)
    ensures rv.Len? || rv.Discriminant? || rv.Aggregate? ==> r == Failure(Unsupported)
  {
    match rv
    case Use(op) =>
      var e :- LowerOperand(body, alias, op);
      Success((None, e))
    case UnaryOp(op, operand) => LowerUnary(body, alias, op, operand)
    case BinaryOp(op, lhs, rhs) => LowerBinary(body, alias, op, lhs, rhs)
    // overflow checks are not generated
    case CheckedBinaryOp(op, lhs, rhs) => LowerBinary(body, alias, op, lhs, rhs)
    case Ref(_, p) =>
      var e :- LowerPlace(body, alias, p);
      Success((None, e))
    case Cast(kind, operand, ty) =>
      if kind != M.IntToInt then Failure(Unsupported)
      else
        var fromTy :- M.OperandTy(body, operand);
        var e :- LowerOperand(body, alias, operand);
        var from :- LowerType(o, fromTy);
        var to :- LowerType(o, ty);
        if !from.Bv? || !to.Bv? then Failure(InvariantViolation)
        else
          var c :- CastBv(e, fromTy, from.width, to.width);
          Success((None, c))
    case _ => Failure(Unsupported)
  }

  /** Overflow checks are not generated: a checked binary operation lowers
      exactly as the unchecked one. */
  lemma CheckedLikeUnchecked(o: Oracles, body: M.Body, alias: AliasTable, op: M.BinOp, lhs: M.Operand, rhs: M.Operand)
    ensures LowerRvalue(o, body, alias, M.CheckedBinaryOp(op, lhs, rhs)) ==
            LowerRvalue(o, body, alias, M.BinaryOp(op, lhs, rhs))
  {
  }

  /** `Ge` is lowered to the negation of what `Lt` is lowered to: both
      succeed or fail together, and on success the first is `!` of the second. */
  lemma GeNegatesLt(body: M.Body, alias: AliasTable, lhs: M.Operand, rhs: M.Operand)
    ensures LowerBinary(body, alias, M.Ge, lhs, rhs).Success? <==>
            LowerBinary(body, alias, M.Lt, lhs, rhs).Success?
    ensures LowerBinary(body, alias, M.Ge, lhs, rhs).Success? ==>
      LowerBinary(body, alias, M.Ge, lhs, rhs).value.1 ==
        NotOf(LowerBinary(body, alias, M.Lt, lhs, rhs).value.1)
  {
  }

  /** A less-than comparison calls the signed builtin exactly when its
      operands are signed integers and the unsigned one exactly when they
      are unsigned integers; operands of different types are rejected. */
  lemma LessThanFollowsSignedness(body: M.Body, alias: AliasTable, lhs: M.Operand, rhs: M.Operand)
    requires LowerBinary(body, alias, M.Lt, lhs, rhs).Success?
    ensures M.OperandTy(body, lhs).Success? && M.OperandTy(body, rhs) == M.OperandTy(body, lhs)
    ensures var e := LowerBinary(body, alias, M.Lt, lhs, rhs).value.1;
      var ty := M.OperandTy(body, lhs).value;
      && e.FunctionCall?
      && e.arguments == [LowerOperand(body, alias, lhs).value, LowerOperand(body, alias, rhs).value]
      && (e.symbol == Builtins.Name(Builtins.SignedLessThan) <==> ty.Int?)
      && (e.symbol == Builtins.Name(Builtins.UnsignedLessThan) <==> ty.Uint?)
  {
  }

  /** A comparison `<` or `>=` lowers exactly when both operands have one
      integer type. Operands of different types break the translator's
      `assert_eq!`, and a common non-integer type is not supported yet. */
  lemma LessThanSucceedsForIntegers(body: M.Body, alias: AliasTable, op: M.BinOp, lhs: M.Operand, rhs: M.Operand)
    requires op == M.Lt || op == M.Ge
    requires LowerOperand(body, alias, lhs).Success? && LowerOperand(body, alias, rhs).Success?
    requires M.OperandTy(body, lhs).Success? && M.OperandTy(body, rhs).Success?
    ensures LowerBinary(body, alias, op, lhs, rhs).Success? <==>
      M.OperandTy(body, lhs) == M.OperandTy(body, rhs) &&
      (M.OperandTy(body, lhs).value.Int? || M.OperandTy(body, lhs).value.Uint?)
    ensures M.OperandTy(body, lhs) != M.OperandTy(body, rhs) ==>
      LowerBinary(body, alias, op, lhs, rhs) == Failure(InvariantViolation)
    ensures M.OperandTy(body, lhs) == M.OperandTy(body, rhs) &&
            !(M.OperandTy(body, lhs).value.Int? || M.OperandTy(body, lhs).value.Uint?) ==>
      LowerBinary(body, alias, op, lhs, rhs) == Failure(Unsupported)
  {
  }

  /** Addition is a call of the `$BvAdd` builtin and is accepted only for
      two operands of the same integer type. */
  lemma AddRequiresEqualIntegerTypes(body: M.Body, alias: AliasTable, op: M.BinOp, lhs: M.Operand, rhs: M.Operand)
    requires op == M.Add || op == M.AddUnchecked
    requires LowerOperand(body, alias, lhs).Success? && LowerOperand(body, alias, rhs).Success?
    requires M.OperandTy(body, lhs).Success? && M.OperandTy(body, rhs).Success?
    ensures LowerBinary(body, alias, op, lhs, rhs).Success? <==>
      M.OperandTy(body, lhs) == M.OperandTy(body, rhs) &&
      (M.OperandTy(body, lhs).value.Int? || M.OperandTy(body, lhs).value.Uint?)
    ensures LowerBinary(body, alias, op, lhs, rhs).Success? ==>
      LowerBinary(body, alias, op, lhs, rhs).value.1 ==
        FunctionCall(Builtins.Name(Builtins.SmtBvBuiltin.Add),
          [LowerOperand(body, alias, lhs).value, LowerOperand(body, alias, rhs).value])
  {
  }

  /** The binary operators with a lowering; every other operator fails
      even when both operands lower. */
  predicate SupportedBinOp(op: M.BinOp) {
    op in {M.Eq, M.Add, M.AddUnchecked, M.Lt, M.Ge, M.BitAnd, M.BitOr, M.Shl, M.Shr}
  }

  lemma UnsupportedBinOpFails(body: M.Body, alias: AliasTable, op: M.BinOp, lhs: M.Operand, rhs: M.Operand)
    ensures !SupportedBinOp(op) ==> LowerBinary(body, alias, op, lhs, rhs).Failure?
    ensures op == M.Eq && LowerOperand(body, alias, lhs).Success? && LowerOperand(body, alias, rhs).Success? ==>
      LowerBinary(body, alias, op, lhs, rhs) ==
        Success((None, BinaryOp(BinaryOp.Eq, LowerOperand(body, alias, lhs).value, LowerOperand(body, alias, rhs).value)))
  {
  }

  /** Arithmetic negation is a call of the `BvNot` builtin on the one
      operand; logical not is Boogie's own `!`. */
  lemma NegationsLowering(body: M.Body, alias: AliasTable, operand: M.Operand)
    requires LowerOperand(body, alias, operand).Success?
    ensures var e := LowerOperand(body, alias, operand).value;
      LowerUnary(body, alias, M.UnOp.Neg, operand) == Success((None, FunctionCall("BvNot", [e])))
    ensures var e := LowerOperand(body, alias, operand).value;
      LowerUnary(body, alias, M.UnOp.Not, operand) == Success((None, UnaryOp(UnaryOp.Not, e)))
  {
  }

  /** An integer-to-integer cast between integer types compares widths:
      narrowing extracts the low `to` bits, widening sign-extends a signed
      source and zero-extends an unsigned one by `to - from` bits, and equal
      widths give the operand itself, with no wrapper node. */
  lemma IntCastShapes(o: Oracles, body: M.Body, alias: AliasTable, operand: M.Operand, ty: M.Ty)
    requires M.OperandTy(body, operand).Success?
    requires M.OperandTy(body, operand).value.Int? || M.OperandTy(body, operand).value.Uint?
    requires ty.Int? || ty.Uint?
    requires LowerOperand(body, alias, operand).Success?
    ensures var fromTy := M.OperandTy(body, operand).value;
      var from := IntegerWidth(fromTy).value;
      var to := IntegerWidth(ty).value;
      var e := LowerOperand(body, alias, operand).value;
      var r := LowerRvalue(o, body, alias, M.Cast(M.IntToInt, operand, ty));
      && (from > to ==> r == Success((None, Extract(e, to, 0))))
      && (from < to && fromTy.Int? ==> r == Success((None, SignExtend(e, to - from))))
      && (from < to && fromTy.Uint? ==> r == Success((None, ZeroExtend(e, to - from))))
      && (from == to ==> r == Success((None, e)))
  {
    BitVectorIffInteger(o, M.OperandTy(body, operand).value);
    BitVectorIffInteger(o, ty);
  }

  /** The bit-vector width of an expression, given the widths of the
      variables it mentions, for the shapes that denote bit-vectors. */
  function WidthOf(env: map<string, nat>, e: Expr): Option<nat> {
    match e
    case Symbol(n) => if n in env then Some(env[n]) else None
    case Literal(lit) => if lit.Bv? then Some(lit.width) else None
    case Extract(base, high, low) =>
      var w := WidthOf(env, base);
      if w.Some? && low <= high <= w.value then Some(high - low) else None
    case SignExtend(base, n) =>
      var w := WidthOf(env, base);
      if w.Some? then Some(w.value + n) else None
    case ZeroExtend(base, n) =>
      var w := WidthOf(env, base);
      if w.Some? then Some(w.value + n) else None
    case _ => None
  }

  /** A cast between types that denote machine integers fails only when it
      widens a source that is not itself an integer type (a shared
      reference or a tuple around one). */
  lemma IntegerCastSucceeds(o: Oracles, body: M.Body, alias: AliasTable, operand: M.Operand, ty: M.Ty)
    requires M.OperandTy(body, operand).Success?
    requires IntegerWidth(M.OperandTy(body, operand).value).Some? && IntegerWidth(ty).Some?
    requires LowerOperand(body, alias, operand).Success?
    ensures var fromTy := M.OperandTy(body, operand).value;
      LowerRvalue(o, body, alias, M.Cast(M.IntToInt, operand, ty)).Success? <==>
        (fromTy.Int? || fromTy.Uint? || IntegerWidth(fromTy).value >= IntegerWidth(ty).value)
  {
    BitVectorIffInteger(o, M.OperandTy(body, operand).value);
    BitVectorIffInteger(o, ty);
  }

  /** A cast between types that denote machine integers produces a value of
      exactly the target's width from an operand of the source's width. */
  lemma CastProducesTargetWidth(o: Oracles, body: M.Body, alias: AliasTable, env: map<string, nat>,
                                operand: M.Operand, ty: M.Ty)
    requires M.OperandTy(body, operand).Success?
    requires IntegerWidth(M.OperandTy(body, operand).value).Some? && IntegerWidth(ty).Some?
    requires LowerOperand(body, alias, operand).Success?
    requires WidthOf(env, LowerOperand(body, alias, operand).value) ==
             IntegerWidth(M.OperandTy(body, operand).value)
    requires LowerRvalue(o, body, alias, M.Cast(M.IntToInt, operand, ty)).Success?
    ensures WidthOf(env, LowerRvalue(o, body, alias, M.Cast(M.IntToInt, operand, ty)).value.1) == IntegerWidth(ty)
  {
    var fromTy := M.OperandTy(body, operand).value;
    BitVectorIffInteger(o, fromTy);
    BitVectorIffInteger(o, ty);
    var e := LowerOperand(body, alias, operand).value;
    var from := IntegerWidth(fromTy).value;
    var to := IntegerWidth(ty).value;
    assert LowerRvalue(o, body, alias, M.Cast(M.IntToInt, operand, ty)) ==
      Success((None, CastBv(e, fromTy, from, to).value));
  }

  /** A cast from or to a type that does not denote a machine integer
      fails, as does every cast that is not integer-to-integer. */
  lemma NonIntegerCastFails(o: Oracles, body: M.Body, alias: AliasTable, kind: M.CastKind, operand: M.Operand, ty: M.Ty)
    requires M.OperandTy(body, operand).Success?
    requires kind != M.IntToInt || IntegerWidth(M.OperandTy(body, operand).value).None? || IntegerWidth(ty).None?
    ensures LowerRvalue(o, body, alias, M.Cast(kind, operand, ty)).Failure?
  {
    BitVectorIffInteger(o, M.OperandTy(body, operand).value);
    BitVectorIffInteger(o, ty);
  }

  /** Every function call produced by r-value lowering is a call of a
      builtin of the catalog, provided the alias table holds call-free
      expressions (as it always does: it only records lowered places). */
  lemma RvalueCallsOnlyBuiltins(o: Oracles, body: M.Body, alias: AliasTable, rv: M.Rvalue)
    requires AliasesCallFree(alias)
    requires LowerRvalue(o, body, alias, rv).Success?
    ensures CallsOnlyBuiltins(LowerRvalue(o, body, alias, rv).value.1)
  {
    var e := LowerRvalue(o, body, alias, rv).value.1;
    match rv
    case Use(op) =>
      CallFreeCallsOnlyBuiltins(e);
    case Ref(_, p) =>
      CallFreeCallsOnlyBuiltins(e);
    case UnaryOp(op, operand) =>
      var x := LowerOperand(body, alias, operand).value;
      CallFreeCallsOnlyBuiltins(x);
      Builtins.NamesIdentifyBuiltins(Builtins.SmtBvBuiltin.Not);
    case BinaryOp(op, lhs, rhs) =>
      BinaryCallsOnlyBuiltins(body, alias, op, lhs, rhs);
    case CheckedBinaryOp(op, lhs, rhs) =>
      BinaryCallsOnlyBuiltins(body, alias, op, lhs, rhs);
    case Cast(_, operand, _) =>
      var x := LowerOperand(body, alias, operand).value;
      CallFreeCallsOnlyBuiltins(x);
    case _ =>
  }

  lemma BinaryCallsOnlyBuiltins(body: M.Body, alias: AliasTable, op: M.BinOp, lhs: M.Operand, rhs: M.Operand)
    requires AliasesCallFree(alias)
    requires LowerBinary(body, alias, op, lhs, rhs).Success?
    ensures CallsOnlyBuiltins(LowerBinary(body, alias, op, lhs, rhs).value.1)
  {
    var l := LowerOperand(body, alias, lhs).value;
    var r := LowerOperand(body, alias, rhs).value;
    CallFreeCallsOnlyBuiltins(l);
    CallFreeCallsOnlyBuiltins(r);
    forall b: Builtins.SmtBvBuiltin ensures Builtins.FromName(Builtins.Name(b)).Some? {
      Builtins.NamesIdentifyBuiltins(b);
    }
  }
}
