/** Concrete translations: small MIR fragments and what they lower to, with
    collaborators that report no type as zero-sized, normalise every type
    to itself and know no intrinsic. */
module Scenarios {
  import opened Results
  import opened BoogieAst
  import M = Mir
  import opened Names
  import opened External
  import opened TypeLowering
  import opened ExprLowering
  import opened StmtLowering

  /** Collaborators with no intrinsics and no zero-sized types. */
  function PlainOracles(): (o: Oracles)
    ensures forall t :: !o.isZst(t)
    ensures forall i :: o.intrinsicOf(i).None?
  {
    Oracles(
      t => false,
      (i, t) => t,
      i => M.Body([], []),
      i => "f",
      (d: nat, ts: seq<M.Ty>) => Instance(d),
      i => None,
      (name, i, args, dest, target) => Failure(Unsupported),
      e => "")
  }

  /** Locals of a small function: `_0: u32`, `_1: &mut u32`, `_2: bool`,
      `_3: i8`, `_4: i32`, `_5: u8`, `_6: &mut i32`. */
  const LOCALS: seq<M.Ty> := [
    M.Uint(M.U32), M.Ty.Ref(M.Mut, M.Uint(M.U32)), M.Ty.Bool, M.Int(M.I8),
    M.Int(M.I32), M.Uint(M.U8), M.Ty.Ref(M.Mut, M.Int(M.I32))]

  function Local(l: M.Local): M.Operand {
    M.Copy(M.Place(l, []))
  }

  function U32Const(v: M.U128): M.Operand {
    M.Constant(M.Val(M.Scalar(M.ScalarInt(v)), M.Uint(M.U32)))
  }

  /** Locals are named `_N` and blocks `bbN`. */
  lemma DebugNames()
    ensures LocalName(0) == "_0" && LocalName(12) == "_12"
    ensures BlockLabel(3) == "bb3"
  {
  }

  /** `_1 = &mut _0; (*_1) = const 5_u32` becomes `Null` followed by an
      assignment to `_0`; `_1` is never written. */
  lemma ReferenceThenWriteThrough()
    ensures LowerStatements(PlainOracles(), M.Body(LOCALS, []), map[],
        [M.Assign(M.Place(1, []), M.Rvalue.Ref(M.Mut, M.Place(0, []))),
         M.Assign(M.Place(1, [M.Deref]), M.Use(U32Const(5)))])
      == Success(([Null, Assignment(LocalName(0), Literal(Literal.Bv(32, 5)))],
                  map[M.Place(1, []) := Symbol(LocalName(0))]))
  {
    var body := M.Body(LOCALS, []);
    var after := map[M.Place(1, []) := Symbol(LocalName(0))];
    assert LowerPlace(body, map[], M.Place(0, [])) == Success(Symbol(LocalName(0)));
    assert map[][M.Place(1, []) := Symbol(LocalName(0))] == after;
    assert LowerRvalue(PlainOracles(), body, after, M.Use(U32Const(5)))
      == Success((None, Literal(Literal.Bv(32, 5))));
    RefThenDerefWritesReferent(PlainOracles(), body, map[], 1, M.Mut, M.Place(0, []), M.Use(U32Const(5)));
  }

  /** Writing through a reference that was never taken is malformed MIR. */
  lemma WriteThroughUnknownReference()
    ensures LowerStatement(PlainOracles(), M.Body(LOCALS, []), map[],
              M.Assign(M.Place(1, [M.Deref]), M.Use(U32Const(5))))
      == Failure(InvariantViolation)
  {
  }

  /** A block without statements is its labelled terminator. */
  lemma EmptyBlockIsLabelledTerminator()
    ensures LowerBlock(PlainOracles(), M.Body(LOCALS, []), map[], M.BasicBlock(4, [], M.Goto(7)))
      == Success((Label(BlockLabel(4), Goto(BlockLabel(7))), map[]))
  {
  }

  /** `switchInt(_2) -> [0: bb2, otherwise: bb1]` on a boolean. */
  lemma BoolSwitch()
    ensures LowerTerminator(PlainOracles(), M.Body(LOCALS, []), map[],
              M.SwitchInt(Local(2), M.SwitchTargets([(0, 2)], 1)))
      == Success(If(BinaryOp(BinaryOp.Eq, Symbol(LocalName(2)), Literal(Literal.Bool(false))),
                    Goto(BlockLabel(2)), Some(Goto(BlockLabel(1)))))
  {
  }

  /** An unsigned switch compares against a 128-bit literal, whatever the
      discriminant's width; three targets are unsupported. */
  lemma UintSwitch()
    ensures LowerTerminator(PlainOracles(), M.Body(LOCALS, []), map[],
              M.SwitchInt(Local(0), M.SwitchTargets([(7, 3)], 4)))
      == Success(If(BinaryOp(BinaryOp.Eq, Symbol(LocalName(0)), Literal(Literal.Bv(128, 7))),
                    Goto(BlockLabel(3)), Some(Goto(BlockLabel(4)))))
    ensures LowerTerminator(PlainOracles(), M.Body(LOCALS, []), map[],
              M.SwitchInt(Local(0), M.SwitchTargets([(7, 3), (8, 5)], 4)))
      == Failure(Unsupported)
  {
  }

  /** `i32 as i8` extracts the low 8 bits. */
  lemma NarrowingCast()
    ensures LowerRvalue(PlainOracles(), M.Body(LOCALS, []), map[], M.Cast(M.IntToInt, Local(4), M.Int(M.I8)))
      == Success((None, Extract(Symbol(LocalName(4)), 8, 0)))
  {
  }

  /** `u8 as u32` zero-extends by 24 bits. */
  lemma UnsignedWideningCast()
    ensures LowerRvalue(PlainOracles(), M.Body(LOCALS, []), map[], M.Cast(M.IntToInt, Local(5), M.Uint(M.U32)))
      == Success((None, ZeroExtend(Symbol(LocalName(5)), 24)))
  {
  }

  /** `i8 as i32` sign-extends by 24 bits. */
  lemma SignedWideningCast()
    ensures LowerRvalue(PlainOracles(), M.Body(LOCALS, []), map[], M.Cast(M.IntToInt, Local(3), M.Int(M.I32)))
      == Success((None, SignExtend(Symbol(LocalName(3)), 24)))
  {
  }

  /** `u32 as u32` is the operand itself; a pointer cast is unsupported. */
  lemma TrivialAndPointerCasts()
    ensures LowerRvalue(PlainOracles(), M.Body(LOCALS, []), map[], M.Cast(M.IntToInt, Local(0), M.Uint(M.U32)))
      == Success((None, Symbol(LocalName(0))))
    ensures LowerRvalue(PlainOracles(), M.Body(LOCALS, []), map[], M.Cast(M.PtrToPtr, Local(0), M.Uint(M.U32)))
      == Failure(Unsupported)
  {
  }

  /** `_0 < const 5_u32` is an unsigned comparison. */
  lemma UnsignedLessThan()
    ensures LowerRvalue(PlainOracles(), M.Body(LOCALS, []), map[], M.BinaryOp(M.Lt, Local(0), U32Const(5)))
      == Success((None, FunctionCall("$BvUnsignedLessThan", [Symbol(LocalName(0)), Literal(Literal.Bv(32, 5))])))
  {
  }

  /** `_4 >= _4` is the negation of a signed comparison. */
  lemma SignedGreaterOrEqual()
    ensures LowerRvalue(PlainOracles(), M.Body(LOCALS, []), map[], M.BinaryOp(M.Ge, Local(4), Local(4)))
      == Success((None, UnaryOp(UnaryOp.Not,
           FunctionCall("$BvSignedLessThan", [Symbol(LocalName(4)), Symbol(LocalName(4))]))))
  {
  }

  /** Subtraction is unsupported. */
  lemma SubtractionUnsupported()
    ensures LowerRvalue(PlainOracles(), M.Body(LOCALS, []), map[], M.BinaryOp(M.Sub, Local(0), Local(0)))
      == Failure(Unsupported)
  {
  }

  /** A call of a function that is not an intrinsic is unsupported. */
  lemma CallOfOrdinaryFunction()
    ensures LowerTerminator(PlainOracles(), M.Body(LOCALS, []), map[],
              M.Call(M.Constant(M.Unevaluated(M.FnDef(9, []))), [], M.Place(0, []), Some(1)))
      == Failure(Unsupported)
  {
  }

  /** The mutable reference gets no variable; the other locals are
      declared at their lowered types. */
  lemma Declarations()
    ensures DeclareVariables(PlainOracles(), Instance(0), M.Body(LOCALS[..3], []))
      == Success([Decl(LocalName(0), Type.Bv(32)), Decl(LocalName(2), Type.Bool)])
  {
    var o := PlainOracles();
    var ls := LOCALS[..3];
    assert ls == [M.Uint(M.U32), M.Ty.Ref(M.Mut, M.Uint(M.U32)), M.Ty.Bool];
    assert DeclsFrom(o, Instance(0), ls, 3) == Success([]);
    assert o.normalize(Instance(0), ls[2]) == M.Ty.Bool && Kept(o, Instance(0), ls[2]);
    assert LocalDecl(o, Instance(0), 2, ls[2]) == Success(Decl(LocalName(2), Type.Bool));
    assert [Decl(LocalName(2), Type.Bool)] + [] == [Decl(LocalName(2), Type.Bool)];
    assert DeclsFrom(o, Instance(0), ls, 2) == Success([Decl(LocalName(2), Type.Bool)]);
    assert o.normalize(Instance(0), ls[1]) == ls[1] && !Kept(o, Instance(0), ls[1]);
    assert DeclsFrom(o, Instance(0), ls, 1) == Success([Decl(LocalName(2), Type.Bool)]);
    assert o.normalize(Instance(0), ls[0]) == ls[0] && Kept(o, Instance(0), ls[0]);
    assert LocalDecl(o, Instance(0), 0, ls[0]) == Success(Decl(LocalName(0), Type.Bv(32)));
    assert [Decl(LocalName(0), Type.Bv(32))] + [Decl(LocalName(2), Type.Bool)]
      == [Decl(LocalName(0), Type.Bv(32)), Decl(LocalName(2), Type.Bool)];
    assert DeclsFrom(o, Instance(0), ls, 0) == Success([Decl(LocalName(0), Type.Bv(32)), Decl(LocalName(2), Type.Bool)]);
    assert M.Body(LOCALS[..3], []).localDecls == ls;
  }

  /** The array abstraction `kani::array::Array<u8>`, with one
      `PhantomData` marker field, is `$UnboundedArray bv8`. */
  lemma UnboundedArrayType()
    ensures var phantom := M.Adt(M.AdtDef(M.PHANTOM_DATA_PATH, M.Struct, []), [M.Uint(M.U8)]);
      var fields := [M.FieldDef("data", M.Uint(M.U64)), M.FieldDef("marker", phantom)];
      var o := PlainOracles().(isZst := t => t == phantom);
      LowerType(o, M.Adt(M.AdtDef(KANI_ARRAY_PATH, M.Struct, fields), [M.Uint(M.U8)]))
        == Success(DataType("$UnboundedArray", [Type.Bv(8)]))
  {
    var phantom := M.Adt(M.AdtDef(M.PHANTOM_DATA_PATH, M.Struct, []), [M.Uint(M.U8)]);
    var fields := [M.FieldDef("data", M.Uint(M.U64)), M.FieldDef("marker", phantom)];
    var o := PlainOracles().(isZst := t => t == phantom);
    assert fields[1..] == [fields[1]] && fields[1..][1..] == [];
    assert ZstFields(o, fields[1..][1..]) == [];
    assert ZstFields(o, fields[1..]) == [fields[1]];
    assert ZstFields(o, fields) == [fields[1]];
  }

  /** A body of one basic block is a block holding one labelled statement:
      the body is built as a block directly, not through `BlockOf`, so it
      is not canonical. */
  lemma OneBlockBody()
    ensures LowerBody(PlainOracles(), M.Body(LOCALS, [M.BasicBlock(0, [], M.Return)]))
      == Success(Block([Label("bb0", Return)]))
    ensures !Canonical(Block([Label("bb0", Return)]))
  {
    var body := M.Body(LOCALS, [M.BasicBlock(0, [], M.Return)]);
    assert BlockLabel(0) == "bb0";
    assert LowerBlock(PlainOracles(), body, map[], body.blocks[0]) == Success((Label("bb0", Return), map[]));
    assert body.blocks[1..] == [];
  }
}
