/** Lowering of statements, terminators, basic blocks and whole function
    bodies. Each basic block becomes a run of statements whose first element
    carries the block's label and whose last element is the lowered
    terminator, a jump to the labels of its successors. The alias table is
    threaded left to right through every statement of every block, in the
    order the blocks are visited. */
module StmtLowering {
  import opened Results
  import opened BoogieAst
  import M = Mir
  import opened Names
  import opened External
  import opened TypeLowering
  import opened ExprLowering
  import opened SeqFacts

  /** `add_statement`: `s2` preceded by the side statement `s1`, if any. The
      result stands for the straight-line sequence of `s1` followed by `s2`. */
  function AddStatement(s1: Option<Stmt>, s2: Stmt): (r: Stmt)
    ensures s1.None? ==> r == s2
    ensures s1.Some? && s1.value.Block? ==> r == Block(s1.value.statements + [s2])
    ensures s1.Some? && !s1.value.Block? ==> r == Block([s1.value, s2])
    ensures Linearize(r) == (if s1.Some? then Linearize(s1.value) else []) + Linearize(s2)
  {
    assert LinearizeAll([s2]) == Linearize(s2) + LinearizeAll([]);
    match s1
    case None => s2
    case Some(first) =>
      (match first
       case Block(ss) =>
         LinearizeAllAppend(ss, [s2]);
         Block(ss + [s2])
       case _ =>
         assert [first, s2][1..] == [s2];
         Block([first, s2]))
  }

  /** `is_deref`: the place is `*l` for a local `l`. */
  function IsDeref(p: M.Place): (b: bool)
    ensures b <==> p.projection == [M.Deref]
  {
    |p.projection| == 1 && p.projection[0] == M.Deref
  }

  /** The place that holds the reference a `*l` place goes through. */
  function ReferencePlace(p: M.Place): M.Place {
    M.Place(p.local, [])
  }

  /** `codegen_statement`. Taking a reference emits nothing and records the
      referent's expression under the destination place; an assignment
      through `*l` writes the expression recorded for `l`, which must exist;
      any other assignment writes the destination's local. The table only
      ever grows, and only a reference assignment changes it. */
  function LowerStatement(o: Oracles, body: M.Body, alias: AliasTable, s: M.Statement)
    : (r: Result<(Stmt, AliasTable)>)
    ensures !s.Assign? ==> r == Failure(Unsupported)
    ensures r.Success? ==> alias.Keys <= r.value.1.Keys && !r.value.0.Label?
    ensures r.Success? && AliasesCallFree(alias) ==> AliasesCallFree(r.value.1)
    ensures s.Assign? && s.rvalue.Ref? ==>
      (r.Success? <==> LowerPlace(body, alias, s.rvalue.place).Success?)
    ensures r.Success? && s.rvalue.Ref? ==>
      r.value == (Null, alias[s.place := LowerPlace(body, alias, s.rvalue.place).value])
    ensures s.Assign? && s.rvalue.Ref? && LowerPlace(body, alias, s.rvalue.place).Failure? ==>
      r == Failure(LowerPlace(body, alias, s.rvalue.place).error)
    ensures s.Assign? && !s.rvalue.Ref? && IsDeref(s.place) && ReferencePlace(s.place) !in alias ==>
      r == Failure(InvariantViolation)
    ensures s.Assign? && !s.rvalue.Ref? && (!IsDeref(s.place) || ReferencePlace(s.place) in alias) ==>
      && (r.Success? <==> LowerRvalue(o, body, alias, s.rvalue).Success?)
      && (r.Failure? ==> r.error == LowerRvalue(o, body, alias, s.rvalue).error)
    ensures r.Success? && !s.rvalue.Ref? ==>
      && r.value.1 == alias
      && LowerRvalue(o, body, alias, s.rvalue).Success?
      && r.value.0 == Assignment(
           if IsDeref(s.place) then Render(o, alias[ReferencePlace(s.place)]) else LocalName(s.place.local),
           LowerRvalue(o, body, alias, s.rvalue).value.1)
  {
    match s
    case Assign(place, rvalue) =>
      if rvalue.Ref? then
        var e :- LowerPlace(body, alias, rvalue.place);
        Success((Null, alias[place := e]))
      else if IsDeref(place) then
        var key := ReferencePlace(place);
        if key !in alias then Failure(InvariantViolation)
        else
          var target := Render(o, alias[key]);
          var rv :- LowerRvalue(o, body, alias, rvalue);
          Success((AddStatement(rv.0, Assignment(target, rv.1)), alias))
      else
        var rv :- LowerRvalue(o, body, alias, rvalue);
        Success((AddStatement(rv.0, Assignment(LocalName(place.local), rv.1)), alias))
    case _ => Failure(Unsupported)
  }

  /** The statements of a block lowered in order, each under the table left
      by the ones before it. Lowering fails unless every statement is an
      assignment. */
  function LowerStatements(o: Oracles, body: M.Body, alias: AliasTable, ss: seq<M.Statement>)
    : (r: Result<(seq<Stmt>, AliasTable)>)
    ensures r.Success? ==> |r.value.0| == |ss|
    ensures r.Success? ==> forall i :: 0 <= i < |r.value.0| ==> !r.value.0[i].Label?
    ensures r.Success? ==> forall i :: 0 <= i < |ss| ==> ss[i].Assign?
    ensures r.Success? ==> alias.Keys <= r.value.1.Keys
    ensures r.Success? && AliasesCallFree(alias) ==> AliasesCallFree(r.value.1)
    decreases |ss|
  {
    if |ss| == 0 then Success(([], alias))
    else
      var first :- LowerStatement(o, body, alias, ss[0]);
      var rest :- LowerStatements(o, body, first.1, ss[1..]);
      assert forall i :: 1 <= i < |ss| ==> ss[i] == ss[1..][i - 1];
      Success(([first.0] + rest.0, rest.1))
  }

  /** `s` put in front of the statements of a successful lowering. */
  function Prepend(s: Stmt, r: Result<(seq<Stmt>, AliasTable)>): Result<(seq<Stmt>, AliasTable)> {
    if r.Success? then Success(([s] + r.value.0, r.value.1)) else Failure(r.error)
  }

  lemma LowerStatementsStep(o: Oracles, body: M.Body, alias: AliasTable, ss: seq<M.Statement>)
    requires |ss| > 0 && LowerStatement(o, body, alias, ss[0]).Success?
    ensures var f := LowerStatement(o, body, alias, ss[0]).value;
      LowerStatements(o, body, alias, ss) == Prepend(f.0, LowerStatements(o, body, f.1, ss[1..]))
  {
  }

  /** The result of lowering `a` and then `b` from where `a` left off. */
  function Sequenced(ra: (seq<Stmt>, AliasTable), rb: Result<(seq<Stmt>, AliasTable)>)
    : Result<(seq<Stmt>, AliasTable)>
  {
    if rb.Success? then Success((ra.0 + rb.value.0, rb.value.1)) else Failure(rb.error)
  }

  /** Putting `s` in front of a sequenced result is sequencing after
      `s` has been put in front of the first part. */
  lemma PrependSequenced(s: Stmt, ra: (seq<Stmt>, AliasTable), rb: Result<(seq<Stmt>, AliasTable)>)
    ensures Prepend(s, Sequenced(ra, rb)) == Sequenced(([s] + ra.0, ra.1), rb)
  {
    if rb.Success? {
      assert [s] + (ra.0 + rb.value.0) == ([s] + ra.0) + rb.value.0;
    }
  }

  /** Lowering a concatenation lowers the first part and then the second
      under the table the first part left. */
  lemma {:induction false} LowerStatementsAppend(o: Oracles, body: M.Body, alias: AliasTable,
                                                 a: seq<M.Statement>, b: seq<M.Statement>)
    requires LowerStatements(o, body, alias, a).Success?
    ensures var ra := LowerStatements(o, body, alias, a).value;
      LowerStatements(o, body, alias, a + b) == Sequenced(ra, LowerStatements(o, body, ra.1, b))
    decreases |a|, 1
  {
    if |a| == 0 {
      assert a + b == b;
      var rb := LowerStatements(o, body, alias, b);
      if rb.Success? {
        assert [] + rb.value.0 == rb.value.0;
      }
    } else {
      LowerStatementsAppendCons(o, body, alias, a, b);
    }
  }

  lemma {:induction false} LowerStatementsAppendCons(o: Oracles, body: M.Body, alias: AliasTable,
                                                     a: seq<M.Statement>, b: seq<M.Statement>)
    requires |a| > 0 && LowerStatements(o, body, alias, a).Success?
    ensures var ra := LowerStatements(o, body, alias, a).value;
      LowerStatements(o, body, alias, a + b) == Sequenced(ra, LowerStatements(o, body, ra.1, b))
    decreases |a|, 0
  {
    ConsAppend(a, b);
    var f := LowerStatement(o, body, alias, a[0]).value;
    LowerStatementsStep(o, body, alias, a);
    LowerStatementsStep(o, body, alias, a + b);
    var restA := LowerStatements(o, body, f.1, a[1..]).value;
    LowerStatementsAppend(o, body, f.1, a[1..], b);
    PrependSequenced(f.0, restA, LowerStatements(o, body, restA.1, b));
  }

  /** The alias table removes one level of indirection: after `r = &x`,
      an assignment through `*r` writes what `x` lowers to, and the
      reference assignment itself emits nothing. For a bare local `x` with
      no alias of its own, the write goes to `x`'s variable. */
  lemma RefThenDerefWritesReferent(o: Oracles, body: M.Body, alias: AliasTable, r: M.Local,
                                   m: M.Mutability, x: M.Place, rv: M.Rvalue)
    requires !rv.Ref?
    requires LowerPlace(body, alias, x).Success?
    requires LowerRvalue(o, body, alias[M.Place(r, []) := LowerPlace(body, alias, x).value], rv).Success?
    ensures var e := LowerPlace(body, alias, x).value;
      var after := alias[M.Place(r, []) := e];
      var v := LowerRvalue(o, body, after, rv).value.1;
      LowerStatements(o, body, alias, [M.Statement.Assign(M.Place(r, []), M.Rvalue.Ref(m, x)), M.Statement.Assign(M.Place(r, [M.Deref]), rv)])
        == Success(([Null, Assignment(Render(o, e), v)], after))
    ensures x.projection == [] && x !in alias ==> Render(o, LowerPlace(body, alias, x).value) == LocalName(x.local)
  {
    var ss: seq<M.Statement> := [M.Statement.Assign(M.Place(r, []), M.Rvalue.Ref(m, x)), M.Statement.Assign(M.Place(r, [M.Deref]), rv)];
    var e := LowerPlace(body, alias, x).value;
    var after := alias[M.Place(r, []) := e];
    var v := LowerRvalue(o, body, after, rv).value.1;
    assert LowerStatement(o, body, alias, ss[0]) == Success((Null, after));
    assert IsDeref(ss[1].place) && ReferencePlace(ss[1].place) == M.Place(r, []);
    assert LowerStatement(o, body, after, ss[1]) == Success((Assignment(Render(o, e), v), after));
    LowerStatementsStep(o, body, alias, ss);
    assert ss[1..] == [ss[1]];
    LowerStatementsStep(o, body, after, ss[1..]);
    assert ss[1..][1..] == [];
    assert LowerStatements(o, body, after, ss[1..][1..]) == Success(([], after));
    assert [Assignment(Render(o, e), v)] + [] == [Assignment(Render(o, e), v)];
    assert LowerStatements(o, body, after, ss[1..]) == Success(([Assignment(Render(o, e), v)], after));
    assert [Null] + [Assignment(Render(o, e), v)] == [Null, Assignment(Render(o, e), v)];
  }

  /** The literal a two-way switch compares its discriminant against. */
  predicate ArmLiteral(lit: Literal, ty: M.Ty, v: M.U128) {
    if ty.Bool? then lit == Literal.Bool(v != 0)
    else ty.Uint? && lit.Bv? && lit.width == 128 && lit.value == v
  }

  /** `codegen_switch_int`: a switch with one arm and a default becomes an
      `if` that jumps to the arm's block when the discriminant equals the
      arm's value and to the default block otherwise. The value is compared
      as a boolean for a `bool` discriminant and as a 128-bit vector for an
      unsigned one. Any other discriminant type, a signed integer or a
      `char` included, reaches the translator's `unreachable!()`, and more
      arms are unsupported. */
  function LowerSwitchInt(body: M.Body, alias: AliasTable, discr: M.Operand, targets: M.SwitchTargets)
    : (r: Result<Stmt>)
    ensures LowerOperand(body, alias, discr).Success? && |targets.values| != 1 ==>
      r == Failure(Unsupported)
    ensures LowerOperand(body, alias, discr).Success? && |targets.values| == 1 &&
            M.OperandTy(body, discr).Success? ==>
      (r.Success? <==> M.OperandTy(body, discr).value.Bool? || M.OperandTy(body, discr).value.Uint?)
    ensures LowerOperand(body, alias, discr).Success? && |targets.values| == 1 &&
            M.OperandTy(body, discr).Success? &&
            !(M.OperandTy(body, discr).value.Bool? || M.OperandTy(body, discr).value.Uint?) ==>
      r == Failure(InvariantViolation)
    ensures r.Success? ==>
      && |targets.values| == 1
      && M.OperandTy(body, discr).Success?
      && r.value.If?
      && r.value.condition.BinaryOp?
      && r.value.condition.binaryOp == BinaryOp.Eq
      && LowerOperand(body, alias, discr).Success?
      && r.value.condition.left == LowerOperand(body, alias, discr).value
      && r.value.condition.right.Literal?
      && ArmLiteral(r.value.condition.right.lit, M.OperandTy(body, discr).value, targets.values[0].0)
      && r.value.body == Goto(BlockLabel(targets.values[0].1))
      && r.value.elseBody == Some(Goto(BlockLabel(targets.otherwise)))
  {
    var op :- LowerOperand(body, alias, discr);
    if |M.AllTargets(targets)| != 2 then Failure(Unsupported)
    else
      var arm := targets.values[0];
      var ty :- M.OperandTy(body, discr);
      var lit :- match ty
        case Bool => Success(Literal.Bool(arm.0 != 0))
        case Uint(_) => Success(BvLiteral(128, arm.0))
        case _ => Failure(InvariantViolation);
      Success(If(BinaryOp(BinaryOp.Eq, op, Literal(lit)),
                 Goto(BlockLabel(arm.1)),
                 Some(Goto(BlockLabel(targets.otherwise)))))
  }

  /** `codegen_funcall`: only calls of intrinsics are lowered, by the
      intrinsic's own lowering; a call of any other function, or through a
      callee that is not a function definition, is unsupported. */
  function LowerCall(o: Oracles, body: M.Body, func: M.Operand, args: seq<M.Operand>,
                     destination: M.Place, target: Option<M.BlockId>): (r: Result<Stmt>)
    ensures M.OperandTy(body, func).Success? && M.OperandTy(body, func).value.FnDef? ==>
      var fty := M.OperandTy(body, func).value;
      var inst := o.resolve(fty.defId, fty.substs);
      && (o.intrinsicOf(inst).Some? ==>
            r == o.lowerIntrinsic(o.intrinsicOf(inst).value, inst, args, destination, target))
      && (o.intrinsicOf(inst).None? ==> r == Failure(Unsupported))
    ensures M.OperandTy(body, func).Success? && !M.OperandTy(body, func).value.FnDef? ==>
      r == Failure(Unsupported)
    ensures r.Success? ==>
      && M.OperandTy(body, func).Success?
      && M.OperandTy(body, func).value.FnDef?
      && var fty := M.OperandTy(body, func).value;
         var inst := o.resolve(fty.defId, fty.substs);
         o.intrinsicOf(inst).Some? &&
         r == o.lowerIntrinsic(o.intrinsicOf(inst).value, inst, args, destination, target)
  {
    var fty :- M.OperandTy(body, func);
    if !fty.FnDef? then Failure(Unsupported)
    else
      var inst := o.resolve(fty.defId, fty.substs);
      match o.intrinsicOf(inst)
      case Some(intrinsic) => o.lowerIntrinsic(intrinsic, inst, args, destination, target)
      case None => Failure(Unsupported)
  }

  /** `codegen_terminator`: a call is lowered by `codegen_funcall`, a switch
      by `codegen_switch_int`, a `goto` jumps to its block's label, and an
      assertion is dropped; `drop` and unreachable terminators are
      unsupported. */
  function LowerTerminator(o: Oracles, body: M.Body, alias: AliasTable, t: M.Terminator)
    : (r: Result<Stmt>)
    ensures t.Drop? || t.Unreachable? ==> r == Failure(Unsupported)
    ensures t.Return? ==> r == Success(Return)
    ensures t.Goto? ==> r == Success(Goto(BlockLabel(t.target)))
    ensures t.Call? ==> r == LowerCall(o, body, t.func, t.args, t.destination, t.callTarget)
    ensures t.SwitchInt? ==> r == LowerSwitchInt(body, alias, t.discr, t.targets)
    ensures t.Assert? ==> r == Success(Block([]))
  {
    match t
    case Call(func, args, destination, target) => LowerCall(o, body, func, args, destination, target)
    case Return => Success(Return)
    case Goto(target) => Success(Goto(BlockLabel(target)))
    case SwitchInt(discr, targets) => LowerSwitchInt(body, alias, discr, targets)
    // the assertion is dropped
    case Assert(_, _, _) => Success(Block([]))
    case _ => Failure(Unsupported)
  }

  /** The blocks a terminator may transfer control to. */
  function Successors(t: M.Terminator): seq<M.BlockId> {
    match t
    case Goto(b) => [b]
    case SwitchInt(_, targets) => M.AllTargets(targets)
    case Return => []
    case Assert(_, _, b) => [b]
    case Call(_, _, _, target) => if target.Some? then [target.value] else []
    case Drop(_, b) => [b]
    case Unreachable => []
  }

  /** The labels a statement may jump to. */
  function Jumps(s: Stmt): set<string>
    decreases s, 1
  {
    match s
    case Goto(l) => {l}
    case If(_, thenBody, elseBody) =>
      Jumps(thenBody) + (if elseBody.Some? then Jumps(elseBody.value) else {})
    case Block(ss) => JumpsAll(ss)
    case Label(_, inner) => Jumps(inner)
    case While(_, loopBody) => Jumps(loopBody)
    case _ => {}
  }

  function JumpsAll(ss: seq<Stmt>): set<string>
    decreases ss, 0
  {
    if |ss| == 0 then {} else Jumps(ss[0]) + JumpsAll(ss[1..])
  }

  /** A lowered `goto`, `return` or switch jumps to the labels of exactly its
      successors, and a label it jumps to names exactly one successor. */
  lemma TerminatorKeepsEdges(o: Oracles, body: M.Body, alias: AliasTable, t: M.Terminator)
    requires t.Goto? || t.Return? || t.SwitchInt?
    requires LowerTerminator(o, body, alias, t).Success?
    ensures Jumps(LowerTerminator(o, body, alias, t).value) == set b | b in Successors(t) :: BlockLabel(b)
    ensures forall b :: BlockLabel(b) in Jumps(LowerTerminator(o, body, alias, t).value) <==> b in Successors(t)
  {
    var s := LowerTerminator(o, body, alias, t).value;
    if t.SwitchInt? {
      assert Successors(t) == [t.targets.values[0].1, t.targets.otherwise];
      assert Jumps(s) == {BlockLabel(t.targets.values[0].1), BlockLabel(t.targets.otherwise)};
    }
    forall b ensures BlockLabel(b) in Jumps(s) <==> b in Successors(t) {
      forall c | c in Successors(t) && BlockLabel(b) == BlockLabel(c) ensures b == c {
        BlockLabelInjective(b, c);
      }
    }
  }

  /** A lowered `Assert` jumps nowhere although the MIR continues to its
      target block: control falls through to whatever follows. */
  lemma AssertDropsItsEdge(o: Oracles, body: M.Body, alias: AliasTable, t: M.Terminator)
    requires t.Assert?
    ensures LowerTerminator(o, body, alias, t) == Success(Block([]))
    ensures Jumps(LowerTerminator(o, body, alias, t).value) == {} && |Successors(t)| == 1
  {
  }

  /** The label a lowered statement starts with, if any. */
  function LeadingLabel(s: Stmt): Option<string> {
    match s
    case Label(l, _) => Some(l)
    case Block(ss) => if |ss| == 0 then None else LeadingLabel(ss[0])
    case _ => None
  }

  /** The lowered statements of a block with the first one labelled,
      followed by the lowered terminator. */
  function LabelledRun(blockLabel: string, ss: seq<Stmt>, t: Stmt): (r: Stmt)
    requires |ss| > 0
    ensures r.Block? && |r.statements| == |ss| + 1
    ensures r.statements[0] == Label(blockLabel, ss[0]) && r.statements[|ss|] == t
    ensures forall i :: 0 < i < |ss| ==> r.statements[i] == ss[i]
    ensures LeadingLabel(r) == Some(blockLabel)
  {
    var all := [Label(blockLabel, ss[0])] + ss[1..] + [t];
    assert |all| == |ss| + 1 >= 2;
    assert forall i :: 0 < i < |ss| ==> all[i] == ss[i];
    BlockOf(all)
  }

  /** `codegen_block`: the block's statements, the first of them labelled
      with the block's label, followed by its terminator, lowered under the
      table the statements left; without statements, the labelled
      terminator alone. Only the first lowered statement carries a label. */
  function LowerBlock(o: Oracles, body: M.Body, alias: AliasTable, bb: M.BasicBlock)
    : (r: Result<(Stmt, AliasTable)>)
    ensures r.Success? ==> LeadingLabel(r.value.0) == Some(BlockLabel(bb.id))
    ensures r.Success? ==> alias.Keys <= r.value.1.Keys
    ensures r.Success? && AliasesCallFree(alias) ==> AliasesCallFree(r.value.1)
    ensures r.Success? && |bb.statements| == 0 ==>
      && r.value.1 == alias
      && LowerTerminator(o, body, alias, bb.terminator).Success?
      && r.value.0 == Label(BlockLabel(bb.id), LowerTerminator(o, body, alias, bb.terminator).value)
    ensures |bb.statements| == 0 ==>
      (r.Success? <==> LowerTerminator(o, body, alias, bb.terminator).Success?)
    ensures |bb.statements| > 0 ==>
      var ls := LowerStatements(o, body, alias, bb.statements);
      && (ls.Failure? ==> r == Failure(ls.error))
      && (ls.Success? ==> (r.Success? <==> LowerTerminator(o, body, ls.value.1, bb.terminator).Success?))
    ensures r.Success? && |bb.statements| > 0 ==>
      var n := |bb.statements|;
      var ls := LowerStatements(o, body, alias, bb.statements);
      && ls.Success?
      && r.value.1 == ls.value.1
      && r.value.0.Block?
      && |r.value.0.statements| == n + 1
      && r.value.0.statements[0] == Label(BlockLabel(bb.id), ls.value.0[0])
      && (forall i :: 0 < i < n ==> r.value.0.statements[i] == ls.value.0[i])
      && (forall i :: 0 < i < n ==> !r.value.0.statements[i].Label?)
      && LowerTerminator(o, body, r.value.1, bb.terminator).Success?
      && r.value.0.statements[n] == LowerTerminator(o, body, r.value.1, bb.terminator).value
  {
    var blockLabel := BlockLabel(bb.id);
    if |bb.statements| == 0 then
      var t :- LowerTerminator(o, body, alias, bb.terminator);
      Success((BlockOf([Label(blockLabel, t)]), alias))
    else
      var lowered :- LowerStatements(o, body, alias, bb.statements);
      var ss := lowered.0;
      var t :- LowerTerminator(o, body, lowered.1, bb.terminator);
      Success((LabelledRun(blockLabel, ss, t), lowered.1))
  }

  /** The blocks lowered in visiting order, the table threaded through all
      of them. */
  function LowerBlocks(o: Oracles, body: M.Body, alias: AliasTable, bbs: seq<M.BasicBlock>)
    : (r: Result<(seq<Stmt>, AliasTable)>)
    ensures r.Success? ==> |r.value.0| == |bbs|
    ensures r.Success? ==> forall i :: 0 <= i < |bbs| ==> LeadingLabel(r.value.0[i]) == Some(BlockLabel(bbs[i].id))
    ensures r.Success? ==> alias.Keys <= r.value.1.Keys
    decreases |bbs|
  {
    if |bbs| == 0 then Success(([], alias))
    else
      var first :- LowerBlock(o, body, alias, bbs[0]);
      var rest :- LowerBlocks(o, body, first.1, bbs[1..]);
      assert forall i :: 1 <= i < |bbs| ==> bbs[i] == bbs[1..][i - 1];
      Success(([first.0] + rest.0, rest.1))
  }

  lemma LowerBlocksStep(o: Oracles, body: M.Body, alias: AliasTable, bbs: seq<M.BasicBlock>)
    requires |bbs| > 0 && LowerBlock(o, body, alias, bbs[0]).Success?
    ensures var f := LowerBlock(o, body, alias, bbs[0]).value;
      LowerBlocks(o, body, alias, bbs) == Prepend(f.0, LowerBlocks(o, body, f.1, bbs[1..]))
  {
  }

  /** Lowering the blocks of `a + b` lowers those of `a` and then those of
      `b` under the table `a` left; if `a` fails, the whole fails with the
      same error and nothing of `b` is produced. */
  lemma {:induction false} LowerBlocksAppend(o: Oracles, body: M.Body, alias: AliasTable,
                                             a: seq<M.BasicBlock>, b: seq<M.BasicBlock>)
    ensures LowerBlocks(o, body, alias, a).Failure? ==>
      LowerBlocks(o, body, alias, a + b) == Failure(LowerBlocks(o, body, alias, a).error)
    ensures LowerBlocks(o, body, alias, a).Success? ==>
      var ra := LowerBlocks(o, body, alias, a).value;
      LowerBlocks(o, body, alias, a + b) == Sequenced(ra, LowerBlocks(o, body, ra.1, b))
    decreases |a|, 1
  {
    if |a| == 0 {
      assert a + b == b;
      var rb := LowerBlocks(o, body, alias, b);
      if rb.Success? {
        assert [] + rb.value.0 == rb.value.0;
      }
    } else if LowerBlocks(o, body, alias, a).Success? {
      LowerBlocksAppendCons(o, body, alias, a, b);
    } else {
      LowerBlocksAppendConsFails(o, body, alias, a, b);
    }
  }

  lemma {:induction false} LowerBlocksAppendCons(o: Oracles, body: M.Body, alias: AliasTable,
                                                 a: seq<M.BasicBlock>, b: seq<M.BasicBlock>)
    requires |a| > 0 && LowerBlocks(o, body, alias, a).Success?
    ensures var ra := LowerBlocks(o, body, alias, a).value;
      LowerBlocks(o, body, alias, a + b) == Sequenced(ra, LowerBlocks(o, body, ra.1, b))
    decreases |a|, 0
  {
    ConsAppend(a, b);
    var f := LowerBlock(o, body, alias, a[0]).value;
    LowerBlocksStep(o, body, alias, a);
    LowerBlocksStep(o, body, alias, a + b);
    assert LowerBlocks(o, body, alias, a) == Prepend(f.0, LowerBlocks(o, body, f.1, a[1..]));
    var restA := LowerBlocks(o, body, f.1, a[1..]).value;
    LowerBlocksAppend(o, body, f.1, a[1..], b);
    PrependSequenced(f.0, restA, LowerBlocks(o, body, restA.1, b));
  }

  lemma {:induction false} LowerBlocksAppendConsFails(o: Oracles, body: M.Body, alias: AliasTable,
                                                      a: seq<M.BasicBlock>, b: seq<M.BasicBlock>)
    requires |a| > 0 && LowerBlocks(o, body, alias, a).Failure?
    ensures LowerBlocks(o, body, alias, a + b) == Failure(LowerBlocks(o, body, alias, a).error)
    decreases |a|, 0
  {
    ConsAppend(a, b);
    var first := LowerBlock(o, body, alias, a[0]);
    if first.Success? {
      LowerBlocksStep(o, body, alias, a);
      LowerBlocksStep(o, body, alias, a + b);
      LowerBlocksAppend(o, body, first.value.1, a[1..], b);
    }
  }

  /** `codegen_body`: one block of the lowered basic blocks in visiting
      order, each introduced by its own label, starting from an empty
      alias table. */
  function LowerBody(o: Oracles, body: M.Body): (r: Result<Stmt>)
    ensures r.Success? ==>
      && r.value.Block?
      && |r.value.statements| == |body.blocks|
      && forall i :: 0 <= i < |body.blocks| ==>
           LeadingLabel(r.value.statements[i]) == Some(BlockLabel(body.blocks[i].id))
  {
    var lowered :- LowerBlocks(o, body, map[], body.blocks);
    Success(Block(lowered.0))
  }

  /** The table left by the blocks visited before block `i`. */
  function TableBefore(o: Oracles, body: M.Body, i: nat): Result<AliasTable>
    requires i <= |body.blocks|
  {
    var pre :- LowerBlocks(o, body, map[], body.blocks[..i]);
    Success(pre.1)
  }

  /** In a lowered body, statement `i` is block `i` lowered under the table
      the blocks before it left. */
  lemma LowerBodyBlock(o: Oracles, body: M.Body, i: nat)
    requires i < |body.blocks|
    requires LowerBody(o, body).Success?
    ensures TableBefore(o, body, i).Success?
    ensures var t := TableBefore(o, body, i).value;
      LowerBlock(o, body, t, body.blocks[i]).Success? &&
      LowerBody(o, body).value.statements[i] == LowerBlock(o, body, t, body.blocks[i]).value.0
  {
    var bbs := body.blocks;
    assert bbs == bbs[..i] + bbs[i..];
    LowerBlocksAppend(o, body, map[], bbs[..i], bbs[i..]);
    var ra := LowerBlocks(o, body, map[], bbs[..i]).value;
    assert bbs[i..][0] == bbs[i];
    var rb := LowerBlocks(o, body, ra.1, bbs[i..]);
    assert rb.Success?;
    LowerBlocksStep(o, body, ra.1, bbs[i..]);
  }

  /** The first block that fails to lower makes the whole body fail with
      its error: no partial body is produced. */
  lemma LowerBodyFailsAtBlock(o: Oracles, body: M.Body, i: nat)
    requires i < |body.blocks|
    requires TableBefore(o, body, i).Success?
    requires LowerBlock(o, body, TableBefore(o, body, i).value, body.blocks[i]).Failure?
    ensures LowerBody(o, body) == Failure(LowerBlock(o, body, TableBefore(o, body, i).value, body.blocks[i]).error)
  {
    var bbs := body.blocks;
    SplitAt(bbs, i);
    var t := TableBefore(o, body, i).value;
    LowerBlocksHeadFails(o, body, t, bbs[i..]);
    LowerBlocksFailAfter(o, body, map[], bbs[..i], bbs[i..]);
  }

  /** A failure in the later part of a block list is the failure of the whole. */
  lemma LowerBlocksFailAfter(o: Oracles, body: M.Body, alias: AliasTable, a: seq<M.BasicBlock>, b: seq<M.BasicBlock>)
    requires LowerBlocks(o, body, alias, a).Success?
    requires LowerBlocks(o, body, LowerBlocks(o, body, alias, a).value.1, b).Failure?
    ensures LowerBlocks(o, body, alias, a + b) ==
      Failure(LowerBlocks(o, body, LowerBlocks(o, body, alias, a).value.1, b).error)
  {
    LowerBlocksAppend(o, body, alias, a, b);
  }

  lemma LowerBlocksHeadFails(o: Oracles, body: M.Body, alias: AliasTable, bbs: seq<M.BasicBlock>)
    requires |bbs| > 0 && LowerBlock(o, body, alias, bbs[0]).Failure?
    ensures LowerBlocks(o, body, alias, bbs) == Failure(LowerBlock(o, body, alias, bbs[0]).error)
  {
  }

  /** Blocks with distinct ids are introduced by distinct labels. */
  lemma BodyLabelsDistinct(o: Oracles, body: M.Body)
    requires forall i, j :: 0 <= i < j < |body.blocks| ==> body.blocks[i].id != body.blocks[j].id
    requires LowerBody(o, body).Success?
    ensures var ss := LowerBody(o, body).value.statements;
      forall i, j :: 0 <= i < j < |ss| ==> LeadingLabel(ss[i]) != LeadingLabel(ss[j])
  {
    var ss := LowerBody(o, body).value.statements;
    forall i, j | 0 <= i < j < |ss| ensures LeadingLabel(ss[i]) != LeadingLabel(ss[j]) {
      BlockLabelInjective(body.blocks[i].id, body.blocks[j].id);
    }
  }

  /** Whether a local of declared type `ty` gets a variable: its type, once
      instantiated and normalised, is neither zero-sized nor a mutable
      reference. */
  predicate Kept(o: Oracles, inst: Instance, ty: M.Ty) {
    var t := o.normalize(inst, ty);
    !o.isZst(t) && !(t.Ref? && t.mutability == M.Mut)
  }

  /** The kept locals from `i` on, in increasing order. */
  function KeptFrom(o: Oracles, inst: Instance, locals: seq<M.Ty>, i: nat): (ks: seq<M.Local>)
    requires i <= |locals|
    ensures forall k :: 0 <= k < |ks| ==> i <= ks[k] < |locals| && Kept(o, inst, locals[ks[k]])
    ensures forall j :: i <= j < |locals| && Kept(o, inst, locals[j]) ==> j in ks
    ensures forall a, b :: 0 <= a < b < |ks| ==> ks[a] < ks[b]
    decreases |locals| - i
  {
    if i == |locals| then []
    else if Kept(o, inst, locals[i]) then [i] + KeptFrom(o, inst, locals, i + 1)
    else KeptFrom(o, inst, locals, i + 1)
  }

  /** The declaration of local `l` of declared type `ty`. */
  function LocalDecl(o: Oracles, inst: Instance, l: M.Local, ty: M.Ty): Result<Stmt> {
    var t :- LowerType(o, o.normalize(inst, ty));
    Success(Decl(LocalName(l), t))
  }

  /** The declarations of the kept locals from `i` on, in order. */
  function DeclsFrom(o: Oracles, inst: Instance, locals: seq<M.Ty>, i: nat): Result<seq<Stmt>>
    requires i <= |locals|
    decreases |locals| - i
  {
    if i == |locals| then Success([])
    else if !Kept(o, inst, locals[i]) then DeclsFrom(o, inst, locals, i + 1)
    else
      var d :- LocalDecl(o, inst, i, locals[i]);
      var rest :- DeclsFrom(o, inst, locals, i + 1);
      Success([d] + rest)
  }

  /** The declarations from `i` on succeed exactly when every kept local's
      type lowers. */
  lemma {:induction false} DeclsFromSucceeds(o: Oracles, inst: Instance, locals: seq<M.Ty>, i: nat)
    requires i <= |locals|
    ensures DeclsFrom(o, inst, locals, i).Success? <==>
      forall j :: i <= j < |locals| && Kept(o, inst, locals[j]) ==> LocalDecl(o, inst, j, locals[j]).Success?
    decreases |locals| - i
  {
    if i < |locals| {
      DeclsFromSucceeds(o, inst, locals, i + 1);
    }
  }

  /** Successful declarations from `i` on declare exactly the kept locals,
      in order, each at its lowered type. */
  lemma {:induction false} DeclsFromDeclaresKept(o: Oracles, inst: Instance, locals: seq<M.Ty>, i: nat)
    requires i <= |locals|
    requires DeclsFrom(o, inst, locals, i).Success?
    ensures var ds := DeclsFrom(o, inst, locals, i).value;
      var ks := KeptFrom(o, inst, locals, i);
      |ds| == |ks| &&
      forall k :: 0 <= k < |ks| ==> Success(ds[k]) == LocalDecl(o, inst, ks[k], locals[ks[k]])
    decreases |locals| - i
  {
    if i < |locals| {
      DeclsFromDeclaresKept(o, inst, locals, i + 1);
      if Kept(o, inst, locals[i]) {
        DeclsFromKeptStep(o, inst, locals, i);
      }
    }
  }

  lemma DeclsFromKeptStep(o: Oracles, inst: Instance, locals: seq<M.Ty>, i: nat)
    requires i < |locals| && Kept(o, inst, locals[i])
    requires DeclsFrom(o, inst, locals, i).Success?
    requires var ds := DeclsFrom(o, inst, locals, i + 1).value;
      var ks := KeptFrom(o, inst, locals, i + 1);
      |ds| == |ks| &&
      forall k :: 0 <= k < |ks| ==> Success(ds[k]) == LocalDecl(o, inst, ks[k], locals[ks[k]])
    ensures var ds := DeclsFrom(o, inst, locals, i).value;
      var ks := KeptFrom(o, inst, locals, i);
      |ds| == |ks| &&
      forall k :: 0 <= k < |ks| ==> Success(ds[k]) == LocalDecl(o, inst, ks[k], locals[ks[k]])
  {
    var ks := KeptFrom(o, inst, locals, i);
    var ks' := KeptFrom(o, inst, locals, i + 1);
    var ds := DeclsFrom(o, inst, locals, i).value;
    var ds' := DeclsFrom(o, inst, locals, i + 1).value;
    assert ks == [i] + ks';
    assert ds == [LocalDecl(o, inst, i, locals[i]).value] + ds';
    forall k | 0 <= k < |ks| ensures Success(ds[k]) == LocalDecl(o, inst, ks[k], locals[ks[k]]) {
      if k > 0 {
        assert ds[k] == ds'[k - 1] && ks[k] == ks'[k - 1];
      }
    }
  }

  /** `codegen_declare_variables`: one `Decl` per kept local, in local order,
      named after the local; the other locals are skipped. */
  function DeclareVariables(o: Oracles, inst: Instance, body: M.Body): (r: Result<seq<Stmt>>)
    ensures r.Success? ==>
      var ks := KeptFrom(o, inst, body.localDecls, 0);
      && |r.value| == |ks|
      && (forall k :: 0 <= k < |ks| ==>
            r.value[k].Decl? && r.value[k].name == LocalName(ks[k]) &&
            Success(r.value[k].typ) == LowerType(o, o.normalize(inst, body.localDecls[ks[k]])))
    ensures r.Success? <==> forall j :: 0 <= j < |body.localDecls| && Kept(o, inst, body.localDecls[j]) ==>
      LowerType(o, o.normalize(inst, body.localDecls[j])).Success?
  {
    DeclsFromSucceeds(o, inst, body.localDecls, 0);
    var ds := DeclsFrom(o, inst, body.localDecls, 0);
    if ds.Success? then
      DeclsFromDeclaresKept(o, inst, body.localDecls, 0);
      ds
    else ds
  }

  /** A local is declared exactly when it is kept, and under its own name. */
  lemma DeclaredIffKept(o: Oracles, inst: Instance, body: M.Body, l: M.Local)
    requires DeclareVariables(o, inst, body).Success?
    requires l < |body.localDecls|
    ensures var ds := DeclareVariables(o, inst, body).value;
      (exists k :: 0 <= k < |ds| && ds[k].name == LocalName(l)) <==> Kept(o, inst, body.localDecls[l])
  {
    var ds := DeclareVariables(o, inst, body).value;
    var ks := KeptFrom(o, inst, body.localDecls, 0);
    if Kept(o, inst, body.localDecls[l]) {
      var k :| 0 <= k < |ks| && ks[k] == l;
      assert ds[k].name == LocalName(l);
    }
    forall k | 0 <= k < |ds| && ds[k].name == LocalName(l) ensures Kept(o, inst, body.localDecls[l]) {
      LocalNameInjective(ks[k], l);
    }
  }

  /** `codegen_function`: an intrinsic gets no procedure; any other instance
      becomes a procedure named by its symbol, with no parameters and no
      contract, whose body declares the kept locals and then runs the
      lowered function body. */
  function CodegenFunction(o: Oracles, inst: Instance): (r: Result<Option<Procedure>>)
    ensures o.intrinsicOf(inst).Some? ==> r == Success(None)
    ensures o.intrinsicOf(inst).None? && r.Success? ==> r.value.Some?
    ensures o.intrinsicOf(inst).None? ==>
      var body := o.instanceMir(inst);
      (r.Success? <==>
        && (forall j :: 0 <= j < |body.localDecls| && Kept(o, inst, body.localDecls[j]) ==>
              LowerType(o, o.normalize(inst, body.localDecls[j])).Success?)
        && LowerBody(o, body).Success?)
    ensures r.Success? && r.value.Some? ==>
      var p := r.value.value;
      var body := o.instanceMir(inst);
      var n := |KeptFrom(o, inst, body.localDecls, 0)|;
      && p.name == o.symbolName(inst)
      && p.parameters == [] && p.returnParameters == [] && p.contract.None?
      && p.body.Block?
      && |p.body.statements| == n + 1
      && DeclareVariables(o, inst, body).Success?
      && p.body.statements[..n] == DeclareVariables(o, inst, body).value
      && (forall k :: 0 <= k < n ==> p.body.statements[k].Decl?)
      && Success(p.body.statements[n]) == LowerBody(o, body)
  {
    if o.intrinsicOf(inst).Some? then Success(None)
    else
      var body := o.instanceMir(inst);
      var decls :- DeclareVariables(o, inst, body);
      var b :- LowerBody(o, body);
      Success(Some(Procedure(o.symbolName(inst), [], [], None, Block(decls + [b]))))
  }

  /** In a generated procedure, a local of the function gets a variable
      exactly when it is kept. */
  lemma ProcedureDeclaresKeptLocals(o: Oracles, inst: Instance, l: M.Local)
    requires CodegenFunction(o, inst).Success? && CodegenFunction(o, inst).value.Some?
    requires l < |o.instanceMir(inst).localDecls|
    ensures var p := CodegenFunction(o, inst).value.value;
      var n := |KeptFrom(o, inst, o.instanceMir(inst).localDecls, 0)|;
      (exists k :: 0 <= k < n && p.body.statements[k].name == LocalName(l)) <==>
        Kept(o, inst, o.instanceMir(inst).localDecls[l])
  {
    var body := o.instanceMir(inst);
    var p := CodegenFunction(o, inst).value.value;
    var ds := DeclareVariables(o, inst, body).value;
    var n := |KeptFrom(o, inst, body.localDecls, 0)|;
    DeclaredIffKept(o, inst, body, l);
    assert |ds| == n;
    forall k | 0 <= k < n ensures p.body.statements[k] == ds[k] {
      assert p.body.statements[..n][k] == ds[k];
    }
  }
}
