# Boogie code generation: a verified model

This project models the core of the Kani Boogie backend in Dafny. That core is
the translator that turns a function's MIR into a Boogie procedure, plus the
Boogie AST the translator builds. The translator is a pure, sequential, fail-fast
map between closed variant types:

- a fixed catalog of eight bit-vector builtins, and the preamble built from them;
- lowering of source types to Boogie types;
- lowering of places, operands, constants and r-values to Boogie expressions,
  including integer casts as extract / sign-extend / zero-extend;
- lowering of statements, with a compile-time alias table that removes `&x` /
  `*r` indirection;
- lowering of terminators, including a two-way `SwitchInt` as `if`/`goto`;
- linearisation of basic blocks into labelled statement runs;
- variable declarations, and assembly of the procedure.

Every `todo!()`, `unwrap`, `assert!` or `unreachable!` of the translator is a
`Failure` of the model's `Result`:

- `Unsupported` stands for a shape the translator does not handle yet (a `todo!()`);
- `InvariantViolation` stands for a panic of the translator (a failed `unwrap`,
  `assert!` or `unreachable!`, or a missing alias). Mostly that is malformed
  input, but not always: a signed switch is valid MIR that reaches `unreachable!`.

The compiler queries the translator consults are fields of an `Oracles` value:

- layout (`is_zst`) and type normalisation;
- `instance_mir` and `symbol_name`;
- call resolution;
- intrinsic detection and per-intrinsic lowering;
- the rendering of a non-symbol expression as text.

Modules:

- `Results` (results.dfy): error kinds, `Option` and `Result`.
- `BoogieAst` (boogie_ast.dfy): types, literals, expressions, statements,
  procedures, functions, datatypes and the program. `Linearize` gives the
  straight-line meaning of nested blocks.
- `Mir` (mir.dfy): the MIR subset, and the typing of places and operands.
- `Names` (names.dfy): the `_N` / `bbN` names of locals and blocks.
- `External` (external.dfy): the compiler collaborators.
- `Builtins` (builtins.dfy): the builtin catalog and the preamble.
- `TypeLowering` (type_lowering.dfy): `codegen_type`.
- `ExprLowering` (expr_lowering.dfy): places, operands, constants and r-values.
- `StmtLowering` (stmt_lowering.dfy): statements, terminators, blocks, bodies,
  declarations and `codegen_function`.
- `Scenarios` (scenarios.dfy): concrete translations of small MIR fragments.
- `SeqFacts` (seq_facts.dfy): concatenation and slicing facts the proofs share.

`Procedure::new` and `Function::new` are the `Procedure` and `Function`
datatype constructors. `Stmt::block` is `BoogieAst.BlockOf`.

## Model

| member | source | states |
|---|---|---|
| BoogieAst.BvLiteral | boogie_ast/src/boogie_program/mod.rs:59-63 | A bit-vector literal carries exactly the given width and the given value; the value is an unbounded natural and is not reduced modulo the width. |
| BoogieAst.FunctionCallOf | boogie_ast/src/boogie_program/mod.rs:139-143 | A call expression has the given symbol and the given arguments, in order. |
| BoogieAst.BlockOf | boogie_ast/src/boogie_program/mod.rs:188-196 | A single statement is returned as itself; any other list, the empty list included, becomes a block of those statements in order. Either way the result stands for the same straight-line sequence as its input. If no input holds a one-element block anywhere, neither does the result. |
| BoogieAst.NewProgram | boogie_ast/src/boogie_program/mod.rs:265-276 | A new program has every collection empty. |
| BoogieAst.AddProcedure | boogie_ast/src/boogie_program/mod.rs:277-279 | Adding a procedure appends exactly that procedure at the end, keeps the earlier ones as a prefix, and leaves functions and all other declarations unchanged. |
| BoogieAst.AddFunction | boogie_ast/src/boogie_program/mod.rs:281-283 | Adding a function appends exactly that function at the end, keeps the earlier ones as a prefix, and leaves procedures and all other declarations unchanged. |
| BoogieAst.AddDatatype | kani-compiler/src/codegen_boogie/context/boogie_ctx.rs:148-150 | Adding a datatype appends exactly that declaration at the end and leaves functions, procedures and all other declarations unchanged. |
| Names.LocalNameInjective | kani-compiler/src/codegen_boogie/context/boogie_ctx.rs:613-616 | Distinct locals get distinct variable names. |
| Names.BlockLabelInjective | kani-compiler/src/codegen_boogie/context/boogie_ctx.rs:286-288 | Distinct basic blocks get distinct labels. |
| Builtins.AllBuiltinsComplete | kani-compiler/src/codegen_boogie/context/boogie_ctx.rs:33-56 | The iteration over the builtins lists every variant exactly once. |
| Builtins.PredicatesAreTheComparisons | kani-compiler/src/codegen_boogie/context/boogie_ctx.rs:72-82 | A builtin is a predicate exactly when it is one of the two less-than comparisons. |
| Builtins.SmtOpName | kani-compiler/src/codegen_boogie/context/boogie_ctx.rs:59-70 | Every SMT primitive name is a `bv` operation name. |
| Builtins.IsPredicate | kani-compiler/src/codegen_boogie/context/boogie_ctx.rs:72-82 | A builtin is a predicate exactly when its SMT primitive is `bvult` or `bvslt`. |
| Builtins.NamesIdentifyBuiltins | kani-compiler/src/codegen_boogie/context/boogie_ctx.rs:33-70 | Both the Boogie name and the SMT primitive name of a builtin determine that builtin, so no two builtins share either name. |
| Builtins.SmtBuiltinBinop | kani-compiler/src/codegen_boogie/context/boogie_ctx.rs:85-95 | A builtin declaration is the generic `name<T>`. It always has the two parameters `lhs` and `rhs` of type `T`, the unary one included. It has no body and one `:bvbuiltin` attribute naming the SMT primitive. It returns `bool` exactly for predicates, and `T` otherwise. |
| Builtins.UnboundedArrayDecl | kani-compiler/src/codegen_boogie/context/boogie_ctx.rs:137-149 | `$UnboundedArray<T>` has a single constructor, with the fields `data: [bv64]T` and `len: bv64`. |
| Builtins.AddBuiltins | kani-compiler/src/codegen_boogie/context/boogie_ctx.rs:128-134 | Adding builtins one at a time appends their declarations in order and changes nothing else. |
| Builtins.AddPreamble | kani-compiler/src/codegen_boogie/context/boogie_ctx.rs:127-151 | The preamble appends the declarations of all builtins in catalog order, plus one `$UnboundedArray` datatype, and changes nothing else. |
| Builtins.NewContext | kani-compiler/src/codegen_boogie/context/boogie_ctx.rs:113-125 | A fresh context holds eight functions, one datatype and no procedures. |
| Builtins.PreambleDeclaresEachBuiltinOnce | kani-compiler/src/codegen_boogie/context/boogie_ctx.rs:127-151 | Every builtin's declaration is among the eight the preamble adds, and no other added declaration carries that builtin's name. |
| TypeLowering.IntWidth | kani-compiler/src/codegen_boogie/context/boogie_ctx.rs:236 | A signed integer type's width is a machine width. It is the type's own width where it has one, and 64 for `isize`. |
| TypeLowering.UintWidth | kani-compiler/src/codegen_boogie/context/boogie_ctx.rs:237 | An unsigned integer type's width is a machine width. It is the type's own width where it has one, and 64 for `usize`. |
| TypeLowering.ZstFields | kani-compiler/src/codegen_boogie/context/boogie_ctx.rs:255-256 | The zero-sized fields selected are exactly the fields whose type is zero-sized, and there are never more of them than fields. |
| TypeLowering.ZstFieldsAppend | kani-compiler/src/codegen_boogie/context/boogie_ctx.rs:255-256 | Selecting the zero-sized fields is an order-preserving filter: it distributes over concatenation of field lists. |
| TypeLowering.NoZstFields | kani-compiler/src/codegen_boogie/context/boogie_ctx.rs:255-256 | Nothing is selected exactly when no field is zero-sized. |
| TypeLowering.ExactlyOneZstField | kani-compiler/src/codegen_boogie/context/boogie_ctx.rs:255-258 | `exactly_one` finds a field exactly when one field position holds a zero-sized type, and then the selection is that field alone. |
| TypeLowering.LowerType | kani-compiler/src/codegen_boogie/context/boogie_ctx.rs:232-277 | `bool` lowers to `bool`. `char`, floats, `str`, function items and every ADT other than `kani::array::Array` are unsupported. A mutable reference is unsupported, and a shared reference lowers as its referent. Every type that lowers, lowers to one of: `bool`; a bit-vector of machine width; a length-0 array of such a type; or `$UnboundedArray` of one. |
| TypeLowering.SharedRefsTransparent | kani-compiler/src/codegen_boogie/context/boogie_ctx.rs:269-273 | Shared references at any depth are transparent to type lowering. |
| TypeLowering.IntegerTypesAreBitVectors | kani-compiler/src/codegen_boogie/context/boogie_ctx.rs:236-237 | Integer types lower to bit-vectors of exactly their width, with 64 bits for the pointer-sized ones. |
| TypeLowering.BitVectorIffInteger | kani-compiler/src/codegen_boogie/context/boogie_ctx.rs:232-277 | A type lowers to a bit-vector exactly when it denotes a machine integer, looking through shared references and first tuple components; the width is then that integer's width. |
| TypeLowering.ArraysAndTuples | kani-compiler/src/codegen_boogie/context/boogie_ctx.rs:238-244 | An array lowers when its element type does, to an array of the lowered element type with length 0. A tuple lowers as its first component, and an empty tuple is malformed. |
| TypeLowering.UnboundedArrayRule | kani-compiler/src/codegen_boogie/context/boogie_ctx.rs:246-265 | For `kani::array::Array`: without exactly one zero-sized field, or when that field is not `PhantomData`, or without exactly one type argument, the type is malformed. Otherwise it lowers exactly when its type argument does, to `$UnboundedArray` of the lowered argument. |
| External.Render | kani-compiler/src/codegen_boogie/context/boogie_ctx.rs:335 | A symbol expression renders as its own name. |
| ExprLowering.ProjectStep | kani-compiler/src/codegen_boogie/context/boogie_ctx.rs:586-609 | An index projection indexes the path by the index local's variable. A dereference leaves the path unchanged. A field of a tuple-typed local leaves the path unchanged, and a field of a struct or union selects that field by name. A field of an enum, or an out-of-range field, is malformed, and a field of any other type is unsupported. In every case the root is kept and no call is added. |
| ExprLowering.FoldProjections | kani-compiler/src/codegen_boogie/context/boogie_ctx.rs:585-610 | A chain of projections keeps the root of the path it starts from, and adds no function call. |
| ExprLowering.FoldFailureSticks | kani-compiler/src/codegen_boogie/context/boogie_ctx.rs:585-610 | Once a prefix of the chain fails, the whole chain fails with the same error. |
| ExprLowering.FoldProjectionsIter | kani-compiler/src/codegen_boogie/context/boogie_ctx.rs:585-610 | The accumulator loop over the projections computes the same result as the left fold, failures included. |
| ExprLowering.LowerPlace | kani-compiler/src/codegen_boogie/context/boogie_ctx.rs:576-611 | A place with a recorded alias lowers to that alias. Otherwise: an out-of-range local is malformed; a successful lowering is an access path rooted at the local's variable; a bare local is exactly its variable. The result is call-free whenever the aliases are. |
| ExprLowering.LowerPlaceSnoc | kani-compiler/src/codegen_boogie/context/boogie_ctx.rs:576-611 | When neither place has an alias, a place with one more projection lowers to the shorter place's lowering with that projection applied, or fails with the shorter place's error. |
| ExprLowering.LowerScalar | kani-compiler/src/codegen_boogie/context/boogie_ctx.rs:635-663 | A boolean scalar lowers exactly when its bits are 0 or 1, to the literal that is true exactly for 1, and any larger value is malformed. An integer scalar always lowers, to a bit-vector literal holding its bits at its type's width. A pointer scalar and every other type are unsupported. A lowered literal always holds the scalar's bits. |
| ExprLowering.LowerConstant | kani-compiler/src/codegen_boogie/context/boogie_ctx.rs:618-633 | An evaluated scalar constant lowers exactly as that scalar at the constant's type; every other constant is unsupported. A success is a literal. |
| ExprLowering.ConstantLiteralKeepsBits | kani-compiler/src/codegen_boogie/context/boogie_ctx.rs:618-663 | A constant that lowers is an evaluated integer scalar, and the literal holds its bits; a boolean constant becomes the literal of its own truth value. |
| ExprLowering.LowerOperand | kani-compiler/src/codegen_boogie/context/boogie_ctx.rs:564-574 | A copied or moved place lowers as that place, and a constant as that constant. The result is call-free whenever the aliases are. |
| ExprLowering.CopyMoveAgree | kani-compiler/src/codegen_boogie/context/boogie_ctx.rs:571 | Copying and moving a place lower alike. |
| ExprLowering.LowerLocalInjective | kani-compiler/src/codegen_boogie/context/boogie_ctx.rs:613-616 | Two locals lower to the same expression exactly when they are the same local. |
| ExprLowering.LowerUnary | kani-compiler/src/codegen_boogie/context/boogie_ctx.rs:401-412 | A unary operation lowers exactly when its operand does, with the operand's error otherwise, and without a side statement. Logical not gives a Boogie unary operation, and arithmetic negation a function call. |
| ExprLowering.LowerBinary | kani-compiler/src/codegen_boogie/context/boogie_ctx.rs:414-469 | A failing left operand fails the operation with its error; then a failing right operand does the same. When both operands lower, `&` and `\|` are exactly the `$BvAnd` and `$BvOr` calls on the two lowered operands in order. `<<` and `>>` succeed exactly when the left operand's type is known, and are then the `$BvShl` and `$BvShr` calls on the operands in order. A success is for one of the supported operators, has no side statement, and is a call or a negation unless the operator is `==`. |
| ExprLowering.CastBv | kani-compiler/src/codegen_boogie/context/boogie_ctx.rs:381-391 | An integer conversion succeeds exactly when it does not widen or the source is an integer type, and fails as unsupported otherwise. Equal widths give the operand itself, and a value of the source width becomes one of the target width. |
| ExprLowering.LowerRvalue | kani-compiler/src/codegen_boogie/context/boogie_ctx.rs:362-399 | `Use` and `&` lower exactly when their operand or place does, to its lowering, with its error otherwise. A unary operation is exactly `codegen_unary_op`'s lowering. A binary or checked binary operation is exactly `codegen_binary_op`'s. Lengths, discriminants and aggregates are unsupported. No r-value produces a side statement. |
| ExprLowering.CheckedLikeUnchecked | kani-compiler/src/codegen_boogie/context/boogie_ctx.rs:369-372 | A checked binary operation lowers exactly as the unchecked one; no overflow check is generated. |
| ExprLowering.GeNegatesLt | kani-compiler/src/codegen_boogie/context/boogie_ctx.rs:437-447 | `>=` succeeds exactly when `<` does on the same operands, and is then the negation of the `<` expression. |
| BoogieAst.NotOf | kani-compiler/src/codegen_boogie/context/boogie_ctx.rs:446 | The negation built for `>=` is Boogie's `!` applied to exactly the given expression. |
| ExprLowering.LessThanFollowsSignedness | kani-compiler/src/codegen_boogie/context/boogie_ctx.rs:437-447 | `<` requires operands of one type. It calls the signed builtin exactly for signed integers and the unsigned builtin exactly for unsigned integers, with the lowered left and right operands as arguments, in that order. |
| ExprLowering.LessThanSucceedsForIntegers | kani-compiler/src/codegen_boogie/context/boogie_ctx.rs:437-447 | When both operands lower and have known types, `<` and `>=` succeed exactly when the two types are one integer type. Different types fail as `InvariantViolation` (the `assert_eq!`), and a common non-integer type fails as `Unsupported`. |
| ExprLowering.AddRequiresEqualIntegerTypes | kani-compiler/src/codegen_boogie/context/boogie_ctx.rs:425-436 | Addition succeeds exactly when both operands have the same integer type, and is then a `$BvAdd` call of the two lowered operands. |
| ExprLowering.UnsupportedBinOpFails | kani-compiler/src/codegen_boogie/context/boogie_ctx.rs:424-466 | Every operator outside `==`, `+`, `<`, `>=`, `&`, `\|`, `<<` and `>>` fails, and `==` is Boogie's native equality of the two operands. |
| ExprLowering.NegationsLowering | kani-compiler/src/codegen_boogie/context/boogie_ctx.rs:401-412 | Logical not is Boogie's `!`, and arithmetic negation is a one-argument call of `BvNot`. |
| ExprLowering.IntCastShapes | kani-compiler/src/codegen_boogie/context/boogie_ctx.rs:373-392 | An integer-to-integer cast that narrows extracts the low `to` bits. One that widens sign-extends a signed source and zero-extends an unsigned one, by `to - from` bits. Equal widths give the operand itself, with no wrapper node. |
| ExprLowering.IntegerCastSucceeds | kani-compiler/src/codegen_boogie/context/boogie_ctx.rs:373-396 | A cast between integer-denoting types fails exactly when it widens a source that is not itself an integer type. |
| ExprLowering.CastProducesTargetWidth | kani-compiler/src/codegen_boogie/context/boogie_ctx.rs:373-392 | A successful cast of a value of the source's width has exactly the target's width. |
| ExprLowering.NonIntegerCastFails | kani-compiler/src/codegen_boogie/context/boogie_ctx.rs:372-398 | A cast that is not integer-to-integer fails, and so does one whose source or target does not denote a machine integer. |
| ExprLowering.RvalueCallsOnlyBuiltins | kani-compiler/src/codegen_boogie/context/boogie_ctx.rs:362-469 | When the recorded aliases are call-free, every function call in a lowered r-value is a call of a catalog builtin, so the preamble declares it. |
| ExprLowering.BinaryCallsOnlyBuiltins | kani-compiler/src/codegen_boogie/context/boogie_ctx.rs:414-469 | When the recorded aliases are call-free, every function call in a lowered binary operation is a call of a catalog builtin. |
| StmtLowering.AddStatement | kani-compiler/src/codegen_boogie/context/boogie_ctx.rs:697-709 | Without a side statement the result is the statement itself. A side block is extended at its end, and any other side statement is paired with the statement in a new block. In every case the result stands for the side statement's sequence followed by the statement's. |
| StmtLowering.IsDeref | kani-compiler/src/codegen_boogie/context/boogie_ctx.rs:711-717 | A place is a dereference exactly when its projection is `[Deref]`. |
| StmtLowering.LowerStatement | kani-compiler/src/codegen_boogie/context/boogie_ctx.rs:319-358 | Everything except an assignment is unsupported. A reference assignment lowers exactly when its referent place does: it emits `Null` and records the referent's expression under the destination, or fails with the place's error. A write through `*r` needs an alias for `r`, and otherwise fails as malformed. With that alias, and for any other assignment, the statement lowers exactly when the r-value does, with the r-value's error otherwise. It then assigns the lowered value to the alias's rendering or to the destination's local, with the table unchanged. The result is never a label, and the table only grows and stays call-free. |
| StmtLowering.LowerStatements | kani-compiler/src/codegen_boogie/context/boogie_ctx.rs:297-310 | Lowering succeeds only if every statement is an assignment, and then gives one unlabelled statement per input statement. The table is threaded through in order, only grows, and stays call-free. |
| StmtLowering.LowerStatementsAppend | kani-compiler/src/codegen_boogie/context/boogie_ctx.rs:297-310 | Lowering a concatenation is lowering the first part and then the second part, under the table the first part left. |
| StmtLowering.RefThenDerefWritesReferent | kani-compiler/src/codegen_boogie/context/boogie_ctx.rs:324-336 | After `r = &x`, an assignment through `*r` writes what `x` lowers to, while the reference assignment emits `Null`. For an unaliased bare local `x`, this is `x`'s own variable. |
| StmtLowering.LowerSwitchInt | kani-compiler/src/codegen_boogie/context/boogie_ctx.rs:523-547 | A switch with one arm and a default becomes `if (discr == lit) goto arm else goto default`. The literal is the boolean `v != 0` for a `bool` discriminant and the 128-bit `v` for an unsigned one. Any other discriminant type, signed integers and `char` included, reaches the translator's `unreachable!` and fails as `InvariantViolation`. Any other number of arms is unsupported. |
| StmtLowering.LowerCall | kani-compiler/src/codegen_boogie/context/boogie_ctx.rs:486-521 | A call whose callee is a function definition resolving to an intrinsic is exactly that intrinsic's lowering. A function definition that is not an intrinsic, and any callee that is not a function definition, are unsupported. Nothing else succeeds. |
| StmtLowering.LowerTerminator | kani-compiler/src/codegen_boogie/context/boogie_ctx.rs:471-484 | A call is exactly `codegen_funcall`'s lowering and a switch exactly `codegen_switch_int`'s. `goto` jumps to the target block's label and `return` lowers to `return`. An assertion becomes an empty block, and `drop` and unreachable terminators are unsupported. |
| StmtLowering.TerminatorKeepsEdges | kani-compiler/src/codegen_boogie/context/boogie_ctx.rs:471-484 | A lowered `goto`, `return` or switch jumps to the labels of exactly its MIR successors, and each label it jumps to names exactly one successor. |
| StmtLowering.AssertDropsItsEdge | kani-compiler/src/codegen_boogie/context/boogie_ctx.rs:481 | A lowered `Assert` is an empty block that jumps nowhere, although the MIR terminator has one successor. |
| StmtLowering.LabelledRun | kani-compiler/src/codegen_boogie/context/boogie_ctx.rs:296-316 | The run of a non-empty block starts with its first statement under the block label, keeps the other statements in order, and ends with the terminator. |
| StmtLowering.LowerBlock | kani-compiler/src/codegen_boogie/context/boogie_ctx.rs:286-317 | A block without statements lowers exactly when its terminator does, to the labelled terminator, with the table unchanged. Otherwise a statement failure is the block's failure; then the block lowers exactly when the terminator does under the table the statements left. The result is a block of the lowered statements, the first under the block label and no other labelled, followed by that terminator. |
| StmtLowering.LowerBlocks | kani-compiler/src/codegen_boogie/context/boogie_ctx.rs:279-284 | Each block is lowered to one statement, in visiting order, and that statement starts with the block's own label; the table only grows. |
| StmtLowering.LowerBlocksAppend | kani-compiler/src/codegen_boogie/context/boogie_ctx.rs:279-284 | Lowering the blocks of a concatenation lowers the first part and then the second under the table the first part left; if the first part fails, the whole fails with its error. |
| StmtLowering.LowerBody | kani-compiler/src/codegen_boogie/context/boogie_ctx.rs:279-284 | A body is a block with one statement per basic block, in visiting order, each starting with its block's label. |
| StmtLowering.LowerBodyBlock | kani-compiler/src/codegen_boogie/context/boogie_ctx.rs:279-317 | In a lowered body, statement `i` is exactly block `i` lowered under the table the blocks before it left. |
| StmtLowering.LowerBodyFailsAtBlock | kani-compiler/src/codegen_boogie/context/boogie_ctx.rs:279-284 | The first block that fails to lower makes the whole body fail with its error. |
| StmtLowering.BodyLabelsDistinct | kani-compiler/src/codegen_boogie/context/boogie_ctx.rs:279-288 | Blocks with distinct ids start with distinct labels. |
| StmtLowering.KeptFrom | kani-compiler/src/codegen_boogie/context/boogie_ctx.rs:202-230 | The kept locals are listed in increasing order, and they are exactly the locals whose normalised type is neither zero-sized nor a mutable reference. |
| StmtLowering.DeclsFromSucceeds | kani-compiler/src/codegen_boogie/context/boogie_ctx.rs:202-230 | Declaring variables succeeds exactly when the type of every kept local lowers. |
| StmtLowering.DeclsFromDeclaresKept | kani-compiler/src/codegen_boogie/context/boogie_ctx.rs:202-230 | Successful declarations are exactly those of the kept locals, in order, each at its lowered type. |
| StmtLowering.DeclareVariables | kani-compiler/src/codegen_boogie/context/boogie_ctx.rs:202-230 | There is one `Decl` per kept local, in local order, named after the local and typed with the lowered normalised type; it succeeds exactly when every kept local's type lowers. |
| StmtLowering.DeclaredIffKept | kani-compiler/src/codegen_boogie/context/boogie_ctx.rs:202-230 | A local gets a declaration exactly when it is kept. |
| StmtLowering.CodegenFunction | kani-compiler/src/codegen_boogie/context/boogie_ctx.rs:155-173 | An intrinsic gets no procedure. Any other function gets one exactly when every kept local's type lowers and the body lowers. The procedure is named by the function's symbol, with no parameters and no contract. Its body is the variable declarations, in order, followed by the lowered function body. |
| StmtLowering.ProcedureDeclaresKeptLocals | kani-compiler/src/codegen_boogie/context/boogie_ctx.rs:155-173 | In a generated procedure, a local of the function is declared among the leading declarations exactly when it is kept. |
| Scenarios.ReferenceThenWriteThrough | kani-compiler/src/codegen_boogie/context/boogie_ctx.rs:324-336 | `_1 = &mut _0; (*_1) = 5_u32` lowers to `Null` followed by an assignment of `5bv32` to `_0`. |
| Scenarios.WriteThroughUnknownReference | kani-compiler/src/codegen_boogie/context/boogie_ctx.rs:333 | Writing through a reference that was never taken is malformed. |
| Scenarios.BoolSwitch | kani-compiler/src/codegen_boogie/context/boogie_ctx.rs:523-547 | A boolean switch on `0` becomes `if (_2 == false) goto bb2 else goto bb1`. |
| Scenarios.UintSwitch | kani-compiler/src/codegen_boogie/context/boogie_ctx.rs:523-547 | An unsigned switch compares against a 128-bit literal, and a switch with three targets is unsupported. |
| Scenarios.NarrowingCast | kani-compiler/src/codegen_boogie/context/boogie_ctx.rs:381-382 | `i32 as i8` extracts bits 8..0. |
| Scenarios.UnsignedWideningCast | kani-compiler/src/codegen_boogie/context/boogie_ctx.rs:386 | `u8 as u32` zero-extends by 24 bits. |
| Scenarios.SignedWideningCast | kani-compiler/src/codegen_boogie/context/boogie_ctx.rs:385 | `i8 as i32` sign-extends by 24 bits. |
| Scenarios.Declarations | kani-compiler/src/codegen_boogie/context/boogie_ctx.rs:202-230 | A `&mut` local gets no declaration, and the other locals are declared in order. |
| Scenarios.UnboundedArrayType | kani-compiler/src/codegen_boogie/context/boogie_ctx.rs:246-265 | `kani::array::Array<u8>`, with one `PhantomData` marker field, lowers to `$UnboundedArray bv8`. |
| Scenarios.CallOfOrdinaryFunction | kani-compiler/src/codegen_boogie/context/boogie_ctx.rs:486-521 | A call of a function that is not an intrinsic is unsupported. |
| Scenarios.OneBlockBody | kani-compiler/src/codegen_boogie/context/boogie_ctx.rs:279-284 | A body of one empty block returning lowers to a one-element block holding `bb0: return`, which is not a canonical statement. |

## Left out

- The compiler queries are inputs of the model (`External.Oracles`): layout,
  normalisation, `instance_mir`, `symbol_name`, `Instance::expect_resolve`,
  `get_kani_intrinsic` and `codegen_kani_intrinsic`. Intrinsic dispatch is
  defined outside the translator, so an intrinsic's lowering is whatever the
  oracle returns, and it leaves the alias table untouched.
- The `reverse_postorder` traversal is not modelled: `Mir.Body.blocks` is taken
  to be in visiting order already.
- The Boogie text writer, `write`, the tracing macros and the stray `println!`
  in `codegen_type` are not modelled. `External.Render` renders a symbol as its
  name; the text of any other expression is an oracle.
- `Names.LocalName` and `Names.BlockLabel` model the debug formatting of locals
  and blocks as `_N` and `bbN`.
- A scalar is its raw bits, an unbounded natural; the size check that the
  `unwrap` after `to_u8` … `to_target_usize` performs is not modelled.
- ADT field types are taken already instantiated with the ADT's arguments, in
  place of `FieldDef::ty(tcx, args)`.
- Projections other than `Deref`, `Field` and `Index` (constant index, subslice,
  downcast) are not in the MIR subset. The translator leaves the expression
  unchanged for all of them, just as for `Deref`.
- Statement kinds other than `Assign`, `StorageLive`, `StorageDead`, `FakeRead`
  and `Nop` are not in the MIR subset. The translator treats all of them as
  unsupported.
- The declaration shapes of `Extract`, `SignExtend` and `ZeroExtend` are taken
  from their uses in the translator, since their constructors are defined
  outside it.
- A `BoogieProgram` holds a `datatypes` collection, because `add_datatype` is
  used by the preamble.
- The alias table is flow-insensitive, as in the translator: an alias recorded
  in one block stays in force for every block visited after it.
- `BvNot` is called with one argument but declared with two parameters, and the
  switch literal is 128 bits wide whatever the discriminant's width. Both are
  modelled as written (`ExprLowering.NegationsLowering`, `Scenarios.UintSwitch`).
- Overflow checks of `CheckedBinaryOp` are not generated, as in the translator.
- Signed switches and `char` switches are not lowered: the translator reaches
  `unreachable!` for them (`boogie_ctx.rs:531`), and the model reports that as
  `InvariantViolation`, although such switches are valid MIR.
- ExprLowering.LowerScalar: a signed constant keeps its raw two's-complement
  bits, so `-1_i8` lowers to `255bv8`. The translator converts through `to_i8`
  … `to_target_isize` (`boogie_ctx.rs:640-647`) and passes the signed value to
  `Literal::bv`, whose rendering of a negative value is not part of this model.
- The intrinsic lowering oracle sees the intrinsic, the instance, the arguments,
  the destination and the target, but not the alias table or the body, although
  `codegen_kani_intrinsic` takes the whole context mutably (`boogie_ctx.rs:508`).
- A body with one basic block lowers to a one-element `Block`: `codegen_body`,
  `codegen_function` and `add_statement` build `Stmt::Block` directly
  (`boogie_ctx.rs:283`, `171`, `701-705`). Only `Stmt::block` collapses a single
  statement, and the model follows the code (`Scenarios.OneBlockBody`).
