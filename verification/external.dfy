/** The collaborators the translator consults but does not implement: the
    compiler's layout, normalisation, MIR and symbol queries, the call
    resolver, the intrinsic table with its per-intrinsic lowering, and the
    text rendering of Boogie expressions. Each is an input of the model. */
module External {
  import opened Results
  import M = Mir
  import B = BoogieAst

  /** A monomorphic function instance. */
  datatype Instance = Instance(id: nat)

  datatype Oracles = Oracles(
    // `layout_of(ty).is_zst()`
    isZst: M.Ty -> bool,
    // `instantiate_mir_and_normalize_erasing_regions` for an instance
    normalize: (Instance, M.Ty) -> M.Ty,
    // `instance_mir`
    instanceMir: Instance -> M.Body,
    // `symbol_name`
    symbolName: Instance -> string,
    // `Instance::expect_resolve` of a function definition and its arguments
    resolve: (nat, seq<M.Ty>) -> Instance,
    // `get_kani_intrinsic`: the intrinsic an instance is, if any
    intrinsicOf: Instance -> Option<string>,
    // `codegen_kani_intrinsic`: intrinsic, instance, arguments, destination, return block
    lowerIntrinsic: (string, Instance, seq<M.Operand>, M.Place, Option<M.BlockId>) -> Result<B.Stmt>,
    // the writer's rendering of an expression that is not a bare symbol
    renderOther: B.Expr -> string)

  /** `Expr::to_string`: a symbol renders as its name. */
  function Render(o: Oracles, e: B.Expr): (s: string)
    ensures e.Symbol? ==> s == e.name
  {
    if e.Symbol? then e.name else o.renderOther(e)
  }
}
