/** The catalog of bit-vector builtins and the preamble built from it. Every
    builtin is declared once, as a generic uninterpreted Boogie function
    bound to an SMT-LIB bit-vector primitive through a `:bvbuiltin`
    attribute; expression lowering refers to builtins only through this
    catalog. */
module Builtins {
  import opened Results
  import opened BoogieAst

  datatype SmtBvBuiltin =
    // predicates
    | UnsignedLessThan
    | SignedLessThan
    // binary operators
    | Add
    | Or
    | And
    | Shl
    | Shr
    // unary operator
    | Not

  /** The Boogie name of a builtin (`as_ref`), used as the call symbol. */
  function Name(b: SmtBvBuiltin): string {
    match b
    case UnsignedLessThan => "$BvUnsignedLessThan"
    case SignedLessThan => "$BvSignedLessThan"
    case Add => "$BvAdd"
    case Or => "$BvOr"
    case And => "$BvAnd"
    case Shl => "$BvShl"
    case Shr => "$BvShr"
    case Not => "BvNot"
  }

  /** `smt_op_name`: the SMT-LIB primitive a builtin stands for, always one
      of the bit-vector operations of the SMT-LIB `FixedSizeBitVectors`
      theory, whose names start with `bv`. */
  function SmtOpName(b: SmtBvBuiltin): (s: string)
    ensures |s| > 2 && s[..2] == "bv"
  {
    match b
    case UnsignedLessThan => "bvult"
    case SignedLessThan => "bvslt"
    case Add => "bvadd"
    case Or => "bvor"
    case And => "bvand"
    case Shl => "bvshl"
    case Shr => "bvlshr"
    case Not => "bvnot"
  }

  /** `is_predicate`: whether a builtin yields a truth value, which is the
      case exactly for the builtins bound to an SMT-LIB comparison. */
  function IsPredicate(b: SmtBvBuiltin): (p: bool)
    ensures p <==> SmtOpName(b) == "bvult" || SmtOpName(b) == "bvslt"
  {
    match b
    case UnsignedLessThan => true
    case SignedLessThan => true
    case _ => false
  }

  /** The variants in declaration order (`SmtBvBuiltin::iter()`). */
  const AllBuiltins: seq<SmtBvBuiltin> :=
    [UnsignedLessThan, SignedLessThan, SmtBvBuiltin.Add, SmtBvBuiltin.Or,
     SmtBvBuiltin.And, Shl, Shr, SmtBvBuiltin.Not]

  /** The catalog lists every builtin exactly once. */
  lemma AllBuiltinsComplete(b: SmtBvBuiltin)
    ensures multiset(AllBuiltins)[b] == 1
  {
  }

  /** The two less-than entries are the only predicates. */
  lemma PredicatesAreTheComparisons(b: SmtBvBuiltin)
    ensures IsPredicate(b) <==> b == UnsignedLessThan || b == SignedLessThan
  {
  }

  /** The builtin a Boogie name refers to, if any: the inverse of `Name`. */
  function FromName(s: string): (r: Option<SmtBvBuiltin>)
    ensures r.Some? ==> Name(r.value) == s
  {
    if s == "$BvUnsignedLessThan" then Some(UnsignedLessThan)
    else if s == "$BvSignedLessThan" then Some(SignedLessThan)
    else if s == "$BvAdd" then Some(SmtBvBuiltin.Add)
    else if s == "$BvOr" then Some(SmtBvBuiltin.Or)
    else if s == "$BvAnd" then Some(SmtBvBuiltin.And)
    else if s == "$BvShl" then Some(Shl)
    else if s == "$BvShr" then Some(Shr)
    else if s == "BvNot" then Some(SmtBvBuiltin.Not)
    else None
  }

  /** The SMT primitive a `:bvbuiltin` token names, if any: the inverse of `SmtOpName`. */
  function FromSmtOpName(s: string): (r: Option<SmtBvBuiltin>)
    ensures r.Some? ==> SmtOpName(r.value) == s
  {
    if s == "bvult" then Some(UnsignedLessThan)
    else if s == "bvslt" then Some(SignedLessThan)
    else if s == "bvadd" then Some(SmtBvBuiltin.Add)
    else if s == "bvor" then Some(SmtBvBuiltin.Or)
    else if s == "bvand" then Some(SmtBvBuiltin.And)
    else if s == "bvshl" then Some(Shl)
    else if s == "bvlshr" then Some(Shr)
    else if s == "bvnot" then Some(SmtBvBuiltin.Not)
    else None
  }

  /** Names and SMT primitives identify their builtin: decoding either one
      gives the builtin back, so distinct builtins never share a name or a
      primitive. */
  lemma NamesIdentifyBuiltins(b: SmtBvBuiltin)
    ensures FromName(Name(b)) == Some(b)
    ensures FromSmtOpName(SmtOpName(b)) == Some(b)
  {
  }

  const TYPE_PARAMETER := "T"

  /** The name a builtin is declared under: its name with its type parameter, e.g. `$BvOr<T>`. */
  function DeclName(b: SmtBvBuiltin): string {
    Name(b) + "<" + TYPE_PARAMETER + ">"
  }

  /** The attribute that binds a declaration to the SMT primitive `smtName`. */
  function BvBuiltinAttribute(smtName: string): string {
    ":bvbuiltin \"" + smtName + "\""
  }

  /** `smt_builtin_binop`: the generic declaration of a builtin. It always
      has the two parameters `lhs` and `rhs` of the type parameter, no body,
      and one attribute naming the primitive; it returns `bool` exactly for
      predicates and the type parameter otherwise. */
  function SmtBuiltinBinop(bvBuiltin: string, smtName: string, isPredicate: bool): (f: Function)
    ensures f.name == bvBuiltin + "<T>"
    ensures |f.parameters| == 2
    ensures f.parameters[0] == Parameter("lhs", TypeParam("T"))
    ensures f.parameters[1] == Parameter("rhs", TypeParam("T"))
    ensures f.returnType == Type.Bool <==> isPredicate
    ensures !isPredicate ==> f.returnType == TypeParam("T")
    ensures f.body.None?
    ensures f.attributes == [":bvbuiltin \"" + smtName + "\""]
  {
    var tp := TypeParam(TYPE_PARAMETER);
    Function(
      bvBuiltin + "<" + TYPE_PARAMETER + ">",
      [Parameter("lhs", tp), Parameter("rhs", tp)],
      if isPredicate then Type.Bool else tp,
      None,
      [BvBuiltinAttribute(smtName)])
  }

  /** The declaration of builtin `b`. */
  function BuiltinDecl(b: SmtBvBuiltin): Function {
    SmtBuiltinBinop(Name(b), SmtOpName(b), IsPredicate(b))
  }

  const UNBOUNDED_ARRAY := "$UnboundedArray"

  /** `$UnboundedArray<T>`: one constructor with a `[bv64]T` map of
      elements and a `bv64` length. */
  function UnboundedArrayDecl(): (d: DataTypeDeclaration)
    ensures d.name == UNBOUNDED_ARRAY && d.typeParameters == ["T"]
    ensures |d.constructors| == 1 && d.constructors[0].name == UNBOUNDED_ARRAY
    ensures d.constructors[0].fields ==
      [Parameter("data", Map(Type.Bv(64), TypeParam("T"))), Parameter("len", Type.Bv(64))]
  {
    var ctor := DataTypeConstructor(
      UNBOUNDED_ARRAY,
      [Parameter("data", Map(Type.Bv(64), TypeParam(TYPE_PARAMETER))),
       Parameter("len", Type.Bv(64))]);
    DataTypeDeclaration(UNBOUNDED_ARRAY, [TYPE_PARAMETER], [ctor])
  }

  /** The declarations of `bs`, in order. */
  function BuiltinDecls(bs: seq<SmtBvBuiltin>): (fs: seq<Function>)
    ensures |fs| == |bs|
    ensures forall k :: 0 <= k < |bs| ==> fs[k] == BuiltinDecl(bs[k])
  {
    seq(|bs|, k requires 0 <= k < |bs| => BuiltinDecl(bs[k]))
  }

  /** Adds the declarations of `bs` one at a time, in order. */
  function AddBuiltins(p: BoogieProgram, bs: seq<SmtBvBuiltin>): (r: BoogieProgram)
    ensures r == p.(functions := p.functions + BuiltinDecls(bs))
    decreases |bs|
  {
    if |bs| == 0 then
      assert p.functions + BuiltinDecls(bs) == p.functions;
      p
    else
      assert BuiltinDecls(bs) == [BuiltinDecl(bs[0])] + BuiltinDecls(bs[1..]);
      AddBuiltins(AddFunction(p, BuiltinDecl(bs[0])), bs[1..])
  }

  /** `add_preamble`: declares every builtin, in catalog order, then the
      `$UnboundedArray` datatype. */
  function AddPreamble(p: BoogieProgram): (r: BoogieProgram)
    ensures r.functions == p.functions + BuiltinDecls(AllBuiltins)
    ensures r.datatypes == p.datatypes + [UnboundedArrayDecl()]
    ensures r.procedures == p.procedures
    ensures r.typeDeclarations == p.typeDeclarations && r.axioms == p.axioms
    ensures r.constDeclarations == p.constDeclarations && r.varDeclarations == p.varDeclarations
  {
    AddDatatype(AddBuiltins(p, AllBuiltins), UnboundedArrayDecl())
  }

  /** `BoogieCtx::new`: the program the translator starts from. */
  function NewContext(): (p: BoogieProgram)
    ensures |p.functions| == 8 && |p.datatypes| == 1 && |p.procedures| == 0
  {
    AddPreamble(NewProgram())
  }

  /** Distinct builtins are declared under distinct names. */
  lemma DeclNameInjective(b: SmtBvBuiltin, c: SmtBvBuiltin)
    ensures DeclName(b) == DeclName(c) ==> b == c
  {
    if DeclName(b) == DeclName(c) {
      assert Name(c) == DeclName(c)[..|DeclName(c)| - 3];
      assert Name(b) == DeclName(b)[..|DeclName(b)| - 3];
      NamesIdentifyBuiltins(c);
      NamesIdentifyBuiltins(b);
    }
  }

  /** The preamble declares each builtin under exactly one function: the
      declaration of every builtin is among the eight added, and no other
      added declaration carries its name. */
  lemma PreambleDeclaresEachBuiltinOnce(b: SmtBvBuiltin)
    ensures var fs := BuiltinDecls(AllBuiltins);
      |fs| == 8 && exists k :: 0 <= k < |fs| && fs[k] == BuiltinDecl(b)
    ensures var fs := BuiltinDecls(AllBuiltins);
      forall k :: 0 <= k < |fs| && fs[k].name == DeclName(b) ==> AllBuiltins[k] == b
  {
    var fs := BuiltinDecls(AllBuiltins);
    var i := match b
      case UnsignedLessThan => 0 case SignedLessThan => 1 case Add => 2 case Or => 3
      case And => 4 case Shl => 5 case Shr => 6 case Not => 7;
    assert fs[i] == BuiltinDecl(b);
    forall k | 0 <= k < |fs| && fs[k].name == DeclName(b)
      ensures AllBuiltins[k] == b
    {
      assert fs[k].name == DeclName(AllBuiltins[k]);
      DeclNameInjective(AllBuiltins[k], b);
    }
  }
}
