/** Lowering of source types to Boogie types: booleans to `bool`, machine
    integers to bit-vectors of their width, arrays to Boogie arrays with the
    length erased, a tuple to its first component, a shared reference to its
    referent, and the `kani::array::Array` abstraction to `$UnboundedArray`.
    Everything else, mutable references included, is unsupported. */
module TypeLowering {
  import opened Results
  import opened BoogieAst
  import M = Mir
  import opened External
  import Builtins
  import opened SeqFacts

  /** `bit_width().unwrap_or(64)` for signed integers. */
  function IntWidth(t: M.IntTy): (w: nat)
    ensures w == 8 || w == 16 || w == 32 || w == 64 || w == 128
    ensures M.IntBitWidth(t).Some? ==> w == M.IntBitWidth(t).value
    ensures t == M.Isize ==> w == 64
  {
    match M.IntBitWidth(t)
    case Some(w) => w
    case None => 64
  }

  /** `bit_width().unwrap_or(64)` for unsigned integers. */
  function UintWidth(t: M.UintTy): (w: nat)
    ensures w == 8 || w == 16 || w == 32 || w == 64 || w == 128
    ensures M.UintBitWidth(t).Some? ==> w == M.UintBitWidth(t).value
    ensures t == M.Usize ==> w == 64
  {
    match M.UintBitWidth(t)
    case Some(w) => w
    case None => 64
  }

  /** The debug path of the array abstraction of the verification library. */
  const KANI_ARRAY_PATH := "kani::array::Array"

  /** The fields of `fields` whose type is zero-sized, in order. */
  function ZstFields(o: Oracles, fields: seq<M.FieldDef>): (r: seq<M.FieldDef>)
    ensures |r| <= |fields|
    ensures forall k :: 0 <= k < |r| ==> r[k] in fields && o.isZst(r[k].ty)
    ensures forall f :: f in fields && o.isZst(f.ty) ==> f in r
    decreases |fields|
  {
    if |fields| == 0 then []
    else if o.isZst(fields[0].ty) then [fields[0]] + ZstFields(o, fields[1..])
    else ZstFields(o, fields[1..])
  }

  /** One step of the selection: the first field, if zero-sized, followed
      by the selection from the rest. */
  lemma ZstFieldsCons(o: Oracles, fields: seq<M.FieldDef>)
    requires |fields| > 0
    ensures ZstFields(o, fields) ==
      (if o.isZst(fields[0].ty) then [fields[0]] else []) + ZstFields(o, fields[1..])
  {
    if !o.isZst(fields[0].ty) {
      assert [] + ZstFields(o, fields[1..]) == ZstFields(o, fields[1..]);
    }
  }

  /** Selecting the zero-sized fields is an order-preserving filter: it
      distributes over concatenation. */
  lemma {:induction false} ZstFieldsAppend(o: Oracles, a: seq<M.FieldDef>, b: seq<M.FieldDef>)
    ensures ZstFields(o, a + b) == ZstFields(o, a) + ZstFields(o, b)
    decreases |a|
  {
    if |a| == 0 {
      assert a + b == b;
      assert ZstFields(o, a) == [];
    } else {
      var head: seq<M.FieldDef> := if o.isZst(a[0].ty) then [a[0]] else [];
      ConsAppend(a, b);
      ZstFieldsCons(o, a + b);
      ZstFieldsCons(o, a);
      ZstFieldsAppend(o, a[1..], b);
      var tail := ZstFields(o, a[1..]);
      ConcatAssoc(head, tail, ZstFields(o, b));
    }
  }

  /** Field `k` is the one and only zero-sized field. */
  predicate OnlyZstField(o: Oracles, fields: seq<M.FieldDef>, k: int) {
    && 0 <= k < |fields|
    && o.isZst(fields[k].ty)
    && forall j :: 0 <= j < |fields| && j != k ==> !o.isZst(fields[j].ty)
  }

  /** No field is selected exactly when no field is zero-sized. */
  lemma NoZstFields(o: Oracles, fields: seq<M.FieldDef>)
    ensures ZstFields(o, fields) == [] <==> forall j :: 0 <= j < |fields| ==> !o.isZst(fields[j].ty)
  {
    var r := ZstFields(o, fields);
    if r != [] {
      assert r[0] in fields;
      var j :| 0 <= j < |fields| && fields[j] == r[0];
      assert o.isZst(fields[j].ty);
    }
    forall j | 0 <= j < |fields| && o.isZst(fields[j].ty) ensures r != [] {
      assert fields[j] in fields;
    }
  }

  /** `exactly_one()` on the zero-sized fields succeeds exactly when one
      field, counted by position, is zero-sized, and it then yields that field. */
  lemma {:induction false} ExactlyOneZstField(o: Oracles, fields: seq<M.FieldDef>)
    ensures |ZstFields(o, fields)| == 1 <==> exists k :: OnlyZstField(o, fields, k)
    ensures forall k :: OnlyZstField(o, fields, k) ==> ZstFields(o, fields) == [fields[k]]
    decreases |fields|
  {
    if |fields| > 0 {
      var rest := fields[1..];
      assert forall j :: 1 <= j < |fields| ==> fields[j] == rest[j - 1];
      ExactlyOneZstField(o, rest);
      NoZstFields(o, rest);
      if o.isZst(fields[0].ty) {
        assert ZstFields(o, fields) == [fields[0]] + ZstFields(o, rest);
        forall k | OnlyZstField(o, fields, k) ensures k == 0 && ZstFields(o, rest) == [] {
          forall j | 0 <= j < |rest| ensures !o.isZst(rest[j].ty) {
            assert fields[j + 1] == rest[j];
          }
        }
        if |ZstFields(o, fields)| == 1 {
          assert OnlyZstField(o, fields, 0);
        }
      } else {
        assert ZstFields(o, fields) == ZstFields(o, rest);
        forall k | OnlyZstField(o, fields, k) ensures OnlyZstField(o, rest, k - 1) {
          assert k != 0;
          forall j | 0 <= j < |rest| && j != k - 1 ensures !o.isZst(rest[j].ty) {
            assert rest[j] == fields[j + 1];
          }
        }
        forall k | OnlyZstField(o, rest, k) ensures OnlyZstField(o, fields, k + 1) {
          forall j | 0 <= j < |fields| && j != k + 1 ensures !o.isZst(fields[j].ty) {
            if j > 0 {
              assert fields[j] == rest[j - 1];
            }
          }
        }
      }
    }
  }

  /** The types lowering can produce: `bool`, bit-vectors of a machine
      width, arrays of length 0, and `$UnboundedArray` of one such type. */
  predicate Lowered(t: Type) {
    match t
    case Bool => true
    case Bv(w) => w == 8 || w == 16 || w == 32 || w == 64 || w == 128
    case Array(e, len) => len == 0 && Lowered(e)
    case DataType(name, args) => name == Builtins.UNBOUNDED_ARRAY && |args| == 1 && Lowered(args[0])
    case _ => false
  }

  /** `codegen_type`. A successful lowering lies in the image described by
      `Lowered`; a mutable reference is never lowered, and a shared
      reference lowers exactly as its referent. */
  function LowerType(o: Oracles, ty: M.Ty): (r: Result<Type>)
    ensures r.Success? ==> Lowered(r.value)
    ensures ty.Bool? ==> r == Success(Type.Bool)
    ensures ty.Char? || ty.Float? || ty.Str? || ty.FnDef? ==> r == Failure(Unsupported)
    ensures ty.Adt? && ty.def.path != KANI_ARRAY_PATH ==> r == Failure(Unsupported)
    ensures ty.Ref? && ty.mutability == M.Mut ==> r == Failure(Unsupported)
    ensures ty.Ref? && ty.mutability == M.Mutability.Not ==> r == LowerType(o, ty.pointee)
    decreases ty
  {
    match ty
    case Bool => Success(Type.Bool)
    case Int(ity) => Success(Type.Bv(IntWidth(ity)))
    case Uint(uty) => Success(Type.Bv(UintWidth(uty)))
    case Array(elem, _) =>
      var e :- LowerType(o, elem);
      Success(Type.Array(e, 0))
    case Tuple(elems) =>
      // only the first component is represented
      if |elems| == 0 then Failure(InvariantViolation) else LowerType(o, elems[0])
    case Adt(def, args) =>
      if def.path == KANI_ARRAY_PATH then
        var markers := ZstFields(o, def.fields);
        if |markers| != 1 || !M.IsPhantomData(markers[0].ty) || |args| != 1 then
          Failure(InvariantViolation)
        else
          var e :- LowerType(o, args[0]);
          Success(DataType(Builtins.UNBOUNDED_ARRAY, [e]))
      else
        Failure(Unsupported)
    case Ref(m, pointee) =>
      if m == M.Mutability.Not then LowerType(o, pointee) else Failure(Unsupported)
    case _ => Failure(Unsupported)
  }

  /** `n` shared references around `ty`. */
  function SharedRefs(n: nat, ty: M.Ty): M.Ty {
    if n == 0 then ty else M.Ty.Ref(M.Mutability.Not, SharedRefs(n - 1, ty))
  }

  /** Shared references are transparent to lowering at any depth. */
  lemma {:induction false} SharedRefsTransparent(o: Oracles, n: nat, ty: M.Ty)
    ensures LowerType(o, SharedRefs(n, ty)) == LowerType(o, ty)
  {
    if n > 0 {
      SharedRefsTransparent(o, n - 1, ty);
    }
  }

  /** Integer types lower to bit-vectors of exactly their width, whatever
      the collaborators answer; pointer-sized integers get 64 bits. */
  lemma IntegerTypesAreBitVectors(o: Oracles, ty: M.Ty)
    requires ty.Int? || ty.Uint?
    ensures LowerType(o, ty).Success? && LowerType(o, ty).value.Bv?
    ensures ty.Int? ==> LowerType(o, ty).value.width == IntWidth(ty.ity)
    ensures ty.Uint? ==> LowerType(o, ty).value.width == UintWidth(ty.uty)
    ensures ty == M.Int(M.Isize) || ty == M.Uint(M.Usize) ==> LowerType(o, ty).value.width == 64
  {
  }

  /** The width of the machine integer a type denotes once shared
      references and tuple wrappers are looked through, if it denotes one. */
  function IntegerWidth(ty: M.Ty): Option<nat> {
    match ty
    case Int(ity) => Some(IntWidth(ity))
    case Uint(uty) => Some(UintWidth(uty))
    case Ref(m, pointee) => if m == M.Mutability.Not then IntegerWidth(pointee) else None
    case Tuple(elems) => if |elems| == 0 then None else IntegerWidth(elems[0])
    case _ => None
  }

  /** Lowering yields a bit-vector exactly for the types that denote a
      machine integer, and then one of that integer's width. */
  lemma {:induction false} BitVectorIffInteger(o: Oracles, ty: M.Ty)
    ensures (LowerType(o, ty).Success? && LowerType(o, ty).value.Bv?) <==> IntegerWidth(ty).Some?
    ensures IntegerWidth(ty).Some? ==> LowerType(o, ty) == Success(Type.Bv(IntegerWidth(ty).value))
    decreases ty
  {
    match ty
    case Ref(m, pointee) =>
      BitVectorIffInteger(o, pointee);
    case Tuple(elems) =>
      if |elems| > 0 {
        BitVectorIffInteger(o, elems[0]);
      }
    case _ =>
  }

  /** An array's element type is lowered and its length erased; a tuple is
      represented by its first component alone. */
  lemma ArraysAndTuples(o: Oracles, elem: M.Ty, len: nat, elems: seq<M.Ty>)
    ensures LowerType(o, M.Ty.Array(elem, len)).Success? <==> LowerType(o, elem).Success?
    ensures LowerType(o, elem).Success? ==>
      LowerType(o, M.Ty.Array(elem, len)) == Success(Type.Array(LowerType(o, elem).value, 0))
    ensures |elems| > 0 ==> LowerType(o, M.Tuple(elems)) == LowerType(o, elems[0])
    ensures |elems| == 0 ==> LowerType(o, M.Tuple(elems)) == Failure(InvariantViolation)
  {
  }

  /** The array abstraction `kani::array::Array<T>` must have exactly one
      zero-sized field, a `PhantomData` marker, and exactly one type
      argument `T`; it then lowers to `$UnboundedArray` of `T`'s lowering,
      and otherwise the translator panics. */
  lemma UnboundedArrayRule(o: Oracles, def: M.AdtDef, args: seq<M.Ty>)
    requires def.path == KANI_ARRAY_PATH
    ensures (forall k :: !OnlyZstField(o, def.fields, k)) ==>
      LowerType(o, M.Adt(def, args)) == Failure(InvariantViolation)
    ensures forall k :: OnlyZstField(o, def.fields, k) && !M.IsPhantomData(def.fields[k].ty) ==>
      LowerType(o, M.Adt(def, args)) == Failure(InvariantViolation)
    ensures |args| != 1 ==> LowerType(o, M.Adt(def, args)) == Failure(InvariantViolation)
    ensures forall k :: OnlyZstField(o, def.fields, k) && M.IsPhantomData(def.fields[k].ty) && |args| == 1 ==>
      && (LowerType(o, M.Adt(def, args)).Success? <==> LowerType(o, args[0]).Success?)
      && (LowerType(o, args[0]).Success? ==>
            LowerType(o, M.Adt(def, args)) == Success(DataType(Builtins.UNBOUNDED_ARRAY, [LowerType(o, args[0]).value])))
  {
    ArrayAdtStep(o, def, args);
    ExactlyOneZstField(o, def.fields);
  }

  /** The array case of `LowerType`, stated over the selected marker fields. */
  lemma ArrayAdtStep(o: Oracles, def: M.AdtDef, args: seq<M.Ty>)
    requires def.path == KANI_ARRAY_PATH
    ensures var markers := ZstFields(o, def.fields);
      var r := LowerType(o, M.Adt(def, args));
      && (|markers| != 1 || !M.IsPhantomData(markers[0].ty) || |args| != 1 ==> r == Failure(InvariantViolation))
      && (|markers| == 1 && M.IsPhantomData(markers[0].ty) && |args| == 1 ==>
            && (r.Success? <==> LowerType(o, args[0]).Success?)
            && (r.Success? ==> r == Success(DataType(Builtins.UNBOUNDED_ARRAY, [LowerType(o, args[0]).value]))))
  {
  }
}
