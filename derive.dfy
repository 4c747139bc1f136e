/**
 * The `#[derive(Generic)]` engine, `generic_macro_derive`, in shallow mode as
 * the crate implements it. The parsed item comes in as a `DeriveInput`; the
 * engine folds the field types into the `Repr` type, lists the field
 * accessors, generates the scratch bindings `_0`, `_1`, ... and builds the one
 * nested `Prod(...)` term that `into_repr` constructs and `from_repr`
 * destructures. Token streams are replaced by the data they carry: types are
 * `Ty`, the generated term is a `Term`, and the impl is a `GenericImpl`.
 */
module Derive {

  import opened Wrappers
  import opened Vocabulary

  /** A struct field: its identifier (absent for a tuple field) and its declared type. */
  datatype Field = Field(name: Option<string>, ty: Ty)

  datatype Variant = Variant(name: string, fields: seq<Field>)

  /** The body of the item under derivation. */
  datatype Data = Struct(fields: seq<Field>) | Enum(variants: seq<Variant>) | Union(fields: seq<Field>)

  /** One predicate of a where-clause, `bounded: traitName`. */
  datatype WherePredicate = Bound(bounded: Ty, traitName: string)

  /** The item's type parameters and where-clause, as `split_for_impl` hands them on. */
  datatype Generics = Generics(params: seq<string>, whereClause: seq<WherePredicate>)

  datatype DeriveInput = DeriveInput(name: string, generics: Generics, data: Data)

  /**
   * The generated `repr_structure`: `::generics::Unit`, `::generics::Prod(a, b)`
   * or a scratch binding. It is read as an expression in `into_repr` and as a
   * pattern in `from_repr`.
   */
  datatype Term = UnitTerm | ProdTerm(left: Term, right: Term) | Var(name: string)

  /**
   * The generated `impl Generic for Name`: its generics, `type Repr`, and what
   * the bodies of `into_repr` and `from_repr` are made of (the accessors
   * `self_fields`, the bindings `ordinals` and the term `repr_structure`).
   */
  datatype GenericImpl = GenericImpl(
    selfName: string,
    generics: Generics,
    repr: Ty,
    selfFields: seq<Accessor>,
    ordinals: seq<string>,
    structure: Term)

  /** How the macro aborts: `unimplemented!()` or `panic!(message)`. */
  datatype DeriveError = Unimplemented | Panic(message: string)

  const UnionMessage: string := "`Generic` cannot be derived for unions"

  predicate Distinct<T(==)>(s: seq<T>)
  {
    forall i, j :: 0 <= i < j < |s| ==> s[i] != s[j]
  }

  /** `Iterator::fold`: combine the accumulator with each element, left to right. */
  function FoldLeft<A, B>(f: (B, A) -> B, init: B, xs: seq<A>): B
    decreases |xs|
  {
    if xs == [] then init else FoldLeft(f, f(init, xs[0]), xs[1..])
  }

  /** Folding over one more element applies the step once more, outermost. */
  lemma {:induction false} FoldLeftSnoc<A, B>(f: (B, A) -> B, init: B, xs: seq<A>, x: A)
    ensures FoldLeft(f, init, xs + [x]) == f(FoldLeft(f, init, xs), x)
    decreases |xs|
  {
    if xs == [] {
      assert (xs + [x])[1..] == [];
    } else {
      assert (xs + [x])[1..] == xs[1..] + [x];
      FoldLeftSnoc(f, f(init, xs[0]), xs[1..], x);
    }
  }

  function FieldTypes(fields: seq<Field>): (tys: seq<Ty>)
    ensures |tys| == |fields|
  {
    seq(|fields|, i requires 0 <= i < |fields| => fields[i].ty)
  }

  // ---------------------------------------------------------------------------
  // Representation type
  // ---------------------------------------------------------------------------

  /** `type_`: the field types folded left to right over `Unit` into `Prod` nodes. */
  function ReprType(fields: seq<Field>): Ty
  {
    FoldLeft((acc: Ty, field: Field) => Prod(acc, field.ty), Unit, fields)
  }

  /** Reference shape: `Prod<…Prod<Prod<Unit, T1>, T2>…, TN>` for the types `T1 … TN`. */
  function ProdOf(tys: seq<Ty>): Ty
  {
    if tys == [] then Unit else Prod(ProdOf(tys[..|tys| - 1]), tys[|tys| - 1])
  }

  /** The spine of two types, written out. */
  lemma ProdOfTwo(a: Ty, b: Ty)
    ensures ProdOf([a, b]) == Prod(Prod(Unit, a), b)
  {
    assert [a, b][..1] == [a];
    assert ProdOf([a, b]) == Prod(ProdOf([a]), b);
    assert [a][..0] == [];
    assert ProdOf([a]) == Prod(ProdOf([]), a);
  }

  /**
   * The leaves of a left spine of `Prod` nodes ending in one `Unit`, in order;
   * `None` when the type is not of that shape.
   */
  function ProdSpine(t: Ty): Option<seq<Ty>>
  {
    match t
    case Unit => Some([])
    case Prod(a, b) =>
      var s := ProdSpine(a);
      if s.Some? then Some(s.value + [b]) else None
    case _ => None
  }

  lemma {:induction false} ProdSpineOfProdOf(tys: seq<Ty>)
    ensures ProdSpine(ProdOf(tys)) == Some(tys)
    decreases |tys|
  {
    if tys != [] {
      ProdSpineOfProdOf(tys[..|tys| - 1]);
      assert tys[..|tys| - 1] + [tys[|tys| - 1]] == tys;
    }
  }

  /** A type's spine determines it: the spine shape has no other representative. */
  lemma {:induction false} ProdSpineDetermines(t: Ty)
    requires ProdSpine(t).Some?
    ensures t == ProdOf(ProdSpine(t).value)
  {
    if t.Prod? {
      ProdSpineDetermines(t.fst);
      var s := ProdSpine(t.fst).value;
      assert (s + [t.snd])[..|s|] == s;
    }
  }

  lemma {:induction false} ReprTypeIsProdOf(fields: seq<Field>)
    ensures ReprType(fields) == ProdOf(FieldTypes(fields))
    decreases |fields|
  {
    if fields != [] {
      var n := |fields| - 1;
      assert fields == fields[..n] + [fields[n]];
      FoldLeftSnoc((acc: Ty, field: Field) => Prod(acc, field.ty), Unit, fields[..n], fields[n]);
      ReprTypeIsProdOf(fields[..n]);
      assert FieldTypes(fields)[..n] == FieldTypes(fields[..n]);
    }
  }

  /**
   * Shape law: the `Repr` of a struct with fields `T1 … TN` is exactly N
   * left-associated `Prod` nodes over a single `Unit`, with the declared field
   * types as leaves in declaration order; with no fields it is `Unit`.
   */
  lemma ReprTypeShape(fields: seq<Field>)
    ensures ProdSpine(ReprType(fields)) == Some(FieldTypes(fields))
    ensures fields == [] ==> ReprType(fields) == Unit
  {
    ReprTypeIsProdOf(fields);
    ProdSpineOfProdOf(FieldTypes(fields));
  }

  /** Two structs get the same `Repr` exactly when their field types agree, in order. */
  lemma ReprTypeInjective(fields: seq<Field>, others: seq<Field>)
    ensures ReprType(fields) == ReprType(others) <==> FieldTypes(fields) == FieldTypes(others)
  {
    ReprTypeShape(fields);
    ReprTypeShape(others);
    ReprTypeIsProdOf(fields);
    ReprTypeIsProdOf(others);
  }

  function SubstFields(fields: seq<Field>, s: map<string, Ty>): (r: seq<Field>)
    ensures |r| == |fields|
  {
    seq(|fields|, i requires 0 <= i < |fields| => Field(fields[i].name, Subst(fields[i].ty, s)))
  }

  /**
   * The impl reuses the item's generics, so the `Repr` of an instantiation
   * `Foo<u64>` is the generic `Repr` with the parameter replaced: deriving
   * commutes with instantiation.
   */
  lemma {:induction false} ReprTypeSubst(fields: seq<Field>, s: map<string, Ty>)
    ensures Subst(ReprType(fields), s) == ReprType(SubstFields(fields, s))
    decreases |fields|
  {
    var step := (acc: Ty, field: Field) => Prod(acc, field.ty);
    if fields != [] {
      var n := |fields| - 1;
      var subst := SubstFields(fields, s);
      assert fields == fields[..n] + [fields[n]];
      assert subst == subst[..n] + [subst[n]];
      assert subst[..n] == SubstFields(fields[..n], s);
      FoldLeftSnoc(step, Unit, fields[..n], fields[n]);
      FoldLeftSnoc(step, Unit, subst[..n], subst[n]);
      ReprTypeSubst(fields[..n], s);
    }
  }

  // ---------------------------------------------------------------------------
  // Accessors and scratch bindings
  // ---------------------------------------------------------------------------

  /** `self_fields`: a named field is accessed by its identifier, a tuple field by its index. */
  function SelfFields(fields: seq<Field>): (accs: seq<Accessor>)
    ensures |accs| == |fields|
    ensures forall i :: 0 <= i < |fields| ==> (accs[i].Ident? <==> fields[i].name.Some?)
    ensures forall i :: 0 <= i < |fields| && fields[i].name.Some? ==> accs[i] == Ident(fields[i].name.value)
    ensures forall i :: 0 <= i < |fields| && fields[i].name.None? ==> accs[i] == Index(i)
  {
    seq(|fields|, i requires 0 <= i < |fields| =>
      match fields[i].name
      case Some(ident) => Ident(ident)
      case None => Index(i))
  }

  /** The item's named fields have pairwise different identifiers, as Rust requires. */
  predicate DistinctNames(fields: seq<Field>)
  {
    forall i, j :: 0 <= i < j < |fields| && fields[i].name.Some? && fields[j].name.Some? ==>
      fields[i].name.value != fields[j].name.value
  }

  /** Different fields get different accessors, so the struct pattern binds every field once. */
  lemma SelfFieldsDistinct(fields: seq<Field>)
    requires DistinctNames(fields)
    ensures Distinct(SelfFields(fields))
  {
  }

  /** The accessors of a tuple struct such as `Foo(19, 23)` are exactly `0 … N-1`. */
  lemma SelfFieldsOfTuple(fields: seq<Field>)
    requires forall i :: 0 <= i < |fields| ==> fields[i].name.None?
    ensures SelfFields(fields) == seq(|fields|, i requires 0 <= i < |fields| => Index(i))
  {
  }

  function DigitChar(d: nat): (c: char)
    requires d < 10
    ensures '0' <= c <= '9'
  {
    ('0' as int + d) as char
  }

  predicate AllDigits(s: string)
  {
    forall i :: 0 <= i < |s| ==> '0' <= s[i] <= '9'
  }

  /** `format!("{}", n)` for a natural number: its decimal digits, most significant first. */
  function Decimal(n: nat): (s: string)
    ensures 1 <= |s| && AllDigits(s)
    ensures |s| == 1 <==> n < 10
  {
    if n < 10 then [DigitChar(n)] else Decimal(n / 10) + [DigitChar(n % 10)]
  }

  /** Reads a string of decimal digits back as a number. */
  function DigitsValue(s: string): nat
    requires AllDigits(s)
  {
    if s == [] then 0 else 10 * DigitsValue(s[..|s| - 1]) + (s[|s| - 1] as int - '0' as int)
  }

  lemma {:induction false} DecimalRoundTrip(n: nat)
    ensures DigitsValue(Decimal(n)) == n
  {
    if n >= 10 {
      var s := Decimal(n);
      assert s[..|s| - 1] == Decimal(n / 10);
      DecimalRoundTrip(n / 10);
    }
  }

  /** The scratch binding for field `i`: `_i`. */
  function OrdinalName(i: nat): (s: string)
    ensures 2 <= |s| && s[0] == '_' && AllDigits(s[1..])
    ensures DigitsValue(s[1..]) == i
  {
    DecimalRoundTrip(i);
    assert ("_" + Decimal(i))[1..] == Decimal(i);
    "_" + Decimal(i)
  }

  lemma OrdinalNameInjective(i: nat, j: nat)
    requires OrdinalName(i) == OrdinalName(j)
    ensures i == j
  {
    assert OrdinalName(i)[1..] == Decimal(i);
    assert OrdinalName(j)[1..] == Decimal(j);
    DecimalRoundTrip(i);
    DecimalRoundTrip(j);
  }

  lemma OrdinalNamesDistinct(n: nat)
    ensures forall i, j :: 0 <= i < j < n ==> OrdinalName(i) != OrdinalName(j)
  {
    forall i, j | 0 <= i < j < n
      ensures OrdinalName(i) != OrdinalName(j)
    {
      if OrdinalName(i) == OrdinalName(j) {
        OrdinalNameInjective(i, j);
      }
    }
  }

  /**
   * `ordinals`: one binding `_0 … _{N-1}` per field, in field order; an
   * underscore followed by the index in decimal, so no two are the same.
   */
  function Ordinals(n: nat): (ords: seq<string>)
    ensures |ords| == n && Distinct(ords)
    ensures forall i :: 0 <= i < n ==> ords[i] == OrdinalName(i)
  {
    OrdinalNamesDistinct(n);
    seq(n, i requires 0 <= i < n => OrdinalName(i))
  }

  // ---------------------------------------------------------------------------
  // The value term
  // ---------------------------------------------------------------------------

  /** `repr_structure`: the bindings folded left to right over `Unit` into `Prod(acc, _i)`. */
  function ReprStructure(ordinals: seq<string>): Term
  {
    FoldLeft((acc: Term, ordinal: string) => ProdTerm(acc, Var(ordinal)), UnitTerm, ordinals)
  }

  /** Reference shape: `Prod(…Prod(Prod(Unit, x1), x2)…, xN)`. */
  function TermOf(names: seq<string>): Term
  {
    if names == [] then UnitTerm else ProdTerm(TermOf(names[..|names| - 1]), Var(names[|names| - 1]))
  }

  /** The bindings a term mentions, left to right. */
  function TermVars(t: Term): seq<string>
  {
    match t
    case UnitTerm => []
    case ProdTerm(a, b) => TermVars(a) + TermVars(b)
    case Var(name) => [name]
  }

  /** A term has the nesting of a type: `Unit` against `Unit`, `Prod` against `Prod`, a binding against a leaf. */
  predicate SameShape(t: Term, ty: Ty)
  {
    match t
    case UnitTerm => ty.Unit?
    case ProdTerm(a, b) => ty.Prod? && SameShape(a, ty.fst) && SameShape(b, ty.snd)
    case Var(_) => true
  }

  lemma {:induction false} ReprStructureIsTermOf(ordinals: seq<string>)
    ensures ReprStructure(ordinals) == TermOf(ordinals)
    decreases |ordinals|
  {
    if ordinals != [] {
      var n := |ordinals| - 1;
      assert ordinals == ordinals[..n] + [ordinals[n]];
      FoldLeftSnoc((acc: Term, ordinal: string) => ProdTerm(acc, Var(ordinal)), UnitTerm, ordinals[..n], ordinals[n]);
      ReprStructureIsTermOf(ordinals[..n]);
    }
  }

  lemma {:induction false} TermVarsOf(names: seq<string>)
    ensures TermVars(TermOf(names)) == names
    decreases |names|
  {
    if names != [] {
      TermVarsOf(names[..|names| - 1]);
      assert names == names[..|names| - 1] + [names[|names| - 1]];
    }
  }

  lemma {:induction false} SameShapeOf(names: seq<string>, tys: seq<Ty>)
    requires |names| == |tys|
    ensures SameShape(TermOf(names), ProdOf(tys))
    decreases |names|
  {
    if names != [] {
      SameShapeOf(names[..|names| - 1], tys[..|tys| - 1]);
    }
  }

  // ---------------------------------------------------------------------------
  // The derivation
  // ---------------------------------------------------------------------------

  /** The `Data::Struct` arm of the macro. */
  function DeriveStruct(name: string, generics: Generics, fields: seq<Field>): GenericImpl
  {
    var ordinals := Ordinals(|fields|);
    GenericImpl(name, generics, ReprType(fields), SelfFields(fields), ordinals, ReprStructure(ordinals))
  }

  /**
   * What a derived impl for `fields` looks like: its `Repr` has the shape law's
   * spine; its accessors are those of the fields; it has one distinct binding
   * per field (any names: the lemmas over it hold for every choice, and the
   * derive's own are `_0 … _N-1`); its term binds them left to right in the `Repr`'s nesting.
   */
  predicate Implements(impl: GenericImpl, fields: seq<Field>)
  {
    && ProdSpine(impl.repr) == Some(FieldTypes(fields))
    && impl.selfFields == SelfFields(fields)
    && |impl.ordinals| == |fields|
    && Distinct(impl.ordinals)
    && impl.structure == TermOf(impl.ordinals)
    && TermVars(impl.structure) == impl.ordinals
    && SameShape(impl.structure, impl.repr)
  }

  lemma DeriveStructImplements(name: string, generics: Generics, fields: seq<Field>)
    ensures Implements(DeriveStruct(name, generics, fields), fields)
  {
    var ordinals := Ordinals(|fields|);
    ReprTypeShape(fields);
    ReprTypeIsProdOf(fields);
    ReprStructureIsTermOf(ordinals);
    TermVarsOf(ordinals);
    SameShapeOf(ordinals, FieldTypes(fields));
  }

  /**
   * `generic_macro_derive`: a struct yields its impl, which keeps the item's
   * generics and where-clause unchanged (shallow mode adds no bound); an enum
   * aborts with `unimplemented!()` and a union with a panic, neither with an impl.
   */
  function GenericMacroDerive(input: DeriveInput): (r: Result<GenericImpl, DeriveError>)
    ensures r.Ok? <==> input.data.Struct?
    ensures input.data.Enum? ==> r == Err(Unimplemented)
    ensures input.data.Union? ==> r == Err(Panic(UnionMessage))
    ensures r.Ok? ==> r.value.selfName == input.name && r.value.generics == input.generics
    ensures r.Ok? ==> Implements(r.value, input.data.fields)
    ensures r.Ok? ==> r.value.ordinals == Ordinals(|input.data.fields|)
  {
    match input.data
    case Struct(fields) =>
      DeriveStructImplements(input.name, input.generics, fields);
      Ok(DeriveStruct(input.name, input.generics, fields))
    case Enum(_) => Err(Unimplemented)
    case Union(_) => Err(Panic(UnionMessage))
  }

}
