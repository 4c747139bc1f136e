/**
 * The remaining test files of the crate, each restating the `Accumulate`
 * fixture over a differently shaped struct: a tuple struct, a unit struct,
 * generic structs with and without a where-clause, and a struct of structs.
 */
module Scenarios {

  import opened Wrappers
  import opened Vocabulary
  import opened Derive
  import opened Conversion
  import opened BasicStruct

  const U64: Ty := Int(IntKind.U64)

  // ---------------------------------------------------------------------------
  // struct Foo(u64, u64);
  // ---------------------------------------------------------------------------

  const TupleInput: DeriveInput := DeriveInput("Foo", NoGenerics, Struct([Field(None, U64), Field(None, U64)]))

  /** `Foo(19, 23)` */
  const TupleValue: Value := StructV("Foo", map[Index(0) := IntV(19), Index(1) := IntV(23)])

  /** The derived impl of the tuple struct names its fields by position. */
  lemma TupleIsInstance()
    ensures GenericMacroDerive(TupleInput).Ok?
    ensures GenericMacroDerive(TupleInput).value.selfFields == [Index(0), Index(1)]
    ensures IsInstance(GenericMacroDerive(TupleInput).value, TupleInput.data.fields, TupleValue)
  {
    var fields := TupleInput.data.fields;
    var accs := [Index(0), Index(1)];
    assert SelfFields(fields) == accs;
    assert TupleValue.fields.Keys == (set a | a in accs);
    assert forall i :: 0 <= i < 2 ==> HasType(TupleValue.fields[accs[i]], fields[i].ty);
  }

  /**
   * The tuple fields are accessed as `0` and `1`; `into_repr` gives
   * `Prod(Prod(Unit, 19), 23)`, and `acc` of it is 42.
   */
  lemma TupleStructAccumulates42()
    ensures GenericMacroDerive(TupleInput).value.selfFields == [Index(0), Index(1)]
    ensures IntoRepr(GenericMacroDerive(TupleInput).value, TupleValue) == Some(ProdV(ProdV(UnitV, IntV(19)), IntV(23)))
    ensures Accumulable(GenericMacroDerive(TupleInput).value.repr)
    ensures IsInstance(GenericMacroDerive(TupleInput).value, TupleInput.data.fields, TupleValue)
    ensures Accumulate(TupleInput, TupleValue) == 42
  {
    TupleIsInstance();
    var impl := GenericMacroDerive(TupleInput).value;
    var fields := TupleInput.data.fields;
    IntoReprLayout(impl, fields, TupleValue);
    assert FieldValues(impl, TupleValue) == [IntV(19), IntV(23)];
    ValueOfTwo(IntV(19), IntV(23));
    AccumulateSumsFields(TupleInput, TupleValue);
    assert Numbers([IntV(19), IntV(23)]) == [19, 23];
    assert [19, 23][..1] == [19];
  }

  // ---------------------------------------------------------------------------
  // struct Foo;
  // ---------------------------------------------------------------------------

  const UnitInput: DeriveInput := DeriveInput("Foo", NoGenerics, Struct([]))

  const UnitValue: Value := StructV("Foo", map[])

  /**
   * A unit struct's `Repr` is `Unit` and `into_repr` yields `Unit`, so `acc`
   * sees exactly the `Unit` leaf: with `impl Accumulate for Unit` returning 13,
   * the result is 13.
   */
  lemma UnitStructAccumulates13()
    ensures GenericMacroDerive(UnitInput).value.repr == Unit
    ensures IntoRepr(GenericMacroDerive(UnitInput).value, UnitValue) == Some(UnitV)
    ensures Acc(UnitV, Unit, 13) == 13
  {
    var impl := GenericMacroDerive(UnitInput).value;
    assert IsStructValue(impl, UnitValue);
    UnitStructIsUnit(impl, UnitValue);
  }

  // ---------------------------------------------------------------------------
  // struct Foo<T> { a: T, b: T }  and  struct FooExistingWhereClause<T> where T: Display { … }
  // ---------------------------------------------------------------------------

  const GenericFields: seq<Field> := [Field(Some("a"), Param("T")), Field(Some("b"), Param("T"))]

  const GenericInput: DeriveInput := DeriveInput("Foo", Generics(["T"], []), Struct(GenericFields))

  const DisplayBound: WherePredicate := Bound(Param("T"), "std::fmt::Display")

  const WhereInput: DeriveInput :=
    DeriveInput("FooExistingWhereClause", Generics(["T"], [DisplayBound]), Struct(GenericFields))

  /** `T := u64` */
  const AtU64: map<string, Ty> := map["T" := U64]

  /** `Foo { a: 19u64, b: 23 }`, and the same value of `FooExistingWhereClause`. */
  function GenericValue(name: string): Value
  {
    StructV(name, map[Ident("a") := IntV(19), Ident("b") := IntV(23)])
  }

  /**
   * The impl is generic over `T` exactly as the struct is, with the struct's
   * where-clause (`T: Display`) kept and no bound added; its `Repr` is
   * `Prod<Prod<Unit, T>, T>`; at `T = u64` that is the all-`u64` spine, and
   * `acc` of `into_repr` is 42.
   */
  lemma GenericStructAccumulates42(input: DeriveInput)
    requires input == GenericInput || input == WhereInput
    ensures input.data.Struct? && GenericMacroDerive(input).Ok?
    ensures GenericMacroDerive(input).value.generics == input.generics
    ensures GenericMacroDerive(input).value.repr == Prod(Prod(Unit, Param("T")), Param("T"))
    ensures Subst(GenericMacroDerive(input).value.repr, AtU64) == Prod(Prod(Unit, U64), U64)
    ensures Accumulable(Prod(Prod(Unit, U64), U64))
    ensures HasType(ProdV(ProdV(UnitV, IntV(19)), IntV(23)), Prod(Prod(Unit, U64), U64))
    ensures IntoRepr(GenericMacroDerive(input).value, GenericValue(input.name)) == Some(ProdV(ProdV(UnitV, IntV(19)), IntV(23)))
    ensures Acc(ProdV(ProdV(UnitV, IntV(19)), IntV(23)), Prod(Prod(Unit, U64), U64), 0) == 42
  {
    GenericRepr(input);
    GenericIntoRepr(input);
    AccAtU64();
  }

  lemma AccAtU64()
    ensures Subst(Prod(Prod(Unit, Param("T")), Param("T")), AtU64) == Prod(Prod(Unit, U64), U64)
    ensures Accumulable(Prod(Prod(Unit, U64), U64))
    ensures HasType(ProdV(ProdV(UnitV, IntV(19)), IntV(23)), Prod(Prod(Unit, U64), U64))
    ensures Acc(ProdV(ProdV(UnitV, IntV(19)), IntV(23)), Prod(Prod(Unit, U64), U64), 0) == 42
  {
    assert Subst(Param("T"), AtU64) == U64;
    assert Subst(Prod(Unit, Param("T")), AtU64) == Prod(Unit, U64);
  }

  lemma GenericRepr(input: DeriveInput)
    requires input == GenericInput || input == WhereInput
    ensures GenericMacroDerive(input).value.repr == Prod(Prod(Unit, Param("T")), Param("T"))
  {
    var impl := GenericMacroDerive(input).value;
    ProdSpineDetermines(impl.repr);
    assert FieldTypes(GenericFields) == [Param("T"), Param("T")];
    ProdOfTwo(Param("T"), Param("T"));
  }

  lemma GenericIntoRepr(input: DeriveInput)
    requires input == GenericInput || input == WhereInput
    ensures IntoRepr(GenericMacroDerive(input).value, GenericValue(input.name)) == Some(ProdV(ProdV(UnitV, IntV(19)), IntV(23)))
  {
    GenericImplIntoRepr(GenericMacroDerive(input).value);
  }

  /** Any impl with the layout derived for `{ a: T, b: T }` converts `{ a: 19, b: 23 }` the same way. */
  lemma GenericImplIntoRepr(impl: GenericImpl)
    requires Implements(impl, GenericFields)
    ensures IntoRepr(impl, GenericValue(impl.selfName)) == Some(ProdV(ProdV(UnitV, IntV(19)), IntV(23)))
  {
    var x := GenericValue(impl.selfName);
    var accs := [Ident("a"), Ident("b")];
    assert SelfFields(GenericFields) == accs;
    assert x.fields.Keys == (set a | a in accs);
    IntoReprLayout(impl, GenericFields, x);
    assert FieldValues(impl, x) == [IntV(19), IntV(23)];
    ValueOfTwo(IntV(19), IntV(23));
  }

  /** The where-clause `T: Display` reaches the impl unchanged. */
  lemma ExistingWhereClauseKept()
    ensures GenericMacroDerive(WhereInput).value.generics.whereClause == [DisplayBound]
  {
  }

  // ---------------------------------------------------------------------------
  // struct Two { a: u64, b: u64 }  struct Four { a: Two, b: Two }
  // ---------------------------------------------------------------------------

  const TwoType: Ty := Adt("Two", [])

  const FourInput: DeriveInput :=
    DeriveInput("Four", NoGenerics, Struct([Field(Some("a"), TwoType), Field(Some("b"), TwoType)]))

  /**
   * As the derive is written, `Four`'s `Repr` is `Prod<Prod<Unit, Two>, Two>`:
   * its leaves are the declared type `Two`, which has no `Accumulate` impl, so
   * `foo.into_repr().acc()` in the nested test has nothing to resolve to and
   * cannot produce 84.
   */
  lemma NestedStructNotAccumulable()
    ensures GenericMacroDerive(FourInput).value.repr == Prod(Prod(Unit, TwoType), TwoType)
    ensures !Accumulable(GenericMacroDerive(FourInput).value.repr)
  {
    var impl := GenericMacroDerive(FourInput).value;
    ProdSpineDetermines(impl.repr);
    assert FieldTypes(FourInput.data.fields) == [TwoType, TwoType];
    ProdOfTwo(TwoType, TwoType);
  }

}
