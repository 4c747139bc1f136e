/**
 * The `Accumulate` fixture of the crate's tests: a generic sum over a
 * representation, written once for `u64`, `Unit`, `Prod` and `Meta`, and
 * `accumulate(x) = x.into_repr().acc()` for any struct whose derived `Repr`
 * is `Accumulate`. Sums are unbounded: `u64` overflow is not modelled.
 */
module BasicStruct {

  import opened Wrappers
  import opened Vocabulary
  import opened Derive
  import opened Conversion

  /** `t: Accumulate`: there are impls for `u64`, `Unit`, `Prod<A, B>` and `Meta<I, M>` only. */
  predicate Accumulable(t: Ty)
  {
    match t
    case Int(k) => k == U64
    case Unit => true
    case Prod(a, b) => Accumulable(a) && Accumulable(b)
    case Meta(i, _) => Accumulable(i)
    case _ => false
  }

  /**
   * `acc`, dispatched on the type as trait resolution does. `unitAcc` is what
   * the fixture's `impl Accumulate for Unit` returns: 0 in most tests, 13 in
   * the unit-struct test.
   */
  function Acc(v: Value, t: Ty, unitAcc: nat): nat
    requires Accumulable(t) && HasType(v, t)
  {
    match t
    case Int(_) => v.n
    case Unit => unitAcc
    case Prod(a, b) => Acc(v.fst, a, unitAcc) + Acc(v.snd, b, unitAcc)
    case Meta(i, _) => Acc(v.inner, i, unitAcc)
  }

  /**
   * `accumulate(x)`, for a struct `T` with `T::Repr: Accumulate`: convert with
   * the derived `into_repr`, then sum.
   */
  function Accumulate(input: DeriveInput, x: Value): nat
    requires input.data.Struct?
    requires Accumulable(GenericMacroDerive(input).value.repr)
    requires IsInstance(GenericMacroDerive(input).value, input.data.fields, x)
  {
    var impl := GenericMacroDerive(input).value;
    IntoReprTyped(impl, input.data.fields, x);
    Acc(IntoRepr(impl, x).value, impl.repr, 0)
  }

  function Total(ns: seq<int>): int
  {
    if ns == [] then 0 else Total(ns[..|ns| - 1]) + ns[|ns| - 1]
  }

  /** The numbers held by a sequence of `u64` values. */
  function Numbers(vals: seq<Value>): (ns: seq<int>)
    requires forall i :: 0 <= i < |vals| ==> HasType(vals[i], Int(U64))
    ensures |ns| == |vals|
  {
    seq(|vals|, i requires 0 <= i < |vals| => assert HasType(vals[i], Int(U64)); vals[i].n)
  }

  /** `n` copies of `u64`. */
  function U64s(n: nat): (tys: seq<Ty>)
    ensures |tys| == n
  {
    seq(n, i => Int(U64))
  }

  /** A spine of `u64` leaves is `Accumulate`, and `acc` of it is `unitAcc` plus the sum of the leaves. */
  lemma {:induction false} AccOfU64Spine(vals: seq<Value>, unitAcc: nat)
    requires forall i :: 0 <= i < |vals| ==> HasType(vals[i], Int(U64))
    ensures Accumulable(ProdOf(U64s(|vals|))) && HasType(ValueOf(vals), ProdOf(U64s(|vals|)))
    ensures Acc(ValueOf(vals), ProdOf(U64s(|vals|)), unitAcc) == unitAcc + Total(Numbers(vals))
    decreases |vals|
  {
    if vals != [] {
      var n := |vals| - 1;
      assert U64s(|vals|)[..n] == U64s(n);
      assert Numbers(vals)[..n] == Numbers(vals[..n]);
      AccOfU64Spine(vals[..n], unitAcc);
    }
  }

  /**
   * For a struct whose fields are all `u64`, `accumulate` is the sum of its
   * field values in declaration order.
   */
  lemma AccumulateSumsFields(input: DeriveInput, x: Value)
    requires input.data.Struct?
    requires forall i :: 0 <= i < |input.data.fields| ==> input.data.fields[i].ty == Int(U64)
    requires IsInstance(GenericMacroDerive(input).value, input.data.fields, x)
    ensures Accumulable(GenericMacroDerive(input).value.repr)
    ensures Accumulate(input, x) == Total(Numbers(FieldValues(GenericMacroDerive(input).value, x)))
  {
    var impl := GenericMacroDerive(input).value;
    ImplAccSumsFields(impl, input.data.fields, x);
  }

  /** The same for any impl with the derived layout over `u64` fields. */
  lemma ImplAccSumsFields(impl: GenericImpl, fields: seq<Field>, x: Value)
    requires Implements(impl, fields) && IsInstance(impl, fields, x)
    requires forall i :: 0 <= i < |fields| ==> fields[i].ty == Int(U64)
    ensures Accumulable(impl.repr) && IntoRepr(impl, x).Some?
    ensures HasType(IntoRepr(impl, x).value, impl.repr)
    ensures Acc(IntoRepr(impl, x).value, impl.repr, 0) == Total(Numbers(FieldValues(impl, x)))
  {
    var vals := FieldValues(impl, x);
    assert FieldTypes(fields) == U64s(|fields|);
    ProdSpineDetermines(impl.repr);
    AccOfU64Spine(vals, 0);
    IntoReprLayout(impl, fields, x);
  }

  /**
   * `acc` ignores metadata: forwarding through `Meta` nodes gives what `acc`
   * gives on the same representation with every `Meta` removed.
   */
  lemma {:induction false} AccIgnoresMeta(v: Value, t: Ty, unitAcc: nat)
    requires Accumulable(t) && HasType(v, t)
    ensures Accumulable(EraseMetaTy(t)) && HasType(EraseMeta(v), EraseMetaTy(t))
    ensures Acc(EraseMeta(v), EraseMetaTy(t), unitAcc) == Acc(v, t, unitAcc)
  {
    EraseMetaTyped(v, t);
    match t
    case Int(_) =>
    case Unit =>
    case Prod(a, b) =>
      AccIgnoresMeta(v.fst, a, unitAcc);
      AccIgnoresMeta(v.snd, b, unitAcc);
    case Meta(i, _) =>
      AccIgnoresMeta(v.inner, i, unitAcc);
  }

  // ---------------------------------------------------------------------------
  // The tests' scenarios
  // ---------------------------------------------------------------------------

  function U64Field(name: string): Field
  {
    Field(Some(name), Int(U64))
  }

  const NoGenerics: Generics := Generics([], [])

  /** `struct Foo { a: u64, b: u64 }` */
  const FooInput: DeriveInput := DeriveInput("Foo", NoGenerics, Struct([U64Field("a"), U64Field("b")]))

  /** `struct Bar { a: u64, b: u64, c: u64, d: u64 }` */
  const BarInput: DeriveInput :=
    DeriveInput("Bar", NoGenerics, Struct([U64Field("a"), U64Field("b"), U64Field("c"), U64Field("d")]))

  /** `Foo { a: 19, b: 23 }` */
  const FooValue: Value := StructV("Foo", map[Ident("a") := IntV(19), Ident("b") := IntV(23)])

  /** `Bar { a: 1, b: 2, c: 3, d: 4 }` */
  const BarValue: Value :=
    StructV("Bar", map[Ident("a") := IntV(1), Ident("b") := IntV(2), Ident("c") := IntV(3), Ident("d") := IntV(4)])

  /** The derived `Foo` impl names the struct and its two fields by identifier. */
  lemma FooImpl()
    ensures GenericMacroDerive(FooInput).Ok?
    ensures GenericMacroDerive(FooInput).value.selfName == "Foo"
    ensures GenericMacroDerive(FooInput).value.selfFields == [Ident("a"), Ident("b")]
  {
    assert SelfFields(FooInput.data.fields) == [Ident("a"), Ident("b")];
  }

  /** `Foo { a: 19, b: 23 }` is a value of `Foo`. */
  lemma FooIsInstance(impl: GenericImpl)
    requires impl.selfName == "Foo" && impl.selfFields == [Ident("a"), Ident("b")]
    ensures IsInstance(impl, FooInput.data.fields, FooValue)
  {
    var accs := impl.selfFields;
    assert forall i :: 0 <= i < 2 ==> HasType(FooValue.fields[accs[i]], FooInput.data.fields[i].ty);
    assert FooValue.fields.Keys == (set a | a in accs);
  }

  /** `assert_eq!(accumulate(foo), 42)` */
  lemma FooAccumulates42()
    ensures Accumulable(GenericMacroDerive(FooInput).value.repr)
    ensures IsInstance(GenericMacroDerive(FooInput).value, FooInput.data.fields, FooValue)
    ensures Accumulate(FooInput, FooValue) == 42
  {
    FooImpl();
    var impl := GenericMacroDerive(FooInput).value;
    FooIsInstance(impl);
    FooFieldValues(impl);
    AccumulateSumsFields(FooInput, FooValue);
    FooTotal();
  }

  lemma FooTotal()
    ensures Total(Numbers([IntV(19), IntV(23)])) == 42
  {
    assert Numbers([IntV(19), IntV(23)]) == [19, 23];
    assert [19, 23][..1] == [19];
  }

  lemma FooFieldValues(impl: GenericImpl)
    requires impl.selfName == "Foo" && impl.selfFields == [Ident("a"), Ident("b")]
    ensures IsStructValue(impl, FooValue)
    ensures FieldValues(impl, FooValue) == [IntV(19), IntV(23)]
  {
    FooIsInstance(impl);
    var vals := FieldValues(impl, FooValue);
    assert vals[0] == FooValue.fields[Ident("a")] && vals[1] == FooValue.fields[Ident("b")];
  }

  /** The derived `Bar` impl names the struct and its four fields by identifier. */
  lemma BarImpl()
    ensures GenericMacroDerive(BarInput).Ok?
    ensures GenericMacroDerive(BarInput).value.selfName == "Bar"
    ensures GenericMacroDerive(BarInput).value.selfFields == [Ident("a"), Ident("b"), Ident("c"), Ident("d")]
  {
    assert SelfFields(BarInput.data.fields) == [Ident("a"), Ident("b"), Ident("c"), Ident("d")];
  }

  /** `Bar { a: 1, b: 2, c: 3, d: 4 }` is a value of `Bar`. */
  lemma BarIsInstance(impl: GenericImpl)
    requires impl.selfName == "Bar"
    requires impl.selfFields == [Ident("a"), Ident("b"), Ident("c"), Ident("d")]
    ensures IsInstance(impl, BarInput.data.fields, BarValue)
  {
    var accs := impl.selfFields;
    assert forall i :: 0 <= i < 4 ==> HasType(BarValue.fields[accs[i]], BarInput.data.fields[i].ty);
    assert BarValue.fields.Keys == (set a | a in accs);
  }

  lemma BarFieldValues(impl: GenericImpl)
    requires impl.selfName == "Bar"
    requires impl.selfFields == [Ident("a"), Ident("b"), Ident("c"), Ident("d")]
    ensures IsStructValue(impl, BarValue)
    ensures FieldValues(impl, BarValue) == [IntV(1), IntV(2), IntV(3), IntV(4)]
  {
    BarIsInstance(impl);
    var vals := FieldValues(impl, BarValue);
    assert vals[0] == BarValue.fields[Ident("a")] && vals[1] == BarValue.fields[Ident("b")];
    assert vals[2] == BarValue.fields[Ident("c")] && vals[3] == BarValue.fields[Ident("d")];
  }

  /** `assert_eq!(accumulate(bar), 10)` */
  lemma BarAccumulates10()
    ensures Accumulable(GenericMacroDerive(BarInput).value.repr)
    ensures IsInstance(GenericMacroDerive(BarInput).value, BarInput.data.fields, BarValue)
    ensures Accumulate(BarInput, BarValue) == 10
  {
    BarImpl();
    var impl := GenericMacroDerive(BarInput).value;
    BarIsInstance(impl);
    BarFieldValues(impl);
    BarFieldsAreU64();
    AccumulateSumsFields(BarInput, BarValue);
    BarTotal();
  }

  lemma BarFieldsAreU64()
    ensures forall i :: 0 <= i < |BarInput.data.fields| ==> BarInput.data.fields[i].ty == Int(U64)
  {
  }

  lemma BarTotal()
    ensures Total(Numbers([IntV(1), IntV(2), IntV(3), IntV(4)])) == 10
  {
    assert Numbers([IntV(1), IntV(2), IntV(3), IntV(4)]) == [1, 2, 3, 4];
    assert [1, 2, 3, 4][..3] == [1, 2, 3];
    assert [1, 2, 3][..2] == [1, 2];
    assert [1, 2][..1] == [1];
  }

}
