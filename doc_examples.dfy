/**
 * The hand-written `Generic` impls in the documentation of `src/lib.rs`:
 * a three-field struct over a right-nested `Prod`, a three-variant enum over
 * nested `Sum`s, a unit struct wrapped in `Meta` with a name marker, and the
 * `Accumulate` example of the `Generic` trait.
 */
module DocExamples {

  import opened Wrappers
  import opened Vocabulary
  import Derive
  import BasicStruct

  /** `struct Three { one: u8, two: u16, three: u32 }` */
  datatype ThreeStruct = ThreeStruct(one: int, two: int, three: int)

  predicate ValidThreeStruct(x: ThreeStruct)
  {
    InRange(U8, x.one) && InRange(U16, x.two) && InRange(U32, x.three)
  }

  /** `type Repr = Prod<u8, Prod<u16, u32>>`: right-nested, with no `Unit`. */
  const ThreeStructRepr: Ty := Prod(Int(U8), Prod(Int(U16), Int(U32)))

  /** The values of `Prod<u8, Prod<u16, u32>>`, spelled out. */
  lemma ThreeStructReprValues(r: Value)
    ensures HasType(r, ThreeStructRepr) <==>
      && r.ProdV? && r.fst.IntV? && InRange(U8, r.fst.n)
      && r.snd.ProdV? && r.snd.fst.IntV? && InRange(U16, r.snd.fst.n)
      && r.snd.snd.IntV? && InRange(U32, r.snd.snd.n)
  {
    if r.ProdV? {
      assert HasType(r.snd, Prod(Int(U16), Int(U32))) <==>
        r.snd.ProdV? && HasType(r.snd.fst, Int(U16)) && HasType(r.snd.snd, Int(U32));
    }
  }

  function ThreeStructInto(x: ThreeStruct): (r: Value)
    ensures ValidThreeStruct(x) <==> HasType(r, ThreeStructRepr)
  {
    var r := ProdV(IntV(x.one), ProdV(IntV(x.two), IntV(x.three)));
    ThreeStructReprValues(r);
    r
  }

  function ThreeStructFrom(r: Value): (x: ThreeStruct)
    requires HasType(r, ThreeStructRepr)
    ensures ValidThreeStruct(x)
  {
    ThreeStructReprValues(r);
    ThreeStruct(r.fst.n, r.snd.fst.n, r.snd.snd.n)
  }

  /** `from(into(x))` returns the original `one`, `two` and `three`; `into` inverts `from`. */
  lemma ThreeStructRoundTrips(x: ThreeStruct, r: Value)
    ensures ValidThreeStruct(x) ==> ThreeStructFrom(ThreeStructInto(x)) == x
    ensures HasType(r, ThreeStructRepr) ==> ThreeStructInto(ThreeStructFrom(r)) == r
  {
    ThreeStructReprValues(r);
  }

  /** `enum Three { One(u8), Two(u16), Three(u32) }` */
  datatype ThreeEnum = One(one: int) | Two(two: int) | Three(three: int)

  predicate ValidThreeEnum(x: ThreeEnum)
  {
    match x
    case One(v) => InRange(U8, v)
    case Two(v) => InRange(U16, v)
    case Three(v) => InRange(U32, v)
  }

  /** `type Repr = Sum<u8, Sum<u16, u32>>` */
  const ThreeEnumRepr: Ty := Sum(Int(U8), Sum(Int(U16), Int(U32)))

  /** The values of `Sum<u8, Sum<u16, u32>>`, spelled out. */
  lemma ThreeEnumReprValues(r: Value)
    ensures HasType(r, ThreeEnumRepr) <==>
      || (r.LeftV? && r.l.IntV? && InRange(U8, r.l.n))
      || (r.RightV? && r.r.LeftV? && r.r.l.IntV? && InRange(U16, r.r.l.n))
      || (r.RightV? && r.r.RightV? && r.r.r.IntV? && InRange(U32, r.r.r.n))
  {
    if r.RightV? {
      assert HasType(r.r, Sum(Int(U16), Int(U32))) <==>
        (r.r.LeftV? && HasType(r.r.l, Int(U16))) || (r.r.RightV? && HasType(r.r.r, Int(U32)));
    }
  }

  /** `One ↦ Left`, `Two ↦ Right(Left)`, `Three ↦ Right(Right)`. */
  function ThreeEnumInto(x: ThreeEnum): (r: Value)
    ensures ValidThreeEnum(x) <==> HasType(r, ThreeEnumRepr)
    ensures x.One? <==> r.LeftV?
    ensures x.Two? <==> r.RightV? && r.r.LeftV?
    ensures x.Three? <==> r.RightV? && r.r.RightV?
  {
    var r := match x
      case One(v) => LeftV(IntV(v))
      case Two(v) => RightV(LeftV(IntV(v)))
      case Three(v) => RightV(RightV(IntV(v)));
    ThreeEnumReprValues(r);
    r
  }

  function ThreeEnumFrom(r: Value): (x: ThreeEnum)
    requires HasType(r, ThreeEnumRepr)
    ensures ValidThreeEnum(x)
  {
    ThreeEnumReprValues(r);
    if r.LeftV? then One(r.l.n)
    else if r.r.LeftV? then Two(r.r.l.n)
    else Three(r.r.r.n)
  }

  /** `from` inverts `into`, in both directions. */
  lemma ThreeEnumRoundTrips(x: ThreeEnum, r: Value)
    ensures ValidThreeEnum(x) ==> ThreeEnumFrom(ThreeEnumInto(x)) == x
    ensures HasType(r, ThreeEnumRepr) ==> ThreeEnumInto(ThreeEnumFrom(r)) == r
  {
    ThreeEnumReprValues(r);
  }

  /** `struct Foo_Name;` with `impl Singleton for Foo_Name { fn get() -> &'static str { "Foo" } }` */
  const FooName: Marker := Marker("Foo_Name", "Foo")

  /** `struct Foo;` with `type Repr = Meta<Unit, Foo_Name>` */
  datatype UnitFoo = UnitFoo

  const FooRepr: Ty := Meta(Unit, FooName)

  /** `Meta(Unit, PhantomData)` */
  function FooInto(x: UnitFoo): (r: Value)
    ensures HasType(r, FooRepr)
  {
    MetaV(UnitV)
  }

  /** `let Meta(Unit, _) = repr; Foo` */
  function FooFrom(r: Value): (x: UnitFoo)
    requires HasType(r, FooRepr)
    ensures StripMeta(r) == UnitV
  {
    assert HasType(StripMeta(r), Unit);
    UnitFoo
  }

  /**
   * The name is read from the `Repr` type alone: `Foo_Name::get()` is "Foo",
   * and the `Meta` value carries nothing but the inner `Unit`.
   */
  lemma FooMetadata(r: Value)
    requires HasType(r, FooRepr)
    ensures Get(FooName) == "Foo" && MetaData(FooRepr) == Some("Foo")
    ensures r == FooInto(FooFrom(r))
  {
  }

  // ---------------------------------------------------------------------------
  // The `Accumulate` example of the `Generic` trait
  // ---------------------------------------------------------------------------

  /**
   * `t: Accumulate` in the example: there are impls for `u64`, `Prod<A, B>`
   * and `Meta<I, M>`, and none for `Unit`.
   */
  predicate DocAccumulable(t: Ty)
  {
    match t
    case Int(k) => k == U64
    case Prod(a, b) => DocAccumulable(a) && DocAccumulable(b)
    case Meta(i, _) => DocAccumulable(i)
    case _ => false
  }

  /** The example's `acc`: a `u64` is itself, a `Prod` the sum of its sides, a `Meta` its inner value's. */
  function DocAcc(v: Value, t: Ty): nat
    requires DocAccumulable(t) && HasType(v, t)
  {
    match t
    case Int(_) => v.n
    case Prod(a, b) => DocAcc(v.fst, a) + DocAcc(v.snd, b)
    case Meta(i, _) => DocAcc(v.inner, i)
  }

  /**
   * Every impl of the example is one of the tests' fixture, and the two `acc`s
   * agree wherever the example's is defined, whatever the fixture's `Unit` gives.
   */
  lemma {:induction false} DocAccIsFixtureAcc(v: Value, t: Ty, unitAcc: nat)
    requires DocAccumulable(t) && HasType(v, t)
    ensures BasicStruct.Accumulable(t) && BasicStruct.Acc(v, t, unitAcc) == DocAcc(v, t)
  {
    match t
    case Int(_) =>
    case Prod(a, b) =>
      DocAccIsFixtureAcc(v.fst, a, unitAcc);
      DocAccIsFixtureAcc(v.snd, b, unitAcc);
    case Meta(i, _) =>
      DocAccIsFixtureAcc(v.inner, i, unitAcc);
  }

  /** A left `Prod` spine ends in `Unit`, which has no impl in the example. */
  lemma {:induction false} ProdOfNotDocAccumulable(tys: seq<Ty>)
    ensures !DocAccumulable(Derive.ProdOf(tys))
  {
    if tys != [] {
      ProdOfNotDocAccumulable(tys[..|tys| - 1]);
    }
  }

  /**
   * No `Repr` the derive emits meets the bound `T::Repr: Accumulate` of the
   * example's `accumulate`, whatever the struct's fields.
   */
  lemma DerivedReprNotDocAccumulable(impl: Derive.GenericImpl, fields: seq<Derive.Field>)
    requires Derive.Implements(impl, fields)
    ensures !DocAccumulable(impl.repr)
  {
    Derive.ProdSpineDetermines(impl.repr);
    ProdOfNotDocAccumulable(Derive.ProdSpine(impl.repr).value);
  }

  /**
   * As written, `accumulate(foo)` and `accumulate(bar)` of the example do not
   * meet that bound: `Foo`'s `Repr` is `Prod<Prod<Unit, u64>, u64>`.
   */
  lemma DocAccumulateRejected()
    ensures Derive.GenericMacroDerive(BasicStruct.FooInput).Ok?
    ensures !DocAccumulable(Derive.GenericMacroDerive(BasicStruct.FooInput).value.repr)
    ensures Derive.GenericMacroDerive(BasicStruct.BarInput).Ok?
    ensures !DocAccumulable(Derive.GenericMacroDerive(BasicStruct.BarInput).value.repr)
  {
    var foo := BasicStruct.FooInput;
    var bar := BasicStruct.BarInput;
    DerivedReprNotDocAccumulable(Derive.GenericMacroDerive(foo).value, foo.data.fields);
    DerivedReprNotDocAccumulable(Derive.GenericMacroDerive(bar).value, bar.data.fields);
  }

}
