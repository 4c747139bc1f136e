# generics: `#[derive(Generic)]` as a verified model

The `generics` crate implements datatype generics in the style of
`GHC.Generics`. A type that implements `Generic` converts to and from a
representation (`Repr`) built from a small vocabulary: `Unit`, `Prod<A, B>`,
`Sum<L, R>`, `Meta<I, M>` with a zero-sized `Singleton` marker `M`, and the
registered primitive integers. An operation written once over that vocabulary
(the tests' `Accumulate`) then works for every derived type.

This project models the derivation engine and proves what it promises:

- `Vocabulary` (`vocabulary.dfy`): the representation types and their values,
  typing of values (`HasType`, with the range of every integer kind), the
  `Singleton` marker, stripping and erasing `Meta`, and type-parameter
  substitution.
- `Derive` (`derive.dfy`): the input of the derive (a struct, enum or union
  with its generics) and the impl it emits, modelled as data. The `Repr` type
  is a left fold of `Prod` over `Unit`; the struct's accessors are the field
  identifiers or the positions `0 … N-1`; the binders are the ordinals
  `_0 … _N-1`; the `repr_structure` term is the same left fold over the
  binders. Enums are unimplemented and unions fail with the derive's panic
  message.
- `Conversion` (`conversion.dfy`): the emitted `into_repr` and `from_repr`,
  interpreted: the term `repr_structure` is evaluated as an expression
  (`into_repr`) and matched as a pattern (`from_repr`). The two round trips
  and the typing of both conversions are proved for every derived impl.
- `Prim` (`prim.dfy`): the identity impls for the ten registered integer types.
- `DocExamples` (`doc_examples.dfy`): the hand-written impls shown in the
  library documentation (a right-nested three-field struct, a three-variant
  enum as nested `Sum`s, a unit struct wrapped in `Meta` with a name marker).
  They are kept apart from the derive, whose layout is left-nested over `Unit`.
  Also the trait's `Accumulate` example, which has no impl for `Unit`: every
  derived `Repr` ends in `Unit`, so the example's `accumulate(foo)` and
  `accumulate(bar)` do not meet its bound (see Findings).
- `BasicStruct` (`basic_struct.dfy`): the `Accumulate` fixture of the tests
  and the `Foo`/`Bar` test, with `accumulate` proved to be the sum of the
  field values for every all-`u64` struct.
- `Scenarios` (`scenarios.dfy`): the tuple, unit, generic and nested struct
  tests as they behave with the derive as written.
- `RecursiveMode` (`recursive_mode.dfy`): a separate extension in which each
  field's own `Repr` is embedded, converted recursively. The derive does not do
  this; it is what the nested test expects (see Findings).

The crate's own description presents the recursive embedding as the intended
behaviour, and the nested test relies on it, but the derive embeds the declared
field types unchanged (shallow mode). The model follows the code; recursive
mode lives only in `RecursiveMode`.

## Model

| member | source | states |
|---|---|---|
| Derive.GenericMacroDerive | generics_derive/src/lib.rs:26-70 | a struct yields an impl (and only a struct does); an enum is `unimplemented!`, a union panics with "`Generic` cannot be derived for unions"; the impl keeps the item's name, generics and where-clause unchanged and satisfies `Implements`, with the binders `_0 … _N-1` |
| Derive.ReprType | generics_derive/src/lib.rs:28-33 | the `Repr` as the derive folds it, `Prod` over `Unit` field by field; its partners ReprTypeIsProdOf and ReprTypeShape state what the fold builds |
| Derive.ReprStructure | generics_derive/src/lib.rs:50-55 | the `repr_structure` term folded over the binders; its partners ReprStructureIsTermOf and TermVarsOf state what the fold builds |
| Derive.DeriveStruct | generics_derive/src/lib.rs:27-64 | the impl emitted for a struct; its partner DeriveStructImplements states its layout |
| Derive.DeriveStructImplements | generics_derive/src/lib.rs:27-64 | the emitted impl's `Repr`, accessors, ordinals and `repr_structure` have the layout `Implements` describes, for every field list |
| Derive.FoldLeftSnoc | generics_derive/src/lib.rs:28-33 | folding over `xs + [x]` is one more step of the fold over `xs`, as `Iterator::fold` does |
| Derive.ReprTypeIsProdOf | generics_derive/src/lib.rs:28-33 | the folded `Repr` equals the left-nested `Prod` spine over `Unit` of the field types |
| Derive.ReprTypeShape | generics_derive/src/lib.rs:28-33 | the `Repr` has exactly the field types as leaves, in declaration order, over one `Unit`; with no fields it is `Unit` |
| Derive.ReprTypeInjective | generics_derive/src/lib.rs:28-33 | two structs get the same `Repr` exactly when their field types agree in order |
| Derive.ReprTypeSubst | generics_derive/src/lib.rs:21-33 | instantiating the struct's type parameters in the `Repr` gives the `Repr` of the instantiated fields, so one generic impl serves every instance |
| Derive.ProdSpineOfProdOf | generics_derive/src/lib.rs:28-33 | reading the leaves back off a `Prod` spine gives the types it was built from |
| Derive.ProdSpineDetermines | generics_derive/src/lib.rs:28-33 | a type with a spine is the spine built from its leaves |
| Derive.SelfFields | generics_derive/src/lib.rs:34-44 | one accessor per field, in order: a named field's accessor is its own identifier, an unnamed field's is its position `i` |
| Derive.SelfFieldsDistinct | generics_derive/src/lib.rs:34-44 | fields with distinct names get distinct accessors |
| Derive.SelfFieldsOfTuple | generics_derive/src/lib.rs:39-42 | the accessors of a tuple struct are the positions `0 … N-1` |
| Derive.Decimal | generics_derive/src/lib.rs:48 | the decimal rendering of a number is non-empty, all digits, and one digit long exactly below 10 |
| Derive.DecimalRoundTrip | generics_derive/src/lib.rs:48 | reading the decimal rendering back gives the number |
| Derive.OrdinalName | generics_derive/src/lib.rs:48 | `_i` is an underscore followed by the digits of `i` |
| Derive.OrdinalNameInjective | generics_derive/src/lib.rs:48 | different positions get different ordinal names |
| Derive.OrdinalNamesDistinct | generics_derive/src/lib.rs:45-49 | the first `n` ordinal names are pairwise different |
| Derive.Ordinals | generics_derive/src/lib.rs:45-49 | exactly one binder `_i` per field, all distinct, so no two fields share a binder |
| Derive.ReprStructureIsTermOf | generics_derive/src/lib.rs:50-55 | the folded `repr_structure` is the left-nested `Prod` term over `Unit` of the binders |
| Derive.TermVarsOf | generics_derive/src/lib.rs:50-55 | the term's variables are the binders, each once, in order |
| Derive.SameShapeOf | generics_derive/src/lib.rs:28-55 | the `repr_structure` term has the shape of the `Repr` type, node for node |
| Conversion.Eval | generics_derive/src/lib.rs:59 | evaluating a term as an expression succeeds exactly when every variable in it is bound |
| Conversion.Match | generics_derive/src/lib.rs:62 | a successful match binds exactly the pattern's variables |
| Conversion.Construct | generics_derive/src/lib.rs:63 | `Self { f: _i, … }` succeeds exactly when every binder is bound (one per field), and builds a value with the struct's name and exactly its fields |
| Conversion.IntoRepr | generics_derive/src/lib.rs:57-60 | the emitted `into_repr` is defined only on values of the struct; IntoReprLayout and IntoReprTyped state its result |
| Conversion.FromRepr | generics_derive/src/lib.rs:61-64 | the emitted `from_repr` yields only values of the struct; FromReprDefined and FromReprLayout state when and what |
| Conversion.FieldsOf | generics_derive/src/lib.rs:58 | the values at the listed accessors, one per accessor, in order |
| Conversion.Zip | generics_derive/src/lib.rs:58 | the bindings of `Self { f: _i, … }` cover exactly the listed accessors |
| Conversion.ZipAt | generics_derive/src/lib.rs:58 | with distinct keys, each key is bound to its own value |
| Conversion.ZipLookup | generics_derive/src/lib.rs:63 | every bound key is bound to the value at one of its positions |
| Conversion.ZipOfLookups | generics_derive/src/lib.rs:63 | rebuilding a struct from its own field values gives the same fields |
| Conversion.EvalTermOf | generics_derive/src/lib.rs:59 | evaluating `repr_structure` with every binder bound gives the spine of the bound values in binder order |
| Conversion.MatchTermOf | generics_derive/src/lib.rs:62 | matching `repr_structure` against a spine binds each binder to its leaf |
| Conversion.MatchTermOfShape | generics_derive/src/lib.rs:62 | the pattern matches exactly the spines with one leaf per binder |
| Conversion.ValueSpineOf | generics_derive/src/lib.rs:59 | the leaves of a spine value are the values it was built from |
| Conversion.ValueSpineDetermines | generics_derive/src/lib.rs:62 | a value with a spine is the spine of its leaves |
| Conversion.HasTypeValueOf | generics_derive/src/lib.rs:28-33 | a spine value has the spine type exactly when each leaf has its type |
| Conversion.HasTypeSpine | generics_derive/src/lib.rs:28-33 | a value of a spine type is a spine with one leaf per type |
| Conversion.FieldValues | generics_derive/src/lib.rs:58 | one value per accessor, in declaration order |
| Conversion.IntoReprLayout | generics_derive/src/lib.rs:57-60 | `into_repr` of a struct value is defined and is the spine of its field values in declaration order |
| Conversion.FromReprDefined | generics_derive/src/lib.rs:61-64 | `from_repr` succeeds exactly on spines with one leaf per field |
| Conversion.FromReprLayout | generics_derive/src/lib.rs:61-64 | `from_repr` of a spine builds the struct with the i-th leaf in the i-th field |
| Conversion.RebuildStruct | generics_derive/src/lib.rs:58-63 | building `Self` from a struct value's own field values, in accessor order, gives that value back |
| Conversion.FromIntoRoundTrip | generics_derive/src/lib.rs:57-64 | `from_repr(into_repr(x)) == x` for every struct value |
| Conversion.IntoFromRoundTrip | generics_derive/src/lib.rs:57-64 | `into_repr(from_repr(r)) == r` whenever `from_repr` accepts `r` |
| Conversion.IntoReprTyped | generics_derive/src/lib.rs:72-81 | a well-typed struct value is converted to a value of `Self::Repr` |
| Conversion.FromReprTyped | generics_derive/src/lib.rs:72-81 | every value of `Self::Repr` is converted to a well-typed struct value |
| Conversion.UnitStructIsUnit | generics_derive/src/lib.rs:28-33 | a struct without fields has `Repr` `Unit` and converts to the `Unit` value |
| Vocabulary.ProdComponents | src/lib.rs:148 | a `Prod` value is exactly its two typed components |
| Vocabulary.SumIsLeftOrRight | src/lib.rs:188-193 | a `Sum` value is exactly one of `Left` and `Right`, typed by its side |
| Vocabulary.HasType | src/lib.rs:148 | the values of each representation type; its partners ProdComponents, SumIsLeftOrRight and MarkerCarriesNoData state them for `Prod`, `Sum` and `Meta` |
| Vocabulary.Get | src/lib.rs:259-264 | `Singleton::get` of a marker; MetaDataIsStatic states that it alone fixes a `Meta` node's metadata |
| Vocabulary.MetaDataIsStatic | src/lib.rs:256-264 | the metadata of a `Meta` node is `get()` of its marker, whatever the wrapped type; instantiating type parameters leaves the metadata of every type that is not a replaced parameter unchanged |
| Vocabulary.EraseMetaTyIsMetaFree | src/lib.rs:235-236 | erasing metadata leaves no `Meta` node anywhere and no metadata at the root; a type without `Meta` nodes is left unchanged |
| Vocabulary.MarkerCarriesNoData | src/lib.rs:195-200 | the marker adds nothing to the values of a `Meta` node |
| Vocabulary.StripMeta | src/lib.rs:245-250 | `let Meta(inner, _) = repr` gives back the wrapped value |
| Vocabulary.EraseMetaTyped | src/lib.rs:235-236 | removing every `Meta` node keeps a value well typed at the erased type |
| Prim.ReprOf | src/prim.rs:7 | a registered type is its own `Repr`, a leaf that is registered |
| Prim.IntoRepr | src/prim.rs:8-10 | converting a primitive value gives a value of its `Repr` |
| Prim.FromRepr | src/prim.rs:11-13 | converting back gives a value of the primitive type |
| Prim.IdentityConversions | src/prim.rs:3-17 | `Repr` is the type itself and both conversions are the identity |
| Prim.PrimRoundTrips | src/prim.rs:3-17 | both round trips hold for every registered type |
| Prim.RegistryContents | src/prim.rs:19-23 | exactly ten distinct types are registered, every integer kind except `usize` and `isize`, and neither `bool` nor `char` |
| DocExamples.ThreeStructReprValues | src/lib.rs:137-138 | the values of `Prod<u8, Prod<u16, u32>>` are exactly the nested pairs of in-range numbers |
| DocExamples.ThreeStructInto | src/lib.rs:139-141 | the conversion is well typed exactly for in-range fields |
| DocExamples.ThreeStructFrom | src/lib.rs:142-145 | every value of the `Repr` gives a valid struct |
| DocExamples.ThreeStructRoundTrips | src/lib.rs:137-146 | both round trips hold |
| DocExamples.ThreeEnumReprValues | src/lib.rs:170-171 | the values of `Sum<u8, Sum<u16, u32>>` are exactly the three injections of in-range numbers |
| DocExamples.ThreeEnumInto | src/lib.rs:172-178 | variant one goes `Left`, two `Right(Left)`, three `Right(Right)`, well typed exactly for in-range payloads |
| DocExamples.ThreeEnumFrom | src/lib.rs:179-185 | every value of the `Repr` gives a valid variant |
| DocExamples.ThreeEnumRoundTrips | src/lib.rs:170-186 | both round trips hold |
| DocExamples.FooInto | src/lib.rs:216-218 | the unit struct converts to a value of `Meta<Unit, Foo_Name>` |
| DocExamples.FooFrom | src/lib.rs:219-222 | the result is the unit struct, the type's only value, and the pattern `Meta(Unit, _)` is irrefutable: every value of the `Repr` holds `Unit` under its `Meta` node |
| DocExamples.FooMetadata | src/lib.rs:225-232 | the marker's payload is "Foo", read from the type, and the round trip holds |
| DocExamples.DocAccumulable | src/lib.rs:33-55 | the types with an `Accumulate` impl in the trait's example: `u64`, and `Prod`/`Meta` over such types, but not `Unit` |
| DocExamples.DocAcc | src/lib.rs:37-55 | the example's `acc`; DocAccIsFixtureAcc ties it to the tests' `acc` |
| DocExamples.DocAccIsFixtureAcc | src/lib.rs:33-55 | every type with an impl in the example has one in the tests' fixture, and the two `acc`s agree on it |
| DocExamples.ProdOfNotDocAccumulable | src/lib.rs:57 | no left `Prod` spine over `Unit` has an `Accumulate` impl in the example |
| DocExamples.DerivedReprNotDocAccumulable | src/lib.rs:57 | no derived `Repr`, whatever the fields, meets the example's bound `T::Repr: Accumulate` |
| DocExamples.DocAccumulateRejected | src/lib.rs:71-72 | as written, the derived `Repr`s of the example's `Foo` and `Bar` do not meet that bound, so `accumulate(foo)` and `accumulate(bar)` are rejected |
| BasicStruct.Accumulable | tests/basic_struct.rs:7-39 | the types with an `Accumulate` impl in the test: `u64`, `Unit`, and `Prod`/`Meta` over such types; AccOfU64Spine shows every `u64` spine is one |
| BasicStruct.Acc | tests/basic_struct.rs:7-39 | the test's `acc`; its partners AccOfU64Spine and AccIgnoresMeta state what it computes |
| BasicStruct.Accumulate | tests/basic_struct.rs:41-47 | `accumulate(x) = x.into_repr().acc()`; its partner AccumulateSumsFields states it is the sum of the fields |
| BasicStruct.AccOfU64Spine | tests/basic_struct.rs:7-39 | a spine of `u64` leaves is `Accumulate`, and `acc` of it is the `Unit` value plus the sum of the leaves |
| BasicStruct.AccumulateSumsFields | tests/basic_struct.rs:41-47 | for every struct of `u64` fields, `accumulate` is the sum of the field values |
| BasicStruct.ImplAccSumsFields | tests/basic_struct.rs:41-47 | for every impl with the derived layout over `u64` fields, the representation is `Accumulate`, well typed, and `acc` of it is the sum of the field values |
| BasicStruct.AccIgnoresMeta | tests/basic_struct.rs:30-39 | `acc` through `Meta` nodes equals `acc` of the representation with `Meta` removed |
| BasicStruct.FooIsInstance | tests/basic_struct.rs:49-53 | `Foo { a: 19, b: 23 }` is a well-typed value of the derived `Foo` |
| BasicStruct.FooAccumulates42 | tests/basic_struct.rs:73 | `accumulate(foo) == 42` |
| BasicStruct.BarIsInstance | tests/basic_struct.rs:55-61 | `Bar { a: 1, b: 2, c: 3, d: 4 }` is a well-typed value of the derived `Bar` |
| BasicStruct.BarFieldValues | tests/basic_struct.rs:66-71 | the field values of `bar` are 1, 2, 3, 4 in order |
| BasicStruct.BarTotal | tests/basic_struct.rs:74 | their sum is 10 |
| BasicStruct.BarAccumulates10 | tests/basic_struct.rs:74 | `accumulate(bar) == 10` |
| Derive.ProdOfTwo | generics_derive/src/lib.rs:28-33 | the `Repr` spine of two fields is `Prod<Prod<Unit, A>, B>` |
| Conversion.ValueOfTwo | generics_derive/src/lib.rs:50-55 | the value spine of two fields is `Prod(Prod(Unit, a), b)` |
| Scenarios.TupleStructAccumulates42 | tests/struct_tuple.rs:30-37 | `Foo(19, 23)` is accessed by `0` and `1`, converts to `Prod(Prod(Unit, 19), 23)`, and `acc` gives 42 |
| Scenarios.UnitStructAccumulates13 | tests/struct_unit.rs:7-20 | `Foo` has `Repr` `Unit`, and `acc` with that test's `Unit` impl gives 13 |
| Scenarios.GenericRepr | tests/struct_generic.rs:30-34 | `Foo<T>` gets `Repr` `Prod<Prod<Unit, T>, T>` |
| Scenarios.GenericIntoRepr | tests/struct_generic.rs:47 | `Foo { a: 19u64, b: 23 }` converts to `Prod(Prod(Unit, 19), 23)` |
| Scenarios.GenericImplIntoRepr | tests/struct_generic.rs:30-47 | any impl with the layout derived for `{ a: T, b: T }` converts `{ a: 19, b: 23 }` to `Prod(Prod(Unit, 19), 23)` |
| Scenarios.AccAtU64 | tests/struct_generic.rs:50 | at `T = u64` the `Repr` is `Prod<Prod<Unit, u64>, u64>`, which is `Accumulate`; the converted value is a value of it, and `acc` of it is 42 |
| Scenarios.GenericStructAccumulates42 | tests/struct_generic.rs:30-51 | with or without an existing where-clause, the impl keeps the generics and `acc` gives 42 |
| Scenarios.ExistingWhereClauseKept | tests/struct_generic.rs:36-43 | the predicate `T: std::fmt::Display` reaches the impl unchanged |
| Scenarios.NestedStructNotAccumulable | tests/struct_nested.rs:36-49 | as written, `Four`'s `Repr` is `Prod<Prod<Unit, Two>, Two>`, which is not `Accumulate` |
| RecursiveMode.Find | tests/struct_nested.rs:30-40 | the struct found under a name is declared under that name; none is found only when none is declared |
| RecursiveMode.RecursiveRepr | tests/struct_nested.rs:36-40 | a field type's `Repr` in recursive mode; its partners RecursiveReprSpine and RecursiveReprClosed state its shape and leaves |
| RecursiveMode.RecursiveIntoRepr | tests/struct_nested.rs:49 | `into_repr` in recursive mode; RecursiveIntoReprTyped and RecursiveRoundTrip state its result |
| RecursiveMode.RecursiveFromRepr | tests/struct_nested.rs:49 | `from_repr` in recursive mode; RecursiveRoundTripRepr states it inverts `into_repr` |
| RecursiveMode.FieldReprs | tests/struct_nested.rs:36-40 | one `Repr` per field, the field type's own |
| RecursiveMode.ReprFields | tests/struct_nested.rs:36-40 | the fields handed to the shallow fold carry the fields' own `Repr`s as their types |
| RecursiveMode.RecursiveReprSpine | tests/struct_nested.rs:36-40 | a struct's recursive `Repr` is the spine of its fields' recursive `Repr`s |
| RecursiveMode.RecursiveReprIsShallowOverReprs | tests/struct_nested.rs:36-40 | the recursive `Repr` has one leaf per field, in order, each the field type's `Repr` |
| RecursiveMode.ClosedProdOf | src/lib.rs:76-80 | a spine over closed types is closed |
| RecursiveMode.RecursiveReprClosed | src/lib.rs:76-80 | every recursive `Repr` has no leaf other than registered integers |
| RecursiveMode.IntoFields | tests/struct_nested.rs:49 | each field value converted by its type's `into_repr` |
| RecursiveMode.FromFields | tests/struct_nested.rs:49 | each leaf converted back by its field type's `from_repr` |
| RecursiveMode.RecursiveIntoReprTyped | tests/struct_nested.rs:49 | a value of a recursively `Generic` type converts to a value of its recursive `Repr` |
| RecursiveMode.RecursiveRoundTrip | tests/struct_nested.rs:49 | `from_repr(into_repr(v)) == v`, recursively |
| RecursiveMode.WellFormedPrefix | tests/struct_nested.rs:30-40 | the structs declared before a struct are themselves well formed |
| RecursiveMode.SpineLeaves | tests/struct_nested.rs:49 | a value of a spine type is the spine of typed leaves |
| RecursiveMode.RecursiveRoundTripRepr | tests/struct_nested.rs:49 | every value of the recursive `Repr` converts back to a value of the type, and `into_repr(from_repr(r)) == r` |
| RecursiveMode.RecursiveWhereClause | generics_derive/src/lib.rs:73 | recursive extension, not derive behaviour: the item's where-clause followed by the field bounds; RecursiveWhereClauseKeeps and RecursiveWhereClauseOnly state what it holds |
| RecursiveMode.FieldBounds | generics_derive/src/lib.rs:73 | recursive extension, not derive behaviour (the derive emits the item's where-clause unchanged and adds no bound): one `FieldTy: Generic` predicate per field, in order |
| RecursiveMode.RecursiveWhereClauseKeeps | generics_derive/src/lib.rs:73 | recursive extension, not derive behaviour: the recursive where-clause keeps the item's predicates first and in order, and adds `FieldTy: Generic` for every field |
| RecursiveMode.RecursiveWhereClauseOnly | generics_derive/src/lib.rs:73 | recursive extension, not derive behaviour: every predicate of the recursive where-clause is the item's own or a field obligation |
| RecursiveMode.TwoRepr | tests/struct_nested.rs:30-34 | `Two`'s recursive `Repr` is `Prod<Prod<Unit, u64>, u64>` |
| RecursiveMode.AssembleStruct | tests/struct_nested.rs:49 | a struct built from well-typed field values is a value of the struct, and `into_repr` of it is the spine of the fields' conversions |
| RecursiveMode.TwoFieldStruct | tests/struct_nested.rs:30-40 | a two-field struct built from a value of each field's type is a value of the struct and converts to `Prod(Prod(Unit, a'), b')` of its fields' conversions |
| RecursiveMode.ZipTwo | tests/struct_nested.rs:44-47 | binding two accessors gives the two-entry struct literal |
| RecursiveMode.TwoIntoRepr | tests/struct_nested.rs:30-34 | `Two { a, b }` converts to `Prod(Prod(Unit, a), b)` |
| RecursiveMode.FourRepr | tests/struct_nested.rs:36-40 | `Four`'s recursive `Repr` nests two copies of `Two`'s |
| RecursiveMode.FourIntoRepr | tests/struct_nested.rs:44-47 | the test's `Four` value is a value of `Four` and converts to the nested spine of 18, 23, 19, 24 |
| RecursiveMode.TwoAcc | tests/struct_nested.rs:49 | `acc` of the spine of `Two { a, b }` is `a + b` |
| RecursiveMode.NestedStructAccumulates84 | tests/struct_nested.rs:49 | in recursive mode, `Four`'s `Repr` is `Accumulate` and `foo.into_repr().acc() == 84` |

## Left out

- Token handling: parsing the input with `syn`, quoting and printing the impl
  are not modelled; the impl is modelled as data (`GenericImpl`) whose terms are
  interpreted.
- Enums: the derive stops with `unimplemented!`, modelled as an error; no
  `Sum` fold for enums is invented.
- `Meta` metadata: the derive emits no `Meta` nodes; `Meta` appears only in the
  vocabulary and the documentation examples.
- Type checking of the emitted impl: whether a struct's field types implement
  the traits an operation needs is modelled only by `BasicStruct.Accumulable`
  and `RecursiveMode.IsGeneric`. A value of a user-defined type (`Adt`) is
  checked by its struct name only, not by its fields or type arguments;
  `HasType` is false on a type parameter (`Param`).
- BasicStruct.Acc: sums are unbounded naturals; `u64` overflow of `acc` is not modelled.
- DocExamples.DocAcc: sums are unbounded naturals; `u64` overflow of `acc` is not modelled.
- BasicStruct.Acc: the `Unit` impl returns the parameter `unitAcc` (0, or 13 in
  the unit-struct test), since each test defines its own `Accumulate`.
- The trait in `src/lib.rs` declares `into`/`from` while the derive and
  `src/prim.rs` define `into_repr`/`from_repr`; the model uses one pair of
  conversions and ignores the naming mismatch.
- `usize` and `isize` are taken to be 64 bits wide in `Vocabulary.InRange`.
- The zero-size and no-runtime-overhead claims about `Meta` and `Singleton`
  are about memory layout and are not modelled beyond
  `Vocabulary.MarkerCarriesNoData`.
- RecursiveMode.IsGeneric: only structs without type arguments declared earlier
  in the list, and registered integers, are recursively `Generic`; generic
  structs in recursive mode are not modelled.

## Findings

| source | as written | input that shows it | evidently intended | confidence | as-written member | corrected member |
|---|---|---|---|---|---|---|
| src/lib.rs:71 | the example has `Accumulate` impls for `u64`, `Prod` and `Meta` only, while the derived `Repr` of `Foo` ends in `Unit`, so `T::Repr: Accumulate` fails | `Foo { a: 19, b: 23 }`, whose `Repr` is `Prod<Prod<Unit, u64>, u64>` | an `impl Accumulate for Unit` returning 0, as the tests have, giving 42 | not executed | DocExamples.DocAccumulateRejected | BasicStruct.FooAccumulates42 |
| src/lib.rs:72 | the same for `Bar`, whose `Repr` also ends in `Unit` | `Bar { a: 1, b: 2, c: 3, d: 4 }` | the same `Unit` impl, giving 10 | not executed | DocExamples.DocAccumulateRejected | BasicStruct.BarAccumulates10 |
| tests/struct_nested.rs:49 | the derive embeds each field's declared type, so `Four`'s `Repr` is `Prod<Prod<Unit, Two>, Two>`, and `Two` has no `Accumulate` impl | `Four { a: Two { a: 18, b: 23 }, b: Two { a: 19, b: 24 } }` | each field's own `Repr` is embedded (recursive mode), giving `acc` = 84 | not executed | Scenarios.NestedStructNotAccumulable | RecursiveMode.NestedStructAccumulates84 |
