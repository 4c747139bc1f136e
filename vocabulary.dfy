/**
 * The representation vocabulary of the `generics` crate: the Rust types a
 * derived `Repr` is built from (`Unit`, `Prod`, `Sum`, `Meta`), the marker
 * types behind `Meta` with their `Singleton` payload, and just enough of the
 * rest of Rust's types and values to say which value inhabits which type.
 */
module Vocabulary {

  import opened Wrappers

  /** The integer types of Rust. `usize`/`isize` are taken to be 64 bits wide. */
  datatype IntKind = U8 | U16 | U32 | U64 | U128 | Usize | I8 | I16 | I32 | I64 | I128 | Isize

  /**
   * A zero-sized marker type used as the second parameter of `Meta`, together
   * with the constant its `Singleton::get` returns.
   */
  datatype Marker = Marker(typeName: string, payload: string)

  /** Rust types, as far as the derivation and its tests look at them. */
  datatype Ty =
    | Int(kind: IntKind)
    | Bool
    | Char
    | Unit
    | Prod(fst: Ty, snd: Ty)
    | Sum(left: Ty, right: Ty)
    | Meta(inner: Ty, marker: Marker)
    | Adt(name: string, args: seq<Ty>)  // a user-defined struct or enum, with its type arguments
    | Param(name: string)               // a type parameter of the item being derived

  /** How a struct field is named in a struct expression or pattern: `a` or, for a tuple field, `0`. */
  datatype Accessor = Ident(ident: string) | Index(index: nat)

  /**
   * Rust values. `ProdV`, `LeftV`/`RightV` and `MetaV` are the values of the
   * vocabulary structs; `MetaV` holds the inner value only, because its
   * `PhantomData` marker carries no data. A struct value maps each of its
   * field accessors to that field's value.
   */
  datatype Value =
    | IntV(n: int)
    | BoolV(b: bool)
    | CharV(c: char)
    | UnitV
    | ProdV(fst: Value, snd: Value)
    | LeftV(l: Value)
    | RightV(r: Value)
    | MetaV(inner: Value)
    | StructV(name: string, fields: map<Accessor, Value>)

  /** `n` is a value of the integer type `k`. */
  predicate InRange(k: IntKind, n: int)
  {
    match k
    case U8 => 0 <= n < 0x100
    case U16 => 0 <= n < 0x1_0000
    case U32 => 0 <= n < 0x1_0000_0000
    case U64 => 0 <= n < 0x1_0000_0000_0000_0000
    case U128 => 0 <= n < 0x1_0000_0000_0000_0000_0000_0000_0000_0000
    case Usize => 0 <= n < 0x1_0000_0000_0000_0000
    case I8 => -0x80 <= n < 0x80
    case I16 => -0x8000 <= n < 0x8000
    case I32 => -0x8000_0000 <= n < 0x8000_0000
    case I64 => -0x8000_0000_0000_0000 <= n < 0x8000_0000_0000_0000
    case I128 => -0x8000_0000_0000_0000_0000_0000_0000_0000 <= n < 0x8000_0000_0000_0000_0000_0000_0000_0000
    case Isize => -0x8000_0000_0000_0000 <= n < 0x8000_0000_0000_0000
  }

  /**
   * `v` is a value of the closed type `t`. A type parameter has no values of
   * its own: a generic item's values are those of its instantiations (`Subst`).
   * Values of a user-defined type are only checked for the type's name here.
   */
  predicate HasType(v: Value, t: Ty)
  {
    match t
    case Int(k) => v.IntV? && InRange(k, v.n)
    case Bool => v.BoolV?
    case Char => v.CharV?
    case Unit => v == UnitV
    case Prod(a, b) => v.ProdV? && HasType(v.fst, a) && HasType(v.snd, b)
    case Sum(a, b) => (v.LeftV? && HasType(v.l, a)) || (v.RightV? && HasType(v.r, b))
    case Meta(i, _) => v.MetaV? && HasType(v.inner, i)
    case Adt(name, _) => v.StructV? && v.name == name
    case Param(_) => false
  }

  /** A type that is not one of the four vocabulary shapes: a leaf of any representation. */
  predicate IsLeaf(t: Ty)
  {
    !(t.Unit? || t.Prod? || t.Sum? || t.Meta?)
  }

  /** A `Prod` value carries exactly two components, and destructuring it gives them back. */
  lemma ProdComponents(v: Value, a: Ty, b: Ty)
    requires HasType(v, Prod(a, b))
    ensures v == ProdV(v.fst, v.snd) && HasType(v.fst, a) && HasType(v.snd, b)
  {
  }

  /** A `Sum` value is exactly one of `Left(l)` or `Right(r)`. */
  lemma SumIsLeftOrRight(v: Value, a: Ty, b: Ty)
    requires HasType(v, Sum(a, b))
    ensures v.LeftV? != v.RightV?
    ensures v.LeftV? ==> HasType(v.l, a)
    ensures v.RightV? ==> HasType(v.r, b)
  {
  }

  /** `Singleton::get`: the payload is a function of the marker type, no instance needed. */
  function Get(m: Marker): string
  {
    m.payload
  }

  /**
   * The metadata a `Meta` node offers, read from its type alone; `None` for a
   * node that is not a `Meta`.
   */
  function MetaData(t: Ty): (d: Option<string>)
    ensures d.Some? <==> t.Meta?
    ensures t.Meta? ==> d.value == Get(t.marker)
  {
    if t.Meta? then Some(Get(t.marker)) else None
  }

  /**
   * The metadata is fixed by the marker type: it does not depend on the type
   * the `Meta` node wraps, and instantiating type parameters leaves it as it
   * was, except where a parameter itself is replaced.
   */
  lemma MetaDataIsStatic(t: Ty, s: map<string, Ty>, i1: Ty, i2: Ty, m: Marker)
    ensures MetaData(Meta(i1, m)) == MetaData(Meta(i2, m)) == Some(Get(m))
    ensures !t.Param? ==> MetaData(Subst(t, s)) == MetaData(t)
    ensures t.Param? && t.name in s ==> MetaData(Subst(t, s)) == MetaData(s[t.name])
  {
  }

  /** No `Meta` node anywhere in the type. */
  predicate MetaFree(t: Ty)
  {
    match t
    case Prod(a, b) => MetaFree(a) && MetaFree(b)
    case Sum(a, b) => MetaFree(a) && MetaFree(b)
    case Meta(_, _) => false
    case _ => true
  }

  /**
   * Erasing metadata leaves none: no `Meta` node remains anywhere, so the
   * erased type offers no metadata, and a type without metadata is unchanged.
   */
  lemma {:induction false} EraseMetaTyIsMetaFree(t: Ty)
    ensures MetaFree(EraseMetaTy(t)) && MetaData(EraseMetaTy(t)).None?
    ensures MetaFree(t) ==> EraseMetaTy(t) == t
  {
    match t
    case Prod(a, b) =>
      EraseMetaTyIsMetaFree(a);
      EraseMetaTyIsMetaFree(b);
    case Sum(a, b) =>
      EraseMetaTyIsMetaFree(a);
      EraseMetaTyIsMetaFree(b);
    case Meta(i, _) =>
      EraseMetaTyIsMetaFree(i);
    case _ =>
  }

  /**
   * The marker of a `Meta` node adds nothing to its values: the same value
   * inhabits `Meta<I, M1>` and `Meta<I, M2>` for any two markers.
   */
  lemma MarkerCarriesNoData(v: Value, i: Ty, m1: Marker, m2: Marker)
    ensures HasType(v, Meta(i, m1)) <==> HasType(v, Meta(i, m2))
  {
  }

  /** Stripping a `Meta` node: `let Meta(inner, _) = repr;`. */
  function StripMeta(v: Value): (inner: Value)
    requires v.MetaV?
    ensures MetaV(inner) == v
  {
    v.inner
  }

  /** The type with every `Meta` node replaced by its inner type. */
  function EraseMetaTy(t: Ty): (r: Ty)
  {
    match t
    case Prod(a, b) => Prod(EraseMetaTy(a), EraseMetaTy(b))
    case Sum(a, b) => Sum(EraseMetaTy(a), EraseMetaTy(b))
    case Meta(i, _) => EraseMetaTy(i)
    case _ => t
  }

  /** The value with every `MetaV` node replaced by its inner value. */
  function EraseMeta(v: Value): Value
  {
    match v
    case ProdV(a, b) => ProdV(EraseMeta(a), EraseMeta(b))
    case LeftV(a) => LeftV(EraseMeta(a))
    case RightV(b) => RightV(EraseMeta(b))
    case MetaV(i) => EraseMeta(i)
    case _ => v
  }

  /** Erasing metadata from a well-typed value gives a value of the erased type. */
  lemma {:induction false} EraseMetaTyped(v: Value, t: Ty)
    requires HasType(v, t)
    ensures HasType(EraseMeta(v), EraseMetaTy(t))
  {
    match t
    case Prod(a, b) =>
      EraseMetaTyped(v.fst, a);
      EraseMetaTyped(v.snd, b);
    case Sum(a, b) =>
      if v.LeftV? { EraseMetaTyped(v.l, a); } else { EraseMetaTyped(v.r, b); }
    case Meta(i, _) =>
      EraseMetaTyped(v.inner, i);
    case _ =>
  }

  /** Instantiates the type parameters named in `s`. */
  function Subst(t: Ty, s: map<string, Ty>): Ty
  {
    match t
    case Prod(a, b) => Prod(Subst(a, s), Subst(b, s))
    case Sum(a, b) => Sum(Subst(a, s), Subst(b, s))
    case Meta(i, m) => Meta(Subst(i, s), m)
    case Adt(name, args) => Adt(name, seq(|args|, i requires 0 <= i < |args| => Subst(args[i], s)))
    case Param(name) => if name in s then s[name] else t
    case _ => t
  }

}
