/**
 * The primitive registry of `src/prim.rs`: `impl_identity!` makes each listed
 * integer type its own `Repr`, with identity conversions.
 */
module Prim {

  import opened Vocabulary

  /** The types `impl_identity!` is applied to, in the order listed. */
  const Registry: seq<IntKind> := [U8, U16, U32, U64, U128, I8, I16, I32, I64, I128]

  /** `t: Generic` by way of `impl_identity!`. */
  predicate Registered(t: Ty)
  {
    t.Int? && t.kind in Registry
  }

  /** `type Repr = $ty;`: the type itself, which is a leaf of any representation tree. */
  function ReprOf(t: Ty): (r: Ty)
    requires Registered(t)
    ensures IsLeaf(r) && Registered(r)
  {
    t
  }

  /** `fn into_repr(self) -> Self::Repr { self }` */
  function IntoRepr(t: Ty, x: Value): (r: Value)
    requires Registered(t) && HasType(x, t)
    ensures HasType(r, ReprOf(t))
  {
    x
  }

  /** `fn from_repr(repr: Self::Repr) -> Self { repr }` */
  function FromRepr(t: Ty, r: Value): (x: Value)
    requires Registered(t) && HasType(r, ReprOf(t))
    ensures HasType(x, t)
  {
    r
  }

  /** The `Repr` of a registered type is the type itself, and both conversions are the identity. */
  lemma IdentityConversions(t: Ty, x: Value)
    requires Registered(t) && HasType(x, t)
    ensures ReprOf(t) == t
    ensures IntoRepr(t, x) == x && FromRepr(t, x) == x
  {
  }

  /** Both round trips are the identity on a registered type. */
  lemma PrimRoundTrips(t: Ty, x: Value)
    requires Registered(t) && HasType(x, t)
    ensures FromRepr(t, IntoRepr(t, x)) == x
    ensures IntoRepr(t, FromRepr(t, x)) == x
  {
  }

  /**
   * The registry is exactly the signed and unsigned integers of 8 to 128 bits:
   * ten distinct types, and neither `usize`, `isize`, `bool` nor `char`.
   */
  lemma RegistryContents()
    ensures |Registry| == 10
    ensures forall i, j :: 0 <= i < j < |Registry| ==> Registry[i] != Registry[j]
    ensures forall k :: Registered(Int(k)) <==> k != Usize && k != Isize
    ensures !Registered(Bool) && !Registered(Char)
  {
    forall k: IntKind
      ensures Registered(Int(k)) <==> k != Usize && k != Isize
    {
      match k
      case U8 => assert Registry[0] == k;
      case U16 => assert Registry[1] == k;
      case U32 => assert Registry[2] == k;
      case U64 => assert Registry[3] == k;
      case U128 => assert Registry[4] == k;
      case I8 => assert Registry[5] == k;
      case I16 => assert Registry[6] == k;
      case I32 => assert Registry[7] == k;
      case I64 => assert Registry[8] == k;
      case I128 => assert Registry[9] == k;
      case Usize =>
      case Isize =>
    }
  }

}
