/**
 * Recursive mode, an extension that the derive does not implement: every
 * field's own `Repr` is embedded where shallow mode embeds the field's
 * declared type, and `into_repr`/`from_repr` convert each field recursively.
 * It is what the nested test expects. The structs in scope are given as a
 * list in which each struct mentions only structs listed before it, which is
 * how the recursion is shown to end; registered integers are the base case.
 */
module RecursiveMode {

  import opened Wrappers
  import opened Vocabulary
  import opened Derive
  import opened Conversion
  import opened Prim
  import opened BasicStruct

  datatype StructDecl = StructDecl(name: string, fields: seq<Field>)

  /** Where the struct `name` is declared: the last declaration of that name. */
  function Find(decls: seq<StructDecl>, name: string): (k: Option<nat>)
    ensures k.Some? ==> k.value < |decls| && decls[k.value].name == name
    ensures k.None? ==> forall i :: 0 <= i < |decls| ==> decls[i].name != name
  {
    if decls == [] then None
    else if decls[|decls| - 1].name == name then Some(|decls| - 1)
    else Find(decls[..|decls| - 1], name)
  }

  /**
   * `t: Generic` in recursive mode: a registered integer type, or a struct
   * declared in `decls` (without type arguments) whose field types all are.
   */
  predicate IsGeneric(decls: seq<StructDecl>, t: Ty)
    decreases |decls|
  {
    if t.Adt? then
      var k := Find(decls, t.name);
      && t.args == []
      && k.Some?
      && forall i :: 0 <= i < |decls[k.value].fields| ==>
           IsGeneric(decls[..k.value], decls[k.value].fields[i].ty)
    else
      Registered(t)
  }

  /** `v` is a value of `t`, recursively through the fields of structs. */
  predicate IsValueOf(decls: seq<StructDecl>, t: Ty, v: Value)
    decreases |decls|
  {
    if t.Adt? then
      var k := Find(decls, t.name);
      && t.args == []
      && k.Some?
      && var fields := decls[k.value].fields;
         var accs := SelfFields(fields);
         && v.StructV? && v.name == t.name
         && v.fields.Keys == (set a | a in accs)
         && forall i :: 0 <= i < |fields| ==> IsValueOf(decls[..k.value], fields[i].ty, v.fields[accs[i]])
    else
      Registered(t) && HasType(v, t)
  }

  /** The `Repr` of each field type, in declaration order. */
  function FieldReprs(decls: seq<StructDecl>, fields: seq<Field>): (tys: seq<Ty>)
    requires forall i :: 0 <= i < |fields| ==> IsGeneric(decls, fields[i].ty)
    ensures |tys| == |fields|
    ensures forall i :: 0 <= i < |fields| ==> tys[i] == RecursiveRepr(decls, fields[i].ty)
    decreases |decls|, 1
  {
    seq(|fields|, i requires 0 <= i < |fields| => RecursiveRepr(decls, fields[i].ty))
  }

  /** The fields of a struct with each declared type replaced by that type's own `Repr`. */
  function ReprFields(decls: seq<StructDecl>, fields: seq<Field>): (r: seq<Field>)
    requires forall i :: 0 <= i < |fields| ==> IsGeneric(decls, fields[i].ty)
    ensures |r| == |fields| && FieldTypes(r) == FieldReprs(decls, fields)
    decreases |decls|, 2
  {
    var tys := FieldReprs(decls, fields);
    seq(|fields|, i requires 0 <= i < |fields| => Field(fields[i].name, tys[i]))
  }

  /**
   * `<T as Generic>::Repr` in recursive mode: for a struct, what the shallow
   * engine derives for the struct's fields once each field type is replaced
   * by its own `Repr`.
   */
  function RecursiveRepr(decls: seq<StructDecl>, t: Ty): Ty
    requires IsGeneric(decls, t)
    decreases |decls|, 0
  {
    if t.Adt? then
      var k := Find(decls, t.name).value;
      ReprType(ReprFields(decls[..k], decls[k].fields))
    else
      ReprOf(t)
  }

  /** Each field value converted to its type's `Repr`. */
  function IntoFields(decls: seq<StructDecl>, fields: seq<Field>, vals: seq<Value>): (reprs: seq<Value>)
    requires |vals| == |fields|
    requires forall i :: 0 <= i < |fields| ==> IsValueOf(decls, fields[i].ty, vals[i])
    ensures |reprs| == |fields|
    ensures forall i :: 0 <= i < |fields| ==> reprs[i] == RecursiveIntoRepr(decls, fields[i].ty, vals[i])
    decreases |decls|, 1
  {
    seq(|fields|, i requires 0 <= i < |fields| => RecursiveIntoRepr(decls, fields[i].ty, vals[i]))
  }

  /** The recursive `into_repr`: the shallow layout, with every field converted in turn. */
  function RecursiveIntoRepr(decls: seq<StructDecl>, t: Ty, v: Value): Value
    requires IsValueOf(decls, t, v)
    decreases |decls|, 0
  {
    if t.Adt? then
      var k := Find(decls, t.name).value;
      var fields := decls[k].fields;
      ValueOf(IntoFields(decls[..k], fields, FieldsOf(SelfFields(fields), v)))
    else
      Prim.IntoRepr(t, v)
  }

  /** The `Repr` of a struct is the spine of its fields' `Repr`s. */
  lemma RecursiveReprSpine(decls: seq<StructDecl>, t: Ty)
    requires IsGeneric(decls, t) && t.Adt?
    ensures var k := Find(decls, t.name).value;
            RecursiveRepr(decls, t) == ProdOf(FieldReprs(decls[..k], decls[k].fields))
  {
    var k := Find(decls, t.name).value;
    ReprTypeIsProdOf(ReprFields(decls[..k], decls[k].fields));
  }

  /** Each field's `Repr` value converted back to the field's type. */
  function FromFields(decls: seq<StructDecl>, fields: seq<Field>, reprs: seq<Value>): (vals: seq<Value>)
    requires |reprs| == |fields|
    requires forall i :: 0 <= i < |fields| ==> IsGeneric(decls, fields[i].ty)
    requires forall i :: 0 <= i < |fields| ==> HasType(reprs[i], RecursiveRepr(decls, fields[i].ty))
    ensures |vals| == |fields|
    ensures forall i :: 0 <= i < |fields| ==> vals[i] == RecursiveFromRepr(decls, fields[i].ty, reprs[i])
    decreases |decls|, 1
  {
    seq(|fields|, i requires 0 <= i < |fields| => RecursiveFromRepr(decls, fields[i].ty, reprs[i]))
  }

  /** The recursive `from_repr`: split the spine, convert every leaf back, build the struct. */
  function RecursiveFromRepr(decls: seq<StructDecl>, t: Ty, r: Value): Value
    requires IsGeneric(decls, t) && HasType(r, RecursiveRepr(decls, t))
    decreases |decls|, 0
  {
    if t.Adt? then
      var k := Find(decls, t.name).value;
      var fields := decls[k].fields;
      var tys := FieldReprs(decls[..k], fields);
      RecursiveReprSpine(decls, t);
      HasTypeSpine(r, tys);
      var leaves := ValueSpine(r).value;
      ValueSpineDetermines(r);
      HasTypeValueOf(leaves, tys);
      StructV(t.name, Zip(SelfFields(fields), FromFields(decls[..k], fields, leaves)))
    else
      Prim.FromRepr(t, r)
  }

  /** A representation built only from the vocabulary, with registered integers as its only leaves. */
  predicate Closed(t: Ty)
  {
    match t
    case Unit => true
    case Prod(a, b) => Closed(a) && Closed(b)
    case Sum(a, b) => Closed(a) && Closed(b)
    case Meta(i, _) => Closed(i)
    case _ => Registered(t)
  }

  lemma {:induction false} ClosedProdOf(tys: seq<Ty>)
    requires forall i :: 0 <= i < |tys| ==> Closed(tys[i])
    ensures Closed(ProdOf(tys))
    decreases |tys|
  {
    if tys != [] {
      ClosedProdOf(tys[..|tys| - 1]);
    }
  }

  /**
   * Recursive mode closes the vocabulary: the `Repr` of every recursively
   * `Generic` type has no leaf but registered integers.
   */
  lemma {:induction false} RecursiveReprClosed(decls: seq<StructDecl>, t: Ty)
    requires IsGeneric(decls, t)
    ensures Closed(RecursiveRepr(decls, t))
    decreases |decls|
  {
    if t.Adt? {
      var k := Find(decls, t.name).value;
      var fields := decls[k].fields;
      var tys := FieldReprs(decls[..k], fields);
      forall i | 0 <= i < |fields| ensures Closed(tys[i]) {
        RecursiveReprClosed(decls[..k], fields[i].ty);
      }
      RecursiveReprSpine(decls, t);
      ClosedProdOf(tys);
    } else {
      assert RecursiveRepr(decls, t) == t;
    }
  }

  /** A value of a type is converted to a value of its recursive `Repr`. */
  lemma {:induction false} RecursiveIntoReprTyped(decls: seq<StructDecl>, t: Ty, v: Value)
    requires IsValueOf(decls, t, v)
    ensures IsGeneric(decls, t)
    ensures HasType(RecursiveIntoRepr(decls, t, v), RecursiveRepr(decls, t))
    decreases |decls|
  {
    if t.Adt? {
      var k := Find(decls, t.name).value;
      var sub := decls[..k];
      var fields := decls[k].fields;
      var vals := FieldsOf(SelfFields(fields), v);
      forall i | 0 <= i < |fields|
        ensures IsGeneric(sub, fields[i].ty)
        ensures HasType(RecursiveIntoRepr(sub, fields[i].ty, vals[i]), RecursiveRepr(sub, fields[i].ty))
      {
        RecursiveIntoReprTyped(sub, fields[i].ty, vals[i]);
      }
      assert IsGeneric(decls, t);
      RecursiveReprSpine(decls, t);
      HasTypeValueOf(IntoFields(sub, fields, vals), FieldReprs(sub, fields));
    }
  }

  /** Round trip from the value: `from_repr(into_repr(v)) == v`, recursively. */
  lemma {:induction false} RecursiveRoundTrip(decls: seq<StructDecl>, t: Ty, v: Value)
    requires IsValueOf(decls, t, v)
    ensures IsGeneric(decls, t) && HasType(RecursiveIntoRepr(decls, t, v), RecursiveRepr(decls, t))
    ensures RecursiveFromRepr(decls, t, RecursiveIntoRepr(decls, t, v)) == v
    decreases |decls|
  {
    RecursiveIntoReprTyped(decls, t, v);
    if t.Adt? {
      var k := Find(decls, t.name).value;
      var sub := decls[..k];
      var fields := decls[k].fields;
      var accs := SelfFields(fields);
      var vals := FieldsOf(accs, v);
      var reprs := IntoFields(sub, fields, vals);
      assert RecursiveIntoRepr(decls, t, v) == ValueOf(reprs);
      ValueSpineOf(reprs);
      forall i | 0 <= i < |fields|
        ensures HasType(reprs[i], RecursiveRepr(sub, fields[i].ty))
        ensures RecursiveFromRepr(sub, fields[i].ty, reprs[i]) == vals[i]
      {
        RecursiveRoundTrip(sub, fields[i].ty, vals[i]);
      }
      var back := FromFields(sub, fields, reprs);
      assert back == vals;
      ZipOfLookups(accs, vals, v.fields);
      assert RecursiveFromRepr(decls, t, ValueOf(reprs)) == StructV(t.name, Zip(accs, back));
    }
  }

  /** Every struct in scope has distinct field names. */
  predicate WellFormed(decls: seq<StructDecl>)
  {
    forall k :: 0 <= k < |decls| ==> DistinctNames(decls[k].fields)
  }

  lemma WellFormedPrefix(decls: seq<StructDecl>, k: nat)
    requires WellFormed(decls) && k <= |decls|
    ensures WellFormed(decls[..k])
  {
    forall j | 0 <= j < k ensures DistinctNames(decls[..k][j].fields) {
      assert decls[..k][j] == decls[j];
    }
  }

  /** A value of a spine type, split into its leaves together with their types. */
  lemma SpineLeaves(r: Value, tys: seq<Ty>) returns (leaves: seq<Value>)
    requires HasType(r, ProdOf(tys))
    ensures |leaves| == |tys| && r == ValueOf(leaves) && ValueSpine(r) == Some(leaves)
    ensures forall i :: 0 <= i < |tys| ==> HasType(leaves[i], tys[i])
  {
    HasTypeSpine(r, tys);
    leaves := ValueSpine(r).value;
    ValueSpineDetermines(r);
    HasTypeValueOf(leaves, tys);
  }

  /**
   * Building a struct from field values of the right types gives a value of
   * the struct, and `into_repr` of it is the spine of the fields' conversions.
   */
  lemma AssembleStruct(decls: seq<StructDecl>, t: Ty, vals: seq<Value>, reprs: seq<Value>)
    requires WellFormed(decls) && IsGeneric(decls, t) && t.Adt?
    requires var k := Find(decls, t.name).value;
             var fields := decls[k].fields;
             && |vals| == |fields| && |reprs| == |fields|
             && forall i :: 0 <= i < |fields| ==>
                  IsValueOf(decls[..k], fields[i].ty, vals[i]) &&
                  RecursiveIntoRepr(decls[..k], fields[i].ty, vals[i]) == reprs[i]
    ensures var k := Find(decls, t.name).value;
            var x := StructV(t.name, Zip(SelfFields(decls[k].fields), vals));
            IsValueOf(decls, t, x) && RecursiveIntoRepr(decls, t, x) == ValueOf(reprs)
  {
    var k := Find(decls, t.name).value;
    var sub := decls[..k];
    var fields := decls[k].fields;
    var accs := SelfFields(fields);
    var x := StructV(t.name, Zip(accs, vals));
    SelfFieldsDistinct(fields);
    forall i | 0 <= i < |fields| ensures x.fields[accs[i]] == vals[i] {
      ZipAt(accs, vals, i);
    }
    assert IsValueOf(decls, t, x);
    assert FieldsOf(accs, x) == vals;
    assert IntoFields(sub, fields, vals) == reprs;
  }

  /**
   * Round trip from the representation: every value of the recursive `Repr`
   * is converted back to a value of the type, and `into_repr(from_repr(r)) == r`.
   */
  lemma {:induction false} RecursiveRoundTripRepr(decls: seq<StructDecl>, t: Ty, r: Value)
    requires WellFormed(decls) && IsGeneric(decls, t) && HasType(r, RecursiveRepr(decls, t))
    ensures IsValueOf(decls, t, RecursiveFromRepr(decls, t, r))
    ensures RecursiveIntoRepr(decls, t, RecursiveFromRepr(decls, t, r)) == r
    decreases |decls|
  {
    if t.Adt? {
      var k := Find(decls, t.name).value;
      var sub := decls[..k];
      var fields := decls[k].fields;
      RecursiveReprSpine(decls, t);
      var leaves := SpineLeaves(r, FieldReprs(sub, fields));
      var back := FromFields(sub, fields, leaves);
      assert RecursiveFromRepr(decls, t, r) == StructV(t.name, Zip(SelfFields(fields), back));
      WellFormedPrefix(decls, k);
      forall i | 0 <= i < |fields|
        ensures IsValueOf(sub, fields[i].ty, back[i])
        ensures RecursiveIntoRepr(sub, fields[i].ty, back[i]) == leaves[i]
      {
        RecursiveRoundTripRepr(sub, fields[i].ty, leaves[i]);
      }
      AssembleStruct(decls, t, back, leaves);
    } else {
      assert RecursiveRepr(decls, t) == t;
    }
  }

  /**
   * The recursive `Repr` of a struct has one leaf per field, in declaration
   * order, and that leaf is the field type's own `Repr`.
   */
  lemma RecursiveReprIsShallowOverReprs(decls: seq<StructDecl>, t: Ty)
    requires IsGeneric(decls, t) && t.Adt?
    ensures var k := Find(decls, t.name).value;
            && ProdSpine(RecursiveRepr(decls, t)).Some?
            && |ProdSpine(RecursiveRepr(decls, t)).value| == |decls[k].fields|
            && forall i :: 0 <= i < |decls[k].fields| ==>
                 ProdSpine(RecursiveRepr(decls, t)).value[i] == RecursiveRepr(decls[..k], decls[k].fields[i].ty)
  {
    var k := Find(decls, t.name).value;
    ReprTypeShape(ReprFields(decls[..k], decls[k].fields));
  }

  // ---------------------------------------------------------------------------
  // Constraints
  // ---------------------------------------------------------------------------

  /** One `FieldTy: Generic` obligation per field, in declaration order. */
  function FieldBounds(fields: seq<Field>): (bounds: seq<WherePredicate>)
    ensures |bounds| == |fields|
    ensures forall i :: 0 <= i < |fields| ==> bounds[i] == Bound(fields[i].ty, "Generic")
  {
    seq(|fields|, i requires 0 <= i < |fields| => Bound(fields[i].ty, "Generic"))
  }

  /**
   * The where-clause recursive mode needs: the item's own predicates, then
   * `FieldTy: Generic` for every field.
   */
  function RecursiveWhereClause(generics: Generics, fields: seq<Field>): seq<WherePredicate>
  {
    generics.whereClause + FieldBounds(fields)
  }

  /**
   * The recursive where-clause keeps the item's own predicates first and in
   * order, and adds an obligation for every field.
   */
  lemma RecursiveWhereClauseKeeps(generics: Generics, fields: seq<Field>)
    ensures var w := RecursiveWhereClause(generics, fields);
            && |w| == |generics.whereClause| + |fields|
            && w[..|generics.whereClause|] == generics.whereClause
            && forall i :: 0 <= i < |fields| ==> Bound(fields[i].ty, "Generic") in w
  {
    var w := RecursiveWhereClause(generics, fields);
    var n := |generics.whereClause|;
    forall i | 0 <= i < |fields| ensures Bound(fields[i].ty, "Generic") in w {
      assert w[n + i] == FieldBounds(fields)[i];
    }
  }

  /** The recursive where-clause adds nothing but the field obligations. */
  lemma RecursiveWhereClauseOnly(generics: Generics, fields: seq<Field>, p: WherePredicate)
    requires p in RecursiveWhereClause(generics, fields)
    ensures p in generics.whereClause || exists i :: 0 <= i < |fields| && p == Bound(fields[i].ty, "Generic")
  {
    var w := RecursiveWhereClause(generics, fields);
    var n := |generics.whereClause|;
    var j :| 0 <= j < |w| && w[j] == p;
    if j < n {
      assert p == generics.whereClause[j];
    } else {
      assert p == FieldBounds(fields)[j - n];
    }
  }

  // ---------------------------------------------------------------------------
  // The nested test
  // ---------------------------------------------------------------------------

  const TwoDecl: StructDecl := StructDecl("Two", [Field(Some("a"), Int(U64)), Field(Some("b"), Int(U64))])

  const FourDecl: StructDecl := StructDecl("Four", [Field(Some("a"), Adt("Two", [])), Field(Some("b"), Adt("Two", []))])

  const NestedDecls: seq<StructDecl> := [TwoDecl, FourDecl]

  function TwoValue(a: int, b: int): Value
  {
    StructV("Two", map[Ident("a") := IntV(a), Ident("b") := IntV(b)])
  }

  /** `Four { a: Two { a: 18, b: 23 }, b: Two { a: 19, b: 24 } }` */
  const FourValue: Value := StructV("Four", map[Ident("a") := TwoValue(18, 23), Ident("b") := TwoValue(19, 24)])

  lemma TwoRepr()
    ensures IsGeneric([TwoDecl], Adt("Two", []))
    ensures RecursiveRepr([TwoDecl], Adt("Two", [])) == Prod(Prod(Unit, Int(U64)), Int(U64))
  {
    var t := Adt("Two", []);
    assert Find([TwoDecl], "Two") == Some(0);
    assert [TwoDecl][..0] == [];
    assert Registered(Int(U64)) by { assert Registry[3] == U64; }
    assert IsGeneric([TwoDecl], t);
    var tys := FieldReprs([], TwoDecl.fields);
    assert tys == [Int(U64), Int(U64)];
    RecursiveReprSpine([TwoDecl], t);
    assert RecursiveRepr([TwoDecl], t) == ProdOf(tys);
    ProdOfTwo(Int(U64), Int(U64));
  }

  /**
   * A struct with two fields, built from a value of each field's type, is a
   * value of the struct and converts to `Prod(Prod(Unit, a'), b')` where `a'`
   * and `b'` are the fields' own conversions.
   */
  lemma TwoFieldStruct(decls: seq<StructDecl>, t: Ty, a: Value, b: Value)
    requires WellFormed(decls) && t.Adt? && t.args == [] && Find(decls, t.name).Some?
    requires var k := Find(decls, t.name).value;
             var fields := decls[k].fields;
             && |fields| == 2
             && IsValueOf(decls[..k], fields[0].ty, a) && IsValueOf(decls[..k], fields[1].ty, b)
    ensures var k := Find(decls, t.name).value;
            var fields := decls[k].fields;
            var v := StructV(t.name, Zip(SelfFields(fields), [a, b]));
            && IsValueOf(decls, t, v)
            && RecursiveIntoRepr(decls, t, v) ==
               ProdV(ProdV(UnitV, RecursiveIntoRepr(decls[..k], fields[0].ty, a)), RecursiveIntoRepr(decls[..k], fields[1].ty, b))
  {
    var k := Find(decls, t.name).value;
    var sub := decls[..k];
    var fields := decls[k].fields;
    RecursiveIntoReprTyped(sub, fields[0].ty, a);
    RecursiveIntoReprTyped(sub, fields[1].ty, b);
    forall i | 0 <= i < |fields| ensures IsGeneric(sub, fields[i].ty) {
      assert i == 0 || i == 1;
    }
    var vals := [a, b];
    var reprs := [RecursiveIntoRepr(sub, fields[0].ty, a), RecursiveIntoRepr(sub, fields[1].ty, b)];
    forall i | 0 <= i < |fields|
      ensures IsValueOf(sub, fields[i].ty, vals[i]) && RecursiveIntoRepr(sub, fields[i].ty, vals[i]) == reprs[i]
    {
      assert i == 0 || i == 1;
    }
    AssembleStruct(decls, t, vals, reprs);
    ValueOfTwo(reprs[0], reprs[1]);
  }

  lemma ZipTwo<K, V>(keys: seq<K>, a: V, b: V)
    requires |keys| == 2
    ensures Zip(keys, [a, b]) == map[keys[0] := a, keys[1] := b]
  {
    assert keys[..1] == [keys[0]] && [a, b][..1] == [a];
    assert keys[..1][..0] == [] && [a][..0] == [];
  }

  lemma TwoIntoRepr(a: int, b: int)
    requires 0 <= a < 0x1_0000_0000_0000_0000 && 0 <= b < 0x1_0000_0000_0000_0000
    ensures IsValueOf([TwoDecl], Adt("Two", []), TwoValue(a, b))
    ensures RecursiveIntoRepr([TwoDecl], Adt("Two", []), TwoValue(a, b)) == ProdV(ProdV(UnitV, IntV(a)), IntV(b))
  {
    assert Find([TwoDecl], "Two") == Some(0);
    assert [TwoDecl][..0] == [];
    assert Registered(Int(U64)) by { assert Registry[3] == U64; }
    assert SelfFields(TwoDecl.fields) == [Ident("a"), Ident("b")];
    assert IsValueOf([], Int(U64), IntV(a)) && IsValueOf([], Int(U64), IntV(b));
    assert WellFormed([TwoDecl]);
    TwoFieldStruct([TwoDecl], Adt("Two", []), IntV(a), IntV(b));
    ZipTwo([Ident("a"), Ident("b")], IntV(a), IntV(b));
  }

  lemma FourRepr()
    ensures IsGeneric(NestedDecls, Adt("Four", []))
    ensures RecursiveRepr(NestedDecls, Adt("Four", [])) ==
            Prod(Prod(Unit, Prod(Prod(Unit, Int(U64)), Int(U64))), Prod(Prod(Unit, Int(U64)), Int(U64)))
  {
    var four := Adt("Four", []);
    var two := Prod(Prod(Unit, Int(U64)), Int(U64));
    assert Find(NestedDecls, "Four") == Some(1);
    assert NestedDecls[..1] == [TwoDecl];
    TwoRepr();
    assert IsGeneric(NestedDecls, four);
    var tys := FieldReprs([TwoDecl], FourDecl.fields);
    assert tys == [two, two];
    RecursiveReprSpine(NestedDecls, four);
    assert RecursiveRepr(NestedDecls, four) == ProdOf(tys);
    ProdOfTwo(two, two);
  }

  lemma NestedDeclsWellFormed()
    ensures WellFormed(NestedDecls)
  {
    assert DistinctNames(TwoDecl.fields) && DistinctNames(FourDecl.fields);
  }

  lemma FourIntoRepr()
    ensures IsValueOf(NestedDecls, Adt("Four", []), FourValue)
    ensures RecursiveIntoRepr(NestedDecls, Adt("Four", []), FourValue) ==
            ProdV(ProdV(UnitV, ProdV(ProdV(UnitV, IntV(18)), IntV(23))), ProdV(ProdV(UnitV, IntV(19)), IntV(24)))
  {
    assert Find(NestedDecls, "Four") == Some(1);
    assert NestedDecls[..1] == [TwoDecl];
    assert SelfFields(FourDecl.fields) == [Ident("a"), Ident("b")];
    TwoIntoRepr(18, 23);
    TwoIntoRepr(19, 24);
    NestedDeclsWellFormed();
    TwoFieldStruct(NestedDecls, Adt("Four", []), TwoValue(18, 23), TwoValue(19, 24));
    ZipTwo([Ident("a"), Ident("b")], TwoValue(18, 23), TwoValue(19, 24));
  }

  /**
   * In recursive mode the nested test holds: `Four`'s `Repr` is built from two
   * copies of `Two`'s, it is `Accumulate`, and `acc` of `into_repr` is 84.
   */
  lemma NestedStructAccumulates84()
    ensures IsValueOf(NestedDecls, Adt("Four", []), FourValue)
    ensures IsGeneric(NestedDecls, Adt("Four", []))
    ensures Accumulable(RecursiveRepr(NestedDecls, Adt("Four", [])))
    ensures HasType(RecursiveIntoRepr(NestedDecls, Adt("Four", []), FourValue), RecursiveRepr(NestedDecls, Adt("Four", [])))
    ensures Acc(RecursiveIntoRepr(NestedDecls, Adt("Four", []), FourValue), RecursiveRepr(NestedDecls, Adt("Four", [])), 0) == 84
  {
    FourRepr();
    FourIntoRepr();
    RecursiveIntoReprTyped(NestedDecls, Adt("Four", []), FourValue);
    TwoAcc(18, 23);
    TwoAcc(19, 24);
    var two := Prod(Prod(Unit, Int(U64)), Int(U64));
    var v1 := ProdV(ProdV(UnitV, IntV(18)), IntV(23));
    var v2 := ProdV(ProdV(UnitV, IntV(19)), IntV(24));
    assert Acc(ProdV(ProdV(UnitV, v1), v2), Prod(Prod(Unit, two), two), 0) == Acc(v1, two, 0) + Acc(v2, two, 0);
  }

  /** `acc` of the spine of `Two { a, b }` is `a + b`. */
  lemma TwoAcc(a: int, b: int)
    requires 0 <= a < 0x1_0000_0000_0000_0000 && 0 <= b < 0x1_0000_0000_0000_0000
    ensures Accumulable(Prod(Prod(Unit, Int(U64)), Int(U64)))
    ensures HasType(ProdV(ProdV(UnitV, IntV(a)), IntV(b)), Prod(Prod(Unit, Int(U64)), Int(U64)))
    ensures Acc(ProdV(ProdV(UnitV, IntV(a)), IntV(b)), Prod(Prod(Unit, Int(U64)), Int(U64)), 0) == a + b
  {
    assert HasType(IntV(a), Int(U64)) && HasType(IntV(b), Int(U64));
    assert Acc(ProdV(UnitV, IntV(a)), Prod(Unit, Int(U64)), 0) == a;
  }

}
