/**
 * What the generated `into_repr` and `from_repr` do. `into_repr` is
 * `let Self { a1: _0, …, aN: _{N-1} } = self; repr_structure` and `from_repr`
 * is `let repr_structure = repr; Self { a1: _0, …, aN: _{N-1} }`: the same
 * term read once as an expression and once as a pattern. Both are interpreted
 * here over `Value`s; `None` stands for a value the Rust type checker would
 * not let through.
 */
module Conversion {

  import opened Wrappers
  import opened Vocabulary
  import opened Derive

  /** Evaluates a term as an expression under the bindings `env`; defined exactly when every variable of the term is bound. */
  function Eval(t: Term, env: map<string, Value>): (r: Option<Value>)
    ensures r.Some? <==> forall n :: n in TermVars(t) ==> n in env
  {
    match t
    case UnitTerm => Some(UnitV)
    case ProdTerm(a, b) =>
      var x := Eval(a, env);
      var y := Eval(b, env);
      if x.Some? && y.Some? then Some(ProdV(x.value, y.value)) else None
    case Var(name) => if name in env then Some(env[name]) else None
  }

  /** Matches a value against a term read as a pattern, giving the bindings it makes: one for each variable of the pattern. */
  function Match(p: Term, v: Value): (r: Option<map<string, Value>>)
    ensures r.Some? ==> r.value.Keys == set n | n in TermVars(p)
  {
    match p
    case UnitTerm => if v.UnitV? then Some(map[]) else None
    case ProdTerm(a, b) =>
      if !v.ProdV? then None
      else
        var l := Match(a, v.fst);
        var r := Match(b, v.snd);
        if l.Some? && r.Some? then Some(l.value + r.value) else None
    case Var(name) => Some(map[name := v])
  }

  /** `k1: v1, …, kN: vN` as a map; a later key overrides an earlier equal one. */
  function Zip<K, V>(keys: seq<K>, vals: seq<V>): (m: map<K, V>)
    requires |keys| == |vals|
    ensures m.Keys == set k | k in keys
    decreases |keys|
  {
    if keys == [] then map[]
    else Zip(keys[..|keys| - 1], vals[..|vals| - 1])[keys[|keys| - 1] := vals[|vals| - 1]]
  }

  /** Reference value shape: `Prod(…Prod(Prod(Unit, v1), v2)…, vN)`. */
  function ValueOf(vals: seq<Value>): Value
  {
    if vals == [] then UnitV else ProdV(ValueOf(vals[..|vals| - 1]), vals[|vals| - 1])
  }

  /** The value spine of two values, written out. */
  lemma ValueOfTwo(a: Value, b: Value)
    ensures ValueOf([a, b]) == ProdV(ProdV(UnitV, a), b)
  {
    assert [a, b][..1] == [a];
    assert ValueOf([a, b]) == ProdV(ValueOf([a]), b);
    assert [a][..0] == [];
    assert ValueOf([a]) == ProdV(ValueOf([]), a);
  }

  /** The leaves of a left spine of `Prod` values ending in `Unit`, in order. */
  function ValueSpine(v: Value): Option<seq<Value>>
  {
    match v
    case UnitV => Some([])
    case ProdV(a, b) =>
      var s := ValueSpine(a);
      if s.Some? then Some(s.value + [b]) else None
    case _ => None
  }

  /** `x` is a value of the struct the impl is for: its name, and exactly its fields. */
  predicate IsStructValue(impl: GenericImpl, x: Value)
  {
    x.StructV? && x.name == impl.selfName && x.fields.Keys == (set a | a in impl.selfFields)
  }

  /** The struct's field values in declaration order. */
  function FieldValues(impl: GenericImpl, x: Value): (vals: seq<Value>)
    requires IsStructValue(impl, x)
    ensures |vals| == |impl.selfFields|
    ensures forall i :: 0 <= i < |vals| ==> vals[i] == x.fields[impl.selfFields[i]]
  {
    FieldsOf(impl.selfFields, x)
  }

  /** The values a struct value holds at the given accessors, in that order. */
  function FieldsOf(accs: seq<Accessor>, x: Value): (vals: seq<Value>)
    requires x.StructV? && forall i :: 0 <= i < |accs| ==> accs[i] in x.fields
    ensures |vals| == |accs| && forall i :: 0 <= i < |accs| ==> vals[i] == x.fields[accs[i]]
  {
    seq(|accs|, i requires 0 <= i < |accs| => x.fields[accs[i]])
  }

  /** `x` is a well-typed value of the struct: every field holds a value of its declared type. */
  predicate IsInstance(impl: GenericImpl, fields: seq<Field>, x: Value)
  {
    && IsStructValue(impl, x)
    && |impl.selfFields| == |fields|
    && forall i :: 0 <= i < |fields| ==> HasType(x.fields[impl.selfFields[i]], fields[i].ty)
  }

  /** The generated `into_repr`: destructure `self` into the bindings, then build the term. */
  function IntoRepr(impl: GenericImpl, x: Value): (r: Option<Value>)
    ensures r.Some? ==> IsStructValue(impl, x)
  {
    if IsStructValue(impl, x) && |impl.ordinals| == |impl.selfFields| then
      Eval(impl.structure, Zip(impl.ordinals, FieldValues(impl, x)))
    else None
  }

  /** The struct expression `Self { a1: _0, …, aN: _{N-1} }` under the bindings `env`. */
  function Construct(impl: GenericImpl, env: map<string, Value>): (r: Option<Value>)
    ensures r.Some? ==> IsStructValue(impl, r.value)
    ensures r.Some? <==> |impl.ordinals| == |impl.selfFields| && forall n :: n in impl.ordinals ==> n in env
  {
    var ords := impl.ordinals;
    if |ords| == |impl.selfFields| && forall i :: 0 <= i < |ords| ==> ords[i] in env then
      Some(StructV(impl.selfName, Zip(impl.selfFields, seq(|ords|, i requires 0 <= i < |ords| => env[ords[i]]))))
    else None
  }

  /** The generated `from_repr`: match the term against `repr`, then build `Self`. */
  function FromRepr(impl: GenericImpl, r: Value): (x: Option<Value>)
    ensures x.Some? ==> IsStructValue(impl, x.value)
  {
    var env := Match(impl.structure, r);
    if env.Some? then Construct(impl, env.value) else None
  }

  // ---------------------------------------------------------------------------
  // Bindings
  // ---------------------------------------------------------------------------

  lemma {:induction false} ZipAt<K, V>(keys: seq<K>, vals: seq<V>, i: nat)
    requires |keys| == |vals| && Distinct(keys) && i < |keys|
    ensures Zip(keys, vals)[keys[i]] == vals[i]
    decreases |keys|
  {
    var n := |keys| - 1;
    if i < n {
      assert Distinct(keys[..n]);
      ZipAt(keys[..n], vals[..n], i);
    }
  }

  /** Every key looks up the value at some position where that key occurs. */
  lemma {:induction false} ZipLookup<K, V>(keys: seq<K>, vals: seq<V>, k: K) returns (j: nat)
    requires |keys| == |vals| && k in keys
    ensures j < |keys| && keys[j] == k && Zip(keys, vals)[k] == vals[j]
    decreases |keys|
  {
    var n := |keys| - 1;
    if keys[n] == k {
      j := n;
    } else {
      assert k in keys[..n] by {
        var i :| 0 <= i < |keys| && keys[i] == k;
        assert keys[..n][i] == k;
      }
      j := ZipLookup(keys[..n], vals[..n], k);
    }
  }

  /** Zipping the keys of a map with the values it holds for them gives back the map. */
  lemma ZipOfLookups<K, V>(keys: seq<K>, vals: seq<V>, m: map<K, V>)
    requires |keys| == |vals| && m.Keys == (set k | k in keys)
    requires forall i :: 0 <= i < |keys| ==> vals[i] == m[keys[i]]
    ensures Zip(keys, vals) == m
  {
    forall k | k in m
      ensures Zip(keys, vals)[k] == m[k]
    {
      var j := ZipLookup(keys, vals, k);
    }
  }

  // ---------------------------------------------------------------------------
  // The term as expression and as pattern
  // ---------------------------------------------------------------------------

  lemma {:induction false} EvalTermOf(names: seq<string>, env: map<string, Value>)
    requires forall i :: 0 <= i < |names| ==> names[i] in env
    ensures Eval(TermOf(names), env) == Some(ValueOf(seq(|names|, i requires 0 <= i < |names| => env[names[i]])))
    decreases |names|
  {
    if names != [] {
      var n := |names| - 1;
      EvalTermOf(names[..n], env);
      var all := seq(|names|, i requires 0 <= i < |names| => env[names[i]]);
      assert all[..n] == seq(n, i requires 0 <= i < n => env[names[..n][i]]);
    }
  }

  lemma {:induction false} MatchTermOf(names: seq<string>, vals: seq<Value>)
    requires |names| == |vals|
    ensures Match(TermOf(names), ValueOf(vals)) == Some(Zip(names, vals))
    decreases |names|
  {
    if names != [] {
      var n := |names| - 1;
      MatchTermOf(names[..n], vals[..n]);
      var m := Zip(names[..n], vals[..n]);
      assert m + map[names[n] := vals[n]] == m[names[n] := vals[n]];
    }
  }

  /** The pattern matches exactly the `Prod` spines with one leaf per binding. */
  lemma {:induction false} MatchTermOfShape(names: seq<string>, v: Value)
    ensures Match(TermOf(names), v).Some? <==> ValueSpine(v).Some? && |ValueSpine(v).value| == |names|
    decreases |names|
  {
    if names != [] {
      var n := |names| - 1;
      if v.ProdV? {
        MatchTermOfShape(names[..n], v.fst);
      }
    }
  }

  lemma {:induction false} ValueSpineOf(vals: seq<Value>)
    ensures ValueSpine(ValueOf(vals)) == Some(vals)
    decreases |vals|
  {
    if vals != [] {
      ValueSpineOf(vals[..|vals| - 1]);
      assert vals[..|vals| - 1] + [vals[|vals| - 1]] == vals;
    }
  }

  lemma {:induction false} ValueSpineDetermines(v: Value)
    requires ValueSpine(v).Some?
    ensures v == ValueOf(ValueSpine(v).value)
  {
    if v.ProdV? {
      ValueSpineDetermines(v.fst);
      var s := ValueSpine(v.fst).value;
      assert (s + [v.snd])[..|s|] == s;
    }
  }

  /** A spine of values has the spine type exactly when each leaf has its type. */
  lemma {:induction false} HasTypeValueOf(vals: seq<Value>, tys: seq<Ty>)
    requires |vals| == |tys|
    ensures HasType(ValueOf(vals), ProdOf(tys)) <==> forall i :: 0 <= i < |vals| ==> HasType(vals[i], tys[i])
    decreases |vals|
  {
    if vals != [] {
      var n := |vals| - 1;
      HasTypeValueOf(vals[..n], tys[..n]);
      assert forall i :: 0 <= i < n ==> vals[..n][i] == vals[i] && tys[..n][i] == tys[i];
    }
  }

  /** A value of a spine type is a spine with one leaf per leaf type. */
  lemma {:induction false} HasTypeSpine(v: Value, tys: seq<Ty>)
    requires HasType(v, ProdOf(tys))
    ensures ValueSpine(v).Some? && |ValueSpine(v).value| == |tys|
    decreases |tys|
  {
    if tys != [] {
      HasTypeSpine(v.fst, tys[..|tys| - 1]);
    }
  }

  // ---------------------------------------------------------------------------
  // The laws of the derived conversions
  // ---------------------------------------------------------------------------

  /**
   * `into_repr` is defined on every value of the struct, and leaf `i` of its
   * result holds field `i`, nested as the `Repr` type is.
   */
  lemma IntoReprLayout(impl: GenericImpl, fields: seq<Field>, x: Value)
    requires Implements(impl, fields) && IsStructValue(impl, x)
    ensures IntoRepr(impl, x) == Some(ValueOf(FieldValues(impl, x)))
    ensures ValueSpine(IntoRepr(impl, x).value) == Some(FieldValues(impl, x))
  {
    var vals := FieldValues(impl, x);
    var env := Zip(impl.ordinals, vals);
    EvalTermOf(impl.ordinals, env);
    forall i | 0 <= i < |vals| ensures env[impl.ordinals[i]] == vals[i] {
      ZipAt(impl.ordinals, vals, i);
    }
    assert seq(|vals|, i requires 0 <= i < |vals| => env[impl.ordinals[i]]) == vals;
    ValueSpineOf(vals);
  }

  /** `from_repr` accepts exactly the `Prod` spines over `Unit` with one leaf per field. */
  lemma FromReprDefined(impl: GenericImpl, fields: seq<Field>, r: Value)
    requires Implements(impl, fields)
    ensures FromRepr(impl, r).Some? <==> ValueSpine(r).Some? && |ValueSpine(r).value| == |fields|
  {
    MatchTermOfShape(impl.ordinals, r);
    var env := Match(impl.structure, r);
    if env.Some? {
      ValueSpineDetermines(r);
      MatchTermOf(impl.ordinals, ValueSpine(r).value);
    }
  }

  /** `from_repr` puts leaf `i` of a spine into field `i`. */
  lemma FromReprLayout(impl: GenericImpl, fields: seq<Field>, leaves: seq<Value>)
    requires Implements(impl, fields) && |leaves| == |fields|
    ensures FromRepr(impl, ValueOf(leaves)) == Some(StructV(impl.selfName, Zip(impl.selfFields, leaves)))
  {
    MatchTermOf(impl.ordinals, leaves);
    ConstructFromBindings(impl, leaves);
  }

  /** Binding the ordinals to `vals` and building `Self` puts `vals[i]` into field `i`. */
  lemma ConstructFromBindings(impl: GenericImpl, vals: seq<Value>)
    requires |impl.ordinals| == |impl.selfFields| == |vals| && Distinct(impl.ordinals)
    ensures Construct(impl, Zip(impl.ordinals, vals)) == Some(StructV(impl.selfName, Zip(impl.selfFields, vals)))
  {
    var ords := impl.ordinals;
    var env := Zip(ords, vals);
    forall i | 0 <= i < |ords| ensures env[ords[i]] == vals[i] {
      ZipAt(ords, vals, i);
    }
    assert seq(|ords|, i requires 0 <= i < |ords| => env[ords[i]]) == vals;
  }

  /** Round trip from the struct: `from_repr(into_repr(x)) == x` for every value of the struct. */
  lemma FromIntoRoundTrip(impl: GenericImpl, fields: seq<Field>, x: Value)
    requires Implements(impl, fields) && IsStructValue(impl, x)
    ensures IntoRepr(impl, x).Some?
    ensures FromRepr(impl, IntoRepr(impl, x).value) == Some(x)
  {
    IntoReprLayout(impl, fields, x);
    FromReprLayout(impl, fields, FieldValues(impl, x));
    RebuildStruct(impl, x);
  }

  /** Building `Self` from a struct value's own field values gives that value back. */
  lemma RebuildStruct(impl: GenericImpl, x: Value)
    requires IsStructValue(impl, x)
    ensures StructV(impl.selfName, Zip(impl.selfFields, FieldValues(impl, x))) == x
  {
    ZipOfLookups(impl.selfFields, FieldValues(impl, x), x.fields);
  }

  /**
   * Round trip from the representation: `into_repr(from_repr(r)) == r` for
   * every `r` that `from_repr` accepts, given that the struct's field names
   * are distinct.
   */
  lemma IntoFromRoundTrip(impl: GenericImpl, fields: seq<Field>, r: Value)
    requires Implements(impl, fields) && DistinctNames(fields)
    requires FromRepr(impl, r).Some?
    ensures IntoRepr(impl, FromRepr(impl, r).value) == Some(r)
  {
    FromReprDefined(impl, fields, r);
    var leaves := ValueSpine(r).value;
    ValueSpineDetermines(r);
    FromReprLayout(impl, fields, leaves);
    var y := FromRepr(impl, r).value;
    SelfFieldsDistinct(fields);
    forall i | 0 <= i < |leaves| ensures y.fields[impl.selfFields[i]] == leaves[i] {
      ZipAt(impl.selfFields, leaves, i);
    }
    assert FieldValues(impl, y) == leaves;
    IntoReprLayout(impl, fields, y);
  }

  /** `into_repr` maps a well-typed value of the struct to a value of its `Repr` type. */
  lemma IntoReprTyped(impl: GenericImpl, fields: seq<Field>, x: Value)
    requires Implements(impl, fields) && IsInstance(impl, fields, x)
    ensures IntoRepr(impl, x).Some? && HasType(IntoRepr(impl, x).value, impl.repr)
  {
    IntoReprLayout(impl, fields, x);
    ProdSpineDetermines(impl.repr);
    HasTypeValueOf(FieldValues(impl, x), FieldTypes(fields));
  }

  /** `from_repr` maps every value of the `Repr` type to a well-typed value of the struct. */
  lemma FromReprTyped(impl: GenericImpl, fields: seq<Field>, r: Value)
    requires Implements(impl, fields) && DistinctNames(fields)
    requires HasType(r, impl.repr)
    ensures FromRepr(impl, r).Some? && IsInstance(impl, fields, FromRepr(impl, r).value)
  {
    ProdSpineDetermines(impl.repr);
    HasTypeSpine(r, FieldTypes(fields));
    FromReprDefined(impl, fields, r);
    var leaves := ValueSpine(r).value;
    ValueSpineDetermines(r);
    HasTypeValueOf(leaves, FieldTypes(fields));
    FromReprLayout(impl, fields, leaves);
    SelfFieldsDistinct(fields);
    forall i | 0 <= i < |leaves| ensures Zip(impl.selfFields, leaves)[impl.selfFields[i]] == leaves[i] {
      ZipAt(impl.selfFields, leaves, i);
    }
  }

  /** A struct with no fields has `Repr = Unit`, and `into_repr` yields `Unit`. */
  lemma UnitStructIsUnit(impl: GenericImpl, x: Value)
    requires Implements(impl, []) && IsStructValue(impl, x)
    ensures impl.repr == Unit && IntoRepr(impl, x) == Some(UnitV)
  {
    ProdSpineDetermines(impl.repr);
    IntoReprLayout(impl, [], x);
  }

}
