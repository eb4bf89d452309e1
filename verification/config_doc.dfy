/** The configuration document exchanged with the PLCs, compared with
    Python's `==` on dictionaries. It is modelled two levels deep, from a
    state or device name to a parameter name to a JSON scalar; the files on
    the PLCs nest further (hostname, device, state, parameter), and that
    extra depth is not modelled. */
module ConfigDoc {

  /** A JSON scalar as `json.loads` returns it. Floats are modelled as reals
      (no NaN or infinities). */
  datatype Scalar = Str(text: string) | Int(i: int) | Real(r: real) | Bool(b: bool) | Null

  type Params = map<string, Scalar>

  type Document = map<string, Params>

  predicate IsNumber(v: Scalar) {
    v.Int? || v.Real? || v.Bool?
  }

  /** The value Python compares a number by: `bool` is a subclass of `int`,
      and `int` and `float` compare by mathematical value. */
  function NumericValue(v: Scalar): real
    requires IsNumber(v)
  {
    match v
    case Int(i) => i as real
    case Real(r) => r
    case Bool(b) => if b then 1.0 else 0.0
  }

  /** Python's `==` on two scalars. */
  predicate ScalarEq(a: Scalar, b: Scalar) {
    if IsNumber(a) && IsNumber(b) then NumericValue(a) == NumericValue(b) else a == b
  }

  /** Python's `==` on two parameter dictionaries: the same keys, and equal
      values under each key. Key order plays no part. */
  predicate ParamsEq(a: Params, b: Params) {
    a.Keys == b.Keys && forall k :: k in a ==> ScalarEq(a[k], b[k])
  }

  /** Python's `==` on two documents. */
  predicate DocEq(a: Document, b: Document) {
    a.Keys == b.Keys && forall k :: k in a ==> ParamsEq(a[k], b[k])
  }

  // ---------------------------------------------------------------------
  // An independent reference: equality of canonical forms
  // ---------------------------------------------------------------------

  /** One representative per Python equality class: booleans and integral
      floats become integers. */
  function Canon(v: Scalar): (c: Scalar)
    ensures !c.Bool?
    ensures c.Real? ==> c.r.Floor as real != c.r
  {
    match v
    case Bool(b) => Int(if b then 1 else 0)
    case Real(r) => if r.Floor as real == r then Int(r.Floor) else Real(r)
    case _ => v
  }

  function CanonParams(p: Params): Params {
    map k | k in p :: Canon(p[k])
  }

  function CanonDoc(d: Document): Document {
    map k | k in d :: CanonParams(d[k])
  }

  /** Two scalars are equal in Python exactly when their canonical forms are
      identical. */
  lemma ScalarEqCanon(a: Scalar, b: Scalar)
    ensures ScalarEq(a, b) <==> Canon(a) == Canon(b)
  {
    if IsNumber(a) && IsNumber(b) {
      var x, y := NumericValue(a), NumericValue(b);
      assert Canon(a) == (if x.Floor as real == x then Int(x.Floor) else Real(x));
      assert Canon(b) == (if y.Floor as real == y then Int(y.Floor) else Real(y));
    }
  }

  lemma ParamsEqCanon(a: Params, b: Params)
    ensures ParamsEq(a, b) <==> CanonParams(a) == CanonParams(b)
  {
    forall k | k in a && k in b {
      ScalarEqCanon(a[k], b[k]);
    }
    if CanonParams(a) == CanonParams(b) {
      assert a.Keys == CanonParams(a).Keys;
      assert b.Keys == CanonParams(b).Keys;
      forall k | k in a
        ensures ScalarEq(a[k], b[k])
      {
        assert CanonParams(a)[k] == CanonParams(b)[k];
      }
    }
    if ParamsEq(a, b) {
      assert CanonParams(a).Keys == CanonParams(b).Keys;
      forall k | k in CanonParams(a)
        ensures CanonParams(a)[k] == CanonParams(b)[k]
      {
        ScalarEqCanon(a[k], b[k]);
      }
    }
  }

  /** Comparing two documents with Python's `==` is the same as comparing
      their canonical forms for identity; in particular the result cannot
      depend on the order keys were written in. */
  lemma DocEqCanon(a: Document, b: Document)
    ensures DocEq(a, b) <==> CanonDoc(a) == CanonDoc(b)
  {
    forall k | k in a && k in b {
      ParamsEqCanon(a[k], b[k]);
    }
    if CanonDoc(a) == CanonDoc(b) {
      assert a.Keys == CanonDoc(a).Keys;
      assert b.Keys == CanonDoc(b).Keys;
      forall k | k in a
        ensures ParamsEq(a[k], b[k])
      {
        assert CanonDoc(a)[k] == CanonDoc(b)[k];
      }
    }
    if DocEq(a, b) {
      assert CanonDoc(a).Keys == CanonDoc(b).Keys;
      forall k | k in CanonDoc(a)
        ensures CanonDoc(a)[k] == CanonDoc(b)[k]
      {
        ParamsEqCanon(a[k], b[k]);
      }
    }
  }

  /** Document equality is an equivalence relation. */
  lemma DocEqEquivalence(a: Document, b: Document, c: Document)
    ensures DocEq(a, a)
    ensures DocEq(a, b) ==> DocEq(b, a)
    ensures DocEq(a, b) && DocEq(b, c) ==> DocEq(a, c)
  {
    DocEqCanon(a, a);
    DocEqCanon(a, b);
    DocEqCanon(b, a);
    DocEqCanon(b, c);
    DocEqCanon(a, c);
  }

  /** A string never equals a number, even when it spells the same value. */
  lemma StringNeverEqualsNumber(s: string, v: Scalar, dev: string, key: string)
    requires IsNumber(v)
    ensures !DocEq(map[dev := map[key := Str(s)]], map[dev := map[key := v]])
  {
    var a: Document := map[dev := map[key := Str(s)]];
    var b: Document := map[dev := map[key := v]];
    assert key in a[dev] && !ScalarEq(a[dev][key], b[dev][key]);
    assert !ParamsEq(a[dev], b[dev]);
  }

  /** Python's `==` identifies `1`, `1.0` and `True`. */
  lemma NumbersCompareByValue(dev: string, key: string)
    ensures DocEq(map[dev := map[key := Int(1)]], map[dev := map[key := Real(1.0)]])
    ensures DocEq(map[dev := map[key := Bool(true)]], map[dev := map[key := Int(1)]])
  {
  }
}
