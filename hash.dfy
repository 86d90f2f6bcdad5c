/**
 * The structural hash of hash.js: a DJB-style fold over UTF-16 code units that wraps to a signed
 * 32-bit integer at every step, and an object hash that sums one hash per own property, so that
 * the order in which the properties are enumerated does not matter.
 */
module StructuralHash {
  import opened Wrappers
  import Buckets

  /** A UTF-16 code unit, as `String.prototype.charCodeAt` returns it. */
  type CodeUnit = c: int | 0 <= c < 0x1_0000

  /** A JavaScript string: a sequence of UTF-16 code units. */
  type JsString = seq<CodeUnit>

  /** One own enumerable property: its name and `String(value)`. */
  datatype Property = Property(name: JsString, value: JsString)

  /**
   * The inputs of `hash(k)`. `Prim` covers every value that is not a truthy object (primitives,
   * `null`, `undefined`, functions) and carries `String(k)`. `Obj` is a truthy object: `ctor` is
   * `Some(String(k.constructor.name))` when `typeof k.constructor === "object"` and `None`
   * otherwise; `props` lists the own enumerable properties in enumeration order.
   * `NullConstructor` is a truthy object whose `constructor` is `null`: `typeof null` is
   * `"object"`, so `hash` reads `null.name` and throws a TypeError before it looks at anything
   * else.
   */
  datatype JsValue =
    | Prim(str: JsString)
    | Obj(ctor: Option<JsString>, props: seq<Property>)
    | NullConstructor

  /** The values `hash` returns for: every value except an object with a `null` constructor. */
  predicate Hashable(k: JsValue) {
    !k.NullConstructor?
  }

  type HashableValue = k: JsValue | Hashable(k) witness Prim([])

  const SEED: int := 5381
  const TWO_32: int := 0x1_0000_0000

  predicate IsInt32(x: int) {
    -0x8000_0000 <= x < 0x8000_0000
  }

  /** ECMAScript ToInt32 on an integral number: what `x | 0` computes. */
  function ToInt32(x: int): (r: int)
    ensures IsInt32(r)
    ensures (r - x) % TWO_32 == 0
  {
    var m := x % TWO_32;
    if m < 0x8000_0000 then m else m - TWO_32
  }

  lemma ToInt32OfInt32(x: int)
    requires IsInt32(x)
    ensures ToInt32(x) == x
  {
  }

  /** Wrapping twice is wrapping once: `(a + (b | 0)) | 0 == (a + b) | 0`. */
  lemma ToInt32AddWrapped(a: int, b: int)
    ensures ToInt32(a + ToInt32(b)) == ToInt32(a + b)
  {
    var w := ToInt32(b);
    assert (w - b) % TWO_32 == 0;
    var d := (w - b) / TWO_32;
    assert w == b + d * TWO_32;
    assert a + w == (a + b) + d * TWO_32;
    ToInt32Periodic(a + b, d);
  }

  lemma ToInt32Periodic(x: int, d: int)
    ensures ToInt32(x + d * TWO_32) == ToInt32(x)
  {
    assert (x + d * TWO_32) % TWO_32 == x % TWO_32;
  }

  /** One step of the fold: `h = (((h * 33) | 0) + c) | 0`. */
  function Step(h: int, c: CodeUnit): (r: int)
    ensures IsInt32(r)
  {
    ToInt32(ToInt32(h * 33) + c)
  }

  /** `hashString(h, s)`: the fold of `Step` over the code units of `s`, left to right. */
  function StringHash(h: int, s: JsString): (r: int)
    ensures IsInt32(h) || |s| > 0 ==> IsInt32(r)
    decreases |s|
  {
    if |s| == 0 then h else Step(StringHash(h, s[..|s| - 1]), s[|s| - 1])
  }

  /** `hashString` is a left fold: hashing `s + t` is hashing `t` from the hash of `s`. */
  lemma {:induction false} StringHashConcat(h: int, s: JsString, t: JsString)
    ensures StringHash(h, s + t) == StringHash(StringHash(h, s), t)
    decreases |t|
  {
    if |t| == 0 {
      assert s + t == s;
    } else {
      var t' := t[..|t| - 1];
      assert (s + t)[..|s + t| - 1] == s + t';
      assert (s + t)[|s + t| - 1] == t[|t| - 1];
      StringHashConcat(h, s, t');
    }
  }

  /** The hash of one property: `hashString(hashString(SEED, name), value)`. */
  function PairHash(p: Property): (r: int)
    ensures IsInt32(r)
  {
    StringHash(StringHash(SEED, p.name), p.value)
  }

  /** The base of an object's hash: 0 unless the constructor is object-typed. */
  function BaseHash(ctor: Option<JsString>): (r: int)
    ensures IsInt32(r)
  {
    match ctor
    case None => 0
    case Some(name) => StringHash(SEED, name)
  }

  /** The `for...in` accumulation `h = (h + PairHash(p)) | 0` over `props`, in order. */
  function SumHashes(h: int, props: seq<Property>): (r: int)
    ensures IsInt32(h) || |props| > 0 ==> IsInt32(r)
    decreases |props|
  {
    if |props| == 0 then h
    else ToInt32(SumHashes(h, props[..|props| - 1]) + PairHash(props[|props| - 1]))
  }

  /** `hash(k)`. */
  function ValueHash(k: HashableValue): (r: int)
    ensures IsInt32(r)
  {
    match k
    case Prim(s) => StringHash(SEED, s)
    case Obj(ctor, props) => SumHashes(BaseHash(ctor), props)
  }

  /**
   * The simple cases: an empty string leaves the seed as it is, an object with no own
   * properties and no object-typed constructor hashes to 0, and a non-object hashes as its
   * string.
   */
  lemma HashBaseCases(h: int, s: JsString)
    ensures StringHash(h, []) == h
    ensures ValueHash(Obj(None, [])) == 0
    ensures ValueHash(Prim(s)) == StringHash(SEED, s)
  {
  }

  /** The unbounded sum of the property hashes. */
  function Total(props: seq<Property>): int
    decreases |props|
  {
    if |props| == 0 then 0 else Total(props[..|props| - 1]) + PairHash(props[|props| - 1])
  }

  lemma {:induction false} TotalConcat(a: seq<Property>, b: seq<Property>)
    ensures Total(a + b) == Total(a) + Total(b)
    decreases |b|
  {
    if |b| == 0 {
      assert a + b == a;
    } else {
      assert (a + b)[..|a + b| - 1] == a + b[..|b| - 1];
      TotalConcat(a, b[..|b| - 1]);
    }
  }

  /** Taking property `j` out of the sum subtracts its pair hash. */
  lemma {:induction false} TotalRemove(b: seq<Property>, j: nat)
    requires j < |b|
    ensures Total(b) == Total(b[..j] + b[j + 1..]) + PairHash(b[j])
  {
    var p, x, q := b[..j], b[j], b[j + 1..];
    assert b == (p + [x]) + q;
    TotalConcat(p + [x], q);
    TotalConcat(p, [x]);
    TotalConcat(p, q);
    assert Total([x]) == PairHash(x) by {
      assert [x][..0] == [];
    }
  }

  /** Taking element `j` out of a sequence takes one occurrence out of its multiset. */
  lemma {:induction false} MultisetRemove(b: seq<Property>, j: nat)
    requires j < |b|
    ensures multiset(b[..j] + b[j + 1..]) == multiset(b) - multiset{b[j]}
  {
    assert b == b[..j] + [b[j]] + b[j + 1..];
  }

  /** The unbounded sum does not depend on the order of the properties. */
  lemma {:induction false} TotalPermutation(a: seq<Property>, b: seq<Property>)
    requires multiset(a) == multiset(b)
    ensures Total(a) == Total(b)
    decreases |a|
  {
    if |a| == 0 {
      assert |b| == |multiset(b)| == 0;
    } else {
      var a', x := a[..|a| - 1], a[|a| - 1];
      assert multiset(a) == multiset(a') + multiset{x} by {
        assert a == a' + [x];
      }
      assert x in multiset(b);
      var j :| 0 <= j < |b| && b[j] == x;
      var b' := b[..j] + b[j + 1..];
      MultisetRemove(b, j);
      assert multiset(a') == multiset(b');
      TotalPermutation(a', b');
      TotalRemove(b, j);
    }
  }

  /** Summing with a wrap at every step equals one wrap of the unbounded sum. */
  lemma {:induction false} SumHashesWrapsTotal(h: int, props: seq<Property>)
    requires IsInt32(h)
    ensures SumHashes(h, props) == ToInt32(h + Total(props))
    decreases |props|
  {
    if |props| == 0 {
      ToInt32OfInt32(h);
    } else {
      var p := props[..|props| - 1];
      var c := PairHash(props[|props| - 1]);
      SumHashesWrapsTotal(h, p);
      ToInt32AddWrapped(c, h + Total(p));
      assert SumHashes(h, props) == ToInt32(c + ToInt32(h + Total(p)));
    }
  }

  /**
   * The object hash is invariant under any permutation of the property list: two objects with
   * the same constructor tag and the same multiset of (name, value) pairs hash equally.
   */
  lemma ObjectHashOrderIndependent(ctor: Option<JsString>, a: seq<Property>, b: seq<Property>)
    requires multiset(a) == multiset(b)
    ensures ValueHash(Obj(ctor, a)) == ValueHash(Obj(ctor, b))
  {
    SumHashesWrapsTotal(BaseHash(ctor), a);
    SumHashesWrapsTotal(BaseHash(ctor), b);
    TotalPermutation(a, b);
  }

  /**
   * The one-level structural equality that `hash` is built to respect: equal primitive strings,
   * or equal constructor tags and equal multisets of property pairs.
   */
  predicate SameShape(a: HashableValue, b: HashableValue) {
    match (a, b)
    case (Prim(s), Prim(t)) => s == t
    case (Obj(c, p), Obj(d, q)) => c == d && multiset(p) == multiset(q)
    case _ => false
  }

  /** Values of the same shape hash equally: the contract the table relies on. */
  lemma HashRespectsShape(a: HashableValue, b: HashableValue)
    requires SameShape(a, b)
    ensures ValueHash(a) == ValueHash(b)
  {
    if a.Obj? {
      ObjectHashOrderIndependent(a.ctor, a.props, b.props);
    }
  }

  /**
   * `SameShape` with `hash` is a configuration a ValueMap or ValueSet may use: it is an
   * equivalence, and equal values hash equally.
   */
  lemma ShapeConfigurationLawful()
    ensures Buckets.Lawful<HashableValue>(SameShape, ValueHash)
  {
    forall a: HashableValue, b: HashableValue | SameShape(a, b)
      ensures ValueHash(a) == ValueHash(b)
    {
      HashRespectsShape(a, b);
    }
  }

  /** `hashString(h, v)`, as the `for` loop of the source. */
  method HashString(h: int, v: JsString) returns (r: int)
    ensures r == StringHash(h, v)
  {
    r := h;
    for i := 0 to |v|
      invariant r == StringHash(h, v[..i])
    {
      assert v[..i + 1][..i] == v[..i];
      r := ToInt32(ToInt32(r * 33) + v[i]);
    }
    assert v[..|v|] == v;
  }

  /**
   * `hash(k)`, as the source computes it. `None` stands for the TypeError thrown by
   * `k.constructor.name` when the constructor is `null`.
   */
  method Hash(k: JsValue) returns (r: Option<int>)
    ensures r.None? <==> !Hashable(k)
    ensures Hashable(k) ==> r == Some(ValueHash(k))
  {
    match k
    case Prim(s) =>
      var h := HashString(SEED, s);
      r := Some(h);
    case Obj(ctor, props) =>
      var h := 0;
      if ctor.Some? {
        h := HashString(SEED, ctor.value);
      }
      h := AddProperties(h, props);
      r := Some(h);
    case NullConstructor =>
      r := None;
  }

  /** The `for...in` loop of `hash`: adds each property's hash to `h`, wrapping every sum. */
  method AddProperties(h: int, props: seq<Property>) returns (r: int)
    ensures r == SumHashes(h, props)
  {
    r := h;
    for i := 0 to |props|
      invariant r == SumHashes(h, props[..i])
    {
      assert props[..i + 1][..i] == props[..i];
      var n := HashString(SEED, props[i].name);
      var c := HashString(n, props[i].value);
      r := ToInt32(r + c);
    }
    assert props[..|props|] == props;
  }
}
