/**
 * hash.esm.js, the ES-module copy of hash.js. Its two loops are modelled here as methods and
 * proved to compute the very functions `StructuralHash.StringHash` and `StructuralHash.ValueHash` of the hash.js
 * model, so every property proved there (range, left fold, order independence) holds of it.
 */
module StructuralHashEsm {
  import opened Wrappers
  import opened StructuralHash

  /** `hashString(h, v)` of hash.esm.js. */
  method HashString(h: int, v: JsString) returns (r: int)
    ensures r == StringHash(h, v)
    ensures IsInt32(h) || |v| > 0 ==> IsInt32(r)
  {
    r := h;
    var i := 0;
    while i < |v|
      invariant 0 <= i <= |v|
      invariant r == StringHash(h, v[..i])
    {
      assert v[..i + 1][..i] == v[..i];
      r := ToInt32(ToInt32(r * 33) + v[i]);
      i := i + 1;
    }
    assert v[..|v|] == v;
  }

  /**
   * `hash(k)` of hash.esm.js. `None` stands for the TypeError thrown by `k.constructor.name`
   * when the constructor is `null`.
   */
  method Hash(k: JsValue) returns (r: Option<int>)
    ensures r.None? <==> !Hashable(k)
    ensures Hashable(k) ==> r == Some(ValueHash(k))
    ensures r.Some? ==> IsInt32(r.value)
  {
    match k
    case Obj(ctor, props) =>
      var h := 0;
      if ctor.Some? {
        h := HashString(SEED, ctor.value);
      }
      h := AddProperties(h, props);
      r := Some(h);
    case Prim(s) =>
      var h := HashString(SEED, s);
      r := Some(h);
    case NullConstructor =>
      r := None;
  }

  /** The `for...in` loop of `hash` in hash.esm.js. */
  method AddProperties(h: int, props: seq<Property>) returns (r: int)
    ensures r == SumHashes(h, props)
  {
    r := h;
    var i := 0;
    while i < |props|
      invariant 0 <= i <= |props|
      invariant r == SumHashes(h, props[..i])
    {
      assert props[..i + 1][..i] == props[..i];
      var n := HashString(SEED, props[i].name);
      var c := HashString(n, props[i].value);
      r := ToInt32(r + c);
      i := i + 1;
    }
    assert props[..|props|] == props;
  }
}
