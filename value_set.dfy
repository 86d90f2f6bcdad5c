/**
 * ValueSet (ValueSet.js): a set of elements compared with `isEqual` and placed by `getHash`,
 * on the bucketed table of module Buckets. Buckets hold the elements themselves.
 */
module ValueSets {
  import opened Wrappers
  import opened Buckets

  /** An element is its own key. */
  function Element<K>(x: K): K {
    x
  }

  /** The set's table configuration: elements are looked up as themselves. */
  function SetScheme<K>(isEqual: (K, K) -> bool, getHash: K -> int): Scheme<K, K> {
    Scheme(isEqual, getHash, Element)
  }

  /**
   * The table after `add(k)`: unchanged when some element equals `k`, otherwise `k` is pushed
   * onto the bucket for `hash(k)`.
   */
  function AddElement<K>(isEqual: (K, K) -> bool, getHash: K -> int, t: Table<K>, k: K): (r: Table<K>)
    ensures t.Keys <= r.Keys <= t.Keys + {getHash(k)}
    ensures forall g :: g in t ==> t[g] <= r[g]
  {
    var h := getHash(k);
    if IndexOf(SetScheme(isEqual, getHash), BucketAt(t, h), k) >= 0 then t else Append(t, h, k)
  }

  /**
   * The table part of `add(k)`: fetch or create the bucket for `hash(k)`, scan it, and push `k`
   * when no element equals it; `added` says whether it did.
   */
  method Insert<K>(isEqual: (K, K) -> bool, getHash: K -> int, t: Table<K>, k: K) returns (t': Table<K>, added: bool)
    ensures t' == AddElement(isEqual, getHash, t, k)
    ensures added <==> IndexOf(SetScheme(isEqual, getHash), BucketAt(t, getHash(k)), k) < 0
  {
    var h := getHash(k);
    t' := t;
    if h !in t' {
      t' := t'[h := []];
    }
    var b := t'[h];
    assert b == BucketAt(t, h);
    var i := FindIndex(SetScheme(isEqual, getHash), b, k);
    if i >= 0 {
      t', added := t, false;
    } else {
      t' := t'[h := b + [k]];
      added := true;
      assert t' == Append(t, h, k);
    }
  }

  /** `add(k)` keeps the table well formed, and adds `k` itself exactly when no element equals it. */
  lemma AddPreserves<K(!new)>(isEqual: (K, K) -> bool, getHash: K -> int, t: Table<K>, k: K)
    requires Lawful(isEqual, getHash) && WellFormed(SetScheme(isEqual, getHash), t)
    ensures WellFormed(SetScheme(isEqual, getHash), AddElement(isEqual, getHash, t, k))
    ensures Contents(AddElement(isEqual, getHash, t, k))
         == Contents(t) + if Holds(SetScheme(isEqual, getHash), t, k) then multiset{} else multiset{k}
  {
    var s := SetScheme(isEqual, getHash);
    FindIsHolds(s, t, k);
    if IndexOf(s, BucketAt(t, getHash(k)), k) < 0 {
      AppendPreserves(s, t, k);
      AppendContents(t, getHash(k), k);
    }
  }

  /**
   * After `add(k)`, an element equal to `k` is found as `k` itself when there was none before;
   * every other lookup, and every lookup when one was already there, is unchanged.
   */
  lemma AddLookup<K(!new)>(isEqual: (K, K) -> bool, getHash: K -> int, t: Table<K>, k: K, k': K)
    requires Lawful(isEqual, getHash) && WellFormed(SetScheme(isEqual, getHash), t)
    ensures Find(SetScheme(isEqual, getHash), AddElement(isEqual, getHash, t, k), k')
         == if !Holds(SetScheme(isEqual, getHash), t, k) && isEqual(k, k') then Some(k)
            else Find(SetScheme(isEqual, getHash), t, k')
  {
    var s := SetScheme(isEqual, getHash);
    FindIsHolds(s, t, k);
    if IndexOf(s, BucketAt(t, getHash(k)), k) < 0 {
      FindAfterAppend(s, t, k, k');
    }
  }

  lemma AddLookupAll<K(!new)>(isEqual: (K, K) -> bool, getHash: K -> int, t: Table<K>, k: K)
    requires Lawful(isEqual, getHash) && WellFormed(SetScheme(isEqual, getHash), t)
    ensures forall k' :: Find(SetScheme(isEqual, getHash), AddElement(isEqual, getHash, t, k), k')
                      == if !Holds(SetScheme(isEqual, getHash), t, k) && isEqual(k, k') then Some(k)
                         else Find(SetScheme(isEqual, getHash), t, k')
  {
    forall k' ensures Find(SetScheme(isEqual, getHash), AddElement(isEqual, getHash, t, k), k')
                   == if !Holds(SetScheme(isEqual, getHash), t, k) && isEqual(k, k') then Some(k)
                      else Find(SetScheme(isEqual, getHash), t, k') {
      AddLookup(isEqual, getHash, t, k, k');
    }
  }

  /**
   * Everything `add(k)` promises about the new table, given whether the scan for `k` found
   * nothing (`added`): the table stays well formed, `added` says that no stored element equalled
   * `k`, `k` itself is added exactly then and the table is unchanged otherwise, and every lookup
   * finds what `has` then reports.
   */
  lemma AddElementStep<K(!new)>(isEqual: (K, K) -> bool, getHash: K -> int, t: Table<K>, k: K, added: bool)
    requires Lawful(isEqual, getHash) && WellFormed(SetScheme(isEqual, getHash), t)
    requires added <==> IndexOf(SetScheme(isEqual, getHash), BucketAt(t, getHash(k)), k) < 0
    ensures WellFormed(SetScheme(isEqual, getHash), AddElement(isEqual, getHash, t, k))
    ensures added <==> !Holds(SetScheme(isEqual, getHash), t, k)
    ensures !added ==> AddElement(isEqual, getHash, t, k) == t
    ensures Contents(AddElement(isEqual, getHash, t, k)) == Contents(t) + if added then multiset{k} else multiset{}
    ensures forall k' :: Find(SetScheme(isEqual, getHash), AddElement(isEqual, getHash, t, k), k')
                      == if added && isEqual(k, k') then Some(k) else Find(SetScheme(isEqual, getHash), t, k')
  {
    FindIsHolds(SetScheme(isEqual, getHash), t, k);
    AddPreserves(isEqual, getHash, t, k);
    assert added <==> !Holds(SetScheme(isEqual, getHash), t, k);
    AddLookupAll(isEqual, getHash, t, k);
  }

  /** After `delete(k)`, no element equal to `k` is found; every other lookup is unchanged. */
  lemma DeleteLookupAll<K(!new)>(s: Scheme<K, K>, t: Table<K>, k: K)
    requires Lawful(s.isEqual, s.getHash) && WellFormed(s, t)
    ensures forall k' :: Find(s, Delete(s, t, k), k') == if s.isEqual(k, k') then None else Find(s, t, k')
  {
    forall k' ensures Find(s, Delete(s, t, k), k') == if s.isEqual(k, k') then None else Find(s, t, k') {
      FindAfterDelete(s, t, k, k');
    }
  }

  /** The table after `add(x)` for each `x` of `xs`, in order. */
  function AddAll<K>(isEqual: (K, K) -> bool, getHash: K -> int, t: Table<K>, xs: seq<K>): (r: Table<K>)
    ensures t.Keys <= r.Keys
    decreases |xs|
  {
    if |xs| == 0 then t
    else AddElement(isEqual, getHash, AddAll(isEqual, getHash, t, xs[..|xs| - 1]), xs[|xs| - 1])
  }

  /** The first element of `xs` equal to `k`, if there is one. */
  function FirstEqual<K>(isEqual: (K, K) -> bool, xs: seq<K>, k: K): (r: Option<K>)
    ensures r.None? <==> forall j :: 0 <= j < |xs| ==> !isEqual(xs[j], k)
    ensures r.Some? ==> exists i :: 0 <= i < |xs| && xs[i] == r.value && isEqual(xs[i], k)
                                 && forall j :: 0 <= j < i ==> !isEqual(xs[j], k)
    decreases |xs|
  {
    if |xs| == 0 then None
    else
      var prefix := xs[..|xs| - 1];
      var f := FirstEqual(isEqual, prefix, k);
      if f.Some? then f
      else if isEqual(xs[|xs| - 1], k) then Some(xs[|xs| - 1])
      else None
  }

  /** Adding many elements keeps the table well formed. */
  lemma {:induction false} AddAllPreserves<K(!new)>(isEqual: (K, K) -> bool, getHash: K -> int, t: Table<K>, xs: seq<K>)
    requires Lawful(isEqual, getHash) && WellFormed(SetScheme(isEqual, getHash), t)
    ensures WellFormed(SetScheme(isEqual, getHash), AddAll(isEqual, getHash, t, xs))
    decreases |xs|
  {
    if |xs| > 0 {
      AddAllPreserves(isEqual, getHash, t, xs[..|xs| - 1]);
      AddPreserves(isEqual, getHash, AddAll(isEqual, getHash, t, xs[..|xs| - 1]), xs[|xs| - 1]);
    }
  }

  /**
   * After adding many elements to an empty set, a lookup finds the first added element equal
   * to the query: later equal elements do not replace it.
   */
  lemma {:induction false} AddAllLookup<K(!new)>(isEqual: (K, K) -> bool, getHash: K -> int, xs: seq<K>, k: K)
    requires Lawful(isEqual, getHash)
    ensures Find(SetScheme(isEqual, getHash), AddAll(isEqual, getHash, map[], xs), k) == FirstEqual(isEqual, xs, k)
    decreases |xs|
  {
    var s := SetScheme(isEqual, getHash);
    if |xs| > 0 {
      var prefix := xs[..|xs| - 1];
      var x := xs[|xs| - 1];
      var t := AddAll(isEqual, getHash, map[], prefix);
      AddAllPreserves(isEqual, getHash, map[], prefix);
      AddAllLookup(isEqual, getHash, prefix, k);
      AddLookup(isEqual, getHash, t, x, k);
      FindIsHolds(s, t, x);
      if isEqual(x, k) {
        FindEqualKeys(s, t, x, k);
      }
    }
  }

  /** An element equal to none of `xs` is not held after adding them to an empty set. */
  lemma {:induction false} AddAllFreshKey<K(!new)>(isEqual: (K, K) -> bool, getHash: K -> int, xs: seq<K>, k: K)
    requires Lawful(isEqual, getHash)
    requires forall j :: 0 <= j < |xs| ==> !isEqual(xs[j], k)
    ensures !Holds(SetScheme(isEqual, getHash), AddAll(isEqual, getHash, map[], xs), k)
  {
    AddAllPreserves(isEqual, getHash, map[], xs);
    AddAllLookup(isEqual, getHash, xs, k);
    FindIsHolds(SetScheme(isEqual, getHash), AddAll(isEqual, getHash, map[], xs), k);
  }

  /** Adding pairwise unequal elements to an empty set stores each of them. */
  lemma {:induction false} AddAllDistinctSize<K(!new)>(isEqual: (K, K) -> bool, getHash: K -> int, xs: seq<K>)
    requires Lawful(isEqual, getHash)
    requires forall i, j :: 0 <= i < j < |xs| ==> !isEqual(xs[i], xs[j])
    ensures |Contents(AddAll(isEqual, getHash, map[], xs))| == |xs|
    decreases |xs|
  {
    if |xs| > 0 {
      var prefix := xs[..|xs| - 1];
      var x := xs[|xs| - 1];
      var t := AddAll(isEqual, getHash, map[], prefix);
      assert forall j :: 0 <= j < |prefix| ==> prefix[j] == xs[j];
      AddAllDistinctSize(isEqual, getHash, prefix);
      AddAllFreshKey(isEqual, getHash, prefix, x);
      AddAllPreserves(isEqual, getHash, map[], prefix);
      AddPreserves(isEqual, getHash, t, x);
    }
  }

  /** Over a list holding the stored elements once each, the first equal element is what lookup finds. */
  lemma FirstEqualOfEnumeration<K(!new)>(isEqual: (K, K) -> bool, getHash: K -> int, t: Table<K>, xs: seq<K>, k: K)
    requires Lawful(isEqual, getHash) && WellFormed(SetScheme(isEqual, getHash), t)
    requires multiset(xs) == Contents(t)
    ensures FirstEqual(isEqual, xs, k) == Find(SetScheme(isEqual, getHash), t, k)
  {
    var s := SetScheme(isEqual, getHash);
    var f := FirstEqual(isEqual, xs, k);
    if f.Some? {
      var i :| 0 <= i < |xs| && xs[i] == f.value && isEqual(xs[i], k);
      assert xs[i] in multiset(xs);
      FindOfMember(s, t, xs[i], k);
    } else {
      forall e | e in Contents(t)
        ensures !Matches(s, e, k)
      {
        assert e in multiset(xs);
        var i :| 0 <= i < |xs| && xs[i] == e;
      }
      FindOfNoMember(s, t, k);
    }
  }

  /**
   * Rebuilding a set from what `values()` yields, `new ValueSet(s.values())`, gives the same
   * size, and every lookup finds what it finds in `s`.
   */
  lemma RebuildFromValues<K(!new)>(isEqual: (K, K) -> bool, getHash: K -> int, t: Table<K>, xs: seq<K>)
    requires Lawful(isEqual, getHash) && WellFormed(SetScheme(isEqual, getHash), t)
    requires multiset(xs) == Contents(t)
    ensures |Contents(AddAll(isEqual, getHash, map[], xs))| == |Contents(t)|
    ensures forall k :: Find(SetScheme(isEqual, getHash), AddAll(isEqual, getHash, map[], xs), k)
                     == Find(SetScheme(isEqual, getHash), t, k)
  {
    var s := SetScheme(isEqual, getHash);
    EnumerationDistinct(s, t, xs);
    AddAllDistinctSize(isEqual, getHash, xs);
    assert |xs| == |multiset(xs)|;
    forall k ensures Find(s, AddAll(isEqual, getHash, map[], xs), k) == Find(s, t, k) {
      AddAllLookup(isEqual, getHash, xs, k);
      FirstEqualOfEnumeration(isEqual, getHash, t, xs, k);
    }
  }

  /**
   * A ValueSet. `hash` is the dictionary from hash value to bucket and `size` is `size_`;
   * `isEqual` and `getHash` are the configuration the source attaches to the prototype.
   */
  class ValueSet<K(!new)> {
    const isEqual: (K, K) -> bool
    const getHash: K -> int
    var hash: Table<K>
    var size: nat

    function Config(): Scheme<K, K> {
      SetScheme(isEqual, getHash)
    }

    /** `size_` counts the elements, no bucket is empty, elements sit in their hash's bucket, none are equal. */
    ghost predicate Valid()
      reads this
    {
      Lawful(isEqual, getHash) && WellFormed(Config(), hash) && size == |Contents(hash)|
    }

    /** Some stored element equals `k`. */
    ghost predicate Stored(k: K)
      reads this
    {
      Holds(Config(), hash, k)
    }

    /**
     * `new ValueSet(iterable)`: `clear()` and then `add(x)` for each element in order; a falsy
     * iterable (`None`) gives an empty set.
     */
    constructor (isEqual: (K, K) -> bool, getHash: K -> int, iterable: Option<seq<K>>)
      requires Lawful(isEqual, getHash)
      ensures Valid() && this.isEqual == isEqual && this.getHash == getHash
      ensures hash == AddAll(isEqual, getHash, map[], if iterable.Some? then iterable.value else [])
      ensures forall k :: Find(Config(), hash, k)
                       == FirstEqual(isEqual, if iterable.Some? then iterable.value else [], k)
    {
      this.isEqual := isEqual;
      this.getHash := getHash;
      new;
      Clear();
      var xs := if iterable.Some? then iterable.value else [];
      if iterable.Some? {
        AddEach(xs);
      }
      forall k ensures Find(Config(), hash, k) == FirstEqual(isEqual, xs, k) {
        AddAllLookup(isEqual, getHash, xs, k);
      }
    }

    /** The `for...of` loop of the constructor: `add(x)` for each `x` of `xs`, in order. */
    method AddEach(xs: seq<K>)
      requires Valid()
      modifies this
      ensures Valid() && hash == AddAll(isEqual, getHash, old(hash), xs)
    {
      ghost var t := hash;
      for i := 0 to |xs|
        invariant Valid()
        invariant hash == AddAll(isEqual, getHash, t, xs[..i])
      {
        assert xs[..i + 1][..i] == xs[..i];
        var added := Add(xs[i]);
      }
      assert xs[..|xs|] == xs;
    }

    /** The `size` getter. */
    function Size(): (n: nat)
      reads this
      requires Valid()
      ensures n == |Contents(hash)|
    {
      size
    }

    /**
     * `add(k)`: pushes `k` and increments `size` when no element equals it; returns whether it
     * did.
     */
    method Add(k: K) returns (added: bool)
      requires Valid()
      modifies this
      ensures Valid()
      ensures added == !old(Stored(k))
      ensures hash == AddElement(isEqual, getHash, old(hash), k)
      ensures !added ==> hash == old(hash)
      ensures Contents(hash) == old(Contents(hash)) + if added then multiset{k} else multiset{}
      ensures size == old(size) + if added then 1 else 0
      ensures forall k' :: Find(Config(), hash, k')
                        == if added && isEqual(k, k') then Some(k) else Find(Config(), old(hash), k')
    {
      ghost var t := hash;
      hash, added := Insert(isEqual, getHash, hash, k);
      AddElementStep(isEqual, getHash, t, k, added);
      if added {
        size := size + 1;
      }
      assert Valid();
    }

    /** `has(k)`: whether some stored element equals `k`. */
    method Has(k: K) returns (b: bool)
      requires Valid()
      ensures b <==> Stored(k)
      ensures b <==> Find(Config(), hash, k).Some?
    {
      var h := getHash(k);
      if h !in hash {
        b := false;
      } else {
        var i := FindIndex(Config(), hash[h], k);
        b := i >= 0;
      }
      FindIsHolds(Config(), hash, k);
    }

    /** `get(k)`: the stored element equal to `k`, `None` (undefined) when there is none. */
    method Get(k: K) returns (r: Option<K>)
      requires Valid()
      ensures r == Find(Config(), hash, k)
      ensures r.Some? <==> Stored(k)
      ensures r.Some? ==> r.value in Contents(hash) && isEqual(r.value, k)
    {
      var h := getHash(k);
      if h !in hash {
        r := None;
      } else {
        var b := hash[h];
        var i := FindIndex(Config(), b, k);
        r := if i < 0 then None else Some(b[i]);
      }
      FindIsHolds(Config(), hash, k);
    }

    /**
     * `delete(k)`: removes the element equal to `k` and decrements `size`, dropping a bucket
     * that becomes empty; returns whether there was one.
     */
    method Delete(k: K) returns (removed: bool)
      requires Valid()
      modifies this
      ensures Valid()
      ensures removed == old(Stored(k))
      ensures hash == Buckets.Delete(Config(), old(hash), k)
      ensures !removed ==> hash == old(hash) && size == old(size)
      ensures removed ==> size == old(size) - 1
      ensures forall k' :: Find(Config(), hash, k')
                        == if isEqual(k, k') then None else Find(Config(), old(hash), k')
    {
      ghost var t := hash;
      hash, removed := Remove(Config(), hash, k);
      if removed {
        size := size - 1;
      }
      FindIsHolds(Config(), t, k);
      DeletePreserves(Config(), t, k);
      DeleteLookupAll(Config(), t, k);
    }

    /** `clear()`: no buckets and `size` 0. */
    method Clear()
      requires Lawful(isEqual, getHash)
      modifies this
      ensures Valid() && hash == map[] && size == 0
      ensures forall k :: !Stored(k)
    {
      hash := map[];
      size := 0;
    }

    /** `values()`: each stored element once, `size` in all, in no promised order. */
    method Values() returns (r: seq<K>)
      requires Valid()
      ensures multiset(r) == Contents(hash) && |r| == size
    {
      r := Enumerate(hash);
    }

    /** `entries()`: a `[n, n]` pair for each stored element `n`, in the order `values()` would give. */
    method Entries() returns (r: seq<(K, K)>)
      requires Valid()
      ensures |r| == size
      ensures exists order: seq<K> :: multiset(order) == Contents(hash) && |order| == |r|
                           && forall i :: 0 <= i < |r| ==> r[i] == (order[i], order[i])
    {
      var es := Enumerate(hash);
      r := seq(|es|, i requires 0 <= i < |es| => (es[i], es[i]));
      assert |es| == |r| && forall i :: 0 <= i < |r| ==> r[i] == (es[i], es[i]);
    }
  }
}
