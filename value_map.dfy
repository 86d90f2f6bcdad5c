/**
 * ValueMap (ValueMap.js, and the same algorithm in ValueMap.esm.js, which adds the iterable
 * constructor and `forEach`): a map from keys to values in which keys are compared with
 * `isEqual` and placed by `getHash`, on the bucketed table of module Buckets.
 */
module ValueMaps {
  import opened Wrappers
  import opened Buckets

  /** A stored `{ key, value }` record. */
  datatype Entry<K, V> = Entry(key: K, value: V)

  function KeyOf<K, V>(e: Entry<K, V>): K {
    e.key
  }

  /** The map's table configuration: entries are looked up by their `key`. */
  function MapScheme<K, V>(isEqual: (K, K) -> bool, getHash: K -> int): Scheme<K, Entry<K, V>> {
    Scheme(isEqual, getHash, KeyOf)
  }

  /** The value stored for a key equal to `k`, found the way `get` finds it. */
  function Lookup<K, V>(s: Scheme<K, Entry<K, V>>, t: Table<Entry<K, V>>, k: K): (r: Option<V>)
    ensures r.Some? ==> exists e :: e in BucketAt(t, s.getHash(k)) && Matches(s, e, k) && e.value == r.value
    ensures r.None? <==> forall j :: 0 <= j < |BucketAt(t, s.getHash(k))| ==> !Matches(s, BucketAt(t, s.getHash(k))[j], k)
  {
    match Find(s, t, k)
    case None => None
    case Some(e) => Some(e.value)
  }

  /**
   * The table after `set(k, v)`: the entry whose key equals `k` gets value `v` (its key object
   * is kept); without one, `{ key: k, value: v }` is pushed onto the bucket for `hash(k)`.
   */
  function SetEntry<K, V>(isEqual: (K, K) -> bool, getHash: K -> int, t: Table<Entry<K, V>>, k: K, v: V)
    : (r: Table<Entry<K, V>>)
    ensures r.Keys == t.Keys + {getHash(k)}
    ensures forall g :: g in t && g != getHash(k) ==> r[g] == t[g]
    ensures |BucketAt(t, getHash(k))| <= |r[getHash(k)]|
    ensures forall j :: 0 <= j < |BucketAt(t, getHash(k))| ==> r[getHash(k)][j].key == BucketAt(t, getHash(k))[j].key
  {
    var h := getHash(k);
    var b := BucketAt(t, h);
    var i := IndexOf(MapScheme(isEqual, getHash), b, k);
    if i < 0 then Append(t, h, Entry(k, v)) else Overwrite(t, h, i, Entry(b[i].key, v))
  }

  /**
   * The table part of `set(k, v)`: fetch or create the bucket for `hash(k)`, scan it, and
   * overwrite the value of the equal entry or push a new one; `added` says whether it pushed.
   */
  method Put<K, V>(isEqual: (K, K) -> bool, getHash: K -> int, t: Table<Entry<K, V>>, k: K, v: V)
    returns (t': Table<Entry<K, V>>, added: bool)
    ensures t' == SetEntry(isEqual, getHash, t, k, v)
    ensures added <==> IndexOf(MapScheme(isEqual, getHash), BucketAt(t, getHash(k)), k) < 0
  {
    var h := getHash(k);
    t' := t;
    if h !in t' {
      t' := t'[h := []];
    }
    var b := t'[h];
    assert b == BucketAt(t, h);
    var i := FindIndex(MapScheme(isEqual, getHash), b, k);
    if i < 0 {
      t' := t'[h := b + [Entry(k, v)]];
      added := true;
      assert t' == Append(t, h, Entry(k, v));
    } else {
      t' := t'[h := b[i := Entry(b[i].key, v)]];
      added := false;
      assert t' == Overwrite(t, h, i, Entry(b[i].key, v));
    }
  }

  /** `set(k, v)` keeps the table well formed, and adds one entry exactly when `k` was new. */
  lemma SetEntryPreserves<K(!new), V>(isEqual: (K, K) -> bool, getHash: K -> int, t: Table<Entry<K, V>>, k: K, v: V)
    requires Lawful(isEqual, getHash) && WellFormed(MapScheme(isEqual, getHash), t)
    ensures WellFormed(MapScheme(isEqual, getHash), SetEntry(isEqual, getHash, t, k, v))
    ensures |Contents(SetEntry(isEqual, getHash, t, k, v))|
         == |Contents(t)| + if Holds(MapScheme(isEqual, getHash), t, k) then 0 else 1
  {
    var s := MapScheme<K, V>(isEqual, getHash);
    var h := getHash(k);
    var b := BucketAt(t, h);
    var i := IndexOf(s, b, k);
    FindIsHolds(s, t, k);
    if i < 0 {
      AppendPreserves(s, t, Entry(k, v));
      AppendContents(t, h, Entry(k, v));
    } else {
      OverwritePreserves(s, t, h, i, Entry(b[i].key, v));
      OverwriteContents(t, h, i, Entry(b[i].key, v));
      InContents(t, h, i);
    }
  }

  /**
   * After `set(k, v)`, every key equal to `k` gets `v`, and every other key gets what it got
   * before.
   */
  lemma SetEntryLookup<K(!new), V>(isEqual: (K, K) -> bool, getHash: K -> int, t: Table<Entry<K, V>>, k: K, v: V, k': K)
    requires Lawful(isEqual, getHash) && WellFormed(MapScheme(isEqual, getHash), t)
    ensures Lookup(MapScheme(isEqual, getHash), SetEntry(isEqual, getHash, t, k, v), k')
         == if isEqual(k, k') then Some(v) else Lookup(MapScheme(isEqual, getHash), t, k')
  {
    var s := MapScheme<K, V>(isEqual, getHash);
    var h := getHash(k);
    var b := BucketAt(t, h);
    var i := IndexOf(s, b, k);
    if i < 0 {
      FindAfterAppend(s, t, Entry(k, v), k');
    } else {
      FindAfterOverwrite(s, t, h, i, Entry(b[i].key, v), k');
      assert Matches(s, Entry(b[i].key, v), k') <==> isEqual(k, k');
    }
  }

  lemma SetEntryLookupAll<K(!new), V>(isEqual: (K, K) -> bool, getHash: K -> int, t: Table<Entry<K, V>>, k: K, v: V)
    requires Lawful(isEqual, getHash) && WellFormed(MapScheme(isEqual, getHash), t)
    ensures forall k' :: Lookup(MapScheme(isEqual, getHash), SetEntry(isEqual, getHash, t, k, v), k')
                      == if isEqual(k, k') then Some(v) else Lookup(MapScheme(isEqual, getHash), t, k')
  {
    forall k' ensures Lookup(MapScheme(isEqual, getHash), SetEntry(isEqual, getHash, t, k, v), k')
                   == if isEqual(k, k') then Some(v) else Lookup(MapScheme(isEqual, getHash), t, k') {
      SetEntryLookup(isEqual, getHash, t, k, v, k');
    }
  }

  /**
   * Everything `set(k, v)` promises about the new table, given whether the scan for `k` found
   * nothing (`added`): the table stays well formed, `added` says that no stored key equalled
   * `k`, the table holds one more entry exactly then, and every key gets what `get` then returns.
   */
  lemma SetEntryStep<K(!new), V>(isEqual: (K, K) -> bool, getHash: K -> int, t: Table<Entry<K, V>>, k: K, v: V, added: bool)
    requires Lawful(isEqual, getHash) && WellFormed(MapScheme(isEqual, getHash), t)
    requires added <==> IndexOf(MapScheme(isEqual, getHash), BucketAt(t, getHash(k)), k) < 0
    ensures WellFormed(MapScheme(isEqual, getHash), SetEntry(isEqual, getHash, t, k, v))
    ensures added <==> !Holds(MapScheme(isEqual, getHash), t, k)
    ensures |Contents(SetEntry(isEqual, getHash, t, k, v))| == |Contents(t)| + if added then 1 else 0
    ensures forall k' :: Lookup(MapScheme(isEqual, getHash), SetEntry(isEqual, getHash, t, k, v), k')
                      == if isEqual(k, k') then Some(v) else Lookup(MapScheme(isEqual, getHash), t, k')
  {
    SetEntryPreserves(isEqual, getHash, t, k, v);
    FindIsHolds(MapScheme(isEqual, getHash), t, k);
    assert added <==> !Holds(MapScheme(isEqual, getHash), t, k);
    SetEntryLookupAll(isEqual, getHash, t, k, v);
  }

  /** After `delete(k)`, keys equal to `k` get nothing; every other key gets what it got before. */
  lemma DeleteLookupAll<K(!new), V>(s: Scheme<K, Entry<K, V>>, t: Table<Entry<K, V>>, k: K)
    requires Lawful(s.isEqual, s.getHash) && WellFormed(s, t)
    ensures forall k' :: Lookup(s, Delete(s, t, k), k') == if s.isEqual(k, k') then None else Lookup(s, t, k')
  {
    forall k' ensures Lookup(s, Delete(s, t, k), k') == if s.isEqual(k, k') then None else Lookup(s, t, k') {
      FindAfterDelete(s, t, k, k');
    }
  }

  /** The table after `set(k, v)` for each pair of `pairs`, in order. */
  function SetAll<K, V>(isEqual: (K, K) -> bool, getHash: K -> int, t: Table<Entry<K, V>>, pairs: seq<(K, V)>)
    : (r: Table<Entry<K, V>>)
    ensures t.Keys <= r.Keys
    decreases |pairs|
  {
    if |pairs| == 0 then t
    else
      var last := pairs[|pairs| - 1];
      SetEntry(isEqual, getHash, SetAll(isEqual, getHash, t, pairs[..|pairs| - 1]), last.0, last.1)
  }

  /** The value of the last pair whose key equals `k`, or `otherwise` when there is none. */
  function LastValue<K, V>(isEqual: (K, K) -> bool, pairs: seq<(K, V)>, k: K, otherwise: Option<V>): Option<V>
    decreases |pairs|
  {
    if |pairs| == 0 then otherwise
    else if isEqual(pairs[|pairs| - 1].0, k) then Some(pairs[|pairs| - 1].1)
    else LastValue(isEqual, pairs[..|pairs| - 1], k, otherwise)
  }

  /** Setting many pairs keeps the table well formed. */
  lemma {:induction false} SetAllPreserves<K(!new), V>(isEqual: (K, K) -> bool, getHash: K -> int, t: Table<Entry<K, V>>, pairs: seq<(K, V)>)
    requires Lawful(isEqual, getHash) && WellFormed(MapScheme(isEqual, getHash), t)
    ensures WellFormed(MapScheme(isEqual, getHash), SetAll(isEqual, getHash, t, pairs))
    decreases |pairs|
  {
    if |pairs| > 0 {
      var last := pairs[|pairs| - 1];
      SetAllPreserves(isEqual, getHash, t, pairs[..|pairs| - 1]);
      SetEntryPreserves(isEqual, getHash, SetAll(isEqual, getHash, t, pairs[..|pairs| - 1]), last.0, last.1);
    }
  }

  /** After setting many pairs, a key gets the value of the last pair with an equal key. */
  lemma {:induction false} SetAllLookup<K(!new), V>(isEqual: (K, K) -> bool, getHash: K -> int, t: Table<Entry<K, V>>, pairs: seq<(K, V)>, k: K)
    requires Lawful(isEqual, getHash) && WellFormed(MapScheme(isEqual, getHash), t)
    ensures Lookup(MapScheme(isEqual, getHash), SetAll(isEqual, getHash, t, pairs), k)
         == LastValue(isEqual, pairs, k, Lookup(MapScheme(isEqual, getHash), t, k))
    decreases |pairs|
  {
    if |pairs| > 0 {
      var last := pairs[|pairs| - 1];
      var prefix := pairs[..|pairs| - 1];
      SetAllPreserves(isEqual, getHash, t, prefix);
      SetAllLookup(isEqual, getHash, t, prefix, k);
      SetEntryLookup(isEqual, getHash, SetAll(isEqual, getHash, t, prefix), last.0, last.1, k);
    }
  }

  /** The `[key, value]` pairs of a list of entries, as `entries()` yields them. */
  function Pairs<K, V>(order: seq<Entry<K, V>>): seq<(K, V)> {
    seq(|order|, i requires 0 <= i < |order| => (order[i].key, order[i].value))
  }

  /** When no pair has a key equal to `k`, `k` keeps what it had. */
  lemma {:induction false} LastValueOfNone<K, V>(isEqual: (K, K) -> bool, pairs: seq<(K, V)>, k: K, otherwise: Option<V>)
    requires forall j :: 0 <= j < |pairs| ==> !isEqual(pairs[j].0, k)
    ensures LastValue(isEqual, pairs, k, otherwise) == otherwise
    decreases |pairs|
  {
    if |pairs| > 0 {
      LastValueOfNone(isEqual, pairs[..|pairs| - 1], k, otherwise);
    }
  }

  /** When exactly one pair has a key equal to `k`, `k` gets that pair's value. */
  lemma {:induction false} LastValueOfOne<K, V>(isEqual: (K, K) -> bool, pairs: seq<(K, V)>, k: K, i: nat, otherwise: Option<V>)
    requires i < |pairs| && isEqual(pairs[i].0, k)
    requires forall j :: 0 <= j < |pairs| && j != i ==> !isEqual(pairs[j].0, k)
    ensures LastValue(isEqual, pairs, k, otherwise) == Some(pairs[i].1)
    decreases |pairs|
  {
    if i < |pairs| - 1 {
      LastValueOfOne(isEqual, pairs[..|pairs| - 1], k, i, otherwise);
    }
  }

  /** A key equal to no key of `pairs` is not held after setting them on an empty map. */
  lemma {:induction false} SetAllFreshKey<K(!new), V>(isEqual: (K, K) -> bool, getHash: K -> int, pairs: seq<(K, V)>, k: K)
    requires Lawful(isEqual, getHash)
    requires forall j :: 0 <= j < |pairs| ==> !isEqual(pairs[j].0, k)
    ensures !Holds(MapScheme(isEqual, getHash), SetAll(isEqual, getHash, map[], pairs), k)
  {
    var s := MapScheme<K, V>(isEqual, getHash);
    SetAllPreserves(isEqual, getHash, map[], pairs);
    SetAllLookup(isEqual, getHash, map[], pairs, k);
    LastValueOfNone(isEqual, pairs, k, Lookup(s, map[], k));
    assert Lookup(s, map[], k) == None by {
      assert BucketAt<Entry<K, V>>(map[], getHash(k)) == [];
    }
    FindIsHolds(s, SetAll(isEqual, getHash, map[], pairs), k);
  }

  /** Setting pairs with pairwise unequal keys on an empty map stores one entry per pair. */
  lemma {:induction false} SetAllDistinctSize<K(!new), V>(isEqual: (K, K) -> bool, getHash: K -> int, pairs: seq<(K, V)>)
    requires Lawful(isEqual, getHash)
    requires forall i, j :: 0 <= i < j < |pairs| ==> !isEqual(pairs[i].0, pairs[j].0)
    ensures |Contents(SetAll(isEqual, getHash, map[], pairs))| == |pairs|
    decreases |pairs|
  {
    if |pairs| > 0 {
      var prefix := pairs[..|pairs| - 1];
      var last := pairs[|pairs| - 1];
      var t := SetAll(isEqual, getHash, map[], prefix);
      assert forall j :: 0 <= j < |prefix| ==> prefix[j] == pairs[j];
      SetAllDistinctSize(isEqual, getHash, prefix);
      SetAllFreshKey(isEqual, getHash, prefix, last.0);
      SetAllPreserves(isEqual, getHash, map[], prefix);
      SetEntryPreserves(isEqual, getHash, t, last.0, last.1);
    }
  }

  /** Over a list holding the stored entries once each, the last pair for `k` gives what `get(k)` gives. */
  lemma LastValueOfEnumeration<K(!new), V>(isEqual: (K, K) -> bool, getHash: K -> int, t: Table<Entry<K, V>>,
                                           order: seq<Entry<K, V>>, k: K)
    requires Lawful(isEqual, getHash) && WellFormed(MapScheme(isEqual, getHash), t)
    requires multiset(order) == Contents(t)
    ensures LastValue(isEqual, Pairs(order), k, None) == Lookup(MapScheme(isEqual, getHash), t, k)
  {
    var s := MapScheme<K, V>(isEqual, getHash);
    var ps := Pairs(order);
    EnumerationDistinct(s, t, order);
    if i :| 0 <= i < |order| && isEqual(order[i].key, k) {
      forall j | 0 <= j < |ps| && j != i
        ensures !isEqual(ps[j].0, k)
      {
        var a, b := order[i].key, order[j].key;
        assert isEqual(b, k) ==> isEqual(b, a) && isEqual(a, b);
        assert j < i ==> !Matches(s, order[j], s.keyOf(order[i]));
        assert i < j ==> !Matches(s, order[i], s.keyOf(order[j]));
      }
      LastValueOfOne(isEqual, ps, k, i, None);
      assert order[i] in multiset(order);
      FindOfMember(s, t, order[i], k);
    } else {
      LastValueOfNone(isEqual, ps, k, None);
      forall e | e in Contents(t)
        ensures !Matches(s, e, k)
      {
        assert e in multiset(order);
        var i :| 0 <= i < |order| && order[i] == e;
      }
      FindOfNoMember(s, t, k);
    }
  }

  /**
   * Rebuilding a map from what `entries()` yields, `new ValueMap(m.entries())`, gives the same
   * size, and every key gets what it gets in `m`.
   */
  lemma RebuildFromEntries<K(!new), V>(isEqual: (K, K) -> bool, getHash: K -> int, t: Table<Entry<K, V>>,
                                       order: seq<Entry<K, V>>)
    requires Lawful(isEqual, getHash) && WellFormed(MapScheme(isEqual, getHash), t)
    requires multiset(order) == Contents(t)
    ensures |Contents(SetAll(isEqual, getHash, map[], Pairs(order)))| == |Contents(t)|
    ensures forall k :: Lookup(MapScheme(isEqual, getHash), SetAll(isEqual, getHash, map[], Pairs(order)), k)
                     == Lookup(MapScheme(isEqual, getHash), t, k)
  {
    var s := MapScheme<K, V>(isEqual, getHash);
    var ps := Pairs(order);
    EnumerationDistinct(s, t, order);
    assert forall i, j :: 0 <= i < j < |ps| ==> !isEqual(ps[i].0, ps[j].0) by {
      forall i, j | 0 <= i < j < |ps|
        ensures !isEqual(ps[i].0, ps[j].0)
      {
        assert !Matches(s, order[i], s.keyOf(order[j]));
      }
    }
    SetAllDistinctSize(isEqual, getHash, ps);
    assert |order| == |multiset(order)|;
    forall k ensures Lookup(s, SetAll(isEqual, getHash, map[], ps), k) == Lookup(s, t, k) {
      SetAllLookup(isEqual, getHash, map[], ps, k);
      assert Lookup(s, map[], k) == None by {
        assert BucketAt<Entry<K, V>>(map[], getHash(k)) == [];
      }
      LastValueOfEnumeration(isEqual, getHash, t, order, k);
    }
  }

  /**
   * A ValueMap. `hash` is the dictionary from hash value to bucket and `size` is `size_`;
   * `isEqual` and `getHash` are the configuration the source attaches to the prototype.
   */
  class ValueMap<K(!new), V> {
    const isEqual: (K, K) -> bool
    const getHash: K -> int
    var hash: Table<Entry<K, V>>
    var size: nat

    function Config(): Scheme<K, Entry<K, V>> {
      MapScheme(isEqual, getHash)
    }

    /** `size_` counts the entries, no bucket is empty, entries sit in their hash's bucket, keys are unique. */
    ghost predicate Valid()
      reads this
    {
      Lawful(isEqual, getHash) && WellFormed(Config(), hash) && size == |Contents(hash)|
    }

    /** Some stored key equals `k`. */
    ghost predicate Stored(k: K)
      reads this
    {
      Holds(Config(), hash, k)
    }

    /** `new ValueMap()` of ValueMap.js: an empty map. */
    constructor (isEqual: (K, K) -> bool, getHash: K -> int)
      requires Lawful(isEqual, getHash)
      ensures Valid() && this.isEqual == isEqual && this.getHash == getHash
      ensures hash == map[] && size == 0
    {
      this.isEqual := isEqual;
      this.getHash := getHash;
      new;
      Clear();
    }

    /**
     * `new ValueMap(iterable)` of ValueMap.esm.js: `clear()` and then `set(k, v)` for each pair
     * in order; a falsy iterable (`None`) gives an empty map.
     */
    constructor FromIterable(isEqual: (K, K) -> bool, getHash: K -> int, iterable: Option<seq<(K, V)>>)
      requires Lawful(isEqual, getHash)
      ensures Valid() && this.isEqual == isEqual && this.getHash == getHash
      ensures hash == SetAll(isEqual, getHash, map[], if iterable.Some? then iterable.value else [])
      ensures forall k :: Lookup(Config(), hash, k)
                       == LastValue(isEqual, if iterable.Some? then iterable.value else [], k, None)
    {
      this.isEqual := isEqual;
      this.getHash := getHash;
      new;
      Clear();
      var pairs := if iterable.Some? then iterable.value else [];
      if iterable.Some? {
        SetEach(pairs);
      }
      forall k ensures Lookup(Config(), hash, k) == LastValue(isEqual, pairs, k, None) {
        SetAllLookup(isEqual, getHash, map[], pairs, k);
      }
    }

    /** The `for...of` loop of the iterable constructor: `set(k, v)` for each pair, in order. */
    method SetEach(pairs: seq<(K, V)>)
      requires Valid()
      modifies this
      ensures Valid() && hash == SetAll(isEqual, getHash, old(hash), pairs)
    {
      ghost var t := hash;
      for i := 0 to |pairs|
        invariant Valid()
        invariant hash == SetAll(isEqual, getHash, t, pairs[..i])
      {
        assert pairs[..i + 1][..i] == pairs[..i];
        var self := Set(pairs[i].0, pairs[i].1);
      }
      assert pairs[..|pairs|] == pairs;
    }

    /** The `size` getter. */
    function Size(): (n: nat)
      reads this
      requires Valid()
      ensures n == |Contents(hash)|
    {
      size
    }

    /**
     * `set(k, v)`: overwrites the value of the entry whose key equals `k`, or appends a new
     * entry and increments `size`. Returns the map itself.
     */
    method Set(k: K, v: V) returns (self: ValueMap<K, V>)
      requires Valid()
      modifies this
      ensures Valid() && self == this
      ensures hash == SetEntry(isEqual, getHash, old(hash), k, v)
      ensures size == old(size) + if old(Stored(k)) then 0 else 1
      ensures forall k' :: Lookup(Config(), hash, k')
                        == if isEqual(k, k') then Some(v) else Lookup(Config(), old(hash), k')
    {
      ghost var t := hash;
      var added;
      hash, added := Put(isEqual, getHash, hash, k, v);
      SetEntryStep(isEqual, getHash, t, k, v, added);
      if added {
        size := size + 1;
      }
      self := this;
      assert Valid();
    }

    /** `has(k)`: whether some stored key equals `k`. */
    method Has(k: K) returns (b: bool)
      requires Valid()
      ensures b <==> Stored(k)
      ensures b <==> Lookup(Config(), hash, k).Some?
    {
      var h := getHash(k);
      if h !in hash {
        b := false;
      } else {
        var i := FindIndex(Config(), hash[h], k);
        b := i >= 0;
      }
      FindIsHolds(Config(), hash, k);
    }

    /** `get(k)`: the value stored under a key equal to `k`, `None` (undefined) when there is none. */
    method Get(k: K) returns (r: Option<V>)
      requires Valid()
      ensures r == Lookup(Config(), hash, k)
      ensures r.Some? <==> Stored(k)
      ensures r.Some? ==> exists key :: Entry(key, r.value) in Contents(hash) && isEqual(key, k)
    {
      var h := getHash(k);
      if h !in hash {
        r := None;
      } else {
        var b := hash[h];
        var i := FindIndex(Config(), b, k);
        r := if i < 0 then None else Some(b[i].value);
      }
      FindIsHolds(Config(), hash, k);
      if r.Some? {
        var e := Find(Config(), hash, k).value;
        assert Entry(e.key, r.value) == e;
      }
    }

    /**
     * `delete(k)`: removes the entry whose key equals `k` and decrements `size`, dropping a
     * bucket that becomes empty; returns whether there was one.
     */
    method Delete(k: K) returns (removed: bool)
      requires Valid()
      modifies this
      ensures Valid()
      ensures removed == old(Stored(k))
      ensures hash == Buckets.Delete(Config(), old(hash), k)
      ensures !removed ==> hash == old(hash) && size == old(size)
      ensures removed ==> size == old(size) - 1
      ensures forall k' :: Lookup(Config(), hash, k')
                        == if isEqual(k, k') then None else Lookup(Config(), old(hash), k')
    {
      ghost var t := hash;
      hash, removed := Remove(Config(), hash, k);
      if removed {
        size := size - 1;
      }
      FindIsHolds(Config(), t, k);
      DeletePreserves(Config(), t, k);
      DeleteLookupAll(Config(), t, k);
    }

    /** `clear()`: no buckets and `size` 0. */
    method Clear()
      requires Lawful(isEqual, getHash)
      modifies this
      ensures Valid() && hash == map[] && size == 0
      ensures forall k :: !Stored(k)
    {
      hash := map[];
      size := 0;
    }

    /** `order` lists every stored entry exactly once: a possible visiting order of the buckets. */
    ghost predicate Enumeration(order: seq<Entry<K, V>>)
      reads this
    {
      multiset(order) == Contents(hash)
    }

    /**
     * `entries()`: a `[key, value]` pair for each stored entry, once each, `size` in all, in the
     * order of some enumeration of the stored entries.
     */
    method Entries() returns (r: seq<(K, V)>)
      requires Valid()
      ensures |r| == size
      ensures exists order: seq<Entry<K, V>> :: Enumeration(order) && |order| == |r|
                           && forall i :: 0 <= i < |r| ==> r[i] == (order[i].key, order[i].value)
    {
      var es := Enumerate(hash);
      r := seq(|es|, i requires 0 <= i < |es| => (es[i].key, es[i].value));
      assert Enumeration(es);
    }

    /** `keys()`: each stored key once, `size` in all. */
    method Keys() returns (r: seq<K>)
      requires Valid()
      ensures |r| == size
      ensures exists order: seq<Entry<K, V>> :: Enumeration(order) && |order| == |r|
                           && forall i :: 0 <= i < |r| ==> r[i] == order[i].key
    {
      var es := Enumerate(hash);
      r := seq(|es|, i requires 0 <= i < |es| => es[i].key);
      assert Enumeration(es);
    }

    /** `values()`: each stored value once, `size` in all. */
    method Values() returns (r: seq<V>)
      requires Valid()
      ensures |r| == size
      ensures exists order: seq<Entry<K, V>> :: Enumeration(order) && |order| == |r|
                           && forall i :: 0 <= i < |r| ==> r[i] == order[i].value
    {
      var es := Enumerate(hash);
      r := seq(|es|, i requires 0 <= i < |es| => es[i].value);
      assert Enumeration(es);
    }

    /**
     * `forEach(func)` of ValueMap.esm.js: the calls `func(value, key, this)` in the order they
     * are made, one per stored entry.
     */
    method ForEach() returns (calls: seq<(V, K, ValueMap<K, V>)>)
      requires Valid()
      ensures |calls| == size
      ensures exists order: seq<Entry<K, V>> :: Enumeration(order) && |order| == |calls|
                           && forall i :: 0 <= i < |calls| ==> calls[i] == (order[i].value, order[i].key, this)
    {
      var es := Enumerate(hash);
      calls := seq(|es|, i requires 0 <= i < |es| => (es[i].value, es[i].key, this));
      assert Enumeration(es);
    }
  }
}
