/**
 * The bucketed table shared by ValueMap and ValueSet: a dictionary from hash value to a bucket
 * (an array of entries), searched linearly with `isEqual`. `E` is the entry type and `K` the key
 * type; `keyOf` extracts an entry's key (`n.key` for the map, the element itself for the set).
 */
module Buckets {
  import opened Wrappers

  /** `this.hash`: hash value to bucket. */
  type Table<E> = map<int, seq<E>>

  /** The table's configuration: `isEqual`, `getHash` and the key of an entry. */
  datatype Scheme<!K, -E> = Scheme(isEqual: (K, K) -> bool, getHash: K -> int, keyOf: E -> K)

  ghost predicate IsEquivalence<K(!new)>(eq: (K, K) -> bool) {
    && (forall a :: eq(a, a))
    && (forall a, b :: eq(a, b) ==> eq(b, a))
    && (forall a, b, c :: eq(a, b) && eq(b, c) ==> eq(a, c))
  }

  /**
   * What the table demands of its configuration: `isEqual` is an equivalence and equal keys
   * have equal hashes.
   */
  ghost predicate Lawful<K(!new)>(isEqual: (K, K) -> bool, getHash: K -> int) {
    && IsEquivalence(isEqual)
    && (forall a, b :: isEqual(a, b) ==> getHash(a) == getHash(b))
  }

  /** Entry `e` is found by a scan for key `k`: `isEqual(n.key, k)`. */
  predicate Matches<K, E>(s: Scheme<K, E>, e: E, k: K) {
    s.isEqual(s.keyOf(e), k)
  }

  /** `b.findIndex(n => isEqual(n.key, k))`: the first matching index, or -1. */
  function IndexOf<K, E>(s: Scheme<K, E>, b: seq<E>, k: K): (i: int)
    ensures -1 <= i < |b|
    ensures i == -1 <==> forall j :: 0 <= j < |b| ==> !Matches(s, b[j], k)
    ensures 0 <= i ==> Matches(s, b[i], k) && forall j :: 0 <= j < i ==> !Matches(s, b[j], k)
    decreases |b|
  {
    if |b| == 0 then -1
    else if Matches(s, b[0], k) then 0
    else
      var i := IndexOf(s, b[1..], k);
      if i < 0 then -1 else i + 1
  }

  /** The linear scan of `findIndex` (and of `find`, which returns `b[i]`). */
  method FindIndex<K, E>(s: Scheme<K, E>, b: seq<E>, k: K) returns (i: int)
    ensures i == IndexOf(s, b, k)
  {
    i := 0;
    while i < |b|
      invariant 0 <= i <= |b|
      invariant forall j :: 0 <= j < i ==> !Matches(s, b[j], k)
    {
      if Matches(s, b[i], k) {
        return;
      }
      i := i + 1;
    }
    i := -1;
  }

  /** `this.hash[h]`, or the empty bucket `[]` when there is none. */
  function BucketAt<E>(t: Table<E>, h: int): (r: seq<E>)
    ensures h in t ==> r == t[h]
    ensures h !in t ==> r == []
  {
    if h in t then t[h] else []
  }

  /** Every stored entry, as a multiset (buckets in no particular order). */
  ghost function Contents<E>(t: Table<E>): multiset<E>
    decreases |t.Keys|
  {
    if t.Keys == {} then multiset{}
    else
      KeysExtensional(t);
      var h :| h in t.Keys;
      assert (t - {h}).Keys < t.Keys;
      multiset(t[h]) + Contents(t - {h})
  }

  lemma KeysExtensional<E>(t: Table<E>)
    ensures (forall h :: h !in t.Keys) ==> t.Keys == {}
  {
    if forall h :: h !in t.Keys {
      assert t.Keys == {};
    }
  }

  /** No empty bucket is kept. */
  ghost predicate NoEmptyBucket<E>(t: Table<E>) {
    forall h :: h in t ==> t[h] != []
  }

  /** Each entry sits in the bucket of its key's hash. */
  ghost predicate Placed<K, E>(s: Scheme<K, E>, t: Table<E>) {
    forall h, i :: h in t && 0 <= i < |t[h]| ==> s.getHash(s.keyOf(t[h][i])) == h
  }

  /** No two entries of one bucket have equal keys. */
  ghost predicate Unique<K, E>(s: Scheme<K, E>, t: Table<E>) {
    forall h, i, j :: h in t && 0 <= i < j < |t[h]| ==> !Matches(s, t[h][i], s.keyOf(t[h][j]))
  }

  /**
   * The table invariant, apart from the count (which the owner keeps in `size_`) and the
   * configuration's own laws (`Lawful`).
   */
  ghost predicate WellFormed<K, E>(s: Scheme<K, E>, t: Table<E>) {
    NoEmptyBucket(t) && Placed(s, t) && Unique(s, t)
  }

  /** Some stored entry has a key equal to `k`, in whatever bucket. */
  ghost predicate Holds<K, E>(s: Scheme<K, E>, t: Table<E>, k: K) {
    exists h, i :: h in t && 0 <= i < |t[h]| && Matches(s, t[h][i], k)
  }

  /** The lookup every operation performs: hash `k`, fetch the bucket, scan it. */
  function Find<K, E>(s: Scheme<K, E>, t: Table<E>, k: K): (r: Option<E>)
    ensures r.Some? ==> Matches(s, r.value, k) && r.value in BucketAt(t, s.getHash(k))
    ensures r.None? <==> forall j :: 0 <= j < |BucketAt(t, s.getHash(k))| ==> !Matches(s, BucketAt(t, s.getHash(k))[j], k)
  {
    var b := BucketAt(t, s.getHash(k));
    var i := IndexOf(s, b, k);
    if i < 0 then None else Some(b[i])
  }

  /** `b.push(e)` into the bucket for `h`, creating the bucket when it is missing. */
  function Append<E>(t: Table<E>, h: int, e: E): (r: Table<E>)
    ensures r.Keys == t.Keys + {h} && r[h] == BucketAt(t, h) + [e]
    ensures forall g :: g in t && g != h ==> r[g] == t[g]
  {
    t[h := BucketAt(t, h) + [e]]
  }

  /** Replaces entry `i` of the bucket for `h`. */
  function Overwrite<E>(t: Table<E>, h: int, i: nat, e: E): (r: Table<E>)
    requires h in t && i < |t[h]|
    ensures r.Keys == t.Keys && |r[h]| == |t[h]| && r[h][i] == e
    ensures forall j :: 0 <= j < |t[h]| && j != i ==> r[h][j] == t[h][j]
    ensures forall g :: g in t && g != h ==> r[g] == t[g]
  {
    t[h := t[h][i := e]]
  }

  /** `b.splice(i, 1)`, then `delete this.hash[h]` when the bucket has become empty. */
  function RemoveAt<E>(t: Table<E>, h: int, i: nat): (r: Table<E>)
    requires h in t && i < |t[h]|
    ensures r.Keys == if |t[h]| == 1 then t.Keys - {h} else t.Keys
    ensures h in r ==> |r[h]| == |t[h]| - 1 && forall j :: 0 <= j < |r[h]| ==> r[h][j] == if j < i then t[h][j] else t[h][j + 1]
    ensures forall g :: g in t && g != h ==> r[g] == t[g]
  {
    var b := t[h][..i] + t[h][i + 1..];
    if |b| == 0 then t - {h} else t[h := b]
  }

  /** `delete(k)` on the table: remove the entry whose key equals `k`, if there is one. */
  function Delete<K, E>(s: Scheme<K, E>, t: Table<E>, k: K): (r: Table<E>)
    ensures r.Keys <= t.Keys
    ensures forall g :: g in t && g != s.getHash(k) ==> g in r && r[g] == t[g]
  {
    var h := s.getHash(k);
    var i := IndexOf(s, BucketAt(t, h), k);
    if i < 0 then t else RemoveAt(t, h, i)
  }

  // ---------------------------------------------------------------------------------------
  // Contents

  lemma {:induction false} ContentsSplit<E>(t: Table<E>, h: int)
    requires h in t
    ensures Contents(t) == multiset(t[h]) + Contents(t - {h})
    decreases |t.Keys|
  {
    var g :| g in t.Keys && Contents(t) == multiset(t[g]) + Contents(t - {g});
    if g != h {
      var u := t - {g};
      assert h in u && (t - {h}) - {g} == u - {h};
      assert (t - {h}).Keys < t.Keys && u.Keys < t.Keys;
      ContentsSplit(u, h);
      ContentsSplit(t - {h}, g);
    }
  }

  /**
   * The contents after replacing (or creating) the bucket for `h` with `b`, stated against the
   * rest of the table.
   */
  lemma ContentsUpdate<E>(t: Table<E>, h: int, b: seq<E>)
    ensures Contents(t[h := b]) == Contents(t - {h}) + multiset(b)
    ensures Contents(t) == Contents(t - {h}) + multiset(BucketAt(t, h))
  {
    ContentsSplit(t[h := b], h);
    assert t[h := b] - {h} == t - {h};
    if h in t {
      ContentsSplit(t, h);
    } else {
      assert t - {h} == t;
    }
  }

  lemma InContents<E>(t: Table<E>, h: int, i: int)
    requires h in t && 0 <= i < |t[h]|
    ensures t[h][i] in Contents(t)
  {
    ContentsSplit(t, h);
    assert t[h][i] in multiset(t[h]);
  }

  /** Every stored entry sits at some position of some bucket. */
  lemma {:induction false} ContentsMember<E>(t: Table<E>, e: E)
    requires e in Contents(t)
    ensures exists h, i :: h in t && 0 <= i < |t[h]| && t[h][i] == e
    decreases |t.Keys|
  {
    KeysExtensional(t);
    var h :| h in t;
    ContentsSplit(t, h);
    if e in t[h] {
      var i :| 0 <= i < |t[h]| && t[h][i] == e;
    } else {
      var u := t - {h};
      assert u.Keys < t.Keys;
      ContentsMember(u, e);
      var g, j :| g in u && 0 <= j < |u[g]| && u[g][j] == e;
      assert t[g][j] == e;
    }
  }

  /** A well-formed table stores each entry at most once. */
  lemma {:induction false} ContentsAtMostOnce<K(!new), E>(s: Scheme<K, E>, t: Table<E>, e: E)
    requires Lawful(s.isEqual, s.getHash) && WellFormed(s, t)
    ensures Contents(t)[e] <= 1
    decreases |t.Keys|
  {
    KeysExtensional(t);
    if t.Keys != {} {
      var h :| h in t;
      var u := t - {h};
      ContentsSplit(t, h);
      assert u.Keys < t.Keys;
      assert WellFormed(s, u);
      ContentsAtMostOnce(s, u, e);
      BucketAtMostOnce(s, t, h, e);
      if e in t[h] && e in Contents(u) {
        ContentsMember(u, e);
      }
    }
  }

  /** No bucket holds the same entry twice: an entry's key equals itself. */
  lemma BucketAtMostOnce<K(!new), E>(s: Scheme<K, E>, t: Table<E>, h: int, e: E)
    requires Lawful(s.isEqual, s.getHash) && WellFormed(s, t) && h in t
    ensures multiset(t[h])[e] <= 1
  {
    var b := t[h];
    forall i, j | 0 <= i < j < |b|
      ensures b[i] != b[j]
    {
      assert !Matches(s, b[i], s.keyOf(b[j]));
    }
    DistinctAtMostOnce(b, e);
  }

  lemma {:induction false} DistinctAtMostOnce<E>(b: seq<E>, e: E)
    requires forall i, j :: 0 <= i < j < |b| ==> b[i] != b[j]
    ensures multiset(b)[e] <= 1
    decreases |b|
  {
    if |b| > 0 {
      assert b == [b[0]] + b[1..];
      assert forall i, j :: 0 <= i < j < |b[1..]| ==> b[1..][i] != b[1..][j] by {
        forall i, j | 0 <= i < j < |b[1..]|
          ensures b[1..][i] != b[1..][j]
        {
          assert b[1..][i] == b[i + 1] && b[1..][j] == b[j + 1];
        }
      }
      DistinctAtMostOnce(b[1..], e);
    }
  }

  /** Two positions of a sequence holding the same value make it occur twice. */
  lemma TwiceInSeq<E>(xs: seq<E>, i: int, j: int)
    requires 0 <= i < j < |xs| && xs[i] == xs[j]
    ensures multiset(xs)[xs[i]] >= 2
  {
    assert xs == xs[..j] + xs[j..];
    assert xs[i] in xs[..j];
    assert xs[j..][0] == xs[j];
  }

  /**
   * A list holding every stored entry once (what a traversal yields) has no two entries with
   * equal keys.
   */
  lemma EnumerationDistinct<K(!new), E>(s: Scheme<K, E>, t: Table<E>, order: seq<E>)
    requires Lawful(s.isEqual, s.getHash) && WellFormed(s, t) && multiset(order) == Contents(t)
    ensures forall i, j :: 0 <= i < j < |order| ==> !Matches(s, order[i], s.keyOf(order[j]))
  {
    forall i, j | 0 <= i < j < |order|
      ensures !Matches(s, order[i], s.keyOf(order[j]))
    {
      assert order[i] in multiset(order) && order[j] in multiset(order);
      if order[i] == order[j] {
        TwiceInSeq(order, i, j);
        ContentsAtMostOnce(s, t, order[i]);
      } else {
        ContentsMember(t, order[i]);
        ContentsMember(t, order[j]);
        var h, a :| h in t && 0 <= a < |t[h]| && t[h][a] == order[i];
        var g, b :| g in t && 0 <= b < |t[g]| && t[g][b] == order[j];
        NoEqualKeys(s, t, h, a, g, b);
      }
    }
  }

  // ---------------------------------------------------------------------------------------
  // Lookup

  /** If an entry with a key equal to `k` is stored, it is in the bucket for `hash(k)`. */
  lemma EqualKeyInHashBucket<K(!new), E>(s: Scheme<K, E>, t: Table<E>, k: K, h: int, i: int)
    requires Lawful(s.isEqual, s.getHash) && WellFormed(s, t)
    requires h in t && 0 <= i < |t[h]| && Matches(s, t[h][i], k)
    ensures h == s.getHash(k)
  {
  }

  /** No two stored entries, in any buckets, have equal keys. */
  lemma NoEqualKeys<K(!new), E>(s: Scheme<K, E>, t: Table<E>, h: int, i: int, g: int, j: int)
    requires Lawful(s.isEqual, s.getHash) && WellFormed(s, t)
    requires h in t && 0 <= i < |t[h]| && g in t && 0 <= j < |t[g]|
    requires (h, i) != (g, j)
    ensures !Matches(s, t[h][i], s.keyOf(t[g][j]))
  {
    if h == g {
      if i < j {
        assert !Matches(s, t[h][i], s.keyOf(t[g][j]));
      } else {
        assert !Matches(s, t[g][j], s.keyOf(t[h][i]));
      }
    } else {
      assert s.getHash(s.keyOf(t[h][i])) != s.getHash(s.keyOf(t[g][j]));
    }
  }

  /**
   * The scan of bucket `hash(k)` finds an entry exactly when some stored key equals `k`, and
   * what it finds is stored and equal to `k`.
   */
  lemma FindIsHolds<K(!new), E>(s: Scheme<K, E>, t: Table<E>, k: K)
    requires Lawful(s.isEqual, s.getHash) && WellFormed(s, t)
    ensures Find(s, t, k).Some? <==> Holds(s, t, k)
    ensures Find(s, t, k).Some? ==> Find(s, t, k).value in Contents(t) && Matches(s, Find(s, t, k).value, k)
  {
    var h := s.getHash(k);
    if Holds(s, t, k) {
      var g, j :| g in t && 0 <= j < |t[g]| && Matches(s, t[g][j], k);
      EqualKeyInHashBucket(s, t, k, g, j);
      assert Matches(s, t[h][j], k);
    }
    var i := IndexOf(s, BucketAt(t, h), k);
    if i >= 0 {
      assert h in t;
      InContents(t, h, i);
    }
  }

  /** A stored entry whose key equals `k` is what the lookup of `k` finds. */
  lemma FindOfMember<K(!new), E>(s: Scheme<K, E>, t: Table<E>, e: E, k: K)
    requires Lawful(s.isEqual, s.getHash) && WellFormed(s, t)
    requires e in Contents(t) && Matches(s, e, k)
    ensures Find(s, t, k) == Some(e)
  {
    ContentsMember(t, e);
    var h, i :| h in t && 0 <= i < |t[h]| && t[h][i] == e;
    FindIsHolds(s, t, k);
    var f := Find(s, t, k).value;
    ContentsMember(t, f);
    var g, j :| g in t && 0 <= j < |t[g]| && t[g][j] == f;
    if (h, i) != (g, j) {
      NoEqualKeys(s, t, h, i, g, j);
    }
  }

  /** The lookup of `k` finds nothing when no stored key equals `k`. */
  lemma FindOfNoMember<K(!new), E>(s: Scheme<K, E>, t: Table<E>, k: K)
    requires Lawful(s.isEqual, s.getHash) && WellFormed(s, t)
    requires forall e :: e in Contents(t) ==> !Matches(s, e, k)
    ensures Find(s, t, k) == None
  {
    FindIsHolds(s, t, k);
  }

  /** Two lookups agree when the keys are equal. */
  lemma FindEqualKeys<K(!new), E>(s: Scheme<K, E>, t: Table<E>, k: K, k': K)
    requires Lawful(s.isEqual, s.getHash) && s.isEqual(k, k')
    ensures Find(s, t, k) == Find(s, t, k')
  {
    var b := BucketAt(t, s.getHash(k));
    assert b == BucketAt(t, s.getHash(k'));
    forall j | 0 <= j < |b|
      ensures Matches(s, b[j], k) <==> Matches(s, b[j], k')
    {
    }
    IndexOfSameMatches(s, b, b, k, k');
  }

  /** `IndexOf` only depends on which positions match. */
  lemma {:induction false} IndexOfSameMatches<K, E>(s: Scheme<K, E>, b: seq<E>, c: seq<E>, k: K, k': K)
    requires |b| == |c|
    requires forall j :: 0 <= j < |b| ==> (Matches(s, b[j], k) <==> Matches(s, c[j], k'))
    ensures IndexOf(s, b, k) == IndexOf(s, c, k')
    decreases |b|
  {
    if |b| > 0 && !Matches(s, b[0], k) {
      assert !Matches(s, c[0], k');
      forall j | 0 <= j < |b| - 1
        ensures Matches(s, b[1..][j], k) <==> Matches(s, c[1..][j], k')
      {
        assert b[1..][j] == b[j + 1] && c[1..][j] == c[j + 1];
      }
      IndexOfSameMatches(s, b[1..], c[1..], k, k');
    }
  }

  /** Scanning `b + [e]`: the first match in `b`, else `|b|` if `e` matches, else none. */
  lemma {:induction false} IndexOfAppend<K, E>(s: Scheme<K, E>, b: seq<E>, e: E, k: K)
    ensures IndexOf(s, b + [e], k)
         == if IndexOf(s, b, k) >= 0 then IndexOf(s, b, k) else if Matches(s, e, k) then |b| else -1
    decreases |b|
  {
    if |b| == 0 {
      assert b + [e] == [e];
      assert [e][1..] == [];
    } else if !Matches(s, b[0], k) {
      assert (b + [e])[1..] == b[1..] + [e];
      IndexOfAppend(s, b[1..], e, k);
    }
  }

  // ---------------------------------------------------------------------------------------
  // Operations preserve the invariant

  /** Appending adds exactly that entry. */
  lemma AppendContents<E>(t: Table<E>, h: int, e: E)
    ensures Contents(Append(t, h, e)) == Contents(t) + multiset{e}
  {
    ContentsUpdate(t, h, BucketAt(t, h) + [e]);
  }

  /** Overwriting replaces exactly that entry. */
  lemma OverwriteContents<E>(t: Table<E>, h: int, i: nat, e: E)
    requires h in t && i < |t[h]|
    ensures Contents(Overwrite(t, h, i, e)) == Contents(t) - multiset{t[h][i]} + multiset{e}
  {
    var b := t[h];
    ContentsUpdate(t, h, b[i := e]);
    MultisetUpdate(b, i, e);
    var rest := Contents(t - {h});
    assert Contents(t) == rest + multiset(b);
    assert b[i] in multiset(b);
  }

  /** Replacing one element of a sequence swaps one occurrence in its multiset. */
  lemma {:induction false} MultisetUpdate<E>(b: seq<E>, i: nat, e: E)
    requires i < |b|
    ensures multiset(b[i := e]) == multiset(b) - multiset{b[i]} + multiset{e}
  {
    assert b == b[..i] + [b[i]] + b[i + 1..];
    assert b[i := e] == b[..i] + [e] + b[i + 1..];
  }

  /** Removing takes away exactly that entry. */
  lemma RemoveAtContents<E>(t: Table<E>, h: int, i: nat)
    requires h in t && i < |t[h]|
    ensures Contents(RemoveAt(t, h, i)) == Contents(t) - multiset{t[h][i]}
  {
    var b := t[h];
    var b' := b[..i] + b[i + 1..];
    assert b == b[..i] + [b[i]] + b[i + 1..];
    ContentsUpdate(t, h, b');
    if |b'| == 0 {
      assert b' == [];
    }
  }

  /**
   * Appending an entry whose key matches nothing in the bucket of its hash keeps the table well
   * formed.
   */
  lemma AppendPreserves<K, E>(s: Scheme<K, E>, t: Table<E>, e: E)
    requires WellFormed(s, t)
    requires IndexOf(s, BucketAt(t, s.getHash(s.keyOf(e))), s.keyOf(e)) < 0
    ensures WellFormed(s, Append(t, s.getHash(s.keyOf(e)), e))
  {
    var h := s.getHash(s.keyOf(e));
    var b := BucketAt(t, h);
    var t' := Append(t, h, e);
    forall g, i, j | g in t' && 0 <= i < j < |t'[g]|
      ensures !Matches(s, t'[g][i], s.keyOf(t'[g][j]))
    {
      if g == h && j == |b| {
        assert t'[g][i] == b[i];
      }
    }
  }

  /** Overwriting an entry with one of the same key keeps the table well formed. */
  lemma OverwritePreserves<K, E>(s: Scheme<K, E>, t: Table<E>, h: int, i: nat, e: E)
    requires WellFormed(s, t)
    requires h in t && i < |t[h]| && s.keyOf(e) == s.keyOf(t[h][i])
    ensures WellFormed(s, Overwrite(t, h, i, e))
  {
  }

  /** Removing entry `i` of bucket `h` keeps the table well formed and removes just that entry. */
  lemma RemoveAtPreserves<K, E>(s: Scheme<K, E>, t: Table<E>, h: int, i: nat)
    requires WellFormed(s, t)
    requires h in t && i < |t[h]|
    ensures WellFormed(s, RemoveAt(t, h, i))
  {
    var b := t[h];
    var b' := b[..i] + b[i + 1..];
    var t' := RemoveAt(t, h, i);
    if |b'| != 0 {
      forall g, x, y | g in t' && 0 <= x < y < |t'[g]|
        ensures !Matches(s, t'[g][x], s.keyOf(t'[g][y]))
      {
        if g == h {
          var x0 := if x < i then x else x + 1;
          var y0 := if y < i then y else y + 1;
          assert t'[g][x] == b[x0] && t'[g][y] == b[y0] && x0 < y0;
        }
      }
      forall g, x | g in t' && 0 <= x < |t'[g]|
        ensures s.getHash(s.keyOf(t'[g][x])) == g
      {
        if g == h {
          assert t'[g][x] == b[if x < i then x else x + 1];
        }
      }
    }
  }

  /**
   * `Delete` keeps the table well formed; when `k` is held it removes the one entry found for
   * `k`, and otherwise it changes nothing.
   */
  lemma DeletePreserves<K(!new), E>(s: Scheme<K, E>, t: Table<E>, k: K)
    requires Lawful(s.isEqual, s.getHash) && WellFormed(s, t)
    ensures WellFormed(s, Delete(s, t, k))
    ensures Holds(s, t, k) ==> Contents(Delete(s, t, k)) == Contents(t) - multiset{Find(s, t, k).value}
    ensures Holds(s, t, k) ==> |Contents(Delete(s, t, k))| == |Contents(t)| - 1
    ensures !Holds(s, t, k) ==> Delete(s, t, k) == t
  {
    FindIsHolds(s, t, k);
    var h := s.getHash(k);
    var i := IndexOf(s, BucketAt(t, h), k);
    if i >= 0 {
      RemoveAtPreserves(s, t, h, i);
      RemoveAtContents(t, h, i);
      InContents(t, h, i);
    }
  }

  // ---------------------------------------------------------------------------------------
  // Lookups after each operation

  /** After appending `e`, keys equal to `e`'s find `e`; every other lookup is unchanged. */
  lemma FindAfterAppend<K(!new), E>(s: Scheme<K, E>, t: Table<E>, e: E, k: K)
    requires Lawful(s.isEqual, s.getHash)
    requires IndexOf(s, BucketAt(t, s.getHash(s.keyOf(e))), s.keyOf(e)) < 0
    ensures Find(s, Append(t, s.getHash(s.keyOf(e)), e), k)
         == if Matches(s, e, k) then Some(e) else Find(s, t, k)
  {
    var h := s.getHash(s.keyOf(e));
    var b := BucketAt(t, h);
    var t' := Append(t, h, e);
    if s.getHash(k) == h {
      assert BucketAt(t', h) == b + [e];
      IndexOfAppend(s, b, e, k);
      if Matches(s, e, k) {
        forall j | 0 <= j < |b|
          ensures !Matches(s, b[j], k)
        {
          assert !Matches(s, b[j], s.keyOf(e));
        }
      }
    } else {
      assert !Matches(s, e, k);
    }
  }

  /** After overwriting entry `(h, i)` with `e` (same key), keys equal to it find `e`. */
  lemma FindAfterOverwrite<K(!new), E>(s: Scheme<K, E>, t: Table<E>, h: int, i: nat, e: E, k: K)
    requires Lawful(s.isEqual, s.getHash) && WellFormed(s, t)
    requires h in t && i < |t[h]| && s.keyOf(e) == s.keyOf(t[h][i])
    ensures Find(s, Overwrite(t, h, i, e), k) == if Matches(s, e, k) then Some(e) else Find(s, t, k)
  {
    var b := t[h];
    var b' := b[i := e];
    if s.getHash(k) == h {
      IndexOfSameMatches(s, b', b, k, k);
      if Matches(s, e, k) {
        forall j | 0 <= j < i
          ensures !Matches(s, b[j], k)
        {
          assert !Matches(s, b[j], s.keyOf(b[i]));
        }
      }
    } else {
      assert s.getHash(s.keyOf(e)) == h;
      assert !Matches(s, e, k);
    }
  }

  /** After removing entry `(h, i)`, keys equal to it find nothing; other lookups are unchanged. */
  lemma FindAfterRemoveAt<K(!new), E>(s: Scheme<K, E>, t: Table<E>, h: int, i: nat, k: K)
    requires Lawful(s.isEqual, s.getHash) && WellFormed(s, t)
    requires h in t && i < |t[h]|
    ensures Find(s, RemoveAt(t, h, i), k) == if Matches(s, t[h][i], k) then None else Find(s, t, k)
  {
    var b := t[h];
    var b' := b[..i] + b[i + 1..];
    var t' := RemoveAt(t, h, i);
    if s.getHash(k) == h {
      assert BucketAt(t', h) == b';
      if Matches(s, b[i], k) {
        forall j | 0 <= j < |b'|
          ensures !Matches(s, b'[j], k)
        {
          var j0 := if j < i then j else j + 1;
          assert b'[j] == b[j0];
          NoEqualKeys(s, t, h, j0, h, i);
        }
      } else {
        RemoveNonMatching(s, b, i, k);
      }
    } else {
      assert s.getHash(s.keyOf(b[i])) == h;
      assert !Matches(s, b[i], k);
    }
  }

  /** Removing a non-matching entry from a bucket does not change what a scan finds. */
  lemma {:induction false} RemoveNonMatching<K, E>(s: Scheme<K, E>, b: seq<E>, i: nat, k: K)
    requires i < |b| && !Matches(s, b[i], k)
    ensures var b' := b[..i] + b[i + 1..];
      && (IndexOf(s, b', k) < 0 <==> IndexOf(s, b, k) < 0)
      && (IndexOf(s, b, k) >= 0 ==> b'[IndexOf(s, b', k)] == b[IndexOf(s, b, k)])
    decreases |b|
  {
    var b' := b[..i] + b[i + 1..];
    if i == 0 {
      assert b' == b[1..];
    } else if !Matches(s, b[0], k) {
      assert b'[1..] == b[1..][..i - 1] + b[1..][i..];
      RemoveNonMatching(s, b[1..], i - 1, k);
    }
  }

  /** After `Delete(k)`, nothing equal to `k` is found; other lookups are unchanged. */
  lemma FindAfterDelete<K(!new), E>(s: Scheme<K, E>, t: Table<E>, k: K, k': K)
    requires Lawful(s.isEqual, s.getHash) && WellFormed(s, t)
    ensures Find(s, Delete(s, t, k), k') == if s.isEqual(k, k') then None else Find(s, t, k')
  {
    var h := s.getHash(k);
    var i := IndexOf(s, BucketAt(t, h), k);
    if i >= 0 {
      FindAfterRemoveAt(s, t, h, i, k');
      assert Matches(s, t[h][i], k') <==> s.isEqual(k, k');
    } else {
      if s.isEqual(k, k') {
        FindEqualKeys(s, t, k, k');
      }
    }
  }

  /**
   * The table part of `delete(k)`: find the entry whose key equals `k`, splice it out of its
   * bucket and drop the bucket when it becomes empty; `removed` says whether there was one.
   */
  method Remove<K, E>(s: Scheme<K, E>, t: Table<E>, k: K) returns (t': Table<E>, removed: bool)
    ensures t' == Delete(s, t, k)
    ensures removed <==> Find(s, t, k).Some?
  {
    var h := s.getHash(k);
    t', removed := t, false;
    if h in t {
      var b := t[h];
      assert b == BucketAt(t, h);
      var i := FindIndex(s, b, k);
      if i >= 0 {
        var b' := b[..i] + b[i + 1..];
        if |b'| == 0 {
          t' := t - {h};
        } else {
          t' := t[h := b'];
        }
        assert t' == RemoveAt(t, h, i);
        removed := true;
      } else {
        assert IndexOf(s, BucketAt(t, h), k) < 0;
      }
    } else {
      assert BucketAt(t, h) == [];
      assert IndexOf(s, BucketAt(t, h), k) < 0;
    }
  }



  // ---------------------------------------------------------------------------------------
  // Traversal

  /**
   * The nested loops of `values()`/`keys()`/`entries()`/`forEach`: `for (h in this.hash)`
   * visits the buckets in an order the engine chooses (modelled by an arbitrary choice), and
   * `for (n of this.hash[h])` visits a bucket in order. Every stored entry comes out once.
   */
  method Enumerate<E>(t: Table<E>) returns (r: seq<E>)
    ensures multiset(r) == Contents(t)
  {
    r := [];
    var rest := t;
    while rest.Keys != {}
      invariant multiset(r) + Contents(rest) == Contents(t)
      decreases |rest.Keys|
    {
      var h :| h in rest.Keys;
      var b := rest[h];
      ghost var r0 := r;
      for j := 0 to |b|
        invariant r == r0 + b[..j]
      {
        r := r + [b[j]];
      }
      assert b[..|b|] == b;
      ContentsSplit(rest, h);
      assert (rest - {h}).Keys < rest.Keys;
      rest := rest - {h};
    }
  }
}
