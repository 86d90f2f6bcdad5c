# valuecollection in Dafny

This is a Dafny model of the core of `valuecollection`, a JavaScript library with two
collections, `ValueMap` and `ValueSet`. Both compare keys by value, not by reference. By default
they use lodash `isEqual` for equality and a structural hash for placement. The model has two
parts.

- **The structural hash** (`hash.js` and its ES-module copy `hash.esm.js`).
  - `hashString(h, v)` folds `h = (((h * 33) | 0) + charCode) | 0` over the UTF-16 code units of
    `String(v)`.
  - `hash(k)` has two cases.
    - A value that is not a truthy object hashes as `hashString(5381, String(k))`.
    - A truthy object starts from a base. The base is 0, or the hash of `constructor.name` when
      `typeof k.constructor === "object"`; a `null` constructor passes that test, and reading
      its `name` throws. The hash of each own enumerable property's name/value pair is then added
      to the base, wrapping to 32 bits after each addition.
  - `ToInt32` models `x | 0` explicitly, as ECMAScript ToInt32 on an integral number.
  - `JsValue` stands for the inputs: `Prim(String(k))` for non-objects,
    `Obj(constructor tag, own properties in enumeration order)` for objects, and
    `NullConstructor` for an object whose `constructor` is `null`. For that last case
    `typeof null === "object"` holds, so `hash` evaluates `null.name` and throws a TypeError. The
    `Hash` methods return `None` there. `ValueHash` is defined on every other value.
  - Module `StructuralHash` holds the spec functions and the loop methods of `hash.js`.
  - Module `StructuralHashEsm` holds the loop methods of `hash.esm.js`. They are proved to compute
    the same spec functions, so every property proved about `StructuralHash` holds for them too.
- **The bucketed table** (`ValueMap.js`, `ValueMap.esm.js`, `ValueSet.js`).
  - The state is a dictionary `hash` from hash value to bucket, plus the counter `size_`.
  - Every operation hashes the key, fetches the bucket and scans it with `isEqual`.
  - Module `Buckets` is the engine the two collections share. It holds:
    - the table invariants: no empty bucket, every entry in the bucket of its key's hash, no two
      equal keys, and `size_` equal to the number of entries;
    - the linear scan (`findIndex`), the lookup, and the push/overwrite/splice updates as
      functions;
    - the lemmas that each update preserves the invariants, and what each update does to the
      contents and to every later lookup.
  - `ValueMaps.ValueMap` and `ValueSets.ValueSet` are classes with fields `hash` and `size`.
    - Their methods update those fields in place.
    - Each method states its new state through a spec function of the old state (`SetEntry`,
      `AddElement`, `Buckets.Delete`).
  - `ValueMap.js` and `ValueMap.esm.js` run the same algorithm, so one class models both. The
    ES-module version adds the iterable constructor (`FromIterable`) and `forEach`.

`isEqual` and the hash function are constructor parameters. Both classes require them to be
`Lawful`: `isEqual` is an equivalence, and equal keys hash equally. The comments at hash.js:15
and hash.esm.js:22 ask only for the second half, that equal inputs hash equally. That `isEqual`
is an equivalence is an assumption of this model: lodash `isEqual` is one on the values it is
meant for, and the table's lookups mean nothing without it.
`StructuralHash.ShapeConfigurationLawful` proves that the structural hash meets the requirement
for one-level structural equality.

Iteration visits the buckets with `for...in` over the dictionary, in an order the JavaScript
engine chooses. The model makes this a nondeterministic choice of the next bucket. Each
traversal is specified as a permutation of the stored entries (multiset equality), so no order
is promised. The doc comments at `ValueMap.js:101`, `:112` and `:123` say "in insertion order".
The code does not do that, and neither the ES-module copy's comments nor the tests promise it.
The model follows the code.

## Model

| member | source | states |
|---|---|---|
| `StructuralHash.ToInt32` | hash.js:7-11 | bitwise OR with zero of an integral number: the result is a signed 32-bit integer congruent to `x` modulo 2^32 |
| `StructuralHash.StringHash` | hash.js:8-13 | from a signed 32-bit seed, or for a non-empty string, `hashString` gives a signed 32-bit result |
| `StructuralHash.StringHashConcat` | hash.js:10-11 | `hashString` is a left fold: `hashString(h, s + t) == hashString(hashString(h, s), t)` |
| `StructuralHash.HashBaseCases` | hash.js:18-37 | an empty string returns the seed unchanged; an object with no own properties and no object-typed constructor hashes to 0; a non-object hashes to `hashString(5381, String(k))` |
| `StructuralHash.Step` | hash.js:11 | one step of the fold (multiply by 33, wrap, add the code unit, wrap) always gives a signed 32-bit integer |
| `StructuralHash.PairHash` | hash.js:32 | the hash of one name/value pair, `hashString(hashString(5381, name), value)`, is a signed 32-bit integer |
| `StructuralHash.SumHashes` | hash.js:30-33 | the `for...in` accumulation (add each pair hash, wrap) stays a signed 32-bit integer from a 32-bit start, and for any start once there is a property |
| `StructuralHash.BaseHash` | hash.js:20-22 | the object base (0, or the hash of the constructor name) is a signed 32-bit integer |
| `StructuralHash.ValueHash` | hash.js:18-38 | every result of `hash`, on every value for which it returns, is a signed 32-bit integer |
| `StructuralHash.SumHashesWrapsTotal` | hash.js:24-33 | wrapping after every addition gives the same result as one wrap of the exact sum: the reason the source gives for ORing with zero |
| `StructuralHash.TotalPermutation` | hash.js:24-29 | the exact sum of the property pair hashes depends only on the multiset of properties |
| `StructuralHash.ObjectHashOrderIndependent` | hash.js:15-17 | two objects with the same constructor tag whose property lists are permutations of each other hash equally |
| `StructuralHash.HashRespectsShape` | hash.js:15-22 | values of the same one-level shape (equal strings, or the same tag and the same multiset of name/value pairs) hash equally |
| `StructuralHash.ShapeConfigurationLawful` | hash.js:15-17 | same-shape equality with `hash` is a lawful table configuration: an equivalence under which equal values hash equally |
| `StructuralHash.HashString` | hash.js:8-13 | the `for` loop computes exactly `StringHash(h, v)` |
| `StructuralHash.AddProperties` | hash.js:30-33 | the `for...in` loop adds every property's pair hash with a wrap, computing `SumHashes` |
| `StructuralHash.Hash` | hash.js:18-38 | the method throws (returns `None`) exactly for an object whose constructor is `null`, and otherwise returns exactly `ValueHash(k)` |
| `StructuralHashEsm.HashString` | hash.esm.js:13-19 | the loop of hash.esm.js computes the same `StringHash` as hash.js, and stays in signed 32-bit range from a 32-bit seed |
| `StructuralHashEsm.AddProperties` | hash.esm.js:40-43 | the property loop of hash.esm.js computes the same `SumHashes` |
| `StructuralHashEsm.Hash` | hash.esm.js:28-48 | hash.esm.js throws on the same input and otherwise computes the same `ValueHash` as hash.js, so it has the same range, order independence and shape respect |
| `Buckets.IndexOf` | ValueMap.js:60 | `findIndex` gives the first index whose key equals `k`, and -1 exactly when no key in the bucket equals it |
| `Buckets.FindIndex` | ValueMap.js:90 | the linear scan loop returns `IndexOf` |
| `Buckets.EqualKeyInHashBucket` | ValueMap.js:33-37 | under the invariant and a lawful configuration, a stored entry whose key equals `k` sits in the bucket for `hash(k)` |
| `Buckets.NoEqualKeys` | ValueMap.js:37-43 | no two distinct stored entries have equal keys |
| `Buckets.FindIsHolds` | ValueMap.js:55-62 | the lookup through bucket `hash(k)` finds an entry exactly when some stored key anywhere equals `k`; what it finds is stored and matches `k` |
| `Buckets.FindEqualKeys` | ValueMap.js:69-78 | equal queries find the same entry |
| `Buckets.AppendContents` | ValueMap.js:39-43 | `push` adds exactly the new entry |
| `Buckets.OverwriteContents` | ValueMap.js:45 | overwriting an entry replaces exactly that entry |
| `Buckets.RemoveAtContents` | ValueMap.js:93-96 | `splice` (with the emptied bucket dropped) removes exactly that entry |
| `Buckets.AppendPreserves` | ValueMap.js:35-43 | pushing an entry whose key has no equal in its bucket, creating the bucket if needed, keeps the invariants |
| `Buckets.OverwritePreserves` | ValueMap.js:45 | overwriting an entry while keeping its key keeps the invariants |
| `Buckets.RemoveAtPreserves` | ValueMap.js:93-96 | splicing out an entry and deleting a bucket that becomes empty keeps the invariants |
| `Buckets.DeletePreserves` | ValueMap.js:85-98 | `delete` keeps the invariants; when an equal key is held it removes exactly the found entry (one fewer), otherwise the table is unchanged |
| `Buckets.FindAfterAppend` | ValueMap.js:39-42 | after a push, queries equal to the new key find it and every other lookup is unchanged |
| `Buckets.FindAfterOverwrite` | ValueMap.js:45 | after an overwrite, queries equal to the key find the new entry and every other lookup is unchanged |
| `Buckets.FindAfterRemoveAt` | ValueMap.js:93-96 | after a splice, queries equal to the removed key find nothing and every other lookup is unchanged |
| `Buckets.FindAfterDelete` | ValueMap.js:85-98 | after `delete(k)`, queries equal to `k` find nothing and every other lookup is unchanged |
| `Buckets.BucketAt` | ValueMap.js:34-35 | the bucket for `h` is the one stored under `h`, or the empty bucket when there is none (as `has` and `get` treat a missing bucket, ValueMap.js:57-59) |
| `Buckets.ContentsMember` | ValueMap.js:104-109 | every stored entry sits at some position of some bucket |
| `Buckets.ContentsAtMostOnce` | ValueMap.js:37-43 | under the invariant and a lawful configuration, no entry is stored twice |
| `Buckets.EnumerationDistinct` | ValueMap.js:104-109 | in any listing of the stored entries, no two keys are equal |
| `Buckets.FindOfMember` | ValueMap.js:55-62 | a stored entry whose key equals the query is what the lookup finds |
| `Buckets.FindOfNoMember` | ValueMap.js:55-62 | when no stored key equals the query, the lookup finds nothing |
| `Buckets.Find` | ValueMap.js:70-77 | the lookup (hash, fetch the bucket, `find`) returns an entry of bucket `hash(k)` whose key equals `k`, and none exactly when no entry of that bucket matches |
| `Buckets.Append` | ValueMap.js:35-43 | `push` onto the bucket for `h`, creating it when missing: bucket `h` gains the entry at its end, and every other bucket is unchanged |
| `Buckets.Overwrite` | ValueMap.js:45 | `n.value = v` on entry `i`: only that position of bucket `h` changes, and no bucket is added or dropped |
| `Buckets.RemoveAt` | ValueMap.js:93-96 | `splice(i, 1)` and `delete this.hash[h]` when emptied: bucket `h` loses exactly position `i`, it is dropped exactly when it held one entry, and every other bucket is unchanged |
| `Buckets.Delete` | ValueMap.js:86-97 | `delete(k)` on the table adds no bucket and changes no bucket other than the one for `hash(k)` |
| `Buckets.Remove` | ValueMap.js:86-97 | the table steps of `delete` compute `Delete` and report whether an equal key was found |
| `Buckets.Enumerate` | ValueMap.js:104-109 | the nested `for...in` / `for...of` loops yield every stored entry exactly once |
| `ValueMaps.SetEntry` | ValueMap.js:33-46 | `set(k, v)` on the table: the bucket for `hash(k)` exists afterwards, no other bucket changes, and the bucket keeps every stored key object in its place, only growing |
| `ValueMaps.Put` | ValueMap.js:33-46 | the table steps of `set` compute `SetEntry`, and report a push exactly when the scan found no equal key |
| `ValueMaps.SetAll` | ValueMap.esm.js:23-26 | a run of `set` calls never drops a bucket |
| `ValueMaps.SetEntryPreserves` | ValueMap.js:32-48 | `set` keeps the invariants and adds one entry exactly when no stored key equals `k` |
| `ValueMaps.SetEntryLookup` | ValueMap.js:32-48 | after `set(k, v)`, every key equal to `k` gets `v` and every other key gets what it got before |
| `ValueMaps.Lookup` | ValueMap.js:74-77 | `get` on the table: a value is returned only from an entry of bucket `hash(k)` whose key equals `k`, and nothing exactly when no entry of that bucket matches |
| `ValueMaps.SetEntryStep` | ValueMap.js:32-48 | given whether the scan found no equal key, `set` keeps the invariants, pushes exactly when no stored key equals `k` (one more entry), and every key then gets what `get` returns |
| `ValueMaps.SetAllFreshKey` | ValueMap.esm.js:20-27 | a key equal to no key of the pairs is not held after setting them on an empty map |
| `ValueMaps.SetAllDistinctSize` | ValueMap.esm.js:20-27 | setting pairs with pairwise unequal keys on an empty map stores one entry per pair |
| `ValueMaps.LastValueOfNone` | ValueMap.esm.js:24-25 | when no pair's key equals `k`, the pairs leave `k`'s value as it was |
| `ValueMaps.LastValueOfOne` | ValueMap.esm.js:24-25 | when exactly one pair's key equals `k`, `k` gets that pair's value |
| `ValueMaps.LastValueOfEnumeration` | ValueMap.js:126-131 | over a listing of the stored entries, the last pair for `k` is what `get(k)` returns |
| `ValueMaps.RebuildFromEntries` | ValueMap.esm.js:20-27 | `new ValueMap(m.entries())` (ValueMap.js:126-131 for `entries`) has the size of `m` and gives every key what `m` gives it |
| `ValueMaps.SetAllPreserves` | ValueMap.esm.js:20-27 | any sequence of `set` calls keeps the invariants |
| `ValueMaps.SetAllLookup` | ValueMap.esm.js:20-27 | after setting a list of pairs, a key gets the value of the last pair with an equal key, or its old value if there is none |
| `ValueMaps.ValueMap.constructor` | ValueMap.js:14-16 | `new ValueMap()` is an empty, valid map |
| `ValueMaps.ValueMap.FromIterable` | ValueMap.esm.js:20-27 | the iterable constructor equals `clear()` then `set` of each pair in order (later equal keys win); a falsy iterable gives an empty map |
| `ValueMaps.ValueMap.SetEach` | ValueMap.esm.js:24-25 | the `for...of` loop of the iterable constructor keeps the invariants and computes `SetAll` of the pairs from the current table |
| `ValueMaps.ValueMap.Size` | ValueMap.js:22-24 | `size` is the number of stored entries |
| `ValueMaps.ValueMap.Set` | ValueMap.js:32-48 | appends and increments `size` for a new key, otherwise overwrites the value in place with `size` unchanged; every equal key then gets `v`, other lookups are unchanged, and it returns the map |
| `ValueMaps.ValueMap.Has` | ValueMap.js:55-62 | `has` is true exactly when some stored key equals `k`, agrees with `get`, and changes nothing |
| `ValueMaps.ValueMap.Get` | ValueMap.js:69-78 | `get` returns the value stored under an equal key, or undefined when there is none, and changes nothing |
| `ValueMaps.ValueMap.Delete` | ValueMap.js:85-98 | returns true, removes the equal entry and decrements `size` exactly when an equal key was present, otherwise changes nothing; keys equal to `k` then find nothing |
| `ValueMaps.ValueMap.Clear` | ValueMap.js:136-139 | `clear` leaves no buckets, `size` 0 and no stored key |
| `ValueMaps.ValueMap.Values` | ValueMap.js:104-109 | one value per stored entry, `size` in all, in no promised order |
| `ValueMaps.ValueMap.Keys` | ValueMap.js:115-120 | one key per stored entry, `size` in all, in no promised order |
| `ValueMaps.ValueMap.Entries` | ValueMap.js:126-131 | one `[key, value]` pair per stored entry, `size` in all, in no promised order |
| `ValueMaps.ValueMap.ForEach` | ValueMap.esm.js:152-157 | `func(value, key, map)` is called exactly once per stored entry |
| `ValueSets.AddElement` | ValueSet.js:40-49 | `add(k)` on the table adds at most the bucket for `hash(k)`, and only appends: every old bucket is a prefix of its new self |
| `ValueSets.Insert` | ValueSet.js:40-49 | the table steps of `add` compute `AddElement`, and report a push exactly when the scan found no equal element |
| `ValueSets.AddAll` | ValueSet.js:20-23 | a run of `add` calls never drops a bucket |
| `ValueSets.AddPreserves` | ValueSet.js:39-50 | `add` keeps the invariants and adds `k` itself exactly when no stored element equals it |
| `ValueSets.AddLookup` | ValueSet.js:39-50 | after `add(k)`, a query equal to `k` finds `k` only if nothing equal was stored before; otherwise the stored instance is kept and all lookups are unchanged |
| `ValueSets.FirstEqual` | ValueSet.js:21-22 | the first element of a list equal to `k`, or none exactly when no element equals it |
| `ValueSets.AddElementStep` | ValueSet.js:39-50 | given whether the scan found no equal element, `add` keeps the invariants, pushes `k` exactly when no stored element equals it and leaves the table unchanged otherwise, and every lookup then agrees with `has` |
| `ValueSets.AddAllFreshKey` | ValueSet.js:18-24 | an element equal to none of the list is not held after adding the list to an empty set |
| `ValueSets.AddAllDistinctSize` | ValueSet.js:18-24 | adding pairwise unequal elements to an empty set stores each of them |
| `ValueSets.FirstEqualOfEnumeration` | ValueSet.js:107-112 | over a listing of the stored elements, the first one equal to the query is what the lookup finds |
| `ValueSets.RebuildFromValues` | ValueSet.js:18-24 | `new ValueSet(s.values())` (ValueSet.js:107-112 for `values`) has the size of `s` and every lookup finds what it finds in `s` |
| `ValueSets.AddAllPreserves` | ValueSet.js:18-24 | any sequence of `add` calls keeps the invariants |
| `ValueSets.AddAllLookup` | ValueSet.js:18-24 | after adding a list, a lookup finds the first added element equal to the query: later duplicates are ignored |
| `ValueSets.ValueSet.constructor` | ValueSet.js:18-24 | the constructor equals `clear()` then `add` of each element in order; a falsy iterable gives an empty set |
| `ValueSets.ValueSet.AddEach` | ValueSet.js:21-22 | the `for...of` loop of the constructor keeps the invariants and computes `AddAll` of the elements from the current table |
| `ValueSets.ValueSet.Size` | ValueSet.js:30-32 | `size` is the number of stored elements |
| `ValueSets.ValueSet.Add` | ValueSet.js:39-50 | returns true, pushes `k` and increments `size` exactly when no stored element equals `k`; otherwise returns false and leaves the set unchanged |
| `ValueSets.ValueSet.Has` | ValueSet.js:57-64 | `has` is true exactly when some stored element equals `k`, and changes nothing |
| `ValueSets.ValueSet.Get` | ValueSet.js:71-80 | `get` returns the stored element equal to `k` (the stored instance, not the query), or undefined when there is none |
| `ValueSets.ValueSet.Delete` | ValueSet.js:87-100 | returns true, removes the equal element, decrements `size` and drops an emptied bucket exactly when one is present; otherwise changes nothing |
| `ValueSets.ValueSet.Clear` | ValueSet.js:129-132 | `clear` leaves `size` 0 and `has` false for every element |
| `ValueSets.ValueSet.Values` | ValueSet.js:107-112 | each stored element once, `size` in all, in no promised order |
| `ValueSets.ValueSet.Entries` | ValueSet.js:119-124 | a `[n, n]` pair for each stored element `n`, `size` in all |

## Left out

- lodash `isEqual` (ValueMap.js:3, ValueSet.js:3) is a foreign library. It is an abstract
  equality parameter. The classes require it to be an equivalence under which equal keys hash
  equally.
- JavaScript `String(v)` conversion (number formatting, `"[object Object]"`, arrays, `null`) is
  not modelled. `JsValue` already carries the code units of `String(k)` and of each property
  value, so the model assumes that conversion returns. In the source it can throw
  (hash.js:9, hash.esm.js:14): for a property value that is an object without a prototype
  (`{a: Object.create(null)}`), or one whose `toString`/`valueOf` throws or returns an object, at
  hash.js:32 and hash.esm.js:42. A property getter that throws is the same kind of case. Only the
  `null` constructor of hash.js:21-22 is modelled as a throw (`NullConstructor`).
- Own-property enumeration (`for...in` with `hasOwnProperty`, hash.js:30-31) is engine-defined.
  `props` is the list of own enumerable properties in some order, and the results are proved
  independent of that order.
- `typeof k.constructor === "object"` (hash.js:21) is modelled as the test it is. `ctor` is
  `Some(name)` only when that test is true and the constructor is not `null`. An ordinary class
  constructor is a function, so for most objects the base is 0. A `null` constructor is the
  `NullConstructor` case, on which the `Hash` methods report the TypeError.
- A key whose hash throws, for any of the reasons above (a `null` constructor, hash.js:21-22,
  or a `String` conversion that throws, hash.js:9 and hash.esm.js:14): the collections take
  `getHash` as a total function, so their keys are values on which it returns. In the source the
  exception escapes from `set`, `add`, `has`, `get` and `delete` before the table is touched.
  `StructuralHash.ShapeConfigurationLawful` is stated for `HashableValue`, the values that have no
  `null` constructor; the conversion failures are outside `JsValue` altogether.
- Floating point: `h * 33` is a double multiplication in JavaScript. It is exact whenever `|h|`
  is below 2^31, which every step guarantees once the seed is a signed 32-bit integer. The model
  uses exact integers, so a caller's non-32-bit seed is outside what it describes.
- Dictionary keys: the source's `this.hash` is an object, so hash values become property names.
  The model keys the table by `int`, because distinct integers give distinct names. A custom
  `getHash` that returns non-integers is not modelled.
- The order of `for...in` over the dictionary is the engine's. It is a nondeterministic choice,
  and traversals promise only a permutation of the stored entries.
- Generators are lazy and `Symbol.iterator` is wired separately (ValueSet.js:138-139,
  ValueMap.esm.js:175-176). Each traversal is modelled as the whole sequence it yields. The
  default iterator is the `values` method for the set (ValueSet.js:138-139) and the `entries`
  method for the ES-module map (ValueMap.esm.js:175-176), so it is not modelled again.
  ValueMap.js sets no `Symbol.iterator` at all, so a map built from it is not iterable with
  `for...of`; the model does not represent that difference.
- `toJSON` (ValueMap.esm.js:167-169) is JSON serialisation with no contract, and is not
  modelled.
- Runtime plumbing is replaced by constructor parameters: `extends Map` and `static name`
  (ValueMap.esm.js:13-14), and the prototype assignment of `getHash`/`isEqual`
  (ValueMap.js:142-143, ValueSet.js:135-136).
- `index.js` and `index.cjs` only re-export, and are not part of this model.
- Mutating a key after insertion is not modelled: keys are values.
- `ValueMaps.ValueMap.Get` returns `Some(v)` for a stored value `v`, even when `v` is
  JavaScript `undefined`. The source returns `undefined` both for that and for a missing key.
- `ValueSets.ValueSet.Get` returns `Some(u)` for a stored element `u`, even when `u` is
  JavaScript `undefined` (after `add(undefined)`). ValueSet.js:79 then returns that `undefined`,
  which a caller cannot tell apart from "not found" (ValueSet.js:75, :78).
- The iterable constructors (ValueMap.esm.js:24-25, ValueSet.js:21-22) take a finite sequence,
  of pairs for the map. Iterables whose entries do not destructure, and infinite iterables, are
  not modelled.
- `ValueMaps.ValueMap.ForEach` returns the list of calls `(value, key, map)` in the order they
  are made. It does not run a callback, so the effects of a callback (including one that changes
  the map during iteration) are not modelled.
