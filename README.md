# go-collection in Dafny

A Dafny model of the go-collection library. The library has two generic
containers and five free functions:

- `SliceCollection[T]` (`slices/slice.go`) is an ordered collection. Its
  constructor copies the input. Some methods mutate the receiver in place:
  `Put`, `Transform`, `Concat`, `Merge`, `Push`, `Pop`, `Shift`, `Prepend`,
  `Delete` and `Reverse`. Others build a new collection: `Map`, `Filter`,
  `Reject`, `Diff`, `Uniq`, `Clone`, `Slice`, `Only` and `Except`. Lookups
  return a value together with a found flag.
- The free functions `Reduce`, `FlatMap`, `GroupBy`, `KeyBy` and `Flatten`
  work on plain slices.
- `MapCollection[K,V]` (`maps/map.go`) wraps a Go map. `Put`, `Pull` and
  `Union` update it in place. `Intersect`, `Diff`, `SymmetricDiff` and
  `FromEntries` build a new collection. `Entries` and `FromEntries` convert
  between the map and a list of `Entry{Key, Value}` records (`types.go`).

Files:

- `collection.dfy` (module `Collection`) holds:
  - `Option`, which stands for Go's `(value, found)` pair;
  - the `Entry` datatype;
  - `KeysOf`, the set of keys in a list of entries;
  - `LastWins`, the map you get by writing a list of entries in order, and
    the lemma `LastWinsAt` about which entry supplies a key's value.
- `seqs.dfy` (module `Seqs`) holds reference definitions on sequences, with
  lemmas about what they mean. The collection operations are proved against
  these definitions:
  - `Filtered`: selection by a predicate over value and index;
  - `Dedup`: first-occurrence de-duplication;
  - `Concatenation`, `Reversed`, `FoldLeft`, `Picked` and `JoinStrings`.
- `slices.dfy` (module `Slices`) holds the class `SliceCollection`, whose
  items live in a `seq<T>` field, and the free functions as methods.
- `maps.dfy` (module `Maps`) holds the class `MapCollection`, whose items
  live in a `map<K, V>` field.

The two classes follow the source closely:

- Mutators are methods that modify `this`.
- Every loop in the source is a `while` or `for` loop with invariants.
  `Reverse` keeps the source's two-index swap.
- Copy-producing operations return a `fresh` collection.
- Predicates and callbacks are total function parameters, such as
  `(T, int) -> bool`.
- `cmp.Equal` becomes `==` on a type with equality.
- A loop over a Go map picks its next key arbitrarily (`:|`) from the keys
  not yet visited. So the results of `Keys`, `Values` and `Entries` are
  specified for every visiting order.

`Len`, `All` and `Count` are modelled as the plain functions `|items|`,
`items` and `|items|`. They carry no contract of their own, so they have
no row in the table below.

Where the code and its documentation disagree, the model follows the code:

- `Get` only checks `i >= Len()`. A negative index is an out-of-range panic,
  not found = false. So `Get` requires `i >= 0`, and `Last` requires a
  non-empty collection.
- `Map` returns 2·n elements: n zero values, then the mapped values. See
  Findings below.
- `MapCollection.Intersect` takes its values from the argument map, not
  from the receiver.
- `Only` follows the order of its index list, repeats duplicated indices
  and skips indices past the end.

## Model

| member | source | states |
|---|---|---|
| `Collection.LastWins` | maps/map.go:51-57 | the keys of the map built from a list of entries are exactly the keys that occur in the list |
| `Collection.LastWinsAt` | maps/map.go:52-55 | a key's value is the value of the last entry carrying that key |
| `Seqs.Filtered` | slices/slice.go:114-122 | selection keeps at most the input's elements; every kept element stands at a position where the predicate holds |
| `Seqs.FilteredPositions` | slices/slice.go:114-131 | the selection is the input read at exactly the positions where the predicate holds, each once, in ascending order |
| `Seqs.Dedup` | slices/slice.go:252-274 | de-duplication keeps the set of values: every output value is in the input and every input value is in the output |
| `Seqs.DedupDistinct` | slices/slice.go:252-274 | the de-duplicated sequence has no repeated value |
| `Seqs.DedupKeepsFirstOccurrences` | slices/slice.go:252-274 | de-duplication keeps exactly the elements that are the first occurrence of their value, so values appear in first-occurrence order |
| `Seqs.ConcatenationAppend` | slices/slice.go:368-376 | concatenating two lists of parts equals concatenating each list and joining the results |
| `Seqs.ConcatenationMembers` | slices/slice.go:368-376 | a value is in the concatenation exactly when it is in one of the parts |
| `Seqs.ReversedAt` | slices/slice.go:200-205 | position k of the reversal holds the element at position n-1-k |
| `Seqs.ReversedPermutes` | slices/slice.go:200-205 | reversal preserves the multiset of elements |
| `Seqs.FoldLeftVisitsInOrder` | slices/slice.go:324-329 | the fold calls its step once per element, in index order, with each element's own index |
| `Seqs.PickedSelects` | slices/slice.go:300-308 | projection reads the input at every listed index that is in bounds, in list order, with repetitions kept |
| `Seqs.PickedUnlisted` | slices/slice.go:310-318 | reading the input at the indices not listed, in ascending order, gives the elements whose index is not listed |
| `Seqs.JoinStringsParts` | slices/slice.go:138-144 | the joined string is the first part followed by every later part, each preceded by the separator, in order |
| `Seqs.JoinStringsLength` | slices/slice.go:138-144 | the joined string is as long as all the parts together plus one separator between each two neighbours |
| `Slices.SliceCollection.constructor` | slices/slice.go:29-37 | the new collection holds the given items; a nil slice gives the empty collection |
| `Slices.SliceCollection.Empty` | slices/slice.go:161-163 | true exactly when there are no items |
| `Slices.SliceCollection.Get` | slices/slice.go:43-48 | for a non-negative index, found exactly when the index is below the length, and then the value is the item at that index |
| `Slices.SliceCollection.First` | slices/slice.go:50-52 | found exactly when the collection is non-empty, and then the value is the first item |
| `Slices.SliceCollection.Last` | slices/slice.go:54-56 | on a non-empty collection, found with the last item |
| `Slices.SliceCollection.Put` | slices/slice.go:58-61 | the item at the index becomes v; the length and every other item are unchanged |
| `Slices.SliceCollection.Find` | slices/slice.go:63-70 | not found exactly when no item satisfies the predicate; otherwise the value is the first item that does |
| `Slices.SliceCollection.Index` | slices/slice.go:72-79 | the index of the first item satisfying the predicate, or -1 exactly when none does |
| `Slices.SliceCollection.Each` | slices/slice.go:82-89 | the callback is called on a prefix of the items, in order; every call but the last returned true, and it stops early only after a call that returned false |
| `Slices.SliceCollection.Map` | slices/slice.go:91-97 | as written: the result has 2·n items, n zero values followed by fn of each item with its index |
| `Slices.SliceCollection.MapIntended` | slices/slice.go:91-97 | corrected: one result item per item, fn of the item with its index |
| `Slices.MapAsWrittenPadsZeros` | slices/slice.go:91-97 | mapping v+1 over [1,2,3] gives [0,0,0,2,3,4], not [2,3,4] |
| `Slices.MapIntendedExample` | slices/slice.go:91-97 | the corrected map over [1,2,3] with v+1 gives [2,3,4] |
| `Slices.SliceCollection.Transform` | slices/slice.go:99-104 | in place, every item becomes fn of its old value and index; the length is unchanged |
| `Slices.SliceCollection.Contains` | slices/slice.go:110-112 | true exactly when some item satisfies the predicate |
| `Slices.SliceCollection.Filter` | slices/slice.go:114-122 | a fresh collection of exactly the items satisfying the predicate, in their original order; the receiver is untouched |
| `Slices.SliceCollection.Reject` | slices/slice.go:123-131 | a fresh collection of exactly the items whose value fails the predicate, in their original order |
| `Slices.SliceCollection.Concat` | slices/slice.go:133-136 | the given items are appended after the existing ones |
| `Slices.SliceCollection.Join` | slices/slice.go:138-144 | fn of every item, in order, joined with the separator |
| `Slices.SliceCollection.Clone` | slices/slice.go:146-150 | a fresh, distinct collection with the same items |
| `Slices.SliceCollection.Tap` | slices/slice.go:152-155 | returns the receiver unchanged; the callback's argument is a fresh copy |
| `Slices.SliceCollection.Diff` | slices/slice.go:165-175 | a fresh collection of exactly the items whose value occurs nowhere in the target, in the receiver's order |
| `Slices.SliceCollection.Merge` | slices/slice.go:177-182 | the targets are appended one after the other, in argument order |
| `Slices.SliceCollection.Pop` | slices/slice.go:184-193 | on an empty collection, not found and nothing changes; otherwise the last item is returned and removed |
| `Slices.SliceCollection.Push` | slices/slice.go:195-198 | the value is appended |
| `Slices.PushThenPop` | slices/slice.go:184-198 | Push(v) then Pop returns v as found and restores the original items |
| `Slices.SliceCollection.Reverse` | slices/slice.go:200-205 | in place, position k receives the old item at n-1-k; the length and the multiset of items are unchanged |
| `Slices.SliceCollection.Slice` | slices/slice.go:207-214 | a fresh collection of the items from offset to the end, or of `length` items from offset when a length other than -1 is given |
| `Slices.SliceCollection.Prepend` | slices/slice.go:216-219 | the value is inserted before the first item |
| `Slices.SliceCollection.Shift` | slices/slice.go:221-228 | on an empty collection, not found and nothing changes; otherwise the first item is returned and the rest remain |
| `Slices.SliceCollection.Delete` | slices/slice.go:230-233 | the item at the index is removed and later items move one place left; the length drops by one |
| `Slices.SliceCollection.Chunk` | slices/slice.go:235-250 | the chunks concatenate back to the items; none is empty; all but the last have size max(n,1), and the last has at most that size |
| `Slices.SliceCollection.Uniq` | slices/slice.go:252-274 | a fresh collection holding the first occurrence of every value; the inner re-check loop never pushes |
| `Slices.SliceCollection.Keys` | slices/slice.go:284-290 | the indices 0 to Len()-1 in order |
| `Slices.SliceCollection.Values` | slices/slice.go:292-298 | a copy of the items in order |
| `Slices.SliceCollection.Only` | slices/slice.go:300-308 | a fresh collection of the items at the listed indices, in list order, with indices past the end skipped |
| `Slices.SliceCollection.Except` | slices/slice.go:310-318 | a fresh collection of the items whose index is not listed, in ascending index order |
| `Slices.Reduce` | slices/slice.go:324-329 | the left fold of the step over the items with their indices, starting from the initial value |
| `Slices.FlatMap` | slices/slice.go:331-339 | the results of the callback on each item, concatenated in item order |
| `Slices.GroupBy` | slices/slice.go:341-355 | the keys are exactly the keys the callback produces; each key maps to the items producing it, in input order |
| `Slices.KeyBy` | slices/slice.go:357-366 | the keys are exactly the keys fn produces; each key maps to the last item producing it |
| `Slices.Flatten` | slices/slice.go:368-376 | the inner slices one after the other |
| `Maps.EntryListRoundTrip` | maps/map.go:41-57 | writing back the entries of a map, in any order, rebuilds exactly that map |
| `Maps.EntryListLength` | maps/map.go:41-49 | an entry list of a map has exactly Count() entries |
| `Maps.MapCollection.constructor` | maps/map.go:11-13 | the collection holds the given map |
| `Maps.MapCollection.Empty` | maps/map.go:23-25 | true exactly when there is no key |
| `Maps.MapCollection.Keys` | maps/map.go:27-32 | every key exactly once, in some order |
| `Maps.MapCollection.Values` | maps/map.go:34-39 | one value per key, in the order the keys were visited, every key visited once |
| `Maps.MapCollection.Entries` | maps/map.go:41-49 | one entry per key, carrying that key's value; Count() entries in all |
| `Maps.MapCollection.FromEntries` | maps/map.go:51-57 | a fresh collection in which each key of the list maps to its last entry's value; the receiver plays no part |
| `Maps.EntriesRoundTrip` | maps/map.go:41-57 | FromEntries(Entries()) holds the same map as the receiver |
| `Maps.MapCollection.Has` | maps/map.go:59-65 | true exactly when the key is present |
| `Maps.MapCollection.Get` | maps/map.go:67-73 | found exactly when the key is present, and then with its value |
| `Maps.MapCollection.Put` | maps/map.go:75-78 | the key maps to the value; no other key is added or changed |
| `Maps.MapCollection.Pull` | maps/map.go:80-86 | a present key is returned with its value and removed, and nothing else changes; an absent key gives not found and no change |
| `Maps.PutThenPull` | maps/map.go:75-86 | Put(k, v) then Pull(k) returns v and leaves the map without k |
| `Maps.MapCollection.Union` | maps/map.go:88-94 | in place, the keys become the union; on a shared key the argument's value wins; other values are kept |
| `Maps.MapCollection.Intersect` | maps/map.go:96-104 | a fresh collection of the keys present in both maps, with the values of the argument map |
| `Maps.MapCollection.Diff` | maps/map.go:106-114 | a fresh collection of the receiver's keys that are absent from the argument, with the receiver's values |
| `Maps.MapCollection.SymmetricDiff` | maps/map.go:116-118 | a fresh collection of the keys in exactly one of the two maps, each with the value from the map that holds it; the receiver is untouched |

## Findings

| source | as written | input that shows it | evidently intended | confidence | as-written member | corrected member |
|---|---|---|---|---|---|---|
| slices/slice.go:92-94 | `make([]T, co.Len())` allocates n zero values and the loop appends after them, so the result has 2·n items | `[1,2,3]` mapped with `v + 1` gives `[0,0,0,2,3,4]` | `[2,3,4]`, as the test at slices/slice_test.go:118-121 expects | high; not executed | `Slices.MapAsWrittenPadsZeros` | `Slices.SliceCollection.MapIntended` |

## Left out

- `ToJson` is left out. It is a call into `encoding/json`.
- `Shuffle` is left out. It uses `math/rand`; the only promise about its result is that it is a permutation.
- `Get` (both classes), `Find`, `First`, `Last`, `Pop`, `Shift`, `Pull`: the zero value that Go returns beside found = false is not modelled. `Option.None` carries no value.
- Each: only the number of callback calls is modelled. Whatever the callback itself does is not.
- Tap: the callback is not modelled. The method returns the copy the callback would receive, together with the receiver.
- Diff (slices): the source drives its loop with `Each` and a callback that always returns true. The model uses a plain loop over every item, which has the same effect.
- Return values used for chaining are not modelled. In Go, these methods return the receiver:
  - `SliceCollection`: `Put`, `Each`, `Transform`, `Concat`, `Tap`, `Merge`, `Push`, `Reverse`, `Prepend`, `Delete`;
  - `MapCollection`: `Put`, `Union`.
  In the model they return nothing, with two exceptions. `Each` returns the number of callback calls. `Tap` returns the receiver together with the copy its callback would receive.
- Aliasing is not modelled:
  - `All()` on either class returns the live storage in Go;
  - `NewMapCollection` shares the caller's map;
  - `append` in `Delete` writes into the receiver's backing array, which other views of the old slice may share;
  - `Pop` reslices and keeps the spare capacity (slices/slice.go:191). A later `append` in `Push`, `Concat` or `Merge` then writes into the freed slot, which an earlier `All()` result still shows.
  A `seq` or `map` field is a value, so the constructors' copying is structural.
- Go panics are preconditions, not behaviour:
  - `Get` with a negative index, and `Last` on an empty collection;
  - `Put` and `Delete` with an index out of range;
  - `Slice` with bounds out of range;
  - `Only` with a negative index.
- Slice: Go also accepts an upper bound up to the slice's capacity. The model requires it to be within the length.
- Go's `int` is unbounded in the model. Overflow of `offset + length` in `Slice` is not modelled.
- A nil Go map is modelled as the empty map, because a Dafny `map` has no nil value. `NewMapCollection(nil)` is legal in Go, and reads on the result behave as on an empty map. But `Put` (maps/map.go:75-78) panics on such a collection with "assignment to entry in nil map", and so does `Union` (maps/map.go:88-94) with a non-empty argument. In the model both succeed and add the entries.
- Go map iteration order is not modelled. Each loop over a map may visit the keys in any order, and the contracts hold for every order.
- `cmp.Equal` deep equality is modelled as Dafny `==` on a type with equality.
