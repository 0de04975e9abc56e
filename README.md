# A verified model of a byte-budgeted LRU cache and its byte view

This project models the storage core of a small Go caching library:

- `lru/lru.go`: a least-recently-used cache. A doubly linked list keeps the
  entries with the most recently used at the front, a map sends each key to
  its list element, and `nbytes` counts `len(key) + value.Len()` over all
  entries. `Add` inserts or replaces a key, moves it to the front and then
  evicts from the back while a non-zero `maxBytes` budget is exceeded. `Get`
  looks a key up and marks it used. `RemoveOldest` drops the back entry and
  hands it to the optional `OnEvicted` callback.
- `byteview.go`: `ByteView`, the immutable value the cache stores. It wraps a
  byte slice and hands out copies only.

The cache is the class `Lru.Cache` in `lru.dfy`. Its fields are those of the Go
struct:

- The list is a `seq<Entry<V>>`, front first.
- The map is a `map<string, V>` from each key to the value its element holds.
- `maxBytes` and `nbytes` are integers.
- `OnEvicted` is a flag saying whether a callback is set, plus a ghost log of
  the calls it receives. Each logged call records the key, the value, and the
  length, byte count and map of the cache at the moment of the call.

The invariant `Valid` ties the fields together:

- The list has distinct keys.
- The map is the one the list determines (`MapOf`).
- `nbytes` is the list's `Weight`.

`Add`, `Get` and `RemoveOldest` preserve it. Each states its new state in
terms of the specification functions:

- `MoveToFront` takes the key's entry out (`Without`) and puts the new entry
  in front.
- `Fit` is how many entries survive the eviction loop.
- `Evictions` is the sequence of callback calls that the loop makes.

The lemmas beside them prove what the cache promises. These include the byte
accounting of both `Add` branches, the budget bound and the minimality of
eviction, the front position of the added key, and the least-recently-used
order of eviction reports. They also show that every dropped key is reported
exactly once and that the map and the list agree.

The eviction loop at the end of `Add` (`lru/lru.go:62-64`) is the separate
method `Lru.Cache.TrimToBudget`, which `Add` calls as its last step. The loop
condition, its body (`RemoveOldest`) and the order of the calls are those of
the source.

`ByteView` is a datatype over an `array<byte>` in `byteview.dfy`:

- `String` gives the bytes as a value.
- `ByteSlice` and `CloneBytes` allocate a fresh array and copy byte by byte,
  like `make` followed by `copy`.
- `ByteSliceIsACopy` shows that writing into the returned array leaves the
  view as it was.

`ByteView.Len` is `b.Length`. Its meaning is stated through the contracts of
`String` and `ByteSliceIsACopy`.

## Model

| member | source | states |
|---|---|---|
| Lru.Cache.New | lru/lru.go:41-48 | a new cache holds no entries, an empty map and zero bytes, has made no callback calls, and keeps the given budget and callback |
| Lru.Cache.Len | lru/lru.go:36-38 | the result is the number of list entries and equals the number of keys in the map |
| Lru.Cache.Add | lru/lru.go:51-65 | the invariant is kept. The list becomes the surviving front of `MoveToFront(old list, key, value)`, and the callback log gains exactly the evictions of the dropped tail. A non-zero budget holds afterwards. With budget 0 nothing is evicted and the map becomes `old map[key := value]`. `key` is in the map iff anything survived, and then it maps to `value` at the front of the list |
| Lru.Cache.TrimToBudget | lru/lru.go:62-64 | the loop keeps the invariant and stops with the list cut to its first `Fit` entries. It reports the removed entries back to front, and a non-zero budget then holds |
| Lru.Cache.Get | lru/lru.go:68-75 | a value comes back iff the key is in the map, and it is the mapped value. A hit moves that entry to the front with the rest in order, and a miss changes nothing. The map and byte count never change |
| Lru.Cache.RemoveOldest | lru/lru.go:78-89 | an empty cache is left as it is. Otherwise the back entry leaves the list, its key leaves the map and its cost leaves `nbytes`. Only after that is it reported, with the length, byte count and map the cache then has, so the map no longer holds the key when the callback runs |
| Lru.AddAccounting | lru/lru.go:52-61 | before eviction, `Add` keeps keys distinct and sets `key := value` in the map. A present key changes `nbytes` by new size minus old size, and a new key adds `len(key) + value.Len()` |
| Lru.MoveToFrontNew | lru/lru.go:57-59 | for a key not in the map, the update is pushing the new entry in front of the unchanged list |
| Lru.MoveToFrontKeepsOthers | lru/lru.go:52-56 | re-adding or using a key leaves all other entries in their previous relative order |
| Lru.WithoutMap | lru/lru.go:52-56 | taking a key's entry out of the list removes exactly that key from the map |
| Lru.WithoutKeys | lru/lru.go:52-56 | taking a key's entry out leaves exactly the other keys |
| Lru.WithoutDistinct | lru/lru.go:52-56 | taking a key's entry out of a list with distinct keys keeps them distinct |
| Lru.WeightWithout | lru/lru.go:55 | taking a key's entry out lowers the byte count by exactly that entry's `len(key) + value.Len()` |
| Lru.WeightFront | lru/lru.go:60 | pushing an entry in front raises the byte count by its cost |
| Lru.MapOfFront | lru/lru.go:58-59 | pushing an entry with a new key adds exactly that key and value to the map |
| Lru.DistinctFront | lru/lru.go:58-59 | pushing an entry with a new key keeps keys distinct |
| Lru.MapOfAgrees | lru/lru.go:13-15 | the map holds exactly the keys of the list, and with distinct keys each key maps to the value of its entry |
| Lru.DistinctKeysPairwise | lru/lru.go:13-15 | the list has distinct keys iff no two entries share a key |
| Lru.MapOfSize | lru/lru.go:36-38 | with distinct keys the list length equals the number of map keys, so `Len` counts distinct keys |
| Lru.LastKeyFresh | lru/lru.go:79-83 | the back entry's key occurs nowhere else, so deleting it from the map leaves the rest consistent |
| Lru.MapOfPrefix | lru/lru.go:62-64 | cutting the list after `n` entries removes from the map exactly the keys of the cut-off entries |
| Lru.FitWithinBudget | lru/lru.go:62-64 | with a non-zero budget the surviving entries weigh at most `maxBytes` |
| Lru.FitMaximal | lru/lru.go:62-64 | no more is evicted than needed: if anything was evicted, the budget is non-zero and keeping one more entry would exceed it |
| Lru.TrimStep | lru/lru.go:62-63 | while a non-zero budget is exceeded the list is non-empty, and dropping its back entry leaves the loop's outcome unchanged and appends that entry's report |
| Lru.FrontSurvives | lru/lru.go:51-64 | whatever survives of the updated list still has `key` mapped to `value` at its front, unless nothing survives |
| Lru.EvictionsInOrder | lru/lru.go:62-64 | the reports of a trim number the dropped entries and run from the back. Each carries the entry's key and value and the cache's length, bytes and map after its removal |
| Lru.EvictedKeysBackToFront | lru/lru.go:85-87 | the keys handed to `OnEvicted` are those of the dropped entries, least recently used first |
| Lru.EvictedOnce | lru/lru.go:85-87 | with distinct keys no key is reported twice |
| Lru.DroppedAreEvicted | lru/lru.go:62-64 | every key that was in the list and is not among the survivors is reported |
| Lru.EvictedAreDropped | lru/lru.go:62-64 | every reported key was in the list and is not among the survivors |
| Lru.KeyAtDistinct | lru/lru.go:13-15 | in a list with distinct keys two positions hold different keys |
| ByteViews.ByteView.String | byteview.go:19-21 | the result has `Len()` bytes and they are the view's bytes in order |
| ByteViews.ByteView.ByteSlice | byteview.go:14-16 | the result is a newly allocated array whose contents equal `String()` |
| ByteViews.CloneBytes | byteview.go:23-27 | the result is a new array of the same length holding the same bytes |
| ByteViews.ByteSliceIsACopy | byteview.go:14-16 | writing into the array `ByteSlice` returns leaves the view's length and bytes as they were |

## Left out

- Integer width: `maxBytes` and `nbytes` are `int64` in the source and `int` here. Overflow of the byte count, or of `len(key) + value.Len()`, is not modelled.
- Key length: the source charges `len(key)`, which is the number of UTF-8 bytes of the key. The model charges the number of characters of a Dafny string. The two agree on ASCII keys.
- `Value.Len()`: this is the total function `size: V -> nat`, fixed when the cache is made. A `Len()` that is negative, that panics, or that changes while the value is cached is not modelled.
- Lru.Cache.Add: requires `maxBytes >= 0`. With a negative budget the source's loop `maxBytes != 0 && maxBytes < nbytes` never ends once the cache is empty, because `RemoveOldest` then changes nothing. A terminating method cannot state that non-termination. `New` accepts any budget.
- OnEvicted: the callback is a flag fixed at `New` plus a ghost log of its calls. What the callback itself does is not modelled, including calls back into the cache and panics. Reassigning the exported `OnEvicted` field after `New` is not modelled either.
- `container/list`: its elements, pointers and the `*entry` type assertions are replaced by a sequence of entry values. The map holds the element's value rather than a pointer to the element.
- Concurrency: `Cache` has no locking of its own, and the callers' locks are not part of this model.
- ByteViews.ByteView.String: returns the bytes. The UTF-8 reading of a Go `string` is not modelled.
- How `ByteView` values are made and filled belongs to the surrounding `go_cache` package, which is not part of this model. The model assumes the wrapped array is not shared with code that writes to it.
