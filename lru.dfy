/**
 * A byte-budgeted least-recently-used cache (lru/lru.go).
 *
 * The Go cache keeps a doubly linked list of entries, most recently used at
 * the front, and a map from each key to its list element. Here the list is
 * the sequence of its entries, front first, and the map sends each key to the
 * value its element holds. The `Value` interface with its `Len()` is a type
 * parameter `V` with a size function fixed when the cache is made, and the
 * `OnEvicted` callback is a flag saying whether it is set plus a ghost log of
 * the calls it receives.
 */
module Lru {

  datatype Option<T> = None | Some(value: T)

  /** The payload of a list element. */
  datatype Entry<V> = Entry(key: string, value: V)

  /** One call of OnEvicted: the key and value it is handed, and the number of
      entries, the byte count and the map the cache holds at the moment of the
      call. */
  datatype Eviction<V> = Eviction(key: string, value: V, lenAfter: nat, bytesAfter: int, mapAfter: map<string, V>)

  // ---------------------------------------------------------------------------
  // The list and the map

  /** The keys of the list, front first. */
  function Keys<V>(es: seq<Entry<V>>): seq<string> {
    seq(|es|, i requires 0 <= i < |es| => es[i].key)
  }

  /** The map the list describes: each key to the value of its entry. */
  function MapOf<V>(es: seq<Entry<V>>): map<string, V>
    decreases |es|
  {
    if es == [] then map[] else MapOf(es[..|es| - 1])[es[|es| - 1].key := es[|es| - 1].value]
  }

  /** No key is in the list twice: each entry's key is new to the entries in
      front of it. */
  predicate DistinctKeys<V>(es: seq<Entry<V>>)
    decreases |es|
  {
    es == [] || (DistinctKeys(es[..|es| - 1]) && es[|es| - 1].key !in MapOf(es[..|es| - 1]))
  }

  /** The list with the entry for `key` taken out and every other entry kept in place. */
  function Without<V>(es: seq<Entry<V>>, key: string): seq<Entry<V>>
    decreases |es|
  {
    if es == [] then []
    else if es[|es| - 1].key == key then Without(es[..|es| - 1], key)
    else Without(es[..|es| - 1], key) + [es[|es| - 1]]
  }

  /** The list after `key` is used with `value`: its entry comes first, the
      rest keep their order (`MoveToFront` of a present element, `PushFront`
      of a new one). */
  function MoveToFront<V>(es: seq<Entry<V>>, key: string, value: V): seq<Entry<V>> {
    [Entry(key, value)] + Without(es, key)
  }

  /** The keys of a list that ends in `e`. */
  lemma KeysSnoc<V>(es: seq<Entry<V>>, e: Entry<V>)
    ensures Keys(es + [e]) == Keys(es) + [e.key]
  {
  }

  /** In a list with distinct keys the back entry's key is not among the
      others, and the others are distinct. */
  lemma LastKeyFresh<V>(es: seq<Entry<V>>)
    requires DistinctKeys(es) && es != []
    ensures es == es[..|es| - 1] + [es[|es| - 1]]
    ensures es[|es| - 1].key !in Keys(es[..|es| - 1])
    ensures DistinctKeys(es[..|es| - 1])
  {
    var p, last := es[..|es| - 1], es[|es| - 1];
    assert es == p + [last];
    assert last.key !in MapOf(p);
    MapOfAgrees(p);
  }

  /** The map holds exactly the keys of the list, and with distinct keys each
      key maps to the value of its entry. */
  lemma {:induction false} MapOfAgrees<V>(es: seq<Entry<V>>)
    ensures forall k :: k in MapOf(es) <==> k in Keys(es)
    ensures DistinctKeys(es) ==> forall i | 0 <= i < |es| :: es[i].key in MapOf(es) && MapOf(es)[es[i].key] == es[i].value
    decreases |es|
  {
    if es != [] {
      var p, last := es[..|es| - 1], es[|es| - 1];
      MapOfAgrees(p);
      assert es == p + [last];
      KeysSnoc(p, last);
      if DistinctKeys(es) {
        forall i | 0 <= i < |p| ensures p[i].key != last.key {
          assert Keys(p)[i] == p[i].key;
        }
      }
    }
  }

  /** The recursive definition of distinct keys says what it should: no two
      entries share a key. */
  lemma {:induction false} DistinctKeysPairwise<V>(es: seq<Entry<V>>)
    ensures DistinctKeys(es) <==> forall i, j | 0 <= i < j < |es| :: es[i].key != es[j].key
    decreases |es|
  {
    if es != [] {
      var p, last := es[..|es| - 1], es[|es| - 1];
      DistinctKeysPairwise(p);
      MapOfAgrees(p);
      if DistinctKeys(es) {
        forall i, j | 0 <= i < j < |es| ensures es[i].key != es[j].key {
          assert es[i] == p[i] && Keys(p)[i] == p[i].key;
          if j < |p| {
            assert es[j] == p[j];
          }
        }
      }
      if forall i, j | 0 <= i < j < |es| :: es[i].key != es[j].key {
        forall i, j | 0 <= i < j < |p| ensures p[i].key != p[j].key {
          assert es[i] == p[i] && es[j] == p[j];
        }
        forall i | 0 <= i < |p| ensures Keys(p)[i] != last.key {
          assert es[i] == p[i];
        }
      }
    }
  }

  /** Putting an entry with a new key in front of a list with distinct keys
      keeps them distinct. */
  lemma {:induction false} DistinctFront<V>(e: Entry<V>, es: seq<Entry<V>>)
    requires DistinctKeys(es) && e.key !in MapOf(es)
    ensures DistinctKeys([e] + es)
    decreases |es|
  {
    if es == [] {
      assert [e] + es == [e];
      assert [e][..0] == [];
    } else {
      var p, last := es[..|es| - 1], es[|es| - 1];
      assert ([e] + es)[..|[e] + es| - 1] == [e] + p;
      DistinctFront(e, p);
      MapOfFront(e, p);
    }
  }

  /** Taking a key out of the list leaves exactly the other keys. */
  lemma {:induction false} WithoutKeys<V>(es: seq<Entry<V>>, key: string)
    ensures forall k :: k in Keys(Without(es, key)) <==> k in Keys(es) && k != key
    decreases |es|
  {
    if es != [] {
      var p, last := es[..|es| - 1], es[|es| - 1];
      WithoutKeys(p, key);
      assert es == p + [last];
      KeysSnoc(p, last);
      if last.key != key {
        KeysSnoc(Without(p, key), last);
      }
    }
  }

  /** Taking a key out of the list takes it out of the map. */
  lemma {:induction false} WithoutMap<V>(es: seq<Entry<V>>, key: string)
    ensures MapOf(Without(es, key)) == MapOf(es) - {key}
    decreases |es|
  {
    if es != [] {
      var p, last := es[..|es| - 1], es[|es| - 1];
      var w := Without(p, key);
      WithoutMap(p, key);
      if last.key != key {
        assert (w + [last])[..|w|] == w;
        assert MapOf(Without(es, key)) == MapOf(w)[last.key := last.value];
        RemoveCommutes(MapOf(p), last.key, last.value, key);
      } else {
        RemoveCommutes(MapOf(p), key, last.value, key);
      }
    }
  }

  /** Removing `key` from a map after setting `k` is setting `k` after
      removing `key`, unless `k` is `key` itself. */
  lemma RemoveCommutes<V>(m: map<string, V>, k: string, v: V, key: string)
    ensures m[k := v] - {key} == if k == key then m - {key} else (m - {key})[k := v]
  {
  }

  /** Taking a key out of a list with distinct keys leaves them distinct. */
  lemma {:induction false} WithoutDistinct<V>(es: seq<Entry<V>>, key: string)
    requires DistinctKeys(es)
    ensures DistinctKeys(Without(es, key))
    decreases |es|
  {
    if es != [] {
      var p, last := es[..|es| - 1], es[|es| - 1];
      var w := Without(p, key);
      WithoutDistinct(p, key);
      WithoutMap(p, key);
      if last.key != key {
        assert (w + [last])[..|w|] == w;
      }
    }
  }

  lemma {:induction false} WithoutAbsent<V>(es: seq<Entry<V>>, key: string)
    requires key !in Keys(es)
    ensures Without(es, key) == es
    decreases |es|
  {
    if es != [] {
      var p := es[..|es| - 1];
      assert Keys(es) == Keys(p) + [es[|es| - 1].key];
      WithoutAbsent(p, key);
    }
  }

  /** Pushing a key that is not in the list puts it in front of the rest. */
  lemma MoveToFrontNew<V>(es: seq<Entry<V>>, key: string, value: V)
    requires key !in MapOf(es)
    ensures MoveToFront(es, key, value) == [Entry(key, value)] + es
  {
    MapOfAgrees(es);
    WithoutAbsent(es, key);
  }

  /** Filtering commutes with putting an entry of the filtered key in front. */
  lemma {:induction false} WithoutFront<V>(e: Entry<V>, es: seq<Entry<V>>)
    ensures Without([e] + es, e.key) == Without(es, e.key)
    decreases |es|
  {
    if es != [] {
      var p := es[..|es| - 1];
      assert ([e] + es)[..|[e] + es| - 1] == [e] + p;
      WithoutFront(e, p);
    } else {
      assert [e] + es == [e];
      assert [e][..0] == [];
    }
  }

  /** Using a key leaves the other entries in the relative order they had. */
  lemma MoveToFrontKeepsOthers<V>(es: seq<Entry<V>>, key: string, value: V)
    ensures Without(MoveToFront(es, key, value), key) == Without(es, key)
  {
    WithoutFront(Entry(key, value), Without(es, key));
    WithoutKeys(es, key);
    WithoutAbsent(Without(es, key), key);
  }

  /** Putting a new key in front adds it to the map. */
  lemma {:induction false} MapOfFront<V>(e: Entry<V>, es: seq<Entry<V>>)
    requires e.key !in MapOf(es)
    ensures MapOf([e] + es) == MapOf(es)[e.key := e.value]
    decreases |es|
  {
    if es == [] {
      assert [e] + es == [e];
      assert [e][..0] == [];
    } else {
      var p := es[..|es| - 1];
      assert ([e] + es)[..|[e] + es| - 1] == [e] + p;
      MapOfFront(e, p);
    }
  }

  /** A list without repeated keys has as many entries as its map has keys. */
  lemma {:induction false} MapOfSize<V>(es: seq<Entry<V>>)
    requires DistinctKeys(es)
    ensures |MapOf(es)| == |es|
    decreases |es|
  {
    if es != [] {
      var p := es[..|es| - 1];
      MapOfSize(p);
    }
  }

  /** Dropping the entries from index `n` on drops exactly their keys from the map. */
  lemma {:induction false} MapOfPrefix<V>(es: seq<Entry<V>>, n: nat)
    requires DistinctKeys(es) && n <= |es|
    ensures MapOf(es[..n]) == MapOf(es) - (set k | k in Keys(es[n..]))
    decreases |es|
  {
    if n == |es| {
      assert es[..n] == es;
      assert Keys(es[n..]) == [];
    } else {
      var p, last := es[..|es| - 1], es[|es| - 1];
      MapOfPrefix(p, n);
      assert p[..n] == es[..n];
      assert es[n..] == p[n..] + [last];
      KeysSnoc(p[n..], last);
      var dropped, dropped' := set k | k in Keys(es[n..]), set k | k in Keys(p[n..]);
      assert dropped == dropped' + {last.key};
      assert MapOf(es) == MapOf(p)[last.key := last.value];
      MapOfAgrees(p);
      LastKeyFresh(es);
      assert MapOf(es) - dropped == MapOf(p) - dropped';
    }
  }

  // ---------------------------------------------------------------------------
  // Byte accounting

  /** Bytes charged for one entry: len(key) + value.Len(). */
  function Cost<V>(e: Entry<V>, size: V -> nat): nat {
    |e.key| + size(e.value)
  }

  /** Bytes charged for a list of entries. */
  function Weight<V>(es: seq<Entry<V>>, size: V -> nat): nat
    decreases |es|
  {
    if es == [] then 0 else Weight(es[..|es| - 1], size) + Cost(es[|es| - 1], size)
  }

  lemma {:induction false} WeightFront<V>(e: Entry<V>, es: seq<Entry<V>>, size: V -> nat)
    ensures Weight([e] + es, size) == Cost(e, size) + Weight(es, size)
    decreases |es|
  {
    if es == [] {
      assert [e] + es == [e];
      assert [e][..0] == [];
    } else {
      var p := es[..|es| - 1];
      assert ([e] + es)[..|[e] + es| - 1] == [e] + p;
      WeightFront(e, p, size);
    }
  }

  /** Taking a key's entry out of the list takes off exactly that entry's cost. */
  lemma {:induction false} WeightWithout<V>(es: seq<Entry<V>>, key: string, size: V -> nat)
    requires DistinctKeys(es)
    ensures Weight(Without(es, key), size)
         == Weight(es, size) - if key in MapOf(es) then Cost(Entry(key, MapOf(es)[key]), size) else 0
    decreases |es|
  {
    if es != [] {
      var p, last := es[..|es| - 1], es[|es| - 1];
      WeightWithout(p, key, size);
      if last.key == key {
        MapOfAgrees(p);
        WithoutAbsent(p, key);
        assert Without(es, key) == p;
      } else {
        var w := Without(p, key);
        assert (w + [last])[..|w|] == w;
        assert Weight(Without(es, key), size) == Weight(w, size) + Cost(last, size);
      }
    }
  }

  /** What `Add` does to the list, the map and the byte count before any
      eviction: the keys stay distinct, the map gains `key := value`, a new
      key adds len(key) + value.Len() bytes and a present key adds the new
      value's length minus the old one's. */
  lemma AddAccounting<V>(es: seq<Entry<V>>, key: string, value: V, size: V -> nat)
    requires DistinctKeys(es)
    ensures DistinctKeys(MoveToFront(es, key, value))
    ensures MapOf(MoveToFront(es, key, value)) == MapOf(es)[key := value]
    ensures Weight(MoveToFront(es, key, value), size)
         == Weight(es, size) + if key in MapOf(es) then size(value) - size(MapOf(es)[key]) else |key| + size(value)
  {
    var w := Without(es, key);
    var e := Entry(key, value);
    var r := [e] + w;
    WithoutDistinct(es, key);
    WithoutMap(es, key);
    MapOfFront(e, w);
    DistinctFront(e, w);
    assert MapOf(w)[key := value] == MapOf(es)[key := value];
    WeightFront(e, w, size);
    WeightWithout(es, key, size);
  }

  // ---------------------------------------------------------------------------
  // Eviction

  /** How many entries survive the eviction loop of `Add`: entries are dropped
      from the back while the budget is set (non-zero) and the rest weigh
      more than it. */
  function Fit<V>(es: seq<Entry<V>>, size: V -> nat, maxBytes: int): (n: nat)
    requires maxBytes >= 0
    ensures n <= |es|
    decreases |es|
  {
    if maxBytes == 0 || Weight(es, size) <= maxBytes then |es|
    else Fit(es[..|es| - 1], size, maxBytes)
  }

  /** With a non-zero budget the survivors fit in it. */
  lemma {:induction false} FitWithinBudget<V>(es: seq<Entry<V>>, size: V -> nat, maxBytes: int)
    requires maxBytes > 0
    ensures Weight(es[..Fit(es, size, maxBytes)], size) <= maxBytes
    decreases |es|
  {
    if Weight(es, size) > maxBytes {
      var p := es[..|es| - 1];
      FitWithinBudget(p, size, maxBytes);
      assert es[..Fit(es, size, maxBytes)] == p[..Fit(p, size, maxBytes)];
    } else {
      assert es[..|es|] == es;
    }
  }

  /** No more entries are evicted than needed: keeping one more would exceed the budget. */
  lemma {:induction false} FitMaximal<V>(es: seq<Entry<V>>, size: V -> nat, maxBytes: int)
    requires maxBytes >= 0
    ensures var n := Fit(es, size, maxBytes);
      n < |es| ==> maxBytes > 0 && Weight(es[..n + 1], size) > maxBytes
    decreases |es|
  {
    var n := Fit(es, size, maxBytes);
    if n < |es| {
      var p := es[..|es| - 1];
      FitMaximal(p, size, maxBytes);
      if n < |p| {
        assert es[..n + 1] == p[..n + 1];
      } else {
        assert es[..n + 1] == es;
      }
    }
  }

  /** The report for the back entry of a non-empty list once it is removed:
      its key and value, and the length, weight and map of what is left. */
  function Dropped<V>(es: seq<Entry<V>>, size: V -> nat): Eviction<V>
    requires es != []
  {
    var rest := es[..|es| - 1];
    Eviction(es[|es| - 1].key, es[|es| - 1].value, |rest|, Weight(rest, size), MapOf(rest))
  }

  /** The calls of OnEvicted made while the entries from index `n` on are
      removed from the back, one at a time. */
  function Evictions<V>(es: seq<Entry<V>>, size: V -> nat, n: nat): seq<Eviction<V>>
    requires n <= |es|
    decreases |es| - n
  {
    if n == |es| then []
    else Evictions(es, size, n + 1) + [Dropped(es[..n + 1], size)]
  }

  /** One turn of the eviction loop of `Add`, on a list `p` that is the
      front of `es`: while `p` is over a non-zero budget it has a back entry
      to drop; dropping it leaves the outcome of the loop as it was, keeps the
      rest a front of `es` and adds that entry's report to the log. */
  lemma TrimStep<V>(es: seq<Entry<V>>, p: seq<Entry<V>>, size: V -> nat, maxBytes: int, log0: seq<Eviction<V>>)
    requires p <= es && maxBytes > 0 && Weight(p, size) > maxBytes
    ensures p != [] && p[..|p| - 1] <= es
    ensures Fit(p, size, maxBytes) == Fit(p[..|p| - 1], size, maxBytes)
    ensures log0 + Evictions(es, size, |p| - 1) == log0 + Evictions(es, size, |p|) + [Dropped(p, size)]
  {
    var n := |p| - 1;
    assert es[..n + 1] == p && p[..n] == es[..n];
  }

  /** What survives of a list whose front entry is `key := value` still has
      `key` mapped to `value` at its front, unless nothing survives. */
  lemma {:induction false} FrontSurvives<V>(p: seq<Entry<V>>, es: seq<Entry<V>>, key: string, value: V)
    requires p <= MoveToFront(es, key, value) && DistinctKeys(p)
    ensures key in MapOf(p) <==> p != []
    ensures p != [] ==> MapOf(p)[key] == value && p[0] == Entry(key, value)
  {
    MapOfAgrees(p);
    if p != [] {
      assert Keys(p)[0] == key;
    }
  }

  /** Evictions are reported least recently used first, each with the key and
      value of its entry and what the cache holds after its removal. */
  lemma {:induction false} EvictionsInOrder<V>(es: seq<Entry<V>>, size: V -> nat, n: nat)
    requires n <= |es|
    ensures var r := Evictions(es, size, n);
      && |r| == |es| - n
      && forall i | 0 <= i < |r| ::
           r[i] == Eviction(es[|es| - 1 - i].key, es[|es| - 1 - i].value, |es| - 1 - i,
                            Weight(es[..|es| - 1 - i], size), MapOf(es[..|es| - 1 - i]))
    decreases |es| - n
  {
    if n < |es| {
      EvictionsInOrder(es, size, n + 1);
      assert es[..n + 1][..n] == es[..n];
    }
  }

  function EvictedKeys<V>(evs: seq<Eviction<V>>): seq<string> {
    seq(|evs|, i requires 0 <= i < |evs| => evs[i].key)
  }

  /** The keys handed to OnEvicted are those of the dropped entries, back to front. */
  lemma EvictedKeysBackToFront<V>(es: seq<Entry<V>>, size: V -> nat, n: nat)
    requires n <= |es|
    ensures var keys := EvictedKeys(Evictions(es, size, n));
      |keys| == |es| - n && forall i | 0 <= i < |keys| :: keys[i] == es[|es| - 1 - i].key
  {
    EvictionsInOrder(es, size, n);
  }

  /** Two entries of a list with distinct keys have different keys. */
  lemma KeyAtDistinct<V>(es: seq<Entry<V>>, i: nat, j: nat)
    requires DistinctKeys(es) && i < j < |es|
    ensures es[i].key != es[j].key
  {
    DistinctKeysPairwise(es);
  }

  /** No key is reported twice. */
  lemma EvictedOnce<V>(es: seq<Entry<V>>, size: V -> nat, n: nat)
    requires n <= |es| && DistinctKeys(es)
    ensures var keys := EvictedKeys(Evictions(es, size, n));
      forall i, j | 0 <= i < j < |keys| :: keys[i] != keys[j]
  {
    var keys := EvictedKeys(Evictions(es, size, n));
    EvictedKeysBackToFront(es, size, n);
    forall i, j | 0 <= i < j < |keys| ensures keys[i] != keys[j] {
      var a, b := |es| - 1 - j, |es| - 1 - i;
      assert keys[i] == es[b].key && keys[j] == es[a].key;
      KeyAtDistinct(es, a, b);
    }
  }

  /** Every key that was in the list and is not among the survivors is
      reported. */
  lemma DroppedAreEvicted<V>(es: seq<Entry<V>>, size: V -> nat, n: nat, k: string)
    requires n <= |es| && k in Keys(es) && k !in Keys(es[..n])
    ensures k in EvictedKeys(Evictions(es, size, n))
  {
    var keys := EvictedKeys(Evictions(es, size, n));
    EvictedKeysBackToFront(es, size, n);
    forall j | 0 <= j < n ensures Keys(es)[j] != k {
      assert Keys(es[..n])[j] == Keys(es)[j];
    }
    var j :| 0 <= j < |es| && Keys(es)[j] == k;
    assert keys[|es| - 1 - j] == k;
  }

  /** Every reported key was in the list and, keys being distinct, is not
      among the survivors. */
  lemma EvictedAreDropped<V>(es: seq<Entry<V>>, size: V -> nat, n: nat, k: string)
    requires n <= |es| && DistinctKeys(es) && k in EvictedKeys(Evictions(es, size, n))
    ensures k in Keys(es) && k !in Keys(es[..n])
  {
    var keys := EvictedKeys(Evictions(es, size, n));
    EvictedKeysBackToFront(es, size, n);
    var i :| 0 <= i < |keys| && keys[i] == k;
    var b := |es| - 1 - i;
    assert Keys(es)[b] == k && es[b].key == k;
    forall j | 0 <= j < n ensures Keys(es[..n])[j] != k {
      assert Keys(es[..n])[j] == es[j].key;
      KeyAtDistinct(es, j, b);
    }
  }

  // ---------------------------------------------------------------------------
  // The cache

  class Cache<V> {
    /** The budget; 0 means no limit. */
    const maxBytes: int
    /** The Value interface's Len(), assumed non-negative and stable. */
    const size: V -> nat
    var nbytes: int
    /** The list, most recently used first. */
    var ll: seq<Entry<V>>
    /** Each key's value. */
    var cache: map<string, V>
    /** Whether OnEvicted is set (non-nil). */
    const onEvicted: bool
    /** The calls OnEvicted has received so far. */
    ghost var evictions: seq<Eviction<V>>

    /** The list and the map hold the same entries, each key once, and nbytes
        is the sum of len(key) + value.Len() over them. */
    ghost predicate Valid()
      reads this
    {
      && DistinctKeys(ll)
      && cache == MapOf(ll)
      && nbytes == Weight(ll, size)
    }

    constructor New(maxBytes: int, onEvicted: bool, size: V -> nat)
      ensures Valid()
      ensures this.maxBytes == maxBytes && this.onEvicted == onEvicted && this.size == size
      ensures ll == [] && cache == map[] && nbytes == 0 && evictions == []
    {
      this.maxBytes := maxBytes;
      this.size := size;
      this.onEvicted := onEvicted;
      nbytes := 0;
      ll := [];
      cache := map[];
      evictions := [];
    }

    /** The number of entries, which is also the number of keys. */
    method Len() returns (n: int)
      requires Valid()
      ensures n == |ll| && n == |cache|
    {
      MapOfSize(ll);
      n := |ll|;
    }

    /** Inserts or replaces `key` and marks it most recently used, then
        evicts from the back while a non-zero budget is exceeded. A negative
        budget is excluded: the eviction loop would never end once the cache
        is empty. */
    method Add(key: string, value: V)
      requires Valid() && maxBytes >= 0
      modifies this`ll, this`cache, this`nbytes, this`evictions
      ensures Valid()
      ensures var used := MoveToFront(old(ll), key, value);
        var n := Fit(used, size, maxBytes);
        && ll == used[..n]
        && (onEvicted ==> evictions == old(evictions) + Evictions(used, size, n))
        && (!onEvicted ==> evictions == old(evictions))
      ensures maxBytes > 0 ==> nbytes <= maxBytes
      ensures maxBytes == 0 ==> ll == MoveToFront(old(ll), key, value) && cache == old(cache)[key := value]
      ensures key in cache <==> ll != []
      ensures key in cache ==> cache[key] == value && ll[0] == Entry(key, value)
    {
      AddAccounting(ll, key, value, size);
      if key in cache {
        ll := MoveToFront(ll, key, value);
        nbytes := nbytes + size(value) - size(cache[key]);
        cache := cache[key := value];
      } else {
        MoveToFrontNew(ll, key, value);
        ll := [Entry(key, value)] + ll;
        cache := cache[key := value];
        nbytes := nbytes + |key| + size(value);
      }
      TrimToBudget();
      FrontSurvives(ll, old(ll), key, value);
    }

    /** The eviction loop that ends `Add`: drops the least recently used
        entry while a non-zero budget is exceeded. */
    method TrimToBudget()
      requires Valid() && maxBytes >= 0
      modifies this`ll, this`cache, this`nbytes, this`evictions
      ensures Valid()
      ensures var n := Fit(old(ll), size, maxBytes);
        && ll == old(ll)[..n]
        && (onEvicted ==> evictions == old(evictions) + Evictions(old(ll), size, n))
        && (!onEvicted ==> evictions == old(evictions))
      ensures maxBytes > 0 ==> nbytes <= maxBytes
    {
      ghost var full := ll;
      while maxBytes != 0 && maxBytes < nbytes
        invariant Valid()
        invariant ll <= full
        invariant Fit(full, size, maxBytes) == Fit(ll, size, maxBytes)
        invariant onEvicted ==> evictions == old(evictions) + Evictions(full, size, |ll|)
        invariant !onEvicted ==> evictions == old(evictions)
        decreases |ll|
      {
        TrimStep(full, ll, size, maxBytes, old(evictions));
        RemoveOldest();
      }
      assert full[..|ll|] == ll;
    }

    /** Looks `key` up; a hit marks it most recently used. */
    method Get(key: string) returns (r: Option<V>)
      requires Valid()
      modifies this`ll
      ensures Valid()
      ensures r.Some? <==> key in cache
      ensures r.Some? ==> r.value == cache[key] && ll == MoveToFront(old(ll), key, cache[key])
      ensures r.None? ==> ll == old(ll)
    {
      if key in cache {
        AddAccounting(ll, key, cache[key], size);
        assert cache[key := cache[key]] == cache;
        ll := MoveToFront(ll, key, cache[key]);
        r := Some(cache[key]);
      } else {
        r := None;
      }
    }

    /** Removes the least recently used entry, if any, and then reports it to
        OnEvicted when that is set. */
    method RemoveOldest()
      requires Valid()
      modifies this`ll, this`cache, this`nbytes, this`evictions
      ensures Valid()
      ensures old(ll) == [] ==> ll == [] && evictions == old(evictions)
      ensures old(ll) != [] ==> ll == old(ll)[..|old(ll)| - 1]
      ensures old(ll) != [] ==> cache == old(cache) - {old(ll)[|ll|].key}
      ensures old(ll) != [] ==> nbytes == old(nbytes) - Cost(old(ll)[|ll|], size)
      ensures old(ll) != [] && onEvicted ==> evictions == old(evictions) + [Dropped(old(ll), size)]
      ensures !onEvicted ==> evictions == old(evictions)
      ensures old(ll) != [] ==> Dropped(old(ll), size) == Eviction(old(ll)[|ll|].key, old(ll)[|ll|].value, |ll|, nbytes, cache)
    {
      if ll != [] {
        var ele := ll[|ll| - 1];
        LastKeyFresh(ll);
        MapOfAgrees(ll[..|ll| - 1]);
        ll := ll[..|ll| - 1];
        cache := cache - {ele.key};
        nbytes := nbytes - (|ele.key| + size(ele.value));
        if onEvicted {
          evictions := evictions + [Eviction(ele.key, ele.value, |ll|, nbytes, cache)];
        }
      }
    }
  }
}
