/**
  The lookup facade of frozen::unordered_map: an immutable hash map with a fixed
  number N of (key, value) entries, stored in construction order.

  A lookup asks the perfect-hash table for one candidate position and then checks
  it: the position must lie inside the entry array and the key stored there must
  compare equal to the query. The table itself is not modelled; each query takes
  `lookup`, the position the table yields for the query under the map's hasher,
  and `equal`, the map's key_eq(). The query type Q may differ from the key type
  K (heterogeneous and transparent comparison).

  Iterators are entry indices: Begin() is 0 and End() is N.
*/
module FrozenUnorderedMap {
  import opened FrozenBits

  datatype Error =
    | OutOfRange        // at() of a key the map does not hold ("unknown key")
    | InconsistentSize  // an initializer list whose length differs from N

  datatype Result<T> = Success(value: T) | Failure(error: Error)

  /** The key column of an entry sequence. */
  function Keys<K, V>(items: seq<(K, V)>): (ks: seq<K>)
    ensures |ks| == |items|
    ensures forall i :: 0 <= i < |items| ==> ks[i] == items[i].0
  {
    seq(|items|, i requires 0 <= i < |items| => items[i].0)
  }

  /** The size of the perfect-hash table: the next power of two at or above n,
      doubled for fewer than 32 entries to keep collisions rare. */
  function StorageSize(n: nat): (s: nat)
    ensures IsPowerOfTwo(s)
    ensures n <= s
    ensures n < 32 ==> 2 * n <= s        // small maps get at least twice the room
    ensures n >= 32 ==> s < 2 * n        // large maps get less than twice the room
    ensures 0 < n < 32 ==> s < 4 * n
  {
    var p := NextHighestPowerOfTwo(n);
    if n < 32 then
      DoublePowerOfTwo(p);
      p * 2
    else
      p * 1
  }

  /* ---------------------------------------------------------------------------
     Lookup: find, count, contains, equal_range, at (the const overloads).
     `items` is the map's entry sequence; End() is |items|.
     ------------------------------------------------------------------------- */

  /** find(key): the table's candidate position when it lies inside the array and its
      key compares equal to the query; End() otherwise. Nothing is assumed about `lookup`. */
  function Find<K, V, Q>(items: seq<(K, V)>, key: Q, lookup: Q -> nat, equal: (K, Q) -> bool): (it: nat)
    ensures it <= |items|
    // no false positives: a position other than End() holds a key equal to the query
    ensures it < |items| ==> equal(items[it].0, key)
    // and it is the position the table proposed
    ensures it < |items| ==> it == lookup(key)
    // a miss means the table's candidate failed the check
    ensures it == |items| ==> !(lookup(key) < |items| && equal(items[lookup(key)].0, key))
  {
    var pos := lookup(key);
    if pos < |items| && equal(items[pos].0, key) then pos else |items|
  }

  /** count(key): 1 when find(key) is not End(), 0 otherwise. */
  function Count<K, V, Q>(items: seq<(K, V)>, key: Q, lookup: Q -> nat, equal: (K, Q) -> bool): (c: nat)
    ensures c <= 1
    ensures c == 1 <==> Find(items, key, lookup, equal) != |items|
    ensures c == 1 ==> exists i :: 0 <= i < |items| && equal(items[i].0, key)
  {
    if Find(items, key, lookup, equal) != |items| then 1 else 0
  }

  /** contains(key): find(key) is not End(). */
  function Contains<K, V, Q>(items: seq<(K, V)>, key: Q, lookup: Q -> nat, equal: (K, Q) -> bool): (b: bool)
    ensures b <==> Count(items, key, lookup, equal) == 1
    ensures b ==> exists i :: 0 <= i < |items| && equal(items[i].0, key)
  {
    Find(items, key, lookup, equal) != |items|
  }

  /** equal_range(key): [it, it + 1) when find(key) is it, (End(), End()) otherwise. */
  function EqualRange<K, V, Q>(items: seq<(K, V)>, key: Q, lookup: Q -> nat, equal: (K, Q) -> bool): (r: (nat, nat))
    ensures r.0 <= r.1 <= |items|
    ensures r.0 == Find(items, key, lookup, equal)
    ensures r.1 - r.0 == Count(items, key, lookup, equal)
    ensures forall j :: r.0 <= j < r.1 ==> equal(items[j].0, key)
  {
    var it := Find(items, key, lookup, equal);
    if it != |items| then (it, it + 1) else (|items|, |items|)
  }

  /** at(key): the value of the entry find(key) locates, or OutOfRange when it finds none. */
  function At<K, V, Q>(items: seq<(K, V)>, key: Q, lookup: Q -> nat, equal: (K, Q) -> bool): (r: Result<V>)
    ensures r.Failure? <==> Find(items, key, lookup, equal) == |items|
    ensures r.Failure? ==> r.error == OutOfRange
    ensures r.Success? ==> exists i :: 0 <= i < |items| && equal(items[i].0, key) && r.value == items[i].1
    ensures r.Success? ==> r.value == items[Find(items, key, lookup, equal)].1
  {
    var it := Find(items, key, lookup, equal);
    if it != |items| then Success(items[it].1) else Failure(OutOfRange)
  }

  /** The entries after overwriting the value at position i (what writing through a
      non-const iterator or a non-const at() does). */
  function WithValue<K, V>(items: seq<(K, V)>, i: nat, v: V): (r: seq<(K, V)>)
    requires i < |items|
    ensures |r| == |items|
    ensures Keys(r) == Keys(items)
    ensures r[i].1 == v
    ensures forall j :: 0 <= j < |items| && j != i ==> r[j] == items[j]
  {
    items[i := (items[i].0, v)]
  }

  /* ---------------------------------------------------------------------------
     Properties of the lookup.
     ------------------------------------------------------------------------- */

  /** Where the table proposes a position at most N, Find is exactly the source's
      guard `it != end() && equal(it->first, key)`. */
  lemma FindMatchesEndGuard<K, V, Q>(items: seq<(K, V)>, key: Q, lookup: Q -> nat, equal: (K, Q) -> bool)
    requires lookup(key) <= |items|
    ensures Find(items, key, lookup, equal)
         == if lookup(key) != |items| && equal(items[lookup(key)].0, key) then lookup(key) else |items|
  {
  }

  /** The hypothesis the perfect-hash construction provides, stated for stored keys:
      the table sends every stored key to its own index. */
  ghost predicate SendsKeysHome<K, V>(items: seq<(K, V)>, lookup: K -> nat) {
    forall i :: 0 <= i < |items| ==> lookup(items[i].0) == i
  }

  /** The same hypothesis for heterogeneous queries: every query that compares equal
      to a stored key is sent to that key's index. */
  ghost predicate SendsMatchesHome<K, V, Q(!new)>(items: seq<(K, V)>, lookup: Q -> nat, equal: (K, Q) -> bool) {
    forall i, q :: 0 <= i < |items| && equal(items[i].0, q) ==> lookup(q) == i
  }

  /** A table that sends every stored key home can only exist when the keys are distinct,
      and it gives distinct keys distinct positions. */
  lemma {:induction false} HomeTableSeparatesKeys<K, V>(items: seq<(K, V)>, lookup: K -> nat)
    requires SendsKeysHome(items, lookup)
    ensures forall i, j :: 0 <= i < j < |items| ==> items[i].0 != items[j].0
    ensures forall i, j :: 0 <= i < j < |items| ==> lookup(items[i].0) != lookup(items[j].0)
  {
    forall i, j | 0 <= i < j < |items|
      ensures items[i].0 != items[j].0
    {
      assert lookup(items[i].0) == i && lookup(items[j].0) == j;
    }
  }

  /** Completeness for stored keys: with a table that sends every stored key home and an
      equality under which each stored key equals itself, find(key of entry i) is i. */
  lemma FindLocatesStoredKeys<K, V>(items: seq<(K, V)>, lookup: K -> nat, equal: (K, K) -> bool, i: nat)
    requires SendsKeysHome(items, lookup)
    requires forall j :: 0 <= j < |items| ==> equal(items[j].0, items[j].0)
    requires i < |items|
    ensures Find(items, items[i].0, lookup, equal) == i
    ensures At(items, items[i].0, lookup, equal) == Success(items[i].1)
  {
    assert lookup(items[i].0) == i;
  }

  /** Completeness and soundness together: under the table hypothesis, find(key) is a
      hit exactly when some stored key compares equal to the query. */
  lemma FindHitIffStored<K, V, Q(!new)>(items: seq<(K, V)>, key: Q, lookup: Q -> nat, equal: (K, Q) -> bool)
    requires SendsMatchesHome(items, lookup, equal)
    ensures Find(items, key, lookup, equal) != |items|
        <==> exists i :: 0 <= i < |items| && equal(items[i].0, key)
  {
    if i :| 0 <= i < |items| && equal(items[i].0, key) {
      assert lookup(key) == i;
    }
  }

  /** count and contains are exact membership tests under the table hypothesis. */
  lemma CountIsMembership<K, V, Q(!new)>(items: seq<(K, V)>, key: Q, lookup: Q -> nat, equal: (K, Q) -> bool)
    requires SendsMatchesHome(items, lookup, equal)
    ensures Count(items, key, lookup, equal) == 1 <==> exists i :: 0 <= i < |items| && equal(items[i].0, key)
    ensures Contains(items, key, lookup, equal) <==> exists i :: 0 <= i < |items| && equal(items[i].0, key)
  {
    FindHitIffStored(items, key, lookup, equal);
  }

  /** at returns the value stored with any key that compares equal to the query. */
  lemma AtReturnsStoredValue<K, V, Q(!new)>(items: seq<(K, V)>, key: Q, lookup: Q -> nat, equal: (K, Q) -> bool, i: nat)
    requires SendsMatchesHome(items, lookup, equal)
    requires i < |items| && equal(items[i].0, key)
    ensures At(items, key, lookup, equal) == Success(items[i].1)
  {
    assert lookup(key) == i;
  }

  /** Overwriting a value leaves every lookup position unchanged. */
  lemma WriteKeepsPositions<K, V, Q>(items: seq<(K, V)>, i: nat, v: V, key: Q, lookup: Q -> nat, equal: (K, Q) -> bool)
    requires i < |items|
    ensures Find(WithValue(items, i, v), key, lookup, equal) == Find(items, key, lookup, equal)
    ensures Count(WithValue(items, i, v), key, lookup, equal) == Count(items, key, lookup, equal)
  {
    var pos := lookup(key);
    if pos < |items| {
      assert Keys(WithValue(items, i, v))[pos] == Keys(items)[pos];
    }
  }

  /** A later at() of the key written through sees the new value; other keys see their old ones. */
  lemma ReadAfterWrite<K, V, Q>(items: seq<(K, V)>, i: nat, v: V, key: Q, lookup: Q -> nat, equal: (K, Q) -> bool)
    requires i < |items|
    ensures Find(items, key, lookup, equal) == i ==> At(WithValue(items, i, v), key, lookup, equal) == Success(v)
    ensures Find(items, key, lookup, equal) != i ==> At(WithValue(items, i, v), key, lookup, equal) == At(items, key, lookup, equal)
  {
    WriteKeepsPositions(items, i, v, key, lookup, equal);
  }

  /* ---------------------------------------------------------------------------
     The container: N entries in an array whose keys never change; values may be
     replaced in place through a non-const at() or iterator.
     ------------------------------------------------------------------------- */

  class UnorderedMap<K, V> {
    /** The entry count N, part of the map's type. */
    const N: nat
    /** items_: the entries, in construction order. */
    const items: array<(K, V)>
    /** The keys as constructed; an entry's key is const. */
    ghost const keys: seq<K>

    ghost predicate Valid()
      reads this, items
    {
      items.Length == N && Keys(items[..]) == keys
    }

    /** The entries as iteration from begin() to end() visits them. */
    function Entries(): (s: seq<(K, V)>)
      reads this, items
      requires Valid()
      ensures |s| == N && Keys(s) == keys
    {
      items[..]
    }

    /** unordered_map(container_type items): N is the length of the given array. */
    constructor (init: seq<(K, V)>)
      ensures Valid() && fresh(items)
      ensures N == |init| && Entries() == init
    {
      N := |init|;
      items := new (K, V)[|init|](i requires 0 <= i < |init| => init[i]);
      keys := Keys(init);
      new;
      assert items[..] == init;
    }

    function Begin(): (it: nat)
      ensures it == 0
    {
      0
    }

    /** end(): one past the last entry. */
    function End(): (it: nat)
      reads this, items
      requires Valid()
      ensures it == |Entries()|
      ensures Entries()[Begin()..it] == Entries()
    {
      N
    }

    function Empty(): (b: bool)
      reads this, items
      requires Valid()
      ensures b <==> Entries() == []
    {
      N == 0
    }

    function Size(): (n: nat)
      reads this, items
      requires Valid()
      ensures n == |Entries()| && n == End() - Begin()
    {
      N
    }

    function MaxSize(): (n: nat)
      reads this, items
      requires Valid()
      ensures n == Size()
    {
      N
    }

    /** bucket_count(): the size of the perfect-hash table. */
    function BucketCount(): (b: nat)
      reads this, items
      requires Valid()
      ensures IsPowerOfTwo(b) && Size() <= b
      ensures 0 < Size() < 32 ==> 2 * Size() <= b < 4 * Size()
      ensures Size() >= 32 ==> b < 2 * Size()
    {
      StorageSize(N)
    }

    function MaxBucketCount(): (b: nat)
      reads this, items
      requires Valid()
      ensures b == BucketCount()
    {
      StorageSize(N)
    }

    /** Writing v through a non-const iterator it in [begin(), end()). */
    method SetValue(it: nat, v: V)
      requires Valid() && it < N
      modifies items
      ensures Valid()
      ensures Entries() == WithValue(old(Entries()), it, v)
    {
      items[it] := (items[it].0, v);
      assert items[..] == old(items[..])[it := (old(items[it]).0, v)];
    }

    /** at(key) = v through the non-const at(): writes the value of the entry find(key)
        locates and returns its position, or reports OutOfRange and changes nothing. */
    method SetAt<Q>(key: Q, lookup: Q -> nat, equal: (K, Q) -> bool, v: V) returns (r: Result<nat>)
      requires Valid()
      modifies items
      ensures Valid()
      ensures r.Failure? <==> Find(old(Entries()), key, lookup, equal) == N
      ensures r.Failure? ==> r.error == OutOfRange && Entries() == old(Entries())
      ensures r.Success? ==> (r.value == Find(old(Entries()), key, lookup, equal)
                              && Entries() == WithValue(old(Entries()), r.value, v))
      ensures At(Entries(), key, lookup, equal)
           == if r.Success? then Success(v) else Failure(OutOfRange)
    {
      var it := Find(items[..], key, lookup, equal);
      if it != N {
        ReadAfterWrite(items[..], it, v, key, lookup, equal);
        SetValue(it, v);
        r := Success(it);
      } else {
        r := Failure(OutOfRange);
      }
    }
  }

  /** unordered_map(std::initializer_list items): a list whose length is not N is rejected. */
  method FromInitializerList<K, V>(init: seq<(K, V)>, n: nat) returns (r: Result<UnorderedMap<K, V>>)
    ensures r.Failure? <==> |init| != n
    ensures r.Failure? ==> r.error == InconsistentSize
    ensures r.Success? ==> (fresh(r.value) && fresh(r.value.items) && r.value.Valid()
                            && r.value.N == n && r.value.Entries() == init)
  {
    if |init| != n {
      r := Failure(InconsistentSize);
    } else {
      var m := new UnorderedMap(init);
      r := Success(m);
    }
  }
}
