/**
  The capacity-bounded, least-recently-used cache that holds the pending
  requests. Only what the sentinel relies on is modelled: get-or-insert
  (which touches the entry and, when a new entry would overflow the cache,
  evicts the least recently used one), update of an entry in place, and
  removal. Time-based expiry is not modelled.
 */
module LruCache {

  /** No element occurs twice. */
  ghost predicate Distinct<K>(s: seq<K>) {
    forall i, j :: 0 <= i < j < |s| ==> s[i] != s[j]
  }

  /** `s` with every occurrence of `x` removed. */
  function Without<K(!new, ==)>(s: seq<K>, x: K): (r: seq<K>)
    ensures forall k :: k in r <==> k in s && k != x
    ensures Distinct(s) ==> Distinct(r) && |r| == if x in s then |s| - 1 else |s|
    ensures x !in s ==> r == s
  {
    if s == [] then []
    else
      assert Distinct(s) ==> s[0] !in s[1..];
      (if s[0] == x then [] else [s[0]]) + Without(s[1..], x)
  }

  lemma DistinctAppend<K>(s: seq<K>, x: K)
    requires Distinct(s) && x !in s
    ensures Distinct(s + [x])
  {
  }

  /** Removing a key that was just appended to a sequence without it gives the sequence back. */
  lemma {:induction false} WithoutAppend<K(!new)>(s: seq<K>, x: K)
    requires x !in s
    ensures Without(s + [x], x) == s
  {
    if s != [] {
      assert (s + [x])[1..] == s[1..] + [x];
      WithoutAppend(s[1..], x);
    }
  }

  /** Map facts the cache's clients use to restate an entry's update. */
  lemma UpdateTwice<K, V>(m: map<K, V>, k: K, v: V, w: V)
    ensures m[k := v][k := w] == m[k := w]
  {
  }

  lemma UpdateThenRemove<K, V>(m: map<K, V>, k: K, v: V)
    ensures m[k := v] - {k} == m - {k}
  {
  }

  class LruCache<K(!new, ==), V> {
    /** The bound on the number of entries. */
    const capacity: nat
    /** The cached entries. */
    var entries: map<K, V>
    /** The keys of `entries`, least recently used first. */
    var order: seq<K>

    ghost predicate Valid()
      reads this
    {
      && 0 < capacity
      && |entries| <= capacity
      && Distinct(order)
      && |order| == |entries|
      && (forall k :: k in entries <==> k in order)
    }

    /** The keys that inserting `k` now would evict: the least recently used
        key when `k` is new and the cache is full, and nothing otherwise. */
    ghost function Victims(k: K): set<K>
      reads this
      requires Valid()
    {
      if k in entries || |entries| < capacity then {} else {order[0]}
    }

    /** The keys, in order, that stay besides `k` when `k` is got or inserted now. */
    ghost function Survivors(k: K): (s: seq<K>)
      reads this
      requires Valid()
      ensures k !in s
    {
      if Victims(k) == {} then Without(order, k) else order[1..]
    }

    constructor (capacity: nat)
      requires 0 < capacity
      ensures Valid()
      ensures this.capacity == capacity && entries == map[] && order == []
    {
      this.capacity := capacity;
      entries := map[];
      order := [];
    }

    /** Returns the value of `k`, inserting `absent` first when `k` has no
        entry; `k` becomes the most recently used key. */
    method GetOrInsert(k: K, absent: V) returns (v: V)
      requires Valid()
      modifies this
      ensures Valid()
      ensures v == if k in old(entries) then old(entries)[k] else absent
      ensures entries == (old(entries) - old(Victims(k)))[k := v]
      ensures order == old(Survivors(k)) + [k]
    {
      if k in entries {
        v := entries[k];
        Touch(k);
      } else {
        v := absent;
        assert Without(order, k) == order;
        Insert(k, v);
      }
    }

    /** Makes the existing key `k` the most recently used one. */
    method Touch(k: K)
      requires Valid() && k in entries
      modifies this`order
      ensures Valid()
      ensures order == Without(old(order), k) + [k]
    {
      var rest := Without(order, k);
      DistinctAppend(rest, k);
      order := rest + [k];
    }

    /** Adds the new key `k`, first evicting the least recently used entry
        when the cache is full. */
    method Insert(k: K, v: V)
      requires Valid() && k !in entries
      modifies this
      ensures Valid()
      ensures entries == (old(entries) - old(Victims(k)))[k := v]
      ensures order == (if old(Victims(k)) == {} then old(order) else old(order)[1..]) + [k]
    {
      if |entries| >= capacity {
        var victim := order[0];
        assert victim !in order[1..];
        assert Distinct(order[1..]);
        entries := entries - {victim};
        order := order[1..];
      }
      DistinctAppend(order, k);
      entries := entries[k := v];
      order := order + [k];
    }

    /** Replaces the value of an existing entry without touching the order. */
    method Update(k: K, v: V)
      requires Valid() && k in entries
      modifies this
      ensures Valid()
      ensures entries == old(entries)[k := v] && order == old(order)
    {
      entries := entries[k := v];
    }

    /** Discards the entry of `k`, if any. */
    method Remove(k: K)
      requires Valid()
      modifies this
      ensures Valid()
      ensures entries == old(entries) - {k} && order == Without(old(order), k)
    {
      entries := entries - {k};
      order := Without(order, k);
    }
  }
}
