/** `LruCache` of src/lrucache.rs: a map plus a recency queue of its keys,
    least recently used at the front, with an optional capacity. */
module LruCache {
  import opened Wrappers
  import opened Seqs

  datatype Cache<K(==,!new), V> = Cache(capacity: Option<nat>, cache: map<K, V>, order: seq<K>)

  /** The invariant `New` establishes and every operation keeps: the queue
      holds each key of the map exactly once, and a bounded cache is within
      its (non-zero) bound. */
  predicate Valid<K(==,!new), V>(c: Cache<K, V>) {
    && Distinct(c.order)
    && (forall k :: k in c.cache ==> k in c.order)
    && (forall i :: 0 <= i < |c.order| ==> c.order[i] in c.cache)
    && (c.capacity.Some? ==> 1 <= c.capacity.value && |c.cache| <= c.capacity.value)
  }

  /** `LruCache::new`: a capacity of 0 means unbounded. */
  function New<K(==,!new), V>(capacity: nat): (c: Cache<K, V>)
    ensures Valid(c) && c.cache == map[] && c.order == []
    ensures c.capacity.None? <==> capacity == 0
    ensures c.capacity.Some? ==> c.capacity.value == capacity
  {
    if capacity == 0 then Cache(None, map[], []) else Cache(Some(capacity), map[], [])
  }

  /** `s` with every occurrence of `x` taken out, order kept. */
  function Without<K(==,!new)>(s: seq<K>, x: K): (r: seq<K>)
    ensures forall y :: y in r <==> y in s && y != x
    ensures Distinct(s) ==> Distinct(r)
    ensures x in s && Distinct(s) ==> |r| == |s| - 1
    ensures x !in s ==> r == s
  {
    if |s| == 0 then []
    else
      var rest := Without(s[1..], x);
      TailFacts(s);
      if s[0] == x then rest else [s[0]] + rest
  }

  /** The tail holds only elements of the sequence and, without repeats,
      neither repeats nor holds the head. */
  lemma TailFacts<K(!new)>(s: seq<K>)
    requires |s| > 0
    ensures forall y :: y in s[1..] ==> y in s
    ensures Distinct(s) ==> Distinct(s[1..]) && s[0] !in s[1..]
  {
    if Distinct(s) {
      DistinctTail(s);
    }
  }

  /** The first position of `x` in `s` (`iter().position`). */
  function Position<K(==,!new)>(s: seq<K>, x: K): (i: nat)
    requires x in s
    ensures i < |s| && s[i] == x
    ensures forall j :: 0 <= j < i ==> s[j] != x
  {
    if s[0] == x then 0 else Position(s[1..], x) + 1
  }

  /** Removing the first occurrence of a key that occurs once is taking it
      out. */
  lemma {:induction false} RemoveAtPosition<K(!new)>(s: seq<K>, x: K)
    requires x in s && Distinct(s)
    ensures var i := Position(s, x); s[..i] + s[i + 1..] == Without(s, x)
  {
    var i := Position(s, x);
    DistinctTail(s);
    if s[0] == x {
      assert s[..0] + s[1..] == s[1..];
    } else {
      RemoveAtPosition(s[1..], x);
      RemoveInTail(s, x);
    }
  }

  /** Removal past a head that is not the key happens in the tail. */
  lemma RemoveInTail<K(!new)>(s: seq<K>, x: K)
    requires |s| > 0 && s[0] != x && x in s[1..]
    requires var j := Position(s[1..], x); s[1..][..j] + s[1..][j + 1..] == Without(s[1..], x)
    ensures var i := Position(s, x); s[..i] + s[i + 1..] == Without(s, x)
  {
    var j := Position(s[1..], x);
    assert Position(s, x) == j + 1;
    DropInTail(s, j);
  }

  /** Dropping the element after position `j` of the tail is keeping the
      head and dropping position `j` of the tail. */
  lemma DropInTail<K>(s: seq<K>, j: nat)
    requires j + 1 < |s|
    ensures s[..j + 1] + s[j + 2..] == [s[0]] + (s[1..][..j] + s[1..][j + 1..])
  {
    assert s[..j + 1] == [s[0]] + s[1..][..j];
    assert s[j + 2..] == s[1..][j + 1..];
  }

  /** A valid cache has as many queued keys as entries. */
  lemma OrderMatchesSize<K(!new), V>(c: Cache<K, V>)
    requires Valid(c)
    ensures |c.cache| == |c.order|
  {
    DistinctCard(c.order);
    assert c.cache.Keys == set k | k in c.order;
  }

  lemma AppendFresh<K(!new)>(s: seq<K>, x: K)
    requires Distinct(s) && x !in s
    ensures Distinct(s + [x])
  {
  }

  /** Entry and queue after making room for one more key. */
  function Evict<K(==,!new), V>(c: Cache<K, V>): (r: (map<K, V>, seq<K>))
    requires Valid(c)
    ensures Distinct(r.1)
    ensures forall k :: k in r.0 ==> k in r.1
    ensures forall i :: 0 <= i < |r.1| ==> r.1[i] in r.0
    ensures forall k :: k in r.0 ==> k in c.cache && r.0[k] == c.cache[k]
    ensures c.capacity.Some? ==> |r.0| < c.capacity.value
    ensures c.capacity.Some? && |c.cache| == c.capacity.value ==> r.1 == c.order[1..] && r.0 == c.cache - {c.order[0]}
    ensures c.capacity.None? || |c.cache| < c.capacity.value ==> r == (c.cache, c.order)
  {
    OrderMatchesSize(c);
    if c.capacity.Some? && |c.cache| == c.capacity.value then
      DropFront(c);
      (c.cache - {c.order[0]}, c.order[1..])
    else (c.cache, c.order)
  }

  /** Dropping the front of the queue of a full cache, and its entry, leaves
      each remaining key queued once and one entry fewer. */
  lemma DropFront<K(!new), V>(c: Cache<K, V>)
    requires Valid(c) && c.capacity.Some? && |c.cache| == c.capacity.value
    ensures |c.order| > 0 && c.order[0] in c.cache
    ensures var (m, order) := (c.cache - {c.order[0]}, c.order[1..]);
      && Distinct(order)
      && (forall k :: k in m ==> k in order)
      && (forall i :: 0 <= i < |order| ==> order[i] in m)
      && |m| < c.capacity.value
  {
    OrderMatchesSize(c);
    DistinctTail(c.order);
    var order := c.order[1..];
    assert forall i :: 0 <= i < |order| ==> order[i] == c.order[i + 1];
  }

  /** `insert`: a key already present changes nothing; otherwise a full
      cache first evicts the front of the queue, then the key is stored and
      queued at the back. */
  function Insert<K(==,!new), V>(c: Cache<K, V>, key: K, value: V): (r: Cache<K, V>)
    requires Valid(c)
    ensures Valid(r)
    ensures key in c.cache ==> r == c
    ensures key !in c.cache ==> key in r.cache && r.cache[key] == value && r.order[|r.order| - 1] == key
    ensures r.capacity == c.capacity
  {
    if key in c.cache then c
    else
      var (cache, order) := Evict(c);
      AppendFresh(order, key);
      Cache(c.capacity, cache[key := value], order + [key])
  }

  /** Inserting a new key into a full cache evicts exactly the least recently
      used key; no other entry changes. */
  lemma InsertEvicts<K(!new), V>(c: Cache<K, V>, key: K, value: V)
    requires Valid(c) && key !in c.cache
    requires c.capacity.Some? && |c.cache| == c.capacity.value
    ensures var r := Insert(c, key, value);
      && r.order == c.order[1..] + [key]
      && c.order[0] !in r.cache
      && (forall k :: k in c.cache && k != c.order[0] ==> k in r.cache && r.cache[k] == c.cache[k])
      && |r.cache| == |c.cache|
  {
    OrderMatchesSize(c);
    OrderMatchesSize(Insert(c, key, value));
  }

  /** Inserting a new key into a cache with room keeps every entry. */
  lemma InsertKeeps<K(!new), V>(c: Cache<K, V>, key: K, value: V)
    requires Valid(c) && key !in c.cache
    requires c.capacity.None? || |c.cache| < c.capacity.value
    ensures var r := Insert(c, key, value);
      && r.order == c.order + [key]
      && r.cache == c.cache[key := value]
      && |r.cache| == |c.cache| + 1
  {
  }

  /** `contains_key`. */
  function ContainsKey<K(==,!new), V>(c: Cache<K, V>, key: K): (b: bool)
    requires Valid(c)
    ensures b <==> key in c.order
  {
    key in c.cache
  }

  lemma MoveToBack<K(!new), V>(c: Cache<K, V>, key: K)
    requires Valid(c) && key in c.cache
    ensures Valid(c.(order := Without(c.order, key) + [key]))
  {
    var w := Without(c.order, key);
    AppendFresh(w, key);
    var o := w + [key];
    forall i | 0 <= i < |o| ensures o[i] in c.cache {
      if i < |w| {
        assert o[i] in w;
      }
    }
  }

  lemma TouchFacts<K(!new), V>(c: Cache<K, V>, key: K, index: nat)
    requires Valid(c) && key in c.cache && key in c.order && index == Position(c.order, key)
    ensures c.order[..index] + c.order[index + 1..] + [key] == Without(c.order, key) + [key]
    ensures Valid(c.(order := c.order[..index] + c.order[index + 1..] + [key]))
  {
    RemoveThenPush(c.order, key, index);
    MoveToBack(c, key);
  }

  /** `remove(index)` then `push_back(key)` on the queue is taking the key
      out and putting it at the back. */
  lemma RemoveThenPush<K(!new)>(s: seq<K>, x: K, index: nat)
    requires x in s && Distinct(s) && index == Position(s, x)
    ensures s[..index] + s[index + 1..] + [x] == Without(s, x) + [x]
  {
    RemoveAtPosition(s, x);
  }

  /** Marking `key` most recently used: out of the queue, then at the back. */
  function Touch<K(==,!new), V>(c: Cache<K, V>, key: K): (r: Cache<K, V>)
    requires Valid(c) && key in c.cache
    ensures Valid(r)
    ensures r.order == Without(c.order, key) + [key]
    ensures r.cache == c.cache && r.capacity == c.capacity
  {
    var index := Position(c.order, key);
    TouchFacts(c, key, index);
    c.(order := c.order[..index] + c.order[index + 1..] + [key])
  }

  /** `get`: a present key yields its value and becomes most recently used;
      an absent key yields None and changes nothing. */
  function Get<K(==,!new), V>(c: Cache<K, V>, key: K): (r: (Option<V>, Cache<K, V>))
    requires Valid(c)
    ensures Valid(r.1)
    ensures key in c.cache ==> r.0 == Some(c.cache[key])
    ensures key !in c.cache ==> r == (None, c)
    ensures r.1.cache == c.cache && r.1.capacity == c.capacity
    ensures key in c.cache ==> r.1.order == Without(c.order, key) + [key]
  {
    if key in c.cache then (Some(c.cache[key]), Touch(c, key)) else (None, c)
  }

  /** `get_mut`: like `get`, and the caller may then write through the
      reference, modelled by `write` applied to the stored value. */
  function GetMut<K(==,!new), V>(c: Cache<K, V>, key: K, write: V -> V): (r: (Option<V>, Cache<K, V>))
    requires Valid(c)
    ensures Valid(r.1)
    ensures key in c.cache ==> r.0 == Some(c.cache[key]) && r.1.cache == c.cache[key := write(c.cache[key])]
    ensures key in c.cache ==> r.1.order == Without(c.order, key) + [key]
    ensures key !in c.cache ==> r == (None, c)
  {
    if key in c.cache then
      var t := Touch(c, key);
      (Some(c.cache[key]), t.(cache := t.cache[key := write(c.cache[key])]))
    else (None, c)
  }

  /** `clear`. */
  function Clear<K(==,!new), V>(c: Cache<K, V>): (r: Cache<K, V>)
    requires Valid(c)
    ensures Valid(r) && r.cache == map[] && r.order == []
    ensures r.capacity == c.capacity
  {
    Cache(c.capacity, map[], [])
  }

  /** Reading a key twice in a row leaves the cache as the first read left
      it. */
  lemma GetTwice<K(!new), V>(c: Cache<K, V>, key: K)
    requires Valid(c)
    ensures Get(Get(c, key).1, key) == (Get(c, key).0, Get(c, key).1)
  {
    if key in c.cache {
      var c1 := Get(c, key).1;
      var w := Without(c1.order, key);
      assert c1.order == Without(c.order, key) + [key];
      assert key !in Without(c.order, key);
      WithoutLast(Without(c.order, key), key);
    }
  }

  lemma {:induction false} WithoutLast<K(!new)>(s: seq<K>, x: K)
    requires x !in s
    ensures Without(s + [x], x) == s
  {
    if |s| > 0 {
      assert (s + [x])[1..] == s[1..] + [x];
      WithoutLast(s[1..], x);
    } else {
      assert [x][1..] == [];
    }
  }
}
