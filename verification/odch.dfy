/** `OnDiskCompressedHash` of src/odch.rs, in memory: a vector of strings
    (`idx`) with a reverse lookup table (`map`) from each string to its
    1-based position. Saving writes `idx` alone; opening rebuilds `map`
    from it. Compression, bincode framing and files are not modelled: the
    saved form is the vector itself. */
module Odch {
  import opened Wrappers
  import opened Seqs

  datatype Hash = Hash(ids: map<string, nat>, idx: seq<string>, finalized: bool)

  /** The panics of the source (`panic!` and `usize` underflow). */
  datatype Panic = Finalized | Underflow

  /** What `new` and `get_or_insert` keep: `idx` has no repeats and `map`
      sends the string at position `i` to `i + 1`, and nothing else. */
  ghost predicate Valid(h: Hash) {
    Distinct(h.idx) && IdsPointBack(h.ids, h.idx) && PositionsHaveIds(h.ids, h.idx)
  }

  /** Every id in the table names its string's position, 1-based. */
  ghost predicate IdsPointBack(ids: map<string, nat>, idx: seq<string>) {
    forall k :: k in ids ==> 1 <= ids[k] <= |idx| && idx[ids[k] - 1] == k
  }

  /** Every position's string has that position, 1-based, as its id. */
  ghost predicate PositionsHaveIds(ids: map<string, nat>, idx: seq<string>) {
    forall i :: 0 <= i < |idx| ==> idx[i] in ids && ids[idx[i]] == i + 1
  }

  /** `OnDiskCompressedHash::new`. */
  function New(): (h: Hash)
    ensures Valid(h) && !h.finalized && |h.idx| == 0
  {
    Hash(map[], [], false)
  }

  /** The table that sends the string at position `i` of `idx` to
      `i + base`; a string repeated in `idx` keeps its last position, as
      successive `HashMap::insert` calls do. */
  function IndexMap(idx: seq<string>, base: nat): (m: map<string, nat>)
    ensures forall k :: k in m <==> k in idx
  {
    if |idx| == 0 then map[]
    else
      var n := |idx| - 1;
      assert forall k :: k in idx <==> k in idx[..n] || k == idx[n];
      IndexMap(idx[..n], base)[idx[n] := n + base]
  }

  /** Every id in the table points back at its string. */
  lemma {:induction false} IndexMapPointsBack(idx: seq<string>, base: nat, k: string)
    requires k in IndexMap(idx, base)
    ensures base <= IndexMap(idx, base)[k] < |idx| + base
    ensures idx[IndexMap(idx, base)[k] - base] == k
  {
    var n := |idx| - 1;
    if k != idx[n] {
      var prefix := idx[..n];
      IndexMapPointsBack(prefix, base, k);
      assert prefix[IndexMap(prefix, base)[k] - base] == k;
    }
  }

  /** Without repeats, each string gets its own position. */
  lemma {:induction false} IndexMapPosition(idx: seq<string>, base: nat, i: nat)
    requires Distinct(idx) && i < |idx|
    ensures idx[i] in IndexMap(idx, base) && IndexMap(idx, base)[idx[i]] == i + base
  {
    var n := |idx| - 1;
    if i < n {
      var prefix := idx[..n];
      assert Distinct(prefix) by {
        forall a, b | 0 <= a < b < |prefix| ensures prefix[a] != prefix[b] {
          assert prefix[a] == idx[a] && prefix[b] == idx[b];
        }
      }
      IndexMapPosition(prefix, base, i);
      assert prefix[i] == idx[i] && idx[i] != idx[n];
    }
  }

  /** Rebuilding the table 1-based from a vector without repeats gives a
      valid hash. */
  lemma IndexMapValid(idx: seq<string>)
    requires Distinct(idx)
    ensures Valid(Hash(IndexMap(idx, 1), idx, false))
  {
    AllPointBack(idx);
    AllPositions(idx);
  }

  lemma AllPointBack(idx: seq<string>)
    ensures IdsPointBack(IndexMap(idx, 1), idx)
  {
    forall k | k in IndexMap(idx, 1) ensures 1 <= IndexMap(idx, 1)[k] <= |idx| && idx[IndexMap(idx, 1)[k] - 1] == k {
      IndexMapPointsBack(idx, 1, k);
    }
  }

  lemma AllPositions(idx: seq<string>)
    requires Distinct(idx)
    ensures PositionsHaveIds(IndexMap(idx, 1), idx)
  {
    forall i | 0 <= i < |idx| ensures idx[i] in IndexMap(idx, 1) && IndexMap(idx, 1)[idx[i]] == i + 1 {
      IndexMapPosition(idx, 1, i);
    }
  }

  /** `open` as written: the rebuilt table holds 0-based positions, while
      `get_or_insert` hands out and `get_key_for` expects 1-based ones. */
  function OpenAsWritten(saved: seq<string>): (h: Hash)
    ensures h.idx == saved && !h.finalized
    ensures forall k :: k in h.ids <==> k in saved
  {
    Hash(IndexMap(saved, 0), saved, false)
  }

  /** `open` with the 1-based numbering the rest of the type uses. */
  function Open(saved: seq<string>): (h: Hash)
    ensures h.idx == saved && !h.finalized
    ensures Distinct(saved) ==> Valid(h)
  {
    assert Distinct(saved) ==> Valid(Hash(IndexMap(saved, 1), saved, false)) by {
      if Distinct(saved) {
        IndexMapValid(saved);
      }
    }
    Hash(IndexMap(saved, 1), saved, false)
  }

  /** `from_hash`: `idx` takes the keys in the table's iteration order, which
      the caller supplies as `keys`. */
  function FromHash(m: map<string, nat>, keys: seq<string>): (h: Hash)
    requires Distinct(keys) && forall k :: k in m <==> k in keys
    ensures h.ids == m && multiset(h.idx) == multiset(keys) && !h.finalized
    ensures |h.idx| == |m|
  {
    DistinctCard(keys);
    assert m.Keys == set k | k in keys;
    Hash(m, keys, false)
  }

  /** `save`: refused on a finalized hash, otherwise writes `idx`. */
  function Save(h: Hash): (r: Result<seq<string>, Panic>)
    ensures r.Err? <==> h.finalized
    ensures r.Ok? ==> r.value == h.idx
  {
    if h.finalized then Err(Finalized) else Ok(h.idx)
  }

  /** `get` (and `get_idx_for`, which is the same lookup). */
  function Get(h: Hash, key: string): (r: Option<nat>)
    ensures r.Some? <==> key in h.ids
    ensures Valid(h) && r.Some? ==> 1 <= r.value <= |h.idx| && h.idx[r.value - 1] == key
  {
    if key in h.ids then Some(h.ids[key]) else None
  }

  /** `get_or_insert`: refused on a finalized hash; a known string keeps its
      id; a new one is appended and gets the next id, `len() + 1`. */
  function GetOrInsert(h: Hash, key: string): (r: Result<(nat, Hash), Panic>)
    ensures r.Err? <==> h.finalized
    ensures r.Ok? && key in h.ids ==> r.value == (h.ids[key], h)
    ensures r.Ok? && key !in h.ids ==>
      && r.value.0 == |h.idx| + 1
      && r.value.1.idx == h.idx + [key]
      && r.value.1.ids == h.ids[key := r.value.0]
    ensures r.Ok? ==> Get(r.value.1, key) == Some(r.value.0)
    ensures Valid(h) && r.Ok? ==> Valid(r.value.1)
  {
    if h.finalized then Err(Finalized)
    else if key in h.ids then Ok((h.ids[key], h))
    else
      var id := |h.idx| + 1;
      var h' := Hash(h.ids[key := id], h.idx + [key], h.finalized);
      assert Valid(h) ==> Valid(h') by {
        if Valid(h) {
          forall i | 0 <= i < |h'.idx| ensures h'.idx[i] in h'.ids && h'.ids[h'.idx[i]] == i + 1 {
            if i < |h.idx| {
              assert h'.idx[i] == h.idx[i];
            }
          }
        }
      }
      Ok((id, h'))
  }

  /** `get_key_for`: id 0 underflows `intid - 1`; an id past the end gives
      None. */
  function GetKeyFor(h: Hash, intid: nat): (r: Result<Option<string>, Panic>)
    ensures r.Err? <==> intid == 0
    ensures r.Ok? ==> (r.value.Some? <==> intid <= |h.idx|)
    ensures r.Ok? && r.value.Some? ==> r.value.value == h.idx[intid - 1]
  {
    if intid == 0 then Err(Underflow)
    else if intid - 1 < |h.idx| then Ok(Some(h.idx[intid - 1]))
    else Ok(None)
  }

  /** `len`. */
  function Len(h: Hash): (n: nat)
    ensures Valid(h) ==> n == |h.ids|
  {
    assert Valid(h) ==> |h.idx| == |h.ids| by {
      if Valid(h) {
        DistinctCard(h.idx);
        assert h.ids.Keys == set k | k in h.idx;
      }
    }
    |h.idx|
  }

  /** `get_keys`: the strings in id order. */
  function GetKeys(h: Hash): (keys: seq<string>)
    ensures Valid(h) ==> forall id :: 1 <= id <= |keys| ==> GetKeyFor(h, id) == Ok(Some(keys[id - 1]))
  {
    h.idx
  }

  /** `get_values`: the ids, in no particular order. */
  function GetValues(h: Hash): (ids: set<nat>)
    ensures Valid(h) ==> forall id :: id in ids <==> 1 <= id <= |h.idx|
  {
    assert Valid(h) ==> forall id :: 1 <= id <= |h.idx| ==> id in h.ids.Values by {
      if Valid(h) {
        forall id | 1 <= id <= |h.idx| ensures id in h.ids.Values {
          assert h.idx[id - 1] in h.ids;
        }
      }
    }
    h.ids.Values
  }

  /** Ids and strings are inverse: the id `get` reports for a string maps
      back to that string, and the string at an id maps back to the id. */
  lemma KeyIdRoundTrip(h: Hash, key: string, id: nat)
    requires Valid(h)
    ensures Get(h, key) == Some(id) ==> GetKeyFor(h, id) == Ok(Some(key))
    ensures GetKeyFor(h, id) == Ok(Some(key)) ==> Get(h, key) == Some(id)
  {
  }

  /** Saving and re-opening gives back the same hash, ids included. */
  lemma {:induction false} SaveOpenRoundTrip(h: Hash)
    requires Valid(h) && !h.finalized
    ensures Save(h).Ok? && Open(Save(h).value) == h
  {
    AllPointBack(h.idx);
    SameTable(IndexMap(h.idx, 1), h.ids, h.idx);
  }

  /** A table that points back into `idx` and holds exactly its strings is
      the valid table of `idx`. */
  lemma SameTable(a: map<string, nat>, b: map<string, nat>, idx: seq<string>)
    requires IdsPointBack(a, idx) && (forall k :: k in a <==> k in idx)
    requires IdsPointBack(b, idx) && PositionsHaveIds(b, idx)
    ensures a == b
  {
    forall k | k in a ensures k in b && a[k] == b[k] {
      assert idx[a[k] - 1] == k;
    }
    forall k | k in b ensures k in a {
      assert idx[b[k] - 1] == k;
    }
  }

  /** `open` as written shifts every id down by one: the first saved string
      comes back with id 0, which `get_key_for` rejects, and every other
      one with the id of the string before it. */
  lemma OpenAsWrittenShifts(saved: seq<string>, i: nat)
    requires Distinct(saved) && i < |saved|
    ensures Get(OpenAsWritten(saved), saved[i]) == Some(i)
    ensures i == 0 ==> GetKeyFor(OpenAsWritten(saved), i).Err?
    ensures i > 0 ==> GetKeyFor(OpenAsWritten(saved), i) == Ok(Some(saved[i - 1]))
  {
    var h := OpenAsWritten(saved);
    IndexMapPosition(saved, 0, i);
    assert h.ids == IndexMap(saved, 0);
    assert saved[i] in h.ids && h.ids[saved[i]] == i;
  }

  /** The concrete case: store "a" and "b", save, open; "b" now looks up
      as "a", and "a" as a `usize` underflow. */
  lemma OpenAsWrittenExample()
    ensures var h := OpenAsWritten(["a", "b"]);
      && Get(h, "b") == Some(1) && GetKeyFor(h, 1) == Ok(Some("a"))
      && Get(h, "a") == Some(0) && GetKeyFor(h, 0).Err?
  {
    var saved := ["a", "b"];
    OpenAsWrittenShifts(saved, 0);
    OpenAsWrittenShifts(saved, 1);
  }
}
