/** Facts about sequences shared by the other modules: sequences without
    repeats (the cache's recency queue, the id table's key vector), and the
    concatenation and slicing identities the proofs step through. */
module Seqs {

  /** No element occurs twice. */
  predicate Distinct<K(==,!new)>(s: seq<K>) {
    forall i, j :: 0 <= i < j < |s| ==> s[i] != s[j]
  }

  /** The tail of a sequence without repeats has none either, and does not
      hold the head. */
  lemma DistinctTail<K(!new)>(s: seq<K>)
    requires |s| > 0 && Distinct(s)
    ensures Distinct(s[1..]) && s[0] !in s[1..]
  {
  }

  /** A sequence without repeats has as many elements as its set. */
  lemma {:induction false} DistinctCard<K(!new)>(s: seq<K>)
    requires Distinct(s)
    ensures |set k | k in s| == |s|
  {
    if |s| > 0 {
      DistinctTail(s);
      DistinctCard(s[1..]);
      assert (set k | k in s) == (set k | k in s[1..]) + {s[0]};
    }
  }

  lemma AppendAssoc<T>(a: seq<T>, b: seq<T>, c: seq<T>)
    ensures a + b + c == a + (b + c)
  {
  }

  lemma AppendEmpty<T>(s: seq<T>)
    ensures s + [] == s
  {
  }

  /** A non-empty sequence is its head and its tail, as elements and as a
      multiset. */
  lemma HeadAndTail<T>(s: seq<T>)
    requires |s| > 0
    ensures s == [s[0]] + s[1..]
    ensures multiset(s[1..]) == multiset(s) - multiset{s[0]}
  {
    assert s == [s[0]] + s[1..];
    assert multiset(s) == multiset{s[0]} + multiset(s[1..]);
  }

  /** The head and the tail of a sequence built by prepending `x`. */
  lemma ConsParts<T>(x: T, t: seq<T>)
    ensures ([x] + t)[0] == x && ([x] + t)[1..1 + |t|] == t
  {
  }

  /** A non-empty `b` is its front and its last element, also behind `a`. */
  lemma SnocSplit<T>(a: seq<T>, b: seq<T>)
    requires |b| > 0
    ensures b == b[..|b| - 1] + [b[|b| - 1]]
    ensures a + b == (a + b[..|b| - 1]) + [b[|b| - 1]]
  {
  }

  /** Moving the head of `input` onto the end of `buffer` keeps their
      concatenation. */
  lemma MoveHead<T>(buffer: seq<T>, input: seq<T>)
    requires |input| > 0
    ensures buffer + input == (buffer + [input[0]]) + input[1..]
    ensures [] + input[1..] == input[1..]
  {
    assert input == [input[0]] + input[1..];
  }

  /** A sequence is its prefix and its suffix at `i`; the suffix starts
      with `s[i]` and goes on with `s[i + 1..]`. */
  lemma SplitAt<T>(s: seq<T>, i: nat)
    requires i < |s|
    ensures s == s[..i] + s[i..]
    ensures s[i..][0] == s[i] && s[i..][1..] == s[i + 1..]
  {
  }

  /** The first element and the rest of a slice of length `n` at `pos`. */
  lemma SliceStep<T>(s: seq<T>, pos: nat, n: nat)
    requires 0 < n && pos + n <= |s|
    ensures s[pos] == s[pos..pos + n][0] && s[pos + 1..pos + n] == s[pos..pos + n][1..]
  {
  }
}
