/** Posting lists and the in-memory side of the inverted file, from
    src/index.rs. `MagicEncodedBuffer` and the byte-size helpers
    `vbyte_bytes_required` / `magic_bytes_required` are defined outside the
    modelled files: the buffer is modelled as the sequence of values written
    to it, which it hands back in order, and the size helpers are
    parameters. */
module Index {
  import opened Wrappers
  import opened Sorting
  import opened Compress
  import opened Words
  import opened Seqs

  datatype Posting = Posting(docId: U32, tf: U32)

  /** The derived `Ord`: `doc_id` first, then `tf`. */
  predicate PostingLe(a: Posting, b: Posting) {
    a.docId < b.docId || (a.docId == b.docId && a.tf <= b.tf)
  }

  lemma PostingLeIsTotalOrder()
    ensures TotalOrder(PostingLe)
  {
  }

  datatype PostingList = PostingList(postings: seq<Posting>)

  /** Failed `assert!`s, failed `unwrap`s, checked-arithmetic panics and the
      `Unsupported` error of `get_posting_list`. */
  datatype IndexError = AssertFailed | Unwrap | Underflow | Overflow | Unsupported | Io

  /** `PostingList::add_posting`: both `doc_id` and `tf` must be non-zero. */
  function AddPosting(pl: PostingList, docId: U32, tf: U32): (r: Result<PostingList, IndexError>)
    ensures r.Ok? <==> docId > 0 && tf > 0
    ensures r.Ok? ==> r.value.postings == pl.postings + [Posting(docId, tf)]
  {
    if docId == 0 || tf == 0 then Err(AssertFailed)
    else Ok(PostingList(pl.postings + [Posting(docId, tf)]))
  }

  /** `postings.sort()`: any sort under a total order gives the one sorted
      permutation, the reference sort. */
  function SortPostings(pl: PostingList): (r: PostingList)
    ensures Sorted(r.postings, PostingLe)
    ensures multiset(r.postings) == multiset(pl.postings)
    ensures |r.postings| == |pl.postings|
  {
    PostingLeIsTotalOrder();
    PostingList(Sort(pl.postings, PostingLe))
  }

  /** The document id the gap of posting `i` is taken from. */
  function Prev(s: seq<Posting>, last: U32, i: nat): U32
    requires i < |s|
  {
    if i == 0 then last else s[i - 1].docId
  }

  /** Document ids ascend from `last`, possibly with repeats. */
  predicate AscendingFrom(s: seq<Posting>, last: U32) {
    forall i :: 0 <= i < |s| ==> Prev(s, last, i) <= s[i].docId
  }

  /** Document ids strictly ascend from `last`. */
  predicate StrictlyAscendingFrom(s: seq<Posting>, last: U32) {
    forall i :: 0 <= i < |s| ==> Prev(s, last, i) < s[i].docId
  }

  function SumGaps(gaps: seq<(U32, U32)>): nat {
    if |gaps| == 0 then 0 else gaps[0].0 + SumGaps(gaps[1..])
  }

  /** The loop of `bytes_to_serialize`: each posting's (docgap, tf), the gap
      taken from the previous document id, or the id itself while `last` is
      still 0; a gap of 0 fails the assertion. Adding up the gaps gives the
      document ids back. */
  function GapWalk(s: seq<Posting>, last: U32): (r: Result<seq<(U32, U32)>, IndexError>)
    ensures r.Ok? ==> |r.value| == |s|
    ensures r.Ok? ==> forall i :: 0 <= i < |s| ==> r.value[i].0 > 0 && r.value[i].1 == s[i].tf
    ensures r.Ok? ==> forall i :: 0 <= i < |s| ==> last + SumGaps(r.value[..i + 1]) == s[i].docId
  {
    if |s| == 0 then Ok([])
    else
      var gap := if last > 0 then s[0].docId - last else s[0].docId;
      if gap < 0 then Err(Underflow)
      else if gap == 0 then Err(AssertFailed)
      else
        match GapWalk(s[1..], s[0].docId)
        case Err(e) => Err(e)
        case Ok(rest) =>
          var gaps := [(gap as U32, s[0].tf)] + rest;
          assert forall i :: 1 <= i < |s| ==> gaps[..i + 1] == [gaps[0]] + rest[..i];
          assert gaps[..1] == [gaps[0]];
          Ok(gaps)
  }

  /** On ascending document ids the gap walk succeeds exactly when no id
      repeats (and the first is above `last`). */
  lemma {:induction false} GapWalkSucceeds(s: seq<Posting>, last: U32)
    requires AscendingFrom(s, last)
    ensures GapWalk(s, last).Ok? <==> StrictlyAscendingFrom(s, last)
  {
    if |s| > 0 {
      AscendingTail(s, last);
      GapWalkSucceeds(s[1..], s[0].docId);
      StrictTail(s, last);
    }
  }

  /** Position `i` of the tail, measured from the head, is position `i + 1`
      measured from `last`. */
  lemma PrevShift(s: seq<Posting>, last: U32, i: nat)
    requires i + 1 < |s|
    ensures Prev(s[1..], s[0].docId, i) == Prev(s, last, i + 1) && s[1..][i] == s[i + 1]
  {
  }

  lemma AscendingTail(s: seq<Posting>, last: U32)
    requires |s| > 0 && AscendingFrom(s, last)
    ensures s[0].docId >= last && AscendingFrom(s[1..], s[0].docId)
  {
    assert Prev(s, last, 0) <= s[0].docId;
    forall i | 0 <= i < |s| - 1 ensures Prev(s[1..], s[0].docId, i) <= s[1..][i].docId {
      PrevShift(s, last, i);
      assert Prev(s, last, i + 1) <= s[i + 1].docId;
    }
  }

  /** Ids strictly ascend from `last` exactly when the first is above
      `last` and the rest strictly ascend from it. */
  lemma StrictTail(s: seq<Posting>, last: U32)
    requires |s| > 0
    ensures StrictlyAscendingFrom(s, last) <==> s[0].docId > last && StrictlyAscendingFrom(s[1..], s[0].docId)
  {
    if StrictlyAscendingFrom(s, last) {
      assert Prev(s, last, 0) < s[0].docId;
      forall i | 0 <= i < |s| - 1 ensures Prev(s[1..], s[0].docId, i) < s[1..][i].docId {
        PrevShift(s, last, i);
        assert Prev(s, last, i + 1) < s[i + 1].docId;
      }
    }
    if s[0].docId > last && StrictlyAscendingFrom(s[1..], s[0].docId) {
      forall i | 0 <= i < |s| ensures Prev(s, last, i) < s[i].docId {
        if i > 0 {
          PrevShift(s, last, i - 1);
          assert Prev(s[1..], s[0].docId, i - 1) < s[1..][i - 1].docId;
        }
      }
    }
  }

  function SumMagicBytes(gaps: seq<(U32, U32)>, magicBytes: (U32, U32) -> nat): nat {
    if |gaps| == 0 then 0 else magicBytes(gaps[0].0, gaps[0].1) + SumMagicBytes(gaps[1..], magicBytes)
  }

  /** `postings.len() as u32`: the cast keeps the low 32 bits. */
  function CountAsU32(n: nat): U32 {
    n % U32_LIMIT
  }

  /** `bytes_to_serialize`: sorts the list in place, then adds the size of
      the count and of every (docgap, tf) pair. Returns the size and the
      sorted list. */
  function BytesToSerialize(pl: PostingList, vbyteBytes: U32 -> nat, magicBytes: (U32, U32) -> nat)
    : (r: Result<(nat, PostingList), IndexError>)
    ensures r.Ok? ==> r.value.1 == SortPostings(pl)
    ensures r.Ok? <==> StrictlyAscendingFrom(SortPostings(pl).postings, 0)
    ensures r.Ok? ==> r.value.0 >= vbyteBytes(CountAsU32(|pl.postings|))
    ensures r.Ok? ==>
      && GapWalk(r.value.1.postings, 0).Ok?
      && r.value.0 == vbyteBytes(CountAsU32(|pl.postings|))
                      + SumMagicBytes(GapWalk(r.value.1.postings, 0).value, magicBytes)
  {
    var sorted := SortPostings(pl);
    SortedAscending(sorted.postings);
    GapWalkSucceeds(sorted.postings, 0);
    match GapWalk(sorted.postings, 0)
    case Err(e) => Err(e)
    case Ok(gaps) =>
      Ok((vbyteBytes(CountAsU32(|sorted.postings|)) + SumMagicBytes(gaps, magicBytes), sorted))
  }

  lemma SortedAscending(s: seq<Posting>)
    requires Sorted(s, PostingLe)
    ensures AscendingFrom(s, 0)
  {
    forall i | 0 <= i < |s| ensures Prev(s, 0, i) <= s[i].docId {
      if i > 0 {
        assert PostingLe(s[i - 1], s[i]);
      }
    }
  }

  /** What the buffer holds: the values written to it, in order. */
  datatype Item = Count(n: U32) | Pair(docId: U32, tf: U32)

  function Pairs(s: seq<Posting>): (items: seq<Item>)
    ensures |items| == |s|
    ensures forall i :: 0 <= i < |s| ==> items[i] == Pair(s[i].docId, s[i].tf)
  {
    if |s| == 0 then [] else [Pair(s[0].docId, s[0].tf)] + Pairs(s[1..])
  }

  /** `serialize_into`: sorts the list in place and writes the count (taken
      before sorting, cast to u32) and then each posting. Returns the buffer
      and the sorted list. */
  function SerializeInto(pl: PostingList): (r: (seq<Item>, PostingList))
    ensures r.1 == SortPostings(pl)
    ensures |r.0| == |pl.postings| + 1
  {
    var sorted := SortPostings(pl);
    ([Count(CountAsU32(|pl.postings|))] + Pairs(sorted.postings), sorted)
  }

  /** Read `n` (docid, tf) pairs from position `pos`; a missing or
      mistyped value fails. */
  function ReadPostings(buf: seq<Item>, pos: nat, n: nat): (r: Result<seq<Posting>, IndexError>)
    ensures r.Ok? ==> |r.value| == n
    decreases n
  {
    if n == 0 then Ok([])
    else if pos >= |buf| || !buf[pos].Pair? then Err(Unwrap)
    else
      match ReadPostings(buf, pos + 1, n - 1)
      case Err(e) => Err(e)
      case Ok(rest) => Ok([Posting(buf[pos].docId, buf[pos].tf)] + rest)
  }

  /** `PostingList::deserialize`: read the count, then that many pairs. */
  function Deserialize(buf: seq<Item>): (r: Result<PostingList, IndexError>)
    ensures r.Ok? ==> |buf| > 0 && buf[0].Count? && |r.value.postings| == buf[0].n
    ensures |buf| == 0 ==> r.Err?
  {
    if |buf| == 0 || !buf[0].Count? then Err(Unwrap)
    else
      match ReadPostings(buf, 1, buf[0].n)
      case Err(e) => Err(e)
      case Ok(postings) => Ok(PostingList(postings))
  }

  lemma {:induction false} ReadPairs(buf: seq<Item>, pos: nat, s: seq<Posting>)
    requires pos + |s| <= |buf| && buf[pos..pos + |s|] == Pairs(s)
    ensures ReadPostings(buf, pos, |s|) == Ok(s)
    decreases |s|
  {
    if |s| > 0 {
      SliceStep(buf, pos, |s|);
      PairsTail(s);
      ReadPairs(buf, pos + 1, s[1..]);
      ReadOne(buf, pos, |s|, s[1..]);
      HeadAndTail(s);
    }
  }

  /** One pair read in front of `n - 1` more. */
  lemma ReadOne(buf: seq<Item>, pos: nat, n: nat, rest: seq<Posting>)
    requires 0 < n && pos < |buf| && buf[pos].Pair?
    requires ReadPostings(buf, pos + 1, n - 1) == Ok(rest)
    ensures ReadPostings(buf, pos, n) == Ok([Posting(buf[pos].docId, buf[pos].tf)] + rest)
  {
  }

  lemma PairsTail(s: seq<Posting>)
    requires |s| > 0
    ensures Pairs(s)[0] == Pair(s[0].docId, s[0].tf) && Pairs(s)[1..] == Pairs(s[1..])
  {
  }

  /** Serializing then deserializing gives the sorted list back, as long as
      the count fits the u32 it is written as. */
  lemma SerializeRoundTrip(pl: PostingList)
    requires |pl.postings| < U32_LIMIT
    ensures Deserialize(SerializeInto(pl).0) == Ok(SerializeInto(pl).1)
    ensures SerializeInto(pl).1 == SortPostings(pl)
  {
    var sorted := SortPostings(pl).postings;
    assert CountAsU32(|pl.postings|) == |sorted|;
    ReadCountThenPairs(sorted);
  }

  /** A count followed by that many pairs reads back as those postings. */
  lemma ReadCountThenPairs(s: seq<Posting>)
    requires |s| < U32_LIMIT
    ensures Deserialize([Count(|s|)] + Pairs(s)) == Ok(PostingList(s))
  {
    var buf := [Count(|s|)] + Pairs(s);
    ConsParts(Count(|s|), Pairs(s));
    ReadPairs(buf, 1, s);
    assert ReadPostings(buf, 1, buf[0].n) == Ok(s);
  }

  /** The test's scenario: a list of distinct non-zero documents built with
      `add_posting` survives `bytes_to_serialize`, and the round trip gives
      back the list as `serialize_into` sorted it. */
  lemma SerializedListsMatch(pl: PostingList, vbyteBytes: U32 -> nat, magicBytes: (U32, U32) -> nat)
    requires |pl.postings| < U32_LIMIT
    requires StrictlyAscendingFrom(SortPostings(pl).postings, 0)
    ensures BytesToSerialize(pl, vbyteBytes, magicBytes).Ok?
    ensures Deserialize(SerializeInto(pl).0) == Ok(BytesToSerialize(pl, vbyteBytes, magicBytes).value.1)
  {
    SerializeRoundTrip(pl);
  }

  datatype PostInfo = PostInfo(offset: nat, len: nat)

  /** `InvertedFile`: the offsets of saved lists, the in-memory cache and a
      cache counter (which nothing in the modelled file increments). */
  datatype InvertedFile = InvertedFile(offsets: map<nat, PostInfo>, cache: map<nat, PostingList>, cacheCount: U32)

  /** `size_of::<Posting>()`: two u32 fields. */
  const POSTING_SIZE: nat := 8

  /** `InvertedFile::new`. */
  function NewInvertedFile(): (inv: InvertedFile)
    ensures inv.offsets == map[] && inv.cache == map[] && inv.cacheCount == 0
  {
    InvertedFile(map[], map[], 0)
  }

  /** `InvertedFile::add_posting`: `docid` must be non-zero; an unseen tokid
      gets an empty cached list; the posting goes to that tokid's list
      only. */
  function AddToFile(inv: InvertedFile, tokid: nat, docId: U32, tf: U32): (r: Result<InvertedFile, IndexError>)
    ensures r.Ok? <==> docId > 0 && tf > 0
    ensures r.Ok? ==> tokid in r.value.cache
    ensures r.Ok? ==>
      r.value.cache[tokid].postings == (if tokid in inv.cache then inv.cache[tokid].postings else []) + [Posting(docId, tf)]
    ensures r.Ok? ==> forall t :: t != tokid ==> (t in r.value.cache <==> t in inv.cache)
    ensures r.Ok? ==> forall t :: t != tokid && t in inv.cache ==> r.value.cache[t] == inv.cache[t]
    ensures r.Ok? ==> r.value.offsets == inv.offsets && r.value.cacheCount == inv.cacheCount
  {
    if docId == 0 then Err(AssertFailed)
    else
      var pl := if tokid in inv.cache then inv.cache[tokid] else PostingList([]);
      match AddPosting(pl, docId, tf)
      case Err(e) => Err(e)
      case Ok(pl') => Ok(inv.(cache := inv.cache[tokid := pl']))
  }

  /** `get_posting_list`: a cached list is returned as is; a saved one is
      read through `read` (the file access), deserialized and cached; any
      other tokid is `Unsupported`. */
  function GetPostingList(inv: InvertedFile, tokid: nat, read: PostInfo -> Result<seq<Item>, IndexError>)
    : (r: Result<(PostingList, InvertedFile), IndexError>)
    ensures tokid in inv.cache ==> r == Ok((inv.cache[tokid], inv))
    ensures tokid !in inv.cache && tokid !in inv.offsets ==> r == Err(Unsupported)
    ensures r.Ok? ==> tokid in r.value.1.cache && r.value.1.cache[tokid] == r.value.0
    ensures r.Ok? ==> r.value.1 == inv.(cache := inv.cache[tokid := r.value.0])
    ensures tokid !in inv.cache && tokid in inv.offsets && read(inv.offsets[tokid]).Ok? ==>
      (r.Ok? <==> Deserialize(read(inv.offsets[tokid]).value).Ok?)
  {
    if tokid in inv.cache then Ok((inv.cache[tokid], inv))
    else if tokid in inv.offsets then
      match read(inv.offsets[tokid])
      case Err(e) => Err(e)
      case Ok(bytes) =>
        match Deserialize(bytes)
        case Err(e) => Err(e)
        case Ok(pl) => Ok((pl, inv.(cache := inv.cache[tokid := pl])))
    else Err(Unsupported)
  }

  /** Asking twice for a list gives the same list, and the second request
      is served from the cache without a change. */
  lemma GetPostingListTwice(inv: InvertedFile, tokid: nat, read: PostInfo -> Result<seq<Item>, IndexError>)
    requires GetPostingList(inv, tokid, read).Ok?
    ensures var (pl, inv') := GetPostingList(inv, tokid, read).value;
      GetPostingList(inv', tokid, read) == Ok((pl, inv'))
  {
  }

  /** `memusage`: cached postings times their size, a checked u32
      product. */
  function MemUsage(inv: InvertedFile): (r: Result<U32, IndexError>)
    ensures r.Ok? ==> r.value == inv.cacheCount * POSTING_SIZE
    ensures inv.cacheCount == 0 ==> r == Ok(0)
  {
    if inv.cacheCount * POSTING_SIZE >= U32_LIMIT then Err(Overflow)
    else Ok(inv.cacheCount * POSTING_SIZE)
  }

  /** Adding postings never changes the reported memory use: it starts at 0
      and stays there. */
  lemma MemUsageUnaffected(inv: InvertedFile, tokid: nat, docId: U32, tf: U32)
    requires AddToFile(inv, tokid, docId, tf).Ok?
    ensures MemUsage(AddToFile(inv, tokid, docId, tf).value) == MemUsage(inv)
    ensures MemUsage(NewInvertedFile()) == Ok(0)
  {
  }
}
