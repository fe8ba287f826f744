/** `PTuple` of src/ptuple.rs: a (token id, document id, count) record, the
    element type the external sort runs over when an index is built. */
module PTuples {
  import opened Words
  import opened Sorting

  const USIZE_LIMIT: nat := 0x1_0000_0000_0000_0000

  type USize = x: nat | x < USIZE_LIMIT

  datatype PTuple = PTuple(tok: USize, docid: USize, count: U32)

  /** `PTuple::new`. */
  function New(tok: USize, docid: USize, count: U32): (t: PTuple)
    ensures t.tok == tok && t.docid == docid && t.count == count
  {
    PTuple(tok, docid, count)
  }

  /** The derived `Ord`: fields compared in declaration order. */
  predicate Le(a: PTuple, b: PTuple) {
    if a.tok != b.tok then a.tok < b.tok
    else if a.docid != b.docid then a.docid < b.docid
    else a.count <= b.count
  }

  /** The derived order is a total order consistent with the derived
      (field-wise) equality. */
  lemma LeIsTotalOrder()
    ensures TotalOrder(Le)
  {
    forall a: PTuple, b: PTuple | Le(a, b) && Le(b, a) ensures a == b {
    }
  }

  /** Sorting tuples groups them by token, with document ids ascending
      within each token. */
  lemma SortedGroupsByToken(s: seq<PTuple>, i: int, j: int)
    requires Sorted(s, Le) && 0 <= i < j < |s|
    ensures s[i].tok <= s[j].tok
    ensures s[i].tok == s[j].tok ==> s[i].docid <= s[j].docid
    ensures s[i].tok == s[j].tok && s[i].docid == s[j].docid ==> s[i].count <= s[j].count
  {
    assert Le(s[i], s[j]);
  }
}
