/** The id maps of src/lib.rs: `Docs` (external docid to dense 0-based
    intid), `Dict` (token to 1-based token id, plus document frequencies),
    `FeatureVec`, and the crate-level `tokenize`. */
module Mycal {
  import opened Wrappers
  import opened Text

  datatype DocInfo = DocInfo(intid: nat, docid: string, offset: nat)

  datatype Docs = Docs(m: map<string, nat>, docs: seq<DocInfo>)

  /** Intids are dense: `docs[i]` has intid `i`, and `m` is the reverse of
      `docs`. */
  ghost predicate DocsValid(d: Docs) {
    && (forall i :: 0 <= i < |d.docs| ==> d.docs[i].intid == i && d.docs[i].docid in d.m && d.m[d.docs[i].docid] == i)
    && (forall k :: k in d.m ==> d.m[k] < |d.docs| && d.docs[d.m[k]].docid == k)
  }

  /** `Docs::new`. */
  function NewDocs(): (d: Docs)
    ensures DocsValid(d) && |d.docs| == 0
  {
    Docs(map[], [])
  }

  /** `Docs::get_intid`. */
  function GetIntid(d: Docs, docid: string): (r: Option<nat>)
    ensures r.Some? <==> docid in d.m
    ensures DocsValid(d) && r.Some? ==> r.value < |d.docs| && d.docs[r.value].docid == docid
  {
    if docid in d.m then Some(d.m[docid]) else None
  }

  /** `Docs::add_doc`: a known docid keeps its intid; a new one gets the
      next dense intid, `docs.len()`, and a `DocInfo` with offset 0. */
  function AddDoc(d: Docs, docid: string): (r: (nat, Docs))
    ensures docid in d.m ==> r == (d.m[docid], d)
    ensures docid !in d.m ==>
      && r.0 == |d.docs|
      && r.1.docs == d.docs + [DocInfo(r.0, docid, 0)]
      && r.1.m == d.m[docid := r.0]
    ensures GetIntid(r.1, docid) == Some(r.0)
    ensures DocsValid(d) ==> DocsValid(r.1)
  {
    if docid in d.m then (d.m[docid], d)
    else
      var intid := |d.docs|;
      var d' := Docs(d.m[docid := intid], d.docs + [DocInfo(intid, docid, 0)]);
      assert DocsValid(d) ==> DocsValid(d') by {
        if DocsValid(d) {
          forall i | 0 <= i < |d'.docs|
            ensures d'.docs[i].intid == i && d'.docs[i].docid in d'.m && d'.m[d'.docs[i].docid] == i
          {
            if i < |d.docs| {
              assert d'.docs[i] == d.docs[i];
            }
          }
        }
      }
      (intid, d')
  }

  /** Adding a docid a second time returns the same intid and changes
      nothing. */
  lemma AddDocIdempotent(d: Docs, docid: string)
    ensures AddDoc(AddDoc(d, docid).1, docid) == AddDoc(d, docid)
  {
  }

  datatype Dict = Dict(m: map<string, nat>, df: map<nat, nat>, lastTokid: nat)

  /** Token ids are 1-based and distinct, and `last_tokid` counts the
      tokens. */
  ghost predicate DictValid(d: Dict) {
    && (forall t :: t in d.m ==> 1 <= d.m[t] <= d.lastTokid)
    && (forall t, u :: t in d.m && u in d.m && d.m[t] == d.m[u] ==> t == u)
    && |d.m| == d.lastTokid
  }

  /** `Dict::new`. */
  function NewDict(): (d: Dict)
    ensures DictValid(d) && d.lastTokid == 0 && d.df == map[]
  {
    Dict(map[], map[], 0)
  }

  /** `Dict::has_tok`. */
  function HasTok(d: Dict, tok: string): (b: bool)
    ensures b <==> GetTokid(d, tok).Some?
  {
    tok in d.m
  }

  /** `Dict::get_tokid`. */
  function GetTokid(d: Dict, tok: string): (r: Option<nat>)
    ensures r.Some? <==> tok in d.m
    ensures DictValid(d) && r.Some? ==> 1 <= r.value <= d.lastTokid
  {
    if tok in d.m then Some(d.m[tok]) else None
  }

  /** `Dict::add_tok`: a known token keeps its id; a new one gets
      `last_tokid + 1`. */
  function AddTok(d: Dict, tok: string): (r: (nat, Dict))
    ensures tok in d.m ==> r == (d.m[tok], d)
    ensures tok !in d.m ==>
      && r.0 == d.lastTokid + 1
      && r.1 == Dict(d.m[tok := r.0], d.df, r.0)
    ensures GetTokid(r.1, tok) == Some(r.0)
    ensures DictValid(d) ==> DictValid(r.1)
  {
    if tok in d.m then (d.m[tok], d)
    else
      var id := d.lastTokid + 1;
      (id, Dict(d.m[tok := id], d.df, id))
  }

  /** Adding a token a second time returns the same id and changes
      nothing. */
  lemma AddTokIdempotent(d: Dict, tok: string)
    ensures AddTok(AddTok(d, tok).1, tok) == AddTok(d, tok)
  {
  }

  /** Distinct tokens get distinct ids. */
  lemma AddTokDistinct(d: Dict, t: string, u: string)
    requires DictValid(d) && t != u
    ensures var (i, d1) := AddTok(d, t); AddTok(d1, u).0 != i
  {
  }

  /** The document frequency recorded for `tokid`, 0 when absent. */
  function Df(d: Dict, tokid: nat): nat {
    if tokid in d.df then d.df[tokid] else 0
  }

  /** `Dict::incr_df`: one more document for `tokid`, no other entry
      touched. */
  function IncrDf(d: Dict, tokid: nat): (r: Dict)
    ensures Df(r, tokid) == Df(d, tokid) + 1
    ensures forall t :: t != tokid ==> Df(r, t) == Df(d, t)
    ensures forall t :: t in r.df <==> t in d.df || t == tokid
    ensures r.m == d.m && r.lastTokid == d.lastTokid
  {
    d.(df := d.df[tokid := Df(d, tokid) + 1])
  }

  datatype FeaturePair = FeaturePair(id: nat, value: real)

  datatype FeatureVec = FeatureVec(docid: string, features: seq<FeaturePair>, squaredNorm: real)

  /** `FeatureVec::new`. */
  function NewFeatureVec(docid: string): (v: FeatureVec)
    ensures v.docid == docid && NumFeatures(v) == 0 && v.squaredNorm == 0.0
  {
    FeatureVec(docid, [], 0.0)
  }

  /** `num_features`. */
  function NumFeatures(v: FeatureVec): (n: nat)
    ensures forall i: nat :: FeatureAt(v, i).Some? <==> i < n
  {
    |v.features|
  }

  /** `feature_at`; an index past the end panics, modelled as None. */
  function FeatureAt(v: FeatureVec, i: nat): (r: Option<nat>)
    ensures r.Some? <==> i < |v.features|
    ensures r.Some? ==> r.value == v.features[i].id
  {
    if i < |v.features| then Some(v.features[i].id) else None
  }

  /** `value_at`; an index past the end panics, modelled as None. */
  function ValueAt(v: FeatureVec, i: nat): (r: Option<real>)
    ensures r.Some? <==> i < |v.features|
    ensures r.Some? ==> r.value == v.features[i].value
  {
    if i < |v.features| then Some(v.features[i].value) else None
  }

  /** `push`. */
  function Push(v: FeatureVec, id: nat, value: real): (r: FeatureVec)
    ensures r.docid == v.docid && r.squaredNorm == v.squaredNorm
  {
    v.(features := v.features + [FeaturePair(id, value)])
  }

  /** After a push there is one more feature, the new last one is the pushed
      pair, and the earlier ones read as before. */
  lemma PushThenRead(v: FeatureVec, id: nat, value: real)
    ensures NumFeatures(Push(v, id, value)) == NumFeatures(v) + 1
    ensures FeatureAt(Push(v, id, value), NumFeatures(v)) == Some(id)
    ensures ValueAt(Push(v, id, value), NumFeatures(v)) == Some(value)
    ensures forall i: nat :: i < NumFeatures(v) ==>
      FeatureAt(Push(v, id, value), i) == FeatureAt(v, i) && ValueAt(Push(v, id, value), i) == ValueAt(v, i)
  {
  }

  /** Lowercase each piece, then stem it when it is purely alphabetic. */
  function LowerAndStem(ops: TextOps, pieces: seq<string>): (r: seq<string>)
    ensures |r| == |pieces|
    ensures forall i :: 0 <= i < |r| ==> r[i] == Finish(ops, ops.lowercase(pieces[i]))
  {
    if |pieces| == 0 then [] else [Finish(ops, ops.lowercase(pieces[0]))] + LowerAndStem(ops, pieces[1..])
  }

  /** The crate-level `tokenize`: split on non-alphanumerics, keep pieces of
      at least two bytes, lowercase, stem the alphabetic ones. */
  function Tokenize(ops: TextOps, text: string): (tokens: seq<string>)
    ensures forall i :: 0 <= i < |tokens| ==>
      (exists p :: p in Split(text, ops.isAlphanumeric) && Utf8Len(p) >= 2 && Unbroken(p, ops.isAlphanumeric)
        && tokens[i] == Finish(ops, ops.lowercase(p)))
  {
    var long := Long(Split(text, ops.isAlphanumeric));
    var tokens := LowerAndStem(ops, long);
    assert forall i :: 0 <= i < |tokens| ==> long[i] in Split(text, ops.isAlphanumeric);
    tokens
  }

  lemma LowerAndStemAppend(ops: TextOps, a: seq<string>, b: seq<string>)
    ensures LowerAndStem(ops, a + b) == LowerAndStem(ops, a) + LowerAndStem(ops, b)
  {
  }

  /** Text on either side of a non-alphanumeric character is tokenized
      independently. */
  lemma TokenizeAround(ops: TextOps, a: string, c: char, b: string)
    requires !ops.isAlphanumeric(c)
    ensures Tokenize(ops, a + [c] + b) == Tokenize(ops, a) + Tokenize(ops, b)
  {
    SplitAround(a, c, b, ops.isAlphanumeric);
    LongAppend(Split(a, ops.isAlphanumeric), Split(b, ops.isAlphanumeric));
    LowerAndStemAppend(ops, Long(Split(a, ops.isAlphanumeric)), Long(Split(b, ops.isAlphanumeric)));
  }

  /** A single alphanumeric word gives one token when it has at least two
      bytes, and none otherwise. */
  lemma TokenizeWord(ops: TextOps, w: string)
    requires Unbroken(w, ops.isAlphanumeric)
    ensures Utf8Len(w) >= 2 ==> Tokenize(ops, w) == [Finish(ops, ops.lowercase(w))]
    ensures Utf8Len(w) < 2 ==> Tokenize(ops, w) == []
  {
    SplitUnbroken(w, ops.isAlphanumeric);
    assert [w][1..] == [];
  }
}
