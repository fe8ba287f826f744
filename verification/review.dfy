/** The review-loop controller of run.py and webcal-run.py: load the
    judgments for one topic, seed the training set from the top of a pool,
    then repeatedly score, look up the judgments of the returned documents,
    retrain, and decide whether to stop. The two scripts differ only in
    transport (a subprocess or an HTTP request, both reduced here to a
    success flag) and in the low-yield stopping rule, kept as two
    variants. Files hold whitespace-split lines; Python's `int()` is a
    parameter. */
module Review {
  import opened Wrappers
  import opened Seqs

  /** A whitespace-split line (`line.split()`). */
  type Fields = seq<string>

  /** The judgments: docid to relevance. */
  type Qrels = map<string, int>

  datatype RunError =
    | BadQrelsLine(i: nat)     // not four fields, or an unparsable relevance
    | BadPoolLine(i: nat)      // fewer than four fields, or an unparsable rank
    | BadStep                  // `one_step` with a step below 1
    | ScoreFailed              // `score-index` or `/score` failed
    | TrainFailed              // `mycal train` or `/train` failed
    | Duplicate(docid: string) // a scored document is already in the training set
    | EmptySeed                // `rel_seen / docs_reviewed` with nothing reviewed
    | NoRelevant               // `sum_prec / num_rel` with no relevant document
    | OutOfResponses           // the scorer was not asked often enough for the loop to stop

  // ---------------------------------------------------------------------
  // Judgments (run.py:97-104, webcal-run.py:95-102)
  // ---------------------------------------------------------------------

  /** A qrels line the loader accepts: four fields, and when the topic
      matches, a relevance `int()` can read. */
  predicate QrelsLineOk(f: Fields, topic: string, parseInt: string -> Option<int>) {
    |f| == 4 && (f[0] == topic ==> parseInt(f[3]).Some?)
  }

  /** A qrels line for this topic. */
  predicate ForTopic(f: Fields, topic: string) {
    |f| == 4 && f[0] == topic
  }

  /** No later line of the topic judges the same document as line `i`. */
  ghost predicate LastFor(lines: seq<Fields>, topic: string, i: nat)
    requires i < |lines| && ForTopic(lines[i], topic)
  {
    forall j :: i < j < |lines| && ForTopic(lines[j], topic) ==> lines[j][2] != lines[i][2]
  }

  /** One line of the judgments loop: None when it raises. Lines of other
      topics are skipped; a later judgment of a document replaces an
      earlier one. */
  function QrelsLine(m: Qrels, f: Fields, topic: string, parseInt: string -> Option<int>): (r: Option<Qrels>)
    ensures r.Some? <==> QrelsLineOk(f, topic, parseInt)
  {
    if |f| != 4 then None
    else if f[0] != topic then Some(m)
    else match parseInt(f[3])
      case None => None
      case Some(v) => Some(m[f[2] := v])
  }

  /** The judgments loop; the first malformed line raises. */
  function LoadQrels(lines: seq<Fields>, topic: string, parseInt: string -> Option<int>): (r: Result<Qrels, RunError>)
    ensures r.Ok? <==> forall i :: 0 <= i < |lines| ==> QrelsLineOk(lines[i], topic, parseInt)
    decreases |lines|
  {
    if |lines| == 0 then Ok(map[])
    else
      var n := |lines| - 1;
      assert forall i :: 0 <= i < n ==> lines[..n][i] == lines[i];
      var m :- LoadQrels(lines[..n], topic, parseInt);
      match QrelsLine(m, lines[n], topic, parseInt)
      case None => Err(BadQrelsLine(n))
      case Some(m') => Ok(m')
  }

  /** The error names the first malformed line. */
  lemma {:induction false} LoadQrelsFirstError(lines: seq<Fields>, topic: string, parseInt: string -> Option<int>)
    requires LoadQrels(lines, topic, parseInt).Err?
    ensures exists i :: (&& 0 <= i < |lines| && LoadQrels(lines, topic, parseInt).error == BadQrelsLine(i)
                         && !QrelsLineOk(lines[i], topic, parseInt)
                         && forall j :: 0 <= j < i ==> QrelsLineOk(lines[j], topic, parseInt))
    decreases |lines|
  {
    var n := |lines| - 1;
    var prefix := lines[..n];
    assert forall i :: 0 <= i < n ==> prefix[i] == lines[i];
    if LoadQrels(prefix, topic, parseInt).Err? {
      LoadQrelsFirstError(prefix, topic, parseInt);
    } else {
      assert !QrelsLineOk(lines[n], topic, parseInt);
    }
  }

  /** The judged documents are those named on a line of the topic. */
  lemma {:induction false} LoadQrelsKeys(lines: seq<Fields>, topic: string, parseInt: string -> Option<int>, d: string)
    requires LoadQrels(lines, topic, parseInt).Ok?
    ensures d in LoadQrels(lines, topic, parseInt).value <==>
      exists i :: 0 <= i < |lines| && ForTopic(lines[i], topic) && lines[i][2] == d
    decreases |lines|
  {
    if |lines| > 0 {
      var n := |lines| - 1;
      var prefix := lines[..n];
      assert forall i :: 0 <= i < n ==> prefix[i] == lines[i];
      LoadQrelsKeys(prefix, topic, parseInt, d);
      if (exists i :: 0 <= i < |lines| && ForTopic(lines[i], topic) && lines[i][2] == d) {
        var i :| 0 <= i < |lines| && ForTopic(lines[i], topic) && lines[i][2] == d;
        if i < n {
          assert ForTopic(prefix[i], topic) && prefix[i][2] == d;
        }
      }
    }
  }

  /** The last judgment of a document is the one kept. */
  lemma {:induction false} LoadQrelsLastWins(lines: seq<Fields>, topic: string, parseInt: string -> Option<int>, i: nat)
    requires LoadQrels(lines, topic, parseInt).Ok?
    requires i < |lines| && ForTopic(lines[i], topic) && LastFor(lines, topic, i)
    ensures lines[i][2] in LoadQrels(lines, topic, parseInt).value
    ensures LoadQrels(lines, topic, parseInt).value[lines[i][2]] == parseInt(lines[i][3]).value
    decreases |lines|
  {
    var n := |lines| - 1;
    var prefix := lines[..n];
    assert forall k :: 0 <= k < n ==> prefix[k] == lines[k];
    if i < n {
      assert LastFor(prefix, topic, i);
      LoadQrelsLastWins(prefix, topic, parseInt, i);
    }
  }

  /** `num_rel`: the documents judged relevant. */
  function NumRel(q: Qrels): nat {
    |set d | d in q && q[d] > 0|
  }

  /** The judgment of a document, 0 when unjudged. */
  function Label(q: Qrels, docid: string): int {
    if docid in q then q[docid] else 0
  }

  // ---------------------------------------------------------------------
  // Training sets
  // ---------------------------------------------------------------------

  /** A training-file line `topic 0 docid rel`; the topic is always the
      run's own. */
  datatype Entry = Entry(docid: string, rel: int)

  /** The documents of a training set. */
  function Ids(train: seq<Entry>): set<string> {
    set k | 0 <= k < |train| :: train[k].docid
  }

  ghost predicate DistinctIds(train: seq<Entry>) {
    forall i, j :: 0 <= i < j < |train| ==> train[i].docid != train[j].docid
  }

  /** How many entries are judged relevant. */
  function Positives(train: seq<Entry>): (n: nat)
    ensures n <= |train|
  {
    if |train| == 0 then 0 else (if train[0].rel > 0 then 1 else 0) + Positives(train[1..])
  }

  lemma {:induction false} PositivesAppend(a: seq<Entry>, b: seq<Entry>)
    ensures Positives(a + b) == Positives(a) + Positives(b)
  {
    if |a| == 0 {
      assert a + b == b;
    } else {
      assert (a + b)[1..] == a[1..] + b;
      PositivesAppend(a[1..], b);
    }
  }

  // ---------------------------------------------------------------------
  // Seeding (`do_initial_training`, run.py:109-131)
  // ---------------------------------------------------------------------

  /** A pool line `split(maxsplit=3)` can unpack, with a readable rank
      when the topic matches. */
  predicate PoolLineOk(f: Fields, topic: string, parseInt: string -> Option<int>) {
    |f| >= 4 && (f[0] == topic ==> parseInt(f[2]).Some?)
  }

  /** A pool line of this topic ranked at most `trainRank`. */
  predicate Selected(f: Fields, topic: string, trainRank: int, parseInt: string -> Option<int>) {
    |f| >= 4 && f[0] == topic && parseInt(f[2]).Some? && parseInt(f[2]).value <= trainRank
  }

  /** The documents of a training set gain the one appended. */
  lemma IdsAppend(train: seq<Entry>, e: Entry)
    ensures Ids(train + [e]) == Ids(train) + {e.docid}
  {
    var t := train + [e];
    assert forall k :: 0 <= k < |train| ==> t[k] == train[k];
    assert t[|train|] == e;
  }

  /** One pool line of the seeding loop: None when it raises. A selected
      line appends its document with its judgment, or 0. */
  function PoolLine(train: seq<Entry>, f: Fields, topic: string, trainRank: int, q: Qrels,
                    parseInt: string -> Option<int>): (r: Option<seq<Entry>>)
    ensures r.Some? <==> PoolLineOk(f, topic, parseInt)
    ensures r.Some? && Selected(f, topic, trainRank, parseInt) ==> r.value == train + [Entry(f[1], Label(q, f[1]))]
    ensures r.Some? && !Selected(f, topic, trainRank, parseInt) ==> r.value == train
  {
    if |f| < 4 then None
    else if f[0] != topic then Some(train)
    else match parseInt(f[2])
      case None => None
      case Some(rank) => if rank > trainRank then Some(train) else Some(train + [Entry(f[1], Label(q, f[1]))])
  }

  /** The seed training set, and the first malformed pool line raises. */
  function Seed(pool: seq<Fields>, topic: string, trainRank: int, q: Qrels, parseInt: string -> Option<int>)
    : (r: Result<seq<Entry>, RunError>)
    ensures r.Ok? <==> forall i :: 0 <= i < |pool| ==> PoolLineOk(pool[i], topic, parseInt)
    ensures r.Ok? ==> forall k :: 0 <= k < |r.value| ==> r.value[k].rel == Label(q, r.value[k].docid)
    decreases |pool|
  {
    if |pool| == 0 then Ok([])
    else
      var n := |pool| - 1;
      assert forall i :: 0 <= i < n ==> pool[..n][i] == pool[i];
      var train :- Seed(pool[..n], topic, trainRank, q, parseInt);
      match PoolLine(train, pool[n], topic, trainRank, q, parseInt)
      case None => Err(BadPoolLine(n))
      case Some(t) => Ok(t)
  }

  /** The seed holds exactly the documents of the selected pool lines. */
  lemma {:induction false} SeedIds(pool: seq<Fields>, topic: string, trainRank: int, q: Qrels,
                                   parseInt: string -> Option<int>, d: string)
    requires Seed(pool, topic, trainRank, q, parseInt).Ok?
    ensures d in Ids(Seed(pool, topic, trainRank, q, parseInt).value) <==>
      exists i :: 0 <= i < |pool| && Selected(pool[i], topic, trainRank, parseInt) && pool[i][1] == d
    decreases |pool|
  {
    if |pool| > 0 {
      var n := |pool| - 1;
      var prefix := pool[..n];
      assert forall i :: 0 <= i < n ==> prefix[i] == pool[i];
      SeedIds(prefix, topic, trainRank, q, parseInt, d);
      var train := Seed(prefix, topic, trainRank, q, parseInt).value;
      if Selected(pool[n], topic, trainRank, parseInt) {
        IdsAppend(train, Entry(pool[n][1], Label(q, pool[n][1])));
      }
      if (exists i :: 0 <= i < |pool| && Selected(pool[i], topic, trainRank, parseInt) && pool[i][1] == d) {
        var i :| 0 <= i < |pool| && Selected(pool[i], topic, trainRank, parseInt) && pool[i][1] == d;
        if i < n {
          assert Selected(prefix[i], topic, trainRank, parseInt) && prefix[i][1] == d;
        }
      }
    }
  }

  /** Seeding keeps file order: two pools seed the concatenation of their
      seeds. */
  lemma {:induction false} SeedAppend(a: seq<Fields>, b: seq<Fields>, topic: string, trainRank: int, q: Qrels,
                                      parseInt: string -> Option<int>)
    requires Seed(a, topic, trainRank, q, parseInt).Ok? && Seed(b, topic, trainRank, q, parseInt).Ok?
    ensures Seed(a + b, topic, trainRank, q, parseInt)
      == Ok(Seed(a, topic, trainRank, q, parseInt).value + Seed(b, topic, trainRank, q, parseInt).value)
    decreases |b|
  {
    if |b| == 0 {
      assert a + b == a;
      assert Seed(a, topic, trainRank, q, parseInt).value + [] == Seed(a, topic, trainRank, q, parseInt).value;
    } else {
      var n := |b| - 1;
      var b', f := b[..n], b[n];
      SnocSplit(a, b);
      assert PoolLineOk(f, topic, parseInt);
      SeedOkPrefix(b, n, topic, trainRank, q, parseInt);
      SeedAppend(a, b', topic, trainRank, q, parseInt);
      SeedSnoc(a + b', f, topic, trainRank, q, parseInt);
      SeedSnoc(b', f, topic, trainRank, q, parseInt);
      var sa := Seed(a, topic, trainRank, q, parseInt).value;
      var sb' := Seed(b', topic, trainRank, q, parseInt).value;
      var added := if Selected(f, topic, trainRank, parseInt) then [Entry(f[1], Label(q, f[1]))] else [];
      AppendAssoc(sa, sb', added);
    }
  }

  /** A pool that seeds has prefixes that seed. */
  lemma SeedOkPrefix(pool: seq<Fields>, n: nat, topic: string, trainRank: int, q: Qrels,
                     parseInt: string -> Option<int>)
    requires n <= |pool| && Seed(pool, topic, trainRank, q, parseInt).Ok?
    ensures Seed(pool[..n], topic, trainRank, q, parseInt).Ok?
  {
    assert forall i :: 0 <= i < n ==> pool[..n][i] == pool[i];
  }

  /** One more pool line appends what that line selects. */
  lemma SeedSnoc(pool: seq<Fields>, f: Fields, topic: string, trainRank: int, q: Qrels,
                 parseInt: string -> Option<int>)
    requires Seed(pool, topic, trainRank, q, parseInt).Ok? && PoolLineOk(f, topic, parseInt)
    ensures Seed(pool + [f], topic, trainRank, q, parseInt)
      == Ok(Seed(pool, topic, trainRank, q, parseInt).value
            + if Selected(f, topic, trainRank, parseInt) then [Entry(f[1], Label(q, f[1]))] else [])
  {
    var p := pool + [f];
    assert p[..|pool|] == pool;
    assert p[|pool|] == f;
    assert Seed(pool, topic, trainRank, q, parseInt).value + [] == Seed(pool, topic, trainRank, q, parseInt).value;
  }

  // ---------------------------------------------------------------------
  // Re-reading the training file (`train = {}` ... `train[docid] = rel`)
  // ---------------------------------------------------------------------

  /** Put `e` into a dict-ordered training set: a known document keeps its
      place and takes the new label, a new one goes at the end. */
  function Put(train: seq<Entry>, e: Entry): (r: seq<Entry>)
    ensures Ids(r) == Ids(train) + {e.docid}
    ensures e.docid !in Ids(train) ==> r == train + [e]
    ensures e.docid in Ids(train) ==>
      (|r| == |train| && forall k :: 0 <= k < |train| ==> r[k] == (if train[k].docid == e.docid then e else train[k]))
    ensures DistinctIds(train) ==> DistinctIds(r)
    ensures e in r
  {
    if e.docid in Ids(train) then
      var r := seq(|train|, k requires 0 <= k < |train| => if train[k].docid == e.docid then e else train[k]);
      assert Ids(r) == Ids(train) by {
        forall d | d in Ids(train) ensures d in Ids(r) {
          var k :| 0 <= k < |train| && train[k].docid == d;
          assert r[k].docid == d;
        }
      }
      var k :| 0 <= k < |train| && train[k].docid == e.docid;
      assert r[k] == e;
      r
    else
      IdsAppend(train, e);
      var r := train + [e];
      assert r[|train|] == e;
      r
  }

  /** Reading a training file into a Python dict: first position, last
      label. */
  function ReadTrain(lines: seq<Entry>): (r: seq<Entry>)
    ensures Ids(r) == Ids(lines)
    ensures DistinctIds(r)
    decreases |lines|
  {
    if |lines| == 0 then []
    else
      var n := |lines| - 1;
      assert Ids(lines) == Ids(lines[..n]) + {lines[n].docid} by {
        assert forall k :: 0 <= k < n ==> lines[..n][k] == lines[k];
      }
      Put(ReadTrain(lines[..n]), lines[n])
  }

  /** A training file without repeated documents reads back unchanged. */
  lemma {:induction false} ReadTrainDistinct(lines: seq<Entry>)
    requires DistinctIds(lines)
    ensures ReadTrain(lines) == lines
    decreases |lines|
  {
    if |lines| > 0 {
      var n := |lines| - 1;
      var prefix := lines[..n];
      var e := lines[n];
      DistinctLast(lines);
      ReadTrainDistinct(prefix);
      ReadTrainSnoc(prefix, e);
      assert prefix + [e] == lines;
    }
  }

  /** A line naming a new document is appended to what was read. */
  lemma ReadTrainSnoc(prefix: seq<Entry>, e: Entry)
    requires ReadTrain(prefix) == prefix && e.docid !in Ids(prefix)
    ensures ReadTrain(prefix + [e]) == prefix + [e]
  {
    var lines := prefix + [e];
    assert lines[..|lines| - 1] == prefix;
    assert ReadTrain(lines) == Put(ReadTrain(prefix), e);
  }

  /** Without repeats, the lines before the last have none either, and do
      not name the last line's document. */
  lemma DistinctLast(lines: seq<Entry>)
    requires |lines| > 0 && DistinctIds(lines)
    ensures DistinctIds(lines[..|lines| - 1])
    ensures lines[|lines| - 1].docid !in Ids(lines[..|lines| - 1])
  {
    var n := |lines| - 1;
    var prefix := lines[..n];
    forall i, j | 0 <= i < j < n ensures prefix[i].docid != prefix[j].docid {
      assert prefix[i] == lines[i] && prefix[j] == lines[j];
    }
    forall k | 0 <= k < n ensures prefix[k].docid != lines[n].docid {
      assert prefix[k] == lines[k];
    }
  }

  /** The last label written for a document is the one read back. */
  lemma {:induction false} ReadTrainLastWins(lines: seq<Entry>, i: nat)
    requires i < |lines|
    requires forall j :: i < j < |lines| ==> lines[j].docid != lines[i].docid
    ensures lines[i] in ReadTrain(lines)
    decreases |lines|
  {
    var n := |lines| - 1;
    if i < n {
      var prefix := lines[..n];
      assert forall j :: i < j < n ==> prefix[j] == lines[j];
      ReadTrainLastWins(prefix, i);
      var prev := ReadTrain(prefix);
      var k :| 0 <= k < |prev| && prev[k] == lines[i];
      PutKeepsOthers(prev, lines[n], k);
    }
  }

  /** Putting one document leaves the entries of the others alone. */
  lemma PutKeepsOthers(train: seq<Entry>, e: Entry, k: nat)
    requires k < |train| && train[k].docid != e.docid
    ensures k < |Put(train, e)| && Put(train, e)[k] == train[k]
  {
    if e.docid !in Ids(train) {
      assert Put(train, e) == train + [e];
    }
  }

  // ---------------------------------------------------------------------
  // One step (`one_step`, run.py:136-192, webcal-run.py:138-200)
  // ---------------------------------------------------------------------

  /** No returned document is already in the training set or returned
      twice. */
  ghost predicate Fresh(train: seq<Entry>, scored: seq<string>) {
    && (forall k :: 0 <= k < |scored| ==> scored[k] !in Ids(train))
    && (forall i, j :: 0 <= i < j < |scored| ==> scored[i] != scored[j])
  }

  /** The judged entries for the returned documents, in scored order. */
  function Judged(q: Qrels, scored: seq<string>): (r: seq<Entry>)
    ensures |r| == |scored|
    ensures forall k :: 0 <= k < |r| ==> r[k] == Entry(scored[k], Label(q, scored[k]))
  {
    if |scored| == 0 then [] else [Entry(scored[0], Label(q, scored[0]))] + Judged(q, scored[1..])
  }

  /** The loop over the scored documents: each is checked against the
      training set so far (which by then holds the earlier returns), then
      appended with its judgment. Returns the grown set and
      `rel_seen_this_step`. */
  function Absorb(train: seq<Entry>, q: Qrels, scored: seq<string>): (r: Result<(seq<Entry>, nat), RunError>)
    ensures r.Ok? ==> r.value.0 == train + Judged(q, scored) && r.value.1 == Positives(Judged(q, scored))
    ensures r.Err? ==> r.error.Duplicate? && r.error.docid in scored
    decreases |scored|
  {
    if |scored| == 0 then Ok((train, 0))
    else if scored[0] in Ids(train) then Err(Duplicate(scored[0]))
    else
      var e := Entry(scored[0], Label(q, scored[0]));
      var rest :- Absorb(train + [e], q, scored[1..]);
      JudgedCons(q, scored, train);
      Ok((rest.0, (if e.rel > 0 then 1 else 0) + rest.1))
  }

  lemma JudgedCons(q: Qrels, scored: seq<string>, train: seq<Entry>)
    requires |scored| > 0
    ensures var e := Entry(scored[0], Label(q, scored[0]));
      && train + Judged(q, scored) == (train + [e]) + Judged(q, scored[1..])
      && Positives(Judged(q, scored)) == (if e.rel > 0 then 1 else 0) + Positives(Judged(q, scored[1..]))
  {
    var e := Entry(scored[0], Label(q, scored[0]));
    var r := Judged(q, scored);
    assert r[1..] == Judged(q, scored[1..]);
    assert r == [e] + Judged(q, scored[1..]);
    assert (train + [e]) + Judged(q, scored[1..]) == train + ([e] + Judged(q, scored[1..]));
  }

  /** The step aborts exactly when some returned document is not fresh. */
  lemma {:induction false} AbsorbOkIffFresh(train: seq<Entry>, q: Qrels, scored: seq<string>)
    ensures Absorb(train, q, scored).Ok? <==> Fresh(train, scored)
    decreases |scored|
  {
    if |scored| > 0 {
      var e := Entry(scored[0], Label(q, scored[0]));
      var t := train + [e];
      AbsorbOkIffFresh(t, q, scored[1..]);
      IdsAppend(train, e);
      if Fresh(train, scored) {
        assert Fresh(t, scored[1..]) by {
          forall k | 0 <= k < |scored[1..]| ensures scored[1..][k] !in Ids(t) {
            assert scored[1..][k] == scored[k + 1];
          }
        }
      }
    }
  }

  /** The controller's counters. `train` is the content of the latest
      training file. */
  datatype RunState = RunState(
    train: seq<Entry>,
    docsReviewed: nat,
    relSeen: nat,
    relSeenAfterTraining: nat,
    zeroSteps: nat,
    sumPrec: real,
    step: nat)

  /** What the environment hands one step: whether scoring worked, the
      returned docids in rank order (scores are not used), and whether
      retraining worked. */
  datatype StepResponse = StepResponse(scoreOk: bool, scored: seq<string>, trainOk: bool)

  /** `one_step(step)`: read the previous training file, score, judge and
      count the returned documents, write and train on the new set. Gives
      the new state and `rel_seen_this_step`. */
  function Step(st: RunState, step: int, q: Qrels, resp: StepResponse): (r: Result<(RunState, nat), RunError>)
    ensures step < 1 ==> r == Err(BadStep)
    ensures step >= 1 && !resp.scoreOk ==> r == Err(ScoreFailed)
    ensures step >= 1 && resp.scoreOk ==> (Absorb(ReadTrain(st.train), q, resp.scored).Err? ==> r.Err? && r.error.Duplicate?)
    ensures step >= 1 && resp.scoreOk && Absorb(ReadTrain(st.train), q, resp.scored).Ok? && !resp.trainOk ==>
      r == Err(TrainFailed)
    ensures r.Ok? ==> var (st', newRel) := r.value;
      && st'.train == ReadTrain(st.train) + Judged(q, resp.scored)
      && newRel == Positives(Judged(q, resp.scored)) && newRel <= |resp.scored|
      && st'.docsReviewed == st.docsReviewed + |resp.scored|
      && st'.relSeen == st.relSeen + newRel
      && st'.relSeenAfterTraining == st.relSeenAfterTraining + newRel
      && st'.zeroSteps == (if newRel > 0 then 0 else st.zeroSteps + 1)
      && st'.sumPrec == st.sumPrec && st'.step == step
  {
    if step - 1 < 0 then Err(BadStep)
    else if !resp.scoreOk then Err(ScoreFailed)
    else
      var (train, newRel) :- Absorb(ReadTrain(st.train), q, resp.scored);
      if !resp.trainOk then Err(TrainFailed)
      else
        Ok((RunState(
              train,
              st.docsReviewed + |resp.scored|,
              st.relSeen + newRel,
              st.relSeenAfterTraining + newRel,
              if newRel == 0 then st.zeroSteps + 1 else 0,
              st.sumPrec,
              step),
            newRel))
  }

  // ---------------------------------------------------------------------
  // Stopping (run.py:200-225, webcal-run.py:208-233)
  // ---------------------------------------------------------------------

  datatype Variant = RunPy | Webcal

  datatype Config = Config(
    topic: string,
    trainRank: int,
    relstop: bool,
    maxSteps: Option<int>,
    failOut: bool,
    zeroSteps: Option<int>,
    variant: Variant)

  datatype StopReason = AllFound | MaxSteps | HighYield | LowYield | NoProgress

  /** `if not max_steps: max_steps = len(qrels)`: unset and 0 both mean
      the number of judged documents. */
  function EffectiveMaxSteps(cfg: Config, q: Qrels): (m: int)
    ensures cfg.maxSteps.Some? && cfg.maxSteps.value != 0 ==> m == cfg.maxSteps.value
    ensures cfg.maxSteps.None? || cfg.maxSteps.value == 0 ==> m == |q|
  {
    if cfg.maxSteps.None? || cfg.maxSteps.value == 0 then |q| else cfg.maxSteps.value
  }

  /** The low-yield test: run.py stops when more than three relevant
      documents came in this step and more than 40% of the reviewed ones
      are relevant; webcal-run.py when fewer than three came in and less
      than 40% are. Ratios are compared by cross-multiplication. */
  predicate LowYieldTest(v: Variant, newRel: nat, relSeen: nat, docs: nat) {
    match v
    case RunPy => newRel > 3 && 5 * relSeen > 2 * docs
    case Webcal => newRel < 3 && 5 * relSeen < 2 * docs
  }

  /** Whether the stopping criterion `c` holds, taken on its own. */
  predicate Holds(c: StopReason, st: RunState, newRel: nat, cfg: Config, maxSteps: int, numRel: nat) {
    match c
    case AllFound => cfg.relstop && st.relSeen >= numRel
    case MaxSteps => maxSteps != 0 && st.step >= maxSteps
    case HighYield => cfg.failOut && st.docsReviewed > 300 && 2 * st.relSeen > st.docsReviewed
    case LowYield => cfg.failOut && st.docsReviewed > 150 && LowYieldTest(cfg.variant, newRel, st.relSeen, st.docsReviewed)
    case NoProgress => cfg.zeroSteps.Some? && cfg.zeroSteps.value != 0 && st.zeroSteps > cfg.zeroSteps.value
  }

  /** Position of a criterion in the order the loop checks them. */
  function Rank(c: StopReason): nat {
    match c
    case AllFound => 0
    case MaxSteps => 1
    case HighYield => 2
    case LowYield => 3
    case NoProgress => 4
  }

  /** The checks after a step: the first criterion that holds, in the
      order the loop tests them, or none. */
  function Stop(st: RunState, newRel: nat, cfg: Config, maxSteps: int, numRel: nat): (r: Option<StopReason>)
    ensures r.Some? ==> Holds(r.value, st, newRel, cfg, maxSteps, numRel)
    ensures r.Some? ==> forall c :: Rank(c) < Rank(r.value) ==> !Holds(c, st, newRel, cfg, maxSteps, numRel)
    ensures r.None? ==> forall c :: !Holds(c, st, newRel, cfg, maxSteps, numRel)
  {
    if cfg.relstop && st.relSeen >= numRel then Some(AllFound)
    else if maxSteps != 0 && st.step >= maxSteps then Some(MaxSteps)
    else if cfg.failOut && st.docsReviewed > 300 && 2 * st.relSeen > st.docsReviewed then Some(HighYield)
    else if cfg.failOut && st.docsReviewed > 150 && LowYieldTest(cfg.variant, newRel, st.relSeen, st.docsReviewed)
    then Some(LowYield)
    else if cfg.zeroSteps.Some? && cfg.zeroSteps.value != 0 && st.zeroSteps > cfg.zeroSteps.value then Some(NoProgress)
    else None
  }

  /** The two scripts' low-yield tests never agree on stopping. */
  lemma LowYieldOpposite(newRel: nat, relSeen: nat, docs: nat)
    ensures !(LowYieldTest(RunPy, newRel, relSeen, docs) && LowYieldTest(Webcal, newRel, relSeen, docs))
  {
  }

  /** run.py's low-yield stop needs at least four relevant documents in one
      step, so it cannot fire when fewer than four are scored per step. */
  lemma RunPyLowYieldNeedsFour(st: RunState, step: int, q: Qrels, resp: StepResponse)
    requires Step(st, step, q, resp).Ok? && |resp.scored| <= 3
    ensures forall rel, docs :: !LowYieldTest(RunPy, Step(st, step, q, resp).value.1, rel, docs)
  {
  }

  // ---------------------------------------------------------------------
  // The run (`__main__`, run.py:194-225)
  // ---------------------------------------------------------------------

  /** The precision added to `sum_prec` after a step that found something. */
  function Precision(st: RunState): real
    requires st.docsReviewed > 0
  {
    st.relSeen as real / st.docsReviewed as real
  }

  /** How a run ends: the final state, the last step's
      `rel_seen_this_step`, and the criterion that stopped it. */
  datatype Outcome = Outcome(state: RunState, lastNewRel: nat, reason: StopReason)

  /** A step of the main loop: `one_step`, then `sum_prec` gains the
      current precision when the step found something, and only then. */
  function AfterStep(st: RunState, q: Qrels, resp: StepResponse): (r: Result<(RunState, nat), RunError>)
    requires st.docsReviewed > 0
    ensures r.Ok? ==> var (st', newRel) := r.value;
      && Step(st, st.step + 1, q, resp) == Ok((st'.(sumPrec := st.sumPrec), newRel))
      && st'.docsReviewed > 0
      && st'.sumPrec == st.sumPrec + (if newRel > 0 then Precision(st') else 0.0)
    ensures r.Err? <==> Step(st, st.step + 1, q, resp).Err?
  {
    var (st1, newRel) :- Step(st, st.step + 1, q, resp);
    if newRel > 0 then Ok((st1.(sumPrec := st1.sumPrec + Precision(st1)), newRel)) else Ok((st1, newRel))
  }

  /** The main loop, one response per step: a step, then the stopping
      criteria. */
  function Loop(st: RunState, cfg: Config, q: Qrels, maxSteps: int, numRel: nat, responses: seq<StepResponse>)
    : (r: Result<Outcome, RunError>)
    requires st.docsReviewed > 0
    ensures r.Ok? ==> r.value.state.step > st.step
    ensures r.Ok? ==> Holds(r.value.reason, r.value.state, r.value.lastNewRel, cfg, maxSteps, numRel)
    ensures r.Ok? ==> Stop(r.value.state, r.value.lastNewRel, cfg, maxSteps, numRel) == Some(r.value.reason)
    ensures r.Ok? && maxSteps != 0 ==>
      r.value.state.step <= if maxSteps > st.step then maxSteps else st.step + 1
    ensures r.Ok? && maxSteps > st.step && r.value.reason == MaxSteps ==> r.value.state.step == maxSteps
    decreases |responses|
  {
    if |responses| == 0 then Err(OutOfResponses)
    else
      var (st', newRel) :- AfterStep(st, q, responses[0]);
      match Stop(st', newRel, cfg, maxSteps, numRel)
      case Some(reason) => Ok(Outcome(st', newRel, reason))
      case None => Loop(st', cfg, q, maxSteps, numRel, responses[1..])
  }

  /** The whole run: load judgments, seed and train, score the seed
      (`sum_prec`, then the AP print that divides by `num_rel`), then loop.
      At least one step always runs. */
  function Run(cfg: Config, qrelsLines: seq<Fields>, pool: seq<Fields>, parseInt: string -> Option<int>,
               seedTrainOk: bool, responses: seq<StepResponse>)
    : (r: Result<Outcome, RunError>)
    ensures r.Ok? ==> r.value.state.step >= 1
    ensures LoadQrels(qrelsLines, cfg.topic, parseInt).Err? ==> r == Err(LoadQrels(qrelsLines, cfg.topic, parseInt).error)
    ensures r.Ok? ==>
      && LoadQrels(qrelsLines, cfg.topic, parseInt).Ok?
      && var q := LoadQrels(qrelsLines, cfg.topic, parseInt).value;
      && seedTrainOk && NumRel(q) > 0
      && Seed(pool, cfg.topic, cfg.trainRank, q, parseInt).Ok?
      && |Seed(pool, cfg.topic, cfg.trainRank, q, parseInt).value| > 0
      && Holds(r.value.reason, r.value.state, r.value.lastNewRel, cfg, EffectiveMaxSteps(cfg, q), NumRel(q))
      && Stop(r.value.state, r.value.lastNewRel, cfg, EffectiveMaxSteps(cfg, q), NumRel(q)) == Some(r.value.reason)
      && (EffectiveMaxSteps(cfg, q) != 0 ==>
            r.value.state.step <= if EffectiveMaxSteps(cfg, q) > 0 then EffectiveMaxSteps(cfg, q) else 1)
      && (EffectiveMaxSteps(cfg, q) > 0 && r.value.reason == MaxSteps ==> r.value.state.step == EffectiveMaxSteps(cfg, q))
  {
    var q :- LoadQrels(qrelsLines, cfg.topic, parseInt);
    var train :- Seed(pool, cfg.topic, cfg.trainRank, q, parseInt);
    if !seedTrainOk then Err(TrainFailed)
    else if |train| == 0 then Err(EmptySeed)
    else if NumRel(q) == 0 then Err(NoRelevant)
    else
      var relSeen := Positives(train);
      var st0 := RunState(train, |train|, relSeen, 0, 0, relSeen as real / |train| as real, 0);
      Loop(st0, cfg, q, EffectiveMaxSteps(cfg, q), NumRel(q), responses)
  }

  // ---------------------------------------------------------------------
  // rel_seen never exceeds num_rel
  // ---------------------------------------------------------------------

  /** What the counters mean: the training set has no repeated document,
      each entry carries its judgment, `rel_seen` counts the relevant
      entries and `docs_reviewed` all of them. */
  ghost predicate Consistent(st: RunState, q: Qrels) {
    && DistinctIds(st.train)
    && (forall k :: 0 <= k < |st.train| ==> st.train[k].rel == Label(q, st.train[k].docid))
    && st.relSeen == Positives(st.train)
    && st.docsReviewed == |st.train|
  }

  /** Fresh documents keep the training set free of repeats. */
  lemma AppendFresh(train: seq<Entry>, q: Qrels, scored: seq<string>)
    requires DistinctIds(train) && Fresh(train, scored)
    ensures DistinctIds(train + Judged(q, scored))
  {
    var t := train + Judged(q, scored);
    forall i, j | 0 <= i < j < |t| ensures t[i].docid != t[j].docid {
      if j >= |train| && i < |train| {
        assert t[j].docid == scored[j - |train|];
        assert t[i].docid in Ids(train);
      }
    }
  }

  /** A step that succeeds keeps the counters meaningful. */
  lemma StepConsistent(st: RunState, step: int, q: Qrels, resp: StepResponse)
    requires Consistent(st, q) && Step(st, step, q, resp).Ok?
    ensures Consistent(Step(st, step, q, resp).value.0, q)
  {
    ReadTrainDistinct(st.train);
    AbsorbOkIffFresh(st.train, q, resp.scored);
    var (st', newRel) := Step(st, step, q, resp).value;
    ConsistentAppend(st, q, resp.scored, st'.train, newRel);
  }

  /** Appending the judged entries for fresh documents, and counting them,
      keeps the counters meaningful. */
  lemma ConsistentAppend(st: RunState, q: Qrels, scored: seq<string>, train': seq<Entry>, newRel: nat)
    requires Consistent(st, q) && Fresh(st.train, scored)
    requires train' == st.train + Judged(q, scored) && newRel == Positives(Judged(q, scored))
    ensures DistinctIds(train')
    ensures forall k :: 0 <= k < |train'| ==> train'[k].rel == Label(q, train'[k].docid)
    ensures st.relSeen + newRel == Positives(train')
    ensures st.docsReviewed + |scored| == |train'|
  {
    AppendFresh(st.train, q, scored);
    PositivesAppend(st.train, Judged(q, scored));
    LabelsAppend(st.train, q, scored);
  }

  /** Judged entries carry their judgments, so appending them keeps every
      entry's label. */
  lemma LabelsAppend(train: seq<Entry>, q: Qrels, scored: seq<string>)
    requires forall k :: 0 <= k < |train| ==> train[k].rel == Label(q, train[k].docid)
    ensures var t := train + Judged(q, scored);
      forall k :: 0 <= k < |t| ==> t[k].rel == Label(q, t[k].docid)
  {
    var j := Judged(q, scored);
    var t := train + j;
    forall k | 0 <= k < |t| ensures t[k].rel == Label(q, t[k].docid) {
      if k < |train| {
        assert t[k] == train[k];
      } else {
        assert t[k] == j[k - |train|];
      }
    }
  }

  /** The documents of the relevant entries. */
  function RelevantIds(train: seq<Entry>): set<string> {
    set k | 0 <= k < |train| && train[k].rel > 0 :: train[k].docid
  }

  lemma {:induction false} PositivesAreRelevantIds(train: seq<Entry>)
    requires DistinctIds(train)
    ensures Positives(train) == |RelevantIds(train)|
  {
    if |train| > 0 {
      var rest := train[1..];
      assert DistinctIds(rest) by {
        forall i, j | 0 <= i < j < |rest| ensures rest[i].docid != rest[j].docid {
          assert rest[i] == train[i + 1] && rest[j] == train[j + 1];
        }
      }
      PositivesAreRelevantIds(rest);
      RelevantIdsCons(train);
      HeadNotRelevantLater(train);
    }
  }

  /** The relevant documents of a training set: its head's, if relevant,
      and its tail's. */
  lemma RelevantIdsCons(train: seq<Entry>)
    requires |train| > 0
    ensures RelevantIds(train)
         == (if train[0].rel > 0 then {train[0].docid} else {}) + RelevantIds(train[1..])
  {
    var rest := train[1..];
    forall d | d in RelevantIds(train)
      ensures d in (if train[0].rel > 0 then {train[0].docid} else {}) + RelevantIds(rest)
    {
      var k :| 0 <= k < |train| && train[k].rel > 0 && train[k].docid == d;
      if k > 0 {
        assert rest[k - 1] == train[k];
      }
    }
    forall d | d in RelevantIds(rest) ensures d in RelevantIds(train) {
      var k :| 0 <= k < |rest| && rest[k].rel > 0 && rest[k].docid == d;
      assert train[k + 1] == rest[k];
    }
  }

  /** Without repeats, the head's document is not among the tail's. */
  lemma HeadNotRelevantLater(train: seq<Entry>)
    requires |train| > 0 && DistinctIds(train)
    ensures train[0].docid !in RelevantIds(train[1..])
  {
    forall k | 0 <= k < |train[1..]| ensures train[1..][k].docid != train[0].docid {
      assert train[1..][k] == train[k + 1];
    }
  }

  /** The relevant documents seen are among the relevant documents
      judged. */
  lemma ConsistentBound(st: RunState, q: Qrels)
    requires Consistent(st, q)
    ensures st.relSeen <= NumRel(q)
  {
    PositivesAreRelevantIds(st.train);
    assert RelevantIds(st.train) <= set d | d in q && q[d] > 0;
    SubsetCard(RelevantIds(st.train), set d | d in q && q[d] > 0);
  }

  lemma SubsetCard(a: set<string>, b: set<string>)
    requires a <= b
    ensures |a| <= |b|
  {
    assert b == a + (b - a);
  }

  /** The loop keeps the counters meaningful. */
  lemma {:induction false} LoopConsistent(st: RunState, cfg: Config, q: Qrels, maxSteps: int, numRel: nat,
                                          responses: seq<StepResponse>)
    requires st.docsReviewed > 0 && Consistent(st, q)
    requires Loop(st, cfg, q, maxSteps, numRel, responses).Ok?
    ensures Consistent(Loop(st, cfg, q, maxSteps, numRel, responses).value.state, q)
    decreases |responses|
  {
    StepConsistent(st, st.step + 1, q, responses[0]);
    var (st', newRel) := AfterStep(st, q, responses[0]).value;
    if Stop(st', newRel, cfg, maxSteps, numRel).None? {
      LoopConsistent(st', cfg, q, maxSteps, numRel, responses[1..]);
    }
  }

  /** With distinct documents in the seed, `rel_seen` never exceeds
      `num_rel`: every later document is fresh. */
  lemma RunRelSeenBounded(cfg: Config, qrelsLines: seq<Fields>, pool: seq<Fields>, parseInt: string -> Option<int>,
                          seedTrainOk: bool, responses: seq<StepResponse>)
    requires LoadQrels(qrelsLines, cfg.topic, parseInt).Ok?
    requires Seed(pool, cfg.topic, cfg.trainRank, LoadQrels(qrelsLines, cfg.topic, parseInt).value, parseInt).Ok?
    requires DistinctIds(Seed(pool, cfg.topic, cfg.trainRank, LoadQrels(qrelsLines, cfg.topic, parseInt).value, parseInt).value)
    requires Run(cfg, qrelsLines, pool, parseInt, seedTrainOk, responses).Ok?
    ensures var q := LoadQrels(qrelsLines, cfg.topic, parseInt).value;
      Run(cfg, qrelsLines, pool, parseInt, seedTrainOk, responses).value.state.relSeen <= NumRel(q)
  {
    var q := LoadQrels(qrelsLines, cfg.topic, parseInt).value;
    var train := Seed(pool, cfg.topic, cfg.trainRank, q, parseInt).value;
    var relSeen := Positives(train);
    var st0 := RunState(train, |train|, relSeen, 0, 0, relSeen as real / |train| as real, 0);
    LoopConsistent(st0, cfg, q, EffectiveMaxSteps(cfg, q), NumRel(q), responses);
    ConsistentBound(Run(cfg, qrelsLines, pool, parseInt, seedTrainOk, responses).value.state, q);
  }
}
