/** The external sort of src/extsort.rs over in-memory sequences: the input
    is cut into runs of `buffer_size` objects, each run is sorted, and the
    runs are merged through a max-heap whose entries compare in reverse of
    the objects' order. Files, bincode and progress bars are not modelled:
    a "file" is the sequence of objects still unread in it. */
module ExtSort {
  import opened Wrappers
  import opened Sorting
  import opened Words
  import opened Seqs

  /** Concatenation of a sequence of runs. */
  function Flatten<T>(runs: seq<seq<T>>): seq<T>
    decreases |runs|
  {
    if |runs| == 0 then [] else runs[0] + Flatten(runs[1..])
  }

  /** Reference definition of the cut: consecutive chunks of exactly `size`
      objects and a final shorter, non-empty one; a size of 0 never fills, so
      everything lands in one chunk. */
  function Chunks<T>(s: seq<T>, size: nat): (r: seq<seq<T>>)
    ensures Flatten(r) == s
    ensures forall k :: 0 <= k < |r| ==> 0 < |r[k]|
    ensures size > 0 ==> forall k :: 0 <= k < |r| ==> |r[k]| <= size
    ensures size > 0 ==> forall k :: 0 <= k < |r| - 1 ==> |r[k]| == size
    ensures size == 0 && |s| > 0 ==> r == [s]
    decreases |s|
  {
    if |s| == 0 then []
    else if size == 0 || |s| <= size then
      assert [s][1..] == [];
      [s]
    else
      var rest := Chunks(s[size..], size);
      var r := [s[..size]] + rest;
      assert r[1..] == rest;
      assert s == s[..size] + s[size..];
      r
  }

  function SortEach<T(!new)>(chunks: seq<seq<T>>, le: (T, T) -> bool): (r: seq<seq<T>>)
    ensures |r| == |chunks|
    ensures forall k :: 0 <= k < |r| ==> r[k] == Sort(chunks[k], le)
    decreases |chunks|
  {
    if |chunks| == 0 then [] else [Sort(chunks[0], le)] + SortEach(chunks[1..], le)
  }

  /** What ends a sort early: the object counter of `divide_into_runs`
      passing u32::MAX (a debug-build panic), or a run that cannot be read
      back in `merge_runs`. */
  datatype SortError = ItemsOverflow | UnexpectedEnd

  /** `RunFiles`: the runs written, and the number of objects read. */
  datatype RunFiles<T> = RunFiles(files: seq<seq<T>>, items: U32)

  /** The loop of `divide_into_runs`, leaving out its object counter: push
      each object; when the buffer holds exactly `size` objects, sort it and
      write it out as a run; at the end of the input, a non-empty buffer
      becomes the last run. */
  function DivideLoop<T(!new)>(input: seq<T>, size: nat, buffer: seq<T>, runs: seq<seq<T>>,
                                le: (T, T) -> bool): seq<seq<T>>
    decreases |input|
  {
    if |input| == 0 then
      if |buffer| > 0 then runs + [Sort(buffer, le)] else runs
    else
      var buffer' := buffer + [input[0]];
      if |buffer'| == size then DivideLoop(input[1..], size, [], runs + [Sort(buffer', le)], le)
      else DivideLoop(input[1..], size, buffer', runs, le)
  }

  /** The object counter of the same loop: `items += 1` on a u32, once per
      object read, starting from `items`. It fails on the increment past
      u32::MAX, which is the only way the loop can fail, so the loop's
      outcome is this count and the runs of `DivideLoop`. */
  function CountItems(n: nat, items: U32): (r: Result<U32, SortError>)
    ensures r.Ok? <==> items + n < U32_LIMIT
    ensures r.Ok? ==> r.value == items + n
    ensures r.Err? ==> r.error == ItemsOverflow
    decreases n
  {
    if n == 0 then Ok(items)
    else if items + 1 >= U32_LIMIT then Err(ItemsOverflow)
    else CountItems(n - 1, items + 1)
  }

  /** `divide_into_runs`: fails exactly when the input holds 2^32 objects or
      more; otherwise `items` counts every object and the runs are the
      sorted chunks of the input. */
  function DivideIntoRuns<T(!new)>(input: seq<T>, size: nat, le: (T, T) -> bool)
    : (r: Result<RunFiles<T>, SortError>)
    ensures r.Err? <==> |input| >= U32_LIMIT
    ensures r.Err? ==> r.error == ItemsOverflow
    ensures r.Ok? ==> r.value.items == |input| && r.value.files == SortEach(Chunks(input, size), le)
  {
    var items :- CountItems(|input|, 0);
    DivideLoopChunks(input, size, [], [], le);
    assert [] + input == input;
    Ok(RunFiles(DivideLoop(input, size, [], [], le), items))
  }

  /** A buffer that just filled up is the first chunk of what it starts. */
  lemma FullBufferChunks<T(!new)>(buffer: seq<T>, rest: seq<T>, size: nat, le: (T, T) -> bool)
    requires |buffer| == size > 0
    ensures SortEach(Chunks(buffer + rest, size), le) == [Sort(buffer, le)] + SortEach(Chunks(rest, size), le)
  {
    var all := buffer + rest;
    if |rest| > 0 {
      assert all[..size] == buffer;
      assert all[size..] == rest;
      assert Chunks(all, size) == [buffer] + Chunks(rest, size);
    } else {
      assert all == buffer;
    }
    var c := Chunks(all, size);
    assert c[1..] == Chunks(rest, size);
  }

  /** From any state the loop appends the sorted chunks of the buffer and
      the remaining input. */
  lemma {:induction false} DivideLoopChunks<T(!new)>(input: seq<T>, size: nat, buffer: seq<T>,
                                                      runs: seq<seq<T>>, le: (T, T) -> bool)
    requires size == 0 || |buffer| < size
    ensures DivideLoop(input, size, buffer, runs, le) == runs + SortEach(Chunks(buffer + input, size), le)
    decreases |input|
  {
    if |input| == 0 {
      DivideLoopEnd(size, buffer, runs, le);
    } else {
      var buffer' := buffer + [input[0]];
      if |buffer'| == size {
        DivideLoopChunks(input[1..], size, [], runs + [Sort(buffer', le)], le);
        DivideStepFull(input, size, buffer, runs, le);
      } else {
        DivideLoopChunks(input[1..], size, buffer', runs, le);
        MoveHead(buffer, input);
      }
    }
  }

  /** At the end of the input a non-empty buffer is the last chunk. */
  lemma DivideLoopEnd<T(!new)>(size: nat, buffer: seq<T>, runs: seq<seq<T>>, le: (T, T) -> bool)
    requires size == 0 || |buffer| < size
    ensures DivideLoop([], size, buffer, runs, le) == runs + SortEach(Chunks(buffer + [], size), le)
  {
    AppendEmpty(buffer);
    if |buffer| > 0 {
      assert Chunks(buffer, size) == [buffer];
      assert SortEach([buffer], le) == [Sort(buffer, le)];
    } else {
      AppendEmpty(runs);
    }
  }

  /** The object that fills the buffer writes it out as the next run. */
  lemma DivideStepFull<T(!new)>(input: seq<T>, size: nat, buffer: seq<T>, runs: seq<seq<T>>,
                                le: (T, T) -> bool)
    requires |input| > 0 && |buffer + [input[0]]| == size
    requires DivideLoop(input[1..], size, [], runs + [Sort(buffer + [input[0]], le)], le)
          == runs + [Sort(buffer + [input[0]], le)] + SortEach(Chunks([] + input[1..], size), le)
    ensures DivideLoop(input, size, buffer, runs, le) == runs + SortEach(Chunks(buffer + input, size), le)
  {
    var buffer', rest := buffer + [input[0]], input[1..];
    var run := Sort(buffer', le);
    assert DivideLoop(input, size, buffer, runs, le) == DivideLoop(rest, size, [], runs + [run], le);
    MoveHead(buffer, input);
    FullBufferChunks(buffer', rest, size, le);
    AppendAssoc(runs, [run], SortEach(Chunks(rest, size), le));
  }

  lemma {:induction false} SortEachPermutes<T(!new)>(chunks: seq<seq<T>>, le: (T, T) -> bool)
    ensures multiset(Flatten(SortEach(chunks, le))) == multiset(Flatten(chunks))
    decreases |chunks|
  {
    if |chunks| > 0 {
      SortEachPermutes(chunks[1..], le);
      var r := SortEach(chunks, le);
      assert r[1..] == SortEach(chunks[1..], le);
    }
  }

  /** The runs: none is empty, each is sorted, all but the last hold exactly
      `size` objects, and together they hold the input's objects. */
  lemma RunsShape<T(!new)>(input: seq<T>, size: nat, le: (T, T) -> bool)
    requires TotalOrder(le)
    ensures DivideIntoRuns(input, size, le).Ok? ==>
      var runs := DivideIntoRuns(input, size, le).value.files;
      && (forall k :: 0 <= k < |runs| ==> 0 < |runs[k]| && Sorted(runs[k], le))
      && (size > 0 ==> forall k :: 0 <= k < |runs| - 1 ==> |runs[k]| == size)
      && multiset(Flatten(runs)) == multiset(input)
      && (|input| == 0 <==> |runs| == 0)
  {
    var chunks := Chunks(input, size);
    SortEachPermutes(chunks, le);
    if |input| > 0 {
      assert |Flatten(chunks)| > 0;
    }
  }

  /** `ObjAndFileIndex`: an object and the run it was read from. */
  datatype Entry<T> = Entry(obj: T, i: nat)

  /** `ObjAndFileIndex::cmp`: `a <= b` in heap order when `b`'s object is at
      most `a`'s, the reverse of the objects' order; the run index takes no
      part. */
  predicate HeapLe<T>(a: Entry<T>, b: Entry<T>, le: (T, T) -> bool) {
    le(b.obj, a.obj)
  }

  /** The heap as one slot per run: `heads[i]` is the entry read from run `i`
      that is in the heap, if any (the source pushes at most one per run). */
  function Top<T(!new)>(heads: seq<Option<T>>, le: (T, T) -> bool): (r: Option<nat>)
    ensures r.None? <==> forall j :: 0 <= j < |heads| ==> heads[j].None?
    ensures r.Some? ==> r.value < |heads| && heads[r.value].Some?
    ensures r.Some? && TotalOrder(le) ==>
      forall j :: 0 <= j < |heads| && heads[j].Some? ==>
        HeapLe(Entry(heads[j].value, j), Entry(heads[r.value].value, r.value), le)
    decreases |heads|
  {
    if |heads| == 0 then None
    else
      match Top(heads[1..], le)
      case None =>
        if heads[0].Some? then Some(0) else None
      case Some(k) =>
        assert heads[k + 1] == heads[1..][k];
        if heads[0].Some? && le(heads[0].value, heads[k + 1].value) then Some(0) else Some(k + 1)
  }

  /** The objects in slot `j`: its heap entry and its unread objects. */
  function Slot<T>(h: Option<T>, f: seq<T>): multiset<T> {
    (if h.Some? then multiset{h.value} else multiset{}) + multiset(f)
  }

  /** Every object not yet written out. */
  function Total<T>(files: seq<seq<T>>, heads: seq<Option<T>>): multiset<T>
    requires |files| == |heads|
    decreases |files|
  {
    if |files| == 0 then multiset{} else Slot(heads[0], files[0]) + Total(files[1..], heads[1..])
  }

  /** What is left to write in two groups of runs is what is left in each. */
  lemma {:induction false} TotalAppend<T>(fa: seq<seq<T>>, ha: seq<Option<T>>, fb: seq<seq<T>>, hb: seq<Option<T>>)
    requires |fa| == |ha| && |fb| == |hb|
    ensures Total(fa + fb, ha + hb) == Total(fa, ha) + Total(fb, hb)
    decreases |fa|
  {
    if |fa| == 0 {
      assert fa + fb == fb && ha + hb == hb;
    } else {
      var f, h := fa + fb, ha + hb;
      assert f[1..] == fa[1..] + fb && h[1..] == ha[1..] + hb;
      assert f[0] == fa[0] && h[0] == ha[0];
      var first := Slot(ha[0], fa[0]);
      assert Total(f, h) == first + Total(fa[1..] + fb, ha[1..] + hb);
      TotalAppend(fa[1..], ha[1..], fb, hb);
      assert Total(fa, ha) == first + Total(fa[1..], ha[1..]);
    }
  }

  /** What is left to write, split around slot `i`. */
  lemma TotalSplit<T>(files: seq<seq<T>>, heads: seq<Option<T>>, i: nat)
    requires |files| == |heads| && i < |files|
    ensures Total(files, heads)
         == Total(files[..i], heads[..i]) + Slot(heads[i], files[i]) + Total(files[i + 1..], heads[i + 1..])
  {
    SplitAt(files, i);
    SplitAt(heads, i);
    TotalAppend(files[..i], heads[..i], files[i..], heads[i..]);
    var rest := Total(files[i..], heads[i..]);
    assert rest == Slot(heads[i], files[i]) + Total(files[i + 1..], heads[i + 1..]);
  }

  lemma {:induction false} TotalMember<T>(files: seq<seq<T>>, heads: seq<Option<T>>, x: T)
    requires |files| == |heads| && x in Total(files, heads)
    ensures exists j :: 0 <= j < |files| && x in Slot(heads[j], files[j])
    decreases |files|
  {
    if x !in Slot(heads[0], files[0]) {
      TotalMember(files[1..], heads[1..], x);
      var j :| 0 <= j < |files[1..]| && x in Slot(heads[1..][j], files[1..][j]);
      assert x in Slot(heads[j + 1], files[j + 1]);
    }
  }

  lemma {:induction false} TotalEmpty<T>(files: seq<seq<T>>, heads: seq<Option<T>>)
    requires |files| == |heads|
    requires forall j :: 0 <= j < |files| ==> heads[j].None? && |files[j]| == 0
    ensures Total(files, heads) == multiset{}
    decreases |files|
  {
    if |files| > 0 {
      TotalEmpty(files[1..], heads[1..]);
    }
  }

  /** Reading the next object of a run: the new heap entry, if the run is
      not exhausted, and what remains unread. */
  function Refill<T>(f: seq<T>): (r: (Option<T>, seq<T>))
    ensures multiset(f) == Slot(r.0, r.1)
    ensures |f| == 0 <==> r.0.None?
  {
    if |f| == 0 then (None, f)
    else
      assert f == [f[0]] + f[1..];
      (Some(f[0]), f[1..])
  }

  /** Popping slot `i` and refilling it from its run removes exactly the
      popped object from what is left to write. */
  lemma PopTotal<T>(files: seq<seq<T>>, heads: seq<Option<T>>, i: nat)
    requires |files| == |heads| && i < |files| && heads[i].Some?
    ensures var (h, f) := Refill(files[i]);
      Total(files, heads) == Total(files[i := f], heads[i := h]) + multiset{heads[i].value}
  {
    var (h, f) := Refill(files[i]);
    var files', heads' := files[i := f], heads[i := h];
    TotalSplit(files, heads, i);
    TotalSplit(files', heads', i);
    assert files'[..i] == files[..i] && heads'[..i] == heads[..i];
    assert files'[i + 1..] == files[i + 1..] && heads'[i + 1..] == heads[i + 1..];
    assert Slot(heads[i], files[i]) == multiset{heads[i].value} + Slot(h, f);
  }

  /** The state after popping slot `i` and refilling it. */
  function PopState<T>(files: seq<seq<T>>, heads: seq<Option<T>>, i: nat): (r: (seq<seq<T>>, seq<Option<T>>))
    requires |files| == |heads| && i < |files|
    ensures |r.0| == |r.1| == |files|
  {
    var (h, f) := Refill(files[i]);
    (files[i := f], heads[i := h])
  }

  /** The loop of `merge_runs`: pop the top entry, write its object, and
      refill the slot from the same run, or drop it when the run is
      exhausted. */
  function MergeLoop<T(!new)>(files: seq<seq<T>>, heads: seq<Option<T>>, out: seq<T>,
                              le: (T, T) -> bool): seq<T>
    requires |files| == |heads|
    decreases |Total(files, heads)|
  {
    match Top(heads, le)
    case None => out
    case Some(i) =>
      PopTotal(files, heads, i);
      var (files', heads') := PopState(files, heads, i);
      MergeLoop(files', heads', out + [heads[i].value], le)
  }

  /** The setup of `merge_runs`: read the first object of every run; an empty
      run is a decode error. */
  function Setup<T>(runs: seq<seq<T>>): (r: Result<(seq<seq<T>>, seq<Option<T>>), SortError>)
    ensures r.Err? <==> exists i :: 0 <= i < |runs| && |runs[i]| == 0
    ensures r.Ok? ==> |r.value.0| == |r.value.1| == |runs|
    ensures r.Ok? ==> forall i :: 0 <= i < |runs| ==>
      r.value.1[i] == Some(runs[i][0]) && r.value.0[i] == runs[i][1..]
    decreases |runs|
  {
    if |runs| == 0 then Ok(([], []))
    else if |runs[0]| == 0 then Err(UnexpectedEnd)
    else
      match Setup(runs[1..])
      case Err(e) =>
        assert forall i :: 1 <= i < |runs| ==> runs[i] == runs[1..][i - 1];
        Err(e)
      case Ok((f, h)) =>
        assert forall i :: 1 <= i < |runs| ==> runs[i] == runs[1..][i - 1];
        Ok(([runs[0][1..]] + f, [Some(runs[0][0])] + h))
  }

  /** `merge_runs`. */
  function MergeRuns<T(!new)>(runs: seq<seq<T>>, le: (T, T) -> bool): (r: Result<seq<T>, SortError>)
    ensures r.Err? <==> exists i :: 0 <= i < |runs| && |runs[i]| == 0
  {
    match Setup(runs)
    case Err(e) => Err(e)
    case Ok((files, heads)) => Ok(MergeLoop(files, heads, [], le))
  }

  /** `external_sort_from`: divide into runs, then merge them. */
  function ExternalSort<T(!new)>(input: seq<T>, size: nat, le: (T, T) -> bool): Result<seq<T>, SortError> {
    var runFiles :- DivideIntoRuns(input, size, le);
    MergeRuns(runFiles.files, le)
  }

  /** What the merge keeps true: every run's unread part is sorted, an
      exhausted slot has nothing left to read, and a slot's heap entry is at
      most everything still unread in its run. */
  ghost predicate MergeInv<T(!new)>(files: seq<seq<T>>, heads: seq<Option<T>>, le: (T, T) -> bool) {
    && |files| == |heads|
    && (forall j :: 0 <= j < |files| ==> Sorted(files[j], le))
    && (forall j :: 0 <= j < |files| && heads[j].None? ==> |files[j]| == 0)
    && (forall j :: 0 <= j < |files| && heads[j].Some? ==> AllAtLeast(heads[j].value, files[j], le))
  }

  /** The object on top of the heap is at most every object not yet written
      out, so popping the max-heap of reversed entries yields the least
      object. */
  lemma TopIsLeast<T(!new)>(files: seq<seq<T>>, heads: seq<Option<T>>, le: (T, T) -> bool, x: T)
    requires TotalOrder(le) && MergeInv(files, heads, le)
    requires Top(heads, le).Some? && x in Total(files, heads)
    ensures le(heads[Top(heads, le).value].value, x)
  {
    var i := Top(heads, le).value;
    TotalMember(files, heads, x);
    var j :| 0 <= j < |files| && x in Slot(heads[j], files[j]);
    assert heads[j].Some?;
    assert HeapLe(Entry(heads[j].value, j), Entry(heads[i].value, i), le);
    if x != heads[j].value {
      assert x in files[j];
      var p :| 0 <= p < |files[j]| && files[j][p] == x;
      assert le(heads[j].value, files[j][p]);
    }
  }

  lemma MergeStepInv<T(!new)>(files: seq<seq<T>>, heads: seq<Option<T>>, le: (T, T) -> bool, i: nat)
    requires TotalOrder(le) && MergeInv(files, heads, le) && i < |heads| && heads[i].Some?
    ensures var (h, f) := Refill(files[i]);
            MergeInv(files[i := f], heads[i := h], le)
  {
    if |files[i]| > 0 {
      var f := files[i][1..];
      assert Sorted(f, le);
      assert AllAtLeast(files[i][0], f, le);
    }
  }

  lemma SortedAppend<T(!new)>(s: seq<T>, x: T, le: (T, T) -> bool)
    requires TotalOrder(le) && Sorted(s, le)
    requires |s| > 0 ==> le(s[|s| - 1], x)
    ensures Sorted(s + [x], le)
  {
    var s' := s + [x];
    forall p, q | 0 <= p < q < |s'| ensures le(s'[p], s'[q]) {
      if q == |s| && p < |s| - 1 {
        assert le(s[p], s[|s| - 1]);
      }
    }
  }

  /** One pop: the popped object is at most everything left, and the
      invariant holds after the slot is refilled. */
  lemma MergeStep<T(!new)>(files: seq<seq<T>>, heads: seq<Option<T>>, le: (T, T) -> bool)
    requires TotalOrder(le) && MergeInv(files, heads, le) && Top(heads, le).Some?
    ensures var i := Top(heads, le).value;
      var (h, f) := Refill(files[i]);
      && MergeInv(files[i := f], heads[i := h], le)
      && Total(files, heads) == Total(files[i := f], heads[i := h]) + multiset{heads[i].value}
      && (forall x :: x in Total(files, heads) ==> le(heads[i].value, x))
  {
    var i := Top(heads, le).value;
    PopTotal(files, heads, i);
    MergeStepInv(files, heads, le, i);
    forall x | x in Total(files, heads) ensures le(heads[i].value, x) {
      TopIsLeast(files, heads, le, x);
    }
  }

  lemma MergeLoopUnfold<T(!new)>(files: seq<seq<T>>, heads: seq<Option<T>>, out: seq<T>, le: (T, T) -> bool)
    requires |files| == |heads| && Top(heads, le).Some?
    ensures var i := Top(heads, le).value;
      var (files', heads') := PopState(files, heads, i);
      MergeLoop(files, heads, out, le) == MergeLoop(files', heads', out + [heads[i].value], le)
  {
  }

  lemma {:induction false} MergeLoopCorrect<T(!new)>(files: seq<seq<T>>, heads: seq<Option<T>>, out: seq<T>,
                                                      le: (T, T) -> bool)
    requires TotalOrder(le) && MergeInv(files, heads, le) && Sorted(out, le)
    requires |out| > 0 ==> forall x :: x in Total(files, heads) ==> le(out[|out| - 1], x)
    ensures Sorted(MergeLoop(files, heads, out, le), le)
    ensures multiset(MergeLoop(files, heads, out, le)) == multiset(out) + Total(files, heads)
    decreases |Total(files, heads)|
  {
    if Top(heads, le).None? {
      TotalEmpty(files, heads);
    } else {
      var i := Top(heads, le).value;
      var obj := heads[i].value;
      var (files', heads') := PopState(files, heads, i);
      MergeStep(files, heads, le);
      WriteOne(out, obj, Total(files, heads), Total(files', heads'), le);
      SortedAppend(out, obj, le);
      MergeLoopUnfold(files, heads, out, le);
      MergeLoopCorrect(files', heads', out + [obj], le);
    }
  }

  /** Writing a least object `obj` of what is left: it is the new last
      output, at most everything still left, and output plus what is left
      keeps its objects. */
  lemma WriteOne<T>(out: seq<T>, obj: T, left: multiset<T>, left': multiset<T>, le: (T, T) -> bool)
    requires left == left' + multiset{obj}
    requires forall x :: x in left ==> le(obj, x)
    ensures obj in left
    ensures (out + [obj])[|out + [obj]| - 1] == obj
    ensures forall x :: x in left' ==> le((out + [obj])[|out + [obj]| - 1], x)
    ensures multiset(out + [obj]) + left' == multiset(out) + left
  {
  }

  lemma {:induction false} SetupTotal<T>(runs: seq<seq<T>>)
    requires Setup(runs).Ok?
    ensures Total(Setup(runs).value.0, Setup(runs).value.1) == multiset(Flatten(runs))
    decreases |runs|
  {
    if |runs| > 0 {
      SetupTotal(runs[1..]);
      var (f, h) := Setup(runs).value;
      assert f[1..] == Setup(runs[1..]).value.0;
      assert h[1..] == Setup(runs[1..]).value.1;
      assert runs[0] == [runs[0][0]] + runs[0][1..];
    }
  }

  /** `merge_runs` on sorted non-empty runs writes out their objects in
      non-decreasing order. */
  lemma MergeRunsCorrect<T(!new)>(runs: seq<seq<T>>, le: (T, T) -> bool)
    requires TotalOrder(le)
    requires forall k :: 0 <= k < |runs| ==> 0 < |runs[k]| && Sorted(runs[k], le)
    ensures MergeRuns(runs, le).Ok?
    ensures Sorted(MergeRuns(runs, le).value, le)
    ensures multiset(MergeRuns(runs, le).value) == multiset(Flatten(runs))
  {
    var (files, heads) := Setup(runs).value;
    forall j | 0 <= j < |files| ensures Sorted(files[j], le) && AllAtLeast(heads[j].value, files[j], le) {
      assert files[j] == runs[j][1..];
      assert forall p :: 0 <= p < |files[j]| ==> files[j][p] == runs[j][p + 1];
    }
    SetupTotal(runs);
    MergeLoopCorrect(files, heads, [], le);
  }

  /** The external sort is a sort: below 2^32 objects it succeeds and its
      output is the input in non-decreasing order (the reference insertion
      sort, the only sorted arrangement under a total order), so it has as
      many objects as the input; from 2^32 objects on, the u32 object
      counter overflows. */
  lemma ExternalSortCorrect<T(!new)>(input: seq<T>, size: nat, le: (T, T) -> bool)
    requires TotalOrder(le)
    ensures |input| < U32_LIMIT ==> ExternalSort(input, size, le) == Ok(Sort(input, le))
    ensures |input| < U32_LIMIT ==> |ExternalSort(input, size, le).value| == |input|
    ensures |input| >= U32_LIMIT ==> ExternalSort(input, size, le) == Err(ItemsOverflow)
  {
    if |input| < U32_LIMIT {
      RunsShape(input, size, le);
      var runs := DivideIntoRuns(input, size, le).value.files;
      MergeRunsCorrect(runs, le);
      SortIsUnique(input, MergeRuns(runs, le).value, le);
    }
  }

  /** Empty input: no runs, no objects counted and empty output. */
  lemma EmptyInput<T(!new)>(size: nat, le: (T, T) -> bool)
    ensures DivideIntoRuns([], size, le) == Ok(RunFiles([], 0))
    ensures ExternalSort([], size, le) == Ok([])
  {
  }
}
