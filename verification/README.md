# mycal core, modelled in Dafny

mycal is a continuous-active-learning system for relevance review. For one
topic, it seeds a training set from the top of a ranked pool and trains a
classifier on it. It then repeatedly scores the collection, looks up the
judgments of the returned documents, adds them to the training set and
retrains, until a stopping rule fires. Underneath sit these parts:

- a document and token dictionary;
- tokenizers: English stemming, character n-grams and hashed n-grams;
- compressed posting lists with variable-byte ("vbyte") and Double-VByte
  coding;
- a Huffman-style bit code for UUID strings;
- a small LRU cache;
- a string-to-id table that can be saved and re-opened;
- an external merge sort.

This project models those parts as pure Dafny functions over immutable
values, and proves what they promise.

- wrappers.dfy (module Wrappers): `Option` / `Result` for the source's `Option`, `Result` and panics
- words.dfy (module Words): the `u32` range shared by the codecs, the tokenizers and the external sort's object counter
- compress.dfy (module Compress): src/compress.rs: `bytes_required`, `vbyte_encode`, `vbyte_decode`, `encode_magic`, `decode_magic`
- uuid.dfy (module Uuid): src/uuid.rs: the 17-symbol code table, the decoding tree, `encode_uuid`, `decode`, `Uuid::serialize` and `Uuid::deserialize`
- seqs.dfy (module Seqs): sequences without repeats, used by the cache's recency queue and the id table's key vector, and the concatenation and slicing identities the other proofs step through
- sorting.dfy (module Sorting): the order `Ord` promises, and a reference sort used to state what `sort` / `par_sort` compute
- ptuple.dfy (module PTuples): src/ptuple.rs: `PTuple` and its derived order
- extsort.dfy (module ExtSort): src/extsort.rs: `divide_into_runs`, the heap of `merge_runs`, and `external_sort_from`
- lrucache.dfy (module LruCache): src/lrucache.rs: the whole `LruCache`
- odch.dfy (module Odch): src/odch.rs: `OnDiskCompressedHash` in memory; the saved file is the `idx` vector
- text.dfy (module Text): what the stemming tokenizers share: `split` on a character class, UTF-8 byte length, the `len() >= 2` filter, and stemming only alphabetic pieces
- lib.dfy (module Mycal): src/lib.rs: `Docs`, `Dict`, `FeatureVec` and the crate-level `tokenize`
- index.dfy (module Index): src/index.rs: `PostingList` (add, size, serialize, deserialize) and the in-memory side of `InvertedFile`
- tok.dfy (module Tok): src/tok.rs: `is_prime`, `NGramsHashed::new`, `hash`, the four tokenizers and their names, `get_tokenizer`, `tokenize_and_map`
- review.dfy (module Review): run.py and webcal-run.py: loading judgments, seeding, `one_step`, the stopping rules and the main loop

## Modelling conventions

- Rust integer arithmetic is modelled with debug-build (checked) semantics:
  - an overflowing `u32` / `usize` operation, a shift by the full width or
    more, a failed `unwrap`, `assert!` or `panic!`, and an index out of
    range all become an `Err` or `None` value;
  - a `u32` is a `nat` below `U32_LIMIT`;
  - `as u32` keeps the low 32 bits.
- A `VecDeque<u8>` buffer is a `seq<Byte>`; a `BitVec` is a `seq<bool>`.
- A `HashMap` is a `map`. Where the source depends on its iteration order
  (`from_hash`, `get_values`), the order is a parameter or the result is a
  set.
- Foreign code is passed in as function parameters:
  - the Porter stemmer, `is_alphanumeric`, `is_alphabetic`, `to_lowercase`
    (`TextOps`);
  - NFKC normalisation, grapheme segmentation and the XLM-R tokenizer
    (`SegmentOps`);
  - Python's `int()`.
- The two review scripts differ only in transport and in the low-yield
  rule:
  - run.py uses a subprocess with `check=True`; webcal-run.py uses an HTTP
    request and checks the status code. Each call becomes a success flag
    in `StepResponse`.
  - the low-yield rule is kept as two `Variant`s.
- Python float ratios are compared by cross-multiplication: `rel/docs > 0.5`
  is `2*rel > docs`, and `rel/docs > 0.4` is `5*rel > 2*docs`. `sum_prec`
  is a `real`.

## Model

| member | source | states |
|---|---|---|
| Compress.BytesRequired | src/compress.rs:9-20 | the count is the least n from 1 to 5 with value < 128^n |
| Compress.VbyteBytes | src/compress.rs:23-37 | defined by its body (the 7-bit groups `vbyte_encode` appends, low first, with the continuation bit on all but the last); characterised by Compress.VbyteBytesShape, Compress.VbyteLengthIsBytesRequired and Compress.VbyteRoundTrip |
| Compress.VbyteBytesShape | src/compress.rs:23-37 | the vbyte form is non-empty, every byte but the last has the continuation bit, and the last does not |
| Compress.VbyteBytesLength | src/compress.rs:23-37 | a value below 128^k takes at most k bytes, and one at or above 128^k takes more than k |
| Compress.VbyteLengthIsBytesRequired | src/compress.rs:9-37 | `vbyte_encode` writes exactly `bytes_required(value)` bytes |
| Compress.VbyteEncode | src/compress.rs:23-37 | the loop appends the vbyte form to the buffer, returns its length `bytes_required(value)`, and sets the continuation bit on all but the last byte |
| Compress.VbyteDecode | src/compress.rs:39-59 | an empty buffer decodes to (0, 0); the bytes read plus the bytes left make up the buffer, and what is left is its suffix |
| Compress.DecodeFrom | src/compress.rs:44-57 | defined by its body (the `pop_front` loop of `vbyte_decode`, with the shift past 32 bits as an error); characterised by Compress.VbyteDecode and Compress.VbyteRoundTrip |
| Compress.VbyteRoundTrip | src/compress.rs:39-59 | decoding an encoded u32 followed by any bytes gives back the value, reads `bytes_required(value)` bytes and leaves the rest untouched |
| Compress.EncodeMagic | src/compress.rs:63-76 | freq below 4 gives one vbyte, otherwise two; the count is the number of bytes appended; it fails exactly when `docgap - 1` underflows or a u32 product or sum overflows |
| Compress.EncodeMagicOk | src/compress.rs:63-76 | every pair `encode_magic` accepts (for freq < 4 a positive docgap with (docgap-1)*4+freq in u32, otherwise docgap*4 in u32) encodes as one vbyte of (docgap-1)*4+freq for freq < 4, else docgap*4 then freq-3 |
| Compress.DecodeOneVbyte | src/compress.rs:84-86 | a first vbyte that is not a multiple of 4 decodes as (1 + m/4, m%4) with nothing more read, in both decoders |
| Compress.DecodeTwoVbytes | src/compress.rs:87-91 | a multiple of 4 reads a second vbyte f: the written decoder fails exactly when 4 + f overflows u32, while the corrected one succeeds whenever f + 3 fits |
| Compress.MagicOneVbyte | src/compress.rs:66-68 | for 1 ≤ freq < 4 the folded single vbyte decodes back to (docgap, freq), in both decoders, with following bytes left alone |
| Compress.MagicTwoVbytes | src/compress.rs:69-74 | for freq ≥ 4 the two-vbyte form decodes back, except through the written decoder at freq = u32::MAX |
| Compress.DecodeMagic | src/compress.rs:80-93 | defined by its body (`decode_magic` as written, `MAGIC_F + freq - 1` in u32); characterised by Compress.DecodeOneVbyte, Compress.DecodeTwoVbytes and Compress.MagicRoundTripAsWritten |
| Compress.DecodeMagicFixed | src/compress.rs:80-93 | defined by its body (`decode_magic` with the last step reordered to `freq + (MAGIC_F - 1)`); characterised by Compress.DecodeOneVbyte, Compress.DecodeTwoVbytes and Compress.MagicRoundTrip |
| Compress.MagicRoundTrip | src/compress.rs:63-93 | with the corrected decoder, every pair with freq ≥ 1 that `encode_magic` accepts round-trips, and following bytes are left alone |
| Compress.MagicRoundTripAsWritten | src/compress.rs:87-91 | the written decoder round-trips every such pair with freq < u32::MAX, and fails with an overflow at freq = u32::MAX |
| Compress.MagicTestPair | src/compress.rs:110-124 | the test's pair (docgap 1234, freq 5) round-trips through the written decoder |
| Compress.MagicZeroFreqDoesNotRoundTrip | src/compress.rs:66-68 | freq 0 is encoded as a multiple of 4, so the decoder returns the gap one too small and never (docgap, 0) |
| Uuid.CodeOf | src/uuid.rs:46-64 | defined by its body (the code map of `HuffmanCoder::new`); characterised by Uuid.CodeTable, Uuid.PrefixFree and Uuid.CodeLeadsToLeaf |
| Uuid.NodeAt | src/uuid.rs:66-101 | defined by its body (the tree vector of `HuffmanCoder::new`, node by node); characterised by Uuid.TreeShape and Uuid.CodeLeadsToLeaf |
| Uuid.CodeTable | src/uuid.rs:46-64 | exactly the 17 symbols 0-9, a-f and '-' have a code; '4' and '-' get 3 bits, 0-8 otherwise 4, the rest 5 |
| Uuid.TreeShape | src/uuid.rs:66-101 | the tree has 34 nodes; every child index is inside it except the `one` child of node 26 (prefix 1101), which is 34 |
| Uuid.CodeLeadsToLeaf | src/uuid.rs:46-101 | following a symbol's code from the root ends at the leaf holding that symbol |
| Uuid.PrefixFree | src/uuid.rs:46-64 | no symbol's code is a prefix of another's |
| Uuid.Codes | src/uuid.rs:114-128 | defined by its body (the codes of a string's characters, concatenated); characterised by Uuid.Encode and Uuid.DecodeCodes |
| Uuid.Encode | src/uuid.rs:114-128 | it succeeds exactly when every character is in the code map; the bits are the concatenated codes; an error names a character that is not in the map and comes after only mapped ones |
| Uuid.DecodeLoop | src/uuid.rs:138-172 | defined by its body (the decode loop: a step per bit at an internal node, an emitted symbol at a leaf, a stop at 36 symbols or when the bits run out); characterised by Uuid.AdvanceMid, Uuid.AdvanceEnd, Uuid.LeafStep, Uuid.DecodeCodes and Uuid.RoundTrip |
| Uuid.Decode | src/uuid.rs:131-137 | an empty bit vector panics on the first `unwrap` |
| Uuid.UnassignedPatternPanics | src/uuid.rs:93 | the bits 11011 walk past the end of the tree, and decoding panics |
| Uuid.AdvanceMid | src/uuid.rs:139-150 | bits that stay inside the tree, with more bits after them, move the decoder to the node the path leads to |
| Uuid.AdvanceEnd | src/uuid.rs:149-157 | when the bits run out, the decoder stops and emits a symbol only if it is at a leaf |
| Uuid.LeafStep | src/uuid.rs:160-169 | at a leaf the decoder emits the symbol, then stops at 36 symbols or restarts from the root without consuming a bit |
| Uuid.DecodeOneCode | src/uuid.rs:138-170 | reading a path from the root to a symbol's leaf, with bits after it, emits the symbol and goes on from the root, unless 36 symbols are reached |
| Uuid.DecodeLastCode | src/uuid.rs:149-157 | a path to a symbol's leaf that ends the bits emits the symbol and stops |
| Uuid.DecodeCodes | src/uuid.rs:138-172 | a run of codes decodes to its symbols: it stops after the last code, or after 36 symbols whatever follows |
| Uuid.RoundTrip | src/uuid.rs:187-213 | every non-empty string over the alphabet of at most 36 symbols decodes back to itself |
| Uuid.RoundTripPadded | src/uuid.rs:164-167 | a 36-symbol string decodes to itself whatever bits follow its codes |
| Uuid.DecodeCodesThenTail | src/uuid.rs:149-157 | bits that run out in the middle of a code, at an internal node, add no symbol |
| Uuid.ProperPrefixStopsInside | src/uuid.rs:66-101 | a proper prefix of a code ends at an internal node |
| Uuid.TruncatedCodeAddsNothing | src/uuid.rs:151-156 | a string of fewer than 36 symbols followed by a cut-off code decodes to the string alone |
| Uuid.DecodeCodesThenStop | src/uuid.rs:151-156 | the same for any tail of bits that stops at an internal node |
| Uuid.Serialize | src/uuid.rs:19-21 | serialization succeeds exactly when the id is over the alphabet |
| Uuid.Deserialize | src/uuid.rs:23-26 | deserializing an empty vector panics |
| Uuid.UuidRoundTrip | src/uuid.rs:19-26 | any 36-character id over the alphabet deserializes back after serialization, whatever padding follows |
| Sorting.Insert | src/extsort.rs:108 | the insertion keeps the elements, adds `x`, and keeps a sorted sequence sorted |
| Sorting.Sort | src/extsort.rs:108 | the reference sort is a sorted permutation of its input |
| Sorting.SortedHeadIsLeast | src/extsort.rs:159-165 | the head of a sorted sequence is at most each of its elements |
| Sorting.SortedUnique | src/index.rs:63 | under a total order, two sorted permutations of the same elements are equal |
| Sorting.SortIsUnique | src/index.rs:63 | any sorted permutation is the reference sort, so `sort` and `par_sort` are pinned down by it |
| PTuples.New | src/ptuple.rs:14-16 | the three fields are stored as given |
| PTuples.Le | src/ptuple.rs:6-11 | defined by its body (the derived `Ord`: `tok`, then `docid`, then `count`); characterised by PTuples.LeIsTotalOrder and PTuples.SortedGroupsByToken |
| PTuples.LeIsTotalOrder | src/ptuple.rs:6-11 | the derived field-by-field order is total, transitive and antisymmetric |
| PTuples.SortedGroupsByToken | src/ptuple.rs:6-11 | sorted tuples are grouped by token, with ascending docids, then counts, inside a group |
| ExtSort.ExternalSort | src/extsort.rs:49-78 | defined by its body (divide into runs, then merge them); characterised by ExtSort.ExternalSortCorrect and ExtSort.EmptyInput |
| ExtSort.DivideLoop | src/extsort.rs:97-124 | defined by its body (push each object, write a sorted run at `size` objects and at the end); characterised by ExtSort.DivideLoopChunks and ExtSort.DivideIntoRuns |
| ExtSort.Chunks | src/extsort.rs:97-124 | the reference cut: non-empty chunks that flatten back to the input, all of `size` except the last, or one chunk when size is 0 |
| ExtSort.SortEach | src/extsort.rs:106-108 | every chunk is sorted on its own |
| ExtSort.CountItems | src/extsort.rs:90-102 | the `u32` counter, started at `items`, counts `n` objects, and overflows exactly when `items + n` passes u32::MAX |
| ExtSort.DivideIntoRuns | src/extsort.rs:81-147 | fails with the counter overflow exactly when the input holds 2^32 objects or more; otherwise `items` counts every object read, and the runs are the sorted chunks of the input |
| ExtSort.FullBufferChunks | src/extsort.rs:106-123 | a buffer that reaches `buffer_size` is written as the first run of what it starts |
| ExtSort.DivideLoopChunks | src/extsort.rs:97-124 | from any state the loop appends the sorted chunks of buffer plus remaining input |
| ExtSort.SortEachPermutes | src/extsort.rs:106-108 | sorting the chunks keeps the objects |
| ExtSort.RunsShape | src/extsort.rs:97-144 | when the division succeeds, the runs are non-empty and sorted, all but the last hold `buffer_size` objects, and together they hold the input |
| ExtSort.Top | src/extsort.rs:159-174 | the heap is empty exactly when no run has an entry; otherwise the top is an entry whose object is at most every other entry's (the reversed `cmp` makes the max-heap a min-heap) |
| ExtSort.HeapLe | src/extsort.rs:159-174 | defined by its body (`ObjAndFileIndex::cmp` compares `other.obj` with `self.obj`, the reverse of the objects' order); characterised by ExtSort.Top and ExtSort.TopIsLeast |
| ExtSort.MergeLoop | src/extsort.rs:206-220 | defined by its body (pop the top, write it, refill from the same run); characterised by ExtSort.MergeLoopCorrect and ExtSort.MergeRunsCorrect |
| ExtSort.Refill | src/extsort.rs:215-219 | reading the next object of a run loses nothing, and finds none only at the end |
| ExtSort.PopTotal | src/extsort.rs:209-219 | popping an entry and refilling its slot removes exactly that object from what is left to write |
| ExtSort.Setup | src/extsort.rs:191-203 | reading each run's first object fails exactly when some run is empty; otherwise every run has its first object in the heap |
| ExtSort.MergeRuns | src/extsort.rs:186-223 | the merge fails exactly when some run is empty |
| ExtSort.TopIsLeast | src/extsort.rs:159-174 | with sorted runs, the top of the heap is at most every object not yet written |
| ExtSort.MergeStepInv | src/extsort.rs:214-219 | a pop and refill keeps every run's remainder sorted behind its heap entry |
| ExtSort.MergeStep | src/extsort.rs:206-220 | one pop writes an object at most everything left, and keeps the invariant |
| ExtSort.MergeLoopCorrect | src/extsort.rs:206-220 | the loop's output is sorted and is a permutation of what was written plus what was left |
| ExtSort.SetupTotal | src/extsort.rs:199-203 | after setup, what is left to write is every object of every run |
| ExtSort.MergeRunsCorrect | src/extsort.rs:186-223 | merging sorted non-empty runs succeeds with a sorted permutation of their objects |
| ExtSort.ExternalSortCorrect | src/extsort.rs:49-78 | for any buffer size the external sort succeeds with exactly the sort of its input when the input has fewer than 2^32 objects, and fails with the counter overflow otherwise |
| ExtSort.EmptyInput | src/extsort.rs:125-146 | empty input writes no run and an empty output |
| LruCache.Valid | src/lrucache.rs:5-9 | defined by its body (the recency queue holds every cached key exactly once and a bounded cache is within its bound); established by LruCache.New and kept by LruCache.Insert, LruCache.Get, LruCache.GetMut and LruCache.Clear; LruCache.OrderMatchesSize draws its consequence |
| LruCache.New | src/lrucache.rs:12-26 | the cache starts empty; capacity 0 means unbounded, any other capacity is kept |
| LruCache.Position | src/lrucache.rs:42 | `position` finds the first occurrence |
| LruCache.RemoveAtPosition | src/lrucache.rs:42-43 | removing at that position takes the only occurrence out of the queue |
| LruCache.OrderMatchesSize | src/lrucache.rs:27-36 | a valid cache queues as many keys as it holds entries |
| LruCache.Evict | src/lrucache.rs:29-32 | a full bounded cache drops exactly its least recently used key; otherwise nothing changes |
| LruCache.Insert | src/lrucache.rs:27-36 | a present key changes nothing; a new key is stored with its value and queued as most recent; the invariant holds |
| LruCache.InsertEvicts | src/lrucache.rs:29-34 | inserting a new key into a full cache keeps the capacity-many entries other than the oldest key, plus the new one |
| LruCache.InsertKeeps | src/lrucache.rs:33-34 | inserting a new key into a cache with room keeps every entry |
| LruCache.ContainsKey | src/lrucache.rs:37-39 | a key is present exactly when it is queued |
| LruCache.Touch | src/lrucache.rs:42-44 | the key moves to the back of the queue; entries and capacity stay |
| LruCache.Get | src/lrucache.rs:40-49 | a present key yields its value and becomes most recent; an absent key changes nothing; the entries never change |
| LruCache.GetMut | src/lrucache.rs:50-59 | as `get`, and a write through the reference changes only that key's value |
| LruCache.Clear | src/lrucache.rs:67-70 | clearing empties the entries and the queue, and keeps the capacity |
| LruCache.GetTwice | src/lrucache.rs:40-49 | reading a key twice in a row is reading it once |
| Odch.Valid | src/odch.rs:18-22 | defined by its body (`idx` has no repeats and `map` sends the key at position i to i + 1, and holds nothing else); established by Odch.New and Odch.IndexMapValid, kept by Odch.GetOrInsert, and used by Odch.KeyIdRoundTrip |
| Odch.New | src/odch.rs:25-33 | a new hash is empty, valid and not finalized |
| Odch.IndexMap | src/odch.rs:40-42 | the rebuilt table has exactly the saved strings as keys |
| Odch.IndexMapPointsBack | src/odch.rs:40-42 | every id in the rebuilt table points back at its string |
| Odch.IndexMapPosition | src/odch.rs:40-42 | without repeats, each string's id is its position plus the base |
| Odch.IndexMapValid | src/odch.rs:76-95 | rebuilding 1-based from a vector without repeats gives the invariant `get_or_insert` keeps |
| Odch.OpenAsWritten | src/odch.rs:34-48 | `open` as written: the vector is the saved one, and the table has exactly its strings as keys |
| Odch.Open | src/odch.rs:34-48 | the corrected `open`: same vector, and a valid hash when the saved vector has no repeats |
| Odch.FromHash | src/odch.rs:50-57 | the table is kept, and the vector holds each of its keys once |
| Odch.Save | src/odch.rs:59-70 | saving panics exactly on a finalized hash, and otherwise writes the vector |
| Odch.Get | src/odch.rs:72-74 | a string is found exactly when it is in the table; on a valid hash its id is between 1 and `len` and names it |
| Odch.GetOrInsert | src/odch.rs:76-87 | it panics exactly when finalized; a known string keeps its id; a new one gets `len + 1` and is appended; afterwards `get` finds it; the invariant holds |
| Odch.GetKeyFor | src/odch.rs:93-95 | id 0 underflows; an id up to `len` gives the string at `id - 1`; a larger id gives None |
| Odch.Len | src/odch.rs:105-107 | on a valid hash, `len` is the number of strings in the table |
| Odch.GetKeys | src/odch.rs:97-99 | the keys are in id order: `get_key_for(id)` is key `id - 1` |
| Odch.GetValues | src/odch.rs:101-103 | on a valid hash the values are exactly the ids 1 to `len` |
| Odch.KeyIdRoundTrip | src/odch.rs:72-95 | on a valid hash, `get` and `get_key_for` are inverse in both directions |
| Odch.SaveOpenRoundTrip | src/odch.rs:34-70 | saving and re-opening (corrected) gives back the same hash, ids included |
| Odch.OpenAsWrittenShifts | src/odch.rs:40-42 | after `open` as written, the string saved at position i gets id i, so `get_key_for` of that id names the previous string, or underflows for the first |
| Odch.OpenAsWrittenExample | src/odch.rs:40-42 | save ["a", "b"], open: "b" gets id 1, which names "a", and "a" gets id 0, which underflows |
| Mycal.DocsValid | src/lib.rs:73-76 | defined by its body (intids are dense, `docs[i]` has intid i, and `m` is the reverse of `docs`); established by Mycal.NewDocs and kept by Mycal.AddDoc |
| Mycal.NewDocs | src/lib.rs:79-84 | a new `Docs` is empty and valid |
| Mycal.GetIntid | src/lib.rs:89-91 | a docid is found exactly when it is known; its intid indexes the entry for it |
| Mycal.AddDoc | src/lib.rs:92-105 | a known docid keeps its intid; a new one gets the next dense 0-based intid and an entry; afterwards `get_intid` finds it; validity is kept |
| Mycal.AddDocIdempotent | src/lib.rs:92-105 | adding a docid twice is adding it once |
| Mycal.DictValid | src/lib.rs:115-119 | defined by its body (token ids are 1-based and distinct, and `last_tokid` counts the tokens); established by Mycal.NewDict and kept by Mycal.AddTok (Mycal.IncrDf leaves `m` and `last_tokid` unchanged); Mycal.AddTokDistinct draws its consequence |
| Mycal.NewDict | src/lib.rs:122-128 | a new `Dict` is valid, with no tokens and no document frequencies |
| Mycal.HasTok | src/lib.rs:133-135 | `has_tok` agrees with `get_tokid` |
| Mycal.GetTokid | src/lib.rs:136-138 | a token is found exactly when known; on a valid dict its id is between 1 and `last_tokid` |
| Mycal.AddTok | src/lib.rs:139-147 | a known token keeps its id; a new one gets `last_tokid + 1`; afterwards `get_tokid` finds it; validity is kept |
| Mycal.AddTokIdempotent | src/lib.rs:139-147 | adding a token twice is adding it once |
| Mycal.AddTokDistinct | src/lib.rs:139-147 | two different tokens get different ids |
| Mycal.IncrDf | src/lib.rs:148-150 | the token's document frequency goes up by one, from 0 when absent, and nothing else changes |
| Mycal.NewFeatureVec | src/lib.rs:173-179 | a new vector has the docid, no features and squared norm 0 |
| Mycal.NumFeatures | src/lib.rs:187-189 | the count is the number of indices `feature_at` accepts |
| Mycal.FeatureAt | src/lib.rs:190-192 | index i gives feature i's id, and an index past the end panics |
| Mycal.ValueAt | src/lib.rs:193-195 | index i gives feature i's value, and an index past the end panics |
| Mycal.Push | src/lib.rs:196-198 | pushing keeps the docid and the squared norm |
| Mycal.PushThenRead | src/lib.rs:187-198 | after a push there is one more feature, the last is the pushed (id, value), and the earlier ones are unchanged |
| Mycal.LowerAndStem | src/lib.rs:320-321 | each piece is lowercased, then stemmed when all of it is alphabetic |
| Mycal.Tokenize | src/lib.rs:317-323 | every token comes from a split piece of at least two bytes, lowercased and stemmed when alphabetic |
| Mycal.LowerAndStemAppend | src/lib.rs:320-321 | the per-piece steps distribute over concatenation |
| Mycal.TokenizeAround | src/lib.rs:317-323 | text on either side of a non-alphanumeric character is tokenized independently |
| Mycal.TokenizeWord | src/lib.rs:317-323 | one alphanumeric word gives one token when it is at least two bytes long, and none otherwise |
| Text.Utf8Width | src/lib.rs:319 | a character takes 1 to 4 UTF-8 bytes, and 1 exactly when it is ASCII |
| Text.Utf8Len | src/lib.rs:319 | `str::len` lies between the character count and four times it |
| Text.AsciiLen | src/lib.rs:319 | an ASCII string's byte length is its character count |
| Text.Split | src/lib.rs:318 | there is one more piece than split points, and no piece holds a split point |
| Text.Separators | src/lib.rs:318 | the split points are the characters the predicate rejects |
| Text.SplitJoin | src/lib.rs:318 | the pieces and the split points rebuild the text |
| Text.SplitAround | src/lib.rs:318 | a split point divides the text into two independently split halves |
| Text.SplitUnbroken | src/lib.rs:318 | text without split points is one piece |
| Text.Finish | src/tok.rs:32-38 | an all-alphabetic piece is stemmed; any other is kept as it is |
| Text.Long | src/lib.rs:319 | the filter keeps only pieces of at least two bytes, and keeps every such piece |
| Text.LongAppend | src/lib.rs:319 | the filter distributes over concatenation |
| Index.PostingLe | src/index.rs:29-33 | defined by its body (the derived `Ord`: `doc_id`, then `tf`); characterised by Index.PostingLeIsTotalOrder and Index.SortPostings |
| Index.PostingLeIsTotalOrder | src/index.rs:29-33 | the derived order, `doc_id` then `tf`, is a total order |
| Index.AddPosting | src/index.rs:54-59 | it succeeds exactly when doc_id and tf are both non-zero, and then appends the posting |
| Index.SortPostings | src/index.rs:63 | sorting yields a sorted permutation of the postings |
| Index.GapWalk | src/index.rs:66-74 | on success, each gap is positive, carries the posting's tf, and the gaps add up to the docids |
| Index.GapWalkSucceeds | src/index.rs:66-74 | on ascending docids the walk succeeds exactly when the ids strictly ascend from the start |
| Index.BytesToSerialize | src/index.rs:60-76 | the list ends up sorted; the size is computed exactly when the sorted docids strictly ascend from 0, and it is then exactly the vbyte size of the u32 count plus the magic size of every (docid gap, frequency) pair |
| Index.SortedAscending | src/index.rs:63-74 | a sorted list has ascending docids |
| Index.Pairs | src/index.rs:87-95 | one (docid, tf) item per posting, in order |
| Index.SerializeInto | src/index.rs:77-97 | the list ends up sorted, and the buffer holds one item more than there are postings (the count) |
| Index.ReadPostings | src/index.rs:107-121 | on success exactly n postings are read |
| Index.Deserialize | src/index.rs:99-123 | an empty buffer fails on the count's `unwrap`; on success the list has as many postings as the count says |
| Index.ReadPairs | src/index.rs:107-121 | the items written for postings read back as those postings |
| Index.SerializeRoundTrip | src/index.rs:132-147 | with fewer than 2^32 postings, deserializing a serialized list gives the sorted list |
| Index.SerializedListsMatch | src/index.rs:132-147 | the test's scenario: with distinct non-zero docids, the size is computed, and the list read back equals the sorted list |
| Index.NewInvertedFile | src/index.rs:185-193 | a new inverted file has no offsets, no cached lists and a zero count |
| Index.AddToFile | src/index.rs:194-198 | it succeeds exactly when docid and tf are non-zero; the token's list gains the posting, starting empty when new; other tokens' lists, the offsets and the count are untouched |
| Index.GetPostingList | src/index.rs:200-219 | a cached list is returned as is; a saved one is read and cached; an unknown token is an error |
| Index.GetPostingListTwice | src/index.rs:200-212 | asking twice gives the same list, and the second request changes nothing |
| Index.MemUsage | src/index.rs:221-223 | the usage is the count times 8, the size of a `Posting` |
| Index.MemUsageUnaffected | src/index.rs:194-198 | adding postings never changes the reported usage, which starts at 0 |
| Tok.CeilSqrt | src/tok.rs:111 | the result is the least c with c*c ≥ n |
| Tok.NoSmallDivisorPrime | src/tok.rs:105-120 | a number with no divisor from 2 up to its ceiling square root is prime |
| Tok.WheelCovers | src/tok.rs:108-114 | once 2 and 3 are ruled out, every divisor is at least 5 and is 1 or 5 mod 6 |
| Tok.WheelStep | src/tok.rs:112-114 | testing p and p + 2 covers every candidate below p + 6 |
| Tok.WheelComplete | src/tok.rs:112-118 | a wheel that passes the ceiling square root without a divisor proves n prime |
| Tok.CandidateBelow | src/tok.rs:112-116 | a candidate the loop finds is a proper divisor, so n is not prime |
| Tok.IsPrime | src/tok.rs:105-120 | `is_prime` answers exactly whether n is prime |
| Tok.NewHashed | src/tok.rs:91-103 | the modulus is the least odd prime at or above the one requested; running past the u32 range overflows exactly when there is no such prime |
| Tok.SmallModulusIsThree | src/tok.rs:91-103 | requested moduli 0, 1 and 2 all become 3 |
| Tok.HashStep | src/tok.rs:126-128 | defined by its body (one step of the djb variant on u64, `(h << 5) ^ (h >> 2) ^ c`); characterised by Tok.HashExamples |
| Tok.HashFold | src/tok.rs:123-128 | defined by its body (the step fed every byte, front to back, from 5381); characterised by Tok.HashFoldAppend, Tok.Hash and Tok.HashExamples |
| Tok.HashFoldAppend | src/tok.rs:123-128 | hashing can be resumed: feeding a + b is feeding a, then b |
| Tok.Hash | src/tok.rs:123-131 | the hash is below the modulus, and is the 64-bit fold reduced by it |
| Tok.HashExamples | src/tok.rs:123-128 | the fold starts at 5381 and gives 173440 after "a" and 5511426 after "ab" |
| Tok.Utf8Char | src/tok.rs:84 | a character's UTF-8 bytes: ASCII alone, otherwise a lead byte and continuation bytes |
| Tok.Utf8Encode | src/tok.rs:84 | `as_bytes` has `str::len` bytes |
| Tok.NatToString | src/tok.rs:85 | decimal digits without a leading zero |
| Tok.NatToStringValue | src/tok.rs:85 | the digits spell the number |
| Tok.ParseUnsigned | src/tok.rs:160-165 | a parse result is in range and spelt by the digits, optionally after a '+' |
| Tok.ParsePrinted | src/tok.rs:160-165 | printing a number in range and parsing it gives it back |
| Tok.ParseRejects | src/tok.rs:160-165 | "", "+" and "-1" do not parse |
| Tok.EnglishTokenize | src/tok.rs:28-40 | every token is a piece of the lowercased text of at least two bytes, stemmed when alphabetic, and every such piece gives a token |
| Tok.EnglishAgreesWithTokenize | src/tok.rs:28-40 | on text lowercasing leaves alone, piece by piece, the English tokenizer and the crate-level `tokenize` agree |
| Tok.Concat | src/tok.rs:60 | defined by its body (`join("")`); characterised by Tok.ConcatAppend and Tok.UnigramsRebuild |
| Tok.ConcatAppend | src/tok.rs:60 | `join("")` distributes over concatenation |
| Tok.Windows | src/tok.rs:59-60 | there are \|gs\| - n + 1 windows, none when \|gs\| < n, and window i joins gs[i..i+n] |
| Tok.UnigramsRebuild | src/tok.rs:56-61 | windows of one grapheme join back to the text |
| Tok.Graphemes | src/tok.rs:54-57 | defined by its body (lowercase, NFKC, grapheme segmentation, all through the text operations the model takes as parameters); characterised by Tok.NGramsTokenize and Tok.UnigramsRebuild |
| Tok.NGramsTokenize | src/tok.rs:53-62 | `windows(0)` panics; otherwise the tokens are the windows of the graphemes |
| Tok.HashAll | src/tok.rs:84-85 | each window becomes the decimal form of the hash of its UTF-8 bytes |
| Tok.HashedTokenize | src/tok.rs:76-87 | it fails exactly on n = 0 or modulus 0, and otherwise gives one token per n-gram |
| Tok.HashedTokensInRange | src/tok.rs:76-87 | each hashed token parses back as a number below the modulus, the hash of the n-gram at the same position |
| Tok.TokenizeWith | src/tok.rs:10-13 | each tokenizer kind dispatches to its own `tokenize` |
| Tok.Name | src/tok.rs:49-74 | the n-gram name is `ngram.N` and the hashed one `ngramhashed.N.H` |
| Tok.Field | src/tok.rs:160-165 | a `.`-field is read exactly when it exists and parses, and is then in range |
| Tok.ArmsDisjoint | src/tok.rs:157-170 | at most one arm of the match applies |
| Tok.Choose | src/tok.rs:156-174 | each arm: `englishstemlower`, `ngram.N` (N must parse as usize), `nghash.N.H` (N as usize, H as u32), `xlmr`, and English for anything else |
| Tok.GetTokenizer | src/tok.rs:156-174 | the chosen tokenizer is built, with the hashed modulus rounded up to a prime; a hashed request fails, with `Overflow`, exactly when no odd prime at or above the requested modulus fits in a u32 |
| Tok.SplitDotted | src/tok.rs:164-165 | `a.b` splits into [a, b] when neither holds a dot |
| Tok.NGramsNameRoundTrip | src/tok.rs:49-51 | an n-gram tokenizer's name chooses the same tokenizer again |
| Tok.EnglishNameRoundTrip | src/tok.rs:24-26 | the English tokenizer's name chooses it again |
| Tok.HashedRequest | src/tok.rs:163-166 | `nghash.N.H` asks for the hashed tokenizer with N and H |
| Tok.OtherNamesFallBack | src/tok.rs:156-174 | the names the hashed and XLM-R tokenizers report (`ngramhashed.N.H`, `XLMR`) choose the English tokenizer |
| Tok.Step | src/tok.rs:208-214 | one token: the id is `add_tok`'s; df goes up only the first time the id is met in this document; the id's count goes up by one |
| Tok.Process | src/tok.rs:208-214 | the dictionary gains exactly the document's tokens, keeps the old ids, and stays valid |
| Tok.FirstTokenId | src/tok.rs:209 | the id the first token gets is the one the final dictionary gives it |
| Tok.ProcessCounts | src/tok.rs:213 | each id's count grows by the number of tokens the final dictionary maps to it |
| Tok.ProcessDf | src/tok.rs:210-212 | an id's df goes up by one exactly when some token maps to it and it was not yet counted |
| Tok.CountIdIsCount | src/tok.rs:208-214 | with distinct ids, counting a token's id is counting the token |
| Tok.CountsOfDocument | src/tok.rs:208-214 | for a fresh document, each token's count is its number of occurrences and its df goes up by exactly one |
| Tok.TokenizeAndMap | src/tok.rs:185-217 | a missing or non-string docid field fails first, then the text field; on success the docid is the field's string and counts and dictionary are the loop's |
| Review.QrelsLine | run.py:98-103 | a line is accepted exactly when it has four fields and, for this topic, a readable relevance |
| Review.LoadQrels | run.py:97-103 | loading succeeds exactly when every line is accepted |
| Review.LoadQrelsFirstError | run.py:98-100 | the error names the first rejected line |
| Review.LoadQrelsKeys | run.py:97-103 | the judged documents are exactly those named on a line of the topic |
| Review.LoadQrelsLastWins | run.py:103 | a document's last judgment is the one kept |
| Review.Positives | run.py:122-123 | the relevant entries are at most all entries |
| Review.PositivesAppend | run.py:122-123 | relevant counts add over concatenation |
| Review.IdsAppend | run.py:126 | appending an entry adds its document |
| Review.PoolLine | run.py:113-126 | a pool line is accepted exactly when it has at least four fields and, for this topic, a readable rank; a selected line appends its document with its judgment, 0 when unjudged |
| Review.Seed | run.py:109-126 | seeding succeeds exactly when every pool line is accepted, and every seed entry carries its document's judgment |
| Review.SeedIds | run.py:113-126 | the seed holds exactly the documents of the selected lines |
| Review.SeedAppend | run.py:113-126 | seeding keeps file order: two pools seed the concatenation of their seeds |
| Review.Put | run.py:176 | dict assignment: a new document is appended, a known one keeps its place with the new label, and a list without repeats stays without repeats |
| Review.ReadTrain | run.py:144-151 | reading a training file gives its documents once each |
| Review.ReadTrainDistinct | run.py:144-151 | a file without repeated documents reads back unchanged |
| Review.ReadTrainLastWins | run.py:151 | the last label written for a document is the one read back |
| Review.PutKeepsOthers | run.py:176 | putting one document leaves the others' entries in place |
| Review.Judged | run.py:166-176 | the returned documents with their judgments, in scored order |
| Review.Absorb | run.py:159-176 | on success the training set gains the judged entries and the count is their relevant ones; an error names a returned document |
| Review.JudgedCons | run.py:166-176 | judging peels off one document at a time |
| Review.AbsorbOkIffFresh | run.py:160-164 | a step aborts exactly when some returned document is already in the training set or returned twice |
| Review.Step | run.py:136-192 | `one_step` fails on step < 1, a failed score, a duplicate or a failed train; otherwise the counters move by the returned documents and the relevant ones, and `zero_steps` resets or grows |
| Review.EffectiveMaxSteps | run.py:200-201 | an unset or 0 `max_steps` becomes the number of judged documents |
| Review.Holds | run.py:210-223 | defined by its body (each stopping test of the loop taken on its own); characterised by Review.Stop |
| Review.LowYieldTest | run.py:219 | defined by its body (run.py: more than three new relevant and more than 40% relevant; webcal-run.py:227: fewer than three and less than 40%); characterised by Review.LowYieldOpposite and Review.RunPyLowYieldNeedsFour |
| Review.Stop | run.py:210-225 | the first criterion that holds, in the script's order, or none |
| Review.LowYieldOpposite | webcal-run.py:227-230 | the two scripts' low-yield tests never both hold |
| Review.RunPyLowYieldNeedsFour | run.py:219-222 | run.py's low-yield stop cannot fire on a step that returns three documents or fewer |
| Review.AfterStep | run.py:205-207 | `sum_prec` gains the current precision exactly when the step found something |
| Review.Loop | run.py:203-225 | a finished loop has run at least one more step, and its reported reason is the first criterion, in the order the loop tests them, that holds at the final state; since the criteria are tested after every step, a nonzero `max_steps` above the starting step bounds the final step, which equals `max_steps` when that is the reason (and a `max_steps` already reached stops after one step) |
| Review.Run | run.py:194-225 | a judgments error ends the run; a finished run had a non-empty trained seed and some relevant document (both are divisors), ran at least one step, and its reported reason is the first criterion, in the loop's order, that holds at the final state with the effective `max_steps` and the number of relevant documents; with a positive effective `max_steps` the run takes at most that many steps, exactly that many when it is the reason, and with a negative one it stops after the first step |
| Review.AppendFresh | run.py:160-176 | fresh documents keep the training set free of repeats |
| Review.StepConsistent | run.py:159-176 | a step keeps the counters meaningful: distinct documents, each with its judgment, `rel_seen` and `docs_reviewed` counting them |
| Review.PositivesAreRelevantIds | run.py:122-123 | without repeats, the relevant count is the number of relevant documents |
| Review.NumRel | run.py:104 | defined by its body (the number of judged documents with relevance above 0); characterised by Review.ConsistentBound and Review.RunRelSeenBounded |
| Review.ConsistentBound | run.py:104 | meaningful counters never report more relevant documents seen than `num_rel` |
| Review.LoopConsistent | run.py:203-225 | the loop keeps the counters meaningful |
| Review.RunRelSeenBounded | run.py:104-225 | with a seed without repeats, `rel_seen` never exceeds `num_rel` |

## Left out

- File, database and network I/O are left out: reading and writing files,
  bincode, lz4 frames, the `kv` store behind `DocsDb`, `Docs::load` /
  `save`, `InvertedFile::open` / `save`, and `FeatureVec::read_from` /
  `write_to`. What they hold is modelled as values: the saved `idx`
  vector, posting-list items, training-file lines.
- Logging, printing, progress bars, locks and `sys.exit` messages are left
  out. An exit is an error value.
- The subprocess and HTTP calls of the review scripts (train, score) are
  reduced to success flags and a list of returned docids. Scores are not
  used by the controller.
- `OutOfResponses` is an artefact of feeding the loop a finite list of
  responses. The source simply runs until a rule fires.
- The training-file topic check (run.py:148-150) cannot fire. The
  controller writes every line itself with the right topic, so it is not
  modelled.
- `f32` / `f64` are not modelled bit for bit:
  - document frequencies are `nat`;
  - feature values are `real`;
  - Python's float ratios are exact rationals.
  A float comparison at the exact boundary could round differently.
- `Tok.IsPrime` uses the exact integer ceiling square root in place of
  `(n as f64).sqrt().ceil()`. The two agree on every value `new` passes
  (u32 range); f64 rounding for 64-bit inputs is not modelled.
- Overflow of `usize` counters (`docs_reviewed`, `last_tokid`, the `i32`
  token counts in `tokenize_and_map`) is not modelled: they are
  unbounded.
- Index.SerializeRoundTrip: requires fewer than 2^32 postings. Beyond
  that, `len() as u32` truncates the count, and the round trip does not
  hold.
- `MagicEncodedBuffer`, `magic_bytes_required` and `vbyte_bytes_required`
  are not part of this model. The buffer is a sequence of written items,
  and the two size functions are parameters of `Index.BytesToSerialize`.
- The XLM-R vocabulary and model are a parameter. So are NFKC
  normalisation, grapheme segmentation, Unicode lowercasing, the character
  classes and the Porter stemmer.
- `LruCache::iter` / `into_iter` expose the map and are left out. The
  operations assume the invariant `New` establishes (`Valid`), which every
  operation keeps.
- `OnDiskCompressedHash::map` returns the table, which is a field here.
  `from_hash`'s key order is `HashMap` iteration order, taken as a
  parameter.
- `Classifier` (src/lib.rs:201-310) is not part of this model. It is
  floating-point training code outside the core.

## Findings

| source | as written | input that shows it | evidently intended | confidence | as-written member | corrected member |
|---|---|---|---|---|---|---|
| src/odch.rs:40-42 | `open` rebuilds the table with 0-based positions `i`, while `get_or_insert` hands out `idx.len() + 1` and `get_key_for` reads `idx[intid - 1]` | save ["a", "b"] and open: `get("b")` is 1 and `get_key_for(1)` is "a"; `get("a")` is 0 and `get_key_for(0)` underflows | insert `i + 1`, so ids survive a save and open | not executed; high | Odch.OpenAsWrittenShifts | Odch.SaveOpenRoundTrip |
| src/compress.rs:90 | `MAGIC_F + freq - 1` adds before subtracting in `u32` | `encode_magic(1, u32::MAX)` writes 4 and then u32::MAX - 3; decoding computes 4 + (u32::MAX - 3), which overflows (a debug-build panic; a release build wraps to the right value) | `freq + (MAGIC_F - 1)`, which cannot overflow on anything `encode_magic` writes | not executed; medium | Compress.MagicRoundTripAsWritten | Compress.MagicRoundTrip |

## Where the description and the code differ

The model follows the code in each case.

- A `max_steps` of 0 (or unset) means the number of judged documents
  (run.py:200-201), not "stop after seeding". The loop body always runs at
  least one step before any stopping test (`Review.Run`). With no relevant
  judgment (in particular with no judged documents at all), the run aborts
  before the loop: `sum_prec / num_rel` divides by zero (run.py:198,
  webcal-run.py:206), which is `NoRelevant` here.
- The two scripts' low-yield rules point in opposite directions
  (run.py:219 against webcal-run.py:227). Both are kept as variants, and
  `Review.LowYieldOpposite` shows that they never agree.
- The names the hashed and XLM-R tokenizers report (`ngramhashed.N.H`,
  `XLMR`) are not the names `get_tokenizer` accepts (`nghash.N.H`,
  `xlmr`). Feeding them back gives the English tokenizer
  (`Tok.OtherNamesFallBack`).
