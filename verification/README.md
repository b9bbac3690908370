# A verified model of the core of ariannamethod/pro

This project models, in Dafny, the deterministic core of the `pro`
conversational engine. The core is the part whose behaviour is integer,
string, list and dictionary logic. It is written in Python; one Dafny
module stands for each core source file, plus a few shared helper
modules:

- **N-gram bookkeeping and replies** (`Sequence`, `Engine`, `Tune`,
  `Predict`, `Metrics`): word and bigram counting, charged-word ranking
  and reply assembly, the trigram-key serialisation and its round trip,
  the co-occurrence graph with its normalised vectors, and the tokenizer
  and resonance score.
- **String helpers** (`Morphology`, `GrammarFilters`, `Identity`,
  `RagEmbedding`): greedy affix stripping, the pronoun swappers, the
  subject-verb-object splitter and the character histogram.
- **Dialogue stores** (`Dialogue`, `MemoryStoreModel`, `MemoryStorage`,
  `MemoryGraph`, `MemoryLattice`, `SimpleMemory`, `ProMemory`): classes
  whose node lists only grow. Every vector-backed node points at its own
  row of one embedding matrix, and the getters return copies.
- **Graphs and replicated state** (`Hypergraph`, `Subgraph`, `ProMesh`,
  `P2PResonance`):
  - the hypergraph and the context subgraph;
  - the mesh node's XOR cipher under Base64 (section 4 of RFC 4648),
    read as leniently as Python's `b64decode`;
  - the version-then-weight gossip merge, and the peer commands with
    Python's `int()` parsing;
  - the gradient queue.
- **Bit-level and grid algorithms** (`Quant4`, `QuantumAttention`):
  - the signed 4-bit codec and its round trip;
  - the flood-fill component count, proved to count 4-connected
    components, and the Betti pair derived from it.
- **Search and bookkeeping** (`Forecast`, `TimeFold`, `AmplitudeMemory`,
  `FractalMemory`, `AutoAdapt`, `AdaptTrainer`, `ProEvo`, `MetaControl`,
  `SelfReflect`, `Collider`, `DreamMode`, `Reasoning`):
  - the forecast tree and its traversal;
  - the amplitude memories;
  - the layer mutator and the metric window;
  - the training schedule;
  - the model variants;
  - the epsilon-greedy bandit;
  - the weakness detector;
  - the semantic collider;
  - the dream dialogue;
  - the symbolic AND/OR/NOT layers and expression evaluator.

Python exceptions are modelled as values: a `Result` is `Ok(value)` or
`Err(error)`, with the error naming the Python exception class. Floating
point numbers are real numbers. Randomness, encoders, scorers and other
numeric black boxes are parameters, or choices the contracts leave
open.

All three add operations follow the intended row-append step
`Dialogue.Stack`, not the `.size` test the source writes:
`MemoryStoreModel.AddOutcome`, `MemoryStorage.StorageAdd` and
`MemoryGraph.GraphAdd`, with the methods that call them. The two differ
only for a matrix of width 0; see "## Findings".

## Model

| member | source | states |
|---|---|---|
| Engine.Tally | pro_engine.py:97 | `Counter(words)`: exactly the input words are keys, each mapped to its number of occurrences |
| Engine.ChargeMapMeaning | pro_engine.py:99-101 | a word is charged iff it occurs in the input, and its charge is its frequency times one plus its number of distinct successors in the bigram table |
| Engine.ComputeChargedWords | pro_engine.py:96-103 | the result is min(5, number of distinct words) distinct input words in non-increasing charge order, and no input word left out has a higher charge than a returned one |
| Engine.ComputeCharges | pro_engine.py:99-101 | the loop leaves every counted word with exactly its charge |
| Engine.ChargedWordsProps | pro_engine.py:96-103 | the same properties for the functional definition (at most five, distinct, from the input, ordered, maximal) |
| Engine.Padding | pro_engine.py:108-121 | 1..4 seeds receive exactly 5 - len(charged) additional words |
| Engine.Picks | pro_engine.py:111-117 | the vocabulary words chosen by the first padding loop are at most as many as are missing |
| Engine.Capitalize | pro_engine.py:122-124 | capitalisation keeps the length and every character after the first |
| Engine.NonEmpty | pro_engine.py:126 | `filter(None, words)` leaves only non-empty words |
| Engine.PadSeeds | pro_engine.py:108-121 | the padding loops compute exactly the padding: fresh words first, then the repeated seeds |
| Engine.AppendAll | pro_engine.py:119-120 | the second padding loop appends the words of `(charged * 5)[:k]` in order |
| Engine.ScanFresh | pro_engine.py:113-117 | the first padding loop keeps the first `missing` non-empty, non-seed words in vocabulary order and stops there |
| Engine.Respond | pro_engine.py:105-127 | the reply is the specified sentence; no seeds gives exactly "Silence echoes within void."; every reply ends with "." |
| Engine.FreshStep | pro_engine.py:114-115 | one step of the scan adds the next word exactly when it is fresh, never one already added |
| Engine.FreshTake | pro_engine.py:113-117 | stopping at the end or at `missing` words both yield the first `missing` fresh words |
| Engine.RepeatPeriodic | pro_engine.py:119 | `s * n` starts with s and repeats with period len(s) |
| Engine.PaddedLength | pro_engine.py:108-121 | one to four seeds are padded to exactly five words, seeds first |
| Engine.PicksProps | pro_engine.py:110-118 | the padding starts with non-empty, non-seed, distinct vocabulary words in descending count order, and falls back to the seeds only when no other such word exists |
| Engine.PaddingCycle | pro_engine.py:118-120 | after the fresh words come the seeds in order, repeating with period len(charged) |
| Engine.CycleAfter | pro_engine.py:119 | after any prefix, a slice of `c * 5` starts with c and repeats with period len(c) |
| Engine.CapitalizeProps | pro_engine.py:122-124 | only the first character of the first word may change, and it is upper-cased exactly when it is a lower-case letter |
| Engine.RespondProps | pro_engine.py:122-127 | the reply is the blank-joined non-empty words among the capitalised first padded word and the next four, followed by ".", so at most five words |
| Engine.DatasetChangedIff | pro_engine.py:75-78 | a change is detected iff the old and new file-to-digest maps differ; removing a file alone is a change |
| Sequence.Pairs | pro_sequence.py:7-13 | the start-prefixed stream has exactly len(words) consecutive pairs |
| Sequence.NGramState.AnalyzeSequences | pro_sequence.py:3-13 | the word table gains the start marker and every word, and the bigram table every consecutive pair of the start-prefixed stream, as the counting functions define |
| Sequence.CountWordsDelta | pro_sequence.py:8-10 | each word's count grows by exactly its number of occurrences |
| Sequence.CountWordsKeys | pro_sequence.py:5-10 | a missing table is created empty; no key is lost, and the keys afterwards are the old ones and the counted words |
| Sequence.CountPairsDelta | pro_sequence.py:11-13 | each pair, starting with ('<s>', words[0]), raises its bigram count by the number of times it occurs |
| Sequence.StartCounted | pro_sequence.py:7-8 | the start marker's count grows by exactly one per call, plus any occurrences of the marker among the words |
| Sequence.Monotone | pro_sequence.py:8-12 | no word or bigram count ever decreases |
| Metrics.Tokenize | pro_metrics.py:5-10 | the tokens are non-empty, lower-case runs of word characters, and together they are exactly the word characters of the lower-cased text, in order |
| Metrics.TokenizeLowerInvariant | pro_metrics.py:10 | `tokenize(t) == tokenize(t.lower())` |
| Metrics.Resonance | pro_metrics.py:39-48 | no words give 0.0; otherwise the sum of the bigram counts along the '<s>'-prefixed path divided by len(words), unseen bigrams counting 0 |
| Metrics.PathSumNonNegative | pro_metrics.py:43-48 | with non-negative counts the path sum, hence the resonance, is non-negative |
| Metrics.LearnedPathSum | pro_metrics.py:43-48 | after counting a sentence into empty tables, every one of its bigrams counts at least once, so its resonance is at least 1 |
| Tune.SplitSep | pro_tune.py:41 | `str.split` always returns at least one piece |
| Tune.Serialize | pro_tune.py:28-35 | the result is a new state whose non-trigram fields are the input's, and the input is left as it was |
| Tune.Deserialize | pro_tune.py:38-45 | only keys that split into exactly two pieces are kept, each as the pair of its pieces with its value; every pair in the result comes from such a key; other fields pass through |
| Tune.SplitJoinKey | pro_tune.py:31-41 | splitting a joined key gives back its two words when neither contains U+0001 |
| Tune.JoinKeyInjective | pro_tune.py:31 | distinct separator-free pairs join to distinct keys |
| Tune.SplitTwo | pro_tune.py:41-43 | a key that splits into exactly two pieces is those pieces joined |
| Tune.LoadTrigramsProps | pro_tune.py:39-43 | the deserialising loop maps every two-piece key to its pair with its value, and nothing else |
| Tune.SaveTrigramsProps | pro_tune.py:30-33 | the serialising comprehension keeps one key per trigram, in table order, with its value |
| Tune.SavedKeyFresh | pro_tune.py:30-33 | no two trigrams collide on one key when no word holds the separator |
| Tune.LoadSaved | pro_tune.py:28-45 | loading the first m saved keys rebuilds the first m trigrams |
| Tune.RebuildPrefix | pro_tune.py:39-43 | the rebuilt table holds the first m trigrams, in order |
| Tune.LoadedAll | pro_tune.py:44 | a table holding all trigrams in order with their values is the original table |
| Tune.RoundTrip | pro_tune.py:28-45 | `_deserialize_state(_serialize_state(s)) == s` when no trigram word contains U+0001 |
| Predict.Divisor | pro_predict.py:41 | `sum(...) or 1` is never zero |
| Predict.BuildVector | pro_predict.py:41-42 | a vector has exactly the neighbours as keys, each entry its count divided by the divisor |
| Predict.BuildEmbeddings | pro_predict.py:35-43 | one vector per word of the graph, so after `update` every graph key has a vector |
| Predict.Predictor.EnsureVectors | pro_predict.py:46-51 | existing vectors leave graph and vectors untouched; otherwise the loaded graph and its embeddings are installed |
| Predict.Predictor.Update | pro_predict.py:54-70 | every weight grows by the number of counted position pairs i < j of non-empty lower-cased words joining its two words, in either direction; a symmetric graph stays symmetric; the vectors are rebuilt from the new graph |
| Predict.CountRow | pro_predict.py:64-69 | the inner loop pairs position i with every later position as the row fold defines |
| Predict.RowFoldWeight | pro_predict.py:64-69 | one row adds to every weight exactly the mass of that row's pairs |
| Predict.AllMassSymmetric | pro_predict.py:68-69 | the added mass of (a, b) equals that of (b, a), which keeps the graph symmetric |
| Predict.SelfPairAddsTwo | pro_predict.py:68-69 | a pair of positions holding the same word adds two to that word's self-count |
| Predict.RowMassEmptyWord | pro_predict.py:66-67 | pairs with an empty word are skipped: the empty word gains no weight |
| Predict.VectorSumsToOne | pro_predict.py:41-42 | every neighbour has an entry, and the entries of a vector with a non-zero total add up to exactly 1 |
| Predict.EmptyVector | pro_predict.py:41-42 | an empty neighbour table yields an empty vector |
| Morphology.FirstPrefixNone | morphology.py:76-81 | the prefix search finds nothing exactly when no listed prefix fits with two characters to spare |
| Morphology.FirstSuffixNone | morphology.py:87-92 | the suffix search finds nothing exactly when no listed suffix fits with two characters to spare |
| Morphology.FindPrefix | morphology.py:76-81 | the inner loop with its `break` returns the first fitting prefix in the sorted list |
| Morphology.FindSuffix | morphology.py:87-92 | the inner loop with its `break` returns the first fitting suffix in the sorted list |
| Morphology.PeelPrefixes | morphology.py:73-81 | the first `while changed` loop computes the specified prefix stripping, and it terminates because the root shrinks |
| Morphology.PeelSuffixes | morphology.py:84-92 | the second `while changed` loop computes the specified suffix stripping, outermost suffix first |
| Morphology.Split | morphology.py:67-94 | `split` returns the specified (root, prefixes, suffixes), with the suffixes reversed into textual order |
| Morphology.FirstPrefixLargest | morphology.py:76 | with the affixes sorted by non-increasing length, the first fitting prefix is a longest fitting one |
| Morphology.FirstSuffixLargest | morphology.py:87 | with the affixes sorted by non-increasing length, the first fitting suffix is a longest fitting one |
| Morphology.LongestPrefixChosen | morphology.py:74-81 | each prefix step strips a longest fitting prefix, and a step is taken exactly when some prefix fits |
| Morphology.LongestSuffixChosen | morphology.py:85-92 | each suffix step strips a longest fitting suffix, and a step is taken exactly when some suffix fits |
| Morphology.StripPrefixesSpell | morphology.py:77-79 | the stripped prefixes put back in front of the root give the word again |
| Morphology.StripPrefixesRest | morphology.py:76-81 | every stripped prefix is listed, the root keeps no fitting prefix, and a root that lost anything keeps at least two characters |
| Morphology.StripSuffixesSpell | morphology.py:88-94 | the stripped suffixes, in textual order after the root, give the word again |
| Morphology.StripSuffixesRest | morphology.py:87-92 | every stripped suffix is listed, the root keeps no fitting suffix, and a root that lost anything keeps at least two characters |
| Morphology.SplitSpells | morphology.py:67-94 | prefixes + root + suffixes spell the word |
| Morphology.SplitAffixesKnown | morphology.py:67-94 | every prefix and every suffix split returns is a listed one |
| Morphology.SplitRootBare | morphology.py:67-94 | the root split returns keeps no listed suffix, and it is the whole word or at least two characters long |
| Morphology.SplitProps | morphology.py:67-94 | prefixes + root + suffixes spell the word; every affix is a listed one; the root is the whole word or at least two characters long |
| Morphology.NothingToStrip | morphology.py:67-94 | a word with no fitting prefix or suffix comes back as (word, [], []) |
| GrammarFilters.SwapPronouns | grammar_filters.py:68-80 | the swap preserves the number of words |
| GrammarFilters.SwapPronounsMeaning | grammar_filters.py:70-80 | every listed spelling becomes its table entry and every other word is kept |
| GrammarFilters.SwapTwice | grammar_filters.py:70-80 | swapping twice restores the words exactly when none is "i", "You", "me" or "Me", the spellings whose image maps back to a different spelling |
| GrammarFilters.SwapExamples | grammar_filters.py:71-73 | "I like my cat" becomes "you like your cat" and "you said" becomes "I said" |
| GrammarFilters.PassesFilters | grammar_filters.py:25-28 | empty or whitespace-only text is rejected |
| GrammarFilters.PassesFiltersNonBlank | grammar_filters.py:25-66 | text with a non-blank character passes exactly when none of the rules matches |
| Identity.SwapPronouns | pro_identity.py:12-14 | the swap preserves the number of tokens |
| Identity.SwapPronounsMeaning | pro_identity.py:3-14 | mapped tokens take their entry ("you" becomes "I", "yourself" becomes "myself"); other tokens, including a capitalised "You", are kept |
| Identity.SwapIdempotent | pro_identity.py:3-14 | no value of the map is a key, so swapping twice equals swapping once |
| RagEmbedding.CharVector | pro_rag_embedding.py:14-18 | a fresh 256-entry array holding the bucket counts of the lower-cased text |
| RagEmbedding.BucketsCount | pro_rag_embedding.py:16-17 | bucket b holds the number of characters whose code is b modulo 256 |
| RagEmbedding.BucketsSum | pro_rag_embedding.py:16-17 | the bucket counts add up to the number of characters counted |
| RagEmbedding.CharVectorTotal | pro_rag_embedding.py:14-18 | the histogram of `_char_vector(text)` adds up to len(text.lower()) |
| RagEmbedding.IndexOf | pro_rag_embedding.py:53 | `list.index` returns the first position holding the value |
| RagEmbedding.FirstVerbEarliest | pro_rag_embedding.py:51-53 | every verb tried before the one found is absent from the lowered words |
| RagEmbedding.DedupLoop | pro_rag_embedding.py:64-70 | the `seen`-set loop computes the order-preserving de-duplication |
| RagEmbedding.SplitAtVerb | pro_rag_embedding.py:51-59 | the verb loop yields the relations of the first verb present (none when its sides are not both non-empty) and the raw entities subject and object |
| RagEmbedding.ExtractEntitiesRelations | pro_rag_embedding.py:35-72 | `extract_entities_relations` returns the specified entities and relations |
| RagEmbedding.DedupDistinct | pro_rag_embedding.py:64-70 | the entities come out without repeats |
| RagEmbedding.BlankText | pro_rag_embedding.py:45-62 | blank text gives ([], []) |
| RagEmbedding.NoRelation | pro_rag_embedding.py:61-62 | without a relation, non-blank text gives the single entity `text.strip()` |
| RagEmbedding.RelationShape | pro_rag_embedding.py:45-58 | a relation's verb first occurs at some position; its subject and object are the words before and after that position, joined with single spaces in their original casing |
| RagEmbedding.WordsShape | pro_rag_embedding.py:45 | `text.strip().split()` gives non-empty words with no whitespace at either end |
| RagEmbedding.VerbOrder | pro_rag_embedding.py:47-52 | the verbs are tried in the order is, are, has, have: every verb listed before the relation's verb is absent |
| RagEmbedding.RelationEntities | pro_rag_embedding.py:56-70 | with a relation the entities are its subject and object, once each |
| ProMemory.Contents | pro_memory.py:117 | the contents of the messages, in order |
| ProMemory.Recent | pro_memory.py:115-117 | `fetch_recent` returns no more contents than there are messages |
| ProMemory.MessageList.AddToGraph | pro_memory.py:18-20 | `_add_to_graph` appends (content, tag) to the message list |
| ProMemory.MessageList.AddMessage | pro_memory.py:189-193 | `add_message` appends (content, tag) to the message list |
| ProMemory.MessageList.FetchRelatedConcepts | pro_memory.py:147-160 | the loop computes the related concepts: each message at most once, the first ten kept |
| ProMemory.MessageList.GetMemoryStats | pro_memory.py:181-186 | total is the number of messages and recent is min(10, total) |
| ProMemory.MentionsAny | pro_memory.py:155-158 | the inner loop finds a word exactly when some word, lower-cased, is a substring of the lower-cased content |
| ProMemory.IsUnique | pro_memory.py:196-198 | `is_unique` always returns True |
| ProMemory.RecentProps | pro_memory.py:115-117 | `fetch_recent(limit)` gives the contents of the last `limit` messages in order; limit 0 gives all of them; a negative limit drops that many from the front |
| ProMemory.MatchingCount | pro_memory.py:154-158 | a content appears among the matches exactly as often as it was stored when it mentions a word, and not at all otherwise |
| ProMemory.RelatedConceptsProps | pro_memory.py:147-160 | no words give []; otherwise the result is the first ten matches in message order, each mentioning a word and stored |
| Dialogue.EmptyMatrix | memory/store.py:30 | `anp.zeros((0, dim))` is a well-shaped matrix with no rows |
| Dialogue.Stack | memory/store.py:59-63 | the row-append step, as intended: the new matrix is the old rows plus the vector, and it fails exactly when rows exist and the widths differ |
| Dialogue.StackAsWrittenReusesIndex | memory/store.py:59-63 | as written, two appends to a store of width 0 both get index 0 |
| Dialogue.StackIndexFresh | memory/store.py:59-65 | as intended, the new row's index `shape[0] - 1` is the previous row count and that row is the vector |
| Dialogue.StackAgrees | memory/store.py:59-63 | the code as written agrees with the intended step whenever the width is non-zero or there are no rows |
| Dialogue.SelectIndices | memory/store.py:75-79 | `embeddings_for` collects at most one index per node |
| Dialogue.SelectNodes | memory/store.py:75-79 | every selected node has an index, matches the speaker when one is given, and belongs to the dialogue |
| Dialogue.SelectIndicesNodes | memory/store.py:75-79 | the collected indices are those of the selected nodes, in dialogue order |
| Dialogue.Texts | memory/store.py:143-144 | `all_messages` gives every node's text, in insertion order |
| Dialogue.LastByMeaning | memory/store.py:137-141 | `last_message` finds a text by the speaker with no later node by that speaker, and None exactly when the speaker never spoke |
| Dialogue.LastMessage | memory/store.py:137-141 | the backward loop returns the latest text by the speaker |
| Dialogue.RowsAt | memory/store.py:82 | fancy indexing returns one row per index |
| Dialogue.EmbeddingsForMeaning | memory/store.py:72-82 | under the store invariant every collected index is in range, and the row it selects holds that node's morph codes |
| Dialogue.SetDefaultIndexed | memory/store.py:46 | `setdefault` keeps the store invariant and the dialogue |
| Dialogue.AppendUnindexed | memory/store.py:51-54 | appending a node without an index keeps the invariant |
| Dialogue.AppendIndexed | memory/store.py:56-65 | appending a node that points at a freshly appended row keeps the invariant |
| MemoryStoreModel.MemoryStore.constructor | memory/store.py:27-30 | a new store has no dialogues and an empty matrix of the given width |
| MemoryStoreModel.MemoryStore.AddUtterance | memory/store.py:33-66 | the new graph, matrix and result are those `add_utterance` specifies, and the invariant is kept |
| MemoryStoreModel.HasSaid | memory/store.py:47-49 | the duplicate scan finds a node exactly when the dialogue holds one with that speaker and text |
| MemoryStoreModel.GraphRetriever.constructor | memory/store.py:134-135 | the retriever wraps the given store |
| MemoryStoreModel.GraphRetriever.LastMessage | memory/store.py:137-141 | the latest text by the speaker in a copy of the dialogue |
| MemoryStoreModel.AddDuplicate | memory/store.py:46-49 | a repeated (speaker, text) in the same dialogue returns None and changes nothing |
| MemoryStoreModel.AddDict | memory/store.py:51-54 | a dict embedding is stored on a new last node with no index; the matrix is unchanged; the result is None |
| MemoryStoreModel.AddVector | memory/store.py:56-66 | a vector becomes one new row; the new node's index is the previous row count, and that row is returned; a width mismatch raises and leaves the matrix and dialogue as they were |
| MemoryStoreModel.AddOthers | memory/store.py:46-65 | every other dialogue is unchanged |
| MemoryStoreModel.AddKeepsIndexed | memory/store.py:59-65 | node indices stay distinct and below the row count, each pointing at its own vector |
| MemoryStorage.Restore | memory/storage.py:121-127 | restoring keeps every node |
| MemoryStorage.ToMatrix | memory/storage.py:129 | `anp.array(vecs)` is a matrix with exactly those rows, and fails exactly when the rows are ragged |
| MemoryStorage.MemoryStore.AddUtterance | memory/storage.py:44-68 | the new graph, matrix and result are those `add_utterance` specifies, and the invariant is kept |
| MemoryStorage.MemoryStore.EmbeddingsFor | memory/storage.py:74-82 | under the invariant the selection never raises |
| MemoryStorage.MemoryStore.Load | memory/storage.py:115-130 | the graph becomes the restored file; the matrix becomes the stacked morph codes, or stays and ValueError is reported for ragged codes |
| MemoryStorage.RestoreDialogue | memory/storage.py:121-127 | the inner loop restores the nodes from the current vector count, and extends the vectors by their morph codes |
| MemoryStorage.GraphRetriever.LastMessage | memory/storage.py:139-143 | the latest text by the speaker, or None |
| MemoryStorage.StorageAddDict | memory/storage.py:53-58 | a dict embedding is stored on a new last node with no index; the matrix is unchanged; the result is None |
| MemoryStorage.StorageAddVector | memory/storage.py:60-68 | a vector becomes one new row; the node's index is the previous row count and its morph codes are the vector, which is returned; a width mismatch changes nothing |
| MemoryStorage.StorageAddTwice | memory/storage.py:53-68 | there is no dedup: the same utterance added twice becomes two new nodes |
| MemoryStorage.StorageAddOthers | memory/storage.py:53-67 | every other dialogue is unchanged |
| MemoryStorage.StorageAddKeepsIndexed | memory/storage.py:60-67 | the store invariant is kept |
| MemoryStorage.RestoreAppend | memory/storage.py:122-127 | restoring two stretches one after the other equals restoring them together |
| MemoryStorage.RestorePrefix | memory/storage.py:122-127 | the first i nodes with morph codes are numbered start, start + 1, ... in order, and keep their codes |
| MemoryStorage.RestoreNumbering | memory/storage.py:122-127 | all nodes with morph codes are numbered consecutively from start, and keep their codes |
| MemoryStorage.RestoredKeys | memory/storage.py:118-128 | the rebuilt graph holds exactly the dialogues of the file |
| MemoryStorage.RestoredAt | memory/storage.py:120-128 | each dialogue is restored after the vectors of the dialogues before it |
| MemoryStorage.CodedInFileOrder | memory/storage.py:119-128 | the vectors are the morph codes of the dialogues in file order |
| MemoryStorage.DialogRestored | memory/storage.py:120-128 | each rebuilt dialogue is the file's dialogue, restored after the codes that precede it |
| MemoryStorage.LoadInFileOrder | memory/storage.py:118-128 | the rebuilt dialogues, in file order, are the file's dialogues restored as one stretch numbered from 0 |
| MemoryStorage.LoadNumbering | memory/storage.py:115-129 | after `load` the k nodes with morph codes are numbered 0..k-1 in file order, and row i of the matrix holds the codes of the i-th of them |
| MemoryGraph.MemoryGraphStore.constructor | memory/memory_graph.py:23-26 | a new store has no dialogues and an empty matrix of the given width, and keeps the store invariant |
| MemoryGraph.MemoryGraphStore.AddUtterance | memory/memory_graph.py:28-42 | the new graph, matrix and result are those of the add step, and the invariant that nodes and rows correspond one to one is kept |
| MemoryGraph.GraphRetriever.constructor | memory/memory_graph.py:80-81 | the retriever reads the store it was given |
| MemoryGraph.GraphRetriever.LastMessage | memory/memory_graph.py:83-87 | the text of the last node of the dialogue spoken by the speaker, None when there is none |
| MemoryGraph.SelectedInRange | memory/memory_graph.py:47-55 | every row number that `embeddings_for` selects exists in the matrix, so the fancy index never raises |
| MemoryGraph.SelectAll | memory/memory_graph.py:48-52 | without a speaker every node is selected, in dialogue order |
| MemoryGraph.EmbeddingsForAll | memory/memory_graph.py:47-55 | under the invariant, `embeddings_for` without a speaker gives one existing row per node of the dialogue, in order |
| MemoryGraph.GraphAddAppends | memory/memory_graph.py:35-42 | a width mismatch changes nothing and raises; otherwise one row holding the vector is appended, one node whose index is the previous row count is appended to the dialogue, and the vector is returned |
| MemoryGraph.GraphAddOthers | memory/memory_graph.py:41 | every other dialogue is left as it was |
| MemoryGraph.GraphAddKeeps | memory/memory_graph.py:28-42 | add_utterance keeps nodes and rows in one-to-one correspondence, with each dialogue's rows increasing |
| MemoryGraph.AppendAllIndexed | memory/memory_graph.py:40-41 | after the append every node still names an existing row |
| MemoryGraph.AppendDistinct | memory/memory_graph.py:40-41 | after the append no two nodes name the same row |
| MemoryGraph.AppendCovered | memory/memory_graph.py:37-41 | after the append every row, the new one included, belongs to a node |
| MemoryGraph.AppendIncreasing | memory/memory_graph.py:40-41 | after the append each dialogue's row numbers still increase in insertion order |
| MemoryLattice.MemoryGraphStore.constructor | memory/memory_lattice.py:29-31 | a store without a path starts with no dialogues |
| MemoryLattice.MemoryGraphStore.AddUtterance | memory/memory_lattice.py:35-46 | the dialogue gains exactly the new node at its end, every other dialogue is unchanged, and a new dialogue id is added last to the insertion order |
| MemoryLattice.FlattenLength | memory/memory_lattice.py:55-58 | `all_nodes` holds as many nodes as the dialogues together |
| MemoryLattice.FlattenMembers | memory/memory_lattice.py:55-58 | a node is in `all_nodes` exactly when it is in one of the dialogues |
| MemoryLattice.FlattenSplit | memory/memory_lattice.py:55-58 | `all_nodes` over a split key list is the nodes of the first part followed by the nodes of the second |
| MemoryLattice.FlattenOther | memory/memory_lattice.py:55-58 | changing a dialogue that is not in the dictionary leaves `all_nodes` as it was |
| MemoryLattice.FlattenGrow | memory/memory_lattice.py:44-46 | appending a node to the dialogue at position i inserts exactly that node into `all_nodes`, right after the nodes of dialogues 0..i, with the nodes of the later dialogues following unchanged |
| MemoryLattice.AddToAllNodes | memory/memory_lattice.py:35-58 | add_utterance adds exactly the new node to `all_nodes` (as a multiset); for an existing dialogue it sits right after that dialogue's old nodes with every other node in its old place, for a new dialogue it comes last |
| MemoryLattice.AddToOldDialogue | memory/memory_lattice.py:44-46 | for an existing dialogue at position i, `all_nodes` is the nodes of dialogues 0..i, then the new node, then the nodes of the later dialogues, all as before; as a multiset it gains exactly the new node |
| MemoryLattice.AddNewDialogue | memory/memory_lattice.py:44-46 | for a new dialogue `all_nodes` is the old list followed by the new node |
| SimpleMemory.Picked | d/memory_simple.py:30 | the list comprehension keeps at most one content per index, and only contents of the store |
| SimpleMemory.MemoryStore.constructor | d/memory_simple.py:9-12 | a new store has an empty matrix of the given width and no contents |
| SimpleMemory.MemoryStore.AddUtterance | d/memory_simple.py:14-21 | the new matrix, contents and result are those of the add step, and one content per row is kept |
| SimpleMemory.SimpleAddNone | d/memory_simple.py:16 | without an embedding add_utterance changes nothing |
| SimpleMemory.SimpleAddSome | d/memory_simple.py:16-21 | with an embedding one row and one content are appended, or a width mismatch raises from `vstack` and nothing changes |
| SimpleMemory.SimpleAddKeeps | d/memory_simple.py:14-21 | add_utterance keeps one content per row |
| SimpleMemory.PickedAll | d/memory_simple.py:30 | when every index names a content, each is picked, in order |
| SimpleMemory.MostSimilarSize | d/memory_simple.py:23-30 | an empty store gives []; otherwise exactly min(top_k, n) contents for a non-negative top_k and all but the last -top_k for a negative one, the contents of the rows in argsort order |
| Hypergraph.NewEdge | resonance/hypergraph.py:33-36 | a hyperedge is added exactly when `connect` names at least one id, and it holds those ids and the new node's id |
| Hypergraph.HyperGraph.constructor | resonance/hypergraph.py:18-21 | a new hypergraph has no nodes, no hyperedges and an empty order |
| Hypergraph.HyperGraph.AddNode | resonance/hypergraph.py:23-36 | the node is stored under its id with `data or {}`, the id is appended to the order, the new hyperedge (if any) is appended, and every node stays stored under its own id |
| Hypergraph.HyperGraph.GetNode | resonance/hypergraph.py:38-41 | the node stored under the id when there is one, None otherwise |
| Hypergraph.HyperGraph.Neighbors | resonance/hypergraph.py:43-51 | the loop collects exactly the ids that share a hyperedge with the node, without the node itself |
| Hypergraph.HyperGraph.Trail | resonance/hypergraph.py:53-56 | `_order[-limit:]`: the last `limit` ids for a positive limit, all of them for 0, all but the first -limit for a negative one |
| Hypergraph.TouchingMembers | resonance/hypergraph.py:46-49 | an id is collected exactly when some hyperedge holds both it and the node |
| Hypergraph.NeighborsSymmetric | resonance/hypergraph.py:43-51 | x is a neighbour of y exactly when y is a neighbour of x, and no id is its own neighbour |
| Hypergraph.NeighborsAfterConnect | resonance/hypergraph.py:33-36 | after add_node with a non-empty `connect`, every other id it names is a neighbour of the new node, and no neighbour is ever lost |
| Subgraph.CopyEdgesWith | router/subgraph.py:21-23 | the inner loop appends a copy of exactly the hyperedges holding the node, in order, and changes no node |
| Subgraph.SelectContextSubgraph | router/subgraph.py:10-24 | a fresh subgraph whose nodes are the matching nodes in the graph's insertion order with their data, and whose hyperedges are, node by node, the graph's hyperedges holding that node |
| Subgraph.ChosenStep | router/subgraph.py:17-23 | one more node: it and its hyperedges are taken exactly when its content matches |
| Subgraph.AnyInExists | router/subgraph.py:15-19 | a node matches exactly when some context word, lower-cased, occurs in its lower-cased content |
| Subgraph.EdgesWithMembers | router/subgraph.py:21-23 | a hyperedge is copied for a node exactly when it is one of the graph's and holds the node |
| Subgraph.ChosenMembers | router/subgraph.py:17-20 | a node is in the subgraph exactly when it is in the graph and its content mentions a context word |
| Subgraph.ChosenEdgesMembers | router/subgraph.py:17-23 | every copied hyperedge is one of the graph's holding a chosen node, and every such hyperedge is copied |
| Subgraph.NoContextEmpty | router/subgraph.py:15-19 | no context words give no nodes and no hyperedges |
| ProMesh.XorBytes | d/pro_mesh.py:13-17 | each byte is XORed with the key byte at the same position modulo the key length, the length is kept, and an empty key leaves the data as it is |
| ProMesh.DecChar | d/pro_mesh.py:26 | a Base64 digit reads as a 6-bit value |
| ProMesh.Encode | d/pro_mesh.py:22 | `b64encode` output is a whole number of four-character groups, empty exactly for empty input |
| ProMesh.XorInvolution | d/pro_mesh.py:13-17 | XOR with the same key twice gives the data back |
| ProMesh.DecUpper | d/pro_mesh.py:22-26 | the values 0-25 are spelled 'A'-'Z' and read back as themselves |
| ProMesh.DecLower | d/pro_mesh.py:22-26 | the values 26-51 are spelled 'a'-'z' and read back as themselves |
| ProMesh.DecDigit | d/pro_mesh.py:22-26 | the values 52-61 are spelled '0'-'9' and read back as themselves |
| ProMesh.DecEnc | d/pro_mesh.py:22-26 | every 6-bit value is spelled by a digit other than '=' that reads back as that value |
| ProMesh.JoinBytes | d/pro_mesh.py:22-26 | each byte is rebuilt from the two sextets it was split across, and a missing byte leaves the sextets after it zero |
| ProMesh.ReadDigit | d/pro_mesh.py:26 | the lenient reader takes a digit as the next place of the current quad and emits a byte as soon as its bits are complete |
| ProMesh.ReadThree | d/pro_mesh.py:22-26 | a full group of four digits is read as its three bytes |
| ProMesh.ReadOne | d/pro_mesh.py:22-26 | two digits and "==" are read as one byte, and whatever follows the completed padding is ignored |
| ProMesh.ReadTwo | d/pro_mesh.py:22-26 | three digits and "=" are read as two bytes, and whatever follows the completed padding is ignored |
| ProMesh.ReadEncoding | d/pro_mesh.py:22-26 | reading an encoding appends exactly the encoded bytes to what was read |
| ProMesh.Base64RoundTrip | d/pro_mesh.py:22-26 | `b64decode(b64encode(s)) == s` for every byte string |
| ProMesh.LenientExamples | d/pro_mesh.py:26 | `b64decode` without validation reads "QQ==\n" and "QQ==QQ==" both as b"A" |
| ProMesh.DecryptEncrypt | d/pro_mesh.py:20-27 | decrypt inverts encrypt below the JSON layer, whatever the key |
| ProMesh.MeshNode.constructor | d/pro_mesh.py:35-42 | a node with no peers and no adapters whose key is the given one, or b"mesh-secret" when it is missing or empty |
| ProMesh.MeshNode.JoinPeer | d/pro_mesh.py:79-80 | the peer is added and nothing else changes |
| ProMesh.MeshNode.LeavePeer | d/pro_mesh.py:82-83 | the peer is discarded and nothing else changes |
| ProMesh.MeshNode.LeaveMesh | d/pro_mesh.py:85-88 | every peer is forgotten and the adapters are kept |
| ProMesh.MeshNode.UpdateAdapter | d/pro_mesh.py:103-104 | the adapter is stored under its name with the given weights and version, and nothing else changes |
| ProMesh.MeshNode.HandleGossip | d/pro_mesh.py:111-123 | the loop leaves the table merged with every remote entry by the version-then-metric rule |
| ProMesh.MeshNode.Receive | d/pro_mesh.py:54-72 | gossip merges its adapters (`{}` when missing); join and leave add or discard the peer when the list has two elements and raise when its port is not an int; every other message changes nothing |
| ProMesh.ResolveRule | d/pro_mesh.py:112-123 | an unknown adapter or a higher remote version replaces the local one, a lower one is ignored, and on equal versions the entry with the larger weight sum is kept, the local one on a tie |
| ProMesh.MergeKeeps | d/pro_mesh.py:111-123 | merging never lowers a version, keeps every local adapter, and leaves every adapter the message does not name as it was |
| ProMesh.MergeIdempotent | d/pro_mesh.py:111-123 | receiving the same gossip twice is the same as receiving it once |
| ProMesh.Converge | d/pro_mesh.py:112-123 | two nodes that gossip one adapter to each other end up holding the same one unless versions and sums both tie |
| ProMesh.MergeStep | d/pro_mesh.py:112-123 | one loop step merges exactly the next remote entry on top of those before it |
| ProMesh.ParseNat | d/pro_mesh.py:68 | `int()` reads back what `str()` wrote for a natural number and for its negation, whatever whitespace surrounds it |
| ProMesh.ParseNumeralOf | d/pro_mesh.py:68 | a numeral of value n with whitespace around it reads as n |
| ProMesh.ParseNegationOf | d/pro_mesh.py:72 | a minus sign and a numeral of value n with whitespace around them read as -n |
| ProMesh.ParseDigits | d/pro_mesh.py:68 | a numeral with whitespace around it reads as its digits' value |
| ProMesh.ParseNegative | d/pro_mesh.py:72 | a minus sign and a numeral with whitespace around them read as the negated value |
| ProMesh.ParseUnsigned | d/pro_mesh.py:68 | a numeral without a sign reads as its digits' value |
| ProMesh.ParseMinus | d/pro_mesh.py:72 | a minus sign before a numeral reads as the negated value |
| ProMesh.NatNumeral | d/pro_mesh.py:68 | `str()` of a natural number is a numeral of the same value |
| ProMesh.ParseSpaced | d/pro_mesh.py:68 | `int(" 42") == 42` |
| ProMesh.ParseGrouped | d/pro_mesh.py:68 | `int("4_2") == 42` |
| ProMesh.ParseBadGrouping | d/pro_mesh.py:72 | `int("4__2")` and `int("_42")` raise ValueError |
| P2PResonance.Node.constructor | resonance/p2p_resonance.py:10-12 | a new node has no parameters and nothing pending |
| P2PResonance.Node.QueueUpdate | resonance/p2p_resonance.py:36-40 | every gradient is added to its parameter and to its pending entry, a missing one counting as 0.0; each parameter stays the sum of all gradients applied and each pending entry the sum of those queued since the last pop |
| P2PResonance.Node.ApplyGradients | resonance/p2p_resonance.py:42-44 | every gradient is added to its parameter and nothing is queued |
| P2PResonance.Node.PopPending | resonance/p2p_resonance.py:46-49 | the pending gradients are returned, each the sum of those queued, and the node starts afresh with nothing pending |
| P2PResonance.Node.Handle | resonance/p2p_resonance.py:56-74 | serving a peer applies its update and replies with what was pending, leaving nothing pending |
| P2PResonance.Node.Exchange | resonance/p2p_resonance.py:76-90 | exchange sends what was pending, leaves nothing pending, applies the peer's answer and returns it |
| P2PResonance.AddAllAt | resonance/p2p_resonance.py:38-40 | after the first i gradients each key holds its old value plus its gradient when it is among them, and no other key appears |
| P2PResonance.AddAllTotal | resonance/p2p_resonance.py:36-44 | adding a gradient dictionary adds it to the running totals |
| Quant4.MaxAbs | quantum/quant4.py:19 | the largest magnitude of a non-empty array: no weight exceeds it and some weight attains it |
| Quant4.Round | quantum/quant4.py:23 | `np.round` lands within a half of its argument and breaks a tie to the even integer |
| Quant4.Clip | quantum/quant4.py:23 | `np.clip(_, -8, 7)` lies in [-8, 7] and leaves values already there alone |
| Quant4.Code | quantum/quant4.py:23 | each weight's code lies in [-8, 7] |
| Quant4.Codes | quantum/quant4.py:23 | one code per weight, in order |
| Quant4.Padded | quantum/quant4.py:24-25 | an odd count of codes gets one trailing zero and the codes are kept |
| Quant4.Pack | quantum/quant4.py:26-27 | two codes per byte, so the packed array has half as many bytes as codes, rounded up |
| Quant4.Unpack | quantum/quant4.py:32-35 | two codes per byte |
| Quant4.Compress | quantum/quant4.py:5-27 | an empty array raises (np.max has no identity); otherwise the shape is kept, the scale is positive and there are half as many bytes as weights, rounded up |
| Quant4.Decompress | quantum/quant4.py:30-37 | the empty shape raises TypeError because `np.prod(())` is the float 1.0; otherwise it raises exactly when there are fewer than prod(shape) codes, and gives prod(shape) values |
| Quant4.SignedNibble | quantum/quant4.py:26-35 | a code in [-8, 7] survives being stored as a nibble and read back |
| Quant4.ByteNibbles | quantum/quant4.py:26-34 | the high and low nibbles of a packed byte are the two stored |
| Quant4.UnpackPack | quantum/quant4.py:23-35 | unpacking recovers every packed code in order, and the padding code of an odd count comes back as 0 |
| Quant4.MulSign | quantum/quant4.py:37 | multiplying by a positive scale keeps the sign |
| Quant4.QuotientBound | quantum/quant4.py:22-23 | dividing by the scale maps [-7 scale, 7 scale] into [-7, 7] |
| Quant4.ScaledError | quantum/quant4.py:23-37 | a rounding error of at most a half, scaled, is at most half a scale |
| Quant4.CodeExact | quantum/quant4.py:22-23 | a weight of magnitude at most seven scales rounds to a code in [-7, 7] that needs no clipping and lies within half a scale of it |
| Quant4.ScaleBound | quantum/quant4.py:19-22 | the scale is positive and no weight exceeds seven scales |
| Quant4.ScaleOfMax | quantum/quant4.py:19-22 | seven scales are the largest magnitude, or 1.0 for an all-zero array |
| Quant4.WeightError | quantum/quant4.py:19-23 | each weight's code, times the scale, is within half a scale of the weight |
| Quant4.DecompressAt | quantum/quant4.py:32-37 | each decompressed value is its unpacked code times the scale |
| Quant4.RoundTrip | quantum/quant4.py:5-37 | decompressing what compress_weights returns succeeds for a non-empty array of at least one dimension, keeps the size, and gives every weight back to within half the scale |
| Quant4.DecodedAt | quantum/quant4.py:26-37 | decompressing packed codes gives each code times the scale |
| Quant4.UnpackPackAt | quantum/quant4.py:26-35 | one code survives Pack and Unpack at its own position |
| Quant4.ZeroWeights | quantum/quant4.py:20-27 | an all-zero array compresses to all-zero bytes with scale 1/7 |
| QuantumAttention.Visit | transformers/quantum_attention.py:31-35 | a True, unvisited neighbour inside the grid is marked and pushed, and anything else changes nothing; every cell pushed is reachable from the cell the fill started at |
| QuantumAttention.Expand | transformers/quantum_attention.py:28-35 | one round of the `while stack` loop keeps the marks and the stack in step, and either marks a new cell or shrinks the stack, so the loop ends |
| QuantumAttention.Drain | transformers/quantum_attention.py:28-35 | the `while stack` loop ends with an empty stack and every marked cell's True neighbours marked |
| QuantumAttention.Flood | transformers/quantum_attention.py:25-35 | a flood fill from a True, unvisited cell marks exactly the cells of that cell's 4-connected component |
| QuantumAttention.Probe | transformers/quantum_attention.py:24-35 | a True, unvisited cell starts a new component and its flood fill, and any other cell changes nothing; the count stays the number of components among the marked cells |
| QuantumAttention.CountComponents | transformers/quantum_attention.py:17-36 | the count is the number of 4-connected components of True cells; it is 0 exactly when no cell is True, at most the number of True cells, and 1 for a non-empty all-True grid; every True cell is marked exactly once |
| QuantumAttention.ReachSym | transformers/quantum_attention.py:30-33 | 4-connectivity is symmetric |
| QuantumAttention.ReachTrans | transformers/quantum_attention.py:30-33 | 4-connectivity is transitive |
| QuantumAttention.ClosedReach | transformers/quantum_attention.py:28-35 | a set holding every True neighbour of its cells holds everything its cells reach, which is why a drained flood fill is a whole component |
| QuantumAttention.FloodComponent | transformers/quantum_attention.py:25-35 | a closed set grown from the marked cells by cells reached from the start is the marked cells plus the start's component |
| QuantumAttention.SameComponent | transformers/quantum_attention.py:17-18 | two True cells are in the same component exactly when a path of 4-neighbouring True cells joins them |
| QuantumAttention.AddComponent | transformers/quantum_attention.py:24-26 | a flood fill that starts outside a union of whole components adds exactly one component, which is why `count += 1` counts components |
| QuantumAttention.ClosedFull | transformers/quantum_attention.py:17-36 | in an all-True grid one flood fill from the corner marks every cell |
| QuantumAttention.PadComplement | transformers/quantum_attention.py:47 | `np.pad(~mask, 1, constant_values=True)` is the complement framed by a border of True cells, two rows and two columns larger |
| QuantumAttention.AsGrid | transformers/quantum_attention.py:44-45 | a 1-D mask is read as a grid of one row |
| QuantumAttention.BettiFeatures | transformers/quantum_attention.py:39-50 | betti0 is the number of components of the mask and betti1 is `max(0, components(padded) - 1)`; the frame is always a component, so betti1 is exactly one less than the components of the framed complement; betti0 is 0 exactly when the mask is all False |
| QuantumAttention.RingOneComponent | tests/quantum/test_betti_features.py:10-20 | the 3x3 ring of the test is one component, so betti0 is 1 |
| QuantumAttention.RingOneHole | tests/quantum/test_betti_features.py:10-20 | the framed complement of the ring has two components, the frame and the centre, so betti1 is 1 |
| QuantumAttention.CentreAlone | tests/quantum/test_betti_features.py:12-16 | the centre of the framed ring touches no other True cell |
| QuantumAttention.FrameReach | transformers/quantum_attention.py:47 | in the framed ring the corner reaches every frame cell |
| Forecast.Expand | pro_forecast.py:44-55 | the node's text joins its tokens, its probability is the one passed in and its own novelty is one minus it |
| Forecast.Child | pro_forecast.py:52-53 | a child's novelty is one minus its word's probability |
| Forecast.SimulatePaths | pro_forecast.py:25-57 | it succeeds exactly for depth 0, or a positive depth over a non-empty vocabulary; an empty vocabulary at any other depth raises ValueError from the softmax and a negative depth raises RecursionError; the root's text joins the seeds, with probability 1.0 and novelty 0.0 |
| Forecast.InsertPerm | pro_forecast.py:50 | inserting keeps every pair and adds the new one |
| Forecast.InsertSorted | pro_forecast.py:50 | inserting into a descending list keeps it descending |
| Forecast.SortDescProps | pro_forecast.py:50 | the sort is a permutation of the pairs, its result is descending by probability, and it is stable: the pairs of each probability keep their input order |
| Forecast.SortDescOrdered | pro_forecast.py:50 | the sort is a permutation of the pairs and its result is descending by probability |
| Forecast.WithProbAppend | pro_forecast.py:50 | the pairs of one probability in a concatenation are those of each part, in order |
| Forecast.InsertStable | pro_forecast.py:50 | inserting a pair into a descending list places it after every pair of its own probability and moves no pair of any one probability |
| Forecast.SortDescStable | pro_forecast.py:50 | `sorted` is stable: the pairs of each probability come out in their input order |
| Forecast.Top3Props | pro_forecast.py:50 | `[:3]` of the sorted pairs holds min(3, n) of them, descending |
| Forecast.Top3Best | pro_forecast.py:50 | no pair left out of the top three is more probable than any pair taken |
| Forecast.ExpandGrown | pro_forecast.py:44-55 | every tree `_expand` grows has at most three children per node, none once the steps are used up, in descending probability, each child extending the tokens by its word with probability multiplied by p and novelty 1 - p |
| Forecast.ChildGrown | pro_forecast.py:52-54 | a child has the same shape one level down, with its word appended and its probability multiplied in |
| Forecast.GrownNovelty | pro_forecast.py:53 | the shape does not depend on the root's own novelty, which the parent overwrites |
| Forecast.GrownHeight | pro_forecast.py:46-47 | a forecast tree is no deeper than the levels it was grown with |
| Forecast.SimulatePathsTree | pro_forecast.py:25-57 | with depth at least 0 (and a non-empty vocabulary when depth is positive) simulate_paths succeeds with a forecast-shaped tree from the seeds with probability 1.0 and height at most depth |
| Forecast.StepFor | pro_forecast.py:78-82 | a node triggers at most one training step |
| Forecast.Preorder | pro_forecast.py:84-85 | the walk starts at the node itself |
| Forecast.StepsOfAppend | pro_forecast.py:84-85 | the steps of two node lists are the steps of each, in order |
| Forecast.BackpropPreorder | pro_forecast.py:60-85 | backpropagate_forecast visits every node of the subtree in pre-order and trains exactly the nodes with more than one token and positive novelty |
| Forecast.BackpropAllPreorder | pro_forecast.py:84-85 | the children's subtrees are walked in order, each in pre-order |
| Forecast.SplitJoin | pro_forecast.py:45-78 | `" ".join(tokens).split()` gives the tokens back when each is a non-empty word without whitespace |
| Forecast.NodeStep | pro_forecast.py:78-82 | a node grown from tokens plus a word trains on the tokens as context and the word as target at rate 0.1 times its novelty when there were tokens before the word and the novelty is positive, and trains nothing otherwise |
| Forecast.StepForSplit | pro_forecast.py:78-82 | the same for any node whose text splits into tokens plus a last word |
| Forecast.RunsFromJoin | pro_forecast.py:78 | splitting the space-joined words on whitespace gives the words back |
| TimeFold.TimeFoldTransformer.constructor | transformers/time_fold.py:20-29 | the given step function, step count and memory are kept (a fresh empty memory when none is given) and the cache is empty |
| TimeFold.TimeFoldTransformer.Forward | transformers/time_fold.py:31-40 | the cache becomes this call's predictions, the memory gains each under its step number, and the result is the step function applied `steps` times, x itself when steps <= 0 |
| TimeFold.PredictionsAt | transformers/time_fold.py:34-38 | the cache holds exactly max(steps, 0) entries, entry i being the step function applied i + 1 times |
| TimeFold.StoredAt | transformers/time_fold.py:36-39 | after forward, step k of the memory holds prediction k cast to complex for each k below the step count, and every other step is as it was |
| AmplitudeMemory.ToComplex | transformers/time_fold.py:39 | `astype(np.complex128)` keeps the length and every value as the real part with a zero imaginary part |
| AmplitudeMemory.Get | quantum_memory.py:29 | `dict.get(step)` is the stored entry exactly when the step has one, None otherwise |
| AmplitudeMemory.QuantumMemory.constructor | quantum_memory.py:18-19 | a new memory holds no step |
| AmplitudeMemory.QuantumMemory.Store | quantum_memory.py:21-24 | the entry for the step becomes the amplitudes and every other step keeps its entry |
| AmplitudeMemory.QuantumMemory.Retrieve | quantum_memory.py:26-29 | the stored amplitudes of the step, None when none were stored |
| AmplitudeMemory.QuantumMemory.Clear | quantum_memory.py:31-34 | no step has amplitudes afterwards |
| AmplitudeMemory.StoreThenRetrieve | quantum_memory.py:21-29 | a retrieve after a store of the same step returns what was stored, whatever the memory held, and a retrieve of another step is not affected |
| FractalMemory.Pow2 | d/quantum_memory.py:40 | `2 ** i` is positive, so every level divides by a non-zero number |
| FractalMemory.FractalEncode | d/quantum_memory.py:30-41 | one amplitude per level 1 .. depth, so max(depth, 0) of them |
| FractalMemory.AmpsOf | d/quantum_memory.py:66-69 | an array is stored as given, and a token as its encoding at depth 4, four amplitudes |
| FractalMemory.QuantumMemory.constructor | d/quantum_memory.py:25-26 | a new memory holds no step |
| FractalMemory.QuantumMemory.Store | d/quantum_memory.py:58-70 | the entry for the step becomes the array, or the token's encoding, and every other step keeps its entry |
| FractalMemory.QuantumMemory.Retrieve | d/quantum_memory.py:72-75 | the stored amplitudes of the step, None when none were stored |
| FractalMemory.QuantumMemory.Clear | d/quantum_memory.py:77-80 | no step has amplitudes afterwards |
| FractalMemory.SeedRemove | d/quantum_memory.py:39 | removing one character takes its code off the seed |
| FractalMemory.SeedPermutation | d/quantum_memory.py:39 | the seed depends only on which characters occur how often, not on their order |
| FractalMemory.EncodePermutation | d/quantum_memory.py:39-41 | tokens that are permutations of each other encode identically at every depth |
| AutoAdapt.LayerMutator.constructor | autoadapt/__init__.py:34-37 | a new mutator has no mutations and no LoRA layers |
| AutoAdapt.LayerMutator.Mutate | autoadapt/__init__.py:39-42 | the layer's factor becomes its old one (1.0 when it had none) times the given factor; every other layer and the LoRA layers are unchanged |
| AutoAdapt.LayerMutator.AddLoraLayer | autoadapt/__init__.py:45-48 | the layer is registered under its name exactly when LoRA is on, and the mutations are unchanged |
| AutoAdapt.Window | autoadapt/__init__.py:95-98 | the window holds the last min(n, window) values recorded, none for a window of 0 or less |
| AutoAdapt.MetricMonitor.constructor | autoadapt/__init__.py:91-93 | a new monitor has an empty window |
| AutoAdapt.MetricMonitor.Record | autoadapt/__init__.py:95-98 | the value is recorded and the window stays the last `window` values recorded, never longer |
| AutoAdapt.MetricMonitor.Average | autoadapt/__init__.py:100-101 | the mean of the window, 0.0 when it is empty |
| AutoAdapt.MutateAllFactor | autoadapt/__init__.py:39-42 | after a series of mutate calls every layer's factor is its starting factor (1.0 when it had none) times each factor applied to it, in order |
| AutoAdapt.MutateSnoc | autoadapt/__init__.py:39-42 | one more mutate changes only its own layer's factor, multiplying it |
| AutoAdapt.FactorAfterOthers | autoadapt/__init__.py:39-42 | a layer that none of a series of mutations names keeps its factor |
| AutoAdapt.WindowStep | autoadapt/__init__.py:95-98 | recording appends to the window and, once it overflows, drops its oldest value |
| AutoAdapt.MeanBounds | autoadapt/__init__.py:100-101 | the mean of values that all lie in [lo, hi) lies in [lo, hi) |
| AdaptTrainer.Trainer.constructor | trainer.py:11-22 | a new trainer is at step 0 with an empty ten-value metric window, no mutations and LoRA off |
| AdaptTrainer.Trainer.TrainStep | trainer.py:24-31 | the metric is recorded and the step counted; every eval_interval-th step boosts the layer by 1.1 exactly when the window's mean is below 0.5, any other step leaves the mutations alone; an interval of 0 raises ZeroDivisionError after recording |
| AdaptTrainer.Trainer.Evaluate | trainer.py:33-38 | the layer is multiplied by 1.1 when the window's mean is below 0.5 and the mutations are unchanged otherwise |
| AdaptTrainer.EvaluationsCount | trainer.py:29-31 | of the first n steps exactly n / eval_interval evaluate |
| ProEvo.MiniModel.constructor | pro_evo.py:8-13 | a new variant's mutator holds only the 0.9 start mutation of its layer, with the LoRA flag given, and its monitor is empty |
| ProEvo.MiniModel.Train | pro_evo.py:15-19 | one metric len(turn) / (len(turn) + 1) is recorded per turn, in order |
| ProEvo.MiniModel.Score | pro_evo.py:21-23 | the score is the mean of the last ten metrics and lies in [0, 1) |
| ProEvo.MiniModel.Distill | pro_evo.py:25-27 | the target's mutations are updated with the variant's: each of its layers takes the variant's factor and every other layer keeps its own |
| ProEvo.MetricRange | pro_evo.py:18 | a turn's metric lies in [0, 1) and is 0 exactly for the empty turn |
| ProEvo.MetricsProps | pro_evo.py:17-19 | train records exactly one metric per turn, the k-th being the k-th turn's, all in [0, 1) |
| MetaControl.DefaultArchitectures | meta_controller.py:22-27 | without architectures the controller offers one, two and three layers |
| MetaControl.MetaController.constructor | meta_controller.py:17-32 | every arm starts with value 0.0, count 0 and no rewards, and nothing is selected |
| MetaControl.MetaController.Select | meta_controller.py:34-46 | no arms give {} and no selection; otherwise the returned architecture is the selected arm's, and outside exploration that arm has the greatest value; estimates are unchanged |
| MetaControl.MetaController.Update | meta_controller.py:48-57 | without a selection nothing changes; otherwise the arm's count grows by one and its value takes the 1/count step towards the reward -perplexity (0.0 when absent) |
| MetaControl.MaxValueProps | meta_controller.py:42-43 | max(values) bounds every value and is one of them, so the greedy candidates are never empty |
| MetaControl.RunningMean | meta_controller.py:55-57 | the 1/count step turns the mean of an arm's rewards into the mean of its rewards with the new one, so every value is the mean of its arm's rewards |
| SelfReflect.Deltas | self_reflect/trainer.py:37-43 | no weaknesses give an empty mapping; otherwise every parameter, and only those, gets the delta 0.1 times the number of weaknesses |
| SelfReflect.Detect | self_reflect/trainer.py:9-21 | the weaknesses are those of each conversation in turn |
| SelfReflect.Optimize | self_reflect/trainer.py:27-43 | the deltas are those Deltas describes, in the parameters' order |
| SelfReflect.Run | self_reflect/trainer.py:52-61 | the deltas are those of the weaknesses detected in the conversations |
| SelfReflect.WeaknessesOfProps | self_reflect/trainer.py:16-20 | a conversation is flagged "unclear response" exactly when it contains "??" and "short reply" exactly when it has fewer than three words, in that order, at most two flags |
| SelfReflect.WeaknessesAppend | self_reflect/trainer.py:16-20 | the weaknesses of two logs joined are the weaknesses of each, joined |
| SelfReflect.WeaknessesLabels | self_reflect/trainer.py:15-21 | at most two weaknesses per conversation, each one of the two labels |
| SelfReflect.WeaknessesCount | self_reflect/trainer.py:15-21 | "unclear response" occurs once per conversation containing "??" and "short reply" once per conversation of fewer than three words |
| Collider.SemanticCollider.constructor | semantic_collider.py:26-30 | a new collider is at step 0 with an empty memory and a resonance node with nothing queued |
| Collider.SemanticCollider.Collide | semantic_collider.py:45-66 | the answer is the phrase of the encoded texts; each vector is stored under the next step number, and one gradient -distance per pair i < j is queued, in itertools.combinations order |
| Collider.SemanticCollider.StoreAll | semantic_collider.py:51-53 | the vectors are stored under consecutive step numbers from the current step, which advances by their number |
| Collider.SemanticCollider.ScanPairs | semantic_collider.py:55-62 | the best pair is the first pair of smallest distance, and one gradient per pair is queued, in pair order |
| Collider.SemanticCollider.Scores | semantic_collider.py:69-80 | the scores hold each vocabulary word once, in first-seen order, with the score -distance between the context's and the candidate's encoding; one vector is stored per word and its score is both queued as a gradient and added to the resonance parameters, duplicates included |
| Collider.SemanticCollider.ScoreWord | semantic_collider.py:74-78 | one word's candidate is stored under the current step, and its score is queued as its gradient and added to the resonance parameters |
| Collider.Pairs | semantic_collider.py:57 | every pair (i, j) has i < j < n |
| Collider.PairsProps | semantic_collider.py:57 | the pairs are exactly those i < j < n, in lexicographic order, n(n-1)/2 of them, as itertools.combinations gives them |
| Collider.FirstMinProps | semantic_collider.py:60-62 | the strict `<` scan finds a position exactly when there are distances, and its distance is the smallest and strictly below every earlier one |
| Collider.PhraseChoice | semantic_collider.py:47-66 | no texts give "", one text gives that text, and two or more give "a b" for the closest pair, the first in pair order among ties |
| Collider.FirstMinClosest | semantic_collider.py:57-62 | the pair the scan picks is a closest pair, strictly closer than every earlier pair |
| Collider.StoredAllAt | semantic_collider.py:51-53 | after storing, the step numbers from the start hold the vectors in order and every other step is unchanged |
| Collider.ScoreMapAt | semantic_collider.py:73-79 | a word has a score exactly when it is in the vocabulary, and the score is its own -distance |
| Collider.DistanceSymmetric | semantic_collider.py:38-42 | the distance between two vectors does not depend on their order |
| DreamMode.LoadDialogueData | dream_mode.py:37-51 | each list comes from the document when it has the key and is the built-in default otherwise; both defaults without a document |
| DreamMode.SimulateDialogue | dream_mode.py:54-63 | `turns` rounds of a prompt from the loaded prompts followed by a response from the loaded responses; IndexError exactly when a round is due and either list is empty |
| DreamMode.Simulate | dream_mode.py:59-63 | the same over given lists: a dialogue of 2 * max(turns, 0) lines alternating prompts and responses, IndexError exactly when a choice from an empty list is due |
| DreamMode.ExternalData | dream_mode.py:41-50 | a data file holding one prompt and one response gives exactly that exchange for one turn |
| Reasoning.LayersAgree | transformers/blocks/reasoning.py:7-25 | on 0/1 encodings of booleans the three layers compute element-wise and, or and not |
| Reasoning.LayersBinary | transformers/blocks/reasoning.py:10-25 | every layer output is 0/1, and NOT twice gives back a 0/1 input |
| Reasoning.DeMorgan | transformers/blocks/reasoning.py:10-25 | NOT of AND is OR of NOTs and NOT of OR is AND of NOTs, element by element |
| Reasoning.LayerExample | transformers/blocks/reasoning.py:10-25 | AND, OR and NOT of [1, 0] and [0, 1] give [0, 0], [1, 1] and [0, 1] |
| Reasoning.LayeredEval | transformers/blocks/reasoning.py:7-58 | evaluating an expression with the layers over a batch of fact sets gives, per fact set, the 0/1 truth value the reasoner computes |
| Reasoning.MissingIsFalse | transformers/blocks/reasoning.py:54 | a variable missing from the facts counts as false |
| Reasoning.RenderParse | transformers/blocks/reasoning.py:56-58 | the tokens of any expression, followed by a closing parenthesis or nothing, parse back to that expression |
| Reasoning.TokenizeSpell | transformers/blocks/reasoning.py:56-57 | spelling out tokens with identifiers of letters and underscores and lexing the text gives the tokens back |
| Reasoning.EvaluateRender | transformers/blocks/reasoning.py:40-58 | evaluate on the text of any expression over such identifiers gives its truth value under the facts |
| Reasoning.AndBindsTighter | transformers/blocks/reasoning.py:57-58 | "a OR b AND c" reads as a OR (b AND c), as in Python |
| Reasoning.NotBindsTighter | transformers/blocks/reasoning.py:57-58 | "NOT a AND b" reads as (NOT a) AND b, as in Python |
| Reasoning.AndNotExample | transformers/blocks/reasoning.py:45-47 | "A AND NOT B" with A true and B false is true |
| Reasoning.OrExample | transformers/blocks/reasoning.py:40-58 | "A OR B" with A true and B false is true |
| Reasoning.NotExample | transformers/blocks/reasoning.py:40-58 | "NOT A" with A true is false |
| ProMemory.MessageList.constructor | pro_memory.py:12 | the module starts with no messages |
| MemoryStorage.MemoryStore.constructor | memory/storage.py:35-41 | a new store has no dialogues and a 0 x dim embedding matrix, which satisfies the index invariant |
| MemoryStorage.GraphRetriever.constructor | memory/storage.py:136-137 | the retriever queries the given store |
| Predict.Predictor.constructor | pro_predict.py:9-10 | the module starts with an empty graph and no vectors |
| Sequence.NGramState.constructor | pro_sequence.py:5-6 | a state without tables: analyze_sequences then starts both from empty |

## Left out

Text and numbers:

- Engine.Capitalize: upper-cases only 'a'..'z' and treats only ASCII letters as letters. Python's `str.isalpha` and `str.upper` are Unicode-wide (`"é"` is a letter, `"ß".upper()` is `"SS"`).
- Metrics.Tokenize: its contract states the tokens' characters and that they concatenate to the word characters in order. It does not state that each token is a maximal run, which is what `\b\w+\b` promises; that holds by the definition of `Runs` and is not proved separately.
- Metrics.Tokenize: `\w` and lower-casing are the ASCII ones. Python's `re` and `str.lower` also treat non-ASCII letters and digits as word characters, and they case-fold them.
- RagEmbedding.CharVector: the text is lower-cased on ASCII only. Python's `str.lower` also maps non-ASCII capitals, and can lengthen the text (`"İ".lower()` has two characters), so RagEmbedding.CharVectorTotal's bucket total `len(text)` holds for the model only.
- The remaining case-insensitive matches lower-case on ASCII only, as above: `Predict.Predictor.Update`, `ProMemory.Matching`, `Subgraph.SelectContextSubgraph` and `RagEmbedding.ExtractEntitiesRelations`.
- Whitespace splitting and stripping (`Text.SplitWs`, used by `SelfReflect` and `Forecast`, and `Text.Strip`) use the full whitespace set of Python's `str.isspace`, so they are not limited to ASCII.
- Floats are real numbers. float32 and float64 rounding, NaN and infinities are not modelled. This covers `Quant4.Compress` and `Quant4.Decompress`, whose float32 conversion can move a value across a rounding boundary, and the means and distances (`AutoAdapt.MetricMonitor.Average`, `ProEvo.MiniModel.Score`, `MetaControl.MetaController.Update`, `Collider.Distance`, `Predict` vectors, `Metrics` resonance).
- Complex amplitudes (`complex64`) are exact complex numbers, and `exp(iθ)` in `FractalMemory` is a parameter.
- ProMesh.ParseInt: `int()` accepts any Unicode decimal digit ("٤٢" is 42); the model accepts the ASCII digits only. A peer's port is a JSON string or integer; a port that decodes to a float, a bool or null, which `int()` truncates, accepts or rejects, is not modelled.

Parameters instead of code:

- QuantumAttention.BettiFeatures: takes the already thresholded two-dimensional mask. The step `mags = np.abs(amplitudes); mask = mags > mags.mean()` works on complex magnitudes in floating point and is not modelled. A one-dimensional mask is modelled as one row (`mask[None, :]`). A mask with no dimensions or with more than two, where numpy indexing and `_count_components` behave differently, is not modelled.
- Collider.SemanticCollider.Collide: the amplitude memory holds each vector as its complex cast (`ToComplex`), where the source stores the float array itself. The entries and their order are the same; only the element type differs. The same holds for the candidates that `Scores` stores.
- Reasoning.SymbolicAnd: it requires two operands of one length. numpy's `np.logical_and` also broadcasts a size-1 operand against a longer one, which the model does not capture. No caller in the repository relies on broadcasting.
- Reasoning.SymbolicOr: it requires two operands of one length, so the broadcast of a size-1 operand by `np.logical_or` is not captured either.
- Collider.Dot: the encoder is a parameter not constrained to give vectors of `dim` entries, as `encode(t, dim=self.dim)` does. On two vectors of different lengths `Dot` sums the common prefix, where numpy's `a @ b` raises ValueError.
- Forecast.SimulatePaths: the scorer (the transformer logits and the softmax over the vocabulary) is a parameter that is not constrained to give one pair per vocabulary word. Only the softmax's ValueError on an empty vocabulary is modelled. Loading the vocabulary, which calls `asyncio.run` on a synchronous function, is an input instead.
- The morphological encoder `encode`, which is not part of this model, is a parameter of the stores and of the collider. The text-to-vector step of `memory/memory_graph.py` and `memory/store.py` is given the vector it would produce.
- `np.argsort` of the distances in `SimpleMemory.MemoryStore.MostSimilar` is an input order. The cosine and norm ranking of `retrieve` and `most_similar` in the other stores is not modelled.
- The regular-expression rules of `passes_filters`, which rely on `\b`, back-references and look-ahead, are given as one search predicate. Only the blank-text guard is modelled as written.
- `eval` in `SymbolicReasoner.evaluate` is replaced by a tokenizer and parser for identifiers, AND, OR, NOT and parentheses. Other Python syntax that `eval` would accept or reject after the rewrite is not modelled. For example, `evaluate("()")` is False in Python because `()` is an empty tuple, and `evaluate("A (B)")` raises TypeError because `True (True)` calls a bool; the model returns SyntaxError for both.
- Randomness is left open: exploration in `MetaControl.MetaController.Select` picks any arm, the greedy branch picks any maximal one, and the prompt and response choices in `DreamMode` are any members of their lists.
- The forecast training step (`model.train_step`) is abstract: backpropagation yields the steps it would take, in order.
- The random projection `_project` in `pro_rag_embedding.py`, `TimeFoldTransformer.echo_backward` and the time-folding gradient echo of `Trainer.train_step` are not modelled. The echo builds a throw-away transformer and memory and changes no trainer state.
- The SHA-256 digests in `scan_datasets` are given as maps from file name to digest. `Engine.DatasetChanged` is the change test over them.

Input and output, concurrency:

- The SQLite side of `pro_memory.py` and of `memory/storage.py` (every async database helper) is not modelled, and neither are the embeddings `pro_memory.add_message` stores. Only the module-level message list is.
- File I/O:
  - `MemoryStore.save` and `MemoryGraphStore.save`/`load` of `memory/memory_lattice.py` are not modelled;
  - `LayerMutator.save`/`load` and the checkpoint `Trainer._evaluate` writes after a boost are not modelled;
  - `MetaController.persist` is not modelled;
  - `pro_tune.train`, `save_state` and `load_state` are not modelled;
  - the hash file of `scan_datasets` is not modelled.
- `MemoryStorage.MemoryStore.Load` takes the decoded JSON value instead of a path.
- `DreamMode` takes the parsed data document instead of reading a JSON or YAML file.
- The UDP transport, pings, `health_check`, `send_command` and the JSON layer of `encrypt`/`decrypt` in `d/pro_mesh.py` are not modelled. A received datagram is given as the message it decodes to.
- The stream server and the parameter hash of `resonance/p2p_resonance.py` are not modelled.
- `dream_mode.run` is not modelled: it is async, and it calls `Trainer.evolve`, which `trainer.py` does not define.
- `ProEngine.setup`, `_async_tune`, `process_message` and `interact` are not modelled.
- `SelfFineTuner.run` blends the weights of linked layers after computing the deltas. That step reads `fractal_links` from `trainer.py`, which does not define it, so the import fails and the blending loop runs over an empty list. The model leaves it out.

## Findings

| source | as written | input that shows it | evidently intended | confidence | as-written member | corrected member |
|---|---|---|---|---|---|---|
| memory/store.py:59-63 (also memory/storage.py:61-65, memory/memory_graph.py:36-40) | `if self.embeddings.size:` decides between stacking and starting over, and a matrix whose rows have width 0 has size 0 | a store built with `dim=0`, then two utterances with empty vectors: the second replaces the one-row matrix, so both nodes get index 0 | start over only when the matrix has no rows, so every vector-backed node gets its own row | not executed | Dialogue.StackAsWritten, Dialogue.StackAsWrittenReusesIndex | Dialogue.Stack, Dialogue.StackIndexFresh |
