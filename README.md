# Label and token preparation in the TensorFlow examples

This project models the two pieces of plain data handling in the TensorFlow
example scripts, and proves their properties in Dafny:

- **One-hot encoding** (`make_one_hot` in the MNIST tutorial). It allocates an
  all-zero `len(indices) x depth` integer matrix, then walks the labels and
  writes a single 1 into each row. This is modelled in `one_hot.dfy` (module
  `OneHot`) as a method that fills a fresh `array2<int>` in a loop. The loop
  invariant says the rows already visited are one-hot and the rest are still
  zero. The method is proved equal to the pure encoding `Encode`, and `Decode`
  (the column of the 1 in each row) is proved to invert it.
- **Next-token training batches** (`batch_generator` in the word-embedding
  example). It rejects a window length that is not shorter than the corpus.
  It builds every window of `seq_length` tokens together with the one-token
  slice that follows it, and yields these pairs in consecutive batches of at
  most `batch_size`. This is modelled in `batch_generator.dfy` (module
  `BatchGenerator`). The generator is a method with a loop that steps by the
  batch size. It returns the whole list of batches it would yield, or the
  error it would raise, and is proved equal to the function
  `TrainingBatches`. Lemmas prove the batch count, the batch sizes, what each
  batch holds, and that the batches concatenate back to all windows and
  labels.
- **Vocabulary** (the module-level code of the same script). It numbers the
  distinct tokens and builds `word2id`, `id2word` and `corpus_ids`. This is
  modelled in `vocabulary.dfy` (module `Vocabulary`) as functions over the
  corpus and a listing of its distinct tokens. The order in which Python
  iterates a set is unspecified, so every property holds for any listing
  that names each distinct word exactly once.

The corpus is an already tokenised `seq<T>`, with any token type `T`.

## Model

| member | source | states |
|---|---|---|
| `OneHot.MakeOneHot` | tensorflow-org/tutorials/cnn_mnist.py:35-63 | returns a fresh `len(indices) x depth` array whose rows are exactly `Encode(indices, depth)`, and decoding those rows gives back `indices` |
| `OneHot.Encode` | tensorflow-org/tutorials/cnn_mnist.py:60-62 | the matrix `make_one_hot` builds: one row per label, each `depth` long, with entry `(i, j)` equal to 1 exactly when `j == indices[i]` and 0 otherwise |
| `OneHot.EncodeRowIsOneHot` | tensorflow-org/tutorials/cnn_mnist.py:60-62 | row `i` has `depth` entries, a 1 at column `indices[i]`, 0 everywhere else, and sums to 1 |
| `OneHot.RowSum` | tensorflow-org/tutorials/cnn_mnist.py:49-54 | a one-hot row for a label in `[0, depth)` sums to 1, as in the docstring example; the clause for a label outside the row (sum 0) describes only the model's `Row` and is there so the induction on `depth` goes through, since the source never builds such a row |
| `OneHot.HotColumnOfRow` | tensorflow-org/tutorials/cnn_mnist.py:61-62 | the first (and only) 1 of the row for label `k` is at column `k` |
| `OneHot.DecodeEncode` | tensorflow-org/tutorials/cnn_mnist.py:45-54 | reading the column of the 1 in every row recovers the label sequence |
| `OneHot.EncodeInjective` | tensorflow-org/tutorials/cnn_mnist.py:45-54 | two label sequences with the same one-hot matrix are equal |
| `BatchGenerator.Windows` | saving-restoring/embedding.py:48 | there are `len(corpus) - seq_length` windows, each of length `seq_length` |
| `BatchGenerator.Labels` | saving-restoring/embedding.py:49 | there are as many labels as windows, each a one-token slice |
| `BatchGenerator.BatchesOf` | saving-restoring/embedding.py:51-55 | the `for` loop's output: consecutive batches of at most `size` pairs, `x` and `y` sliced at the same positions; there are no batches exactly when there are no pairs |
| `BatchGenerator.WindowThenLabel` | saving-restoring/embedding.py:48-49 | window `i` followed by label `i` is the slice `corpus[i .. i+seq_length+1)`: the label is the token right after the window |
| `BatchGenerator.LabelsFlatten` | saving-restoring/embedding.py:49 | the labels, concatenated, are the corpus from position `seq_length` on |
| `BatchGenerator.CorpusFromPairs` | saving-restoring/embedding.py:48-49 | the first window followed by all labels is the whole corpus |
| `BatchGenerator.BatchesCount` | saving-restoring/embedding.py:51-55 | stepping by `size` gives `ceil(n / size)` batches |
| `BatchGenerator.BatchAt` | saving-restoring/embedding.py:51-53 | batch `k` starts at `Offset(k, size) == k*size` and holds the slices `[k*size, min((k+1)*size, n))` of the windows and of the labels |
| `BatchGenerator.BatchSizes` | saving-restoring/embedding.py:51-53 | each batch has as many `x`s as `y`s, between 1 and `size` of them, and every batch but the last is full |
| `BatchGenerator.BatchesFlatten` | saving-restoring/embedding.py:51-55 | concatenating the `x`s of all batches gives the windows, and concatenating the `y`s gives the labels, in order |
| `BatchGenerator.TrainingBatches` | saving-restoring/embedding.py:29-55 | what the generator yields or raises: it fails exactly when `seq_length >= len(corpus)` (with that error and both numbers) or the batch size is 0, and with a positive batch size it yields at least one batch |
| `BatchGenerator.TrainingBatchesLossless` | saving-restoring/embedding.py:45-55 | with a valid window length and a positive batch size there are `ceil((len(corpus)-seq_length)/batch_size)` batches, and they concatenate back to all windows and all labels |
| `BatchGenerator.TrainingPairAt` | saving-restoring/embedding.py:48-53 | item `j` of batch `k` is the window at corpus position `p = k*batch_size + j` paired with the single token `corpus[p+seq_length]` |
| `BatchGenerator.Generate` | saving-restoring/embedding.py:29-55 | the loop that steps through the pairs `batch_size` at a time yields exactly `TrainingBatches(corpus, batch_size, seq_length)`, including the error cases |
| `Vocabulary.TokenSet` | saving-restoring/embedding.py:66-67 | `set(corpus)`: holds every corpus word and nothing else |
| `Vocabulary.Word2Id` | saving-restoring/embedding.py:70 | `word2id`: every listed word is a key, and each key's id is its position in the listing, below `len(tokens)` |
| `Vocabulary.Id2Word` | saving-restoring/embedding.py:71 | `id2word`: the keys are exactly `0 .. len(tokens)-1`, and id `i` maps to the word listed at position `i` |
| `Vocabulary.Lookup` | saving-restoring/embedding.py:74 | looking a sequence up in a map (`corpus_ids` from `word2id`) gives one value per element |
| `Vocabulary.DistinctCount` | saving-restoring/embedding.py:66-67 | a listing without repetitions has as many distinct elements as entries |
| `Vocabulary.TokenSetBound` | saving-restoring/embedding.py:62-67 | a sequence has at most as many distinct elements as entries |
| `Vocabulary.TokenCount` | saving-restoring/embedding.py:62-67 | `nb_tokens` equals the length of any listing of the token set and is at most `corpus_len` |
| `Vocabulary.Word2IdKeys` | saving-restoring/embedding.py:66-70 | the keys of `word2id` are exactly the words of the corpus |
| `Vocabulary.Id2WordKeys` | saving-restoring/embedding.py:66-71 | the keys of `id2word` are exactly `0 .. nb_tokens-1` |
| `Vocabulary.MapsInverse` | saving-restoring/embedding.py:70-71 | `word2id` and `id2word` are mutual inverses, in both directions |
| `Vocabulary.CorpusIdsDecode` | saving-restoring/embedding.py:70-74 | every corpus word has an id below `nb_tokens`, and looking `corpus_ids` up in `id2word` gives back the corpus |
| `Vocabulary.CorpusIdsSameWord` | saving-restoring/embedding.py:74 | for any order of the token set, two corpus positions get the same id exactly when they hold the same word |

## Left out

- Everything that builds or runs TensorFlow graphs, models, losses and optimisers. These are calls into a foreign library and floating-point numerics.
- `load_data`, `make_dataset`, `input_fn`, `_parse_line` and the iris evaluation loop. These are downloads, file reads, `float32` conversion and `tf.data` or estimator wrappers.
- Argument parsing, logging, reading the corpus file and `text.split()`. These are I/O or Python builtins. The model takes the corpus as an already tokenised sequence.
- `OneHot.MakeOneHot`: requires every label to lie in `[0, depth)`. numpy raises `IndexError` for a label `>= depth` after the earlier rows are written, and for a label below `-depth`. It wraps a label in `[-depth, 0)` around to count from the end of the row. Neither behaviour is modelled.
- `OneHot.MakeOneHot`: the `dtype` argument is not modelled. Entries are unbounded integers; 0 and 1 are exact in every numpy dtype.
- `BatchGenerator.Generate`: the Python generator is lazy, so it raises on the first request for a batch rather than when it is called. The model returns the whole list of batches at once, and an error as a `Result` value.
- `BatchGenerator.Generate`: `seq_length` is a natural number. A negative `seq_length` would make Python slice from the end of the corpus, which is not modelled.
- `Vocabulary.Word2Id`, `Vocabulary.Id2Word`: `word2id` and `id2word` come from two separate iterations of the token set. The model gives both the same listing, so it assumes both iterations see the same order. CPython lists an unmodified set in the same order each time. `MapsInverse` and `CorpusIdsDecode` depend on this assumption.
- The concrete iteration order of `set(corpus)`. It is unspecified, so the vocabulary functions take any listing of the distinct tokens with no repetitions.
