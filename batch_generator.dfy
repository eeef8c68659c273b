/**
  Next-token training pairs for the word-embedding example: `batch_generator`
  slides a window of `seqLength` tokens over the corpus, pairs each window
  with the one-token slice that follows it, and hands the pairs out in
  consecutive batches of at most `batchSize`.

  The generator is modelled as a method that returns the whole list of
  batches it would yield, or the error it would raise.
 */
module BatchGenerator {

  /** Why the generator raises `ValueError` instead of yielding. */
  datatype Error =
    | SeqLengthTooLong(seqLength: nat, corpusLen: nat)  // the explicit guard on the window length
    | ZeroBatchSize                                      // `range` refuses a step of 0

  datatype Result<T> = Ok(value: T) | Err(error: Error)

  /** One yielded batch: the windows `x` and their labels `y`. */
  datatype Batch<T> = Batch(x: seq<seq<T>>, y: seq<seq<T>>)

  function Min(a: int, b: int): int
  {
    if a <= b then a else b
  }

  /** Concatenation of a sequence of sequences. */
  function Flatten<T>(ss: seq<seq<T>>): seq<T>
  {
    if ss == [] then [] else ss[0] + Flatten(ss[1..])
  }

  /** Every window of `seqLength` consecutive tokens that has a token after it. */
  function Windows<T>(corpus: seq<T>, seqLength: nat): (ws: seq<seq<T>>)
    requires seqLength < |corpus|
    ensures |ws| == |corpus| - seqLength
    ensures forall i :: 0 <= i < |ws| ==> |ws[i]| == seqLength
  {
    seq(|corpus| - seqLength, i requires 0 <= i < |corpus| - seqLength => corpus[i..i + seqLength])
  }

  /** The one-token slices `corpus[p..p+1]` for every position `p` from `seqLength` on. */
  function Labels<T>(corpus: seq<T>, seqLength: nat): (ys: seq<seq<T>>)
    requires seqLength < |corpus|
    ensures |ys| == |corpus| - seqLength
    ensures forall i :: 0 <= i < |ys| ==> |ys[i]| == 1
  {
    seq(|corpus| - seqLength, i requires 0 <= i < |corpus| - seqLength =>
      corpus[seqLength + i..seqLength + i + 1])
  }

  /** Consecutive batches of at most `size` pairs, in order. */
  function BatchesOf<T>(xs: seq<seq<T>>, ys: seq<seq<T>>, size: nat): (bs: seq<Batch<T>>)
    requires size > 0 && |xs| == |ys|
    ensures bs == [] <==> xs == []
    decreases |xs|
  {
    if xs == [] then []
    else
      var k := Min(size, |xs|);
      [Batch(xs[..k], ys[..k])] + BatchesOf(xs[k..], ys[k..], size)
  }

  /** All `x` parts of a list of batches, one after the other. */
  function AllX<T>(bs: seq<Batch<T>>): seq<seq<T>>
  {
    if bs == [] then [] else bs[0].x + AllX(bs[1..])
  }

  /** All `y` parts of a list of batches, one after the other. */
  function AllY<T>(bs: seq<Batch<T>>): seq<seq<T>>
  {
    if bs == [] then [] else bs[0].y + AllY(bs[1..])
  }

  /** What `batch_generator(corpus, batchSize, seqLength)` yields or raises. */
  function TrainingBatches<T>(corpus: seq<T>, batchSize: int, seqLength: nat): (r: Result<seq<Batch<T>>>)
    ensures r.Err? <==> seqLength >= |corpus| || batchSize == 0
    ensures seqLength >= |corpus| ==> r == Err(SeqLengthTooLong(seqLength, |corpus|))
    ensures r.Ok? && batchSize > 0 ==> r.value != []
  {
    if seqLength >= |corpus| then Err(SeqLengthTooLong(seqLength, |corpus|))
    else if batchSize == 0 then Err(ZeroBatchSize)
    else if batchSize < 0 then Ok([])
    else Ok(BatchesOf(Windows(corpus, seqLength), Labels(corpus, seqLength), batchSize))
  }

  // ---------------------------------------------------------------------
  // Windows and labels

  /**
    Each training pair is a next-token pair: window `i` followed by its label
    is the contiguous slice of `seqLength + 1` tokens starting at `i`.
   */
  lemma WindowThenLabel<T>(corpus: seq<T>, seqLength: nat, i: nat)
    requires seqLength < |corpus| && i < |corpus| - seqLength
    ensures Windows(corpus, seqLength)[i] + Labels(corpus, seqLength)[i] == corpus[i..i + seqLength + 1]
  {
    assert corpus[i..i + seqLength + 1] == corpus[i..i + seqLength] + corpus[i + seqLength..i + seqLength + 1];
  }

  /** The labels, concatenated, are the corpus after its first window. */
  lemma {:induction false} LabelsFlatten<T>(corpus: seq<T>, seqLength: nat)
    requires seqLength < |corpus|
    ensures Flatten(Labels(corpus, seqLength)) == corpus[seqLength..]
    decreases |corpus| - seqLength
  {
    var ys := Labels(corpus, seqLength);
    if seqLength + 1 == |corpus| {
      assert ys[1..] == [];
    } else {
      assert ys[1..] == Labels(corpus, seqLength + 1);
      LabelsFlatten(corpus, seqLength + 1);
      assert corpus[seqLength..] == corpus[seqLength..seqLength + 1] + corpus[seqLength + 1..];
    }
  }

  /** No token is lost: the first window followed by all labels is the whole corpus. */
  lemma CorpusFromPairs<T>(corpus: seq<T>, seqLength: nat)
    requires seqLength < |corpus|
    ensures Windows(corpus, seqLength)[0] + Flatten(Labels(corpus, seqLength)) == corpus
  {
    LabelsFlatten(corpus, seqLength);
    assert corpus == corpus[..seqLength] + corpus[seqLength..];
  }

  // ---------------------------------------------------------------------
  // Batching

  /** Where batch `k` starts: `k * size`, written as repeated addition. */
  function Offset(k: nat, size: nat): nat
  {
    if k == 0 then 0 else Offset(k - 1, size) + size
  }

  lemma {:induction false} OffsetIsProduct(k: nat, size: nat)
    ensures Offset(k, size) == k * size
  {
    if k > 0 {
      OffsetIsProduct(k - 1, size);
    }
  }

  /** `n / size` is the `q` of any decomposition `n == q * size + r` with `0 <= r < size`. */
  lemma DivUnique(n: int, size: int, q: int, r: int)
    requires size > 0 && 0 <= r < size && n == q * size + r
    ensures n / size == q
  {
    var q', r' := n / size, n % size;
    if q' > q {
      MulMonotone(q + 1, q', size);
      assert false;
    }
    if q' < q {
      MulMonotone(q' + 1, q, size);
      assert false;
    }
  }

  lemma MulMonotone(a: int, b: int, c: nat)
    requires a <= b
    ensures a * c <= b * c
  {
  }

  /** `c` batches of `size` cover `n > 0` items with the last one non-empty exactly when `c == ceil(n / size)`. */
  lemma CeilDiv(n: nat, size: nat, c: nat)
    requires size > 0 && c > 0
    requires Offset(c - 1, size) < n <= Offset(c, size)
    ensures c == (n + size - 1) / size
  {
    OffsetIsProduct(c - 1, size);
    OffsetIsProduct(c, size);
    DivUnique(n + size - 1, size, c, n + size - 1 - c * size);
  }

  /** The batches cover the pairs, the last batch being non-empty. */
  lemma {:induction false} BatchesSpan<T>(xs: seq<seq<T>>, ys: seq<seq<T>>, size: nat)
    requires size > 0 && |xs| == |ys|
    ensures |BatchesOf(xs, ys, size)| == 0 <==> xs == []
    ensures |BatchesOf(xs, ys, size)| > 0 ==>
      Offset(|BatchesOf(xs, ys, size)| - 1, size) < |xs| <= Offset(|BatchesOf(xs, ys, size)|, size)
    decreases |xs|
  {
    if xs != [] {
      var k := Min(size, |xs|);
      BatchesSpan(xs[k..], ys[k..], size);
    }
  }

  /** There are `ceil(|xs| / size)` batches. */
  lemma BatchesCount<T>(xs: seq<seq<T>>, ys: seq<seq<T>>, size: nat)
    requires size > 0 && |xs| == |ys|
    ensures |BatchesOf(xs, ys, size)| == (|xs| + size - 1) / size
  {
    BatchesSpan(xs, ys, size);
    if xs == [] {
      DivUnique(size - 1, size, 0, size - 1);
    } else {
      CeilDiv(|xs|, size, |BatchesOf(xs, ys, size)|);
    }
  }

  /** Batch `k` holds the pairs from `k * size` up to `(k + 1) * size`, clipped at the end. */
  lemma {:induction false} BatchAt<T>(xs: seq<seq<T>>, ys: seq<seq<T>>, size: nat, k: nat)
    requires size > 0 && |xs| == |ys|
    requires k < |BatchesOf(xs, ys, size)|
    ensures Offset(k, size) == k * size
    ensures Offset(k, size) < |xs|
    ensures BatchesOf(xs, ys, size)[k].x == xs[Offset(k, size)..Min(Offset(k, size) + size, |xs|)]
    ensures BatchesOf(xs, ys, size)[k].y == ys[Offset(k, size)..Min(Offset(k, size) + size, |xs|)]
  {
    assert xs[0..] == xs && ys[0..] == ys;
    BatchAtFrom(xs, ys, size, 0, k);
    OffsetIsProduct(k, size);
  }

  /** `BatchAt` for the batches of the pairs from position `i` on. */
  lemma {:induction false} BatchAtFrom<T>(xs: seq<seq<T>>, ys: seq<seq<T>>, size: nat, i: nat, k: nat)
    requires size > 0 && |xs| == |ys| && i <= |xs|
    requires k < |BatchesOf(xs[i..], ys[i..], size)|
    ensures i + Offset(k, size) < |xs|
    ensures BatchesOf(xs[i..], ys[i..], size)[k] == Batch(
      xs[i + Offset(k, size)..Min(i + Offset(k, size) + size, |xs|)],
      ys[i + Offset(k, size)..Min(i + Offset(k, size) + size, |xs|)])
    decreases |xs| - i
  {
    BatchesOfFrom(xs, ys, size, i);
    if k > 0 {
      var j := Min(i + size, |xs|);
      assert BatchesOf(xs[i..], ys[i..], size)[k] == BatchesOf(xs[j..], ys[j..], size)[k - 1];
      BatchAtFrom(xs, ys, size, j, k - 1);
      assert j + Offset(k - 1, size) == i + Offset(k, size);
    }
  }

  /**
    Every batch pairs as many windows as labels, between 1 and `size` of them,
    and every batch but the last is full.
   */
  lemma {:induction false} BatchSizes<T>(xs: seq<seq<T>>, ys: seq<seq<T>>, size: nat, k: nat)
    requires size > 0 && |xs| == |ys|
    requires k < |BatchesOf(xs, ys, size)|
    ensures |BatchesOf(xs, ys, size)[k].x| == |BatchesOf(xs, ys, size)[k].y|
    ensures 1 <= |BatchesOf(xs, ys, size)[k].x| <= size
    ensures k + 1 < |BatchesOf(xs, ys, size)| ==> |BatchesOf(xs, ys, size)[k].x| == size
  {
    BatchAt(xs, ys, size, k);
    if k + 1 < |BatchesOf(xs, ys, size)| {
      BatchAt(xs, ys, size, k + 1);
    }
  }

  /** Batching is lossless and keeps the order: the batches concatenate back to the pairs. */
  lemma {:induction false} BatchesFlatten<T>(xs: seq<seq<T>>, ys: seq<seq<T>>, size: nat)
    requires size > 0 && |xs| == |ys|
    ensures AllX(BatchesOf(xs, ys, size)) == xs
    ensures AllY(BatchesOf(xs, ys, size)) == ys
    decreases |xs|
  {
    if xs != [] {
      var k := Min(size, |xs|);
      var bs := BatchesOf(xs, ys, size);
      assert bs[1..] == BatchesOf(xs[k..], ys[k..], size);
      BatchesFlatten(xs[k..], ys[k..], size);
      assert xs == xs[..k] + xs[k..];
      assert ys == ys[..k] + ys[k..];
    }
  }

  /** Unfolds `BatchesOf` on the pairs from position `i` on. */
  lemma BatchesOfFrom<T>(xs: seq<seq<T>>, ys: seq<seq<T>>, size: nat, i: nat)
    requires size > 0 && |xs| == |ys| && i < |xs|
    ensures BatchesOf(xs[i..], ys[i..], size)
      == [Batch(xs[i..Min(i + size, |xs|)], ys[i..Min(i + size, |xs|)])]
         + BatchesOf(xs[Min(i + size, |xs|)..], ys[Min(i + size, |xs|)..], size)
  {
    var k := Min(size, |xs| - i);
    assert xs[i..][..k] == xs[i..Min(i + size, |xs|)];
    assert ys[i..][..k] == ys[i..Min(i + size, |xs|)];
    assert xs[i..][k..] == xs[Min(i + size, |xs|)..];
    assert ys[i..][k..] == ys[Min(i + size, |xs|)..];
  }

  // ---------------------------------------------------------------------
  // The generator

  /**
    With a positive batch size and a window shorter than the corpus, there are
    `ceil((|corpus| - seqLength) / batchSize)` batches, and concatenating their
    `x`s and `y`s gives back all windows and all labels, in order.
   */
  lemma TrainingBatchesLossless<T>(corpus: seq<T>, batchSize: int, seqLength: nat)
    requires seqLength < |corpus| && batchSize > 0
    ensures TrainingBatches(corpus, batchSize, seqLength).Ok?
    ensures |TrainingBatches(corpus, batchSize, seqLength).value|
      == (|corpus| - seqLength + batchSize - 1) / batchSize
    ensures AllX(TrainingBatches(corpus, batchSize, seqLength).value) == Windows(corpus, seqLength)
    ensures AllY(TrainingBatches(corpus, batchSize, seqLength).value) == Labels(corpus, seqLength)
  {
    BatchesCount(Windows(corpus, seqLength), Labels(corpus, seqLength), batchSize);
    BatchesFlatten(Windows(corpus, seqLength), Labels(corpus, seqLength), batchSize);
  }

  /**
    Item `j` of batch `k` is the next-token pair at corpus position
    `p = k * batchSize + j`: its window is `corpus[p..p+seqLength]` and its
    label is the single token after it.
   */
  lemma TrainingPairAt<T>(corpus: seq<T>, batchSize: int, seqLength: nat, k: nat, j: nat)
    requires seqLength < |corpus| && batchSize > 0
    requires k < |TrainingBatches(corpus, batchSize, seqLength).value|
    requires j < |TrainingBatches(corpus, batchSize, seqLength).value[k].x|
    ensures j < |TrainingBatches(corpus, batchSize, seqLength).value[k].y|
    ensures k * batchSize + j + seqLength < |corpus|
    ensures TrainingBatches(corpus, batchSize, seqLength).value[k].x[j]
      == corpus[k * batchSize + j..k * batchSize + j + seqLength]
    ensures TrainingBatches(corpus, batchSize, seqLength).value[k].y[j]
      == [corpus[k * batchSize + j + seqLength]]
  {
    var xs, ys := Windows(corpus, seqLength), Labels(corpus, seqLength);
    var b := BatchesOf(xs, ys, batchSize)[k];
    assert TrainingBatches(corpus, batchSize, seqLength).value[k] == b;
    BatchAt(xs, ys, batchSize, k);
    var p := k * batchSize + j;
    assert b.x[j] == xs[p] && b.y[j] == ys[p];
    assert ys[p] == corpus[seqLength + p..seqLength + p + 1];
  }

  /**
    `batch_generator`: reject a window that is not shorter than the corpus,
    build all windows and labels, then step through them `batchSize` at a
    time, emitting the slices starting at each step.
   */
  method Generate<T>(corpus: seq<T>, batchSize: int, seqLength: nat) returns (r: Result<seq<Batch<T>>>)
    ensures r == TrainingBatches(corpus, batchSize, seqLength)
  {
    if seqLength >= |corpus| {
      return Err(SeqLengthTooLong(seqLength, |corpus|));
    }
    var sequences := Windows(corpus, seqLength);
    var ys := Labels(corpus, seqLength);
    if batchSize == 0 {
      return Err(ZeroBatchSize);
    }
    var batches: seq<Batch<T>> := [];
    if batchSize > 0 {
      var n := |sequences|;
      var i := 0;
      while i < n
        invariant 0 <= i
        invariant batches + BatchesOf(sequences[Min(i, n)..], ys[Min(i, n)..], batchSize)
          == BatchesOf(sequences, ys, batchSize)
        decreases n - i
      {
        var x := sequences[i..Min(i + batchSize, n)];
        var y := ys[i..Min(i + batchSize, n)];
        BatchesOfFrom(sequences, ys, batchSize, i);
        batches := batches + [Batch(x, y)];
        i := i + batchSize;
      }
      assert sequences[Min(i, n)..] == [] && ys[Min(i, n)..] == [];
      assert BatchesOf(sequences[Min(i, n)..], ys[Min(i, n)..], batchSize) == [];
      assert batches == BatchesOf(sequences, ys, batchSize);
    }
    return Ok(batches);
  }
}
