/**
  One-hot encoding of class labels, as done by `make_one_hot` in the MNIST
  tutorial: an all-zero `len(indices) x depth` integer matrix is allocated,
  and then, row by row, the column named by the row's label is set to 1.

  The matrix is an `array2<int>` filled in place by a loop. Its meaning is
  given by the pure function `Encode`, and `Decode` (the column of the 1 in
  each row) is proved to be its inverse.
 */
module OneHot {

  /** Every label names a column of a `depth`-wide matrix. */
  predicate LabelsInRange(indices: seq<int>, depth: nat)
  {
    forall i :: 0 <= i < |indices| ==> 0 <= indices[i] < depth
  }

  /** The one-hot row for label `k`: `depth` entries, 1 at column `k`, 0 elsewhere. */
  function Row(k: int, depth: nat): (row: seq<int>)
    ensures |row| == depth
  {
    seq(depth, j => if j == k then 1 else 0)
  }

  /** The matrix `make_one_hot` is meant to return, one row per label. */
  function Encode(indices: seq<int>, depth: nat): (m: seq<seq<int>>)
    ensures |m| == |indices|
    ensures forall i :: 0 <= i < |m| ==> |m[i]| == depth
    ensures forall i, j :: 0 <= i < |m| && 0 <= j < depth ==>
      (m[i][j] == 1 <==> j == indices[i]) && (m[i][j] == 0 <==> j != indices[i])
  {
    seq(|indices|, i requires 0 <= i < |indices| => Row(indices[i], depth))
  }

  /** Sum of the entries of a row. */
  function Sum(s: seq<int>): int
  {
    if s == [] then 0 else Sum(s[..|s| - 1]) + s[|s| - 1]
  }

  /** Column of the first 1 in `row`, or `|row|` when there is none. */
  function HotColumn(row: seq<int>): (c: nat)
    ensures c <= |row|
    ensures c < |row| ==> row[c] == 1
    ensures forall j :: 0 <= j < c ==> row[j] != 1
  {
    if row == [] then 0
    else if row[0] == 1 then 0
    else 1 + HotColumn(row[1..])
  }

  /** Reads the label back out of every row of a one-hot matrix. */
  function Decode(m: seq<seq<int>>): (labels: seq<int>)
    ensures |labels| == |m|
  {
    seq(|m|, i requires 0 <= i < |m| => HotColumn(m[i]))
  }

  /** The rows of a two-dimensional array, as a sequence of sequences. */
  function Rows(a: array2<int>): (m: seq<seq<int>>)
    reads a
    ensures |m| == a.Length0
    ensures forall i :: 0 <= i < a.Length0 ==> |m[i]| == a.Length1
  {
    seq(a.Length0, i requires 0 <= i < a.Length0 reads a =>
      seq(a.Length1, j requires 0 <= j < a.Length1 reads a => a[i, j]))
  }

  /**
    Each row of `Encode` holds exactly one 1, at the label's column, every
    other entry is 0, and the row sums to 1.
   */
  lemma EncodeRowIsOneHot(indices: seq<int>, depth: nat, i: nat)
    requires LabelsInRange(indices, depth)
    requires i < |indices|
    ensures |Encode(indices, depth)[i]| == depth
    ensures Encode(indices, depth)[i][indices[i]] == 1
    ensures forall j :: 0 <= j < depth && j != indices[i] ==> Encode(indices, depth)[i][j] == 0
    ensures Sum(Encode(indices, depth)[i]) == 1
  {
    RowSum(indices[i], depth);
  }

  /** A one-hot row for a label inside the row sums to 1; one outside sums to 0. */
  lemma {:induction false} RowSum(k: int, depth: nat)
    ensures Sum(Row(k, depth)) == if 0 <= k < depth then 1 else 0
  {
    if depth > 0 {
      var row := Row(k, depth);
      assert row[..depth - 1] == Row(k, depth - 1);
      RowSum(k, depth - 1);
    }
  }

  /** The 1 of a one-hot row sits at the label's column. */
  lemma {:induction false} HotColumnOfRow(k: int, depth: nat)
    requires 0 <= k < depth
    ensures HotColumn(Row(k, depth)) == k
  {
    var row := Row(k, depth);
    if k > 0 {
      assert row[1..] == Row(k - 1, depth - 1);
      HotColumnOfRow(k - 1, depth - 1);
    }
  }

  /** Invertibility: decoding the one-hot matrix gives back the labels. */
  lemma DecodeEncode(indices: seq<int>, depth: nat)
    requires LabelsInRange(indices, depth)
    ensures Decode(Encode(indices, depth)) == indices
  {
    forall i | 0 <= i < |indices|
      ensures Decode(Encode(indices, depth))[i] == indices[i]
    {
      HotColumnOfRow(indices[i], depth);
    }
  }

  /**
    Labels are recovered only from their own encoding: two label sequences
    with the same one-hot matrix are equal.
   */
  lemma EncodeInjective(a: seq<int>, b: seq<int>, depth: nat)
    requires LabelsInRange(a, depth) && LabelsInRange(b, depth)
    requires Encode(a, depth) == Encode(b, depth)
    ensures a == b
  {
    DecodeEncode(a, depth);
    DecodeEncode(b, depth);
  }

  /**
    `make_one_hot`: allocate a zero matrix with one row per label and `depth`
    columns, then write a 1 at `(i, indices[i])` for each row `i`.
   */
  method MakeOneHot(indices: seq<int>, depth: nat) returns (hot: array2<int>)
    requires LabelsInRange(indices, depth)
    ensures fresh(hot)
    ensures hot.Length0 == |indices| && hot.Length1 == depth
    ensures Rows(hot) == Encode(indices, depth)
    ensures Decode(Rows(hot)) == indices
  {
    hot := new int[|indices|, depth]((i, j) => 0);
    for i := 0 to |indices|
      invariant forall r, c :: 0 <= r < i && 0 <= c < depth ==>
        hot[r, c] == if c == indices[r] then 1 else 0
      invariant forall r, c :: i <= r < |indices| && 0 <= c < depth ==> hot[r, c] == 0
    {
      hot[i, indices[i]] := 1;
    }
    assert forall r :: 0 <= r < |indices| ==> Rows(hot)[r] == Encode(indices, depth)[r];
    DecodeEncode(indices, depth);
  }
}
