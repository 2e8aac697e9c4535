/**
 * The batch loop's slicing: `documents[i:i + batch_size]` for
 * `i in range(0, len(documents), batch_size)` with the scripts' batch size
 * of 100.
 */
module Batching {
  import opened Seqs

  const BatchSize: nat := 100

  function Min(a: int, b: int): int
  {
    if a <= b then a else b
  }

  /** `math.ceil(n / batch_size)`, the `total_batches` the scripts report. */
  function CeilDiv(n: nat): nat
  {
    (n + BatchSize - 1) / BatchSize
  }

  /** Batch `k` (from 0) exists exactly when its first chunk `k * 100` does. */
  lemma BatchCountBound(n: nat, k: nat)
    ensures k < CeilDiv(n) <==> k * BatchSize < n
  {
  }

  /** The batches: the first 100 chunks, then the next 100, and so on; the last may be shorter. */
  function Batches<T>(docs: seq<T>): seq<seq<T>>
    decreases |docs|
  {
    if docs == [] then []
    else if |docs| <= BatchSize then [docs]
    else [docs[..BatchSize]] + Batches(docs[BatchSize..])
  }

  /** The batches cover every chunk exactly once, in order. */
  lemma {:induction false} BatchesCover<T>(docs: seq<T>)
    ensures Flatten(Batches(docs)) == docs
    decreases |docs|
  {
    if docs == [] {
    } else if |docs| <= BatchSize {
      assert Flatten([docs]) == docs + Flatten([docs][1..]);
    } else {
      var bs := Batches(docs);
      BatchesCover(docs[BatchSize..]);
      assert bs[1..] == Batches(docs[BatchSize..]);
      assert docs == docs[..BatchSize] + docs[BatchSize..];
    }
  }

  /**
   * There are `math.ceil(n / 100)` batches; each holds between 1 and 100
   * chunks, and all but the last hold exactly 100.
   */
  lemma {:induction false} BatchesShape<T>(docs: seq<T>)
    ensures |Batches(docs)| == CeilDiv(|docs|)
    ensures forall k :: 0 <= k < |Batches(docs)| ==> 0 < |Batches(docs)[k]| <= BatchSize
    ensures forall k :: 0 <= k < |Batches(docs)| - 1 ==> |Batches(docs)[k]| == BatchSize
    decreases |docs|
  {
    if |docs| > BatchSize {
      var rest := docs[BatchSize..];
      BatchesShape(rest);
      var bs := Batches(docs);
      assert bs == [docs[..BatchSize]] + Batches(rest);
      forall k | 1 <= k < |bs| ensures bs[k] == Batches(rest)[k - 1] { }
    }
  }

  /**
   * Batch `k` (from 0) is the slice `docs[k*100 : k*100 + 100]`, which is
   * what the loop takes at `i = k * 100`.
   */
  lemma {:induction false} BatchAt<T>(docs: seq<T>, k: nat)
    requires k < |Batches(docs)|
    ensures k * BatchSize < |docs|
    ensures Batches(docs)[k] == docs[k * BatchSize..Min(k * BatchSize + BatchSize, |docs|)]
    decreases |docs|
  {
    if k > 0 {
      var rest := docs[BatchSize..];
      BatchAt(rest, k - 1);
      assert Batches(docs)[k] == Batches(rest)[k - 1];
      assert rest[(k - 1) * BatchSize..Min((k - 1) * BatchSize + BatchSize, |rest|)]
          == docs[k * BatchSize..Min(k * BatchSize + BatchSize, |docs|)];
    }
  }

  /** The first `j` batches hold exactly the first `min(100 * j, n)` chunks. */
  lemma {:induction false} BatchesPrefix<T>(docs: seq<T>, j: nat)
    requires j <= |Batches(docs)|
    ensures Flatten(Batches(docs)[..j]) == docs[..Min(j * BatchSize, |docs|)]
    decreases j
  {
    if j == 0 {
      assert Batches(docs)[..0] == [];
    } else {
      BatchesPrefix(docs, j - 1);
      BatchAt(docs, j - 1);
      var bs := Batches(docs);
      assert bs[..j] == bs[..j - 1] + [bs[j - 1]];
      FlattenSnoc(bs[..j - 1], bs[j - 1]);
    }
  }
}
