/**
 * The batched, failure-tolerant index builder shared by both vector-store
 * scripts: the chunk list is cut into batches of 100; the first batch that
 * embeds without an error creates the FAISS store, every later successful
 * batch is added to it, and a batch that raises is reported and skipped.
 *
 * The embedding service and FAISS are library code. A batch either goes in
 * whole or raises; which batches raise is the parameter `embedFails`, a
 * predicate on the batch ordinal the scripts print (`i // batch_size + 1`).
 */
module IndexBuilding {
  import opened Wrappers
  import opened Seqs
  import opened Batching

  /** What the FAISS store holds: the chunks that went into it, in insertion order. */
  datatype VectorIndex = VectorIndex(entries: seq<string>)

  /** `FAISS.from_documents(batch, embeddings)`: a new store holding the batch. */
  function FromDocuments(batch: seq<string>): VectorIndex
  {
    VectorIndex(batch)
  }

  /** `vectorstore_db.add_documents(batch)`: the batch goes in after what is there. */
  function AddDocuments(index: VectorIndex, batch: seq<string>): VectorIndex
  {
    VectorIndex(index.entries + batch)
  }

  /** A call the loop makes on the store for the batch with this ordinal. */
  datatype StoreCall = Create(ordinal: nat) | Add(ordinal: nat)

  /** A progress line: "Processed batch k of n" or "Error processing batch k". */
  datatype Report = Processed(ordinal: nat, total: nat) | Failed(ordinal: nat)

  /**
   * The chunks of the batches that went in: batch number `k` (counting from
   * 1) contributes its chunks unless `embedFails(k)`.
   */
  function Survivors(bs: seq<seq<string>>, embedFails: nat -> bool): seq<string>
    decreases |bs|
  {
    if bs == [] then []
    else Survivors(Init(bs), embedFails) + (if embedFails(|bs|) then [] else Last(bs))
  }

  /** The store that holds the given chunks, or None while nothing went in. */
  function IndexOf(chunks: seq<string>): Option<VectorIndex>
  {
    if chunks == [] then None else Some(VectorIndex(chunks))
  }

  /**
   * The store calls the loop makes: one per non-empty batch, a creation
   * while no earlier batch went in and an addition afterwards.
   */
  function Calls(bs: seq<seq<string>>, embedFails: nat -> bool): seq<StoreCall>
    decreases |bs|
  {
    if bs == [] then []
    else
      Calls(Init(bs), embedFails)
      + (if Last(bs) == [] then []
         else [if Survivors(Init(bs), embedFails) == [] then Create(|bs|) else Add(|bs|)])
  }

  /** The progress lines the loop prints: one per non-empty batch. */
  function Reports(bs: seq<seq<string>>, embedFails: nat -> bool, total: nat): seq<Report>
    decreases |bs|
  {
    if bs == [] then []
    else
      Reports(Init(bs), embedFails, total)
      + (if Last(bs) == [] then []
         else [if embedFails(|bs|) then Failed(|bs|) else Processed(|bs|, total)])
  }

  /** Some batch among the first `n` embeds without an error. */
  predicate SomeBatchSucceeds(n: nat, embedFails: nat -> bool)
  {
    exists k :: 1 <= k <= n && !embedFails(k)
  }

  predicate NoEmptyBatch(bs: seq<seq<string>>)
  {
    forall k :: 0 <= k < |bs| ==> bs[k] != []
  }

  lemma BatchesAreNonEmpty(docs: seq<string>)
    ensures NoEmptyBatch(Batches(docs))
  {
    BatchesShape(docs);
  }

  /** When no batch fails, the store ends up with every chunk, in order. */
  lemma {:induction false} SurvivorsAllSucceed(bs: seq<seq<string>>, embedFails: nat -> bool)
    requires forall k :: 1 <= k <= |bs| ==> !embedFails(k)
    ensures Survivors(bs, embedFails) == Flatten(bs)
    decreases |bs|
  {
    if bs != [] {
      SurvivorsAllSucceed(Init(bs), embedFails);
      FlattenInit(bs);
    }
  }

  /** When no batch fails, the store holds the whole chunk list, in order. */
  lemma AllBatchesStored(docs: seq<string>, embedFails: nat -> bool)
    requires forall k :: 1 <= k <= |Batches(docs)| ==> !embedFails(k)
    ensures Survivors(Batches(docs), embedFails) == docs
  {
    SurvivorsAllSucceed(Batches(docs), embedFails);
    BatchesCover(docs);
  }

  /**
   * With non-empty batches, nothing goes in exactly when every batch fails;
   * this is when the scripts print their failure message instead of saving.
   */
  lemma {:induction false} NothingStoredIffAllFail(bs: seq<seq<string>>, embedFails: nat -> bool)
    requires NoEmptyBatch(bs)
    ensures Survivors(bs, embedFails) == [] <==> !SomeBatchSucceeds(|bs|, embedFails)
    decreases |bs|
  {
    if bs != [] {
      NothingStoredIffAllFail(Init(bs), embedFails);
      if !embedFails(|bs|) {
        assert Last(bs) == bs[|bs| - 1] != [];
      }
      if SomeBatchSucceeds(|Init(bs)|, embedFails) {
        var k :| 1 <= k <= |Init(bs)| && !embedFails(k);
        assert 1 <= k <= |bs|;
      }
      if SomeBatchSucceeds(|bs|, embedFails) && embedFails(|bs|) {
        var k :| 1 <= k <= |bs| && !embedFails(k);
        assert k <= |Init(bs)|;
      }
    }
  }

  /**
   * When batch `f` alone fails, the store holds every batch but that one:
   * the batches before it followed by the batches after it.
   */
  lemma {:induction false} SurvivorsWithOneFailure(bs: seq<seq<string>>, embedFails: nat -> bool, f: nat)
    requires 1 <= f <= |bs|
    requires forall k :: 1 <= k <= |bs| ==> (embedFails(k) <==> k == f)
    ensures Survivors(bs, embedFails) == Flatten(bs[..f - 1]) + Flatten(bs[f..])
    decreases |bs|
  {
    var init, last := Init(bs), Last(bs);
    if |bs| == f {
      SurvivorsAllSucceed(init, embedFails);
      assert init == bs[..f - 1];
      assert bs[f..] == [];
    } else {
      SurvivorsWithOneFailure(init, embedFails, f);
      var before, after := Flatten(init[..f - 1]), Flatten(init[f..]);
      assert Survivors(bs, embedFails) == before + after + last;
      DropOfInit(bs, f - 1);
      DropOfInit(bs, f);
      FlattenSnoc(init[f..], last);
      assert Flatten(bs[f..]) == after + last;
      assert before + after + last == before + (after + last);
    }
  }

  /**
   * For a chunk list cut into batches of 100, a lone failure of batch `f`
   * drops exactly chunks `100 * (f - 1)` up to `100 * f` (or the end).
   */
  lemma OneFailedBatchDropsItsSlice(docs: seq<string>, embedFails: nat -> bool, f: nat)
    requires 1 <= f <= |Batches(docs)|
    requires forall k :: 1 <= k <= |Batches(docs)| ==> (embedFails(k) <==> k == f)
    ensures (f - 1) * BatchSize < |docs|
    ensures Survivors(Batches(docs), embedFails)
         == docs[..(f - 1) * BatchSize] + docs[Min(f * BatchSize, |docs|)..]
  {
    var bs, n := Batches(docs), |docs|;
    var lo, hi := (f - 1) * BatchSize, Min(f * BatchSize, n);
    SurvivorsWithOneFailure(bs, embedFails, f);
    BatchAt(docs, f - 1);
    BatchesPrefix(docs, f - 1);
    assert Flatten(bs[..f - 1]) == docs[..lo];
    BatchesPrefix(docs, f);
    assert Flatten(bs[..f]) == docs[..hi];
    BatchesCover(docs);
    SplitAt(bs, f);
    FlattenAppend(bs[..f], bs[f..]);
    RestAfterPrefix(docs, docs[..hi], Flatten(bs[f..]));
  }

  /**
   * 250 chunks make batches of 100, 100 and 50; if only the second fails,
   * the store holds batches one and three: 150 chunks.
   */
  lemma SecondOfThreeBatchesFails(docs: seq<string>, embedFails: nat -> bool)
    requires |docs| == 250
    requires !embedFails(1) && embedFails(2) && !embedFails(3)
    ensures |Batches(docs)| == 3
    ensures Survivors(Batches(docs), embedFails) == docs[..100] + docs[200..]
    ensures |Survivors(Batches(docs), embedFails)| == 150
  {
    BatchesShape(docs);
    OneFailedBatchDropsItsSlice(docs, embedFails, 2);
  }

  /**
   * Create versus add: with non-empty batches, the call for batch `j + 1` is
   * a creation exactly when every earlier batch failed. In particular a
   * failure while the store is still None leaves it None, and the next batch
   * tries to create it again.
   */
  lemma {:induction false} CreateUntilFirstSuccess(bs: seq<seq<string>>, embedFails: nat -> bool, j: nat)
    requires NoEmptyBatch(bs)
    requires j < |bs|
    ensures |Calls(bs, embedFails)| == |bs|
    ensures Calls(bs, embedFails)[j]
         == if SomeBatchSucceeds(j, embedFails) then Add(j + 1) else Create(j + 1)
    decreases |bs|
  {
    assert Last(bs) == bs[|bs| - 1];
    if j == |bs| - 1 {
      if |bs| > 1 {
        CreateUntilFirstSuccess(Init(bs), embedFails, 0);
      }
      NothingStoredIffAllFail(Init(bs), embedFails);
    } else {
      CreateUntilFirstSuccess(Init(bs), embedFails, j);
    }
  }

  /**
   * With non-empty batches there is one progress line per batch, carrying
   * the batch's ordinal: "Error processing" for a failed batch and
   * "Processed ... of total" otherwise.
   */
  lemma {:induction false} OneReportPerBatch(bs: seq<seq<string>>, embedFails: nat -> bool, total: nat, j: nat)
    requires NoEmptyBatch(bs)
    requires j < |bs|
    ensures |Reports(bs, embedFails, total)| == |bs|
    ensures Reports(bs, embedFails, total)[j]
         == if embedFails(j + 1) then Failed(j + 1) else Processed(j + 1, total)
    decreases |bs|
  {
    assert Last(bs) == bs[|bs| - 1];
    if j == |bs| - 1 {
      if |bs| > 1 {
        OneReportPerBatch(Init(bs), embedFails, total, 0);
      }
    } else {
      OneReportPerBatch(Init(bs), embedFails, total, j);
    }
  }

  /**
   * The scripts' module-level state for the batch loop: `vectorstore_db`
   * and the progress output, with ghost records of the batches taken so
   * far, the chunks stored so far and the store calls made so far.
   */
  class IndexBuilder {
    const embedFails: nat -> bool
    var db: Option<VectorIndex>
    var reports: seq<Report>
    var totalBatches: nat
    ghost var batchesSeen: seq<seq<string>>
    ghost var added: seq<string>
    ghost var calls: seq<StoreCall>

    ghost predicate Valid()
      reads this
    {
      && added == Survivors(batchesSeen, embedFails)
      && db == IndexOf(added)
      && calls == Calls(batchesSeen, embedFails)
      && reports == Reports(batchesSeen, embedFails, totalBatches)
    }

    /** `vectorstore_db = None` before the loop. */
    constructor (embedFails: nat -> bool)
      ensures Valid()
      ensures this.embedFails == embedFails
      ensures db == None && reports == [] && batchesSeen == [] && added == [] && calls == []
    {
      this.embedFails := embedFails;
      db := None;
      reports := [];
      totalBatches := 0;
      batchesSeen := [];
      added := [];
      calls := [];
    }

    /**
     * One pass of the loop body for batch number `ordinal`: try to create the
     * store from the batch if there is none yet and add the batch otherwise;
     * if that raises, report the batch and leave the store as it was.
     */
    method ProcessBatch(batch: seq<string>, ordinal: nat)
      requires Valid()
      requires ordinal == |batchesSeen| + 1
      modifies this
      ensures Valid()
      ensures totalBatches == old(totalBatches)
      ensures batchesSeen == old(batchesSeen) + [batch]
      ensures db == if batch == [] || embedFails(ordinal) then old(db)
                    else if old(db) == None then Some(FromDocuments(batch))
                    else Some(AddDocuments(old(db).value, batch))
    {
      ghost var seen := batchesSeen + [batch];
      assert Init(seen) == batchesSeen && Last(seen) == batch;
      if batch != [] {
        calls := calls + [if db.None? then Create(ordinal) else Add(ordinal)];
        if embedFails(ordinal) {
          reports := reports + [Failed(ordinal)];
        } else {
          if db.None? {
            assert added + batch == batch;
            db := Some(FromDocuments(batch));
          } else {
            db := Some(AddDocuments(db.value, batch));
          }
          added := added + batch;
          reports := reports + [Processed(ordinal, totalBatches)];
        }
      }
      batchesSeen := seen;
    }

    /**
     * The batch loop: for `i` in `range(0, len(documents), 100)` take
     * `documents[i:i + 100]` and process it as batch `i // 100 + 1`.
     */
    method Run(documents: seq<string>)
      requires Valid() && batchesSeen == []
      modifies this
      ensures Valid()
      ensures batchesSeen == Batches(documents)
      ensures totalBatches == CeilDiv(|documents|)
      ensures added == Survivors(Batches(documents), embedFails)
      ensures db == IndexOf(Survivors(Batches(documents), embedFails))
      ensures reports == Reports(Batches(documents), embedFails, CeilDiv(|documents|))
    {
      var n := |documents|;
      totalBatches := CeilDiv(n);
      ghost var bs := Batches(documents);
      BatchesShape(documents);
      var i := 0;
      ghost var k: nat := 0;
      while i < n
        invariant Valid()
        invariant totalBatches == CeilDiv(n)
        invariant k <= |bs| && i == k * BatchSize
        invariant batchesSeen == bs[..k]
        invariant k < |bs| <==> i < n
        decreases n - i
      {
        BatchAt(documents, k);
        var batch := documents[i..Min(i + BatchSize, n)];
        assert batch == bs[k];
        assert i / BatchSize + 1 == k + 1;
        ProcessBatch(batch, i / BatchSize + 1);
        TakeSnoc(bs, k);
        assert batchesSeen == bs[..k + 1];
        i := i + BatchSize;
        k := k + 1;
        BatchCountBound(n, k);
      }
      assert bs[..k] == bs;
    }
  }
}
