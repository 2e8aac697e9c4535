/**
 * The two index-building scripts from the loaded pages on. Loading the PDF,
 * the embedding service and FAISS's own storage format are outside the
 * model: the pages, the text splitter, the batches that fail and the output
 * directory are parameters.
 */
module VectorStoreScripts {
  import opened Wrappers
  import opened Batching
  import opened ChapterSplitting
  import opened Chunking
  import opened IndexBuilding

  /** How a run ends. */
  datatype RunOutcome =
    | NoPagesLoaded                    // "No pages loaded from the PDF", then exit()
    | NoChunksGenerated                // "Document splitting failed", then exit()
    | NotCreated(reports: seq<Report>) // every batch failed: nothing is saved
    | Saved(path: string, index: VectorIndex, reports: seq<Report>) // save_local(path)

  /**
   * The save step after the loop: `if vectorstore_db:` save it to the
   * output directory, otherwise print the failure message.
   */
  method SaveIfBuilt(builder: IndexBuilder, indexPath: string) returns (outcome: RunOutcome)
    ensures outcome.NotCreated? || outcome.Saved?
    ensures outcome.Saved? <==> builder.db.Some?
    ensures outcome.Saved? ==> outcome.path == indexPath && outcome.index == builder.db.value
    ensures outcome.reports == builder.reports
  {
    if builder.db.Some? {
      outcome := Saved(indexPath, builder.db.value, builder.reports);
    } else {
      outcome := NotCreated(builder.reports);
    }
  }

  /**
   * The laws script: abort on zero pages, split into chapters, split each
   * chapter into chunks, build the index batch by batch and save it if some
   * batch went in.
   */
  method CreateLawsVectorStore(
    pages: seq<string>, split: string -> seq<string>, embedFails: nat -> bool, indexPath: string)
    returns (outcome: RunOutcome)
    ensures outcome == NoPagesLoaded <==> pages == []
    ensures !outcome.NoChunksGenerated?
    ensures pages != [] ==>
      var documents := SplitEach(split, Chapters(pages));
      var bs := Batches(documents);
      && (outcome.NotCreated? || outcome.Saved?)
      && (outcome.Saved? <==> SomeBatchSucceeds(|bs|, embedFails))
      && (outcome.Saved? ==> outcome.path == indexPath && outcome.index.entries == Survivors(bs, embedFails))
      && outcome.reports == Reports(bs, embedFails, CeilDiv(|documents|))
  {
    if pages == [] {
      return NoPagesLoaded;
    }
    var chapters := ChapterSectionSplitter(pages);
    var documents := HierarchicalSplitter(split, chapters);
    var builder := new IndexBuilder(embedFails);
    builder.Run(documents);
    BatchesAreNonEmpty(documents);
    NothingStoredIffAllFail(Batches(documents), embedFails);
    outcome := SaveIfBuilt(builder, indexPath);
  }

  /**
   * The cases script: abort on zero pages, split every page into chunks
   * (`split_documents`), abort on zero chunks, then build and save as the
   * laws script does.
   */
  method CreateCasesVectorStore(
    pages: seq<string>, split: string -> seq<string>, embedFails: nat -> bool, indexPath: string)
    returns (outcome: RunOutcome)
    ensures outcome == NoPagesLoaded <==> pages == []
    ensures outcome == NoChunksGenerated <==> pages != [] && SplitEach(split, pages) == []
    ensures pages != [] && SplitEach(split, pages) != [] ==>
      var documents := SplitEach(split, pages);
      var bs := Batches(documents);
      && (outcome.NotCreated? || outcome.Saved?)
      && (outcome.Saved? <==> SomeBatchSucceeds(|bs|, embedFails))
      && (outcome.Saved? ==> outcome.path == indexPath && outcome.index.entries == Survivors(bs, embedFails))
      && outcome.reports == Reports(bs, embedFails, CeilDiv(|documents|))
  {
    if pages == [] {
      return NoPagesLoaded;
    }
    var documents := SplitEach(split, pages);
    if documents == [] {
      return NoChunksGenerated;
    }
    var builder := new IndexBuilder(embedFails);
    builder.Run(documents);
    BatchesAreNonEmpty(documents);
    NothingStoredIffAllFail(Batches(documents), embedFails);
    outcome := SaveIfBuilt(builder, indexPath);
  }
}
