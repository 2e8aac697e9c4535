/**
 * `hierarchical_splitter`: every chapter goes through the text splitter on
 * its own and the chunks are collected in chapter order. The splitter
 * (`RecursiveCharacterTextSplitter.split_text` with chunk size 1000 and
 * overlap 200) is a library routine and appears here as the parameter
 * `split`; nothing is assumed about the chunks it makes.
 */
module Chunking {
  import opened Seqs

  /** The chunks of each text, text by text. */
  function ChunksPerText(split: string -> seq<string>, texts: seq<string>): (r: seq<seq<string>>)
    ensures |r| == |texts|
  {
    seq(|texts|, i requires 0 <= i < |texts| => split(texts[i]))
  }

  /** All chunks of all texts, in text order. */
  function SplitEach(split: string -> seq<string>, texts: seq<string>): seq<string>
  {
    Flatten(ChunksPerText(split, texts))
  }

  /** Splitting one more text appends exactly that text's chunks. */
  lemma SplitEachSnoc(split: string -> seq<string>, texts: seq<string>, t: string)
    ensures SplitEach(split, texts + [t]) == SplitEach(split, texts) + split(t)
  {
    assert ChunksPerText(split, texts + [t]) == ChunksPerText(split, texts) + [split(t)];
    FlattenSnoc(ChunksPerText(split, texts), split(t));
  }

  /** Splitting two runs of texts is splitting each run and concatenating. */
  lemma SplitEachAppend(split: string -> seq<string>, a: seq<string>, b: seq<string>)
    ensures SplitEach(split, a + b) == SplitEach(split, a) + SplitEach(split, b)
  {
    assert ChunksPerText(split, a + b) == ChunksPerText(split, a) + ChunksPerText(split, b);
    FlattenAppend(ChunksPerText(split, a), ChunksPerText(split, b));
  }

  /** Where the chunks of text `c` start in the output. */
  function ChunkOffset(split: string -> seq<string>, texts: seq<string>, c: nat): nat
    requires c <= |texts|
  {
    |SplitEach(split, texts[..c])|
  }

  /**
   * No chunk crosses a chapter: the output is cut at the chapter offsets
   * into pieces that are, in order, exactly each chapter's own chunks.
   */
  lemma ChunksStayInTheirChapter(split: string -> seq<string>, texts: seq<string>, c: nat)
    requires c < |texts|
    ensures ChunkOffset(split, texts, 0) == 0
    ensures ChunkOffset(split, texts, |texts|) == |SplitEach(split, texts)|
    ensures ChunkOffset(split, texts, c) + |split(texts[c])| == ChunkOffset(split, texts, c + 1)
    ensures ChunkOffset(split, texts, c + 1) <= |SplitEach(split, texts)|
    ensures SplitEach(split, texts)[ChunkOffset(split, texts, c)..ChunkOffset(split, texts, c + 1)]
         == split(texts[c])
  {
    assert texts[..0] == [];
    assert texts[..|texts|] == texts;
    assert texts[..c + 1] == texts[..c] + [texts[c]];
    SplitEachSnoc(split, texts[..c], texts[c]);
    assert texts == texts[..c + 1] + texts[c + 1..];
    SplitEachAppend(split, texts[..c + 1], texts[c + 1..]);
  }

  /**
   * `hierarchical_splitter`: `split_documents.extend(sections)` for each
   * chapter in turn.
   */
  method HierarchicalSplitter(split: string -> seq<string>, chapters: seq<string>)
    returns (splitDocuments: seq<string>)
    ensures splitDocuments == SplitEach(split, chapters)
  {
    splitDocuments := [];
    for i := 0 to |chapters|
      invariant splitDocuments == SplitEach(split, chapters[..i])
    {
      var sections := split(chapters[i]);
      assert chapters[..i + 1] == chapters[..i] + [chapters[i]];
      SplitEachSnoc(split, chapters[..i], chapters[i]);
      splitDocuments := splitDocuments + sections;
    }
    assert chapters[..|chapters|] == chapters;
  }
}
