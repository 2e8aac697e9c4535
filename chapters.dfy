/**
 * `chapter_section_splitter` of the laws index script: one pass over the page
 * texts that starts a new chapter at every page mentioning "Chapter", as long
 * as the chapter being collected already holds a page. Each chapter is its
 * pages joined with newlines.
 */
module ChapterSplitting {
  import opened Seqs

  /** Python's `sub in s` on strings: `sub` occurs contiguously in `s`. */
  predicate Contains(s: string, sub: string)
    decreases |s|
  {
    if |s| < |sub| then false
    else if s[..|sub|] == sub then true
    else Contains(s[1..], sub)
  }

  /** The case-sensitive marker the splitter looks for. */
  const ChapterMarker: string := "Chapter"

  predicate HasChapterMarker(text: string)
  {
    Contains(text, ChapterMarker)
  }

  /** `"\n".join(lines)`. */
  function JoinLines(lines: seq<string>): string
  {
    if |lines| == 0 then ""
    else if |lines| == 1 then lines[0]
    else lines[0] + "\n" + JoinLines(lines[1..])
  }

  lemma {:induction false} JoinLinesAppend(a: seq<string>, b: seq<string>)
    requires a != [] && b != []
    ensures JoinLines(a + b) == JoinLines(a) + "\n" + JoinLines(b)
  {
    if |a| == 1 {
      assert (a + b)[1..] == b;
    } else {
      assert (a + b)[1..] == a[1..] + b;
      JoinLinesAppend(a[1..], b);
    }
  }

  /**
   * The pages of each chapter, as the splitter's accumulator sees them:
   * processing the pages left to right, a page opens a new group when it has
   * the marker and a group is already open; otherwise it joins the open group
   * (or opens the first one).
   */
  function Groups(pages: seq<string>): seq<seq<string>>
    decreases |pages|
  {
    if pages == [] then []
    else
      var gs := Groups(Init(pages));
      var p := Last(pages);
      if gs == [] then [[p]]
      else if HasChapterMarker(p) then gs + [[p]]
      else Init(gs) + [Last(gs) + [p]]
  }

  /** One more page extends the grouping exactly as one loop step of the splitter does. */
  lemma GroupsSnoc(pages: seq<string>, p: string)
    ensures var gs := Groups(pages);
      Groups(pages + [p]) ==
        if gs == [] then [[p]]
        else if HasChapterMarker(p) then gs + [[p]]
        else Init(gs) + [Last(gs) + [p]]
  {
    assert Init(pages + [p]) == pages;
    assert Last(pages + [p]) == p;
  }

  /** The text of each group: its pages joined with newlines. */
  function JoinEach(gs: seq<seq<string>>): (r: seq<string>)
    ensures |r| == |gs|
  {
    seq(|gs|, k requires 0 <= k < |gs| => JoinLines(gs[k]))
  }

  /** What `chapter_section_splitter` returns for the given page texts. */
  function Chapters(pages: seq<string>): seq<string>
  {
    JoinEach(Groups(pages))
  }

  /**
   * A grouping of the pages into chapters as the splitter intends it: the
   * groups concatenate back to the pages, none is empty, every group but the
   * first opens with a marked page, and no page other than a group's first
   * has the marker.
   */
  ghost predicate IsChapterPartition(pages: seq<string>, gs: seq<seq<string>>)
  {
    && Flatten(gs) == pages
    && (forall k :: 0 <= k < |gs| ==> gs[k] != [])
    && (forall k :: 0 < k < |gs| && gs[k] != [] ==> HasChapterMarker(gs[k][0]))
    && (forall k, j :: 0 <= k < |gs| && 0 < j < |gs[k]| ==> !HasChapterMarker(gs[k][j]))
  }

  lemma FirstPagePartition(p: string)
    ensures IsChapterPartition([p], [[p]])
  {
    assert Flatten([[p]]) == [p] + Flatten([[p]][1..]);
  }

  lemma MarkedPageOpensGroup(pages: seq<string>, gs: seq<seq<string>>, p: string)
    requires IsChapterPartition(pages, gs)
    requires HasChapterMarker(p)
    ensures IsChapterPartition(pages + [p], gs + [[p]])
  {
    FlattenSnoc(gs, [p]);
    var r := gs + [[p]];
    forall k | 0 <= k < |gs| ensures r[k] == gs[k] { }
  }

  lemma UnmarkedPageJoinsGroup(pages: seq<string>, gs: seq<seq<string>>, p: string)
    requires IsChapterPartition(pages, gs)
    requires gs != [] && !HasChapterMarker(p)
    ensures IsChapterPartition(pages + [p], Init(gs) + [Last(gs) + [p]])
  {
    var g := Last(gs);
    assert gs == Init(gs) + [g];
    FlattenSnoc(Init(gs), g);
    FlattenSnoc(Init(gs), g + [p]);
    var r := Init(gs) + [g + [p]];
    forall k | 0 <= k < |r| - 1 ensures r[k] == gs[k] { }
    assert r[|r| - 1] == g + [p];
    forall k, j | 0 <= k < |r| && 0 < j < |r[k]|
      ensures !HasChapterMarker(r[k][j])
    {
      if k < |r| - 1 {
        assert r[k][j] == gs[k][j];
      } else if j < |g| {
        assert r[k][j] == gs[|gs| - 1][j];
      }
    }
    forall k | 0 < k < |r| && r[k] != []
      ensures HasChapterMarker(r[k][0])
    {
      assert r[k][0] == gs[k][0];
    }
  }

  /** The splitter's grouping has the four properties of a chapter partition. */
  lemma {:induction false} GroupsPartition(pages: seq<string>)
    ensures IsChapterPartition(pages, Groups(pages))
    decreases |pages|
  {
    if pages != [] {
      var gs := Groups(Init(pages));
      var p := Last(pages);
      GroupsPartition(Init(pages));
      assert pages == Init(pages) + [p];
      if gs == [] {
        assert Init(pages) == [];
        FirstPagePartition(p);
      } else if HasChapterMarker(p) {
        MarkedPageOpensGroup(Init(pages), gs, p);
      } else {
        UnmarkedPageJoinsGroup(Init(pages), gs, p);
      }
    }
  }

  /**
   * The partition is unique: any grouping with the four properties above is
   * the one the splitter builds.
   */
  lemma {:induction false} PartitionUnique(pages: seq<string>, gs: seq<seq<string>>)
    requires IsChapterPartition(pages, gs)
    ensures gs == Groups(pages)
    decreases |pages|
  {
    if gs == [] {
      assert pages == [];
    } else {
      var g := Last(gs);
      LastPageOfPartition(pages, gs);
      var p := Last(pages);
      InitLast(pages);
      InitLast(gs);
      if |g| == 1 {
        SingletonLastGroup(pages, gs);
        PartitionUnique(Init(pages), Init(gs));
        GroupsOpenWith(Init(pages), p);
      } else {
        var gs' := Init(gs) + [Init(g)];
        LongLastGroup(pages, gs);
        PartitionUnique(Init(pages), gs');
        InitLast(g);
        GroupsExtendWith(Init(pages), p, Init(gs), Init(g));
      }
    }
  }

  /** A page that opens a group (the first page, or one with the marker) adds a group of its own. */
  lemma GroupsOpenWith(pages: seq<string>, p: string)
    requires Groups(pages) != [] ==> HasChapterMarker(p)
    ensures Groups(pages + [p]) == Groups(pages) + [[p]]
  {
    GroupsSnoc(pages, p);
  }

  /** A page without the marker joins the last group. */
  lemma GroupsExtendWith(pages: seq<string>, p: string, init: seq<seq<string>>, g: seq<string>)
    requires Groups(pages) == init + [g] && !HasChapterMarker(p)
    ensures Groups(pages + [p]) == init + [g + [p]]
  {
    GroupsSnoc(pages, p);
    assert Init(init + [g]) == init;
  }

  /** The last page of the pages is the last page of the last group. */
  lemma LastPageOfPartition(pages: seq<string>, gs: seq<seq<string>>)
    requires IsChapterPartition(pages, gs) && gs != []
    ensures Last(gs) != [] && pages != []
    ensures Last(pages) == Last(Last(gs))
    ensures Init(pages) == Flatten(Init(gs)) + Init(Last(gs))
  {
    var g := Last(gs);
    FlattenInit(gs);
    assert g == gs[|gs| - 1];
    assert pages == Flatten(Init(gs)) + g;
  }

  /** A last group of one page: without that page, the other groups partition the rest. */
  lemma SingletonLastGroup(pages: seq<string>, gs: seq<seq<string>>)
    requires IsChapterPartition(pages, gs) && gs != [] && |Last(gs)| == 1
    ensures IsChapterPartition(Init(pages), Init(gs))
    ensures Last(gs) == [Last(pages)]
    ensures Init(gs) != [] ==> HasChapterMarker(Last(pages))
  {
    LastPageOfPartition(pages, gs);
    assert Init(Last(gs)) == [];
    assert Init(pages) == Flatten(Init(gs));
    forall k | 0 <= k < |Init(gs)| ensures Init(gs)[k] == gs[k] { }
    if Init(gs) != [] {
      assert HasChapterMarker(gs[|gs| - 1][0]);
    }
  }

  /** A last group of several pages: without its last page, it still closes a partition of the rest. */
  lemma LongLastGroup(pages: seq<string>, gs: seq<seq<string>>)
    requires IsChapterPartition(pages, gs) && gs != [] && |Last(gs)| > 1
    ensures IsChapterPartition(Init(pages), Init(gs) + [Init(Last(gs))])
    ensures !HasChapterMarker(Last(pages))
  {
    LastPageOfPartition(pages, gs);
    var g := Last(gs);
    var gs' := Init(gs) + [Init(g)];
    FlattenSnoc(Init(gs), Init(g));
    forall k | 0 <= k < |gs'| ensures gs'[k] != [] {
      if k < |gs'| - 1 { assert gs'[k] == gs[k]; }
    }
    forall k | 0 < k < |gs'| && gs'[k] != [] ensures HasChapterMarker(gs'[k][0]) {
      assert gs'[k][0] == gs[k][0];
    }
    forall k, j | 0 <= k < |gs'| && 0 < j < |gs'[k]| ensures !HasChapterMarker(gs'[k][j]) {
      assert gs'[k][j] == gs[k][j];
    }
    assert !HasChapterMarker(gs[|gs| - 1][|g| - 1]);
  }

  lemma {:induction false} JoinEachFlatten(gs: seq<seq<string>>)
    requires forall k :: 0 <= k < |gs| ==> gs[k] != []
    ensures JoinLines(JoinEach(gs)) == JoinLines(Flatten(gs))
  {
    if gs != [] {
      var rest := gs[1..];
      assert JoinEach(gs) == [JoinLines(gs[0])] + JoinEach(rest);
      if rest == [] {
        assert |gs| == 1;
        assert Flatten(gs) == gs[0] + Flatten(rest) == gs[0];
        assert JoinEach(gs) == [JoinLines(gs[0])];
        assert JoinLines(JoinEach(gs)) == JoinLines(gs[0]);
      } else {
        JoinEachFlatten(rest);
        assert Flatten(rest) == rest[0] + Flatten(rest[1..]);
        JoinLinesAppend(gs[0], Flatten(rest));
      }
    }
  }

  /**
   * Joining the chapters with newlines gives back all pages joined with
   * newlines: no page is lost, duplicated or moved.
   */
  lemma ChaptersRejoin(pages: seq<string>)
    ensures JoinLines(Chapters(pages)) == JoinLines(pages)
  {
    GroupsPartition(pages);
    JoinEachFlatten(Groups(pages));
  }

  lemma {:induction false} FlattenLengthBound(gs: seq<seq<string>>)
    requires forall k :: 0 <= k < |gs| ==> gs[k] != []
    ensures |gs| <= |Flatten(gs)|
  {
    if gs != [] {
      FlattenLengthBound(gs[1..]);
    }
  }

  /**
   * There are never more chapters than pages, there is at least one chapter
   * as soon as there is a page, and every chapter holds at least one page.
   */
  lemma ChapterCount(pages: seq<string>)
    ensures |Chapters(pages)| <= |pages|
    ensures pages != [] <==> |Chapters(pages)| >= 1
    ensures forall k :: 0 <= k < |Groups(pages)| ==> Groups(pages)[k] != []
  {
    GroupsPartition(pages);
    FlattenLengthBound(Groups(pages));
  }

  /** The number of pages after the first that carry the marker. */
  function MarkedAfterFirst(pages: seq<string>): nat
    decreases |pages|
  {
    if |pages| <= 1 then 0
    else MarkedAfterFirst(Init(pages)) + (if HasChapterMarker(Last(pages)) then 1 else 0)
  }

  /**
   * Every marked page after the first opens a chapter, and only those do:
   * a non-empty document has one chapter more than it has such pages.
   */
  lemma {:induction false} ChapterCountExact(pages: seq<string>)
    requires pages != []
    ensures |Chapters(pages)| == 1 + MarkedAfterFirst(pages)
    decreases |pages|
  {
    if |pages| > 1 {
      ChapterCountExact(Init(pages));
      ChapterCount(Init(pages));
      var gs := Groups(Init(pages));
      assert |Groups(pages)| == |gs| + (if HasChapterMarker(Last(pages)) then 1 else 0);
    } else {
      assert Init(pages) == [];
      assert Groups(pages) == [[Last(pages)]];
    }
  }

  /**
   * Without a marked page, a non-empty document is one chapter; an empty one
   * has none.
   */
  lemma NoMarkerSingleChapter(pages: seq<string>)
    requires forall i :: 0 <= i < |pages| ==> !HasChapterMarker(pages[i])
    ensures pages == [] ==> Chapters(pages) == []
    ensures pages != [] ==> Chapters(pages) == [JoinLines(pages)]
  {
    if pages != [] {
      SingleGroup(pages);
      var r := JoinEach([pages]);
      assert r[0] == JoinLines(pages);
    }
  }

  /** Pages without a marked page after the first form one group. */
  lemma SingleGroup(pages: seq<string>)
    requires pages != []
    requires forall i :: 0 < i < |pages| ==> !HasChapterMarker(pages[i])
    ensures Groups(pages) == [pages]
  {
    var gs := [pages];
    assert Flatten(gs) == pages + Flatten(gs[1..]);
    assert forall k, j :: 0 <= k < |gs| && 0 < j < |gs[k]| ==> gs[k][j] == pages[j];
    PartitionUnique(pages, gs);
  }

  /**
   * `chapter_section_splitter`: the accumulator `current` collects the pages
   * of the chapter being read and is flushed into `chapters` when a marked
   * page arrives while it is non-empty, and once more at the end.
   */
  method ChapterSectionSplitter(pages: seq<string>) returns (chapters: seq<string>)
    ensures chapters == Chapters(pages)
  {
    chapters := [];
    var current: seq<string> := [];
    ghost var done: seq<seq<string>> := [];
    for i := 0 to |pages|
      invariant chapters == JoinEach(done)
      invariant current == [] <==> i == 0
      invariant i == 0 ==> done == []
      invariant current != [] ==> done + [current] == Groups(pages[..i])
    {
      var text := pages[i];
      assert pages[..i + 1] == pages[..i] + [text];
      GroupsSnoc(pages[..i], text);
      ghost var open := done + [current];
      assert Init(open) == done && Last(open) == current;
      assert current == [] ==> pages[..i] == [] && Groups(pages[..i]) == [];
      if HasChapterMarker(text) && current != [] {
        chapters := chapters + [JoinLines(current)];
        done := done + [current];
        current := [];
        assert done == open;
      }
      current := current + [text];
      if i == 0 {
        assert done + [current] == [[text]];
      } else if HasChapterMarker(text) {
        assert current == [text];
      } else {
        assert done + [current] == Init(open) + [Last(open) + [text]];
      }
    }
    if current != [] {
      chapters := chapters + [JoinLines(current)];
      done := done + [current];
    }
    assert pages[..|pages|] == pages;
  }
}
