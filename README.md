# Vidhijna: index building, agent configuration and PDF merging

A Dafny model of the data-preparation core of Vidhijna, a legal research
assistant. The model covers four parts.

- **Index building.** There are two scripts, one for statutes and one for
  cases. Each turns the pages of a merged PDF into text chunks and embeds the
  chunks in batches of 100 into a FAISS vector index. A batch whose embedding
  raises is skipped and the loop goes on. The index is saved only if at least
  one batch went in. The statutes script first groups its pages into chapters
  at pages whose text contains the case-sensitive substring `Chapter` (so
  `Chapters` and `SubChapter` match too), then splits each chapter into
  chunks. The cases script splits each page into chunks directly.
- **Agent configuration.** The `Configuration` dataclass: its thirteen fields
  and their defaults, `from_runnable_config` and `to_dict`.
  `from_runnable_config` takes each override or else the default, and makes
  the four path fields absolute against the project root.
- **PDF merging.** `merge_pdfs_in_directory` keeps the names that end in
  `.pdf` in any letter case. It sorts them by a numeric key made from all
  the digits in the name, and appends them one by one, skipping files that
  raise. It then writes the merged file.
- **Paths.** `normalize_path` over POSIX `os.path.isabs` and `os.path.join`.

Things outside the program are parameters of the model:

- the pages the PDF loader returns;
- the text splitter, as `split: string -> seq<string>`;
- which batch ordinals fail to embed, as `embedFails`;
- the directory listing and whether the directory exists;
- which appends raise, as `appendFails`, and whether the write raises.

Files:

- `wrappers.dfy`, `seqs.dfy`: `Option`/`Result` and sequence helpers.
- `paths.dfy`: module `Paths`.
- `chapters.dfy`: module `ChapterSplitting`.
- `chunking.dfy`: module `Chunking`.
- `batching.dfy`: module `Batching`.
- `index_builder.dfy`: module `IndexBuilding`. It holds the class
  `IndexBuilder`, which is the scripts' `vectorstore_db` state and the batch
  loop.
- `vector_store_scripts.dfy`: module `VectorStoreScripts`.
- `configuration.dfy`: module `AgentConfiguration`.
- `sort_keys.dfy`: module `PdfOrdering`.
- `pdf_merging.dfy`: module `PdfMerging`.

## Model

| member | source | states |
|---|---|---|
| Paths.Join | agents/configuration.py:19 | `os.path.join`: an absolute second part replaces the first. Otherwise the result starts with the first part and ends with the second. Nothing is added exactly when the first part is empty or ends in `/`; otherwise exactly one `/` is added between them. An absolute first part gives an absolute result. |
| Paths.NormalizePath | agents/configuration.py:17-20 | The result is always absolute. An absolute path is returned unchanged. A relative path is joined onto the project root. |
| Paths.NormalizeIdempotent | agents/configuration.py:17-20 | Normalising twice gives the same path as normalising once. |
| Paths.NormalizeRelative | vector_store_creation/pdf_merging.py:11-15 | A relative path's normal form is the root, then at most one slash, then the path unchanged. |
| ChapterSplitting.JoinLinesAppend | vector_store_creation/commercialLaws_vectorstore.py:59 | `"\n".join` of two non-empty runs is the two joins with one newline between them. |
| ChapterSplitting.GroupsSnoc | vector_store_creation/commercialLaws_vectorstore.py:56-61 | One more page behaves like one loop step. A page with the marker opens a new group unless it is the first page. Any other page joins the last group. |
| ChapterSplitting.FirstPagePartition | vector_store_creation/commercialLaws_vectorstore.py:58-61 | A single page forms a single chapter partition. |
| ChapterSplitting.MarkedPageOpensGroup | vector_store_creation/commercialLaws_vectorstore.py:58-61 | Adding a page that contains `Chapter` as a new group keeps the result a chapter partition. |
| ChapterSplitting.UnmarkedPageJoinsGroup | vector_store_creation/commercialLaws_vectorstore.py:58-61 | Adding a page without the marker to the last group keeps the result a chapter partition. |
| ChapterSplitting.GroupsOpenWith | vector_store_creation/commercialLaws_vectorstore.py:58-61 | The first page, or a page with the marker, adds a group of its own. |
| ChapterSplitting.GroupsExtendWith | vector_store_creation/commercialLaws_vectorstore.py:58-61 | A page without the marker is appended to the last group. |
| ChapterSplitting.GroupsPartition | vector_store_creation/commercialLaws_vectorstore.py:54-64 | The pages, regrouped, are all the pages in order. No group is empty. Every group after the first starts with a marked page. No other page of a group is marked. |
| ChapterSplitting.PartitionUnique | vector_store_creation/commercialLaws_vectorstore.py:54-64 | Any grouping with those four properties is the splitter's grouping, so the properties define the splitter. |
| ChapterSplitting.LastPageOfPartition | vector_store_creation/commercialLaws_vectorstore.py:54-64 | In a chapter partition the last page closes the last group, and the other pages are the other groups followed by the rest of the last group. |
| ChapterSplitting.SingletonLastGroup | vector_store_creation/commercialLaws_vectorstore.py:58-61 | If the last group holds one page, the other groups partition the other pages, and that page is marked unless it is alone. |
| ChapterSplitting.LongLastGroup | vector_store_creation/commercialLaws_vectorstore.py:58-61 | If the last group holds several pages, its last page is unmarked, and dropping it leaves a partition. |
| ChapterSplitting.JoinEachFlatten | vector_store_creation/commercialLaws_vectorstore.py:59-63 | Joining each non-empty group and then joining the results equals joining all the pages. |
| ChapterSplitting.ChaptersRejoin | vector_store_creation/commercialLaws_vectorstore.py:54-64 | The chapters joined with newlines equal the pages joined with newlines. No page is lost, duplicated or reordered. |
| ChapterSplitting.FlattenLengthBound | vector_store_creation/commercialLaws_vectorstore.py:62-63 | Non-empty groups are never more numerous than their pages. |
| ChapterSplitting.ChapterCount | vector_store_creation/commercialLaws_vectorstore.py:54-64 | There are no more chapters than pages. There is at least one chapter exactly when there is a page. No group is empty. |
| ChapterSplitting.ChapterCountExact | vector_store_creation/commercialLaws_vectorstore.py:58-63 | For non-empty pages, the chapter count is one plus the number of marked pages after the first page. |
| ChapterSplitting.NoMarkerSingleChapter | vector_store_creation/commercialLaws_vectorstore.py:62-63 | Without any marker, all pages form one chapter. With no pages there are no chapters. |
| ChapterSplitting.SingleGroup | vector_store_creation/commercialLaws_vectorstore.py:58-63 | Pages with no marked page after the first form one group. |
| ChapterSplitting.ChapterSectionSplitter | vector_store_creation/commercialLaws_vectorstore.py:49-64 | The loop over pages, with its current-chapter buffer and flushes, returns exactly `Chapters(pages)`. |
| Chunking.SplitEachSnoc | vector_store_creation/commercialLaws_vectorstore.py:76-78 | Splitting one more chapter appends exactly that chapter's chunks. |
| Chunking.SplitEachAppend | vector_store_creation/commercialLaws_vectorstore.py:76-78 | Splitting two runs of chapters gives the two results concatenated. |
| Chunking.ChunksStayInTheirChapter | vector_store_creation/commercialLaws_vectorstore.py:73-79 | The output is the chapters' chunk lists laid end to end. Chapter `c`'s chunks sit in one contiguous slice, in chapter order, and the slices cover the whole output. |
| Chunking.HierarchicalSplitter | vector_store_creation/commercialLaws_vectorstore.py:73-79 | The extend loop returns every chapter's chunks, chapter by chapter. |
| Batching.BatchCountBound | vector_store_creation/commercialLaws_vectorstore.py:98-101 | The `math.ceil(n / 100)` total counts exactly the start offsets `range(0, n, 100)` produces. |
| Batching.BatchesCover | vector_store_creation/commercialLaws_vectorstore.py:101-102 | The batches concatenate back to the chunk list, so every chunk is in exactly one batch, in order. |
| Batching.BatchesShape | vector_store_creation/commercialLaws_vectorstore.py:96-102 | There are `ceil(n / 100)` batches. All are non-empty and hold at most 100 chunks. All but the last hold exactly 100. |
| Batching.BatchAt | vector_store_creation/commercialLaws_vectorstore.py:101-102 | Batch `k` starts at chunk `100 * k` and is the slice `documents[100k : 100k + 100]`. |
| Batching.BatchesPrefix | vector_store_creation/commercialLaws_vectorstore.py:101-102 | The first `j` batches hold exactly the first `min(100 * j, n)` chunks. |
| IndexBuilding.BatchesAreNonEmpty | vector_store_creation/commercialLaws_vectorstore.py:102-104 | The `if not batch: continue` guard never fires for these batches. |
| IndexBuilding.SurvivorsAllSucceed | vector_store_creation/commercialLaws_vectorstore.py:105-109 | When no batch fails, the store gets all batches' chunks, in order. |
| IndexBuilding.AllBatchesStored | vector_store_creation/commercialLaws_vectorstore.py:101-113 | When no batch fails, the store holds the whole chunk list, in order. |
| IndexBuilding.NothingStoredIffAllFail | vector_store_creation/commercialLaws_vectorstore.py:105-122 | Nothing is stored exactly when every batch fails. |
| IndexBuilding.SurvivorsWithOneFailure | vector_store_creation/commercialLaws_vectorstore.py:110-112 | If only batch `f` fails, the store holds the batches before `f`, then the batches after it. |
| IndexBuilding.OneFailedBatchDropsItsSlice | vector_store_creation/commercialLaws_vectorstore.py:101-112 | If only batch `f` fails, the store holds the chunks outside `[100(f-1), min(100f, n))`, in order. |
| IndexBuilding.SecondOfThreeBatchesFails | vector_store_creation/commercialcases_vectorestore.py:71-82 | 250 chunks make three batches. If only the second fails, 150 chunks are stored: 0-99, then 200-249. |
| IndexBuilding.CreateUntilFirstSuccess | vector_store_creation/commercialLaws_vectorstore.py:106-109 | Batch `j+1` calls `from_documents` exactly when every earlier batch failed, and `add_documents` otherwise. |
| IndexBuilding.OneReportPerBatch | vector_store_creation/commercialLaws_vectorstore.py:110-113 | There is one progress line per batch, carrying ordinal `i // 100 + 1`. A failed batch gets "Error processing". Any other batch gets "Processed k of total". |
| IndexBuilding.IndexBuilder.constructor | vector_store_creation/commercialLaws_vectorstore.py:97 | The store starts as None, with no reports and no batches seen. |
| IndexBuilding.IndexBuilder.ProcessBatch | vector_store_creation/commercialLaws_vectorstore.py:102-113 | One loop step. An empty or failing batch leaves the store unchanged. Otherwise the batch creates the store if there is none and is added to it if there is one. The builder's invariant is kept. |
| IndexBuilding.IndexBuilder.Run | vector_store_creation/commercialLaws_vectorstore.py:96-113 | After the loop, the builder has seen exactly the batches of 100. The store holds the chunks of the batches that did not fail, and is None if none went in. The reports are as stated above. |
| VectorStoreScripts.SaveIfBuilt | vector_store_creation/commercialLaws_vectorstore.py:118-122 | The index is saved to the output path exactly when the store is not None. |
| VectorStoreScripts.CreateLawsVectorStore | vector_store_creation/commercialLaws_vectorstore.py:40-122 | With zero pages the run aborts. Otherwise it saves exactly when some batch succeeds, and the saved index holds the surviving chunks of the chaptered, split pages. |
| VectorStoreScripts.CreateCasesVectorStore | vector_store_creation/commercialcases_vectorestore.py:40-92 | The run aborts on zero pages and on zero chunks. Otherwise it saves exactly when some batch succeeds, and the index holds the surviving chunks of the split pages. |
| AgentConfiguration.FieldsListedOnce | agents/configuration.py:40-68 | `fields(cls)` lists each of the thirteen dataclass fields exactly once. |
| AgentConfiguration.NamesDistinct | agents/configuration.py:40-68 | No two fields share a name, so each dictionary key belongs to one field. |
| AgentConfiguration.DefaultValues | agents/configuration.py:40-68 | The class defaults have an entry for every field. |
| AgentConfiguration.ResolvedValues | agents/configuration.py:88-95 | The dictionary the loop fills has an entry for every field. |
| AgentConfiguration.FieldOfFromValues | agents/configuration.py:97 | `cls(**values)` puts each field's dictionary entry into that field. |
| AgentConfiguration.FromFieldEntries | agents/configuration.py:97 | A dictionary holding each field of a configuration under that field's name builds that configuration again. |
| AgentConfiguration.FirstUnnormalizableSpec | agents/configuration.py:90-94 | The scan finds nothing exactly when every listed field normalises. What it finds is a listed field that cannot be normalised, that is, a path field whose value is not a `str`. |
| AgentConfiguration.FailsOnlyOnNonStringPath | agents/configuration.py:90-95 | `from_runnable_config` raises exactly when some path field's value is not a `str`, and it names such a field. A `SearchAPI` member is a `str`. |
| AgentConfiguration.OverrideElseDefault | agents/configuration.py:87-95 | Each field gets the override if the key is present and the class default if not. A path field then holds a `str` (a string or a `SearchAPI` member), which is normalised, so it is absolute. Every other field is copied unchanged. |
| AgentConfiguration.DefaultsResolveToThemselves | agents/configuration.py:59-68 | The defaults are already normalised, so resolving them without overrides gives them back. |
| AgentConfiguration.NoOverridesGiveDefaults | agents/configuration.py:87-97 | No config, or one without "configurable", gives exactly the class defaults. |
| AgentConfiguration.FromRunnableConfig | agents/configuration.py:83-97 | The field loop returns `ConfigFrom`. It stops at the first path field it cannot normalise. |
| AgentConfiguration.ResolveField | agents/configuration.py:91-95 | One loop step gives nothing exactly when the field is a path field whose value is not a `str`. Otherwise it gives the override or default, normalised for a path field; a `SearchAPI` member is normalised as its string value. |
| AgentConfiguration.ApiName | agents/configuration.py:25-28 | A `SearchAPI` member's string value is non-empty and relative. |
| AgentConfiguration.ApiValueInPathField | agents/configuration.py:17-20 | A `SearchAPI` member given for a path field does not raise. It becomes its string value joined onto the root. |
| AgentConfiguration.ApiLogDirExample | agents/configuration.py:87-97 | `{"configurable": {"log_dir": SearchAPI.TAVILY}}` succeeds, and `log_dir` is `tavily` under the root. |
| AgentConfiguration.AllResolved | agents/configuration.py:90-97 | A dictionary holding the resolved value of every field is the dictionary of resolved values. |
| AgentConfiguration.ToDict | agents/configuration.py:102-104 | `to_dict` has one key per dataclass field. |
| AgentConfiguration.ToDictEntries | agents/configuration.py:102-104 | Each `to_dict` entry is the value of the field of that name. |
| AgentConfiguration.ToDictRoundTrip | agents/configuration.py:102-104 | Each `to_dict` entry is the field of that name, and `Configuration(**to_dict())` gives back the configuration. |
| AgentConfiguration.FromValuesRoundTrip | agents/configuration.py:97-104 | A dictionary with an entry for every field comes back unchanged from `to_dict(cls(**values))`. |
| PdfOrdering.Digits | vector_store_creation/pdf_merging.py:55 | The filter keeps only digits and is no longer than the name. It is empty exactly when the name has no digit. |
| PdfOrdering.DigitsAppend | vector_store_creation/pdf_merging.py:55 | The digits of a concatenation are the digits of each part, left to right. |
| PdfOrdering.DecimalValue | vector_store_creation/pdf_merging.py:55 | `int()` of `d` digits is below `10^d`. |
| PdfOrdering.DecimalValueAppend | vector_store_creation/pdf_merging.py:55 | Digits are read left to right: `int(a + b) == int(a) * 10^len(b) + int(b)`. |
| PdfOrdering.Key | vector_store_creation/pdf_merging.py:54-56 | The key is an int exactly when the name has a digit. Otherwise it is the name itself. |
| PdfOrdering.DigitsOfDigitRun | vector_store_creation/pdf_merging.py:55 | A run of digits is kept whole. |
| PdfOrdering.NoDigits | vector_store_creation/pdf_merging.py:55 | A name without digits keeps no digits. |
| PdfOrdering.NoDigitsAppend | vector_store_creation/pdf_merging.py:55 | Two digit-free parts make a name without digits. |
| PdfOrdering.DigitsBetweenLetters | vector_store_creation/pdf_merging.py:55 | Two digit runs between non-digits are collected in order. |
| PdfOrdering.DigitsExample | vector_store_creation/pdf_merging.py:55 | The digits of `case12_v3.pdf` are `123`. |
| PdfOrdering.DecimalExample | vector_store_creation/pdf_merging.py:55 | `int("123")` is 123. |
| PdfOrdering.KeyOfNoDigitExample | vector_store_creation/pdf_merging.py:55 | `intro.pdf` is its own key. |
| PdfOrdering.KeyExample | vector_store_creation/pdf_merging.py:54-56 | `case12_v3.pdf` has key 123. `intro.pdf` has itself as key. |
| PdfOrdering.StrLessTrichotomy | vector_store_creation/pdf_merging.py:53-57 | Python's string `<` is irreflexive and asymmetric. Any two strings are equal or ordered one way. |
| PdfOrdering.StrLessTransitive | vector_store_creation/pdf_merging.py:53-57 | Python's string `<` is transitive. |
| PdfOrdering.KeyOrder | vector_store_creation/pdf_merging.py:53-57 | On keys of one kind, `<` is a strict total order. |
| PdfOrdering.NotLessTransitive | vector_store_creation/pdf_merging.py:53-57 | On keys of one kind, "not less than" is transitive. |
| PdfOrdering.WithKey | vector_store_creation/pdf_merging.py:53-57 | The names with a given key all have that key. |
| PdfOrdering.InsertBack | vector_store_creation/pdf_merging.py:53-57 | One insertion adds exactly one name. |
| PdfOrdering.SortByKey | vector_store_creation/pdf_merging.py:53-57 | The reference sort keeps the length. Its order, permutation and stability are stated by `SortByKeySorted` and `SortByKeyStable`. |
| PdfOrdering.InsertBackPermutes | vector_store_creation/pdf_merging.py:53-57 | Insertion adds exactly the inserted name to the multiset. |
| PdfOrdering.InsertBackStable | vector_store_creation/pdf_merging.py:53-57 | Insertion keeps the order of each key's names and puts the new name last among its key. |
| PdfOrdering.UniformKind | vector_store_creation/pdf_merging.py:53-57 | The keys are uniform exactly when all names have a digit or none has. |
| PdfOrdering.InsertBackKind | vector_store_creation/pdf_merging.py:53-57 | Inserting a name of the same kind keeps all keys of one kind. |
| PdfOrdering.SortedSnoc | vector_store_creation/pdf_merging.py:53-57 | A name whose key is no smaller than every key of a sorted list can follow it. |
| PdfOrdering.InsertBackBounded | vector_store_creation/pdf_merging.py:53-57 | Inserting a name not above an upper bound keeps the bound. |
| PdfOrdering.AboveLast | vector_store_creation/pdf_merging.py:53-57 | In a sorted list of one kind, a name of that kind not below the last name is not below any name. |
| PdfOrdering.InsertBackSorted | vector_store_creation/pdf_merging.py:53-57 | Inserting a name into a sorted list of its own kind keeps the list sorted. |
| PdfOrdering.SortByKeyKind | vector_store_creation/pdf_merging.py:53-57 | Sorting names of one kind gives names of that kind. |
| PdfOrdering.SortByKeyPermutes | vector_store_creation/pdf_merging.py:53-57 | The sort is a permutation of its input. |
| PdfOrdering.SortByKeySortedOfKind | vector_store_creation/pdf_merging.py:53-57 | Sorting names of one kind orders them by key. |
| PdfOrdering.SortByKeySorted | vector_store_creation/pdf_merging.py:53-57 | With uniform keys, the sort orders by key and is a permutation of its input. |
| PdfOrdering.SortByKeyStable | vector_store_creation/pdf_merging.py:53-57 | The sort is stable: for each key, the names with that key keep their listing order. |
| PdfOrdering.WithKeyMembers | vector_store_creation/pdf_merging.py:53-57 | A name is among the names of key `k` exactly when it is in the list and has key `k`. |
| PdfOrdering.SortedLastIsLargest | vector_store_creation/pdf_merging.py:53-57 | No name of a sorted list has a larger key than its last name. |
| PdfOrdering.SameLastKey | vector_store_creation/pdf_merging.py:53-57 | Two sorted lists that contain each other's last names end on equal keys. |
| PdfOrdering.SameLast | vector_store_creation/pdf_merging.py:53-57 | Two sorted lists with the same names per key end with the same name. |
| PdfOrdering.SameGroupsOfInit | vector_store_creation/pdf_merging.py:53-57 | Dropping a common last name keeps the per-key name lists equal. |
| PdfOrdering.SortedGroupsDetermine | vector_store_creation/pdf_merging.py:53-57 | A sorted list is determined by its per-key name lists. |
| PdfOrdering.StableSortUnique | vector_store_creation/pdf_merging.py:53-57 | Any stable sort by key has the same result as the reference sort. So `list.sort` (Timsort) gives `SortByKey`. |
| PdfOrdering.SortPdfFiles | vector_store_creation/pdf_merging.py:53-57 | The in-place sort of the array leaves `SortByKey` of its old contents. |
| PdfOrdering.InsertIntoSortedPrefix | vector_store_creation/pdf_merging.py:53-57 | One pass moves `a[i]` into the prefix as `InsertBack` does and leaves the rest of the array unchanged. |
| PdfOrdering.ShiftLarger | vector_store_creation/pdf_merging.py:53-57 | The inner loop moves every name of the prefix whose key is above the new name's one place right, in order. It stops at a free slot whose left neighbour, if any, is not above the new name, and leaves the rest of the array as it was. |
| PdfOrdering.InsertBackPastAll | vector_store_creation/pdf_merging.py:53-57 | Names at the back that are all above the new name are passed over, and they stay after it in their order. |
| PdfOrdering.InsertBackAfterLarger | vector_store_creation/pdf_merging.py:53-57 | The new name lands right after the last name not above it, with every larger name behind it. This is where the inner loop leaves it. |
| PdfOrdering.InsertBackPastLarger | vector_store_creation/pdf_merging.py:53-57 | While the new name's key is below the key before it, the name moves one place left and the result is the same. |
| PdfOrdering.InsertBackStops | vector_store_creation/pdf_merging.py:53-57 | The new name stops, and is placed, after the first name from the right whose key is not above its own. |
| PdfMerging.Lower | vector_store_creation/pdf_merging.py:47 | ASCII lower-casing keeps the length. The extension test built on it is characterised by `PdfNameAnyCase`. |
| PdfMerging.PdfNameAnyCase | vector_store_creation/pdf_merging.py:47 | A name is selected exactly when it ends in `.`, then `p`/`P`, `d`/`D`, `f`/`F`. |
| PdfMerging.SelectPdfs | vector_store_creation/pdf_merging.py:47 | The selection is no longer than the listing. Which names are selected, and in what order, is stated by `SelectPdfsMembers` and `SelectPdfsAppend`. |
| PdfMerging.SelectPdfsMembers | vector_store_creation/pdf_merging.py:47 | Exactly the listed names that end in `.pdf` in any case are selected. |
| PdfMerging.SelectPdfsAppend | vector_store_creation/pdf_merging.py:47 | Selection goes name by name and keeps the listing order. |
| PdfMerging.SelectOne | vector_store_creation/pdf_merging.py:47 | A single name is kept exactly when it is a PDF name. |
| PdfMerging.SelectAllPdfs | vector_store_creation/pdf_merging.py:47 | A listing of PDF names only is selected whole, in order. |
| PdfMerging.SelectExample | vector_store_creation/pdf_merging.py:47 | `["b.PDF", "notes.txt", "a.pdf"]` selects `["b.PDF", "a.pdf"]`. |
| PdfMerging.UpperCaseExtensionExample | vector_store_creation/pdf_merging.py:47 | `b.PDF` is a PDF name. |
| PdfMerging.LowerCaseExtensionExample | vector_store_creation/pdf_merging.py:47 | `a.pdf` is a PDF name. |
| PdfMerging.OtherExtensionExample | vector_store_creation/pdf_merging.py:47 | `notes.txt` is not a PDF name. |
| PdfMerging.Appended | vector_store_creation/pdf_merging.py:60-66 | The merger accepts at most one path per file. Which paths, and in what order, is stated by `AppendedMembers`, `AppendedConcat` and `SkipFailedFile`. |
| PdfMerging.AppendedConcat | vector_store_creation/pdf_merging.py:60-66 | Each file is appended on its own: the loop over two runs is the two loops concatenated. |
| PdfMerging.SkipFailedFile | vector_store_creation/pdf_merging.py:62-66 | A file whose append raises is skipped, and the files after it are still appended. |
| PdfMerging.AppendedAll | vector_store_creation/pdf_merging.py:60-64 | With no failures, every file is appended in sorted order under `os.path.join(directory, name)`. |
| PdfMerging.AppendedMembers | vector_store_creation/pdf_merging.py:60-66 | A path is merged exactly when it is some file's joined path and its append did not raise. |
| PdfMerging.AppendedOnlyFiles | vector_store_creation/pdf_merging.py:60-66 | Every merged path is the joined path of a file whose append did not raise. |
| PdfMerging.AppendedHasFile | vector_store_creation/pdf_merging.py:60-66 | The joined path of every file whose append does not raise is merged. |
| PdfMerging.MergePdfsInDirectory | vector_store_creation/pdf_merging.py:29-77 | A missing directory returns None before anything is listed. No PDF names returns None with nothing appended. Mixed int and str keys raise in the sort, before anything is appended. Otherwise the sorted files are appended, skipping failures, and the output path is returned unless the write raises. |
| PdfMerging.CasesDirectory | vector_store_creation/pdf_merging.py:20-22 | The cases directory is absolute. It is the environment's value, normalised, or `commercial_cases` under the root. |
| PdfMerging.OutputPath | vector_store_creation/pdf_merging.py:23-24 | The output path is absolute. An absolute file name from the environment is used as it is. A relative name from the environment, or the default `merged_output_cases.pdf`, is joined onto the cases directory. |

## Left out

- Loading the PDF is not modelled: `PDFPlumberLoader.load` becomes the `pages` parameter, page texts only, without metadata.
- The embedding model and FAISS are not modelled. `OllamaEmbeddings`, `FAISS.from_documents`, `add_documents` and `save_local` are foreign code; the model represents the index by the chunks it holds, in order, and a batch is either stored whole or not at all.
- `RecursiveCharacterTextSplitter` (chunk size 1000, overlap 200) is a library routine and appears only as the `split` parameter. No chunk-size or overlap property is claimed. The cases script's `split_documents` is modelled as splitting each page's text in turn.
- `PdfMerger` is not modelled: the merged PDF is represented by the list of paths appended to it, and `merger.write`/`close` by the `writeFails` flag.
- I/O and process control are left out: `os.makedirs`, `os.path.exists`, `os.listdir`, environment variables, `exit()` and all `print` text. Only the batch ordinals and totals of the progress lines are kept, as `Report` values. `Configuration.__post_init__` only creates directories and is left out with them.
- The two index scripts read their input and output paths from environment variables (commercialLaws_vectorstore.py:24-29, commercialcases_vectorestore.py:23-28). The model takes the output path as a parameter instead of computing it.
- `math.ceil(len(documents) / batch_size)` divides in floating point; the model uses the exact integer ceiling, which agrees for every realistic chunk count.
- `if vectorstore_db:` is taken as "is not None"; a FAISS store is assumed to be truthy.
- PdfMerging.IsPdfName: lower-cases ASCII letters only. Python's `str.lower` is full Unicode, but no other character lowers to `.`, `p`, `d` or `f`, so the test agrees for single-character lowerings.
- PdfOrdering.IsDigit: accepts the ASCII digits only. Python's `str.isdigit` also accepts other Unicode digits, some of which `int()` rejects.
- PdfOrdering.SortPdfFiles: requires uniform keys (all names with digits, or all without). With two or more names of both kinds, `list.sort` must compare an int key with a str key and raises TypeError; `MergePdfsInDirectory` returns `SortKeyTypeError` for that case instead of sorting.
- Dictionaries are keyed by a `FieldName` value per field, not by the name strings; `NamesDistinct` proves the names are distinct, so the two agree.
- PdfOrdering.DecimalValue: is total; it returns 0 for a non-digit character, which never happens because it is applied only to the digits of a name.
- `RunnableConfig` is modelled only through its optional "configurable" dictionary. Values are a small dynamic `Value` type (none, int, str, bool, search API), because the dataclass does not check its annotations. A `SearchAPI` member counts as a `str`, as `SearchAPI(str, Enum)` makes it; other `str` subclasses and path-like objects are not represented.
- The two scripts' module-level `normalize_path` helpers are the same function as the configuration's, against different project roots; all are modelled by `Paths.NormalizePath` with the root as a parameter.
