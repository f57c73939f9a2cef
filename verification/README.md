# ScienceSync: reference clustering, alert records and result paging

ScienceSync reads Google Scholar citation-alert e-mails and turns each alert into
article records. It stores the records in a sqlite table along with each
article's reference list. It then clusters the articles by the references they
share and shows the resulting groups page by page. This project models the
sequential logic around those steps as pure Dafny functions and proves what
that logic guarantees. The clustering and scoring libraries are not modelled.
They enter as uninterpreted function parameters.

Modules, one per source file:

- `Wrappers`: `Option` and `Result`.
- `Text`: the Python string operations the code relies on. These are
  `split`, `join`, `strip`/`rstrip`, `in`, `replace`, `int()` and `str()`.
  It also holds the split/join round trip.
- `Seqs`: filtering, flattening and ceiling division.
- `Clustering` (`modules/clustering.py`): the Jaccard similarity table on
  reference sets, the binary feature matrix, the method/metric dispatch table,
  grouping titles by label, and the guard in front of the quality scores.
- `ArticleStore` (`modules/database_services.py`): how reference lists are
  serialised, the `?` placeholder list, and the missing-title filter.
- `ScholarMessages` (`modules/data_extractor_for_scholar_messages.py`). Its
  byte-identical copy, `modules/data_preprocessor_for_scholar_messages.py`, is
  served by the same module. It covers:
  - alert filtering and cited-author extraction;
  - record building;
  - duplicate removal and first-value propagation;
  - splitting a frame into parts of at most ten rows.
- `Workflow` (`modules/sciencesync_workflow.py`): flattening the label → titles
  dictionary into `(Group, Title)` rows.
- `ResultsApp` (`modules/ss_results_app.py`):
  - `divide_list_into_chunks`;
  - the page and button logic;
  - the `"Group k"` button label and how it is parsed back.

Behaviour the model keeps as the code has it, where a design reading would
expect something else:

- **Empty union.** `jaccard_similarity` does not guard against an empty union.
  A "both empty means 0" convention is not what the code does. `Jaccard`
  therefore requires a non-empty union. `ReferenceSet` proves the similarity
  table never reaches the empty case, because `split(",")` always yields at
  least one token.
- **Two tokenisations.**
  - The set path splits on a bare `","` and keeps `"N/A"`. So `"a, b"` gives
    `{"a", " b"}`, and two `"N/A"` rows have similarity 1.
  - The vector path splits on `", "`, reads NULL as `[]`, and drops `"N/A"`
    only from the universe of feature columns.
- **Empty reference list.** An empty list is stored as `""` and reads back as
  `[""]`. The empty identifier then becomes a feature column.
- **Case sensitivity in the author rule.**
  - The `"your"` and `"by"` guards of the subject rule are case-sensitive.
  - The author regex is case-insensitive.
- **Negative page numbers.** `display_page_titles` indexes a Python list, so a
  negative page number counts from the end. Page 0 of an empty chunk list is
  an `IndexError`. That case is reachable through "All" when there are no
  articles.
- **Feature column order.** `list(set(...))` fixes the column order by hashing.
  The matrix lemmas therefore hold for every duplicate-free enumeration of the
  universe. `UniverseColumns` gives one such enumeration, in first-encounter
  order.

## Model

| member | source | states |
|---|---|---|
| Text.Split | modules/clustering.py:111 | There is always at least one piece. The first piece is a prefix of the input, and no piece contains the separator. |
| Text.JoinSplit | modules/clustering.py:111 | Joining the pieces of a split gives the string back. |
| Text.SplitJoin | modules/database_services.py:65 | Splitting a join gives the pieces back, for at least one piece and a border-free separator none of them contains. |
| Text.Strip | modules/data_extractor_for_scholar_messages.py:132-136 | The result has no leading or trailing whitespace. It is a suffix of the right-stripped input, and only whitespace was cut from the front. |
| Text.StripIdempotent | modules/data_extractor_for_scholar_messages.py:129 | Stripping twice is stripping once. |
| Text.Replace | modules/ss_results_app.py:135 | Replacing with the empty string never makes the string longer. |
| Text.ReplaceIsJoinOfSplit | modules/ss_results_app.py:135 | `s.replace(old, new)` equals `new.join(s.split(old))`. |
| Text.ReplaceAbsent | modules/ss_results_app.py:135 | A string that does not contain `old` is left as it is. |
| Text.ParseInt | modules/ss_results_app.py:137 | A successful parse needs something other than whitespace. |
| Text.IntToString | modules/ss_results_app.py:126 | The text is non-empty and starts with `-` iff the integer is negative. |
| Text.ParseIntToString | modules/ss_results_app.py:126-137 | `int(str(i)) == i` for every integer. |
| Clustering.Jaccard | modules/clustering.py:63-65 | For a non-empty union, the ratio lies in [0, 1]. It is 0 exactly when the sets are disjoint and 1 exactly when they are equal. |
| Clustering.JaccardSymmetric | modules/clustering.py:63-65 | The similarity does not depend on argument order. |
| Clustering.WithReferences | modules/clustering.py:75 | The kept rows are exactly the input rows whose references are not NULL. |
| Clustering.ReferenceSet | modules/clustering.py:76 | The set path's reference set is never empty, so no pair of non-NULL rows divides by zero. No token contains a comma. |
| Clustering.SetPathExamples | modules/clustering.py:76-82 | `"a, b"` tokenises to `{"a", " b"}`. Two rows whose references are exactly `"N/A"` score similarity 1. |
| Clustering.Combinations | modules/clustering.py:79 | Pairs are visited as (earlier, later), each unordered pair of rows once, in lexicographic order. |
| Clustering.SimilarityTableRows | modules/clustering.py:75-91 | Every table row pairs two non-NULL articles, the earlier one first. Its similarity lies in (0, 1]. |
| Clustering.SimilarityTableComplete | modules/clustering.py:78-91 | Every pair of non-NULL articles with a non-zero similarity appears in the table. |
| Clustering.UniverseColumns | modules/clustering.py:110-113 | The feature columns are duplicate-free. They are exactly the `", "`-split tokens of all rows, with NULL read as no tokens and `"N/A"` excluded. |
| Clustering.NotAvailableOutsideUniverse | modules/clustering.py:113 | `"N/A"` is never a feature column. |
| Clustering.FeatureMatrix | modules/clustering.py:115-120 | There is one row per input row, NULL rows included. Each row is as wide as the column list. An entry is 1 iff that column's token occurs in the row's token list. |
| Clustering.FeatureRowDecodes | modules/clustering.py:110-120 | The columns marked 1 in a row are exactly that row's own tokens other than `"N/A"`. |
| Clustering.UnreferencedRowsAreZero | modules/clustering.py:111-120 | A row whose references are NULL or only `"N/A"` is all zeros. |
| Clustering.SelectEstimator | modules/clustering.py:122-130 | An unknown method name is a KeyError. "KMeans" with a non-euclidean metric hits the `None` entry. Non-euclidean metrics pick the precomputed variants. Agglomerative uses average linkage for euclidean and complete linkage otherwise. |
| Clustering.FitInputFor | modules/clustering.py:131-136 | The estimator is fitted on the feature matrix iff the metric is "euclidean". Otherwise it is fitted on the Jaccard distances of that same matrix. |
| Clustering.UniqueLabels | modules/clustering.py:138 | The keys are the distinct labels in strictly ascending order, as `np.unique` gives them. |
| Clustering.GroupByLabelSpec | modules/clustering.py:138-140 | The keys are exactly the distinct labels, in ascending order. Each key lists the titles of the rows with that label, in row order. The entries add up to the number of rows. |
| Clustering.GroupMembership | modules/clustering.py:138-140 | A title is in a group iff some row with that title carries that group's label. |
| Clustering.AssignTitlesContents | modules/clustering.py:139-140 | The append loop leaves each key with exactly its rows' titles, in encounter order. |
| Clustering.Tokens | modules/clustering.py:110-111 | A NULL column gives no tokens, and a stored value always gives at least one. |
| Clustering.SimilarityTable | modules/clustering.py:74-92 | No contract of its own. `SimilarityTableRows` and `SimilarityTableComplete` state which rows it holds. |
| Clustering.GroupByLabel | modules/clustering.py:138-140 | No contract of its own. `GroupByLabelSpec` states its keys, members and counts. |
| Clustering.PerformClustering | modules/clustering.py:107-146 | Clustering raises iff one of three things happens: the method and metric select no estimator, `n_clusters` lies outside 1 to the number of articles, or the library's `fit` fails. A dispatch-table error is reported as it is. Every other failure is a fit failure. |
| Clustering.MoreClustersThanArticlesRaises | modules/clustering.py:131-136 | Asking for more clusters than there are articles always raises. The default of ten clusters in `app.py` therefore fails on fewer than ten articles. |
| Clustering.PerformClusteringCounts | modules/clustering.py:138-146 | A successful clustering places every article exactly once. |
| Clustering.Complement | modules/clustering.py:203 | `1 - data` gives each entry's complement and keeps the shape. |
| Clustering.ComplementTwice | modules/clustering.py:203 | Complementing twice restores the matrix. |
| Clustering.AnalyseClusterResults | modules/clustering.py:196-209 | All three scores are present iff two rows have different labels, and all are `None` otherwise. Davies–Bouldin and Calinski–Harabasz always score the data as given. The silhouette scores the data for centroid methods and `1 - data`, precomputed, for the others. |
| Clustering.SeveralClustersIff | modules/clustering.py:197 | More than one distinct label is the same as two positions with different labels. |
| ArticleStore.StoredReferences | modules/database_services.py:65 | The empty list is stored as `""`, and a single reference is stored as itself. |
| ArticleStore.Present | modules/crossRef_rest_service.py:50 | The DOI list is undefined iff some reference has no DOI. Otherwise it holds every reference's DOI, in order. |
| ArticleStore.JoinReferences | modules/database_services.py:93 | `", ".join` raises iff some reference has no DOI. Otherwise it stores the DOIs joined by `", "`. |
| ArticleStore.JoinPresentReferences | modules/database_services.py:65 | With every DOI present, the stored value is the plain join. It reads back unchanged when no DOI contains `", "`. |
| ArticleStore.Placeholders | modules/database_services.py:149 | No contract of its own. `PlaceholdersShape` and `PlaceholdersSplit` state its shape. |
| ArticleStore.ReadReferences | modules/clustering.py:111 | Reading a stored value gives the vector path's token list, which always has at least one element. |
| ArticleStore.StoredReferencesRoundTrip | modules/database_services.py:93 | A non-empty list whose items do not contain `", "` reads back unchanged after it is written. |
| ArticleStore.ReadThenStore | modules/database_services.py:65 | Writing back what was read gives the stored value again. |
| ArticleStore.EmptyReferencesReadBack | modules/database_services.py:93 | `[]` is stored as `""` and reads back as `[""]`, so `""` becomes a feature column. |
| ArticleStore.PlaceholdersShape | modules/database_services.py:149 | The placeholder list has exactly one `?` per title. Its length is 3n − 2, or 0 for no titles. |
| ArticleStore.PlaceholdersSplit | modules/database_services.py:149 | Splitting the placeholder list on `", "` gives n single `?` items. |
| ArticleStore.ExistingTitles | modules/database_services.py:146-152 | The query returns exactly the table's titles that are in the requested list. |
| ArticleStore.MissingTitles | modules/database_services.py:155 | A title is reported missing iff it is requested and absent from the table. |
| ArticleStore.MissingTitlesIsFilter | modules/database_services.py:155 | The missing titles are the request list filtered by absence from the table. |
| ArticleStore.MissingTitlesOrder | modules/database_services.py:155 | Input order is kept: the result for a concatenation is the concatenation of the results. |
| ArticleStore.MissingTitlesMultiplicity | modules/database_services.py:155 | A missing title is reported as many times as it was requested. |
| ScholarMessages.CitationAlertIff | modules/data_extractor_for_scholar_messages.py:90 | A message is an alert iff its subject contains "new citation". The "new citations" disjunct adds nothing. |
| ScholarMessages.FindAuthorStart | modules/data_extractor_for_scholar_messages.py:96-97 | The search finds the leftmost position that follows a case-insensitive "by" and a whitespace character and starts a non-comma run. |
| ScholarMessages.RunEnd | modules/data_extractor_for_scholar_messages.py:96-99 | The captured run is maximal: it has no commas and stops at a comma or at the end. |
| ScholarMessages.AuthorAfterBy | modules/data_extractor_for_scholar_messages.py:96-101 | There is no match iff no position follows "by" plus whitespace with a non-comma character. A match is the maximal run from the leftmost such position. |
| ScholarMessages.CitedAuthor | modules/data_extractor_for_scholar_messages.py:91-101 | A subject containing "your" yields "Yourself", ahead of the "by" rule. Without "your" or "by" it yields `None`. With "by" but not "your" it yields exactly the regex result `AuthorAfterBy`, so `None` iff nothing follows "by" plus whitespace. |
| ScholarMessages.CapturedAuthorShape | modules/data_preprocessor_for_scholar_messages.py:96-99 | A captured author is non-empty and contains no comma. |
| ScholarMessages.ExtractRawMetadata | modules/data_extractor_for_scholar_messages.py:88-109 | There are never more triples than messages. `ExtractRawMetadataSpec` states which triples. |
| ScholarMessages.ExtractRawMetadataSpec | modules/data_extractor_for_scholar_messages.py:88-109 | There is one triple per alert message, in message order, each built from that message. |
| ScholarMessages.Clean | modules/data_extractor_for_scholar_messages.py:132-136 | `rstrip().strip()` is the same as `strip()`, and its result has no leading or trailing whitespace. |
| ScholarMessages.CitedAuthorField | modules/data_extractor_for_scholar_messages.py:126-129 | A missing cited author becomes `""`. A present one is stripped. |
| ScholarMessages.MessageRecords | modules/data_extractor_for_scholar_messages.py:121-141 | A message gives one record per title when its five lists have equal length, and none otherwise. The fields are the stripped list items in column order. The cited-author field is shared and the received date passes through. |
| ScholarMessages.RecordsStripped | modules/data_preprocessor_for_scholar_messages.py:126-141 | Every text field of every record is whitespace-stripped. |
| ScholarMessages.CreateArticleRecords | modules/data_extractor_for_scholar_messages.py:121-142 | No contract of its own. `RecordsStripped`, `CreateArticleRecordsAppend` and `CreateArticleRecordsCount` state its fields, order and count. |
| ScholarMessages.CreateArticleRecordsAppend | modules/data_extractor_for_scholar_messages.py:121-142 | Records follow message order. |
| ScholarMessages.CreateArticleRecordsCount | modules/data_extractor_for_scholar_messages.py:130-141 | The record count is the total title count of the consistent messages. |
| ScholarMessages.FirstOccurrences | modules/data_extractor_for_scholar_messages.py:165 | The kept rows come from the input, have pairwise distinct (Title, CitedAuthor) keys, and cover every key of the input. |
| ScholarMessages.DropDuplicates | modules/data_preprocessor_for_scholar_messages.py:165 | The loop returns the first row of each (Title, CitedAuthor) key in input order, with no key twice and no key lost. |
| ScholarMessages.FirstOccurrencesAppend | modules/data_extractor_for_scholar_messages.py:165 | Relative order is kept. A row of the second part survives only if its key did not occur earlier. |
| ScholarMessages.FirstOccurrenceKept | modules/data_extractor_for_scholar_messages.py:165 | The first row with a given key is always kept. |
| ScholarMessages.FirstOccurrenceKeptFrom | modules/data_extractor_for_scholar_messages.py:165 | Partway through the scan, a row survives if its key is not yet seen and no earlier row of the remainder has it. |
| ScholarMessages.FirstTitleIndex | modules/data_extractor_for_scholar_messages.py:166-168 | Finds the position of the first row with a given title. |
| ScholarMessages.PropagateFirst | modules/data_extractor_for_scholar_messages.py:166-168 | Row count, titles, authors, cited authors and dates are unchanged. |
| ScholarMessages.PropagateFirstUniform | modules/data_extractor_for_scholar_messages.py:166-168 | After propagation, rows with the same title share Link, SaveLink and Abstract. |
| ScholarMessages.PropagateFirstKeepsFirstRows | modules/data_extractor_for_scholar_messages.py:166-168 | The first row of each title is left as it was, so every row carries its title's first values. |
| ScholarMessages.PropagateFirstIdempotent | modules/data_extractor_for_scholar_messages.py:166-168 | Propagating a second time changes nothing. |
| ScholarMessages.ArraySplit | modules/data_extractor_for_scholar_messages.py:190 | `array_split` into k parts: the first `n % k` parts have one extra row, and the parts concatenate back to the input. |
| ScholarMessages.Sections | modules/data_extractor_for_scholar_messages.py:190 | k consecutive sections with the requested sizes that concatenate back to the input. |
| ScholarMessages.SplitFrame | modules/data_extractor_for_scholar_messages.py:185-198 | A frame of at most ten rows comes back whole. The inner "not greater than 10" branch is never taken. |
| ScholarMessages.TenRowSections | modules/data_extractor_for_scholar_messages.py:186-190 | With ceil(n/10) sections of n > 10 rows, every section has between 1 and 10 rows. |
| ScholarMessages.SplitFrameSpec | modules/data_preprocessor_for_scholar_messages.py:185-198 | More than ten rows become ceil(n/10) non-empty parts of at most ten rows. Part sizes differ by at most one, and the parts concatenate back to the frame. |
| Workflow.GroupRows | modules/sciencesync_workflow.py:237 | A group gives one (key, title) row per title, in title order. |
| Workflow.FlattenGroups | modules/sciencesync_workflow.py:237 | No contract of its own. The `FlattenGroups…` lemmas and `SelectFromFlattened` state its rows. |
| Workflow.FlattenGroupsCount | modules/sciencesync_workflow.py:237 | There is one row per (group, title) entry. |
| Workflow.FlattenGroupsAppend | modules/sciencesync_workflow.py:237 | Rows follow the key order of the groups. |
| Workflow.EmptyGroupAddsNothing | modules/sciencesync_workflow.py:237 | A group with no titles contributes no rows. |
| Workflow.FlattenGroupsMembership | modules/sciencesync_workflow.py:237 | A (key, title) row is present iff the title is listed under that key. |
| Workflow.SelectFromFlattened | modules/sciencesync_workflow.py:237-238 | With distinct keys, selecting a key's rows from the frame gives back exactly that group's titles, in order. |
| Workflow.RunClusteringWorkflow | modules/sciencesync_workflow.py:232-242 | The result is `None` iff clustering raises. That covers no estimator, a cluster count outside 1 to the number of articles, and a failing `fit`. Otherwise the columns are exactly ["Group", "Title"]. |
| Workflow.RunClusteringWorkflowRows | modules/sciencesync_workflow.py:236-239 | The frame has one row per article. |
| ResultsApp.Chunks | modules/ss_results_app.py:219 | Chunks are non-empty, hold at most `chunk_size` items, and all but the last are full. |
| ResultsApp.DivideIntoChunks | modules/ss_results_app.py:218-219 | A chunk size of 0 is the ValueError of `range`. A negative size gives no chunks. A positive size gives chunks that concatenate back to the list. |
| ResultsApp.ChunksFlatten | modules/ss_results_app.py:219 | The chunks concatenate back to the list. |
| ResultsApp.ChunkCount | modules/ss_results_app.py:219 | There are ceil(n / chunk_size) chunks. |
| ResultsApp.ChunksAreSlices | modules/ss_results_app.py:219 | Chunk i is the slice `lst[i*size : i*size+size]`, clipped at the end of the list. |
| ResultsApp.ButtonStateOf | modules/ss_results_app.py:176-179 | "Previous" is disabled iff the page is 0, and "Next" iff the page is the last. |
| ResultsApp.DisplayPage | modules/ss_results_app.py:162-179 | A page displays iff its number is a valid Python index, negative numbers included. A page `p >= 0` shows chunk `p`, and a negative one shows chunk `n + p`. The button states follow the page number. |
| ResultsApp.SinglePageDisablesBoth | modules/ss_results_app.py:176-179 | A single page disables both buttons. |
| ResultsApp.Navigate | modules/ss_results_app.py:181-186 | A click moves at most one page either way. `NavigateInRange` states where it goes. |
| ResultsApp.NavigateInRange | modules/ss_results_app.py:181-186 | A click on an enabled button moves one page, and a disabled button is ignored. The page stays within the chunks. |
| ResultsApp.WalkDisplays | modules/ss_results_app.py:181-186 | From page 0, any sequence of clicks keeps every displayed page valid. |
| ResultsApp.GroupButtonRoundTrip | modules/ss_results_app.py:126-137 | Every integer label parses back from its `"Group k"` button text. |
| ResultsApp.ParseGroupButton | modules/ss_results_app.py:135-137 | No contract of its own. `GroupButtonRoundTrip` states that it inverts the button label. |
| ResultsApp.NumberHasNoPrefix | modules/ss_results_app.py:135 | A printed integer never contains `"Group "`, so `replace` removes only the prefix. |
| ResultsApp.StripGroupPrefix | modules/ss_results_app.py:135 | Removing `"Group "` from the button text leaves the rest unchanged when the rest does not contain it. |
| ResultsApp.SelectTitles | modules/ss_results_app.py:132-137 | "All" selects every metadata title, in table order. Another text fails iff it does not parse as an integer. |
| ResultsApp.ClusterButtonClick | modules/ss_results_app.py:131-140 | A failed selection is passed on unchanged, and a shown page always has "Previous" disabled. |
| ResultsApp.ClusterButtonClickSpec | modules/ss_results_app.py:131-140 | An empty selection fails with an index error on page 0. Otherwise page 0 shows the first min(20, n) titles with "Previous" disabled. |
| ResultsApp.GroupButtonSelectsGroup | modules/ss_results_app.py:126-137 | Clicking a group's button selects exactly that group's titles from the flattened frame. |
| ResultsApp.WorkflowButtonsSelectGroups | modules/ss_results_app.py:125-137 | After a successful clustering, each group's button selects that group's titles. |

## Left out

- The clustering algorithms (`KMeans`, `KMedoids`, `AgglomerativeClustering`) and `pdist`/`squareform` are library code with floating-point results. `fit` is an uninterpreted function that returns a labelling of the rows, or nothing where the library raises for a reason the model does not decide.
- The silhouette, Davies–Bouldin and Calinski–Harabasz scores are foreign calls. They are an uninterpreted scorer, and only their guard and routing are modelled.
- Clustering.PerformClustering: on an empty frame with a non-euclidean metric, `pdist` raises before the dispatch-table error would. The model reports the dispatch-table error there. Either way the call raises, so `RunClusteringWorkflow` is unaffected.
- ArticleStore.JoinReferences models the `TypeError` that a reference without a DOI causes. The update loop that catches it and stops (modules/sciencesync_workflow.py:137-149) is workflow orchestration and is not modelled.
- Louvain community detection and the plots (modules/clustering.py:148-182) are networkx and matplotlib code.
- The Google, Microsoft Graph and CrossRef HTTP clients are network and OAuth code. CrossRef's `["N/A"]` fallback only feeds an opaque token into the model.
- HTML scraping of the alert body is BeautifulSoup code. It is the `scrape` parameter of `ExtractRawMetadata`.
- The Outlook `strptime`/`strftime` date conversion is the `toIsoDate` parameter. A malformed date, which would raise, is not modelled.
- The final `groupby(...)[CitedAuthor].apply(','.join)` of `process_extracted_data_into_dataframes` is left out. Its row order and grouping depend on pandas sort and grouping defaults.
- `groupby(...).transform('first')` skips nulls. The model assumes no nulls, because every record field is a string.
- The SQL and sqlite plumbing is left out. `insert_article` names 9 columns but has 8 placeholders (modules/database_services.py:62-63), so it would fail at run time. The model covers only the serialised value.
- `run_workflow.py` orchestration is left out: prompts, language detection, sleeps and the clock. Its `_perform_clustering` also omits the `metric` argument.
- `app.py` passes `metric` to a function that has no such parameter.
- Widgets, threading, file export, the logger and `change_scaling_event` are UI and I/O code.
- The `print` calls are output only and are not modelled.
- Text.ParseInt accepts surrounding whitespace, an optional sign and ASCII digits. It leaves out `int()`'s underscores and non-ASCII digits, which `str(k)` never produces.
- Clustering.UniverseColumns fixes one column order, first encounter. Python's hash-dependent set order is covered only through the lemmas that hold for any duplicate-free enumeration.
- ScholarMessages.SplitFrame computes `ceil(n / 10)` with integer arithmetic rather than through a float, which gives the same value for every row count the program can hold.
