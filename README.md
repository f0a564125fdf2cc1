# SHL Assessment Recommender — a verified Dafny model of its core

The SHL Assessment Recommender crawls SHL's product catalog and indexes each
assessment for similarity search. For a free-text hiring query it recommends
up to ten assessments. It also comes with an offline Recall@K evaluation.
This project models the deterministic logic around the vector search and
proves what that logic promises. There are four stages:

- **Crawler** (`src/crawler.py`). The crawler turns the product cards visible
  on each scroll pass into catalog records. Links that do not start with
  `http` are prefixed with `https://www.shl.com`, and the records are kept in
  a map keyed by the resulting string; the first card seen for a key wins.
  "Pre-packaged" and too-short names are refused, and fixed defaults are filled in. The scroll loop stops at 377 records or
  after 5 passes without a click.
- **Ingestion** (`src/ingestion.py`). Ingestion turns every catalog item into
  one document. The document's text is `Name: …. Description: …. Type: a, b`,
  and its metadata is the item unchanged.
- **Recommender** (`src/llm_engine.py`, `RecommenderSystem.recommend`). It
  formats the search hits into result records, with defaults and a
  200-character description cut followed by `...`. When the language model is
  configured and the lower-cased query contains `personality` or `behavior`, it
  stably moves the records whose test types mention "Personality" to the front.
  Only the American spelling fires: `behaviour` and `behavioural` do not contain
  `behavior`.
- **Evaluation** (`evaluate.py`). `get_slug` reduces a URL to its last path
  segment. `calculate_recall_at_k` is the number of distinct slugs shared by the
  first `k` predictions and the ground truth, divided by the length of the
  ground-truth list.

Modules:

- `Wrappers`: `Option` and `Result`.
- `Text`: the Python string operations the code relies on, with their
  semantics written out: `strip`/`lstrip`/`rstrip`, `rstrip(c)`, `split`,
  `join`, `in`, `lower`, slicing.
- `Catalog`: the catalog item. Every key is optional, as in a JSON object.
- `Crawler`, `Ingestion`, `Recommender`, `Evaluate`: the four stages.
- `Pipeline`: facts that hold across stages.

The loops that build lists or update records step by step are methods. Each
one is proved equal to a recursive specification function, and the properties
are proved about that function:

- `Crawler.CollectView`
- `Crawler.ScrollPass`
- `Crawler.ScrapeCatalog`
- `Ingestion.IngestData`
- `Recommender.FormatResults`
- `Recommender.SortPersonalityFirst`
- `Recommender.RecommenderSystem.Recommend`

The engine is a class whose field `hasLlm` is the `has_llm` flag. The
similarity search is an oracle: `Recommend` receives what it did, either the
metadata of at most ten documents or an exception.

## Model

| member | source | states |
|---|---|---|
| Text.LStrip | evaluate.py:14 | `lstrip()`: no longer than the input, and the result does not start with whitespace |
| Text.LStripSuffix | evaluate.py:14 | `lstrip()` keeps a suffix of the input and drops only whitespace characters |
| Text.LStripAppend | evaluate.py:14 | stripping the front of `a + b` strips `a`, and continues into `b` only when `a` was all whitespace |
| Text.RStrip | src/crawler.py:54 | `rstrip()`: no longer than the input, and the result does not end with whitespace |
| Text.RStripPrefix | evaluate.py:14 | `rstrip()` keeps a prefix of the input and drops only whitespace characters |
| Text.Strip | src/crawler.py:54 | `strip()` never lengthens its input |
| Text.StripEnds | src/crawler.py:54 | `strip()` leaves text that neither starts nor ends with whitespace |
| Text.RStripChar | evaluate.py:14 | `rstrip('/')`: no longer than the input, and the result does not end with `/` |
| Text.RStripCharPrefix | evaluate.py:14 | `rstrip(c)` keeps a prefix of the input and drops only copies of `c` |
| Text.Lower | src/llm_engine.py:76 | `lower()` keeps the length and lower-cases each character (ASCII letters) |
| Text.IsSpace | src/crawler.py:54 | Python's whitespace set for `isspace`, used by every `strip`; no letter, digit or `/` is whitespace, so stripping never eats into a name or a url path |
| Text.ContainsIff | src/llm_engine.py:76 | Python's `w in s` holds exactly when `w` occurs at some index of `s` |
| Text.ContainsAppend | src/llm_engine.py:78 | an occurrence in either part of a concatenation is an occurrence in the whole |
| Text.ContainsAcross | src/llm_engine.py:78 | an occurrence of a word that lacks the character `c` in `x + c + y` lies inside `x` or inside `y` |
| Text.Split | evaluate.py:15 | `split(sep)` gives at least one piece, and no piece contains the separator |
| Text.SplitJoin | src/crawler.py:53 | joining the pieces of `split(sep)` with `sep` gives the text back |
| Text.SplitAppend | src/crawler.py:53 | splitting `x + sep + y` gives the pieces of `x` followed by the pieces of `y` |
| Text.SplitLast | evaluate.py:15 | `split(sep)[-1]` is a suffix free of `sep`, preceded by `sep` unless it is the whole text |
| Text.SplitSingle | src/crawler.py:53 | `split(sep)` is the single piece `[s]` exactly when `sep` does not occur in `s` |
| Text.Join | src/ingestion.py:23 | `sep.join(parts)` opens with the first part (with `JoinContains`: every part occurs in it; with `SplitJoin`: it inverts `split`) |
| Text.JoinContains | src/ingestion.py:23 | every part occurs in the joined text |
| Text.Take | src/llm_engine.py:68 | `s[:n]` is a prefix of length `min(n, len(s))` for `n >= 0`, counting from the end for negative `n` |
| Evaluate.GetSlug | evaluate.py:8-15 | a non-string cell has slug `""`, and no slug contains `/` |
| Evaluate.CleanUrl | evaluate.py:14 | `url.strip().rstrip('/')` is no longer than the url, and when non-empty it neither starts with whitespace nor ends with `/` |
| Evaluate.LastSegment | evaluate.py:15 | `split('/')[-1]` contains no `/` |
| Evaluate.LastSegmentIsLastPiece | evaluate.py:15 | the last segment is the text after the last `/`, or all of it when there is none |
| Evaluate.SlugIsLastPiece | evaluate.py:14-15 | the slug of a string is what follows the last `/` of the stripped url with its trailing slashes removed |
| Evaluate.LastSegmentAfterSlash | evaluate.py:15 | whatever precedes a `/` does not affect the last segment |
| Evaluate.RightCleanNoop | evaluate.py:14 | text ending in neither whitespace nor `/` is unchanged by `rstrip` and `rstrip('/')` |
| Evaluate.LStripAfterSlash | evaluate.py:14 | leading whitespace of `prefix/segment` is that of the prefix |
| Evaluate.CleanAfterSlash | evaluate.py:14 | cleaning `prefix/segment` only strips the prefix's leading whitespace, when the segment ends cleanly |
| Evaluate.SlugIgnoresFolders | evaluate.py:10-15 | urls that differ only in domain and folders before the last segment have equal slugs, and that slug is the segment's |
| Evaluate.CleanTrailingSlash | evaluate.py:14 | a trailing `/` is cleaned away when the url does not end in whitespace |
| Evaluate.SlugIgnoresTrailingSlash | evaluate.py:14 | `u` and `u + "/"` have the same slug when `u` does not end in whitespace |
| Evaluate.CleanSurroundingSpace | evaluate.py:14 | one whitespace character before or after the url does not change the cleaned url |
| Evaluate.SlugIgnoresSurroundingSpace | evaluate.py:14 | one whitespace character before or after the url does not change the slug |
| Evaluate.JavaTestSlug | evaluate.py:11 | every url ending in `/java-test/` has slug `java-test`, whatever its domain and folders (the documented example) |
| Evaluate.Slugs | evaluate.py:21-22 | one slug per url |
| Evaluate.SlugsAt | evaluate.py:21-22 | slug `i` of the list is the slug of url `i` |
| Evaluate.SlugsPrefix | evaluate.py:21 | the slugs of `urls[:n]` are the first `n` slugs |
| Evaluate.SlugSet | evaluate.py:21-22 | `{get_slug(u) for u in urls}` holds exactly the slugs of the urls in the list |
| Evaluate.DistinctSize | evaluate.py:22 | a list has at most as many distinct elements as entries |
| Evaluate.Hits | evaluate.py:25 | the hits are exactly the slugs shared by the first `k` predictions and the ground truth, and there are no more of them than ground-truth entries |
| Evaluate.Ratio | evaluate.py:26 | the quotient of a part by a positive whole lies in [0, 1], is 0 exactly for an empty part and 1 exactly for the whole |
| Evaluate.RatioMonotone | evaluate.py:26 | a larger part of the same whole gives a larger quotient |
| Evaluate.RecallAtK | evaluate.py:17-26 | empty ground truth gives 0; recall lies in [0, 1]; recall is 0 exactly when the ground truth is empty or nothing is hit |
| Evaluate.RecallUsesFirstK | evaluate.py:21 | recall of `predictions` equals recall of `predictions[:k]` |
| Evaluate.RecallMonotoneInK | evaluate.py:21-26 | for `0 <= k <= k'`, recall at `k` is at most recall at `k'` |
| Evaluate.RecallExample | evaluate.py:20-26 | a prediction matching only by slug, under another domain and folder, gives recall 1, and a further non-matching prediction costs nothing |
| Evaluate.SingleSlugFound | evaluate.py:25-26 | a ground truth whose only slug is among the first `k` predicted slugs scores 1 |
| Evaluate.RepeatedSlugHalf | evaluate.py:22-26 | two ground-truth urls sharing one slug, predicted back verbatim, score 0.5 |
| Evaluate.RecallUndercountsRepeatedSlugs | evaluate.py:22-26 | a perfect prediction of two ground-truth urls with the same slug scores 0.5 |
| Evaluate.CountFound | evaluate.py:25-26 | the count of ground-truth entries found is at most their number, equals it exactly when all are found, and is 0 exactly when none is |
| Evaluate.FoundRatio | evaluate.py:26 | the fraction of entries found lies in [0, 1], is 1 exactly when all are found and 0 exactly when none is |
| Evaluate.IntendedRecallAtK | evaluate.py:17-26 | corrected recall: 0 for empty ground truth, in [0, 1], 1 exactly when every ground-truth slug is predicted, 0 exactly when none is |
| Evaluate.IntendedRecallPerfect | evaluate.py:17-26 | predicting the ground truth itself gives corrected recall 1 |
| Evaluate.RecallAgreesOnDistinctSlugs | evaluate.py:22-26 | with distinct ground-truth slugs `calculate_recall_at_k` equals the corrected recall |
| Evaluate.NoRepeatsIff | evaluate.py:22 | a list has no repeated entry exactly when its entries are pairwise different |
| Evaluate.DistinctHits | evaluate.py:25-26 | with distinct slugs, the entries found are as many as the distinct slugs found |
| Evaluate.DistinctLast | evaluate.py:22 | the elements of a list are those of all but its last entry, plus that entry |
| Ingestion.PageContentMentions | src/ingestion.py:23 | the embedded text opens with `Name: <name>. ` and contains the description and every test type |
| Ingestion.PageContent | src/ingestion.py:23 | the f-string `Name: …. Description: …. Type: …` contains the item's name and description |
| Ingestion.EmptyTypesEndInType | src/ingestion.py:23 | with no test types the embedded text ends in `Type: ` |
| Ingestion.FirstMissingKey | src/ingestion.py:23 | no key is missing exactly when name, description and test types are all present; `name` is reported exactly when the name is missing |
| Ingestion.ToDocument | src/ingestion.py:25-28 | a document's metadata is its item unchanged |
| Ingestion.BuildDocuments | src/ingestion.py:19-29 | success exactly when every item has the three keys, and then one document per item |
| Ingestion.Ingest | src/ingestion.py:13-14 | a missing data file fails before any item is read |
| Ingestion.BuildDocumentsInOrder | src/ingestion.py:19-29 | on success, document `i` is built from item `i`, and its metadata is item `i` unchanged |
| Ingestion.BuildDocumentsFailure | src/ingestion.py:20-23 | a failure names the first item that lacks a key, and the key it lacks |
| Ingestion.BuildDocumentsStopsAtFailure | src/ingestion.py:20-23 | the first failing item decides the result: later items are never looked at |
| Ingestion.IngestData | src/ingestion.py:13-29 | the document loop computes exactly `Ingest` |
| Crawler.StartsWithAppend | src/crawler.py:50 | appending text keeps a prefix |
| Crawler.CrawledItem | src/crawler.py:61-69 | the dict literal the crawler writes, for a url starting with `http` and a name longer than 2 characters, is a well-formed crawled record: url, name, description, duration 30, adaptive `No`, remote `Yes`, test types `["Knowledge & Skills"]` |
| Crawler.ResolveUrl | src/crawler.py:50 | the stored url starts with `http`; an `http` link is kept unchanged, and any other link is prefixed with `https://www.shl.com` |
| Crawler.ResolveUrlIdempotent | src/crawler.py:50 | prefixing a stored url again changes nothing: it is stored under itself |
| Crawler.CardRecord | src/crawler.py:53-69 | a card is refused exactly when its stripped first line has at most 2 characters or mentions `pre-packaged` in lower case; an accepted card's name is that line; its description is the stripped second line when there is one, else `Assessment for ` + name; the record carries the fixed defaults |
| Crawler.SingleLineDescription | src/crawler.py:53-64 | a one-line card gives the description `Assessment for ` + name |
| Crawler.MultiLineDescription | src/crawler.py:53-64 | a card of two or more lines with an acceptable name gets its stripped second line as description, whatever lines follow |
| Crawler.LowerContains | src/crawler.py:57 | lower-casing keeps an occurrence of the lower-cased word |
| Crawler.PrePackagedRefused | src/crawler.py:56-58 | a name containing any letter casing of `pre-packaged` is refused |
| Crawler.ShortNameRefused | src/crawler.py:54-60 | a stripped name of at most 2 characters is refused |
| Crawler.AddCard | src/crawler.py:47-69 | one card never removes or overwrites a record, adds at most one, and only extends the insertion order; when no record is added nothing changes |
| Crawler.NoLinkNoRecord | src/crawler.py:48-49 | a card with a missing or empty link adds nothing |
| Crawler.KnownOrRefusedCardIgnored | src/crawler.py:52-60 | a card whose stored url is already recorded, or whose text is refused, leaves the records unchanged: the first card seen for a url wins |
| Crawler.PrePackagedCardSkipped | src/crawler.py:56-58 | a card whose name mentions any letter casing of `pre-packaged` leaves the records unchanged |
| Crawler.NewCardStored | src/crawler.py:50-69 | an accepted card with a new url is stored under the url its link maps to, at the end of the insertion order |
| Crawler.AddCardValid | src/crawler.py:52-69 | one card keeps the records well formed: one record per url, insertion order without repeats, every record a crawled record |
| Crawler.InsertValid | src/crawler.py:61-69 | inserting a crawled record under a new url keeps the records well formed |
| Crawler.AddCards | src/crawler.py:46-71 | a view of cards never removes or overwrites a record, adds at most one record per card, and only extends the insertion order |
| Crawler.AddCardsValid | src/crawler.py:46-71 | a view of cards keeps the records well formed |
| Crawler.CollectView | src/crawler.py:46-71 | the per-card loop computes exactly `AddCards` |
| Crawler.Unclicked | src/crawler.py:106-107 | at most as many unclicked passes as passes |
| Crawler.Run | src/crawler.py:39-114 | the loop uses at most the supplied passes; it reports the target only with at least 377 records, and gives up only with the stuck counter at 5 or more and fewer than 377 records |
| Crawler.RunKeepsRecords | src/crawler.py:52-61 | the scroll loop never drops a record nor replaces one first seen earlier |
| Crawler.RunCountsUnclicked | src/crawler.py:106-107 | unless the target ends the loop, the stuck counter equals the number of passes without a click: it is never reset |
| Crawler.RunStuckAtLimit | src/crawler.py:112-114 | the stuck counter never passes 5, and the loop ends by giving up exactly when the counter ends at 5 |
| Crawler.RunStopsAtFirstExit | src/crawler.py:77-114 | the loop stops at the first pass that reaches 377 records or the fifth pass without a click: on any shorter prefix of the passes it would still be running when they ran out |
| Crawler.RunValid | src/crawler.py:41-114 | the scroll loop keeps the records well formed |
| Crawler.Saved | src/crawler.py:126 | the saved list has one item per url, in insertion order |
| Crawler.ScrollPass | src/crawler.py:43-114 | one pass collects the view, never lowers the record count, counts an unclicked pass unless the target was met, and reports the exit taken |
| Crawler.ScrapeCatalog | src/crawler.py:39-126 | the scroll loop computes exactly `Run` from no records, keeps the records well formed, and saves them in insertion order |
| Recommender.Format | src/llm_engine.py:64-71 | absent keys default to url `""`, name `""`, duration 30 and test types `["Knowledge & Skills"]`; the description is the first `min(len, 200)` characters of the metadata description followed by `...`, so at most 203 characters |
| Recommender.DescriptionBound | src/llm_engine.py:68 | a formatted description has at most 203 characters and always ends in `...` |
| Recommender.FormatAll | src/llm_engine.py:62-71 | one record per document, record `i` formatted from document `i` |
| Recommender.FormatResults | src/llm_engine.py:62-71 | the formatting loop computes exactly `FormatAll` |
| Recommender.Rendered | src/llm_engine.py:78 | `str(test_types)` is `[]` exactly for an empty list |
| Recommender.QuotedList | src/llm_engine.py:78 | the items of `str(test_types)` between the brackets: empty exactly for an empty list, otherwise opening and closing with a quote |
| Recommender.QuotedListContains | src/llm_engine.py:78 | a word without quotes, commas, spaces or brackets occurs among the quoted items exactly when it occurs in one of them |
| Recommender.RenderedContains | src/llm_engine.py:78 | such a word occurs in `str(test_types)` exactly when it occurs in one of the test types |
| Recommender.HasPersonality | src/llm_engine.py:78 | the sort key `"Personality" in str(test_type)` holds exactly when one of the record's test types contains `Personality` |
| Recommender.Triggered | src/llm_engine.py:76 | the trigger `"personality" in query.lower() or "behavior" in query.lower()` never fires on a query shorter than `behavior` |
| Recommender.BritishSpellingDoesNotTrigger | src/llm_engine.py:76 | the query `behaviour` does not trigger the re-ranking: the test is on the American spelling only |
| Recommender.TriggeredAnyCase | src/llm_engine.py:76 | any letter casing of `personality` or `behavior` in the query triggers the re-ranking |
| Recommender.Select | src/llm_engine.py:78 | the selected records all have the requested key value |
| Recommender.Partition | src/llm_engine.py:78 | the re-ranked list has the same length and the same records as its input |
| Recommender.SelectAppend | src/llm_engine.py:78 | selecting from a concatenation selects from each part |
| Recommender.SelectMultiset | src/llm_engine.py:78 | the two selections together hold every record exactly as often as the list |
| Recommender.SelectUniform | src/llm_engine.py:78 | selecting from records that all have one key value keeps all of them for that value and none for the other |
| Recommender.PartitionPermutation | src/llm_engine.py:78 | the re-ranking is a permutation: same length, same multiset of records |
| Recommender.PartitionKeyFirst | src/llm_engine.py:78 | after re-ranking every record with the key precedes every record without it |
| Recommender.PartitionStable | src/llm_engine.py:78 | the re-ranking is stable: each group keeps its relative order |
| Recommender.UnkeyedUnmoved | src/llm_engine.py:78 | a list in which no record has the key is left as it is |
| Recommender.PartitionIdempotent | src/llm_engine.py:78 | re-ranking a re-ranked list changes nothing |
| Recommender.KeyFirstIsPartition | src/llm_engine.py:78 | a list with the key first is its own re-ranking |
| Recommender.PartitionUnique | src/llm_engine.py:78 | any order with the key first that keeps each group's order is the re-ranking, so it is what a stable sort by the key with `reverse=True` produces |
| Recommender.SortPersonalityFirst | src/llm_engine.py:78 | the re-ranking step computes exactly `Partition` |
| Recommender.PartitionExample | src/llm_engine.py:78 | `[A, B, C]` with only A and C keyed becomes `[A, C, B]` |
| Recommender.PersonalityHasKey | src/llm_engine.py:78 | a record whose test types are `["Personality"]` has the key |
| Recommender.KnowledgeLacksPersonality | src/llm_engine.py:70 | the default test type `Knowledge & Skills` does not contain `Personality` |
| Recommender.KnowledgeNotPersonality | src/llm_engine.py:70-78 | a record with the default test types lacks the key |
| Recommender.RecommenderSystem.constructor | src/llm_engine.py:38-44 | the engine records whether the language model is configured |
| Recommender.RecommenderSystem.Recommend | src/llm_engine.py:51-82 | a failed search gives `[]`; otherwise one record per document, so at most 10; search order when the model is off or the query does not trigger; the stable re-ranking of the formatted records otherwise |
| Pipeline.CatalogIngests | src/crawler.py:61-69 | ingesting the crawler's saved catalog succeeds, one document per record (src/ingestion.py:19-29 reads the keys the crawler always writes) |
| Pipeline.SingleTypeKeepsOrder | src/llm_engine.py:78 | records whose single test type does not mention `Personality` keep search order under re-ranking |
| Pipeline.CrawledResultsKeepOrder | src/crawler.py:68 | search hits over crawled items, whose test types are always `["Knowledge & Skills"]`, are never reordered by the personality re-ranking |

## Left out

- Evaluate.Ratio: Python's float quotient (`evaluate.py:26`) is modelled as the exact real; for list lengths, rounding changes neither 0, 1, the [0, 1] bounds nor the order of two recalls over the same ground truth.
- Browser automation: navigation, cookie banner, scrolling, waits and button clicks (`src/crawler.py:14-37, 81-105`). Each pass is an input: the cards in view, each an optional link and its inner text, and whether a button was clicked.
- The JSON dump of the crawler and the JSON load of ingestion (`src/crawler.py:116-128`, `src/ingestion.py:16-17`). The data-file check is a boolean input.
- Embeddings, FAISS index building and persistence, and the similarity search itself (`src/ingestion.py:31-38`, `src/llm_engine.py:17-35, 56`). The search outcome is an input to `Recommend`, assumed to hold at most `k = 10` documents as requested.
- The Gemini client and API-key lookup (`src/llm_engine.py:37-49`). Only their outcome, the boolean `has_llm`, is modelled.
- `run_evaluation`, `api.py`, `frontend.py`, `run.py` and `generate_submission.py`: CSV, HTTP, UI and process plumbing.
- Recommender.Format: `int(...)` on the duration is not modelled; the duration is taken to be an integer already.
- Recommender.Format: a JSON `null` description (`None[:200]` raises) and non-list test types are not modelled. Catalog items have typed, optional keys.
- Recommender.HasPersonality: `str(list)` is modelled with single quotes and no escaping. Escaping only inserts backslashes and escape letters, which cannot create or break an occurrence of `Personality`.
- Recommender.RecommenderSystem.Recommend: the `try`/`except` around the re-ranking is not modelled, because the modelled key cannot raise.
- Crawler.CollectView: the bare `except: continue` around each card is not modelled, because the modelled card operations cannot raise.
- Text.Lower: only ASCII letters are lower-cased; Python's full Unicode case mapping is not modelled.
- Text.IsSpace: Python's whitespace set is written out per character; no Unicode database is consulted.
- Crawler.Run: the source loop can run forever while clicks keep succeeding without new records. The model consumes a finite sequence of passes and reports `OutOfPasses` when they run out. `ScrapeCatalog` then saves what it has, as the source does after any exit.
- Recommender.SortPersonalityFirst: it builds a new sequence rather than sorting the list in place; the list is local to `recommend`, so no alias can observe the difference.
- The model follows the code as written on three points that are easy to misread:
  - `...` is appended to every description, short ones included (`src/llm_engine.py:68`);
  - a missing url becomes `""` (`src/llm_engine.py:66`);
  - `recommend` has no invalid-query error, so an empty query is searched like any other (`src/llm_engine.py:51-56`).

## Findings

| source | as written | input that shows it | evidently intended | confidence | as-written member | corrected member |
|---|---|---|---|---|---|---|
| evaluate.py:22-26 | `len(hits) / len(ground_truth)` divides distinct matched slugs by the number of ground-truth urls, repeats included | ground truth `[a/java-test/, b/java-test/]` predicted exactly: recall 0.5 | recall in [0, 1] that is 1 whenever every ground-truth url is matched | not executed | Evaluate.RecallUndercountsRepeatedSlugs | Evaluate.IntendedRecallAtK |
