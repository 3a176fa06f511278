# App-store review pipeline: annotation, cleaning and upload logic in Dafny

This project models the deterministic core of an app-store review analytics
pipeline and proves properties of it. The pipeline has three stages:

- **Cleaning** (`scripts/02_process_reviews.py`):
  - picks the review-text column of a raw table;
  - parses the app and country from the raw file name;
  - skips reviews that are already stored remotely, using a per-cohort ID cache with a kill switch;
  - records a status for each file.
- **Annotation** (`ml/pipeline/sentiment_topics.py`):
  - resolves each review's language;
  - splits reviews into sentences;
  - labels every sentence's sentiment, either with a model or with a keyword fallback;
  - aggregates the labels per review;
  - extracts topics, either with KeyBERT or with an n-gram frequency fallback;
  - merges the topics per review;
  - writes a one-paragraph summary for NotebookLM.
- **Upload** (`scripts/03_upload_to_supabase.py`):
  - chooses the processed files to upload from the latest run summary;
  - skips files marked as having no new reviews;
  - sends each file's records in batches of 300, stopping at the first rejected batch.

One Dafny module per concern:

| file | module | models |
|---|---|---|
| wrappers.dfy | `Wrappers` | `Option`, `Result` |
| seqs.dfy | `Seqs` | `Flatten`, `Filter`, first-occurrence `Dedupe`, `Take`, `Chunks`, `Count`, `Join`, `LastWins` (a dict built from pairs) |
| text.dfy | `Text` | ASCII `lower`/`upper`/`strip`, `str.split()`, `re.findall(r"\w+")`, splitting on a character class, substring test |
| language.dfy | `Language` | the language tables, `_resolve_language`, `detect_languages` |
| segmentation.dfy | `Segmentation` | `split_sentences` |
| sentiment.dfy | `Sentiment` | the rule-based scorer, the label argmax, the batch loop of `run_sentiment`, `aggregate_sentiment` |
| topics.dfy | `Topics` | stopwords, `_normalize_topic`, `_simple_topic_fallback` with `Counter.most_common`, `extract_topics`, `merge_topics`, `build_details` |
| summary.dfy | `Summary` | the topic phrase and example sentences of `make_notebook_sentence` |
| process_reviews.dfy | `ProcessReviews` | `find_text_column`, `extract_app_country`, `fetch_existing_ids` (class `IncrementalCache`), the ID filter, the file status rule |
| upload.dfy | `Upload` | `_describe_entry`, `determine_target_files`, the skip rule of `main`, the batch loop of `upload_csv` |

The Python code's loops are Dafny methods with `while` loops. Each method is proved equal to a
specification function (`MergeTopics` computes `MergedTopics`, for example), and lemmas state
what the source promises about those functions. `fetch_existing_ids` mutates module-level state;
it becomes the class `IncrementalCache`, whose fields are the ID cache and the
`incremental_enabled` switch. Pure Python code becomes Dafny functions.

Foreign calls become function-typed parameters (oracles):

- the spaCy sentence segmenter;
- the `langdetect` detector;
- the sentiment pipeline;
- KeyBERT;
- the library stopword tables;
- `langcodes` display names;
- the remote ID lookup;
- the file-existence test;
- the batch upsert.

An oracle that can raise returns `Option`, with `None` standing for the exception.

Notable behaviours of the code that the model keeps and proves:

- **Language resolution.**
  - "ca" resolves to "ca", because it has a spaCy model, even though the country map says "en".
  - "se" resolves to "sv" through the country map.
  - "mx" resolves to "es" through the fallback chain.
- **Label ties.** The label argmax keeps the first label, in dictionary order, among those with the highest score.
- **`merge_topics` with `limit <= 0`.** Both `break` checks run after every topic and after every sentence, inserted or not, and `len(merged) >= limit` already holds. So the function keeps at most the first topic of the first sentence.
- **Text-column fallback.** The raw pattern `[_\\s]` in `find_text_column` is a character class of underscore, backslash and the letter `s`. So a column `bodys` splits into `body` and an empty piece, and is chosen.
- **Column name collisions.** When two columns lowercase to the same name, the later one wins.

## Model

| member | source | states |
|---|---|---|
| Language.FirstSupported | ml/pipeline/sentiment_topics.py:82-85 | the chosen fallback is in the chain and has a model; `None` exactly when no chain entry has one |
| Language.ResolveLanguage | ml/pipeline/sentiment_topics.py:73-88 | total; the result is a two-letter code or a value of the country map, and is never empty when no map value is empty |
| Language.ResolveSupported | ml/pipeline/sentiment_topics.py:73-78 | every code with a spaCy model comes back unchanged, whatever the country map |
| Language.ResolveUnknownTwoLetter | ml/pipeline/sentiment_topics.py:73-87 | a two-letter code with no model, no country mapping and no fallback chain comes back lowercased but otherwise verbatim |
| Language.ResolveUnknownLonger | ml/pipeline/sentiment_topics.py:73-88 | a code of any other length with no model, no country mapping and no fallback chain gives "en" |
| Language.ResolveWithDefaultMap | ml/pipeline/sentiment_topics.py:73-88 | with the default country map the result is always two letters, and is either a language with a model or the lowercased input |
| Language.ResolveVerbatim | ml/pipeline/sentiment_topics.py:73-88 | with the default country map the input comes back verbatim (lowercased) exactly when it has a model or is a two-letter code that no table knows; so "de" gives "de", while "us", "se", "gb" and "mx" become other languages |
| Language.ResolveIdempotent | ml/pipeline/sentiment_topics.py:73-88 | resolving a resolved code again gives the same code |
| Language.ResolveExamples | ml/pipeline/sentiment_topics.py:38-88 | None and "" give "en"; "ca" gives "ca" despite the country map; "se" gives "sv"; "mx" gives "es" |
| Language.DetectRow | ml/pipeline/sentiment_topics.py:102-116 | a non-blank string `language` cell wins, stripped and lowercased; otherwise a lowercased country in the map gives its mapped language; otherwise blank text gives "en"; otherwise the detector's answer, or "en" when it raises |
| Language.DetectLanguages | ml/pipeline/sentiment_topics.py:91-119 | an empty table is an error (the `ValueError`); otherwise there is exactly one code per row, in row order, using the given map or the default one when the given map is absent or empty |
| Language.DetectorOnlyAsLastResort | ml/pipeline/sentiment_topics.py:102-116 | with an explicit language, a mapped country or blank text, the result is independent of the detector |
| Language.DetectRowNonEmpty | ml/pipeline/sentiment_topics.py:102-116 | the detected code is never empty when the map values and the detector's answers are non-empty |
| Language.DetectSampleRows | tests/test_sentiment_topics.py:15-38 | the two sample rows give `["it", "en"]` whatever the detector answers |
| Segmentation.SentenceTexts | ml/pipeline/sentiment_topics.py:186-188 | the sentences are trimmed, non-empty and there is at least one; if every span is blank, the whole text is the only sentence; otherwise they are the stripped spans at strictly increasing positions, and every span left out is blank |
| Segmentation.AppendNumberedRows | ml/pipeline/sentiment_topics.py:189-202 | appends one row per sentence, numbered from 0 in span order and carrying the review's fields |
| Segmentation.AppendReviewRows | ml/pipeline/sentiment_topics.py:179-202 | appends exactly the rows one review contributes: none for blank text |
| Segmentation.SplitSentences | ml/pipeline/sentiment_topics.py:163-203 | fails with the set of missing required columns; otherwise returns every review's rows in review order |
| Segmentation.ReviewRowsProperties | ml/pipeline/sentiment_topics.py:179-202 | a review yields no rows exactly when its text is blank; `sentence_index` runs 0..k-1; every sentence is trimmed and non-empty; with no non-blank span, the single row is the whole stripped text; row k holds the k-th entry of `SentenceTexts` and the resolved language |
| Segmentation.AllRowsNonEmptySentences | ml/pipeline/sentiment_topics.py:178-203 | every output row of the whole table carries a trimmed, non-empty sentence |
| Sentiment.ScoreValues | ml/pipeline/sentiment_topics.py:297 | every lowercased label of the score list has a value in the score map |
| Sentiment.ArgMaxIndex | ml/pipeline/sentiment_topics.py:298 | the chosen key has the highest score, and every earlier key scores strictly less (first key wins on ties) |
| Sentiment.PickLabel | ml/pipeline/sentiment_topics.py:297-298 | there is no label exactly when the score list is empty (the `ValueError` of `max`) |
| Sentiment.PickLabelIsFirstMax | ml/pipeline/sentiment_topics.py:297-298 | the label is a key of the score map with the maximal score, and every key inserted before it scores strictly less |
| Sentiment.PickLabelTie | ml/pipeline/sentiment_topics.py:297-298 | a tie between "negative" and "positive" goes to the first key, "negative" |
| Sentiment.RuleBased | ml/pipeline/sentiment_topics.py:227-263 | one score triple per text, in order, chosen by the keyword score |
| Sentiment.TripleScores | ml/pipeline/sentiment_topics.py:239-262 | a fixed triple yields the keys negative, neutral, positive in that order, each mapped to its own score |
| Sentiment.TriplePick | ml/pipeline/sentiment_topics.py:239-262 | the label of a triple is its strictly largest score's label |
| Sentiment.RuleBasedLabel | ml/pipeline/sentiment_topics.py:233-262 | the fallback labels a text "positive" when only a positive keyword occurs (case-insensitively), "negative" when only a negative one does, and "neutral" otherwise |
| Sentiment.RuleBasedScoresAreDistribution | ml/pipeline/sentiment_topics.py:239-262 | every fallback triple has three scores in 0..100 that sum to 100 |
| Sentiment.ScoreRowIndexed | ml/pipeline/sentiment_topics.py:296-307 | every non-empty score list yields a row carrying its sentence's position |
| Sentiment.ScoreBatch | ml/pipeline/sentiment_topics.py:296-307 | the per-batch loop builds the batch's rows, stopping at the first empty score list |
| Sentiment.ScoreAll | ml/pipeline/sentiment_topics.py:288-307 | the batch loop over offsets 0, b, 2b, ... concatenates the rows of every batch |
| Sentiment.RunSentiment | ml/pipeline/sentiment_topics.py:270-309 | computes `run_sentiment`'s rows or its error: a missing `sentence` column, a zero batch size, an empty score list, or no rows at all (the `set_index` failure) |
| Sentiment.SentimentResultComplete | ml/pipeline/sentiment_topics.py:288-309 | with a pipeline that answers each text with a non-empty score list, the result has one row per sentence, indexed 0..n-1 in order; row k is the row of sentence k's own score list (`ScoresAt`): its label is the first label with the highest score there, and its positive, negative and neutral scores are that list's values |
| Sentiment.RowsFromComplete | ml/pipeline/sentiment_topics.py:289-307 | the batches from an offset on give one row per remaining sentence, with consecutive indices, each scored from that sentence's entry in its batch's predictions |
| Sentiment.BatchRowsComplete | ml/pipeline/sentiment_topics.py:296-307 | a batch of non-empty score lists gives one row per prediction, with consecutive indices, row k scored from prediction k |
| Sentiment.AggregateSentiment | ml/pipeline/sentiment_topics.py:312-328 | counts only "positive" and "negative"; none gives ("neutral", 0.0); otherwise score = (pos-neg)/total in [-1, 1], and the label is "mixed", "positive" or "negative" by the ratio thresholds, each as an if-and-only-if |
| Sentiment.RatioThresholds | ml/pipeline/sentiment_topics.py:321-326 | `0.4 <= p/t` and `p/t <= 0.6` are equivalent to the integer cross-multiplications the model uses |
| Sentiment.AggregateMatchesRatio | ml/pipeline/sentiment_topics.py:320-326 | the label is "mixed" exactly when 0.4 <= pos/total <= 0.6 (both ends inclusive), "positive" exactly above, "negative" exactly below |
| Sentiment.ScoreThresholds | ml/pipeline/sentiment_topics.py:327 | the score's position relative to ±0.2 follows from the integer comparison of 5·(pos-neg) with total |
| Sentiment.AggregateScoreMatchesLabel | ml/pipeline/sentiment_topics.py:318-327 | a "positive" review scores above 0.2, a "negative" one below -0.2, a "mixed" one within [-0.2, 0.2], a "neutral" one exactly 0 |
| Sentiment.AggregateOrderInsensitive | ml/pipeline/sentiment_topics.py:315-316 | the aggregate depends only on the multiset of labels |
| Sentiment.AggregateMixedSample | tests/test_sentiment_topics.py:41-44 | [pos, neg, pos, neg] gives ("mixed", 0.0) |
| Topics.LanguageStopwords | ml/pipeline/sentiment_topics.py:331-362 | the stopwords always include the six domain words |
| Topics.LanguageStopwordsDefaults | ml/pipeline/sentiment_topics.py:332-362 | a missing or empty language means English in any case; a language with a table (en, fr, de, it, es, sv, in any case) that loads gets that table joined with the domain words; a language without a table, or whose table fails to load, has only the domain words |
| Topics.Clean | ml/pipeline/sentiment_topics.py:366-368 | after cleaning, every character is whitespace or a lowercase word character |
| Topics.TopicTokens | ml/pipeline/sentiment_topics.py:369 | the surviving tokens are non-empty, contain no stopword, and consist of lowercase word characters |
| Topics.NormalizeTopicProperties | ml/pipeline/sentiment_topics.py:365-372 | `None` exactly when no token survives; otherwise a non-empty phrase whose space-separated words are exactly the surviving tokens, none a stopword |
| Topics.NormalizeIdempotent | ml/pipeline/sentiment_topics.py:365-372 | normalising a normalised topic gives it back |
| Topics.DedupeNormalized | ml/pipeline/sentiment_topics.py:442-450 | the `seen`-set loop computes the first occurrences of the present normalised phrases |
| Topics.KeywordTopicsMembers | ml/pipeline/sentiment_topics.py:442-450 | a sentence's KeyBERT topics are duplicate-free, and a phrase is among them exactly when it is the normalisation of some returned phrase |
| Topics.KeywordTopicsNoStopwords | ml/pipeline/sentiment_topics.py:445-449 | no word of a KeyBERT topic is a stopword |
| Topics.KeywordTopicsNonEmpty | ml/pipeline/sentiment_topics.py:446-449 | no KeyBERT topic is empty |
| Topics.AppendNGramsOfSize | ml/pipeline/sentiment_topics.py:382-384 | the inner loop appends the n-grams of one size, left to right |
| Topics.CollectNGrams | ml/pipeline/sentiment_topics.py:380-384 | the nested loops produce all n-grams, smaller sizes first |
| Topics.NGramShape | ml/pipeline/sentiment_topics.py:381-384 | every n-gram is `n` consecutive tokens joined by spaces, with `min_n <= n <= max_n` |
| Topics.NGramsNonEmpty | ml/pipeline/sentiment_topics.py:381-384 | with sizes from 1 up and non-empty tokens, no n-gram is empty |
| Topics.TopK | ml/pipeline/sentiment_topics.py:385-386 | `most_common(k)` has min(k, #candidates) entries, all candidates |
| Topics.TopKDistinct | ml/pipeline/sentiment_topics.py:385-386 | the selection has no duplicates |
| Topics.TopKOrdered | ml/pipeline/sentiment_topics.py:385-386 | selected entries appear by descending count, ties in first-occurrence order |
| Topics.TopKAboveRest | ml/pipeline/sentiment_topics.py:385-386 | every selected entry ranks before every unselected candidate |
| Topics.MostCommonRanked | ml/pipeline/sentiment_topics.py:385-386 | `Counter(ngrams).most_common(k)` keeps min(k, #distinct) distinct n-grams, ordered by count with ties by first occurrence, each ranking above every n-gram left out |
| Topics.FallbackTopicsProperties | ml/pipeline/sentiment_topics.py:378-386 | at most 3 distinct, non-empty n-grams of the sentence; with `min_n >= 1` exactly `most_common(3)` |
| Topics.FallbackFor | ml/pipeline/sentiment_topics.py:378-387 | the per-sentence body computes that sentence's fallback topics |
| Topics.SimpleTopicFallback | ml/pipeline/sentiment_topics.py:375-388 | one topic list per sentence, in order, each the sentence's fallback topics |
| Topics.TopicsFor | ml/pipeline/sentiment_topics.py:428-456 | a blank sentence gets `[]`; a KeyBERT answer gets its deduplicated normalised phrases; a KeyBERT failure gets the fallback on the stripped text |
| Topics.KeyBertTopics | ml/pipeline/sentiment_topics.py:427-457 | one topic list per sentence, in order, when KeyBERT is loaded |
| Topics.ExtractTopics | ml/pipeline/sentiment_topics.py:408-457 | uses the language's stopwords, and the plain fallback when KeyBERT cannot be loaded |
| Topics.SentenceTopicsProperties | ml/pipeline/sentiment_topics.py:428-456 | a sentence's topics are distinct and non-empty; a blank sentence has none; a KeyBERT failure gives at most 3 |
| Topics.ExtractedTopicsProperties | ml/pipeline/sentiment_topics.py:408-457 | exactly one list per sentence; each list is duplicate-free with non-empty topics; without KeyBERT each list has at most 3 |
| Topics.MergeSentence | ml/pipeline/sentiment_topics.py:465-469 | the inner loop adds new non-empty topics until the limit is reached |
| Topics.MergeTopics | ml/pipeline/sentiment_topics.py:460-472 | the nested loop with both early breaks returns the first `limit` first occurrences of the non-empty topics in sentence-then-topic order (for `limit <= 0`, at most the first topic) |
| Topics.MergedTopicsProperties | ml/pipeline/sentiment_topics.py:460-472 | the result is duplicate-free, holds only non-empty topics of some sentence, and has at most `limit` entries |
| Topics.MergedTopicsKeepsAll | ml/pipeline/sentiment_topics.py:463-472 | when the distinct topics fit within the limit, every non-empty topic is kept |
| Topics.MergeIdempotent | ml/pipeline/sentiment_topics.py:460-472 | merging a merged list again with the same limit gives it back |
| Topics.MergeExample | tests/test_sentiment_topics.py:47-49 | [["ui","bugs"],["bugs","chat issues"],["latency"]] with limit 2 gives ["ui","bugs"] |
| Topics.BuildDetails | ml/pipeline/sentiment_topics.py:475-491 | one entry per position of the shortest input, holding that position's sentence, sentiment and topics |
| Summary.SplitTopicsPieces | ml/pipeline/sentiment_topics.py:503-504 | topics read from a string are non-empty, trimmed and free of ";" |
| Summary.TopicPhraseProperties | ml/pipeline/sentiment_topics.py:502-505 | no topics render as "various aspects"; otherwise the topics joined by "; ", which the `split(";")`-and-strip reading turns back into the same list when each topic is trimmed, non-empty and free of ";" |
| Summary.TopicPhraseExample | ml/pipeline/sentiment_topics.py:502-505 | ["ui", "bugs"] renders as "ui; bugs" and a missing cell as "various aspects" |
| Summary.TopicStringRoundTrip | ml/pipeline/sentiment_topics.py:569-571 | a topic list written as a ";"-joined string reads back as the same list, so it renders the same topic phrase |
| Summary.FirstWith | ml/pipeline/sentiment_topics.py:522-533 | the chosen detail is the first one with the sentiment; `None` exactly when no detail has it |
| Summary.ExamplesProperties | ml/pipeline/sentiment_topics.py:522-542 | one tagged example per sentiment present, in the order positive, negative, neutral; the examples text is empty exactly when none is present, is the only example when one is, and otherwise joins the first two present with "; " |
| Summary.ExamplesCapAtTwo | ml/pipeline/sentiment_topics.py:534-542 | with all three sentiments present, the neutral example is dropped |
| Summary.ExamplesNegativeNeutral | ml/pipeline/sentiment_topics.py:534-542 | without a positive detail, the negative example comes before the neutral one |
| Summary.ExamplesPositiveNegative | ml/pipeline/sentiment_topics.py:534-542 | with both a positive and a negative detail, the text is the first positive `[POS]` and the first negative `[NEG]` example, and the neutral one is cut by the limit of two |
| Summary.UnparsableDetailsNoExamples | ml/pipeline/sentiment_topics.py:515-520 | details that fail to parse give no examples |
| Summary.Title | ml/pipeline/sentiment_topics.py:546 | `str.title()`: same length and same letters up to case, non-letters unchanged, a letter upper-case at the start of a word and lower-case inside one |
| Summary.TitleWord | ml/pipeline/sentiment_topics.py:546 | a word of letters becomes its first letter in capitals followed by the rest in lower case |
| Summary.TitleIdempotent | ml/pipeline/sentiment_topics.py:546 | title-casing twice is title-casing once |
| Summary.NoExamplesNoSuffix | ml/pipeline/sentiment_topics.py:544-552 | without usable details the summary has no "Example sentences" suffix |
| Summary.TagsShown | ml/pipeline/sentiment_topics.py:541-551 | a positive-and-negative examples text puts both `[POS]` and `[NEG]` in the summary |
| Summary.NotebookSentenceTags | tests/test_sentiment_topics.py:52-70 | a review with a positive and a negative detail has both tags in its summary |
| Summary.SummaryCasing | ml/pipeline/sentiment_topics.py:497-546 | the summary opens with "In ", the upper-cased country (no lower-case letter), ", a ", the title-cased app name (a capital first when it starts with a letter, "User" when the column is absent) and " user wrote in " |
| ProcessReviews.FirstCandidateFound | scripts/02_process_reviews.py:89-92 | the candidate search returns the column of the first candidate, in list order, that names a column; `None` exactly when none does |
| ProcessReviews.FirstFallbackFound | scripts/02_process_reviews.py:94-98 | the fallback returns the first column, in column order, with a fallback token; `None` exactly when no column has one |
| ProcessReviews.FindTextColumnChoosesColumn | scripts/02_process_reviews.py:87-98 | the result is one of the original column names, and is a candidate (case-insensitively) unless it was found by its tokens |
| ProcessReviews.FindTextColumnCandidateOrder | scripts/02_process_reviews.py:87-92 | when some candidate matches, the result is the column for the earliest matching candidate |
| ProcessReviews.FindTextColumnFallback | scripts/02_process_reviews.py:94-98 | with no candidate column, the token fallback decides; `None` exactly when no column has a fallback token |
| ProcessReviews.ContentBeatsCleanedContent | scripts/02_process_reviews.py:43-92 | a "Content" column is chosen over "cleaned_content", and its original case is kept |
| ProcessReviews.LaterDuplicateWins | scripts/02_process_reviews.py:88-92 | of two columns with the same lowercased name, the later one is returned |
| ProcessReviews.FallbackSplitsOnLetterS | scripts/02_process_reviews.py:94-97 | the class `[_\\s]` also splits on the letter s, so a column "bodys" is chosen |
| ProcessReviews.ExtractedCountryIsTwoLowercase | scripts/02_process_reviews.py:79-84 | the country is always two lowercase letters; a stem that does not match the pattern gives ("unknown", "xx") |
| ProcessReviews.ExtractAppCountryRoundTrip | scripts/02_process_reviews.py:56-83 | `app_CC_dddd-dd-dd` with a non-empty app parses back into the app and the lowercased country |
| ProcessReviews.ExtractAppCountrySound | scripts/02_process_reviews.py:56-83 | a matching stem is exactly app + "_" + two letters + "_" + a date, with a non-empty app |
| ProcessReviews.IncrementalCache.constructor | scripts/02_process_reviews.py:62-63 | the cache starts empty with incremental mode enabled |
| ProcessReviews.IncrementalCache.FetchExistingIds | scripts/02_process_reviews.py:118-139 | the returned triple and the new cache and switch are those of one step of the cache state machine |
| ProcessReviews.FetchKillSwitch | scripts/02_process_reviews.py:121-139 | when disabled, a call returns (∅, False, False) and changes nothing; the switch only goes from on to off, and exactly when an uncached lookup fails; incremental mode is reported active exactly when the switch stays on |
| ProcessReviews.FetchCaches | scripts/02_process_reviews.py:126-135 | a successful lookup stores the IDs and returns (ids, False, True); the next call with that key returns the same set with (True, True) whatever the oracle would now say |
| ProcessReviews.FetchAllMonotone | scripts/02_process_reviews.py:118-139 | over any sequence of calls, the switch never turns back on, a disabled run leaves the cache alone, and cached entries are never changed or dropped |
| ProcessReviews.FilterExistingProperties | scripts/02_process_reviews.py:176-181 | the filter applies only when active with a non-empty ID set and an ID column; it then keeps exactly the rows with new IDs, and `skipped_existing` counts the removed rows |
| ProcessReviews.FileStatusCases | scripts/02_process_reviews.py:185-289 | "no_new_reviews" exactly when no rows remain after filtering, after cleaning or at the end; otherwise "new_dataset" exactly when nothing was skipped, "partial_update" exactly when something was |
| Upload.DescribeEntryProperties | scripts/03_upload_to_supabase.py:38-39 | a truthy `processed_file` is returned as is; otherwise the name is the app (default "unknown"), "_", the country (default "xx") and "_clean.csv"; never empty |
| Upload.ProcessedNamesMembers | scripts/03_upload_to_supabase.py:119-123 | the named files are exactly the truthy `processed_file` values, in entry order |
| Upload.StatusByFileLastEntry | scripts/03_upload_to_supabase.py:112-114 | `status_by_file` has a key for every truthy `processed_file`, mapped to the last entry naming it |
| Upload.SortNamedFiles | scripts/03_upload_to_supabase.py:119-128 | the entry loop splits the named files, in entry order, into existing targets and missing files |
| Upload.UniqueFiles | scripts/03_upload_to_supabase.py:132-137 | the `seen` loop keeps the first occurrence of each name, in order |
| Upload.DetermineTargetFiles | scripts/03_upload_to_supabase.py:111-139 | returns the deduplicated targets, `status_by_file` and the missing files |
| Upload.TargetFilesProperties | scripts/03_upload_to_supabase.py:111-139 | the targets are duplicate-free in first-occurrence order; with metadata, each named file is a target if it exists and missing if it does not, and nothing else; without metadata, the targets are the deduplicated listing and nothing is missing |
| Upload.UnskippedFiles | scripts/03_upload_to_supabase.py:171-176 | the target loop passes over the skipped names and keeps the order |
| Upload.SelectUploads | scripts/03_upload_to_supabase.py:149-176 | the files uploaded are the plan computed from the targets and `status_by_file` |
| Upload.UploadPlanProperties | scripts/03_upload_to_supabase.py:157-176 | no targets means no uploads; otherwise a target is uploaded exactly when its entry is not marked "no_new_reviews", once and in target order |
| Seqs.LeadingCount | scripts/03_upload_to_supabase.py:97-106 | the number of leading chunks the upsert accepts: every chunk before it is accepted and the chunk at it, if any, is rejected (also the length of a run of characters in `Text.Runs`) |
| Seqs.ChunksShape | scripts/03_upload_to_supabase.py:97-98 | the slices concatenate back to the records; each is non-empty and at most 300 long, and all but the last are exactly 300 long |
| Upload.SendBatches | scripts/03_upload_to_supabase.py:95-108 | the chunk loop with its early return yields the outcome of sending the slices in order until one is rejected |
| Upload.UploadCsv | scripts/03_upload_to_supabase.py:80-108 | an unreadable or empty file is skipped; otherwise the records go through the chunk loop |
| Upload.UploadResultProperties | scripts/03_upload_to_supabase.py:80-108 | skipped exactly for an unreadable or empty table; full success uploads every record, with every chunk accepted; a failure at batch `offset // 300 + 1` follows accepted earlier chunks, and its total is the sum of their sizes, a proper prefix of the records |

## Left out

- Floating point: model probabilities are integer hundredths (the rule-based triples 5/15/80, 80/15/5, 20/60/20); the aggregate score is an exact `real`.
- Floating point: the `{score:.2f}` formatting and the NaN check of the summary are left out; the formatted score is a parameter.
- Model loading and its global caches are left out, because they are foreign calls: `load_spacy_models`, `_ensure_sentencizer`, `_get_sentiment_pipeline` with its device choice, and `_get_keybert`.
- The segmenter, the sentiment pipeline, KeyBERT (with `top_n`, `diversity` and the n-gram range bound inside it), `langdetect` and `langcodes` are oracle parameters. The model choice `models.get(resolved) or models.get("en") or blank` is part of the segmenter oracle, which receives the resolved language.
- Seeding, `tqdm` and logging are left out, because they do not affect results.
- Text is ASCII only. Unicode case mapping and Unicode whitespace are not modelled, and every non-ASCII character counts as a `\w` word character.
- `_language_stopwords` returns a sorted list; the model uses a set. Only membership affects its callers, and the list order reaches only the KeyBERT oracle.
- `write_csvs` and all file, CSV and JSON I/O are left out. Only the `";".join` of the topic column is modelled, in `Summary.TopicStringRoundTrip`.
- `json.loads` of the details cell is an already-parsed `Option`, with `None` for invalid JSON.
- `make_notebook_sentence` cells are strings or missing; `str()` of other Python values is not modelled. The language name comes from an oracle.
- `run_sentiment` uses the row's position as its index, which assumes the default DataFrame index. The pipeline's prediction list is cut to the batch length, as `zip` does.
- A truthy `country` cell that is not a string (a float NaN, for example) makes `detect_languages` raise `AttributeError` at `.lower()`. The model's country cell is a string or missing, so this error is not modelled.
- `clean_text`, `detect_language_safe` and `infer_source` are left out: they depend on the emoji library and Unicode NFKC normalisation, or on the detector. So are the language filter, date parsing, column selection and the `pct_*` rounding of the main loop of `scripts/02_process_reviews.py`. The file status takes the relevant row counts as inputs instead.
- `extract_app_country` is modelled for ASCII, newline-free stems. The case where `$` matches before a trailing newline, non-ASCII `\d` digits and Unicode case folding are not modelled. `Path.stem` is taken as given.
- `load_latest_run_summary` depends on file modification times; the entries are an input.
- `_normalize_record`, `_normalize_value` and `_to_date_string` are left out; records are an opaque type.
- Entry fields are strings or missing. File names are plain names, so `path.name` equals the metadata name, and file existence is a predicate.
- The printing loops of `main` (missing files, skipped entries) are left out, because they only log.
- The upsert is a function of the chunk: no retries and no partial writes.
- `read_csv` errors (`EmptyDataError`, `OSError`) are one "unreadable" case, with the table as `None`. Its other errors (a `ParserError`, a `UnicodeDecodeError`) escape `upload_csv` and end `main`; they are not modelled.
- `get_client` and credential errors are left out; the remote ID lookup in `get_existing_ids` is an oracle.
- `Upload.UploadResultProperties`: the failure total is stated as 300 × (the number of accepted batches) and proved equal to the sum of their sizes.
