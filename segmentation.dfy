/** Splitting reviews into per-sentence rows (ml/pipeline/sentiment_topics.py,
    `split_sentences`). The language model's sentence segmenter is an oracle that
    maps a resolved language and a text to the texts of its sentence spans. */
module Segmentation {
  import opened Wrappers
  import opened Seqs
  import opened Text
  import opened Language

  /** The columns of one review row that segmentation reads; `text` is the cell of the
      chosen text column (`None` for Python's None). */
  datatype Review = Review(
    id: string, appName: string, country: string, text: Option<string>,
    detectedLanguage: string, rating: Option<int>, reviewDate: Option<string>)

  datatype SentenceRow = SentenceRow(
    id: string, appName: string, country: string, language: string,
    resolvedLanguage: string, sentenceIndex: nat, sentence: string,
    rating: Option<int>, reviewDate: Option<string>)

  /** `lang_resolution.get(lang, _resolve_language(lang, DEFAULT_COUNTRY_LANGUAGE_MAP))`. */
  function ResolvedFor(lang: string, langResolution: map<string, string>): string {
    if lang in langResolution then langResolution[lang]
    else ResolveLanguage(Some(lang), DefaultCountryLanguageMap)
  }

  /** `str(review[text_column] or "").strip()`. */
  function ReviewText(review: Review): string {
    Strip(OrEmpty(review.text))
  }

  predicate AllBlank(spans: seq<string>) {
    forall s :: s in spans ==> Blank(s)
  }

  /** `idx` lists, in increasing order, the spans whose stripped texts make up `r`,
      and every span it leaves out is blank. */
  ghost predicate PicksStrippedSpans(r: seq<string>, spans: seq<string>, idx: seq<nat>) {
    && |idx| == |r|
    && (forall k :: 0 <= k < |idx| ==> idx[k] < |spans| && r[k] == Strip(spans[idx[k]]))
    && (forall k, l :: 0 <= k < l < |idx| ==> idx[k] < idx[l])
    && (forall j :: 0 <= j < |spans| && j !in idx ==> Blank(spans[j]))
  }

  /** No span survives exactly when every span is blank. */
  lemma KeptSpansEmpty(spans: seq<string>)
    ensures AllBlank(spans) <==> Filter(StripAll(spans), NonEmptyText) == []
  {
    var stripped := StripAll(spans);
    var kept := Filter(stripped, NonEmptyText);
    if AllBlank(spans) {
      forall s | s in stripped ensures !NonEmptyText(s) {
        var i :| 0 <= i < |stripped| && stripped[i] == s;
        assert spans[i] in spans;
      }
      FilterNone(stripped, NonEmptyText);
    } else {
      var s :| s in spans && !Blank(s);
      var i :| 0 <= i < |spans| && spans[i] == s;
      assert stripped[i] != "";
      assert stripped[i] in stripped;
      assert stripped[i] in kept;
    }
  }

  /** Every surviving span is trimmed and non-empty. */
  lemma KeptSpansTrimmed(spans: seq<string>)
    ensures forall s :: s in Filter(StripAll(spans), NonEmptyText) ==> s != "" && Trimmed(s)
  {
    var stripped := StripAll(spans);
    forall s | s in Filter(stripped, NonEmptyText) ensures s != "" && Trimmed(s) {
      var i :| 0 <= i < |stripped| && stripped[i] == s;
    }
  }

  /** The surviving spans are picked from the spans in order. */
  lemma KeptSpansPicked(spans: seq<string>)
    ensures PicksStrippedSpans(Filter(StripAll(spans), NonEmptyText), spans,
                               KeptPositions(StripAll(spans), NonEmptyText))
  {
    var stripped := StripAll(spans);
    var kept := Filter(stripped, NonEmptyText);
    var idx := KeptPositions(stripped, NonEmptyText);
    KeptPositionsPick(stripped, NonEmptyText);
    KeptPositionsIncrease(stripped, NonEmptyText);
    KeptPositionsRejectRest(stripped, NonEmptyText);
    forall k | 0 <= k < |idx| ensures idx[k] < |spans| && kept[k] == Strip(spans[idx[k]]) {
      assert kept[k] == stripped[idx[k]];
    }
    forall j | 0 <= j < |spans| && j !in idx ensures Blank(spans[j]) {
      assert !NonEmptyText(stripped[j]);
    }
  }

  /** The trimmed texts of the non-blank spans, in span order, or the whole text when
      there are none. */
  function SentenceTexts(text: string, spans: seq<string>): (r: seq<string>)
    requires text != "" && Trimmed(text)
    ensures r != []
    ensures forall s :: s in r ==> s != "" && Trimmed(s)
    ensures AllBlank(spans) ==> r == [text]
    ensures !AllBlank(spans) ==> exists idx :: PicksStrippedSpans(r, spans, idx)
  {
    var kept := Filter(StripAll(spans), NonEmptyText);
    assert AllBlank(spans) <==> kept == [] by {
      KeptSpansEmpty(spans);
    }
    assert forall s :: s in kept ==> s != "" && Trimmed(s) by {
      KeptSpansTrimmed(spans);
    }
    assert PicksStrippedSpans(kept, spans, KeptPositions(StripAll(spans), NonEmptyText)) by {
      KeptSpansPicked(spans);
    }
    if kept == [] then [text] else kept
  }

  /** One row per sentence, numbered from 0 in order. */
  function NumberedRows(review: Review, resolved: string, sentences: seq<string>): seq<SentenceRow> {
    seq(|sentences|, k requires 0 <= k < |sentences| =>
      SentenceRow(review.id, review.appName, review.country, review.detectedLanguage,
                  resolved, k, sentences[k], review.rating, review.reviewDate))
  }

  /** The rows one review contributes: none for blank text, otherwise one per sentence. */
  function ReviewRows(review: Review, langResolution: map<string, string>,
                      segment: (string, string) -> seq<string>): seq<SentenceRow>
  {
    var text := ReviewText(review);
    if text == "" then []
    else
      var resolved := ResolvedFor(review.detectedLanguage, langResolution);
      NumberedRows(review, resolved, SentenceTexts(text, segment(resolved, text)))
  }

  /** All rows, review by review in input order. */
  function AllRows(reviews: seq<Review>, langResolution: map<string, string>,
                   segment: (string, string) -> seq<string>): seq<SentenceRow>
  {
    if reviews == [] then []
    else AllRows(reviews[..|reviews| - 1], langResolution, segment) +
         ReviewRows(reviews[|reviews| - 1], langResolution, segment)
  }

  /** The columns `split_sentences` requires that the table lacks. */
  function MissingColumns(columns: set<string>, textColumn: string): set<string> {
    {"id", "app_name", "country", textColumn, "detected_language"} - columns
  }

  /** The inner loop of `split_sentences`: append one row per sentence. */
  method AppendNumberedRows(rows: seq<SentenceRow>, review: Review, resolved: string,
                            sentences: seq<string>)
    returns (r: seq<SentenceRow>)
    ensures r == rows + NumberedRows(review, resolved, sentences)
  {
    ghost var target := NumberedRows(review, resolved, sentences);
    r := rows;
    var idx := 0;
    while idx < |sentences|
      invariant 0 <= idx <= |sentences|
      invariant r == rows + target[..idx]
    {
      var row := SentenceRow(review.id, review.appName, review.country,
                             review.detectedLanguage, resolved, idx, sentences[idx],
                             review.rating, review.reviewDate);
      assert target[idx] == row;
      assert target[..idx + 1] == target[..idx] + [row];
      r := r + [row];
      idx := idx + 1;
    }
    assert target[..idx] == target;
  }

  /** The body of the review loop of `split_sentences`: resolve the language, strip
      the text, skip a blank review, segment and append the numbered rows. */
  method AppendReviewRows(rows: seq<SentenceRow>, review: Review,
                          langResolution: map<string, string>,
                          segment: (string, string) -> seq<string>)
    returns (r: seq<SentenceRow>)
    ensures r == rows + ReviewRows(review, langResolution, segment)
  {
    var resolved := ResolvedFor(review.detectedLanguage, langResolution);
    var text := ReviewText(review);
    if text == "" {
      return rows;
    }
    var sentences := SentenceTexts(text, segment(resolved, text));
    r := AppendNumberedRows(rows, review, resolved, sentences);
  }

  lemma AllRowsSnoc(reviews: seq<Review>, i: nat, langResolution: map<string, string>,
                    segment: (string, string) -> seq<string>)
    requires i < |reviews|
    ensures AllRows(reviews[..i + 1], langResolution, segment) ==
      AllRows(reviews[..i], langResolution, segment) + ReviewRows(reviews[i], langResolution, segment)
  {
    assert reviews[..i + 1][..i] == reviews[..i];
  }

  method SplitSentences(columns: set<string>, textColumn: string, reviews: seq<Review>,
                        langResolution: map<string, string>,
                        segment: (string, string) -> seq<string>)
    returns (r: Result<seq<SentenceRow>, set<string>>)
    ensures MissingColumns(columns, textColumn) != {} ==>
      r == Failure(MissingColumns(columns, textColumn))
    ensures MissingColumns(columns, textColumn) == {} ==>
      r == Success(AllRows(reviews, langResolution, segment))
  {
    var missing := MissingColumns(columns, textColumn);
    if missing != {} {
      return Failure(missing);
    }
    var rows: seq<SentenceRow> := [];
    var i := 0;
    while i < |reviews|
      invariant 0 <= i <= |reviews|
      invariant rows == AllRows(reviews[..i], langResolution, segment)
    {
      AllRowsSnoc(reviews, i, langResolution, segment);
      rows := AppendReviewRows(rows, reviews[i], langResolution, segment);
      i := i + 1;
    }
    assert reviews[..|reviews|] == reviews;
    return Success(rows);
  }

  /** What one review contributes: nothing for blank text; otherwise one row per entry
      of `SentenceTexts` (the stripped non-blank spans in span order), numbered 0..k-1,
      each a trimmed non-empty sentence carrying the review's fields and its resolved
      language, and the whole text when the segmenter finds no non-blank span. */
  lemma ReviewRowsProperties(review: Review, langResolution: map<string, string>,
                             segment: (string, string) -> seq<string>)
    ensures var rows := ReviewRows(review, langResolution, segment);
      && (Blank(OrEmpty(review.text)) <==> rows == [])
      && (forall k :: 0 <= k < |rows| ==>
            rows[k].sentenceIndex == k && rows[k].sentence != "" && Trimmed(rows[k].sentence) &&
            rows[k].id == review.id && rows[k].language == review.detectedLanguage)
      && (!Blank(OrEmpty(review.text)) &&
          AllBlank(segment(ResolvedFor(review.detectedLanguage, langResolution), ReviewText(review)))
          ==> |rows| == 1 && rows[0].sentence == ReviewText(review))
      && (!Blank(OrEmpty(review.text)) ==>
          var resolved := ResolvedFor(review.detectedLanguage, langResolution);
          var sentences := SentenceTexts(ReviewText(review), segment(resolved, ReviewText(review)));
          |rows| == |sentences| &&
          forall k :: 0 <= k < |rows| ==>
            rows[k].sentence == sentences[k] && rows[k].resolvedLanguage == resolved)
  {
    var text := ReviewText(review);
    assert Blank(OrEmpty(review.text)) <==> text == "";
    if text != "" {
      var resolved := ResolvedFor(review.detectedLanguage, langResolution);
      var sentences := SentenceTexts(text, segment(resolved, text));
      ReviewRowsOfText(review, langResolution, segment);
      NumberedRowsFields(review, resolved, sentences);
    }
  }

  lemma NumberedRowsFields(review: Review, resolved: string, sentences: seq<string>)
    ensures var rows := NumberedRows(review, resolved, sentences);
      && |rows| == |sentences|
      && forall k :: 0 <= k < |rows| ==>
           rows[k].sentenceIndex == k && rows[k].sentence == sentences[k] &&
           rows[k].resolvedLanguage == resolved &&
           rows[k].id == review.id && rows[k].language == review.detectedLanguage
  {
  }

  /** Every row of a review with non-blank text holds a trimmed, non-empty sentence. */
  lemma ReviewRowsOfText(review: Review, langResolution: map<string, string>,
                         segment: (string, string) -> seq<string>)
    requires ReviewText(review) != ""
    ensures var rows := ReviewRows(review, langResolution, segment);
      forall k :: 0 <= k < |rows| ==> rows[k].sentence != "" && Trimmed(rows[k].sentence)
  {
    var text := ReviewText(review);
    var resolved := ResolvedFor(review.detectedLanguage, langResolution);
    var sentences := SentenceTexts(text, segment(resolved, text));
    var rows := ReviewRows(review, langResolution, segment);
    assert rows == NumberedRows(review, resolved, sentences);
    NumberedRowsFields(review, resolved, sentences);
    forall k | 0 <= k < |rows| ensures rows[k].sentence != "" && Trimmed(rows[k].sentence) {
      assert sentences[k] in sentences;
    }
  }

  /** Every output row carries a trimmed, non-empty sentence. */
  lemma {:induction false} AllRowsNonEmptySentences(reviews: seq<Review>,
                                                     langResolution: map<string, string>,
                                                     segment: (string, string) -> seq<string>)
    ensures forall row :: row in AllRows(reviews, langResolution, segment) ==>
      row.sentence != "" && Trimmed(row.sentence)
    decreases |reviews|
  {
    if reviews != [] {
      var last := reviews[|reviews| - 1];
      AllRowsNonEmptySentences(reviews[..|reviews| - 1], langResolution, segment);
      var rows := ReviewRows(last, langResolution, segment);
      if ReviewText(last) != "" {
        ReviewRowsOfText(last, langResolution, segment);
      }
      forall row | row in rows ensures row.sentence != "" && Trimmed(row.sentence) {
        var k :| 0 <= k < |rows| && rows[k] == row;
      }
    }
  }
}
