/** Sentence sentiment (ml/pipeline/sentiment_topics.py): the label chosen from a
    model's scores, the keyword-based fallback scorer, the batched scoring loop of
    `run_sentiment`, and the review-level `aggregate_sentiment`. Scores are integers
    standing for hundredths of a probability. */
module Sentiment {
  import opened Wrappers
  import opened Seqs
  import opened Text

  /** One `{"label": ..., "score": ...}` entry of a model's output for one text. */
  datatype ScoreItem = ScoreItem(name: string, score: int)

  /** The keys of `{item["label"].lower(): item["score"] for item in scores}`,
      in dictionary (first-insertion) order. */
  function ScoreKeys(items: seq<ScoreItem>): seq<string> {
    Dedupe(seq(|items|, i requires 0 <= i < |items| => Lower(items[i].name)))
  }

  function ScorePairs(items: seq<ScoreItem>): seq<(string, int)> {
    seq(|items|, i requires 0 <= i < |items| => (Lower(items[i].name), items[i].score))
  }

  /** The values of that dictionary: a later item for the same label overrides. */
  function ScoreValues(items: seq<ScoreItem>): (m: map<string, int>)
    ensures forall k :: k in ScoreKeys(items) ==> k in m
  {
    var m := LastWins(ScorePairs(items));
    assert forall k :: k in ScoreKeys(items) ==> HasKey(ScorePairs(items), k) by {
      forall k | k in ScoreKeys(items) ensures HasKey(ScorePairs(items), k) {
        var lowered := seq(|items|, i requires 0 <= i < |items| => Lower(items[i].name));
        var i :| 0 <= i < |lowered| && lowered[i] == k;
        assert ScorePairs(items)[i].0 == k;
      }
    }
    m
  }

  /** `max(keys, key=values.get)`: the index of the first key of maximal value. */
  function ArgMaxIndex(keys: seq<string>, values: map<string, int>): (i: nat)
    requires |keys| > 0
    requires forall k :: k in keys ==> k in values
    ensures i < |keys|
    ensures forall j :: 0 <= j < |keys| ==> values[keys[j]] <= values[keys[i]]
    ensures forall j :: 0 <= j < i ==> values[keys[j]] < values[keys[i]]
  {
    if |keys| == 1 then 0
    else
      var front := keys[..|keys| - 1];
      assert forall k :: k in front ==> k in keys;
      var m := ArgMaxIndex(front, values);
      assert keys[m] == front[m];
      if values[keys[|keys| - 1]] > values[keys[m]] then |keys| - 1 else m
  }

  /** The label of lines 297-298: the first label with the highest score; `None` where
      `max` raises on an empty score list. */
  function PickLabel(items: seq<ScoreItem>): (r: Option<string>)
    ensures r.None? <==> items == []
  {
    if items == [] then None
    else
      var keys := ScoreKeys(items);
      assert Lower(items[0].name) in keys by {
        var lowered := seq(|items|, i requires 0 <= i < |items| => Lower(items[i].name));
        assert lowered[0] in lowered;
      }
      var values := ScoreValues(items);
      Some(keys[ArgMaxIndex(keys, values)])
  }

  /** The picked label is one of the lowered labels, no label scores higher, and every
      label before it in dictionary order scores strictly lower. */
  lemma PickLabelIsFirstMax(items: seq<ScoreItem>)
    requires items != []
    ensures var r := PickLabel(items).value;
      && r in ScoreKeys(items)
      && (forall k :: k in ScoreKeys(items) ==> ScoreValues(items)[k] <= ScoreValues(items)[r])
      && (forall j :: 0 <= j < FirstIndex(ScoreKeys(items), r) ==>
            ScoreValues(items)[ScoreKeys(items)[j]] < ScoreValues(items)[r])
  {
    var keys := ScoreKeys(items);
    var i := ArgMaxIndex(keys, ScoreValues(items));
    assert FirstIndex(keys, keys[i]) == i;
  }

  /** The three sentiment labels are different lower-case strings. */
  lemma LabelFacts()
    ensures "negative" != "positive" && "negative" != "neutral" && "neutral" != "positive"
    ensures Lower("negative") == "negative" && Lower("neutral") == "neutral"
    ensures Lower("positive") == "positive"
  {
    assert "negative"[0] != "positive"[0];
    assert |"negative"| != |"neutral"|;
    assert "neutral"[1] != "positive"[1];
    LowerIsLowerCase("negative");
    LowerIsLowerCase("neutral");
    LowerIsLowerCase("positive");
  }

  /** Ties go to the label that comes first. */
  lemma PickLabelTie()
    ensures PickLabel([ScoreItem("negative", 50), ScoreItem("positive", 50)]) == Some("negative")
  {
    var items := [ScoreItem("negative", 50), ScoreItem("positive", 50)];
    var lowered := seq(|items|, i requires 0 <= i < |items| => Lower(items[i].name));
    assert lowered == ["negative", "positive"] by { LabelFacts(); }
    assert Distinct(lowered) by { LabelFacts(); }
    DedupeOfDistinct(lowered);
    var keys := ScoreKeys(items);
    assert keys == ["negative", "positive"];
    var pairs := ScorePairs(items);
    assert pairs == [("negative", 50), ("positive", 50)] by { LabelFacts(); }
    assert pairs[1].0 != pairs[0].0 by { LabelFacts(); }
    LastWinsValue(pairs, 0);
    LastWinsValue(pairs, 1);
    assert FirstIndex(keys, keys[1]) == 1 by { DistinctFirstIndex(keys, 1); }
    PickLabelIsFirstMax(items);
    var r := PickLabel(items).value;
    assert r == "negative";
  }

  // ---- Rule-based fallback scorer (lines 227-263) ----

  const PositiveKeywords: seq<string> := ["love", "great", "amazing", "good"]
  const NegativeKeywords: seq<string> := ["hate", "bad", "terrible", "crash"]

  /** `any(tok in text for tok in keywords)`. */
  predicate AnyKeyword(text: string, keywords: seq<string>) {
    exists k :: k in keywords && Contains(text, k)
  }

  /** +1 for a positive keyword, -1 for a negative one (both may apply). */
  function KeywordScore(text: string): int {
    var lowered := Lower(text);
    (if AnyKeyword(lowered, PositiveKeywords) then 1 else 0) -
    (if AnyKeyword(lowered, NegativeKeywords) then 1 else 0)
  }

  /** Scores for "negative", "neutral" and "positive", in that order. */
  function Triple(negative: int, neutral: int, positive: int): seq<ScoreItem> {
    [ScoreItem("negative", negative), ScoreItem("neutral", neutral), ScoreItem("positive", positive)]
  }

  /** The fixed score triple for one text. */
  function RuleBasedScores(text: string): seq<ScoreItem> {
    var score := KeywordScore(text);
    if score > 0 then Triple(5, 15, 80)
    else if score < 0 then Triple(80, 15, 5)
    else Triple(20, 60, 20)
  }

  /** `_RuleBased.__call__`: one score triple per text, in order. */
  method RuleBased(texts: seq<string>) returns (results: seq<seq<ScoreItem>>)
    ensures |results| == |texts|
    ensures forall i :: 0 <= i < |texts| ==> results[i] == RuleBasedScores(texts[i])
  {
    results := [];
    var i := 0;
    while i < |texts|
      invariant 0 <= i <= |texts|
      invariant |results| == i
      invariant forall j :: 0 <= j < i ==> results[j] == RuleBasedScores(texts[j])
    {
      results := results + [RuleBasedScores(texts[i])];
      i := i + 1;
    }
  }

  /** The three labels of a triple are its keys, each with its own score. */
  lemma TripleScores(negative: int, neutral: int, positive: int)
    ensures ScoreKeys(Triple(negative, neutral, positive)) == ["negative", "neutral", "positive"]
    ensures var m := ScoreValues(Triple(negative, neutral, positive));
      m["negative"] == negative && m["neutral"] == neutral && m["positive"] == positive
  {
    var items := Triple(negative, neutral, positive);
    var lowered := seq(|items|, i requires 0 <= i < |items| => Lower(items[i].name));
    assert lowered == ["negative", "neutral", "positive"] by { LabelFacts(); }
    assert Distinct(lowered) by { LabelFacts(); }
    DedupeOfDistinct(lowered);
    var pairs := ScorePairs(items);
    assert pairs == [("negative", negative), ("neutral", neutral), ("positive", positive)] by {
      LabelFacts();
    }
    assert ScoreValues(items) == LastWins(pairs);
    assert forall j :: 0 < j < 3 ==> pairs[j].0 != pairs[0].0 by { LabelFacts(); }
    assert pairs[2].0 != pairs[1].0 by { LabelFacts(); }
    LastWinsValue(pairs, 0);
    LastWinsValue(pairs, 1);
    LastWinsValue(pairs, 2);
  }

  /** A triple with a single highest score picks that score's label. */
  lemma TriplePick(negative: int, neutral: int, positive: int)
    ensures positive > negative && positive > neutral ==>
      PickLabel(Triple(negative, neutral, positive)) == Some("positive")
    ensures negative > neutral && negative > positive ==>
      PickLabel(Triple(negative, neutral, positive)) == Some("negative")
    ensures neutral > negative && neutral > positive ==>
      PickLabel(Triple(negative, neutral, positive)) == Some("neutral")
  {
    LabelFacts();
    TripleScores(negative, neutral, positive);
    PickLabelIsFirstMax(Triple(negative, neutral, positive));
  }

  /** The label the argmax picks from a fallback triple: "positive" when only positive
      keywords occur, "negative" when only negative ones do, "neutral" otherwise. */
  lemma RuleBasedLabel(text: string)
    ensures var lowered := Lower(text);
      var pos := AnyKeyword(lowered, PositiveKeywords);
      var neg := AnyKeyword(lowered, NegativeKeywords);
      PickLabel(RuleBasedScores(text)) ==
        Some(if pos && !neg then "positive" else if neg && !pos then "negative" else "neutral")
  {
    var lowered := Lower(text);
    var pos := AnyKeyword(lowered, PositiveKeywords);
    var neg := AnyKeyword(lowered, NegativeKeywords);
    assert KeywordScore(text) == (if pos then 1 else 0) - (if neg then 1 else 0);
    if pos && !neg {
      TriplePick(5, 15, 80);
    } else if neg && !pos {
      TriplePick(80, 15, 5);
    } else {
      TriplePick(20, 60, 20);
    }
  }

  /** Each fallback triple is a distribution: three scores in [0, 100] summing to 100. */
  lemma RuleBasedScoresAreDistribution(text: string)
    ensures var s := RuleBasedScores(text);
      |s| == 3 && s[0].score + s[1].score + s[2].score == 100 &&
      forall i :: 0 <= i < 3 ==> 0 <= s[i].score <= 100
  {
    var s := RuleBasedScores(text);
    if KeywordScore(text) > 0 {
      assert s == Triple(5, 15, 80);
    } else if KeywordScore(text) < 0 {
      assert s == Triple(80, 15, 5);
    } else {
      assert s == Triple(20, 60, 20);
    }
  }

  // ---- The batch loop of run_sentiment ----

  datatype SentimentRow = SentimentRow(index: nat, sentiment: string, positive: int, negative: int, neutral: int)

  datatype SentimentError =
    | MissingSentenceColumn   // ValueError: no 'sentence' column
    | ZeroBatchSize           // ValueError from range() with step 0
    | NoScores(index: nat)    // ValueError from max() on an empty score list
    | NoOutputs               // KeyError from set_index("index") on an empty frame

  /** `score_map.get(label, 0.0)`. */
  function ScoreOf(items: seq<ScoreItem>, key: string): int {
    var m := ScoreValues(items);
    if key in m then m[key] else 0
  }

  /** The output row for the sentence at position `index`. */
  function ScoreRow(index: nat, items: seq<ScoreItem>): Result<SentimentRow, SentimentError> {
    match PickLabel(items)
    case None => Failure(NoScores(index))
    case Some(sentiment) =>
      Success(SentimentRow(index, sentiment, ScoreOf(items, "positive"),
                           ScoreOf(items, "negative"), ScoreOf(items, "neutral")))
  }

  /** The step that turns the score list of the sentence at a position into its row;
      `run_sentiment` uses `ScoreRow`. */
  type Scorer = (nat, seq<ScoreItem>) -> Result<SentimentRow, SentimentError>

  /** A scorer that yields the row for every non-empty score list, carrying the position. */
  ghost predicate Indexed(score: Scorer) {
    forall i: nat, items: seq<ScoreItem> {:trigger score(i, items)} ::
      items != [] ==> score(i, items).Success? && score(i, items).value.index == i
  }

  lemma ScoreRowIndexed()
    ensures Indexed(ScoreRow)
  {
  }

  /** `outputs ++ r`, keeping a failure. */
  function Prepend(outputs: seq<SentimentRow>, r: Result<seq<SentimentRow>, SentimentError>):
    Result<seq<SentimentRow>, SentimentError>
  {
    match r
    case Failure(e) => Failure(e)
    case Success(rows) => Success(outputs + rows)
  }

  /** `rows ++ [row]`, keeping the first failure. */
  function Extend(rows: Result<seq<SentimentRow>, SentimentError>, row: Result<SentimentRow, SentimentError>):
    Result<seq<SentimentRow>, SentimentError>
  {
    if rows.Failure? then rows
    else if row.Failure? then Failure(row.error)
    else Success(rows.value + [row.value])
  }

  /** The rows of one batch starting at `offset`: one per (sentence, prediction) pair
      as `zip` forms them, stopping at the first empty score list. */
  function BatchRows(offset: nat, predictions: seq<seq<ScoreItem>>, score: Scorer):
    Result<seq<SentimentRow>, SentimentError>
  {
    if predictions == [] then Success([])
    else
      var k := |predictions| - 1;
      Extend(BatchRows(offset, predictions[..k], score), score(offset + k, predictions[k]))
  }

  /** The sentences of the batch at `start`: `sentences.iloc[start : start + batch_size]`. */
  function Batch(sentences: seq<string>, start: nat, batchSize: nat): seq<string>
    requires start < |sentences| && batchSize > 0
  {
    sentences[start..if start + batchSize < |sentences| then start + batchSize else |sentences|]
  }

  /** The rows of the batches from offset `start` on. */
  function RowsFrom(sentences: seq<string>, start: nat, batchSize: nat,
                    pipe: seq<string> -> seq<seq<ScoreItem>>, score: Scorer): Result<seq<SentimentRow>, SentimentError>
    requires batchSize > 0
    decreases |sentences| - start
  {
    if start >= |sentences| then Success([])
    else
      var texts := Batch(sentences, start, batchSize);
      match BatchRows(start, Take(pipe(texts), |texts|), score)
      case Failure(e) => Failure(e)
      case Success(rows) => Prepend(rows, RowsFrom(sentences, start + batchSize, batchSize, pipe, score))
  }

  /** What `run_sentiment` returns, or the error it raises. */
  function SentimentResult(columns: set<string>, sentences: seq<string>, batchSize: int,
                           pipe: seq<string> -> seq<seq<ScoreItem>>): Result<seq<SentimentRow>, SentimentError>
  {
    if "sentence" !in columns then Failure(MissingSentenceColumn)
    else if batchSize == 0 then Failure(ZeroBatchSize)
    else if batchSize < 0 then Failure(NoOutputs)
    else
      match RowsFrom(sentences, 0, batchSize, pipe, ScoreRow)
      case Failure(e) => Failure(e)
      case Success(rows) => if rows == [] then Failure(NoOutputs) else Success(rows)
  }

  lemma BatchRowsStep(start: nat, predictions: seq<seq<ScoreItem>>, k: nat, score: Scorer)
    requires k < |predictions|
    ensures BatchRows(start, predictions[..k + 1], score) ==
      Extend(BatchRows(start, predictions[..k], score), score(start + k, predictions[k]))
  {
    assert predictions[..k + 1][..k] == predictions[..k];
  }

  /** The zip loop over one batch. */
  method ScoreBatch(start: nat, predictions: seq<seq<ScoreItem>>, score: Scorer)
    returns (r: Result<seq<SentimentRow>, SentimentError>)
    ensures r == BatchRows(start, predictions, score)
  {
    var rows: seq<SentimentRow> := [];
    var k := 0;
    while k < |predictions|
      invariant 0 <= k <= |predictions|
      invariant BatchRows(start, predictions[..k], score) == Success(rows)
    {
      BatchRowsStep(start, predictions, k, score);
      var row := score(start + k, predictions[k]);
      if row.Failure? {
        BatchRowsPrefixFailure(start, predictions, k + 1, score);
        return Failure(row.error);
      }
      rows := rows + [row.value];
      k := k + 1;
    }
    assert predictions[..k] == predictions;
    return Success(rows);
  }

  lemma {:induction false} BatchRowsPrefixFailure(start: nat, predictions: seq<seq<ScoreItem>>, k: nat,
                                                  score: Scorer)
    requires k <= |predictions|
    requires BatchRows(start, predictions[..k], score).Failure?
    ensures BatchRows(start, predictions, score) == BatchRows(start, predictions[..k], score)
    decreases |predictions| - k
  {
    if k < |predictions| {
      BatchRowsStep(start, predictions, k, score);
      BatchRowsPrefixFailure(start, predictions, k + 1, score);
    } else {
      assert predictions[..k] == predictions;
    }
  }

  /** The batch loop of `run_sentiment`: `iloc` slices of `batch_size` sentences from
      offset 0, each scored and appended in order; an error ends the loop. */
  method ScoreAll(sentences: seq<string>, batchSize: nat, pipe: seq<string> -> seq<seq<ScoreItem>>, score: Scorer)
    returns (r: Result<seq<SentimentRow>, SentimentError>)
    requires batchSize > 0
    ensures r == RowsFrom(sentences, 0, batchSize, pipe, score)
  {
    var outputs: seq<SentimentRow> := [];
    var start: nat := 0;
    ghost var total := RowsFrom(sentences, 0, batchSize, pipe, score);
    PrependEmpty(total);
    while start < |sentences|
      invariant total == Prepend(outputs, RowsFrom(sentences, start, batchSize, pipe, score))
      decreases |sentences| - start
    {
      var texts := Batch(sentences, start, batchSize);
      var predictions := pipe(texts);
      var batch := ScoreBatch(start, Take(predictions, |texts|), score);
      if batch.Failure? {
        FailedBatch(total, sentences, start, batchSize, pipe, score, outputs);
        return Failure(batch.error);
      }
      Advance(total, sentences, start, batchSize, pipe, score, outputs, batch.value);
      outputs := outputs + batch.value;
      start := start + batchSize;
    }
    RowsFromDone(sentences, start, batchSize, pipe, score);
    assert outputs + [] == outputs;
    return Success(outputs);
  }

  lemma Advance(total: Result<seq<SentimentRow>, SentimentError>, sentences: seq<string>, start: nat, batchSize: nat,
                pipe: seq<string> -> seq<seq<ScoreItem>>, score: Scorer, outputs: seq<SentimentRow>, rows: seq<SentimentRow>)
    requires batchSize > 0 && start < |sentences|
    requires total == Prepend(outputs, RowsFrom(sentences, start, batchSize, pipe, score))
    requires var texts := Batch(sentences, start, batchSize);
      BatchRows(start, Take(pipe(texts), |texts|), score) == Success(rows)
    ensures total == Prepend(outputs + rows, RowsFrom(sentences, start + batchSize, batchSize, pipe, score))
  {
    RowsFromStep(sentences, start, batchSize, pipe, score);
    PrependTwice(outputs, rows, RowsFrom(sentences, start + batchSize, batchSize, pipe, score));
  }

  lemma FailedBatch(total: Result<seq<SentimentRow>, SentimentError>, sentences: seq<string>, start: nat, batchSize: nat,
                    pipe: seq<string> -> seq<seq<ScoreItem>>, score: Scorer, outputs: seq<SentimentRow>)
    requires batchSize > 0 && start < |sentences|
    requires total == Prepend(outputs, RowsFrom(sentences, start, batchSize, pipe, score))
    requires var texts := Batch(sentences, start, batchSize);
      BatchRows(start, Take(pipe(texts), |texts|), score).Failure?
    ensures var texts := Batch(sentences, start, batchSize);
      total == BatchRows(start, Take(pipe(texts), |texts|), score)
  {
    RowsFromStep(sentences, start, batchSize, pipe, score);
  }

  /** `run_sentiment`: the argument checks, the batch loop, and `set_index("index")`,
      which fails on a frame with no rows. */
  method RunSentiment(columns: set<string>, sentences: seq<string>, batchSize: int,
                      pipe: seq<string> -> seq<seq<ScoreItem>>)
    returns (r: Result<seq<SentimentRow>, SentimentError>)
    ensures r == SentimentResult(columns, sentences, batchSize, pipe)
  {
    if "sentence" !in columns {
      return Failure(MissingSentenceColumn);
    }
    if batchSize == 0 {
      return Failure(ZeroBatchSize);
    }
    if batchSize < 0 {
      return Failure(NoOutputs);
    }
    r := ScoreAll(sentences, batchSize, pipe, ScoreRow);
    if r.Success? && r.value == [] {
      r := Failure(NoOutputs);
    }
  }

  lemma PrependEmpty(r: Result<seq<SentimentRow>, SentimentError>)
    ensures Prepend([], r) == r
  {
    if r.Success? {
      assert [] + r.value == r.value;
    }
  }

  lemma RowsFromDone(sentences: seq<string>, start: nat, batchSize: nat,
                     pipe: seq<string> -> seq<seq<ScoreItem>>, score: Scorer)
    requires batchSize > 0 && start >= |sentences|
    ensures RowsFrom(sentences, start, batchSize, pipe, score) == Success([])
  {
  }

  lemma RowsFromStep(sentences: seq<string>, start: nat, batchSize: nat,
                     pipe: seq<string> -> seq<seq<ScoreItem>>, score: Scorer)
    requires batchSize > 0 && start < |sentences|
    ensures var texts := Batch(sentences, start, batchSize);
      var batch := BatchRows(start, Take(pipe(texts), |texts|), score);
      RowsFrom(sentences, start, batchSize, pipe, score) ==
        if batch.Failure? then Failure(batch.error)
        else Prepend(batch.value, RowsFrom(sentences, start + batchSize, batchSize, pipe, score))
  {
  }

  lemma PrependTwice(a: seq<SentimentRow>, b: seq<SentimentRow>, r: Result<seq<SentimentRow>, SentimentError>)
    ensures Prepend(a, Prepend(b, r)) == Prepend(a + b, r)
  {
    if r.Success? {
      assert a + (b + r.value) == (a + b) + r.value;
    }
  }

  /** The score list the model gives the sentence at position `i` when the batches are
      cut from offset `start`: its entry in the predictions for the batch that holds
      it; a position the model gave no prediction for reads as an empty list. */
  function ScoresAt(sentences: seq<string>, start: nat, batchSize: nat,
                    pipe: seq<string> -> seq<seq<ScoreItem>>, i: nat): seq<ScoreItem>
    requires batchSize > 0 && start <= i < |sentences|
    decreases i - start
  {
    if i < start + batchSize then
      var preds := pipe(Batch(sentences, start, batchSize));
      if i - start < |preds| then preds[i - start] else []
    else ScoresAt(sentences, start + batchSize, batchSize, pipe, i)
  }

  /** A model that returns one non-empty score list per text leaves no sentence
      without one. */
  lemma {:induction false} ScoresAtNonEmpty(sentences: seq<string>, start: nat, batchSize: nat,
                                            pipe: seq<string> -> seq<seq<ScoreItem>>, i: nat)
    requires batchSize > 0 && start <= i < |sentences|
    requires forall t :: |pipe(t)| == |t|
    requires forall t, k :: 0 <= k < |pipe(t)| ==> pipe(t)[k] != []
    ensures ScoresAt(sentences, start, batchSize, pipe, i) != []
    decreases i - start
  {
    if i >= start + batchSize {
      ScoresAtNonEmpty(sentences, start + batchSize, batchSize, pipe, i);
    } else {
      assert |pipe(Batch(sentences, start, batchSize))| == |Batch(sentences, start, batchSize)|;
    }
  }

  /** When the model returns one non-empty score list per text, every sentence gets
      exactly one row, in order: the row `ScoreRow` makes of that sentence's own score
      list, so its index is its position, its label the first label with the highest
      score in that list, and its three scores that list's values. */
  lemma SentimentResultComplete(columns: set<string>, sentences: seq<string>, batchSize: int,
                                pipe: seq<string> -> seq<seq<ScoreItem>>)
    requires "sentence" in columns && batchSize > 0 && sentences != []
    requires forall t :: |pipe(t)| == |t|
    requires forall t, k :: 0 <= k < |pipe(t)| ==> pipe(t)[k] != []
    ensures SentimentResult(columns, sentences, batchSize, pipe).Success?
    ensures var rows := SentimentResult(columns, sentences, batchSize, pipe).value;
      |rows| == |sentences| &&
      forall k :: 0 <= k < |rows| ==>
        var items := ScoresAt(sentences, 0, batchSize, pipe, k);
        && ScoreRow(k, items) == Success(rows[k])
        && rows[k].index == k
        && PickLabel(items) == Some(rows[k].sentiment)
        && rows[k].positive == ScoreOf(items, "positive")
        && rows[k].negative == ScoreOf(items, "negative")
        && rows[k].neutral == ScoreOf(items, "neutral")
  {
    ScoreRowIndexed();
    RowsFromComplete(sentences, 0, batchSize, pipe, ScoreRow);
  }

  lemma {:induction false} RowsFromComplete(sentences: seq<string>, start: nat, batchSize: nat,
                                            pipe: seq<string> -> seq<seq<ScoreItem>>, score: Scorer)
    requires batchSize > 0 && start <= |sentences| && Indexed(score)
    requires forall t :: |pipe(t)| == |t|
    requires forall t, k :: 0 <= k < |pipe(t)| ==> pipe(t)[k] != []
    ensures RowsFrom(sentences, start, batchSize, pipe, score).Success?
    ensures var rows := RowsFrom(sentences, start, batchSize, pipe, score).value;
      |rows| == |sentences| - start &&
      forall k :: 0 <= k < |rows| ==>
        rows[k].index == start + k &&
        score(start + k, ScoresAt(sentences, start, batchSize, pipe, start + k)) == Success(rows[k])
    decreases |sentences| - start
  {
    if start < |sentences| {
      var texts := Batch(sentences, start, batchSize);
      var preds := Take(pipe(texts), |texts|);
      assert preds == pipe(texts);
      BatchRowsComplete(start, preds, score);
      var next := if start + batchSize < |sentences| then start + batchSize else |sentences|;
      RowsFromComplete(sentences, next, batchSize, pipe, score);
      if start + batchSize >= |sentences| {
        assert RowsFrom(sentences, start + batchSize, batchSize, pipe, score) == Success([]);
      }
      var first := BatchRows(start, preds, score).value;
      var rest := RowsFrom(sentences, start + batchSize, batchSize, pipe, score).value;
      RowsFromJoin(sentences, start, batchSize, pipe, score, first, rest);
    }
  }

  /** The rows from `start` are the first batch's rows followed by the later batches'. */
  lemma RowsFromJoin(sentences: seq<string>, start: nat, batchSize: nat,
                     pipe: seq<string> -> seq<seq<ScoreItem>>, score: Scorer,
                     first: seq<SentimentRow>, rest: seq<SentimentRow>)
    requires batchSize > 0 && start < |sentences|
    requires var texts := Batch(sentences, start, batchSize);
      |pipe(texts)| == |texts| && BatchRows(start, pipe(texts), score) == Success(first)
    requires |first| == |Batch(sentences, start, batchSize)|
    requires forall k :: 0 <= k < |first| ==>
      first[k].index == start + k &&
      score(start + k, pipe(Batch(sentences, start, batchSize))[k]) == Success(first[k])
    requires RowsFrom(sentences, start + batchSize, batchSize, pipe, score) == Success(rest)
    requires |rest| == |sentences| - (start + |first|)
    requires forall k :: 0 <= k < |rest| ==>
      rest[k].index == start + |first| + k && start + batchSize + k < |sentences| &&
      score(start + |first| + k, ScoresAt(sentences, start + batchSize, batchSize, pipe, start + |first| + k)) ==
        Success(rest[k])
    ensures RowsFrom(sentences, start, batchSize, pipe, score) == Success(first + rest)
    ensures forall k :: 0 <= k < |first + rest| ==>
      (first + rest)[k].index == start + k &&
      score(start + k, ScoresAt(sentences, start, batchSize, pipe, start + k)) == Success((first + rest)[k])
  {
    var texts := Batch(sentences, start, batchSize);
    assert Take(pipe(texts), |texts|) == pipe(texts);
    var rows := first + rest;
    forall k | 0 <= k < |rows|
      ensures rows[k].index == start + k &&
        score(start + k, ScoresAt(sentences, start, batchSize, pipe, start + k)) == Success(rows[k])
    {
      if k < |first| {
        assert rows[k] == first[k];
        assert ScoresAt(sentences, start, batchSize, pipe, start + k) == pipe(texts)[k];
      } else {
        assert rows[k] == rest[k - |first|];
        assert ScoresAt(sentences, start, batchSize, pipe, start + k) ==
               ScoresAt(sentences, start + batchSize, batchSize, pipe, start + k);
      }
    }
  }

  lemma {:induction false} BatchRowsComplete(start: nat, predictions: seq<seq<ScoreItem>>,
                                             score: Scorer)
    requires Indexed(score)
    requires forall k :: 0 <= k < |predictions| ==> predictions[k] != []
    ensures BatchRows(start, predictions, score).Success?
    ensures var rows := BatchRows(start, predictions, score).value;
      |rows| == |predictions| &&
      forall k :: 0 <= k < |rows| ==>
        rows[k].index == start + k && score(start + k, predictions[k]) == Success(rows[k])
    decreases |predictions|
  {
    if predictions != [] {
      var front := predictions[..|predictions| - 1];
      BatchRowsComplete(start, front, score);
      var rows := BatchRows(start, predictions, score).value;
      forall k | 0 <= k < |rows| ensures score(start + k, predictions[k]) == Success(rows[k]) {
        if k < |front| {
          assert predictions[k] == front[k];
        }
      }
    }
  }

  // ---- Review-level aggregation (lines 312-328) ----

  /** `aggregate_sentiment`: neutral sentences do not count; "mixed" when the positive
      share of the polar sentences lies in [0.4, 0.6] (tested exactly by integer
      cross-multiplication); the score is (pos - neg) / (pos + neg). */
  function AggregateSentiment(labels: seq<string>): (r: (string, real))
    ensures var pos, neg := Count(labels, "positive"), Count(labels, "negative");
      && (pos + neg == 0 ==> r == ("neutral", 0.0))
      && (pos + neg > 0 ==> r.1 == (pos - neg) as real / (pos + neg) as real)
      && (pos + neg > 0 ==> (r.0 == "mixed" <==> 2 * (pos + neg) <= 5 * pos <= 3 * (pos + neg)))
      && (pos + neg > 0 ==> (r.0 == "positive" <==> 5 * pos > 3 * (pos + neg)))
      && (pos + neg > 0 ==> (r.0 == "negative" <==> 5 * pos < 2 * (pos + neg)))
    ensures -1.0 <= r.1 <= 1.0
  {
    var pos := Count(labels, "positive");
    var neg := Count(labels, "negative");
    var total := pos + neg;
    if total == 0 then ("neutral", 0.0)
    else
      var verdict := if 2 * total <= 5 * pos <= 3 * total then "mixed"
                   else if 5 * pos > 3 * total then "positive"
                   else "negative";
      UnitRatio((pos - neg) as real, total as real);
      (verdict, (pos - neg) as real / total as real)
  }

  lemma UnitRatio(x: real, t: real)
    requires t > 0.0 && -t <= x <= t
    ensures -1.0 <= x / t <= 1.0
  {
    var q := x / t;
    assert q * t == x;
    ProductSign(q - 1.0, t);
    ProductSign(q + 1.0, t);
  }

  /** Multiplying by a positive number keeps the sign. */
  lemma ProductSign(a: real, b: real)
    requires b > 0.0
    ensures a >= 0.0 <==> a * b >= 0.0
    ensures a > 0.0 <==> a * b > 0.0
  {
  }

  /** Cross-multiplied thresholds against the ratio p / t. */
  lemma RatioThresholds(p: int, t: int)
    requires t > 0
    ensures 0.4 <= p as real / t as real <==> 2 * t <= 5 * p
    ensures p as real / t as real <= 0.6 <==> 5 * p <= 3 * t
  {
    var q := p as real / t as real;
    var tr := t as real;
    assert q * tr == p as real;
    ProductSign(q - 0.4, tr);
    ProductSign(0.6 - q, tr);
  }

  /** The integer tests are the ratio thresholds of the source, read exactly:
      "mixed" iff 0.4 <= pos/total <= 0.6, "positive" iff the ratio exceeds 0.6. */
  lemma AggregateMatchesRatio(labels: seq<string>)
    requires Count(labels, "positive") + Count(labels, "negative") > 0
    ensures var pos := Count(labels, "positive") as real;
      var ratio := pos / (Count(labels, "positive") + Count(labels, "negative")) as real;
      var verdict := AggregateSentiment(labels).0;
      && (verdict == "mixed" <==> 0.4 <= ratio <= 0.6)
      && (verdict == "positive" <==> ratio > 0.6)
      && (verdict == "negative" <==> ratio < 0.4)
  {
    RatioThresholds(Count(labels, "positive"), Count(labels, "positive") + Count(labels, "negative"));
  }

  /** The score (p - n) / t lies above 0.2, below -0.2 or within [-0.2, 0.2] exactly as
      5 (p - n) lies above t, below -t or within [-t, t]. */
  lemma ScoreThresholds(d: int, t: int)
    requires t > 0
    ensures 5 * d > t ==> d as real / t as real > 0.2
    ensures 5 * d < -t ==> d as real / t as real < -0.2
    ensures -t <= 5 * d <= t ==> -0.2 <= d as real / t as real <= 0.2
  {
    var q := d as real / t as real;
    var tr := t as real;
    assert q * tr == d as real;
    ProductSign(q - 0.2, tr);
    ProductSign(q + 0.2, tr);
  }

  /** The score agrees with the label: above 0.2 for "positive", below -0.2 for
      "negative", within [-0.2, 0.2] for "mixed", exactly 0 for "neutral". */
  lemma AggregateScoreMatchesLabel(labels: seq<string>)
    ensures var (verdict, score) := AggregateSentiment(labels);
      && (verdict == "positive" ==> score > 0.2)
      && (verdict == "negative" ==> score < -0.2)
      && (verdict == "mixed" ==> -0.2 <= score <= 0.2)
      && (verdict == "neutral" ==> score == 0.0)
  {
    var p: int := Count(labels, "positive");
    var n: int := Count(labels, "negative");
    if p + n > 0 {
      ScoreThresholds(p - n, p + n);
    }
  }

  /** Only the multiset of labels matters, not their order. */
  lemma AggregateOrderInsensitive(a: seq<string>, b: seq<string>)
    requires multiset(a) == multiset(b)
    ensures AggregateSentiment(a) == AggregateSentiment(b)
  {
    CountIsMultiplicity(a, "positive");
    CountIsMultiplicity(b, "positive");
    CountIsMultiplicity(a, "negative");
    CountIsMultiplicity(b, "negative");
  }

  /** The test suite's review: two positive and two negative sentences. */
  lemma AggregateMixedSample()
    ensures AggregateSentiment(["positive", "negative", "positive", "negative"]) == ("mixed", 0.0)
  {
    var s := ["positive", "negative", "positive", "negative"];
    var s1, s2, s3 := ["positive"], ["positive", "negative"], ["positive", "negative", "positive"];
    assert s1[..0] == [] && s2[..1] == s1 && s3[..2] == s2 && s[..3] == s3;
    assert Count(s1, "positive") == 1 && Count(s1, "negative") == 0;
    assert Count(s2, "positive") == 1 && Count(s2, "negative") == 1;
    assert Count(s3, "positive") == 2 && Count(s3, "negative") == 1;
    assert Count(s, "positive") == 2 && Count(s, "negative") == 2;
  }
}
