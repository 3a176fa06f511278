/** The NotebookLM summary sentence of a review (ml/pipeline/sentiment_topics.py,
    `make_notebook_sentence`): the topic phrase, the tagged example sentences and the
    text around them. Float formatting and language display names are inputs. */
module Summary {
  import opened Wrappers
  import opened Seqs
  import opened Text
  import opened Topics

  // ---- The topic phrase (lines 502-505) ----

  /** The `topics` cell of a review row: a list, a string, or missing (or falsy). */
  datatype TopicsCell = TopicList(items: seq<string>) | TopicString(text: string) | NoTopics

  /** `[t.strip() for t in text.split(";") if t.strip()]`. */
  function SplitTopics(text: string): seq<string> {
    Filter(StripAll(SplitBy(text, {';'})), NonEmptyText)
  }

  /** The pieces of a `;`-separated topic string are non-empty, trimmed and free of `;`. */
  lemma SplitTopicsPieces(text: string)
    ensures forall t :: t in SplitTopics(text) ==> t != "" && Trimmed(t) && ';' !in t
  {
    var pieces := SplitBy(text, {';'});
    var stripped := StripAll(pieces);
    forall t | t in SplitTopics(text) ensures t != "" && Trimmed(t) && ';' !in t {
      var i :| 0 <= i < |stripped| && stripped[i] == t;
      assert pieces[i] in pieces;
      StripChars(pieces[i]);
    }
  }

  function CellTopics(cell: TopicsCell): seq<string> {
    match cell
    case TopicList(items) => items
    case TopicString(text) => SplitTopics(text)
    case NoTopics => []
  }

  function TopicPhrase(cell: TopicsCell): string {
    var topics := CellTopics(cell);
    if topics == [] then "various aspects" else Join(topics, "; ")
  }

  /** The CSV writer stores a topic list as `";".join(topics)`; reading such a string
      back gives the list again, so both cells render the same phrase. */
  lemma TopicStringRoundTrip(topics: seq<string>)
    requires forall t :: t in topics ==> t != "" && Trimmed(t) && ';' !in t
    ensures CellTopics(TopicString(Join(topics, ";"))) == topics
    ensures TopicPhrase(TopicString(Join(topics, ";"))) == TopicPhrase(TopicList(topics))
  {
    if topics == [] {
      assert SplitBy("", {';'}) == [""];
      assert StripAll([""]) == [""];
    } else {
      SplitByOfJoin(topics, ';');
      assert StripAll(topics) == topics;
      FilterAll(topics, NonEmptyText);
    }
  }

  /** The pieces after the first, each with the space that follows `;` in `"; "`. */
  function Indented(topics: seq<string>): (r: seq<string>)
    ensures |r| == |topics|
    ensures forall i :: 0 <= i < |topics| ==> r[i] == " " + topics[i]
  {
    seq(|topics|, i requires 0 <= i < |topics| => " " + topics[i])
  }

  /** A prefix of the first piece can be taken out of a join. */
  lemma JoinPrefixFirst(d: string, parts: seq<string>, sep: string)
    requires parts != []
    ensures d + Join(parts, sep) == Join([d + parts[0]] + parts[1..], sep)
  {
    var q := [d + parts[0]] + parts[1..];
    assert q[1..] == parts[1..];
  }

  /** Joining with `"; "` is joining the indented pieces with `";"`. */
  lemma {:induction false} JoinSemicolonSpace(topics: seq<string>)
    requires topics != []
    ensures Join(topics, "; ") == Join([topics[0]] + Indented(topics[1..]), ";")
    decreases |topics|
  {
    var q := [topics[0]] + Indented(topics[1..]);
    if |topics| > 1 {
      var tail := topics[1..];
      JoinSemicolonSpace(tail);
      JoinPrefixFirst(" ", [tail[0]] + Indented(tail[1..]), ";");
      assert [" " + tail[0]] + Indented(tail[1..]) == Indented(tail);
      assert q[1..] == Indented(tail);
      assert Join(topics, "; ") == topics[0] + ";" + (" " + Join(tail, "; "));
    }
  }

  /** `" " + t` strips back to a trimmed, non-empty `t`. */
  lemma StripIndented(t: string)
    requires t != "" && Trimmed(t)
    ensures Strip(" " + t) == t
  {
    assert (" " + t)[1..] == t;
    assert TrimStart(" " + t) == TrimStart(t);
  }

  /** The indented pieces hold no `;` and strip back to the topics. */
  lemma IndentedPieces(topics: seq<string>)
    requires topics != []
    requires forall t :: t in topics ==> t != "" && Trimmed(t) && ';' !in t
    ensures forall p :: p in [topics[0]] + Indented(topics[1..]) ==> ';' !in p
    ensures StripAll([topics[0]] + Indented(topics[1..])) == topics
  {
    var pieces := [topics[0]] + Indented(topics[1..]);
    forall i | 0 <= i < |pieces| ensures ';' !in pieces[i] && Strip(pieces[i]) == topics[i] {
      assert topics[i] in topics;
      if i > 0 {
        assert pieces[i] == " " + topics[i];
        StripIndented(topics[i]);
      }
    }
  }

  /** Reading back a `"; "`-joined list of clean topics gives the list. */
  lemma SplitTopicsOfPhrase(topics: seq<string>)
    requires topics != []
    requires forall t :: t in topics ==> t != "" && Trimmed(t) && ';' !in t
    ensures SplitTopics(Join(topics, "; ")) == topics
  {
    var pieces := [topics[0]] + Indented(topics[1..]);
    JoinSemicolonSpace(topics);
    IndentedPieces(topics);
    SplitByOfJoin(pieces, ';');
    FilterAll(topics, NonEmptyText);
  }

  /** `topic_phrase`: "various aspects" when the cell has no topics; otherwise the
      topics joined by `"; "`, which the topic-string reading splits back into the same
      list when every topic is trimmed, non-empty and free of `;`. */
  lemma TopicPhraseProperties(cell: TopicsCell)
    ensures CellTopics(cell) == [] ==> TopicPhrase(cell) == "various aspects"
    ensures CellTopics(cell) != [] && (forall t :: t in CellTopics(cell) ==> t != "" && Trimmed(t) && ';' !in t) ==>
      SplitTopics(TopicPhrase(cell)) == CellTopics(cell)
  {
    var topics := CellTopics(cell);
    if topics != [] && forall t :: t in topics ==> t != "" && Trimmed(t) && ';' !in t {
      SplitTopicsOfPhrase(topics);
    }
  }

  /** Two topics are joined by a semicolon and a space. */
  lemma TopicPhraseExample()
    ensures TopicPhrase(TopicList(["ui", "bugs"])) == "ui; bugs"
    ensures TopicPhrase(NoTopics) == "various aspects"
  {
    assert Join(["ui", "bugs"], "; ") == "ui" + "; " + Join(["bugs"], "; ");
  }

  // ---- The example sentences (lines 515-542) ----

  /** The `details` cell: a parsed list, a JSON string (`None` when it does not parse),
      or missing. */
  datatype DetailsCell = DetailList(entries: seq<Detail>) | DetailJson(parsed: Option<seq<Detail>>) | NoDetails

  function CellDetails(cell: DetailsCell): seq<Detail> {
    match cell
    case DetailList(entries) => entries
    case DetailJson(parsed) => parsed.GetOr([])
    case NoDetails => []
  }

  /** `next((d for d in details if d["sentiment"] == sentiment), None)`. */
  function FirstWith(details: seq<Detail>, sentiment: string): (r: Option<Detail>)
    ensures r.None? <==> forall d :: d in details ==> d.sentiment != sentiment
    ensures r.Some? ==>
      exists i :: 0 <= i < |details| && details[i] == r.value && r.value.sentiment == sentiment &&
        (forall j :: 0 <= j < i ==> details[j].sentiment != sentiment)
  {
    if details == [] then None
    else if details[0].sentiment == sentiment then Some(details[0])
    else
      var r := FirstWith(details[1..], sentiment);
      assert forall d :: d in details ==> d == details[0] || d in details[1..];
      if r.Some? then
        var i :| 0 <= i < |details[1..]| && details[1..][i] == r.value &&
          forall j :: 0 <= j < i ==> details[1..][j].sentiment != sentiment;
        assert details[i + 1] == r.value;
        r
      else r
  }

  /** `f"‘{entry['sentence']}’ [{tag}]"`. */
  function Example(entry: Detail, tag: string): string {
    "‘" + entry.sentence + "’ " + "[" + tag + "]"
  }

  function ExampleIf(entry: Option<Detail>, tag: string): seq<string> {
    if entry.Some? then [Example(entry.value, tag)] else []
  }

  /** The examples that exist among the first positive, negative and neutral details. */
  function Examples(details: seq<Detail>): seq<string> {
    ExampleIf(FirstWith(details, "positive"), "POS") +
    ExampleIf(FirstWith(details, "negative"), "NEG") +
    ExampleIf(FirstWith(details, "neutral"), "NEU")
  }

  /** `"; ".join(examples[:2]) if examples else ""`. */
  function ExamplesText(details: seq<Detail>): string {
    var examples := Examples(details);
    if examples == [] then "" else Join(Take(examples, 2), "; ")
  }

  predicate HasSentiment(details: seq<Detail>, sentiment: string) {
    exists d :: d in details && d.sentiment == sentiment
  }

  /** The sentiments that occur among the details, in the order positive, negative,
      neutral. */
  function PresentSentiments(details: seq<Detail>): (r: seq<string>)
    ensures forall k, l :: 0 <= k < l < |r| ==> SentimentRank(r[k]) < SentimentRank(r[l])
    ensures forall x :: x in r <==> x in ["positive", "negative", "neutral"] && HasSentiment(details, x)
  {
    (if HasSentiment(details, "positive") then ["positive"] else []) +
    (if HasSentiment(details, "negative") then ["negative"] else []) +
    (if HasSentiment(details, "neutral") then ["neutral"] else [])
  }

  function SentimentRank(sentiment: string): nat {
    if sentiment == "positive" then 0 else if sentiment == "negative" then 1 else 2
  }

  function Tag(sentiment: string): string {
    if sentiment == "positive" then "POS" else if sentiment == "negative" then "NEG" else "NEU"
  }

  /** The tagged example of a sentiment: its first detail's sentence. */
  function ExampleFor(details: seq<Detail>, sentiment: string): string {
    Example(FirstWith(details, sentiment).GetOr(Detail("", "", [])), Tag(sentiment))
  }

  function ExamplesOf(details: seq<Detail>, sentiments: seq<string>): (r: seq<string>)
    ensures |r| == |sentiments|
    ensures forall k :: 0 <= k < |r| ==> r[k] == ExampleFor(details, sentiments[k])
  {
    seq(|sentiments|, k requires 0 <= k < |sentiments| => ExampleFor(details, sentiments[k]))
  }

  lemma ExamplesOfAppend(details: seq<Detail>, a: seq<string>, b: seq<string>)
    ensures ExamplesOf(details, a + b) == ExamplesOf(details, a) + ExamplesOf(details, b)
  {
  }

  lemma ExampleIfFor(details: seq<Detail>, sentiment: string)
    requires sentiment in ["positive", "negative", "neutral"]
    ensures ExampleIf(FirstWith(details, sentiment), Tag(sentiment)) ==
      ExamplesOf(details, if HasSentiment(details, sentiment) then [sentiment] else [])
  {
  }

  /** One tagged example per sentiment that occurs, in the order POS, NEG, NEU. */
  lemma ExamplesInOrder(details: seq<Detail>)
    ensures Examples(details) == ExamplesOf(details, PresentSentiments(details))
  {
    var pos := if HasSentiment(details, "positive") then ["positive"] else [];
    var neg := if HasSentiment(details, "negative") then ["negative"] else [];
    var neu := if HasSentiment(details, "neutral") then ["neutral"] else [];
    assert Tag("positive") == "POS" && Tag("negative") == "NEG" && Tag("neutral") == "NEU";
    ExampleIfFor(details, "positive");
    ExampleIfFor(details, "negative");
    ExampleIfFor(details, "neutral");
    ExamplesOfAppend(details, pos, neg);
    ExamplesOfAppend(details, pos + neg, neu);
  }

  /** `"; ".join(examples[:2])` of one or of at least two non-empty examples. */
  lemma JoinFirstTwo(examples: seq<string>)
    ensures |examples| == 1 ==> Join(Take(examples, 2), "; ") == examples[0]
    ensures |examples| >= 2 ==> Join(Take(examples, 2), "; ") == examples[0] + "; " + examples[1]
  {
    if |examples| == 1 {
      assert Take(examples, 2) == [examples[0]];
    } else if |examples| >= 2 {
      assert Take(examples, 2) == [examples[0], examples[1]];
      assert Join([examples[0], examples[1]], "; ") == examples[0] + "; " + Join([examples[1]], "; ");
    }
  }

  /** One example per sentiment that occurs, tagged and in the order POS, NEG, NEU; the
      text is empty exactly when none occurs, and otherwise joins the examples of the
      first two sentiments that occur (or of the only one). */
  lemma ExamplesProperties(details: seq<Detail>)
    ensures Examples(details) == ExamplesOf(details, PresentSentiments(details))
    ensures |Examples(details)| ==
      (if HasSentiment(details, "positive") then 1 else 0) +
      (if HasSentiment(details, "negative") then 1 else 0) +
      (if HasSentiment(details, "neutral") then 1 else 0)
    ensures ExamplesText(details) == "" <==>
      !HasSentiment(details, "positive") && !HasSentiment(details, "negative") &&
      !HasSentiment(details, "neutral")
    ensures var present := PresentSentiments(details);
      |present| == 1 ==> ExamplesText(details) == ExampleFor(details, present[0])
    ensures var present := PresentSentiments(details);
      |present| >= 2 ==>
        ExamplesText(details) ==
          ExampleFor(details, present[0]) + "; " + ExampleFor(details, present[1])
  {
    var present := PresentSentiments(details);
    ExamplesInOrder(details);
    var examples := Examples(details);
    JoinFirstTwo(examples);
    if examples != [] {
      assert |ExampleFor(details, present[0])| > 0;
      assert |Join(Take(examples, 2), "; ")| >= |examples[0]|;
    }
  }

  /** With all three sentiments present, the neutral example is dropped. */
  lemma ExamplesCapAtTwo(details: seq<Detail>)
    requires HasSentiment(details, "positive") && HasSentiment(details, "negative")
    requires HasSentiment(details, "neutral")
    ensures ExamplesText(details) ==
      Example(FirstWith(details, "positive").value, "POS") + "; " +
      Example(FirstWith(details, "negative").value, "NEG")
  {
    var present := PresentSentiments(details);
    assert present[..2] == ["positive", "negative"];
    assert ExamplesText(details) ==
      ExampleFor(details, present[0]) + "; " + ExampleFor(details, present[1]) by {
      ExamplesProperties(details);
    }
    assert Tag("positive") == "POS" && Tag("negative") == "NEG";
  }

  /** Without a positive sentence, the negative example comes before the neutral one. */
  lemma ExamplesNegativeNeutral(details: seq<Detail>)
    requires !HasSentiment(details, "positive") && HasSentiment(details, "negative")
    requires HasSentiment(details, "neutral")
    ensures ExamplesText(details) ==
      Example(FirstWith(details, "negative").value, "NEG") + "; " +
      Example(FirstWith(details, "neutral").value, "NEU")
  {
    var present := PresentSentiments(details);
    assert present == ["negative", "neutral"];
    assert ExamplesText(details) ==
      ExampleFor(details, present[0]) + "; " + ExampleFor(details, present[1]) by {
      ExamplesProperties(details);
    }
    assert Tag("negative") == "NEG" && Tag("neutral") == "NEU";
  }

  /** With a positive and a negative sentence, those two are the examples. */
  lemma ExamplesPositiveNegative(details: seq<Detail>)
    requires HasSentiment(details, "positive") && HasSentiment(details, "negative")
    ensures ExamplesText(details) ==
      Example(FirstWith(details, "positive").value, "POS") + "; " +
      Example(FirstWith(details, "negative").value, "NEG")
  {
    var examples := Examples(details);
    var p := Example(FirstWith(details, "positive").value, "POS");
    var n := Example(FirstWith(details, "negative").value, "NEG");
    assert examples[..2] == [p, n];
    assert Take(examples, 2) == [p, n];
    assert Join([p, n], "; ") == p + "; " + Join([n], "; ");
  }

  /** Details that do not parse give no examples. */
  lemma UnparsableDetailsNoExamples()
    ensures ExamplesText(CellDetails(DetailJson(None))) == ""
  {
    assert Examples([]) == [];
  }

  // ---- The summary sentence (lines 497-552) ----

  /** The row fields the summary reads; `None` when the column is absent. */
  datatype SummaryRow = SummaryRow(
    country: Option<string>, appName: Option<string>, language: Option<string>,
    sentimentLabel: Option<string>, topics: TopicsCell, details: DetailsCell)

  /** Python's `str.title()` on ASCII letters: a letter is uppercased after a non-letter
      and lowercased after a letter. */
  function Title(s: string): (r: string)
    ensures |r| == |s|
    ensures forall i :: 0 <= i < |s| ==> LowerChar(r[i]) == LowerChar(s[i])
    ensures forall i :: 0 <= i < |s| && !IsAsciiLetter(s[i]) ==> r[i] == s[i]
    ensures forall i :: 0 <= i < |s| && IsAsciiLetter(s[i]) && (i == 0 || !IsAsciiLetter(s[i - 1])) ==>
      'A' <= r[i] <= 'Z'
    ensures forall i :: 0 < i < |s| && IsAsciiLetter(s[i]) && IsAsciiLetter(s[i - 1]) ==>
      'a' <= r[i] <= 'z'
  {
    var r := seq(|s|, i requires 0 <= i < |s| => TitleChar(s, i));
    assert forall i :: 0 <= i < |s| ==> r[i] == TitleChar(s, i);
    r
  }

  /** The character `str.title()` puts at position `i`; it differs from `s[i]` in case
      only, is upper-case at the start of a word and lower-case inside one. */
  function TitleChar(s: string, i: nat): (c: char)
    requires i < |s|
    ensures LowerChar(c) == LowerChar(s[i])
    ensures !IsAsciiLetter(s[i]) ==> c == s[i]
    ensures IsAsciiLetter(s[i]) && (i == 0 || !IsAsciiLetter(s[i - 1])) ==> 'A' <= c <= 'Z'
    ensures i > 0 && IsAsciiLetter(s[i]) && IsAsciiLetter(s[i - 1]) ==> 'a' <= c <= 'z'
  {
    if i > 0 && IsAsciiLetter(s[i - 1]) then LowerChar(s[i]) else UpperChar(s[i])
  }

  predicate AllLetters(w: string) {
    forall i :: 0 <= i < |w| ==> IsAsciiLetter(w[i])
  }

  /** A word of letters is capitalised: its first letter upper-case, the rest lower-case. */
  lemma TitleWord(w: string)
    requires w != [] && AllLetters(w)
    ensures Title(w) == [UpperChar(w[0])] + Lower(w[1..])
  {
    var r := [UpperChar(w[0])] + Lower(w[1..]);
    forall i | 0 <= i < |w| ensures Title(w)[i] == r[i] {
      if i > 0 {
        assert IsAsciiLetter(w[i - 1]) && Lower(w[1..])[i - 1] == LowerChar(w[i]);
      }
    }
  }

  /** Title-casing a title-cased string changes nothing. */
  lemma TitleIdempotent(s: string)
    ensures Title(Title(s)) == Title(s)
  {
    var t := Title(s);
    forall i | 0 <= i < |s| ensures Title(t)[i] == t[i] {
      assert IsAsciiLetter(t[i]) == IsAsciiLetter(s[i]);
      if i > 0 {
        assert IsAsciiLetter(t[i - 1]) == IsAsciiLetter(s[i - 1]);
      }
    }
  }

  /** The language named in the summary: the display name of the lowercased code,
      lowercased, or the code itself when no display name is found. */
  function LanguageName(row: SummaryRow, displayName: string -> Option<string>): string {
    var code := Lower(row.language.GetOr("en"));
    match displayName(code)
    case Some(name) => Lower(name)
    case None => code
  }

  /** "In <COUNTRY>, a <App> user wrote in ". */
  function Opening(row: SummaryRow): string {
    "In " + Upper(row.country.GetOr("")) + ", a " + Title(row.appName.GetOr("user")) +
    " user wrote in "
  }

  /** The language, the sentiment with its score and the topic phrase. */
  function Body(row: SummaryRow, scoreText: string, displayName: string -> Option<string>): string {
    LanguageName(row, displayName) + ". " +
    "The overall sentiment is " + row.sentimentLabel.GetOr("neutral") +
    " (score " + scoreText + "). " +
    "It mainly discusses " + TopicPhrase(row.topics) + "."
  }

  /** The three fixed sentences of the summary. */
  function SummaryHead(row: SummaryRow, scoreText: string, displayName: string -> Option<string>): string {
    Opening(row) + Body(row, scoreText, displayName)
  }

  /** `make_notebook_sentence`; `scoreText` is the formatted score. */
  function NotebookSentence(row: SummaryRow, scoreText: string, displayName: string -> Option<string>): string {
    var examples := ExamplesText(CellDetails(row.details));
    SummaryHead(row, scoreText, displayName) +
    (if examples == "" then "" else " Example sentences: " + examples + ".")
  }

  /** Without usable details the summary is the three fixed sentences. */
  lemma NoExamplesNoSuffix(row: SummaryRow, scoreText: string, displayName: string -> Option<string>)
    requires row.details == DetailJson(None) || row.details == NoDetails
    ensures NotebookSentence(row, scoreText, displayName) == SummaryHead(row, scoreText, displayName)
  {
    UnparsableDetailsNoExamples();
    assert SummaryHead(row, scoreText, displayName) + "" == SummaryHead(row, scoreText, displayName);
  }

  lemma TagsShown(head: string, examples: string, p: Detail, n: Detail)
    requires examples == Example(p, "POS") + "; " + Example(n, "NEG")
    ensures Contains(head + (" Example sentences: " + examples + "."), "[POS]")
    ensures Contains(head + (" Example sentences: " + examples + "."), "[NEG]")
  {
    var s := head + (" Example sentences: " + examples + ".");
    assert "[" + "POS" + "]" == "[POS]" && "[" + "NEG" + "]" == "[NEG]";
    var pre := head + " Example sentences: " + ("‘" + p.sentence + "’ ");
    var mid := "; " + ("‘" + n.sentence + "’ ");
    assert s == pre + "[POS]" + (mid + "[NEG]" + ".");
    ContainsInfix(pre, "[POS]", mid + "[NEG]" + ".");
    assert s == (pre + "[POS]" + mid) + "[NEG]" + ".";
    ContainsInfix(pre + "[POS]" + mid, "[NEG]", ".");
  }

  /** A review with both a positive and a negative sentence shows both tags. */
  lemma NotebookSentenceTags(row: SummaryRow, scoreText: string, displayName: string -> Option<string>)
    requires HasSentiment(CellDetails(row.details), "positive")
    requires HasSentiment(CellDetails(row.details), "negative")
    ensures Contains(NotebookSentence(row, scoreText, displayName), "[POS]")
    ensures Contains(NotebookSentence(row, scoreText, displayName), "[NEG]")
  {
    var details := CellDetails(row.details);
    ExamplesPositiveNegative(details);
    var p := FirstWith(details, "positive").value;
    var n := FirstWith(details, "negative").value;
    var examples := ExamplesText(details);
    assert examples != "" by {
      assert |examples| >= |"; "|;
    }
    TagsShown(SummaryHead(row, scoreText, displayName), examples, p, n);
  }

  /** The default app name renders as "User". */
  lemma TitleUser()
    ensures Title("user") == "User"
  {
    TitleWord("user");
    assert Lower("ser") == "ser";
  }

  /** The summary opens with "In ", the country in capitals, ", a ", the title-cased
      app name (its first letter a capital, "User" when the column is absent) and
      " user wrote in ". */
  lemma SummaryCasing(row: SummaryRow, scoreText: string, displayName: string -> Option<string>)
    ensures var country := Upper(row.country.GetOr(""));
      var app := Title(row.appName.GetOr("user"));
      && (exists rest :: SummaryHead(row, scoreText, displayName) ==
                         "In " + country + ", a " + app + " user wrote in " + rest)
      && (forall i :: 0 <= i < |country| ==> !('a' <= country[i] <= 'z'))
      && (row.appName.GetOr("user") != [] && IsAsciiLetter(row.appName.GetOr("user")[0]) ==>
            'A' <= app[0] <= 'Z')
      && (row.appName.None? ==> app == "User")
  {
    var country := Upper(row.country.GetOr(""));
    var app := Title(row.appName.GetOr("user"));
    assert SummaryHead(row, scoreText, displayName) == Opening(row) + Body(row, scoreText, displayName);
    if row.appName.None? {
      TitleUser();
    }
  }
}
