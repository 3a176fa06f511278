/** Topic helpers (ml/pipeline/sentiment_topics.py): stopword sets, phrase
    normalisation, the n-gram frequency fallback, the per-sentence topic lists of
    `extract_topics`, the bounded merge of `merge_topics`, and `build_details`.
    KeyBERT and the library stopword tables are oracles. */
module Topics {
  import opened Wrappers
  import opened Seqs
  import opened Text

  // ---- Stopwords (lines 331-362) ----

  /** Words dropped as topics in every language. */
  const DomainStopwords: set<string> := {"ui", "ux", "app", "apps", "application", "game"}

  /** The languages for which a library stopword table is loaded. */
  const StopwordLanguages: set<string> := {"en", "fr", "de", "it", "es", "sv"}

  /** `(language or "en").lower()`. */
  function StopwordLanguage(language: Option<string>): string {
    Lower(if language.None? || language.value == "" then "en" else language.value)
  }

  /** `_language_stopwords` as a set: the library table of the language (`base` gives
      `None` when loading it fails) joined with the domain words. */
  function LanguageStopwords(language: Option<string>, base: string -> Option<set<string>>): (r: set<string>)
    ensures DomainStopwords <= r
  {
    var lang := StopwordLanguage(language);
    (if lang in StopwordLanguages then base(lang).GetOr({}) else {}) + DomainStopwords
  }

  /** A missing language means English, in either case; a language with a table that
      loads has that table joined with the domain words; a language without a table, or
      whose table fails to load, has just the domain words. */
  lemma LanguageStopwordsDefaults(base: string -> Option<set<string>>, language: string)
    ensures LanguageStopwords(None, base) == LanguageStopwords(Some(""), base)
    ensures LanguageStopwords(None, base) == LanguageStopwords(Some("EN"), base)
    ensures LanguageStopwords(None, base) == base("en").GetOr({}) + DomainStopwords
    ensures language != "" && (Lower(language) !in StopwordLanguages || base(Lower(language)).None?) ==>
      LanguageStopwords(Some(language), base) == DomainStopwords
    ensures language != "" && Lower(language) in StopwordLanguages && base(Lower(language)).Some? ==>
      LanguageStopwords(Some(language), base) == base(Lower(language)).value + DomainStopwords
  {
    assert Lower("en") == "en";
    assert Lower("EN") == "en";
  }

  // ---- Phrase normalisation (lines 365-372) ----

  const QuoteChars: set<char> := {'"', '\'', '`'}

  /** Lowercase, delete quote characters, and replace every other character that is
      neither a word character nor whitespace by a space. */
  function Clean(topic: string): (r: string)
    ensures forall c :: c in r ==> IsSpace(c) || (IsWordChar(c) && LowerChar(c) == c)
  {
    var lowered := Lower(topic);
    assert forall c :: c in lowered ==> LowerChar(c) == c by {
      forall c | c in lowered ensures LowerChar(c) == c {
        var i :| 0 <= i < |lowered| && lowered[i] == c;
        assert c == LowerChar(topic[i]);
      }
    }
    var unquoted := Filter(lowered, (c: char) => c !in QuoteChars);
    seq(|unquoted|, i requires 0 <= i < |unquoted| =>
      if IsWordChar(unquoted[i]) || IsSpace(unquoted[i]) then unquoted[i] else ' ')
  }

  /** The whitespace-separated tokens of the cleaned phrase that are not stopwords. */
  function TopicTokens(topic: string, stopwords: set<string>): (r: seq<string>)
    ensures forall w :: w in r ==> w != [] && w !in stopwords
    ensures forall w, c :: w in r && c in w ==> IsWordChar(c) && LowerChar(c) == c
  {
    Filter(Words(Clean(topic)), (w: string) => w !in stopwords)
  }

  /** `_normalize_topic`: the surviving tokens joined by single spaces, or `None` when
      no token survives. */
  function NormalizeTopic(topic: string, stopwords: set<string>): Option<string> {
    var tokens := TopicTokens(topic, stopwords);
    if tokens == [] then None else Some(Join(tokens, " "))
  }

  /** `None` exactly when no token survives; otherwise a non-empty phrase whose words are
      the surviving tokens, none of them a stopword. */
  lemma NormalizeTopicProperties(topic: string, stopwords: set<string>)
    ensures var r := NormalizeTopic(topic, stopwords);
      && (r.None? <==> TopicTokens(topic, stopwords) == [])
      && (r.Some? ==> r.value != "" && Words(r.value) == TopicTokens(topic, stopwords))
      && (r.Some? ==> forall w :: w in Words(r.value) ==> w !in stopwords)
  {
    var tokens := TopicTokens(topic, stopwords);
    if tokens != [] {
      RunsOfJoin(tokens, " ", NotSpace);
      assert |Join(tokens, " ")| >= |tokens[0]| > 0 by { assert tokens[0] in tokens; }
    }
  }

  /** A phrase made of lowercase word characters and spaces is unchanged by cleaning. */
  lemma CleanFixed(s: string)
    requires forall c :: c in s ==> c == ' ' || (IsWordChar(c) && LowerChar(c) == c)
    ensures Clean(s) == s
  {
    assert Lower(s) == s;
    FilterAll(s, (c: char) => c !in QuoteChars);
  }

  /** Normalising a normalised phrase changes nothing. */
  lemma NormalizeIdempotent(topic: string, stopwords: set<string>)
    requires NormalizeTopic(topic, stopwords).Some?
    ensures NormalizeTopic(NormalizeTopic(topic, stopwords).value, stopwords) ==
      NormalizeTopic(topic, stopwords)
  {
    var tokens := TopicTokens(topic, stopwords);
    var v := Join(tokens, " ");
    forall c | c in v ensures c == ' ' || (IsWordChar(c) && LowerChar(c) == c) {
      JoinElements(tokens, " ", c);
    }
    CleanFixed(v);
    NormalizeTopicProperties(topic, stopwords);
    FilterAll(Words(v), (w: string) => w !in stopwords);
  }

  // ---- The KeyBERT branch of extract_topics (lines 442-450) ----

  /** The present, non-empty values, in order (`if not norm: continue`). */
  function Present(norms: seq<Option<string>>): seq<string> {
    if norms == [] then []
    else
      var last := norms[|norms| - 1];
      Present(norms[..|norms| - 1]) + if last.Some? && last.value != "" then [last.value] else []
  }

  function Normalizations(phrases: seq<string>, stopwords: set<string>): seq<Option<string>> {
    seq(|phrases|, i requires 0 <= i < |phrases| => NormalizeTopic(phrases[i], stopwords))
  }

  /** The topic list of one sentence from KeyBERT's phrases: the first occurrence of each
      normalised phrase. */
  function KeywordTopics(phrases: seq<string>, stopwords: set<string>): seq<string> {
    Dedupe(Present(Normalizations(phrases, stopwords)))
  }

  /** The dedupe loop with its `seen` set. */
  method DedupeNormalized(phrases: seq<string>, stopwords: set<string>) returns (normalized: seq<string>)
    ensures normalized == KeywordTopics(phrases, stopwords)
  {
    ghost var norms := Normalizations(phrases, stopwords);
    normalized := [];
    var seen: set<string> := {};
    var i := 0;
    while i < |phrases|
      invariant 0 <= i <= |phrases|
      invariant normalized == Dedupe(Present(norms[..i]))
      invariant forall x :: x in seen <==> x in normalized
    {
      PresentStep(norms, i);
      var norm := NormalizeTopic(phrases[i], stopwords);
      assert norm == norms[i];
      if norm.Some? && norm.value != "" && norm.value !in seen {
        seen := seen + {norm.value};
        normalized := normalized + [norm.value];
      }
      i := i + 1;
    }
    assert norms[..i] == norms;
  }

  lemma PresentStep(norms: seq<Option<string>>, i: nat)
    requires i < |norms|
    ensures var before := Dedupe(Present(norms[..i]));
      Dedupe(Present(norms[..i + 1])) ==
        if norms[i].Some? && norms[i].value != "" && norms[i].value !in before
        then before + [norms[i].value] else before
  {
    var p := norms[..i + 1];
    assert p[..i] == norms[..i] && p[i] == norms[i];
    var before := Present(norms[..i]);
    var x := norms[i];
    if x.Some? && x.value != "" {
      assert Present(p) == before + [x.value];
      DedupeSnoc(before, x.value);
    } else {
      assert Present(p) == before + [];
      assert before + [] == before;
    }
  }

  lemma {:induction false} PresentMembers(norms: seq<Option<string>>)
    ensures forall v :: v in Present(norms) <==>
      v != "" && exists i :: 0 <= i < |norms| && norms[i] == Some(v)
    decreases |norms|
  {
    if norms != [] {
      var front := norms[..|norms| - 1];
      PresentMembers(front);
      forall v ensures v in Present(norms) <==>
        v != "" && exists i :: 0 <= i < |norms| && norms[i] == Some(v)
      {
        if v in Present(front) {
          var i :| 0 <= i < |front| && front[i] == Some(v);
          assert norms[i] == front[i];
        }
        if i :| 0 <= i < |norms| && norms[i] == Some(v) {
          if i < |front| {
            assert front[i] == norms[i];
          }
        }
      }
    }
  }

  /** KeyBERT topics are distinct, and they are exactly the normal forms of the phrases
      that have one. */
  lemma KeywordTopicsMembers(phrases: seq<string>, stopwords: set<string>)
    ensures var r := KeywordTopics(phrases, stopwords);
      && Distinct(r)
      && (forall v :: v in r <==>
            exists i :: 0 <= i < |phrases| && NormalizeTopic(phrases[i], stopwords) == Some(v))
  {
    var norms := Normalizations(phrases, stopwords);
    PresentMembers(norms);
    forall v ensures v in Present(norms) <==>
      exists i :: 0 <= i < |phrases| && NormalizeTopic(phrases[i], stopwords) == Some(v)
    {
      if i :| 0 <= i < |phrases| && NormalizeTopic(phrases[i], stopwords) == Some(v) {
        NormalizeTopicProperties(phrases[i], stopwords);
        assert norms[i] == Some(v);
      }
    }
  }

  /** No KeyBERT topic contains a stopword. */
  lemma KeywordTopicsNoStopwords(phrases: seq<string>, stopwords: set<string>)
    ensures forall v, w :: v in KeywordTopics(phrases, stopwords) && w in Words(v) ==> w !in stopwords
  {
    KeywordTopicsMembers(phrases, stopwords);
    forall v, w | v in KeywordTopics(phrases, stopwords) && w in Words(v) ensures w !in stopwords {
      var i :| 0 <= i < |phrases| && NormalizeTopic(phrases[i], stopwords) == Some(v);
      NormalizeTopicProperties(phrases[i], stopwords);
    }
  }

  /** KeyBERT topics are never empty. */
  lemma KeywordTopicsNonEmpty(phrases: seq<string>, stopwords: set<string>)
    ensures forall v :: v in KeywordTopics(phrases, stopwords) ==> v != ""
  {
    PresentMembers(Normalizations(phrases, stopwords));
  }

  // ---- The n-gram fallback (lines 375-388) ----

  /** A Python slice bound `i` against a sequence of length `n`. */
  function SliceBound(i: int, n: nat): (r: nat)
    ensures r <= n
  {
    if i < 0 then (if i + n < 0 then 0 else i + n) else if i > n then n else i
  }

  /** Python's `s[a:b]`. */
  function PySlice<T>(s: seq<T>, a: int, b: int): seq<T> {
    var lo, hi := SliceBound(a, |s|), SliceBound(b, |s|);
    if lo < hi then s[lo..hi] else []
  }

  /** The lowercased word tokens of a sentence that are not stopwords. */
  function FallbackTokens(sentence: string, stopwords: set<string>): seq<string> {
    Filter(WordTokens(Lower(sentence)), (w: string) => w !in stopwords)
  }

  /** The n-gram of `n` tokens starting at token `i`. */
  function Gram(tokens: seq<string>, i: nat, n: nat): string
    requires i + n <= |tokens|
  {
    Join(tokens[i..i + n], " ")
  }

  /** The n-grams of size `n`, left to right: `" ".join(tokens[i : i + n])` for each `i`
      in `range(len(tokens) - n + 1)`. */
  function NGramsOfSize(tokens: seq<string>, n: int): seq<string> {
    var count := |tokens| - n + 1;
    seq(if count > 0 then count else 0, i => Join(PySlice(tokens, i, i + n), " "))
  }

  /** The n-grams for every size from `lo` to `hi`, smaller sizes first. */
  function NGrams(tokens: seq<string>, lo: int, hi: int): seq<string>
    decreases hi - lo
  {
    if lo > hi then [] else NGramsOfSize(tokens, lo) + NGrams(tokens, lo + 1, hi)
  }

  lemma NGramsUnfold(acc: seq<string>, tokens: seq<string>, n: int, hi: int)
    requires n <= hi
    ensures acc + NGrams(tokens, n, hi) == (acc + NGramsOfSize(tokens, n)) + NGrams(tokens, n + 1, hi)
  {
  }

  /** The inner loop over start positions. */
  method AppendNGramsOfSize(acc: seq<string>, tokens: seq<string>, n: int) returns (r: seq<string>)
    ensures r == acc + NGramsOfSize(tokens, n)
  {
    ghost var target := NGramsOfSize(tokens, n);
    r := acc;
    var i := 0;
    while i < |tokens| - n + 1
      invariant 0 <= i <= |target|
      invariant r == acc + target[..i]
    {
      var ngram := Join(PySlice(tokens, i, i + n), " ");
      assert target[..i + 1] == target[..i] + [ngram];
      r := r + [ngram];
      i := i + 1;
    }
    assert target[..i] == target;
  }

  /** The nested loops of `_simple_topic_fallback` that list the n-grams. */
  method CollectNGrams(tokens: seq<string>, lo: int, hi: int) returns (ngrams: seq<string>)
    ensures ngrams == NGrams(tokens, lo, hi)
  {
    ngrams := [];
    var n := lo;
    while n <= hi
      invariant n == lo || n <= hi + 1
      invariant ngrams + NGrams(tokens, n, hi) == NGrams(tokens, lo, hi)
      decreases hi - n
    {
      NGramsUnfold(ngrams, tokens, n, hi);
      ngrams := AppendNGramsOfSize(ngrams, tokens, n);
      n := n + 1;
    }
    assert ngrams + [] == ngrams;
  }

  /** An n-gram of size `n >= 1` joins the `n` consecutive tokens it starts at. */
  lemma NGramsOfSizeShape(tokens: seq<string>, n: int, k: nat)
    requires n >= 1 && k < |NGramsOfSize(tokens, n)|
    ensures k + n <= |tokens| && NGramsOfSize(tokens, n)[k] == Gram(tokens, k, n)
  {
    assert PySlice(tokens, k, k + n) == tokens[k..k + n];
  }

  /** With sizes from 1 up, every n-gram joins `n` consecutive tokens, `lo <= n <= hi`. */
  lemma {:induction false} NGramShape(tokens: seq<string>, lo: int, hi: int, g: string)
    requires lo >= 1 && g in NGrams(tokens, lo, hi)
    ensures exists n: nat, i: nat :: lo <= n <= hi && i + n <= |tokens| && g == Gram(tokens, i, n)
    decreases hi - lo
  {
    var size := NGramsOfSize(tokens, lo);
    if g in size {
      var k :| 0 <= k < |size| && size[k] == g;
      NGramsOfSizeShape(tokens, lo, k);
    } else {
      NGramShape(tokens, lo + 1, hi, g);
    }
  }

  /** With sizes from 1 up and non-empty tokens, no n-gram is empty (none is dropped by
      `if phrase`). */
  lemma NGramsNonEmpty(tokens: seq<string>, lo: int, hi: int)
    requires lo >= 1
    requires forall t :: t in tokens ==> t != []
    ensures forall g :: g in NGrams(tokens, lo, hi) ==> g != ""
  {
    forall g | g in NGrams(tokens, lo, hi) ensures g != "" {
      NGramShape(tokens, lo, hi, g);
      var n: nat, i: nat :| lo <= n <= hi && i + n <= |tokens| && g == Gram(tokens, i, n);
      var parts := tokens[i..i + n];
      assert parts[0] in tokens;
      assert |Join(parts, " ")| >= |parts[0]|;
    }
  }

  // ---- Counter(...).most_common(k) ----

  /** The first position of the highest score. */
  function BestIndex<T(==)>(cands: seq<T>, score: T -> int): (b: nat)
    requires cands != []
    ensures b < |cands|
    ensures forall j :: 0 <= j < |cands| ==> score(cands[j]) <= score(cands[b])
    ensures forall j :: 0 <= j < b ==> score(cands[j]) < score(cands[b])
  {
    if |cands| == 1 then 0
    else
      var m := BestIndex(cands[..|cands| - 1], score);
      if score(cands[|cands| - 1]) > score(cands[m]) then |cands| - 1 else m
  }

  /** `s` with the element at position `b` removed. */
  function Without<T(==)>(s: seq<T>, b: nat): seq<T>
    requires b < |s|
  {
    s[..b] + s[b + 1..]
  }


  /** The first `k` candidates of a stable sort by descending score, chosen one at a time. */
  function TopK<T(==)>(cands: seq<T>, score: T -> int, k: nat): (r: seq<T>)
    ensures |r| == if k < |cands| then k else |cands|
    ensures forall x :: x in r ==> x in cands
    decreases k
  {
    if k == 0 || cands == [] then []
    else
      var b := BestIndex(cands, score);
      var rest := TopK(Without(cands, b), score, k - 1);
      assert forall x :: x in Without(cands, b) ==> x in cands;
      [cands[b]] + rest
  }

  /** `a` comes before `b` in the ranking: a higher score, or an equal score and an
      earlier position. */
  predicate Precedes<T(==)>(cands: seq<T>, score: T -> int, a: T, b: T)
    requires a in cands && b in cands
  {
    score(a) > score(b) || (score(a) == score(b) && FirstIndex(cands, a) < FirstIndex(cands, b))
  }

  /** Where an element other than the removed one ends up. */
  lemma WithoutAt<T>(cands: seq<T>, b: nat, i: nat)
    requires b < |cands| && i < |cands| && i != b
    ensures var k := if i < b then i else i - 1;
      k < |Without(cands, b)| && Without(cands, b)[k] == cands[i]
  {
  }

  lemma WithoutDistinct<T>(cands: seq<T>, b: nat)
    requires Distinct(cands) && b < |cands|
    ensures Distinct(Without(cands, b))
    ensures cands[b] !in Without(cands, b)
    ensures forall y :: y in cands && y != cands[b] ==> y in Without(cands, b)
  {
    var w := Without(cands, b);
    forall i, j | 0 <= i < j < |w| ensures w[i] != w[j] {
      var i' := if i < b then i else i + 1;
      var j' := if j < b then j else j + 1;
      assert w[i] == cands[i'] && w[j] == cands[j'];
    }
    forall y | y in cands && y != cands[b] ensures y in w {
      WithoutAt(cands, b, FirstIndex(cands, y));
    }
  }

  /** Removing one element keeps the others' relative order. */
  lemma WithoutIndex<T>(cands: seq<T>, b: nat, y: T)
    requires Distinct(cands) && b < |cands| && y in cands && y != cands[b]
    ensures y in Without(cands, b)
    ensures FirstIndex(Without(cands, b), y) ==
      if FirstIndex(cands, y) < b then FirstIndex(cands, y) else FirstIndex(cands, y) - 1
  {
    var w := Without(cands, b);
    var i := FirstIndex(cands, y);
    var k := if i < b then i else i - 1;
    WithoutAt(cands, b, i);
    WithoutDistinct(cands, b);
    DistinctFirstIndex(w, k);
  }

  /** The chosen candidate precedes every other one. */
  lemma BestPrecedes<T>(cands: seq<T>, score: T -> int, y: T)
    requires Distinct(cands) && cands != [] && y in cands && y != cands[BestIndex(cands, score)]
    ensures Precedes(cands, score, cands[BestIndex(cands, score)], y)
  {
    var b := BestIndex(cands, score);
    var iy := FirstIndex(cands, y);
    assert FirstIndex(cands, cands[b]) == b;
    assert cands[iy] == y;
  }

  /** The ranking among the remaining candidates is the ranking in `cands`. */
  lemma PrecedesWithout<T>(cands: seq<T>, score: T -> int, b: nat, y: T, z: T)
    requires Distinct(cands) && b < |cands|
    requires y in Without(cands, b) && z in Without(cands, b)
    requires Precedes(Without(cands, b), score, y, z)
    ensures y in cands && z in cands && Precedes(cands, score, y, z)
  {
    WithoutDistinct(cands, b);
    WithoutIndex(cands, b, y);
    WithoutIndex(cands, b, z);
  }

  lemma {:induction false} TopKDistinct<T>(cands: seq<T>, score: T -> int, k: nat)
    requires Distinct(cands)
    ensures Distinct(TopK(cands, score, k))
    decreases k
  {
    if k > 0 && cands != [] {
      var b := BestIndex(cands, score);
      var w := Without(cands, b);
      WithoutDistinct(cands, b);
      TopKDistinct(w, score, k - 1);
      assert cands[b] !in TopK(w, score, k - 1);
    }
  }

  /** Every listed candidate precedes every later one. */
  predicate Ordered<T(==)>(cands: seq<T>, score: T -> int, r: seq<T>)
    requires forall x :: x in r ==> x in cands
  {
    forall i, j :: 0 <= i < j < |r| ==> Precedes(cands, score, r[i], r[j])
  }

  /** Every listed candidate precedes every candidate left out. */
  predicate AboveRest<T(==)>(cands: seq<T>, score: T -> int, r: seq<T>)
    requires forall x :: x in r ==> x in cands
  {
    forall x, j :: x in cands && x !in r && 0 <= j < |r| ==> Precedes(cands, score, r[j], x)
  }

  /** Two later picks keep their relative ranking in `cands`. */
  lemma OrderedTail<T>(cands: seq<T>, score: T -> int, b: nat, rest: seq<T>,
                    i: nat, j: nat)
    requires Distinct(cands) && b < |cands|
    requires forall y :: y in rest ==> y in Without(cands, b)
    requires Ordered(Without(cands, b), score, rest)
    requires i < j < |rest|
    ensures rest[i] in cands && rest[j] in cands && Precedes(cands, score, rest[i], rest[j])
  {
    assert rest[i] in rest && rest[j] in rest;
    assert Precedes(Without(cands, b), score, rest[i], rest[j]);
    PrecedesWithout(cands, score, b, rest[i], rest[j]);
  }

  /** The best candidate, put first, precedes each later pick. */
  lemma BestFirstBefore<T>(cands: seq<T>, score: T -> int, rest: seq<T>, j: nat)
    requires Distinct(cands) && cands != []
    requires forall y :: y in rest ==> y in Without(cands, BestIndex(cands, score))
    requires 0 < j < |rest| + 1
    ensures var r := [cands[BestIndex(cands, score)]] + rest;
      r[0] in cands && r[j] in cands && Precedes(cands, score, r[0], r[j])
  {
    var b := BestIndex(cands, score);
    var y := rest[j - 1];
    assert y in Without(cands, b);
    WithoutDistinct(cands, b);
    BestPrecedes(cands, score, y);
    assert ([cands[b]] + rest)[j] == y;
  }

  /** Two later picks keep their order. */
  lemma LaterPicksOrdered<T>(cands: seq<T>, score: T -> int, rest: seq<T>, i: nat, j: nat)
    requires Distinct(cands) && cands != []
    requires forall y :: y in rest ==> y in Without(cands, BestIndex(cands, score))
    requires Ordered(Without(cands, BestIndex(cands, score)), score, rest)
    requires 0 < i < j < |rest| + 1
    ensures var r := [cands[BestIndex(cands, score)]] + rest;
      r[i] in cands && r[j] in cands && Precedes(cands, score, r[i], r[j])
  {
    var b := BestIndex(cands, score);
    assert rest[i - 1] in cands && rest[j - 1] in cands &&
           Precedes(cands, score, rest[i - 1], rest[j - 1]) by {
      OrderedTail(cands, score, b, rest, i - 1, j - 1);
    }
    assert ([cands[b]] + rest)[i] == rest[i - 1] && ([cands[b]] + rest)[j] == rest[j - 1];
  }

  /** The best candidate followed by an ordered selection of the others is ordered. */
  lemma OrderedCons<T>(cands: seq<T>, score: T -> int, rest: seq<T>)
    requires Distinct(cands) && cands != []
    requires forall y :: y in rest ==> y in Without(cands, BestIndex(cands, score))
    requires Ordered(Without(cands, BestIndex(cands, score)), score, rest)
    ensures forall y :: y in [cands[BestIndex(cands, score)]] + rest ==> y in cands
    ensures Ordered(cands, score, [cands[BestIndex(cands, score)]] + rest)
  {
    var b := BestIndex(cands, score);
    var r := [cands[b]] + rest;
    assert forall y :: y in r ==> y in cands by { WithoutDistinct(cands, b); }
    forall i, j | 0 <= i < j < |r| ensures Precedes(cands, score, r[i], r[j]) {
      if i == 0 {
        BestFirstBefore(cands, score, rest, j);
      } else {
        LaterPicksOrdered(cands, score, rest, i, j);
      }
    }
  }

  /** `Counter.most_common(k)` over distinct candidates lists them in ranking order. */
  lemma {:induction false} TopKOrdered<T>(cands: seq<T>, score: T -> int, k: nat)
    requires Distinct(cands)
    ensures Ordered(cands, score, TopK(cands, score, k))
    decreases k
  {
    if k > 0 && cands != [] {
      var b := BestIndex(cands, score);
      var w := Without(cands, b);
      var rest := TopK(w, score, k - 1);
      assert Ordered(w, score, rest) by {
        WithoutDistinct(cands, b);
        TopKOrdered(w, score, k - 1);
      }
      OrderedCons(cands, score, rest);
      assert TopK(cands, score, k) == [cands[b]] + rest;
    }
  }

  /** A candidate left out of the later picks ranks below each of them in `cands` too. */
  lemma AboveRestTail<T>(cands: seq<T>, score: T -> int, b: nat, rest: seq<T>,
                      x: T, j: nat)
    requires Distinct(cands) && b < |cands|
    requires forall y :: y in rest ==> y in Without(cands, b)
    requires AboveRest(Without(cands, b), score, rest)
    requires x in cands && x != cands[b] && x !in rest && j < |rest|
    ensures rest[j] in cands && Precedes(cands, score, rest[j], x)
  {
    var w := Without(cands, b);
    WithoutDistinct(cands, b);
    assert rest[j] in rest && x in w;
    assert Precedes(w, score, rest[j], x);
    PrecedesWithout(cands, score, b, rest[j], x);
  }

  /** The best candidate, put first, precedes every other candidate. */
  lemma BestFirstPrecedes<T>(cands: seq<T>, score: T -> int, rest: seq<T>, x: T)
    requires Distinct(cands) && cands != [] && x in cands && x != cands[BestIndex(cands, score)]
    ensures var r := [cands[BestIndex(cands, score)]] + rest;
      r[0] in cands && Precedes(cands, score, r[0], x)
  {
    BestPrecedes(cands, score, x);
  }

  /** A later pick, after the best candidate, precedes every candidate left out. */
  lemma LaterPickPrecedes<T>(cands: seq<T>, score: T -> int, rest: seq<T>,
                          x: T, j: nat)
    requires Distinct(cands) && cands != []
    requires forall y :: y in rest ==> y in Without(cands, BestIndex(cands, score))
    requires AboveRest(Without(cands, BestIndex(cands, score)), score, rest)
    requires x in cands && x != cands[BestIndex(cands, score)] && x !in rest && 0 < j < |rest| + 1
    ensures var r := [cands[BestIndex(cands, score)]] + rest;
      r[j] in cands && Precedes(cands, score, r[j], x)
  {
    var b := BestIndex(cands, score);
    var y := rest[j - 1];
    assert y in cands && Precedes(cands, score, y, x) by {
      AboveRestTail(cands, score, b, rest, x, j - 1);
    }
    assert ([cands[b]] + rest)[j] == y;
  }

  /** The best candidate followed by a selection of the others that ranks above the
      rest of them ranks above everything it leaves out. */
  lemma AboveRestCons<T>(cands: seq<T>, score: T -> int, rest: seq<T>)
    requires Distinct(cands) && cands != []
    requires forall y :: y in rest ==> y in Without(cands, BestIndex(cands, score))
    requires AboveRest(Without(cands, BestIndex(cands, score)), score, rest)
    ensures forall y :: y in [cands[BestIndex(cands, score)]] + rest ==> y in cands
    ensures AboveRest(cands, score, [cands[BestIndex(cands, score)]] + rest)
  {
    var b := BestIndex(cands, score);
    var r := [cands[b]] + rest;
    assert forall y :: y in r ==> y in cands by { WithoutDistinct(cands, b); }
    forall x, j | x in cands && x !in r && 0 <= j < |r| ensures Precedes(cands, score, r[j], x) {
      assert x != cands[b] && x !in rest;
      if j == 0 {
        BestFirstPrecedes(cands, score, rest, x);
      } else {
        LaterPickPrecedes(cands, score, rest, x, j);
      }
    }
  }

  /** `Counter.most_common(k)` over distinct candidates leaves out only candidates
      ranked below every listed one. */
  lemma {:induction false} TopKAboveRest<T>(cands: seq<T>, score: T -> int, k: nat)
    requires Distinct(cands)
    ensures AboveRest(cands, score, TopK(cands, score, k))
    decreases k
  {
    if k > 0 && cands != [] {
      var b := BestIndex(cands, score);
      var w := Without(cands, b);
      var rest := TopK(w, score, k - 1);
      assert AboveRest(w, score, rest) by {
        WithoutDistinct(cands, b);
        TopKAboveRest(w, score, k - 1);
      }
      AboveRestCons(cands, score, rest);
      assert TopK(cands, score, k) == [cands[b]] + rest;
    }
  }

  /** The counts of a list of n-grams (`Counter(ngrams)`). */
  function Counts(ngrams: seq<string>): string -> int {
    (x: string) => Count(ngrams, x)
  }

  /** `Counter(ngrams).most_common(k)`: the distinct n-grams by descending count, ties in
      the counter's insertion order, which is the order of first occurrence. */
  function MostCommon(ngrams: seq<string>, k: nat): seq<string> {
    TopK(Dedupe(ngrams), Counts(ngrams), k)
  }

  /** `a` is listed before `b` by `most_common`. */
  predicate MoreCommon(ngrams: seq<string>, a: string, b: string)
    requires a in ngrams && b in ngrams
  {
    Count(ngrams, a) > Count(ngrams, b) ||
    (Count(ngrams, a) == Count(ngrams, b) && FirstIndex(ngrams, a) < FirstIndex(ngrams, b))
  }

  lemma PrecedesInDedupe(ngrams: seq<string>, a: string, b: string)
    requires a in ngrams && b in ngrams
    requires Precedes(Dedupe(ngrams), Counts(ngrams), a, b)
    ensures MoreCommon(ngrams, a, b)
  {
    var d := Dedupe(ngrams);
    if Count(ngrams, a) == Count(ngrams, b) {
      DedupeFirstOccurrenceOrder(ngrams);
      var i, j := FirstIndex(d, a), FirstIndex(d, b);
      assert d[i] == a && d[j] == b && i < j;
    }
  }

  /** `most_common(k)` returns `min(k, number of distinct n-grams)` distinct n-grams,
      each more common than the later ones and than every n-gram it leaves out; equal
      counts keep the order in which the n-grams first appeared. */
  lemma MostCommonRanked(ngrams: seq<string>, k: nat)
    ensures var r := MostCommon(ngrams, k);
      && |r| == (if k < |Dedupe(ngrams)| then k else |Dedupe(ngrams)|)
      && Distinct(r)
      && (forall x :: x in r ==> x in ngrams)
      && (forall i, j :: 0 <= i < j < |r| ==> MoreCommon(ngrams, r[i], r[j]))
      && (forall x, j :: x in ngrams && x !in r && 0 <= j < |r| ==> MoreCommon(ngrams, r[j], x))
  {
    var d := Dedupe(ngrams);
    var r := MostCommon(ngrams, k);
    TopKDistinct(d, Counts(ngrams), k);
    TopKOrdered(d, Counts(ngrams), k);
    TopKAboveRest(d, Counts(ngrams), k);
    forall i, j | 0 <= i < j < |r| ensures MoreCommon(ngrams, r[i], r[j]) {
      assert r[i] in r && r[j] in r;
      PrecedesInDedupe(ngrams, r[i], r[j]);
    }
    forall x, j | x in ngrams && x !in r && 0 <= j < |r| ensures MoreCommon(ngrams, r[j], x) {
      assert r[j] in r && x in d;
      PrecedesInDedupe(ngrams, r[j], x);
    }
  }

  /** The topics `_simple_topic_fallback` gives one sentence: the three most common
      n-grams, without the empty one. */
  function FallbackTopics(sentence: string, stopwords: set<string>, lo: int, hi: int): seq<string> {
    Filter(MostCommon(NGrams(FallbackTokens(sentence, stopwords), lo, hi), 3), NonEmptyText)
  }

  /** At most three distinct, non-empty n-grams of the sentence; with sizes from 1 up
      nothing is dropped, so the list is exactly `most_common(3)`. */
  lemma FallbackTopicsProperties(sentence: string, stopwords: set<string>, lo: int, hi: int)
    ensures var ngrams := NGrams(FallbackTokens(sentence, stopwords), lo, hi);
      var r := FallbackTopics(sentence, stopwords, lo, hi);
      && |r| <= 3
      && Distinct(r)
      && (forall x :: x in r ==> x in ngrams && x != "")
      && (lo >= 1 ==> r == MostCommon(ngrams, 3))
  {
    var tokens := FallbackTokens(sentence, stopwords);
    var ngrams := NGrams(tokens, lo, hi);
    var top := MostCommon(ngrams, 3);
    MostCommonRanked(ngrams, 3);
    FilterDistinct(top, NonEmptyText);
    if lo >= 1 {
      NGramsNonEmpty(tokens, lo, hi);
      FilterAll(top, NonEmptyText);
    }
  }

  /** The body of the sentence loop of `_simple_topic_fallback`. */
  method FallbackFor(sentence: string, stopwords: set<string>, lo: int, hi: int) returns (top: seq<string>)
    ensures top == FallbackTopics(sentence, stopwords, lo, hi)
  {
    var tokens := FallbackTokens(sentence, stopwords);
    var ngrams := CollectNGrams(tokens, lo, hi);
    top := Filter(MostCommon(ngrams, 3), NonEmptyText);
  }

  method SimpleTopicFallback(sentences: seq<string>, stopwords: set<string>, lo: int, hi: int)
    returns (topics: seq<seq<string>>)
    ensures |topics| == |sentences|
    ensures forall i :: 0 <= i < |sentences| ==> topics[i] == FallbackTopics(sentences[i], stopwords, lo, hi)
  {
    ghost var target := seq(|sentences|, k requires 0 <= k < |sentences| =>
      FallbackTopics(sentences[k], stopwords, lo, hi));
    topics := [];
    var i := 0;
    while i < |sentences|
      invariant 0 <= i <= |sentences|
      invariant topics == target[..i]
    {
      var top := FallbackFor(sentences[i], stopwords, lo, hi);
      assert top == target[i];
      PrefixSnoc(target, i);
      topics := topics + [top];
      i := i + 1;
    }
    assert target[..i] == target;
  }

  // ---- extract_topics (lines 408-457) ----

  /** KeyBERT's key phrases for a stripped sentence (with the stopwords, n-gram range,
      `top_n` and diversity already bound), or `None` when the call raises. */
  type KeyPhrases = string -> Option<seq<string>>

  /** The topics of one sentence when KeyBERT is loaded: none for a blank sentence, the
      normalised phrases when KeyBERT answers, and the n-gram fallback on the stripped
      text when it raises. */
  function SentenceTopics(sentence: string, stopwords: set<string>, lo: int, hi: int,
                          keybert: KeyPhrases): seq<string>
  {
    var text := Strip(sentence);
    var answer := keybert(text);
    if text == "" then []
    else if answer.Some? then KeywordTopics(answer.value, stopwords)
    else Filter(FallbackTopics(text, stopwords, lo, hi), NonEmptyText)
  }

  /** The topics `extract_topics` gives one sentence; `keybert` is `None` when the model
      cannot be loaded, and then the sentence goes through the fallback unstripped. */
  function TopicsOf(sentence: string, stopwords: set<string>, lo: int, hi: int,
                    keybert: Option<KeyPhrases>): seq<string>
  {
    if keybert.None? then FallbackTopics(sentence, stopwords, lo, hi)
    else SentenceTopics(sentence, stopwords, lo, hi, keybert.value)
  }

  function ExtractedTopics(sentences: seq<string>, stopwords: set<string>, lo: int, hi: int,
                           keybert: Option<KeyPhrases>): seq<seq<string>>
  {
    seq(|sentences|, i requires 0 <= i < |sentences| => TopicsOf(sentences[i], stopwords, lo, hi, keybert))
  }

  /** The body of the sentence loop of `extract_topics` when KeyBERT is loaded. */
  method TopicsFor(sentence: string, stopwords: set<string>, lo: int, hi: int, keybert: KeyPhrases)
    returns (topics: seq<string>)
    ensures topics == SentenceTopics(sentence, stopwords, lo, hi, keybert)
  {
    var text := Strip(sentence);
    if text == "" {
      return [];
    }
    var keywords := keybert(text);
    if keywords.Some? {
      topics := DedupeNormalized(keywords.value, stopwords);
      return;
    }
    var fallback := FallbackFor(text, stopwords, lo, hi);
    topics := Filter(fallback, NonEmptyText);
  }

  /** The sentence loop of `extract_topics` when KeyBERT is loaded. */
  method KeyBertTopics(sentences: seq<string>, stopwords: set<string>, lo: int, hi: int,
                       keybert: KeyPhrases)
    returns (topics: seq<seq<string>>)
    ensures |topics| == |sentences|
    ensures forall k :: 0 <= k < |sentences| ==>
      topics[k] == SentenceTopics(sentences[k], stopwords, lo, hi, keybert)
  {
    ghost var target := seq(|sentences|, k requires 0 <= k < |sentences| =>
      SentenceTopics(sentences[k], stopwords, lo, hi, keybert));
    topics := [];
    var i := 0;
    while i < |sentences|
      invariant 0 <= i <= |sentences|
      invariant topics == target[..i]
    {
      var top := TopicsFor(sentences[i], stopwords, lo, hi, keybert);
      assert top == target[i];
      PrefixSnoc(target, i);
      topics := topics + [top];
      i := i + 1;
    }
    assert target[..i] == target;
  }

  method ExtractTopics(sentences: seq<string>, language: Option<string>,
                       base: string -> Option<set<string>>, lo: int, hi: int,
                       keybert: Option<KeyPhrases>)
    returns (topics: seq<seq<string>>)
    ensures topics == ExtractedTopics(sentences, LanguageStopwords(language, base), lo, hi, keybert)
  {
    var stopwords := LanguageStopwords(language, base);
    ghost var target := ExtractedTopics(sentences, stopwords, lo, hi, keybert);
    if keybert.None? {
      topics := SimpleTopicFallback(sentences, stopwords, lo, hi);
    } else {
      topics := KeyBertTopics(sentences, stopwords, lo, hi, keybert.value);
    }
    assert forall k :: 0 <= k < |sentences| ==> topics[k] == target[k];
  }

  /** Every sentence's topic list is duplicate-free and holds no empty topic; a blank
      sentence has none, and a sentence KeyBERT fails on has at most three. */
  lemma SentenceTopicsProperties(sentence: string, stopwords: set<string>, lo: int, hi: int,
                                 keybert: KeyPhrases)
    ensures var r := SentenceTopics(sentence, stopwords, lo, hi, keybert);
      && Distinct(r)
      && (forall t :: t in r ==> t != "")
      && (Blank(sentence) ==> r == [])
      && (!Blank(sentence) && keybert(Strip(sentence)).None? ==> |r| <= 3)
  {
    var text := Strip(sentence);
    if text != "" {
      match keybert(text)
      case Some(phrases) =>
        KeywordTopicsMembers(phrases, stopwords);
        KeywordTopicsNonEmpty(phrases, stopwords);
      case None =>
        FallbackTopicsProperties(text, stopwords, lo, hi);
        FilterDistinct(FallbackTopics(text, stopwords, lo, hi), NonEmptyText);
    }
  }

  /** One topic list per sentence; without KeyBERT each is the sentence's fallback list. */
  lemma ExtractedTopicsProperties(sentences: seq<string>, stopwords: set<string>, lo: int, hi: int,
                                  keybert: Option<KeyPhrases>)
    ensures var r := ExtractedTopics(sentences, stopwords, lo, hi, keybert);
      && |r| == |sentences|
      && (forall i :: 0 <= i < |r| ==> Distinct(r[i]) && forall t :: t in r[i] ==> t != "")
      && (keybert.None? ==> forall i :: 0 <= i < |r| ==> |r[i]| <= 3)
  {
    var r := ExtractedTopics(sentences, stopwords, lo, hi, keybert);
    forall i | 0 <= i < |r|
      ensures Distinct(r[i]) && (forall t :: t in r[i] ==> t != "")
      ensures keybert.None? ==> |r[i]| <= 3
    {
      assert r[i] == TopicsOf(sentences[i], stopwords, lo, hi, keybert);
      if keybert.None? {
        FallbackTopicsProperties(sentences[i], stopwords, lo, hi);
      } else {
        SentenceTopicsProperties(sentences[i], stopwords, lo, hi, keybert.value);
      }
    }
  }

  // ---- merge_topics (lines 460-472) ----

  /** The merged review topics: the first `limit` distinct non-empty topics in order.
      With `limit <= 0` the first check already stops the loop, so at most the very
      first topic survives. */
  function MergedTopics(topics: seq<seq<string>>, limit: int): seq<string> {
    if limit <= 0 then
      if topics != [] && topics[0] != [] && topics[0][0] != "" then [topics[0][0]] else []
    else Take(Dedupe(Filter(Flatten(topics), NonEmptyText)), limit)
  }

  lemma FlattenPrefix(topics: seq<seq<string>>, i: nat, j: nat)
    requires i < |topics| && j <= |topics[i]|
    ensures Flatten(topics[..i]) + topics[i][..j] <= Flatten(topics)
  {
    var upto := topics[..i + 1];
    assert upto[..i] == topics[..i];
    assert Flatten(upto) == Flatten(topics[..i]) + topics[i];
    FlattenAppend(upto, topics[i + 1..]);
    assert upto + topics[i + 1..] == topics;
  }

  /** Once `limit` topics are merged from a prefix, later topics change nothing. */
  lemma MergeCut(prefix: seq<string>, all: seq<string>, limit: nat)
    requires prefix <= all
    requires |Dedupe(Filter(prefix, NonEmptyText))| == limit
    ensures Take(Dedupe(Filter(all, NonEmptyText)), limit) == Dedupe(Filter(prefix, NonEmptyText))
  {
    var rest := all[|prefix|..];
    assert prefix + rest == all;
    var fp := Filter(prefix, NonEmptyText);
    var fr := Filter(rest, NonEmptyText);
    FilterAppend(prefix, rest, NonEmptyText);
    assert Filter(all, NonEmptyText) == fp + fr;
    DedupePrefix(fp, fr);
    var d := Dedupe(fp + fr);
    assert d[..limit] == Dedupe(fp);
    assert Take(d, limit) == d[..limit];
  }

  lemma MergeStep(visited: seq<string>, topic: string, merged: seq<string>)
    requires merged == Dedupe(Filter(visited, NonEmptyText))
    ensures Dedupe(Filter(visited + [topic], NonEmptyText)) ==
      if topic != "" && topic !in merged then merged + [topic] else merged
  {
    var f := Filter(visited, NonEmptyText);
    assert Filter(visited + [topic], NonEmptyText) == if topic != "" then f + [topic] else f by {
      FilterSnoc(visited, topic, NonEmptyText);
    }
    if topic != "" {
      DedupeSnoc(f, topic);
    }
  }

  lemma SliceSnoc(a: seq<string>, s: seq<string>, j: nat)
    requires j < |s|
    ensures a + s[..j + 1] == (a + s[..j]) + [s[j]]
  {
    assert s[..j + 1] == s[..j] + [s[j]];
  }

  /** The loop stops right after topic `j` of sentence `i`. */
  lemma MergeStopsAt(topics: seq<seq<string>>, limit: int, i: nat, j: nat, merged: seq<string>)
    requires i < |topics| && j < |topics[i]|
    requires merged == Dedupe(Filter(Flatten(topics[..i]) + topics[i][..j + 1], NonEmptyText))
    requires limit >= 1 ==> |merged| == limit
    requires limit <= 0 ==> i == 0 && j == 0
    ensures merged == MergedTopics(topics, limit)
  {
    if limit >= 1 {
      FlattenPrefix(topics, i, j + 1);
      MergeCut(Flatten(topics[..i]) + topics[i][..j + 1], Flatten(topics), limit);
    } else {
      var topic := topics[0][0];
      assert topics[..0] == [] && topics[0][..1] == [topic];
      assert Flatten(topics[..0]) + topics[0][..1] == [topic];
      assert Filter([topic], NonEmptyText) == Filter([], NonEmptyText) + (if topic != "" then [topic] else []);
    }
  }

  /** The body of the inner loop of `merge_topics`: add a new non-empty topic. */
  function AddTopic(merged: seq<string>, topic: string): seq<string> {
    if topic != "" && topic !in merged then merged + [topic] else merged
  }

  /** The merged list after the first `j` topics of one sentence. */
  function MergedAfter(merged: seq<string>, sentenceTopics: seq<string>, j: nat): seq<string>
    requires j <= |sentenceTopics|
  {
    if j == 0 then merged else AddTopic(MergedAfter(merged, sentenceTopics, j - 1), sentenceTopics[j - 1])
  }

  lemma AddTopicStep(visited: seq<string>, ts: seq<string>, j: nat, merged: seq<string>)
    requires j < |ts|
    requires merged == Dedupe(Filter(visited + ts[..j], NonEmptyText))
    ensures AddTopic(merged, ts[j]) == Dedupe(Filter(visited + ts[..j + 1], NonEmptyText))
  {
    MergeStep(visited + ts[..j], ts[j], merged);
    SliceSnoc(visited, ts, j);
  }

  /** Adding topics one at a time is deduplicating the non-empty ones. */
  lemma {:induction false} MergedAfterIsDedupe(visited: seq<string>, merged: seq<string>,
                                               ts: seq<string>, j: nat)
    requires j <= |ts|
    requires merged == Dedupe(Filter(visited, NonEmptyText))
    ensures MergedAfter(merged, ts, j) == Dedupe(Filter(visited + ts[..j], NonEmptyText))
  {
    if j == 0 {
      assert visited + ts[..0] == visited;
    } else {
      var before := MergedAfter(merged, ts, j - 1);
      MergedAfterIsDedupe(visited, merged, ts, j - 1);
      AddTopicStep(visited, ts, j - 1, before);
      assert MergedAfter(merged, ts, j) == AddTopic(before, ts[j - 1]);
    }
  }

  /** The merged list after the first `i` sentences, each looked at in full. */
  function MergedUpTo(topics: seq<seq<string>>, i: nat): seq<string>
    requires i <= |topics|
  {
    if i == 0 then [] else MergedAfter(MergedUpTo(topics, i - 1), topics[i - 1], |topics[i - 1]|)
  }

  lemma {:induction false} MergedUpToIsDedupe(topics: seq<seq<string>>, i: nat)
    requires i <= |topics|
    ensures MergedUpTo(topics, i) == Dedupe(Filter(Flatten(topics[..i]), NonEmptyText))
  {
    if i > 0 {
      MergedUpToIsDedupe(topics, i - 1);
      var ts := topics[i - 1];
      MergedAfterIsDedupe(Flatten(topics[..i - 1]), MergedUpTo(topics, i - 1), ts, |ts|);
      assert ts[..|ts|] == ts;
      FlattenSnoc(topics, i - 1);
    }
  }

  /** The loop stops after `used` topics of sentence `i`. */
  lemma MergeStopsAfter(topics: seq<seq<string>>, limit: int, i: nat, used: nat, merged: seq<string>)
    requires i < |topics| && 1 <= used <= |topics[i]|
    requires merged == MergedAfter(MergedUpTo(topics, i), topics[i], used)
    requires limit >= 1 ==> |merged| == limit
    requires limit <= 0 ==> i == 0 && used == 1
    ensures merged == MergedTopics(topics, limit)
  {
    var visited := Flatten(topics[..i]);
    var before := MergedUpTo(topics, i);
    assert before == Dedupe(Filter(visited, NonEmptyText)) by {
      MergedUpToIsDedupe(topics, i);
    }
    assert merged == Dedupe(Filter(visited + topics[i][..used], NonEmptyText)) by {
      MergedAfterIsDedupe(visited, before, topics[i], used);
    }
    MergeStopsAt(topics, limit, i, used - 1, merged);
  }

  /** The loop runs through every sentence. */
  lemma MergeRunsOut(topics: seq<seq<string>>, limit: int, merged: seq<string>)
    requires merged == MergedUpTo(topics, |topics|)
    requires limit >= 1 ==> |merged| < limit
    requires limit <= 0 ==> topics == []
    ensures merged == MergedTopics(topics, limit)
  {
    MergedUpToIsDedupe(topics, |topics|);
    assert topics[..|topics|] == topics;
  }

  /** The inner loop of `merge_topics` over one sentence's topics, with its `break`:
      `used` is the number of topics it looked at. */
  method MergeSentence(merged: seq<string>, sentenceTopics: seq<string>, limit: int)
    returns (r: seq<string>, ghost used: nat)
    requires limit >= 1 ==> |merged| < limit
    ensures used <= |sentenceTopics|
    ensures r == MergedAfter(merged, sentenceTopics, used)
    ensures used < |sentenceTopics| ==> |r| >= limit
    ensures limit >= 1 ==> |r| <= limit
    ensures limit <= 0 ==> used == (if sentenceTopics == [] then 0 else 1)
  {
    r := merged;
    var j := 0;
    while j < |sentenceTopics|
      invariant 0 <= j <= |sentenceTopics|
      invariant r == MergedAfter(merged, sentenceTopics, j)
      invariant limit >= 1 ==> |r| < limit
      invariant limit <= 0 ==> j == 0
    {
      var topic := sentenceTopics[j];
      if topic != "" && topic !in r {
        r := r + [topic];
      }
      if |r| >= limit {
        return r, j + 1;
      }
      j := j + 1;
    }
    used := j;
  }

  method MergeTopics(topics: seq<seq<string>>, limit: int) returns (merged: seq<string>)
    ensures merged == MergedTopics(topics, limit)
  {
    merged := [];
    var i := 0;
    while i < |topics|
      invariant 0 <= i <= |topics|
      invariant merged == MergedUpTo(topics, i)
      invariant limit >= 1 ==> |merged| < limit
      invariant limit <= 0 ==> i == 0
    {
      ghost var used;
      merged, used := MergeSentence(merged, topics[i], limit);
      if |merged| >= limit {
        if used == 0 {
          assert MergedTopics(topics, limit) == [];
        } else {
          MergeStopsAfter(topics, limit, i, used, merged);
        }
        return;
      }
      i := i + 1;
    }
    MergeRunsOut(topics, limit, merged);
  }

  /** The merged topics are distinct, non-empty topics of the sentences, at most `limit`
      of them (at most one when `limit <= 0`). */
  lemma MergedTopicsProperties(topics: seq<seq<string>>, limit: int)
    ensures var r := MergedTopics(topics, limit);
      && Distinct(r)
      && (forall t :: t in r ==> t != "" && exists i :: 0 <= i < |topics| && t in topics[i])
      && |r| <= (if limit >= 1 then limit else 1)
  {
    var r := MergedTopics(topics, limit);
    if limit >= 1 {
      var all := Dedupe(Filter(Flatten(topics), NonEmptyText));
      forall t | t in r ensures t != "" && exists i :: 0 <= i < |topics| && t in topics[i] {
        assert t in all;
        FlattenMember(topics, t);
      }
      forall a, b | 0 <= a < b < |r| ensures r[a] != r[b] {
        assert r[a] == all[a] && r[b] == all[b];
      }
    } else if r != [] {
      assert topics[0][0] in topics[0];
    }
  }

  /** When no more than `limit` distinct topics exist, every one of them is kept. */
  lemma MergedTopicsKeepsAll(topics: seq<seq<string>>, limit: int)
    requires limit >= 1 && |Dedupe(Filter(Flatten(topics), NonEmptyText))| <= limit
    ensures forall i, t :: 0 <= i < |topics| && t in topics[i] && t != "" ==>
      t in MergedTopics(topics, limit)
  {
    var all := Dedupe(Filter(Flatten(topics), NonEmptyText));
    assert MergedTopics(topics, limit) == all;
    forall i, t | 0 <= i < |topics| && t in topics[i] && t != ""
      ensures t in all
    {
      FlattenContains(topics, i, t);
    }
  }

  /** Merging merged topics again changes nothing, for every limit. */
  lemma MergeIdempotent(topics: seq<seq<string>>, limit: int)
    ensures MergedTopics([MergedTopics(topics, limit)], limit) == MergedTopics(topics, limit)
  {
    var r := MergedTopics(topics, limit);
    if limit >= 1 {
      MergedTopicsProperties(topics, limit);
      MergeOfOne(r, limit);
    }
  }

  lemma MergeOfOne(r: seq<string>, limit: nat)
    requires limit >= 1 && Distinct(r) && |r| <= limit
    requires forall t :: t in r ==> t != ""
    ensures MergedTopics([r], limit) == r
  {
    assert Flatten([r]) == Flatten([]) + r;
    assert [] + r == r;
    FilterAll(r, NonEmptyText);
    DedupeOfDistinct(r);
  }

  /** The repository's own example: later sentences add topics until the limit. */
  lemma MergeExample()
    ensures MergedTopics([["ui", "bugs"], ["bugs", "chat issues"], ["latency"]], 2) == ["ui", "bugs"]
  {
    var topics := [["ui", "bugs"], ["bugs", "chat issues"], ["latency"]];
    var prefix := ["ui", "bugs"];
    assert Filter(prefix, NonEmptyText) == prefix by { FilterAll(prefix, NonEmptyText); }
    assert Dedupe(prefix) == prefix by { DedupeOfDistinct(prefix); }
    FlattenPrefix(topics, 0, 2);
    assert topics[..0] == [] && topics[0][..2] == prefix;
    MergeCut(prefix, Flatten(topics), 2);
  }

  // ---- build_details (lines 475-491) ----

  datatype Detail = Detail(sentence: string, sentiment: string, topics: seq<string>)

  /** `zip(sentences, sentiments, topics)`: one entry per position of the shortest input. */
  method BuildDetails(sentences: seq<string>, sentiments: seq<string>, topics: seq<seq<string>>)
    returns (details: seq<Detail>)
    ensures |details| <= |sentences| && |details| <= |sentiments| && |details| <= |topics|
    ensures |details| == |sentences| || |details| == |sentiments| || |details| == |topics|
    ensures forall i :: 0 <= i < |details| ==>
      details[i] == Detail(sentences[i], sentiments[i], topics[i])
  {
    details := [];
    var i := 0;
    while i < |sentences| && i < |sentiments| && i < |topics|
      invariant 0 <= i <= |sentences| && i <= |sentiments| && i <= |topics|
      invariant |details| == i
      invariant forall k :: 0 <= k < i ==> details[k] == Detail(sentences[k], sentiments[k], topics[k])
    {
      details := details + [Detail(sentences[i], sentiments[i], topics[i])];
      i := i + 1;
    }
  }
}
