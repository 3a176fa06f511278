/** The per-file helpers of the cleaning stage (scripts/02_process_reviews.py): text
    column negotiation, the file-name parser, the incremental ID cache with its
    kill switch, the existing-ID filter and the status rule. */
module ProcessReviews {
  import opened Wrappers
  import opened Seqs
  import opened Text

  // ---- find_text_column (lines 43-55, 87-98) ----

  const TextColumnCandidates: seq<string> := [
    "content", "cleaned_content", "review_text", "review_body", "reviewbody",
    "text", "body", "comment", "description", "review"]

  const TextTokenFallback: set<string> := {"content", "text", "body", "comment", "description"}

  /** The class `[_\\s]` of the raw pattern: underscore, backslash and the letter `s`. */
  const FallbackSeparators: set<char> := {'_', '\\', 's'}

  /** `{c.lower(): c for c in columns}`. */
  function NormalizedColumns(columns: seq<string>): map<string, string> {
    LastWins(seq(|columns|, i requires 0 <= i < |columns| => (Lower(columns[i]), columns[i])))
  }

  /** The first candidate, in list order, that names a column. */
  function FirstCandidate(normalized: map<string, string>, candidates: seq<string>): Option<string> {
    if candidates == [] then None
    else if candidates[0] in normalized && normalized[candidates[0]] != "" then Some(normalized[candidates[0]])
    else FirstCandidate(normalized, candidates[1..])
  }

  predicate HasFallbackToken(column: string) {
    exists token :: token in SplitBy(Lower(column), FallbackSeparators) && token != "" &&
      token in TextTokenFallback
  }

  /** The first column, in column order, that satisfies `p`. */
  function FirstMatch<T>(columns: seq<T>, p: T -> bool): Option<T> {
    if columns == [] then None
    else if p(columns[0]) then Some(columns[0])
    else FirstMatch(columns[1..], p)
  }

  /** The first column, in column order, with a fallback token. */
  function FirstFallback(columns: seq<string>): Option<string> {
    FirstMatch(columns, HasFallbackToken)
  }

  function FindTextColumn(columns: seq<string>): Option<string> {
    match FirstCandidate(NormalizedColumns(columns), TextColumnCandidates)
    case Some(column) => Some(column)
    case None => FirstFallback(columns)
  }

  lemma {:induction false} FirstCandidateFound(normalized: map<string, string>, candidates: seq<string>)
    ensures var r := FirstCandidate(normalized, candidates);
      && (r.None? <==> forall k :: 0 <= k < |candidates| ==>
            candidates[k] !in normalized || normalized[candidates[k]] == "")
      && (r.Some? ==> exists k :: (
            0 <= k < |candidates| && candidates[k] in normalized &&
            r.value == normalized[candidates[k]] && r.value != "" &&
            forall j :: 0 <= j < k ==> candidates[j] !in normalized || normalized[candidates[j]] == ""))
    decreases |candidates|
  {
    if candidates != [] {
      var rest := candidates[1..];
      FirstCandidateFound(normalized, rest);
      var r := FirstCandidate(normalized, candidates);
      if !(candidates[0] in normalized && normalized[candidates[0]] != "") {
        if r.Some? {
          var k :| 0 <= k < |rest| && rest[k] in normalized && r.value == normalized[rest[k]] &&
            r.value != "" && forall j :: 0 <= j < k ==> rest[j] !in normalized || normalized[rest[j]] == "";
          assert candidates[k + 1] == rest[k];
          forall j | 0 <= j < k + 1
            ensures candidates[j] !in normalized || normalized[candidates[j]] == ""
          {
            if j > 0 { assert candidates[j] == rest[j - 1]; }
          }
        }
      }
    }
  }

  lemma {:induction false} FirstMatchFound<T>(columns: seq<T>, p: T -> bool)
    ensures var r := FirstMatch(columns, p);
      && (r.None? <==> forall k :: 0 <= k < |columns| ==> !p(columns[k]))
      && (r.Some? ==> exists k :: (
            0 <= k < |columns| && columns[k] == r.value &&
            p(r.value) && forall j :: 0 <= j < k ==> !p(columns[j])))
    decreases |columns|
  {
    if columns != [] && !p(columns[0]) {
      var rest := columns[1..];
      FirstMatchFound(rest, p);
      var r := FirstMatch(columns, p);
      if r.Some? {
        var k :| 0 <= k < |rest| && rest[k] == r.value && p(r.value) &&
          forall j :: 0 <= j < k ==> !p(rest[j]);
        assert columns[k + 1] == rest[k];
        forall j | 0 <= j < k + 1 ensures !p(columns[j]) {
          if j > 0 { assert columns[j] == rest[j - 1]; }
        }
      }
      forall k | 0 <= k < |rest| ensures columns[k + 1] == rest[k] { }
    }
  }

  lemma FirstFallbackFound(columns: seq<string>)
    ensures var r := FirstFallback(columns);
      && (r.None? <==> forall k :: 0 <= k < |columns| ==> !HasFallbackToken(columns[k]))
      && (r.Some? ==> exists k :: (
            0 <= k < |columns| && columns[k] == r.value &&
            HasFallbackToken(r.value) && forall j :: 0 <= j < k ==> !HasFallbackToken(columns[j])))
  {
    FirstMatchFound(columns, HasFallbackToken);
  }


  /** The lowered names map to columns, the last column winning for a shared name. */
  lemma NormalizedColumnsValues(columns: seq<string>)
    ensures forall name :: name in NormalizedColumns(columns) ==>
      NormalizedColumns(columns)[name] in columns && Lower(NormalizedColumns(columns)[name]) == name
    ensures forall i :: 0 <= i < |columns| ==> Lower(columns[i]) in NormalizedColumns(columns)
  {
    var pairs := seq(|columns|, i requires 0 <= i < |columns| => (Lower(columns[i]), columns[i]));
    LastWinsPairs(pairs);
    forall i | 0 <= i < |columns| ensures Lower(columns[i]) in NormalizedColumns(columns) {
      assert pairs[i].0 == Lower(columns[i]);
    }
  }

  /** Every value of a `LastWins` map comes from a pair with that key. */
  lemma {:induction false} LastWinsPairs(pairs: seq<(string, string)>)
    ensures forall k :: k in LastWins(pairs) ==>
      exists i :: 0 <= i < |pairs| && pairs[i] == (k, LastWins(pairs)[k])
    decreases |pairs|
  {
    if pairs != [] {
      var front := pairs[..|pairs| - 1];
      LastWinsPairs(front);
      forall k | k in LastWins(pairs) ensures exists i :: 0 <= i < |pairs| && pairs[i] == (k, LastWins(pairs)[k]) {
        if k != pairs[|pairs| - 1].0 {
          var i :| 0 <= i < |front| && front[i] == (k, LastWins(front)[k]);
          assert pairs[i] == front[i];
        } else {
          assert pairs[|pairs| - 1] == (k, LastWins(pairs)[k]);
        }
      }
    }
  }

  /** A candidate that names a column names a non-empty one. */
  lemma CandidatesNameNonEmpty(columns: seq<string>)
    ensures forall k :: 0 <= k < |TextColumnCandidates| && TextColumnCandidates[k] in NormalizedColumns(columns) ==>
      NormalizedColumns(columns)[TextColumnCandidates[k]] != ""
  {
    var normalized := NormalizedColumns(columns);
    NormalizedColumnsValues(columns);
    forall k | 0 <= k < |TextColumnCandidates| && TextColumnCandidates[k] in normalized
      ensures normalized[TextColumnCandidates[k]] != ""
    {
      var c := TextColumnCandidates[k];
      assert c != "";
      assert |Lower(normalized[c])| == |c|;
    }
  }

  /** The chosen column is one of the columns, and one chosen without a fallback token
      is a candidate up to case. */
  lemma FindTextColumnChoosesColumn(columns: seq<string>)
    ensures var r := FindTextColumn(columns);
      && (r.Some? ==> r.value in columns)
      && (r.Some? && !HasFallbackToken(r.value) ==> Lower(r.value) in TextColumnCandidates)
  {
    var normalized := NormalizedColumns(columns);
    NormalizedColumnsValues(columns);
    FirstCandidateFound(normalized, TextColumnCandidates);
    FirstFallbackFound(columns);
  }

  /** Candidates are tried in list order and matched case-insensitively, the last
      column winning among columns with the same lowered name. */
  lemma FindTextColumnCandidateOrder(columns: seq<string>)
    ensures var normalized := NormalizedColumns(columns);
      (exists k :: 0 <= k < |TextColumnCandidates| && TextColumnCandidates[k] in normalized) ==>
      exists k :: (
        0 <= k < |TextColumnCandidates| && TextColumnCandidates[k] in normalized &&
        FindTextColumn(columns) == Some(normalized[TextColumnCandidates[k]]) &&
        forall j :: 0 <= j < k ==> TextColumnCandidates[j] !in normalized)
  {
    var normalized := NormalizedColumns(columns);
    CandidatesNameNonEmpty(columns);
    FirstCandidateFound(normalized, TextColumnCandidates);
  }

  /** When no lowered column name is a candidate, the first column with a fallback
      token is chosen, and `None` means no column has one. */
  lemma FindTextColumnFallback(columns: seq<string>)
    requires forall c :: c in columns ==> Lower(c) !in TextColumnCandidates
    ensures FindTextColumn(columns) == FirstFallback(columns)
    ensures FindTextColumn(columns).None? <==> forall k :: 0 <= k < |columns| ==> !HasFallbackToken(columns[k])
  {
    var normalized := NormalizedColumns(columns);
    NormalizedColumnsValues(columns);
    FirstCandidateFound(normalized, TextColumnCandidates);
    FirstFallbackFound(columns);
    assert forall name :: name in normalized ==> name !in TextColumnCandidates;
  }

  /** The pairs behind `NormalizedColumns`. */
  lemma NormalizedPairs(columns: seq<string>, pairs: seq<(string, string)>)
    requires |pairs| == |columns|
    requires forall i :: 0 <= i < |columns| ==> pairs[i] == (Lower(columns[i]), columns[i])
    ensures NormalizedColumns(columns) == LastWins(pairs)
  {
    assert seq(|columns|, i requires 0 <= i < |columns| => (Lower(columns[i]), columns[i])) == pairs;
  }

  /** "content" comes before "cleaned_content" among the candidates. */
  lemma ContentBeatsCleanedContent()
    ensures FindTextColumn(["cleaned_content", "Content"]) == Some("Content")
  {
    var columns := ["cleaned_content", "Content"];
    var pairs := [("cleaned_content", "cleaned_content"), ("content", "Content")];
    assert Lower(columns[0]) == "cleaned_content";
    assert Lower(columns[1]) == "content";
    NormalizedPairs(columns, pairs);
    LastWinsValue(pairs, 1);
  }

  /** Of two columns with the same lowered name, the later one is returned. */
  lemma LaterDuplicateWins()
    ensures FindTextColumn(["CONTENT", "Content"]) == Some("Content")
  {
    var columns := ["CONTENT", "Content"];
    var pairs := [("content", "CONTENT"), ("content", "Content")];
    assert Lower(columns[0]) == "content";
    assert Lower(columns[1]) == "content";
    NormalizedPairs(columns, pairs);
    LastWinsValue(pairs, 1);
  }

  lemma BodysHasFallbackToken()
    ensures HasFallbackToken("bodys")
  {
    assert Lower("bodys") == "body" + ['s'] + "" by {
      LowerIsLowerCase("bodys");
    }
    assert SplitBy(Lower("bodys"), FallbackSeparators) == ["body"] + SplitBy("", FallbackSeparators) by {
      SplitByAfterPiece("body", 's', "", FallbackSeparators);
    }
    assert "body" in SplitBy(Lower("bodys"), FallbackSeparators);
  }

  lemma BodysNotCandidate()
    ensures Lower("bodys") !in TextColumnCandidates
  {
    assert forall c :: c in TextColumnCandidates ==> |c| != 5;
  }

  /** The raw-string class splits on the letter `s`, so "bodys" has the token "body". */
  lemma FallbackSplitsOnLetterS()
    ensures FindTextColumn(["bodys"]) == Some("bodys")
  {
    BodysHasFallbackToken();
    BodysNotCandidate();
    assert FirstFallback(["bodys"]) == Some("bodys");
    FindTextColumnFallback(["bodys"]);
  }

  // ---- extract_app_country (lines 56-59, 79-84) ----

  /** `_XX_dddd-dd-dd`: the 14-character tail after the app name. */
  predicate IsDatedCountrySuffix(s: string)
    requires |s| == 14
  {
    s[0] == '_' && IsAsciiLetter(s[1]) && IsAsciiLetter(s[2]) && s[3] == '_' &&
    IsDigit(s[4]) && IsDigit(s[5]) && IsDigit(s[6]) && IsDigit(s[7]) && s[8] == '-' &&
    IsDigit(s[9]) && IsDigit(s[10]) && s[11] == '-' && IsDigit(s[12]) && IsDigit(s[13])
  }

  /** `dddd-dd-dd`. */
  predicate IsDate(d: string) {
    |d| == 10 && IsDigit(d[0]) && IsDigit(d[1]) && IsDigit(d[2]) && IsDigit(d[3]) && d[4] == '-' &&
    IsDigit(d[5]) && IsDigit(d[6]) && d[7] == '-' && IsDigit(d[8]) && IsDigit(d[9])
  }

  /** The stem matches the file pattern: a non-empty, newline-free app name followed by
      the dated country suffix. */
  predicate MatchesAppFile(stem: string) {
    |stem| >= 15 && IsDatedCountrySuffix(stem[|stem| - 14..]) && '\n' !in stem[..|stem| - 14]
  }

  /** `(app, country.lower())`, or `("unknown", "xx")` when the stem does not match. */
  function ExtractAppCountry(stem: string): (string, string) {
    if MatchesAppFile(stem) then (stem[..|stem| - 14], Lower(stem[|stem| - 13..|stem| - 11]))
    else ("unknown", "xx")
  }

  /** The country is always two lowercase letters; a stem that does not match the
      pattern gives the placeholder pair `("unknown", "xx")`. */
  lemma ExtractedCountryIsTwoLowercase(stem: string)
    ensures var country := ExtractAppCountry(stem).1;
      |country| == 2 && forall i :: 0 <= i < 2 ==> 'a' <= country[i] <= 'z'
    ensures !MatchesAppFile(stem) ==> ExtractAppCountry(stem) == ("unknown", "xx")
  {
    if MatchesAppFile(stem) {
      var tail := stem[|stem| - 14..];
      assert stem[|stem| - 13..|stem| - 11] == [tail[1], tail[2]];
    }
  }

  /** A stem built from an app name, a two-letter country and a date parses back. */
  lemma ExtractAppCountryRoundTrip(app: string, country: string, date: string)
    requires app != "" && '\n' !in app
    requires |country| == 2 && IsAsciiLetter(country[0]) && IsAsciiLetter(country[1])
    requires IsDate(date)
    ensures ExtractAppCountry(app + "_" + country + "_" + date) == (app, Lower(country))
  {
    var stem := app + "_" + country + "_" + date;
    assert stem[..|stem| - 14] == app;
    assert stem[|stem| - 13..|stem| - 11] == country;
    var tail := stem[|stem| - 14..];
    assert tail == "_" + country + "_" + date;
  }

  /** A stem that parses is exactly such a built stem. */
  lemma ExtractAppCountrySound(stem: string)
    requires MatchesAppFile(stem)
    ensures var (app, country) := ExtractAppCountry(stem);
      var code := stem[|stem| - 13..|stem| - 11];
      var date := stem[|stem| - 10..];
      && app != "" && '\n' !in app && IsDate(date) && country == Lower(code)
      && stem == app + "_" + code + "_" + date
  {
    var n := |stem|;
    assert stem == stem[..n - 14] + [stem[n - 14]] + stem[n - 13..n - 11] + [stem[n - 11]] + stem[n - 10..];
  }

  // ---- fetch_existing_ids (lines 62-63, 118-139) ----

  /** `(source, app, country)`. */
  type CacheKey = (string, string, string)

  /** The outcome of one call: the IDs, whether they came from the cache, whether
      incremental mode is active, and the new cache and switch. */
  datatype Fetched = Fetched(
    ids: set<string>, cacheHit: bool, active: bool,
    cache: map<CacheKey, set<string>>, enabled: bool)

  /** One call of `fetch_existing_ids`; `lookup` is the remote query, `None` when it raises. */
  function Fetch(cache: map<CacheKey, set<string>>, enabled: bool, key: CacheKey,
                 lookup: CacheKey -> Option<set<string>>): Fetched
  {
    if !enabled then Fetched({}, false, false, cache, enabled)
    else if key in cache then Fetched(cache[key], true, true, cache, enabled)
    else match lookup(key)
      case Some(ids) => Fetched(ids, false, true, cache[key := ids], true)
      case None => Fetched({}, false, false, cache, false)
  }

  /** The module-level cache and kill switch. */
  class IncrementalCache {
    var cache: map<CacheKey, set<string>>
    var enabled: bool

    constructor ()
      ensures cache == map[] && enabled
    {
      cache := map[];
      enabled := true;
    }

    method FetchExistingIds(source: string, app: string, country: string,
                            lookup: CacheKey -> Option<set<string>>)
      returns (ids: set<string>, cacheHit: bool, active: bool)
      modifies this
      ensures Fetched(ids, cacheHit, active, cache, enabled) ==
        Fetch(old(cache), old(enabled), (source, app, country), lookup)
    {
      var key := (source, app, country);
      if !enabled {
        return {}, false, false;
      }
      if key in cache {
        return cache[key], true, true;
      }
      var answer := lookup(key);
      if answer.Some? {
        cache := cache[key := answer.value];
        return answer.value, false, true;
      }
      enabled := false;
      return {}, false, false;
    }
  }

  /** Once switched off, a call returns no IDs, inactive, and changes nothing; the
      switch only goes off, and only when the lookup raises. */
  lemma FetchKillSwitch(cache: map<CacheKey, set<string>>, enabled: bool, key: CacheKey,
                        lookup: CacheKey -> Option<set<string>>)
    ensures var f := Fetch(cache, enabled, key, lookup);
      && (!enabled ==> f == Fetched({}, false, false, cache, false))
      && (f.enabled ==> enabled)
      && (enabled && !f.enabled <==> enabled && key !in cache && lookup(key).None?)
      && (f.active <==> f.enabled)
  {
  }

  /** A successful lookup is stored, and while enabled every later call with the same
      key returns the stored IDs as a cache hit, whatever the lookup would say. */
  lemma FetchCaches(cache: map<CacheKey, set<string>>, key: CacheKey,
                    lookup: CacheKey -> Option<set<string>>, later: CacheKey -> Option<set<string>>,
                    ids: set<string>)
    requires key !in cache && lookup(key) == Some(ids)
    ensures var f := Fetch(cache, true, key, lookup);
      && f == Fetched(ids, false, true, cache[key := ids], true)
      && Fetch(f.cache, f.enabled, key, later) == Fetched(ids, true, true, f.cache, true)
  {
  }

  /** A run of calls; the state after them. */
  function FetchAll(cache: map<CacheKey, set<string>>, enabled: bool, keys: seq<CacheKey>,
                    lookup: CacheKey -> Option<set<string>>): Fetched
    decreases |keys|
  {
    if keys == [] then Fetched({}, false, enabled, cache, enabled)
    else
      var f := Fetch(cache, enabled, keys[0], lookup);
      FetchAll(f.cache, f.enabled, keys[1..], lookup)
  }

  /** Over any run of calls the switch never comes back on, a switched-off cache never
      changes, and stored IDs are never replaced. */
  lemma {:induction false} FetchAllMonotone(cache: map<CacheKey, set<string>>, enabled: bool,
                                            keys: seq<CacheKey>, lookup: CacheKey -> Option<set<string>>)
    ensures var f := FetchAll(cache, enabled, keys, lookup);
      && (f.enabled ==> enabled)
      && (!enabled ==> f.cache == cache)
      && (forall k :: k in cache ==> k in f.cache && f.cache[k] == cache[k])
    decreases |keys|
  {
    if keys != [] {
      var f := Fetch(cache, enabled, keys[0], lookup);
      assert forall k :: k in cache ==> k in f.cache && f.cache[k] == cache[k];
      FetchAllMonotone(f.cache, f.enabled, keys[1..], lookup);
    }
  }

  // ---- The existing-ID filter and the file status (lines 172-187, 219-221, 287-289) ----

  /** A raw review row: the stringified `source_review_id`, which the filter reads, and
      the review text, which stands for the rest of the row and is carried along unread. */
  datatype RawReview = RawReview(sourceReviewId: string, content: string)

  function NotExisting(existing: set<string>): RawReview -> bool {
    (r: RawReview) => r.sourceReviewId !in existing
  }

  function Existing(existing: set<string>): RawReview -> bool {
    (r: RawReview) => r.sourceReviewId in existing
  }

  /** The rows kept before cleaning, and the number skipped as already uploaded. */
  function FilterExisting(rows: seq<RawReview>, existing: set<string>, active: bool,
                          hasIdColumn: bool): (seq<RawReview>, nat)
  {
    if active && existing != {} && hasIdColumn then
      var kept := Filter(rows, NotExisting(existing));
      (kept, |rows| - |kept|)
    else (rows, 0)
  }

  /** The filter keeps exactly the rows whose ID is new and counts the rest; that it
      keeps them in their original order is how `Filter` is built (`Seqs.FilterSnoc`). */
  lemma FilterExistingProperties(rows: seq<RawReview>, existing: set<string>, active: bool,
                                 hasIdColumn: bool)
    ensures var (kept, skipped) := FilterExisting(rows, existing, active, hasIdColumn);
      && |kept| + skipped == |rows|
      && (active && existing != {} && hasIdColumn ==>
            (forall r :: r in kept <==> r in rows && r.sourceReviewId !in existing) &&
            skipped == |Filter(rows, Existing(existing))|)
      && (!(active && existing != {} && hasIdColumn) ==> kept == rows && skipped == 0)
  {
    FilterPartition(rows, NotExisting(existing), Existing(existing));
  }

  datatype Status = NoNewReviews | NewDataset | PartialUpdate {
    function Name(): string {
      match this
      case NoNewReviews => "no_new_reviews"
      case NewDataset => "new_dataset"
      case PartialUpdate => "partial_update"
    }
  }

  /** The status recorded for a file from the row counts after the ID filter, after
      cleaning, and at the end, and the number of skipped rows. */
  function FileStatus(afterFilter: nat, afterCleaning: nat, final: nat, skipped: nat): Status {
    if afterFilter == 0 then NoNewReviews
    else if afterCleaning == 0 then NoNewReviews
    else
      var status := if skipped == 0 then NewDataset else PartialUpdate;
      if final == 0 then NoNewReviews else status
  }

  lemma FileStatusCases(afterFilter: nat, afterCleaning: nat, final: nat, skipped: nat)
    ensures var s := FileStatus(afterFilter, afterCleaning, final, skipped);
      && (s == NoNewReviews <==> afterFilter == 0 || afterCleaning == 0 || final == 0)
      && (s == NewDataset <==> afterFilter > 0 && afterCleaning > 0 && final > 0 && skipped == 0)
      && (s == PartialUpdate <==> afterFilter > 0 && afterCleaning > 0 && final > 0 && skipped > 0)
  {
  }
}
