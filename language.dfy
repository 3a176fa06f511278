/** Language resolution and per-row language detection
    (ml/pipeline/sentiment_topics.py, `_resolve_language` and `detect_languages`). */
module Language {
  import opened Wrappers
  import opened Text

  /** Country code to language code, used when no explicit language is known. */
  const DefaultCountryLanguageMap: map<string, string> := map[
    "fr" := "fr", "us" := "en", "de" := "de", "se" := "sv",
    "gb" := "en", "ca" := "en", "it" := "it", "es" := "es"
  ]

  /** Fallback chains tried, in order, for codes that are neither supported nor mapped. */
  const LanguageFallbacks: map<string, seq<string>> := map[
    "se" := ["sv", "en"], "sv" := ["sv", "en"], "ca" := ["en"],
    "pt" := ["pt", "en"], "mx" := ["es", "en"]
  ]

  /** Languages with a registered segmentation model, and the model's name. */
  const SpacyModelNames: map<string, string> := map[
    "en" := "en_core_web_sm", "fr" := "fr_core_news_sm", "de" := "de_core_news_sm",
    "sv" := "sv_core_news_sm", "it" := "it_core_news_sm", "es" := "es_core_news_sm",
    "ca" := "ca_core_news_sm", "pt" := "pt_core_news_sm"
  ]

  /** The first entry of a fallback chain that has a segmentation model. */
  function FirstSupported(chain: seq<string>): (r: Option<string>)
    ensures r.Some? ==> r.value in chain && r.value in SpacyModelNames
    ensures r.None? ==> forall c :: c in chain ==> c !in SpacyModelNames
  {
    if chain == [] then None
    else if chain[0] in SpacyModelNames then Some(chain[0])
    else FirstSupported(chain[1..])
  }

  /** `language or ""`: Python's None and the empty string both read as "". */
  function OrEmpty(language: Option<string>): string {
    language.GetOr("")
  }

  /** `_resolve_language`: the first rule that applies wins. */
  function ResolveLanguage(language: Option<string>, countryMap: map<string, string>): (r: string)
    ensures |r| == 2 || r in countryMap.Values
    ensures (forall v :: v in countryMap.Values ==> v != "") ==> r != ""
  {
    var lang := Lower(OrEmpty(language));
    if lang == "" then "en"
    else if lang in SpacyModelNames then lang
    else if lang in countryMap then countryMap[lang]
    else
      match FirstSupported(if lang in LanguageFallbacks then LanguageFallbacks[lang] else [])
      case Some(fb) => fb
      case None => if |lang| == 2 then lang else "en"
  }

  /** A code with a segmentation model resolves to itself, whatever the country map. */
  lemma ResolveSupported(code: string, countryMap: map<string, string>)
    requires code in SpacyModelNames
    ensures ResolveLanguage(Some(code), countryMap) == code
  {
    assert IsLowerCase(code);
    LowerIsLowerCase(code);
  }

  /** A two-letter code that has no model, no country mapping and no fallback chain
      comes back lowercased but otherwise verbatim. */
  lemma ResolveUnknownTwoLetter(language: string, countryMap: map<string, string>)
    requires |language| == 2
    requires Lower(language) !in SpacyModelNames && Lower(language) !in countryMap
    requires Lower(language) !in LanguageFallbacks
    ensures ResolveLanguage(Some(language), countryMap) == Lower(language)
  {
  }

  /** A code of any other length that has no model, no country mapping and no fallback
      chain resolves to "en". */
  lemma ResolveUnknownLonger(language: string, countryMap: map<string, string>)
    requires |language| != 2
    requires Lower(language) !in SpacyModelNames && Lower(language) !in countryMap
    requires Lower(language) !in LanguageFallbacks
    ensures ResolveLanguage(Some(language), countryMap) == "en"
  {
  }

  /** With the default country map, resolution always yields a non-empty two-letter
      code that is either a language with a segmentation model or the lowercased input
      itself. */
  lemma ResolveWithDefaultMap(language: Option<string>)
    ensures var r := ResolveLanguage(language, DefaultCountryLanguageMap);
      |r| == 2 && (r in SpacyModelNames || r == Lower(OrEmpty(language)))
  {
    var lang := Lower(OrEmpty(language));
    var r := ResolveLanguage(language, DefaultCountryLanguageMap);
    assert forall k :: k in SpacyModelNames ==> |k| == 2;
    if lang == "" || lang in SpacyModelNames {
    } else if lang in DefaultCountryLanguageMap {
      assert r == DefaultCountryLanguageMap[lang];
      assert r in DefaultCountryLanguageMap.Values;
      assert forall v :: v in DefaultCountryLanguageMap.Values ==> v in SpacyModelNames;
    } else {
      var chain := if lang in LanguageFallbacks then LanguageFallbacks[lang] else [];
      match FirstSupported(chain)
      case Some(fb) => assert r == fb;
      case None => assert r == (if |lang| == 2 then lang else "en");
    }
  }

  /** With the default country map, the input comes back verbatim (lowercased) exactly
      when it has a segmentation model or is a two-letter code that no table knows: a
      mapped country or a fallback key always becomes another language. */
  lemma ResolveVerbatim(language: Option<string>)
    ensures var lang := Lower(OrEmpty(language));
      ResolveLanguage(language, DefaultCountryLanguageMap) == lang <==>
        lang in SpacyModelNames ||
        (|lang| == 2 && lang !in DefaultCountryLanguageMap && lang !in LanguageFallbacks)
  {
    var lang := Lower(OrEmpty(language));
    var r := ResolveLanguage(language, DefaultCountryLanguageMap);
    if lang == "" || lang in SpacyModelNames {
    } else if lang in DefaultCountryLanguageMap {
      assert lang in {"us", "se", "gb"} by {
        assert DefaultCountryLanguageMap.Keys - SpacyModelNames.Keys == {"us", "se", "gb"};
      }
    } else if lang in LanguageFallbacks {
      assert lang == "mx" by {
        assert LanguageFallbacks.Keys - SpacyModelNames.Keys - DefaultCountryLanguageMap.Keys == {"mx"};
      }
      assert r == "es";
    } else {
      assert FirstSupported([]) == None;
    }
  }

  /** Resolving an already resolved code changes nothing (default country map). */
  lemma {:induction false} ResolveIdempotent(language: Option<string>)
    ensures var r := ResolveLanguage(language, DefaultCountryLanguageMap);
      ResolveLanguage(Some(r), DefaultCountryLanguageMap) == r
  {
    var lang := Lower(OrEmpty(language));
    var r := ResolveLanguage(language, DefaultCountryLanguageMap);
    ResolveWithDefaultMap(language);
    LowerIsLowerCase(OrEmpty(language));
    assert forall k :: k in SpacyModelNames ==> Lower(k) == k by {
      forall k | k in SpacyModelNames ensures Lower(k) == k {
        assert IsLowerCase(k);
        LowerIsLowerCase(k);
      }
    }
    if r !in SpacyModelNames {
      assert r == lang;
      assert Lower(r) == r;
    }
  }

  lemma ResolveExamples()
    ensures ResolveLanguage(None, DefaultCountryLanguageMap) == "en"
    ensures ResolveLanguage(Some(""), DefaultCountryLanguageMap) == "en"
    ensures ResolveLanguage(Some("ca"), DefaultCountryLanguageMap) == "ca"
    ensures ResolveLanguage(Some("se"), DefaultCountryLanguageMap) == "sv"
    ensures ResolveLanguage(Some("mx"), DefaultCountryLanguageMap) == "es"
  {
    assert Lower("ca") == "ca";
    assert Lower("se") == "se";
    assert Lower("mx") == "mx";
  }

  /** The cells of one review row that language detection reads. `None` stands for a
      missing column or Python's None, and for `language` also any non-string value.
      A `country` cell holds a string or nothing: a truthy non-string country (a
      float NaN, say) makes the source raise at `.lower()` and has no representation
      here. */
  datatype LanguageRow = LanguageRow(
    language: Option<string>,
    country: Option<string>,
    cleanedContent: Option<string>,
    content: Option<string>)

  /** `country_map or DEFAULT_COUNTRY_LANGUAGE_MAP`: an empty map counts as absent. */
  function EffectiveCountryMap(countryMap: Option<map<string, string>>): map<string, string> {
    if countryMap.None? || countryMap.value == map[] then DefaultCountryLanguageMap
    else countryMap.value
  }

  /** The explicit language of a row, if its cell is a non-blank string. */
  function ExplicitLanguage(row: LanguageRow): Option<string> {
    if row.language.Some? && Strip(row.language.value) != "" then
      Some(Lower(Strip(row.language.value)))
    else None
  }

  /** `row.get("cleaned_content") or row.get("content") or ""`, stripped. */
  function RowText(row: LanguageRow): string {
    var cleaned := OrEmpty(row.cleanedContent);
    Strip(if cleaned != "" then cleaned else OrEmpty(row.content))
  }

  /** The `_detect` closure: explicit language, then country map, then blank text
      gives "en", then the detector (`None` when it raises) with "en" as fallback. */
  function DetectRow(row: LanguageRow, countryMap: map<string, string>,
                     detect: string -> Option<string>): (r: string)
    ensures ExplicitLanguage(row).Some? ==> r == ExplicitLanguage(row).value
    ensures ExplicitLanguage(row).None? && Lower(OrEmpty(row.country)) in countryMap ==>
      r == countryMap[Lower(OrEmpty(row.country))]
    ensures (ExplicitLanguage(row).None? && Lower(OrEmpty(row.country)) !in countryMap &&
             RowText(row) == "") ==> r == "en"
    ensures (ExplicitLanguage(row).None? && Lower(OrEmpty(row.country)) !in countryMap &&
             RowText(row) != "") ==> r == detect(RowText(row)).GetOr("en")
  {
    match ExplicitLanguage(row)
    case Some(l) => l
    case None =>
      var country := Lower(OrEmpty(row.country));
      if country in countryMap then countryMap[country]
      else if RowText(row) == "" then "en"
      else detect(RowText(row)).GetOr("en")
  }

  datatype DetectError = NoRows

  /** `detect_languages`: an empty table is an error; otherwise one code per row. */
  function DetectLanguages(rows: seq<LanguageRow>, countryMap: Option<map<string, string>>,
                           detect: string -> Option<string>): (r: Result<seq<string>, DetectError>)
    ensures r.Failure? <==> rows == []
    ensures r.Success? ==> |r.value| == |rows|
    ensures r.Success? ==> forall i :: 0 <= i < |rows| ==>
      r.value[i] == DetectRow(rows[i], EffectiveCountryMap(countryMap), detect)
  {
    if rows == [] then Failure(NoRows)
    else Success(seq(|rows|, i requires 0 <= i < |rows| =>
      DetectRow(rows[i], EffectiveCountryMap(countryMap), detect)))
  }

  /** The detector is consulted only for a row with no explicit language, no mapped
      country and non-blank text: otherwise the result does not depend on it. */
  lemma DetectorOnlyAsLastResort(row: LanguageRow, countryMap: map<string, string>,
                                 d1: string -> Option<string>, d2: string -> Option<string>)
    requires ExplicitLanguage(row).Some? || Lower(OrEmpty(row.country)) in countryMap ||
             RowText(row) == ""
    ensures DetectRow(row, countryMap, d1) == DetectRow(row, countryMap, d2)
  {
  }

  /** Every detected code is non-empty when the map and the detector never give "". */
  lemma DetectRowNonEmpty(row: LanguageRow, countryMap: map<string, string>,
                          detect: string -> Option<string>)
    requires forall v :: v in countryMap.Values ==> v != ""
    requires forall t :: detect(t).Some? ==> detect(t).value != ""
    ensures DetectRow(row, countryMap, detect) != ""
  {
    match ExplicitLanguage(row)
    case Some(l) =>
    case None =>
      var country := Lower(OrEmpty(row.country));
      if country in countryMap {
        assert countryMap[country] in countryMap.Values;
      }
  }

  /** The two sample rows of the test suite: "it" from the language column and "en"
      for Canada from the country map, whatever the detector says. */
  lemma DetectSampleRows(detect: string -> Option<string>)
    ensures DetectLanguages([
      LanguageRow(Some("it"), Some("it"), Some("Adoro l'app ma a volte si blocca"), None),
      LanguageRow(None, Some("ca"), Some("Great idea though the chat keeps crashing"), None)
    ], None, detect) == Success(["it", "en"])
  {
    var rows := [
      LanguageRow(Some("it"), Some("it"), Some("Adoro l'app ma a volte si blocca"), None),
      LanguageRow(None, Some("ca"), Some("Great idea though the chat keeps crashing"), None)
    ];
    assert Trimmed("it");
    assert Strip("it") == "it";
    assert Lower("it") == "it";
    assert Lower("ca") == "ca";
    var m := EffectiveCountryMap(None);
    assert DetectRow(rows[0], m, detect) == "it";
    assert DetectRow(rows[1], m, detect) == "en";
    var r := DetectLanguages(rows, None, detect);
    assert r.Success? && |r.value| == 2;
    assert r.value == ["it", "en"];
  }
}
