/**
 * The message catalogue of utils/translator.js: a cache of locale files keyed
 * by language, the language in use, the lookup with an English fallback, and
 * the loader that fetches `/_locales/<lang>/messages.json`.
 *
 * A locale file is a map from message key to its entry; only the entry's
 * `message` is read. The network is an oracle `fetch` giving the parsed file
 * of a language, or `None` when the request is rejected, the response is not
 * ok, or the body is not JSON. The loader returns the URLs it requested.
 */
module Translator {
  import opened JsText

  /** One entry of a locale file. */
  datatype Entry = Entry(message: string)

  /** A parsed `messages.json`. */
  type Messages = map<string, Entry>

  /** The network: the parsed locale file of a language, when it loads. */
  type Fetch = string -> Option<Messages>

  /** The translator's state: the loaded locale files and the language in
      use. */
  datatype Catalog = Catalog(translations: map<string, Messages>, currentLang: string)

  /** What a new translator starts with: nothing loaded, English in use. */
  function Empty(): Catalog {
    Catalog(map[], "en")
  }

  /** The URL of a language's locale file. */
  function LocaleUrl(lang: string): string {
    "/_locales/" + lang + "/messages.json"
  }

  /** `translations[lang] && translations[lang][key]`: the entry for `key` in
      the locale file of `lang`, when both are present. */
  function EntryOf(translations: map<string, Messages>, lang: string, key: string): Option<Entry> {
    if lang in translations && key in translations[lang] then Some(translations[lang][key]) else None
  }

  /** `getMessage(key)`: the message of the language in use, else the English
      one, else the key itself. */
  function Lookup(c: Catalog, key: string): (m: string)
    ensures c.currentLang in c.translations && key in c.translations[c.currentLang] ==>
              m == c.translations[c.currentLang][key].message
    ensures !(c.currentLang in c.translations && key in c.translations[c.currentLang])
            && "en" in c.translations && key in c.translations["en"] ==>
              m == c.translations["en"][key].message
    ensures !(c.currentLang in c.translations && key in c.translations[c.currentLang])
            && !("en" in c.translations && key in c.translations["en"]) ==>
              m == key
  {
    match EntryOf(c.translations, c.currentLang, key)
    case Some(e) => e.message
    case None =>
      match EntryOf(c.translations, "en", key)
      case Some(e) => e.message
      case None => key
  }

  /** Reference search: the message of the first language in `langs` whose
      locale file has `key`. */
  function FirstHit(langs: seq<string>, translations: map<string, Messages>, key: string): Option<string>
    decreases |langs|
  {
    if langs == [] then None
    else if langs[0] in translations && key in translations[langs[0]] then
      Some(translations[langs[0]][key].message)
    else FirstHit(langs[1..], translations, key)
  }

  /** The lookup is the first hit among the language in use and English, or
      the key when neither locale file has it. */
  lemma LookupIsFirstHit(c: Catalog, key: string)
    ensures FirstHit([c.currentLang, "en"], c.translations, key).Some? ==>
              Lookup(c, key) == FirstHit([c.currentLang, "en"], c.translations, key).value
    ensures FirstHit([c.currentLang, "en"], c.translations, key).None? ==> Lookup(c, key) == key
  {
    var langs := [c.currentLang, "en"];
    assert langs[1..] == ["en"] && ["en"][1..] == [];
    assert FirstHit(["en"], c.translations, key) ==
      (if "en" in c.translations && key in c.translations["en"] then Some(c.translations["en"][key].message) else None);
  }

  /** A key the language in use lacks falls back to English, which in turn
      cannot be shadowed once the language in use is English. */
  lemma EnglishFallback(c: Catalog, key: string)
    requires "en" in c.translations && key in c.translations["en"]
    requires c.currentLang == "en" || c.currentLang !in c.translations || key !in c.translations[c.currentLang]
    ensures Lookup(c, key) == c.translations["en"][key].message
  {
  }

  /** The result of `load`: the new state and the URLs fetched. */
  datatype LoadOutcome = LoadOutcome(catalog: Catalog, requests: seq<string>)

  /** `load(lang)`: a cached language just becomes the language in use;
      otherwise its file is fetched, stored and put in use; when that fails
      for a language other than English, English is loaded instead. */
  function LoadSpec(c: Catalog, lang: string, fetch: Fetch): LoadOutcome
    decreases if lang == "en" then 0 else 1
  {
    if lang in c.translations then LoadOutcome(c.(currentLang := lang), [])
    else match fetch(lang)
      case Some(messages) =>
        LoadOutcome(Catalog(c.translations[lang := messages], lang), [LocaleUrl(lang)])
      case None =>
        if lang != "en" then
          var fallback := LoadSpec(c, "en", fetch);
          LoadOutcome(fallback.catalog, [LocaleUrl(lang)] + fallback.requests)
        else LoadOutcome(c, [LocaleUrl(lang)])
  }

  /** A cached language is put in use without any fetch. */
  lemma LoadCached(c: Catalog, lang: string, fetch: Fetch)
    requires lang in c.translations
    ensures LoadSpec(c, lang, fetch).requests == []
    ensures LoadSpec(c, lang, fetch).catalog == Catalog(c.translations, lang)
  {
  }

  /** A language that is not cached is fetched once; when that succeeds its
      file is stored and it is the language in use. */
  lemma LoadFetched(c: Catalog, lang: string, fetch: Fetch)
    requires lang !in c.translations && fetch(lang).Some?
    ensures LoadSpec(c, lang, fetch).requests == [LocaleUrl(lang)]
    ensures LoadSpec(c, lang, fetch).catalog.translations == c.translations[lang := fetch(lang).value]
    ensures LoadSpec(c, lang, fetch).catalog.currentLang == lang
  {
  }

  /** A failed fetch of a language other than English is followed by exactly
      one `load('en')`, whose outcome is the outcome of the whole load. */
  lemma LoadFallsBack(c: Catalog, lang: string, fetch: Fetch)
    requires lang !in c.translations && fetch(lang).None? && lang != "en"
    ensures LoadSpec(c, lang, fetch).catalog == LoadSpec(c, "en", fetch).catalog
    ensures LoadSpec(c, lang, fetch).requests == [LocaleUrl(lang)] + LoadSpec(c, "en", fetch).requests
    ensures LoadSpec(c, "en", fetch).requests == [] || LoadSpec(c, "en", fetch).requests == [LocaleUrl("en")]
  {
  }

  /** A failed English load leaves the state as it was. */
  lemma EnglishFailureKeeps(c: Catalog, fetch: Fetch)
    requires "en" !in c.translations && fetch("en").None?
    ensures LoadSpec(c, "en", fetch) == LoadOutcome(c, [LocaleUrl("en")])
  {
  }

  /** `load` never removes or replaces a cached file: it adds at most the
      requested language's or English's, and fetches at most twice. */
  lemma LoadOnlyAdds(c: Catalog, lang: string, fetch: Fetch)
    ensures var r := LoadSpec(c, lang, fetch).catalog;
      && (forall l :: l in c.translations ==> l in r.translations && r.translations[l] == c.translations[l])
      && (forall l :: l in r.translations ==> l in c.translations || l == lang || l == "en")
    ensures |LoadSpec(c, lang, fetch).requests| <= 2
  {
  }

  /** The language in use is always English or one whose file is cached;
      every load keeps this. */
  predicate Resolvable(c: Catalog) {
    c.currentLang == "en" || c.currentLang in c.translations
  }

  lemma LoadKeepsResolvable(c: Catalog, lang: string, fetch: Fetch)
    requires Resolvable(c)
    ensures Resolvable(LoadSpec(c, lang, fetch).catalog)
    ensures var r := LoadSpec(c, lang, fetch).catalog;
      r.currentLang == lang || r.currentLang == "en" || r == c
  {
  }

  /** Loading the same language twice (with the network answering the same)
      ends in the same state as loading it once. */
  lemma LoadTwice(c: Catalog, lang: string, fetch: Fetch)
    ensures var once := LoadSpec(c, lang, fetch).catalog;
      LoadSpec(once, lang, fetch).catalog == once
  {
    var once := LoadSpec(c, lang, fetch).catalog;
    if lang !in c.translations && fetch(lang).None? && lang != "en" {
      var english := LoadSpec(c, "en", fetch);
      assert once == english.catalog;
      if "en" !in c.translations && fetch("en").None? {
        assert english.catalog == c;
      } else {
        assert "en" in once.translations && once.currentLang == "en";
        assert lang !in once.translations;
        assert LoadSpec(once, "en", fetch).catalog == once;
      }
    }
  }

  /** After a successful load of `lang`, the language's own message is the one
      looked up. */
  lemma LoadedMessageWins(c: Catalog, lang: string, fetch: Fetch, key: string)
    requires lang !in c.translations && fetch(lang).Some? && key in fetch(lang).value
    ensures Lookup(LoadSpec(c, lang, fetch).catalog, key) == fetch(lang).value[key].message
  {
  }

  /** The translator object shared by the extension's pages. */
  class Translator {
    var translations: map<string, Messages>
    var currentLang: string

    function State(): Catalog
      reads this
    {
      Catalog(translations, currentLang)
    }

    constructor()
      ensures State() == Empty()
    {
      translations := map[];
      currentLang := "en";
    }

    /** `getMessage(key)`: the first of the language in use and English whose
        loaded file has the key answers it; otherwise the key itself. */
    function GetMessage(key: string): (m: string)
      reads this
      ensures FirstHit([currentLang, "en"], translations, key).Some? ==>
                m == FirstHit([currentLang, "en"], translations, key).value
      ensures FirstHit([currentLang, "en"], translations, key).None? ==> m == key
    {
      LookupIsFirstHit(State(), key);
      Lookup(State(), key)
    }

    method Load(lang: string, fetch: Fetch) returns (requests: seq<string>)
      modifies this
      ensures LoadOutcome(State(), requests) == LoadSpec(old(State()), lang, fetch)
      decreases if lang == "en" then 0 else 1
    {
      if lang in translations {
        currentLang := lang;
        return [];
      }
      var response := fetch(lang);
      requests := [LocaleUrl(lang)];
      if response.Some? {
        translations := translations[lang := response.value];
        currentLang := lang;
      } else if lang != "en" {
        var more := Load("en", fetch);
        requests := requests + more;
      }
    }
  }
}
