/**
  Concrete inputs worked through the cache, the translation service and
  the base table.
 */
module ServiceExamples {
  import opened Wrappers
  import opened Tables
  import opened CacheService
  import opened AiService
  import Extractor
  import Cli

  /** The cache is looked up by text, so two keys with the same text share
      one cached translation. */
  lemma EqualTextsShareHit(results: map<string, string>)
    requires Answered(Cache(map["fr.Hello" := "Bonjour"]), [("App_Hello", "Hello"), ("Nav_Hello", "Hello")], "fr", [], results)
    ensures "App_Hello" in results && results["App_Hello"] == "Bonjour"
    ensures "Nav_Hello" in results && results["Nav_Hello"] == "Bonjour"
  {
    var cache := Cache(map["fr.Hello" := "Bonjour"]);
    var textMap := [("App_Hello", "Hello"), ("Nav_Hello", "Hello")];
    assert CompositeKey("Hello", "fr") == "fr.Hello";
    assert IsHit(cache, textMap[0].1, "fr") && IsHit(cache, textMap[1].1, "fr");
    var none: seq<(string, string)> := [];
    assert !HasKey(none, textMap[0].0) && !HasKey(none, textMap[1].0);
  }

  /** A cached empty translation is a miss and is sent again. */
  lemma EmptyTranslationIsMiss()
    ensures !IsHit(Cache(map["fr.Hi" := ""]), "Hi", "fr")
  {
    assert CompositeKey("Hi", "fr") == "fr.Hi";
  }

  /** A reply key that was never requested is cached under the text
      `undefined`. */
  lemma UnrequestedReplyCachedAsUndefined()
    ensures CacheWrites(map["App_Hi" := "Hi"], "fr", [("App_Bye", "Au revoir")]) == [("fr.undefined", "Au revoir")]
  {
    assert SourceText(map["App_Hi" := "Hi"], "App_Bye") == "undefined";
    assert CompositeKey("undefined", "fr") == "fr.undefined";
  }

  /** Two records with one key: the later value is the one written. */
  lemma BaseTableDuplicateKey()
    ensures var records := [Extractor.ExtractedString("App_Save", "Save", "src/App.tsx"),
                            Extractor.ExtractedString("App_Save", "Save!", "src/App.tsx")];
      Cli.BaseTable(records) == map["App_Save" := "Save!"]
  {
    var records := [Extractor.ExtractedString("App_Save", "Save", "src/App.tsx"),
                    Extractor.ExtractedString("App_Save", "Save!", "src/App.tsx")];
    var kvs := Cli.Assignments(records);
    assert kvs == [("App_Save", "Save"), ("App_Save", "Save!")];
    assert kvs[1..] == [("App_Save", "Save!")];
    assert kvs[1..][1..] == [];
  }

  /** `-l` wins over the configured languages; `-l ""` does not count. */
  lemma LanguageOptionWins()
    ensures Cli.SelectLanguages(Some("de"), ["fr", "es"]) == Some(["de"])
    ensures Cli.SelectLanguages(Some(""), ["fr", "es"]) == Some(["fr", "es"])
    ensures Cli.SelectLanguages(None, []) == None
  {
  }
}
