/**
  The property the two halves of the tool rest on: the extractor and the
  injector, which share no code in the source, pick the same candidates and
  give them the same keys, so every key in the base table is a key the
  rewritten components call, and vice versa.
 */
module Consistency {
  import opened Text
  import opened Ast
  import KeyGenerator
  import Extractor
  import Injector
  import ImportsAndHooks

  /** The two copies of `isValidText` (src/core/extractor.ts:68-74 and
      src/core/injector.ts:58-62) accept the same strings. */
  lemma FiltersAgree(text: string)
    ensures Injector.IsValidText(text) <==> Extractor.IsValidText(text)
  {
  }

  /** The attribute tests agree too: same allowlist, same filter. */
  lemma AttributeTestsAgree(a: Attribute)
    ensures Injector.IsCandidateAttribute(a) <==> Extractor.IsTranslatableAttribute(a)
  {
  }

  /** One visit: the text pass replaces it exactly when the extractor
      records it, with the same key. */
  lemma TextVisitAgrees(key: string -> string, path: string, v: Visit)
    ensures Injector.NewKey(Injector.TextPass, key, v) == Extractor.Keys(Extractor.TextRecords(key, path, TextRuns([v])))
  {
    TextRunsSingle(v);
    if v.TextVisit? {
      Extractor.TextRecordsSingle(key, path, v.raw);
    }
  }

  /** Pass 1 of the injector and scan 1 of the extractor produce the same
      keys in the same order. */
  lemma {:induction false} TextKeysAgree(key: string -> string, path: string, vs: seq<Visit>)
    ensures Injector.NewKeys(Injector.TextPass, key, vs) == Extractor.Keys(Extractor.TextRecords(key, path, TextRuns(vs)))
  {
    if vs != [] {
      var head, rest := TextRuns([vs[0]]), TextRuns(vs[1..]);
      assert vs == [vs[0]] + vs[1..];
      TextRunsAppend([vs[0]], vs[1..]);
      Extractor.TextRecordsAppend(key, path, head, rest);
      Extractor.KeysAppend(Extractor.TextRecords(key, path, head), Extractor.TextRecords(key, path, rest));
      TextVisitAgrees(key, path, vs[0]);
      TextKeysAgree(key, path, vs[1..]);
    }
  }

  /** One visit: the attribute pass replaces it exactly when the extractor
      records it, with the same key. */
  lemma AttributeVisitAgrees(key: string -> string, path: string, v: Visit)
    ensures Injector.NewKey(Injector.AttributePass, key, v)
      == Extractor.Keys(Extractor.AttributeRecords(key, path, Attributes([v])))
  {
    AttributesSingle(v);
    if v.AttributeVisit? {
      Extractor.AttributeRecordsSingle(key, path, v.attribute);
    }
  }

  /** Pass 2 of the injector and scan 2 of the extractor produce the same
      keys in the same order. */
  lemma {:induction false} AttributeKeysAgree(key: string -> string, path: string, vs: seq<Visit>)
    ensures Injector.NewKeys(Injector.AttributePass, key, vs)
      == Extractor.Keys(Extractor.AttributeRecords(key, path, Attributes(vs)))
  {
    if vs != [] {
      var head, rest := Attributes([vs[0]]), Attributes(vs[1..]);
      assert vs == [vs[0]] + vs[1..];
      AttributesAppend([vs[0]], vs[1..]);
      Extractor.AttributeRecordsAppend(key, path, head, rest);
      Extractor.KeysAppend(Extractor.AttributeRecords(key, path, head), Extractor.AttributeRecords(key, path, rest));
      AttributeVisitAgrees(key, path, vs[0]);
      AttributeKeysAgree(key, path, vs[1..]);
    }
  }

  /** The keys the injector writes into one file, in the order it writes
      them, are the keys the extractor records for that file. */
  lemma InjectedKeysAreExtractedKeys(input: SourceInput)
    ensures var key := KeyGenerator.KeyFor(input.path);
      var vs := FileVisits(input.tree);
      Injector.NewKeys(Injector.TextPass, key, vs)
        + Injector.NewKeys(Injector.AttributePass, key, Injector.EditVisits(Injector.TextPass, key, vs))
      == Extractor.Keys(Extractor.ExtractFile(input))
  {
    var key := KeyGenerator.KeyFor(input.path);
    var vs := FileVisits(input.tree);
    Injector.TextEditKeepsAttributeCandidates(key, vs);
    TextKeysAgree(key, input.path, vs);
    AttributeKeysAgree(key, input.path, vs);
    Extractor.KeysAppend(Extractor.TextRecords(key, input.path, TextRuns(vs)), Extractor.AttributeRecords(key, input.path, Attributes(vs)));
  }

  /** The dirty flag: a file is repaired and saved exactly when the
      extractor finds something in it. */
  lemma SavedIffExtracted(input: SourceInput)
    ensures Injector.InjectFile(input).saved <==> Extractor.ExtractFile(input) != []
  {
    var key := KeyGenerator.KeyFor(input.path);
    var vs := FileVisits(input.tree);
    var afterText := SourceFile(input.tree.imports, Injector.RewriteAll(Injector.TextPass, key, input.tree.statements));
    Injector.RewriteAllVisits(Injector.TextPass, key, input.tree.statements);
    assert FileVisits(afterText) == Injector.EditVisits(Injector.TextPass, key, vs);
    InjectedKeysAreExtractedKeys(input);
  }

  /** After injection the extractor finds nothing in the file. */
  lemma NothingLeftToExtract(input: SourceInput)
    ensures Extractor.ExtractFile(SourceInput(input.path, Injector.InjectFile(input).file)) == []
  {
    var out := SourceInput(input.path, Injector.InjectFile(input).file);
    var vs := FileVisits(out.tree);
    Injector.InjectFileLeavesNoCandidates(input);
    TextKeysAgree(KeyGenerator.KeyFor(input.path), input.path, vs);
    AttributeKeysAgree(KeyGenerator.KeyFor(input.path), input.path, vs);
  }

  /** The injected file calls `t` with exactly the keys it called before
      plus one call per extracted record, carrying that record's key. */
  lemma InjectedTranslationCalls(input: SourceInput)
    ensures multiset(Injector.TranslationKeys(FileVisits(Injector.InjectFile(input).file)))
      == multiset(Injector.TranslationKeys(FileVisits(input.tree))) + multiset(Extractor.Keys(Extractor.ExtractFile(input)))
  {
    Injector.InjectFileTranslationCalls(input);
    InjectedKeysAreExtractedKeys(input);
  }
}
