/**
  The extractor (src/core/extractor.ts): for each file, every valid JSX text
  run (trimmed), then every allowlisted attribute whose initializer is a
  string literal with a valid value, each as a record keyed by the key
  generator under the file's scope. A pure function of its input: the tree
  is read, never changed or saved.
 */
module Extractor {
  import opened Wrappers
  import opened Text
  import opened Ast
  import KeyGenerator
  import PathName
  import Seqs

  /** One discovered text. The source also records a line number, which is
      diagnostic only and not modelled. */
  datatype ExtractedString = ExtractedString(key: string, value: string, filePath: string)

  /** The attribute names whose string values are translatable. */
  const TranslatableAttributes: seq<string> := ["label", "placeholder", "title", "alt", "aria-label"]

  /** `isValidText`: reject a string with no character outside whitespace
      (the empty string included), and one that both starts with '{' and
      ends with '}'. */
  predicate IsValidText(text: string) {
    !AllWhitespace(text) && !(|text| >= 2 && text[0] == '{' && text[|text| - 1] == '}')
  }

  /** The filter in the source's own terms: falsy or empty after `trim`,
      then `startsWith('{') && endsWith('}')` (so a lone "{" passes). */
  lemma IsValidTextAsWritten(text: string)
    ensures IsValidText(text) <==>
      !(text == [] || |Trim(text)| == 0) && !(|text| > 0 && text[0] == '{' && text[|text| - 1] == '}')
  {
  }

  /** The record for a text found in the file at `path`, keyed by `key`
      (for a real file, `KeyGenerator.KeyFor(path)`). */
  function Record(key: string -> string, path: string, text: string): ExtractedString {
    ExtractedString(key(text), text, path)
  }

  /** Scan 1 over the file's JSX text runs, in walk order. */
  function TextRecords(key: string -> string, path: string, texts: seq<string>): (records: seq<ExtractedString>)
    ensures |records| <= |texts|
  {
    if texts == [] then []
    else
      var text := Trim(texts[0]);
      (if IsValidText(text) then [Record(key, path, text)] else []) + TextRecords(key, path, texts[1..])
  }

  /** Every valid trimmed text run has its record. */
  lemma {:induction false} TextRecordsComplete(key: string -> string, path: string, texts: seq<string>)
    ensures forall t :: t in texts && IsValidText(Trim(t)) ==> Record(key, path, Trim(t)) in TextRecords(key, path, texts)
  {
    if texts != [] {
      var rest := TextRecords(key, path, texts[1..]);
      var head := if IsValidText(Trim(texts[0])) then [Record(key, path, Trim(texts[0]))] else [];
      assert TextRecords(key, path, texts) == head + rest;
      TextRecordsComplete(key, path, texts[1..]);
      forall t | t in texts && IsValidText(Trim(t))
        ensures Record(key, path, Trim(t)) in head + rest
      {
        if t != texts[0] {
          assert t in texts[1..];
        }
      }
    }
  }

  /** Every text record is the record of some valid trimmed text run. */
  lemma {:induction false} TextRecordsSound(key: string -> string, path: string, texts: seq<string>, r: ExtractedString)
    requires r in TextRecords(key, path, texts)
    ensures exists t :: t in texts && IsValidText(Trim(t)) && r == Record(key, path, Trim(t))
  {
    var rest := TextRecords(key, path, texts[1..]);
    var head := if IsValidText(Trim(texts[0])) then [Record(key, path, Trim(texts[0]))] else [];
    assert TextRecords(key, path, texts) == head + rest;
    if r in head {
      assert texts[0] in texts;
    } else {
      TextRecordsSound(key, path, texts[1..], r);
      var t :| t in texts[1..] && IsValidText(Trim(t)) && r == Record(key, path, Trim(t));
      assert t in texts;
    }
  }

  /** Whether an attribute yields a record: a string-literal initializer
      whose raw (untrimmed) value is valid, on an allowlisted name. */
  predicate IsTranslatableAttribute(a: Attribute) {
    a.literal.Some? && IsValidText(a.literal.value) && a.name in TranslatableAttributes
  }

  /** Scan 2 over the file's JSX attributes, in walk order; the value is
      stored as written, not trimmed. */
  function AttributeRecords(key: string -> string, path: string, attrs: seq<Attribute>): (records: seq<ExtractedString>)
    ensures |records| <= |attrs|
  {
    if attrs == [] then []
    else
      var a := attrs[0];
      (if IsTranslatableAttribute(a) then [Record(key, path, a.literal.value)] else [])
        + AttributeRecords(key, path, attrs[1..])
  }

  /** Every translatable attribute has its record, with the literal's value
      as written. */
  lemma {:induction false} AttributeRecordsComplete(key: string -> string, path: string, attrs: seq<Attribute>)
    ensures forall a :: a in attrs && IsTranslatableAttribute(a) ==> Record(key, path, a.literal.value) in AttributeRecords(key, path, attrs)
  {
    if attrs != [] {
      var rest := AttributeRecords(key, path, attrs[1..]);
      var head := if IsTranslatableAttribute(attrs[0]) then [Record(key, path, attrs[0].literal.value)] else [];
      assert AttributeRecords(key, path, attrs) == head + rest;
      AttributeRecordsComplete(key, path, attrs[1..]);
      forall a | a in attrs && IsTranslatableAttribute(a)
        ensures Record(key, path, a.literal.value) in head + rest
      {
        if a != attrs[0] {
          assert a in attrs[1..];
        }
      }
    }
  }

  /** Every attribute record is the record of some translatable attribute. */
  lemma {:induction false} AttributeRecordsSound(key: string -> string, path: string, attrs: seq<Attribute>, r: ExtractedString)
    requires r in AttributeRecords(key, path, attrs)
    ensures exists a :: a in attrs && IsTranslatableAttribute(a) && r == Record(key, path, a.literal.value)
  {
    var rest := AttributeRecords(key, path, attrs[1..]);
    var head := if IsTranslatableAttribute(attrs[0]) then [Record(key, path, attrs[0].literal.value)] else [];
    assert AttributeRecords(key, path, attrs) == head + rest;
    if r in head {
      assert attrs[0] in attrs;
    } else {
      AttributeRecordsSound(key, path, attrs[1..], r);
      var a :| a in attrs[1..] && IsTranslatableAttribute(a) && r == Record(key, path, a.literal.value);
      assert a in attrs;
    }
  }

  /** The keys of some records, in order. */
  function Keys(records: seq<ExtractedString>): (keys: seq<string>)
    ensures |keys| == |records|
    ensures forall i :: 0 <= i < |records| ==> keys[i] == records[i].key
  {
    if records == [] then [] else [records[0].key] + Keys(records[1..])
  }

  lemma TextRecordsSingle(key: string -> string, path: string, raw: string)
    ensures TextRecords(key, path, [raw]) == if IsValidText(Trim(raw)) then [Record(key, path, Trim(raw))] else []
  {
    assert TextRecords(key, path, [raw])
      == (if IsValidText(Trim(raw)) then [Record(key, path, Trim(raw))] else []) + TextRecords(key, path, []);
  }

  lemma AttributeRecordsSingle(key: string -> string, path: string, a: Attribute)
    ensures AttributeRecords(key, path, [a]) == if IsTranslatableAttribute(a) then [Record(key, path, a.literal.value)] else []
  {
    assert AttributeRecords(key, path, [a])
      == (if IsTranslatableAttribute(a) then [Record(key, path, a.literal.value)] else []) + AttributeRecords(key, path, []);
  }

  lemma {:induction false} KeysAppend(a: seq<ExtractedString>, b: seq<ExtractedString>)
    ensures Keys(a + b) == Keys(a) + Keys(b)
  {
    if a == [] {
      assert a + b == b;
    } else {
      Seqs.AppendHeadTail(a, b);
      KeysAppend(a[1..], b);
    }
  }

  /** One file: all text-run records, then all attribute records, keyed
      under the file's scope. */
  function ExtractFile(input: SourceInput): (records: seq<ExtractedString>)
    ensures |records| <= |FileVisits(input.tree)|
  {
    var key := KeyGenerator.KeyFor(input.path);
    var vs := FileVisits(input.tree);
    TextRunsAttributesBound(vs);
    TextRecords(key, input.path, TextRuns(vs)) + AttributeRecords(key, input.path, Attributes(vs))
  }

  /** Every record of a file carries the file's path, a value that passes
      the filter, and the key the generator gives that value under the
      file's scope. */
  lemma ExtractFileSound(input: SourceInput, r: ExtractedString)
    requires r in ExtractFile(input)
    ensures r.filePath == input.path
    ensures r.key == KeyGenerator.Generate(PathName.Scope(input.path), r.value)
    ensures IsValidText(r.value)
  {
    var key := KeyGenerator.KeyFor(input.path);
    var vs := FileVisits(input.tree);
    if r in TextRecords(key, input.path, TextRuns(vs)) {
      TextRecordsSound(key, input.path, TextRuns(vs), r);
    } else {
      AttributeRecordsSound(key, input.path, Attributes(vs), r);
    }
  }

  /** How many text runs pass the filter once trimmed. */
  function CountValidTexts(texts: seq<string>): nat {
    if texts == [] then 0
    else (if IsValidText(Trim(texts[0])) then 1 else 0) + CountValidTexts(texts[1..])
  }

  /** How many attributes are translatable. */
  function CountTranslatable(attrs: seq<Attribute>): nat {
    if attrs == [] then 0
    else (if IsTranslatableAttribute(attrs[0]) then 1 else 0) + CountTranslatable(attrs[1..])
  }

  /** Scan 1 emits one record per valid text run. */
  lemma {:induction false} TextRecordsCount(key: string -> string, path: string, texts: seq<string>)
    ensures |TextRecords(key, path, texts)| == CountValidTexts(texts)
  {
    if texts != [] {
      TextRecordsCount(key, path, texts[1..]);
    }
  }

  /** Scan 2 emits one record per translatable attribute. */
  lemma {:induction false} AttributeRecordsCount(key: string -> string, path: string, attrs: seq<Attribute>)
    ensures |AttributeRecords(key, path, attrs)| == CountTranslatable(attrs)
  {
    if attrs != [] {
      AttributeRecordsCount(key, path, attrs[1..]);
    }
  }

  /** A file yields one record per valid text run plus one per
      translatable attribute. */
  lemma ExtractFileCount(input: SourceInput)
    ensures var vs := FileVisits(input.tree);
      |ExtractFile(input)| == CountValidTexts(TextRuns(vs)) + CountTranslatable(Attributes(vs))
  {
    var key := KeyGenerator.KeyFor(input.path);
    var vs := FileVisits(input.tree);
    TextRecordsCount(key, input.path, TextRuns(vs));
    AttributeRecordsCount(key, input.path, Attributes(vs));
  }

  /** Within a file the text-run records come first, filling exactly the
      first `CountValidTexts` places, and the attribute records follow. */
  lemma ExtractFileLayout(input: SourceInput, i: nat)
    requires i < |ExtractFile(input)|
    ensures var vs := FileVisits(input.tree);
      var key := KeyGenerator.KeyFor(input.path);
      i < CountValidTexts(TextRuns(vs)) ==>
        exists t :: t in TextRuns(vs) && IsValidText(Trim(t)) && ExtractFile(input)[i] == Record(key, input.path, Trim(t))
    ensures var vs := FileVisits(input.tree);
      var key := KeyGenerator.KeyFor(input.path);
      i >= CountValidTexts(TextRuns(vs)) ==>
        exists a :: a in Attributes(vs) && IsTranslatableAttribute(a) && ExtractFile(input)[i] == Record(key, input.path, a.literal.value)
  {
    var key := KeyGenerator.KeyFor(input.path);
    var vs := FileVisits(input.tree);
    var texts := TextRecords(key, input.path, TextRuns(vs));
    var attrs := AttributeRecords(key, input.path, Attributes(vs));
    TextRecordsCount(key, input.path, TextRuns(vs));
    assert ExtractFile(input) == texts + attrs;
    if i < |texts| {
      assert ExtractFile(input)[i] == texts[i];
      TextRecordsSound(key, input.path, TextRuns(vs), texts[i]);
    } else {
      assert ExtractFile(input)[i] == attrs[i - |texts|];
      AttributeRecordsSound(key, input.path, Attributes(vs), attrs[i - |texts|]);
    }
  }

  /** `extract(filePaths)`: files in input order. */
  function Extract(inputs: seq<SourceInput>): seq<ExtractedString> {
    Seqs.FlatMap(ExtractFile, inputs)
  }

  /** Every record comes from one of the input files; `i` names it. */
  lemma ExtractOrigin(inputs: seq<SourceInput>, r: ExtractedString) returns (i: nat)
    requires r in Extract(inputs)
    ensures i < |inputs| && r in ExtractFile(inputs[i])
  {
    i := Seqs.FlatMapOrigin(ExtractFile, inputs, r);
  }

  /** Every record carries the path of an input file and the key that
      file's scope and the record's value give. */
  lemma ExtractSound(inputs: seq<SourceInput>, r: ExtractedString)
    requires r in Extract(inputs)
    ensures exists i :: 0 <= i < |inputs| && r.filePath == inputs[i].path
    ensures r.key == KeyGenerator.Generate(PathName.Scope(r.filePath), r.value)
    ensures IsValidText(r.value)
  {
    var i := ExtractOrigin(inputs, r);
    ExtractFileSound(inputs[i], r);
  }

  /** Each file is processed on its own: extracting a concatenation of file
      lists concatenates the results, so records keep the input file order. */
  lemma ExtractAppend(a: seq<SourceInput>, b: seq<SourceInput>)
    ensures Extract(a + b) == Extract(a) + Extract(b)
  {
    Seqs.FlatMapAppend(ExtractFile, a, b);
  }

  lemma {:induction false} TextRecordsAppend(key: string -> string, path: string, a: seq<string>, b: seq<string>)
    ensures TextRecords(key, path, a + b) == TextRecords(key, path, a) + TextRecords(key, path, b)
  {
    if a == [] {
      assert a + b == b;
    } else {
      var text := Trim(a[0]);
      var head := if IsValidText(text) then [Record(key, path, text)] else [];
      Seqs.AppendHeadTail(a, b);
      TextRecordsAppend(key, path, a[1..], b);
      Seqs.AppendAssoc(head, TextRecords(key, path, a[1..]), TextRecords(key, path, b));
    }
  }

  lemma {:induction false} AttributeRecordsAppend(key: string -> string, path: string, a: seq<Attribute>, b: seq<Attribute>)
    ensures AttributeRecords(key, path, a + b) == AttributeRecords(key, path, a) + AttributeRecords(key, path, b)
  {
    if a == [] {
      assert a + b == b;
    } else {
      var head := if IsTranslatableAttribute(a[0]) then [Record(key, path, a[0].literal.value)] else [];
      Seqs.AppendHeadTail(a, b);
      AttributeRecordsAppend(key, path, a[1..], b);
      Seqs.AppendAssoc(head, AttributeRecords(key, path, a[1..]), AttributeRecords(key, path, b));
    }
  }
}
