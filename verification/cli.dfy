/** The decisions the `extract` and `translate` commands make around the
    core: the base locale table built from the extracted records, the
    languages to translate into, which API key to use, and the
    per-language loop. Reading and writing locale files, the spinner and
    the console are left out; what a file held is an input. */
module Cli {
  import opened Wrappers
  import opened Tables
  import Extractor
  import CacheService
  import AiService

  // ---------------------------------------------------------------------
  // `extract`: the base locale table
  // ---------------------------------------------------------------------

  /** The `(key, value)` pairs the records assign, in record order. */
  function Assignments(records: seq<Extractor.ExtractedString>): (kvs: seq<(string, string)>)
    ensures |kvs| == |records|
    ensures forall i :: 0 <= i < |records| ==> kvs[i] == (records[i].key, records[i].value)
  {
    seq(|records|, i requires 0 <= i < |records| => (records[i].key, records[i].value))
  }

  /** Lines 39-42: `baseJson[item.key] = item.value` for each record. */
  function BaseTable(records: seq<Extractor.ExtractedString>): map<string, string> {
    Store(map[], Assignments(records))
  }

  /** The table's keys are exactly the records' keys. */
  lemma BaseTableKeys(records: seq<Extractor.ExtractedString>)
    ensures BaseTable(records).Keys == set r | r in records :: r.key
  {
    var kvs := Assignments(records);
    forall k
      ensures k in BaseTable(records) <==> k in set r | r in records :: r.key
    {
      StoreDomain(map[], kvs, k);
      if k in set r | r in records :: r.key {
        var r :| r in records && r.key == k;
        var i :| 0 <= i < |records| && records[i] == r;
        assert kvs[i].0 == k;
      }
      if HasKey(kvs, k) {
        var i :| 0 <= i < |kvs| && kvs[i].0 == k;
        assert records[i] in records;
      }
    }
  }

  /** Of several records with one key, the last one's value is kept. */
  lemma BaseTableLastWins(records: seq<Extractor.ExtractedString>, i: nat)
    requires i < |records|
    requires forall j :: i < j < |records| ==> records[j].key != records[i].key
    ensures records[i].key in BaseTable(records)
    ensures BaseTable(records)[records[i].key] == records[i].value
  {
    StoreLast(map[], Assignments(records), i);
  }

  // ---------------------------------------------------------------------
  // `translate`: options
  // ---------------------------------------------------------------------

  /** A value a JavaScript condition treats as true: present and non-empty. */
  predicate Truthy(s: Option<string>) {
    s.Some? && s.value != ""
  }

  /** Lines 64-69: `-l` alone when given, else the configured languages;
      nothing when neither names a language, which ends the command. */
  function SelectLanguages(lang: Option<string>, targetLangs: seq<string>): (r: Option<seq<string>>)
    ensures r.None? <==> !Truthy(lang) && targetLangs == []
    ensures r.Some? ==> r.value != []
    ensures r.Some? ==> forall l :: l in r.value ==> (Truthy(lang) && l == lang.value) || (!Truthy(lang) && l in targetLangs)
    ensures Truthy(lang) ==> r == Some([lang.value])
    ensures !Truthy(lang) && targetLangs != [] ==> r == Some(targetLangs)
  {
    if Truthy(lang) then Some([lang.value])
    else if targetLangs == [] then None
    else Some(targetLangs)
  }

  /** The first candidate a JavaScript `||` chain would stop at. */
  function FirstTruthy(candidates: seq<Option<string>>): (r: Option<string>)
    ensures r.None? <==> forall i :: 0 <= i < |candidates| ==> !Truthy(candidates[i])
    ensures r.Some? ==> exists i :: (0 <= i < |candidates| && candidates[i] == r
                                      && Truthy(r) && forall j :: 0 <= j < i ==> !Truthy(candidates[j]))
  {
    if candidates == [] then None
    else if Truthy(candidates[0]) then candidates[0]
    else
      var r := FirstTruthy(candidates[1..]);
      assert forall i :: 0 <= i < |candidates[1..]| ==> candidates[1..][i] == candidates[i + 1];
      r
  }

  /** Lines 70-84: the `-k` option, then the environment, then the config
      file, then the shared key; an empty value falls through, and with no
      key at all the command ends. */
  function ResolveApiKey(option: Option<string>, env: Option<string>, configured: Option<string>, shared: string): (r: Option<string>) {
    if Truthy(option) then option
    else if Truthy(env) then env
    else if Truthy(configured) then configured
    else if shared != "" then Some(shared)
    else None
  }

  /** One step of the chain: the head if it is truthy, else the rest. */
  lemma FirstTruthyCons(c: Option<string>, cs: seq<Option<string>>)
    ensures FirstTruthy([c] + cs) == if Truthy(c) then c else FirstTruthy(cs)
  {
    assert ([c] + cs)[1..] == cs;
  }

  /** The precedence is the `||` chain over the four sources in order. */
  lemma ApiKeyPrecedence(option: Option<string>, env: Option<string>, configured: Option<string>, shared: string)
    ensures ResolveApiKey(option, env, configured, shared) == FirstTruthy([option, env, configured, Some(shared)])
  {
    var last: seq<Option<string>> := [];
    FirstTruthyCons(Some(shared), last);
    FirstTruthyCons(configured, [Some(shared)] + last);
    FirstTruthyCons(env, [configured] + ([Some(shared)] + last));
    FirstTruthyCons(option, [env] + ([configured] + ([Some(shared)] + last)));
    assert [option] + ([env] + ([configured] + ([Some(shared)] + last))) == [option, env, configured, Some(shared)];
  }

  // ---------------------------------------------------------------------
  // `translate`: the loop over languages
  // ---------------------------------------------------------------------

  /** What happened for one language: the table written to its locale
      file, or the error reported before moving on. */
  datatype LangOutcome = Written(lang: string, table: map<string, string>) | Failed(lang: string, error: string)

  /** Lines 62-107. `source` is the parsed base locale file, absent when
      the file does not exist; `translator(lang, request)` stands for the
      chat-completion call. One service, and so one cache, serves every
      language in turn. */
  method TranslateCommand(lang: Option<string>, targetLangs: seq<string>,
                          keyOption: Option<string>, env: Option<string>, configured: Option<string>, shared: string,
                          source: Option<seq<(string, string)>>, cache: CacheService.Cache,
                          translator: (string, map<string, string>) -> Result<seq<(string, string)>, string>)
    returns (outcomes: seq<LangOutcome>, cache': CacheService.Cache)
    requires source.Some? ==> DistinctKeys(source.value)
    ensures SelectLanguages(lang, targetLangs).None? || ResolveApiKey(keyOption, env, configured, shared).None? || source.None?
      ==> outcomes == [] && cache' == cache
    ensures SelectLanguages(lang, targetLangs).Some? && ResolveApiKey(keyOption, env, configured, shared).Some? && source.Some?
      ==> var langs := SelectLanguages(lang, targetLangs).value;
        |outcomes| == |langs| && forall i :: 0 <= i < |langs| ==> outcomes[i].lang == langs[i]
  {
    outcomes, cache' := [], cache;
    var selected := SelectLanguages(lang, targetLangs);
    if selected.None? {
      return;
    }
    var apiKey := ResolveApiKey(keyOption, env, configured, shared);
    if apiKey.None? || source.None? {
      return;
    }
    var langs := selected.value;
    var n := 0;
    while n < |langs|
      invariant n <= |langs|
      invariant |outcomes| == n
      invariant forall i :: 0 <= i < n ==> outcomes[i].lang == langs[i]
    {
      var l := langs[n];
      var request, r := AiService.Translate(cache', source.value, l, m => translator(l, m));
      if r.Success? {
        outcomes := outcomes + [Written(l, r.value.results)];
        cache' := r.value.cache;
      } else {
        outcomes := outcomes + [Failed(l, r.error)];
      }
      n := n + 1;
    }
  }
}
