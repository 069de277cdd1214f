/** `AIService.translate`: split the source table into cache hits and texts
    to send, ask the translator for the rest, then merge its answer into the
    results and the cache. The translator (the chat-completion request, the
    reply's content and its JSON parsing) is a parameter: a function from
    the request table to the reply's entries, or to the error it throws. */
module AiService {
  import opened Wrappers
  import opened Tables
  import opened CacheService

  /** A lookup counts as a hit only when it finds a non-empty string. */
  predicate IsHit(cache: Cache, text: string, lang: string) {
    var cached := Get(cache, text, lang);
    cached.Some? && cached.value != ""
  }

  /** `hits` and `misses` split the entries of `textMap` by cache lookup of
      each entry's text: a hit carries the cached translation, a miss the
      text itself, and neither holds any other key. */
  predicate SplitBy(cache: Cache, textMap: seq<(string, string)>, lang: string,
                    hits: map<string, string>, misses: map<string, string>) {
    && (forall i :: 0 <= i < |textMap| ==>
          (textMap[i].0 in hits <==> IsHit(cache, textMap[i].1, lang))
          && (textMap[i].0 in misses <==> !IsHit(cache, textMap[i].1, lang)))
    && (forall i :: 0 <= i < |textMap| && IsHit(cache, textMap[i].1, lang) ==>
          hits[textMap[i].0] == Get(cache, textMap[i].1, lang).value)
    && (forall i :: 0 <= i < |textMap| && !IsHit(cache, textMap[i].1, lang) ==>
          misses[textMap[i].0] == textMap[i].1)
    && (forall k :: k in hits ==> HasKey(textMap, k))
    && (forall k :: k in misses ==> HasKey(textMap, k))
  }

  /** Lines 18-29: one pass over the entries, in order. */
  method Partition(cache: Cache, textMap: seq<(string, string)>, lang: string)
    returns (hits: map<string, string>, misses: map<string, string>)
    requires DistinctKeys(textMap)
    ensures SplitBy(cache, textMap, lang, hits, misses)
    ensures hits.Keys !! misses.Keys
  {
    hits, misses := map[], map[];
    var n := 0;
    while n < |textMap|
      invariant n <= |textMap|
      invariant SplitBy(cache, textMap[..n], lang, hits, misses)
    {
      var (key, text) := textMap[n];
      var cached := Get(cache, text, lang);
      if cached.Some? && cached.value != "" {
        SplitAddHit(cache, textMap, lang, n, hits, misses);
        hits := hits[key := cached.value];
      } else {
        SplitAddMiss(cache, textMap, lang, n, hits, misses);
        misses := misses[key := text];
      }
      n := n + 1;
    }
    assert textMap[..n] == textMap;
    SplitDisjoint(cache, textMap, lang, hits, misses);
  }

  /** The first `n + 1` entries agree with the first `n` and add one key
      that none of those has. */
  lemma PrefixStep(textMap: seq<(string, string)>, n: nat)
    requires DistinctKeys(textMap)
    requires n < |textMap|
    ensures var pre, post := textMap[..n], textMap[..n + 1];
      |post| == n + 1 && post[n] == textMap[n]
      && (forall i :: 0 <= i < n ==> post[i] == pre[i])
      && (forall k :: HasKey(post, k) <==> HasKey(pre, k) || k == textMap[n].0)
      && !HasKey(pre, textMap[n].0)
  {
    var pre, post := textMap[..n], textMap[..n + 1];
    assert forall i :: 0 <= i < n ==> post[i] == pre[i] == textMap[i];
    forall k | HasKey(post, k)
      ensures HasKey(pre, k) || k == textMap[n].0
    {
      var i :| 0 <= i < |post| && post[i].0 == k;
      if i < n {
        assert pre[i].0 == k;
      }
    }
    forall k | HasKey(pre, k)
      ensures HasKey(post, k)
    {
      var i :| 0 <= i < |pre| && pre[i].0 == k;
      assert post[i].0 == k;
    }
    assert HasKey(post, textMap[n].0) by {
      assert post[n].0 == textMap[n].0;
    }
  }

  /** A hit on entry `n` extends a split of the first `n` entries. */
  lemma SplitAddHit(cache: Cache, textMap: seq<(string, string)>, lang: string, n: nat,
                    hits: map<string, string>, misses: map<string, string>)
    requires DistinctKeys(textMap)
    requires n < |textMap|
    requires SplitBy(cache, textMap[..n], lang, hits, misses)
    requires IsHit(cache, textMap[n].1, lang)
    ensures SplitBy(cache, textMap[..n + 1], lang, hits[textMap[n].0 := Get(cache, textMap[n].1, lang).value], misses)
  {
    PrefixStep(textMap, n);
    assert textMap[n].0 !in misses;
  }

  /** A miss on entry `n` extends a split of the first `n` entries. */
  lemma SplitAddMiss(cache: Cache, textMap: seq<(string, string)>, lang: string, n: nat,
                     hits: map<string, string>, misses: map<string, string>)
    requires DistinctKeys(textMap)
    requires n < |textMap|
    requires SplitBy(cache, textMap[..n], lang, hits, misses)
    requires !IsHit(cache, textMap[n].1, lang)
    ensures SplitBy(cache, textMap[..n + 1], lang, hits, misses[textMap[n].0 := textMap[n].1])
  {
    PrefixStep(textMap, n);
    assert textMap[n].0 !in hits;
  }

  /** Every key lands in exactly one of the two tables. */
  lemma SplitDisjoint(cache: Cache, textMap: seq<(string, string)>, lang: string,
                      hits: map<string, string>, misses: map<string, string>)
    requires SplitBy(cache, textMap, lang, hits, misses)
    ensures hits.Keys !! misses.Keys
  {
    forall k | k in hits
      ensures k !in misses
    {
      var i :| 0 <= i < |textMap| && textMap[i].0 == k;
    }
  }

  /** `toTranslate[key]` inside a template string: a key that was not
      requested reads `undefined`. */
  function SourceText(request: map<string, string>, key: string): (text: string)
    ensures key in request ==> text == request[key]
  {
    if key in request then request[key] else "undefined"
  }

  datatype Outcome = Outcome(results: map<string, string>, cache: Cache)

  /** Lines 62-65: each reply entry, in order, overwrites its result and is
      cached under the text that was sent for its key. */
  function MergeReply(results: map<string, string>, cache: Cache, request: map<string, string>,
                      lang: string, reply: seq<(string, string)>): Outcome
    decreases |reply|
  {
    if reply == [] then Outcome(results, cache)
    else
      var (key, value) := reply[0];
      MergeReply(results[key := value], Set(cache, SourceText(request, key), lang, value), request, lang, reply[1..])
  }

  /** The cache entries the merge writes, in order. */
  function CacheWrites(request: map<string, string>, lang: string, reply: seq<(string, string)>): seq<(string, string)> {
    seq(|reply|, j requires 0 <= j < |reply| => (CompositeKey(SourceText(request, reply[j].0), lang), reply[j].1))
  }

  /** The merge is two independent last-write-wins folds: the reply into
      the results, and the cache writes into the cache. */
  lemma {:induction false} MergeIsStores(results: map<string, string>, cache: Cache, request: map<string, string>,
                                         lang: string, reply: seq<(string, string)>)
    ensures MergeReply(results, cache, request, lang, reply)
      == Outcome(Store(results, reply), Cache(Store(cache.entries, CacheWrites(request, lang, reply))))
    decreases |reply|
  {
    if reply != [] {
      var (key, value) := reply[0];
      var cache' := Set(cache, SourceText(request, key), lang, value);
      MergeIsStores(results[key := value], cache', request, lang, reply[1..]);
      var w := CacheWrites(request, lang, reply);
      assert CacheWrites(request, lang, reply[1..]) == w[1..];
      assert cache'.entries == cache.entries[w[0].0 := w[0].1];
    }
  }

  /** What the returned table holds, given the reply's entries (none when
      nothing was sent): a hit the reply does not mention keeps the cached
      translation, a miss it does not mention is absent, the last reply
      entry for a key wins, and no other key appears. */
  ghost predicate Answered(cache: Cache, textMap: seq<(string, string)>, lang: string,
                     reply: seq<(string, string)>, results: map<string, string>) {
    && (forall i :: 0 <= i < |textMap| && IsHit(cache, textMap[i].1, lang) && !HasKey(reply, textMap[i].0) ==>
          textMap[i].0 in results && results[textMap[i].0] == Get(cache, textMap[i].1, lang).value)
    && (forall i :: 0 <= i < |textMap| && !IsHit(cache, textMap[i].1, lang) && !HasKey(reply, textMap[i].0) ==>
          textMap[i].0 !in results)
    && (forall j :: LastFor(reply, j) ==> reply[j].0 in results && results[reply[j].0] == reply[j].1)
    && (forall k :: k in results ==> HasKey(textMap, k) || HasKey(reply, k))
  }

  /** What the cache holds after the merge: the last write to each
      composite key wins, and every entry not written is as it was. */
  ghost predicate CachedReply(cache: Cache, request: map<string, string>, lang: string,
                        reply: seq<(string, string)>, cache': Cache) {
    var w := CacheWrites(request, lang, reply);
    && (forall j :: LastFor(w, j) ==> Get(cache', SourceText(request, reply[j].0), lang) == Some(reply[j].1))
    && (forall ck :: !HasKey(w, ck) ==>
          (ck in cache'.entries <==> ck in cache.entries)
          && (ck in cache.entries ==> cache'.entries[ck] == cache.entries[ck]))
  }

  /** The hits, then the reply folded over them, give `Answered`. */
  lemma MergedResults(cache: Cache, textMap: seq<(string, string)>, lang: string,
                      hits: map<string, string>, misses: map<string, string>, reply: seq<(string, string)>)
    requires SplitBy(cache, textMap, lang, hits, misses)
    ensures Answered(cache, textMap, lang, reply, Store(hits, reply))
  {
    var results := Store(hits, reply);
    forall i | 0 <= i < |textMap| && !HasKey(reply, textMap[i].0)
      ensures textMap[i].0 in results <==> textMap[i].0 in hits
      ensures textMap[i].0 in hits ==> results[textMap[i].0] == hits[textMap[i].0]
    {
      StoreUntouched(hits, reply, textMap[i].0);
    }
    forall j | LastFor(reply, j)
      ensures reply[j].0 in results && results[reply[j].0] == reply[j].1
    {
      StoreLast(hits, reply, j);
    }
    forall k | k in results
      ensures HasKey(textMap, k) || HasKey(reply, k)
    {
      StoreDomain(hits, reply, k);
    }
  }

  /** The cache writes folded over the cache give `CachedReply`. */
  lemma MergedCache(cache: Cache, request: map<string, string>, lang: string, reply: seq<(string, string)>)
    ensures CachedReply(cache, request, lang, reply, Cache(Store(cache.entries, CacheWrites(request, lang, reply))))
  {
    var w := CacheWrites(request, lang, reply);
    forall j | LastFor(w, j)
      ensures w[j].0 in Store(cache.entries, w) && Store(cache.entries, w)[w[j].0] == reply[j].1
    {
      StoreLast(cache.entries, w, j);
    }
    forall ck | !HasKey(w, ck)
      ensures ck in Store(cache.entries, w) <==> ck in cache.entries
      ensures ck in cache.entries ==> Store(cache.entries, w)[ck] == cache.entries[ck]
    {
      StoreUntouched(cache.entries, w, ck);
    }
  }

  /** Lines 14-72. `request` is what was sent to the translator: nothing
      when every text hit the cache. A failed request, missing content or
      unparsable reply is the translator's `Failure`, passed on as thrown. */
  method Translate(cache: Cache, textMap: seq<(string, string)>, lang: string,
                   translator: map<string, string> -> Result<seq<(string, string)>, string>)
    returns (request: Option<map<string, string>>, r: Result<Outcome, string>)
    requires DistinctKeys(textMap)
    ensures request.None? <==> forall i :: 0 <= i < |textMap| ==> IsHit(cache, textMap[i].1, lang)
    ensures request.Some? ==> exists hits :: SplitBy(cache, textMap, lang, hits, request.value)
    ensures request.None? ==> r.Success? && r.value.cache == cache && Answered(cache, textMap, lang, [], r.value.results)
    ensures request.Some? ==> (r.Failure? <==> translator(request.value).Failure?)
    ensures request.Some? && r.Success? ==>
      var reply := translator(request.value).value;
      Answered(cache, textMap, lang, reply, r.value.results)
      && CachedReply(cache, request.value, lang, reply, r.value.cache)
  {
    var hits, misses := Partition(cache, textMap, lang);
    if misses == map[] {
      forall i | 0 <= i < |textMap|
        ensures IsHit(cache, textMap[i].1, lang)
      {
        assert textMap[i].0 !in misses;
      }
      MergedResults(cache, textMap, lang, hits, misses, []);
      request, r := None, Success(Outcome(hits, cache));
      return;
    }
    assert exists i :: 0 <= i < |textMap| && !IsHit(cache, textMap[i].1, lang) by {
      var k :| k in misses;
      var i :| 0 <= i < |textMap| && textMap[i].0 == k;
    }
    request := Some(misses);
    match translator(misses)
    case Failure(e) =>
      r := Failure(e);
    case Success(reply) =>
      MergeIsStores(hits, cache, misses, lang, reply);
      MergedResults(cache, textMap, lang, hits, misses, reply);
      MergedCache(cache, misses, lang, reply);
      r := Success(MergeReply(hits, cache, misses, lang, reply));
  }
}
