/** The translation cache: one flat string table whose entries are
    addressed by the composite key `lang + "." + text`. Reading and writing
    the cache file are left to the caller; `Load` takes what the file held. */
module CacheService {
  import opened Wrappers

  datatype Cache = Cache(entries: map<string, string>)

  /** `${lang}.${key}`. It always contains a `.`, so it never names a
      property every object inherits, and a lookup is a plain table lookup. */
  function CompositeKey(key: string, lang: string): (c: string)
    ensures |c| == |lang| + 1 + |key|
    ensures c[..|lang|] == lang && c[|lang|] == '.' && c[|lang| + 1..] == key
  {
    lang + "." + key
  }

  /** What the constructor reads: the parsed file when it exists and
      parses, else an empty table. */
  function Load(stored: Option<map<string, string>>): Cache {
    match stored
    case None => Cache(map[])
    case Some(entries) => Cache(entries)
  }

  /** `get`: the entry under the composite key, if any. */
  function Get(c: Cache, key: string, lang: string): Option<string> {
    var ck := CompositeKey(key, lang);
    if ck in c.entries then Some(c.entries[ck]) else None
  }

  /** The entry is written in memory; persisting it is left out. */
  function Set(c: Cache, key: string, lang: string, value: string): (r: Cache)
    ensures Get(r, key, lang) == Some(value)
    ensures forall ck :: ck != CompositeKey(key, lang) ==>
      (ck in r.entries <==> ck in c.entries) && (ck in c.entries ==> r.entries[ck] == c.entries[ck])
    ensures r.entries.Keys == c.entries.Keys + {CompositeKey(key, lang)}
  {
    Cache(c.entries[CompositeKey(key, lang) := value])
  }

  predicate Has(c: Cache, key: string, lang: string) {
    CompositeKey(key, lang) in c.entries
  }

  /** `has` answers exactly when `get` finds an entry. */
  lemma HasIffGet(c: Cache, key: string, lang: string)
    ensures Has(c, key, lang) <==> Get(c, key, lang).Some?
  {
  }

  /** Writing one pair leaves every other pair's lookup as it was. */
  lemma SetKeepsOthers(c: Cache, key: string, lang: string, value: string, key': string, lang': string)
    requires CompositeKey(key', lang') != CompositeKey(key, lang)
    ensures Get(Set(c, key, lang, value), key', lang') == Get(c, key', lang')
  {
  }

  /** Within one language distinct texts never share an entry, and one
      text never shares an entry across languages. */
  lemma CompositeKeySeparates(key: string, lang: string, key': string, lang': string)
    requires lang == lang' || key == key'
    ensures CompositeKey(key, lang) == CompositeKey(key', lang') <==> key == key' && lang == lang'
  {
    var c, c' := CompositeKey(key, lang), CompositeKey(key', lang');
    if c == c' {
      assert |lang| == |lang'|;
      assert lang == c[..|lang|] == c'[..|lang'|] == lang';
      assert key == c[|lang| + 1..] == c'[|lang'| + 1..] == key';
    }
  }

  /** A language containing a `.` can alias another language's entry. */
  lemma CompositeKeysAlias()
    ensures CompositeKey("c", "a.b") == CompositeKey("b.c", "a")
    ensures var c := Set(Cache(map[]), "b.c", "a", "x");
      Get(c, "c", "a.b") == Some("x")
  {
  }

  /** After loading, a lookup finds exactly what the file held under the
      composite key, and nothing when there was no readable file. */
  lemma LoadedLookups(stored: Option<map<string, string>>, key: string, lang: string)
    ensures Get(Load(stored), key, lang).Some? <==> stored.Some? && CompositeKey(key, lang) in stored.value
    ensures Get(Load(stored), key, lang).Some? ==> Get(Load(stored), key, lang).value == stored.value[CompositeKey(key, lang)]
  {
  }

  /** A missing or unreadable cache file misses on every lookup. */
  lemma EmptyLoadMisses(key: string, lang: string)
    ensures Get(Load(None), key, lang) == None
  {
  }
}
