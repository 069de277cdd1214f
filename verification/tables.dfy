/** String-keyed objects used as tables: `obj[k] = v` assignments in turn,
    and the entry lists `Object.entries` yields. */
module Tables {

  /** The entries of one object: no key appears twice. */
  predicate DistinctKeys<K(==), V>(entries: seq<(K, V)>) {
    forall i, j :: 0 <= i < j < |entries| ==> entries[i].0 != entries[j].0
  }

  /** Some entry has key `k`. */
  predicate HasKey<K(==), V>(kvs: seq<(K, V)>, k: K) {
    exists i :: 0 <= i < |kvs| && kvs[i].0 == k
  }

  /** Entry `j` is the last one with its key. */
  predicate LastFor<K(==), V>(kvs: seq<(K, V)>, j: int) {
    0 <= j < |kvs| && forall j' :: j < j' < |kvs| ==> kvs[j'].0 != kvs[j].0
  }

  /** `m[k] = v` for each entry, first to last. */
  function Store<K(==), V>(m: map<K, V>, kvs: seq<(K, V)>): map<K, V>
    decreases |kvs|
  {
    if kvs == [] then m else Store(m[kvs[0].0 := kvs[0].1], kvs[1..])
  }

  /** A key no entry writes keeps its presence and its value. */
  lemma {:induction false} StoreUntouched<K, V>(m: map<K, V>, kvs: seq<(K, V)>, k: K)
    requires forall i :: 0 <= i < |kvs| ==> kvs[i].0 != k
    ensures k in Store(m, kvs) <==> k in m
    ensures k in m ==> Store(m, kvs)[k] == m[k]
    decreases |kvs|
  {
    if kvs != [] {
      assert kvs[0].0 != k;
      forall i | 0 <= i < |kvs[1..]|
        ensures kvs[1..][i].0 != k
      {
        assert kvs[1..][i] == kvs[i + 1];
      }
      StoreUntouched(m[kvs[0].0 := kvs[0].1], kvs[1..], k);
    }
  }

  /** The keys of the result: the old ones and every key written. */
  lemma {:induction false} StoreDomain<K, V>(m: map<K, V>, kvs: seq<(K, V)>, k: K)
    ensures k in Store(m, kvs) <==> k in m || HasKey(kvs, k)
    decreases |kvs|
  {
    if kvs != [] {
      var rest := kvs[1..];
      StoreDomain(m[kvs[0].0 := kvs[0].1], rest, k);
      if exists i :: 0 <= i < |rest| && rest[i].0 == k {
        var i :| 0 <= i < |rest| && rest[i].0 == k;
        assert kvs[i + 1] == rest[i];
      }
      if exists i :: 0 <= i < |kvs| && kvs[i].0 == k {
        var i :| 0 <= i < |kvs| && kvs[i].0 == k;
        if i > 0 {
          assert rest[i - 1] == kvs[i];
        }
      }
    }
  }

  /** The last write to a key wins. */
  lemma {:induction false} StoreLast<K, V>(m: map<K, V>, kvs: seq<(K, V)>, i: nat)
    requires LastFor(kvs, i)
    ensures kvs[i].0 in Store(m, kvs) && Store(m, kvs)[kvs[i].0] == kvs[i].1
    decreases |kvs|
  {
    var m' := m[kvs[0].0 := kvs[0].1];
    var rest := kvs[1..];
    if i == 0 {
      forall j | 0 <= j < |rest|
        ensures rest[j].0 != kvs[0].0
      {
        assert rest[j] == kvs[j + 1];
      }
      StoreUntouched(m', rest, kvs[0].0);
    } else {
      assert rest[i - 1] == kvs[i];
      forall j | i - 1 < j < |rest|
        ensures rest[j].0 != rest[i - 1].0
      {
        assert rest[j] == kvs[j + 1];
      }
      StoreLast(m', rest, i - 1);
    }
  }
}
