/** Facts about sequence concatenation, proved once in a small context so
    that the inductive proofs over the model's sequences stay cheap. */
module Seqs {

  lemma AppendHeadTail<T>(a: seq<T>, b: seq<T>)
    requires a != []
    ensures (a + b)[0] == a[0]
    ensures (a + b)[1..] == a[1..] + b
  {
  }

  lemma AppendAssoc<T>(a: seq<T>, b: seq<T>, c: seq<T>)
    ensures a + (b + c) == (a + b) + c
  {
  }

  /** Putting `h` between `a` and `b` inside `vs == pre + (a + b) + post` is
      inserting it at offset `|pre| + |a|` of `vs`. */
  lemma InsertBetween<T>(vs: seq<T>, k: nat, pre: seq<T>, a: seq<T>, b: seq<T>, post: seq<T>, h: T)
    requires vs == pre + (a + b) + post && k == |pre| + |a|
    ensures k <= |vs|
    ensures pre + (a + [h] + b) + post == vs[..k] + [h] + vs[k..]
  {
    assert vs[..k] == pre + a;
    assert vs[k..] == b + post;
  }

  /** Concatenation of `f` over `xs`, in order. */
  /** Each element through `f`, in order. */
  function Map<T, U>(f: T -> U, xs: seq<T>): (ys: seq<U>)
    ensures |ys| == |xs|
    ensures forall i :: 0 <= i < |xs| ==> ys[i] == f(xs[i])
  {
    if xs == [] then [] else [f(xs[0])] + Map(f, xs[1..])
  }

  function FlatMap<T, U>(f: T -> seq<U>, xs: seq<T>): seq<U> {
    if xs == [] then [] else f(xs[0]) + FlatMap(f, xs[1..])
  }

  /** Every element of a flat map comes from some `f(xs[i])`. */
  lemma {:induction false} FlatMapOrigin<T, U>(f: T -> seq<U>, xs: seq<T>, u: U) returns (i: nat)
    requires u in FlatMap(f, xs)
    ensures i < |xs| && u in f(xs[i])
  {
    if u in f(xs[0]) {
      i := 0;
    } else {
      var j := FlatMapOrigin(f, xs[1..], u);
      assert xs[1..][j] == xs[j + 1];
      i := j + 1;
    }
  }

  /** A flat map over a concatenation is the concatenation of flat maps. */
  lemma {:induction false} FlatMapAppend<T, U>(f: T -> seq<U>, a: seq<T>, b: seq<T>)
    ensures FlatMap(f, a + b) == FlatMap(f, a) + FlatMap(f, b)
  {
    if a == [] {
      assert a + b == b;
    } else {
      AppendHeadTail(a, b);
      FlatMapAppend(f, a[1..], b);
      AppendAssoc(f(a[0]), FlatMap(f, a[1..]), FlatMap(f, b));
    }
  }
}
