/** Small facts about sequences shared by both scripts' models. */
module Seqs {

  /** No element occurs twice. */
  predicate Distinct<T(==)>(s: seq<T>) {
    forall i, j :: 0 <= i < j < |s| ==> s[i] != s[j]
  }

  /** Appending an element not yet present keeps a sequence distinct. */
  lemma DistinctSnoc<T>(s: seq<T>, v: T)
    requires Distinct(s) && v !in s
    ensures Distinct(s + [v])
  {
    forall i, j | 0 <= i < j < |s| + 1
      ensures (s + [v])[i] != (s + [v])[j]
    {
      if j == |s| {
        assert (s + [v])[i] == s[i];
      }
    }
  }

  lemma AppendAssoc<T>(a: seq<T>, b: seq<T>, c: seq<T>)
    ensures a + (b + c) == (a + b) + c
  {
  }

  /** A non-empty sequence is its front followed by its last element. */
  lemma InitLast<T>(s: seq<T>)
    requires s != []
    ensures s[..|s| - 1] + [s[|s| - 1]] == s
  {
  }

  /** Records `ys` tied by `rel` to the elements of `xs` at positions `ix`
      stay so when one element is appended to `xs`. */
  lemma IndexedExtend<B, A>(xs: seq<B>, ys: seq<A>, ix: seq<nat>, b: B, rel: (B, A) -> bool)
    requires |ys| == |ix|
    requires forall k :: 0 <= k < |ys| ==> ix[k] < |xs| && rel(xs[ix[k]], ys[k])
    ensures forall k :: 0 <= k < |ys| ==> ix[k] < |xs| + 1 && rel((xs + [b])[ix[k]], ys[k])
  {
    forall k | 0 <= k < |ys| ensures ix[k] < |xs| + 1 && rel((xs + [b])[ix[k]], ys[k]) {
      assert (xs + [b])[ix[k]] == xs[ix[k]];
    }
  }

  /** ... and when the appended element brings its own record. */
  lemma IndexedSnoc<B, A>(xs: seq<B>, ys: seq<A>, ix: seq<nat>, b: B, y: A, rel: (B, A) -> bool)
    requires |ys| == |ix|
    requires forall k :: 0 <= k < |ys| ==> ix[k] < |xs| && rel(xs[ix[k]], ys[k])
    requires rel(b, y)
    ensures forall k :: 0 <= k < |ys| + 1 ==>
      (ix + [|xs|])[k] < |xs| + 1 && rel((xs + [b])[(ix + [|xs|])[k]], (ys + [y])[k])
  {
    IndexedExtend(xs, ys, ix, b, rel);
  }
}
