/** Generic facts about sequences, stated once so that proofs over long element types stay small. */
module Seqs {

  lemma ConcatAssoc<T>(a: seq<T>, b: seq<T>, c: seq<T>)
    ensures (a + b) + c == a + (b + c)
  {
  }

  lemma SliceWhole<T>(s: seq<T>)
    ensures s[..|s|] == s
  {
  }

  /** The prefix of length `k + 1` is the prefix of length `k` and element `k`. */
  lemma PrefixStep<T>(s: seq<T>, k: nat)
    requires k < |s|
    ensures s[..k + 1] == s[..k] + [s[k]]
    ensures s[..k + 1][..k] == s[..k] && s[..k + 1][k] == s[k]
  {
  }

  /** Dropping the last element of `a + b` for non-empty `b`. */
  lemma InitOfAppend<T>(a: seq<T>, b: seq<T>)
    requires b != []
    ensures (a + b)[..|a + b| - 1] == a + b[..|b| - 1]
    ensures (a + b)[|a + b| - 1] == b[|b| - 1]
  {
  }

  /** The middle piece of a three-way concatenation. */
  lemma MiddleOf<T>(a: seq<T>, b: seq<T>, c: seq<T>)
    ensures (a + b + c)[|a|..|a| + |b|] == b
  {
  }

  /** An element of a three-way concatenation, by the piece it falls in. */
  lemma ConcatIndex3<T>(a: seq<T>, b: seq<T>, c: seq<T>, k: nat)
    requires k < |a + b + c|
    ensures (a + b + c)[k] == if k < |a| then a[k] else if k < |a| + |b| then b[k - |a|] else c[k - |a| - |b|]
  {
  }

  /** A sequence one longer than `a`, agreeing with it on `a`'s indices, is `a` plus its last element. */
  lemma Snoc<T>(a: seq<T>, b: seq<T>, x: T)
    requires |b| == |a| + 1 && b[|a|] == x
    requires forall k | 0 <= k < |a| :: b[k] == a[k]
    ensures b == a + [x]
  {
  }
}
