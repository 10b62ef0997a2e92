/** Small facts about sequence slices that the loop proofs use without unfolding the elements. */
module Seqs {

  lemma {:induction false} PrefixStep<T>(s: seq<T>, i: nat)
    requires i < |s|
    ensures s[..i + 1] == s[..i] + [s[i]]
  {
  }

  lemma {:induction false} PrefixAll<T>(s: seq<T>)
    ensures s[..|s|] == s
  {
  }

  lemma {:induction false} AppendAssoc<T>(a: seq<T>, b: seq<T>, c: seq<T>)
    ensures a + (b + c) == (a + b) + c
  {
  }

  lemma {:induction false} AppendEmpty<T>(a: seq<T>)
    ensures a + [] == a
  {
  }
}
