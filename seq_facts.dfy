/**
 * Generic sequence facts the loop proofs call on: regrouping a
 * concatenation and taking one more element of a prefix.
 */
module SeqFacts {
  lemma Associative<T>(a: seq<T>, b: seq<T>, c: seq<T>)
    ensures a + b + c == a + (b + c)
  {
  }

  lemma TakeSnoc<T>(s: seq<T>, i: nat)
    requires i < |s|
    ensures s[..i + 1] == s[..i] + [s[i]]
  {
  }

  lemma TakeAll<T>(s: seq<T>)
    ensures s[..|s|] == s
  {
  }

  lemma AppendToEmpty<T>(s: seq<T>)
    ensures [] + s == s
  {
  }
}
