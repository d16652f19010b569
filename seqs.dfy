/** Small facts about sequences, stated once so that proofs elsewhere can cite them instead of re-deriving them. */
module Seqs {

  lemma SplitAt<T>(s: seq<T>, n: nat)
    requires n <= |s|
    ensures s[..n] + s[n..] == s
  {
  }

  lemma PrefixWhole<T>(s: seq<T>)
    ensures s[..|s|] == s
  {
  }

  lemma PrefixStep<T>(s: seq<T>, i: nat)
    requires i < |s|
    ensures s[..i + 1] == s[..i] + [s[i]]
  {
  }

  lemma PrefixOfPrefix<T>(s: seq<T>, n: nat, m: nat)
    requires n <= m <= |s|
    ensures s[..m][..n] == s[..n]
  {
  }

  lemma PrefixIndex<T>(s: seq<T>, n: nat, m: nat)
    requires n < m <= |s|
    ensures s[..m][n] == s[n]
  {
  }

  lemma AppendEmpty<T>(s: seq<T>)
    ensures s + [] == s && [] + s == s
  {
  }

  lemma AppendAssoc<T>(a: seq<T>, b: seq<T>, c: seq<T>)
    ensures (a + b) + c == a + (b + c)
  {
  }

  lemma MultisetAppend<T>(s: seq<T>, t: seq<T>)
    ensures multiset(s + t) == multiset(s) + multiset(t)
  {
  }
}
