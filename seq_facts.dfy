/** Small facts about splitting sequences, kept apart so that the proofs that use them
    do not have to rediscover them among their own quantifiers. */
module SeqFacts {

  lemma SplitAt<T>(s: seq<T>, n: int)
    requires 0 <= n <= |s|
    ensures s == s[..n] + s[n..]
  {
  }

  lemma SplitLast<T>(s: seq<T>)
    requires 1 <= |s|
    ensures s == s[..|s| - 1] + [s[|s| - 1]]
  {
  }

  lemma SplitLastTwo<T>(s: seq<T>)
    requires 2 <= |s|
    ensures s == s[..|s| - 2] + [s[|s| - 2], s[|s| - 1]]
  {
  }
}
