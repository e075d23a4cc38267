/** Small facts about sequence concatenation, proved once for any element type
    so that the proofs using them need not rediscover them. */
module Seqs {

  lemma AppendAssoc<T>(x: seq<T>, y: seq<T>, z: seq<T>)
    ensures (x + y) + z == x + (y + z)
  {
  }

  lemma SplitLast<T>(b: seq<T>)
    requires b != []
    ensures b == b[..|b| - 1] + [b[|b| - 1]]
  {
  }

  lemma PrefixGrows<T>(s: seq<T>, x: nat)
    requires x < |s|
    ensures s[..x + 1] == s[..x] + [s[x]]
  {
  }
}
