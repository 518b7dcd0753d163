/** Small facts about sequences that the other modules cite by name. */
module Seqs {

  /** A sequence is its part before `j`, its element at `j` and its part after. */
  lemma SplitAt<X>(s: seq<X>, j: int)
    requires 0 <= j < |s|
    ensures s == s[..j] + [s[j]] + s[j + 1..]
  {
  }

  /** A non-empty sequence is its head followed by its tail. */
  lemma ConsSplit<X>(s: seq<X>)
    requires |s| > 0
    ensures s == [s[0]] + s[1..]
  {
  }

  lemma ConcatAssociates<X>(a: seq<X>, b: seq<X>, c: seq<X>)
    ensures a + (b + c) == (a + b) + c
  {
  }
}
