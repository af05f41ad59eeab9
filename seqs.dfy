/** Facts about lists shared by the deck and the board. */
module Seqs {

  /** No entry is listed twice. */
  predicate Distinct<T(==)>(s: seq<T>)
  {
    forall i, j :: 0 <= i < j < |s| ==> s[i] != s[j]
  }
}
