/** Facts about sequences that the codecs of this model lean on. */
module Seqs {

  /** Concatenation regroups. Stated once, so that proofs over long
      concatenations can regroup them one step at a time. */
  lemma Assoc<T>(a: seq<T>, b: seq<T>, c: seq<T>)
    ensures a + b + c == a + (b + c)
  {
  }
}
