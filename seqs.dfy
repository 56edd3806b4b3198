/** Facts about sequences used by several modules. */
module Seqs {

  /** Concatenation is associative; stated once so that proofs need not rediscover it element by element. */
  lemma AppendAssoc<T>(a: seq<T>, b: seq<T>, c: seq<T>)
    ensures (a + b) + c == a + (b + c)
  {
  }
}
