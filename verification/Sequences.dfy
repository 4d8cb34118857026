/** Concatenation regrouped: one fact that many proofs about byte strings, texts and lists need by name. */
module Sequences {
  lemma Regroup<T>(a: seq<T>, b: seq<T>, c: seq<T>)
    ensures (a + b) + c == a + (b + c)
  {
  }
}
