/** What every module needs to know about sequences. */
module Sequences {

  lemma Regroup<T>(a: seq<T>, b: seq<T>, c: seq<T>)
    ensures a + (b + c) == a + b + c
  {
  }

  lemma NothingInFront<T>(a: seq<T>, b: seq<T>)
    ensures [] + a + b == a + b
  {
  }
}
