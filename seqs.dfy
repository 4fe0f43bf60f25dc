/** Sequence facts shared by the string modules. */
module Seqs {

  /** Regrouping a concatenation of four parts, stated once so that callers need not re-derive it. */
  lemma Regroup<T>(u: seq<T>, x: seq<T>, m: seq<T>, y: seq<T>)
    ensures u + (x + m + y) == (u + x) + m + y
  {
    assert u + (x + m + y) == u + x + m + y;
  }

}
