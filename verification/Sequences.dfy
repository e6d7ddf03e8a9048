/** Small facts about concatenation, and sequences whose elements are tagged with a thread. */
module Sequences {

  lemma Assoc<T>(a: seq<T>, b: seq<T>, c: seq<T>)
    ensures a + b + c == a + (b + c)
  {
  }

  /** The elements tagged with t, in order. */
  function OfThread<T>(tagged: seq<(nat, T)>, t: nat): seq<T> {
    if tagged == [] then []
    else
      var last := tagged[|tagged| - 1];
      OfThread(tagged[..|tagged| - 1], t) + (if last.0 == t then [last.1] else [])
  }

  lemma {:induction false} OfThreadConcat<T>(xs: seq<(nat, T)>, ys: seq<(nat, T)>, t: nat)
    ensures OfThread(xs + ys, t) == OfThread(xs, t) + OfThread(ys, t)
    decreases |ys|
  {
    if ys == [] {
      assert xs + ys == xs;
    } else {
      var init, last := ys[..|ys| - 1], ys[|ys| - 1];
      OfThreadConcat(xs, init, t);
      assert (xs + ys)[..|xs + ys| - 1] == xs + init && (xs + ys)[|xs + ys| - 1] == last;
    }
  }
}
