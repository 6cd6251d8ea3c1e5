/** Laws of concatenation, stated for any element type so that they stay cheap to use. */
module Sequences {
  lemma HeadAndTail<T>(a: seq<T>, b: seq<T>)
    requires a != []
    ensures a + b != [] && (a + b)[0] == a[0] && (a + b)[1..] == a[1..] + b
  {
  }

  lemma LastAndInit<T>(a: seq<T>, x: T)
    ensures a + [x] != [] && (a + [x])[|a + [x]| - 1] == x && (a + [x])[..|a + [x]| - 1] == a
  {
  }

  lemma Associative<T>(a: seq<T>, b: seq<T>, c: seq<T>)
    ensures a + (b + c) == (a + b) + c
  {
  }
}
