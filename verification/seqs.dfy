/** Small facts about sequences that the proofs use by name, so that each
    proof states them once instead of rediscovering them. */
module Seqs {

  lemma HeadTail<T>(s: seq<T>)
    requires |s| > 0
    ensures [s[0]] + s[1..] == s
  {
  }

  lemma AppendHead<T>(acc: seq<T>, s: seq<T>)
    requires |s| > 0
    ensures acc + [s[0]] + s[1..] == acc + s
  {
  }

  lemma EmptyPrefix<T>(s: seq<T>)
    ensures [] + s == s
  {
  }

  lemma AppendEmpty<T>(s: seq<T>)
    ensures s + [] == s
  {
  }

  lemma TakeConcat<T>(a: seq<T>, c: seq<T>)
    ensures (a + c)[..|a|] == a
  {
  }

  /** `p + b` is `p` plus all of `b` but its last element, then that element. */
  lemma SplitLast<T>(p: seq<T>, b: seq<T>)
    requires |b| > 0
    ensures p + b == (p + b[..|b| - 1]) + [b[|b| - 1]]
  {
  }

  lemma TakeLast<T>(s: seq<T>)
    requires |s| > 0
    ensures s == s[..|s| - 1] + [s[|s| - 1]]
  {
  }

  lemma TailOfCons<T>(x: T, s: seq<T>)
    ensures ([x] + s)[1..] == s
  {
  }

  lemma ConsAppend<T>(s: seq<T>, x: T)
    requires |s| > 0
    ensures s + [x] == [s[0]] + (s[1..] + [x])
  {
  }
}
