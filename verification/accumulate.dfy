/**
 The format-independent half of the per-sample algorithm shared by all three
 routines: the first-writer claim of the word formats, the first-writer
 adjustment of a producer's sample, the atomic fold (`lock xadd`) of the
 result into the 32-bit accumulator, and producers run one after another.
 */
module Accumulate {
  import opened Words

  /** `lock cmpxchg` on a 16- or 32-bit destination word with 0 expected and
      1 offered: the word afterwards, and whether it was the cleared 0. The
      swap succeeds exactly on a cleared word and leaves a non-zero word in
      every case; a failed swap changes nothing. */
  function ClaimCleared(word: int): (r: (int, bool))
    ensures r.1 <==> word == 0
    ensures r.0 != 0
    ensures r.1 ==> r.0 == 1
    ensures !r.1 ==> r.0 == word
  {
    if word == 0 then (1, true) else (word, false)
  }

  /** The amount a producer folds into the accumulator. A producer that found
      the first-writer flag clear subtracts the accumulator value `oldSum` it
      read before claiming the flag; every other producer adds its sample. */
  function Contribution(sample: Int32, oldSum: Int32, wasClear: bool): (r: Int32)
    ensures !wasClear ==> r == sample
    ensures wasClear ==> Wrap32(r + oldSum) == sample
  {
    if wasClear then
      WrapSubAdd(sample, oldSum);
      Wrap32(sample - oldSum)
    else
      sample
  }

  /** `lock xadd`: the accumulator after `contribution` is added to it. */
  function Fold(sum: Int32, contribution: Int32): Int32
  {
    Wrap32(sum + contribution)
  }

  /** Run with no other producer in between, the first writer replaces the
      accumulator's residue by its own sample, and every later writer adds
      its sample to the accumulator. */
  lemma FoldContribution(sum: Int32, sample: Int32, wasClear: bool)
    ensures Fold(sum, Contribution(sample, sum, wasClear))
         == if wasClear then sample else Wrap32(sum + sample)
  {
    if wasClear {
      WrapSubAdd(sample, sum);
    }
  }

  /** The exact sum of the samples `value` gives the inputs `xs`. */
  function SumOf<X>(xs: seq<X>, value: X -> int): int
  {
    if xs == [] then 0 else value(xs[0]) + SumOf(xs[1..], value)
  }

  lemma {:induction false} SumConcat<X>(a: seq<X>, b: seq<X>, value: X -> int)
    ensures SumOf(a + b, value) == SumOf(a, value) + SumOf(b, value)
  {
    if a == [] {
      assert a + b == b;
    } else {
      assert (a + b)[1..] == a[1..] + b;
      SumConcat(a[1..], b, value);
    }
  }

  /** Taking one input out of a sequence. */
  lemma SumRemove<X>(t: seq<X>, i: nat, value: X -> int)
    requires i < |t|
    ensures SumOf(t, value) == value(t[i]) + SumOf(t[..i] + t[i + 1..], value)
  {
    var front, middle, back := t[..i], [t[i]], t[i + 1..];
    assert t[..i + 1] == front + middle;
    assert t == t[..i + 1] + back;
    SumConcat(t[..i + 1], back, value);
    SumConcat(front, middle, value);
    SumConcat(front, back, value);
    assert SumOf(middle, value) == value(t[i]) by {
      assert middle[1..] == [];
    }
  }

  /** Taking the first input of `s` and an equal input of its permutation `t`
      out leaves two permutations of each other. */
  lemma MultisetRemove<X>(s: seq<X>, t: seq<X>, i: nat)
    requires multiset(s) == multiset(t)
    requires s != [] && i < |t| && t[i] == s[0]
    ensures multiset(s[1..]) == multiset(t[..i] + t[i + 1..])
  {
    assert t == t[..i] + [t[i]] + t[i + 1..];
    assert multiset(t[..i] + t[i + 1..]) == multiset(t) - multiset{t[i]};
    assert s == [s[0]] + s[1..];
    assert multiset(s[1..]) == multiset(s) - multiset{s[0]};
  }

  /** The sum of the samples does not depend on the order they arrive in. */
  lemma {:induction false} SumPermutation<X>(s: seq<X>, t: seq<X>, value: X -> int)
    requires multiset(s) == multiset(t)
    ensures SumOf(s, value) == SumOf(t, value)
    decreases |s|
  {
    if s == [] {
      assert |t| == |multiset(t)| == 0;
    } else {
      var x := s[0];
      assert x in multiset(t);
      var i :| 0 <= i < |t| && t[i] == x;
      SumRemove(t, i, value);
      MultisetRemove(s, t, i);
      SumPermutation(s[1..], t[..i] + t[i + 1..], value);
    }
  }

  /** The cell of one position after producers with inputs `xs` run one
      after another, `step` being one producer's whole step. */
  function Sequential<C, X>(c: C, xs: seq<X>, step: (C, X) -> C): C
    decreases |xs|
  {
    if xs == [] then c else Sequential(step(c, xs[0]), xs[1..], step)
  }

  /** When every step from a published cell publishes again and adds its
      sample to the accumulator `sum`, sequential producers starting from a
      published cell add up their samples. */
  lemma {:induction false} SequentialAdds<C, X>(c: C, xs: seq<X>, step: (C, X) -> C,
                                                published: C -> bool, sum: C -> Int32, value: X -> int)
    requires published(c)
    requires forall d, x {:trigger step(d, x)} :: published(d) ==>
      published(step(d, x)) && sum(step(d, x)) == Wrap32(sum(d) + value(x))
    ensures published(Sequential(c, xs, step))
    ensures sum(Sequential(c, xs, step)) == Wrap32(sum(c) + SumOf(xs, value))
    decreases |xs|
  {
    if xs == [] {
      assert Wrap32(sum(c) + SumOf(xs, value)) == sum(c);
    } else {
      var next := step(c, xs[0]);
      SequentialAdds(next, xs[1..], step, published, sum, value);
      WrapAdd(sum(c) + value(xs[0]), SumOf(xs[1..], value));
    }
  }
}
