/**
 The strided walk of `MIX_AREAS_16` and `MIX_AREAS_32`, whose destination and
 source are arrays of whole words: position after position, one per-position
 mix is applied to the destination word, the accumulator word and the source
 word under the three cursors.

 Arrays are indexed in elements: a cursor step here is the routine's byte
 step divided by the element width.
 */
module WordAreas {
  import opened Words
  import opened Strided

  /** The cursors of the first `size` positions stay inside the three arrays. */
  ghost predicate Fits(size: nat, steps: Steps, dstLen: nat, srcLen: nat, sumLen: nat)
  {
    && InBounds(size, steps.dst, 1, dstLen)
    && InBounds(size, steps.src, 1, srcLen)
    && InBounds(size, steps.sum, 1, sumLen)
  }

  /** The shared arrays after the first `n` positions are mixed in order by
      `mix`, which maps a destination word, an accumulator word and a source
      word to the new destination and accumulator words. */
  function Scatter<D, S>(n: nat, dst: seq<D>, src: seq<S>, sum: seq<Int32>, steps: Steps,
                         mix: (D, Int32, S) -> (D, Int32)): (r: (seq<D>, seq<Int32>))
    requires Fits(n, steps, |dst|, |src|, |sum|)
    ensures |r.0| == |dst| && |r.1| == |sum|
    decreases n
  {
    if n == 0 then (dst, sum)
    else
      var (dst', sum') := Scatter(n - 1, dst, src, sum, steps, mix);
      var (d, s, m) := (Offset(n - 1, steps.dst), Offset(n - 1, steps.src), Offset(n - 1, steps.sum));
      var (out, total) := mix(dst'[d], sum'[m], src[s]);
      (dst'[d := out], sum'[m := total])
  }

  /** Words no cursor reaches keep their values. */
  lemma {:induction false} ScatterUntouched<D, S>(n: nat, dst: seq<D>, src: seq<S>, sum: seq<Int32>,
                                                 steps: Steps, mix: (D, Int32, S) -> (D, Int32))
    requires Fits(n, steps, |dst|, |src|, |sum|)
    ensures var r := Scatter(n, dst, src, sum, steps, mix);
      forall j :: 0 <= j < |dst| && !Touched(j, steps.dst, 1, n) ==> r.0[j] == dst[j]
    ensures var r := Scatter(n, dst, src, sum, steps, mix);
      forall j :: 0 <= j < |sum| && !Touched(j, steps.sum, 1, n) ==> r.1[j] == sum[j]
    decreases n
  {
    if n > 0 {
      var i := n - 1;
      assert Fits(i, steps, |dst|, |src|, |sum|);
      ScatterUntouched(i, dst, src, sum, steps, mix);
      var (d, m) := (Offset(i, steps.dst), Offset(i, steps.sum));
      var r := Scatter(n, dst, src, sum, steps, mix);
      forall j | 0 <= j < |dst| && !Touched(j, steps.dst, 1, n)
        ensures r.0[j] == dst[j]
      {
        assert j != d;
        assert !Touched(j, steps.dst, 1, i);
      }
      forall j | 0 <= j < |sum| && !Touched(j, steps.sum, 1, n)
        ensures r.1[j] == sum[j]
      {
        assert j != m;
        assert !Touched(j, steps.sum, 1, i);
      }
    }
  }

  /** With the destination and accumulator cursors moving, no position sees
      another position's result: every position is mixed from the original
      words. */
  lemma {:induction false} ScatterPointwise<D, S>(n: nat, dst: seq<D>, src: seq<S>, sum: seq<Int32>,
                                                 steps: Steps, mix: (D, Int32, S) -> (D, Int32))
    requires Fits(n, steps, |dst|, |src|, |sum|)
    requires Separated(n, steps.dst, 1) && Separated(n, steps.sum, 1)
    ensures var r := Scatter(n, dst, src, sum, steps, mix);
      forall k :: 0 <= k < n ==>
        var x := mix(dst[Offset(k, steps.dst)], sum[Offset(k, steps.sum)], src[Offset(k, steps.src)]);
        r.0[Offset(k, steps.dst)] == x.0 && r.1[Offset(k, steps.sum)] == x.1
    decreases n
  {
    if n > 0 {
      var i := n - 1;
      assert Fits(i, steps, |dst|, |src|, |sum|);
      ScatterPointwise(i, dst, src, sum, steps, mix);
      ScatterUntouched(i, dst, src, sum, steps, mix);
      var prev := Scatter(i, dst, src, sum, steps, mix);
      var (d, m) := (Offset(i, steps.dst), Offset(i, steps.sum));
      if i > 0 {
        EarlierCellsDisjoint(i, steps.dst, 1);
        EarlierCellsDisjoint(i, steps.sum, 1);
      }
      assert !Touched(d, steps.dst, 1, i);
      assert !Touched(m, steps.sum, 1, i);
      assert prev.0[d] == dst[d] && prev.1[m] == sum[m];
      var r := Scatter(n, dst, src, sum, steps, mix);
      assert r.0 == prev.0[d := mix(prev.0[d], prev.1[m], src[Offset(i, steps.src)]).0];
      assert r.1 == prev.1[m := mix(prev.0[d], prev.1[m], src[Offset(i, steps.src)]).1];
      forall k | 0 <= k < n
        ensures var x := mix(dst[Offset(k, steps.dst)], sum[Offset(k, steps.sum)], src[Offset(k, steps.src)]);
          r.0[Offset(k, steps.dst)] == x.0 && r.1[Offset(k, steps.sum)] == x.1
      {
        var (dk, sk, mk) := (Offset(k, steps.dst), Offset(k, steps.src), Offset(k, steps.sum));
        var x := mix(dst[dk], sum[mk], src[sk]);
        if k < i {
          assert dk != d && mk != m;
          assert prev.0[dk] == x.0 && prev.1[mk] == x.1;
          assert r.0[dk] == prev.0[dk] && r.1[mk] == prev.1[mk];
        } else {
          assert k == i;
          assert (dk, sk, mk) == (d, Offset(i, steps.src), m);
        }
      }
    }
  }
}
