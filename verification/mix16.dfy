/**
 `MIX_AREAS_16`: signed 16-bit samples mixed through a 32-bit accumulator.

 The destination word doubles as the first-writer flag: a word equal to 0 is
 "cleared", and the producer whose `lock cmpxchgw` swaps that 0 for 1 is the
 first writer of the position. Publishing stores the accumulator saturated
 to a signed short (`packssdw`).
 */
module Mix16 {
  import opened Words
  import opened Accumulate
  import opened Strided
  import opened Publish
  import opened WordAreas

  const SHORT_MIN: int := -0x8000
  const SHORT_MAX: int := 0x7fff

  /** The shared state of one position: the published short and the accumulator. */
  datatype Cell = Cell(dst: Int16, sum: Int32)

  /** Signed saturation of the accumulator to a short (`packssdw`). */
  function Saturate(v: Int32): (r: Int16)
    ensures SHORT_MIN <= v <= SHORT_MAX ==> r == v
    ensures SHORT_MAX < v ==> r == SHORT_MAX
    ensures v < SHORT_MIN ==> r == SHORT_MIN
    ensures r == 0 <==> v == 0
    ensures r < 0 <==> v < 0
  {
    Clamp(v, SHORT_MIN, SHORT_MAX)
  }

  /** Accumulator values one past either end of the short range saturate to
      that end. */
  lemma SaturationBoundaries()
    ensures Saturate(0x8000) == SHORT_MAX
    ensures Saturate(-0x8001) == SHORT_MIN
    ensures Saturate(SHORT_MAX) == SHORT_MAX && Saturate(SHORT_MIN) == SHORT_MIN
  {
  }

  /** A cell whose destination holds the saturated accumulator. */
  predicate Published(c: Cell)
  {
    c.dst == Saturate(c.sum)
  }

  /** One producer's whole step at one position with no other producer
      running: read the accumulator, claim the flag, fold the adjusted
      sample, publish once. */
  function MixSample(c: Cell, sample: Int16): (r: Cell)
    ensures r.sum == if c.dst == 0 then sample else Wrap32(c.sum + sample)
    ensures Published(r)
  {
    var oldSum := c.sum;                                  // movl (%rbx), %edx
    var (_, wasClear) := ClaimCleared(c.dst);             // lock cmpxchgw
    var contribution := Contribution(sample, oldSum, wasClear);
    FoldContribution(oldSum, sample, wasClear);
    var folded := Fold(c.sum, contribution);              // lock xadd
    Cell(Saturate(folded), folded)                        // one publish round
  }

  /** A published destination reads as cleared only when the accumulator is 0,
      so a later producer that takes it for a first writer subtracts nothing. */
  lemma PublishedAddsSample(c: Cell, sample: Int16)
    requires Published(c)
    ensures c.dst == 0 <==> c.sum == 0
    ensures MixSample(c, sample).sum == Wrap32(c.sum + sample)
  {
  }

  /** Producers run one after another on one position. */
  function MixAll(c: Cell, samples: seq<Int16>): Cell
  {
    Sequential(c, samples, MixSample)
  }

  /** `movswl`: a sample as a 32-bit signed amount. */
  function Widen(sample: Int16): int
  {
    sample
  }

  /** The exact sum of the samples. */
  function Total(samples: seq<Int16>): int
  {
    SumOf(samples, Widen)
  }

  /** Every step from a published cell publishes again and adds its sample. */
  lemma StepsAdd()
    ensures forall d: Cell, x: Int16 {:trigger MixSample(d, x)} :: Published(d) ==>
      Published(MixSample(d, x)) && MixSample(d, x).sum == Wrap32(d.sum + Widen(x))
  {
    forall d: Cell, x: Int16 | Published(d)
      ensures Published(MixSample(d, x)) && MixSample(d, x).sum == Wrap32(d.sum + Widen(x))
    {
      PublishedAddsSample(d, x);
    }
  }

  /** From a published cell, sequential producers add up their samples. */
  lemma MixAllFromPublished(c: Cell, samples: seq<Int16>)
    requires Published(c)
    ensures MixAll(c, samples).sum == Wrap32(c.sum + Total(samples))
    ensures Published(MixAll(c, samples))
  {
    StepsAdd();
    SequentialAdds(c, samples, MixSample, Published, (d: Cell) => d.sum, Widen);
  }

  /** In a cycle that starts from a cleared destination, whatever the residue
      in the accumulator, the accumulator ends as the sum of all samples and
      the destination as its saturation. */
  lemma CycleSum(c: Cell, samples: seq<Int16>)
    requires c.dst == 0
    requires samples != []
    ensures MixAll(c, samples).sum == Wrap32(Total(samples))
    ensures MixAll(c, samples).dst == Saturate(Wrap32(Total(samples)))
  {
    var first := MixSample(c, samples[0]);
    MixAllFromPublished(first, samples[1..]);
  }

  /** The outcome of a cycle does not depend on the order of the producers. */
  lemma OrderIndependent(c: Cell, samples: seq<Int16>, reordered: seq<Int16>)
    requires c.dst == 0
    requires samples != []
    requires multiset(samples) == multiset(reordered)
    ensures MixAll(c, samples) == MixAll(c, reordered)
  {
    assert |reordered| == |multiset(reordered)| == |samples|;
    CycleSum(c, samples);
    CycleSum(c, reordered);
    SumPermutation(samples, reordered, Widen);
  }

  /** Two producers of 1000 and 2000, in either order, publish 3000; a
      cleared position receiving 30000 and 10000 publishes 32767. */
  lemma Scenarios(residue: Int32)
    ensures MixAll(Cell(0, residue), [1000, 2000]) == Cell(3000, 3000)
    ensures MixAll(Cell(0, residue), [2000, 1000]) == Cell(3000, 3000)
    ensures MixAll(Cell(0, residue), [30000, 10000]) == Cell(SHORT_MAX, 40000)
  {
    CycleSum(Cell(0, residue), [1000, 2000]);
    CycleSum(Cell(0, residue), [2000, 1000]);
    CycleSum(Cell(0, residue), [30000, 10000]);
  }

  /** The atomic steps of one position, on the shared arrays: `d`, `s` and
      `m` are the cursors into `dst`, `src` and `sum`. */
  method MixPosition(dst: seq<Int16>, src: seq<Int16>, sum: seq<Int32>, d: nat, s: nat, m: nat)
    returns (dst': seq<Int16>, sum': seq<Int32>)
    requires d < |dst| && s < |src| && m < |sum|
    ensures var c := MixSample(Cell(dst[d], sum[m]), src[s]);
      dst' == dst[d := c.dst] && sum' == sum[m := c.sum]
  {
    var oldSum := sum[m];                                 // movl (%rbx), %edx
    var (claimed, wasClear) := ClaimCleared(dst[d]);
    dst' := dst[d := claimed];                            // lock cmpxchgw %cx, (%rdi)
    var sample := src[s];                                 // movswl (%rsi), %ecx
    var contribution := Contribution(sample, oldSum, wasClear);
    sum' := sum[m := Fold(sum[m], contribution)];         // lock xadd %ecx, (%rbx)
    var out, published, _ := PublishLoop(dst'[d], sum'[m], [], Saturate);
    dst' := dst'[d := out];
    sum' := sum'[m := published];
    FoldContribution(oldSum, sample, wasClear);
  }

  /** `MixSample` as the per-position step of the strided walk. */
  function MixWord(dst: Int16, sum: Int32, src: Int16): (Int16, Int32)
  {
    var c := MixSample(Cell(dst, sum), src);
    (c.dst, c.sum)
  }

  /** `MIX_AREAS_16` with no other producer: for each of `size` positions,
      the cursors into `dst`, `src` and `sum` (in elements) advance by their
      own steps. Returns the arrays afterwards and the cursors visited. */
  method MixAreas(size: nat, dst: seq<Int16>, src: seq<Int16>, sum: seq<Int32>,
                  dstStep: nat, srcStep: nat, sumStep: nat)
    returns (dst': seq<Int16>, sum': seq<Int32>, visited: seq<Cursor>)
    requires size < TWO_32
    requires Fits(size, Steps(dstStep, srcStep, sumStep), |dst|, |src|, |sum|)
    ensures size == 0 ==> visited == [] && dst' == dst && sum' == sum
    ensures |visited| == size
    ensures forall k :: 0 <= k < size ==>
      visited[k] == Cursor(Offset(k, dstStep), Offset(k, srcStep), Offset(k, sumStep))
    ensures |dst'| == |dst| && |sum'| == |sum|
    ensures (dst', sum') == Scatter(size, dst, src, sum, Steps(dstStep, srcStep, sumStep), MixWord)
    ensures Separated(size, dstStep, 1) && Separated(size, sumStep, 1) ==>
      forall k :: 0 <= k < size ==>
        var c := MixSample(Cell(dst[Offset(k, dstStep)], sum[Offset(k, sumStep)]), src[Offset(k, srcStep)]);
        dst'[Offset(k, dstStep)] == c.dst && sum'[Offset(k, sumStep)] == c.sum
    ensures forall j :: 0 <= j < |dst| && !Touched(j, dstStep, 1, size) ==> dst'[j] == dst[j]
    ensures forall j :: 0 <= j < |sum| && !Touched(j, sumStep, 1, size) ==> sum'[j] == sum[j]
  {
    var steps := Steps(dstStep, srcStep, sumStep);
    dst', sum', visited := dst, sum, [];
    var d, s, m := 0, 0, 0;
    var remaining: nat := size;
    while remaining != 0                                  // cmpl $0; jz 6f ... decl; jnz 1b
      invariant |visited| + remaining == size
      invariant Fits(|visited|, steps, |dst|, |src|, |sum|)
      invariant d == Offset(|visited|, dstStep)
      invariant s == Offset(|visited|, srcStep)
      invariant m == Offset(|visited|, sumStep)
      invariant visited == Cursors(|visited|, steps)
      invariant (dst', sum') == Scatter(|visited|, dst, src, sum, steps, MixWord)
      decreases remaining
    {
      OffsetNext(|visited|, dstStep);
      OffsetNext(|visited|, srcStep);
      OffsetNext(|visited|, sumStep);
      dst', sum' := MixPosition(dst', src, sum', d, s, m);
      visited := visited + [Cursor(d, s, m)];
      d, s, m := d + dstStep, s + srcStep, m + sumStep;   // addq the three steps
      remaining := remaining - 1;
    }
    if Separated(size, dstStep, 1) && Separated(size, sumStep, 1) {
      ScatterPointwise(size, dst, src, sum, steps, MixWord);
    }
    ScatterUntouched(size, dst, src, sum, steps, MixWord);
  }
}
