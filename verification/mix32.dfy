/**
 `MIX_AREAS_32`: 32-bit samples carrying 24 bits of resolution in their top
 three bytes.

 A source word contributes its arithmetic shift right by 8, so the
 accumulator counts in 24-bit units; publishing saturates it to the signed
 24-bit range and shifts it back left by 8. As in the 16-bit routine the
 whole destination word is the first-writer flag: 0 is "cleared", and the
 producer whose `lock cmpxchgl` swaps it for 1 is the first writer.
 */
module Mix32 {
  import opened Words
  import opened Accumulate
  import opened Strided
  import opened Publish
  import opened WordAreas

  /** The shared state of one position: the published word and the accumulator. */
  datatype Cell = Cell(dst: Int32, sum: Int32)

  /** `sarl $8`: the 24-bit sample a source word contributes. */
  function Decode(src: Int32): (r: int)
    ensures SAMPLE_MIN <= r <= SAMPLE_MAX
    ensures r * 0x100 <= src < r * 0x100 + 0x100
  {
    src / 0x100
  }

  /** The clamping in the publish loop, as its two compare-and-branch steps. */
  function Saturate(v: Int32): (r: Int32)
    ensures r == Clamp(v, SAMPLE_MIN, SAMPLE_MAX)
  {
    if v > SAMPLE_MAX then SAMPLE_MAX             // cmpl %eax, %ecx; jg 4f
    else if v < SAMPLE_MIN then SAMPLE_MIN        // cmpl %eax, %ecx; jl 4f
    else v
  }

  /** The destination word published for accumulator value `v` (`sall $8`).
      The word is a multiple of 256, it is the cleared 0 exactly when the
      accumulator is 0, and decoding it gives back the saturated accumulator. */
  function Encode(v: Int32): (r: Int32)
    ensures r % 0x100 == 0
    ensures r == 0 <==> v == 0
    ensures Decode(r) == Clamp(v, SAMPLE_MIN, SAMPLE_MAX)
    ensures SAMPLE_MIN <= v <= SAMPLE_MAX ==> r == v * 0x100
  {
    Wrap32(Saturate(v) * 0x100)
  }

  /** Publishing the sample of a source word gives back that word with its
      low byte cleared. */
  lemma EncodeDecode(src: Int32)
    ensures Encode(Decode(src)) == src - src % 0x100
  {
  }

  /** Accumulator values one past either end of the 24-bit range saturate to
      that end. */
  lemma SaturationBoundaries()
    ensures Encode(0x80_0000) == 0x7f_ffff * 0x100
    ensures Encode(-0x80_0001) == -0x80_0000 * 0x100
    ensures Encode(0x7f_ffff) == 0x7fff_ff00
  {
  }

  /** A cell whose destination holds the encoded accumulator. */
  predicate Published(c: Cell)
  {
    c.dst == Encode(c.sum)
  }

  /** One producer's whole step at one position with no other producer
      running. Only the producer that found the word cleared subtracts the
      accumulator it read. */
  function MixSample(c: Cell, src: Int32): (r: Cell)
    ensures r.sum == if c.dst == 0 then Decode(src) else Wrap32(c.sum + Decode(src))
    ensures Published(r)
  {
    var oldSum := c.sum;                                  // movl (%rbx), %edx
    var (_, wasClear) := ClaimCleared(c.dst);             // lock cmpxchgl
    var sample := Decode(src);                            // movl (%rsi), %ecx; sarl $8
    var contribution := Contribution(sample, oldSum, wasClear);
    FoldContribution(oldSum, sample, wasClear);
    var folded := Fold(c.sum, contribution);              // lock xadd
    Cell(Encode(folded), folded)                          // one publish round
  }

  /** A published word reads as cleared only when the accumulator is 0, so a
      later producer that takes it for a first writer subtracts nothing. */
  lemma PublishedAddsSample(c: Cell, src: Int32)
    requires Published(c)
    ensures c.dst == 0 <==> c.sum == 0
    ensures MixSample(c, src).sum == Wrap32(c.sum + Decode(src))
  {
  }

  /** Producers run one after another on one position. */
  function MixAll(c: Cell, srcs: seq<Int32>): Cell
  {
    Sequential(c, srcs, MixSample)
  }

  /** The exact sum of the samples of `srcs`. */
  function Total(srcs: seq<Int32>): int
  {
    SumOf(srcs, Decode)
  }

  /** Every step from a published cell publishes again and adds its sample. */
  lemma StepsAdd()
    ensures forall d: Cell, x: Int32 {:trigger MixSample(d, x)} :: Published(d) ==>
      Published(MixSample(d, x)) && MixSample(d, x).sum == Wrap32(d.sum + Decode(x))
  {
    forall d: Cell, x: Int32 | Published(d)
      ensures Published(MixSample(d, x)) && MixSample(d, x).sum == Wrap32(d.sum + Decode(x))
    {
      PublishedAddsSample(d, x);
    }
  }

  /** From a published cell, sequential producers add up their samples. */
  lemma MixAllFromPublished(c: Cell, srcs: seq<Int32>)
    requires Published(c)
    ensures MixAll(c, srcs).sum == Wrap32(c.sum + Total(srcs))
    ensures Published(MixAll(c, srcs))
  {
    StepsAdd();
    SequentialAdds(c, srcs, MixSample, Published, (d: Cell) => d.sum, Decode);
  }

  /** In a cycle that starts from a cleared destination, whatever the residue
      in the accumulator, the accumulator ends as the sum of all samples and
      the destination as its encoding. */
  lemma CycleSum(c: Cell, srcs: seq<Int32>)
    requires c.dst == 0
    requires srcs != []
    ensures MixAll(c, srcs).sum == Wrap32(Total(srcs))
    ensures MixAll(c, srcs).dst == Encode(Wrap32(Total(srcs)))
  {
    var first := MixSample(c, srcs[0]);
    MixAllFromPublished(first, srcs[1..]);
  }

  /** The outcome of a cycle does not depend on the order of the producers. */
  lemma OrderIndependent(c: Cell, srcs: seq<Int32>, reordered: seq<Int32>)
    requires c.dst == 0
    requires srcs != []
    requires multiset(srcs) == multiset(reordered)
    ensures MixAll(c, srcs) == MixAll(c, reordered)
  {
    assert |reordered| == |multiset(reordered)| == |srcs|;
    CycleSum(c, srcs);
    CycleSum(c, reordered);
    SumPermutation(srcs, reordered, Decode);
  }

  /** The atomic steps of one position, on the shared arrays: `d`, `s` and
      `m` are the cursors into `dst`, `src` and `sum`. */
  method MixPosition(dst: seq<Int32>, src: seq<Int32>, sum: seq<Int32>, d: nat, s: nat, m: nat)
    returns (dst': seq<Int32>, sum': seq<Int32>)
    requires d < |dst| && s < |src| && m < |sum|
    ensures var c := MixSample(Cell(dst[d], sum[m]), src[s]);
      dst' == dst[d := c.dst] && sum' == sum[m := c.sum]
  {
    var oldSum := sum[m];                                 // movl (%rbx), %edx
    var (claimed, wasClear) := ClaimCleared(dst[d]);
    dst' := dst[d := claimed];                            // lock cmpxchgl %ecx, (%rdi)
    var contribution;
    if !wasClear {                                        // jnz 2f
      contribution := Decode(src[s]);                     // movl (%rsi), %ecx; sarl $8
    } else {
      var sample := Decode(src[s]);                       // movl (%rsi), %ecx; sarl $8
      contribution := Contribution(sample, oldSum, true); // subtract %edx
    }
    sum' := sum[m := Fold(sum[m], contribution)];         // lock xadd %ecx, (%rbx)
    var out, published, _ := PublishLoop(dst'[d], sum'[m], [], Encode);
    dst' := dst'[d := out];
    sum' := sum'[m := published];
    FoldContribution(oldSum, Decode(src[s]), wasClear);
  }

  /** `MixSample` as the per-position step of the strided walk. */
  function MixWord(dst: Int32, sum: Int32, src: Int32): (Int32, Int32)
  {
    var c := MixSample(Cell(dst, sum), src);
    (c.dst, c.sum)
  }

  /** `MIX_AREAS_32` with no other producer: for each of `size` positions,
      the cursors into `dst`, `src` and `sum` (in elements) advance by their
      own steps. Returns the arrays afterwards and the cursors visited. */
  method MixAreas(size: nat, dst: seq<Int32>, src: seq<Int32>, sum: seq<Int32>,
                  dstStep: nat, srcStep: nat, sumStep: nat)
    returns (dst': seq<Int32>, sum': seq<Int32>, visited: seq<Cursor>)
    requires size < TWO_32
    requires Fits(size, Steps(dstStep, srcStep, sumStep), |dst|, |src|, |sum|)
    ensures size == 0 ==> visited == [] && dst' == dst && sum' == sum
    ensures |visited| == size
    ensures forall k :: 0 <= k < size ==>
      visited[k] == Cursor(Offset(k, dstStep), Offset(k, srcStep), Offset(k, sumStep))
    ensures |dst'| == |dst| && |sum'| == |sum|
    ensures (dst', sum') == Scatter(size, dst, src, sum, Steps(dstStep, srcStep, sumStep), MixWord)
    ensures Separated(size, dstStep, 1) && Separated(size, sumStep, 1) ==>
      forall k :: 0 <= k < size ==>
        var c := MixSample(Cell(dst[Offset(k, dstStep)], sum[Offset(k, sumStep)]), src[Offset(k, srcStep)]);
        dst'[Offset(k, dstStep)] == c.dst && sum'[Offset(k, sumStep)] == c.sum
    ensures forall j :: 0 <= j < |dst| && !Touched(j, dstStep, 1, size) ==> dst'[j] == dst[j]
    ensures forall j :: 0 <= j < |sum| && !Touched(j, sumStep, 1, size) ==> sum'[j] == sum[j]
  {
    var steps := Steps(dstStep, srcStep, sumStep);
    dst', sum', visited := dst, sum, [];
    var d, s, m := 0, 0, 0;
    var remaining: nat := size;
    while remaining != 0                                  // cmpl $0; jz 6f ... decl; jnz 1b
      invariant |visited| + remaining == size
      invariant Fits(|visited|, steps, |dst|, |src|, |sum|)
      invariant d == Offset(|visited|, dstStep)
      invariant s == Offset(|visited|, srcStep)
      invariant m == Offset(|visited|, sumStep)
      invariant visited == Cursors(|visited|, steps)
      invariant (dst', sum') == Scatter(|visited|, dst, src, sum, steps, MixWord)
      decreases remaining
    {
      OffsetNext(|visited|, dstStep);
      OffsetNext(|visited|, srcStep);
      OffsetNext(|visited|, sumStep);
      dst', sum' := MixPosition(dst', src, sum', d, s, m);
      visited := visited + [Cursor(d, s, m)];
      d, s, m := d + dstStep, s + srcStep, m + sumStep;   // addq the three steps
      remaining := remaining - 1;
    }
    if Separated(size, dstStep, 1) && Separated(size, sumStep, 1) {
      ScatterPointwise(size, dst, src, sum, steps, MixWord);
    }
    ScatterUntouched(size, dst, src, sum, steps, MixWord);
  }
}
