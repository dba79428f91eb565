/**
 `MIX_AREAS_24`: packed little-endian 24-bit samples, three bytes each, in
 byte arrays addressed by byte steps.

 Here the first-writer flag is bit 0 of the destination's lowest byte,
 claimed by `lock btsw $0`. Publishing saturates the accumulator to
 [-0x7fffff, 0x7fffff] and forces bit 0 to 1 before storing the three bytes,
 so a published sample keeps the flag set at the cost of its lowest bit.
 */
module Mix24 {
  import opened Words
  import opened Accumulate
  import opened Strided
  import opened Publish

  /** The publish loop saturates to [-PUBLISH_LIMIT, PUBLISH_LIMIT]. */
  const PUBLISH_LIMIT: int := 0x7f_ffff

  /** Three bytes of a packed sample, lowest address first. */
  datatype Packed = Packed(lo: Byte, mid: Byte, hi: Byte)

  /** The shared state of one position: the published bytes and the accumulator. */
  datatype Cell = Cell(dst: Packed, sum: Int32)

  /** The three low bytes of a register, low to high (`movw %ax` stores the
      low two, `shrl $16` and `movb %al` the third). */
  function Split(v: int): Packed
  {
    Packed(v % 0x100, (v / 0x100) % 0x100, (v / 0x1_0000) % 0x100)
  }

  /** `movsbl 2(%rsi)`, `movzwl (%rsi)`, `sall $16`, `orl`: the signed 24-bit
      little-endian value of three bytes. Splitting it gives the bytes back. */
  function Decode(p: Packed): (r: int)
    ensures SAMPLE_MIN <= r <= SAMPLE_MAX
    ensures Split(r) == p
  {
    var high := SignExtend8(p.hi);
    var r := high * 0x1_0000 + (p.lo + p.mid * 0x100);
    assert r == (high * 0x100 + p.mid) * 0x100 + p.lo;
    assert r / 0x100 == high * 0x100 + p.mid && r % 0x100 == p.lo;
    assert r / 0x1_0000 == (r / 0x100) / 0x100 == high;
    r
  }

  /** Every 24-bit value is the decoding of its own three low bytes. */
  lemma DecodeSplit(v: int)
    requires SAMPLE_MIN <= v <= SAMPLE_MAX
    ensures Decode(Split(v)) == v
  {
    var p := Split(v);
    assert v == (v / 0x1_0000) * 0x1_0000 + p.mid * 0x100 + p.lo;
    assert SignExtend8(p.hi) == v / 0x1_0000;
  }

  /** The first-writer flag of a destination: bit 0 of its lowest byte. */
  predicate FlagSet(p: Packed)
  {
    p.lo % 2 == 1
  }

  /** `lock btsw $0, (%rdi)`: the cell afterwards, and the carry, which is
      whether the flag was already set. Only bit 0 of the lowest byte changes. */
  function TestAndSetFlag(c: Cell): (r: (Cell, bool))
    ensures r.1 <==> FlagSet(c.dst)
    ensures FlagSet(r.0.dst)
    ensures r.0.dst.lo / 2 == c.dst.lo / 2
    ensures r.0.dst.mid == c.dst.mid && r.0.dst.hi == c.dst.hi && r.0.sum == c.sum
    ensures r.1 ==> r.0 == c
  {
    (c.(dst := c.dst.(lo := Or1(c.dst.lo))), FlagSet(c.dst))
  }

  /** The saturation in the publish loop, as its two conditional moves. */
  function Saturate(v: Int32): (r: int)
    ensures r == Clamp(v, -PUBLISH_LIMIT, PUBLISH_LIMIT)
  {
    var upper := if v <= PUBLISH_LIMIT then v else PUBLISH_LIMIT;   // cmpl; cmovng
    if v < -PUBLISH_LIMIT then -PUBLISH_LIMIT else upper             // cmpl; cmovl
  }

  /** The bytes published for accumulator value `v`: its saturation with bit 0
      forced to 1 (`orl $1`). The flag is set, and the bytes decode to an odd
      value in range that exceeds the saturated accumulator by at most 1,
      and equals it exactly when the saturated accumulator is odd. */
  function Encode(v: Int32): (r: Packed)
    ensures FlagSet(r)
    ensures Decode(r) % 2 == 1
    ensures -PUBLISH_LIMIT <= Decode(r) <= PUBLISH_LIMIT
    ensures 0 <= Decode(r) - Clamp(v, -PUBLISH_LIMIT, PUBLISH_LIMIT) <= 1
    ensures Decode(r) == Clamp(v, -PUBLISH_LIMIT, PUBLISH_LIMIT)
        <==> Clamp(v, -PUBLISH_LIMIT, PUBLISH_LIMIT) % 2 == 1
  {
    var flagged := Or1(Saturate(v));
    DecodeSplit(flagged);
    Split(flagged)
  }

  /** A cell whose destination holds the encoded accumulator. */
  predicate Published(c: Cell)
  {
    c.dst == Encode(c.sum)
  }

  /** One producer's whole step at one position with no other producer
      running. Only the producer that found the flag clear subtracts the
      accumulator it read; the flag is set afterwards in every case. */
  function MixSample(c: Cell, src: Packed): (r: Cell)
    ensures r.sum == if FlagSet(c.dst) then Wrap32(c.sum + Decode(src)) else Decode(src)
    ensures Published(r)
    ensures FlagSet(r.dst)
  {
    var sample := Decode(src);                            // movsbl, movzwl, sall, orl
    var oldSum := c.sum;                                  // movl (%rbx), %edx
    var (flagged, wasSet) := TestAndSetFlag(c);           // lock btsw $0; jc 2f
    var contribution := Contribution(sample, oldSum, !wasSet);
    FoldContribution(oldSum, sample, !wasSet);
    var folded := Fold(flagged.sum, contribution);        // lock xadd
    Cell(Encode(folded), folded)                          // one publish round
  }

  /** A published destination has its flag set, so every later producer adds
      its sample. */
  lemma PublishedAddsSample(c: Cell, src: Packed)
    requires Published(c)
    ensures FlagSet(c.dst)
    ensures MixSample(c, src).sum == Wrap32(c.sum + Decode(src))
  {
  }

  /** Producers run one after another on one position. */
  function MixAll(c: Cell, srcs: seq<Packed>): Cell
  {
    Sequential(c, srcs, MixSample)
  }

  /** The exact sum of the samples of `srcs`. */
  function Total(srcs: seq<Packed>): int
  {
    SumOf(srcs, Decode)
  }

  /** Every step from a published cell publishes again and adds its sample. */
  lemma StepsAdd()
    ensures forall d: Cell, x: Packed {:trigger MixSample(d, x)} :: Published(d) ==>
      Published(MixSample(d, x)) && MixSample(d, x).sum == Wrap32(d.sum + Decode(x))
  {
    forall d: Cell, x: Packed | Published(d)
      ensures Published(MixSample(d, x)) && MixSample(d, x).sum == Wrap32(d.sum + Decode(x))
    {
      PublishedAddsSample(d, x);
    }
  }

  /** From a published cell, sequential producers add up their samples. */
  lemma MixAllFromPublished(c: Cell, srcs: seq<Packed>)
    requires Published(c)
    ensures MixAll(c, srcs).sum == Wrap32(c.sum + Total(srcs))
    ensures Published(MixAll(c, srcs))
  {
    StepsAdd();
    SequentialAdds(c, srcs, MixSample, Published, (d: Cell) => d.sum, Decode);
  }

  /** In a cycle that starts with the flag clear, whatever the residue in the
      accumulator, the accumulator ends as the sum of all samples and the
      destination as its encoding. */
  lemma CycleSum(c: Cell, srcs: seq<Packed>)
    requires !FlagSet(c.dst)
    requires srcs != []
    ensures MixAll(c, srcs).sum == Wrap32(Total(srcs))
    ensures MixAll(c, srcs).dst == Encode(Wrap32(Total(srcs)))
  {
    var first := MixSample(c, srcs[0]);
    MixAllFromPublished(first, srcs[1..]);
  }

  /** The outcome of a cycle does not depend on the order of the producers. */
  lemma OrderIndependent(c: Cell, srcs: seq<Packed>, reordered: seq<Packed>)
    requires !FlagSet(c.dst)
    requires srcs != []
    requires multiset(srcs) == multiset(reordered)
    ensures MixAll(c, srcs) == MixAll(c, reordered)
  {
    assert |reordered| == |multiset(reordered)| == |srcs|;
    CycleSum(c, srcs);
    CycleSum(c, reordered);
    SumPermutation(srcs, reordered, Decode);
  }

  /** The three bytes at offset `o`. */
  function ReadPacked(a: seq<Byte>, o: nat): Packed
    requires o + 3 <= |a|
  {
    Packed(a[o], a[o + 1], a[o + 2])
  }

  /** `a` with the three bytes at offset `o` replaced by `p`. */
  function WritePacked(a: seq<Byte>, o: nat, p: Packed): (r: seq<Byte>)
    requires o + 3 <= |a|
    ensures |r| == |a|
    ensures ReadPacked(r, o) == p
    ensures forall j :: 0 <= j < |a| && !(o <= j < o + 3) ==> r[j] == a[j]
  {
    a[o := p.lo][o + 1 := p.mid][o + 2 := p.hi]
  }

  /** Writing a cell leaves an earlier cell as it was. */
  lemma WriteElsewhere(a: seq<Byte>, o: nat, d: nat, p: Packed)
    requires o + 3 <= d && d + 3 <= |a|
    ensures ReadPacked(WritePacked(a, d, p), o) == ReadPacked(a, o)
  {
  }

  /** The cursors of the first `size` positions stay inside the three arrays. */
  ghost predicate Fits(size: nat, steps: Steps, dstLen: nat, srcLen: nat, sumLen: nat)
  {
    && InBounds(size, steps.dst, 3, dstLen)
    && InBounds(size, steps.src, 3, srcLen)
    && InBounds(size, steps.sum, 1, sumLen)
  }

  /** The shared arrays after the first `n` positions are mixed in order by
      `mix`, which maps the destination bytes, the accumulator word and the
      source bytes of a position to its new destination bytes and accumulator. */
  function Scatter(n: nat, dst: seq<Byte>, src: seq<Byte>, sum: seq<Int32>, steps: Steps,
                   mix: (Packed, Int32, Packed) -> (Packed, Int32))
    : (r: (seq<Byte>, seq<Int32>))
    requires Fits(n, steps, |dst|, |src|, |sum|)
    ensures |r.0| == |dst| && |r.1| == |sum|
    decreases n
  {
    if n == 0 then (dst, sum)
    else
      var (dst', sum') := Scatter(n - 1, dst, src, sum, steps, mix);
      var (d, s, m) := (Offset(n - 1, steps.dst), Offset(n - 1, steps.src), Offset(n - 1, steps.sum));
      var (out, total) := mix(ReadPacked(dst', d), sum'[m], ReadPacked(src, s));
      (WritePacked(dst', d, out), sum'[m := total])
  }

  /** Bytes and words no cursor reaches keep their values. */
  lemma {:induction false} ScatterUntouched(n: nat, dst: seq<Byte>, src: seq<Byte>, sum: seq<Int32>,
                                            steps: Steps, mix: (Packed, Int32, Packed) -> (Packed, Int32))
    requires Fits(n, steps, |dst|, |src|, |sum|)
    ensures var r := Scatter(n, dst, src, sum, steps, mix);
      forall j :: 0 <= j < |dst| && !Touched(j, steps.dst, 3, n) ==> r.0[j] == dst[j]
    ensures var r := Scatter(n, dst, src, sum, steps, mix);
      forall j :: 0 <= j < |sum| && !Touched(j, steps.sum, 1, n) ==> r.1[j] == sum[j]
    decreases n
  {
    if n > 0 {
      var i := n - 1;
      assert Fits(i, steps, |dst|, |src|, |sum|);
      ScatterUntouched(i, dst, src, sum, steps, mix);
      var (d, m) := (Offset(i, steps.dst), Offset(i, steps.sum));
      var r := Scatter(n, dst, src, sum, steps, mix);
      forall j | 0 <= j < |dst| && !Touched(j, steps.dst, 3, n)
        ensures r.0[j] == dst[j]
      {
        assert !(d <= j < d + 3);
        assert !Touched(j, steps.dst, 3, i);
      }
      forall j | 0 <= j < |sum| && !Touched(j, steps.sum, 1, n)
        ensures r.1[j] == sum[j]
      {
        assert j != m;
        assert !Touched(j, steps.sum, 1, i);
      }
    }
  }

  /** The cell of the next position is still as it was before the walk. */
  lemma NextCellFresh(n: nat, dst: seq<Byte>, src: seq<Byte>, sum: seq<Int32>,
                      steps: Steps, mix: (Packed, Int32, Packed) -> (Packed, Int32))
    requires Fits(n + 1, steps, |dst|, |src|, |sum|)
    requires Separated(n + 1, steps.dst, 3) && Separated(n + 1, steps.sum, 1)
    ensures var prev := Scatter(n, dst, src, sum, steps, mix);
      ReadPacked(prev.0, Offset(n, steps.dst)) == ReadPacked(dst, Offset(n, steps.dst))
      && prev.1[Offset(n, steps.sum)] == sum[Offset(n, steps.sum)]
  {
    ScatterUntouched(n, dst, src, sum, steps, mix);
    var prev := Scatter(n, dst, src, sum, steps, mix);
    var (d, m) := (Offset(n, steps.dst), Offset(n, steps.sum));
    if n > 0 {
      EarlierCellsDisjoint(n, steps.dst, 3);
      EarlierCellsDisjoint(n, steps.sum, 1);
    }
    forall j | d <= j < d + 3
      ensures prev.0[j] == dst[j]
    {
      assert !Touched(j, steps.dst, 3, n);
    }
    assert !Touched(m, steps.sum, 1, n);
  }

  /** With destination cells at least three bytes apart and a moving
      accumulator cursor, every position is mixed from the original bytes and
      words: no position sees another position's result. */
  lemma {:induction false} ScatterPointwise(n: nat, dst: seq<Byte>, src: seq<Byte>, sum: seq<Int32>,
                                            steps: Steps, mix: (Packed, Int32, Packed) -> (Packed, Int32))
    requires Fits(n, steps, |dst|, |src|, |sum|)
    requires Separated(n, steps.dst, 3) && Separated(n, steps.sum, 1)
    ensures var r := Scatter(n, dst, src, sum, steps, mix);
      forall k :: 0 <= k < n ==>
        var x := mix(ReadPacked(dst, Offset(k, steps.dst)), sum[Offset(k, steps.sum)],
                     ReadPacked(src, Offset(k, steps.src)));
        ReadPacked(r.0, Offset(k, steps.dst)) == x.0 && r.1[Offset(k, steps.sum)] == x.1
    decreases n
  {
    if n > 0 {
      var i := n - 1;
      assert Fits(i, steps, |dst|, |src|, |sum|);
      ScatterPointwise(i, dst, src, sum, steps, mix);
      var prev := Scatter(i, dst, src, sum, steps, mix);
      var (d, s, m) := (Offset(i, steps.dst), Offset(i, steps.src), Offset(i, steps.sum));
      NextCellFresh(i, dst, src, sum, steps, mix);
      if i > 0 {
        EarlierCellsDisjoint(i, steps.dst, 3);
        EarlierCellsDisjoint(i, steps.sum, 1);
      }
      var x := mix(ReadPacked(prev.0, d), prev.1[m], ReadPacked(src, s));
      var r := Scatter(n, dst, src, sum, steps, mix);
      assert r.0 == WritePacked(prev.0, d, x.0);
      assert r.1 == prev.1[m := x.1];
      forall k | 0 <= k < n
        ensures var x := mix(ReadPacked(dst, Offset(k, steps.dst)), sum[Offset(k, steps.sum)],
                             ReadPacked(src, Offset(k, steps.src)));
          ReadPacked(r.0, Offset(k, steps.dst)) == x.0 && r.1[Offset(k, steps.sum)] == x.1
      {
        var (dk, sk, mk) := (Offset(k, steps.dst), Offset(k, steps.src), Offset(k, steps.sum));
        var y := mix(ReadPacked(dst, dk), sum[mk], ReadPacked(src, sk));
        if k < i {
          assert dk + 3 <= d && mk != m;
          WriteElsewhere(prev.0, dk, d, x.0);
          assert ReadPacked(prev.0, dk) == y.0 && prev.1[mk] == y.1;
          assert ReadPacked(r.0, dk) == ReadPacked(prev.0, dk) && r.1[mk] == prev.1[mk];
        } else {
          assert k == i;
          assert (dk, sk, mk) == (d, s, m);
          assert y == x;
        }
      }
    }
  }

  /** The atomic steps of one position, on the shared arrays: `d` and `s` are
      byte cursors into `dst` and `src`, `m` the cursor into `sum`. */
  method MixPosition(dst: seq<Byte>, src: seq<Byte>, sum: seq<Int32>, d: nat, s: nat, m: nat)
    returns (dst': seq<Byte>, sum': seq<Int32>)
    requires d + 3 <= |dst| && s + 3 <= |src| && m < |sum|
    ensures var c := MixSample(Cell(ReadPacked(dst, d), sum[m]), ReadPacked(src, s));
      dst' == WritePacked(dst, d, c.dst) && sum' == sum[m := c.sum]
  {
    var sample := Decode(ReadPacked(src, s));             // movsbl 2(%rsi); movzwl (%rsi); sall; orl
    var oldSum := sum[m];                                 // movl (%rbx), %edx
    var (flagged, wasSet) := TestAndSetFlag(Cell(ReadPacked(dst, d), sum[m]));
    dst' := WritePacked(dst, d, flagged.dst);             // lock btsw $0, (%rdi)
    var contribution := Contribution(sample, oldSum, !wasSet);
    sum' := sum[m := Fold(sum[m], contribution)];         // lock xadd %ecx, (%rbx)
    var out, published, _ := PublishLoop(ReadPacked(dst', d), sum'[m], [], Encode);
    dst' := WritePacked(dst', d, out);
    sum' := sum'[m := published];
    FoldContribution(oldSum, sample, !wasSet);
    assert dst' == WritePacked(dst, d, out);
  }

  /** `MixSample` as the per-position step of the strided walk. */
  function MixCell(dst: Packed, sum: Int32, src: Packed): (Packed, Int32)
  {
    var c := MixSample(Cell(dst, sum), src);
    (c.dst, c.sum)
  }

  /** `MIX_AREAS_24` with no other producer: for each of `size` positions,
      the byte cursors into `dst` and `src` and the cursor into `sum` advance
      by their own steps. Returns the arrays afterwards and the cursors
      visited. */
  method MixAreas(size: nat, dst: seq<Byte>, src: seq<Byte>, sum: seq<Int32>,
                  dstStep: nat, srcStep: nat, sumStep: nat)
    returns (dst': seq<Byte>, sum': seq<Int32>, visited: seq<Cursor>)
    requires size < TWO_32
    requires Fits(size, Steps(dstStep, srcStep, sumStep), |dst|, |src|, |sum|)
    ensures size == 0 ==> visited == [] && dst' == dst && sum' == sum
    ensures |visited| == size
    ensures forall k :: 0 <= k < size ==>
      visited[k] == Cursor(Offset(k, dstStep), Offset(k, srcStep), Offset(k, sumStep))
    ensures |dst'| == |dst| && |sum'| == |sum|
    ensures (dst', sum') == Scatter(size, dst, src, sum, Steps(dstStep, srcStep, sumStep), MixCell)
    ensures Separated(size, dstStep, 3) && Separated(size, sumStep, 1) ==>
      forall k :: 0 <= k < size ==>
        var c := MixSample(Cell(ReadPacked(dst, Offset(k, dstStep)), sum[Offset(k, sumStep)]),
                           ReadPacked(src, Offset(k, srcStep)));
        ReadPacked(dst', Offset(k, dstStep)) == c.dst && sum'[Offset(k, sumStep)] == c.sum
    ensures forall j :: 0 <= j < |dst| && !Touched(j, dstStep, 3, size) ==> dst'[j] == dst[j]
    ensures forall j :: 0 <= j < |sum| && !Touched(j, sumStep, 1, size) ==> sum'[j] == sum[j]
  {
    var steps := Steps(dstStep, srcStep, sumStep);
    dst', sum', visited := dst, sum, [];
    var d, s, m := 0, 0, 0;
    var remaining: nat := size;
    while remaining != 0                                  // cmpl $0; jz 6f ... decl; jnz 1b
      invariant |visited| + remaining == size
      invariant Fits(|visited|, steps, |dst|, |src|, |sum|)
      invariant d == Offset(|visited|, dstStep)
      invariant s == Offset(|visited|, srcStep)
      invariant m == Offset(|visited|, sumStep)
      invariant visited == Cursors(|visited|, steps)
      invariant (dst', sum') == Scatter(|visited|, dst, src, sum, steps, MixCell)
      decreases remaining
    {
      OffsetNext(|visited|, dstStep);
      OffsetNext(|visited|, srcStep);
      OffsetNext(|visited|, sumStep);
      dst', sum' := MixPosition(dst', src, sum', d, s, m);
      visited := visited + [Cursor(d, s, m)];
      d, s, m := d + dstStep, s + srcStep, m + sumStep;   // addq the three steps
      remaining := remaining - 1;
    }
    if Separated(size, dstStep, 3) && Separated(size, sumStep, 1) {
      ScatterPointwise(size, dst, src, sum, steps, MixCell);
    }
    ScatterUntouched(size, dst, src, sum, steps, MixCell);
  }
}
