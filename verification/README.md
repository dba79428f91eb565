# dmix x86-64 mixing routines in Dafny

This project models the sample-mixing core of the ALSA `dmix` plugin on
x86-64: the three inline-assembly routines `MIX_AREAS_16`, `MIX_AREAS_32` and
`MIX_AREAS_24` of `src/pcm/pcm_dmix_x86_64.h`. Several producers share two
arrays. One is a 32-bit accumulator `sum`. The other, `dst`, is the output
buffer, holding a saturated copy of the accumulator in the hardware sample
format. For every position of its period, a producer does five things:

- it decodes its own source sample;
- it claims the position's first-writer flag;
- it folds its sample into `sum` with a locked exchange-add;
- it publishes the encoded accumulator into `dst`;
- it retries the publish until a re-read of `sum` matches the value it encoded.

Each atomic instruction is one transition on a per-position record `Cell(dst, sum)`:

- `ClaimCleared` models `cmpxchg`, and `TestAndSetFlag` models `bts`.
- `Contribution` and `Fold` model the subtraction and the `xadd`.
- `Encode` and `Saturate` model the publish step.
- `MixSample` composes one producer's steps.
- `MixAll` (`Accumulate.Sequential`) runs producers one after another.

The strided walk over the arrays is `MixAreas`. Its cursors start at 0 and
each advances by its own step (`Strided.Cursors`). `Scatter` is an
independent recursive definition of the arrays after the first `n`
positions.

Module layout:
- `Words`: register widths, 32-bit wrap-around, saturation, bit and byte operations.
- `Accumulate`: the first-writer adjustment, the fold, sums of samples, sequential producers.
- `Strided`: the three cursors.
- `Publish`: the retry loop.
- `WordAreas`: the walk over word arrays.
- `Mix16`, `Mix32`, `Mix24`: one module per routine.

Registers are unbounded `int`s restricted to their width. Bit operations are
written arithmetically:
- a 32-bit add wraps through `Wrap32`;
- `sar $8` is Euclidean division by 256;
- bit 0 is `v % 2`;
- `orl $1` is `Or1`;
- the bytes of a register come from Euclidean division and remainder.

The 16- and 32-bit arrays are sequences of words, indexed in elements: a step
is the routine's byte step divided by the element width. The 24-bit `dst` and
`src` are byte sequences with byte steps.

Three details of the code are easy to misread:
- The 16-bit routine's first-writer flag is the destination sample word itself. `cmpxchgw` swaps a 0 sample for 1; there is no separate flag word.
- In all three routines the producer that finds the flag clear subtracts the accumulator value it read before claiming the flag. It thereby replaces whatever residue the accumulator held with its own sample. Every later producer adds.
- The comment at line 238 gives the upper bound of the 32-bit saturation as 0x7fff00. The code compares with 0x7fffff, and so does the model (`Mix32.Saturate`).

## Model

| member | source | states |
|---|---|---|
| Words.Wrap32 | src/pcm/pcm_dmix_x86_64.h:96 | a 32-bit register sum is the value itself whenever that fits in a signed 32-bit register |
| Words.WrapCongruence | src/pcm/pcm_dmix_x86_64.h:96 | the register value of an exact sum differs from it by a multiple of 2^32 |
| Words.WrapAdd | src/pcm/pcm_dmix_x86_64.h:96 | wrapping an intermediate accumulator does not change any later wrapped sum |
| Words.WrapSubAdd | src/pcm/pcm_dmix_x86_64.h:94-96 | subtracting a register value and then adding it back restores the original register |
| Words.WrapAddUnchanged | src/pcm/pcm_dmix_x86_64.h:112-113 | folding a 32-bit amount leaves the accumulator unchanged exactly when the amount is 0 |
| Words.Clamp | src/pcm/pcm_dmix_x86_64.h:240-249 | the saturation lies in the range, is the value itself when in range, and is the bound the value lies beyond otherwise |
| Words.ClampNearest | src/pcm/pcm_dmix_x86_64.h:240-249 | no value of the range is closer to the accumulator than its saturation |
| Words.ClampMonotone | src/pcm/pcm_dmix_x86_64.h:240-249 | saturation preserves the order of accumulator values |
| Words.Or1 | src/pcm/pcm_dmix_x86_64.h:375 | `orl $1` gives an odd value that is the input or one above it, and leaves odd inputs unchanged |
| Words.SignExtend8 | src/pcm/pcm_dmix_x86_64.h:346 | a sign-extended byte lies in [-128, 128) and agrees with the byte modulo 256 |
| Accumulate.ClaimCleared | src/pcm/pcm_dmix_x86_64.h:88-93 | the swap of a cleared 0 for 1 succeeds exactly when the destination word was 0. The word is non-zero afterwards in every case, and a failed swap leaves it as it was; the 32-bit routine makes the same claim on a whole word |
| Accumulate.Contribution | src/pcm/pcm_dmix_x86_64.h:84-96 | a producer that found the flag set contributes its sample; one that found it clear contributes an amount which, added to the accumulator it read, gives its sample |
| Accumulate.FoldContribution | src/pcm/pcm_dmix_x86_64.h:84-96 | run with no other producer between the read and the fold, the first writer leaves exactly its sample in the accumulator, and every other writer adds its sample to it |
| Accumulate.SumConcat | src/pcm/pcm_dmix_x86_64.h:96 | the exact sum of the samples of two runs of producers is the sum of their sums |
| Accumulate.SumRemove | src/pcm/pcm_dmix_x86_64.h:96 | the exact sum is one sample plus the sum of the others |
| Accumulate.SumPermutation | src/pcm/pcm_dmix_x86_64.h:96 | the exact sum of the samples does not depend on the order the producers fold them in |
| Accumulate.SequentialAdds | src/pcm/pcm_dmix_x86_64.h:84-113 | if every producer step from a published cell publishes again and adds its sample, then producers run one after another from a published cell end published, with the accumulator equal to the start value plus the sum of all samples, wrapped to 32 bits |
| Strided.OffsetNext | src/pcm/pcm_dmix_x86_64.h:119-121 | each position moves a cursor by exactly its step |
| Strided.Cursors | src/pcm/pcm_dmix_x86_64.h:119-128 | the cursors visited in the first `n` positions are `n` in number; at position `k` each cursor stands at `k` times its own step |
| Strided.OffsetGap | src/pcm/pcm_dmix_x86_64.h:119-121 | between two positions a cursor moves at least one whole step |
| Strided.EarlierCellsDisjoint | src/pcm/pcm_dmix_x86_64.h:387-389 | when the step is at least the cell width, no earlier cell reaches the cell of the current position |
| Publish.Reread | src/pcm/pcm_dmix_x86_64.h:106-113 | after a round, the accumulator is its earlier value plus what other producers folded in, and a re-read sees a change exactly when that amount is non-zero |
| Publish.PublishLoop | src/pcm/pcm_dmix_x86_64.h:106-113 | the loop runs at least one round, and at most one round more than the list of other producers' per-round folds is long. It leaves in `dst` the encoding of the accumulator it last read, and that value equals the final accumulator. It exits at the first round in which nobody folds. With no other producer it runs exactly once and publishes the accumulator it started from |
| WordAreas.Scatter | src/pcm/pcm_dmix_x86_64.h:71-128 | mixing positions keeps the lengths of the destination and accumulator arrays |
| WordAreas.ScatterUntouched | src/pcm/pcm_dmix_x86_64.h:71-128 | words that no cursor reaches keep their values |
| WordAreas.ScatterPointwise | src/pcm/pcm_dmix_x86_64.h:193-272 | with non-overlapping destination and accumulator cursors, every position is mixed from the words it held before the walk |
| Mix16.Saturate | src/pcm/pcm_dmix_x86_64.h:107-111 | `packssdw` stores in-range sums unchanged and clamps larger and smaller sums to 32767 and -32768. The result is 0 exactly when the sum is 0, and negative exactly when the sum is negative |
| Mix16.SaturationBoundaries | src/pcm/pcm_dmix_x86_64.h:107-111 | 32768 publishes as 32767, -32769 as -32768, and both ends of the range as themselves |
| Mix16.MixSample | src/pcm/pcm_dmix_x86_64.h:88-113 | after one producer's step, a cleared destination leaves the sample as the accumulator, and a claimed one leaves the accumulator plus the sample. The destination then holds the saturated accumulator |
| Mix16.PublishedAddsSample | src/pcm/pcm_dmix_x86_64.h:84-96 | a published destination reads as cleared only when the accumulator is 0, so the next producer adds its sample |
| Mix16.StepsAdd | src/pcm/pcm_dmix_x86_64.h:84-113 | every step from a published cell publishes again and adds its sample |
| Mix16.MixAllFromPublished | src/pcm/pcm_dmix_x86_64.h:84-113 | producers run one after another from a published cell add up their samples and leave the cell published |
| Mix16.CycleSum | src/pcm/pcm_dmix_x86_64.h:84-113 | starting from a cleared destination, whatever the accumulator's residue, the accumulator ends as the wrapped sum of all samples, and the destination as its saturation |
| Mix16.OrderIndependent | src/pcm/pcm_dmix_x86_64.h:84-113 | the cell after a cycle does not depend on the order of the producers |
| Mix16.Scenarios | src/pcm/pcm_dmix_x86_64.h:84-113 | producers of 1000 and 2000, in either order, publish 3000; 30000 and 10000 publish 32767 with 40000 in the accumulator |
| Mix16.MixPosition | src/pcm/pcm_dmix_x86_64.h:88-113 | the atomic steps at one position, run with no other producer, change exactly that position's destination and accumulator words, and change them as one producer's step does |
| Mix16.MixAreas | src/pcm/pcm_dmix_x86_64.h:71-128 | with `size` 0 nothing is read or written. Otherwise `size` positions are visited at `k` times each step, the arrays are the walk's reference result, non-overlapping positions are each mixed from their original words, and every word no cursor reaches is unchanged |
| Mix32.Decode | src/pcm/pcm_dmix_x86_64.h:215-223 | `sarl $8` gives a 24-bit sample whose 256-multiple is the largest one not above the source word |
| Mix32.Saturate | src/pcm/pcm_dmix_x86_64.h:236-250 | the two compare-and-branch steps clamp the accumulator to [-0x800000, 0x7fffff] |
| Mix32.Encode | src/pcm/pcm_dmix_x86_64.h:236-255 | the published word is a multiple of 256. It is 0 exactly when the accumulator is 0, and decoding it gives the clamped accumulator. An in-range accumulator is stored shifted left by 8 |
| Mix32.EncodeDecode | src/pcm/pcm_dmix_x86_64.h:215-255 | publishing the sample of a source word gives that word back with its low byte cleared |
| Mix32.SaturationBoundaries | src/pcm/pcm_dmix_x86_64.h:238-254 | accumulators one past either end of the 24-bit range publish as that end, and 0x7fffff publishes as 0x7fffff00 |
| Mix32.MixSample | src/pcm/pcm_dmix_x86_64.h:203-257 | after one producer's step, a cleared destination leaves the decoded sample as the accumulator, and a claimed one leaves the accumulator plus that sample. The destination then holds the encoded accumulator |
| Mix32.PublishedAddsSample | src/pcm/pcm_dmix_x86_64.h:203-225 | a published word reads as cleared only when the accumulator is 0, so the next producer adds its sample |
| Mix32.StepsAdd | src/pcm/pcm_dmix_x86_64.h:203-257 | every step from a published cell publishes again and adds its sample |
| Mix32.MixAllFromPublished | src/pcm/pcm_dmix_x86_64.h:203-257 | producers run one after another from a published cell add up their decoded samples and leave the cell published |
| Mix32.CycleSum | src/pcm/pcm_dmix_x86_64.h:203-257 | starting from a cleared destination, whatever the residue, the accumulator ends as the wrapped sum of all decoded samples, and the destination as its encoding |
| Mix32.OrderIndependent | src/pcm/pcm_dmix_x86_64.h:203-257 | the cell after a cycle does not depend on the order of the producers |
| Mix32.MixPosition | src/pcm/pcm_dmix_x86_64.h:210-257 | the atomic steps at one position, taking the two branches of the code, change exactly that position's words, and change them as one producer's step does |
| Mix32.MixAreas | src/pcm/pcm_dmix_x86_64.h:193-272 | with `size` 0 nothing is read or written. Otherwise `size` positions are visited at `k` times each step, the arrays are the walk's reference result, non-overlapping positions are each mixed from their original words, and every word no cursor reaches is unchanged |
| Mix24.Decode | src/pcm/pcm_dmix_x86_64.h:346-350 | three little-endian bytes with a sign-extended top byte decode to a value in [-0x800000, 0x7fffff], whose three low bytes are the source bytes |
| Mix24.DecodeSplit | src/pcm/pcm_dmix_x86_64.h:375-378 | every 24-bit value is the decoding of the three bytes stored for it |
| Mix24.TestAndSetFlag | src/pcm/pcm_dmix_x86_64.h:351-352 | the carry is exactly the previous flag. The flag is set afterwards, and nothing but bit 0 of the lowest byte changes |
| Mix24.Saturate | src/pcm/pcm_dmix_x86_64.h:366-373 | the two conditional moves clamp the accumulator to [-0x7fffff, 0x7fffff] |
| Mix24.Encode | src/pcm/pcm_dmix_x86_64.h:365-378 | the stored bytes have the flag set and decode to an odd value in [-0x7fffff, 0x7fffff]. That value exceeds the clamped accumulator by at most 1, and equals it exactly when the clamped accumulator is odd |
| Mix24.MixSample | src/pcm/pcm_dmix_x86_64.h:339-381 | after one producer's step, a set flag leaves the accumulator plus the sample, and a clear flag leaves the sample. The destination then holds the encoded accumulator, with the flag set |
| Mix24.PublishedAddsSample | src/pcm/pcm_dmix_x86_64.h:339-355 | a published destination has its flag set, so the next producer adds its sample |
| Mix24.StepsAdd | src/pcm/pcm_dmix_x86_64.h:339-381 | every step from a published cell publishes again and adds its sample |
| Mix24.MixAllFromPublished | src/pcm/pcm_dmix_x86_64.h:339-381 | producers run one after another from a published cell add up their samples and leave the cell published |
| Mix24.CycleSum | src/pcm/pcm_dmix_x86_64.h:339-381 | starting with the flag clear, whatever the residue, the accumulator ends as the wrapped sum of all samples, and the destination as its encoding |
| Mix24.OrderIndependent | src/pcm/pcm_dmix_x86_64.h:339-381 | the cell after a cycle does not depend on the order of the producers |
| Mix24.WritePacked | src/pcm/pcm_dmix_x86_64.h:376-378 | storing three bytes keeps the array's length. Reading them back gives the stored bytes, and every other byte is unchanged |
| Mix24.WriteElsewhere | src/pcm/pcm_dmix_x86_64.h:376-378 | storing a cell leaves an earlier cell that does not overlap it as it was |
| Mix24.Scatter | src/pcm/pcm_dmix_x86_64.h:329-396 | mixing positions keeps the lengths of the destination and accumulator arrays |
| Mix24.ScatterUntouched | src/pcm/pcm_dmix_x86_64.h:329-396 | bytes and words that no cursor reaches keep their values |
| Mix24.NextCellFresh | src/pcm/pcm_dmix_x86_64.h:329-396 | with non-overlapping cells, the cell of the next position still holds its bytes and word from before the walk |
| Mix24.ScatterPointwise | src/pcm/pcm_dmix_x86_64.h:329-396 | with destination cells at least three bytes apart and a moving accumulator cursor, every position is mixed from its original bytes and word |
| Mix24.MixPosition | src/pcm/pcm_dmix_x86_64.h:346-381 | the atomic steps at one position, run with no other producer, change exactly that position's three bytes and accumulator word, and change them as one producer's step does |
| Mix24.MixAreas | src/pcm/pcm_dmix_x86_64.h:329-396 | with `size` 0 nothing is read or written. Otherwise `size` positions are visited at `k` times each byte step, the arrays are the walk's reference result, non-overlapping positions are each mixed from their original bytes and word, and every byte and word no cursor reaches is unchanged |

## Left out

- Concurrency. Producers are not interleaved; each atomic instruction is one indivisible step, and `MixAreas` runs one producer alone. What other producers do during the publish loop is only a parameter of `Publish.PublishLoop`: the amount they fold into the accumulator in each round.
- Other producers' stores into `dst` while the publish loop runs are not modelled. Neither are memory ordering, the `LOCK_PREFIX` semantics, or the liveness of the retry loop.
- Publish.PublishLoop: the model states when the loop stops for a given sequence of other producers' folds. It does not show that the loop terminates under an unbounded stream of concurrent folds; the source does not promise that either.
- The `XADD` and `XSUB` macros and `LOCK_PREFIX` are defined outside this file. They are taken as a 32-bit exchange-add and subtract.
- Register save and restore under `BOUNDED_RBX`, the `_ILP32` pointer-width variants, `.p2align`, `emms`, and the clobber lists. None of these carry behaviour.
- The high half of the 16-bit routine's `packssdw` result comes from `%mm1` and is never stored. The model keeps only the stored low short.
- Pointer validity and alignment. Arrays are sequences, and the cursors must stay inside them (`Fits`). Byte steps of the word arrays that are not a multiple of the element width are not modelled.
- Aliasing between `dst`, `src` and `sum` is not modelled: they are separate sequences.
- `size` is a 32-bit unsigned count in the source, so `MixAreas` requires `size < 2^32`.
- The consumer that clears `dst` and `sum` between playback cycles lives elsewhere in the plugin. It appears here only as the cleared starting cell of `CycleSum`.
