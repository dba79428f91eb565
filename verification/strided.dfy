/**
 The position iterator of the three routines: three cursors, into the
 destination, source and accumulator arrays, each advancing by its own step
 after every position.
 */
module Strided {

  /** Where a cursor that starts at 0 and advances by `step` after every
      position stands at position `k`. */
  function Offset(k: nat, step: nat): nat
  {
    k * step
  }

  /** Each position moves a cursor by exactly one step. */
  lemma OffsetNext(k: nat, step: nat)
    ensures Offset(k + 1, step) == Offset(k, step) + step
  {
  }

  /** The three cursors (`rdi`, `rsi`, `rbx`) at one position. */
  datatype Cursor = Cursor(dst: nat, src: nat, sum: nat)

  /** The steps of the destination, source and accumulator cursors, each in
      the units its array is indexed by. */
  datatype Steps = Steps(dst: nat, src: nat, sum: nat)

  /** The cursors of the first `n` positions, in the order they are visited:
      every cursor starts at 0 and moves by its own step after each position. */
  function Cursors(n: nat, steps: Steps): (r: seq<Cursor>)
    ensures |r| == n
    ensures forall k :: 0 <= k < n ==>
      r[k] == Cursor(Offset(k, steps.dst), Offset(k, steps.src), Offset(k, steps.sum))
  {
    if n == 0 then []
    else Cursors(n - 1, steps) + [Cursor(Offset(n - 1, steps.dst), Offset(n - 1, steps.src), Offset(n - 1, steps.sum))]
  }

  /** Index `j` lies inside one of the first `n` cells of `width` elements
      reached by a cursor advancing by `step`. */
  ghost predicate Touched(j: int, step: nat, width: nat, n: nat)
  {
    exists k :: 0 <= k < n && Offset(k, step) <= j < Offset(k, step) + width
  }

  /** Every cell of `width` elements that a cursor advancing by `step`
      reaches in `size` positions lies inside an array of length `len`. */
  ghost predicate InBounds(size: nat, step: nat, width: nat, len: nat)
  {
    forall k :: 0 <= k < size ==> Offset(k, step) + width <= len
  }

  /** Between two positions a cursor moves at least one whole step. */
  lemma {:induction false} OffsetGap(k: nat, i: nat, step: nat)
    requires k < i
    ensures Offset(k, step) + step <= Offset(i, step)
    decreases i - k
  {
    OffsetNext(i - 1, step);
    if k < i - 1 {
      OffsetGap(k, i - 1, step);
    }
  }

  /** The cells of `width` elements reached in `size` positions do not
      overlap: there is at most one, or the step is at least the width. */
  predicate Separated(size: nat, step: nat, width: nat)
  {
    size <= 1 || width <= step
  }

  /** Cells of `width` elements reached before position `i` do not reach the
      cell at position `i` when the step is at least the width. */
  lemma EarlierCellsDisjoint(i: nat, step: nat, width: nat)
    requires width <= step
    ensures forall k :: 0 <= k < i ==> Offset(k, step) + width <= Offset(i, step)
  {
    forall k | 0 <= k < i
      ensures Offset(k, step) + width <= Offset(i, step)
    {
      OffsetGap(k, i, step);
    }
  }
}
