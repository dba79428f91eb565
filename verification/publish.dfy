/**
 The optimistic publish loop every routine ends a position with: read the
 accumulator, store its format encoding into the destination, re-read the
 accumulator, and start again when the re-read differs from the value that
 was encoded.

 Other producers are not modelled as programs. What they do to this position
 is a parameter: `others[k]` is the 32-bit amount they fold into the
 accumulator while round `k` runs, and nothing after the last given round.
 */
module Publish {
  import opened Words

  /** The amount other producers fold in during round `k`. */
  function FoldedBy(others: seq<Int32>, k: nat): Int32
  {
    if k < |others| then others[k] else 0
  }

  /** The exact total folded in by other producers during the first `n` rounds. */
  function FoldedTotal(others: seq<Int32>, n: nat): int
  {
    if n == 0 then 0 else FoldedTotal(others, n - 1) + FoldedBy(others, n - 1)
  }

  /** The accumulator after round `n` is the one before it plus the other
      producers' fold, and a re-read finds it changed exactly when they folded
      in a non-zero amount. */
  lemma Reread(sum: Int32, others: seq<Int32>, n: nat)
    ensures var before := Wrap32(sum + FoldedTotal(others, n));
      var after := Wrap32(sum + FoldedTotal(others, n + 1));
      after == Wrap32(before + FoldedBy(others, n)) && (after == before <==> FoldedBy(others, n) == 0)
  {
    WrapAdd(sum + FoldedTotal(others, n), FoldedBy(others, n));
    WrapAddUnchanged(Wrap32(sum + FoldedTotal(others, n)), FoldedBy(others, n));
  }

  /** The retry loop, for any encoding `encode` of an accumulator value into a
      destination cell. `sum` is the accumulator when the loop starts. */
  method PublishLoop<D>(dst: D, sum: Int32, others: seq<Int32>, encode: Int32 -> D)
    returns (dst': D, sum': Int32, rounds: nat)
    ensures 1 <= rounds <= |others| + 1
    ensures dst' == encode(sum')
    ensures sum' == Wrap32(sum + FoldedTotal(others, rounds))
    ensures forall k :: 0 <= k < rounds - 1 ==> others[k] != 0
    ensures FoldedBy(others, rounds - 1) == 0
    ensures others == [] ==> rounds == 1 && sum' == sum
  {
    dst' := dst;
    var mem: Int32 := sum;
    rounds := 0;
    var settled := false;
    while !settled
      invariant rounds <= |others| + 1
      invariant !settled ==> rounds <= |others|
      invariant settled ==> 1 <= rounds && dst' == encode(mem)
      invariant mem == Wrap32(sum + FoldedTotal(others, rounds))
      invariant forall k :: 0 <= k < rounds - 1 ==> FoldedBy(others, k) != 0
      invariant 1 <= rounds ==> (settled <==> FoldedBy(others, rounds - 1) == 0)
      decreases |others| + 1 - rounds
    {
      var v := mem;                               // movl (%rbx), %ecx
      dst' := encode(v);                          // saturate, encode, store
      Reread(sum, others, rounds);
      mem := Wrap32(mem + FoldedBy(others, rounds));
      rounds := rounds + 1;
      settled := mem == v;                        // cmpl %ecx, (%rbx); jnz 3b
    }
    sum' := mem;
    forall k | 0 <= k < rounds - 1
      ensures others[k] != 0
    {
      assert FoldedBy(others, k) != 0;
    }
  }
}
