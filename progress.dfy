/**
 * The completion counting in `render`: each finished tile increments `success`, and the tile's
 * callback is told it is the last one exactly when `success === max`.
 */
module Progress {

  /** The final flags passed to the callback by the first `n` completions of a render of `max` tiles. */
  function FinalFlags(max: nat, n: nat): (r: seq<bool>)
    ensures |r| == n
  {
    if n == 0 then [] else FinalFlags(max, n - 1) + [n == max]
  }

  function CountTrue(s: seq<bool>): nat {
    if s == [] then 0 else (if s[|s| - 1] then 1 else 0) + CountTrue(s[..|s| - 1])
  }

  /** The `i`-th completion (from 0) is flagged final exactly when it is the `max`-th. */
  lemma {:induction false} FinalFlagsAt(max: nat, n: nat, i: nat)
    requires i < n
    ensures FinalFlags(max, n)[i] == (i + 1 == max)
  {
    if i < n - 1 {
      FinalFlagsAt(max, n - 1, i);
    }
  }

  /**
   * No completion before the `max`-th is flagged final, and over `max` or more completions
   * exactly one is (none when there are no tiles).
   */
  lemma {:induction false} FinalCount(max: nat, n: nat)
    ensures CountTrue(FinalFlags(max, n)) == if 1 <= max <= n then 1 else 0
  {
    if n > 0 {
      assert FinalFlags(max, n)[..n - 1] == FinalFlags(max, n - 1);
      FinalCount(max, n - 1);
    }
  }

  /** The shared `success` counter of one render, with the flags it has handed out so far. */
  class Completion {
    var success: nat
    const max: nat
    ghost var flags: seq<bool>

    ghost predicate Valid()
      reads this
    {
      flags == FinalFlags(max, success)
    }

    constructor (max: nat)
      ensures Valid() && this.max == max && success == 0 && flags == []
    {
      this.max := max;
      success := 0;
      flags := [];
    }

    /** The body of a tile's completion callback: count it and report whether it was the last. */
    method TileDone() returns (isFinal: bool)
      requires Valid()
      modifies this
      ensures Valid()
      ensures success == old(success) + 1 && isFinal == (success == max)
      ensures flags == old(flags) + [isFinal]
    {
      success := success + 1;
      isFinal := success == max;
      flags := flags + [isFinal];
    }
  }
}
