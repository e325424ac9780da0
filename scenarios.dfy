/**
 * Concrete positions and the computer's reply in each: the opening position,
 * a winning position, a losing position with a tie, and two positions that
 * trigger the degenerate case.
 */
module Scenarios {
  import opened Bits
  import opened Heaps

  /** The opening position has Nim-sum zero: the computer would take one matchstick from heap 0. */
  lemma OpeningPosition()
    ensures NimSum(InitialRows) == 0
    ensures AiPolicy(InitialRows) == Some(Move(0, 1))
    ensures Apply(InitialRows, Move(0, 1)) == [0, 3, 5, 7]
  {
    assert Xor(0, 1) == 1;
    assert Xor(1, 3) == 2;
    assert Xor(2, 5) == 7;
    assert Xor(7, 7) == 0;
    assert NimSumUpTo(InitialRows, 4) == 0;
  }

  /** From {0,3,5,7} the Nim-sum is 1 and the computer reduces heap 1 from 3 to 2, restoring Nim-sum zero. */
  lemma WinningFromHeapOne()
    ensures NimSum([0, 3, 5, 7]) == 1
    ensures AiPolicy([0, 3, 5, 7]) == Some(Move(1, 1))
    ensures NimSum([0, 2, 5, 7]) == 0
  {
    var s: seq<nat> := [0, 3, 5, 7];
    assert Xor(0, 3) == 3;
    assert Xor(3, 5) == 6;
    assert Xor(6, 7) == 1;
    assert NimSumUpTo(s, 4) == 1;
    assert Xor(0, 1) == 1;
    assert Xor(3, 1) == 2;
    assert Count(s, 3) == 1;
    assert WinningScan(s, 1, 0) == Some(Move(1, 1));
    assert Xor(0, 2) == 2;
    assert Xor(2, 5) == 7;
    assert Xor(7, 7) == 0;
    assert NimSumUpTo([0, 2, 5, 7], 4) == 0;
  }

  /** From {0,0,1,1} the Nim-sum is zero and the computer takes the matchstick of heap 2. */
  lemma LosingWithTie()
    ensures NimSum([0, 0, 1, 1]) == 0
    ensures AiPolicy([0, 0, 1, 1]) == Some(Move(2, 1))
  {
    var s: seq<nat> := [0, 0, 1, 1];
    assert Xor(0, 0) == 0;
    assert Xor(0, 1) == 1;
    assert Xor(1, 1) == 0;
    assert NimSumUpTo(s, 4) == 0;
  }

  /**
   * From {1,2,2,3} the Nim-sum is 2 and heap 1 would be emptied while heap 2
   * holds the same size: the degenerate case takes one matchstick from heap 1,
   * which leaves Nim-sum 1, where emptying heap 1 would have left zero.
   */
  lemma DegenerateTie()
    ensures NimSum([1, 2, 2, 3]) == 2
    ensures AiPolicy([1, 2, 2, 3]) == Some(Move(1, 1))
    ensures NimSum([1, 1, 2, 3]) == 1
    ensures NimSum([1, 0, 2, 3]) == 0
  {
    var s: seq<nat> := [1, 2, 2, 3];
    assert Xor(0, 1) == 1;
    assert Xor(1, 2) == 3;
    assert Xor(3, 2) == 1;
    assert Xor(1, 3) == 2;
    assert NimSumUpTo(s, 4) == 2;
    assert !Winning(1, 2);
    assert Xor(2, 2) == 0;
    assert Count(s, 2) == 2;
    assert FirstIndexOf(s, 2) == 1;
    assert WinningScan(s, 2, 0) == Some(Move(1, 1));
    assert Xor(1, 1) == 0;
    assert Xor(0, 2) == 2;
    assert Xor(2, 3) == 1;
    assert NimSumUpTo([1, 1, 2, 3], 4) == 1;
    assert Xor(1, 0) == 1;
    assert NimSumUpTo([1, 0, 2, 3], 4) == 0;
  }

  /**
   * From {1,1,2,3} the Nim-sum is 1 and heap 0 would be emptied while heap 1
   * holds the same size: the degenerate case takes the single matchstick of
   * heap 0, which is the same move as emptying it, and leaves Nim-sum zero.
   */
  lemma DegenerateSingleStick()
    ensures NimSum([1, 1, 2, 3]) == 1
    ensures Degenerate([1, 1, 2, 3])
    ensures AiPolicy([1, 1, 2, 3]) == Some(Move(0, 1))
    ensures NimSum([0, 1, 2, 3]) == 0
  {
    var s: seq<nat> := [1, 1, 2, 3];
    assert Xor(0, 1) == 1;
    assert Xor(1, 1) == 0;
    assert Xor(0, 2) == 2;
    assert Xor(2, 3) == 1;
    assert NimSumUpTo(s, 4) == 1;
    assert Winning(1, 1);
    assert WinningHeap(s) == 0;
    assert Count(s, 1) == 2;
    assert FirstIndexOf(s, 1) == 0;
    assert WinningScan(s, 1, 0) == Some(Move(0, 1));
    assert Xor(0, 0) == 0;
    assert Xor(1, 2) == 3;
    assert Xor(3, 3) == 0;
    assert NimSumUpTo([0, 1, 2, 3], 4) == 0;
  }
}
