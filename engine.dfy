/**
 * The game state held by the Android activity: the mutable `rows` array and
 * the methods that validate and apply the human's move, detect the end of
 * the game, play the computer's reply and start a new game.
 */
module Engine {
  import opened Bits
  import opened Heaps

  /** Why a human move is refused. */
  datatype MoveError = InvalidRow | InvalidCount

  /** What a click on "make move" leads to: a refusal, or the human move and the computer's reply (None when the human took the last matchstick). */
  datatype Outcome = Rejected(error: MoveError) | Accepted(reply: Option<Move>)

  class MainActivity {
    /** Matchsticks left in each of the four heaps. */
    var rows: array<nat>

    /** Four heaps, each between zero and its initial size. */
    ghost predicate Valid()
      reads this, rows
    {
      rows.Length == |InitialRows| && WithinBounds(rows[..])
    }

    constructor ()
      ensures Valid() && fresh(rows)
      ensures rows[..] == InitialRows
    {
      var a := new nat[4];
      a[0], a[1], a[2], a[3] := 1, 3, 5, 7;
      rows := a;
      assert a[..] == InitialRows;
    }

    /** Start a new game on a fresh array holding the initial heaps, whatever the prior state. */
    method ResetGame()
      modifies this
      ensures Valid() && fresh(rows)
      ensures rows[..] == InitialRows
    {
      var a := new nat[4];
      a[0], a[1], a[2], a[3] := 1, 3, 5, 7;
      rows := a;
      assert a[..] == InitialRows;
    }

    /** The game is over when no heap has a matchstick left, that is when the total is zero. */
    method IsGameOver() returns (over: bool)
      ensures over <==> AllEmpty(rows[..])
      ensures over <==> Sum(rows[..]) == 0
    {
      SumZeroIffAllEmpty(rows[..]);
      var i := 0;
      while i < rows.Length
        invariant 0 <= i <= rows.Length
        invariant forall j :: 0 <= j < i ==> rows[j] == 0
      {
        if rows[i] > 0 {
          return false;
        }
        i := i + 1;
      }
      return true;
    }

    /** Number of heaps holding exactly `matchsticks`; at most the number of heaps. */
    method CountRowsWithSameMatchsticks(matchsticks: int) returns (count: nat)
      ensures count == Count(rows[..], matchsticks)
      ensures count <= rows.Length
    {
      count := 0;
      var i := 0;
      while i < rows.Length
        invariant 0 <= i <= rows.Length
        invariant count == CountUpTo(rows[..], matchsticks, i) <= i
      {
        if rows[i] == matchsticks {
          count := count + 1;
        }
        i := i + 1;
      }
    }

    /** First heap holding exactly `matchsticks`, or -1 when there is none. */
    method FindOtherRowWithSameMatchsticks(matchsticks: int) returns (index: int)
      ensures index == -1 <==> forall j :: 0 <= j < rows.Length ==> rows[j] != matchsticks
      ensures index != -1 ==>
        0 <= index < rows.Length && rows[index] == matchsticks &&
        forall j :: 0 <= j < index ==> rows[j] != matchsticks
      ensures index == FirstIndexOf(rows[..], matchsticks)
    {
      var i := 0;
      while i < rows.Length
        invariant 0 <= i <= rows.Length
        invariant FirstIndexOf(rows[..], matchsticks) == FirstIndexFrom(rows[..], matchsticks, i)
      {
        if rows[i] == matchsticks {
          return i;
        }
        i := i + 1;
      }
      return -1;
    }

    /**
     * The computer's move: the Nim-sum of the heaps decides between the
     * losing-position fallback and the winning move. Returns the move it made,
     * or None when every heap was already empty.
     */
    method AiMove() returns (mv: Option<Move>)
      requires Valid()
      modifies rows
      ensures Valid()
      ensures mv == AiPolicy(old(rows[..]))
      ensures mv.Some? ==> Legal(old(rows[..]), mv.value)
      ensures rows[..] == ApplyOption(old(rows[..]), mv)
      ensures mv.Some? ==> Sum(rows[..]) < old(Sum(rows[..]))
    {
      ghost var s := rows[..];
      var xorSum: nat := 0;
      var k := 0;
      while k < rows.Length
        invariant 0 <= k <= rows.Length
        invariant xorSum == NimSumUpTo(s, k)
        invariant unchanged(rows)
      {
        xorSum := Xor(xorSum, rows[k]);
        k := k + 1;
      }

      if xorSum == 0 {
        // Losing position: take one matchstick from the first non-empty heap.
        var i := 0;
        while i < rows.Length
          invariant 0 <= i <= rows.Length
          invariant unchanged(rows)
          invariant AiPolicy(s) == LosingScan(s, i)
        {
          if rows[i] > 0 {
            rows[i] := rows[i] - 1;
            assert rows[..] == s[i := s[i] - 1];
            mv := Some(Move(i, 1));
            LegalMoveProgress(s, mv.value);
            return;
          }
          i := i + 1;
        }
        assert rows[..] == s;
        mv := None;
      } else {
        // Winning position: move on the first heap the Nim-sum makes smaller.
        var i := 0;
        while i < rows.Length
          invariant 0 <= i <= rows.Length
          invariant unchanged(rows)
          invariant AiPolicy(s) == WinningScan(s, xorSum, i)
        {
          if Xor(rows[i], xorSum) < rows[i] {
            assert rows[..] == s;
            var m := MoveOnWinningRow(i, xorSum);
            mv := Some(m);
            return;
          }
          i := i + 1;
        }
        // Unreachable: a non-zero Nim-sum always leaves some heap to reduce.
        AiPolicyMoves(s);
        NimSumAllEmpty(s);
        assert false;
      }
    }

    /**
     * The body of the winning loop once it has found heap `i`, which the
     * Nim-sum `xorSum` makes smaller: the move ReplyAt describes, applied.
     */
    method MoveOnWinningRow(i: nat, xorSum: nat) returns (m: Move)
      requires Valid()
      requires i < rows.Length && Winning(rows[i], xorSum)
      modifies rows
      ensures Valid()
      ensures m == ReplyAt(old(rows[..]), xorSum, i)
      ensures Legal(old(rows[..]), m)
      ensures rows[..] == Apply(old(rows[..]), m)
      ensures Sum(rows[..]) < old(Sum(rows[..]))
    {
      ghost var s := rows[..];
      var target := Xor(rows[i], xorSum);
      var remove := rows[i] - target;
      var tie := false;
      if remove == rows[i] {
        var same := CountRowsWithSameMatchsticks(rows[i]);
        tie := same == 2;
      }
      if tie {
        var otherRow := FindOtherRowWithSameMatchsticks(rows[i]);
        assert rows[i] in rows[..];
        if rows[otherRow] > 0 {
          rows[otherRow] := rows[otherRow] - 1;
          assert rows[..] == s[otherRow := s[otherRow] - 1];
          m := Move(otherRow, 1);
        } else {
          // Unreachable: the heap found holds the same positive size as heap i.
          assert false;
        }
      } else {
        rows[i] := target;
        assert rows[..] == s[i := target];
        m := Move(i, remove);
      }
      LegalMoveProgress(s, m);
    }

    /**
     * A click on "make move" with heap `row` and count `numSticks`: the move is
     * checked against the heaps and applied; then, unless the game is over,
     * the computer replies. A refused move changes nothing.
     */
    method MakeMove(row: int, numSticks: int) returns (outcome: Outcome)
      requires Valid()
      modifies rows
      ensures Valid()
      ensures !(0 <= row < rows.Length) ==> outcome == Rejected(InvalidRow)
      ensures 0 <= row < rows.Length && !(1 <= numSticks <= old(rows[row])) ==>
        outcome == Rejected(InvalidCount)
      ensures outcome.Rejected? ==> rows[..] == old(rows[..])
      ensures outcome.Accepted? <==> Legal(old(rows[..]), Move(row, numSticks))
      ensures outcome.Accepted? ==>
        var afterHuman := Apply(old(rows[..]), Move(row, numSticks));
        (outcome.reply.None? <==> AllEmpty(afterHuman)) &&
        outcome.reply == AiPolicy(afterHuman) &&
        (outcome.reply.Some? ==> Legal(afterHuman, outcome.reply.value)) &&
        rows[..] == ApplyOption(afterHuman, outcome.reply)
      ensures outcome.Accepted? ==> Sum(rows[..]) < old(Sum(rows[..]))
    {
      if !(0 <= row < rows.Length) {
        return Rejected(InvalidRow);
      }
      if numSticks <= 0 || numSticks > rows[row] {
        return Rejected(InvalidCount);
      }
      ghost var s := rows[..];
      rows[row] := rows[row] - numSticks;
      ghost var afterHuman := rows[..];
      assert afterHuman == Apply(s, Move(row, numSticks));
      LegalMoveProgress(s, Move(row, numSticks));
      var over := IsGameOver();
      AiPolicyMoves(afterHuman);
      var reply: Option<Move> := None;
      if !over {
        reply := AiMove();
        LegalMoveProgress(afterHuman, reply.value);
      }
      outcome := Accepted(reply);
    }
  }
}
