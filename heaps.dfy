/**
 * The game position as a value: four heaps of matchsticks, the moves on
 * them, and the computer's move choice as a function of the position.
 * The class in engine.dfy is proved against these definitions.
 */
module Heaps {
  import opened Bits

  datatype Option<T> = None | Some(value: T)

  /** Remove `count` matchsticks from heap `row` (both Java `int`s). */
  datatype Move = Move(row: int, count: int)

  /** The heap sizes of a new game. */
  const InitialRows: seq<nat> := [1, 3, 5, 7]

  /** Every heap lies between zero and its initial size. */
  ghost predicate WithinBounds(s: seq<nat>)
  {
    |s| == |InitialRows| && forall i :: 0 <= i < |s| ==> s[i] <= InitialRows[i]
  }

  predicate AllEmpty(s: seq<nat>)
  {
    forall i :: 0 <= i < |s| ==> s[i] == 0
  }

  /** Total number of matchsticks left. */
  function Sum(s: seq<nat>): nat
  {
    if s == [] then 0 else s[0] + Sum(s[1..])
  }

  /** Number of heaps among the first `n` holding exactly `v` matchsticks. */
  function CountUpTo(s: seq<nat>, v: int, n: nat): nat
    requires n <= |s|
  {
    if n == 0 then 0 else CountUpTo(s, v, n - 1) + (if s[n - 1] == v then 1 else 0)
  }

  /** Number of heaps holding exactly `v` matchsticks. */
  function Count(s: seq<nat>, v: int): nat
  {
    CountUpTo(s, v, |s|)
  }

  /** Exclusive-or of the first `n` heaps, accumulated left to right. */
  function NimSumUpTo(s: seq<nat>, n: nat): nat
    requires n <= |s|
  {
    if n == 0 then 0 else Xor(NimSumUpTo(s, n - 1), s[n - 1])
  }

  /** The binary digital sum (Nim-sum) of the heaps. */
  function NimSum(s: seq<nat>): nat
  {
    NimSumUpTo(s, |s|)
  }

  /** A move the rules allow: an existing heap, at least one and at most all of its matchsticks. */
  predicate Legal(s: seq<nat>, m: Move)
  {
    0 <= m.row < |s| && 1 <= m.count <= s[m.row]
  }

  function Apply(s: seq<nat>, m: Move): seq<nat>
    requires Legal(s, m)
  {
    s[m.row := s[m.row] - m.count]
  }

  function ApplyOption(s: seq<nat>, mv: Option<Move>): seq<nat>
    requires mv.Some? ==> Legal(s, mv.value)
  {
    if mv.Some? then Apply(s, mv.value) else s
  }

  /** Whether the heap is one the winning strategy can reduce to `Xor(h, x)`. */
  predicate Winning(h: nat, x: nat)
  {
    Xor(h, x) < h
  }

  /** Index of the first non-empty heap. */
  function FirstNonEmpty(s: seq<nat>): (i: nat)
    requires !AllEmpty(s)
    ensures i < |s| && s[i] > 0
    ensures forall j :: 0 <= j < i ==> s[j] == 0
  {
    if s[0] > 0 then 0 else 1 + FirstNonEmpty(s[1..])
  }

  /** Index of the first heap that exclusive-or with `x` makes smaller. */
  function FirstWinning(s: seq<nat>, x: nat): (i: nat)
    requires exists j :: 0 <= j < |s| && Winning(s[j], x)
    ensures i < |s| && Winning(s[i], x)
    ensures forall j :: 0 <= j < i ==> !Winning(s[j], x)
  {
    if Winning(s[0], x) then 0
    else
      assert exists j :: 0 <= j < |s[1..]| && Winning(s[1..][j], x) by {
        var j :| 0 <= j < |s| && Winning(s[j], x);
        assert j > 0 && s[1..][j - 1] == s[j];
      }
      1 + FirstWinning(s[1..], x)
  }

  /** Index of the first heap from `k` on holding exactly `v` matchsticks, or -1 when there is none. */
  function FirstIndexFrom(s: seq<nat>, v: int, k: nat): (r: int)
    requires k <= |s|
    ensures r == -1 <==> forall j :: k <= j < |s| ==> s[j] != v
    ensures r != -1 ==> k <= r < |s| && s[r] == v && forall j :: k <= j < r ==> s[j] != v
    decreases |s| - k
  {
    if k == |s| then -1 else if s[k] == v then k else FirstIndexFrom(s, v, k + 1)
  }

  /** Index of the first heap holding exactly `v` matchsticks, or -1 when there is none. */
  function FirstIndexOf(s: seq<nat>, v: int): (r: int)
    ensures r == -1 <==> v !in s
    ensures r != -1 ==> 0 <= r < |s| && s[r] == v && forall j :: 0 <= j < r ==> s[j] != v
  {
    FirstIndexFrom(s, v, 0)
  }

  /**
   * The heap the winning strategy reduces: the first one that exclusive-or
   * with the Nim-sum makes smaller, which exists whenever the Nim-sum is not zero.
   */
  function WinningHeap(s: seq<nat>): (i: nat)
    requires NimSum(s) != 0
    ensures i < |s| && Xor(s[i], NimSum(s)) < s[i]
    ensures forall j :: 0 <= j < i ==> !Winning(s[j], NimSum(s))
  {
    WinningHeapExists(s);
    FirstWinning(s, NimSum(s))
  }

  /**
   * The special case of the winning branch: the chosen heap would be emptied
   * (its target is zero) while exactly two heaps hold its size.
   */
  predicate Degenerate(s: seq<nat>)
  {
    NimSum(s) != 0 &&
    var i := WinningHeap(s);
    s[i] - Xor(s[i], NimSum(s)) == s[i] && Count(s, s[i]) == 2
  }

  /**
   * The losing-position loop from heap `k` on: one matchstick from the first
   * non-empty heap, or no move when every heap from `k` on is empty.
   */
  function LosingScan(s: seq<nat>, k: nat): Option<Move>
    requires k <= |s|
    decreases |s| - k
  {
    if k == |s| then None
    else if s[k] > 0 then Some(Move(k, 1))
    else LosingScan(s, k + 1)
  }

  /**
   * The move on heap `i` once the winning loop has found it: reduce it to
   * `target`, except when that empties it while exactly two heaps hold its
   * size; then take one matchstick from the first heap of that size, or
   * from heap `i` when that heap is empty.
   */
  function ReplyAt(s: seq<nat>, x: nat, i: nat): Move
    requires i < |s|
  {
    var target := Xor(s[i], x);
    var remove := s[i] - target;
    if remove == s[i] && Count(s, s[i]) == 2 then
      var other := FirstIndexOf(s, s[i]);
      assert s[i] in s;
      if s[other] > 0 then Move(other, 1) else Move(i, 1)
    else
      Move(i, remove)
  }

  /** The winning-position loop from heap `k` on: the move on the first heap that `x` makes smaller. */
  function WinningScan(s: seq<nat>, x: nat, k: nat): Option<Move>
    requires k <= |s|
    decreases |s| - k
  {
    if k == |s| then None
    else if Winning(s[k], x) then Some(ReplyAt(s, x, k))
    else WinningScan(s, x, k + 1)
  }

  /**
   * The computer's move in position `s`, or None when it makes none: the
   * Nim-sum of the heaps selects the losing-position or the winning-position loop.
   */
  function AiPolicy(s: seq<nat>): Option<Move>
  {
    var x := NimSum(s);
    if x == 0 then LosingScan(s, 0) else WinningScan(s, x, 0)
  }

  // ---------------------------------------------------------------------
  // Sums, counts and terminal positions

  lemma {:induction false} SumUpdate(s: seq<nat>, i: nat, v: nat)
    requires i < |s|
    ensures Sum(s[i := v]) == Sum(s) - s[i] + v
  {
    if i > 0 {
      assert s[i := v][1..] == s[1..][i - 1 := v];
      SumUpdate(s[1..], i - 1, v);
    }
  }

  /** A move removes exactly its count from the total. */
  lemma ApplySum(s: seq<nat>, m: Move)
    requires Legal(s, m)
    ensures Sum(Apply(s, m)) == Sum(s) - m.count
  {
    SumUpdate(s, m.row, s[m.row] - m.count);
  }

  /** The game is over exactly when the total number of matchsticks is zero. */
  lemma {:induction false} SumZeroIffAllEmpty(s: seq<nat>)
    ensures Sum(s) == 0 <==> AllEmpty(s)
  {
    if s != [] {
      SumZeroIffAllEmpty(s[1..]);
      assert AllEmpty(s) <==> s[0] == 0 && AllEmpty(s[1..]) by {
        if AllEmpty(s) {
          forall j | 0 <= j < |s[1..]| ensures s[1..][j] == 0 {
            assert s[1..][j] == s[j + 1];
          }
        }
        if s[0] == 0 && AllEmpty(s[1..]) {
          forall j | 0 <= j < |s| ensures s[j] == 0 {
            if j > 0 { assert s[j] == s[1..][j - 1]; }
          }
        }
      }
    }
  }

  /** Count agrees with the multiplicity of `v` in the heaps, and so is at most the number of heaps. */
  lemma CountIsMultiplicity(s: seq<nat>, v: nat)
    ensures Count(s, v) == multiset(s)[v] <= |s|
  {
    CountUpToIsMultiplicity(s, v, |s|);
    assert s[..|s|] == s;
  }

  lemma {:induction false} CountUpToIsMultiplicity(s: seq<nat>, v: nat, n: nat)
    requires n <= |s|
    ensures CountUpTo(s, v, n) == multiset(s[..n])[v] <= n
  {
    if n > 0 {
      CountUpToIsMultiplicity(s, v, n - 1);
      assert s[..n] == s[..n - 1] + [s[n - 1]];
    }
  }

  // ---------------------------------------------------------------------
  // The Nim-sum

  lemma NimSumAllEmpty(s: seq<nat>)
    requires AllEmpty(s)
    ensures NimSum(s) == 0
  {
    NimSumUpToAllEmpty(s, |s|);
  }

  lemma {:induction false} NimSumUpToAllEmpty(s: seq<nat>, n: nat)
    requires n <= |s| && AllEmpty(s)
    ensures NimSumUpTo(s, n) == 0
  {
    if n > 0 {
      NimSumUpToAllEmpty(s, n - 1);
      XorZero(0);
    }
  }

  /** A bit set in the Nim-sum of the first `n` heaps is set in at least one of them. */
  lemma {:induction false} NimSumBitFromHeap(s: seq<nat>, n: nat, k: nat)
    requires n <= |s| && Bit(NimSumUpTo(s, n), k) == 1
    ensures exists i :: 0 <= i < n && Bit(s[i], k) == 1
  {
    if n == 0 {
      BitOfZero(k);
    } else {
      XorBit(NimSumUpTo(s, n - 1), s[n - 1], k);
      if Bit(s[n - 1], k) != 1 {
        NimSumBitFromHeap(s, n - 1, k);
      }
    }
  }

  /**
   * The theorem of Nim the computer relies on: when the Nim-sum is not zero,
   * some heap is made strictly smaller by exclusive-or with the Nim-sum.
   */
  lemma WinningHeapExists(s: seq<nat>)
    requires NimSum(s) != 0
    ensures exists i :: 0 <= i < |s| && Winning(s[i], NimSum(s))
  {
    var x := NimSum(s);
    HighBitIsSet(x);
    NimSumBitFromHeap(s, |s|, HighBit(x));
    var i :| 0 <= i < |s| && Bit(s[i], HighBit(x)) == 1;
    XorLessIffHighBit(s[i], x);
  }

  /** Replacing one heap changes the Nim-sum by the old and the new size. */
  lemma NimSumUpdate(s: seq<nat>, i: nat, v: nat)
    requires i < |s|
    ensures NimSum(s[i := v]) == Xor(Xor(NimSum(s), s[i]), v)
  {
    NimSumUpToUpdate(s, i, v, |s|);
  }

  lemma {:induction false} NimSumUpToUpdate(s: seq<nat>, i: nat, v: nat, n: nat)
    requires i < n <= |s|
    ensures NimSumUpTo(s[i := v], n) == Xor(Xor(NimSumUpTo(s, n), s[i]), v)
  {
    var t := s[i := v];
    if n - 1 == i {
      NimSumUpToSame(s, t, i);
      XorCancel(NimSumUpTo(s, i), s[i]);
    } else {
      NimSumUpToUpdate(s, i, v, n - 1);
      XorSwap(Xor(NimSumUpTo(s, n - 1), s[i]), v, s[n - 1]);
      XorSwap(NimSumUpTo(s, n - 1), s[i], s[n - 1]);
    }
  }

  /** The Nim-sum of the first `n` heaps depends on those heaps only. */
  lemma {:induction false} NimSumUpToSame(s: seq<nat>, t: seq<nat>, n: nat)
    requires n <= |s| && n <= |t|
    requires forall j :: 0 <= j < n ==> s[j] == t[j]
    ensures NimSumUpTo(s, n) == NimSumUpTo(t, n)
  {
    if n > 0 {
      NimSumUpToSame(s, t, n - 1);
    }
  }

  /** Reducing heap `i` to `Xor(s[i], NimSum(s))` leaves Nim-sum zero. */
  lemma OptimalMoveZeroesNimSum(s: seq<nat>, i: nat)
    requires i < |s|
    ensures NimSum(s[i := Xor(s[i], NimSum(s))]) == 0
  {
    var x := NimSum(s);
    NimSumUpdate(s, i, Xor(s[i], x));
    XorComm(s[i], x);
    XorSelf(Xor(x, s[i]));
  }

  // ---------------------------------------------------------------------
  // The computer's move

  /** The losing-position loop stops at the first non-empty heap. */
  lemma {:induction false} LosingScanFinds(s: seq<nat>, k: nat, i: nat)
    requires k <= i < |s| && s[i] > 0
    requires forall j :: k <= j < i ==> s[j] == 0
    ensures LosingScan(s, k) == Some(Move(i, 1))
    decreases i - k
  {
    if k < i {
      LosingScanFinds(s, k + 1, i);
    }
  }

  /** The losing-position loop makes no move when every heap from `k` on is empty. */
  lemma {:induction false} LosingScanEmpty(s: seq<nat>, k: nat)
    requires k <= |s|
    requires forall j :: k <= j < |s| ==> s[j] == 0
    ensures LosingScan(s, k) == None
    decreases |s| - k
  {
    if k < |s| {
      LosingScanEmpty(s, k + 1);
    }
  }

  /** The winning-position loop stops at the first heap that `x` makes smaller. */
  lemma {:induction false} WinningScanFinds(s: seq<nat>, x: nat, k: nat, i: nat)
    requires k <= i < |s| && Winning(s[i], x)
    requires forall j :: k <= j < i ==> !Winning(s[j], x)
    ensures WinningScan(s, x, k) == Some(ReplyAt(s, x, i))
    decreases i - k
  {
    if k < i {
      WinningScanFinds(s, x, k + 1, i);
    }
  }

  /** With Nim-sum zero the computer takes one matchstick from the first non-empty heap, or passes when there is none. */
  lemma AiPolicyLosing(s: seq<nat>)
    requires NimSum(s) == 0
    ensures AllEmpty(s) ==> AiPolicy(s) == None
    ensures !AllEmpty(s) ==> AiPolicy(s) == Some(Move(FirstNonEmpty(s), 1))
  {
    if AllEmpty(s) {
      LosingScanEmpty(s, 0);
    } else {
      LosingScanFinds(s, 0, FirstNonEmpty(s));
    }
  }

  /** With a non-zero Nim-sum the computer moves on the first heap the Nim-sum makes smaller. */
  lemma AiPolicyWinning(s: seq<nat>)
    requires NimSum(s) != 0
    ensures AiPolicy(s) == Some(ReplyAt(s, NimSum(s), WinningHeap(s)))
  {
    WinningScanFinds(s, NimSum(s), 0, WinningHeap(s));
  }

  /** The move chosen on a heap that `x` makes smaller is legal. */
  lemma ReplyAtLegal(s: seq<nat>, x: nat, i: nat)
    requires i < |s| && Winning(s[i], x)
    ensures Legal(s, ReplyAt(s, x, i))
  {
  }

  /** The computer passes exactly when no matchstick is left, and otherwise makes a legal move. */
  lemma AiPolicyMoves(s: seq<nat>)
    ensures AiPolicy(s).None? <==> AllEmpty(s)
    ensures AiPolicy(s).Some? ==> Legal(s, AiPolicy(s).value)
  {
    if AllEmpty(s) {
      NimSumAllEmpty(s);
    }
    if NimSum(s) == 0 {
      AiPolicyLosing(s);
    } else {
      AiPolicyWinning(s);
      ReplyAtLegal(s, NimSum(s), WinningHeap(s));
    }
  }

  /** In a losing position the computer takes one matchstick from the first non-empty heap. */
  lemma LosingFallback(s: seq<nat>)
    requires NimSum(s) == 0 && !AllEmpty(s)
    ensures AiPolicy(s).Some? && AiPolicy(s).value.count == 1
    ensures var k := AiPolicy(s).value.row;
      0 <= k < |s| && s[k] > 0 && forall j :: 0 <= j < k ==> s[j] == 0
  {
    AiPolicyLosing(s);
  }

  /**
   * In a winning position outside the degenerate case the computer moves on
   * the first heap the Nim-sum makes smaller, reduces it to its target, and
   * leaves Nim-sum zero for the opponent.
   */
  lemma WinningMoveZeroesNimSum(s: seq<nat>)
    requires NimSum(s) != 0 && !Degenerate(s)
    ensures AiPolicy(s).Some? && Legal(s, AiPolicy(s).value)
    ensures var i := WinningHeap(s);
      AiPolicy(s).value == Move(i, s[i] - Xor(s[i], NimSum(s))) &&
      Apply(s, AiPolicy(s).value)[i] == Xor(s[i], NimSum(s))
    ensures NimSum(Apply(s, AiPolicy(s).value)) == 0
  {
    var i := WinningHeap(s);
    AiPolicyWinning(s);
    OptimalMoveZeroesNimSum(s, i);
  }

  /**
   * In the degenerate case the search for "the other heap" of the same size
   * finds the chosen heap itself, which is not empty: the fallback that then
   * takes from heap `i` is unreachable, and the move takes one matchstick from heap `i`.
   */
  lemma DegenerateFindsChosenHeap(s: seq<nat>)
    requires Degenerate(s)
    ensures var i := WinningHeap(s);
      FirstIndexOf(s, s[i]) == i && s[FirstIndexOf(s, s[i])] > 0 &&
      AiPolicy(s) == Some(Move(i, 1))
  {
    var i := WinningHeap(s);
    AiPolicyWinning(s);
    assert s[i] in s;
  }

  /**
   * The Nim-sum after the degenerate move: the chosen heap held the whole
   * Nim-sum, and afterwards the Nim-sum is that size minus one. So the move
   * restores Nim-sum zero only when the heap held a single matchstick (then
   * it coincides with emptying the heap); from two matchsticks up it does not.
   */
  lemma DegenerateNimSum(s: seq<nat>)
    requires Degenerate(s)
    ensures var i := WinningHeap(s);
      NimSum(s) == s[i] && AiPolicy(s).Some? && Legal(s, AiPolicy(s).value) &&
      NimSum(Apply(s, AiPolicy(s).value)) == s[i] - 1
    ensures var i := WinningHeap(s);
      s[i] == 1 ==> Apply(s, AiPolicy(s).value) == s[i := Xor(s[i], NimSum(s))]
    ensures s[WinningHeap(s)] >= 2 ==> NimSum(Apply(s, AiPolicy(s).value)) != 0
  {
    var x := NimSum(s);
    var i := WinningHeap(s);
    DegenerateFindsChosenHeap(s);
    XorZeroMeansEqual(s[i], x);
    NimSumUpdate(s, i, s[i] - 1);
    XorSelf(x);
    XorZero(s[i] - 1);
  }

  // ---------------------------------------------------------------------
  // Bounds and progress

  /** A legal move keeps every heap within its bounds and strictly lowers the total. */
  lemma LegalMoveProgress(s: seq<nat>, m: Move)
    requires WithinBounds(s) && Legal(s, m)
    ensures WithinBounds(Apply(s, m))
    ensures Sum(Apply(s, m)) < Sum(s)
  {
    ApplySum(s, m);
  }

  /** A sequence of moves, each legal in the position the previous ones leave. */
  ghost predicate LegalPlay(s: seq<nat>, moves: seq<Move>)
    decreases |moves|
  {
    moves == [] || (Legal(s, moves[0]) && LegalPlay(Apply(s, moves[0]), moves[1..]))
  }

  /** No play is longer than the number of matchsticks on the table. */
  lemma {:induction false} LegalPlayLength(s: seq<nat>, moves: seq<Move>)
    requires LegalPlay(s, moves)
    ensures |moves| <= Sum(s)
    decreases |moves|
  {
    if moves != [] {
      ApplySum(s, moves[0]);
      LegalPlayLength(Apply(s, moves[0]), moves[1..]);
    }
  }

  /** A game from the initial heaps lasts at most sixteen moves. */
  lemma GameLength(moves: seq<Move>)
    requires LegalPlay(InitialRows, moves)
    ensures |moves| <= 16
  {
    LegalPlayLength(InitialRows, moves);
  }
}
