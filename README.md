# Nim engine of the Android activity

This project models the game engine inside `MainActivity`. That is the Android activity that plays the matchstick game Nim against a human. The game has four heaps holding 1, 3, 5 and 7 matchsticks, and each player in turn removes one or more matchsticks from a single heap.

The activity keeps the heaps in a mutable `int[] rows` field and works on it in place:

- `makeMove` validates the human's move, subtracts it and, unless the game is over, lets the computer reply.
- `isGameOver` detects the end of the game.
- `aiMove` chooses the computer's move from the Nim-sum, which is the bitwise exclusive-or of the heap sizes.
  - If the Nim-sum is zero, it takes one matchstick from the first non-empty heap.
  - Otherwise, it reduces the first heap that the Nim-sum makes smaller to `heap ^ xorSum`.
  - There is one special tie case.
- `resetGame` starts a new game.

The model has four modules:

- `Bits` (bits.dfy): exclusive-or on naturals as a recursive function.
  - It proves that the function is bitwise parity (`XorBit`).
  - It proves the algebraic laws the Nim argument needs.
  - It proves the lemma at the heart of Nim: `Xor(h, s) < h` exactly when `h` has the top bit of `s` set.
- `Heaps` (heaps.dfy): positions as values (`seq<nat>`), legal moves, the Nim-sum, and the computer's choice as a function.
  - `AiPolicy` is written as the two scanning loops of `aiMove`: `LosingScan`, and `WinningScan` with `ReplyAt`.
  - The lemmas relate `AiPolicy` to independent reference definitions: `FirstNonEmpty`, `WinningHeap` and `Degenerate`.
  - They also prove the Nim theorem, bounds, progress and the length of a game.
- `Engine` (engine.dfy): the class `MainActivity`.
  - It holds `rows: array<nat>`.
  - It has imperative methods with loop invariants.
  - Each method is proved against the functions of `Heaps`.
- `Scenarios` (scenarios.dfy): the computer's reply in five concrete positions.

One behaviour of the code is proved rather than assumed: the degenerate tie case. It applies when the chosen heap `i` would be emptied while exactly two heaps have its size.

- In that case `findOtherRowWithSameMatchsticks(rows[i])` returns `i` itself, never a different heap. Any earlier heap of that size would also have been reducible, and the winning loop picks the first such heap.
- So the computer takes one matchstick from heap `i`, and the branch at line 143 can never run (`Heaps.DegenerateFindsChosenHeap`).
- The Nim-sum afterwards is `rows[i] - 1` (`Heaps.DegenerateNimSum`). It is not zero unless heap `i` held a single matchstick; in that case taking one matchstick empties the heap, and the two branches give the same move.
- Example: from `{1,2,2,3}` the computer leaves `{1,1,2,3}`, with Nim-sum 1. Emptying heap 1 would have left `{1,0,2,3}`, with Nim-sum 0 (`Scenarios.DegenerateTie`).
- Example: from `{1,1,2,3}` the computer takes the single matchstick of heap 0 and leaves `{0,1,2,3}`, with Nim-sum 0 (`Scenarios.DegenerateSingleStick`).
- The model keeps this behaviour exactly as written.

The source itself has no separate "apply move" that skips the reply, so the model has none either. `MakeMove` validates the human's move, applies it and then, unless the game is over, calls `AiMove`, as the code does at lines 94-102.

All source paths below are relative to the repository root.

## Model

| member | source | states |
|---|---|---|
| Engine.MainActivity.constructor | app/src/main/java/com/example/nim_androidstudio/MainActivity.java:18 | the heaps start as exactly {1,3,5,7}, within bounds |
| Engine.MainActivity.ResetGame | app/src/main/java/com/example/nim_androidstudio/MainActivity.java:203-204 | a new game gets a fresh array holding exactly {1,3,5,7}, whatever the prior state |
| Engine.MainActivity.IsGameOver | app/src/main/java/com/example/nim_androidstudio/MainActivity.java:105-112 | the result is true iff every heap is empty, iff the total is zero (the test `checkGameOver` uses) |
| Engine.MainActivity.CountRowsWithSameMatchsticks | app/src/main/java/com/example/nim_androidstudio/MainActivity.java:157-165 | the result is the number of heaps equal to the argument, at most the number of heaps |
| Engine.MainActivity.FindOtherRowWithSameMatchsticks | app/src/main/java/com/example/nim_androidstudio/MainActivity.java:168-175 | the result is -1 iff no heap holds the value; otherwise it is the first index holding it |
| Engine.MainActivity.AiMove | app/src/main/java/com/example/nim_androidstudio/MainActivity.java:114-154 | the move made is `AiPolicy` of the old heaps; it is legal; the new heaps are the old ones with that move applied; the bounds hold; the total strictly drops when a move is made |
| Engine.MainActivity.MoveOnWinningRow | app/src/main/java/com/example/nim_androidstudio/MainActivity.java:133-150 | on a heap the Nim-sum makes smaller, the move is `ReplyAt`; it is legal, and it is applied to the heaps; the bounds hold and the total drops |
| Engine.MainActivity.MakeMove | app/src/main/java/com/example/nim_androidstudio/MainActivity.java:60-103 | a row outside 0..3 gives InvalidRow; a count outside 1..rows[row] gives InvalidCount; a refused move changes nothing; a move is accepted iff it is legal; after it the computer replies with `AiPolicy` of the position, and passes iff that position is empty; the final heaps are both moves applied; the total drops |
| Heaps.InitialRows | app/src/main/java/com/example/nim_androidstudio/MainActivity.java:18 | the heap sizes of a new game, {1,3,5,7} |
| Heaps.AllEmpty | app/src/main/java/com/example/nim_androidstudio/MainActivity.java:106-111 | computes whether every heap holds zero matchsticks, the test of `isGameOver` |
| Heaps.Sum | app/src/main/java/com/example/nim_androidstudio/MainActivity.java:191 | computes the total number of matchsticks left, the sum `checkGameOver` compares with zero |
| Heaps.Legal | app/src/main/java/com/example/nim_androidstudio/MainActivity.java:89 | computes whether a move names an existing heap and removes at least one and at most all of its matchsticks |
| Heaps.Apply | app/src/main/java/com/example/nim_androidstudio/MainActivity.java:94 | computes the heaps after a legal move: heap `row` lowered by `count`, the others unchanged |
| Heaps.CountUpTo | app/src/main/java/com/example/nim_androidstudio/MainActivity.java:157-165 | computes the number of heaps among the first n holding exactly v, the counter of the loop after n steps |
| Heaps.Count | app/src/main/java/com/example/nim_androidstudio/MainActivity.java:157-165 | computes the number of heaps holding exactly v |
| Heaps.NimSumUpTo | app/src/main/java/com/example/nim_androidstudio/MainActivity.java:115-118 | computes the exclusive-or of the first n heaps, the value of `xorSum` after n steps of the loop |
| Heaps.NimSum | app/src/main/java/com/example/nim_androidstudio/MainActivity.java:115-118 | computes the exclusive-or of all heaps, `xorSum` after the loop |
| Heaps.LosingScan | app/src/main/java/com/example/nim_androidstudio/MainActivity.java:122-128 | computes the losing loop from heap k on: one matchstick from the first non-empty heap, or no move when every heap from k on is empty |
| Heaps.ReplyAt | app/src/main/java/com/example/nim_androidstudio/MainActivity.java:134-149 | computes the move on the heap found by the winning loop: reduce it to `rows[i] ^ xorSum`, except when that empties it while exactly two heaps have its size; then one matchstick from the first heap of that size, or from heap i when that heap is empty |
| Heaps.WinningScan | app/src/main/java/com/example/nim_androidstudio/MainActivity.java:131-152 | computes the winning loop from heap k on: `ReplyAt` on the first heap with `rows[i] ^ xorSum < rows[i]`, or no move when there is none |
| Heaps.AiPolicy | app/src/main/java/com/example/nim_androidstudio/MainActivity.java:114-154 | computes the computer's move: the losing loop when the Nim-sum is zero, the winning loop otherwise |
| Heaps.Degenerate | app/src/main/java/com/example/nim_androidstudio/MainActivity.java:135 | computes whether the chosen heap would be emptied while exactly two heaps hold its size |
| Bits.Xor | app/src/main/java/com/example/nim_androidstudio/MainActivity.java:117 | computes the bitwise exclusive-or of two naturals, one binary digit at a time, as Java's `^` does on non-negative values |
| Heaps.SumZeroIffAllEmpty | app/src/main/java/com/example/nim_androidstudio/MainActivity.java:191-192 | the total is zero iff every heap is empty |
| Heaps.ApplySum | app/src/main/java/com/example/nim_androidstudio/MainActivity.java:94 | a legal move lowers the total by exactly its count |
| Heaps.LegalMoveProgress | app/src/main/java/com/example/nim_androidstudio/MainActivity.java:89-94 | a legal move keeps every heap in [0, initial size] and strictly lowers the total |
| Heaps.LegalPlayLength | app/src/main/java/com/example/nim_androidstudio/MainActivity.java:94 | a sequence of legal moves is no longer than the number of matchsticks |
| Heaps.GameLength | app/src/main/java/com/example/nim_androidstudio/MainActivity.java:18 | a game from {1,3,5,7} has at most 16 moves |
| Heaps.CountIsMultiplicity | app/src/main/java/com/example/nim_androidstudio/MainActivity.java:157-165 | the count equals the multiplicity of the value in the heaps, at most their number |
| Heaps.FirstIndexFrom | app/src/main/java/com/example/nim_androidstudio/MainActivity.java:169-174 | the result is -1 iff no heap from k on holds v; otherwise it is the first such index |
| Heaps.FirstIndexOf | app/src/main/java/com/example/nim_androidstudio/MainActivity.java:168-175 | the result is -1 iff v is not a heap size; otherwise it is the first index holding v |
| Heaps.FirstNonEmpty | app/src/main/java/com/example/nim_androidstudio/MainActivity.java:122-123 | the result is a non-empty heap and every earlier heap is empty |
| Heaps.Winning | app/src/main/java/com/example/nim_androidstudio/MainActivity.java:132-133 | computes whether heap h is one the winning loop reduces: its target `h ^ xorSum` is smaller than h |
| Heaps.FirstWinning | app/src/main/java/com/example/nim_androidstudio/MainActivity.java:131-133 | the result is a heap that `x` makes smaller, and no earlier heap is one |
| Heaps.WinningHeap | app/src/main/java/com/example/nim_androidstudio/MainActivity.java:131-133 | with a non-zero Nim-sum, the result is the first heap with `heap ^ xorSum < heap` |
| Heaps.WinningHeapExists | app/src/main/java/com/example/nim_androidstudio/MainActivity.java:130-133 | with a non-zero Nim-sum some heap satisfies `target < rows[i]` (the theorem of Nim) |
| Heaps.NimSumBitFromHeap | app/src/main/java/com/example/nim_androidstudio/MainActivity.java:115-118 | a bit set in the Nim-sum is set in some heap |
| Heaps.NimSumAllEmpty | app/src/main/java/com/example/nim_androidstudio/MainActivity.java:115-118 | the Nim-sum of empty heaps is zero |
| Heaps.NimSumUpdate | app/src/main/java/com/example/nim_androidstudio/MainActivity.java:115-118 | replacing heap i by v changes the Nim-sum to `(xorSum ^ rows[i]) ^ v` |
| Heaps.OptimalMoveZeroesNimSum | app/src/main/java/com/example/nim_androidstudio/MainActivity.java:132 | setting heap i to `rows[i] ^ xorSum` leaves Nim-sum zero |
| Heaps.LosingScanFinds | app/src/main/java/com/example/nim_androidstudio/MainActivity.java:122-127 | the losing loop takes one matchstick from the first non-empty heap |
| Heaps.LosingScanEmpty | app/src/main/java/com/example/nim_androidstudio/MainActivity.java:122-128 | the losing loop makes no move when every heap is empty |
| Heaps.WinningScanFinds | app/src/main/java/com/example/nim_androidstudio/MainActivity.java:131-152 | the winning loop moves on the first heap that the Nim-sum makes smaller |
| Heaps.AiPolicyLosing | app/src/main/java/com/example/nim_androidstudio/MainActivity.java:120-128 | with Nim-sum zero the reply is None on empty heaps, otherwise one matchstick from `FirstNonEmpty` |
| Heaps.AiPolicyWinning | app/src/main/java/com/example/nim_androidstudio/MainActivity.java:129-152 | with a non-zero Nim-sum the reply is `ReplyAt` on `WinningHeap` |
| Heaps.ReplyAtLegal | app/src/main/java/com/example/nim_androidstudio/MainActivity.java:134-148 | the move chosen on a reducible heap is legal in both sub-cases |
| Heaps.AiPolicyMoves | app/src/main/java/com/example/nim_androidstudio/MainActivity.java:114-154 | the computer passes iff every heap is empty, and otherwise makes a legal move |
| Heaps.LosingFallback | app/src/main/java/com/example/nim_androidstudio/MainActivity.java:120-128 | in a non-terminal position with Nim-sum zero, the move takes exactly one matchstick from the lowest-indexed non-empty heap |
| Heaps.WinningMoveZeroesNimSum | app/src/main/java/com/example/nim_androidstudio/MainActivity.java:146-147 | outside the degenerate case, heap `WinningHeap` becomes its target and the Nim-sum afterwards is zero |
| Heaps.DegenerateFindsChosenHeap | app/src/main/java/com/example/nim_androidstudio/MainActivity.java:135-145 | in the degenerate case the "other" heap found is heap i itself, which is non-empty, so the branch at line 143 cannot run and the move is one matchstick from heap i |
| Heaps.DegenerateNimSum | app/src/main/java/com/example/nim_androidstudio/MainActivity.java:135-140 | in the degenerate case the Nim-sum equals heap i, and after the move it is `rows[i] - 1`: not zero when heap i held two or more matchsticks; with a single matchstick the move is the same as emptying heap i |
| Bits.XorBit | app/src/main/java/com/example/nim_androidstudio/MainActivity.java:117 | each bit of `Xor(a, b)` is the parity of the two input bits, which is what `^` computes |
| Bits.XorZero | app/src/main/java/com/example/nim_androidstudio/MainActivity.java:115-117 | zero is the identity of exclusive-or, the starting value of `xorSum` |
| Bits.XorSelf | app/src/main/java/com/example/nim_androidstudio/MainActivity.java:117 | `a ^ a == 0` |
| Bits.XorComm | app/src/main/java/com/example/nim_androidstudio/MainActivity.java:117 | exclusive-or is commutative |
| Bits.XorAssoc | app/src/main/java/com/example/nim_androidstudio/MainActivity.java:117 | exclusive-or is associative |
| Bits.XorSwap | app/src/main/java/com/example/nim_androidstudio/MainActivity.java:117 | the last two operands of a chain can be exchanged |
| Bits.XorCancel | app/src/main/java/com/example/nim_androidstudio/MainActivity.java:117 | `(a ^ b) ^ b == a` |
| Bits.XorZeroMeansEqual | app/src/main/java/com/example/nim_androidstudio/MainActivity.java:120 | `a ^ b == 0` only when `a == b` |
| Bits.XorChanges | app/src/main/java/com/example/nim_androidstudio/MainActivity.java:132 | exclusive-or with a non-zero number changes the value |
| Bits.HighBitIsSet | app/src/main/java/com/example/nim_androidstudio/MainActivity.java:130 | the top bit of a positive number is set |
| Bits.XorLessIffHighBit | app/src/main/java/com/example/nim_androidstudio/MainActivity.java:132-133 | `h ^ s < h` iff h has the top bit of the non-zero s set |
| Scenarios.OpeningPosition | app/src/main/java/com/example/nim_androidstudio/MainActivity.java:18 | {1,3,5,7} has Nim-sum zero and the computer would take one matchstick from heap 0 |
| Scenarios.WinningFromHeapOne | app/src/main/java/com/example/nim_androidstudio/MainActivity.java:130-149 | from {0,3,5,7} the computer takes one matchstick from heap 1, leaving Nim-sum zero |
| Scenarios.LosingWithTie | app/src/main/java/com/example/nim_androidstudio/MainActivity.java:120-128 | from {0,0,1,1} the computer takes the matchstick of heap 2 |
| Scenarios.DegenerateTie | app/src/main/java/com/example/nim_androidstudio/MainActivity.java:135-145 | from {1,2,2,3} the computer takes one matchstick from heap 1, leaving Nim-sum 1, where emptying heap 1 gives zero |
| Scenarios.DegenerateSingleStick | app/src/main/java/com/example/nim_androidstudio/MainActivity.java:135-145 | from {1,1,2,3} the tie case holds and the computer takes the single matchstick of heap 0, leaving Nim-sum zero, which is the same as emptying heap 0 |

## Left out

- Android presentation is not modelled: `onCreate`, the image views, `updateUI`, the Toast messages, button enabling and the click listeners. The move the computer reports in its Toast is the `Move` that `AiMove` returns.
- The mapping from radio-button IDs to a heap index (lines 61-80) is not modelled. `MakeMove` takes the index as an `int` and checks it directly. An index outside 0..3, such as the -1 for "no row selected" (lines 62-65), gives `InvalidRow` and changes nothing. The code itself has no such check: a checked-button ID that matched none of the four would throw at `rows[-1]` when `numSticks > 0`, and report an invalid count when `numSticks <= 0`, because the test at line 89 stops before reading `rows[row]`. The model returns `InvalidRow` in both cases.
- Text input is not modelled: the empty-text check and `Integer.parseInt` (lines 82-88). `numSticks` is an `int` argument. A non-numeric text, which makes the Java code throw, has no counterpart.
- The win or loss message of `checkGameOver` (lines 194-200) is not modelled. The code derives it from the text of a `TextView`. Only its sum-is-zero test is modelled, by `IsGameOver` and `SumZeroIffAllEmpty`.
- Java's 32-bit `int` is modelled as unbounded `nat`/`int`. The heaps never go below 0 and never exceed 7, so no value overflows and none is negative. The `nat` element type of `rows` and `WithinBounds` record this.
- The body of the winning loop that follows the find (lines 134-150) is a separate method, `MoveOnWinningRow`, called from the loop in `AiMove`. The behaviour is unchanged, and it keeps each proof small.
