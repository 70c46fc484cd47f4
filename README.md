# n-queens: bit masks and the stackless search, in Dafny

This project models the core of a solver for the (n, m)-Queens problem:
place `n` queens on an `m` x `m` board so that no two share a column or a
diagonal. It has two modules.

- `BitMask` (`bitmask.dfy`) holds the bit-field utilities. A Java `int` is
  modelled as its 32-bit pattern, read as an unsigned number (`Word`).
  Java's `|`, `&`, `~`, `<<`, `>>>`, `>>` and truncating `%` are written out
  on those patterns, with the masked shift distance of section 15.19 of the
  Java Language Specification. The module covers the `bits` table and its
  initialiser, `ones`, `firstOneBit` (a loop, proved against the
  bit-by-bit oracle `ScanFrom`), `firstZeroBit` and `toString`.
- `Chessboard` (`chessboard.dfy`) holds the search engine. It is a class
  with the fields of the Java object: `n`, `m`, `k`, `iteration` and the
  five row-indexed arrays (`queenColumn`, `columnBitMask`,
  `leftDiagonalBitMask`, `rightDiagonalBitMask`, `coverageBitMask`).
  `place` and `iterate` update these in place.
  - The class invariant `Valid` ties the mask entries of rows `0..k` (of the
    coverage: `1..k+1`) to functions of the queens on the rows above them
    (`ColumnMask`, `LeftMask`, `RightMask`, `CoverageMask`). Entries of
    higher rows are left over from earlier steps and are not constrained.
  - From it follows the coverage invariant: bit `c` of `coverageBitMask[k+1]`
    is set exactly when a queen on rows `1..k` attacks column `c` of row
    `k+1`.
  - The search invariant `Searching` adds three facts. The placed queens
    attack no other queen. The row being filled has tried only columns
    below `m`. The rows above it hold -1.
  - Every step of `iterate` that does not end the search strictly raises a
    rank. The rank reads the rows as digits in base `2m + 2`. That gives
    `mapSolutions` its termination measure.
  - A whole run of `mapSolutions` is a ghost trace of board states
    (`Run`): it starts on a new board, each state is followed by the one
    `iterate` leaves, and the last one ends the search. The result is the
    length of the trace. The boards handed to the callback are the full
    boards along it (`Reports`).
  - Every board handed to the callback is a solution. Boards are handed
    over in strictly increasing rank, so no board is handed over twice.

The callback is a pure function `stop: seq<int> -> bool`, applied to
`queens()`.

Line 72 of `Chessboard.java` passes the column last tried on row `k + 1`
to `firstZeroBit` as its starting bit. The doc comment on lines 68-70
promises a column "which isn't already considered", that is, a search from
the column after it. The tests agree with the doc comment:
`ChessboardTest.java:32` expects column 0 on an empty 8 x 8 board, and
`ChessboardTest.java:46` expects one solution on a 1 x 1 board. The model
keeps both versions:
- `NextLegalColumnAsWritten` models the line as written, and lemmas show
  its consequences;
- `NextLegalColumn` is the search the doc comment describes, and the rest of
  the model uses it (see "## Findings").

## Model

| member | source | states |
|---|---|---|
| BitMask.BitFor | n-queens/src/com/dslmeinte/nqueens/BitMask.java:9-12 | `bits[i]` is `2^i`, and its only set bit is bit `i` |
| BitMask.BitForValue | n-queens/src/com/dslmeinte/nqueens/BitMask.java:9-20 | for `i <= 30`, `bits[i]` is the positive `int` `2^i`; `bits[31]` is `Integer.MIN_VALUE`; the values 1, 2, 4, 8, 32768 and 2^30 at indices 0-3, 15 and 30 |
| BitMask.BitTable | n-queens/src/com/dslmeinte/nqueens/BitMask.java:14-20 | the initialiser loop, doubling `pow2` with `<<=`, fills all 32 entries with `bits[i] == BitFor(i)` |
| BitMask.Ones | n-queens/src/com/dslmeinte/nqueens/BitMask.java:34-43 | under `ones`'s three assertions, bit `i` of the result is set iff `fromBit <= i < toBit` |
| BitMask.OnesEmpty | n-queens/src/com/dslmeinte/nqueens/BitMask.java:38-42 | `ones(i, i)` is 0 |
| BitMask.OnesValues | n-queens/src/com/dslmeinte/nqueens/BitMask.java:38-42 | `ones(0, 31)` is `Integer.MAX_VALUE`; `ones(0, 1)` is `bits[0]`; `ones(1, 3)` is `bits[1] + bits[2]` |
| BitMask.BitOr | n-queens/src/com/dslmeinte/nqueens/Chessboard.java:86-90 | Java's `|` sets exactly the bits set in either operand |
| BitMask.BitAnd | n-queens/src/com/dslmeinte/nqueens/BitMask.java:30 | Java's `&` sets exactly the bits set in both operands |
| BitMask.BitNot | n-queens/src/com/dslmeinte/nqueens/BitMask.java:30 | Java's `~` flips each of the 32 bits and sets none above them |
| BitMask.BitShiftRightUnsigned | n-queens/src/com/dslmeinte/nqueens/BitMask.java:30 | after `>>> d`, bit `i` is bit `i + d` of the operand |
| BitMask.BitShiftLeft | n-queens/src/com/dslmeinte/nqueens/BitMask.java:42 | after `<< d`, bit `i` is bit `i - d` of the operand for `d <= i < 32`, and is clear otherwise |
| BitMask.BitShiftLeftOne | n-queens/src/com/dslmeinte/nqueens/Chessboard.java:87 | after `<< 1`, bit `i` is bit `i - 1` for `1 <= i < 32`; bit 0 is clear; old bit 31 is lost |
| BitMask.BitShiftRightSigned | n-queens/src/com/dslmeinte/nqueens/Chessboard.java:88 | after `>> 1`, bit `i` is bit `i + 1` below bit 31, and the sign bit stays |
| BitMask.OddRemainder | n-queens/src/com/dslmeinte/nqueens/BitMask.java:52 | Java's `mask % 2 != 0` holds iff bit 0 is set, negative masks included; `Math.abs(mask % 2)` is that bit |
| BitMask.ScanFrom | n-queens/src/com/dslmeinte/nqueens/BitMask.java:45-48 | bit-by-bit oracle: -1 iff no bit in `[i, nrBits)` is set; otherwise the least such set bit |
| BitMask.ScanStep | n-queens/src/com/dslmeinte/nqueens/BitMask.java:55 | `mask >>= 1` brings the next bit of the original mask down to bit 0; the sign bit fills in above |
| BitMask.FirstOneBit | n-queens/src/com/dslmeinte/nqueens/BitMask.java:49-59 | the loop returns the least `i < nrBits` with bit `i` set, or -1: `LowestOne(mask, nrBits)` |
| BitMask.LowestOneLowBits | n-queens/src/com/dslmeinte/nqueens/BitMask.java:49-59 | masks that agree on their low `nrBits` bits give the same result |
| BitMask.LowestOneSignBit | n-queens/src/com/dslmeinte/nqueens/BitMask.java:52-55 | setting the sign bit (a negative mask) does not change the result for `nrBits <= 31` |
| BitMask.FieldBit | n-queens/src/com/dslmeinte/nqueens/BitMask.java:30 | bit `j` of `~(mask >>> fromBit) & ones(0, nrBits - fromBit)` is set iff `j < nrBits - fromBit` and bit `fromBit + j` of the mask is clear |
| BitMask.FieldScan | n-queens/src/com/dslmeinte/nqueens/BitMask.java:29-31 | the first one of that field, offset by `fromBit`, is the first zero of the mask in `[fromBit, nrBits)`; -1 means all ones there |
| BitMask.FirstZeroBit | n-queens/src/com/dslmeinte/nqueens/BitMask.java:22-32 | under Java's assertions: for `fromBit >= 0`, -1 iff every bit in `[fromBit, nrBits)` is set (the empty range included); otherwise `r` with `fromBit <= r < nrBits`, bit `r` clear and every bit in `[fromBit, r)` set |
| BitMask.FirstZeroBitLowBits | n-queens/src/com/dslmeinte/nqueens/BitMask.java:30 | only bits in `[fromBit, nrBits)` decide the result; bits at or above `nrBits` play no part |
| BitMask.FirstZeroBitZeroMask | n-queens/src/com/dslmeinte/nqueens/BitMask.java:26-32 | a zero mask gives `fromBit`, or -1 when `fromBit == nrBits` |
| BitMask.FirstZeroBitLowOnes | n-queens/src/com/dslmeinte/nqueens/BitMask.java:26-32 | a mask of `t` low ones gives `t` when `t < nrBits` and -1 otherwise (mask 3: -1 with 2 bits, 2 with 8 bits) |
| BitMask.FirstZeroBitValues | n-queens/src/com/dslmeinte/nqueens/BitMask.java:26-32 | `firstZeroBit(bits[1], 2, 0) == 0` and `firstZeroBit(bits[1], 2, 1) == -1` |
| BitMask.FirstZeroBitFromMinusOne | n-queens/src/com/dslmeinte/nqueens/BitMask.java:28-31 | `fromBit = -1` passes the assertions; Java then shifts by 31, and a non-negative mask gives -1 |
| BitMask.ToBitString | n-queens/src/com/dslmeinte/nqueens/BitMask.java:61-74 | for a non-negative mask, the string has length `nrBits`, and character `i` is `'1'` iff bit `i` is set (least significant bit first) |
| BitMask.BitStringRoundTrip | n-queens/src/com/dslmeinte/nqueens/BitMask.java:61-74 | reading that string back gives the mask's low `nrBits` bits, `mask & ones(0, nrBits)` |
| Chessboard.NonAttackingExtend | n-queens/src/com/dslmeinte/nqueens/Chessboard.java:83-90 | adding a queen keeps the placement non-attacking iff the old placement was non-attacking and the new column is not covered |
| Chessboard.FreeColumnFrom | n-queens/src/com/dslmeinte/nqueens/Chessboard.java:68-70 | the linear scan for the documented result: -1 or a column in `[from, m)` |
| Chessboard.FreeColumnFromSpec | n-queens/src/com/dslmeinte/nqueens/Chessboard.java:68-70 | the scan finds an unattacked column with every column before it (from `from` on) attacked; -1 means every column in `[from, m)` is attacked |
| Chessboard.FreeColumnFromUnique | n-queens/src/com/dslmeinte/nqueens/Chessboard.java:68-70 | any answer with that description is the scan's answer |
| Chessboard.BitColumnMask | n-queens/src/com/dslmeinte/nqueens/Chessboard.java:86 | bit `c` of the column mask is set iff a queen stands in column `c` |
| Chessboard.BitLeftMask | n-queens/src/com/dslmeinte/nqueens/Chessboard.java:87 | bit `c` of the left-diagonal mask is set iff `c < 32` and a queen's diagonal reaches column `c` of the last row, going one column up per row |
| Chessboard.RightMask | n-queens/src/com/dslmeinte/nqueens/Chessboard.java:88 | the right-diagonal mask never has the sign bit set |
| Chessboard.BitRightMask | n-queens/src/com/dslmeinte/nqueens/Chessboard.java:88 | bit `c` of the right-diagonal mask is set iff a queen's diagonal reaches column `c` of the last row, going one column down per row |
| Chessboard.CoveredByMasks | n-queens/src/com/dslmeinte/nqueens/Chessboard.java:90 | a column of the next row is attacked iff a queen stands in it or a diagonal reaches its neighbour below or above in the last row |
| Chessboard.BitCoverageMask | n-queens/src/com/dslmeinte/nqueens/Chessboard.java:90 | bit `c` of the coverage mask is set iff `c < 32` and some queen attacks column `c` of the next row |
| Chessboard.CoverageMaskBits | n-queens/src/com/dslmeinte/nqueens/Chessboard.java:35-36 | the coverage mask of the queens has exactly their attacked columns as bits |
| Chessboard.FirstZeroBitFreeColumn | n-queens/src/com/dslmeinte/nqueens/Chessboard.java:71-73 | on such a mask, `firstZeroBit` from `from` equals the linear scan `FreeColumnFrom` |
| Chessboard.CoverageScan | n-queens/src/com/dslmeinte/nqueens/Chessboard.java:68-73 | on the mask arrays, scanning `coverageBitMask[k+1]` from `queenColumn[k+1] + 1` gives the first unattacked column of row `k+1` from there |
| Chessboard.EmptyMasks | n-queens/src/com/dslmeinte/nqueens/Chessboard.java:57-60 | with no queen placed, all four masks are 0 |
| Chessboard.RowMasksExtend | n-queens/src/com/dslmeinte/nqueens/Chessboard.java:85-90 | `place`'s four mask formulas give the masks of the queens with the new one appended |
| Chessboard.MasksMatchPlace | n-queens/src/com/dslmeinte/nqueens/Chessboard.java:83-90 | `place`'s writes to index `k+1` (`k+2` for coverage) extend the mask/queen agreement from rows `1..k` to rows `1..k+1` |
| Chessboard.MasksMatchLower | n-queens/src/com/dslmeinte/nqueens/Chessboard.java:105-113 | lowering `k` keeps the agreement, whatever the rows above the new `k` hold |
| Chessboard.AdvanceRaisesRank | n-queens/src/com/dslmeinte/nqueens/Chessboard.java:114-116 | placing a queen in a column beyond those already tried raises the encoded rank |
| Chessboard.BacktrackRaisesRank | n-queens/src/com/dslmeinte/nqueens/Chessboard.java:105-113 | taking back the queen of row `k` raises the encoded rank |
| Chessboard.SearchAdvance | n-queens/src/com/dslmeinte/nqueens/Chessboard.java:114-116 | placing a free column beyond those tried keeps the search state (queens non-attacking, untried rows -1) and raises the rank |
| Chessboard.SearchBacktrack | n-queens/src/com/dslmeinte/nqueens/Chessboard.java:105-113 | the solution-continue branch (column array untouched) and the retreat branch (row `k+1` reset to -1) keep rows `1..k`, keep the search state and raise the rank |
| Chessboard.NextFree | n-queens/src/com/dslmeinte/nqueens/Chessboard.java:68-73 | the column `nextLegalColumn` is meant to find lies after the last tried one and below `m`, or is -1 |
| Chessboard.StepKeepsSearch | n-queens/src/com/dslmeinte/nqueens/Chessboard.java:98-119 | every step of `iterate`'s state machine that does not end the search keeps the search state and raises the rank |
| Chessboard.ContinuedAppend | n-queens/src/com/dslmeinte/nqueens/Chessboard.java:101-105 | after a report the callback declined to stop on, it has declined on every report but the newest |
| Chessboard.ReportedAppend | n-queens/src/com/dslmeinte/nqueens/Chessboard.java:100-101 | reporting a solution ranked above the last keeps the reports all solutions, in strictly increasing rank |
| Chessboard.InitialColumns | n-queens/src/com/dslmeinte/nqueens/Chessboard.java:53-56 | the column array of a new board: length `n + 1`, index 0 unused (0), every row -1 |
| Chessboard.ChainAppend | n-queens/src/com/dslmeinte/nqueens/Chessboard.java:142 | a trace of `iterate` transitions extended by the state its last call leaves is still a chain of transitions |
| Chessboard.ReportsAppend | n-queens/src/com/dslmeinte/nqueens/Chessboard.java:100-101 | the reports along a trace extended by a state are the old reports followed by that state's report |
| Chessboard.Chessboard.CoverageInvariant | n-queens/src/com/dslmeinte/nqueens/Chessboard.java:30-36 | bit `c` of `coverageBitMask[k+1]` is set iff `c < 32` and a queen on rows `1..k` attacks column `c` of row `k+1` |
| Chessboard.Chessboard.constructor | n-queens/src/com/dslmeinte/nqueens/Chessboard.java:51-60 | `k == 0`, `iteration == 0`, `queenColumn[1..n]` all -1, every mask 0; arrays of length `n+1` (coverage `n+2`); the search invariant holds |
| Chessboard.Chessboard.Create | n-queens/src/com/dslmeinte/nqueens/Chessboard.java:44-50 | fails iff `m < 1`, `m >= 32`, `n < 1` or `n > m`, with the side message checked first; otherwise a fresh empty board whose column array is `InitialColumns(n)` |
| Chessboard.Chessboard.NQueensPlaced | n-queens/src/com/dslmeinte/nqueens/Chessboard.java:64-66 | the number of queens placed, between 0 and `n` |
| Chessboard.Chessboard.NextLegalColumn | n-queens/src/com/dslmeinte/nqueens/Chessboard.java:68-73 | corrected line 72: the first column of row `k+1` after the one last tried that no placed queen attacks, or -1 |
| Chessboard.Chessboard.NextLegalColumnAsWritten | n-queens/src/com/dslmeinte/nqueens/Chessboard.java:71-73 | line 72 as written: from a tried column it finds the first unattacked column at or after it; on an unset row (-1) with a non-negative coverage mask it gives -1 |
| Chessboard.Chessboard.EmptyBoardAsWritten | n-queens/src/com/dslmeinte/nqueens/Chessboard.java:72 | on an empty board the call as written returns -1, where the intended search finds column 0 |
| Chessboard.Chessboard.RetriedColumnAsWritten | n-queens/src/com/dslmeinte/nqueens/Chessboard.java:72 | a tried column that is still free is offered again by the call as written |
| Chessboard.Chessboard.Queens | n-queens/src/com/dslmeinte/nqueens/Chessboard.java:122-127 | `queenColumn[1..n]`, whose first `k` entries are the queens placed; on a full board during the search it is a solution |
| Chessboard.Chessboard.Place | n-queens/src/com/dslmeinte/nqueens/Chessboard.java:75-91 | when `k == n`, nothing changes and `false` is returned (the exception). Otherwise `queenColumn[k+1] := column`, `k` goes up by one, and the masks at the new `k` (coverage at `k+1`) become those of the queens placed. Nothing else changes, and the invariant is kept |
| Chessboard.Chessboard.RankRange | n-queens/src/com/dslmeinte/nqueens/Chessboard.java:140-143 | during the search the rank lies in `[0, (2m+2)^n)`; on a full board it is the rank of its solution |
| Chessboard.Chessboard.StepKept | n-queens/src/com/dslmeinte/nqueens/Chessboard.java:105-116 | after a backtracking step (masks untouched) or an advancing one (`place`), the search invariant holds again and the rank has risen |
| Chessboard.Chessboard.Iterate | n-queens/src/com/dslmeinte/nqueens/Chessboard.java:93-119 | `iteration` goes up by exactly 1 and the search invariant is kept. It returns `true` iff the callback quits on a full board or row 1 has no column left, and then `k` and `queenColumn` are unchanged. Otherwise it performs `Step` (continue, retreat or advance) and raises the rank. The masks are untouched unless it places a queen; then only the new row's entries change, to the masks of the queens placed |
| Chessboard.Chessboard.Visit | n-queens/src/com/dslmeinte/nqueens/Chessboard.java:142 | one loop round: `iterate` in the board state `s` is `Final(s)` exactly when it returns `true`, and otherwise it is `Transition(s, new state)`. The history gains `Report(s)`, the queens when the board is full, and stays solutions in increasing rank that the callback declined to stop on |
| Chessboard.Chessboard.MapSolutions | n-queens/src/com/dslmeinte/nqueens/Chessboard.java:136-144 | fails iff the sizes are invalid, with an empty history. Otherwise `trace` is the `Run` of board states in which `iterate` was called: a new board first, each next state the one `iterate` leaves, and the last call ending the search. The result is `|trace|`, the number of steps. `solutions` is `Reports(trace)`, the full boards along it; each is a solution, no two are equal, and the callback declined to stop on all but the last |

## Left out

- `Chessboard.toString` and the `Arrays.toString` rendering are not modelled: they only format text.
- The callback is a pure function `stop` on the queens' columns. In Java it receives the board itself and may act on it (print it, count it). The model does not cover those side effects.
- Chessboard.Chessboard.MapSolutions: does not state that every solution is reported (completeness) or how many solutions there are. The trace pins down the reports exactly, and they are proved to be distinct solutions, but not to be all solutions.
- The JIT, inlining and cache claims, and the parallel-sharding TODO, are not modelled. Neither is implemented as code.
- `iteration` is a `nat`: the overflow of the Java `int` counter is not modelled.
- Java `assert` statements become `requires` clauses (`firstZeroBit`, `ones`, `toString`). The model does not cover running with assertions disabled.
- BitMask.ToBitString: requires a non-negative mask, as the Java assertion does.
- Chessboard.Chessboard.Place: requires `0 <= column < 31`. Java does not check the column, and `bits[31]` is outside the documented range of `bits`. The `IllegalStateException` on a full board is modelled as the result `false` with nothing changed.
- Chessboard.Chessboard.constructor: requires valid sizes. The `IllegalArgumentException` paths are modelled by `Create`, which returns a `Result` holding the Java messages.
- BitMask.FirstZeroBit: its full contract is stated for `fromBit >= 0`. For `fromBit = -1` (reachable through line 72 as written), only the case `FirstZeroBitFromMinusOne` is stated.

## Findings

| source | as written | input that shows it | evidently intended | confidence | as-written member | corrected member |
|---|---|---|---|---|---|---|
| n-queens/src/com/dslmeinte/nqueens/Chessboard.java:72 | `firstZeroBit(coverageBitMask[k + 1], m, queenColumn[k + 1])` starts at the column last tried; when that is -1, Java shifts by 31 and the call returns -1 | a fresh 1 x 1 board (`k = 0`, `queenColumn[1] = -1`, all masks 0): the call gives -1, so the search ends at once with no solution; after a retreat, a tried column that is still free is offered again | search from `queenColumn[k + 1] + 1`, as the doc comment on lines 68-70 says ("which isn't already considered"): column 0 on the empty board | high; not executed | Chessboard.Chessboard.EmptyBoardAsWritten | Chessboard.Chessboard.NextLegalColumn |
