/**
 * The (n, m)-Queens search engine: a chessboard of side `m` on which `n`
 * queens are placed row by row, with bit masks that record which columns
 * the queens placed so far attack in the next row, and a stackless
 * backtracking loop over it.
 *
 * Rows are numbered from 1 as in the arrays of the board; the columns of the
 * queens on rows `1..p` are a sequence `qs` of length `p`, so the queen of
 * row `j + 1` stands in column `qs[j]`.
 */
module Chessboard {
  import opened BitMask

  datatype Result<T> = Success(value: T) | Failure(error: string)

  // ---------------------------------------------------------------------
  // Attacks between queens
  // ---------------------------------------------------------------------

  /** A queen in column `col` attacks column `c` of the row `dist` rows below it. */
  predicate Attacks(col: int, dist: int, c: int)
  {
    col == c || col - c == dist || c - col == dist
  }

  /** Column `c` of the row after the queens `qs` is attacked by one of them. */
  predicate Covered(qs: seq<int>, c: int)
  {
    exists j :: 0 <= j < |qs| && Attacks(qs[j], |qs| - j, c)
  }

  /** No two of the queens `qs` share a column or a diagonal. */
  predicate NonAttacking(qs: seq<int>)
  {
    forall i, j :: 0 <= i < j < |qs| ==> !Attacks(qs[i], j - i, qs[j])
  }

  /** `qs` places `n` queens on a board of side `m`, none attacking another. */
  predicate IsSolution(qs: seq<int>, n: int, m: int)
  {
    |qs| == n && (forall i :: 0 <= i < |qs| ==> 0 <= qs[i] < m) && NonAttacking(qs)
  }

  /** Adding a queen keeps the placement non-attacking exactly when its column is not covered. */
  lemma NonAttackingExtend(qs: seq<int>, c: int)
    ensures NonAttacking(qs + [c]) <==> NonAttacking(qs) && !Covered(qs, c)
  {
    var s := qs + [c];
    if NonAttacking(s) {
      forall i, j | 0 <= i < j < |qs| ensures !Attacks(qs[i], j - i, qs[j]) {
        assert s[i] == qs[i] && s[j] == qs[j];
      }
      forall j | 0 <= j < |qs| ensures !Attacks(qs[j], |qs| - j, c) {
        assert s[j] == qs[j] && s[|qs|] == c;
      }
    }
    if NonAttacking(qs) && !Covered(qs, c) {
      forall i, j | 0 <= i < j < |s| ensures !Attacks(s[i], j - i, s[j]) {
        if j < |qs| {
          assert s[i] == qs[i] && s[j] == qs[j];
        } else {
          assert s[i] == qs[i];
        }
      }
    }
  }

  lemma NonAttackingPrefix(qs: seq<int>, p: int)
    requires NonAttacking(qs) && 0 <= p <= |qs|
    ensures NonAttacking(qs[..p])
  {
    forall i, j | 0 <= i < j < p ensures !Attacks(qs[..p][i], j - i, qs[..p][j]) {
      assert qs[..p][i] == qs[i] && qs[..p][j] == qs[j];
    }
  }

  /** The first column in `[from, m)` that no queen of `qs` attacks, or -1: the search as a linear scan. */
  function FreeColumnFrom(qs: seq<int>, from: int, m: int): (r: int)
    ensures r == -1 || from <= r < m
    decreases m - from
  {
    if from >= m then -1
    else if !Covered(qs, from) then from
    else FreeColumnFrom(qs, from + 1, m)
  }

  /** The scan finds a free column with every column before it in the range attacked, or -1 when all are attacked. */
  lemma {:induction false} FreeColumnFromSpec(qs: seq<int>, from: int, m: int)
    requires 0 <= from
    ensures FreeColumnFrom(qs, from, m) == -1 ==> forall c :: from <= c < m ==> Covered(qs, c)
    ensures FreeColumnFrom(qs, from, m) != -1 ==> !Covered(qs, FreeColumnFrom(qs, from, m))
    ensures forall c :: from <= c < FreeColumnFrom(qs, from, m) ==> Covered(qs, c)
    decreases m - from
  {
    if from < m && Covered(qs, from) {
      FreeColumnFromSpec(qs, from + 1, m);
    }
  }

  /** Any column (or -1) with that characterization is the one the scan finds. */
  lemma {:induction false} FreeColumnFromUnique(qs: seq<int>, from: int, m: int, r: int)
    requires 0 <= from
    requires r == -1 ==> forall c :: from <= c < m ==> Covered(qs, c)
    requires r != -1 ==> from <= r < m && !Covered(qs, r)
    requires forall c :: from <= c < r ==> Covered(qs, c)
    ensures r == FreeColumnFrom(qs, from, m)
    decreases m - from
  {
    if from < m && Covered(qs, from) {
      FreeColumnFromUnique(qs, from + 1, m, r);
    }
  }

  // ---------------------------------------------------------------------
  // The masks as functions of the queens placed
  // ---------------------------------------------------------------------

  /** Every queen stands in a column that has an entry in the `bits` table. */
  predicate Columns(qs: seq<int>)
  {
    forall i :: 0 <= i < |qs| ==> 0 <= qs[i] < 31
  }

  /** `columnBitMask`: the columns of the queens. */
  function ColumnMask(qs: seq<int>): Word
    requires Columns(qs)
  {
    if qs == [] then 0 else Or(ColumnMask(qs[..|qs| - 1]), BitFor(qs[|qs| - 1]))
  }

  /** `leftDiagonalBitMask`: each queen's diagonal, moved one column up per row. */
  function LeftMask(qs: seq<int>): Word
    requires Columns(qs)
  {
    if qs == [] then 0 else Or(ShiftLeftOne(LeftMask(qs[..|qs| - 1])), BitFor(qs[|qs| - 1]))
  }

  /** `rightDiagonalBitMask`: each queen's diagonal, moved one column down per row. */
  function RightMask(qs: seq<int>): (r: Word)
    requires Columns(qs)
    ensures r < 0x8000_0000
  {
    if qs == [] then 0
    else
      var rest := RightMask(qs[..|qs| - 1]);
      Pow2Facts();
      Pow2Monotone(qs[|qs| - 1], 30);
      OrBitsBound(ShiftRightSigned(rest), BitFor(qs[|qs| - 1]), 31);
      Or(ShiftRightSigned(rest), BitFor(qs[|qs| - 1]))
  }

  /** `coverageBitMask`: the columns of the next row that the queens attack. */
  function CoverageMask(qs: seq<int>): Word
    requires Columns(qs)
  {
    Or(Or(ColumnMask(qs), ShiftLeftOne(LeftMask(qs))), ShiftRightSigned(RightMask(qs)))
  }

  /** Some queen of `qs` reaches column `c` of the last row along its left diagonal. */
  predicate LeftHit(qs: seq<int>, c: int)
  {
    exists j :: 0 <= j < |qs| && qs[j] + (|qs| - 1 - j) == c
  }

  /** Some queen of `qs` reaches column `c` of the last row along its right diagonal. */
  predicate RightHit(qs: seq<int>, c: int)
  {
    exists j :: 0 <= j < |qs| && qs[j] - (|qs| - 1 - j) == c
  }

  lemma {:induction false} BitColumnMask(qs: seq<int>, c: nat)
    requires Columns(qs)
    ensures Bit(ColumnMask(qs), c) <==> c in qs
    decreases |qs|
  {
    if qs == [] {
      BitZero(c);
    } else {
      var p := qs[..|qs| - 1];
      assert qs == p + [qs[|qs| - 1]];
      BitColumnMask(p, c);
      BitOr(ColumnMask(p), BitFor(qs[|qs| - 1]), c);
    }
  }

  lemma LeftHitLast(qs: seq<int>, c: int)
    requires |qs| > 0
    ensures LeftHit(qs, c) <==> LeftHit(qs[..|qs| - 1], c - 1) || qs[|qs| - 1] == c
  {
    var p := qs[..|qs| - 1];
    if LeftHit(qs, c) {
      var j :| 0 <= j < |qs| && qs[j] + (|qs| - 1 - j) == c;
      if j < |p| {
        assert p[j] + (|p| - 1 - j) == c - 1;
      }
    }
    if LeftHit(p, c - 1) {
      var j :| 0 <= j < |p| && p[j] + (|p| - 1 - j) == c - 1;
      assert qs[j] + (|qs| - 1 - j) == c;
    }
    if qs[|qs| - 1] == c {
      assert qs[|qs| - 1] + (|qs| - 1 - (|qs| - 1)) == c;
    }
  }

  lemma RightHitLast(qs: seq<int>, c: int)
    requires |qs| > 0
    ensures RightHit(qs, c) <==> RightHit(qs[..|qs| - 1], c + 1) || qs[|qs| - 1] == c
  {
    var p := qs[..|qs| - 1];
    if RightHit(qs, c) {
      var j :| 0 <= j < |qs| && qs[j] - (|qs| - 1 - j) == c;
      if j < |p| {
        assert p[j] - (|p| - 1 - j) == c + 1;
      }
    }
    if RightHit(p, c + 1) {
      var j :| 0 <= j < |p| && p[j] - (|p| - 1 - j) == c + 1;
      assert qs[j] - (|qs| - 1 - j) == c;
    }
    if qs[|qs| - 1] == c {
      assert qs[|qs| - 1] - (|qs| - 1 - (|qs| - 1)) == c;
    }
  }

  /** Diagonals reach only columns at or beyond the queen's own, in their direction. */
  lemma HitBounds(qs: seq<int>, c: int)
    requires Columns(qs)
    ensures LeftHit(qs, c) ==> c >= 0
    ensures RightHit(qs, c) ==> c < 31
  {
  }

  lemma {:induction false} BitLeftMask(qs: seq<int>, c: nat)
    requires Columns(qs)
    ensures Bit(LeftMask(qs), c) <==> c < 32 && LeftHit(qs, c)
    decreases |qs|
  {
    if qs == [] {
      BitZero(c);
    } else {
      var p := qs[..|qs| - 1];
      BitOr(ShiftLeftOne(LeftMask(p)), BitFor(qs[|qs| - 1]), c);
      BitShiftLeftOne(LeftMask(p), c);
      if c >= 1 {
        BitLeftMask(p, c - 1);
      }
      LeftHitLast(qs, c);
      HitBounds(p, c - 1);
    }
  }

  lemma {:induction false} BitRightMask(qs: seq<int>, c: nat)
    requires Columns(qs)
    ensures Bit(RightMask(qs), c) <==> RightHit(qs, c)
    decreases |qs|
  {
    if qs == [] {
      BitZero(c);
    } else {
      var p := qs[..|qs| - 1];
      Pow2Facts();
      BitOr(ShiftRightSigned(RightMask(p)), BitFor(qs[|qs| - 1]), c);
      BitShiftRightSigned(RightMask(p), c);
      BitRightMask(p, c + 1);
      BitsAbove(RightMask(p), 31, 31);
      RightHitLast(qs, c);
      HitBounds(p, c + 1);
    }
  }

  /** A queen attacks a column of the next row along its column or one of its diagonals. */
  lemma CoveredByMasks(qs: seq<int>, c: int)
    ensures Covered(qs, c) <==> c in qs || LeftHit(qs, c - 1) || RightHit(qs, c + 1)
  {
    if Covered(qs, c) {
      var j :| 0 <= j < |qs| && Attacks(qs[j], |qs| - j, c);
      if qs[j] == c {
        assert c in qs;
      } else if qs[j] - c == |qs| - j {
        assert qs[j] - (|qs| - 1 - j) == c + 1;
      } else {
        assert qs[j] + (|qs| - 1 - j) == c - 1;
      }
    }
    if c in qs {
      var j :| 0 <= j < |qs| && qs[j] == c;
      assert Attacks(qs[j], |qs| - j, c);
    }
    if LeftHit(qs, c - 1) {
      var j :| 0 <= j < |qs| && qs[j] + (|qs| - 1 - j) == c - 1;
      assert Attacks(qs[j], |qs| - j, c);
    }
    if RightHit(qs, c + 1) {
      var j :| 0 <= j < |qs| && qs[j] - (|qs| - 1 - j) == c + 1;
      assert Attacks(qs[j], |qs| - j, c);
    }
  }

  /** The coverage mask holds exactly the columns (below 32) attacked by the queens. */
  lemma BitCoverageMask(qs: seq<int>, c: nat)
    requires Columns(qs)
    ensures Bit(CoverageMask(qs), c) <==> c < 32 && Covered(qs, c)
  {
    var col, left, right := ColumnMask(qs), LeftMask(qs), RightMask(qs);
    BitOr(Or(col, ShiftLeftOne(left)), ShiftRightSigned(right), c);
    BitOr(col, ShiftLeftOne(left), c);
    BitColumnMask(qs, c);
    BitShiftLeftOne(left, c);
    if c >= 1 {
      BitLeftMask(qs, c - 1);
    }
    BitShiftRightSigned(right, c);
    BitRightMask(qs, c + 1);
    Pow2Facts();
    BitsAbove(right, 31, 31);
    HitBounds(qs, c + 1);
    HitBounds(qs, c - 1);
    CoveredByMasks(qs, c);
  }

  /** Bit `c` of `cov` is set exactly when `c` is a column (below 32) that a queen of `qs` attacks. */
  ghost predicate CoverageBits(cov: Word, qs: seq<int>)
  {
    forall c: nat :: Bit(cov, c) <==> c < 32 && Covered(qs, c)
  }

  /** The coverage mask of the queens has exactly their attacked columns as bits. */
  lemma CoverageMaskBits(qs: seq<int>)
    requires Columns(qs)
    ensures CoverageBits(CoverageMask(qs), qs)
  {
    forall c: nat ensures Bit(CoverageMask(qs), c) <==> c < 32 && Covered(qs, c) {
      BitCoverageMask(qs, c);
    }
  }

  /** On a mask whose bits are the attacked columns, `firstZeroBit` finds the first column from `from` that no queen attacks. */
  lemma FirstZeroBitFreeColumn(qs: seq<int>, cov: Word, m: int, from: int)
    requires CoverageBits(cov, qs)
    requires 0 < m < 32 && 0 <= from <= m
    ensures FirstZeroBit(cov, m, from) == FreeColumnFrom(qs, from, m)
  {
    FreeColumnFromUnique(qs, from, m, FirstZeroBit(cov, m, from));
  }

  // ---------------------------------------------------------------------
  // The mask arrays, read as sequences
  // ---------------------------------------------------------------------

  /** The columns of the queens of rows `1..i`, from the column array `qcs` (whose index 0 is unused). */
  function Rows(qcs: seq<int>, i: int): (qs: seq<int>)
    requires 0 <= i < |qcs|
    ensures |qs| == i
  {
    qcs[1..i + 1]
  }

  /** The masks of one row index agree with the queens `qs` above it. */
  ghost predicate RowMasksMatch(qs: seq<int>, col: Word, left: Word, right: Word, cov: Word)
  {
    Columns(qs) && col == ColumnMask(qs) && left == LeftMask(qs) && right == RightMask(qs) && cov == CoverageMask(qs)
  }

  /** Entry `i` of each row mask and entry `i + 1` of the coverage describe the queens of rows `1..i`. */
  ghost predicate RowMatches(qcs: seq<int>, cols: seq<Word>, lefts: seq<Word>, rights: seq<Word>, covs: seq<Word>, i: int)
  {
    0 <= i < |qcs| && i < |cols| && i < |lefts| && i < |rights| && i + 1 < |covs| &&
    RowMasksMatch(Rows(qcs, i), cols[i], lefts[i], rights[i], covs[i + 1])
  }

  /** The mask arrays agree with the queens of rows `1..i` for every `i` up to `k`. */
  ghost predicate MasksMatch(qcs: seq<int>, cols: seq<Word>, lefts: seq<Word>, rights: seq<Word>, covs: seq<Word>, k: int)
  {
    RowMatches(qcs, cols, lefts, rights, covs, k) &&
    forall i :: 0 <= i <= k ==> RowMatches(qcs, cols, lefts, rights, covs, i)
  }

  /**
   * Scanning the coverage mask of row `k + 1` from the column after the one
   * last tried there finds the first column from there that no queen of rows
   * `1..k` attacks.
   */
  lemma CoverageScan(qcs: seq<int>, cols: seq<Word>, lefts: seq<Word>, rights: seq<Word>, covs: seq<Word>, k: int, m: int)
    requires RowMatches(qcs, cols, lefts, rights, covs, k)
    requires 0 < m < 32 && k + 1 < |qcs| && -1 <= qcs[k + 1] < m
    ensures FirstZeroBit(covs[k + 1], m, qcs[k + 1] + 1) == FreeColumnFrom(Rows(qcs, k), qcs[k + 1] + 1, m)
  {
    CoverageMaskBits(Rows(qcs, k));
    FirstZeroBitFreeColumn(Rows(qcs, k), covs[k + 1], m, qcs[k + 1] + 1);
  }

  /** With no queen placed every mask is zero. */
  lemma EmptyMasks()
    ensures RowMasksMatch([], 0, 0, 0, 0)
  {
    assert Or(0, 0) == 0;
  }

  /** The updates of `place` describe the queens with one more appended. */
  lemma RowMasksExtend(qs: seq<int>, column: int, col: Word, left: Word, right: Word, cov: Word)
    requires RowMasksMatch(qs, col, left, right, cov)
    requires 0 <= column < 31
    ensures var col' := Or(col, BitFor(column));
      var left' := Or(ShiftLeftOne(left), BitFor(column));
      var right' := Or(ShiftRightSigned(right), BitFor(column));
      RowMasksMatch(qs + [column], col', left', right', Or(Or(col', ShiftLeftOne(left')), ShiftRightSigned(right')))
  {
    var s := qs + [column];
    assert s[..|s| - 1] == qs;
  }

  /** What `place` writes extends the agreement to row `k + 1`. */
  lemma MasksMatchPlace(qcs: seq<int>, cols: seq<Word>, lefts: seq<Word>, rights: seq<Word>, covs: seq<Word>, k: int, column: int)
    requires MasksMatch(qcs, cols, lefts, rights, covs, k)
    requires k + 1 < |qcs| && k + 1 < |cols| && k + 1 < |lefts| && k + 1 < |rights| && k + 2 < |covs|
    requires 0 <= column < 31
    ensures var q := qcs[k + 1 := column];
      var col := Or(cols[k], BitFor(column));
      var left := Or(ShiftLeftOne(lefts[k]), BitFor(column));
      var right := Or(ShiftRightSigned(rights[k]), BitFor(column));
      Rows(q, k + 1) == Rows(qcs, k) + [column] &&
      MasksMatch(q, cols[k + 1 := col], lefts[k + 1 := left], rights[k + 1 := right],
        covs[k + 2 := Or(Or(col, ShiftLeftOne(left)), ShiftRightSigned(right))], k + 1)
  {
    var q := qcs[k + 1 := column];
    var col := Or(cols[k], BitFor(column));
    var left := Or(ShiftLeftOne(lefts[k]), BitFor(column));
    var right := Or(ShiftRightSigned(rights[k]), BitFor(column));
    var cols', lefts', rights' := cols[k + 1 := col], lefts[k + 1 := left], rights[k + 1 := right];
    var covs' := covs[k + 2 := Or(Or(col, ShiftLeftOne(left)), ShiftRightSigned(right))];
    assert Rows(q, k + 1) == Rows(qcs, k) + [column];
    assert RowMatches(qcs, cols, lefts, rights, covs, k);
    RowMasksExtend(Rows(qcs, k), column, cols[k], lefts[k], rights[k], covs[k + 1]);
    assert RowMatches(q, cols', lefts', rights', covs', k + 1);
    forall i | 0 <= i <= k + 1 ensures RowMatches(q, cols', lefts', rights', covs', i) {
      if i <= k {
        assert RowMatches(qcs, cols, lefts, rights, covs, i);
        assert Rows(q, i) == Rows(qcs, i);
      }
    }
  }

  /** Lowering `k` keeps the agreement, whatever happens to the rows above the new `k`. */
  lemma MasksMatchLower(qcs: seq<int>, q: seq<int>, cols: seq<Word>, lefts: seq<Word>, rights: seq<Word>, covs: seq<Word>, k: int, k2: int)
    requires MasksMatch(qcs, cols, lefts, rights, covs, k)
    requires 0 <= k2 <= k && |q| == |qcs| && q[..k2 + 1] == qcs[..k2 + 1]
    ensures MasksMatch(q, cols, lefts, rights, covs, k2)
  {
    forall i | 0 <= i <= k2 ensures RowMatches(q, cols, lefts, rights, covs, i) {
      assert RowMatches(qcs, cols, lefts, rights, covs, i);
      RowsOfPrefix(qcs, q, k2, i);
    }
    assert RowMatches(q, cols, lefts, rights, covs, k2);
  }

  /** Rows `1..i` depend only on the first `j + 1` entries, for `i <= j`. */
  lemma RowsOfPrefix(qcs: seq<int>, q: seq<int>, j: int, i: int)
    requires 0 <= i <= j < |qcs| && |q| == |qcs| && q[..j + 1] == qcs[..j + 1]
    ensures Rows(q, i) == Rows(qcs, i)
  {
    assert Rows(q, i) == q[..j + 1][1..i + 1];
    assert Rows(qcs, i) == qcs[..j + 1][1..i + 1];
  }

  // ---------------------------------------------------------------------
  // Progress of the search: a rank that every step raises
  // ---------------------------------------------------------------------

  function Power(b: nat, e: nat): nat
  {
    if e == 0 then 1 else b * Power(b, e - 1)
  }

  /** Every digit of `ds` lies in `[0, b)`. */
  predicate InBase(ds: seq<int>, b: nat)
  {
    forall i :: 0 <= i < |ds| ==> 0 <= ds[i] < b
  }

  /** The number whose base-`b` digits are `ds`, most significant first. */
  function Encode(ds: seq<int>, b: nat): int
  {
    if ds == [] then 0 else ds[0] * Power(b, |ds| - 1) + Encode(ds[1..], b)
  }

  lemma MulMonotone(a: int, b: int, c: nat)
    requires a <= b
    ensures a * c <= b * c
  {
  }

  /** A digit `d` in front of a number below `p` stays below `b * p`. */
  lemma DigitBound(d: int, e: int, b: nat, p: nat)
    requires 0 <= d < b && 0 <= e < p
    ensures 0 <= d * p + e < b * p
  {
    MulMonotone(d + 1, b, p);
    MulMonotone(0, d, p);
  }

  lemma InBaseTail(ds: seq<int>, b: nat)
    requires InBase(ds, b) && ds != []
    ensures InBase(ds[1..], b)
  {
    forall i | 0 <= i < |ds| - 1 ensures 0 <= ds[1..][i] < b {
      assert ds[1..][i] == ds[i + 1];
    }
  }

  lemma {:induction false} EncodeBound(ds: seq<int>, b: nat)
    requires InBase(ds, b)
    ensures 0 <= Encode(ds, b) < Power(b, |ds|)
    decreases |ds|
  {
    if ds != [] {
      var d, p, rest := ds[0], Power(b, |ds| - 1), ds[1..];
      InBaseTail(ds, b);
      EncodeBound(rest, b);
      assert Encode(ds, b) == d * p + Encode(rest, b);
      assert Power(b, |ds|) == b * p;
      DigitBound(d, Encode(rest, b), b, p);
    }
  }

  /** Encoding is monotone in the lexicographic order of digit sequences. */
  lemma {:induction false} EncodeLess(d1: seq<int>, d2: seq<int>, b: nat, p: int)
    requires |d1| == |d2| && InBase(d1, b) && InBase(d2, b)
    requires 0 <= p < |d1| && d1[..p] == d2[..p] && d1[p] < d2[p]
    ensures Encode(d1, b) < Encode(d2, b)
    decreases p
  {
    var r1, r2 := d1[1..], d2[1..];
    InBaseTail(d1, b);
    InBaseTail(d2, b);
    var pw := Power(b, |d1| - 1);
    assert Encode(d1, b) == d1[0] * pw + Encode(r1, b);
    assert Encode(d2, b) == d2[0] * pw + Encode(r2, b);
    if p == 0 {
      EncodeBound(r1, b);
      EncodeBound(r2, b);
      DigitBound(d1[0], Encode(r1, b), d2[0], pw);
    } else {
      assert d1[0] == d1[..p][0] == d2[..p][0] == d2[0];
      assert r1[..p - 1] == d1[..p][1..] == d2[..p][1..] == r2[..p - 1];
      EncodeLess(r1, r2, b, p - 1);
    }
  }

  /**
   * The digit of a row: `2c + 2` for a row whose queen stands in column `c`,
   * `2c + 3` for the row being filled after columns up to `c` were tried, and
   * 0 for the rows above it.
   */
  function RowDigit(col: int, row: int, k: int): int
  {
    if row <= k then 2 * col + 2 else if row == k + 1 then 2 * col + 3 else 0
  }

  /** The digits of rows `1..|qcs| - 1`, row 1 most significant. */
  function SearchDigits(qcs: seq<int>, k: int): (ds: seq<int>)
    requires |qcs| >= 1
    ensures |ds| == |qcs| - 1
  {
    seq(|qcs| - 1, i requires 0 <= i < |qcs| - 1 => RowDigit(qcs[i + 1], i + 1, k))
  }

  /** Placing a queen in a column beyond those already tried raises the rank. */
  lemma AdvanceRaisesRank(qcs: seq<int>, k: int, c: int, b: nat)
    requires 0 <= k < |qcs| - 1 && qcs[k + 1] < c
    requires InBase(SearchDigits(qcs, k), b) && InBase(SearchDigits(qcs[k + 1 := c], k + 1), b)
    ensures Encode(SearchDigits(qcs, k), b) < Encode(SearchDigits(qcs[k + 1 := c], k + 1), b)
  {
    var d1, d2 := SearchDigits(qcs, k), SearchDigits(qcs[k + 1 := c], k + 1);
    assert d1[..k] == d2[..k];
    EncodeLess(d1, d2, b, k);
  }

  /** Taking the queen of row `k` back, to try its next column, raises the rank. */
  lemma BacktrackRaisesRank(qcs: seq<int>, q: seq<int>, k: int, b: nat)
    requires 1 <= k < |qcs| && |q| == |qcs| && q[..k + 1] == qcs[..k + 1]
    requires InBase(SearchDigits(qcs, k), b) && InBase(SearchDigits(q, k - 1), b)
    ensures Encode(SearchDigits(qcs, k), b) < Encode(SearchDigits(q, k - 1), b)
  {
    var d1, d2 := SearchDigits(qcs, k), SearchDigits(q, k - 1);
    forall i | 0 <= i < k - 1 ensures d1[i] == d2[i] {
      assert q[i + 1] == q[..k + 1][i + 1];
    }
    assert d1[..k - 1] == d2[..k - 1];
    assert q[k] == q[..k + 1][k];
    EncodeLess(d1, d2, b, k - 1);
  }

  /** The rank of a full board, as a function of its queens. */
  function SolutionRank(qs: seq<int>, m: int): int
    requires 0 <= m
  {
    Encode(seq(|qs|, i requires 0 <= i < |qs| => 2 * qs[i] + 2), 2 * m + 2)
  }

  // ---------------------------------------------------------------------
  // The state of the search, on the column array read as a sequence
  // ---------------------------------------------------------------------

  /**
   * Rows `1..k` hold non-attacking queens on the board of side `m`, row
   * `k + 1` has tried columns up to `qcs[k + 1]` (-1: none yet), and the rows
   * above it hold -1.
   */
  ghost predicate SearchState(qcs: seq<int>, k: int, n: int, m: int)
  {
    0 <= m && |qcs| == n + 1 && 0 <= k <= n &&
    (forall r :: 1 <= r <= k ==> 0 <= qcs[r] < m) &&
    NonAttacking(Rows(qcs, k)) &&
    (k < n ==> -1 <= qcs[k + 1] < m) &&
    (forall r :: k + 1 < r <= n ==> qcs[r] == -1)
  }

  /** The progress of the search: the row digits read as a number in base `2m + 2`. */
  ghost function StateRank(qcs: seq<int>, k: int, m: int): int
    requires |qcs| >= 1 && 0 <= m
  {
    Encode(SearchDigits(qcs, k), 2 * m + 2)
  }

  /** In a search state every row digit lies in `[0, 2m + 2)`. */
  lemma SearchDigitsInBase(qcs: seq<int>, k: int, n: int, m: int)
    requires SearchState(qcs, k, n, m)
    ensures InBase(SearchDigits(qcs, k), 2 * m + 2)
  {
    var ds := SearchDigits(qcs, k);
    forall i | 0 <= i < |ds| ensures 0 <= ds[i] < 2 * m + 2 {
      assert ds[i] == RowDigit(qcs[i + 1], i + 1, k);
    }
  }

  /** Placing a queen on row `k + 1` in a free column beyond those tried keeps the search state and raises the rank. */
  lemma SearchAdvance(qcs: seq<int>, k: int, n: int, m: int, c: int)
    requires SearchState(qcs, k, n, m) && k < n
    requires qcs[k + 1] < c < m && !Covered(Rows(qcs, k), c)
    ensures Rows(qcs[k + 1 := c], k + 1) == Rows(qcs, k) + [c]
    ensures SearchState(qcs[k + 1 := c], k + 1, n, m)
    ensures StateRank(qcs, k, m) < StateRank(qcs[k + 1 := c], k + 1, m)
  {
    var q := qcs[k + 1 := c];
    assert Rows(q, k + 1) == Rows(qcs, k) + [c];
    NonAttackingExtend(Rows(qcs, k), c);
    SearchDigitsInBase(qcs, k, n, m);
    SearchDigitsInBase(q, k + 1, n, m);
    AdvanceRaisesRank(qcs, k, c, 2 * m + 2);
  }

  /**
   * Taking back the queen of row `k`, so that its row is the one being
   * filled again, keeps the search state and raises the rank; `q` is the
   * column array afterwards, with row `k + 1` (if any) cleared to -1.
   */
  lemma SearchBacktrack(qcs: seq<int>, q: seq<int>, k: int, n: int, m: int)
    requires SearchState(qcs, k, n, m) && 1 <= k
    requires q == if k < n then qcs[k + 1 := -1] else qcs
    ensures q[..k + 1] == qcs[..k + 1]
    ensures SearchState(q, k - 1, n, m)
    ensures StateRank(qcs, k, m) < StateRank(q, k - 1, m)
  {
    assert q[..k + 1] == qcs[..k + 1];
    assert Rows(q, k - 1) == Rows(qcs, k)[..k - 1];
    NonAttackingPrefix(Rows(qcs, k), k - 1);
    SearchDigitsInBase(qcs, k, n, m);
    SearchDigitsInBase(q, k - 1, n, m);
    BacktrackRaisesRank(qcs, q, k, 2 * m + 2);
  }

  /** The free column `nextLegalColumn` is meant to find for row `k + 1`, or -1 (also on a full board). */
  function NextFree(qcs: seq<int>, k: int, n: int, m: int): (r: int)
    requires 0 <= k <= n < |qcs|
    ensures r == -1 || (k < n && qcs[k + 1] < r < m)
  {
    if k < n then FreeColumnFrom(Rows(qcs, k), qcs[k + 1] + 1, m) else -1
  }

  /**
   * The column array and `k` after a step of `iterate` that does not end
   * the search: on a full board the last queen is taken back; otherwise the
   * free column `next` goes on row `k + 1`, or, when there is none (-1),
   * that row is cleared and the queen below it taken back.
   */
  function Step(qcs: seq<int>, k: int, n: int, next: int): (seq<int>, int)
    requires 0 <= k <= n < |qcs|
  {
    if k == n then (qcs, k - 1)
    else if next == -1 then (qcs[k + 1 := -1], k - 1)
    else (qcs[k + 1 := next], k + 1)
  }

  /** The search continues unless the callback stops it on a full board or the first row has no column left. */
  predicate Ends(qcs: seq<int>, k: int, n: int, m: int, quit: bool)
    requires 0 <= k <= n < |qcs|
  {
    if k == n then quit else k == 0 && NextFree(qcs, k, n, m) == -1
  }

  /**
   * A step that does not end the search keeps the search state and raises
   * the rank; `q` and `k'` are the column array and `k` after it.
   */
  lemma StepKeepsSearch(qcs: seq<int>, k: int, n: int, m: int, quit: bool, q: seq<int>, k': int)
    requires SearchState(qcs, k, n, m) && 1 <= n && !Ends(qcs, k, n, m, quit)
    requires (q, k') == Step(qcs, k, n, NextFree(qcs, k, n, m))
    ensures SearchState(q, k', n, m)
    ensures StateRank(qcs, k, m) < StateRank(q, k', m)
  {
    var free := NextFree(qcs, k, n, m);
    if k == n {
      SearchBacktrack(qcs, q, k, n, m);
    } else if free == -1 {
      SearchBacktrack(qcs, q, k, n, m);
    } else {
      FreeColumnFromSpec(Rows(qcs, k), qcs[k + 1] + 1, m);
      SearchAdvance(qcs, k, n, m, free);
    }
  }

  // ---------------------------------------------------------------------
  // A whole run of `mapSolutions`, on board states (column array, `k`)
  // ---------------------------------------------------------------------

  /** The column array of a new board: index 0 unused (0), every row -1. */
  function InitialColumns(n: nat): (qcs: seq<int>)
    ensures |qcs| == n + 1 && qcs[0] == 0
    ensures forall r :: 1 <= r <= n ==> qcs[r] == -1
  {
    [0] + seq(n, _ => -1)
  }

  /** On the board state `s`, full, the callback says to stop. */
  predicate Quits(s: (seq<int>, int), n: int, stop: seq<int> -> bool)
  {
    s.1 == n && 0 <= n < |s.0| && stop(Rows(s.0, n))
  }

  /** `iterate` called in the board state `s` ends the search. */
  predicate Final(s: (seq<int>, int), n: int, m: int, stop: seq<int> -> bool)
  {
    0 <= s.1 <= n < |s.0| && Ends(s.0, s.1, n, m, Quits(s, n, stop))
  }

  /** `iterate` called in the board state `s` goes on and leaves the state `t`. */
  predicate Transition(s: (seq<int>, int), t: (seq<int>, int), n: int, m: int, stop: seq<int> -> bool)
  {
    0 <= s.1 <= n < |s.0| && !Ends(s.0, s.1, n, m, Quits(s, n, stop)) &&
    t == Step(s.0, s.1, n, NextFree(s.0, s.1, n, m))
  }

  /** Each state of `trace` is followed by the one `iterate` leaves. */
  predicate Chain(trace: seq<(seq<int>, int)>, n: int, m: int, stop: seq<int> -> bool)
  {
    forall i :: 0 <= i < |trace| - 1 ==> Transition(trace[i], trace[i + 1], n, m, stop)
  }

  /**
   * `trace` lists the board states in which `iterate` is called, in order:
   * it starts on a new board, every call but the last goes on to the next
   * state, and the last call ends the search.
   */
  predicate Run(trace: seq<(seq<int>, int)>, n: int, m: int, stop: seq<int> -> bool)
  {
    0 <= n && |trace| >= 1 && trace[0] == (InitialColumns(n), 0) &&
    Chain(trace, n, m, stop) && Final(trace[|trace| - 1], n, m, stop)
  }

  /** What a call of `iterate` in the state `s` hands to the callback: the queens, when the board is full. */
  function Report(s: (seq<int>, int), n: int): seq<seq<int>>
  {
    if s.1 == n && 0 <= n < |s.0| then [Rows(s.0, n)] else []
  }

  /** The boards handed to the callback along `trace`, in order. */
  function Reports(trace: seq<(seq<int>, int)>, n: int): seq<seq<int>>
  {
    if trace == [] then [] else Reports(trace[..|trace| - 1], n) + Report(trace[|trace| - 1], n)
  }

  lemma ChainAppend(trace: seq<(seq<int>, int)>, s: (seq<int>, int), n: int, m: int, stop: seq<int> -> bool)
    requires Chain(trace, n, m, stop)
    requires |trace| > 0 ==> Transition(trace[|trace| - 1], s, n, m, stop)
    ensures Chain(trace + [s], n, m, stop)
  {
    var t := trace + [s];
    forall i | 0 <= i < |t| - 1 ensures Transition(t[i], t[i + 1], n, m, stop) {
      assert t[i] == trace[i];
      if i + 1 < |trace| {
        assert t[i + 1] == trace[i + 1];
      }
    }
  }

  lemma ReportsAppend(trace: seq<(seq<int>, int)>, s: (seq<int>, int), n: int)
    ensures Reports(trace + [s], n) == Reports(trace, n) + Report(s, n)
  {
    assert (trace + [s])[..|trace|] == trace;
  }

  // ---------------------------------------------------------------------
  // The solutions handed to the callback
  // ---------------------------------------------------------------------

  /** The callback asked to go on after every report but the last. */
  ghost predicate Continued(sols: seq<seq<int>>, stop: seq<int> -> bool)
  {
    forall i :: 0 <= i < |sols| - 1 ==> !stop(sols[i])
  }

  lemma ContinuedAppend(sols: seq<seq<int>>, stop: seq<int> -> bool, qs: seq<int>)
    requires Continued(sols, stop) && (|sols| > 0 ==> !stop(sols[|sols| - 1]))
    ensures Continued(sols + [qs], stop)
  {
    var s := sols + [qs];
    forall i | 0 <= i < |s| - 1 ensures !stop(s[i]) {
      assert s[i] == sols[i];
    }
  }

  /** Every board reported is a solution, and their ranks strictly increase (so no board is reported twice). */
  ghost predicate Reported(sols: seq<seq<int>>, n: int, m: int)
    requires 0 <= m
  {
    (forall i :: 0 <= i < |sols| ==> IsSolution(sols[i], n, m)) &&
    (forall i, j :: 0 <= i < j < |sols| ==> SolutionRank(sols[i], m) < SolutionRank(sols[j], m))
  }

  /** Reporting a solution ranked above the last one keeps the reports in order. */
  lemma {:induction false} ReportedAppend(sols: seq<seq<int>>, qs: seq<int>, n: int, m: int)
    requires 0 <= m && Reported(sols, n, m) && IsSolution(qs, n, m)
    requires |sols| > 0 ==> SolutionRank(sols[|sols| - 1], m) < SolutionRank(qs, m)
    ensures Reported(sols + [qs], n, m)
  {
    var s := sols + [qs];
    forall i, j | 0 <= i < j < |s| ensures SolutionRank(s[i], m) < SolutionRank(s[j], m) {
      if j < |sols| {
        assert s[i] == sols[i] && s[j] == sols[j];
      } else if i < |sols| - 1 {
        assert SolutionRank(sols[i], m) < SolutionRank(sols[|sols| - 1], m);
      }
    }
  }

  // ---------------------------------------------------------------------
  // The board
  // ---------------------------------------------------------------------

  /** The sizes the constructor accepts: sides of 1..31 and 1..m queens. */
  predicate ValidSize(n: int, m: int)
  {
    1 <= m < 32 && 1 <= n <= m
  }

  const SideError := "length of sides of board must lie in the range 1..31"
  const QueensError := "number of queens must lie in the range 1..(lengthOfBoardSides)"

  class Chessboard {
    /** Number of queens to be placed. */
    const n: int
    /** Length of both sides of the board. */
    const m: int
    /** Number of queens placed. */
    var k: int
    /** Number of calls of `Iterate` so far. */
    var iteration: nat
    /** `queenColumn[i]`: the column of the queen of row `i`, -1 while none was tried (index 0 unused). */
    const queenColumn: array<int>
    /** Index `i`: the columns of the queens of rows `1..i`. */
    const columnBitMask: array<Word>
    /** Index `i`: the diagonals of the queens of rows `1..i`, towards higher columns. */
    const leftDiagonalBitMask: array<Word>
    /** Index `i`: the diagonals of the queens of rows `1..i`, towards lower columns. */
    const rightDiagonalBitMask: array<Word>
    /** Index `i + 1`: the columns of row `i + 1` attacked by the queens of rows `1..i`. */
    const coverageBitMask: array<Word>

    /** The class invariant: sizes, array lengths, `0 <= k <= n`, and masks that agree with the queens placed. */
    ghost predicate Valid()
      reads `k, queenColumn, columnBitMask, leftDiagonalBitMask, rightDiagonalBitMask, coverageBitMask
    {
      ValidSize(n, m) &&
      queenColumn.Length == n + 1 && columnBitMask.Length == n + 1 && leftDiagonalBitMask.Length == n + 1 &&
      rightDiagonalBitMask.Length == n + 1 && coverageBitMask.Length == n + 2 &&
      columnBitMask != leftDiagonalBitMask && columnBitMask != rightDiagonalBitMask &&
      columnBitMask != coverageBitMask && leftDiagonalBitMask != rightDiagonalBitMask &&
      leftDiagonalBitMask != coverageBitMask && rightDiagonalBitMask != coverageBitMask &&
      0 <= k <= n &&
      MasksMatch(queenColumn[..], columnBitMask[..], leftDiagonalBitMask[..], rightDiagonalBitMask[..], coverageBitMask[..], k)
    }

    /** The columns of the queens placed, rows `1..k`. */
    ghost function Placed(): seq<int>
      reads `k, queenColumn, columnBitMask, leftDiagonalBitMask, rightDiagonalBitMask, coverageBitMask
      requires Valid()
    {
      Rows(queenColumn[..], k)
    }

    /**
     * The invariant of the search loop: besides `Valid`, the queens placed
     * are on the board and attack no other, the row being filled has tried
     * columns below `m` (or none, -1), and rows above it hold -1.
     */
    ghost predicate Searching()
      reads `k, queenColumn, columnBitMask, leftDiagonalBitMask, rightDiagonalBitMask, coverageBitMask
    {
      Valid() && SearchState(queenColumn[..], k, n, m)
    }

    /** The coverage invariant: bit `c` of the next row's coverage is set iff a placed queen attacks column `c`. */
    lemma CoverageInvariant()
      requires Valid()
      ensures CoverageBits(coverageBitMask[k + 1], Placed())
    {
      assert RowMatches(queenColumn[..], columnBitMask[..], leftDiagonalBitMask[..], rightDiagonalBitMask[..], coverageBitMask[..], k);
      CoverageMaskBits(Placed());
    }

    /** The validating constructor: a board with no queen placed and no column tried. */
    constructor (numberOfQueens: int, lengthOfBoardSides: int)
      requires ValidSize(numberOfQueens, lengthOfBoardSides)
      ensures n == numberOfQueens && m == lengthOfBoardSides
      ensures k == 0 && iteration == 0
      ensures Searching()
      ensures fresh(queenColumn) && fresh(columnBitMask) && fresh(leftDiagonalBitMask)
      ensures fresh(rightDiagonalBitMask) && fresh(coverageBitMask)
      ensures queenColumn[0] == 0 && forall r :: 1 <= r <= n ==> queenColumn[r] == -1
      ensures forall i :: 0 <= i <= n ==> columnBitMask[i] == 0 && leftDiagonalBitMask[i] == 0 && rightDiagonalBitMask[i] == 0
      ensures forall i :: 0 <= i <= n + 1 ==> coverageBitMask[i] == 0
    {
      n := numberOfQueens;
      m := lengthOfBoardSides;
      k := 0;
      iteration := 0;
      var columns := new int[numberOfQueens + 1](_ => 0);
      var i := 1;
      while i <= numberOfQueens
        invariant 1 <= i <= numberOfQueens + 1
        invariant columns[0] == 0
        invariant forall r :: 1 <= r < i ==> columns[r] == -1
      {
        columns[i] := -1;
        i := i + 1;
      }
      queenColumn := columns;
      columnBitMask := new Word[numberOfQueens + 1](_ => 0);
      leftDiagonalBitMask := new Word[numberOfQueens + 1](_ => 0);
      rightDiagonalBitMask := new Word[numberOfQueens + 1](_ => 0);
      coverageBitMask := new Word[numberOfQueens + 2](_ => 0);
      new;
      EmptyMasks();
      assert Rows(queenColumn[..], 0) == [];
      assert RowMatches(queenColumn[..], columnBitMask[..], leftDiagonalBitMask[..], rightDiagonalBitMask[..], coverageBitMask[..], 0);
    }

    /** The constructor's argument checks: each rejected size is reported with its message. */
    static method Create(numberOfQueens: int, lengthOfBoardSides: int) returns (r: Result<Chessboard>)
      ensures r.Failure? <==> !ValidSize(numberOfQueens, lengthOfBoardSides)
      ensures r.Failure? ==> r.error == if lengthOfBoardSides < 1 || lengthOfBoardSides >= 32 then SideError else QueensError
      ensures r.Success? ==> fresh(r.value) && fresh(r.value.queenColumn) && fresh(r.value.columnBitMask)
      ensures r.Success? ==> fresh(r.value.leftDiagonalBitMask) && fresh(r.value.rightDiagonalBitMask)
      ensures r.Success? ==> fresh(r.value.coverageBitMask)
      ensures r.Success? ==> r.value.n == numberOfQueens && r.value.m == lengthOfBoardSides
      ensures r.Success? ==> r.value.k == 0 && r.value.iteration == 0 && r.value.Searching()
      ensures r.Success? ==> r.value.queenColumn[..] == InitialColumns(numberOfQueens)
    {
      if lengthOfBoardSides < 1 || lengthOfBoardSides >= 32 {
        return Failure(SideError);
      }
      if numberOfQueens < 1 || numberOfQueens > lengthOfBoardSides {
        return Failure(QueensError);
      }
      var board := new Chessboard(numberOfQueens, lengthOfBoardSides);
      assert board.queenColumn[..] == InitialColumns(numberOfQueens);
      return Success(board);
    }

    /** `nQueensPlaced`: the number of queens on the board. */
    function NQueensPlaced(): (r: int)
      reads `k, queenColumn, columnBitMask, leftDiagonalBitMask, rightDiagonalBitMask, coverageBitMask
      requires Valid()
      ensures r == |Placed()| && 0 <= r <= n
    {
      k
    }

    /**
     * `nextLegalColumn`, as intended: the first column of row `k + 1` after
     * the one last tried there that no placed queen attacks, or -1.
     */
    method NextLegalColumn() returns (r: int)
      requires Valid() && k < n && -1 <= queenColumn[k + 1] < m
      ensures r == FreeColumn()
    {
      assert RowMatches(queenColumn[..], columnBitMask[..], leftDiagonalBitMask[..], rightDiagonalBitMask[..], coverageBitMask[..], k);
      CoverageScan(queenColumn[..], columnBitMask[..], leftDiagonalBitMask[..], rightDiagonalBitMask[..], coverageBitMask[..], k, m);
      r := FirstZeroBit(coverageBitMask[k + 1], m, queenColumn[k + 1] + 1);
    }

    /** The column `nextLegalColumn` is meant to find: the scan from the column after the one last tried. */
    ghost function FreeColumn(): int
      reads `k, queenColumn, columnBitMask, leftDiagonalBitMask, rightDiagonalBitMask, coverageBitMask
      requires Valid()
    {
      NextFree(queenColumn[..], k, n, m)
    }

    /**
     * `nextLegalColumn` as written: the search starts at the column last
     * tried rather than after it.  The requires include the assertion of
     * `ones` that the call reaches.
     */
    function NextLegalColumnAsWritten(): (r: int)
      reads `k, queenColumn, columnBitMask, leftDiagonalBitMask, rightDiagonalBitMask, coverageBitMask
      requires Valid() && k < n && -1 <= queenColumn[k + 1] < m && m - queenColumn[k + 1] < 32
      ensures 0 <= queenColumn[k + 1] && r == -1 ==> forall c :: queenColumn[k + 1] <= c < m ==> Covered(Placed(), c)
      ensures 0 <= queenColumn[k + 1] && r != -1 ==> queenColumn[k + 1] <= r < m && !Covered(Placed(), r)
      ensures 0 <= queenColumn[k + 1] && r != -1 ==> forall c :: queenColumn[k + 1] <= c < r ==> Covered(Placed(), c)
      ensures queenColumn[k + 1] == -1 && coverageBitMask[k + 1] < 0x8000_0000 ==> r == -1
    {
      CoverageInvariant();
      var r := FirstZeroBit(coverageBitMask[k + 1], m, queenColumn[k + 1]);
      if queenColumn[k + 1] == -1 && coverageBitMask[k + 1] < 0x8000_0000 then
        FirstZeroBitFromMinusOne(coverageBitMask[k + 1], m);
        r
      else
        r
    }

    /** On an empty board the call as written finds no column at all; the intended one finds column 0. */
    lemma EmptyBoardAsWritten()
      requires Valid() && k == 0 && queenColumn[1] == -1 && m <= 30
      ensures NextLegalColumnAsWritten() == -1
      ensures FreeColumn() == 0
    {
      assert RowMatches(queenColumn[..], columnBitMask[..], leftDiagonalBitMask[..], rightDiagonalBitMask[..], coverageBitMask[..], 0);
      assert Rows(queenColumn[..], 0) == [];
      EmptyMasks();
      assert coverageBitMask[1] == 0;
      assert !Covered([], 0);
    }

    /** A column already tried and still free is offered again by the call as written. */
    lemma RetriedColumnAsWritten()
      requires Valid() && k < n && 0 <= queenColumn[k + 1] < m
      requires !Covered(Placed(), queenColumn[k + 1])
      ensures NextLegalColumnAsWritten() == queenColumn[k + 1]
    {
      var r := NextLegalColumnAsWritten();
      assert r != -1;
      assert !(queenColumn[k + 1] < r);
    }

    /** `queens`: the columns of rows `1..n`; on a full board in the search, a solution. */
    function Queens(): (r: seq<int>)
      reads `k, queenColumn, columnBitMask, leftDiagonalBitMask, rightDiagonalBitMask, coverageBitMask
      requires 0 <= n && queenColumn.Length == n + 1
      ensures |r| == n
      ensures Valid() ==> r[..k] == Placed()
      ensures Searching() && k == n ==> IsSolution(r, n, m)
    {
      queenColumn[1..n + 1]
    }

    /**
     * `place`: puts the next queen on row `k + 1` in `column` and extends the
     * masks by one row; on a full board it changes nothing and reports it.
     */
    method Place(column: int) returns (ok: bool)
      requires Valid()
      requires 0 <= column < 31
      modifies this, queenColumn, columnBitMask, leftDiagonalBitMask, rightDiagonalBitMask, coverageBitMask
      ensures Valid()
      ensures iteration == old(iteration)
      ensures ok == (old(k) < n)
      ensures !ok ==> k == old(k) && queenColumn[..] == old(queenColumn[..]) && columnBitMask[..] == old(columnBitMask[..])
      ensures !ok ==> leftDiagonalBitMask[..] == old(leftDiagonalBitMask[..]) && rightDiagonalBitMask[..] == old(rightDiagonalBitMask[..])
      ensures !ok ==> coverageBitMask[..] == old(coverageBitMask[..])
      ensures ok ==> k == old(k) + 1 && Placed() == old(Placed()) + [column]
      ensures ok ==> queenColumn[..] == old(queenColumn[..])[k := column]
      ensures ok ==> columnBitMask[..] == old(columnBitMask[..])[k := ColumnMask(Placed())]
      ensures ok ==> leftDiagonalBitMask[..] == old(leftDiagonalBitMask[..])[k := LeftMask(Placed())]
      ensures ok ==> rightDiagonalBitMask[..] == old(rightDiagonalBitMask[..])[k := RightMask(Placed())]
      ensures ok ==> coverageBitMask[..] == old(coverageBitMask[..])[k + 1 := CoverageMask(Placed())]
    {
      if k == n {
        return false;
      }
      ghost var q0, c0, l0, r0, v0 := queenColumn[..], columnBitMask[..], leftDiagonalBitMask[..], rightDiagonalBitMask[..], coverageBitMask[..];
      queenColumn[k + 1] := column;
      assert queenColumn[..] == q0[k + 1 := column];
      var nextQueenBitMask := BitFor(column);
      columnBitMask[k + 1] := Or(columnBitMask[k], nextQueenBitMask);
      assert columnBitMask[..] == c0[k + 1 := Or(c0[k], nextQueenBitMask)];
      leftDiagonalBitMask[k + 1] := Or(ShiftLeftOne(leftDiagonalBitMask[k]), nextQueenBitMask);
      assert leftDiagonalBitMask[..] == l0[k + 1 := Or(ShiftLeftOne(l0[k]), nextQueenBitMask)];
      rightDiagonalBitMask[k + 1] := Or(ShiftRightSigned(rightDiagonalBitMask[k]), nextQueenBitMask);
      assert rightDiagonalBitMask[..] == r0[k + 1 := Or(ShiftRightSigned(r0[k]), nextQueenBitMask)];
      k := k + 1;
      coverageBitMask[k + 1] := Or(Or(columnBitMask[k], ShiftLeftOne(leftDiagonalBitMask[k])), ShiftRightSigned(rightDiagonalBitMask[k]));
      MasksMatchPlace(q0, c0, l0, r0, v0, k - 1, column);
      return true;
    }
  
    /** The progress of the search, `StateRank` of the board. */
    ghost function Rank(): int
      reads `k, queenColumn
      requires 1 <= queenColumn.Length && 0 <= m
    {
      StateRank(queenColumn[..], k, m)
    }

    /**
     * During the search every digit is below the base, so the rank lies in
     * `[0, (2m + 2)^n)`; on a full board it is the rank of its solution.
     */
    lemma RankRange()
      requires queenColumn.Length == n + 1 && SearchState(queenColumn[..], k, n, m)
      ensures 0 <= Rank() < Power(2 * m + 2, n)
      ensures k == n ==> Rank() == SolutionRank(Queens(), m)
    {
      SearchDigitsInBase(queenColumn[..], k, n, m);
      EncodeBound(SearchDigits(queenColumn[..], k), 2 * m + 2);
      if k == n {
        var qs := Queens();
        assert SearchDigits(queenColumn[..], k) == seq(|qs|, i requires 0 <= i < |qs| => 2 * qs[i] + 2);
      }
    }

    /** The four mask arrays are as they were. */
    twostate predicate MasksUnchanged()
      reads columnBitMask, leftDiagonalBitMask, rightDiagonalBitMask, coverageBitMask
    {
      columnBitMask[..] == old(columnBitMask[..]) && leftDiagonalBitMask[..] == old(leftDiagonalBitMask[..]) &&
      rightDiagonalBitMask[..] == old(rightDiagonalBitMask[..]) && coverageBitMask[..] == old(coverageBitMask[..])
    }

    /**
     * The masks after `place`: the entries of row `k` (of the coverage: `k + 1`)
     * are those of the queens placed, and the other entries are as they were.
     */
    twostate predicate MasksPlaced()
      reads `k, queenColumn, columnBitMask, leftDiagonalBitMask, rightDiagonalBitMask, coverageBitMask
      requires Valid()
    {
      columnBitMask[..] == old(columnBitMask[..])[k := ColumnMask(Placed())] &&
      leftDiagonalBitMask[..] == old(leftDiagonalBitMask[..])[k := LeftMask(Placed())] &&
      rightDiagonalBitMask[..] == old(rightDiagonalBitMask[..])[k := RightMask(Placed())] &&
      coverageBitMask[..] == old(coverageBitMask[..])[k + 1 := CoverageMask(Placed())]
    }

    /**
     * A step of `iterate` that does not end the search: the column array and
     * `k` are those of `Step`; when the step backtracks (a full board after
     * the callback, or no column left on row `k + 1`) the masks are
     * untouched, and when it advances `place` has kept them valid.  The
     * search state holds again and the rank has risen.
     */
    twostate lemma StepKept()
      requires old(Searching()) && !Ends(old(queenColumn[..]), old(k), n, m, false)
      requires (queenColumn[..], k) == Step(old(queenColumn[..]), old(k), n, old(FreeColumn()))
      requires old(k) < n && old(FreeColumn()) != -1 ==> Valid()
      requires old(k) == n || old(FreeColumn()) == -1 ==> MasksUnchanged()
      ensures Searching() && old(Rank()) < Rank()
    {
      var q0, k0 := old(queenColumn[..]), old(k);
      if k0 == n || old(FreeColumn()) == -1 {
        assert queenColumn[..][..k0] == q0[..k0];
        MasksMatchLower(q0, queenColumn[..], columnBitMask[..], leftDiagonalBitMask[..], rightDiagonalBitMask[..], coverageBitMask[..], k0, k0 - 1);
      }
      StepKeepsSearch(q0, k0, n, m, false, queenColumn[..], k);
    }

    /**
     * `iterate`: one step of the search.  On a full board the callback is
     * asked whether to stop; otherwise the next legal column of row `k + 1`
     * is taken (advance), or the row is cleared and the queen below it taken
     * back (retreat), or, on the first row, the search ends.  Every step
     * that does not end the search raises the rank.
     */
    method Iterate(stop: seq<int> -> bool) returns (done: bool)
      requires Searching()
      modifies this, queenColumn, columnBitMask, leftDiagonalBitMask, rightDiagonalBitMask, coverageBitMask
      ensures Searching()
      ensures iteration == old(iteration) + 1
      ensures done == Ends(old(queenColumn[..]), old(k), n, m, old(k) == n && stop(old(Queens())))
      ensures done ==> k == old(k) && queenColumn[..] == old(queenColumn[..])
      ensures !done ==> (queenColumn[..], k) == Step(old(queenColumn[..]), old(k), n, old(FreeColumn()))
      ensures !done ==> old(Rank()) < Rank()
      ensures old(k) == n || old(FreeColumn()) == -1 ==> MasksUnchanged()
      ensures old(k) < n && old(FreeColumn()) != -1 ==> MasksPlaced()
    {
      ghost var q0, k0 := queenColumn[..], k;
      iteration := iteration + 1;
      assert queenColumn[..] == q0 && Searching();
      done := false;
      if k == n {
        var quit := stop(Queens());
        if quit {
          done := true;
        } else {
          k := k - 1;
        }
        assert MasksUnchanged();
      } else {
        var columnToPlace := NextLegalColumn();
        if columnToPlace == -1 {
          if k == 0 {
            done := true;
          } else {
            queenColumn[k + 1] := -1;
            assert queenColumn[..] == q0[k0 + 1 := -1];
            k := k - 1;
          }
          assert MasksUnchanged();
        } else {
          var ok := Place(columnToPlace);
          assert MasksPlaced();
        }
      }
      if !done {
        StepKept();
      }
    }

    /**
     * What the callback has seen so far: the boards handed to it are
     * solutions in increasing rank, it asked to go on after each but the
     * last, and while the search goes on also after the last, whose rank is
     * below the current one.
     */
    ghost predicate Trail(sols: seq<seq<int>>, stop: seq<int> -> bool, done: bool)
      reads `k, queenColumn
      requires 1 <= queenColumn.Length && 0 <= m
    {
      Reported(sols, n, m) && Continued(sols, stop) &&
      (!done && |sols| > 0 ==> !stop(sols[|sols| - 1]) && SolutionRank(sols[|sols| - 1], m) < Rank())
    }

    /**
     * One round of `mapSolutions`'s loop: `iterate`, with the boards handed
     * to the callback so far kept as a ghost history.  The round is the
     * `Transition` of the board state, or its `Final` call, and hands the
     * callback its `Report`.
     */
    method Visit(stop: seq<int> -> bool, ghost sols: seq<seq<int>>) returns (done: bool, ghost sols': seq<seq<int>>)
      requires Searching() && Trail(sols, stop, false)
      modifies this, queenColumn, columnBitMask, leftDiagonalBitMask, rightDiagonalBitMask, coverageBitMask
      ensures Searching() && Trail(sols', stop, done)
      ensures iteration == old(iteration) + 1
      ensures !done ==> old(Rank()) < Rank()
      ensures var s := (old(queenColumn[..]), old(k));
        done == Final(s, n, m, stop) && (!done ==> Transition(s, (queenColumn[..], k), n, m, stop))
      ensures sols' == sols + Report((old(queenColumn[..]), old(k)), n)
    {
      RankRange();
      assert k == n ==> Rows(queenColumn[..], n) == Queens();
      sols' := sols;
      if k == n {
        ReportedAppend(sols, Queens(), n, m);
        ContinuedAppend(sols, stop, Queens());
        sols' := sols + [Queens()];
      }
      done := Iterate(stop);
    }

    /**
     * `mapSolutions`: builds a board and iterates until done, handing each
     * full board to `stop`; the result is the number of steps, or the
     * constructor's error.  `trace` lists the board states in which
     * `iterate` was called (a `Run`), so the result is its length, and
     * `solutions` lists the boards handed to `stop` along it: each is a
     * solution, they are all different, and `stop` said to go on after all
     * but the last.
     */
    static method MapSolutions(numberOfQueens: int, lengthOfBoardSides: int, stop: seq<int> -> bool)
      returns (r: Result<nat>, ghost solutions: seq<seq<int>>, ghost trace: seq<(seq<int>, int)>)
      ensures r.Failure? <==> !ValidSize(numberOfQueens, lengthOfBoardSides)
      ensures r.Failure? ==> solutions == [] && trace == []
      ensures r.Success? ==> Run(trace, numberOfQueens, lengthOfBoardSides, stop)
      ensures r.Success? ==> r.value == |trace| && solutions == Reports(trace, numberOfQueens)
      ensures r.Success? ==> r.value >= 1
      ensures forall i :: 0 <= i < |solutions| ==> IsSolution(solutions[i], numberOfQueens, lengthOfBoardSides)
      ensures forall i :: 0 <= i < |solutions| - 1 ==> !stop(solutions[i])
      ensures forall i, j :: 0 <= i < j < |solutions| ==> solutions[i] != solutions[j]
    {
      solutions, trace := [], [];
      var created := Create(numberOfQueens, lengthOfBoardSides);
      if created.Failure? {
        return Failure(created.error), solutions, trace;
      }
      var board := created.value;
      var done := false;
      while !done
        invariant board.Searching()
        invariant board.n == numberOfQueens && board.m == lengthOfBoardSides
        invariant board.iteration == |trace|
        invariant board.Trail(solutions, stop, done)
        invariant solutions == Reports(trace, numberOfQueens)
        invariant Chain(trace, numberOfQueens, lengthOfBoardSides, stop)
        invariant trace == [] ==> !done && (board.queenColumn[..], board.k) == (InitialColumns(numberOfQueens), 0)
        invariant trace != [] ==> trace[0] == (InitialColumns(numberOfQueens), 0)
        invariant trace != [] && !done ==>
          Transition(trace[|trace| - 1], (board.queenColumn[..], board.k), numberOfQueens, lengthOfBoardSides, stop)
        invariant done ==> trace != [] && Final(trace[|trace| - 1], numberOfQueens, lengthOfBoardSides, stop)
        decreases !done, Power(2 * board.m + 2, board.n) - board.Rank()
      {
        ghost var s := (board.queenColumn[..], board.k);
        board.RankRange();
        done, solutions := board.Visit(stop, solutions);
        ChainAppend(trace, s, numberOfQueens, lengthOfBoardSides, stop);
        ReportsAppend(trace, s, numberOfQueens);
        trace := trace + [s];
      }
      return Success(board.iteration), solutions, trace;
    }
  }
}
