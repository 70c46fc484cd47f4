/**
 * Bit-field utilities over a Java `int`.
 *
 * A Java `int` is modelled by its 32-bit pattern read as an unsigned number
 * (`Word`): bit `i` has weight `2^i`, and the `int` is negative exactly when
 * bit 31 is set (`IntValue`).  Java's operators on `int` are written out on
 * these patterns: `|` and `&` bit by bit, `~` as the 32-bit complement, `<<`
 * dropping what leaves bit 31, `>>>` shifting in zeros and `>>` keeping the
 * sign bit, `%` truncating toward zero.
 */
module BitMask {

  /** The bit pattern of a Java `int`, read as an unsigned number. */
  type Word = x: int | 0 <= x < 0x1_0000_0000

  /** The value of the Java `int` whose bit pattern is `w` (two's complement). */
  function IntValue(w: Word): (v: int)
    ensures -0x8000_0000 <= v < 0x8000_0000
    ensures v < 0 <==> w >= 0x8000_0000
  {
    if w < 0x8000_0000 then w else w - 0x1_0000_0000
  }

  /** The bit pattern of the Java `int` value `v`. */
  function FromInt(v: int): (w: Word)
    requires -0x8000_0000 <= v < 0x8000_0000
    ensures IntValue(w) == v
  {
    if v >= 0 then v else v + 0x1_0000_0000
  }

  function Pow2(n: nat): (r: nat)
    ensures r >= 1
  {
    if n == 0 then 1 else 2 * Pow2(n - 1)
  }

  /** Bit `i` of `x` is set. */
  predicate Bit(x: nat, i: nat)
  {
    if i == 0 then x % 2 == 1 else Bit(x / 2, i - 1)
  }

  // ---------------------------------------------------------------------
  // Powers of two
  // ---------------------------------------------------------------------

  lemma {:induction false} Pow2Add(a: nat, b: nat)
    ensures Pow2(a + b) == Pow2(a) * Pow2(b)
  {
    if a > 0 {
      Pow2Add(a - 1, b);
    }
  }

  lemma {:induction false} Pow2Monotone(a: nat, b: nat)
    requires a <= b
    ensures Pow2(a) <= Pow2(b)
  {
    if a < b {
      Pow2Monotone(a, b - 1);
    }
  }

  /** The powers of two that delimit a Java `int`. */
  lemma Pow2Facts()
    ensures Pow2(30) == 0x4000_0000
    ensures Pow2(31) == 0x8000_0000
    ensures Pow2(32) == 0x1_0000_0000
  {
    assert Pow2(6) == 64;
    assert Pow2(7) == 128;
    assert Pow2(8) == 256;
    Pow2Add(8, 8);
    Pow2Add(16, 8);
    Pow2Add(24, 6);
    Pow2Add(24, 7);
    Pow2Add(24, 8);
  }

  // ---------------------------------------------------------------------
  // Bits of a number
  // ---------------------------------------------------------------------

  lemma {:induction false} BitZero(i: nat)
    ensures !Bit(0, i)
  {
    if i > 0 {
      BitZero(i - 1);
    }
  }

  /** A number below `2^n` has no bit at or above `n`. */
  lemma {:induction false} BitsAbove(x: nat, n: nat, i: nat)
    requires x < Pow2(n) && n <= i
    ensures !Bit(x, i)
  {
    if n == 0 {
      BitZero(i);
    } else {
      BitsAbove(x / 2, n - 1, i - 1);
    }
  }

  /** A number in `[2^n, 2^(n+1))` has bit `n` set. */
  lemma {:induction false} BitTop(x: nat, n: nat)
    requires Pow2(n) <= x < 2 * Pow2(n)
    ensures Bit(x, n)
  {
    if n > 0 {
      BitTop(x / 2, n - 1);
    }
  }

  /** Adding `2^n` to a number below `2^n` sets bit `n` and keeps the others. */
  lemma {:induction false} BitAddTop(x: nat, n: nat, i: nat)
    requires x < Pow2(n)
    ensures Bit(x + Pow2(n), i) == (i == n || Bit(x, i))
  {
    if n == 0 {
      if i > 0 {
        BitZero(i - 1);
      }
    } else if i > 0 {
      BitAddTop(x / 2, n - 1, i - 1);
    }
  }

  /** Subtracting a number below `2^n` from `2^n - 1` flips its low `n` bits. */
  lemma {:induction false} BitComplement(x: nat, n: nat, i: nat)
    requires x < Pow2(n)
    ensures Bit(Pow2(n) - 1 - x, i) == (i < n && !Bit(x, i))
  {
    if n == 0 {
      BitZero(i);
    } else {
      var p, y := Pow2(n - 1), Pow2(n) - 1 - x;
      assert y == 2 * (p - 1 - x / 2) + (1 - x % 2);
      assert y / 2 == p - 1 - x / 2 && y % 2 == 1 - x % 2;
      if i > 0 {
        BitComplement(x / 2, n - 1, i - 1);
      }
    }
  }

  /** `2^n` has exactly bit `n` set. */
  lemma BitPow2(n: nat, i: nat)
    ensures Bit(Pow2(n), i) == (i == n)
  {
    BitAddTop(0, n, i);
    BitZero(i);
  }

  /** Two numbers with the same bits are equal. */
  lemma {:induction false} BitsEqual(a: nat, b: nat)
    requires forall i: nat :: Bit(a, i) == Bit(b, i)
    ensures a == b
    decreases a + b
  {
    if a != 0 || b != 0 {
      assert Bit(a, 0) == Bit(b, 0);
      forall i: nat ensures Bit(a / 2, i) == Bit(b / 2, i) {
        assert Bit(a, i + 1) == Bit(b, i + 1);
      }
      BitsEqual(a / 2, b / 2);
    }
  }

  // ---------------------------------------------------------------------
  // Java's bitwise operators
  // ---------------------------------------------------------------------

  /** Bitwise or of two bit patterns, one bit at a time from bit 0. */
  function OrBits(a: nat, b: nat): nat
    decreases a + b
  {
    if a == 0 && b == 0 then 0
    else 2 * OrBits(a / 2, b / 2) + (if a % 2 == 1 || b % 2 == 1 then 1 else 0)
  }

  lemma {:induction false} BitOrBits(a: nat, b: nat, i: nat)
    ensures Bit(OrBits(a, b), i) == (Bit(a, i) || Bit(b, i))
    decreases a + b
  {
    if a == 0 && b == 0 {
      BitZero(i);
    } else if i > 0 {
      BitOrBits(a / 2, b / 2, i - 1);
    }
  }

  lemma {:induction false} OrBitsBound(a: nat, b: nat, n: nat)
    requires a < Pow2(n) && b < Pow2(n)
    ensures OrBits(a, b) < Pow2(n)
    decreases a + b
  {
    if (a != 0 || b != 0) && n > 0 {
      OrBitsBound(a / 2, b / 2, n - 1);
    }
  }

  /** Java's `a | b` on `int`. */
  function Or(a: Word, b: Word): Word
  {
    Pow2Facts();
    OrBitsBound(a, b, 32);
    OrBits(a, b)
  }

  lemma BitOr(a: Word, b: Word, i: nat)
    ensures Bit(Or(a, b), i) == (Bit(a, i) || Bit(b, i))
  {
    BitOrBits(a, b, i);
  }

  /** Java's `a & b` on `int`: bitwise and, never above either operand. */
  function And(a: nat, b: nat): (r: nat)
    ensures r <= a && r <= b
    decreases a + b
  {
    if a == 0 || b == 0 then 0
    else 2 * And(a / 2, b / 2) + (if a % 2 == 1 && b % 2 == 1 then 1 else 0)
  }

  lemma {:induction false} BitAnd(a: nat, b: nat, i: nat)
    ensures Bit(And(a, b), i) == (Bit(a, i) && Bit(b, i))
    decreases a + b
  {
    if a == 0 || b == 0 {
      BitZero(i);
    } else if i > 0 {
      BitAnd(a / 2, b / 2, i - 1);
    }
  }

  /** Java's `~w` on `int`: every one of the 32 bits flipped. */
  function Not(w: Word): Word
  {
    0xFFFF_FFFF - w
  }

  lemma BitNot(w: Word, i: nat)
    ensures Bit(Not(w), i) == (i < 32 && !Bit(w, i))
  {
    Pow2Facts();
    BitComplement(w, 32, i);
  }

  /** Java's `w << 1` on `int`: bit 31 falls off. */
  function ShiftLeftOne(w: Word): Word
  {
    if w < 0x8000_0000 then 2 * w else 2 * w - 0x1_0000_0000
  }

  lemma BitShiftLeftOne(w: Word, i: nat)
    ensures Bit(ShiftLeftOne(w), i) == (1 <= i < 32 && Bit(w, i - 1))
  {
    Pow2Facts();
    if i >= 1 {
      if w >= 0x8000_0000 {
        var low := w - 0x8000_0000;
        assert ShiftLeftOne(w) == 2 * low;
        BitAddTop(low, 31, i - 1);
        if i >= 32 {
          BitsAbove(low, 31, i - 1);
        }
      } else if i >= 32 {
        BitsAbove(w, 31, i - 1);
      }
    }
  }

  /** Java's `w << d` on `int`, for a distance `d` in 0..31. */
  function ShiftLeft(w: Word, d: nat): Word
    requires d < 32
  {
    if d == 0 then w else ShiftLeftOne(ShiftLeft(w, d - 1))
  }

  lemma {:induction false} BitShiftLeft(w: Word, d: nat, i: nat)
    requires d < 32
    ensures Bit(ShiftLeft(w, d), i) == (d <= i < 32 && Bit(w, i - d))
  {
    if d == 0 {
      if i >= 32 {
        Pow2Facts();
        BitsAbove(w, 32, i);
      }
    } else {
      BitShiftLeftOne(ShiftLeft(w, d - 1), i);
      if i >= 1 {
        BitShiftLeft(w, d - 1, i - 1);
      }
    }
  }

  /** Java's `w >>> d` on `int`, for a distance `d` in 0..31: zeros come in at the top. */
  function ShiftRightUnsigned(w: Word, d: nat): Word
    requires d < 32
  {
    if d == 0 then w else ShiftRightUnsigned(w, d - 1) / 2
  }

  lemma {:induction false} BitShiftRightUnsigned(w: Word, d: nat, i: nat)
    requires d < 32
    ensures Bit(ShiftRightUnsigned(w, d), i) == Bit(w, i + d)
  {
    if d > 0 {
      BitShiftRightUnsigned(w, d - 1, i + 1);
    }
  }

  /** Java's `w >> 1` on `int`: the value halved and rounded down, so the sign bit stays. */
  function ShiftRightSigned(w: Word): Word
  {
    FromInt(IntValue(w) / 2)
  }

  lemma BitShiftRightSigned(w: Word, i: nat)
    ensures Bit(ShiftRightSigned(w), i) == if i < 31 then Bit(w, i + 1) else i == 31 && Bit(w, 31)
  {
    Pow2Facts();
    if w < 0x8000_0000 {
      assert ShiftRightSigned(w) == w / 2;
      if i >= 31 {
        BitsAbove(w, 31, i + 1);
        BitsAbove(w, 31, 31);
        BitsAbove(w / 2, 30, i);
      }
    } else {
      assert ShiftRightSigned(w) == w / 2 + 0x8000_0000;
      BitAddTop(w / 2, 31, i);
      BitTop(w, 31);
      if i >= 31 {
        BitsAbove(w, 32, i + 1);
        BitsAbove(w / 2, 31, i);
      }
    }
  }

  /** Java uses only the low five bits of a shift distance (JLS section 15.19). */
  function JavaDistance(d: int): nat
  {
    d % 32
  }

  /** Java's `v % d` for a positive `d`: the remainder takes the sign of `v`. */
  function JavaRemainder(v: int, d: int): int
    requires d > 0
  {
    if v >= 0 then v % d else -((-v) % d)
  }

  /** `w % 2 != 0` in Java tests bit 0, whatever the sign of `w`; `Math.abs` of it is that bit. */
  lemma OddRemainder(w: Word)
    ensures (JavaRemainder(IntValue(w), 2) != 0) == Bit(w, 0)
    ensures (if JavaRemainder(IntValue(w), 2) < 0 then -JavaRemainder(IntValue(w), 2) else JavaRemainder(IntValue(w), 2))
      == (if Bit(w, 0) then 1 else 0)
  {
  }

  // ---------------------------------------------------------------------
  // bits[i]: the table of single-bit masks
  // ---------------------------------------------------------------------

  lemma {:induction false} ShiftLeftPow2(i: nat)
    requires i < 32
    ensures ShiftLeft(1, i) == Pow2(i)
  {
    if i > 0 {
      ShiftLeftPow2(i - 1);
      Pow2Monotone(i - 1, 30);
      Pow2Facts();
    }
  }

  /** `bits[i]`: the power of two `2^i`, the mask with just bit `i` set. */
  function BitFor(i: nat): (r: Word)
    requires i < 32
    ensures r == Pow2(i)
    ensures forall j: nat :: Bit(r, j) <==> j == i
  {
    ShiftLeftPow2(i);
    forall j: nat ensures Bit(Pow2(i), j) <==> j == i {
      BitPow2(i, j);
    }
    ShiftLeft(1, i)
  }

  /** For `i` up to 30, `bits[i]` is the positive `int` `2^i`; `bits[31]` is `Integer.MIN_VALUE`. */
  lemma BitForValue(i: nat)
    requires i < 32
    ensures i <= 30 ==> IntValue(BitFor(i)) == Pow2(i)
    ensures i == 31 ==> IntValue(BitFor(i)) == -0x8000_0000
    ensures BitFor(0) == 1 && BitFor(1) == 2 && BitFor(2) == 4 && BitFor(3) == 8
    ensures BitFor(15) == 32768 && BitFor(30) == 1073741824
  {
    Pow2Facts();
    if i <= 30 {
      Pow2Monotone(i, 30);
    }
    assert Pow2(7) == 128;
    assert Pow2(8) == 256;
    Pow2Add(8, 7);
  }

  /** The static initializer: `bits` filled by doubling `pow2` (with Java's `<<=`). */
  method BitTable() returns (bits: array<Word>)
    ensures fresh(bits)
    ensures bits.Length == 32
    ensures forall i :: 0 <= i < 32 ==> bits[i] == BitFor(i)
  {
    bits := new Word[32];
    var pow2: Word := 1;
    var exp := 0;
    while exp < 32
      invariant 0 <= exp <= 32
      invariant exp < 32 ==> pow2 == BitFor(exp)
      invariant forall i :: 0 <= i < exp ==> bits[i] == BitFor(i)
    {
      bits[exp] := pow2;
      if exp < 31 {
        Pow2Monotone(exp, 30);
        Pow2Facts();
      }
      pow2 := ShiftLeftOne(pow2);
      exp := exp + 1;
    }
  }

  // ---------------------------------------------------------------------
  // ones(fromBit, toBit)
  // ---------------------------------------------------------------------

  /** `ones(fromBit, toBit)`: the mask with exactly bits `[fromBit, toBit)` set. */
  function Ones(fromBit: int, toBit: int): (r: Word)
    requires 0 <= fromBit < 32 && 0 <= toBit < 32 && fromBit <= toBit
    ensures forall i: nat :: Bit(r, i) <==> fromBit <= i < toBit
  {
    var low := BitFor(toBit - fromBit) - 1;
    forall i: nat ensures Bit(ShiftLeft(low, fromBit), i) <==> fromBit <= i < toBit {
      BitShiftLeft(low, fromBit, i);
      if fromBit <= i {
        BitComplement(0, toBit - fromBit, i - fromBit);
        BitZero(i - fromBit);
      }
    }
    ShiftLeft(low, fromBit)
  }

  /** An empty range gives the zero mask. */
  lemma OnesEmpty(i: nat)
    requires i < 32
    ensures Ones(i, i) == 0
  {
    forall j: nat ensures !Bit(Ones(i, i), j) {
      BitZero(j);
    }
    BitZeroOnly(Ones(i, i));
  }

  /** A number with no bit set is zero. */
  lemma BitZeroOnly(x: nat)
    requires forall j: nat :: !Bit(x, j)
    ensures x == 0
  {
    forall j: nat ensures Bit(x, j) == Bit(0, j) {
      BitZero(j);
    }
    BitsEqual(x, 0);
  }

  /** The low bits up to bit 30 make `Integer.MAX_VALUE`; `ones(0, 1)` is `bits[0]`, `ones(1, 3)` is `bits[1] + bits[2]`. */
  lemma OnesValues()
    ensures IntValue(Ones(0, 31)) == 0x7FFF_FFFF
    ensures Ones(0, 1) == BitFor(0)
    ensures Ones(1, 3) == BitFor(1) + BitFor(2)
  {
    Pow2Facts();
    assert Ones(0, 31) == BitFor(31) - 1;
    assert Ones(0, 1) == BitFor(1) - 1;
    assert BitFor(2) == 4;
    assert Ones(1, 3) == ShiftLeftOne(BitFor(2) - 1);
  }

  // ---------------------------------------------------------------------
  // firstOneBit(mask, nrBits)
  // ---------------------------------------------------------------------

  /**
   * The bit-by-bit oracle for `firstOneBit`: the first set bit at index `i`
   * or above among the low `nrBits` bits (never above bit 31), or -1.
   */
  function ScanFrom(mask: nat, i: nat, nrBits: int): (r: int)
    requires i <= 32
    ensures r == -1 ==> forall j :: i <= j < nrBits && j < 32 ==> !Bit(mask, j)
    ensures r != -1 ==> i <= r < nrBits && r < 32 && Bit(mask, r)
    ensures r != -1 ==> forall j :: i <= j < r ==> !Bit(mask, j)
    decreases 32 - i
  {
    if i >= nrBits || i >= 32 then -1
    else if Bit(mask, i) then i
    else ScanFrom(mask, i + 1, nrBits)
  }

  /** The index of the lowest set bit among the low `nrBits` bits, or -1. */
  function LowestOne(mask: nat, nrBits: int): int
  {
    ScanFrom(mask, 0, nrBits)
  }

  /** One step of `firstOneBit`'s loop: `>>= 1` brings the next bit down to bit 0. */
  lemma ScanStep(m: Word, mask: Word, bitNr: nat)
    requires forall j :: 0 <= j < 32 ==> Bit(m, j) == Bit(mask, if j + bitNr < 32 then j + bitNr else 31)
    ensures forall j :: 0 <= j < 32 ==>
      Bit(ShiftRightSigned(m), j) == Bit(mask, if j + bitNr + 1 < 32 then j + bitNr + 1 else 31)
  {
    forall j | 0 <= j < 32
      ensures Bit(ShiftRightSigned(m), j) == Bit(mask, if j + bitNr + 1 < 32 then j + bitNr + 1 else 31)
    {
      BitShiftRightSigned(m, j);
      if j < 31 {
        assert Bit(m, j + 1) == Bit(mask, if j + 1 + bitNr < 32 then j + 1 + bitNr else 31);
      } else {
        assert Bit(m, 31) == Bit(mask, 31);
      }
    }
  }

  /**
   * `firstOneBit`: tests the low bit with `% 2` and shifts the mask down with
   * `>>= 1` until a set bit turns up or `nrBits` bits have been looked at.
   */
  method FirstOneBit(mask: Word, nrBits: int) returns (r: int)
    ensures r == LowestOne(mask, nrBits)
  {
    var m := mask;
    var bitNr := 0;
    while bitNr < nrBits
      invariant 0 <= bitNr
      invariant ScanFrom(mask, 0, nrBits) == ScanFrom(mask, if bitNr < 32 then bitNr else 32, nrBits)
      invariant forall j :: 0 <= j < 32 ==> Bit(m, j) == Bit(mask, if j + bitNr < 32 then j + bitNr else 31)
      decreases nrBits - bitNr
    {
      OddRemainder(m);
      assert Bit(m, 0) == Bit(mask, if bitNr < 32 then bitNr else 31);
      if JavaRemainder(IntValue(m), 2) != 0 {
        return bitNr;
      }
      ScanStep(m, mask, bitNr);
      m := ShiftRightSigned(m);
      bitNr := bitNr + 1;
    }
    return -1;
  }

  /** Only the low `nrBits` bits matter to `firstOneBit`. */
  lemma LowestOneLowBits(a: nat, b: nat, nrBits: int)
    requires forall j :: 0 <= j < nrBits && j < 32 ==> Bit(a, j) == Bit(b, j)
    ensures LowestOne(a, nrBits) == LowestOne(b, nrBits)
  {
    var ra, rb := LowestOne(a, nrBits), LowestOne(b, nrBits);
    if ra != -1 && rb != -1 {
      assert !(ra < rb) && !(rb < ra);
    }
  }

  /** A negative mask (sign bit set) gives `firstOneBit` the same answer within 31 bits. */
  lemma LowestOneSignBit(mask: Word, nrBits: int)
    requires nrBits <= 31
    ensures LowestOne(Or(mask, 0x8000_0000), nrBits) == LowestOne(mask, nrBits)
  {
    Pow2Facts();
    forall j | 0 <= j < nrBits && j < 32 ensures Bit(Or(mask, 0x8000_0000), j) == Bit(mask, j) {
      BitOr(mask, 0x8000_0000, j);
      BitPow2(31, j);
    }
    LowestOneLowBits(Or(mask, 0x8000_0000), mask, nrBits);
  }

  // ---------------------------------------------------------------------
  // firstZeroBit(mask, nrBits, fromBit)
  // ---------------------------------------------------------------------

  /** The field `firstZeroBit` hands to `firstOneBit`: the mask inverted, shifted by `distance` and cut to `width` bits. */
  function Field(mask: Word, distance: nat, width: int): Word
    requires distance < 32
    requires 0 <= width < 32
  {
    And(Not(ShiftRightUnsigned(mask, distance)), Ones(0, width))
  }

  /** Bit `j` of the field is the negation of bit `fromBit + j` of the mask, within the width. */
  lemma FieldBit(mask: Word, fromBit: nat, width: int, j: nat)
    requires fromBit < 32 && 0 <= width < 32
    ensures Bit(Field(mask, fromBit, width), j) == (j < width && !Bit(mask, fromBit + j))
  {
    BitAnd(Not(ShiftRightUnsigned(mask, fromBit)), Ones(0, width), j);
    BitNot(ShiftRightUnsigned(mask, fromBit), j);
    BitShiftRightUnsigned(mask, fromBit, j);
  }

  /** Scanning the field for its first one finds the first zero of the mask at or above `fromBit`. */
  lemma FieldScan(mask: Word, nrBits: int, fromBit: int)
    requires fromBit <= nrBits < 32 && nrBits - fromBit < 32
    ensures var s := LowestOne(Field(mask, JavaDistance(fromBit), nrBits - fromBit), nrBits - fromBit);
      0 <= fromBit ==>
      (s == -1 ==> forall i :: fromBit <= i < nrBits ==> Bit(mask, i)) &&
      (s != -1 ==> (0 <= s && fromBit + s < nrBits && !Bit(mask, fromBit + s) &&
                    forall i :: fromBit <= i < fromBit + s ==> Bit(mask, i)))
  {
    if fromBit < 0 {
      return;
    }
    assert JavaDistance(fromBit) == fromBit;
    var width := nrBits - fromBit;
    forall j: nat ensures Bit(Field(mask, fromBit, width), j) == (j < width && !Bit(mask, fromBit + j)) {
      FieldBit(mask, fromBit, width, j);
    }
    var s := LowestOne(Field(mask, fromBit, width), width);
    if s == -1 {
      forall i | fromBit <= i < nrBits ensures Bit(mask, i) {
        assert !Bit(Field(mask, fromBit, width), i - fromBit);
      }
    } else {
      forall i | fromBit <= i < fromBit + s ensures Bit(mask, i) {
        assert !Bit(Field(mask, fromBit, width), i - fromBit);
      }
    }
  }

  /**
   * `firstZeroBit`: inverts the mask shifted down by `fromBit`, keeps its low
   * `nrBits - fromBit` bits and finds the first one among them (the call of
   * `firstOneBit` is its specification `LowestOne`, see `FirstOneBit`).  The
   * requires are Java's own assertions, those of the nested `ones` call
   * included; they admit a negative `fromBit`, for which the documented
   * result is not delivered (see `FirstZeroBitFromMinusOne`).  For
   * `0 <= fromBit`: -1 exactly when bits `[fromBit, nrBits)` are all set,
   * otherwise the first clear bit there.
   */
  function FirstZeroBit(mask: Word, nrBits: int, fromBit: int): (r: int)
    requires 0 < nrBits < 32 && fromBit <= nrBits
    requires nrBits - fromBit < 32
    ensures 0 <= fromBit && r == -1 ==> forall i :: fromBit <= i < nrBits ==> Bit(mask, i)
    ensures 0 <= fromBit && r != -1 ==> fromBit <= r < nrBits && !Bit(mask, r)
    ensures 0 <= fromBit && r != -1 ==> forall i :: fromBit <= i < r ==> Bit(mask, i)
  {
    var nrEffectiveBits := nrBits - fromBit;
    var shiftIndex := LowestOne(Field(mask, JavaDistance(fromBit), nrEffectiveBits), nrEffectiveBits);
    FieldScan(mask, nrBits, fromBit);
    if shiftIndex == -1 then -1 else shiftIndex + fromBit
  }

  /** Only the bits in `[fromBit, nrBits)` decide the result: masks that agree there give the same answer. */
  lemma FirstZeroBitLowBits(a: Word, b: Word, nrBits: int, fromBit: int)
    requires 0 <= fromBit <= nrBits < 32 && 0 < nrBits
    requires forall i :: fromBit <= i < nrBits ==> Bit(a, i) == Bit(b, i)
    ensures FirstZeroBit(a, nrBits, fromBit) == FirstZeroBit(b, nrBits, fromBit)
  {
    var ra, rb := FirstZeroBit(a, nrBits, fromBit), FirstZeroBit(b, nrBits, fromBit);
    if ra != -1 && rb != -1 {
      assert !(ra < rb) && !(rb < ra);
    }
  }

  /** A zero mask gives `fromBit` itself, or -1 for an empty range. */
  lemma FirstZeroBitZeroMask(nrBits: int, fromBit: int)
    requires 0 <= fromBit <= nrBits < 32 && 0 < nrBits
    ensures FirstZeroBit(0, nrBits, fromBit) == if fromBit < nrBits then fromBit else -1
  {
    BitZero(fromBit);
  }

  /** A mask of `t` low ones gives `t` when more than `t` bits are looked at, and -1 otherwise. */
  lemma FirstZeroBitLowOnes(t: int, nrBits: int)
    requires 0 <= t < 32 && 0 < nrBits < 32
    ensures FirstZeroBit(Ones(0, t), nrBits, 0) == if t < nrBits then t else -1
  {
    var r := FirstZeroBit(Ones(0, t), nrBits, 0);
    if t < nrBits {
      assert !Bit(Ones(0, t), t);
      assert r != -1;
      assert !(r < t) && !(t < r);
    }
  }

  /** `bits[1]`, looked at in 2 bits, has its first zero at bit 0, and none from bit 1 on. */
  lemma FirstZeroBitValues()
    ensures FirstZeroBit(BitFor(1), 2, 0) == 0
    ensures FirstZeroBit(BitFor(1), 2, 1) == -1
  {
    var b := BitFor(1);
    assert !Bit(b, 0) && Bit(b, 1);
    var r0, r1 := FirstZeroBit(b, 2, 0), FirstZeroBit(b, 2, 1);
    assert r0 != -1 && r0 != 1;
    assert r1 != 1;
  }

  /**
   * With `fromBit = -1` Java shifts by 31, so for a non-negative mask the
   * field is all ones, its first one bit is 0, and the result is `0 + -1`.
   */
  lemma FirstZeroBitFromMinusOne(mask: Word, nrBits: int)
    requires 0 < nrBits <= 30
    requires mask < 0x8000_0000
    ensures FirstZeroBit(mask, nrBits, -1) == -1
  {
    Pow2Facts();
    assert JavaDistance(-1) == 31;
    FieldBit(mask, 31, nrBits + 1, 0);
    BitsAbove(mask, 31, 31);
    assert Bit(Field(mask, 31, nrBits + 1), 0);
  }

  // ---------------------------------------------------------------------
  // toString(mask, nrBits)
  // ---------------------------------------------------------------------

  /** The character `toString` writes for bit `i` of `mask`. */
  function BitChar(mask: nat, i: nat): char
  {
    if Bit(mask, i) then '1' else '0'
  }

  /**
   * `toString`: appends `Math.abs(mask % 2)` and shifts with `>>>= 1`,
   * `nrBits` times, so the least significant bit comes first.
   */
  method ToBitString(mask: Word, nrBits: int) returns (s: string)
    requires IntValue(mask) >= 0
    requires 0 < nrBits < 32
    ensures |s| == nrBits
    ensures forall i :: 0 <= i < nrBits ==> s[i] == BitChar(mask, i)
  {
    s := "";
    var m := mask;
    var bitNr := 0;
    while bitNr < nrBits
      invariant 0 <= bitNr <= nrBits
      invariant |s| == bitNr
      invariant forall i :: 0 <= i < bitNr ==> s[i] == BitChar(mask, i)
      invariant forall j: nat :: Bit(m, j) == Bit(mask, j + bitNr)
    {
      OddRemainder(m);
      var r := JavaRemainder(IntValue(m), 2);
      var digit := if r < 0 then -r else r;
      assert Bit(m, 0) == Bit(mask, bitNr);
      s := s + [if digit == 1 then '1' else '0'];
      forall j: nat ensures Bit(ShiftRightUnsigned(m, 1), j) == Bit(mask, j + bitNr + 1) {
        BitShiftRightUnsigned(m, 1, j);
        assert Bit(m, j + 1) == Bit(mask, j + 1 + bitNr);
      }
      m := ShiftRightUnsigned(m, 1);
      bitNr := bitNr + 1;
    }
  }

  /** Reads a '0'/'1' string back, least significant bit first. */
  function ParseBits(s: string): nat
  {
    if s == [] then 0 else 2 * ParseBits(s[1..]) + (if s[0] == '1' then 1 else 0)
  }

  lemma {:induction false} ParseBitsBit(s: string, i: nat)
    ensures Bit(ParseBits(s), i) == (i < |s| && s[i] == '1')
  {
    if s == [] {
      BitZero(i);
    } else if i > 0 {
      ParseBitsBit(s[1..], i - 1);
    }
  }

  /** Reading back what `toString` wrote gives the mask's low `|s|` bits. */
  lemma BitStringRoundTrip(mask: Word, s: string)
    requires 0 < |s| < 32
    requires forall i :: 0 <= i < |s| ==> s[i] == BitChar(mask, i)
    ensures ParseBits(s) == And(mask, Ones(0, |s|))
  {
    forall i: nat ensures Bit(ParseBits(s), i) == Bit(And(mask, Ones(0, |s|)), i) {
      ParseBitsBit(s, i);
      BitAnd(mask, Ones(0, |s|), i);
    }
    BitsEqual(ParseBits(s), And(mask, Ones(0, |s|)));
  }
}
