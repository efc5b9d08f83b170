/** The xorshift64* generator of the slot replay (sdk/slot.ts), on 64-bit strings with the least
    significant bit first. */
module Xorshift {
  import opened NumberTheory

  const WIDTH: nat := 64
  const MODULUS: nat := 0x1_0000_0000_0000_0000
  const MULTIPLIER: nat := 0x2545_f491_4f6c_dd1d

  type Word = b: seq<bool> | |b| == WIDTH witness seq(WIDTH, _ => false)

  function Bit(x: seq<bool>, i: int): bool {
    0 <= i < |x| && x[i]
  }

  /** x ^ (x >> k) */
  function XorRight(x: Word, k: nat): (y: Word)
    ensures forall i :: 0 <= i < WIDTH ==> Bit(y, i) == (Bit(x, i) != Bit(x, i + k))
  {
    var y := seq(WIDTH, i requires 0 <= i < WIDTH => Bit(x, i) != Bit(x, i + k));
    assert forall i :: 0 <= i < WIDTH ==> Bit(y, i) == y[i];
    y
  }

  /** x ^ (x << k), dropping the bits beyond 64. */
  function XorLeft(x: Word, k: nat): (y: Word)
    ensures forall i :: 0 <= i < WIDTH ==> Bit(y, i) == (Bit(x, i) != Bit(x, i - k))
  {
    var y := seq(WIDTH, i requires 0 <= i < WIDTH => Bit(x, i) != Bit(x, i - k));
    assert forall i :: 0 <= i < WIDTH ==> Bit(y, i) == y[i];
    y
  }

  /** The state update. */
  function Next(x: Word): Word {
    XorRight(XorLeft(XorRight(x, 12), 25), 27)
  }

  // ---------------------------------------------------------------- numbers

  function Value(b: seq<bool>): nat {
    if b == [] then 0 else (if b[0] then 1 else 0) + 2 * Value(b[1..])
  }

  function FromNat(v: nat, n: nat): (b: seq<bool>)
    ensures |b| == n
  {
    if n == 0 then [] else [v % 2 == 1] + FromNat(v / 2, n - 1)
  }

  function TwoTo(n: nat): nat {
    if n == 0 then 1 else 2 * TwoTo(n - 1)
  }

  lemma {:induction false} ValueOfFromNat(v: nat, n: nat)
    requires v < TwoTo(n)
    ensures Value(FromNat(v, n)) == v
  {
    if n > 0 {
      ValueOfFromNat(v / 2, n - 1);
      assert FromNat(v, n)[1..] == FromNat(v / 2, n - 1);
    }
  }

  lemma {:induction false} FromNatOfValue(b: seq<bool>)
    ensures Value(b) < TwoTo(|b|) && FromNat(Value(b), |b|) == b
  {
    if b != [] {
      FromNatOfValue(b[1..]);
      assert b == [b[0]] + b[1..];
    }
  }

  /** The state times the multiplier, modulo 2^64. */
  function Scramble(x: Word): nat {
    (Value(x) * MULTIPLIER) % MODULUS
  }

  /** The drawn number, reduced without rejection. */
  function Output(x: Word, bound: nat): (r: nat)
    requires 0 < bound
    ensures r < bound
  {
    Scramble(x) % bound
  }

  // ---------------------------------------------------------------- what a draw says about the state

  /** The inverse of the multiplier modulo 2^64. */
  const INVERSE: nat := 0x5907_1d96_d81e_cd35

  lemma InverseHolds()
    ensures (MULTIPLIER * INVERSE) % MODULUS == 1
  {
    DivModUnique(MULTIPLIER * INVERSE, MODULUS, 934034299265436267, 1);
  }

  lemma UndoMultiply(v: int, m: int, i: int, n: int)
    requires 0 <= v < n && (m * i) % n == 1
    ensures (((v * m) % n) * i) % n == v
  {
    ModMod(v * m, n);
    MulCong((v * m) % n, v * m, i, i, n);
    assert (v * m) * i == v * (m * i);
    MulCong(v, v, m * i, 1, n);
    DivModUnique(1, n, 0, 1);
    DivModUnique(v, n, 0, v);
  }

  lemma {:induction false} TwoToSum(m: nat, n: nat)
    ensures TwoTo(m + n) == TwoTo(m) * TwoTo(n)
  {
    if m > 0 {
      TwoToSum(m - 1, n);
      assert TwoTo(m + n) == 2 * TwoTo((m - 1) + n);
    }
  }

  lemma WordValues()
    ensures TwoTo(WIDTH) == MODULUS
  {
    assert TwoTo(8) == 0x100;
    TwoToSum(8, 8);
    TwoToSum(16, 16);
    TwoToSum(32, 32);
  }

  function Unscramble(v: nat): Word {
    FromNat((v * INVERSE) % MODULUS, WIDTH)
  }

  /** Scrambling is one-to-one onto the numbers below 2^64. */
  lemma ScrambleInverts(x: Word, v: nat)
    ensures Unscramble(Scramble(x)) == x
    ensures v < MODULUS ==> Scramble(Unscramble(v)) == v
  {
    WordValues();
    InverseHolds();
    FromNatOfValue(x);
    UndoMultiply(Value(x), MULTIPLIER, INVERSE, MODULUS);
    if v < MODULUS {
      var u := (v * INVERSE) % MODULUS;
      ValueOfFromNat(u, WIDTH);
      assert INVERSE * MULTIPLIER == MULTIPLIER * INVERSE;
      UndoMultiply(v, INVERSE, MULTIPLIER, MODULUS);
    }
  }

  /** A draw of r comes from exactly the states that unscramble the 64-bit numbers congruent to r:
      as many of the 2^64 states as there are such numbers. */
  lemma DrawnFrom(x: Word, bound: nat, r: nat)
    requires 0 < bound
    ensures Output(x, bound) == r <==> exists v: nat :: v < MODULUS && v % bound == r && x == Unscramble(v)
  {
    ScrambleInverts(x, 0);
    if Output(x, bound) == r {
      assert Scramble(x) < MODULUS && x == Unscramble(Scramble(x));
    }
    forall v: nat | v < MODULUS && x == Unscramble(v)
      ensures Scramble(x) == v
    {
      ScrambleInverts(x, v);
    }
  }

  // ---------------------------------------------------------------- permutation

  lemma SameBits(x: Word, y: Word)
    requires forall i :: 0 <= i < WIDTH ==> Bit(x, i) == Bit(y, i)
    ensures x == y
  {
    assert forall i :: 0 <= i < WIDTH ==> Bit(x, i) == x[i] && Bit(y, i) == y[i];
  }

  lemma {:induction false} RightBits(x: Word, y: Word, k: nat, i: nat)
    requires 0 < k && i <= WIDTH && XorRight(x, k) == XorRight(y, k)
    ensures forall j :: i <= j < WIDTH ==> Bit(x, j) == Bit(y, j)
    decreases WIDTH - i
  {
    if i < WIDTH {
      RightBits(x, y, k, i + 1);
      assert Bit(XorRight(x, k), i) == Bit(XorRight(y, k), i);
      assert Bit(x, i + k) == Bit(y, i + k);
    }
  }

  lemma {:induction false} LeftBits(x: Word, y: Word, k: nat, i: nat)
    requires 0 < k && i <= WIDTH && XorLeft(x, k) == XorLeft(y, k)
    ensures forall j :: 0 <= j < i ==> Bit(x, j) == Bit(y, j)
  {
    if i > 0 {
      LeftBits(x, y, k, i - 1);
      assert Bit(XorLeft(x, k), i - 1) == Bit(XorLeft(y, k), i - 1);
      assert Bit(x, i - 1 - k) == Bit(y, i - 1 - k);
    }
  }

  lemma RightInjective(x: Word, y: Word, k: nat)
    requires 0 < k && XorRight(x, k) == XorRight(y, k)
    ensures x == y
  {
    RightBits(x, y, k, 0);
    SameBits(x, y);
  }

  lemma LeftInjective(x: Word, y: Word, k: nat)
    requires 0 < k && XorLeft(x, k) == XorLeft(y, k)
    ensures x == y
  {
    LeftBits(x, y, k, WIDTH);
    SameBits(x, y);
  }

  lemma NextInjective(x: Word, y: Word)
    requires Next(x) == Next(y)
    ensures x == y
  {
    RightInjective(XorLeft(XorRight(x, 12), 25), XorLeft(XorRight(y, 12), 25), 27);
    LeftInjective(XorRight(x, 12), XorRight(y, 12), 25);
    RightInjective(x, y, 12);
  }

  /** Bit i of the word whose right shift-and-xor is y, from the top down. */
  function UnRightBit(y: Word, k: nat, i: nat): bool
    requires 0 < k
    decreases WIDTH - i
  {
    if i >= WIDTH then false else Bit(y, i) != UnRightBit(y, k, i + k)
  }

  /** Bit i of the word whose left shift-and-xor is y, from the bottom up. */
  function UnLeftBit(y: Word, k: nat, i: int): bool
    requires 0 < k
    decreases i + 1
  {
    if i < 0 then false else Bit(y, i) != UnLeftBit(y, k, i - k)
  }

  function UnRight(y: Word, k: nat): (x: Word)
    requires 0 < k
    ensures forall i: nat :: Bit(x, i) == UnRightBit(y, k, i)
  {
    seq(WIDTH, i requires 0 <= i < WIDTH => UnRightBit(y, k, i))
  }

  function UnLeft(y: Word, k: nat): (x: Word)
    requires 0 < k
    ensures forall i :: i < WIDTH ==> Bit(x, i) == UnLeftBit(y, k, i)
  {
    seq(WIDTH, i requires 0 <= i < WIDTH => UnLeftBit(y, k, i))
  }

  lemma RightUndone(y: Word, k: nat)
    requires 0 < k
    ensures XorRight(UnRight(y, k), k) == y
  {
    SameBits(XorRight(UnRight(y, k), k), y);
  }

  lemma LeftUndone(y: Word, k: nat)
    requires 0 < k
    ensures XorLeft(UnLeft(y, k), k) == y
  {
    SameBits(XorLeft(UnLeft(y, k), k), y);
  }

  function Previous(y: Word): Word {
    UnRight(UnLeft(UnRight(y, 27), 25), 12)
  }

  /** The update is a permutation of the 64-bit states: every state has exactly one predecessor. */
  lemma NextPermutes(x: Word, y: Word)
    ensures Next(x) == y <==> x == Previous(y)
  {
    RightUndone(y, 27);
    LeftUndone(UnRight(y, 27), 25);
    RightUndone(UnLeft(UnRight(y, 27), 25), 12);
    assert Next(Previous(y)) == y;
    if Next(x) == y { NextInjective(x, Previous(y)); }
  }

  // ---------------------------------------------------------------- the only fixed point

  const ZERO: Word := seq(WIDTH, _ => false)

  /** The fixed-point equation at bit i with the outer shift undone: bit i of x ^ x>>27 ^ x>>54 is
      bit i of the inner two shifts. */
  ghost predicate FixedEquation(x: Word, i: int) {
    ((Bit(x, i) != Bit(x, i + 27)) != Bit(x, i + 54)) ==
    ((Bit(x, i) != Bit(x, i + 12)) != (if i < 25 then false else Bit(x, i - 25) != Bit(x, i - 13)))
  }

  ghost predicate Fixed(x: Word) {
    forall i :: 0 <= i < WIDTH ==> FixedEquation(x, i)
  }

  lemma FixedBit(x: Word, i: nat)
    requires Next(x) == x && i < WIDTH
    ensures FixedEquation(x, i)
  {
    var a := XorRight(x, 12);
    var b := XorLeft(a, 25);
    Undo27(b, i);
    assert Bit(b, i) == (Bit(a, i) != Bit(a, i - 25));
    assert Bit(a, i) == (Bit(x, i) != Bit(x, i + 12));
    if i >= 25 { assert Bit(a, i - 25) == (Bit(x, i - 25) != Bit(x, i - 13)); }
  }

  lemma Undo27(b: Word, i: nat)
    requires i < WIDTH
    ensures var x := XorRight(b, 27); Bit(b, i) == ((Bit(x, i) != Bit(x, i + 27)) != Bit(x, i + 54))
  {
    var x := XorRight(b, 27);
    assert Bit(x, i) == (Bit(b, i) != Bit(b, i + 27));
    if i + 27 < WIDTH { assert Bit(x, i + 27) == (Bit(b, i + 27) != Bit(b, i + 54)); }
    if i + 54 < WIDTH { assert Bit(x, i + 54) == (Bit(b, i + 54) != Bit(b, i + 81)); }
  }

  /** Bits 27..38 repeat twelve places up, and bits 39..51 repeat with period three. */
  lemma HighPattern(x: Word)
    requires Fixed(x)
    ensures Pattern(x)
  {
    forall j | 27 <= j <= 38
      ensures Bit(x, j) == Bit(x, j + 12)
    {
      assert FixedEquation(x, j + 25);
    }
    forall m | 39 <= m <= 48
      ensures Bit(x, m) == Bit(x, m + 3)
    {
      assert FixedEquation(x, m - 24);
      assert Bit(x, m - 12) == Bit(x, m);
    }
    forall k | 22 <= k <= 26
      ensures Bit(x, k) == Bit(x, k + 15)
    {
      assert FixedEquation(x, k - 12);
    }
  }

  ghost predicate Pattern(x: Word) {
    && (forall j :: 27 <= j <= 38 ==> Bit(x, j) == Bit(x, j + 12))
    && (forall m :: 39 <= m <= 48 ==> Bit(x, m) == Bit(x, m + 3))
    && (forall k :: 22 <= k <= 26 ==> Bit(x, k) == Bit(x, k + 15))
  }

  /** Bits 59..63. */
  lemma TopZero(x: Word, j: nat)
    requires Fixed(x) && Pattern(x) && 22 <= j <= 26
    ensures !Bit(x, j + 37)
  {
    assert FixedEquation(x, j + 25);
    assert Bit(x, j) == Bit(x, j + 15);
    assert Bit(x, j + 12) == Bit(x, j + 24);
    if j <= 23 {
      assert Bit(x, j + 15) == Bit(x, j + 27);
      assert Bit(x, j + 24) == Bit(x, j + 27);
    } else {
      assert Bit(x, j + 15) == Bit(x, j + 18);
      assert Bit(x, j + 18) == Bit(x, j + 21);
      assert Bit(x, j + 21) == Bit(x, j + 24);
    }
  }

  /** Bits 54..58, then 49..53. */
  lemma UpperZero(x: Word, j: nat)
    requires Fixed(x) && Pattern(x) && 12 <= j <= 21 && !Bit(x, j + 42)
    ensures !Bit(x, j + 37)
  {
    assert FixedEquation(x, j + 25);
    assert FixedEquation(x, j - 12);
    assert Bit(x, j + 15) == Bit(x, j + 27);
    if j <= 14 {
      assert Bit(x, j + 12) == Bit(x, j + 27);
    } else {
      assert Bit(x, j + 12) == Bit(x, j + 24);
      assert Bit(x, j + 24) == Bit(x, j + 27);
    }
  }

  lemma {:induction false} UpperBitsZero(x: Word, j: nat)
    requires Fixed(x) && Pattern(x) && 12 <= j <= 26
    ensures !Bit(x, j + 37)
    decreases 26 - j
  {
    if j >= 22 {
      TopZero(x, j);
    } else {
      UpperBitsZero(x, j + 5);
      UpperZero(x, j);
    }
  }

  /** The top bits vanish one after another, and with them the period-three pattern. */
  lemma {:induction false} HighZero(x: Word, m: nat)
    requires Fixed(x) && Pattern(x) && 39 <= m < WIDTH
    ensures !Bit(x, m)
    decreases WIDTH - m
  {
    if m >= 49 {
      UpperBitsZero(x, m - 37);
    } else {
      HighZero(x, m + 3);
      assert Bit(x, m) == Bit(x, m + 3);
    }
  }

  lemma {:induction false} LowZero(x: Word, j: nat)
    requires Fixed(x) && j <= 39
    ensures forall m :: j <= m < WIDTH ==> !Bit(x, m)
    decreases 39 - j
  {
    if j == 39 {
      HighPattern(x);
      forall m: nat | 39 <= m < WIDTH
        ensures !Bit(x, m)
      {
        HighZero(x, m);
      }
    } else {
      LowZero(x, j + 1);
      assert FixedEquation(x, j + 25);
    }
  }

  /** Zero is the only state the update leaves alone. */
  lemma OnlyZeroFixed(x: Word)
    ensures Next(x) == x <==> x == ZERO
  {
    if Next(x) == x {
      forall i | 0 <= i < WIDTH
        ensures FixedEquation(x, i)
      {
        FixedBit(x, i);
      }
      LowZero(x, 0);
      SameBits(x, ZERO);
    }
    if x == ZERO {
      assert forall i :: 0 <= i < WIDTH ==> !Bit(XorRight(ZERO, 12), i);
      SameBits(XorRight(ZERO, 12), ZERO);
      assert forall i :: 0 <= i < WIDTH ==> !Bit(XorLeft(ZERO, 25), i);
      SameBits(XorLeft(ZERO, 25), ZERO);
      SameBits(XorRight(ZERO, 27), ZERO);
    }
  }
}
