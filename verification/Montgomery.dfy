/** Montgomery arithmetic for an odd 128-bit modulus (programs/unicorn-spike/src/mont.rs). */
module Montgomery {
  import opened NumberTheory
  import opened U128

  // ---------------------------------------------------------------- 32-bit limbs

  /** The largest product of two 32-bit limbs. */
  const MAX_COLUMN: int := (LIMB - 1) * (LIMB - 1)

  /** The number a little-endian limb sequence stands for. */
  ghost function Eval(s: seq<int>): int {
    if s == [] then 0 else s[0] + LIMB * Eval(s[1..])
  }

  ghost function LimbPow(n: nat): int {
    Pow(LIMB, n)
  }

  lemma {:induction false} EvalAppend(s: seq<int>, x: int)
    ensures Eval(s + [x]) == Eval(s) + LimbPow(|s|) * x
  {
    if s == [] {
      assert ([x])[1..] == [];
      assert Eval([x]) == x + LIMB * Eval([]);
      assert s + [x] == [x];
    } else {
      EvalAppend(s[1..], x);
      assert (s + [x])[1..] == s[1..] + [x];
      assert LimbPow(|s|) == LIMB * LimbPow(|s| - 1);
      assert LIMB * (LimbPow(|s| - 1) * x) == (LIMB * LimbPow(|s| - 1)) * x;
    }
  }

  lemma {:induction false} EvalUpdate(s: seq<int>, k: nat, x: int)
    requires k < |s|
    ensures Eval(s[k := x]) == Eval(s) + LimbPow(k) * (x - s[k])
  {
    var t := s[k := x];
    if k == 0 {
      assert t[1..] == s[1..];
    } else {
      EvalUpdate(s[1..], k - 1, x);
      assert t[1..] == s[1..][k - 1 := x];
      assert LimbPow(k) == LIMB * LimbPow(k - 1);
      assert LIMB * (LimbPow(k - 1) * (x - s[k])) == (LIMB * LimbPow(k - 1)) * (x - s[k]);
    }
  }

  lemma {:induction false} EvalBound(s: seq<int>)
    requires forall i :: 0 <= i < |s| ==> 0 <= s[i] < LIMB
    ensures 0 <= Eval(s) < LimbPow(|s|)
  {
    if s == [] {
    } else {
      EvalBound(s[1..]);
      assert LimbPow(|s|) == LIMB * LimbPow(|s| - 1);
    }
  }

  lemma {:induction false} EvalZero(s: seq<int>)
    requires forall i :: 0 <= i < |s| ==> s[i] == 0
    ensures Eval(s) == 0
  {
    if s == [] {
    } else {
      EvalZero(s[1..]);
    }
  }

  lemma LimbPowers()
    ensures LimbPow(0) == 1 && LimbPow(1) == LIMB && LimbPow(2) == LIMB * LIMB
    ensures LimbPow(3) == LIMB * LIMB * LIMB && LimbPow(4) == R && LimbPow(8) == R * R
  {
    assert LimbPow(1) == LIMB * LimbPow(0);
    assert LimbPow(2) == LIMB * LimbPow(1);
    assert LimbPow(3) == LIMB * LimbPow(2);
    assert LimbPow(4) == LIMB * LimbPow(3);
    PowAdd(LIMB, 4, 4);
  }

  lemma Eval4(s: seq<int>)
    requires |s| == 4
    ensures Eval(s) == s[0] + LIMB * s[1] + LIMB * LIMB * s[2] + LIMB * LIMB * LIMB * s[3]
  {
    assert s[1..][1..] == s[2..] && s[2..][1..] == s[3..] && s[3..][1..] == [];
    assert Eval(s[3..]) == s[3] + LIMB * Eval([]);
    assert Eval(s[2..]) == s[2] + LIMB * Eval(s[3..]);
    assert Eval(s[1..]) == s[1] + LIMB * Eval(s[2..]);
  }

  /** The four 32-bit limbs of a 128-bit word. */
  function Limbs(x: u128): (s: seq<u64>)
    ensures |s| == 4 && Eval(s) == x
    ensures forall i :: 0 <= i < 4 ==> s[i] < LIMB
  {
    var s: seq<u64> := [x % LIMB, x / LIMB % LIMB, x / LIMB / LIMB % LIMB, x / LIMB / LIMB / LIMB % LIMB];
    Eval4(s);
    s
  }

  /** Shift-and-or of four limbs. */
  function Join(a: u64, b: u64, c: u64, d: u64): (x: u128)
    requires a < LIMB && b < LIMB && c < LIMB && d < LIMB
    ensures x == Eval([a, b, c, d])
  {
    Eval4([a, b, c, d]);
    a + LIMB * b + LIMB * LIMB * c + LIMB * LIMB * LIMB * d
  }

  lemma LimbProduct(x: int, y: int)
    requires 0 <= x < LIMB && 0 <= y < LIMB
    ensures 0 <= x * y <= MAX_COLUMN
  {
    MulMono(x, 0, y);
    MulMono(x, y, LIMB - 1);
    MulMono(LIMB - 1, x, LIMB - 1);
  }

  lemma ColumnStep(A: int, i: nat, j: nat, ai: int, B: int, bj: int)
    ensures (A + LimbPow(i) * ai * B) + LimbPow(i + j) * (ai * bj)
         == A + LimbPow(i) * ai * (B + LimbPow(j) * bj)
  {
    PowAdd(LIMB, i, j);
    var p, q := LimbPow(i), LimbPow(j);
    assert (p * q) * (ai * bj) == (p * ai) * (q * bj) by { MulSwap(p, q, ai, bj); }
    assert (p * ai) * (B + q * bj) == (p * ai) * B + (p * ai) * (q * bj);
  }

  lemma RowStep(EA: int, p: int, ai: int, B: int)
    ensures EA * B + p * ai * B == (EA + p * ai) * B
  {}

  /** The inner column loop: adds the partial products of limb i of the left factor. */
  method AddRow(col: array<u128>, a: seq<u64>, b: seq<u64>, i: nat)
    requires col.Length == 8 && |a| == 4 && |b| == 4 && i < 4
    requires forall k :: 0 <= k < 4 ==> a[k] < LIMB && b[k] < LIMB
    requires forall k :: 0 <= k < 8 ==> col[k] <= i * MAX_COLUMN
    modifies col
    ensures Eval(col[..]) == old(Eval(col[..])) + LimbPow(i) * a[i] * Eval(b)
    ensures forall k :: 0 <= k < 8 ==> col[k] <= (i + 1) * MAX_COLUMN
  {
    ghost var was := Eval(col[..]);
    var j := 0;
    while j < 4
      invariant 0 <= j <= 4
      invariant Eval(col[..]) == was + LimbPow(i) * a[i] * Eval(b[..j])
      invariant forall k :: 0 <= k < 8 ==>
                  col[k] <= i * MAX_COLUMN + (if i <= k < i + j then MAX_COLUMN else 0)
    {
      LimbProduct(a[i], b[j]);
      var partial: u64 := a[i] * b[j];
      ghost var before := col[..];
      col[i + j] := col[i + j] + partial;
      assert col[..] == before[i + j := before[i + j] + partial];
      EvalUpdate(before, i + j, before[i + j] + partial);
      assert b[..j + 1] == b[..j] + [b[j]];
      EvalAppend(b[..j], b[j]);
      ColumnStep(was, i, j, a[i], Eval(b[..j]), b[j]);
      j := j + 1;
    }
    assert b[..4] == b;
  }

  /** The schoolbook columns: their value is the product of the two factors. */
  method Columns(a: seq<u64>, b: seq<u64>) returns (col: array<u128>)
    requires |a| == 4 && |b| == 4
    requires forall k :: 0 <= k < 4 ==> a[k] < LIMB && b[k] < LIMB
    ensures fresh(col) && col.Length == 8
    ensures Eval(col[..]) == Eval(a) * Eval(b)
    ensures forall k :: 0 <= k < 8 ==> col[k] <= 4 * MAX_COLUMN
  {
    col := new u128[8](_ => 0);
    var i := 0;
    EvalZero(col[..]);
    while i < 4
      invariant 0 <= i <= 4
      invariant Eval(col[..]) == Eval(a[..i]) * Eval(b)
      invariant forall k :: 0 <= k < 8 ==> col[k] <= i * MAX_COLUMN
    {
      AddRow(col, a, b, i);
      assert a[..i + 1] == a[..i] + [a[i]];
      EvalAppend(a[..i], a[i]);
      RowStep(Eval(a[..i]), LimbPow(i), a[i], Eval(b));
      i := i + 1;
    }
    assert a[..4] == a;
  }

  /** Carry propagation turns columns into eight 32-bit limbs. */
  method Propagate(col: array<u128>) returns (out: array<u64>, ghost carry: u128)
    requires col.Length == 8
    requires forall k :: 0 <= k < 8 ==> col[k] <= 4 * MAX_COLUMN
    ensures fresh(out) && out.Length == 8 && forall k :: 0 <= k < 8 ==> out[k] < LIMB
    ensures Eval(out[..]) + LimbPow(8) * carry == Eval(col[..])
  {
    out := new u64[8](_ => 0);
    var c: u128 := 0;
    var k := 0;
    assert col[0..] == col[..];
    assert LimbPow(0) * (c + Eval(col[..])) == Eval(col[..]);
    while k < 8
      invariant 0 <= k <= 8
      invariant c <= 4 * MAX_COLUMN
      invariant forall m :: 0 <= m < 8 ==> out[m] < LIMB
      invariant Eval(out[..k]) + LimbPow(k) * (c + Eval(col[k..])) == Eval(col[..])
    {
      var cur: u128 := col[k] + c;
      ghost var done := out[..k];
      out[k] := cur % LIMB;
      assert out[..k + 1] == done + [cur % LIMB];
      EvalAppend(done, cur % LIMB);
      assert col[k..][1..] == col[k + 1..];
      assert Eval(col[k..]) == col[k] + LIMB * Eval(col[k + 1..]);
      CarryStep(LimbPow(k), cur, cur / LIMB, cur % LIMB, Eval(col[k + 1..]));
      c := cur / LIMB;
      k := k + 1;
    }
    assert out[..8] == out[..];
    assert col[8..] == [];
    carry := c;
  }

  /** 128 x 128 -> 256-bit product as (hi, lo): no column, carry or partial product overflows,
      and nothing is lost. */
  method Mul128(x: u128, y: u128) returns (hi: u128, lo: u128)
    ensures hi * R + lo == x * y
  {
    var col := Columns(Limbs(x), Limbs(y));
    var out, carry := Propagate(col);
    lo := Join(out[0], out[1], out[2], out[3]);
    hi := Join(out[4], out[5], out[6], out[7]);
    Halves(out[..], carry, x, y);
    assert out[..][..4] == [out[0], out[1], out[2], out[3]];
    assert out[..][4..] == [out[4], out[5], out[6], out[7]];
  }

  lemma CarryStep(p: int, cur: int, c: int, d: int, rest: int)
    requires cur == LIMB * c + d
    ensures p * (cur + LIMB * rest) == p * d + (LIMB * p) * (c + rest)
  {
    assert p * (LIMB * (c + rest)) == (LIMB * p) * (c + rest);
  }

  lemma {:induction false} EvalSplit(s: seq<int>, n: nat)
    requires n <= |s|
    ensures Eval(s) == Eval(s[..n]) + LimbPow(n) * Eval(s[n..])
  {
    if n == 0 {
      assert s[0..] == s && s[..0] == [];
    } else {
      EvalSplit(s[1..], n - 1);
      assert s[1..][..n - 1] == s[..n][1..];
      assert s[1..][n - 1..] == s[n..];
      assert LimbPow(n) == LIMB * LimbPow(n - 1);
      assert LIMB * (LimbPow(n - 1) * Eval(s[n..])) == (LIMB * LimbPow(n - 1)) * Eval(s[n..]);
    }
  }

  /** A product of two 128-bit words fits in eight limbs, so the last carry is zero. */
  lemma Halves(out: seq<int>, carry: int, x: u128, y: u128)
    requires |out| == 8 && 0 <= carry
    requires forall i :: 0 <= i < 8 ==> 0 <= out[i] < LIMB
    requires Eval(out) + LimbPow(8) * carry == x * y
    ensures x * y == Eval(out[4..]) * R + Eval(out[..4])
  {
    LimbPowers();
    EvalBound(out);
    EvalSplit(out, 4);
    MulMono(x, y, R);
    MulMono(R, x, R - 1);
    if carry >= 1 { MulMono(R * R, 1, carry); }
  }

  // ---------------------------------------------------------------- set-up

  lemma HalveExponent(a: int, b: nat)
    ensures a * b == (if b % 2 == 1 then a else 0) + (a + a) * (b / 2)
  {
    assert b == 2 * (b / 2) + b % 2;
    assert a * (2 * (b / 2)) == (a + a) * (b / 2);
  }

  /** The sum still to be formed by double-and-add. */
  ghost function Pending(r: int, a: int, b: nat, m: int): int
    requires 0 < m
  {
    (r + a * b) % m
  }

  lemma PendingEnds(a0: int, b0: nat, r: int, a: int, m: int)
    requires 0 <= r < m
    ensures Pending(0, a0 % m, b0, m) == (a0 * b0) % m
    ensures Pending(r, a, 0, m) == r
  {
    ModMod(a0, m);
    MulCong(a0 % m, a0, b0, b0, m);
    DivModUnique(r, m, 0, r);
  }

  /** One round of double-and-add keeps r + a * b modulo m. */
  lemma DoubleAndAdd(a: int, b: nat, r: int, a': int, r': int, m: int)
    requires 0 < m
    requires var sum := r + (if b % 2 == 1 then a else 0); r' == sum || r' == sum - m
    requires a' == a + a || a' == a + a - m
    ensures Pending(r', a', b / 2, m) == Pending(r, a, b, m)
  {
    HalveExponent(a, b);
    var sum := r + (if b % 2 == 1 then a else 0);
    ModShift(sum, sum - m, m, 1);
    ModShift(a + a, a + a - m, m, 1);
    MulCong(a', a + a, b / 2, b / 2, m);
    AddCong(r', sum, a' * (b / 2), (a + a) * (b / 2), m);
  }

  /** r + a reduced below m for r, a < m, taking the carry-out branch when r + a leaves 128 bits. */
  function AddMod(r: u128, a: u128, m: u128): (s: u128)
    requires r < m && a < m
    ensures s == if r + a >= m then r + a - m else r + a
  {
    match CheckedAdd(r, a)
    case Value(s) => if s >= m then s - m else s
    case Overflow => a - (m - r)
  }

  /** Shift-and-add product, correct for every modulus. */
  method NaiveMulMod(a0: u128, b0: u128, m: u128) returns (r: u128)
    requires 0 < m
    ensures r == (a0 * b0) % m
  {
    r := 0;
    var a: u128, b: u128 := a0 % m, b0;
    ghost var product := (a0 * b0) % m;
    PendingEnds(a0, b0, 0, 0, m);
    while b > 0
      invariant a < m && r < m
      invariant Pending(r, a, b, m) == product
      decreases b
    {
      ghost var r', a' := r, a;
      if b % 2 == 1 {
        r := AddMod(r, a, m);
      }
      a := AddMod(a, a, m);
      DoubleAndAdd(a', b, r', a, r, m);
      b := b / 2;
    }
    PendingEnds(a0, b0, r, a, m);
  }

  /** 2^(2^i): the precision after i Newton steps. */
  ghost function Precision(i: nat): int {
    if i == 0 then 2 else Precision(i - 1) * Precision(i - 1)
  }

  lemma PrecisionDividesR(i: nat)
    requires i <= 7
    ensures 0 < Precision(i) && Divides(Precision(i), R)
    ensures i == 7 ==> Precision(i) == R
  {
    assert Precision(1) == 4;
    assert Precision(2) == 16;
    assert Precision(3) == 0x100;
    assert Precision(4) == 0x1_0000;
    assert Precision(5) == 0x1_0000_0000;
    assert Precision(6) == 0x1_0000_0000_0000_0000;
    assert Precision(7) == Precision(6) * Precision(6) == R;
  }

  /** 1 - l*x' == (1 - l*x)^2 for x' = x(2 - l*x). */
  lemma NewtonResidue(l: int, x: int, p: int, t: int)
    requires l * x - 1 == p * t
    ensures l * (x * (2 - l * x)) - 1 == (p * p) * (0 - t * t)
  {
    var u := l * x - 1;
    assert l * (x * (2 - l * x)) == (l * x) * (2 - l * x);
    assert (u + 1) * (1 - u) == 1 - u * u;
    MulSwap(p, t, p, t);
    assert (p * p) * (0 - t * t) == 0 - (p * p) * (t * t);
  }

  /** One Newton step doubles the precision of an inverse of l; w is the modulus the step wraps at. */
  lemma NewtonStep(l: int, x: int, x': int, p: int, w: int)
    requires 0 < p && Divides(p, l * x - 1)
    requires 0 < p * p && 0 < w && Divides(p * p, w)
    requires x' % w == (x * (2 - l * x)) % w
    ensures Divides(p * p, l * x' - 1)
  {
    var t := DividesElim(p, l * x - 1);
    NewtonResidue(l, x, p, t);
    var y := x * (2 - l * x);
    ModOfDivisor(x', y, w, p * p);
    MulCong(l, l, x', y, p * p);
    AddCong(l * x', l * y, -1, -1, p * p);
    DividesIntro(p * p, l * y - 1, 0 - t * t);
  }

  lemma WrappedNewton(l: u128, x: u128)
    ensures WrappingMul(x, WrappingSub(2, WrappingMul(l, x))) % R == (x * (2 - l * x)) % R
  {
    ModMod(l * x, R);
    MulCong(-1, -1, WrappingMul(l, x), l * x, R);
    AddCong(2, 2, -1 * WrappingMul(l, x), -1 * (l * x), R);
    var s := WrappingSub(2, WrappingMul(l, x));
    ModShift(2 - WrappingMul(l, x), s, R, if 2 < WrappingMul(l, x) then -1 else 0);
    MulCong(x, x, s, 2 - l * x, R);
    ModMod(x * s, R);
  }

  datatype MontCtx = MontCtx(l: u128, nPrime: u128, r2: u128, one: u128) {

    /** What `New` establishes: nPrime is -1/l modulo R, one is R and r2 is R^2 modulo l. */
    ghost predicate Valid() {
      && l % 2 == 1
      && (nPrime * l + 1) % R == 0
      && one == R % l
      && r2 == (R * R) % l
    }

    static method New(l: u128) returns (ctx: MontCtx)
      requires l % 2 == 1
      ensures ctx.Valid() && ctx.l == l
    {
      var x: u128 := 1;
      var i := 0;
      DividesIntro(2, l * x - 1, l / 2);
      while i < 7
        invariant 0 <= i <= 7
        invariant 0 < Precision(i) && Divides(Precision(i), l * x - 1)
      {
        PrecisionDividesR(i + 1);
        WrappedNewton(l, x);
        ghost var was := x;
        x := WrappingMul(x, WrappingSub(2, WrappingMul(l, x)));
        NewtonStep(l, was, x, Precision(i), R);
        i := i + 1;
      }
      PrecisionDividesR(7);
      var nPrime := WrappingNeg(x);
      NegatedInverse(l, x, nPrime);
      var r1 := ((R - 1) % l + 1) % l;
      ModMod(R - 1, l);
      AddCong((R - 1) % l, R - 1, 1, 1, l);
      var r2 := NaiveMulMod(r1, r1, l);
      ModMod(R, l);
      MulCong(r1, R, r1, R, l);
      ctx := MontCtx(l, nPrime, r2, r1);
    }
  }

  lemma NegatedInverse(l: u128, x: u128, n: u128)
    requires Divides(R, l * x - 1) && n == WrappingNeg(x)
    ensures (n * l + 1) % R == 0
  {
    var t := DividesElim(R, l * x - 1);
    ModShift(R - x, n, R, if x == 0 then 1 else 0);
    MulCong(n, R - x, l, l, R);
    AddCong(n * l, (R - x) * l, 1, 1, R);
    assert (R - x) * l + 1 == R * l - (l * x - 1) == R * (l - t);
    DividesIntro(R, (R - x) * l + 1, l - t);
  }

  // ---------------------------------------------------------------- reduction

  /** The multiplier m = t_lo * n' makes the low words of T and m*l cancel: both are zero, or they
      add up to exactly R. */
  lemma LowWordsCancel(tLo: u128, n: u128, l: u128, mlHi: u128, mlLo: u128)
    requires (n * l + 1) % R == 0
    requires mlHi * R + mlLo == WrappingMul(tLo, n) * l
    ensures tLo + mlLo == 0 || tLo + mlLo == R
  {
    var m := WrappingMul(tLo, n);
    ModMod(tLo * n, R);
    MultiplierCancels(tLo, n, l, m, R);
    ModShift(mlLo, m * l, R, 0 - mlHi as int);
    AddCong(mlLo, m * l, tLo, tLo, R);
    ZeroOrR(tLo + mlLo);
  }

  lemma ZeroOrR(s: int)
    requires 0 <= s < 2 * R && s % R == 0
    ensures s == 0 || s == R
  {
    DivModUnique(s, R, if s < R then 0 else 1, if s < R then s else s - R);
  }

  lemma MultiplierCancels(t: int, n: int, l: int, m: int, w: int)
    requires 0 < w && (n * l + 1) % w == 0
    requires m % w == (t * n) % w
    ensures (m * l + t) % w == 0
  {
    MulCong(m, t * n, l, l, w);
    AddCong(m * l, (t * n) * l, t, t, w);
    assert (t * n) * l + t == t * (n * l + 1);
    ModMod(0, w);
    DivModUnique(0, w, 0, 0);
    MulCong(t, t, n * l + 1, 0, w);
  }

  /** (T + m*l) / R is below 2l. */
  lemma ReducedValue(T: int, ml: int, m: u128, l: u128, v: int)
    requires 0 < l && ml == m * l
    requires 0 <= T < l * R && v * R == T + ml
    ensures 0 <= v < 2 * l
  {
    MulMono(l, 0, m);
    MulMono(l, m, R - 1);
    assert v * R < 2 * l * R;
  }

  lemma ProductBound(a: u128, b: u128, l: u128)
    requires a < l
    ensures 0 <= a * b < l * R
  {
    MulMono(a, 0, b);
    MulMono(a, b, R);
    MulMono(R, a, l - 1);
    assert (l - 1) * R == l * R - R;
  }

  /** Adds the high words and the carry from the low ones and subtracts l once if needed; the
      branch on the carry out of 128 bits covers sums of R and more. */
  function AddHigh(tHi: u128, mlHi: u128, c1: bool, l: u128): (r: u128)
    requires 0 < l
    requires tHi + mlHi + (if c1 then 1 else 0) < 2 * l
    ensures var v := tHi + mlHi + (if c1 then 1 else 0); r == if v >= l then v - l else v
  {
    var (s, c2a) := OverflowingAdd(tHi, mlHi);
    var (sHi, c2b) := OverflowingAdd(s, if c1 then 1 else 0);
    if c2a || c2b then WrappingAdd(sHi, WrappingNeg(l))
    else if sHi >= l then sHi - l
    else sHi
  }

  /** Montgomery product a*b/R modulo l, whichever carry branch is taken. */
  method MontMul(ctx: MontCtx, a: u128, b: u128) returns (r: u128)
    requires ctx.Valid() && a < ctx.l
    ensures r < ctx.l
    ensures (r * R) % ctx.l == (a * b) % ctx.l
  {
    var tHi, tLo := Mul128(a, b);
    var m := WrappingMul(tLo, ctx.nPrime);
    var mlHi, mlLo := Mul128(m, ctx.l);
    var (_, c1) := OverflowingAdd(tLo, mlLo);
    MontSum(ctx, a, b, m, tHi, tLo, mlHi, mlLo, c1);
    r := AddHigh(tHi, mlHi, c1, ctx.l);
    ghost var v := tHi as int + mlHi as int + (if c1 then 1 else 0);
    SubtractOnce(r, v, ctx.l);
    MulCong(r, v, R, R, ctx.l);
  }

  lemma MontSum(ctx: MontCtx, a: u128, b: u128, m: u128, tHi: u128, tLo: u128, mlHi: u128, mlLo: u128, c1: bool)
    requires ctx.Valid() && a < ctx.l
    requires tHi * R + tLo == a * b
    requires m == WrappingMul(tLo, ctx.nPrime)
    requires mlHi * R + mlLo == m * ctx.l
    requires c1 == (tLo + mlLo >= R)
    ensures var v := tHi + mlHi + (if c1 then 1 else 0);
            0 <= v < 2 * ctx.l && (v * R) % ctx.l == (a * b) % ctx.l
  {
    LowWordsCancel(tLo, ctx.nPrime, ctx.l, mlHi, mlLo);
    ProductBound(a, b, ctx.l);
    var v := tHi + mlHi + (if c1 then 1 else 0);
    ReducedValue(a * b, m * ctx.l, m, ctx.l, v);
    ModShift(v * R, a * b, ctx.l, m);
  }

  lemma SubtractOnce(r: int, v: int, l: int)
    requires 0 < l && (r == v || r == v - l)
    ensures r % l == v % l
  {
    ModShift(v, v - l, l, 1);
  }

  // ---------------------------------------------------------------- exponentiation

  /** R is invertible modulo l, with the inverse that nPrime exhibits. */
  lemma RInverse(ctx: MontCtx) returns (k: nat)
    requires ctx.Valid()
    ensures (R * k) % ctx.l == 1 % ctx.l
  {
    k := (ctx.nPrime * ctx.l + 1) / R;
    assert R * k == ctx.nPrime * ctx.l + 1;
    ModShift(R * k, 1, ctx.l, ctx.nPrime);
  }

  /** The residue a Montgomery representative stands for, given k = 1/R. */
  ghost function Residue(x: int, k: int, l: int): int
    requires 0 < l
  {
    (x * k) % l
  }

  /** Montgomery multiplication is multiplication of the residues stood for. */
  lemma ResidueMul(r: int, a: int, b: int, k: int, l: int)
    requires 0 < l && (R * k) % l == 1 % l
    requires (r * R) % l == (a * b) % l
    ensures Residue(r, k, l) == (Residue(a, k, l) * Residue(b, k, l)) % l
  {
    UndoR(r, a * b, k, l, R);
    MulCong(r, (a * b) * k, k, k, l);
    MulModBoth(a * k, b * k, l);
    assert ((a * b) * k) * k == (a * k) * (b * k) by { MulSwap(a, b, k, k); }
  }

  lemma UndoR(r: int, t: int, k: int, l: int, w: int)
    requires 0 < l && (w * k) % l == 1 % l
    requires (r * w) % l == t % l
    ensures r % l == (t * k) % l
  {
    MulCong(r * w, t, k, k, l);
    assert (r * w) * k == r * (w * k);
    MulCong(r, r, w * k, 1, l);
  }

  method ToMont(ctx: MontCtx, x: u128) returns (r: u128)
    requires ctx.Valid()
    ensures r < ctx.l
    ensures forall k :: (R * k) % ctx.l == 1 % ctx.l ==> Residue(r, k, ctx.l) == x % ctx.l
  {
    r := MontMul(ctx, x % ctx.l, ctx.r2);
    forall k | (R * k) % ctx.l == 1 % ctx.l
      ensures Residue(r, k, ctx.l) == x % ctx.l
    {
      var l := ctx.l;
      ResidueMul(r, x % l, ctx.r2, k, l);
      ToMontResidue(x, k, l);
    }
  }

  lemma ToMontResidue(x: int, k: int, l: int)
    requires 0 < l && (R * k) % l == 1 % l
    ensures (Residue(x % l, k, l) * Residue((R * R) % l, k, l)) % l == x % l
  {
    ModMod(x, l);
    ModMod(R * R, l);
    MulCong(x % l, x, k, k, l);
    MulCong((R * R) % l, R * R, k, k, l);
    MulModBoth(x * k, (R * R) * k, l);
    Regroup(x, k, R);
    MulCong(R * k, 1, R * k, 1, l);
    MulCong(x, x, (R * k) * (R * k), 1, l);
  }

  lemma Regroup(x: int, k: int, r: int)
    ensures (x * k) * ((r * r) * k) == x * ((r * k) * (r * k))
  {
    assert (r * r) * k == r * (r * k);
    assert (x * k) * (r * (r * k)) == x * (k * (r * (r * k)));
    assert k * (r * (r * k)) == (r * k) * (r * k);
  }

  method FromMont(ctx: MontCtx, x: u128) returns (r: u128)
    requires ctx.Valid() && x < ctx.l
    ensures r < ctx.l
    ensures forall k :: (R * k) % ctx.l == 1 % ctx.l ==> r == Residue(x, k, ctx.l)
  {
    r := MontMul(ctx, x, 1);
    forall k | (R * k) % ctx.l == 1 % ctx.l
      ensures r == Residue(x, k, ctx.l)
    {
      UndoR(r, x * 1, k, ctx.l, R);
      DivModUnique(r, ctx.l, 0, r);
    }
  }

  /** What square-and-multiply has still to produce. */
  ghost function PendingPower(acc: int, b: int, e: nat, l: int): int
    requires 0 < l
  {
    (acc * Pow(b, e)) % l
  }

  lemma SquareAndMultiply(acc: int, b: int, e: nat, acc': int, b': int, l: int)
    requires 0 < l
    requires if e % 2 == 1 then acc' % l == (acc * b) % l else acc' == acc
    requires b' % l == (b * b) % l
    ensures PendingPower(acc', b', e / 2, l) == PendingPower(acc, b, e, l)
  {
    PowSquare(b, e);
    PowCong(b', b * b, e / 2, l);
    var p, p' := Pow(b * b, e / 2), Pow(b', e / 2);
    if e % 2 == 1 {
      MulCong(acc', acc * b, p', p, l);
      assert (acc * b) * p == acc * (b * p);
    } else {
      MulCong(acc', acc, p', p, l);
    }
  }

  lemma PowerEnds(base: int, e: nat, acc: int, b: int, l: int)
    requires 0 < l
    ensures PendingPower(1 % l, base % l, e, l) == Pow(base, e) % l
    ensures PendingPower(acc, b, 0, l) == acc % l
  {
    ModMod(1, l);
    ModMod(base, l);
    PowCong(base % l, base, e, l);
    MulCong(1 % l, 1, Pow(base % l, e), Pow(base, e), l);
  }

  lemma OneResidue(ctx: MontCtx, k: int)
    requires ctx.Valid() && (R * k) % ctx.l == 1 % ctx.l
    ensures ctx.one < ctx.l && Residue(ctx.one, k, ctx.l) == 1 % ctx.l
  {
    ModMod(R, ctx.l);
    MulCong(ctx.one, R, k, k, ctx.l);
  }

  /** base^exp modulo l by Montgomery square-and-multiply. */
  method Modpow(ctx: MontCtx, base: u128, exp: u128) returns (r: u128)
    requires ctx.Valid()
    ensures r == Pow(base, exp) % ctx.l
  {
    ghost var l := ctx.l;
    ghost var k := RInverse(ctx);
    OneResidue(ctx, k);
    var b := ToMont(ctx, base);
    var acc, e := ctx.one, exp;
    PowerEnds(base, exp, 0, 0, l);
    while e > 0
      invariant b < l && acc < l
      invariant PendingPower(Residue(acc, k, l), Residue(b, k, l), e, l) == Pow(base, exp) % l
      decreases e
    {
      ghost var acc', b' := acc, b;
      if e % 2 == 1 {
        acc := MontMul(ctx, acc, b);
        ResidueMul(acc, acc', b', k, l);
      }
      b := MontMul(ctx, b, b);
      ResidueMul(b, b', b', k, l);
      PowStep(acc', b', e, acc, b, k, l);
      e := e / 2;
    }
    PowerEnds(0, 0, Residue(acc, k, l), Residue(b, k, l), l);
    ModMod(acc * k, l);
    r := FromMont(ctx, acc);
  }

  lemma PowStep(acc: int, b: int, e: nat, acc': int, b': int, k: int, l: int)
    requires 0 < l
    requires if e % 2 == 1 then Residue(acc', k, l) == (Residue(acc, k, l) * Residue(b, k, l)) % l else acc' == acc
    requires Residue(b', k, l) == (Residue(b, k, l) * Residue(b, k, l)) % l
    ensures PendingPower(Residue(acc', k, l), Residue(b', k, l), e / 2, l)
         == PendingPower(Residue(acc, k, l), Residue(b, k, l), e, l)
  {
    ModMod(Residue(acc, k, l) * Residue(b, k, l), l);
    ModMod(Residue(b, k, l) * Residue(b, k, l), l);
    SquareAndMultiply(Residue(acc, k, l), Residue(b, k, l), e, Residue(acc', k, l), Residue(b', k, l), l);
  }
}
