/** Elementary number theory: congruences, powers, greatest common divisors, primes,
    Fermat's little theorem and Pocklington's theorem. */
module NumberTheory {

  // ---------------------------------------------------------------- division

  /** Quotient and remainder are determined by x == d * q + r with 0 <= r < d. */
  lemma DivModUnique(x: int, d: int, q: int, r: int)
    requires 0 <= r < d
    requires x == d * q + r
    ensures x / d == q && x % d == r
  {
    var q', r' := x / d, x % d;
    assert x == d * q' + r';
    assert d * (q - q') == r' - r;
    if q - q' >= 1 {
      MulMono(d, 1, q - q');
    } else if q - q' <= -1 {
      MulMono(d, q - q', -1);
    }
  }

  lemma MulMono(a: int, x: int, y: int)
    requires 0 <= a && x <= y
    ensures a * x <= a * y
  {}

  lemma MulPos(a: int, b: int)
    requires 0 <= a && 0 < a * b
    ensures 0 < a
  {}

  /** Congruence introduction. */
  lemma ModShift(a: int, b: int, n: int, k: int)
    requires 0 < n
    requires a == b + n * k
    ensures a % n == b % n
  {
    var q, r := b / n, b % n;
    assert n * (q + k) == n * q + n * k;
    DivModUnique(a, n, q + k, r);
  }

  /** Congruence elimination. */
  lemma ModDiff(a: int, b: int, n: int) returns (k: int)
    requires 0 < n
    requires a % n == b % n
    ensures a == b + n * k
  {
    k := a / n - b / n;
    assert n * k == n * (a / n) - n * (b / n);
  }

  lemma ModMod(a: int, n: int)
    requires 0 < n
    ensures (a % n) % n == a % n
  {}

  lemma MulCong(a: int, a': int, b: int, b': int, n: int)
    requires 0 < n
    requires a % n == a' % n && b % n == b' % n
    ensures (a * b) % n == (a' * b') % n
  {
    var k := ModDiff(a, a', n);
    var m := ModDiff(b, b', n);
    calc {
      a * b;
      (a' + n * k) * (b' + n * m);
      a' * b' + a' * (n * m) + n * k * b' + (n * k) * (n * m);
      { assert a' * (n * m) == n * (a' * m); assert n * k * b' == n * (k * b');
        assert (n * k) * (n * m) == n * (k * (n * m)); }
      a' * b' + n * (a' * m) + n * (k * b') + n * (k * (n * m));
      { assert n * (a' * m + k * b' + k * (n * m)) == n * (a' * m) + n * (k * b') + n * (k * (n * m)); }
      a' * b' + n * (a' * m + k * b' + k * (n * m));
    }
    ModShift(a * b, a' * b', n, a' * m + k * b' + k * (n * m));
  }

  lemma AddCong(a: int, a': int, b: int, b': int, n: int)
    requires 0 < n
    requires a % n == a' % n && b % n == b' % n
    ensures (a + b) % n == (a' + b') % n
  {
    var k := ModDiff(a, a', n);
    var m := ModDiff(b, b', n);
    assert n * (k + m) == n * k + n * m;
    ModShift(a + b, a' + b', n, k + m);
  }

  lemma MulModBoth(a: int, b: int, n: int)
    requires 0 < n
    ensures ((a % n) * (b % n)) % n == (a * b) % n
  {
    ModMod(a, n);
    ModMod(b, n);
    MulCong(a % n, a, b % n, b, n);
  }

  // ---------------------------------------------------------------- divisibility

  ghost predicate Divides(d: int, n: int)
    requires 0 < d
  {
    n % d == 0
  }

  lemma DividesIntro(d: int, n: int, k: int)
    requires 0 < d
    requires n == d * k
    ensures Divides(d, n) && n / d == k
  {
    DivModUnique(n, d, k, 0);
  }

  lemma DividesElim(d: int, n: int) returns (k: int)
    requires 0 < d && Divides(d, n)
    ensures n == d * k && k == n / d
    ensures 0 < n ==> 0 < k
  {
    k := n / d;
    assert n == d * k;
    if k <= 0 {
      MulMono(d, k, 0);
    }
  }

  lemma DividesTrans(a: int, b: int, c: int)
    requires 0 < a && 0 < b && Divides(a, b) && Divides(b, c)
    ensures Divides(a, c)
  {
    var k := DividesElim(a, b);
    var m := DividesElim(b, c);
    assert c == (a * k) * m == a * (k * m);
    DividesIntro(a, c, k * m);
  }

  lemma DividesSum(d: int, a: int, b: int, x: int, y: int)
    requires 0 < d && Divides(d, a) && Divides(d, b)
    ensures Divides(d, a * x + b * y)
  {
    var k := DividesElim(d, a);
    var m := DividesElim(d, b);
    assert (d * k) * x == d * (k * x) && (d * m) * y == d * (m * y);
    assert d * (k * x + m * y) == d * (k * x) + d * (m * y);
    DividesIntro(d, a * x + b * y, k * x + m * y);
  }

  lemma DividesLe(d: int, n: int)
    requires 0 < d && 0 < n && Divides(d, n)
    ensures d <= n
  {
    var k := DividesElim(d, n);
    MulMono(d, 1, k);
  }

  /** A divisor of the modulus sees the same congruence. */
  lemma ModOfDivisor(a: int, b: int, n: int, d: int)
    requires 0 < d && 0 < n && Divides(d, n)
    requires a % n == b % n
    ensures a % d == b % d
  {
    var k := ModDiff(a, b, n);
    var m := DividesElim(d, n);
    assert n * k == (d * m) * k == d * (m * k);
    ModShift(a, b, d, m * k);
  }

  // ---------------------------------------------------------------- powers

  ghost function Pow(b: int, e: nat): int {
    if e == 0 then 1 else b * Pow(b, e - 1)
  }

  lemma {:induction false} PowAdd(b: int, x: nat, y: nat)
    ensures Pow(b, x + y) == Pow(b, x) * Pow(b, y)
  {
    if x == 0 {
    } else {
      PowAdd(b, x - 1, y);
      assert Pow(b, x + y) == b * Pow(b, (x - 1) + y);
      assert b * (Pow(b, x - 1) * Pow(b, y)) == (b * Pow(b, x - 1)) * Pow(b, y);
    }
  }

  lemma {:induction false} PowMul(b: int, x: nat, y: nat)
    ensures 0 <= x * y
    ensures Pow(Pow(b, x), y) == Pow(b, x * y)
  {
    if y == 0 {
    } else {
      PowMul(b, x, y - 1);
      assert x * y == x + x * (y - 1);
      PowAdd(b, x, x * (y - 1));
    }
  }

  lemma {:induction false} PowBaseMul(a: int, b: int, e: nat)
    ensures Pow(a * b, e) == Pow(a, e) * Pow(b, e)
  {
    if e == 0 {
    } else {
      PowBaseMul(a, b, e - 1);
      MulSwap(a, b, Pow(a, e - 1), Pow(b, e - 1));
    }
  }

  lemma MulSwap(a: int, b: int, x: int, y: int)
    ensures (a * b) * (x * y) == (a * x) * (b * y)
  {
    assert (a * b) * (x * y) == a * (b * (x * y));
    assert b * (x * y) == x * (b * y);
    assert a * (x * (b * y)) == (a * x) * (b * y);
  }

  lemma {:induction false} PowPos(b: int, e: nat)
    requires 1 <= b
    ensures 1 <= Pow(b, e)
  {
    if e == 0 {
    } else {
      PowPos(b, e - 1);
      MulMono(b, 1, Pow(b, e - 1));
    }
  }

  lemma {:induction false} PowCong(a: int, b: int, e: nat, n: int)
    requires 0 < n && a % n == b % n
    ensures Pow(a, e) % n == Pow(b, e) % n
  {
    if e == 0 {
    } else {
      PowCong(a, b, e - 1, n);
      MulCong(a, b, Pow(a, e - 1), Pow(b, e - 1), n);
    }
  }

  lemma {:induction false} PowOne(e: nat)
    ensures Pow(1, e) == 1
  {
    if e == 0 {
    } else {
      PowOne(e - 1);
    }
  }

  /** b^2 absorbs one bit of the exponent; the step of square-and-multiply. */
  lemma PowSquare(b: int, e: nat)
    ensures Pow(b, e) == if e % 2 == 1 then b * Pow(b * b, e / 2) else Pow(b * b, e / 2)
  {
    var h := e / 2;
    PowMul(b, 2, h);
    assert Pow(b, 2) == b * Pow(b, 1) == b * b by { assert Pow(b, 1) == b * Pow(b, 0) == b; }
    assert e == 2 * h + e % 2;
  }

  // ---------------------------------------------------------------- gcd

  ghost function Gcd(a: nat, b: nat): nat
    decreases b
  {
    if b == 0 then a else Gcd(b, a % b)
  }

  lemma {:induction false} GcdDivides(a: nat, b: nat)
    requires 0 < a || 0 < b
    ensures 0 < Gcd(a, b) && Divides(Gcd(a, b), a) && Divides(Gcd(a, b), b)
    decreases b
  {
    if b == 0 {
      DividesIntro(a, a, 1);
      DividesIntro(a, 0, 0);
    } else {
      GcdDivides(b, a % b);
      var g := Gcd(b, a % b);
      assert a == b * (a / b) + a % b;
      DividesSum(g, b, a % b, a / b, 1);
    }
  }

  lemma {:induction false} Bezout(a: nat, b: nat) returns (x: int, y: int)
    ensures a * x + b * y == Gcd(a, b)
    decreases b
  {
    if b == 0 {
      x, y := 1, 0;
    } else {
      var u, v := Bezout(b, a % b);
      x, y := v, u - (a / b) * v;
      var q := a / b;
      assert a == b * q + a % b;
      assert b * (u - q * v) == b * u - (b * q) * v;
      assert a * v == (b * q) * v + (a % b) * v;
    }
  }

  /** Every common divisor divides the gcd: with GcdDivides, the gcd is the greatest one. */
  lemma CommonDivisor(d: nat, a: nat, b: nat)
    requires 0 < d && Divides(d, a) && Divides(d, b)
    ensures Divides(d, Gcd(a, b))
  {
    var x, y := Bezout(a, b);
    DividesSum(d, a, b, x, y);
  }

  // ---------------------------------------------------------------- primes

  ghost predicate Prime(p: int) {
    2 <= p && forall d :: 2 <= d < p ==> !Divides(d, p)
  }

  /** Every n >= 2 has a least divisor above one, and it is prime. */
  lemma LeastDivisor(n: int) returns (p: int)
    requires 2 <= n
    ensures Prime(p) && p <= n && Divides(p, n)
    ensures forall d :: 2 <= d < p ==> !Divides(d, n)
    ensures !Prime(n) ==> p * p <= n
  {
    p := 2;
    while !Divides(p, n)
      invariant 2 <= p <= n
      invariant forall d :: 2 <= d < p ==> !Divides(d, n)
      decreases n - p
    {
      if p == n { DividesIntro(n, n, 1); }
      p := p + 1;
    }
    forall d | 2 <= d < p
      ensures !Divides(d, p)
    {
      if Divides(d, p) { DividesTrans(d, p, n); }
    }
    if !Prime(n) {
      var k := DividesElim(p, n);
      if k < p {
        if k != 1 {
          DividesIntro(k, n, p);
        }
        assert false;
      }
      MulMono(p, p, k);
    }
  }

  lemma PrimeCoprime(p: int, a: nat)
    requires Prime(p) && !Divides(p, a)
    ensures Gcd(p, a) == 1
  {
    GcdDivides(p, a);
    var g := Gcd(p, a);
    DividesLe(g, p);
  }

  /** Euclid's lemma. */
  lemma EuclidLemma(p: int, a: nat, b: int)
    requires Prime(p) && Divides(p, a * b)
    ensures Divides(p, a) || Divides(p, b)
  {
    if !Divides(p, a) {
      PrimeCoprime(p, a);
      var x, y := Bezout(p, a);
      calc {
        b;
        (p * x + a * y) * b;
        (p * x) * b + (a * y) * b;
        { assert (p * x) * b == p * (x * b); assert (a * y) * b == (a * b) * y; }
        p * (x * b) + (a * b) * y;
      }
      DividesIntro(p, p, 1);
      DividesSum(p, p, a * b, x * b, y);
    }
  }

  /** A prime that divides a prime is that prime. */
  lemma PrimeDividesPrime(p: int, q: int)
    requires Prime(p) && Prime(q) && Divides(p, q)
    ensures p == q
  {
    DividesLe(p, q);
  }

  // ---------------------------------------------------------------- Fermat

  ghost function Prod(s: seq<int>): int {
    if s == [] then 1 else s[0] * Prod(s[1..])
  }

  ghost function Factorial(n: nat): int {
    if n == 0 then 1 else n * Factorial(n - 1)
  }

  lemma {:induction false} ProdRemove(s: seq<int>, i: nat)
    requires i < |s|
    ensures Prod(s) == s[i] * Prod(s[..i] + s[i + 1..])
  {
    var t := s[..i] + s[i + 1..];
    if i == 0 {
      assert t == s[1..];
    } else {
      ProdRemove(s[1..], i - 1);
      assert s[1..][..i - 1] + s[1..][i..] == t[1..];
      assert t[0] == s[0];
      var r := Prod(t[1..]);
      assert s[0] * (s[i] * r) == s[i] * (s[0] * r);
    }
  }

  ghost predicate Distinct(s: seq<int>) {
    forall i, j :: 0 <= i < j < |s| ==> s[i] != s[j]
  }

  ghost predicate Within(s: seq<int>, n: int) {
    forall i :: 0 <= i < |s| ==> 1 <= s[i] <= n
  }

  lemma {:induction false} DistinctCard(s: seq<int>)
    requires Distinct(s)
    ensures |set x | x in s| == |s|
  {
    if s != [] {
      DistinctCard(s[1..]);
      assert (set x | x in s) == {s[0]} + set x | x in s[1..];
      assert s[0] !in s[1..];
    }
  }

  ghost function UpTo(n: nat): (s: set<int>)
    ensures |s| == n
    ensures forall x :: x in s <==> 1 <= x <= n
  {
    if n == 0 then {} else UpTo(n - 1) + {n}
  }

  /** Pigeonhole: n distinct numbers of 1..n include n. */
  lemma Pigeonhole(s: seq<int>) returns (i: nat)
    requires 0 < |s| && Distinct(s)
    requires Within(s, |s|)
    ensures i < |s| && s[i] == |s|
  {
    if |s| !in s {
      DistinctCard(s);
      SubsetCard((set x | x in s), UpTo(|s| - 1));
      assert false;
    }
    i :| 0 <= i < |s| && s[i] == |s|;
  }

  lemma {:induction false} SubsetCard<T>(a: set<T>, b: set<T>)
    requires a <= b
    ensures |a| <= |b|
    decreases a
  {
    if a != {} {
      var x :| x in a;
      SubsetCard(a - {x}, b - {x});
    }
  }

  /** Any arrangement of 1..n has the same product. */
  lemma {:induction false} ProdPermutation(s: seq<int>)
    requires Distinct(s)
    requires Within(s, |s|)
    ensures Prod(s) == Factorial(|s|)
    decreases |s|
  {
    if s != [] {
      var i := Pigeonhole(s);
      var t := s[..i] + s[i + 1..];
      ProdRemove(s, i);
      forall j | 0 <= j < |t|
        ensures 1 <= t[j] <= |t|
      {
        assert t[j] == s[if j < i then j else j + 1];
      }
      ProdPermutation(t);
    }
  }

  ghost function Multiples(a: int, n: nat, p: int): (s: seq<int>)
    requires 0 < p
    ensures |s| == n
    ensures forall i :: 0 <= i < n ==> s[i] == (a * (i + 1)) % p
  {
    if n == 0 then [] else Multiples(a, n - 1, p) + [(a * n) % p]
  }

  lemma {:induction false} ProdAppend(s: seq<int>, x: int)
    ensures Prod(s + [x]) == Prod(s) * x
  {
    if s == [] {
      assert [] + [x] == [x];
      assert Prod([x]) == x * Prod([x][1..]) == x;
    } else {
      ProdAppend(s[1..], x);
      assert (s + [x])[1..] == s[1..] + [x];
      assert s[0] * (Prod(s[1..]) * x) == (s[0] * Prod(s[1..])) * x;
    }
  }

  lemma {:induction false} ProdMultiples(a: int, n: nat, p: int)
    requires 0 < p
    ensures Prod(Multiples(a, n, p)) % p == (Pow(a, n) * Factorial(n)) % p
  {
    if n == 0 {
    } else {
      ProdMultiples(a, n - 1, p);
      var s := Multiples(a, n - 1, p);
      ProdAppend(s, (a * n) % p);
      ModMod(a * n, p);
      MulCong(Prod(s), Pow(a, n - 1) * Factorial(n - 1), (a * n) % p, a * n, p);
      var x, y := Pow(a, n - 1), Factorial(n - 1);
      assert (x * y) * (a * n) == (a * x) * (n * y);
    }
  }

  lemma {:induction false} PrimeFactorial(p: int, n: nat)
    requires Prime(p) && n < p
    ensures 1 <= Factorial(n) && !Divides(p, Factorial(n))
  {
    if n == 0 {
    } else {
      PrimeFactorial(p, n - 1);
      MulMono(n, 1, Factorial(n - 1));
      if Divides(p, Factorial(n)) {
        EuclidLemma(p, n, Factorial(n - 1));
        DividesLe(p, n);
      }
    }
  }

  lemma MultiplesDistinct(a: nat, p: int)
    requires Prime(p) && !Divides(p, a)
    ensures Distinct(Multiples(a, p - 1, p))
    ensures Within(Multiples(a, p - 1, p), p - 1)
  {
    var s := Multiples(a, p - 1, p);
    forall i, j | 0 <= i < j < p - 1
      ensures s[i] != s[j]
    {
      if s[i] == s[j] {
        var k := ModDiff(a * (j + 1), a * (i + 1), p);
        assert a * (j - i) == a * (j + 1) - a * (i + 1) == p * k;
        DividesIntro(p, a * (j - i), k);
        EuclidLemma(p, a, j - i);
        DividesLe(p, j - i);
      }
    }
    forall i | 0 <= i < p - 1
      ensures 1 <= s[i] <= p - 1
    {
      if s[i] == 0 {
        EuclidLemma(p, a, i + 1);
        DividesLe(p, i + 1);
      }
    }
  }

  /** A factor coprime to p cancels from a congruence modulo p. */
  lemma CancelCoprime(p: int, f: nat, w: int)
    requires Prime(p) && !Divides(p, f)
    requires (w * f) % p == f % p
    ensures w % p == 1
  {
    var k := ModDiff(w * f, f, p);
    assert f * (w - 1) == w * f - f == p * k;
    DividesIntro(p, f * (w - 1), k);
    EuclidLemma(p, f, w - 1);
    var m := DividesElim(p, w - 1);
    DivModUnique(w, p, m, 1);
  }

  /** Fermat's little theorem. */
  lemma Fermat(p: int, a: nat)
    requires Prime(p) && !Divides(p, a)
    ensures Pow(a, p - 1) % p == 1
  {
    var s := Multiples(a, p - 1, p);
    MultiplesDistinct(a, p);
    ProdPermutation(s);
    ProdMultiples(a, p - 1, p);
    PrimeFactorial(p, p - 1);
    CancelCoprime(p, Factorial(p - 1), Pow(a, p - 1));
  }

  // ---------------------------------------------------------------- Pocklington

  /** If b^m and b^n are one modulo p, so is b to the gcd of m and n. */
  lemma {:induction false} PowGcd(b: int, m: nat, n: nat, p: int)
    requires 2 <= p
    requires Pow(b, m) % p == 1 && Pow(b, n) % p == 1
    ensures Pow(b, Gcd(m, n)) % p == 1
    decreases n
  {
    if n == 0 {
    } else {
      var q, r := m / n, m % n;
      assert m == n * q + r;
      MulMono(n, 0, q);
      PowAdd(b, n * q, r);
      PowMul(b, n, q);
      DivModUnique(1, p, 0, 1);
      PowCong(Pow(b, n), 1, q, p);
      PowOne(q);
      MulCong(Pow(b, n * q), 1, Pow(b, r), Pow(b, r), p);
      PowGcd(b, n, r, p);
    }
  }

  lemma PowOneMultiple(b: int, d: nat, k: nat, p: int)
    requires 2 <= p && Pow(b, d) % p == 1
    ensures 0 <= d * k && Pow(b, d * k) % p == 1
  {
    PowMul(b, d, k);
    DivModUnique(1, p, 0, 1);
    PowCong(Pow(b, d), 1, k, p);
    PowOne(k);
  }

  /** A prime factor p of l cannot kill a^((l-1)/q) - 1 when that number is coprime to l. */
  lemma WitnessKept(l: int, p: int, w: nat)
    requires 2 <= l && Prime(p) && Divides(p, l)
    requires Gcd((w + l - 1) % l, l) == 1
    ensures w % p != 1
  {
    if w % p == 1 {
      DivModUnique(1, p, 0, 1);
      var k := ModDiff(w, 1, p);
      var x := (w + l - 1) % l;
      DividesIntro(p, w - 1, k);
      DividesSum(p, w - 1, l, 1, 1);
      ModMod(w + l - 1, l);
      ModOfDivisor(x, w + l - 1, l, p);
      CommonDivisor(p, x, l);
      DividesLe(p, 1);
    }
  }

  /** b = a^r has order dividing f and dividing p - 1 modulo a prime factor p of l. */
  lemma CofactorPower(l: int, f: nat, r: nat, a: nat, p: int)
    requires 3 <= l && f * r == l - 1 && 1 <= a
    requires Prime(p) && Divides(p, l)
    requires Pow(a, l - 1) % l == 1
    ensures Pow(Pow(a, r), f) % p == 1
    ensures Pow(Pow(a, r), p - 1) % p == 1
  {
    DivModUnique(1, l, 0, 1);
    DivModUnique(1, p, 0, 1);
    ModOfDivisor(Pow(a, l - 1), 1, l, p);
    assert r * f == l - 1;
    PowMul(a, r, f);
    if Divides(p, a) {
      assert Pow(a, l - 1) == a * Pow(a, l - 2) + p * 0;
      DividesIntro(p, p, 1);
      DividesSum(p, a, p, Pow(a, l - 2), 0);
      assert false;
    }
    Fermat(p, a);
    PowOneMultiple(a, p - 1, r, p);
    PowMul(a, r, p - 1);
    assert (p - 1) * r == r * (p - 1);
  }

  lemma SplitFactor(n: int, f: nat, r: nat, d: nat, q: int, k: int)
    requires 0 < q && f * r == n && f == d * (q * k)
    ensures Divides(q, f) && n / q == r * (d * k)
  {
    assert f == q * (d * k);
    DividesIntro(q, f, d * k);
    assert (q * (d * k)) * r == q * (r * (d * k));
    DividesIntro(q, n, r * (d * k));
  }

  /** If a proper divisor d of f already sends b = a^r to one modulo p, the witness condition
      fails for some prime factor of f. */
  lemma ProperOrder(l: int, f: nat, r: nat, a: nat, p: int, d: nat)
    requires 3 <= l && f * r == l - 1 && 1 <= a
    requires Prime(p) && Divides(p, l)
    requires 0 < d < f && Divides(d, f)
    requires Pow(Pow(a, r), d) % p == 1
    ensures exists q :: Prime(q) && Divides(q, f) &&
              Gcd((Pow(a, (l - 1) / q) + l - 1) % l, l) != 1
  {
    var m := DividesElim(d, f);
    var q := LeastDivisor(m);
    var k := DividesElim(q, m);
    SplitFactor(l - 1, f, r, d, q, k);
    PowOneMultiple(Pow(a, r), d, k, p);
    PowMul(a, r, d * k);
    PowPos(a, (l - 1) / q);
    if Gcd((Pow(a, (l - 1) / q) + l - 1) % l, l) == 1 {
      WitnessKept(l, p, Pow(a, (l - 1) / q));
    }
  }

  /** Under Pocklington's conditions f divides p - 1 for every prime factor p of l. */
  lemma PocklingtonFactor(l: int, f: nat, r: nat, a: nat, p: int)
    requires 3 <= l && f * r == l - 1 && 1 <= a
    requires Prime(p) && Divides(p, l)
    requires Pow(a, l - 1) % l == 1
    requires forall q :: Prime(q) && Divides(q, f) ==>
               Gcd((Pow(a, (l - 1) / q) + l - 1) % l, l) == 1
    ensures 0 < f && Divides(f, p - 1)
  {
    CofactorPower(l, f, r, a, p);
    PowGcd(Pow(a, r), f, p - 1, p);
    GcdDivides(f, p - 1);
    var d := Gcd(f, p - 1);
    MulPos(f, r);
    DividesLe(d, f);
    if d < f {
      ProperOrder(l, f, r, a, p, d);
      assert false;
    }
  }

  /** Pocklington's theorem. */
  lemma Pocklington(l: int, f: nat, r: nat, a: nat)
    requires 3 <= l && f * r == l - 1
    requires l < f * f
    requires 1 <= a && Pow(a, l - 1) % l == 1
    requires forall q :: Prime(q) && Divides(q, f) ==>
               Gcd((Pow(a, (l - 1) / q) + l - 1) % l, l) == 1
    ensures Prime(l)
  {
    if !Prime(l) {
      var p := LeastDivisor(l);
      PocklingtonFactor(l, f, r, a, p);
      DividesLe(f, p - 1);
      MulMono(f, f, p);
      MulMono(p, f, p);
      assert false;
    }
  }
}
