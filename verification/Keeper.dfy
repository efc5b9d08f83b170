/** The off-chain prover (spikes/unicorn-circom/keeper.js and gen_pocklington_cert.js): small
    primes, smooth part, certificate search, modular arithmetic and the Wesolowski proof. */
module Keeper {
  import opened Wrappers
  import opened NumberTheory
  import opened U128
  import Pocklington

  const BOUND: nat := 0x1_0000

  // ---------------------------------------------------------------- sieve

  /** j has been crossed out by a prime below i. */
  ghost predicate Crossed(j: int, i: int) {
    exists p :: 2 <= p < i && Prime(p) && p * p <= j && Divides(p, j)
  }

  /** Once i * i exceeds j, exactly the composites are crossed out. */
  lemma CrossedMeansComposite(j: int, i: int)
    requires 2 <= j && 2 <= i && j < i * i
    ensures Crossed(j, i) <==> !Prime(j)
  {
    if Crossed(j, i) {
      var p :| 2 <= p < i && Prime(p) && p * p <= j && Divides(p, j);
      MulMono(p, 2, p);
      assert p < j;
    }
    if !Prime(j) {
      var p := LeastDivisor(j);
      if p >= i {
        MulMono(p, i, p);
        MulMono(i, i, p);
      }
      assert Crossed(j, i);
    }
  }

  lemma CrossedStep(j: int, i: int)
    requires 2 <= i
    ensures Crossed(j, i + 1) <==> Crossed(j, i) || (Prime(i) && i * i <= j && Divides(i, j))
  {}

  lemma BetweenMultiples(i: int, j: int, m: int)
    requires 2 <= i && Divides(i, j) && j <= m < j + i && Divides(i, m)
    ensures m == j
  {
    var a := DividesElim(i, j);
    var b := DividesElim(i, m);
    assert i * (b - a) == m - j;
    if b - a >= 1 { MulMono(i, 1, b - a); }
    if b - a <= -1 { MulMono(i, b - a, -1); }
  }

  /** m is crossed out once i has been handled as far as j. */
  ghost predicate Struck(m: int, i: int, j: int) {
    Crossed(m, i) || (0 < i && Divides(i, m) && i * i <= m < j)
  }

  lemma StruckStep(i: int, j: int)
    requires 2 <= i && i * i <= j && Divides(i, j)
    ensures Divides(i, j + i)
    ensures forall m :: Struck(m, i, j + i) <==> Struck(m, i, j) || m == j
  {
    var k := DividesElim(i, j);
    assert i * (k + 1) == i * k + i;
    DividesIntro(i, j + i, k + 1);
    forall m
      ensures Struck(m, i, j + i) <==> Struck(m, i, j) || m == j
    {
      if j <= m < j + i && Divides(i, m) { BetweenMultiples(i, j, m); }
    }
  }

  /** Crosses out i*i, i*i + i, ... in place. */
  method CrossOut(sieve: array<int>, i: int)
    requires 2 <= i && Prime(i)
    requires forall m :: 2 <= m < sieve.Length ==> (sieve[m] == 1 <==> !Crossed(m, i))
    modifies sieve
    ensures forall m :: 0 <= m < 2 && m < sieve.Length ==> sieve[m] == old(sieve[m])
    ensures forall m :: 2 <= m < sieve.Length ==> (sieve[m] == 1 <==> !Crossed(m, i + 1))
  {
    var j := i * i;
    DividesIntro(i, j, i);
    MulMono(i, 2, i);
    while j < sieve.Length
      invariant 4 <= i * i <= j && Divides(i, j)
      invariant forall m :: 0 <= m < 2 && m < sieve.Length ==> sieve[m] == old(sieve[m])
      invariant forall m :: 2 <= m < sieve.Length ==> (sieve[m] == 1 <==> !Struck(m, i, j))
      decreases sieve.Length - j
    {
      StruckStep(i, j);
      sieve[j] := 0;
      j := j + i;
    }
    forall m | 2 <= m < sieve.Length
      ensures Crossed(m, i + 1) <==> Struck(m, i, j)
    {
      CrossedStep(m, i);
    }
  }

  /** Sieve of Eratosthenes: cell n holds 1 exactly for the primes. */
  method Sieve() returns (sieve: array<int>)
    ensures fresh(sieve) && sieve.Length == BOUND + 1
    ensures forall n :: 0 <= n <= BOUND ==> (sieve[n] == 1 <==> Prime(n))
  {
    sieve := new int[BOUND + 1](_ => 1);
    sieve[0], sieve[1] := 0, 0;
    var i := 2;
    while i * i <= BOUND
      invariant 2 <= i <= BOUND
      invariant sieve[0] == sieve[1] == 0
      invariant forall m :: 2 <= m < sieve.Length ==> (sieve[m] == 1 <==> !Crossed(m, i))
      decreases BOUND - i
    {
      MulMono(i, 2, i);
      CrossedMeansComposite(i, i);
      if sieve[i] == 1 {
        CrossOut(sieve, i);
      } else {
        forall m | 2 <= m < sieve.Length
          ensures Crossed(m, i + 1) <==> Crossed(m, i)
        {
          CrossedStep(m, i);
        }
      }
      i := i + 1;
    }
    forall n | 2 <= n <= BOUND
      ensures sieve[n] == 1 <==> Prime(n)
    {
      CrossedMeansComposite(n, i);
    }
  }

  ghost predicate Increasing(s: seq<nat>) {
    forall i, j :: 0 <= i < j < |s| ==> s[i] < s[j]
  }

  /** The primes up to BOUND, in ascending order. */
  ghost predicate SmallPrimes(ps: seq<nat>) {
    && Increasing(ps)
    && forall p: nat :: p in ps <==> Prime(p) && p <= BOUND
  }

  method CollectPrimes() returns (ps: seq<nat>)
    ensures SmallPrimes(ps)
  {
    var sieve := Sieve();
    ps := [];
    for i := 2 to BOUND + 1
      invariant Increasing(ps) && forall k :: 0 <= k < |ps| ==> ps[k] < i
      invariant forall p: nat :: p in ps <==> Prime(p) && p < i
    {
      if sieve[i] == 1 {
        ps := ps + [i];
      }
    }
  }

  // ---------------------------------------------------------------- smooth part

  /** f collects every prime factor of n up to BOUND with its multiplicity; dist lists those primes. */
  ghost predicate SmoothPartOf(n: int, f: nat, dist: seq<nat>) {
    && 0 < f && Divides(f, n)
    && Increasing(dist)
    && (forall p: nat :: p in dist <==> Prime(p) && p <= BOUND && Divides(p, n))
    && (forall p: nat :: p in dist <==> Prime(p) && Divides(p, f))
    && (forall p: nat :: p in dist ==> !Divides(p, n / f))
  }

  /** The state of the trial-division loop: n == f * t, and the primes below `next` are gone from t. */
  ghost predicate Peeled(n: int, f: nat, t: nat, dist: seq<nat>, next: int) {
    && 0 < f && 0 < t && n == f * t
    && Increasing(dist)
    && (forall i :: 0 <= i < |dist| ==> dist[i] < next)
    && (forall p: nat :: p in dist <==> Prime(p) && Divides(p, f))
    && (forall p: nat :: Prime(p) && p < next && p <= BOUND ==> !Divides(p, t))
    && (forall p: nat :: p in dist ==> p <= BOUND)
  }

  lemma PrimeOfProduct(p: int, f: nat, t: nat)
    requires Prime(p)
    ensures Divides(p, f * t) <==> Divides(p, f) || Divides(p, t)
  {
    if Divides(p, f * t) { EuclidLemma(p, f, t); }
    if Divides(p, f) { DividesMultiple(p, f, t); }
    if Divides(p, t) { DividesMultiple(p, t, f); assert t * f == f * t; }
  }

  lemma DividesMultiple(d: int, a: int, b: int)
    requires 0 < d && Divides(d, a)
    ensures Divides(d, a * b)
  {
    var k := DividesElim(d, a);
    assert (d * k) * b == d * (k * b);
    DividesIntro(d, a * b, k * b);
  }

  lemma PrimesOfPrime(p: int, q: int)
    requires Prime(p) && Prime(q)
    ensures Divides(p, q) <==> p == q
  {
    if Divides(p, q) { PrimeDividesPrime(p, q); }
    DividesIntro(p, p, 1);
  }

  /** Moves every factor p of t into f. */
  method PeelPrime(p: nat, f0: nat, t0: nat) returns (f: nat, t: nat)
    requires Prime(p) && 0 < f0 && 0 < t0
    ensures 0 < f && 0 < t && f * t == f0 * t0
    ensures !Divides(p, t)
    ensures Divides(p, t0) ==> Divides(p, f)
    ensures forall q :: Prime(q) && q != p ==> (Divides(q, f) <==> Divides(q, f0))
    ensures forall q :: Prime(q) && Divides(q, t) ==> Divides(q, t0)
  {
    f, t := f0, t0;
    while t % p == 0
      invariant 0 < f && 0 < t && f * t == f0 * t0
      invariant Divides(p, t0) ==> Divides(p, t) || Divides(p, f)
      invariant forall q :: Prime(q) && q != p ==> (Divides(q, f) <==> Divides(q, f0))
      invariant forall q :: Prime(q) && Divides(q, t) ==> Divides(q, t0)
      decreases t
    {
      assert Divides(p, t);
      ghost var k := DividesElim(p, t);
      forall q | Prime(q)
        ensures Divides(q, f * p) <==> Divides(q, f) || q == p
        ensures Divides(q, k) ==> Divides(q, t)
      {
        PrimeOfProduct(q, f, p);
        PrimesOfPrime(q, p);
        PrimeOfProduct(q, p, k);
      }
      Pocklington.SquareGrowsBy(p, k);
      MulMono(f, 1, p);
      assert (f * p) * k == f * (p * k);
      f, t := f * p, t / p;
    }
  }

  lemma AfterPeel(n: int, f0: nat, t0: nat, dist: seq<nat>, p: nat, f: nat, t: nat)
    requires Peeled(n, f0, t0, dist, p) && Prime(p) && p <= BOUND && Divides(p, t0)
    requires 0 < f && 0 < t && f * t == f0 * t0
    requires !Divides(p, t) && Divides(p, f)
    requires forall q :: Prime(q) && q != p ==> (Divides(q, f) <==> Divides(q, f0))
    requires forall q :: Prime(q) && Divides(q, t) ==> Divides(q, t0)
    ensures Peeled(n, f, t, dist + [p], p + 1)
  {
    var d := dist + [p];
    forall q: nat
      ensures q in d <==> Prime(q) && Divides(q, f)
    {
    }
  }

  lemma NoPrimeSkipped(n: int, f: nat, t: nat, dist: seq<nat>, prev: int, next: int)
    requires Peeled(n, f, t, dist, prev) && prev <= next
    requires forall q :: Prime(q) && prev <= q < next ==> q > BOUND
    ensures Peeled(n, f, t, dist, next)
  {}

  /** What is left after peeling is one or a prime, once its square root has been passed. */
  lemma LeftoverIsPrime(n: int, f: nat, t: nat, dist: seq<nat>, next: int)
    requires Peeled(n, f, t, dist, next)
    requires 1 < t <= BOUND
    requires next > BOUND || t < next * next
    requires 0 <= next
    ensures Prime(t) && t !in dist && next <= t
  {
    var p := LeastDivisor(t);
    if p < next { assert false; }
    if !Prime(t) {
      MulMono(p, next, p);
      MulMono(next, next, p);
      assert false;
    }
    DividesIntro(t, t, 1);
  }

  lemma AddLeftover(n: int, f: nat, t: nat, dist: seq<nat>, next: int)
    requires Peeled(n, f, t, dist, next) && Prime(t) && next <= t <= BOUND
    ensures SmoothPartOf(n, f * t, dist + [t])
  {
    MulMono(f, 1, t);
    DividesIntro(f * t, n, 1);
    forall p: nat
      ensures Prime(p) ==> (Divides(p, f * t) <==> Divides(p, f) || p == t)
    {
      if Prime(p) {
        PrimeOfProduct(p, f, t);
        PrimesOfPrime(p, t);
      }
    }
    assert n / (f * t) == 1;
    forall p: nat | p in dist + [t]
      ensures !Divides(p, 1)
    {
      if Divides(p, 1) { DividesLe(p, 1); }
    }
  }

  lemma NoLeftover(n: int, f: nat, t: nat, dist: seq<nat>, next: int)
    requires Peeled(n, f, t, dist, next) && 0 <= next
    requires t == 1 || t > BOUND
    requires next > BOUND || t < next * next
    ensures SmoothPartOf(n, f, dist)
  {
    DividesIntro(f, n, t);
    forall p: nat | Prime(p) && p <= BOUND
      ensures !Divides(p, t)
      ensures Divides(p, n) <==> Divides(p, f)
    {
      if Divides(p, t) {
        DividesLe(p, t);
        var q := LeastDivisor(t);
        if q >= next {
          MulMono(q, next, q);
          MulMono(next, next, q);
        }
      }
      PrimeOfProduct(p, f, t);
    }
  }

  /** The number the loop looks at next: all smaller primes are in ps[..i]. */
  ghost function Frontier(ps: seq<nat>, i: nat): nat
    requires i <= |ps|
  {
    if i == |ps| then BOUND + 1 else ps[i]
  }

  lemma PrimeGap(ps: seq<nat>, i: nat)
    requires SmallPrimes(ps) && i < |ps|
    ensures ps[i] in ps && ps[i] + 1 <= Frontier(ps, i + 1)
    ensures forall q: nat :: Prime(q) && ps[i] + 1 <= q < Frontier(ps, i + 1) ==> q > BOUND
    ensures forall q: nat :: Prime(q) && q < Frontier(ps, 0) ==> q > BOUND
  {
    assert ps[i] in ps;
    if i + 1 < |ps| { assert ps[i + 1] in ps; }
    forall q: nat | Prime(q) && q <= BOUND
      ensures !(ps[i] + 1 <= q < Frontier(ps, i + 1))
      ensures Frontier(ps, 0) <= q
    {
      var j :| 0 <= j < |ps| && ps[j] == q;
      assert j <= i ==> ps[j] <= ps[i];
      assert i + 1 <= j ==> ps[i + 1] <= ps[j];
    }
  }

  lemma StartPeeling(ps: seq<nat>, n: nat)
    requires SmallPrimes(ps) && 0 < n
    ensures Peeled(n, 1, n, [], Frontier(ps, 0))
  {
    if |ps| > 0 { PrimeGap(ps, 0); }
    forall p: nat | Prime(p)
      ensures !Divides(p, 1)
      ensures p <= BOUND ==> Frontier(ps, 0) <= p
    {
      if Divides(p, 1) { DividesLe(p, 1); }
      if p <= BOUND { assert p in ps; }
    }
  }

  method SmoothPart(ps: seq<nat>, lm1: nat) returns (f: nat, dist: seq<nat>)
    requires SmallPrimes(ps) && 0 < lm1
    ensures SmoothPartOf(lm1, f, dist)
    ensures forall p: nat :: p in dist <==> Prime(p) && p <= 65536 && Divides(p, lm1)
  {
    f, dist := 1, [];
    var t := lm1;
    var i := 0;
    StartPeeling(ps, lm1);
    while i < |ps| && ps[i] * ps[i] <= t
      invariant 0 <= i <= |ps|
      invariant Peeled(lm1, f, t, dist, Frontier(ps, i))
    {
      var p := ps[i];
      PrimeGap(ps, i);
      if t % p == 0 {
        assert Divides(p, t);
        ghost var f0, t0 := f, t;
        f, t := PeelPrime(p, f, t);
        AfterPeel(lm1, f0, t0, dist, p, f, t);
        dist := dist + [p];
      } else {
        PeelNothing(lm1, f, t, dist, p);
      }
      NoPrimeSkipped(lm1, f, t, dist, p + 1, Frontier(ps, i + 1));
      i := i + 1;
    }
    if t > 1 && t <= BOUND {
      LeftoverIsPrime(lm1, f, t, dist, Frontier(ps, i));
      AddLeftover(lm1, f, t, dist, Frontier(ps, i));
      f, dist := f * t, dist + [t];
    } else {
      NoLeftover(lm1, f, t, dist, Frontier(ps, i));
    }
  }

  lemma PeelNothing(n: int, f: nat, t: nat, dist: seq<nat>, p: nat)
    requires 0 < p && !Divides(p, t)
    requires Peeled(n, f, t, dist, p)
    ensures Peeled(n, f, t, dist, p + 1)
  {}

  // ---------------------------------------------------------------- modular arithmetic

  lemma PowStep(r: int, b: int, e: nat, m: int)
    requires 0 < m
    ensures ((if e % 2 == 1 then (r * b) % m else r) * Pow((b * b) % m, e / 2)) % m == (r * Pow(b, e)) % m
  {
    PowSquare(b, e);
    ModMod(b * b, m);
    PowCong((b * b) % m, b * b, e / 2, m);
    var p, p' := Pow(b * b, e / 2), Pow((b * b) % m, e / 2);
    if e % 2 == 1 {
      ModMod(r * b, m);
      MulCong((r * b) % m, r * b, p', p, m);
      assert (r * b) * p == r * (b * p);
    } else {
      MulCong(r, r, p', p, m);
    }
  }

  lemma ModIdempotentPow(b: int, e: nat, m: int)
    requires 0 < m
    ensures (1 * Pow(b % m, e)) % m == Pow(b, e) % m
  {
    ModMod(b, m);
    PowCong(b % m, b, e, m);
  }

  /** Square-and-multiply on big integers. An exponent of zero gives one, even modulo one. */
  method Modpow(b0: nat, e0: nat, m: nat) returns (r: nat)
    requires 0 < m
    ensures r == if e0 == 0 then 1 else Pow(b0, e0) % m
    ensures r % m == Pow(b0, e0) % m
  {
    r := 1;
    var b, e := b0 % m, e0;
    ModIdempotentPow(b0, e0, m);
    while e > 0
      invariant (r * Pow(b, e)) % m == Pow(b0, e0) % m
      invariant r < m || (r == 1 && (e > 0 || e0 == 0))
      invariant e0 == 0 ==> r == 1 && e == 0
      decreases e
    {
      PowStep(r, b, e, m);
      if e % 2 == 1 {
        r := (r * b) % m;
      }
      b := (b * b) % m;
      e := e / 2;
    }
    if e0 > 0 { DivModUnique(r, m, 0, r); }
  }

  method GcdBig(a0: nat, b0: nat) returns (g: nat)
    ensures g == Gcd(a0, b0)
  {
    var a, b := a0, b0;
    while b != 0
      invariant Gcd(a, b) == Gcd(a0, b0)
      decreases b
    {
      a, b := b, a % b;
    }
    g := a;
  }

  lemma EuclidStep(x: int, m: int, or: int, r: int, os: int, s: int, q: int)
    requires 0 < m
    requires (os * x) % m == or % m && (s * x) % m == r % m
    ensures ((os - q * s) * x) % m == (or - q * r) % m
  {
    MulCong(q, q, s * x, r, m);
    MulCong(-1, -1, q * (s * x), q * r, m);
    AddCong(os * x, or, -1 * (q * (s * x)), -1 * (q * r), m);
    assert (os - q * s) * x == os * x + -1 * (q * (s * x)) by {
      assert (q * s) * x == q * (s * x);
    }
  }

  /** Modular inverse by the extended Euclidean algorithm. */
  method ModInv(x: nat, m: nat) returns (v: nat)
    requires 2 <= m && Gcd(x % m, m) == 1
    ensures v < m && (v * x) % m == 1
  {
    var or: nat, r: nat := ((x % m) + m) % m, m;
    var os: int, s: int := 1, 0;
    InverseStart(x, m);
    while r != 0
      invariant Gcd(or, r) == 1
      invariant (os * x) % m == or % m && (s * x) % m == r % m
      decreases r
    {
      var q := or / r;
      EuclidStep(x, m, or, r, os, s, q);
      assert or - q * r == or % r;
      or, r := r, or % r;
      os, s := s, os - q * s;
    }
    v := ((os % m) + m) % m;
    InverseEnd(os, x, m);
  }

  lemma InverseStart(x: nat, m: nat)
    requires 2 <= m
    ensures ((x % m) + m) % m == x % m
    ensures (1 * x) % m == (x % m) % m && (0 * x) % m == m % m
  {
    ModMod(x, m);
    DivModUnique((x % m) + m, m, 1, x % m);
    DivModUnique(m, m, 1, 0);
    DivModUnique(0, m, 0, 0);
  }

  lemma InverseEnd(os: int, x: nat, m: nat)
    requires 2 <= m && (os * x) % m == 1 % m
    ensures ((((os % m) + m) % m) * x) % m == 1
  {
    DivModUnique((os % m) + m, m, 1, os % m);
    ModMod(os, m);
    MulCong(os % m, os, x, x, m);
    DivModUnique(1, m, 0, 1);
  }

  // ---------------------------------------------------------------- Wesolowski proof

  lemma PowerOfProof(u: nat, pi: nat, Q: nat, l: nat, lq: nat, n: nat)
    requires 0 < n && pi % n == Pow(u, Q) % n && lq == l * Q
    ensures Pow(pi, l) % n == Pow(u, lq) % n
  {
    PowCong(pi, Pow(u, Q), l, n);
    PowMul(u, Q, l);
  }

  lemma ProofEquation(u: nat, y: int, pi: nat, a: int, b: int, l: nat, lq: nat, r: nat, n: nat)
    requires 0 < n
    requires y % n == Pow(u, lq + r) % n
    requires Pow(pi, l) % n == Pow(u, lq) % n
    requires a % n == Pow(pi, l) % n && b % n == Pow(u, r) % n
    ensures (a * b) % n == y % n
  {
    MulCong(a, Pow(u, lq), b, Pow(u, r), n);
    PowAdd(u, lq, r);
  }

  datatype Vdf = VdfCheckFailed | Vdf(y: nat, pi: nat, r: nat)

  /** (u mod n) | 1 */
  function OddResidue(u: nat, n: nat): (r: nat)
    requires 0 < n
    ensures r % 2 == 1 && (r == u % n || r == u % n + 1)
  {
    if (u % n) % 2 == 1 then u % n else u % n + 1
  }

  /** u^(2^T) modulo n, the result of the delay function. */
  ghost function Delayed(u: nat, T: nat, n: nat): nat
    requires 0 < n
  {
    PowPos(2, T);
    Pow(u, Pow(2, T)) % n
  }

  /** The delay function by repeated squaring. */
  method Squarings(u: nat, T: nat, n: nat) returns (y: nat)
    requires 0 < n
    ensures y == Delayed(u, T, n)
  {
    y := u % n;
    assert Pow(u, 1) == u * Pow(u, 0) == u;
    for i := 0 to T
      invariant y == Delayed(u, i, n)
    {
      SquareStep(u, y, i, n);
      y := (y * y) % n;
    }
  }

  lemma SquareStep(u: nat, y: nat, i: nat, n: nat)
    requires 0 < n && y == Delayed(u, i, n)
    ensures (y * y) % n == Delayed(u, i + 1, n)
  {
    PowPos(2, i);
    var p := Pow(2, i);
    assert Pow(2, i + 1) == 2 * p == p + p;
    PowAdd(u, p, p);
    ModMod(Pow(u, p), n);
    MulCong(y, Pow(u, p), y, Pow(u, p), n);
  }

  /** r = 2^T mod l and pi = u^((2^T - r)/l) modulo n. The self-check pi^l * u^r = y never fails,
      whatever u, n >= 1, T and l >= 2 are. */
  method WesolowskiProof(u: nat, y: nat, n: nat, T: nat, l: nat) returns (w: Vdf)
    requires 0 < n && 2 <= l
    requires y == Delayed(u, T, n)
    ensures w.Vdf? && w.y == y && w.r == Pow(2, T) % l
    ensures (Pow(w.pi, l) * Pow(u, w.r)) % n == y % n
  {
    var r := Modpow(2, T, l);
    var twoT := PowerOfTwo(T);
    ModMod(Pow(u, twoT), n);
    DivModUnique(1, l, 0, 1);
    ghost var q := twoT / l;
    assert twoT == l * q + r;
    DivModUnique(twoT - r, l, q, 0);
    var pi := Modpow(u, (twoT - r) / l, n);
    var a := Modpow(pi, l, n);
    var b := Modpow(u, r, n);
    PowerOfProof(u, pi, q, l, l * q, n);
    ProofEquation(u, y, pi, a, b, l, l * q, r, n);
    ProofEquation(u, y, pi, Pow(pi, l), Pow(u, r), l, l * q, r, n);
    if (a * b) % n != y % n {
      return VdfCheckFailed;
    }
    w := Vdf(y, pi, r);
  }

  method PowerOfTwo(T: nat) returns (p: nat)
    ensures p == Pow(2, T) && 1 <= p
  {
    p := 1;
    for i := 0 to T
      invariant p == Pow(2, i) && 1 <= p
    {
      p := 2 * p;
    }
  }

  // ---------------------------------------------------------------- the smooth part is unique

  /** Gauss: a factor of a * b sharing no prime with b is a factor of a. */
  lemma {:induction false} GaussLemma(f: nat, a: nat, b: nat)
    requires 0 < f && 0 < a && Divides(f, a * b)
    requires forall p :: Prime(p) && Divides(p, f) ==> !Divides(p, b)
    ensures Divides(f, a)
    decreases f
  {
    if f == 1 {
      DividesIntro(1, a, a);
    } else {
      var p := LeastDivisor(f);
      var k, m := GaussStep(f, a, b, p);
      assert f == k * p;
      forall q | Prime(q) && Divides(q, k)
        ensures !Divides(q, b)
      {
        DividesMultiple(q, k, p);
      }
      GaussLemma(k, m, b);
      DividesScaled(p, k, m);
    }
  }

  /** A prime of f that does not divide b cancels from f and a. */
  lemma GaussStep(f: nat, a: nat, b: nat, p: nat) returns (k: nat, m: nat)
    requires 0 < f && 0 < a && Divides(f, a * b)
    requires Prime(p) && Divides(p, f) && !Divides(p, b)
    ensures f == p * k && a == p * m && 0 < k < f && 0 < m && Divides(k, m * b)
  {
    k := DividesElim(p, f);
    DividesTrans(p, f, a * b);
    EuclidLemma(p, a, b);
    m := DividesElim(p, a);
    var j := DividesElim(f, a * b);
    CancelPrime(p, k, m, b, j);
    Pocklington.SquareGrowsBy(p, k);
  }

  lemma DividesScaled(p: int, k: int, m: int)
    requires 0 < k && 0 < p * k && Divides(k, m)
    ensures Divides(p * k, p * m)
  {
    var i := DividesElim(k, m);
    assert p * (k * i) == (p * k) * i;
    DividesIntro(p * k, p * m, i);
  }

  lemma CancelPrime(p: int, k: int, m: int, b: int, j: int)
    requires 0 < p && 0 < k
    requires (p * m) * b == (p * k) * j
    ensures Divides(k, m * b)
  {
    assert p * (m * b) == p * (k * j);
    assert m * b == k * j by {
      if m * b != k * j {
        if m * b < k * j { MulMono(p, m * b + 1, k * j); } else { MulMono(p, k * j + 1, m * b); }
      }
    }
    DividesIntro(k, m * b, j);
  }

  lemma HeadIn(t: seq<nat>)
    ensures t != [] ==> t[0] in t
  {}

  lemma {:induction false} SortedUnique(s: seq<nat>, t: seq<nat>)
    requires Increasing(s) && Increasing(t)
    requires forall x: nat :: x in s <==> x in t
    ensures s == t
    decreases |s|
  {
    if s == [] {
      HeadIn(t);
    } else {
      assert s[0] in t && t != [];
      assert t[0] in s;
      assert s[0] == t[0];
      forall x: nat
        ensures x in s[1..] <==> x in t[1..]
      {
        assert x in s[1..] <==> x in s && x != s[0];
        assert x in t[1..] <==> x in t && x != t[0];
      }
      SortedUnique(s[1..], t[1..]);
      assert s == [s[0]] + s[1..] && t == [t[0]] + t[1..];
    }
  }

  lemma SmoothDivides(n: nat, f: nat, d: seq<nat>, f': nat, d': seq<nat>)
    requires 0 < n && SmoothPartOf(n, f, d) && SmoothPartOf(n, f', d')
    ensures Divides(f, f')
  {
    var t := DividesElim(f', n);
    forall p | Prime(p) && Divides(p, f)
      ensures !Divides(p, t)
    {
      assert p in d;
    }
    GaussLemma(f, f', t);
  }

  lemma SmoothUnique(n: nat, f: nat, d: seq<nat>, f': nat, d': seq<nat>)
    requires 0 < n && SmoothPartOf(n, f, d) && SmoothPartOf(n, f', d')
    ensures f == f' && d == d'
  {
    SmoothDivides(n, f, d, f', d');
    SmoothDivides(n, f', d', f, d);
    DividesLe(f, f');
    DividesLe(f', f);
    SortedUnique(d, d');
  }

  // ---------------------------------------------------------------- certificate search

  const BASES: seq<nat> := [2, 3, 5, 7, 11, 13, 17, 19, 23]

  /** l is the low 128 bits of the digest with bits 127 and 0 forced to one: bits 1 to 126 are the
      digest's. */
  ghost predicate DerivedFrom(l: nat, digest: nat) {
    && 0x8000_0000_0000_0000_0000_0000_0000_0000 <= l < 0x1_0000_0000_0000_0000_0000_0000_0000_0000
    && l % 2 == 1
    && (l - 0x8000_0000_0000_0000_0000_0000_0000_0000) / 2 == (digest % 0x8000_0000_0000_0000_0000_0000_0000_0000) / 2
  }

  function DeriveL(digest: nat): (l: u128)
    ensures DerivedFrom(l, digest)
  {
    var high := digest % 0x8000_0000_0000_0000_0000_0000_0000_0000 + 0x8000_0000_0000_0000_0000_0000_0000_0000;
    if high % 2 == 1 then high else high + 1
  }

  /** Nothing else can be derived from a digest. */
  lemma DerivedUnique(l: nat, l': nat, digest: nat)
    requires DerivedFrom(l, digest) && DerivedFrom(l', digest)
    ensures l == l'
  {}

  datatype Candidate = Candidate(l: nat, f: nat, a: nat, dist: seq<nat>)

  ghost predicate CoprimePower(l: nat, a: nat, e: nat)
    requires 2 <= l
  {
    Gcd((Pow(a, e) + l - 1) % l, l) == 1
  }

  /** The check of one prime q of l - 1. */
  ghost predicate UnitAt(l: nat, a: nat, q: nat)
    requires 2 <= l && 0 < q
  {
    CoprimePower(l, a, (l - 1) / q)
  }

  ghost predicate BaseWorks(l: nat, a: nat, dist: seq<nat>)
    requires 2 <= l
  {
    && Pow(a, l - 1) % l == 1
    && forall i :: 0 <= i < |dist| && 0 < dist[i] ==> UnitAt(l, a, dist[i])
  }

  /** The least of the first nine primes that works as a base. */
  ghost predicate LeastBase(l: nat, a: nat, dist: seq<nat>)
    requires 2 <= l
  {
    && a in [2, 3, 5, 7, 11, 13, 17, 19, 23] && BaseWorks(l, a, dist)
    && forall b: nat :: b in [2, 3, 5, 7, 11, 13, 17, 19, 23] && b < a ==> !BaseWorks(l, b, dist)
  }

  /** Everything the search checks about a candidate, primality of l excepted. */
  ghost predicate Suitable(c: Candidate) {
    && 2 <= c.l
    && SmoothPartOf(c.l - 1, c.f, c.dist)
    && c.l < c.f * c.f && |c.dist| <= Pocklington.SLOTS
    && c.a in BASES && BaseWorks(c.l, c.a, c.dist)
  }

  ghost predicate Certifiable(l: nat) {
    exists c: Candidate :: c.l == l && Suitable(c)
  }

  method TryPrime(l: nat, a: nat, q: nat) returns (ok: bool)
    requires 2 <= l && 0 < q
    ensures ok <==> UnitAt(l, a, q)
  {
    var e := (l - 1) / q;
    var g := Modpow(a, e, l);
    AddCong(g, Pow(a, e), l - 1, l - 1, l);
    var d := GcdBig((g + l - 1) % l, l);
    ok := d == 1;
  }

  method TryBase(l: nat, a: nat, dist: seq<nat>) returns (ok: bool)
    requires 2 <= l && forall i :: 0 <= i < |dist| ==> 0 < dist[i]
    ensures ok <==> BaseWorks(l, a, dist)
  {
    var fermat := Modpow(a, l - 1, l);
    if fermat != 1 {
      return false;
    }
    for i := 0 to |dist|
      invariant forall k :: 0 <= k < i ==> UnitAt(l, a, dist[k])
    {
      var unit := TryPrime(l, a, dist[i]);
      if !unit {
        return false;
      }
    }
    ok := true;
  }

  method FindBase(l: nat, dist: seq<nat>) returns (a: nat)
    requires 2 <= l && forall i :: 0 <= i < |dist| ==> 0 < dist[i]
    ensures a != 0 ==> a in BASES && LeastBase(l, a, dist)
    ensures a == 0 ==> forall b :: b in BASES ==> !BaseWorks(l, b, dist)
  {
    a := 0;
    for i := 0 to |BASES|
      invariant forall k :: 0 <= k < i ==> !BaseWorks(l, BASES[k], dist)
    {
      var ok := TryBase(l, BASES[i], dist);
      if ok {
        return BASES[i];
      }
    }
  }

  /** One nonce of the grind: a suitable candidate for l, if there is any. */
  method Certify(ps: seq<nat>, l: nat) returns (c: Option<Candidate>)
    requires SmallPrimes(ps) && 2 <= l
    ensures c.Some? ==> c.value.l == l && Suitable(c.value) && LeastBase(l, c.value.a, c.value.dist)
    ensures c.None? ==> !Certifiable(l)
  {
    var f, dist := SmoothPart(ps, l - 1);
    forall i | 0 <= i < |dist|
      ensures 0 < dist[i]
    {
      assert dist[i] in dist;
    }
    forall d: Candidate | d.l == l && Suitable(d)
      ensures d.f == f && d.dist == dist
    {
      SmoothUnique(l - 1, f, dist, d.f, d.dist);
    }
    if f * f <= l || |dist| > Pocklington.SLOTS {
      return None;
    }
    var a := FindBase(l, dist);
    if a == 0 {
      return None;
    }
    c := Some(Candidate(l, f, a, dist));
  }

  /** The certificate emitted for the on-chain verifier, unused slots zero. */
  function ToCert(c: Candidate): Pocklington.PocklingtonCert
    requires 0 < c.f < R && c.l < R && 2 <= c.l && c.a < R
    requires |c.dist| <= Pocklington.SLOTS
    requires forall i :: 0 <= i < |c.dist| ==> c.dist[i] < R
  {
    DivLe(c.l - 1, c.f);
    Pocklington.Cert(c.l, c.f, (c.l - 1) / c.f, c.a, c.dist + seq(Pocklington.SLOTS - |c.dist|, _ => 0), |c.dist|)
  }

  lemma DivLe(n: nat, d: nat)
    requires 0 < d
    ensures 0 <= n / d <= n
  {
    var q := n / d;
    assert n == d * q + n % d;
    if q < 0 { MulMono(d, q, -1); }
    MulMono(q, 1, d);
  }

  lemma CandidateFits(c: Candidate)
    requires Suitable(c) && 0x8000_0000_0000_0000_0000_0000_0000_0000 <= c.l < R
    ensures 0 < c.f < R && c.a < R
    ensures forall i :: 0 <= i < |c.dist| ==> c.dist[i] < R
  {
    DividesLe(c.f, c.l - 1);
    forall i | 0 <= i < |c.dist|
      ensures c.dist[i] < R
    {
      assert c.dist[i] in c.dist;
    }
  }

  lemma AtLeastTwo(f: nat)
    requires 1 < f * f
    ensures 2 <= f
  {}

  /** Prover and verifier agree: whatever the search settles on, the emitted certificate is
      accepted, and so l is prime without trusting the probabilistic test. */
  lemma SearchIsSound(c: Candidate)
    requires Suitable(c) && 0x8000_0000_0000_0000_0000_0000_0000_0000 <= c.l < R && c.l % 2 == 1
    requires 0 < c.f < R && c.a < R
    requires forall i :: 0 <= i < |c.dist| ==> c.dist[i] < R
    ensures Pocklington.Certifies(ToCert(c)) && Prime(c.l)
  {
    var k := ToCert(c);
    var cof := DividesElim(c.f, c.l - 1);
    AtLeastTwo(c.f);
    var p := LeastDivisor(c.f);
    assert p in c.dist;
    assert k.factors[..k.nFactors] == c.dist;
    forall i | 0 <= i < k.nFactors
      ensures Prime(k.factors[i]) && Divides(k.factors[i], k.f)
    {
      assert k.factors[i] == c.dist[i] && c.dist[i] in c.dist;
    }
    assert Pocklington.Structure(k);
    forall i | 0 <= i < k.nFactors
      ensures Divides(k.factors[i], k.l - 1) && Pocklington.Witness(k.l, k.a, k.factors[i])
    {
      Pocklington.FactorDivides(k, k.factors[i]);
      DivLe(k.l - 1, k.factors[i]);
      assert k.factors[i] == c.dist[i];
      assert CoprimePower(c.l, c.a, (c.l - 1) / c.dist[i]);
    }
    Pocklington.CertifiedIsPrime(k);
  }

  datatype Found = NotFound | Found(nonce: nat, c: Candidate)

  ghost predicate NoneCertifiable(digest: nat -> nat, probablyPrime: nat -> bool, budget: nat) {
    forall k: nat :: k < budget ==> !(probablyPrime(k) && Certifiable(DeriveL(digest(k))))
  }

  /** keeper.js: the first nonce that passes the probable-prime test and can be certified. The
      test is an arbitrary oracle: soundness does not depend on it. */
  method Grind(ps: seq<nat>, digest: nat -> nat, probablyPrime: nat -> bool, budget: nat) returns (r: Found)
    requires SmallPrimes(ps)
    ensures r.Found? ==>
              && r.nonce < budget && probablyPrime(r.nonce)
              && r.c.l == DeriveL(digest(r.nonce)) && DerivedFrom(r.c.l, digest(r.nonce)) && Suitable(r.c)
              && Prime(r.c.l) && LeastBase(r.c.l, r.c.a, r.c.dist)
    ensures forall k: nat :: k < (if r.Found? then r.nonce else budget) ==>
              !(probablyPrime(k) && Certifiable(DeriveL(digest(k))))
  {
    for nonce := 0 to budget
      invariant forall k: nat :: k < nonce ==> !(probablyPrime(k) && Certifiable(DeriveL(digest(k))))
    {
      var l := DeriveL(digest(nonce));
      if probablyPrime(nonce) {
        var c := Certify(ps, l);
        if c.Some? {
          CandidateFits(c.value);
          SearchIsSound(c.value);
          return Found(nonce, c.value);
        }
      }
    }
    r := NotFound;
  }

  lemma SameFactors(l: nat, c: Option<Candidate>)
    requires c.Some? ==> c.value.l == l && Suitable(c.value)
    requires c.None? ==> !Certifiable(l)
    ensures forall d: Candidate :: d.l == l && Suitable(d) ==> c.Some? && d.dist == c.value.dist
  {
    forall d: Candidate | d.l == l && Suitable(d)
      ensures c.Some? && d.dist == c.value.dist
    {
      assert Certifiable(l);
      SmoothUnique(l - 1, c.value.f, c.value.dist, d.f, d.dist);
    }
  }

  /** gen_pocklington_cert.js: scans the whole range for the certifiable l with fewest distinct
      primes, stopping early at four or fewer. */
  method FewestFactors(ps: seq<nat>, digest: nat -> nat, probablyPrime: nat -> bool, max: nat) returns (r: Found)
    requires SmallPrimes(ps)
    ensures r.Found? ==>
              && r.nonce < max && probablyPrime(r.nonce)
              && r.c.l == DeriveL(digest(r.nonce)) && DerivedFrom(r.c.l, digest(r.nonce)) && Suitable(r.c)
              && Prime(r.c.l) && LeastBase(r.c.l, r.c.a, r.c.dist)
    ensures r.NotFound? ==> forall k: nat :: k < max ==> !(probablyPrime(k) && Certifiable(DeriveL(digest(k))))
    ensures r.Found? && |r.c.dist| > 4 ==>
              forall k: nat, c: Candidate :: k < max && probablyPrime(k) && c.l == DeriveL(digest(k)) && Suitable(c) ==>
                |r.c.dist| <= |c.dist|
  {
    r := NotFound;
    for nonce := 0 to max
      invariant r.Found? ==>
                  && r.nonce < nonce && probablyPrime(r.nonce)
                  && r.c.l == DeriveL(digest(r.nonce)) && Suitable(r.c) && LeastBase(r.c.l, r.c.a, r.c.dist)
                  && Prime(r.c.l) && |r.c.dist| > 4
      invariant forall k: nat, c: Candidate :: k < nonce && probablyPrime(k) && c.l == DeriveL(digest(k)) && Suitable(c) ==>
                  r.Found? && |r.c.dist| <= |c.dist|
    {
      var l := DeriveL(digest(nonce));
      if probablyPrime(nonce) {
        var c := Certify(ps, l);
        SameFactors(l, c);
        if c.Some? && (r.NotFound? || |c.value.dist| < |r.c.dist|) {
          CandidateFits(c.value);
          SearchIsSound(c.value);
          r := Found(nonce, c.value);
          if |c.value.dist| <= 4 {
            return;
          }
        }
      }
    }
  }

  // ---------------------------------------------------------------- circuit witness

  const CAP: nat := 64

  /** The multiplicity of p in n. */
  ghost function Multiplicity(p: nat, n: nat): nat
    requires 2 <= p && 0 < n
    decreases n
  {
    if Divides(p, n) then
      DivLe(n, p);
      assert n == p * (n / p);
      assert 0 < n / p < n by { var k := DividesElim(p, n); Pocklington.SquareGrowsBy(p, k); }
      1 + Multiplicity(p, n / p)
    else 0
  }

  ghost function CappedExponent(p: nat, n: nat): nat
    requires 2 <= p && 0 < n
  {
    if Multiplicity(p, n) > CAP then CAP else Multiplicity(p, n)
  }

  lemma {:induction false} MultiplicityDivides(p: nat, n: nat, e: nat)
    requires 2 <= p && 0 < n && e <= Multiplicity(p, n)
    ensures 0 < Pow(p, e) && Divides(Pow(p, e), n)
    decreases n
  {
    PowPos(p, e);
    if e == 0 {
      DividesIntro(1, n, n);
    } else {
      var k := DividesElim(p, n);
      Pocklington.SquareGrowsBy(p, k);
      MultiplicityDivides(p, k, e - 1);
      DividesScaled(p, Pow(p, e - 1), k);
    }
  }

  lemma {:induction false} PrimesOfPower(q: int, p: int, e: nat)
    requires Prime(q) && Prime(p)
    ensures Divides(q, Pow(p, e)) ==> q == p
  {
    if e == 0 {
      if Divides(q, 1) { DividesLe(q, 1); }
    } else {
      PrimesOfPower(q, p, e - 1);
      PowPos(p, e - 1);
      PrimeOfProduct(q, p, Pow(p, e - 1));
      PrimesOfPrime(q, p);
    }
  }

  method CountMultiplicity(p: nat, n: nat) returns (e: nat)
    requires 2 <= p && 0 < n
    ensures e == CappedExponent(p, n)
  {
    e := 0;
    var t := n;
    while t % p == 0
      invariant 0 < t
      invariant e + Multiplicity(p, t) == Multiplicity(p, n)
      decreases t
    {
      assert Divides(p, t);
      ghost var k := DividesElim(p, t);
      Pocklington.SquareGrowsBy(p, k);
      e, t := e + 1, t / p;
    }
    if e > CAP {
      e := CAP;
    }
  }

  method Power(p: nat, e: nat) returns (r: nat)
    ensures r == Pow(p, e)
  {
    r := 1;
    for i := 0 to e
      invariant r == Pow(p, i)
    {
      r := p * r;
    }
  }

  datatype Slot = Slot(q: nat, e: nat, ediv: nat, sinv: nat)

  /** One used slot of the circuit witness: its exponent, exact quotient, and the inverse showing
      a^((l-1)/q) - 1 to be a unit. */
  ghost predicate SlotOk(s: Slot, c: Candidate, i: nat)
    requires Suitable(c) && i < |c.dist|
  {
    assert c.dist[i] in c.dist;
    && s.q == c.dist[i]
    && s.e == CappedExponent(c.dist[i], c.l - 1)
    && s.q * s.ediv == c.l - 1
    && s.sinv < c.l && (s.sinv * (Pow(c.a, s.ediv) - 1)) % c.l == 1
  }

  datatype CircuitWitness = CappedTooSmall | CircuitWitness(slots: seq<Slot>, fCap: nat, rCap: nat)

  method MakeSlot(c: Candidate, i: nat) returns (s: Slot)
    requires Suitable(c) && i < |c.dist|
    ensures SlotOk(s, c, i)
  {
    assert c.dist[i] in c.dist;
    var p, l := c.dist[i], c.l;
    var e := CountMultiplicity(p, l - 1);
    ghost var k := DividesElim(p, l - 1);
    var ediv := (l - 1) / p;
    var g := Modpow(c.a, ediv, l);
    AddCong(g, Pow(c.a, ediv), l - 1, l - 1, l);
    assert CoprimePower(l, c.a, (l - 1) / c.dist[i]);
    var x: nat := (g + l - 1) % l;
    ModMod(g + l - 1, l);
    var v := ModInv(x, l);
    UnitModulo(v, x, Pow(c.a, ediv), l);
    s := Slot(p, e, ediv, v);
  }

  lemma UnitModulo(v: int, x: int, w: int, l: int)
    requires 2 <= l && x == (w + l - 1) % l && (v * x) % l == 1
    ensures (v * (w - 1)) % l == 1
  {
    ModMod(w + l - 1, l);
    ModShift(w + l - 1, w - 1, l, 1);
    MulCong(v, v, x, w - 1, l);
  }

  /** fCap is still composed of the processed primes only and divides l - 1. */
  ghost predicate CapOk(n: nat, dist: seq<nat>, i: nat, fCap: nat)
    requires i <= |dist|
  {
    && 0 < fCap && 0 < n && Divides(fCap, n)
    && forall q :: Prime(q) && Divides(q, fCap) ==> q in dist[..i]
  }

  lemma CapStart(n: nat, dist: seq<nat>)
    requires 0 < n
    ensures CapOk(n, dist, 0, 1)
  {
    DividesIntro(1, n, n);
    forall q | Prime(q)
      ensures !Divides(q, 1)
    {
      if Divides(q, 1) { DividesLe(q, 1); }
    }
  }

  lemma CapStep(n: nat, dist: seq<nat>, i: nat, fCap: nat, pe: nat, e: nat)
    requires i < |dist| && Increasing(dist) && Prime(dist[i])
    requires CapOk(n, dist, i, fCap)
    requires e <= Multiplicity(dist[i], n) && pe == Pow(dist[i], e)
    ensures CapOk(n, dist, i + 1, fCap * pe)
  {
    var p := dist[i];
    MultiplicityDivides(p, n, e);
    var rest := DividesElim(fCap, n);
    assert fCap * rest == rest * fCap;
    forall q | Prime(q) && Divides(q, pe)
      ensures !Divides(q, fCap)
    {
      PrimesOfPower(q, p, e);
    }
    GaussLemma(pe, rest, fCap);
    MulMono(fCap, 1, pe);
    DividesScaled(fCap, pe, rest);
    forall q | Prime(q) && Divides(q, fCap * pe)
      ensures q in dist[..i + 1]
    {
      PrimeOfProduct(q, fCap, pe);
      PrimesOfPower(q, p, e);
      assert dist[..i + 1] == dist[..i] + [p];
    }
  }

  ghost predicate PrimeList(dist: seq<nat>) {
    Increasing(dist) && forall i :: 0 <= i < |dist| ==> Prime(dist[i])
  }

  lemma SuitableList(c: Candidate)
    requires Suitable(c)
    ensures PrimeList(c.dist)
  {
    forall i | 0 <= i < |c.dist|
      ensures Prime(c.dist[i])
    {
      assert c.dist[i] in c.dist;
    }
  }

  /** The power of the i-th prime that the circuit is given. */
  ghost function CappedPower(n: nat, dist: seq<nat>, i: nat): int
    requires 0 < n && PrimeList(dist) && i < |dist|
  {
    Pow(dist[i], CappedExponent(dist[i], n))
  }

  /** The product of the capped prime powers of the first i primes. */
  ghost function PowersUpTo(n: nat, dist: seq<nat>, i: nat): int
    requires 0 < n && PrimeList(dist) && i <= |dist|
  {
    if i == 0 then 1 else PowersUpTo(n, dist, i - 1) * CappedPower(n, dist, i - 1)
  }

  ghost function CappedProduct(c: Candidate): int
    requires Suitable(c)
  {
    SuitableList(c);
    PowersUpTo(c.l - 1, c.dist, |c.dist|)
  }

  /** The first i primes have been turned into slots. */
  ghost predicate Assembled(c: Candidate, i: nat, slots: seq<Slot>, fCap: nat)
    requires Suitable(c) && PrimeList(c.dist) && i <= |c.dist|
  {
    && |slots| == i && (forall j :: 0 <= j < i ==> SlotOk(slots[j], c, j))
    && fCap == PowersUpTo(c.l - 1, c.dist, i) && CapOk(c.l - 1, c.dist, i, fCap)
  }

  method AddSlot(c: Candidate, i: nat, slots: seq<Slot>, fCap: nat) returns (slots': seq<Slot>, fCap': nat)
    requires Suitable(c) && PrimeList(c.dist) && i < |c.dist| && Assembled(c, i, slots, fCap)
    ensures Assembled(c, i + 1, slots', fCap')
  {
    var s := MakeSlot(c, i);
    var pe := Power(s.q, s.e);
    assert c.dist[i] in c.dist;
    PowPos(s.q, s.e);
    CapStep(c.l - 1, c.dist, i, fCap, pe, s.e);
    slots', fCap' := slots + [s], fCap * pe;
  }

  lemma {:induction false} PowersDivide(n: nat, dist: seq<nat>, i: nat)
    requires 0 < n && PrimeList(dist) && i <= |dist|
    ensures 0 < PowersUpTo(n, dist, i) && CapOk(n, dist, i, PowersUpTo(n, dist, i))
    decreases i
  {
    if i == 0 {
      CapStart(n, dist);
    } else {
      PowersDivide(n, dist, i - 1);
      PowPos(dist[i - 1], CappedExponent(dist[i - 1], n));
      CapStep(n, dist, i - 1, PowersUpTo(n, dist, i - 1), CappedPower(n, dist, i - 1), CappedExponent(dist[i - 1], n));
    }
  }

  lemma {:induction false} PowerInProduct(n: nat, dist: seq<nat>, i: nat, j: nat)
    requires 0 < n && PrimeList(dist) && j < i <= |dist|
    ensures 0 < CappedPower(n, dist, j) && Divides(CappedPower(n, dist, j), PowersUpTo(n, dist, i))
    decreases i
  {
    PowPos(dist[j], CappedExponent(dist[j], n));
    var before, last := PowersUpTo(n, dist, i - 1), CappedPower(n, dist, i - 1);
    if j == i - 1 {
      assert before * last == last * before;
      DividesIntro(last, before * last, before);
    } else {
      PowerInProduct(n, dist, i - 1, j);
      DividesMultiple(CappedPower(n, dist, j), before, last);
    }
  }

  /** What is left after the full power of a prime has been divided out is free of it. */
  lemma {:induction false} MultiplicityMaximal(p: nat, n: nat, k: nat)
    requires 2 <= p && 0 < n && n == Pow(p, Multiplicity(p, n)) * k
    ensures !Divides(p, k)
    decreases n
  {
    if Divides(p, n) {
      var h := DividesElim(p, n);
      Pocklington.SquareGrowsBy(p, h);
      var power := Pow(p, Multiplicity(p, h));
      assert p * h == p * (power * k);
      CancelFactor(p, h, power * k);
      MultiplicityMaximal(p, h, k);
    }
  }

  lemma CancelFactor(p: int, x: int, y: int)
    requires 0 < p && p * x == p * y
    ensures x == y
  {
    if x < y { MulMono(p, x + 1, y); }
    if y < x { MulMono(p, y + 1, x); }
  }

  lemma {:induction false} PowAtLeast(p: nat, e: nat)
    requires 2 <= p
    ensures 1 <= Pow(2, e) <= Pow(p, e)
  {
    if e > 0 {
      PowAtLeast(p, e - 1);
      MulMono(p, Pow(2, e - 1), Pow(p, e - 1));
      MulMono(Pow(2, e - 1), 2, p);
    }
  }

  /** A product with an exponent cut off at 64 is at least 2^64. */
  lemma CutOffIsLarge(n: nat, dist: seq<nat>, j: nat)
    requires 0 < n && PrimeList(dist) && j < |dist| && CappedExponent(dist[j], n) == CAP
    ensures PowersUpTo(n, dist, |dist|) >= 0x1_0000_0000_0000_0000
  {
    PowersDivide(n, dist, |dist|);
    PowerInProduct(n, dist, |dist|, j);
    DividesLe(CappedPower(n, dist, j), PowersUpTo(n, dist, |dist|));
    PowAtLeast(dist[j], CAP);
    TwoToCap();
  }

  lemma TwoToCap()
    ensures Pow(2, CAP) == 0x1_0000_0000_0000_0000
  {
    assert Pow(2, 8) == 0x100;
    PowAdd(2, 8, 8);
    PowAdd(2, 16, 16);
    PowAdd(2, 32, 32);
  }

  /** A prime whose power was not cut off is gone from the rest. */
  lemma UncutPrimeGone(n: nat, dist: seq<nat>, j: nat, rest: nat)
    requires 0 < n && PrimeList(dist) && j < |dist| && CappedExponent(dist[j], n) < CAP
    requires PowersUpTo(n, dist, |dist|) * rest == n
    ensures !Divides(dist[j], rest)
  {
    var power := CappedPower(n, dist, j);
    PowersDivide(n, dist, |dist|);
    PowerInProduct(n, dist, |dist|, j);
    var m := DividesElim(power, PowersUpTo(n, dist, |dist|));
    PrimeGone(dist[j], n, power, m, rest);
  }

  lemma PrimeGone(p: nat, n: nat, power: nat, m: nat, rest: nat)
    requires 2 <= p && 0 < n && power == Pow(p, Multiplicity(p, n)) && (power * m) * rest == n
    ensures !Divides(p, rest)
  {
    assert n == power * (m * rest) && m * rest == rest * m;
    if Divides(p, rest) { DividesMultiple(p, rest, m); }
    MultiplicityMaximal(p, n, m * rest);
  }

  /** Without a cut the product holds all of the smooth part. */
  lemma UncutHoldsSmoothPart(n: nat, f: nat, dist: seq<nat>)
    requires 0 < n && PrimeList(dist) && SmoothPartOf(n, f, dist)
    requires forall j :: 0 <= j < |dist| ==> CappedExponent(dist[j], n) < CAP
    ensures f <= PowersUpTo(n, dist, |dist|)
  {
    var product := PowersUpTo(n, dist, |dist|);
    PowersDivide(n, dist, |dist|);
    var rest := DividesElim(product, n);
    forall p | Prime(p) && Divides(p, f)
      ensures !Divides(p, rest)
    {
      assert p in dist;
      var j :| 0 <= j < |dist| && dist[j] == p;
      UncutPrimeGone(n, dist, j, rest);
    }
    GaussLemma(f, product, rest);
    DividesLe(f, product);
  }

  /** The prover's final check cannot fail for any l of the source's width: either an exponent was
      cut at 64 and its power alone is large enough, or nothing was cut and the check repeats that
      of the search. */
  lemma CappedProductSuffices(c: Candidate)
    requires Suitable(c) && c.l < R
    ensures c.l < CappedProduct(c) * CappedProduct(c)
  {
    SuitableList(c);
    var product := CappedProduct(c);
    if j :| 0 <= j < |c.dist| && CappedExponent(c.dist[j], c.l - 1) == CAP {
      CutOffIsLarge(c.l - 1, c.dist, j);
      MulMono(product, 0x1_0000_0000_0000_0000, product);
      MulMono(0x1_0000_0000_0000_0000, 0x1_0000_0000_0000_0000, product);
    } else {
      UncutHoldsSmoothPart(c.l - 1, c.f, c.dist);
      MulMono(c.f, c.f, product);
      MulMono(product, c.f, product);
    }
  }

  /** The slots of the witness and fCap * rCap = l - 1. */
  ghost predicate WitnessFor(w: CircuitWitness, c: Candidate)
    requires Suitable(c)
  {
    && w.CircuitWitness?
    && w.fCap == CappedProduct(c) && w.fCap * w.rCap == c.l - 1 && c.l < w.fCap * w.fCap
    && |w.slots| == Pocklington.SLOTS
    && (forall i :: 0 <= i < |c.dist| ==> SlotOk(w.slots[i], c, i))
    && (forall i :: |c.dist| <= i < Pocklington.SLOTS ==> w.slots[i] == Slot(2, 0, 0, 0))
  }

  /** Assembles the in-circuit certificate. For an l of 128 bits, the only ones the search derives,
      the failing exit is never taken. */
  method AssembleWitness(c: Candidate) returns (w: CircuitWitness)
    requires Suitable(c)
    ensures w.CappedTooSmall? <==> CappedProduct(c) * CappedProduct(c) <= c.l
    ensures w.CircuitWitness? ==> WitnessFor(w, c)
    ensures c.l < R ==> w.CircuitWitness?
  {
    var slots: seq<Slot>, fCap: nat := [], 1;
    SuitableList(c);
    CapStart(c.l - 1, c.dist);
    for i := 0 to |c.dist|
      invariant Assembled(c, i, slots, fCap)
    {
      slots, fCap := AddSlot(c, i, slots, fCap);
    }
    slots := slots + seq(Pocklington.SLOTS - |slots|, _ => Slot(2, 0, 0, 0));
    if c.l < R { CappedProductSuffices(c); }
    if fCap * fCap <= c.l {
      return CappedTooSmall;
    }
    ghost var k := DividesElim(fCap, c.l - 1);
    w := CircuitWitness(slots, fCap, (c.l - 1) / fCap);
  }

  // ---------------------------------------------------------------- the whole prover

  datatype Proof =
    | NoCertifiable
    | SelfCheckFailed
    | CappedProductTooSmall
    | Proof(u: nat, vdf: Vdf, nonce: nat, c: Candidate, w: CircuitWitness)

  /** keeper.js, genWitness: delay function, search, proof and certificate. Of its three failing
      exits only the exhausted search can be taken, and that exactly when no nonce of the budget
      gives a certifiable l. The digest of a nonce may depend on u and y. */
  method GenWitness(ps: seq<nat>, u0: nat, n: nat, T: nat, budget: nat,
                    digest: (nat, nat) -> (nat -> nat), probablyPrime: nat -> bool) returns (r: Proof)
    requires SmallPrimes(ps) && 0 < n
    ensures r.NoCertifiable? || r.Proof?
    ensures r.NoCertifiable? <==>
              NoneCertifiable(digest(OddResidue(u0, n), Delayed(OddResidue(u0, n), T, n)), probablyPrime, budget)
    ensures r.Proof? ==>
              && r.u == OddResidue(u0, n) && r.nonce < budget
              && DerivedFrom(r.c.l, digest(r.u, Delayed(r.u, T, n))(r.nonce)) && LeastBase(r.c.l, r.c.a, r.c.dist)
              && Suitable(r.c) && Prime(r.c.l) && WitnessFor(r.w, r.c) && |r.w.slots| == 8
    ensures r.Proof? ==>
              && r.vdf.Vdf? && r.vdf.y == Delayed(r.u, T, n)
              && (Pow(r.vdf.pi, r.c.l) * Pow(r.u, r.vdf.r)) % n == r.vdf.y % n
  {
    var u := OddResidue(u0, n);
    var y := Squarings(u, T, n);
    assert y == Delayed(u, T, n);
    var found := Grind(ps, digest(u, y), probablyPrime, budget);
    assert found.NotFound? <==> NoneCertifiable(digest(u, y), probablyPrime, budget);
    if found.NotFound? {
      return NoCertifiable;
    }
    var vdf := WesolowskiProof(u, y, n, T, found.c.l);
    if vdf.VdfCheckFailed? {
      return SelfCheckFailed;
    }
    var w := AssembleWitness(found.c);
    if w.CappedTooSmall? {
      return CappedProductTooSmall;
    }
    r := Proof(u, vdf, found.nonce, found.c, w);
  }
}
