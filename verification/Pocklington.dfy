/** The on-chain primality verifier (programs/unicorn-spike/src/pocklington.rs). */
module Pocklington {
  import opened NumberTheory
  import opened U128
  import opened Montgomery

  const SLOTS: nat := 8

  /** Certificate as submitted: every field is an arbitrary machine word. */
  datatype Cert = Cert(l: u128, f: u128, r: u128, a: u128, factors: seq<u128>, nFactors: nat)

  type PocklingtonCert = c: Cert | |c.factors| == SLOTS && c.nFactors < 256
    witness Cert(0, 0, 0, 0, [0, 0, 0, 0, 0, 0, 0, 0], 0)

  method GcdU128(a0: u128, b0: u128) returns (g: u128)
    ensures g == Gcd(a0, b0)
  {
    var a: u128, b: u128 := a0, b0;
    while b != 0
      invariant Gcd(a, b) == Gcd(a0, b0)
      decreases b
    {
      a, b := b, a % b;
    }
    g := a;
  }

  lemma NoSmallDivisor(q: int, d: int)
    requires 2 <= q && q < d * d && 0 < d
    requires forall e :: 2 <= e < d ==> !Divides(e, q)
    ensures Prime(q)
  {
    var p := LeastDivisor(q);
    if p != q {
      if p < d { assert false; }
      if !Prime(q) {
        MulMono(p, d, p);
        MulMono(d, d, p);
        assert false;
      }
    }
  }

  lemma OddStep(q: int, d: int)
    requires 3 <= d && d % 2 == 1 && q % 2 == 1
    requires forall e :: 2 <= e < d ==> !Divides(e, q)
    requires !Divides(d, q)
    ensures forall e :: 2 <= e < d + 2 ==> !Divides(e, q)
  {
    if Divides(d + 1, q) {
      var k := DividesElim(d + 1, q);
      var h := (d + 1) / 2;
      assert q == (2 * h) * k == 2 * (h * k);
      DividesIntro(2, q, h * k);
    }
  }

  /** Trial division decides primality for every 128-bit number; the trial square never wraps. */
  method IsPrimeTrial(q: u128) returns (prime: bool)
    ensures prime <==> Prime(q)
  {
    if q < 2 {
      return false;
    }
    if q % 2 == 0 {
      assert Divides(2, q);
      return q == 2;
    }
    var d: u128 := 3;
    while CheckedMul(d, d).Value? && CheckedMul(d, d).v <= q
      invariant 3 <= d && d % 2 == 1 && d <= 0x1_0000_0000_0000_0001
      invariant forall e :: 2 <= e < d ==> !Divides(e, q)
      decreases 0x1_0000_0000_0000_0002 - d
    {
      SquareRoot(d);
      if q % d == 0 {
        assert Divides(d, q) && d < q by { SquareGrows(d); }
        return false;
      }
      OddStep(q, d);
      d := d + 2;
    }
    assert q < d * d;
    NoSmallDivisor(q, d);
    prime := true;
  }

  lemma SquareRoot(d: u128)
    requires d * d < R
    ensures d < 0x1_0000_0000_0000_0000
  {
    if d >= 0x1_0000_0000_0000_0000 {
      MulMono(d, 0x1_0000_0000_0000_0000, d);
      MulMono(0x1_0000_0000_0000_0000, 0x1_0000_0000_0000_0000, d);
    }
  }

  lemma SquareGrows(d: int)
    requires 2 <= d
    ensures d < d * d
  {
    MulMono(d, 2, d);
  }

  // ---------------------------------------------------------------- the certificate

  /** f is fully factored over the listed primes. */
  ghost predicate FactorsList(c: PocklingtonCert) {
    && 1 <= c.nFactors <= SLOTS
    && (forall i :: 0 <= i < c.nFactors ==> Prime(c.factors[i]) && Divides(c.factors[i], c.f))
    && (forall p :: Prime(p) && Divides(p, c.f) ==> p in c.factors[..c.nFactors])
  }

  /** a^((l-1)/q) - 1 is coprime to l. */
  ghost predicate Witness(l: u128, a: u128, q: int)
    requires 3 <= l && 0 < q && Divides(q, l - 1)
  {
    0 <= (l - 1) / q && Gcd((Pow(a, (l - 1) / q) + l - 1) % l, l) == 1
  }

  /** The parts of the certificate that do not involve the base. */
  ghost predicate Structure(c: PocklingtonCert) {
    && 3 <= c.l && c.l % 2 == 1
    && c.f * c.r == c.l - 1
    && FactorsList(c)
    && c.l < c.f * c.f
  }

  lemma FactorDivides(c: PocklingtonCert, q: int)
    requires 3 <= c.l && c.f * c.r == c.l - 1 && 0 < q && Divides(q, c.f)
    ensures Divides(q, c.l - 1)
  {
    var k := DividesElim(q, c.f);
    assert (q * k) * c.r == q * (k * c.r);
    DividesIntro(q, c.l - 1, k * c.r);
  }

  /** What Pocklington's theorem asks for, in exact arithmetic. */
  ghost predicate Certifies(c: PocklingtonCert) {
    && Structure(c)
    && 2 <= c.a < c.l
    && Pow(c.a, c.l - 1) % c.l == 1
    && forall i :: 0 <= i < c.nFactors ==>
         Divides(c.factors[i], c.l - 1) && Witness(c.l, c.a, c.factors[i])
  }

  /** Soundness: a certificate is only ever issued for a prime. */
  lemma CertifiedIsPrime(c: PocklingtonCert)
    requires Certifies(c)
    ensures Prime(c.l)
  {
    forall q | Prime(q) && Divides(q, c.f)
      ensures Gcd((Pow(c.a, (c.l - 1) / q) + c.l - 1) % c.l, c.l) == 1
    {
      var i :| 0 <= i < c.nFactors && c.factors[i] == q;
      assert Witness(c.l, c.a, c.factors[i]);
    }
    Pocklington(c.l, c.f, c.r, c.a);
  }

  /** a to the (l-1)/q is not one modulo l: a is not a q-th power residue. */
  ghost predicate NonResidue(l: u128, a: u128, q: int)
    requires 3 <= l && 0 < q
  {
    Divides(q, l - 1) && 0 <= (l - 1) / q && Pow(a, (l - 1) / q) % l != 1
  }

  /** For a prime l the verifier's two modular conditions say exactly that the base is not a q-th
      power residue for any listed prime q: no correct certificate for a prime is turned away. */
  lemma AcceptedForPrime(c: PocklingtonCert)
    requires Prime(c.l) && Structure(c) && 2 <= c.a < c.l
    ensures Certifies(c) <==> forall i :: 0 <= i < c.nFactors ==> NonResidue(c.l, c.a, c.factors[i])
  {
    if Divides(c.l, c.a) { DividesLe(c.l, c.a); }
    Fermat(c.l, c.a);
    forall i | 0 <= i < c.nFactors
      ensures Divides(c.factors[i], c.l - 1)
      ensures Witness(c.l, c.a, c.factors[i]) <==> NonResidue(c.l, c.a, c.factors[i])
    {
      FactorDivides(c, c.factors[i]);
      WitnessForPrime(c.l, c.a, c.factors[i]);
    }
  }

  lemma WitnessForPrime(l: u128, a: u128, q: int)
    requires 3 <= l && Prime(l) && 0 < q && Divides(q, l - 1)
    ensures Witness(l, a, q) <==> NonResidue(l, a, q)
  {
    var k := DividesElim(q, l - 1);
    PrimeWitness(l, Pow(a, k));
  }

  lemma PrimeWitness(l: u128, w: int)
    requires Prime(l)
    ensures Gcd((w + l - 1) % l, l) == 1 <==> w % l != 1
  {
    var x := (w + l - 1) % l;
    LessOne(w, l);
    GcdDivides(x, l);
    if w % l == 1 {
      assert x == 0;
      CommonDivisor(l, x, l) by { DividesIntro(l, 0, 0); DividesIntro(l, l, 1); }
      DividesLe(l, Gcd(x, l));
    } else {
      assert x != 0;
      var g := Gcd(x, l);
      DividesLe(g, x);
    }
  }

  /** (w - 1) mod l, computed without a negative intermediate. */
  lemma LessOne(w: int, l: int)
    requires 2 <= l
    ensures (w + l - 1) % l == if w % l == 0 then l - 1 else w % l - 1
  {
    var q, g := w / l, w % l;
    assert w == l * q + g;
    if g == 0 {
      DivModUnique(w + l - 1, l, q, l - 1);
    } else {
      assert l * (q + 1) == l * q + l;
      DivModUnique(w + l - 1, l, q + 1, g - 1);
    }
  }

  // ---------------------------------------------------------------- the verifier

  /** The primes of f that are not among the first i listed ones are those still in tmp. */
  ghost predicate Stripped(f: int, tmp: int, listed: seq<int>) {
    && 0 < tmp
    && (forall p :: Prime(p) && Divides(p, f) && p !in listed ==> Divides(p, tmp))
    && (forall p :: Prime(p) && Divides(p, tmp) ==> Divides(p, f) && p !in listed)
  }

  /** Divides tmp by q as often as it goes: every other prime stays. */
  method DivideOut(tmp0: u128, q: u128) returns (tmp: u128)
    requires 0 < tmp0 && Prime(q)
    ensures 0 < tmp && !Divides(q, tmp)
    ensures forall p :: Prime(p) && p != q ==> (Divides(p, tmp) <==> Divides(p, tmp0))
  {
    tmp := tmp0;
    while tmp % q == 0
      invariant 0 < tmp
      invariant forall p :: Prime(p) && p != q ==> (Divides(p, tmp) <==> Divides(p, tmp0))
      decreases tmp
    {
      assert Divides(q, tmp);
      ghost var k := DividesElim(q, tmp);
      SquareGrowsBy(q, k);
      forall p | Prime(p) && p != q
        ensures Divides(p, k) <==> Divides(p, tmp)
      {
        OtherPrime(p, q, k);
      }
      tmp := tmp / q;
    }
  }

  lemma SquareGrowsBy(q: int, k: int)
    requires 2 <= q && 0 < k
    ensures k < q * k
  {
    MulMono(k, 2, q);
  }

  lemma OtherPrime(p: int, q: int, k: int)
    requires Prime(p) && Prime(q) && p != q
    ensures Divides(p, k) <==> Divides(p, q * k)
  {
    if Divides(p, k) {
      var m := DividesElim(p, k);
      assert q * (p * m) == p * (q * m);
      DividesIntro(p, q * k, q * m);
    }
    if Divides(p, q * k) {
      EuclidLemma(p, q, k);
      if Divides(p, q) { PrimeDividesPrime(p, q); }
    }
  }

  lemma NothingLeft(f: int, tmp: int, listed: seq<int>)
    requires Stripped(f, tmp, listed)
    ensures tmp == 1 <==> forall p :: Prime(p) && Divides(p, f) ==> p in listed
  {
    if tmp == 1 {
      forall p | Prime(p) && Divides(p, f)
        ensures p in listed
      {
        if p !in listed { DividesLe(p, 1); }
      }
    } else {
      var p := LeastDivisor(tmp);
    }
  }

  /** Part 2 of the check: the listed numbers are primes and are all the primes of f. */
  method FullyFactored(c: PocklingtonCert) returns (ok: bool)
    requires 0 < c.f
    ensures ok <==> FactorsList(c)
  {
    var n := c.nFactors;
    if n == 0 || n > SLOTS {
      return false;
    }
    var tmp: u128 := c.f;
    for i := 0 to n
      invariant forall k :: 0 <= k < i ==> Prime(c.factors[k]) && Divides(c.factors[k], c.f)
      invariant Stripped(c.f, tmp, c.factors[..i])
    {
      var q := c.factors[i];
      if q < 2 {
        assert !Prime(c.factors[i]);
        return false;
      }
      var prime := IsPrimeTrial(q);
      if !prime || c.f % q != 0 {
        assert !(Prime(c.factors[i]) && Divides(c.factors[i], c.f));
        return false;
      }
      assert c.factors[..i + 1] == c.factors[..i] + [q];
      tmp := DivideOut(tmp, q);
    }
    NothingLeft(c.f, tmp, c.factors[..n]);
    ok := tmp == 1;
  }

  /** Part 4 of the check, for one listed prime. */
  method CheckWitness(ctx: MontCtx, a: u128, q: u128) returns (ok: bool)
    requires ctx.Valid() && 3 <= ctx.l && 0 < q && Divides(q, ctx.l - 1)
    ensures ok <==> Witness(ctx.l, a, q)
  {
    var e: u128 := (ctx.l - 1) / q;
    var g := Modpow(ctx, a, e);
    var gm1: u128 := if g == 0 then ctx.l - 1 else g - 1;
    LessOne(Pow(a, e), ctx.l);
    var d := GcdU128(gm1, ctx.l);
    ok := d == 1;
  }

  /** The verifier accepts exactly the certificates that meet Pocklington's conditions. */
  method PocklingtonVerify(c: PocklingtonCert) returns (ok: bool)
    ensures ok <==> Certifies(c)
    ensures ok ==> Prime(c.l)
  {
    var l := c.l;
    if l < 3 || l % 2 == 0 {
      return false;
    }
    var lm1: u128 := l - 1;
    match CheckedMul(c.f, c.r) {
      case Overflow => return false;
      case Value(p) => if p != lm1 { return false; }
    }
    MulPos(c.f, c.r);
    var full := FullyFactored(c);
    if !full {
      return false;
    }
    match CheckedMul(c.f, c.f) {
      case Value(ff) => if ff <= l { return false; }
      case Overflow =>
    }
    assert Structure(c);
    if c.a < 2 || c.a >= l {
      return false;
    }
    var ctx := MontCtx.New(l);
    var fermat := Modpow(ctx, c.a, lm1);
    if fermat != 1 {
      return false;
    }
    for i := 0 to c.nFactors
      invariant forall k :: 0 <= k < i ==> Divides(c.factors[k], l - 1) && Witness(l, c.a, c.factors[k])
    {
      FactorDivides(c, c.factors[i]);
      var good := CheckWitness(ctx, c.a, c.factors[i]);
      if !good {
        assert !Witness(l, c.a, c.factors[i]);
        return false;
      }
    }
    ok := true;
    CertifiedIsPrime(c);
  }
}
