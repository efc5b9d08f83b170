/** Express slips (sdk/conditions.ts): fixed-point scoring with its overflow guard, the slip
    commitment, and the ranking of a round. */
module Conditions {
  import opened Wrappers
  import opened NumberTheory
  import opened StableSort
  import opened Bytes

  const ODDS_SCALE: nat := 1000
  const FIXED_SCALE: nat := 10000
  const MAX_LEGS: nat := 8
  const MIN_ODDS_MILLI: nat := 1001
  const MAX_ODDS_MILLI: nat := 1000000
  const U128_MAX: nat := 0xFFFF_FFFF_FFFF_FFFF_FFFF_FFFF_FFFF_FFFF
  const U64_MAX: nat := 0xFFFF_FFFF_FFFF_FFFF

  const TERM_SINGLE: byte := 0
  const TERM_BINARY: byte := 1
  const OP_NONE: byte := 0
  const OP_ADD: byte := 1
  const OP_SUBTRACT: byte := 2
  const CMP_GT: byte := 0
  const CMP_LT: byte := 1
  const CMP_EQ: byte := 2
  const NO_LINE: int := -0x8000_0000

  type u32 = x: int | 0 <= x < 0x1_0000_0000
  type i32 = x: int | -0x8000_0000 <= x < 0x8000_0000
  type u64 = x: int | 0 <= x < 0x1_0000_0000_0000_0000
  type Wallet = w: seq<byte> | |w| == 32 witness seq(32, _ => 0)

  datatype LegCommit = LegCommit(termKind: byte, statKeyA: u32, statKeyB: u32, op: byte, comparison: byte,
                                 threshold: i32, lineX2: i32, oddsMilli: u64)

  datatype ScoreStat = ScoreStat(statKey: u32, value: i32)

  datatype LegResult = Hit | Miss | Void | Pending

  // ---------------------------------------------------------------- coefficient

  function Product(odds: seq<nat>): nat {
    if odds == [] then 1 else Product(odds[..|odds| - 1]) * odds[|odds| - 1]
  }

  function Denominator(n: nat): (d: nat)
    ensures 1 <= d
  {
    if n == 0 then 1 else Denominator(n - 1) * ODDS_SCALE
  }

  predicate InBand(odd: nat) {
    MIN_ODDS_MILLI <= odd <= MAX_ODDS_MILLI
  }

  /** The exact score times 10000, rounded half up. */
  function Rounded(product: nat, denom: nat): (r: nat)
    requires 0 < denom
  {
    (product * FIXED_SCALE + denom / 2) / denom
  }

  /** When the coefficient is representable: few enough legs, odds in band, no 128-bit overflow of
      the numerator and no 64-bit overflow of the result. */
  ghost predicate Representable(odds: seq<nat>) {
    && |odds| <= MAX_LEGS
    && (forall i :: 0 <= i < |odds| ==> InBand(odds[i]))
    && Product(odds) * FIXED_SCALE + Denominator(|odds|) / 2 <= U128_MAX
    && Rounded(Product(odds), Denominator(|odds|)) <= U64_MAX
  }

  /** The loop over the odds, with its band check. */
  method MultiplyOdds(odds: seq<nat>) returns (inBand: bool, product: nat, denom: nat)
    ensures inBand <==> forall i :: 0 <= i < |odds| ==> InBand(odds[i])
    ensures inBand ==> product == Product(odds) && denom == Denominator(|odds|)
  {
    product, denom := 1, 1;
    for i := 0 to |odds|
      invariant product == Product(odds[..i]) && denom == Denominator(i)
      invariant forall k :: 0 <= k < i ==> InBand(odds[k])
    {
      if odds[i] < MIN_ODDS_MILLI || odds[i] > MAX_ODDS_MILLI {
        assert !InBand(odds[i]);
        return false, product, denom;
      }
      assert odds[..i + 1][..i] == odds[..i];
      product := product * odds[i];
      denom := denom * ODDS_SCALE;
    }
    assert odds[..|odds|] == odds;
    inBand := true;
  }

  method CoefficientFixed(odds: seq<nat>) returns (r: Option<nat>)
    ensures r.Some? <==> Representable(odds)
    ensures r.Some? ==> r.value == Rounded(Product(odds), Denominator(|odds|))
  {
    if |odds| > MAX_LEGS {
      return None;
    }
    var inBand, product, denom := MultiplyOdds(odds);
    if !inBand {
      return None;
    }
    r := RoundOrOverflow(product, denom);
  }

  /** The three overflow checks around the rounding. */
  method RoundOrOverflow(product: nat, denom: nat) returns (r: Option<nat>)
    requires 0 < denom
    ensures r.Some? <==> product * FIXED_SCALE + denom / 2 <= U128_MAX && Rounded(product, denom) <= U64_MAX
    ensures r.Some? ==> r.value == Rounded(product, denom)
  {
    if product > U128_MAX {
      return None;
    }
    var numerator := product * FIXED_SCALE + denom / 2;
    if numerator > U128_MAX {
      return None;
    }
    var result := numerator / denom;
    if result > U64_MAX {
      return None;
    }
    r := Some(result);
  }

  lemma {:induction false} EvenDenominator(n: nat)
    ensures 2 * (Denominator(n) / 2) == if n == 0 then 0 else Denominator(n)
  {
    if n > 0 {
      assert Denominator(n) == 2 * (Denominator(n - 1) * 500);
    }
  }

  lemma {:induction false} DenominatorIsPower(n: nat)
    ensures Denominator(n) == Pow(1000, n)
  {
    if n > 0 { DenominatorIsPower(n - 1); }
  }

  /** The score is the product of the odds over 1000 per leg, in ten-thousandths, rounded to the nearest
      integer, halves up. */
  lemma RoundedAccurate(odds: seq<nat>)
    ensures var d, p := Pow(1000, |odds|), Product(odds) * 10000;
            var r := Rounded(Product(odds), Denominator(|odds|));
            1 <= d && (odds != [] ==> 2 * (r * d) - d <= 2 * p < 2 * (r * d) + d) && (odds == [] ==> r == 10000)
  {
    DenominatorIsPower(|odds|);
    EvenDenominator(|odds|);
    if odds != [] { NearestHalfUp(Product(odds) * 10000, Denominator(|odds|)); }
  }

  lemma NearestHalfUp(p: nat, d: nat)
    requires 0 < d && 2 * (d / 2) == d
    ensures var r := (p + d / 2) / d; 2 * (r * d) - d <= 2 * p < 2 * (r * d) + d
  {
    var n := p + d / 2;
    assert n == d * (n / d) + n % d;
  }

  /** When odds have a coefficient: at most eight legs of odds from 1.001 to 1000, no 128-bit overflow of
      the numerator and no 64-bit overflow of the result. */
  lemma RepresentableMeaning(odds: seq<nat>)
    ensures Representable(odds) <==>
              && |odds| <= 8 && (forall i :: 0 <= i < |odds| ==> 1001 <= odds[i] <= 1000000)
              && Product(odds) * 10000 + Pow(1000, |odds|) / 2 < 0x1_0000_0000_0000_0000_0000_0000_0000_0000
              && Rounded(Product(odds), Denominator(|odds|)) < 0x1_0000_0000_0000_0000
  {
    DenominatorIsPower(|odds|);
  }

  /** Enough voids and wins to keep: the legs marked true stay. */
  function Kept<T>(s: seq<T>, keep: seq<bool>): seq<T>
    requires |keep| == |s|
  {
    if s == [] then []
    else
      var n := |s| - 1;
      Kept(s[..n], keep[..n]) + (if keep[n] then [s[n]] else [])
  }

  lemma {:induction false} KeptLength<T>(s: seq<T>, keep: seq<bool>)
    requires |keep| == |s|
    ensures |Kept(s, keep)| <= |s|
    ensures forall x :: x in Kept(s, keep) ==> x in s
  {
    if s != [] {
      var n := |s| - 1;
      KeptLength(s[..n], keep[..n]);
      assert forall x :: x in s[..n] ==> x in s;
    }
  }

  lemma ProductSnoc(odds: seq<nat>, o: nat)
    ensures Product(odds + [o]) == Product(odds) * o
  {
    assert (odds + [o])[..|odds|] == odds;
  }

  /** Dropping legs divides the product by F and the denominator by G <= F. */
  lemma {:induction false} DroppedFactors(odds: seq<nat>, keep: seq<bool>) returns (F: nat, G: nat)
    requires |keep| == |odds|
    requires forall i :: 0 <= i < |odds| ==> InBand(odds[i])
    ensures 1 <= G <= F
    ensures Product(odds) == Product(Kept(odds, keep)) * F
    ensures Denominator(|odds|) == Denominator(|Kept(odds, keep)|) * G
  {
    if odds == [] {
      F, G := 1, 1;
    } else {
      var n := |odds| - 1;
      var k := Kept(odds[..n], keep[..n]);
      var f, g := DroppedFactors(odds[..n], keep[..n]);
      if keep[n] {
        F, G := f, g;
        ProductSnoc(k, odds[n]);
        SwapFactors(Product(k), f, odds[n]);
        SwapFactors(Denominator(|k|), g, ODDS_SCALE);
      } else {
        F, G := f * odds[n], g * ODDS_SCALE;
        assert k + [] == k;
        SwapFactors(Product(k), f, odds[n]);
        SwapFactors(Denominator(|k|), g, ODDS_SCALE);
        FactorsOrdered(f, g, odds[n]);
      }
    }
  }

  lemma SwapFactors(x: nat, f: nat, y: nat)
    ensures (x * f) * y == (x * y) * f == x * (f * y)
  {}

  lemma FactorsOrdered(f: nat, g: nat, odd: nat)
    requires 1 <= g <= f && InBand(odd)
    ensures 1 <= g * ODDS_SCALE <= f * odd
  {
    MulMono(f, ODDS_SCALE, odd);
    MulMono(ODDS_SCALE, g, f);
  }

  lemma ScaledNumerators(p: nat, d: nat, F: nat, G: nat)
    requires 1 <= d && 1 <= G <= F
    ensures (p * FIXED_SCALE + d / 2) * G <= (p * F) * FIXED_SCALE + (d * G) / 2
    ensures p * FIXED_SCALE + d / 2 <= (p * FIXED_SCALE + d / 2) * G
  {
    MulMono(p * FIXED_SCALE, G, F);
    assert (p * FIXED_SCALE) * F == (p * F) * FIXED_SCALE;
    assert 2 * ((d / 2) * G) <= d * G by { MulMono(G, 2 * (d / 2), d); }
    MulMono(p * FIXED_SCALE + d / 2, 1, G);
  }

  lemma QuotientMonotone(a: nat, d: nat, b: nat, G: nat)
    requires 1 <= d && 1 <= G && a * G <= b
    ensures 1 <= d * G && a / d <= b / (d * G)
  {
    var q := a / d;
    assert a == d * q + a % d;
    MulMono(d, 1, G);
    MulMono(G, d * q, a);
    assert (d * q) * G == (d * G) * q;
    QuotientAtLeast(b, d * G, q);
  }

  lemma QuotientAtLeast(n: nat, d: nat, q: nat)
    requires 1 <= d && d * q <= n
    ensures q <= n / d
  {
    assert n == d * (n / d) + n % d;
    if n / d < q { MulMono(d, n / d + 1, q); }
  }

  /** The overflow guard suffices: if the coefficient of all legs is representable, so is that of
      any legs left after voids, and it is no larger. */
  lemma GuardSuffices(odds: seq<nat>, keep: seq<bool>)
    requires |keep| == |odds| && Representable(odds)
    ensures Representable(Kept(odds, keep))
    ensures Rounded(Product(Kept(odds, keep)), Denominator(|Kept(odds, keep)|)) <= Rounded(Product(odds), Denominator(|odds|))
  {
    var k := Kept(odds, keep);
    KeptLength(odds, keep);
    var F, G := DroppedFactors(odds, keep);
    var p, d := Product(k), Denominator(|k|);
    ScaledNumerators(p, d, F, G);
    QuotientMonotone(p * FIXED_SCALE + d / 2, d, Product(odds) * FIXED_SCALE + Denominator(|odds|) / 2, G);
    KeptInBand(odds, keep);
  }

  lemma KeptInBand(odds: seq<nat>, keep: seq<bool>)
    requires |keep| == |odds| && forall i :: 0 <= i < |odds| ==> InBand(odds[i])
    ensures forall i :: 0 <= i < |Kept(odds, keep)| ==> InBand(Kept(odds, keep)[i])
  {
    KeptLength(odds, keep);
    var k := Kept(odds, keep);
    forall i | 0 <= i < |k|
      ensures InBand(k[i])
    {
      assert k[i] in k;
    }
  }

  lemma {:induction false} ProductDominates(odds: seq<nat>)
    requires forall i :: 0 <= i < |odds| ==> InBand(odds[i])
    ensures Denominator(|odds|) <= Product(odds)
  {
    if odds != [] {
      var n := |odds| - 1;
      ProductDominates(odds[..n]);
      MulMono(Product(odds[..n]), ODDS_SCALE, odds[n]);
      MulMono(ODDS_SCALE, Denominator(n), Product(odds[..n]));
    }
  }

  lemma AtLeastPar(odds: seq<nat>)
    requires forall i :: 0 <= i < |odds| ==> InBand(odds[i])
    ensures Rounded(Product(odds), Denominator(|odds|)) >= FIXED_SCALE
  {
    ProductDominates(odds);
    var d, p := Denominator(|odds|), Product(odds);
    MulMono(FIXED_SCALE, d, p);
    QuotientAtLeast(p * FIXED_SCALE + d / 2, d, FIXED_SCALE);
  }

  // ---------------------------------------------------------------- scoring

  function StatValue(facts: seq<ScoreStat>, key: u32): Option<i32> {
    if facts == [] then None
    else if facts[0].statKey == key then Some(facts[0].value)
    else StatValue(facts[1..], key)
  }

  /** The number a leg is about; an operator outside the two known ones has none. */
  function LegValue(leg: LegCommit, a: int, b: int): Option<int> {
    if leg.op == OP_ADD then Some(a + b)
    else if leg.op == OP_SUBTRACT then Some(a - b)
    else None
  }

  function Decide(leg: LegCommit, value: int): LegResult {
    if leg.lineX2 == NO_LINE then
      if (leg.comparison == CMP_GT && value > leg.threshold)
         || (leg.comparison == CMP_LT && value < leg.threshold)
         || (leg.comparison == CMP_EQ && value == leg.threshold) then Hit else Miss
    else
      var total2 := value * 2;
      if leg.lineX2 % 2 == 0 && total2 == leg.lineX2 then Void
      else if (leg.comparison == CMP_GT && total2 > leg.lineX2)
              || (leg.comparison == CMP_LT && total2 < leg.lineX2) then Hit
      else Miss
  }

  function EvalLeg(leg: LegCommit, facts: seq<ScoreStat>): LegResult {
    if leg.termKind == TERM_SINGLE then
      match StatValue(facts, leg.statKeyA)
      case None => Pending
      case Some(v) => Decide(leg, v)
    else
      var a, b := StatValue(facts, leg.statKeyA), StatValue(facts, leg.statKeyB);
      if a.None? || b.None? then Pending
      else
        match LegValue(leg, a.value, b.value)
        case None => Miss
        case Some(v) => Decide(leg, v)
  }

  /** v is the value of the first fact with the key. */
  ghost predicate FirstStat(facts: seq<ScoreStat>, key: u32, v: int) {
    exists i :: 0 <= i < |facts| && facts[i].statKey == key && facts[i].value == v && forall k :: 0 <= k < i ==> facts[k].statKey != key
  }

  ghost predicate HasStat(facts: seq<ScoreStat>, key: u32) {
    exists i :: 0 <= i < |facts| && facts[i].statKey == key
  }

  lemma {:induction false} StatMeaning(facts: seq<ScoreStat>, key: u32)
    ensures StatValue(facts, key).Some? <==> HasStat(facts, key)
    ensures StatValue(facts, key).Some? ==> FirstStat(facts, key, StatValue(facts, key).value)
  {
    if facts != [] {
      StatMeaning(facts[1..], key);
      if facts[0].statKey == key {
        assert facts[0].value == StatValue(facts, key).value;
      } else {
        LaterStat(facts, key);
      }
    }
  }

  lemma LaterStat(facts: seq<ScoreStat>, key: u32)
    requires facts != [] && facts[0].statKey != key
    ensures HasStat(facts, key) <==> HasStat(facts[1..], key)
    ensures forall v: i32 :: FirstStat(facts[1..], key, v) ==> FirstStat(facts, key, v)
  {
    if HasStat(facts, key) {
      var i :| 0 <= i < |facts| && facts[i].statKey == key;
      assert facts[1..][i - 1].statKey == key;
    }
    if HasStat(facts[1..], key) {
      var i :| 0 <= i < |facts[1..]| && facts[1..][i].statKey == key;
      assert facts[i + 1].statKey == key;
    }
    forall v: i32 | FirstStat(facts[1..], key, v)
      ensures FirstStat(facts, key, v)
    {
      var i :| 0 <= i < |facts[1..]| && facts[1..][i].statKey == key && facts[1..][i].value == v && forall k :: 0 <= k < i ==> facts[1..][k].statKey != key;
      forall k | 0 <= k < i + 1
        ensures facts[k].statKey != key
      {
        if k > 0 { assert facts[k] == facts[1..][k - 1]; }
      }
      assert facts[i + 1].statKey == key && facts[i + 1].value == v;
    }
  }

  /** v is the number the leg is about: one statistic, or the sum (operator 1) or difference (operator 2)
      of two. */
  ghost predicate IsAbout(leg: LegCommit, facts: seq<ScoreStat>, v: int) {
    if leg.termKind == 0 then FirstStat(facts, leg.statKeyA, v)
    else exists a: i32, b: i32 :: FirstStat(facts, leg.statKeyA, a) && FirstStat(facts, leg.statKeyB, b)
                     && ((leg.op == 1 && v == a + b) || (leg.op == 2 && v == a - b))
  }

  ghost predicate HasStats(leg: LegCommit, facts: seq<ScoreStat>) {
    HasStat(facts, leg.statKeyA) && (leg.termKind != 0 ==> HasStat(facts, leg.statKeyB))
  }

  /** The outcome of a leg about v. Without a line v is compared with the threshold: above (0), below (1)
      or equal (2). With a line twice v is compared with twice the line: equality voids the leg. */
  ghost predicate Outcome(leg: LegCommit, v: int, r: LegResult) {
    if leg.lineX2 == -2147483648 then
      r == if (leg.comparison == 0 && v > leg.threshold) || (leg.comparison == 1 && v < leg.threshold)
              || (leg.comparison == 2 && v == leg.threshold) then Hit else Miss
    else
      && (r == Void <==> v + v == leg.lineX2)
      && (r == Hit <==> (leg.comparison == 0 && v + v > leg.lineX2) || (leg.comparison == 1 && v + v < leg.lineX2))
      && r != Pending
  }

  /** When a leg is pending, void, hit or missed, in terms of the statistics: pending exactly when one is
      missing, and a miss when the operator of a two-statistic leg is unknown. */
  lemma EvalMeaning(leg: LegCommit, facts: seq<ScoreStat>)
    ensures EvalLeg(leg, facts) == Pending <==> !HasStats(leg, facts)
    ensures HasStats(leg, facts) && leg.termKind != 0 && leg.op != 1 && leg.op != 2 ==> EvalLeg(leg, facts) == Miss
    ensures HasStats(leg, facts) && (leg.termKind == 0 || leg.op == 1 || leg.op == 2) ==>
              exists v :: IsAbout(leg, facts, v) && Outcome(leg, v, EvalLeg(leg, facts))
  {
    StatMeaning(facts, leg.statKeyA);
    StatMeaning(facts, leg.statKeyB);
    if HasStats(leg, facts) && (leg.termKind == 0 || leg.op == 1 || leg.op == 2) {
      var a := StatValue(facts, leg.statKeyA).value;
      var v: int := a;
      if leg.termKind != 0 {
        var b := StatValue(facts, leg.statKeyB).value;
        v := if leg.op == 1 then (a as int) + b else (a as int) - b;
        assert FirstStat(facts, leg.statKeyA, a) && FirstStat(facts, leg.statKeyB, b);
      }
      assert IsAbout(leg, facts, v);
      DecideMeaning(leg, v);
    }
  }

  lemma DecideMeaning(leg: LegCommit, v: int)
    ensures Outcome(leg, v, Decide(leg, v))
  {}

  /** Over and under of one line: never both hit, and unless the statistic is missing or lies on the line
      exactly one of them does. */
  lemma OverUnder(over: LegCommit, facts: seq<ScoreStat>)
    requires over.comparison == 0 && (over.termKind == 0 || over.op == 1 || over.op == 2)
    ensures var o, u := EvalLeg(over, facts), EvalLeg(over.(comparison := 1), facts);
            || (o == Hit && u == Miss) || (o == Miss && u == Hit) || (o == u == Void) || (o == u == Pending)
            || (o == u == Miss && over.lineX2 == -2147483648 && IsAbout(over, facts, over.threshold))
  {
    var under := over.(comparison := 1);
    EvalMeaning(over, facts);
    EvalMeaning(under, facts);
    if HasStats(over, facts) {
      StatMeaning(facts, over.statKeyA);
      StatMeaning(facts, over.statKeyB);
      var v :| IsAbout(over, facts, v) && Outcome(over, v, EvalLeg(over, facts));
      var v' :| IsAbout(under, facts, v') && Outcome(under, v', EvalLeg(under, facts));
      AboutOne(over, facts, v, v');
    }
  }

  lemma FirstStatOne(facts: seq<ScoreStat>, key: u32, v: int, v': int)
    requires FirstStat(facts, key, v) && FirstStat(facts, key, v')
    ensures v == v'
  {
    var i :| 0 <= i < |facts| && facts[i].statKey == key && facts[i].value == v && forall k :: 0 <= k < i ==> facts[k].statKey != key;
    var j :| 0 <= j < |facts| && facts[j].statKey == key && facts[j].value == v' && forall k :: 0 <= k < j ==> facts[k].statKey != key;
  }

  /** A leg is about one number only, whatever its comparison. */
  lemma AboutOne(leg: LegCommit, facts: seq<ScoreStat>, v: int, v': int)
    requires IsAbout(leg, facts, v) && IsAbout(leg.(comparison := 1), facts, v')
    ensures v == v'
  {
    if leg.termKind == 0 {
      FirstStatOne(facts, leg.statKeyA, v, v');
    } else {
      var a: i32, b: i32 :| FirstStat(facts, leg.statKeyA, a) && FirstStat(facts, leg.statKeyB, b)
                  && ((leg.op == 1 && v == a + b) || (leg.op == 2 && v == a - b));
      var a': i32, b': i32 :| FirstStat(facts, leg.statKeyA, a') && FirstStat(facts, leg.statKeyB, b')
                    && ((leg.op == 1 && v' == a' + b') || (leg.op == 2 && v' == a' - b'));
      FirstStatOne(facts, leg.statKeyA, a, a');
      FirstStatOne(facts, leg.statKeyB, b, b');
    }
  }

  function Facts(factsByLeg: seq<seq<ScoreStat>>, i: nat): seq<ScoreStat> {
    if i < |factsByLeg| then factsByLeg[i] else []
  }

  /** The result of every leg. */
  function Results(legs: seq<LegCommit>, factsByLeg: seq<seq<ScoreStat>>): (rs: seq<LegResult>)
    ensures |rs| == |legs| && forall i :: 0 <= i < |legs| ==> rs[i] == EvalLeg(legs[i], Facts(factsByLeg, i))
  {
    seq(|legs|, i requires 0 <= i < |legs| => EvalLeg(legs[i], Facts(factsByLeg, i)))
  }

  function Odds(legs: seq<LegCommit>): (odds: seq<nat>)
    ensures |odds| == |legs| && forall i :: 0 <= i < |legs| ==> odds[i] == legs[i].oddsMilli
  {
    seq(|legs|, i requires 0 <= i < |legs| => legs[i].oddsMilli)
  }

  predicate Settles(r: LegResult) {
    r == Hit || r == Miss
  }

  /** Which legs count towards the coefficient. */
  function Counting(rs: seq<LegResult>): (keep: seq<bool>)
    ensures |keep| == |rs| && forall i :: 0 <= i < |rs| ==> keep[i] == Settles(rs[i])
  {
    seq(|rs|, i requires 0 <= i < |rs| => Settles(rs[i]))
  }

  function Voids(rs: seq<LegResult>): nat {
    if rs == [] then 0 else Voids(rs[..|rs| - 1]) + (if rs[|rs| - 1] == Void then 1 else 0)
  }

  ghost predicate AllHitOrVoid(rs: seq<LegResult>) {
    forall i :: 0 <= i < |rs| ==> rs[i] == Hit || rs[i] == Void
  }

  datatype SlipScore = SlipScore(settled: bool, allHit: bool, voidCount: nat, scoreFixed: nat)

  lemma KeptSnoc(odds: seq<nat>, keep: seq<bool>, i: nat)
    requires |keep| == |odds| && i < |odds|
    ensures Kept(odds[..i + 1], keep[..i + 1]) ==
            if keep[i] then Kept(odds[..i], keep[..i]) + [odds[i]] else Kept(odds[..i], keep[..i])
  {
    assert odds[..i + 1][..i] == odds[..i] && keep[..i + 1][..i] == keep[..i];
    assert Kept(odds[..i], keep[..i]) + [] == Kept(odds[..i], keep[..i]);
  }

  /** The accumulators of scoreSlip. */
  datatype Tally = Tally(settled: bool, allHit: bool, voidCount: nat, effective: seq<nat>)

  /** The switch of scoreSlip for one leg. */
  function AddResult(t: Tally, r: LegResult, odd: nat): Tally {
    match r
    case Pending => t.(settled := false)
    case Void => t.(voidCount := t.voidCount + 1)
    case Hit => t.(effective := t.effective + [odd])
    case Miss => t.(effective := t.effective + [odd], allHit := false)
  }

  /** What the accumulators mean after i legs. */
  ghost predicate Scored(legs: seq<LegCommit>, rs: seq<LegResult>, i: nat, t: Tally)
    requires |rs| == |legs| && i <= |legs|
  {
    && (t.settled <==> Pending !in rs[..i])
    && (t.allHit <==> Miss !in rs[..i])
    && t.voidCount == Voids(rs[..i])
    && t.effective == Kept(Odds(legs)[..i], Counting(rs)[..i])
  }

  lemma PrefixResults(rs: seq<LegResult>, i: nat)
    requires i < |rs|
    ensures rs[..i + 1][..i] == rs[..i] && rs[..i + 1] == rs[..i] + [rs[i]]
    ensures Voids(rs[..i + 1]) == Voids(rs[..i]) + (if rs[i] == Void then 1 else 0)
    ensures forall r :: r in rs[..i + 1] <==> r in rs[..i] || r == rs[i]
  {
    assert rs[..i + 1][..i] == rs[..i];
    assert rs[..i + 1] == rs[..i] + [rs[i]];
  }

  lemma ScoreStep(legs: seq<LegCommit>, rs: seq<LegResult>, i: nat, t: Tally)
    requires |rs| == |legs| && i < |legs| && Scored(legs, rs, i, t)
    ensures Scored(legs, rs, i + 1, AddResult(t, rs[i], legs[i].oddsMilli))
  {
    KeptSnoc(Odds(legs), Counting(rs), i);
    PrefixResults(rs, i);
  }

  lemma ScoreDone(legs: seq<LegCommit>, rs: seq<LegResult>, t: Tally)
    requires |rs| == |legs| && Scored(legs, rs, |legs|, t)
    ensures (t.settled <==> Pending !in rs) && (t.settled && t.allHit <==> AllHitOrVoid(rs))
    ensures t.voidCount == Voids(rs) && t.effective == Kept(Odds(legs), Counting(rs))
  {
    assert rs[..|legs|] == rs && Odds(legs)[..|legs|] == Odds(legs) && Counting(rs)[..|legs|] == Counting(rs);
    AllHitIsSettledWithoutMiss(rs);
  }

  /** The loop of scoreSlip over the legs. */
  method TallyLegs(legs: seq<LegCommit>, factsByLeg: seq<seq<ScoreStat>>) returns (t: Tally)
    ensures Scored(legs, Results(legs, factsByLeg), |legs|, t)
  {
    ghost var rs := Results(legs, factsByLeg);
    t := Tally(true, true, 0, []);
    for i := 0 to |legs|
      invariant Scored(legs, rs, i, t)
    {
      ScoreStep(legs, rs, i, t);
      t := AddResult(t, EvalLeg(legs[i], Facts(factsByLeg, i)), legs[i].oddsMilli);
    }
  }

  /** scoreSlip: an all-hit slip scores the coefficient of the legs left after voids, or the
      fallback zero where that has none. */
  method ScoreSlip(legs: seq<LegCommit>, factsByLeg: seq<seq<ScoreStat>>) returns (s: SlipScore)
    ensures var rs := Results(legs, factsByLeg);
            var left := Kept(Odds(legs), Counting(rs));
            && (s.settled <==> Pending !in rs)
            && (s.allHit <==> AllHitOrVoid(rs))
            && s.voidCount == Voids(rs)
            && s.scoreFixed == if AllHitOrVoid(rs) && Representable(left) then Rounded(Product(left), Denominator(|left|)) else 0
  {
    var t := TallyLegs(legs, factsByLeg);
    ScoreDone(legs, Results(legs, factsByLeg), t);
    var settledAllHit := t.settled && t.allHit;
    var score := 0;
    if settledAllHit {
      var c := CoefficientFixed(t.effective);
      score := if c.Some? then c.value else 0;
    }
    s := SlipScore(t.settled, settledAllHit, t.voidCount, score);
  }

  lemma AllHitIsSettledWithoutMiss(rs: seq<LegResult>)
    ensures AllHitOrVoid(rs) <==> Pending !in rs && Miss !in rs
  {
    if Pending !in rs && Miss !in rs {
      forall i | 0 <= i < |rs|
        ensures rs[i] == Hit || rs[i] == Void
      {
        assert rs[i] in rs;
      }
    }
  }

  predicate ValidLeg(l: LegCommit) {
    && (l.termKind == TERM_SINGLE || l.termKind == TERM_BINARY)
    && (l.op == OP_NONE || l.op == OP_ADD || l.op == OP_SUBTRACT)
    && (l.comparison == CMP_GT || l.comparison == CMP_LT || l.comparison == CMP_EQ)
    && (l.termKind != TERM_SINGLE || (l.op == OP_NONE && l.statKeyB == 0))
    && (l.termKind != TERM_BINARY || l.op != OP_NONE)
    && InBand(l.oddsMilli)
  }

  /** A valid leg is about one statistic alone (kind 0), or about the sum (operator 1) or difference
      (operator 2) of two (kind 1); its comparison is one of three and its odds lie in the band. */
  lemma ValidLegMeaning(l: LegCommit)
    ensures ValidLeg(l) <==>
              && l.comparison <= 2 && 1001 <= l.oddsMilli <= 1000000
              && if l.termKind == 0 then l.op == 0 && l.statKeyB == 0 else l.termKind == 1 && (l.op == 1 || l.op == 2)
  {}

  /** What validateConditionsArtifact demands of an entrant's legs. */
  ghost predicate ValidSlip(legs: seq<LegCommit>) {
    && |legs| <= MAX_LEGS
    && (forall i :: 0 <= i < |legs| ==> ValidLeg(legs[i]))
    && Representable(Odds(legs))
  }

  /** For a validated slip and any facts the zero fallback is unreachable: an all-hit slip scores at
      least par, at most the full coefficient, and within half a unit of the exact product. */
  lemma AllHitScore(legs: seq<LegCommit>, factsByLeg: seq<seq<ScoreStat>>)
    requires ValidSlip(legs)
    ensures var left := Kept(Odds(legs), Counting(Results(legs, factsByLeg)));
            && Representable(left)
            && 10000 <= Rounded(Product(left), Denominator(|left|)) <= Rounded(Product(Odds(legs)), Denominator(|legs|))
            && var d, p, r := Pow(1000, |left|), Product(left) * 10000, Rounded(Product(left), Denominator(|left|));
               (left != [] ==> 2 * (r * d) - d <= 2 * p < 2 * (r * d) + d) && (left == [] ==> r == 10000)
  {
    var keep := Counting(Results(legs, factsByLeg));
    GuardSuffices(Odds(legs), keep);
    AtLeastPar(Kept(Odds(legs), keep));
    RoundedAccurate(Kept(Odds(legs), keep));
  }

  // ---------------------------------------------------------------- slip commitment

  /** The comparator of sortLegs: it does not look at termKind. */
  function CompareLegs(a: LegCommit, b: LegCommit): int {
    if a.statKeyA != b.statKeyA then a.statKeyA as int - b.statKeyA as int
    else if a.statKeyB != b.statKeyB then a.statKeyB as int - b.statKeyB as int
    else if a.op != b.op then a.op as int - b.op as int
    else if a.comparison != b.comparison then a.comparison as int - b.comparison as int
    else if a.threshold != b.threshold then a.threshold as int - b.threshold as int
    else if a.lineX2 != b.lineX2 then a.lineX2 as int - b.lineX2 as int
    else a.oddsMilli as int - b.oddsMilli as int
  }

  function LegOrder(): (LegCommit, LegCommit) -> int {
    (a, b) => CompareLegs(a, b)
  }

  lemma LegOrderConsistent()
    ensures Consistent(LegOrder())
  {
    forall a, b
      ensures Antisymmetric(LegOrder(), a, b)
    {
    }
    forall a, b, c
      ensures Transitive(LegOrder(), a, b, c)
    {
    }
  }

  /** Among valid legs the comparator ties only equal legs: the operator fixes termKind. */
  lemma LegOrderFaithful(legs: seq<LegCommit>)
    requires forall l :: l in legs ==> ValidLeg(l)
    ensures Faithful(LegOrder(), legs)
  {
    forall a, b | a in legs && b in legs && LegOrder()(a, b) == 0
      ensures a == b
    {
      assert a.termKind == b.termKind;
    }
  }

  function EncodeLeg(l: LegCommit): (s: bytes)
    ensures |s| == 27
  {
    Limits();
    [l.termKind] + LE(l.statKeyA, 4) + LE(l.statKeyB, 4) + [l.op] + [l.comparison]
    + SignedLE(l.threshold, 4) + SignedLE(l.lineX2, 4) + LE(l.oddsMilli, 8)
  }

  lemma EncodeLegInjective(a: LegCommit, b: LegCommit)
    requires EncodeLeg(a) == EncodeLeg(b)
    ensures a == b
  {
    Limits();
    var s, t := EncodeLeg(a), EncodeLeg(b);
    assert s[0] == a.termKind && t[0] == b.termKind;
    assert s[1..5] == LE(a.statKeyA, 4) && t[1..5] == LE(b.statKeyA, 4);
    assert s[5..9] == LE(a.statKeyB, 4) && t[5..9] == LE(b.statKeyB, 4);
    assert s[9] == a.op && t[9] == b.op && s[10] == a.comparison && t[10] == b.comparison;
    assert s[11..15] == SignedLE(a.threshold, 4) && t[11..15] == SignedLE(b.threshold, 4);
    assert s[15..19] == SignedLE(a.lineX2, 4) && t[15..19] == SignedLE(b.lineX2, 4);
    assert s[19..27] == LE(a.oddsMilli, 8) && t[19..27] == LE(b.oddsMilli, 8);
    LEInjective(a.statKeyA, b.statKeyA, 4);
    LEInjective(a.statKeyB, b.statKeyB, 4);
    SignedInjective(a.threshold, b.threshold, 4);
    SignedInjective(a.lineX2, b.lineX2, 4);
    LEInjective(a.oddsMilli, b.oddsMilli, 8);
  }

  function EncodeLegs(legs: seq<LegCommit>): (s: bytes)
    ensures |s| == 27 * |legs|
  {
    if legs == [] then [] else EncodeLeg(legs[0]) + EncodeLegs(legs[1..])
  }

  lemma {:induction false} EncodeLegsInjective(a: seq<LegCommit>, b: seq<LegCommit>)
    requires EncodeLegs(a) == EncodeLegs(b)
    ensures a == b
  {
    assert 27 * |a| == 27 * |b|;
    if a != [] {
      var s, t := EncodeLegs(a), EncodeLegs(b);
      assert s[..27] == EncodeLeg(a[0]) && t[..27] == EncodeLeg(b[0]);
      assert s[27..] == EncodeLegs(a[1..]) && t[27..] == EncodeLegs(b[1..]);
      EncodeLegInjective(a[0], b[0]);
      EncodeLegsInjective(a[1..], b[1..]);
      assert a == [a[0]] + a[1..] && b == [b[0]] + b[1..];
    }
  }

  function SortLegs(legs: seq<LegCommit>): (s: seq<LegCommit>)
    ensures |s| == |legs|
  {
    Sort(LegOrder(), legs)
  }

  /** The hashed preimage of a slip. */
  function SlipPreimage(wallet: Wallet, tier: u64, legs: seq<LegCommit>): bytes
    requires |legs| < 0x1_0000_0000
  {
    wallet + LE(tier, 8) + LE(|legs|, 4) + EncodeLegs(SortLegs(legs))
  }

  /** a may stand before b: by statistics, operator, comparison, threshold, line and odds, in that
      order, each rising. */
  ghost predicate InOrder(a: LegCommit, b: LegCommit) {
    var x, y := Keys(a), Keys(b);
    x == y || exists k :: 0 <= k < 7 && x[..k] == y[..k] && x[k] < y[k]
  }

  ghost function Keys(l: LegCommit): (k: seq<int>)
    ensures |k| == 7
  {
    [l.statKeyA, l.statKeyB, l.op, l.comparison, l.threshold, l.lineX2, l.oddsMilli]
  }

  lemma CompareLegsMeaning(a: LegCommit, b: LegCommit)
    requires CompareLegs(a, b) <= 0
    ensures InOrder(a, b)
  {
    var x, y := Keys(a), Keys(b);
    if x[0] != y[0] { assert x[..0] == y[..0]; }
    else if x[1] != y[1] { assert x[..1] == y[..1]; }
    else if x[2] != y[2] { assert x[..2] == y[..2]; }
    else if x[3] != y[3] { assert x[..3] == y[..3]; }
    else if x[4] != y[4] { assert x[..4] == y[..4]; }
    else if x[5] != y[5] { assert x[..5] == y[..5]; }
    else if x[6] != y[6] { assert x[..6] == y[..6]; }
  }

  /** The sorted legs: the same legs, in order. */
  lemma SortLegsMeaning(legs: seq<LegCommit>)
    ensures multiset(SortLegs(legs)) == multiset(legs)
    ensures forall i, j :: 0 <= i < j < |legs| ==> InOrder(SortLegs(legs)[i], SortLegs(legs)[j])
  {
    LegOrderConsistent();
    SortMultiset(LegOrder(), legs);
    SortSorted(LegOrder(), legs);
    var t := SortLegs(legs);
    forall i, j | 0 <= i < j < |t|
      ensures InOrder(t[i], t[j])
    {
      assert LegOrder()(t[i], t[j]) <= 0;
      CompareLegsMeaning(t[i], t[j]);
    }
  }

  /** The 27 bytes of a leg. */
  ghost predicate LegBytes(l: LegCommit, s: bytes) {
    Limits();
    && |s| == 27 && s[0] == l.termKind && s[1..5] == LE(l.statKeyA, 4) && s[5..9] == LE(l.statKeyB, 4)
    && s[9] == l.op && s[10] == l.comparison && s[11..15] == SignedLE(l.threshold, 4)
    && s[15..19] == SignedLE(l.lineX2, 4) && s[19..27] == LE(l.oddsMilli, 8)
  }

  lemma EncodeLegBytes(l: LegCommit)
    ensures LegBytes(l, EncodeLeg(l))
  {
    Limits();
  }

  lemma {:induction false} LegAt(legs: seq<LegCommit>, i: nat)
    requires i < |legs|
    ensures EncodeLegs(legs)[27 * i..27 * i + 27] == EncodeLeg(legs[i])
  {
    if i > 0 {
      LegAt(legs[1..], i - 1);
      var s := EncodeLegs(legs);
      assert s[27..] == EncodeLegs(legs[1..]);
      SubSlice(s, 27, |s|, 27 * (i - 1), 27 * (i - 1) + 27);
      assert s[27..|s|] == s[27..];
    }
  }

  /** The hashed string of a slip, byte by byte: wallet, tier, number of legs, and the sorted legs in 27
      bytes each. */
  lemma PreimageLayout(w: Wallet, t: u64, legs: seq<LegCommit>, i: nat)
    requires |legs| < 0x1_0000_0000
    ensures var s := SlipPreimage(w, t, legs);
            && |s| == 44 + 27 * |legs| && s[..32] == w && s[32..40] == LE(t, 8) && s[40..44] == LE(|legs|, 4)
            && (i < |legs| ==> LegBytes(SortLegs(legs)[i], s[44 + 27 * i..44 + 27 * i + 27]))
  {
    var s, e := SlipPreimage(w, t, legs), EncodeLegs(SortLegs(legs));
    FourParts(w, LE(t, 8), LE(|legs|, 4), e);
    if i < |legs| {
      LegAt(SortLegs(legs), i);
      EncodeLegBytes(SortLegs(legs)[i]);
      SubSlice(s, 44, |s|, 27 * i, 27 * i + 27);
      assert s[44..|s|] == s[44..];
    }
  }

  lemma PreimageParts(w: Wallet, t: u64, legs: seq<LegCommit>, w': Wallet, t': u64, legs': seq<LegCommit>)
    requires |legs| < 0x1_0000_0000 && |legs'| < 0x1_0000_0000
    requires SlipPreimage(w, t, legs) == SlipPreimage(w', t', legs')
    ensures w == w' && t == t' && SortLegs(legs) == SortLegs(legs')
  {
    Limits();
    FourParts(w, LE(t, 8), LE(|legs|, 4), EncodeLegs(SortLegs(legs)));
    FourParts(w', LE(t', 8), LE(|legs'|, 4), EncodeLegs(SortLegs(legs')));
    LEInjective(t, t', 8);
    EncodeLegsInjective(SortLegs(legs), SortLegs(legs'));
  }

  lemma FourParts(a: bytes, b: bytes, c: bytes, d: bytes)
    requires |a| == 32 && |b| == 8 && |c| == 4
    ensures var s := a + b + c + d; s[..32] == a && s[32..40] == b && s[40..44] == c && s[44..] == d
  {}

  /** Two legs that sortLegs cannot tell apart differ in termKind only. */
  lemma TiesDifferInTermKind(a: LegCommit, b: LegCommit)
    ensures CompareLegs(a, b) == 0 <==> a.(termKind := b.termKind) == b
  {}

  /** No two legs that differ in termKind and nowhere else. */
  ghost predicate NoTermKindTwins(legs: seq<LegCommit>) {
    forall a, b :: a in legs && b in legs && a.(termKind := b.termKind) == b ==> a == b
  }

  lemma NoTwinsIsFaithful(legs: seq<LegCommit>)
    ensures NoTermKindTwins(legs) <==> Faithful(LegOrder(), legs)
  {
    forall a, b
      ensures LegOrder()(a, b) == 0 <==> a.(termKind := b.termKind) == b
    {
      TiesDifferInTermKind(a, b);
    }
  }

  /** Without twins two slips hash the same string exactly when wallet, tier and the multiset of legs
      agree. */
  lemma SlipCanonicalWithoutTwins(w: Wallet, t: u64, legs: seq<LegCommit>, w': Wallet, t': u64, legs': seq<LegCommit>)
    requires |legs| < 0x1_0000_0000 && |legs'| < 0x1_0000_0000
    requires NoTermKindTwins(legs)
    ensures SlipPreimage(w, t, legs) == SlipPreimage(w', t', legs') <==>
            w == w' && t == t' && multiset(legs) == multiset(legs')
  {
    SortMultiset(LegOrder(), legs);
    SortMultiset(LegOrder(), legs');
    if SlipPreimage(w, t, legs) == SlipPreimage(w', t', legs') {
      PreimageParts(w, t, legs, w', t', legs');
    }
    if multiset(legs) == multiset(legs') {
      LegOrderConsistent();
      SortSorted(LegOrder(), legs);
      SortSorted(LegOrder(), legs');
      forall l | l in SortLegs(legs)
        ensures l in legs
      {
        assert l in multiset(SortLegs(legs));
      }
      NoTwinsIsFaithful(SortLegs(legs));
      SortedCanonical(LegOrder(), SortLegs(legs), SortLegs(legs'));
      SameSize(legs, legs');
    }
  }

  /** The commitment is a canonical form: for validated legs two slips hash the same string exactly
      when wallet, tier and the multiset of legs agree. */
  lemma SlipCanonical(w: Wallet, t: u64, legs: seq<LegCommit>, w': Wallet, t': u64, legs': seq<LegCommit>)
    requires |legs| < 0x1_0000_0000 && |legs'| < 0x1_0000_0000
    requires forall l :: l in legs ==> ValidLeg(l)
    ensures SlipPreimage(w, t, legs) == SlipPreimage(w', t', legs') <==>
            w == w' && t == t' && multiset(legs) == multiset(legs')
  {
    LegOrderFaithful(legs);
    NoTwinsIsFaithful(legs);
    SlipCanonicalWithoutTwins(w, t, legs, w', t', legs');
  }

  ghost predicate SamePreimage(w: Wallet, t: u64, legs: seq<LegCommit>, legs': seq<LegCommit>) {
    |legs| == |legs'| < 0x1_0000_0000 && SlipPreimage(w, t, legs') == SlipPreimage(w, t, legs)
  }

  /** The order in which the legs are listed does not matter to the hashed string. */
  ghost predicate OrderIrrelevant(w: Wallet, t: u64, legs: seq<LegCommit>) {
    forall legs': seq<LegCommit> :: multiset(legs') == multiset(legs) ==> SamePreimage(w, t, legs, legs')
  }

  lemma NoTwinsNoOrder(w: Wallet, t: u64, legs: seq<LegCommit>)
    requires |legs| < 0x1_0000_0000 && NoTermKindTwins(legs)
    ensures OrderIrrelevant(w, t, legs)
  {
    forall legs': seq<LegCommit> | multiset(legs') == multiset(legs)
      ensures SamePreimage(w, t, legs, legs')
    {
      SameSize(legs, legs');
      SlipCanonicalWithoutTwins(w, t, legs, w, t, legs');
    }
  }

  lemma TwinsMatter(w: Wallet, t: u64, legs: seq<LegCommit>, a: LegCommit, b: LegCommit)
    requires a in legs && b in legs && a.(termKind := b.termKind) == b && a != b
    ensures !OrderIrrelevant(w, t, legs)
  {
    var rest := WithoutTwo(legs, a, b);
    TwinsSortApart(w, t, rest, a, b);
    assert SamePreimage(w, t, legs, rest + [a] + [b]) && SamePreimage(w, t, legs, rest + [b] + [a]) ==>
        SamePreimage(w, t, rest + [a] + [b], rest + [b] + [a]);
  }

  /** Validated or not: a list of legs has one preimage in all its orders exactly when no two of its
      legs differ in termKind alone. */
  lemma OrderIrrelevantExactly(w: Wallet, t: u64, legs: seq<LegCommit>)
    requires |legs| < 0x1_0000_0000
    ensures OrderIrrelevant(w, t, legs) <==> NoTermKindTwins(legs)
  {
    if NoTermKindTwins(legs) {
      NoTwinsNoOrder(w, t, legs);
    } else {
      var a, b :| a in legs && b in legs && a.(termKind := b.termKind) == b && a != b;
      TwinsMatter(w, t, legs, a, b);
    }
  }

  /** There are such legs, and no validated list holds them. */
  lemma TermKindNotSorted(w: Wallet, t: u64)
    ensures var a := LegCommit(0, 1, 0, 0, 0, 0, 0, 2000);
            var b := LegCommit(1, 1, 0, 0, 0, 0, 0, 2000);
            !OrderIrrelevant(w, t, [a, b])
  {
    var a := LegCommit(0, 1, 0, 0, 0, 0, 0, 2000);
    var b := LegCommit(1, 1, 0, 0, 0, 0, 0, 2000);
    OrderIrrelevantExactly(w, t, [a, b]);
    assert a in [a, b] && b in [a, b] && a.(termKind := b.termKind) == b;
  }

  lemma Without(legs: seq<LegCommit>, a: LegCommit) returns (rest: seq<LegCommit>)
    requires a in legs
    ensures multiset(rest + [a]) == multiset(legs) && |rest| + 1 == |legs|
    ensures forall l :: l in legs && l != a ==> l in rest
  {
    var i :| 0 <= i < |legs| && legs[i] == a;
    rest := legs[..i] + legs[i + 1..];
    assert legs == legs[..i] + [a] + legs[i + 1..];
    forall l | l in legs && l != a
      ensures l in rest
    {
      assert l in legs[..i] + [a] + legs[i + 1..];
    }
  }

  lemma WithoutTwo(legs: seq<LegCommit>, a: LegCommit, b: LegCommit) returns (rest: seq<LegCommit>)
    requires a in legs && b in legs && a != b
    ensures multiset(rest + [a] + [b]) == multiset(legs) == multiset(rest + [b] + [a]) && |rest| + 2 == |legs|
  {
    var others := Without(legs, b);
    rest := Without(others, a);
    assert multiset(rest + [a] + [b]) == multiset(rest + [a]) + multiset{b};
    assert multiset(others + [b]) == multiset(others) + multiset{b};
    assert multiset(rest + [b] + [a]) == multiset(rest) + multiset{b} + multiset{a};
  }

  lemma TwinsSortApart(w: Wallet, t: u64, rest: seq<LegCommit>, a: LegCommit, b: LegCommit)
    requires a != b && a.(termKind := b.termKind) == b
    ensures !SamePreimage(w, t, rest + [a] + [b], rest + [b] + [a])
  {
    LegOrderConsistent();
    TiesDifferInTermKind(a, b);
    TiesDifferInTermKind(b, a);
    TiesInListOrder(LegOrder(), rest, a, b);
    TiesInListOrder(LegOrder(), rest, b, a);
    var k := Position(LegOrder(), SortLegs(rest), a);
    assert SortLegs(rest + [a] + [b])[k] == a && SortLegs(rest + [b] + [a])[k] == b;
    if SamePreimage(w, t, rest + [a] + [b], rest + [b] + [a]) {
      PreimageParts(w, t, rest + [a] + [b], w, t, rest + [b] + [a]);
    }
  }

  // ---------------------------------------------------------------- ranking

  datatype Entrant = Entrant(wallet: Wallet, enteredAt: int, scoreFixed: nat, allHit: bool, voidCount: nat, settled: bool)

  function CompareBig(a: int, b: int): int {
    if a < b then -1 else if a > b then 1 else 0
  }

  function Flag(b: bool): int {
    if b then 1 else 0
  }

  function CompareEntrants(a: Entrant, b: Entrant): int {
    if a.allHit != b.allHit then Flag(b.allHit) - Flag(a.allHit)
    else if a.scoreFixed != b.scoreFixed then CompareBig(b.scoreFixed, a.scoreFixed)
    else if a.enteredAt != b.enteredAt then CompareBig(a.enteredAt, b.enteredAt)
    else CompareBytes(a.wallet, b.wallet)
  }

  function EntrantOrder(): (Entrant, Entrant) -> int {
    (a, b) => CompareEntrants(a, b)
  }

  lemma EntrantOrderConsistent()
    ensures Consistent(EntrantOrder())
  {
    forall a, b
      ensures Antisymmetric(EntrantOrder(), a, b)
    {
      CompareBytesAntisymmetric(a.wallet, b.wallet);
    }
    forall a, b, c
      ensures Transitive(EntrantOrder(), a, b, c)
    {
      if CompareBytes(a.wallet, b.wallet) <= 0 && CompareBytes(b.wallet, c.wallet) <= 0 {
        CompareBytesTransitive(a.wallet, b.wallet, c.wallet);
      }
    }
  }

  function RankRound(es: seq<Entrant>): seq<Entrant> {
    Sort(EntrantOrder(), es)
  }

  /** The pro-rata denominator. */
  function WinningSum(es: seq<Entrant>): nat {
    if es == [] then 0 else WinningSum(es[..|es| - 1]) + (if es[|es| - 1].allHit then es[|es| - 1].scoreFixed else 0)
  }

  lemma {:induction false} WinningSumConcat(a: seq<Entrant>, b: seq<Entrant>)
    ensures WinningSum(a + b) == WinningSum(a) + WinningSum(b)
  {
    if b == [] {
      assert a + b == a;
    } else {
      WinningSumConcat(a, b[..|b| - 1]);
      assert (a + b)[..|a + b| - 1] == a + b[..|b| - 1];
    }
  }

  lemma {:induction false} RankingKeepsSum(es: seq<Entrant>)
    ensures WinningSum(RankRound(es)) == WinningSum(es)
  {
    if es != [] {
      var n := |es| - 1;
      RankingKeepsSum(es[..n]);
      var t := RankRound(es[..n]);
      WinningSumInsert(t, Position(EntrantOrder(), t, es[n]), es[n]);
    }
  }

  lemma WinningSumInsert(t: seq<Entrant>, k: nat, x: Entrant)
    requires k <= |t|
    ensures WinningSum(t[..k] + [x] + t[k..]) == WinningSum(t) + (if x.allHit then x.scoreFixed else 0)
  {
    WinningSumConcat(t[..k], t[k..]);
    WinningSumConcat(t[..k] + [x], t[k..]);
    assert (t[..k] + [x])[..k] == t[..k];
    assert t == t[..k] + t[k..];
  }

  /** A ranked round: the same entrants, winners before everyone else, scores falling among them,
      earlier entries first at equal scores, wallets in order after that, and the pro-rata denominator unchanged. */
  lemma RankingMeaning(es: seq<Entrant>)
    ensures var r := RankRound(es);
            && multiset(r) == multiset(es) && WinningSum(r) == WinningSum(es)
            && forall i, j :: 0 <= i < j < |r| ==>
                 && (r[j].allHit ==> r[i].allHit)
                 && (r[i].allHit == r[j].allHit ==> r[i].scoreFixed >= r[j].scoreFixed)
                 && (r[i].allHit == r[j].allHit && r[i].scoreFixed == r[j].scoreFixed ==> r[i].enteredAt <= r[j].enteredAt)
                 && (r[i].allHit == r[j].allHit && r[i].scoreFixed == r[j].scoreFixed && r[i].enteredAt == r[j].enteredAt ==>
                       CompareBytes(r[i].wallet, r[j].wallet) <= 0)
  {
    var r := RankRound(es);
    EntrantOrderConsistent();
    SortMultiset(EntrantOrder(), es);
    SortSorted(EntrantOrder(), es);
    RankingKeepsSum(es);
    forall i, j | 0 <= i < j < |r|
      ensures CompareEntrants(r[i], r[j]) <= 0
    {
      assert EntrantOrder()(r[i], r[j]) <= 0;
    }
  }
}
