/** Composite ranking by weighted min-max scores (sdk/composite_rank_desc.ts) and its agreement with
    the verifier's ranking path (sdk/verify.ts). */
module CompositeRank {
  import opened NumberTheory
  import opened StableSort
  import opened Entries
  import RankedDraw

  const WEIGHT_SCALE: nat := 1000000
  const NORMALIZATION_SCALE: nat := 1000000

  datatype Mode = Plain | MinMax

  datatype Participant = Participant(id: seq<char>, order: nat, values: seq<int>)

  /** An artifact as the parser accepts it. */
  datatype Artifact = Artifact(mode: Mode, weights: seq<nat>, participants: seq<Participant>, winnersCount: nat)

  ghost predicate Accepted(a: Artifact) {
    && 0 < |a.weights| && Sum(a.weights) == WEIGHT_SCALE
    && 0 < |a.participants|
    && (forall i :: 0 <= i < |a.participants| ==> |a.participants[i].values| == |a.weights|)
    && (forall i, j :: 0 <= i < j < |a.participants| ==> a.participants[i].id != a.participants[j].id)
    && a.winnersCount <= |a.participants|
  }

  function Sum(ws: seq<int>): int {
    if ws == [] then 0 else Sum(ws[..|ws| - 1]) + ws[|ws| - 1]
  }

  // ---------------------------------------------------------------- field ranges

  datatype Range = Range(min: int, max: int)

  function Column(ps: seq<Participant>, f: nat): (c: seq<int>)
    requires forall i :: 0 <= i < |ps| ==> f < |ps[i].values|
    ensures |c| == |ps| && forall i :: 0 <= i < |ps| ==> c[i] == ps[i].values[f]
  {
    seq(|ps|, i requires 0 <= i < |ps| => ps[i].values[f])
  }

  /** The least and the greatest value of a column. */
  ghost predicate IsRange(c: seq<int>, r: Range) {
    && r.min in c && r.max in c
    && forall i :: 0 <= i < |c| ==> r.min <= c[i] <= r.max
  }

  lemma RangeUnique(c: seq<int>, r: Range, s: Range)
    requires IsRange(c, r) && IsRange(c, s)
    ensures r == s
  {}

  method RangeForField(ps: seq<Participant>, f: nat) returns (r: Range)
    requires 0 < |ps| && forall i :: 0 <= i < |ps| ==> f < |ps[i].values|
    ensures IsRange(Column(ps, f), r)
  {
    var min, max := ps[0].values[f], ps[0].values[f];
    ghost var c := Column(ps, f);
    for i := 0 to |ps|
      invariant min in c && max in c
      invariant forall k :: 0 <= k < i ==> min <= c[k] <= max
      invariant min <= c[0] <= max
    {
      var value := ps[i].values[f];
      assert value == c[i];
      if value < min { min := value; }
      if value > max { max := value; }
    }
    r := Range(min, max);
  }

  /** The range as a value; RangeForField computes it. */
  ghost function RangeOf(c: seq<int>): (r: Range)
    requires c != []
    ensures IsRange(c, r)
  {
    if |c| == 1 then Range(c[0], c[0])
    else
      var r := RangeOf(c[..|c| - 1]);
      var x := c[|c| - 1];
      assert forall i :: 0 <= i < |c| - 1 ==> c[i] == c[..|c| - 1][i];
      Range(if x < r.min then x else r.min, if x > r.max then x else r.max)
  }

  // ---------------------------------------------------------------- scores

  function EffectiveValue(mode: Mode, raw: int, min: int, max: int): int {
    if mode == Plain then raw
    else if max == min then 0
    else if max < min then 0
    else ((raw - min) * NORMALIZATION_SCALE) / (max - min)
  }

  /** What field f adds to a participant's score. */
  ghost function Contribution(a: Artifact, p: Participant, f: nat): int
    requires Accepted(a) && f < |a.weights| && |p.values| == |a.weights|
  {
    var r := RangeOf(Column(a.participants, f));
    EffectiveValue(a.mode, p.values[f], r.min, r.max) * a.weights[f]
  }

  ghost function Contributions(a: Artifact, p: Participant): (cs: seq<int>)
    requires Accepted(a) && |p.values| == |a.weights|
    ensures |cs| == |a.weights| && forall f :: 0 <= f < |cs| ==> cs[f] == Contribution(a, p, f)
  {
    seq(|a.weights|, f requires 0 <= f < |a.weights| => Contribution(a, p, f))
  }

  ghost function FullScore(a: Artifact, p: Participant): int
    requires Accepted(a) && |p.values| == |a.weights|
  {
    Sum(Contributions(a, p))
  }

  method Ranges(ps: seq<Participant>, n: nat) returns (rs: seq<Range>)
    requires 0 < |ps| && forall i :: 0 <= i < |ps| ==> |ps[i].values| == n
    ensures |rs| == n && forall f :: 0 <= f < n ==> rs[f] == RangeOf(Column(ps, f))
  {
    rs := [];
    for f := 0 to n
      invariant |rs| == f && forall k :: 0 <= k < f ==> rs[k] == RangeOf(Column(ps, k))
    {
      var r := RangeForField(ps, f);
      RangeUnique(Column(ps, f), r, RangeOf(Column(ps, f)));
      rs := rs + [r];
    }
  }

  method CompositeScore(a: Artifact, rs: seq<Range>, p: Participant) returns (score: int)
    requires Accepted(a) && |p.values| == |a.weights|
    requires |rs| == |a.weights| && forall f :: 0 <= f < |rs| ==> rs[f] == RangeOf(Column(a.participants, f))
    ensures score == FullScore(a, p)
  {
    score := 0;
    ghost var cs := Contributions(a, p);
    for f := 0 to |a.weights|
      invariant score == Sum(cs[..f])
    {
      SumStep(cs, f);
      score := score + EffectiveValue(a.mode, p.values[f], rs[f].min, rs[f].max) * a.weights[f];
    }
    assert cs[..|a.weights|] == cs;
  }

  lemma SumStep(s: seq<int>, i: nat)
    requires i < |s|
    ensures Sum(s[..i + 1]) == Sum(s[..i]) + s[i]
  {
    assert s[..i + 1][..i] == s[..i];
  }

  lemma NormalizedBounds(raw: int, min: int, max: int)
    requires min <= raw <= max
    ensures 0 <= EffectiveValue(MinMax, raw, min, max) <= NORMALIZATION_SCALE
  {
    if min < max {
      DivMonotone(0, (raw - min) * NORMALIZATION_SCALE, max - min);
      DivMonotone((raw - min) * NORMALIZATION_SCALE, (max - min) * NORMALIZATION_SCALE, max - min);
      DivModUnique(0, max - min, 0, 0);
      DivModUnique((max - min) * NORMALIZATION_SCALE, max - min, NORMALIZATION_SCALE, 0);
    }
  }

  lemma DivMonotone(x: int, y: int, d: int)
    requires 0 < d && x <= y
    ensures x / d <= y / d
  {
    var p, q := x / d, y / d;
    assert x == d * p + x % d && y == d * q + y % d;
    if q < p { MulMono(d, q + 1, p); }
  }

  /** A better raw value never gives a smaller effective value, in either mode. */
  lemma EffectiveMonotone(mode: Mode, x: int, y: int, min: int, max: int)
    requires x <= y
    ensures EffectiveValue(mode, x, min, max) <= EffectiveValue(mode, y, min, max)
  {
    if mode == MinMax && min < max {
      DivMonotone((x - min) * NORMALIZATION_SCALE, (y - min) * NORMALIZATION_SCALE, max - min);
    }
  }

  lemma ContributionBounds(a: Artifact, i: nat, f: nat)
    requires Accepted(a) && a.mode == MinMax && i < |a.participants| && f < |a.weights|
    ensures 0 <= Contribution(a, a.participants[i], f) <= NORMALIZATION_SCALE * a.weights[f]
  {
    var c := Column(a.participants, f);
    var r := RangeOf(c);
    assert r.min <= c[i] <= r.max;
    NormalizedBounds(c[i], r.min, r.max);
    var e := EffectiveValue(MinMax, c[i], r.min, r.max);
    MulMono(a.weights[f], 0, e);
    MulMono(a.weights[f], e, NORMALIZATION_SCALE);
  }

  /** Sums are monotone in every term. */
  lemma {:induction false} SumMonotone(s: seq<int>, t: seq<int>)
    requires |s| == |t| && forall i :: 0 <= i < |s| ==> s[i] <= t[i]
    ensures Sum(s) <= Sum(t)
  {
    if s != [] {
      SumMonotone(s[..|s| - 1], t[..|t| - 1]);
    }
  }

  lemma {:induction false} SumScaled(s: seq<int>, k: int) returns (t: seq<int>)
    ensures |t| == |s| && forall i :: 0 <= i < |s| ==> t[i] == k * s[i]
    ensures Sum(t) == k * Sum(s)
  {
    if s == [] {
      t := [];
    } else {
      var u := SumScaled(s[..|s| - 1], k);
      t := u + [k * s[|s| - 1]];
      assert t[..|t| - 1] == u;
    }
  }

  /** Min-max scores lie in 0 .. 10^12. */
  lemma ScoreRange(a: Artifact, i: nat)
    requires Accepted(a) && a.mode == MinMax && i < |a.participants|
    ensures 0 <= FullScore(a, a.participants[i]) <= 1000000000000
  {
    var cs := Contributions(a, a.participants[i]);
    var top := SumScaled(a.weights, NORMALIZATION_SCALE);
    var zero := SumScaled(a.weights, 0);
    forall f | 0 <= f < |cs|
      ensures zero[f] <= cs[f] <= top[f]
    {
      ContributionBounds(a, i, f);
    }
    SumMonotone(zero, cs);
    SumMonotone(cs, top);
  }

  lemma ContributionMonotone(a: Artifact, p: Participant, q: Participant, f: nat)
    requires Accepted(a) && f < |a.weights| && |p.values| == |q.values| == |a.weights|
    requires q.values[f] <= p.values[f]
    ensures Contribution(a, q, f) <= Contribution(a, p, f)
  {
    var r := RangeOf(Column(a.participants, f));
    EffectiveMonotone(a.mode, q.values[f], p.values[f], r.min, r.max);
    MulMono(a.weights[f], EffectiveValue(a.mode, q.values[f], r.min, r.max), EffectiveValue(a.mode, p.values[f], r.min, r.max));
  }

  /** A participant at least as good in every field never scores lower, in either mode. */
  lemma Dominance(a: Artifact, p: Participant, q: Participant)
    requires Accepted(a) && |p.values| == |q.values| == |a.weights|
    requires forall f :: 0 <= f < |a.weights| ==> q.values[f] <= p.values[f]
    ensures FullScore(a, q) <= FullScore(a, p)
  {
    forall f | 0 <= f < |a.weights|
      ensures Contributions(a, q)[f] <= Contributions(a, p)[f]
    {
      ContributionMonotone(a, p, q, f);
    }
    SumMonotone(Contributions(a, q), Contributions(a, p));
  }

  // ---------------------------------------------------------------- what a score is

  /** e is what a raw value counts in a field whose values range over lo .. hi: the value itself, or its
      position in the range in millionths, rounded down; nothing in a range of a single value. */
  ghost predicate Counts(mode: Mode, raw: int, lo: int, hi: int, e: int) {
    match mode
    case Plain => e == raw
    case MinMax =>
      && (lo == hi ==> e == 0)
      && (lo < hi ==> e * (hi - lo) <= (raw - lo) * 1000000 < (e + 1) * (hi - lo))
  }

  lemma EffectiveCounts(mode: Mode, raw: int, lo: int, hi: int)
    requires lo <= hi
    ensures Counts(mode, raw, lo, hi, EffectiveValue(mode, raw, lo, hi))
  {
    if mode == MinMax && lo < hi {
      var n, d := (raw - lo) * 1000000, hi - lo;
      assert n == d * (n / d) + n % d;
      assert (n / d + 1) * d == d * (n / d) + d;
    }
  }

  /** A score in plain terms: the weighted sum of what the values count in the ranges of their fields. */
  lemma ScoreMeaning(a: Artifact, i: nat) returns (es: seq<int>)
    requires Accepted(a) && i < |a.participants|
    ensures |es| == |a.weights| && FullScore(a, a.participants[i]) == Sum(Weighted(es, a.weights))
    ensures forall f :: 0 <= f < |es| ==>
              forall r :: IsRange(Column(a.participants, f), r) ==> Counts(a.mode, a.participants[i].values[f], r.min, r.max, es[f])
  {
    var p := a.participants[i];
    es := seq(|a.weights|, f requires 0 <= f < |a.weights| => EffectiveOf(a, p, f));
    assert Contributions(a, p) == Weighted(es, a.weights);
    forall f, r | 0 <= f < |es| && IsRange(Column(a.participants, f), r)
      ensures Counts(a.mode, p.values[f], r.min, r.max, es[f])
    {
      RangeUnique(Column(a.participants, f), r, RangeOf(Column(a.participants, f)));
      EffectiveCounts(a.mode, p.values[f], r.min, r.max);
    }
  }

  ghost function EffectiveOf(a: Artifact, p: Participant, f: nat): int
    requires Accepted(a) && f < |a.weights| && |p.values| == |a.weights|
  {
    var r := RangeOf(Column(a.participants, f));
    EffectiveValue(a.mode, p.values[f], r.min, r.max)
  }

  /** Only the moved field changes its share of the score. */
  lemma ScoreMoved(a: Artifact, p: Participant, q: Participant, f: nat, x: int)
    requires Accepted(a) && |p.values| == |a.weights| && f < |a.weights| && q.values == p.values[f := x]
    ensures FullScore(a, q) - FullScore(a, p) == Contribution(a, q, f) - Contribution(a, p, f)
  {
    var cs := Contributions(a, p);
    assert Contributions(a, q) == cs[f := Contribution(a, q, f)];
    SumUpdate(cs, f, Contribution(a, q, f));
  }

  lemma ContributionCounts(a: Artifact, p: Participant, f: nat, r: Range, w: int) returns (e: int)
    requires Accepted(a) && |p.values| == |a.weights| && f < |a.weights| && w == a.weights[f]
    requires IsRange(Column(a.participants, f), r)
    ensures Contribution(a, p, f) == e * w && Counts(a.mode, p.values[f], r.min, r.max, e)
  {
    RangeUnique(Column(a.participants, f), r, RangeOf(Column(a.participants, f)));
    EffectiveCounts(a.mode, p.values[f], r.min, r.max);
    e := EffectiveOf(a, p, f);
  }

  /** count is d, or d in millionths of the range lo .. hi up to less than one unit of rounding. */
  ghost predicate ShareOf(mode: Mode, count: int, d: int, lo: int, hi: int) {
    match mode
    case Plain => count == d
    case MinMax =>
      && (lo == hi ==> count == 0)
      && (lo < hi ==> -(hi - lo) < count * (hi - lo) - d * 1000000 < hi - lo)
  }

  lemma CountsDiffer(mode: Mode, raw: int, d: int, lo: int, hi: int, x: int, y: int)
    requires Counts(mode, raw, lo, hi, x) && Counts(mode, raw + d, lo, hi, y)
    ensures ShareOf(mode, y - x, d, lo, hi)
  {
    if mode == MinMax && lo < hi {
      var w := hi - lo;
      assert (y - x) * w == y * w - x * w && (x + 1) * w == x * w + w && (y + 1) * w == y * w + w;
    }
  }

  lemma MovedScore(a: Artifact, p: Participant, q: Participant, f: nat, x: int, r: Range, w: int) returns (e: int, e': int)
    requires Accepted(a) && |p.values| == |a.weights| && f < |a.weights| && w == a.weights[f]
    requires q.values == p.values[f := x] && IsRange(Column(a.participants, f), r)
    ensures FullScore(a, q) - FullScore(a, p) == (e' - e) * w
    ensures Counts(a.mode, p.values[f], r.min, r.max, e) && Counts(a.mode, x, r.min, r.max, e')
  {
    ScoreMoved(a, p, q, f, x);
    e := ContributionCounts(a, p, f, r, w);
    e' := ContributionCounts(a, q, f, r, w);
    DistributeRight(e', e, w);
  }

  lemma DistributeRight(x: int, y: int, w: int)
    ensures (x - y) * w == x * w - y * w
  {}

  /** Two participants that differ by d in one field differ in score by the field's weight times the
      share of d in the field's range. */
  lemma FieldDifference(a: Artifact, p: Participant, q: Participant, f: nat, d: int, r: Range, w: int) returns (count: int)
    requires Accepted(a) && |p.values| == |a.weights| && f < |a.weights| && w == a.weights[f]
    requires q.values == p.values[f := p.values[f] + d] && IsRange(Column(a.participants, f), r)
    ensures FullScore(a, q) - FullScore(a, p) == count * w && ShareOf(a.mode, count, d, r.min, r.max)
  {
    var x, y := MovedScore(a, p, q, f, p.values[f] + d, r, w);
    count := y - x;
    CountsDiffer(a.mode, p.values[f], d, r.min, r.max, x, y);
  }

  // ---------------------------------------------------------------- affine maps

  function MapParticipant(p: Participant, f: nat, scale: int, shift: int): Participant
    requires f < |p.values|
  {
    p.(values := p.values[f := scale * p.values[f] + shift])
  }

  /** The artifact with field f of every participant mapped by x -> scale * x + shift. */
  function MapField(a: Artifact, f: nat, scale: int, shift: int): Artifact
    requires forall i :: 0 <= i < |a.participants| ==> f < |a.participants[i].values|
  {
    a.(participants := seq(|a.participants|, i requires 0 <= i < |a.participants| => MapParticipant(a.participants[i], f, scale, shift)))
  }

  lemma AffineRange(c: seq<int>, d: seq<int>, scale: int, shift: int)
    requires c != [] && |d| == |c| && 0 < scale
    requires forall i :: 0 <= i < |c| ==> d[i] == scale * c[i] + shift
    ensures RangeOf(d) == Range(scale * RangeOf(c).min + shift, scale * RangeOf(c).max + shift)
  {
    var r := RangeOf(c);
    var s := Range(scale * r.min + shift, scale * r.max + shift);
    var i :| 0 <= i < |c| && c[i] == r.min;
    var j :| 0 <= j < |c| && c[j] == r.max;
    assert d[i] == s.min && d[j] == s.max;
    forall k | 0 <= k < |d|
      ensures s.min <= d[k] <= s.max
    {
      MulMono(scale, r.min, c[k]);
      MulMono(scale, c[k], r.max);
    }
    RangeUnique(d, s, RangeOf(d));
  }

  /** Normalisation cancels a positive affine map exactly, rounding included. */
  lemma AffineEffective(raw: int, min: int, max: int, scale: int, shift: int)
    requires 0 < scale && min <= max
    ensures EffectiveValue(MinMax, scale * raw + shift, scale * min + shift, scale * max + shift) == EffectiveValue(MinMax, raw, min, max)
  {
    if min < max {
      MulMono(scale, 1, max - min);
      var n, d := (raw - min) * NORMALIZATION_SCALE, max - min;
      assert scale * max + shift - (scale * min + shift) == scale * d;
      assert (scale * raw + shift - (scale * min + shift)) * NORMALIZATION_SCALE == scale * n;
      CancelScale(n, d, scale);
    }
  }

  lemma CancelScale(n: int, d: int, s: int)
    requires 0 < d && 0 < s && 0 < s * d
    ensures (s * n) / (s * d) == n / d
  {
    var q, r := n / d, n % d;
    assert n == d * q + r;
    assert s * n == (s * d) * q + s * r;
    MulMono(s, 0, r);
    MulMono(s, r, d - 1);
    assert s * (d - 1) == s * d - s;
    DivModUnique(s * n, s * d, q, s * r);
  }

  lemma MapFieldAccepted(a: Artifact, f: nat, scale: int, shift: int)
    requires Accepted(a) && f < |a.weights|
    ensures Accepted(MapField(a, f, scale, shift))
  {
    var b := MapField(a, f, scale, shift);
    assert forall k :: 0 <= k < |a.participants| ==> b.participants[k].id == a.participants[k].id;
  }

  lemma MappedColumn(a: Artifact, f: nat, scale: int, shift: int, g: nat)
    requires Accepted(a) && f < |a.weights| && g < |a.weights|
    ensures forall i :: 0 <= i < |a.participants| ==> g < |MapField(a, f, scale, shift).participants[i].values|
    ensures forall i :: 0 <= i < |a.participants| ==>
              Column(MapField(a, f, scale, shift).participants, g)[i] ==
              if g == f then scale * Column(a.participants, g)[i] + shift else Column(a.participants, g)[i]
  {}

  /** A field's effective value is untouched by an affine map of its whole column. */
  lemma AffineColumn(c: seq<int>, d: seq<int>, scale: int, shift: int, i: nat)
    requires c != [] && |d| == |c| && 0 < scale && i < |c|
    requires forall k :: 0 <= k < |c| ==> d[k] == scale * c[k] + shift
    ensures EffectiveValue(MinMax, d[i], RangeOf(d).min, RangeOf(d).max) == EffectiveValue(MinMax, c[i], RangeOf(c).min, RangeOf(c).max)
  {
    AffineRange(c, d, scale, shift);
    RangeOrdered(c, RangeOf(c));
    AffineValue(c[i], d[i], RangeOf(c), RangeOf(d), scale, shift);
  }

  lemma RangeOrdered(c: seq<int>, r: Range)
    requires IsRange(c, r)
    ensures r.min <= r.max
  {}

  lemma AffineValue(x: int, y: int, r: Range, s: Range, scale: int, shift: int)
    requires 0 < scale && r.min <= r.max && y == scale * x + shift
    requires s == Range(scale * r.min + shift, scale * r.max + shift)
    ensures EffectiveValue(MinMax, y, s.min, s.max) == EffectiveValue(MinMax, x, r.min, r.max)
  {
    AffineEffective(x, r.min, r.max, scale, shift);
  }

  lemma AffineContribution(a: Artifact, b: Artifact, f: nat, scale: int, shift: int, i: nat, g: nat)
    requires Accepted(a) && a.mode == MinMax && f < |a.weights| && g < |a.weights| && 0 < scale
    requires i < |a.participants| && Accepted(b) && b == MapField(a, f, scale, shift)
    ensures Contribution(b, b.participants[i], g) == Contribution(a, a.participants[i], g)
  {
    MappedColumn(a, f, scale, shift, g);
    var c, d := Column(a.participants, g), Column(b.participants, g);
    if g == f { AffineColumn(c, d, scale, shift, i); } else { assert d == c; }
    assert d[i] == b.participants[i].values[g] && c[i] == a.participants[i].values[g];
  }

  lemma AffineScore(a: Artifact, b: Artifact, f: nat, scale: int, shift: int, i: nat)
    requires Accepted(a) && a.mode == MinMax && f < |a.weights| && 0 < scale
    requires i < |a.participants| && Accepted(b) && b == MapField(a, f, scale, shift)
    ensures FullScore(b, b.participants[i]) == FullScore(a, a.participants[i])
  {
    forall g | 0 <= g < |a.weights|
      ensures Contributions(a, a.participants[i])[g] == Contributions(b, b.participants[i])[g]
    {
      AffineContribution(a, b, f, scale, shift, i, g);
    }
    assert Contributions(a, a.participants[i]) == Contributions(b, b.participants[i]);
  }

  // ---------------------------------------------------------------- ranking

  /** The replay's record of every participant. */
  ghost function ReplayEntries(a: Artifact): (es: seq<Entry>)
    requires Accepted(a)
    ensures |es| == |a.participants|
    ensures forall i :: 0 <= i < |es| ==> es[i] == Entry(a.participants[i].id, a.participants[i].order, 1, FullScore(a, a.participants[i]))
  {
    seq(|a.participants|, i requires 0 <= i < |a.participants| =>
      Entry(a.participants[i].id, a.participants[i].order, 1, FullScore(a, a.participants[i])))
  }

  function ReplayCompare(left: Entry, right: Entry): int {
    var scoreDiff := right.score - left.score;
    if scoreDiff != 0 then (if scoreDiff > 0 then 1 else -1) else left.order - right.order
  }

  function ReplayOrder(): (Entry, Entry) -> int {
    (a, b) => ReplayCompare(a, b)
  }

  lemma ReplayOrderIsRankDesc(es: seq<Entry>)
    ensures Sort(ReplayOrder(), es) == Sort(RankedDraw.Comparator(RankedDraw.RankDesc, 0), es)
  {
    var id := (e: Entry) => e;
    SortMap(id, RankedDraw.Comparator(RankedDraw.RankDesc, 0), ReplayOrder(), es);
    assert Map(id, es) == es;
    assert Map(id, Sort(ReplayOrder(), es)) == Sort(ReplayOrder(), es);
  }

  method ReplayAll(a: Artifact) returns (es: seq<Entry>)
    requires Accepted(a)
    ensures es == ReplayEntries(a)
  {
    var rs := Ranges(a.participants, |a.weights|);
    es := [];
    ghost var target := ReplayEntries(a);
    for i := 0 to |a.participants|
      invariant es == target[..i]
    {
      var e := ReplayOne(a, rs, i);
      PrefixStep(target, i);
      es := es + [e];
    }
    PrefixStep(target, 0);
  }

  lemma PrefixStep<T>(s: seq<T>, i: nat)
    ensures i < |s| ==> s[..i + 1] == s[..i] + [s[i]]
    ensures s[..|s|] == s
  {}

  method ReplayOne(a: Artifact, rs: seq<Range>, i: nat) returns (e: Entry)
    requires Accepted(a) && i < |a.participants|
    requires |rs| == |a.weights| && forall f :: 0 <= f < |rs| ==> rs[f] == RangeOf(Column(a.participants, f))
    ensures e == ReplayEntries(a)[i]
  {
    var p := a.participants[i];
    var score := CompositeScore(a, rs, p);
    e := Entry(p.id, p.order, 1, score);
  }

  /** Participant i has a higher score than j, or the same score and no later order. */
  ghost predicate Outranks(a: Artifact, i: nat, j: nat) {
    && Accepted(a) && i < |a.participants| && j < |a.participants|
    && var x, y := FullScore(a, a.participants[i]), FullScore(a, a.participants[j]);
       y < x || (x == y && a.participants[i].order <= a.participants[j].order)
  }

  /** The ids are those of the participants at the distinct positions p; each outranks those after it and
      everybody outside. */
  ghost predicate RankedAt(a: Artifact, ids: seq<seq<char>>, p: seq<nat>) {
    && |p| == |ids|
    && (forall i :: 0 <= i < |p| ==> p[i] < |a.participants| && ids[i] == a.participants[p[i]].id)
    && (forall i, j :: 0 <= i < j < |p| ==> p[i] != p[j] && Outranks(a, p[i], p[j]))
    && (forall i, n: nat :: 0 <= i < |p| && n < |a.participants| && n !in p ==> Outranks(a, p[i], n))
  }

  /** The first k ids of the stable ranking are the k highest scores, earlier orders first. */
  lemma RankedByScore(a: Artifact, k: nat) returns (p: seq<nat>)
    requires Accepted(a) && k <= |a.participants|
    ensures |p| == k && RankedAt(a, Ids(RankedDraw.Ranking(RankedDraw.RankDesc, 0, ReplayEntries(a), k)), p)
  {
    var es := ReplayEntries(a);
    p := RankedDraw.RankingMeaning(RankedDraw.RankDesc, 0, es, k);
    forall i, j | 0 <= i < j < k
      ensures p[i] != p[j] && Outranks(a, p[i], p[j])
    {
      LeadsOutranks(a, p[i], p[j]);
    }
    forall i, n: nat | 0 <= i < k && n < |a.participants| && n !in p
      ensures Outranks(a, p[i], n)
    {
      LeadsOutranks(a, p[i], n);
    }
  }

  lemma LeadsOutranks(a: Artifact, i: nat, j: nat)
    requires Accepted(a) && RankedDraw.IndexLeads(RankedDraw.RankDesc, 0, ReplayEntries(a), i, j)
    ensures i != j && Outranks(a, i, j)
  {}

  /** replayCompositeRankDescArtifact: all ids in rank order, and the winners. */
  method Replay(a: Artifact) returns (orderedIds: seq<seq<char>>, winnerIds: seq<seq<char>>)
    requires Accepted(a)
    ensures orderedIds == Ids(RankedDraw.Ranking(RankedDraw.RankDesc, 0, ReplayEntries(a), |a.participants|))
    ensures winnerIds == Ids(RankedDraw.Ranking(RankedDraw.RankDesc, 0, ReplayEntries(a), a.winnersCount))
    ensures |orderedIds| == |a.participants| && |winnerIds| == a.winnersCount
    ensures (exists p :: RankedAt(a, orderedIds, p)) && exists p :: RankedAt(a, winnerIds, p)
  {
    ghost var everybody := RankedByScore(a, |a.participants|);
    ghost var best := RankedByScore(a, a.winnersCount);
    var es := ReplayAll(a);
    var ordered := Sort(ReplayOrder(), es);
    ReplayOrderIsRankDesc(es);
    orderedIds := Ids(ordered);
    winnerIds := Ids(Take(a.winnersCount, ordered));
  }

  method ScoresById(es: seq<Entry>) returns (byId: map<seq<char>, int>)
    requires forall i, j :: 0 <= i < j < |es| ==> es[i].id != es[j].id
    ensures forall k :: 0 <= k < |es| ==> es[k].id in byId && byId[es[k].id] == es[k].score
  {
    byId := map[];
    for i := 0 to |es|
      invariant forall k :: 0 <= k < i ==> es[k].id in byId && byId[es[k].id] == es[k].score
    {
      byId := byId[es[i].id := es[i].score];
    }
  }

  method LookUp(ps: seq<Participant>, byId: map<seq<char>, int>) returns (outcomes: seq<Entry>)
    ensures |outcomes| == |ps|
    ensures forall i :: 0 <= i < |ps| ==>
              outcomes[i] == Entry(ps[i].id, ps[i].order, 1, if ps[i].id in byId then byId[ps[i].id] else 0)
  {
    outcomes := [];
    for i := 0 to |ps|
      invariant |outcomes| == i
      invariant forall k :: 0 <= k < i ==>
                  outcomes[k] == Entry(ps[k].id, ps[k].order, 1, if ps[k].id in byId then byId[ps[k].id] else 0)
    {
      outcomes := outcomes + [Entry(ps[i].id, ps[i].order, 1, if ps[i].id in byId then byId[ps[i].id] else 0)];
    }
  }

  /** parseCompiledArtifact, composite branch: scores looked up by id in the replay's result. */
  method VerifierOutcomes(a: Artifact) returns (outcomes: seq<Entry>)
    requires Accepted(a)
    ensures outcomes == ReplayEntries(a)
  {
    var es := ReplayAll(a);
    var byId := ScoresById(es);
    outcomes := LookUp(a.participants, byId);
    assert forall i :: 0 <= i < |es| ==> outcomes[i] == es[i];
  }

  /** The verifier's index sort over those outcomes names the replay's winners, in order. */
  lemma VerifierAgrees(a: Artifact)
    requires Accepted(a)
    ensures RankedDraw.Pointed(ReplayEntries(a), RankedDraw.IndexSort(RankedDraw.RankDesc, 0, ReplayEntries(a), a.winnersCount))
         == RankedDraw.Ranking(RankedDraw.RankDesc, 0, ReplayEntries(a), a.winnersCount)
  {
    RankedDraw.IndexSortAgrees(RankedDraw.RankDesc, 0, ReplayEntries(a), a.winnersCount);
  }

  /** A positive affine map of one field for everyone changes neither scores nor ranking. */
  lemma AffineInvariance(a: Artifact, f: nat, scale: int, shift: int)
    requires Accepted(a) && a.mode == MinMax && f < |a.weights| && 0 < scale
    ensures Accepted(MapField(a, f, scale, shift))
    ensures ReplayEntries(MapField(a, f, scale, shift)) == ReplayEntries(a)
  {
    var b := MapField(a, f, scale, shift);
    MapFieldAccepted(a, f, scale, shift);
    forall i | 0 <= i < |a.participants|
      ensures ReplayEntries(b)[i] == ReplayEntries(a)[i]
    {
      AffineScore(a, b, f, scale, shift, i);
    }
  }

  // ---------------------------------------------------------------- affine maps without normalisation

  /** All ids in rank order. */
  ghost function RankedIds(a: Artifact): seq<seq<char>>
    requires Accepted(a)
  {
    Ids(RankedDraw.Ranking(RankedDraw.RankDesc, 0, ReplayEntries(a), |a.participants|))
  }

  function Weighted(values: seq<int>, weights: seq<nat>): (t: seq<int>)
    requires |values| == |weights|
    ensures |t| == |values| && forall f :: 0 <= f < |t| ==> t[f] == values[f] * weights[f]
  {
    seq(|values|, f requires 0 <= f < |values| => values[f] * weights[f])
  }

  lemma PlainScore(a: Artifact, p: Participant)
    requires Accepted(a) && a.mode == Plain && |p.values| == |a.weights|
    ensures FullScore(a, p) == Sum(Weighted(p.values, a.weights))
  {
    assert Contributions(a, p) == Weighted(p.values, a.weights);
  }

  lemma {:induction false} SumUpdate(s: seq<int>, i: nat, x: int)
    requires i < |s|
    ensures Sum(s[i := x]) == Sum(s) + x - s[i]
  {
    var n := |s| - 1;
    if i == n {
      assert s[i := x][..n] == s[..n];
    } else {
      SumUpdate(s[..n], i, x);
      assert s[i := x][..n] == s[..n][i := x];
    }
  }

  lemma WeightedUpdate(values: seq<int>, weights: seq<nat>, f: nat, x: int)
    requires |values| == |weights| && f < |weights|
    ensures Sum(Weighted(values[f := x], weights)) == Sum(Weighted(values, weights)) + (x - values[f]) * weights[f]
  {
    var t := Weighted(values, weights);
    assert Weighted(values[f := x], weights) == t[f := x * weights[f]];
    SumUpdate(t, f, x * weights[f]);
    assert x * weights[f] - values[f] * weights[f] == (x - values[f]) * weights[f];
  }

  lemma MappedValues(a: Artifact, f: nat, scale: int, shift: int, i: nat)
    requires Accepted(a) && f < |a.weights| && i < |a.participants|
    ensures MapField(a, f, scale, shift).participants[i]
         == a.participants[i].(values := a.participants[i].values[f := scale * a.participants[i].values[f] + shift])
  {}

  /** A new value x of field f moves a plain score by the field's weight for each unit. */
  lemma PlainMoved(a: Artifact, b: Artifact, p: Participant, q: Participant, f: nat, x: int, gain: int)
    requires Accepted(a) && Accepted(b) && a.mode == b.mode == Plain && b.weights == a.weights
    requires |p.values| == |a.weights| && f < |a.weights| && q.values == p.values[f := x]
    requires gain == (x - p.values[f]) * a.weights[f]
    ensures FullScore(b, q) == FullScore(a, p) + gain
  {
    PlainScore(a, p);
    PlainScore(b, q);
    WeightedUpdate(p.values, a.weights, f, x);
  }

  function Rescore(k: int, c: int): Entry -> Entry {
    (e: Entry) => e.(score := k * e.score + c)
  }

  lemma RescoredCompare(k: int, c: int, x: Entry, y: Entry)
    requires 0 < k
    ensures RankedDraw.Compare(RankedDraw.RankDesc, 0, Rescore(k, c)(x), Rescore(k, c)(y)) == RankedDraw.Compare(RankedDraw.RankDesc, 0, x, y)
  {
    if x.score < y.score { MulMono(k, x.score + 1, y.score); }
    if y.score < x.score { MulMono(k, y.score + 1, x.score); }
  }

  /** Scores mapped by an increasing affine function rank the same. */
  lemma RescoredSort(es: seq<Entry>, es': seq<Entry>, k: int, c: int)
    requires 0 < k && es' == Map(Rescore(k, c), es)
    ensures var cmp := RankedDraw.Comparator(RankedDraw.RankDesc, 0); Ids(Sort(cmp, es')) == Ids(Sort(cmp, es))
  {
    var g, cmp := Rescore(k, c), RankedDraw.Comparator(RankedDraw.RankDesc, 0);
    forall x, y
      ensures cmp(x, y) == cmp(g(x), g(y))
    {
      RescoredCompare(k, c, x, y);
    }
    SortMap(g, cmp, cmp, es);
    assert Ids(Map(g, Sort(cmp, es))) == Ids(Sort(cmp, es));
  }

  /** b has the participants of a with their scores mapped by x -> k * x + c. */
  ghost predicate Rescored(a: Artifact, b: Artifact, k: int, c: int) {
    && Accepted(a) && Accepted(b) && |b.participants| == |a.participants|
    && forall i :: 0 <= i < |a.participants| ==> RescoredAt(a, b, k, c, i)
  }

  ghost predicate RescoredAt(a: Artifact, b: Artifact, k: int, c: int, i: nat)
    requires Accepted(a) && Accepted(b) && |b.participants| == |a.participants| && i < |a.participants|
  {
    && b.participants[i].id == a.participants[i].id && b.participants[i].order == a.participants[i].order
    && FullScore(b, b.participants[i]) == k * FullScore(a, a.participants[i]) + c
  }

  lemma RescoredRanking(a: Artifact, b: Artifact, k: int, c: int)
    requires 0 < k && Rescored(a, b, k, c)
    ensures RankedIds(b) == RankedIds(a)
  {
    var es, es' := ReplayEntries(a), ReplayEntries(b);
    forall i | 0 <= i < |es|
      ensures es'[i] == Map(Rescore(k, c), es)[i]
    {
      assert RescoredAt(a, b, k, c, i);
    }
    RescoredSort(es, es', k, c);
  }

  /** The field's map leaves the ranking as it is. */
  ghost predicate KeepsRanking(a: Artifact, f: nat, scale: int, shift: int)
    requires Accepted(a) && f < |a.weights|
  {
    MapFieldAccepted(a, f, scale, shift);
    RankedIds(MapField(a, f, scale, shift)) == RankedIds(a)
  }

  lemma ShiftGain(v: int, shift: int, w: int)
    ensures (1 * v + shift - v) * w == shift * w
  {}

  /** A shift adds the same to every plain score. */
  lemma ShiftKeepsRanking(a: Artifact, f: nat, shift: int)
    requires Accepted(a) && a.mode == Plain && f < |a.weights|
    ensures KeepsRanking(a, f, 1, shift)
  {
    var b, c := MapField(a, f, 1, shift), shift * a.weights[f];
    MapFieldAccepted(a, f, 1, shift);
    forall i | 0 <= i < |a.participants|
      ensures RescoredAt(a, b, 1, c, i)
    {
      ShiftGain(a.participants[i].values[f], shift, a.weights[f]);
      MappedValues(a, f, 1, shift, i);
      var v := a.participants[i].values[f];
      PlainMoved(a, b, a.participants[i], b.participants[i], f, 1 * v + shift, c);
    }
    RescoredRanking(a, b, 1, c);
  }

  /** With a single field a positive affine map of it is one of the score. */
  lemma OneFieldKeepsRanking(a: Artifact, scale: int, shift: int)
    requires Accepted(a) && a.mode == Plain && |a.weights| == 1 && 0 < scale
    ensures KeepsRanking(a, 0, scale, shift)
  {
    var b, w := MapField(a, 0, scale, shift), a.weights[0];
    MapFieldAccepted(a, 0, scale, shift);
    forall i | 0 <= i < |a.participants|
      ensures RescoredAt(a, b, scale, shift * w, i)
    {
      var v := a.participants[i].values[0];
      MappedValues(a, 0, scale, shift, i);
      PlainMoved(a, b, a.participants[i], b.participants[i], 0, scale * v + shift, (scale * v + shift - v) * w);
      OneFieldScore(a, i);
      Distribute(v, w, scale, shift);
    }
    RescoredRanking(a, b, scale, shift * w);
  }

  lemma Distribute(v: int, w: int, scale: int, shift: int)
    ensures v * w + (scale * v + shift - v) * w == scale * (v * w) + shift * w
  {}

  lemma OneFieldScore(a: Artifact, i: nat)
    requires Accepted(a) && a.mode == Plain && |a.weights| == 1 && i < |a.participants|
    ensures FullScore(a, a.participants[i]) == a.participants[i].values[0] * a.weights[0]
  {
    PlainScore(a, a.participants[i]);
    var t := Weighted(a.participants[i].values, a.weights);
    assert t[..0] == [] && t[..1] == t;
    SumStep(t, 0);
  }

  function Zeroes(n: nat): (z: seq<int>)
    ensures |z| == n && forall i :: 0 <= i < n ==> z[i] == 0
  {
    seq(n, i => 0)
  }

  lemma {:induction false} SumOfZeroes(z: seq<int>)
    requires forall i :: 0 <= i < |z| ==> z[i] == 0
    ensures Sum(z) == 0
  {
    if z != [] { SumOfZeroes(z[..|z| - 1]); }
  }

  /** -2 weights of g in field f against 3 weights of f in field g. */
  function RivalValues(weights: seq<nat>, f: nat, g: nat): (vs: seq<int>)
    requires f < |weights| && g < |weights|
    ensures |vs| == |weights|
  {
    Zeroes(|weights|)[f := -2 * (weights[g] as int)][g := 3 * (weights[f] as int)]
  }

  function Pair(weights: seq<nat>, us: seq<int>, vs: seq<int>): (a: Artifact)
    ensures |a.participants| == 2 && a.participants[0].id != a.participants[1].id
  {
    assert "p"[0] != "q"[0];
    Artifact(Plain, weights, [Participant("p", 0, us), Participant("q", 1, vs)], 1)
  }

  lemma PairAccepted(weights: seq<nat>, us: seq<int>, vs: seq<int>)
    requires 0 < |weights| && Sum(weights) == WEIGHT_SCALE && |us| == |vs| == |weights|
    ensures Accepted(Pair(weights, us, vs))
  {
    var ps := Pair(weights, us, vs).participants;
    assert ps == [ps[0], ps[1]];
  }

  function Rivals(weights: seq<nat>, f: nat, g: nat): Artifact
    requires f < |weights| && g < |weights|
  {
    Pair(weights, Zeroes(|weights|), RivalValues(weights, f, g))
  }

  lemma RivalTotal(weights: seq<nat>, f: nat, g: nat)
    requires f < |weights| && g < |weights| && f != g
    ensures Sum(Weighted(Zeroes(|weights|), weights)) == 0
    ensures Sum(Weighted(RivalValues(weights, f, g), weights)) == weights[f] * weights[g]
  {
    var z := Zeroes(|weights|);
    SumOfZeroes(Weighted(z, weights));
    var low: int, high: int := -2 * (weights[g] as int), 3 * (weights[f] as int);
    WeightedUpdate(z, weights, f, low);
    WeightedUpdate(z[f := low], weights, g, high);
    assert low * weights[f] + high * weights[g] == weights[f] * weights[g];
  }

  lemma RankedTwo(es: seq<Entry>)
    requires |es| == 2 && es[0].order < es[1].order
    ensures Ids(RankedDraw.Ranking(RankedDraw.RankDesc, 0, es, 2)) == if es[1].score > es[0].score then [es[1].id, es[0].id] else [es[0].id, es[1].id]
  {
    assert es == [es[0], es[1]];
    SortPair(RankedDraw.Comparator(RankedDraw.RankDesc, 0), es[0], es[1]);
  }

  lemma RankedPair(a: Artifact)
    requires Accepted(a) && |a.participants| == 2 && a.participants[0].order < a.participants[1].order
    ensures var p, q := a.participants[0], a.participants[1];
            RankedIds(a) == if FullScore(a, q) > FullScore(a, p) then [q.id, p.id] else [p.id, q.id]
  {
    RankedTwo(ReplayEntries(a));
  }

  lemma RivalsBefore(a: Artifact, weights: seq<nat>, f: nat, g: nat)
    requires f < |weights| && g < |weights| && f != g && a == Rivals(weights, f, g) && Accepted(a)
    ensures FullScore(a, a.participants[0]) == 0 && FullScore(a, a.participants[1]) == weights[f] * weights[g]
  {
    PlainScore(a, a.participants[0]);
    PlainScore(a, a.participants[1]);
    RivalTotal(weights, f, g);
  }

  lemma FieldMapped(a: Artifact, b: Artifact, f: nat, scale: int, shift: int, i: nat, v: int, gain: int)
    requires Accepted(a) && Accepted(b) && a.mode == Plain && f < |a.weights| && i < |a.participants|
    requires b == MapField(a, f, scale, shift) && v == a.participants[i].values[f]
    requires gain == (scale * v + shift - v) * a.weights[f]
    ensures FullScore(b, b.participants[i]) == FullScore(a, a.participants[i]) + gain
  {
    MappedValues(a, f, scale, shift, i);
    PlainMoved(a, b, a.participants[i], b.participants[i], f, scale * v + shift, gain);
  }

  lemma RivalFields(weights: seq<nat>, f: nat, g: nat)
    requires f < |weights| && g < |weights| && f != g
    ensures Zeroes(|weights|)[f] == 0 && RivalValues(weights, f, g)[f] == -2 * (weights[g] as int)
  {}

  /** A stretch by `scale` changes the lead of the second rival. */
  lemma RivalsAfter(a: Artifact, b: Artifact, f: nat, scale: int, shift: int, w: int, v: int)
    requires Accepted(a) && Accepted(b) && a.mode == Plain && f < |a.weights| && |a.participants| == 2
    requires b == MapField(a, f, scale, shift) && a.weights[f] == w
    requires a.participants[0].values[f] == 0 && a.participants[1].values[f] == -2 * v
    ensures FullScore(b, b.participants[1]) - FullScore(b, b.participants[0])
         == FullScore(a, a.participants[1]) - FullScore(a, a.participants[0]) + Change(w, v, scale)
  {
    Stretched(w, v, scale, shift);
    FieldMapped(a, b, f, scale, shift, 0, 0, (scale * 0 + shift - 0) * w);
    FieldMapped(a, b, f, scale, shift, 1, -2 * v, (scale * (-2 * v) + shift - -2 * v) * w);
  }

  function Change(w: int, v: int, scale: int): int {
    2 * (w * v) - 2 * (scale * (w * v))
  }

  lemma Stretched(w: int, v: int, scale: int, shift: int)
    ensures (scale * (-2 * v) + shift - -2 * v) * w - (scale * 0 + shift - 0) * w == Change(w, v, scale)
  {
    assert (scale * (-2 * v)) * w == -2 * (scale * (w * v));
    assert (-2 * v) * w == -2 * (w * v);
    var t := scale * (-2 * v);
    assert (t + shift - -2 * v) * w == t * w + shift * w - (-2 * v) * w;
  }

  lemma Turned(w: int, v: int, scale: int)
    requires 0 < w && 0 < v && 1 < scale
    ensures 0 < w * v && w * v + Change(w, v, scale) < 0
  {
    MulMono(w, 1, v);
    MulMono(w * v, 2, scale);
  }

  lemma Overtaken(a: Artifact, b: Artifact)
    requires Accepted(a) && Accepted(b) && |a.participants| == |b.participants| == 2
    requires a.participants[0].id == b.participants[0].id && a.participants[0].order == b.participants[0].order == 0
    requires a.participants[1].id == b.participants[1].id && a.participants[1].order == b.participants[1].order == 1
    requires a.participants[0].id != a.participants[1].id
    requires FullScore(a, a.participants[0]) < FullScore(a, a.participants[1])
    requires FullScore(b, b.participants[0]) > FullScore(b, b.participants[1])
    ensures RankedIds(a) != RankedIds(b)
  {
    RankedPair(a);
    RankedPair(b);
  }

  lemma StretchTurns(a: Artifact, b: Artifact, f: nat, scale: int, shift: int, w: int, v: int)
    requires Accepted(a) && Accepted(b) && a.mode == Plain && f < |a.weights| && |a.participants| == 2
    requires b == MapField(a, f, scale, shift) && a.weights[f] == w && 0 < w && 0 < v && 1 < scale
    requires a.participants[0].values[f] == 0 && a.participants[1].values[f] == -2 * v
    requires a.participants[0].order == 0 && a.participants[1].order == 1
    requires FullScore(a, a.participants[0]) == 0 && FullScore(a, a.participants[1]) == w * v
    ensures RankedIds(a) != RankedIds(b)
  {
    RivalsAfter(a, b, f, scale, shift, w, v);
    Turned(w, v, scale);
    assert a.participants[0].id != a.participants[1].id;
    Overtaken(a, b);
  }

  /** Everything StretchTurns needs of the rivals. */
  lemma RivalFacts(weights: seq<nat>, f: nat, g: nat) returns (a: Artifact)
    requires Sum(weights) == WEIGHT_SCALE && f < |weights| && g < |weights| && f != g
    ensures Accepted(a) && a.mode == Plain && a.weights == weights && |a.participants| == 2
    ensures a.participants[0].id != a.participants[1].id && a.participants[0].order == 0 && a.participants[1].order == 1
    ensures a.participants[0].values[f] == 0 && a.participants[1].values[f] == -2 * (weights[g] as int)
    ensures FullScore(a, a.participants[0]) == 0 && FullScore(a, a.participants[1]) == weights[f] * weights[g]
  {
    a := Rivals(weights, f, g);
    PairAccepted(weights, Zeroes(|weights|), RivalValues(weights, f, g));
    RivalsBefore(a, weights, f, g);
    RivalFields(weights, f, g);
  }

  /** A proper stretch of one of several plain fields turns some ranking round. */
  lemma StretchTurnsRivals(weights: seq<nat>, f: nat, g: nat, scale: int, shift: int) returns (a: Artifact)
    requires Sum(weights) == WEIGHT_SCALE && f < |weights| && g < |weights| && f != g
    requires 0 < weights[f] && 0 < weights[g] && 1 < scale
    ensures Accepted(a) && a.mode == Plain && a.weights == weights && !KeepsRanking(a, f, scale, shift)
  {
    a := RivalFacts(weights, f, g);
    MapFieldAccepted(a, f, scale, shift);
    StretchTurns(a, MapField(a, f, scale, shift), f, scale, shift, weights[f], weights[g]);
  }

  ghost predicate AlwaysKeepsRanking(mode: Mode, weights: seq<nat>, f: nat, scale: int, shift: int)
    requires f < |weights|
  {
    forall a: Artifact :: Accepted(a) && a.mode == mode && a.weights == weights ==> KeepsRanking(a, f, scale, shift)
  }

  /** When rankings survive a positive affine map of one field for everyone: with normalisation
      always; without it exactly when the map only shifts or the field is the only one. */
  lemma AffineInvarianceExactly(mode: Mode, weights: seq<nat>, f: nat, scale: int, shift: int)
    requires f < |weights| && 0 < scale
    requires Sum(weights) == WEIGHT_SCALE && forall i :: 0 <= i < |weights| ==> 0 < weights[i]
    ensures AlwaysKeepsRanking(mode, weights, f, scale, shift) <==> mode == MinMax || scale == 1 || |weights| == 1
  {
    if mode == MinMax || scale == 1 || |weights| == 1 {
      forall a: Artifact | Accepted(a) && a.mode == mode && a.weights == weights
        ensures KeepsRanking(a, f, scale, shift)
      {
        if mode == MinMax {
          AffineInvariance(a, f, scale, shift);
        } else if scale == 1 {
          ShiftKeepsRanking(a, f, shift);
        } else {
          OneFieldKeepsRanking(a, scale, shift);
        }
      }
    } else {
      var g := if f == 0 then 1 else 0;
      var a := StretchTurnsRivals(weights, f, g, scale, shift);
      assert !KeepsRanking(a, f, scale, shift);
    }
  }
}
