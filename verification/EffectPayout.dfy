/** What a draw pays (sdk/verify.ts, selectOutcomes): totals, digested bytes and conservation. */
module EffectPayout {
  import opened Bytes
  import opened EntryTable
  import opened OutcomeFormat

  function Sum(es: seq<nat>): nat {
    if es == [] then 0 else Sum(es[..|es| - 1]) + es[|es| - 1]
  }

  lemma {:induction false} SumConcat(a: seq<nat>, b: seq<nat>)
    ensures Sum(a + b) == Sum(a) + Sum(b)
  {
    if b == [] {
      assert a + b == a;
    } else {
      SumConcat(a, b[..|b| - 1]);
      assert (a + b)[..|a + b| - 1] == a + b[..|b| - 1];
    }
  }

  /** The amounts an outcome transfers. */
  function SliceOf(a: Artifact, i: nat): seq<nat>
    requires i < |a.outcomes| && a.outcomes[i].first + a.outcomes[i].count <= |a.effects|
  {
    a.effects[a.outcomes[i].first..a.outcomes[i].first + a.outcomes[i].count]
  }

  /** Indices of outcomes whose effect slices lie in the effect table. */
  ghost predicate InTable(a: Artifact, selected: seq<nat>) {
    forall k :: 0 <= k < |selected| ==> SliceInTable(a, selected[k])
  }

  predicate SliceInTable(a: Artifact, i: nat) {
    i < |a.outcomes| && a.outcomes[i].first + a.outcomes[i].count <= |a.effects|
  }

  /** All transfers of the selected outcomes, in selection order. */
  function PaidAmounts(a: Artifact, selected: seq<nat>): seq<nat>
    requires InTable(a, selected)
  {
    if selected == [] then [] else
      PaidAmounts(a, selected[..|selected| - 1]) + SliceOf(a, selected[|selected| - 1])
  }

  function Paid(a: Artifact, selected: seq<nat>): nat
    requires InTable(a, selected)
  {
    Sum(PaidAmounts(a, selected))
  }

  // ---------------------------------------------------------------- the code

  lemma WellFormedSlices(a: Artifact, selected: seq<nat>)
    requires WellFormed(a) && forall k :: 0 <= k < |selected| ==> selected[k] < |a.outcomes|
    ensures InTable(a, selected)
  {
    forall k | 0 <= k < |selected|
      ensures SliceInTable(a, selected[k])
    {
      assert EntryAt(SizesOf(a.h), a.outcomes, selected[k]);
    }
  }

  lemma PaidStep(a: Artifact, selected: seq<nat>, k: nat)
    requires InTable(a, selected) && k < |selected|
    ensures PaidAmounts(a, selected[..k + 1]) == PaidAmounts(a, selected[..k]) + SliceOf(a, selected[k])
  {
    assert selected[..k + 1][..k] == selected[..k];
  }

  lemma {:induction false} ConcatConcat(a: seq<bytes>, b: seq<bytes>)
    ensures Concat(a + b) == Concat(a) + Concat(b)
  {
    if b == [] {
      assert a + b == a;
    } else {
      ConcatConcat(a, b[..|b| - 1]);
      assert (a + b)[..|a + b| - 1] == a + b[..|b| - 1];
    }
  }

  lemma ConcatRange(chunks: seq<bytes>, i: nat, j: nat)
    requires i <= j <= |chunks|
    ensures |Concat(chunks[..i])| <= |Concat(chunks[..j])| <= |Concat(chunks)|
    ensures Concat(chunks)[|Concat(chunks[..i])|..|Concat(chunks[..j])|] == Concat(chunks[i..j])
  {
    assert chunks[..j] == chunks[..i] + chunks[i..j];
    assert chunks == chunks[..j] + chunks[j..];
    ConcatConcat(chunks[..i], chunks[i..j]);
    ConcatConcat(chunks[..j], chunks[j..]);
    Middle(Concat(chunks[..i]), Concat(chunks[i..j]), Concat(chunks[j..]));
  }

  lemma Middle(a: bytes, b: bytes, c: bytes)
    ensures (a + b + c)[|a|..|a| + |b|] == b
  {}

  /** The effect table lies at the end of the blob. */
  ghost predicate Backed(blob: bytes, off: nat, es: seq<nat>) {
    off <= |blob| && blob[off..] == EffectsBytes(es)
  }

  /** The bytes of a stretch of the effect table, cut straight out of the blob. */
  lemma SliceBytes(blob: bytes, off: nat, es: seq<nat>, p: nat, q: nat)
    requires Backed(blob, off, es) && p <= q <= |es|
    ensures off + q * 16 <= |blob| && blob[off + p * 16..off + q * 16] == EffectsBytes(es[p..q])
  {
    var cs := EffectChunks(es);
    ConcatRange(cs, p, q);
    FixedWidth(cs[..p], 16);
    FixedWidth(cs[..q], 16);
    FixedWidth(cs, 16);
    assert cs[p..q] == EffectChunks(es[p..q]);
    SubSlice(blob, off, |blob|, p * 16, q * 16);
  }

  method SumSlice(a: Artifact, i: nat) returns (total: nat)
    requires SliceInTable(a, i)
    ensures total == Sum(SliceOf(a, i))
  {
    total := 0;
    ghost var slice := SliceOf(a, i);
    var from := a.outcomes[i].first;
    for index := from to from + a.outcomes[i].count
      invariant total == Sum(slice[..index - from])
    {
      assert slice[..index + 1 - from][..index - from] == slice[..index - from];
      total := total + a.effects[index];
    }
    assert slice[..|slice|] == slice;
  }

  lemma {:induction false} EffectsConcat(a: seq<nat>, b: seq<nat>)
    ensures EffectsBytes(a + b) == EffectsBytes(a) + EffectsBytes(b)
  {
    assert EffectChunks(a + b) == EffectChunks(a) + EffectChunks(b);
    ConcatConcat(EffectChunks(a), EffectChunks(b));
  }

  /** One selected outcome: its total and its effect bytes. */
  method PayOne(blob: bytes, off: nat, a: Artifact, i: nat) returns (sum: nat, part: bytes)
    requires Backed(blob, off, a.effects) && SliceInTable(a, i)
    ensures sum == Sum(SliceOf(a, i)) && part == EffectsBytes(SliceOf(a, i))
  {
    var first, count := a.outcomes[i].first, a.outcomes[i].count;
    SliceBytes(blob, off, a.effects, first, first + count);
    var effectStart := off + first * 16;
    var effectEnd := effectStart + count * 16;
    part := blob[effectStart..effectEnd];
    sum := SumSlice(a, i);
  }

  method PayLoop(blob: bytes, off: nat, a: Artifact, selected: seq<nat>) returns (total: nat, effectCount: nat, digested: bytes)
    requires Backed(blob, off, a.effects) && InTable(a, selected)
    ensures total == Paid(a, selected) && effectCount == |PaidAmounts(a, selected)|
    ensures digested == EffectsBytes(PaidAmounts(a, selected))
  {
    total, effectCount, digested := 0, 0, [];
    for k := 0 to |selected|
      invariant total == Paid(a, selected[..k]) && effectCount == |PaidAmounts(a, selected[..k])|
      invariant digested == EffectsBytes(PaidAmounts(a, selected[..k]))
    {
      var i := selected[k];
      assert SliceInTable(a, i);
      PaidStep(a, selected, k);
      SumConcat(PaidAmounts(a, selected[..k]), SliceOf(a, i));
      EffectsConcat(PaidAmounts(a, selected[..k]), SliceOf(a, i));
      var sum, part := PayOne(blob, off, a, i);
      total, effectCount, digested := total + sum, effectCount + a.outcomes[i].count, digested + part;
    }
    assert selected[..|selected|] == selected;
  }

  /** The payout loop of selectOutcomes: the total, the number of effects and the digested bytes all
      describe the same list of transfers. */
  method PaySelected(blob: bytes, a: Artifact, selected: seq<nat>) returns (total: nat, effectCount: nat, digested: bytes)
    requires Accepts(blob) && a == ArtifactOf(blob)
    requires forall k :: 0 <= k < |selected| ==> selected[k] < |a.outcomes|
    ensures InTable(a, selected)
    ensures total == Paid(a, selected) && effectCount == |PaidAmounts(a, selected)|
    ensures digested == EffectsBytes(PaidAmounts(a, selected))
  {
    AcceptedIsLayout(blob);
    WellFormedSlices(a, selected);
    BodyRebuilt(blob, a.h);
    total, effectCount, digested := PayLoop(blob, EffectsOffset(a.h), a, selected);
  }

  function Repeated(payout: nat, n: nat): (es: seq<nat>)
    ensures |es| == n && forall k :: 0 <= k < n ==> es[k] == payout
  {
    seq(n, _ => payout)
  }

  /** The same loop for the compact formats, which synthesise one effect per winner unless the
      payout is zero. */
  method PayFlat(payout: nat, winners: nat) returns (total: nat, effectCount: nat, digested: bytes)
    ensures effectCount == (if payout == 0 then 0 else winners) && total == winners * payout
    ensures digested == EffectsBytes(Repeated(payout, effectCount))
  {
    total, effectCount, digested := 0, 0, [];
    for k := 0 to winners
      invariant effectCount == (if payout == 0 then 0 else k) && total == k * payout
      invariant digested == EffectsBytes(Repeated(payout, effectCount))
    {
      assert (k + 1) * payout == k * payout + payout;
      if payout > 0 {
        assert Repeated(payout, k + 1) == Repeated(payout, k) + [payout];
        EffectsConcat(Repeated(payout, k), [payout]);
        OneEffect(payout);
        digested := digested + EffectBytes(payout);
        effectCount := effectCount + 1;
        total := total + payout;
      }
    }
  }

  lemma OneEffect(amount: nat)
    ensures EffectsBytes([amount]) == EffectBytes(amount)
  {
    var cs := EffectChunks([amount]);
    assert cs[..0] == [];
    assert Concat(cs) == Concat(cs[..0]) + cs[0];
  }

  /** The digested bytes decode to precisely the transfers that were summed. */
  lemma DigestDecodes(a: Artifact, selected: seq<nat>)
    requires WellFormed(a) && InTable(a, selected)
    ensures var bytes, n := EffectsBytes(PaidAmounts(a, selected)), |PaidAmounts(a, selected)|;
            EffectsAt(bytes, 0, n) && Amounts(bytes, 0, n) == PaidAmounts(a, selected) && Sum(Amounts(bytes, 0, n)) == Paid(a, selected)
  {
    var es := PaidAmounts(a, selected);
    PaidInRange(a, selected);
    FixedWidth(EffectChunks(es), 16);
    assert EffectsBytes(es)[0..16 * |es|] == EffectsBytes(es);
    EffectsRead(EffectsBytes(es), 0, es);
  }

  lemma {:induction false} PaidInRange(a: Artifact, selected: seq<nat>)
    requires AmountsInRange(a.effects) && InTable(a, selected)
    ensures AmountsInRange(PaidAmounts(a, selected))
  {
    if selected != [] {
      PaidInRange(a, selected[..|selected| - 1]);
    }
  }

  // ---------------------------------------------------------------- conservation

  /** The amounts at the positions in S. */
  ghost function SumIn(es: seq<nat>, S: set<int>): nat {
    if es == [] then 0 else SumIn(es[..|es| - 1], S) + (if |es| - 1 in S then es[|es| - 1] else 0)
  }

  lemma {:induction false} SumInUnion(es: seq<nat>, S: set<int>, T: set<int>)
    requires S !! T
    ensures SumIn(es, S + T) == SumIn(es, S) + SumIn(es, T)
  {
    if es != [] {
      SumInUnion(es[..|es| - 1], S, T);
    }
  }

  lemma {:induction false} SumInAll(es: seq<nat>, S: set<int>)
    ensures SumIn(es, S) <= Sum(es)
    ensures (forall e :: 0 <= e < |es| ==> e in S) ==> SumIn(es, S) == Sum(es)
  {
    if es != [] {
      SumInAll(es[..|es| - 1], S);
    }
  }

  predicate Within(e: int, from: int, to: int) {
    from <= e < to
  }

  ghost function Positions(from: int, to: int): set<int> {
    set e | from <= e < to && Within(e, from, to)
  }

  lemma PrefixSlice(s: seq<nat>, n: nat, i: nat, j: nat)
    requires i <= j <= n <= |s|
    ensures s[..n][i..j] == s[i..j]
  {
    assert forall k :: 0 <= k < j - i ==> s[..n][i..j][k] == s[i..j][k];
  }

  lemma {:induction false} SumInRange(es: seq<nat>, from: nat, to: nat)
    requires from <= to <= |es|
    ensures SumIn(es, Positions(from, to)) == Sum(es[from..to])
    decreases |es|
  {
    if es != [] {
      var n := |es| - 1;
      if to <= n {
        SumInRange(es[..n], from, to);
        PrefixSlice(es, n, from, to);
      } else if from <= n {
        SumInRange(es[..n], from, n);
        SumInSame(es[..n], Positions(from, to), Positions(from, n));
        PrefixSlice(es, n, from, n);
        assert es[from..to][..n - from] == es[from..n];
      } else {
        SumInRange(es[..n], n, n);
        SumInSame(es[..n], Positions(from, to), Positions(n, n));
      }
    }
  }

  lemma {:induction false} SumInSame(es: seq<nat>, S: set<int>, T: set<int>)
    requires forall e :: 0 <= e < |es| ==> (e in S <==> e in T)
    ensures SumIn(es, S) == SumIn(es, T)
  {
    if es != [] {
      SumInSame(es[..|es| - 1], S, T);
    }
  }

  ghost function SliceSet(a: Artifact, i: nat): set<int>
    requires i < |a.outcomes|
  {
    Positions(a.outcomes[i].first, a.outcomes[i].first + a.outcomes[i].count)
  }

  ghost predicate SlicesApart(a: Artifact, i: int, j: int) {
    0 <= i < |a.outcomes| && 0 <= j < |a.outcomes| && i != j ==> SliceSet(a, i) !! SliceSet(a, j)
  }

  ghost predicate Exclusive(a: Artifact) {
    forall i, j :: SlicesApart(a, i, j)
  }

  /** In formats 2 and 3 distinct outcomes have disjoint slices. */
  lemma SlicesDisjoint(a: Artifact)
    requires WellFormed(a) && a.h.version != FORMAT_VERSION_V1
    ensures Exclusive(a)
  {
    forall i, j
      ensures SlicesApart(a, i, j)
    {
      if 0 <= i < j < |a.outcomes| { LaterDisjoint(a.h, a.outcomes, i, j); }
      if 0 <= j < i < |a.outcomes| { LaterDisjoint(a.h, a.outcomes, j, i); }
    }
  }

  lemma LaterDisjoint(h: Head, rs: seq<Record>, i: nat, j: nat)
    requires EntriesOk(SizesOf(h), rs) && h.version != FORMAT_VERSION_V1 && i < j < |rs|
    ensures Positions(rs[i].first, rs[i].first + rs[i].count) !! Positions(rs[j].first, rs[j].first + rs[j].count)
  {
    assert EntryAt(SizesOf(h), rs, j);
    var A, B := Positions(rs[i].first, rs[i].first + rs[i].count), Positions(rs[j].first, rs[j].first + rs[j].count);
    forall e | e in A
      ensures e !in B
    {
      assert rs[..j][i] == rs[i] && Covers(rs[i], e);
      assert Referenced(rs[..j], e);
      assert !Covers(rs[j], e);
    }
  }

  ghost function CoveredSet(a: Artifact, selected: seq<nat>): set<int>
    requires InTable(a, selected)
  {
    if selected == [] then {} else
      assert SliceInTable(a, selected[|selected| - 1]);
      CoveredSet(a, selected[..|selected| - 1]) + SliceSet(a, selected[|selected| - 1])
  }

  ghost predicate Distinct(s: seq<nat>) {
    forall i, j :: 0 <= i < j < |s| ==> s[i] != s[j]
  }

  lemma {:induction false} CoveredDisjoint(a: Artifact, selected: seq<nat>, i: nat)
    requires Exclusive(a) && InTable(a, selected) && i < |a.outcomes| && i !in selected
    ensures CoveredSet(a, selected) !! SliceSet(a, i)
  {
    if selected != [] {
      var last := selected[|selected| - 1];
      assert SliceInTable(a, last);
      CoveredDisjoint(a, selected[..|selected| - 1], i);
      assert SlicesApart(a, last, i);
    }
  }

  lemma {:induction false} PaidIsCovered(a: Artifact, selected: seq<nat>)
    requires Exclusive(a) && InTable(a, selected) && Distinct(selected)
    ensures Paid(a, selected) == SumIn(a.effects, CoveredSet(a, selected))
  {
    if selected == [] {
      SumInNone(a.effects);
    } else {
      PaidIsCovered(a, selected[..|selected| - 1]);
      LastCovered(a, selected);
    }
  }

  lemma LastIsNew(s: seq<nat>)
    requires Distinct(s) && s != []
    ensures s[|s| - 1] !in s[..|s| - 1]
  {}

  lemma LastInTable(a: Artifact, s: seq<nat>)
    requires InTable(a, s) && s != []
    ensures SliceInTable(a, s[|s| - 1]) && InTable(a, s[..|s| - 1])
  {}

  lemma LastPaid(a: Artifact, init: seq<nat>, last: nat, selected: seq<nat>)
    requires InTable(a, selected) && InTable(a, init) && SliceInTable(a, last) && selected == init + [last]
    ensures Paid(a, selected) == Paid(a, init) + Sum(SliceOf(a, last))
  {
    assert selected[..|selected| - 1] == init;
    SumConcat(PaidAmounts(a, init), SliceOf(a, last));
  }

  lemma LastSliced(a: Artifact, init: seq<nat>, last: nat, selected: seq<nat>)
    requires InTable(a, selected) && InTable(a, init) && SliceInTable(a, last) && selected == init + [last]
    requires CoveredSet(a, init) !! SliceSet(a, last)
    ensures SumIn(a.effects, CoveredSet(a, selected)) == SumIn(a.effects, CoveredSet(a, init)) + Sum(SliceOf(a, last))
  {
    CoveredNext(a, init, last, selected);
    CoverOne(a.effects, CoveredSet(a, init), a.outcomes[last].first, a.outcomes[last].first + a.outcomes[last].count);
  }

  lemma CoveredNext(a: Artifact, init: seq<nat>, last: nat, selected: seq<nat>)
    requires InTable(a, selected) && InTable(a, init) && SliceInTable(a, last) && selected == init + [last]
    ensures CoveredSet(a, selected) == CoveredSet(a, init) + SliceSet(a, last)
  {
    assert selected[..|selected| - 1] == init;
  }

  /** The last selected outcome adds its own slice to both sides. */
  lemma LastCovered(a: Artifact, selected: seq<nat>)
    requires Exclusive(a) && InTable(a, selected) && Distinct(selected) && selected != []
    ensures var init, last := selected[..|selected| - 1], selected[|selected| - 1];
            && SliceInTable(a, last) && InTable(a, init)
            && Paid(a, selected) == Paid(a, init) + Sum(SliceOf(a, last))
            && SumIn(a.effects, CoveredSet(a, selected)) == SumIn(a.effects, CoveredSet(a, init)) + Sum(SliceOf(a, last))
  {
    var init, last := selected[..|selected| - 1], selected[|selected| - 1];
    LastIsNew(selected);
    LastInTable(a, selected);
    CoveredDisjoint(a, init, last);
    LastPaid(a, init, last, selected);
    LastSliced(a, init, last, selected);
  }

  lemma CoverOne(es: seq<nat>, S: set<int>, from: nat, to: nat)
    requires from <= to <= |es| && S !! Positions(from, to)
    ensures SumIn(es, S + Positions(from, to)) == SumIn(es, S) + Sum(es[from..to])
  {
    SumInUnion(es, S, Positions(from, to));
    SumInRange(es, from, to);
  }

  lemma {:induction false} SumInNone(es: seq<nat>)
    ensures SumIn(es, {}) == 0
  {
    if es != [] {
      SumInNone(es[..|es| - 1]);
    }
  }

  lemma {:induction false} CoveredBySelected(a: Artifact, selected: seq<nat>, i: nat)
    requires InTable(a, selected) && i in selected
    ensures SliceInTable(a, i) && SliceSet(a, i) <= CoveredSet(a, selected)
  {
    assert SliceInTable(a, selected[|selected| - 1]);
    if i != selected[|selected| - 1] {
      CoveredBySelected(a, selected[..|selected| - 1], i);
    }
  }

  /** Every effect belongs to some outcome, so selecting all outcomes covers the whole table. */
  lemma AllCovered(a: Artifact, selected: seq<nat>, e: int)
    requires WellFormed(a) && InTable(a, selected) && (forall i: nat :: i < |a.outcomes| ==> i in selected)
    requires 0 <= e < |a.effects|
    ensures e in CoveredSet(a, selected)
  {
    assert Referenced(a.outcomes, e);
    var i: nat :| i < |a.outcomes| && Covers(a.outcomes[i], e);
    CoveredBySelected(a, selected, i);
    assert e in SliceSet(a, i);
  }

  /** A draw never pays more than the artifact holds, and pays exactly that when everyone wins.
      Format 1 has a single winner and may share effects between outcomes. */
  lemma Conservation(a: Artifact, selected: seq<nat>)
    requires WellFormed(a) && InTable(a, selected) && Distinct(selected)
    requires a.h.version != FORMAT_VERSION_V1 || |selected| <= 1
    ensures Paid(a, selected) <= Sum(a.effects)
    ensures a.h.version != FORMAT_VERSION_V1 && (forall i: nat :: i < |a.outcomes| ==> i in selected) ==> Paid(a, selected) == Sum(a.effects)
  {
    if a.h.version != FORMAT_VERSION_V1 {
      SlicesDisjoint(a);
      PaidIsCovered(a, selected);
      SumInAll(a.effects, CoveredSet(a, selected));
      if forall i: nat :: i < |a.outcomes| ==> i in selected {
        forall e | 0 <= e < |a.effects|
          ensures e in CoveredSet(a, selected)
        {
          AllCovered(a, selected, e);
        }
      }
    } else if |selected| == 1 {
      SinglePays(a, selected);
    }
  }

  lemma SinglePays(a: Artifact, selected: seq<nat>)
    requires InTable(a, selected) && |selected| == 1
    ensures Paid(a, selected) <= Sum(a.effects)
  {
    var i := selected[0];
    assert SliceInTable(a, i);
    assert PaidAmounts(a, selected) == SliceOf(a, i);
    SumInRange(a.effects, a.outcomes[i].first, a.outcomes[i].first + a.outcomes[i].count);
    SumInAll(a.effects, SliceSet(a, i));
  }

  lemma {:induction false} PaidAppend(a: Artifact, s: seq<nat>, t: seq<nat>)
    requires InTable(a, s) && InTable(a, t)
    ensures InTable(a, s + t) && Paid(a, s + t) == Paid(a, s) + Paid(a, t)
  {
    if t == [] {
      assert s + t == s;
    } else {
      var n := |t| - 1;
      PaidAppend(a, s, t[..n]);
      assert (s + t)[..|s + t| - 1] == s + t[..n];
      assert SliceInTable(a, t[n]);
      SumConcat(PaidAmounts(a, t[..n]), SliceOf(a, t[n]));
      SumConcat(PaidAmounts(a, s + t[..n]), SliceOf(a, t[n]));
    }
  }

  /** What the winners are paid and what the losers would have been paid add up to the whole table. */
  lemma WinnersAndLosers(a: Artifact, winners: seq<nat>, losers: seq<nat>)
    requires WellFormed(a) && a.h.version != FORMAT_VERSION_V1
    requires InTable(a, winners) && InTable(a, losers) && Distinct(winners + losers)
    requires forall i: nat :: i < |a.outcomes| ==> i in winners + losers
    ensures Paid(a, winners) + Paid(a, losers) == Sum(a.effects)
  {
    PaidAppend(a, winners, losers);
    Conservation(a, winners + losers);
  }

  /** Format 1 shares effects: if everyone won, the same effect could be paid twice. */
  lemma SharedEffectsPayTwice()
    ensures exists a, selected ::
              WellFormed(a) && a.h.version == FORMAT_VERSION_V1 && InTable(a, selected) && Distinct(selected) && Paid(a, selected) > Sum(a.effects)
  {
    var a := Artifact(Head(1, 1, 1, 2, 1, 1, 1, 0), [Letter(65, 0), Letter(66, 1)], [5]);
    SharedWellFormed(a);
    PaysTwice(a);
  }

  lemma PaysTwice(a: Artifact)
    requires a.effects == [5] && a.outcomes == [Letter(65, 0), Letter(66, 1)]
    ensures InTable(a, [0, 1]) && Distinct([0, 1]) && Paid(a, [0, 1]) > Sum(a.effects)
  {
    assert SliceInTable(a, 0) && SliceInTable(a, 1);
    PaidAppend(a, [0], [1]);
    assert [0] + [1] == [0, 1];
    Alone(a, 0);
    Alone(a, 1);
  }

  function Letter(c: byte, index: nat): Record {
    Record(1, [c] + Zeros(63), 1, 0, index, 0, 1)
  }

  lemma Alone(a: Artifact, i: nat)
    requires SliceInTable(a, i)
    ensures Paid(a, [i]) == Sum(SliceOf(a, i))
  {
    assert PaidAmounts(a, [i]) == SliceOf(a, i);
  }

  lemma SharedWellFormed(a: Artifact)
    requires a == Artifact(Head(1, 1, 1, 2, 1, 1, 1, 0), [Letter(65, 0), Letter(66, 1)], [5])
    ensures WellFormed(a)
  {
    var rs, z := a.outcomes, SizesOf(a.h);
    assert IdOk(rs[0]) && IdOk(rs[1]);
    assert Name(rs[0]) == [65] && Name(rs[1]) == [66];
    forall i
      ensures EntryAt(z, rs, i)
    {
    }
    assert Covers(rs[0], 0);
  }
}
