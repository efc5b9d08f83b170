/** A whole draw on an accepted artifact of formats 1 to 3 (sdk/verify.ts, selectOutcomes): selection by
    either formula, then payout. */
module OutcomeDraw {
  import opened Wrappers
  import opened Bytes
  import opened EntryTable
  import opened OutcomeFormat
  import opened EffectPayout
  import Entries
  import WeightedDraw
  import RankedDraw
  import SnapshotV5
  import NumberTheory

  function EntryOf(r: Record): Entries.Entry {
    Entries.Entry(Text(Name(r)), r.order, r.weight, r.score)
  }

  function EntriesOf(a: Artifact): (es: seq<Entries.Entry>)
    ensures |es| == |a.outcomes| && forall i :: 0 <= i < |es| ==> es[i] == EntryOf(a.outcomes[i])
  {
    seq(|a.outcomes|, i requires 0 <= i < |a.outcomes| => EntryOf(a.outcomes[i]))
  }

  function FormulaOf(code: nat): RankedDraw.Formula {
    match code
    case 2 => RankedDraw.RankDesc
    case 3 => RankedDraw.RankAsc
    case 4 => RankedDraw.FirstN
    case 5 => RankedDraw.ClosestTo
    case _ => RankedDraw.WeightedRandom
  }

  /** x may win before y under a formula code of the header: scores falling (2), rising (3), orders (4),
      or scores near the target (5), orders deciding at equal scores or distances. */
  ghost predicate Leads(code: nat, target: int, x: Record, y: Record) {
    && (code == 2 ==> x.score > y.score || (x.score == y.score && x.order <= y.order))
    && (code == 3 ==> x.score < y.score || (x.score == y.score && x.order <= y.order))
    && (code == 4 ==> x.order <= y.order)
    && (code == 5 ==>
          var dx, dy := x.score - target, y.score - target;
          dx * dx < dy * dy || (dx * dx == dy * dy && x.order <= y.order))
  }

  lemma Squares(x: int, y: int)
    ensures RankedDraw.Nearer(x, y) <==> x * x <= y * y
    ensures RankedDraw.Nearer(x, y) && RankedDraw.Nearer(y, x) ==> x * x == y * y
  {
    var a, b := if x < 0 then -x else x, if y < 0 then -y else y;
    assert a * a == x * x && b * b == y * y;
    if a <= b { NumberTheory.MulMono(a, a, b); NumberTheory.MulMono(b, a, b); }
    if b < a { NumberTheory.MulMono(b, b, a); NumberTheory.MulMono(a, b + 1, a); }
  }

  lemma LeadsAsEntry(code: nat, target: int, x: Record, y: Record)
    requires 1 <= code <= 5 && RankedDraw.Leads(FormulaOf(code), target, EntryOf(x), EntryOf(y))
    ensures Leads(code, target, x, y)
  {
    if code == 5 {
      Squares(x.score - target, y.score - target);
      Squares(y.score - target, x.score - target);
    }
  }

  /** The winners are those of the formula, in its order. */
  ghost predicate Chosen(a: Artifact, roll: nat -> nat, selected: seq<nat>) {
    && InTable(a, selected) && Distinct(selected) && |selected| == a.h.winners
    && var es := EntriesOf(a);
       if a.h.formula == 1 then
         && WeightedDraw.Positive(WeightedDraw.Weights(es)) && a.h.winners <= |es|
         && Entries.Ids(WeightedDraw.Pointed(es, selected)) == Entries.Ids(WeightedDraw.Draw(es, roll, 0, a.h.winners))
       else
         RankedDraw.Pointed(es, selected) == RankedDraw.Ranking(FormulaOf(a.h.formula), a.h.target, es, a.h.winners)
  }

  /** Everybody selected leads those selected later and those not selected. */
  ghost predicate Leading(a: Artifact, selected: seq<nat>) {
    && (forall i, j :: 0 <= i < j < |selected| ==> LeadsAt(a, selected[i], selected[j]))
    && (forall i, n: nat :: 0 <= i < |selected| && n < |a.outcomes| && n !in selected ==> LeadsAt(a, selected[i], n))
  }

  ghost predicate LeadsAt(a: Artifact, i: nat, j: nat) {
    i < |a.outcomes| && j < |a.outcomes| && Leads(a.h.formula, a.h.target, a.outcomes[i], a.outcomes[j])
  }

  lemma IndexSortLeads(a: Artifact, selected: seq<nat>)
    requires WellFormed(a) && selected == RankedDraw.IndexSort(FormulaOf(a.h.formula), a.h.target, EntriesOf(a), a.h.winners)
    ensures Leading(a, selected)
  {
    var formula, es := FormulaOf(a.h.formula), EntriesOf(a);
    RankedDraw.IndexSortMeaning(formula, a.h.target, es, a.h.winners);
    forall i, j | 0 <= i < j < |selected|
      ensures LeadsAt(a, selected[i], selected[j])
    {
      assert RankedDraw.IndexLeads(formula, a.h.target, es, selected[i], selected[j]);
      LeadsAsEntry(a.h.formula, a.h.target, a.outcomes[selected[i]], a.outcomes[selected[j]]);
    }
    forall i, n: nat | 0 <= i < |selected| && n < |a.outcomes| && n !in selected
      ensures LeadsAt(a, selected[i], n)
    {
      assert RankedDraw.IndexLeads(formula, a.h.target, es, selected[i], n);
      LeadsAsEntry(a.h.formula, a.h.target, a.outcomes[selected[i]], a.outcomes[n]);
    }
  }

  lemma OutcomesWeigh(a: Artifact)
    requires WellFormed(a)
    ensures WeightedDraw.Positive(WeightedDraw.Weights(EntriesOf(a)))
  {
    forall i | 0 <= i < |a.outcomes|
      ensures 0 < a.outcomes[i].weight
    {
      assert EntryAt(SizesOf(a.h), a.outcomes, i);
    }
  }

  method SelectIndices(a: Artifact, roll: nat -> nat) returns (selected: seq<nat>)
    requires WellFormed(a)
    ensures Chosen(a, roll, selected) && (a.h.formula != 1 ==> Leading(a, selected))
  {
    var es := EntriesOf(a);
    OutcomesWeigh(a);
    if a.h.formula == 1 {
      var r := WeightedDraw.IndexListDraw(es, roll, a.h.winners);
      if r.Err? {
        assert false;
        return [];
      }
      selected := r.value;
    } else {
      var formula := FormulaOf(a.h.formula);
      RankedDraw.IndexSortAgrees(formula, a.h.target, es, a.h.winners);
      RankedDraw.IndexSortDistinct(formula, a.h.target, es, a.h.winners);
      selected := RankedDraw.IndexSort(formula, a.h.target, es, a.h.winners);
      IndexSortLeads(a, selected);
    }
    WellFormedSlices(a, selected);
  }

  ghost function Members(s: seq<nat>): set<nat> {
    if s == [] then {} else Members(s[..|s| - 1]) + {s[|s| - 1]}
  }

  lemma {:induction false} MembersIn(s: seq<nat>, x: nat)
    ensures x in Members(s) <==> x in s
  {
    if s != [] {
      var init, last := s[..|s| - 1], s[|s| - 1];
      MembersIn(init, x);
      assert s == init + [last];
    }
  }

  lemma {:induction false} MembersCount(s: seq<nat>)
    requires Distinct(s)
    ensures |Members(s)| == |s|
  {
    if s != [] {
      var n := |s| - 1;
      MembersCount(s[..n]);
      LastIsNew(s);
      MembersIn(s[..n], s[n]);
    }
  }

  /** n distinct positions of a table of n are all of them. */
  lemma EveryoneWins(s: seq<nat>, n: nat)
    requires Distinct(s) && |s| == n && forall i :: 0 <= i < n ==> s[i] < n
    ensures forall i: nat :: i < n ==> i in s
  {
    MembersCount(s);
    forall i | i in Members(s)
      ensures i in SnapshotV5.Below(n)
    {
      MembersIn(s, i);
    }
    SnapshotV5.SameCardinality(Members(s), SnapshotV5.Below(n));
    forall i: nat | i < n
      ensures i in s
    {
      MembersIn(s, i);
      assert i in SnapshotV5.Below(n);
    }
  }

  /** Any draw conserves the effect table: it pays at most the table, and exactly the table when an
      exclusive format lets everyone win. */
  lemma DrawConserves(a: Artifact, roll: nat -> nat, selected: seq<nat>)
    requires WellFormed(a) && Chosen(a, roll, selected)
    ensures Paid(a, selected) <= Sum(a.effects)
    ensures a.h.version != FORMAT_VERSION_V1 && a.h.winners == a.h.n ==> Paid(a, selected) == Sum(a.effects)
  {
    Conservation(a, selected);
    if a.h.winners == a.h.n {
      forall i | 0 <= i < |selected|
        ensures selected[i] < |a.outcomes|
      {
        assert SliceInTable(a, selected[i]);
      }
      EveryoneWins(selected, a.h.n);
    }
  }

  datatype Draw = Draw(selected: seq<nat>, total: nat, effectCount: nat, digested: bytes)

  /** selectOutcomes on formats 1 to 3: the winners of the formula, paid at most the effect table, and
      digested bytes that decode to precisely the amounts that were summed. */
  method SelectOutcomes(blob: bytes, a: Artifact, input: nat, roll: nat -> nat) returns (r: Result<Draw>)
    requires Accepts(blob) && a == ArtifactOf(blob)
    ensures r.Ok? <==> a.h.minInput <= input <= a.h.maxInput
    ensures r.Ok? ==>
              var d := r.value;
              && Chosen(a, roll, d.selected) && (a.h.formula in {2, 3, 4, 5} ==> Leading(a, d.selected)) && d.total == Paid(a, d.selected) <= Sum(a.effects)
              && (a.h.version != FORMAT_VERSION_V1 && a.h.winners == a.h.n ==> d.total == Sum(a.effects))
              && EffectsAt(d.digested, 0, d.effectCount) && Amounts(d.digested, 0, d.effectCount) == PaidAmounts(a, d.selected)
              && d.total == Sum(Amounts(d.digested, 0, d.effectCount))
  {
    if input < a.h.minInput || input > a.h.maxInput {
      return Err;
    }
    AcceptedIsLayout(blob);
    var selected := SelectIndices(a, roll);
    forall k | 0 <= k < |selected|
      ensures selected[k] < |a.outcomes|
    {
      assert SliceInTable(a, selected[k]);
    }
    var total, effectCount, digested := PaySelected(blob, a, selected);
    DrawConserves(a, roll, selected);
    DigestDecodes(a, selected);
    r := Ok(Draw(selected, total, effectCount, digested));
  }
}
