/** The builder of format 5 from its configuration (sdk/snapshot.ts): field validation, defaults, and
    what both parsers make of the result. */
module SnapshotBuilder {
  import opened Wrappers
  import opened StableSort
  import opened Bytes
  import opened EntryTable
  import opened OutcomeBuilder
  import opened SnapshotV5
  import OutcomeFormat

  datatype EntryInput = EntryInput(id: string, order: Option<int>, weight: Option<int>, score: Option<int>)

  /** The builder's input; every number is an arbitrary integer, every string arbitrary. */
  datatype DrawConfig = DrawConfig(
    formula: string, participants: seq<EntryInput>, input: int, payout: Option<int>, winners: Option<int>, target: Option<int>)

  function CodeOf(formula: string): Option<FormulaCode> {
    if formula == "weighted_random" then Some(1)
    else if formula == "rank_desc" then Some(2)
    else if formula == "rank_asc" then Some(3)
    else if formula == "first_n" then Some(4)
    else if formula == "closest_to" then Some(5)
    else None
  }

  function Or(x: Option<int>, default: int): int {
    if x.Some? then x.value else default
  }

  function Clamp(x: int): nat {
    if x < 0 then 0 else x
  }

  /** Weights only for weighted draws, scores only for the ranked formulas that use them. */
  predicate ColumnsFit(p: EntryInput, code: FormulaCode) {
    if code == 1 then p.score.None? && 1 <= Or(p.weight, 1) <= MAX_U32
    else Or(p.weight, 1) == 1 && if code == 4 then p.score.None? else p.score.Some? && FitsSigned(p.score.value, 8)
  }

  predicate EntryFits(p: EntryInput, index: nat, code: FormulaCode) {
    IdText(p.id) && 0 <= Or(p.order, index) <= MAX_U16 && ColumnsFit(p, code)
  }

  /** The record of a participant; a missing order is its position. */
  function Compact(p: EntryInput, index: nat): Entry {
    Entry(Code(p.id), Clamp(Or(p.weight, 1)), Or(p.score, 0), Clamp(Or(p.order, index)), 0)
  }

  function CompactAll(ps: seq<EntryInput>): (es: seq<Entry>)
    ensures |es| == |ps| && forall i :: 0 <= i < |ps| ==> es[i] == Compact(ps[i], i)
  {
    seq(|ps|, i requires 0 <= i < |ps| => Compact(ps[i], i))
  }

  lemma CompactValid(p: EntryInput, index: nat, code: FormulaCode)
    requires EntryFits(p, index, code)
    ensures ValidEntry(Compact(p, index))
  {
    Limits();
  }

  predicate TargetFits(c: DrawConfig, code: FormulaCode) {
    (code == 5 ==> c.target.Some?) && FitsSigned(Or(c.target, 0), 8)
  }

  /** What the builder demands of its configuration. */
  ghost predicate Buildable(c: DrawConfig) {
    var code, n := CodeOf(c.formula), |c.participants|;
    && code.Some? && 0 < n <= MAX_U16
    && (forall i :: 0 <= i < n ==> EntryFits(c.participants[i], i, code.value))
    && OrdersOk(CompactAll(c.participants)) && DistinctIds(CompactAll(c.participants))
    && 0 < c.input <= MAX_U64 && 0 <= Or(c.payout, 3) <= MAX_U64
    && 1 <= Or(c.winners, 1) <= n && Or(c.winners, 1) <= OutcomeFormat.MAX_WINNERS
    && TargetFits(c, code.value)
    && HEADER_BYTES + 79 * n <= OutcomeFormat.MAX_ARTIFACT_BYTES
  }

  /** The records sorted by id under the configured head. */
  function ArtifactOfConfig(c: DrawConfig): Artifact {
    var code := if CodeOf(c.formula).Some? then CodeOf(c.formula).value else 1;
    SnapshotV5.ArtifactFor(CompactAll(c.participants), Clamp(c.input), Clamp(Or(c.payout, 3)), Clamp(Or(c.winners, 1)), code, Or(c.target, 0))
  }

  method CheckEntries(ps: seq<EntryInput>, code: FormulaCode) returns (ok: bool)
    ensures ok <==> forall i :: 0 <= i < |ps| ==> EntryFits(ps[i], i, code)
    ensures ok ==> AllValid(CompactAll(ps))
  {
    for i := 0 to |ps|
      invariant forall k :: 0 <= k < i ==> EntryFits(ps[k], k, code) && ValidEntry(CompactAll(ps)[k])
    {
      if !EntryFits(ps[i], i, code) {
        return false;
      }
      CompactValid(ps[i], i, code);
    }
    ok := true;
  }

  /** buildArtifactV5: succeeds exactly on the configurations it checks. */
  method BuildArtifactV5(c: DrawConfig) returns (r: Result<bytes>)
    ensures r.Ok? <==> Buildable(c)
    ensures r.Ok? ==> r.value == Layout(ArtifactOfConfig(c))
  {
    var code := CodeOf(c.formula);
    if code.None? || |c.participants| == 0 || |c.participants| > MAX_U16 {
      return Err;
    }
    var ok := CheckEntries(c.participants, code.value);
    if !ok || c.input <= 0 || c.input > MAX_U64 || Or(c.payout, 3) < 0 || Or(c.payout, 3) > MAX_U64 {
      return Err;
    }
    if Or(c.winners, 1) <= 0 || !TargetFits(c, code.value) {
      return Err;
    }
    r := Build(CompactAll(c.participants), c.input, Or(c.payout, 3), Or(c.winners, 1), code.value, Or(c.target, 0));
  }

  /** Parse after build, from any configuration the builder accepts: both parsers return its records,
      sorted by id, with every default filled in. */
  lemma ParseAfterBuildV5(c: DrawConfig)
    requires Buildable(c)
    ensures Accepts(Layout(ArtifactOfConfig(c))) && ArtifactOf(Layout(ArtifactOfConfig(c))) == ArtifactOfConfig(c)
  {
    var code := CodeOf(c.formula).value;
    forall i | 0 <= i < |c.participants|
      ensures ValidEntry(CompactAll(c.participants)[i])
    {
      CompactValid(c.participants[i], i, code);
    }
    SnapshotV5.ParseAfterBuild(CompactAll(c.participants), c.input, Or(c.payout, 3), Or(c.winners, 1), code, Or(c.target, 0));
  }

  // ---------------------------------------------------------------- the demands and the result, by the configuration

  /** The order of participant i: its own, or its position. */
  function PlaceOf(c: DrawConfig, i: nat): int
    requires i < |c.participants|
  {
    var o := c.participants[i].order;
    if o.Some? then o.value else i
  }

  /** A score is demanded by the formulas that rank by it and refused by the others. */
  ghost predicate ColumnRules(p: EntryInput, formula: string) {
    match formula
    case "weighted_random" => p.score.None? && (p.weight.Some? ==> 1 <= p.weight.value <= 0xffff_ffff)
    case "first_n" => p.score.None? && (p.weight.Some? ==> p.weight.value == 1)
    case _ =>
      && p.score.Some? && -0x8000_0000_0000_0000 <= p.score.value < 0x8000_0000_0000_0000
      && (p.weight.Some? ==> p.weight.value == 1)
  }

  ghost predicate EntryRules(c: DrawConfig, i: int) {
    0 <= i < |c.participants| ==>
      var p := c.participants[i];
      && 1 <= |p.id| <= 64 && (forall k :: 0 <= k < |p.id| ==> 32 <= p.id[k] as int <= 126)
      && 0 <= PlaceOf(c, i) < |c.participants| && ColumnRules(p, c.formula)
      && forall j :: 0 <= j < i ==> c.participants[j].id != p.id && PlaceOf(c, j) != PlaceOf(c, i)
  }

  ghost predicate HeadRules(c: DrawConfig) {
    && c.formula in {"weighted_random", "rank_desc", "rank_asc", "first_n", "closest_to"}
    && 1 <= c.input <= 0xffff_ffff_ffff_ffff && (c.payout.Some? ==> 0 <= c.payout.value <= 0xffff_ffff_ffff_ffff)
    && (c.winners.Some? ==> 1 <= c.winners.value <= |c.participants| && c.winners.value <= 32)
    && (c.formula == "closest_to" ==> c.target.Some?)
    && (c.target.Some? ==> -0x8000_0000_0000_0000 <= c.target.value < 0x8000_0000_0000_0000)
  }

  /** The builder's demands on the configuration's own terms. */
  lemma BuildableByRules(c: DrawConfig)
    ensures Buildable(c) <==>
              && 1 <= |c.participants| && 48 + 79 * |c.participants| <= 8192
              && HeadRules(c) && forall i :: EntryRules(c, i)
  {
    Limits();
    if Buildable(c) {
      forall i
        ensures EntryRules(c, i)
      {
        if 0 <= i < |c.participants| { FitsMeansRules(c, i); }
      }
    }
    if 1 <= |c.participants| && 48 + 79 * |c.participants| <= 8192 && HeadRules(c) && forall i :: EntryRules(c, i) {
      RulesMeanFits(c);
    }
  }

  lemma RulesMeanFits(c: DrawConfig)
    requires 1 <= |c.participants| && 48 + 79 * |c.participants| <= 8192 && HeadRules(c) && forall i :: EntryRules(c, i)
    ensures Buildable(c)
  {
    Limits();
    var es := CompactAll(c.participants);
    forall i | 0 <= i < |es|
      ensures EntryFits(c.participants[i], i, CodeOf(c.formula).value) && es[i].order == PlaceOf(c, i) < |es|
    {
      assert EntryRules(c, i);
    }
    forall i, j | 0 <= j < i < |es|
      ensures es[j].order != es[i].order && es[j].id != es[i].id
    {
      assert EntryRules(c, i);
      assert EntryFits(c.participants[i], i, CodeOf(c.formula).value) && EntryFits(c.participants[j], j, CodeOf(c.formula).value);
      if Code(c.participants[j].id) == Code(c.participants[i].id) { CodeInjective(c.participants[j].id, c.participants[i].id); }
    }
    assert OrdersOk(es);
    assert DistinctIds(es);
  }

  lemma FitsMeansRules(c: DrawConfig, i: nat)
    requires Buildable(c) && i < |c.participants|
    ensures EntryRules(c, i)
  {
    Limits();
    var es := CompactAll(c.participants);
    assert EntryFits(c.participants[i], i, CodeOf(c.formula).value);
    forall j | 0 <= j < i
      ensures c.participants[j].id != c.participants[i].id && PlaceOf(c, j) != PlaceOf(c, i)
    {
      assert EntryFits(c.participants[j], j, CodeOf(c.formula).value);
      assert es[j].id != es[i].id && es[j].order != es[i].order;
    }
  }

  /** The formula of a draw and its number in the header. */
  ghost predicate Numbered(formula: string, code: nat) {
    match formula
    case "weighted_random" => code == 1
    case "rank_desc" => code == 2
    case "rank_asc" => code == 3
    case "first_n" => code == 4
    case "closest_to" => code == 5
    case _ => false
  }

  /** The header says what the configuration says, with the defaults of what it leaves out. */
  ghost predicate HeadSays(c: DrawConfig, h: Head) {
    && Numbered(c.formula, h.formula) && h.minInput == c.input && h.maxInput == c.input
    && h.payout == (if c.payout.Some? then c.payout.value else 3)
    && h.winners == (if c.winners.Some? then c.winners.value else 1)
    && h.target == (if c.target.Some? then c.target.value else 0)
    && h.n == |c.participants|
  }

  /** The record says what participant i says. */
  ghost predicate RecordSays(c: DrawConfig, i: nat, r: Record) {
    && i < |c.participants|
    && var p := c.participants[i];
       && Text(Name(r)) == p.id && r.order == PlaceOf(c, i)
       && r.weight == (if p.weight.Some? then p.weight.value else 1)
       && r.score == (if p.score.Some? then p.score.value else 0)
  }

  /** One record for each participant, and nobody else, strictly sorted by id. */
  ghost predicate EntriesSay(c: DrawConfig, rs: seq<Record>, p: seq<nat>) {
    && |p| == |rs| == |c.participants|
    && (forall n: nat :: n < |c.participants| ==> n in p)
    && (forall i :: 0 <= i < |p| ==> RecordSays(c, p[i], rs[i]))
    && (forall i, j :: 0 <= i < j < |p| ==> CompareBytes(Name(rs[i]), Name(rs[j])) < 0)
  }

  lemma RecordBuilt(c: DrawConfig, i: nat)
    requires Buildable(c) && i < |c.participants|
    ensures var r := RecordFor(CompactAll(c.participants)[i]);
            RecordSays(c, i, r) && Name(r) == CompactAll(c.participants)[i].id
  {
    var q, code := c.participants[i], CodeOf(c.formula).value;
    assert EntryFits(q, i, code);
    CompactValid(q, i, code);
    RecordForOk(CompactAll(c.participants)[i], 0);
    TextOfCode(q.id);
  }

  /** The parse of what is built, in terms of the configuration: participant p[i] is entry i. */
  lemma BuiltContentV5(c: DrawConfig) returns (a: Artifact, p: seq<nat>)
    requires Buildable(c)
    ensures Accepts(Layout(ArtifactOfConfig(c))) && a == ArtifactOf(Layout(ArtifactOfConfig(c)))
    ensures HeadSays(c, a.h) && EntriesSay(c, a.entries, p)
  {
    ParseAfterBuildV5(c);
    a := ArtifactOfConfig(c);
    p := EntriesBuilt(c);
  }

  lemma EntriesBuilt(c: DrawConfig) returns (p: seq<nat>)
    requires Buildable(c)
    ensures EntriesSay(c, RecordsFor(SortById(CompactAll(c.participants))), p)
  {
    var es := CompactAll(c.participants);
    ByIdConsistent();
    p := SortArranges(ById(), es);
    var rs := RecordsFor(SortById(es));
    forall i | 0 <= i < |p|
      ensures RecordSays(c, p[i], rs[i]) && Name(rs[i]) == es[p[i]].id
    {
      RecordBuilt(c, p[i]);
    }
    forall i, j | 0 <= i < j < |p|
      ensures CompareBytes(es[p[i]].id, es[p[j]].id) < 0
    {
      assert Before(ById(), es, p[i], p[j]);
      CompareBytesAntisymmetric(es[p[i]].id, es[p[j]].id);
      CompareBytesAntisymmetric(es[p[i]].id, es[p[i]].id);
      assert p[i] != p[j];
      assert if p[i] < p[j] then es[p[i]].id != es[p[j]].id else es[p[j]].id != es[p[i]].id;
    }
  }
}
