/** Building and writing W3O1 artifacts (sdk/artifact.ts), and that what is built parses back. */
module OutcomeBuilder {
  import opened Wrappers
  import opened StableSort
  import opened Bytes
  import opened EntryTable
  import opened OutcomeFormat

  const MAX_U16: nat := 0xffff
  const MAX_U32: nat := 0xffff_ffff
  const MAX_U64: nat := 0xffff_ffff_ffff_ffff

  /** A validated participant or loot entry; `id` is the ASCII text's bytes. */
  datatype Entry = Entry(id: bytes, weight: nat, score: int, order: nat, payout: nat)

  ghost predicate ValidEntry(e: Entry) {
    && 1 <= |e.id| <= MAX_ID && (forall i :: 0 <= i < |e.id| ==> 32 <= e.id[i] <= 126)
    && 1 <= e.weight <= MAX_U32 && FitsSigned(e.score, 8) && e.order <= MAX_U16 && e.payout <= MAX_U64
  }

  ghost predicate AllValid(entries: seq<Entry>) {
    forall i :: 0 <= i < |entries| ==> ValidEntry(entries[i])
  }

  ghost predicate DistinctIds(entries: seq<Entry>) {
    forall i, j :: 0 <= i < j < |entries| ==> entries[i].id != entries[j].id
  }

  function ById(): (Entry, Entry) -> int {
    (a: Entry, b: Entry) => CompareBytes(a.id, b.id)
  }

  lemma ByIdConsistent()
    ensures Consistent(ById())
  {
    forall a, b
      ensures Antisymmetric(ById(), a, b)
    {
      CompareBytesAntisymmetric(a.id, b.id);
    }
    forall a, b, c
      ensures Transitive(ById(), a, b, c)
    {
      if CompareBytes(a.id, b.id) <= 0 && CompareBytes(b.id, c.id) <= 0 { CompareBytesTransitive(a.id, b.id, c.id); }
    }
  }

  function SortById(entries: seq<Entry>): (s: seq<Entry>)
    ensures |s| == |entries|
  {
    Sort(ById(), entries)
  }

  // ---------------------------------------------------------------- outcomes and effects

  /** An outcome of the serializer's input. */
  datatype Outcome = Outcome(id: bytes, weight: int, score: int, order: int, first: int, count: int)

  /** Each entry owns exactly one effect. */
  function OutcomesOf(sorted: seq<Entry>): (os: seq<Outcome>)
    ensures |os| == |sorted|
    ensures forall i :: 0 <= i < |os| ==>
              os[i] == Outcome(sorted[i].id, sorted[i].weight, sorted[i].score, sorted[i].order, i, 1)
  {
    seq(|sorted|, i requires 0 <= i < |sorted| => Outcome(sorted[i].id, sorted[i].weight, sorted[i].score, sorted[i].order, i, 1))
  }

  function PayoutsOf(sorted: seq<Entry>): (es: seq<nat>)
    ensures |es| == |sorted| && forall i :: 0 <= i < |es| ==> es[i] == sorted[i].payout
  {
    seq(|sorted|, i requires 0 <= i < |sorted| => sorted[i].payout)
  }

  ghost predicate NoAdjacentRepeat(s: seq<Entry>) {
    forall i :: 0 < i < |s| ==> s[i - 1].id != s[i].id
  }

  /** In a sorted list a repeated id shows up next to its first occurrence. */
  lemma RepeatsAreAdjacent(s: seq<Entry>)
    requires Sorted(ById(), s)
    ensures NoAdjacentRepeat(s) <==> DistinctIds(s)
  {
    if NoAdjacentRepeat(s) {
      forall i, j | 0 <= i < j < |s|
        ensures s[i].id != s[j].id
      {
        assert ById()(s[i], s[j - 1]) <= 0 || i == j - 1;
        assert ById()(s[j - 1], s[j]) <= 0;
        CompareBytesAntisymmetric(s[j - 1].id, s[j].id);
        CompareBytesAntisymmetric(s[i].id, s[j].id);
        CompareBytesAntisymmetric(s[i].id, s[i].id);
        if i < j - 1 { CompareBytesTransitive(s[i].id, s[j - 1].id, s[j].id); }
      }
    }
  }

  lemma ArrangedDistinct(s: seq<Entry>, t: seq<Entry>, p: seq<nat>)
    requires StableArrangement(ById(), s, t, p)
    ensures DistinctIds(s) <==> DistinctIds(t)
  {
    forall i, j | 0 <= i < j < |p|
      ensures p[i] != p[j]
    {
      assert Before(ById(), s, p[i], p[j]);
      CompareBytesAntisymmetric(s[p[i]].id, s[p[i]].id);
    }
    if DistinctIds(t) {
      forall i: nat, j: nat | i < j < |s|
        ensures s[i].id != s[j].id
      {
        assert i in p && j in p;
        var a :| 0 <= a < |p| && p[a] == i;
        var b :| 0 <= b < |p| && p[b] == j;
        assert t[a].id != t[b].id;
      }
    }
  }

  lemma SortedDistinct(entries: seq<Entry>)
    ensures Sorted(ById(), SortById(entries))
    ensures DistinctIds(entries) <==> NoAdjacentRepeat(SortById(entries))
  {
    ByIdConsistent();
    SortSorted(ById(), entries);
    var p := SortArranges(ById(), entries);
    ArrangedDistinct(entries, SortById(entries), p);
    RepeatsAreAdjacent(SortById(entries));
  }

  /** buildOutcomesAndEffects: fails exactly on a repeated id or too many effects. */
  method BuildOutcomesAndEffects(entries: seq<Entry>) returns (r: Result<(seq<Outcome>, seq<nat>)>)
    ensures r.Ok? <==> DistinctIds(entries) && |entries| <= MAX_U16
    ensures r.Ok? ==> r.value == (OutcomesOf(SortById(entries)), PayoutsOf(SortById(entries)))
  {
    var sorted := SortById(entries);
    SortedDistinct(entries);
    var outcomes: seq<Outcome>, effects: seq<nat> := [], [];
    for i := 0 to |sorted|
      invariant Pushed(sorted, i, outcomes, effects)
      invariant forall k :: 0 < k < i ==> sorted[k - 1].id != sorted[k].id
    {
      if i > 0 && sorted[i - 1].id == sorted[i].id {
        return Err;
      }
      PushNext(sorted, i, outcomes, effects);
      var effectIndex := |effects|;
      effects := effects + [sorted[i].payout];
      outcomes := outcomes + [Outcome(sorted[i].id, sorted[i].weight, sorted[i].score, sorted[i].order, effectIndex, 1)];
    }
    assert OutcomesOf(sorted)[..|sorted|] == OutcomesOf(sorted) && PayoutsOf(sorted)[..|sorted|] == PayoutsOf(sorted);
    if |effects| > MAX_U16 {
      return Err;
    }
    r := Ok((outcomes, effects));
  }

  ghost predicate Pushed(sorted: seq<Entry>, i: nat, outcomes: seq<Outcome>, effects: seq<nat>) {
    i <= |sorted| && outcomes == OutcomesOf(sorted)[..i] && effects == PayoutsOf(sorted)[..i]
  }

  lemma PushNext(sorted: seq<Entry>, i: nat, outcomes: seq<Outcome>, effects: seq<nat>)
    requires i < |sorted| && Pushed(sorted, i, outcomes, effects)
    ensures |effects| == i
    ensures Pushed(sorted, i + 1, outcomes + [OutcomesOf(sorted)[i]], effects + [PayoutsOf(sorted)[i]])
  {}

  // ---------------------------------------------------------------- serializer

  type FormulaCode = x: int | 1 <= x <= 5 witness 1

  /** The serializer's input; every number is an arbitrary integer. */
  datatype Config = Config(version: int, winners: int, minInput: int, maxInput: int,
                           formula: Option<FormulaCode>, target: int, outcomes: seq<Outcome>, effects: seq<int>)

  predicate Writable(version: int, o: Outcome) {
    && |o.id| <= MAX_ID && 0 <= o.weight <= MAX_U32
    && (version == 3 ==> FitsSigned(o.score, 8) && 0 <= o.order <= MAX_U16)
    && 0 <= o.first <= MAX_U16 && 0 <= o.count <= MAX_U16
  }

  ghost predicate WritableAt(version: int, os: seq<Outcome>, i: int) {
    0 <= i < |os| ==> Writable(version, os[i])
  }

  ghost predicate AllWritable(version: int, os: seq<Outcome>) {
    forall i :: WritableAt(version, os, i)
  }

  /** What serializeW3O1 checks, its range-checked writes included; ids need not be sorted. */
  ghost predicate Serializable(c: Config) {
    && 0 < |c.outcomes| <= MAX_U16 && 0 < |c.effects| <= MAX_U16
    && 1 <= c.winners <= |c.outcomes| && c.winners <= MAX_WINNERS
    && 1 <= c.version <= 3 && (c.version == 1 ==> c.winners <= 1) && (c.version == 3 ==> c.formula.Some?)
    && 0 <= c.minInput <= MAX_U64 && 0 <= c.maxInput <= MAX_U64 && (c.version == 3 ==> FitsSigned(c.target, 8))
    && AllWritable(c.version, c.outcomes)
    && (forall k :: 0 <= k < |c.effects| ==> 0 <= c.effects[k] <= MAX_U64)
  }

  function Nat(x: int): nat {
    if x < 0 then 0 else x
  }

  function RecordOf(version: int, index: nat, o: Outcome): Record {
    Record(|o.id| % 256, Pad(o.id), Nat(o.weight), if version == 3 then o.score else 0,
           if version == 3 then Nat(o.order) else index, Nat(o.first), Nat(o.count))
  }

  function RecordsOf(version: int, os: seq<Outcome>): (rs: seq<Record>)
    ensures |rs| == |os| && forall i :: 0 <= i < |rs| ==> rs[i] == RecordOf(version, i, os[i])
  {
    seq(|os|, i requires 0 <= i < |os| => RecordOf(version, i, os[i]))
  }

  function Nats(es: seq<int>): (ns: seq<nat>)
    ensures |ns| == |es| && forall k :: 0 <= k < |es| ==> ns[k] == Nat(es[k])
  {
    seq<nat>(|es|, k requires 0 <= k < |es| => Nat(es[k]))
  }

  function HeadOf(c: Config): Head {
    Head(Nat(c.version), Nat(c.minInput), Nat(c.maxInput), |c.outcomes|, |c.effects|, Nat(c.winners),
         if c.version == 3 && c.formula.Some? then c.formula.value else WEIGHTED_RANDOM, if c.version == 3 then c.target else 0)
  }

  /** The artifact a configuration stands for. */
  function ArtifactFor(c: Config): Artifact {
    Artifact(HeadOf(c), RecordsOf(c.version, c.outcomes), Nats(c.effects))
  }

  method WriteOutcome(version: nat, index: nat, o: Outcome) returns (r: Result<bytes>)
    ensures r.Ok? <==> Writable(version, o)
    ensures r.Ok? ==> r.value == Encode(ShapeOf(version), RecordOf(version, index, o))
  {
    if |o.id| > MAX_ID { return Err; }
    if o.weight < 0 || o.weight > MAX_U32 { return Err; }
    var part := [|o.id|] + Pad(o.id) + LE(o.weight, 4);
    if version == 3 {
      if !FitsSigned(o.score, 8) || o.order < 0 || o.order > MAX_U16 { return Err; }
      part := part + (I64(o.score) + LE(o.order, 2));
    }
    if o.first < 0 || o.first > MAX_U16 || o.count < 0 || o.count > MAX_U16 { return Err; }
    assert version != 3 ==> part == part + [];
    r := Ok(part + (LE(o.first, 2) + LE(o.count, 2)));
  }

  /** The records of the outcomes before i have been written. */
  ghost predicate Written(version: nat, os: seq<Outcome>, i: nat, parts: seq<bytes>) {
    i <= |os| && |parts| == i && forall k :: WrittenAt(version, os, parts, k)
  }

  ghost predicate WrittenAt(version: nat, os: seq<Outcome>, parts: seq<bytes>, k: int) {
    0 <= k < |parts| && k < |os| ==> parts[k] == Encode(ShapeOf(version), RecordOf(version, k, os[k]))
  }

  lemma WrittenNext(version: nat, os: seq<Outcome>, i: nat, parts: seq<bytes>, part: bytes)
    requires i < |os| && Written(version, os, i, parts)
    requires part == Encode(ShapeOf(version), RecordOf(version, i, os[i]))
    ensures Written(version, os, i + 1, parts + [part])
  {
    forall k
      ensures WrittenAt(version, os, parts + [part], k)
    {
      assert WrittenAt(version, os, parts, k);
    }
  }

  lemma WrittenAll(version: nat, os: seq<Outcome>, parts: seq<bytes>)
    requires Written(version, os, |os|, parts)
    ensures Concat(parts) == TableBytes(ShapeOf(version), RecordsOf(version, os))
  {
    var cs := Chunks(ShapeOf(version), RecordsOf(version, os));
    forall k | 0 <= k < |os|
      ensures cs[k] == parts[k]
    {
      assert WrittenAt(version, os, parts, k);
    }
    assert cs == parts;
  }

  method WriteNext(version: nat, os: seq<Outcome>, i: nat, parts: seq<bytes>) returns (ok: bool, next: seq<bytes>)
    requires i < |os| && Written(version, os, i, parts)
    ensures ok <==> Writable(version, os[i])
    ensures ok ==> Written(version, os, i + 1, next)
  {
    var part := WriteOutcome(version, i, os[i]);
    if part.Err? {
      return false, parts;
    }
    WrittenNext(version, os, i, parts, part.value);
    ok, next := true, parts + [part.value];
  }

  method WriteOutcomes(version: nat, os: seq<Outcome>) returns (r: Result<bytes>)
    ensures r.Ok? <==> AllWritable(version, os)
    ensures r.Ok? ==> r.value == TableBytes(ShapeOf(version), RecordsOf(version, os))
  {
    var parts: seq<bytes> := [];
    for i := 0 to |os|
      invariant forall k :: k < i ==> WritableAt(version, os, k)
      invariant Written(version, os, i, parts)
    {
      var ok, next := WriteNext(version, os, i, parts);
      if !ok {
        assert !WritableAt(version, os, i);
        return Err;
      }
      parts := next;
    }
    WrittenAll(version, os, parts);
    r := Ok(Concat(parts));
  }

  method WriteEffects(es: seq<int>) returns (r: Result<bytes>)
    ensures r.Ok? <==> forall k :: 0 <= k < |es| ==> 0 <= es[k] <= MAX_U64
    ensures r.Ok? ==> r.value == EffectsBytes(Nats(es))
  {
    var parts: bytes := [];
    ghost var cs := EffectChunks(Nats(es));
    for k := 0 to |es|
      invariant forall j :: 0 <= j < k ==> 0 <= es[j] <= MAX_U64
      invariant parts == Concat(cs[..k])
    {
      if es[k] < 0 || es[k] > MAX_U64 {
        return Err;
      }
      ConcatStep(cs, k);
      parts := parts + EffectBytes(es[k]);
    }
    assert cs[..|es|] == cs;
    r := Ok(parts);
  }

  /** serializeW3O1: there is no cap on the size. */
  method Serialize(c: Config) returns (r: Result<bytes>)
    ensures r.Ok? <==> Serializable(c)
    ensures r.Ok? ==> r.value == Layout(ArtifactFor(c))
  {
    if |c.outcomes| == 0 || |c.outcomes| > MAX_U16 || |c.effects| == 0 || |c.effects| > MAX_U16 { return Err; }
    if c.winners <= 0 || c.winners > |c.outcomes| || c.winners > MAX_WINNERS { return Err; }
    if c.version != 1 && c.version != 2 && c.version != 3 { return Err; }
    if c.version == 1 && c.winners > 1 { return Err; }
    if c.version == 3 && c.formula.None? { return Err; }
    if c.minInput < 0 || c.minInput > MAX_U64 || c.maxInput < 0 || c.maxInput > MAX_U64 { return Err; }
    if c.version == 3 && !FitsSigned(c.target, 8) { return Err; }
    var outcomes := WriteOutcomes(c.version, c.outcomes);
    if outcomes.Err? { return Err; }
    var effects := WriteEffects(c.effects);
    if effects.Err? { return Err; }
    r := Ok(HeadBytes(HeadOf(c)) + outcomes.value + effects.value);
  }

  // ---------------------------------------------------------------- what is built parses back

  /** normalizeEntries and normalizeFormulaEntries, past their checks. */
  function ConfigFor(version: nat, entries: seq<Entry>, input: nat, winners: nat, formula: Option<FormulaCode>, target: int): Config {
    Config(version, winners, input, input, formula, target, OutcomesOf(SortById(entries)), PayoutsOf(SortById(entries)))
  }

  /** The demands the config builders have already met: counts, ranges and the format they choose. */
  ghost predicate Buildable(version: nat, entries: seq<Entry>, input: nat, winners: nat, formula: Option<FormulaCode>, target: int) {
    && AllValid(entries) && DistinctIds(entries) && 0 < |entries| <= MAX_U16
    && input <= MAX_U64 && 1 <= winners <= |entries| && winners <= MAX_WINNERS && FitsSigned(target, 8)
    && (version == 1 || version == 2 || version == 3)
    && (version == 1 ==> winners == 1)
    && (version == 3 ==> formula.Some? && forall i :: 0 <= i < |entries| ==> entries[i].order == i)
  }

  lemma ValidArranged(s: seq<Entry>, t: seq<Entry>, p: seq<nat>)
    requires AllValid(s) && StableArrangement(ById(), s, t, p)
    ensures AllValid(t)
  {
    forall i | 0 <= i < |t|
      ensures ValidEntry(t[i])
    {
      assert t[i] == s[p[i]];
    }
  }

  /** The record written for a valid entry at position i. */
  lemma RecordOk(version: nat, i: nat, e: Entry)
    requires ValidEntry(e) && i <= MAX_U16
    ensures var r := RecordOf(version, i, Outcome(e.id, e.weight, e.score, e.order, i, 1));
            && IdOk(r) && Name(r) == e.id && 0 < r.weight && r.first == i && r.count == 1
            && InRange(ShapeOf(version), i, r)
  {
    assert Pad(e.id)[..|e.id|] == e.id;
  }

  lemma StrictlySorted(t: seq<Entry>, i: nat)
    requires Sorted(ById(), t) && DistinctIds(t) && 0 < i < |t|
    ensures CompareBytes(t[i - 1].id, t[i].id) < 0
  {
    assert ById()(t[i - 1], t[i]) <= 0;
    CompareBytesAntisymmetric(t[i - 1].id, t[i].id);
  }

  lemma BuiltEntry(version: nat, t: seq<Entry>, rs: seq<Record>, z: Sizes, i: nat)
    requires AllValid(t) && Sorted(ById(), t) && DistinctIds(t) && |t| <= MAX_U16
    requires rs == RecordsOf(version, OutcomesOf(t)) && i < |t|
    requires z == Sizes(ShapeOf(version), |t|, |t|, version != FORMAT_VERSION_V1)
    requires version == 3 ==> t[i].order < |t| && forall j :: 0 <= j < i ==> t[j].order != t[i].order
    ensures EntryAt(z, rs, i)
  {
    RecordOk(version, i, t[i]);
    if i > 0 {
      RecordOk(version, i - 1, t[i - 1]);
      StrictlySorted(t, i);
    }
    var before := rs[..i];
    forall e | Covers(rs[i], e)
      ensures !Referenced(before, e)
    {
      forall j | 0 <= j < |before|
        ensures !Covers(before[j], e)
      {
        RecordOk(version, j, t[j]);
      }
    }
  }

  ghost predicate OrderPresent(t: seq<Entry>, k: nat) {
    exists i :: 0 <= i < |t| && t[i].order == k
  }

  /** Orders 0 .. n - 1 stay distinct and complete under any arrangement. */
  lemma OrdersArranged(s: seq<Entry>, t: seq<Entry>, p: seq<nat>)
    requires StableArrangement(ById(), s, t, p)
    requires forall i :: 0 <= i < |s| ==> s[i].order == i
    ensures forall i :: 0 <= i < |t| ==> t[i].order < |t|
    ensures forall i, j :: 0 <= j < i < |t| ==> t[j].order != t[i].order
    ensures forall k: nat :: k < |t| ==> OrderPresent(t, k)
  {
    forall i, j | 0 <= j < i < |t|
      ensures t[j].order != t[i].order
    {
      assert Before(ById(), s, p[j], p[i]);
      CompareBytesAntisymmetric(s[p[j]].id, s[p[j]].id);
    }
    forall k: nat | k < |t|
      ensures OrderPresent(t, k)
    {
      assert k in p;
      var i :| 0 <= i < |p| && p[i] == k;
      assert t[i].order == k;
    }
  }

  lemma BuiltTable(version: nat, entries: seq<Entry>, input: nat, winners: nat, formula: Option<FormulaCode>, target: int)
    requires Buildable(version, entries, input, winners, formula, target)
    ensures var a := ArtifactFor(ConfigFor(version, entries, input, winners, formula, target));
            && AllInRange(ShapeOf(version), a.outcomes) && TableOk(SizesOf(a.h), a.outcomes) && AllReferenced(a.h.m, a.outcomes)
  {
    var t := SortById(entries);
    var rs := RecordsOf(version, OutcomesOf(t));
    var z := Sizes(ShapeOf(version), |t|, |t|, version != FORMAT_VERSION_V1);
    ByIdConsistent();
    SortSorted(ById(), entries);
    var p := SortArranges(ById(), entries);
    ValidArranged(entries, t, p);
    ArrangedDistinct(entries, t, p);
    if version == 3 { OrdersArranged(entries, t, p); }
    forall i
      ensures EntryAt(z, rs, i)
    {
      if 0 <= i < |rs| { BuiltEntry(version, t, rs, z, i); }
    }
    forall i | 0 <= i < |rs|
      ensures InRange(ShapeOf(version), i, rs[i]) && Referenced(rs, i)
    {
      RecordOk(version, i, t[i]);
      assert Covers(rs[i], i);
    }
    if version == 3 { BuiltOrders(t, rs); }
  }

  lemma BuiltOrders(t: seq<Entry>, rs: seq<Record>)
    requires rs == RecordsOf(3, OutcomesOf(t))
    requires forall k: nat :: k < |t| ==> OrderPresent(t, k)
    ensures forall k :: 0 <= k < |t| ==> OrderTaken(rs, k)
  {
    forall k: nat | k < |t|
      ensures OrderTaken(rs, k)
    {
      assert OrderPresent(t, k);
      var i :| 0 <= i < |t| && t[i].order == k;
      assert rs[i].order == k;
    }
  }

  lemma BuiltHead(version: nat, entries: seq<Entry>, input: nat, winners: nat, formula: Option<FormulaCode>, target: int)
    requires Buildable(version, entries, input, winners, formula, target)
    ensures var a := ArtifactFor(ConfigFor(version, entries, input, winners, formula, target));
            && HeadInRange(a.h) && HeadChecks(a.h) && |a.outcomes| == a.h.n && |a.effects| == a.h.m
  {}

  lemma BuiltWritable(version: nat, t: seq<Entry>)
    requires AllValid(t) && |t| <= MAX_U16
    ensures AllWritable(version, OutcomesOf(t))
    ensures forall i :: 0 <= i < |t| ==> 0 <= PayoutsOf(t)[i] <= MAX_U64
    ensures AmountsInRange(Nats(PayoutsOf(t)))
  {
    forall i | 0 <= i < |t|
      ensures WritableAt(version, OutcomesOf(t), i) && 0 <= PayoutsOf(t)[i] <= MAX_U64
    {
      assert ValidEntry(t[i]);
    }
  }

  /** Everything the builders produce is serialized, and to a well-formed artifact. */
  lemma BuiltIsWellFormed(version: nat, entries: seq<Entry>, input: nat, winners: nat, formula: Option<FormulaCode>, target: int)
    requires Buildable(version, entries, input, winners, formula, target)
    ensures var c := ConfigFor(version, entries, input, winners, formula, target);
            Serializable(c) && WellFormed(ArtifactFor(c))
  {
    ByIdConsistent();
    var p := SortArranges(ById(), entries);
    ValidArranged(entries, SortById(entries), p);
    BuiltWritable(version, SortById(entries));
    BuiltHead(version, entries, input, winners, formula, target);
    BuiltTable(version, entries, input, winners, formula, target);
  }

  /** Parse after build: the written artifact is accepted exactly when it has at most 8192 bytes, and
      then the parse gives the sorted entries, each owning the effect with its own payout. */
  lemma ParseAfterBuild(version: nat, entries: seq<Entry>, input: nat, winners: nat, formula: Option<FormulaCode>, target: int)
    requires Buildable(version, entries, input, winners, formula, target)
    ensures var a := ArtifactFor(ConfigFor(version, entries, input, winners, formula, target));
            && (Accepts(Layout(a)) <==> |Layout(a)| <= MAX_ARTIFACT_BYTES)
            && (Accepts(Layout(a)) ==> ArtifactOf(Layout(a)) == a)
            && |Layout(a)| == HeadLength(version) + |entries| * Width(ShapeOf(version)) + 16 * |entries|
  {
    var a := ArtifactFor(ConfigFor(version, entries, input, winners, formula, target));
    BuiltIsWellFormed(version, entries, input, winners, formula, target);
    LayoutLengths(a);
    if |Layout(a)| <= MAX_ARTIFACT_BYTES { LayoutParses(a); }
  }

  /** The header of a built artifact; only format 3 carries a formula and a target. */
  lemma BuiltHeadSays(version: nat, entries: seq<Entry>, input: nat, winners: nat, formula: Option<FormulaCode>, target: int)
    requires Buildable(version, entries, input, winners, formula, target)
    ensures var h := ArtifactFor(ConfigFor(version, entries, input, winners, formula, target)).h;
            && h.version == version && h.minInput == h.maxInput == input && h.winners == winners
            && h.n == h.m == |entries|
            && h.formula == (if version == 3 then formula.value else 1)
            && h.target == (if version == 3 then target else 0)
  {}

  /** Outcome i of a built artifact carries the columns of the i-th entry in id order, and its one
      effect is that entry's payout; before format 3 its order is its position. */
  lemma BuiltPays(version: nat, entries: seq<Entry>, input: nat, winners: nat, formula: Option<FormulaCode>, target: int, i: nat)
    requires Buildable(version, entries, input, winners, formula, target) && i < |entries|
    ensures var a, e := ArtifactFor(ConfigFor(version, entries, input, winners, formula, target)), SortById(entries)[i];
            var o := a.outcomes[i];
            && Name(o) == e.id && o.weight == e.weight && o.first == i && o.count == 1
            && o.score == (if version == 3 then e.score else 0) && o.order == (if version == 3 then e.order else i)
            && |a.effects| == |entries| && a.effects[o.first] == e.payout
  {
    ByIdConsistent();
    var p := SortArranges(ById(), entries);
    ValidArranged(entries, SortById(entries), p);
    RecordOk(version, i, SortById(entries)[i]);
  }

  // ---------------------------------------------------------------- the serializer's demands, in numbers

  ghost predicate OutcomeRules(version: int, os: seq<Outcome>, i: int) {
    0 <= i < |os| ==>
      var o := os[i];
      && |o.id| <= 64 && 0 <= o.weight <= 0xffff_ffff
      && 0 <= o.first <= 0xffff && 0 <= o.count <= 0xffff
      && (version == 3 ==> -0x8000_0000_0000_0000 <= o.score < 0x8000_0000_0000_0000 && 0 <= o.order <= 0xffff)
  }

  lemma SerializableByRules(c: Config)
    ensures Serializable(c) <==>
              && 1 <= c.version <= 3
              && 1 <= |c.outcomes| <= 0xffff && 1 <= |c.effects| <= 0xffff
              && 1 <= c.winners <= |c.outcomes| && c.winners <= (if c.version == 1 then 1 else 32)
              && 0 <= c.minInput <= 0xffff_ffff_ffff_ffff && 0 <= c.maxInput <= 0xffff_ffff_ffff_ffff
              && (c.version == 3 ==> c.formula.Some? && -0x8000_0000_0000_0000 <= c.target < 0x8000_0000_0000_0000)
              && (forall i :: OutcomeRules(c.version, c.outcomes, i))
              && (forall k :: 0 <= k < |c.effects| ==> 0 <= c.effects[k] <= 0xffff_ffff_ffff_ffff)
  {
    Limits();
    assert forall i :: OutcomeRules(c.version, c.outcomes, i) <==> WritableAt(c.version, c.outcomes, i);
  }
}
