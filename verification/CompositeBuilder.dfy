/** The builder of format 8 (sdk/composite_rank_desc.ts): validation and normalization of the
    configuration, and what parsing the result gives back. */
module CompositeBuilder {
  import opened Wrappers
  import opened StableSort
  import opened Bytes
  import opened EntryTable
  import opened CompositeFormat
  import CompositeRank
  import OutcomeFormat

  const MAX_U16: int := 0xffff
  const MAX_U32: int := 0xffff_ffff
  const MAX_U64: int := 0xffff_ffff_ffff_ffff

  datatype FieldInput = FieldInput(key: string, weight: int)
  datatype ParticipantInput = ParticipantInput(id: string, order: int, fields: map<string, int>)

  /** The builder's input; every number is an arbitrary integer, every string arbitrary. */
  datatype Config = Config(
    formula: string, scoringVersion: Option<string>, mode: string, fields: seq<FieldInput>,
    participants: seq<ParticipantInput>, input: int, payout: Option<int>, winners: Option<int>)

  // ---------------------------------------------------------------- text

  predicate KeyChar(c: char) {
    'a' <= c <= 'z' || '0' <= c <= '9' || c == '_'
  }

  /** /^[a-z][a-z0-9_]{0,31}$/ */
  predicate KeyText(s: string) {
    1 <= |s| <= KEY_FIELD && 'a' <= s[0] <= 'z' && forall i :: 0 <= i < |s| ==> KeyChar(s[i])
  }

  lemma KeyCoded(s: string)
    requires KeyText(s)
    ensures PlainText(s) && KeyOk(Code(s))
  {
    forall i | 0 <= i < |s|
      ensures s[i] < 128 as char
    {
      assert KeyChar(s[i]);
    }
    forall i | 0 <= i < |s|
      ensures var k := Code(s)[i]; 97 <= k <= 122 || 48 <= k <= 57 || k == 95
    {
      assert KeyChar(s[i]);
    }
  }

  // ---------------------------------------------------------------- scoring fields

  /** Field i is well formed and its key is new. */
  ghost predicate FieldValid(fs: seq<FieldInput>, i: int) {
    0 <= i < |fs| ==>
      && KeyText(fs[i].key) && 0 < fs[i].weight <= MAX_U32
      && forall j :: 0 <= j < i ==> fs[j].key != fs[i].key
  }

  function Spec(f: FieldInput): FieldSpec {
    FieldSpec(Code(f.key), if f.weight < 0 then 0 else f.weight)
  }

  function SpecsOf(fs: seq<FieldInput>): (ss: seq<FieldSpec>)
    ensures |ss| == |fs| && forall i :: 0 <= i < |fs| ==> ss[i] == Spec(fs[i])
  {
    seq(|fs|, i requires 0 <= i < |fs| => Spec(fs[i]))
  }

  function InputWeights(fs: seq<FieldInput>): (ws: seq<int>)
    ensures |ws| == |fs| && forall i :: 0 <= i < |fs| ==> ws[i] == fs[i].weight
  {
    seq(|fs|, i requires 0 <= i < |fs| => fs[i].weight)
  }

  ghost predicate FieldsValid(fs: seq<FieldInput>) {
    && 1 <= |fs| <= MAX_FIELDS
    && (forall i :: FieldValid(fs, i)) && CompositeRank.Sum(InputWeights(fs)) == SCALE
  }

  /** `seen` holds exactly the keys of the first i fields. */
  ghost predicate KeysSeen(fs: seq<FieldInput>, i: nat, seen: set<string>) {
    i <= |fs| && forall key :: key in seen <==> exists j :: 0 <= j < i && fs[j].key == key
  }

  lemma KeySeenNext(fs: seq<FieldInput>, i: nat, seen: set<string>)
    requires i < |fs| && KeysSeen(fs, i, seen)
    ensures KeysSeen(fs, i + 1, seen + {fs[i].key})
    ensures fs[i].key in seen <==> !(forall j :: 0 <= j < i ==> fs[j].key != fs[i].key)
  {}

  /** validateFieldSpecs. */
  method ValidateFieldSpecs(fs: seq<FieldInput>) returns (r: Result<seq<FieldSpec>>)
    ensures r.Ok? <==> FieldsValid(fs)
    ensures r.Ok? ==> r.value == SpecsOf(fs)
  {
    if |fs| == 0 || |fs| > MAX_FIELDS {
      return Err;
    }
    var seen: set<string>, sum := {}, 0;
    for i := 0 to |fs|
      invariant KeysSeen(fs, i, seen) && forall k :: k < i ==> FieldValid(fs, k)
      invariant sum == CompositeRank.Sum(InputWeights(fs)[..i])
    {
      KeySeenNext(fs, i, seen);
      if !KeyText(fs[i].key) || fs[i].weight <= 0 || fs[i].weight > MAX_U32 || fs[i].key in seen {
        assert !FieldValid(fs, i);
        return Err;
      }
      CompositeRank.SumStep(InputWeights(fs), i);
      seen, sum := seen + {fs[i].key}, sum + fs[i].weight;
    }
    assert InputWeights(fs)[..|fs|] == InputWeights(fs);
    if sum != SCALE {
      return Err;
    }
    r := Ok(SpecsOf(fs));
  }

  /** Validated fields are what the parser demands of a field table. */
  lemma SpecsFit(fs: seq<FieldInput>)
    requires FieldsValid(fs)
    ensures (forall i :: SpecOk(SpecsOf(fs), i)) && CompositeRank.Sum(Weights(SpecsOf(fs))) == SCALE
  {
    forall i | 0 <= i < |fs|
      ensures KeyText(fs[i].key) && SpecsOf(fs)[i].weight == fs[i].weight <= MAX_U32
    {
      assert FieldValid(fs, i);
    }
    forall i
      ensures SpecOk(SpecsOf(fs), i)
    {
      if 0 <= i < |fs| { SpecFits(fs, i); }
    }
    assert Weights(SpecsOf(fs)) == InputWeights(fs);
  }

  lemma SpecFits(fs: seq<FieldInput>, i: nat)
    requires i < |fs| && forall k :: FieldValid(fs, k)
    ensures SpecOk(SpecsOf(fs), i)
  {
    assert FieldValid(fs, i);
    KeyCoded(fs[i].key);
    forall j | 0 <= j < i
      ensures Code(fs[j].key) != Code(fs[i].key)
    {
      assert FieldValid(fs, j);
      KeyCoded(fs[j].key);
      if Code(fs[j].key) == Code(fs[i].key) { CodeInjective(fs[j].key, fs[i].key); }
    }
  }

  // ---------------------------------------------------------------- participants

  function KeySet(fs: seq<FieldInput>): (ks: set<string>)
    ensures forall key :: key in ks <==> exists i :: 0 <= i < |fs| && fs[i].key == key
  {
    set i | 0 <= i < |fs| :: fs[i].key
  }

  /** The participant alone: id, order, exactly the scoring fields, and values in range. */
  predicate ParticipantValid(p: ParticipantInput, fs: seq<FieldInput>) {
    && IdText(p.id) && 0 <= p.order <= MAX_U16 && p.fields.Keys == KeySet(fs)
    && forall k :: 0 <= k < |fs| && fs[k].key in p.fields ==> FitsSigned(p.fields[fs[k].key], 8)
  }

  ghost predicate ParticipantNew(ps: seq<ParticipantInput>, fs: seq<FieldInput>, i: int) {
    0 <= i < |ps| ==>
      && ParticipantValid(ps[i], fs)
      && forall j :: 0 <= j < i ==> ps[j].id != ps[i].id && ps[j].order != ps[i].order
  }

  ghost predicate ParticipantsValid(ps: seq<ParticipantInput>, fs: seq<FieldInput>) {
    0 < |ps| && forall i :: ParticipantNew(ps, fs, i)
  }

  function ValuesOf(p: ParticipantInput, fs: seq<FieldInput>): (vs: seq<int>)
    ensures |vs| == |fs|
    ensures forall k :: 0 <= k < |fs| && fs[k].key in p.fields ==> vs[k] == p.fields[fs[k].key]
  {
    seq(|fs|, k requires 0 <= k < |fs| => if fs[k].key in p.fields then p.fields[fs[k].key] else 0)
  }

  function Normal(p: ParticipantInput, fs: seq<FieldInput>): Participant {
    Participant(Code(p.id), if p.order < 0 then 0 else p.order, ValuesOf(p, fs))
  }

  function NormalOf(ps: seq<ParticipantInput>, fs: seq<FieldInput>): (ns: seq<Participant>)
    ensures |ns| == |ps| && forall i :: 0 <= i < |ps| ==> ns[i] == Normal(ps[i], fs)
  {
    seq(|ps|, i requires 0 <= i < |ps| => Normal(ps[i], fs))
  }

  /** A set of as many keys as the scoring fields, all of them theirs, is exactly theirs. */
  lemma {:induction false} KeyCount(fs: seq<FieldInput>)
    requires forall i :: FieldValid(fs, i)
    ensures |KeySet(fs)| == |fs|
  {
    if fs == [] {
      assert KeySet(fs) == {};
    } else {
      var n := |fs| - 1;
      forall i
        ensures FieldValid(fs[..n], i)
      {
        assert FieldValid(fs, i);
      }
      KeyCount(fs[..n]);
      assert FieldValid(fs, n);
      assert fs == fs[..n] + [fs[n]];
      assert KeySet(fs) == KeySet(fs[..n]) + {fs[n].key};
    }
  }

  lemma SameKeys(ks: set<string>, fs: seq<FieldInput>)
    requires forall i :: FieldValid(fs, i)
    ensures ks == KeySet(fs) <==> |ks| == |fs| && ks <= KeySet(fs)
  {
    KeyCount(fs);
    if |ks| == |fs| && ks <= KeySet(fs) {
      assert KeySet(fs) == ks + (KeySet(fs) - ks);
      assert KeySet(fs) - ks == {};
    }
  }

  method CheckParticipant(p: ParticipantInput, fs: seq<FieldInput>) returns (ok: bool)
    requires forall i :: FieldValid(fs, i)
    ensures ok <==> ParticipantValid(p, fs)
  {
    SameKeys(p.fields.Keys, fs);
    if !IdText(p.id) || p.order < 0 || p.order > MAX_U16 || |p.fields.Keys| != |fs| || !(p.fields.Keys <= KeySet(fs)) {
      return false;
    }
    for k := 0 to |fs|
      invariant forall j :: 0 <= j < k && fs[j].key in p.fields ==> FitsSigned(p.fields[fs[j].key], 8)
    {
      if fs[k].key in p.fields && !FitsSigned(p.fields[fs[k].key], 8) {
        return false;
      }
    }
    ok := true;
  }

  /** The ids and the orders of the first i participants. */
  ghost predicate ParticipantsSeen(ps: seq<ParticipantInput>, i: nat, ids: set<string>, orders: set<int>) {
    && i <= |ps|
    && (forall id :: id in ids <==> exists j :: 0 <= j < i && ps[j].id == id)
    && (forall o :: o in orders <==> exists j :: 0 <= j < i && ps[j].order == o)
  }

  lemma ParticipantSeenNext(ps: seq<ParticipantInput>, i: nat, ids: set<string>, orders: set<int>)
    requires i < |ps| && ParticipantsSeen(ps, i, ids, orders)
    ensures ParticipantsSeen(ps, i + 1, ids + {ps[i].id}, orders + {ps[i].order})
    ensures ps[i].id !in ids && ps[i].order !in orders <==>
            forall j :: 0 <= j < i ==> ps[j].id != ps[i].id && ps[j].order != ps[i].order
  {}

  function ById(): (Participant, Participant) -> int {
    (a: Participant, b: Participant) => CompareBytes(a.id, b.id)
  }

  lemma ByIdConsistent()
    ensures Consistent(ById())
  {
    forall a, b
      ensures Antisymmetric(ById(), a, b)
    {
      CompareBytesAntisymmetric(a.id, b.id);
    }
    forall a, b, c
      ensures Transitive(ById(), a, b, c)
    {
      if CompareBytes(a.id, b.id) <= 0 && CompareBytes(b.id, c.id) <= 0 { CompareBytesTransitive(a.id, b.id, c.id); }
    }
  }

  ghost predicate Apart(ns: seq<Participant>) {
    forall i, j :: 0 <= i < j < |ns| ==> ns[i].id != ns[j].id && ns[i].order != ns[j].order
  }

  /** Sorting distinct participants by id puts them in the strict order the parser demands. */
  lemma SortedRanked(ns: seq<Participant>, fieldCount: nat)
    requires Apart(ns) && forall i :: 0 <= i < |ns| ==> Holdable(ns[i], fieldCount)
    ensures forall i :: RankedOk(Sort(ById(), ns), fieldCount, i)
  {
    ByIdConsistent();
    var p := SortArranges(ById(), ns);
    var t := Sort(ById(), ns);
    forall i
      ensures RankedOk(t, fieldCount, i)
    {
      if 0 <= i < |t| {
        forall j | 0 <= j < i
          ensures t[j].order != t[i].order && CompareBytes(t[j].id, t[i].id) < 0
        {
          Ordered(ns, p[j], p[i]);
        }
        assert t[i] == ns[p[i]];
      }
    }
  }

  lemma Ordered(ns: seq<Participant>, i: nat, j: nat)
    requires Apart(ns) && Before(ById(), ns, i, j)
    ensures ns[i].order != ns[j].order && CompareBytes(ns[i].id, ns[j].id) < 0
  {
    CompareBytesAntisymmetric(ns[i].id, ns[j].id);
    assert i != j;
    assert if i < j then ns[i].id != ns[j].id && ns[i].order != ns[j].order
           else ns[j].id != ns[i].id && ns[j].order != ns[i].order;
  }

  lemma NormalFits(ps: seq<ParticipantInput>, fs: seq<FieldInput>)
    requires ParticipantsValid(ps, fs)
    ensures Apart(NormalOf(ps, fs)) && forall i :: 0 <= i < |ps| ==> Holdable(NormalOf(ps, fs)[i], |fs|)
  {
    var ns := NormalOf(ps, fs);
    forall i | 0 <= i < |ps|
      ensures Holdable(ns[i], |fs|) && PlainText(ps[i].id) && ns[i].order == ps[i].order
    {
      assert ParticipantNew(ps, fs, i);
    }
    forall i, j | 0 <= i < j < |ps|
      ensures ns[i].id != ns[j].id && ns[i].order != ns[j].order
    {
      assert ParticipantNew(ps, fs, j);
      if ns[i].id == ns[j].id { CodeInjective(ps[i].id, ps[j].id); }
    }
  }

  /** normalizeParticipants; its last loop never finds a repeated id. */
  method NormalizeParticipants(ps: seq<ParticipantInput>, fs: seq<FieldInput>) returns (r: Result<seq<Participant>>)
    requires forall i :: FieldValid(fs, i)
    ensures r.Ok? <==> ParticipantsValid(ps, fs)
    ensures r.Ok? ==> r.value == Sort(ById(), NormalOf(ps, fs))
  {
    if |ps| == 0 {
      return Err;
    }
    var ids: set<string>, orders: set<int> := {}, {};
    for i := 0 to |ps|
      invariant ParticipantsSeen(ps, i, ids, orders) && forall k :: k < i ==> ParticipantNew(ps, fs, k)
    {
      ParticipantSeenNext(ps, i, ids, orders);
      var ok := CheckParticipant(ps[i], fs);
      if !ok || ps[i].id in ids || ps[i].order in orders {
        assert !ParticipantNew(ps, fs, i);
        return Err;
      }
      ids, orders := ids + {ps[i].id}, orders + {ps[i].order};
    }
    assert forall i :: ParticipantNew(ps, fs, i);
    var sorted := Sort(ById(), NormalOf(ps, fs));
    NormalFits(ps, fs);
    SortedRanked(NormalOf(ps, fs), |fs|);
    for i := 1 to |sorted| {
      assert RankedOk(sorted, |fs|, i);
      CompareBytesAntisymmetric(sorted[i - 1].id, sorted[i].id);
      if sorted[i - 1].id == sorted[i].id {
        return Err;
      }
    }
    r := Ok(sorted);
  }

  // ---------------------------------------------------------------- the artifact

  const FORMULA: string := "composite_rank_desc"
  const SCORING_VERSION: string := "vre_composite_rank_v1"

  function WinnersFor(c: Config): int {
    if c.winners.Some? then c.winners.value else 1
  }

  function PayoutFor(c: Config): int {
    if c.payout.Some? then c.payout.value else 3
  }

  /** 46 bytes of header, 37 a field, 67 and 8 a value for each participant. */
  function BuiltLength(c: Config): int {
    HEADER_BYTES + FIELD_BYTES * |c.fields| + |c.participants| * ParticipantWidth(|c.fields|)
  }

  /** What the builder demands of its input. */
  ghost predicate Buildable(c: Config) {
    && c.formula == FORMULA && (c.scoringVersion.Some? ==> c.scoringVersion.value == SCORING_VERSION)
    && c.mode in {"none", "min_max"}
    && FieldsValid(c.fields) && ParticipantsValid(c.participants, c.fields)
    && 0 < c.input <= MAX_U64 && 0 <= PayoutFor(c) <= MAX_U64
    && 1 <= WinnersFor(c) <= |c.participants| && WinnersFor(c) <= OutcomeFormat.MAX_WINNERS
    && BuiltLength(c) <= OutcomeFormat.MAX_ARTIFACT_BYTES
  }

  function Clamp(x: int): nat {
    if x < 0 then 0 else x
  }

  function HeadFor(c: Config): Head {
    Head(Clamp(c.input), Clamp(c.input), Clamp(WinnersFor(c)), if c.mode == "none" then 0 else 1,
         |c.fields| % 256, |c.participants|, Clamp(PayoutFor(c)))
  }

  /** The fields in their given order, the participants sorted by id. */
  function ArtifactFor(c: Config): Artifact {
    Artifact(HeadFor(c), SpecsOf(c.fields), Sort(ById(), NormalOf(c.participants, c.fields)))
  }

  lemma BuiltWellFormed(c: Config)
    requires Buildable(c)
    ensures WellFormed(ArtifactFor(c)) && |Layout(ArtifactFor(c))| == BuiltLength(c)
  {
    SpecsFit(c.fields);
    NormalFits(c.participants, c.fields);
    SortedRanked(NormalOf(c.participants, c.fields), |c.fields|);
    ManyParticipants(|c.participants|, |c.fields|);
    LayoutPieces(ArtifactFor(c));
  }

  lemma ManyParticipants(n: nat, fieldCount: nat)
    ensures n * 67 <= n * ParticipantWidth(fieldCount)
  {
    assert n * ParticipantWidth(fieldCount) == n * 67 + 8 * (n * fieldCount);
  }

  method WriteFields(ss: seq<FieldSpec>) returns (parts: bytes)
    ensures parts == Concat(EncodedFields(ss))
  {
    var cs: seq<bytes> := [];
    for i := 0 to |ss|
      invariant cs == EncodedFields(ss)[..i]
    {
      cs := cs + [EncodeField(ss[i])];
    }
    assert EncodedFields(ss)[..|ss|] == EncodedFields(ss);
    parts := Concat(cs);
  }

  method WriteParticipants(ps: seq<Participant>) returns (parts: bytes)
    ensures parts == Concat(EncodedParticipants(ps))
  {
    var cs: seq<bytes> := [];
    for i := 0 to |ps|
      invariant cs == EncodedParticipants(ps)[..i]
    {
      cs := cs + [EncodeParticipant(ps[i])];
    }
    assert EncodedParticipants(ps)[..|ps|] == EncodedParticipants(ps);
    parts := Concat(cs);
  }

  /** buildCompositeRankDescArtifact: succeeds exactly on the configurations it checks. */
  method Build(c: Config) returns (r: Result<bytes>)
    ensures r.Ok? <==> Buildable(c)
    ensures r.Ok? ==> r.value == Layout(ArtifactFor(c))
  {
    if c.formula != FORMULA || (c.scoringVersion.Some? && c.scoringVersion.value != SCORING_VERSION) {
      return Err;
    }
    var fields := ValidateFieldSpecs(c.fields);
    if fields.Err? {
      return Err;
    }
    var participants := NormalizeParticipants(c.participants, c.fields);
    if participants.Err? || c.input <= 0 || c.input > MAX_U64 || PayoutFor(c) < 0 || PayoutFor(c) > MAX_U64 {
      return Err;
    }
    var winners := WinnersFor(c);
    if winners <= 0 || winners > |participants.value| || winners > OutcomeFormat.MAX_WINNERS {
      return Err;
    }
    if BuiltLength(c) > OutcomeFormat.MAX_ARTIFACT_BYTES || c.mode !in {"none", "min_max"} {
      return Err;
    }
    var fieldPart := WriteFields(fields.value);
    var participantPart := WriteParticipants(participants.value);
    r := Ok(HeadBytes(HeadFor(c)) + fieldPart + participantPart);
  }

  /** Parse after build: whatever the builder writes is accepted, and the parse is the configuration
      with its participants sorted by id. */
  lemma ParseAfterBuild(c: Config)
    requires Buildable(c)
    ensures Accepts(Layout(ArtifactFor(c))) && ArtifactOf(Layout(ArtifactFor(c))) == ArtifactFor(c)
  {
    BuiltWellFormed(c);
    LayoutParses(ArtifactFor(c));
  }

  // ---------------------------------------------------------------- the demands and the result, by the configuration

  ghost predicate KeyRules(key: string) {
    && 1 <= |key| <= 32 && 'a' <= key[0] <= 'z'
    && forall k :: 0 <= k < |key| ==> 'a' <= key[k] <= 'z' || '0' <= key[k] <= '9' || key[k] == '_'
  }

  ghost predicate FieldRules(fs: seq<FieldInput>, i: int) {
    0 <= i < |fs| ==>
      && KeyRules(fs[i].key) && 1 <= fs[i].weight <= 0xffff_ffff
      && forall j :: 0 <= j < i ==> fs[j].key != fs[i].key
  }

  ghost predicate IsKey(fs: seq<FieldInput>, key: string) {
    exists k :: 0 <= k < |fs| && fs[k].key == key
  }

  ghost predicate ParticipantRules(ps: seq<ParticipantInput>, fs: seq<FieldInput>, i: int) {
    0 <= i < |ps| ==>
      var p := ps[i];
      && 1 <= |p.id| <= 64 && (forall k :: 0 <= k < |p.id| ==> 32 <= p.id[k] as int <= 126)
      && 0 <= p.order <= 0xffff
      && (forall key :: key in p.fields <==> IsKey(fs, key))
      && (forall key :: key in p.fields ==> -0x8000_0000_0000_0000 <= p.fields[key] < 0x8000_0000_0000_0000)
      && forall j :: 0 <= j < i ==> ps[j].id != p.id && ps[j].order != p.order
  }

  ghost function WeightSum(fs: seq<FieldInput>, n: nat): int
    requires n <= |fs|
  {
    if n == 0 then 0 else WeightSum(fs, n - 1) + fs[n - 1].weight
  }

  ghost predicate HeadRules(c: Config) {
    && c.formula == "composite_rank_desc"
    && (c.scoringVersion.Some? ==> c.scoringVersion.value == "vre_composite_rank_v1")
    && (c.mode == "none" || c.mode == "min_max")
    && 1 <= c.input <= 0xffff_ffff_ffff_ffff && (c.payout.Some? ==> 0 <= c.payout.value <= 0xffff_ffff_ffff_ffff)
    && (c.winners.Some? ==> 1 <= c.winners.value <= |c.participants| && c.winners.value <= 32)
  }

  /** The builder's demands on the configuration's own terms. */
  lemma BuildableByRules(c: Config)
    ensures Buildable(c) <==>
              && HeadRules(c) && 1 <= |c.fields| <= 16 && 1 <= |c.participants|
              && (forall i :: FieldRules(c.fields, i)) && WeightSum(c.fields, |c.fields|) == 1000000
              && (forall i :: ParticipantRules(c.participants, c.fields, i))
              && 46 + 37 * |c.fields| + |c.participants| * (67 + 8 * |c.fields|) <= 8192
  {
    forall i
      ensures FieldValid(c.fields, i) <==> FieldRules(c.fields, i)
      ensures ParticipantNew(c.participants, c.fields, i) <==> ParticipantRules(c.participants, c.fields, i)
    {
      FieldByRules(c.fields, i);
      ParticipantByRules(c.participants, c.fields, i);
    }
    WeightsSummed(c.fields, |c.fields|);
    assert InputWeights(c.fields)[..|c.fields|] == InputWeights(c.fields);
  }

  lemma {:induction false} WeightsSummed(fs: seq<FieldInput>, n: nat)
    requires n <= |fs|
    ensures CompositeRank.Sum(InputWeights(fs)[..n]) == WeightSum(fs, n)
  {
    if n > 0 {
      WeightsSummed(fs, n - 1);
      CompositeRank.SumStep(InputWeights(fs), n - 1);
    }
  }

  lemma FieldByRules(fs: seq<FieldInput>, i: int)
    ensures FieldValid(fs, i) <==> FieldRules(fs, i)
  {
    if 0 <= i < |fs| && FieldValid(fs, i) {
      forall k | 0 <= k < |fs[i].key|
        ensures var x := fs[i].key[k]; 'a' <= x <= 'z' || '0' <= x <= '9' || x == '_'
      {
        assert KeyChar(fs[i].key[k]);
      }
    }
  }

  lemma ParticipantByRules(ps: seq<ParticipantInput>, fs: seq<FieldInput>, i: int)
    ensures ParticipantNew(ps, fs, i) <==> ParticipantRules(ps, fs, i)
  {
    if 0 <= i < |ps| {
      var p := ps[i];
      Limits();
      if p.fields.Keys == KeySet(fs) {
        forall key | key in p.fields
          ensures IsKey(fs, key)
        {
          assert key in p.fields.Keys;
        }
        assert forall key :: IsKey(fs, key) ==> key in p.fields.Keys;
        if ParticipantValid(p, fs) {
          forall key | key in p.fields
            ensures -0x8000_0000_0000_0000 <= p.fields[key] < 0x8000_0000_0000_0000
          {
            var k :| 0 <= k < |fs| && fs[k].key == key;
          }
        }
      }
      if forall key :: key in p.fields <==> IsKey(fs, key) {
        forall key
          ensures key in p.fields.Keys <==> key in KeySet(fs)
        {
          assert key in p.fields <==> IsKey(fs, key);
        }
        assert p.fields.Keys == KeySet(fs);
      }
    }
  }

  /** The header says what the configuration says, with the defaults of what it leaves out. */
  ghost predicate HeadSays(c: Config, h: Head) {
    && h.minInput == c.input && h.maxInput == c.input
    && h.mode == (if c.mode == "min_max" then 1 else 0)
    && h.winners == (if c.winners.Some? then c.winners.value else 1)
    && h.payout == (if c.payout.Some? then c.payout.value else 3)
    && h.fieldCount == |c.fields| && h.n == |c.participants|
  }

  ghost predicate FieldsSay(c: Config, ss: seq<FieldSpec>) {
    && |ss| == |c.fields|
    && forall k :: 0 <= k < |ss| ==> Text(ss[k].key) == c.fields[k].key && ss[k].weight == c.fields[k].weight
  }

  /** The participant says what participant i of the configuration says. */
  ghost predicate ParticipantSays(c: Config, i: nat, q: Participant) {
    && i < |c.participants|
    && var p := c.participants[i];
       && Text(q.id) == p.id && q.order == p.order && |q.values| == |c.fields|
       && forall k :: 0 <= k < |c.fields| ==> c.fields[k].key in p.fields && q.values[k] == p.fields[c.fields[k].key]
  }

  /** One participant for each configured one, and nobody else, strictly sorted by id. */
  ghost predicate ParticipantsSay(c: Config, qs: seq<Participant>, p: seq<nat>) {
    && |p| == |qs| == |c.participants|
    && (forall n: nat :: n < |c.participants| ==> n in p)
    && (forall i :: 0 <= i < |p| ==> ParticipantSays(c, p[i], qs[i]))
    && (forall i, j :: 0 <= i < j < |p| ==> CompareBytes(qs[i].id, qs[j].id) < 0)
  }

  /** The parse of what is built, in terms of the configuration: participant p[i] comes i-th. */
  lemma BuiltContent(c: Config) returns (a: Artifact, p: seq<nat>)
    requires Buildable(c)
    ensures Accepts(Layout(ArtifactFor(c))) && a == ArtifactOf(Layout(ArtifactFor(c)))
    ensures HeadSays(c, a.h) && FieldsSay(c, a.fields) && ParticipantsSay(c, a.participants, p)
  {
    ParseAfterBuild(c);
    a := ArtifactFor(c);
    forall k | 0 <= k < |c.fields|
      ensures Text(a.fields[k].key) == c.fields[k].key && a.fields[k].weight == c.fields[k].weight
    {
      assert FieldValid(c.fields, k);
      KeyCoded(c.fields[k].key);
      TextOfCode(c.fields[k].key);
    }
    p := ParticipantsBuilt(c);
  }

  lemma ParticipantsBuilt(c: Config) returns (p: seq<nat>)
    requires Buildable(c)
    ensures ParticipantsSay(c, ArtifactFor(c).participants, p)
  {
    var ns := NormalOf(c.participants, c.fields);
    ByIdConsistent();
    NormalFits(c.participants, c.fields);
    p := SortArranges(ById(), ns);
    forall i | 0 <= i < |p|
      ensures ParticipantSays(c, p[i], ns[p[i]])
    {
      assert ParticipantNew(c.participants, c.fields, p[i]);
      TextOfCode(c.participants[p[i]].id);
    }
    forall i, j | 0 <= i < j < |p|
      ensures CompareBytes(ns[p[i]].id, ns[p[j]].id) < 0
    {
      assert Before(ById(), ns, p[i], p[j]);
      Ordered(ns, p[i], p[j]);
    }
  }
}
