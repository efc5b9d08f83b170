/** The binary format 8 of composite rankings (sdk/composite_rank_desc.ts): builder layout and parser. */
module CompositeFormat {
  import opened Wrappers
  import opened Bytes
  import opened EntryTable
  import CompositeRank
  import OutcomeFormat

  const FORMAT_VERSION: nat := 8
  const FORMULA_CODE: byte := 6
  const HEADER_BYTES: nat := 46
  const KEY_FIELD: nat := 32
  const FIELD_BYTES: nat := 37
  const MAX_FIELDS: nat := 16
  const SCALE: nat := 1000000

  datatype FieldSpec = FieldSpec(key: bytes, weight: nat)
  datatype Participant = Participant(id: bytes, order: nat, values: seq<int>)

  datatype Head = Head(minInput: nat, maxInput: nat, winners: nat, mode: byte, fieldCount: byte, n: nat, payout: nat)

  datatype Artifact = Artifact(h: Head, fields: seq<FieldSpec>, participants: seq<Participant>)

  // ---------------------------------------------------------------- field specifications

  function PadKey(key: bytes): (f: bytes)
    ensures |f| == KEY_FIELD && forall i :: 0 <= i < KEY_FIELD ==> f[i] == if i < |key| then key[i] else 0
  {
    seq(KEY_FIELD, i requires 0 <= i < KEY_FIELD => if i < |key| then key[i] else 0)
  }

  function EncodeField(f: FieldSpec): (c: bytes)
    ensures |c| == FIELD_BYTES
  {
    [|f.key| % 256] + PadKey(f.key) + LE(f.weight, 4)
  }

  /** A declared key length that fits, and zero padding behind it. */
  predicate FieldChunkOk(c: bytes)
    requires |c| == FIELD_BYTES
  {
    1 <= c[0] <= KEY_FIELD && forall i :: 1 + c[0] <= i < 1 + KEY_FIELD ==> c[i] == 0
  }

  /** The key is the decoded text of its bytes, which loses their high bits. */
  function DecodeField(c: bytes): FieldSpec
    requires |c| == FIELD_BYTES
  {
    FieldSpec(Ascii(if c[0] <= KEY_FIELD then c[1..1 + c[0]] else []), FromLE(c[33..37]))
  }

  /** /^[a-z][a-z0-9_]{0,31}$/ */
  predicate KeyOk(key: bytes) {
    && 1 <= |key| <= KEY_FIELD && 97 <= key[0] <= 122
    && forall i :: 0 <= i < |key| ==> 97 <= key[i] <= 122 || 48 <= key[i] <= 57 || key[i] == 95
  }

  /** The same chunk with the high bits of its key dropped. */
  function PlainField(c: bytes): (d: bytes)
    requires |c| == FIELD_BYTES
    ensures |d| == FIELD_BYTES
  {
    [c[0]] + Ascii(c[1..33]) + c[33..37]
  }

  lemma KeyPadded(c: bytes)
    requires |c| == FIELD_BYTES && FieldChunkOk(c)
    ensures PadKey(DecodeField(c).key) == Ascii(c[1..33])
  {
    var key := DecodeField(c).key;
    forall i | 0 <= i < KEY_FIELD
      ensures PadKey(key)[i] == Ascii(c[1..33])[i]
    {
      assert c[1..33][i] == c[1 + i];
    }
  }

  lemma FieldRebuilt(c: bytes)
    requires |c| == FIELD_BYTES && FieldChunkOk(c)
    ensures EncodeField(DecodeField(c)) == PlainField(c)
    ensures DecodeField(c).weight < 0x1_0000_0000 && 1 <= |DecodeField(c).key| <= KEY_FIELD
  {
    Limits();
    KeyPadded(c);
    FieldBytes(c, 33, 4);
  }

  lemma FieldParts(a: byte, b: bytes, d: bytes)
    requires |b| == KEY_FIELD && |d| == 4
    ensures var c := [a] + b + d; c[0] == a && c[1..33] == b && c[33..37] == d && forall i :: 0 <= i < KEY_FIELD ==> c[1 + i] == b[i]
  {}

  lemma KeyReads(key: bytes, c: bytes)
    requires KeyOk(key) && |c| == FIELD_BYTES && c[0] == |key|
    requires forall i :: 0 <= i < KEY_FIELD ==> c[1 + i] == PadKey(key)[i]
    ensures FieldChunkOk(c) && c[1..1 + |key|] == key && Ascii(key) == key
  {
    forall i | 1 + |key| <= i < 1 + KEY_FIELD
      ensures c[i] == 0
    {
      assert c[1 + (i - 1)] == PadKey(key)[i - 1];
    }
    forall i | 0 <= i < |key|
      ensures c[1..1 + |key|][i] == key[i]
    {
      assert c[1 + i] == PadKey(key)[i];
    }
    AsciiPlain(key);
  }

  lemma FieldReads(f: FieldSpec)
    requires KeyOk(f.key) && f.weight < 0x1_0000_0000
    ensures FieldChunkOk(EncodeField(f)) && DecodeField(EncodeField(f)) == f
  {
    Limits();
    FieldParts(|f.key|, PadKey(f.key), LE(f.weight, 4));
    FromLEOfLE(f.weight, 4);
    KeyReads(f.key, EncodeField(f));
  }

  // ---------------------------------------------------------------- participants

  function ValueChunks(vs: seq<int>): (cs: seq<bytes>)
    ensures |cs| == |vs| && forall k :: 0 <= k < |vs| ==> cs[k] == I64(vs[k])
  {
    seq(|vs|, k requires 0 <= k < |vs| => I64(vs[k]))
  }

  function ParticipantWidth(fieldCount: nat): nat {
    67 + 8 * fieldCount
  }

  function EncodeParticipant(p: Participant): bytes {
    [|p.id| % 256] + Pad(p.id) + LE(p.order, 2) + Concat(ValueChunks(p.values))
  }

  predicate ParticipantChunkOk(c: bytes)
    requires 67 <= |c|
  {
    && 1 <= c[0] <= MAX_ID
    && (forall i :: 1 <= i < 1 + c[0] ==> 32 <= c[i] <= 126)
    && (forall i :: 1 + c[0] <= i < 1 + ID_FIELD ==> c[i] == 0)
  }

  function ValueAt(c: bytes, k: nat): int
    requires 75 + 8 * k <= |c|
  {
    FromSignedLE(c[67 + 8 * k..75 + 8 * k])
  }

  function ReadValues(c: bytes, fieldCount: nat): (vs: seq<int>)
    requires |c| == ParticipantWidth(fieldCount)
    ensures |vs| == fieldCount && forall k :: 0 <= k < fieldCount ==> vs[k] == ValueAt(c, k)
  {
    seq(fieldCount, k requires 0 <= k < fieldCount => ValueAt(c, k))
  }

  function DecodeParticipant(c: bytes, fieldCount: nat): Participant
    requires |c| == ParticipantWidth(fieldCount)
  {
    Participant(if c[0] <= MAX_ID then c[1..1 + c[0]] else [], FromLE(c[65..67]), ReadValues(c, fieldCount))
  }

  predicate IdOk(id: bytes) {
    1 <= |id| <= MAX_ID && forall i :: 0 <= i < |id| ==> 32 <= id[i] <= 126
  }

  /** The field values a participant record can hold. */
  ghost predicate Holdable(p: Participant, fieldCount: nat) {
    && IdOk(p.id) && p.order < 0x1_0000 && |p.values| == fieldCount
    && forall k :: 0 <= k < fieldCount ==> FitsSigned(p.values[k], 8)
  }

  lemma ValuesRebuilt(c: bytes, fieldCount: nat)
    requires |c| == ParticipantWidth(fieldCount)
    ensures Concat(ValueChunks(ReadValues(c, fieldCount))) == c[67..]
    ensures forall k :: 0 <= k < fieldCount ==> FitsSigned(ReadValues(c, fieldCount)[k], 8)
  {
    var vs, s := ReadValues(c, fieldCount), c[67..];
    forall k | 0 <= k < fieldCount
      ensures ValueChunks(vs)[k] == s[k * 8..k * 8 + 8] && FitsSigned(vs[k], 8)
    {
      SignedBytes(c, 67 + 8 * k);
      SubSlice(c, 67, |c|, 8 * k, 8 * k + 8);
      assert c[67..|c|] == s;
    }
    ConcatOfCuts(s, ValueChunks(vs), 8);
  }

  lemma IdPadded(c: bytes, fieldCount: nat)
    requires |c| == ParticipantWidth(fieldCount) && ParticipantChunkOk(c)
    ensures Pad(DecodeParticipant(c, fieldCount).id) == c[1..65] && IdOk(DecodeParticipant(c, fieldCount).id)
  {}

  lemma ParticipantRebuilt(c: bytes, fieldCount: nat)
    requires |c| == ParticipantWidth(fieldCount) && ParticipantChunkOk(c)
    ensures EncodeParticipant(DecodeParticipant(c, fieldCount)) == c && Holdable(DecodeParticipant(c, fieldCount), fieldCount)
  {
    Limits();
    IdPadded(c, fieldCount);
    ValuesRebuilt(c, fieldCount);
    FieldBytes(c, 65, 2);
    ParticipantJoin(c);
  }

  lemma ParticipantJoin(c: bytes)
    requires 67 <= |c|
    ensures [c[0]] + c[1..65] + c[65..67] + c[67..] == c
  {}

  lemma ParticipantParts(a: byte, b: bytes, c: bytes, d: bytes)
    requires |b| == 64 && |c| == 2
    ensures var s := [a] + b + c + d;
            s[0] == a && s[1..65] == b && s[65..67] == c && s[67..] == d && forall i :: 0 <= i < 64 ==> s[1 + i] == b[i]
  {}

  lemma EncodedWidth(p: Participant)
    ensures |EncodeParticipant(p)| == ParticipantWidth(|p.values|)
  {
    FixedWidth(ValueChunks(p.values), 8);
  }

  lemma ValuesRead(p: Participant, fieldCount: nat)
    requires Holdable(p, fieldCount)
    ensures |EncodeParticipant(p)| == ParticipantWidth(fieldCount)
    ensures ReadValues(EncodeParticipant(p), fieldCount) == p.values
  {
    var c, cs := EncodeParticipant(p), ValueChunks(p.values);
    EncodedWidth(p);
    ParticipantParts(|p.id|, Pad(p.id), LE(p.order, 2), Concat(cs));
    ValuesBehind(c, 67, cs, p.values);
  }

  lemma ValuesBehind(c: bytes, at: nat, cs: seq<bytes>, vs: seq<int>)
    requires at == 67 && cs == ValueChunks(vs) && at <= |c| && c[at..] == Concat(cs)
    requires forall k :: 0 <= k < |vs| ==> FitsSigned(vs[k], 8)
    ensures |c| == ParticipantWidth(|vs|) && ReadValues(c, |vs|) == vs
  {
    FixedWidth(cs, 8);
    forall k | 0 <= k < |vs|
      ensures ValueAt(c, k) == vs[k]
    {
      FixedChunkAt(cs, 8, k);
      DropSlice(c, 67, k * 8, k * 8 + 8);
      FromSignedOfSigned(vs[k], 8);
    }
  }

  lemma DropSlice(s: bytes, at: nat, i: nat, j: nat)
    requires at <= |s| && i <= j <= |s| - at
    ensures s[at..][i..j] == s[at + i..at + j]
  {
    assert forall k :: 0 <= k < j - i ==> s[at..][i..j][k] == s[at + i..at + j][k];
  }

  lemma ParticipantReads(p: Participant, fieldCount: nat)
    requires Holdable(p, fieldCount)
    ensures |EncodeParticipant(p)| == ParticipantWidth(fieldCount)
    ensures ParticipantChunkOk(EncodeParticipant(p)) && DecodeParticipant(EncodeParticipant(p), fieldCount) == p
  {
    Limits();
    var c := EncodeParticipant(p);
    ValuesRead(p, fieldCount);
    ParticipantParts(|p.id|, Pad(p.id), LE(p.order, 2), Concat(ValueChunks(p.values)));
    FromLEOfLE(p.order, 2);
    IdReads(c, p.id);
  }

  lemma IdReads(c: bytes, id: bytes)
    requires 67 <= |c| && IdOk(id) && c[0] == |id| && forall i :: 0 <= i < ID_FIELD ==> c[1 + i] == Pad(id)[i]
    ensures ParticipantChunkOk(c) && c[1..1 + |id|] == id
  {
    forall i | 1 <= i < 1 + ID_FIELD
      ensures c[i] == if i - 1 < |id| then id[i - 1] else 0
    {
      assert c[1 + (i - 1)] == Pad(id)[i - 1];
    }
  }

  // ---------------------------------------------------------------- the two tables

  /** Chunks of one width. */
  ghost predicate Uniform(cs: seq<bytes>, w: nat) {
    forall i :: 0 <= i < |cs| ==> |cs[i]| == w
  }

  function FieldOf(c: bytes): FieldSpec {
    if |c| == FIELD_BYTES then DecodeField(c) else FieldSpec([], 0)
  }

  function FieldsOf(cs: seq<bytes>): (fs: seq<FieldSpec>)
    ensures |fs| == |cs| && forall i :: 0 <= i < |cs| ==> fs[i] == FieldOf(cs[i])
  {
    seq(|cs|, i requires 0 <= i < |cs| => FieldOf(cs[i]))
  }

  function Weights(fs: seq<FieldSpec>): (ws: seq<nat>)
    ensures |ws| == |fs| && forall i :: 0 <= i < |fs| ==> ws[i] == fs[i].weight
  {
    seq<nat>(|fs|, i requires 0 <= i < |fs| => fs[i].weight)
  }

  /** The checks on field i: chunk, key, weight, and a key not seen before. */
  ghost predicate FieldAt(cs: seq<bytes>, i: int) {
    0 <= i < |cs| ==>
      && |cs[i]| == FIELD_BYTES && FieldChunkOk(cs[i])
      && KeyOk(FieldOf(cs[i]).key) && 0 < FieldOf(cs[i]).weight
      && forall j :: 0 <= j < i ==> FieldOf(cs[j]).key != FieldOf(cs[i]).key
  }

  ghost predicate FieldsOk(cs: seq<bytes>) {
    (forall i :: FieldAt(cs, i)) && CompositeRank.Sum(Weights(FieldsOf(cs))) == SCALE
  }

  function ParticipantOf(c: bytes, fieldCount: nat): Participant {
    if |c| == ParticipantWidth(fieldCount) then DecodeParticipant(c, fieldCount) else Participant([], 0, [])
  }

  function ParticipantsOf(cs: seq<bytes>, fieldCount: nat): (ps: seq<Participant>)
    ensures |ps| == |cs| && forall i :: 0 <= i < |cs| ==> ps[i] == ParticipantOf(cs[i], fieldCount)
  {
    seq(|cs|, i requires 0 <= i < |cs| => ParticipantOf(cs[i], fieldCount))
  }

  /** The checks on participant i: chunk, strictly sorted ids, and an order not seen before. */
  ghost predicate ParticipantAt(cs: seq<bytes>, fieldCount: nat, i: int) {
    0 <= i < |cs| ==>
      && |cs[i]| == ParticipantWidth(fieldCount) && ParticipantChunkOk(cs[i])
      && (0 < i ==> CompareBytes(ParticipantOf(cs[i - 1], fieldCount).id, ParticipantOf(cs[i], fieldCount).id) < 0)
      && forall j :: 0 <= j < i ==> ParticipantOf(cs[j], fieldCount).order != ParticipantOf(cs[i], fieldCount).order
  }

  ghost predicate ParticipantsOk(cs: seq<bytes>, fieldCount: nat) {
    forall i :: ParticipantAt(cs, fieldCount, i)
  }

  /** seenFieldKeys holds exactly the keys read so far. */
  ghost predicate SeenKeys(cs: seq<bytes>, i: nat, seen: set<bytes>) {
    i <= |cs| && forall key :: key in seen <==> exists j :: 0 <= j < i && FieldOf(cs[j]).key == key
  }

  lemma SeenKeysNext(cs: seq<bytes>, i: nat, seen: set<bytes>)
    requires i < |cs| && SeenKeys(cs, i, seen)
    ensures SeenKeys(cs, i + 1, seen + {FieldOf(cs[i]).key})
    ensures FieldOf(cs[i]).key in seen <==> !(forall j :: 0 <= j < i ==> FieldOf(cs[j]).key != FieldOf(cs[i]).key)
  {}

  method CheckField(cs: seq<bytes>, i: nat, seen: set<bytes>) returns (ok: bool)
    requires Uniform(cs, FIELD_BYTES) && i < |cs| && SeenKeys(cs, i, seen)
    ensures ok <==> FieldAt(cs, i)
  {
    SeenKeysNext(cs, i, seen);
    if !FieldChunkOk(cs[i]) || !KeyOk(FieldOf(cs[i]).key) || FieldOf(cs[i]).key in seen {
      return false;
    }
    ok := FieldOf(cs[i]).weight > 0;
  }

  /** The loop state after i fields. */
  ghost predicate FieldsRead(cs: seq<bytes>, i: nat, seen: set<bytes>, weightSum: nat) {
    && SeenKeys(cs, i, seen) && (forall k :: k < i ==> FieldAt(cs, k))
    && weightSum == CompositeRank.Sum(Weights(FieldsOf(cs))[..i])
  }

  method ReadField(cs: seq<bytes>, i: nat, seen: set<bytes>, weightSum: nat) returns (ok: bool, seen': set<bytes>, sum: nat)
    requires Uniform(cs, FIELD_BYTES) && i < |cs| && FieldsRead(cs, i, seen, weightSum)
    ensures ok <==> FieldAt(cs, i)
    ensures ok ==> FieldsRead(cs, i + 1, seen', sum)
  {
    ok := CheckField(cs, i, seen);
    SeenKeysNext(cs, i, seen);
    CompositeRank.SumStep(Weights(FieldsOf(cs)), i);
    seen' := seen + {FieldOf(cs[i]).key};
    sum := weightSum + FieldOf(cs[i]).weight;
  }

  /** The loop over the field specifications, one chunk a turn. */
  method ReadFields(cs: seq<bytes>) returns (r: Result<seq<FieldSpec>>)
    requires Uniform(cs, FIELD_BYTES)
    ensures r.Ok? <==> FieldsOk(cs)
    ensures r.Ok? ==> r.value == FieldsOf(cs)
  {
    var seen: set<bytes>, weightSum: nat := {}, 0;
    for i := 0 to |cs|
      invariant FieldsRead(cs, i, seen, weightSum)
    {
      var ok, seen', sum := ReadField(cs, i, seen, weightSum);
      if !ok {
        return Err;
      }
      seen, weightSum := seen', sum;
    }
    assert Weights(FieldsOf(cs))[..|cs|] == Weights(FieldsOf(cs));
    if weightSum != SCALE {
      return Err;
    }
    r := Ok(FieldsOf(cs));
  }

  /** seenOrders holds exactly the orders read so far. */
  ghost predicate SeenOrders(cs: seq<bytes>, fieldCount: nat, i: nat, seen: set<nat>) {
    i <= |cs| && forall o :: o in seen <==> exists j :: 0 <= j < i && ParticipantOf(cs[j], fieldCount).order == o
  }

  lemma SeenOrdersNext(cs: seq<bytes>, fieldCount: nat, i: nat, seen: set<nat>)
    requires i < |cs| && SeenOrders(cs, fieldCount, i, seen)
    ensures SeenOrders(cs, fieldCount, i + 1, seen + {ParticipantOf(cs[i], fieldCount).order})
    ensures ParticipantOf(cs[i], fieldCount).order in seen <==>
            !(forall j :: 0 <= j < i ==> ParticipantOf(cs[j], fieldCount).order != ParticipantOf(cs[i], fieldCount).order)
  {}

  method CheckParticipant(cs: seq<bytes>, fieldCount: nat, i: nat, seen: set<nat>) returns (ok: bool)
    requires Uniform(cs, ParticipantWidth(fieldCount)) && i < |cs| && SeenOrders(cs, fieldCount, i, seen)
    ensures ok <==> ParticipantAt(cs, fieldCount, i)
  {
    SeenOrdersNext(cs, fieldCount, i, seen);
    if !ParticipantChunkOk(cs[i]) {
      return false;
    }
    if i > 0 && CompareBytes(ParticipantOf(cs[i - 1], fieldCount).id, ParticipantOf(cs[i], fieldCount).id) >= 0 {
      return false;
    }
    ok := ParticipantOf(cs[i], fieldCount).order !in seen;
  }

  /** The loop over the participants, one chunk a turn. */
  method ReadParticipants(cs: seq<bytes>, fieldCount: nat) returns (r: Result<seq<Participant>>)
    requires Uniform(cs, ParticipantWidth(fieldCount))
    ensures r.Ok? <==> ParticipantsOk(cs, fieldCount)
    ensures r.Ok? ==> r.value == ParticipantsOf(cs, fieldCount)
  {
    var seen: set<nat> := {};
    for i := 0 to |cs|
      invariant forall k :: k < i ==> ParticipantAt(cs, fieldCount, k)
      invariant SeenOrders(cs, fieldCount, i, seen)
    {
      var ok := CheckParticipant(cs, fieldCount, i, seen);
      if !ok {
        return Err;
      }
      SeenOrdersNext(cs, fieldCount, i, seen);
      seen := seen + {ParticipantOf(cs[i], fieldCount).order};
    }
    r := Ok(ParticipantsOf(cs, fieldCount));
  }

  // ---------------------------------------------------------------- header

  function FrontPart(h: Head): (s: bytes)
    ensures |s| == 24
  {
    OutcomeFormat.MAGIC + LE(FORMAT_VERSION, 2) + LE(h.minInput, 8) + LE(h.maxInput, 8) + LE(h.winners, 2)
  }

  function BackPart(h: Head): (s: bytes)
    ensures |s| == 22
  {
    [FORMULA_CODE, h.mode, h.fieldCount, 0] + LE(SCALE, 4) + LE(SCALE, 4) + LE(h.n, 2) + LE(h.payout, 8)
  }

  function HeadBytes(h: Head): (s: bytes)
    ensures |s| == HEADER_BYTES
  {
    FrontPart(h) + BackPart(h)
  }

  predicate HeadInRange(h: Head) {
    && h.minInput < 0x1_0000_0000_0000_0000 && h.maxInput < 0x1_0000_0000_0000_0000 && h.winners < 0x1_0000
    && h.n < 0x1_0000 && h.payout < 0x1_0000_0000_0000_0000
  }

  predicate HeadChecks(h: Head) {
    && h.minInput <= h.maxInput && h.mode <= 1 && 1 <= h.fieldCount <= MAX_FIELDS && 1 <= h.n
    && 1 <= h.winners <= h.n && h.winners <= OutcomeFormat.MAX_WINNERS
  }

  function ReadHead(s: bytes): Head
    requires |s| == HEADER_BYTES
  {
    Head(FromLE(s[6..14]), FromLE(s[14..22]), FromLE(s[22..24]), s[25], s[26], FromLE(s[36..38]), FromLE(s[38..46]))
  }

  /** Magic as decoded, version, formula code, reserved byte and the two scales. */
  predicate Marked(s: bytes)
    requires |s| == HEADER_BYTES
  {
    && Ascii(s[0..4]) == OutcomeFormat.MAGIC && FromLE(s[4..6]) == FORMAT_VERSION
    && s[24] == FORMULA_CODE && s[27] == 0 && FromLE(s[28..32]) == SCALE && FromLE(s[32..36]) == SCALE
  }

  lemma FrontSlices(a: bytes, b: bytes, c: bytes, d: bytes, e: bytes, rest: bytes)
    requires |a| == 4 && |b| == 2 && |c| == 8 && |d| == 8 && |e| == 2
    ensures var s := a + b + c + d + e + rest;
            s[0..4] == a && s[4..6] == b && s[6..14] == c && s[14..22] == d && s[22..24] == e && s[24..] == rest
  {}

  lemma BackSlices(front: bytes, a: bytes, b: bytes, c: bytes, d: bytes, e: bytes)
    requires |front| == 24 && |a| == 4 && |b| == 4 && |c| == 4 && |d| == 2 && |e| == 8
    ensures var s := front + (a + b + c + d + e);
            && s[24] == a[0] && s[25] == a[1] && s[26] == a[2] && s[27] == a[3]
            && s[28..32] == b && s[32..36] == c && s[36..38] == d && s[38..46] == e
  {}

  lemma HeadRead(h: Head)
    requires HeadInRange(h)
    ensures Marked(HeadBytes(h)) && ReadHead(HeadBytes(h)) == h
  {
    Limits();
    FrontSlices(OutcomeFormat.MAGIC, LE(FORMAT_VERSION, 2), LE(h.minInput, 8), LE(h.maxInput, 8), LE(h.winners, 2), BackPart(h));
    BackSlices(FrontPart(h), [FORMULA_CODE, h.mode, h.fieldCount, 0], LE(SCALE, 4), LE(SCALE, 4), LE(h.n, 2), LE(h.payout, 8));
    AsciiPlain(OutcomeFormat.MAGIC);
    FromLEOfLE(FORMAT_VERSION, 2);
    FromLEOfLE(h.minInput, 8);
    FromLEOfLE(h.maxInput, 8);
    FromLEOfLE(h.winners, 2);
    FromLEOfLE(SCALE, 4);
    FromLEOfLE(h.n, 2);
    FromLEOfLE(h.payout, 8);
  }

  lemma FrontRebuilt(s: bytes)
    requires |s| == HEADER_BYTES && Marked(s)
    ensures FrontPart(ReadHead(s)) == OutcomeFormat.MAGIC + s[4..24]
    ensures ReadHead(s).minInput < 0x1_0000_0000_0000_0000 && ReadHead(s).maxInput < 0x1_0000_0000_0000_0000
    ensures ReadHead(s).winners < 0x1_0000
  {
    Limits();
    FieldBytes(s, 4, 2);
    FieldBytes(s, 6, 8);
    FieldBytes(s, 14, 8);
    FieldBytes(s, 22, 2);
    FrontJoin(s);
  }

  lemma FrontJoin(s: bytes)
    requires |s| == HEADER_BYTES
    ensures OutcomeFormat.MAGIC + s[4..6] + s[6..14] + s[14..22] + s[22..24] == OutcomeFormat.MAGIC + s[4..24]
  {}

  lemma BackRebuilt(s: bytes)
    requires |s| == HEADER_BYTES && Marked(s)
    ensures BackPart(ReadHead(s)) == s[24..46]
    ensures ReadHead(s).n < 0x1_0000 && ReadHead(s).payout < 0x1_0000_0000_0000_0000
  {
    Limits();
    FieldBytes(s, 28, 4);
    FieldBytes(s, 32, 4);
    FieldBytes(s, 36, 2);
    FieldBytes(s, 38, 8);
    BackJoin(s);
  }

  lemma BackJoin(s: bytes)
    requires |s| == HEADER_BYTES
    ensures [s[24], s[25], s[26], s[27]] + s[28..32] + s[32..36] + s[36..38] + s[38..46] == s[24..46]
  {}

  lemma HeadRebuilt(s: bytes)
    requires |s| == HEADER_BYTES && Marked(s)
    ensures HeadBytes(ReadHead(s)) == OutcomeFormat.MAGIC + s[4..46] && HeadInRange(ReadHead(s))
  {
    FrontRebuilt(s);
    BackRebuilt(s);
    HeadJoin(OutcomeFormat.MAGIC, s);
  }

  lemma HeadJoin(a: bytes, s: bytes)
    requires |s| == HEADER_BYTES
    ensures a + s[4..24] + s[24..46] == a + s[4..46]
  {}

  // ---------------------------------------------------------------- parser

  function FieldsEnd(h: Head): nat {
    HEADER_BYTES + FIELD_BYTES * h.fieldCount
  }

  /** The size the header announces. */
  function ExpectedLength(h: Head): (n: nat)
    ensures FieldsEnd(h) <= n && n - FieldsEnd(h) == h.n * ParticipantWidth(h.fieldCount)
  {
    MulLe(0, h.n, ParticipantWidth(h.fieldCount));
    FieldsEnd(h) + h.n * ParticipantWidth(h.fieldCount)
  }

  function FieldChunks(blob: bytes, h: Head): (cs: seq<bytes>)
    requires |blob| == ExpectedLength(h)
    ensures |cs| == h.fieldCount && Uniform(cs, FIELD_BYTES)
  {
    Cut(blob[HEADER_BYTES..FieldsEnd(h)], h.fieldCount, FIELD_BYTES)
  }

  function ParticipantChunks(blob: bytes, h: Head): (cs: seq<bytes>)
    requires |blob| == ExpectedLength(h)
    ensures |cs| == h.n && Uniform(cs, ParticipantWidth(h.fieldCount))
  {
    Cut(blob[FieldsEnd(h)..], h.n, ParticipantWidth(h.fieldCount))
  }

  predicate HeadAccepted(blob: bytes) {
    && HEADER_BYTES <= |blob| <= OutcomeFormat.MAX_ARTIFACT_BYTES
    && Marked(blob[..HEADER_BYTES]) && HeadChecks(ReadHead(blob[..HEADER_BYTES]))
  }

  ghost predicate BodyAccepted(blob: bytes, h: Head) {
    && |blob| == ExpectedLength(h)
    && FieldsOk(FieldChunks(blob, h)) && ParticipantsOk(ParticipantChunks(blob, h), h.fieldCount)
  }

  ghost predicate Accepts(blob: bytes) {
    HeadAccepted(blob) && BodyAccepted(blob, ReadHead(blob[..HEADER_BYTES]))
  }

  ghost function BodyOf(blob: bytes, h: Head): Artifact
    requires |blob| == ExpectedLength(h)
  {
    Artifact(h, FieldsOf(FieldChunks(blob, h)), ParticipantsOf(ParticipantChunks(blob, h), h.fieldCount))
  }

  ghost function ArtifactOf(blob: bytes): Artifact
    requires Accepts(blob)
  {
    BodyOf(blob, ReadHead(blob[..HEADER_BYTES]))
  }

  method ParseBody(blob: bytes, h: Head) returns (r: Result<Artifact>)
    ensures r.Ok? <==> BodyAccepted(blob, h)
    ensures r.Ok? ==> r.value == BodyOf(blob, h)
  {
    if ExpectedLength(h) != |blob| {
      return Err;
    }
    var fields := ReadFields(FieldChunks(blob, h));
    if fields.Err? {
      return Err;
    }
    var participants := ReadParticipants(ParticipantChunks(blob, h), h.fieldCount);
    if participants.Err? {
      return Err;
    }
    r := Ok(Artifact(h, fields.value, participants.value));
  }

  /** parseCompositeRankDescArtifact. */
  method Parse(blob: bytes) returns (r: Result<Artifact>)
    ensures r.Ok? <==> Accepts(blob)
    ensures r.Ok? ==> r.value == ArtifactOf(blob)
  {
    if !HeadAccepted(blob) {
      return Err;
    }
    r := ParseBody(blob, ReadHead(blob[..HEADER_BYTES]));
  }

  // ---------------------------------------------------------------- layout

  function EncodedFields(fs: seq<FieldSpec>): (cs: seq<bytes>)
    ensures |cs| == |fs| && forall i :: 0 <= i < |fs| ==> cs[i] == EncodeField(fs[i])
  {
    seq(|fs|, i requires 0 <= i < |fs| => EncodeField(fs[i]))
  }

  function EncodedParticipants(ps: seq<Participant>): (cs: seq<bytes>)
    ensures |cs| == |ps| && forall i :: 0 <= i < |ps| ==> cs[i] == EncodeParticipant(ps[i])
  {
    seq(|ps|, i requires 0 <= i < |ps| => EncodeParticipant(ps[i]))
  }

  /** What buildCompositeRankDescArtifact writes. */
  function Layout(a: Artifact): bytes {
    HeadBytes(a.h) + Concat(EncodedFields(a.fields)) + Concat(EncodedParticipants(a.participants))
  }

  ghost predicate SpecOk(fs: seq<FieldSpec>, i: int) {
    0 <= i < |fs| ==>
      && KeyOk(fs[i].key) && 0 < fs[i].weight < 0x1_0000_0000
      && forall j :: 0 <= j < i ==> fs[j].key != fs[i].key
  }

  ghost predicate RankedOk(ps: seq<Participant>, fieldCount: nat, i: int) {
    0 <= i < |ps| ==>
      && Holdable(ps[i], fieldCount)
      && (0 < i ==> CompareBytes(ps[i - 1].id, ps[i].id) < 0)
      && forall j :: 0 <= j < i ==> ps[j].order != ps[i].order
  }

  /** What an accepted artifact satisfies. */
  ghost predicate WellFormed(a: Artifact) {
    && HeadInRange(a.h) && HeadChecks(a.h) && |a.fields| == a.h.fieldCount && |a.participants| == a.h.n
    && (forall i :: SpecOk(a.fields, i)) && CompositeRank.Sum(Weights(a.fields)) == SCALE
    && (forall i :: RankedOk(a.participants, a.h.fieldCount, i))
  }

  // ---------------------------------------------------------------- layout, then parse

  lemma FieldTableReads(fs: seq<FieldSpec>, cs: seq<bytes>)
    requires cs == EncodedFields(fs) && forall i :: SpecOk(fs, i)
    ensures FieldsOf(cs) == fs && forall i :: FieldAt(cs, i)
  {
    forall i | 0 <= i < |fs|
      ensures FieldOf(cs[i]) == fs[i] && FieldChunkOk(cs[i])
    {
      assert SpecOk(fs, i);
      FieldReads(fs[i]);
    }
    forall i
      ensures FieldAt(cs, i)
    {
      assert SpecOk(fs, i);
    }
  }

  lemma ParticipantTableReads(ps: seq<Participant>, fieldCount: nat, cs: seq<bytes>)
    requires cs == EncodedParticipants(ps) && forall i :: RankedOk(ps, fieldCount, i)
    ensures Uniform(cs, ParticipantWidth(fieldCount))
    ensures ParticipantsOf(cs, fieldCount) == ps && ParticipantsOk(cs, fieldCount)
  {
    forall i | 0 <= i < |ps|
      ensures |cs[i]| == ParticipantWidth(fieldCount) && ParticipantOf(cs[i], fieldCount) == ps[i] && ParticipantChunkOk(cs[i])
    {
      assert RankedOk(ps, fieldCount, i);
      ParticipantReads(ps[i], fieldCount);
    }
    forall i
      ensures ParticipantAt(cs, fieldCount, i)
    {
      assert RankedOk(ps, fieldCount, i);
    }
  }

  /** A string that is the concatenation of chunks of one width is cut back into them. */
  lemma CutsBack(s: bytes, cs: seq<bytes>, n: nat, w: nat)
    requires |cs| == n && Uniform(cs, w) && s == Concat(cs)
    ensures |s| == n * w && Cut(s, n, w) == cs
  {
    FixedWidth(cs, w);
    ConcatCut(s, n, w);
    ConcatInjective(cs, Cut(s, n, w), w);
  }

  lemma LayoutPieces(a: Artifact)
    requires WellFormed(a)
    ensures var blob, h := Layout(a), a.h;
            && |blob| == ExpectedLength(h) && HEADER_BYTES <= FieldsEnd(h) <= |blob|
            && blob[..HEADER_BYTES] == HeadBytes(h)
            && blob[HEADER_BYTES..FieldsEnd(h)] == Concat(EncodedFields(a.fields))
            && blob[FieldsEnd(h)..] == Concat(EncodedParticipants(a.participants))
  {
    ParticipantTableReads(a.participants, a.h.fieldCount, EncodedParticipants(a.participants));
    FixedWidth(EncodedFields(a.fields), FIELD_BYTES);
    FixedWidth(EncodedParticipants(a.participants), ParticipantWidth(a.h.fieldCount));
    OutcomeFormat.ThreeParts(HeadBytes(a.h), Concat(EncodedFields(a.fields)), Concat(EncodedParticipants(a.participants)));
  }

  lemma LayoutBody(a: Artifact)
    requires WellFormed(a)
    ensures BodyAccepted(Layout(a), a.h) && BodyOf(Layout(a), a.h) == a
  {
    LayoutPieces(a);
    FieldTableReads(a.fields, EncodedFields(a.fields));
    ParticipantTableReads(a.participants, a.h.fieldCount, EncodedParticipants(a.participants));
    CutsBack(Concat(EncodedFields(a.fields)), EncodedFields(a.fields), a.h.fieldCount, FIELD_BYTES);
    CutsBack(Concat(EncodedParticipants(a.participants)), EncodedParticipants(a.participants), a.h.n, ParticipantWidth(a.h.fieldCount));
  }

  /** A well-formed artifact that fits parses back to itself. */
  lemma LayoutParses(a: Artifact)
    requires WellFormed(a) && |Layout(a)| <= OutcomeFormat.MAX_ARTIFACT_BYTES
    ensures Accepts(Layout(a)) && ArtifactOf(Layout(a)) == a
  {
    LayoutPieces(a);
    HeadRead(a.h);
    LayoutBody(a);
  }

  // ---------------------------------------------------------------- parse, then layout

  function PlainFields(cs: seq<bytes>): (ds: seq<bytes>)
    requires Uniform(cs, FIELD_BYTES)
    ensures |ds| == |cs| && forall i :: 0 <= i < |cs| ==> ds[i] == PlainField(cs[i])
  {
    seq(|cs|, i requires 0 <= i < |cs| => PlainField(cs[i]))
  }

  lemma FieldTableRebuilt(cs: seq<bytes>)
    requires Uniform(cs, FIELD_BYTES) && forall i :: FieldAt(cs, i)
    ensures EncodedFields(FieldsOf(cs)) == PlainFields(cs)
    ensures forall i :: SpecOk(FieldsOf(cs), i)
  {
    forall i | 0 <= i < |cs|
      ensures EncodedFields(FieldsOf(cs))[i] == PlainFields(cs)[i] && FieldOf(cs[i]).weight < 0x1_0000_0000
    {
      assert FieldAt(cs, i);
      FieldRebuilt(cs[i]);
    }
    forall i
      ensures SpecOk(FieldsOf(cs), i)
    {
      assert FieldAt(cs, i);
    }
  }

  lemma ParticipantTableRebuilt(cs: seq<bytes>, fieldCount: nat)
    requires Uniform(cs, ParticipantWidth(fieldCount)) && ParticipantsOk(cs, fieldCount)
    ensures EncodedParticipants(ParticipantsOf(cs, fieldCount)) == cs
    ensures forall i :: RankedOk(ParticipantsOf(cs, fieldCount), fieldCount, i)
  {
    forall i | 0 <= i < |cs|
      ensures EncodedParticipants(ParticipantsOf(cs, fieldCount))[i] == cs[i] && Holdable(ParticipantOf(cs[i], fieldCount), fieldCount)
    {
      assert ParticipantAt(cs, fieldCount, i);
      ParticipantRebuilt(cs[i], fieldCount);
    }
    forall i
      ensures RankedOk(ParticipantsOf(cs, fieldCount), fieldCount, i)
    {
      assert ParticipantAt(cs, fieldCount, i);
    }
  }

  /** The blob with the high bits of its magic and of its field keys dropped. */
  function Plain(blob: bytes, h: Head): bytes
    requires |blob| == ExpectedLength(h)
  {
    OutcomeFormat.MAGIC + blob[4..HEADER_BYTES] + Concat(PlainFields(FieldChunks(blob, h))) + blob[FieldsEnd(h)..]
  }

  lemma BodyRebuilt(blob: bytes, h: Head)
    requires BodyAccepted(blob, h)
    ensures Concat(EncodedFields(BodyOf(blob, h).fields)) == Concat(PlainFields(FieldChunks(blob, h)))
    ensures Concat(EncodedParticipants(BodyOf(blob, h).participants)) == blob[FieldsEnd(h)..]
    ensures HeadInRange(h) && HeadChecks(h) ==> WellFormed(BodyOf(blob, h))
  {
    FieldTableRebuilt(FieldChunks(blob, h));
    ParticipantTableRebuilt(ParticipantChunks(blob, h), h.fieldCount);
    ConcatCut(blob[FieldsEnd(h)..], h.n, ParticipantWidth(h.fieldCount));
  }

  lemma HeaderSlice(blob: bytes)
    requires HEADER_BYTES <= |blob|
    ensures blob[..HEADER_BYTES][4..46] == blob[4..HEADER_BYTES]
  {}

  /** An accepted blob is the layout of its parse, up to the high bits of its magic and its keys. */
  lemma AcceptedIsLayout(blob: bytes)
    requires Accepts(blob)
    ensures WellFormed(ArtifactOf(blob))
    ensures Layout(ArtifactOf(blob)) == Plain(blob, ReadHead(blob[..HEADER_BYTES]))
  {
    HeadRebuilt(blob[..HEADER_BYTES]);
    HeaderSlice(blob);
    BodyRebuilt(blob, ReadHead(blob[..HEADER_BYTES]));
  }

  // ---------------------------------------------------------------- how far the format bends

  /** The raw key field of a specification. */
  function KeyBytes(blob: bytes, h: Head, i: nat): bytes
    requires |blob| == ExpectedLength(h) && i < h.fieldCount
  {
    FieldChunks(blob, h)[i][1..33]
  }

  lemma SameFieldChunk(c: bytes, d: bytes)
    requires |c| == FIELD_BYTES == |d| && PlainField(c) == PlainField(d)
    ensures c == d <==> c[1..33] == d[1..33]
  {
    var p, q := PlainField(c), PlainField(d);
    assert p[0] == c[0] && q[0] == d[0];
    assert p[33..37] == c[33..37] && q[33..37] == d[33..37];
    assert c == [c[0]] + c[1..33] + c[33..37] && d == [d[0]] + d[1..33] + d[33..37];
  }

  lemma SameFieldTables(cs: seq<bytes>, ds: seq<bytes>)
    requires |cs| == |ds| && Uniform(cs, FIELD_BYTES) && Uniform(ds, FIELD_BYTES) && PlainFields(cs) == PlainFields(ds)
    ensures cs == ds <==> forall i :: 0 <= i < |cs| ==> cs[i][1..33] == ds[i][1..33]
  {
    forall i | 0 <= i < |cs|
      ensures cs[i] == ds[i] <==> cs[i][1..33] == ds[i][1..33]
    {
      assert PlainFields(cs)[i] == PlainFields(ds)[i];
      SameFieldChunk(cs[i], ds[i]);
    }
  }

  lemma PlainPieces(blob: bytes, h: Head)
    requires |blob| == ExpectedLength(h)
    ensures |Concat(PlainFields(FieldChunks(blob, h)))| == FieldsEnd(h) - HEADER_BYTES
    ensures var p := Plain(blob, h);
            && |p| == |blob| && p[4..HEADER_BYTES] == blob[4..HEADER_BYTES]
            && p[HEADER_BYTES..FieldsEnd(h)] == Concat(PlainFields(FieldChunks(blob, h)))
            && p[FieldsEnd(h)..] == blob[FieldsEnd(h)..]
  {
    FixedWidth(PlainFields(FieldChunks(blob, h)), FIELD_BYTES);
    PlainCuts(OutcomeFormat.MAGIC, blob[4..HEADER_BYTES], Concat(PlainFields(FieldChunks(blob, h))), blob[FieldsEnd(h)..]);
  }

  lemma PlainCuts(a: bytes, b: bytes, c: bytes, d: bytes)
    requires |a| == 4
    ensures var p := a + b + c + d;
            p[4..4 + |b|] == b && p[4 + |b|..4 + |b| + |c|] == c && p[4 + |b| + |c|..] == d
  {}

  lemma BlobPieces(blob: bytes, h: Head)
    requires |blob| == ExpectedLength(h)
    ensures blob == blob[..4] + blob[4..HEADER_BYTES] + Concat(FieldChunks(blob, h)) + blob[FieldsEnd(h)..]
  {
    ConcatCut(blob[HEADER_BYTES..FieldsEnd(h)], h.fieldCount, FIELD_BYTES);
    FourCuts(blob, 4, HEADER_BYTES, FieldsEnd(h));
  }

  lemma FourCuts(s: bytes, i: nat, j: nat, k: nat)
    requires i <= j <= k <= |s|
    ensures s == s[..i] + s[i..j] + s[j..k] + s[k..]
  {}

  /** Two accepted blobs with equal parses are equal exactly when their magic bytes and the raw bytes of
      their field keys are. */
  lemma EqualParses(a: bytes, b: bytes)
    requires Accepts(a) && Accepts(b) && ArtifactOf(a) == ArtifactOf(b)
    ensures var h := ReadHead(a[..HEADER_BYTES]);
            && |a| == ExpectedLength(h) == |b|
            && (a == b <==> a[..4] == b[..4] && forall i: nat :: i < h.fieldCount ==> KeyBytes(a, h, i) == KeyBytes(b, h, i))
  {
    var h := ReadHead(a[..HEADER_BYTES]);
    AcceptedIsLayout(a);
    AcceptedIsLayout(b);
    SamePlain(a, b, h);
  }

  lemma SamePlain(a: bytes, b: bytes, h: Head)
    requires |a| == ExpectedLength(h) == |b| && Plain(a, h) == Plain(b, h)
    ensures a == b <==> a[..4] == b[..4] && forall i: nat :: i < h.fieldCount ==> KeyBytes(a, h, i) == KeyBytes(b, h, i)
  {
    var cs, ds := FieldChunks(a, h), FieldChunks(b, h);
    PlainPieces(a, h);
    PlainPieces(b, h);
    ConcatInjective(PlainFields(cs), PlainFields(ds), FIELD_BYTES);
    SameFieldTables(cs, ds);
    BlobPieces(a, h);
    BlobPieces(b, h);
    assert (forall i: nat :: i < h.fieldCount ==> KeyBytes(a, h, i) == KeyBytes(b, h, i)) <==> cs == ds by {
      assert forall i: nat :: i < h.fieldCount ==> KeyBytes(a, h, i) == cs[i][1..33] && KeyBytes(b, h, i) == ds[i][1..33];
    }
  }

  lemma TwinField(c: bytes, d: bytes)
    requires |c| == FIELD_BYTES && FieldChunkOk(c) && d == Flip(c, 1)
    ensures FieldChunkOk(d) && DecodeField(d) == DecodeField(c)
  {
    assert d[33..37] == c[33..37];
    assert Ascii(d[1..1 + d[0]]) == Ascii(c[1..1 + c[0]]);
  }

  lemma TwinTable(cs: seq<bytes>, ds: seq<bytes>)
    requires FieldsOk(cs) && cs != [] && |cs[0]| == FIELD_BYTES && ds == cs[0 := Flip(cs[0], 1)]
    ensures FieldsOk(ds) && FieldsOf(ds) == FieldsOf(cs)
  {
    assert FieldAt(cs, 0);
    TwinField(cs[0], ds[0]);
    assert FieldsOf(ds) == FieldsOf(cs);
    forall i
      ensures FieldAt(ds, i)
    {
      assert FieldAt(cs, i);
    }
  }

  lemma TwinChunks(a: bytes, b: bytes, h: Head)
    requires |a| == ExpectedLength(h) && 1 <= h.fieldCount && b == Flip(a, 47)
    ensures |FieldChunks(a, h)[0]| == FIELD_BYTES
    ensures FieldChunks(b, h) == FieldChunks(a, h)[0 := Flip(FieldChunks(a, h)[0], 1)]
    ensures FieldChunks(a, h)[0][1] == a[47]
    ensures ParticipantChunks(b, h) == ParticipantChunks(a, h)
  {
    var s, t := a[HEADER_BYTES..FieldsEnd(h)], b[HEADER_BYTES..FieldsEnd(h)];
    assert t == Flip(s, 1);
    assert b[FieldsEnd(h)..] == a[FieldsEnd(h)..];
    forall i: nat | i < h.fieldCount
      ensures FieldChunks(b, h)[i] == (if i == 0 then Flip(FieldChunks(a, h)[0], 1) else FieldChunks(a, h)[i])
    {
      CutAt(s, h.fieldCount, FIELD_BYTES, i);
      CutAt(t, h.fieldCount, FIELD_BYTES, i);
    }
    CutAt(s, h.fieldCount, FIELD_BYTES, 0);
  }

  /** Field keys are compared as decoded text too: every accepted blob has a twin with another first
      key byte and the same parse. */
  lemma KeysBend(blob: bytes)
    requires Accepts(blob)
    ensures exists other :: other != blob && |other| == |blob| && other[..4] == blob[..4] && Accepts(other) && ArtifactOf(other) == ArtifactOf(blob)
  {
    var h := ReadHead(blob[..HEADER_BYTES]);
    var other := Flip(blob, 47);
    TwinChunks(blob, other, h);
    TwinTable(FieldChunks(blob, h), FieldChunks(other, h));
    assert other[..HEADER_BYTES] == blob[..HEADER_BYTES];
    assert other[..4] == blob[..4];
    assert other[47] != blob[47];
  }

  lemma TablesBehindMagic(blob: bytes, h: Head)
    requires |blob| == ExpectedLength(h)
    ensures FieldChunks(Flip(blob, 0), h) == FieldChunks(blob, h)
    ensures ParticipantChunks(Flip(blob, 0), h) == ParticipantChunks(blob, h)
  {
    FlipElsewhere(blob, 0, HEADER_BYTES, FieldsEnd(h));
    FlipTail(blob, 0, FieldsEnd(h));
  }

  /** The magic is decoded the same way: every accepted blob has a twin with another first byte and the
      same parse. */
  lemma MagicBends(blob: bytes)
    requires Accepts(blob)
    ensures Flip(blob, 0) != blob && Accepts(Flip(blob, 0)) && ArtifactOf(Flip(blob, 0)) == ArtifactOf(blob)
  {
    var other := Flip(blob, 0);
    assert other[..HEADER_BYTES] == Flip(blob[..HEADER_BYTES], 0);
    FlippedHead(blob[..HEADER_BYTES], other[..HEADER_BYTES]);
    TablesBehindMagic(blob, ReadHead(blob[..HEADER_BYTES]));
    assert other[0] != blob[0];
  }

  lemma FlippedHead(s: bytes, t: bytes)
    requires |s| == HEADER_BYTES && t == Flip(s, 0)
    ensures ReadHead(t) == ReadHead(s) && (Marked(s) ==> Marked(t))
  {
    assert forall i, j :: 1 <= i <= j <= |s| ==> t[i..j] == s[i..j];
    FlipDecodes(s, 4);
    assert t[..4] == t[0..4] && s[..4] == s[0..4];
  }

  // ---------------------------------------------------------------- the replay's input

  function RankedOf(ps: seq<Participant>): (qs: seq<CompositeRank.Participant>)
    ensures |qs| == |ps|
    ensures forall i :: 0 <= i < |ps| ==> qs[i] == CompositeRank.Participant(Text(ps[i].id), ps[i].order, ps[i].values)
  {
    seq(|ps|, i requires 0 <= i < |ps| => CompositeRank.Participant(Text(ps[i].id), ps[i].order, ps[i].values))
  }

  /** The parsed artifact as the replay sees it. Mode 0 ranks raw values, mode 1 normalised ones. */
  function ReplayInput(a: Artifact): CompositeRank.Artifact {
    CompositeRank.Artifact(if a.h.mode == 0 then CompositeRank.Plain else CompositeRank.MinMax,
                           Weights(a.fields), RankedOf(a.participants), a.h.winners)
  }

  /** replayCompositeRankDescArtifact from the bytes on: parse, then rank everybody and take the winners. */
  method ReplayBlob(blob: bytes) returns (r: Result<(seq<seq<char>>, seq<seq<char>>)>)
    ensures r.Ok? <==> Accepts(blob)
    ensures r.Ok? ==>
              var a := ReplayInput(ArtifactOf(blob));
              && |r.value.0| == |a.participants| && |r.value.1| == a.winnersCount
              && (exists p :: CompositeRank.RankedAt(a, r.value.0, p)) && exists p :: CompositeRank.RankedAt(a, r.value.1, p)
  {
    var parsed := Parse(blob);
    if parsed.Err? {
      return Err;
    }
    AcceptedIsLayout(blob);
    ParsedIsRankable(parsed.value);
    var orderedIds, winnerIds := CompositeRank.Replay(ReplayInput(parsed.value));
    r := Ok((orderedIds, winnerIds));
  }

  lemma {:induction false} IdsRise(ps: seq<Participant>, fieldCount: nat, i: nat, j: nat)
    requires (forall k :: RankedOk(ps, fieldCount, k)) && i < j < |ps|
    ensures CompareBytes(ps[i].id, ps[j].id) < 0
    decreases j
  {
    assert RankedOk(ps, fieldCount, j);
    if i < j - 1 {
      IdsRise(ps, fieldCount, i, j - 1);
      CompareBytesTransitive(ps[i].id, ps[j - 1].id, ps[j].id);
    }
  }

  /** The parser establishes everything the ranking results assume of an artifact. */
  lemma ParsedIsRankable(a: Artifact)
    requires WellFormed(a)
    ensures CompositeRank.Accepted(ReplayInput(a))
    ensures var b := ReplayInput(a);
            && (a.h.mode == 0 ==> b.mode.Plain?) && (a.h.mode == 1 ==> b.mode.MinMax?) && b.winnersCount == a.h.winners
            && |b.weights| == |a.fields| && (forall f :: 0 <= f < |b.weights| ==> b.weights[f] == a.fields[f].weight)
            && |b.participants| == |a.participants|
            && forall i :: 0 <= i < |b.participants| ==>
                 var p, q := b.participants[i], a.participants[i];
                 p.id == Text(q.id) && p.order == q.order && p.values == q.values
  {
    var b := ReplayInput(a);
    forall i | 0 <= i < |a.participants|
      ensures |b.participants[i].values| == |b.weights|
    {
      assert RankedOk(a.participants, a.h.fieldCount, i);
    }
    forall i: nat, j: nat | i < j < |a.participants|
      ensures b.participants[i].id != b.participants[j].id
    {
      IdsRise(a.participants, a.h.fieldCount, i, j);
      CompareBytesAntisymmetric(a.participants[i].id, a.participants[j].id);
      if Text(a.participants[i].id) == Text(a.participants[j].id) { TextInjective(a.participants[i].id, a.participants[j].id); }
    }
  }

  // ---------------------------------------------------------------- the format's rules on its bytes

  /** The text of a field key at a place, high bits dropped. */
  ghost function KeyText(blob: bytes, at: int): bytes {
    if 0 <= at && at + 33 <= |blob| && blob[at] <= 32 then Ascii(blob[at + 1..at + 1 + blob[at]]) else []
  }

  ghost function KeyAt(blob: bytes, i: int): bytes {
    KeyText(blob, 46 + 37 * i)
  }

  /** A letter first, then letters, digits and underscores. */
  ghost predicate KeyRule(key: bytes) {
    && key != [] && 97 <= key[0] <= 122
    && forall i :: 0 <= i < |key| ==> 97 <= key[i] <= 122 || 48 <= key[i] <= 57 || key[i] == 95
  }

  /** The rules on field i: a key of 1 to 32 characters, zero padding, a positive weight, and a key no
      earlier field has. */
  ghost predicate FieldRules(blob: bytes, fieldCount: nat, i: int) {
    0 <= i < fieldCount ==>
      var at := 46 + 37 * i;
      && at + 37 <= |blob| && 1 <= blob[at] <= 32
      && OutcomeFormat.Clear(blob, at + 1 + blob[at], at + 33)
      && KeyRule(KeyAt(blob, i)) && 0 < Num(blob, at + 33, 4)
      && forall j :: 0 <= j < i ==> KeyAt(blob, j) != KeyAt(blob, i)
  }

  /** The sum of the first n weights. */
  ghost function WeightSum(blob: bytes, n: nat): nat {
    if n == 0 then 0 else WeightSum(blob, n - 1) + Num(blob, 46 + 37 * (n - 1) + 33, 4)
  }

  ghost predicate NameRule(blob: bytes, at: int) {
    && 0 <= at && at + 67 <= |blob| && 1 <= blob[at] <= 64
    && PaddedName(blob[at], blob[at + 1..at + 65])
  }

  ghost function RankField(blob: bytes, off: nat, w: nat, j: int): nat {
    Num(blob, Start(off, w, j) + 65, 2)
  }

  /** The rules on participant i of a table at off: a printable padded identifier after that of its
      predecessor, and an order no earlier participant has. */
  ghost predicate ParticipantRules(blob: bytes, off: nat, w: nat, n: nat, i: int) {
    0 <= i < n ==>
      && NameRule(blob, Start(off, w, i))
      && (0 < i ==> Precedes(IdAt(blob, Start(off, w, i - 1)), IdAt(blob, Start(off, w, i))))
      && forall j :: 0 <= j < i ==> RankField(blob, off, w, j) != RankField(blob, off, w, i)
  }

  /** The rules of format 8, in bytes: a header of 46 bytes, fields of 37 bytes with weights that sum to a
      million, and participants of 67 bytes and 8 for each field. */
  ghost predicate Rules(blob: bytes) {
    && 46 <= |blob| <= 8192 && OutcomeFormat.MagicAt(blob) && Num(blob, 4, 2) == 8
    && Num(blob, 6, 8) <= Num(blob, 14, 8)
    && blob[24] == 6 && blob[25] <= 1 && 1 <= blob[26] <= 16 && blob[27] == 0
    && Num(blob, 28, 4) == 1000000 && Num(blob, 32, 4) == 1000000
    && 1 <= Num(blob, 22, 2) <= Num(blob, 36, 2) && Num(blob, 22, 2) <= 32
    && TableRules(blob, blob[26], Num(blob, 36, 2), 46 + 37 * (blob[26] as int), 67 + 8 * (blob[26] as int))
  }

  ghost predicate TableRules(blob: bytes, fieldCount: nat, n: nat, off: nat, w: nat) {
    && |blob| == off + n * w
    && (forall i :: FieldRules(blob, fieldCount, i)) && WeightSum(blob, fieldCount) == 1000000
    && forall i :: ParticipantRules(blob, off, w, n, i)
  }

  lemma HeadSlices(blob: bytes)
    requires 46 <= |blob|
    ensures var s := blob[..HEADER_BYTES];
            && s[0..4] == blob[..4] && s[4..6] == blob[4..6] && s[6..14] == blob[6..14] && s[14..22] == blob[14..22]
            && s[22..24] == blob[22..24] && s[24] == blob[24] && s[25] == blob[25] && s[26] == blob[26] && s[27] == blob[27]
            && s[28..32] == blob[28..32] && s[32..36] == blob[32..36] && s[36..38] == blob[36..38] && s[38..46] == blob[38..46]
  {}

  /** The header of a blob, in bytes. */
  lemma HeadContent(blob: bytes)
    requires 46 <= |blob|
    ensures var h := ReadHead(blob[..HEADER_BYTES]);
            && h.minInput == Num(blob, 6, 8) && h.maxInput == Num(blob, 14, 8) && h.winners == Num(blob, 22, 2)
            && h.mode == blob[25] && h.fieldCount == blob[26] && h.n == Num(blob, 36, 2) && h.payout == Num(blob, 38, 8)
    ensures Marked(blob[..HEADER_BYTES]) <==>
              && OutcomeFormat.MagicAt(blob) && Num(blob, 4, 2) == 8 && blob[24] == 6 && blob[27] == 0
              && Num(blob, 28, 4) == 1000000 && Num(blob, 32, 4) == 1000000
  {
    HeadSlices(blob);
    OutcomeFormat.MagicRule(blob);
  }

  lemma FieldChunkIs(blob: bytes, h: Head, i: nat)
    requires |blob| == ExpectedLength(h) && i < h.fieldCount
    ensures var at := 46 + 37 * i; at + 37 <= |blob| && FieldChunks(blob, h)[i] == blob[at..at + 37]
  {
    CutAt(blob[HEADER_BYTES..FieldsEnd(h)], h.fieldCount, FIELD_BYTES, i);
    SubSlice(blob, HEADER_BYTES, FieldsEnd(h), i * 37, i * 37 + 37);
  }

  /** What is read from a field chunk, in bytes. */
  lemma FieldContent(blob: bytes, at: nat)
    requires at + 37 <= |blob|
    ensures var c := blob[at..at + 37];
            && c[0] == blob[at] && DecodeField(c).weight == Num(blob, at + 33, 4)
            && (FieldChunkOk(c) <==> 1 <= blob[at] <= 32 && OutcomeFormat.Clear(blob, at + 1 + blob[at], at + 33))
            && (blob[at] <= 32 ==> DecodeField(c).key == KeyText(blob, at))
  {
    var c := blob[at..at + 37];
    SubSlice(blob, at, at + 37, 33, 37);
    forall i | 0 <= i < 37
      ensures c[i] == blob[at + i]
    {}
    if blob[at] <= 32 { SubSlice(blob, at, at + 37, 1, 1 + blob[at]); }
    if FieldChunkOk(c) {
      forall k | at + 1 + blob[at] <= k < at + 33
        ensures blob[k] == 0
      {
        assert c[k - at] == 0;
      }
    }
    if 1 <= blob[at] <= 32 && OutcomeFormat.Clear(blob, at + 1 + blob[at], at + 33) {
      forall i | 1 + c[0] <= i < 1 + KEY_FIELD
        ensures c[i] == 0
      {
        assert blob[at + i] == 0;
      }
    }
  }

  /** What chunk i of the field table is, in bytes. */
  ghost predicate FieldIs(blob: bytes, cs: seq<bytes>, i: nat) {
    var at := 46 + 37 * i;
    && i < |cs| && at + 37 <= |blob| && |cs[i]| == FIELD_BYTES && FieldOf(cs[i]).weight == Num(blob, at + 33, 4)
    && (FieldChunkOk(cs[i]) <==> 1 <= blob[at] <= 32 && OutcomeFormat.Clear(blob, at + 1 + blob[at], at + 33))
    && FieldOf(cs[i]).key == KeyAt(blob, i) && |KeyAt(blob, i)| <= 32
  }

  lemma FieldIsChunk(blob: bytes, h: Head, i: nat)
    requires |blob| == ExpectedLength(h) && i < h.fieldCount
    ensures FieldIs(blob, FieldChunks(blob, h), i)
  {
    FieldChunkIs(blob, h, i);
    FieldContent(blob, 46 + 37 * i);
  }

  lemma FieldByRules(blob: bytes, cs: seq<bytes>, i: nat)
    requires i < |cs| && forall j: nat :: j < |cs| ==> FieldIs(blob, cs, j)
    ensures FieldAt(cs, i) <==> FieldRules(blob, |cs|, i)
  {
    forall j: nat | j <= i
      ensures FieldOf(cs[j]).key == KeyAt(blob, j)
    {
      assert FieldIs(blob, cs, j);
    }
    assert FieldIs(blob, cs, i);
    assert KeyOk(KeyAt(blob, i)) <==> KeyRule(KeyAt(blob, i));
  }

  lemma {:induction false} WeightsByRules(blob: bytes, ws: seq<nat>, n: nat)
    requires n <= |ws| && forall j: nat :: j < |ws| ==> ws[j] == Num(blob, 46 + 37 * j + 33, 4)
    ensures CompositeRank.Sum(ws[..n]) == WeightSum(blob, n)
  {
    if n > 0 {
      WeightsByRules(blob, ws, n - 1);
      CompositeRank.SumStep(ws, n - 1);
    }
  }

  lemma FieldsByRules(blob: bytes, h: Head)
    requires |blob| == ExpectedLength(h)
    ensures FieldsOk(FieldChunks(blob, h)) <==>
              (forall i :: FieldRules(blob, h.fieldCount, i)) && WeightSum(blob, h.fieldCount) == 1000000
  {
    var cs := FieldChunks(blob, h);
    forall j: nat | j < |cs|
      ensures FieldIs(blob, cs, j)
    {
      FieldIsChunk(blob, h, j);
    }
    forall i
      ensures FieldAt(cs, i) <==> FieldRules(blob, h.fieldCount, i)
    {
      if 0 <= i < |cs| { FieldByRules(blob, cs, i); }
    }
    var ws := Weights(FieldsOf(cs));
    forall j: nat | j < |ws|
      ensures ws[j] == Num(blob, 46 + 37 * j + 33, 4)
    {
      assert FieldIs(blob, cs, j);
    }
    WeightsByRules(blob, ws, |cs|);
    assert ws[..|cs|] == ws;
  }

  lemma ParticipantChunkIs(blob: bytes, h: Head, off: nat, w: nat, i: nat)
    requires |blob| == ExpectedLength(h) && i < h.n && off == FieldsEnd(h) && w == ParticipantWidth(h.fieldCount)
    ensures var at := Start(off, w, i); 0 <= at && at + w <= |blob| && ParticipantChunks(blob, h)[i] == blob[at..at + w]
  {
    var tail := blob[off..];
    CutAt(tail, h.n, w, i);
    assert blob[off..|blob|] == tail;
    SubSlice(blob, off, |blob|, i * w, i * w + w);
  }

  /** Participant p lies at a place of the blob, in bytes. */
  ghost predicate ParticipantBytes(blob: bytes, at: int, fieldCount: nat, p: Participant) {
    && 0 <= at && at + 67 + 8 * fieldCount <= |blob| && |p.values| == fieldCount
    && p.id == IdAt(blob, at) && p.order == Num(blob, at + 65, 2)
    && forall k :: 0 <= k < fieldCount ==> p.values[k] == FromSignedLE(blob[at + 67 + 8 * k..at + 75 + 8 * k])
  }

  /** What chunk i of the participant table is, in bytes. */
  ghost predicate ParticipantIs(blob: bytes, cs: seq<bytes>, fieldCount: nat, off: nat, w: nat, i: nat) {
    && i < |cs| && |cs[i]| == ParticipantWidth(fieldCount) == w
    && (ParticipantChunkOk(cs[i]) <==> NameRule(blob, Start(off, w, i)))
    && ParticipantBytes(blob, Start(off, w, i), fieldCount, ParticipantOf(cs[i], fieldCount))
  }

  lemma ValuesContent(blob: bytes, at: nat, w: nat, fieldCount: nat, c: bytes)
    requires at + w <= |blob| && w == ParticipantWidth(fieldCount) && c == blob[at..at + w]
    ensures forall k :: 0 <= k < fieldCount ==> ReadValues(c, fieldCount)[k] == FromSignedLE(blob[at + 67 + 8 * k..at + 75 + 8 * k])
  {
    forall k | 0 <= k < fieldCount
      ensures ValueAt(c, k) == FromSignedLE(blob[at + 67 + 8 * k..at + 75 + 8 * k])
    {
      SubSlice(blob, at, at + w, 67 + 8 * k, 75 + 8 * k);
    }
  }

  lemma ParticipantContent(blob: bytes, at: nat, w: nat, fieldCount: nat, c: bytes)
    requires at + w <= |blob| && w == ParticipantWidth(fieldCount) && c == blob[at..at + w]
    ensures ParticipantChunkOk(c) <==> NameRule(blob, at)
    ensures ParticipantBytes(blob, at, fieldCount, DecodeParticipant(c, fieldCount))
  {
    assert c[0] == blob[at];
    SubSlice(blob, at, at + w, 1, 65);
    SubSlice(blob, at, at + w, 65, 67);
    if c[0] <= 64 { SubSlice(blob, at, at + w, 1, 1 + c[0]); }
    NameChecks(c, blob[at + 1..at + 65]);
    ValuesContent(blob, at, w, fieldCount, c);
  }

  lemma ParticipantIsChunk(blob: bytes, h: Head, off: nat, w: nat, i: nat)
    requires |blob| == ExpectedLength(h) && i < h.n && off == FieldsEnd(h) && w == ParticipantWidth(h.fieldCount)
    ensures ParticipantIs(blob, ParticipantChunks(blob, h), h.fieldCount, off, w, i)
  {
    ParticipantChunkIs(blob, h, off, w, i);
    ParticipantContent(blob, Start(off, w, i), w, h.fieldCount, ParticipantChunks(blob, h)[i]);
  }

  lemma NameChecks(c: bytes, field: bytes)
    requires 67 <= |c| && field == c[1..65]
    ensures ParticipantChunkOk(c) <==> 1 <= c[0] <= 64 && PaddedName(c[0], field)
  {
    forall k | 0 <= k < 64
      ensures field[k] == c[1 + k]
    {}
    if ParticipantChunkOk(c) {
      forall k | 0 <= k < c[0] && k < 64
        ensures 32 <= field[k] <= 126
      {
        assert 32 <= c[1 + k] <= 126;
      }
      forall k | c[0] <= k < 64
        ensures field[k] == 0
      {
        assert c[1 + k] == 0;
      }
    }
    if 1 <= c[0] <= 64 && PaddedName(c[0], field) {
      forall i | 1 <= i < 1 + c[0]
        ensures 32 <= c[i] <= 126
      {
        assert c[i] == field[i - 1];
      }
      forall i | 1 + c[0] <= i < 1 + ID_FIELD
        ensures c[i] == 0
      {
        assert c[i] == field[i - 1];
      }
    }
  }

  lemma ParticipantByRules(blob: bytes, cs: seq<bytes>, fieldCount: nat, off: nat, w: nat, i: nat)
    requires i < |cs| && forall j: nat :: j < |cs| ==> ParticipantIs(blob, cs, fieldCount, off, w, j)
    ensures ParticipantAt(cs, fieldCount, i) <==> ParticipantRules(blob, off, w, |cs|, i)
  {
    forall j: nat | j <= i
      ensures ParticipantOf(cs[j], fieldCount).order == RankField(blob, off, w, j)
    {
      assert ParticipantIs(blob, cs, fieldCount, off, w, j);
    }
    assert ParticipantIs(blob, cs, fieldCount, off, w, i);
    if 0 < i {
      assert ParticipantIs(blob, cs, fieldCount, off, w, i - 1);
      CompareBytesMeaning(ParticipantOf(cs[i - 1], fieldCount).id, ParticipantOf(cs[i], fieldCount).id);
    }
  }

  lemma ParticipantsByRules(blob: bytes, h: Head, off: nat, w: nat)
    requires |blob| == ExpectedLength(h) && off == FieldsEnd(h) && w == ParticipantWidth(h.fieldCount)
    ensures ParticipantsOk(ParticipantChunks(blob, h), h.fieldCount) <==> forall i :: ParticipantRules(blob, off, w, h.n, i)
  {
    var cs := ParticipantChunks(blob, h);
    forall j: nat | j < |cs|
      ensures ParticipantIs(blob, cs, h.fieldCount, off, w, j)
    {
      ParticipantIsChunk(blob, h, off, w, j);
    }
    forall i
      ensures ParticipantAt(cs, h.fieldCount, i) <==> ParticipantRules(blob, off, w, h.n, i)
    {
      if 0 <= i < |cs| { ParticipantByRules(blob, cs, h.fieldCount, off, w, i); }
    }
  }

  lemma BodyByRules(blob: bytes, h: Head, off: nat, w: nat)
    requires off == FieldsEnd(h) && w == ParticipantWidth(h.fieldCount)
    ensures BodyAccepted(blob, h) <==> TableRules(blob, h.fieldCount, h.n, off, w)
  {
    if |blob| == ExpectedLength(h) {
      FieldsByRules(blob, h);
      ParticipantsByRules(blob, h, off, w);
    }
  }

  /** The parser accepts exactly the blobs whose bytes follow the rules. */
  lemma AcceptsByRules(blob: bytes)
    ensures Accepts(blob) <==> Rules(blob)
  {
    if 46 <= |blob| {
      HeadContent(blob);
      var h := ReadHead(blob[..HEADER_BYTES]);
      BodyByRules(blob, h, FieldsEnd(h), ParticipantWidth(h.fieldCount));
    }
  }

  /** What the fields of an accepted blob are, in bytes. */
  lemma FieldsContent(blob: bytes, i: nat)
    requires Accepts(blob)
    ensures var fs := ArtifactOf(blob).fields;
            |fs| == blob[26] && (i < |fs| ==> fs[i] == FieldSpec(KeyText(blob, 46 + 37 * i), Num(blob, 46 + 37 * i + 33, 4)))
  {
    HeadContent(blob);
    var h := ReadHead(blob[..HEADER_BYTES]);
    if i < h.fieldCount { FieldIsChunk(blob, h, i); }
  }

  /** What the participants of an accepted blob are, in bytes. */
  lemma ParticipantsContent(blob: bytes, i: nat)
    requires Accepts(blob)
    ensures var a := ArtifactOf(blob);
            && |a.participants| == Num(blob, 36, 2)
            && (i < |a.participants| ==>
                  ParticipantBytes(blob, Start(46 + 37 * (blob[26] as int), 67 + 8 * (blob[26] as int), i), blob[26], a.participants[i]))
  {
    HeadContent(blob);
    var h := ReadHead(blob[..HEADER_BYTES]);
    if i < h.n {
      var off, w := FieldsEnd(h), ParticipantWidth(h.fieldCount);
      ParticipantIsChunk(blob, h, off, w, i);
    }
  }
}
