/** The W3O1 artifact formats 1, 2 and 3: layout (sdk/artifact.ts) and parser (sdk/verify.ts). */
module OutcomeFormat {
  import opened Wrappers
  import opened Bytes
  import opened EntryTable

  const MAGIC: bytes := [87, 51, 79, 49]
  const FORMAT_VERSION_V1: nat := 1
  const FORMAT_VERSION_V2: nat := 2
  const FORMAT_VERSION_V3: nat := 3
  const FORMAT_VERSION_V5: nat := 5
  const FORMAT_VERSION_COMPOSITE: nat := 8
  const MAX_WINNERS: nat := 32
  const MAX_ARTIFACT_BYTES: nat := 8192
  const FIXED_BYTES: nat := 26
  const EFFECT_BYTES: nat := 16
  const WEIGHTED_RANDOM: nat := 1

  datatype Head = Head(version: nat, minInput: nat, maxInput: nat, n: nat, m: nat, winners: nat, formula: nat, target: int)

  /** A parsed artifact: `effects` holds the lamports of each transfer. */
  datatype Artifact = Artifact(h: Head, outcomes: seq<Record>, effects: seq<nat>)

  function ShapeOf(version: nat): Shape {
    Shape(version == FORMAT_VERSION_V3, true)
  }

  /** Only format 1 lets effect slices overlap. */
  function SizesOf(h: Head): Sizes {
    Sizes(ShapeOf(h.version), h.n, h.m, h.version != FORMAT_VERSION_V1)
  }

  function HeadLength(version: nat): nat {
    if version == FORMAT_VERSION_V3 then 42 else 34
  }

  // ---------------------------------------------------------------- header

  function FixedPart(h: Head): (s: bytes)
    ensures |s| == FIXED_BYTES
  {
    MAGIC + LE(h.version, 2) + LE(h.minInput, 8) + LE(h.maxInput, 8) + LE(h.n, 2) + LE(h.m, 2)
  }

  function TailPart(h: Head): (s: bytes)
    ensures |s| == HeadLength(h.version) - FIXED_BYTES
  {
    if h.version == FORMAT_VERSION_V1 then Zeros(8)
    else if h.version == FORMAT_VERSION_V3 then LE(h.winners, 2) + [h.formula % 256] + Zeros(5) + I64(h.target)
    else LE(h.winners, 2) + Zeros(6)
  }

  function HeadBytes(h: Head): (s: bytes)
    ensures |s| == HeadLength(h.version)
  {
    FixedPart(h) + TailPart(h)
  }

  predicate HeadInRange(h: Head) {
    && FORMAT_VERSION_V1 <= h.version <= FORMAT_VERSION_V3
    && h.minInput < 0x1_0000_0000_0000_0000 && h.maxInput < 0x1_0000_0000_0000_0000
    && h.n < 0x1_0000 && h.m < 0x1_0000 && h.winners < 0x1_0000 && h.formula < 256 && FitsSigned(h.target, 8)
    && (h.version == FORMAT_VERSION_V1 ==> h.winners == 1)
    && (h.version != FORMAT_VERSION_V3 ==> h.formula == WEIGHTED_RANDOM && h.target == 0)
  }

  predicate HeadChecks(h: Head) {
    && h.minInput <= h.maxInput && 0 < h.n && 1 <= h.winners <= h.n && h.winners <= MAX_WINNERS
    && 1 <= h.formula <= 5
  }

  function Version(blob: bytes): nat
    requires 34 <= |blob|
  {
    FromLE(blob[4..6])
  }

  /** The tail of the header: winners, formula and target, with the defaults of older formats. */
  function ReadTail(version: nat, t: bytes): (nat, nat, int)
    requires |t| == HeadLength(version) - FIXED_BYTES
  {
    if version == FORMAT_VERSION_V1 then (1, WEIGHTED_RANDOM, 0)
    else if version == FORMAT_VERSION_V3 then (FromLE(t[0..2]), t[2], FromSignedLE(t[8..16]))
    else (FromLE(t[0..2]), WEIGHTED_RANDOM, 0)
  }

  predicate TailReserved(version: nat, t: bytes)
    requires |t| == HeadLength(version) - FIXED_BYTES
  {
    if version == FORMAT_VERSION_V1 then t == Zeros(8)
    else if version == FORMAT_VERSION_V3 then t[3..8] == Zeros(5)
    else t[2..8] == Zeros(6)
  }

  function ReadHead(blob: bytes): Head
    requires 34 <= |blob| && HeadLength(Version(blob)) <= |blob|
  {
    var version := Version(blob);
    var (winners, formula, target) := ReadTail(version, blob[FIXED_BYTES..HeadLength(version)]);
    Head(version, FromLE(blob[6..14]), FromLE(blob[14..22]), FromLE(blob[22..24]), FromLE(blob[24..26]), winners, formula, target)
  }

  lemma FixedParts(a: bytes, b: bytes, c: bytes, d: bytes, e: bytes, f: bytes)
    requires |a| == 4 && |b| == 2 && |c| == 8 && |d| == 8 && |e| == 2 && |f| == 2
    ensures var s := a + b + c + d + e + f;
            s[0..4] == a && s[4..6] == b && s[6..14] == c && s[14..22] == d && s[22..24] == e && s[24..26] == f
  {}

  lemma FixedRead(h: Head, s: bytes)
    requires HeadInRange(h) && s == FixedPart(h)
    ensures s[0..4] == MAGIC && FromLE(s[4..6]) == h.version
    ensures FromLE(s[6..14]) == h.minInput && FromLE(s[14..22]) == h.maxInput
    ensures FromLE(s[22..24]) == h.n && FromLE(s[24..26]) == h.m
  {
    Limits();
    FixedParts(MAGIC, LE(h.version, 2), LE(h.minInput, 8), LE(h.maxInput, 8), LE(h.n, 2), LE(h.m, 2));
    FromLEOfLE(h.version, 2);
    FromLEOfLE(h.minInput, 8);
    FromLEOfLE(h.maxInput, 8);
    FromLEOfLE(h.n, 2);
    FromLEOfLE(h.m, 2);
  }

  lemma TailParts(a: bytes, b: bytes, c: bytes, d: bytes)
    requires |a| == 2 && |b| == 1 && |c| == 5 && |d| == 8
    ensures var s := a + b + c + d; s[0..2] == a && s[2] == b[0] && s[3..8] == c && s[8..16] == d
  {}

  lemma TailRead(h: Head)
    requires HeadInRange(h)
    ensures ReadTail(h.version, TailPart(h)) == (h.winners, h.formula, h.target)
    ensures TailReserved(h.version, TailPart(h))
  {
    Limits();
    FromLEOfLE(h.winners, 2);
    if h.version == FORMAT_VERSION_V3 {
      TailParts(LE(h.winners, 2), [h.formula % 256], Zeros(5), I64(h.target));
      FromSignedOfSigned(h.target, 8);
    } else if h.version == FORMAT_VERSION_V2 {
      var t := TailPart(h);
      assert t[0..2] == LE(h.winners, 2) && t[2..8] == Zeros(6);
    }
  }

  lemma TailRebuilt(h: Head, t: bytes)
    requires FORMAT_VERSION_V1 <= h.version <= FORMAT_VERSION_V3
    requires |t| == HeadLength(h.version) - FIXED_BYTES && TailReserved(h.version, t)
    requires (h.winners, h.formula, h.target) == ReadTail(h.version, t)
    ensures TailPart(h) == t
    ensures h.winners < 0x1_0000 && h.formula < 256 && FitsSigned(h.target, 8)
    ensures h.version == FORMAT_VERSION_V1 ==> h.winners == 1
    ensures h.version != FORMAT_VERSION_V3 ==> h.formula == WEIGHTED_RANDOM && h.target == 0
  {
    Limits();
    FieldBytes(t, 0, 2);
    if h.version == FORMAT_VERSION_V3 {
      SignedBytes(t, 8);
      assert t == t[0..2] + [t[2]] + t[3..8] + t[8..16];
    } else if h.version == FORMAT_VERSION_V2 {
      assert t == t[0..2] + t[2..8];
    }
  }

  lemma FixedRebuilt(h: Head, s: bytes)
    requires |s| == FIXED_BYTES && s[0..4] == MAGIC
    requires h.version == FromLE(s[4..6]) && h.minInput == FromLE(s[6..14]) && h.maxInput == FromLE(s[14..22])
    requires h.n == FromLE(s[22..24]) && h.m == FromLE(s[24..26])
    ensures FixedPart(h) == s
    ensures h.minInput < 0x1_0000_0000_0000_0000 && h.maxInput < 0x1_0000_0000_0000_0000
    ensures h.n < 0x1_0000 && h.m < 0x1_0000
  {
    Limits();
    FieldBytes(s, 4, 2);
    FieldBytes(s, 6, 8);
    FieldBytes(s, 14, 8);
    FieldBytes(s, 22, 2);
    FieldBytes(s, 24, 2);
    FixedJoin(s);
  }

  lemma FixedJoin(s: bytes)
    requires |s| == FIXED_BYTES
    ensures s[0..4] + s[4..6] + s[6..14] + s[14..22] + s[22..24] + s[24..26] == s
  {}

  lemma HeadRead(h: Head, blob: bytes)
    requires HeadInRange(h) && HeadLength(h.version) <= |blob| && blob[..HeadLength(h.version)] == HeadBytes(h)
    ensures blob[..4] == MAGIC && Version(blob) == h.version && ReadHead(blob) == h
    ensures TailReserved(h.version, blob[FIXED_BYTES..HeadLength(h.version)])
  {
    var k := HeadLength(h.version);
    var s := blob[..FIXED_BYTES];
    assert s == blob[..k][..FIXED_BYTES] == FixedPart(h);
    FixedRead(h, s);
    HeadSlices(blob);
    assert blob[FIXED_BYTES..k] == blob[..k][FIXED_BYTES..] == TailPart(h);
    TailRead(h);
  }

  lemma HeadSlices(blob: bytes)
    requires FIXED_BYTES <= |blob|
    ensures var s := blob[..FIXED_BYTES];
            && s[0..4] == blob[..4] && s[4..6] == blob[4..6] && s[6..14] == blob[6..14] && s[14..22] == blob[14..22]
            && s[22..24] == blob[22..24] && s[24..26] == blob[24..26]
  {}

  lemma HeadRebuilt(blob: bytes)
    requires 34 <= |blob| && FORMAT_VERSION_V1 <= Version(blob) <= FORMAT_VERSION_V3 && HeadLength(Version(blob)) <= |blob|
    requires blob[..4] == MAGIC && TailReserved(Version(blob), blob[FIXED_BYTES..HeadLength(Version(blob))])
    ensures HeadBytes(ReadHead(blob)) == blob[..HeadLength(Version(blob))] && HeadInRange(ReadHead(blob))
  {
    var h, k := ReadHead(blob), HeadLength(Version(blob));
    HeadSlices(blob);
    FixedRebuilt(h, blob[..FIXED_BYTES]);
    TailRebuilt(h, blob[FIXED_BYTES..k]);
    assert blob[..FIXED_BYTES] + blob[FIXED_BYTES..k] == blob[..k];
  }

  // ---------------------------------------------------------------- effects

  function EffectBytes(amount: nat): (s: bytes)
    ensures |s| == EFFECT_BYTES
  {
    [1] + Zeros(7) + LE(amount, 8)
  }

  function EffectChunks(es: seq<nat>): (cs: seq<bytes>)
    ensures |cs| == |es| && forall k :: 0 <= k < |es| ==> cs[k] == EffectBytes(es[k])
  {
    seq(|es|, k requires 0 <= k < |es| => EffectBytes(es[k]))
  }

  function EffectsBytes(es: seq<nat>): bytes {
    Concat(EffectChunks(es))
  }

  ghost predicate AmountsInRange(es: seq<nat>) {
    forall k :: 0 <= k < |es| ==> es[k] < 0x1_0000_0000_0000_0000
  }

  /** Effect k of a table at off is a transfer with clear reserved bytes. */
  ghost predicate EffectAt(blob: bytes, off: nat, k: int) {
    0 <= k ==>
      var at := off + 16 * k;
      at + 16 <= |blob| && blob[at] == 1 && blob[at + 1..at + 8] == Zeros(7)
  }

  ghost predicate EffectsAt(blob: bytes, off: nat, m: nat) {
    off + 16 * m <= |blob| && forall k :: k < m ==> EffectAt(blob, off, k)
  }

  function AmountAt(blob: bytes, off: nat, k: nat): nat
    requires off + 16 * k + 16 <= |blob|
  {
    FromLE(blob[off + 16 * k + 8..off + 16 * k + 16])
  }

  function Amounts(blob: bytes, off: nat, m: nat): (es: seq<nat>)
    requires off + 16 * m <= |blob|
    ensures |es| == m && forall k :: 0 <= k < m ==> es[k] == AmountAt(blob, off, k)
  {
    seq(m, k requires 0 <= k < m => AmountAt(blob, off, k))
  }

  method ParseEffects(blob: bytes, off: nat, m: nat) returns (r: Result<seq<nat>>)
    ensures r.Ok? <==> EffectsAt(blob, off, m)
    ensures r.Ok? ==> r.value == Amounts(blob, off, m)
  {
    var effects: seq<nat>, at := [], off;
    for index := 0 to m
      invariant at == off + 16 * index && (at <= |blob| || index == 0)
      invariant forall k :: k < index ==> EffectAt(blob, off, k)
      invariant |effects| == index
      invariant forall k :: 0 <= k < index ==> off + 16 * k + 16 <= |blob| && effects[k] == AmountAt(blob, off, k)
    {
      if at + 16 > |blob| || blob[at] != 1 || blob[at + 1..at + 8] != Zeros(7) {
        assert !EffectAt(blob, off, index);
        return Err;
      }
      effects := effects + [AmountAt(blob, off, index)];
      at := at + 16;
    }
    if at > |blob| {
      return Err;
    }
    r := Ok(effects);
  }

  lemma EffectParts(s: bytes, at: nat, a: nat)
    requires at + 16 <= |s| && s[at..at + 16] == EffectBytes(a)
    ensures s[at] == 1 && s[at + 1..at + 8] == Zeros(7) && s[at + 8..at + 16] == LE(a, 8)
  {
    var c := EffectBytes(a);
    assert s[at..at + 16][0] == c[0];
    SubSlice(s, at, at + 16, 1, 8);
    SubSlice(s, at, at + 16, 8, 16);
    assert c[1..8] == Zeros(7) && c[8..16] == LE(a, 8);
  }

  /** Reading the effect table that was written. */
  lemma EffectsRead(blob: bytes, off: nat, es: seq<nat>)
    requires AmountsInRange(es) && off + 16 * |es| <= |blob|
    requires blob[off..off + 16 * |es|] == EffectsBytes(es)
    ensures EffectsAt(blob, off, |es|) && Amounts(blob, off, |es|) == es
  {
    forall k: nat | k < |es|
      ensures EffectAt(blob, off, k) && AmountAt(blob, off, k) == es[k]
    {
      Limits();
      FixedChunkAt(EffectChunks(es), 16, k);
      SubSlice(blob, off, off + 16 * |es|, 16 * k, 16 * k + 16);
      EffectParts(blob, off + 16 * k, es[k]);
      FromLEOfLE(es[k], 8);
    }
  }

  lemma EffectRebuilt(blob: bytes, off: nat, k: nat)
    requires EffectAt(blob, off, k)
    ensures var at := off + 16 * k; at + 16 <= |blob| && EffectBytes(AmountAt(blob, off, k)) == blob[at..at + 16]
    ensures AmountAt(blob, off, k) < 0x1_0000_0000_0000_0000
  {
    Limits();
    var at := off + 16 * k;
    FieldBytes(blob, at + 8, 8);
    assert blob[at..at + 16] == [blob[at]] + blob[at + 1..at + 8] + blob[at + 8..at + 16];
  }

  lemma EffectsRebuilt(blob: bytes, off: nat, m: nat)
    requires EffectsAt(blob, off, m)
    ensures EffectsBytes(Amounts(blob, off, m)) == blob[off..off + 16 * m]
    ensures AmountsInRange(Amounts(blob, off, m))
  {
    var es, s := Amounts(blob, off, m), blob[off..off + 16 * m];
    forall k | 0 <= k < m
      ensures EffectChunks(es)[k] == s[k * 16..k * 16 + 16] && es[k] < 0x1_0000_0000_0000_0000
    {
      assert EffectAt(blob, off, k);
      EffectRebuilt(blob, off, k);
      SubSlice(blob, off, off + 16 * m, 16 * k, 16 * k + 16);
    }
    ConcatOfCuts(s, EffectChunks(es), 16);
  }

  // ---------------------------------------------------------------- parser

  ghost predicate AllReferenced(m: nat, rs: seq<Record>) {
    forall e :: 0 <= e < m ==> Referenced(rs, e)
  }

  /** What an accepted artifact satisfies. */
  ghost predicate WellFormed(a: Artifact) {
    && HeadInRange(a.h) && HeadChecks(a.h)
    && |a.outcomes| == a.h.n && |a.effects| == a.h.m
    && AllInRange(ShapeOf(a.h.version), a.outcomes) && TableOk(SizesOf(a.h), a.outcomes)
    && AllReferenced(a.h.m, a.outcomes) && AmountsInRange(a.effects)
  }

  function Layout(a: Artifact): bytes {
    HeadBytes(a.h) + TableBytes(ShapeOf(a.h.version), a.outcomes) + EffectsBytes(a.effects)
  }

  /** Length, magic, version and header checks. */
  predicate HeadAccepted(blob: bytes) {
    && 34 <= |blob| <= MAX_ARTIFACT_BYTES && Ascii(blob[..4]) == MAGIC
    && FORMAT_VERSION_V1 <= Version(blob) <= FORMAT_VERSION_V3 && HeadLength(Version(blob)) <= |blob|
    && TailReserved(Version(blob), blob[FIXED_BYTES..HeadLength(Version(blob))])
    && HeadChecks(ReadHead(blob))
  }

  function EffectsOffset(h: Head): nat {
    MulLe(0, h.n, Width(ShapeOf(h.version)));
    HeadLength(h.version) + h.n * Width(ShapeOf(h.version))
  }

  /** The checks after the header. */
  ghost predicate BodyAccepted(blob: bytes, h: Head) {
    var off := HeadLength(h.version);
    && TableFits(blob, off, SizesOf(h)) && TableOk(SizesOf(h), TableAt(blob, off, SizesOf(h)))
    && EffectsAt(blob, EffectsOffset(h), h.m) && |blob| == EffectsOffset(h) + 16 * h.m
    && AllReferenced(h.m, TableAt(blob, off, SizesOf(h)))
  }

  ghost predicate Accepts(blob: bytes) {
    HeadAccepted(blob) && BodyAccepted(blob, ReadHead(blob))
  }

  ghost function BodyOf(blob: bytes, h: Head): Artifact
    requires BodyAccepted(blob, h)
  {
    Artifact(h, TableAt(blob, HeadLength(h.version), SizesOf(h)), Amounts(blob, EffectsOffset(h), h.m))
  }

  ghost function ArtifactOf(blob: bytes): Artifact
    requires Accepts(blob)
  {
    BodyOf(blob, ReadHead(blob))
  }

  lemma ReferencedIsAllSet(m: nat, rs: seq<Record>, referenced: array<bool>)
    requires referenced.Length == m && ReferencedMatches(referenced, rs)
    ensures (forall k :: 0 <= k < referenced.Length ==> referenced[k]) <==> AllReferenced(m, rs)
  {}

  method ParseBody(blob: bytes, h: Head) returns (r: Result<Artifact>)
    requires HeadLength(h.version) <= |blob| && 0 < h.n
    ensures r.Ok? <==> BodyAccepted(blob, h)
    ensures r.Ok? ==> r.value == BodyOf(blob, h)
  {
    var referenced := new bool[h.m](_ => false);
    var off := HeadLength(h.version);
    var outcomes := ReadEntries(blob, off, SizesOf(h), referenced);
    if outcomes.Err? {
      return Err;
    }
    var effectsOffset := EffectsOffset(h);
    var effects := ParseEffects(blob, effectsOffset, h.m);
    if effects.Err? || effectsOffset + 16 * h.m != |blob| {
      return Err;
    }
    var all := AllSet(referenced);
    ReferencedIsAllSet(h.m, outcomes.value, referenced);
    if !all {
      return Err;
    }
    r := Ok(Artifact(h, outcomes.value, effects.value));
  }

  datatype Parsed = Parsed(artifact: Artifact) | Rejected | OtherFormat

  /** parseCompiledArtifact: formats 5 and 8 branch off to parsers of their own. */
  method Parse(blob: bytes) returns (r: Parsed)
    ensures r.Parsed? <==> Accepts(blob)
    ensures r.Parsed? ==> r.artifact == ArtifactOf(blob)
    ensures r.OtherFormat? <==> 34 <= |blob| <= 8192 && MagicAt(blob) && (Num(blob, 4, 2) == 5 || Num(blob, 4, 2) == 8)
  {
    if 34 <= |blob| { MagicRule(blob); }
    if |blob| == 0 || |blob| > MAX_ARTIFACT_BYTES || |blob| < 34 || Ascii(blob[..4]) != MAGIC {
      return Rejected;
    }
    if Version(blob) == FORMAT_VERSION_COMPOSITE || Version(blob) == FORMAT_VERSION_V5 {
      return OtherFormat;
    }
    if !HeadAccepted(blob) {
      return Rejected;
    }
    var body := ParseBody(blob, ReadHead(blob));
    r := if body.Ok? then Parsed(body.value) else Rejected;
  }

  // ---------------------------------------------------------------- the codec inverts and does not bend

  lemma ThreeParts(a: bytes, b: bytes, c: bytes)
    ensures var s := a + b + c; s[..|a|] == a && s[|a|..|a| + |b|] == b && s[|a| + |b|..] == c
  {}

  lemma ThreeCuts(s: bytes, i: nat, j: nat)
    requires i <= j <= |s|
    ensures s[..i] + s[i..j] + s[j..] == s
  {}

  lemma BodyRebuilt(blob: bytes, h: Head)
    requires BodyAccepted(blob, h)
    ensures var a := BodyOf(blob, h);
            && HeadLength(h.version) <= EffectsOffset(h) <= |blob|
            && TableBytes(ShapeOf(h.version), a.outcomes) == blob[HeadLength(h.version)..EffectsOffset(h)]
            && EffectsBytes(a.effects) == blob[EffectsOffset(h)..]
            && AllInRange(ShapeOf(h.version), a.outcomes) && AmountsInRange(a.effects)
  {
    TableRebuilt(blob, HeadLength(h.version), SizesOf(h), EffectsOffset(h));
    EffectsRebuilt(blob, EffectsOffset(h), h.m);
    WholeTail(blob, EffectsOffset(h), 16 * h.m);
  }

  lemma WholeTail(s: bytes, at: nat, n: nat)
    requires at + n == |s|
    ensures s[at..at + n] == s[at..]
  {}

  lemma BodyWellFormed(blob: bytes, h: Head)
    requires HeadInRange(h) && HeadChecks(h) && BodyAccepted(blob, h)
    ensures WellFormed(BodyOf(blob, h))
  {
    BodyRebuilt(blob, h);
  }

  lemma SameBehind(a: bytes, b: bytes)
    requires |a| == |b| && 4 <= |a| && a[4..] == b[4..]
    ensures forall i :: 4 <= i < |a| ==> a[i] == b[i]
    ensures forall i, j :: 4 <= i <= j <= |a| ==> a[i..j] == b[i..j]
  {
    assert forall i :: 4 <= i < |a| ==> a[i] == a[4..][i - 4] && b[i] == b[4..][i - 4];
  }

  lemma SameEffects(a: bytes, b: bytes, off: nat, m: nat)
    requires |a| == |b| && 4 <= off && off <= |a| && a[4..] == b[4..] && EffectsAt(a, off, m)
    ensures EffectsAt(b, off, m) && Amounts(b, off, m) == Amounts(a, off, m)
  {
    SameBehind(a, b);
    forall k | k < m
      ensures EffectAt(b, off, k)
    {
      assert EffectAt(a, off, k);
    }
  }

  lemma SameBody(a: bytes, b: bytes, h: Head)
    requires |a| == |b| && 4 <= |a| && a[4..] == b[4..] && BodyAccepted(a, h)
    ensures BodyAccepted(b, h) && BodyOf(b, h) == BodyOf(a, h)
  {
    SameTable(a, b, HeadLength(h.version), SizesOf(h));
    SameEffects(a, b, EffectsOffset(h), h.m);
  }

  lemma SameTable(a: bytes, b: bytes, off: nat, z: Sizes)
    requires |a| == |b| && 4 <= off && off <= |a| && a[4..] == b[4..] && TableFits(a, off, z)
    ensures TableFits(b, off, z) && TableAt(b, off, z) == TableAt(a, off, z)
  {
    SameBehind(a, b);
  }

  lemma SameHead(a: bytes, b: bytes)
    requires |a| == |b| && 34 <= |a| && a[4..] == b[4..] && HeadLength(Version(a)) <= |a|
    ensures Version(b) == Version(a) && ReadHead(b) == ReadHead(a)
    ensures a[FIXED_BYTES..HeadLength(Version(a))] == b[FIXED_BYTES..HeadLength(Version(a))]
  {
    SameBehind(a, b);
  }

  /** Only the decoded magic is looked at: its raw bytes do not matter. */
  lemma MagicIgnored(a: bytes, b: bytes)
    requires |a| == |b| && 4 <= |a| && a[4..] == b[4..] && Ascii(a[..4]) == Ascii(b[..4]) && Accepts(a)
    ensures Accepts(b) && ArtifactOf(b) == ArtifactOf(a)
  {
    SameHead(a, b);
    SameBody(a, b, ReadHead(a));
  }

  /** The blob with the plain magic. */
  function Restored(blob: bytes): bytes
    requires 4 <= |blob|
  {
    MAGIC + blob[4..]
  }

  lemma RestoredAccepted(blob: bytes)
    requires Accepts(blob)
    ensures Accepts(Restored(blob)) && ArtifactOf(Restored(blob)) == ArtifactOf(blob)
  {
    AsciiPlain(MAGIC);
    assert Restored(blob)[..4] == MAGIC;
    MagicIgnored(blob, Restored(blob));
  }

  /** An accepted blob is the layout of what was parsed from it, up to its four magic bytes. */
  lemma AcceptedIsLayout(blob: bytes)
    requires Accepts(blob)
    ensures WellFormed(ArtifactOf(blob)) && Layout(ArtifactOf(blob)) == Restored(blob)
  {
    RestoredAccepted(blob);
    PlainIsLayout(Restored(blob));
  }

  lemma PlainIsLayout(blob: bytes)
    requires Accepts(blob) && blob[..4] == MAGIC
    ensures WellFormed(ArtifactOf(blob)) && Layout(ArtifactOf(blob)) == blob
  {
    HeadRebuilt(blob);
    BodyWellFormed(blob, ReadHead(blob));
    BodyRebuilt(blob, ReadHead(blob));
    ThreeCuts(blob, HeadLength(Version(blob)), EffectsOffset(ReadHead(blob)));
  }

  /** Two accepted blobs with equal parses agree from the fifth byte on: they are equal exactly when
      their magic bytes are. */
  lemma EqualParses(a: bytes, b: bytes)
    requires Accepts(a) && Accepts(b) && ArtifactOf(a) == ArtifactOf(b)
    ensures a[4..] == b[4..] && (a == b <==> a[..4] == b[..4])
  {
    AcceptedIsLayout(a);
    AcceptedIsLayout(b);
    assert Restored(a)[4..] == a[4..] && Restored(b)[4..] == b[4..];
    assert a == a[..4] + a[4..] && b == b[..4] + b[4..];
  }

  /** The magic is compared after a decoding that drops high bits, so every accepted blob has a
      different twin with the same parse. */
  lemma MagicBends(blob: bytes)
    requires Accepts(blob)
    ensures Flip(blob, 0) != blob && Accepts(Flip(blob, 0)) && ArtifactOf(Flip(blob, 0)) == ArtifactOf(blob)
  {
    var other := Flip(blob, 0);
    assert other[0] != blob[0];
    FlipTail(blob, 0, 4);
    FlipDecodes(blob, 4);
    MagicIgnored(blob, other);
  }

  lemma LayoutLengths(a: Artifact)
    requires |a.outcomes| == a.h.n && |a.effects| == a.h.m
    ensures |TableBytes(ShapeOf(a.h.version), a.outcomes)| == a.h.n * Width(ShapeOf(a.h.version))
    ensures |EffectsBytes(a.effects)| == 16 * a.h.m
    ensures |Layout(a)| == EffectsOffset(a.h) + 16 * a.h.m
  {
    TableLength(ShapeOf(a.h.version), a.outcomes);
    FixedWidth(EffectChunks(a.effects), 16);
  }

  lemma LayoutPieces(a: Artifact)
    requires |a.outcomes| == a.h.n && |a.effects| == a.h.m
    ensures var blob, off := Layout(a), HeadLength(a.h.version);
            && off <= EffectsOffset(a.h) <= |blob|
            && blob[..off] == HeadBytes(a.h)
            && blob[off..EffectsOffset(a.h)] == TableBytes(ShapeOf(a.h.version), a.outcomes)
            && blob[EffectsOffset(a.h)..] == EffectsBytes(a.effects)
  {
    LayoutLengths(a);
    ThreeParts(HeadBytes(a.h), TableBytes(ShapeOf(a.h.version), a.outcomes), EffectsBytes(a.effects));
  }

  lemma BodyReads(a: Artifact)
    requires WellFormed(a)
    ensures BodyAccepted(Layout(a), a.h) && BodyOf(Layout(a), a.h) == a
  {
    LayoutLengths(a);
    LayoutPieces(a);
    var blob, eo := Layout(a), EffectsOffset(a.h);
    TableReads(blob, HeadLength(a.h.version), SizesOf(a.h), eo, a.outcomes);
    WholeTail(blob, eo, 16 * a.h.m);
    EffectsRead(blob, eo, a.effects);
  }

  lemma LayoutHead(a: Artifact)
    requires WellFormed(a) && |Layout(a)| <= MAX_ARTIFACT_BYTES
    ensures HeadAccepted(Layout(a)) && ReadHead(Layout(a)) == a.h
  {
    LayoutPieces(a);
    HeadRead(a.h, Layout(a));
    AsciiPlain(MAGIC);
  }

  /** A well-formed artifact that fits parses back to itself. */
  lemma LayoutParses(a: Artifact)
    requires WellFormed(a) && |Layout(a)| <= MAX_ARTIFACT_BYTES
    ensures Accepts(Layout(a)) && ArtifactOf(Layout(a)) == a
  {
    LayoutHead(a);
    BodyReads(a);
  }

  /** Exactly the layouts of well-formed artifacts of at most 8192 bytes are accepted, the magic read
      as decoded. */
  lemma AcceptsExactly(blob: bytes)
    ensures Accepts(blob) <==>
            4 <= |blob| <= MAX_ARTIFACT_BYTES && Ascii(blob[..4]) == MAGIC && exists a :: WellFormed(a) && Layout(a) == Restored(blob)
  {
    if Accepts(blob) {
      AcceptedIsLayout(blob);
    }
    if 4 <= |blob| <= MAX_ARTIFACT_BYTES && Ascii(blob[..4]) == MAGIC {
      if a :| WellFormed(a) && Layout(a) == Restored(blob) {
        LayoutParses(a);
        AsciiPlain(MAGIC);
        assert Restored(blob)[..4] == MAGIC && Restored(blob)[4..] == blob[4..];
        MagicIgnored(Restored(blob), blob);
      }
    }
  }

  // ---------------------------------------------------------------- the format's rules on its bytes

  /** Zero bytes. */
  ghost predicate Clear(blob: bytes, from: int, to: int) {
    0 <= from <= to <= |blob| && forall k :: from <= k < to ==> blob[k] == 0
  }

  /** The magic "W3O1", high bits ignored. */
  ghost predicate MagicAt(blob: bytes) {
    4 <= |blob| && blob[0] % 128 == 87 && blob[1] % 128 == 51 && blob[2] % 128 == 79 && blob[3] % 128 == 49
  }

  /** Version 1, 2 or 3; bounds in order; at least one outcome; the number of winners of versions 2 and 3
      from 1 to 32 and no more than the outcomes; the formula of version 3 from 1 to 5; reserved bytes
      clear. */
  ghost predicate HeaderRules(blob: bytes) {
    var v, n := Num(blob, 4, 2), Num(blob, 22, 2);
    && 34 <= |blob| <= 8192 && MagicAt(blob) && 1 <= v <= 3
    && Num(blob, 6, 8) <= Num(blob, 14, 8) && 1 <= n
    && (v == 1 ==> Clear(blob, 26, 34))
    && (v != 1 ==> 1 <= Num(blob, 26, 2) <= n && Num(blob, 26, 2) <= 32)
    && (v == 2 ==> Clear(blob, 28, 34))
    && (v == 3 ==> 42 <= |blob| && 1 <= blob[28] <= 5 && Clear(blob, 29, 34))
  }

  ghost predicate PlaceTaken(blob: bytes, off: nat, w: nat, n: nat, k: int) {
    0 <= k < n ==> exists i :: 0 <= i < n && OrderField(blob, off, w, i) == k
  }

  ghost predicate OwnsEffect(blob: bytes, off: nat, w: nat, i: int, e: int) {
    FirstField(blob, off, w, i) <= e < FirstField(blob, off, w, i) + CountField(blob, off, w, i)
  }

  ghost predicate EffectOwned(blob: bytes, off: nat, w: nat, n: nat, e: int) {
    exists i :: 0 <= i < n && OwnsEffect(blob, off, w, i, e)
  }

  /** A transfer: type 1 and seven clear bytes before the amount. */
  ghost predicate EffectRule(blob: bytes, off: nat, m: nat, k: int) {
    0 <= k < m ==> off + 16 * k + 16 <= |blob| && blob[off + 16 * k] == 1 && Clear(blob, off + 16 * k + 1, off + 16 * k + 8)
  }

  /** The rules on the records at off, w bytes each, and on the effects behind them. */
  ghost predicate BodyRules(blob: bytes, z: Sizes, off: nat, w: nat, effectsAt: nat) {
    && effectsAt == off + z.n * w && |blob| == effectsAt + 16 * z.m
    && (forall i :: RecordRules(z, blob, off, w, i))
    && (z.sh.scored ==> forall k :: PlaceTaken(blob, off, w, z.n, k))
    && (forall e :: 0 <= e < z.m ==> EffectOwned(blob, off, w, z.n, e))
    && forall k :: EffectRule(blob, effectsAt, z.m, k)
  }

  /** The rules of formats 1 to 3, in bytes. Records are 73 bytes wide, 83 in version 3, and start behind a
      header of 34 bytes, 42 in version 3; the effects of 16 bytes follow and end the blob. */
  ghost predicate Rules(blob: bytes) {
    var v, n, m := Num(blob, 4, 2), Num(blob, 22, 2), Num(blob, 24, 2);
    && HeaderRules(blob) && 16 * m <= |blob|
    && BodyRules(blob, Sizes(Shape(v == 3, true), n, m, v != 1),
                 if v == 3 then 42 else 34, if v == 3 then 83 else 73, |blob| - 16 * m)
  }

  lemma ClearIsZeros(blob: bytes, from: nat, to: nat)
    requires from <= to <= |blob|
    ensures blob[from..to] == Zeros(to - from) <==> Clear(blob, from, to)
  {
    if blob[from..to] == Zeros(to - from) {
      forall k | from <= k < to
        ensures blob[k] == 0
      {
        assert blob[k] == blob[from..to][k - from];
      }
    }
  }

  lemma MagicRule(blob: bytes)
    requires 4 <= |blob|
    ensures Ascii(blob[..4]) == MAGIC <==> MagicAt(blob)
  {
    var a := Ascii(blob[..4]);
    assert a == [a[0], a[1], a[2], a[3]];
  }

  lemma HeadByRules(blob: bytes)
    ensures HeadAccepted(blob) <==> HeaderRules(blob)
  {
    if 34 <= |blob| {
      MagicRule(blob);
      ClearIsZeros(blob, 26, 34);
      ClearIsZeros(blob, 28, 34);
      ClearIsZeros(blob, 29, 34);
      assert blob[26..34][0..2] == blob[26..28] && blob[26..34][2..8] == blob[28..34];
      if 42 <= |blob| { assert blob[26..42][0..2] == blob[26..28] && blob[26..42][3..8] == blob[29..34] && blob[26..42][2] == blob[28]; }
    }
  }

  /** The header of an accepted blob, in bytes. */
  lemma HeadContent(blob: bytes)
    requires HeadAccepted(blob)
    ensures var h := ReadHead(blob);
            && h.version == Num(blob, 4, 2) && h.minInput == Num(blob, 6, 8) && h.maxInput == Num(blob, 14, 8)
            && h.n == Num(blob, 22, 2) && h.m == Num(blob, 24, 2)
            && h.winners == (if h.version == 1 then 1 else Num(blob, 26, 2))
            && (h.version == 3 ==> h.formula == blob[28] && h.target == FromSignedLE(blob[34..42]))
            && (h.version != 3 ==> h.formula == 1 && h.target == 0)
  {
    assert blob[26..34][0..2] == blob[26..28];
    if Num(blob, 4, 2) == 3 {
      assert blob[26..42][0..2] == blob[26..28] && blob[26..42][2] == blob[28] && blob[26..42][8..16] == blob[34..42];
    }
  }

  lemma EffectsByRules(blob: bytes, off: nat, m: nat)
    requires |blob| == off + 16 * m
    ensures EffectsAt(blob, off, m) <==> forall k :: EffectRule(blob, off, m, k)
  {
    forall k | 0 <= k < m
      ensures EffectAt(blob, off, k) <==> EffectRule(blob, off, m, k)
    {
      ClearIsZeros(blob, off + 16 * k + 1, off + 16 * k + 8);
    }
    if EffectsAt(blob, off, m) {
      forall k
        ensures EffectRule(blob, off, m, k)
      {
        if 0 <= k < m { assert EffectAt(blob, off, k); }
      }
    }
    if forall k :: EffectRule(blob, off, m, k) {
      forall k | k < m
        ensures EffectAt(blob, off, k)
      {
        if 0 <= k { assert EffectRule(blob, off, m, k); }
      }
    }
  }

  lemma PlacesByRules(blob: bytes, off: nat, z: Sizes, w: nat)
    requires TableFits(blob, off, z) && RecordWidth(z.sh, w) && z.sh.scored
    ensures (forall k :: 0 <= k < z.n ==> OrderTaken(TableAt(blob, off, z), k)) <==> forall k :: PlaceTaken(blob, off, w, z.n, k)
  {
    var rs := TableAt(blob, off, z);
    forall i: nat | i < z.n
      ensures rs[i].order == OrderField(blob, off, w, i)
    {
      RecordIsBytes(blob, off, z, i, w);
    }
    forall k | 0 <= k < z.n
      ensures OrderTaken(rs, k) <==> PlaceTaken(blob, off, w, z.n, k)
    {
      PlaceByRules(blob, off, w, rs, k);
    }
  }

  lemma PlaceByRules(blob: bytes, off: nat, w: nat, rs: seq<Record>, k: nat)
    requires k < |rs| && forall i: nat :: i < |rs| ==> rs[i].order == OrderField(blob, off, w, i)
    ensures OrderTaken(rs, k) <==> PlaceTaken(blob, off, w, |rs|, k)
  {
    if OrderTaken(rs, k) {
      var i: nat :| i < |rs| && rs[i].order == k;
      assert OrderField(blob, off, w, i) == k;
    }
    if PlaceTaken(blob, off, w, |rs|, k) {
      var i: nat :| i < |rs| && OrderField(blob, off, w, i) == k;
      assert rs[i].order == k;
    }
  }

  lemma OwnerByRules(blob: bytes, off: nat, z: Sizes, w: nat, rs: seq<Record>, e: int)
    requires |rs| == z.n && z.sh.sliced
    requires forall i: nat :: i < z.n ==> RecordBytes(z.sh, blob, Start(off, w, i), w, i, rs[i])
    ensures Referenced(rs, e) <==> EffectOwned(blob, off, w, z.n, e)
  {
    forall i: nat | i < z.n
      ensures Covers(rs[i], e) <==> OwnsEffect(blob, off, w, i, e)
    {
      assert RecordBytes(z.sh, blob, Start(off, w, i), w, i, rs[i]);
    }
  }

  lemma OwnersByRules(blob: bytes, off: nat, z: Sizes, w: nat)
    requires TableFits(blob, off, z) && RecordWidth(z.sh, w) && z.sh.sliced
    ensures AllReferenced(z.m, TableAt(blob, off, z)) <==> forall e :: 0 <= e < z.m ==> EffectOwned(blob, off, w, z.n, e)
  {
    var rs := TableAt(blob, off, z);
    forall i: nat | i < z.n
      ensures RecordBytes(z.sh, blob, Start(off, w, i), w, i, rs[i])
    {
      RecordIsBytes(blob, off, z, i, w);
    }
    forall e
      ensures Referenced(rs, e) <==> EffectOwned(blob, off, w, z.n, e)
    {
      OwnerByRules(blob, off, z, w, rs, e);
    }
  }

  lemma BodyByRules(blob: bytes, h: Head, off: nat, w: nat, effectsAt: nat)
    requires 1 <= h.version <= 3 && off == HeadLength(h.version) && w == Width(ShapeOf(h.version))
    requires effectsAt + 16 * h.m == |blob|
    ensures BodyAccepted(blob, h) <==> BodyRules(blob, SizesOf(h), off, w, effectsAt)
  {
    MulLe(0, h.n, w);
    if effectsAt == off + h.n * w {
      TableByRules(SizesOf(h), blob, off, w);
      if h.version == 3 { PlacesByRules(blob, off, SizesOf(h), w); }
      OwnersByRules(blob, off, SizesOf(h), w);
      EffectsByRules(blob, effectsAt, h.m);
    }
  }

  /** The parser accepts exactly the blobs whose bytes follow the rules. */
  lemma AcceptsByRules(blob: bytes)
    ensures Accepts(blob) <==> Rules(blob)
  {
    HeadByRules(blob);
    if HeadAccepted(blob) {
      var h := ReadHead(blob);
      HeadContent(blob);
      if 16 * h.m <= |blob| { BodyByRules(blob, h, HeadLength(h.version), Width(ShapeOf(h.version)), |blob| - 16 * h.m); }
    }
  }

  /** What is parsed from an accepted blob, in bytes. */
  lemma ContentByRules(blob: bytes, i: nat)
    requires Accepts(blob)
    ensures var a := ArtifactOf(blob);
            var off: nat, w: nat := if a.h.version == 3 then 42 else 34, if a.h.version == 3 then 83 else 73;
            && |a.outcomes| == Num(blob, 22, 2) && |a.effects| == Num(blob, 24, 2)
            && (i < |a.outcomes| ==> RecordBytes(Shape(a.h.version == 3, true), blob, Start(off, w, i), w, i, a.outcomes[i]))
            && (i < |a.effects| ==> a.effects[i] == Num(blob, |blob| - 16 * |a.effects| + 16 * i + 8, 8))
  {
    var h := ReadHead(blob);
    HeadContent(blob);
    if i < h.n { RecordIsBytes(blob, HeadLength(h.version), SizesOf(h), i, Width(ShapeOf(h.version))); }
  }
}
