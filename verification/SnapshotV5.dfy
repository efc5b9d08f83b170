/** The compact named-entry format 5: builder and parser of sdk/snapshot.ts, and the second parser of
    sdk/verify.ts. */
module SnapshotV5 {
  import opened Wrappers
  import opened StableSort
  import opened Bytes
  import opened EntryTable
  import OutcomeFormat
  import opened OutcomeBuilder

  const FORMAT_VERSION_V5: nat := 5
  const HEADER_BYTES: nat := 48

  const SHAPE: Shape := Shape(true, false)

  datatype Head = Head(minInput: nat, maxInput: nat, winners: nat, formula: nat, target: int, n: nat, payout: nat)

  datatype Artifact = Artifact(h: Head, entries: seq<Record>)

  function SizesOf(h: Head): Sizes {
    Sizes(SHAPE, h.n, 0, false)
  }

  // ---------------------------------------------------------------- header

  function FrontPart(h: Head): (s: bytes)
    ensures |s| == 24
  {
    OutcomeFormat.MAGIC + LE(FORMAT_VERSION_V5, 2) + LE(h.minInput, 8) + LE(h.maxInput, 8) + LE(h.winners, 2)
  }

  function BackPart(h: Head): (s: bytes)
    ensures |s| == 24
  {
    [h.formula % 256] + Zeros(5) + I64(h.target) + LE(h.n, 2) + LE(h.payout, 8)
  }

  function HeadBytes(h: Head): (s: bytes)
    ensures |s| == HEADER_BYTES
  {
    FrontPart(h) + BackPart(h)
  }

  predicate HeadInRange(h: Head) {
    && h.minInput <= MAX_U64 && h.maxInput <= MAX_U64 && h.winners <= MAX_U16 && h.formula < 256
    && FitsSigned(h.target, 8) && h.n <= MAX_U16 && h.payout <= MAX_U64
  }

  predicate HeadChecks(h: Head) {
    && h.minInput <= h.maxInput && 1 <= h.formula <= 5 && 1 <= h.n
    && 1 <= h.winners <= h.n && h.winners <= OutcomeFormat.MAX_WINNERS
  }

  function ReadHead(s: bytes): Head
    requires |s| == HEADER_BYTES
  {
    Head(FromLE(s[6..14]), FromLE(s[14..22]), FromLE(s[22..24]), s[24], FromSignedLE(s[30..38]), FromLE(s[38..40]), FromLE(s[40..48]))
  }

  predicate Marked(s: bytes)
    requires |s| == HEADER_BYTES
  {
    Ascii(s[0..4]) == OutcomeFormat.MAGIC && FromLE(s[4..6]) == FORMAT_VERSION_V5 && s[25..30] == Zeros(5)
  }

  lemma FrontSlices(a: bytes, b: bytes, c: bytes, d: bytes, e: bytes, rest: bytes)
    requires |a| == 4 && |b| == 2 && |c| == 8 && |d| == 8 && |e| == 2
    ensures var s := a + b + c + d + e + rest;
            s[0..4] == a && s[4..6] == b && s[6..14] == c && s[14..22] == d && s[22..24] == e && s[24..] == rest
  {}

  lemma BackSlices(front: bytes, a: bytes, b: bytes, c: bytes, d: bytes, e: bytes)
    requires |front| == 24 && |a| == 1 && |b| == 5 && |c| == 8 && |d| == 2 && |e| == 8
    ensures var s := front + (a + b + c + d + e);
            s[24] == a[0] && s[25..30] == b && s[30..38] == c && s[38..40] == d && s[40..48] == e
  {}

  lemma HeadRead(h: Head)
    requires HeadInRange(h)
    ensures Marked(HeadBytes(h)) && ReadHead(HeadBytes(h)) == h
  {
    Limits();
    FrontSlices(OutcomeFormat.MAGIC, LE(FORMAT_VERSION_V5, 2), LE(h.minInput, 8), LE(h.maxInput, 8), LE(h.winners, 2), BackPart(h));
    BackSlices(FrontPart(h), [h.formula % 256], Zeros(5), I64(h.target), LE(h.n, 2), LE(h.payout, 8));
    AsciiPlain(OutcomeFormat.MAGIC);
    FromLEOfLE(FORMAT_VERSION_V5, 2);
    FromLEOfLE(h.minInput, 8);
    FromLEOfLE(h.maxInput, 8);
    FromLEOfLE(h.winners, 2);
    FromSignedOfSigned(h.target, 8);
    FromLEOfLE(h.n, 2);
    FromLEOfLE(h.payout, 8);
  }

  lemma FrontRebuilt(s: bytes)
    requires |s| == HEADER_BYTES && Marked(s)
    ensures FrontPart(ReadHead(s)) == OutcomeFormat.MAGIC + s[4..24]
    ensures ReadHead(s).minInput <= MAX_U64 && ReadHead(s).maxInput <= MAX_U64 && ReadHead(s).winners <= MAX_U16
  {
    Limits();
    FieldBytes(s, 4, 2);
    FieldBytes(s, 6, 8);
    FieldBytes(s, 14, 8);
    FieldBytes(s, 22, 2);
    FrontJoin(s);
  }

  lemma FrontJoin(s: bytes)
    requires |s| == HEADER_BYTES
    ensures OutcomeFormat.MAGIC + s[4..6] + s[6..14] + s[14..22] + s[22..24] == OutcomeFormat.MAGIC + s[4..24]
  {}

  lemma BackJoin(s: bytes)
    requires |s| == HEADER_BYTES
    ensures [s[24]] + s[25..30] + s[30..38] + s[38..40] + s[40..48] == s[24..48]
  {}

  /** The five parts of the header's second half, as read and as written. */
  lemma BackPieces(s: bytes)
    requires |s| == HEADER_BYTES && Marked(s)
    ensures var h := ReadHead(s);
            && [h.formula % 256] == [s[24]] && FitsSigned(h.target, 8) && I64(h.target) == s[30..38]
            && LE(h.n, 2) == s[38..40] && LE(h.payout, 8) == s[40..48] && h.n <= MAX_U16 && h.payout <= MAX_U64
  {
    Limits();
    SignedBytes(s, 30);
    FieldBytes(s, 38, 2);
    FieldBytes(s, 40, 8);
  }

  lemma BackRebuilt(s: bytes)
    requires |s| == HEADER_BYTES && Marked(s)
    ensures BackPart(ReadHead(s)) == s[24..48]
    ensures ReadHead(s).formula < 256 && FitsSigned(ReadHead(s).target, 8) && ReadHead(s).n <= MAX_U16 && ReadHead(s).payout <= MAX_U64
  {
    BackPieces(s);
    BackJoin(s);
  }

  lemma HeadRebuilt(s: bytes)
    requires |s| == HEADER_BYTES && Marked(s)
    ensures HeadBytes(ReadHead(s)) == OutcomeFormat.MAGIC + s[4..48] && HeadInRange(ReadHead(s))
  {
    FrontRebuilt(s);
    BackRebuilt(s);
    assert OutcomeFormat.MAGIC + s[4..24] + s[24..48] == OutcomeFormat.MAGIC + s[4..48];
  }

  // ---------------------------------------------------------------- parsers

  function Layout(a: Artifact): bytes {
    HeadBytes(a.h) + TableBytes(SHAPE, a.entries)
  }

  predicate HeadAccepted(blob: bytes) {
    && HEADER_BYTES <= |blob| <= OutcomeFormat.MAX_ARTIFACT_BYTES
    && Marked(blob[..HEADER_BYTES]) && HeadChecks(ReadHead(blob[..HEADER_BYTES]))
  }

  ghost predicate BodyAccepted(blob: bytes, h: Head) {
    && HEADER_BYTES + h.n * 79 == |blob|
    && EntriesOk(SizesOf(h), TableAt(blob, HEADER_BYTES, SizesOf(h)))
  }

  ghost predicate Accepts(blob: bytes) {
    HeadAccepted(blob) && BodyAccepted(blob, ReadHead(blob[..HEADER_BYTES]))
  }

  ghost function ArtifactOf(blob: bytes): Artifact
    requires Accepts(blob)
  {
    var h := ReadHead(blob[..HEADER_BYTES]);
    Artifact(h, TableAt(blob, HEADER_BYTES, SizesOf(h)))
  }

  /** The body of the loop of parseArtifactV5, which keeps the orders it has seen in a set. */
  method ReadCompact(blob: bytes, h: Head) returns (r: Result<seq<Record>>)
    requires 0 < h.n && HEADER_BYTES + h.n * 79 == |blob|
    ensures r.Ok? <==> EntriesOk(SizesOf(h), TableAt(blob, HEADER_BYTES, SizesOf(h)))
    ensures r.Ok? ==> r.value == TableAt(blob, HEADER_BYTES, SizesOf(h))
  {
    var seen := new bool[h.n](_ => false);
    var none := new bool[0];
    var ok, entries, i, stop := ReadLoop(blob, HEADER_BYTES, SizesOf(h), seen, none);
    if !ok {
      SpoiledEntries(blob, HEADER_BYTES, SizesOf(h), i, stop, entries);
      return Err;
    }
    ReachedEnd(blob, HEADER_BYTES, SizesOf(h), stop, entries);
    r := Ok(entries);
  }

  /** parseArtifactV5 of sdk/snapshot.ts. */
  method ParseSdk(blob: bytes) returns (r: Result<Artifact>)
    ensures r.Ok? <==> Accepts(blob)
    ensures r.Ok? ==> r.value == ArtifactOf(blob)
  {
    if !HeadAccepted(blob) {
      return Err;
    }
    var h := ReadHead(blob[..HEADER_BYTES]);
    if HEADER_BYTES + h.n * 79 != |blob| {
      return Err;
    }
    var entries := ReadCompact(blob, h);
    if entries.Err? {
      return Err;
    }
    r := Ok(Artifact(h, entries.value));
  }

  /** The format 5 branch of parseCompiledArtifact in sdk/verify.ts: it also demands that every place
      of the order is taken, and the two parsers still accept the same blobs. */
  method ParseVerifier(blob: bytes) returns (r: Result<Artifact>)
    ensures r.Ok? <==> Accepts(blob)
    ensures r.Ok? ==> r.value == ArtifactOf(blob)
  {
    if !HeadAccepted(blob) {
      return Err;
    }
    var h := ReadHead(blob[..HEADER_BYTES]);
    if HEADER_BYTES + h.n * 79 != |blob| {
      return Err;
    }
    var none := new bool[0];
    var entries := ReadEntries(blob, HEADER_BYTES, SizesOf(h), none);
    OrdersFill(SizesOf(h), TableAt(blob, HEADER_BYTES, SizesOf(h)));
    if entries.Err? {
      return Err;
    }
    r := Ok(Artifact(h, entries.value));
  }

  // ---------------------------------------------------------------- distinct orders below n fill 0 .. n - 1

  ghost function OrderSet(rs: seq<Record>): set<nat> {
    if rs == [] then {} else OrderSet(rs[..|rs| - 1]) + {rs[|rs| - 1].order}
  }

  lemma {:induction false} OrderSetMembers(rs: seq<Record>, k: nat)
    ensures k in OrderSet(rs) <==> OrderTaken(rs, k)
  {
    if rs != [] {
      var init, r := rs[..|rs| - 1], rs[|rs| - 1];
      OrderSetMembers(init, k);
      OneMore(init, r);
      assert rs == init + [r];
    }
  }

  lemma {:induction false} OrderSetSize(z: Sizes, rs: seq<Record>)
    requires EntriesOk(z, rs) && z.sh.scored
    ensures |OrderSet(rs)| == |rs| && forall k :: k in OrderSet(rs) ==> k < z.n
  {
    if rs != [] {
      var init, r := rs[..|rs| - 1], rs[|rs| - 1];
      PrefixOk(z, rs);
      OrderSetSize(z, init);
      OrderSetMembers(init, r.order);
    }
  }

  lemma PrefixOk(z: Sizes, rs: seq<Record>)
    requires EntriesOk(z, rs) && rs != []
    ensures EntriesOk(z, rs[..|rs| - 1]) && EntryOk(z, rs[..|rs| - 1], rs[|rs| - 1])
  {
    var init := rs[..|rs| - 1];
    assert EntryAt(z, rs, |rs| - 1);
    forall i
      ensures EntryAt(z, init, i)
    {
      if 0 <= i < |init| {
        assert EntryAt(z, rs, i);
        assert init[..i] == rs[..i];
      }
    }
  }

  ghost function Below(n: nat): (s: set<nat>)
    ensures |s| == n && forall k: nat :: k in s <==> k < n
  {
    if n == 0 then {} else Below(n - 1) + {n - 1}
  }

  lemma {:induction false} SameCardinality(s: set<nat>, t: set<nat>)
    requires s <= t && |s| == |t|
    ensures s == t
    decreases |s|
  {
    if s != {} {
      var x :| x in s;
      SameCardinality(s - {x}, t - {x});
      assert s == (s - {x}) + {x} && t == (t - {x}) + {x};
    } else {
      assert t == {};
    }
  }

  /** The final check of the verifier never fires: n distinct orders below n are all of them. */
  lemma OrdersFill(z: Sizes, rs: seq<Record>)
    requires EntriesOk(z, rs) ==> z.sh.scored && |rs| == z.n
    ensures EntriesOk(z, rs) ==> TableOk(z, rs)
  {
    if EntriesOk(z, rs) {
      OrderSetSize(z, rs);
      SameCardinality(OrderSet(rs), Below(z.n));
      forall k | 0 <= k < z.n
        ensures OrderTaken(rs, k)
      {
        OrderSetMembers(rs, k);
        assert k in Below(z.n);
      }
    }
  }

  // ---------------------------------------------------------------- the codec inverts and does not bend

  /** What an accepted artifact satisfies. */
  ghost predicate WellFormed(a: Artifact) {
    && HeadInRange(a.h) && HeadChecks(a.h) && |a.entries| == a.h.n
    && AllInRange(SHAPE, a.entries) && EntriesOk(SizesOf(a.h), a.entries)
  }

  /** Only the decoded magic is looked at: every accepted blob has a different twin with the same
      parse. */
  lemma MagicBends(blob: bytes)
    requires Accepts(blob)
    ensures Flip(blob, 0) != blob && Accepts(Flip(blob, 0)) && ArtifactOf(Flip(blob, 0)) == ArtifactOf(blob)
  {
    var other := Flip(blob, 0);
    var s, t := blob[..HEADER_BYTES], other[..HEADER_BYTES];
    assert t == Flip(s, 0);
    FlippedHead(s, t);
    FlipElsewhere(blob, 0, HEADER_BYTES, |blob|);
    assert other[0] != blob[0];
  }

  lemma FlippedHead(s: bytes, t: bytes)
    requires |s| == HEADER_BYTES && t == Flip(s, 0)
    ensures ReadHead(t) == ReadHead(s) && (Marked(s) ==> Marked(t))
  {
    assert forall i, j :: 1 <= i <= j <= |s| ==> t[i..j] == s[i..j];
    FlipDecodes(s, 4);
    assert t[..4] == t[0..4] && s[..4] == s[0..4];
  }

  lemma RestoredLayout(blob: bytes, a: Artifact)
    requires HEADER_BYTES <= |blob| && HeadBytes(a.h) == OutcomeFormat.MAGIC + blob[..HEADER_BYTES][4..48]
    requires TableBytes(SHAPE, a.entries) == blob[HEADER_BYTES..]
    ensures Layout(a) == OutcomeFormat.Restored(blob)
  {
    SubSlice(blob, 0, HEADER_BYTES, 4, 48);
    assert blob[..HEADER_BYTES] == blob[0..HEADER_BYTES];
    assert blob[4..] == blob[4..48] + blob[48..];
  }

  /** An accepted blob is the layout of its parse, up to the four magic bytes. */
  lemma AcceptedIsLayout(blob: bytes)
    requires Accepts(blob)
    ensures WellFormed(ArtifactOf(blob)) && Layout(ArtifactOf(blob)) == OutcomeFormat.Restored(blob)
  {
    var h := ReadHead(blob[..HEADER_BYTES]);
    HeadRebuilt(blob[..HEADER_BYTES]);
    TableRebuilt(blob, HEADER_BYTES, SizesOf(h), |blob|);
    OutcomeFormat.WholeTail(blob, HEADER_BYTES, |blob| - HEADER_BYTES);
    RestoredLayout(blob, ArtifactOf(blob));
  }

  /** Two accepted blobs with equal parses are equal exactly when their magic bytes are; the magic is
      compared as decoded text, which loses the high bits. */
  lemma EqualParses(a: bytes, b: bytes)
    requires Accepts(a) && Accepts(b) && ArtifactOf(a) == ArtifactOf(b)
    ensures a[4..] == b[4..] && (a == b <==> a[..4] == b[..4])
  {
    AcceptedIsLayout(a);
    AcceptedIsLayout(b);
    assert OutcomeFormat.Restored(a)[4..] == a[4..] && OutcomeFormat.Restored(b)[4..] == b[4..];
    assert a == a[..4] + a[4..] && b == b[..4] + b[4..];
  }

  lemma LayoutLength(a: Artifact)
    ensures |Layout(a)| == HEADER_BYTES + 79 * |a.entries|
    ensures Layout(a)[..HEADER_BYTES] == HeadBytes(a.h) && Layout(a)[HEADER_BYTES..] == TableBytes(SHAPE, a.entries)
  {
    TableLength(SHAPE, a.entries);
  }

  /** A well-formed artifact that fits parses back to itself. */
  lemma LayoutParses(a: Artifact)
    requires WellFormed(a) && |Layout(a)| <= OutcomeFormat.MAX_ARTIFACT_BYTES
    ensures Accepts(Layout(a)) && ArtifactOf(Layout(a)) == a
  {
    LayoutLength(a);
    HeadRead(a.h);
    OutcomeFormat.WholeTail(Layout(a), HEADER_BYTES, |Layout(a)| - HEADER_BYTES);
    TableReads(Layout(a), HEADER_BYTES, SizesOf(a.h), |Layout(a)|, a.entries);
  }

  // ---------------------------------------------------------------- builder

  ghost predicate OrdersOk(entries: seq<Entry>) {
    && (forall i :: 0 <= i < |entries| ==> entries[i].order < |entries|)
    && (forall i, j :: 0 <= j < i < |entries| ==> entries[j].order != entries[i].order)
  }

  /** The loop over the orders of normalizeCompactNamedEntries. */
  method CheckOrders(entries: seq<Entry>) returns (ok: bool)
    ensures ok <==> OrdersOk(entries)
  {
    var seenOrders: set<nat> := {};
    for i := 0 to |entries|
      invariant forall k :: 0 <= k < i ==> entries[k].order < |entries| && entries[k].order in seenOrders
      invariant forall o :: o in seenOrders ==> exists k :: 0 <= k < i && entries[k].order == o
      invariant forall k, j :: 0 <= j < k < i ==> entries[j].order != entries[k].order
    {
      if entries[i].order >= |entries| || entries[i].order in seenOrders {
        return false;
      }
      seenOrders := seenOrders + {entries[i].order};
    }
    ok := true;
  }

  method CheckIds(sorted: seq<Entry>) returns (ok: bool)
    ensures ok <==> NoAdjacentRepeat(sorted)
  {
    for i := 0 to |sorted|
      invariant forall k :: 0 < k < i ==> sorted[k - 1].id != sorted[k].id
    {
      if i > 0 && sorted[i - 1].id == sorted[i].id {
        return false;
      }
    }
    ok := true;
  }

  function HeadFor(entries: seq<Entry>, input: nat, payout: nat, winners: nat, formula: FormulaCode, target: int): Head {
    Head(input, input, winners, formula, target, |entries|, payout)
  }

  /** The artifact of a list of entries: sorted by id, orders kept. */
  function ArtifactFor(entries: seq<Entry>, input: nat, payout: nat, winners: nat, formula: FormulaCode, target: int): Artifact {
    Artifact(HeadFor(entries, input, payout, winners, formula, target), RecordsFor(SortById(entries)))
  }

  function RecordsFor(t: seq<Entry>): (rs: seq<Record>)
    ensures |rs| == |t| && forall i :: 0 <= i < |rs| ==> rs[i] == RecordFor(t[i])
  {
    seq(|t|, i requires 0 <= i < |t| => RecordFor(t[i]))
  }

  function RecordFor(e: Entry): Record {
    Record(|e.id| % 256, Pad(e.id), e.weight, e.score, e.order, 0, 0)
  }

  /** buildArtifactV5 on entries whose fields have been validated; the amounts are as parsed. */
  method Build(entries: seq<Entry>, input: nat, payout: nat, winners: nat, formula: FormulaCode, target: int) returns (r: Result<bytes>)
    requires AllValid(entries) && input <= MAX_U64 && payout <= MAX_U64 && FitsSigned(target, 8)
    ensures r.Ok? <==>
              && 0 < |entries| <= MAX_U16 && OrdersOk(entries) && DistinctIds(entries)
              && 1 <= winners <= |entries| && winners <= OutcomeFormat.MAX_WINNERS
              && HEADER_BYTES + 79 * |entries| <= OutcomeFormat.MAX_ARTIFACT_BYTES
    ensures r.Ok? ==> r.value == Layout(ArtifactFor(entries, input, payout, winners, formula, target))
  {
    if |entries| == 0 || |entries| > MAX_U16 {
      return Err;
    }
    var ordersOk := CheckOrders(entries);
    if !ordersOk {
      return Err;
    }
    var sorted := SortById(entries);
    SortedDistinct(entries);
    var idsOk := CheckIds(sorted);
    if !idsOk || winners < 1 || winners > |entries| || winners > OutcomeFormat.MAX_WINNERS {
      return Err;
    }
    var parts := WriteEntries(sorted);
    var blob := HeadBytes(HeadFor(entries, input, payout, winners, formula, target)) + parts;
    LayoutLength(ArtifactFor(entries, input, payout, winners, formula, target));
    if |blob| > OutcomeFormat.MAX_ARTIFACT_BYTES {
      return Err;
    }
    r := Ok(blob);
  }

  method WriteEntries(t: seq<Entry>) returns (parts: bytes)
    ensures parts == TableBytes(SHAPE, RecordsFor(t))
  {
    var cs: seq<bytes> := [];
    for i := 0 to |t|
      invariant cs == Chunks(SHAPE, RecordsFor(t))[..i]
    {
      cs := cs + [Encode(SHAPE, RecordFor(t[i]))];
    }
    assert Chunks(SHAPE, RecordsFor(t))[..|t|] == Chunks(SHAPE, RecordsFor(t));
    parts := Concat(cs);
  }

  lemma RecordForOk(e: Entry, i: nat)
    requires ValidEntry(e)
    ensures var r := RecordFor(e); IdOk(r) && Name(r) == e.id && 0 < r.weight && InRange(SHAPE, i, r)
  {
    assert Pad(e.id)[..|e.id|] == e.id;
  }

  lemma OrdersMoved(s: seq<Entry>, t: seq<Entry>, p: seq<nat>)
    requires StableArrangement(ById(), s, t, p) && OrdersOk(s)
    ensures OrdersOk(t)
  {
    forall i, j | 0 <= j < i < |t|
      ensures t[j].order != t[i].order
    {
      assert Before(ById(), s, p[j], p[i]);
      CompareBytesAntisymmetric(s[p[j]].id, s[p[j]].id);
      assert p[j] != p[i];
    }
  }

  lemma BuiltEntryOk(t: seq<Entry>, z: Sizes, i: nat)
    requires AllValid(t) && Sorted(ById(), t) && DistinctIds(t) && OrdersOk(t) && z == Sizes(SHAPE, |t|, 0, false) && i < |t|
    ensures EntryAt(z, RecordsFor(t), i)
  {
    RecordForOk(t[i], i);
    if i > 0 {
      RecordForOk(t[i - 1], i - 1);
      StrictlySorted(t, i);
    }
    var before := RecordsFor(t)[..i];
    assert forall j :: 0 <= j < i ==> before[j].order == t[j].order;
  }

  /** Parse after build: whatever the builder writes is accepted by both parsers, and the parse is the
      artifact of the entries. */
  lemma ParseAfterBuild(entries: seq<Entry>, input: nat, payout: nat, winners: nat, formula: FormulaCode, target: int)
    requires AllValid(entries) && input <= MAX_U64 && payout <= MAX_U64 && FitsSigned(target, 8)
    requires 0 < |entries| <= MAX_U16 && OrdersOk(entries) && DistinctIds(entries)
    requires 1 <= winners <= |entries| && winners <= OutcomeFormat.MAX_WINNERS
    requires HEADER_BYTES + 79 * |entries| <= OutcomeFormat.MAX_ARTIFACT_BYTES
    ensures var a := ArtifactFor(entries, input, payout, winners, formula, target);
            Accepts(Layout(a)) && ArtifactOf(Layout(a)) == a
  {
    var a, t := ArtifactFor(entries, input, payout, winners, formula, target), SortById(entries);
    ByIdConsistent();
    SortSorted(ById(), entries);
    var p := SortArranges(ById(), entries);
    ValidArranged(entries, t, p);
    ArrangedDistinct(entries, t, p);
    OrdersMoved(entries, t, p);
    BuiltWellFormed(a, t);
    LayoutLength(a);
    LayoutParses(a);
  }

  lemma BuiltWellFormed(a: Artifact, t: seq<Entry>)
    requires AllValid(t) && Sorted(ById(), t) && DistinctIds(t) && OrdersOk(t)
    requires a.entries == RecordsFor(t) && a.h.n == |t| && HeadInRange(a.h) && HeadChecks(a.h)
    ensures WellFormed(a)
  {
    forall i
      ensures EntryAt(SizesOf(a.h), a.entries, i)
    {
      if 0 <= i < |t| { BuiltEntryOk(t, SizesOf(a.h), i); }
    }
    forall i | 0 <= i < |t|
      ensures InRange(SHAPE, i, a.entries[i])
    {
      RecordForOk(t[i], i);
    }
  }

  // ---------------------------------------------------------------- the format's rules on its bytes

  /** The rules of format 5, in bytes: 48 bytes of header, then records of 79 bytes with a score and an
      order. */
  ghost predicate Rules(blob: bytes) {
    && 48 <= |blob| <= 8192 && OutcomeFormat.MagicAt(blob) && Num(blob, 4, 2) == 5
    && Num(blob, 6, 8) <= Num(blob, 14, 8)
    && 1 <= blob[24] <= 5 && OutcomeFormat.Clear(blob, 25, 30)
    && 1 <= Num(blob, 22, 2) <= Num(blob, 38, 2) && Num(blob, 22, 2) <= 32
    && |blob| == 48 + 79 * Num(blob, 38, 2)
    && forall i :: RecordRules(TableSizes(Num(blob, 38, 2)), blob, 48, 79, i)
  }

  ghost function TableSizes(n: nat): Sizes {
    Sizes(Shape(true, false), n, 0, false)
  }

  lemma HeadSlices(blob: bytes)
    requires 48 <= |blob|
    ensures var s := blob[..HEADER_BYTES];
            && s[0..4] == blob[..4] && s[4..6] == blob[4..6] && s[6..14] == blob[6..14] && s[14..22] == blob[14..22]
            && s[22..24] == blob[22..24] && s[24] == blob[24] && s[25..30] == blob[25..30] && s[30..38] == blob[30..38]
            && s[38..40] == blob[38..40] && s[40..48] == blob[40..48]
  {}

  /** The header of a blob, in bytes. */
  lemma HeadContent(blob: bytes)
    requires 48 <= |blob|
    ensures var h := ReadHead(blob[..HEADER_BYTES]);
            && h.minInput == Num(blob, 6, 8) && h.maxInput == Num(blob, 14, 8) && h.winners == Num(blob, 22, 2)
            && h.formula == blob[24] && h.target == FromSignedLE(blob[30..38]) && h.n == Num(blob, 38, 2)
            && h.payout == Num(blob, 40, 8)
    ensures Marked(blob[..HEADER_BYTES]) <==> OutcomeFormat.MagicAt(blob) && Num(blob, 4, 2) == 5 && OutcomeFormat.Clear(blob, 25, 30)
  {
    HeadSlices(blob);
    OutcomeFormat.MagicRule(blob);
    OutcomeFormat.ClearIsZeros(blob, 25, 30);
  }

  /** Both parsers accept exactly the blobs whose bytes follow the rules. */
  lemma AcceptsByRules(blob: bytes)
    ensures Accepts(blob) <==> Rules(blob)
  {
    if 48 <= |blob| {
      HeadContent(blob);
      var h := ReadHead(blob[..HEADER_BYTES]);
      if |blob| == 48 + 79 * h.n {
        TableByRules(SizesOf(h), blob, 48, 79);
        assert SizesOf(h) == TableSizes(h.n);
      }
    }
  }

  /** What is parsed from an accepted blob, in bytes. */
  lemma ContentByRules(blob: bytes, i: nat)
    requires Accepts(blob)
    ensures var a := ArtifactOf(blob);
            && |a.entries| == Num(blob, 38, 2)
            && (i < |a.entries| ==> RecordBytes(Shape(true, false), blob, Start(48, 79, i), 79, i, a.entries[i]))
  {
    HeadContent(blob);
    var h := ReadHead(blob[..HEADER_BYTES]);
    if i < h.n { RecordIsBytes(blob, 48, SizesOf(h), i, 79); }
  }
}
