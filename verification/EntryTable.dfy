/** The table of named entries shared by the artifact formats: fixed-width records with a padded
    identifier, checked while they are read (sdk/verify.ts, sdk/snapshot.ts). */
module EntryTable {
  import opened Wrappers
  import opened Bytes

  const MAX_ID: nat := 64
  const ID_FIELD: nat := 64

  type Field = s: bytes | |s| == ID_FIELD witness seq(ID_FIELD, _ => 0)

  /** Which optional columns a format has: score and order, and an effect slice. */
  datatype Shape = Shape(scored: bool, sliced: bool)

  /** One record as read: the whole identifier field with its declared length. */
  datatype Record = Record(idLen: byte, id: Field, weight: nat, score: int, order: nat, first: nat, count: nat)

  function Width(sh: Shape): nat {
    69 + (if sh.scored then 10 else 0) + (if sh.sliced then 4 else 0)
  }

  function Zeros(n: nat): (s: bytes)
    ensures |s| == n && forall i :: 0 <= i < n ==> s[i] == 0
  {
    seq(n, i => 0)
  }

  /** An identifier padded with zeros to the width of its field. */
  function Pad(id: bytes): (f: Field)
    ensures forall i :: 0 <= i < ID_FIELD ==> f[i] == if i < |id| then id[i] else 0
  {
    seq(ID_FIELD, i requires 0 <= i < ID_FIELD => if i < |id| then id[i] else 0)
  }

  /** Printable ASCII of at most 64 characters. */
  predicate IdText(s: string) {
    1 <= |s| <= MAX_ID && forall i :: 0 <= i < |s| ==> ' ' <= s[i] <= '~'
  }

  /** writeBigInt64LE; the value is checked before it is written. */
  function I64(v: int): (s: bytes)
    ensures |s| == 8
  {
    if FitsSigned(v, 8) then SignedLE(v, 8) else Zeros(8)
  }

  // ---------------------------------------------------------------- one record

  function ScorePart(sh: Shape, r: Record): (s: bytes)
    ensures |s| == if sh.scored then 10 else 0
  {
    if sh.scored then I64(r.score) + LE(r.order, 2) else []
  }

  function SlicePart(sh: Shape, r: Record): (s: bytes)
    ensures |s| == if sh.sliced then 4 else 0
  {
    if sh.sliced then LE(r.first, 2) + LE(r.count, 2) else []
  }

  function Encode(sh: Shape, r: Record): (s: bytes)
    ensures |s| == Width(sh)
  {
    [r.idLen] + r.id + LE(r.weight, 4) + ScorePart(sh, r) + SlicePart(sh, r)
  }

  /** The fields of a record; without an order column the order is the position. */
  function Read(sh: Shape, index: nat, c: bytes): Record
    requires |c| == Width(sh)
  {
    var w := Width(sh);
    Record(c[0], c[1..65], FromLE(c[65..69]),
           if sh.scored then FromSignedLE(c[69..77]) else 0,
           if sh.scored then FromLE(c[77..79]) else index,
           if sh.sliced then FromLE(c[w - 4..w - 2]) else 0,
           if sh.sliced then FromLE(c[w - 2..w]) else 0)
  }

  /** The field values a record of this shape can hold. */
  predicate InRange(sh: Shape, index: nat, r: Record) {
    && r.weight < 0x1_0000_0000
    && (if sh.scored then FitsSigned(r.score, 8) && r.order < 0x1_0000 else r.score == 0 && r.order == index)
    && (if sh.sliced then r.first < 0x1_0000 && r.count < 0x1_0000 else r.first == 0 && r.count == 0)
  }

  lemma FiveParts(a: bytes, b: bytes, c: bytes, d: bytes, e: bytes)
    requires |a| == 1 && |b| == 64 && |c| == 4
    ensures var s := a + b + c + d + e;
            && s[0] == a[0] && s[1..65] == b && s[65..69] == c && s[69..69 + |d|] == d
            && s[69 + |d|..] == e
  {}

  lemma TwoParts(s: bytes, a: bytes, b: bytes, at: nat)
    requires at + |a| + |b| <= |s| && s[at..at + |a| + |b|] == a + b
    ensures s[at..at + |a|] == a && s[at + |a|..at + |a| + |b|] == b
  {
    SubSlice(s, at, at + |a| + |b|, 0, |a|);
    SubSlice(s, at, at + |a| + |b|, |a|, |a| + |b|);
  }

  lemma ReadOfEncode(sh: Shape, index: nat, r: Record)
    requires InRange(sh, index, r)
    ensures Read(sh, index, Encode(sh, r)) == r
  {
    Limits();
    var c := Encode(sh, r);
    FiveParts([r.idLen], r.id, LE(r.weight, 4), ScorePart(sh, r), SlicePart(sh, r));
    FromLEOfLE(r.weight, 4);
    if sh.scored {
      TwoParts(c, I64(r.score), LE(r.order, 2), 69);
      FromSignedOfSigned(r.score, 8);
      FromLEOfLE(r.order, 2);
    }
    if sh.sliced {
      assert c[Width(sh) - 4..Width(sh)] == SlicePart(sh, r);
      TwoParts(c, LE(r.first, 2), LE(r.count, 2), Width(sh) - 4);
      FromLEOfLE(r.first, 2);
      FromLEOfLE(r.count, 2);
    }
  }

  /** The bytes of an unsigned field. */
  lemma FieldBytes(c: bytes, at: nat, n: nat)
    requires at + n <= |c|
    ensures LE(FromLE(c[at..at + n]), n) == c[at..at + n] && FromLE(c[at..at + n]) < Limit(n)
  {
    LEOfFromLE(c[at..at + n]);
  }

  lemma SignedBytes(c: bytes, at: nat)
    requires at + 8 <= |c|
    ensures I64(FromSignedLE(c[at..at + 8])) == c[at..at + 8] && FitsSigned(FromSignedLE(c[at..at + 8]), 8)
  {
    SignedOfFromSigned(c[at..at + 8]);
  }

  lemma PiecesJoin(c: bytes, i: nat, j: nat)
    requires 69 <= i <= j == |c|
    ensures c[0..1] + c[1..65] + c[65..69] + c[69..i] + c[i..j] == c
  {}

  lemma EncodeOfRead(sh: Shape, index: nat, c: bytes)
    requires |c| == Width(sh)
    ensures Encode(sh, Read(sh, index, c)) == c && InRange(sh, index, Read(sh, index, c))
  {
    Limits();
    var r, w := Read(sh, index, c), Width(sh);
    var mid := if sh.scored then 79 else 69;
    FieldBytes(c, 65, 4);
    if sh.scored {
      SignedBytes(c, 69);
      FieldBytes(c, 77, 2);
      Adjoin(c, 69, 77, 79);
    }
    if sh.sliced {
      FieldBytes(c, w - 4, 2);
      FieldBytes(c, w - 2, 2);
      Adjoin(c, w - 4, w - 2, w);
    }
    assert [c[0]] == c[0..1];
    assert ScorePart(sh, r) == c[69..mid] && SlicePart(sh, r) == c[mid..w];
    PiecesJoin(c, mid, w);
  }

  // ---------------------------------------------------------------- the table

  function Chunks(sh: Shape, rs: seq<Record>): (cs: seq<bytes>)
    ensures |cs| == |rs| && forall i :: 0 <= i < |rs| ==> cs[i] == Encode(sh, rs[i])
  {
    seq(|rs|, i requires 0 <= i < |rs| => Encode(sh, rs[i]))
  }

  function TableBytes(sh: Shape, rs: seq<Record>): bytes {
    Concat(Chunks(sh, rs))
  }

  function ReadTable(sh: Shape, n: nat, s: bytes): (rs: seq<Record>)
    requires |s| == n * Width(sh)
    ensures |rs| == n && forall i :: 0 <= i < n ==> rs[i] == Read(sh, i, Cut(s, n, Width(sh))[i])
  {
    seq(n, i requires 0 <= i < n => Read(sh, i, Cut(s, n, Width(sh))[i]))
  }

  ghost predicate AllInRange(sh: Shape, rs: seq<Record>) {
    forall i :: 0 <= i < |rs| ==> InRange(sh, i, rs[i])
  }

  lemma TableLength(sh: Shape, rs: seq<Record>)
    ensures |TableBytes(sh, rs)| == |rs| * Width(sh)
  {
    FixedWidth(Chunks(sh, rs), Width(sh));
  }

  lemma ReadOfTable(sh: Shape, rs: seq<Record>)
    requires AllInRange(sh, rs)
    ensures |TableBytes(sh, rs)| == |rs| * Width(sh)
    ensures ReadTable(sh, |rs|, TableBytes(sh, rs)) == rs
  {
    TableLength(sh, rs);
    var s, w := TableBytes(sh, rs), Width(sh);
    ConcatCut(s, |rs|, w);
    ConcatInjective(Chunks(sh, rs), Cut(s, |rs|, w), w);
    forall i | 0 <= i < |rs|
      ensures ReadTable(sh, |rs|, s)[i] == rs[i]
    {
      ReadOfEncode(sh, i, rs[i]);
    }
  }

  lemma TableOfRead(sh: Shape, n: nat, s: bytes)
    requires |s| == n * Width(sh)
    ensures TableBytes(sh, ReadTable(sh, n, s)) == s && AllInRange(sh, ReadTable(sh, n, s))
  {
    var rs, w := ReadTable(sh, n, s), Width(sh);
    forall i | 0 <= i < n
      ensures Chunks(sh, rs)[i] == Cut(s, n, w)[i] && InRange(sh, i, rs[i])
    {
      EncodeOfRead(sh, i, Cut(s, n, w)[i]);
    }
    assert Chunks(sh, rs) == Cut(s, n, w);
    ConcatCut(s, n, w);
  }

  // ---------------------------------------------------------------- what the reading loop checks

  predicate IdOk(r: Record) {
    && 1 <= r.idLen <= MAX_ID
    && (forall i :: 0 <= i < r.idLen ==> 32 <= r.id[i] <= 126)
    && (forall i :: r.idLen <= i < ID_FIELD ==> r.id[i] == 0)
  }

  function Name(r: Record): bytes {
    if r.idLen <= MAX_ID then r.id[..r.idLen] else r.id
  }

  ghost predicate OrderTaken(rs: seq<Record>, k: int) {
    exists i :: 0 <= i < |rs| && rs[i].order == k
  }

  predicate Covers(r: Record, e: int) {
    r.first <= e < r.first + r.count
  }

  ghost predicate Referenced(rs: seq<Record>, e: int) {
    exists i :: 0 <= i < |rs| && Covers(rs[i], e)
  }

  /** The table sizes, and whether effect slices must not overlap. */
  datatype Sizes = Sizes(sh: Shape, n: nat, m: nat, exclusive: bool)

  /** The checks on the next record, given those before it. */
  ghost predicate EntryOk(z: Sizes, before: seq<Record>, r: Record) {
    && IdOk(r) && 0 < r.weight
    && (before != [] ==> CompareBytes(Name(before[|before| - 1]), Name(r)) < 0)
    && (z.sh.scored ==> r.order < z.n && !OrderTaken(before, r.order))
    && (z.sh.sliced ==> r.first + r.count <= z.m)
    && (z.sh.sliced && z.exclusive ==> forall e :: Covers(r, e) ==> !Referenced(before, e))
  }

  ghost predicate EntryAt(z: Sizes, rs: seq<Record>, i: int) {
    0 <= i < |rs| ==> EntryOk(z, rs[..i], rs[i])
  }

  ghost predicate EntriesOk(z: Sizes, rs: seq<Record>) {
    forall i :: EntryAt(z, rs, i)
  }

  lemma OneMoreOk(z: Sizes, rs: seq<Record>, r: Record)
    requires EntriesOk(z, rs) && EntryOk(z, rs, r)
    ensures EntriesOk(z, rs + [r])
  {
    var all := rs + [r];
    forall i
      ensures EntryAt(z, all, i)
    {
      if 0 <= i < |rs| {
        assert EntryAt(z, rs, i);
        assert all[..i] == rs[..i];
      } else if i == |rs| {
        assert all[..i] == rs;
      }
    }
  }

  /** All entries pass, and with an order column every place is taken. */
  ghost predicate TableOk(z: Sizes, rs: seq<Record>) {
    EntriesOk(z, rs) && (z.sh.scored ==> forall k :: 0 <= k < z.n ==> OrderTaken(rs, k))
  }

  // ---------------------------------------------------------------- the reading loop

  ghost predicate TableFits(blob: bytes, off: nat, z: Sizes) {
    off + z.n * Width(z.sh) <= |blob|
  }

  ghost function TableAt(blob: bytes, off: nat, z: Sizes): seq<Record>
    requires TableFits(blob, off, z)
  {
    MulLe(0, z.n, Width(z.sh));
    ReadTable(z.sh, z.n, blob[off..off + z.n * Width(z.sh)])
  }

  lemma ReadTableSnoc(sh: Shape, n: nat, s: bytes, c: bytes)
    requires |s| == n * Width(sh) && |c| == Width(sh)
    ensures |s + c| == (n + 1) * Width(sh)
    ensures ReadTable(sh, n + 1, s + c) == ReadTable(sh, n, s) + [Read(sh, n, c)]
  {
    var w := Width(sh);
    assert (n + 1) * w == n * w + w;
    CutSnoc(s, n, w, c);
  }

  lemma CutSnoc(s: bytes, n: nat, w: nat, c: bytes)
    requires |s| == n * w && |c| == w && |s + c| == (n + 1) * w
    ensures Cut(s + c, n + 1, w) == Cut(s, n, w) + [c]
  {
    forall i: nat | i < n + 1
      ensures Cut(s + c, n + 1, w)[i] == (Cut(s, n, w) + [c])[i]
    {
      CutAt(s + c, n + 1, w, i);
      if i < n {
        CutAt(s, n, w, i);
      }
    }
  }

  /** The first i records have been read, and the cursor is behind them. */
  ghost predicate Reached(blob: bytes, off: nat, z: Sizes, i: nat, at: nat, outs: seq<Record>)
    decreases i
  {
    if i == 0 then off == at <= |blob| && outs == []
    else
      var w := Width(z.sh);
      && off + w <= at <= |blob| && outs != []
      && outs[|outs| - 1] == Read(z.sh, i - 1, blob[at - w..at])
      && Reached(blob, off, z, i - 1, at - w, outs[..|outs| - 1])
  }

  lemma ReachedNext(blob: bytes, off: nat, z: Sizes, i: nat, at: nat, outs: seq<Record>)
    requires Reached(blob, off, z, i, at, outs) && at + Width(z.sh) <= |blob|
    ensures Reached(blob, off, z, i + 1, at + Width(z.sh), outs + [Read(z.sh, i, blob[at..at + Width(z.sh)])])
  {
    var next := outs + [Read(z.sh, i, blob[at..at + Width(z.sh)])];
    assert next[..|next| - 1] == outs;
    ReachedBounds(blob, off, z, i, at, outs);
  }

  lemma ReachedBounds(blob: bytes, off: nat, z: Sizes, i: nat, at: nat, outs: seq<Record>)
    requires Reached(blob, off, z, i, at, outs)
    ensures off <= at <= |blob|
  {}

  lemma {:induction false} ReachedTable(blob: bytes, off: nat, z: Sizes, i: nat, at: nat, outs: seq<Record>)
    requires Reached(blob, off, z, i, at, outs)
    ensures off <= at <= |blob| && at - off == i * Width(z.sh)
    ensures outs == ReadTable(z.sh, i, blob[off..at])
    decreases i
  {
    if i > 0 {
      var w := Width(z.sh);
      var init := outs[..|outs| - 1];
      ReachedTable(blob, off, z, i - 1, at - w, init);
      ReadOneMore(blob, off, z.sh, i - 1, at - w, init);
      assert outs == init + [outs[|outs| - 1]];
    }
  }

  lemma ReadOneMore(blob: bytes, off: nat, sh: Shape, n: nat, at: nat, outs: seq<Record>)
    requires off <= at && at + Width(sh) <= |blob| && at - off == n * Width(sh) && outs == ReadTable(sh, n, blob[off..at])
    ensures at + Width(sh) - off == (n + 1) * Width(sh)
    ensures outs + [Read(sh, n, blob[at..at + Width(sh)])] == ReadTable(sh, n + 1, blob[off..at + Width(sh)])
  {
    ReadTableSnoc(sh, n, blob[off..at], blob[at..at + Width(sh)]);
    SlicesJoin(blob, off, at, at + Width(sh));
  }

  lemma SlicesJoin(s: bytes, i: nat, j: nat, k: nat)
    requires i <= j <= k <= |s|
    ensures s[i..j] + s[j..k] == s[i..k]
  {}

  /** Reading fewer records reads the beginning of the table. */
  lemma ReadPrefix(blob: bytes, off: nat, z: Sizes, i: nat, at: nat)
    requires TableFits(blob, off, z) && i <= z.n && off <= at <= |blob| && at - off == i * Width(z.sh)
    ensures i < z.n ==> at + Width(z.sh) <= |blob|
    ensures ReadTable(z.sh, i, blob[off..at]) == TableAt(blob, off, z)[..i]
    ensures i < z.n ==> TableAt(blob, off, z)[i] == Read(z.sh, i, blob[at..at + Width(z.sh)])
  {
    var w := Width(z.sh);
    MulLe(0, z.n, w);
    var all := blob[off..off + z.n * w];
    if i < z.n {
      WidthProduct(i, z.n, w);
      CutAt(all, z.n, w, i);
      SubSlice(blob, off, off + z.n * w, i * w, i * w + w);
    }
    forall j: nat | j < i
      ensures ReadTable(z.sh, i, blob[off..at])[j] == TableAt(blob, off, z)[j]
    {
      CutAt(all, z.n, w, j);
      CutAt(blob[off..at], i, w, j);
      SubSlice(blob, off, off + z.n * w, j * w, j * w + w);
      SubSlice(blob, off, at, j * w, j * w + w);
    }
  }

  /** The record at the cursor is cut off or fails its checks. */
  ghost predicate Fails(blob: bytes, z: Sizes, i: nat, at: nat, outs: seq<Record>) {
    at + Width(z.sh) <= |blob| ==> !EntryOk(z, outs, Read(z.sh, i, blob[at..at + Width(z.sh)]))
  }

  /** A record that is cut off or fails its checks spoils the table. */
  lemma Spoiled(blob: bytes, off: nat, z: Sizes, i: nat, at: nat, outs: seq<Record>)
    requires Reached(blob, off, z, i, at, outs) && i < z.n && Fails(blob, z, i, at, outs)
    ensures !(TableFits(blob, off, z) && TableOk(z, TableAt(blob, off, z)))
  {
    SpoiledEntries(blob, off, z, i, at, outs);
  }

  /** The same without the check that the orders are complete. */
  lemma SpoiledEntries(blob: bytes, off: nat, z: Sizes, i: nat, at: nat, outs: seq<Record>)
    requires Reached(blob, off, z, i, at, outs) && i < z.n && Fails(blob, z, i, at, outs)
    ensures !(TableFits(blob, off, z) && EntriesOk(z, TableAt(blob, off, z)))
  {
    if TableFits(blob, off, z) {
      ReachedTable(blob, off, z, i, at, outs);
      ReadPrefix(blob, off, z, i, at);
      assert !EntryAt(z, TableAt(blob, off, z), i);
    }
  }

  lemma ReachedEnd(blob: bytes, off: nat, z: Sizes, at: nat, outs: seq<Record>)
    requires Reached(blob, off, z, z.n, at, outs)
    ensures TableFits(blob, off, z) && outs == TableAt(blob, off, z)
  {
    ReachedTable(blob, off, z, z.n, at, outs);
  }

  ghost predicate SeenMatches(seen: array<bool>, rs: seq<Record>)
    reads seen
  {
    forall k :: 0 <= k < seen.Length ==> (seen[k] <==> OrderTaken(rs, k))
  }

  ghost predicate ReferencedMatches(referenced: array<bool>, rs: seq<Record>)
    reads referenced
  {
    forall e :: 0 <= e < referenced.Length ==> (referenced[e] <==> Referenced(rs, e))
  }

  lemma OneMore(rs: seq<Record>, r: Record)
    ensures forall k :: OrderTaken(rs + [r], k) <==> OrderTaken(rs, k) || r.order == k
    ensures forall e :: Referenced(rs + [r], e) <==> Referenced(rs, e) || Covers(r, e)
  {
    var all := rs + [r];
    assert all[|rs|] == r && forall i :: 0 <= i < |rs| ==> all[i] == rs[i];
    forall k
      ensures OrderTaken(all, k) <==> OrderTaken(rs, k) || r.order == k
    {
      if OrderTaken(rs, k) {
        var i :| 0 <= i < |rs| && rs[i].order == k;
        assert all[i].order == k;
      }
    }
    forall e
      ensures Referenced(all, e) <==> Referenced(rs, e) || Covers(r, e)
    {
      if Referenced(rs, e) {
        var i :| 0 <= i < |rs| && Covers(rs[i], e);
        assert Covers(all[i], e);
      }
    }
  }

  /** Marks the effects a record refers to; in an exclusive table none may be marked already. */
  method MarkSlice(referenced: array<bool>, exclusive: bool, ghost before: seq<Record>, r: Record) returns (ok: bool)
    requires ReferencedMatches(referenced, before) && r.first + r.count <= referenced.Length
    modifies referenced
    ensures ok <==> (exclusive ==> forall e :: Covers(r, e) ==> !Referenced(before, e))
    ensures ok ==> ReferencedMatches(referenced, before + [r])
  {
    for e := r.first to r.first + r.count
      invariant forall k :: 0 <= k < referenced.Length ==> (referenced[k] <==> Referenced(before, k) || r.first <= k < e)
      invariant exclusive ==> forall k :: r.first <= k < e ==> !Referenced(before, k)
    {
      if exclusive && referenced[e] {
        assert Covers(r, e);
        return false;
      }
      referenced[e] := true;
    }
    OneMore(before, r);
    ok := true;
  }

  /** Takes the record's place in the order. */
  method MarkOrder(seen: array<bool>, ghost before: seq<Record>, r: Record) returns (ok: bool)
    requires SeenMatches(seen, before)
    modifies seen
    ensures ok <==> r.order < seen.Length && !OrderTaken(before, r.order)
    ensures ok ==> SeenMatches(seen, before + [r])
  {
    if r.order >= seen.Length || seen[r.order] {
      return false;
    }
    seen[r.order] := true;
    OneMore(before, r);
    ok := true;
  }

  /** The flag arrays that go with the records read so far. */
  ghost predicate Flagged(z: Sizes, rs: seq<Record>, seen: array<bool>, referenced: array<bool>)
    reads seen, referenced
  {
    && (z.sh.scored ==> seen.Length == z.n && SeenMatches(seen, rs))
    && (z.sh.sliced ==> referenced.Length == z.m && ReferencedMatches(referenced, rs))
  }

  /** The checks of one turn of the loop. */
  method CheckEntry(z: Sizes, before: seq<Record>, r: Record, seen: array<bool>, referenced: array<bool>) returns (ok: bool)
    requires seen != referenced && Flagged(z, before, seen, referenced)
    modifies seen, referenced
    ensures ok <==> EntryOk(z, before, r)
    ensures ok ==> Flagged(z, before + [r], seen, referenced)
  {
    if !IdOk(r) {
      return false;
    }
    if |before| > 0 && CompareBytes(Name(before[|before| - 1]), Name(r)) >= 0 {
      return false;
    }
    if r.weight <= 0 {
      return false;
    }
    if z.sh.scored {
      var free := MarkOrder(seen, before, r);
      if !free {
        return false;
      }
    }
    if z.sh.sliced {
      if r.first + r.count > z.m {
        return false;
      }
      var disjoint := MarkSlice(referenced, z.exclusive, before, r);
      if !disjoint {
        return false;
      }
    }
    ok := true;
  }

  /** Array.every(Boolean). */
  method AllSet(flags: array<bool>) returns (all: bool)
    ensures all <==> forall k :: 0 <= k < flags.Length ==> flags[k]
  {
    for k := 0 to flags.Length
      invariant forall j :: 0 <= j < k ==> flags[j]
    {
      if !flags[k] {
        return false;
      }
    }
    all := true;
  }

  /** One record: it is there and passes, or it fails. */
  method ReadEntry(blob: bytes, ghost off: nat, z: Sizes, index: nat, at: nat, outs: seq<Record>, seen: array<bool>, referenced: array<bool>)
    returns (ok: bool, next: seq<Record>, weight: nat)
    requires seen != referenced && EntriesOk(z, outs) && Flagged(z, outs, seen, referenced)
    requires Reached(blob, off, z, index, at, outs)
    modifies seen, referenced
    ensures ok ==> 0 < weight && EntriesOk(z, next) && Flagged(z, next, seen, referenced)
    ensures ok ==> Reached(blob, off, z, index + 1, at + Width(z.sh), next)
    ensures !ok ==> Fails(blob, z, index, at, outs)
  {
    var w := Width(z.sh);
    if at + w > |blob| {
      return false, outs, 0;
    }
    var entry := Read(z.sh, index, blob[at..at + w]);
    ok := CheckEntry(z, outs, entry, seen, referenced);
    ReachedNext(blob, off, z, index, at, outs);
    if ok { OneMoreOk(z, outs, entry); }
    next, weight := outs + [entry], entry.weight;
  }

  /** The loop over the records; `i` and `stop` say where it stopped. */
  method ReadLoop(blob: bytes, off: nat, z: Sizes, seen: array<bool>, referenced: array<bool>)
    returns (ok: bool, outs: seq<Record>, ghost i: nat, ghost stop: nat)
    requires off <= |blob| && 0 < z.n && seen != referenced && Flagged(z, [], seen, referenced)
    modifies seen, referenced
    ensures Reached(blob, off, z, i, stop, outs)
    ensures ok ==> i == z.n && EntriesOk(z, outs) && Flagged(z, outs, seen, referenced)
    ensures !ok ==> i < z.n && Fails(blob, z, i, stop, outs)
  {
    var at: nat, weightSum: nat := off, 0;
    outs := [];
    for index := 0 to z.n
      invariant Reached(blob, off, z, index, at, outs) && index <= weightSum
      invariant EntriesOk(z, outs) && Flagged(z, outs, seen, referenced)
    {
      var passed, next, weight := ReadEntry(blob, off, z, index, at, outs, seen, referenced);
      if !passed {
        return false, outs, index, at;
      }
      outs, at, weightSum := next, at + Width(z.sh), weightSum + weight;
    }
    ok, i, stop := weightSum > 0, z.n, at;
  }

  /** Reading a table succeeds exactly when all of it is there and every check passes. */
  method ReadEntries(blob: bytes, off: nat, z: Sizes, referenced: array<bool>) returns (r: Result<seq<Record>>)
    requires off <= |blob| && 0 < z.n
    requires z.sh.sliced ==> referenced.Length == z.m && ReferencedMatches(referenced, [])
    modifies referenced
    ensures r.Ok? <==> TableFits(blob, off, z) && TableOk(z, TableAt(blob, off, z))
    ensures r.Ok? ==> r.value == TableAt(blob, off, z)
    ensures r.Ok? && z.sh.sliced ==> ReferencedMatches(referenced, r.value)
  {
    var seen := new bool[z.n](_ => false);
    var ok, entries, i, stop := ReadLoop(blob, off, z, seen, referenced);
    if !ok {
      Spoiled(blob, off, z, i, stop, entries);
      return Err;
    }
    ReachedEnd(blob, off, z, stop, entries);
    if z.sh.scored {
      var all := AllSet(seen);
      OntoIsAllSet(z, entries, seen);
      if !all {
        return Err;
      }
    }
    r := Ok(entries);
  }

  lemma OntoIsAllSet(z: Sizes, rs: seq<Record>, seen: array<bool>)
    requires seen.Length == z.n && SeenMatches(seen, rs)
    ensures (forall k :: 0 <= k < seen.Length ==> seen[k]) <==> (forall k :: 0 <= k < z.n ==> OrderTaken(rs, k))
  {}

  /** The table read at an offset is what lies there. */
  lemma TableRebuilt(blob: bytes, off: nat, z: Sizes, end: nat)
    requires TableFits(blob, off, z) && end == off + z.n * Width(z.sh)
    ensures off <= end <= |blob| && TableBytes(z.sh, TableAt(blob, off, z)) == blob[off..end]
    ensures AllInRange(z.sh, TableAt(blob, off, z)) && |TableAt(blob, off, z)| == z.n
  {
    MulLe(0, z.n, Width(z.sh));
    TableOfRead(z.sh, z.n, blob[off..end]);
  }

  /** A table that lies at an offset is read from there. */
  lemma TableReads(blob: bytes, off: nat, z: Sizes, end: nat, rs: seq<Record>)
    requires |rs| == z.n && AllInRange(z.sh, rs)
    requires off <= end <= |blob| && blob[off..end] == TableBytes(z.sh, rs)
    ensures TableFits(blob, off, z) && TableAt(blob, off, z) == rs && end == off + z.n * Width(z.sh)
  {
    ReadOfTable(z.sh, rs);
  }

  // ---------------------------------------------------------------- the table's rules on its bytes

  /** The unsigned little-endian number in n bytes at a place of the blob. */
  function Num(blob: bytes, at: int, n: nat): nat {
    if 0 <= at && at + n <= |blob| then FromLE(blob[at..at + n]) else 0
  }

  /** The width of a record: 69 bytes, 10 more with a score and an order, 4 more with an effect slice. */
  ghost predicate RecordWidth(sh: Shape, w: nat) {
    w == if sh.scored && sh.sliced then 83 else if sh.scored then 79 else if sh.sliced then 73 else 69
  }

  /** The identifier of the record at a place. */
  ghost function IdAt(blob: bytes, at: int): bytes {
    if 0 <= at && at + 65 <= |blob| && blob[at] <= 64 then blob[at + 1..at + 1 + blob[at]] else []
  }

  ghost predicate PaddedName(length: nat, field: bytes) {
    && |field| == 64 && (forall k :: 0 <= k < length && k < 64 ==> 32 <= field[k] <= 126)
    && (forall k :: length <= k < 64 ==> field[k] == 0)
  }

  /** An identifier of 1 to 64 printable characters, padded with zeros, and a positive weight. */
  ghost predicate NamedAt(blob: bytes, at: int) {
    && 0 <= at && at + 69 <= |blob| && 1 <= blob[at] <= 64
    && PaddedName(blob[at], blob[at + 1..at + 65]) && 0 < Num(blob, at + 65, 4)
  }

  /** Where record j of a table at off starts. */
  ghost function Start(off: nat, w: nat, j: int): int {
    off + j * w
  }

  ghost function OrderField(blob: bytes, off: nat, w: nat, j: int): nat {
    Num(blob, Start(off, w, j) + 77, 2)
  }

  ghost function FirstField(blob: bytes, off: nat, w: nat, j: int): nat {
    Num(blob, Start(off, w, j) + w - 4, 2)
  }

  ghost function CountField(blob: bytes, off: nat, w: nat, j: int): nat {
    Num(blob, Start(off, w, j) + w - 2, 2)
  }

  /** Its order is below the count and not taken by an earlier record. */
  ghost predicate OrderRule(n: nat, blob: bytes, off: nat, w: nat, i: int) {
    && OrderField(blob, off, w, i) < n
    && forall j :: 0 <= j < i ==> OrderField(blob, off, w, j) != OrderField(blob, off, w, i)
  }

  /** Its slice is apart from those of earlier records. */
  ghost predicate ExclusiveRule(blob: bytes, off: nat, w: nat, i: int) {
    forall j :: 0 <= j < i ==>
      Apart(FirstField(blob, off, w, i), CountField(blob, off, w, i), FirstField(blob, off, w, j), CountField(blob, off, w, j))
  }

  /** The rules on record i of a table at off, in bytes: its name and weight, identifiers rising, its
      order, and its effect slice inside the effect table and, in an exclusive table, on its own. */
  ghost predicate RecordRules(z: Sizes, blob: bytes, off: nat, w: nat, i: int) {
    0 <= i < z.n ==>
      && NamedAt(blob, Start(off, w, i))
      && (0 < i ==> Precedes(IdAt(blob, Start(off, w, i - 1)), IdAt(blob, Start(off, w, i))))
      && (z.sh.scored ==> OrderRule(z.n, blob, off, w, i))
      && (z.sh.sliced ==> FirstField(blob, off, w, i) + CountField(blob, off, w, i) <= z.m)
      && (z.sh.sliced && z.exclusive ==> ExclusiveRule(blob, off, w, i))
  }

  /** No effect lies in both slices. */
  ghost predicate Apart(first: nat, count: nat, first': nat, count': nat) {
    count == 0 || count' == 0 || first + count <= first' || first' + count' <= first
  }

  /** What a record of the table is, in bytes. */
  ghost predicate RecordBytes(sh: Shape, blob: bytes, at: int, w: nat, index: nat, r: Record) {
    && 0 <= at && 69 <= w && at + w <= |blob|
    && r.idLen == blob[at] && r.id == blob[at + 1..at + 65] && r.weight == Num(blob, at + 65, 4)
    && (sh.scored ==> 79 <= w && r.score == FromSignedLE(blob[at + 69..at + 77]) && r.order == Num(blob, at + 77, 2))
    && (!sh.scored ==> r.score == 0 && r.order == index)
    && (sh.sliced ==> r.first == Num(blob, at + w - 4, 2) && r.count == Num(blob, at + w - 2, 2))
    && (!sh.sliced ==> r.first == 0 && r.count == 0)
  }

  lemma RecordIsBytes(blob: bytes, off: nat, z: Sizes, i: nat, w: nat)
    requires TableFits(blob, off, z) && i < z.n && RecordWidth(z.sh, w)
    ensures RecordBytes(z.sh, blob, Start(off, w, i), w, i, TableAt(blob, off, z)[i])
  {
    MulLe(0, z.n, w);
    CutAt(blob[off..off + z.n * w], z.n, w, i);
    SubSlice(blob, off, off + z.n * w, i * w, i * w + w);
    ReadIsBytes(z.sh, blob, Start(off, w, i), w, i);
  }

  lemma ReadIsBytes(sh: Shape, blob: bytes, at: nat, w: nat, i: nat)
    requires RecordWidth(sh, w) && at + w <= |blob|
    ensures RecordBytes(sh, blob, at, w, i, Read(sh, i, blob[at..at + w]))
  {
    SubSlice(blob, at, at + w, 1, 65);
    SubSlice(blob, at, at + w, 65, 69);
    SubSlice(blob, at, at + w, w - 4, w - 2);
    SubSlice(blob, at, at + w, w - 2, w);
    if sh.scored {
      SubSlice(blob, at, at + w, 69, 77);
      SubSlice(blob, at, at + w, 77, 79);
    }
  }

  lemma NamedRecord(sh: Shape, blob: bytes, at: int, w: nat, index: nat, r: Record)
    requires RecordBytes(sh, blob, at, w, index, r)
    ensures IdOk(r) && 0 < r.weight <==> NamedAt(blob, at)
    ensures r.idLen <= 64 ==> Name(r) == IdAt(blob, at)
  {
    if r.idLen <= 64 { SubSlice(blob, at + 1, at + 65, 0, r.idLen); }
  }

  lemma CoversApart(r: Record, r': Record)
    ensures (forall e :: Covers(r, e) ==> !Covers(r', e)) <==> Apart(r.first, r.count, r'.first, r'.count)
  {
    if 0 < r.count && 0 < r'.count {
      var e := if r.first < r'.first then r'.first else r.first;
      if !Apart(r.first, r.count, r'.first, r'.count) { assert Covers(r, e) && Covers(r', e); }
    }
  }

  /** The slice checks against all earlier records, pair by pair. */
  lemma ExclusivePairs(before: seq<Record>, r: Record)
    ensures (forall e :: Covers(r, e) ==> !Referenced(before, e)) <==>
            (forall j :: 0 <= j < |before| ==> Apart(r.first, r.count, before[j].first, before[j].count))
  {
    if forall j :: 0 <= j < |before| ==> Apart(r.first, r.count, before[j].first, before[j].count) {
      forall e | Covers(r, e)
        ensures !Referenced(before, e)
      {
        if Referenced(before, e) {
          var j :| 0 <= j < |before| && Covers(before[j], e);
          CoversApart(r, before[j]);
        }
      }
    }
    if forall e :: Covers(r, e) ==> !Referenced(before, e) {
      forall j | 0 <= j < |before|
        ensures Apart(r.first, r.count, before[j].first, before[j].count)
      {
        forall e | Covers(r, e)
          ensures !Covers(before[j], e)
        {
          assert !Referenced(before, e);
        }
        CoversApart(r, before[j]);
      }
    }
  }

  /** The table's records, as bytes, up to record i. */
  ghost predicate BytesUpTo(z: Sizes, blob: bytes, off: nat, w: nat, rs: seq<Record>, i: nat) {
    i < |rs| && forall j: nat :: j <= i ==> RecordBytes(z.sh, blob, Start(off, w, j), w, j, rs[j])
  }

  lemma OrdersByRules(z: Sizes, blob: bytes, off: nat, w: nat, rs: seq<Record>, i: nat)
    requires BytesUpTo(z, blob, off, w, rs, i) && z.sh.scored
    ensures rs[i].order < z.n && !OrderTaken(rs[..i], rs[i].order) <==> OrderRule(z.n, blob, off, w, i)
  {
    forall j: nat | j <= i
      ensures rs[j].order == OrderField(blob, off, w, j)
    {
      assert RecordBytes(z.sh, blob, Start(off, w, j), w, j, rs[j]);
    }
    assert forall j :: 0 <= j < i ==> rs[..i][j] == rs[j];
  }

  lemma SlicesByRules(z: Sizes, blob: bytes, off: nat, w: nat, rs: seq<Record>, i: nat)
    requires BytesUpTo(z, blob, off, w, rs, i) && z.sh.sliced
    ensures rs[i].first == FirstField(blob, off, w, i) && rs[i].count == CountField(blob, off, w, i)
    ensures (forall e :: Covers(rs[i], e) ==> !Referenced(rs[..i], e)) <==> ExclusiveRule(blob, off, w, i)
  {
    forall j: nat | j <= i
      ensures rs[j].first == FirstField(blob, off, w, j) && rs[j].count == CountField(blob, off, w, j)
    {
      assert RecordBytes(z.sh, blob, Start(off, w, j), w, j, rs[j]);
    }
    assert forall j :: 0 <= j < i ==> rs[..i][j] == rs[j];
    ExclusivePairs(rs[..i], rs[i]);
  }

  lemma NamesByRules(z: Sizes, blob: bytes, off: nat, w: nat, rs: seq<Record>, i: nat)
    requires BytesUpTo(z, blob, off, w, rs, i) && (0 < i ==> rs[i - 1].idLen <= 64)
    ensures IdOk(rs[i]) && 0 < rs[i].weight <==> NamedAt(blob, Start(off, w, i))
    ensures 0 < i && rs[i].idLen <= 64 ==>
              (CompareBytes(Name(rs[i - 1]), Name(rs[i])) < 0 <==> Precedes(IdAt(blob, Start(off, w, i - 1)), IdAt(blob, Start(off, w, i))))
  {
    assert RecordBytes(z.sh, blob, Start(off, w, i), w, i, rs[i]);
    NamedRecord(z.sh, blob, Start(off, w, i), w, i, rs[i]);
    if 0 < i {
      assert RecordBytes(z.sh, blob, Start(off, w, i - 1), w, i - 1, rs[i - 1]);
      NamedRecord(z.sh, blob, Start(off, w, i - 1), w, i - 1, rs[i - 1]);
      CompareBytesMeaning(Name(rs[i - 1]), Name(rs[i]));
    }
  }

  /** The checks on one record say what the rules say, once its predecessor's name fits. */
  lemma EntryByRules(z: Sizes, blob: bytes, off: nat, w: nat, rs: seq<Record>, i: nat)
    requires BytesUpTo(z, blob, off, w, rs, i) && |rs| == z.n && (0 < i ==> rs[i - 1].idLen <= 64)
    ensures EntryOk(z, rs[..i], rs[i]) <==> RecordRules(z, blob, off, w, i)
  {
    NamesByRules(z, blob, off, w, rs, i);
    if 0 < i { assert rs[..i][|rs[..i]| - 1] == rs[i - 1]; }
    if z.sh.scored { OrdersByRules(z, blob, off, w, rs, i); }
    if z.sh.sliced { SlicesByRules(z, blob, off, w, rs, i); }
  }

  lemma AllBytes(z: Sizes, blob: bytes, off: nat, w: nat, i: nat)
    requires TableFits(blob, off, z) && RecordWidth(z.sh, w) && i < z.n
    ensures BytesUpTo(z, blob, off, w, TableAt(blob, off, z), i)
  {
    forall j: nat | j <= i
      ensures RecordBytes(z.sh, blob, Start(off, w, j), w, j, TableAt(blob, off, z)[j])
    {
      RecordIsBytes(blob, off, z, j, w);
    }
  }

  /** The reading loop accepts exactly the tables whose bytes follow the rules. */
  lemma TableByRules(z: Sizes, blob: bytes, off: nat, w: nat)
    requires TableFits(blob, off, z) && RecordWidth(z.sh, w)
    ensures EntriesOk(z, TableAt(blob, off, z)) <==> forall i :: RecordRules(z, blob, off, w, i)
  {
    var rs := TableAt(blob, off, z);
    if EntriesOk(z, rs) {
      forall i
        ensures RecordRules(z, blob, off, w, i)
      {
        if 0 <= i < z.n {
          assert EntryAt(z, rs, i) && EntryAt(z, rs, i - 1);
          AllBytes(z, blob, off, w, i);
          EntryByRules(z, blob, off, w, rs, i);
        }
      }
    }
    if forall i :: RecordRules(z, blob, off, w, i) {
      forall i
        ensures EntryAt(z, rs, i)
      {
        if 0 <= i < z.n {
          assert RecordRules(z, blob, off, w, i) && RecordRules(z, blob, off, w, i - 1);
          AllBytes(z, blob, off, w, i);
          if 0 < i { assert RecordBytes(z.sh, blob, Start(off, w, i - 1), w, i - 1, rs[i - 1]); }
          EntryByRules(z, blob, off, w, rs, i);
        }
      }
    }
  }
}
