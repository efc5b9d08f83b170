/** Slot Format v1 (sdk/slot.ts): the encoder and the parser of slot artifacts. */
module SlotFormat {
  import opened Wrappers
  import opened Bytes

  const FORMAT_VERSION_SLOT: nat := 10
  const MAGIC: bytes := [87, 51, 79, 49]
  const MAX_SLOT_DIM: nat := 16
  const SLOT_HEADER_BYTES: nat := 41
  const MAX_SLOT_ARTIFACT_BYTES: nat := 8192
  const MAX_U16: nat := 0xffff
  const MAX_U32: nat := 0xffff_ffff
  const MAX_U64: nat := 0xffff_ffff_ffff_ffff

  /** The compiler's input; every number is an arbitrary integer. */
  datatype SlotGameSpec = SlotGameSpec(
    rows: int, cols: int, reels: seq<seq<int>>, paylines: seq<seq<int>>, paytable: seq<seq<int>>,
    wildIdx: int, scatterIdx: int, scaleNum: int, scaleDen: int,
    minInput: int, maxInput: int, maxWinMultiplier: int)

  // ---------------------------------------------------------------- layout

  /** What encodeSlotArtifact checks, its range-checked integer writes included. Negative wild and
      scatter indices pass. */
  ghost predicate Encodable(g: SlotGameSpec) {
    && 0 < g.rows <= MAX_SLOT_DIM && 0 < g.cols <= MAX_SLOT_DIM
    && 0 < |g.paytable| <= 255
    && g.wildIdx < |g.paytable| && g.scatterIdx < |g.paytable|
    && |g.reels| == g.cols
    && 0 < |g.paylines| <= MAX_U16
    && 0 < g.scaleNum <= MAX_U32 && 0 < g.scaleDen <= MAX_U32
    && 0 <= g.minInput <= g.maxInput <= MAX_U64
    && 0 < g.maxWinMultiplier <= MAX_U32
    && TablesOk(g)
  }

  ghost predicate TablesOk(g: SlotGameSpec) {
    && (forall i :: 0 <= i < |g.reels| ==> ReelOk(g, g.reels[i]))
    && (forall i :: 0 <= i < |g.paylines| ==> PaylineOk(g, g.paylines[i]))
    && (forall i :: 0 <= i < |g.paytable| ==> PayRowOk(g, g.paytable[i]))
  }

  ghost predicate ReelOk(g: SlotGameSpec, reel: seq<int>) {
    0 < |reel| <= MAX_U16 && AllBelow(reel, |g.paytable|)
  }

  ghost predicate PaylineOk(g: SlotGameSpec, line: seq<int>) {
    |line| == g.cols && AllBelow(line, g.rows)
  }

  ghost predicate PayRowOk(g: SlotGameSpec, row: seq<int>) {
    |row| == g.cols + 1 && AllBelow(row, MAX_U64 + 1)
  }

  ghost predicate AllBelow(s: seq<int>, bound: int) {
    forall i :: 0 <= i < |s| ==> 0 <= s[i] < bound
  }

  /** Buffer.from([v]): the low byte, negative numbers included. */
  function Byte(v: int): byte {
    v % 256
  }

  function ByteString(s: seq<int>): (r: bytes)
    ensures |r| == |s| && forall i :: 0 <= i < |s| ==> r[i] == Byte(s[i])
  {
    seq(|s|, i requires 0 <= i < |s| => Byte(s[i]))
  }

  function Header(g: SlotGameSpec): (h: bytes)
    requires Encodable(g)
    ensures |h| == SLOT_HEADER_BYTES
  {
    MAGIC + LE(FORMAT_VERSION_SLOT, 2) + LE(g.minInput, 8) + LE(g.maxInput, 8) + LE(g.maxWinMultiplier, 4)
    + [Byte(g.rows), Byte(g.cols), Byte(|g.paytable|), Byte(g.wildIdx), Byte(g.scatterIdx)]
    + LE(|g.paylines|, 2) + LE(g.scaleNum, 4) + LE(g.scaleDen, 4)
  }

  function ReelBytes(reel: seq<int>): (s: bytes)
    ensures |s| == 2 + |reel|
  {
    LE(|reel|, 2) + ByteString(reel)
  }

  function ReelChunks(reels: seq<seq<int>>): (cs: seq<bytes>)
    ensures |cs| == |reels| && forall i :: 0 <= i < |reels| ==> cs[i] == ReelBytes(reels[i])
  {
    seq(|reels|, i requires 0 <= i < |reels| => ReelBytes(reels[i]))
  }

  function PaylineChunks(lines: seq<seq<int>>): (cs: seq<bytes>)
    ensures |cs| == |lines| && forall i :: 0 <= i < |lines| ==> cs[i] == ByteString(lines[i])
  {
    seq(|lines|, i requires 0 <= i < |lines| => ByteString(lines[i]))
  }

  function U64(v: int): (s: bytes)
    ensures |s| == 8
  {
    LE(if v < 0 then 0 else v, 8)
  }

  function PayChunks(row: seq<int>): (cs: seq<bytes>)
    ensures |cs| == |row| && forall i :: 0 <= i < |row| ==> cs[i] == U64(row[i])
  {
    seq(|row|, i requires 0 <= i < |row| => U64(row[i]))
  }

  function PaytableChunks(rows: seq<seq<int>>): (cs: seq<bytes>)
    ensures |cs| == |rows| && forall i :: 0 <= i < |rows| ==> cs[i] == Concat(PayChunks(rows[i]))
  {
    seq(|rows|, i requires 0 <= i < |rows| => Concat(PayChunks(rows[i])))
  }

  function Layout(g: SlotGameSpec): bytes
    requires Encodable(g)
  {
    Header(g) + Concat(ReelChunks(g.reels)) + Concat(PaylineChunks(g.paylines)) + Concat(PaytableChunks(g.paytable))
  }

  // ---------------------------------------------------------------- encoder

  method CheckAll(s: seq<int>, bound: int) returns (ok: bool)
    ensures ok <==> AllBelow(s, bound)
  {
    for i := 0 to |s|
      invariant AllBelow(s[..i], bound)
    {
      if s[i] < 0 || s[i] >= bound {
        return false;
      }
      assert s[..i + 1] == s[..i] + [s[i]];
    }
    assert s[..|s|] == s;
    ok := true;
  }

  method EncodeReels(g: SlotGameSpec) returns (r: Result<bytes>)
    ensures r.Ok? <==> forall i :: 0 <= i < |g.reels| ==> ReelOk(g, g.reels[i])
    ensures r.Ok? ==> r.value == Concat(ReelChunks(g.reels))
  {
    var chunk: bytes := [];
    for i := 0 to |g.reels|
      invariant forall k :: 0 <= k < i ==> ReelOk(g, g.reels[k])
      invariant chunk == Concat(ReelChunks(g.reels)[..i])
    {
      var reel := g.reels[i];
      var inRange := CheckAll(reel, |g.paytable|);
      if |reel| == 0 || |reel| > MAX_U16 || !inRange {
        assert !ReelOk(g, g.reels[i]);
        return Err;
      }
      ConcatStep(ReelChunks(g.reels), i);
      chunk := chunk + ReelBytes(reel);
    }
    assert ReelChunks(g.reels)[..|g.reels|] == ReelChunks(g.reels);
    r := Ok(chunk);
  }

  method EncodePaylines(g: SlotGameSpec) returns (r: Result<bytes>)
    ensures r.Ok? <==> forall i :: 0 <= i < |g.paylines| ==> PaylineOk(g, g.paylines[i])
    ensures r.Ok? ==> r.value == Concat(PaylineChunks(g.paylines))
  {
    var chunk: bytes := [];
    for i := 0 to |g.paylines|
      invariant forall k :: 0 <= k < i ==> PaylineOk(g, g.paylines[k])
      invariant chunk == Concat(PaylineChunks(g.paylines)[..i])
    {
      var line := g.paylines[i];
      var inRange := CheckAll(line, g.rows);
      if |line| != g.cols || !inRange {
        assert !PaylineOk(g, g.paylines[i]);
        return Err;
      }
      ConcatStep(PaylineChunks(g.paylines), i);
      chunk := chunk + ByteString(line);
    }
    assert PaylineChunks(g.paylines)[..|g.paylines|] == PaylineChunks(g.paylines);
    r := Ok(chunk);
  }

  method EncodePayRow(g: SlotGameSpec, row: seq<int>) returns (r: Result<bytes>)
    ensures r.Ok? <==> PayRowOk(g, row)
    ensures r.Ok? ==> r.value == Concat(PayChunks(row))
  {
    if |row| != g.cols + 1 {
      return Err;
    }
    var chunk: bytes := [];
    for i := 0 to |row|
      invariant AllBelow(row[..i], MAX_U64 + 1)
      invariant chunk == Concat(PayChunks(row)[..i])
    {
      if row[i] < 0 || row[i] > MAX_U64 {
        return Err;
      }
      ConcatStep(PayChunks(row), i);
      assert row[..i + 1] == row[..i] + [row[i]];
      chunk := chunk + U64(row[i]);
    }
    assert row[..|row|] == row && PayChunks(row)[..|row|] == PayChunks(row);
    r := Ok(chunk);
  }

  /** The rows before i have been checked and written. */
  ghost predicate Written(g: SlotGameSpec, i: nat, chunk: bytes) {
    && i <= |g.paytable| && (forall k :: 0 <= k < i ==> PayRowOk(g, g.paytable[k]))
    && chunk == Concat(PaytableChunks(g.paytable)[..i])
  }

  lemma WriteDone(g: SlotGameSpec, chunk: bytes)
    requires Written(g, |g.paytable|, chunk)
    ensures forall k :: 0 <= k < |g.paytable| ==> PayRowOk(g, g.paytable[k])
    ensures chunk == Concat(PaytableChunks(g.paytable))
  {
    assert PaytableChunks(g.paytable)[..|g.paytable|] == PaytableChunks(g.paytable);
  }

  /** One row of the paytable. */
  method WriteRow(g: SlotGameSpec, i: nat, chunk: bytes) returns (r: Result<bytes>)
    requires i < |g.paytable| && Written(g, i, chunk)
    ensures r.Ok? ==> Written(g, i + 1, r.value)
    ensures r.Err? ==> !PayRowOk(g, g.paytable[i])
  {
    var row := EncodePayRow(g, g.paytable[i]);
    if row.Err? {
      return Err;
    }
    ConcatStep(PaytableChunks(g.paytable), i);
    r := Ok(chunk + row.value);
  }

  method EncodePaytable(g: SlotGameSpec) returns (r: Result<bytes>)
    ensures r.Ok? <==> forall i :: 0 <= i < |g.paytable| ==> PayRowOk(g, g.paytable[i])
    ensures r.Ok? ==> r.value == Concat(PaytableChunks(g.paytable))
  {
    var chunk: bytes := [];
    for i := 0 to |g.paytable|
      invariant Written(g, i, chunk)
    {
      var next := WriteRow(g, i, chunk);
      if next.Err? {
        return Err;
      }
      chunk := next.value;
    }
    WriteDone(g, chunk);
    r := Ok(chunk);
  }

  /** encodeSlotArtifact. */
  method Encode(g: SlotGameSpec) returns (r: Result<bytes>)
    ensures r.Ok? <==> Encodable(g) && |Layout(g)| <= MAX_SLOT_ARTIFACT_BYTES
    ensures r.Ok? ==> r.value == Layout(g)
  {
    if g.rows <= 0 || g.cols <= 0 || g.rows > MAX_SLOT_DIM || g.cols > MAX_SLOT_DIM { return Err; }
    if |g.paytable| == 0 || |g.paytable| > 255 { return Err; }
    if g.wildIdx >= |g.paytable| || g.scatterIdx >= |g.paytable| { return Err; }
    if |g.reels| != g.cols { return Err; }
    if |g.paylines| == 0 || |g.paylines| > MAX_U16 { return Err; }
    if g.scaleNum <= 0 || g.scaleDen <= 0 { return Err; }
    if g.minInput > g.maxInput { return Err; }
    if g.maxWinMultiplier <= 0 { return Err; }
    if g.minInput < 0 || g.maxInput > MAX_U64 || g.maxWinMultiplier > MAX_U32 { return Err; }
    if g.scaleNum > MAX_U32 || g.scaleDen > MAX_U32 { return Err; }
    var reels := EncodeReels(g);
    if reels.Err? { return Err; }
    var paylines := EncodePaylines(g);
    if paylines.Err? { return Err; }
    var paytable := EncodePaytable(g);
    if paytable.Err? { return Err; }
    var blob := Header(g) + reels.value + paylines.value + paytable.value;
    if |blob| > MAX_SLOT_ARTIFACT_BYTES { return Err; }
    r := Ok(blob);
  }

  // ---------------------------------------------------------------- parser: header

  datatype HeaderFields = HeaderFields(
    minInput: nat, maxInput: nat, maxWinMultiplier: nat, rows: nat, cols: nat, symbolCount: nat,
    wildIdx: nat, scatterIdx: nat, paylinesCount: nat, scaleNum: nat, scaleDen: nat)

  function ReadHeader(blob: bytes): HeaderFields
    requires SLOT_HEADER_BYTES <= |blob|
  {
    HeaderFields(FromLE(blob[6..14]), FromLE(blob[14..22]), FromLE(blob[22..26]),
                 blob[26], blob[27], blob[28], blob[29], blob[30],
                 FromLE(blob[31..33]), FromLE(blob[33..37]), FromLE(blob[37..41]))
  }

  predicate HeaderOk(h: HeaderFields) {
    && h.minInput <= h.maxInput && h.maxWinMultiplier != 0
    && h.rows != 0 && h.cols != 0 && h.rows <= MAX_SLOT_DIM && h.cols <= MAX_SLOT_DIM
    && h.symbolCount != 0 && h.wildIdx < h.symbolCount && h.scatterIdx < h.symbolCount
    && h.paylinesCount != 0 && h.scaleNum != 0 && h.scaleDen != 0
  }

  /** Magic, version and header checks, in that order. */
  predicate Preamble(blob: bytes) {
    && SLOT_HEADER_BYTES <= |blob| <= MAX_SLOT_ARTIFACT_BYTES
    && blob[..4] == MAGIC && FromLE(blob[4..6]) == FORMAT_VERSION_SLOT
    && HeaderOk(ReadHeader(blob))
  }

  /** The header of an encodable specification, its two index bytes as written. */
  function HeaderOf(g: SlotGameSpec): HeaderFields
    requires Encodable(g)
  {
    HeaderFields(g.minInput, g.maxInput, g.maxWinMultiplier, g.rows, g.cols, |g.paytable|,
                 Byte(g.wildIdx), Byte(g.scatterIdx), |g.paylines|, g.scaleNum, g.scaleDen)
  }

  /** The fields of the header sit at their fixed offsets. */
  ghost predicate HeaderSlices(g: SlotGameSpec, blob: bytes)
    requires Encodable(g) && SLOT_HEADER_BYTES <= |blob|
  {
    && blob[..4] == MAGIC && blob[4..6] == LE(FORMAT_VERSION_SLOT, 2)
    && blob[6..14] == LE(g.minInput, 8) && blob[14..22] == LE(g.maxInput, 8)
    && blob[22..26] == LE(g.maxWinMultiplier, 4)
    && blob[26] == Byte(g.rows) && blob[27] == Byte(g.cols) && blob[28] == Byte(|g.paytable|)
    && blob[29] == Byte(g.wildIdx) && blob[30] == Byte(g.scatterIdx)
    && blob[31..33] == LE(|g.paylines|, 2) && blob[33..37] == LE(g.scaleNum, 4) && blob[37..41] == LE(g.scaleDen, 4)
  }

  lemma HeaderSliced(g: SlotGameSpec, blob: bytes)
    requires Encodable(g) && SLOT_HEADER_BYTES <= |blob| && blob[..SLOT_HEADER_BYTES] == Header(g)
    ensures HeaderSlices(g, blob)
  {
    var h := Header(g);
    assert forall i, j :: 0 <= i <= j <= 41 ==> blob[i..j] == h[i..j];
    assert blob[26] == h[26] && blob[27] == h[27] && blob[28] == h[28] && blob[29] == h[29] && blob[30] == h[30];
  }

  lemma HeaderRead(g: SlotGameSpec, blob: bytes)
    requires Encodable(g) && SLOT_HEADER_BYTES <= |blob| && blob[..SLOT_HEADER_BYTES] == Header(g)
    ensures blob[..4] == MAGIC && FromLE(blob[4..6]) == FORMAT_VERSION_SLOT
    ensures ReadHeader(blob) == HeaderOf(g)
  {
    HeaderSliced(g, blob);
    Limits();
    FromLEOfLE(FORMAT_VERSION_SLOT, 2);
    FromLEOfLE(g.minInput, 8);
    FromLEOfLE(g.maxInput, 8);
    FromLEOfLE(g.maxWinMultiplier, 4);
    FromLEOfLE(|g.paylines|, 2);
    FromLEOfLE(g.scaleNum, 4);
    FromLEOfLE(g.scaleDen, 4);
  }

  lemma HeaderRebuilt(g: SlotGameSpec, blob: bytes)
    requires Encodable(g) && Preamble(blob) && HeaderOf(g) == ReadHeader(blob)
    ensures Header(g) == blob[..SLOT_HEADER_BYTES]
  {
    SlicesRebuilt(g, blob);
    Assembled(g, blob);
  }

  lemma SlicesRebuilt(g: SlotGameSpec, b: bytes)
    requires Encodable(g) && Preamble(b) && HeaderOf(g) == ReadHeader(b)
    ensures HeaderSlices(g, b)
  {
    FieldRebuilt(b, 4, 2);
    FieldRebuilt(b, 6, 8);
    FieldRebuilt(b, 14, 8);
    FieldRebuilt(b, 22, 4);
    FieldRebuilt(b, 31, 2);
    FieldRebuilt(b, 33, 4);
    FieldRebuilt(b, 37, 4);
  }

  lemma Assembled(g: SlotGameSpec, b: bytes)
    requires Encodable(g) && SLOT_HEADER_BYTES <= |b| && HeaderSlices(g, b)
    ensures Header(g) == b[..SLOT_HEADER_BYTES]
  {
    var five := [Byte(g.rows), Byte(g.cols), Byte(|g.paytable|), Byte(g.wildIdx), Byte(g.scatterIdx)];
    assert five == b[26..31];
    Joined(b);
  }

  lemma Joined(b: bytes)
    requires 41 <= |b|
    ensures b[..4] + b[4..6] + b[6..14] + b[14..22] + b[22..26] + b[26..31] + b[31..33] + b[33..37] + b[37..41] == b[..41]
  {
    Joins(b, 4, 6);
    Joins(b, 6, 14);
    Joins(b, 14, 22);
    Joins(b, 22, 26);
    Joins(b, 26, 31);
    Joins(b, 31, 33);
    Joins(b, 33, 37);
    Joins(b, 37, 41);
  }

  lemma FieldRebuilt(blob: bytes, at: nat, n: nat)
    requires at + n <= |blob|
    ensures LE(FromLE(blob[at..at + n]), n) == blob[at..at + n]
  {
    LEOfFromLE(blob[at..at + n]);
  }

  lemma Joins(blob: bytes, i: nat, j: nat)
    requires i <= j <= |blob|
    ensures blob[..i] + blob[i..j] == blob[..j]
  {}

  // ---------------------------------------------------------------- parser: reels

  ghost predicate ReelFits(reel: seq<int>, symbolCount: nat) {
    0 < |reel| <= MAX_U16 && AllBelow(reel, symbolCount)
  }

  /** These reels are encoded right after the header. */
  ghost predicate ReelsAt(blob: bytes, reels: seq<seq<int>>, cols: nat, symbolCount: nat) {
    && |reels| == cols && symbolCount <= 255
    && (forall i :: 0 <= i < cols ==> ReelFits(reels[i], symbolCount))
    && SLOT_HEADER_BYTES + |Concat(ReelChunks(reels))| <= |blob|
    && blob[SLOT_HEADER_BYTES..SLOT_HEADER_BYTES + |Concat(ReelChunks(reels))|] == Concat(ReelChunks(reels))
  }

  function ReelStart(reels: seq<seq<int>>, col: nat): nat
    requires col <= |reels|
  {
    SLOT_HEADER_BYTES + |Concat(ReelChunks(reels)[..col])|
  }

  /** Where reel `col` starts, its length and then its symbols are found. */
  lemma ReelRead(blob: bytes, reels: seq<seq<int>>, cols: nat, symbolCount: nat, col: nat)
    requires ReelsAt(blob, reels, cols, symbolCount) && col < cols
    ensures var off, len := ReelStart(reels, col), |reels[col]|;
            && off + 2 + len <= |blob| && FromLE(blob[off..off + 2]) == len
            && blob[off + 2..off + 2 + len] == reels[col] && ReelFits(reels[col], symbolCount)
            && ReelStart(reels, col + 1) == off + 2 + len
  {
    var cs := ReelChunks(reels);
    var off, len, total := ReelStart(reels, col), |reels[col]|, |Concat(ReelChunks(reels))|;
    assert ReelFits(reels[col], symbolCount);
    ChunkAt(cs, col);
    ConcatStep(cs, col);
    var at := off - SLOT_HEADER_BYTES;
    SubSlice(blob, SLOT_HEADER_BYTES, SLOT_HEADER_BYTES + total, at, at + 2 + len);
    SubSlice(blob, off, off + 2 + len, 0, 2);
    SubSlice(blob, off, off + 2 + len, 2, 2 + len);
    ReelParts(reels[col], symbolCount);
  }

  lemma ReelParts(reel: seq<int>, symbolCount: nat)
    requires ReelFits(reel, symbolCount) && symbolCount <= 255
    ensures FromLE(ReelBytes(reel)[0..2]) == |reel| && ReelBytes(reel)[2..2 + |reel|] == reel
  {
    Limits();
    FromLEOfLE(|reel|, 2);
    assert ReelBytes(reel)[0..2] == LE(|reel|, 2);
    assert forall i :: 0 <= i < |reel| ==> ByteString(reel)[i] == reel[i];
  }

  ghost predicate NoReels(blob: bytes, cols: nat, symbolCount: nat) {
    forall other: seq<seq<int>> :: !ReelsAt(blob, other, cols, symbolCount)
  }

  /** The reels read so far, as the soundness half of the loop invariant. */
  ghost predicate ReelsRead(blob: bytes, symbolCount: nat, col: nat, off: nat, reels: seq<bytes>) {
    && |reels| == col && SLOT_HEADER_BYTES <= off <= |blob|
    && (forall i :: 0 <= i < col ==> ReelFits(reels[i], symbolCount))
    && blob[SLOT_HEADER_BYTES..off] == Concat(ReelChunks(reels))
  }

  lemma ReelStep(blob: bytes, symbolCount: nat, col: nat, off: nat, reels: seq<bytes>, strip: bytes)
    requires ReelsRead(blob, symbolCount, col, off, reels) && symbolCount <= 255
    requires ReelHere(blob, off, symbolCount) && strip == blob[off + 2..off + 2 + FromLE(blob[off..off + 2])]
    ensures ReelsRead(blob, symbolCount, col + 1, off + 2 + |strip|, reels + [strip])
  {
    var all, len := reels + [strip], |strip|;
    ReelLength(blob, off);
    ReelRebuilt(blob, off, strip);
    assert ReelChunks(all)[..col] == ReelChunks(reels);
    ConcatStep(ReelChunks(all), col);
    assert ReelChunks(all)[..col + 1] == ReelChunks(all);
    SlicesJoin(blob, SLOT_HEADER_BYTES, off, off + 2 + len);
  }

  lemma ReelRebuilt(blob: bytes, off: nat, strip: bytes)
    requires off + 2 + |strip| <= |blob| && FromLE(blob[off..off + 2]) == |strip|
    requires strip == blob[off + 2..off + 2 + |strip|]
    ensures ReelBytes(strip) == blob[off..off + 2 + |strip|]
  {
    LEOfFromLE(blob[off..off + 2]);
    assert ByteString(strip) == strip;
    SlicesJoin(blob, off, off + 2, off + 2 + |strip|);
  }

  lemma SlicesJoin(s: bytes, i: nat, j: nat, k: nat)
    requires i <= j <= k <= |s|
    ensures s[i..k] == s[i..j] + s[j..k]
  {}

  lemma PrefixSnoc<T>(s: seq<T>, i: nat)
    requires i < |s|
    ensures s[..i + 1] == s[..i] + [s[i]]
  {}

  /** One reel at an offset: its length fits and its symbols are in the table. */
  ghost predicate ReelHere(blob: bytes, off: nat, symbolCount: nat) {
    && off + 2 <= |blob|
    && var len := FromLE(blob[off..off + 2]);
       0 < len && off + 2 + len <= |blob| && AllBelow(blob[off + 2..off + 2 + len], symbolCount)
  }

  method ParseReel(blob: bytes, off: nat, symbolCount: nat) returns (r: Result<bytes>)
    ensures r.Ok? <==> ReelHere(blob, off, symbolCount)
    ensures r.Ok? ==> r.value == blob[off + 2..off + 2 + FromLE(blob[off..off + 2])]
  {
    if off + 2 > |blob| { return Err; }
    var len := FromLE(blob[off..off + 2]);
    if len == 0 || off + 2 + len > |blob| { return Err; }
    var strip := blob[off + 2..off + 2 + len];
    var inRange := CheckAll(strip, symbolCount);
    if !inRange { return Err; }
    r := Ok(strip);
  }

  method ParseReels(blob: bytes, cols: nat, symbolCount: nat) returns (r: Result<(seq<bytes>, nat)>)
    requires SLOT_HEADER_BYTES <= |blob| && symbolCount <= 255
    ensures r.Ok? ==> ReelsRead(blob, symbolCount, cols, r.value.1, r.value.0)
    ensures r.Err? ==> NoReels(blob, cols, symbolCount)
  {
    ghost var encoded, other: seq<seq<int>> := !NoReels(blob, cols, symbolCount), [];
    if encoded {
      other :| ReelsAt(blob, other, cols, symbolCount);
    }
    var reels: seq<bytes>, off: nat := [], SLOT_HEADER_BYTES;
    for col := 0 to cols
      invariant ReelsRead(blob, symbolCount, col, off, reels)
      invariant encoded ==> OnTrack(blob, other, cols, symbolCount, col, off)
    {
      if encoded { ReelFound(blob, other, cols, symbolCount, col, off); }
      var strip := ParseReel(blob, off, symbolCount);
      if strip.Err? { return Err; }
      ReelStep(blob, symbolCount, col, off, reels, strip.value);
      reels, off := reels + [strip.value], off + 2 + |strip.value|;
    }
    r := Ok((reels, off));
  }

  /** The parser has reached reel `col` of the reels encoded in the blob. */
  ghost predicate OnTrack(blob: bytes, reels: seq<seq<int>>, cols: nat, symbolCount: nat, col: nat, off: nat) {
    ReelsAt(blob, reels, cols, symbolCount) && col <= cols && off == ReelStart(reels, col)
  }

  lemma ReelFound(blob: bytes, reels: seq<seq<int>>, cols: nat, symbolCount: nat, col: nat, off: nat)
    requires OnTrack(blob, reels, cols, symbolCount, col, off) && col < cols
    ensures ReelHere(blob, off, symbolCount)
    ensures OnTrack(blob, reels, cols, symbolCount, col + 1, off + 2 + FromLE(blob[off..off + 2]))
  {
    ReelRead(blob, reels, cols, symbolCount, col);
  }

  lemma ReelLength(blob: bytes, off: nat)
    requires off + 2 <= |blob|
    ensures FromLE(blob[off..off + 2]) <= MAX_U16
  {
    Limits();
    LEOfFromLE(blob[off..off + 2]);
  }

  // ---------------------------------------------------------------- parser: the rest

  /** The parser's result: header, reel strips and the offsets of the two tables in the blob. */
  datatype SlotSpec = SlotSpec(h: HeaderFields, reels: seq<bytes>, paylinesOff: nat, paytableOff: nat, blob: bytes)

  function Stride(cols: nat): nat {
    (cols + 1) * 8
  }

  /** The two tables fill the blob from the end of the reels to its last byte. */
  predicate Sized(p: SlotSpec) {
    && p.paylinesOff <= p.paytableOff <= |p.blob|
    && p.paytableOff - p.paylinesOff == p.h.paylinesCount * p.h.cols
    && |p.blob| - p.paytableOff == p.h.symbolCount * Stride(p.h.cols)
  }

  /** Everything the parser has established about its result. */
  ghost predicate Parsed(p: SlotSpec) {
    && Preamble(p.blob) && p.h == ReadHeader(p.blob)
    && ReelsRead(p.blob, p.h.symbolCount, p.h.cols, p.paylinesOff, p.reels)
    && Sized(p)
    && AllBelow(p.blob[p.paylinesOff..p.paytableOff], p.h.rows)
  }

  function PaylineTable(p: SlotSpec): (lines: seq<bytes>)
    requires Sized(p)
    ensures |lines| == p.h.paylinesCount && forall i :: 0 <= i < |lines| ==> |lines[i]| == p.h.cols
  {
    Cut(p.blob[p.paylinesOff..p.paytableOff], p.h.paylinesCount, p.h.cols)
  }

  function Numbers(row: bytes, n: nat): (ns: seq<nat>)
    requires |row| == n * 8
    ensures |ns| == n && forall j :: 0 <= j < n ==> ns[j] == FromLE(Cut(row, n, 8)[j])
  {
    seq(n, j requires 0 <= j < n => FromLE(Cut(row, n, 8)[j]))
  }

  /** The paytable's rows as they lie in the blob. */
  function RawRows(p: SlotSpec): (rows: seq<bytes>)
    requires Sized(p)
    ensures |rows| == p.h.symbolCount && forall i :: 0 <= i < |rows| ==> |rows[i]| == (p.h.cols + 1) * 8
  {
    Cut(p.blob[p.paytableOff..], p.h.symbolCount, Stride(p.h.cols))
  }

  function AllNumbers(rows: seq<bytes>, n: nat): (ns: seq<seq<nat>>)
    requires forall i :: 0 <= i < |rows| ==> |rows[i]| == n * 8
    ensures |ns| == |rows| && forall i :: 0 <= i < |rows| ==> ns[i] == Numbers(rows[i], n)
  {
    seq(|rows|, i requires 0 <= i < |rows| => Numbers(rows[i], n))
  }

  function PayTable(p: SlotSpec): (rows: seq<seq<nat>>)
    requires Sized(p)
    ensures |rows| == p.h.symbolCount && forall i :: 0 <= i < |rows| ==> |rows[i]| == p.h.cols + 1
  {
    AllNumbers(RawRows(p), p.h.cols + 1)
  }

  /** The game specification a parsed artifact stands for. */
  function SpecOf(p: SlotSpec): (g: SlotGameSpec)
    requires Sized(p)
  {
    SlotGameSpec(p.h.rows, p.h.cols, p.reels, PaylineTable(p), PayTable(p),
                 p.h.wildIdx, p.h.scatterIdx, p.h.scaleNum, p.h.scaleDen,
                 p.h.minInput, p.h.maxInput, p.h.maxWinMultiplier)
  }

  /** Specifications whose index bytes are not wrapped. */
  ghost predicate Canonical(g: SlotGameSpec) {
    Encodable(g) && 0 <= g.wildIdx && 0 <= g.scatterIdx
  }

  lemma HeaderLimits(blob: bytes)
    requires SLOT_HEADER_BYTES <= |blob|
    ensures var h := ReadHeader(blob);
            h.minInput <= MAX_U64 && h.maxInput <= MAX_U64 && h.maxWinMultiplier <= MAX_U32
            && h.paylinesCount <= MAX_U16 && h.scaleNum <= MAX_U32 && h.scaleDen <= MAX_U32
  {
    Limits();
    LEOfFromLE(blob[6..14]);
    LEOfFromLE(blob[14..22]);
    LEOfFromLE(blob[22..26]);
    LEOfFromLE(blob[31..33]);
    LEOfFromLE(blob[33..37]);
    LEOfFromLE(blob[37..41]);
  }

  lemma CutBelow(s: bytes, n: nat, w: nat, bound: int)
    requires |s| == n * w && AllBelow(s, bound)
    ensures forall i :: 0 <= i < n ==> AllBelow(Cut(s, n, w)[i], bound)
  {
    forall i | 0 <= i < n
      ensures AllBelow(Cut(s, n, w)[i], bound)
    {
      CutAt(s, n, w, i);
      var c := Cut(s, n, w)[i];
      assert forall j :: 0 <= j < w ==> c[j] == s[i * w + j];
    }
  }

  lemma NumbersBelow(row: bytes, n: nat)
    requires |row| == n * 8
    ensures AllBelow(Numbers(row, n), MAX_U64 + 1)
  {
    forall j | 0 <= j < n
      ensures 0 <= Numbers(row, n)[j] < MAX_U64 + 1
    {
      Limits();
      LEOfFromLE(Cut(row, n, 8)[j]);
    }
  }

  lemma SpecTablesOk(p: SlotSpec)
    requires Sized(p) && AllBelow(p.blob[p.paylinesOff..p.paytableOff], p.h.rows)
    ensures forall i :: 0 <= i < p.h.paylinesCount ==> AllBelow(PaylineTable(p)[i], p.h.rows)
    ensures forall i :: 0 <= i < p.h.symbolCount ==> AllBelow(PayTable(p)[i], MAX_U64 + 1)
  {
    CutBelow(p.blob[p.paylinesOff..p.paytableOff], p.h.paylinesCount, p.h.cols, p.h.rows);
    forall i | 0 <= i < p.h.symbolCount
      ensures AllBelow(PayTable(p)[i], MAX_U64 + 1)
    {
      NumbersBelow(RawRows(p)[i], p.h.cols + 1);
    }
  }

  lemma ReelsFit(g: SlotGameSpec, reels: seq<bytes>, symbolCount: nat)
    requires g.reels == reels && |g.paytable| == symbolCount
    requires forall i :: 0 <= i < |reels| ==> ReelFits(reels[i], symbolCount)
    ensures forall i :: 0 <= i < |g.reels| ==> ReelOk(g, g.reels[i])
  {
    forall i | 0 <= i < |g.reels|
      ensures ReelOk(g, g.reels[i])
    {
      assert ReelFits(reels[i], symbolCount);
    }
  }

  lemma TablesFit(g: SlotGameSpec, p: SlotSpec)
    requires Sized(p) && AllBelow(p.blob[p.paylinesOff..p.paytableOff], p.h.rows)
    requires g.paylines == PaylineTable(p) && g.paytable == PayTable(p) && g.cols == p.h.cols && g.rows == p.h.rows
    ensures forall i :: 0 <= i < |g.paylines| ==> PaylineOk(g, g.paylines[i])
    ensures forall i :: 0 <= i < |g.paytable| ==> PayRowOk(g, g.paytable[i])
  {
    SpecTablesOk(p);
  }

  lemma SpecCanonical(p: SlotSpec)
    requires Parsed(p)
    ensures Canonical(SpecOf(p)) && HeaderOf(SpecOf(p)) == p.h
  {
    HeaderLimits(p.blob);
    SpecTables(p);
    SpecBytes(p.h.rows, p.h.cols, p.h.symbolCount, p.h.wildIdx, p.h.scatterIdx);
  }

  lemma SpecBytes(rows: nat, cols: nat, symbols: byte, wild: nat, scatter: nat)
    requires rows <= MAX_SLOT_DIM && cols <= MAX_SLOT_DIM && wild < symbols && scatter < symbols
    ensures Byte(rows) == rows && Byte(cols) == cols && Byte(symbols) == symbols && Byte(wild) == wild && Byte(scatter) == scatter
  {}

  lemma SpecTables(p: SlotSpec)
    requires Parsed(p)
    ensures TablesOk(SpecOf(p))
  {
    ReelsFit(SpecOf(p), p.reels, p.h.symbolCount);
    TablesFit(SpecOf(p), p);
  }

  lemma ByteStringId(s: bytes)
    ensures ByteString(s) == s
  {}

  lemma PaylinesRebuilt(p: SlotSpec)
    requires Sized(p)
    ensures Concat(PaylineChunks(PaylineTable(p))) == p.blob[p.paylinesOff..p.paytableOff]
  {
    var lines := PaylineTable(p);
    forall i | 0 <= i < |lines|
      ensures PaylineChunks(lines)[i] == lines[i]
    {
      ByteStringId(lines[i]);
    }
    assert PaylineChunks(lines) == lines;
    ConcatCut(p.blob[p.paylinesOff..p.paytableOff], p.h.paylinesCount, p.h.cols);
  }

  lemma NumbersRebuilt(row: bytes, n: nat)
    requires |row| == n * 8
    ensures Concat(PayChunks(Numbers(row, n))) == row
  {
    var ns := Numbers(row, n);
    forall j | 0 <= j < n
      ensures PayChunks(ns)[j] == Cut(row, n, 8)[j]
    {
      LEOfFromLE(Cut(row, n, 8)[j]);
    }
    assert PayChunks(ns) == Cut(row, n, 8);
    ConcatCut(row, n, 8);
  }

  lemma PaytableRebuilt(p: SlotSpec)
    requires Sized(p)
    ensures Concat(PaytableChunks(PayTable(p))) == p.blob[p.paytableOff..]
  {
    var raw, rows := RawRows(p), PayTable(p);
    forall i | 0 <= i < |rows|
      ensures PaytableChunks(rows)[i] == raw[i]
    {
      NumbersRebuilt(raw[i], p.h.cols + 1);
    }
    assert PaytableChunks(rows) == raw;
    ConcatCut(p.blob[p.paytableOff..], p.h.symbolCount, Stride(p.h.cols));
  }

  /** An accepted blob is the encoding of the specification it stands for. */
  lemma ParsedIsEncoding(p: SlotSpec)
    requires Parsed(p)
    ensures Canonical(SpecOf(p)) && Layout(SpecOf(p)) == p.blob
  {
    SpecCanonical(p);
    HeaderRebuilt(SpecOf(p), p.blob);
    PaylinesRebuilt(p);
    PaytableRebuilt(p);
    ThreeCuts(p.blob, SLOT_HEADER_BYTES, p.paylinesOff, p.paytableOff);
  }

  lemma ThreeCuts(b: bytes, i: nat, j: nat, k: nat)
    requires i <= j <= k <= |b|
    ensures b[..i] + b[i..j] + b[j..k] + b[k..] == b
  {}

  // ---------------------------------------------------------------- parser: uniqueness and completeness

  lemma ReelUnique(blob: bytes, a: seq<seq<int>>, b: seq<seq<int>>, cols: nat, symbolCount: nat, col: nat)
    requires ReelsAt(blob, a, cols, symbolCount) && ReelsAt(blob, b, cols, symbolCount) && col < cols
    requires ReelStart(a, col) == ReelStart(b, col)
    ensures a[col] == b[col] && ReelStart(a, col + 1) == ReelStart(b, col + 1)
  {
    ReelRead(blob, a, cols, symbolCount, col);
    ReelRead(blob, b, cols, symbolCount, col);
  }

  lemma {:induction false} ReelsUnique(blob: bytes, a: seq<seq<int>>, b: seq<seq<int>>, cols: nat, symbolCount: nat, n: nat)
    requires ReelsAt(blob, a, cols, symbolCount) && ReelsAt(blob, b, cols, symbolCount) && n <= cols
    ensures a[..n] == b[..n] && ReelStart(a, n) == ReelStart(b, n)
  {
    if n > 0 {
      ReelsUnique(blob, a, b, cols, symbolCount, n - 1);
      ReelUnique(blob, a, b, cols, symbolCount, n - 1);
      PrefixSnoc(a, n - 1);
      PrefixSnoc(b, n - 1);
    }
  }

  ghost predicate EncodingOf(blob: bytes, g: SlotGameSpec) {
    Canonical(g) && Layout(g) == blob && |blob| <= MAX_SLOT_ARTIFACT_BYTES
  }

  function ReelsEnd(g: SlotGameSpec): nat {
    SLOT_HEADER_BYTES + |Concat(ReelChunks(g.reels))|
  }

  function PaylinesEnd(g: SlotGameSpec): nat {
    ReelsEnd(g) + |Concat(PaylineChunks(g.paylines))|
  }

  /** The four parts of an encoding lie one after another. */
  lemma LayoutParts(g: SlotGameSpec)
    requires Encodable(g)
    ensures var blob := Layout(g);
            && SLOT_HEADER_BYTES <= ReelsEnd(g) <= PaylinesEnd(g) <= |blob|
            && blob[..SLOT_HEADER_BYTES] == Header(g)
            && blob[SLOT_HEADER_BYTES..ReelsEnd(g)] == Concat(ReelChunks(g.reels))
            && blob[ReelsEnd(g)..PaylinesEnd(g)] == Concat(PaylineChunks(g.paylines))
            && blob[PaylinesEnd(g)..] == Concat(PaytableChunks(g.paytable))
  {}

  lemma EncodingReels(blob: bytes, g: SlotGameSpec)
    requires EncodingOf(blob, g)
    ensures ReelsAt(blob, g.reels, g.cols, |g.paytable|)
  {
    LayoutParts(g);
    forall i | 0 <= i < |g.reels|
      ensures ReelFits(g.reels[i], |g.paytable|)
    {
      assert ReelOk(g, g.reels[i]);
    }
  }

  lemma CanonicalHeaderOk(g: SlotGameSpec)
    requires Canonical(g)
    ensures HeaderOk(HeaderOf(g))
    ensures HeaderOf(g).wildIdx == g.wildIdx && HeaderOf(g).scatterIdx == g.scatterIdx
  {}

  lemma EncodingHeader(blob: bytes, g: SlotGameSpec)
    requires EncodingOf(blob, g)
    ensures Preamble(blob) && ReadHeader(blob) == HeaderOf(g)
    ensures HeaderOf(g).wildIdx == g.wildIdx && HeaderOf(g).scatterIdx == g.scatterIdx
  {
    LayoutParts(g);
    HeaderRead(g, blob);
    CanonicalHeaderOk(g);
  }

  lemma PaytableWidths(g: SlotGameSpec)
    requires Encodable(g)
    ensures forall i :: 0 <= i < |g.paytable| ==> |PaytableChunks(g.paytable)[i]| == Stride(g.cols)
    ensures |Concat(PaytableChunks(g.paytable))| == |g.paytable| * Stride(g.cols)
  {
    forall i | 0 <= i < |g.paytable|
      ensures |PaytableChunks(g.paytable)[i]| == Stride(g.cols)
    {
      assert PayRowOk(g, g.paytable[i]);
      FixedWidth(PayChunks(g.paytable[i]), 8);
    }
    FixedWidth(PaytableChunks(g.paytable), Stride(g.cols));
  }

  lemma PaylineWidths(g: SlotGameSpec)
    requires Encodable(g)
    ensures forall i :: 0 <= i < |g.paylines| ==> |PaylineChunks(g.paylines)[i]| == g.cols
    ensures |Concat(PaylineChunks(g.paylines))| == |g.paylines| * g.cols
  {
    forall i | 0 <= i < |g.paylines|
      ensures |PaylineChunks(g.paylines)[i]| == g.cols
    {
      assert PaylineOk(g, g.paylines[i]);
    }
    FixedWidth(PaylineChunks(g.paylines), g.cols);
  }

  lemma {:induction false} ConcatBelow(chunks: seq<bytes>, bound: int)
    requires forall i :: 0 <= i < |chunks| ==> AllBelow(chunks[i], bound)
    ensures AllBelow(Concat(chunks), bound)
  {
    if chunks != [] {
      ConcatBelow(chunks[..|chunks| - 1], bound);
    }
  }

  lemma PaylineRows(g: SlotGameSpec)
    requires Encodable(g)
    ensures AllBelow(Concat(PaylineChunks(g.paylines)), g.rows)
  {
    forall i | 0 <= i < |g.paylines|
      ensures AllBelow(PaylineChunks(g.paylines)[i], g.rows)
    {
      assert PaylineOk(g, g.paylines[i]);
    }
    ConcatBelow(PaylineChunks(g.paylines), g.rows);
  }

  lemma EncodingTail(blob: bytes, g: SlotGameSpec)
    requires EncodingOf(blob, g)
    ensures PaylinesEnd(g) == ReelsEnd(g) + |g.paylines| * g.cols <= |blob|
    ensures |blob| - PaylinesEnd(g) == |g.paytable| * Stride(g.cols)
    ensures AllBelow(blob[ReelsEnd(g)..PaylinesEnd(g)], g.rows)
  {
    LayoutParts(g);
    PaylineWidths(g);
    PaytableWidths(g);
    PaylineRows(g);
  }

  lemma ReadIsAt(blob: bytes, symbolCount: nat, cols: nat, off: nat, reels: seq<bytes>)
    requires ReelsRead(blob, symbolCount, cols, off, reels) && symbolCount <= 255
    ensures ReelsAt(blob, reels, cols, symbolCount) && off == ReelStart(reels, cols)
  {
    assert ReelChunks(reels)[..cols] == ReelChunks(reels);
  }

  lemma SameReels(blob: bytes, g: SlotGameSpec, off: nat, reels: seq<bytes>)
    requires EncodingOf(blob, g) && ReelsRead(blob, |g.paytable|, g.cols, off, reels)
    ensures reels == g.reels && off == ReelsEnd(g)
  {
    EncodingReels(blob, g);
    ReadIsAt(blob, |g.paytable|, g.cols, off, reels);
    ReelsUnique(blob, g.reels, reels, g.cols, |g.paytable|, g.cols);
    assert g.reels[..g.cols] == g.reels && reels[..g.cols] == reels;
    assert ReelChunks(g.reels)[..g.cols] == ReelChunks(g.reels);
  }

  /** The tables: their sizes must add up to the end of the blob. */
  ghost predicate TailOk(blob: bytes, h: HeaderFields, off: nat) {
    var end := off + h.paylinesCount * h.cols;
    && off <= end <= |blob| && |blob| - end == h.symbolCount * Stride(h.cols)
    && AllBelow(blob[off..end], h.rows)
  }

  method ParseTail(blob: bytes, h: HeaderFields, off: nat) returns (r: Result<nat>)
    requires off <= |blob|
    ensures r.Ok? <==> TailOk(blob, h, off)
    ensures r.Ok? ==> r.value == off + h.paylinesCount * h.cols
  {
    var paylinesBytes := h.paylinesCount * h.cols;
    if off + paylinesBytes > |blob| { return Err; }
    var inRange := CheckAll(blob[off..off + paylinesBytes], h.rows);
    if !inRange { return Err; }
    if off + paylinesBytes + h.symbolCount * Stride(h.cols) != |blob| { return Err; }
    r := Ok(off + paylinesBytes);
  }

  /** Whatever reels are read, the tables after them pass. */
  ghost predicate TailsOk(blob: bytes, h: HeaderFields) {
    forall off: nat, reels :: ReelsRead(blob, h.symbolCount, h.cols, off, reels) ==> TailOk(blob, h, off)
  }

  ghost predicate Encoded(blob: bytes) {
    exists g :: EncodingOf(blob, g)
  }

  /** The checks after the preamble pass. */
  ghost predicate BodyPasses(blob: bytes, h: HeaderFields) {
    !NoReels(blob, h.cols, h.symbolCount) && TailsOk(blob, h)
  }

  /** Every check of the parser passes on the encoding of a canonical specification. */
  lemma EncodingPasses(blob: bytes)
    requires Encoded(blob)
    ensures Preamble(blob) && BodyPasses(blob, ReadHeader(blob))
  {
    var g :| EncodingOf(blob, g);
    EncodingHeader(blob, g);
    EncodingReels(blob, g);
    EncodingTail(blob, g);
    var h := ReadHeader(blob);
    forall off: nat, reels | ReelsRead(blob, h.symbolCount, h.cols, off, reels)
      ensures TailOk(blob, h, off)
    {
      SameReels(blob, g, off, reels);
    }
  }

  /** The checks after the preamble. */
  method ParseBody(blob: bytes, h: HeaderFields) returns (r: Result<SlotSpec>)
    requires SLOT_HEADER_BYTES <= |blob| && h.symbolCount <= 255
    ensures r.Ok? ==> r.value.blob == blob && r.value.h == h && Sized(r.value)
    ensures r.Ok? ==> ReelsRead(blob, h.symbolCount, h.cols, r.value.paylinesOff, r.value.reels)
    ensures r.Ok? ==> AllBelow(blob[r.value.paylinesOff..r.value.paytableOff], h.rows)
    ensures r.Err? ==> !BodyPasses(blob, h)
  {
    var reels := ParseReels(blob, h.cols, h.symbolCount);
    if reels.Err? { return Err; }
    var tail := ParseTail(blob, h, reels.value.1);
    if tail.Err? { return Err; }
    r := Ok(SlotSpec(h, reels.value.0, reels.value.1, tail.value, blob));
  }

  /** parseSlotArtifact: accepts exactly the encodings of canonical specifications. */
  method Parse(blob: bytes) returns (r: Result<SlotSpec>)
    ensures r.Ok? ==> Parsed(r.value) && r.value.blob == blob
    ensures r.Err? ==> !Encoded(blob)
  {
    if !Preamble(blob) {
      if Encoded(blob) { EncodingPasses(blob); }
      return Err;
    }
    r := ParseBody(blob, ReadHeader(blob));
    if r.Err? && Encoded(blob) { EncodingPasses(blob); }
  }

  lemma BytesDetermine(a: seq<int>, b: bytes)
    requires ByteString(a) == b && AllBelow(a, 256)
    ensures a == b
  {
    assert forall i :: 0 <= i < |a| ==> ByteString(a)[i] == a[i];
  }

  lemma SamePaylines(p: SlotSpec, g: SlotGameSpec)
    requires Sized(p) && EncodingOf(p.blob, g) && p.paylinesOff == ReelsEnd(g) && p.paytableOff == PaylinesEnd(g)
    requires p.h.paylinesCount == |g.paylines| && p.h.cols == g.cols
    ensures PaylineTable(p) == g.paylines
  {
    LayoutParts(g);
    PaylineWidths(g);
    ConcatCut(p.blob[p.paylinesOff..p.paytableOff], p.h.paylinesCount, p.h.cols);
    ConcatInjective(PaylineChunks(g.paylines), PaylineTable(p), g.cols);
    forall i | 0 <= i < |g.paylines|
      ensures PaylineTable(p)[i] == g.paylines[i]
    {
      assert PaylineOk(g, g.paylines[i]);
      BytesDetermine(g.paylines[i], PaylineTable(p)[i]);
    }
  }

  lemma SameRow(row: seq<int>, raw: bytes, n: nat)
    requires |row| == n && AllBelow(row, MAX_U64 + 1) && |raw| == n * 8 && Concat(PayChunks(row)) == raw
    ensures Numbers(raw, n) == row
  {
    ConcatCut(raw, n, 8);
    ConcatInjective(PayChunks(row), Cut(raw, n, 8), 8);
    forall j | 0 <= j < n
      ensures Numbers(raw, n)[j] == row[j]
    {
      Limits();
      FromLEOfLE(row[j], 8);
    }
  }

  lemma SamePaytable(p: SlotSpec, g: SlotGameSpec)
    requires Sized(p) && EncodingOf(p.blob, g) && p.paytableOff == PaylinesEnd(g)
    requires p.h.symbolCount == |g.paytable| && p.h.cols == g.cols
    ensures PayTable(p) == g.paytable
  {
    LayoutParts(g);
    PaytableWidths(g);
    ConcatCut(p.blob[p.paytableOff..], p.h.symbolCount, Stride(p.h.cols));
    ConcatInjective(PaytableChunks(g.paytable), RawRows(p), Stride(g.cols));
    forall i | 0 <= i < |g.paytable|
      ensures PayTable(p)[i] == g.paytable[i]
    {
      assert PayRowOk(g, g.paytable[i]);
      SameRow(g.paytable[i], RawRows(p)[i], g.cols + 1);
    }
  }

  /** Round trip: the parsed form of an encoding stands for the specification that was encoded. With
      ParsedIsEncoding, distinct canonical specifications have distinct encodings. */
  lemma RoundTrip(p: SlotSpec, g: SlotGameSpec)
    requires Parsed(p) && EncodingOf(p.blob, g)
    ensures SpecOf(p) == g
  {
    EncodingHeader(p.blob, g);
    SameReels(p.blob, g, p.paylinesOff, p.reels);
    EncodingTail(p.blob, g);
    SamePaylines(p, g);
    SamePaytable(p, g);
  }

  /** The specification that an encoding stands for: the two indices as the bytes they are written as. */
  function Wrapped(g: SlotGameSpec): SlotGameSpec {
    g.(wildIdx := Byte(g.wildIdx), scatterIdx := Byte(g.scatterIdx))
  }

  /** The index bytes as written name symbols of the game. */
  predicate IndicesSurvive(g: SlotGameSpec) {
    Byte(g.wildIdx) < |g.paytable| && Byte(g.scatterIdx) < |g.paytable|
  }

  lemma WrappedTables(g: SlotGameSpec)
    requires Encodable(g) && IndicesSurvive(g)
    ensures Canonical(Wrapped(g))
  {
    var w := Wrapped(g);
    forall i | 0 <= i < |g.reels|
      ensures ReelOk(w, w.reels[i])
    {
      assert ReelOk(g, g.reels[i]);
    }
    forall i | 0 <= i < |g.paylines|
      ensures PaylineOk(w, w.paylines[i])
    {
      assert PaylineOk(g, g.paylines[i]);
    }
    forall i | 0 <= i < |g.paytable|
      ensures PayRowOk(w, w.paytable[i])
    {
      assert PayRowOk(g, g.paytable[i]);
    }
  }

  /** What is written does not tell an index from its low byte. */
  lemma LayoutWraps(g: SlotGameSpec)
    requires Encodable(g) && IndicesSurvive(g)
    ensures Canonical(Wrapped(g)) && Layout(Wrapped(g)) == Layout(g)
  {
    WrappedTables(g);
    assert Header(Wrapped(g)) == Header(g);
  }

  /** An encoding that parses has index bytes in range. */
  lemma ParsedIndices(p: SlotSpec, g: SlotGameSpec)
    requires Encodable(g) && Parsed(p) && p.blob == Layout(g)
    ensures IndicesSurvive(g)
  {
    LayoutParts(g);
    HeaderRead(g, p.blob);
  }

  /** A negative index passes the encoder's checks and is written as its low byte. The encoding
      parses exactly when both bytes are in range, and then it stands for the wrapped specification. */
  lemma EncodingStandsFor(g: SlotGameSpec)
    requires Encodable(g) && |Layout(g)| <= MAX_SLOT_ARTIFACT_BYTES
    ensures Encoded(Layout(g)) <==> IndicesSurvive(g)
    ensures forall p :: Parsed(p) && p.blob == Layout(g) ==> SpecOf(p) == Wrapped(g)
  {
    if IndicesSurvive(g) {
      LayoutWraps(g);
      EncodingHasParse(Wrapped(g));
      assert EncodingOf(Layout(g), Wrapped(g));
    }
    if Encoded(Layout(g)) {
      var e :| EncodingOf(Layout(g), e);
      EncodingHasParse(e);
      var p :| Parsed(p) && p.blob == Layout(g) && SpecOf(p) == e;
      ParsedIndices(p, g);
    }
    forall p | Parsed(p) && p.blob == Layout(g)
      ensures SpecOf(p) == Wrapped(g)
    {
      ParsedIndices(p, g);
      LayoutWraps(g);
      RoundTrip(p, Wrapped(g));
    }
  }

  /** The round trip holds exactly for non-negative indices. */
  lemma RoundTripExactly(g: SlotGameSpec)
    requires Encodable(g) && |Layout(g)| <= MAX_SLOT_ARTIFACT_BYTES
    ensures (exists p :: Parsed(p) && p.blob == Layout(g) && SpecOf(p) == g) <==> 0 <= g.wildIdx && 0 <= g.scatterIdx
  {
    if 0 <= g.wildIdx && 0 <= g.scatterIdx {
      EncodingHasParse(g);
    }
  }

  /** A one-symbol game with the given wild index. */
  function OneSymbolGame(wildIdx: int): SlotGameSpec {
    SlotGameSpec(1, 1, [[0]], [[0]], [[0, 0]], wildIdx, 0, 1, 1, 1, 1, 1)
  }

  /** Both ways of failing happen: the encoder accepts the wild indices -1 and -256; the encoding of
      the first is rejected by the parser, and that of the second stands for a game with wild index 0. */
  lemma NegativeIndices()
    ensures var g := OneSymbolGame(-1);
            Encodable(g) && |Layout(g)| <= MAX_SLOT_ARTIFACT_BYTES && !Encoded(Layout(g))
    ensures var g := OneSymbolGame(-256);
            Encodable(g) && |Layout(g)| <= MAX_SLOT_ARTIFACT_BYTES && Wrapped(g) == OneSymbolGame(0) && Layout(g) == Layout(OneSymbolGame(0))
  {
    OneSymbolFits(-1);
    OneSymbolFits(-256);
    EncodingStandsFor(OneSymbolGame(-1));
    LayoutWraps(OneSymbolGame(-256));
  }

  lemma OneSymbolFits(wildIdx: int)
    requires wildIdx < 1
    ensures Encodable(OneSymbolGame(wildIdx)) && |Layout(OneSymbolGame(wildIdx))| <= MAX_SLOT_ARTIFACT_BYTES
  {
    var g := OneSymbolGame(wildIdx);
    assert ReelOk(g, [0]) && PaylineOk(g, [0]) && PayRowOk(g, [0, 0]);
    assert ReelChunks(g.reels) == [ReelBytes([0])] && PaylineChunks(g.paylines) == [ByteString([0])];
    assert Concat(ReelChunks(g.reels)[..0]) == [];
    PaytableWidths(g);
    PaylineWidths(g);
  }

  lemma EncodingHasParse(g: SlotGameSpec)
    requires Encodable(g) && EncodingOf(Layout(g), g)
    ensures exists p :: Parsed(p) && p.blob == Layout(g) && SpecOf(p) == g
  {
    var blob := Layout(g);
    EncodingHeader(blob, g);
    EncodingReels(blob, g);
    EncodingTail(blob, g);
    LayoutParts(g);
    var reels: seq<bytes> := seq(|g.reels|, i requires 0 <= i < |g.reels| => ByteString(g.reels[i]));
    forall i | 0 <= i < |g.reels|
      ensures reels[i] == g.reels[i] && ReelFits(reels[i], |g.paytable|)
    {
      assert ReelOk(g, g.reels[i]);
      BytesDetermine(g.reels[i], reels[i]);
    }
    assert ReelChunks(reels) == ReelChunks(g.reels);
    var p := SlotSpec(ReadHeader(blob), reels, ReelsEnd(g), PaylinesEnd(g), blob);
    assert Parsed(p);
    RoundTrip(p, g);
  }

  // ---------------------------------------------------------------- the format's rules on its bytes

  /** The checks on the header, in bytes: magic "W3O1", version 10, bounds in order, a positive cap,
      dimensions from 1 to 16, indices below the number of symbols, and nothing else zero. */
  ghost predicate PreambleRules(blob: bytes) {
    && 41 <= |blob| <= 8192
    && blob[0] == 87 && blob[1] == 51 && blob[2] == 79 && blob[3] == 49 && FromLE(blob[4..6]) == 10
    && FromLE(blob[6..14]) <= FromLE(blob[14..22]) && 0 < FromLE(blob[22..26])
    && 1 <= blob[26] <= 16 && 1 <= blob[27] <= 16 && blob[29] < blob[28] && blob[30] < blob[28]
    && 0 < FromLE(blob[31..33]) && 0 < FromLE(blob[33..37]) && 0 < FromLE(blob[37..41])
  }

  lemma PreambleByRules(blob: bytes)
    ensures Preamble(blob) <==> PreambleRules(blob)
  {
    if 41 <= |blob| {
      var m := blob[..4];
      assert m == [m[0], m[1], m[2], m[3]];
    }
  }

  /** The header of a parsed artifact, in bytes. */
  lemma HeaderContent(p: SlotSpec)
    requires Parsed(p)
    ensures var b, h := p.blob, p.h;
            && 41 <= |b| && h.minInput == FromLE(b[6..14]) && h.maxInput == FromLE(b[14..22]) && h.maxWinMultiplier == FromLE(b[22..26])
            && h.rows == b[26] && h.cols == b[27] && h.symbolCount == b[28] && h.wildIdx == b[29] && h.scatterIdx == b[30]
            && h.paylinesCount == FromLE(b[31..33]) && h.scaleNum == FromLE(b[33..37]) && h.scaleDen == FromLE(b[37..41])
  {}

  /** Where reel c of an encoding starts: behind the header and the reels before it, two bytes more than
      their symbols each. */
  function ReelPlace(reels: seq<seq<int>>, c: nat): nat
    requires c <= |reels|
  {
    if c == 0 then 41 else ReelPlace(reels, c - 1) + 2 + |reels[c - 1]|
  }

  lemma {:induction false} ReelPlaceIs(reels: seq<seq<int>>, c: nat)
    requires c <= |reels|
    ensures ReelPlace(reels, c) == ReelStart(reels, c)
  {
    var cs := ReelChunks(reels);
    if c > 0 {
      ReelPlaceIs(reels, c - 1);
      ConcatStep(cs, c - 1);
    }
  }

  /** Where the paylines and the paytable of an encoding start. */
  function LinesPlace(g: SlotGameSpec): nat {
    ReelPlace(g.reels, |g.reels|)
  }

  lemma PlacesAre(g: SlotGameSpec)
    requires Encodable(g)
    ensures LinesPlace(g) == ReelsEnd(g) && PaylinesEnd(g) == LinesPlace(g) + |g.paylines| * g.cols
    ensures |Layout(g)| == PaylinesEnd(g) + |g.paytable| * ((g.cols + 1) * 8)
  {
    ReelPlaceIs(g.reels, |g.reels|);
    assert ReelChunks(g.reels)[..|g.reels|] == ReelChunks(g.reels);
    PaylineWidths(g);
    PaytableWidths(g);
    LayoutParts(g);
  }

  /** The numbers of the header, where they lie. */
  ghost predicate HeaderLies(b: bytes, g: SlotGameSpec)
    requires Encodable(g)
  {
    && 41 <= |b| && b[0] == 87 && b[1] == 51 && b[2] == 79 && b[3] == 49 && b[4..6] == LE(10, 2)
    && b[6..14] == LE(g.minInput, 8) && b[14..22] == LE(g.maxInput, 8) && b[22..26] == LE(g.maxWinMultiplier, 4)
    && b[26] == g.rows && b[27] == g.cols && b[28] == |g.paytable| && b[29] == g.wildIdx % 256 && b[30] == g.scatterIdx % 256
    && b[31..33] == LE(|g.paylines|, 2) && b[33..37] == LE(g.scaleNum, 4) && b[37..41] == LE(g.scaleDen, 4)
  }

  lemma HeaderInBlob(b: bytes, g: SlotGameSpec)
    requires Encodable(g) && 41 <= |b| && b[..41] == Header(g)
    ensures HeaderLies(b, g)
  {
    HeaderSliced(g, b);
    assert b[..4][0] == 87 && b[..4][1] == 51 && b[..4][2] == 79 && b[..4][3] == 49;
  }

  /** Every number of the specification lies in its place of the encoding: the header. */
  lemma HeaderBytes(g: SlotGameSpec)
    requires Encodable(g)
    ensures HeaderLies(Layout(g), g)
  {
    LayoutParts(g);
    HeaderInBlob(Layout(g), g);
  }

  lemma ReelsOfEncoding(g: SlotGameSpec)
    requires Encodable(g)
    ensures ReelsAt(Layout(g), g.reels, g.cols, |g.paytable|)
  {
    LayoutParts(g);
    forall i | 0 <= i < |g.reels|
      ensures ReelFits(g.reels[i], |g.paytable|)
    {
      assert ReelOk(g, g.reels[i]);
    }
  }

  /** Reel c: its length in two bytes, then its symbols. */
  ghost predicate ReelLies(b: bytes, reels: seq<seq<int>>, c: nat) {
    && c < |reels|
    && var at, n := ReelPlace(reels, c), |reels[c]|;
       at + 2 + n <= |b| && FromLE(b[at..at + 2]) == n && b[at + 2..at + 2 + n] == reels[c]
  }

  lemma ReelInBlob(b: bytes, reels: seq<seq<int>>, cols: nat, symbolCount: nat, c: nat)
    requires ReelsAt(b, reels, cols, symbolCount) && c < cols
    ensures ReelLies(b, reels, c)
  {
    ReelPlaceIs(reels, c);
    ReelRead(b, reels, cols, symbolCount, c);
  }

  /** The reels lie one after the other behind the header. */
  lemma ReelBytesAt(g: SlotGameSpec, c: nat)
    requires Encodable(g) && c < |g.reels|
    ensures ReelLies(Layout(g), g.reels, c)
  {
    ReelsOfEncoding(g);
    ReelInBlob(Layout(g), g.reels, g.cols, |g.paytable|, c);
  }

  /** Chunk i of a part cut into chunks of w bytes. */
  lemma FixedChunkInPart(b: bytes, from: nat, to: nat, cs: seq<bytes>, w: nat, i: nat)
    requires from <= to <= |b| && b[from..to] == Concat(cs) && i < |cs| && forall k :: 0 <= k < |cs| ==> |cs[k]| == w
    ensures 0 <= i * w && from + i * w + w <= to && b[from + i * w..from + i * w + w] == cs[i]
  {
    FixedChunkAt(cs, w, i);
    SubSlice(b, from, to, i * w, i * w + w);
  }

  /** Payline l, one byte a column. */
  lemma PaylineBytesAt(g: SlotGameSpec, l: nat, c: nat)
    requires Encodable(g) && l < |g.paylines| && c < g.cols
    ensures var b, at := Layout(g), LinesPlace(g) + l * g.cols + c; 0 <= at < |b| && |g.paylines[l]| == g.cols && b[at] == g.paylines[l][c]
  {
    PlacesAre(g);
    PaylineWidths(g);
    LayoutParts(g);
    assert PaylineOk(g, g.paylines[l]);
    FixedChunkInPart(Layout(g), ReelsEnd(g), PaylinesEnd(g), PaylineChunks(g.paylines), g.cols, l);
    ByteInChunk(Layout(g), LinesPlace(g) + l * g.cols, g.cols, g.paylines[l], c);
  }

  lemma ByteInChunk(b: bytes, at: nat, w: nat, line: seq<int>, c: nat)
    requires at + w <= |b| && |line| == w && c < w && b[at..at + w] == ByteString(line) && 0 <= line[c] < 256
    ensures b[at + c] == line[c]
  {
    assert b[at..at + w][c] == ByteString(line)[c];
  }

  /** What the symbol s pays for k matches, in eight bytes. */
  lemma PaytableBytesAt(g: SlotGameSpec, s: nat, k: nat)
    requires Encodable(g) && s < |g.paytable| && k <= g.cols
    ensures var b, at := Layout(g), LinesPlace(g) + |g.paylines| * g.cols + s * ((g.cols + 1) * 8) + k * 8;
            0 <= at && at + 8 <= |b| && |g.paytable[s]| == g.cols + 1 && 0 <= g.paytable[s][k] && b[at..at + 8] == LE(g.paytable[s][k], 8)
  {
    var b, w, row := Layout(g), Stride(g.cols), g.paytable[s];
    PlacesAre(g);
    PaytableWidths(g);
    LayoutParts(g);
    assert PayRowOk(g, row);
    assert b[PaylinesEnd(g)..|b|] == b[PaylinesEnd(g)..];
    FixedChunkInPart(b, PaylinesEnd(g), |b|, PaytableChunks(g.paytable), w, s);
    var at := PaylinesEnd(g) + s * w;
    FixedChunkInPart(b, at, at + w, PayChunks(row), 8, k);
  }
}
