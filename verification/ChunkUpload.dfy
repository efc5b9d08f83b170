/** Chunked artifact upload: the on-chain instructions, the resumable writer of sdk/operator.ts as a
    state machine over crashes, restarts and concurrent uploaders, and the two readers. */
module ChunkUpload {
  import opened Wrappers
  import opened Bytes

  const CHUNK_SIZE: nat := 1024
  const CHUNK_WRITE_BYTES: nat := 900
  const MAX_WRITE_CHUNK_BYTES: nat := 900
  const MAX_CHUNKS: nat := 8
  const MAX_COMPILED_ARTIFACT_BYTES: nat := 8192

  type Key = b: bytes | |b| == 32 witness seq(32, _ => 0)
  type Page = b: bytes | |b| == CHUNK_SIZE witness seq(CHUNK_SIZE, _ => 0)

  datatype Status = Pending | Approved | Rejected | Deprecated

  /** The artifact account; its address is derived from the hash. */
  datatype Artifact = Artifact(hash: Key, publisher: Key, status: Status, finalized: bool, blobLen: nat, chunkCount: nat)

  /** A chunk account: `data` is a fixed buffer of which `writtenLen` bytes are filled. */
  datatype Chunk = Chunk(hash: Key, index: nat, writtenLen: nat, data: Page)

  /** The chunk accounts of one artifact, by the position their address is derived from. */
  type Chunks = map<nat, Chunk>

  datatype Ledger = Ledger(artifact: Artifact, chunks: Chunks)

  /** SHA-256, address derivation, the program's own key, and the parser of the artifact's format. */
  datatype World = World(H: bytes -> Key, pda: (Key, nat) -> Key, programId: Key, valid: bytes -> bool)

  function Min(a: int, b: int): int {
    if a < b then a else b
  }

  function ChunkCount(blobLen: nat): nat {
    (blobLen + CHUNK_SIZE - 1) / CHUNK_SIZE
  }

  /** expectedChunkLen of sdk/verify.ts: negative past the end of the blob. */
  function ExpectedLen(blobLen: nat, index: nat): int {
    Min(CHUNK_SIZE, blobLen - index * CHUNK_SIZE)
  }

  /** expected_chunk_len of the program: an error from the end of the blob on. */
  function ExpectedChunkLen(blobLen: nat, index: nat): Option<nat> {
    if index * CHUNK_SIZE >= blobLen then None else Some(Min(CHUNK_SIZE, blobLen - index * CHUNK_SIZE))
  }

  lemma ExpectedLenRange(blobLen: nat, index: nat)
    ensures index < ChunkCount(blobLen) <==> ExpectedChunkLen(blobLen, index).Some?
    ensures index < ChunkCount(blobLen) ==>
              && 0 < ExpectedLen(blobLen, index) <= CHUNK_SIZE
              && index * CHUNK_SIZE + ExpectedLen(blobLen, index) <= blobLen
              && ExpectedChunkLen(blobLen, index) == Some(ExpectedLen(blobLen, index))
  {}

  /** The bytes of the blob that belong to a chunk. */
  function Slice(blob: bytes, index: nat): (s: bytes)
    requires index < ChunkCount(|blob|)
    ensures |s| == ExpectedLen(|blob|, index)
  {
    ExpectedLenRange(|blob|, index);
    blob[index * CHUNK_SIZE..index * CHUNK_SIZE + ExpectedLen(|blob|, index)]
  }

  // ---------------------------------------------------------------- instructions

  /** submit_compiled_artifact; the empty blob is refused. */
  function Submit(hash: Key, publisher: Key, blobLen: nat): (r: Option<Artifact>)
    ensures r.Some? <==> 0 < blobLen <= MAX_COMPILED_ARTIFACT_BYTES
  {
    if blobLen > MAX_COMPILED_ARTIFACT_BYTES || blobLen == 0 || ChunkCount(blobLen) > MAX_CHUNKS then None
    else Some(Artifact(hash, publisher, Pending, false, blobLen, ChunkCount(blobLen)))
  }

  /** What both chunk instructions and the finalization demand. */
  predicate Open(a: Artifact, signer: Key) {
    a.status.Pending? && !a.finalized && a.publisher == signer
  }

  /** init_compiled_artifact_chunk: an existing account is an error. */
  function InitChunk(l: Ledger, signer: Key, index: nat): Option<Chunks> {
    if index in l.chunks || !Open(l.artifact, signer) || index >= l.artifact.chunkCount then None
    else Some(l.chunks[index := Chunk(l.artifact.hash, index, 0, seq(CHUNK_SIZE, _ => 0))])
  }

  /** write_compiled_artifact_chunk: appends at `writtenLen` and nowhere else. */
  function AppendChunk(l: Ledger, signer: Key, index: nat, offset: nat, part: bytes): Option<Chunks> {
    if index !in l.chunks || !Open(l.artifact, signer) || part == [] || |part| > MAX_WRITE_CHUNK_BYTES
       || index >= l.artifact.chunkCount then None
    else
      var c := l.chunks[index];
      var len := ExpectedChunkLen(l.artifact.blobLen, index);
      if c.hash != l.artifact.hash || c.index != index || len.None? || offset + |part| > len.value
         || c.writtenLen != offset then None
      else
        Some(l.chunks[index := c.(writtenLen := offset + |part|,
                                  data := c.data[..offset] + part + c.data[offset + |part|..])])
  }

  /** finalize_compiled_artifact, given the blob that its reader returned. */
  function Finalize(w: World, a: Artifact, signer: Key, loaded: Option<bytes>): Option<Artifact> {
    if !Open(a, signer) || loaded.None? || w.H(loaded.value) != a.hash || !w.valid(loaded.value) then None
    else Some(a.(finalized := true))
  }

  /** review_compiled_artifact, signed by the admin. */
  function Review(a: Artifact, status: Status): Option<Artifact> {
    if status.Pending? || (!status.Rejected? && !a.finalized) || (status.Approved? && !a.status.Pending?) then None
    else Some(a.(status := status))
  }

  // ---------------------------------------------------------------- readers

  datatype ReadError =
    | InvalidArtifactChunkCount
    | MissingArtifactChunk
    | InvalidArtifactChunkPda
    | BlobNotFullyWritten
    | InvalidCompiledArtifactFormat
    | ArtifactChunkMissing

  datatype ReadResult = Blob(blob: bytes) | Failed(error: ReadError)

  /** The chunk is bound to this artifact and position and is completely written. */
  predicate ReadableChunk(a: Artifact, index: nat, c: Chunk) {
    c.hash == a.hash && c.index == index && c.writtenLen == ExpectedLen(a.blobLen, index)
  }

  ghost predicate AllReadable(l: Ledger) {
    forall i: nat :: i < l.artifact.chunkCount ==> i in l.chunks && ReadableChunk(l.artifact, i, l.chunks[i])
  }

  /** The concatenation of the first n chunks' filled bytes. */
  ghost function Joined(chunks: Chunks, n: nat): bytes
    requires forall i: nat :: i < n ==> i in chunks && chunks[i].writtenLen <= CHUNK_SIZE
  {
    if n == 0 then [] else Joined(chunks, n - 1) + chunks[n - 1].data[..chunks[n - 1].writtenLen]
  }

  /** What the verifier reads: nothing unless every chunk is there and full. */
  ghost function Reconstructed(l: Ledger): Option<bytes> {
    if AllReadable(l) && |Joined(l.chunks, l.artifact.chunkCount)| == l.artifact.blobLen
    then Some(Joined(l.chunks, l.artifact.chunkCount)) else None
  }

  /** reconstructArtifactBlob of sdk/verify.ts: reads the chunk accounts by address. */
  method Reconstruct(l: Ledger) returns (r: ReadResult)
    ensures r == if Reconstructed(l).Some? then Blob(Reconstructed(l).value) else Failed(ArtifactChunkMissing)
  {
    var a := l.artifact;
    var blob: bytes := [];
    for i := 0 to a.chunkCount
      invariant forall k: nat :: k < i ==> k in l.chunks && ReadableChunk(a, k, l.chunks[k])
      invariant blob == Joined(l.chunks, i)
    {
      if i !in l.chunks {
        return Failed(ArtifactChunkMissing);
      }
      var c := l.chunks[i];
      if c.hash != a.hash || c.index != i || c.writtenLen != ExpectedLen(a.blobLen, i) {
        assert !ReadableChunk(a, i, l.chunks[i]);
        return Failed(ArtifactChunkMissing);
      }
      blob := blob + c.data[..c.writtenLen];
    }
    if |blob| != a.blobLen {
      return Failed(ArtifactChunkMissing);
    }
    r := Blob(blob);
  }

  /** An account handed to the on-chain reader. */
  datatype AccountInfo = AccountInfo(key: Key, owner: Key, data: bytes)

  const DISCRIMINATOR: bytes := [172, 72, 71, 77, 233, 238, 194, 12]
  const LEN: nat := 8 + 32 + 4 + 2 + CHUNK_SIZE

  /** The account data of a chunk. */
  function Stored(c: Chunk): (d: bytes)
    ensures |d| == LEN
  {
    DISCRIMINATOR + c.hash + LE(c.index, 4) + LE(c.writtenLen, 2) + c.data
  }

  lemma StoredReads(c: Chunk)
    requires c.index < 0x1_0000_0000 && c.writtenLen <= CHUNK_SIZE
    ensures var d := Stored(c);
            && d[..8] == DISCRIMINATOR && d[8..40] == c.hash && FromLE(d[40..44]) == c.index
            && FromLE(d[44..46]) == c.writtenLen && d[46..46 + c.writtenLen] == c.data[..c.writtenLen]
  {
    Limits();
    FromLEOfLE(c.index, 4);
    FromLEOfLE(c.writtenLen, 2);
    var d := Stored(c);
    assert d[40..44] == LE(c.index, 4) && d[44..46] == LE(c.writtenLen, 2) && d[46..] == c.data;
    assert d[46..46 + c.writtenLen] == d[46..][..c.writtenLen];
  }

  /** Account i passes the checks of the on-chain reader for position i. */
  predicate RightAccount(w: World, a: Artifact, index: nat, info: AccountInfo) {
    && info.key == w.pda(a.hash, index) && info.owner == w.programId
    && |info.data| == LEN && info.data[..8] == DISCRIMINATOR
    && info.data[8..40] == a.hash && FromLE(info.data[40..44]) == index
    && ExpectedChunkLen(a.blobLen, index) == Some(FromLE(info.data[44..46]))
  }

  ghost predicate RightAccounts(w: World, a: Artifact, infos: seq<AccountInfo>) {
    forall i :: 0 <= i < |infos| ==> RightAccount(w, a, i, infos[i])
  }

  function Filled(info: AccountInfo): bytes
    requires |info.data| == LEN && FromLE(info.data[44..46]) <= CHUNK_SIZE
  {
    info.data[46..46 + FromLE(info.data[44..46])]
  }

  ghost function JoinedAccounts(w: World, a: Artifact, infos: seq<AccountInfo>): bytes
    requires RightAccounts(w, a, infos)
  {
    if infos == [] then [] else
      var n := |infos| - 1;
      assert RightAccount(w, a, n, infos[n]);
      JoinedAccounts(w, a, infos[..n]) + Filled(infos[n])
  }

  /** What the program reads from the accounts it is handed. */
  ghost function Loaded(w: World, a: Artifact, infos: seq<AccountInfo>): Option<bytes> {
    if 0 < a.chunkCount == |infos| && RightAccounts(w, a, infos) && |JoinedAccounts(w, a, infos)| == a.blobLen
    then Some(JoinedAccounts(w, a, infos)) else None
  }

  /** The account is this artifact's chunk for position i, filled or not. */
  ghost predicate BoundAccount(w: World, a: Artifact, i: nat, info: AccountInfo) {
    && info.key == w.pda(a.hash, i) && info.owner == w.programId
    && |info.data| == 8 + 32 + 4 + 2 + 1024 && info.data[..8] == [172, 72, 71, 77, 233, 238, 194, 12]
    && info.data[8..40] == a.hash && FromLE(info.data[40..44]) == i
  }

  /** Why account i, the first wrong one, is refused. */
  ghost predicate RefusedAt(w: World, a: Artifact, infos: seq<AccountInfo>, i: nat, error: ReadError) {
    && i < |infos| && (forall j :: 0 <= j < i ==> RightAccount(w, a, j, infos[j])) && !RightAccount(w, a, i, infos[i])
    && error == if !BoundAccount(w, a, i, infos[i]) then InvalidArtifactChunkPda
                else if 1024 * i < a.blobLen then BlobNotFullyWritten
                else InvalidCompiledArtifactFormat
  }

  /** load_blob_from_remaining of the on-chain program. */
  method LoadBlob(w: World, a: Artifact, remaining: seq<AccountInfo>) returns (r: ReadResult)
    ensures r.Blob? <==> Loaded(w, a, remaining).Some?
    ensures r.Blob? ==> r.blob == Loaded(w, a, remaining).value
    ensures r == Failed(MissingArtifactChunk) <==> |remaining| < a.chunkCount
    ensures a.chunkCount == 0 || |remaining| > a.chunkCount ==> r == Failed(InvalidArtifactChunkCount)
    ensures 0 < a.chunkCount == |remaining| && r.Failed? ==>
              || (exists i: nat :: RefusedAt(w, a, remaining, i, r.error))
              || (RightAccounts(w, a, remaining) && r.error == InvalidCompiledArtifactFormat)
  {
    if a.chunkCount == 0 {
      return Failed(InvalidArtifactChunkCount);
    }
    if |remaining| < a.chunkCount {
      return Failed(MissingArtifactChunk);
    }
    if |remaining| > a.chunkCount {
      return Failed(InvalidArtifactChunkCount);
    }
    var blob: bytes := [];
    for i := 0 to a.chunkCount
      invariant forall j :: 0 <= j < i ==> RightAccount(w, a, j, remaining[j])
      invariant blob == JoinedAccounts(w, a, remaining[..i])
    {
      var info := remaining[i];
      if info.key != w.pda(a.hash, i) || info.owner != w.programId || |info.data| != LEN
         || info.data[..8] != DISCRIMINATOR || info.data[8..40] != a.hash || FromLE(info.data[40..44]) != i {
        assert RefusedAt(w, a, remaining, i, InvalidArtifactChunkPda);
        return Failed(InvalidArtifactChunkPda);
      }
      var expected := ExpectedChunkLen(a.blobLen, i);
      var writtenLen := FromLE(info.data[44..46]);
      if expected.None? {
        assert RefusedAt(w, a, remaining, i, InvalidCompiledArtifactFormat);
        return Failed(InvalidCompiledArtifactFormat);
      }
      if writtenLen != expected.value {
        assert RefusedAt(w, a, remaining, i, BlobNotFullyWritten);
        return Failed(BlobNotFullyWritten);
      }
      assert RightAccount(w, a, i, remaining[i]);
      assert remaining[..i + 1][..i] == remaining[..i];
      blob := blob + info.data[46..46 + expected.value];
    }
    assert remaining[..|remaining|] == remaining;
    if |blob| != a.blobLen {
      return Failed(InvalidCompiledArtifactFormat);
    }
    r := Blob(blob);
  }

  // ---------------------------------------------------------------- any signer, any instruction

  /** The runtime hands the program the data stored at each derived address it owns. */
  ghost predicate RealAccounts(w: World, l: Ledger, infos: seq<AccountInfo>) {
    forall i :: 0 <= i < |infos| && infos[i].key == w.pda(l.artifact.hash, i) && infos[i].owner == w.programId ==>
      i in l.chunks && infos[i].data == Stored(l.chunks[i])
  }

  datatype Instruction =
    | Init(signer: Key, index: nat)
    | Append(signer: Key, index: nat, offset: nat, part: bytes)
    | Finish(signer: Key, infos: seq<AccountInfo>)
    | Judge(status: Status)

  /** The ledger after an instruction; a rejected one changes nothing. */
  ghost function Execute(w: World, l: Ledger, ins: Instruction): Option<Ledger> {
    match ins
    case Init(signer, index) =>
      var r := InitChunk(l, signer, index);
      if r.Some? then Some(Ledger(l.artifact, r.value)) else None
    case Append(signer, index, offset, part) =>
      var r := AppendChunk(l, signer, index, offset, part);
      if r.Some? then Some(Ledger(l.artifact, r.value)) else None
    case Finish(signer, infos) =>
      var r := Finalize(w, l.artifact, signer, Loaded(w, l.artifact, infos));
      if r.Some? then Some(Ledger(r.value, l.chunks)) else None
    case Judge(status) =>
      var r := Review(l.artifact, status);
      if r.Some? then Some(Ledger(r.value, l.chunks)) else None
  }

  ghost predicate Real(w: World, l: Ledger, ins: Instruction) {
    ins.Finish? ==> RealAccounts(w, l, ins.infos)
  }

  ghost predicate ChunkShaped(a: Artifact, index: nat, c: Chunk) {
    && index < ChunkCount(a.blobLen)
    && c.hash == a.hash && c.index == index && c.writtenLen <= ExpectedLen(a.blobLen, index)
  }

  /** Every chunk belongs to the artifact and holds no more than its share. */
  ghost predicate Shaped(l: Ledger) {
    && 0 < l.artifact.blobLen <= MAX_COMPILED_ARTIFACT_BYTES
    && l.artifact.chunkCount == ChunkCount(l.artifact.blobLen)
    && forall i :: i in l.chunks ==> ChunkShaped(l.artifact, i, l.chunks[i])
  }

  ghost predicate Full(a: Artifact, chunks: Chunks, index: nat) {
    index in chunks && chunks[index].writtenLen == ExpectedLen(a.blobLen, index)
  }

  ghost predicate FullBelow(a: Artifact, chunks: Chunks, n: nat) {
    forall i: nat :: i < n ==> Full(a, chunks, i)
  }

  /** Written bytes stay as they are; more may follow. */
  ghost predicate ChunkExtends(older: Chunk, newer: Chunk) {
    && older.writtenLen <= newer.writtenLen
    && (newer.writtenLen <= CHUNK_SIZE ==> newer.data[..older.writtenLen] == older.data[..older.writtenLen])
  }

  /** Later ledgers only ever extend earlier ones. */
  ghost predicate Extends(older: Ledger, newer: Ledger) {
    && newer.artifact.hash == older.artifact.hash && newer.artifact.publisher == older.artifact.publisher
    && newer.artifact.blobLen == older.artifact.blobLen && newer.artifact.chunkCount == older.artifact.chunkCount
    && (older.artifact.finalized ==> newer.artifact.finalized)
    && forall i :: i in older.chunks ==> i in newer.chunks && ChunkExtends(older.chunks[i], newer.chunks[i])
  }

  lemma ExtendsTrans(a: Ledger, b: Ledger, c: Ledger)
    requires Extends(a, b) && Extends(b, c) && Shaped(c)
    ensures Extends(a, c)
  {
    forall i | i in a.chunks
      ensures i in c.chunks && ChunkExtends(a.chunks[i], c.chunks[i])
    {
      assert ChunkExtends(a.chunks[i], b.chunks[i]) && ChunkExtends(b.chunks[i], c.chunks[i]);
      ExpectedLenRange(c.artifact.blobLen, i);
      var n, m := a.chunks[i].writtenLen, b.chunks[i].writtenLen;
      assert ChunkShaped(c.artifact, i, c.chunks[i]);
      assert c.chunks[i].data[..m][..n] == c.chunks[i].data[..n];
      assert b.chunks[i].data[..m][..n] == b.chunks[i].data[..n];
    }
  }

  /** Whatever is executed, by whomever: chunks keep their shape and written bytes stay. */
  lemma ExecuteExtends(w: World, l: Ledger, ins: Instruction)
    requires Shaped(l) && Execute(w, l, ins).Some?
    ensures Shaped(Execute(w, l, ins).value) && Extends(l, Execute(w, l, ins).value)
  {
    var l' := Execute(w, l, ins).value;
    match ins
    case Init(signer, index) =>
      ExpectedLenRange(l.artifact.blobLen, index);
      forall i | i in l.chunks
        ensures ChunkShaped(l.artifact, i, l'.chunks[i])
      {
        assert l'.chunks[i] == l.chunks[i] && ChunkShaped(l.artifact, i, l.chunks[i]);
      }
    case Append(signer, index, offset, part) =>
      ExpectedLenRange(l.artifact.blobLen, index);
      assert l'.chunks[index].data[..offset] == l.chunks[index].data[..offset];
      forall i | i in l.chunks
        ensures ChunkShaped(l.artifact, i, l'.chunks[i])
      {
        assert ChunkShaped(l.artifact, i, l.chunks[i]);
      }
    case Finish(signer, infos) =>
    case Judge(status) =>
  }

  /** Who may do what, in plain terms. Only the publisher may open, fill or finalize, and only while the
      artifact is pending and not finalized; a write continues exactly where the chunk ends, in 1 to 900
      bytes, within the chunk's 1024 bytes and within the blob; a finalization needs a valid blob of the
      committed digest. The admin may reject any time, approve a finalized pending artifact, and
      deprecate a finalized one. */
  ghost predicate Allowed(w: World, l: Ledger, ins: Instruction) {
    var a := l.artifact;
    match ins
    case Init(signer, index) =>
      signer == a.publisher && a.status == Pending && !a.finalized && index !in l.chunks && 1024 * index < a.blobLen
    case Append(signer, index, offset, part) =>
      && signer == a.publisher && a.status == Pending && !a.finalized && index in l.chunks
      && 1 <= |part| <= 900 && offset == l.chunks[index].writtenLen
      && offset + |part| <= 1024 && 1024 * index + offset + |part| <= a.blobLen
    case Finish(signer, infos) =>
      && signer == a.publisher && a.status == Pending && !a.finalized
      && var blob := Loaded(w, a, infos); blob.Some? && w.H(blob.value) == a.hash && w.valid(blob.value)
    case Judge(status) =>
      status == Rejected || (status == Deprecated && a.finalized) || (status == Approved && a.finalized && a.status == Pending)
  }

  /** What an allowed instruction does, and nothing else. */
  ghost predicate Effect(l: Ledger, ins: Instruction, l': Ledger) {
    match ins
    case Init(signer, index) =>
      && l'.artifact == l.artifact && l'.chunks.Keys == l.chunks.Keys + {index}
      && (forall i :: i in l.chunks ==> l'.chunks[i] == l.chunks[i])
      && l'.chunks[index].hash == l.artifact.hash && l'.chunks[index].index == index && l'.chunks[index].writtenLen == 0
    case Append(signer, index, offset, part) =>
      && l'.artifact == l.artifact && l'.chunks.Keys == l.chunks.Keys && index in l.chunks && offset + |part| <= 1024
      && (forall i :: i in l.chunks && i != index ==> l'.chunks[i] == l.chunks[i])
      && var c, c' := l.chunks[index], l'.chunks[index];
         && c'.hash == c.hash && c'.index == c.index && c'.writtenLen == c.writtenLen + |part|
         && c'.data[..offset] == c.data[..offset] && c'.data[offset..offset + |part|] == part
         && c'.data[offset + |part|..] == c.data[offset + |part|..]
    case Finish(signer, infos) =>
      l'.chunks == l.chunks && l'.artifact == l.artifact.(finalized := true)
    case Judge(status) =>
      l'.chunks == l.chunks && l'.artifact == l.artifact.(status := status)
  }

  /** The instructions are accepted exactly when allowed, and do exactly what they should. */
  lemma ExecutesExactly(w: World, l: Ledger, ins: Instruction)
    requires Shaped(l)
    ensures Execute(w, l, ins).Some? <==> Allowed(w, l, ins)
    ensures Execute(w, l, ins).Some? ==> Effect(l, ins, Execute(w, l, ins).value)
  {
    match ins
    case Init(signer, index) => ExpectedLenRange(l.artifact.blobLen, index);
    case Append(signer, index, offset, part) =>
      ExpectedLenRange(l.artifact.blobLen, index);
      if index in l.chunks { assert ChunkShaped(l.artifact, index, l.chunks[index]); }
      if Execute(w, l, ins).Some? {
        var c := Execute(w, l, ins).value.chunks[index];
        assert c.data[offset..offset + |part|] == part;
        assert c.data[..offset] == l.chunks[index].data[..offset];
      }
    case Finish(signer, infos) =>
    case Judge(status) =>
  }

  // ---------------------------------------------------------------- what readers see

  lemma FullIsReadable(l: Ledger)
    requires Shaped(l)
    ensures AllReadable(l) <==> FullBelow(l.artifact, l.chunks, l.artifact.chunkCount)
  {
    forall i: nat | i < l.artifact.chunkCount
      ensures i in l.chunks && ReadableChunk(l.artifact, i, l.chunks[i]) <==> Full(l.artifact, l.chunks, i)
    {
      if i in l.chunks { assert ChunkShaped(l.artifact, i, l.chunks[i]); }
    }
    if FullBelow(l.artifact, l.chunks, l.artifact.chunkCount) {
      forall i: nat | i < l.artifact.chunkCount
        ensures i in l.chunks && ReadableChunk(l.artifact, i, l.chunks[i])
      {
        assert Full(l.artifact, l.chunks, i);
      }
    }
  }

  lemma {:induction false} JoinedLength(l: Ledger, n: nat)
    requires Shaped(l) && AllReadable(l) && n <= l.artifact.chunkCount
    ensures forall i: nat :: i < n ==> i in l.chunks && l.chunks[i].writtenLen <= CHUNK_SIZE
    ensures |Joined(l.chunks, n)| == Min(n * CHUNK_SIZE, l.artifact.blobLen)
  {
    forall i: nat | i < n
      ensures i in l.chunks && l.chunks[i].writtenLen <= CHUNK_SIZE
    {
      assert ReadableChunk(l.artifact, i, l.chunks[i]);
    }
    if n > 0 {
      JoinedLength(l, n - 1);
      assert ReadableChunk(l.artifact, n - 1, l.chunks[n - 1]);
    }
  }

  /** The verifier's reader succeeds exactly when all chunks are full. */
  lemma ReconstructedWhenFull(l: Ledger)
    requires Shaped(l)
    ensures Reconstructed(l).Some? <==> FullBelow(l.artifact, l.chunks, l.artifact.chunkCount)
  {
    FullIsReadable(l);
    if AllReadable(l) { JoinedLength(l, l.artifact.chunkCount); }
  }

  lemma AccountHolds(w: World, l: Ledger, i: nat, info: AccountInfo)
    requires Shaped(l) && i in l.chunks && info.data == Stored(l.chunks[i])
    requires info.key == w.pda(l.artifact.hash, i) && info.owner == w.programId
    ensures RightAccount(w, l.artifact, i, info) <==> ReadableChunk(l.artifact, i, l.chunks[i])
    ensures RightAccount(w, l.artifact, i, info) ==>
              l.chunks[i].writtenLen <= CHUNK_SIZE && Filled(info) == l.chunks[i].data[..l.chunks[i].writtenLen]
  {
    assert ChunkShaped(l.artifact, i, l.chunks[i]);
    ExpectedLenRange(l.artifact.blobLen, i);
    StoredReads(l.chunks[i]);
  }

  lemma AcceptedAccount(w: World, l: Ledger, infos: seq<AccountInfo>, i: nat)
    requires Shaped(l) && RealAccounts(w, l, infos) && i < |infos| && RightAccount(w, l.artifact, i, infos[i])
    ensures i in l.chunks && ReadableChunk(l.artifact, i, l.chunks[i]) && l.chunks[i].writtenLen <= CHUNK_SIZE
    ensures Filled(infos[i]) == l.chunks[i].data[..l.chunks[i].writtenLen]
  {
    AccountHolds(w, l, i, infos[i]);
  }

  lemma {:induction false} AccountsJoin(w: World, l: Ledger, infos: seq<AccountInfo>, n: nat)
    requires Shaped(l) && RealAccounts(w, l, infos) && RightAccounts(w, l.artifact, infos) && n <= |infos|
    requires forall i: nat :: i < |infos| ==> i in l.chunks && l.chunks[i].writtenLen <= CHUNK_SIZE
    ensures RightAccounts(w, l.artifact, infos[..n])
    ensures JoinedAccounts(w, l.artifact, infos[..n]) == Joined(l.chunks, n)
  {
    if n > 0 {
      AccountsJoin(w, l, infos, n - 1);
      var now := infos[..n];
      assert RightAccount(w, l.artifact, n - 1, infos[n - 1]);
      AcceptedAccount(w, l, infos, n - 1);
      assert now[..n - 1] == infos[..n - 1] && now[n - 1] == infos[n - 1];
    }
  }

  lemma AllAccepted(w: World, l: Ledger, infos: seq<AccountInfo>)
    requires Shaped(l) && RealAccounts(w, l, infos) && RightAccounts(w, l.artifact, infos)
    ensures forall i: nat :: i < |infos| ==>
              i in l.chunks && l.chunks[i].writtenLen <= CHUNK_SIZE && ReadableChunk(l.artifact, i, l.chunks[i])
    ensures JoinedAccounts(w, l.artifact, infos) == Joined(l.chunks, |infos|)
  {
    forall i: nat | i < |infos|
      ensures i in l.chunks && l.chunks[i].writtenLen <= CHUNK_SIZE && ReadableChunk(l.artifact, i, l.chunks[i])
    {
      assert RightAccount(w, l.artifact, i, infos[i]);
      AcceptedAccount(w, l, infos, i);
    }
    AccountsJoin(w, l, infos, |infos|);
    assert infos[..|infos|] == infos;
  }

  /** The accounts at the derived addresses, as the runtime hands them over. */
  function AccountsOf(w: World, l: Ledger): (infos: seq<AccountInfo>)
    requires AllReadable(l)
    ensures |infos| == l.artifact.chunkCount && RealAccounts(w, l, infos)
  {
    seq(l.artifact.chunkCount, i requires 0 <= i < l.artifact.chunkCount =>
      assert ReadableChunk(l.artifact, i, l.chunks[i]);
      AccountInfo(w.pda(l.artifact.hash, i), w.programId, Stored(l.chunks[i])))
  }

  /** The two readers agree: whatever accounts the program accepts, it reads what the verifier
      reads, and when the verifier can read, the derived accounts are accepted. */
  lemma ReadersAgree(w: World, l: Ledger, infos: seq<AccountInfo>)
    requires Shaped(l) && RealAccounts(w, l, infos)
    ensures Loaded(w, l.artifact, infos).Some? ==> Loaded(w, l.artifact, infos) == Reconstructed(l)
    ensures Reconstructed(l).Some? ==> Loaded(w, l.artifact, AccountsOf(w, l)) == Reconstructed(l)
  {
    if Loaded(w, l.artifact, infos).Some? {
      AllAccepted(w, l, infos);
    }
    if Reconstructed(l).Some? {
      var all := AccountsOf(w, l);
      forall i | 0 <= i < |all|
        ensures RightAccount(w, l.artifact, i, all[i])
      {
        assert ReadableChunk(l.artifact, i, l.chunks[i]);
        AccountHolds(w, l, i, all[i]);
      }
      AllAccepted(w, l, all);
    }
  }

  /** A finalized ledger reads as a valid blob of the committed digest. */
  ghost predicate Committed(w: World, l: Ledger) {
    && Shaped(l)
    && (l.artifact.finalized ==>
          && Reconstructed(l).Some?
          && w.H(Reconstructed(l).value) == l.artifact.hash && w.valid(Reconstructed(l).value))
  }

  /** What the verifier reads does not depend on the artifact's status. */
  lemma SameReads(l: Ledger, l': Ledger)
    requires l'.chunks == l.chunks && l'.artifact.hash == l.artifact.hash
    requires l'.artifact.blobLen == l.artifact.blobLen && l'.artifact.chunkCount == l.artifact.chunkCount
    ensures Reconstructed(l') == Reconstructed(l)
  {
    forall i: nat, c: Chunk
      ensures ReadableChunk(l'.artifact, i, c) <==> ReadableChunk(l.artifact, i, c)
    {}
    assert AllReadable(l') <==> AllReadable(l);
  }

  lemma FinishCommits(w: World, l: Ledger, signer: Key, infos: seq<AccountInfo>)
    requires Committed(w, l) && RealAccounts(w, l, infos) && Execute(w, l, Finish(signer, infos)).Some?
    ensures Committed(w, Execute(w, l, Finish(signer, infos)).value)
  {
    ExecuteExtends(w, l, Finish(signer, infos));
    ReadersAgree(w, l, infos);
    SameReads(l, Execute(w, l, Finish(signer, infos)).value);
  }

  lemma ExecuteKeepsCommitted(w: World, l: Ledger, ins: Instruction)
    requires Committed(w, l) && Real(w, l, ins) && Execute(w, l, ins).Some?
    ensures Committed(w, Execute(w, l, ins).value) && Extends(l, Execute(w, l, ins).value)
    ensures l.artifact.finalized ==> Execute(w, l, ins).value.chunks == l.chunks
  {
    ExecuteExtends(w, l, ins);
    match ins
    case Init(signer, index) =>
    case Append(signer, index, offset, part) =>
    case Finish(signer, infos) => FinishCommits(w, l, signer, infos);
    case Judge(status) => SameReads(l, Execute(w, l, ins).value);
  }

  /** An execution: every instruction is accepted or changes nothing. */
  ghost predicate IsExecution(w: World, run: seq<Ledger>, ins: seq<Instruction>) {
    && |run| == |ins| + 1
    && run[0].chunks == map[]
    && Submit(run[0].artifact.hash, run[0].artifact.publisher, run[0].artifact.blobLen) == Some(run[0].artifact)
    && forall k :: 0 <= k < |ins| ==> Executes(w, run[k], run[k + 1], ins[k])
  }

  ghost predicate Executes(w: World, l: Ledger, l': Ledger, ins: Instruction) {
    && Real(w, l, ins)
    && l' == if Execute(w, l, ins).Some? then Execute(w, l, ins).value else l
  }

  lemma {:induction false} ExecutionCommitted(w: World, run: seq<Ledger>, ins: seq<Instruction>, k: nat)
    requires IsExecution(w, run, ins) && k < |run|
    ensures Committed(w, run[k])
  {
    if k > 0 {
      ExecutionCommitted(w, run, ins, k - 1);
      assert Executes(w, run[k - 1], run[k - 1 + 1], ins[k - 1]);
      if Execute(w, run[k - 1], ins[k - 1]).Some? { ExecuteKeepsCommitted(w, run[k - 1], ins[k - 1]); }
    }
  }

  /** Over any execution an approved or deprecated artifact has been finalized. */
  lemma {:induction false} ApprovedIsFinalized(w: World, run: seq<Ledger>, ins: seq<Instruction>, k: nat)
    requires IsExecution(w, run, ins) && k < |run|
    ensures run[k].artifact.status == Approved || run[k].artifact.status == Deprecated ==> run[k].artifact.finalized
  {
    if k > 0 {
      ApprovedIsFinalized(w, run, ins, k - 1);
      ExecutionCommitted(w, run, ins, k - 1);
      assert Executes(w, run[k - 1], run[k - 1 + 1], ins[k - 1]);
      ExecutesExactly(w, run[k - 1], ins[k - 1]);
    }
  }

  /** Whoever sends whatever instructions: once the artifact is finalized, both readers return one
      and the same blob for good, its digest is the committed one and its format parser accepts it. */
  lemma {:induction false} FinalizedForGood(w: World, run: seq<Ledger>, ins: seq<Instruction>, k: nat, m: nat)
    requires IsExecution(w, run, ins) && k <= m < |run| && run[k].artifact.finalized
    ensures run[m].artifact.finalized
    ensures Reconstructed(run[m]).Some? && Reconstructed(run[m]) == Reconstructed(run[k])
    ensures Loaded(w, run[m].artifact, AccountsOf(w, run[m])) == Reconstructed(run[m])
    ensures w.H(Reconstructed(run[m]).value) == run[0].artifact.hash && w.valid(Reconstructed(run[m]).value)
  {
    ExecutionCommitted(w, run, ins, m);
    ReadersAgree(w, run[m], AccountsOf(w, run[m])) by { FinalizedStays(w, run, ins, k, m); }
    FinalizedStays(w, run, ins, k, m);
    HashStays(w, run, ins, m);
  }

  lemma {:induction false} FinalizedStays(w: World, run: seq<Ledger>, ins: seq<Instruction>, k: nat, m: nat)
    requires IsExecution(w, run, ins) && k <= m < |run| && run[k].artifact.finalized
    ensures run[m].artifact.finalized && run[m].chunks == run[k].chunks
    ensures run[m].artifact.(status := Pending) == run[k].artifact.(status := Pending)
  {
    if k < m {
      FinalizedStays(w, run, ins, k, m - 1);
      ExecutionCommitted(w, run, ins, m - 1);
      assert Executes(w, run[m - 1], run[m - 1 + 1], ins[m - 1]);
      if Execute(w, run[m - 1], ins[m - 1]).Some? { ExecuteKeepsCommitted(w, run[m - 1], ins[m - 1]); }
    }
  }

  lemma {:induction false} HashStays(w: World, run: seq<Ledger>, ins: seq<Instruction>, m: nat)
    requires IsExecution(w, run, ins) && m < |run|
    ensures run[m].artifact.hash == run[0].artifact.hash
  {
    if m > 0 {
      HashStays(w, run, ins, m - 1);
      assert Executes(w, run[m - 1], run[m - 1 + 1], ins[m - 1]);
    }
  }

  // ---------------------------------------------------------------- uploaders of one blob

  /** The bytes the writer sends from `offset`. */
  function Part(blob: bytes, index: nat, offset: nat): bytes
    requires index < ChunkCount(|blob|) && offset <= |Slice(blob, index)|
  {
    Slice(blob, index)[offset..Min(|Slice(blob, index)|, offset + CHUNK_WRITE_BYTES)]
  }

  ghost predicate HoldsPrefix(blob: bytes, index: nat, c: Chunk) {
    && index < ChunkCount(|blob|) && c.writtenLen <= |Slice(blob, index)| <= CHUNK_SIZE
    && c.data[..c.writtenLen] == Slice(blob, index)[..c.writtenLen]
  }

  /** Every written byte is the blob's: each chunk holds a prefix of its slice. */
  ghost predicate HoldsBlob(blob: bytes, l: Ledger) {
    && Shaped(l) && l.artifact.blobLen == |blob|
    && forall i :: i in l.chunks ==> HoldsPrefix(blob, i, l.chunks[i])
  }

  lemma InitHolds(w: World, blob: bytes, l: Ledger, signer: Key, index: nat)
    requires HoldsBlob(blob, l) && index < ChunkCount(|blob|)
    ensures InitChunk(l, signer, index).Some? <==> index !in l.chunks && Open(l.artifact, signer)
    ensures var next := Execute(w, l, Init(signer, index));
            next.Some? ==>
              && HoldsBlob(blob, next.value) && Extends(l, next.value)
              && index in next.value.chunks && next.value.chunks[index].writtenLen == 0
  {
    if InitChunk(l, signer, index).Some? {
      ExecuteExtends(w, l, Init(signer, index));
      ExpectedLenRange(|blob|, index);
      var next := Execute(w, l, Init(signer, index)).value;
      assert next.chunks[index].data[..0] == Slice(blob, index)[..0];
    }
  }

  lemma AppendHolds(w: World, blob: bytes, l: Ledger, signer: Key, index: nat, offset: nat)
    requires HoldsBlob(blob, l) && index < ChunkCount(|blob|) && offset < |Slice(blob, index)|
    ensures AppendChunk(l, signer, index, offset, Part(blob, index, offset)).Some? <==>
              index in l.chunks && Open(l.artifact, signer) && l.chunks[index].writtenLen == offset
    ensures var next := Execute(w, l, Append(signer, index, offset, Part(blob, index, offset)));
            next.Some? ==>
              && HoldsBlob(blob, next.value) && Extends(l, next.value) && index in next.value.chunks
              && next.value.chunks[index].writtenLen == Min(|Slice(blob, index)|, offset + CHUNK_WRITE_BYTES)
  {
    ExpectedLenRange(|blob|, index);
    if index in l.chunks { assert ChunkShaped(l.artifact, index, l.chunks[index]); }
    var part := Part(blob, index, offset);
    if AppendChunk(l, signer, index, offset, part).Some? {
      ExecuteExtends(w, l, Append(signer, index, offset, part));
      var c, d := l.chunks[index], AppendChunk(l, signer, index, offset, part).value[index];
      assert HoldsPrefix(blob, index, c);
      var s := Slice(blob, index);
      assert d.data[..d.writtenLen] == c.data[..offset] + part;
      assert s[..d.writtenLen] == s[..offset] + part;
    }
  }

  lemma FullStable(older: Ledger, newer: Ledger, n: nat)
    requires FullBelow(older.artifact, older.chunks, n) && Extends(older, newer) && Shaped(newer)
    ensures FullBelow(newer.artifact, newer.chunks, n)
  {
    forall i: nat | i < n
      ensures Full(newer.artifact, newer.chunks, i)
    {
      assert Full(older.artifact, older.chunks, i);
      assert ChunkExtends(older.chunks[i], newer.chunks[i]) && ChunkShaped(newer.artifact, i, newer.chunks[i]);
    }
  }

  lemma FullDependsOnLength(a: Artifact, b: Artifact, chunks: Chunks, n: nat)
    requires FullBelow(a, chunks, n) && a.blobLen == b.blobLen
    ensures FullBelow(b, chunks, n)
  {
    forall i: nat | i < n
      ensures Full(b, chunks, i)
    {
      assert Full(a, chunks, i);
    }
  }

  lemma SliceExtendsPrefix(blob: bytes, n: nat)
    requires n < ChunkCount(|blob|)
    ensures n * CHUNK_SIZE <= |blob|
    ensures blob[..n * CHUNK_SIZE] + Slice(blob, n) == blob[..Min((n + 1) * CHUNK_SIZE, |blob|)]
  {
    ExpectedLenRange(|blob|, n);
  }

  lemma FullChunkHolds(blob: bytes, l: Ledger, i: nat)
    requires HoldsBlob(blob, l) && AllReadable(l) && i < ChunkCount(|blob|)
    ensures i in l.chunks && l.chunks[i].writtenLen <= CHUNK_SIZE
    ensures l.chunks[i].data[..l.chunks[i].writtenLen] == Slice(blob, i)
  {
    var c := l.chunks[i];
    assert ReadableChunk(l.artifact, i, c) && HoldsPrefix(blob, i, c);
    assert Slice(blob, i)[..c.writtenLen] == Slice(blob, i);
  }

  lemma {:induction false} JoinedIsPrefix(blob: bytes, l: Ledger, n: nat)
    requires HoldsBlob(blob, l) && AllReadable(l) && n <= ChunkCount(|blob|)
    ensures forall i: nat :: i < n ==> i in l.chunks && l.chunks[i].writtenLen <= CHUNK_SIZE
    ensures Joined(l.chunks, n) == blob[..Min(n * CHUNK_SIZE, |blob|)]
  {
    JoinedLength(l, n);
    if n > 0 {
      JoinedIsPrefix(blob, l, n - 1);
      FullChunkHolds(blob, l, n - 1);
      SliceExtendsPrefix(blob, n - 1);
    }
  }

  /** While only this blob is written, a successful read of either reader returns exactly it, and
      both succeed as soon as every chunk is full. */
  lemma ReadsAreExact(w: World, blob: bytes, l: Ledger, infos: seq<AccountInfo>)
    requires HoldsBlob(blob, l) && RealAccounts(w, l, infos)
    ensures Reconstructed(l).Some? <==> FullBelow(l.artifact, l.chunks, ChunkCount(|blob|))
    ensures Reconstructed(l).Some? ==> Reconstructed(l) == Some(blob) == Loaded(w, l.artifact, AccountsOf(w, l))
    ensures Loaded(w, l.artifact, infos).Some? ==> Loaded(w, l.artifact, infos) == Some(blob)
  {
    ReconstructedWhenFull(l);
    ReadersAgree(w, l, infos);
    if Reconstructed(l).Some? {
      JoinedIsPrefix(blob, l, ChunkCount(|blob|));
      assert blob[..|blob|] == blob;
    }
  }

  // ---------------------------------------------------------------- protocol

  /** The local state of one run of writeArtifactChunks and the finalization after it. */
  datatype Uploader =
    | Looking(chunk: nat)
    | Creating(chunk: nat)
    | Writing(chunk: nat, offset: nat)
    | Finished
    | Stopped

  datatype State = State(ledger: Ledger, uploaders: map<nat, Uploader>)

  /** What is uploaded, and the key every uploader signs with. */
  datatype Job = Job(blob: bytes, signer: nat -> Key)

  ghost predicate Initial(job: Job, s: State) {
    && s.ledger.chunks == map[]
    && Submit(s.ledger.artifact.hash, s.ledger.artifact.publisher, |job.blob|) == Some(s.ledger.artifact)
    && forall u :: u in s.uploaders ==> s.uploaders[u] == Looking(0)
  }

  datatype Step =
    | Begin(u: nat)
    | Fetch(u: nat, seen: Option<nat>)
    | Create(u: nat)
    | Write(u: nat)
    | Advance(u: nat)
    | Crash(u: nat)
    | Seal(u: nat, infos: seq<AccountInfo>)
    | Decide(status: Status)

  /** An instruction of an uploader: accepted, or rejected and the uploader stops. */
  ghost predicate Sends(w: World, s: State, s': State, u: nat, ins: Instruction, now: Uploader) {
    && Real(w, s.ledger, ins)
    && s' == match Execute(w, s.ledger, ins)
             case Some(l) => State(l, s.uploaders[u := now])
             case None => s.(uploaders := s.uploaders[u := Stopped])
  }

  /** One step. A read may be stale: it may miss a new account or return an earlier length. A rejected
      instruction stops its uploader; so does a crash, at any point. A new run starts over. An
      uploader that is through finalizes; the admin may review at any time. */
  ghost predicate Next(w: World, job: Job, s: State, s': State, step: Step) {
    match step
    case Begin(u) =>
      s' == s.(uploaders := s.uploaders[u := Looking(0)])
    case Crash(u) =>
      s' == s.(uploaders := s.uploaders[u := Stopped])
    case Fetch(u, seen) =>
      && u in s.uploaders && s.uploaders[u].Looking?
      && var i := s.uploaders[u].chunk;
         if i >= ChunkCount(|job.blob|) then s' == s.(uploaders := s.uploaders[u := Finished])
         else
           if seen.None? then s' == s.(uploaders := s.uploaders[u := Creating(i)])
           else
             && i in s.ledger.chunks && seen.value <= s.ledger.chunks[i].writtenLen
             && s' == s.(uploaders := s.uploaders[u := Writing(i, seen.value)])
    case Create(u) =>
      && u in s.uploaders && s.uploaders[u].Creating?
      && var i := s.uploaders[u].chunk;
         Sends(w, s, s', u, Init(job.signer(u), i), Writing(i, 0))
    case Write(u) =>
      && u in s.uploaders && s.uploaders[u].Writing?
      && var i, off := s.uploaders[u].chunk, s.uploaders[u].offset;
         && i < ChunkCount(|job.blob|) && off < |Slice(job.blob, i)|
         && Sends(w, s, s', u, Append(job.signer(u), i, off, Part(job.blob, i, off)), Writing(i, off + CHUNK_WRITE_BYTES))
    case Advance(u) =>
      && u in s.uploaders && s.uploaders[u].Writing?
      && var i, off := s.uploaders[u].chunk, s.uploaders[u].offset;
         && i < ChunkCount(|job.blob|) && off >= |Slice(job.blob, i)|
         && s' == s.(uploaders := s.uploaders[u := Looking(i + 1)])
    case Seal(u, infos) =>
      && u in s.uploaders && s.uploaders[u].Finished?
      && Sends(w, s, s', u, Finish(job.signer(u), infos), Finished)
    case Decide(status) =>
      var r := Execute(w, s.ledger, Judge(status));
      s' == if r.Some? then s.(ledger := r.value) else s
  }

  /** An uploader has filled every chunk before the one it is at, and never sends from beyond what
      is written. */
  ghost predicate UploaderOk(l: Ledger, u: Uploader) {
    var n := l.artifact.chunkCount;
    match u
    case Looking(i) => i <= n && FullBelow(l.artifact, l.chunks, i)
    case Creating(i) => i < n && FullBelow(l.artifact, l.chunks, i)
    case Writing(i, off) =>
      && i < n && FullBelow(l.artifact, l.chunks, i) && i in l.chunks
      && Min(off, ExpectedLen(l.artifact.blobLen, i)) <= l.chunks[i].writtenLen
    case Finished => FullBelow(l.artifact, l.chunks, n)
    case Stopped => true
  }

  ghost predicate Inv(w: World, job: Job, s: State) {
    && HoldsBlob(job.blob, s.ledger) && Committed(w, s.ledger)
    && forall u :: u in s.uploaders ==> UploaderOk(s.ledger, s.uploaders[u])
  }

  lemma ExtendsSelf(l: Ledger)
    ensures Extends(l, l)
  {}

  lemma UploaderStable(older: Ledger, newer: Ledger, u: Uploader)
    requires UploaderOk(older, u) && Extends(older, newer) && Shaped(newer)
    ensures UploaderOk(newer, u)
  {
    match u
    case Looking(i) => FullStable(older, newer, i);
    case Creating(i) => FullStable(older, newer, i);
    case Writing(i, off) =>
      FullStable(older, newer, i);
      assert ChunkExtends(older.chunks[i], newer.chunks[i]);
    case Finished => FullStable(older, newer, older.artifact.chunkCount);
    case Stopped =>
  }

  lemma OthersStable(w: World, job: Job, s: State, l: Ledger, u: nat, now: Uploader)
    requires Inv(w, job, s) && HoldsBlob(job.blob, l) && Committed(w, l) && Extends(s.ledger, l)
    requires UploaderOk(l, now)
    ensures Inv(w, job, State(l, s.uploaders[u := now]))
  {
    var t := State(l, s.uploaders[u := now]);
    forall v | v in t.uploaders
      ensures UploaderOk(t.ledger, t.uploaders[v])
    {
      if v != u { UploaderStable(s.ledger, l, s.uploaders[v]); }
    }
  }

  /** An instruction that keeps the blob's bytes, sent by an uploader. */
  lemma SendKeepsInv(w: World, job: Job, s: State, s': State, u: nat, ins: Instruction, now: Uploader)
    requires Inv(w, job, s) && Sends(w, s, s', u, ins, now)
    requires Execute(w, s.ledger, ins).Some? ==>
               HoldsBlob(job.blob, Execute(w, s.ledger, ins).value) && UploaderOk(Execute(w, s.ledger, ins).value, now)
    ensures Inv(w, job, s') && Extends(s.ledger, s'.ledger)
  {
    if Execute(w, s.ledger, ins).Some? {
      ExecuteKeepsCommitted(w, s.ledger, ins);
      OthersStable(w, job, s, s'.ledger, u, now);
    } else {
      ExtendsSelf(s.ledger);
      OthersStable(w, job, s, s.ledger, u, Stopped);
    }
  }

  /** Every step of every uploader keeps the invariant. */
  lemma NextKeepsInv(w: World, job: Job, s: State, s': State, step: Step)
    requires Inv(w, job, s) && Next(w, job, s, s', step)
    ensures Inv(w, job, s') && Extends(s.ledger, s'.ledger)
  {
    ExtendsSelf(s.ledger);
    match step
    case Begin(u) =>
      OthersStable(w, job, s, s.ledger, u, Looking(0));
    case Crash(u) =>
      OthersStable(w, job, s, s.ledger, u, Stopped);
    case Fetch(u, seen) =>
      assert UploaderOk(s.ledger, s.uploaders[u]);
      OthersStable(w, job, s, s.ledger, u, s'.uploaders[u]);
    case Create(u) => CreateKeepsInv(w, job, s, s', u);
    case Write(u) => WriteKeepsInv(w, job, s, s', u);
    case Advance(u) =>
      var i := s.uploaders[u].chunk;
      assert UploaderOk(s.ledger, s.uploaders[u]);
      assert ChunkShaped(s.ledger.artifact, i, s.ledger.chunks[i]);
      OthersStable(w, job, s, s.ledger, u, Looking(i + 1));
    case Seal(u, infos) =>
      assert UploaderOk(s.ledger, s.uploaders[u]);
      SealKeepsInv(w, job, s, s', u, infos);
    case Decide(status) => DecideKeepsInv(w, job, s, s', status);
  }

  lemma CreateKeepsInv(w: World, job: Job, s: State, s': State, u: nat)
    requires Inv(w, job, s) && Next(w, job, s, s', Create(u))
    ensures Inv(w, job, s') && Extends(s.ledger, s'.ledger)
  {
    var i := s.uploaders[u].chunk;
    assert UploaderOk(s.ledger, s.uploaders[u]);
    var ins := Init(job.signer(u), i);
    InitHolds(w, job.blob, s.ledger, job.signer(u), i);
    if Execute(w, s.ledger, ins).Some? { FullStable(s.ledger, Execute(w, s.ledger, ins).value, i); }
    SendKeepsInv(w, job, s, s', u, ins, Writing(i, 0));
  }

  lemma WriteKeepsInv(w: World, job: Job, s: State, s': State, u: nat)
    requires Inv(w, job, s) && Next(w, job, s, s', Write(u))
    ensures Inv(w, job, s') && Extends(s.ledger, s'.ledger)
  {
    var i, off := s.uploaders[u].chunk, s.uploaders[u].offset;
    assert UploaderOk(s.ledger, s.uploaders[u]);
    var ins := Append(job.signer(u), i, off, Part(job.blob, i, off));
    AppendHolds(w, job.blob, s.ledger, job.signer(u), i, off);
    if Execute(w, s.ledger, ins).Some? { FullStable(s.ledger, Execute(w, s.ledger, ins).value, i); }
    SendKeepsInv(w, job, s, s', u, ins, Writing(i, off + CHUNK_WRITE_BYTES));
  }

  lemma SealKeepsInv(w: World, job: Job, s: State, s': State, u: nat, infos: seq<AccountInfo>)
    requires Inv(w, job, s) && Next(w, job, s, s', Seal(u, infos)) && UploaderOk(s.ledger, Finished)
    ensures Inv(w, job, s') && Extends(s.ledger, s'.ledger)
  {
    var ins := Finish(job.signer(u), infos);
    if Execute(w, s.ledger, ins).Some? { SameBytes(w, job.blob, s.ledger, ins); }
    SendKeepsInv(w, job, s, s', u, ins, Finished);
  }

  lemma SameBytes(w: World, blob: bytes, l: Ledger, ins: Instruction)
    requires HoldsBlob(blob, l) && (ins.Finish? || ins.Judge?) && Execute(w, l, ins).Some?
    ensures HoldsBlob(blob, Execute(w, l, ins).value)
    ensures UploaderOk(l, Finished) ==> UploaderOk(Execute(w, l, ins).value, Finished)
  {
    ExecuteExtends(w, l, ins);
    if UploaderOk(l, Finished) { UploaderStable(l, Execute(w, l, ins).value, Finished); }
  }

  lemma DecideKeepsInv(w: World, job: Job, s: State, s': State, status: Status)
    requires Inv(w, job, s) && Next(w, job, s, s', Decide(status))
    ensures Inv(w, job, s') && Extends(s.ledger, s'.ledger)
  {
    ExtendsSelf(s.ledger);
    if Execute(w, s.ledger, Judge(status)).Some? {
      ExecuteKeepsCommitted(w, s.ledger, Judge(status));
      SameBytes(w, job.blob, s.ledger, Judge(status));
      forall v | v in s'.uploaders
        ensures UploaderOk(s'.ledger, s'.uploaders[v])
      {
        UploaderStable(s.ledger, s'.ledger, s.uploaders[v]);
      }
    }
  }

  ghost predicate IsRun(w: World, job: Job, run: seq<State>, steps: seq<Step>) {
    && |run| == |steps| + 1
    && Initial(job, run[0])
    && forall k :: 0 <= k < |steps| ==> StepOf(w, job, run, steps, k)
  }

  ghost predicate StepOf(w: World, job: Job, run: seq<State>, steps: seq<Step>, k: int) {
    0 <= k < |steps| && |run| == |steps| + 1 && Next(w, job, run[k], run[k + 1], steps[k])
  }

  /** Safety over whole runs. */
  lemma {:induction false} RunsKeepInv(w: World, job: Job, run: seq<State>, steps: seq<Step>, k: nat)
    requires IsRun(w, job, run, steps) && k < |run|
    ensures Inv(w, job, run[k])
  {
    if k > 0 {
      RunsKeepInv(w, job, run, steps, k - 1);
      assert StepOf(w, job, run, steps, k - 1);
      NextKeepsInv(w, job, run[k - 1], run[k], steps[k - 1]);
    }
  }

  lemma StepExtends(w: World, job: Job, run: seq<State>, steps: seq<Step>, k: nat)
    requires IsRun(w, job, run, steps) && k < |steps|
    ensures Extends(run[k].ledger, run[k + 1].ledger) && Shaped(run[k + 1].ledger)
  {
    RunsKeepInv(w, job, run, steps, k);
    assert StepOf(w, job, run, steps, k);
    NextKeepsInv(w, job, run[k], run[k + 1], steps[k]);
  }

  /** Between any two states of a run chunk accounts persist and their written bytes stay. */
  lemma {:induction false} RunsExtend(w: World, job: Job, run: seq<State>, steps: seq<Step>, k: nat, m: nat)
    requires IsRun(w, job, run, steps) && k <= m < |run|
    ensures Extends(run[k].ledger, run[m].ledger)
  {
    if k < m {
      RunsExtend(w, job, run, steps, k, m - 1);
      ExtendsNext(w, job, run, steps, run[k].ledger, m - 1);
    } else {
      ExtendsSelf(run[k].ledger);
    }
  }

  lemma ExtendsNext(w: World, job: Job, run: seq<State>, steps: seq<Step>, older: Ledger, k: nat)
    requires IsRun(w, job, run, steps) && k < |steps| && Extends(older, run[k].ledger)
    ensures Extends(older, run[k + 1].ledger)
  {
    StepExtends(w, job, run, steps, k);
    ExtendsTrans(older, run[k].ledger, run[k + 1].ledger);
  }

  /** Once any pass of the writer has gone through, both readers succeed with the original blob, in
      that state and in every later one. No run starts with the empty blob: it cannot be submitted,
      and the on-chain reader would reject it. */
  lemma FinishedMeansReadable(w: World, job: Job, run: seq<State>, steps: seq<Step>, k: nat, m: nat, u: nat)
    requires IsRun(w, job, run, steps) && k <= m < |run|
    requires u in run[k].uploaders && run[k].uploaders[u].Finished?
    ensures Reconstructed(run[m].ledger) == Some(job.blob)
    ensures Loaded(w, run[m].ledger.artifact, AccountsOf(w, run[m].ledger)) == Some(job.blob)
  {
    RunsKeepInv(w, job, run, steps, k);
    RunsKeepInv(w, job, run, steps, m);
    assert UploaderOk(run[k].ledger, run[k].uploaders[u]);
    RunsExtend(w, job, run, steps, k, m);
    FullStable(run[k].ledger, run[m].ledger, run[k].ledger.artifact.chunkCount);
    ReadsAreExact(w, job.blob, run[m].ledger, []);
  }

  // ---------------------------------------------------------------- one undisturbed client

  /** The accounts of one artifact hash, as one client alone finds and changes them. */
  class Chain {
    var artifact: Option<Artifact>
    var chunks: Chunks

    function Now(): Ledger
      requires artifact.Some?
      reads this
    {
      Ledger(artifact.value, chunks)
    }

    /** writeArtifactChunks, from any partially written state. It goes through exactly when the
        artifact is still open to the signer or nothing is left to write; otherwise it changes nothing. */
    method WriteArtifactChunks(w: World, signer: Key, blob: bytes) returns (ok: bool)
      requires artifact.Some? && HoldsBlob(blob, Now())
      modifies this`chunks
      ensures HoldsBlob(blob, Now()) && Extends(old(Now()), Now())
      ensures ok <==> Open(artifact.value, signer) || FullBelow(artifact.value, old(chunks), ChunkCount(|blob|))
      ensures ok ==> FullBelow(artifact.value, chunks, ChunkCount(|blob|))
      ensures !Open(artifact.value, signer) ==> chunks == old(chunks)
    {
      ExtendsSelf(Now());
      for i := 0 to ChunkCount(|blob|)
        invariant HoldsBlob(blob, Now()) && Extends(old(Now()), Now())
        invariant FullBelow(artifact.value, chunks, i)
        invariant !Open(artifact.value, signer) ==> chunks == old(chunks)
      {
        ghost var before := Now();
        ok := WriteChunk(w, signer, blob, i);
        if !ok {
          assert !Full(artifact.value, chunks, i);
          return;
        }
        FullStable(before, Now(), i);
        ExtendsTrans(old(Now()), before, Now());
      }
      ok := true;
    }

    /** One chunk: created if missing, then appended to from where it stands. */
    method WriteChunk(w: World, signer: Key, blob: bytes, i: nat) returns (ok: bool)
      requires artifact.Some? && HoldsBlob(blob, Now()) && i < ChunkCount(|blob|)
      modifies this`chunks
      ensures HoldsBlob(blob, Now()) && Extends(old(Now()), Now())
      ensures ok <==> Open(artifact.value, signer) || Full(artifact.value, old(chunks), i)
      ensures ok ==> Full(artifact.value, chunks, i)
      ensures !Open(artifact.value, signer) ==> chunks == old(chunks)
    {
      ExpectedLenRange(|blob|, i);
      ExtendsSelf(Now());
      var writtenLen := 0;
      if i !in chunks {
        InitHolds(w, blob, Now(), signer, i);
        var r := InitChunk(Now(), signer, i);
        if r.None? { return false; }
        chunks := r.value;
      } else {
        assert HoldsPrefix(blob, i, chunks[i]);
        writtenLen := chunks[i].writtenLen;
      }
      var len := |Slice(blob, i)|;
      var offset := writtenLen;
      while offset < len
        invariant HoldsBlob(blob, Now()) && Extends(old(Now()), Now()) && i in chunks
        invariant chunks[i].writtenLen == Min(offset, len)
        invariant !Open(artifact.value, signer) ==> chunks == old(chunks)
        decreases len - offset
      {
        ghost var before := Now();
        AppendHolds(w, blob, Now(), signer, i, offset);
        var r := AppendChunk(Now(), signer, i, offset, Part(blob, i, offset));
        if r.None? { return false; }
        chunks := r.value;
        ExtendsTrans(old(Now()), before, Now());
        offset := offset + CHUNK_WRITE_BYTES;
      }
      ok := true;
    }

    /** The finalization with the chunk accounts at their derived addresses. */
    method FinalizeArtifact(w: World, signer: Key, blob: bytes) returns (ok: bool)
      requires artifact.Some? && HoldsBlob(blob, Now()) && artifact.value.hash == w.H(blob)
      requires FullBelow(artifact.value, chunks, ChunkCount(|blob|))
      modifies this`artifact
      ensures ok <==> Open(old(artifact).value, signer) && w.valid(blob)
      ensures artifact == if ok then Some(old(artifact).value.(finalized := true)) else old(artifact)
    {
      FullIsReadable(Now());
      ReadsAreExact(w, blob, Now(), []);
      var loaded := LoadBlob(w, artifact.value, AccountsOf(w, Now()));
      var r := Finalize(w, artifact.value, signer, if loaded.Blob? then Some(loaded.blob) else None);
      ok := r.Some?;
      if ok {
        artifact := r;
      }
    }

    /** submitApprovedArtifact: submits or resumes, writes, finalizes and has the artifact approved.
        It succeeds exactly for a valid blob of up to 8192 bytes not submitted before, for one of the
        signer's own submissions still pending, and for a finalized one not rejected or deprecated;
        and then the accounts hold the approved artifact and both readers return the blob. */
    method SubmitApprovedArtifact(w: World, signer: Key, blob: bytes) returns (ok: bool)
      requires artifact.None? ==> chunks == map[]
      requires artifact.Some? ==> artifact.value.hash == w.H(blob) && HoldsBlob(blob, Now()) && Committed(w, Now())
      modifies this
      ensures ok <==>
                match old(artifact)
                case None => 0 < |blob| <= MAX_COMPILED_ARTIFACT_BYTES && w.valid(blob)
                case Some(a) => if a.finalized then a.status.Approved? || a.status.Pending? else Open(a, signer) && w.valid(blob)
      ensures ok ==>
                && artifact.Some? && artifact.value.finalized && artifact.value.status.Approved?
                && artifact.value.hash == w.H(blob)
                && Reconstructed(Now()) == Some(blob) == Loaded(w, artifact.value, AccountsOf(w, Now()))
    {
      if artifact.None? {
        artifact := Submit(w.H(blob), signer, |blob|);
        if artifact.None? { return false; }
      }
      if !artifact.value.finalized {
        ok := WriteArtifactChunks(w, signer, blob);
        if !ok { return; }
        ghost var written := artifact.value;
        ok := FinalizeArtifact(w, signer, blob);
        if !ok { return; }
        FullDependsOnLength(written, artifact.value, chunks, ChunkCount(|blob|));
      } else {
        ReconstructedWhenFull(Now());
      }
      ghost var final := artifact.value;
      if !artifact.value.status.Approved? {
        var r := Review(artifact.value, Approved);
        if r.None? { return false; }
        artifact := r;
      }
      FullDependsOnLength(final, artifact.value, chunks, ChunkCount(|blob|));
      ReadsAreExact(w, blob, Now(), []);
      ok := true;
    }
  }
}
