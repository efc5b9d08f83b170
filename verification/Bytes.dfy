/** Byte strings: little-endian integers, lexicographic order and zero padding. */
module Bytes {
  import opened StableSort
  import NumberTheory

  type byte = x: int | 0 <= x < 256
  type bytes = seq<byte>

  // ---------------------------------------------------------------- little-endian integers

  function Limit(n: nat): nat {
    if n == 0 then 1 else 256 * Limit(n - 1)
  }

  lemma Limits()
    ensures Limit(1) == 0x100 && Limit(2) == 0x1_0000 && Limit(4) == 0x1_0000_0000
    ensures Limit(8) == 0x1_0000_0000_0000_0000
  {
    assert Limit(1) == 256 * Limit(0);
    assert Limit(2) == 256 * Limit(1);
    assert Limit(3) == 256 * Limit(2);
    assert Limit(4) == 256 * Limit(3);
    assert Limit(5) == 256 * Limit(4);
    assert Limit(6) == 256 * Limit(5);
    assert Limit(7) == 256 * Limit(6);
    assert Limit(8) == 256 * Limit(7);
  }

  /** The low n bytes of v, least significant first. */
  function LE(v: nat, n: nat): (s: bytes)
    ensures |s| == n
  {
    if n == 0 then [] else [v % 256] + LE(v / 256, n - 1)
  }

  function FromLE(s: bytes): nat {
    if s == [] then 0 else s[0] + 256 * FromLE(s[1..])
  }

  lemma {:induction false} FromLEOfLE(v: nat, n: nat)
    requires v < Limit(n)
    ensures FromLE(LE(v, n)) == v
  {
    if n == 0 {
    } else {
      FromLEOfLE(v / 256, n - 1);
      assert LE(v, n)[1..] == LE(v / 256, n - 1);
    }
  }

  lemma {:induction false} LEOfFromLE(s: bytes)
    ensures FromLE(s) < Limit(|s|)
    ensures LE(FromLE(s), |s|) == s
  {
    if s == [] {
    } else {
      LEOfFromLE(s[1..]);
      var v := FromLE(s);
      assert v % 256 == s[0] && v / 256 == FromLE(s[1..]);
      assert s == [s[0]] + s[1..];
    }
  }

  /** Byte i of the encoding is digit i of v to the base 256. */
  lemma {:induction false} LEDigit(v: nat, n: nat, i: nat)
    requires i < n
    ensures 0 < Limit(i) && LE(v, n)[i] == (v / Limit(i)) % 256
    decreases i
  {
    if i > 0 {
      LEDigit(v / 256, n - 1, i - 1);
      NestedQuotient(v, Limit(i - 1));
    }
  }

  lemma NestedQuotient(v: nat, d: nat)
    requires 0 < d
    ensures (v / 256) / d == v / (256 * d)
  {
    var a := v / 256;
    var q, r := a / d, a % d;
    assert v == (256 * d) * q + (256 * r + v % 256);
    NumberTheory.DivModUnique(v, 256 * d, q, 256 * r + v % 256);
  }

  lemma LEInjective(v: nat, w: nat, n: nat)
    requires v < Limit(n) && w < Limit(n) && LE(v, n) == LE(w, n)
    ensures v == w
  {
    FromLEOfLE(v, n);
    FromLEOfLE(w, n);
  }

  predicate FitsSigned(v: int, n: nat) {
    0 <= 2 * v + Limit(n) < 2 * Limit(n)
  }

  /** Two's complement of an n-byte signed integer. */
  function SignedLE(v: int, n: nat): (s: bytes)
    requires FitsSigned(v, n)
    ensures |s| == n
  {
    LE(if v < 0 then v + Limit(n) else v, n)
  }

  function FromSignedLE(s: bytes): int {
    var v := FromLE(s);
    if 2 * v < Limit(|s|) then v else v - Limit(|s|)
  }

  lemma FromSignedOfSigned(v: int, n: nat)
    requires FitsSigned(v, n)
    ensures FromSignedLE(SignedLE(v, n)) == v
  {
    FromLEOfLE(if v < 0 then v + Limit(n) else v, n);
  }

  lemma SignedOfFromSigned(s: bytes)
    ensures FitsSigned(FromSignedLE(s), |s|)
    ensures SignedLE(FromSignedLE(s), |s|) == s
  {
    LEOfFromLE(s);
  }

  lemma SignedInjective(v: int, w: int, n: nat)
    requires FitsSigned(v, n) && FitsSigned(w, n) && SignedLE(v, n) == SignedLE(w, n)
    ensures v == w
  {
    FromSignedOfSigned(v, n);
    FromSignedOfSigned(w, n);
  }

  /** Buffer.toString("ascii"): decoding drops the high bit of every byte. */
  function Ascii(s: bytes): (t: bytes)
    ensures |t| == |s| && forall i :: 0 <= i < |s| ==> t[i] == s[i] % 128
  {
    seq(|s|, i requires 0 <= i < |s| => s[i] % 128)
  }

  lemma AsciiPlain(s: bytes)
    requires forall i :: 0 <= i < |s| ==> s[i] < 128
    ensures Ascii(s) == s
  {}

  /** The byte with the other high bit, which decoding as ASCII does not tell apart. */
  function Twin(b: byte): byte {
    if b < 128 then b + 128 else b - 128
  }

  function Flip(s: bytes, i: nat): (t: bytes)
    requires i < |s|
    ensures |t| == |s| && t[i] == Twin(s[i]) && forall k :: 0 <= k < |s| && k != i ==> t[k] == s[k]
  {
    s[..i] + [Twin(s[i])] + s[i + 1..]
  }

  lemma FlipElsewhere(s: bytes, i: nat, from: nat, to: nat)
    requires i < from <= to <= |s|
    ensures Flip(s, i)[from..to] == s[from..to]
  {
    forall k | 0 <= k < to - from
      ensures Flip(s, i)[from..to][k] == s[from..to][k]
    {
      assert Flip(s, i)[from + k] == s[from + k];
    }
  }

  lemma FlipTail(s: bytes, i: nat, from: nat)
    requires i < from <= |s|
    ensures Flip(s, i)[from..] == s[from..]
  {
    var t := Flip(s, i);
    FlipElsewhere(s, i, from, |s|);
    assert |t| == |s|;
    assert t[from..|s|] == t[from..] && s[from..|s|] == s[from..];
  }

  /** Decoding as ASCII does not notice a flipped first byte. */
  lemma FlipDecodes(s: bytes, n: nat)
    requires 0 < n <= |s|
    ensures Ascii(Flip(s, 0)[..n]) == Ascii(s[..n])
  {
    var a, b := Ascii(Flip(s, 0)[..n]), Ascii(s[..n]);
    forall i | 0 <= i < n
      ensures a[i] == b[i]
    {
      assert Flip(s, 0)[i] == if i == 0 then Twin(s[0]) else s[i];
    }
  }

  /** A slice of a slice. */
  lemma Adjoin(s: bytes, i: nat, j: nat, k: nat)
    requires i <= j <= k <= |s|
    ensures s[i..k] == s[i..j] + s[j..k]
  {}

  lemma SubSlice(s: bytes, a: nat, b: nat, i: nat, j: nat)
    requires a <= b <= |s| && i <= j <= b - a
    ensures s[a..b][i..j] == s[a + i..a + j]
  {
    assert forall k :: 0 <= k < j - i ==> s[a..b][i..j][k] == s[a + i..a + j][k];
  }

  /** Bytes read as characters. */
  function Text(b: bytes): (t: string)
    ensures |t| == |b| && forall i :: 0 <= i < |b| ==> t[i] == b[i] as char
  {
    seq(|b|, i requires 0 <= i < |b| => b[i] as char)
  }

  lemma TextInjective(a: bytes, b: bytes)
    requires Text(a) == Text(b)
    ensures a == b
  {
    forall i | 0 <= i < |a|
      ensures a[i] == b[i]
    {
      assert Text(a)[i] == Text(b)[i];
    }
  }

  /** Buffer.from(s, "ascii"). */
  function Code(s: string): (b: bytes)
    ensures |b| == |s| && forall i :: 0 <= i < |s| ==> b[i] == s[i] as int % 256
  {
    seq(|s|, i requires 0 <= i < |s| => s[i] as int % 256)
  }

  predicate PlainText(s: string) {
    forall i :: 0 <= i < |s| ==> s[i] < 128 as char
  }

  lemma TextOfCode(s: string)
    requires PlainText(s)
    ensures Text(Code(s)) == s
  {
    forall i | 0 <= i < |s|
      ensures Text(Code(s))[i] == s[i]
    {
      assert s[i] < 128 as char;
    }
  }

  lemma CodeInjective(s: string, t: string)
    requires PlainText(s) && PlainText(t) && Code(s) == Code(t)
    ensures s == t
  {
    TextOfCode(s);
    TextOfCode(t);
  }

  // ---------------------------------------------------------------- lexicographic order

  /** Buffer.compare. */
  function CompareBytes(a: bytes, b: bytes): int {
    if a == [] && b == [] then 0
    else if a == [] then -1
    else if b == [] then 1
    else if a[0] < b[0] then -1
    else if a[0] > b[0] then 1
    else CompareBytes(a[1..], b[1..])
  }

  /** Lexicographic order: a precedes b when a is a proper prefix of b, or smaller at the first byte in
      which they differ. */
  ghost predicate Precedes(a: bytes, b: bytes) {
    exists k :: SmallerAt(a, b, k)
  }

  ghost predicate SmallerAt(a: bytes, b: bytes, k: int) {
    0 <= k <= |a| && k < |b| && a[..k] == b[..k] && (k == |a| || a[k] < b[k])
  }

  lemma {:induction false} CompareBytesMeaning(a: bytes, b: bytes)
    ensures CompareBytes(a, b) < 0 <==> Precedes(a, b)
  {
    if a == [] {
      if b != [] { assert SmallerAt(a, b, 0); }
    } else if b != [] && a[0] == b[0] {
      CompareBytesMeaning(a[1..], b[1..]);
      PrecedesTail(a, b);
    } else if b != [] && a[0] < b[0] {
      assert SmallerAt(a, b, 0);
    } else if Precedes(a, b) {
      var k :| SmallerAt(a, b, k);
      if k > 0 { assert a[..k][0] == b[..k][0]; }
    }
  }

  lemma PrecedesTail(a: bytes, b: bytes)
    requires a != [] && b != [] && a[0] == b[0]
    ensures Precedes(a, b) <==> Precedes(a[1..], b[1..])
  {
    if Precedes(a, b) {
      var k :| SmallerAt(a, b, k);
      assert a[1..][..k - 1] == a[..k][1..] && b[1..][..k - 1] == b[..k][1..];
      assert SmallerAt(a[1..], b[1..], k - 1);
    }
    if Precedes(a[1..], b[1..]) {
      var k :| SmallerAt(a[1..], b[1..], k);
      assert a[..k + 1] == [a[0]] + a[1..][..k] && b[..k + 1] == [b[0]] + b[1..][..k];
      assert SmallerAt(a, b, k + 1);
    }
  }

  lemma {:induction false} CompareBytesAntisymmetric(a: bytes, b: bytes)
    ensures CompareBytes(a, b) < 0 <==> CompareBytes(b, a) > 0
    ensures CompareBytes(a, b) == 0 <==> a == b
  {
    if a != [] && b != [] {
      CompareBytesAntisymmetric(a[1..], b[1..]);
      assert a == [a[0]] + a[1..] && b == [b[0]] + b[1..];
    }
  }

  lemma {:induction false} CompareBytesTransitive(a: bytes, b: bytes, c: bytes)
    requires CompareBytes(a, b) <= 0 && CompareBytes(b, c) <= 0
    ensures CompareBytes(a, c) <= 0
    ensures CompareBytes(a, b) < 0 || CompareBytes(b, c) < 0 ==> CompareBytes(a, c) < 0
  {
    if a != [] && b != [] && c != [] && a[0] == b[0] == c[0] {
      CompareBytesTransitive(a[1..], b[1..], c[1..]);
    }
  }

  // ---------------------------------------------------------------- concatenation of chunks

  /** Buffer.concat. */
  function Concat(chunks: seq<bytes>): bytes {
    if chunks == [] then [] else Concat(chunks[..|chunks| - 1]) + chunks[|chunks| - 1]
  }

  lemma ConcatStep(chunks: seq<bytes>, i: nat)
    requires i < |chunks|
    ensures Concat(chunks[..i + 1]) == Concat(chunks[..i]) + chunks[i]
    ensures chunks[..|chunks|] == chunks
  {
    assert chunks[..i + 1][..i] == chunks[..i];
  }

  /** Chunk i sits right after the chunks before it. */
  lemma {:induction false} ChunkAt(chunks: seq<bytes>, i: nat)
    requires i < |chunks|
    ensures |Concat(chunks[..i])| + |chunks[i]| <= |Concat(chunks)|
    ensures Concat(chunks)[|Concat(chunks[..i])|..|Concat(chunks[..i])| + |chunks[i]|] == chunks[i]
  {
    var n := |chunks| - 1;
    if i == n {
    } else {
      ChunkAt(chunks[..n], i);
      assert chunks[..n][..i] == chunks[..i];
      var a := |Concat(chunks[..i])|;
      assert Concat(chunks)[a..a + |chunks[i]|] == Concat(chunks[..n])[a..a + |chunks[i]|];
    }
  }

  lemma {:induction false} FixedWidth(chunks: seq<bytes>, w: nat)
    requires forall i :: 0 <= i < |chunks| ==> |chunks[i]| == w
    ensures |Concat(chunks)| == |chunks| * w
  {
    if chunks == [] {
    } else {
      var n := |chunks| - 1;
      FixedWidth(chunks[..n], w);
      assert |chunks| * w == n * w + w;
    }
  }

  /** With chunks of equal width the i-th one starts at i * w. */
  lemma FixedChunkAt(chunks: seq<bytes>, w: nat, i: nat)
    requires i < |chunks| && forall k :: 0 <= k < |chunks| ==> |chunks[k]| == w
    ensures 0 <= i * w && i * w + w <= |Concat(chunks)|
    ensures Concat(chunks)[i * w..i * w + w] == chunks[i]
  {
    FixedWidth(chunks[..i], w);
    ChunkAt(chunks, i);
  }

  lemma WidthProduct(i: nat, n: nat, w: nat)
    requires i < n
    ensures 0 <= i * w && i * w + w <= n * w
  {
    MulLe(i + 1, n, w);
    assert (i + 1) * w == i * w + w;
  }

  lemma MulLe(x: nat, y: nat, w: nat)
    requires x <= y
    ensures 0 <= x * w <= y * w
  {}

  /** A string cut into equal chunks is their concatenation. */
  lemma {:induction false} ConcatOfCuts(s: bytes, chunks: seq<bytes>, w: nat)
    requires |s| == |chunks| * w
    requires forall i :: 0 <= i < |chunks| ==> 0 <= i * w && i * w + w <= |s| && chunks[i] == s[i * w..i * w + w]
    ensures Concat(chunks) == s
  {
    if chunks == [] {
    } else {
      var n := |chunks| - 1;
      assert |chunks| * w == n * w + w;
      forall i: nat | i < n
        ensures 0 <= i * w && i * w + w <= n * w
      {
        WidthProduct(i, n, w);
      }
      assert 0 <= n * w by { MulLe(0, n, w); }
      ConcatOfCuts(s[..n * w], chunks[..n], w);
      assert s == s[..n * w] + chunks[n];
    }
  }

  /** s cut into n chunks of width w. */
  function Cut(s: bytes, n: nat, w: nat): (chunks: seq<bytes>)
    requires |s| == n * w
    ensures |chunks| == n && forall i :: 0 <= i < n ==> |chunks[i]| == w
  {
    seq(n, i requires 0 <= i < n => CutOne(s, n, w, i))
  }

  function CutOne(s: bytes, n: nat, w: nat, i: nat): (c: bytes)
    requires |s| == n * w && i < n
    ensures |c| == w
  {
    WidthProduct(i, n, w);
    s[i * w..i * w + w]
  }

  lemma CutAt(s: bytes, n: nat, w: nat, i: nat)
    requires |s| == n * w && i < n
    ensures 0 <= i * w && i * w + w <= |s| && Cut(s, n, w)[i] == s[i * w..i * w + w]
  {
    WidthProduct(i, n, w);
  }

  lemma ConcatCut(s: bytes, n: nat, w: nat)
    requires |s| == n * w
    ensures Concat(Cut(s, n, w)) == s
  {
    forall i: nat | i < n
      ensures 0 <= i * w && i * w + w <= |s| && Cut(s, n, w)[i] == s[i * w..i * w + w]
    {
      CutAt(s, n, w, i);
    }
    ConcatOfCuts(s, Cut(s, n, w), w);
  }

  /** Equal concatenations of equally wide chunks have equal chunks. */
  lemma ConcatInjective(a: seq<bytes>, b: seq<bytes>, w: nat)
    requires |a| == |b| && Concat(a) == Concat(b)
    requires (forall i :: 0 <= i < |a| ==> |a[i]| == w) && (forall i :: 0 <= i < |b| ==> |b[i]| == w)
    ensures a == b
  {
    forall i: nat | i < |a|
      ensures a[i] == b[i]
    {
      FixedChunkAt(a, w, i);
      FixedChunkAt(b, w, i);
    }
  }
}
