/** The Merkle commitment of a participant snapshot (sdk/snapshot.ts). The hash function is a
    parameter; nothing is assumed of it beyond its 32-byte output. */
module Merkle {
  import opened Wrappers
  import opened Bytes

  type Digest = d: seq<byte> | |d| == 32 witness seq(32, _ => 0)
  type Hash = bytes -> Digest

  const NEWLINE: byte := 10

  datatype ProofNode = ProofNode(onLeft: bool, sibling: bytes)

  function LeafHash(H: Hash, line: bytes): Digest {
    H(H(line))
  }

  function Pair(left: bytes, right: bytes): bytes {
    left + right
  }

  function Leaves(H: Hash, lines: seq<bytes>): (leaves: seq<Digest>)
    ensures |leaves| == |lines| && forall i :: 0 <= i < |lines| ==> leaves[i] == LeafHash(H, lines[i])
  {
    seq(|lines|, i requires 0 <= i < |lines| => LeafHash(H, lines[i]))
  }

  /** The two children of node i of the next level; the last one of an odd level is its own sibling. */
  function Children(level: seq<Digest>, i: nat): (Digest, Digest)
    requires 2 * i < |level|
  {
    (level[2 * i], if 2 * i + 1 < |level| then level[2 * i + 1] else level[2 * i])
  }

  /** The string hashed for node i of the next level. */
  function ChildBytes(level: seq<Digest>, i: nat): bytes
    requires 2 * i < |level|
  {
    Pair(Children(level, i).0, Children(level, i).1)
  }

  function Parent(H: Hash, level: seq<Digest>, i: nat): Digest
    requires 2 * i < |level|
  {
    H(ChildBytes(level, i))
  }

  ghost predicate NextOf(H: Hash, level: seq<Digest>, next: seq<Digest>) {
    && |next| == (|level| + 1) / 2
    && forall i :: 0 <= i < |next| ==> next[i] == Parent(H, level, i)
  }

  /** A complete tower of levels over `leaves`, ending in a single root. */
  ghost predicate Tower(H: Hash, leaves: seq<Digest>, levels: seq<seq<Digest>>) {
    && 0 < |levels| && levels[0] == leaves && 0 < |leaves|
    && (forall t :: 0 <= t < |levels| - 1 ==> NextOf(H, levels[t], levels[t + 1]))
    && |levels[|levels| - 1]| == 1
  }

  // ---------------------------------------------------------------- builder

  /** buildNextMerkleLevel: each node hashes its left child followed by its right one, or the last child
      of an odd level twice. */
  method BuildNextLevel(H: Hash, level: seq<Digest>) returns (next: seq<Digest>)
    ensures NextOf(H, level, next) && |next| == (|level| + 1) / 2
    ensures forall i :: 0 <= i < |next| ==>
              var left: bytes := level[2 * i];
              var right: bytes := if 2 * i + 1 < |level| then level[2 * i + 1] else level[2 * i];
              next[i] == H(left + right)
  {
    next := [];
    var index := 0;
    while index < |level|
      invariant index % 2 == 0 && 2 * |next| == index && index <= |level| + 1
      invariant forall i :: 0 <= i < |next| ==> next[i] == Parent(H, level, i)
      decreases |level| - index
    {
      var left := level[index];
      var right := if index + 1 < |level| then level[index + 1] else left;
      assert index == 2 * |next|;
      next := next + [H(Pair(left, right))];
      index := index + 2;
    }
  }

  /** The first 32 bytes of a hashed node string are the left child and the last 32 the right one. */
  lemma ChildOrder(level: seq<Digest>, i: nat)
    requires 2 * i < |level|
    ensures var s := ChildBytes(level, i);
            && |s| == 64 && s[..32] == level[2 * i]
            && s[32..] == level[if 2 * i + 1 < |level| then 2 * i + 1 else 2 * i]
  {}

  /** The root over a list of leaf hashes, by halving: neighbours are joined left to right, and a last
      node without a neighbour is joined with itself. */
  function RootOver(H: Hash, level: seq<Digest>): Digest
    requires level != []
    decreases |level|
  {
    if |level| == 1 then level[0] else RootOver(H, Joined(H, level))
  }

  function Joined(H: Hash, level: seq<Digest>): (next: seq<Digest>)
    ensures |next| == (|level| + 1) / 2
    decreases |level|
  {
    if level == [] then []
    else
      var left: bytes := level[0];
      var right: bytes := if |level| == 1 then level[0] else level[1];
      [H(left + right)] + Joined(H, if |level| == 1 then [] else level[2..])
  }

  lemma {:induction false} JoinedNodes(H: Hash, level: seq<Digest>, i: nat)
    requires 2 * i < |level|
    ensures var left: bytes := level[2 * i];
            var right: bytes := if 2 * i + 1 < |level| then level[2 * i + 1] else level[2 * i];
            Joined(H, level)[i] == H(left + right)
  {
    if 0 < i { JoinedNodes(H, level[2..], i - 1); }
  }

  lemma NextIsJoined(H: Hash, level: seq<Digest>, next: seq<Digest>)
    requires NextOf(H, level, next)
    ensures next == Joined(H, level)
  {
    forall i | 0 <= i < |next|
      ensures next[i] == Joined(H, level)[i]
    {
      JoinedNodes(H, level, i);
    }
  }

  lemma {:induction false} TowerRoot(H: Hash, levels: seq<seq<Digest>>, t: nat)
    requires t < |levels| && levels[t] != [] && |levels[|levels| - 1]| == 1
    requires forall u :: 0 <= u < |levels| - 1 ==> NextOf(H, levels[u], levels[u + 1]) && 1 < |levels[u]|
    ensures RootOver(H, levels[t]) == levels[|levels| - 1][0]
    decreases |levels| - t
  {
    if t < |levels| - 1 {
      NextIsJoined(H, levels[t], levels[t + 1]);
      TowerRoot(H, levels, t + 1);
    }
  }

  /** buildMerkleLevels: fails exactly on an empty list; the root is the one over the leaves. */
  method BuildLevels(H: Hash, leaves: seq<Digest>) returns (r: Result<seq<seq<Digest>>>)
    ensures r.Err? <==> leaves == []
    ensures r.Ok? ==> Tower(H, leaves, r.value) && Root(r.value) == RootOver(H, leaves)
  {
    if |leaves| == 0 {
      return Err;
    }
    var levels := [leaves];
    while |levels[|levels| - 1]| > 1
      invariant 0 < |levels| && levels[0] == leaves
      invariant forall t :: 0 <= t < |levels| - 1 ==> NextOf(H, levels[t], levels[t + 1]) && 1 < |levels[t]|
      invariant 0 < |levels[|levels| - 1]|
      decreases |levels[|levels| - 1]|
    {
      var next := BuildNextLevel(H, levels[|levels| - 1]);
      levels := levels + [next];
    }
    TowerRoot(H, levels, 0);
    r := Ok(levels);
  }

  // ---------------------------------------------------------------- prover

  /** The proof node for index i of a level. */
  function StepAt(level: seq<Digest>, i: nat): ProofNode
    requires i < |level|
  {
    if i % 2 == 1 then ProofNode(true, level[i - 1])
    else ProofNode(false, if i + 1 < |level| then level[i + 1] else level[i])
  }

  /** The i-th leaf's ancestor index t levels up. */
  function Ancestor(i: nat, t: nat): nat {
    if t == 0 then i else Ancestor(i, t - 1) / 2
  }

  lemma AncestorInRange(H: Hash, leaves: seq<Digest>, levels: seq<seq<Digest>>, i: nat, t: nat)
    requires Tower(H, leaves, levels) && i < |leaves| && t < |levels|
    ensures Ancestor(i, t) < |levels[t]|
  {
    if t > 0 {
      AncestorInRange(H, leaves, levels, i, t - 1);
      assert NextOf(H, levels[t - 1], levels[t - 1 + 1]);
    }
  }

  /** The first n nodes of `proof` are those of leaf i. */
  ghost predicate IsProofPrefix(levels: seq<seq<Digest>>, i: nat, proof: seq<ProofNode>, n: nat) {
    && n <= |proof| && n < |levels|
    && forall t :: 0 <= t < n ==> StepFor(levels[t], Ancestor(i, t), proof[t])
  }

  ghost predicate StepFor(level: seq<Digest>, i: nat, step: ProofNode) {
    i < |level| && step == StepAt(level, i)
  }

  ghost predicate IsProofFor(levels: seq<seq<Digest>>, i: nat, proof: seq<ProofNode>) {
    |proof| + 1 == |levels| && IsProofPrefix(levels, i, proof, |proof|)
  }

  /** The sibling with its side; a missing right sibling is the node itself. */
  function SiblingNode(level: seq<Digest>, current: nat): (step: ProofNode)
    requires current < |level|
    ensures StepFor(level, current, step)
  {
    var isRight := current % 2 == 1;
    var siblingIndex := if isRight then current - 1 else current + 1;
    ProofNode(isRight, if siblingIndex < |level| then level[siblingIndex] else level[current])
  }

  lemma ProofSnoc(levels: seq<seq<Digest>>, i: nat, proof: seq<ProofNode>, t: nat, step: ProofNode)
    requires |proof| == t && t + 1 < |levels| && IsProofPrefix(levels, i, proof, t)
    requires StepFor(levels[t], Ancestor(i, t), step)
    ensures IsProofPrefix(levels, i, proof + [step], t + 1)
  {}

  method BuildProof(H: Hash, ghost leaves: seq<Digest>, levels: seq<seq<Digest>>, leafIndex: int) returns (r: Result<seq<ProofNode>>)
    requires Tower(H, leaves, levels)
    ensures r.Ok? <==> 0 <= leafIndex < |leaves|
    ensures r.Ok? ==> IsProofFor(levels, leafIndex, r.value)
  {
    if leafIndex < 0 || leafIndex >= |levels[0]| {
      return Err;
    }
    var proof: seq<ProofNode> := [];
    var current: nat := leafIndex;
    for t := 0 to |levels| - 1
      invariant |proof| == t && current == Ancestor(leafIndex, t)
      invariant IsProofPrefix(levels, leafIndex, proof, t)
    {
      AncestorInRange(H, leaves, levels, leafIndex, t);
      var step := SiblingNode(levels[t], current);
      ProofSnoc(levels, leafIndex, proof, t, step);
      proof := proof + [step];
      current := current / 2;
    }
    r := Ok(proof);
  }

  // ---------------------------------------------------------------- checker

  /** The string hashed at one proof step. */
  function StepPreimage(node: Digest, step: ProofNode): bytes {
    if step.onLeft then Pair(step.sibling, node) else Pair(node, step.sibling)
  }

  function Fold(H: Hash, node: Digest, proof: seq<ProofNode>): Digest {
    if proof == [] then node
    else H(StepPreimage(Fold(H, node, proof[..|proof| - 1]), proof[|proof| - 1]))
  }

  /** From a node up, one proof step after the other: a sibling on the left is hashed before the node,
      one on the right after it. */
  function Climb(H: Hash, node: bytes, proof: seq<ProofNode>): bytes
    decreases |proof|
  {
    if proof == [] then node
    else Climb(H, if proof[0].onLeft then H(proof[0].sibling + node) else H(node + proof[0].sibling), proof[1..])
  }

  lemma {:induction false} FoldIsClimb(H: Hash, node: Digest, proof: seq<ProofNode>)
    ensures Fold(H, node, proof) == Climb(H, node, proof)
  {
    if proof != [] {
      var n := |proof| - 1;
      FoldIsClimb(H, node, proof[..n]);
      assert proof == proof[..n] + [proof[n]];
      ClimbSnoc(H, node, proof[..n], proof[n]);
    }
  }

  lemma {:induction false} ClimbSnoc(H: Hash, node: bytes, proof: seq<ProofNode>, step: ProofNode)
    ensures var top := Climb(H, node, proof);
            Climb(H, node, proof + [step]) == if step.onLeft then H(step.sibling + top) else H(top + step.sibling)
    decreases |proof|
  {
    if proof == [] {
      assert [] + [step] == [step] && [step][1..] == [];
    } else {
      assert (proof + [step])[1..] == proof[1..] + [step];
      ClimbSnoc(H, if proof[0].onLeft then H(proof[0].sibling + node) else H(node + proof[0].sibling), proof[1..], step);
    }
  }

  ghost predicate WellFormed(line: bytes, proof: seq<ProofNode>) {
    && 0 < |line| && line[|line| - 1] == NEWLINE
    && forall i :: 0 <= i < |proof| ==> |proof[i].sibling| == 32
  }

  /** computeSnapshotMerkleRootFromProof. */
  method ComputeRoot(H: Hash, line: bytes, proof: seq<ProofNode>) returns (r: Result<Digest>)
    ensures r == if WellFormed(line, proof) then Ok(Fold(H, LeafHash(H, line), proof)) else Err
    ensures r.Ok? <==> line != [] && line[|line| - 1] == 10 && forall i :: 0 <= i < |proof| ==> |proof[i].sibling| == 32
    ensures r.Ok? ==> r.value == Climb(H, H(H(line)), proof)
  {
    if |line| == 0 || line[|line| - 1] != NEWLINE {
      return Err;
    }
    var node := LeafHash(H, line);
    for i := 0 to |proof|
      invariant forall j :: 0 <= j < i ==> |proof[j].sibling| == 32
      invariant node == Fold(H, LeafHash(H, line), proof[..i])
    {
      if |proof[i].sibling| != 32 {
        return Err;
      }
      assert proof[..i + 1][..i] == proof[..i];
      node := H(StepPreimage(node, proof[i]));
    }
    assert proof[..|proof|] == proof;
    FoldIsClimb(H, LeafHash(H, line), proof);
    r := Ok(node);
  }

  ghost predicate Accepts(H: Hash, line: bytes, proof: seq<ProofNode>, root: bytes) {
    WellFormed(line, proof) && Fold(H, LeafHash(H, line), proof) == root
  }

  /** verifySnapshotMerkleProof; a malformed line or proof is rejected, not an error. */
  method VerifyProof(H: Hash, line: bytes, proof: seq<ProofNode>, root: bytes) returns (r: Result<bool>)
    ensures r == if |root| != 32 then Err else Ok(Accepts(H, line, proof, root))
  {
    if |root| != 32 {
      return Err;
    }
    var c := ComputeRoot(H, line, proof);
    r := Ok(c.Ok? && c.value == root);
  }

  // ---------------------------------------------------------------- completeness

  lemma {:induction false} FoldClimbs(H: Hash, leaves: seq<Digest>, levels: seq<seq<Digest>>, i: nat, proof: seq<ProofNode>, t: nat)
    requires Tower(H, leaves, levels) && i < |leaves|
    requires IsProofFor(levels, i, proof) && t <= |proof|
    ensures Ancestor(i, t) < |levels[t]| && Fold(H, leaves[i], proof[..t]) == levels[t][Ancestor(i, t)]
  {
    AncestorInRange(H, leaves, levels, i, t);
    if t > 0 {
      FoldClimbs(H, leaves, levels, i, proof, t - 1);
      assert proof[..t][..t - 1] == proof[..t - 1];
      assert NextOf(H, levels[t - 1], levels[t - 1 + 1]);
      assert StepFor(levels[t - 1], Ancestor(i, t - 1), proof[t - 1]);
      ClimbStep(levels[t - 1], Ancestor(i, t - 1));
    }
  }

  /** One proof step rebuilds the string hashed for the parent. */
  lemma ClimbStep(level: seq<Digest>, a: nat)
    requires a < |level|
    ensures StepPreimage(level[a], StepAt(level, a)) == ChildBytes(level, a / 2)
  {
    assert a == 2 * (a / 2) + a % 2;
  }

  ghost predicate Commits(H: Hash, lines: seq<bytes>, levels: seq<seq<Digest>>) {
    Tower(H, Leaves(H, lines), levels)
  }

  function Root(levels: seq<seq<Digest>>): Digest
    requires 0 < |levels| && |levels[|levels| - 1]| == 1
  {
    levels[|levels| - 1][0]
  }

  lemma ProofShape(levels: seq<seq<Digest>>, i: nat, proof: seq<ProofNode>)
    requires IsProofFor(levels, i, proof)
    ensures forall t :: 0 <= t < |proof| ==> |proof[t].sibling| == 32
  {
    forall t | 0 <= t < |proof|
      ensures |proof[t].sibling| == 32
    {
      assert StepFor(levels[t], Ancestor(i, t), proof[t]);
    }
  }

  /** Every committed line is accepted with the proof built for its index. */
  lemma Completeness(H: Hash, lines: seq<bytes>, levels: seq<seq<Digest>>, i: nat, proof: seq<ProofNode>)
    requires Commits(H, lines, levels) && i < |lines| && IsProofFor(levels, i, proof)
    requires 0 < |lines[i]| && lines[i][|lines[i]| - 1] == NEWLINE
    ensures Accepts(H, lines[i], proof, Root(levels))
  {
    FoldClimbs(H, Leaves(H, lines), levels, i, proof, |proof|);
    ProofShape(levels, i, proof);
    assert proof[..|proof|] == proof;
  }

  // ---------------------------------------------------------------- soundness

  /** What an accepted proof amounts to. */
  datatype Explanation = Member(index: nat) | Collision(x: bytes, y: bytes)

  /** Walks the verifier's path and the tree down from the root together. At the first mismatch
      the two strings hashed there are the collision. */
  function Explain(H: Hash, lines: seq<bytes>, levels: seq<seq<Digest>>, line: bytes, proof: seq<ProofNode>, t: nat, i: nat): Explanation
    requires t < |levels| && 0 < |lines|
    requires forall u :: 0 < u < |levels| ==> |levels[u]| == (|levels[u - 1]| + 1) / 2
    requires i < |levels[t]| && |levels[0]| == |lines|
    decreases |proof|
  {
    if t == 0 then
      if proof == [] then
        if line == lines[i] then Member(i)
        else if H(line) == H(lines[i]) then Collision(line, lines[i])
        else Collision(H(line), H(lines[i]))
      else
        Collision(LastPreimage(H, line, proof), H(lines[i]))
    else
      assert |levels[t]| == (|levels[t - 1]| + 1) / 2;
      var (l, r) := Children(levels[t - 1], i);
      if proof == [] then Collision(H(line), Pair(l, r))
      else if LastPreimage(H, line, proof) != Pair(l, r) then Collision(LastPreimage(H, line, proof), Pair(l, r))
      else
        var step := proof[|proof| - 1];
        var child := if step.onLeft && 2 * i + 1 < |levels[t - 1]| then 2 * i + 1 else 2 * i;
        Explain(H, lines, levels, line, proof[..|proof| - 1], t - 1, child)
  }

  function LastPreimage(H: Hash, line: bytes, proof: seq<ProofNode>): bytes
    requires proof != []
  {
    StepPreimage(Fold(H, LeafHash(H, line), proof[..|proof| - 1]), proof[|proof| - 1])
  }

  /** x was hashed while checking (line, proof). */
  ghost predicate HashedByChecker(H: Hash, line: bytes, proof: seq<ProofNode>, x: bytes) {
    || x == line || x == H(line)
    || exists n :: 0 < n <= |proof| && x == LastPreimage(H, line, proof[..n])
  }

  /** y was hashed while building the tree over `lines`. */
  ghost predicate HashedByBuilder(H: Hash, lines: seq<bytes>, levels: seq<seq<Digest>>, y: bytes) {
    || (exists i :: 0 <= i < |lines| && (y == lines[i] || y == H(lines[i])))
    || exists t, i: nat :: 0 <= t < |levels| - 1 && 2 * i < |levels[t]| &&
         y == ChildBytes(levels[t], i)
  }

  ghost predicate Justified(H: Hash, lines: seq<bytes>, levels: seq<seq<Digest>>, line: bytes, proof: seq<ProofNode>, e: Explanation) {
    match e
    case Member(i) => i < |lines| && lines[i] == line
    case Collision(x, y) =>
      && x != y && H(x) == H(y)
      && HashedByChecker(H, line, proof, x) && HashedByBuilder(H, lines, levels, y)
  }

  lemma {:induction false} ExplainJustified(H: Hash, lines: seq<bytes>, levels: seq<seq<Digest>>, line: bytes, proof: seq<ProofNode>, t: nat, i: nat)
    requires Commits(H, lines, levels) && WellFormed(line, proof)
    requires t < |levels| && i < |levels[t]|
    requires forall u :: 0 < u < |levels| ==> |levels[u]| == (|levels[u - 1]| + 1) / 2
    requires Fold(H, LeafHash(H, line), proof) == levels[t][i]
    ensures Justified(H, lines, levels, line, proof, Explain(H, lines, levels, line, proof, t, i))
    decreases |proof|
  {
    var e := Explain(H, lines, levels, line, proof, t, i);
    if t == 0 {
      assert levels[0][i] == LeafHash(H, lines[i]);
      if proof != [] { assert proof[..|proof|] == proof; }
    } else {
      assert NextOf(H, levels[t - 1], levels[t - 1 + 1]);
      var (l, r) := Children(levels[t - 1], i);
      if proof != [] {
        var n := |proof| - 1;
        assert proof[..n + 1] == proof;
        if LastPreimage(H, line, proof) == Pair(l, r) {
          var node := Fold(H, LeafHash(H, line), proof[..n]);
          HalvesEqual(node, proof[n], l, r);
          var child := if proof[n].onLeft && 2 * i + 1 < |levels[t - 1]| then 2 * i + 1 else 2 * i;
          ExplainJustified(H, lines, levels, line, proof[..n], t - 1, child);
          CheckerPrefix(H, line, proof, n);
        }
      }
    }
  }

  lemma HalvesEqual(node: Digest, step: ProofNode, l: Digest, r: Digest)
    requires |step.sibling| == 32 && StepPreimage(node, step) == Pair(l, r)
    ensures node == if step.onLeft then r else l
  {
    var s := StepPreimage(node, step);
    assert s[..32] == l && s[32..] == r;
    assert step.onLeft ==> s[32..] == node;
    assert !step.onLeft ==> s[..32] == node;
  }

  lemma CheckerPrefix(H: Hash, line: bytes, proof: seq<ProofNode>, n: nat)
    requires n <= |proof|
    ensures forall x :: HashedByChecker(H, line, proof[..n], x) ==> HashedByChecker(H, line, proof, x)
  {
    forall x | HashedByChecker(H, line, proof[..n], x)
      ensures HashedByChecker(H, line, proof, x)
    {
      if x != line && x != H(line) {
        var m :| 0 < m <= n && x == LastPreimage(H, line, proof[..n][..m]);
        assert proof[..n][..m] == proof[..m];
      }
    }
  }

  lemma TowerSizes(H: Hash, leaves: seq<Digest>, levels: seq<seq<Digest>>)
    requires Tower(H, leaves, levels)
    ensures forall u :: 0 < u < |levels| ==> |levels[u]| == (|levels[u - 1]| + 1) / 2
  {
    forall u | 0 < u < |levels|
      ensures |levels[u]| == (|levels[u - 1]| + 1) / 2
    {
      assert NextOf(H, levels[u - 1], levels[u - 1 + 1]);
    }
  }

  /** Soundness: whatever line and proof, of whatever length, are accepted against the root, either
      the line is committed or Explain names a string hashed by the checker and a different one
      hashed by the builder with the same digest. */
  lemma Soundness(H: Hash, lines: seq<bytes>, levels: seq<seq<Digest>>, line: bytes, proof: seq<ProofNode>)
    requires Commits(H, lines, levels) && Accepts(H, line, proof, Root(levels))
    ensures forall u :: 0 < u < |levels| ==> |levels[u]| == (|levels[u - 1]| + 1) / 2
    ensures Justified(H, lines, levels, line, proof, Explain(H, lines, levels, line, proof, |levels| - 1, 0))
  {
    TowerSizes(H, Leaves(H, lines), levels);
    ExplainJustified(H, lines, levels, line, proof, |levels| - 1, 0);
  }
}
