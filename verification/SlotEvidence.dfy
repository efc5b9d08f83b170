/** Greedy resolution of target slots against the SlotHashes table (sdk/operator.ts). */
module SlotEvidence {
  import opened Wrappers

  datatype Row = Row(slot: nat, hash: seq<int>)

  /** A row the loop may take for this target. */
  predicate Candidate(row: Row, previous: nat, target: int) {
    row.slot > previous && row.slot >= target
  }

  /** Row j is the first row holding the least candidate slot. */
  ghost predicate Selected(table: seq<Row>, previous: nat, target: int, j: nat) {
    && j < |table| && Candidate(table[j], previous, target)
    && (forall k :: 0 <= k < |table| && Candidate(table[k], previous, target) ==> table[j].slot <= table[k].slot)
    && (forall k :: 0 <= k < j ==> table[k].slot != table[j].slot)
  }

  ghost predicate NoCandidate(table: seq<Row>, previous: nat, target: int) {
    forall k :: 0 <= k < |table| ==> !Candidate(table[k], previous, target)
  }

  /** The inner scan: keeps the least candidate so far and leaves early on an exact hit. */
  method SelectRow(table: seq<Row>, previous: nat, target: int) returns (r: Option<nat>)
    ensures r.Some? ==> Selected(table, previous, target, r.value)
    ensures r.None? ==> NoCandidate(table, previous, target)
  {
    r := None;
    for index := 0 to |table|
      invariant r.Some? ==> r.value < index && Selected(table[..index], previous, target, r.value)
      invariant r.None? ==> NoCandidate(table[..index], previous, target)
      invariant r.Some? ==> table[r.value].slot != target
    {
      var slot := table[index].slot;
      assert table[..index + 1] == table[..index] + [table[index]];
      if slot <= previous {
        assert !Candidate(table[index], previous, target);
        continue;
      }
      if slot == target || (slot > target && (r.None? || slot < table[r.value].slot)) {
        NewLeast(table, previous, target, r, index);
        r := Some(index);
        if slot == target {
          ExactHitIsLeast(table, previous, target, index);
          return;
        }
      }
    }
    assert table[..|table|] == table;
  }

  lemma NewLeast(table: seq<Row>, previous: nat, target: int, r: Option<nat>, index: nat)
    requires index < |table| && Candidate(table[index], previous, target)
    requires r.Some? ==> r.value < index && Selected(table[..index], previous, target, r.value)
    requires r.Some? ==> table[index].slot < table[r.value].slot
    requires r.None? ==> NoCandidate(table[..index], previous, target)
    ensures Selected(table[..index + 1], previous, target, index)
  {
    var t := table[..index + 1];
    forall k | 0 <= k < index
      ensures t[k].slot != t[index].slot
      ensures Candidate(t[k], previous, target) ==> t[index].slot <= t[k].slot
    {
      assert t[k] == table[..index][k];
      assert t[k].slot == t[index].slot ==> Candidate(t[k], previous, target);
    }
  }

  lemma ExactHitIsLeast(table: seq<Row>, previous: nat, target: int, index: nat)
    requires index < |table| && table[index].slot == target
    requires Selected(table[..index + 1], previous, target, index)
    ensures Selected(table, previous, target, index)
  {
    forall k | 0 <= k < index
      ensures table[k].slot != table[index].slot
    {
      assert table[k] == table[..index + 1][k];
    }
  }

  // ---------------------------------------------------------------- resolution

  ghost predicate HasSlot(table: seq<Row>, slot: nat) {
    exists k :: 0 <= k < |table| && table[k].slot == slot
  }

  /** Strictly increasing positive table slots, each at or after its target. */
  ghost predicate Admissible(table: seq<Row>, targets: seq<int>, slots: seq<nat>) {
    && |slots| <= |targets|
    && (forall i :: 0 <= i < |slots| ==> HasSlot(table, slots[i]) && 0 < slots[i] && targets[i] <= slots[i])
    && (forall i :: 0 < i < |slots| ==> slots[i - 1] < slots[i])
  }

  /** No admissible sequence is anywhere below this one. */
  ghost predicate PointwiseLeast(table: seq<Row>, targets: seq<int>, slots: seq<nat>) {
    forall other: seq<nat>, i: nat :: Admissible(table, targets, other) && i < |slots| && i < |other| ==>
      slots[i] <= other[i]
  }

  /** The hash that goes with a slot: the one of its first row. */
  ghost predicate HashOf(table: seq<Row>, slot: nat, hash: seq<int>) {
    exists j :: 0 <= j < |table| && table[j] == Row(slot, hash) && forall k :: 0 <= k < j ==> table[k].slot != slot
  }

  datatype Evidence = Missing(target: int) | Evidence(slots: seq<nat>, hashes: seq<seq<int>>)

  function Last(slots: seq<nat>): nat {
    if slots == [] then 0 else slots[|slots| - 1]
  }

  /** The next slot of any admissible sequence is a candidate after the greedy prefix. */
  lemma OtherIsCandidate(table: seq<Row>, targets: seq<int>, slots: seq<nat>, other: seq<nat>)
    requires Admissible(table, targets, other) && |slots| < |other|
    requires PointwiseLeast(table, targets, slots)
    ensures exists k :: 0 <= k < |table| && table[k].slot == other[|slots|] && Candidate(table[k], Last(slots), targets[|slots|])
  {
    var n := |slots|;
    assert HasSlot(table, other[n]);
    var k :| 0 <= k < |table| && table[k].slot == other[n];
    if n > 0 { assert slots[n - 1] <= other[n - 1] < other[n]; }
  }

  lemma GreedyStep(table: seq<Row>, targets: seq<int>, slots: seq<nat>, j: nat)
    requires Admissible(table, targets, slots) && PointwiseLeast(table, targets, slots)
    requires |slots| < |targets| && Selected(table, Last(slots), targets[|slots|], j)
    ensures Admissible(table, targets, slots + [table[j].slot])
    ensures PointwiseLeast(table, targets, slots + [table[j].slot])
  {
    var n := |slots|;
    var next := slots + [table[j].slot];
    forall other: seq<nat>, i: nat | Admissible(table, targets, other) && i < |next| && i < |other|
      ensures next[i] <= other[i]
    {
      if i == n {
        OtherIsCandidate(table, targets, slots, other);
      }
    }
  }

  lemma NoneLeft(table: seq<Row>, targets: seq<int>, slots: seq<nat>)
    requires PointwiseLeast(table, targets, slots) && |slots| < |targets|
    requires NoCandidate(table, Last(slots), targets[|slots|])
    ensures forall other: seq<nat> :: Admissible(table, targets, other) ==> |other| <= |slots|
  {
    forall other: seq<nat> | Admissible(table, targets, other)
      ensures |other| <= |slots|
    {
      if |other| > |slots| {
        OtherIsCandidate(table, targets, slots, other);
      }
    }
  }

  /** The loop state: a greedy prefix with its hashes. */
  ghost predicate Greedy(table: seq<Row>, targets: seq<int>, slots: seq<nat>, hashes: seq<seq<int>>) {
    && |slots| == |hashes|
    && Admissible(table, targets, slots) && PointwiseLeast(table, targets, slots)
    && forall k :: 0 <= k < |slots| ==> HashOf(table, slots[k], hashes[k])
  }

  lemma GreedyHash(table: seq<Row>, targets: seq<int>, slots: seq<nat>, hashes: seq<seq<int>>, j: nat)
    requires Greedy(table, targets, slots, hashes) && |slots| < |targets|
    requires Selected(table, Last(slots), targets[|slots|], j)
    ensures Greedy(table, targets, slots + [table[j].slot], hashes + [table[j].hash])
  {
    GreedyStep(table, targets, slots, j);
    assert HashOf(table, table[j].slot, table[j].hash);
  }

  /** n is the number of leading targets that can be covered. */
  ghost predicate Coverable(table: seq<Row>, targets: seq<int>, n: nat) {
    && (exists slots: seq<nat> :: |slots| == n && Admissible(table, targets, slots))
    && (forall slots: seq<nat> :: Admissible(table, targets, slots) ==> |slots| <= n)
  }

  /** What a resolution must be: the pointwise least admissible sequence over all targets with its
      hashes, or the first target that no admissible sequence reaches. */
  ghost predicate Resolves(table: seq<Row>, targets: seq<int>, r: Evidence) {
    match r
    case Evidence(slots, hashes) =>
      && |slots| == |targets| == |hashes|
      && Admissible(table, targets, slots) && PointwiseLeast(table, targets, slots)
      && forall i :: 0 <= i < |targets| ==> HashOf(table, slots[i], hashes[i])
    case Missing(target) =>
      exists n: nat :: n < |targets| && target == targets[n] && Coverable(table, targets, n)
  }

  /** resolveSlotEvidence. */
  method ResolveSlotEvidence(table: seq<Row>, targets: seq<int>) returns (r: Evidence)
    ensures Resolves(table, targets, r)
    ensures r.Missing? <==> forall other: seq<nat> :: Admissible(table, targets, other) ==> |other| < |targets|
  {
    var slots: seq<nat>, hashes: seq<seq<int>> := [], [];
    var previous: nat := 0;
    for i := 0 to |targets|
      invariant |slots| == i && previous == Last(slots)
      invariant Greedy(table, targets, slots, hashes)
    {
      var row := SelectRow(table, previous, targets[i]);
      if row.None? {
        NoneLeft(table, targets, slots);
        assert Coverable(table, targets, i);
        return Missing(targets[i]);
      }
      GreedyHash(table, targets, slots, hashes, row.value);
      slots := slots + [table[row.value].slot];
      hashes := hashes + [table[row.value].hash];
      previous := table[row.value].slot;
    }
    r := Evidence(slots, hashes);
  }

  ghost predicate DistinctSlots(table: seq<Row>) {
    forall i, j :: 0 <= i < j < |table| ==> table[i].slot != table[j].slot
  }

  /** Evidence or failing target: the outcome does not depend on the order of the table's rows. */
  lemma OrderIrrelevant(table: seq<Row>, shuffled: seq<Row>, targets: seq<int>, a: Evidence, b: Evidence)
    requires DistinctSlots(table) && DistinctSlots(shuffled)
    requires forall row :: row in table <==> row in shuffled
    requires Resolves(table, targets, a) && Resolves(shuffled, targets, b)
    ensures a == b
  {
    SameAdmissible(table, shuffled, targets);
    if a.Evidence? && b.Evidence? {
      forall i: nat | i < |targets|
        ensures a.slots[i] == b.slots[i] && a.hashes[i] == b.hashes[i]
      {
        assert a.slots[i] <= b.slots[i] && b.slots[i] <= a.slots[i];
        SameHash(table, shuffled, a.slots[i], a.hashes[i], b.hashes[i]);
      }
    }
  }

  lemma SameAdmissible(table: seq<Row>, shuffled: seq<Row>, targets: seq<int>)
    requires forall row :: row in table <==> row in shuffled
    ensures forall slots: seq<nat> :: Admissible(table, targets, slots) <==> Admissible(shuffled, targets, slots)
  {
    forall slots: seq<nat>
      ensures Admissible(table, targets, slots) <==> Admissible(shuffled, targets, slots)
    {
      if Admissible(table, targets, slots) { SameSlots(table, shuffled, targets, slots); }
      if Admissible(shuffled, targets, slots) { SameSlots(shuffled, table, targets, slots); }
    }
  }

  lemma SameSlots(table: seq<Row>, shuffled: seq<Row>, targets: seq<int>, slots: seq<nat>)
    requires forall row :: row in table <==> row in shuffled
    requires Admissible(table, targets, slots)
    ensures Admissible(shuffled, targets, slots)
  {
    forall i | 0 <= i < |slots|
      ensures HasSlot(shuffled, slots[i])
    {
      assert HasSlot(table, slots[i]);
      var k :| 0 <= k < |table| && table[k].slot == slots[i];
      assert table[k] in shuffled;
    }
  }

  lemma SameHash(table: seq<Row>, shuffled: seq<Row>, slot: nat, h: seq<int>, h': seq<int>)
    requires DistinctSlots(shuffled)
    requires forall row :: row in table <==> row in shuffled
    requires HashOf(table, slot, h) && HashOf(shuffled, slot, h')
    ensures h == h'
  {
    var j :| 0 <= j < |table| && table[j] == Row(slot, h);
    assert table[j] in shuffled;
    var k :| 0 <= k < |shuffled| && shuffled[k] == table[j];
    var m :| 0 <= m < |shuffled| && shuffled[m] == Row(slot, h');
  }
}
