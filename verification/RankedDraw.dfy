/** Ranked winner selection: the streaming top-k of sdk/snapshot.ts, its sort-and-slice form, and
    the index sort of sdk/verify.ts. */
module RankedDraw {
  import opened Wrappers
  import opened StableSort
  import opened Entries

  datatype Formula = WeightedRandom | RankDesc | RankAsc | FirstN | ClosestTo

  function Abs(x: int): nat {
    if x < 0 then -x else x
  }

  /** Comparator of formula entries; `order` values need not be distinct. */
  function Compare(formula: Formula, target: int, left: Entry, right: Entry): int {
    match formula
    case RankDesc =>
      if left.score != right.score then (if left.score > right.score then -1 else 1)
      else left.order - right.order
    case RankAsc =>
      if left.score != right.score then (if left.score < right.score then -1 else 1)
      else left.order - right.order
    case FirstN => left.order - right.order
    case ClosestTo =>
      var absLeft, absRight := Abs(left.score - target), Abs(right.score - target);
      if absLeft != absRight then (if absLeft < absRight then -1 else 1)
      else left.order - right.order
    case WeightedRandom => 0
  }

  /** w may rank before e: what each formula promises, in scores and orders alone. */
  ghost predicate Leads(formula: Formula, target: int, w: Entry, e: Entry) {
    match formula
    case RankDesc => w.score >= e.score && (w.score == e.score ==> w.order <= e.order)
    case RankAsc => w.score <= e.score && (w.score == e.score ==> w.order <= e.order)
    case FirstN => w.order <= e.order
    case ClosestTo => Nearer(w.score - target, e.score - target) && (!Nearer(e.score - target, w.score - target) || w.order <= e.order)
    case WeightedRandom => true
  }

  /** |x| <= |y| */
  ghost predicate Nearer(x: int, y: int) {
    -y <= x <= y || y <= x <= -y
  }

  lemma CompareMeaning(formula: Formula, target: int, w: Entry, e: Entry)
    ensures Compare(formula, target, w, e) <= 0 <==> Leads(formula, target, w, e)
  {}

  function Comparator(formula: Formula, target: int): (Entry, Entry) -> int {
    (a, b) => Compare(formula, target, a, b)
  }

  /** Every formula's comparator meets the requirements of a sort comparator, ties included. */
  lemma ComparatorConsistent(formula: Formula, target: int)
    ensures Consistent(Comparator(formula, target))
  {
    var cmp := Comparator(formula, target);
    forall a, b
      ensures Antisymmetric(cmp, a, b)
    {
    }
    forall a, b, c
      ensures Transitive(cmp, a, b, c)
    {
    }
  }

  /** The winners by definition: the first k of the stably sorted entries. */
  function Ranking(formula: Formula, target: int, entries: seq<Entry>, k: nat): seq<Entry> {
    Take(k, Sort(Comparator(formula, target), entries))
  }

  /** The bounded buffer holds exactly the top k of what has been read, and one more entry keeps
      it so: sorting k + 1 entries and truncating refines sorting everything. */
  lemma StreamStep(formula: Formula, target: int, seen: seq<Entry>, k: nat, x: Entry)
    ensures Take(k, Sort(Comparator(formula, target), Ranking(formula, target, seen, k) + [x]))
         == Ranking(formula, target, seen + [x], k)
  {
    var cmp := Comparator(formula, target);
    ComparatorConsistent(formula, target);
    var s := Sort(cmp, seen);
    SortSorted(cmp, seen);
    SortOfSorted(cmp, Take(k, s));
    SortSnoc(cmp, Take(k, s), x);
    TakeInsert(cmp, s, k, x);
    SortSnoc(cmp, seen, x);
  }

  /** One step of the pass: push, sort, truncate. */
  method PushTopK(formula: Formula, target: int, ghost seen: seq<Entry>, k: nat, buffer: seq<Entry>, x: Entry)
    returns (best: seq<Entry>)
    requires buffer == Ranking(formula, target, seen, k)
    ensures best == Ranking(formula, target, seen + [x], k)
  {
    StreamStep(formula, target, seen, k, x);
    best := Sort(Comparator(formula, target), buffer + [x]);
    if |best| > k {
      best := best[..k];
    }
  }

  /** buildSnapshotClaimFromFile, ranked branch: one pass with a buffer of at most k entries. */
  method StreamTopK(formula: Formula, target: int, entries: seq<Entry>, k: nat) returns (r: Result<seq<seq<char>>>)
    ensures r == if k <= |entries| then Ok(Ids(Ranking(formula, target, entries, k))) else Err
  {
    var best: seq<Entry> := [];
    for i := 0 to |entries|
      invariant best == Ranking(formula, target, entries[..i], k)
    {
      best := PushTopK(formula, target, entries[..i], k, best, entries[i]);
      assert entries[..i + 1] == entries[..i] + [entries[i]];
    }
    assert entries[..|entries|] == entries;
    if |best| != k {
      return Err;
    }
    r := Ok(Ids(best));
  }

  /** buildCompactNamedEntryClaimFromArtifactV5, ranked branch: sort everything, slice, map. The
      result is that of the streaming pass. */
  method SortAndSlice(formula: Formula, target: int, entries: seq<Entry>, k: nat) returns (r: Result<seq<seq<char>>>)
    ensures r == if k <= |entries| then Ok(Ids(Ranking(formula, target, entries, k))) else Err
  {
    var winners := Take(k, Sort(Comparator(formula, target), entries));
    if |winners| != k {
      return Err;
    }
    r := Ok(Ids(winners));
  }

  function At(entries: seq<Entry>, i: int): Entry {
    if 0 <= i < |entries| then entries[i] else Entry("", 0, 0, 0)
  }

  function IndexComparator(formula: Formula, target: int, entries: seq<Entry>): (int, int) -> int {
    (a, b) => Compare(formula, target, At(entries, a), At(entries, b))
  }

  function Indices(n: nat): (s: seq<int>)
    ensures |s| == n && forall i :: 0 <= i < n ==> s[i] == i
  {
    seq(n, i => i)
  }

  /** selectOutcomes, ranked branch: sort indices by the entries they point to. */
  function IndexSort(formula: Formula, target: int, entries: seq<Entry>, k: nat): seq<int> {
    Take(k, Sort(IndexComparator(formula, target, entries), Indices(|entries|)))
  }

  function Pointed(entries: seq<Entry>, idx: seq<int>): seq<Entry> {
    Map(i => At(entries, i), idx)
  }

  lemma MapTake<A, B>(f: A -> B, k: nat, s: seq<A>)
    ensures Map(f, Take(k, s)) == Take(k, Map(f, s))
  {}

  /** The verifier's index sort points at the winners of the definition, in the same order. */
  lemma IndexSortAgrees(formula: Formula, target: int, entries: seq<Entry>, k: nat)
    ensures Pointed(entries, IndexSort(formula, target, entries, k)) == Ranking(formula, target, entries, k)
  {
    var f := (i: int) => At(entries, i);
    var cmp := Comparator(formula, target);
    var idx := Indices(|entries|);
    var key := IndexComparator(formula, target, entries);
    SortMap(f, cmp, key, idx);
    assert Map(f, idx) == entries;
    MapTake(f, k, Sort(key, idx));
  }

  lemma IndexComparatorConsistent(formula: Formula, target: int, entries: seq<Entry>)
    ensures Consistent(IndexComparator(formula, target, entries))
  {
    var cmp, key := Comparator(formula, target), IndexComparator(formula, target, entries);
    ComparatorConsistent(formula, target);
    forall a, b
      ensures Antisymmetric(key, a, b)
    {
      assert Antisymmetric(cmp, At(entries, a), At(entries, b));
    }
    forall a, b, c
      ensures Transitive(key, a, b, c)
    {
      assert Transitive(cmp, At(entries, a), At(entries, b), At(entries, c));
    }
  }

  /** The index sort names no position twice. */
  lemma IndexSortDistinct(formula: Formula, target: int, entries: seq<Entry>, k: nat)
    ensures var idx := IndexSort(formula, target, entries, k);
            && (forall i :: 0 <= i < |idx| ==> 0 <= idx[i] < |entries|)
            && (forall i, j :: 0 <= i < j < |idx| ==> idx[i] != idx[j])
            && (k <= |entries| ==> |idx| == k)
  {
    IndexComparatorConsistent(formula, target, entries);
    var all := Indices(|entries|);
    var p := SortArranges(IndexComparator(formula, target, entries), all);
    ArrangedPositions(IndexComparator(formula, target, entries), all, p);
  }

  /** What the index sort selects, in scores and orders: every selected entry leads those selected
      after it and all that are not selected, and list order decides between entries tied in both. */
  lemma IndexSortMeaning(formula: Formula, target: int, entries: seq<Entry>, k: nat)
    ensures var idx := IndexSort(formula, target, entries, k);
            && (forall i, j :: 0 <= i < j < |idx| ==> IndexLeads(formula, target, entries, idx[i], idx[j]))
            && (forall i, n: nat :: 0 <= i < |idx| && n < |entries| && n !in idx ==> IndexLeads(formula, target, entries, idx[i], n))
  {
    IndexComparatorConsistent(formula, target, entries);
    var key, all, idx := IndexComparator(formula, target, entries), Indices(|entries|), IndexSort(formula, target, entries, k);
    var p := SortArranges(key, all);
    forall i, n: nat | 0 <= i < |idx| && n < |entries| && n !in idx
      ensures IndexLeads(formula, target, entries, idx[i], n)
    {
      assert n in p;
      var j :| 0 <= j < |p| && p[j] == n;
      assert idx == p[..|idx|];
      NotInPrefix(p, |idx|, j);
      IndexBefore(formula, target, entries, p[i], p[j]);
    }
    forall i, j | 0 <= i < j < |idx|
      ensures IndexLeads(formula, target, entries, idx[i], idx[j])
    {
      IndexBefore(formula, target, entries, p[i], p[j]);
    }
  }

  ghost predicate IndexLeads(formula: Formula, target: int, entries: seq<Entry>, i: int, j: int) {
    && 0 <= i < |entries| && 0 <= j < |entries| && Leads(formula, target, entries[i], entries[j])
    && (Leads(formula, target, entries[j], entries[i]) ==> i < j)
  }

  lemma IndexBefore(formula: Formula, target: int, entries: seq<Entry>, i: nat, j: nat)
    requires Before(IndexComparator(formula, target, entries), Indices(|entries|), i, j)
    ensures IndexLeads(formula, target, entries, i, j)
  {
    ComparatorConsistent(formula, target);
    CmpLaws(Comparator(formula, target), entries[i], entries[j], entries[i]);
    CompareMeaning(formula, target, entries[i], entries[j]);
    CompareMeaning(formula, target, entries[j], entries[i]);
  }

  lemma BeforeLeads(formula: Formula, target: int, entries: seq<Entry>, i: nat, j: nat)
    requires Before(Comparator(formula, target), entries, i, j)
    ensures IndexLeads(formula, target, entries, i, j)
  {
    ComparatorConsistent(formula, target);
    CmpLaws(Comparator(formula, target), entries[i], entries[j], entries[i]);
    CompareMeaning(formula, target, entries[i], entries[j]);
    CompareMeaning(formula, target, entries[j], entries[i]);
  }

  lemma NotInPrefix(q: seq<nat>, k: nat, j: nat)
    requires k <= |q| && j < |q|
    ensures q[j] in q[..k] || k <= j
  {
    if j < k { assert q[..k][j] == q[j]; }
  }

  /** What the ranking means: the winners are k distinct positions of the list; each leads those after
      it and everybody outside in the formula's scores and orders, list order breaking full ties. */
  lemma RankingMeaning(formula: Formula, target: int, entries: seq<Entry>, k: nat) returns (p: seq<nat>)
    requires k <= |entries|
    ensures |p| == k && Ranking(formula, target, entries, k) == seq(k, i requires 0 <= i < k => At(entries, p[i]))
    ensures forall i :: 0 <= i < k ==> p[i] < |entries|
    ensures forall i, j :: 0 <= i < j < k ==> IndexLeads(formula, target, entries, p[i], p[j])
    ensures forall i, n: nat :: 0 <= i < k && n < |entries| && n !in p ==> IndexLeads(formula, target, entries, p[i], n)
  {
    var cmp := Comparator(formula, target);
    ComparatorConsistent(formula, target);
    var q := SortArranges(cmp, entries);
    p := q[..k];
    forall i, n: nat | 0 <= i < k && n < |entries| && n !in p
      ensures IndexLeads(formula, target, entries, p[i], n)
    {
      assert n in q;
      var j :| 0 <= j < |q| && q[j] == n;
      NotInPrefix(q, k, j);
      BeforeLeads(formula, target, entries, q[i], q[j]);
    }
    forall i, j | 0 <= i < j < k
      ensures IndexLeads(formula, target, entries, p[i], p[j])
    {
      BeforeLeads(formula, target, entries, q[i], q[j]);
    }
  }
}
