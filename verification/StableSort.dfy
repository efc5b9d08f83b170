/** The stable sort of ECMA-262 2023 (section 23.1.3.30) for a consistent comparator, as a function,
    with the proof that it is the only arrangement the standard allows. */
module StableSort {

  /** Sign-antisymmetric and transitive, as the standard requires of a comparator. */
  ghost predicate Consistent<T(!new)>(cmp: (T, T) -> int) {
    && (forall a, b :: Antisymmetric(cmp, a, b))
    && (forall a, b, c :: Transitive(cmp, a, b, c))
  }

  ghost predicate Antisymmetric<T(!new)>(cmp: (T, T) -> int, a: T, b: T) {
    cmp(a, b) < 0 <==> cmp(b, a) > 0
  }

  ghost predicate Transitive<T(!new)>(cmp: (T, T) -> int, a: T, b: T, c: T) {
    cmp(a, b) <= 0 && cmp(b, c) <= 0 ==> cmp(a, c) <= 0
  }

  lemma CmpLaws<T(!new)>(cmp: (T, T) -> int, a: T, b: T, c: T)
    requires Consistent(cmp)
    ensures cmp(a, b) < 0 <==> cmp(b, a) > 0
    ensures cmp(a, a) == 0
    ensures cmp(a, b) <= 0 && cmp(b, c) <= 0 ==> cmp(a, c) <= 0
    ensures cmp(a, b) <= 0 && cmp(b, c) < 0 ==> cmp(a, c) < 0
    ensures cmp(a, b) < 0 && cmp(b, c) <= 0 ==> cmp(a, c) < 0
  {
    assert Antisymmetric(cmp, a, b) && Antisymmetric(cmp, a, a);
    assert Antisymmetric(cmp, b, c) && Antisymmetric(cmp, c, b);
    assert Antisymmetric(cmp, a, c) && Antisymmetric(cmp, c, a) && Antisymmetric(cmp, b, a);
    assert Transitive(cmp, a, b, c) && Transitive(cmp, b, c, a) && Transitive(cmp, c, a, b);
  }

  ghost predicate Sorted<T(!new)>(cmp: (T, T) -> int, s: seq<T>) {
    forall i, j :: 0 <= i < j < |s| ==> cmp(s[i], s[j]) <= 0
  }

  /** Position after every leading element that does not exceed x. */
  function Position<T(!new)>(cmp: (T, T) -> int, s: seq<T>, x: T): (k: nat)
    ensures k <= |s|
    ensures forall i :: 0 <= i < k ==> cmp(s[i], x) <= 0
    ensures k < |s| ==> cmp(s[k], x) > 0
  {
    if s == [] || cmp(s[0], x) > 0 then 0 else 1 + Position(cmp, s[1..], x)
  }

  function Insert<T(!new)>(cmp: (T, T) -> int, s: seq<T>, x: T): seq<T> {
    var k := Position(cmp, s, x);
    s[..k] + [x] + s[k..]
  }

  function Sort<T(!new)>(cmp: (T, T) -> int, s: seq<T>): (t: seq<T>)
    ensures |t| == |s|
  {
    if s == [] then [] else Insert(cmp, Sort(cmp, s[..|s| - 1]), s[|s| - 1])
  }

  // ---------------------------------------------------------------- specification

  /** t rearranges s by p; ties keep their original order. */
  ghost predicate StableArrangement<T(!new)>(cmp: (T, T) -> int, s: seq<T>, t: seq<T>, p: seq<nat>) {
    && |p| == |t| == |s|
    && (forall i :: 0 <= i < |p| ==> p[i] < |s| && t[i] == s[p[i]])
    && (forall n: nat :: n < |s| ==> n in p)
    && (forall i, j :: 0 <= i < j < |p| ==> Before(cmp, s, p[i], p[j]))
  }

  ghost predicate Before<T(!new)>(cmp: (T, T) -> int, s: seq<T>, i: nat, j: nat) {
    i < |s| && j < |s| && (cmp(s[i], s[j]) < 0 || (cmp(s[i], s[j]) == 0 && i < j))
  }

  lemma {:induction false} SortArranges<T(!new)>(cmp: (T, T) -> int, s: seq<T>) returns (p: seq<nat>)
    requires Consistent(cmp)
    ensures StableArrangement(cmp, s, Sort(cmp, s), p)
  {
    if s == [] {
      p := [];
    } else {
      var n := |s| - 1;
      var q := SortArranges(cmp, s[..n]);
      var t := Sort(cmp, s[..n]);
      var k := Position(cmp, t, s[n]);
      p := q[..k] + [n] + q[k..];
      InsertArranges(cmp, s, t, q, k, p);
    }
  }

  lemma InsertArranges<T(!new)>(cmp: (T, T) -> int, s: seq<T>, t: seq<T>, q: seq<nat>, k: nat, p: seq<nat>)
    requires Consistent(cmp) && s != []
    requires StableArrangement(cmp, s[..|s| - 1], t, q)
    requires k == Position(cmp, t, s[|s| - 1])
    requires p == q[..k] + [|s| - 1] + q[k..]
    ensures StableArrangement(cmp, s, Insert(cmp, t, s[|s| - 1]), p)
  {
    var n := |s| - 1;
    assert s == s[..n] + [s[n]];
    InsertMoves(s[..n], t, s[n], q, k);
    InsertCovers(q, n, k);
    InsertKeepsOrder(cmp, s, t, q, k, p);
  }

  /** Inserting x and its position at the same place keeps elements and positions in step. */
  lemma InsertMoves<T>(s: seq<T>, t: seq<T>, x: T, q: seq<nat>, k: nat)
    requires |t| == |q| && k <= |q| && forall i :: 0 <= i < |q| ==> q[i] < |s| && t[i] == s[q[i]]
    ensures var p, r := q[..k] + [|s|] + q[k..], t[..k] + [x] + t[k..];
            forall i :: 0 <= i < |p| ==> p[i] < |s| + 1 && r[i] == (s + [x])[p[i]]
  {
    var p, r := q[..k] + [|s|] + q[k..], t[..k] + [x] + t[k..];
    forall i | 0 <= i < |p|
      ensures p[i] < |s| + 1 && r[i] == (s + [x])[p[i]]
    {
      if i > k { assert p[i] == q[i - 1] && r[i] == t[i - 1]; }
    }
  }

  lemma InsertCovers(q: seq<nat>, n: nat, k: nat)
    requires k <= |q| && forall m: nat :: m < n ==> m in q
    ensures forall m: nat :: m < n + 1 ==> m in q[..k] + [n] + q[k..]
  {
    forall m: nat | m < n + 1
      ensures m in q[..k] + [n] + q[k..]
    {
      var p := q[..k] + [n] + q[k..];
      if m < n {
        assert m in q;
        var i :| 0 <= i < |q| && q[i] == m;
        assert p[if i < k then i else i + 1] == m;
      } else {
        assert p[k] == m;
      }
    }
  }

  lemma InsertKeepsOrder<T(!new)>(cmp: (T, T) -> int, s: seq<T>, t: seq<T>, q: seq<nat>, k: nat, p: seq<nat>)
    requires Consistent(cmp) && s != []
    requires StableArrangement(cmp, s[..|s| - 1], t, q)
    requires k == Position(cmp, t, s[|s| - 1])
    requires p == q[..k] + [|s| - 1] + q[k..]
    ensures forall i, j :: 0 <= i < j < |p| ==> Before(cmp, s, p[i], p[j])
  {
    forall i, j | 0 <= i < j < |p|
      ensures Before(cmp, s, p[i], p[j])
    {
      InsertOrdered(cmp, s, t, q, k, if i < k then i else i - 1, if j < k then j else j - 1, i == k, j == k);
    }
  }

  /** The three kinds of pairs after an insertion at k: two old elements, an old one before the new
      one, and the new one before an old one. */
  lemma InsertOrdered<T(!new)>(cmp: (T, T) -> int, s: seq<T>, t: seq<T>, q: seq<nat>, k: nat,
                               i: int, j: int, newLeft: bool, newRight: bool)
    requires Consistent(cmp) && s != []
    requires StableArrangement(cmp, s[..|s| - 1], t, q)
    requires k == Position(cmp, t, s[|s| - 1])
    requires !(newLeft && newRight)
    requires !newLeft ==> 0 <= i < |q|
    requires !newRight ==> 0 <= j < |q|
    requires !newLeft && !newRight ==> i < j
    requires newLeft ==> k <= j
    requires newRight ==> i < k
    ensures Before(cmp, s, if newLeft then |s| - 1 else q[i], if newRight then |s| - 1 else q[j])
  {
    var n := |s| - 1;
    var x := s[n];
    if newLeft {
      assert cmp(t[k], x) > 0;
      if k < j {
        assert Before(cmp, s[..n], q[k], q[j]);
        CmpLaws(cmp, t[k], t[j], x);
        assert !(cmp(t[j], x) <= 0);
      }
      CmpLaws(cmp, t[j], x, x);
      CmpLaws(cmp, x, t[j], x);
    } else if newRight {
      assert cmp(t[i], x) <= 0;
    } else {
      assert Before(cmp, s[..n], q[i], q[j]);
    }
  }

  lemma BeforeAntisymmetric<T(!new)>(cmp: (T, T) -> int, s: seq<T>, i: nat, j: nat)
    requires Consistent(cmp)
    ensures !(Before(cmp, s, i, j) && Before(cmp, s, j, i))
  {
    if i < |s| && j < |s| {
      CmpLaws(cmp, s[i], s[j], s[i]);
      CmpLaws(cmp, s[j], s[i], s[j]);
    }
  }

  /** An arrangement uses no position twice. */
  lemma ArrangedPositions<T(!new)>(cmp: (T, T) -> int, s: seq<T>, p: seq<nat>)
    requires Consistent(cmp) && forall i, j :: 0 <= i < j < |p| ==> Before(cmp, s, p[i], p[j])
    ensures forall i, j :: 0 <= i < j < |p| ==> p[i] != p[j]
  {
    forall i, j | 0 <= i < j < |p|
      ensures p[i] != p[j]
    {
      assert Before(cmp, s, p[i], p[j]);
      BeforeAntisymmetric(cmp, s, p[i], p[j]);
    }
  }

  lemma FirstIsLeast<T(!new)>(cmp: (T, T) -> int, s: seq<T>, q: seq<nat>, i: nat)
    requires i < |q|
    requires forall i, j :: 0 <= i < j < |q| ==> Before(cmp, s, q[i], q[j])
    ensures q[i] == q[0] || Before(cmp, s, q[0], q[i])
  {}

  lemma {:induction false} OrderUnique<T(!new)>(cmp: (T, T) -> int, s: seq<T>, p: seq<nat>, q: seq<nat>)
    requires Consistent(cmp)
    requires forall i, j :: 0 <= i < j < |p| ==> Before(cmp, s, p[i], p[j])
    requires forall i, j :: 0 <= i < j < |q| ==> Before(cmp, s, q[i], q[j])
    requires forall n: nat :: n in p <==> n in q
    requires |p| == |q|
    ensures p == q
    decreases |p|
  {
    if p != [] {
      assert p[0] in q && q[0] in p;
      var i :| 0 <= i < |q| && q[i] == p[0];
      var j :| 0 <= j < |p| && p[j] == q[0];
      BeforeAntisymmetric(cmp, s, p[0], q[0]);
      FirstIsLeast(cmp, s, q, i);
      FirstIsLeast(cmp, s, p, j);
      forall n: nat
        ensures n in p[1..] <==> n in q[1..]
      {
        TailMembers(cmp, s, p, n);
        TailMembers(cmp, s, q, n);
      }
      OrderUnique(cmp, s, p[1..], q[1..]);
      assert p == [p[0]] + p[1..] && q == [q[0]] + q[1..];
    }
  }

  lemma TailMembers<T(!new)>(cmp: (T, T) -> int, s: seq<T>, p: seq<nat>, n: nat)
    requires Consistent(cmp) && p != []
    requires forall i, j :: 0 <= i < j < |p| ==> Before(cmp, s, p[i], p[j])
    ensures n in p[1..] <==> n in p && n != p[0]
  {
    if n in p[1..] {
      var i :| 0 <= i < |p[1..]| && p[1..][i] == n;
      BeforeAntisymmetric(cmp, s, p[0], p[0]);
      assert p[i + 1] == n;
      assert Before(cmp, s, p[0], p[i + 1]);
    }
  }

  /** A consistent comparator leaves a stable sort no choice: Sort is its only result. */
  lemma SortIsTheStableSort<T(!new)>(cmp: (T, T) -> int, s: seq<T>, t: seq<T>, p: seq<nat>)
    requires Consistent(cmp) && StableArrangement(cmp, s, t, p)
    ensures t == Sort(cmp, s)
  {
    var q := SortArranges(cmp, s);
    forall n: nat
      ensures n in p <==> n in q
    {
      assert n in p ==> n < |s|;
      assert n in q ==> n < |s|;
    }
    OrderUnique(cmp, s, p, q);
  }

  // ---------------------------------------------------------------- consequences

  lemma SortSorted<T(!new)>(cmp: (T, T) -> int, s: seq<T>)
    requires Consistent(cmp)
    ensures Sorted(cmp, Sort(cmp, s))
  {
    var p := SortArranges(cmp, s);
    var t := Sort(cmp, s);
    forall i, j | 0 <= i < j < |t|
      ensures cmp(t[i], t[j]) <= 0
    {
      assert Before(cmp, s, p[i], p[j]);
    }
  }

  lemma {:induction false} SortOfSorted<T(!new)>(cmp: (T, T) -> int, s: seq<T>)
    requires Consistent(cmp) && Sorted(cmp, s)
    ensures Sort(cmp, s) == s
  {
    if s != [] {
      var n := |s| - 1;
      SortOfSorted(cmp, s[..n]);
      var k := Position(cmp, s[..n], s[n]);
      assert k == n;
      assert s == s[..n] + [s[n]];
    }
  }

  lemma SortSnoc<T(!new)>(cmp: (T, T) -> int, s: seq<T>, x: T)
    ensures Sort(cmp, s + [x]) == Insert(cmp, Sort(cmp, s), x)
  {
    assert (s + [x])[..|s|] == s;
  }

  function Take<T>(k: nat, s: seq<T>): (t: seq<T>)
    ensures |t| <= k
  {
    if |s| <= k then s else s[..k]
  }

  lemma {:induction false} PositionInPrefix<T(!new)>(cmp: (T, T) -> int, s: seq<T>, k: nat, x: T)
    requires k <= |s|
    ensures Position(cmp, s[..k], x) == if Position(cmp, s, x) <= k then Position(cmp, s, x) else k
  {
    if k != 0 && cmp(s[0], x) <= 0 {
      PositionInPrefix(cmp, s[1..], k - 1, x);
      assert s[..k][1..] == s[1..][..k - 1];
    }
  }

  /** Truncation commutes with insertion: nothing dropped earlier can come back. */
  lemma TakeInsert<T(!new)>(cmp: (T, T) -> int, s: seq<T>, k: nat, x: T)
    ensures Take(k, Insert(cmp, Take(k, s), x)) == Take(k, Insert(cmp, s, x))
  {
    if |s| > k {
      PositionInPrefix(cmp, s, k, x);
      var m := Position(cmp, s, x);
      if m <= k { SplicedEarly(s, k, m, x); } else { SplicedLate(s, k, m, x); }
    }
  }

  lemma SplicedEarly<T>(s: seq<T>, k: nat, m: nat, x: T)
    requires m <= k < |s|
    ensures (s[..k][..m] + [x] + s[..k][m..])[..k] == (s[..m] + [x] + s[m..])[..k]
  {
    assert s[..k][..m] == s[..m] && s[..k][m..] == s[m..k] && s[m..] == s[m..k] + s[k..];
    assert s[..m] + [x] + s[m..] == (s[..m] + [x] + s[m..k]) + s[k..];
  }

  lemma SplicedLate<T>(s: seq<T>, k: nat, m: nat, x: T)
    requires k < m <= |s|
    ensures (s[..k][..k] + [x] + s[..k][k..])[..k] == (s[..m] + [x] + s[m..])[..k]
  {
    assert s[..k] + [x] + s[..k][k..] == s[..k] + [x];
    assert s[..m][..k] == s[..k];
  }

  function Map<A, B>(f: A -> B, s: seq<A>): (t: seq<B>)
    ensures |t| == |s| && forall i :: 0 <= i < |s| ==> t[i] == f(s[i])
  {
    seq(|s|, i requires 0 <= i < |s| => f(s[i]))
  }

  /** Sorting keys through a projection is sorting what the keys point to. */
  lemma {:induction false} SortMap<A(!new), B(!new)>(f: A -> B, cmp: (B, B) -> int, key: (A, A) -> int, s: seq<A>)
    requires forall a, b :: key(a, b) == cmp(f(a), f(b))
    ensures Map(f, Sort(key, s)) == Sort(cmp, Map(f, s))
  {
    if s != [] {
      var n := |s| - 1;
      SortMap(f, cmp, key, s[..n]);
      assert Map(f, s)[..n] == Map(f, s[..n]);
      var t := Sort(key, s[..n]);
      PositionMap(f, cmp, key, t, s[n]);
      MapInsert(f, t, Position(key, t, s[n]), s[n]);
    }
  }

  lemma MapInsert<A, B>(f: A -> B, t: seq<A>, k: nat, x: A)
    requires k <= |t|
    ensures Map(f, t[..k] + [x] + t[k..]) == Map(f, t)[..k] + [f(x)] + Map(f, t)[k..]
  {
    var r := t[..k] + [x] + t[k..];
    assert Map(f, r)[..k] == Map(f, t)[..k];
    assert Map(f, r)[k + 1..] == Map(f, t)[k..];
  }

  lemma {:induction false} PositionMap<A(!new), B(!new)>(f: A -> B, cmp: (B, B) -> int, key: (A, A) -> int, s: seq<A>, x: A)
    requires forall a, b :: key(a, b) == cmp(f(a), f(b))
    ensures Position(key, s, x) == Position(cmp, Map(f, s), f(x))
  {
    if s != [] {
      PositionMap(f, cmp, key, s[1..], x);
      assert Map(f, s)[1..] == Map(f, s[1..]);
    }
  }

  lemma PositionIs<T(!new)>(cmp: (T, T) -> int, s: seq<T>, x: T, k: nat)
    requires k <= |s| && (forall i :: 0 <= i < k ==> cmp(s[i], x) <= 0) && (k < |s| ==> cmp(s[k], x) > 0)
    ensures Position(cmp, s, x) == k
  {}

  /** Two tied elements at the end of a list are sorted next to each other, in list order. */
  lemma TiesInListOrder<T(!new)>(cmp: (T, T) -> int, s: seq<T>, a: T, b: T)
    requires Consistent(cmp) && cmp(a, b) == 0
    ensures var t := Sort(cmp, s); var k := Position(cmp, t, a);
            Position(cmp, t, b) == k && Sort(cmp, s + [a] + [b]) == t[..k] + [a] + [b] + t[k..]
  {
    var t := Sort(cmp, s);
    var k := Position(cmp, t, a);
    forall i | 0 <= i < |t|
      ensures cmp(t[i], a) <= 0 <==> cmp(t[i], b) <= 0
    {
      CmpLaws(cmp, t[i], a, b);
      CmpLaws(cmp, t[i], b, a);
      CmpLaws(cmp, a, b, a);
    }
    PositionIs(cmp, t, b, k);
    SortSnoc(cmp, s, a);
    SortSnoc(cmp, s + [a], b);
    var u := t[..k] + [a] + t[k..];
    forall i | 0 <= i < k + 1
      ensures cmp(u[i], b) <= 0
    {
      assert i < k ==> u[i] == t[i];
    }
    assert k < |t| ==> u[k + 1] == t[k];
    PositionIs(cmp, u, b, k + 1);
    assert u[..k + 1] == t[..k] + [a] && u[k + 1..] == t[k..];
  }

  lemma SortPair<T(!new)>(cmp: (T, T) -> int, x: T, y: T)
    ensures Sort(cmp, [x, y]) == if cmp(x, y) > 0 then [y, x] else [x, y]
  {
    assert [x, y][..1] == [x] && [x][..0] == [];
    assert Sort(cmp, [x]) == Insert(cmp, [], x) == [x];
    PositionIs(cmp, [x], y, if cmp(x, y) > 0 then 0 else 1);
  }

  // ---------------------------------------------------------------- canonical forms

  lemma {:induction false} SortMultiset<T(!new)>(cmp: (T, T) -> int, s: seq<T>)
    ensures multiset(Sort(cmp, s)) == multiset(s)
  {
    if s != [] {
      var n := |s| - 1;
      SortMultiset(cmp, s[..n]);
      var t := Sort(cmp, s[..n]);
      var k := Position(cmp, t, s[n]);
      assert t == t[..k] + t[k..];
      assert s == s[..n] + [s[n]];
    }
  }

  /** Only equal elements of s compare as equal. */
  ghost predicate Faithful<T(!new)>(cmp: (T, T) -> int, s: seq<T>) {
    forall a, b :: a in s && b in s && cmp(a, b) == 0 ==> a == b
  }

  /** With a faithful comparator a sorted list is determined by its multiset. */
  lemma {:induction false} SortedCanonical<T(!new)>(cmp: (T, T) -> int, s: seq<T>, t: seq<T>)
    requires Consistent(cmp) && Sorted(cmp, s) && Sorted(cmp, t)
    requires multiset(s) == multiset(t) && Faithful(cmp, s)
    ensures s == t
    decreases |s|
  {
    SameSize(s, t);
    if s != [] {
      SameHeads(cmp, s, t);
      TailMultiset(s, t);
      TailFaithful(cmp, s);
      SortedCanonical(cmp, s[1..], t[1..]);
    }
  }

  lemma TailFaithful<T(!new)>(cmp: (T, T) -> int, s: seq<T>)
    requires s != [] && Faithful(cmp, s)
    ensures Faithful(cmp, s[1..])
  {
    assert forall a :: a in s[1..] ==> a in s;
  }

  lemma SameHeads<T(!new)>(cmp: (T, T) -> int, s: seq<T>, t: seq<T>)
    requires Consistent(cmp) && Sorted(cmp, s) && Sorted(cmp, t)
    requires multiset(s) == multiset(t) && Faithful(cmp, s) && s != [] && t != []
    ensures s[0] == t[0]
  {
    assert s[0] in multiset(s) && t[0] in multiset(t);
    HeadLeast(cmp, s, t[0]);
    HeadLeast(cmp, t, s[0]);
    CmpLaws(cmp, s[0], t[0], s[0]);
  }

  lemma TailMultiset<T>(s: seq<T>, t: seq<T>)
    requires s != [] && t != [] && s[0] == t[0]
    ensures s == [s[0]] + s[1..] && t == [t[0]] + t[1..]
    ensures multiset(s) == multiset(t) ==> multiset(s[1..]) == multiset(t[1..])
  {
    assert s == [s[0]] + s[1..] && t == [t[0]] + t[1..];
    assert multiset(s[1..]) == multiset(s) - multiset{s[0]};
    assert multiset(t[1..]) == multiset(t) - multiset{t[0]};
  }

  lemma SameSize<T>(s: seq<T>, t: seq<T>)
    requires multiset(s) == multiset(t)
    ensures |s| == |t|
  {
    assert |multiset(s)| == |s| && |multiset(t)| == |t|;
  }

  lemma HeadLeast<T(!new)>(cmp: (T, T) -> int, s: seq<T>, x: T)
    requires Consistent(cmp) && Sorted(cmp, s) && x in s
    ensures cmp(s[0], x) <= 0
  {
    var i :| 0 <= i < |s| && s[i] == x;
    CmpLaws(cmp, x, x, x);
  }
}
