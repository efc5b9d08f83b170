/** Weighted draws without replacement: the streaming two-pass form and the splice form of
    sdk/snapshot.ts, and the index-list form of sdk/verify.ts. For distinct ids all three are proved
    equal to one definition, and the modulo bias of a single round is bounded. */
module WeightedDraw {
  import opened Wrappers
  import opened NumberTheory
  import opened StableSort
  import opened Entries

  // ---------------------------------------------------------------- definition

  function Weights(es: seq<Entry>): seq<nat> {
    Map((e: Entry) => e.weight, es)
  }

  function Total(ws: seq<nat>): nat {
    if ws == [] then 0 else ws[0] + Total(ws[1..])
  }

  ghost predicate Positive(ws: seq<nat>) {
    forall i :: 0 <= i < |ws| ==> 0 < ws[i]
  }

  ghost predicate DistinctIds(es: seq<Entry>) {
    forall i, j :: 0 <= i < j < |es| ==> es[i].id != es[j].id
  }

  /** The cell of the weight line that contains `rolled`. */
  function Pick(ws: seq<nat>, rolled: nat): (i: nat)
    requires rolled < Total(ws)
    ensures i < |ws|
  {
    if rolled < ws[0] then 0 else 1 + Pick(ws[1..], rolled - ws[0])
  }

  function RemoveAt<T>(s: seq<T>, i: nat): (t: seq<T>)
    requires i < |s|
    ensures |t| == |s| - 1
  {
    s[..i] + s[i + 1..]
  }

  lemma {:induction false} TotalPositive(ws: seq<nat>)
    requires Positive(ws)
    ensures |ws| <= Total(ws)
  {
    if ws == [] {
    } else {
      TotalPositive(ws[1..]);
    }
  }

  lemma WeightsPositive(es: seq<Entry>)
    requires Positive(Weights(es))
    ensures |es| <= Total(Weights(es))
    ensures forall i :: 0 <= i < |es| ==> Positive(Weights(RemoveAt(es, i)))
  {
    TotalPositive(Weights(es));
    forall i | 0 <= i < |es|
      ensures Positive(Weights(RemoveAt(es, i)))
    {
      var r := RemoveAt(es, i);
      forall j | 0 <= j < |r|
        ensures 0 < Weights(r)[j]
      {
        assert r[j] == es[if j < i then j else j + 1];
        assert 0 < Weights(es)[if j < i then j else j + 1];
      }
    }
  }

  /** The winners of rounds `round`, `round` + 1, ..., drawn without replacement. */
  function Draw(es: seq<Entry>, roll: nat -> nat, round: nat, k: nat): (winners: seq<Entry>)
    requires Positive(Weights(es)) && k <= |es|
    ensures |winners| == k
  {
    if k == 0 then [] else
      WeightsPositive(es);
      var i := Pick(Weights(es), roll(round) % Total(Weights(es)));
      [es[i]] + Draw(RemoveAt(es, i), roll, round + 1, k - 1)
  }

  // ---------------------------------------------------------------- facts about the definition

  /** Pick in terms of prefix sums, the form the loops use. */
  lemma {:induction false} PickPrefix(ws: seq<nat>, rolled: nat, i: nat)
    requires rolled < Total(ws) && i < |ws|
    ensures Pick(ws, rolled) == i <==> Total(ws[..i]) <= rolled < Total(ws[..i + 1])
  {
    if i == 0 {
      assert ws[..1] == [ws[0]] && ws[..0] == [];
      assert Total([ws[0]]) == ws[0] + Total([]) by { assert [ws[0]][1..] == []; }
    } else {
      assert ws[..i][1..] == ws[1..][..i - 1] && ws[..i + 1][1..] == ws[1..][..i];
      if rolled < ws[0] {
      } else {
        PickPrefix(ws[1..], rolled - ws[0], i - 1);
      }
    }
  }

  lemma {:induction false} TotalSnoc(ws: seq<nat>, w: nat)
    ensures Total(ws + [w]) == Total(ws) + w
  {
    if ws == [] {
      assert ([w])[1..] == [];
      assert ws + [w] == [w];
    } else {
      TotalSnoc(ws[1..], w);
      assert (ws + [w])[1..] == ws[1..] + [w];
    }
  }

  lemma TotalStep(ws: seq<nat>, i: nat)
    requires i < |ws|
    ensures Total(ws[..i + 1]) == Total(ws[..i]) + ws[i]
  {
    assert ws[..i + 1] == ws[..i] + [ws[i]];
    TotalSnoc(ws[..i], ws[i]);
  }

  lemma RemoveKeepsDistinct(es: seq<Entry>, i: nat)
    requires DistinctIds(es) && i < |es|
    ensures DistinctIds(RemoveAt(es, i))
    ensures forall x :: x in RemoveAt(es, i) <==> x in es && x.id != es[i].id
  {
    var r := RemoveAt(es, i);
    RemoveShifts(es, i);
    forall x
      ensures x in r <==> x in es && x.id != es[i].id
    {
      if x in r {
        var m :| 0 <= m < |r| && r[m] == x;
        assert x == es[if m < i then m else m + 1];
      }
      if x in es && x.id != es[i].id {
        var m :| 0 <= m < |es| && es[m] == x;
        assert x == r[if m < i then m else m - 1];
      }
    }
  }

  lemma RemoveShifts(es: seq<Entry>, i: nat)
    requires DistinctIds(es) && i < |es|
    ensures forall m :: 0 <= m < |es| - 1 ==> RemoveAt(es, i)[m] == es[if m < i then m else m + 1]
    ensures DistinctIds(RemoveAt(es, i))
  {}

  /** The entry drawn from `es` in a round. */
  function Chosen(es: seq<Entry>, roll: nat -> nat, round: nat): (i: nat)
    requires Positive(Weights(es)) && es != []
    ensures i < |es|
  {
    WeightsPositive(es);
    Pick(Weights(es), roll(round) % Total(Weights(es)))
  }

  /** No winner is drawn twice, and every winner is an entry. */
  lemma {:induction false} WinnersDistinct(es: seq<Entry>, roll: nat -> nat, round: nat, k: nat)
    requires Positive(Weights(es)) && DistinctIds(es) && k <= |es|
    ensures DistinctIds(Draw(es, roll, round, k))
    ensures forall x :: x in Draw(es, roll, round, k) ==> x in es
  {
    if k > 0 {
      var i := Chosen(es, roll, round);
      WeightsPositive(es);
      RemoveKeepsDistinct(es, i);
      WinnersDistinct(RemoveAt(es, i), roll, round + 1, k - 1);
      FirstAndRest(es, i, Draw(RemoveAt(es, i), roll, round + 1, k - 1));
    }
  }

  lemma FirstAndRest(es: seq<Entry>, i: nat, rest: seq<Entry>)
    requires i < |es| && DistinctIds(rest)
    requires forall x :: x in RemoveAt(es, i) <==> x in es && x.id != es[i].id
    requires forall x :: x in rest ==> x in RemoveAt(es, i)
    ensures DistinctIds([es[i]] + rest)
    ensures forall x :: x in [es[i]] + rest ==> x in es
  {
    ConsDistinct(es[i], rest);
  }

  lemma ConsDistinct(e: Entry, tail: seq<Entry>)
    requires DistinctIds(tail)
    requires forall x :: x in tail ==> x.id != e.id
    ensures DistinctIds([e] + tail)
  {
    assert forall j :: 0 <= j < |tail| ==> tail[j] in tail;
  }

  /** The invariant of all three drawing loops. */
  ghost predicate Drawing(es: seq<Entry>, roll: nat -> nat, k: nat, round: nat, remaining: seq<Entry>, winners: seq<seq<char>>) {
    && Positive(Weights(es)) && Positive(Weights(remaining))
    && round <= k && round + |remaining| == |es|
    && (k <= |es| ==> Ids(Draw(es, roll, 0, k)) == winners + Ids(Draw(remaining, roll, round, k - round)))
  }

  lemma DrawingStart(es: seq<Entry>, roll: nat -> nat, k: nat)
    requires Positive(Weights(es))
    ensures Drawing(es, roll, k, 0, es, [])
  {}

  lemma IdsCons(e: Entry, tail: seq<Entry>)
    ensures Ids([e] + tail) == [e.id] + Ids(tail)
  {}

  lemma DrawingStep(es: seq<Entry>, roll: nat -> nat, k: nat, round: nat, remaining: seq<Entry>, winners: seq<seq<char>>)
    requires Drawing(es, roll, k, round, remaining, winners) && round < k && remaining != []
    ensures var i := Chosen(remaining, roll, round);
            Drawing(es, roll, k, round + 1, RemoveAt(remaining, i), winners + [remaining[i].id])
  {
    var i := Chosen(remaining, roll, round);
    WeightsPositive(remaining);
    if k <= |es| {
      var tail := Draw(RemoveAt(remaining, i), roll, round + 1, k - round - 1);
      assert Draw(remaining, roll, round, k - round) == [remaining[i]] + tail;
      IdsCons(remaining[i], tail);
      assert winners + ([remaining[i].id] + Ids(tail)) == (winners + [remaining[i].id]) + Ids(tail);
    }
  }

  lemma DrawingDone(es: seq<Entry>, roll: nat -> nat, k: nat, remaining: seq<Entry>, winners: seq<seq<char>>)
    requires Drawing(es, roll, k, k, remaining, winners)
    ensures k <= |es| && winners == Ids(Draw(es, roll, 0, k))
  {
    assert winners + Ids(Draw(remaining, roll, k, 0)) == winners;
  }

  // ---------------------------------------------------------------- splice form

  /** The scanning loop shared by the splice form and chooseWeightedIndex. */
  method Scan(ws: seq<nat>, rolled: nat) returns (index: int)
    ensures rolled < Total(ws) ==> index == Pick(ws, rolled)
    ensures Total(ws) <= rolled ==> index == -1
  {
    var cursor := 0;
    index := -1;
    for i := 0 to |ws|
      invariant cursor == Total(ws[..i]) && cursor <= rolled
    {
      TotalStep(ws, i);
      cursor := cursor + ws[i];
      if rolled < cursor {
        PrefixBelowTotal(ws, i + 1);
        PickPrefix(ws, rolled, i);
        return i;
      }
    }
    assert ws[..|ws|] == ws;
  }

  lemma {:induction false} PrefixBelowTotal(ws: seq<nat>, i: nat)
    requires i <= |ws|
    ensures Total(ws[..i]) <= Total(ws)
  {
    if i > 0 {
      PrefixBelowTotal(ws[1..], i - 1);
      assert ws[..i][1..] == ws[1..][..i - 1];
    }
  }

  method Sum(ws: seq<nat>) returns (total: nat)
    ensures total == Total(ws)
  {
    total := 0;
    for i := 0 to |ws|
      invariant total == Total(ws[..i])
    {
      TotalStep(ws, i);
      total := total + ws[i];
    }
    assert ws[..|ws|] == ws;
  }

  /** buildCompactNamedEntryClaimFromArtifactV5: a working list with winners spliced out. */
  method SpliceDraw(es: seq<Entry>, roll: nat -> nat, k: nat) returns (r: Result<seq<seq<char>>>)
    requires Positive(Weights(es))
    ensures r == if k <= |es| then Ok(Ids(Draw(es, roll, 0, k))) else Err
  {
    var remaining := es;
    var winners: seq<seq<char>> := [];
    DrawingStart(es, roll, k);
    for round := 0 to k
      invariant Drawing(es, roll, k, round, remaining, winners)
    {
      var total := Sum(Weights(remaining));
      WeightsPositive(remaining);
      if total <= 0 {
        return Err;
      }
      assert remaining != [];
      var selected := Scan(Weights(remaining), roll(round) % total);
      if selected < 0 {
        assert false;
        return Err;
      }
      DrawingStep(es, roll, k, round, remaining, winners);
      winners := winners + [remaining[selected].id];
      remaining := RemoveAt(remaining, selected);
    }
    DrawingDone(es, roll, k, remaining, winners);
    r := Ok(winners);
  }

  // ---------------------------------------------------------------- index-list form

  function At(es: seq<Entry>, i: int): Entry {
    if 0 <= i < |es| then es[i] else Entry("", 0, 1, 0)
  }

  function Pointed(es: seq<Entry>, idx: seq<int>): seq<Entry> {
    Map(i => At(es, i), idx)
  }

  /** chooseWeightedIndex: validates, totals and scans. */
  method ChooseWeightedIndex(ws: seq<nat>, rolled: nat) returns (r: Result<nat>)
    ensures r.Ok? <==> ws != [] && Positive(ws)
    ensures r.Ok? ==> 0 < Total(ws) && r.value == Pick(ws, rolled % Total(ws))
  {
    if |ws| == 0 {
      return Err;
    }
    var total := 0;
    for i := 0 to |ws|
      invariant total == Total(ws[..i])
      invariant forall j :: 0 <= j < i ==> 0 < ws[j]
    {
      if ws[i] <= 0 {
        assert !Positive(ws);
        return Err;
      }
      TotalStep(ws, i);
      total := total + ws[i];
    }
    assert ws[..|ws|] == ws;
    TotalPositive(ws);
    var index := Scan(ws, rolled % total);
    if index < 0 {
      assert false;
      return Err;
    }
    r := Ok(index);
  }

  /** Moving an index moves the entry it points to. */
  lemma IndexStep(es: seq<Entry>, remaining: seq<int>, selected: seq<int>, i: nat)
    requires i < |remaining|
    ensures Pointed(es, RemoveAt(remaining, i)) == RemoveAt(Pointed(es, remaining), i)
    ensures Ids(Pointed(es, selected + [remaining[i]])) == Ids(Pointed(es, selected)) + [Pointed(es, remaining)[i].id]
  {}

  ghost predicate Distinct(s: seq<int>) {
    forall i, j :: 0 <= i < j < |s| ==> s[i] != s[j]
  }

  /** Every index is either remaining or selected, and in one place only. */
  ghost predicate Split(n: nat, remaining: seq<int>, selected: seq<int>) {
    && Distinct(selected + remaining)
    && (forall i :: 0 <= i < |remaining| ==> 0 <= remaining[i] < n)
    && (forall i :: 0 <= i < |selected| ==> 0 <= selected[i] < n)
  }

  lemma SplitStep(n: nat, remaining: seq<int>, selected: seq<int>, i: nat)
    requires Split(n, remaining, selected) && i < |remaining|
    ensures Split(n, RemoveAt(remaining, i), selected + [remaining[i]])
  {
    var s, t, m := selected + remaining, selected + [remaining[i]] + RemoveAt(remaining, i), |selected|;
    forall a, b | 0 <= a < b < |t|
      ensures t[a] != t[b]
    {
      assert forall c :: 0 <= c < |t| ==> t[c] == s[Moved(m, i, c)];
      assert Moved(m, i, a) != Moved(m, i, b);
    }
  }

  /** Where position c comes from when position m + i is moved to m. */
  function Moved(m: nat, i: nat, c: nat): nat {
    if c < m || c > m + i then c else if c == m then m + i else c - 1
  }

  /** The state of the index-list loop after `round` rounds. */
  ghost predicate Listed(es: seq<Entry>, roll: nat -> nat, k: nat, round: nat, remaining: seq<int>, selected: seq<int>) {
    && Split(|es|, remaining, selected) && |selected| == round
    && Drawing(es, roll, k, round, Pointed(es, remaining), Ids(Pointed(es, selected)))
  }

  lemma ListedStart(es: seq<Entry>, roll: nat -> nat, k: nat, all: seq<int>)
    requires Positive(Weights(es)) && |all| == |es| && forall i :: 0 <= i < |es| ==> all[i] == i
    ensures Listed(es, roll, k, 0, all, [])
  {
    assert Pointed(es, all) == es && [] + all == all;
    DrawingStart(es, roll, k);
  }

  lemma ListedStep(es: seq<Entry>, roll: nat -> nat, k: nat, round: nat, remaining: seq<int>, selected: seq<int>, i: nat)
    requires Listed(es, roll, k, round, remaining, selected) && round < k && remaining != []
    requires i == Chosen(Pointed(es, remaining), roll, round)
    ensures Listed(es, roll, k, round + 1, RemoveAt(remaining, i), selected + [remaining[i]])
  {
    DrawingStep(es, roll, k, round, Pointed(es, remaining), Ids(Pointed(es, selected)));
    IndexStep(es, remaining, selected, i);
    SplitStep(|es|, remaining, selected, i);
  }

  lemma ListedEnd(es: seq<Entry>, roll: nat -> nat, k: nat, remaining: seq<int>, selected: seq<int>)
    requires Listed(es, roll, k, k, remaining, selected)
    ensures k <= |es| && Ids(Pointed(es, selected)) == Ids(Draw(es, roll, 0, k))
    ensures |selected| == k && Distinct(selected) && forall i :: 0 <= i < |selected| ==> 0 <= selected[i] < |es|
  {
    DrawingDone(es, roll, k, Pointed(es, remaining), Ids(Pointed(es, selected)));
    forall i, j | 0 <= i < j < |selected|
      ensures selected[i] != selected[j]
    {
      assert (selected + remaining)[i] != (selected + remaining)[j];
    }
  }

  /** selectOutcomes, weighted branch: a list of indices with the selected ones spliced out. */
  method IndexListDraw(es: seq<Entry>, roll: nat -> nat, k: nat) returns (r: Result<seq<int>>)
    requires Positive(Weights(es))
    ensures r.Ok? <==> k <= |es|
    ensures r.Ok? ==> Ids(Pointed(es, r.value)) == Ids(Draw(es, roll, 0, k))
    ensures r.Ok? ==> |r.value| == k && Distinct(r.value) && forall i :: 0 <= i < |r.value| ==> 0 <= r.value[i] < |es|
  {
    var remaining: seq<int> := seq(|es|, i => i);
    var selected: seq<int> := [];
    ListedStart(es, roll, k, remaining);
    for round := 0 to k
      invariant Listed(es, roll, k, round, remaining, selected)
    {
      var chosen := ChooseWeightedIndex(Weights(Pointed(es, remaining)), roll(round));
      if chosen.Err? {
        assert remaining == [];
        return Err;
      }
      ListedStep(es, roll, k, round, remaining, selected, chosen.value);
      selected := selected + [remaining[chosen.value]];
      remaining := RemoveAt(remaining, chosen.value);
    }
    ListedEnd(es, roll, k, remaining, selected);
    r := Ok(selected);
  }

  // ---------------------------------------------------------------- streaming two-pass form

  /** The entries not yet selected, in file order. */
  function Unselected(es: seq<Entry>, selected: set<seq<char>>): seq<Entry> {
    if es == [] then [] else
      (if es[0].id in selected then [] else [es[0]]) + Unselected(es[1..], selected)
  }

  lemma {:induction false} UnselectedSnoc(es: seq<Entry>, e: Entry, selected: set<seq<char>>)
    ensures Unselected(es + [e], selected) == Unselected(es, selected) + (if e.id in selected then [] else [e])
  {
    if es == [] {
      assert es + [e] == [e] && [e][1..] == [];
    } else {
      UnselectedSnoc(es[1..], e, selected);
      assert (es + [e])[1..] == es[1..] + [e];
    }
  }

  lemma UnselectedStep(es: seq<Entry>, i: nat, selected: set<seq<char>>)
    requires i < |es|
    ensures Unselected(es[..i + 1], selected) ==
            if es[i].id in selected then Unselected(es[..i], selected) else Unselected(es[..i], selected) + [es[i]]
  {
    assert es[..i + 1] == es[..i] + [es[i]];
    UnselectedSnoc(es[..i], es[i], selected);
    assert Unselected(es[..i], selected) + [] == Unselected(es[..i], selected);
  }

  lemma {:induction false} UnselectedMembers(es: seq<Entry>, selected: set<seq<char>>)
    ensures forall x :: x in Unselected(es, selected) <==> x in es && x.id !in selected
  {
    if es != [] {
      UnselectedMembers(es[1..], selected);
    }
  }

  lemma UnselectedIds(es: seq<Entry>, selected: set<seq<char>>)
    requires NonEmptyIds(es)
    ensures forall i :: 0 <= i < |Unselected(es, selected)| ==> Unselected(es, selected)[i].id != ""
  {
    UnselectedMembers(es, selected);
    var u := Unselected(es, selected);
    forall i | 0 <= i < |u|
      ensures u[i].id != ""
    {
      assert u[i] in u;
    }
  }

  lemma {:induction false} UnselectedNone(es: seq<Entry>)
    ensures Unselected(es, {}) == es
  {
    if es != [] {
      UnselectedNone(es[1..]);
    }
  }

  /** Selecting one more id is splicing its entry out of the unselected ones. */
  lemma {:induction false} SelectOne(es: seq<Entry>, selected: set<seq<char>>, i: nat)
    requires DistinctIds(es) && i < |Unselected(es, selected)|
    ensures Unselected(es, selected + {Unselected(es, selected)[i].id}) == RemoveAt(Unselected(es, selected), i)
  {
    TailDistinct(es);
    if es[0].id in selected {
      SkipHead(es, selected);
      SkipHead(es, selected + {Unselected(es, selected)[i].id});
      SelectOne(es[1..], selected, i);
    } else if i == 0 {
      SelectHead(es, selected);
    } else {
      SelectOne(es[1..], selected, i - 1);
      SelectLater(es, selected, i);
    }
  }

  lemma TailDistinct(es: seq<Entry>)
    requires DistinctIds(es) && es != []
    ensures DistinctIds(es[1..])
  {}

  lemma SkipHead(es: seq<Entry>, selected: set<seq<char>>)
    requires es != [] && es[0].id in selected
    ensures Unselected(es, selected) == Unselected(es[1..], selected)
  {}

  lemma SelectHead(es: seq<Entry>, selected: set<seq<char>>)
    requires DistinctIds(es) && es != [] && es[0].id !in selected
    ensures Unselected(es, selected + {es[0].id}) == Unselected(es[1..], selected) == RemoveAt(Unselected(es, selected), 0)
    ensures Unselected(es, selected)[0] == es[0]
  {
    NotInTail(es[1..], selected, es[0].id);
  }

  /** Selecting behind the head leaves the head in place. */
  lemma SelectLater(es: seq<Entry>, selected: set<seq<char>>, i: nat)
    requires DistinctIds(es) && es != [] && es[0].id !in selected && 0 < i <= |Unselected(es[1..], selected)|
    ensures var rest := Unselected(es[1..], selected);
            && Unselected(es, selected) == [es[0]] + rest && Unselected(es, selected)[i] == rest[i - 1]
            && Unselected(es, selected + {rest[i - 1].id}) == [es[0]] + Unselected(es[1..], selected + {rest[i - 1].id})
            && RemoveAt([es[0]] + rest, i) == [es[0]] + RemoveAt(rest, i - 1)
  {
    var rest := Unselected(es[1..], selected);
    UnselectedMembers(es[1..], selected);
    assert rest[i - 1] in rest;
    RemoveFromCons(es[0], rest, i);
  }

  lemma RemoveFromCons<T>(e: T, rest: seq<T>, i: nat)
    requires 0 < i <= |rest|
    ensures RemoveAt([e] + rest, i) == [e] + RemoveAt(rest, i - 1)
  {}

  lemma {:induction false} NotInTail(es: seq<Entry>, selected: set<seq<char>>, id: seq<char>)
    requires forall i :: 0 <= i < |es| ==> es[i].id != id
    ensures Unselected(es, selected + {id}) == Unselected(es, selected)
  {
    if es != [] {
      NotInTail(es[1..], selected, id);
    }
  }

  lemma WeightsSnoc(es: seq<Entry>, e: Entry)
    ensures Weights(es + [e]) == Weights(es) + [e.weight]
  {}

  /** First pass: the weight not yet selected. */
  method RemainingWeight(es: seq<Entry>, selected: set<seq<char>>) returns (total: nat)
    ensures total == Total(Weights(Unselected(es, selected)))
  {
    total := 0;
    for i := 0 to |es|
      invariant total == Total(Weights(Unselected(es[..i], selected)))
    {
      UnselectedStep(es, i, selected);
      if es[i].id in selected {
        continue;
      }
      WeightsSnoc(Unselected(es[..i], selected), es[i]);
      TotalSnoc(Weights(Unselected(es[..i], selected)), es[i].weight);
      total := total + es[i].weight;
    }
    assert es[..|es|] == es;
  }

  lemma {:induction false} UnselectedPrefix(es: seq<Entry>, selected: set<seq<char>>, i: nat)
    requires i <= |es|
    ensures Unselected(es[..i], selected) <= Unselected(es, selected)
  {
    if i > 0 {
      UnselectedPrefix(es[1..], selected, i - 1);
      assert es[..i][1..] == es[1..][..i - 1];
    }
  }

  lemma PickInPrefix(u: seq<Entry>, p: seq<Entry>, e: Entry, rolled: nat)
    requires p + [e] <= u
    requires Total(Weights(p)) <= rolled < Total(Weights(p + [e]))
    ensures rolled < Total(Weights(u)) && Pick(Weights(u), rolled) == |p| && u[|p|] == e
  {
    var ws := Weights(u);
    assert ws[..|p|] == Weights(p) && ws[..|p| + 1] == Weights(p + [e]);
    PrefixBelowTotal(ws, |p| + 1);
    PickPrefix(ws, rolled, |p|);
  }

  /** Second pass: the id whose cell contains the roll. */
  method FindWinner(es: seq<Entry>, selected: set<seq<char>>, rolled: nat) returns (winner: Result<seq<char>>)
    ensures var u := Unselected(es, selected);
            if rolled < Total(Weights(u)) then winner == Ok(u[Pick(Weights(u), rolled)].id) else winner == Err
  {
    var cursor := 0;
    for i := 0 to |es|
      invariant cursor == Total(Weights(Unselected(es[..i], selected))) && cursor <= rolled
    {
      UnselectedStep(es, i, selected);
      if es[i].id in selected {
        continue;
      }
      ghost var p := Unselected(es[..i], selected);
      WeightsSnoc(p, es[i]);
      TotalSnoc(Weights(p), es[i].weight);
      cursor := cursor + es[i].weight;
      if rolled < cursor {
        UnselectedPrefix(es, selected, i + 1);
        PickInPrefix(Unselected(es, selected), p, es[i], rolled);
        return Ok(es[i].id);
      }
    }
    assert es[..|es|] == es;
    winner := Err;
  }

  /** Ids are validated to be non-empty while the file is read. */
  ghost predicate NonEmptyIds(es: seq<Entry>) {
    forall e :: e in es ==> e.id != ""
  }

  lemma UnselectedPositive(es: seq<Entry>, selected: set<seq<char>>)
    requires Positive(Weights(es))
    ensures Positive(Weights(Unselected(es, selected)))
  {
    UnselectedMembers(es, selected);
    var u := Unselected(es, selected);
    forall i | 0 <= i < |u|
      ensures 0 < Weights(u)[i]
    {
      assert u[i] in es;
      var j :| 0 <= j < |es| && es[j] == u[i];
      assert 0 < Weights(es)[j];
    }
  }

  ghost function IdSet(ids: seq<seq<char>>): set<seq<char>> {
    set i | 0 <= i < |ids| :: ids[i]
  }

  ghost function AllIds(es: seq<Entry>): set<seq<char>> {
    set e | e in es :: e.id
  }

  /** x lies in cell i of the line of weights. */
  ghost predicate InCell(ws: seq<nat>, x: nat, i: nat) {
    i < |ws| && Total(ws[..i]) <= x < Total(ws[..i + 1])
  }

  /** Among the entries whose id is not taken, laid out on a line by weight, one named id covers the
      roll modulo the length of the line. */
  ghost predicate HoldsRoll(es: seq<Entry>, taken: set<seq<char>>, roll: nat, id: seq<char>) {
    var u := Unselected(es, taken);
    var W := Total(Weights(u));
    0 < W && exists i: nat :: InCell(Weights(u), roll % W, i) && u[i].id == id
  }

  /** Winner j holds the roll of its round among the ids neither taken before nor drawn earlier. */
  ghost predicate CellAt(es: seq<Entry>, taken: set<seq<char>>, roll: nat -> nat, round: nat, ids: seq<seq<char>>, j: int) {
    0 <= j < |ids| && HoldsRoll(es, taken + IdSet(ids[..j]), roll(round + j), ids[j])
  }

  /** A draw in plain terms: every winner holds the roll of its round among the ids not yet drawn. An id
      may name several entries; all of them drop out when it wins. */
  ghost predicate Drawn(es: seq<Entry>, taken: set<seq<char>>, roll: nat -> nat, round: nat, ids: seq<seq<char>>) {
    forall j :: 0 <= j < |ids| ==> CellAt(es, taken, roll, round, ids, j)
  }

  lemma ChosenHolds(es: seq<Entry>, taken: set<seq<char>>, roll: nat -> nat, round: nat)
    requires Positive(Weights(Unselected(es, taken))) && Unselected(es, taken) != []
    ensures var u := Unselected(es, taken); HoldsRoll(es, taken, roll(round), u[Chosen(u, roll, round)].id)
  {
    var u := Unselected(es, taken);
    WeightsPositive(u);
    PickPrefix(Weights(u), roll(round) % Total(Weights(u)), Chosen(u, roll, round));
    assert InCell(Weights(u), roll(round) % Total(Weights(u)), Chosen(u, roll, round));
  }

  lemma OneCell(ws: seq<nat>, x: nat, i: nat, j: nat)
    requires InCell(ws, x, i) && InCell(ws, x, j) && x < Total(ws)
    ensures i == j
  {
    PickPrefix(ws, x, i);
    PickPrefix(ws, x, j);
  }

  lemma HolderIsOne(es: seq<Entry>, taken: set<seq<char>>, roll: nat, id: seq<char>, id': seq<char>)
    requires HoldsRoll(es, taken, roll, id) && HoldsRoll(es, taken, roll, id')
    ensures id == id'
  {
    var u := Unselected(es, taken);
    var ws, x := Weights(u), roll % Total(Weights(u));
    var i: nat :| InCell(ws, x, i) && u[i].id == id;
    var j: nat :| InCell(ws, x, j) && u[j].id == id';
    OneCell(ws, x, i, j);
  }

  lemma HolderIsNew(es: seq<Entry>, taken: set<seq<char>>, roll: nat, id: seq<char>)
    requires HoldsRoll(es, taken, roll, id)
    ensures id in AllIds(es) - taken
  {
    var u := Unselected(es, taken);
    var i: nat :| InCell(Weights(u), roll % Total(Weights(u)), i) && u[i].id == id;
    UnselectedMembers(es, taken);
    assert u[i] in u;
  }

  lemma DrawnSnoc(es: seq<Entry>, taken: set<seq<char>>, roll: nat -> nat, round: nat, ids: seq<seq<char>>, id: seq<char>)
    requires Drawn(es, taken, roll, round, ids) && HoldsRoll(es, taken + IdSet(ids), roll(round + |ids|), id)
    ensures Drawn(es, taken, roll, round, ids + [id]) && IdSet(ids + [id]) == IdSet(ids) + {id}
  {
    var more := ids + [id];
    forall j | 0 <= j < |more|
      ensures CellAt(es, taken, roll, round, more, j)
    {
      assert more[..j] == ids[..j];
      if j < |ids| { assert CellAt(es, taken, roll, round, ids, j); } else { assert ids[..j] == ids; }
    }
    IdsOfSnoc(ids, id);
  }

  lemma IdsOfSnoc(ids: seq<seq<char>>, id: seq<char>)
    ensures IdSet(ids + [id]) == IdSet(ids) + {id}
  {
    var more := ids + [id];
    assert more[|ids|] == id;
    forall x | x in IdSet(ids)
      ensures x in IdSet(more)
    {
      var i :| 0 <= i < |ids| && ids[i] == x;
      assert more[i] == x;
    }
  }

  lemma DrawnPrefix(es: seq<Entry>, taken: set<seq<char>>, roll: nat -> nat, round: nat, ids: seq<seq<char>>, n: nat)
    requires Drawn(es, taken, roll, round, ids) && n <= |ids|
    ensures Drawn(es, taken, roll, round, ids[..n])
  {
    forall j | 0 <= j < n
      ensures CellAt(es, taken, roll, round, ids[..n], j)
    {
      assert CellAt(es, taken, roll, round, ids, j);
      assert ids[..n][..j] == ids[..j];
    }
  }

  /** Winners are distinct ids of the list. */
  lemma {:induction false} DrawnLaws(es: seq<Entry>, roll: nat -> nat, ids: seq<seq<char>>)
    requires Drawn(es, {}, roll, 0, ids)
    ensures IdSet(ids) <= AllIds(es) && |IdSet(ids)| == |ids|
    ensures forall i, j :: 0 <= i < j < |ids| ==> ids[i] != ids[j]
    decreases |ids|
  {
    if ids != [] {
      var n := |ids| - 1;
      DrawnPrefix(es, {}, roll, 0, ids, n);
      DrawnLaws(es, roll, ids[..n]);
      assert CellAt(es, {}, roll, 0, ids, n);
      assert {} + IdSet(ids[..n]) == IdSet(ids[..n]);
      HolderIsNew(es, IdSet(ids[..n]), roll(n), ids[n]);
      assert ids == ids[..n] + [ids[n]];
      IdsOfSnoc(ids[..n], ids[n]);
      forall i | 0 <= i < n
        ensures ids[i] != ids[n]
      {
        assert ids[..n][i] in IdSet(ids[..n]);
      }
    }
  }

  /** The rolls leave a draw no choice. */
  lemma {:induction false} DrawnUnique(es: seq<Entry>, roll: nat -> nat, ids: seq<seq<char>>, ids': seq<seq<char>>)
    requires Drawn(es, {}, roll, 0, ids) && Drawn(es, {}, roll, 0, ids') && |ids| == |ids'|
    ensures ids == ids'
    decreases |ids|
  {
    if ids != [] {
      var n := |ids| - 1;
      DrawnPrefix(es, {}, roll, 0, ids, n);
      DrawnPrefix(es, {}, roll, 0, ids', n);
      DrawnUnique(es, roll, ids[..n], ids'[..n]);
      assert CellAt(es, {}, roll, 0, ids, n) && CellAt(es, {}, roll, 0, ids', n);
      HolderIsOne(es, {} + IdSet(ids[..n]), roll(n), ids[n], ids'[n]);
      assert ids == ids[..n] + [ids[n]] && ids' == ids'[..n] + [ids'[n]];
    }
  }

  /** One round of the streaming draw: total the rest of the file, then find the winner. */
  method StreamOne(es: seq<Entry>, selected: set<seq<char>>, roll: nat -> nat, round: nat) returns (r: Result<seq<char>>)
    requires Positive(Weights(es)) && NonEmptyIds(es)
    ensures r.Err? <==> Unselected(es, selected) == []
    ensures r.Ok? ==> HoldsRoll(es, selected, roll(round), r.value)
  {
    ghost var u := Unselected(es, selected);
    UnselectedPositive(es, selected);
    WeightsPositive(u);
    var total := RemainingWeight(es, selected);
    if total <= 0 {
      return Err;
    }
    assert u != [];
    ChosenHolds(es, selected, roll, round);
    var winner := FindWinner(es, selected, roll(round) % total);
    UnselectedIds(es, selected);
    if winner.Err? || winner.value == "" {
      assert false;
      return Err;
    }
    r := winner;
  }

  lemma NobodyLeft(es: seq<Entry>, selected: set<seq<char>>)
    requires Unselected(es, selected) == []
    ensures AllIds(es) <= selected
  {
    UnselectedMembers(es, selected);
  }

  /** A set within another is no larger. */
  lemma SubsetSize(a: set<seq<char>>, b: set<seq<char>>)
    requires a <= b
    ensures |a| <= |b|
  {
    assert b == a + (b - a);
  }

  /** buildSnapshotClaimFromFile, weighted branch: two passes over the file for every winner. Repeated ids
      or not, the winners are a draw, and it fails exactly when more winners are asked for than there are
      distinct ids. An empty winner id would count as no winner. */
  method StreamingDraw(es: seq<Entry>, roll: nat -> nat, k: nat) returns (r: Result<seq<seq<char>>>)
    requires Positive(Weights(es)) && NonEmptyIds(es)
    ensures r.Ok? <==> k <= |AllIds(es)|
    ensures r.Ok? ==> |r.value| == k && Drawn(es, {}, roll, 0, r.value)
  {
    var selected: set<seq<char>> := {};
    var winners: seq<seq<char>> := [];
    for round := 0 to k
      invariant |winners| == round && Streamed(es, roll, selected, winners)
    {
      var winner := StreamOne(es, selected, roll, round);
      if winner.Err? {
        StreamEnds(es, roll, selected, winners);
        return Err;
      }
      StreamStep(es, roll, selected, winners, winner.value);
      selected := selected + {winner.value};
      winners := winners + [winner.value];
    }
    StreamCount(es, roll, selected, winners);
    r := Ok(winners);
  }

  /** The state of the streaming draw. */
  ghost predicate Streamed(es: seq<Entry>, roll: nat -> nat, selected: set<seq<char>>, winners: seq<seq<char>>) {
    selected == IdSet(winners) && Drawn(es, {}, roll, 0, winners)
  }

  lemma StreamStep(es: seq<Entry>, roll: nat -> nat, selected: set<seq<char>>, winners: seq<seq<char>>, id: seq<char>)
    requires Streamed(es, roll, selected, winners) && HoldsRoll(es, selected, roll(|winners|), id)
    ensures Streamed(es, roll, selected + {id}, winners + [id])
  {
    assert {} + IdSet(winners) == selected;
    DrawnSnoc(es, {}, roll, 0, winners, id);
  }

  lemma StreamCount(es: seq<Entry>, roll: nat -> nat, selected: set<seq<char>>, winners: seq<seq<char>>)
    requires Streamed(es, roll, selected, winners)
    ensures |selected| == |winners| <= |AllIds(es)|
  {
    DrawnLaws(es, roll, winners);
    SubsetSize(selected, AllIds(es));
  }

  lemma StreamEnds(es: seq<Entry>, roll: nat -> nat, selected: set<seq<char>>, winners: seq<seq<char>>)
    requires Streamed(es, roll, selected, winners) && Unselected(es, selected) == []
    ensures |AllIds(es)| <= |winners|
  {
    StreamCount(es, roll, selected, winners);
    NobodyLeft(es, selected);
    SubsetSize(AllIds(es), selected);
  }

  // ---------------------------------------------------------------- all draws agree

  /** Remembering the id of an unselected entry is splicing that entry out. */
  ghost predicate Splices(es: seq<Entry>, selected: set<seq<char>>, i: nat) {
    i < |Unselected(es, selected)| ==>
      Unselected(es, selected + {Unselected(es, selected)[i].id}) == RemoveAt(Unselected(es, selected), i)
  }

  lemma DistinctSplices(es: seq<Entry>)
    requires DistinctIds(es)
    ensures forall selected, i: nat :: Splices(es, selected, i)
  {
    forall selected, i: nat
      ensures Splices(es, selected, i)
    {
      if i < |Unselected(es, selected)| { SelectOne(es, selected, i); }
    }
  }

  lemma DrawnCons(es: seq<Entry>, taken: set<seq<char>>, roll: nat -> nat, round: nat, id: seq<char>, rest: seq<seq<char>>)
    requires HoldsRoll(es, taken, roll(round), id) && Drawn(es, taken + {id}, roll, round + 1, rest)
    ensures Drawn(es, taken, roll, round, [id] + rest)
  {
    var ids := [id] + rest;
    forall j | 0 <= j < |ids|
      ensures CellAt(es, taken, roll, round, ids, j)
    {
      if j == 0 {
        assert taken + IdSet(ids[..0]) == taken;
      } else {
        CellLater(es, taken, roll, round, id, rest, j);
      }
    }
  }

  lemma CellLater(es: seq<Entry>, taken: set<seq<char>>, roll: nat -> nat, round: nat, id: seq<char>, rest: seq<seq<char>>, j: nat)
    requires 0 < j <= |rest| && CellAt(es, taken + {id}, roll, round + 1, rest, j - 1)
    ensures CellAt(es, taken, roll, round, [id] + rest, j)
  {
    ConsIds(id, rest, j);
    assert taken + {id} + IdSet(rest[..j - 1]) == taken + IdSet(([id] + rest)[..j]);
  }

  lemma ConsIds(id: seq<char>, rest: seq<seq<char>>, j: nat)
    requires 0 < j <= |rest| + 1
    ensures IdSet(([id] + rest)[..j]) == {id} + IdSet(rest[..j - 1])
  {
    var a := ([id] + rest)[..j];
    assert a == [id] + rest[..j - 1];
    assert a[0] == id;
    forall x | x in rest[..j - 1]
      ensures x in IdSet(a)
    {
      var i :| 0 <= i < j - 1 && rest[..j - 1][i] == x;
      assert a[i + 1] == x;
    }
  }

  lemma DrawStep(u: seq<Entry>, roll: nat -> nat, round: nat, k: nat)
    requires Positive(Weights(u)) && 0 < k <= |u|
    ensures var i := Chosen(u, roll, round);
            && Positive(Weights(RemoveAt(u, i)))
            && Ids(Draw(u, roll, round, k)) == [u[i].id] + Ids(Draw(RemoveAt(u, i), roll, round + 1, k - 1))
  {
    var i := Chosen(u, roll, round);
    WeightsPositive(u);
    IdsCons(u[i], Draw(RemoveAt(u, i), roll, round + 1, k - 1));
  }

  lemma {:induction false} DrawIsDrawn(es: seq<Entry>, taken: set<seq<char>>, roll: nat -> nat, round: nat, k: nat)
    requires Positive(Weights(es)) && (forall t, i: nat :: Splices(es, t, i)) && k <= |Unselected(es, taken)|
    ensures Positive(Weights(Unselected(es, taken)))
    ensures Drawn(es, taken, roll, round, Ids(Draw(Unselected(es, taken), roll, round, k)))
    decreases k
  {
    UnselectedPositive(es, taken);
    if k > 0 {
      var u := Unselected(es, taken);
      var i := Chosen(u, roll, round);
      DrawStep(u, roll, round, k);
      ChosenHolds(es, taken, roll, round);
      assert Splices(es, taken, i);
      DrawIsDrawn(es, taken + {u[i].id}, roll, round + 1, k - 1);
      DrawnCons(es, taken, roll, round, u[i].id, Ids(Draw(RemoveAt(u, i), roll, round + 1, k - 1)));
    }
  }

  /** On distinct ids the draw without replacement of the other two forms is a draw in the same plain
      terms, and the streaming one can only be it. */
  lemma StreamingAgrees(es: seq<Entry>, roll: nat -> nat, k: nat, ids: seq<seq<char>>)
    requires Positive(Weights(es)) && DistinctIds(es) && k <= |es|
    ensures Drawn(es, {}, roll, 0, Ids(Draw(es, roll, 0, k)))
    ensures |ids| == k && Drawn(es, {}, roll, 0, ids) ==> ids == Ids(Draw(es, roll, 0, k))
    ensures |AllIds(es)| == |es|
  {
    UnselectedNone(es);
    DistinctSplices(es);
    DrawIsDrawn(es, {}, roll, 0, k);
    if |ids| == k && Drawn(es, {}, roll, 0, ids) { DrawnUnique(es, roll, ids, Ids(Draw(es, roll, 0, k))); }
    CountIds(es);
  }

  lemma {:induction false} CountIds(es: seq<Entry>)
    requires DistinctIds(es)
    ensures |AllIds(es)| == |es|
  {
    if es != [] {
      var n := |es| - 1;
      CountIds(es[..n]);
      assert es == es[..n] + [es[n]];
      assert AllIds(es) == AllIds(es[..n]) + {es[n].id};
      forall e | e in es[..n]
        ensures e.id != es[n].id
      {
        var i :| 0 <= i < n && es[..n][i] == e;
        assert es[i].id != es[n].id;
      }
    }
  }

  // ---------------------------------------------------------------- modulo bias

  const ROLLS: nat := 0x1_0000_0000_0000_0000

  /** The numbers below n whose residue modulo W lies in lo..hi-1. */
  function ResidueHits(n: nat, W: nat, lo: nat, hi: nat): nat
    requires 0 < W
  {
    if n == 0 then 0 else ResidueHits(n - 1, W, lo, hi) + (if lo <= (n - 1) % W < hi then 1 else 0)
  }

  function Clamp(x: int, lo: int, hi: int): int {
    if x < lo then lo else if x > hi then hi else x
  }

  lemma NextResidue(n: nat, W: nat)
    requires 0 < W && 0 < n
    ensures if (n - 1) % W + 1 < W then n / W == (n - 1) / W && n % W == (n - 1) % W + 1
            else n / W == (n - 1) / W + 1 && n % W == 0
  {
    var q, m := (n - 1) / W, (n - 1) % W;
    assert n - 1 == W * q + m;
    if m + 1 < W {
      DivModUnique(n, W, q, m + 1);
    } else {
      assert W * (q + 1) == W * q + W;
      DivModUnique(n, W, q + 1, 0);
    }
  }

  /** The hits of q full cycles and a partial one of m rolls. */
  function CycleHits(q: int, m: int, lo: int, hi: int): int {
    q * (hi - lo) + (Clamp(m, lo, hi) - lo)
  }

  lemma CycleStep(q: int, m: int, W: int, lo: int, hi: int)
    requires 0 <= m < W && 0 <= lo <= hi <= W
    ensures CycleHits(q, m, lo, hi) + (if lo <= m < hi then 1 else 0) ==
            if m + 1 < W then CycleHits(q, m + 1, lo, hi) else CycleHits(q + 1, 0, lo, hi)
  {
    assert (q + 1) * (hi - lo) == q * (hi - lo) + (hi - lo);
  }

  /** Each full cycle of W rolls hits the interval hi - lo times; the last, partial cycle as often
      as the interval starts before its end. */
  lemma {:induction false} HitsByCycle(n: nat, W: nat, lo: nat, hi: nat)
    requires 0 < W && lo <= hi <= W
    ensures ResidueHits(n, W, lo, hi) == CycleHits(n / W, n % W, lo, hi)
  {
    if n == 0 {
      DivModUnique(0, W, 0, 0);
    } else {
      HitsByCycle(n - 1, W, lo, hi);
      NextResidue(n, W);
      CycleStep((n - 1) / W, (n - 1) % W, W, lo, hi);
    }
  }

  /** The 64-bit rolls that pick entry i. */
  function PickingRolls(ws: seq<nat>, i: nat): set<nat>
    requires 0 < Total(ws)
  {
    set r: nat | r < ROLLS && Pick(ws, r % Total(ws)) == i
  }

  lemma {:induction false} HitsAreCardinality(n: nat, W: nat, lo: nat, hi: nat)
    requires 0 < W
    ensures |HitSet(n, W, lo, hi)| == ResidueHits(n, W, lo, hi)
  {
    if n == 0 {
      assert HitSet(n, W, lo, hi) == {};
    } else {
      HitsAreCardinality(n - 1, W, lo, hi);
      var s := HitSet(n - 1, W, lo, hi);
      assert HitSet(n, W, lo, hi) == if lo <= (n - 1) % W < hi then s + {n - 1} else s;
    }
  }

  function HitSet(n: nat, W: nat, lo: nat, hi: nat): set<nat>
    requires 0 < W
  {
    set r: nat | r < n && InInterval(r % W, lo, hi)
  }

  predicate InInterval(x: int, lo: int, hi: int) {
    lo <= x < hi
  }

  /** The residues that pick entry i are exactly one interval as long as its weight. */
  lemma PickInterval(ws: seq<nat>, i: nat, rolled: nat)
    requires i < |ws| && rolled < Total(ws)
    ensures Total(ws[..i + 1]) - Total(ws[..i]) == ws[i]
    ensures Pick(ws, rolled) == i <==> InInterval(rolled, Total(ws[..i]), Total(ws[..i + 1]))
  {
    TotalStep(ws, i);
    PickPrefix(ws, rolled, i);
  }

  /** Modulo bias: of the 2^64 rolls, between w * floor(2^64 / W) and w * ceil(2^64 / W) pick an
      entry of weight w. */
  lemma ModuloBias(ws: seq<nat>, i: nat)
    requires i < |ws| && 0 < Total(ws)
    ensures var W := Total(ws);
            ws[i] * (ROLLS / W) <= |PickingRolls(ws, i)| <= ws[i] * ((ROLLS + W - 1) / W)
  {
    var W := Total(ws);
    var lo, hi := Total(ws[..i]), Total(ws[..i + 1]);
    PrefixBelowTotal(ws, i + 1);
    TotalStep(ws, i);
    forall r: nat
      ensures Pick(ws, r % W) == i <==> InInterval(r % W, lo, hi)
    {
      PickInterval(ws, i, r % W);
    }
    assert PickingRolls(ws, i) == HitSet(ROLLS, W, lo, hi);
    HitsAreCardinality(ROLLS, W, lo, hi);
    HitsByCycle(ROLLS, W, lo, hi);
    CeilQuotient(ROLLS, W);
    BiasArithmetic(ws[i], ROLLS / W, (ROLLS + W - 1) / W, Clamp(ROLLS % W, lo, hi) - lo);
  }

  lemma CeilQuotient(n: nat, W: nat)
    requires 0 < W
    ensures (n + W - 1) / W == n / W + (if n % W == 0 then 0 else 1)
  {
    var q, m := n / W, n % W;
    assert n == W * q + m;
    if m == 0 {
      DivModUnique(n + W - 1, W, q, W - 1);
    } else {
      assert W * (q + 1) == W * q + W;
      DivModUnique(n + W - 1, W, q + 1, m - 1);
    }
  }

  lemma BiasArithmetic(w: nat, q: int, c: int, extra: int)
    requires 0 <= extra <= w
    requires c == q + 1 || (c == q && extra == 0)
    ensures w * q <= q * w + extra <= w * c
  {}
}
