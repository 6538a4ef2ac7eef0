/** `recommend_for_user` and `recommend_similar_items` (recommender/model.py).

    Both sort one row of a similarity matrix in descending order with pandas'
    default sort, which does not promise an order among equal scores. The sort's
    outcome is therefore an input `order`: the positions of the row listed in
    some non-increasing order of score (`IsDescendingOrder`), ties in any order.
    Both then drop the FIRST entry of that order (`.iloc[1:]`), whichever id it
    holds. */
module Ranking {
  import opened Wrappers
  import opened Sequences
  import opened PivotTable
  import opened Similarity

  /** `order` is a permutation of the positions of `row`, non-increasing by score. */
  predicate IsDescendingOrder(row: seq<real>, order: seq<nat>) {
    && |order| == |row|
    && (forall k | 0 <= k < |order| :: order[k] < |row|)
    && (forall i | 0 <= i < |row| :: i in order)
    && NoDuplicates(order)
    && (forall a, b | 0 <= a < b < |order| :: row[order[a]] >= row[order[b]])
  }

  /** Past the head of a list ordered by descending score, every entry scores at most the head. */
  lemma DescendingTail(row: seq<real>, s: seq<nat>)
    requires s != [] && forall k | 0 <= k < |s| :: s[k] < |row|
    requires forall a, b | 0 <= a < b < |s| :: row[s[a]] >= row[s[b]]
    ensures forall x | x in s[1..] :: x in s && row[s[0]] >= row[x]
    ensures forall x | x in s :: x == s[0] || x in s[1..]
  {
    forall x | x in s[1..] ensures row[s[0]] >= row[x] {
      var k :| 0 <= k < |s[1..]| && s[1..][k] == x;
      assert s[k + 1] == x;
    }
    forall x | x in s ensures x == s[0] || x in s[1..] {
      var k :| 0 <= k < |s| && s[k] == x;
      assert k == 0 || s[1..][k - 1] == x;
    }
  }

  /** A position scoring at least every entry of a descending list can go in front of it. */
  lemma DescendingCons(row: seq<real>, h: nat, s: seq<nat>)
    requires h < |row| && forall k | 0 <= k < |s| :: s[k] < |row|
    requires forall a, b | 0 <= a < b < |s| :: row[s[a]] >= row[s[b]]
    requires forall x | x in s :: row[h] >= row[x]
    ensures forall k | 0 <= k < |[h] + s| :: ([h] + s)[k] < |row|
    ensures forall a, b | 0 <= a < b < |[h] + s| :: row[([h] + s)[a]] >= row[([h] + s)[b]]
  {
    var r := [h] + s;
    forall a, b | 0 <= a < b < |r| ensures row[r[a]] >= row[r[b]] {
      assert r[b] == s[b - 1] && s[b - 1] in s;
      if a > 0 {
        assert r[a] == s[a - 1];
      }
    }
  }

  /** Inserts position `i` after every position scoring at least as much. */
  function InsertDescending(row: seq<real>, sorted: seq<nat>, i: nat): (r: seq<nat>)
    requires i < |row| && forall k | 0 <= k < |sorted| :: sorted[k] < |row|
    requires forall a, b | 0 <= a < b < |sorted| :: row[sorted[a]] >= row[sorted[b]]
    ensures |r| == |sorted| + 1
    ensures forall k | 0 <= k < |r| :: r[k] < |row|
    ensures forall x | x in r :: x in sorted || x == i
    ensures i in r && forall x | x in sorted :: x in r
    ensures forall a, b | 0 <= a < b < |r| :: row[r[a]] >= row[r[b]]
  {
    if sorted == [] then [i]
    else
      DescendingTail(row, sorted);
      if row[sorted[0]] >= row[i] then
        var rest := InsertDescending(row, sorted[1..], i);
        DescendingCons(row, sorted[0], rest);
        [sorted[0]] + rest
      else
        DescendingCons(row, i, sorted);
        [i] + sorted
  }


  /** Inserting a new position into a list without repeats gives a list without repeats. */
  lemma {:induction false} InsertDescendingDistinct(row: seq<real>, sorted: seq<nat>, i: nat)
    requires i < |row| && forall k | 0 <= k < |sorted| :: sorted[k] < |row|
    requires forall a, b | 0 <= a < b < |sorted| :: row[sorted[a]] >= row[sorted[b]]
    requires NoDuplicates(sorted) && i !in sorted
    ensures NoDuplicates(InsertDescending(row, sorted, i))
  {
    if sorted != [] && row[sorted[0]] >= row[i] {
      var head, tail := sorted[0], sorted[1..];
      forall k | 0 <= k < |tail| ensures tail[k] != head {
        assert tail[k] == sorted[k + 1];
      }
      assert NoDuplicates(tail) by {
        forall a, b | 0 <= a < b < |tail| ensures tail[a] != tail[b] {
          assert tail[a] == sorted[a + 1] && tail[b] == sorted[b + 1];
        }
      }
      InsertDescendingDistinct(row, tail, i);
      var rest := InsertDescending(row, tail, i);
      var r := [head] + rest;
      assert forall b | 0 < b < |r| :: r[b] == rest[b - 1] && r[b] in rest;
    }
  }

  /** The positions 0 .. k-1 sorted by descending score (ties by position). */
  function SortPositions(row: seq<real>, k: nat): (order: seq<nat>)
    requires k <= |row|
    ensures |order| == k
    ensures forall j | 0 <= j < k :: order[j] < k
    ensures forall i | 0 <= i < k :: i in order
    ensures NoDuplicates(order)
    ensures forall a, b | 0 <= a < b < k :: row[order[a]] >= row[order[b]]
  {
    if k == 0 then []
    else
      var prev := SortPositions(row, k - 1);
      SortStep(row, prev, k);
      InsertDescending(row, prev, k - 1)
  }

  /** One step of `SortPositions`: inserting position k-1 into the sorted positions
      0 .. k-2 sorts the positions 0 .. k-1. */
  lemma SortStep(row: seq<real>, prev: seq<nat>, k: nat)
    requires 0 < k <= |row|
    requires |prev| == k - 1 && forall j | 0 <= j < k - 1 :: prev[j] < k - 1
    requires forall i | 0 <= i < k - 1 :: i in prev
    requires NoDuplicates(prev)
    requires forall a, b | 0 <= a < b < k - 1 :: row[prev[a]] >= row[prev[b]]
    ensures var r := InsertDescending(row, prev, k - 1);
      && |r| == k
      && (forall j | 0 <= j < k :: r[j] < k)
      && (forall i | 0 <= i < k :: i in r)
      && NoDuplicates(r)
      && (forall a, b | 0 <= a < b < k :: row[r[a]] >= row[r[b]])
  {
    assert k - 1 !in prev;
    InsertDescendingDistinct(row, prev, k - 1);
    var r := InsertDescending(row, prev, k - 1);
    forall j | 0 <= j < k ensures r[j] < k {
      assert r[j] in r;
    }
  }

  /** Every row has a descending order: one of the outcomes pandas' sort may produce. */
  function ArgSortDescending(row: seq<real>): (order: seq<nat>)
    ensures IsDescendingOrder(row, order)
  {
    SortPositions(row, |row|)
  }

  /** The ids of the row, listed in the given order (`.sort_values(...).index`). */
  function Ranked(ids: seq<int>, order: seq<nat>): (r: seq<int>)
    requires forall k | 0 <= k < |order| :: order[k] < |ids|
    ensures |r| == |order| && forall k | 0 <= k < |order| :: r[k] == ids[order[k]]
  {
    seq(|order|, k requires 0 <= k < |order| => ids[order[k]])
  }

  /** The user-similarity matrix the caller passes is indexed by the pivot's users. */
  predicate UserInputs(p: Pivot, sim: SimMatrix) {
    p.Valid() && sim.Valid() && sim.ids == p.users
  }

  /** `user_ratings[user_ratings > t].index.tolist()` over one pivot row. */
  function AboveThreshold(items: seq<int>, row: seq<Option<real>>, t: real): seq<int>
    requires |items| == |row|
  {
    if items == [] then []
    else (if row[0].Some? && row[0].value > t then [items[0]] else []) + AboveThreshold(items[1..], row[1..], t)
  }

  /** An item is selected exactly when its cell is present and strictly above `t`. */
  lemma {:induction false} AboveThresholdIff(items: seq<int>, row: seq<Option<real>>, t: real)
    requires |items| == |row|
    ensures forall x | x in AboveThreshold(items, row, t) ::
      exists j | 0 <= j < |items| :: items[j] == x && row[j].Some? && row[j].value > t
    ensures forall j | 0 <= j < |items| && row[j].Some? && row[j].value > t :: items[j] in AboveThreshold(items, row, t)
  {
    if items != [] {
      var items', row' := items[1..], row[1..];
      var rest := AboveThreshold(items', row', t);
      AboveThresholdIff(items', row', t);
      assert AboveThreshold(items, row, t) == (if row[0].Some? && row[0].value > t then [items[0]] else []) + rest;
      forall x | x in rest ensures exists j | 0 <= j < |items| :: items[j] == x && row[j].Some? && row[j].value > t {
        var j :| 0 <= j < |items'| && items'[j] == x && row'[j].Some? && row'[j].value > t;
        assert items[j + 1] == x && row[j + 1] == row'[j];
      }
      assert forall j | 1 <= j < |items| :: items[j] == items'[j - 1] && row[j] == row'[j - 1];
    }
  }

  /** The filter keeps the row's column order: over an increasing index the selected
      ids are increasing too. */
  lemma {:induction false} AboveThresholdInColumnOrder(items: seq<int>, row: seq<Option<real>>, t: real)
    requires |items| == |row| && Increasing(items)
    ensures Increasing(AboveThreshold(items, row, t))
  {
    if items != [] {
      var items', row' := items[1..], row[1..];
      var rest := AboveThreshold(items', row', t);
      AboveThresholdInColumnOrder(items', row', t);
      if row[0].Some? && row[0].value > t {
        AboveThresholdIff(items', row', t);
        TailAboveHead(items);
        forall x | x in rest ensures items[0] < x {
          var j :| 0 <= j < |items'| && items'[j] == x && row'[j].Some? && row'[j].value > t;
          assert items'[j] in items';
        }
        ConsIncreasing(items[0], rest);
      } else {
        assert AboveThreshold(items, row, t) == [] + rest;
      }
    }
  }

  /** The items user `v` rated strictly above `t`, in column order. */
  function HighRated(p: Pivot, v: int, t: real): (hr: seq<int>)
    requires p.Valid() && v in p.users
    ensures forall x | x in hr :: x in p.items
  {
    AboveThresholdIff(p.items, p.RowOf(v), t);
    AboveThreshold(p.items, p.RowOf(v), t)
  }

  /** A neighbour's high-rated items come in increasing column order. */
  lemma HighRatedInColumnOrder(p: Pivot, v: int, t: real)
    requires p.Valid() && v in p.users
    ensures Increasing(HighRated(p, v, t))
  {
    AboveThresholdInColumnOrder(p.items, p.RowOf(v), t);
  }

  /** An item is among user v's high-rated items exactly when v's cell for it holds
      a rating strictly greater than the threshold: a rating equal to it does not qualify. */
  lemma HighRatedIff(p: Pivot, v: int, t: real, x: int)
    requires p.Valid() && v in p.users
    ensures x in HighRated(p, v, t) <==> x in p.items && p.Cell(v, x).Some? && p.Cell(v, x).value > t
  {
    IncreasingIsDistinct(p.items);
    var row := p.RowOf(v);
    AboveThresholdIff(p.items, row, t);
    if x in HighRated(p, v, t) {
      var j :| 0 <= j < |p.items| && p.items[j] == x && row[j].Some? && row[j].value > t;
      FirstIndexOfDistinct(p.items, j);
    }
  }

  /** The high-rated list is determined: any increasing list holding exactly the items
      `v` rated strictly above `t` is that list, element for element. */
  lemma HighRatedExactly(p: Pivot, v: int, t: real, l: seq<int>)
    requires p.Valid() && v in p.users && Increasing(l)
    requires forall x | x in l :: x in p.items && p.Cell(v, x).Some? && p.Cell(v, x).value > t
    requires forall x | x in p.items && p.Cell(v, x).Some? && p.Cell(v, x).value > t :: x in l
    ensures l == HighRated(p, v, t)
  {
    var hr := HighRated(p, v, t);
    forall x | x in hr ensures x in l {
      HighRatedIff(p, v, t, x);
    }
    forall x | x in l ensures x in hr {
      HighRatedIff(p, v, t, x);
    }
    HighRatedInColumnOrder(p, v, t);
    IncreasingUnique(l, hr);
  }

  /** `pivot.loc[u].dropna().index.tolist()`: the items `u` has any rating for. */
  function PresentItems(items: seq<int>, row: seq<Option<real>>): (r: seq<int>)
    requires |items| == |row|
    ensures forall x | x in r :: exists j | 0 <= j < |items| :: items[j] == x && row[j].Some?
    ensures forall j | 0 <= j < |items| && row[j].Some? :: items[j] in r
  {
    if items == [] then []
    else
      var rest := PresentItems(items[1..], row[1..]);
      assert forall x | x in rest :: exists j | 0 <= j < |items| :: items[j] == x && row[j].Some? by {
        forall x | x in rest ensures exists j | 0 <= j < |items| :: items[j] == x && row[j].Some? {
          var j :| 0 <= j < |items[1..]| && items[1..][j] == x && row[1..][j].Some?;
          assert items[j + 1] == x && row[j + 1] == row[1..][j];
        }
      }
      assert forall j | 1 <= j < |items| :: items[j] == items[1..][j - 1] && row[j] == row[1..][j - 1];
      (if row[0].Some? then [items[0]] else []) + rest
  }

  function AlreadyRated(p: Pivot, u: int): (rated: seq<int>)
    requires p.Valid() && u in p.users
    ensures forall x | x in rated :: x in p.items
  {
    PresentItems(p.items, p.RowOf(u))
  }

  lemma AlreadyRatedIff(p: Pivot, u: int, x: int)
    requires p.Valid() && u in p.users
    ensures x in AlreadyRated(p, u) <==> x in p.items && p.Cell(u, x).Some?
  {
    IncreasingIsDistinct(p.items);
    var row := p.RowOf(u);
    if x in AlreadyRated(p, u) {
      var j :| 0 <= j < |p.items| && p.items[j] == x && row[j].Some?;
      FirstIndexOfDistinct(p.items, j);
    }
  }

  /** The neighbours' high-rated items concatenated in neighbour order
      (the value `recommendations` reaches after the loop). */
  function Candidates(p: Pivot, neighbours: seq<int>, t: real): (c: seq<int>)
    requires p.Valid() && forall v | v in neighbours :: v in p.users
    ensures forall x | x in c :: x in p.items
  {
    if neighbours == [] then []
    else
      var prev := neighbours[..|neighbours| - 1];
      assert forall v | v in prev :: v in neighbours;
      Candidates(p, prev, t) + HighRated(p, neighbours[|neighbours| - 1], t)
  }

  /** One more neighbour appends its high-rated items. */
  lemma CandidatesSnoc(p: Pivot, n: seq<int>, v: int, t: real)
    requires p.Valid() && (forall w | w in n :: w in p.users) && v in p.users
    ensures forall w | w in n + [v] :: w in p.users
    ensures Candidates(p, n + [v], t) == Candidates(p, n, t) + HighRated(p, v, t)
  {
    var m := n + [v];
    assert m[..|m| - 1] == n && m[|m| - 1] == v;
  }

  /** Each neighbour's high-rated items, one list per neighbour, in neighbour order. */
  function HighRatedLists(p: Pivot, neighbours: seq<int>, t: real): (ls: seq<seq<int>>)
    requires p.Valid() && forall v | v in neighbours :: v in p.users
    ensures |ls| == |neighbours|
    ensures forall k | 0 <= k < |neighbours| :: ls[k] == HighRated(p, neighbours[k], t)
  {
    seq(|neighbours|, k requires 0 <= k < |neighbours| => HighRated(p, neighbours[k], t))
  }

  lemma HighRatedListsAppend(p: Pivot, a: seq<int>, b: seq<int>, t: real)
    requires p.Valid() && (forall v | v in a :: v in p.users) && (forall v | v in b :: v in p.users)
    ensures forall v | v in a + b :: v in p.users
    ensures HighRatedLists(p, a + b, t) == HighRatedLists(p, a, t) + HighRatedLists(p, b, t)
  {
    var l, la, lb := HighRatedLists(p, a + b, t), HighRatedLists(p, a, t), HighRatedLists(p, b, t);
    forall k | 0 <= k < |a + b| ensures l[k] == (la + lb)[k] {
      if k < |a| {
        assert (a + b)[k] == a[k];
      } else {
        assert (a + b)[k] == b[k - |a|];
      }
    }
  }

  /** The candidates are the neighbours' high-rated lists joined in neighbour order. */
  lemma {:induction false} CandidatesFlatten(p: Pivot, neighbours: seq<int>, t: real)
    requires p.Valid() && forall v | v in neighbours :: v in p.users
    ensures Candidates(p, neighbours, t) == Flatten(HighRatedLists(p, neighbours, t))
  {
    if neighbours != [] {
      var prev := neighbours[..|neighbours| - 1];
      assert forall v | v in prev :: v in neighbours;
      CandidatesFlatten(p, prev, t);
      var ls := HighRatedLists(p, neighbours, t);
      assert ls[..|ls| - 1] == HighRatedLists(p, prev, t);
    }
  }

  /** The accumulation runs in neighbour order: the candidates of two runs of
      neighbours are the first run's followed by the second's. */
  lemma CandidatesAppend(p: Pivot, a: seq<int>, b: seq<int>, t: real)
    requires p.Valid() && (forall v | v in a :: v in p.users) && (forall v | v in b :: v in p.users)
    ensures forall v | v in a + b :: v in p.users
    ensures Candidates(p, a + b, t) == Candidates(p, a, t) + Candidates(p, b, t)
  {
    CandidatesFlatten(p, a, t);
    CandidatesFlatten(p, b, t);
    CandidatesFlatten(p, a + b, t);
    HighRatedListsAppend(p, a, b, t);
    FlattenAppend(HighRatedLists(p, a, t), HighRatedLists(p, b, t));
  }

  /** One neighbour contributes exactly its high-rated items. */
  lemma CandidatesSingle(p: Pivot, v: int, t: real)
    requires p.Valid() && v in p.users
    ensures Candidates(p, [v], t) == HighRated(p, v, t)
  {
    assert [v][..0] == [];
  }

  /** An item is a candidate exactly when some neighbour rated it above the threshold. */
  lemma {:induction false} CandidatesIff(p: Pivot, neighbours: seq<int>, t: real, x: int)
    requires p.Valid() && forall v | v in neighbours :: v in p.users
    ensures x in Candidates(p, neighbours, t) <==>
      exists k | 0 <= k < |neighbours| :: x in HighRated(p, neighbours[k], t)
  {
    if neighbours != [] {
      var prev := neighbours[..|neighbours| - 1];
      var last := neighbours[|neighbours| - 1];
      assert neighbours == prev + [last];
      assert forall v | v in prev :: v in neighbours;
      CandidatesSnoc(p, prev, last, t);
      CandidatesIff(p, prev, t, x);
      var c, h := Candidates(p, prev, t), HighRated(p, last, t);
      assert forall k | 0 <= k < |prev| :: prev[k] == neighbours[k];
      if x in h {
        assert x in HighRated(p, neighbours[|neighbours| - 1], t);
      } else if x in c {
        var k :| 0 <= k < |prev| && x in HighRated(p, prev[k], t);
        assert x in HighRated(p, neighbours[k], t);
      } else {
        forall k | 0 <= k < |neighbours| ensures x !in HighRated(p, neighbours[k], t) {
          assert k < |prev| || neighbours[k] == last;
        }
      }
    }
  }

  /** The neighbours: the ranked ids without the head of the order. */
  function Neighbours(sim: SimMatrix, u: int, order: seq<nat>): (nb: seq<int>)
    requires sim.Valid() && u in sim.ids && IsDescendingOrder(sim.Row(u), order)
    ensures |nb| == |sim.ids| - 1
    ensures forall k | 0 <= k < |nb| :: nb[k] == sim.ids[order[k + 1]]
    ensures forall v | v in nb :: v in sim.ids
  {
    Ranked(sim.ids, order)[1..]
  }

  /** What `recommend_for_user` returns, given the order the sort produced. */
  function UserRecommendations(u: int, p: Pivot, sim: SimMatrix, n: int, t: real, order: seq<nat>): (r: seq<int>)
    requires UserInputs(p, sim)
    requires u in p.users ==> IsDescendingOrder(sim.Row(u), order)
    ensures u !in p.users ==> r == []
    ensures 0 <= n ==> |r| <= n
  {
    if u !in p.users then []
    else
      var nb := Neighbours(sim, u, order);
      Prefix(Exclude(Dedup(Candidates(p, nb, t)), AlreadyRated(p, u)), n)
  }

  /** The list before truncation: distinct candidates not already rated. */
  function Unrated(u: int, p: Pivot, sim: SimMatrix, t: real, order: seq<nat>): seq<int>
    requires UserInputs(p, sim) && u in p.users && IsDescendingOrder(sim.Row(u), order)
  {
    Exclude(Dedup(Candidates(p, Neighbours(sim, u, order), t)), AlreadyRated(p, u))
  }

  /** `recommend_for_user`: the loop extends `recommendations` with each neighbour's
      high-rated items; then duplicates and already-rated items are dropped and the
      list is cut to `n`. */
  method RecommendForUser(u: int, p: Pivot, sim: SimMatrix, n: int, t: real, order: seq<nat>)
    returns (r: seq<int>)
    requires UserInputs(p, sim)
    requires u in p.users ==> IsDescendingOrder(sim.Row(u), order)
    ensures r == UserRecommendations(u, p, sim, n, t, order)
  {
    if u !in p.users {
      return [];
    }
    var similarUsers := Neighbours(sim, u, order);
    var recommendations: seq<int> := [];
    var k := 0;
    while k < |similarUsers|
      invariant 0 <= k <= |similarUsers|
      invariant recommendations == Candidates(p, similarUsers[..k], t)
    {
      assert similarUsers[..k + 1][..k] == similarUsers[..k];
      recommendations := recommendations + HighRated(p, similarUsers[k], t);
      k := k + 1;
    }
    assert similarUsers[..k] == similarUsers;
    var alreadyRated := AlreadyRated(p, u);
    var uniqueRecs := Exclude(Dedup(recommendations), alreadyRated);
    r := Prefix(uniqueRecs, n);
  }

  /** The items that qualify for user u: rated strictly above `t` by some neighbour
      and not rated at all by u. */
  ghost function Qualifying(u: int, p: Pivot, sim: SimMatrix, t: real, order: seq<nat>): set<int>
    requires UserInputs(p, sim) && u in p.users && IsDescendingOrder(sim.Row(u), order)
  {
    var nb := Neighbours(sim, u, order);
    set x | x in p.items && p.Cell(u, x).None?
      && exists k | 0 <= k < |nb| :: p.Cell(nb[k], x).Some? && p.Cell(nb[k], x).value > t
  }

  /** Before truncation the list holds each qualifying item exactly once, in the order
      in which the items first occur among the neighbours' high-rated items. */
  lemma UnratedCharacterised(u: int, p: Pivot, sim: SimMatrix, t: real, order: seq<nat>)
    requires UserInputs(p, sim) && u in p.users && IsDescendingOrder(sim.Row(u), order)
    ensures var l := Unrated(u, p, sim, t, order);
      && NoDuplicates(l)
      && (set x | x in l) == Qualifying(u, p, sim, t, order)
      && InFirstOccurrenceOrder(l, Candidates(p, Neighbours(sim, u, order), t))
  {
    var nb := Neighbours(sim, u, order);
    var c := Candidates(p, nb, t);
    var rated := AlreadyRated(p, u);
    var l := Unrated(u, p, sim, t, order);
    ExcludeNoDuplicates(Dedup(c), rated);
    DedupOrder(c);
    ExcludeOrder(Dedup(c), rated, c);
    forall x | x in l ensures x in Qualifying(u, p, sim, t, order) {
      CandidatesIff(p, nb, t, x);
      var k :| 0 <= k < |nb| && x in HighRated(p, nb[k], t);
      HighRatedIff(p, nb[k], t, x);
      AlreadyRatedIff(p, u, x);
    }
    forall x | x in Qualifying(u, p, sim, t, order) ensures x in l {
      assert x in p.items && p.Cell(u, x).None?;
      var k :| 0 <= k < |nb| && p.Cell(nb[k], x).Some? && p.Cell(nb[k], x).value > t;
      HighRatedIff(p, nb[k], t, x);
      CandidatesIff(p, nb, t, x);
      AlreadyRatedIff(p, u, x);
    }
  }

  /** `recommend_for_user` never repeats an item and never returns an item the user
      has any rating for. */
  lemma RecommendationsDistinctAndUnrated(u: int, p: Pivot, sim: SimMatrix, n: int, t: real, order: seq<nat>)
    requires UserInputs(p, sim)
    requires u in p.users ==> IsDescendingOrder(sim.Row(u), order)
    ensures var r := UserRecommendations(u, p, sim, n, t, order);
      && NoDuplicates(r)
      && forall x | x in r :: u in p.users && x in p.items && p.Cell(u, x).None?
  {
    if u in p.users {
      var l := Unrated(u, p, sim, t, order);
      UnratedCharacterised(u, p, sim, t, order);
      PrefixNoDuplicates(l, n);
      var r := UserRecommendations(u, p, sim, n, t, order);
      assert r == l[..|r|];
      forall x | x in r ensures x in p.items && p.Cell(u, x).None? {
        assert x in l;
        assert x in (set y | y in l);
        assert x in Qualifying(u, p, sim, t, order);
      }
    }
  }

  /** Every returned item was rated strictly above the threshold by a user in the
      sorted row after its first entry, and the list keeps the order in which items
      first appear in the concatenation of those users' high-rated items. */
  lemma RecommendationsQualifyInOrder(u: int, p: Pivot, sim: SimMatrix, n: int, t: real, order: seq<nat>)
    requires UserInputs(p, sim) && u in p.users && IsDescendingOrder(sim.Row(u), order)
    ensures var r := UserRecommendations(u, p, sim, n, t, order);
      var nb := Neighbours(sim, u, order);
      && (forall x | x in r :: x in p.items && exists k | 1 <= k < |order| ::
            p.Cell(sim.ids[order[k]], x).Some? && p.Cell(sim.ids[order[k]], x).value > t)
      && InFirstOccurrenceOrder(r, Candidates(p, nb, t))
  {
    var nb := Neighbours(sim, u, order);
    var l := Unrated(u, p, sim, t, order);
    UnratedCharacterised(u, p, sim, t, order);
    PrefixOrder(l, n, Candidates(p, nb, t));
    var r := UserRecommendations(u, p, sim, n, t, order);
    assert r == l[..|r|];
    forall x | x in r ensures x in p.items && exists k | 1 <= k < |order| ::
      p.Cell(sim.ids[order[k]], x).Some? && p.Cell(sim.ids[order[k]], x).value > t
    {
      assert x in l;
      assert x in (set y | y in l);
      assert x in Qualifying(u, p, sim, t, order);
      assert x in p.items;
      var k :| 0 <= k < |nb| && p.Cell(nb[k], x).Some? && p.Cell(nb[k], x).value > t;
      assert nb[k] == sim.ids[order[k + 1]];
    }
  }

  /** For n >= 0 the output holds min(n, number of qualifying items) items; when it
      holds fewer than n, every qualifying item is in it (nothing is padded or lost). */
  /** Truncation keeps the earliest qualifying items: a qualifying item left out means
      the list is full, and every returned item first occurs before it among the
      neighbours' high-rated items. */
  lemma RecommendationsAreEarliest(u: int, p: Pivot, sim: SimMatrix, n: int, t: real, order: seq<nat>, x: int)
    requires UserInputs(p, sim) && u in p.users && IsDescendingOrder(sim.Row(u), order)
    requires 0 <= n && x in Qualifying(u, p, sim, t, order)
    requires x !in UserRecommendations(u, p, sim, n, t, order)
    ensures |UserRecommendations(u, p, sim, n, t, order)| == n
    ensures var c := Candidates(p, Neighbours(sim, u, order), t);
      x in c && forall y | y in UserRecommendations(u, p, sim, n, t, order) ::
        y in c && FirstIndex(c, y) < FirstIndex(c, x)
  {
    var c := Candidates(p, Neighbours(sim, u, order), t);
    var l := Unrated(u, p, sim, t, order);
    var r := UserRecommendations(u, p, sim, n, t, order);
    UnratedCharacterised(u, p, sim, t, order);
    assert r == l[..|r|];
    assert x in (set y | y in l);
    PrefixEarlier(l, r, c, x);
  }

  lemma RecommendationsLength(u: int, p: Pivot, sim: SimMatrix, n: int, t: real, order: seq<nat>)
    requires UserInputs(p, sim) && u in p.users && IsDescendingOrder(sim.Row(u), order)
    requires 0 <= n
    ensures var r := UserRecommendations(u, p, sim, n, t, order);
      && |r| == Min(n, |Qualifying(u, p, sim, t, order)|)
      && (|r| < n ==> forall x | x in Qualifying(u, p, sim, t, order) :: x in r)
  {
    var l := Unrated(u, p, sim, t, order);
    UnratedCharacterised(u, p, sim, t, order);
    DistinctCardinality(l);
    var r := UserRecommendations(u, p, sim, n, t, order);
    if |r| < n {
      assert r == l;
    }
  }

  /** Self-exclusion holds when the user's self-similarity is strictly the largest
      score in its row: the head of the order is then the user itself. */
  lemma SelfNotNeighbourWhenStrictlyTop(u: int, sim: SimMatrix, order: seq<nat>)
    requires sim.Valid() && u in sim.ids && IsDescendingOrder(sim.Row(u), order)
    requires forall v | v in sim.ids && v != u :: sim.Score(u, v) < sim.Score(u, u)
    ensures sim.ids[order[0]] == u
    ensures u !in Neighbours(sim, u, order)
  {
    var row := sim.Row(u);
    var self := FirstIndex(sim.ids, u);
    var h := order[0];
    FirstIndexOfDistinct(sim.ids, h);
    assert self in order;
    var ks :| 0 <= ks < |order| && order[ks] == self;
    assert row[h] >= row[self];
    assert sim.Score(u, sim.ids[h]) == row[h];
    assert h == self;
    var nb := Neighbours(sim, u, order);
    forall k | 0 <= k < |nb| ensures nb[k] != u {
      assert order[k + 1] != order[0];
      FirstIndexOfDistinct(sim.ids, order[k + 1]);
    }
  }

  /** `recommend_similar_items`: the ids of the item's row in descending order of
      score, without the head of that order, cut to `n`. */
  function RecommendSimilarItems(x: int, sim: SimMatrix, n: int, order: seq<nat>): (r: seq<int>)
    requires sim.Valid()
    requires x in sim.ids ==> IsDescendingOrder(sim.Row(x), order)
    ensures x !in sim.ids ==> r == []
    ensures x in sim.ids && 0 <= n ==> |r| == Min(n, |sim.ids| - 1)
    ensures x in sim.ids ==> |r| < |order| && forall k | 0 <= k < |r| :: r[k] == sim.ids[order[k + 1]]
  {
    if x !in sim.ids then []
    else Prefix(Ranked(sim.ids, order)[1..], n)
  }

  /** The head of the sort order is dropped by position: whatever id sorts first is
      never among the similar items, and everything returned sorts after it. */
  lemma SimilarItemsDropHead(x: int, sim: SimMatrix, n: int, order: seq<nat>)
    requires sim.Valid() && x in sim.ids && IsDescendingOrder(sim.Row(x), order)
    ensures sim.ids[order[0]] !in RecommendSimilarItems(x, sim, n, order)
  {
    var r := RecommendSimilarItems(x, sim, n, order);
    var ranked := Ranked(sim.ids, order);
    RankedDistinct(sim.ids, order);
    forall k | 0 <= k < |r| ensures r[k] != sim.ids[order[0]] {
      assert r[k] == ranked[k + 1] && ranked[0] == sim.ids[order[0]];
    }
  }

  /** In a matrix with distinct ids, the score of the id at position k is the row's entry k. */
  lemma ScoreAtPosition(sim: SimMatrix, x: int, k: nat)
    requires sim.Valid() && x in sim.ids && k < |sim.ids|
    ensures sim.Score(x, sim.ids[k]) == sim.Row(x)[k]
  {
    FirstIndexOfDistinct(sim.ids, k);
  }

  /** The item-based result lists distinct ids of the matrix with non-increasing scores. */
  lemma SimilarItemsRanked(x: int, sim: SimMatrix, n: int, order: seq<nat>)
    requires sim.Valid() && x in sim.ids && IsDescendingOrder(sim.Row(x), order)
    ensures var r := RecommendSimilarItems(x, sim, n, order);
      && NoDuplicates(r)
      && (forall y | y in r :: y in sim.ids)
      && (forall i, j | 0 <= i < j < |r| :: sim.Score(x, r[i]) >= sim.Score(x, r[j]))
  {
    var r := RecommendSimilarItems(x, sim, n, order);
    var row := sim.Row(x);
    assert forall k | 0 <= k < |r| :: r[k] == sim.ids[order[k + 1]];
    forall i, j | 0 <= i < j < |r| ensures r[i] != r[j] && sim.Score(x, r[i]) >= sim.Score(x, r[j]) {
      assert order[i + 1] != order[j + 1];
      FirstIndexOfDistinct(sim.ids, order[i + 1]);
      ScoreAtPosition(sim, x, order[i + 1]);
      ScoreAtPosition(sim, x, order[j + 1]);
    }
  }

  /** The item-based result is the top of the ranking: every id left out, other than
      the dropped head, scores no more than any id returned. */
  lemma SimilarItemsAreNearest(x: int, sim: SimMatrix, n: int, order: seq<nat>, y: int, z: int)
    requires sim.Valid() && x in sim.ids && IsDescendingOrder(sim.Row(x), order)
    requires y in RecommendSimilarItems(x, sim, n, order)
    requires z in sim.ids && z !in RecommendSimilarItems(x, sim, n, order) && z != sim.ids[order[0]]
    ensures sim.Score(x, y) >= sim.Score(x, z)
  {
    var r := RecommendSimilarItems(x, sim, n, order);
    var row := sim.Row(x);
    assert forall k | 0 <= k < |r| :: r[k] == sim.ids[order[k + 1]];
    var a :| 0 <= a < |r| && r[a] == y;
    var m := FirstIndex(sim.ids, z);
    assert m in order;
    var b :| 0 <= b < |order| && order[b] == m;
    assert b != 0 && sim.ids[order[b]] == z;
    assert forall k | 0 <= k < |r| :: r[k] != z;
    assert a + 1 < b;
    ScoreAtPosition(sim, x, order[a + 1]);
    ScoreAtPosition(sim, x, m);
  }

  /** With the item's self-similarity strictly the largest in its row, the item itself
      is never among its similar items. */
  lemma SimilarItemsExcludeSelfWhenStrictlyTop(x: int, sim: SimMatrix, n: int, order: seq<nat>)
    requires sim.Valid() && x in sim.ids && IsDescendingOrder(sim.Row(x), order)
    requires forall v | v in sim.ids && v != x :: sim.Score(x, v) < sim.Score(x, x)
    ensures x !in RecommendSimilarItems(x, sim, n, order)
  {
    SelfNotNeighbourWhenStrictlyTop(x, sim, order);
  }

  /** As written, self-exclusion is positional: when another item ties with the
      queried item at the top of its row (two items with the same rating column have
      cosine similarity 1.0 with each other and with themselves) and the sort leaves
      the other item first, that item is dropped and the queried item is returned
      as similar to itself. */
  lemma SimilarItemsCanReturnSelf()
    ensures var sim := SimMatrix([10, 20], [[1.0, 1.0], [1.0, 1.0]]);
      && sim.Valid()
      && IsDescendingOrder(sim.Row(20), [0, 1])
      && RecommendSimilarItems(20, sim, 5, [0, 1]) == [20]
  {
    var sim := SimMatrix([10, 20], [[1.0, 1.0], [1.0, 1.0]]);
    assert sim.Row(20) == [1.0, 1.0];
    assert Ranked(sim.ids, [0, 1]) == [10, 20];
  }

  /** The same positional rule in the user-based ranker: with a tie at the top of
      the user's row, the user itself can be kept as a neighbour. */
  lemma SelfCanBeNeighbourOnTie()
    ensures var sim := SimMatrix([1, 2], [[1.0, 1.0], [1.0, 1.0]]);
      && sim.Valid()
      && IsDescendingOrder(sim.Row(2), [0, 1])
      && Neighbours(sim, 2, [0, 1]) == [2]
  {
    var sim := SimMatrix([1, 2], [[1.0, 1.0], [1.0, 1.0]]);
    assert sim.Row(2) == [1.0, 1.0];
    assert Ranked(sim.ids, [0, 1]) == [1, 2];
  }

  /** The ranked ids are the matrix's ids, each once. */
  lemma RankedDistinct(ids: seq<int>, order: seq<nat>)
    requires NoDuplicates(ids) && NoDuplicates(order)
    requires forall k | 0 <= k < |order| :: order[k] < |ids|
    ensures NoDuplicates(Ranked(ids, order))
  {
    var r := Ranked(ids, order);
    forall i, j | 0 <= i < j < |r| ensures r[i] != r[j] {
      FirstIndexOfDistinct(ids, order[i]);
      FirstIndexOfDistinct(ids, order[j]);
    }
  }

  lemma {:induction false} ExcludeAbsent<T>(s: seq<T>, drop: seq<T>)
    requires forall x | x in s :: x !in drop
    ensures Exclude(s, drop) == s
  {
    if s != [] {
      assert forall x | x in s[1..] :: x in s;
      ExcludeAbsent(s[1..], drop);
    }
  }

  /** Dropping an id from the front of a list that holds it only there leaves the rest. */
  lemma ExcludeHead<T>(x: T, s: seq<T>)
    requires x !in s
    ensures Exclude([x] + s, [x]) == s
  {
    assert ([x] + s)[1..] == s;
    ExcludeAbsent(s, [x]);
  }

  /** The evidently intended item-based ranking: the queried item is removed by id
      rather than by position, then the first n ids are taken. */
  function SimilarItemsExcludingSelf(x: int, sim: SimMatrix, n: int, order: seq<nat>): (r: seq<int>)
    requires sim.Valid()
    requires x in sim.ids ==> IsDescendingOrder(sim.Row(x), order)
    ensures x !in r
    ensures forall y | y in r :: y in sim.ids
    ensures x !in sim.ids ==> r == []
  {
    if x !in sim.ids then []
    else
      var others := Exclude(Ranked(sim.ids, order), [x]);
      var r := Prefix(others, n);
      assert forall y | y in r :: y in others;
      assert forall y | y in Ranked(sim.ids, order) :: y in sim.ids;
      r
  }

  /** Listing the ids in a descending order of a row lists every id exactly once. */
  lemma RankedIsPermutation(x: int, sim: SimMatrix, order: seq<nat>)
    requires sim.Valid() && x in sim.ids && IsDescendingOrder(sim.Row(x), order)
    ensures NoDuplicates(Ranked(sim.ids, order))
    ensures (set y | y in Ranked(sim.ids, order)) == (set y | y in sim.ids)
  {
    var ranked := Ranked(sim.ids, order);
    RankedDistinct(sim.ids, order);
    forall y | y in sim.ids ensures y in ranked {
      var m := FirstIndex(sim.ids, y);
      assert m in order;
      var k :| 0 <= k < |order| && order[k] == m;
      assert ranked[k] == y;
    }
  }

  /** The corrected ranking returns min(n, #items - 1) distinct ids, none of them
      the queried item. */
  lemma ExcludingSelfLength(x: int, sim: SimMatrix, n: int, order: seq<nat>)
    requires sim.Valid() && x in sim.ids && IsDescendingOrder(sim.Row(x), order)
    ensures var r := SimilarItemsExcludingSelf(x, sim, n, order);
      && NoDuplicates(r)
      && (forall y | y in r :: y in sim.ids && y != x)
      && (0 <= n ==> |r| == Min(n, |sim.ids| - 1))
  {
    var ranked := Ranked(sim.ids, order);
    var e := Exclude(ranked, [x]);
    var r := SimilarItemsExcludingSelf(x, sim, n, order);
    RankedIsPermutation(x, sim, order);
    ExcludeNoDuplicates(ranked, [x]);
    PrefixNoDuplicates(e, n);
    assert (set y | y in e) == (set y | y in sim.ids) - {x};
    DistinctCardinality(e);
    DistinctCardinality(sim.ids);
    assert r == e[..|r|];
    assert forall y | y in r :: y in e;
  }

  /** The corrected ranking keeps scores non-increasing along the list. */
  /** Along a descending order, an earlier position scores at least as much as a later one. */
  lemma RankedScoresDescend(x: int, sim: SimMatrix, order: seq<nat>, a: nat, b: nat)
    requires sim.Valid() && x in sim.ids && IsDescendingOrder(sim.Row(x), order)
    requires a < b < |order|
    ensures sim.Score(x, Ranked(sim.ids, order)[a]) >= sim.Score(x, Ranked(sim.ids, order)[b])
  {
    ScoreAtPosition(sim, x, order[a]);
    ScoreAtPosition(sim, x, order[b]);
  }

  /** Every id of the matrix occurs in the ranked list. */
  lemma InRanked(x: int, sim: SimMatrix, order: seq<nat>, z: int)
    requires sim.Valid() && x in sim.ids && IsDescendingOrder(sim.Row(x), order)
    requires z in sim.ids
    ensures z in Ranked(sim.ids, order)
  {
    var m := FirstIndex(sim.ids, z);
    assert m in order;
    var k :| 0 <= k < |order| && order[k] == m;
    assert Ranked(sim.ids, order)[k] == z;
  }

  /** The corrected ranking returns the nearest other items: no other item left out
      scores higher than one returned, ties at the top included. */
  lemma ExcludingSelfNearest(x: int, sim: SimMatrix, n: int, order: seq<nat>, y: int, z: int)
    requires sim.Valid() && x in sim.ids && IsDescendingOrder(sim.Row(x), order)
    requires y in SimilarItemsExcludingSelf(x, sim, n, order)
    requires z in sim.ids && z != x && z !in SimilarItemsExcludingSelf(x, sim, n, order)
    ensures sim.Score(x, y) >= sim.Score(x, z)
  {
    var ranked := Ranked(sim.ids, order);
    var e := Exclude(ranked, [x]);
    var r := SimilarItemsExcludingSelf(x, sim, n, order);
    assert InFirstOccurrenceOrder(e, ranked) by {
      RankedDistinct(sim.ids, order);
      forall i, j | 0 <= i < j < |ranked| ensures FirstIndex(ranked, ranked[i]) < FirstIndex(ranked, ranked[j]) {
        FirstIndexOfDistinct(ranked, i);
        FirstIndexOfDistinct(ranked, j);
      }
      ExcludeOrder(ranked, [x], ranked);
    }
    InRanked(x, sim, order, z);
    assert z in e;
    var i, j := PrefixBefore(e, r, y, z);
    var a, b := FirstIndex(ranked, y), FirstIndex(ranked, z);
    assert a < b;
    RankedScoresDescend(x, sim, order, a, b);
  }

  lemma ExcludingSelfOrdered(x: int, sim: SimMatrix, n: int, order: seq<nat>)
    requires sim.Valid() && x in sim.ids && IsDescendingOrder(sim.Row(x), order)
    ensures var r := SimilarItemsExcludingSelf(x, sim, n, order);
      forall i, j | 0 <= i < j < |r| :: sim.Score(x, r[i]) >= sim.Score(x, r[j])
  {
    var ranked := Ranked(sim.ids, order);
    var e := Exclude(ranked, [x]);
    var r := SimilarItemsExcludingSelf(x, sim, n, order);
    RankedDistinct(sim.ids, order);
    assert InFirstOccurrenceOrder(ranked, ranked) by {
      forall i, j | 0 <= i < j < |ranked| ensures FirstIndex(ranked, ranked[i]) < FirstIndex(ranked, ranked[j]) {
        FirstIndexOfDistinct(ranked, i);
        FirstIndexOfDistinct(ranked, j);
      }
    }
    ExcludeOrder(ranked, [x], ranked);
    PrefixOrder(e, n, ranked);
    forall i, j | 0 <= i < j < |r| ensures sim.Score(x, r[i]) >= sim.Score(x, r[j]) {
      var a, b := FirstIndex(ranked, r[i]), FirstIndex(ranked, r[j]);
      ScoreAtPosition(sim, x, order[a]);
      ScoreAtPosition(sim, x, order[b]);
    }
  }

  /** When the item's self-similarity is strictly the largest in its row, the
      corrected ranking and the code as written agree. */
  lemma ExcludingSelfAgreesWhenStrictlyTop(x: int, sim: SimMatrix, n: int, order: seq<nat>)
    requires sim.Valid() && x in sim.ids && IsDescendingOrder(sim.Row(x), order)
    requires forall v | v in sim.ids && v != x :: sim.Score(x, v) < sim.Score(x, x)
    ensures SimilarItemsExcludingSelf(x, sim, n, order) == RecommendSimilarItems(x, sim, n, order)
  {
    var ranked := Ranked(sim.ids, order);
    var nb := Neighbours(sim, x, order);
    SelfNotNeighbourWhenStrictlyTop(x, sim, order);
    assert ranked[1..] == nb;
    assert ranked == [x] + nb;
    ExcludeHead(x, nb);
  }
}
