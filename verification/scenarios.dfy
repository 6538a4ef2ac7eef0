/** Worked examples: the pivot of small rating tables, and one end-to-end
    user-based recommendation. */
module Scenarios {
  import opened Wrappers
  import opened Sequences
  import opened PivotTable
  import opened Similarity
  import opened Ranking

  lemma MatchingOne(r: Rating, u: int, x: int)
    ensures Matching([r], u, x) == if r.user == u && r.item == x then [r.score] else []
  {
    assert [r][..0] == [];
  }

  /** Two ratings of the same pair: user 1 rated item 1 first 2.0, then 4.0. */
  predicate IsDuplicatePair(rs: seq<Rating>) {
    |rs| == 2 && rs[0] == Rating(1, 1, 2.0) && rs[1] == Rating(1, 1, 4.0)
  }

  /** An axis built from ratings that all carry the same id v holds v alone. */
  lemma SingleId(ids: seq<int>, v: int, all: seq<int>)
    requires Increasing(ids) && v in all
    requires forall y | y in all :: y == v
    requires forall y | y in all :: y in ids
    requires forall y | y in ids :: y in all
    ensures ids == [v]
  {
    IncreasingUnique(ids, [v]);
  }

  lemma DuplicatesAxes(rs: seq<Rating>)
    requires IsDuplicatePair(rs)
    ensures BuildPivot(rs).users == [1] && BuildPivot(rs).items == [1]
  {
    var p := BuildPivot(rs);
    assert p.users == [1] by {
      UserColumnIds(rs);
      var us := UserColumn(rs);
      assert p.users == SortedDistinct(us) && us[0] == 1;
      SingleId(p.users, 1, us);
    }
    assert p.items == [1] by {
      ItemColumnIds(rs);
      var xs := ItemColumn(rs);
      assert p.items == SortedDistinct(xs) && xs[0] == 1;
      SingleId(p.items, 1, xs);
    }
  }

  lemma DuplicatesMean(rs: seq<Rating>)
    requires IsDuplicatePair(rs)
    ensures Mean(Matching(rs, 1, 1)) == Some(3.0)
  {
    var r1, r2 := Rating(1, 1, 2.0), Rating(1, 1, 4.0);
    assert rs == [r1] + [r2];
    MatchingAppend([r1], [r2], 1, 1);
    MatchingOne(r1, 1, 1);
    MatchingOne(r2, 1, 1);
    assert Matching(rs, 1, 1) == [2.0, 4.0];
    assert Sum([2.0, 4.0]) == 6.0 by {
      assert [2.0, 4.0][..1] == [2.0];
      assert [2.0][..0] == [];
    }
  }

  /** Two ratings of one pair are averaged: 2 and 4 give 3. */
  lemma DuplicatesAveraged(rs: seq<Rating>)
    requires IsDuplicatePair(rs)
    ensures BuildPivot(rs) == Pivot([1], [1], [[Some(3.0)]])
  {
    DuplicatesAxes(rs);
    DuplicatesMean(rs);
    var m := MeanTable(rs, [1], [1]);
    assert m == [[Some(3.0)]] by {
      assert |m| == 1 && |m[0]| == 1 && m[0][0] == Some(3.0);
      assert m[0] == [Some(3.0)];
    }
  }

  /** An empty rating table gives a pivot with no rows and no columns. */
  lemma EmptyTable()
    ensures BuildPivot([]) == Pivot([], [], [])
  {
    var p := BuildPivot([]);
    PivotUsers([]);
    PivotItems([]);
    IncreasingUnique(p.users, []);
    IncreasingUnique(p.items, []);
  }

  /** The end-to-end table: user 1 rated items 10 and 20, user 2 rated 10, 20 and 30. */
  predicate IsExampleTable(rs: seq<Rating>) {
    && |rs| == 5
    && rs[0] == Rating(1, 10, 5.0) && rs[1] == Rating(1, 20, 1.0)
    && rs[2] == Rating(2, 10, 5.0) && rs[3] == Rating(2, 20, 5.0) && rs[4] == Rating(2, 30, 4.0)
  }

  const TablePivot: Pivot :=
    Pivot([1, 2], [10, 20, 30], [[Some(5.0), Some(1.0), None], [Some(5.0), Some(5.0), Some(4.0)]])

  lemma ExampleUsers(rs: seq<Rating>, us: seq<int>)
    requires IsExampleTable(rs) && Increasing(us)
    requires forall r | r in rs :: r.user in us
    requires forall u | u in us :: exists r | r in rs :: r.user == u
    ensures us == [1, 2]
  {
    forall u | u in us ensures u in [1, 2] {
      var r :| r in rs && r.user == u;
      var k :| 0 <= k < 5 && rs[k] == r;
    }
    assert rs[0] in rs && rs[2] in rs;
    IncreasingUnique(us, [1, 2]);
  }

  lemma ExampleItems(rs: seq<Rating>, xs: seq<int>)
    requires IsExampleTable(rs) && Increasing(xs)
    requires forall r | r in rs :: r.item in xs
    requires forall x | x in xs :: exists r | r in rs :: r.item == x
    ensures xs == [10, 20, 30]
  {
    forall x | x in xs ensures x in [10, 20, 30] {
      var r :| r in rs && r.item == x;
      var k :| 0 <= k < 5 && rs[k] == r;
    }
    assert rs[0] in rs && rs[1] in rs && rs[4] in rs;
    IncreasingUnique(xs, [10, 20, 30]);
  }

  lemma TableUsers(rs: seq<Rating>)
    requires IsExampleTable(rs)
    ensures BuildPivot(rs).users == [1, 2]
  {
    PivotUsers(rs);
    ExampleUsers(rs, BuildPivot(rs).users);
  }

  lemma TableItems(rs: seq<Rating>)
    requires IsExampleTable(rs)
    ensures BuildPivot(rs).items == [10, 20, 30]
  {
    PivotItems(rs);
    ExampleItems(rs, BuildPivot(rs).items);
  }

  lemma SumOne(v: real)
    ensures Sum([v]) == v
  {
    assert [v][..0] == [];
  }

  /** Each cell of the table's pivot: five pairs were rated once, (1, 30) never. */
  lemma TableMeans(rs: seq<Rating>)
    requires IsExampleTable(rs)
    ensures Mean(Matching(rs, 1, 10)) == Some(5.0)
    ensures Mean(Matching(rs, 1, 20)) == Some(1.0)
    ensures Mean(Matching(rs, 1, 30)) == None
    ensures Mean(Matching(rs, 2, 10)) == Some(5.0)
    ensures Mean(Matching(rs, 2, 20)) == Some(5.0)
    ensures Mean(Matching(rs, 2, 30)) == Some(4.0)
  {
    SumOne(5.0);
    SumOne(1.0);
    SumOne(4.0);
    MatchingSingle(rs, 0, 1, 10);
    MatchingSingle(rs, 1, 1, 20);
    MatchingEmptyIff(rs, 1, 30);
    MatchingSingle(rs, 2, 2, 10);
    MatchingSingle(rs, 3, 2, 20);
    MatchingSingle(rs, 4, 2, 30);
  }

  lemma ExampleMeanTable(rs: seq<Rating>)
    requires IsExampleTable(rs)
    ensures MeanTable(rs, [1, 2], [10, 20, 30]) == TablePivot.cells
  {
    TableMeans(rs);
    var m := MeanTable(rs, [1, 2], [10, 20, 30]);
    assert m[0] == TablePivot.cells[0];
    assert m[1] == TablePivot.cells[1];
  }

  /** The pivot of the table: two rows, three columns, item 30 absent for user 1. */
  lemma TablePivotIsBuilt(rs: seq<Rating>)
    requires IsExampleTable(rs)
    ensures BuildPivot(rs) == TablePivot
  {
    TableUsers(rs);
    TableItems(rs);
    ExampleMeanTable(rs);
  }

  lemma TablePivotCells()
    ensures TablePivot.Valid()
    ensures TablePivot.Cell(1, 10).Some? && TablePivot.Cell(1, 20).Some? && TablePivot.Cell(1, 30).None?
    ensures TablePivot.Cell(2, 30) == Some(4.0)
  {
    var p := TablePivot;
    FirstIndexOfDistinct(p.users, 0);
    FirstIndexOfDistinct(p.users, 1);
    FirstIndexOfDistinct(p.items, 0);
    FirstIndexOfDistinct(p.items, 1);
    FirstIndexOfDistinct(p.items, 2);
  }

  /** When user 1 is strictly most similar to itself, its only neighbour is user 2. */
  lemma ExampleNeighbours(sim: SimMatrix, order: seq<nat>)
    requires sim.Valid() && sim.ids == [1, 2] && IsDescendingOrder(sim.Row(1), order)
    requires sim.Score(1, 2) < sim.Score(1, 1)
    ensures Neighbours(sim, 1, order) == [2]
  {
    SelfNotNeighbourWhenStrictlyTop(1, sim, order);
    var nb := Neighbours(sim, 1, order);
    assert nb[0] in sim.ids;
  }

  /** User 1 has not rated item 30 alone, and user 2 rated it 4.0: it qualifies exactly
      when the threshold is below 4.0. */
  lemma ExampleQualifying(sim: SimMatrix, order: seq<nat>, t: real)
    requires sim.Valid() && sim.ids == [1, 2] && IsDescendingOrder(sim.Row(1), order)
    requires Neighbours(sim, 1, order) == [2]
    ensures Qualifying(1, TablePivot, sim, t, order) == if 4.0 > t then {30} else {}
  {
    var p := TablePivot;
    TablePivotCells();
    var q := Qualifying(1, p, sim, t, order);
    forall x | x in q ensures x == 30 {
      assert x in p.items;
    }
    if 4.0 > t {
      assert 30 in q by { assert [2][0] == 2; }
    }
  }

  /** With one qualifying item and room for at least two, that item alone is returned. */
  lemma OneQualifying(u: int, p: Pivot, sim: SimMatrix, n: int, t: real, order: seq<nat>, x: int)
    requires UserInputs(p, sim) && u in p.users && IsDescendingOrder(sim.Row(u), order)
    requires 2 <= n && Qualifying(u, p, sim, t, order) == {x}
    ensures UserRecommendations(u, p, sim, n, t, order) == [x]
  {
    RecommendationsLength(u, p, sim, n, t, order);
    var r := UserRecommendations(u, p, sim, n, t, order);
    assert |r| == 1 && x in r;
  }

  /** Recommending two items to user 1 of the example pivot: item 30 when the threshold
      lies below user 2's rating of 4.0 for it, nothing otherwise (the threshold is
      strict). User 1 already rated 10 and 20. */
  lemma ExampleRecommendations(sim: SimMatrix, order: seq<nat>, t: real)
    requires sim.Valid() && sim.ids == [1, 2] && IsDescendingOrder(sim.Row(1), order)
    requires sim.Score(1, 2) < sim.Score(1, 1)
    ensures UserRecommendations(1, TablePivot, sim, 2, t, order) == if 4.0 > t then [30] else []
  {
    TablePivotCells();
    ExampleNeighbours(sim, order);
    ExampleQualifying(sim, order, t);
    if 4.0 > t {
      OneQualifying(1, TablePivot, sim, 2, t, order, 30);
    } else {
      RecommendationsLength(1, TablePivot, sim, 2, t, order);
    }
  }

  /** End to end, from the ratings: with any similarity values in which user 1 is
      strictly most similar to itself, user 1 is recommended item 30 exactly when the
      threshold is below 4.0. */
  lemma EndToEnd(rs: seq<Rating>, sim: SimMatrix, order: seq<nat>, t: real)
    requires IsExampleTable(rs)
    requires sim.Valid() && sim.ids == [1, 2] && IsDescendingOrder(sim.Row(1), order)
    requires sim.Score(1, 2) < sim.Score(1, 1)
    ensures && BuildPivot(rs) == TablePivot
            && UserRecommendations(1, BuildPivot(rs), sim, 2, t, order) == if 4.0 > t then [30] else []
  {
    TablePivotIsBuilt(rs);
    ExampleRecommendations(sim, order, t);
  }
}
