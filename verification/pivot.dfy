/** `build_pivot_table` (recommender/model.py): the (User_ID, Item_ID, Rating) rows
    become a users-by-items matrix whose cell is the mean of the ratings recorded
    for that pair, or absent (NaN) when there are none. Ratings are exact reals. */
module PivotTable {
  import opened Wrappers
  import opened Sequences

  datatype Rating = Rating(user: int, item: int, score: real)

  predicate Increasing(s: seq<int>) {
    forall i, j | 0 <= i < j < |s| :: s[i] < s[j]
  }

  /** A pivot: row index `users`, column index `items`, one cell per (user, item). */
  datatype Pivot = Pivot(users: seq<int>, items: seq<int>, cells: seq<seq<Option<real>>>) {

    /** pandas keeps both indexes sorted and unique, and the matrix rectangular. */
    predicate Valid() {
      && Increasing(users)
      && Increasing(items)
      && |cells| == |users|
      && (forall i | 0 <= i < |cells| :: |cells[i]| == |items|)
    }

    /** `pivot.loc[u]`: the row of user `u`. */
    function RowOf(u: int): (row: seq<Option<real>>)
      requires Valid() && u in users
      ensures |row| == |items|
    {
      cells[FirstIndex(users, u)]
    }

    /** `pivot.loc[u, x]`. */
    function Cell(u: int, x: int): Option<real>
      requires Valid() && u in users && x in items
    {
      RowOf(u)[FirstIndex(items, x)]
    }
  }

  lemma IncreasingIsDistinct(s: seq<int>)
    requires Increasing(s)
    ensures NoDuplicates(s)
  {}

  /** The tail of an increasing list is increasing and lies strictly above its head. */
  lemma TailAboveHead(s: seq<int>)
    requires Increasing(s) && s != []
    ensures Increasing(s[1..])
    ensures forall y | y in s :: y == s[0] || y in s[1..]
    ensures forall y | y in s[1..] :: y in s && s[0] < y
  {
    forall y | y in s[1..] ensures s[0] < y {
      var k :| 0 <= k < |s[1..]| && s[1..][k] == y;
      assert s[k + 1] == y;
    }
    forall y | y in s ensures y == s[0] || y in s[1..] {
      var k :| 0 <= k < |s| && s[k] == y;
      assert k == 0 || s[1..][k - 1] == y;
    }
  }

  /** A value below every element of an increasing list can go in front of it. */
  lemma ConsIncreasing(x: int, s: seq<int>)
    requires Increasing(s) && forall y | y in s :: x < y
    ensures Increasing([x] + s)
  {
    var r := [x] + s;
    forall i, j | 0 <= i < j < |r| ensures r[i] < r[j] {
      assert r[j] == s[j - 1] && s[j - 1] in s;
      if i > 0 {
        assert r[i] == s[i - 1];
      }
    }
  }

  /** Adds `x` to an increasing list, keeping it increasing and free of repeats. */
  function Insert(s: seq<int>, x: int): (r: seq<int>)
    requires Increasing(s)
    ensures Increasing(r)
    ensures forall y | y in r :: y in s || y == x
    ensures x in r && forall y | y in s :: y in r
  {
    if s == [] then [x]
    else if x == s[0] then s
    else
      TailAboveHead(s);
      if x < s[0] then
        ConsIncreasing(x, s);
        [x] + s
      else
        var rest := Insert(s[1..], x);
        ConsIncreasing(s[0], rest);
        [s[0]] + rest
  }

  /** The distinct values of `xs`, ascending. */
  function SortedDistinct(xs: seq<int>): (r: seq<int>)
    ensures Increasing(r)
    ensures forall y | y in r :: y in xs
    ensures forall y | y in xs :: y in r
  {
    if xs == [] then []
    else
      var r := Insert(SortedDistinct(xs[..|xs| - 1]), xs[|xs| - 1]);
      assert xs == xs[..|xs| - 1] + [xs[|xs| - 1]];
      r
  }

  /** Two increasing lists with the same elements start with the same element. */
  lemma HeadsAgree(a: seq<int>, b: seq<int>)
    requires Increasing(a) && Increasing(b) && a != [] && b != []
    requires forall y | y in a :: y in b
    requires forall y | y in b :: y in a
    ensures a[0] == b[0]
  {
    assert a[0] in a && b[0] in b;
    var ka :| 0 <= ka < |a| && a[ka] == b[0];
    var kb :| 0 <= kb < |b| && b[kb] == a[0];
    assert a[0] <= a[ka] && b[0] <= b[kb];
  }

  /** Past a common head, the rest of an increasing list lies in the rest of the other. */
  lemma TailIncluded(a: seq<int>, b: seq<int>)
    requires Increasing(a) && Increasing(b) && a != [] && b != [] && a[0] == b[0]
    requires forall y | y in a :: y in b
    ensures forall y | y in a[1..] :: y in b[1..]
  {
    forall y | y in a[1..] ensures y in b[1..] {
      var k :| 0 <= k < |a[1..]| && a[1..][k] == y;
      assert a[k + 1] == y && a[0] < y && y in a && y in b;
      var m :| 0 <= m < |b| && b[m] == y;
      assert m != 0 && b[1..][m - 1] == y;
    }
  }

  /** Lists with the same elements are empty together. */
  lemma EmptyTogether(a: seq<int>, b: seq<int>)
    requires forall y | y in a :: y in b
    requires forall y | y in b :: y in a
    ensures a == [] <==> b == []
  {
    if a != [] {
      var y := a[0];
      assert y in a;
      assert y in b;
    }
    if b != [] {
      var y := b[0];
      assert y in b;
      assert y in a;
    }
  }

  /** An increasing list is determined by its elements: the pivot axes are THE sorted
      distinct ids, not merely some ordering of them. */
  lemma {:induction false} IncreasingUnique(a: seq<int>, b: seq<int>)
    requires Increasing(a) && Increasing(b)
    requires forall y | y in a :: y in b
    requires forall y | y in b :: y in a
    ensures a == b
  {
    EmptyTogether(a, b);
    if a != [] {
      HeadsAgree(a, b);
      TailIncluded(a, b);
      TailIncluded(b, a);
      IncreasingUnique(a[1..], b[1..]);
      assert a == [a[0]] + a[1..] && b == [b[0]] + b[1..];
    }
  }

  function UserColumn(rs: seq<Rating>): (us: seq<int>)
    ensures |us| == |rs| && forall k | 0 <= k < |rs| :: us[k] == rs[k].user
  {
    seq(|rs|, k requires 0 <= k < |rs| => rs[k].user)
  }

  function ItemColumn(rs: seq<Rating>): (xs: seq<int>)
    ensures |xs| == |rs| && forall k | 0 <= k < |rs| :: xs[k] == rs[k].item
  {
    seq(|rs|, k requires 0 <= k < |rs| => rs[k].item)
  }

  /** The ratings recorded for the pair (u, x), in input order. */
  function Matching(rs: seq<Rating>, u: int, x: int): (vs: seq<real>)
    ensures forall v | v in vs :: Rating(u, x, v) in rs
    ensures forall r | r in rs && r.user == u && r.item == x :: r.score in vs
  {
    if rs == [] then []
    else
      var rs', r := rs[..|rs| - 1], rs[|rs| - 1];
      assert rs == rs' + [r];
      Matching(rs', u, x) + (if r.user == u && r.item == x then [r.score] else [])
  }

  /** Matching distributes over concatenation of rating tables. */
  lemma {:induction false} MatchingAppend(a: seq<Rating>, b: seq<Rating>, u: int, x: int)
    ensures Matching(a + b, u, x) == Matching(a, u, x) + Matching(b, u, x)
  {
    if b != [] {
      var b', r := b[..|b| - 1], b[|b| - 1];
      assert (a + b)[..|a + b| - 1] == a + b' && (a + b)[|a + b| - 1] == r;
      assert b == b' + [r];
      MatchingAppend(a, b', u, x);
    } else {
      assert a + b == a;
    }
  }

  /** When exactly one record is for the pair (u, x), its rating is all that is matched. */
  lemma {:induction false} MatchingSingle(rs: seq<Rating>, k: nat, u: int, x: int)
    requires k < |rs| && rs[k].user == u && rs[k].item == x
    requires forall j | 0 <= j < |rs| && j != k :: !(rs[j].user == u && rs[j].item == x)
    ensures Matching(rs, u, x) == [rs[k].score]
  {
    var rs', r := rs[..|rs| - 1], rs[|rs| - 1];
    if k == |rs| - 1 {
      assert forall r' | r' in rs' :: !(r'.user == u && r'.item == x) by {
        forall r' | r' in rs' ensures !(r'.user == u && r'.item == x) {
          var j :| 0 <= j < |rs'| && rs'[j] == r';
          assert rs[j] == r';
        }
      }
      MatchingEmptyIff(rs', u, x);
    } else {
      assert forall j | 0 <= j < |rs'| && j != k :: rs'[j] == rs[j];
      MatchingSingle(rs', k, u, x);
    }
  }

  function Sum(vs: seq<real>): real {
    if vs == [] then 0.0 else Sum(vs[..|vs| - 1]) + vs[|vs| - 1]
  }

  /** `aggfunc="mean"`: absent for no ratings, else the arithmetic mean. */
  function Mean(vs: seq<real>): (m: Option<real>)
    ensures m.None? <==> vs == []
    ensures m.Some? ==> m.value * |vs| as real == Sum(vs)
  {
    if vs == [] then None else Some(Sum(vs) / |vs| as real)
  }

  /** `ratings_df.pivot_table(index="User_ID", columns="Item_ID", values="Rating", aggfunc="mean")`. */
  function BuildPivot(rs: seq<Rating>): (p: Pivot)
    ensures p.Valid()
  {
    var users := SortedDistinct(UserColumn(rs));
    var items := SortedDistinct(ItemColumn(rs));
    Pivot(users, items, MeanTable(rs, users, items))
  }

  /** One mean per (user, item) pair of the two axes. */
  function MeanTable(rs: seq<Rating>, users: seq<int>, items: seq<int>): (m: seq<seq<Option<real>>>)
    ensures |m| == |users|
    ensures forall i | 0 <= i < |users| :: |m[i]| == |items|
    ensures forall i, j | 0 <= i < |users| && 0 <= j < |items| :: m[i][j] == Mean(Matching(rs, users[i], items[j]))
  {
    seq(|users|, i requires 0 <= i < |users| =>
      seq(|items|, j requires 0 <= j < |items| => Mean(Matching(rs, users[i], items[j]))))
  }

  lemma UserColumnIds(rs: seq<Rating>)
    ensures forall r | r in rs :: r.user in UserColumn(rs)
    ensures forall u | u in UserColumn(rs) :: exists r | r in rs :: r.user == u
  {
    var us := UserColumn(rs);
    forall r | r in rs ensures r.user in us {
      var k :| 0 <= k < |rs| && rs[k] == r;
      assert us[k] == r.user;
    }
    forall u | u in us ensures exists r | r in rs :: r.user == u {
      var k :| 0 <= k < |us| && us[k] == u;
      assert rs[k] in rs;
    }
  }

  lemma ItemColumnIds(rs: seq<Rating>)
    ensures forall r | r in rs :: r.item in ItemColumn(rs)
    ensures forall x | x in ItemColumn(rs) :: exists r | r in rs :: r.item == x
  {
    var xs := ItemColumn(rs);
    forall r | r in rs ensures r.item in xs {
      var k :| 0 <= k < |rs| && rs[k] == r;
      assert xs[k] == r.item;
    }
    forall x | x in xs ensures exists r | r in rs :: r.item == x {
      var k :| 0 <= k < |xs| && xs[k] == x;
      assert rs[k] in rs;
    }
  }

  /** The pivot's row index is increasing and holds exactly the user ids that occur
      in the ratings. */
  lemma PivotUsers(rs: seq<Rating>)
    ensures Increasing(BuildPivot(rs).users)
    ensures forall r | r in rs :: r.user in BuildPivot(rs).users
    ensures forall u | u in BuildPivot(rs).users :: exists r | r in rs :: r.user == u
  {
    var us := UserColumn(rs);
    var users := BuildPivot(rs).users;
    assert users == SortedDistinct(us);
    UserColumnIds(rs);
    forall u | u in users ensures exists r | r in rs :: r.user == u {
      assert u in us;
    }
  }

  /** The pivot's column index is increasing and holds exactly the item ids that occur
      in the ratings. */
  lemma PivotItems(rs: seq<Rating>)
    ensures Increasing(BuildPivot(rs).items)
    ensures forall r | r in rs :: r.item in BuildPivot(rs).items
    ensures forall x | x in BuildPivot(rs).items :: exists r | r in rs :: r.item == x
  {
    var xs := ItemColumn(rs);
    var items := BuildPivot(rs).items;
    assert items == SortedDistinct(xs);
    ItemColumnIds(rs);
    forall x | x in items ensures exists r | r in rs :: r.item == x {
      assert x in xs;
    }
  }

  /** Sum bounds: every value within [lo, hi] puts the sum within [n*lo, n*hi]. */
  lemma {:induction false} SumBounds(vs: seq<real>, lo: real, hi: real)
    requires forall v | v in vs :: lo <= v <= hi
    ensures |vs| as real * lo <= Sum(vs) <= |vs| as real * hi
  {
    if vs != [] {
      var vs' := vs[..|vs| - 1];
      assert forall v | v in vs' :: v in vs;
      SumBounds(vs', lo, hi);
      assert vs[|vs| - 1] in vs;
    }
  }

  /** A mean lies between the smallest and the largest value averaged. */
  lemma MeanBounds(vs: seq<real>, lo: real, hi: real)
    requires vs != []
    requires forall v | v in vs :: lo <= v <= hi
    ensures Mean(vs).Some? && lo <= Mean(vs).value <= hi
  {
    SumBounds(vs, lo, hi);
    var n := |vs| as real;
    var m := Sum(vs) / n;
    assert m * n == Sum(vs);
    assert (m - lo) * n >= 0.0;
    assert (hi - m) * n >= 0.0;
  }

  /** The cell of a pivot user and item is absent exactly when no rating was recorded
      for that pair; otherwise it is the mean of the recorded ratings. */
  lemma PivotCellAbsentIff(rs: seq<Rating>, u: int, x: int)
    requires u in BuildPivot(rs).users && x in BuildPivot(rs).items
    ensures BuildPivot(rs).Cell(u, x) == Mean(Matching(rs, u, x))
    ensures BuildPivot(rs).Cell(u, x).None? <==> forall r | r in rs :: !(r.user == u && r.item == x)
  {
    var p := BuildPivot(rs);
    var i, j := FirstIndex(p.users, u), FirstIndex(p.items, x);
    assert p.Cell(u, x) == p.cells[i][j] == Mean(Matching(rs, p.users[i], p.items[j]));
    MatchingEmptyIff(rs, u, x);
  }

  lemma MatchingEmptyIff(rs: seq<Rating>, u: int, x: int)
    ensures Matching(rs, u, x) == [] <==> forall r | r in rs :: !(r.user == u && r.item == x)
  {
    var vs := Matching(rs, u, x);
    if vs != [] {
      assert vs[0] in vs;
      assert Rating(u, x, vs[0]) in rs;
    }
  }

  /** Averaging duplicates: a present cell lies between the least and the greatest
      rating recorded for its pair (so a pair rated once holds exactly that rating). */
  lemma PivotCellBounds(rs: seq<Rating>, u: int, x: int, lo: real, hi: real)
    requires Rating(u, x, lo) in rs
    requires forall r | r in rs && r.user == u && r.item == x :: lo <= r.score <= hi
    ensures u in BuildPivot(rs).users && x in BuildPivot(rs).items
    ensures BuildPivot(rs).Cell(u, x).Some?
    ensures lo <= BuildPivot(rs).Cell(u, x).value <= hi
  {
    var p := BuildPivot(rs);
    assert u in p.users by { PivotUsers(rs); }
    assert x in p.items by { PivotItems(rs); }
    var vs := Matching(rs, u, x);
    assert p.Cell(u, x) == Mean(vs) by { PivotCellAbsentIff(rs, u, x); }
    assert lo in vs;
    MeanBounds(vs, lo, hi);
  }
}
