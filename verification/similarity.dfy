/** `compute_user_similarity` and `compute_item_similarity` (recommender/model.py):
    absent cells become 0, the rows (users) or the transpose's rows (items) go to a
    cosine-similarity routine, and its square result is indexed by the ids of that
    axis. The routine itself is a parameter `cosine`: this module models what
    happens around it, not the arithmetic inside it. */
module Similarity {
  import opened Wrappers
  import opened Sequences
  import opened PivotTable

  /** `pivot.fillna(0)`: absent cells become 0.0, present cells are kept. */
  function FillAbsent(cells: seq<seq<Option<real>>>): (m: seq<seq<real>>)
    ensures |m| == |cells|
    ensures forall i | 0 <= i < |m| :: |m[i]| == |cells[i]|
    ensures forall i, j | 0 <= i < |m| && 0 <= j < |m[i]| ::
      match cells[i][j]
      case None => m[i][j] == 0.0
      case Some(v) => m[i][j] == v
  {
    seq(|cells|, i requires 0 <= i < |cells| =>
      seq(|cells[i]|, j requires 0 <= j < |cells[i]| => cells[i][j].GetOr(0.0)))
  }

  predicate Rectangular<T>(m: seq<seq<T>>, width: nat) {
    forall i | 0 <= i < |m| :: |m[i]| == width
  }

  /** `.T`: row j of the result is column j of `m`; the width is given so that a
      matrix with no rows still has its columns. */
  function Transpose<T>(m: seq<seq<T>>, width: nat): (t: seq<seq<T>>)
    requires Rectangular(m, width)
    ensures |t| == width && Rectangular(t, |m|)
    ensures forall j, i | 0 <= j < width && 0 <= i < |m| :: t[j][i] == m[i][j]
  {
    seq(width, j requires 0 <= j < width => seq(|m|, i requires 0 <= i < |m| => m[i][j]))
  }

  /** Transposing twice gives the matrix back. */
  lemma TransposeTwice<T>(m: seq<seq<T>>, width: nat)
    requires Rectangular(m, width)
    ensures Transpose(Transpose(m, width), |m|) == m
  {
    var tt := Transpose(Transpose(m, width), |m|);
    forall i | 0 <= i < |m| ensures tt[i] == m[i] {
      assert |tt[i]| == |m[i]|;
      forall j | 0 <= j < width ensures tt[i][j] == m[i][j] {}
    }
  }

  /** Filling and transposing commute: `pivot.fillna(0).T` is `pivot.T.fillna(0)`. */
  lemma FillTransposeCommute(cells: seq<seq<Option<real>>>, width: nat)
    requires Rectangular(cells, width)
    ensures Transpose(FillAbsent(cells), width) == FillAbsent(Transpose(cells, width))
  {
    var a := Transpose(FillAbsent(cells), width);
    var b := FillAbsent(Transpose(cells, width));
    forall j | 0 <= j < width ensures a[j] == b[j] {
      assert |a[j]| == |b[j]|;
      forall i | 0 <= i < |cells| ensures a[j][i] == b[j][i] {}
    }
  }

  /** A similarity matrix: a square score table indexed on both axes by `ids`. */
  datatype SimMatrix = SimMatrix(ids: seq<int>, scores: seq<seq<real>>) {

    predicate Valid() {
      && NoDuplicates(ids)
      && |scores| == |ids|
      && Rectangular(scores, |ids|)
    }

    /** `sim_df.loc[a]`: the scores of `a` against every id, in index order. */
    function Row(a: int): (row: seq<real>)
      requires Valid() && a in ids
      ensures |row| == |ids|
    {
      scores[FirstIndex(ids, a)]
    }

    /** `sim_df.loc[a, b]`. */
    function Score(a: int, b: int): real
      requires Valid() && a in ids && b in ids
    {
      Row(a)[FirstIndex(ids, b)]
    }
  }

  /** The routine's result has one row and one column per input row. */
  predicate SquareFor(cosine: seq<seq<real>> -> seq<seq<real>>, m: seq<seq<real>>) {
    |cosine(m)| == |m| && Rectangular(cosine(m), |m|)
  }

  function UserSimilarity(p: Pivot, cosine: seq<seq<real>> -> seq<seq<real>>): (s: SimMatrix)
    requires p.Valid()
    ensures s.ids == p.users
    ensures SquareFor(cosine, FillAbsent(p.cells)) ==> s.Valid()
  {
    IncreasingIsDistinct(p.users);
    SimMatrix(p.users, cosine(FillAbsent(p.cells)))
  }

  function ItemSimilarity(p: Pivot, cosine: seq<seq<real>> -> seq<seq<real>>): (s: SimMatrix)
    requires p.Valid()
    ensures s.ids == p.items
    ensures SquareFor(cosine, Transpose(FillAbsent(p.cells), |p.items|)) ==> s.Valid()
  {
    IncreasingIsDistinct(p.items);
    SimMatrix(p.items, cosine(Transpose(FillAbsent(p.cells), |p.items|)))
  }

  /** The pivot seen from the items' side: items become rows, users columns. */
  function TransposePivot(p: Pivot): (q: Pivot)
    requires p.Valid()
    ensures q.Valid() && q.users == p.items && q.items == p.users
    ensures forall u, x | u in p.users && x in p.items :: q.Cell(x, u) == p.Cell(u, x)
  {
    var q := Pivot(p.items, p.users, Transpose(p.cells, |p.items|));
    assert forall u, x | u in p.users && x in p.items :: q.Cell(x, u) == p.Cell(u, x) by {
      forall u, x | u in p.users && x in p.items ensures q.Cell(x, u) == p.Cell(u, x) {
        var i, j := FirstIndex(p.users, u), FirstIndex(p.items, x);
        assert q.Cell(x, u) == q.cells[j][i];
      }
    }
    q
  }

  /** Item similarity is user similarity computed on the transposed pivot. */
  lemma ItemSimilarityIsTransposedUserSimilarity(p: Pivot, cosine: seq<seq<real>> -> seq<seq<real>>)
    requires p.Valid()
    ensures ItemSimilarity(p, cosine) == UserSimilarity(TransposePivot(p), cosine)
  {
    FillTransposeCommute(p.cells, |p.items|);
  }

  /** When the cosine routine returns a square result, the user similarity is a valid
      matrix indexed by the pivot's user ids and the item similarity one indexed by
      its item ids, and each score is the routine's value at the ids' positions. */
  lemma SimilarityIndexing(p: Pivot, cosine: seq<seq<real>> -> seq<seq<real>>)
    requires p.Valid()
    requires SquareFor(cosine, FillAbsent(p.cells))
    requires SquareFor(cosine, Transpose(FillAbsent(p.cells), |p.items|))
    ensures UserSimilarity(p, cosine).Valid() && UserSimilarity(p, cosine).ids == p.users
    ensures ItemSimilarity(p, cosine).Valid() && ItemSimilarity(p, cosine).ids == p.items
    ensures forall a, b | a in p.users && b in p.users ::
      UserSimilarity(p, cosine).Score(a, b)
        == cosine(FillAbsent(p.cells))[FirstIndex(p.users, a)][FirstIndex(p.users, b)]
  {
    IncreasingIsDistinct(p.users);
    IncreasingIsDistinct(p.items);
  }
}
