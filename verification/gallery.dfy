/** The item gallery of the web front end: the demo image chosen for an item, the
    de-duplication of the items to show, and their placement on a grid of cards. */
module Gallery {
  import opened Wrappers
  import opened Sequences

  type Url = string

  /** The picture shown when an item's category has none of its own. */
  const FallbackUrl: Url := "https://images.unsplash.com/photo-1490111718993-d98654ce6cf7?w=800"

  /** Two demo pictures per clothing category. */
  const CategoryImageUrls: map<string, seq<Url>> := map[
    "Shirt" := [
      "https://images.unsplash.com/photo-1520975922284-7b683fe724d3?w=800",
      "https://images.unsplash.com/photo-1602810318383-9e6f9fdb57fd?w=800"],
    "Pants" := [
      "https://images.unsplash.com/photo-1541099649105-f69ad21f3246?w=800",
      "https://images.unsplash.com/photo-1542272604-787c3835535d?w=800"],
    "Shoes" := [
      "https://images.unsplash.com/photo-1528701800489-20be3c2ea41f?w=800",
      "https://images.unsplash.com/photo-1519741497674-611481863552?w=800"],
    "Jacket" := [
      "https://images.unsplash.com/photo-1520975594081-6f2aeb4b90b1?w=800",
      "https://images.unsplash.com/photo-1539533018447-63fcce2678e3?w=800"],
    "Hat" := [
      "https://images.unsplash.com/photo-1521572267360-ee0c2909d518?w=800",
      "https://images.unsplash.com/photo-1520974735194-6d78e08c6c5d?w=800"],
    "Gloves" := [
      "https://images.unsplash.com/photo-1516642499105-492ff3ac521e?w=800",
      "https://images.unsplash.com/photo-1546869956-37a7f2d2bc45?w=800"],
    "Sweater" := [
      "https://images.unsplash.com/photo-1512436991641-6745cdb1723f?w=800",
      "https://images.unsplash.com/photo-1548372293-0c8f6d5f3d7d?w=800"],
    "Dress" := [
      "https://images.unsplash.com/photo-1445205170230-053b83016050?w=800",
      "https://images.unsplash.com/photo-1490481651871-ab68de25d43d?w=800"],
    "Scarf" := [
      "https://images.unsplash.com/photo-1519689680058-324335c77eba?w=800",
      "https://images.unsplash.com/photo-1516826957135-700dedea698c?w=800"],
    "Boots" := [
      "https://images.unsplash.com/photo-1525966222134-fcfa99b8ae77?w=800",
      "https://images.unsplash.com/photo-1542314831-068cd1dbfeeb?w=800"]
  ]

  /** The pictures a catalog holds for a category; a missing or empty category has none. */
  function PicturesFor(catalog: map<string, seq<Url>>, category: Option<string>): (urls: seq<Url>)
    ensures category.None? || category.value == [] ==> urls == []
    ensures category.Some? && category.value != [] && category.value in catalog ==> urls == catalog[category.value]
    ensures category.Some? && category.value !in catalog ==> urls == []
  {
    match category
    case None => []
    case Some(c) => if c == [] || c !in catalog then [] else catalog[c]
  }

  /** `_item_image_url` over a given catalog: the fallback without a usable category,
      the category's first picture without an item id, otherwise the picture whose
      position is the id modulo the number of pictures (Python's `%`, which for a
      positive divisor agrees with Dafny's: never negative). */
  function ImageUrlIn(catalog: map<string, seq<Url>>, itemId: Option<int>, category: Option<string>): (url: Url)
    ensures PicturesFor(catalog, category) == [] ==> url == FallbackUrl
    ensures PicturesFor(catalog, category) != [] ==> url in PicturesFor(catalog, category)
    ensures PicturesFor(catalog, category) != [] && itemId.None? ==> url == PicturesFor(catalog, category)[0]
  {
    if category.None? || category.value == [] then FallbackUrl
    else if category.value !in catalog || catalog[category.value] == [] then FallbackUrl
    else
      var urls := catalog[category.value];
      if itemId.None? then urls[0] else urls[itemId.value % |urls|]
  }

  /** The picture of an item, from the built-in category pictures. */
  function ItemImageUrl(itemId: Option<int>, category: Option<string>): (url: Url)
    ensures url == ImageUrlIn(CategoryImageUrls, itemId, category)
    ensures url == FallbackUrl || exists c | c in CategoryImageUrls :: url in CategoryImageUrls[c]
    ensures category.Some? && category.value in CategoryImageUrls ==> url in CategoryImageUrls[category.value]
  {
    var url := ImageUrlIn(CategoryImageUrls, itemId, category);
    assert PicturesFor(CategoryImageUrls, category) != [] ==> category.value in CategoryImageUrls;
    url
  }

  /** Ids that are a whole number of cycles apart get the same picture: the pick
      repeats with period equal to the number of pictures, for negative ids too. */
  lemma ImageUrlPeriodic(catalog: map<string, seq<Url>>, id: int, category: Option<string>, cycles: int)
    requires PicturesFor(catalog, category) != []
    ensures var n := |PicturesFor(catalog, category)|;
      ImageUrlIn(catalog, Some(id + cycles * n), category) == ImageUrlIn(catalog, Some(id), category)
  {
    var n := |PicturesFor(catalog, category)|;
    var q, m := id / n, id % n;
    assert id == q * n + m;
    assert id + cycles * n == (q + cycles) * n + m;
    assert (id + cycles * n) % n == m by {
      PeriodicMod(q + cycles, n, m);
    }
  }

  /** The unique decomposition behind `%`: with 0 <= m < n, (q * n + m) % n == m. */
  lemma PeriodicMod(q: int, n: int, m: int)
    requires 0 <= m < n
    ensures (q * n + m) % n == m && (q * n + m) / n == q
  {
    var a := q * n + m;
    var q', m' := a / n, a % n;
    assert a == q' * n + m' && 0 <= m' < n;
    assert (q - q') * n == m' - m;
    MulSign(q - q', n);
  }

  lemma MulSign(d: int, n: int)
    requires n > 0
    ensures d >= 1 ==> d * n >= n
    ensures d <= -1 ==> d * n <= -n
  {}

  /** The ids 0 .. n-1 pick the n pictures in their listed order. */
  lemma ImageUrlSmallIds(catalog: map<string, seq<Url>>, id: int, category: Option<string>)
    requires 0 <= id < |PicturesFor(catalog, category)|
    ensures ImageUrlIn(catalog, Some(id), category) == PicturesFor(catalog, category)[id]
  {
    PeriodicMod(0, |PicturesFor(catalog, category)|, id);
  }

  /** Every category of the built-in catalog has two pictures, so odd ids get the
      second one, negative ids included: item -1 of a shirt shows the second shirt picture. */
  lemma ShirtPictures()
    ensures ItemImageUrl(Some(-1), Some("Shirt")) == CategoryImageUrls["Shirt"][1]
    ensures ItemImageUrl(Some(4), Some("Shirt")) == CategoryImageUrls["Shirt"][0]
    ensures ItemImageUrl(None, Some("Shirt")) == CategoryImageUrls["Shirt"][0]
    ensures ItemImageUrl(Some(4), Some("Robe")) == FallbackUrl
    ensures ItemImageUrl(Some(4), Some("")) == FallbackUrl
  {
    var urls := CategoryImageUrls["Shirt"];
    assert |urls| == 2;
    PeriodicMod(-1, 2, 1);
    PeriodicMod(2, 2, 0);
    assert "Robe" !in CategoryImageUrls;
  }

  /** One row of the item table handed to the gallery. */
  datatype GalleryItem = GalleryItem(itemId: int, category: Option<string>, price: Option<real>)

  /** A card of the grid: its row, its column, the item it shows and that item's picture. */
  datatype Card = Card(row: nat, col: nat, item: GalleryItem, imageUrl: Url)

  /** What the gallery shows: a notice that there is nothing to display, or a grid. */
  datatype Gallery = NoItems | Grid(rowCount: nat, cards: seq<Card>)

  function Ids(items: seq<GalleryItem>): (ids: seq<int>)
    ensures |ids| == |items| && forall k | 0 <= k < |items| :: ids[k] == items[k].itemId
  {
    seq(|items|, k requires 0 <= k < |items| => items[k].itemId)
  }

  /** `drop_duplicates("Item_ID")`: the first record of each item id, in input order. */
  function UniqueItems(items: seq<GalleryItem>): (u: seq<GalleryItem>)
    ensures forall g | g in u :: g in items
    ensures |u| <= |items|
  {
    if items == [] then []
    else
      var prev, g := items[..|items| - 1], items[|items| - 1];
      var u := UniqueItems(prev);
      assert forall h | h in prev :: h in items;
      if g.itemId in Ids(u) then u else u + [g]
  }

  /** The ids kept are the input ids de-duplicated in first-occurrence order. */
  lemma {:induction false} UniqueItemIds(items: seq<GalleryItem>)
    ensures Ids(UniqueItems(items)) == Dedup(Ids(items))
  {
    if items != [] {
      var prev, g := items[..|items| - 1], items[|items| - 1];
      UniqueItemIds(prev);
      var ids := Ids(items);
      assert ids[..|ids| - 1] == Ids(prev) && ids[|ids| - 1] == g.itemId;
      var u := UniqueItems(prev);
      assert UniqueItems(items) == if g.itemId in Ids(u) then u else u + [g];
      assert Dedup(ids) == if g.itemId in Ids(u) then Ids(u) else Ids(u) + [g.itemId];
      assert Ids(u + [g]) == Ids(u) + [g.itemId];
    }
  }

  lemma FirstIndexOfNew<T>(s: seq<T>, x: T)
    requires x !in s
    ensures FirstIndex(s + [x], x) == |s|
  {
    assert forall j | 0 <= j < |s| :: (s + [x])[j] == s[j];
  }

  /** Each kept record is the first input record carrying its item id. */
  lemma {:induction false} UniqueKeepsFirst(items: seq<GalleryItem>)
    ensures var u := UniqueItems(items);
      forall k | 0 <= k < |u| :: u[k].itemId in Ids(items) && u[k] == items[FirstIndex(Ids(items), u[k].itemId)]
  {
    if items != [] {
      var prev, g := items[..|items| - 1], items[|items| - 1];
      var u := UniqueItems(prev);
      UniqueKeepsFirst(prev);
      UniqueItemIds(prev);
      var ids := Ids(items);
      assert ids == Ids(prev) + [g.itemId];
      assert forall k | 0 <= k < |prev| :: items[k] == prev[k];
      forall k | 0 <= k < |u|
        ensures u[k].itemId in ids && u[k] == items[FirstIndex(ids, u[k].itemId)]
      {
        FirstIndexAppend(Ids(prev), [g.itemId], u[k].itemId);
      }
      var u' := UniqueItems(items);
      if g.itemId !in Ids(u) {
        assert u' == u + [g];
        assert g.itemId !in Ids(prev);
        FirstIndexOfNew(Ids(prev), g.itemId);
        assert u'[|u|] == g == items[|prev|];
      } else {
        assert u' == u;
      }
    }
  }

  /** The gallery keeps one record per item id: no id twice, none lost, in order. */
  lemma UniqueItemsCharacterised(items: seq<GalleryItem>)
    ensures var ids := Ids(UniqueItems(items));
      && NoDuplicates(ids)
      && (forall x | x in Ids(items) :: x in ids)
      && InFirstOccurrenceOrder(ids, Ids(items))
      && (UniqueItems(items) == [] <==> items == [])
  {
    UniqueItemIds(items);
    DedupOrder(Ids(items));
    if items != [] {
      assert Ids(items)[0] in Ids(items);
    }
  }

  /** `(count + cols - 1) // cols`: the fewest rows of `cols` cards holding `count` cards. */
  function RowCount(count: nat, cols: int): (rows: nat)
    requires cols >= 1
    ensures rows * cols >= count
    ensures rows > 0 ==> (rows - 1) * cols < count
  {
    var q, m := (count + cols - 1) / cols, (count + cols - 1) % cols;
    assert count + cols - 1 == q * cols + m && 0 <= m < cols;
    assert q * cols - cols == (q - 1) * cols;
    q
  }

  /** The card of the idx-th unique item: row idx div cols, column idx mod cols. */
  function Layout(unique: seq<GalleryItem>, cols: int): (cards: seq<Card>)
    requires cols >= 1
    ensures |cards| == |unique|
    ensures forall k | 0 <= k < |cards| :: cards[k].item == unique[k]
    ensures forall k | 0 <= k < |cards| ::
      cards[k].imageUrl == ItemImageUrl(Some(unique[k].itemId), unique[k].category)
  {
    seq(|unique|, k requires 0 <= k < |unique| =>
      Card(k / cols, k % cols, unique[k], ItemImageUrl(Some(unique[k].itemId), unique[k].category)))
  }

  /** The layout puts every unique item on exactly one card, in input order: the k-th
      card shows the k-th item, on the cell numbered k in row-major order. */
  lemma LayoutInOrder(unique: seq<GalleryItem>, cols: int)
    requires cols >= 1
    ensures var cards := Layout(unique, cols);
      && (forall k | 0 <= k < |cards| :: cards[k].item == unique[k])
      && (forall k | 0 <= k < |cards| :: cards[k].imageUrl == ItemImageUrl(Some(unique[k].itemId), unique[k].category))
      && (forall k | 0 <= k < |cards| :: cards[k].col < cols && cards[k].row * cols + cards[k].col == k)
  {
    var cards := Layout(unique, cols);
    forall k | 0 <= k < |cards|
      ensures cards[k].row * cols + cards[k].col == k
    {
      assert k == (k / cols) * cols + k % cols;
    }
  }

  /** The row of index k lies within the grid, and the last index is on the last row. */
  lemma RowBounds(k: nat, count: nat, cols: int)
    requires cols >= 1 && k < count
    ensures k / cols < RowCount(count, cols)
    ensures k == count - 1 ==> k / cols == RowCount(count, cols) - 1
  {
    var rows := RowCount(count, cols);
    var q := k / cols;
    assert q * cols <= k < q * cols + cols;
    MulSign(q - rows + 1, cols);
    MulSign(rows - 1 - q, cols);
    assert (q - rows + 1) * cols == q * cols - rows * cols + cols;
    assert (rows - 1 - q) * cols == rows * cols - cols - q * cols;
  }

  /** Every card lies inside the grid's rows, and the last card is on the last row, so
      no row is left empty. */
  lemma LayoutFillsRows(unique: seq<GalleryItem>, cols: int)
    requires cols >= 1
    ensures var cards := Layout(unique, cols);
      var rows := RowCount(|unique|, cols);
      && (forall k | 0 <= k < |cards| :: cards[k].row < rows)
      && (|cards| > 0 ==> cards[|cards| - 1].row == rows - 1)
  {
    var cards := Layout(unique, cols);
    forall k | 0 <= k < |cards|
      ensures cards[k].row < RowCount(|unique|, cols)
    {
      RowBounds(k, |unique|, cols);
    }
    if |cards| > 0 {
      RowBounds(|cards| - 1, |unique|, cols);
    }
  }

  /** `render_item_gallery` without the page output: the empty table gives the
      "nothing to display" notice; otherwise the unique items are dealt out row by row,
      `colsPerRow` cards a row, a running index `idx` naming the next item, and the
      inner loop stops as soon as the items run out. */
  method RenderItemGallery(items: seq<GalleryItem>, colsPerRow: int) returns (g: Gallery)
    requires colsPerRow >= 1
    ensures items == [] <==> g == NoItems
    ensures g.Grid? ==> g.rowCount == RowCount(|UniqueItems(items)|, colsPerRow)
    ensures g.Grid? ==> g.cards == Layout(UniqueItems(items), colsPerRow)
  {
    if items == [] {
      return NoItems;
    }
    var unique := UniqueItems(items);
    var rows := (|unique| + colsPerRow - 1) / colsPerRow;
    assert rows == RowCount(|unique|, colsPerRow);
    ghost var layout := Layout(unique, colsPerRow);
    var cards: seq<Card> := [];
    var idx := 0;
    var r := 0;
    while r < rows
      invariant 0 <= r <= rows
      invariant idx == Min(r * colsPerRow, |unique|)
      invariant cards == layout[..idx]
    {
      var c := 0;
      while c < colsPerRow
        invariant 0 <= c <= colsPerRow
        invariant idx == Min(r * colsPerRow + c, |unique|)
        invariant cards == layout[..idx]
      {
        if idx >= |unique| {
          break;
        }
        var item := unique[idx];
        assert idx == r * colsPerRow + c;
        PeriodicMod(r, colsPerRow, c);
        assert layout[idx] == Card(r, c, item, ItemImageUrl(Some(item.itemId), item.category));
        assert layout[..idx + 1] == layout[..idx] + [layout[idx]];
        cards := cards + [Card(r, c, item, ItemImageUrl(Some(item.itemId), item.category))];
        idx := idx + 1;
        c := c + 1;
      }
      assert (r + 1) * colsPerRow == r * colsPerRow + colsPerRow;
      r := r + 1;
    }
    UniqueItemsCharacterised(items);
    return Grid(rows, cards);
  }
}
