/**
 * The gallery of the landing page: a fixed catalog of images, a category
 * filter that decides which tiles are rendered, and a lightbox that remembers
 * the list it was opened on and steps through it circularly.
 *
 * The page keeps this state in closure variables and in the DOM (which filter
 * button carries the `active` class, which image the lightbox shows); here it
 * is one immutable record and every handler is a pure transition.
 */
module Gallery {
  import opened JsNumbers

  /** One entry of the catalog; `category` is matched against a filter button's `data-filter`. */
  datatype ImageRecord = ImageRecord(src: string, category: string, title: string)

  /** The filter value that keeps every image. */
  const AllFilter: string := "all"

  /** The fixed catalog, in page order. */
  const Catalog: seq<ImageRecord> := [
    ImageRecord("https://images.unsplash.com/photo-1584345604476-8ec5e12e42dd?q=80&w=1000", "exterior", "Front View"),
    ImageRecord("https://images.unsplash.com/photo-1583121274602-3e2820c69888?q=80&w=1000", "exterior", "Side Profile"),
    ImageRecord("https://images.unsplash.com/photo-1581650107963-3e8c1f48241b?q=80&w=1000", "exterior", "Rear Angle"),
    ImageRecord("https://images.unsplash.com/photo-1494905998402-395d579af36f?q=80&w=1000", "interior", "Dashboard"),
    ImageRecord("https://images.unsplash.com/photo-1547245324-ae59aefc4011?q=80&w=1000", "details", "Taillight Detail"),
    ImageRecord("https://images.unsplash.com/photo-1611016186353-9af58c69a533?q=80&w=1000", "details", "Wheel & Brake"),
    ImageRecord("https://images.unsplash.com/photo-1503376780353-7e6692767b70?q=80&w=1000", "interior", "Steering Wheel"),
    ImageRecord("https://images.unsplash.com/photo-1542362567-b07e54358753?q=80&w=1000", "exterior", "Night Shot"),
    ImageRecord("https://images.unsplash.com/photo-1618843479313-40f8afb4b4d8?q=80&w=1000", "details", "Engine Bay")
  ]

  // ---------------------------------------------------------------------
  // Filtering

  /** The predicate shared by the grid renderer and the lightbox. */
  predicate Keeps(filter: string, img: ImageRecord) {
    filter == AllFilter || img.category == filter
  }

  /** The images a filter keeps, in their original order. */
  function Filter(images: seq<ImageRecord>, filter: string): (r: seq<ImageRecord>)
    ensures |r| <= |images|
    ensures forall x :: x in r <==> x in images && Keeps(filter, x)
  {
    if images == [] then []
    else if Keeps(filter, images[0]) then [images[0]] + Filter(images[1..], filter)
    else Filter(images[1..], filter)
  }

  /** `a` can be obtained from `b` by deleting elements, without reordering. */
  predicate IsSubsequence<T(==)>(a: seq<T>, b: seq<T>)
    decreases |b|
  {
    if a == [] then true
    else if b == [] then false
    else if a[0] == b[0] then IsSubsequence(a[1..], b[1..])
    else IsSubsequence(a, b[1..])
  }

  /** The 'all' filter keeps the catalog as it is. */
  lemma {:induction false} FilterAll(images: seq<ImageRecord>)
    ensures Filter(images, AllFilter) == images
  {
    if images != [] {
      FilterAll(images[1..]);
      assert images == [images[0]] + images[1..];
    }
  }

  /** Filtering preserves order: the result is a subsequence of the input. */
  lemma {:induction false} FilterIsSubsequence(images: seq<ImageRecord>, filter: string)
    ensures IsSubsequence(Filter(images, filter), images)
  {
    if images != [] {
      FilterIsSubsequence(images[1..], filter);
      var r := Filter(images, filter);
      if Keeps(filter, images[0]) {
        assert r[0] == images[0] && r[1..] == Filter(images[1..], filter);
      }
    }
  }

  /** Filtering keeps every occurrence of a kept image and no occurrence of any other. */
  lemma {:induction false} FilterCounts(images: seq<ImageRecord>, filter: string, x: ImageRecord)
    ensures multiset(Filter(images, filter))[x] == if Keeps(filter, x) then multiset(images)[x] else 0
  {
    if images != [] {
      FilterCounts(images[1..], filter, x);
      assert images == [images[0]] + images[1..];
      assert multiset(images) == multiset([images[0]]) + multiset(images[1..]);
      if Keeps(filter, images[0]) {
        var rest := Filter(images[1..], filter);
        assert multiset([images[0]] + rest) == multiset([images[0]]) + multiset(rest);
      }
    }
  }

  /** Filtering distributes over concatenation. */
  lemma {:induction false} FilterAppend(a: seq<ImageRecord>, b: seq<ImageRecord>, filter: string)
    ensures Filter(a + b, filter) == Filter(a, filter) + Filter(b, filter)
  {
    if a == [] {
      assert a + b == b;
    } else {
      assert (a + b)[0] == a[0];
      assert (a + b)[1..] == a[1..] + b;
      FilterAppend(a[1..], b, filter);
    }
  }

  /**
   * The grid renderer: walks the catalog with `forEach` and appends one tile per
   * kept image. Its result is exactly what the lightbox's `filter` call computes.
   */
  method RenderGrid(images: seq<ImageRecord>, filter: string) returns (tiles: seq<ImageRecord>)
    ensures tiles == Filter(images, filter)
  {
    tiles := [];
    var i := 0;
    while i < |images|
      invariant 0 <= i <= |images|
      invariant tiles == Filter(images[..i], filter)
    {
      FilterAppend(images[..i], [images[i]], filter);
      assert images[..i + 1] == images[..i] + [images[i]];
      if Keeps(filter, images[i]) {
        tiles := tiles + [images[i]];
      }
      i := i + 1;
    }
    assert images[..i] == images;
  }

  // ---------------------------------------------------------------------
  // Locating an image

  /** No two images share a `src`. */
  predicate DistinctSrcs(images: seq<ImageRecord>) {
    forall i, j :: 0 <= i < j < |images| ==> images[i].src != images[j].src
  }

  lemma CatalogDistinct()
    ensures DistinctSrcs(Catalog)
  {
  }

  /** A filtered catalog has distinct sources if the catalog has. */
  lemma {:induction false} FilterKeepsDistinct(images: seq<ImageRecord>, filter: string)
    requires DistinctSrcs(images)
    ensures DistinctSrcs(Filter(images, filter))
  {
    if images != [] {
      var tail := images[1..];
      assert DistinctSrcs(tail) by {
        forall i, j | 0 <= i < j < |tail| ensures tail[i].src != tail[j].src {
          assert tail[i] == images[i + 1] && tail[j] == images[j + 1];
        }
      }
      FilterKeepsDistinct(tail, filter);
      if Keeps(filter, images[0]) {
        var r := Filter(images, filter);
        var rest := Filter(tail, filter);
        assert r == [images[0]] + rest;
        forall j | 0 < j < |r| ensures r[0].src != r[j].src {
          assert r[j] == rest[j - 1];
          assert rest[j - 1] in tail;
          var k :| 0 <= k < |tail| && tail[k] == rest[j - 1];
          assert tail[k] == images[k + 1];
        }
      }
    }
  }

  /** `findIndex` by `src`: the first position holding `src`, or -1 when there is none. */
  function FindIndex(images: seq<ImageRecord>, src: string): (r: int)
    ensures -1 <= r < |images|
    ensures r == -1 <==> forall j :: 0 <= j < |images| ==> images[j].src != src
    ensures r >= 0 ==> images[r].src == src && forall j :: 0 <= j < r ==> images[j].src != src
  {
    if images == [] then -1
    else if images[0].src == src then 0
    else
      var k := FindIndex(images[1..], src);
      if k == -1 then -1 else k + 1
  }

  /** With distinct sources, the position found is the only one holding `src`. */
  lemma FindIndexUnique(images: seq<ImageRecord>, k: int)
    requires DistinctSrcs(images) && 0 <= k < |images|
    ensures FindIndex(images, images[k].src) == k
  {
    var r := FindIndex(images, images[k].src);
    assert r != -1;
  }

  // ---------------------------------------------------------------------
  // Circular index arithmetic

  /** `(i + 1) % n` with JavaScript's `%`. */
  function NextIndex(i: int, n: int): (j: int)
    requires n > 0
    ensures i >= -1 ==> 0 <= j < n && j == (i + 1) % n
  {
    JsRem(i + 1, n)
  }

  /** `(i - 1 + n) % n` with JavaScript's `%`. */
  function PrevIndex(i: int, n: int): (j: int)
    requires n > 0
    ensures i >= -1 ==> 0 <= j < n
    ensures 0 <= i < n ==> i - 1 + n >= 0 && j == (i - 1 + n) % n
  {
    JsRem(i - 1 + n, n)
  }

  /** From the not-found index -1, stepping forward lands on the first image. */
  lemma NextFromNotFound(n: int)
    requires n > 0
    ensures NextIndex(-1, n) == 0
  {
  }

  /** Backward undoes forward and forward undoes backward on valid indices. */
  lemma NextPrevInverse(i: int, n: int)
    requires 0 <= i < n
    ensures PrevIndex(NextIndex(i, n), n) == i
    ensures NextIndex(PrevIndex(i, n), n) == i
  {
    var j := NextIndex(i, n);
    if i + 1 < n {
      ModUnique(i + 1, n, 0, i + 1);
      ModUnique(j - 1 + n, n, 1, i);
    } else {
      ModUnique(i + 1, n, 1, 0);
      ModUnique(j - 1 + n, n, 0, i);
    }
    var p := PrevIndex(i, n);
    if i >= 1 {
      ModUnique(i - 1 + n, n, 1, i - 1);
      ModUnique(p + 1, n, 0, i);
    } else {
      ModUnique(i - 1 + n, n, 0, n - 1);
      ModUnique(p + 1, n, 1, 0);
    }
  }

  /** `k` forward steps. */
  function NextIndexTimes(i: int, n: int, k: nat): (j: int)
    requires n > 0 && i >= -1
    ensures j >= -1
  {
    if k == 0 then i else NextIndex(NextIndexTimes(i, n, k - 1), n)
  }

  /** `k` backward steps. */
  function PrevIndexTimes(i: int, n: int, k: nat): (j: int)
    requires n > 0 && i >= -1
    ensures j >= -1
  {
    if k == 0 then i else PrevIndex(PrevIndexTimes(i, n, k - 1), n)
  }

  lemma {:induction false} NextIndexTimesMod(i: int, n: int, k: nat)
    requires 0 <= i < n
    ensures NextIndexTimes(i, n, k) == (i + k) % n
  {
    if k == 0 {
      ModUnique(i, n, 0, i);
    } else {
      NextIndexTimesMod(i, n, k - 1);
      ModSucc(i + k - 1, n);
    }
  }

  lemma {:induction false} PrevIndexTimesMod(i: int, n: int, k: nat)
    requires 0 <= i < n
    ensures PrevIndexTimes(i, n, k) == (i - k) % n
  {
    if k == 0 {
      ModUnique(i, n, 0, i);
    } else {
      PrevIndexTimesMod(i, n, k - 1);
      ModPred(i - (k - 1), n);
    }
  }

  /** `n` steps in either direction come back to the start. */
  lemma IndexCycle(i: int, n: int)
    requires 0 <= i < n
    ensures NextIndexTimes(i, n, n) == i
    ensures PrevIndexTimes(i, n, n) == i
  {
    NextIndexTimesMod(i, n, n);
    ModUnique(i + n, n, 1, i);
    PrevIndexTimesMod(i, n, n);
    ModUnique(i - n, n, -1, i);
  }

  // ---------------------------------------------------------------------
  // Gallery and lightbox state

  /**
   * `activeFilter` is the `data-filter` of the active filter button; `filtered`
   * and `index` are the lightbox's list and position (`filteredImages`,
   * `currentImageIndex`); `open` says whether the overlay is shown and `shown`
   * is the `src` of the image it displays.
   */
  datatype GalleryState = GalleryState(
    activeFilter: string,
    filtered: seq<ImageRecord>,
    index: int,
    open: bool,
    shown: string)

  /** After page load: every image rendered, lightbox never opened. */
  const Initial: GalleryState := GalleryState(AllFilter, [], 0, false, "")

  /** The tiles currently in the grid. */
  function Grid(s: GalleryState): seq<ImageRecord> {
    Filter(Catalog, s.activeFilter)
  }

  /**
   * What the page keeps true between events: an open lightbox points at a
   * position of its list and displays the image at that position.
   */
  predicate Inv(s: GalleryState) {
    s.open ==> 0 <= s.index < |s.filtered| && s.shown == s.filtered[s.index].src
  }

  /** A click on a filter button: re-render the grid; the lightbox keeps its list and index. */
  function SelectFilter(s: GalleryState, value: string): (r: GalleryState)
    ensures r.activeFilter == value && Grid(r) == Filter(Catalog, value)
    ensures r.filtered == s.filtered && r.index == s.index
    ensures r.open == s.open && r.shown == s.shown
  {
    s.(activeFilter := value)
  }

  /**
   * A click on a tile showing `src`: rebuild the list under the active filter,
   * locate `src` in it (-1 when absent) and show `src`.
   */
  function OpenImage(s: GalleryState, src: string): (r: GalleryState)
    ensures r.filtered == Filter(Catalog, s.activeFilter) && r.activeFilter == s.activeFilter
    ensures r.open && r.shown == src
    ensures -1 <= r.index < |r.filtered|
    ensures r.index == -1 <==> forall j :: 0 <= j < |r.filtered| ==> r.filtered[j].src != src
    ensures r.index >= 0 ==> r.filtered[r.index].src == src
    ensures r.index >= 0 ==> forall j :: 0 <= j < r.index ==> r.filtered[j].src != src
  {
    var filtered := Filter(Catalog, s.activeFilter);
    s.(filtered := filtered, index := FindIndex(filtered, src), open := true, shown := src)
  }

  /** The next-image control. The page throws on an empty list, hence `n > 0`. */
  function Next(s: GalleryState): (r: GalleryState)
    requires |s.filtered| > 0 && s.index >= -1
    ensures 0 <= r.index < |r.filtered| && r.shown == r.filtered[r.index].src
    ensures r.index == (s.index + 1) % |s.filtered|
    ensures r.filtered == s.filtered && r.activeFilter == s.activeFilter && r.open == s.open
  {
    var i := NextIndex(s.index, |s.filtered|);
    s.(index := i, shown := s.filtered[i].src)
  }

  /** The previous-image control. */
  function Prev(s: GalleryState): (r: GalleryState)
    requires |s.filtered| > 0 && s.index >= -1
    ensures 0 <= r.index < |r.filtered| && r.shown == r.filtered[r.index].src
    ensures r.index == (s.index - 1 + |s.filtered|) % |s.filtered|
    ensures r.filtered == s.filtered && r.activeFilter == s.activeFilter && r.open == s.open
  {
    var n := |s.filtered|;
    PrevFromNotFound(n);
    var i := PrevIndex(s.index, n);
    s.(index := i, shown := s.filtered[i].src)
  }

  /** Hiding the overlay forgets nothing: list, index and filter stay as they were. */
  function Close(s: GalleryState): (r: GalleryState)
    ensures !r.open
    ensures r.filtered == s.filtered && r.index == s.index
    ensures r.activeFilter == s.activeFilter && r.shown == s.shown
  {
    s.(open := false)
  }

  // ---------------------------------------------------------------------
  // Events

  /** The user interactions the gallery reacts to. */
  datatype Event =
    | FilterClick(value: string)   // a filter button with this `data-filter`
    | TileClick(position: nat)     // the tile at this position of the grid
    | NextClick                    // the lightbox's next control
    | PrevClick                    // the lightbox's previous control
    | CloseClick                   // the close control, or a click on the backdrop
    | KeyDown(key: string)         // a key press anywhere on the page

  /**
   * One event. The lightbox controls are inside the overlay and can only be
   * clicked while it is shown; keys are ignored unless it is shown; a position
   * past the end of the grid is a tile that does not exist.
   */
  function Step(s: GalleryState, e: Event): (r: GalleryState)
    requires Inv(s)
    ensures Inv(r)
  {
    match e
    case FilterClick(value) => SelectFilter(s, value)
    case TileClick(position) =>
      if position < |Grid(s)| then
        var r := OpenImage(s, Grid(s)[position].src);
        assert r.index != -1 by {
          assert r.filtered[position].src == Grid(s)[position].src;
        }
        r
      else s
    case NextClick => if s.open then Next(s) else s
    case PrevClick => if s.open then Prev(s) else s
    case CloseClick => if s.open then Close(s) else s
    case KeyDown(key) =>
      if !s.open then s
      else if key == "Escape" then Close(s)
      else if key == "ArrowRight" then Next(s)
      else if key == "ArrowLeft" then Prev(s)
      else s
  }

  /** A sequence of events, first to last. */
  function Run(s: GalleryState, events: seq<Event>): (r: GalleryState)
    requires Inv(s)
    ensures Inv(r)
    decreases |events|
  {
    if events == [] then s else Run(Step(s, events[0]), events[1..])
  }

  /** At load the 'all' button is active, every image is in the grid and the lightbox is closed. */
  lemma InitialInv()
    ensures Inv(Initial) && !Initial.open
    ensures Initial.activeFilter == AllFilter && Grid(Initial) == Catalog
  {
    FilterAll(Catalog);
  }

  /** Whatever the user does after page load, an open lightbox shows a valid position. */
  lemma {:induction false} ReachableInv(events: seq<Event>)
    ensures var s := Run(Initial, events);
      s.open ==> 0 <= s.index < |s.filtered| && s.shown == s.filtered[s.index].src
  {
  }

  /** Clicking a tile opens the lightbox on exactly that tile's position in the grid. */
  lemma TileClickOpensTile(s: GalleryState, position: nat)
    requires Inv(s) && position < |Grid(s)|
    ensures var r := Step(s, TileClick(position));
      r.open && r.filtered == Grid(s) && r.index == position && r.shown == Grid(s)[position].src
  {
    CatalogDistinct();
    FilterKeepsDistinct(Catalog, s.activeFilter);
    FindIndexUnique(Grid(s), position);
  }

  /** Previous undoes next, and next undoes previous, on an open lightbox. */
  lemma NextPrevRestore(s: GalleryState)
    requires Inv(s) && s.open
    ensures Prev(Next(s)) == s
    ensures Next(Prev(s)) == s
  {
    NextPrevInverse(s.index, |s.filtered|);
  }

  /** `k` presses of the next control. */
  function NextTimes(s: GalleryState, k: nat): (r: GalleryState)
    requires |s.filtered| > 0 && s.index >= -1
    ensures r.filtered == s.filtered && r.index >= -1
    ensures r.activeFilter == s.activeFilter && r.open == s.open
    ensures k > 0 ==> 0 <= r.index < |r.filtered| && r.shown == r.filtered[r.index].src
  {
    if k == 0 then s else Next(NextTimes(s, k - 1))
  }

  lemma {:induction false} NextTimesIndex(s: GalleryState, k: nat)
    requires |s.filtered| > 0 && s.index >= -1
    ensures NextTimes(s, k).index == NextIndexTimes(s.index, |s.filtered|, k)
  {
    if k > 0 {
      NextTimesIndex(s, k - 1);
    }
  }

  /** Pressing next once per image brings an open lightbox back to where it started. */
  lemma NextCycle(s: GalleryState)
    requires Inv(s) && s.open
    ensures NextTimes(s, |s.filtered|) == s
  {
    NextTimesIndex(s, |s.filtered|);
    IndexCycle(s.index, |s.filtered|);
  }

  /** `k` presses of the previous control. */
  function PrevTimes(s: GalleryState, k: nat): (r: GalleryState)
    requires |s.filtered| > 0 && s.index >= -1
    ensures r.filtered == s.filtered && r.index >= -1
    ensures r.activeFilter == s.activeFilter && r.open == s.open
    ensures k > 0 ==> 0 <= r.index < |r.filtered| && r.shown == r.filtered[r.index].src
  {
    if k == 0 then s else Prev(PrevTimes(s, k - 1))
  }

  lemma {:induction false} PrevTimesIndex(s: GalleryState, k: nat)
    requires |s.filtered| > 0 && s.index >= -1
    ensures PrevTimes(s, k).index == PrevIndexTimes(s.index, |s.filtered|, k)
  {
    if k > 0 {
      PrevTimesIndex(s, k - 1);
    }
  }

  /** Pressing previous once per image also comes back to the start. */
  lemma PrevCycle(s: GalleryState)
    requires Inv(s) && s.open
    ensures PrevTimes(s, |s.filtered|) == s
  {
    PrevTimesIndex(s, |s.filtered|);
    IndexCycle(s.index, |s.filtered|);
  }

  /** Without the modulus: next moves one place on and wraps from the last image to the first. */
  lemma NextWraps(s: GalleryState)
    requires 0 <= s.index < |s.filtered|
    ensures Next(s).index == if s.index + 1 < |s.filtered| then s.index + 1 else 0
  {
    var n := |s.filtered|;
    if s.index + 1 < n {
      ModUnique(s.index + 1, n, 0, s.index + 1);
    } else {
      ModUnique(s.index + 1, n, 1, 0);
    }
  }

  /** Without the modulus: previous moves one place back and wraps from the first image to the last. */
  lemma PrevWraps(s: GalleryState)
    requires 0 <= s.index < |s.filtered|
    ensures Prev(s).index == if s.index > 0 then s.index - 1 else |s.filtered| - 1
  {
    var n := |s.filtered|;
    if s.index > 0 {
      ModUnique(s.index - 1 + n, n, 1, s.index - 1);
    } else {
      ModUnique(s.index - 1 + n, n, 0, n - 1);
    }
  }

  /**
   * Opening on a `src` the active filter does not keep leaves the index at -1;
   * next then starts from the first image and previous from the second-to-last
   * (the only one when there is just one).
   */
  lemma OpenMissing(s: GalleryState, src: string)
    requires forall j :: 0 <= j < |Grid(s)| ==> Grid(s)[j].src != src
    ensures OpenImage(s, src).index == -1
    ensures |Grid(s)| > 0 ==> Next(OpenImage(s, src)).index == 0
    ensures |Grid(s)| > 1 ==> Prev(OpenImage(s, src)).index == |Grid(s)| - 2
    ensures |Grid(s)| == 1 ==> Prev(OpenImage(s, src)).index == 0
  {
    var o := OpenImage(s, src);
    assert o.filtered == Grid(s);
    var n := |o.filtered|;
    if n > 0 {
      NextFromNotFound(n);
      PrevFromNotFound(n);
    }
  }

  /** From the not-found index -1, stepping back lands on the second-to-last image (the only one when n = 1). */
  lemma PrevFromNotFound(n: int)
    requires n > 0
    ensures PrevIndex(-1, n) == if n > 1 then n - 2 else 0
    ensures PrevIndex(-1, n) == (-1 - 1 + n) % n
  {
    if n > 1 {
      ModUnique(n - 2, n, 0, n - 2);
    } else {
      ModUnique(-1, 1, -1, 0);
    }
  }

  /**
   * The exterior shots of the catalog, in page order. Stated for any `c` with
   * the catalog's categories rather than for `Catalog` itself, so the solver
   * does not evaluate the filter over the literal records.
   */
  lemma ExteriorImages(c: seq<ImageRecord>)
    requires CatalogCategories(c)
    ensures var r := Filter(c, "exterior");
      |r| == 4 && r[0] == c[0] && r[1] == c[1] && r[2] == c[2] && r[3] == c[7]
  {
    var f := "exterior";
    ExteriorImagesFromThree(c);
    var tail := [c[7]];
    FilterStep(c, 2, f);
    FilterStep(c, 1, f);
    FilterStep(c, 0, f);
    assert c[0..] == c;
    assert Filter(c, f) == [c[0]] + ([c[1]] + ([c[2]] + tail));
  }

  /** The categories of the catalog, position by position. */
  predicate CatalogCategories(c: seq<ImageRecord>) {
    && |c| == 9
    && c[0].category == "exterior" && c[1].category == "exterior" && c[2].category == "exterior"
    && c[3].category == "interior" && c[4].category == "details" && c[5].category == "details"
    && c[6].category == "interior" && c[7].category == "exterior" && c[8].category == "details"
  }

  /** Past the first three images the catalog holds one more exterior shot. */
  lemma ExteriorImagesFromThree(c: seq<ImageRecord>)
    requires CatalogCategories(c)
    ensures Filter(c[3..], "exterior") == [c[7]]
  {
    var f := "exterior";
    assert f != AllFilter by { assert |f| != |AllFilter|; }
    assert "interior" != f by { assert "interior"[0] != f[0]; }
    assert "details" != f by { assert |"details"| != |f|; }
    assert c[9..] == [];
    FilterStep(c, 8, f);
    FilterStep(c, 7, f);
    FilterStep(c, 6, f);
    FilterStep(c, 5, f);
    FilterStep(c, 4, f);
    FilterStep(c, 3, f);
  }

  /** One unfolding of `Filter`, at position `k` of `images`. */
  lemma FilterStep(images: seq<ImageRecord>, k: nat, filter: string)
    requires k < |images|
    ensures Filter(images[k..], filter) == (if Keeps(filter, images[k]) then [images[k]] else []) + Filter(images[k + 1..], filter)
  {
    assert images[k..][0] == images[k] && images[k..][1..] == images[k + 1..];
  }

  /**
   * With the exterior filter active, clicking the second tile opens "Side
   * Profile"; next shows "Rear Angle", then "Night Shot", then wraps to
   * "Front View".
   */
  lemma ExteriorWalk(s: GalleryState)
    requires Inv(s) && s.activeFilter == "exterior"
    ensures var r := Step(s, TileClick(1));
      && r.open && |r.filtered| == 4
      && r.shown == Catalog[1].src && Catalog[1].title == "Side Profile"
      && Next(r).shown == Catalog[2].src && Catalog[2].title == "Rear Angle"
      && Next(Next(r)).shown == Catalog[7].src && Catalog[7].title == "Night Shot"
      && Next(Next(Next(r))).shown == Catalog[0].src && Catalog[0].title == "Front View"
  {
    assert CatalogCategories(Catalog);
    ExteriorImages(Catalog);
    TileClickOpensTile(s, 1);
    var r := Step(s, TileClick(1));
    assert r.index == 1;
    assert Next(r).index == 2;
    assert Next(Next(r)).index == 3;
    assert Next(Next(Next(r))).index == 0;
  }
}
