/**
 * The state of the product detail page and its three transitions:
 * `showNotFound`, `renderProductDetail` (followed by hiding the loading
 * indicator) as chosen by `loadProduct`, and `changeMainImage` (js/detail.js).
 */
module DetailPage {
  import opened Wrappers
  import opened Catalog
  import opened Gallery

  /**
   * What the page shows: the loading indicator and the not-found placeholder
   * (visible or not), the globals `currentProduct` and `currentImageIndex`,
   * the installed detail view if any, and the document title.
   */
  datatype Page = Page(
    loadingShown: bool,
    notFoundShown: bool,
    current: Option<Product>,
    imageIndex: int,
    view: Option<DetailView>,
    title: string)

  const TitleSuffix: string := " - Artfulito"

  /**
   * The page before `loadProduct` runs: the loading indicator visible, the
   * placeholder hidden, no product and image index 0.
   */
  function Fresh(docTitle: string): Page {
    Page(true, false, None, 0, None, docTitle)
  }

  /** Hide the loading indicator and reveal the placeholder; nothing else changes. */
  function ShowNotFound(pg: Page): (r: Page)
    ensures !r.loadingShown && r.notFoundShown
    ensures r.(loadingShown := pg.loadingShown, notFoundShown := pg.notFoundShown) == pg
  {
    pg.(loadingShown := false, notFoundShown := true)
  }

  /**
   * Install the detail view of `p` and set the title; the indicators and the
   * image index are left alone.
   */
  function RenderDetail(pg: Page, p: Product): (r: Page)
    ensures r.current == Some(p) && r.view == Some(InitialView(p))
    ensures r.title == p.name + TitleSuffix
    ensures r.loadingShown == pg.loadingShown && r.notFoundShown == pg.notFoundShown
    ensures r.imageIndex == pg.imageIndex
  {
    pg.(current := Some(p), view := Some(InitialView(p)), title := p.name + TitleSuffix)
  }

  /** The one page every failure ends in. */
  function NotFoundPage(docTitle: string): Page {
    ShowNotFound(Fresh(docTitle))
  }

  /**
   * The gallery agrees with the selected product: three thumbnails showing its
   * variants, the main image showing the variant at the image index, and
   * exactly that thumbnail active.
   */
  ghost predicate Consistent(pg: Page) {
    && pg.current.Some? && pg.view.Some?
    && 0 <= pg.imageIndex < 3
    && |pg.view.value.thumbs| == 3
    && pg.view.value.mainSrc == Variants(pg.current.value.image)[pg.imageIndex]
    && OnlyActive(pg.view.value.thumbs, pg.imageIndex)
    && forall j :: 0 <= j < 3 ==> pg.view.value.thumbs[j].src == Variants(pg.current.value.image)[j]
  }

  /** `loadProduct` run once on a fresh page whose title is `docTitle`. */
  function LoadProduct(docTitle: string, query: Option<string>, load: Result<Products, LoadError>): (r: Page)
    ensures !r.loadingShown
    ensures r.notFoundShown <==> r.view.None?
    ensures r.current.Some? <==> r.view.Some?
    ensures r.view.Some? <==> Resolve(query, load).Detail?
    ensures r.view.Some? ==>
              r.current == Some(Resolve(query, load).product) && r.view == Some(InitialView(r.current.value))
    ensures r.view.None? ==> r == NotFoundPage(docTitle)
    ensures r.view.Some? ==> Consistent(r) && r.imageIndex == 0
    ensures r.view.Some? ==> r.title == r.current.value.name + TitleSuffix
  {
    match Resolve(query, load)
    case NotFound => ShowNotFound(Fresh(docTitle))
    case Detail(p) => RenderDetail(Fresh(docTitle), p).(loadingShown := false)
  }

  /** A missing or empty id decides the page before the catalog result is looked at. */
  lemma MissingIdIgnoresCatalog(docTitle: string, query: Option<string>,
                                load1: Result<Products, LoadError>, load2: Result<Products, LoadError>)
    requires MissingId(query)
    ensures LoadProduct(docTitle, query, load1) == LoadProduct(docTitle, query, load2) == NotFoundPage(docTitle)
  {
  }

  /** Every way of not finding the product leads to the same page. */
  lemma FailuresCoincide(docTitle: string, q1: Option<string>, l1: Result<Products, LoadError>,
                         q2: Option<string>, l2: Result<Products, LoadError>)
    requires Resolve(q1, l1).NotFound? && Resolve(q2, l2).NotFound?
    ensures LoadProduct(docTitle, q1, l1) == LoadProduct(docTitle, q2, l2)
  {
  }

  /**
   * `changeMainImage(k)`: show variant `k` of the current product as the main
   * image, make thumbnail `k` the only active one, and record `k`.
   */
  function ChangeMainImage(pg: Page, k: int): (r: Page)
    requires pg.current.Some? && pg.view.Some?
    requires 0 <= k < 3 && k < |pg.view.value.thumbs|
    ensures r.view.Some? && r.view.value.mainSrc == Variants(pg.current.value.image)[k]
    ensures |r.view.value.thumbs| == |pg.view.value.thumbs| && OnlyActive(r.view.value.thumbs, k)
    ensures forall j :: 0 <= j < |r.view.value.thumbs| ==>
              r.view.value.thumbs[j].src == pg.view.value.thumbs[j].src
              && r.view.value.thumbs[j].alt == pg.view.value.thumbs[j].alt
    ensures r.imageIndex == k
    ensures r.current == pg.current && r.title == pg.title
    ensures r.loadingShown == pg.loadingShown && r.notFoundShown == pg.notFoundShown
    ensures r.view.value.(mainSrc := pg.view.value.mainSrc, thumbs := pg.view.value.thumbs) == pg.view.value
  {
    var images := Variants(pg.current.value.image);
    var v := pg.view.value;
    pg.(view := Some(v.(mainSrc := images[k], thumbs := Activate(v.thumbs, k))), imageIndex := k)
  }

  /** Selecting a thumbnail keeps the gallery consistent, with exactly one thumbnail active. */
  lemma ChangePreservesConsistent(pg: Page, k: int)
    requires Consistent(pg) && 0 <= k < 3
    ensures Consistent(ChangeMainImage(pg, k))
    ensures ActiveCount(ChangeMainImage(pg, k).view.value.thumbs) == 1
  {
    var r := ChangeMainImage(pg, k);
    OnlyActiveCount(r.view.value.thumbs, k);
  }

  /** A consistent page has exactly one active thumbnail, the one at the image index. */
  lemma ConsistentOneActive(pg: Page)
    requires Consistent(pg)
    ensures ActiveCount(pg.view.value.thumbs) == 1
    ensures pg.view.value.thumbs[pg.imageIndex].active
  {
    OnlyActiveCount(pg.view.value.thumbs, pg.imageIndex);
  }

  /** Clicking the same thumbnail twice changes nothing the second time. */
  lemma ChangeIdempotent(pg: Page, k: int)
    requires pg.current.Some? && pg.view.Some? && 0 <= k < 3 && k < |pg.view.value.thumbs|
    ensures ChangeMainImage(ChangeMainImage(pg, k), k) == ChangeMainImage(pg, k)
  {
    var once := ChangeMainImage(pg, k);
    var twice := ChangeMainImage(once, k);
    assert twice.view.value.thumbs == once.view.value.thumbs;
  }

  /** Only the last click matters: an earlier selection leaves no trace. */
  lemma ChangeLastWins(pg: Page, j: int, k: int)
    requires pg.current.Some? && pg.view.Some?
    requires 0 <= j < 3 && j < |pg.view.value.thumbs| && 0 <= k < 3 && k < |pg.view.value.thumbs|
    ensures ChangeMainImage(ChangeMainImage(pg, j), k) == ChangeMainImage(pg, k)
  {
    var a := ChangeMainImage(ChangeMainImage(pg, j), k);
    var b := ChangeMainImage(pg, k);
    assert a.view.value.thumbs == b.view.value.thumbs;
  }
}
