/**
 * The shop listing and product pages (flaskr/shop.py): page arithmetic of
 * the listing, and the product page's slug check, which serves a product
 * only under its canonical slug `slugify(name)-id`.
 */
module Shop {
  import opened Wrappers
  import opened Text
  import opened Storage
  import JinjaFilters

  /** Python's `a // b`, which rounds toward negative infinity. */
  function FloorDiv(a: int, b: int): (q: int)
    requires b != 0
    ensures b > 0 ==> q * b <= a < q * b + b
    ensures b < 0 ==> q * b >= a > q * b + b
  {
    if b > 0 then a / b else (-a) / (-b)
  }

  /** The listing's page number: `request.args.get('s', 1, type=int)`, where a missing or non-numeric argument gives 1. */
  function PageParam(arg: Option<string>): (page: int)
    ensures arg.Some? && ParseInt(arg.value).Some? ==> page == ParseInt(arg.value).value
    ensures arg.None? || ParseInt(arg.value).None? ==> page == 1
  {
    match arg
    case None => 1
    case Some(s) => match ParseInt(s) case Some(n) => n case None => 1
  }

  /** `(total_products + per_page - 1) // per_page`. */
  function TotalPages(total: nat, perPage: int): int
    requires perPage != 0
  {
    FloorDiv(total + perPage - 1, perPage)
  }

  /** What the listing route does: fail on a zero page size, answer 404, or query one page of rows. */
  datatype Listing = DivisionByZero | NotFound | Show(offset: int, limit: int, totalPages: int)

  function ListingPage(total: nat, perPage: int, page: int): (r: Listing)
    ensures r.DivisionByZero? <==> perPage == 0
    ensures perPage != 0 ==> (r.NotFound? <==> page < 1 || page > TotalPages(total, perPage))
    ensures r.Show? ==> r.limit == perPage && r.totalPages == TotalPages(total, perPage)
  {
    if perPage == 0 then DivisionByZero
    else
      var totalPages := TotalPages(total, perPage);
      if page < 1 || page > totalPages then NotFound
      else Show((page - 1) * perPage, perPage, totalPages)
  }

  /** For a positive page size the page count is the ceiling of `total / perPage`. */
  lemma TotalPagesIsCeiling(total: nat, perPage: int)
    requires perPage > 0
    ensures var t := TotalPages(total, perPage);
      (t - 1) * perPage < total <= t * perPage
  {
    var t := TotalPages(total, perPage);
    assert t * perPage <= total + perPage - 1 < t * perPage + perPage;
    assert (t - 1) * perPage == t * perPage - perPage;
  }

  /** An accepted page starts inside the catalogue. */
  lemma AcceptedPageStartsInside(total: nat, perPage: int, page: int)
    requires perPage > 0
    requires ListingPage(total, perPage, page).Show?
    ensures var r := ListingPage(total, perPage, page);
      r.offset == (page - 1) * perPage && 0 <= r.offset < total
  {
    TotalPagesIsCeiling(total, perPage);
    var t := TotalPages(total, perPage);
    assert 1 <= page <= t;
    assert (page - 1) * perPage <= (t - 1) * perPage;
  }

  /** With no products every page is answered with 404. */
  lemma EmptyCatalogueHasNoPages(perPage: int, page: int)
    requires perPage > 0
    ensures ListingPage(0, perPage, page) == NotFound
  {
    TotalPagesIsCeiling(0, perPage);
  }

  /** Every product is listed on some accepted page: row `j` is on page `j / perPage + 1`. */
  lemma EveryRowIsListed(total: nat, perPage: int, j: int)
    requires perPage > 0 && 0 <= j < total
    ensures var r := ListingPage(total, perPage, j / perPage + 1);
      r.Show? && r.offset <= j < r.offset + perPage
  {
    TotalPagesIsCeiling(total, perPage);
    var t := TotalPages(total, perPage);
    var q := j / perPage;
    assert q * perPage <= j < q * perPage + perPage;
  }

  /** The id part of a product slug: the text after its last `-`. */
  function ProductIdOf(slug: string): (r: string)
    ensures '-' !in r && |r| <= |slug| && slug[|slug| - |r|..] == r
    ensures '-' !in slug ==> r == slug
    ensures '-' in slug ==> slug[|slug| - |r| - 1] == '-'
  {
    LastPieceIsSuffix(slug, '-');
    LastPieceLacksSep(slug, '-');
    LastPiece(slug, '-')
  }

  /** The only slug under which the product page serves a product. */
  function CanonicalSlug(p: ProductRow): string {
    JinjaFilters.Slugify(p.name) + "-" + IntToString(p.id)
  }

  /** The row the route looks up for a slug; the id text is read as a number. */
  function LookupBySlug(products: seq<ProductRow>, slug: string): Option<ProductRow> {
    match ParseInt(ProductIdOf(slug))
    case None => None
    case Some(id) => FindProduct(products, id)
  }

  /** `sep` occurs in `s` at index `k`. */
  predicate OccursAt(s: string, sep: string, k: int) {
    0 <= k && k + |sep| <= |s| && s[k..k + |sep|] == sep
  }

  lemma OccursAtTail(s: string, sep: string, k: int)
    requires |s| > 0 && 1 <= k
    ensures OccursAt(s, sep, k) <==> OccursAt(s[1..], sep, k - 1)
  {
    if k + |sep| <= |s| {
      var a, b := s[k..k + |sep|], s[1..][k - 1..k - 1 + |sep|];
      assert forall m :: 0 <= m < |sep| ==> a[m] == b[m];
      assert a == b;
    }
  }

  /** The first index at which `sep` occurs in `s`. */
  function FindSub(s: string, sep: string): (r: Option<nat>)
    requires |sep| > 0
    ensures r.Some? ==> OccursAt(s, sep, r.value)
    ensures r.Some? ==> forall k :: 0 <= k < r.value ==> !OccursAt(s, sep, k)
    ensures r.None? ==> forall k :: !OccursAt(s, sep, k)
    decreases |s|
  {
    if |s| < |sep| then None
    else if s[..|sep|] == sep then Some(0)
    else
      var r := FindSub(s[1..], sep);
      forall k | 1 <= k
        ensures OccursAt(s, sep, k) <==> OccursAt(s[1..], sep, k - 1)
      {
        OccursAtTail(s, sep, k);
      }
      match r
      case None => None
      case Some(i) => Some(i + 1)
  }

  /**
   * `referrer.split(sep)[1]`: the text between the first and the second
   * occurrence of `sep`; None where the route fails (no referrer, an empty
   * `sep`, or `sep` does not occur).
   */
  function ReferrerName(referrer: Option<string>, sep: string): (r: Option<string>)
    ensures r.Some? <==> referrer.Some? && |sep| > 0 && FindSub(referrer.value, sep).Some?
    ensures r.Some? ==> FindSub(r.value, sep).None?
    ensures r.Some? ==>
      var rest := referrer.value[FindSub(referrer.value, sep).value + |sep|..];
      |r.value| <= |rest| && r.value == rest[..|r.value|] &&
      (r.value == rest ||
       (OccursAt(rest, sep, |r.value|) && forall k :: 0 <= k < |r.value| ==> !OccursAt(rest, sep, k)))
  {
    match referrer
    case None => None
    case Some(s) =>
      if |sep| == 0 then None else
      match FindSub(s, sep)
      case None => None
      case Some(i) =>
        var rest := s[i + |sep|..];
        match FindSub(rest, sep)
        case None => Some(rest)
        case Some(j) =>
          assert forall k :: 0 <= k && k + |sep| <= j ==> (OccursAt(rest[..j], sep, k) <==> OccursAt(rest, sep, k)) by {
            forall k | 0 <= k && k + |sep| <= j
              ensures OccursAt(rest[..j], sep, k) <==> OccursAt(rest, sep, k)
            {
              assert rest[..j][k..k + |sep|] == rest[k..k + |sep|];
            }
          }
          Some(rest[..j])
  }

  /** What the product route does. */
  datatype ProductPage = ServerError | ProductNotFound | Details(product: ProductRow, referrerName: string)

  /**
   * The product route. A missing referrer, or one without the configured
   * `domain` followed by `/`, fails before the slug check.
   */
  function ProductRoute(products: seq<ProductRow>, slug: string, referrer: Option<string>, domain: string)
    : (r: ProductPage)
    ensures r.ServerError? <==> ReferrerName(referrer, domain + "/").None?
    ensures r.Details? ==> r.product in products && CanonicalSlug(r.product) == slug
    ensures r.Details? ==> r.referrerName == ReferrerName(referrer, domain + "/").value
    ensures r.ProductNotFound? ==>
      forall p :: p in products && CanonicalSlug(p) == slug && p.id >= 0 ==> exists q :: q in products && q.id == p.id && q != p
  {
    match ReferrerName(referrer, domain + "/")
    case None => ServerError
    case Some(name) =>
      var found := LookupBySlug(products, slug);
      if found.Some? && CanonicalSlug(found.value) == slug then Details(found.value, name)
      else
        NotFoundIsJustified(products, slug);
        ProductNotFound
  }

  /** The slug carries the id as its last piece: `str(id)` holds no `-` for a non-negative id. */
  lemma SlugRoundTrip(name: string, id: int)
    requires id >= 0
    ensures ProductIdOf(JinjaFilters.Slugify(name) + "-" + IntToString(id)) == IntToString(id)
  {
    var n := IntToString(id);
    if '-' in n {
      IntToStringChars(id, '-');
    }
    LastPieceAfterSep(JinjaFilters.Slugify(name), '-', n);
    assert JinjaFilters.Slugify(name) + "-" + n == JinjaFilters.Slugify(name) + ['-'] + n;
  }

  predicate UniqueIds(products: seq<ProductRow>) {
    forall i, j :: 0 <= i < j < |products| ==> products[i].id != products[j].id
  }

  /** The canonical slug of a product with a non-negative id looks that product up. */
  lemma LookupOfCanonicalSlug(products: seq<ProductRow>, p: ProductRow)
    requires p.id >= 0
    ensures LookupBySlug(products, CanonicalSlug(p)) == FindProduct(products, p.id)
  {
    SlugRoundTrip(p.name, p.id);
    ParseIntOfIntToString(p.id);
  }

  /** A 404 from the slug check means no product answers to that slug, except through a repeated id. */
  lemma NotFoundIsJustified(products: seq<ProductRow>, slug: string)
    ensures var found := LookupBySlug(products, slug);
      !(found.Some? && CanonicalSlug(found.value) == slug) ==>
      forall p :: p in products && CanonicalSlug(p) == slug && p.id >= 0 ==> exists q :: q in products && q.id == p.id && q != p
  {
    var found := LookupBySlug(products, slug);
    if !(found.Some? && CanonicalSlug(found.value) == slug) {
      forall p | p in products && CanonicalSlug(p) == slug && p.id >= 0
        ensures exists q :: q in products && q.id == p.id && q != p
      {
        LookupOfCanonicalSlug(products, p);
        assert found.Some? && found.value.id == p.id;
        assert found.value != p;
      }
    }
  }

  /** With unique ids, every product with a non-negative id is served under its canonical slug. */
  lemma CanonicalSlugServesProduct(products: seq<ProductRow>, p: ProductRow, referrer: string, domain: string)
    requires UniqueIds(products) && p in products && p.id >= 0
    requires FindSub(referrer, domain + "/").Some?
    ensures ProductRoute(products, CanonicalSlug(p), Some(referrer), domain).Details?
    ensures ProductRoute(products, CanonicalSlug(p), Some(referrer), domain).product == p
  {
    LookupOfCanonicalSlug(products, p);
    var i :| 0 <= i < |products| && products[i] == p;
    FindProductIsFirst(products, p.id, i);
    var sep := domain + "/";
    assert |sep| > 0;
    assert ReferrerName(Some(referrer), sep).Some?;
    assert LookupBySlug(products, CanonicalSlug(p)) == Some(p);
  }
}
