/** The rows of the product and tag tables, and the read queries of
    lib/actions/product.actions.ts over them: the filtered, sorted and paged
    listing of getProducts, the lookup and the related products of
    getProductBySlug, and the tag listing of getAllTags. */
module Catalog {
  import opened Wrappers
  import opened Strings
  import opened SeqUtil
  import opened ProductSchema

  /** A row of the product table. `tagIds` is the many-to-many relation to tags;
      `price` keeps the submitted text (its `parseFloat` is not modelled). */
  datatype Product = Product(
    id: nat,
    name: string,
    description: string,
    category: Category,
    serviceUrl: string,
    thumbnailUrl: Option<string>,
    demoUrl: Option<string>,
    videoUrl: Option<string>,
    pricingTier: PricingTier,
    price: Option<string>,
    techStack: seq<string>,
    apiEndpoint: Option<string>,
    metaTitle: Option<string>,
    metaDescription: Option<string>,
    slug: string,
    status: Status,
    createdById: string,
    createdAt: int,
    viewCount: nat,
    clickCount: nat,
    tagIds: set<nat>)

  /** A row of the tag table. */
  datatype Tag = Tag(id: nat, name: string, slug: string)

  // ---------------------------------------------------------------------------
  // getProducts
  // ---------------------------------------------------------------------------

  datatype SortOrder = Latest | Popular | Views

  /** `GetProductsOptions`; an absent option takes its default. */
  datatype ProductQuery = ProductQuery(
    category: Option<Category>,
    status: Option<Status>,
    search: Option<string>,
    page: Option<int>,
    limit: Option<int>,
    sortBy: Option<SortOrder>)

  function StatusOf(q: ProductQuery): Status {
    if q.status.Some? then q.status.value else PUBLISHED
  }

  function PageOf(q: ProductQuery): int {
    if q.page.Some? then q.page.value else 1
  }

  function LimitOf(q: ProductQuery): int {
    if q.limit.Some? then q.limit.value else 12
  }

  function SortOf(q: ProductQuery): SortOrder {
    if q.sortBy.Some? then q.sortBy.value else Latest
  }

  /** The part of the options that selects rows. */
  datatype Criteria = Criteria(status: Status, category: Option<Category>, search: Option<string>)

  function CriteriaOf(q: ProductQuery): Criteria {
    Criteria(StatusOf(q), q.category, q.search)
  }

  /** ASCII case folding, as `mode: 'insensitive'` applies it. */
  function FoldCase(s: string): (r: string)
    ensures |r| == |s|
  {
    seq(|s|, i requires 0 <= i < |s| => if 'A' <= s[i] <= 'Z' then (s[i] as int + 32) as char else s[i])
  }

  /** Folding both sides keeps every exact occurrence. */
  lemma FoldCaseKeepsOccurrences(hay: string, needle: string)
    ensures Contains(hay, needle) ==> ContainsInsensitive(hay, needle)
  {
    if Contains(hay, needle) {
      var k :| OccursAt(hay, needle, k);
      var h, n := FoldCase(hay), FoldCase(needle);
      forall m | 0 <= m < |needle| ensures h[k + m] == n[m] {
        assert hay[k + m] == hay[k..k + |needle|][m];
      }
      assert h[k..k + |n|] == n;
      assert OccursAt(h, n, k);
    }
  }

  /** `contains` with `mode: 'insensitive'`. */
  predicate ContainsInsensitive(hay: string, needle: string) {
    Contains(FoldCase(hay), FoldCase(needle))
  }

  /** The `where` object selects `p`: only rows of the status and category
      asked for; with no search term, or an empty one, every such row; with a
      term, exactly those whose name or description contains it, ignoring
      case (so every row that contains it as written, too). */
  predicate Matches(p: Product, c: Criteria): (b: bool)
    ensures b ==> p.status == c.status && (c.category.Some? ==> p.category == c.category.value)
    ensures b && c.search.Some? && c.search.value != "" ==>
      ContainsInsensitive(p.name, c.search.value) || ContainsInsensitive(p.description, c.search.value)
    ensures c.search.None? || c.search.value == "" ==>
      (b <==> p.status == c.status && (c.category.Some? ==> p.category == c.category.value))
    ensures p.status == c.status && (c.category.Some? ==> p.category == c.category.value)
      && c.search.Some? && c.search.value != ""
      && (ContainsInsensitive(p.name, c.search.value) || ContainsInsensitive(p.description, c.search.value))
      ==> b
    ensures p.status == c.status && (c.category.Some? ==> p.category == c.category.value)
      && c.search.Some? && (Contains(p.name, c.search.value) || Contains(p.description, c.search.value))
      ==> b
  {
    if c.search.Some? then
      FoldCaseKeepsOccurrences(p.name, c.search.value);
      FoldCaseKeepsOccurrences(p.description, c.search.value);
      Where(p, c)
    else Where(p, c)
  }

  /** The `where` object: equal status; equal category when one is given;
      when a non-empty search term is given, a case-insensitive match in the
      name or in the description. */
  predicate Where(p: Product, c: Criteria) {
    && p.status == c.status
    && (c.category.Some? ==> p.category == c.category.value)
    && (c.search.Some? && c.search.value != "" ==>
          ContainsInsensitive(p.name, c.search.value) || ContainsInsensitive(p.description, c.search.value))
  }

  /** The column that `orderBy` sorts on, descending. */
  function SortKey(p: Product, order: SortOrder): int {
    match order
    case Popular => p.clickCount
    case Views => p.viewCount
    case Latest => p.createdAt
  }

  function Descending(order: SortOrder): (Product, Product) -> bool {
    (a: Product, b: Product) => SortKey(a, order) >= SortKey(b, order)
  }

  lemma DescendingIsPreorder(order: SortOrder)
    ensures TotalPreorder(Descending(order))
  {
  }

  function Selects(c: Criteria): Product -> bool {
    (p: Product) => Matches(p, c)
  }

  /** The rows the `where` object selects, in table order. */
  function Matching(products: seq<Product>, c: Criteria): seq<Product> {
    Filter(products, Selects(c))
  }

  /** The selected rows in `orderBy` order. Rows with equal keys keep their
      table order. */
  function Ranked(products: seq<Product>, c: Criteria, order: SortOrder): (r: seq<Product>)
    ensures multiset(r) == multiset(Matching(products, c))
    ensures |r| <= |products|
    ensures SortedBy(r, Descending(order))
    ensures forall i :: 0 <= i < |r| ==> r[i] in products && Matches(r[i], c)
  {
    var m := Matching(products, c);
    var r := SortBy(m, Descending(order));
    DescendingIsPreorder(order);
    SortBySorted(m, Descending(order));
    assert forall i :: 0 <= i < |r| ==> r[i] in products && Matches(r[i], c) by {
      forall i | 0 <= i < |r| ensures r[i] in products && Matches(r[i], c) {
        SortByMembers(m, Descending(order), r[i]);
        FilterMembers(products, Selects(c), r[i]);
      }
    }
    r
  }

  /** `skip: (page - 1) * limit`. */
  function Skip(page: int, limit: int): (n: int)
    requires limit >= 1
    ensures n >= 0 <==> page >= 1
  {
    NonNegativeProduct(page - 1, limit);
    (page - 1) * limit
  }

  lemma NonNegativeProduct(a: int, b: int)
    requires b >= 1
    ensures a * b >= 0 <==> a >= 0
  {
    if a < 0 {
      assert a * b <= a;
    }
  }

  /** `skip` and `take` on the ordered rows. */
  function Window(rows: seq<Product>, skip: nat, take: nat): (r: seq<Product>)
    ensures |r| <= take
    ensures skip < |rows| ==> |r| == if skip + take < |rows| then take else |rows| - skip
    ensures forall i :: 0 <= i < |r| ==> skip + i < |rows| && r[i] == rows[skip + i]
  {
    var lo := if skip < |rows| then skip else |rows|;
    var hi := if skip + take < |rows| then skip + take else |rows|;
    rows[lo..hi]
  }

  datatype Pagination = Pagination(page: int, limit: int, total: nat, totalPages: nat)

  datatype ProductListing = ProductListing(
    success: bool, error: Option<string>, products: seq<Product>, pagination: Pagination)

  const ListFailed: string := "상품 조회에 실패했습니다"

  /** `Math.ceil(total / limit)`. */
  function TotalPages(total: nat, limit: int): (n: nat)
    requires limit >= 1
    ensures n == 0 <==> total == 0
    ensures total <= n * limit
    ensures n > 0 ==> (n - 1) * limit < total
  {
    var n := (total + limit - 1) / limit;
    DivBounds(total + limit - 1, limit);
    n
  }

  lemma DivBounds(a: nat, b: int)
    requires b >= 1
    ensures (a / b) * b <= a < (a / b + 1) * b
  {
  }

  /** `getProducts(options)`. A page below 1 makes `skip` negative, which
      the database rejects; the action then answers with its failure object. */
  function GetProducts(products: seq<Product>, q: ProductQuery): (r: ProductListing)
    requires q.limit.Some? ==> q.limit.value >= 1
    ensures r.success <==> PageOf(q) >= 1
    ensures !r.success ==>
      r == ProductListing(false, Some(ListFailed), [], Pagination(1, 12, 0, 0))
    ensures r.success ==>
      && r.error == None
      && r.pagination.page == PageOf(q) && r.pagination.limit == LimitOf(q)
      && r.pagination.total == |Matching(products, CriteriaOf(q))|
      && r.pagination.totalPages == TotalPages(r.pagination.total, LimitOf(q))
      && r.products == Window(Ranked(products, CriteriaOf(q), SortOf(q)), Skip(PageOf(q), LimitOf(q)), LimitOf(q))
  {
    var page, limit := PageOf(q), LimitOf(q);
    var skip := Skip(page, limit);
    if skip < 0 then
      ProductListing(false, Some(ListFailed), [], Pagination(1, 12, 0, 0))
    else
      var ranked := Ranked(products, CriteriaOf(q), SortOf(q));
      var total := |ranked|;
      ProductListing(true, None, Window(ranked, skip, limit), Pagination(page, limit, total, TotalPages(total, limit)))
  }

  lemma WindowMembers(rows: seq<Product>, skip: nat, take: nat, x: Product)
    requires x in Window(rows, skip, take)
    ensures x in rows
  {
    var w := Window(rows, skip, take);
    var i :| 0 <= i < |w| && w[i] == x;
    assert rows[skip + i] == x;
  }

  lemma WindowOrdered(rows: seq<Product>, skip: nat, take: nat, order: SortOrder)
    requires SortedBy(rows, Descending(order))
    ensures SortedBy(Window(rows, skip, take), Descending(order))
  {
    var w := Window(rows, skip, take);
    forall i, j | 0 <= i < j < |w| ensures Descending(order)(w[i], w[j]) {
      assert w[i] == rows[skip + i] && w[j] == rows[skip + j];
    }
  }

  /** Every listed row is a row of the table that the filter selects; the page
      holds at most `limit` rows, ordered descending by the sort column. */
  lemma ListingMatchesAndIsOrdered(products: seq<Product>, q: ProductQuery)
    requires q.limit.Some? ==> q.limit.value >= 1
    ensures var r := GetProducts(products, q);
      && |r.products| <= LimitOf(q)
      && (forall p :: p in r.products ==> p in products && Matches(p, CriteriaOf(q)))
      && (forall i, j :: 0 <= i < j < |r.products| ==>
            SortKey(r.products[i], SortOf(q)) >= SortKey(r.products[j], SortOf(q)))
  {
    var r := GetProducts(products, q);
    if r.success {
      var c, order := CriteriaOf(q), SortOf(q);
      var f := Selects(c);
      var m := Matching(products, c);
      var ranked := Ranked(products, c, order);
      var skip, limit := Skip(PageOf(q), LimitOf(q)), LimitOf(q);
      assert r.products == Window(ranked, skip, limit);
      DescendingIsPreorder(order);
      SortBySorted(m, Descending(order));
      WindowOrdered(ranked, skip, limit, order);
      forall p | p in r.products ensures p in products && Matches(p, c) {
        WindowMembers(ranked, skip, limit, p);
        SortByMembers(m, Descending(order), p);
        FilterMembers(products, f, p);
      }
    }
  }

  /** `total` counts every selected row, whatever the page: a row is selected
      as often as it occurs in the table if it matches, and not at all
      otherwise. */
  lemma TotalCountsAllMatches(products: seq<Product>, q: ProductQuery)
    requires q.limit.Some? ==> q.limit.value >= 1
    requires PageOf(q) >= 1
    ensures var r := GetProducts(products, q);
      && r.success
      && r.pagination.total == |Matching(products, CriteriaOf(q))|
      && forall x :: multiset(Matching(products, CriteriaOf(q)))[x] ==
           if Matches(x, CriteriaOf(q)) then multiset(products)[x] else 0
  {
  }

  /** The pages cut the ordered selection into consecutive slices of `limit`
      rows: row `offset` of page `page` is the row at position
      `(page - 1) * limit + offset` of the order (with `PageOfPosition`, every
      position lies on one page). */
  lemma PageHoldsItsSlice(products: seq<Product>, q: ProductQuery, page: int, offset: nat)
    requires q.limit.Some? ==> q.limit.value >= 1
    requires page >= 1 && offset < LimitOf(q)
    requires Skip(page, LimitOf(q)) + offset < |Ranked(products, CriteriaOf(q), SortOf(q))|
    ensures offset < |GetProducts(products, q.(page := Some(page))).products|
    ensures GetProducts(products, q.(page := Some(page))).products[offset]
      == Ranked(products, CriteriaOf(q), SortOf(q))[Skip(page, LimitOf(q)) + offset]
  {
    var q' := q.(page := Some(page));
    var limit := LimitOf(q);
    assert CriteriaOf(q') == CriteriaOf(q) && SortOf(q') == SortOf(q) && LimitOf(q') == limit && PageOf(q') == page;
    var ranked := Ranked(products, CriteriaOf(q), SortOf(q));
    WindowAt(ranked, Skip(page, limit), limit, offset);
    assert GetProducts(products, q').products == Window(ranked, Skip(page, limit), limit);
  }

  lemma WindowAt(rows: seq<Product>, skip: nat, take: nat, i: nat)
    requires skip + i < |rows| && i < take
    ensures i < |Window(rows, skip, take)| && Window(rows, skip, take)[i] == rows[skip + i]
  {
  }

  /** Position `k` lies on page `k / limit + 1`, at offset `k % limit`. */
  lemma PageOfPosition(k: nat, limit: int)
    requires limit >= 1
    ensures k / limit >= 0
    ensures 0 <= Skip(k / limit + 1, limit) <= k
    ensures k - Skip(k / limit + 1, limit) == k % limit < limit
  {
    assert Skip(k / limit + 1, limit) == (k / limit) * limit;
  }

  /** Row `k` of the ordered selection is listed on page `k / limit + 1`, at
      offset `k % limit`. */
  lemma RankedRowIsListed(products: seq<Product>, q: ProductQuery, k: nat)
    requires q.limit.Some? ==> q.limit.value >= 1
    requires k < |Ranked(products, CriteriaOf(q), SortOf(q))|
    ensures var r := GetProducts(products, q.(page := Some(k / LimitOf(q) + 1)));
      && r.success
      && k % LimitOf(q) < |r.products|
      && r.products[k % LimitOf(q)] == Ranked(products, CriteriaOf(q), SortOf(q))[k]
  {
    var limit := LimitOf(q);
    var page, offset := k / limit + 1, k % limit;
    PageOfPosition(k, limit);
    var skip := Skip(page, limit);
    assert skip + offset == k;
    var q' := q.(page := Some(page));
    assert CriteriaOf(q') == CriteriaOf(q) && SortOf(q') == SortOf(q) && LimitOf(q') == limit && PageOf(q') == page;
    var ranked := Ranked(products, CriteriaOf(q), SortOf(q));
    WindowAt(ranked, skip, limit, offset);
    assert GetProducts(products, q').products == Window(ranked, skip, limit);
  }

  /** No matching row is lost by paging: every row the filter selects is
      listed on some page. */
  lemma MatchingRowIsListed(products: seq<Product>, q: ProductQuery, x: Product)
    requires q.limit.Some? ==> q.limit.value >= 1
    requires x in products && Matches(x, CriteriaOf(q))
    ensures exists page :: page >= 1 && x in GetProducts(products, q.(page := Some(page))).products
  {
    var k := PositionInRanked(products, CriteriaOf(q), SortOf(q), x);
    RankedRowIsListed(products, q, k);
    PageOfPosition(k, LimitOf(q));
    var page := k / LimitOf(q) + 1;
    assert x in GetProducts(products, q.(page := Some(page))).products;
  }

  /** A selected row has a position in the order. */
  lemma PositionInRanked(products: seq<Product>, c: Criteria, order: SortOrder, x: Product) returns (k: nat)
    requires x in products && Matches(x, c)
    ensures k < |Ranked(products, c, order)| && Ranked(products, c, order)[k] == x
  {
    var ranked := Ranked(products, c, order);
    FilterMembers(products, Selects(c), x);
    assert x in multiset(ranked);
    k :| 0 <= k < |ranked| && ranked[k] == x;
  }

  // ---------------------------------------------------------------------------
  // getProductBySlug
  // ---------------------------------------------------------------------------

  /** `findUnique({ where: { slug } })`. */
  function FindBySlug(products: seq<Product>, slug: string): (r: Option<Product>)
    ensures r.Some? ==> r.value in products && r.value.slug == slug
    ensures r == None <==> forall p :: p in products ==> p.slug != slug
  {
    if products == [] then None
    else if products[0].slug == slug then Some(products[0])
    else FindBySlug(products[1..], slug)
  }

  /** A row that the recommendation for `p` may list. */
  predicate RelatedTo(p: Product, c: Product) {
    c.category == p.category && c.status == PUBLISHED && c.id != p.id
  }

  /** The related query: other PUBLISHED rows of the same category, most
      viewed first, at most 4. */
  function RelatedRows(products: seq<Product>, p: Product): (r: seq<Product>)
    ensures |r| <= 4
    ensures r == [] <==> forall c :: c in products ==> !RelatedTo(p, c)
  {
    var f := (c: Product) => RelatedTo(p, c);
    var m := Filter(products, f);
    var ranked := SortBy(m, Descending(Views));
    assert m == [] <==> forall c :: c in products ==> !RelatedTo(p, c) by {
      if m != [] {
        FilterMembers(products, f, m[0]);
      } else {
        forall c | c in products ensures !RelatedTo(p, c) {
          FilterMembers(products, f, c);
        }
      }
    }
    ranked[..if |ranked| < 4 then |ranked| else 4]
  }

  /** The `select` of the related query. */
  datatype ProductSummary = ProductSummary(
    id: nat, name: string, slug: string, thumbnailUrl: Option<string>, category: Category)

  function Summary(p: Product): ProductSummary {
    ProductSummary(p.id, p.name, p.slug, p.thumbnailUrl, p.category)
  }

  function RelatedProducts(products: seq<Product>, p: Product): (r: seq<ProductSummary>)
    ensures |r| == |RelatedRows(products, p)|
    ensures forall i :: 0 <= i < |r| ==> r[i] == Summary(RelatedRows(products, p)[i])
  {
    var rows := RelatedRows(products, p);
    seq(|rows|, i requires 0 <= i < |rows| => Summary(rows[i]))
  }

  /** The recommendation lists at most 4 rows, each a PUBLISHED row of the same
      category other than `p`, by non-increasing view count; and it lists the
      most viewed of them: a candidate left out means 4 were listed, none with
      fewer views. */
  lemma RelatedAreTopFourByViews(products: seq<Product>, p: Product)
    ensures var rows := RelatedRows(products, p);
      && |rows| <= 4
      && (forall c :: c in rows ==> c in products && RelatedTo(p, c))
      && (forall i, j :: 0 <= i < j < |rows| ==> rows[i].viewCount >= rows[j].viewCount)
      && (forall c :: c in products && RelatedTo(p, c) && c !in rows ==>
            |rows| == 4 && forall r :: r in rows ==> c.viewCount <= r.viewCount)
  {
    RelatedRowsQualify(products, p);
    RelatedRowsOrdered(products, p);
    RelatedRowsAreTop(products, p);
  }

  lemma RelatedRowsQualify(products: seq<Product>, p: Product)
    ensures forall c :: c in RelatedRows(products, p) ==> c in products && RelatedTo(p, c)
  {
    var f := (c: Product) => RelatedTo(p, c);
    var m := Filter(products, f);
    var ranked := SortBy(m, Descending(Views));
    var rows := RelatedRows(products, p);
    forall c | c in rows ensures c in products && RelatedTo(p, c) {
      assert c in ranked;
      SortByMembers(m, Descending(Views), c);
      FilterMembers(products, f, c);
    }
  }

  lemma RelatedRowsOrdered(products: seq<Product>, p: Product)
    ensures var rows := RelatedRows(products, p);
      forall i, j :: 0 <= i < j < |rows| ==> rows[i].viewCount >= rows[j].viewCount
  {
    var m := Filter(products, (c: Product) => RelatedTo(p, c));
    var ranked := SortBy(m, Descending(Views));
    var rows := RelatedRows(products, p);
    DescendingIsPreorder(Views);
    SortBySorted(m, Descending(Views));
    forall i, j | 0 <= i < j < |rows| ensures rows[i].viewCount >= rows[j].viewCount {
      assert rows[i] == ranked[i] && rows[j] == ranked[j];
      assert Descending(Views)(ranked[i], ranked[j]);
    }
  }

  lemma RelatedRowsAreTop(products: seq<Product>, p: Product)
    ensures var rows := RelatedRows(products, p);
      forall c :: c in products && RelatedTo(p, c) && c !in rows ==>
        |rows| == 4 && forall r :: r in rows ==> c.viewCount <= r.viewCount
  {
    var f := (c: Product) => RelatedTo(p, c);
    var m := Filter(products, f);
    var ranked := SortBy(m, Descending(Views));
    var rows := RelatedRows(products, p);
    assert rows == ranked[..|rows|];
    DescendingIsPreorder(Views);
    SortBySorted(m, Descending(Views));
    forall c | c in products && RelatedTo(p, c) && c !in rows
      ensures |rows| == 4 && forall r :: r in rows ==> c.viewCount <= r.viewCount
    {
      FilterMembers(products, f, c);
      SortByMembers(m, Descending(Views), c);
      PrefixLeavesOutLater(ranked, |rows|, c);
    }
  }

  /** An element of a sequence ordered by views that its first `n` elements
      leave out has no more views than any of them. */
  lemma PrefixLeavesOutLater(ranked: seq<Product>, n: nat, c: Product)
    requires n <= |ranked| && SortedBy(ranked, Descending(Views))
    requires c in ranked && c !in ranked[..n]
    ensures n < |ranked|
    ensures forall r :: r in ranked[..n] ==> c.viewCount <= r.viewCount
  {
    var k :| 0 <= k < |ranked| && ranked[k] == c;
    assert forall i :: 0 <= i < n ==> ranked[..n][i] == ranked[i];
    assert k >= n;
    forall r | r in ranked[..n] ensures c.viewCount <= r.viewCount {
      var i :| 0 <= i < n && ranked[..n][i] == r;
      assert Descending(Views)(ranked[i], ranked[k]);
    }
  }

  // ---------------------------------------------------------------------------
  // getAllTags
  // ---------------------------------------------------------------------------

  /** Lexicographic order of strings by code point. */
  predicate StrLe(a: string, b: string) {
    a == [] || (b != [] && (a[0] < b[0] || (a[0] == b[0] && StrLe(a[1..], b[1..]))))
  }

  lemma {:induction false} StrLeTotal(a: string, b: string)
    ensures StrLe(a, b) || StrLe(b, a)
  {
    if a != [] && b != [] && a[0] == b[0] {
      StrLeTotal(a[1..], b[1..]);
    }
  }

  lemma {:induction false} StrLeTransitive(a: string, b: string, c: string)
    requires StrLe(a, b) && StrLe(b, c)
    ensures StrLe(a, c)
  {
    if a != [] && b != [] && c != [] && a[0] == b[0] == c[0] {
      StrLeTransitive(a[1..], b[1..], c[1..]);
    }
  }

  function ByName(): (Tag, Tag) -> bool {
    (a: Tag, b: Tag) => StrLe(a.name, b.name)
  }

  lemma ByNameIsPreorder()
    ensures TotalPreorder(ByName())
  {
    forall a: Tag, b: Tag ensures ByName()(a, b) || ByName()(b, a) {
      StrLeTotal(a.name, b.name);
    }
    forall a: Tag, b: Tag, c: Tag | ByName()(a, b) && ByName()(b, c) ensures ByName()(a, c) {
      StrLeTransitive(a.name, b.name, c.name);
    }
  }

  /** A tag with the `_count` of the products that carry it. */
  datatype TagCount = TagCount(tag: Tag, productCount: nat)

  /** The `_count` of a tag: the number of rows that carry it. */
  function ProductCount(products: seq<Product>, tagId: nat): (n: nat)
    ensures n == |Carrying(products, tagId)|
    ensures n <= |products|
    ensures n == 0 <==> forall p :: p in products ==> tagId !in p.tagIds
  {
    var m := Filter(products, CarriesTag(tagId));
    assert m == [] <==> forall p :: p in products ==> tagId !in p.tagIds by {
      if m != [] {
        FilterMembers(products, CarriesTag(tagId), m[0]);
      } else {
        forall p | p in products ensures tagId !in p.tagIds {
          FilterMembers(products, CarriesTag(tagId), p);
        }
      }
    }
    CountCarrying(products, tagId);
    |m|
  }

  function CarriesTag(tagId: nat): Product -> bool {
    (p: Product) => tagId in p.tagIds
  }

  /** The positions of the rows that carry the tag. */
  ghost function Carrying(products: seq<Product>, tagId: nat): set<nat> {
    set i | 0 <= i < |products| && tagId in products[i].tagIds
  }

  lemma {:induction false} CountCarrying(products: seq<Product>, tagId: nat)
    ensures |Filter(products, CarriesTag(tagId))| == |Carrying(products, tagId)|
  {
    if products == [] {
      assert Carrying(products, tagId) == {};
    } else {
      CountCarrying(products[..|products| - 1], tagId);
      FilterSnocLength(products, CarriesTag(tagId));
      CarryingSnoc(products, tagId);
    }
  }

  /** The last row adds its own position, if it carries the tag, to those of
      the rows before it. */
  lemma CarryingSnoc(products: seq<Product>, tagId: nat)
    requires products != []
    ensures var n := |products| - 1;
      && n !in Carrying(products[..n], tagId)
      && Carrying(products, tagId)
         == Carrying(products[..n], tagId) + if tagId in products[n].tagIds then {n} else {}
  {
    var n := |products| - 1;
    var before := Carrying(products[..n], tagId);
    var extra := if tagId in products[n].tagIds then {n} else {};
    forall i ensures i in Carrying(products, tagId) <==> i in before + extra {
      if 0 <= i < n {
        assert products[i] == products[..n][i];
      }
    }
  }

  /** `getAllTags()`: every tag, ordered by name ascending, with its count. */
  function AllTags(tags: seq<Tag>, products: seq<Product>): (r: seq<TagCount>)
    ensures |r| == |tags|
  {
    var sorted := SortBy(tags, ByName());
    seq(|sorted|, i requires 0 <= i < |sorted| => TagCount(sorted[i], ProductCount(products, sorted[i].id)))
  }

  /** The listing holds each tag of the table as often as the table does,
      ordered by name, each with the number of products linked to it. */
  lemma AllTagsSortedPermutation(tags: seq<Tag>, products: seq<Product>)
    ensures var r := AllTags(tags, products);
      && multiset(seq(|r|, i requires 0 <= i < |r| => r[i].tag)) == multiset(tags)
      && (forall i, j :: 0 <= i < j < |r| ==> StrLe(r[i].tag.name, r[j].tag.name))
      && (forall i :: 0 <= i < |r| ==> r[i].productCount == ProductCount(products, r[i].tag.id))
  {
    var sorted := SortBy(tags, ByName());
    var r := AllTags(tags, products);
    ByNameIsPreorder();
    SortBySorted(tags, ByName());
    assert seq(|r|, i requires 0 <= i < |r| => r[i].tag) == sorted;
  }
}
