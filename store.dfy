/** The state-changing server actions of lib/actions/product.actions.ts over
    the product and tag tables: createProduct, getProductBySlug (which counts
    a view), updateProduct, deleteProduct, incrementViewCount and
    incrementClickCount. The database is the object's fields; the session,
    the clock readings, the URL check and the creation time are parameters. */
module ProductActions {
  import opened Wrappers
  import opened Strings
  import opened Auth
  import opened Slug
  import opened CloudinaryId
  import opened ProductSchema
  import opened Catalog
  import opened Tags
  import opened SlugRetry

  const NotFound: string := "상품을 찾을 수 없습니다"

  /** The ids of a list of tag ids, as the relation stores them. */
  function IdSet(ids: seq<nat>): set<nat> {
    set i | 0 <= i < |ids| :: ids[i]
  }

  function TagIds(tags: seq<Tag>): set<nat> {
    set t | t in tags :: t.id
  }

  lemma TagIdsGrow(tags: seq<Tag>, more: seq<Tag>)
    requires tags <= more
    ensures TagIds(tags) <= TagIds(more)
  {
    forall id | id in TagIds(tags) ensures id in TagIds(more) {
      var t :| t in tags && t.id == id;
      var i :| 0 <= i < |tags| && tags[i] == t;
      assert more[i] == t;
    }
  }

  /** `product.findUnique({ where: { id } })`, as the position of the row. */
  function IndexOfId(products: seq<Product>, id: nat): (r: Option<nat>)
    ensures r.Some? ==> r.value < |products| && products[r.value].id == id
    ensures r == None <==> forall j :: 0 <= j < |products| ==> products[j].id != id
  {
    IndexOfIdFrom(products, id, 0)
  }

  function IndexOfIdFrom(products: seq<Product>, id: nat, from: nat): (r: Option<nat>)
    requires from <= |products|
    ensures r.Some? ==> from <= r.value < |products| && products[r.value].id == id
    ensures r == None <==> forall j :: from <= j < |products| ==> products[j].id != id
    decreases |products| - from
  {
    if from == |products| then None
    else if products[from].id == id then Some(from)
    else IndexOfIdFrom(products, id, from + 1)
  }

  /** The row that `product.create` stores for a validated form: optional
      texts that are empty are stored as null. */
  function NewRow(id: nat, input: ProductInput, slug: string, userId: string, createdAt: int,
                  tagIds: set<nat>): (r: Product)
    ensures r.id == id && r.slug == slug && r.createdById == userId && r.createdAt == createdAt
    ensures r.viewCount == 0 && r.clickCount == 0 && r.tagIds == tagIds
    ensures Columns(r) == input.(tags := [])
    ensures NullForEmpty(r)
  {
    Product(id, input.name, input.description, input.category, input.serviceUrl,
      NullIfEmpty(input.thumbnailUrl), NullIfEmpty(input.demoUrl), NullIfEmpty(input.videoUrl),
      input.pricingTier, NullIfEmpty(input.price), input.techStack,
      NullIfEmpty(input.apiEndpoint), NullIfEmpty(input.metaTitle), NullIfEmpty(input.metaDescription),
      slug, input.status, userId, createdAt, 0, 0, tagIds)
  }

  /** The row after `product.update`: the form's columns replace the stored
      ones and the tag relation is set to the given ids; the id, the slug, the
      author, the creation time and both counters stay. */
  function UpdatedRow(row: Product, input: ProductInput, tagIds: set<nat>): (r: Product)
    ensures r.id == row.id && r.slug == row.slug && r.createdById == row.createdById
    ensures r.createdAt == row.createdAt && r.viewCount == row.viewCount && r.clickCount == row.clickCount
    ensures r.tagIds == tagIds
    ensures Columns(r) == input.(tags := [])
    ensures NullForEmpty(r)
  {
    row.(name := input.name, description := input.description, category := input.category,
      serviceUrl := input.serviceUrl, thumbnailUrl := NullIfEmpty(input.thumbnailUrl),
      demoUrl := NullIfEmpty(input.demoUrl), videoUrl := NullIfEmpty(input.videoUrl),
      pricingTier := input.pricingTier, price := NullIfEmpty(input.price), techStack := input.techStack,
      apiEndpoint := NullIfEmpty(input.apiEndpoint), metaTitle := NullIfEmpty(input.metaTitle),
      metaDescription := NullIfEmpty(input.metaDescription), status := input.status, tagIds := tagIds)
  }

  datatype Counter = ViewCounter | ClickCounter

  /** The form's values as a stored row shows them: `null` columns read as
      the empty string. Tag names are not columns (the relation holds tag
      ids), so they are left empty. */
  function Columns(r: Product): ProductInput {
    ProductInput(r.name, r.description, r.category, r.serviceUrl, Shown(r.thumbnailUrl),
      Shown(r.demoUrl), Shown(r.videoUrl), r.pricingTier, Shown(r.price), r.techStack,
      Shown(r.apiEndpoint), Shown(r.metaTitle), Shown(r.metaDescription), r.status, [])
  }

  /** No optional column holds the empty string: an empty form value is
      stored as `null`. */
  predicate NullForEmpty(r: Product) {
    && NonEmptyOrNull(r.thumbnailUrl) && NonEmptyOrNull(r.demoUrl) && NonEmptyOrNull(r.videoUrl)
    && NonEmptyOrNull(r.price) && NonEmptyOrNull(r.apiEndpoint)
    && NonEmptyOrNull(r.metaTitle) && NonEmptyOrNull(r.metaDescription)
  }

  /** A row that shows the form's values back and stores no empty text holds,
      in each optional column, `value || null` of the form's value. */
  lemma StoredColumns(r: Product, input: ProductInput)
    requires Columns(r) == input.(tags := []) && NullForEmpty(r)
    ensures r.thumbnailUrl == NullIfEmpty(input.thumbnailUrl)
    ensures r.demoUrl == NullIfEmpty(input.demoUrl) && r.videoUrl == NullIfEmpty(input.videoUrl)
    ensures r.price == NullIfEmpty(input.price) && r.apiEndpoint == NullIfEmpty(input.apiEndpoint)
    ensures r.metaTitle == NullIfEmpty(input.metaTitle)
    ensures r.metaDescription == NullIfEmpty(input.metaDescription)
  {
    ShownNullIfEmpty(r.thumbnailUrl, input.thumbnailUrl);
    ShownNullIfEmpty(r.demoUrl, input.demoUrl);
    ShownNullIfEmpty(r.videoUrl, input.videoUrl);
    ShownNullIfEmpty(r.price, input.price);
    ShownNullIfEmpty(r.apiEndpoint, input.apiEndpoint);
    ShownNullIfEmpty(r.metaTitle, input.metaTitle);
    ShownNullIfEmpty(r.metaDescription, input.metaDescription);
  }

  /** `{ increment: 1 }` on one counter of one row: the two counters together
      grow by one, the chosen one by one, and nothing else changes. */
  function Incremented(row: Product, counter: Counter): (r: Product)
    ensures r.viewCount + r.clickCount == row.viewCount + row.clickCount + 1
    ensures counter == ViewCounter ==> r.viewCount == row.viewCount + 1
    ensures counter == ClickCounter ==> r.clickCount == row.clickCount + 1
    ensures r.(viewCount := row.viewCount, clickCount := row.clickCount) == row
  {
    match counter
    case ViewCounter => row.(viewCount := row.viewCount + 1)
    case ClickCounter => row.(clickCount := row.clickCount + 1)
  }

  /** The public id whose image deleteProduct destroys: only a non-empty
      thumbnail on the Cloudinary host that yields an id. */
  function ImageToDestroy(thumbnail: Option<string>): (r: Option<string>)
    ensures r.Some? <==>
      thumbnail.Some? && thumbnail.value != "" && IsCloudinaryUrl(thumbnail.value)
      && ExtractPublicId(thumbnail.value).Some?
    ensures r.Some? ==> r == ExtractPublicId(thumbnail.value)
  {
    if thumbnail.Some? && thumbnail.value != "" && IsCloudinaryUrl(thumbnail.value) then
      ExtractPublicId(thumbnail.value)
    else None
  }

  /** The related products of a row do not depend on that row's own view
      count: the row is never among them. So counting the view before or after
      the related query gives the same list. */
  lemma RelatedIgnoresOwnViews(products: seq<Product>, p: Product, i: nat)
    requires i < |products| && products[i].id == p.id
    ensures RelatedProducts(products[i := Incremented(products[i], ViewCounter)], p)
      == RelatedProducts(products, p)
  {
    var f := (c: Product) => RelatedTo(p, c);
    FilterSkipsReplaced(products, f, i, Incremented(products[i], ViewCounter));
  }

  /** Replacing an element that the predicate rejects by another it rejects
      does not change the filtered sequence. */
  lemma {:induction false} FilterSkipsReplaced(s: seq<Product>, f: Product -> bool, i: nat, x: Product)
    requires i < |s| && !f(s[i]) && !f(x)
    ensures SeqUtil.Filter(s[i := x], f) == SeqUtil.Filter(s, f)
  {
    var t := s[i := x];
    if i > 0 {
      assert t[0] == s[0] && t[1..] == s[1..][i - 1 := x];
      FilterSkipsReplaced(s[1..], f, i - 1, x);
      assert SeqUtil.Filter(t[1..], f) == SeqUtil.Filter(s[1..], f);
    } else {
      assert t[1..] == s[1..] && !f(t[0]);
    }
  }

  /** The tag step: name `i` is looked up under its slug `slugs[i]` and
      created when missing, one name after the other. */
  method ResolveNames(start: TagTable, names: seq<string>, slugs: seq<string>)
    returns (table: TagTable, ids: seq<nat>)
    requires |slugs| == |names|
    ensures (table, ids) == ResolveAll(start, names, slugs)
  {
    table, ids := start, [];
    var i := 0;
    while i < |names|
      invariant 0 <= i <= |names|
      invariant (table, ids) == ResolveAll(start, names[..i], slugs[..i])
    {
      var step := ResolveOne(table, names[i], slugs[i]);
      table, ids := step.0, ids + [step.1];
      ResolveAllSnoc(start, names, slugs, i);
      i := i + 1;
    }
    assert names[..i] == names && slugs[..i] == slugs;
  }

  /** Ids and slugs of products are unique, ids stay below the next one,
      the tag table is valid, and every product's tags exist. */
  predicate TablesValid(products: seq<Product>, tags: seq<Tag>, nextProductId: nat, nextTagId: nat) {
    && (forall i, j :: 0 <= i < j < |products| ==>
          products[i].id != products[j].id && products[i].slug != products[j].slug)
    && (forall i :: 0 <= i < |products| ==> products[i].id < nextProductId)
    && TagsValid(TagTable(tags, nextTagId))
    && (forall i :: 0 <= i < |products| ==> products[i].tagIds <= TagIds(tags))
  }

  class ProductStore {
    var products: seq<Product>
    var tags: seq<Tag>
    var nextProductId: nat
    var nextTagId: nat

    ghost predicate Valid()
      reads this
    {
      TablesValid(products, tags, nextProductId, nextTagId)
    }

    constructor ()
      ensures Valid()
      ensures products == [] && tags == [] && nextProductId == 0 && nextTagId == 0
    {
      products, tags := [], [];
      nextProductId, nextTagId := 0, 0;
    }

    /** The slug loop: the first candidate that no product holds, after
        `attempts` candidates that products hold. There are never more
        attempts than products. */
    method UniqueSlug(name: string, clock: nat -> nat) returns (slug: string, attempts: nat)
      ensures FindBySlug(products, slug) == None
      ensures slug == Candidate(name, clock, attempts)
      ensures forall k :: 0 <= k < attempts ==> FindBySlug(products, Candidate(name, clock, k)).Some?
      ensures attempts <= |products|
    {
      var rows := products;
      slug := Candidate(name, clock, 0);  // `generateSlug(name)`
      var slugExists := FindBySlug(rows, slug).Some?;
      var counter := 1;
      SlugsSize(rows);
      while slugExists
        invariant 1 <= counter <= |rows| + 1
        invariant slug == Candidate(name, clock, counter - 1)
        invariant slugExists == FindBySlug(rows, slug).Some?
        invariant forall k :: 0 <= k < counter - 1 ==> FindBySlug(rows, Candidate(name, clock, k)).Some?
        decreases |rows| + 1 - counter
      {
        AllTakenBound(name, clock, counter, Slugs(rows));
        slug := Candidate(name, clock, counter);  // `${generateSlug(name)}-${counter}`
        slugExists := FindBySlug(rows, slug).Some?;
        counter := counter + 1;
      }
      attempts := counter - 1;
    }

    /** The tag step on the stored tag table; the products stay. */
    method ResolveTags(names: seq<string>, stamps: nat -> nat) returns (ids: seq<nat>)
      modifies this
      requires Valid()
      ensures Valid()
      ensures products == old(products) && nextProductId == old(nextProductId)
      ensures var r := ResolveAll(TagTable(old(tags), old(nextTagId)), names, TagSlugs(names, stamps));
        TagTable(tags, nextTagId) == r.0 && ids == r.1
    {
      var slugs := TagSlugs(names, stamps);
      var table;
      table, ids := ResolveNames(TagTable(tags, nextTagId), names, slugs);
      ResolveAllValid(TagTable(tags, nextTagId), names, TagSlugs(names, stamps));
      GrowTagsValid(products, tags, nextProductId, nextTagId, table);
      tags, nextTagId := table.tags, table.nextId;
    }

    /** The steps of createProduct after validation: the first free slug
        candidate, the tag step, then the new row with the next id. */
    method AddProduct(input: ProductInput, userId: string, slugClock: nat -> nat, tagStamps: nat -> nat,
                      now: int) returns (row: Product)
      modifies this
      requires Valid()
      ensures Valid()
      ensures var res := ResolveAll(TagTable(old(tags), old(nextTagId)), input.tags, TagSlugs(input.tags, tagStamps));
        && TagTable(tags, nextTagId) == res.0
        && products == old(products) + [row]
        && nextProductId == old(nextProductId) + 1
        && row == NewRow(old(nextProductId), input, row.slug, userId, now, IdSet(res.1))
        && FindBySlug(old(products), row.slug) == None
        && FindBySlug(products, row.slug) == Some(row)
        && (exists k :: 0 <= k <= |old(products)| && row.slug == Candidate(input.name, slugClock, k)
              && forall j :: 0 <= j < k ==> FindBySlug(old(products), Candidate(input.name, slugClock, j)).Some?)
    {
      var slug, attempts := UniqueSlug(input.name, slugClock);
      var ids := ResolveTags(input.tags, tagStamps);
      ResolvedIdsAreTags(TagTable(old(tags), old(nextTagId)), input.tags, TagSlugs(input.tags, tagStamps));
      row := NewRow(nextProductId, input, slug, userId, now, IdSet(ids));
      AppendValid(products, tags, nextProductId, nextTagId, row);
      NewSlugIsFound(products, row);
      products := products + [row];
      nextProductId := nextProductId + 1;
    }

    /** `createProduct(formData)`: the guard, the validation, then the row. */
    method CreateProduct(session: Option<SessionUser>, form: FormData, isUrl: string -> bool,
                         slugClock: nat -> nat, tagStamps: nat -> nat, now: int)
      returns (r: Result<Product, ErrorMessage>)
      modifies this
      requires Valid()
      ensures Valid()
      ensures RequireAdmin(session).Err? ==>
        r == Err(Text(RequireAdmin(session).error)) && unchanged(this)
      ensures RequireAdmin(session).Ok? && Validate(ExtractForm(form), isUrl).Err? ==>
        r == Err(Validate(ExtractForm(form), isUrl).error) && unchanged(this)
      ensures r.Ok? <==> RequireAdmin(session).Ok? && Validate(ExtractForm(form), isUrl).Ok?
      ensures r.Ok? ==>
        var input := Validate(ExtractForm(form), isUrl).value;
        var res := ResolveAll(TagTable(old(tags), old(nextTagId)), input.tags, TagSlugs(input.tags, tagStamps));
        && TagTable(tags, nextTagId) == res.0
        && products == old(products) + [r.value]
        && nextProductId == old(nextProductId) + 1
        && r.value == NewRow(old(nextProductId), input, r.value.slug, RequireAdmin(session).value.id, now, IdSet(res.1))
        && FindBySlug(old(products), r.value.slug) == None
        && FindBySlug(products, r.value.slug) == Some(r.value)
        && (exists k :: 0 <= k <= |old(products)| && r.value.slug == Candidate(input.name, slugClock, k)
              && forall j :: 0 <= j < k ==> FindBySlug(old(products), Candidate(input.name, slugClock, j)).Some?)
    {
      var guard := RequireAdmin(session);
      if guard.Err? {
        return Err(Text(guard.error));
      }
      var validated := Validate(ExtractForm(form), isUrl);
      if validated.Err? {
        return Err(validated.error);
      }
      var row := AddProduct(validated.value, guard.value.id, slugClock, tagStamps, now);
      r := Ok(row);
    }

    /** `getProductBySlug(slug)`: the row as it was read, and its related
        products; the view is counted on the stored row. */
    method GetProductBySlug(slug: string) returns (r: Result<(Product, seq<ProductSummary>), string>)
      modifies this
      requires Valid()
      ensures Valid()
      ensures FindBySlug(old(products), slug) == None ==> r == Err(NotFound) && unchanged(this)
      ensures FindBySlug(old(products), slug).Some? ==>
        var p := FindBySlug(old(products), slug).value;
        && r == Ok((p, RelatedProducts(old(products), p)))
        && tags == old(tags) && nextTagId == old(nextTagId) && nextProductId == old(nextProductId)
        && |products| == |old(products)|
        && forall j :: 0 <= j < |products| ==>
             products[j] == if old(products)[j].id == p.id then Incremented(old(products)[j], ViewCounter)
                            else old(products)[j]
    {
      var found := FindBySlug(products, slug);
      if found == None {
        return Err(NotFound);
      }
      var p := found.value;
      ghost var i :| 0 <= i < |products| && products[i] == p;
      ghost var before := products;
      var counted := IncrementViewCount(p.id);
      assert products == before[i := Incremented(before[i], ViewCounter)];
      RelatedIgnoresOwnViews(before, p, i);
      var related := RelatedProducts(products, p);
      r := Ok((p, related));
    }

    /** incrementViewCount and incrementClickCount: `ok` says whether a row
        had the id (an update of a missing row fails). */
    method Increment(id: nat, counter: Counter) returns (ok: bool)
      modifies this
      requires Valid()
      ensures Valid()
      ensures ok <==> IndexOfId(old(products), id).Some?
      ensures tags == old(tags) && nextTagId == old(nextTagId) && nextProductId == old(nextProductId)
      ensures |products| == |old(products)|
      ensures forall j :: 0 <= j < |products| ==>
        products[j] == if old(products)[j].id == id then Incremented(old(products)[j], counter) else old(products)[j]
    {
      var index := IndexOfId(products, id);
      if index == None {
        return false;
      }
      var i := index.value;
      var row := Incremented(products[i], counter);
      ReplaceValid(products, tags, nextProductId, nextTagId, i, row);
      products := products[i := row];
      ok := true;
    }

    method IncrementViewCount(id: nat) returns (ok: bool)
      modifies this
      requires Valid()
      ensures Valid()
      ensures ok <==> IndexOfId(old(products), id).Some?
      ensures tags == old(tags) && nextTagId == old(nextTagId) && nextProductId == old(nextProductId)
      ensures |products| == |old(products)|
      ensures forall j :: 0 <= j < |products| ==>
        products[j] == if old(products)[j].id == id then Incremented(old(products)[j], ViewCounter) else old(products)[j]
    {
      ok := Increment(id, ViewCounter);
    }

    method IncrementClickCount(id: nat) returns (ok: bool)
      modifies this
      requires Valid()
      ensures Valid()
      ensures ok <==> IndexOfId(old(products), id).Some?
      ensures tags == old(tags) && nextTagId == old(nextTagId) && nextProductId == old(nextProductId)
      ensures |products| == |old(products)|
      ensures forall j :: 0 <= j < |products| ==>
        products[j] == if old(products)[j].id == id then Incremented(old(products)[j], ClickCounter) else old(products)[j]
    {
      ok := Increment(id, ClickCounter);
    }

    /** The steps of updateProduct after validation: the tag step, then the
        row at `i` takes the form's columns and the resolved tags. */
    method ReplaceProduct(i: nat, input: ProductInput, tagStamps: nat -> nat) returns (row: Product)
      modifies this
      requires Valid() && i < |products|
      ensures Valid()
      ensures var res := ResolveAll(TagTable(old(tags), old(nextTagId)), input.tags, TagSlugs(input.tags, tagStamps));
        && TagTable(tags, nextTagId) == res.0
        && nextProductId == old(nextProductId)
        && row == UpdatedRow(old(products)[i], input, IdSet(res.1))
        && products == old(products)[i := row]
    {
      var ids := ResolveTags(input.tags, tagStamps);
      ResolvedIdsAreTags(TagTable(old(tags), old(nextTagId)), input.tags, TagSlugs(input.tags, tagStamps));
      row := UpdatedRow(products[i], input, IdSet(ids));
      ReplaceValid(products, tags, nextProductId, nextTagId, i, row);
      products := products[i := row];
    }

    /** `updateProduct(id, formData)`: the guard, then the lookup, then the
        validation; the tags are resolved and the row's columns and tag
        relation replaced. */
    method UpdateProduct(session: Option<SessionUser>, id: nat, form: FormData, isUrl: string -> bool,
                         tagStamps: nat -> nat)
      returns (r: Result<Product, ErrorMessage>)
      modifies this
      requires Valid()
      ensures Valid()
      ensures RequireAdmin(session).Err? ==>
        r == Err(Text(RequireAdmin(session).error)) && unchanged(this)
      ensures RequireAdmin(session).Ok? && IndexOfId(old(products), id) == None ==>
        r == Err(Text(NotFound)) && unchanged(this)
      ensures (RequireAdmin(session).Ok? && IndexOfId(old(products), id).Some?
                && Validate(ExtractForm(form), isUrl).Err?) ==>
        r == Err(Validate(ExtractForm(form), isUrl).error) && unchanged(this)
      ensures r.Ok? <==>
        RequireAdmin(session).Ok? && IndexOfId(old(products), id).Some? && Validate(ExtractForm(form), isUrl).Ok?
      ensures r.Ok? ==>
        var i := IndexOfId(old(products), id).value;
        var input := Validate(ExtractForm(form), isUrl).value;
        var res := ResolveAll(TagTable(old(tags), old(nextTagId)), input.tags, TagSlugs(input.tags, tagStamps));
        && TagTable(tags, nextTagId) == res.0
        && nextProductId == old(nextProductId)
        && r.value == UpdatedRow(old(products)[i], input, IdSet(res.1))
        && products == old(products)[i := r.value]
        && r.value.id == id && r.value.slug == old(products)[i].slug
        && r.value.createdById == old(products)[i].createdById && r.value.createdAt == old(products)[i].createdAt
        && r.value.viewCount == old(products)[i].viewCount && r.value.clickCount == old(products)[i].clickCount
    {
      var guard := RequireAdmin(session);
      if guard.Err? {
        return Err(Text(guard.error));
      }
      var index := IndexOfId(products, id);
      if index == None {
        return Err(Text(NotFound));
      }
      var i := index.value;
      var validated := Validate(ExtractForm(form), isUrl);
      if validated.Err? {
        return Err(validated.error);
      }
      var row := ReplaceProduct(i, validated.value, tagStamps);
      r := Ok(row);
    }

    /** `deleteProduct(id)`: the guard, then the lookup; `destroyed` is the
        public id handed to `deleteCloudinaryImage`, if any. Only that row
        goes; the tags stay. */
    method DeleteProduct(session: Option<SessionUser>, id: nat)
      returns (r: Result<(), string>, destroyed: Option<string>)
      modifies this
      requires Valid()
      ensures Valid()
      ensures RequireAdmin(session).Err? ==>
        r == Err(RequireAdmin(session).error) && destroyed == None && unchanged(this)
      ensures RequireAdmin(session).Ok? && IndexOfId(old(products), id) == None ==>
        r == Err(NotFound) && destroyed == None && unchanged(this)
      ensures r.Ok? <==> RequireAdmin(session).Ok? && IndexOfId(old(products), id).Some?
      ensures r.Ok? ==>
        var i := IndexOfId(old(products), id).value;
        && destroyed == ImageToDestroy(old(products)[i].thumbnailUrl)
        && products == old(products)[..i] + old(products)[i + 1..]
        && tags == old(tags) && nextTagId == old(nextTagId) && nextProductId == old(nextProductId)
        && IndexOfId(products, id) == None
        && forall p :: p in products <==> p in old(products) && p.id != id
    {
      var guard := RequireAdmin(session);
      if guard.Err? {
        return Err(guard.error), None;
      }
      var index := IndexOfId(products, id);
      if index == None {
        return Err(NotFound), None;
      }
      var i := index.value;
      destroyed := ImageToDestroy(products[i].thumbnailUrl);
      RemoveKeepsValid(products, tags, nextProductId, nextTagId, i);
      RemoveLeavesOthers(products, i);
      products := products[..i] + products[i + 1..];
      r := Ok(());
    }
  }

  /** Appending a row with the next id, a new slug and existing tags keeps the
      tables valid. */
  lemma AppendValid(products: seq<Product>, tags: seq<Tag>, nextProductId: nat, nextTagId: nat, row: Product)
    requires TablesValid(products, tags, nextProductId, nextTagId)
    requires row.id == nextProductId && FindBySlug(products, row.slug) == None && row.tagIds <= TagIds(tags)
    ensures TablesValid(products + [row], tags, nextProductId + 1, nextTagId)
  {
    var s := products + [row];
    forall i, j | 0 <= i < j < |s| ensures s[i].id != s[j].id && s[i].slug != s[j].slug {
      if j == |products| {
        assert s[i] == products[i] && products[i] in products;
      } else {
        assert s[i] == products[i] && s[j] == products[j];
      }
    }
  }

  /** Replacing a row by one with the same id and slug and existing tags keeps
      the tables valid. */
  lemma ReplaceValid(products: seq<Product>, tags: seq<Tag>, nextProductId: nat, nextTagId: nat,
                     i: nat, row: Product)
    requires TablesValid(products, tags, nextProductId, nextTagId)
    requires i < |products| && row.id == products[i].id && row.slug == products[i].slug
    requires row.tagIds <= TagIds(tags)
    ensures TablesValid(products[i := row], tags, nextProductId, nextTagId)
  {
  }

  /** Growing the tag table to a valid extension keeps the tables valid. */
  lemma GrowTagsValid(products: seq<Product>, tags: seq<Tag>, nextProductId: nat, nextTagId: nat,
                      table: TagTable)
    requires TablesValid(products, tags, nextProductId, nextTagId)
    requires tags <= table.tags && TagsValid(table)
    ensures TablesValid(products, table.tags, nextProductId, table.nextId)
  {
    TagIdsGrow(tags, table.tags);
  }

  /** Every id the tag step answers is the id of a tag in the resulting table. */
  lemma ResolvedIdsAreTags(t: TagTable, names: seq<string>, slugs: seq<string>)
    requires |slugs| == |names|
    ensures IdSet(ResolveAll(t, names, slugs).1) <= TagIds(ResolveAll(t, names, slugs).0.tags)
  {
    ResolvedIdsExist(t, names, slugs);
  }

  /** The slugs of the rows. */
  function Slugs(products: seq<Product>): (r: set<string>)
    ensures forall s :: s in r <==> FindBySlug(products, s).Some?
  {
    if products == [] then {}
    else {products[0].slug} + Slugs(products[1..])
  }

  lemma {:induction false} SlugsSize(products: seq<Product>)
    ensures |Slugs(products)| <= |products|
  {
    if products != [] {
      SlugsSize(products[1..]);
    }
  }

  /** A row whose slug is new is what the lookup by that slug finds. */
  lemma {:induction false} NewSlugIsFound(products: seq<Product>, row: Product)
    requires FindBySlug(products, row.slug) == None
    ensures FindBySlug(products + [row], row.slug) == Some(row)
  {
    if products != [] {
      assert (products + [row])[1..] == products[1..] + [row];
      NewSlugIsFound(products[1..], row);
    }
  }

  /** Removing the row at `i` keeps the tables valid. */
  lemma RemoveKeepsValid(products: seq<Product>, tags: seq<Tag>, nextProductId: nat, nextTagId: nat, i: nat)
    requires TablesValid(products, tags, nextProductId, nextTagId)
    requires i < |products|
    ensures TablesValid(products[..i] + products[i + 1..], tags, nextProductId, nextTagId)
  {
    var rest := products[..i] + products[i + 1..];
    assert forall j :: 0 <= j < |rest| ==> rest[j] == products[if j < i then j else j + 1];
  }

  /** Removing the row at `i` leaves exactly the other rows; with unique ids,
      no row has the removed id any more. */
  lemma RemoveLeavesOthers(products: seq<Product>, i: nat)
    requires i < |products|
    requires forall a, b :: 0 <= a < b < |products| ==> products[a].id != products[b].id
    ensures var rest := products[..i] + products[i + 1..];
      && IndexOfId(rest, products[i].id) == None
      && forall p :: p in rest <==> p in products && p.id != products[i].id
  {
    var rest := products[..i] + products[i + 1..];
    assert forall j :: 0 <= j < |rest| ==> rest[j] == products[if j < i then j else j + 1];
    forall p ensures p in rest <==> p in products && p.id != products[i].id {
      if p in products && p.id != products[i].id {
        var k :| 0 <= k < |products| && products[k] == p;
        assert rest[if k < i then k else k - 1] == p;
      }
    }
  }
}
