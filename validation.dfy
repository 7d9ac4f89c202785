/** The input side of createProduct and updateProduct in
    lib/actions/product.actions.ts: reading the submitted form, the
    `productSchema` checks, and the mapping of validated text to stored
    columns. */
module ProductSchema {
  import opened Wrappers
  import opened Strings

  datatype Category = APP | SAAS | AI_AGENT | TOOL
  datatype PricingTier = FREE | FREEMIUM | PAID | ENTERPRISE
  datatype Status = DRAFT | PUBLISHED

  /** `z.nativeEnum(ProductCategory)` on a string. */
  function ParseCategory(s: string): (r: Option<Category>)
    ensures r.Some? <==> s in {"APP", "SAAS", "AI_AGENT", "TOOL"}
  {
    if s == "APP" then Some(APP)
    else if s == "SAAS" then Some(SAAS)
    else if s == "AI_AGENT" then Some(AI_AGENT)
    else if s == "TOOL" then Some(TOOL)
    else None
  }

  function ParsePricingTier(s: string): (r: Option<PricingTier>)
    ensures r.Some? <==> s in {"FREE", "FREEMIUM", "PAID", "ENTERPRISE"}
  {
    if s == "FREE" then Some(FREE)
    else if s == "FREEMIUM" then Some(FREEMIUM)
    else if s == "PAID" then Some(PAID)
    else if s == "ENTERPRISE" then Some(ENTERPRISE)
    else None
  }

  function ParseStatus(s: string): (r: Option<Status>)
    ensures r.Some? <==> s in {"DRAFT", "PUBLISHED"}
  {
    if s == "DRAFT" then Some(DRAFT)
    else if s == "PUBLISHED" then Some(PUBLISHED)
    else None
  }

  // ---------------------------------------------------------------------------
  // Reading the form
  // ---------------------------------------------------------------------------

  /** The submitted fields; a key that was not sent is absent. */
  type FormData = map<string, string>

  /** `formData.get(key)`: the value, or `null` (here `None`) when the key was
      not sent. */
  function Get(form: FormData, key: string): (r: Option<string>)
    ensures r.Some? <==> key in form
    ensures r.Some? ==> r.value == form[key]
  {
    if key in form then Some(form[key]) else None
  }

  /** `v ? v.split(',').map(t => t.trim()) : []`: a missing or empty field
      gives no items; otherwise every comma-separated piece, trimmed, in order,
      empty pieces included. */
  function SplitList(v: Option<string>): (r: seq<string>)
    ensures v == None || v == Some("") ==> r == []
    ensures v.Some? && v.value != "" ==>
      |r| == |Split(v.value, ',')| == Count(v.value, ',') + 1
      && forall i :: 0 <= i < |r| ==> r[i] == Trim(Split(v.value, ',')[i])
  {
    if v == None || v == Some("") then []
    else
      SplitPieces(v.value, ',');
      var pieces := Split(v.value, ',');
      seq(|pieces|, i requires 0 <= i < |pieces| => Trim(pieces[i]))
  }

  /** `(v as T) || fallback`: `null` and the empty string both give the fallback. */
  function OrDefault(v: Option<string>, fallback: string): (r: string)
    ensures v.Some? && v.value != "" ==> r == v.value
    ensures v.None? || v.value == "" ==> r == fallback
    ensures r == "" ==> fallback == ""
  {
    if v == None || v == Some("") then fallback else v.value
  }

  /** The object built from the form before validation. */
  datatype RawProduct = RawProduct(
    name: Option<string>,
    description: Option<string>,
    category: Option<string>,
    serviceUrl: Option<string>,
    thumbnailUrl: Option<string>,
    demoUrl: Option<string>,
    videoUrl: Option<string>,
    pricingTier: string,
    price: Option<string>,
    techStack: seq<string>,
    apiEndpoint: Option<string>,
    metaTitle: Option<string>,
    metaDescription: Option<string>,
    status: string,
    tags: seq<string>)

  /** Form extraction: every field is read as it was sent; the pricing tier and
      the status fall back to FREE and DRAFT, and the two list fields are split. */
  function ExtractForm(form: FormData): (raw: RawProduct)
    ensures raw.name == Get(form, "name") && raw.description == Get(form, "description")
    ensures raw.category == Get(form, "category") && raw.serviceUrl == Get(form, "serviceUrl")
    ensures raw.thumbnailUrl == Get(form, "thumbnailUrl")
    ensures raw.demoUrl == Get(form, "demoUrl") && raw.videoUrl == Get(form, "videoUrl")
    ensures raw.price == Get(form, "price") && raw.apiEndpoint == Get(form, "apiEndpoint")
    ensures raw.metaTitle == Get(form, "metaTitle") && raw.metaDescription == Get(form, "metaDescription")
    ensures raw.pricingTier == OrDefault(Get(form, "pricingTier"), "FREE")
    ensures raw.status == OrDefault(Get(form, "status"), "DRAFT")
    ensures raw.tags == SplitList(Get(form, "tags"))
    ensures raw.techStack == SplitList(Get(form, "techStack"))
  {
    RawProduct(
      Get(form, "name"),
      Get(form, "description"),
      Get(form, "category"),
      Get(form, "serviceUrl"),
      Get(form, "thumbnailUrl"),
      Get(form, "demoUrl"),
      Get(form, "videoUrl"),
      OrDefault(Get(form, "pricingTier"), "FREE"),
      Get(form, "price"),
      SplitList(Get(form, "techStack")),
      Get(form, "apiEndpoint"),
      Get(form, "metaTitle"),
      Get(form, "metaDescription"),
      OrDefault(Get(form, "status"), "DRAFT"),
      SplitList(Get(form, "tags")))
  }

  /** A comma-separated field whose pieces are already trimmed comes back as
      exactly those pieces, in order, empty pieces kept. */
  lemma SplitListRoundTrip(pieces: seq<string>)
    requires |pieces| >= 1
    requires forall k :: 0 <= k < |pieces| ==> FreeOf(pieces[k], ',') && Trim(pieces[k]) == pieces[k]
    requires Join(pieces, ',') != ""
    ensures SplitList(Some(Join(pieces, ','))) == pieces
  {
    SplitJoin(pieces, ',');
  }

  // ---------------------------------------------------------------------------
  // productSchema
  // ---------------------------------------------------------------------------

  /** Why zod rejected a field when the schema gives no message of its own. */
  datatype IssueCode = InvalidType | InvalidEnumValue | InvalidUrl | InvalidUnion

  /** An error as returned to the caller: a message written in the source, or
      zod's default message for the field and the kind of issue. */
  datatype ErrorMessage = Text(text: string) | Default(field: string, code: IssueCode)

  const NameTooShort: string := "상품명은 최소 2자 이상이어야 합니다"
  const DescriptionTooShort: string := "설명은 최소 10자 이상이어야 합니다"
  const BadServiceUrl: string := "올바른 URL을 입력해주세요"

  /** The validated object. Every optional text field is present: zod's
      `.optional()` admits `undefined` only, and form reading never yields it. */
  datatype ProductInput = ProductInput(
    name: string,
    description: string,
    category: Category,
    serviceUrl: string,
    thumbnailUrl: string,
    demoUrl: string,
    videoUrl: string,
    pricingTier: PricingTier,
    price: string,
    techStack: seq<string>,
    apiEndpoint: string,
    metaTitle: string,
    metaDescription: string,
    status: Status,
    tags: seq<string>)

  const FieldCount: nat := 15

  /** `z.string().optional()` on a form value: `null` is not a string. */
  function OptionalText(field: string, v: Option<string>): Option<ErrorMessage> {
    if v == None then Some(Default(field, InvalidType)) else None
  }

  /** `z.string().url().optional().or(z.literal(''))`: `null` fails both
      branches of the union; a non-empty string must be a URL. */
  function OptionalUrl(field: string, v: Option<string>, isUrl: string -> bool): Option<ErrorMessage> {
    match v
    case None => Some(Default(field, InvalidUnion))
    case Some(s) => if s == "" || isUrl(s) then None else Some(Default(field, InvalidUrl))
  }

  /** The issue zod raises for the field at position `k` of the schema (in
      declaration order), if any, with the message it carries. `isUrl` stands
      for zod's URL check. A missing required or optional text is not a
      string; a missing URL field fails both branches of its union. */
  function FieldIssue(raw: RawProduct, isUrl: string -> bool, k: nat): (r: Option<ErrorMessage>)
    // name: at least 2 characters
    ensures k == 0 ==>
      && (r == None <==> raw.name.Some? && |raw.name.value| >= 2)
      && (raw.name.None? ==> r == Some(Default("name", InvalidType)))
      && (raw.name.Some? && |raw.name.value| < 2 ==> r == Some(Text(NameTooShort)))
    // description: at least 10 characters
    ensures k == 1 ==>
      && (r == None <==> raw.description.Some? && |raw.description.value| >= 10)
      && (raw.description.None? ==> r == Some(Default("description", InvalidType)))
      && (raw.description.Some? && |raw.description.value| < 10 ==> r == Some(Text(DescriptionTooShort)))
    // category: one of the four names
    ensures k == 2 ==>
      && (r == None <==> raw.category.Some? && raw.category.value in {"APP", "SAAS", "AI_AGENT", "TOOL"})
      && (raw.category.None? ==> r == Some(Default("category", InvalidType)))
      && (raw.category.Some? && r.Some? ==> r == Some(Default("category", InvalidEnumValue)))
    // serviceUrl: a URL
    ensures k == 3 ==>
      && (r == None <==> raw.serviceUrl.Some? && isUrl(raw.serviceUrl.value))
      && (raw.serviceUrl.None? ==> r == Some(Default("serviceUrl", InvalidType)))
      && (raw.serviceUrl.Some? && r.Some? ==> r == Some(Text(BadServiceUrl)))
    // demoUrl and videoUrl: empty or a URL
    ensures k == 5 ==>
      && (r == None <==> raw.demoUrl.Some? && (raw.demoUrl.value == "" || isUrl(raw.demoUrl.value)))
      && (raw.demoUrl.None? ==> r == Some(Default("demoUrl", InvalidUnion)))
      && (raw.demoUrl.Some? && r.Some? ==> r == Some(Default("demoUrl", InvalidUrl)))
    ensures k == 6 ==>
      && (r == None <==> raw.videoUrl.Some? && (raw.videoUrl.value == "" || isUrl(raw.videoUrl.value)))
      && (raw.videoUrl.None? ==> r == Some(Default("videoUrl", InvalidUnion)))
      && (raw.videoUrl.Some? && r.Some? ==> r == Some(Default("videoUrl", InvalidUrl)))
    // the optional texts: any string
    ensures k == 4 ==>
      && (r == None <==> raw.thumbnailUrl.Some?) && (r.Some? ==> r == Some(Default("thumbnailUrl", InvalidType)))
    ensures k == 8 ==>
      && (r == None <==> raw.price.Some?) && (r.Some? ==> r == Some(Default("price", InvalidType)))
    ensures k == 10 ==>
      && (r == None <==> raw.apiEndpoint.Some?) && (r.Some? ==> r == Some(Default("apiEndpoint", InvalidType)))
    ensures k == 11 ==>
      && (r == None <==> raw.metaTitle.Some?) && (r.Some? ==> r == Some(Default("metaTitle", InvalidType)))
    ensures k == 12 ==>
      && (r == None <==> raw.metaDescription.Some?)
      && (r.Some? ==> r == Some(Default("metaDescription", InvalidType)))
    // pricingTier and status: one of their names
    ensures k == 7 ==>
      && (r == None <==> raw.pricingTier in {"FREE", "FREEMIUM", "PAID", "ENTERPRISE"})
      && (r.Some? ==> r == Some(Default("pricingTier", InvalidEnumValue)))
    ensures k == 13 ==>
      && (r == None <==> raw.status in {"DRAFT", "PUBLISHED"})
      && (r.Some? ==> r == Some(Default("status", InvalidEnumValue)))
    // techStack and tags: never an issue
    ensures k == 9 || k >= FieldCount - 1 ==> r == None
  {
    if k == 0 then
      match raw.name
      case None => Some(Default("name", InvalidType))
      case Some(s) => if |s| < 2 then Some(Text(NameTooShort)) else None
    else if k == 1 then
      match raw.description
      case None => Some(Default("description", InvalidType))
      case Some(s) => if |s| < 10 then Some(Text(DescriptionTooShort)) else None
    else if k == 2 then
      match raw.category
      case None => Some(Default("category", InvalidType))
      case Some(s) => if ParseCategory(s) == None then Some(Default("category", InvalidEnumValue)) else None
    else if k == 3 then
      match raw.serviceUrl
      case None => Some(Default("serviceUrl", InvalidType))
      case Some(s) => if !isUrl(s) then Some(Text(BadServiceUrl)) else None
    else if k == 4 then OptionalText("thumbnailUrl", raw.thumbnailUrl)
    else if k == 5 then OptionalUrl("demoUrl", raw.demoUrl, isUrl)
    else if k == 6 then OptionalUrl("videoUrl", raw.videoUrl, isUrl)
    else if k == 7 then
      if ParsePricingTier(raw.pricingTier) == None then Some(Default("pricingTier", InvalidEnumValue)) else None
    else if k == 8 then OptionalText("price", raw.price)
    else if k == 10 then OptionalText("apiEndpoint", raw.apiEndpoint)
    else if k == 11 then OptionalText("metaTitle", raw.metaTitle)
    else if k == 12 then OptionalText("metaDescription", raw.metaDescription)
    else if k == 13 then
      if ParseStatus(raw.status) == None then Some(Default("status", InvalidEnumValue)) else None
    else None  // techStack (9) and tags (14) are arrays of strings already
  }

  /** The first issue at position `k` or later. */
  function FirstIssueFrom(raw: RawProduct, isUrl: string -> bool, k: nat): (r: Option<ErrorMessage>)
    requires k <= FieldCount
    ensures r == None <==> forall j :: k <= j < FieldCount ==> FieldIssue(raw, isUrl, j) == None
    ensures r.Some? ==>
      exists j :: (k <= j < FieldCount && FieldIssue(raw, isUrl, j) == r
        && forall i :: k <= i < j ==> FieldIssue(raw, isUrl, i) == None)
    decreases FieldCount - k
  {
    if k == FieldCount then None
    else if FieldIssue(raw, isUrl, k).Some? then FieldIssue(raw, isUrl, k)
    else FirstIssueFrom(raw, isUrl, k + 1)
  }

  /** `productSchema.parse(data)` with `error.issues[0].message` on failure:
      the result is an error exactly when some field has an issue, and then it
      is the issue of the first such field in declaration order; on success
      every value is carried over unchanged. */
  function Validate(raw: RawProduct, isUrl: string -> bool): (r: Result<ProductInput, ErrorMessage>)
    ensures r.Ok? <==> forall j :: 0 <= j < FieldCount ==> FieldIssue(raw, isUrl, j) == None
    ensures r.Err? ==>
      exists j :: (0 <= j < FieldCount && FieldIssue(raw, isUrl, j) == Some(r.error)
        && forall i :: 0 <= i < j ==> FieldIssue(raw, isUrl, i) == None)
    ensures r.Ok? ==>
      && raw.name == Some(r.value.name) && raw.description == Some(r.value.description)
      && raw.serviceUrl == Some(r.value.serviceUrl) && raw.thumbnailUrl == Some(r.value.thumbnailUrl)
      && raw.demoUrl == Some(r.value.demoUrl) && raw.videoUrl == Some(r.value.videoUrl)
      && raw.price == Some(r.value.price) && raw.apiEndpoint == Some(r.value.apiEndpoint)
      && raw.metaTitle == Some(r.value.metaTitle) && raw.metaDescription == Some(r.value.metaDescription)
      && raw.category == Some(CategoryName(r.value.category))
      && raw.pricingTier == PricingTierName(r.value.pricingTier)
      && raw.status == StatusName(r.value.status)
      && raw.techStack == r.value.techStack && raw.tags == r.value.tags
  {
    match FirstIssueFrom(raw, isUrl, 0)
    case Some(e) => Err(e)
    case None =>
      assert FieldIssue(raw, isUrl, 0) == None && FieldIssue(raw, isUrl, 1) == None;
      assert FieldIssue(raw, isUrl, 2) == None && FieldIssue(raw, isUrl, 3) == None;
      assert FieldIssue(raw, isUrl, 4) == None && FieldIssue(raw, isUrl, 5) == None;
      assert FieldIssue(raw, isUrl, 6) == None && FieldIssue(raw, isUrl, 7) == None;
      assert FieldIssue(raw, isUrl, 8) == None && FieldIssue(raw, isUrl, 10) == None;
      assert FieldIssue(raw, isUrl, 11) == None && FieldIssue(raw, isUrl, 12) == None;
      assert FieldIssue(raw, isUrl, 13) == None;
      Ok(ProductInput(
        raw.name.value,
        raw.description.value,
        ParseCategory(raw.category.value).value,
        raw.serviceUrl.value,
        raw.thumbnailUrl.value,
        raw.demoUrl.value,
        raw.videoUrl.value,
        ParsePricingTier(raw.pricingTier).value,
        raw.price.value,
        raw.techStack,
        raw.apiEndpoint.value,
        raw.metaTitle.value,
        raw.metaDescription.value,
        ParseStatus(raw.status).value,
        raw.tags))
  }

  function CategoryName(c: Category): string {
    match c
    case APP => "APP"
    case SAAS => "SAAS"
    case AI_AGENT => "AI_AGENT"
    case TOOL => "TOOL"
  }

  function PricingTierName(t: PricingTier): string {
    match t
    case FREE => "FREE"
    case FREEMIUM => "FREEMIUM"
    case PAID => "PAID"
    case ENTERPRISE => "ENTERPRISE"
  }

  function StatusName(s: Status): string {
    match s
    case DRAFT => "DRAFT"
    case PUBLISHED => "PUBLISHED"
  }

  /** The schema, rule by rule: the form passes exactly when the name has at
      least 2 characters, the description at least 10, the category and the
      tier and the status are enum names, the service URL is a URL, every
      optional text field was sent, and the demo and video URLs are empty or
      URLs. */
  lemma ValidateAcceptsExactly(raw: RawProduct, isUrl: string -> bool)
    ensures Validate(raw, isUrl).Ok? <==>
      && raw.name.Some? && |raw.name.value| >= 2
      && raw.description.Some? && |raw.description.value| >= 10
      && raw.category.Some? && ParseCategory(raw.category.value).Some?
      && raw.serviceUrl.Some? && isUrl(raw.serviceUrl.value)
      && raw.thumbnailUrl.Some?
      && raw.demoUrl.Some? && (raw.demoUrl.value == "" || isUrl(raw.demoUrl.value))
      && raw.videoUrl.Some? && (raw.videoUrl.value == "" || isUrl(raw.videoUrl.value))
      && ParsePricingTier(raw.pricingTier).Some?
      && raw.price.Some?
      && raw.apiEndpoint.Some? && raw.metaTitle.Some? && raw.metaDescription.Some?
      && ParseStatus(raw.status).Some?
  {
    var ok := forall j :: 0 <= j < FieldCount ==> FieldIssue(raw, isUrl, j) == None;
    if ok {
      assert FieldIssue(raw, isUrl, 0) == None && FieldIssue(raw, isUrl, 1) == None;
      assert FieldIssue(raw, isUrl, 2) == None && FieldIssue(raw, isUrl, 3) == None;
      assert FieldIssue(raw, isUrl, 4) == None && FieldIssue(raw, isUrl, 5) == None;
      assert FieldIssue(raw, isUrl, 6) == None && FieldIssue(raw, isUrl, 7) == None;
      assert FieldIssue(raw, isUrl, 8) == None && FieldIssue(raw, isUrl, 10) == None;
      assert FieldIssue(raw, isUrl, 11) == None && FieldIssue(raw, isUrl, 12) == None;
      assert FieldIssue(raw, isUrl, 13) == None;
    }
  }

  /** A form that leaves out an optional text field (the admin page leaves out
      every empty field) is rejected: the form reads it as `null`, and the
      schema's `.optional()` accepts `undefined` only. */
  lemma MissingOptionalFieldIsRejected(form: FormData, isUrl: string -> bool, key: string)
    requires key in {"thumbnailUrl", "demoUrl", "videoUrl", "price", "apiEndpoint", "metaTitle", "metaDescription"}
    requires key !in form
    ensures Validate(ExtractForm(form), isUrl).Err?
  {
    ValidateAcceptsExactly(ExtractForm(form), isUrl);
  }

  /** The first rule is checked first: a missing or one-character name is the
      error reported, whatever else is wrong. */
  lemma NameIssueComesFirst(raw: RawProduct, isUrl: string -> bool)
    requires raw.name == None || |raw.name.value| < 2
    ensures Validate(raw, isUrl) == Err(if raw.name == None then Default("name", InvalidType) else Text(NameTooShort))
  {
    assert FieldIssue(raw, isUrl, 0).Some?;
  }

  // ---------------------------------------------------------------------------
  // Stored columns
  // ---------------------------------------------------------------------------

  /** The text a stored optional column reads back as in the form: `null`
      shows as the empty string. */
  function Shown(v: Option<string>): string {
    if v.Some? then v.value else ""
  }

  /** `value || null`: the empty string is stored as `null`. */
  function NullIfEmpty(s: string): (r: Option<string>)
    ensures r == None <==> s == ""
    ensures r.Some? ==> r.value == s
  {
    if s == "" then None else Some(s)
  }

  /** A stored optional column is `null` or a non-empty text: `value || null`
      never stores the empty string. */
  predicate NonEmptyOrNull(v: Option<string>) {
    v.None? || v.value != ""
  }

  /** A column that is `null` or non-empty and reads back as `s` is the
      column `value || null` stores for `s`. */
  lemma ShownNullIfEmpty(v: Option<string>, s: string)
    requires NonEmptyOrNull(v) && Shown(v) == s
    ensures v == NullIfEmpty(s)
  {
  }
}
