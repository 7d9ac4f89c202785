# Product marketplace back end, modelled in Dafny

This project models the server side of a small product marketplace, a
Next.js application on Prisma. It covers:

- the product server actions in `lib/actions/product.actions.ts`:
  - `createProduct`, `getProducts`, `getProductBySlug`, `updateProduct`
    and `deleteProduct`;
  - `incrementViewCount` and `incrementClickCount`;
  - `getAllTags`;
- the helpers those actions use from `lib/utils.ts`: `generateSlug`,
  `extractCloudinaryPublicId` and `formatRelativeTime`;
- the access guards of `lib/auth.ts`: `requireAdmin` and `requireAuth`;
- `isCloudinaryUrl` from `lib/cloudinary.ts`.

The database is modelled as values and one object:

- The product table is a sequence of `Product` rows. The tag table is a
  sequence of `Tag` rows. A product's tags are a set of tag ids.
- The read queries (`getProducts`, the related-products query, `getAllTags`)
  are functions of the table: `where` is a filter, `orderBy` a stable
  sort, `skip`/`take` a window.
- The actions that write (`createProduct`, `updateProduct`, `deleteProduct`,
  the counters, and `getProductBySlug`, which counts a view) are methods of
  the class `ProductStore`. Its fields are the two tables and the next free
  ids.
- Every method keeps the store's invariant: product ids and slugs are
  unique, tag ids and slugs are unique, and every tag a product refers to
  exists.

Inputs the actions read from their environment are parameters:

- the session's user;
- the submitted form, as a map from field name to text;
- every `Date.now()` reading, as a clock function of the attempt number;
- zod's URL check, as a predicate `isUrl`;
- the creation time.

Modules, one per file:

| module | file | models |
|---|---|---|
| `Wrappers` | wrappers.dfy | `Option`, `Result` |
| `Strings` | strings.dfy | JavaScript `trim`, `split`, `includes`, `Number.prototype.toString(radix)` |
| `SeqUtil` | seq_util.dfy | filtering and a stable sort on sequences |
| `Auth` | auth.dfy | `requireAdmin`, `requireAuth` |
| `Slug` | slug.dfy | `generateSlug` |
| `SlugRetry` | slug_retry.dfy | the slug candidates of the retry loop in `createProduct` |
| `CloudinaryId` | cloudinary_id.dfy | `isCloudinaryUrl`, `extractCloudinaryPublicId` |
| `RelativeTime` | relative_time.dfy | `formatRelativeTime` |
| `ProductSchema` | validation.dfy | form reading, `productSchema`, `value \|\| null` |
| `Catalog` | catalog.dfy | rows, `getProducts`, the lookup by slug, related products, `getAllTags` |
| `Tags` | tags.dfy | the tag find-or-create step |
| `ProductActions` | store.dfy | the actions that change the tables |

Behaviours of the code that a reader might not expect, all modelled as
written:

- Tag slugs are made by `generateSlug`, so they carry a timestamp like
  product slugs do. Tags are not found again under a stable slug.
- A comma-separated list keeps its empty pieces: `"a,,b"` gives three tags,
  the middle one empty.
- The `.trim()` at the end of `generateSlug` removes white space only, and
  there is none left by then. Leading and trailing hyphens stay:
  `Slug.LeadingSpaceGivesLeadingHyphen` and
  `Slug.TrailingSpaceGivesTrailingHyphen`.
- An optional text field that is left out of the form is read as `null`,
  and zod's `.optional()` rejects `null`. Such a form fails validation; it
  is not stored with a null column. Only an empty string is stored as null.
- `thumbnailUrl` is not checked to be a URL.
- `price` is not checked to be a decimal.

## Model

| member | source | states |
|---|---|---|
| Auth.RequireAdmin | lib/auth.ts:16-28 | no session fails with the login message; a non-admin fails with the admin message; it succeeds exactly for an admin session and returns that user |
| Auth.RequireAuth | lib/auth.ts:33-41 | succeeds exactly when there is a session, returning its user; otherwise fails with the login message |
| Auth.AdminGuardRefinesAuthGuard | lib/auth.ts:16-41 | the admin guard admits exactly the admins among the sessions the login guard admits, and refuses a missing session with the same message |
| Strings.Trim | lib/actions/product.actions.ts:67 | the result is the input minus its leading and trailing white space: a slice that does not start or end with white space, with only white space outside it |
| Strings.TrimNoSpace | lib/utils.ts:23 | trimming text without white space changes nothing |
| Strings.Contains | lib/cloudinary.ts:27 | `includes` holds exactly when the substring occurs at some index |
| Strings.JoinSplit | lib/actions/product.actions.ts:67 | `split` loses nothing: joining the pieces with the separator gives the input back |
| Strings.SplitPieces | lib/actions/product.actions.ts:67 | no piece contains the separator, and there is one piece more than there are separators |
| Strings.SplitJoin | lib/actions/product.actions.ts:74 | joining pieces free of the separator and splitting again gives the same pieces, empty ones included |
| Strings.NatToString | lib/utils.ts:15 | `toString(radix)` is non-empty and made of digits of the radix |
| Strings.ParseNatToString | lib/utils.ts:15 | reading the digits back gives the number |
| Strings.NatToStringInjective | lib/utils.ts:15 | different numbers are written differently |
| Strings.NatToStringNoLeadingZero | lib/utils.ts:66-71 | zero is written `0`, and no other number starts with `0` |
| SeqUtil.Filter | lib/actions/product.actions.ts:197-206 | every kept row satisfies the predicate; each row occurs as often as in the input if it satisfies the predicate, and not at all otherwise |
| SeqUtil.SortBy | lib/actions/product.actions.ts:209-212 | the sorted rows are a permutation of the input |
| SeqUtil.SortBySorted | lib/actions/product.actions.ts:209-212 | under a total preorder, the result is ordered |
| Slug.LowerCase | lib/utils.ts:19 | no capital letter is left |
| Slug.LowerCaseOneForOne | lib/utils.ts:19 | on text without U+0130, position by position, `A`-`Z` become `a`-`z`, the Kelvin sign becomes `k` and every other character stays |
| Slug.LowerCaseAppend | lib/utils.ts:19 | lower-casing distributes over concatenation |
| Slug.StripSpecial | lib/utils.ts:20 | only word characters, white space and hyphens are kept, each taken from the input |
| Slug.StripSpecialKeepsKept | lib/utils.ts:20 | text made only of word characters, white space and hyphens is left as it is |
| Slug.StripSpecialIsFilter | lib/utils.ts:20 | the result is exactly the kept characters of the input, in order |
| Slug.CollapseSpaces | lib/utils.ts:21 | no white space is left; every character is a hyphen or from the input; a non-empty input stays non-empty |
| Slug.CollapseSpacesFixesNoSpace | lib/utils.ts:21 | text without white space is left as it is |
| Slug.CollapseSpacesKeepsSolid | lib/utils.ts:21 | every character other than white space and hyphens survives, in order, and none is added |
| Slug.CollapseSpacesAppend | lib/utils.ts:21 | replacing runs works piece by piece: the second piece starts in a run exactly when the first ends in one |
| Slug.SpaceRun | lib/utils.ts:21 | a run of white space gives one hyphen, or none when it continues a run |
| Slug.CollapseSpacesOneRun | lib/utils.ts:21 | a maximal run of white space between two texts becomes exactly one hyphen |
| Slug.CollapseHyphens | lib/utils.ts:22 | no two hyphens in a row; every character is a hyphen or from the input; after an earlier hyphen the output does not start with one; a non-empty input stays non-empty |
| Slug.CollapseHyphensFixesSingleHyphens | lib/utils.ts:22 | text without two hyphens in a row is left as it is |
| Slug.CollapseHyphensKeepsSolid | lib/utils.ts:22 | every character other than white space and hyphens survives, in order, and none is added |
| Slug.CollapseHyphensAppend | lib/utils.ts:22 | replacing runs works piece by piece: the second piece starts in a run exactly when the first ends in one |
| Slug.HyphenRun | lib/utils.ts:22 | a run of hyphens gives one hyphen, or none when it continues a run |
| Slug.CollapseHyphensOneRun | lib/utils.ts:22 | a maximal run of hyphens between two texts becomes exactly one hyphen |
| Slug.Normalize | lib/utils.ts:18-23 | a text that is already a normalised name (`a`-`z`, `0`-`9`, `_`, `-`, no two hyphens in a row) is left as it is |
| Slug.NormalizeKeepsWordChars | lib/utils.ts:18-23 | apart from hyphens, the normalised text holds exactly the word characters of the lower-cased input, in order |
| Slug.NormalizeIdempotent | lib/utils.ts:18-23 | normalising twice is normalising once |
| Slug.Timestamp | lib/utils.ts:15 | the timestamp is non-empty base-36 digits without a hyphen |
| Slug.GenerateSlug | lib/utils.ts:14-31 | every slug ends with a hyphen followed by the timestamp, with something before the hyphen |
| Slug.SlugShape | lib/utils.ts:25-30 | the slug is the stem (the normalised text, or `product` when that is empty), a hyphen and the timestamp |
| Slug.TrimIsNoOp | lib/utils.ts:18-23 | the final `trim` removes nothing |
| Slug.NormalizeAlphabet | lib/utils.ts:18-23 | the normalised text holds only `a`-`z`, `0`-`9`, `_` and `-`, never two hyphens in a row |
| Slug.NormalizeEmptyIff | lib/utils.ts:18-26 | the normalised text is empty exactly when no character of the input survives lower-casing and the removal of special characters |
| Slug.NoSurvivorsGivesProductSlug | lib/utils.ts:25-28 | such a text (Hangul only, say) gets `product-` and the timestamp |
| Slug.LeadingSpaceGivesLeadingHyphen | lib/utils.ts:18-23 | a name starting with white space normalises to text starting with a hyphen |
| Slug.TrailingSpaceGivesTrailingHyphen | lib/utils.ts:18-23 | a name ending with white space normalises to text ending with a hyphen |
| SlugRetry.Candidate | lib/actions/product.actions.ts:81-87 | candidate `k` starts with the slug generated at clock reading `k`; a retry ends with a hyphen and digits that read back as its counter |
| SlugRetry.CandidatesDistinct | lib/actions/product.actions.ts:81-90 | the retry loop never proposes the same slug twice, whatever the clock readings |
| SlugRetry.AllTakenBound | lib/actions/product.actions.ts:84-90 | when the first `n` candidates are all taken there are at least `n` taken slugs, so the loop stops |
| CloudinaryId.IsCloudinaryUrl | lib/cloudinary.ts:26-28 | true exactly when `res.cloudinary.com` occurs in the URL |
| CloudinaryId.VersionedStart | lib/utils.ts:38 | the optional group `v\d+\/` is used exactly when `v`, at least one digit, `/` and a character other than `/` and `.` follow `/upload/`; the capture then starts after that `/` |
| CloudinaryId.CaptureAt | lib/utils.ts:38 | the capture after `/upload/` exists exactly when a character other than `/` and `.` follows; it is non-empty and free of `/` and `.` |
| CloudinaryId.ScanFrom | lib/utils.ts:38-40 | from index `i`, a match exists exactly when a qualifying `/upload/` occurs at or after `i`; the capture is taken at the first one |
| CloudinaryId.ExtractPublicId | lib/utils.ts:36-44 | an id is found exactly when some `/upload/` is followed by a character other than `/` and `.`; it comes from the leftmost such occurrence |
| CloudinaryId.CaptureShape | lib/utils.ts:38 | the id is a maximal run of `[^/.]`; it starts after a `v<digits>/` segment exactly when one (with at least one digit, followed by a valid character) is there, and right after `/upload/` otherwise |
| RelativeTime.DiffInSeconds | lib/utils.ts:64 | the difference is rounded down to whole seconds, also when negative |
| RelativeTime.Bucket | lib/utils.ts:66-71 | under 60 seconds is "just now"; otherwise the largest unit reached, counted in whole units rounded down, at least 1 |
| RelativeTime.Render | lib/utils.ts:66-71 | `방금 전` exactly for "just now"; otherwise the count in plain decimal (digits that read back as the count, no leading zero), then the unit's suffix |
| RelativeTime.FormatRelativeTime | lib/utils.ts:62-72 | `방금 전` exactly when less than a minute has passed; otherwise the largest unit the difference reaches (no larger unit is reached), and a count `n` of at least 1 with `n` units reached and `n + 1` not |
| RelativeTime.UnderAMinuteIsJustNow | lib/utils.ts:66 | less than a minute ago, or in the future, reads `방금 전` |
| RelativeTime.UnitThresholds | lib/utils.ts:66-71 | each unit is used exactly in its interval: 60, 3600, 86400, 2592000, 31536000 seconds |
| RelativeTime.BucketMonotone | lib/utils.ts:66-71 | a longer difference never reads as a smaller unit or, in the same unit, a smaller count |
| ProductSchema.ParseCategory | lib/actions/product.actions.ts:18 | accepts exactly the four category names |
| ProductSchema.ParsePricingTier | lib/actions/product.actions.ts:27 | accepts exactly the four tier names |
| ProductSchema.ParseStatus | lib/actions/product.actions.ts:37 | accepts exactly `DRAFT` and `PUBLISHED` |
| ProductSchema.SplitList | lib/actions/product.actions.ts:74 | a missing or empty field gives no items; otherwise one trimmed item per comma-separated piece, in order, empty pieces included |
| ProductSchema.Get | lib/actions/product.actions.ts:52-74 | the sent value of the key, and none exactly when the key was not sent |
| ProductSchema.OrDefault | lib/actions/product.actions.ts:63 | a sent non-empty value is kept; a missing or empty one gives the fallback |
| ProductSchema.ExtractForm | lib/actions/product.actions.ts:51-75 | each of the thirteen text fields is read as sent; tier and status fall back to FREE and DRAFT; the list fields are split |
| ProductSchema.SplitListRoundTrip | lib/actions/product.actions.ts:74 | a field joined from trimmed, comma-free pieces is read back as exactly those pieces |
| ProductSchema.FieldIssue | lib/actions/product.actions.ts:15-39 | per field, when it passes and which message it fails with: name (2 characters or more, else the name message), description (10 or more, else the description message), category and pricing tier and status (one of their names, else an unknown-enum issue), service URL (a URL, else the service-URL message), demo and video URL (empty or a URL, else an invalid-URL issue), thumbnail, price, API endpoint and meta fields (sent); a missing required or optional text fails with a type or union issue; the list fields never fail |
| ProductSchema.FirstIssueFrom | lib/actions/product.actions.ts:15-39 | none exactly when no field from `k` on has an issue; otherwise the issue of the first such field |
| ProductSchema.Validate | lib/actions/product.actions.ts:15-39 | fails exactly when some field has an issue, with the first one in schema order; on success every value is carried over |
| ProductSchema.ValidateAcceptsExactly | lib/actions/product.actions.ts:15-39 | the schema rule by rule: lengths of name and description, enum names, the service URL, every optional field sent, demo and video empty or URLs |
| ProductSchema.MissingOptionalFieldIsRejected | lib/actions/product.actions.ts:58-72 | a form that leaves out an optional text field fails validation |
| ProductSchema.NameIssueComesFirst | lib/actions/product.actions.ts:161-163 | a missing or too-short name is the error reported, whatever else is wrong |
| ProductSchema.NullIfEmpty | lib/actions/product.actions.ts:119-121 | the empty string is stored as null, any other text as itself |
| ProductSchema.ShownNullIfEmpty | lib/actions/product.actions.ts:119-121 | a column that is null or non-empty is determined by the text it reads back as: it is `value \|\| null` of that text |
| Catalog.Matches | lib/actions/product.actions.ts:197-206 | with no or an empty search term, a row is selected exactly when it has the status and category asked for; with a term, exactly when it also has the term in its name or description, ignoring ASCII case |
| Catalog.Ranked | lib/actions/product.actions.ts:197-212 | the ordered rows are a permutation of the matching rows, in descending order of the sort key |
| Catalog.PositionInRanked | lib/actions/product.actions.ts:197-212 | every matching table row has a position in the ordered rows |
| Catalog.RankedRowIsListed | lib/actions/product.actions.ts:217-220 | ordered row `k` is listed on page `k / limit + 1`, at offset `k % limit` |
| Catalog.MatchingRowIsListed | lib/actions/product.actions.ts:197-220 | every matching table row is listed on some page |
| Catalog.Skip | lib/actions/product.actions.ts:219 | the offset is non-negative exactly when the page is at least 1 |
| Catalog.Window | lib/actions/product.actions.ts:219-220 | at most `take` rows, row `i` being row `skip + i` of the input; all available rows up to `take` |
| Catalog.TotalPages | lib/actions/product.actions.ts:241 | the smallest page count whose pages hold all rows; zero exactly when there are none |
| Catalog.GetProducts | lib/actions/product.actions.ts:185-253 | a page below 1 gives the failure object; otherwise the window of the filtered, ordered rows at `(page - 1) * limit`, with the total and the page count |
| Catalog.DescendingIsPreorder | lib/actions/product.actions.ts:209-212 | each sort order is a total preorder |
| Catalog.ListingMatchesAndIsOrdered | lib/actions/product.actions.ts:197-230 | a listed row is a table row that matches the filter; at most `limit` rows, in descending sort-key order |
| Catalog.TotalCountsAllMatches | lib/actions/product.actions.ts:231 | the total counts every matching row, whatever the page |
| Catalog.PageHoldsItsSlice | lib/actions/product.actions.ts:219-220 | row `offset` of page `page` is the ordered row at `(page - 1) * limit + offset` |
| Catalog.PageOfPosition | lib/actions/product.actions.ts:219-220 | every position lies on exactly one page, at offset `k % limit` |
| Catalog.FindBySlug | lib/actions/product.actions.ts:261-272 | finds a row with the slug, and finds none exactly when no row has it |
| Catalog.RelatedRows | lib/actions/product.actions.ts:282-289 | at most 4 rows, and none exactly when the table has no other PUBLISHED row of the same category |
| Catalog.RelatedProducts | lib/actions/product.actions.ts:290-296 | each summary is the projection of the related row at the same position |
| Catalog.RelatedAreTopFourByViews | lib/actions/product.actions.ts:282-297 | at most 4 other PUBLISHED rows of the same category, by non-increasing views; a candidate left out means 4 were listed, none with fewer views |
| Catalog.ByNameIsPreorder | lib/actions/product.actions.ts:529 | ordering tags by name is a total preorder |
| Catalog.ProductCount | lib/actions/product.actions.ts:530-534 | exactly the number of products that carry the tag; hence at most the number of products, and zero exactly when none carries it |
| Catalog.CountCarrying | lib/actions/product.actions.ts:530-534 | the rows the filter keeps are as many as the positions of products carrying the tag |
| Catalog.AllTags | lib/actions/product.actions.ts:526-542 | one entry per tag |
| Catalog.AllTagsSortedPermutation | lib/actions/product.actions.ts:526-542 | the listing holds each tag as often as the table does, ordered by name, each with the number of products linked to it |
| Tags.FindTagBySlug | lib/actions/product.actions.ts:97 | finds a tag with the slug, and none exactly when no tag has it |
| Tags.FindTagInPrefix | lib/actions/product.actions.ts:97-103 | a tag found stays the one found after tags are created |
| Tags.TagSlugs | lib/actions/product.actions.ts:96 | slug `i` is `generateSlug` of name `i` at its clock reading |
| Tags.ResolveOne | lib/actions/product.actions.ts:95-106 | an existing slug gives its tag's id and changes nothing; otherwise a tag with the name, the slug and the next id is appended |
| Tags.ResolveOneValid | lib/actions/product.actions.ts:99-103 | one find-or-create keeps tag ids and slugs unique |
| Tags.ResolveAll | lib/actions/product.actions.ts:93-108 | one id per name; the table only grows, by at most one tag per name |
| Tags.ResolveAllValid | lib/actions/product.actions.ts:93-108 | resolving all names keeps tag ids and slugs unique |
| Tags.ResolveAllFound | lib/actions/product.actions.ts:93-108 | the id answered for each name is that of the tag the final table holds under the name's slug |
| Tags.ResolveAllReuses | lib/actions/product.actions.ts:97-105 | a name whose slug already existed gets that tag's id |
| Tags.ResolvedIdsExist | lib/actions/product.actions.ts:105 | every answered id belongs to a tag of the final table |
| ProductActions.IndexOfId | lib/actions/product.actions.ts:316-323 | finds the position of a row with the id, and none exactly when no row has it |
| ProductActions.NewRow | lib/actions/product.actions.ts:111-140 | the row has the given id, slug, author, creation time and tags, zero counters, and shows the form's values back (a null column reads as the empty text); no optional column holds the empty text, so empty values are stored as null |
| ProductActions.UpdatedRow | lib/actions/product.actions.ts:374-402 | id, slug, author, creation time and both counters stay; the tags are the given ones; the row shows the form's values back, and no optional column holds the empty text, so empty values are stored as null |
| ProductActions.StoredColumns | lib/actions/product.actions.ts:383-397 | a row that shows the form's values back and holds no empty text stores `value \|\| null` of each optional form value |
| ProductActions.Incremented | lib/actions/product.actions.ts:483-489 | the chosen counter grows by one, the two together by one, and nothing else changes |
| ProductActions.ImageToDestroy | lib/actions/product.actions.ts:451-456 | an image is destroyed exactly when the thumbnail is a non-empty Cloudinary URL with a public id, and then under that id |
| ProductActions.RelatedIgnoresOwnViews | lib/actions/product.actions.ts:278-297 | counting the view before or after the related query gives the same related list |
| ProductActions.ResolveNames | lib/actions/product.actions.ts:93-108 | the loop over the tag names computes the resolution of all names |
| ProductActions.ProductStore.UniqueSlug | lib/actions/product.actions.ts:80-90 | the slug is free; it is candidate `attempts`, all earlier candidates taken; there are at most as many attempts as products |
| ProductActions.ProductStore.ResolveTags | lib/actions/product.actions.ts:92-108 | the tag table and ids are those of resolving all names; products unchanged; the invariant kept |
| ProductActions.ProductStore.AddProduct | lib/actions/product.actions.ts:80-150 | one row appended with the next id, the first free slug candidate, the form's values (empty ones null), zero counters and the resolved tags; the lookup by its slug finds it |
| ProductActions.ProductStore.CreateProduct | lib/actions/product.actions.ts:45-170 | the guard's error, then the first validation issue, leave the store unchanged; success exactly when both pass, with the row above |
| ProductActions.ProductStore.GetProductBySlug | lib/actions/product.actions.ts:259-304 | an unknown slug fails with `상품을 찾을 수 없습니다` and changes nothing; otherwise the row as read and its related products, with that row's view count raised by one |
| ProductActions.ProductStore.Increment | lib/actions/product.actions.ts:481-520 | succeeds exactly when a row has the id; that row's counter is raised by one, nothing else changes |
| ProductActions.ProductStore.IncrementViewCount | lib/actions/product.actions.ts:481-496 | succeeds exactly when a row has the id; its view count is raised by one, nothing else changes |
| ProductActions.ProductStore.IncrementClickCount | lib/actions/product.actions.ts:502-520 | succeeds exactly when a row has the id; its click count is raised by one, nothing else changes |
| ProductActions.ProductStore.ReplaceProduct | lib/actions/product.actions.ts:355-406 | the row takes the form's values and exactly the resolved tags; id, slug, author, creation time and counters stay |
| ProductActions.ProductStore.UpdateProduct | lib/actions/product.actions.ts:310-426 | the guard, then not found, then the first validation issue, each leaving the store unchanged; on success the row at the id is replaced as above |
| ProductActions.ProductStore.DeleteProduct | lib/actions/product.actions.ts:432-475 | the guard, then not found; on success exactly that row is gone and the tags stay; the image id handed to the destroy call is as above |
| ProductActions.AppendValid | lib/actions/product.actions.ts:111-150 | a row with the next id, a new slug and existing tags keeps the store invariant |
| ProductActions.ReplaceValid | lib/actions/product.actions.ts:374-406 | a row replaced with the same id and slug and existing tags keeps the invariant |
| ProductActions.RemoveKeepsValid | lib/actions/product.actions.ts:459-461 | deleting a row keeps the invariant |
| ProductActions.RemoveLeavesOthers | lib/actions/product.actions.ts:459-461 | after deleting, no row has the id, and every other row is still there |
| ProductActions.NewSlugIsFound | lib/actions/product.actions.ts:111-134 | the created row is what the lookup by its slug finds |

## Left out

- Catalog.GetProducts: requires a limit of at least 1. With a limit of 0 or below, the source computes `Math.ceil` of a division by zero or a negative `take`, which are not modelled.
- ProductSchema.Validate: lengths are counted in Unicode code points, where JavaScript counts UTF-16 code units. A name of one character outside the Basic Multilingual Plane has length 1 here and 2 in the source, so it is rejected here and accepted there. `.min(2)` and `.min(10)` differ only on such text.
- ProductSchema.Validate: zod's own messages (unknown enum value, invalid URL, `null` where a string is expected, failed union) are an abstract `Default(field, code)`, not their text.
- ProductSchema.Validate: the URL check of `z.string().url()` is the parameter `isUrl`. It is a library function that is not part of this model.
- Catalog.Matches: `mode: 'insensitive'` folds ASCII letters only; the database's locale-aware folding is not modelled.
- Catalog.AllTags: tag names are ordered by code point, not by the database collation.
- Catalog.Ranked: rows with equal sort keys keep their table order. The database leaves that order unspecified.
- `price` is kept as text; its `parseFloat` (floating point) is not modelled.
- `cn` (Tailwind class merging, a library call) and `formatNumber` (floating point formatting) are not modelled.
- `getCurrentUser` reads the session from the request; the session is a parameter.
- `deleteCloudinaryImage` calls an external service. The model returns the public id it would be called with; its outcome does not affect the action.
- `revalidatePath` and `console.error` do not change the tables and are left out.
- Database and network failures, and the catch branches that report them, are not modelled. This includes unique-constraint conflicts and the generic messages `상품 생성에 실패했습니다`, `상품 수정에 실패했습니다`, `상품 삭제에 실패했습니다` and the failure branch of `getAllTags`. The one exception is the negative `skip` of `getProducts`, which is modelled.
- Tags.ResolveAll: the names of one request are resolved one after the other, so a later name sees the tags created for earlier ones. In the source, `Promise.all` runs every lookup before any create. Two names with the same slug in one request (`"AI, AI"` within the same millisecond) then both miss, and the second create breaks the unique slug. `createProduct` returns its generic failure and leaves the first tag behind. The model reuses the first tag and succeeds.
- Concurrency: the tag names are resolved one after the other, in order, where the source runs them with `Promise.all`. Two concurrent requests creating the same tag are not modelled. The fire-and-forget view increment is applied before the related query; `ProductActions.RelatedIgnoresOwnViews` shows the order does not matter.
- The `include` and `select` projections of returned rows (tag rows, the author's name and email) are not modelled. A returned product carries its tag ids.
- Row ids are generated strings in the source and natural numbers from a counter here. The creation time is a parameter.
- The module-level Cloudinary configuration (environment variables) is left out.
