# Product catalog bookkeeping of merchub-api

This project models, in Dafny, the catalog bookkeeping that the product controller
of the merchub-api product-catalog service performs on top of its four tables:

- **categories** — name, `in_stock_count`, `sold_out_count`;
- **products** — name, price (kept as text), availability, `category_id`;
- **product details** — one row per product (description, manufacturer, optional
  expiry date and NAFDAC registration number);
- **product images** — a `product_id` and three optional file-name columns
  `image1`, `image2`, `image3`.

The store is the class `ProductController.CatalogStore`. Each table is a
`map<nat, Row>` field with its own fresh-id counter, which stands for the database's
auto-increment and, like it, starts at 1. Every controller action is a method of the class. The ORM calls become
map operations:

- `where(...)->first()` is `CatalogRecords.FirstMatch`, the lowest matching id;
- `find` is a map lookup;
- `create` and `save` on a new row insert under the next id;
- `save` on a loaded row overwrites it;
- `delete` removes the key.

The class invariant `Valid()` says what the actions keep true:

- ids come from the counters;
- category names are unique, because find-or-create is the only writer of categories;
- every product points at a stored category, because categories are never deleted;
- detail and image rows point at product ids already handed out, at most one row per product.

Because deletes do not cascade, rows may point at deleted products.

Modules:

- `Options` (`options.dfy`) — the optional value used for nullable columns.
- `ImageNames` (`image_names.dfy`) — the stored file name `"Prod <id> <field>.<ext>"`.
  It has a parser for that name, and proofs that the parser recovers the product id,
  slot and extension. So two different (product, slot, extension) triples never share
  a file name.
- `CatalogRecords` (`catalog_records.dfy`) — the row datatypes and the validated request.
  It also holds the `first()` lookup, the per-slot image assignment of `uploadImage`, and
  `AttachImages`, the declarative result of the file loop. The table invariants and their
  preservation lemmas live here, as do the result types of the read actions.
- `ProductController` (`product_controller.dfy`) — the `CatalogStore` class.
- `CatalogScenarios` (`catalog_scenarios.dfy`) — four request sequences checked from the
  actions' contracts alone.

`CatalogRecords.RequestDetail` builds the detail row that `upload` and `edit` write from the
request (`ProductController.php` lines 67-73 and 191-197): the product id, description,
manufacturer, expiry date and NAFDAC registration number.

The request validator is a precondition, `CatalogRecords.Validated`. It requires the
mandatory strings to be non-empty, the name to be at most 255 characters, and an
`image1` file to be present. The validator's MIME-type and size rules are not modelled.

The model keeps what the code does, including behaviour an idealised store would not have:

- `edit` never increments the counters of an existing category, although `upload` does.
- `edit` never creates an image row. It dereferences the row it looks up without a null
  check, so `Edit` requires that the product, when it exists, has an image row. It needs the
  row only when the request carries both nullable keys, because a missing key ends the
  request before the lookup.
- `edit` assigns the product's name, price and category but never saves the product.
  `Edit` therefore does not have `products` in its frame, and the stored product is
  unchanged.
- `edit` creates a missing category before it checks that the product exists. The new
  category stays when the result is "product does not exist".
- The validated data holds a nullable field (`nafdac_no`, `expiry`) only when the request
  carried it, possibly as null (`NullableField`). When either key is missing, reading it
  raises an error where the detail fields are read. In `upload` that is after the
  category update and the product insert, which stay, so the product has no detail row
  and no image row (`UploadError`). In `edit` it is after the product check and after any
  category insert (`EditError`).
- `deleteProduct` and `deleteImage` always succeed. They do not cascade to detail or
  image rows, and they do not adjust category counters.

## Model

| member | source | states |
|---|---|---|
| `ImageNames.ImageFileName` | app/Http/Controllers/ProductController.php:99 | the stored name starts with "Prod " and ends with the extension, and its length is that of its parts; the id and field between them are pinned by `ImageFileNameRoundTrip` and `ImageFileNameInjective` |
| `ImageNames.NatToString` | app/Http/Controllers/ProductController.php:99 | the product id in the file name is written as a non-empty string of decimal digits, whose first digit is not 0 whenever it has more than one digit (so 0 is "0") |
| `ImageNames.ParseNatToString` | app/Http/Controllers/ProductController.php:99 | reading the decimal digits back gives the product id they were written from |
| `ImageNames.ImageFileNameRoundTrip` | app/Http/Controllers/ProductController.php:99 | the name "Prod <id> <field>.<ext>" parses back to exactly that product id, slot and extension |
| `ImageNames.ImageFileNameInjective` | app/Http/Controllers/ProductController.php:99 | two uploads get the same stored file name only if they have the same product, slot and extension |
| `ImageNames.SlotNamed` | app/Http/Controllers/ProductController.php:77 | each of the field names image1, image2, image3 names exactly one slot |
| `CatalogRecords.FirstMatch` | app/Http/Controllers/ProductController.php:37 | `where(...)->first()` gives the lowest id whose row matches, or nothing exactly when no row matches |
| `CatalogRecords.UploadImage` | app/Http/Controllers/ProductController.php:97-104 | `uploadImage` sets the row's product id and records "Prod <id> <field>.<ext>" in that field's column; the other columns keep their values |
| `CatalogRecords.AttachImages` | app/Http/Controllers/ProductController.php:79-86 | after the file loop, each sent field's column holds its new "Prod <id> imageK.<ext>" name; the other columns keep their values; the product id is set once any file was sent |
| `CatalogRecords.UploadImageExtends` | app/Http/Controllers/ProductController.php:79-86 | one more iteration of the file loop is the same as attaching the larger set of files |
| `CatalogRecords.AttachImagesTwice` | app/Http/Controllers/ProductController.php:200-210 | two attaches to the same row equal one attach of the union of the files, later files winning, so a second attach never erases slots it was not sent |
| `CatalogRecords.NamesUniqueInsert` | app/Http/Controllers/ProductController.php:47-55 | inserting a category only when no category has its name keeps names unique |
| `CatalogRecords.DetailsLinkedInsert` | app/Http/Controllers/ProductController.php:65-73 | inserting the detail row of a product that has none keeps at most one detail row per product |
| `CatalogRecords.DetailsLinkedOverwrite` | app/Http/Controllers/ProductController.php:189-197 | overwriting every detail row of one product keeps at most one detail row per product |
| `CatalogRecords.ImagesLinkedInsert` | app/Http/Controllers/ProductController.php:76-86 | inserting the image row of a product that has none keeps at most one image row per product |
| `CatalogRecords.ImagesLinkedReplace` | app/Http/Controllers/ProductController.php:200-210 | rewriting an image row without changing its product id keeps at most one image row per product |
| `CatalogRecords.DistinctCardinality` | app/Http/Controllers/ProductController.php:226-229 | a random ordering of all categories without repeats has one entry per category, so taking five gives min(5, number of categories) |
| `ProductController.CatalogStore.FindCategoryNamed` | app/Http/Controllers/ProductController.php:37 | the lookup by name finds a category exactly when one has that name, and it returns that category's id |
| `ProductController.CatalogStore.CreateCategory` | app/Http/Controllers/ProductController.php:47-55 | a new category gets the next id, in-stock count 1 and sold-out count 0; it is the only change to the categories, which grow by one |
| `ProductController.CatalogStore.TouchOrCreateCategory` | app/Http/Controllers/ProductController.php:36-55 | for an existing name, no category is added, that category's in-stock count rises by 1 and its sold-out count becomes 0, and all others are unchanged; for a new name, exactly one category (1, 0) is added |
| `ProductController.CatalogStore.FindOrCreateCategory` | app/Http/Controllers/ProductController.php:164-178 | for an existing name, the categories are left exactly as they were; for a new name, exactly one category (1, 0) is added |
| `ProductController.CatalogStore.SaveImageSlots` | app/Http/Controllers/ProductController.php:79-86 | the file loop stores `AttachImages` of the row; its first save of a new row takes the next image id, and when no file was sent nothing is saved |
| `ProductController.CatalogStore.CreateProduct` | app/Http/Controllers/ProductController.php:58-63 | exactly one product is added, under the next id, IN_STOCK, in the found or created category |
| `ProductController.CatalogStore.CreateDetail` | app/Http/Controllers/ProductController.php:65-73 | exactly one detail row is added, under the next detail id, carrying the request's fields and the product id |
| `ProductController.CatalogStore.CreateImageRow` | app/Http/Controllers/ProductController.php:75-86 | exactly one image row is added, under the next image id: a fresh row with the sent files attached |
| `ProductController.CatalogStore.Upload` | app/Http/Controllers/ProductController.php:17-95 | the category effects of find-or-create on upload and one new IN_STOCK product in that category, always; then, exactly when the request carries both nullable keys, one new detail row for the product and one new image row for it whose slot K is set exactly when file K was sent, to "Prod <id> imageK.<ext>"; otherwise an error with no detail or image row written; the invariant is kept |
| `ProductController.CatalogStore.DeleteProduct` | app/Http/Controllers/ProductController.php:107-110 | removes the product with that id if there is one, and otherwise does nothing; details, images and categories lie outside its frame |
| `ProductController.CatalogStore.DeleteImage` | app/Http/Controllers/ProductController.php:215-218 | removes the image row with that id if there is one, and otherwise does nothing; nothing else is in its frame |
| `ProductController.CatalogStore.FetchProduct` | app/Http/Controllers/ProductController.php:113-125 | returns not found exactly when no product has that id; otherwise returns the stored product, its detail row (present exactly when one exists) and exactly its image rows |
| `ProductController.CatalogStore.Get` | app/Http/Controllers/ProductController.php:130-143 | returns the empty result exactly when the category id is absent; otherwise returns exactly the category's products and the detail and image rows of those products |
| `ProductController.CatalogStore.ProductCategory` | app/Http/Controllers/ProductController.php:234-241 | returns "does not exist" exactly when the category id is absent, and otherwise returns the stored category |
| `ProductController.CatalogStore.Featured` | app/Http/Controllers/ProductController.php:222-231 | returns min(5, number of categories) entries, all of them existing categories, none repeated, each with its products and their images |
| `ProductController.CatalogStore.OverwriteDetails` | app/Http/Controllers/ProductController.php:188-197 | the product's detail rows get the request's fields; no row is added or removed, and other products' rows are unchanged |
| `ProductController.CatalogStore.AttachToImageRow` | app/Http/Controllers/ProductController.php:199-210 | the product's existing image row gets the sent files recorded in their slots and keeps its other slots; no row is added |
| `ProductController.CatalogStore.Edit` | app/Http/Controllers/ProductController.php:146-212 | category effects: an existing name leaves all counters alone and a new name adds one (1, 0) category, whatever the outcome; the result is missing exactly when the product is absent, and an error exactly when it exists but a nullable key is missing; in both cases the detail and image rows are unchanged; otherwise the detail rows are overwritten and the existing image row gets the sent files; the product row is unchanged |
| `CatalogScenarios.UploadTwiceToNewCategory` | app/Http/Controllers/ProductController.php:37-55 | two uploads naming the same new category leave exactly one new category, with in-stock count 2 and sold-out count 0 |
| `CatalogScenarios.DeleteTwiceThenFetch` | app/Http/Controllers/ProductController.php:107-117 | deleting a product twice succeeds, a later fetch reports not found, and detail and image rows are left behind |
| `CatalogScenarios.UploadOmittingKeyThenFetch` | app/Http/Controllers/ProductController.php:58-73 | an upload whose request leaves out `nafdac_no` or `expiry` leaves a product that a fetch finds with no detail row and no images |
| `CatalogScenarios.UploadOmittingKeyThenEdit` | app/Http/Controllers/ProductController.php:180-200 | a product uploaded without a nullable key exists but has no image row; editing it with a request that also leaves one out ends in the error at the detail fields rather than at the image-row lookup; detail and image rows are as they were before the upload |

## Left out

- Request validation (lines 21-32 and 147-158) is the precondition `Validated`. The MIME-type and size rules for images are not modelled.
- File storage is not modelled: `$pic->move`, `public_path` and `guessExtension` (lines 98-103). The guessed extension is an input (`ProductRequest.files` maps each sent field to it), and only the recorded file name is modelled.
- The response envelopes (`sendResponse` and `sendError`) are not modelled, because BaseController is not part of this model. Results are datatypes: `ProductLookup`, `CategoryListing`, `CategoryLookup`, `UploadOutcome` and `EditOutcome`. The message texts are not modelled.
- The eager-loaded relations (`$product->category`, `detail`, `images`, `$category->products`, `productDetail`, `productImages`) are plain filters by foreign key. Their model classes are not part of this model.
- ProductController.CatalogStore.Featured: the random ordering is an input (`order`, any duplicate-free listing of all category ids). The model does not capture its distribution.
- Concurrent requests are not modelled. Each action runs alone, so the race in which two requests create the same new category cannot happen, and `Valid()` can claim unique names.
- A persistence failure partway through an action is not modelled. Every insert and save succeeds.
- CatalogRecords.FirstMatch: `first()` without an ordering is modelled as the lowest matching id. The database promises no order. Under `Valid()`, at most one row matches in every use, so the choice does not affect the results.
- ProductController.CatalogStore.FindCategoryNamed: category names are matched by exact string equality (lines 37 and 164), and `Valid()` makes names unique under that equality. The database compares `where('name', …)` under the column's collation, which is set by a migration that is not part of this model. The model is therefore faithful only under a case-sensitive (binary) collation. Under a case-insensitive one such as MySQL's `utf8mb4_unicode_ci`, uploading "drinks" while "Drinks" exists bumps "Drinks", whereas the model creates a second category.
- The error raised on a missing nullable key is an outcome value. Its response (status and message) is not modelled.
- The seeder in database/seeders/ProductSeeder.php is not modelled. It is one call into model factories, which are not part of this model.
