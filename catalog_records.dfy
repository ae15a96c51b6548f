/**
 * The rows of the catalog tables, the validated request a product upload or edit
 * carries, and the pure pieces the controller builds its operations from: the
 * `where(...)->first()` lookup, the per-slot image assignment, and the results
 * the read endpoints return.
 */
module CatalogRecords {
  import opened Options
  import opened ImageNames

  /** Availability of a product; only IN_STOCK is ever written. */
  datatype Availability = InStock | SoldOut

  datatype Category = Category(name: string, inStockCount: nat, soldOutCount: nat)

  /** A product row; the price is kept as the text the request carried. */
  datatype Product = Product(name: string, price: string, availability: Availability, categoryId: nat)

  /** A product-detail row (`expiry_date` and `nafdac_reg_no` are nullable). */
  datatype Detail = Detail(
    productId: nat,
    description: string,
    manufacturer: string,
    expiryDate: Option<string>,
    nafdacRegNo: Option<string>)

  /** A product-image row: a nullable product id and three nullable file-name columns. */
  datatype ImageRow = ImageRow(
    productId: Option<nat>,
    image1: Option<string>,
    image2: Option<string>,
    image3: Option<string>)
  {
    /** The column of `slot`. */
    function At(slot: Slot): Option<string> {
      match slot
      case Image1 => image1
      case Image2 => image2
      case Image3 => image3
    }
  }

  /** A `new ProductImage` before any attribute is set. */
  const NewImageRow := ImageRow(None, None, None, None)

  /**
   * A nullable request field as it appears in the validated data: left out of the
   * request altogether (the key is then missing from the data), or given, possibly
   * as null.
   */
  datatype NullableField = Omitted | Given(value: Option<string>)

  /**
   * The fields of an upload or edit request after validation. `files` maps each file
   * field that carried a file to the extension guessed for that file ("" when none
   * could be guessed).
   */
  datatype ProductRequest = ProductRequest(
    category: string,
    name: string,
    price: string,
    description: string,
    manufacturer: string,
    nafdacNo: NullableField,
    expiry: NullableField,
    files: map<Slot, string>)

  /**
   * Whether the validated data holds the `nafdac_no` and `expiry` keys. Reading a
   * missing key raises an error, which ends the request where the detail fields are
   * read.
   */
  predicate CarriesNullableKeys(req: ProductRequest) {
    req.nafdacNo.Given? && req.expiry.Given?
  }

  /** The detail row the request describes for product `productId`. */
  function RequestDetail(productId: nat, req: ProductRequest): Detail
    requires CarriesNullableKeys(req)
  {
    Detail(productId, req.description, req.manufacturer, req.expiry.value, req.nafdacNo.value)
  }

  /** What the request validator lets through: required fields present, name at most 255 characters, image1 sent. */
  predicate Validated(req: ProductRequest) {
    && req.category != ""
    && req.name != "" && |req.name| <= 255
    && req.price != ""
    && req.description != ""
    && req.manufacturer != ""
    && Image1 in req.files
  }

  /**
   * `where(<condition>)->first()` on a table whose ids are all below `bound`:
   * the lowest id whose row satisfies `matches`, or None when no row does.
   */
  function FirstMatch<V>(table: map<nat, V>, matches: V -> bool, bound: nat): (r: Option<nat>)
    ensures r.Some? ==> r.value < bound && r.value in table && matches(table[r.value])
    ensures r.Some? ==> forall k: nat :: k < r.value && k in table ==> !matches(table[k])
    ensures r.None? ==> forall k: nat :: k < bound && k in table ==> !matches(table[k])
  {
    if bound == 0 then None
    else
      match FirstMatch(table, matches, bound - 1)
      case Some(k) => Some(k)
      case None => if bound - 1 in table && matches(table[bound - 1]) then Some(bound - 1) else None
  }

  /**
   * The private helper `uploadImage`: records the stored file name of the picture sent
   * in field `slot` in that column of `image`, and sets the row's product id.
   * (Moving the file into place is not part of this model.)
   */
  function UploadImage(image: ImageRow, slot: Slot, productId: nat, ext: string): (r: ImageRow)
    ensures r.productId == Some(productId)
    ensures r.At(slot) == Some(ImageFileName(productId, slot, ext))
    ensures forall s: Slot :: s != slot ==> r.At(s) == image.At(s)
  {
    var name := ImageFileName(productId, slot, ext);
    match slot
    case Image1 => image.(productId := Some(productId), image1 := Some(name))
    case Image2 => image.(productId := Some(productId), image2 := Some(name))
    case Image3 => image.(productId := Some(productId), image3 := Some(name))
  }

  /** Column `slot` of `image` once the files in `files` have been recorded for `productId`. */
  function SlotAfter(image: ImageRow, productId: nat, files: map<Slot, string>, slot: Slot): Option<string> {
    if slot in files then Some(ImageFileName(productId, slot, files[slot])) else image.At(slot)
  }

  /**
   * The image row after every sent file has been recorded: exactly the columns of the
   * sent fields hold their file names, the others keep what they held, and the product
   * id is set as soon as one file was sent.
   */
  function AttachImages(image: ImageRow, productId: nat, files: map<Slot, string>): (r: ImageRow)
    ensures forall s: Slot :: s in files ==> r.At(s) == Some(ImageFileName(productId, s, files[s]))
    ensures forall s: Slot :: s !in files ==> r.At(s) == image.At(s)
    ensures r.productId == if files == map[] then image.productId else Some(productId)
  {
    ImageRow(
      if files == map[] then image.productId else Some(productId),
      SlotAfter(image, productId, files, Image1),
      SlotAfter(image, productId, files, Image2),
      SlotAfter(image, productId, files, Image3))
  }

  /** The files of `files` whose fields come before position `k` in processing order. */
  function FilesBefore(files: map<Slot, string>, k: nat): map<Slot, string> {
    map s | s in files && s.Index() < k :: files[s]
  }

  /** Moving past position `k` adds the file of the field at `k`, if it was sent. */
  lemma FilesBeforeStep(files: map<Slot, string>, k: nat)
    requires k < |AllSlots|
    ensures AllSlots[k] in files ==>
      FilesBefore(files, k + 1) == FilesBefore(files, k)[AllSlots[k] := files[AllSlots[k]]]
    ensures AllSlots[k] !in files ==> FilesBefore(files, k + 1) == FilesBefore(files, k)
  {
  }

  /** Past the last field, every sent file has been taken. */
  lemma FilesBeforeAll(files: map<Slot, string>)
    ensures FilesBefore(files, |AllSlots|) == files
  {
  }

  /** Saving a row a second time leaves only the second version in the table. */
  lemma UpdateTwice<K, V>(table: map<K, V>, id: K, first: V, second: V)
    ensures table[id := first][id := second] == table[id := second]
  {
  }

  /** Recording one more file on an attached row is attaching the larger set of files. */
  lemma UploadImageExtends(image: ImageRow, productId: nat, files: map<Slot, string>, slot: Slot, ext: string)
    ensures UploadImage(AttachImages(image, productId, files), slot, productId, ext)
         == AttachImages(image, productId, files[slot := ext])
  {
  }

  /**
   * Attaching twice to the same row is attaching the union of the files, later files
   * winning: a second edit that sends only image2 keeps the image1 of the first.
   */
  lemma AttachImagesTwice(image: ImageRow, productId: nat, first: map<Slot, string>, second: map<Slot, string>)
    ensures AttachImages(AttachImages(image, productId, first), productId, second)
         == AttachImages(image, productId, first + second)
  {
  }

  /** Every id of `table` was handed out by a counter now at `next`. */
  predicate IdsBelow<V>(table: map<nat, V>, next: nat) {
    forall k :: k in table ==> k < next
  }

  /** No two categories share a name. */
  predicate NamesUnique(categories: map<nat, Category>) {
    forall a, b :: a in categories && b in categories && categories[a].name == categories[b].name ==> a == b
  }

  /** Every product points at a stored category. */
  predicate ProductsInCategories(products: map<nat, Product>, categories: map<nat, Category>) {
    forall p :: p in products ==> products[p].categoryId in categories
  }

  /** Detail rows point at product ids below `nextProductId`, at most one row per product. */
  predicate DetailsLinked(details: map<nat, Detail>, nextProductId: nat) {
    && (forall d :: d in details ==> details[d].productId < nextProductId)
    && (forall d, e :: d in details && e in details && details[d].productId == details[e].productId ==> d == e)
  }

  /** Image rows point at product ids below `nextProductId`, at most one row per product. */
  predicate ImagesLinked(images: map<nat, ImageRow>, nextProductId: nat) {
    && (forall i :: i in images ==> images[i].productId.Some? && images[i].productId.value < nextProductId)
    && (forall i, j :: i in images && j in images && images[i].productId == images[j].productId ==> i == j)
  }

  /** Adding a category under a fresh id with a new name keeps names unique. */
  lemma NamesUniqueInsert(categories: map<nat, Category>, id: nat, category: Category)
    requires NamesUnique(categories) && id !in categories
    requires forall k :: k in categories ==> categories[k].name != category.name
    ensures NamesUnique(categories[id := category])
  {
  }

  /** A detail row for a product that has none keeps the detail rows linked. */
  lemma DetailsLinkedInsert(details: map<nat, Detail>, nextProductId: nat, id: nat, detail: Detail)
    requires DetailsLinked(details, nextProductId) && id !in details
    requires detail.productId < nextProductId
    requires forall d :: d in details ==> details[d].productId != detail.productId
    ensures DetailsLinked(details[id := detail], nextProductId)
  {
  }

  /** Rewriting every detail row of one product, keeping its product id, keeps them linked. */
  lemma DetailsLinkedOverwrite(details: map<nat, Detail>, nextProductId: nat, productId: nat, detail: Detail)
    requires DetailsLinked(details, nextProductId) && detail.productId == productId
    ensures DetailsLinked(
      map d | d in details :: if details[d].productId == productId then detail else details[d],
      nextProductId)
  {
  }

  /** An image row for a product that has none keeps the image rows linked. */
  lemma ImagesLinkedInsert(images: map<nat, ImageRow>, nextProductId: nat, id: nat, row: ImageRow)
    requires ImagesLinked(images, nextProductId) && id !in images
    requires row.productId.Some? && row.productId.value < nextProductId
    requires forall i :: i in images ==> images[i].productId != row.productId
    ensures ImagesLinked(images[id := row], nextProductId)
  {
  }

  /** Rewriting one image row without changing its product id keeps the image rows linked. */
  lemma ImagesLinkedReplace(images: map<nat, ImageRow>, nextProductId: nat, id: nat, row: ImageRow)
    requires ImagesLinked(images, nextProductId) && id in images && row.productId == images[id].productId
    ensures ImagesLinked(images[id := row], nextProductId)
  {
  }

  /** Result of `fetchProduct`: the product with its detail and its image rows, or not found (404). */
  datatype ProductLookup =
    | ProductNotFound
    | ProductFound(product: Product, detail: Option<Detail>, images: map<nat, ImageRow>)

  /** Result of `get`: the empty array when the category is absent, else its products, details and images. */
  datatype CategoryListing =
    | EmptyListing
    | Listing(products: map<nat, Product>, details: map<nat, Detail>, images: map<nat, ImageRow>)

  /** Result of `productCategory`: the category, or the message "Such category does not exist". */
  datatype CategoryLookup = NoSuchCategory | CategoryFound(category: Category)

  /** One entry of `featured`: a category with its products and their images. */
  datatype FeaturedCategory = FeaturedCategory(
    id: nat,
    category: Category,
    products: map<nat, Product>,
    images: map<nat, ImageRow>)

  /** Result of `upload`: the id of the new image row, or the error raised on a missing nullable key. */
  datatype UploadOutcome = UploadError | Uploaded(imageId: nat)

  /** Result of `edit`: "product does not exist", the error raised on a missing nullable key, or success. */
  datatype EditOutcome = EditProductMissing | EditError | EditUpdated

  /** How many categories `featured` takes. */
  const FeaturedLimit: nat := 5

  /** The products of category `categoryId` (`$category->products`). */
  function ProductsIn(products: map<nat, Product>, categoryId: nat): map<nat, Product> {
    map p | p in products && products[p].categoryId == categoryId :: products[p]
  }

  /** The detail rows of the given products (`productDetail`, through products). */
  function DetailsOf(details: map<nat, Detail>, productIds: set<nat>): map<nat, Detail> {
    map d | d in details && details[d].productId in productIds :: details[d]
  }

  /** The image rows of the given products (`productImages`, through products). */
  function ImagesOf(images: map<nat, ImageRow>, productIds: set<nat>): map<nat, ImageRow> {
    map i | i in images && images[i].productId.Some? && images[i].productId.value in productIds :: images[i]
  }

  predicate Distinct<T(==)>(s: seq<T>) {
    forall i, j :: 0 <= i < j < |s| ==> s[i] != s[j]
  }

  /** The set of elements of `s`. */
  function Elements<T>(s: seq<T>): set<T> {
    set x | x in s
  }

  /** A sequence without repetitions has as many elements as its set of elements. */
  lemma {:induction false} DistinctCardinality<T>(s: seq<T>)
    requires Distinct(s)
    ensures |Elements(s)| == |s|
  {
    if s != [] {
      var tail := Elements(s[1..]);
      assert Elements(s) == {s[0]} + tail;
      assert s[0] !in tail;
      DistinctCardinality(s[1..]);
    }
  }
}
