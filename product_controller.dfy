/**
 * The catalog bookkeeping of the product controller, over an in-memory store.
 *
 * Each table is a map from id to row, and each table has its own counter that
 * hands out fresh ids (the database's auto-increment). Every public method is one
 * controller action; the HTTP layer, the validator, file storage and the response
 * envelope are not part of the model.
 */
module ProductController {
  import opened Options
  import opened ImageNames
  import opened CatalogRecords

  class CatalogStore {
    var categories: map<nat, Category>
    var nextCategoryId: nat
    var products: map<nat, Product>
    var nextProductId: nat
    var details: map<nat, Detail>
    var nextDetailId: nat
    var images: map<nat, ImageRow>
    var nextImageId: nat

    /**
     * What the controller's actions keep true of the tables: ids come from the
     * counters, category names are unique (find-or-create is the only writer of
     * categories), products point at stored categories (categories are never
     * deleted), and detail and image rows point at product ids already handed out,
     * at most one row per product. Rows may point at deleted products: deletes do
     * not cascade.
     */
    ghost predicate Valid()
      reads this
    {
      && IdsBelow(categories, nextCategoryId)
      && IdsBelow(products, nextProductId)
      && IdsBelow(details, nextDetailId)
      && IdsBelow(images, nextImageId)
      && NamesUnique(categories)
      && ProductsInCategories(products, categories)
      && DetailsLinked(details, nextProductId)
      && ImagesLinked(images, nextProductId)
    }

    /** The names of the stored categories. */
    ghost function CategoryNames(): set<string>
      reads this
    {
      set k | k in categories :: categories[k].name
    }

    constructor ()
      ensures Valid()
      ensures categories == map[] && products == map[] && details == map[] && images == map[]
      ensures nextCategoryId == 1 && nextProductId == 1 && nextDetailId == 1 && nextImageId == 1
    {
      // auto-increment ids start at 1
      categories, products, details, images := map[], map[], map[], map[];
      nextCategoryId, nextProductId, nextDetailId, nextImageId := 1, 1, 1, 1;
    }

    /** `Category::where('name', name)->first()`: the category called `name`, if any. */
    method FindCategoryNamed(name: string) returns (r: Option<nat>)
      requires Valid()
      ensures r.Some? <==> name in CategoryNames()
      ensures r.Some? ==> r.value in categories && categories[r.value].name == name
      ensures r.None? ==> forall k :: k in categories ==> categories[k].name != name
    {
      r := FirstMatch(categories, (c: Category) => c.name == name, nextCategoryId);
    }

    /**
     * The insert branch of the category find-or-create: a new category whose counters
     * start from zero, get `in_stock_count += 1` and `sold_out_count = 0`, and are saved.
     */
    method CreateCategory(name: string) returns (id: nat)
      requires Valid()
      requires forall k :: k in categories ==> categories[k].name != name
      modifies this`categories, this`nextCategoryId
      ensures Valid()
      ensures id == old(nextCategoryId) && id !in old(categories)
      ensures categories == old(categories)[id := Category(name, 1, 0)]
      ensures |categories| == |old(categories)| + 1
      ensures nextCategoryId == old(nextCategoryId) + 1
    {
      var category := Category(name, 0, 0);
      category := category.(inStockCount := category.inStockCount + 1, soldOutCount := 0);
      id := nextCategoryId;
      NamesUniqueInsert(categories, id, category);
      categories := categories[id := category];
      nextCategoryId := nextCategoryId + 1;
    }

    /**
     * Category step of `upload`: a category with this name gets one more product in
     * stock and its sold-out count reset; otherwise one is created with counts 1 and 0.
     * No other category changes.
     */
    method TouchOrCreateCategory(name: string) returns (id: nat)
      requires Valid()
      modifies this`categories, this`nextCategoryId
      ensures Valid()
      ensures id in categories && categories[id].name == name
      ensures name in old(CategoryNames()) ==>
        && id in old(categories)
        && categories == old(categories)[id := Category(name, old(categories)[id].inStockCount + 1, 0)]
        && nextCategoryId == old(nextCategoryId)
      ensures name !in old(CategoryNames()) ==>
        && id == old(nextCategoryId)
        && categories == old(categories)[id := Category(name, 1, 0)]
        && nextCategoryId == old(nextCategoryId) + 1
      ensures |categories| == |old(categories)| + (if name in old(CategoryNames()) then 0 else 1)
    {
      var found := FindCategoryNamed(name);
      if found.Some? {
        id := found.value;
        var category := categories[id];
        category := category.(inStockCount := category.inStockCount + 1, soldOutCount := 0);
        categories := categories[id := category];
      } else {
        id := CreateCategory(name);
      }
    }

    /**
     * Category step of `edit`: the id of the category with this name, which is left
     * as it is, or of a new one with counts 1 and 0.
     */
    method FindOrCreateCategory(name: string) returns (id: nat)
      requires Valid()
      modifies this`categories, this`nextCategoryId
      ensures Valid()
      ensures id in categories && categories[id].name == name
      ensures name in old(CategoryNames()) ==>
        categories == old(categories) && nextCategoryId == old(nextCategoryId)
      ensures name !in old(CategoryNames()) ==>
        && id == old(nextCategoryId)
        && categories == old(categories)[id := Category(name, 1, 0)]
        && nextCategoryId == old(nextCategoryId) + 1
    {
      var found := FindCategoryNamed(name);
      if found.Some? {
        id := found.value;
      } else {
        id := CreateCategory(name);
      }
    }

    /**
     * The file loop shared by `upload` and `edit`: for image1, image2, image3 in turn,
     * when that field carried a file, record its name on the row and save the row.
     * The first save of a row that has no id yet inserts it under a fresh id; later
     * saves update it.
     */
    method SaveImageSlots(imageId: Option<nat>, image: ImageRow, productId: nat, files: map<Slot, string>)
      returns (savedId: Option<nat>)
      modifies this`images, this`nextImageId
      ensures files == map[] ==>
        savedId == imageId && images == old(images) && nextImageId == old(nextImageId)
      ensures files != map[] ==>
        && savedId == Some(if imageId.Some? then imageId.value else old(nextImageId))
        && images == old(images)[savedId.value := AttachImages(image, productId, files)]
        && nextImageId == old(nextImageId) + (if imageId.None? then 1 else 0)
    {
      var row := image;
      savedId := imageId;
      for k := 0 to |AllSlots|
        invariant row == AttachImages(image, productId, FilesBefore(files, k))
        invariant FilesBefore(files, k) == map[] ==>
          savedId == imageId && images == old(images) && nextImageId == old(nextImageId)
        invariant FilesBefore(files, k) != map[] ==>
          && savedId == Some(if imageId.Some? then imageId.value else old(nextImageId))
          && images == old(images)[savedId.value := row]
          && nextImageId == old(nextImageId) + (if imageId.None? then 1 else 0)
      {
        var field := AllSlots[k];
        FilesBeforeStep(files, k);
        if field in files {
          UploadImageExtends(image, productId, FilesBefore(files, k), field, files[field]);
          ghost var previous := row;
          row := UploadImage(row, field, productId, files[field]);
          // $image->save()
          if savedId.None? {
            savedId := Some(nextImageId);
            nextImageId := nextImageId + 1;
          }
          images := images[savedId.value := row];
          if FilesBefore(files, k) != map[] {
            UpdateTwice(old(images), savedId.value, previous, row);
          }
        }
      }
      FilesBeforeAll(files);
    }

    /** `Product::create`: a new in-stock product of category `categoryId` under a fresh id. */
    method CreateProduct(name: string, price: string, categoryId: nat) returns (id: nat)
      requires Valid() && categoryId in categories
      modifies this`products, this`nextProductId
      ensures Valid()
      ensures id == old(nextProductId) && id !in old(products)
      ensures products == old(products)[id := Product(name, price, InStock, categoryId)]
      ensures nextProductId == old(nextProductId) + 1
      ensures forall d :: d in details ==> details[d].productId != id
      ensures forall i :: i in images ==> images[i].productId != Some(id)
    {
      id := nextProductId;
      products := products[id := Product(name, price, InStock, categoryId)];
      nextProductId := nextProductId + 1;
    }

    /** `$product->detail()->create(...)`: the detail row of a product that has none yet. */
    method CreateDetail(detail: Detail)
      requires Valid() && detail.productId < nextProductId
      requires forall d :: d in details ==> details[d].productId != detail.productId
      modifies this`details, this`nextDetailId
      ensures Valid()
      ensures old(nextDetailId) !in old(details)
      ensures details == old(details)[old(nextDetailId) := detail]
      ensures nextDetailId == old(nextDetailId) + 1
    {
      DetailsLinkedInsert(details, nextProductId, nextDetailId, detail);
      details := details[nextDetailId := detail];
      nextDetailId := nextDetailId + 1;
    }

    /** Upload's image step: a `new ProductImage` filled and saved by the file loop. */
    method CreateImageRow(productId: nat, files: map<Slot, string>) returns (id: nat)
      requires Valid() && productId < nextProductId && files != map[]
      requires forall i :: i in images ==> images[i].productId != Some(productId)
      modifies this`images, this`nextImageId
      ensures Valid()
      ensures id == old(nextImageId) && id !in old(images)
      ensures images == old(images)[id := AttachImages(NewImageRow, productId, files)]
      ensures nextImageId == old(nextImageId) + 1
    {
      ghost var before := images;
      var saved := SaveImageSlots(None, NewImageRow, productId, files);
      id := saved.value;
      ImagesLinkedInsert(before, nextProductId, id, images[id]);
    }

    /**
     * `upload`: find or create the category (bumping its counters) and insert an
     * in-stock product in it. Then, when the validated data holds both nullable keys,
     * insert the product's detail row and one image row holding the file names of the
     * fields that carried a file; when a key is missing, reading it raises an error
     * and the category and product writes stay without a detail or image row.
     */
    method Upload(req: ProductRequest) returns (productId: nat, categoryId: nat, outcome: UploadOutcome)
      requires Valid() && Validated(req)
      modifies this
      ensures Valid()
      ensures categoryId in categories && categories[categoryId].name == req.category
      ensures req.category in old(CategoryNames()) ==>
        && categoryId in old(categories)
        && categories == old(categories)[categoryId := Category(req.category, old(categories)[categoryId].inStockCount + 1, 0)]
        && nextCategoryId == old(nextCategoryId)
      ensures req.category !in old(CategoryNames()) ==>
        && categoryId == old(nextCategoryId)
        && categories == old(categories)[categoryId := Category(req.category, 1, 0)]
        && nextCategoryId == old(nextCategoryId) + 1
      ensures productId == old(nextProductId) && productId !in old(products)
      ensures products == old(products)[productId := Product(req.name, req.price, InStock, categoryId)]
      ensures nextProductId == old(nextProductId) + 1
      ensures outcome.UploadError? <==> !CarriesNullableKeys(req)
      ensures outcome.UploadError? ==>
        && details == old(details) && nextDetailId == old(nextDetailId)
        && images == old(images) && nextImageId == old(nextImageId)
      ensures outcome.Uploaded? ==>
        && old(nextDetailId) !in old(details)
        && details == old(details)[old(nextDetailId) := RequestDetail(productId, req)]
        && nextDetailId == old(nextDetailId) + 1
      ensures outcome.Uploaded? ==>
        && outcome.imageId == old(nextImageId) && outcome.imageId !in old(images)
        && images == old(images)[outcome.imageId := AttachImages(NewImageRow, productId, req.files)]
        && nextImageId == old(nextImageId) + 1
    {
      categoryId := TouchOrCreateCategory(req.category);
      productId := CreateProduct(req.name, req.price, categoryId);
      if !CarriesNullableKeys(req) {
        // `$data['expiry']` or `$data['nafdac_no']` names a missing key
        return productId, categoryId, UploadError;
      }
      CreateDetail(RequestDetail(productId, req));
      var imageId := CreateImageRow(productId, req.files);
      outcome := Uploaded(imageId);
    }

    /** `deleteProduct`: removes the product with this id if there is one; nothing else changes. */
    method DeleteProduct(id: nat)
      requires Valid()
      modifies this`products
      ensures Valid()
      ensures products == old(products) - {id}
    {
      products := products - {id};
    }

    /** `deleteImage`: removes the image row with this id if there is one; nothing else changes. */
    method DeleteImage(id: nat)
      requires Valid()
      modifies this`images
      ensures Valid()
      ensures images == old(images) - {id}
    {
      images := images - {id};
    }

    /** `fetchProduct`: the product with its detail and images, or not found. */
    method FetchProduct(id: nat) returns (r: ProductLookup)
      requires Valid()
      ensures r.ProductNotFound? <==> id !in products
      ensures r.ProductFound? ==> r.product == products[id]
      ensures r.ProductFound? ==>
        (r.detail.Some? <==> exists d :: d in details && details[d].productId == id)
      ensures r.ProductFound? && r.detail.Some? ==>
        r.detail.value.productId == id && r.detail.value in details.Values
      ensures r.ProductFound? ==>
        forall i :: i in r.images <==> i in images && images[i].productId == Some(id)
      ensures r.ProductFound? ==> forall i :: i in r.images ==> r.images[i] == images[i]
    {
      if id !in products {
        return ProductNotFound;
      }
      var d := FirstMatch(details, (dt: Detail) => dt.productId == id, nextDetailId);
      var detail := if d.Some? then Some(details[d.value]) else None;
      r := ProductFound(products[id], detail, ImagesOf(images, {id}));
    }

    /** `get`: the products of a category with their details and images, or the empty result. */
    method Get(categoryId: nat) returns (r: CategoryListing)
      ensures r.EmptyListing? <==> categoryId !in categories
      ensures r.Listing? ==>
        forall p :: p in r.products <==> p in products && products[p].categoryId == categoryId
      ensures r.Listing? ==> forall p :: p in r.products ==> r.products[p] == products[p]
      ensures r.Listing? ==>
        forall d :: d in r.details <==> d in details && details[d].productId in r.products
      ensures r.Listing? ==> forall d :: d in r.details ==> r.details[d] == details[d]
      ensures r.Listing? ==>
        forall i :: i in r.images <==>
          i in images && images[i].productId.Some? && images[i].productId.value in r.products
      ensures r.Listing? ==> forall i :: i in r.images ==> r.images[i] == images[i]
    {
      if categoryId !in categories {
        return EmptyListing;
      }
      var ofCategory := ProductsIn(products, categoryId);
      r := Listing(ofCategory, DetailsOf(details, ofCategory.Keys), ImagesOf(images, ofCategory.Keys));
    }

    /** `productCategory`: the category with this id, or "Such category does not exist". */
    method ProductCategory(categoryId: nat) returns (r: CategoryLookup)
      ensures r.NoSuchCategory? <==> categoryId !in categories
      ensures r.CategoryFound? ==> r.category == categories[categoryId]
    {
      if categoryId in categories {
        return CategoryFound(categories[categoryId]);
      }
      r := NoSuchCategory;
    }

    /**
     * `featured`: the first five categories of `order`, the random order the database
     * listed all categories in, each with its products and their images. So: at most
     * five, all of them when there are fewer, no category twice.
     */
    method Featured(order: seq<nat>) returns (r: seq<FeaturedCategory>)
      requires Distinct(order) && Elements(order) == categories.Keys
      ensures |r| == if |categories| < FeaturedLimit then |categories| else FeaturedLimit
      ensures forall i :: 0 <= i < |r| ==> r[i].id in categories && r[i].category == categories[r[i].id]
      ensures forall i, j :: 0 <= i < j < |r| ==> r[i].id != r[j].id
      ensures forall i :: 0 <= i < |r| ==> r[i].products == ProductsIn(products, r[i].id)
      ensures forall i :: 0 <= i < |r| ==> r[i].images == ImagesOf(images, r[i].products.Keys)
    {
      DistinctCardinality(order);
      assert |categories.Keys| == |categories|;
      var n := if |order| < FeaturedLimit then |order| else FeaturedLimit;
      var cats, prods, imgs := categories, products, images;
      assert forall i :: 0 <= i < |order| ==> order[i] in cats;
      r := seq(n, i requires 0 <= i < n =>
        var ofCategory := ProductsIn(prods, order[i]);
        FeaturedCategory(order[i], cats[order[i]], ofCategory, ImagesOf(imgs, ofCategory.Keys)));
    }

    /** `$product->detail()->update(...)`: every detail row of the product gets the new fields. */
    method OverwriteDetails(detail: Detail)
      requires Valid()
      modifies this`details
      ensures Valid()
      ensures details.Keys == old(details.Keys)
      ensures forall d :: d in details ==>
        details[d] == if old(details)[d].productId == detail.productId then detail else old(details)[d]
    {
      DetailsLinkedOverwrite(details, nextProductId, detail.productId, detail);
      details := map d | d in details :: if details[d].productId == detail.productId then detail else details[d];
    }

    /**
     * Edit's image step: `ProductImage::where('product_id', id)->first()`, which must
     * exist, filled and saved by the file loop.
     */
    method AttachToImageRow(productId: nat, files: map<Slot, string>)
      requires Valid() && files != map[]
      requires exists i :: i in images && images[i].productId == Some(productId)
      modifies this`images, this`nextImageId
      ensures Valid()
      ensures nextImageId == old(nextImageId)
      ensures exists i ::
        && i in old(images) && old(images)[i].productId == Some(productId)
        && images == old(images)[i := AttachImages(old(images)[i], productId, files)]
    {
      var imageId := FirstMatch(images, (row: ImageRow) => row.productId == Some(productId), nextImageId);
      ghost var before := images;
      var _ := SaveImageSlots(imageId, images[imageId.value], productId, files);
      ImagesLinkedReplace(before, nextProductId, imageId.value, images[imageId.value]);
    }

    /**
     * `edit`: find or create the category (never touching an existing one's counters),
     * then, if the product exists and the validated data holds both nullable keys,
     * overwrite its detail rows and record the sent files on its existing image row.
     * The product row itself is assigned but never saved, so it is unchanged
     * (`products` is outside the frame). A category created here stays even when the
     * product turns out to be missing or a nullable key is missing.
     */
    method Edit(id: nat, req: ProductRequest) returns (outcome: EditOutcome)
      requires Valid() && Validated(req)
      requires id in products && CarriesNullableKeys(req) ==>
        exists i :: i in images && images[i].productId == Some(id)
      modifies this`categories, this`nextCategoryId, this`details, this`images, this`nextImageId
      ensures Valid()
      ensures req.category in old(CategoryNames()) ==>
        categories == old(categories) && nextCategoryId == old(nextCategoryId)
      ensures req.category !in old(CategoryNames()) ==>
        && categories == old(categories)[old(nextCategoryId) := Category(req.category, 1, 0)]
        && nextCategoryId == old(nextCategoryId) + 1
      ensures outcome == EditProductMissing <==> id !in products
      ensures outcome == EditError <==> id in products && !CarriesNullableKeys(req)
      ensures outcome != EditUpdated ==> details == old(details) && images == old(images)
      ensures nextImageId == old(nextImageId)
      ensures outcome == EditUpdated ==> details.Keys == old(details.Keys)
      ensures outcome == EditUpdated ==> forall d :: d in details ==>
        details[d] == if old(details)[d].productId == id then RequestDetail(id, req) else old(details)[d]
      ensures outcome == EditUpdated ==> exists i ::
        && i in old(images) && old(images)[i].productId == Some(id)
        && images == old(images)[i := AttachImages(old(images)[i], id, req.files)]
    {
      var categoryId := FindOrCreateCategory(req.category);

      if id !in products {
        return EditProductMissing;
      }
      // name, price and category are assigned on the loaded product, which is never saved
      var unsaved := products[id].(name := req.name, price := req.price, categoryId := categoryId);

      if !CarriesNullableKeys(req) {
        // `$data['expiry']` or `$data['nafdac_no']` names a missing key
        return EditError;
      }
      OverwriteDetails(RequestDetail(id, req));
      AttachToImageRow(id, req.files);
      outcome := EditUpdated;
    }
  }
}
