/**
 * Request sequences against the store, checked from the controller actions'
 * contracts alone.
 */
module CatalogScenarios {
  import opened Options
  import opened CatalogRecords
  import opened ProductController

  /**
   * Two uploads naming the same, not yet known, category leave exactly one new
   * category row, with two products in stock and none sold out.
   */
  method UploadTwiceToNewCategory(store: CatalogStore, first: ProductRequest, second: ProductRequest)
    returns (categoryId: nat)
    requires store.Valid() && Validated(first) && Validated(second)
    requires first.category == second.category && first.category !in store.CategoryNames()
    modifies store
    ensures store.Valid()
    ensures categoryId == old(store.nextCategoryId)
    ensures store.categories == old(store.categories)[categoryId := Category(first.category, 2, 0)]
  {
    var _, firstCategory, _ := store.Upload(first);
    assert store.categories[firstCategory].name == second.category;
    var _, secondCategory, _ := store.Upload(second);
    assert firstCategory in store.categories && store.categories[firstCategory].name == second.category;
    categoryId := secondCategory;
  }

  /**
   * Deleting a product, twice, then fetching it: both deletes succeed and the fetch
   * reports not found; detail and image rows are left behind.
   */
  method DeleteTwiceThenFetch(store: CatalogStore, id: nat) returns (r: ProductLookup)
    requires store.Valid()
    modifies store
    ensures r == ProductNotFound
    ensures store.details == old(store.details) && store.images == old(store.images)
    ensures store.categories == old(store.categories)
  {
    store.DeleteProduct(id);
    store.DeleteProduct(id);
    r := store.FetchProduct(id);
  }

  /**
   * An upload whose request leaves out `nafdac_no` or `expiry` fails after its product
   * was inserted: fetching that product finds it with no detail row and no images.
   */
  method UploadOmittingKeyThenFetch(store: CatalogStore, req: ProductRequest) returns (r: ProductLookup)
    requires store.Valid() && Validated(req) && !CarriesNullableKeys(req)
    modifies store
    ensures r.ProductFound? && r.detail.None? && r.images == map[]
  {
    var productId, _, outcome := store.Upload(req);
    r := store.FetchProduct(productId);
  }

  /**
   * A product uploaded without a nullable key has no image row; editing it with a
   * request that again leaves a nullable key out fails at the detail fields, before the
   * image row would be looked up, and leaves its detail and image rows as they were.
   */
  method UploadOmittingKeyThenEdit(store: CatalogStore, first: ProductRequest, second: ProductRequest)
    returns (productId: nat, outcome: EditOutcome)
    requires store.Valid() && Validated(first) && !CarriesNullableKeys(first)
    requires Validated(second) && !CarriesNullableKeys(second)
    modifies store
    ensures productId in store.products
    ensures forall i :: i in store.images ==> store.images[i].productId != Some(productId)
    ensures store.details == old(store.details) && store.images == old(store.images)
    ensures outcome == EditError
  {
    var categoryId, uploaded;
    productId, categoryId, uploaded := store.Upload(first);
    outcome := store.Edit(productId, second);
  }
}
