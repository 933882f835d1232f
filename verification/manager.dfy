/** ProductManager's component state and the handlers that replace it. */
module Manager {

  import opened Types
  import opened Catalog
  import opened Query
  import Storage
  import Form

  /** The catalog (`products`), the search text and the sort order. */
  class ProductManager {
    var products: seq<Product>
    var search: string
    var sortOrder: SortOrder

    /** The component's initial state: an empty catalog, no search, unsorted. */
    constructor ()
      ensures products == [] && search == "" && sortOrder == Unsorted
    {
      products := [];
      search := "";
      sortOrder := Unsorted;
    }

    /** The mount effect: load the stored catalog. */
    method Hydrate(stored: Storage.Stored)
      modifies this`products
      ensures products == Storage.InitialProducts(stored)
    {
      products := Storage.InitialProducts(stored);
    }

    /** handleAdd: append the product. */
    method HandleAdd(p: Product)
      modifies this`products
      ensures products == Appended(old(products), p)
    {
      products := Appended(products, p);
    }

    /** The new-product form submitting to handleAdd: a valid name adds one
        product with the fresh id and no variants; an empty name changes nothing. */
    method SubmitProductForm(name: string, freshId: string) returns (r: Result<Product, string>)
      modifies this`products
      ensures r == Form.SubmitProduct(name, freshId)
      ensures r.Ok? ==> products == old(products) + [Product(freshId, name, [])]
      ensures r.Err? ==> products == old(products) && r.error == Form.NameRequired
    {
      r := Form.SubmitProduct(name, freshId);
      if r.Ok? {
        HandleAdd(r.value);
      }
    }

    /** handleUpdate: replace every product with the updated product's id. */
    method HandleUpdate(u: Product)
      modifies this`products
      ensures products == Updated(old(products), u)
    {
      products := Updated(products, u);
    }

    /** handleDelete: drop every product with the id. */
    method HandleDelete(id: string)
      modifies this`products
      ensures products == Deleted(old(products), id)
    {
      products := Deleted(products, id);
    }

    /** handleSeed once the request has settled: append the imported products
        on success, keep the catalog on failure. Reports whether it succeeded. */
    method HandleSeed(outcome: FetchOutcome, ids: seq<string>) returns (ok: bool)
      requires |ids| == IdsNeeded(outcome)
      modifies this`products
      ensures ok <==> outcome.Fetched?
      ensures ok ==> products == old(products) + ImportAll(outcome.items, ids)
      ensures !ok ==> products == old(products)
    {
      products := Seeded(products, outcome, ids);
      ok := outcome.Fetched?;
    }

    /** The search box's change handler. */
    method SetSearch(text: string)
      modifies this`search
      ensures search == text
    {
      search := text;
    }

    /** toggleSort: step to the next sort order. */
    method ToggleSort()
      modifies this`sortOrder
      ensures sortOrder == NextOrder(old(sortOrder))
    {
      sortOrder := NextOrder(sortOrder);
    }

    /** The products the component lists (`sortedProducts`), given the
        comparison `le` standing for `localeCompare`. */
    function Listed(le: (string, string) -> bool): (r: seq<Product>)
      reads this
      ensures forall p :: p in r <==> p in products && Matches(search, p)
      ensures sortOrder == Unsorted ==> r == Filtered(products, search)
    {
      View(products, search, sortOrder, le)
    }
  }
}
