# Product catalog data layer, in Dafny

This project models the data layer of a browser-based product catalog
manager. Users create products, attach size/color/price variants to them,
search and sort the catalog. The model covers three React components:

- `ProductManager`: the catalog store (`products`, `search`, `sortOrder`),
  its handlers (add, update, delete, demo-data import, sort toggle) and the
  derived filtered and sorted views;
- `ProductCard`: the per-product variant operations (remove, add, edit and
  save) and the card's edit mode;
- `ProductForm`: validating a new product's name and building the product.

Each handler's new value is a pure function (`Catalog`, `Query`, `Card`,
`Form`). The component state that the handlers replace is a class
(`Manager.ProductManager`, `Card.VariantEditor`) whose methods are specified
by those functions. The properties are lemmas about the functions.

Files and modules:

| file | module | models |
|---|---|---|
| `types.dfy` | `Types` | `Variant`, `Product`, `Option`, `Result`, id lists, id uniqueness |
| `seqs.dfy` | `Seqs` | order-preserving `filter`, the subsequence relation |
| `text.dfy` | `Text` | `toLowerCase`, `includes`, integer `toString` and its parse |
| `catalog.dfy` | `Catalog` | add / update / delete / import as new-catalog functions |
| `query.dfy` | `Query` | the search filter, the stable three-state name sort, the toggle |
| `manager.dfy` | `Manager` | the `ProductManager` component state and handlers |
| `card.dfy` | `Card` | variant remove / add / validation / edit merge, the edit mode |
| `form.dfy` | `Form` | name validation and product construction |
| `storage.dfy` | `Storage` | the load fallback policy only |

Abstractions:

- `generateId` is not part of this model (its file is not available). Every
  operation that draws an id takes it as a parameter. The import draws two
  ids per item, the product's first and then the variant's, as the `map`
  in `fetchFakeProducts` evaluates them.
- `localeCompare` is a parameter `le`, where `le(a, b)` stands for
  `a.localeCompare(b) <= 0`. The sorting lemmas require it to be a total
  preorder (every two names compare, and the comparison is transitive).
- `toLowerCase` lower-cases the ASCII letters A-Z only.
- Prices are whole numbers (`int`). `price.toString()` is the decimal text of
  the number, with a leading `-` when it is negative.
- The network request of the demo import is its outcome: the items it
  returned, or a failure.
- Local storage is its load outcome: missing, unparseable or a parsed catalog
  (the code does not check that the parsed value is a catalog; see "## Left out").

Observations about the code that the model makes precise:

- Update replaces every product whose id matches, and delete removes every
  one. Removing and saving a variant act likewise on every variant with the
  id. When ids are unique this is a single element. Unique ids are kept:
  - product ids under add with a fresh id, update and delete
    (`AppendedKeepsUnique`, `UpdatedKeepsUnique`, `DeletedKeepsUnique`);
  - variant ids within a product under adding a variant with a fresh id,
    removing a variant and saving an edit (`AddVariantKeepsUnique`,
    `WithoutVariantKeepsUnique`, `MergedEditKeepsUnique`).
- The sort is stable (`SortedIsStable`). Descending order is ascending order
  reversed when no two different products tie on their names
  (`AscendingReversedIsDescending`). When names tie it is not: tied
  products keep their catalog order both ways (`TiesKeepCatalogOrder`).
- `saveEdit` only checks that a price is present. An edit can therefore save
  a price that the add-variant form rejects (`SaveSkipsPriceRule`).

Where the model departs from the code:

- `ProductManager` passes `onSubmit` and `onCancel` to `ProductForm`
  (src/components/ProductManager.tsx:363-366). The form reads a prop named
  `onAdd` (src/components/ProductForm.tsx:15-19), and
  src/components/ProductForm.test.tsx:10 also passes `onSubmit`. As written,
  `onAdd` is undefined, so `onAdd(newProduct)`
  (src/components/ProductForm.tsx:33) throws on every valid submit. No
  product reaches `handleAdd`, and `reset()` is never reached. The model
  instead wires the form's product to `handleAdd`, the evident intent
  (`Manager.ProductManager.SubmitProductForm`).

## Model

| member | source | states |
|---|---|---|
| `Catalog.Appended` | src/components/ProductManager.tsx:62 | the catalog grows by one, the new product is last, every earlier product is unchanged |
| `Catalog.Updated` | src/components/ProductManager.tsx:68 | same length; each product with the updated id becomes the updated product, every other product is unchanged |
| `Catalog.UpdatedKeepsIds` | src/components/ProductManager.tsx:68 | updating preserves the sequence of ids |
| `Catalog.UpdatedAbsent` | src/components/ProductManager.tsx:68 | an update whose id no product has leaves the catalog unchanged |
| `Catalog.UpdatedIdempotent` | src/components/ProductManager.tsx:68 | applying the same update twice equals applying it once |
| `Catalog.Deleted` | src/components/ProductManager.tsx:73 | a product remains exactly when it was in the catalog and has another id, every product with another id keeps all its copies, and the catalog never grows |
| `Catalog.DeletedSpec` | src/components/ProductManager.tsx:73 | no product with the deleted id remains, and the rest keep their relative order (subsequence) |
| `Catalog.DeletedIdempotent` | src/components/ProductManager.tsx:73 | deleting an id twice equals deleting it once |
| `Catalog.DeletedAbsent` | src/components/ProductManager.tsx:73 | deleting an id no product has leaves the catalog unchanged |
| `Catalog.DeleteUndoesAdd` | src/components/ProductManager.tsx:61-75 | deleting a product just added under a fresh id restores the previous catalog |
| `Catalog.AppendedKeepsUnique` | src/components/ProductManager.tsx:61-62 | adding a product with a fresh id keeps product ids unique |
| `Catalog.UpdatedKeepsUnique` | src/components/ProductManager.tsx:67-68 | updating keeps product ids unique |
| `Catalog.DeletedKeepsUnique` | src/components/ProductManager.tsx:72-73 | deleting keeps product ids unique |
| `Catalog.ImportedProduct` | src/components/ProductManager.tsx:32-43 | an imported item becomes a product named by its title with exactly one variant, of size "M", color "Red" and the item's price |
| `Catalog.ImportAll` | src/components/ProductManager.tsx:32-43 | one product per item, in item order, each built from its item and the two ids drawn for it |
| `Catalog.Seeded` | src/components/ProductManager.tsx:98-106 | on failure the catalog is unchanged; on success the old catalog is a prefix and is followed by exactly the imported products (`ImportAll` of the items and the drawn ids), each with its title and single "M"/"Red" variant |
| `Query.Filtered` | src/components/ProductManager.tsx:77-87 | the result is a subsequence of the catalog, and a product is in it exactly when it is in the catalog and matches the lower-cased search by name or by a variant's size, color or price text |
| `Query.Matches` | src/components/ProductManager.tsx:78-86 | the empty search matches every product; a name match or a matching variant makes the product match; a product without variants matches by name only |
| `Query.VariantMatches` | src/components/ProductManager.tsx:80-85 | the empty query matches every variant; a query holding a letter matches exactly through the lower-cased size or color, never through the price text |
| `Query.EmptySearchKeepsAll` | src/components/ProductManager.tsx:77-87 | an empty search keeps every product, in order |
| `Query.FilteredAppend` | src/components/ProductManager.tsx:77-87 | filtering a catalog with a product appended is filtering the old catalog and appending the product if it matches |
| `Query.NameMatchKept` | src/components/ProductManager.tsx:78-79 | a product whose lower-cased name contains the lower-cased search is listed, whatever the letter case of either |
| `Query.SearchRedFindsShoe` | src/components/ProductManager.tsx:77-87 | in a catalog of one shoe with a red variant, searching "red" keeps the shoe |
| `Query.SearchBlueFindsNothing` | src/components/ProductManager.tsx:77-87 | in the same catalog, searching "blue" keeps nothing |
| `Query.NextOrder` | src/components/ProductManager.tsx:109-113 | toggling always changes the sort order |
| `Query.ToggleCycle` | src/components/ProductManager.tsx:109-113 | three toggles return to the starting order, two do not |
| `Query.InOrder` | src/components/ProductManager.tsx:89-95 | the comparator (asc: `le` on the names, desc: `le` on the names swapped) accepts every pair without a sort order, and accepts two products with the same name in either order whenever `le` accepts that name against itself |
| `Query.Insert` | src/components/ProductManager.tsx:89-96 | inserting one product adds exactly that product to the multiset of the sequence |
| `Query.Sorted` | src/components/ProductManager.tsx:89-96 | the sorted view is a permutation of its input |
| `Query.InOrderPreorder` | src/components/ProductManager.tsx:89-96 | the ascending, descending and unsorted comparators are total and transitive when `localeCompare` is |
| `Query.SortedIsSorted` | src/components/ProductManager.tsx:89-96 | with `asc` the names are non-decreasing, with `desc` non-increasing |
| `Query.SortedIsStable` | src/components/ProductManager.tsx:89-96 | products whose names compare equal keep their relative order from the filtered view |
| `Query.UnsortedKeepsOrder` | src/components/ProductManager.tsx:89-96 | with no sort order the comparator returns 0 and the sorted view equals the filtered view |
| `Query.TiesKeepCatalogOrder` | src/components/ProductManager.tsx:89-96 | for two different products under a comparison that ties every pair of names, ascending and descending both keep the catalog order, so descending is not ascending reversed |
| `Query.Reversed` | src/components/ProductManager.tsx:89-96 | the reverse of a sequence has the same length and multiset, with element i taken from the mirrored position |
| `Query.SortedUnique` | src/components/ProductManager.tsx:89-96 | two sorted arrangements of the same products are equal when only identical products tie |
| `Query.AscendingReversedIsDescending` | src/components/ProductManager.tsx:89-96 | when no two different products tie on their names, the descending view is the ascending view reversed |
| `Query.View` | src/components/ProductManager.tsx:77-96 | the listed products are a permutation of the filtered catalog, exactly the matching ones, and in catalog order when unsorted |
| `Manager.ProductManager.constructor` | src/components/ProductManager.tsx:47-50 | the component starts with an empty catalog, an empty search and no sort order |
| `Manager.ProductManager.Hydrate` | src/components/ProductManager.tsx:53-55 | mounting loads the stored catalog through the storage fallback |
| `Manager.ProductManager.HandleAdd` | src/components/ProductManager.tsx:61-65 | the catalog becomes the old catalog with the product appended |
| `Manager.ProductManager.SubmitProductForm` | src/components/ProductManager.tsx:361-367 | a non-empty name appends exactly one product with the fresh id, that name and no variants; an empty name leaves the catalog unchanged and yields "Product name is required" |
| `Manager.ProductManager.HandleUpdate` | src/components/ProductManager.tsx:67-70 | the catalog becomes the updated catalog |
| `Manager.ProductManager.HandleDelete` | src/components/ProductManager.tsx:72-75 | the catalog becomes the catalog without the id |
| `Manager.ProductManager.HandleSeed` | src/components/ProductManager.tsx:98-107 | success appends the imported products after the old catalog and reports it; failure leaves the catalog unchanged |
| `Manager.ProductManager.SetSearch` | src/components/ProductManager.tsx:156-157 | the search becomes the typed text |
| `Manager.ProductManager.ToggleSort` | src/components/ProductManager.tsx:109-113 | the sort order steps null -> asc -> desc -> null |
| `Manager.ProductManager.Listed` | src/components/ProductManager.tsx:279 | the listed products are exactly the matching products of the catalog, in catalog order when unsorted |
| `Card.WithoutVariant` | src/components/ProductCard.tsx:87-93 | same product id and name; the variants are the old ones minus every variant with that id, in their original order, and each kept variant keeps all its copies |
| `Card.RemoveIdempotent` | src/components/ProductCard.tsx:87-93 | removing a variant id twice equals removing it once |
| `Card.WithVariant` | src/components/ProductCard.tsx:128-131 | same product id and name; the old variants are kept as a prefix and the new variant is last |
| `Card.VariantErrors` | src/components/ProductCard.tsx:35-39 | each rule (size non-empty, color non-empty, price positive) is reported exactly when broken; no error exactly when all hold |
| `Card.VariantError.Message` | src/components/ProductCard.tsx:36-38 | every rule has a non-empty message, and the first letter (S, C or P) tells which rule it is, so the three messages differ |
| `Card.AddVariant` | src/components/ProductCard.tsx:121-132 | a valid input appends one variant with the fresh id and the submitted fields, keeping id, name and earlier variants; an invalid input produces its errors and no product |
| `Card.RemoveUndoesAdd` | src/components/ProductCard.tsx:87-132 | removing a variant just added under a fresh id gives back the product |
| `Card.AddVariantKeepsUnique` | src/components/ProductCard.tsx:121-132 | adding a variant under a fresh id keeps the product's variant ids unique |
| `Card.WithoutVariantKeepsUnique` | src/components/ProductCard.tsx:87-93 | removing variants keeps the product's variant ids unique |
| `Card.HatWithBlueVariant` | src/components/ProductCard.tsx:121-132 | a new "Hat" given an "L"/"Blue"/15 variant has exactly that one variant under the drawn id |
| `Card.Overlay` | src/components/ProductCard.tsx:109 | each of id, size, color and price present in the edit buffer replaces the variant's field, and each absent one keeps it; an empty buffer changes nothing |
| `Card.CopyOf` | src/components/ProductCard.tsx:95-98 | the buffer startEdit fills, laid over any variant, gives back the copied variant; it passes the save guard exactly when the variant's id, size and color are non-empty |
| `Card.CanSave` | src/components/ProductCard.tsx:100-107 | passing the guard needs an edit id, a size, a color and a price to be present; the empty buffer and the empty edit id never pass |
| `Card.MergedEdit` | src/components/ProductCard.tsx:108-111 | same id, name and variant count; variants with the edited id become the overlay, all others are unchanged |
| `Card.MergedEditKeepsIds` | src/components/ProductCard.tsx:95-111 | when the buffer carries the edited id, the sequence of variant ids is preserved |
| `Card.MergedEditKeepsUnique` | src/components/ProductCard.tsx:95-111 | when the buffer carries the edited id, saving keeps the product's variant ids unique |
| `Card.SaveUnchangedIsIdentity` | src/components/ProductCard.tsx:95-110 | saving right after startEdit with no field changed leaves the product unchanged, when variant ids are unique |
| `Card.SaveSkipsPriceRule` | src/components/ProductCard.tsx:100-107 | the save guard admits a price of -5, which the add-variant rule rejects |
| `Card.VariantEditor.constructor` | src/components/ProductCard.tsx:83-84 | the card starts outside edit mode with an empty buffer |
| `Card.VariantEditor.StartEdit` | src/components/ProductCard.tsx:95-98 | `editId` becomes the variant's id and the buffer a copy of the variant |
| `Card.VariantEditor.EditSize` | src/components/ProductCard.tsx:177-178 | only the buffer's size changes |
| `Card.VariantEditor.EditColor` | src/components/ProductCard.tsx:201-203 | only the buffer's color changes |
| `Card.VariantEditor.EditPrice` | src/components/ProductCard.tsx:236-240 | only the buffer's price changes |
| `Card.VariantEditor.SaveEdit` | src/components/ProductCard.tsx:100-114 | when `editId` is null or empty, or size or color is empty, or price is undefined: no update and the edit state is kept; otherwise the update is the merged product, which keeps every variant id in place, and the edit state is cleared |
| `Card.VariantEditor.CancelEdit` | src/components/ProductCard.tsx:116-119 | `editId` becomes null and the buffer empty |
| `Form.ValidateName` | src/components/ProductForm.tsx:9-11 | a name is accepted unchanged exactly when it is non-empty; otherwise the error is "Product name is required" |
| `Form.SubmitProduct` | src/components/ProductForm.tsx:27-35 | a non-empty name yields exactly one product with the fresh id, that exact name and no variants; an empty name yields "Product name is required" and no product |
| `Storage.InitialProducts` | src/lib/storage.ts:5-13 | a parsed catalog is returned as is; a missing or unparseable value gives the empty catalog |
| `Text.IncludesIff` | src/components/ProductManager.tsx:79-84 | `includes` holds exactly when the query occurs at some position of the text |
| `Text.Includes` | src/components/ProductManager.tsx:79-84 | the empty query occurs in every text, and an occurring query is never longer than the text |
| `Text.Lower` | src/components/ProductManager.tsx:78-83 | lower-casing keeps the length, turns each upper-case ASCII letter into its lower-case letter, keeps every other character and leaves no upper-case letter |
| `Text.LowerIdempotent` | src/components/ProductManager.tsx:78-83 | lower-casing twice is lower-casing once |
| `Text.NatToString` | src/components/ProductManager.tsx:84 | the text of a natural number is non-empty decimal digits with no superfluous leading zero |
| `Text.IntToString` | src/components/ProductManager.tsx:84 | the text of a whole number is non-empty and starts with a minus sign exactly when the number is negative |
| `Text.ParseNatToString` | src/components/ProductManager.tsx:84 | reading back the digits of a natural number gives the number |
| `Text.ParseIntToString` | src/components/ProductCard.tsx:234-238 | the price text shown in the edit field parses back to the same price (a property of the price text; `EditPrice` itself receives the parsed number) |
| `Text.ParseInt` | src/components/ProductCard.tsx:238 | the reading of the edit field's price text, used only by `ParseIntToString`: a parsed price text is non-empty digits with at most a leading minus sign; a negative result comes from a leading minus; plain digits always parse to a non-negative number |
| `Text.IntToStringHasNoLetters` | src/components/ProductManager.tsx:84 | a search containing a letter never matches a price's text |

## Left out

- Rendering, toasts, the `isFormOpen`, `viewMode` and `isAddingVariant` flags, the inert Filter menu items and the form `reset()` calls: presentation only.
- Saving to local storage on every change, and `JSON.stringify`/`JSON.parse`: foreign calls. The load side is reduced to its fallback policy, so a save/load round trip is not modelled.
- The network request, `res.json()` and the asynchronous suspension of the import: only the settled outcome is modelled, and a failure anywhere in the request or its mapping is one `FetchFailed`.
- `Math.round` of imported prices, `parseFloat` of the edit field, `z.coerce.number` of the add form's price text and `toLocaleString`: floating-point and locale numerics. Prices are whole numbers, so NaN, fractional prices and the exponent notation of very large numbers are not modelled.
- `Manager.ProductManager.SubmitProductForm`: models the intended wiring of the form to `handleAdd`. As written, the form calls an `onAdd` prop it is never given (src/components/ProductForm.tsx:33), which throws on every valid submit, so no product is added and `reset()` is skipped; that failure is not modelled.
- `Storage.InitialProducts`: the code casts whatever the stored text parses to (src/lib/storage.ts:9) without checking its shape, so a value such as `null`, `{}` or `5` becomes the catalog as it is; the model's `Parsed` case holds a catalog, and such values are not modelled.
- `Text.LowerChar`: lower-cases ASCII letters only; Unicode case mapping is not modelled.
- `Query.TotalPreorder`: the locale rules of `localeCompare` are not modelled; any total preorder on names may stand for them.
- `generateId` is not part of this model; freshness of the ids it returns is a hypothesis of the lemmas that need it, not something the model guarantees.
- react-hook-form and zod beyond the three variant rules and the name rule: the order in which errors are displayed and coercion of form text.
