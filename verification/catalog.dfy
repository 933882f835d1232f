/** The catalog store's state transitions in ProductManager: each handler
    computes the next catalog from the previous one (`setProducts(prev => ...)`).
    These are the pure new-value expressions; the `Manager` module applies them
    to the component's state. */
module Catalog {

  import opened Types
  import opened Seqs

  /** `[...prev, product]` (handleAdd). */
  function Appended(ps: seq<Product>, p: Product): (r: seq<Product>)
    ensures |r| == |ps| + 1 && r[|ps|] == p
    ensures forall i :: 0 <= i < |ps| ==> r[i] == ps[i]
  {
    ps + [p]
  }

  /** `prev.map(p => p.id === updated.id ? updated : p)` (handleUpdate). */
  function Updated(ps: seq<Product>, u: Product): (r: seq<Product>)
    ensures |r| == |ps|
    ensures forall i :: 0 <= i < |ps| && ps[i].id == u.id ==> r[i] == u
    ensures forall i :: 0 <= i < |ps| && ps[i].id != u.id ==> r[i] == ps[i]
  {
    if ps == [] then [] else [if ps[0].id == u.id then u else ps[0]] + Updated(ps[1..], u)
  }

  /** The test that handleDelete keeps a product by. */
  predicate OtherId(id: string, p: Product)
  {
    p.id != id
  }

  /** `prev.filter(p => p.id !== id)` (handleDelete). */
  function Deleted(ps: seq<Product>, id: string): (r: seq<Product>)
    ensures forall p :: p in r <==> p in ps && p.id != id
    ensures forall p: Product :: p.id != id ==> multiset(r)[p] == multiset(ps)[p]
    ensures |r| <= |ps|
  {
    FilterMembers(ps, p => OtherId(id, p));
    FilterCount(ps, p => OtherId(id, p));
    FilterLength(ps, p => OtherId(id, p));
    Filter(ps, p => OtherId(id, p))
  }

  /** Updating keeps the sequence of ids, position by position. */
  lemma UpdatedKeepsIds(ps: seq<Product>, u: Product)
    ensures ProductIds(Updated(ps, u)) == ProductIds(ps)
  {
  }

  /** Updating with an id that no product has leaves the catalog as it was. */
  lemma UpdatedAbsent(ps: seq<Product>, u: Product)
    requires u.id !in ProductIds(ps)
    ensures Updated(ps, u) == ps
  {
    var r := Updated(ps, u);
    forall i | 0 <= i < |ps| ensures r[i] == ps[i] {
      assert ProductIds(ps)[i] == ps[i].id;
    }
  }

  /** Updating twice with the same product is updating once. */
  lemma UpdatedIdempotent(ps: seq<Product>, u: Product)
    ensures Updated(Updated(ps, u), u) == Updated(ps, u)
  {
  }

  /** Deleting leaves no product with that id, and keeps the others in their order. */
  lemma DeletedSpec(ps: seq<Product>, id: string)
    ensures id !in ProductIds(Deleted(ps, id))
    ensures IsSubsequence(Deleted(ps, id), ps)
  {
    var r := Deleted(ps, id);
    FilterIsSubsequence(ps, p => OtherId(id, p));
    forall i | 0 <= i < |r| ensures ProductIds(r)[i] != id {
      assert r[i] in r;
    }
  }

  /** Deleting the same id twice is deleting it once. */
  lemma DeletedIdempotent(ps: seq<Product>, id: string)
    ensures Deleted(Deleted(ps, id), id) == Deleted(ps, id)
  {
    FilterIdempotent(ps, p => OtherId(id, p));
  }

  /** Deleting an id that no product has leaves the catalog as it was. */
  lemma DeletedAbsent(ps: seq<Product>, id: string)
    requires id !in ProductIds(ps)
    ensures Deleted(ps, id) == ps
  {
    forall i | 0 <= i < |ps| ensures OtherId(id, ps[i]) {
      assert ProductIds(ps)[i] == ps[i].id;
    }
    FilterKeepsAll(ps, p => OtherId(id, p));
  }

  /** Deleting a product that was just added with a fresh id restores the catalog. */
  lemma DeleteUndoesAdd(ps: seq<Product>, p: Product)
    requires p.id !in ProductIds(ps)
    ensures Deleted(Appended(ps, p), p.id) == ps
  {
    FilterAppend(ps, [p], q => OtherId(p.id, q));
    DeletedAbsent(ps, p.id);
  }

  /** Adding a product with a fresh id keeps product ids unique. */
  lemma AppendedKeepsUnique(ps: seq<Product>, p: Product)
    requires UniqueProductIds(ps) && p.id !in ProductIds(ps)
    ensures UniqueProductIds(Appended(ps, p))
  {
    forall i | 0 <= i < |ps| ensures ps[i].id != p.id {
      assert ProductIds(ps)[i] == ps[i].id;
    }
  }

  /** Updating keeps product ids unique. */
  lemma UpdatedKeepsUnique(ps: seq<Product>, u: Product)
    requires UniqueProductIds(ps)
    ensures UniqueProductIds(Updated(ps, u))
  {
  }

  /** A subsequence of a catalog with unique ids has unique ids. */
  lemma {:induction false} SubsequenceKeepsUnique(a: seq<Product>, b: seq<Product>)
    requires IsSubsequence(a, b) && UniqueProductIds(b)
    ensures UniqueProductIds(a)
    decreases |b|
  {
    if a != [] && b != [] {
      if a[0] == b[0] && IsSubsequence(a[1..], b[1..]) {
        SubsequenceKeepsUnique(a[1..], b[1..]);
        SubsequenceMembers(a[1..], b[1..]);
        forall j | 0 < j < |a| ensures a[0].id != a[j].id {
          assert a[1..][j - 1] in b[1..];
          var k :| 0 <= k < |b[1..]| && b[1..][k] == a[j];
          assert b[0].id != b[k + 1].id;
        }
      } else {
        SubsequenceKeepsUnique(a, b[1..]);
      }
    }
  }

  /** Every element of a subsequence is an element of the whole. */
  lemma {:induction false} SubsequenceMembers<T>(a: seq<T>, b: seq<T>)
    requires IsSubsequence(a, b)
    ensures forall x :: x in a ==> x in b
    decreases |b|
  {
    if a != [] && b != [] {
      if a[0] == b[0] && IsSubsequence(a[1..], b[1..]) {
        SubsequenceMembers(a[1..], b[1..]);
        assert a == [a[0]] + a[1..];
      } else {
        SubsequenceMembers(a, b[1..]);
      }
    }
  }

  /** Deleting keeps product ids unique. */
  lemma DeletedKeepsUnique(ps: seq<Product>, id: string)
    requires UniqueProductIds(ps)
    ensures UniqueProductIds(Deleted(ps, id))
  {
    DeletedSpec(ps, id);
    SubsequenceKeepsUnique(Deleted(ps, id), ps);
  }

  /** One item of the demo-data response: its title and its price, already
      rounded to a whole number. */
  datatype ImportItem = ImportItem(title: string, price: int)

  /** The result of the demo-data request: the items it returned, or a failure
      of the request or of reading its body. */
  datatype FetchOutcome = Fetched(items: seq<ImportItem>) | FetchFailed

  /** The size every imported variant gets. */
  const ImportSize: string := "M"
  /** The color every imported variant gets. */
  const ImportColor: string := "Red"

  /** The product fetchFakeProducts builds from one item, given the two ids
      generated for it (product first, then variant). */
  function ImportedProduct(item: ImportItem, productId: string, variantId: string): (p: Product)
    ensures p.id == productId && p.name == item.title
    ensures p.variants == [Variant(variantId, ImportSize, ImportColor, item.price)]
  {
    Product(productId, item.title, [Variant(variantId, ImportSize, ImportColor, item.price)])
  }

  /** `data.products.map(...)`: one product per item, in item order. `ids`
      are the generated ids in the order they are drawn, two per item. */
  function ImportAll(items: seq<ImportItem>, ids: seq<string>): (r: seq<Product>)
    requires |ids| == 2 * |items|
    ensures |r| == |items|
    ensures forall i :: 0 <= i < |items| ==> r[i] == ImportedProduct(items[i], ids[2 * i], ids[2 * i + 1])
  {
    if items == [] then []
    else [ImportedProduct(items[0], ids[0], ids[1])] + ImportAll(items[1..], ids[2..])
  }

  /** The ids drawn for an import: two per fetched item, none on failure. */
  function IdsNeeded(outcome: FetchOutcome): nat
  {
    match outcome
    case Fetched(items) => 2 * |items|
    case FetchFailed => 0
  }

  /** handleSeed's effect on the catalog: `[...prev, ...seeded]` on success,
      nothing on failure. */
  function Seeded(ps: seq<Product>, outcome: FetchOutcome, ids: seq<string>): (r: seq<Product>)
    requires |ids| == IdsNeeded(outcome)
    ensures outcome.FetchFailed? ==> r == ps
    ensures outcome.Fetched? ==> |r| == |ps| + |outcome.items| && r[..|ps|] == ps
    ensures outcome.Fetched? ==> r[|ps|..] == ImportAll(outcome.items, ids)
    ensures outcome.Fetched? ==> forall i :: 0 <= i < |outcome.items| ==>
      r[|ps| + i].name == outcome.items[i].title &&
      r[|ps| + i].variants == [Variant(ids[2 * i + 1], ImportSize, ImportColor, outcome.items[i].price)]
  {
    match outcome
    case Fetched(items) => ps + ImportAll(items, ids)
    case FetchFailed => ps
  }
}
