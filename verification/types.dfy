/** The catalog's entities and the two small wrappers the model uses for
    absent values and rejected input. */
module Types {

  /** A value that may be missing (TypeScript's `undefined` / `null`). */
  datatype Option<T> = None | Some(value: T)

  /** The outcome of a validation step: the accepted value or the error it raised. */
  datatype Result<T, E> = Ok(value: T) | Err(error: E)

  /** One purchasable configuration of a product. The price is a whole number:
      the catalog never holds fractional prices in this model. */
  datatype Variant = Variant(id: string, size: string, color: string, price: int)

  /** A named catalog entry that owns an ordered list of variants. */
  datatype Product = Product(id: string, name: string, variants: seq<Variant>)

  /** The ids of a catalog, in catalog order. */
  function ProductIds(ps: seq<Product>): seq<string>
  {
    seq(|ps|, i requires 0 <= i < |ps| => ps[i].id)
  }

  /** The ids of a variant list, in list order. */
  function VariantIds(vs: seq<Variant>): seq<string>
  {
    seq(|vs|, i requires 0 <= i < |vs| => vs[i].id)
  }

  /** No two products of the catalog share an id. */
  ghost predicate UniqueProductIds(ps: seq<Product>)
  {
    forall i, j :: 0 <= i < j < |ps| ==> ps[i].id != ps[j].id
  }

  /** No two variants of the list share an id. */
  ghost predicate UniqueVariantIds(vs: seq<Variant>)
  {
    forall i, j :: 0 <= i < j < |vs| ==> vs[i].id != vs[j].id
  }
}
