/** The boundary with local storage, reduced to its fallback policy. */
module Storage {

  import opened Types

  /** What reading the stored catalog can give: nothing (the key is absent
      or holds the empty string), text that does not parse, or a parsed catalog. */
  datatype Stored = Missing | Unparseable | Parsed(products: seq<Product>)

  /** getInitialProducts: the parsed catalog, or an empty one when there is
      nothing usable. */
  function InitialProducts(stored: Stored): (r: seq<Product>)
    ensures stored.Parsed? ==> r == stored.products
    ensures !stored.Parsed? ==> r == []
  {
    match stored
    case Parsed(ps) => ps
    case _ => []
  }
}
