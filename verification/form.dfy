/** ProductForm: validating the product name and building the new product. */
module Form {

  import opened Types

  /** The message `formSchema` attaches to an empty name. */
  const NameRequired: string := "Product name is required"

  /** `formSchema`: the name must be at least one character long. */
  function ValidateName(name: string): (r: Result<string, string>)
    ensures r.Ok? <==> name != ""
    ensures r.Ok? ==> r.value == name
    ensures r.Err? ==> r.error == NameRequired
  {
    if |name| >= 1 then Ok(name) else Err(NameRequired)
  }

  /** onSubmit behind the schema: a valid name yields exactly one new product
      with the fresh id, that name and no variants; an invalid one yields the
      validation message and no product. */
  function SubmitProduct(name: string, freshId: string): (r: Result<Product, string>)
    ensures r.Ok? <==> name != ""
    ensures r.Ok? ==> r.value.id == freshId && r.value.name == name && r.value.variants == []
    ensures r.Err? ==> r.error == NameRequired
  {
    match ValidateName(name)
    case Ok(valid) => Ok(Product(freshId, valid, []))
    case Err(message) => Err(message)
  }
}
