/** ProductCard: the per-product variant operations. Removing, adding and
    saving an edited variant each build the new product value that the card
    hands to its `onUpdate` callback; the edit mode (`editId`, `editValues`)
    is the card's own state. */
module Card {

  import opened Types
  import opened Seqs
  import Form

  /** The test that removeVariant keeps a variant by. */
  predicate OtherVariantId(id: string, v: Variant)
  {
    v.id != id
  }

  /** removeVariant: the product with every variant of that id dropped. */
  function WithoutVariant(p: Product, id: string): (r: Product)
    ensures r.id == p.id && r.name == p.name
    ensures IsSubsequence(r.variants, p.variants)
    ensures forall v :: v in r.variants <==> v in p.variants && v.id != id
    ensures forall v: Variant :: v.id != id ==> multiset(r.variants)[v] == multiset(p.variants)[v]
  {
    var keep := v => OtherVariantId(id, v);
    FilterIsSubsequence(p.variants, keep);
    FilterMembers(p.variants, keep);
    FilterCount(p.variants, keep);
    p.(variants := Filter(p.variants, keep))
  }

  /** The product with one more variant at the end of its list. */
  function WithVariant(p: Product, v: Variant): (r: Product)
    ensures r.id == p.id && r.name == p.name
    ensures |r.variants| == |p.variants| + 1 && r.variants[..|p.variants|] == p.variants
    ensures r.variants[|p.variants|] == v
  {
    p.(variants := p.variants + [v])
  }

  /** What the add-variant form submits (its price is a whole number here). */
  datatype VariantInput = VariantInput(size: string, color: string, price: int)

  /** The add-variant form's validation failures. */
  datatype VariantError = SizeRequired | ColorRequired | PriceNotPositive
  {
    /** The text shown beside the offending field. It starts with the
        field's name, so no two rules share a message. */
    function Message(): (r: string)
      ensures |r| > 0
      ensures r[0] == 'S' <==> this == SizeRequired
      ensures r[0] == 'C' <==> this == ColorRequired
      ensures r[0] == 'P' <==> this == PriceNotPositive
    {
      match this
      case SizeRequired => "Size is required"
      case ColorRequired => "Color is required"
      case PriceNotPositive => "Price must be a positive number"
    }
  }

  /** `variantSchema`: every rule the input breaks, in field order. */
  function VariantErrors(input: VariantInput): (errs: seq<VariantError>)
    ensures SizeRequired in errs <==> input.size == ""
    ensures ColorRequired in errs <==> input.color == ""
    ensures PriceNotPositive in errs <==> input.price <= 0
    ensures errs == [] <==> |input.size| > 0 && |input.color| > 0 && input.price > 0
  {
    (if |input.size| >= 1 then [] else [SizeRequired])
    + (if |input.color| >= 1 then [] else [ColorRequired])
    + (if input.price > 0 then [] else [PriceNotPositive])
  }

  /** Submitting the add-variant form (`handleSubmit(addVariant)`): a valid
      input yields the product with a new variant carrying the fresh id and the
      submitted fields; an invalid one yields its errors and no update. */
  function AddVariant(p: Product, input: VariantInput, freshId: string): (r: Result<Product, seq<VariantError>>)
    ensures r.Ok? <==> |input.size| > 0 && |input.color| > 0 && input.price > 0
    ensures r.Ok? ==> r.value.id == p.id && r.value.name == p.name
    ensures r.Ok? ==> r.value.variants == p.variants + [Variant(freshId, input.size, input.color, input.price)]
    ensures r.Err? ==> r.error == VariantErrors(input) && r.error != []
  {
    var errs := VariantErrors(input);
    if errs == [] then Ok(WithVariant(p, Variant(freshId, input.size, input.color, input.price)))
    else Err(errs)
  }

  /** Removing a variant that was just added under a fresh id gives back the product. */
  lemma RemoveUndoesAdd(p: Product, v: Variant)
    requires v.id !in VariantIds(p.variants)
    ensures WithoutVariant(WithVariant(p, v), v.id) == p
  {
    var keep := w => OtherVariantId(v.id, w);
    forall i | 0 <= i < |p.variants| ensures keep(p.variants[i]) {
      assert VariantIds(p.variants)[i] == p.variants[i].id;
    }
    FilterAppend(p.variants, [v], keep);
    FilterKeepsAll(p.variants, keep);
  }

  /** A new product "Hat" given a large blue variant priced 15 has exactly that
      one variant, under the id drawn for it. */
  lemma HatWithBlueVariant(productId: string, variantId: string)
    ensures Form.SubmitProduct("Hat", productId).Ok?
    ensures var hat := Form.SubmitProduct("Hat", productId).value;
      var r := AddVariant(hat, VariantInput("L", "Blue", 15), variantId);
      r.Ok? && r.value.id == productId && r.value.name == "Hat" &&
      r.value.variants == [Variant(variantId, "L", "Blue", 15)]
  {
  }

  /** Adding a variant under a fresh id keeps variant ids unique. */
  lemma AddVariantKeepsUnique(p: Product, input: VariantInput, freshId: string)
    requires UniqueVariantIds(p.variants) && freshId !in VariantIds(p.variants)
    ensures AddVariant(p, input, freshId).Ok? ==> UniqueVariantIds(AddVariant(p, input, freshId).value.variants)
  {
    forall i | 0 <= i < |p.variants| ensures p.variants[i].id != freshId {
      assert VariantIds(p.variants)[i] == p.variants[i].id;
    }
  }

  /** Filtering a list of variants keeps its ids unique. */
  lemma {:induction false} FilterKeepsUniqueVariantIds(vs: seq<Variant>, keep: Variant -> bool)
    requires UniqueVariantIds(vs)
    ensures UniqueVariantIds(Filter(vs, keep))
    decreases |vs|
  {
    if vs != [] {
      FilterKeepsUniqueVariantIds(vs[1..], keep);
      FilterMembers(vs[1..], keep);
      var rest := Filter(vs[1..], keep);
      forall j | 0 <= j < |rest| ensures rest[j].id != vs[0].id {
        assert rest[j] in vs[1..];
        var k :| 0 <= k < |vs[1..]| && vs[1..][k] == rest[j];
        assert vs[k + 1] == rest[j];
      }
    }
  }

  /** Removing variants keeps variant ids unique. */
  lemma WithoutVariantKeepsUnique(p: Product, id: string)
    requires UniqueVariantIds(p.variants)
    ensures UniqueVariantIds(WithoutVariant(p, id).variants)
  {
    FilterKeepsUniqueVariantIds(p.variants, v => OtherVariantId(id, v));
  }

  /** Removing the same variant id twice is removing it once. */
  lemma RemoveIdempotent(p: Product, id: string)
    ensures WithoutVariant(WithoutVariant(p, id), id) == WithoutVariant(p, id)
  {
    FilterIdempotent(p.variants, v => OtherVariantId(id, v));
  }

  /** The edit buffer (`Partial<Variant>`): each field is present or absent. */
  datatype EditValues = EditValues(id: Option<string>, size: Option<string>, color: Option<string>, price: Option<int>)

  /** The empty edit buffer `{}`. */
  const NoEdits: EditValues := EditValues(None, None, None, None)

  /** `{ ...variant }`: a buffer holding every field of the variant. Laid over
      any variant it gives back `v`, and saving it passes the guard exactly when
      `v` has an id, a size and a color. */
  function CopyOf(v: Variant): (r: EditValues)
    ensures forall w :: Overlay(w, r) == v
    ensures CanSave(Some(v.id), r) <==> v.id != "" && v.size != "" && v.color != ""
  {
    EditValues(Some(v.id), Some(v.size), Some(v.color), Some(v.price))
  }

  /** `{ ...v, ...editValues }`: the fields present in the buffer replace the variant's. */
  function Overlay(v: Variant, e: EditValues): (r: Variant)
    ensures e == NoEdits ==> r == v
    ensures e.id.Some? ==> r.id == e.id.value
    ensures e.id.None? ==> r.id == v.id
    ensures e.size.Some? ==> r.size == e.size.value
    ensures e.size.None? ==> r.size == v.size
    ensures e.color.Some? ==> r.color == e.color.value
    ensures e.color.None? ==> r.color == v.color
    ensures e.price.Some? ==> r.price == e.price.value
    ensures e.price.None? ==> r.price == v.price
  {
    Variant(
      if e.id.Some? then e.id.value else v.id,
      if e.size.Some? then e.size.value else v.size,
      if e.color.Some? then e.color.value else v.color,
      if e.price.Some? then e.price.value else v.price)
  }

  /** The merge in saveEdit: every variant with the edited id becomes the
      overlay of the buffer on it; every other variant stays as it is. */
  function MergedEdit(p: Product, editId: string, e: EditValues): (r: Product)
    ensures r.id == p.id && r.name == p.name
    ensures |r.variants| == |p.variants|
    ensures forall i :: 0 <= i < |p.variants| && p.variants[i].id == editId ==> r.variants[i] == Overlay(p.variants[i], e)
    ensures forall i :: 0 <= i < |p.variants| && p.variants[i].id != editId ==> r.variants[i] == p.variants[i]
  {
    p.(variants := seq(|p.variants|, i requires 0 <= i < |p.variants| =>
      if p.variants[i].id == editId then Overlay(p.variants[i], e) else p.variants[i]))
  }

  /** When the buffer carries the edited id (as startEdit leaves it), the merge
      keeps every variant's id in place. */
  lemma MergedEditKeepsIds(p: Product, editId: string, e: EditValues)
    requires e.id == Some(editId) || e.id.None?
    ensures VariantIds(MergedEdit(p, editId, e).variants) == VariantIds(p.variants)
  {
  }

  /** When the buffer carries the edited id, saving keeps variant ids unique. */
  lemma MergedEditKeepsUnique(p: Product, editId: string, e: EditValues)
    requires e.id == Some(editId) || e.id.None?
    requires UniqueVariantIds(p.variants)
    ensures UniqueVariantIds(MergedEdit(p, editId, e).variants)
  {
    var r := MergedEdit(p, editId, e);
    MergedEditKeepsIds(p, editId, e);
    forall i | 0 <= i < |p.variants| ensures r.variants[i].id == p.variants[i].id {
      assert VariantIds(r.variants)[i] == VariantIds(p.variants)[i];
    }
  }

  /** Saving right after startEdit, with no field changed, leaves the product
      as it was, provided no other variant shares the edited variant's id. */
  lemma SaveUnchangedIsIdentity(p: Product, v: Variant)
    requires v in p.variants && UniqueVariantIds(p.variants)
    ensures MergedEdit(p, v.id, CopyOf(v)) == p
  {
  }

  /** A JavaScript-truthy optional string: present and not empty. */
  predicate Truthy(s: Option<string>)
  {
    s.Some? && s.value != ""
  }

  /** saveEdit's guard: an edit is in progress and the buffer has a size, a
      color and a price. */
  predicate CanSave(editId: Option<string>, e: EditValues): (r: bool)
    ensures r ==> editId.Some? && e.size.Some? && e.color.Some? && e.price.Some?
    ensures e == NoEdits ==> !r
    ensures editId == Some("") ==> !r
  {
    Truthy(editId) && Truthy(e.size) && Truthy(e.color) && e.price.Some?
  }

  /** A saved edit always has a non-empty size and color, but its price is not
      checked: the edit path accepts a price the add-variant form rejects. */
  lemma SaveSkipsPriceRule(v: Variant)
    requires v.size != "" && v.color != "" && v.id != ""
    ensures CanSave(Some(v.id), CopyOf(v).(price := Some(-5)))
    ensures VariantErrors(VariantInput(v.size, v.color, -5)) == [PriceNotPositive]
  {
  }

  /** The card's edit mode. `editId` is the id of the variant being edited;
      `editValues` holds the fields typed so far. */
  class VariantEditor {
    var editId: Option<string>
    var editValues: EditValues

    /** While an edit is in progress the buffer carries the edited id. */
    ghost predicate Valid()
      reads this
    {
      editId.Some? ==> editValues.id == editId
    }

    /** Not editing: `editId` is null and the buffer is empty. */
    constructor ()
      ensures Valid() && editId == None && editValues == NoEdits
    {
      editId := None;
      editValues := NoEdits;
    }

    /** startEdit: edit `v`, starting from a copy of its fields. */
    method StartEdit(v: Variant)
      modifies this
      ensures Valid()
      ensures editId == Some(v.id) && editValues == CopyOf(v)
    {
      editId := Some(v.id);
      editValues := CopyOf(v);
    }

    /** The size selector's change handler. */
    method EditSize(size: string)
      requires Valid()
      modifies this
      ensures Valid()
      ensures editId == old(editId) && editValues == old(editValues).(size := Some(size))
    {
      editValues := editValues.(size := Some(size));
    }

    /** The color selector's change handler. */
    method EditColor(color: string)
      requires Valid()
      modifies this
      ensures Valid()
      ensures editId == old(editId) && editValues == old(editValues).(color := Some(color))
    {
      editValues := editValues.(color := Some(color));
    }

    /** The price input's change handler, given the number it parsed. */
    method EditPrice(price: int)
      requires Valid()
      modifies this
      ensures Valid()
      ensures editId == old(editId) && editValues == old(editValues).(price := Some(price))
    {
      editValues := editValues.(price := Some(price));
    }

    /** saveEdit on the card's product `p`. Returns the product passed to
        `onUpdate`, or `None` when the guard fails and nothing happens. */
    method SaveEdit(p: Product) returns (update: Option<Product>)
      requires Valid()
      modifies this
      ensures Valid()
      ensures !CanSave(old(editId), old(editValues)) ==>
        update.None? && editId == old(editId) && editValues == old(editValues)
      ensures CanSave(old(editId), old(editValues)) ==>
        update == Some(MergedEdit(p, old(editId).value, old(editValues))) &&
        VariantIds(update.value.variants) == VariantIds(p.variants) &&
        editId.None? && editValues == NoEdits
    {
      if !CanSave(editId, editValues) {
        return None;
      }
      MergedEditKeepsIds(p, editId.value, editValues);
      update := Some(MergedEdit(p, editId.value, editValues));
      editId := None;
      editValues := NoEdits;
    }

    /** cancelEdit: leave edit mode and drop the buffer. */
    method CancelEdit()
      modifies this
      ensures Valid()
      ensures editId.None? && editValues == NoEdits
    {
      editId := None;
      editValues := NoEdits;
    }
  }
}
