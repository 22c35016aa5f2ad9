/** The medicine cart: items added with up to five images, and deleted
    together with their stored images. */
module MedicineCart {
  import opened Common
  import opened Keyed
  import opened CloudImage

  /** The upload folder of cart images. */
  const CartFolder := "cart_items"

  /** A row of `cart`; `images` is NULL for a row stored without the column. */
  datatype CartItem = CartItem(
    patientId: Option<string>,
    name: Option<string>,
    category: Option<string>,
    manufacturer: Option<string>,
    batchNumber: Option<string>,
    packSize: Option<string>,
    description: Option<string>,
    price: Option<real>,
    stock: int,
    quantity: int,
    images: Option<seq<string>>)

  type CartRows = seq<Entry<int, CartItem>>

  /** The form fields of `POST /add`. */
  datatype CartRequest = CartRequest(
    patientId: Option<string>,
    name: Option<string>,
    category: Option<string>,
    manufacturer: Option<string>,
    batchNumber: Option<string>,
    packSize: Option<string>,
    description: Option<string>,
    price: Option<Parsed<real>>,
    stock: Option<Parsed<int>>,
    quantity: Option<Parsed<int>>)

  /** The row `POST /add` inserts: empty text columns become NULL, a missing
      price NULL, a missing stock 0 and a missing quantity 1. */
  function NewCartItem(req: CartRequest, files: seq<Upload>): (item: CartItem)
    ensures item.patientId == req.patientId && item.name == req.name
    ensures item.images == Some(ImageUrls(files))
  {
    CartItem(req.patientId, req.name, OrNull(req.category), OrNull(req.manufacturer),
             OrNull(req.batchNumber), OrNull(req.packSize), OrNull(req.description),
             if req.price.Some? && req.price.value.text != "" then Some(req.price.value.value) else None,
             ParsedOr(req.stock, 0), ParsedOr(req.quantity, 1), Some(ImageUrls(files)))
  }

  /** The defaults of a new cart item. */
  lemma NewCartItemDefaults(req: CartRequest, files: seq<Upload>)
    ensures var item := NewCartItem(req, files);
      && (req.stock.None? ==> item.stock == 0)
      && (req.quantity.None? ==> item.quantity == 1)
      && (req.price.None? ==> item.price.None?)
      && (item.category.Some? <==> Filled(req.category))
      && (Filled(req.category) ==> item.category == req.category)
      && (item.description.Some? <==> Filled(req.description))
  {
  }

  /** The images stored with the cart item, in upload order. */
  lemma NewCartItemImages(req: CartRequest, files: seq<Upload>)
    ensures var urls := NewCartItem(req, files).images.value;
      && |urls| == |files|
      && forall i :: 0 <= i < |files| ==> urls[i] == files[i].path
  {
  }

  /** The public ids a cart deletion destroys: one per stored image URL, in
      the cart folder; none when the row has no images. */
  function CartImageIds(item: CartItem): (ids: seq<string>)
    ensures item.images.None? ==> ids == []
    ensures item.images.Some? ==> |ids| == |item.images.value|
    ensures item.images.Some? ==> forall i :: 0 <= i < |ids| ==>
              ids[i] == CartFolder + "/" + FileName(item.images.value[i])
  {
    PublicIds(CartFolder, item.images.GetOr([]))
  }

  datatype AddOutcome = TooManyImages | Added(id: int, item: CartItem)

  /** The `cart` table and the public ids destroyed in the image store. */
  class CartTable {
    var rows: CartRows
    var nextId: int
    var destroyed: seq<string>

    ghost predicate Valid()
      reads this
    {
      UniqueKeys(rows) && forall k :: k in Keys(rows) ==> k < nextId
    }

    constructor ()
      ensures Valid() && rows == [] && destroyed == []
    {
      rows := [];
      nextId := 1;
      destroyed := [];
    }

    /** `POST /add`: more than five images are refused before the handler
        runs; otherwise the item is stored under a fresh id. */
    method Add(req: CartRequest, files: seq<Upload>) returns (outcome: AddOutcome)
      requires Valid()
      modifies this
      ensures Valid()
      ensures destroyed == old(destroyed)
      ensures |files| > MaxImages ==> outcome == TooManyImages && rows == old(rows)
      ensures |files| <= MaxImages ==>
                && outcome.Added?
                && outcome.id !in Keys(old(rows))
                && outcome.item == NewCartItem(req, files)
                && rows == old(rows) + [Entry(outcome.id, outcome.item)]
    {
      if |files| > MaxImages {
        return TooManyImages;
      }
      var item := NewCartItem(req, files);
      var id := nextId;
      AppendFresh(rows, id, item);
      rows := rows + [Entry(id, item)];
      nextId := nextId + 1;
      outcome := Added(id, item);
    }

    /** `DELETE /:id`: an unknown id answers not found and changes nothing;
        otherwise every image of the item is destroyed and then its row. */
    method Delete(id: int) returns (found: bool)
      requires Valid()
      modifies this
      ensures Valid()
      ensures found <==> id in Keys(old(rows))
      ensures !found ==> rows == old(rows) && destroyed == old(destroyed)
      ensures found ==>
                && destroyed == old(destroyed) + CartImageIds(Lookup(old(rows), id).value)
                && rows == Remove(old(rows), id)
    {
      var item := Lookup(rows, id);
      if item.None? {
        return false;
      }
      var imageUrls := item.value.images.GetOr([]);
      destroyed := destroyed + PublicIds(CartFolder, imageUrls);
      RemoveKeepsUnique(rows, id);
      rows := Remove(rows, id);
      found := true;
    }
  }

  /** Deleting a stored item removes exactly its row and leaves the others. */
  lemma DeleteRemovesOnlyThatRow(rows: CartRows, id: int)
    requires UniqueKeys(rows)
    ensures Keys(Remove(rows, id)) == Keys(rows) - {id}
    ensures forall k :: k != id ==> Lookup(Remove(rows, id), k) == Lookup(rows, k)
  {
    forall k | k != id ensures Lookup(Remove(rows, id), k) == Lookup(rows, k) {
      RemoveLookupOther(rows, id, k);
    }
  }
}
