/** The medicine catalogue: medicines added with up to five images, fetched
    by id, and deleted together with their stored images. */
module Medicines {
  import opened Common
  import opened Keyed
  import opened CloudImage

  /** The upload folder of medicine images. */
  const MedicinesFolder := "medicines"

  /** A row of `medicines`; `images` is NULL for a row stored without the column. */
  datatype Medicine = Medicine(
    name: Option<string>,
    category: Option<string>,
    manufacturer: Option<string>,
    batchNumber: Option<string>,
    packSize: Option<string>,
    description: Option<string>,
    price: Option<real>,
    stock: int,
    images: Option<seq<string>>)

  type MedicineRows = seq<Entry<int, Medicine>>

  /** The form fields of `POST /add`. */
  datatype MedicineRequest = MedicineRequest(
    name: Option<string>,
    category: Option<string>,
    manufacturer: Option<string>,
    batchNumber: Option<string>,
    packSize: Option<string>,
    description: Option<string>,
    price: Option<Parsed<real>>,
    stock: Option<Parsed<int>>)

  /** The row `POST /add` inserts: empty text columns become NULL, a missing
      price NULL and a missing stock 0. */
  function NewMedicine(req: MedicineRequest, files: seq<Upload>): (m: Medicine)
    ensures m.name == req.name
    ensures m.images == Some(ImageUrls(files))
  {
    Medicine(req.name, OrNull(req.category), OrNull(req.manufacturer), OrNull(req.batchNumber),
             OrNull(req.packSize), OrNull(req.description),
             if req.price.Some? && req.price.value.text != "" then Some(req.price.value.value) else None,
             ParsedOr(req.stock, 0), Some(ImageUrls(files)))
  }

  /** The defaults of a new medicine. */
  lemma NewMedicineDefaults(req: MedicineRequest, files: seq<Upload>)
    ensures var m := NewMedicine(req, files);
      && (req.price.None? ==> m.price.None?)
      && (req.price.Some? && req.price.value.text != "" ==> m.price == Some(req.price.value.value))
      && (req.stock.None? ==> m.stock == 0)
      && (m.manufacturer.Some? <==> Filled(req.manufacturer))
      && (m.packSize.Some? <==> Filled(req.packSize))
  {
  }

  /** The images stored with the medicine, in upload order. */
  lemma NewMedicineImages(req: MedicineRequest, files: seq<Upload>)
    ensures var urls := NewMedicine(req, files).images.value;
      && |urls| == |files|
      && forall i :: 0 <= i < |files| ==> urls[i] == files[i].path
  {
  }

  /** The public ids a medicine deletion destroys: one per stored image URL,
      in the medicines folder; none when the row has no images. */
  function MedicineImageIds(m: Medicine): (ids: seq<string>)
    ensures m.images.None? ==> ids == []
    ensures m.images.Some? ==> |ids| == |m.images.value|
    ensures m.images.Some? ==> forall i :: 0 <= i < |ids| ==>
              ids[i] == MedicinesFolder + "/" + FileName(m.images.value[i])
  {
    PublicIds(MedicinesFolder, m.images.GetOr([]))
  }

  datatype AddOutcome = TooManyImages | Added(id: int, medicine: Medicine)

  /** The `medicines` table and the public ids destroyed in the image store. */
  class MedicineTable {
    var rows: MedicineRows
    var nextId: int
    var destroyed: seq<string>

    ghost predicate Valid()
      reads this
    {
      UniqueKeys(rows) && forall k :: k in Keys(rows) ==> k < nextId
    }

    constructor ()
      ensures Valid() && rows == [] && destroyed == []
    {
      rows := [];
      nextId := 1;
      destroyed := [];
    }

    /** `POST /add`: more than five images are refused before the handler
        runs; otherwise the medicine is stored under a fresh id. */
    method Add(req: MedicineRequest, files: seq<Upload>) returns (outcome: AddOutcome)
      requires Valid()
      modifies this
      ensures Valid()
      ensures destroyed == old(destroyed)
      ensures |files| > MaxImages ==> outcome == TooManyImages && rows == old(rows)
      ensures |files| <= MaxImages ==>
                && outcome.Added?
                && outcome.id !in Keys(old(rows))
                && outcome.medicine == NewMedicine(req, files)
                && rows == old(rows) + [Entry(outcome.id, outcome.medicine)]
    {
      if |files| > MaxImages {
        return TooManyImages;
      }
      var m := NewMedicine(req, files);
      var id := nextId;
      AppendFresh(rows, id, m);
      rows := rows + [Entry(id, m)];
      nextId := nextId + 1;
      outcome := Added(id, m);
    }

    /** `GET /:id`: the stored medicine, or not found. */
    method Get(id: int) returns (m: Option<Medicine>)
      requires Valid()
      ensures m.None? <==> id !in Keys(rows)
      ensures m.Some? ==> Entry(id, m.value) in rows
      ensures m.Some? ==> forall i :: 0 <= i < |rows| && rows[i].key == id ==> rows[i].val == m.value
    {
      m := Lookup(rows, id);
      if m.Some? {
        var j :| 0 <= j < |rows| && rows[j] == Entry(id, m.value);
        assert rows[j] in rows;
      }
    }

    /** `DELETE /:id`: an unknown id answers not found and changes nothing;
        otherwise every image of the medicine is destroyed and then its row. */
    method Delete(id: int) returns (found: bool)
      requires Valid()
      modifies this
      ensures Valid()
      ensures found <==> id in Keys(old(rows))
      ensures !found ==> rows == old(rows) && destroyed == old(destroyed)
      ensures found ==>
                && destroyed == old(destroyed) + MedicineImageIds(Lookup(old(rows), id).value)
                && rows == Remove(old(rows), id)
    {
      var m := Lookup(rows, id);
      if m.None? {
        return false;
      }
      var imageUrls := m.value.images.GetOr([]);
      destroyed := destroyed + PublicIds(MedicinesFolder, imageUrls);
      RemoveKeepsUnique(rows, id);
      rows := Remove(rows, id);
      found := true;
    }
  }

  /** A successful delete removes only that row: it keeps every other
      medicine, in order. */
  lemma {:induction false} DeleteKeepsOthers(rows: MedicineRows, id: int, i: int)
    requires UniqueKeys(rows) && 0 <= i < |rows| && rows[i].key == id
    ensures Remove(rows, id) == rows[..i] + rows[i + 1..]
    ensures forall k :: k != id ==> Lookup(Remove(rows, id), k) == Lookup(rows, k)
  {
    RemoveOne(rows, id, i);
    forall k | k != id ensures Lookup(Remove(rows, id), k) == Lookup(rows, k) {
      RemoveLookupOther(rows, id, k);
    }
  }
}
