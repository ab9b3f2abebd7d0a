/** The gallery resource (`/api/gallery`): upload, list newest first and
    delete, over one table of images. */
module Gallery {
  import opened Common
  import opened Upload
  import Table

  datatype GalleryImage = GalleryImage(
    id: string,
    caption: Option<string>,
    imageUrl: string,
    createdAt: int)       // milliseconds since the epoch

  function ImageId(g: GalleryImage): string { g.id }
  function CreatedAt(g: GalleryImage): int { g.createdAt }

  /** GET: every image, newest first. */
  function ListGallery(rows: seq<GalleryImage>): (r: seq<GalleryImage>)
    ensures Table.SortedBy(r, CreatedAt, false)
    ensures multiset(r) == multiset(rows)
  {
    Table.SortByOrders(rows, CreatedAt, false);
    Table.SortBy(rows, CreatedAt, false)
  }

  /** After deleting the image at k, the list no longer shows it and still
      shows every other image. */
  lemma DeletedImageIsNotListed(rows: seq<GalleryImage>, k: nat)
    requires Table.UniqueIds(rows, ImageId)
    requires k < |rows|
    ensures forall g :: g in ListGallery(Table.RemoveAt(rows, k)) <==> g in ListGallery(rows) && g.id != rows[k].id
  {
    Table.RemoveAtKeepsOthers(rows, ImageId, k);
    var after := Table.RemoveAt(rows, k);
    forall g ensures g in ListGallery(after) <==> g in after {
      assert g in multiset(ListGallery(after)) <==> g in multiset(after);
    }
    forall g ensures g in ListGallery(rows) <==> g in rows {
      assert g in multiset(ListGallery(rows)) <==> g in multiset(rows);
    }
  }

  /** The gallery table. */
  class GalleryTable {
    var rows: seq<GalleryImage>

    ghost predicate Valid()
      reads this
    {
      Table.UniqueIds(rows, ImageId)
    }

    constructor ()
      ensures Valid() && rows == []
    {
      rows := [];
    }

    /** POST: an image with a name is required; the stored URL is the
        placeholder in production and the stored file's path otherwise;
        the caption is kept as sent. `now` is the creation time the
        database records and `newId` the id it assigns. */
    method Create(caption: Option<string>, image: Option<string>, stamp: nat, production: bool,
                  now: int, newId: string)
      returns (status: Status, created: Option<GalleryImage>)
      requires Valid()
      requires forall i :: 0 <= i < |rows| ==> rows[i].id != newId
      modifies this
      ensures Valid()
      ensures !Present(image) ==> status == BadRequest && created == None && rows == old(rows)
      ensures Present(image) ==>
        && status == Created
        && created.Some?
        && created.value == GalleryImage(newId, caption, created.value.imageUrl, now)
        && Some(created.value.imageUrl) == ImageUrl(image, stamp, production)
        && rows == old(rows) + [created.value]
    {
      if !Present(image) {
        return BadRequest, None;
      }
      var imageUrl: string;
      if production {
        imageUrl := Placeholder;
      } else {
        imageUrl := UploadUrl(stamp, image.value);
      }
      var picture := GalleryImage(newId, caption, imageUrl, now);
      rows := rows + [picture];
      return Created, Some(picture);
    }

    /** DELETE: removes exactly the image with the given id. */
    method Delete(id: Option<string>) returns (status: Status)
      requires Valid()
      modifies this
      ensures Valid()
      ensures !Present(id) ==> status == BadRequest && rows == old(rows)
      ensures Present(id) ==>
        match Table.Find(old(rows), ImageId, id.value)
        case None => status == NotFound && rows == old(rows)
        case Some(k) => status == Ok && rows == Table.RemoveAt(old(rows), k)
    {
      if !Present(id) {
        return BadRequest;
      }
      var found := Table.Find(rows, ImageId, id.value);
      if found.None? {
        return NotFound;
      }
      Table.RemoveAtKeepsOthers(rows, ImageId, found.value);
      rows := Table.RemoveAt(rows, found.value);
      return Ok;
    }
  }
}
