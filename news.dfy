/** The news resource (`/api/news`): create, list newest first, edit and
    delete, over one table of news items. */
module News {
  import opened Common
  import opened Upload
  import Table

  datatype NewsItem = NewsItem(
    id: string,
    title: string,
    content: string,
    bannerUrl: Option<string>,
    date: int)            // milliseconds since the epoch

  function NewsId(n: NewsItem): string { n.id }
  function NewsDate(n: NewsItem): int { n.date }

  /** GET: every item, newest first. */
  function ListNews(rows: seq<NewsItem>): (r: seq<NewsItem>)
    ensures Table.SortedBy(r, NewsDate, false)
    ensures multiset(r) == multiset(rows)
  {
    Table.SortByOrders(rows, NewsDate, false);
    Table.SortBy(rows, NewsDate, false)
  }

  /** With unique ids, the list holds every stored item exactly once. */
  lemma ListNewsOnce(rows: seq<NewsItem>, k: nat)
    requires Table.UniqueIds(rows, NewsId)
    requires k < |rows|
    ensures multiset(ListNews(rows))[rows[k]] == 1
  {
    var x := rows[k];
    assert rows == rows[..k] + [x] + rows[k + 1..];
    assert x !in rows[..k] && x !in rows[k + 1..] by {
      forall i | 0 <= i < |rows| && i != k ensures rows[i] != x {
        assert NewsId(rows[i]) != NewsId(x);
      }
    }
  }

  /** The news table. */
  class NewsTable {
    var rows: seq<NewsItem>

    ghost predicate Valid()
      reads this
    {
      Table.UniqueIds(rows, NewsId)
    }

    constructor ()
      ensures Valid() && rows == []
    {
      rows := [];
    }

    /** POST: title and content are required; the item is dated with the
        time of the request and its banner follows the upload rule.
        `newId` is the id the database assigns. */
    method Create(title: Option<string>, content: Option<string>, image: Option<string>,
                  stamp: nat, production: bool, now: int, newId: string)
      returns (status: Status, created: Option<NewsItem>)
      requires Valid()
      requires forall i :: 0 <= i < |rows| ==> rows[i].id != newId
      modifies this
      ensures Valid()
      ensures !(Present(title) && Present(content)) ==>
        status == BadRequest && created == None && rows == old(rows)
      ensures Present(title) && Present(content) ==>
        && status == Created
        && created == Some(NewsItem(newId, title.value, content.value, ImageUrl(image, stamp, production), now))
        && rows == old(rows) + [created.value]
    {
      if !Present(title) || !Present(content) {
        return BadRequest, None;
      }
      var bannerUrl: Option<string> := None;
      if Present(image) {
        if production {
          bannerUrl := Some(Placeholder);
        } else {
          bannerUrl := Some(UploadUrl(stamp, image.value));
        }
      }
      var item := NewsItem(newId, title.value, content.value, bannerUrl, now);
      rows := rows + [item];
      return Created, Some(item);
    }

    /** PUT: writes title, content and banner (kept unless an image with a
        name is sent); id and date are left as they are. A missing title
        or content makes the database update fail. */
    method Edit(id: Option<string>, title: Option<string>, content: Option<string>,
                image: Option<string>, stamp: nat, production: bool)
      returns (status: Status, updated: Option<NewsItem>)
      requires Valid()
      modifies this
      ensures Valid()
      ensures !Present(id) ==> status == BadRequest && updated == None && rows == old(rows)
      ensures Present(id) && Table.Find(old(rows), NewsId, id.value).None? ==>
        status == NotFound && updated == None && rows == old(rows)
      ensures Present(id) && Table.Find(old(rows), NewsId, id.value).Some? ==>
        var k := Table.Find(old(rows), NewsId, id.value).value;
        var before := old(rows)[k];
        if title.None? || content.None? then
          status == ServerError && updated == None && rows == old(rows)
        else
          && status == Ok
          && rows == old(rows)[k := NewsItem(before.id, title.value, content.value,
                                             if Present(image) then ImageUrl(image, stamp, production) else before.bannerUrl,
                                             before.date)]
          && updated == Some(rows[k])
    {
      if !Present(id) {
        return BadRequest, None;
      }
      var found := Table.Find(rows, NewsId, id.value);
      if found.None? {
        return NotFound, None;
      }
      var existing := rows[found.value];
      var bannerUrl := existing.bannerUrl;
      if Present(image) {
        if production {
          bannerUrl := Some(Placeholder);
        } else {
          bannerUrl := Some(UploadUrl(stamp, image.value));
        }
      }
      if title.None? || content.None? {
        return ServerError, None;
      }
      rows := rows[found.value := existing.(title := title.value, content := content.value, bannerUrl := bannerUrl)];
      return Ok, Some(rows[found.value]);
    }

    /** DELETE, with the id taken from the JSON body: removes exactly the
        item with that id. */
    method Delete(id: Option<string>) returns (status: Status)
      requires Valid()
      modifies this
      ensures Valid()
      ensures !Present(id) ==> status == BadRequest && rows == old(rows)
      ensures Present(id) ==>
        match Table.Find(old(rows), NewsId, id.value)
        case None => status == NotFound && rows == old(rows)
        case Some(k) => status == Ok && rows == Table.RemoveAt(old(rows), k)
    {
      if !Present(id) {
        return BadRequest;
      }
      var found := Table.Find(rows, NewsId, id.value);
      if found.None? {
        return NotFound;
      }
      Table.RemoveAtKeepsOthers(rows, NewsId, found.value);
      rows := Table.RemoveAt(rows, found.value);
      return Ok;
    }
  }
}
