/** The events resource (`/api/events`): create, list with filters, the
    feature toggle, the form edit and delete, over one table of events.
    At most one event is featured; the toggle keeps this by clearing the
    flag on every other event before setting it on the target, in two
    separate writes. */
module Events {
  import opened Common
  import opened Upload
  import Text
  import Table

  datatype Event = Event(
    id: string,
    title: string,
    description: string,
    date: int,            // milliseconds since the epoch
    location: string,
    bannerUrl: Option<string>,
    isFeatured: bool)

  /** The `date` form field: the text sent and the time the JavaScript
      `Date` constructor makes of it (`None` for an Invalid Date). */
  datatype DateInput = DateInput(text: string, time: Option<int>)

  /** The `isFeatured` member of a JSON body: absent, a boolean, the
      ORM's update-operation object `{ "set": b }` (an object, so truthy),
      or any other JSON value (null, a number, a string, another object)
      with its truthiness, which the ORM refuses as a Boolean update. */
  datatype FeatureFlag = Missing | Flag(value: bool) | SetOp(value: bool) | NotBoolean(truthy: bool) {
    predicate Truthy() {
      match this
      case Missing => false
      case Flag(b) => b
      case SetOp(_) => true
      case NotBoolean(t) => t
    }

    /** The update writes the flag: a boolean or a `set` operation. */
    predicate Writes() {
      Flag? || SetOp?
    }
  }

  function EventId(e: Event): string { e.id }
  function EventDate(e: Event): int { e.date }

  predicate PresentDate(d: Option<DateInput>) {
    d.Some? && Present(Some(d.value.text))
  }

  /** `new Date(date)` for the form field `date`; an absent field is
      `new Date(null)`, which is the epoch. */
  function DateValue(d: Option<DateInput>): Option<int> {
    if d.None? then Some(0) else d.value.time
  }

  ghost predicate AtMostOneFeatured(rows: seq<Event>) {
    forall i, j :: 0 <= i < |rows| && 0 <= j < |rows| && rows[i].isFeatured && rows[j].isFeatured ==> i == j
  }

  /** `updateMany({ where: { isFeatured: true, NOT: { id: keep } },
      data: { isFeatured: false } })`. */
  function ClearFeatured(rows: seq<Event>, keep: string): (r: seq<Event>)
    ensures |r| == |rows|
    ensures forall i :: 0 <= i < |r| ==> r[i].id == rows[i].id
  {
    seq(|rows|, i requires 0 <= i < |rows| =>
      if rows[i].isFeatured && rows[i].id != keep then rows[i].(isFeatured := false) else rows[i])
  }

  /** `update({ where: { id }, data: { isFeatured: b } })` of the event at k. */
  function SetFeatured(rows: seq<Event>, k: nat, b: bool): (r: seq<Event>)
    requires k < |rows|
    ensures |r| == |rows| && (r[k].isFeatured <==> b)
    ensures forall i :: 0 <= i < |r| ==> r[i] == rows[i].(isFeatured := r[i].isFeatured)
    ensures forall i :: 0 <= i < |r| && i != k ==> r[i] == rows[i]
  {
    rows[k := rows[k].(isFeatured := b)]
  }

  /** After the clearing step only the kept id can still be featured, and
      nothing but the flag has changed. */
  lemma ClearFeaturedLeavesOnlyKept(rows: seq<Event>, keep: string)
    ensures var r := ClearFeatured(rows, keep);
      && (forall i :: 0 <= i < |r| && r[i].isFeatured ==> r[i].id == keep)
      && (forall i :: 0 <= i < |r| && rows[i].id == keep ==> r[i] == rows[i])
      && (forall i :: 0 <= i < |r| ==> r[i] == rows[i].(isFeatured := r[i].isFeatured))
  {
  }

  /** Featuring an existing event: afterwards it is the one featured event,
      and no record differs from before in anything but its flag. */
  lemma FeatureIsExclusive(rows: seq<Event>, k: nat)
    requires Table.UniqueIds(rows, EventId)
    requires k < |rows|
    ensures var r := SetFeatured(ClearFeatured(rows, rows[k].id), k, true);
      && |r| == |rows|
      && (forall i :: 0 <= i < |r| ==> (r[i].isFeatured <==> i == k))
      && (forall i :: 0 <= i < |r| ==> r[i] == rows[i].(isFeatured := r[i].isFeatured))
  {
    var c := ClearFeatured(rows, rows[k].id);
    ClearFeaturedLeavesOnlyKept(rows, rows[k].id);
    forall i | 0 <= i < |c| && i != k ensures !c[i].isFeatured {
      assert EventId(rows[i]) != EventId(rows[k]);
    }
  }

  /** Featuring an id no event has: the clearing step has already run, so
      no event is featured any more. */
  lemma FeatureUnknownClearsAll(rows: seq<Event>, id: string)
    requires Table.Find(rows, EventId, id).None?
    ensures forall i :: 0 <= i < |rows| ==> !ClearFeatured(rows, id)[i].isFeatured
  {
  }

  /** Updating an existing event with `{ "set": false }`: the value is
      truthy, so the clearing step runs first, and then the target itself
      is unfeatured; afterwards no event is featured. */
  lemma UnfeatureBySetClearsAll(rows: seq<Event>, k: nat)
    requires Table.UniqueIds(rows, EventId)
    requires k < |rows|
    ensures var r := SetFeatured(ClearFeatured(rows, rows[k].id), k, false);
      forall i :: 0 <= i < |r| ==> !r[i].isFeatured
  {
    var c := ClearFeatured(rows, rows[k].id);
    ClearFeaturedLeavesOnlyKept(rows, rows[k].id);
    forall i | 0 <= i < |c| && i != k ensures !c[i].isFeatured {
      assert EventId(rows[i]) != EventId(rows[k]);
    }
  }

  /** Both writes of the toggle keep "at most one event is featured". */
  lemma ToggleKeepsAtMostOne(rows: seq<Event>, keep: string, k: nat, b: bool)
    requires Table.UniqueIds(rows, EventId) && AtMostOneFeatured(rows)
    requires k < |rows| && rows[k].id == keep
    ensures AtMostOneFeatured(ClearFeatured(rows, keep))
    ensures b ==> AtMostOneFeatured(SetFeatured(ClearFeatured(rows, keep), k, b))
    ensures AtMostOneFeatured(SetFeatured(rows, k, false))
  {
    if b {
      FeatureIsExclusive(rows, k);
    }
  }

  /** The clearing step keeps the table valid, leaves only the kept id
      featured, and does not move any id. */
  lemma ClearKeepsValid(rows: seq<Event>, keep: string)
    requires Table.UniqueIds(rows, EventId) && AtMostOneFeatured(rows)
    ensures var c := ClearFeatured(rows, keep);
      && Table.UniqueIds(c, EventId) && AtMostOneFeatured(c)
      && (forall i :: 0 <= i < |c| && c[i].isFeatured ==> c[i].id == keep)
      && Table.Find(c, EventId, keep) == Table.Find(rows, EventId, keep)
  {
    var c := ClearFeatured(rows, keep);
    ClearFeaturedLeavesOnlyKept(rows, keep);
    Table.FindSeesOnlyIds(rows, c, EventId, keep);
    assert Table.UniqueIds(c, EventId) by {
      forall i, j | 0 <= i < j < |c| ensures EventId(c[i]) != EventId(c[j]) {
        assert EventId(rows[i]) != EventId(rows[j]);
      }
    }
  }

  /** The update of the target keeps the table valid, provided that when
      it sets the flag no other event is featured. */
  lemma SetKeepsValid(rows: seq<Event>, k: nat, b: bool)
    requires Table.UniqueIds(rows, EventId) && AtMostOneFeatured(rows)
    requires k < |rows|
    requires b ==> forall i :: 0 <= i < |rows| && rows[i].isFeatured ==> rows[i].id == rows[k].id
    ensures Table.UniqueIds(SetFeatured(rows, k, b), EventId) && AtMostOneFeatured(SetFeatured(rows, k, b))
  {
    var r := SetFeatured(rows, k, b);
    assert Table.UniqueIds(r, EventId) by {
      forall i, j | 0 <= i < j < |r| ensures EventId(r[i]) != EventId(r[j]) {
        assert EventId(rows[i]) != EventId(rows[j]);
      }
    }
    if b {
      forall i | 0 <= i < |r| && i != k ensures !r[i].isFeatured {
        assert EventId(rows[i]) != EventId(rows[k]);
      }
    }
  }

  /** `parseInt(limit || "0", 10)`, kept only when greater than zero:
      `None` means no `take`. */
  function Limit(param: Option<string>): (r: Option<nat>)
    ensures r.Some? ==> r.value > 0
  {
    Positive(Text.ParseInt(LimitText(param)))
  }

  /** `limit || "0"` */
  function LimitText(param: Option<string>): (r: string)
    ensures |r| > 0
  {
    if Present(param) then param.value else "0"
  }

  /** `limit > 0 ? limit : undefined`, where `NaN > 0` is false. */
  function Positive(n: Option<int>): Option<nat> {
    if n.Some? && n.value > 0 then Some(n.value as nat) else None
  }

  /** A run of digits, possibly with leading zeros and followed by
      non-digit text, caps the list exactly when its value is positive. */
  lemma LimitReadsDigits(d: string, tail: string)
    requires d != [] && Text.AllDigits(d)
    requires tail == [] || !Text.IsDigit(tail[0])
    ensures Limit(Some(d + tail)) == if Text.DigitsValue(d) > 0 then Some(Text.DigitsValue(d)) else None
  {
    var p := d + tail;
    assert LimitText(Some(p)) == p by {
      assert |p| > 0;
    }
    Text.ParseIntDigits(d, tail);
  }

  /** With a sign, `+` reads like no sign, and `-` never caps the list. */
  lemma LimitReadsSigned(sign: char, d: string, tail: string)
    requires sign == '-' || sign == '+'
    requires d != [] && Text.AllDigits(d)
    requires tail == [] || !Text.IsDigit(tail[0])
    ensures Limit(Some([sign] + d + tail)) ==
      if sign == '+' && Text.DigitsValue(d) > 0 then Some(Text.DigitsValue(d)) else None
  {
    var p := [sign] + d + tail;
    assert LimitText(Some(p)) == p by {
      assert |p| > 0;
    }
    assert p == [sign] + (d + tail);
    Text.ParseDigitsOf(d, tail);
    Text.ParseIntSigned(sign, d + tail);
  }

  /** An absent or empty parameter reads as "0" and does not cap the list;
      neither does text that is not a number. */
  lemma LimitAbsentOrNaN(param: Option<string>)
    requires !Present(param) || Text.ParseInt(param.value).None?
    ensures Limit(param) == None
  {
    if !Present(param) {
      Text.ParseIntDecimal(0, "");
      assert Text.Decimal(0) + "" == "0";
      assert LimitText(param) == "0";
    }
  }

  /** The `where` of the list query. */
  predicate Matches(e: Event, featured: bool, upcoming: bool, now: int) {
    (!featured || e.isFeatured) && (!upcoming || e.date >= now)
  }

  /** The `where` object built from the two query flags, as a filter. */
  function Where(featured: bool, upcoming: bool, now: int): Event -> bool {
    e => Matches(e, featured, upcoming, now)
  }

  /** GET: `featured=true` keeps featured events, `upcoming=true` keeps
      events dated now or later and orders by date ascending (descending
      otherwise), and a positive `limit` takes the first ones. */
  function ListEvents(rows: seq<Event>, featured: Option<string>, upcoming: Option<string>,
                      limit: Option<string>, now: int): seq<Event>
  {
    var f := featured == Some("true");
    var u := upcoming == Some("true");
    Table.FindMany(rows, Where(f, u, now), EventDate, u, Limit(limit))
  }

  /** Every listed event is stored, passes the `featured` and `upcoming`
      filters, and the list is in date order: ascending for upcoming
      events, descending otherwise. */
  lemma ListEventsFilters(rows: seq<Event>, featured: Option<string>, upcoming: Option<string>,
                          limit: Option<string>, now: int)
    ensures var r := ListEvents(rows, featured, upcoming, limit, now);
      && (forall i :: 0 <= i < |r| ==> r[i] in rows)
      && (featured == Some("true") ==> forall i :: 0 <= i < |r| ==> r[i].isFeatured)
      && (upcoming == Some("true") ==> forall i :: 0 <= i < |r| ==> r[i].date >= now)
      && Table.SortedBy(r, EventDate, upcoming == Some("true"))
  {
    var f := featured == Some("true");
    var u := upcoming == Some("true");
    Table.FindManyMeetsQuery(rows, Where(f, u, now), EventDate, u, Limit(limit));
  }

  /** A positive limit gives at most that many events, taken from the
      front of the list without a limit. */
  lemma ListEventsLimit(rows: seq<Event>, featured: Option<string>, upcoming: Option<string>,
                        limit: Option<string>, now: int)
    ensures var r := ListEvents(rows, featured, upcoming, limit, now);
      && (Limit(limit).Some? ==> |r| <= Limit(limit).value)
      && |r| <= |ListEvents(rows, featured, upcoming, None, now)|
      && (Limit(limit).Some? ==>
            |r| == if Limit(limit).value <= |ListEvents(rows, featured, upcoming, None, now)|
                   then Limit(limit).value else |ListEvents(rows, featured, upcoming, None, now)|)
      && r == ListEvents(rows, featured, upcoming, None, now)[..|r|]
  {
    var f := featured == Some("true");
    var u := upcoming == Some("true");
    assert Limit(None) == None by {
      LimitAbsentOrNaN(None);
    }
    Table.FindManyMeetsQuery(rows, Where(f, u, now), EventDate, u, Limit(limit));
  }

  /** A limit that does not cap leaves the query without a `take`. */
  lemma ListEventsUncapped(rows: seq<Event>, featured: Option<string>, upcoming: Option<string>,
                           limit: Option<string>, now: int)
    requires Limit(limit).None?
    ensures ListEvents(rows, featured, upcoming, limit, now) ==
      Table.FindMany(rows, Where(featured == Some("true"), upcoming == Some("true"), now), EventDate, upcoming == Some("true"), None)
  {
  }

  /** Without a limit, every event that passes the filters is listed, as
      often as it is stored. */
  lemma ListEventsComplete(rows: seq<Event>, featured: Option<string>, upcoming: Option<string>,
                           limit: Option<string>, now: int)
    requires Limit(limit).None?
    ensures var r := ListEvents(rows, featured, upcoming, limit, now);
      forall e :: multiset(r)[e] ==
        (if Matches(e, featured == Some("true"), upcoming == Some("true"), now) then multiset(rows)[e] else 0)
  {
    var f := featured == Some("true");
    var u := upcoming == Some("true");
    var keep := Where(f, u, now);
    var r := ListEvents(rows, featured, upcoming, limit, now);
    ListEventsUncapped(rows, featured, upcoming, limit, now);
    Table.FindManyComplete(rows, keep, EventDate, u);
    forall e ensures multiset(r)[e] == (if Matches(e, f, u, now) then multiset(rows)[e] else 0) {
      assert keep(e) == Matches(e, f, u, now);
    }
  }

  /** While at most one event is featured, the featured list has at most
      one entry. */
  lemma FeaturedListHasAtMostOne(rows: seq<Event>, upcoming: Option<string>, limit: Option<string>, now: int)
    requires AtMostOneFeatured(rows)
    ensures |ListEvents(rows, Some("true"), upcoming, limit, now)| <= 1
  {
    var u := upcoming == Some("true");
    Table.FindManyAtMostOne(rows, Where(true, u, now), EventDate, u, Limit(limit));
  }

  /** The events table. */
  class EventTable {
    var rows: seq<Event>

    ghost predicate Valid()
      reads this
    {
      Table.UniqueIds(rows, EventId) && AtMostOneFeatured(rows)
    }

    constructor ()
      ensures Valid() && rows == []
    {
      rows := [];
    }

    /** POST: title, date, description and location are required; the
        banner follows the upload rule; a new event is never featured.
        `newId` is the id the database assigns. */
    method Create(title: Option<string>, date: Option<DateInput>, description: Option<string>,
                  location: Option<string>, image: Option<string>, stamp: nat, production: bool,
                  newId: string)
      returns (status: Status, created: Option<Event>)
      requires Valid()
      requires forall i :: 0 <= i < |rows| ==> rows[i].id != newId
      modifies this
      ensures Valid()
      ensures var valid := Present(title) && PresentDate(date) && Present(description) && Present(location);
        && (!valid ==> status == BadRequest && created == None && rows == old(rows))
        && (valid && date.value.time.None? ==> status == ServerError && created == None && rows == old(rows))
        && (valid && date.value.time.Some? ==>
              && status == Created
              && created == Some(Event(newId, title.value, description.value, date.value.time.value,
                                       location.value, ImageUrl(image, stamp, production), false))
              && rows == old(rows) + [created.value])
    {
      if !Present(title) || !PresentDate(date) || !Present(description) || !Present(location) {
        return BadRequest, None;
      }
      var bannerUrl: Option<string> := None;
      if Present(image) {
        if production {
          bannerUrl := Some(Placeholder);
        } else {
          bannerUrl := Some(UploadUrl(stamp, image.value));
        }
      }
      if date.value.time.None? {
        // the database rejects an Invalid Date
        return ServerError, None;
      }
      var event := Event(newId, title.value, description.value, date.value.time.value,
                         location.value, bannerUrl, false);
      rows := rows + [event];
      return Created, Some(event);
    }

    /** PUT with a JSON body: with a truthy flag, first clear the flag on
        every other featured event, then update the target with the flag
        or the `set` operation; the update of an unknown id, or with any
        other value, fails after the clearing step has run. */
    method Feature(id: Option<string>, flag: FeatureFlag) returns (status: Status, updated: Option<Event>)
      requires Valid()
      modifies this
      ensures Valid()
      ensures !Present(id) ==> status == BadRequest && updated == None && rows == old(rows)
      ensures Present(id) ==>
        var cleared := if flag.Truthy() then ClearFeatured(old(rows), id.value) else old(rows);
        match Table.Find(old(rows), EventId, id.value)
        case None => status == ServerError && updated == None && rows == cleared
        case Some(k) =>
          if flag.NotBoolean? then status == ServerError && updated == None && rows == cleared
          else
            && status == Ok
            && rows == (if flag.Writes() then SetFeatured(cleared, k, flag.value) else cleared)
            && updated == Some(rows[k])
    {
      if !Present(id) {
        return BadRequest, None;
      }
      if flag.Truthy() {
        ClearKeepsValid(rows, id.value);
        rows := ClearFeatured(rows, id.value);
      }
      var k := Table.Find(rows, EventId, id.value);
      if k.None? || flag.NotBoolean? {
        return ServerError, None;
      }
      if flag.Writes() {
        SetKeepsValid(rows, k.value, flag.value);
        rows := SetFeatured(rows, k.value, flag.value);
      }
      return Ok, Some(rows[k.value]);
    }

    /** PUT with a form: replaces title, description, location and date,
        and the banner when an image with a name is sent; the flag is left
        as it is. A missing title, description or location, or an Invalid
        Date, makes the database update fail. */
    method Edit(id: Option<string>, title: Option<string>, date: Option<DateInput>,
                description: Option<string>, location: Option<string>, image: Option<string>,
                stamp: nat, production: bool)
      returns (status: Status, updated: Option<Event>)
      requires Valid()
      modifies this
      ensures Valid()
      ensures !Present(id) ==> status == BadRequest && updated == None && rows == old(rows)
      ensures Present(id) && Table.Find(old(rows), EventId, id.value).None? ==>
        status == NotFound && updated == None && rows == old(rows)
      ensures Present(id) && Table.Find(old(rows), EventId, id.value).Some? ==>
        var k := Table.Find(old(rows), EventId, id.value).value;
        var before := old(rows)[k];
        if title.None? || description.None? || location.None? || DateValue(date).None? then
          status == ServerError && updated == None && rows == old(rows)
        else
          && status == Ok
          && rows == old(rows)[k := Event(before.id, title.value, description.value, DateValue(date).value,
                                          location.value,
                                          if Present(image) then ImageUrl(image, stamp, production) else before.bannerUrl,
                                          before.isFeatured)]
          && updated == Some(rows[k])
    {
      if !Present(id) {
        return BadRequest, None;
      }
      var found := Table.Find(rows, EventId, id.value);
      if found.None? {
        return NotFound, None;
      }
      var existing := rows[found.value];
      var bannerUrl := existing.bannerUrl;
      if Present(image) {
        if production {
          bannerUrl := Some(Placeholder);
        } else {
          bannerUrl := Some(UploadUrl(stamp, image.value));
        }
      }
      var when := DateValue(date);
      if title.None? || description.None? || location.None? || when.None? {
        return ServerError, None;
      }
      rows := rows[found.value := existing.(title := title.value, description := description.value,
                                            location := location.value, bannerUrl := bannerUrl,
                                            date := when.value)];
      return Ok, Some(rows[found.value]);
    }

    /** DELETE: removes exactly the event with the given id. */
    method Delete(id: Option<string>) returns (status: Status)
      requires Valid()
      modifies this
      ensures Valid()
      ensures !Present(id) ==> status == BadRequest && rows == old(rows)
      ensures Present(id) ==>
        match Table.Find(old(rows), EventId, id.value)
        case None => status == NotFound && rows == old(rows)
        case Some(k) => status == Ok && rows == Table.RemoveAt(old(rows), k)
    {
      if !Present(id) {
        return BadRequest;
      }
      var found := Table.Find(rows, EventId, id.value);
      if found.None? {
        return NotFound;
      }
      Table.RemoveAtKeepsOthers(rows, EventId, found.value);
      rows := Table.RemoveAt(rows, found.value);
      return Ok;
    }
  }

  /** Two events are created and each is featured in turn: every request
      succeeds, and the second toggle takes the flag away from the first
      event. */
  method FestivalExample() returns (first: Event, second: Event, statuses: seq<Status>)
    ensures statuses == [Created, Ok, Created, Ok]
    ensures first.title == "Festival" && !first.isFeatured
    ensures second.isFeatured && second.id != first.id
  {
    var table := new EventTable();
    var festival := Some(DateInput("2026-01-01", Some(1767225600000)));
    var s1, c1 := table.Create(Some("Festival"), festival, Some("D"), Some("Denver"), None, 0, false, "a");
    assert |table.rows| == 1 && table.rows[0].id == "a";
    var s2, u2 := table.Feature(Some("a"), Flag(true));
    assert table.rows[0].isFeatured;
    var s3, c3 := table.Create(Some("Concert"), festival, Some("E"), Some("Denver"), None, 1, false, "b");
    assert |table.rows| == 2 && table.rows[1].id == "b";
    var s4, u4 := table.Feature(Some("b"), Flag(true));
    first, second := table.rows[0], table.rows[1];
    statuses := [s1, s2, s3, s4];
  }
}
