# Community site API routes in Dafny

This project models the three API routes of a small community website.
The routes are events, news and gallery. Each route is a request handler over one
database table, reached through an ORM. The model proves what each handler
does to its table and what it answers.

- **Events** (`/api/events`). POST creates an event. GET lists events with a
  `featured` filter, an `upcoming` filter (date at or after now), date order
  and an optional positive `limit`. PUT with a JSON body toggles the
  `isFeatured` flag, and PUT with a form edits the event. DELETE removes it.
  At most one event is featured. The toggle keeps this with two separate
  writes: it first clears the flag on every other featured event, then
  updates the target. The model proves that every handler keeps this rule
  when requests run one after another. The rule is part of the table's
  `Valid()` invariant, which every method requires and ensures.
- **News** (`/api/news`). Create, list newest first, edit and delete.
- **Gallery** (`/api/gallery`). Upload, list newest first and delete.
- **Upload naming**, shared by all three routes. With no image that has a
  name, no URL is stored. In production, the placeholder
  `/uploads/demo-placeholder.jpg` is stored. Otherwise the URL is
  `/uploads/<timestamp>-<name>`, where each run of whitespace (JavaScript `\s`)
  in the name becomes one `_`.

Modules, one per file:

- `Common`: `Option`, the HTTP statuses, and JavaScript truthiness of a form field.
- `Text`: the `\s` class, whitespace-run replacement, decimal numerals and `parseInt(s, 10)`.
- `Upload`: the upload-naming rule, with a parser that reads a stored URL back.
- `Table`: the ORM table as a sequence of records in storage order, with
  `findUnique`, `delete`, `findMany` (filter, order by a date key, take).
- `Events`, `News`, `Gallery`: one class per table (`EventTable`,
  `NewsTable`, `GalleryTable`). Each has a `rows` field, and one method per
  request that changes the table. Each GET is a function of the rows.

Each request is passed in as parsed values:

- A text form field, query parameter or JSON member is `None` when absent
  and `Some(text)` otherwise.
- The `image` field is `Some(name)` when it is a file part, where `name` is
  the file's name. It is `None` when the field is absent or is not a file,
  because plain text has no `.name`. A file whose name is empty counts as
  no image, as `image.name` is then falsy.
- The event `date` field also carries the time that the JavaScript `Date`
  constructor makes of it. `None` stands for an Invalid Date.
- `Date.now()`, `new Date()` and the production flag are parameters.
- So is the id that the database assigns to a new record.

Behaviour of the code that a reader may not expect:

- A JSON PUT on an unknown event id answers 500, not 404. With a truthy
  `isFeatured`, the clearing write has already run by then, so no event is
  featured afterwards. With `false` or no member, no write runs and the
  table is unchanged.
- A form PUT of an event with no `date` field stores the epoch, because
  `new Date(null)` is time 0.
- A form PUT with no title, description or location, or with an Invalid
  Date, fails in the database and answers 500.
- A JSON PUT with no `isFeatured` member updates nothing and answers 200
  when the id exists.
- The ORM also accepts its update-operation object `{ "set": b }` as the
  flag. That object is truthy, so the clearing write always runs, and then
  the target's flag becomes `b`. With `{ "set": false }` no event is
  featured afterwards.
- Any other value that is not a boolean answers 500. The clearing write runs
  first if that value is truthy.

## Model

| member | source | states |
|---|---|---|
| `Common.Present` | src/app/api/events/route.js:21 | Definition of JavaScript truthiness for a text field, used by the `!field` 400 guards: present and non-empty. Its effect is stated by the 400 clauses of every `Create`, `Edit` and `Delete` contract. |
| `Events.EventTable.Create` | src/app/api/events/route.js:12-48 | A missing or empty title, date, description or location gives 400 and leaves the table unchanged. An Invalid Date gives 500, also unchanged. Otherwise the call gives 201 and appends exactly one new event, never featured, whose banner follows the upload rule. "At most one featured" is kept. |
| `Events.EventTable.Feature` | src/app/api/events/route.js:76-143 | A missing id gives 400. A truthy value (`true`, `{ "set": b }`, or a truthy non-boolean) first clears every other featured event. An unknown id, or a value that is neither a boolean nor a `set` operation, then gives 500 with the cleared table. Otherwise the call gives 200. A boolean or `set` value then sets only the target's flag; an absent member writes nothing. "At most one featured" is kept in every case. |
| `Events.EventTable.Edit` | src/app/api/events/route.js:76-143 | A missing id gives 400. An unknown id gives 404 and an unchanged table. If title, description or location is null, or the date is invalid, the database write fails: the call gives 500 and the table is unchanged. Otherwise title, description, location and date are replaced. An absent date becomes the epoch. The banner is replaced only when an image with a name is sent. The flag and the id do not change, and no other record changes. |
| `Events.EventTable.Delete` | src/app/api/events/route.js:146-167 | A missing id gives 400. An unknown id gives 404 and an unchanged table. Otherwise exactly that event is removed. |
| `Events.FeatureFlag.Truthy` | src/app/api/events/route.js:88 | Definition of `if (isFeatured)`: absent is falsy, a boolean is itself, a `{ "set": b }` object is truthy, and any other value has its own truthiness. It decides the clearing write in the `EventTable.Feature` contract. |
| `Events.DateValue` | src/app/api/events/route.js:135 | Definition of `new Date(date)`: the epoch for an absent field, otherwise the parsed time or an Invalid Date. Its effect is stated by the date and 500 clauses of the `EventTable.Edit` contract. |
| `Events.ClearFeaturedLeavesOnlyKept` | src/app/api/events/route.js:89-92 | After the clearing write, only the kept id can be featured. That record is untouched, and every other record differs at most in its flag. |
| `Events.FeatureIsExclusive` | src/app/api/events/route.js:88-98 | After both writes with `isFeatured: true` on an existing id, the target is the only featured event. No field other than `isFeatured` has changed on any record. |
| `Events.FeatureUnknownClearsAll` | src/app/api/events/route.js:88-98 | When the id is unknown, the clearing write alone leaves no event featured. |
| `Events.ToggleKeepsAtMostOne` | src/app/api/events/route.js:88-98 | The clearing write, the set-true update after it, and a set-false update each keep "at most one event is featured". |
| `Events.UnfeatureBySetClearsAll` | src/app/api/events/route.js:88-98 | `{ "set": false }` on an existing id runs the clearing write and then unfeatures the target, so no event is featured afterwards. |
| `Events.ClearKeepsValid` | src/app/api/events/route.js:89-92 | The clearing write keeps ids unique and at most one event featured, leaves only the kept id possibly featured, and does not change which record the later `update` finds. |
| `Events.SetKeepsValid` | src/app/api/events/route.js:95-98 | Setting the target's flag keeps ids unique. Setting it to `true` keeps at most one event featured when only the target could be featured before. Setting it to `false` always does. |
| `Events.ClearFeatured` | src/app/api/events/route.js:89-92 | The clearing write `updateMany` computes this. It keeps the number of records and every id in place. |
| `Events.SetFeatured` | src/app/api/events/route.js:95-98 | The `update` of the target's flag computes this. Only the target changes, only in its flag, and the flag ends up equal to the value sent. |
| `Events.Limit` | src/app/api/events/route.js:56-65 | `parseInt` of the `limit` parameter, or of `"0"` when it is absent or empty, kept only when it is greater than zero. A cap, when given, is positive. |
| `Events.LimitText` | src/app/api/events/route.js:56 | Definition of the parameter-or-`"0"` fallback. The text handed to `parseInt` is never empty. What it reads as is stated by `LimitReadsDigits`, `LimitReadsSigned` and `LimitAbsentOrNaN`. |
| `Events.Positive` | src/app/api/events/route.js:65 | Definition of `limit > 0 ? limit : undefined`, with NaN giving no cap. Its effect is stated by the `Limit` contract (a cap is positive) and the `LimitReads*` and `LimitAbsentOrNaN` lemmas. |
| `Events.Matches` | src/app/api/events/route.js:58-60 | Definition of the `where` object: featured when `featured=true`, dated at or after now when `upcoming=true`. `ListEventsFilters` and `ListEventsComplete` state what the GET returns under it. |
| `Events.Where` | src/app/api/events/route.js:58-60 | `Matches` as the filter handed to `findMany`. `ListEventsFilters` and `ListEventsComplete` state what the GET returns under it. |
| `Events.ListEvents` | src/app/api/events/route.js:51-73 | The GET handler: the featured and upcoming filters, date order and the limit, handed to `findMany`. What it returns is stated by the `ListEvents*` lemmas. |
| `Events.LimitReadsDigits` | src/app/api/events/route.js:56-65 | A run of digits, with leading zeros allowed and possibly followed by non-digit text, caps the list exactly when its value is positive. The cap is that value. |
| `Events.LimitReadsSigned` | src/app/api/events/route.js:56-65 | With a `+` sign the limit reads as without it. With a `-` sign it never caps the list. |
| `Events.LimitAbsentOrNaN` | src/app/api/events/route.js:56-65 | An absent or empty `limit` reads as "0", and text that is not a number reads as NaN. Neither caps the list. |
| `Events.ListEventsFilters` | src/app/api/events/route.js:54-64 | Every listed event is stored. With `featured=true`, every listed event is featured. With `upcoming=true`, every listed event is dated now or later. The list is in ascending date order when `upcoming` is set and in descending date order otherwise. |
| `Events.ListEventsLimit` | src/app/api/events/route.js:56-66 | A positive limit gives exactly min(limit, number of matching events) events, and they are the front of the list without a limit. |
| `Events.ListEventsComplete` | src/app/api/events/route.js:58-63 | With no limit, every stored event that passes the filters is listed, as many times as it is stored. Nothing else is listed. |
| `Events.FeaturedListHasAtMostOne` | src/app/api/events/route.js:54-66 | While at most one event is featured, `featured=true` lists at most one event. |
| `Events.FestivalExample` | src/app/api/events/route.js:39-98 | Create an event, feature it, create a second one and feature that one. The four requests answer 201, 200, 201, 200. Afterwards the first event is not featured and the second is. |
| `News.ListNews` | src/app/api/news/route.js:50-60 | The list is every stored item, each as often as stored, ordered newest first. |
| `News.ListNewsOnce` | src/app/api/news/route.js:52-54 | Since ids are unique, each stored item appears in the list exactly once. |
| `News.NewsTable.Create` | src/app/api/news/route.js:12-47 | A missing or empty title or content gives 400 and leaves the table unchanged. Otherwise the call gives 201 and appends one item. The item is dated with the request time, and its banner follows the upload rule. |
| `News.NewsTable.Edit` | src/app/api/news/route.js:63-108 | A missing id gives 400. An unknown id gives 404 and an unchanged table. A null title or content gives 500 and an unchanged table. Otherwise only title, content and banner are written, and the banner is kept unless an image with a name is sent. Date and id do not change. |
| `News.NewsTable.Delete` | src/app/api/news/route.js:111-130 | A missing id in the JSON body gives 400. An unknown id gives 404 and an unchanged table. Otherwise exactly that item is removed. |
| `Gallery.ListGallery` | src/app/api/gallery/route.js:12-22 | The list is every stored image, each as often as stored, ordered by creation time, newest first. |
| `Gallery.DeletedImageIsNotListed` | src/app/api/gallery/route.js:61-76 | After a delete, the list no longer shows the deleted image and still shows every other image. |
| `Gallery.GalleryTable.Create` | src/app/api/gallery/route.js:25-58 | No image with a name gives 400 and leaves the table unchanged. Otherwise the call gives 201 and appends one image with the caption as sent. Its URL is always set: the placeholder in production, the stored file's path otherwise. |
| `Gallery.GalleryTable.Delete` | src/app/api/gallery/route.js:61-81 | A missing id gives 400. An unknown id gives 404 and an unchanged table. Otherwise exactly that image is removed. |
| `Upload.ImageUrl` | src/app/api/events/route.js:25-37 | No URL is given exactly when there is no image with a name. In production the URL is the placeholder. Otherwise the URL is exactly `/uploads/`, the timestamp's numeral, `-`, and the name with its whitespace replaced. That URL parses back to the upload time and the replaced name. |
| `Upload.StoredFileName` | src/app/api/events/route.js:32 | The stored file name contains no whitespace. |
| `Upload.UploadUrl` | src/app/api/events/route.js:32-35 | The recorded path of a stored file starts with `/uploads/` and contains no whitespace. |
| `Upload.UploadUrlRoundTrip` | src/app/api/events/route.js:32-35 | A stored upload URL reads back as its timestamp and its normalised name. So two uploads that differ in either one never share a URL. |
| `Upload.PlaceholderIsNotUpload` | src/app/api/events/route.js:29 | The placeholder does not have the `/uploads/<digits>-<name>` form. |
| `Upload.UploadUrlIsNotPlaceholder` | src/app/api/events/route.js:27-35 | No stored upload URL equals the placeholder. |
| `Text.CollapseWhitespace` | src/app/api/events/route.js:32 | `replace(/\s+/g, "_")`: each maximal run of `\s` characters becomes one `_`. Its properties are the `Collapse*` lemmas. |
| `Text.CollapseRemovesWhitespace` | src/app/api/events/route.js:32 | After `replace(/\s+/g, "_")` the name has no whitespace, and it is no longer than before. |
| `Text.CollapseFixpoint` | src/app/api/events/route.js:32 | The replacement leaves a name unchanged exactly when the name has no whitespace. |
| `Text.CollapseIdempotent` | src/app/api/events/route.js:32 | Doing the replacement twice gives the same result as doing it once. |
| `Text.CollapseRun` | src/app/api/events/route.js:32 | A whole whitespace run, followed by a non-whitespace character or by the end, becomes exactly one `_`. |
| `Text.CollapseSplit` | src/app/api/events/route.js:32 | Around a non-whitespace character, the text before it and the text after it are replaced independently. Every other character is kept in place. |
| `Text.Decimal` | src/app/api/events/route.js:32 | The timestamp's numeral is a non-empty string of digits with no leading zero. |
| `Text.DecimalValue` | src/app/api/events/route.js:32 | The numeral reads back as the timestamp. |
| `Text.ParseInt` | src/app/api/events/route.js:56 | `parseInt(s, 10)`: skip leading `\s`, read one optional sign, then the longest run of digits. NaN when there is no digit. Its properties are the `ParseInt*` lemmas. |
| `Text.ParseIntDigits` | src/app/api/events/route.js:56 | `parseInt` reads any run of digits, leading zeros included, as its value, whatever non-digit text follows it. |
| `Text.ParseIntDecimal` | src/app/api/events/route.js:56 | `parseInt` reads back a decimal numeral, whatever non-digit text follows it. |
| `Text.ParseIntSigned` | src/app/api/events/route.js:56 | After one sign, text with no leading digit parses to NaN. Otherwise a `-` negates the value of the digits and a `+` keeps it. |
| `Text.ParseIntSignedDecimal` | src/app/api/events/route.js:56 | `parseInt` reads a sign followed by a numeral as the number, negated by `-` and kept by `+`, whatever non-digit text follows. |
| `Text.ParseIntNaN` | src/app/api/events/route.js:56 | Text that does not start with whitespace, a sign or a digit parses to NaN. |
| `Text.ParseIntLoneSign` | src/app/api/events/route.js:56 | A sign that no digit follows parses to NaN. |
| `Text.ParseIntSkips` | src/app/api/events/route.js:56 | Leading whitespace does not change what `parseInt` reads. |
| `Table.Find` | src/app/api/events/route.js:111-113 | `findUnique` finds a record with the id, or reports that no record has it. |
| `Table.FindIsOnly` | src/app/api/events/route.js:152-154 | Since ids are unique, the record found is the one with that id. |
| `Table.FindSeesOnlyIds` | src/app/api/events/route.js:89-98 | The lookup depends only on the stored ids. So the update after the clearing write finds the same record as before it. |
| `Table.RemoveAt` | src/app/api/events/route.js:161 | `delete` of the record at a position: one record fewer, and exactly that record gone from the multiset of records. |
| `Table.RemoveAtKeepsOthers` | src/app/api/events/route.js:161 | `delete` removes one record. Every other record stays, in order, and ids stay unique. |
| `Table.SortBy` | src/app/api/events/route.js:64 | `orderBy: { date }` by insertion sort. Records with equal keys keep their storage order. Its properties are in `SortByOrders`. |
| `Table.SortByOrders` | src/app/api/events/route.js:64 | Ordering by a date key gives the same records, each as often as before, in key order. |
| `Table.Filter` | src/app/api/events/route.js:62-63 | The `where` of `findMany`: every record kept passes the filter, and each passing record is kept exactly as often as it is stored. |
| `Table.Take` | src/app/api/events/route.js:65 | `take: n` returns the first min(n, total) records, and without `n` all of them. |
| `Table.FindMany` | src/app/api/events/route.js:62-66 | `findMany({ where, orderBy, take })`: filter, then order, then take. What it returns is stated by `FindManyMeetsQuery`. |
| `Table.FindManyMeetsQuery` | src/app/api/events/route.js:62-66 | `findMany` returns stored records that pass the filter, in key order. With a cap it returns exactly min(cap, number matching) records, the front of the uncapped result. With no cap it returns every matching record. |
| `Table.FindManyComplete` | src/app/api/events/route.js:62-66 | With no cap, `findMany` returns every record that passes the filter, exactly as often as it is stored, and nothing else. |
| `Table.FindManyAtMostOne` | src/app/api/events/route.js:62-66 | When at most one stored record passes the filter, `findMany` returns at most one record. |

## Left out

- Filesystem effects are not modelled. These are the creation of the uploads
  directory at load time, the writing of the uploaded bytes, and the
  best-effort removal of an old banner or a deleted record's file. They are
  I/O only. A file written before a failed database write is not tracked.
- The ORM is modelled as a sequence of records with unique ids. A database
  that fails on its own (a lost connection, for example) would give the
  generic 500 from any handler. That path is not modelled. The GET handlers'
  500 branch is left out for the same reason.
- Events.ListEventsLimit, Table.FindManyMeetsQuery: records with equal dates
  come back in an order the database leaves open. The model keeps their
  storage order. So the claim that a capped list is the front of the
  uncapped list holds in the model, but the database promises it only up to
  that order. Among events with the date of the last one kept, `take` may
  keep different events.
- HTTP and body parsing are not modelled: `formData()`, `json()`, URL search
  params and response bodies. Malformed JSON makes the handler answer 500.
  A JSON news id that is not a string is outside the model, which takes the
  id as text. A falsy one (`0`, `false`, `""`, `null`) answers 400 like an
  absent id. A truthy one (a non-zero number, `true`, an object or an
  array) reaches the database and answers 500.
- JavaScript `Date` parsing of the `date` text is not modelled. It arrives
  already parsed, as `DateInput.time`.
- `Date.now()`, `new Date()` and `NODE_ENV` are parameters. So is the id the
  database generates for a new record.
- Two feature toggles running concurrently can race and leave two events
  featured. Only sequential requests are modelled.
- `parseInt` above 2^53 loses precision in JavaScript. The model reads such
  numerals exactly.
- The page components and the UI components are rendering only, with no
  business rule: `EventsCard.jsx`, `HeroSection.jsx`, `SubscribeForm.jsx` and
  the site pages. The static contact endpoint is not part of this model, and
  neither is `src/lib/prisma.js`, the client singleton.
