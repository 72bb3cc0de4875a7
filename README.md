# Grooming calendar: appointments and client history

The grooming calendar keeps clients (a name and a phone), their dogs, the employees, a service
catalogue and the appointments booked among them. Two HTTP endpoints do the work:

- `api/appointments.php` answers three requests:
  - `GET` lists the appointments whose date lies in a range, joined with client, dog, employee,
    catalogue service and the booking employee, sorted by date and start time, shaped for the
    calendar.
  - `POST` books an appointment. Eight fields are checked first. Inside a transaction the client is
    found by phone or created, the client's dog is found by name or created, and the performing
    employee is looked up by name. An unknown performing employee rolls back and answers 500.
    Otherwise the appointment is inserted and answered with its re-fetched, joined row.
  - `DELETE` removes an appointment by the id taken from the request path.
- `api/client-history.php` takes a phone from the request path and summarises that client's
  history: visit count, last visit, dog names and services, each de-duplicated in first-seen order.

The model has one module per concern:

- `Text`: phone normalisation (`preg_replace('/[^\d]/', '', …)`), the SQL
  `REPLACE(REPLACE(phone, ' ', ''), '-', '')` on stored phones, PHP emptiness, `substr` and
  string order.
- `Rows`: the table rows, query rows and answers.
- `Sorting`: `ORDER BY` as a stable insertion sort.
- `Identity`: find-or-create of clients and dogs, and the employee lookup.
- `Listing`: the joins, the range query, row shaping and the delete.
- `History`: the history query and its de-duplication.
- `Routing`: `str_replace`, `explode`, `array_filter` on the request path, and the segment each
  endpoint reads.
- `Store`: a class holding the tables and their auto-increment counters. Its methods book, list,
  delete and look up history. Each is proved against the pure functions of the other modules.

Phone matching is asymmetric as written. The entered phone keeps only its digits, but a stored phone
loses only spaces and dashes. A stored phone with any other character, such as `+48 600 700 800`,
therefore never matches again, and booking it twice creates two clients
(`Identity.ResolveClientDuplicatesOtherFormats`). A phone with fewer than nine digits is never
looked up at all.

The booking form fetches the history from `/api/client-history.php/{phone}`, but the endpoint scans
for a segment equal to `client-history`. Such a request is answered 400
(`Routing.ScriptNamePathFindsNoPhone`), unless the web server rewrites the path, which is not part
of this model.

## Model

| member | source | states |
|---|---|---|
| Text.Digits | api/appointments.php:220 | the normalised phone holds only decimal digits and is no longer than the input |
| Text.DigitsConcat | api/appointments.php:220 | normalising a concatenation concatenates the normalised parts |
| Text.DigitsOfChar | api/appointments.php:220 | a single character is kept exactly when it is a decimal digit; with DigitsConcat this says the result is the input's digits in their order |
| Text.DigitsFixesDigitStrings | api/appointments.php:220 | a string is unchanged by normalisation if and only if it consists of digits |
| Text.DigitsIdempotent | api/appointments.php:220 | normalising twice is normalising once |
| Text.DigitsDropsLead | api/appointments.php:220 | a leading non-digit before a run of digits is dropped and the digits are kept |
| Text.RemoveChar | api/appointments.php:225 | SQL `REPLACE(s, c, '')` leaves no `c` and never lengthens |
| Text.StripSpacesDashes | api/appointments.php:225 | the stored-side form `REPLACE(REPLACE(phone, " ", ""), "-", "")` holds no space and no dash and is never longer |
| Text.PhpEmpty | api/appointments.php:108 | `empty()` of a string holds for "" and "0" only (a definition; its consequences are stated by FirstMissing and Delete) |
| Text.Truthy | api/client-history.php:29 | PHP truthiness of a string, the test `array_filter` applies to the pieces (api/appointments.php:24 too) and `?:` applies at api/client-history.php:126: every string except "" and "0" (a definition; Routing.Segments, Routing.Compact and History.ServiceLabel state its use) |
| Text.RemoveCharConcat | api/appointments.php:225 | removing a character distributes over concatenation |
| Text.StripConcat | api/appointments.php:225 | stripping spaces and dashes distributes over concatenation |
| Text.StripIsDigitsOnFormattedPhones | api/appointments.php:225 | on phones made only of digits, spaces and dashes, the stored-side normalisation equals the entered-side one |
| Text.AllDigitsConcat | api/appointments.php:225 | a concatenation is all digits if and only if both parts are |
| Text.StripAllDigitsIff | api/appointments.php:225 | the stored phone strips to digits if and only if every character is a digit, space or dash |
| Text.StoredPhoneWithOtherCharNeverMatches | api/client-history.php:73-76 | a stored phone with any other character never equals any entered phone's digits |
| Text.Prefix | api/appointments.php:86-87 | `substr(s, 0, n)` is a prefix of length min(n, \|s\|) |
| Text.StoredTime | api/appointments.php:147-148 | the stored time is the entered time followed by three characters |
| Text.TimeRoundTrip | api/appointments.php:181-182 | a five-character `HH:MM` time stored with `:00` reads back as itself |
| Text.StrLe | api/appointments.php:74-75 | the string comparison behind `BETWEEN` and `ORDER BY`: lexicographic by code point, the empty string first (a definition; StrLeRefl, StrLeTotal, StrLeTrans and StrLeAntisym state that it is a total order; collations are under Left out) |
| Text.StrLeRefl | api/appointments.php:75 | string order is reflexive |
| Text.StrLeTotal | api/appointments.php:75 | string order is total |
| Text.StrLeTrans | api/appointments.php:75 | string order is transitive |
| Text.StrLeAntisym | api/appointments.php:75 | string order is antisymmetric |
| Sorting.Insert | api/appointments.php:75 | insertion adds exactly one element to the multiset |
| Sorting.SortBy | api/appointments.php:75 | the sort is a permutation of its input |
| Sorting.InsertSorted | api/appointments.php:75 | inserting into a sorted sequence keeps it sorted under a total preorder |
| Sorting.SortBySorted | api/client-history.php:101 | the sort returns a sorted permutation under any total preorder |
| Identity.FirstWhere | api/appointments.php:245 | `fetchOne` picks the first row satisfying the condition, and None means no row does |
| Identity.FirstPhoneMatch | api/appointments.php:224-227 | the first client whose stripped stored phone equals the digits, or none at all |
| Identity.PhoneMatches | api/appointments.php:225 | the stored phone, with spaces and dashes removed, equals the digits, and a NULL phone matches nothing (a definition; FirstPhoneMatch and ClientMatch state its use) |
| Identity.ClientMatch | api/appointments.php:220-227 | a client is matched if and only if the phone has at least nine digits and some stored phone strips to them, and the match is the first such client |
| Identity.ResolveClient | api/appointments.php:219-241 | the id returned names a client row; that row carries the given name when it is non-empty and the given phone when a new row was made; the table keeps its length, and the counter its value, each if and only if a match was found (otherwise one row is added and the counter advances by one); existing ids and phones are kept |
| Identity.ResolveClientInsertsOnNoMatch | api/appointments.php:238-240 | without a match, exactly one client with the counter's id, the given name and the phone as entered is appended, and the counter advances by one |
| Identity.ResolveClientShortPhoneInserts | api/appointments.php:222-240 | with fewer than nine digits, exactly one client is appended with the next id and the raw phone |
| Identity.ResolveClientShortPhoneTwice | api/appointments.php:222-240 | two equal bookings with a short phone create two clients with distinct ids |
| Identity.ResolveClientReusesMatch | api/appointments.php:224-235 | on a match the client's id is returned, nothing is inserted, and its name is replaced exactly when the given name is non-empty |
| Identity.ResolveClientIgnoresOtherFormats | api/appointments.php:224-239 | when no stored phone can match, a new client is always appended |
| Identity.ResolveClientIdempotent | api/appointments.php:219-241 | for phones of digits, spaces and dashes with nine or more digits, a second booking reuses the first one's client and inserts nothing |
| Identity.ResolveClientDuplicatesOtherFormats | api/appointments.php:219-241 | a phone with another character that matches nothing is inserted anew on every booking |
| Identity.PlusSignPhoneDigits | api/appointments.php:220 | `+48 600 700 800` has eleven digits |
| Identity.ResolveClientPlusSignExample | api/appointments.php:219-241 | booking `+48 600 700 800` twice gives clients 1 and 2 |
| Identity.FirstDog | api/appointments.php:245 | the first dog of that client with that name, or none |
| Identity.DogIs | api/appointments.php:245 | `client_id = ? AND name = ?` with exact equality (a definition; FirstDog and ResolveDogCases state its use) |
| Identity.ResolveDog | api/appointments.php:243-254 | the table only grows at its end, and the id returned names a dog of that client with that name |
| Identity.ResolveDogCases | api/appointments.php:243-254 | an existing dog is reused with the table unchanged; otherwise one dog with the next id is appended |
| Identity.ResolveDogIdempotent | api/appointments.php:243-254 | a second identical find-or-create returns the same id and changes nothing |
| Identity.EmployeeNamed | api/appointments.php:125-133 | the employee found carries the name, and None means no employee does |
| Listing.ClientWithId | api/appointments.php:69 | the client joined has the id, and None means no client has it |
| Listing.DogWithId | api/appointments.php:70 | the dog joined has the id, and None means no dog has it |
| Listing.EmployeeWithId | api/appointments.php:71 | the employee joined has the id, and None means no employee has it |
| Listing.ServiceWithId | api/appointments.php:72 | the service joined has the id, and None means no service has it |
| Listing.JoinRow | api/appointments.php:51-73 | a row exists if and only if the inner joins find the client, the dog and the performing employee; it carries the appointment's own columns (id, date, times, status, description, price, notes), the joined client's name and phone, the dog's name and breed, the employee's name, and the left-joined catalogue name and booking employee's name |
| Listing.FetchById | api/appointments.php:157-176 | the re-fetched row has the id asked for |
| Listing.RangeRows | api/appointments.php:74 | filtering by date never yields more rows than appointments |
| Listing.InRange | api/appointments.php:74 | BETWEEN is inclusive at both bounds (a definition; RangeRowsMembers and ListQueryDates state its use) |
| Listing.ServiceName | api/appointments.php:72 | the LEFT JOIN on services: the catalogue name, or NULL without a service id or a matching row (a definition; JoinRow states its use) |
| Listing.AddedByName | api/appointments.php:73 | the LEFT JOIN on the booking employee: that employee's name, or NULL (a definition; JoinRow and Store.AddedByUniqueId state its use) |
| Listing.ListBefore | api/appointments.php:75 | `ORDER BY a.appointment_date, a.start_time`: an earlier date first, and on the same date the earlier or equal start time (a definition; ListBeforeIsTotalPreorder, ListQueryCorrect and ListQueryOrdered state its use) |
| Listing.ListBeforeIsTotalPreorder | api/appointments.php:75 | ordering by date, then start time is a total preorder |
| Listing.ListQuery | api/appointments.php:51-78 | the query result is a permutation of the joinable in-range rows, no longer than the appointments table (ListQueryCorrect states the rest) |
| Listing.RangeRowsMembers | api/appointments.php:68-74 | a row is in range if and only if it joins from an appointment whose date lies in the inclusive range |
| Listing.ListQueryCorrect | api/appointments.php:51-78 | the listing is sorted and is a permutation of the joinable in-range appointments: every such appointment appears, and nothing else |
| Listing.ListQueryOrdered | api/appointments.php:75 | dates never decrease, and within a date start times never decrease |
| Listing.ListQueryDates | api/appointments.php:74-75 | every listed date lies in the inclusive range, and listed dates never decrease |
| Listing.PriceOut | api/appointments.php:95 | a price is given exactly when the stored value is truthy |
| Listing.Format | api/appointments.php:82-97 | id, date, status and the four names are carried over; times are 5-character prefixes; phone and notes are the stored value, or "" when NULL; service is the description, else the catalogue name, else ""; price is PriceOut of the stored price |
| Listing.OrEmpty | api/appointments.php:90 | `?? ''`: the value, or "" for NULL (a definition; Format states its effect on phone and notes) |
| Listing.FormatRows | api/appointments.php:81-97 | one formatted element per fetched row, in the fetched order |
| Listing.FormattedDates | api/appointments.php:81-97 | formatting keeps each row's date, so the answer stays in the range and in date order |
| Listing.FormatCreated | api/appointments.php:178-189 | the booking answer carries id, date and description, time prefixes, and "" for a missing phone |
| Listing.CountId | api/appointments.php:208-210 | the affected-row count is zero if and only if no appointment has the id |
| Listing.WithoutId | api/appointments.php:208 | exactly the rows with the id are removed: the count drops by the affected rows, none with the id is left, and every other row is kept |
| Listing.WithoutIdConcat | api/appointments.php:208 | the delete works row by row: deleting from two consecutive stretches of the table gives the two results one after the other, so the remaining rows keep their order |
| Listing.WithoutAbsentId | api/appointments.php:208-214 | deleting an absent id changes nothing |
| Listing.ListingAfterDelete | api/appointments.php:208 | after a delete, no listing of any range shows the deleted id |
| Listing.ParseId | api/appointments.php:206-208 | an id is read if and only if the segment is a non-empty digit string, and it is that string's decimal value |
| Listing.Decimal | api/appointments.php:206 | the decimal rendering of an id is a non-empty digit string |
| Listing.DecimalRoundTrip | api/appointments.php:206-208 | an id written in decimal is read back as itself, so a segment `n` targets row n |
| History.NewClientHistory | api/client-history.php:62-69 | the new-client answer: no visits, no last visit, no dogs or services, no id |
| History.ClientRows | api/client-history.php:90-104 | a client's rows are no more than the appointments |
| History.HistoryRowOf | api/client-history.php:97-99 | the appointment joined with its dog (inner join) and catalogue service (left join) (a definition; ClientRowsMembers states its use) |
| History.HistoryRows | api/client-history.php:90-104 | the ordered history is a permutation of the client's joinable rows (HistoryRowsCorrect states the order) |
| History.LaterOrSame | api/client-history.php:101 | `ORDER BY a.appointment_date DESC` (a definition; HistoryRowsCorrect states the order it gives) |
| History.ServiceLabel | api/client-history.php:126 | `?:` takes the description when it is truthy, otherwise the catalogue name |
| History.DogNames | api/client-history.php:121-124 | the dog names of the rows, in row order |
| History.ServiceLabels | api/client-history.php:126-129 | the labels are truthy and are exactly the truthy labels of some row |
| History.Dedup | api/client-history.php:118-130 | the same elements as the input, without repetition |
| History.DedupFirstSeenOrder | api/client-history.php:121-129 | the distinct elements come out in the order of their first occurrence |
| History.DedupExample | api/client-history.php:121-124 | Rex, Rex, Max collapse to Rex, Max |
| History.DogNamesLoopStep | api/client-history.php:122-124 | one loop iteration appends the row's dog name exactly when it has not been seen |
| History.ServicesLoopStep | api/client-history.php:126-129 | one loop iteration appends the row's label exactly when it is truthy and has not been seen |
| History.CollectNames | api/client-history.php:118-130 | the loop collects each dog name and each truthy service label once, in order of first appearance |
| History.ClientRowsMembers | api/client-history.php:97-100 | a row belongs to the client if and only if it joins from one of the client's appointments |
| History.ClientRowsCount | api/client-history.php:134 | the number of rows is the visit count |
| History.VisitCount | api/client-history.php:134 | the appointments of the client whose dog is on file (a definition; ClientRowsCount equates it with the number of history rows) |
| History.HistoryRowsCorrect | api/client-history.php:90-104 | the rows are the client's joinable appointments, one per appointment, latest first, so the first row has the latest date |
| Routing.Explode | api/appointments.php:24 | `explode` gives at least one piece, and no piece holds a slash |
| Routing.ReplaceAll | api/appointments.php:23 | `str_replace` with a replacement no longer than the pattern never lengthens the path |
| Routing.ReplaceAllLeading | api/appointments.php:23 | an occurrence at the front is replaced and the scan continues after it |
| Routing.SlashIdHoldsNoRoute | api/appointments.php:23 | `/{id}` with a slash-free id holds no occurrence of the route and is left unchanged |
| Routing.Segments | api/appointments.php:24 | `array_filter` keeps exactly the truthy pieces, under their original keys |
| Routing.Compact | api/client-history.php:29 | the surviving segments are all truthy and no more than the pieces; CompactListsSegments states which survive and in what order |
| Routing.TruthyKeys | api/client-history.php:29 | the keys `array_filter` keeps are positions of the pieces, one per surviving segment |
| Routing.TruthyKeysValues | api/client-history.php:29 | the i-th surviving segment is the piece at the i-th kept key |
| Routing.TruthyKeysIncreasing | api/client-history.php:29 | the kept keys are strictly increasing |
| Routing.TruthyKeysSound | api/client-history.php:29 | every kept key holds a truthy piece |
| Routing.TruthyKeysComplete | api/client-history.php:29 | every truthy piece's key is kept |
| Routing.CompactListsSegments | api/client-history.php:29-34 | Compact lists the values of the key-preserving `array_filter` map by ascending key, the order `foreach` visits them: its keys are exactly the truthy positions |
| Routing.ExplodeImplode | api/appointments.php:24 | joining the pieces with slashes gives back the path |
| Routing.ExplodeAround | api/appointments.php:24 | splitting around a slash splits each side |
| Routing.StripRouteFromDeletePath | api/appointments.php:23 | `/api/appointments/{id}` becomes `/{id}` |
| Routing.DeleteSegmentAsWritten | api/appointments.php:22-24 | `$segments[0]`, when set, is a truthy, slash-free piece |
| Routing.SegmentZero | api/appointments.php:200 | `$segments[0]`: the entry under key 0, or none (a definition; DeleteSegmentAsWrittenLosesId and HandleDeleteAsWritten state its effect) |
| Routing.DeleteSegmentAsWrittenLosesId | api/appointments.php:22-24 | for `/api/appointments/{id}` the id sits under key 1 and `$segments[0]` is absent |
| Routing.DeleteSegment | api/appointments.php:199-206 | the id segment, when there is one, is truthy |
| Routing.DeleteSegmentFindsId | api/appointments.php:199-206 | the first surviving segment of `/api/appointments/{id}` is the id |
| Routing.ReplaceAllSlashFreePrefix | api/appointments.php:23 | a slash-free prefix holds no occurrence of a route that starts with a slash and passes through unchanged |
| Routing.ScriptPathReadsSuffix | api/appointments.php:22-24 | `/api/appointments.php/{id}` yields `.php` under both the written and the corrected reading, and `.php` is no id |
| Routing.PhoneAfterMarkerSpec | api/client-history.php:31-42 | a phone is found if and only if some `client-history` segment has a successor, and it is the segment after the first one |
| Routing.PhoneAfterMarker | api/client-history.php:31-42 | a found phone is one of the segments, and a `client-history` segment is present |
| Routing.ThreeSegments | api/client-history.php:29 | `/api/{dir}/{phone}` yields exactly the segments api, dir, phone |
| Routing.HistoryRouteFindsPhone | api/client-history.php:29-42 | `/api/client-history/{phone}` yields the phone |
| Routing.ScriptNamePathFindsNoPhone | ndex.php:118 | the form's `/api/client-history.php/{phone}` yields no phone |
| Routing.PhoneSegment | api/client-history.php:31-48 | the scan answers the segment after the marker, or 400 "Phone number required" when there is none; an answered phone is never empty |
| Store.WithoutIdKeepsUnique | api/appointments.php:208 | a delete keeps appointment ids unique |
| Store.Present | api/appointments.php:108 | `!empty($input[$field])`: the key is present and its value is neither "" nor "0" (a definition; FirstMissing and Validate state its use) |
| Store.FirstMissing | api/appointments.php:106-113 | None if and only if every field is present and non-empty; otherwise the first field, in order, that is not |
| Store.Validate | api/appointments.php:106-113 | the check loop stops at the first missing field, or passes all eight |
| Store.RequiredFieldsPresent | api/appointments.php:106 | the eight fields pass if and only if date, times, client, dog, service, employee and addedBy are all non-empty |
| Store.PhoneOf | api/appointments.php:119 | `$input['phone'] ?? ''` (a definition; its effect is stated by ResolveParties and Book) |
| Store.JoinByUniqueIds | api/appointments.php:169-174 | with unique keys, the joined row carries the names of exactly the rows its ids point at |
| Store.FetchAppended | api/appointments.php:153-176 | the freshly appended appointment is what the re-fetch by its id returns |
| Store.CreatedAnswer | api/appointments.php:157-189 | the booking answer carries the new id, date, description, client, dog and employee names, time prefixes and phone |
| Store.AppendKeepsValid | api/appointments.php:142-153 | appending under the counter's value keeps the keys unique |
| Store.CountersMayGrow | api/appointments.php:193-195 | tables restored by rollback stay valid under counters that moved on |
| Store.AddedByUniqueId | api/appointments.php:132-133 | the booking employee's id joins back to that employee's name |
| Store.BookedAppointmentListed | api/appointments.php:51-78 | a booked appointment appears, with its names, in every listing whose range holds its date |
| Store.NewAppointment | api/appointments.php:136-151 | the inserted row: the resolved ids, the date, times with `:00`, the description, the default status, and no catalogue service, price or notes |
| Store.Store.constructor | api/appointments.php:17 | the database starts with the given valid tables and counters |
| Store.Store.FindOrCreateClient | api/appointments.php:219-241 | the client table and counter become what ResolveClient describes, and the returned id names the row |
| Store.Store.FindOrCreateDog | api/appointments.php:243-254 | the dog table and counter become what ResolveDog describes |
| Store.Store.InsertAppointment | api/appointments.php:135-191 | exactly the new row is appended, the counter advances, and the answer holds the booked values |
| Store.Store.ResolveParties | api/appointments.php:118-122 | the client is resolved first, then the dog under that client's id |
| Store.Store.RollBack | api/appointments.php:193-194 | the client and dog tables return to their state at `beginTransaction`, the counters keep their advanced values, and the store stays valid |
| Store.Store.BookComplete | api/appointments.php:115-196 | an unknown employee restores the tables and answers 500 with the counters advanced; otherwise the client and dog are resolved, one appointment is appended and answered; the answer's phone is the phone as entered for a new client, and the matched client's stored phone (or "" when NULL) on a match |
| Store.Store.Book | api/appointments.php:103-197 | a missing field answers 400 naming the first one and changes nothing; otherwise as BookComplete, the answer's phone included; employees and services never change |
| Store.Store.List | api/appointments.php:47-101 | the answer is the listing shaped row by row, every date in range, dates non-decreasing |
| Store.Store.Delete | api/appointments.php:199-216 | 400 without an id; 404, with nothing changed, when no row has it; otherwise the rows with that id are removed and nothing else |
| Store.Store.HandleDelete | api/appointments.php:199-216 | the corrected DELETE route, reading the first surviving segment: 400 without one; otherwise deleted exactly when some row has the id, 404 with nothing changed when none has |
| Store.Store.HandleDeleteAsWritten | api/appointments.php:22-24 | the DELETE route as written, reading key 0: same answers given that segment, and every `/api/appointments/{id}` answers 400 and deletes nothing |
| Store.Store.LookupHistory | api/client-history.php:58-141 | an unknown or short phone gives the new-client answer; a client without rows gives it with the name; otherwise count, latest date, name, de-duplicated dogs and services, and id |
| Store.Store.HandleHistory | api/client-history.php:26-56 | no phone segment answers 400; a found phone is answered Ok with exactly LookupHistory's summary of that phone |

## Left out

- HTTP plumbing is not modelled: headers, `OPTIONS`, 405 answers, JSON encoding and decoding, and
  `parse_url`. Each handler takes the request path, or the decoded body as a map from field to
  string; non-string JSON values are not modelled.
- Store.Store.List: takes both range bounds as given. The defaults from the clock
  (`date('Y-m-01')`, `date('Y-m-t')`) are left out because the clock is outside the model.
- Listing.PriceOut: keeps the price as the driver's decimal string. The `(float)` cast is left out,
  as floating point is outside the model.
- Listing.ParseId: reads only plain digit strings. MySQL's coercion of other ids (`"7abc"` compared
  as 7) is not modelled; such ids find no row here.
- Text.StrLe: compares strings by code point. MySQL collations, and its normalisation of `TIME`
  values (`9:30` stored as `09:30:00`), are not modelled.
- Identity.FirstDog: compares dog names exactly. Under a case-insensitive collation `Rex` and `rex`
  would be the same dog; that is not modelled.
- Identity.EmployeeNamed: compares employee names exactly, with the same collation gap as FirstDog.
- Store.Store.Book: assumes the database accepts every insert. An insert it rejects (an invalid
  `date` or time) raises an exception, rolls back and answers 500; that path is not modelled.
- Store.CreatedAnswer: the answer echoes the date as entered. MySQL's normalisation of the stored
  `DATE` column is not modelled.
- Identity.FirstWhere: `fetchOne` without `ORDER BY` takes the first matching row in table order.
  The database may return any matching row.
- Sorting.SortBy: rows with equal keys keep table order. SQL leaves their order unspecified.
- History.Dedup: compares with exact equality. The loose comparison of `in_array` (`"1" == "01"`)
  is not modelled.
- Store.Store.Valid: assumes unique primary keys and ids below the counters, as the schema's
  auto-increment keys guarantee. The schema itself is not part of this model.
- Store.Store.constructor: takes the `status` column default as a parameter, since the schema that
  declares it is not part of this model.
- Concurrency is left out: two bookings racing on the same phone are not modelled.
- database.php (the PDO wrapper), api/employees.php and the page ndex.php are not part of this
  model, apart from the history URL the page requests and the script-name form in which it
  addresses api/appointments.php.

## Findings

| source | as written | input that shows it | evidently intended | confidence | as-written member | corrected member |
|---|---|---|---|---|---|---|
| api/appointments.php:22-24, 199-206 | `array_filter` keeps original keys, and handleDelete reads key 0 | `DELETE /api/appointments/7`: the path becomes `/7`, the pieces are `""` and `"7"`, and `"7"` stays under key 1, so the answer is 400 "Appointment ID required" | the id is the first surviving segment, whatever its key; this repairs only the rewritten `/api/appointments/{id}` form, since in the script-name form `/api/appointments.php/7`, the form in which the page addresses this script (ndex.php:26, 91), both readings take `.php` as the id, and in this model, which reads only digit strings as ids, answer 404 (a MySQL server in strict mode may instead reject comparing `.php` with an integer id, and the exception then answers 500) | not executed | Routing.DeleteSegmentAsWrittenLosesId | Routing.DeleteSegmentFindsId |
