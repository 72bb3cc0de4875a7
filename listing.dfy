/** The calendar query of api/appointments.php (handleGet), the re-fetch after a booking, and
    the row removal of handleDelete, stated on table contents. */
module Listing {
  import opened Rows
  import opened Text
  import opened Sorting
  import Identity

  // ---------------------------------------------------------------------------
  // Joins by primary key

  function ClientWithId(clients: seq<Client>, id: nat): (c: Option<Client>)
    ensures c.Some? ==> c.value in clients && c.value.id == id
    ensures c.None? ==> forall j :: 0 <= j < |clients| ==> clients[j].id != id
  {
    match Identity.FirstWhere(clients, (x: Client) => x.id == id)
    case Some(k) => Some(clients[k])
    case None => None
  }

  function DogWithId(dogs: seq<Dog>, id: nat): (d: Option<Dog>)
    ensures d.Some? ==> d.value in dogs && d.value.id == id
    ensures d.None? ==> forall j :: 0 <= j < |dogs| ==> dogs[j].id != id
  {
    match Identity.FirstWhere(dogs, (x: Dog) => x.id == id)
    case Some(k) => Some(dogs[k])
    case None => None
  }

  function EmployeeWithId(employees: seq<Employee>, id: nat): (e: Option<Employee>)
    ensures e.Some? ==> e.value in employees && e.value.id == id
    ensures e.None? ==> forall j :: 0 <= j < |employees| ==> employees[j].id != id
  {
    match Identity.FirstWhere(employees, (x: Employee) => x.id == id)
    case Some(k) => Some(employees[k])
    case None => None
  }

  function ServiceWithId(services: seq<Service>, id: nat): (s: Option<Service>)
    ensures s.Some? ==> s.value in services && s.value.id == id
    ensures s.None? ==> forall j :: 0 <= j < |services| ==> services[j].id != id
  {
    match Identity.FirstWhere(services, (x: Service) => x.id == id)
    case Some(k) => Some(services[k])
    case None => None
  }

  /** `LEFT JOIN services s ON a.service_id = s.id`: the catalogue name, or NULL. */
  function ServiceName(services: seq<Service>, serviceId: Option<nat>): Option<string> {
    if serviceId.None? then None
    else match ServiceWithId(services, serviceId.value)
      case Some(s) => Some(s.name)
      case None => None
  }

  /** `LEFT JOIN employees added_by ON a.added_by_employee_id = added_by.id`. */
  function AddedByName(employees: seq<Employee>, addedById: Option<nat>): Option<string> {
    if addedById.None? then None
    else match EmployeeWithId(employees, addedById.value)
      case Some(e) => Some(e.name)
      case None => None
  }

  /** The joined row of one appointment; the inner joins drop an appointment whose client, dog or
      performing employee row is missing. */
  function JoinRow(db: Db, a: Appointment): (r: Option<ListRow>)
    ensures r.Some? <==> && ClientWithId(db.clients, a.clientId).Some? && DogWithId(db.dogs, a.dogId).Some?
                         && EmployeeWithId(db.employees, a.employeeId).Some?
    ensures r.Some? ==> r.value.id == a.id && r.value.date == a.date && r.value.startTime == a.startTime
    ensures r.Some? ==>
      && r.value.endTime == a.endTime && r.value.status == a.status
      && r.value.serviceDescription == a.serviceDescription && r.value.price == a.price && r.value.notes == a.notes
      && r.value.serviceName == ServiceName(db.services, a.serviceId)
      && r.value.addedByName == AddedByName(db.employees, a.addedById)
    ensures r.Some? ==>
      var c, d, e := ClientWithId(db.clients, a.clientId).value, DogWithId(db.dogs, a.dogId).value,
                     EmployeeWithId(db.employees, a.employeeId).value;
      && r.value.clientName == c.name && r.value.clientPhone == c.phone
      && r.value.dogName == d.name && r.value.dogBreed == d.breed && r.value.employeeName == e.name
  {
    match (ClientWithId(db.clients, a.clientId), DogWithId(db.dogs, a.dogId), EmployeeWithId(db.employees, a.employeeId))
    case (Some(c), Some(d), Some(e)) =>
      Some(ListRow(a.id, a.date, a.startTime, a.endTime, a.status, a.serviceDescription, a.price, a.notes,
                   c.name, c.phone, d.name, d.breed, e.name,
                   ServiceName(db.services, a.serviceId), AddedByName(db.employees, a.addedById)))
    case _ => None
  }

  /** The re-fetch after a booking, `… WHERE a.id = ?` with the same joins: the first appointment
      carrying the id, joined. */
  function FetchById(db: Db, id: nat): (r: Option<ListRow>)
    ensures r.Some? ==> r.value.id == id
  {
    match Identity.FirstWhere(db.appointments, (a: Appointment) => a.id == id)
    case Some(k) => JoinRow(db, db.appointments[k])
    case None => None
  }

  // ---------------------------------------------------------------------------
  // The calendar query

  /** `a.appointment_date BETWEEN startDate AND endDate`. */
  predicate InRange(date: string, startDate: string, endDate: string) {
    StrLe(startDate, date) && StrLe(date, endDate)
  }

  /** The joined rows of the appointments in the date range, in table order. */
  function RangeRows(db: Db, appts: seq<Appointment>, startDate: string, endDate: string): (rows: seq<ListRow>)
    ensures |rows| <= |appts|
  {
    if appts == [] then []
    else
      var rest := RangeRows(db, appts[1..], startDate, endDate);
      var row := JoinRow(db, appts[0]);
      if InRange(appts[0].date, startDate, endDate) && row.Some? then [row.value] + rest else rest
  }

  /** `ORDER BY a.appointment_date, a.start_time`. */
  predicate ListBefore(x: ListRow, y: ListRow) {
    StrLt(x.date, y.date) || (x.date == y.date && StrLe(x.startTime, y.startTime))
  }

  /** The rows handleGet formats, in the order the query returns them. */
  function ListQuery(db: Db, startDate: string, endDate: string): (rows: seq<ListRow>)
    ensures multiset(rows) == multiset(RangeRows(db, db.appointments, startDate, endDate))
    ensures |rows| <= |db.appointments|
  {
    var rows := SortBy(RangeRows(db, db.appointments, startDate, endDate), ListBefore);
    assert |rows| == |multiset(rows)|;
    rows
  }

  lemma ListBeforeIsTotalPreorder()
    ensures TotalPreorder(ListBefore)
  {
    forall x: ListRow, y: ListRow ensures ListBefore(x, y) || ListBefore(y, x) {
      StrLeTotal(x.date, y.date);
      StrLeTotal(x.startTime, y.startTime);
    }
    forall x: ListRow, y: ListRow, z: ListRow | ListBefore(x, y) && ListBefore(y, z)
      ensures ListBefore(x, z)
    {
      StrLeRefl(x.date);
      StrLeRefl(y.date);
      StrLeTrans(x.date, y.date, z.date);
      if x.date == z.date {
        StrLeAntisym(x.date, y.date);
        StrLeTrans(x.startTime, y.startTime, z.startTime);
      }
    }
  }

  lemma {:induction false} RangeRowsMembers(db: Db, appts: seq<Appointment>, startDate: string, endDate: string, r: ListRow)
    ensures r in RangeRows(db, appts, startDate, endDate)
      <==> exists a :: a in appts && InRange(a.date, startDate, endDate) && JoinRow(db, a) == Some(r)
  {
    if appts != [] {
      RangeRowsMembers(db, appts[1..], startDate, endDate, r);
      assert appts == [appts[0]] + appts[1..];
      if exists a :: a in appts && InRange(a.date, startDate, endDate) && JoinRow(db, a) == Some(r) {
        var a :| a in appts && InRange(a.date, startDate, endDate) && JoinRow(db, a) == Some(r);
        if a != appts[0] { assert a in appts[1..]; }
      }
    }
  }

  /** The listing holds exactly the joinable appointments whose date lies in the inclusive range,
      each once per appointment row, sorted by date and then start time. */
  lemma ListQueryCorrect(db: Db, startDate: string, endDate: string)
    ensures var rows := ListQuery(db, startDate, endDate);
      && Sorted(rows, ListBefore)
      && multiset(rows) == multiset(RangeRows(db, db.appointments, startDate, endDate))
      && (forall r :: r in rows ==> InRange(r.date, startDate, endDate))
      && (forall a :: a in db.appointments && InRange(a.date, startDate, endDate) && JoinRow(db, a).Some?
            ==> JoinRow(db, a).value in rows)
      && (forall r :: r in rows ==> exists a :: a in db.appointments && JoinRow(db, a) == Some(r))
  {
    var range := RangeRows(db, db.appointments, startDate, endDate);
    var rows := ListQuery(db, startDate, endDate);
    ListBeforeIsTotalPreorder();
    SortBySorted(range, ListBefore);
    forall r | r in rows
      ensures InRange(r.date, startDate, endDate)
      ensures exists a :: a in db.appointments && JoinRow(db, a) == Some(r)
    {
      assert r in multiset(range);
      RangeRowsMembers(db, db.appointments, startDate, endDate, r);
    }
    forall a | a in db.appointments && InRange(a.date, startDate, endDate) && JoinRow(db, a).Some?
      ensures JoinRow(db, a).value in rows
    {
      RangeRowsMembers(db, db.appointments, startDate, endDate, JoinRow(db, a).value);
      assert JoinRow(db, a).value in multiset(rows);
    }
  }

  /** Dates in the listing never decrease, and within one date start times never decrease. */
  lemma ListQueryOrdered(db: Db, startDate: string, endDate: string, i: nat, j: nat)
    requires i < j < |ListQuery(db, startDate, endDate)|
    ensures var rows := ListQuery(db, startDate, endDate);
      StrLe(rows[i].date, rows[j].date)
      && (rows[i].date == rows[j].date ==> StrLe(rows[i].startTime, rows[j].startTime))
  {
    ListBeforeIsTotalPreorder();
    SortBySorted(RangeRows(db, db.appointments, startDate, endDate), ListBefore);
    var rows := ListQuery(db, startDate, endDate);
    assert ListBefore(rows[i], rows[j]);
    StrLeRefl(rows[i].date);
  }

  /** Every listed date lies in the range, and the dates never decrease. */
  lemma ListQueryDates(db: Db, startDate: string, endDate: string)
    ensures var rows := ListQuery(db, startDate, endDate);
      && (forall i :: 0 <= i < |rows| ==> InRange(rows[i].date, startDate, endDate))
      && (forall i, j :: 0 <= i < j < |rows| ==> StrLe(rows[i].date, rows[j].date))
  {
    var rows := ListQuery(db, startDate, endDate);
    ListQueryCorrect(db, startDate, endDate);
    forall i | 0 <= i < |rows| ensures InRange(rows[i].date, startDate, endDate) {
      assert rows[i] in rows;
    }
    forall i, j | 0 <= i < j < |rows| ensures StrLe(rows[i].date, rows[j].date) {
      ListQueryOrdered(db, startDate, endDate, i, j);
    }
  }

  // ---------------------------------------------------------------------------
  // Row shaping

  /** `$x ?? ''` */
  function OrEmpty(s: Option<string>): string {
    if s.Some? then s.value else ""
  }

  /** `$price ? (float)$price : null` with the float cast left out: a NULL or PHP-falsy price
      string ("" or "0") becomes null. */
  function PriceOut(price: Option<string>): (r: Option<string>)
    ensures r.Some? <==> price.Some? && Truthy(price.value)
    ensures r.Some? ==> r == price
  {
    if price.Some? && Truthy(price.value) then price else None
  }

  /** One element of the JSON array handleGet answers with. */
  function Format(row: ListRow): (v: AppointmentView)
    ensures v.id == row.id && v.date == row.date && v.status == row.status
    ensures v.timeStart <= row.startTime && |v.timeStart| == if |row.startTime| < 5 then |row.startTime| else 5
    ensures v.timeEnd <= row.endTime && |v.timeEnd| == if |row.endTime| < 5 then |row.endTime| else 5
    ensures row.clientPhone.None? ==> v.phone == ""
    ensures row.clientPhone.Some? ==> v.phone == row.clientPhone.value
    ensures row.serviceDescription.Some? ==> v.service == row.serviceDescription.value
    ensures row.serviceDescription.None? && row.serviceName.Some? ==> v.service == row.serviceName.value
    ensures row.serviceDescription.None? && row.serviceName.None? ==> v.service == ""
    ensures row.notes.None? ==> v.notes == ""
    ensures row.notes.Some? ==> v.notes == row.notes.value
    ensures v.price == PriceOut(row.price)
    ensures v.clientName == row.clientName && v.dogName == row.dogName
    ensures v.employee == row.employeeName && v.addedBy == row.addedByName
  {
    AppointmentView(
      row.id, row.date, Prefix(row.startTime, 5), Prefix(row.endTime, 5), row.clientName, row.dogName,
      OrEmpty(row.clientPhone),
      if row.serviceDescription.Some? then row.serviceDescription.value else OrEmpty(row.serviceName),
      row.employeeName, row.addedByName, row.status, PriceOut(row.price), OrEmpty(row.notes))
  }

  /** The `foreach` of handleGet: one formatted element per fetched row, in the same order. */
  method FormatRows(rows: seq<ListRow>) returns (views: seq<AppointmentView>)
    ensures |views| == |rows| && forall i :: 0 <= i < |rows| ==> views[i] == Format(rows[i])
  {
    views := [];
    var i := 0;
    while i < |rows|
      invariant 0 <= i <= |rows|
      invariant |views| == i && forall k :: 0 <= k < i ==> views[k] == Format(rows[k])
    {
      views := views + [Format(rows[i])];
      i := i + 1;
    }
  }

  /** Formatting keeps each row's date, so the views of the calendar query stay in the range and
      in date order. */
  lemma FormattedDates(db: Db, startDate: string, endDate: string, views: seq<AppointmentView>)
    requires var rows := ListQuery(db, startDate, endDate);
      |views| == |rows| && forall i :: 0 <= i < |rows| ==> views[i] == Format(rows[i])
    ensures forall i :: 0 <= i < |views| ==> InRange(views[i].date, startDate, endDate)
    ensures forall i, j :: 0 <= i < j < |views| ==> StrLe(views[i].date, views[j].date)
  {
    var rows := ListQuery(db, startDate, endDate);
    ListQueryDates(db, startDate, endDate);
    forall i | 0 <= i < |views| ensures views[i].date == rows[i].date {
      assert views[i] == Format(rows[i]);
    }
  }

  /** The record a successful booking answers with, shaped from the re-fetched row: the service is
      the stored description as it is, with no fallback to the catalogue. */
  function FormatCreated(row: ListRow): (v: CreatedView)
    ensures v.id == row.id && v.date == row.date && v.service == row.serviceDescription
    ensures v.timeStart <= row.startTime && v.timeEnd <= row.endTime
    ensures row.clientPhone.None? ==> v.phone == ""
  {
    CreatedView(
      row.id, row.date, Prefix(row.startTime, 5), Prefix(row.endTime, 5), row.clientName, row.dogName,
      OrEmpty(row.clientPhone), row.serviceDescription, row.employeeName, row.addedByName)
  }

  // ---------------------------------------------------------------------------
  // Deleting

  /** How many rows `DELETE FROM appointments WHERE id = ?` affects. */
  function CountId(appts: seq<Appointment>, id: nat): (n: nat)
    ensures n <= |appts|
    ensures n == 0 <==> forall j :: 0 <= j < |appts| ==> appts[j].id != id
  {
    if appts == [] then 0 else (if appts[0].id == id then 1 else 0) + CountId(appts[1..], id)
  }

  /** The appointment table after that delete: the other rows, in their order. */
  function WithoutId(appts: seq<Appointment>, id: nat): (r: seq<Appointment>)
    ensures |r| + CountId(appts, id) == |appts|
    ensures CountId(r, id) == 0
    ensures forall a :: a in r <==> a in appts && a.id != id
  {
    if appts == [] then []
    else
      assert appts == [appts[0]] + appts[1..];
      (if appts[0].id == id then [] else [appts[0]]) + WithoutId(appts[1..], id)
  }

  /** One step of the delete: the first row is kept exactly when it carries another id. */
  lemma WithoutIdUnfold(s: seq<Appointment>, id: nat)
    requires s != []
    ensures s[0].id == id ==> WithoutId(s, id) == WithoutId(s[1..], id)
    ensures s[0].id != id ==> WithoutId(s, id) == [s[0]] + WithoutId(s[1..], id)
  {
  }

  /** The delete works row by row: deleting from two consecutive stretches of the table gives the
      two results one after the other, so the remaining rows keep their relative order. */
  lemma {:induction false} WithoutIdConcat(a: seq<Appointment>, b: seq<Appointment>, id: nat)
    ensures WithoutId(a + b, id) == WithoutId(a, id) + WithoutId(b, id)
  {
    if a == [] {
      assert a + b == b;
    } else {
      WithoutIdConcat(a[1..], b, id);
      ConcatTail(a, b);
      WithoutIdUnfold(a + b, id);
      WithoutIdUnfold(a, id);
      if a[0].id != id {
        ConsAssoc(a[0], WithoutId(a[1..], id), WithoutId(b, id));
      }
    }
  }

  lemma ConcatTail<T>(a: seq<T>, b: seq<T>)
    requires a != []
    ensures (a + b)[0] == a[0] && (a + b)[1..] == a[1..] + b
  {
  }

  lemma ConsAssoc<T>(x: T, p: seq<T>, q: seq<T>)
    ensures [x] + (p + q) == ([x] + p) + q
  {
  }

  /** Deleting an id that no row carries leaves the table as it was. */
  lemma {:induction false} WithoutAbsentId(appts: seq<Appointment>, id: nat)
    requires CountId(appts, id) == 0
    ensures WithoutId(appts, id) == appts
  {
    if appts != [] {
      WithoutAbsentId(appts[1..], id);
      assert appts == [appts[0]] + appts[1..];
    }
  }

  /** After a delete, no listing of any date range shows the deleted id. */
  lemma ListingAfterDelete(db: Db, id: nat, startDate: string, endDate: string)
    ensures forall r :: r in ListQuery(db.(appointments := WithoutId(db.appointments, id)), startDate, endDate) ==> r.id != id
  {
    ListQueryCorrect(db.(appointments := WithoutId(db.appointments, id)), startDate, endDate);
  }

  /** The `DELETE … WHERE id = ?` parameter compared with the integer id column: a string of
      decimal digits denotes its value; any other string is taken to match no row. */
  function ParseId(s: string): (r: Option<nat>)
    ensures r.Some? <==> s != [] && AllDigits(s)
    ensures r.Some? ==> r.value == DecimalValue(s)
  {
    if s == [] || !AllDigits(s) then None else Some(DecimalValue(s))
  }

  function DecimalValue(s: string): nat
    requires AllDigits(s)
  {
    if s == [] then 0 else DecimalValue(s[..|s| - 1]) * 10 + (s[|s| - 1] as int - '0' as int)
  }

  /** The decimal rendering of an id, as it appears in a request path. */
  function Decimal(n: nat): (s: string)
    ensures s != [] && AllDigits(s)
  {
    var d := [('0' as int + n % 10) as char];
    if n < 10 then d else Decimal(n / 10) + d
  }

  /** The id written in decimal is read back as itself, so a delete of `/{n}` targets row n. */
  lemma {:induction false} DecimalRoundTrip(n: nat)
    ensures DecimalValue(Decimal(n)) == n
    ensures ParseId(Decimal(n)) == Some(n)
  {
    var s := Decimal(n);
    if n < 10 {
      assert s[..0] == [];
    } else {
      DecimalRoundTrip(n / 10);
      assert s[..|s| - 1] == Decimal(n / 10);
    }
  }
}
