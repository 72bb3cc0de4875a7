/** The grooming calendar's database as the two endpoints change and read it: the tables, their
    auto-increment counters, and the operations of api/appointments.php (booking, listing,
    deleting) and api/client-history.php (the history of a phone number). */
module Store {
  import opened Rows
  import opened Text
  import Identity
  import Listing
  import History
  import Routing

  /** The fields handlePost demands, in the order it checks them. */
  const REQUIRED_FIELDS: seq<string> :=
    ["date", "timeStart", "timeEnd", "clientName", "dogName", "service", "employee", "addedBy"]

  const MISSING_FIELD := "Missing required field: "
  const EMPLOYEE_NOT_FOUND := "Employee not found"
  const MISSING_ID := "Appointment ID required"
  const NOT_FOUND := "Appointment not found"
  const DELETED := "Appointment deleted successfully"

  // ---------------------------------------------------------------------------
  // Table invariants

  predicate ClientIdsUnique(s: seq<Client>) {
    forall i, j :: 0 <= i < |s| && 0 <= j < |s| && s[i].id == s[j].id ==> i == j
  }

  predicate DogIdsUnique(s: seq<Dog>) {
    forall i, j :: 0 <= i < |s| && 0 <= j < |s| && s[i].id == s[j].id ==> i == j
  }

  predicate EmployeeIdsUnique(s: seq<Employee>) {
    forall i, j :: 0 <= i < |s| && 0 <= j < |s| && s[i].id == s[j].id ==> i == j
  }

  predicate ServiceIdsUnique(s: seq<Service>) {
    forall i, j :: 0 <= i < |s| && 0 <= j < |s| && s[i].id == s[j].id ==> i == j
  }

  predicate AppointmentIdsUnique(s: seq<Appointment>) {
    forall i, j :: 0 <= i < |s| && 0 <= j < |s| && s[i].id == s[j].id ==> i == j
  }

  /** Primary keys are unique, and every id handed out so far lies below its table's counter. */
  predicate ValidTables(db: Db, nextClientId: nat, nextDogId: nat, nextAppointmentId: nat) {
    && ClientIdsUnique(db.clients) && (forall i :: 0 <= i < |db.clients| ==> db.clients[i].id < nextClientId)
    && DogIdsUnique(db.dogs) && (forall i :: 0 <= i < |db.dogs| ==> db.dogs[i].id < nextDogId)
    && EmployeeIdsUnique(db.employees) && ServiceIdsUnique(db.services)
    && AppointmentIdsUnique(db.appointments)
    && (forall i :: 0 <= i < |db.appointments| ==> db.appointments[i].id < nextAppointmentId)
  }

  /** Dropping the first row keeps the remaining appointment ids unique. */
  lemma TailKeepsUnique(appts: seq<Appointment>)
    requires appts != [] && AppointmentIdsUnique(appts)
    ensures AppointmentIdsUnique(appts[1..])
  {
    var rest := appts[1..];
    forall i, j | 0 <= i < |rest| && 0 <= j < |rest| && rest[i].id == rest[j].id ensures i == j {
      assert appts[i + 1].id == appts[j + 1].id;
    }
  }

  /** A row whose id no other row has can be put in front without a clash. */
  lemma ConsKeepsUnique(a: Appointment, tail: seq<Appointment>)
    requires AppointmentIdsUnique(tail) && forall k :: 0 <= k < |tail| ==> tail[k].id != a.id
    ensures AppointmentIdsUnique([a] + tail)
  {
    var r := [a] + tail;
    forall i, j | 0 <= i < |r| && 0 <= j < |r| && r[i].id == r[j].id ensures i == j {
      if i > 0 && j > 0 { assert tail[i - 1].id == tail[j - 1].id; }
    }
  }

  /** A delete keeps the remaining appointment ids unique. */
  lemma {:induction false} WithoutIdKeepsUnique(appts: seq<Appointment>, id: nat)
    requires AppointmentIdsUnique(appts)
    ensures AppointmentIdsUnique(Listing.WithoutId(appts, id))
  {
    if appts != [] {
      var rest := appts[1..];
      TailKeepsUnique(appts);
      WithoutIdKeepsUnique(rest, id);
      var tail := Listing.WithoutId(rest, id);
      if appts[0].id != id {
        forall k | 0 <= k < |tail| ensures tail[k].id != appts[0].id {
          assert tail[k] in rest;
          var m :| 0 <= m < |rest| && rest[m] == tail[k];
          assert appts[m + 1] == tail[k];
        }
        ConsKeepsUnique(appts[0], tail);
      }
    }
  }

  // ---------------------------------------------------------------------------
  // Request validation

  /** `!empty($input[$field])`: the field is present and its value is neither "" nor "0". */
  predicate Present(input: map<string, string>, field: string) {
    field in input && Truthy(input[field])
  }

  /** The first of `fields` that is absent or PHP-empty. */
  function FirstMissing(input: map<string, string>, fields: seq<string>): (f: Option<string>)
    ensures f.None? <==> forall i :: 0 <= i < |fields| ==> Present(input, fields[i])
    ensures f.Some? ==> exists i :: 0 <= i < |fields| && fields[i] == f.value && !Present(input, f.value)
                                    && forall j :: 0 <= j < i ==> Present(input, fields[j])
  {
    if fields == [] then None
    else if !Present(input, fields[0]) then Some(fields[0])
    else
      var rest := FirstMissing(input, fields[1..]);
      assert forall i :: 0 < i < |fields| ==> fields[i] == fields[1..][i - 1];
      rest
  }

  /** The check loop of handlePost: None when every required field is present, otherwise the first
      one missing. */
  method Validate(input: map<string, string>) returns (missing: Option<string>)
    ensures missing == FirstMissing(input, REQUIRED_FIELDS)
  {
    var i := 0;
    while i < |REQUIRED_FIELDS|
      invariant 0 <= i <= |REQUIRED_FIELDS|
      invariant FirstMissing(input, REQUIRED_FIELDS) == FirstMissing(input, REQUIRED_FIELDS[i..])
    {
      if !Present(input, REQUIRED_FIELDS[i]) {
        return Some(REQUIRED_FIELDS[i]);
      }
      assert REQUIRED_FIELDS[i..][1..] == REQUIRED_FIELDS[i + 1..];
      i := i + 1;
    }
    return None;
  }

  /** Every required field is present and truthy. */
  predicate AllPresent(input: map<string, string>) {
    && Present(input, "date") && Present(input, "timeStart") && Present(input, "timeEnd")
    && Present(input, "clientName") && Present(input, "dogName") && Present(input, "service")
    && Present(input, "employee") && Present(input, "addedBy")
  }

  lemma RequiredFieldsPresent(input: map<string, string>)
    ensures FirstMissing(input, REQUIRED_FIELDS).None? <==> AllPresent(input)
  {
    var f := REQUIRED_FIELDS;
    assert f[0] == "date" && f[1] == "timeStart" && f[2] == "timeEnd" && f[3] == "clientName";
    assert f[4] == "dogName" && f[5] == "service" && f[6] == "employee" && f[7] == "addedBy";
  }

  /** `$input['phone'] ?? ''` */
  function PhoneOf(input: map<string, string>): string {
    if "phone" in input then input["phone"] else ""
  }

  // ---------------------------------------------------------------------------
  // Joining a freshly written appointment

  /** With unique keys, the joined row of an appointment carries the names of exactly the client,
      dog and employee rows its ids point at. */
  lemma JoinByUniqueIds(db: Db, a: Appointment, c: nat, d: nat, e: nat)
    requires ClientIdsUnique(db.clients) && DogIdsUnique(db.dogs) && EmployeeIdsUnique(db.employees)
    requires c < |db.clients| && db.clients[c].id == a.clientId
    requires d < |db.dogs| && db.dogs[d].id == a.dogId
    requires e < |db.employees| && db.employees[e].id == a.employeeId
    ensures Listing.JoinRow(db, a).Some?
    ensures var row := Listing.JoinRow(db, a).value;
      && row.clientName == db.clients[c].name && row.clientPhone == db.clients[c].phone
      && row.dogName == db.dogs[d].name && row.employeeName == db.employees[e].name
      && row.endTime == a.endTime && row.serviceDescription == a.serviceDescription
      && row.addedByName == Listing.AddedByName(db.employees, a.addedById)
  {
    var cr := Listing.ClientWithId(db.clients, a.clientId);
    var dr := Listing.DogWithId(db.dogs, a.dogId);
    var er := Listing.EmployeeWithId(db.employees, a.employeeId);
    assert cr.Some? && dr.Some? && er.Some?;
    var i :| 0 <= i < |db.clients| && db.clients[i] == cr.value;
    var j :| 0 <= j < |db.dogs| && db.dogs[j] == dr.value;
    var k :| 0 <= k < |db.employees| && db.employees[k] == er.value;
    assert i == c && j == d && k == e;
  }

  /** An appointment appended under an id no earlier row carries is what the re-fetch by that id
      returns, joined with the client, dog and employee rows it points at. */
  lemma FetchAppended(db: Db, before: seq<Appointment>, a: Appointment, c: nat, d: nat, e: nat)
    requires db.appointments == before + [a]
    requires forall j :: 0 <= j < |before| ==> before[j].id != a.id
    requires ClientIdsUnique(db.clients) && DogIdsUnique(db.dogs) && EmployeeIdsUnique(db.employees)
    requires c < |db.clients| && db.clients[c].id == a.clientId
    requires d < |db.dogs| && db.dogs[d].id == a.dogId
    requires e < |db.employees| && db.employees[e].id == a.employeeId
    ensures Listing.FetchById(db, a.id) == Listing.JoinRow(db, a) && Listing.JoinRow(db, a).Some?
  {
    var k := Identity.FirstWhere(db.appointments, (x: Appointment) => x.id == a.id);
    assert db.appointments[|before|] == a;
    assert k.Some?;
    assert forall j :: 0 <= j < |before| ==> db.appointments[j] == before[j];
    JoinByUniqueIds(db, a, c, d, e);
  }

  /** The answer to a booking, shaped from that re-fetched row. */
  lemma CreatedAnswer(db: Db, before: seq<Appointment>, a: Appointment, c: nat, d: nat, e: nat)
    requires db.appointments == before + [a]
    requires forall j :: 0 <= j < |before| ==> before[j].id != a.id
    requires ClientIdsUnique(db.clients) && DogIdsUnique(db.dogs) && EmployeeIdsUnique(db.employees)
    requires c < |db.clients| && db.clients[c].id == a.clientId
    requires d < |db.dogs| && db.dogs[d].id == a.dogId
    requires e < |db.employees| && db.employees[e].id == a.employeeId
    ensures Listing.FetchById(db, a.id).Some?
    ensures var v := Listing.FormatCreated(Listing.FetchById(db, a.id).value);
      && v.id == a.id && v.date == a.date && v.service == a.serviceDescription
      && v.clientName == db.clients[c].name && v.dogName == db.dogs[d].name && v.employee == db.employees[e].name
      && v.timeStart == Prefix(a.startTime, 5) && v.timeEnd == Prefix(a.endTime, 5)
      && v.phone == Listing.OrEmpty(db.clients[c].phone)
      && v.addedBy == Listing.AddedByName(db.employees, a.addedById)
  {
    FetchAppended(db, before, a, c, d, e);
    JoinByUniqueIds(db, a, c, d, e);
  }

  /** Appending an appointment under the counter's value, and advancing the counter, keeps the
      tables valid. */
  lemma AppendKeepsValid(db: Db, nextClientId: nat, nextDogId: nat, nextAppointmentId: nat, a: Appointment)
    requires ValidTables(db, nextClientId, nextDogId, nextAppointmentId) && a.id == nextAppointmentId
    ensures ValidTables(db.(appointments := db.appointments + [a]), nextClientId, nextDogId, nextAppointmentId + 1)
  {
    var s := db.appointments + [a];
    forall i, j | 0 <= i < |s| && 0 <= j < |s| && s[i].id == s[j].id ensures i == j {
      if i < |db.appointments| && j < |db.appointments| {
        assert db.appointments[i].id == db.appointments[j].id;
      }
    }
  }

  /** Tables restored by a rollback stay valid under counters that have moved on. */
  lemma CountersMayGrow(db: Db, nextClientId: nat, nextDogId: nat, nextAppointmentId: nat, laterClientId: nat, laterDogId: nat)
    requires ValidTables(db, nextClientId, nextDogId, nextAppointmentId)
    requires nextClientId <= laterClientId && nextDogId <= laterDogId
    ensures ValidTables(db, laterClientId, laterDogId, nextAppointmentId)
  {
  }

  lemma AddedByUniqueId(employees: seq<Employee>, e: nat)
    requires EmployeeIdsUnique(employees) && e < |employees|
    ensures Listing.AddedByName(employees, Some(employees[e].id)) == Some(employees[e].name)
  {
    var er := Listing.EmployeeWithId(employees, employees[e].id);
    assert er.Some?;
    var k :| 0 <= k < |employees| && employees[k] == er.value;
    assert k == e;
  }

  /** A booked appointment shows up, joined with its client, dog and employee, in the calendar of
      every date range that contains its date. */
  lemma BookedAppointmentListed(db: Db, a: Appointment, c: nat, d: nat, e: nat, startDate: string, endDate: string)
    requires a in db.appointments && Listing.InRange(a.date, startDate, endDate)
    requires ClientIdsUnique(db.clients) && DogIdsUnique(db.dogs) && EmployeeIdsUnique(db.employees)
    requires c < |db.clients| && db.clients[c].id == a.clientId
    requires d < |db.dogs| && db.dogs[d].id == a.dogId
    requires e < |db.employees| && db.employees[e].id == a.employeeId
    ensures exists r :: (r in Listing.ListQuery(db, startDate, endDate) && r.id == a.id &&
                         r.clientName == db.clients[c].name && r.dogName == db.dogs[d].name &&
                         r.employeeName == db.employees[e].name)
  {
    JoinByUniqueIds(db, a, c, d, e);
    Listing.ListQueryCorrect(db, startDate, endDate);
    assert Listing.JoinRow(db, a).value in Listing.ListQuery(db, startDate, endDate);
  }

  /** The appointment row handlePost inserts: the status is the column default, and neither a
      catalogue service, a price nor notes are written. */
  function NewAppointment(id: nat, clientId: nat, dogId: nat, employeeId: nat, addedById: Option<nat>,
                          input: map<string, string>, defaultStatus: string): (a: Appointment)
    requires AllPresent(input)
    ensures a.id == id && a.clientId == clientId && a.dogId == dogId && a.employeeId == employeeId
    ensures a.date == input["date"] && a.serviceDescription == Some(input["service"])
    ensures a.startTime == StoredTime(input["timeStart"]) && a.endTime == StoredTime(input["timeEnd"])
    ensures a.serviceId.None? && a.price.None? && a.notes.None? && a.status == defaultStatus
  {
    Appointment(id, clientId, dogId, employeeId, addedById, input["date"],
                StoredTime(input["timeStart"]), StoredTime(input["timeEnd"]), defaultStatus,
                Some(input["service"]), None, None, None)
  }

  // ---------------------------------------------------------------------------
  // The database

  class Store {
    var clients: seq<Client>
    var dogs: seq<Dog>
    var employees: seq<Employee>
    var services: seq<Service>
    var appointments: seq<Appointment>
    var nextClientId: nat
    var nextDogId: nat
    var nextAppointmentId: nat
    /** The default of the `status` column, which an insert does not set. */
    const defaultStatus: string

    function Snapshot(): Db
      reads this
    {
      Db(clients, dogs, employees, services, appointments)
    }

    ghost predicate Valid()
      reads this
    {
      ValidTables(Snapshot(), nextClientId, nextDogId, nextAppointmentId)
    }

    constructor (db: Db, nextClientId: nat, nextDogId: nat, nextAppointmentId: nat, defaultStatus: string)
      requires ValidTables(db, nextClientId, nextDogId, nextAppointmentId)
      ensures Valid() && Snapshot() == db && this.defaultStatus == defaultStatus
      ensures this.nextClientId == nextClientId && this.nextDogId == nextDogId
      ensures this.nextAppointmentId == nextAppointmentId
    {
      clients, dogs, employees, services, appointments := db.clients, db.dogs, db.employees, db.services, db.appointments;
      this.nextClientId, this.nextDogId, this.nextAppointmentId := nextClientId, nextDogId, nextAppointmentId;
      this.defaultStatus := defaultStatus;
    }

    /** findOrCreateClient: the table and counter become those Identity.ResolveClient describes. */
    method FindOrCreateClient(name: string, phone: string) returns (id: nat, ghost at: nat)
      requires Valid()
      modifies this`clients, this`nextClientId
      ensures Valid()
      ensures var r := Identity.ResolveClient(old(clients), old(nextClientId), name, phone);
        clients == r.table && id == r.id && nextClientId == r.nextId
      ensures at < |clients| && clients[at].id == id && (Truthy(name) ==> clients[at].name == name)
      ensures Identity.ClientMatch(old(clients), phone).None? ==> clients[at].phone == Some(phone)
    {
      var formatted := Digits(phone);
      if |formatted| >= Identity.MIN_MATCH_DIGITS {
        var k := Identity.FirstPhoneMatch(clients, formatted);
        if k.Some? {
          id, at := clients[k.value].id, k.value;
          if !PhpEmpty(name) {
            clients := clients[k.value := clients[k.value].(name := name)];
          }
          return;
        }
      }
      clients := clients + [Client(nextClientId, name, Some(phone))];
      id, at := nextClientId, |clients| - 1;
      nextClientId := nextClientId + 1;
    }

    /** findOrCreateDog: the table and counter become those Identity.ResolveDog describes. */
    method FindOrCreateDog(clientId: nat, name: string) returns (id: nat, ghost at: nat)
      requires Valid()
      modifies this`dogs, this`nextDogId
      ensures Valid()
      ensures var r := Identity.ResolveDog(old(dogs), old(nextDogId), clientId, name);
        dogs == r.table && id == r.id && nextDogId == r.nextId
      ensures at < |dogs| && dogs[at].id == id && dogs[at].name == name
    {
      var k := Identity.FirstDog(dogs, clientId, name);
      if k.Some? {
        return dogs[k.value].id, k.value;
      }
      dogs := dogs + [Dog(nextDogId, clientId, name, None)];
      id, at := nextDogId, |dogs| - 1;
      nextDogId := nextDogId + 1;
    }

    /** The committed part of handlePost: append the appointment for resolved client, dog and
        performing employee, then fetch it back by its id, joined, and shape the answer. */
    method InsertAppointment(input: map<string, string>, clientId: nat, dogId: nat, e: nat, ghost c: nat, ghost d: nat)
      returns (r: Response<CreatedView>)
      requires Valid() && AllPresent(input)
      requires e < |employees| && employees[e].name == input["employee"]
      requires c < |clients| && clients[c].id == clientId && clients[c].name == input["clientName"]
      requires d < |dogs| && dogs[d].id == dogId && dogs[d].name == input["dogName"]
      modifies this`appointments, this`nextAppointmentId
      ensures Valid()
      ensures var addedBy := Identity.EmployeeNamed(employees, input["addedBy"]);
        var addedById := if addedBy.Some? then Some(employees[addedBy.value].id) else None;
        && appointments == old(appointments) + [NewAppointment(old(nextAppointmentId), clientId, dogId,
             employees[e].id, addedById, input, defaultStatus)]
        && nextAppointmentId == old(nextAppointmentId) + 1
        && r.Ok?
        && r.value.addedBy == (if addedBy.Some? then Some(input["addedBy"]) else None)
      ensures r.Ok? && r.value.id == old(nextAppointmentId) && r.value.date == input["date"]
      ensures r.value.clientName == input["clientName"] && r.value.dogName == input["dogName"]
      ensures r.value.employee == input["employee"] && r.value.service == Some(input["service"])
      ensures |input["timeStart"]| == 5 ==> r.value.timeStart == input["timeStart"]
      ensures |input["timeEnd"]| == 5 ==> r.value.timeEnd == input["timeEnd"]
      ensures r.value.phone == Listing.OrEmpty(clients[c].phone)
    {
      var addedBy := Identity.EmployeeNamed(employees, input["addedBy"]);
      var addedById := if addedBy.Some? then Some(employees[addedBy.value].id) else None;
      var appt := NewAppointment(nextAppointmentId, clientId, dogId, employees[e].id, addedById,
                                 input, defaultStatus);
      ghost var db0 := Snapshot();
      ghost var db := db0.(appointments := db0.appointments + [appt]);
      AppendKeepsValid(db0, nextClientId, nextDogId, nextAppointmentId, appt);
      CreatedAnswer(db, db0.appointments, appt, c, d, e);
      appointments := appointments + [appt];
      nextAppointmentId := nextAppointmentId + 1;
      assert Snapshot() == db;
      // commit, then fetch the new row back by its id
      var row := Listing.FetchById(Snapshot(), appt.id);
      if addedBy.Some? {
        AddedByUniqueId(employees, addedBy.value);
      }
      if |input["timeStart"]| == 5 { TimeRoundTrip(input["timeStart"]); }
      if |input["timeEnd"]| == 5 { TimeRoundTrip(input["timeEnd"]); }
      r := Ok(Listing.FormatCreated(row.value));
    }

    /** The two find-or-create steps of handlePost, client first, then the client's dog. */
    method ResolveParties(input: map<string, string>) returns (clientId: nat, dogId: nat, ghost c: nat, ghost d: nat)
      requires Valid() && AllPresent(input)
      modifies this`clients, this`nextClientId, this`dogs, this`nextDogId
      ensures Valid()
      ensures var rc := Identity.ResolveClient(old(clients), old(nextClientId), input["clientName"], PhoneOf(input));
        && clients == rc.table && clientId == rc.id && nextClientId == rc.nextId
        && var rd := Identity.ResolveDog(old(dogs), old(nextDogId), rc.id, input["dogName"]);
           dogs == rd.table && dogId == rd.id && nextDogId == rd.nextId
      ensures c < |clients| && clients[c].id == clientId && clients[c].name == input["clientName"]
      ensures Identity.ClientMatch(old(clients), PhoneOf(input)).None? ==> clients[c].phone == Some(PhoneOf(input))
      ensures d < |dogs| && dogs[d].id == dogId && dogs[d].name == input["dogName"]
    {
      clientId, c := FindOrCreateClient(input["clientName"], PhoneOf(input));
      dogId, d := FindOrCreateDog(clientId, input["dogName"]);
    }

    /** `$db->rollback()`: the client and dog tables return to their state at `beginTransaction`;
        the auto-increment counters keep the values the transaction consumed. */
    method RollBack(saved: Db, ghost savedClientId: nat, ghost savedDogId: nat)
      requires ValidTables(saved, savedClientId, savedDogId, nextAppointmentId)
      requires savedClientId <= nextClientId && savedDogId <= nextDogId
      requires saved.employees == employees && saved.services == services && saved.appointments == appointments
      modifies this`clients, this`dogs
      ensures Valid() && Snapshot() == saved
    {
      CountersMayGrow(saved, savedClientId, savedDogId, nextAppointmentId, nextClientId, nextDogId);
      clients, dogs := saved.clients, saved.dogs;
    }

    /** handlePost once every required field is present: the transaction. */
    method BookComplete(input: map<string, string>) returns (r: Response<CreatedView>)
      requires Valid() && AllPresent(input)
      modifies this
      ensures Valid()
      ensures employees == old(employees) && services == old(services)
      ensures var rc := Identity.ResolveClient(old(clients), old(nextClientId), input["clientName"], PhoneOf(input));
        var rd := Identity.ResolveDog(old(dogs), old(nextDogId), rc.id, input["dogName"]);
        && nextClientId == rc.nextId && nextDogId == rd.nextId
        && (Identity.EmployeeNamed(old(employees), input["employee"]).None? ==>
              && r == Error(500, EMPLOYEE_NOT_FOUND)
              && Snapshot() == old(Snapshot()) && nextAppointmentId == old(nextAppointmentId))
        && (Identity.EmployeeNamed(old(employees), input["employee"]).Some? ==>
              var e := Identity.EmployeeNamed(old(employees), input["employee"]).value;
              var addedBy := Identity.EmployeeNamed(old(employees), input["addedBy"]);
              var addedById := if addedBy.Some? then Some(old(employees)[addedBy.value].id) else None;
              && clients == rc.table && dogs == rd.table
              && appointments == old(appointments) + [NewAppointment(old(nextAppointmentId), rc.id, rd.id,
                   old(employees)[e].id, addedById, input, defaultStatus)]
              && nextAppointmentId == old(nextAppointmentId) + 1
              && r.Ok?
              && r.value.id == old(nextAppointmentId) && r.value.date == input["date"]
              && r.value.clientName == input["clientName"] && r.value.dogName == input["dogName"]
              && r.value.employee == input["employee"] && r.value.service == Some(input["service"])
              && r.value.addedBy == (if addedBy.Some? then Some(input["addedBy"]) else None)
              && (|input["timeStart"]| == 5 ==> r.value.timeStart == input["timeStart"])
              && (|input["timeEnd"]| == 5 ==> r.value.timeEnd == input["timeEnd"])
              && (Identity.ClientMatch(old(clients), PhoneOf(input)).None? ==> r.value.phone == PhoneOf(input))
              && (Identity.ClientMatch(old(clients), PhoneOf(input)).Some? ==>
                    r.value.phone == Listing.OrEmpty(old(clients)[Identity.ClientMatch(old(clients), PhoneOf(input)).value].phone)))
    {
      // beginTransaction
      var saved := Snapshot();
      var clientId, dogId, c, d := ResolveParties(input);
      var employee := Identity.EmployeeNamed(employees, input["employee"]);
      assert employees == old(employees);
      if employee.None? {
        RollBack(saved, old(nextClientId), old(nextDogId));
        return Error(500, EMPLOYEE_NOT_FOUND);
      }
      var m := Identity.ClientMatch(old(clients), PhoneOf(input));
      if m.Some? {
        Identity.ResolveClientReusesMatch(old(clients), old(nextClientId), input["clientName"], PhoneOf(input), m.value);
        assert c == m.value;
      }
      r := InsertAppointment(input, clientId, dogId, employee.value, c, d);
    }

    /** handlePost. A missing field answers 400 before anything is written. Otherwise the client
        and dog are found or created inside a transaction; an unknown performing employee rolls the
        tables back (the consumed auto-increment values stay consumed) and answers 500; a known one
        gets the appointment appended and answered with its joined row. */
    method Book(input: map<string, string>) returns (r: Response<CreatedView>)
      requires Valid()
      modifies this
      ensures Valid()
      ensures employees == old(employees) && services == old(services)
      ensures FirstMissing(input, REQUIRED_FIELDS).None? <==> AllPresent(input)
      ensures FirstMissing(input, REQUIRED_FIELDS).Some? ==>
        && r == Error(400, MISSING_FIELD + FirstMissing(input, REQUIRED_FIELDS).value)
        && Snapshot() == old(Snapshot())
        && nextClientId == old(nextClientId) && nextDogId == old(nextDogId)
        && nextAppointmentId == old(nextAppointmentId)
      ensures AllPresent(input) ==>
        var rc := Identity.ResolveClient(old(clients), old(nextClientId), input["clientName"], PhoneOf(input));
        var rd := Identity.ResolveDog(old(dogs), old(nextDogId), rc.id, input["dogName"]);
        && nextClientId == rc.nextId && nextDogId == rd.nextId
        && (Identity.EmployeeNamed(old(employees), input["employee"]).None? ==>
              && r == Error(500, EMPLOYEE_NOT_FOUND)
              && Snapshot() == old(Snapshot()) && nextAppointmentId == old(nextAppointmentId))
        && (Identity.EmployeeNamed(old(employees), input["employee"]).Some? ==>
              var e := Identity.EmployeeNamed(old(employees), input["employee"]).value;
              var addedBy := Identity.EmployeeNamed(old(employees), input["addedBy"]);
              var addedById := if addedBy.Some? then Some(old(employees)[addedBy.value].id) else None;
              && clients == rc.table && dogs == rd.table
              && appointments == old(appointments) + [NewAppointment(old(nextAppointmentId), rc.id, rd.id,
                   old(employees)[e].id, addedById, input, defaultStatus)]
              && nextAppointmentId == old(nextAppointmentId) + 1
              && r.Ok?
              && r.value.id == old(nextAppointmentId) && r.value.date == input["date"]
              && r.value.clientName == input["clientName"] && r.value.dogName == input["dogName"]
              && r.value.employee == input["employee"] && r.value.service == Some(input["service"])
              && r.value.addedBy == (if addedBy.Some? then Some(input["addedBy"]) else None)
              && (|input["timeStart"]| == 5 ==> r.value.timeStart == input["timeStart"])
              && (|input["timeEnd"]| == 5 ==> r.value.timeEnd == input["timeEnd"])
              && (Identity.ClientMatch(old(clients), PhoneOf(input)).None? ==> r.value.phone == PhoneOf(input))
              && (Identity.ClientMatch(old(clients), PhoneOf(input)).Some? ==>
                    r.value.phone == Listing.OrEmpty(old(clients)[Identity.ClientMatch(old(clients), PhoneOf(input)).value].phone)))
    {
      RequiredFieldsPresent(input);
      var missing := Validate(input);
      if missing.Some? {
        return Error(400, MISSING_FIELD + missing.value);
      }
      r := BookComplete(input);
    }

    /** handleGet: every row of the calendar query for the range, shaped for the calendar. */
    method List(startDate: string, endDate: string) returns (views: seq<AppointmentView>)
      ensures var rows := Listing.ListQuery(Snapshot(), startDate, endDate);
        |views| == |rows| && forall i :: 0 <= i < |rows| ==> views[i] == Listing.Format(rows[i])
      ensures forall i :: 0 <= i < |views| ==> Listing.InRange(views[i].date, startDate, endDate)
      ensures forall i, j :: 0 <= i < j < |views| ==> StrLe(views[i].date, views[j].date)
    {
      var rows := Listing.ListQuery(Snapshot(), startDate, endDate);
      views := Listing.FormatRows(rows);
      Listing.FormattedDates(Snapshot(), startDate, endDate, views);
    }

    /** handleDelete, given `$segments[0]`: 400 without an id, 404 when no row has it, otherwise
        the rows with that id are removed. */
    method Delete(segment: Option<string>) returns (r: Response<string>)
      requires Valid()
      modifies this`appointments
      ensures Valid()
      ensures segment.None? || PhpEmpty(segment.value) ==>
        r == Error(400, MISSING_ID) && appointments == old(appointments)
      ensures segment.Some? && Truthy(segment.value) ==>
        var id := Listing.ParseId(segment.value);
        if id.None? || Listing.CountId(old(appointments), id.value) == 0 then
          r == Error(404, NOT_FOUND) && appointments == old(appointments)
        else
          && r == Ok(DELETED)
          && appointments == Listing.WithoutId(old(appointments), id.value)
          && |appointments| < |old(appointments)|
          && forall a :: a in appointments <==> a in old(appointments) && a.id != id.value
    {
      if segment.None? || PhpEmpty(segment.value) {
        return Error(400, MISSING_ID);
      }
      var id := Listing.ParseId(segment.value);
      var affected := 0;
      if id.Some? {
        affected := Listing.CountId(appointments, id.value);
        WithoutIdKeepsUnique(appointments, id.value);
        appointments := Listing.WithoutId(appointments, id.value);
        if affected == 0 {
          Listing.WithoutAbsentId(old(appointments), id.value);
        }
      }
      if affected == 0 {
        return Error(404, NOT_FOUND);
      }
      return Ok(DELETED);
    }

    /** The DELETE route as api/appointments.php writes it: the id is read from key 0 of the
        filtered segments, so `/api/appointments/{id}` is always answered 400 and deletes
        nothing. */
    method HandleDeleteAsWritten(path: string) returns (r: Response<string>)
      requires Valid()
      modifies this`appointments
      ensures Valid()
      ensures Routing.DeleteSegmentAsWritten(path).None? ==> r == Error(400, MISSING_ID) && appointments == old(appointments)
      ensures Routing.DeleteSegmentAsWritten(path).Some? ==>
        var id := Listing.ParseId(Routing.DeleteSegmentAsWritten(path).value);
        && (r == Ok(DELETED) <==> id.Some? && Listing.CountId(old(appointments), id.value) > 0)
        && (r == Ok(DELETED) ==> appointments == Listing.WithoutId(old(appointments), id.value))
        && (r != Ok(DELETED) ==> r == Error(404, NOT_FOUND) && appointments == old(appointments))
      ensures (exists id :: '/' !in id && Truthy(id) && path == Routing.APPOINTMENTS_ROUTE + "/" + id) ==>
        r == Error(400, MISSING_ID) && appointments == old(appointments)
    {
      if exists id :: '/' !in id && Truthy(id) && path == Routing.APPOINTMENTS_ROUTE + "/" + id {
        ghost var id :| '/' !in id && Truthy(id) && path == Routing.APPOINTMENTS_ROUTE + "/" + id;
        Routing.DeleteSegmentAsWrittenLosesId(id);
      }
      var segment := Routing.DeleteSegmentAsWritten(path);
      r := Delete(segment);
    }

    /** The DELETE route with the id taken as the first surviving path segment, the corrected
        reading of `$segments[0]`. */
    method HandleDelete(path: string) returns (r: Response<string>)
      requires Valid()
      modifies this`appointments
      ensures Valid()
      ensures Routing.DeleteSegment(path).None? ==> r == Error(400, MISSING_ID) && appointments == old(appointments)
      ensures Routing.DeleteSegment(path).Some? ==>
        var id := Listing.ParseId(Routing.DeleteSegment(path).value);
        && (r == Ok(DELETED) <==> id.Some? && Listing.CountId(old(appointments), id.value) > 0)
        && (r == Ok(DELETED) ==> appointments == Listing.WithoutId(old(appointments), id.value))
        && (r != Ok(DELETED) ==> r == Error(404, NOT_FOUND) && appointments == old(appointments))
    {
      var segment := Routing.DeleteSegment(path);
      r := Delete(segment);
    }

    /** getClientHistory: the summary of the client whose stored phone matches, built from the
        history rows, latest first. */
    method LookupHistory(phone: string) returns (h: ClientHistory)
      ensures match Identity.ClientMatch(clients, phone)
        case None => h == History.NewClientHistory(None)
        case Some(k) =>
          var rows := History.HistoryRows(Snapshot(), clients[k].id);
          if rows == [] then h == History.NewClientHistory(Some(clients[k].name))
          else h == ClientHistory(false, |rows|, Some(rows[0].date), Some(clients[k].name),
                                  History.Dedup(History.DogNames(rows)),
                                  History.Dedup(History.ServiceLabels(rows)), Some(clients[k].id))
    {
      var formatted := Digits(phone);
      if |formatted| < Identity.MIN_MATCH_DIGITS {
        return History.NewClientHistory(None);
      }
      var k := Identity.FirstPhoneMatch(clients, formatted);
      if k.None? {
        return History.NewClientHistory(None);
      }
      var client := clients[k.value];
      var rows := History.HistoryRows(Snapshot(), client.id);
      if rows == [] {
        return History.NewClientHistory(Some(client.name));
      }
      var dogNames, services := History.CollectNames(rows);
      return ClientHistory(false, |rows|, Some(rows[0].date), Some(client.name), dogNames, services, Some(client.id));
    }

    /** The history endpoint: the phone segment of the path, then its history. */
    method HandleHistory(path: string) returns (r: Response<ClientHistory>)
      ensures Routing.PhoneAfterMarker(Routing.Compact(Routing.Explode(path))).None? ==>
        r == Error(400, Routing.MISSING_PHONE)
      ensures r.Ok? ==> Routing.PhoneAfterMarker(Routing.Compact(Routing.Explode(path))).Some?
      ensures var found := Routing.PhoneAfterMarker(Routing.Compact(Routing.Explode(path)));
        found.Some? ==>
          && r.Ok?
          && match Identity.ClientMatch(clients, found.value)
             case None => r.value == History.NewClientHistory(None)
             case Some(k) =>
               var rows := History.HistoryRows(Snapshot(), clients[k].id);
               if rows == [] then r.value == History.NewClientHistory(Some(clients[k].name))
               else r.value == ClientHistory(false, |rows|, Some(rows[0].date), Some(clients[k].name),
                                             History.Dedup(History.DogNames(rows)),
                                             History.Dedup(History.ServiceLabels(rows)), Some(clients[k].id))
    {
      var phone := Routing.PhoneSegment(path);
      if phone.Error? {
        return Error(phone.status, phone.message);
      }
      var h := LookupHistory(phone.value);
      return Ok(h);
    }
  }
}
