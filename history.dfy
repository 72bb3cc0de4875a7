/** The history query of api/client-history.php (getClientHistory) and the first-seen
    de-duplication its loop performs, stated on table contents. */
module History {
  import opened Rows
  import opened Text
  import opened Sorting
  import Listing

  /** The result for a phone that is too short, unknown, or whose client has no appointments;
      only the last of these names the client. */
  function NewClientHistory(name: Option<string>): (h: ClientHistory)
    ensures h.isNew && h.visitCount == 0 && h.lastVisit.None? && h.clientId.None?
    ensures h.dogNames == [] && h.services == [] && h.clientName == name
  {
    ClientHistory(true, 0, None, name, [], [], None)
  }

  /** One appointment joined with its dog (inner join) and catalogue service (left join). */
  function HistoryRowOf(db: Db, a: Appointment): Option<HistoryRow> {
    match Listing.DogWithId(db.dogs, a.dogId)
    case Some(d) => Some(HistoryRow(a.date, a.serviceDescription, a.status, d.name, Listing.ServiceName(db.services, a.serviceId)))
    case None => None
  }

  /** The rows of `… WHERE a.client_id = ?`, in table order. */
  function ClientRows(db: Db, appts: seq<Appointment>, clientId: nat): (rows: seq<HistoryRow>)
    ensures |rows| <= |appts|
  {
    if appts == [] then []
    else
      var rest := ClientRows(db, appts[1..], clientId);
      var row := HistoryRowOf(db, appts[0]);
      if appts[0].clientId == clientId && row.Some? then [row.value] + rest else rest
  }

  /** `ORDER BY a.appointment_date DESC`. */
  predicate LaterOrSame(x: HistoryRow, y: HistoryRow) {
    StrLe(y.date, x.date)
  }

  function HistoryRows(db: Db, clientId: nat): (rows: seq<HistoryRow>)
    ensures multiset(rows) == multiset(ClientRows(db, db.appointments, clientId))
    ensures |rows| <= |db.appointments|
  {
    var rows := SortBy(ClientRows(db, db.appointments, clientId), LaterOrSame);
    assert |rows| == |multiset(rows)|;
    rows
  }

  /** How many appointments of the client have their dog on file. */
  function VisitCount(db: Db, appts: seq<Appointment>, clientId: nat): nat {
    if appts == [] then 0
    else (if appts[0].clientId == clientId && HistoryRowOf(db, appts[0]).Some? then 1 else 0)
         + VisitCount(db, appts[1..], clientId)
  }

  /** The service label of a row, `service_description ?: service_name`: the description when it
      is truthy, otherwise the catalogue name, which may itself be NULL or falsy. */
  function ServiceLabel(row: HistoryRow): (l: Option<string>)
    ensures row.serviceDescription.Some? && Truthy(row.serviceDescription.value) ==> l == row.serviceDescription
    ensures !(row.serviceDescription.Some? && Truthy(row.serviceDescription.value)) ==> l == row.serviceName
  {
    if row.serviceDescription.Some? && Truthy(row.serviceDescription.value) then row.serviceDescription
    else row.serviceName
  }

  /** The dog name of every row, in row order. */
  function DogNames(rows: seq<HistoryRow>): (names: seq<string>)
    ensures |names| == |rows|
    ensures forall i :: 0 <= i < |rows| ==> names[i] == rows[i].dogName
  {
    if rows == [] then [] else DogNames(rows[..|rows| - 1]) + [rows[|rows| - 1].dogName]
  }

  /** The truthy service labels, in row order; NULL, "" and "0" labels are skipped. */
  function ServiceLabels(rows: seq<HistoryRow>): (labels: seq<string>)
    ensures forall l :: l in labels ==> Truthy(l)
    ensures forall l :: l in labels <==> exists i :: 0 <= i < |rows| && ServiceLabel(rows[i]) == Some(l) && Truthy(l)
  {
    if rows == [] then []
    else
      var init := rows[..|rows| - 1];
      var tag := ServiceLabel(rows[|rows| - 1]);
      var labels := ServiceLabels(init);
      assert forall i :: 0 <= i < |init| ==> init[i] == rows[i];
      if tag.Some? && Truthy(tag.value) then labels + [tag.value] else labels
  }

  /** `if (!in_array($x, $acc)) $acc[] = $x` over a whole sequence: the distinct elements, each
      where it first occurs. */
  function Dedup(s: seq<string>): (d: seq<string>)
    ensures forall x :: x in d <==> x in s
    ensures forall i, j :: 0 <= i < j < |d| ==> d[i] != d[j]
    ensures |d| <= |s|
  {
    if s == [] then []
    else
      var init := s[..|s| - 1];
      var d := Dedup(init);
      assert s == init + [s[|s| - 1]];
      if s[|s| - 1] in d then d else d + [s[|s| - 1]]
  }

  /** One more row adds its dog name at the end. */
  lemma DogNamesStep(rows: seq<HistoryRow>, i: nat)
    requires i < |rows|
    ensures DogNames(rows[..i + 1]) == DogNames(rows[..i]) + [rows[i].dogName]
  {
    assert rows[..i + 1][..i] == rows[..i];
  }

  /** One more row adds its label at the end exactly when the label is truthy. */
  lemma ServiceLabelsStep(rows: seq<HistoryRow>, i: nat)
    requires i < |rows|
    ensures var l := ServiceLabel(rows[i]);
      ServiceLabels(rows[..i + 1]) == ServiceLabels(rows[..i]) + (if l.Some? && Truthy(l.value) then [l.value] else [])
  {
    assert rows[..i + 1][..i] == rows[..i];
  }

  /** One more element joins the de-duplicated sequence exactly when it is new. */
  lemma DedupStep(s: seq<string>, x: string)
    ensures Dedup(s + [x]) == if x in Dedup(s) then Dedup(s) else Dedup(s) + [x]
  {
    assert (s + [x])[..|s|] == s;
  }

  /** One iteration of the history loop on the dog names: the next name is kept when it is new. */
  lemma DogNamesLoopStep(rows: seq<HistoryRow>, i: nat, seen: seq<string>)
    requires i < |rows| && seen == Dedup(DogNames(rows[..i]))
    ensures Dedup(DogNames(rows[..i + 1]))
      == if rows[i].dogName in seen then seen else seen + [rows[i].dogName]
  {
    DogNamesStep(rows, i);
    DedupStep(DogNames(rows[..i]), rows[i].dogName);
  }

  /** One iteration of the history loop on the services: the next label is kept when it is truthy
      and new. */
  lemma ServicesLoopStep(rows: seq<HistoryRow>, i: nat, seen: seq<string>)
    requires i < |rows| && seen == Dedup(ServiceLabels(rows[..i]))
    ensures var l := ServiceLabel(rows[i]);
      Dedup(ServiceLabels(rows[..i + 1]))
      == if l.Some? && Truthy(l.value) && l.value !in seen then seen + [l.value] else seen
  {
    ServiceLabelsStep(rows, i);
    var l := ServiceLabel(rows[i]);
    if l.Some? && Truthy(l.value) {
      DedupStep(ServiceLabels(rows[..i]), l.value);
    } else {
      assert ServiceLabels(rows[..i]) + [] == ServiceLabels(rows[..i]);
    }
  }

  /** The `foreach ($appointments …)` loop of getClientHistory: each dog name the first time it
      appears, and each truthy service label the first time it appears, in row order. */
  method CollectNames(rows: seq<HistoryRow>) returns (dogNames: seq<string>, services: seq<string>)
    ensures dogNames == Dedup(DogNames(rows))
    ensures services == Dedup(ServiceLabels(rows))
  {
    dogNames, services := [], [];
    var i := 0;
    while i < |rows|
      invariant 0 <= i <= |rows|
      invariant dogNames == Dedup(DogNames(rows[..i]))
      invariant services == Dedup(ServiceLabels(rows[..i]))
    {
      var row := rows[i];
      DogNamesLoopStep(rows, i, dogNames);
      ServicesLoopStep(rows, i, services);
      if row.dogName !in dogNames {
        dogNames := dogNames + [row.dogName];
      }
      var service := ServiceLabel(row);
      if service.Some? && Truthy(service.value) && service.value !in services {
        services := services + [service.value];
      }
      i := i + 1;
    }
    assert rows[..|rows|] == rows;
  }

  /** Position of the first occurrence. */
  function FirstIndex(s: seq<string>, x: string): (k: nat)
    requires x in s
    ensures k < |s| && s[k] == x && forall j :: 0 <= j < k ==> s[j] != x
  {
    if s[0] == x then 0 else 1 + FirstIndex(s[1..], x)
  }

  lemma FirstIndexAppend(s: seq<string>, y: string, x: string)
    requires x in s + [y]
    ensures x in s ==> FirstIndex(s + [y], x) == FirstIndex(s, x)
    ensures x !in s ==> FirstIndex(s + [y], x) == |s|
  {
    var k := FirstIndex(s + [y], x);
    if x in s {
      var k' := FirstIndex(s, x);
      assert (s + [y])[k'] == x;
    }
  }

  /** The distinct elements come out in the order of their first occurrences. */
  lemma {:induction false} DedupFirstSeenOrder(s: seq<string>)
    ensures forall i, j :: 0 <= i < j < |Dedup(s)| ==> FirstIndex(s, Dedup(s)[i]) < FirstIndex(s, Dedup(s)[j])
  {
    if s != [] {
      var init, x := s[..|s| - 1], s[|s| - 1];
      assert s == init + [x];
      DedupFirstSeenOrder(init);
      var d := Dedup(init);
      forall i, j | 0 <= i < j < |Dedup(s)| ensures FirstIndex(s, Dedup(s)[i]) < FirstIndex(s, Dedup(s)[j]) {
        var a, b := Dedup(s)[i], Dedup(s)[j];
        assert a in d;
        FirstIndexAppend(init, x, a);
        FirstIndexAppend(init, x, b);
        if j == |d| {
          assert b == x && x !in d;
        } else {
          assert a == d[i] && b == d[j];
        }
      }
    }
  }

  /** The dog names of three visits for Rex, Rex and Max collapse to Rex, Max. */
  lemma DedupExample()
    ensures Dedup(["Rex", "Rex", "Max"]) == ["Rex", "Max"]
  {
    var s := ["Rex", "Rex", "Max"];
    assert s[..2] == ["Rex", "Rex"];
    assert s[..2][..1] == ["Rex"];
    assert s[..2][..1][..0] == [];
  }

  lemma {:induction false} ClientRowsMembers(db: Db, appts: seq<Appointment>, clientId: nat, r: HistoryRow)
    ensures r in ClientRows(db, appts, clientId)
      <==> exists a :: a in appts && a.clientId == clientId && HistoryRowOf(db, a) == Some(r)
  {
    if appts != [] {
      ClientRowsMembers(db, appts[1..], clientId, r);
      assert appts == [appts[0]] + appts[1..];
      if exists a :: a in appts && a.clientId == clientId && HistoryRowOf(db, a) == Some(r) {
        var a :| a in appts && a.clientId == clientId && HistoryRowOf(db, a) == Some(r);
        if a != appts[0] { assert a in appts[1..]; }
      }
    }
  }

  lemma {:induction false} ClientRowsCount(db: Db, appts: seq<Appointment>, clientId: nat)
    ensures |ClientRows(db, appts, clientId)| == VisitCount(db, appts, clientId)
  {
    if appts != [] { ClientRowsCount(db, appts[1..], clientId); }
  }

  /** The history rows are the client's appointments that have a dog row, one row per
      appointment, latest date first; so the first row carries the latest date of them all. */
  lemma HistoryRowsCorrect(db: Db, clientId: nat)
    ensures var rows := HistoryRows(db, clientId);
      && |rows| == VisitCount(db, db.appointments, clientId)
      && Sorted(rows, LaterOrSame)
      && (forall r :: r in rows <==> exists a :: a in db.appointments && a.clientId == clientId && HistoryRowOf(db, a) == Some(r))
      && (forall i :: 0 <= i < |rows| ==> StrLe(rows[i].date, rows[0].date))
  {
    var client := ClientRows(db, db.appointments, clientId);
    var rows := HistoryRows(db, clientId);
    assert TotalPreorder(LaterOrSame) by {
      forall x: HistoryRow, y: HistoryRow ensures LaterOrSame(x, y) || LaterOrSame(y, x) {
        StrLeTotal(x.date, y.date);
      }
      forall x: HistoryRow, y: HistoryRow, z: HistoryRow | LaterOrSame(x, y) && LaterOrSame(y, z)
        ensures LaterOrSame(x, z)
      {
        StrLeTrans(z.date, y.date, x.date);
      }
    }
    SortBySorted(client, LaterOrSame);
    ClientRowsCount(db, db.appointments, clientId);
    assert |rows| == |multiset(rows)| == |multiset(client)| == |client|;
    forall r ensures r in rows <==> r in client {
      assert r in rows <==> r in multiset(rows);
      assert r in client <==> r in multiset(client);
    }
    forall r ensures r in client <==> exists a :: a in db.appointments && a.clientId == clientId && HistoryRowOf(db, a) == Some(r) {
      ClientRowsMembers(db, db.appointments, clientId, r);
    }
    forall i | 0 <= i < |rows| ensures StrLe(rows[i].date, rows[0].date) {
      if i == 0 { StrLeRefl(rows[0].date); } else { assert LaterOrSame(rows[0], rows[i]); }
    }
  }
}
