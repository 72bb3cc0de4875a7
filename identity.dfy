/** Identity resolution on booking (api/appointments.php, findOrCreateClient and findOrCreateDog),
    stated on table values: what the tables, the returned id and the auto-increment counter are
    after one find-or-insert. The class in module Store performs these updates in place. */
module Identity {
  import opened Rows
  import opened Text

  /** Fewest digits a normalised phone needs before it is matched against stored clients. */
  const MIN_MATCH_DIGITS: nat := 9

  /** Index of the first row satisfying `p`. A `fetchOne` without `ORDER BY` returns some
      matching row; the model fixes it to the first one in table order. */
  function FirstWhere<T>(s: seq<T>, p: T -> bool): (k: Option<nat>)
    ensures k.Some? ==> k.value < |s| && p(s[k.value]) && forall j :: 0 <= j < k.value ==> !p(s[j])
    ensures k.None? ==> forall j :: 0 <= j < |s| ==> !p(s[j])
  {
    if s == [] then None
    else if p(s[0]) then Some(0)
    else match FirstWhere(s[1..], p)
      case None => None
      case Some(k) => Some(k + 1)
  }

  /** The comparison `REPLACE(REPLACE(phone, " ", ""), "-", "") = ?`; a NULL phone matches nothing. */
  predicate PhoneMatches(c: Client, formatted: string) {
    c.phone.Some? && StripSpacesDashes(c.phone.value) == formatted
  }

  function FirstPhoneMatch(clients: seq<Client>, formatted: string): (k: Option<nat>)
    ensures k.Some? ==> k.value < |clients| && PhoneMatches(clients[k.value], formatted)
    ensures k.Some? ==> forall j :: 0 <= j < k.value ==> !PhoneMatches(clients[j], formatted)
    ensures k.None? ==> forall j :: 0 <= j < |clients| ==> !PhoneMatches(clients[j], formatted)
  {
    FirstWhere(clients, c => PhoneMatches(c, formatted))
  }

  /** The client row a booking would reuse: only a phone with enough digits is looked up. */
  function ClientMatch(clients: seq<Client>, phone: string): (k: Option<nat>)
    ensures k.Some? <==> |Digits(phone)| >= MIN_MATCH_DIGITS
                         && exists j :: 0 <= j < |clients| && PhoneMatches(clients[j], Digits(phone))
    ensures k.Some? ==> k.value < |clients| && PhoneMatches(clients[k.value], Digits(phone))
                        && forall j :: 0 <= j < k.value ==> !PhoneMatches(clients[j], Digits(phone))
  {
    var formatted := Digits(phone);
    if |formatted| >= MIN_MATCH_DIGITS then FirstPhoneMatch(clients, formatted) else None
  }

  /** A table after a find-or-insert, the id found or inserted, and the auto-increment counter. */
  datatype Resolved<T> = Resolved(table: seq<T>, id: nat, nextId: nat)

  predicate HasClientId(clients: seq<Client>, id: nat) {
    exists k :: 0 <= k < |clients| && clients[k].id == id
  }

  /** findOrCreateClient: reuse the client whose stored phone matches (renaming it when a name is
      given), otherwise insert a client with the phone exactly as entered. */
  function ResolveClient(clients: seq<Client>, nextId: nat, name: string, phone: string): (r: Resolved<Client>)
    ensures HasClientId(r.table, r.id)
    ensures exists k :: 0 <= k < |r.table| && r.table[k].id == r.id && (Truthy(name) ==> r.table[k].name == name) &&
                        (ClientMatch(clients, phone).None? ==> r.table[k].phone == Some(phone))
    ensures |clients| <= |r.table| <= |clients| + 1
    ensures forall k :: 0 <= k < |clients| ==> r.table[k].id == clients[k].id && r.table[k].phone == clients[k].phone
    ensures |r.table| == |clients| <==> ClientMatch(clients, phone).Some?
    ensures r.nextId == nextId <==> ClientMatch(clients, phone).Some?
    ensures r.nextId == nextId || r.nextId == nextId + 1
  {
    match ClientMatch(clients, phone)
    case Some(k) =>
      var table := if PhpEmpty(name) then clients else clients[k := clients[k].(name := name)];
      assert table[k].id == clients[k].id;
      Resolved(table, clients[k].id, nextId)
    case None =>
      var table := clients + [Client(nextId, name, Some(phone))];
      assert table[|clients|].id == nextId;
      Resolved(table, nextId, nextId + 1)
  }

  /** Without a matching stored phone, exactly one client is appended under the counter's value,
      holding the given name and the phone as entered, and the counter advances. */
  lemma ResolveClientInsertsOnNoMatch(clients: seq<Client>, nextId: nat, name: string, phone: string)
    requires ClientMatch(clients, phone).None?
    ensures ResolveClient(clients, nextId, name, phone)
      == Resolved(clients + [Client(nextId, name, Some(phone))], nextId, nextId + 1)
  {
  }

  /** With fewer than nine digits the phone is never looked up: exactly one client is appended,
      holding the given name and the phone as entered, and its fresh id is returned. */
  lemma ResolveClientShortPhoneInserts(clients: seq<Client>, nextId: nat, name: string, phone: string)
    requires |Digits(phone)| < MIN_MATCH_DIGITS
    ensures var r := ResolveClient(clients, nextId, name, phone);
      r.table == clients + [Client(nextId, name, Some(phone))] && r.id == nextId && r.nextId == nextId + 1
  {
  }

  /** Two identical bookings with a short phone create two clients with distinct ids. */
  lemma ResolveClientShortPhoneTwice(clients: seq<Client>, nextId: nat, name: string, phone: string)
    requires |Digits(phone)| < MIN_MATCH_DIGITS
    ensures var r1 := ResolveClient(clients, nextId, name, phone);
      var r2 := ResolveClient(r1.table, r1.nextId, name, phone);
      r1.id != r2.id && |r2.table| == |clients| + 2
  {
    ResolveClientShortPhoneInserts(clients, nextId, name, phone);
    ResolveClientShortPhoneInserts(clients + [Client(nextId, name, Some(phone))], nextId + 1, name, phone);
  }

  /** A phone with nine or more digits whose stored form matches a client: that client's id is
      returned, nothing is inserted, its name becomes the given one exactly when that name is
      non-empty, and every other row is unchanged. */
  lemma ResolveClientReusesMatch(clients: seq<Client>, nextId: nat, name: string, phone: string, k: nat)
    requires ClientMatch(clients, phone) == Some(k)
    ensures var r := ResolveClient(clients, nextId, name, phone);
      && k < |clients|
      && r.id == clients[k].id && r.nextId == nextId && |r.table| == |clients|
      && r.table[k] == clients[k].(name := if PhpEmpty(name) then clients[k].name else name)
      && (forall j :: 0 <= j < |clients| && j != k ==> r.table[j] == clients[j])
  {
  }

  /** A stored phone holding any character other than digits, spaces and dashes (a bracket, a plus
      sign, a dot) never matches, so when every stored phone is like that, or NULL, a new client is
      inserted even if its digits are those of the entered phone. */
  lemma ResolveClientIgnoresOtherFormats(clients: seq<Client>, nextId: nat, name: string, phone: string)
    requires forall j :: 0 <= j < |clients| ==>
      (clients[j].phone.None? ||
       exists i :: 0 <= i < |clients[j].phone.value| && !IsPhoneFormatChar(clients[j].phone.value[i]))
    ensures var r := ResolveClient(clients, nextId, name, phone);
      r.table == clients + [Client(nextId, name, Some(phone))] && r.id == nextId
  {
    if |Digits(phone)| >= MIN_MATCH_DIGITS {
      forall j | 0 <= j < |clients| ensures !PhoneMatches(clients[j], Digits(phone)) {
        if clients[j].phone.Some? {
          var i :| 0 <= i < |clients[j].phone.value| && !IsPhoneFormatChar(clients[j].phone.value[i]);
          StoredPhoneWithOtherCharNeverMatches(clients[j].phone.value, phone, i);
        }
      }
    }
  }

  /** For a phone written with digits, spaces and dashes only and holding at least nine digits,
      booking twice resolves to the same client both times, inserts nothing the second time, and
      leaves the name of the second booking on the client when it is non-empty. */
  lemma {:induction false} ResolveClientIdempotent(clients: seq<Client>, nextId: nat, name1: string, name2: string, phone: string)
    requires |Digits(phone)| >= MIN_MATCH_DIGITS
    requires forall i :: 0 <= i < |phone| ==> IsPhoneFormatChar(phone[i])
    ensures var r1 := ResolveClient(clients, nextId, name1, phone);
      var r2 := ResolveClient(r1.table, r1.nextId, name2, phone);
      && r2.id == r1.id && r2.nextId == r1.nextId && |r2.table| == |r1.table|
      && ClientMatch(r1.table, phone).Some?
      && var k := ClientMatch(r1.table, phone).value;
         r2.table[k].id == r2.id && (Truthy(name2) ==> r2.table[k].name == name2)
  {
    var f := Digits(phone);
    var r1 := ResolveClient(clients, nextId, name1, phone);
    match ClientMatch(clients, phone)
    case Some(k) =>
      ResolveClientReusesMatch(clients, nextId, name1, phone, k);
      assert PhoneMatches(r1.table[k], f);
      assert forall j :: 0 <= j < k ==> r1.table[j] == clients[j];
      ResolveClientReusesMatch(r1.table, r1.nextId, name2, phone, k);
    case None =>
      var n := |clients|;
      StripIsDigitsOnFormattedPhones(phone);
      assert PhoneMatches(r1.table[n], f);
      assert forall j :: 0 <= j < n ==> r1.table[j] == clients[j];
      ResolveClientReusesMatch(r1.table, r1.nextId, name2, phone, n);
  }

  /** The idempotence above needs the phone's formatting. A phone holding any other character
      (a plus sign, a bracket, a dot) is stored as entered, and its stored form keeps that
      character, so when no client matched the first booking, the second booking of the very same
      phone inserts a second client with the same phone under another id. */
  lemma ResolveClientDuplicatesOtherFormats(clients: seq<Client>, nextId: nat, name: string, phone: string, i: nat)
    requires i < |phone| && !IsPhoneFormatChar(phone[i])
    requires ClientMatch(clients, phone).None?
    ensures var r1 := ResolveClient(clients, nextId, name, phone);
      var r2 := ResolveClient(r1.table, r1.nextId, name, phone);
      && r2.table == clients + [Client(nextId, name, Some(phone)), Client(nextId + 1, name, Some(phone))]
      && r1.id == nextId && r2.id == nextId + 1
  {
    var r1 := ResolveClient(clients, nextId, name, phone);
    if |Digits(phone)| >= MIN_MATCH_DIGITS {
      StoredPhoneWithOtherCharNeverMatches(phone, phone, i);
      assert !PhoneMatches(r1.table[|clients|], Digits(phone));
      assert forall j :: 0 <= j < |clients| ==> r1.table[j] == clients[j];
    }
    assert r1.table + [Client(nextId + 1, name, Some(phone))]
        == clients + [Client(nextId, name, Some(phone)), Client(nextId + 1, name, Some(phone))];
  }

  lemma DigitsOfFourPieces(a: string, b: string, c: string, d: string)
    ensures Digits(a + b + c + d) == Digits(a) + Digits(b) + Digits(c) + Digits(d)
  {
    DigitsConcat(a + b + c, d);
    DigitsConcat(a + b, c);
    DigitsConcat(a, b);
  }

  lemma PlusSignPhoneDigits(phone: string)
    requires phone == "+48 600 700 800"
    ensures |Digits(phone)| == 11
  {
    var a, b, c, d := ['+'] + "48", [' '] + "600", [' '] + "700", [' '] + "800";
    assert a + b + c + d == phone;
    DigitsDropsLead('+', "48");
    DigitsDropsLead(' ', "600");
    DigitsDropsLead(' ', "700");
    DigitsDropsLead(' ', "800");
    DigitsOfFourPieces(a, b, c, d);
  }

  /** An instance: "+48 600 700 800" has eleven digits, yet booking it twice on an empty client
      table creates clients 1 and 2. */
  lemma ResolveClientPlusSignExample(phone: string)
    requires phone == "+48 600 700 800"
    ensures |Digits(phone)| >= MIN_MATCH_DIGITS
    ensures var r1 := ResolveClient([], 1, "Anna", phone);
      var r2 := ResolveClient(r1.table, r1.nextId, "Anna", phone);
      r1.id == 1 && r2.id == 2
  {
    PlusSignPhoneDigits(phone);
    assert phone[0] == '+';
    ResolveClientDuplicatesOtherFormats([], 1, "Anna", phone, 0);
  }

  // ---------------------------------------------------------------------------
  // Dogs

  predicate DogIs(d: Dog, clientId: nat, name: string) {
    d.clientId == clientId && d.name == name
  }

  /** `SELECT id FROM dogs WHERE client_id = ? AND name = ?`. */
  function FirstDog(dogs: seq<Dog>, clientId: nat, name: string): (k: Option<nat>)
    ensures k.Some? ==> k.value < |dogs| && DogIs(dogs[k.value], clientId, name)
    ensures k.None? ==> forall j :: 0 <= j < |dogs| ==> !DogIs(dogs[j], clientId, name)
    ensures k.Some? ==> forall j :: 0 <= j < k.value ==> !DogIs(dogs[j], clientId, name)
  {
    FirstWhere(dogs, d => DogIs(d, clientId, name))
  }

  /** findOrCreateDog: reuse the dog with this owner and name, otherwise append one with no breed. */
  function ResolveDog(dogs: seq<Dog>, nextId: nat, clientId: nat, name: string): (r: Resolved<Dog>)
    ensures |dogs| <= |r.table| && r.table[..|dogs|] == dogs
    ensures exists k :: 0 <= k < |r.table| && r.table[k].id == r.id && DogIs(r.table[k], clientId, name)
  {
    match FirstDog(dogs, clientId, name)
    case Some(k) =>
      Resolved(dogs, dogs[k].id, nextId)
    case None =>
      var table := dogs + [Dog(nextId, clientId, name, None)];
      assert DogIs(table[|dogs|], clientId, name);
      Resolved(table, nextId, nextId + 1)
  }

  /** A dog with this owner and name already exists: its id is returned and nothing changes;
      otherwise exactly one dog with that owner and name and no breed is appended under a fresh id. */
  lemma ResolveDogCases(dogs: seq<Dog>, nextId: nat, clientId: nat, name: string)
    ensures var r := ResolveDog(dogs, nextId, clientId, name);
      (exists j :: 0 <= j < |dogs| && DogIs(dogs[j], clientId, name))
      ==> r.table == dogs && r.nextId == nextId && r.id == dogs[FirstDog(dogs, clientId, name).value].id
    ensures var r := ResolveDog(dogs, nextId, clientId, name);
      (forall j :: 0 <= j < |dogs| ==> !DogIs(dogs[j], clientId, name))
      ==> r.table == dogs + [Dog(nextId, clientId, name, None)] && r.id == nextId && r.nextId == nextId + 1
  {
  }

  /** Booking the same dog twice gives the same id, and the second booking changes nothing. */
  lemma {:induction false} ResolveDogIdempotent(dogs: seq<Dog>, nextId: nat, clientId: nat, name: string)
    ensures var r1 := ResolveDog(dogs, nextId, clientId, name);
      var r2 := ResolveDog(r1.table, r1.nextId, clientId, name);
      r2 == Resolved(r1.table, r1.id, r1.nextId)
  {
    var r1 := ResolveDog(dogs, nextId, clientId, name);
    match FirstDog(dogs, clientId, name)
    case Some(k) =>
    case None =>
      var n := |dogs|;
      assert DogIs(r1.table[n], clientId, name);
      assert forall j :: 0 <= j < n ==> r1.table[j] == dogs[j];
  }

  // ---------------------------------------------------------------------------
  // Employees

  /** `SELECT id FROM employees WHERE name = ?`: active and inactive employees alike. */
  function EmployeeNamed(employees: seq<Employee>, name: string): (e: Option<nat>)
    ensures e.Some? ==> e.value < |employees| && employees[e.value].name == name
    ensures e.None? ==> forall j :: 0 <= j < |employees| ==> employees[j].name != name
  {
    FirstWhere(employees, (x: Employee) => x.name == name)
  }
}
