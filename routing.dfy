/** Request-path handling: how api/appointments.php and api/client-history.php cut the request path
    into segments (`str_replace`, `explode('/', …)`, `array_filter`) and which segment each of them
    takes: the appointment id to delete, or the phone whose history is wanted. */
module Routing {
  import opened Rows
  import opened Text
  import Listing

  const APPOINTMENTS_ROUTE := "/api/appointments"
  const HISTORY_MARKER := "client-history"
  const MISSING_PHONE := "Phone number required"

  /** PHP `str_replace(pat, rep, s)` for a non-empty pattern: every occurrence, scanning left to
      right without overlaps. */
  function ReplaceAll(s: string, pat: string, rep: string): (r: string)
    requires pat != []
    ensures |rep| <= |pat| ==> |r| <= |s|
    decreases |s|
  {
    if |s| < |pat| then s
    else if s[..|pat|] == pat then rep + ReplaceAll(s[|pat|..], pat, rep)
    else [s[0]] + ReplaceAll(s[1..], pat, rep)
  }

  /** `explode('/', s)`: the pieces between slashes, empty pieces included. */
  function Explode(s: string): (parts: seq<string>)
    ensures |parts| >= 1
    ensures forall i :: 0 <= i < |parts| ==> '/' !in parts[i]
  {
    if s == [] then [""]
    else
      var rest := Explode(s[1..]);
      if s[0] == '/' then [""] + rest else [[s[0]] + rest[0]] + rest[1..]
  }

  /** `implode('/', parts)`, the inverse of Explode. */
  function Implode(parts: seq<string>): string
    requires |parts| >= 1
  {
    if |parts| == 1 then parts[0] else parts[0] + "/" + Implode(parts[1..])
  }

  /** `array_filter($parts)`: the truthy pieces under their ORIGINAL positions as keys; "" and "0"
      are dropped and the remaining keys are not renumbered. */
  function Segments(parts: seq<string>): (m: map<int, string>)
    ensures forall k :: k in m <==> 0 <= k < |parts| && Truthy(parts[k])
    ensures forall k :: k in m ==> m[k] == parts[k]
  {
    map k | 0 <= k < |parts| && Truthy(parts[k]) :: parts[k]
  }

  /** The values of `array_filter($parts)` in the order `foreach` visits them (ascending key),
      which is also `array_values(array_filter($parts))`. */
  function Compact(parts: seq<string>): (segs: seq<string>)
    ensures |segs| <= |parts|
    ensures forall i :: 0 <= i < |segs| ==> Truthy(segs[i])
  {
    if parts == [] then []
    else (if Truthy(parts[0]) then [parts[0]] else []) + Compact(parts[1..])
  }

  // ---------------------------------------------------------------------------
  // Splitting

  /** The keys `array_filter($parts)` keeps, in ascending order: the positions of the truthy
      pieces. */
  function TruthyKeys(parts: seq<string>): (ks: seq<int>)
    ensures |ks| == |Compact(parts)|
    ensures forall i :: 0 <= i < |ks| ==> 0 <= ks[i] < |parts|
  {
    if parts == [] then []
    else
      var rest := TruthyKeys(parts[1..]);
      (if Truthy(parts[0]) then [0] else []) + Shift(rest)
  }

  /** Every key moved one position on. */
  function Shift(ks: seq<int>): (r: seq<int>)
    ensures |r| == |ks| && forall i :: 0 <= i < |ks| ==> r[i] == ks[i] + 1
  {
    if ks == [] then [] else [ks[0] + 1] + Shift(ks[1..])
  }

  lemma {:induction false} TruthyKeysValueAt(parts: seq<string>, i: int)
    requires 0 <= i < |TruthyKeys(parts)|
    ensures Compact(parts)[i] == parts[TruthyKeys(parts)[i]]
  {
    var rest, c := TruthyKeys(parts[1..]), Compact(parts[1..]);
    var sh := Shift(rest);
    if Truthy(parts[0]) {
      assert TruthyKeys(parts) == [0] + sh && Compact(parts) == [parts[0]] + c;
      if i > 0 {
        TruthyKeysValueAt(parts[1..], i - 1);
        assert parts[1..][rest[i - 1]] == parts[rest[i - 1] + 1];
      }
    } else {
      assert TruthyKeys(parts) == sh && Compact(parts) == c;
      TruthyKeysValueAt(parts[1..], i);
      assert parts[1..][rest[i]] == parts[rest[i] + 1];
    }
  }

  lemma TruthyKeysValues(parts: seq<string>)
    ensures forall i :: 0 <= i < |TruthyKeys(parts)| ==> Compact(parts)[i] == parts[TruthyKeys(parts)[i]]
  {
    forall i | 0 <= i < |TruthyKeys(parts)| ensures Compact(parts)[i] == parts[TruthyKeys(parts)[i]] {
      TruthyKeysValueAt(parts, i);
    }
  }

  lemma {:induction false} TruthyKeysIncreasing(parts: seq<string>)
    ensures forall i, j :: 0 <= i < j < |TruthyKeys(parts)| ==> TruthyKeys(parts)[i] < TruthyKeys(parts)[j]
  {
    if parts != [] {
      TruthyKeysIncreasing(parts[1..]);
    }
  }

  lemma {:induction false} TruthyKeysSound(parts: seq<string>)
    ensures forall k :: k in TruthyKeys(parts) ==> 0 <= k < |parts| && Truthy(parts[k])
  {
    if parts != [] {
      TruthyKeysSound(parts[1..]);
      var rest := TruthyKeys(parts[1..]);
      var sh := Shift(rest);
      forall k | k in sh ensures 1 <= k < |parts| && Truthy(parts[k]) {
        var i :| 0 <= i < |sh| && sh[i] == k;
        assert rest[i] in rest;
        assert parts[1..][k - 1] == parts[k];
      }
      if Truthy(parts[0]) {
        assert TruthyKeys(parts) == [0] + sh;
      } else {
        assert TruthyKeys(parts) == sh;
      }
    }
  }

  lemma {:induction false} TruthyKeysComplete(parts: seq<string>)
    ensures forall k :: 0 <= k < |parts| && Truthy(parts[k]) ==> k in TruthyKeys(parts)
  {
    if parts != [] {
      TruthyKeysComplete(parts[1..]);
      var rest := TruthyKeys(parts[1..]);
      var sh := Shift(rest);
      forall k | 1 <= k < |parts| && Truthy(parts[k]) ensures k in sh {
        assert parts[1..][k - 1] == parts[k];
        var i :| 0 <= i < |rest| && rest[i] == k - 1;
        assert sh[i] == k;
      }
      if Truthy(parts[0]) {
        assert TruthyKeys(parts) == [0] + sh;
      } else {
        assert TruthyKeys(parts) == sh;
      }
    }
  }

  /** Compact lists the values of `array_filter($parts)` by ascending key, which is the order in
      which `foreach` visits them: its keys are exactly the truthy positions, increasing, and the
      i-th value is the one stored under the i-th key. */
  lemma CompactListsSegments(parts: seq<string>)
    ensures var ks := TruthyKeys(parts);
      && |ks| == |Compact(parts)|
      && (forall i, j :: 0 <= i < j < |ks| ==> ks[i] < ks[j])
      && (forall k :: k in Segments(parts) <==> k in ks)
      && (forall i :: 0 <= i < |ks| ==> ks[i] in Segments(parts) && Compact(parts)[i] == Segments(parts)[ks[i]])
  {
    TruthyKeysValues(parts);
    TruthyKeysIncreasing(parts);
    TruthyKeysSound(parts);
    TruthyKeysComplete(parts);
    var ks := TruthyKeys(parts);
    forall i | 0 <= i < |ks| ensures ks[i] in Segments(parts) {
      assert ks[i] in ks;
    }
  }

  lemma {:induction false} ExplodeImplode(s: string)
    ensures Implode(Explode(s)) == s
  {
    if s != [] {
      ExplodeImplode(s[1..]);
      var rest := Explode(s[1..]);
      if s[0] == '/' {
        assert Explode(s)[1..] == rest;
        assert s == "/" + s[1..];
      } else if |rest| == 1 {
        assert s == [s[0]] + s[1..];
      } else {
        var e := Explode(s);
        assert e[0] == [s[0]] + rest[0] && e[1..] == rest[1..];
        assert s == [s[0]] + s[1..];
      }
    }
  }

  lemma {:induction false} ExplodeSlashFree(s: string)
    requires '/' !in s
    ensures Explode(s) == [s]
  {
    if s != [] {
      ExplodeSlashFree(s[1..]);
      assert s == [s[0]] + s[1..];
    }
  }

  lemma {:induction false} ExplodeAround(a: string, b: string)
    ensures Explode(a + "/" + b) == Explode(a) + Explode(b)
  {
    if a == [] {
      assert a + "/" + b == "/" + b;
      assert ("/" + b)[1..] == b;
    } else {
      assert (a + "/" + b)[1..] == a[1..] + "/" + b;
      ExplodeAround(a[1..], b);
    }
  }

  lemma {:induction false} ReplaceAllAbsent(s: string, pat: string, rep: string)
    requires pat != [] && pat[0] == '/' && '/' !in s
    ensures ReplaceAll(s, pat, rep) == s
  {
    if |s| >= |pat| {
      assert s[..|pat|] != pat by { assert s[0] != '/'; }
      ReplaceAllAbsent(s[1..], pat, rep);
      assert s == [s[0]] + s[1..];
    }
  }

  /** An occurrence at the very front is replaced, and the scan goes on after it. */
  lemma ReplaceAllLeading(pat: string, rest: string, rep: string)
    requires pat != []
    ensures ReplaceAll(pat + rest, pat, rep) == rep + ReplaceAll(rest, pat, rep)
  {
    assert (pat + rest)[..|pat|] == pat;
    assert (pat + rest)[|pat|..] == rest;
  }

  /** A slash followed by a slash-free id holds no occurrence of the route. */
  lemma SlashIdHoldsNoRoute(id: string)
    requires '/' !in id
    ensures ReplaceAll("/" + id, APPOINTMENTS_ROUTE, "") == "/" + id
  {
    var pat := APPOINTMENTS_ROUTE;
    var t := "/" + id;
    if |t| >= |pat| {
      assert t[..|pat|] != pat by {
        assert pat[4] == '/';
        assert t[4] == id[3];
      }
      assert t[1..] == id;
      ReplaceAllAbsent(id, pat, "");
      assert t == [t[0]] + t[1..];
    }
  }

  /** What handleDelete's path becomes for `DELETE /api/appointments/{id}`: the route prefix is
      removed and the slash before the id stays. */
  lemma StripRouteFromDeletePath(id: string)
    requires '/' !in id
    ensures ReplaceAll(APPOINTMENTS_ROUTE + "/" + id, APPOINTMENTS_ROUTE, "") == "/" + id
  {
    ReplaceAllLeading(APPOINTMENTS_ROUTE, "/" + id, "");
    SlashIdHoldsNoRoute(id);
    assert APPOINTMENTS_ROUTE + "/" + id == APPOINTMENTS_ROUTE + ("/" + id);
  }

  // ---------------------------------------------------------------------------
  // handleDelete's id

  /** `$segments[0]` as handleDelete reads it: the entry under key 0, if any. */
  function SegmentZero(segments: map<int, string>): Option<string> {
    if 0 in segments then Some(segments[0]) else None
  }

  /** The id segment of a delete request as api/appointments.php computes it. */
  function DeleteSegmentAsWritten(path: string): (r: Option<string>)
    ensures r.Some? ==> Truthy(r.value) && '/' !in r.value
  {
    SegmentZero(Segments(Explode(ReplaceAll(path, APPOINTMENTS_ROUTE, ""))))
  }

  /** The request path always starts with a slash, so whatever follows the route does not sit under
      key 0: for `DELETE /api/appointments/{id}` the id is stored under key 1, key 0 is absent, and
      the request is answered "Appointment ID required". */
  lemma DeleteSegmentAsWrittenLosesId(id: string)
    requires '/' !in id && Truthy(id)
    ensures Segments(Explode(ReplaceAll(APPOINTMENTS_ROUTE + "/" + id, APPOINTMENTS_ROUTE, ""))) == map[1 := id]
    ensures DeleteSegmentAsWritten(APPOINTMENTS_ROUTE + "/" + id) == None
  {
    StripRouteFromDeletePath(id);
    ExplodeAround("", id);
    ExplodeSlashFree(id);
    assert "" + "/" + id == "/" + id;
    assert Explode("/" + id) == ["", id];
  }

  /** The id segment the route is meant to yield: the first segment that survives `array_filter`
      (`reset($segments)`), whatever its key. */
  function DeleteSegment(path: string): (r: Option<string>)
    ensures r.Some? ==> Truthy(r.value)
  {
    var segs := Compact(Explode(ReplaceAll(path, APPOINTMENTS_ROUTE, "")));
    if segs == [] then None else Some(segs[0])
  }

  /** With the first surviving segment, `DELETE /api/appointments/{id}` yields the id. */
  lemma DeleteSegmentFindsId(id: string)
    requires '/' !in id && Truthy(id)
    ensures DeleteSegment(APPOINTMENTS_ROUTE + "/" + id) == Some(id)
  {
    StripRouteFromDeletePath(id);
    ExplodeAround("", id);
    ExplodeSlashFree(id);
    assert "" + "/" + id == "/" + id;
    assert Explode("/" + id) == ["", id];
    assert ["", id][1..] == [id];
    assert Compact(["", id]) == Compact([id]);
  }

  /** A slash-free stretch before the rest cannot hold a pattern that starts with a slash. */
  lemma {:induction false} ReplaceAllSlashFreePrefix(x: string, rest: string, pat: string, rep: string)
    requires pat != [] && pat[0] == '/' && '/' !in x
    ensures ReplaceAll(x + rest, pat, rep) == x + ReplaceAll(rest, pat, rep)
  {
    var s := x + rest;
    if x == [] {
      assert s == rest;
    } else {
      assert s[0] == x[0] && s[1..] == x[1..] + rest;
      ReplaceAllSlashFreePrefix(x[1..], rest, pat, rep);
      if |s| < |pat| {
        assert ReplaceAll(rest, pat, rep) == rest;
        assert ReplaceAll(x[1..] + rest, pat, rep) == x[1..] + rest;
        assert s == x + rest;
      } else {
        assert s[..|pat|] != pat by { assert s[..|pat|][0] != '/'; }
        assert ReplaceAll(s, pat, rep) == [x[0]] + ReplaceAll(x[1..] + rest, pat, rep);
        assert x == [x[0]] + x[1..];
      }
    }
  }

  /** The page addresses this script by its file name, `/api/appointments.php`. A delete sent in
      that form, `/api/appointments.php/{id}`, fares the same under both readings: `.php` is taken
      as the id, and it names no appointment. */
  lemma ScriptPathReadsSuffix(id: string)
    requires '/' !in id && Truthy(id)
    ensures DeleteSegmentAsWritten(APPOINTMENTS_ROUTE + ".php/" + id) == Some(".php")
    ensures DeleteSegment(APPOINTMENTS_ROUTE + ".php/" + id) == Some(".php")
    ensures Listing.ParseId(".php").None?
  {
    var tail := ".php/" + id;
    ReplaceAllLeading(APPOINTMENTS_ROUTE, tail, "");
    assert APPOINTMENTS_ROUTE + ".php/" + id == APPOINTMENTS_ROUTE + tail;
    ReplaceAllSlashFreePrefix(".php", "/" + id, APPOINTMENTS_ROUTE, "");
    SlashIdHoldsNoRoute(id);
    assert tail == ".php" + ("/" + id);
    ExplodeAround(".php", id);
    ExplodeSlashFree(".php");
    ExplodeSlashFree(id);
    assert ".php" + "/" + id == tail;
    assert Explode(tail) == [".php", id];
    CompactCons(".php", [id]);
    assert [".php"] + [id] == [".php", id];
    assert ReplaceAll(APPOINTMENTS_ROUTE + ".php/" + id, APPOINTMENTS_ROUTE, "") == tail;
    assert Segments([".php", id])[0] == ".php";
    assert Compact([".php", id])[0] == ".php";
    assert !IsDigit(".php"[0]);
  }

  // ---------------------------------------------------------------------------
  // The phone segment of api/client-history.php

  /** The segment right after the first segment equal to `client-history`. */
  function PhoneAfterMarker(segs: seq<string>): (r: Option<string>)
    ensures r.Some? ==> HISTORY_MARKER in segs && r.value in segs
  {
    if |segs| < 2 then None
    else if segs[0] == HISTORY_MARKER then Some(segs[1])
    else PhoneAfterMarker(segs[1..])
  }

  /** The phone is found exactly when some `client-history` segment is followed by another segment,
      and it is the segment after the first `client-history`. */
  lemma {:induction false} PhoneAfterMarkerSpec(segs: seq<string>)
    ensures PhoneAfterMarker(segs).Some? <==> exists i :: 0 <= i < |segs| - 1 && segs[i] == HISTORY_MARKER
    ensures forall i :: (0 <= i < |segs| - 1 && segs[i] == HISTORY_MARKER &&
                         forall j :: 0 <= j < i ==> segs[j] != HISTORY_MARKER)
                        ==> PhoneAfterMarker(segs) == Some(segs[i + 1])
  {
    if |segs| >= 2 {
      PhoneAfterMarkerSpec(segs[1..]);
      if segs[0] != HISTORY_MARKER {
        forall i | 0 < i < |segs| - 1 && segs[i] == HISTORY_MARKER
          ensures exists k :: 0 <= k < |segs[1..]| - 1 && segs[1..][k] == HISTORY_MARKER
        {
          assert segs[1..][i - 1] == HISTORY_MARKER;
        }
        forall i | 0 <= i < |segs| - 1 && segs[i] == HISTORY_MARKER &&
          (forall j :: 0 <= j < i ==> segs[j] != HISTORY_MARKER)
          ensures PhoneAfterMarker(segs) == Some(segs[i + 1])
        {
          assert i > 0;
          assert segs[1..][i - 1] == HISTORY_MARKER;
          assert forall j :: 0 <= j < i - 1 ==> segs[1..][j] == segs[j + 1];
        }
      }
    }
  }

  lemma CompactCons(x: string, rest: seq<string>)
    ensures Compact([x] + rest) == (if Truthy(x) then [x] else []) + Compact(rest)
  {
    assert ([x] + rest)[1..] == rest;
  }

  /** The segments of `/api/{dir}/{phone}` for slash-free, truthy pieces. */
  lemma ThreeSegments(dir: string, phone: string)
    requires '/' !in dir && '/' !in phone && Truthy(dir) && Truthy(phone)
    ensures Compact(Explode("/api/" + dir + "/" + phone)) == ["api", dir, phone]
  {
    ExplodeSlashFree(phone);
    ExplodeSlashFree(dir);
    ExplodeSlashFree("api");
    ExplodeAround(dir, phone);
    ExplodeAround("api", dir + "/" + phone);
    ExplodeAround("", "api" + "/" + (dir + "/" + phone));
    assert "/api/" + dir + "/" + phone == "" + "/" + ("api" + "/" + (dir + "/" + phone));
    assert Explode("/api/" + dir + "/" + phone) == [""] + (["api"] + ([dir] + [phone]));
    CompactCons(phone, []);
    CompactCons(dir, [phone]);
    assert [dir] + [phone] == [dir, phone];
    CompactCons("api", [dir, phone]);
    assert ["api"] + [dir, phone] == ["api", dir, phone];
    CompactCons("", ["api", dir, phone]);
  }

  /** `GET /api/client-history/{phone}` yields the phone. */
  lemma HistoryRouteFindsPhone(phone: string)
    requires '/' !in phone && Truthy(phone)
    ensures PhoneAfterMarker(Compact(Explode("/api/" + HISTORY_MARKER + "/" + phone))) == Some(phone)
  {
    ThreeSegments(HISTORY_MARKER, phone);
    assert ["api", HISTORY_MARKER, phone][1..] == [HISTORY_MARKER, phone];
  }

  /** The script's own file name, which the booking form puts in the path. */
  const HISTORY_SCRIPT := "client-history.php"

  /** The booking form asks for `/api/client-history.php/{phone}`; there no segment equals
      `client-history`, so such a request is always answered 400. */
  lemma ScriptNamePathFindsNoPhone(phone: string)
    requires '/' !in phone && Truthy(phone)
    ensures PhoneAfterMarker(Compact(Explode("/api/" + HISTORY_SCRIPT + "/" + phone))) == None
  {
    ThreeSegments(HISTORY_SCRIPT, phone);
    var segs := ["api", HISTORY_SCRIPT, phone];
    assert segs[0] != HISTORY_MARKER by { assert |segs[0]| != |HISTORY_MARKER|; }
    assert segs[1] != HISTORY_MARKER by { assert |segs[1]| != |HISTORY_MARKER|; }
    assert segs[1..] == [HISTORY_SCRIPT, phone];
    assert segs[1..][1..] == [phone];
    assert PhoneAfterMarker(segs) == PhoneAfterMarker(segs[1..]);
    assert PhoneAfterMarker(segs[1..]) == PhoneAfterMarker([phone]);
  }

  /** The scan of api/client-history.php over the segments of the request path: the segment after
      `client-history`, or a 400 answer when there is none. */
  method PhoneSegment(path: string) returns (r: Response<string>)
    ensures var found := PhoneAfterMarker(Compact(Explode(path)));
      && (found.Some? ==> r == Ok(found.value))
      && (found.None? ==> r == Error(400, MISSING_PHONE))
    ensures r.Ok? ==> Truthy(r.value)
  {
    var segs := Compact(Explode(path));
    var phone := "";
    var foundMarker := false;
    var i := 0;
    while i < |segs|
      invariant 0 <= i <= |segs|
      invariant !foundMarker ==> phone == "" && PhoneAfterMarker(segs) == PhoneAfterMarker(segs[i..])
      invariant foundMarker ==> 1 <= i && segs[i - 1] == HISTORY_MARKER
      invariant foundMarker ==> PhoneAfterMarker(segs) == PhoneAfterMarker(segs[i - 1..])
      invariant foundMarker ==> phone == ""
    {
      if foundMarker {
        phone := segs[i];
        break;
      }
      if segs[i] == HISTORY_MARKER {
        foundMarker := true;
      }
      i := i + 1;
    }
    if PhpEmpty(phone) {
      return Error(400, MISSING_PHONE);
    }
    return Ok(phone);
  }
}
