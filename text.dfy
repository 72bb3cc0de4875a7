/** String helpers that stand for the PHP and SQL string functions the booking code uses. */
module Text {

  predicate IsDigit(c: char) {
    '0' <= c <= '9'
  }

  predicate AllDigits(s: string) {
    forall i :: 0 <= i < |s| ==> IsDigit(s[i])
  }

  /** A character that the stored-phone comparison either removes (space, dash) or keeps as a digit. */
  predicate IsPhoneFormatChar(c: char) {
    IsDigit(c) || c == ' ' || c == '-'
  }

  /** Phone normalisation, `preg_replace('/[^\d]/', '', $phone)`: every character that is not
      an ASCII decimal digit is removed. */
  function Digits(s: string): (r: string)
    ensures |r| <= |s|
    ensures AllDigits(r)
  {
    if s == [] then [] else (if IsDigit(s[0]) then [s[0]] else []) + Digits(s[1..])
  }

  /** SQL `REPLACE(s, c, '')` for a one-character pattern. */
  function RemoveChar(s: string, c: char): (r: string)
    ensures |r| <= |s|
    ensures forall i :: 0 <= i < |r| ==> r[i] != c
    ensures forall x :: x in r ==> x in s
  {
    if s == [] then [] else (if s[0] == c then [] else [s[0]]) + RemoveChar(s[1..], c)
  }

  /** The stored-side phone form, `REPLACE(REPLACE(phone, " ", ""), "-", "")`. */
  function StripSpacesDashes(s: string): (r: string)
    ensures |r| <= |s|
    ensures ' ' !in r && '-' !in r
  {
    RemoveChar(RemoveChar(s, ' '), '-')
  }

  /** PHP `empty()` of a string: the empty string and "0" are empty. */
  predicate PhpEmpty(s: string) {
    s == "" || s == "0"
  }

  /** PHP truthiness of a string, the test `array_filter` and `?:` apply. */
  predicate Truthy(s: string) {
    !PhpEmpty(s)
  }

  /** PHP `substr(s, 0, n)` for n >= 0. */
  function Prefix(s: string, n: nat): (r: string)
    ensures |r| == if |s| <= n then |s| else n
    ensures r <= s
  {
    if |s| <= n then s else s[..n]
  }

  /** The time string written to the database: the `HH:MM` input with `":00"` appended. */
  function StoredTime(t: string): (r: string)
    ensures |r| == |t| + 3 && r[..|t|] == t
  {
    t + ":00"
  }

  /** Lexicographic order on strings; on canonical `YYYY-MM-DD` dates and `HH:MM:SS` times it is
      the chronological order the SQL `BETWEEN` and `ORDER BY` clauses use. */
  predicate StrLe(a: string, b: string) {
    a == [] || (b != [] && (a[0] < b[0] || (a[0] == b[0] && StrLe(a[1..], b[1..]))))
  }

  predicate StrLt(a: string, b: string) {
    StrLe(a, b) && a != b
  }

  // ---------------------------------------------------------------------------
  // Phone normalisation

  /** Normalisation distributes over concatenation: it keeps the digits in their original order. */
  lemma {:induction false} DigitsConcat(a: string, b: string)
    ensures Digits(a + b) == Digits(a) + Digits(b)
  {
    if a == [] {
      assert a + b == b;
    } else {
      var h := if IsDigit(a[0]) then [a[0]] else [];
      assert (a + b)[0] == a[0] && (a + b)[1..] == a[1..] + b;
      assert Digits(a + b) == h + Digits(a[1..] + b);
      DigitsConcat(a[1..], b);
      assert Digits(a) == h + Digits(a[1..]);
    }
  }

  /** A single character survives normalisation exactly when it is a digit. */
  lemma DigitsOfChar(c: char)
    ensures Digits([c]) == if IsDigit(c) then [c] else []
  {
    assert [c][1..] == [];
  }

  /** A string made only of digits is its own normal form, so normalisation is idempotent. */
  lemma {:induction false} DigitsFixesDigitStrings(s: string)
    ensures AllDigits(s) <==> Digits(s) == s
  {
    if s != [] {
      DigitsFixesDigitStrings(s[1..]);
      assert |Digits(s[1..])| <= |s| - 1;
      assert s == [s[0]] + s[1..];
    }
  }

  lemma DigitsIdempotent(s: string)
    ensures Digits(Digits(s)) == Digits(s)
  {
    DigitsFixesDigitStrings(Digits(s));
  }

  /** A leading non-digit before a run of digits is dropped. */
  lemma DigitsDropsLead(c: char, s: string)
    requires !IsDigit(c) && AllDigits(s)
    ensures Digits([c] + s) == s
  {
    assert ([c] + s)[1..] == s;
    DigitsFixesDigitStrings(s);
  }

  // ---------------------------------------------------------------------------
  // Stored-phone form

  lemma {:induction false} RemoveCharConcat(a: string, b: string, c: char)
    ensures RemoveChar(a + b, c) == RemoveChar(a, c) + RemoveChar(b, c)
  {
    if a == [] {
      assert a + b == b;
    } else {
      assert (a + b)[1..] == a[1..] + b;
      RemoveCharConcat(a[1..], b, c);
    }
  }

  lemma StripConcat(a: string, b: string)
    ensures StripSpacesDashes(a + b) == StripSpacesDashes(a) + StripSpacesDashes(b)
  {
    RemoveCharConcat(a, b, ' ');
    RemoveCharConcat(RemoveChar(a, ' '), RemoveChar(b, ' '), '-');
  }

  /** On a phone written with digits, spaces and dashes only, the stored-side form and the
      normalised form coincide. */
  lemma {:induction false} StripIsDigitsOnFormattedPhones(s: string)
    requires forall i :: 0 <= i < |s| ==> IsPhoneFormatChar(s[i])
    ensures StripSpacesDashes(s) == Digits(s)
  {
    if s != [] {
      assert s == [s[0]] + s[1..];
      StripConcat([s[0]], s[1..]);
      DigitsConcat([s[0]], s[1..]);
      DigitsOfChar(s[0]);
      assert [s[0]][1..] == [];
      StripIsDigitsOnFormattedPhones(s[1..]);
    }
  }

  lemma AllDigitsConcat(a: string, b: string)
    ensures AllDigits(a + b) <==> AllDigits(a) && AllDigits(b)
  {
    if AllDigits(a + b) {
      forall i | 0 <= i < |a| ensures IsDigit(a[i]) {
        assert a[i] == (a + b)[i];
      }
      forall i | 0 <= i < |b| ensures IsDigit(b[i]) {
        assert b[i] == (a + b)[i + |a|];
      }
    }
    if AllDigits(a) && AllDigits(b) {
      forall i | 0 <= i < |a + b| ensures IsDigit((a + b)[i]) {
        if i >= |a| { assert (a + b)[i] == b[i - |a|]; }
      }
    }
  }

  /** The stored-side form of a single character: spaces and dashes vanish, anything else stays. */
  lemma StripOneChar(c: char)
    ensures StripSpacesDashes([c]) == if c == ' ' || c == '-' then [] else [c]
  {
    assert [c][1..] == [];
  }

  lemma FormatCharsCons(s: string)
    requires s != []
    ensures (forall i :: 0 <= i < |s| ==> IsPhoneFormatChar(s[i]))
      <==> IsPhoneFormatChar(s[0]) && forall i :: 0 <= i < |s[1..]| ==> IsPhoneFormatChar(s[1..][i])
  {
    if IsPhoneFormatChar(s[0]) && forall i :: 0 <= i < |s[1..]| ==> IsPhoneFormatChar(s[1..][i]) {
      forall i | 0 < i < |s| ensures IsPhoneFormatChar(s[i]) {
        assert s[i] == s[1..][i - 1];
      }
    }
  }

  /** The stored-side form is all digits exactly when the stored phone uses nothing but digits,
      spaces and dashes: any other character (a bracket, a plus sign, a dot) survives it. */
  lemma {:induction false} StripAllDigitsIff(s: string)
    ensures AllDigits(StripSpacesDashes(s)) <==> forall i :: 0 <= i < |s| ==> IsPhoneFormatChar(s[i])
  {
    if s != [] {
      assert s == [s[0]] + s[1..];
      StripConcat([s[0]], s[1..]);
      StripAllDigitsIff(s[1..]);
      var head := StripSpacesDashes([s[0]]);
      StripOneChar(s[0]);
      AllDigitsConcat(head, StripSpacesDashes(s[1..]));
      assert AllDigits(head) <==> IsPhoneFormatChar(s[0]);
      FormatCharsCons(s);
    }
  }

  /** A stored phone containing any character other than a digit, a space or a dash can never
      equal a normalised phone, whatever was entered. */
  lemma StoredPhoneWithOtherCharNeverMatches(stored: string, entered: string, i: nat)
    requires i < |stored| && !IsPhoneFormatChar(stored[i])
    ensures StripSpacesDashes(stored) != Digits(entered)
  {
    StripAllDigitsIff(stored);
  }

  // ---------------------------------------------------------------------------
  // Times

  /** A five-character `HH:MM` time survives the trip into storage (`":00"` appended) and back
      out through `substr(…, 0, 5)`. */
  lemma TimeRoundTrip(t: string)
    requires |t| == 5
    ensures Prefix(StoredTime(t), 5) == t
  {
  }

  // ---------------------------------------------------------------------------
  // Lexicographic order

  lemma {:induction false} StrLeRefl(a: string)
    ensures StrLe(a, a)
  {
    if a != [] { StrLeRefl(a[1..]); }
  }

  lemma {:induction false} StrLeTotal(a: string, b: string)
    ensures StrLe(a, b) || StrLe(b, a)
  {
    if a != [] && b != [] && a[0] == b[0] { StrLeTotal(a[1..], b[1..]); }
  }

  lemma {:induction false} StrLeTrans(a: string, b: string, c: string)
    requires StrLe(a, b) && StrLe(b, c)
    ensures StrLe(a, c)
  {
    if a != [] && b != [] && c != [] && a[0] == b[0] == c[0] {
      StrLeTrans(a[1..], b[1..], c[1..]);
    }
  }

  lemma {:induction false} StrLeAntisym(a: string, b: string)
    requires StrLe(a, b) && StrLe(b, a)
    ensures a == b
  {
    if a != [] && b != [] {
      StrLeAntisym(a[1..], b[1..]);
      assert a == [a[0]] + a[1..] && b == [b[0]] + b[1..];
    }
  }
}
