/** The student password policy of routes/auth.js and routes/admin.js: the
    secret derived at registration, the secret derived by an admin reset, the
    tolerant normaliser applied to login input, and the password hash. */
module Password {
  import opened Common
  import opened Text

  // ---------------------------------------------------------------------------
  // Password hashing
  // ---------------------------------------------------------------------------

  /** A bcrypt digest. Salting and the cost factor are abstracted away: the model
      hash is deterministic and injective, so a digest verifies exactly the
      secret it was made from. */
  datatype Digest = BcryptDigest(secret: string)

  function Hash(secret: string): Digest
  {
    BcryptDigest(secret)
  }

  /** bcrypt.compare: true exactly when the digest was made from this secret. */
  predicate Verify(secret: string, digest: Digest)
  {
    digest == Hash(secret)
  }

  lemma VerifyAcceptsOnlyItsSecret(secret: string, other: string)
    ensures Verify(secret, Hash(secret))
    ensures other != secret ==> !Verify(other, Hash(secret))
  {
  }

  // ---------------------------------------------------------------------------
  // Login-input normaliser (routes/auth.js:106-123)
  // ---------------------------------------------------------------------------

  predicate IsSecretChar(c: char) {
    IsDigit(c) || c == '/'
  }

  /** Every character is a digit or a slash. */
  predicate IsSecretText(s: string) {
    forall c :: c in s ==> IsSecretChar(c)
  }

  /** password.replace(/[^0-9\/]/g, ''): drop every character other than digits and '/'. */
  function Clean(s: string): (r: string)
    ensures IsSecretText(r)
    ensures |r| <= |s|
    ensures IsSecretText(s) ==> r == s
    ensures forall c :: c in r <==> c in s && IsSecretChar(c)
    ensures |s| == 1 ==> r == if IsSecretChar(s[0]) then s else ""
  {
    if |s| == 0 then ""
    else (if IsSecretChar(s[0]) then [s[0]] else "") + Clean(s[1..])
  }

  /** Cleaning works character by character: with the one-character case of
      its contract this fixes Clean on every input, order and repetitions
      included. */
  lemma {:induction false} CleanAppend(a: string, b: string)
    ensures Clean(a + b) == Clean(a) + Clean(b)
  {
    if |a| == 0 {
      assert a + b == b;
    } else {
      assert (a + b)[1..] == a[1..] + b;
      CleanAppend(a[1..], b);
    }
  }

  /** part.padStart(2, '0'): at least two characters, short parts prefixed by zeros. */
  function PadDatePart(part: string): (r: string)
    ensures |r| == if |part| >= 2 then |part| else 2
    ensures r[|r| - |part|..] == part
    ensures forall i :: 0 <= i < |r| - |part| ==> r[i] == '0'
    ensures forall c :: c in r ==> c == '0' || c in part
  {
    if |part| >= 2 then part else if |part| == 1 then "0" + part else "00"
  }

  /** The normaliser applied to the password of a student login. The empty
      string is falsy and passes through untouched; anything else is cleaned,
      then reshaped to DD/MM/YYYY when it has exactly three slash-separated
      parts or is exactly eight characters without a slash. */
  function Normalize(raw: string): (r: string)
    ensures IsSecretText(r)
    ensures raw == "" ==> r == ""
  {
    if raw == "" then raw
    else
      var clean := Clean(raw);
      if '/' in clean then
        var parts := Split(clean, '/');
        if |parts| == 3 then Slashed(PadDatePart(parts[0]), PadDatePart(parts[1]), parts[2])
        else clean
      else if |clean| == 8 then Slashed(clean[..2], clean[2..4], clean[4..8])
      else clean
  }

  /** The login input, present or absent: an absent password is passed on as is. */
  function NormalizeInput(password: Option<string>): (r: Option<string>)
    ensures r.None? <==> password.None?
    ensures password.Some? && password.value == "" ==> r == password
    ensures r.Some? ==> IsSecretText(r.value) || r.value == password.value
  {
    match password
    case None => None
    case Some(p) => Some(Normalize(p))
  }

  lemma SlashedIsSecretText(d: string, m: string, y: string)
    requires IsSecretText(d) && IsSecretText(m) && IsSecretText(y)
    ensures IsSecretText(Slashed(d, m, y))
  {
  }

  /** Characters other than digits and '/' are ignored: normalising the raw input
      and normalising its cleaned form agree. */
  lemma NormalizeIgnoresOtherCharacters(raw: string)
    ensures Normalize(raw) == Normalize(Clean(raw))
  {
    var clean := Clean(raw);
    if raw != "" && clean == "" {
      assert Normalize(raw) == "";
    }
  }

  /** Three slash-separated digit groups: day and month are padded to two
      digits with '0', the year is kept as typed. So 1/1/2550 becomes 01/01/2550. */
  lemma NormalizePadsDayAndMonth(d: string, m: string, y: string)
    requires AllDigits(d) && AllDigits(m) && AllDigits(y)
    ensures Normalize(Slashed(d, m, y)) == Slashed(PadDatePart(d), PadDatePart(m), y)
  {
    var raw := Slashed(d, m, y);
    DigitsExclude(d, '/');
    DigitsExclude(m, '/');
    DigitsExclude(y, '/');
    DigitsAreSecretText(d);
    DigitsAreSecretText(m);
    DigitsAreSecretText(y);
    assert IsSecretText(raw);
    assert raw[|d|] == '/';
    SplitSlashed(d, m, y);
  }

  /** Eight digits without a slash are read as DDMMYYYY: 01012550 becomes 01/01/2550. */
  lemma NormalizeReadsEightDigits(s: string)
    requires AllDigits(s) && |s| == 8
    ensures Normalize(s) == Slashed(s[..2], s[2..4], s[4..])
  {
    DigitsAreSecretText(s);
    DigitsExclude(s, '/');
  }

  lemma DigitsAreSecretText(s: string)
    requires AllDigits(s)
    ensures IsSecretText(s)
  {
    forall c | c in s
      ensures IsSecretChar(c)
    {
      var i :| 0 <= i < |s| && s[i] == c;
    }
  }

  /** Any other shape of cleaned input (a slash count other than two, or no
      slash and a length other than eight) is returned cleaned, not raw. */
  lemma NormalizeKeepsOtherShapesCleaned(raw: string)
    requires var clean := Clean(raw);
      (Occurrences(clean, '/') > 0 && Occurrences(clean, '/') != 2)
      || (Occurrences(clean, '/') == 0 && |clean| != 8)
    ensures Normalize(raw) == Clean(raw)
  {
    var clean := Clean(raw);
    if raw != "" && '/' !in clean {
      NoOccurrences(clean, '/');
    }
  }

  lemma {:induction false} NoOccurrences(s: string, c: char)
    requires c !in s
    ensures Occurrences(s, c) == 0
  {
    if |s| > 0 {
      assert s == [s[0]] + s[1..];
      NoOccurrences(s[1..], c);
    }
  }

  /** A date already in padded DD/MM/Y form is left as it is. */
  lemma NormalizeKeepsPaddedDate(d: string, m: string, y: string)
    requires IsSecretText(d) && IsSecretText(m) && IsSecretText(y)
    requires '/' !in d && '/' !in m && '/' !in y
    requires |d| >= 2 && |m| >= 2
    ensures Normalize(Slashed(d, m, y)) == Slashed(d, m, y)
  {
    var raw := Slashed(d, m, y);
    SlashedIsSecretText(d, m, y);
    assert raw[|d|] == '/';
    SplitSlashed(d, m, y);
  }

  /** A padded part keeps the characters of the part and gains only zeros. */
  lemma PaddedPartIsSecretText(part: string)
    requires IsSecretText(part) && '/' !in part
    ensures IsSecretText(PadDatePart(part)) && '/' !in PadDatePart(part) && |PadDatePart(part)| >= 2
  {
  }

  /** Normalising twice is the same as normalising once. */
  lemma NormalizeIdempotent(raw: string)
    ensures Normalize(Normalize(raw)) == Normalize(raw)
  {
    if raw != "" {
      var clean := Clean(raw);
      if '/' in clean {
        var parts := Split(clean, '/');
        if |parts| == 3 {
          assert forall c :: c in parts[0] || c in parts[1] || c in parts[2] ==> c in clean;
          PaddedPartIsSecretText(parts[0]);
          PaddedPartIsSecretText(parts[1]);
          NormalizeKeepsPaddedDate(PadDatePart(parts[0]), PadDatePart(parts[1]), parts[2]);
        }
      } else if |clean| == 8 {
        var d, m, y := clean[..2], clean[2..4], clean[4..8];
        assert forall c :: c in d || c in m || c in y ==> c in clean;
        NormalizeKeepsPaddedDate(d, m, y);
      }
    }
  }

  /** No input at all normalises to eight digits without a slash. */
  lemma NormalizeNeverYieldsEightBareDigits(raw: string)
    ensures !(AllDigits(Normalize(raw)) && |Normalize(raw)| == 8)
  {
    var r := Normalize(raw);
    if raw != "" {
      var clean := Clean(raw);
      if '/' in clean {
        var parts := Split(clean, '/');
        if |parts| == 3 {
          var d := PadDatePart(parts[0]);
          assert r[|d|] == '/';
        } else {
          var i :| 0 <= i < |clean| && clean[i] == '/';
          assert r[i] == '/';
        }
      } else if |clean| == 8 {
        assert r[2] == '/';
      }
    }
  }

  // ---------------------------------------------------------------------------
  // Derived secrets
  // ---------------------------------------------------------------------------

  /** A date of birth in the YYYY-MM-DD form the students table stores. */
  predicate IsIsoDate(dob: string) {
    && |dob| == 10
    && dob[4] == '-' && dob[7] == '-'
    && AllDigits(dob[..4]) && AllDigits(dob[5..7]) && AllDigits(dob[8..])
  }

  /** Buddhist-era year of a Gregorian year. */
  const BuddhistEraOffset: int := 543

  /** The secret set at registration (routes/auth.js:73-75): the date of birth
      split on '-', day / month / (year + 543). Missing parts render as
      "undefined" and an unparsable year as "NaN", as the template string does. */
  function RegistrationSecret(dob: string): string
  {
    var parts := Split(dob, '-');
    var year := parts[0];
    var month := if |parts| > 1 then parts[1] else "undefined";
    var day := if |parts| > 2 then parts[2] else "undefined";
    var beYear := match ParseInt(year)
      case Some(y) => IntToString(y + BuddhistEraOffset)
      case None => "NaN";
    Slashed(day, month, beYear)
  }

  lemma SplitIsoDate(dob: string)
    requires IsIsoDate(dob)
    ensures Split(dob, '-') == [dob[..4], dob[5..7], dob[8..]]
  {
    var y, m, d := dob[..4], dob[5..7], dob[8..];
    assert dob == y + "-" + m + "-" + d;
    assert y + "-" + m + "-" + d == y + "-" + (m + "-" + d);
    DigitsExclude(y, '-');
    DigitsExclude(m, '-');
    DigitsExclude(d, '-');
    assert [y, m, d][1..] == [m, d];
    assert [m, d][1..] == [d];
    assert Join([m, d], '-') == m + "-" + d;
    assert Join([y, m, d], '-') == y + "-" + (m + "-" + d);
    SplitJoin([y, m, d], '-');
  }

  /** The Buddhist-era year of an ISO date, rendered in decimal: the
      Gregorian year plus 543. */
  function BuddhistYear(dob: string): (r: string)
    requires IsIsoDate(dob)
    ensures AllDigits(r) && |r| >= 3
    ensures DecimalValue(r) == DecimalValue(dob[..4]) + BuddhistEraOffset
  {
    FourDigitRendering(DecimalValue(dob[..4]) + BuddhistEraOffset);
    RenderingLength(DecimalValue(dob[..4]) + BuddhistEraOffset, 2);
    NatToString(DecimalValue(dob[..4]) + BuddhistEraOffset)
  }

  /** For a date YYYY-MM-DD the registration secret is DD/MM/(YYYY+543). */
  lemma RegistrationSecretOfIsoDate(dob: string)
    requires IsIsoDate(dob)
    ensures RegistrationSecret(dob) == Slashed(dob[8..], dob[5..7], BuddhistYear(dob))
  {
    SplitIsoDate(dob);
  }

  /** The registration secret is exactly what the normaliser makes of itself,
      so typing it back verbatim logs in. */
  lemma RegistrationSecretIsFixedPoint(dob: string)
    requires IsIsoDate(dob)
    ensures Normalize(RegistrationSecret(dob)) == RegistrationSecret(dob)
  {
    RegistrationSecretOfIsoDate(dob);
    NormalizePadsDayAndMonth(dob[8..], dob[5..7], BuddhistYear(dob));
  }

  /** The slash-free form DDMM(YYYY+543) also normalises to the registration
      secret when the Buddhist-era year has four digits. */
  lemma EightDigitFormLogsIn(dob: string)
    requires IsIsoDate(dob)
    requires 457 <= DecimalValue(dob[..4]) <= 9456
    ensures Normalize(dob[8..] + dob[5..7] + BuddhistYear(dob)) == RegistrationSecret(dob)
  {
    var be := BuddhistYear(dob);
    FourDigitRendering(DecimalValue(dob[..4]) + BuddhistEraOffset);
    var s := dob[8..] + dob[5..7] + be;
    assert s[..2] == dob[8..] && s[2..4] == dob[5..7] && s[4..] == be;
    NormalizeReadsEightDigits(s);
    RegistrationSecretOfIsoDate(dob);
  }

  // The three accepted shapes of one date, 1/1/2550, 01/01/2550 and 01012550,
  // all normalise to 01/01/2550.

  lemma AcceptedShapeUnpadded()
    ensures Normalize(Slashed("1", "1", "2550")) == Slashed("01", "01", "2550")
  {
    assert PadDatePart("1") == "01";
    NormalizePadsDayAndMonth("1", "1", "2550");
  }

  lemma AcceptedShapePadded()
    ensures Normalize(Slashed("01", "01", "2550")) == Slashed("01", "01", "2550")
  {
    NormalizePadsDayAndMonth("01", "01", "2550");
  }

  lemma AcceptedShapeBare()
    ensures Normalize("01" + "01" + "2550") == Slashed("01", "01", "2550")
  {
    var s := "01" + "01" + "2550";
    assert s[..2] == "01" && s[2..4] == "01" && s[4..] == "2550";
    NormalizeReadsEightDigits(s);
  }

  /** The secret an admin reset sets, as written (routes/admin.js:116):
      dob.split('-').reverse().join(''), the Gregorian DDMMYYYY. */
  function ResetSecretAsWritten(dob: string): string
  {
    Concat(Reverse(Split(dob, '-')))
  }

  /** For an ISO date the reset secret is the eight bare digits DDMMYYYY. */
  lemma ResetSecretOfIsoDate(dob: string)
    requires IsIsoDate(dob)
    ensures ResetSecretAsWritten(dob) == dob[8..] + dob[5..7] + dob[..4]
    ensures AllDigits(ResetSecretAsWritten(dob)) && |ResetSecretAsWritten(dob)| == 8
  {
    SplitIsoDate(dob);
    var parts := [dob[..4], dob[5..7], dob[8..]];
    assert Reverse(parts) == [dob[8..], dob[5..7], dob[..4]];
    ConcatThree(dob[8..], dob[5..7], dob[..4]);
  }

  /** After a reset as written, no login input normalises to the new secret, so
      the student cannot log in with any password. */
  lemma ResetSecretUnreachable(dob: string, raw: string)
    requires IsIsoDate(dob)
    ensures !Verify(Normalize(raw), Hash(ResetSecretAsWritten(dob)))
  {
    ResetSecretOfIsoDate(dob);
    NormalizeNeverYieldsEightBareDigits(raw);
  }
}
