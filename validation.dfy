/** The field validators of the request models in
    backend/api-validation/resources/pydantic-models.py: the regular-expression
    constants, password strength, the cross-field checks of the user forms,
    the page count of a paginated response, the upload bounds and the
    formatter that turns validation errors into an error response.

    The patterns are applied with Python's `re.match` and end in `$`, which
    also matches just before one final newline: `DollarMatch` reproduces this.
    Character classes are ASCII (`\d` is `[0-9]`). */
module Validation {
  import opened Common

  /** `re.match('^' + body + '$', s)`: the body matches the whole string, or
      the whole string but one final "\n". */
  predicate DollarMatch(s: string, body: string -> bool)
  {
    body(s) || (|s| > 0 && s[|s| - 1] == '\n' && body(s[..|s| - 1]))
  }

  /** The error text a regex-constrained field reports. */
  function RegexError(pattern: string): string
  {
    "string does not match regex \"" + pattern + "\""
  }

  // ---------------------------------------------------------------------
  // Password strength: PASSWORD_PATTERN and validate_password
  // ---------------------------------------------------------------------

  predicate IsPasswordSpecial(c: char) { c in "@$!%*?&" }

  /** `[A-Za-z\d@$!%*?&]` */
  predicate IsPasswordChar(c: char)
  {
    IsLowerAscii(c) || IsUpperAscii(c) || IsDigit(c) || IsPasswordSpecial(c)
  }

  /** What the body of PASSWORD_PATTERN accepts: 8 to 128 allowed characters,
      among them (the four look-aheads) a lower-case letter, an upper-case
      letter, a digit and a special character. */
  predicate PasswordBody(b: string)
  {
    && 8 <= |b| <= 128
    && (forall i :: 0 <= i < |b| ==> IsPasswordChar(b[i]))
    && (exists i :: 0 <= i < |b| && IsLowerAscii(b[i]))
    && (exists i :: 0 <= i < |b| && IsUpperAscii(b[i]))
    && (exists i :: 0 <= i < |b| && IsDigit(b[i]))
    && (exists i :: 0 <= i < |b| && IsPasswordSpecial(b[i]))
  }

  const PasswordMessage: string :=
    "Password must be 8-128 characters and contain at least one uppercase letter, "
    + "one lowercase letter, one number, and one special character"

  /** Which character classes one pass over a string has seen. */
  datatype Seen = Seen(lower: bool, upper: bool, digit: bool, special: bool, allAllowed: bool)

  /** One left-to-right pass recording the classes the look-aheads ask for. */
  function Scan(s: string): (k: Seen)
    ensures k.lower <==> exists i :: 0 <= i < |s| && IsLowerAscii(s[i])
    ensures k.upper <==> exists i :: 0 <= i < |s| && IsUpperAscii(s[i])
    ensures k.digit <==> exists i :: 0 <= i < |s| && IsDigit(s[i])
    ensures k.special <==> exists i :: 0 <= i < |s| && IsPasswordSpecial(s[i])
    ensures k.allAllowed <==> forall i :: 0 <= i < |s| ==> IsPasswordChar(s[i])
  {
    if s == [] then Seen(false, false, false, false, true)
    else
      var rest := Scan(s[1..]);
      var c := s[0];
      assert forall i :: 1 <= i < |s| ==> s[i] == s[1..][i - 1];
      Seen(rest.lower || IsLowerAscii(c), rest.upper || IsUpperAscii(c),
           rest.digit || IsDigit(c), rest.special || IsPasswordSpecial(c),
           rest.allAllowed && IsPasswordChar(c))
  }

  /** The text `$` lets the body see: the input without one final "\n". */
  function WithoutFinalNewline(s: string): string
  {
    if |s| > 0 && s[|s| - 1] == '\n' then s[..|s| - 1] else s
  }

  /** The body accepts a string exactly when the scan saw every class it needs. */
  lemma PasswordBodyByScan(b: string)
    ensures PasswordBody(b) <==>
      (8 <= |b| <= 128 && Scan(b).allAllowed && Scan(b).lower && Scan(b).upper
       && Scan(b).digit && Scan(b).special)
  {
  }

  /** A string ending in "\n" is never a password body, so `$` can only help
      by ignoring that last character. */
  lemma NewlineEndsNoPasswordBody(s: string)
    ensures |s| > 0 && s[|s| - 1] == '\n' ==> !PasswordBody(s)
  {
    if |s| > 0 {
      assert s[|s| - 1] == '\n' ==> !IsPasswordChar(s[|s| - 1]);
    }
  }

  /** `validate_password`: returns the password unchanged when PASSWORD_PATTERN
      matches it (one trailing "\n" included), and the fixed message otherwise. */
  function ValidatePassword(password: string): (r: Result<string, string>)
    ensures r.Ok? <==> DollarMatch(password, PasswordBody)
    ensures r.Ok? ==> r.value == password
    ensures r.Err? ==> r.error == PasswordMessage
  {
    var b := WithoutFinalNewline(password);
    var k := Scan(b);
    PasswordBodyByScan(b);
    NewlineEndsNoPasswordBody(password);
    if 8 <= |b| <= 128 && k.allAllowed && k.lower && k.upper && k.digit && k.special
    then Ok(password)
    else Err(PasswordMessage)
  }

  /** The trailing-newline quirk: a strong password followed by one "\n" is
      accepted (and returned with the "\n"); two newlines are refused. */
  lemma PasswordTrailingNewline(b: string)
    requires PasswordBody(b)
    ensures ValidatePassword(b + "\n") == Ok(b + "\n")
    ensures ValidatePassword(b + "\n\n").Err?
  {
    var once := b + "\n";
    assert once[..|once| - 1] == b && once[|once| - 1] == '\n';
    assert DollarMatch(once, PasswordBody);
    var twice := once + "\n";
    assert b + "\n\n" == twice;
    assert twice[..|twice| - 1] == once && twice[|twice| - 1] == '\n';
    NewlineEndsNoPasswordBody(twice);
    NewlineEndsNoPasswordBody(once);
    assert !DollarMatch(twice, PasswordBody);
  }

  /** A password with all four kinds of character, 9 characters long. */
  lemma PasswordAccepted()
    ensures ValidatePassword("Passw0rd!") == Ok("Passw0rd!")
  {
    var s := "Passw0rd!";
    assert IsLowerAscii(s[1]) && IsUpperAscii(s[0]) && IsDigit(s[5]) && IsPasswordSpecial(s[8]);
    assert PasswordBody(s);
  }

  /** Each requirement is needed: strings that miss exactly one are refused. */
  lemma PasswordRefusals()
    ensures ValidatePassword("Pa0!abc").Err?       // 7 characters
    ensures ValidatePassword("password1!").Err?    // no upper-case letter
    ensures ValidatePassword("Passw0rd!#").Err?    // '#' is not allowed
  {
    var short := "Pa0!abc";
    assert short[|short| - 1] != '\n' && !PasswordBody(short);
    assert !DollarMatch(short, PasswordBody);
    var noUpper := "password1!";
    assert forall i :: 0 <= i < |noUpper| ==> !IsUpperAscii(noUpper[i]);
    assert noUpper[|noUpper| - 1] != '\n' && !PasswordBody(noUpper);
    assert !DollarMatch(noUpper, PasswordBody);
    var hash := "Passw0rd!#";
    assert !IsPasswordChar(hash[9]);
    assert hash[|hash| - 1] != '\n' && !PasswordBody(hash);
    assert !DollarMatch(hash, PasswordBody);
  }

  // ---------------------------------------------------------------------
  // USERNAME_PATTERN and the registration's username normalisation
  // ---------------------------------------------------------------------

  const UsernamePattern := "^[a-zA-Z0-9_]{3,30}$"

  /** `\w` restricted to ASCII: `[A-Za-z0-9_]`. */
  predicate IsWordChar(c: char)
  {
    IsLowerAscii(c) || IsUpperAscii(c) || IsDigit(c) || c == '_'
  }

  predicate UsernameBody(b: string)
  {
    3 <= |b| <= 30 && forall i :: 0 <= i < |b| ==> IsWordChar(b[i])
  }

  /** `UserRegistration.username`: the pattern is checked first, then the
      `username_lowercase` validator stores the lower-case form. */
  function RegisterUsername(username: string): (r: Result<string, string>)
    ensures r.Ok? <==> DollarMatch(username, UsernameBody)
    ensures r.Ok? ==> |r.value| == |username|
    ensures r.Ok? ==> forall i :: 0 <= i < |username| ==>
                        !IsUpperAscii(r.value[i]) && LowerChar(username[i]) == r.value[i]
    ensures r.Err? ==> r.error == RegexError(UsernamePattern)
  {
    if DollarMatch(username, UsernameBody) then Ok(ToLowerAscii(username))
    else Err(RegexError(UsernamePattern))
  }

  /** A stored username is itself a valid registration username, and
      registering it again stores the same value. */
  lemma RegisterUsernameIdempotent(username: string)
    requires RegisterUsername(username).Ok?
    ensures RegisterUsername(RegisterUsername(username).value) == RegisterUsername(username)
  {
    var low := ToLowerAscii(username);
    ToLowerIdempotent(username);
    if UsernameBody(username) {
      assert UsernameBody(low);
    } else {
      var b := username[..|username| - 1];
      assert low[..|low| - 1] == ToLowerAscii(b);
      assert UsernameBody(ToLowerAscii(b));
    }
  }

  // ---------------------------------------------------------------------
  // PHONE_PATTERN (ITU-T E.164) and the UUID pattern (RFC 4122, section 3)
  // ---------------------------------------------------------------------

  function PhoneDigits(b: string): string
  {
    if |b| > 0 && b[0] == '+' then b[1..] else b
  }

  /** `\+?[1-9]\d{1,14}`: an optional '+', then a non-zero digit and 1 to 14 more. */
  predicate PhoneBody(b: string)
  {
    var d := PhoneDigits(b);
    2 <= |d| <= 15 && '1' <= d[0] <= '9' && forall i :: 0 <= i < |d| ==> IsDigit(d[i])
  }

  function CountDigits(s: string): (n: nat)
    ensures n <= |s|
  {
    if s == [] then 0 else (if IsDigit(s[0]) then 1 else 0) + CountDigits(s[1..])
  }

  lemma {:induction false} CountAllDigits(s: string)
    requires forall i :: 0 <= i < |s| ==> IsDigit(s[i])
    ensures CountDigits(s) == |s|
  {
    if s != [] {
      CountAllDigits(s[1..]);
    }
  }

  /** E.164's limit: an accepted phone number carries 2 to 15 digits, the first
      of them not zero, and nothing but digits, a leading '+' and the final "\n"
      that `$` tolerates. */
  lemma {:induction false} PhoneWithinE164(s: string)
    requires DollarMatch(s, PhoneBody)
    ensures 2 <= CountDigits(s) <= 15
    ensures |s| <= 17
  {
    var b := WithoutFinalNewline(s);
    assert PhoneBody(b) by {
      if !PhoneBody(s) {
        assert b == s[..|s| - 1];
      }
    }
    var d := PhoneDigits(b);
    CountAllDigits(d);
    if |b| > 0 && b[0] == '+' {
      assert b == "+" + d;
      assert CountDigits(b) == CountDigits(d);
    }
    if b != s {
      assert s == b + "\n";
      CountDigitsAppend(b, "\n");
    }
  }

  lemma {:induction false} CountDigitsAppend(a: string, b: string)
    ensures CountDigits(a + b) == CountDigits(a) + CountDigits(b)
  {
    if a != [] {
      assert (a + b)[0] == a[0];
      assert (a + b)[1..] == a[1..] + b;
      CountDigitsAppend(a[1..], b);
    } else {
      assert a + b == b;
    }
  }

  /** Sixteen digits are one more than E.164 allows. */
  lemma PhoneExamples()
    ensures DollarMatch("+14155552671", PhoneBody)
    ensures !DollarMatch("+0123", PhoneBody)
    ensures !DollarMatch("1234567890123456", PhoneBody)
  {
    assert PhoneDigits("+14155552671") == "14155552671";
    assert PhoneDigits("+0123") == "0123";
    assert PhoneDigits("+0123"[..4]) == "012";
  }

  predicate IsLowerHex(c: char) { IsDigit(c) || 'a' <= c <= 'f' }

  predicate IsHyphenPosition(i: int) { i == 8 || i == 13 || i == 18 || i == 23 }

  /** `[0-9a-f]{8}-[0-9a-f]{4}-[0-9a-f]{4}-[0-9a-f]{4}-[0-9a-f]{12}` */
  predicate UuidBody(b: string)
  {
    |b| == 36 && forall i :: 0 <= i < 36 ==> if IsHyphenPosition(i) then b[i] == '-' else IsLowerHex(b[i])
  }

  predicate AllLowerHex(s: string) { forall i :: 0 <= i < |s| ==> IsLowerHex(s[i]) }

  /** The 8-4-4-4-12 layout of RFC 4122: a string matches the body exactly when
      it is five lower-case hex groups of those lengths joined by '-'. */
  lemma UuidGroups(b: string)
    ensures UuidBody(b) <==>
      (|b| == 36 && b == b[..8] + "-" + b[9..13] + "-" + b[14..18] + "-" + b[19..23] + "-" + b[24..]
       && AllLowerHex(b[..8]) && AllLowerHex(b[9..13]) && AllLowerHex(b[14..18])
       && AllLowerHex(b[19..23]) && AllLowerHex(b[24..]))
  {
    if |b| == 36 {
      var joined := b[..8] + "-" + b[9..13] + "-" + b[14..18] + "-" + b[19..23] + "-" + b[24..];
      assert |joined| == 36;
      assert forall i :: 0 <= i < 36 && !IsHyphenPosition(i) ==> joined[i] == b[i];
      assert joined[8] == '-' && joined[13] == '-' && joined[18] == '-' && joined[23] == '-';
      if UuidBody(b) {
        assert forall i :: 0 <= i < 36 ==> joined[i] == b[i];
      }
      if b == joined && AllLowerHex(b[..8]) && AllLowerHex(b[9..13]) && AllLowerHex(b[14..18])
         && AllLowerHex(b[19..23]) && AllLowerHex(b[24..]) {
        forall i | 0 <= i < 36 && !IsHyphenPosition(i) ensures IsLowerHex(b[i]) {
          if i < 8 { assert b[i] == b[..8][i]; }
          else if i < 13 { assert b[i] == b[9..13][i - 9]; }
          else if i < 18 { assert b[i] == b[14..18][i - 14]; }
          else if i < 23 { assert b[i] == b[19..23][i - 19]; }
          else { assert b[i] == b[24..][i - 24]; }
        }
      }
    }
  }

  /** `UUIDStr.id`: only lower-case hex digits are accepted. */
  lemma UuidUpperCaseRefused(b: string, i: nat)
    requires |b| == 36 && i < 36 && IsUpperAscii(b[i])
    ensures !DollarMatch(b, UuidBody)
  {
  }

  // ---------------------------------------------------------------------
  // Cross-field checks of the search and user forms
  // ---------------------------------------------------------------------

  /** A `datetime`: `instant` in whole seconds (UTC for an aware value, wall
      clock for a naive one) and whether it carries a time zone. */
  datatype DateTime = DateTime(instant: int, aware: bool)

  const RangeMessage := "date_to must be after date_from"
  /** The `TypeError` Python raises for `<` between a naive and an aware
      datetime; the validation library reports it on `date_to`. */
  const NaiveAwareMessage := "can't compare offset-naive and offset-aware datetimes"

  /** `SearchParams.date_to_after_date_from`; a bound that is absent (or
      failed its own validation) is `None`. A present datetime is always
      truthy, so both bounds present is the only case that compares. */
  function CheckDateRange(dateFrom: Option<DateTime>, dateTo: Option<DateTime>)
    : (r: Result<Option<DateTime>, string>)
    ensures r.Err? <==>
              dateFrom.Some? && dateTo.Some?
              && (dateFrom.value.aware != dateTo.value.aware || dateTo.value.instant < dateFrom.value.instant)
    ensures r.Ok? ==> r.value == dateTo
    ensures r == Err(NaiveAwareMessage) <==>
              dateFrom.Some? && dateTo.Some? && dateFrom.value.aware != dateTo.value.aware
    ensures r == Err(RangeMessage) <==>
              dateFrom.Some? && dateTo.Some? && dateFrom.value.aware == dateTo.value.aware
              && dateTo.value.instant < dateFrom.value.instant
  {
    if dateTo.Some? && dateFrom.Some? then
      if dateTo.value.aware != dateFrom.value.aware then Err(NaiveAwareMessage)
      else if dateTo.value.instant < dateFrom.value.instant then Err(RangeMessage)
      else Ok(dateTo)
    else Ok(dateTo)
  }

  /** Equal bounds of the same kind, and either bound missing, are accepted;
      a naive and an aware bound are refused whatever their order. */
  lemma DateRangeAccepts(t: DateTime, u: Option<DateTime>)
    ensures CheckDateRange(Some(t), Some(t)) == Ok(Some(t))
    ensures CheckDateRange(None, u) == Ok(u) && CheckDateRange(u, None) == Ok(None)
    ensures CheckDateRange(Some(t), Some(t.(aware := !t.aware, instant := t.instant + 1))) == Err(NaiveAwareMessage)
  {
  }

  const MismatchMessage := "Passwords do not match"
  const SameAsCurrentMessage := "New password must be different from current password"

  /** `passwords_match` of UserRegistration and PasswordReset. A field that
      failed its own validation is absent from `values`, so it reads as `None`. */
  function PasswordsMatch(password: Option<string>, confirm: Option<string>): (r: Result<(), string>)
    ensures r.Ok? <==> password == confirm
    ensures r.Err? ==> r.error == MismatchMessage
  {
    if password != confirm then Err(MismatchMessage) else Ok(())
  }

  /** A password refused by `validate_password` is missing from `values`, so the
      root validator reports a mismatch as well, whatever was confirmed. */
  lemma WeakPasswordAlsoMismatches(password: string, confirm: string)
    requires ValidatePassword(password).Err?
    ensures PasswordsMatch(if ValidatePassword(password).Ok? then Some(password) else None, Some(confirm))
            == Err(MismatchMessage)
  {
  }

  /** `PasswordChange.passwords_match`: the confirmation is checked first, then
      the new password must differ from the current one. */
  function PasswordChangeCheck(current: Option<string>, newPassword: Option<string>, confirm: Option<string>)
    : (r: Result<(), string>)
    ensures r.Ok? <==> newPassword == confirm && newPassword != current
    ensures r == Err(MismatchMessage) <==> newPassword != confirm
    ensures r == Err(SameAsCurrentMessage) <==> newPassword == confirm && newPassword == current
  {
    if newPassword != confirm then Err(MismatchMessage)
    else if newPassword == current then Err(SameAsCurrentMessage)
    else Ok(())
  }

  /** `must_accept_terms` */
  function MustAcceptTerms(accepted: bool): (r: Result<bool, string>)
    ensures r.Ok? <==> accepted
    ensures r.Ok? ==> r.value
    ensures r.Err? ==> r.error == "You must accept the terms and conditions"
  {
    if !accepted then Err("You must accept the terms and conditions") else Ok(accepted)
  }

  /** `email_lowercase`: the stored address is the input with each letter
      lowered; it has no upper-case letter and is unchanged by a second pass. */
  function EmailLowercase(email: string): (r: string)
    ensures |r| == |email|
    ensures forall i :: 0 <= i < |email| ==> r[i] == LowerChar(email[i])
    ensures forall i :: 0 <= i < |r| ==> !IsUpperAscii(r[i])
    ensures ToLowerAscii(r) == r
  {
    ToLowerIdempotent(email);
    ToLowerAscii(email)
  }

  // ---------------------------------------------------------------------
  // PaginatedResponse.calculate_pages
  // ---------------------------------------------------------------------

  /** `calculate_pages`: the supplied `pages` is ignored; `total` defaults to 0
      and `limit` to 20 when absent from `values`. With a positive limit the
      result is the ceiling of total/limit, otherwise 0. */
  function CalculatePages(supplied: int, total: Option<int>, limit: Option<int>): (pages: int)
    ensures var t := if total.Some? then total.value else 0;
            var l := if limit.Some? then limit.value else 20;
            (l > 0 ==> pages * l >= t && (pages - 1) * l < t) && (l <= 0 ==> pages == 0)
  {
    var t := if total.Some? then total.value else 0;
    var l := if limit.Some? then limit.value else 20;
    if l > 0 then CeilDivBounds(t, l); CeilDiv(t, l) else 0
  }

  lemma PagesExamples(supplied: int)
    ensures CalculatePages(supplied, Some(0), Some(20)) == 0
    ensures CalculatePages(supplied, Some(41), Some(20)) == 3
    ensures CalculatePages(supplied, Some(40), None) == 2
    ensures CalculatePages(supplied, Some(5), Some(0)) == 0
  {
  }

  // ---------------------------------------------------------------------
  // FileUpload and ImageUpload bounds
  // ---------------------------------------------------------------------

  const MiB := 1024 * 1024

  datatype FileUpload = FileUpload(filename: string, mimetype: string, size: int)

  predicate IsMimeSubtypeChar(c: char) { IsLowerAscii(c) || IsDigit(c) || c == '-' || c == '+' || c == '.' }

  /** `[a-z]+/[a-z0-9\-\+\.]+` with the '/' at position `k`. */
  predicate MimetypeSplitAt(b: string, k: int)
  {
    && 0 < k < |b| - 1 && b[k] == '/'
    && (forall i :: 0 <= i < k ==> IsLowerAscii(b[i]))
    && (forall i :: k < i < |b| ==> IsMimeSubtypeChar(b[i]))
  }

  predicate MimetypeBody(b: string)
  {
    exists k | 0 < k < |b| - 1 :: MimetypeSplitAt(b, k)
  }

  /** `FileUpload`: a 1 to 255 character name, a type/subtype mimetype, and a
      size above 0 and at most 50 MiB. */
  predicate ValidFileUpload(u: FileUpload)
  {
    && 1 <= |u.filename| <= 255
    && DollarMatch(u.mimetype, MimetypeBody)
    && 0 < u.size <= 50 * MiB
  }

  datatype ImageUpload = ImageUpload(filename: string, mimetype: string, size: int,
                                     width: Option<int>, height: Option<int>)

  const ImageMimetypes: seq<string> := ["image/jpeg", "image/png", "image/webp", "image/gif", "image/avif"]

  /** `ImageUpload`: one of five image types, at most 10 MiB, positive
      dimensions when given. */
  predicate ValidImageUpload(u: ImageUpload)
  {
    && 1 <= |u.filename| <= 255
    && u.mimetype in ImageMimetypes
    && 0 < u.size <= 10 * MiB
    && (u.width.Some? ==> u.width.value > 0)
    && (u.height.Some? ==> u.height.value > 0)
  }

  lemma ImageMimetypeIsMimetype(m: string)
    requires m in ImageMimetypes
    ensures MimetypeSplitAt(m, 5)
  {
    assert m[..5] == "image";
    assert forall i :: 0 <= i < 5 ==> m[i] == "image"[i];
  }

  /** Every valid image upload is also a valid generic file upload. */
  lemma ImageUploadIsFileUpload(u: ImageUpload)
    requires ValidImageUpload(u)
    ensures ValidFileUpload(FileUpload(u.filename, u.mimetype, u.size))
  {
    ImageMimetypeIsMimetype(u.mimetype);
  }

  /** The size bound is inclusive: exactly 50 MiB passes, one byte more and an
      empty file do not. */
  lemma FileUploadSizeBounds(name: string)
    requires 1 <= |name| <= 255
    ensures ValidFileUpload(FileUpload(name, "image/png", 50 * MiB))
    ensures !ValidFileUpload(FileUpload(name, "image/png", 50 * MiB + 1))
    ensures !ValidFileUpload(FileUpload(name, "image/png", 0))
  {
    ImageMimetypeIsMimetype("image/png");
  }

  // ---------------------------------------------------------------------
  // format_validation_error
  // ---------------------------------------------------------------------

  datatype ErrorDetail = ErrorDetail(field: string, message: string)
  datatype ErrorResponse = ErrorResponse(error: string, details: Option<seq<ErrorDetail>>)

  /** `format_validation_error`: one detail per error, in order, whose field is
      the error location joined by '.' and whose message is the error's. */
  method FormatValidationError(errors: seq<ValidationIssue>) returns (response: ErrorResponse)
    ensures response.error == "Validation failed"
    ensures response.details.Some? && |response.details.value| == |errors|
    ensures forall i :: 0 <= i < |errors| ==>
              response.details.value[i] == ErrorDetail(LocPath(errors[i].loc), errors[i].msg)
  {
    var details: seq<ErrorDetail> := [];
    for i := 0 to |errors|
      invariant |details| == i
      invariant forall j :: 0 <= j < i ==> details[j] == ErrorDetail(LocPath(errors[j].loc), errors[j].msg)
    {
      details := details + [ErrorDetail(LocPath(errors[i].loc), errors[i].msg)];
    }
    response := ErrorResponse("Validation failed", Some(details));
  }
}
