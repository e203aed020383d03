/** The request gates of backend/fastapi-guide/resources/middleware-examples.py
    as decisions from the request's path and headers and the settings to an
    outcome: `AuthenticationMiddleware`, `MaintenanceModeMiddleware` and
    `validation_exception_handler`. The token verifier and the clock are
    arguments. */
module Middleware {
  import opened Common

  // ---------------------------------------------------------------------
  // str.split(" ")
  // ---------------------------------------------------------------------

  /** Position of the first `c` in `s`. */
  function IndexOf(s: string, c: char): (k: nat)
    requires c in s
    ensures k < |s| && s[k] == c && c !in s[..k]
  {
    if s[0] == c then 0 else 1 + IndexOf(s[1..], c)
  }

  /** The first `c` is at `k` when `s[k]` is one and none comes before. */
  lemma {:induction false} IndexOfFirst(s: string, c: char, k: nat)
    requires k < |s| && s[k] == c && c !in s[..k]
    ensures IndexOf(s, c) == k
  {
    if k > 0 {
      assert s[0] == s[..k][0];
      assert s[1..][..k - 1] == s[..k][1..];
      IndexOfFirst(s[1..], c, k - 1);
    }
  }

  /** Python's `s.split(sep)` with an explicit one-character separator: every
      occurrence splits, so neighbouring separators give empty fields. */
  function Split(s: string, sep: char): (parts: seq<string>)
    ensures |parts| >= 1
    ensures forall i :: 0 <= i < |parts| ==> sep !in parts[i]
    decreases |s|
  {
    if sep !in s then [s]
    else
      var k := IndexOf(s, sep);
      [s[..k]] + Split(s[k + 1..], sep)
  }

  /** Joining the fields with the separator gives back the string. */
  lemma {:induction false} SplitJoin(s: string, sep: char)
    ensures Join(Split(s, sep), [sep]) == s
    decreases |s|
  {
    if sep in s {
      var k := IndexOf(s, sep);
      SplitJoin(s[k + 1..], sep);
      var rest := Split(s[k + 1..], sep);
      assert Split(s, sep) == [s[..k]] + rest;
      assert Join([s[..k]] + rest, [sep]) == s[..k] + [sep] + Join(rest, [sep]);
      assert s == s[..k] + [sep] + s[k + 1..];
    }
  }

  /** Splitting a join of separator-free parts gives back the parts. */
  lemma {:induction false} JoinSplit(parts: seq<string>, sep: char)
    requires |parts| > 0
    requires forall i :: 0 <= i < |parts| ==> sep !in parts[i]
    ensures Split(Join(parts, [sep]), sep) == parts
  {
    if |parts| > 1 {
      var first := parts[0];
      var rest := Join(parts[1..], [sep]);
      var s := first + [sep] + rest;
      assert Join(parts, [sep]) == s;
      assert s[..|first|] == first && s[|first|] == sep;
      IndexOfFirst(s, sep, |first|);
      assert s[|first| + 1..] == rest;
      assert forall i :: 0 <= i < |parts| - 1 ==> parts[1..][i] == parts[i + 1];
      JoinSplit(parts[1..], sep);
      assert Split(s, sep) == [first] + Split(rest, sep);
      assert parts == [first] + parts[1..];
    }
  }

  /** The first field is the text before the first separator, the second the
      text between the first and the second. */
  lemma SplitFields(s: string, sep: char)
    requires sep in s
    ensures var k := IndexOf(s, sep);
            var after := s[k + 1..];
            |Split(s, sep)| >= 2 && Split(s, sep)[0] == s[..k]
            && Split(s, sep)[1] == (if sep in after then after[..IndexOf(after, sep)] else after)
  {
  }

  // ---------------------------------------------------------------------
  // AuthenticationMiddleware.dispatch
  // ---------------------------------------------------------------------

  const PublicPaths: seq<string> := ["/health", "/docs", "/redoc", "/openapi.json", "/auth/login", "/auth/register"]

  /** `any(path.startswith(p) for p in public_paths)`; `p <= path` is "p is a prefix of path". */
  predicate IsPublicPath(path: string)
  {
    exists p | p in PublicPaths :: p <= path
  }

  const BearerPrefix := "Bearer "

  /** `auth_header.split(" ")[1]`, for a header that starts with "Bearer ". */
  function BearerToken(header: string): string
    requires BearerPrefix <= header
  {
    assert header[6] == ' ';
    Split(header, ' ')[1]
  }

  datatype AuthDecision =
    | PublicPass
    | Authenticated(userId: int)
    | AuthRejected(status: int, error: string, wwwAuthenticate: string)

  /** `dispatch`: public paths pass unchecked; otherwise a missing header or
      one without the "Bearer " prefix gets 401 "Authentication required",
      and the token is handed to the verifier (`None` when it raises), whose
      failure gets 401 "Invalid or expired token". */
  function Authenticate(path: string, authorization: Option<string>, verifyToken: string -> Option<int>)
    : (d: AuthDecision)
    ensures d == PublicPass <==> IsPublicPath(path)
    ensures !IsPublicPath(path) && (authorization.None? || !(BearerPrefix <= authorization.value)) ==>
              d == AuthRejected(401, "Authentication required", "Bearer")
    ensures !IsPublicPath(path) && authorization.Some? && BearerPrefix <= authorization.value ==>
              var token := BearerToken(authorization.value);
              d == if verifyToken(token).Some? then Authenticated(verifyToken(token).value)
                   else AuthRejected(401, "Invalid or expired token", "Bearer")
  {
    if IsPublicPath(path) then PublicPass
    else if authorization.None? || authorization.value == "" || !(BearerPrefix <= authorization.value) then
      AuthRejected(401, "Authentication required", "Bearer")
    else
      var token := BearerToken(authorization.value);
      match verifyToken(token)
      case Some(userId) => Authenticated(userId)
      case None => AuthRejected(401, "Invalid or expired token", "Bearer")
  }

  /** The token is the second space-separated field: everything after
      "Bearer " up to the next space. */
  lemma BearerTokenIsSecondField(rest: string)
    ensures BearerToken(BearerPrefix + rest) == if ' ' in rest then rest[..IndexOf(rest, ' ')] else rest
  {
    var h := BearerPrefix + rest;
    assert IndexOf(h, ' ') == 6 by {
      assert h[..6] == "Bearer";
    }
    assert h[7..] == rest;
    SplitFields(h, ' ');
  }

  /** A token without spaces comes back unchanged. */
  lemma BearerTokenRoundTrip(t: string)
    requires ' ' !in t
    ensures BearerToken(BearerPrefix + t) == t
  {
    BearerTokenIsSecondField(t);
  }

  /** A second space cuts the token short. */
  lemma BearerTokenStopsAtSpace()
    ensures BearerToken("Bearer a b") == "a"
  {
    assert BearerPrefix + "a b" == "Bearer a b";
    BearerTokenIsSecondField("a b");
    assert "a b"[1..] == " b";
    assert IndexOf("a b", ' ') == 1;
  }

  /** A doubled space yields the empty token. */
  lemma BearerTokenAfterDoubleSpace()
    ensures BearerToken("Bearer  x") == ""
  {
    assert BearerPrefix + " x" == "Bearer  x";
    BearerTokenIsSecondField(" x");
    assert IndexOf(" x", ' ') == 0;
  }

  /** `p` is not a prefix of `s` when they differ at a position both have. */
  lemma NotPrefixAt(p: string, s: string, i: nat)
    requires i < |p| && i < |s| && p[i] != s[i]
    ensures !(p <= s)
  {
  }

  /** The public check is a prefix match: sub-paths and longer names of the
      public paths are public too. */
  lemma PublicPrefixExamples()
    ensures IsPublicPath("/healthz") && IsPublicPath("/docs/x")
  {
    assert "/health" in PublicPaths && "/health" <= "/healthz";
    assert "/docs" in PublicPaths && "/docs" <= "/docs/x";
  }

  /** The API itself is not public. */
  lemma ApiPathNotPublic()
    ensures !IsPublicPath("/api/users")
  {
    var path := "/api/users";
    assert path[1] == 'a' && path[2] == 'p';
    NotPrefixAt("/health", path, 1);
    NotPrefixAt("/docs", path, 1);
    NotPrefixAt("/redoc", path, 1);
    NotPrefixAt("/openapi.json", path, 1);
    NotPrefixAt("/auth/login", path, 2);
    NotPrefixAt("/auth/register", path, 2);
  }

  // ---------------------------------------------------------------------
  // MaintenanceModeMiddleware.dispatch
  // ---------------------------------------------------------------------

  const DefaultMaintenanceMessage := "We'll be back soon!"

  datatype GateDecision = Forward | Unavailable(status: int, error: string, message: string)

  /** `dispatch`: the health check always passes; every other path gets 503
      exactly when maintenance mode is on, with the configured message, or the
      default one when that is unset or empty. */
  function MaintenanceGate(path: string, maintenanceMode: bool, message: Option<string>): (d: GateDecision)
    ensures d.Unavailable? <==> path != HealthPath && maintenanceMode
    ensures d.Unavailable? ==> d.status == 503 && d.error == "Service under maintenance"
    ensures d.Unavailable? && message.Some? && message.value != "" ==> d.message == message.value
    ensures d.Unavailable? && (message.None? || message.value == "") ==> d.message == DefaultMaintenanceMessage
  {
    if path == HealthPath then Forward
    else if maintenanceMode then
      Unavailable(503, "Service under maintenance",
                  if message.Some? && message.value != "" then message.value else DefaultMaintenanceMessage)
    else Forward
  }

  // ---------------------------------------------------------------------
  // validation_exception_handler
  // ---------------------------------------------------------------------

  datatype FieldError = FieldError(field: string, message: string, kind: string)

  datatype ValidationErrorResponse =
    ValidationErrorResponse(status: int, error: string, details: seq<FieldError>, timestamp: string)

  /** `validation_exception_handler`: status 400 and one entry per error, in
      order, with the dotted location, the message and the error type;
      `timestamp` stands for `datetime.utcnow().isoformat()`. */
  method ValidationExceptionHandler(errors: seq<ValidationIssue>, timestamp: string)
    returns (response: ValidationErrorResponse)
    ensures response.status == 400 && response.error == "Validation failed"
    ensures response.timestamp == timestamp
    ensures |response.details| == |errors|
    ensures forall i :: 0 <= i < |errors| ==>
              response.details[i] == FieldError(LocPath(errors[i].loc), errors[i].msg, errors[i].kind)
  {
    var details: seq<FieldError> := [];
    for i := 0 to |errors|
      invariant |details| == i
      invariant forall j :: 0 <= j < i ==>
                  details[j] == FieldError(LocPath(errors[j].loc), errors[j].msg, errors[j].kind)
    {
      details := details + [FieldError(LocPath(errors[i].loc), errors[i].msg, errors[i].kind)];
    }
    response := ValidationErrorResponse(400, "Validation failed", details, timestamp);
  }

  /** The dotted location reads back: when no field name holds a '.', splitting
      it on '.' gives the rendered components, one per location item. */
  lemma LocPathFields(loc: seq<LocItem>)
    requires |loc| > 0
    requires forall k :: 0 <= k < |loc| ==> loc[k].Key? ==> '.' !in loc[k].name
    ensures Split(LocPath(loc), '.') == LocStrings(loc)
  {
    var parts := LocStrings(loc);
    forall k | 0 <= k < |parts| ensures '.' !in parts[k] {
      if loc[k].Index? {
        IntToStringChars(loc[k].i);
        var t := IntToString(loc[k].i);
        forall j | 0 <= j < |t| ensures t[j] != '.' {
        }
      }
    }
    JoinSplit(parts, '.');
  }

  /** A location path renders field names and list indices joined by '.'. */
  lemma LocPathExample()
    ensures LocPath([Key("users"), Index(2), Key("email")]) == "users.2.email"
  {
    assert NatToString(2) == "2";
    assert LocStrings([Key("users"), Index(2), Key("email")]) == ["users", "2", "email"];
  }
}
